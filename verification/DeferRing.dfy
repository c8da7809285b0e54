/** kernel/sched.c and kernel/sched_amd64.c: per-CPU tick counters and the ring of deferred ticks. */
module DeferRing {
  const INTERVAL := 5          // PREEMPT_INTERVAL_TICKS
  const CAP := 16              // SCHED_DEFER_CAP
  const MAX_CPU := 32
  const W32 := 0x1_0000_0000
  const W64 := 0x1_0000_0000_0000_0000

  /** One CPU's g_tick, g_need_resched, g_defer_ring, g_defer_w, g_defer_r and g_defer_overflow. */
  datatype Cpu = Cpu(tick: nat, need: bool, ring: seq<nat>, w: nat, r: nat, overflow: nat)

  predicate Shape(c: Cpu) {
    |c.ring| == CAP && c.w < CAP && c.r < CAP
  }

  /** The entries from the read index to the write index, oldest first. */
  function Pending(c: Cpu): seq<nat>
    requires Shape(c)
  {
    Queue(c.ring, c.r, c.w)
  }

  function Queue(ring: seq<nat>, r: nat, w: nat): seq<nat>
    requires r < |ring| && w < |ring|
  {
    if r <= w then ring[r..w] else ring[r..] + ring[..w]
  }

  /** defer_push_tick: a full ring, one slot short, counts a drop instead. */
  function Push(c: Cpu, tick: nat): Cpu
    requires Shape(c)
  {
    var next := (c.w + 1) % CAP;
    if next == c.r then c.(overflow := (c.overflow + 1) % W32)
    else c.(ring := c.ring[c.w := tick % W32], w := next)
  }

  /** sched_timer_tick */
  function Tick(c: Cpu): Cpu
    requires Shape(c)
  {
    var c1 := c.(tick := (c.tick + 1) % W64);
    if c1.tick % INTERVAL == 0 then Push(c1.(need := true), c1.tick) else c1
  }

  /** sched_process_deferred: everything pending is drained, and the drops are reported. */
  function Drain(c: Cpu): Cpu {
    c.(r := c.w, overflow := 0)
  }

  const FRESH := Cpu(0, false, seq(CAP, _ => 0), 0, 0, 0)

  // ---------------------------------------------------------------- what a push and a drain do

  /** The ring is a queue of at most 15. */
  lemma PushQueues(c: Cpu, tick: nat)
    requires Shape(c)
    ensures Shape(Push(c, tick)) && |Pending(c)| <= 15
    ensures |Pending(c)| < 15 ==>
      Pending(Push(c, tick)) == Pending(c) + [tick % W32] && Push(c, tick).overflow == c.overflow
    ensures |Pending(c)| == 15 ==>
      Pending(Push(c, tick)) == Pending(c) && Push(c, tick).overflow == (c.overflow + 1) % W32
  {
    var next := (c.w + 1) % CAP;
    assert next == if c.w + 1 == CAP then 0 else c.w + 1;
    QueueLength(c.ring, c.r, c.w, next);
    if next != c.r {
      QueuePush(c.ring, c.r, c.w, next, tick % W32);
    }
    hide Queue;
  }

  lemma QueueLength(ring: seq<nat>, r: nat, w: nat, next: nat)
    requires r < |ring| && w < |ring| && next == if w + 1 == |ring| then 0 else w + 1
    ensures |Queue(ring, r, w)| < |ring| && (|Queue(ring, r, w)| == |ring| - 1 <==> next == r)
  {
  }

  lemma QueuePush(ring: seq<nat>, r: nat, w: nat, next: nat, v: nat)
    requires r < |ring| && w < |ring| && next == (if w + 1 == |ring| then 0 else w + 1) && next != r
    ensures Queue(ring[w := v], r, next) == Queue(ring, r, w) + [v]
  {
    if r <= w {
      ExtendUnwrapped(ring, r, w, v);
    } else {
      ExtendWrapped(ring, r, w, v);
    }
  }

  lemma ExtendUnwrapped(ring: seq<nat>, r: nat, w: nat, v: nat)
    requires r <= w < |ring|
    ensures ring[w := v][r..w + 1] == ring[r..w] + [v]
    ensures w + 1 == |ring| ==> ring[w := v][r..] + ring[w := v][..0] == ring[r..w] + [v]
  {
  }

  lemma ExtendWrapped(ring: seq<nat>, r: nat, w: nat, v: nat)
    requires w < r < |ring|
    ensures ring[w := v][r..] + ring[w := v][..w + 1] == ring[r..] + ring[..w] + [v]
  {
  }

  /** A reschedule is asked for at every fifth tick and stays asked for; a drain leaves that and the tick
      alone, and empties the ring and the count. */
  lemma FlagsAndTicks(c: Cpu)
    requires Shape(c) && c.tick + 1 < W64
    ensures Tick(c).tick == c.tick + 1 && (Tick(c).need <==> c.need || (c.tick + 1) % 5 == 0)
    ensures (c.tick + 1) % 5 != 0 ==> Tick(c) == c.(tick := c.tick + 1)
    ensures Drain(c).tick == c.tick && Drain(c).need == c.need && Drain(c).overflow == 0 && Pending(Drain(c)) == []
  {
  }

  // ---------------------------------------------------------------- runs

  datatype Op = TickOp | DrainOp | ClearResched

  /** A CPU with what it has drained and reported dropped so far. */
  datatype History = History(c: Cpu, out: seq<nat>, dropped: nat)

  function Step(h: History, op: Op): History
    requires Shape(h.c)
    ensures Shape(Step(h, op).c)
  {
    match op
    case TickOp => History(Tick(h.c), h.out, h.dropped)
    case DrainOp => History(Drain(h.c), h.out + Pending(h.c), h.dropped + h.c.overflow)
    case ClearResched => h.(c := h.c.(need := false))
  }

  function Run(h: History, ops: seq<Op>): (r: History)
    requires Shape(h.c)
    ensures Shape(r.c)
    decreases |ops|
  {
    if ops == [] then h else Run(Step(h, ops[0]), ops[1..])
  }

  function Ticks(ops: seq<Op>): nat
    decreases |ops|
  {
    if ops == [] then 0 else (if ops[0].TickOp? then 1 else 0) + Ticks(ops[1..])
  }

  /** Distinct multiples of 5, growing, none past the current tick. */
  ghost predicate Ascending(s: seq<nat>, tick: nat) {
    && (forall i :: 0 <= i < |s| ==> s[i] % INTERVAL == 0 && 0 < s[i] <= tick)
    && (forall i, j :: 0 <= i < j < |s| ==> s[i] < s[j])
  }

  /** Every fifth tick is drained, reported dropped, waiting in the ring, or counted as a drop to come. */
  ghost predicate Conserved(h: History) {
    && Shape(h.c)
    && h.c.tick / INTERVAL == |h.out| + h.dropped + |Pending(h.c)| + h.c.overflow
    && Ascending(h.out + Pending(h.c), h.c.tick)
  }

  lemma DivStep(t: nat)
    ensures (t + 1) / INTERVAL == t / INTERVAL + if (t + 1) % INTERVAL == 0 then 1 else 0
  {
  }

  /** The queue does not depend on the other fields. */
  lemma SamePending(c: Cpu, c': Cpu)
    requires Shape(c) && c'.ring == c.ring && c'.w == c.w && c'.r == c.r
    ensures Shape(c') && Pending(c') == Pending(c)
  {
  }

  lemma AscendLater(s: seq<nat>, t: nat)
    requires Ascending(s, t)
    ensures Ascending(s, t + 1)
    ensures (t + 1) % INTERVAL == 0 ==> Ascending(s + [t + 1], t + 1)
  {
  }

  lemma TickIs(c: Cpu)
    requires Shape(c) && c.tick + 1 < W32
    ensures
      var c1 := c.(tick := c.tick + 1);
      && Tick(c) == (if c1.tick % INTERVAL == 0 then Push(c1.(need := true), c1.tick) else c1)
      && Tick(c).tick == c.tick + 1
  {
  }

  lemma TickConserves(h: History)
    requires Conserved(h) && h.c.tick + 1 < W32
    ensures Conserved(Step(h, TickOp)) && Step(h, TickOp).c.tick == h.c.tick + 1
  {
    hide Pending, Ascending, Push, Tick;
    var c := h.c;
    var t := c.tick + 1;
    var c1 := c.(tick := t);
    var c2 := c1.(need := true);
    DivStep(c.tick);
    SamePending(c, c1);
    SamePending(c, c2);
    AscendLater(h.out + Pending(c), c.tick);
    PushQueues(c2, t);
    TickIs(c);
    var h' := Step(h, TickOp);
    assert t % W32 == t;
    if t % INTERVAL == 0 && |Pending(c)| < CAP - 1 {
      assert Pending(h'.c) == Pending(c) + [t];
      assert h.out + (Pending(c) + [t]) == h.out + Pending(c) + [t];
    } else {
      assert Pending(h'.c) == Pending(c);
    }
  }

  lemma StepConserves(h: History, op: Op)
    requires Conserved(h) && h.c.tick + 1 < W32
    ensures Conserved(Step(h, op))
    ensures Step(h, op).c.tick == h.c.tick + if op.TickOp? then 1 else 0
  {
    match op
    case TickOp => TickConserves(h);
    case DrainOp =>
      assert Pending(Drain(h.c)) == [];
      assert h.out + Pending(h.c) + [] == h.out + Pending(h.c);
    case ClearResched => SamePending(h.c, h.c.(need := false));
  }

  /** The order over any run of fewer than 2^32 ticks: what is drained comes out in the order of the ticks,
      and nothing is lost or made up. */
  lemma {:induction false} RunConserves(h: History, ops: seq<Op>)
    requires Conserved(h) && h.c.tick + Ticks(ops) + 1 < W32
    ensures Conserved(Run(h, ops)) && Run(h, ops).c.tick == h.c.tick + Ticks(ops)
    ensures |Pending(Run(h, ops).c)| <= CAP - 1
    decreases |ops|
  {
    if ops == [] {
      PushQueues(h.c, 0);
    } else {
      StepConserves(h, ops[0]);
      RunConserves(Step(h, ops[0]), ops[1..]);
    }
  }

  /** Fifth ticks that are not on the books. */
  function Missing(h: History): int
    requires Shape(h.c)
  {
    h.c.tick / INTERVAL - (|h.out| + h.dropped + |Pending(h.c)| + h.c.overflow)
  }

  /** How often in a run the 32-bit count of drops goes round. */
  function Wraps(h: History, ops: seq<Op>): nat
    requires Shape(h.c)
    decreases |ops|
  {
    if ops == [] then 0
    else
      var h' := Step(h, ops[0]);
      (if ops[0].TickOp? && h'.c.overflow < h.c.overflow then 1 else 0) + Wraps(h', ops[1..])
  }

  /** The counts over any run of fewer than 2^64 ticks: 2^32 fifth ticks are lost each time the count of
      drops goes round, and no other. */
  lemma {:induction false} CountsBalance(h: History, ops: seq<Op>)
    requires Shape(h.c) && h.c.overflow < W32 && h.c.tick + Ticks(ops) < W64
    ensures Missing(Run(h, ops)) == Missing(h) + W32 * Wraps(h, ops)
    decreases |ops|
  {
    if ops != [] {
      StepBalances(h, ops[0]);
      hide Step, Missing, Pending;
      CountsBalance(Step(h, ops[0]), ops[1..]);
    }
  }

  lemma StepBalances(h: History, op: Op)
    requires Shape(h.c) && h.c.overflow < W32 && (op.TickOp? ==> h.c.tick + 1 < W64)
    ensures
      var h' := Step(h, op);
      && h'.c.overflow < W32 && h'.c.tick == h.c.tick + (if op.TickOp? then 1 else 0)
      && Missing(h') == Missing(h) + if op.TickOp? && h'.c.overflow < h.c.overflow then W32 else 0
  {
    hide Pending;
    match op
    case TickOp =>
      var c1 := h.c.(tick := h.c.tick + 1);
      var c2 := c1.(need := true);
      DivStep(h.c.tick);
      SamePending(h.c, c1);
      SamePending(h.c, c2);
      PushQueues(c2, c2.tick);
    case DrainOp =>
      Empty(Drain(h.c));
    case ClearResched =>
      SamePending(h.c, h.c.(need := false));
  }

  // ---------------------------------------------------------------- when the books balance

  /** The fifth ticks since the last drain, by the schedule alone; `load` of them came before it. */
  function SinceDrain(load: nat, tick: nat, ops: seq<Op>): nat
    decreases |ops|
  {
    if ops == [] then load
    else
      var before := ops[..|ops| - 1];
      match ops[|ops| - 1]
      case DrainOp => 0
      case ClearResched => SinceDrain(load, tick, before)
      case TickOp =>
        SinceDrain(load, tick, before) + if (tick + Ticks(before) + 1) % INTERVAL == 0 then 1 else 0
  }

  /** What the ring and the count of drops hold. */
  function Load(h: History): nat
    requires Shape(h.c)
  {
    |Pending(h.c)| + h.c.overflow
  }

  /** Drops are counted only while the ring is full: so at boot, and after any step. */
  predicate Filled(h: History) {
    Shape(h.c) && h.c.overflow < W32 && (h.c.overflow > 0 ==> |Pending(h.c)| == CAP - 1)
  }

  /** The load is the number of fifth ticks since the last drain, until the count of drops wraps; it wraps
      at the fifth tick that makes the load 2^32 + 15. */
  lemma StepLoads(h: History, op: Op)
    requires Filled(h) && (op.TickOp? ==> h.c.tick + 1 < W64)
    ensures
      var h' := Step(h, op);
      var load := match op
        case DrainOp => 0
        case ClearResched => Load(h)
        case TickOp => Load(h) + if (h.c.tick + 1) % INTERVAL == 0 then 1 else 0;
      && (op.TickOp? && h'.c.overflow < h.c.overflow <==> load == W32 + CAP - 1)
      && Filled(h')
      && (load < W32 + CAP - 1 ==> Load(h') == load)
  {
    hide Pending;
    PushQueues(h.c, 0);
    match op
    case TickOp =>
      var c1 := h.c.(tick := h.c.tick + 1);
      var c2 := c1.(need := true);
      SamePending(h.c, c1);
      SamePending(h.c, c2);
      PushQueues(c2, c2.tick);
    case DrainOp =>
      Empty(Drain(h.c));
    case ClearResched =>
      SamePending(h.c, h.c.(need := false));
  }

  /** A run's last operation. */
  lemma {:induction false} LastOp(h: History, ops: seq<Op>)
    requires Shape(h.c) && ops != []
    ensures
      var (before, op) := (ops[..|ops| - 1], ops[|ops| - 1]);
      && Run(h, ops) == Step(Run(h, before), op)
      && Ticks(ops) == Ticks(before) + (if op.TickOp? then 1 else 0)
      && Wraps(h, ops) == Wraps(h, before) +
           if op.TickOp? && Run(h, ops).c.overflow < Run(h, before).c.overflow then 1 else 0
    decreases |ops|
  {
    var before := ops[..|ops| - 1];
    hide Step;
    if |ops| == 1 {
      assert before == [] && ops[1..] == [];
    } else {
      assert before[1..] == ops[1..][..|ops| - 2] && before[0] == ops[0];
      LastOp(Step(h, ops[0]), ops[1..]);
    }
  }

  lemma {:induction false} RunTicks(h: History, ops: seq<Op>)
    requires Shape(h.c) && h.c.overflow < W32 && h.c.tick + Ticks(ops) < W64
    ensures Run(h, ops).c.tick == h.c.tick + Ticks(ops)
    decreases |ops|
  {
    if ops != [] {
      StepBalances(h, ops[0]);
      hide Step, Missing;
      RunTicks(Step(h, ops[0]), ops[1..]);
    }
  }

  /** No wrap exactly when the schedule never lets 2^32 + 15 fifth ticks pass without a drain. */
  lemma {:induction false} NoWrapWhen(h: History, ops: seq<Op>)
    requires Filled(h) && h.c.tick + Ticks(ops) < W64
    ensures Wraps(h, ops) == 0 ==> Filled(Run(h, ops)) && Load(Run(h, ops)) == SinceDrain(Load(h), h.c.tick, ops)
    ensures Wraps(h, ops) == 0 <==>
      forall j {:trigger ops[..j]} :: 0 <= j <= |ops| ==> SinceDrain(Load(h), h.c.tick, ops[..j]) < W32 + CAP - 1
    decreases |ops|
  {
    hide Step, Load, Pending, Run, Wraps, SinceDrain, Ticks, Filled;
    if ops == [] {
      NothingYet(h);
      assert ops[..0] == [];
    } else {
      var before := ops[..|ops| - 1];
      LoadBound(h);
      LastOp(h, ops);
      RunTicks(h, before);
      NoWrapWhen(h, before);
      PrefixesOf(ops);
      if Wraps(h, before) == 0 {
        SinceLast(Load(h), h.c.tick, ops);
        StepLoads(Run(h, before), ops[|ops| - 1]);
        LoadBound(Run(h, before));
      }
    }
  }

  lemma NothingYet(h: History)
    requires Filled(h)
    ensures Run(h, []) == h && Wraps(h, []) == 0 && SinceDrain(Load(h), h.c.tick, []) == Load(h) < W32 + CAP - 1
  {
    LoadBound(h);
  }

  lemma PrefixesOf(ops: seq<Op>)
    requires ops != []
    ensures ops[..|ops|] == ops
    ensures forall j {:trigger ops[..j]} :: 0 <= j < |ops| ==> ops[..j] == ops[..|ops| - 1][..j]
    ensures forall j {:trigger ops[..|ops| - 1][..j]} :: 0 <= j < |ops| ==> ops[..j] == ops[..|ops| - 1][..j]
  {
  }

  lemma SinceLast(load: nat, tick: nat, ops: seq<Op>)
    requires ops != []
    ensures
      var (before, op) := (ops[..|ops| - 1], ops[|ops| - 1]);
      SinceDrain(load, tick, ops) == match op
        case DrainOp => 0
        case ClearResched => SinceDrain(load, tick, before)
        case TickOp => SinceDrain(load, tick, before) + if (tick + Ticks(before) + 1) % INTERVAL == 0 then 1 else 0
  {
    hide Ticks;
  }

  lemma LoadBound(h: History)
    requires Filled(h)
    ensures Shape(h.c) && h.c.overflow < W32 && Load(h) < W32 + CAP - 1
  {
    PushQueues(h.c, 0);
  }

  /** The books balance over a run of fewer than 2^64 ticks exactly when fewer than 2^32 + 15 fifth ticks
      ever pass without a drain. */
  lemma BooksBalance(h: History, ops: seq<Op>)
    requires Filled(h) && h.c.tick + Ticks(ops) < W64
    ensures Missing(Run(h, ops)) == Missing(h) <==>
      forall j {:trigger ops[..j]} :: 0 <= j <= |ops| ==> SinceDrain(Load(h), h.c.tick, ops[..j]) < W32 + CAP - 1
  {
    CountsBalance(h, ops);
    NoWrapWhen(h, ops);
    hide Missing, Wraps, SinceDrain, Run;
  }

  lemma {:induction false} TicksOnly(n: nat)
    ensures Ticks(seq(n, _ => TickOp)) == n
    ensures SinceDrain(0, 0, seq(n, _ => TickOp)) == n / INTERVAL
    decreases n
  {
    var ops := seq(n, _ => TickOp);
    if n > 0 {
      assert ops[..n - 1] == seq(n - 1, _ => TickOp);
      TicksOnly(n - 1);
      DivStep(n - 1);
      LastOp(History(FRESH, [], 0), ops);
    }
  }

  /** A CPU that never drains loses 2^32 fifth ticks at its 5 * (2^32 + 15)th tick, and none before. */
  lemma DropsLost(n: nat)
    requires n <= 5 * (0x1_0000_0000 + 15)
    ensures Missing(Run(History(FRESH, [], 0), seq(n, _ => TickOp))) ==
            if n == 5 * (0x1_0000_0000 + 15) then 0x1_0000_0000 else 0
  {
    var h, ops := History(FRESH, [], 0), seq(n, _ => TickOp);
    TicksOnly(n);
    CountsBalance(h, ops);
    if n < INTERVAL * (W32 + CAP - 1) {
      NeverFull(n);
    } else {
      var before := ops[..n - 1];
      assert before == seq(n - 1, _ => TickOp);
      TicksOnly(n - 1);
      NeverFull(n - 1);
      NoWrapWhen(h, before);
      RunTicks(h, before);
      LastOp(h, ops);
      StepLoads(Run(h, before), TickOp);
    }
    hide Run, Wraps, Step;
  }

  lemma NeverFull(n: nat)
    requires n < INTERVAL * (W32 + CAP - 1)
    ensures Wraps(History(FRESH, [], 0), seq(n, _ => TickOp)) == 0
  {
    var h, ops := History(FRESH, [], 0), seq(n, _ => TickOp);
    TicksOnly(n);
    forall j | 0 <= j <= |ops|
      ensures SinceDrain(0, 0, ops[..j]) < W32 + CAP - 1
    {
      assert ops[..j] == seq(j, _ => TickOp);
      TicksOnly(j);
    }
    NoWrapWhen(h, ops);
    hide Run, Wraps, SinceDrain, Ticks;
  }

  lemma FreshConserved()
    ensures Conserved(History(FRESH, [], 0))
  {
  }

  /** A drain empties the books: after it every fifth tick so far has been drained or reported. */
  lemma DrainSettles(h: History)
    requires Conserved(h)
    ensures var h' := Step(h, DrainOp); h'.c.tick / INTERVAL == |h'.out| + h'.dropped
  {
  }

  // ---------------------------------------------------------------- the code

  class Scheduler {
    const cpus: array<Cpu>

    ghost predicate Valid()
      reads cpus
    {
      cpus.Length == MAX_CPU && forall i :: 0 <= i < MAX_CPU ==> Shape(cpus[i])
    }

    /** sched_init */
    constructor ()
      ensures Valid() && fresh(cpus) && forall i :: 0 <= i < MAX_CPU ==> cpus[i] == FRESH
    {
      cpus := new Cpu[MAX_CPU](_ => FRESH);
    }

    /** sched_cpu_ix: an index out of range stands for CPU 0. */
    function CpuIx(ix: nat): (cpu: nat)
      ensures ix < 32 ==> cpu == ix
      ensures ix >= 32 ==> cpu == 0
    {
      if ix >= MAX_CPU then 0 else ix
    }

    method DeferPushTick(cpu: nat, tick: nat)
      requires Valid() && cpu < MAX_CPU
      modifies cpus
      ensures Valid() && cpus[..] == old(cpus[..])[cpu := Push(old(cpus[cpu]), tick)]
    {
      var w, r := cpus[cpu].w, cpus[cpu].r;
      var next := (w + 1) % CAP;
      if next == r {
        cpus[cpu] := cpus[cpu].(overflow := (cpus[cpu].overflow + 1) % W32);
        return;
      }
      cpus[cpu] := cpus[cpu].(ring := cpus[cpu].ring[w := tick % W32]);
      cpus[cpu] := cpus[cpu].(w := next);
    }

    /** sched_timer_tick on the CPU whose index is `ix`. */
    method TimerTick(ix: nat)
      requires Valid()
      modifies cpus
      ensures Valid() && cpus.Length == 32
      ensures forall i :: 0 <= i < 32 ==>
        cpus[i] == if i == ix || (i == 0 && ix >= 32) then Tick(old(cpus[i])) else old(cpus[i])
    {
      var cpu := CpuIx(ix);
      cpus[cpu] := cpus[cpu].(tick := (cpus[cpu].tick + 1) % W64);
      var t := cpus[cpu].tick;
      if t % INTERVAL == 0 {
        cpus[cpu] := cpus[cpu].(need := true);
        DeferPushTick(cpu, t);
      }
    }

    /** sched_process_deferred; `out` and `dropped` are what it prints, besides the count it returns. */
    method ProcessDeferred(ix: nat) returns (drained: nat, ghost out: seq<nat>, dropped: nat)
      requires Valid()
      modifies cpus
      ensures Valid() && cpus.Length == 32 && drained == |out|
      ensures forall i :: 0 <= i < 32 ==>
        cpus[i] == if i == ix || (i == 0 && ix >= 32) then Drain(old(cpus[i])) else old(cpus[i])
      ensures forall i {:trigger old(cpus[i])} :: 0 <= i < 32 && (i == ix || (i == 0 && ix >= 32)) ==>
        out == Pending(old(cpus[i])) && dropped == old(cpus[i].overflow)
    {
      hide Pending;
      var cpu := CpuIx(ix);
      ghost var c0 := cpus[cpu];
      drained, out := 0, [];
      while cpus[cpu].r != cpus[cpu].w
        invariant Valid() && cpus[..] == old(cpus[..])[cpu := c0.(r := cpus[cpu].r)]
        invariant Pending(c0) == out + Pending(cpus[cpu]) && drained == |out|
        decreases |Pending(cpus[cpu])|
      {
        var r := cpus[cpu].r;
        var v := cpus[cpu].ring[r];
        PopFront(cpus[cpu]);
        ghost var rest := Pending(cpus[cpu].(r := (r + 1) % CAP));
        assert out + ([v] + rest) == out + [v] + rest;
        out := out + [v];
        drained := drained + 1;
        cpus[cpu] := cpus[cpu].(r := (r + 1) % CAP);
      }
      Empty(cpus[cpu]);
      dropped := cpus[cpu].overflow;
      cpus[cpu] := cpus[cpu].(overflow := 0);
    }

    /** sched_clear_resched */
    method ClearReschedFlag(ix: nat)
      requires Valid()
      modifies cpus
      ensures Valid() && cpus.Length == 32
      ensures forall i :: 0 <= i < 32 ==>
        cpus[i] == if i == ix || (i == 0 && ix >= 32) then old(cpus[i]).(need := false) else old(cpus[i])
    {
      cpus[CpuIx(ix)] := cpus[CpuIx(ix)].(need := false);
    }
  }

  lemma Empty(c: Cpu)
    requires Shape(c)
    ensures Pending(c) == [] <==> c.r == c.w
  {
  }

  lemma PopFront(c: Cpu)
    requires Shape(c) && c.r != c.w
    ensures Pending(c) == [c.ring[c.r]] + Pending(c.(r := (c.r + 1) % CAP))
  {
    var next := (c.r + 1) % CAP;
    assert next == if c.r + 1 == CAP then 0 else c.r + 1;
    QueuePop(c.ring, c.r, c.w, next);
    hide Queue;
  }

  lemma QueuePop(ring: seq<nat>, r: nat, w: nat, next: nat)
    requires r < |ring| && w < |ring| && r != w && next == if r + 1 == |ring| then 0 else r + 1
    ensures Queue(ring, r, w) == [ring[r]] + Queue(ring, next, w)
  {
    if r < w {
      assert ring[r..w] == [ring[r]] + ring[r + 1..w];
    } else {
      ShrinkWrapped(ring, r, w);
    }
  }

  lemma ShrinkWrapped(ring: seq<nat>, r: nat, w: nat)
    requires w < r < |ring|
    ensures ring[r..] + ring[..w] == [ring[r]] + (ring[r + 1..] + ring[..w])
    ensures r + 1 == |ring| ==> ring[r..] + ring[..w] == [ring[r]] + ring[0..w]
  {
  }
}
