/** The single-CPU scheduler of kernel/thread_amd64.c as an abstract machine: the run queue is a
    sequence, suspended threads' frames are a map, and stacks are blocks of the abstract heap.
    ThreadCode.dfy proves that the code, with its links, its heap bytes and its pushes and pops,
    does exactly these steps. */
module Sched {
  import opened Wrappers
  import opened HeapModel
  import opened HeapCode

  const POOL := 64             // MAX_THREADS
  const MAIN := 64             // the slot of main_thread, beside the pool's 0..63
  const STACK_SIZE := 4096
  const AFF_ANY := 0xFFFF_FFFF
  const TRAMPOLINE := 1        // address of thread_trampoline
  const AFTER_SWITCH := 2      // the return address that sched_yield's call of cpu_switch pushes

  datatype TState = Unused | Runnable | Zombie

  datatype Tcb = Tcb(fn: nat, state: TState, stack: Option<nat>, aff: nat, token: int)

  /** The callee-saved registers of the System V AMD64 ABI. */
  datatype Regs = Regs(rbp: nat, rbx: nat, r12: nat, r13: nat, r14: nat, r15: nat)

  const ZERO_REGS := Regs(0, 0, 0, 0, 0, 0)

  /** What a thread gets back when it is switched in. */
  datatype Frame = Frame(regs: Regs, sp: nat, pc: nat)

  /** `ring` starts at main_thread; `cpu` is the running thread's frame; `saved` has the others'.
      `from` is g_yield_from, -1 for NULL. */
  datatype Sys = Sys(ring: seq<nat>, tcb: seq<Tcb>, cur: nat, from: int,
                     base: nat, heap: Alloc, saved: map<nat, Frame>, cpu: Frame)

  datatype Op =
    | Spawn(fn: nat)
    | Work(cpu: Frame)           // the running thread computes
    | Exit                       // its function returns to thread_trampoline
    | Yield(disabled: bool)      // sched_yield, with the preemption count zero or not

  // ---------------------------------------------------------------- picking

  /** pick_next's test on CPU 0: state, affinity, and a token that compare-and-swap can take. */
  predicate Eligible(tcb: seq<Tcb>, t: nat) {
    t < |tcb| && tcb[t].state == Runnable && (tcb[t].aff == AFF_ANY || tcb[t].aff == 0) && tcb[t].token == -1
  }

  function IndexOf(s: seq<nat>, x: nat): (i: nat)
    ensures i <= |s|
    ensures i < |s| ==> s[i] == x
    ensures forall j :: 0 <= j < i ==> s[j] != x
    ensures x in s ==> i < |s|
  {
    if s == [] then 0 else if s[0] == x then 0 else 1 + IndexOf(s[1..], x)
  }

  /** The other threads in the order in which the links visit them from `cur`. */
  function Order(ring: seq<nat>, cur: nat): seq<nat> {
    var k := IndexOf(ring, cur);
    if k < |ring| then ring[k + 1..] + ring[..k] else []
  }

  function FirstEligible(tcb: seq<Tcb>, s: seq<nat>, default: nat): nat {
    if s == [] then default
    else if Eligible(tcb, s[0]) then s[0]
    else FirstEligible(tcb, s[1..], default)
  }

  function Pick(s: Sys): nat {
    FirstEligible(s.tcb, Order(s.ring, s.cur), s.cur)
  }

  // ---------------------------------------------------------------- steps

  function FirstUnused(tcb: seq<Tcb>, from: nat := 0): (i: nat)
    requires from <= POOL <= |tcb|
    ensures from <= i <= POOL
    ensures i < POOL ==> tcb[i].state == Unused
    ensures forall j :: from <= j < i ==> tcb[j].state != Unused
    decreases POOL - from
  {
    if from == POOL || tcb[from].state == Unused then from else FirstUnused(tcb, from + 1)
  }

  function StackTop(base: nat, heap: Alloc, b: nat): nat {
    Payload(base, heap, b) + STACK_SIZE
  }

  function SpawnStep(s: Sys, fn: nat): Sys
    requires |s.tcb| == POOL + 1
  {
    var t := FirstUnused(s.tcb);
    if fn == 0 || t == POOL then s else
    var (heap, b) := Malloc(s.heap, Need(STACK_SIZE));
    if b.None? then s.(heap := heap) else
    s.(ring := if s.ring == [] then [] else [s.ring[0], t] + s.ring[1..],
       tcb := s.tcb[t := Tcb(fn, Runnable, b, AFF_ANY, -1)],
       heap := heap,
       saved := s.saved[t := Frame(ZERO_REGS, StackTop(s.base, heap, b.value), TRAMPOLINE)])
  }

  function Remove(ring: seq<nat>, z: nat): seq<nat> {
    var k := IndexOf(ring, z);
    if k < |ring| then ring[..k] + ring[k + 1..] else ring
  }

  /** There is a zombie to reap. */
  predicate Reapable(s: Sys) {
    0 <= s.from < |s.tcb| && s.from != MAIN && s.tcb[s.from].state == Zombie && s.tcb[s.from].stack.Some?
  }

  /** thread_reap_yield_from */
  function Reap(s: Sys): Sys {
    var z := s.from;
    if !Reapable(s) then
      s.(from := -1)
    else
      s.(from := -1,
         ring := Remove(s.ring, z),
         tcb := s.tcb[z := s.tcb[z].(state := Unused, stack := None)],
         heap := Free(s.heap, s.tcb[z].stack.value),
         saved := s.saved - {z})
  }

  /** The token moves from the old thread, unless it is a zombie, to the new one. */
  function PassToken(tcb: seq<Tcb>, prev: nat, next: nat): seq<Tcb>
    requires prev < |tcb| && next < |tcb|
  {
    var claimed := tcb[next := tcb[next].(token := 0)];
    if claimed[prev].state == Runnable then claimed[prev := claimed[prev].(token := -1)] else claimed
  }

  /** sched_yield up to the instant cpu_switch returns, on the new thread's stack. */
  function Switch(s: Sys, next: nat): Sys
    requires s.cur < |s.tcb| && next < |s.tcb| && next in s.saved
  {
    s.(tcb := PassToken(s.tcb, s.cur, next),
       cur := next,
       from := s.cur,
       saved := (s.saved - {next})[s.cur := s.cpu.(pc := AFTER_SWITCH)],
       cpu := s.saved[next])
  }

  /** A thread suspended in sched_yield goes on to reap; a new one enters thread_trampoline. */
  function YieldStep(s: Sys): Sys {
    var next := Pick(s);
    if next == s.cur || s.cur >= |s.tcb| || next >= |s.tcb| || next !in s.saved then s else
    var s1 := Switch(s, next);
    if s1.cpu.pc == AFTER_SWITCH then Reap(s1) else s1
  }

  function Step(s: Sys, op: Op): Sys {
    if |s.tcb| != POOL + 1 then s else
    match op
    case Spawn(fn) => SpawnStep(s, fn)
    case Work(cpu) => s.(cpu := cpu)
    case Exit => if s.cur < POOL then s.(tcb := s.tcb[s.cur := s.tcb[s.cur].(state := Zombie)]) else s
    case Yield(disabled) => if disabled then s else YieldStep(s)
  }

  function Run(s: Sys, ops: seq<Op>): Sys
    decreases |ops|
  {
    if ops == [] then s else Run(Step(s, ops[0]), ops[1..])
  }

  /** thread_subsystem_early_init(1): main alone, running, with an empty heap. */
  function Boot(base: nat, cpu: Frame): Sys {
    Sys([MAIN], seq(POOL, i => Tcb(0, Unused, None, AFF_ANY, -1)) + [Tcb(0, Runnable, None, 0, 0)],
        MAIN, -1, base, EMPTY_HEAP, map[], cpu)
  }

  // ---------------------------------------------------------------- the invariant

  ghost predicate Distinct(s: seq<nat>) {
    forall i, j :: 0 <= i < j < |s| ==> s[i] != s[j]
  }

  /** The ring visits main_thread and exactly the slots in use, each once. */
  ghost predicate RingOk(s: Sys) {
    && |s.tcb| == POOL + 1
    && |s.ring| > 0 && s.ring[0] == MAIN && Distinct(s.ring)
    && (forall t: nat {:trigger t in s.ring} :: t in s.ring <==> t <= POOL && s.tcb[t].state != Unused)
    && s.cur in s.ring
    && s.tcb[MAIN].state == Runnable && s.tcb[MAIN].aff == 0 && s.tcb[MAIN].stack == None
    && (forall t: nat {:trigger s.tcb[t]} :: t < POOL ==> s.tcb[t].aff == AFF_ANY)
  }

  /** The running thread holds CPU 0's token and every other runnable thread can be claimed. */
  ghost predicate TokensOk(s: Sys)
    requires |s.tcb| == POOL + 1
  {
    forall t: nat {:trigger s.tcb[t]} :: t <= POOL && s.tcb[t].state == Runnable ==>
      s.tcb[t].token == if t == s.cur then 0 else -1
  }

  /** A slot has a stack exactly when it is in use; stacks are the live blocks, one each, all of
      them blocks of 4112 bytes. */
  ghost predicate StacksOk(s: Sys)
    requires |s.tcb| == POOL + 1
  {
    && s.heap.Wf()
    && Uniform(s.heap)
    && (forall t: nat {:trigger s.tcb[t]} :: t < POOL ==>
          (s.tcb[t].state != Unused <==> s.tcb[t].stack.Some?))
    && (forall t: nat {:trigger s.tcb[t].stack.value} :: t < POOL && s.tcb[t].stack.Some? ==>
          s.heap.Live(s.tcb[t].stack.value))
    && (forall t: nat, u: nat {:trigger s.tcb[t].stack.value, s.tcb[u].stack.value} ::
          t < u < POOL && s.tcb[t].stack.Some? && s.tcb[u].stack.Some? ==>
          s.tcb[t].stack.value != s.tcb[u].stack.value)
    && |s.ring| - 1 == s.heap.Count() - |s.heap.free|
  }

  /** Exactly the threads of the ring that are not running have a frame to come back to. */
  ghost predicate FramesOk(s: Sys)
    requires |s.tcb| == POOL + 1
  {
    && (forall t: nat {:trigger t in s.saved} :: t in s.saved <==> t in s.ring && t != s.cur)
    && (forall t: nat {:trigger s.saved[t]} ::
      t in s.saved ==> s.saved[t].pc == AFTER_SWITCH || s.saved[t].pc == TRAMPOLINE)
    && (MAIN in s.saved ==> s.saved[MAIN].pc == AFTER_SWITCH)
  }

  ghost predicate Inv(s: Sys) {
    RingOk(s) && TokensOk(s) && StacksOk(s) && FramesOk(s)
  }

  lemma BootInv(base: nat, cpu: Frame)
    ensures Inv(Boot(base, cpu))
  {
  }

  // ---------------------------------------------------------------- sequences

  lemma InsertSecond(s: seq<nat>, t: nat)
    requires |s| > 0 && Distinct(s) && t !in s
    ensures Distinct([s[0], t] + s[1..])
    ensures forall x: nat :: x in [s[0], t] + s[1..] <==> x in s || x == t
  {
    var r := [s[0], t] + s[1..];
    assert forall i :: 2 <= i < |r| ==> r[i] == s[i - 1];
    forall x: nat | x in s
      ensures x in r
    {
      var i :| 0 <= i < |s| && s[i] == x;
      assert r[if i == 0 then 0 else i + 1] == x;
    }
  }

  lemma RemoveOk(s: seq<nat>, z: nat)
    requires Distinct(s) && z in s
    ensures Distinct(Remove(s, z)) && |Remove(s, z)| == |s| - 1
    ensures forall x: nat :: x in Remove(s, z) <==> x in s && x != z
    ensures s[0] != z ==> |Remove(s, z)| > 0 && Remove(s, z)[0] == s[0]
  {
    Removed(s, IndexOf(s, z));
  }

  lemma InOrder(ring: seq<nat>, cur: nat)
    requires Distinct(ring) && cur in ring
    ensures forall x: nat :: x in Order(ring, cur) <==> x in ring && x != cur
  {
    var k := IndexOf(ring, cur);
    var o := Order(ring, cur);
    forall x: nat | x in ring && x != cur
      ensures x in o
    {
      var i :| 0 <= i < |ring| && ring[i] == x;
      assert o[if i > k then i - k - 1 else |ring| - k - 1 + i] == x;
    }
    forall x: nat | x in o
      ensures x in ring && x != cur
    {
      var j :| 0 <= j < |o| && o[j] == x;
      assert ring[if j < |ring| - k - 1 then j + k + 1 else j - (|ring| - k - 1)] == x;
    }
  }

  lemma {:induction false} FirstEligibleOk(tcb: seq<Tcb>, s: seq<nat>, default: nat)
    ensures var n := FirstEligible(tcb, s, default);
      (n in s && Eligible(tcb, n)) || (n == default && forall x :: x in s ==> !Eligible(tcb, x))
  {
    if s != [] {
      FirstEligibleOk(tcb, s[1..], default);
    }
  }

  // ---------------------------------------------------------------- every step keeps the invariant

  /** What pick_next returns: another eligible thread, or the current one when there is none. */
  lemma PickOk(s: Sys)
    requires RingOk(s)
    ensures var n := Pick(s);
      || (n != s.cur && n in s.ring && Eligible(s.tcb, n))
      || (n == s.cur && forall t :: t in s.ring && t != s.cur ==> !Eligible(s.tcb, t))
  {
    InOrder(s.ring, s.cur);
    FirstEligibleOk(s.tcb, Order(s.ring, s.cur), s.cur);
  }

  const STACK_BLOCK := 4112    // Need(STACK_SIZE)
  const MAX_STACKS := 63       // how many of them fit in the arena

  ghost predicate Uniform(a: Alloc) {
    forall i {:trigger a.cuts[i]} :: 0 <= i < |a.cuts| ==> a.cuts[i] == STACK_BLOCK * i
  }

  /** On a heap of stack blocks, kmalloc of a stack succeeds exactly when fewer than 63 are live. */
  lemma MallocStack(a: Alloc)
    requires a.Wf() && Uniform(a)
    ensures |a.free| <= a.Count() <= MAX_STACKS
    ensures var (a', b) := Malloc(a, Need(STACK_SIZE));
      && a'.Wf() && Uniform(a')
      && (b.Some? <==> a.Count() - |a.free| < MAX_STACKS)
      && (b.None? ==> a' == a)
      && (b.Some? ==>
            && !a.Live(b.value) && a'.Live(b.value)
            && (forall c: nat {:trigger a'.Live(c)} {:trigger a.Live(c)} ::
              c != b.value ==> (a'.Live(c) <==> a.Live(c)))
            && a'.Count() - |a'.free| == a.Count() - |a.free| + 1)
  {
    MallocOk(a, Need(STACK_SIZE));
    FreeCount(a.free, a.Count());
    assert a.cuts[|a.cuts| - 1] == STACK_BLOCK * (|a.cuts| - 1);
    if a.free != [] {
      assert a.Size(a.free[0]) == STACK_BLOCK;
    }
  }

  /** A duplicate-free list of numbers below `n` has at most `n` entries. */
  lemma {:induction false} FreeCount(f: seq<nat>, n: nat)
    requires forall k :: 0 <= k < |f| ==> f[k] < n
    requires Distinct(f)
    ensures |f| <= n
    decreases n
  {
    if f != [] {
      assert f[0] < n;
      var k := IndexOf(f, n - 1);
      if k < |f| {
        Removed(f, k);
        var g := f[..k] + f[k + 1..];
        assert forall i :: 0 <= i < |g| ==> g[i] == f[if i < k then i else i + 1] && g[i] in g;
        FreeCount(g, n - 1);
      } else {
        FreeCount(f, n - 1);
      }
    }
  }

  lemma SpawnInv(s: Sys, fn: nat)
    requires Inv(s)
    ensures Inv(SpawnStep(s, fn))
  {
    var t := FirstUnused(s.tcb);
    if fn != 0 && t != POOL {
      MallocStack(s.heap);
      var (heap, b) := Malloc(s.heap, Need(STACK_SIZE));
      if b.Some? {
        var s' := SpawnStep(s, fn);
        SpawnedInv(s, t, heap, b.value, s');
      }
    }
  }

  lemma SpawnedInv(s: Sys, t: nat, heap: Alloc, b: nat, s': Sys)
    requires Inv(s) && t < POOL && s.tcb[t].state == Unused
    requires heap.Wf() && Uniform(heap) && !s.heap.Live(b) && heap.Live(b)
    requires forall c: nat {:trigger s.heap.Live(c)} :: c != b ==> (heap.Live(c) <==> s.heap.Live(c))
    requires heap.Count() - |heap.free| == s.heap.Count() - |s.heap.free| + 1
    requires s'.ring == [s.ring[0], t] + s.ring[1..] && s'.cur == s.cur && s'.heap == heap
    requires |s'.tcb| == |s.tcb| && s'.tcb == s.tcb[t := s'.tcb[t]] && s'.tcb[t].stack == Some(b)
    requires s'.tcb[t].state == Runnable && s'.tcb[t].aff == AFF_ANY && s'.tcb[t].token == -1
    requires t in s'.saved && s'.saved == s.saved[t := s'.saved[t]] && s'.saved[t].pc == TRAMPOLINE
    ensures Inv(s')
  {
    assert t !in s.ring;
    InsertSecond(s.ring, t);
  }

  lemma SwitchInv(s: Sys, next: nat)
    requires Inv(s) && next != s.cur && next in s.ring && Eligible(s.tcb, next)
    ensures Inv(Switch(s, next))
  {
    var s' := Switch(s, next);
    assert forall t: nat :: t <= POOL ==> s'.tcb[t].state == s.tcb[t].state && s'.tcb[t].stack == s.tcb[t].stack;
  }

  lemma ReapInv(s: Sys)
    requires Inv(s) && s.from != s.cur
    ensures Inv(Reap(s))
  {
    if Reapable(s) {
      hide RingOk, TokensOk, StacksOk, FramesOk, Reap;
      ReapRing(s);
      ReapStacks(s);
      ReapTokens(s);
      ReapFrames(s);
    }
  }

  lemma ReapRing(s: Sys)
    requires RingOk(s) && s.from != s.cur && Reapable(s)
    ensures RingOk(Reap(s)) && |Reap(s).ring| == |s.ring| - 1
  {
    hide Free;
    assert s.from in s.ring;
    RemoveOk(s.ring, s.from);
    hide Remove;
  }

  lemma ReapTokens(s: Sys)
    requires |s.tcb| == POOL + 1 && TokensOk(s) && Reapable(s)
    ensures |Reap(s).tcb| == POOL + 1 && TokensOk(Reap(s))
  {
    hide Free, Remove;
  }

  lemma ReapStacks(s: Sys)
    requires RingOk(s) && StacksOk(s) && s.from != s.cur && Reapable(s)
    ensures |Reap(s).tcb| == POOL + 1 && StacksOk(Reap(s))
  {
    assert |Reap(s).ring| == |s.ring| - 1 by { ReapRing(s); }
    FreeOk(s.heap, s.tcb[s.from].stack.value);
    hide Remove, RingOk, Alloc.Wf;
  }

  lemma ReapFrames(s: Sys)
    requires RingOk(s) && FramesOk(s) && s.from != s.cur && Reapable(s)
    ensures |Reap(s).tcb| == POOL + 1 && FramesOk(Reap(s))
  {
    hide Free;
    assert s.from in s.ring;
    RemoveOk(s.ring, s.from);
    hide Remove;
  }

  lemma StepInv(s: Sys, op: Op)
    requires Inv(s)
    ensures Inv(Step(s, op))
  {
    match op
    case Spawn(fn) => SpawnInv(s, fn);
    case Work(_) =>
    case Exit =>
    case Yield(disabled) =>
      if !disabled {
        PickOk(s);
        var next := Pick(s);
        if next != s.cur {
          SwitchInv(s, next);
          ReapInv(Switch(s, next));
        }
      }
  }

  /** Ring shape, tokens, stacks and frames hold in every reachable state. */
  lemma {:induction false} RunInv(s: Sys, ops: seq<Op>)
    requires Inv(s)
    ensures Inv(Run(s, ops))
    decreases |ops|
  {
    if ops != [] {
      StepInv(s, ops[0]);
      RunInv(Step(s, ops[0]), ops[1..]);
    }
  }
}
