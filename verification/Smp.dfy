/** kernel/thread.c on any number of CPUs: the spinlock's exchange, pick_next's compare-and-swap, the
    release of the old token, thread exit, thread_ap_online and thread_spawn on CPU 0, in any interleaving.
    The lock's exchange and release and the stores to g_current and to tokens are steps of their own.  Merged
    into one step are, under the lock, a test with the store that it guards and enqueue_thread's two links,
    and outside it the fields of a slot that no other CPU can reach yet.
    No thread is reclaimed. */
module Smp {
  import opened Wrappers
  import HeapModel
  import opened Sched

  const NONE := -1

  datatype Purpose = ToYield | ToExit | ToSpawn(t: nat)

  /** Where a CPU stands. */
  datatype Pc =
    | Offline                          // before thread_ap_online
    | Onlining                         // g_current written, sched_token not yet
    | Running                          // in thread code
    | Trying(why: Purpose)             // about to exchange the lock word
    | Spinning(why: Purpose)           // reading the lock word until it is 0
    | Held(why: Purpose)               // lock taken
    | Picking(prev: nat, i: nat)       // pick_next at the i-th thread after `prev`
    | Claimed(prev: nat, next: nat)    // compare-and-swap succeeded
    | Released(prev: nat, next: nat)   // the old thread's token released, unless it is a zombie
    | Unlocking                        // about to clear the lock word

  /** Threads are numbered; `home[c]` is main_thread for CPU 0 and g_idle_for_cpu[c] for the others,
      NONE where there is none.  `ring` is the circle of links. */
  datatype Machine = Machine(lock: nat, pc: seq<Pc>, current: seq<int>, home: seq<int>,
                             ring: seq<nat>, state: seq<TState>, aff: seq<nat>, token: seq<int>)

  datatype Action = BeginYield | BeginExit | BeginOnline | BeginSpawn(t: nat) | Go

  function Target(s: Machine, prev: nat, i: nat): nat {
    var o := Order(s.ring, prev);
    if i < |o| then o[i] else prev
  }

  /** pick_next's tests on CPU `c`: state, affinity, and a compare-and-swap from -1. */
  predicate Claimable(s: Machine, c: nat, t: nat) {
    && t < |s.state| && t < |s.aff| && t < |s.token|
    && s.state[t] == Runnable && (s.aff[t] == AFF_ANY || s.aff[t] == c) && s.token[t] == -1
  }

  predicate Shape(s: Machine) {
    && |s.current| == |s.home| == |s.pc|
    && |s.aff| == |s.token| == |s.state|
  }

  predicate IsHome(s: Machine, t: int) {
    exists c :: 0 <= c < |s.home| && s.home[c] == t
  }

  /** One step of CPU `c`. */
  function Step(s: Machine, c: nat, a: Action): Machine
    requires Shape(s)
  {
    if c >= |s.pc| then s else
    var cur := s.current[c];
    match (s.pc[c], a)
    case (Offline, BeginOnline) =>
      if c == 0 || s.home[c] == NONE then s
      else s.(current := s.current[c := s.home[c]], pc := s.pc[c := Onlining])
    case (Onlining, Go) =>
      if 0 <= cur < |s.token| then s.(token := s.token[cur := c], pc := s.pc[c := Running]) else s
    case (Running, BeginYield) => s.(pc := s.pc[c := Trying(ToYield)])
    case (Running, BeginExit) =>
      if IsHome(s, cur) then s else s.(pc := s.pc[c := Trying(ToExit)])
    case (Running, BeginSpawn(t)) =>
      // the kernel spawns on CPU 0 only; the slot is filled in before the lock is taken
      if c != 0 || t >= |s.state| || s.state[t] != Unused then s
      else s.(state := s.state[t := Runnable], aff := s.aff[t := AFF_ANY], token := s.token[t := -1],
              pc := s.pc[c := Trying(ToSpawn(t))])
    case (Trying(why), Go) =>
      s.(lock := 1, pc := s.pc[c := if s.lock == 0 then Held(why) else Spinning(why)])
    case (Spinning(why), Go) =>
      if s.lock != 0 then s else s.(pc := s.pc[c := Trying(why)])
    case (Held(ToExit), Go) =>
      if 0 <= cur < |s.state| then s.(state := s.state[cur := Zombie], pc := s.pc[c := Unlocking]) else s
    case (Held(ToYield), Go) =>
      if 0 <= cur then s.(pc := s.pc[c := Picking(cur, 0)]) else s
    case (Held(ToSpawn(t)), Go) =>
      s.(ring := if s.ring == [] then [] else [s.ring[0], t] + s.ring[1..], pc := s.pc[c := Unlocking])
    case (Picking(prev, i), Go) =>
      var t := Target(s, prev, i);
      if t == prev then s.(pc := s.pc[c := Unlocking])
      else if Claimable(s, c, t) then s.(token := s.token[t := c], pc := s.pc[c := Claimed(prev, t)])
      else s.(pc := s.pc[c := Picking(prev, i + 1)])
    case (Claimed(prev, next), Go) =>
      if prev < |s.state| && s.state[prev] == Runnable && prev != next
      then s.(token := s.token[prev := -1], pc := s.pc[c := Released(prev, next)])
      else s.(pc := s.pc[c := Released(prev, next)])
    case (Released(_, next), Go) => s.(current := s.current[c := next], pc := s.pc[c := Unlocking])
    case (Unlocking, Go) => s.(lock := 0, pc := s.pc[c := Running])
    case _ => s
  }

  function Run(s: Machine, steps: seq<(nat, Action)>): Machine
    requires Shape(s)
    decreases |steps|
  {
    if steps == [] then s else Run(Step(s, steps[0].0, steps[0].1), steps[1..])
  }

  // ---------------------------------------------------------------- the invariant

  predicate InLock(p: Pc) {
    p.Held? || p.Picking? || p.Claimed? || p.Released? || p.Unlocking?
  }

  predicate Online(p: Pc) {
    !p.Offline?
  }

  predicate Allowed(s: Machine, c: nat, t: nat)
    requires t < |s.aff|
  {
    s.aff[t] == AFF_ANY || s.aff[t] == c
  }

  /** The lock word is 1 exactly while one CPU is between its exchange and its release. */
  ghost predicate LockOk(s: Machine) {
    && (s.lock == 0 ==> forall c :: 0 <= c < |s.pc| ==> !InLock(s.pc[c]))
    && (forall c, d :: 0 <= c < d < |s.pc| ==> !(InLock(s.pc[c]) && InLock(s.pc[d])))
  }

  /** What CPU `c` runs and holds. */
  ghost predicate CpuOk(s: Machine, c: nat)
    requires Shape(s) && c < |s.pc|
  {
    var cur, p := s.current[c], s.pc[c];
    && (p.Offline? ==> cur == NONE)
    && (Online(p) ==>
          && 0 <= cur < |s.state| && s.state[cur] != Unused && cur in s.ring
          && Allowed(s, c, cur)
          && (p.Onlining? ==> cur == s.home[c] && s.token[cur] == -1)
          && (!p.Onlining? && !p.Released? ==> s.token[cur] == c)
          && (p.Held? && p.why == ToExit ==> !IsHome(s, cur))
          && ((p.Trying? || p.Spinning?) && p.why == ToExit ==> !IsHome(s, cur))
          && ((p.Trying? || p.Spinning? || p.Held?) && p.why.ToSpawn? ==> c == 0 && SpawnOk(s, p.why.t)))
    && (p.Picking? ==> p.prev == cur && PickedOver(s, c, p.prev, p.i))
    && ((p.Claimed? || p.Released?) ==>
          && p.prev == cur && p.next != p.prev && p.next < |s.state| && p.next in s.ring
          && s.state[p.next] == Runnable && s.token[p.next] == c && Allowed(s, c, p.next))
    && (p.Released? ==> s.token[cur] == if s.state[cur] == Runnable then -1 else c)
  }

  /** A slot that thread_spawn has filled in and not yet linked: nobody knows of it. */
  ghost predicate SpawnOk(s: Machine, t: nat)
    requires Shape(s)
  {
    t < |s.state| && t !in s.ring && s.state[t] == Runnable && s.aff[t] == AFF_ANY && s.token[t] == -1
  }

  /** pick_next has passed over nothing that this CPU could have claimed. */
  ghost predicate PickedOver(s: Machine, c: nat, prev: nat, i: nat) {
    var o := Order(s.ring, prev);
    i <= |o| && forall j :: 0 <= j < i ==> !Claimable(s, c, o[j])
  }

  /** Who holds the token of thread `t`, when it is runnable. */
  ghost predicate ThreadOk(s: Machine, t: nat)
    requires Shape(s) && t < |s.state|
  {
    s.state[t] == Runnable && s.token[t] != -1 ==>
      && 0 <= s.token[t] < |s.pc|
      && var c := s.token[t];
         s.current[c] == t || ((s.pc[c].Claimed? || s.pc[c].Released?) && s.pc[c].next == t)
  }

  /** Home threads never exit and run on their own CPU only. */
  ghost predicate HomeOk(s: Machine, c: nat)
    requires Shape(s) && c < |s.pc|
  {
    s.home[c] != NONE ==>
      && 0 <= s.home[c] < |s.state| && s.home[c] in s.ring
      && s.state[s.home[c]] == Runnable && s.aff[s.home[c]] == c
  }

  ghost predicate Inv(s: Machine) {
    && Shape(s) && 0 < |s.pc| < AFF_ANY && Distinct(s.ring)
    && |s.ring| > 0 && s.ring[0] == s.home[0]      // main_thread
    && (forall t: nat {:trigger t in s.ring} :: t in s.ring ==> t < |s.state| && s.state[t] != Unused)
    && LockOk(s)
    && (forall c: nat {:trigger CpuOk(s, c)} :: c < |s.pc| ==> CpuOk(s, c))
    && (forall t: nat {:trigger ThreadOk(s, t)} :: t < |s.state| ==> ThreadOk(s, t))
    && (forall c: nat {:trigger HomeOk(s, c)} :: c < |s.pc| ==> HomeOk(s, c))
    && (forall c: nat :: c < |s.pc| && Online(s.pc[c]) ==> s.home[c] != NONE)
  }

  /** Before the APs come online: CPU 0 runs main_thread, the others are offline, and every other thread,
      idle or worker, can be claimed. */
  ghost predicate Booted(s: Machine) {
    && Shape(s) && 0 < |s.pc| < AFF_ANY && s.lock == 0
    && Distinct(s.ring) && |s.ring| > 0 && s.ring[0] == s.home[0]
    && (forall t: nat {:trigger t in s.ring} :: t in s.ring ==> t < |s.state| && s.state[t] != Unused)
    && s.pc[0] == Running && s.current[0] == s.home[0] && s.home[0] != NONE
    && (forall c: nat {:trigger s.pc[c]} :: 0 < c < |s.pc| ==> s.pc[c] == Offline && s.current[c] == NONE)
    && (forall c: nat {:trigger HomeOk(s, c)} :: c < |s.pc| ==> HomeOk(s, c))
    && (forall t: nat {:trigger s.token[t]} :: t < |s.state| ==> s.token[t] == if t == s.home[0] then 0 else -1)
  }

  lemma BootInv(s: Machine)
    requires Booted(s)
    ensures Inv(s)
  {
    assert HomeOk(s, 0);
  }

  const MAX_SMP_CPU := 32

  /** thread_subsystem_early_init: one idle thread for every CPU but the first, each allowed on its own CPU
      only, linked in behind main_thread.  The pool and the arena have room for all of them. */
  method EarlyInit(logicalCpus: nat) returns (s: Machine)
    ensures Booted(s) && |s.pc| == MAX_SMP_CPU && s.home[0] == MAIN
    ensures var lim := if logicalCpus == 0 then 1 else if logicalCpus > MAX_SMP_CPU then MAX_SMP_CPU else logicalCpus;
      && |s.ring| == lim
      && forall c :: 0 <= c < MAX_SMP_CPU ==> (s.home[c] != NONE <==> c < lim)
  {
    var lim := logicalCpus;
    if lim == 0 {
      lim := 1;
    }
    if lim > MAX_SMP_CPU {
      lim := MAX_SMP_CPU;
    }
    var tcb := seq(POOL, _ => Tcb(0, Unused, None, AFF_ANY, -1)) + [Tcb(0, Runnable, None, 0, 0)];
    var ring: seq<nat>, heap := [MAIN], HeapModel.EMPTY_HEAP;
    var home: seq<int> := seq(MAX_SMP_CPU, c => if c == 0 then MAIN else NONE);
    var k := 1;
    while k < lim
      invariant 1 <= k <= lim && |tcb| == POOL + 1 && |home| == MAX_SMP_CPU
      invariant |ring| == k && ring[0] == MAIN && Distinct(ring)
      invariant forall t: nat {:trigger t in ring} :: t in ring <==> t == MAIN || t < k - 1
      invariant forall t: nat {:trigger tcb[t]} :: t < POOL ==>
        && tcb[t].token == -1
        && (t < k - 1 ==> tcb[t].state == Runnable && tcb[t].aff == t + 1)
        && (t >= k - 1 ==> tcb[t].state == Unused)
      invariant tcb[MAIN] == Tcb(0, Runnable, None, 0, 0)
      invariant forall c: nat {:trigger home[c]} ::
        c < MAX_SMP_CPU ==> home[c] == if c == 0 then MAIN else if c < k then c - 1 else NONE
      invariant heap.Wf() && Uniform(heap) && heap.Count() == k - 1 && heap.free == []
    {
      var t := FirstUnused(tcb);
      assert tcb[k - 1].state == Unused;
      if t == POOL {
        break;
      }
      MallocStack(heap);
      var (heap', b) := HeapModel.Malloc(heap, HeapModel.Need(STACK_SIZE));
      heap := heap';
      if b.None? {
        break;
      }
      tcb := tcb[t := Tcb(1, Runnable, b, k, -1)];
      home := home[k := t];
      InsertSecond(ring, t);
      ring := [ring[0], t] + ring[1..];
      k := k + 1;
    }
    s := Machine(0, seq(MAX_SMP_CPU, c => if c == 0 then Running else Offline),
                 seq(MAX_SMP_CPU, c => if c == 0 then MAIN else NONE), home, ring,
                 seq(POOL + 1, t requires 0 <= t < |tcb| => tcb[t].state),
                 seq(POOL + 1, t requires 0 <= t < |tcb| => tcb[t].aff),
                 seq(POOL + 1, t requires 0 <= t < |tcb| => tcb[t].token));
    forall c: nat | c < |s.pc|
      ensures HomeOk(s, c)
    {
      assert home[c] != NONE ==> home[c] in ring;
    }
  }

  /** A step of CPU `c` leaves alone every thread in use but its current one and the one it claims. */
  lemma Untouched(s: Machine, c: nat, a: Action, u: nat)
    requires Inv(s) && c < |s.pc| && u < |s.state| && s.state[u] != Unused && s.current[c] != u
    requires s.pc[c].Picking? && u in s.ring ==> !Claimable(s, c, u)
    ensures var s' := Step(s, c, a);
      && Shape(s') && |s'.state| == |s.state|
      && s'.state[u] == s.state[u] && s'.token[u] == s.token[u] && s'.aff[u] == s.aff[u]
      && (u in s.ring ==> u in s'.ring)
      && (u !in s.ring && s.pc[c] != Held(ToSpawn(u)) ==> u !in s'.ring)
  {
    hide Order, LockOk, PickedOver, Distinct, Target, ThreadOk, HomeOk, IsHome;
    assert CpuOk(s, c);
    if s.pc[c].Picking? {
      TargetInRing(s, c);
    }
    if s.pc[c].Held? && s.pc[c].why.ToSpawn? {
      Linked(s.ring, s.pc[c].why.t);
    }
  }

  lemma TargetInRing(s: Machine, c: nat)
    requires Inv(s) && c < |s.pc| && s.pc[c].Picking?
    ensures Target(s, s.pc[c].prev, s.pc[c].i) in s.ring
  {
    assert CpuOk(s, c);
    hide Order, LockOk, ThreadOk, HomeOk;
    if s.pc[c].i < |Order(s.ring, s.pc[c].prev)| {
      OrderAt(s.ring, s.pc[c].prev, s.pc[c].i);
    }
  }

  lemma Linked(ring: seq<nat>, t: nat)
    requires ring != []
    ensures forall u: nat :: u in [ring[0], t] + ring[1..] <==> u in ring || u == t
  {
    assert ring == [ring[0]] + ring[1..];
  }

  /** Another CPU's current thread is neither this one's nor one that it could claim. */
  lemma CurDiffers(s: Machine, c: nat, d: nat)
    requires Inv(s) && c < |s.pc| && d < |s.pc| && d != c && s.current[d] != NONE
    ensures 0 <= s.current[d] < |s.state| && s.current[d] != s.current[c]
    ensures s.current[d] in s.ring && s.state[s.current[d]] != Unused
    ensures s.pc[c].Picking? ==> !Claimable(s, c, s.current[d])
  {
    hide Order, PickedOver, Distinct, Target, ThreadOk;
    assert CpuOk(s, c) && CpuOk(s, d) && HomeOk(s, c) && HomeOk(s, d);
    if InLock(s.pc[d]) {
      OneHolder(s, d, c);
    }
  }

  /** What a step leaves of the other CPUs. */
  lemma StepOther(s: Machine, c: nat, a: Action, d: nat)
    requires Shape(s) && c < |s.pc| && d < |s.pc| && d != c
    ensures var s' := Step(s, c, a);
      && |s'.pc| == |s.pc| == |s'.current| && s'.pc[d] == s.pc[d] && s'.current[d] == s.current[d]
      && s'.home == s.home && (!InLock(s.pc[c]) ==> s'.ring == s.ring)
  {
    hide Order, Target, IsHome, Claimable;
  }

  /** No step of another CPU disturbs what CPU `d` holds. */
  lemma OthersKept(s: Machine, c: nat, a: Action, d: nat)
    requires Inv(s) && c < |s.pc| && d < |s.pc| && d != c
    ensures Shape(Step(s, c, a)) && |Step(s, c, a).pc| == |s.pc| && CpuOk(Step(s, c, a), d)
  {
    var s', p := Step(s, c, a), s.pc[d];
    assert CpuOk(s, d) && CpuOk(s, c) && HomeOk(s, d);
    assert LockOk(s) && (InLock(s.pc[c]) ==> !InLock(p));
    StepOther(s, c, a, d);
    StepShape(s, c, a);
    hide Step, Order, LockOk, PickedOver, Distinct, Target, ThreadOk, IsHome, HomeOk;
    assert Online(p) ==> s.current[d] != NONE;
    if s.current[d] != NONE {
      CurDiffers(s, c, d);
      Untouched(s, c, a, s.current[d]);
    }
    if p.Claimed? || p.Released? {
      NextDiffers(s, c, d);
      Untouched(s, c, a, p.next);
    }
    if (p.Trying? || p.Spinning? || p.Held?) && p.why.ToSpawn? {
      Untouched(s, c, a, p.why.t);
    }
    if p.Picking? {
      PickedKept(s, c, a, d);
    }
    SameHomes(s, s');
  }

  lemma StepShape(s: Machine, c: nat, a: Action)
    requires Inv(s) && c < |s.pc|
    ensures Shape(Step(s, c, a)) && |Step(s, c, a).pc| == |s.pc| && |Step(s, c, a).state| == |s.state|
  {
    hide Order, Target, IsHome, HomeOk, ThreadOk, LockOk, PickedOver;
    assert CpuOk(s, c);
  }

  lemma SameHomes(s: Machine, s': Machine)
    requires s'.home == s.home
    ensures forall t: int {:trigger IsHome(s', t)} :: IsHome(s', t) <==> IsHome(s, t)
  {
  }

  lemma NextDiffers(s: Machine, c: nat, d: nat)
    requires Inv(s) && c < |s.pc| && d < |s.pc| && d != c && (s.pc[d].Claimed? || s.pc[d].Released?)
    ensures s.pc[d].next != s.current[c] && !Claimable(s, c, s.pc[d].next) && !InLock(s.pc[c])
  {
    hide Order, PickedOver, Distinct, Target, ThreadOk;
    assert CpuOk(s, c) && CpuOk(s, d) && HomeOk(s, c);
  }

  /** While `d` picks, a step outside the lock makes no thread of the ring claimable for it. */
  lemma PickedKept(s: Machine, c: nat, a: Action, d: nat)
    requires Inv(s) && c < |s.pc| && d < |s.pc| && d != c && s.pc[d].Picking? && !InLock(s.pc[c])
    ensures Shape(Step(s, c, a)) && PickedOver(Step(s, c, a), d, s.pc[d].prev, s.pc[d].i)
  {
    var s', prev := Step(s, c, a), s.pc[d].prev;
    assert CpuOk(s, d);
    StepShape(s, c, a);
    StepOther(s, c, a, d);
    forall j | 0 <= j < s.pc[d].i
      ensures !Claimable(s', d, Order(s.ring, prev)[j])
    {
      OrderAt(s.ring, prev, j);
      StillTaken(s, c, a, d, Order(s.ring, prev)[j]);
    }
    hide Order, Step;
  }

  lemma StillTaken(s: Machine, c: nat, a: Action, d: nat, u: nat)
    requires Inv(s) && c < |s.pc| && d < |s.pc| && d != c && !InLock(s.pc[c]) && u in s.ring && !Claimable(s, d, u)
    ensures !Claimable(Step(s, c, a), d, u)
  {
    hide Order, PickedOver, Distinct, Target, ThreadOk, LockOk, IsHome;
    assert CpuOk(s, c) && HomeOk(s, c);
  }

  lemma CpuHolds(s: Machine, c: nat)
    requires Inv(s) && c < |s.pc|
    ensures CpuOk(s, c)
  {
  }

  /** An AP's idle thread waits for it with its token free. */
  lemma OfflineHome(s: Machine, c: nat)
    requires Inv(s) && c < |s.pc| && s.pc[c].Offline? && s.home[c] != NONE
    ensures 0 <= s.home[c] < |s.token| && s.token[s.home[c]] == -1
  {
    assert CpuOk(s, c) && HomeOk(s, c) && ThreadOk(s, s.home[c]);
    if s.token[s.home[c]] != -1 {
      CpuHolds(s, s.token[s.home[c]]);
    }
  }

  lemma SelfKept(s: Machine, c: nat, a: Action)
    requires Inv(s) && c < |s.pc|
    ensures Shape(Step(s, c, a)) && |Step(s, c, a).pc| == |s.pc| && CpuOk(Step(s, c, a), c)
  {
    hide CpuOk, Step, PickedOver, LockOk;
    if s.pc[c].Picking? {
      PickKept(s, c, a);
    } else if InLock(s.pc[c]) {
      HeldKept(s, c, a);
    } else {
      UnlockedKept(s, c, a);
    }
  }

  lemma HeldKept(s: Machine, c: nat, a: Action)
    requires Inv(s) && c < |s.pc| && InLock(s.pc[c]) && !s.pc[c].Picking?
    ensures Shape(Step(s, c, a)) && |Step(s, c, a).pc| == |s.pc| && CpuOk(Step(s, c, a), c)
  {
    hide PickedOver, Order, LockOk, Distinct, ThreadOk, HomeOk;
    assert CpuOk(s, c);
    if s.pc[c].Held? {
      NothingYet(Step(s, c, a), c, s.current[c]);
    }
  }

  lemma UnlockedKept(s: Machine, c: nat, a: Action)
    requires Inv(s) && c < |s.pc| && !InLock(s.pc[c])
    ensures Shape(Step(s, c, a)) && |Step(s, c, a).pc| == |s.pc| && CpuOk(Step(s, c, a), c)
  {
    hide PickedOver, Order, LockOk, Distinct, ThreadOk;
    assert CpuOk(s, c) && HomeOk(s, c);
    if s.pc[c].Offline? && s.home[c] != NONE {
      OfflineHome(s, c);
    }
  }

  lemma NothingYet(s: Machine, c: nat, prev: nat)
    ensures PickedOver(s, c, prev, 0)
  {
  }

  lemma OrderAt(ring: seq<nat>, prev: nat, i: nat)
    requires Distinct(ring) && prev in ring && i < |Order(ring, prev)|
    ensures Order(ring, prev)[i] in ring && Order(ring, prev)[i] != prev
  {
    InOrder(ring, prev);
    assert Order(ring, prev)[i] in Order(ring, prev);
  }

  lemma PickKept(s: Machine, c: nat, a: Action)
    requires Inv(s) && c < |s.pc| && s.pc[c].Picking?
    ensures Shape(Step(s, c, a)) && |Step(s, c, a).pc| == |s.pc| && CpuOk(Step(s, c, a), c)
  {
    hide Order, LockOk, IsHome, IndexOf, PickedOver, Distinct, ThreadOk, HomeOk;
    assert CpuOk(s, c);
    var p := s.pc[c];
    if p.i < |Order(s.ring, p.prev)| {
      OrderAt(s.ring, p.prev, p.i);
    }
    if a == Go && Target(s, p.prev, p.i) != p.prev && !Claimable(s, c, Target(s, p.prev, p.i)) {
      PassedOver(s, Step(s, c, a), c, p.prev, p.i);
    }
  }

  lemma PassedOver(s: Machine, s': Machine, c: nat, prev: nat, i: nat)
    requires PickedOver(s, c, prev, i) && i < |Order(s.ring, prev)| && !Claimable(s, c, Target(s, prev, i))
    requires s'.ring == s.ring && s'.state == s.state && s'.aff == s.aff && s'.token == s.token
    ensures PickedOver(s', c, prev, i + 1)
  {
  }

  lemma ThreadKept(s: Machine, c: nat, a: Action, t: nat)
    requires Inv(s) && c < |s.pc| && t < |s.state|
    ensures Shape(Step(s, c, a)) && |Step(s, c, a).state| == |s.state| && ThreadOk(Step(s, c, a), t)
  {
    hide Order, PickedOver, Target, Distinct, IsHome, HomeOk, LockOk, SpawnOk;
    assert CpuOk(s, c) && ThreadOk(s, t);
    if s.pc[c].Picking? {
      hide Inv, CpuOk;
    } else if InLock(s.pc[c]) {
      hide Inv, Claimable;
    } else {
      hide Inv, Claimable;
    }
  }

  lemma HomesKept(s: Machine, c: nat, a: Action)
    requires Inv(s) && c < |s.pc|
    ensures var s' := Step(s, c, a);
      && Shape(s') && |s'.pc| == |s.pc|
      && forall d: nat {:trigger HomeOk(s', d)} :: d < |s'.pc| && HomeOk(s, d) ==> HomeOk(s', d)
  {
    hide Order, Distinct, ThreadOk, Target, LockOk, PickedOver;
    assert CpuOk(s, c);
    if s.pc[c].Held? && s.pc[c].why.ToSpawn? {
      Linked(s.ring, s.pc[c].why.t);
    }
  }

  lemma LockKept(s: Machine, c: nat, a: Action)
    requires Inv(s) && c < |s.pc|
    ensures Shape(Step(s, c, a)) && LockOk(Step(s, c, a))
  {
    hide Order, Distinct, ThreadOk, Target, HomeOk, CpuOk, IsHome;
    StepShape(s, c, a);
  }

  /** The circle grows only by a spawned thread that was not in it. */
  lemma RingKept(s: Machine, c: nat, a: Action)
    requires Inv(s) && c < |s.pc|
    ensures var s' := Step(s, c, a);
      && Distinct(s'.ring) && |s'.state| == |s.state|
      && |s'.ring| > 0 && s'.ring[0] == s.ring[0]
      && forall t: nat {:trigger t in s'.ring} :: t in s'.ring ==> t < |s'.state| && s'.state[t] != Unused
  {
    hide Order, ThreadOk, Target, LockOk, PickedOver, HomeOk, IsHome;
    assert CpuOk(s, c);
    if s.pc[c].Held? && s.pc[c].why.ToSpawn? {
      Linked(s.ring, s.pc[c].why.t);
      InsertSecond(s.ring, s.pc[c].why.t);
    } else {
      hide Distinct;
    }
  }

  lemma OnlineKept(s: Machine, c: nat, a: Action)
    requires Inv(s) && c < |s.pc|
    ensures Shape(Step(s, c, a)) && |Step(s, c, a).pc| == |s.pc| && Step(s, c, a).home == s.home
    ensures Online(Step(s, c, a).pc[c]) ==> s.home[c] != NONE
  {
    hide Order, Distinct, ThreadOk, Target, HomeOk, CpuOk, IsHome, LockOk;
    StepShape(s, c, a);
  }

  lemma StepInv(s: Machine, c: nat, a: Action)
    requires Inv(s)
    ensures Inv(Step(s, c, a))
  {
    if c < |s.pc| {
      hide Step, CpuOk, ThreadOk, Order, LockOk, Distinct, HomeOk;
      var s' := Step(s, c, a);
      StepShape(s, c, a);
      RingKept(s, c, a);
      LockKept(s, c, a);
      HomesKept(s, c, a);
      OnlineKept(s, c, a);
      SelfKept(s, c, a);
      forall d: nat | d < |s'.pc|
        ensures CpuOk(s', d) && HomeOk(s', d) && (Online(s'.pc[d]) ==> s'.home[d] != NONE)
      {
        assert HomeOk(s, d);
        if d != c {
          StepOther(s, c, a, d);
          OthersKept(s, c, a, d);
        }
      }
      forall t: nat | t < |s'.state|
        ensures ThreadOk(s', t)
      {
        ThreadKept(s, c, a, t);
      }
    }
  }

  /** The invariant holds after any interleaving. */
  lemma {:induction false} RunInv(s: Machine, steps: seq<(nat, Action)>)
    requires Inv(s)
    ensures Inv(Run(s, steps))
    decreases |steps|
  {
    if steps != [] {
      StepInv(s, steps[0].0, steps[0].1);
      RunInv(Step(s, steps[0].0, steps[0].1), steps[1..]);
    }
  }

  // ---------------------------------------------------------------- exits and spawns

  /** An exit that releases the lock has made its thread a zombie, and nothing else. */
  lemma ExitTakesEffect(s: Machine, d: nat, a: Action, c: nat)
    requires Inv(s) && c < |s.pc| && s.pc[c] == Held(ToExit)
    requires |Step(s, d, a).pc| == |s.pc| && Step(s, d, a).pc[c] == Unlocking
    ensures
      var s', t := Step(s, d, a), s.current[c];
      && 0 <= t < |s.state| && !IsHome(s, t)
      && s' == s.(state := s.state[t := Zombie], pc := s.pc[c := Unlocking])
  {
    if d != c {
      StepOther(s, d, a, c);
    }
    hide Order, Distinct, PickedOver, LockOk, HomeOk;
    assert CpuOk(s, c);
  }

  /** A zombie stays one. */
  lemma ZombieStays(s: Machine, c: nat, a: Action, t: nat)
    requires Inv(s) && t < |s.state| && s.state[t] == Zombie
    ensures |Step(s, c, a).state| == |s.state| && Step(s, c, a).state[t] == Zombie
  {
    hide Order, Distinct, PickedOver, LockOk, HomeOk, ThreadOk, IsHome;
    if c < |s.pc| {
      assert CpuOk(s, c);
    }
  }

  /** A zombie that no CPU runs. */
  ghost predicate Gone(s: Machine, t: nat) {
    t < |s.state| && s.state[t] == Zombie && forall c :: 0 <= c < |s.current| ==> s.current[c] != t
  }

  lemma GoneStays(s: Machine, c: nat, a: Action, t: nat)
    requires Inv(s) && Gone(s, t)
    ensures Gone(Step(s, c, a), t)
  {
    ZombieStays(s, c, a, t);
    if c < |s.pc| {
      assert CpuOk(s, c) && HomeOk(s, c);
      hide Order, Distinct, PickedOver, LockOk, ThreadOk, IsHome;
    }
  }

  /** A zombie that has left its CPU runs nowhere again, over any run. */
  lemma {:induction false} GoneForever(s: Machine, steps: seq<(nat, Action)>, t: nat)
    requires Inv(s) && Gone(s, t)
    ensures Gone(Run(s, steps), t)
    decreases |steps|
  {
    if steps != [] {
      StepInv(s, steps[0].0, steps[0].1);
      GoneStays(s, steps[0].0, steps[0].1, t);
      hide Step, Inv, Gone;
      GoneForever(Step(s, steps[0].0, steps[0].1), steps[1..], t);
    }
  }

  /** Runnable, linked, allowed everywhere, and claimed by nobody. */
  predicate Free(s: Machine, t: nat) {
    && t < |s.state| && t < |s.aff| && t < |s.token| && t in s.ring
    && s.state[t] == Runnable && s.aff[t] == AFF_ANY && s.token[t] == -1
  }

  /** A spawn that releases the lock has put its thread behind main_thread, where every CPU can claim it. */
  lemma SpawnTakesEffect(s: Machine, d: nat, a: Action, c: nat, t: nat)
    requires Inv(s) && c < |s.pc| && s.pc[c] == Held(ToSpawn(t))
    requires |Step(s, d, a).pc| == |s.pc| && Step(s, d, a).pc[c] == Unlocking
    ensures
      var s' := Step(s, d, a);
      && s.ring != [] && s.ring[0] == s.home[0]
      && s' == s.(ring := [s.ring[0], t] + s.ring[1..], pc := s.pc[c := Unlocking])
      && Free(s', t) && forall e: nat :: e < |s.pc| ==> Claimable(s', e, t)
  {
    if d != c {
      StepOther(s, d, a, c);
    }
    hide Order, Distinct, PickedOver, LockOk, HomeOk, ThreadOk, IsHome;
    assert CpuOk(s, c);
    Linked(s.ring, t);
  }

  /** It stays so until a CPU claims it. */
  lemma FreeStays(s: Machine, c: nat, a: Action, t: nat)
    requires Inv(s) && Free(s, t) && forall e :: 0 <= e < |s.current| ==> s.current[e] != t
    ensures
      var s' := Step(s, c, a);
      || (Free(s', t) && |s'.current| == |s.current| && forall e :: 0 <= e < |s.current| ==> s'.current[e] != t)
      || (c < |s.pc| && s.pc[c].Picking? && |s'.pc| == |s.pc| && s'.pc[c] == Claimed(s.pc[c].prev, t))
  {
    if c < |s.pc| {
      NotTaken(s, c, a, t);
      if s.pc[c].Picking? {
        hide Order, Distinct, PickedOver, LockOk, ThreadOk, HomeOk, CpuOk, Target;
      } else {
        Untouched(s, c, a, t);
        hide Step, Inv;
      }
    }
  }

  /** No step makes a free thread current. */
  lemma NotTaken(s: Machine, c: nat, a: Action, t: nat)
    requires Inv(s) && c < |s.pc| && Free(s, t) && forall e :: 0 <= e < |s.current| ==> s.current[e] != t
    ensures var s' := Step(s, c, a);
      |s'.current| == |s.current| && forall e :: 0 <= e < |s.current| ==> s'.current[e] != t
  {
    hide Order, Distinct, PickedOver, LockOk, ThreadOk, IsHome, Target;
    assert CpuOk(s, c) && HomeOk(s, c);
  }

  // ---------------------------------------------------------------- whole operations

  /** CPU `c` takes `n` steps, while the others wait for the lock or run their threads. */
  function Alone(s: Machine, c: nat, n: nat): Machine
    requires Shape(s)
    decreases n
  {
    if n == 0 || !Shape(Step(s, c, Go)) then s else Alone(Step(s, c, Go), c, n - 1)
  }

  lemma OneMore(s: Machine, c: nat, n: nat, s': Machine)
    requires Shape(s) && Shape(s') && s' == Step(s, c, Go)
    ensures Alone(s, c, n + 1) == Alone(s', c, n)
  {
    hide Step;
  }

  lemma Already(s: Machine, c: nat)
    requires Shape(s)
    ensures Alone(s, c, 0) == s
  {
  }

  /** The machine with CPU `c` at `p`, holding the lock. */
  function Locked(s: Machine, c: nat, p: Pc): Machine {
    if c < |s.pc| then s.(lock := 1, pc := s.pc[c := p]) else s
  }

  lemma Relocked(s: Machine, c: nat, p: Pc, q: Pc)
    requires c < |s.pc|
    ensures s.pc[c := p][c := q] == s.pc[c := q]
    ensures s.pc[c] == q ==> s.pc[c := p][c := q] == s.pc
  {
  }

  lemma TakesLock(s: Machine, c: nat, why: Purpose)
    requires Shape(s) && c < |s.pc| && s.lock == 0
    ensures var s1 := s.(pc := s.pc[c := Trying(why)]); Shape(s1) && Step(s1, c, Go) == Locked(s, c, Held(why))
  {
    Relocked(s, c, Trying(why), Held(why));
  }

  /** The exchange takes a free lock, and sends its CPU to wait for a lock that is taken; a waiting CPU tries
      again once it sees the lock free, and does nothing until then. */
  lemma LockWaits(s: Machine, c: nat, why: Purpose)
    requires Shape(s) && c < |s.pc| && s.lock != 0
    ensures s.pc[c] == Trying(why) ==> Step(s, c, Go) == s.(lock := 1, pc := s.pc[c := Spinning(why)])
    ensures s.pc[c] == Spinning(why) ==>
      && Step(s, c, Go) == s
      && Step(s.(lock := 0), c, Go) == s.(lock := 0, pc := s.pc[c := Trying(why)])
  {
  }

  lemma Unlocks(s: Machine, c: nat)
    requires Shape(s) && c < |s.pc| && s.lock == 0 && s.pc[c] == Running
    ensures Shape(Locked(s, c, Unlocking)) && Step(Locked(s, c, Unlocking), c, Go) == s
  {
    Relocked(s, c, Unlocking, Running);
  }

  /** An exit, from a running thread to the zombie. */
  lemma ExitAlone(s: Machine, c: nat)
    requires Inv(s) && c < |s.pc| && s.pc[c] == Running && s.lock == 0 && !IsHome(s, s.current[c])
    ensures Shape(Step(s, c, BeginExit)) && 0 <= s.current[c] < |s.state|
    ensures Alone(Step(s, c, BeginExit), c, 3) == s.(state := s.state[s.current[c] := Zombie])
  {
    hide Order, Distinct, PickedOver, LockOk, HomeOk, ThreadOk;
    assert CpuOk(s, c);
    var e := s.(state := s.state[s.current[c] := Zombie]);
    var s1 := s.(pc := s.pc[c := Trying(ToExit)]);
    assert Step(s, c, BeginExit) == s1;
    TakesLock(s, c, ToExit);
    Relocked(s, c, Held(ToExit), Unlocking);
    assert Step(Locked(s, c, Held(ToExit)), c, Go) == Locked(e, c, Unlocking);
    Unlocks(e, c);
    hide Step;
    OneMore(s1, c, 2, Locked(s, c, Held(ToExit)));
    OneMore(Locked(s, c, Held(ToExit)), c, 1, Locked(e, c, Unlocking));
    OneMore(Locked(e, c, Unlocking), c, 0, e);
    Already(e, c);
  }

  /** A spawn on CPU 0, from an unused slot to the circle. */
  lemma SpawnAlone(s: Machine, t: nat)
    requires Inv(s) && s.pc[0] == Running && s.lock == 0 && t < |s.state| && s.state[t] == Unused
    ensures Shape(Step(s, 0, BeginSpawn(t))) && s.ring != []
    ensures Alone(Step(s, 0, BeginSpawn(t)), 0, 3) ==
            s.(state := s.state[t := Runnable], aff := s.aff[t := AFF_ANY], token := s.token[t := -1],
               ring := [s.ring[0], t] + s.ring[1..])
  {
    hide Order, Distinct, PickedOver, LockOk, HomeOk, ThreadOk, IsHome;
    var f := s.(state := s.state[t := Runnable], aff := s.aff[t := AFF_ANY], token := s.token[t := -1]);
    var e := f.(ring := [s.ring[0], t] + s.ring[1..]);
    var s1 := f.(pc := s.pc[0 := Trying(ToSpawn(t))]);
    assert Step(s, 0, BeginSpawn(t)) == s1;
    TakesLock(f, 0, ToSpawn(t));
    Relocked(s, 0, Held(ToSpawn(t)), Unlocking);
    assert Step(Locked(f, 0, Held(ToSpawn(t))), 0, Go) == Locked(e, 0, Unlocking);
    Unlocks(e, 0);
    hide Step;
    OneMore(s1, 0, 2, Locked(f, 0, Held(ToSpawn(t))));
    OneMore(Locked(f, 0, Held(ToSpawn(t))), 0, 1, Locked(e, 0, Unlocking));
    OneMore(Locked(e, 0, Unlocking), 0, 0, e);
    Already(e, 0);
  }

  /** thread_ap_online: the CPU's idle thread runs and holds its token. */
  lemma OnlineAlone(s: Machine, c: nat)
    requires Inv(s) && 0 < c < |s.pc| && s.pc[c] == Offline && s.home[c] != NONE
    ensures Shape(Step(s, c, BeginOnline)) && 0 <= s.home[c] < |s.token|
    ensures Alone(Step(s, c, BeginOnline), c, 1) ==
            s.(current := s.current[c := s.home[c]], token := s.token[s.home[c] := c], pc := s.pc[c := Running])
  {
    hide Order, Distinct, PickedOver, LockOk, ThreadOk, IsHome;
    assert HomeOk(s, c);
    var e := s.(current := s.current[c := s.home[c]], token := s.token[s.home[c] := c], pc := s.pc[c := Running]);
    Relocked(s, c, Onlining, Running);
    OneMore(Step(s, c, BeginOnline), c, 0, e);
    Already(e, c);
  }

  /** The machine after a yield of CPU `c` that switches to `t`. */
  function Switched(s: Machine, c: nat, t: nat): Machine {
    if c >= |s.current| || !(0 <= s.current[c] < |s.state|) || |s.token| != |s.state| || t >= |s.token| then s else
      var cur, claimed := s.current[c], s.token[t := c];
      s.(current := s.current[c := t],
         token := if s.state[cur] == Runnable then claimed[cur := -1] else claimed)
  }

  /** A yield: the CPU goes on with the first thread after its own, in the order of the circle, that it can
      claim, and gives up its own token unless its thread is a zombie; without such a thread, nothing
      changes. */
  lemma YieldAlone(s: Machine, c: nat) returns (n: nat, i: nat)
    requires Inv(s) && c < |s.pc| && s.pc[c] == Running && s.lock == 0
    ensures Shape(Step(s, c, BeginYield)) && 0 <= s.current[c] < |s.state|
    ensures
      var o := Order(s.ring, s.current[c]);
      && i <= |o| && (forall j :: 0 <= j < i ==> !Claimable(s, c, o[j])) && (i < |o| ==> Claimable(s, c, o[i]))
      && Alone(Step(s, c, BeginYield), c, n) == if i < |o| then Switched(s, c, o[i]) else s
  {
    hide Order, Distinct, PickedOver, LockOk, HomeOk, ThreadOk, IsHome;
    assert CpuOk(s, c);
    var cur := s.current[c];
    var s1 := s.(pc := s.pc[c := Trying(ToYield)]);
    assert Step(s, c, BeginYield) == s1;
    TakesLock(s, c, ToYield);
    Relocked(s, c, Held(ToYield), Picking(cur, 0));
    assert Step(Locked(s, c, Held(ToYield)), c, Go) == Locked(s, c, Picking(cur, 0));
    var k;
    k, i := PickAlone(s, c, 0);
    hide Step;
    OneMore(s1, c, k + 1, Locked(s, c, Held(ToYield)));
    OneMore(Locked(s, c, Held(ToYield)), c, k, Locked(s, c, Picking(cur, 0)));
    n := k + 2;
  }

  lemma {:induction false} PickAlone(s: Machine, c: nat, i: nat) returns (n: nat, k: nat)
    requires Inv(s) && c < |s.pc| && s.pc[c] == Running && s.lock == 0
    requires 0 <= s.current[c] < |s.state| && s.current[c] in s.ring && i <= |Order(s.ring, s.current[c])|
    ensures Shape(Locked(s, c, Picking(s.current[c], i)))
    ensures
      var o := Order(s.ring, s.current[c]);
      && i <= k <= |o| && (forall j :: i <= j < k ==> !Claimable(s, c, o[j])) && (k < |o| ==> Claimable(s, c, o[k]))
      && Alone(Locked(s, c, Picking(s.current[c], i)), c, n) == if k < |o| then Switched(s, c, o[k]) else s
    decreases |Order(s.ring, s.current[c])| - i
  {
    hide Order, PickedOver, LockOk, HomeOk, ThreadOk, IsHome, CpuOk, Switched;
    var cur, o := s.current[c], Order(s.ring, s.current[c]);
    if i < |o| {
      assert Target(s, cur, i) == o[i] != cur by { OrderAt(s.ring, cur, i); }
      if Claimable(s, c, o[i]) {
        hide Inv, Distinct;
        ClaimAlone(s, c, i);
        n, k := 4, i;
      } else {
        PassOver(s, c, i);
        hide Step;
        var l;
        l, k := PickAlone(s, c, i + 1);
        OneMore(Locked(s, c, Picking(cur, i)), c, l, Locked(s, c, Picking(cur, i + 1)));
        n := l + 1;
      }
    } else {
      Relocked(s, c, Picking(cur, i), Unlocking);
      assert Step(Locked(s, c, Picking(cur, i)), c, Go) == Locked(s, c, Unlocking);
      Unlocks(s, c);
      hide Step;
      OneMore(Locked(s, c, Picking(cur, i)), c, 1, Locked(s, c, Unlocking));
      OneMore(Locked(s, c, Unlocking), c, 0, s);
      Already(s, c);
      n, k := 2, i;
    }
  }

  lemma PassOver(s: Machine, c: nat, i: nat)
    requires Shape(s) && c < |s.pc| && s.current[c] >= 0
    requires i < |Order(s.ring, s.current[c])| && Order(s.ring, s.current[c])[i] != s.current[c]
    requires !Claimable(s, c, Order(s.ring, s.current[c])[i])
    ensures var cur := s.current[c];
      Shape(Locked(s, c, Picking(cur, i))) &&
        Step(Locked(s, c, Picking(cur, i)), c, Go) == Locked(s, c, Picking(cur, i + 1))
  {
    hide Order;
    Relocked(s, c, Picking(s.current[c], i), Picking(s.current[c], i + 1));
  }

  lemma ClaimAlone(s: Machine, c: nat, i: nat)
    requires Shape(s) && c < |s.pc| && s.pc[c] == Running && s.lock == 0
    requires 0 <= s.current[c] < |s.state| && i < |Order(s.ring, s.current[c])|
    requires var t := Order(s.ring, s.current[c])[i]; t != s.current[c] && Claimable(s, c, t)
    ensures
      var cur, t := s.current[c], Order(s.ring, s.current[c])[i];
      Shape(Locked(s, c, Picking(cur, i))) && Alone(Locked(s, c, Picking(cur, i)), c, 4) == Switched(s, c, t)
  {
    hide Order;
    var cur, t := s.current[c], Order(s.ring, s.current[c])[i];
    var s2 := s.(token := s.token[t := c]);
    var s3 := s2.(token := if s.state[cur] == Runnable then s2.token[cur := -1] else s2.token);
    var e := Switched(s, c, t);
    Relocked(s, c, Picking(cur, i), Claimed(cur, t));
    Relocked(s, c, Claimed(cur, t), Released(cur, t));
    Relocked(s, c, Released(cur, t), Unlocking);
    assert Step(Locked(s, c, Picking(cur, i)), c, Go) == Locked(s2, c, Claimed(cur, t));
    assert Step(Locked(s2, c, Claimed(cur, t)), c, Go) == Locked(s3, c, Released(cur, t));
    assert Step(Locked(s3, c, Released(cur, t)), c, Go) == Locked(e, c, Unlocking);
    Unlocks(e, c);
    hide Step, Switched;
    OneMore(Locked(s, c, Picking(cur, i)), c, 3, Locked(s2, c, Claimed(cur, t)));
    OneMore(Locked(s2, c, Claimed(cur, t)), c, 2, Locked(s3, c, Released(cur, t)));
    OneMore(Locked(s3, c, Released(cur, t)), c, 1, Locked(e, c, Unlocking));
    OneMore(Locked(e, c, Unlocking), c, 0, e);
    Already(e, c);
  }

  // ---------------------------------------------------------------- what it means

  /** No thread is current on two CPUs, and each runs where its affinity allows. */
  lemma NoSharing(s: Machine)
    requires Inv(s)
    ensures forall c, d :: 0 <= c < d < |s.pc| && s.current[c] == s.current[d] ==> s.current[c] == NONE
    ensures forall c :: 0 <= c < |s.pc| && s.current[c] != NONE ==>
      0 <= s.current[c] < |s.aff| && Allowed(s, c, s.current[c])
  {
    forall c: nat, d: nat | c < d < |s.pc| && s.current[c] == s.current[d]
      ensures s.current[c] == NONE
    {
      assert CpuOk(s, c) && CpuOk(s, d) && HomeOk(s, c) && HomeOk(s, d);
    }
    forall c: nat | c < |s.pc| && s.current[c] != NONE
      ensures 0 <= s.current[c] < |s.aff| && Allowed(s, c, s.current[c])
    {
      assert CpuOk(s, c);
    }
  }

  /** Whenever the lock is free, each current thread holds its CPU's number as token, except on an AP
      between thread_ap_online's two stores; and every other runnable thread can be claimed. */
  lemma FreeLock(s: Machine)
    requires Inv(s) && s.lock == 0
    ensures forall c :: 0 <= c < |s.pc| && s.current[c] != NONE ==>
      0 <= s.current[c] < |s.token| && s.token[s.current[c]] == if s.pc[c].Onlining? then -1 else c
    ensures forall t: nat {:trigger s.token[t]} ::
      && t < |s.state| && s.state[t] == Runnable
      && (forall c :: 0 <= c < |s.pc| ==> s.current[c] != t)
      ==> s.token[t] == -1
  {
    forall c: nat | c < |s.pc| && s.current[c] != NONE
      ensures 0 <= s.current[c] < |s.token| && s.token[s.current[c]] == if s.pc[c].Onlining? then -1 else c
    {
      assert CpuOk(s, c);
    }
    forall t: nat | t < |s.state| && s.state[t] == Runnable && (forall c :: 0 <= c < |s.pc| ==> s.current[c] != t)
      ensures s.token[t] == -1
    {
      assert ThreadOk(s, t);
    }
  }

  /** pick_next comes back empty-handed only if this CPU could claim nothing in the ring; in
      particular never for a zombie, whose CPU can always claim its home thread. */
  lemma PickComplete(s: Machine, c: nat)
    requires Inv(s) && c < |s.pc| && s.pc[c].Picking? && Target(s, s.pc[c].prev, s.pc[c].i) == s.pc[c].prev
    ensures forall t: nat :: t in s.ring && t != s.pc[c].prev ==> !Claimable(s, c, t)
    ensures s.pc[c].prev < |s.state| && s.state[s.pc[c].prev] == Runnable
  {
    assert CpuOk(s, c) && HomeOk(s, c);
    var prev, i := s.pc[c].prev, s.pc[c].i;
    var o := Order(s.ring, prev);
    InOrder(s.ring, prev);
    if i < |o| {
      OrderAt(s.ring, prev, i);
    }
    forall t: nat | t in s.ring && t != prev
      ensures !Claimable(s, c, t)
    {
      assert t in o;
    }
    if s.state[prev] != Runnable {
      var h := s.home[c];
      assert ThreadOk(s, h) && !Claimable(s, c, h);
      CpuHolds(s, s.token[h]);
    }
  }

  /** How far pick_next has still to go. */
  function ToGo(s: Machine, c: nat): nat
    requires c < |s.pc|
  {
    if s.pc[c].Picking? && s.pc[c].i <= |Order(s.ring, s.pc[c].prev)|
    then |Order(s.ring, s.pc[c].prev)| - s.pc[c].i + 1 else 0
  }

  /** pick_next ends: each of its steps comes nearer, and no other CPU's step sets it back. */
  lemma PickEnds(s: Machine, c: nat, d: nat, a: Action)
    requires Inv(s) && c < |s.pc| && s.pc[c].Picking?
    ensures |Step(s, d, a).pc| == |s.pc|
    ensures d != c ==> ToGo(Step(s, d, a), c) == ToGo(s, c)
    ensures d == c && a == Go ==> ToGo(Step(s, d, a), c) < ToGo(s, c)
  {
    hide Order, LockOk, Distinct, ThreadOk, HomeOk, IndexOf, PickedOver;
    if d == c {
      assert CpuOk(s, c);
      PickRange(s, c);
    } else if d < |s.pc| {
      StepShape(s, d, a);
      StepOther(s, d, a, c);
      assert !InLock(s.pc[d]) by { OneHolder(s, c, d); }
      hide Step;
    }
  }

  lemma OneHolder(s: Machine, c: nat, d: nat)
    requires LockOk(s) && c < |s.pc| && d < |s.pc| && d != c && InLock(s.pc[c])
    ensures !InLock(s.pc[d])
  {
  }

  lemma PickRange(s: Machine, c: nat)
    requires Inv(s) && c < |s.pc| && s.pc[c].Picking?
    ensures s.pc[c].i <= |Order(s.ring, s.pc[c].prev)|
  {
    assert CpuOk(s, c);
  }
}
