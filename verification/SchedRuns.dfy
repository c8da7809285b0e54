/** What every run of the single-CPU scheduler guarantees: first-in first-out turns, frames that come
    back as they were left, the fate of zombies, and how many threads fit. */
module SchedRuns {
  import opened Wrappers
  import opened HeapModel
  import opened HeapCode
  import opened Sched

  // ---------------------------------------------------------------- turns

  function Filter(tcb: seq<Tcb>, s: seq<nat>): seq<nat> {
    if s == [] then []
    else (if Eligible(tcb, s[0]) then [s[0]] else []) + Filter(tcb, s[1..])
  }

  /** The ready queue: the claimable threads in the order in which their turns come. */
  function Ready(s: Sys): seq<nat> {
    Filter(s.tcb, Order(s.ring, s.cur))
  }

  lemma {:induction false} FilterConcat(tcb: seq<Tcb>, a: seq<nat>, b: seq<nat>)
    ensures Filter(tcb, a + b) == Filter(tcb, a) + Filter(tcb, b)
  {
    if a == [] {
      assert a + b == b;
    } else {
      assert (a + b)[1..] == a[1..] + b;
      hide Eligible;
      FilterConcat(tcb, a[1..], b);
      var h := if Eligible(tcb, a[0]) then [a[0]] else [];
      assert Filter(tcb, a + b) == h + Filter(tcb, a[1..] + b);
      assert Filter(tcb, a) == h + Filter(tcb, a[1..]);
      hide Filter;
      assert h + (Filter(tcb, a[1..]) + Filter(tcb, b)) == h + Filter(tcb, a[1..]) + Filter(tcb, b);
    }
  }

  /** Filtering looks only at the threads of the list. */
  lemma {:induction false} FilterSame(tcb: seq<Tcb>, tcb': seq<Tcb>, s: seq<nat>)
    requires forall t :: t in s ==> (Eligible(tcb, t) <==> Eligible(tcb', t))
    ensures Filter(tcb, s) == Filter(tcb', s)
  {
    if s != [] {
      assert s[0] in s && forall t :: t in s[1..] ==> t in s;
      FilterSame(tcb, tcb', s[1..]);
    }
  }

  /** The first eligible thread splits the list: nothing before it is eligible. */
  lemma {:induction false} FirstSplits(tcb: seq<Tcb>, s: seq<nat>, default: nat) returns (a: seq<nat>, b: seq<nat>)
    ensures Filter(tcb, s) == [] ==> FirstEligible(tcb, s, default) == default
    ensures Filter(tcb, s) != [] ==>
      var x := FirstEligible(tcb, s, default);
      && s == a + [x] + b && Eligible(tcb, x)
      && Filter(tcb, a) == [] && Filter(tcb, s) == [x] + Filter(tcb, b)
  {
    a, b := [], [];
    if s != [] {
      if Eligible(tcb, s[0]) {
        b := s[1..];
      } else {
        var a';
        a', b := FirstSplits(tcb, s[1..], default);
        a := [s[0]] + a';
        FilterSkips(tcb, s);
        FilterSkips(tcb, a);
        hide Filter, FirstEligible;
        if Filter(tcb, s) != [] {
          Prepend(s, a', FirstEligible(tcb, s, default), b);
        }
      }
    }
  }

  lemma FilterSkips(tcb: seq<Tcb>, s: seq<nat>)
    requires s != [] && !Eligible(tcb, s[0])
    ensures Filter(tcb, s) == Filter(tcb, s[1..])
  {
    hide Eligible;
    assert [] + Filter(tcb, s[1..]) == Filter(tcb, s[1..]);
  }

  lemma Prepend(s: seq<nat>, a: seq<nat>, x: nat, b: seq<nat>)
    requires s != [] && s[1..] == a + [x] + b
    ensures s == [s[0]] + a + [x] + b
  {
    assert s == [s[0]] + (a + [x] + b);
  }

  lemma {:induction false} IndexAfter(a: seq<nat>, x: nat, b: seq<nat>)
    requires x !in a
    ensures IndexOf(a + [x] + b, x) == |a|
  {
    if a != [] {
      assert a[0] in a && forall y :: y in a[1..] ==> y in a;
      assert (a + [x] + b)[1..] == a[1..] + [x] + b;
      IndexAfter(a[1..], x, b);
    }
  }

  lemma OrderOf(ring: seq<nat>, a: seq<nat>, cur: nat, b: seq<nat>)
    requires ring == a + [cur] + b && cur !in a
    ensures Order(ring, cur) == b + a
  {
    IndexAfter(a, cur, b);
    assert ring[|a| + 1..] == b && ring[..|a|] == a;
  }

  lemma RemoveOf(s: seq<nat>, a: seq<nat>, z: nat, b: seq<nat>)
    requires s == a + [z] + b && z !in a
    ensures Remove(s, z) == a + b
  {
    IndexAfter(a, z, b);
    assert s[|a| + 1..] == b && s[..|a|] == a;
  }

  /** The parts of a duplicate-free list around one of its elements. */
  lemma Around(s: seq<nat>, x: nat) returns (a: seq<nat>, b: seq<nat>)
    requires Distinct(s) && x in s
    ensures s == a + [x] + b && x !in a && x !in b
    ensures forall y :: y in s && y != x ==> y in a || y in b
    ensures forall y :: y in a || y in b ==> y in s
    ensures Distinct(a) && Distinct(b)
  {
    var k := IndexOf(s, x);
    a, b := s[..k], s[k + 1..];
  }

  lemma Regroup(a: seq<nat>, x: nat, b: seq<nat>, y: nat, c: seq<nat>)
    ensures a + [x] + (b + [y] + c) == (a + [x] + b) + [y] + c
    ensures (a + [x] + b) + [y] + c == a + [x] + (b + [y] + c)
  {
  }

  /** Two places in a duplicate-free list hold different threads. */
  lemma Apart(a: seq<nat>, x: nat, b: seq<nat>, y: nat, c: seq<nat>)
    requires Distinct(a + [x] + b + [y] + c)
    ensures x !in a && y !in a + [x] + b && x != y
  {
    var s := a + [x] + b + [y] + c;
    assert s[|a|] == x && s[|a| + 1 + |b|] == y;
    forall i | 0 <= i < |a|
      ensures a[i] != x
    {
      assert s[i] == a[i];
    }
    forall i | 0 <= i < |a + [x] + b|
      ensures (a + [x] + b)[i] != y
    {
      assert s[i] == (a + [x] + b)[i];
    }
  }

  /** Seen from another of its threads, the circle is the same circle, turned. */
  lemma OrderTurns(ring: seq<nat>, cur: nat, i: nat)
    requires Distinct(ring) && cur in ring && i < |Order(ring, cur)|
    ensures var o := Order(ring, cur);
      Order(ring, o[i]) == o[i + 1..] + [cur] + o[..i]
  {
    var a, b := Around(ring, cur);
    OrderOf(ring, a, cur, b);
    hide Order, Distinct;
    if i < |b| {
      Cut(b, i);
      CutFirst(b, a, i);
      TurnAfter(ring, a, cur, b[..i], b[i], b[i + 1..]);
    } else {
      Cut(a, i - |b|);
      CutSecond(b, a, i - |b|);
      TurnBefore(ring, a[..i - |b|], a[i - |b|], a[i - |b| + 1..], cur, b);
    }
  }

  lemma Cut(s: seq<nat>, i: nat)
    requires i < |s|
    ensures s == s[..i] + [s[i]] + s[i + 1..]
  {
  }

  lemma CutFirst(b: seq<nat>, a: seq<nat>, i: nat)
    requires i < |b|
    ensures (b + a)[i] == b[i] && (b + a)[i + 1..] == b[i + 1..] + a && (b + a)[..i] == b[..i]
  {
  }

  lemma CutSecond(b: seq<nat>, a: seq<nat>, k: nat)
    requires k < |a|
    ensures
      var o := b + a;
      o[|b| + k] == a[k] && o[|b| + k + 1..] == a[k + 1..] && o[..|b| + k] == b + a[..k]
  {
  }

  lemma TurnAfter(ring: seq<nat>, a: seq<nat>, cur: nat, b1: seq<nat>, x: nat, b2: seq<nat>)
    requires ring == a + [cur] + (b1 + [x] + b2) && Distinct(ring)
    ensures Order(ring, x) == b2 + a + [cur] + b1
  {
    Regroup(a, cur, b1, x, b2);
    Apart(a, cur, b1, x, b2);
    OrderOf(ring, a + [cur] + b1, x, b2);
    hide Order;
    assert b2 + (a + [cur] + b1) == b2 + a + [cur] + b1;
  }

  lemma TurnBefore(ring: seq<nat>, a1: seq<nat>, x: nat, a2: seq<nat>, cur: nat, b: seq<nat>)
    requires ring == (a1 + [x] + a2) + [cur] + b && Distinct(ring)
    ensures Order(ring, x) == a2 + [cur] + (b + a1)
  {
    Regroup(a1, x, a2, cur, b);
    Apart(a1, x, a2, cur, b);
    OrderOf(ring, a1, x, a2 + [cur] + b);
    hide Order;
    assert (a2 + [cur] + b) + a1 == a2 + [cur] + (b + a1);
  }

  /** The circle without one of the other threads. */
  lemma OrderRemove(ring: seq<nat>, cur: nat, z: nat)
    requires Distinct(ring) && cur in ring && z in ring && z != cur
    ensures Order(Remove(ring, z), cur) == Remove(Order(ring, cur), z)
  {
    var a, b := Around(ring, cur);
    OrderOf(ring, a, cur, b);
    if z in a {
      var a1, a2 := Around(a, z);
      NotBoth(a, cur, b, z);
      RemoveBefore(ring, a1, z, a2, cur, b);
    } else {
      var b1, b2 := Around(b, z);
      RemoveAfter(ring, a, cur, b1, z, b2);
    }
  }

  lemma RemoveBefore(ring: seq<nat>, a1: seq<nat>, z: nat, a2: seq<nat>, cur: nat, b: seq<nat>)
    requires ring == (a1 + [z] + a2) + [cur] + b
    requires z !in a1 && z !in b && cur !in a1 + [z] + a2
    ensures Order(Remove(ring, z), cur) == Remove(b + (a1 + [z] + a2), z)
  {
    Regroup(a1, z, a2, cur, b);
    RemoveOf(ring, a1, z, a2 + [cur] + b);
    RemoveOf(b + (a1 + [z] + a2), b + a1, z, a2) by { assert b + (a1 + [z] + a2) == (b + a1) + [z] + a2; }
    assert cur !in a1 + a2 by {
      assert forall y :: y in a1 + a2 ==> y in a1 + [z] + a2;
    }
    assert a1 + (a2 + [cur] + b) == (a1 + a2) + [cur] + b;
    OrderOf(a1 + (a2 + [cur] + b), a1 + a2, cur, b);
    hide Order, Remove;
    assert (b + a1) + a2 == b + (a1 + a2);
  }

  lemma RemoveAfter(ring: seq<nat>, a: seq<nat>, cur: nat, b1: seq<nat>, z: nat, b2: seq<nat>)
    requires ring == a + [cur] + (b1 + [z] + b2)
    requires z !in a && z != cur && z !in b1 && cur !in a
    ensures Order(Remove(ring, z), cur) == Remove((b1 + [z] + b2) + a, z)
  {
    Regroup(a, cur, b1, z, b2);
    RemoveOf(ring, a + [cur] + b1, z, b2);
    RemoveOf((b1 + [z] + b2) + a, b1, z, b2 + a) by { assert (b1 + [z] + b2) + a == b1 + [z] + (b2 + a); }
    assert (a + [cur] + b1) + b2 == a + [cur] + (b1 + b2);
    OrderOf((a + [cur] + b1) + b2, a, cur, b1 + b2);
    hide Order, Remove;
    assert (b1 + b2) + a == b1 + (b2 + a);
  }

  lemma NotBoth(a: seq<nat>, x: nat, b: seq<nat>, z: nat)
    requires Distinct(a + [x] + b) && z in a
    ensures z !in b
  {
    var i :| 0 <= i < |a| && a[i] == z;
    forall j | 0 <= j < |b|
      ensures b[j] != z
    {
      assert (a + [x] + b)[i] == z && (a + [x] + b)[|a| + 1 + j] == b[j];
    }
  }

  lemma OrderDistinct(ring: seq<nat>, cur: nat)
    requires Distinct(ring)
    ensures Distinct(Order(ring, cur))
  {
  }

  lemma FilterRemove(tcb: seq<Tcb>, s: seq<nat>, z: nat)
    requires z in s && !Eligible(tcb, z)
    ensures Filter(tcb, Remove(s, z)) == Filter(tcb, s)
  {
    var i := IndexOf(s, z);
    var a, b := s[..i], s[i + 1..];
    hide Eligible, Filter;
    assert s == a + ([z] + b);
    assert Remove(s, z) == a + b;
    hide Remove, IndexOf;
    FilterSkips(tcb, [z] + b);
    assert ([z] + b)[1..] == b;
    FilterConcat(tcb, a, [z] + b);
    FilterConcat(tcb, a, b);
  }

  /** Filtering does not see a thread go from one ineligible state to another. */
  lemma FilterUnused(tcb: seq<Tcb>, tcb': seq<Tcb>, s: seq<nat>, z: nat)
    requires z < |tcb| == |tcb'| && !Eligible(tcb, z) && tcb' == tcb[z := tcb'[z]] && !Eligible(tcb', z)
    ensures Filter(tcb, s) == Filter(tcb', s)
  {
    FilterSame(tcb, tcb', s);
  }

  /** Reaping takes a thread that is not eligible out of the ring, so it does not change the turns. */
  lemma ReapKeepsReady(s: Sys)
    requires Inv(s) && s.from != s.cur
    ensures Ready(Reap(s)) == Ready(s)
  {
    var z := s.from;
    if Reapable(s) {
      hide Order, Filter, Free, Remove;
      assert RingOk(s) by { YieldParts(s); }
      hide Inv;
      InOrder(s.ring, s.cur);
      OrderRemove(s.ring, s.cur, z);
      FilterRemove(s.tcb, Order(s.ring, s.cur), z);
      FilterUnused(s.tcb, Reap(s).tcb, Remove(Order(s.ring, s.cur), z), z);
    }
  }

  /** Switching to the i-th thread of the circle when none before it is eligible. */
  lemma SwitchReady(s: Sys, i: nat)
    requires Inv(s) && i < |Order(s.ring, s.cur)| && Order(s.ring, s.cur)[i] in s.saved
    requires var o := Order(s.ring, s.cur);
      Eligible(s.tcb, o[i]) && o[i] != s.cur && Filter(s.tcb, o[..i]) == []
    ensures var o := Order(s.ring, s.cur);
      Ready(Switch(s, o[i])) ==
        Filter(s.tcb, o[i + 1..]) + (if s.tcb[s.cur].state == Runnable then [s.cur] else [])
  {
    var o := Order(s.ring, s.cur);
    var tcb := PassToken(s.tcb, s.cur, o[i]);
    OrderTurns(s.ring, s.cur, i);
    InOrder(s.ring, s.cur);
    OrderDistinct(s.ring, s.cur);
    hide Order, Filter;
    FilterSelf(s, o[i]);
    FilterPassed(s.tcb, tcb, s.cur, o, i);
    hide Inv, PassToken, Distinct;
    FilterConcat(tcb, o[i + 1..] + [s.cur], o[..i]);
    FilterConcat(tcb, o[i + 1..], [s.cur]);
  }

  lemma FilterSelf(s: Sys, next: nat)
    requires RingOk(s) && next < |s.tcb| && next != s.cur
    ensures s.cur < |s.tcb|
    ensures Filter(PassToken(s.tcb, s.cur, next), [s.cur]) == if s.tcb[s.cur].state == Runnable then [s.cur] else []
  {
    assert s.cur in s.ring;
    assert s.tcb[s.cur].aff == AFF_ANY || s.tcb[s.cur].aff == 0;
  }

  /** Passing the token changes the eligibility only of the thread that takes it and of the one that
      gives it. */
  lemma FilterPassed(tcb: seq<Tcb>, tcb': seq<Tcb>, cur: nat, o: seq<nat>, i: nat)
    requires i < |o| && Distinct(o) && cur !in o
    requires cur < |tcb| && o[i] < |tcb| && tcb' == PassToken(tcb, cur, o[i])
    ensures Filter(tcb', o[i + 1..]) == Filter(tcb, o[i + 1..])
    ensures Filter(tcb', o[..i]) == Filter(tcb, o[..i])
  {
    assert forall t :: t in o[..i] ==> t in o && t != o[i];
    assert forall t :: t in o[i + 1..] ==> t in o && t != o[i];
    FilterSame(tcb, tcb', o[i + 1..]);
    FilterSame(tcb, tcb', o[..i]);
  }

  /** The ring, the tokens and the reaping together are a first-in first-out queue: a yield gives the
      CPU to the head, and the thread that yielded, unless it has exited, goes to the tail. */
  lemma YieldRotates(s: Sys)
    requires Inv(s)
    ensures
      var s' := Step(s, Yield(false));
      if Ready(s) == [] then s' == s else
      && s'.cur == Ready(s)[0] != s.cur
      && Ready(s') == Ready(s)[1..] + (if s.tcb[s.cur].state == Runnable then [s.cur] else [])
  {
    hide Order, Filter, Switch, Reap, Inv;
    assert RingOk(s) && FramesOk(s) by { YieldParts(s); }
    InOrder(s.ring, s.cur);
    PickOk(s);
    var o := Order(s.ring, s.cur);
    var a, b := FirstSplits(s.tcb, o, s.cur);
    if Ready(s) != [] {
      var i := |a|;
      assert o[i] in o && o[..i] == a && o[i + 1..] == b;
      SwitchInv(s, o[i]);
      SwitchReady(s, i);
      SwitchFields(s, o[i]);
      ReapKeepsReady(Switch(s, o[i]));
    }
  }

  lemma YieldParts(s: Sys)
    requires Inv(s)
    ensures RingOk(s) && FramesOk(s)
  {
  }

  lemma SwitchFields(s: Sys, next: nat)
    requires s.cur < |s.tcb| && next < |s.tcb| && next in s.saved
    ensures Switch(s, next).cur == next && Switch(s, next).from == s.cur
    ensures Reap(Switch(s, next)).cur == next
  {
  }

  /** A zombie never waits: main_thread can always be claimed when another thread runs. */
  lemma ZombieMovesOn(s: Sys)
    requires Inv(s) && s.tcb[s.cur].state == Zombie
    ensures Ready(s) != [] && Step(s, Yield(false)).cur != s.cur
  {
    PickOk(s);
    assert MAIN in s.ring && Eligible(s.tcb, MAIN);
    YieldRotates(s);
  }

  function Yields(ops: seq<Op>): nat
    decreases |ops|
  {
    if ops == [] then 0 else (if ops[0] == Yield(false) then 1 else 0) + Yields(ops[1..])
  }

  predicate NoSpawn(ops: seq<Op>) {
    forall i :: 0 <= i < |ops| ==> !ops[i].Spawn?
  }

  /** One step without a spawn: only an enabled yield moves the queue. */
  lemma WaitStep(s: Sys, op: Op, d: nat)
    requires Inv(s) && !op.Spawn? && d < |Ready(s)|
    ensures op != Yield(false) ==> Ready(Step(s, op)) == Ready(s)
    ensures op == Yield(false) ==> Step(s, op).cur == Ready(s)[0]
    ensures op == Yield(false) && d > 0 ==> d - 1 < |Ready(Step(s, op))| && Ready(Step(s, op))[d - 1] == Ready(s)[d]
  {
    hide Ready, Step, Inv;
    if op == Yield(false) {
      YieldRotates(s);
      Second(Ready(s), d, if s.tcb[s.cur].state == Runnable then [s.cur] else []) by { CurrentInTable(s); }
    } else {
      OtherReady(s, op);
    }
  }

  lemma CurrentInTable(s: Sys)
    requires Inv(s)
    ensures s.cur < |s.tcb|
  {
  }

  lemma Second(q: seq<nat>, d: nat, tail: seq<nat>)
    requires d < |q|
    ensures d > 0 ==> d - 1 < |q[1..] + tail| && (q[1..] + tail)[d - 1] == q[d]
  {
  }

  lemma OtherReady(s: Sys, op: Op)
    requires Inv(s) && !op.Spawn? && op != Yield(false)
    ensures Ready(Step(s, op)) == Ready(s)
  {
    hide Order, Filter, YieldStep, SpawnStep;
    if op.Exit? {
      assert RingOk(s) by { YieldParts(s); }
      InOrder(s.ring, s.cur);
      hide RingOk, Inv;
      FilterSame(s.tcb, Step(s, op).tcb, Order(s.ring, s.cur));
    }
  }

  /** Bounded waiting: the thread at position d of the ready queue is at position d - k after k
      enabled yields, whatever else runs, exits or is reaped meanwhile. */
  lemma {:induction false} WaitShrinks(s: Sys, ops: seq<Op>, d: nat)
    requires Inv(s) && NoSpawn(ops) && d < |Ready(s)| && Yields(ops) <= d
    ensures var s' := Run(s, ops);
      Inv(s') && d - Yields(ops) < |Ready(s')| && Ready(s')[d - Yields(ops)] == Ready(s)[d]
    decreases |ops|
  {
    hide Ready, Step, Inv, NoSpawn, Run, Yields;
    if ops == [] {
      NoOps(s);
    } else {
      FirstOp(s, ops);
      StepInv(s, ops[0]);
      WaitStep(s, ops[0], d);
      WaitShrinks(Step(s, ops[0]), ops[1..], if ops[0] == Yield(false) then d - 1 else d);
    }
  }

  lemma NoOps(s: Sys)
    ensures Run(s, []) == s && Yields([]) == 0
  {
  }

  lemma FirstOp(s: Sys, ops: seq<Op>)
    requires ops != []
    ensures Run(s, ops) == Run(Step(s, ops[0]), ops[1..])
    ensures Yields(ops) == (if ops[0] == Yield(false) then 1 else 0) + Yields(ops[1..])
    ensures NoSpawn(ops) ==> !ops[0].Spawn? && NoSpawn(ops[1..])
  {
    hide Step;
  }

  /** ... so it runs after exactly d + 1 of them. */
  lemma BoundedWaiting(s: Sys, ops: seq<Op>, d: nat)
    requires Inv(s) && NoSpawn(ops) && d < |Ready(s)| && Yields(ops) == d
    ensures Step(Run(s, ops), Yield(false)).cur == Ready(s)[d]
  {
    WaitShrinks(s, ops, d);
    WaitStep(Run(s, ops), Yield(false), 0);
  }

  /** `q'` is `q` with `t` put in just behind main_thread. */
  ghost predicate BehindMain(q: seq<nat>, t: nat, q': seq<nat>) {
    exists i {:trigger q[..i]} :: 0 <= i < |q| && q[i] == MAIN && q' == q[..i + 1] + [t] + q[i + 1..]
  }

  /** A spawned thread goes in right behind main_thread: at the head of the queue when main_thread is
      running, and otherwise next after main_thread's own turn. */
  lemma SpawnQueues(s: Sys, fn: nat)
    requires Inv(s) && Step(s, Spawn(fn)).ring != s.ring
    ensures
      var s', t := Step(s, Spawn(fn)), FirstUnused(s.tcb);
      if s.cur == MAIN then Ready(s') == [t] + Ready(s)
      else BehindMain(Ready(s), t, Ready(s'))
  {
    hide Order, Filter;
    SpawnFields(s, fn);
    var s', t := Step(s, Spawn(fn)), FirstUnused(s.tcb);
    var a, b := Around(s.ring, s.cur);
    hide Step;
    SpawnQueues'(s.tcb, s'.tcb, s.ring, s.cur, t, a, b);
  }

  lemma SpawnFields(s: Sys, fn: nat)
    requires Inv(s) && Step(s, Spawn(fn)).ring != s.ring
    ensures
      var s', t := Step(s, Spawn(fn)), FirstUnused(s.tcb);
      && s'.ring == [MAIN, t] + s.ring[1..] && s'.cur == s.cur && t !in s.ring
      && Eligible(s'.tcb, t) && (s.cur != MAIN ==> Eligible(s.tcb, MAIN))
      && forall u: nat :: u in s.ring ==> (Eligible(s.tcb, u) <==> Eligible(s'.tcb, u))
  {
    hide Malloc;
    assert MAIN in s.ring;
  }

  lemma SpawnQueues'(tcb: seq<Tcb>, tcb': seq<Tcb>, ring: seq<nat>, cur: nat, t: nat, a: seq<nat>, b: seq<nat>)
    requires Distinct(ring) && t !in ring && ring == a + [cur] + b && cur !in a && ring[0] == MAIN
    requires Eligible(tcb', t) && (cur != MAIN ==> Eligible(tcb, MAIN))
    requires forall u: nat :: u in ring ==> (Eligible(tcb, u) <==> Eligible(tcb', u))
    ensures
      var q, q' := Filter(tcb, Order(ring, cur)), Filter(tcb', Order([MAIN, t] + ring[1..], cur));
      if cur == MAIN then q' == [t] + q
      else BehindMain(q, t, q')
  {
    OrderInsert(ring, cur, t, a, b);
    OrderOf(ring, a, cur, b);
    assert ring[1..] <= ring[1..];
    hide Order;
    if a == [] {
      FilterConcat(tcb', [t], b);
      assert b + a == b;
      FilterSame(tcb, tcb', b);
    } else {
      assert a[0] == MAIN && a[0] in a;
      var a1 := a[1..];
      var q, f, g := Filter(tcb, b + ([MAIN] + a1)), Filter(tcb, b), Filter(tcb, a1);
      FilterSame(tcb, tcb', a1);
      FilterSame(tcb, tcb', b);
      FilterAround(tcb, b, MAIN, a1);
      FilterAround(tcb', b, MAIN, [t] + a1);
      FilterConcat(tcb', [t], a1);
      assert Filter(tcb', [t]) == [t];
      hide Filter;
      assert q[..|f| + 1] == f + [MAIN] && q[|f| + 1..] == g && q[..|f|] == f;
    }
  }

  /** The circle after linking `t` in right behind the head of the ring. */
  lemma OrderInsert(ring: seq<nat>, cur: nat, t: nat, a: seq<nat>, b: seq<nat>)
    requires Distinct(ring) && t !in ring && ring == a + [cur] + b && cur !in a
    ensures
      var r := [ring[0], t] + ring[1..];
      if a == [] then Order(r, cur) == [t] + Order(ring, cur)
      else && Order(ring, cur) == b + ([ring[0]] + a[1..])
           && Order(r, cur) == b + ([ring[0]] + ([t] + a[1..]))
  {
    var r := [ring[0], t] + ring[1..];
    OrderOf(ring, a, cur, b);
    assert cur in ring;
    if a == [] {
      assert r == [] + [cur] + ([t] + b);
      OrderOf(r, [], cur, [t] + b);
    } else {
      var a' := [a[0]] + ([t] + a[1..]);
      assert r == a' + [cur] + b;
      OrderOf(r, a', cur, b);
    }
  }

  lemma FilterAround(tcb: seq<Tcb>, a: seq<nat>, x: nat, b: seq<nat>)
    requires Eligible(tcb, x)
    ensures Filter(tcb, a + ([x] + b)) == Filter(tcb, a) + ([x] + Filter(tcb, b))
  {
    FilterConcat(tcb, a, [x] + b);
    FilterConcat(tcb, [x], b);
  }

  // ---------------------------------------------------------------- frames

  /** `t` is running in no state of the run before its last. */
  predicate Waits(s: Sys, ops: seq<Op>, t: nat)
    decreases |ops|
  {
    s.cur != t && (ops != [] ==> Waits(Step(s, ops[0]), ops[1..], t))
  }

  /** Whether an enabled yield ends with the thread that it left reaped. */
  predicate Reaps(s: Sys) {
    var n := Pick(s);
    && n != s.cur && n in s.saved && s.saved[n].pc == AFTER_SWITCH
    && s.cur < |s.tcb| && s.tcb[s.cur].state == Zombie
  }

  /** What an enabled yield does to everything but the ring and the tokens. */
  lemma YieldFields(s: Sys)
    requires Inv(s)
    ensures
      var n, s', z := Pick(s), Step(s, Yield(false)), s.cur;
      if n == z then s' == s else
      && n in s.saved && s'.cur == n && s'.cpu == s.saved[n] && |s'.tcb| == |s.tcb|
      && (forall t: nat {:trigger s'.tcb[t]} :: t <= POOL && t != z ==>
            s'.tcb[t].state == s.tcb[t].state && s'.tcb[t].stack == s.tcb[t].stack && s'.tcb[t].fn == s.tcb[t].fn)
      && s'.tcb[z].fn == s.tcb[z].fn
      && if Reaps(s) then
           && z < POOL && s.tcb[z].stack.Some? && s.heap.Live(s.tcb[z].stack.value)
           && s'.heap == Free(s.heap, s.tcb[z].stack.value)
           && s'.saved == s.saved - {n}
           && s'.tcb[z].state == Unused && s'.tcb[z].stack == None
         else
           && s'.heap == s.heap
           && s'.saved == (s.saved - {n})[z := s.cpu.(pc := AFTER_SWITCH)]
           && s'.tcb[z].state == s.tcb[z].state && s'.tcb[z].stack == s.tcb[z].stack
  {
    PickOk(s);
    hide Order, Free, Alloc.Wf;
    if Pick(s) != s.cur {
      assert s.cur in s.ring && s.cur !in s.saved;
      if Reaps(s) {
        assert s.tcb[s.cur].stack.Some?;
        assert (s.saved - {Pick(s)})[s.cur := s.cpu.(pc := AFTER_SWITCH)] - {s.cur} == s.saved - {Pick(s)};
      }
    }
  }

  /** What an enabled yield does to the tokens and to g_yield_from: the token moves from the old thread,
      unless it is a zombie, to the new one; the old thread is remembered until someone has reaped it. */
  lemma YieldTokens(s: Sys)
    requires Inv(s) && Ready(s) != []
    ensures
      var n, s', z := Ready(s)[0], Step(s, Yield(false)), s.cur;
      && n in s.saved && |s'.tcb| == POOL + 1 && n <= POOL && z <= POOL
      && s'.tcb[n].token == 0
      && s'.tcb[z].token == (if s.tcb[z].state == Runnable then -1 else s.tcb[z].token)
      && (forall t: nat {:trigger s'.tcb[t]} :: t <= POOL && t != n && t != z ==> s'.tcb[t].token == s.tcb[t].token)
      && s'.from == if s.saved[n].pc == AFTER_SWITCH then -1 else z
  {
    hide Step, Ready, Pick, Switch, Reap, Inv, Reaps, Free;
    YieldRotates(s);
    YieldFields(s);
    TableOf(s);
    var n := Pick(s);
    TableBound(s, n);
    YieldIsSwitch(s);
    SwitchTokens(s, n);
    ReapedTokens(Switch(s, n));
  }

  lemma TableBound(s: Sys, n: nat)
    requires Inv(s) && n in s.saved
    ensures n <= POOL && n in s.ring && n != s.cur
  {
  }

  lemma YieldIsSwitch(s: Sys)
    requires |s.tcb| == POOL + 1 && s.cur < |s.tcb| && Pick(s) < |s.tcb| && Pick(s) in s.saved && Pick(s) != s.cur
    ensures
      var s1 := Switch(s, Pick(s));
      Step(s, Yield(false)) == if s.saved[Pick(s)].pc == AFTER_SWITCH then Reap(s1) else s1
  {
    hide Pick, Reap;
  }

  lemma SwitchTokens(s: Sys, n: nat)
    requires s.cur < |s.tcb| && n < |s.tcb| && n in s.saved && n != s.cur
    ensures
      var s', z := Switch(s, n), s.cur;
      && |s'.tcb| == |s.tcb| && s'.tcb[n].token == 0 && s'.from == z
      && s'.tcb[z].token == (if s.tcb[z].state == Runnable then -1 else s.tcb[z].token)
      && forall t: nat {:trigger s'.tcb[t]} :: t < |s.tcb| && t != n && t != z ==> s'.tcb[t].token == s.tcb[t].token
  {
  }

  lemma ReapedTokens(s: Sys)
    ensures Reap(s).from == -1 && |Reap(s).tcb| == |s.tcb|
    ensures forall t: nat {:trigger Reap(s).tcb[t]} :: t < |s.tcb| ==> Reap(s).tcb[t].token == s.tcb[t].token
  {
    hide Remove, Free;
  }

  lemma FrameKept(s: Sys, op: Op, t: nat)
    requires Inv(s) && t in s.saved && s.tcb[t].state == Runnable && Step(s, op).cur != t
    ensures Inv(Step(s, op)) && SameFrame(s, Step(s, op), t)
  {
    StepInv(s, op);
    if op == Yield(false) {
      hide Step, Reaps, Free;
      YieldFields(s);
    } else {
      OtherFrameKept(s, op, t);
    }
  }

  lemma OtherFrameKept(s: Sys, op: Op, t: nat)
    requires Inv(s) && op != Yield(false) && t in s.saved && s.tcb[t].state == Runnable && s.cur != t
    ensures SameFrame(s, Step(s, op), t)
  {
    hide YieldStep, Malloc, Alloc.Wf;
  }

  /** Thread `t` is runnable and has the same function and the same saved frame in both states. */
  ghost predicate SameFrame(s: Sys, s': Sys, t: nat) {
    && t in s.saved && t in s'.saved && s'.saved[t] == s.saved[t]
    && t < |s.tcb| && t < |s'.tcb|
    && s.tcb[t].state == Runnable && s'.tcb[t].state == Runnable && s'.tcb[t].fn == s.tcb[t].fn
  }

  /** A waiting thread's frame is the same at the end of any run. */
  lemma {:induction false} FrameWaits(s: Sys, ops: seq<Op>, t: nat)
    requires Inv(s) && t in s.saved && s.tcb[t].state == Runnable && Waits(s, ops, t)
    ensures Inv(Run(s, ops)) && SameFrame(s, Run(s, ops), t)
    decreases |ops|
  {
    if ops != [] {
      FrameKept(s, ops[0], t);
      FrameWaits(Step(s, ops[0]), ops[1..], t);
    } else {
      assert t in s.ring;
    }
  }

  /** A thread that yields gets back, when it is next switched in, exactly the callee-saved registers
      and stack pointer it had, at the return point of its own call of cpu_switch. */
  lemma SwitchedBack(s: Sys, ops: seq<Op>)
    requires Inv(s) && s.tcb[s.cur].state == Runnable
    requires Waits(Step(s, Yield(false)), ops, s.cur)
    requires Step(Run(Step(s, Yield(false)), ops), Yield(false)).cur == s.cur
    ensures Step(Run(Step(s, Yield(false)), ops), Yield(false)).cpu == s.cpu.(pc := AFTER_SWITCH)
  {
    var s1, s2 := Step(s, Yield(false)), Run(Step(s, Yield(false)), ops);
    YieldFields(s);
    StepInv(s, Yield(false));
    FrameWaits(s1, ops, s.cur);
    YieldFields(s2);
  }

  /** A spawned thread is first switched in with zeroed registers, at thread_trampoline, at the top of
      its own stack, and with the function it was spawned with. */
  lemma FirstSwitch(s: Sys, fn: nat, ops: seq<Op>)
    requires Inv(s) && Step(s, Spawn(fn)).ring != s.ring
    requires var t := FirstUnused(s.tcb);
      && t < POOL && Waits(Step(s, Spawn(fn)), ops, t)
      && Step(Run(Step(s, Spawn(fn)), ops), Yield(false)).cur == t
    ensures
      var t, s1 := FirstUnused(s.tcb), Step(s, Spawn(fn));
      && s1.tcb[t].stack.Some?
      && |Step(Run(s1, ops), Yield(false)).tcb| == POOL + 1
      && Step(Run(s1, ops), Yield(false)).tcb[t].fn == fn
      && Step(Run(s1, ops), Yield(false)).cpu ==
           Frame(Regs(0, 0, 0, 0, 0, 0), Payload(s.base, s1.heap, s1.tcb[t].stack.value) + 4096, TRAMPOLINE)
  {
    hide Inv, Run, Waits, Reaps, Free, FirstUnused;
    var s1, t := Step(s, Spawn(fn)), FirstUnused(s.tcb);
    StepInv(s, Spawn(fn));
    SpawnedFrame(s, fn);
    hide Step;
    FrameWaits(s1, ops, t);
    YieldFields(Run(s1, ops));
    TableOf(Run(s1, ops));
    TableOf(Step(Run(s1, ops), Yield(false))) by { StepInv(Run(s1, ops), Yield(false)); }
  }

  lemma TableOf(s: Sys)
    requires Inv(s)
    ensures |s.tcb| == POOL + 1 && s.cur <= POOL && s.cur !in s.saved
  {
    assert s.cur in s.ring;
  }

  lemma SpawnedFrame(s: Sys, fn: nat)
    requires Inv(s) && Step(s, Spawn(fn)).ring != s.ring
    ensures
      var t, s1 := FirstUnused(s.tcb), Step(s, Spawn(fn));
      && t < POOL && t in s1.saved && |s1.tcb| == POOL + 1 && s1.tcb[t].state == Runnable
      && s1.tcb[t].stack.Some? && s1.tcb[t].fn == fn
      && s1.saved[t] == Frame(ZERO_REGS, StackTop(s.base, s1.heap, s1.tcb[t].stack.value), TRAMPOLINE)
  {
    hide Malloc;
  }

  // ---------------------------------------------------------------- zombies

  /** The head of the ready queue, to which a zombie's yield switches, reaps it exactly when it had
      itself been suspended inside sched_yield; it then finds the zombie unlinked, its slot free and
      its stack freed. */
  lemma ZombieReaped(s: Sys)
    requires Inv(s) && s.tcb[s.cur].state == Zombie
    ensures Ready(s) != [] && Ready(s)[0] in s.saved
    ensures
      var s', z := Step(s, Yield(false)), s.cur;
      if s.saved[Ready(s)[0]].pc == AFTER_SWITCH
      then z !in s'.ring && s'.tcb[z].state == Unused && s'.tcb[z].stack == None
           && s.tcb[z].stack.Some? && s'.heap == Free(s.heap, s.tcb[z].stack.value)
           && !s'.heap.Live(s.tcb[z].stack.value)
      else Lost(s', z)
  {
    ZombieMovesOn(s);
    YieldRotates(s);
    hide Ready;
    YieldFields(s);
    StepInv(s, Yield(false));
    FreeOk(s.heap, s.tcb[s.cur].stack.value);
    var s' := Step(s, Yield(false));
    assert s.cur in s'.ring <==> s'.tcb[s.cur].state != Unused;
  }

  /** A zombie that is not running: it holds its slot, its place in the ring and its stack. */
  ghost predicate Lost(s: Sys, z: nat) {
    && z < POOL && z < |s.tcb| && z != s.cur && z in s.ring
    && s.tcb[z].state == Zombie && s.tcb[z].stack.Some?
    && s.heap.Live(s.tcb[z].stack.value)
  }

  /** When the zombie's successor was on its first run, nothing ever reaps the zombie: g_yield_from
      is overwritten by the next switch.  It never runs again and its stack is never freed. */
  lemma {:induction false} LostForever(s: Sys, ops: seq<Op>, z: nat)
    requires Inv(s) && Lost(s, z)
    ensures Lost(Run(s, ops), z) && Run(s, ops).tcb[z].stack == s.tcb[z].stack
    decreases |ops|
  {
    if ops != [] {
      StepInv(s, ops[0]);
      LostStep(s, ops[0], z);
      LostForever(Step(s, ops[0]), ops[1..], z);
    }
  }

  /** A run of five operations from boot that loses a zombie: main_thread spawns two threads; the second
      runs first and returns, and its successor has not run yet. */
  lemma ZombieLost(base: nat, cpu: Frame, f: nat, g: nat, later: seq<Op>)
    requires f != 0 && g != 0
    ensures
      var s := Run(Boot(base, cpu), [Spawn(f), Spawn(g), Yield(false), Exit, Yield(false)]);
      Inv(s) && Lost(s, 1) && Lost(Run(s, later), 1)
  {
    var s0 := Boot(base, cpu);
    var s1, s2 := Step(s0, Spawn(f)), Step(Step(s0, Spawn(f)), Spawn(g));
    var s3 := Step(s2, Yield(false));
    var s4 := Step(s3, Exit);
    var s5 := Step(s4, Yield(false));
    Booted(base, cpu);
    hide Inv, Step, Ready, Used, Boot, FirstUnused, Lost;
    SpawnedNext(s0, f, 0);
    SpawnedNext(s1, g, 1);
    FrameKept(s1, Spawn(g), 0);
    YieldRotates(s2);
    StepInv(s2, Yield(false));
    FrameKept(s2, Yield(false), 0);
    YieldFields(s2);
    Exited(s3);
    FrameKept(s3, Exit, 0);
    OtherReady(s3, Exit);
    StepInv(s4, Yield(false));
    ZombieReaped(s4);
    FiveOps(s0, Spawn(f), Spawn(g), Yield(false), Exit, Yield(false));
    LostForever(s5, later, 1);
  }

  lemma Booted(base: nat, cpu: Frame)
    ensures var s := Boot(base, cpu);
      Inv(s) && Ready(s) == [] && Used(s) == {} && s.cur == MAIN && FirstUnused(s.tcb) == 0
  {
    BootInv(base, cpu);
    var s := Boot(base, cpu);
    assert IndexOf([MAIN], MAIN) == 0;
    assert Order(s.ring, s.cur) == [];
  }

  /** main_thread spawns into slot `t`, the first that is free: the new thread is next. */
  lemma SpawnedNext(s: Sys, fn: nat, t: nat)
    requires Inv(s) && s.cur == MAIN && fn != 0 && FirstUnused(s.tcb) == t && t < POOL - 1
    requires forall u: nat :: u in Used(s) <==> u < t
    ensures
      var s' := Step(s, Spawn(fn));
      && Inv(s') && s'.cur == MAIN && Ready(s') == [t] + Ready(s)
      && FirstUnused(s'.tcb) == t + 1 && (forall u: nat :: u in Used(s') <==> u <= t)
      && |s'.tcb| == POOL + 1 && t in s'.saved && s'.saved[t].pc == TRAMPOLINE && s'.tcb[t].state == Runnable
  {
    hide Step, Inv, Ready, Used, FirstUnused;
    var s' := Step(s, Spawn(fn));
    FewUsed(Used(s), t);
    SpawnCapacity(s, fn);
    StepInv(s, Spawn(fn));
    UsedRing(s, t);
    UsedRing(s', t);
    SpawnQueues(s, fn);
    SpawnedFrame(s, fn);
    SpawnFields(s, fn);
    NextUnused(s', t + 1);
  }

  lemma UsedRing(s: Sys, t: nat)
    requires Inv(s) && t < POOL
    ensures t in s.ring <==> t in Used(s)
  {
  }

  lemma NextUnused(s: Sys, t: nat)
    requires Inv(s) && t < POOL && forall u: nat :: u in Used(s) <==> u < t
    ensures FirstUnused(s.tcb) == t
  {
    var u := FirstUnused(s.tcb);
    assert u < POOL ==> u !in Used(s);
    assert t !in Used(s) && s.tcb[t].state == Unused;
    assert u < t ==> u in Used(s);
  }

  lemma FewUsed(r: set<nat>, t: nat)
    requires forall u: nat :: u in r <==> u < t
    ensures |r| == t
  {
    if t == 0 {
      assert r == {};
    } else {
      FewUsed(r - {t - 1}, t - 1);
    }
  }

  /** An exit makes its thread a zombie and changes nothing else; main_thread does not exit. */
  lemma ExitOnly(s: Sys)
    requires Inv(s)
    ensures
      if s.cur == MAIN then Step(s, Exit) == s
      else
        && s.cur < 64 && Step(s, Exit).tcb[..] == s.tcb[s.cur := s.tcb[s.cur].(state := Zombie)]
        && Step(s, Exit).(tcb := s.tcb) == s
  {
    assert s.cur in s.ring;
  }

  lemma Exited(s: Sys)
    requires Inv(s) && s.cur < POOL
    ensures
      var s' := Step(s, Exit);
      Inv(s') && s'.cur == s.cur && |s'.tcb| == POOL + 1 && s'.tcb[s.cur].state == Zombie
  {
    StepInv(s, Exit);
  }

  lemma FiveOps(s: Sys, a: Op, b: Op, c: Op, d: Op, e: Op)
    ensures Run(s, [a, b, c, d, e]) == Step(Step(Step(Step(Step(s, a), b), c), d), e)
  {
    hide Step;
    FirstOp(s, [a, b, c, d, e]);
    FirstOp(Step(s, a), [b, c, d, e]);
    FirstOp(Step(Step(s, a), b), [c, d, e]);
    FirstOp(Step(Step(Step(s, a), b), c), [d, e]);
    FirstOp(Step(Step(Step(Step(s, a), b), c), d), [e]);
    NoOps(Step(Step(Step(Step(Step(s, a), b), c), d), e));
  }

  lemma LostStep(s: Sys, op: Op, z: nat)
    requires Inv(s) && Lost(s, z)
    ensures Lost(Step(s, op), z) && Step(s, op).tcb[z].stack == s.tcb[z].stack
  {
    StepInv(s, op);
    if op == Yield(false) {
      PickOk(s);
      YieldFields(s);
      hide Step;
    }
    assert z in Step(s, op).ring <==> Step(s, op).tcb[z].state != Unused;
  }

  // ---------------------------------------------------------------- capacity

  /** The pool slots in use. */
  function Used(s: Sys): set<nat> {
    set t: nat | t < POOL && t < |s.tcb| && s.tcb[t].state != Unused
  }

  lemma {:induction false} SetSize(f: seq<nat>, r: set<nat>)
    requires Distinct(f) && forall x: nat :: x in r <==> x in f
    ensures |r| == |f|
  {
    if f == [] {
      assert r == {};
    } else {
      assert f[0] in r;
      assert forall x :: x in f[1..] ==> x in f;
      SetSize(f[1..], r - {f[0]});
    }
  }

  lemma UsedCount(s: Sys)
    requires Inv(s)
    ensures |Used(s)| == |s.ring| - 1 == s.heap.Count() - |s.heap.free|
  {
    var f := s.ring[1..];
    forall x: nat | x in f
      ensures x in Used(s)
    {
      assert x in s.ring && x != MAIN;
    }
    forall x: nat | x in Used(s)
      ensures x in f
    {
      assert x in s.ring && s.ring[0] != x;
    }
    SetSize(f, Used(s));
  }

  lemma FullPool(s: Sys)
    requires |s.tcb| == POOL + 1 && forall t: nat :: t < POOL ==> s.tcb[t].state != Unused
    ensures |Used(s)| == POOL
  {
    var all: seq<nat> := seq(POOL, i => i);
    forall x: nat | x in Used(s)
      ensures x in all
    {
      assert all[x] == x;
    }
    SetSize(all, Used(s));
  }

  /** The 64-slot pool is never full: the arena runs out of stacks first. */
  lemma PoolNeverFull(s: Sys)
    requires Inv(s)
    ensures |Used(s)| <= 63 && FirstUnused(s.tcb) < 64
  {
    UsedCount(s);
    MallocStack(s.heap);
    if FirstUnused(s.tcb) == POOL {
      FullPool(s);
    }
  }

  /** After any history, thread_spawn of a function succeeds exactly when fewer than 63 slots are in
      use. */
  lemma SpawnCapacity(s: Sys, fn: nat)
    requires Inv(s)
    ensures
      var s', t := Step(s, Spawn(fn)), FirstUnused(s.tcb);
      if fn != 0 && |Used(s)| < 63
      then |s'.tcb| == POOL + 1 && t < POOL && t !in Used(s) && Used(s') == Used(s) + {t}
           && s'.tcb[t].state == Runnable && s'.tcb[t].fn == fn
      else s' == s
  {
    PoolNeverFull(s);
    UsedCount(s);
    MallocStack(s.heap);
    hide Malloc, FirstUnused, Inv;
  }

  // ---------------------------------------------------------------- stacks freed

  /** The stack that a step takes from the heap, and the stack that it gives back. */
  function Taken(s: Sys, op: Op): Option<nat> {
    if |s.tcb| == POOL + 1 && op.Spawn? && op.fn != 0 && FirstUnused(s.tcb) != POOL
    then Malloc(s.heap, Need(STACK_SIZE)).1 else None
  }

  function Given(s: Sys, op: Op): Option<nat> {
    if op == Yield(false) && Reaps(s) then s.tcb[s.cur].stack else None
  }

  function Count(o: Option<nat>, b: nat): nat {
    if o == Some(b) then 1 else 0
  }

  function TakenIn(s: Sys, ops: seq<Op>, b: nat): nat
    decreases |ops|
  {
    if ops == [] then 0 else Count(Taken(s, ops[0]), b) + TakenIn(Step(s, ops[0]), ops[1..], b)
  }

  function GivenIn(s: Sys, ops: seq<Op>, b: nat): nat
    decreases |ops|
  {
    if ops == [] then 0 else Count(Given(s, ops[0]), b) + GivenIn(Step(s, ops[0]), ops[1..], b)
  }

  function LiveCount(s: Sys, b: nat): nat {
    if s.heap.Live(b) then 1 else 0
  }

  lemma BalanceStep(s: Sys, op: Op, b: nat)
    requires Inv(s)
    ensures LiveCount(Step(s, op), b) == LiveCount(s, b) + Count(Taken(s, op), b) - Count(Given(s, op), b)
  {
    if op.Spawn? {
      MallocOk(s.heap, Need(STACK_SIZE));
    } else if op == Yield(false) {
      YieldFields(s);
      if Reaps(s) {
        FreeOk(s.heap, s.tcb[s.cur].stack.value);
      }
    }
  }

  /** Over any run each block is freed once per allocation: the books balance, so no stack is freed
      twice and none is handed out while it is in use. */
  lemma {:induction false} StacksBalance(s: Sys, ops: seq<Op>, b: nat)
    requires Inv(s)
    ensures LiveCount(Run(s, ops), b) == LiveCount(s, b) + TakenIn(s, ops, b) - GivenIn(s, ops, b)
    decreases |ops|
  {
    if ops != [] {
      StepInv(s, ops[0]);
      BalanceStep(s, ops[0], b);
      StacksBalance(Step(s, ops[0]), ops[1..], b);
    }
  }
}
