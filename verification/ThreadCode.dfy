/** The code of kernel/thread_amd64.c and arch/x86_64/context_amd64.S, on memory, links and registers,
    proved to take exactly the steps of the abstract scheduler. */
module ThreadCode {
  import opened Wrappers
  import opened Bytes
  import opened HeapModel
  import opened HeapCode
  import opened Sched
  import opened ThreadModel

  /** Following the links from `cur` visits the circle in order. */
  lemma NextInOrder(th: seq<Thread>, ring: seq<nat>, cur: nat, i: nat)
    requires Links(th, ring) && Distinct(ring) && cur in ring && i <= |Order(ring, cur)|
    ensures
      var o := Order(ring, cur);
      var at := if i == 0 then cur else o[i - 1];
      at < |th| && th[at].next == if i < |o| then o[i] else cur
  {
    var k, o := IndexOf(ring, cur), Order(ring, cur);
    var j := if k + i < |ring| then k + i else k + i - |ring|;
    assert Link(th, ring, j);
    assert ring[j] == if i == 0 then cur else o[i - 1];
  }

  /** One hop of pick_next: what the walk finds at position `i` of the circle, and what is left of
      the search once it has moved on. */
  lemma Hop(th: seq<Thread>, s: Sys, i: nat)
    requires Table(th, s.tcb, s.base, s.heap) && Links(th, s.ring)
    requires Distinct(s.ring) && s.cur in s.ring && i <= |Order(s.ring, s.cur)|
    ensures
      var o := Order(s.ring, s.cur);
      && |th| == |s.tcb| == POOL + 1 && s.cur <= POOL
      && (i == 0 ==> th[s.cur].next == if |o| > 0 then o[0] else s.cur)
      && (i < |o| ==> o[i] != s.cur && o[i] <= POOL && Agrees(th[o[i]], s.tcb[o[i]], s.base, s.heap))
      && (i < |o| ==> th[o[i]].next == if i + 1 < |o| then o[i + 1] else s.cur)
      && FirstEligible(s.tcb, o[i..], s.cur) ==
         (if i == |o| then s.cur else if Eligible(s.tcb, o[i]) then o[i] else FirstEligible(s.tcb, o[i + 1..], s.cur))
      && (i + 1 < |o| ==> o[i + 1] <= POOL)
      && (|o| > 0 ==> o[0] <= POOL)
  {
    hide Links, Agrees, Order, Eligible;
    var o := Order(s.ring, s.cur);
    NextInOrder(th, s.ring, s.cur, 0);
    InOrder(s.ring, s.cur);
    if |o| > 0 {
      OnRing(th, s.ring, s.cur, 0);
    }
    if i < |o| {
      assert o[i..][0] == o[i] && o[i..][1..] == o[i + 1..];
      assert o[i] in o;
      NextInOrder(th, s.ring, s.cur, i + 1);
      if i + 1 < |o| {
        OnRing(th, s.ring, s.cur, i + 1);
      }
    }
  }

  lemma OnRing(th: seq<Thread>, ring: seq<nat>, cur: nat, i: nat)
    requires Links(th, ring) && Distinct(ring) && cur in ring && i < |Order(ring, cur)|
    ensures Order(ring, cur)[i] < |th|
  {
    hide Links, Distinct, Order;
    NextInOrder(th, ring, cur, i + 1);
  }

  lemma TableAt(th: seq<Thread>, s: Sys, t: nat)
    requires Table(th, s.tcb, s.base, s.heap) && t <= POOL
    ensures |th| == |s.tcb| == POOL + 1 && Agrees(th[t], s.tcb[t], s.base, s.heap)
  {
  }

  /** When kmalloc of a stack fails, nothing has changed. */
  lemma SpawnFails(m: seq<byte>, s: Sys, fn: nat)
    requires Inv(s) && Malloc(s.heap, Need(STACK_SIZE)).1 == None
    ensures Malloc(s.heap, Need(STACK_SIZE)).0 == s.heap && MallocMem(m, s.base, s.heap, Need(STACK_SIZE)) == m
    ensures SpawnStep(s, fn) == s
  {
    MallocOk(s.heap, Need(STACK_SIZE));
  }

  lemma SlotFree(s: Sys, t: nat)
    requires Inv(s) && t == FirstUnused(s.tcb) < POOL
    ensures s.tcb[t].state == Unused && s.tcb[t].stack == None
  {
  }

  /** The stack of a zombie. */
  lemma ZombieFacts(m: seq<byte>, fl: nat, off: nat, s: Sys, z: nat)
    requires Inv(s) && Good(m, s.base, fl, off, s.heap) && z < POOL && s.tcb[z].state == Zombie
    ensures z in s.ring && s.tcb[z].stack.Some? && s.heap.Live(s.tcb[z].stack.value)
    ensures KStack(s.base, s.heap, s.tcb[z].stack) == Payload(s.base, s.heap, s.tcb[z].stack.value) >= 16
    ensures s.base + HDR <= Payload(s.base, s.heap, s.tcb[z].stack.value) < s.base + HEAP_SIZE
  {
    StackBlock(s, z);
  }

  lemma SpawnNothing(s: Sys, fn: nat)
    requires |s.tcb| == POOL + 1 && (fn == 0 || FirstUnused(s.tcb) == POOL)
    ensures SpawnStep(s, fn) == s
  {
  }

  lemma SpawnedBlock(s: Sys, t: nat, fn: nat, b: nat)
    requires |s.tcb| == POOL + 1 && Inv(SpawnStep(s, fn)) && t < POOL
    requires |SpawnStep(s, fn).tcb| == POOL + 1 && SpawnStep(s, fn).tcb[t].stack == Some(b)
    ensures SpawnStep(s, fn).heap.Start(b) + STACK_BLOCK <= HEAP_SIZE
  {
    StackBlock(SpawnStep(s, fn), t);
  }

  lemma RepSame(m: seq<byte>, fl: nat, off: nat, th: seq<Thread>, s: Sys, boot: BootStack, fl': nat, off': nat)
    requires Rep(m, fl, off, th, s, boot) && Good(m, s.base, fl', off', s.heap)
    ensures Rep(m, fl', off', th, s, boot)
  {
  }

  lemma ReapTableSame(th: seq<Thread>, th': seq<Thread>, p: nat, z: nat)
    requires p < |th| && z < |th| && |th'| == |th|
    requires var th1 := SetNext(SetNext(th, p, th[z].next), z, -1);
      th' == th1[z := th1[z].(state := Unused)][z := th1[z].(state := Unused, kstack := 0)]
    ensures th' == ReapTable(th, p, z)
  {
  }

  lemma ReapScalars(s: Sys)
    requires 0 <= s.from < |s.tcb| && s.from < POOL && s.tcb[s.from].state == Zombie && s.tcb[s.from].stack.Some?
    ensures Reap(s).cur == s.cur && Reap(s).from == -1 && Reap(s).cpu == s.cpu && Reap(s).base == s.base
    ensures Reap(s).heap == Free(s.heap, s.tcb[s.from].stack.value)
  {
  }

  lemma PickFacts(s: Sys)
    requires Inv(s)
    ensures var n := Pick(s);
      n != s.cur ==> n in s.ring && n <= POOL && Eligible(s.tcb, n) && n in s.saved
  {
    PickOk(s);
  }

  lemma SwitchScalars(s: Sys, next: nat)
    requires s.cur < |s.tcb| && next < |s.tcb| && next in s.saved
    ensures var s' := Switch(s, next);
      && s'.cur == next && s'.from == s.cur && s'.base == s.base && s'.heap == s.heap && s'.cpu == s.saved[next]
  {
  }

  lemma YieldIs(s: Sys)
    ensures Step(s, Op.Yield(true)) == s
    ensures Inv(s) ==>
      var next := Pick(s);
      Step(s, Op.Yield(false)) ==
        if next == s.cur then s
        else if s.cur >= |s.tcb| || next >= |s.tcb| || next !in s.saved then s
        else if s.saved[next].pc == AFTER_SWITCH then Reap(Switch(s, next)) else Switch(s, next)
  {
  }

  /** Clearing g_yield_from alone. */
  lemma NothingReaped(m: seq<byte>, fl: nat, off: nat, th: seq<Thread>, s: Sys, boot: BootStack)
    requires Rep(m, fl, off, th, s, boot) && s.from != s.cur && Reap(s) == s.(from := -1)
    ensures Rep(m, fl, off, th, Reap(s), boot)
  {
    ReapInv(s);
    var s' := Reap(s);
    forall t: nat | t <= POOL && t in s'.saved
      ensures Suspended(WordsOf(m), th, s', boot, t)
    {
      assert s.saved[t] == s'.saved[t] && Suspended(WordsOf(m), th, s, boot, t);
    }
  }

  class Kernel {
    const mem: array<byte>
    const heap: Heap
    const th: array<Thread>   // threads[0..63], and main_thread at 64
    const boot: BootStack
    var current: nat          // g_current[0]
    var yieldFrom: int        // g_yield_from
    var preemptDepth: nat     // g_preempt_disable_depth
    var rbp: nat
    var rbx: nat
    var r12: nat
    var r13: nat
    var r14: nat
    var r15: nat
    var rsp: nat
    var pc: nat
    ghost var s: Sys

    function Cpu(): Frame
      reads this
    {
      Frame(Regs(rbp, rbx, r12, r13, r14, r15), rsp, pc)
    }

    /** The parts belong together. */
    ghost predicate WiredButYieldFrom()
      reads this, heap
    {
      && heap.mem == mem && heap.base == s.base && heap.a == s.heap
      && th.Length == POOL + 1 && current == s.cur
    }

    ghost predicate Wired()
      reads this, heap
    {
      WiredButYieldFrom() && yieldFrom == s.from
    }

    ghost predicate Valid()
      reads this, heap, mem, th
    {
      && Wired() && Cpu() == s.cpu
      && Rep(mem[..], heap.freelist, heap.off, th[..], s, boot)
    }

    /** The running thread has room on its stack for cpu_switch's frame. */
    ghost predicate Room()
      requires current <= POOL && |s.tcb| == POOL + 1
      reads this
    {
      Lo(s, boot, current) + FRAME <= rsp <= Hi(s, boot, current)
    }

    /** thread_subsystem_early_init(1): an empty pool, and main_thread running on the boot stack. */
    constructor (mem: array<byte>, heap: Heap, boot: BootStack, cpu: Frame)
      requires heap.mem == mem && heap.Valid() && heap.a == EMPTY_HEAP
      requires Layout(mem[..], heap.base, boot) && Words64(cpu)
      ensures Valid() && s == Boot(heap.base, cpu) && preemptDepth == 0
      ensures this.mem == mem && this.heap == heap && this.boot == boot && fresh(th)
    {
      this.mem := mem;
      this.heap := heap;
      this.boot := boot;
      var t := new Thread[POOL + 1](_ => Thread(0, -1, 0, Unused, 0, AFF_ANY, -1));
      th := t;
      current, yieldFrom, preemptDepth := MAIN, -1, 0;
      rbp, rbx, r12 := cpu.regs.rbp, cpu.regs.rbx, cpu.regs.r12;
      r13, r14, r15 := cpu.regs.r13, cpu.regs.r14, cpu.regs.r15;
      rsp, pc := cpu.sp, cpu.pc;
      s := Boot(heap.base, cpu);
      new;
      th[MAIN] := Thread(0, MAIN, 0, Runnable, 0, 0, 0);
      BootInv(heap.base, cpu);
      hide WordsOf, Represents;
      assert Links(th[..], s.ring);
      assert Table(th[..], s.tcb, s.base, s.heap);
    }

    // -------------------------------------------------------------- the run queue

    /** thread_alloc_slot: the first unused slot of the pool, or 64. */
    method AllocSlot() returns (i: nat)
      requires th.Length == POOL + 1 && |s.tcb| == POOL + 1
      requires Table(th[..], s.tcb, s.base, s.heap)
      ensures i == FirstUnused(s.tcb)
    {
      i := 0;
      while i < POOL
        invariant i <= POOL && FirstUnused(s.tcb) == FirstUnused(s.tcb, i)
      {
        assert Agrees(th[..][i], s.tcb[i], s.base, s.heap);
        if th[i].state == Unused {
          return;
        }
        i := i + 1;
      }
    }

    /** enqueue_thread: a thread that is not in the circle joins it right behind main_thread. */
    method Enqueue(t: nat)
      requires th.Length == POOL + 1 && t < POOL
      modifies th
      ensures
        Links(old(th[..]), s.ring) && Distinct(s.ring) && |s.ring| > 0 && s.ring[0] == MAIN && t !in s.ring ==>
        Links(th[..], [MAIN, t] + s.ring[1..])
      ensures th[..] == SetNext(SetNext(old(th[..]), t, old(th[MAIN].next)), MAIN, t)
    {
      if Links(th[..], s.ring) && Distinct(s.ring) && |s.ring| > 0 && s.ring[0] == MAIN && t !in s.ring {
        EnqueueLinks(th[..], s.ring, t);
      }
      hide Links, Distinct;
      th[t] := th[t].(next := th[MAIN].next);
      th[MAIN] := th[MAIN].(next := t);
    }

    /** unlink_thread, of a thread in the ring: its predecessor skips it. */
    method Unlink(t: nat)
      requires th.Length == POOL + 1 && Links(th[..], s.ring) && Distinct(s.ring)
      requires |s.ring| > 0 && s.ring[0] == MAIN && t in s.ring && t != MAIN
      modifies th
      ensures 0 < IndexOf(s.ring, t) < |s.ring| && t <= POOL && s.ring[IndexOf(s.ring, t) - 1] <= POOL
      ensures Links(th[..], Remove(s.ring, t))
      ensures th[..] == SetNext(SetNext(old(th[..]), s.ring[IndexOf(s.ring, t) - 1], old(th[t].next)), t, -1)
    {
      ghost var k := IndexOf(s.ring, t);
      UnlinkLinks(th[..], s.ring, k);
      ghost var i := 0;
      var p := MAIN;
      assert Link(th[..], s.ring, k);
      while true
        invariant i < k && p == s.ring[i] && th[..] == old(th[..])
        decreases k - i
      {
        assert Link(th[..], s.ring, i);
        if th[p].next == t {
          assert s.ring[i + 1] == s.ring[k];
          th[p] := th[p].(next := th[t].next);
          th[t] := th[t].(next := -1);
          return;
        }
        p := th[p].next;
        i := i + 1;
        assert s.ring[i] != s.ring[0];
        if p == MAIN {
          break;
        }
      }
    }

    /** pick_next: walk the links until a runnable thread of this CPU's can be claimed. */
    method PickNext(cur: nat) returns (t: nat)
      requires cur == s.cur && cur in s.ring && Distinct(s.ring)
      requires Table(th[..], s.tcb, s.base, s.heap) && Links(th[..], s.ring)
      modifies th
      ensures t == Pick(s) && t <= POOL
      ensures th[..] == if t == cur then old(th[..]) else old(th[..])[t := old(th[t]).(token := 0)]
    {
      hide Table, Links, Order, FirstEligible, Distinct;
      ghost var o := Order(s.ring, cur);
      ghost var i := 0;
      Hop(th[..], s, 0);
      assert o[0..] == o;
      t := th[cur].next;
      while true
        invariant i <= |o| && t == (if i < |o| then o[i] else cur) && t <= POOL
        invariant Pick(s) == FirstEligible(s.tcb, o[i..], cur)
        invariant th[..] == old(th[..])
        decreases |o| - i
      {
        Hop(th[..], s, i);
        if t == cur {
          return;
        }
        if th[t].state == Runnable {
          if th[t].aff != AFF_ANY && th[t].aff != 0 {
            t := th[t].next;
            i := i + 1;
            continue;
          }
          if th[t].token == -1 {   // __sync_bool_compare_and_swap
            th[t] := th[t].(token := 0);
            return;
          }
        }
        t := th[t].next;
        i := i + 1;
      }
    }

    // -------------------------------------------------------------- preemption

    /** sched_preempt_disable */
    method PreemptDisable()
      requires Valid()
      modifies this`preemptDepth
      ensures Valid() && s == old(s) && preemptDepth == old(preemptDepth) + 1
    {
      preemptDepth := preemptDepth + 1;
    }

    /** sched_preempt_enable: unbalanced calls stop at zero. */
    method PreemptEnable()
      requires Valid()
      modifies this`preemptDepth
      ensures Valid() && s == old(s)
      ensures preemptDepth == if old(preemptDepth) > 0 then old(preemptDepth) - 1 else 0
    {
      if preemptDepth > 0 {
        preemptDepth := preemptDepth - 1;
      }
    }

    // -------------------------------------------------------------- stacks

    /** setup_initial_stack: zeros for the six registers, thread_trampoline as return address. */
    method SetupInitialStack(t: nat)
      requires t < th.Length && STACK_SIZE <= th[t].kstack + STACK_SIZE <= mem.Length
      modifies mem, th
      ensures th[..] == old(th[..])[t := old(th[t]).(rsp := old(th[t]).kstack + STACK_SIZE - FRAME)]
      ensures Framed(old(mem[..]), mem[..], old(th[t]).kstack + STACK_SIZE - FRAME,
                     Frame(ZERO_REGS, old(th[t]).kstack + STACK_SIZE, TRAMPOLINE))
    {
      var sp := th[t].kstack + STACK_SIZE;
      sp := sp - 7 * WORD;
      StoreFrame(sp, 0, 0, 0, 0, 0, 0, TRAMPOLINE);
      th[t] := th[t].(rsp := sp);
    }

    method StoreFrame(sp: nat, a0: nat, a1: nat, a2: nat, a3: nat, a4: nat, a5: nat, a6: nat)
      requires sp + FRAME <= mem.Length
      requires IsWord(a0) && IsWord(a1) && IsWord(a2) && IsWord(a3) && IsWord(a4) && IsWord(a5) && IsWord(a6)
      modifies mem
      ensures Framed(old(mem[..]), mem[..], sp, Frame(Regs(a5, a4, a3, a2, a1, a0), sp + FRAME, a6))
    {
      hide Put, WordsOf;
      ghost var m0 := mem[..];
      StoreWord(sp, a0, m0, sp);
      StoreWord(sp + 8, a1, m0, sp);
      StoreWord(sp + 16, a2, m0, sp);
      StoreWord(sp + 24, a3, m0, sp);
      StoreWord(sp + 32, a4, m0, sp);
      StoreWord(sp + 40, a5, m0, sp);
      StoreWord(sp + 48, a6, m0, sp);
    }

    /** One word of a frame at `base`, in memory that has so far changed only inside that frame. */
    method StoreWord(x: nat, v: nat, ghost m0: seq<byte>, ghost frame: nat)
      requires frame <= x && x + WORD <= frame + FRAME && x + WORD <= mem.Length && IsWord(v)
      requires SameOutside(m0, mem[..], frame, frame + FRAME)
      modifies mem
      ensures SameOutside(m0, mem[..], frame, frame + FRAME)
      ensures Stored(WordsOf(old(mem[..])), WordsOf(mem[..]), x, v)
    {
      PutStored(mem[..], x, v);
      PutSame(mem[..], x, v, frame, frame + FRAME);
      Store(mem, x, WORD, v);
    }

    method Push(v: nat, ghost m0: seq<byte>, ghost frame: nat)
      requires frame + WORD <= rsp <= frame + FRAME && rsp <= mem.Length && IsWord(v)
      requires SameOutside(m0, mem[..], frame, frame + FRAME)
      modifies this`rsp, mem
      ensures rsp == old(rsp) - WORD
      ensures SameOutside(m0, mem[..], frame, frame + FRAME)
      ensures Stored(WordsOf(old(mem[..])), WordsOf(mem[..]), rsp, v)
    {
      rsp := rsp - WORD;
      StoreWord(rsp, v, m0, frame);
    }

    method Pop() returns (v: nat)
      requires rsp + WORD <= mem.Length
      modifies this`rsp
      ensures rsp == old(rsp) + WORD
      ensures v == At(WordsOf(mem[..]), old(rsp))
    {
      v := Load(mem, rsp, WORD);
      rsp := rsp + WORD;
    }

    /** The call of cpu_switch and its first half: the return address and six registers are pushed, and
        the stack pointer is saved. */
    method SaveContext(t: nat)
      requires t < th.Length && FRAME <= rsp <= mem.Length && Words64(Cpu())
      modifies this`rsp, mem, th
      ensures rsp == old(rsp) - FRAME
      ensures th[..] == old(th[..])[t := old(th[t]).(rsp := rsp)]
      ensures Framed(old(mem[..]), mem[..], old(rsp) - FRAME, old(Cpu()).(pc := AFTER_SWITCH))
    {
      hide WordsOf;
      ghost var m0, x := mem[..], rsp - FRAME;
      Push(AFTER_SWITCH, m0, x);
      Push(rbp, m0, x);
      Push(rbx, m0, x);
      Push(r12, m0, x);
      Push(r13, m0, x);
      Push(r14, m0, x);
      Push(r15, m0, x);
      th[t] := th[t].(rsp := rsp);
    }

    /** cpu_switch's second half: six pops and the return. */
    method LoadContext(sp: nat, ghost f: Frame)
      requires sp + FRAME <= mem.Length && FrameAt(WordsOf(mem[..]), sp, f)
      modifies this`rbp, this`rbx, this`r12, this`r13, this`r14, this`r15, this`rsp, this`pc
      ensures Cpu() == f
    {
      hide WordsOf;
      rsp := sp;
      r15 := Pop();
      r14 := Pop();
      r13 := Pop();
      r12 := Pop();
      rbx := Pop();
      rbp := Pop();
      pc := Pop();
    }

    // -------------------------------------------------------------- the operations

    /** thread_spawn */
    method Spawn(fn: nat)
      requires Valid()
      modifies this, heap, mem, th
      ensures Valid() && s == Step(old(s), Op.Spawn(fn)) && preemptDepth == old(preemptDepth)
    {
      hide WordsOf, Represents, MallocMem, Malloc, Put, Frames, Links;
      hide Good, Rep, Table, Inv, RingOk, SpawnStep, FirstUnused;
      ghost var s0, m0, th0 := s, mem[..], th[..];
      RepParts(m0, heap.freelist, heap.off, th0, s, boot);
      var t := AllocSlot();
      if fn == 0 || t == POOL {
        SpawnNothing(s, fn);
        return;
      }
      var kstack := heap.Kmalloc(STACK_SIZE);
      SlotFree(s, t);
      TableAt(th0, s, t);
      th[t] := th[t].(kstack := kstack);
      if kstack == 0 {
        GoodBounds(mem[..], heap.base, heap.freelist, heap.off, heap.a);
        SpawnFails(m0, s, fn);
        assert th[..] == th0;
        RepSame(m0, old(heap.freelist), old(heap.off), th0, s, boot, heap.freelist, heap.off);
        return;
      }
      ghost var b := Malloc(s.heap, Need(STACK_SIZE)).1.value;
      th[t] := th[t].(fn := fn, state := Runnable, aff := AFF_ANY, token := -1);
      GoodBounds(mem[..], heap.base, heap.freelist, heap.off, heap.a);
      SpawnShape(s, t, fn, b);
      SpawnedBlock(s, t, fn, b);
      SetupInitialStack(t);
      Enqueue(t);
      SpawnRep(m0, old(heap.freelist), old(heap.off), th0, s0, boot, t, fn, heap.freelist, heap.off, b, mem[..]);
      assert th[..] == SpawnTable(th0, t, fn, kstack);
      s := SpawnStep(s, fn);
    }

    /** The running thread computes: any registers, any bytes of its own stack. */
    method Work(cpu: Frame, lo: nat, bytes: seq<byte>)
      requires Valid() && Words64(cpu)
      requires current <= POOL && |s.tcb| == POOL + 1
      requires Lo(s, boot, current) <= lo && lo + |bytes| <= Hi(s, boot, current)
      modifies this, mem
      ensures Valid() && s == Step(old(s), Op.Work(cpu)) && preemptDepth == old(preemptDepth)
      ensures Cpu() == cpu && forall x :: 0 <= x < mem.Length ==>
        mem[x] == if lo <= x < lo + |bytes| then bytes[x - lo] else old(mem[x])
    {
      hide WordsOf, Represents, Frames, Links, Good, Rep, Table, Inv;
      ghost var m0, th0, s0 := mem[..], th[..], s;
      RepParts(m0, heap.freelist, heap.off, th0, s0, boot);
      StackOwned(m0, s, boot, current, -1);
      forall i | 0 <= i < |bytes| {
        mem[lo + i] := bytes[i];
      }
      assert th[..] == th0;
      WorkRep(m0, heap.freelist, heap.off, th0, s0, boot, mem[..], cpu);
      rbp, rbx, r12 := cpu.regs.rbp, cpu.regs.rbx, cpu.regs.r12;
      r13, r14, r15 := cpu.regs.r13, cpu.regs.r14, cpu.regs.r15;
      rsp, pc := cpu.sp, cpu.pc;
      s := Step(s, Op.Work(cpu));
    }

    /** thread_trampoline, after the thread's function returns. */
    method Exit()
      requires Valid()
      modifies this, th
      ensures Valid() && s == Step(old(s), Op.Exit) && preemptDepth == old(preemptDepth)
    {
      hide WordsOf, Represents, Good;
      if current != MAIN {
        StepInv(s, Op.Exit);
        ghost var th0 := th[..];
        assert current in s.ring;
        th[current] := th[current].(state := Zombie);
        SameLinks(th0, th[..], s.ring);
        ghost var s0 := s;
        s := Step(s, Op.Exit);
        forall t: nat | t <= POOL && t in s.saved
          ensures Suspended(WordsOf(mem[..]), th[..], s, boot, t)
        {
          assert s0.saved[t] == s.saved[t] && Suspended(WordsOf(mem[..]), th0, s0, boot, t);
        }
      }
    }

    /** thread_reap_yield_from */
    method ReapYieldFrom()
      requires Valid() && yieldFrom != current
      modifies this, heap, mem, th
      ensures Valid() && s == Reap(old(s)) && preemptDepth == old(preemptDepth)
    {
      hide WordsOf, Represents, FreeMem, Frames, Good, Rep, Table, Inv, RingOk, Links, Distinct, Free;
      ghost var s0, m0, th0 := s, mem[..], th[..];
      RepParts(m0, heap.freelist, heap.off, th0, s0, boot);
      var z := yieldFrom;
      yieldFrom := -1;
      if z < 0 || z >= MAIN {
        s := Reap(s);
        NothingReaped(m0, heap.freelist, heap.off, th0, s0, boot);
        return;
      }
      TableAt(th0, s0, z);
      if th[z].state != Zombie || th[z].kstack == 0 {
        if th[z].state == Zombie {
          ZombieFacts(m0, heap.freelist, heap.off, s0, z);
        }
        s := Reap(s);
        NothingReaped(m0, heap.freelist, heap.off, th0, s0, boot);
        return;
      }
      ZombieFacts(m0, heap.freelist, heap.off, s0, z);
      ReapZombie(z);
    }

    /** The part of thread_reap_yield_from that has a zombie to reap. */
    method ReapZombie(z: nat)
      requires WiredButYieldFrom() && Rep(mem[..], heap.freelist, heap.off, th[..], s, boot)
      requires s.from == z && z != s.cur && yieldFrom == -1 && Cpu() == s.cpu
      requires z < POOL && |s.tcb| == POOL + 1 && s.tcb[z].state == Zombie && s.tcb[z].stack.Some?
      modifies this`s, heap, mem, th
      ensures Valid() && s == Reap(old(s))
    {
      hide WordsOf, Represents, FreeMem, Frames, Good, Rep, Table, Inv, RingOk, Links, Distinct, Free, Reap;
      ghost var s0, m0, th0 := s, mem[..], th[..];
      RepParts(m0, heap.freelist, heap.off, th0, s0, boot);
      TableAt(th0, s0, z);
      ZombieFacts(m0, heap.freelist, heap.off, s0, z);
      var stk := th[z].kstack;
      Unlink(z);
      th[z] := th[z].(state := Unused);
      th[z] := th[z].(kstack := 0);
      ghost var k, b := IndexOf(s.ring, z), s.tcb[z].stack.value;
      ReapTableSame(th0, th[..], s.ring[k - 1], z);
      assert heap.a.Live(b) && stk == Payload(heap.base, heap.a, b);
      heap.Kfree(stk);
      ReapRep(m0, old(heap.freelist), old(heap.off), th0, s0, boot, z, b, k, heap.freelist, heap.off);
      ReapScalars(s0);
      s := Reap(s);
    }

    /** sched_yield, up to the instruction after the call of cpu_switch returns on the new thread's
        stack; a thread on its first run continues in thread_trampoline instead. */
    method SchedYield()
      requires Valid() && current <= POOL && |s.tcb| == POOL + 1 && Room()
      modifies this, heap, mem, th
      ensures Valid() && s == Step(old(s), Op.Yield(preemptDepth != 0)) && preemptDepth == old(preemptDepth)
    {
      hide WordsOf, Represents, Frames, Links, Good, Reap, Rep, Table, Inv, RingOk, Pick, Switch, Step, Eligible;
      YieldIs(s);
      if preemptDepth != 0 {
        return;
      }
      ghost var s0, th0 := s, th[..];
      RepParts(mem[..], heap.freelist, heap.off, th0, s0, boot);
      var prev := current;
      PickFacts(s);
      var next := PickNext(prev);
      if next == prev {
        assert th[..] == th0;
        return;
      }
      SwitchTo(prev, next, th0);
      if pc == AFTER_SWITCH {
        ReapYieldFrom();
      }
    }

    /** The part of sched_yield that leaves `prev` for `next`, which pick_next has claimed. */
    method SwitchTo(prev: nat, next: nat, ghost th0: seq<Thread>)
      requires Wired() && Cpu() == s.cpu && Rep(mem[..], heap.freelist, heap.off, th0, s, boot)
      requires current <= POOL && |s.tcb| == POOL + 1 && Room() && |th0| == POOL + 1
      requires prev == current && next != prev && next in s.ring && next <= POOL && Eligible(s.tcb, next)
      requires th[..] == th0[next := th0[next].(token := 0)] && next in s.saved
      modifies this, mem, th
      ensures Valid() && s == Switch(old(s), next) && preemptDepth == old(preemptDepth)
      ensures current == next && yieldFrom == prev && pc == old(s).saved[next].pc
    {
      hide WordsOf, Represents, Frames, Links, Good, Rep, Table, Inv, Switch;
      ghost var s0, m0 := s, mem[..];
      RepParts(m0, heap.freelist, heap.off, th0, s0, boot);
      TableAt(th0, s0, prev);
      if th[prev].state == Runnable && prev != next {
        th[prev] := th[prev].(token := -1);
      }
      current := next;
      yieldFrom := prev;
      StackOwned(m0, s0, boot, prev, -1);
      SaveContext(prev);
      assert Switched(th0, th[..], prev, next, s0.cpu.sp - FRAME);
      SwitchRep(m0, heap.freelist, heap.off, th0, s0, boot, mem[..], th[..], next);
      StackOwned(m0, s0, boot, next, -1);
      LoadContext(th[next].rsp, s.saved[next]);
      SwitchScalars(s, next);
      s := Switch(s, next);
    }
  }
}
