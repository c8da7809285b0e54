/** How the thread table, the links, the stacks' bytes and the CPU of kernel/thread_amd64.c represent
    a state of the abstract scheduler. */
module ThreadModel {
  import opened Wrappers
  import opened Bytes
  import opened HeapModel
  import opened HeapCode
  import opened Sched

  /** struct thread; `next` is a slot number, -1 for NULL; `kstack` is an address, 0 for NULL. */
  datatype Thread = Thread(rsp: nat, next: int, fn: nat, state: TState, kstack: nat, aff: nat, token: int)

  // ---------------------------------------------------------------- links

  /** The thread at position `i` of the ring points to the one after it, the last to the first. */
  predicate Link(th: seq<Thread>, ring: seq<nat>, i: nat)
    requires i < |ring|
  {
    ring[i] < |th| && th[ring[i]].next == if i + 1 < |ring| then ring[i + 1] else ring[0]
  }

  ghost predicate Links(th: seq<Thread>, ring: seq<nat>) {
    forall i: nat {:trigger Link(th, ring, i)} :: i < |ring| ==> Link(th, ring, i)
  }

  function SetNext(th: seq<Thread>, t: nat, n: int): (r: seq<Thread>)
    ensures |r| == |th|
  {
    if t < |th| then th[t := th[t].(next := n)] else th
  }

  /** enqueue_thread: `t` goes in right behind main_thread. */
  lemma EnqueueLinks(th: seq<Thread>, ring: seq<nat>, t: nat)
    requires Links(th, ring) && |ring| > 0 && ring[0] == MAIN && Distinct(ring)
    requires t < |th| && t !in ring && MAIN < |th|
    ensures Links(SetNext(SetNext(th, t, th[MAIN].next), MAIN, t), [MAIN, t] + ring[1..])
  {
    var th' := SetNext(SetNext(th, t, th[MAIN].next), MAIN, t);
    var r := [MAIN, t] + ring[1..];
    assert Link(th, ring, 0);
    forall i: nat | i < |r|
      ensures Link(th', r, i)
    {
      if i >= 2 {
        assert Link(th, ring, i - 1) && ring[i - 1] != ring[0] && r[i] == ring[i - 1];
      }
    }
  }

  /** unlink_thread: the predecessor skips `z`. */
  lemma UnlinkLinks(th: seq<Thread>, ring: seq<nat>, k: nat)
    requires Links(th, ring) && Distinct(ring) && 0 < k < |ring|
    ensures ring[k] < |th|
    ensures Links(SetNext(SetNext(th, ring[k - 1], th[ring[k]].next), ring[k], -1), ring[..k] + ring[k + 1..])
  {
    assert Link(th, ring, k) && Link(th, ring, k - 1);
    var th' := SetNext(SetNext(th, ring[k - 1], th[ring[k]].next), ring[k], -1);
    var r := ring[..k] + ring[k + 1..];
    forall i: nat | i < |r|
      ensures Link(th', r, i)
    {
      var j := if i < k then i else i + 1;
      assert Link(th, ring, j) && r[i] == ring[j] && ring[j] != ring[k];
      assert j != k - 1 ==> ring[j] != ring[k - 1];
      assert r[0] == ring[0];
    }
  }

  /** The links do not depend on the other fields. */
  lemma SameLinks(th: seq<Thread>, th': seq<Thread>, ring: seq<nat>)
    requires Links(th, ring) && |th'| == |th|
    requires forall t: nat {:trigger th'[t]} :: t < |th| ==> th'[t].next == th[t].next
    ensures Links(th', ring)
  {
    forall i: nat | i < |ring|
      ensures Link(th', ring, i)
    {
      assert Link(th, ring, i);
    }
  }

  // ---------------------------------------------------------------- control blocks

  function KStack(base: nat, heap: Alloc, stack: Option<nat>): nat {
    if stack.None? then 0 else Payload(base, heap, stack.value)
  }

  predicate Agrees(t: Thread, c: Tcb, base: nat, heap: Alloc) {
    && t.fn == c.fn && t.state == c.state && t.aff == c.aff && t.token == c.token
    && t.kstack == KStack(base, heap, c.stack)
  }

  ghost predicate Table(th: seq<Thread>, tcb: seq<Tcb>, base: nat, heap: Alloc) {
    && |th| == |tcb| == POOL + 1
    && forall t: nat {:trigger th[t]} {:trigger tcb[t]} :: t <= POOL ==> Agrees(th[t], tcb[t], base, heap)
  }

  // ---------------------------------------------------------------- stacks and frames

  const FRAME := 56   // six callee-saved registers and a return address

  /** Where the boot stack, on which main_thread runs, lies. */
  datatype BootStack = BootStack(lo: nat, hi: nat)

  function Lo(s: Sys, boot: BootStack, t: nat): nat
    requires t < |s.tcb|
  {
    if t == MAIN then boot.lo else KStack(s.base, s.heap, s.tcb[t].stack)
  }

  function Hi(s: Sys, boot: BootStack, t: nat): nat
    requires t < |s.tcb|
  {
    if t == MAIN then boot.hi else KStack(s.base, s.heap, s.tcb[t].stack) + STACK_SIZE
  }

  ghost predicate Layout(m: seq<byte>, base: nat, boot: BootStack) {
    Arena(m, base) && boot.lo <= boot.hi <= |m| && (boot.hi <= base || base + HEAP_SIZE <= boot.lo)
  }

  /** cpu_switch's frame at address `x`: what its six pops and its return will load. */
  predicate FrameAt(w: Words, x: nat, f: Frame) {
    && At(w, x) == f.regs.r15 && At(w, x + 8) == f.regs.r14 && At(w, x + 16) == f.regs.r13
    && At(w, x + 24) == f.regs.r12 && At(w, x + 32) == f.regs.rbx && At(w, x + 40) == f.regs.rbp
    && At(w, x + 48) == f.pc && f.sp == x + FRAME
  }

  predicate IsWord(v: nat) {
    v < U64_LIMIT
  }

  predicate Words64(f: Frame) {
    && IsWord(f.regs.rbp) && IsWord(f.regs.rbx) && IsWord(f.regs.r12) && IsWord(f.regs.r13)
    && IsWord(f.regs.r14) && IsWord(f.regs.r15) && IsWord(f.pc)
  }

  /** Thread `t` has its saved frame at its saved stack pointer, inside its own stack. */
  /** Where each register of a frame lies: in the order of cpu_switch's pushes, from the stack pointer up. */
  lemma FrameLayout(w: Words, x: nat, f: Frame)
    requires FrameAt(w, x, f)
    ensures At(w, x) == f.regs.r15 && At(w, x + 8) == f.regs.r14 && At(w, x + 16) == f.regs.r13
    ensures At(w, x + 24) == f.regs.r12 && At(w, x + 32) == f.regs.rbx && At(w, x + 40) == f.regs.rbp
    ensures At(w, x + 48) == f.pc && f.sp == x + 56
  {
  }

  ghost predicate Suspended(w: Words, th: seq<Thread>, s: Sys, boot: BootStack, t: nat)
    requires t < |th| && t < |s.tcb| && t in s.saved
  {
    && FrameAt(w, th[t].rsp, s.saved[t]) && Words64(s.saved[t])
    && Lo(s, boot, t) <= th[t].rsp && th[t].rsp + FRAME <= Hi(s, boot, t)
  }

  ghost predicate Frames(w: Words, th: seq<Thread>, s: Sys, boot: BootStack)
    requires |th| == |s.tcb| == POOL + 1
  {
    forall t: nat {:trigger s.saved[t]} :: t <= POOL && t in s.saved ==> Suspended(w, th, s, boot, t)
  }

  /** The stack of a slot in use is the payload of a live block of its own. */
  lemma StackBlock(s: Sys, t: nat)
    requires Inv(s) && t < POOL && s.tcb[t].state != Unused
    ensures s.tcb[t].stack.Some? && s.heap.Live(s.tcb[t].stack.value)
    ensures s.heap.Size(s.tcb[t].stack.value) == STACK_BLOCK
    ensures s.heap.Start(s.tcb[t].stack.value) + STACK_BLOCK <= HEAP_SIZE
  {
    var b := s.tcb[t].stack.value;
    assert s.heap.Live(b);
    Bounds(s.heap, b);
    assert s.heap.cuts[b] == STACK_BLOCK * b && s.heap.cuts[b + 1] == STACK_BLOCK * (b + 1);
  }

  /** The stacks of two threads in the ring do not meet. */
  lemma StacksApart(m: seq<byte>, s: Sys, boot: BootStack, t: nat, u: nat)
    requires Inv(s) && Layout(m, s.base, boot) && t in s.ring && u in s.ring && t != u
    ensures t < |s.tcb| && u < |s.tcb|
    ensures Hi(s, boot, t) <= Lo(s, boot, u) || Hi(s, boot, u) <= Lo(s, boot, t)
  {
    if t != MAIN {
      StackBlock(s, t);
    }
    if u != MAIN {
      StackBlock(s, u);
    }
    if t != MAIN && u != MAIN {
      assert s.tcb[t].stack.value != s.tcb[u].stack.value;
      Disjoint(s.heap, s.tcb[t].stack.value, s.tcb[u].stack.value);
    }
  }

  /** A stack lies in memory, and belongs to nobody but its thread as far as the heap can tell. */
  lemma StackOwned(m: seq<byte>, s: Sys, boot: BootStack, t: nat, but: int)
    requires Inv(s) && Layout(m, s.base, boot) && t in s.ring
    requires t < |s.tcb| && (but >= 0 ==> s.tcb[t].stack != Some(but))
    ensures Lo(s, boot, t) <= Hi(s, boot, t) <= |m|
    ensures Owned(s.base, s.heap, Lo(s, boot, t), Hi(s, boot, t), but)
  {
    if t != MAIN {
      StackBlock(s, t);
    }
  }

  /** Frames survive any change of memory that spares the stacks of the suspended threads. */
  lemma FramesKept(m: seq<byte>, m': seq<byte>, th: seq<Thread>, s: Sys, boot: BootStack)
    requires |th| == |s.tcb| == POOL + 1 && |m'| == |m|
    requires Frames(WordsOf(m), th, s, boot)
    requires forall t: nat {:trigger s.saved[t]} :: t <= POOL && t in s.saved ==>
               && Hi(s, boot, t) <= |m|
               && (Lo(s, boot, t) <= Hi(s, boot, t) ==>
                     m'[Lo(s, boot, t)..Hi(s, boot, t)] == m[Lo(s, boot, t)..Hi(s, boot, t)])
    ensures Frames(WordsOf(m'), th, s, boot)
  {
    forall t: nat | t <= POOL && t in s.saved
      ensures Suspended(WordsOf(m'), th, s, boot, t)
    {
      var f := s.saved[t];
      assert Suspended(WordsOf(m), th, s, boot, t);
      FrameKeptAt(m, m', th[t].rsp, f, Lo(s, boot, t), Hi(s, boot, t));
    }
  }

  lemma FrameKeptAt(m: seq<byte>, m': seq<byte>, x: nat, f: Frame, lo: nat, hi: nat)
    requires |m'| == |m| && lo <= x && x + FRAME <= hi <= |m| && m'[lo..hi] == m[lo..hi]
    requires FrameAt(WordsOf(m), x, f)
    ensures FrameAt(WordsOf(m'), x, f)
  {
    forall y: nat {:trigger At(WordsOf(m'), y)} | x <= y && y + WORD <= x + FRAME
      ensures At(WordsOf(m'), y) == At(WordsOf(m), y)
    {
      GetAgree(m, m', y, WORD, lo, hi);
    }
    hide WordsOf;
  }

  lemma FrameSpared(m: seq<byte>, m': seq<byte>, x: nat, f: Frame, lo: int, hi: int)
    requires SameOutside(m, m', lo, hi) && (x + FRAME <= lo || hi <= x)
    requires FrameAt(WordsOf(m), x, f)
    ensures FrameAt(WordsOf(m'), x, f)
  {
    WordsAgree(m, m', lo, hi);
    hide WordsOf, SameOutside;
  }

  // ---------------------------------------------------------------- writing a frame

  /** `m'` is `m` with the frame `f` written in the 56 bytes from `x`. */
  ghost predicate Framed(m: seq<byte>, m': seq<byte>, x: nat, f: Frame) {
    SameOutside(m, m', x, x + FRAME) && FrameAt(WordsOf(m'), x, f)
  }

  lemma PutSame(m: seq<byte>, x: nat, v: nat, lo: nat, hi: nat)
    requires lo <= x && x + WORD <= hi && x + WORD <= |m|
    ensures SameOutside(m, Put(m, x, WORD, v), lo, hi)
  {
  }

  // ---------------------------------------------------------------- representation, step by step

  /** Memory, the allocator's two variables, the thread table and the CPU encode `s`. */
  ghost predicate Rep(m: seq<byte>, fl: nat, off: nat, th: seq<Thread>, s: Sys, boot: BootStack) {
    && Inv(s) && Layout(m, s.base, boot)
    && Good(m, s.base, fl, off, s.heap)
    && Table(th, s.tcb, s.base, s.heap)
    && Links(th, s.ring)
    && Frames(WordsOf(m), th, s, boot)
    && Words64(s.cpu)
  }

  /** The parts of a representation. */
  lemma RepParts(m: seq<byte>, fl: nat, off: nat, th: seq<Thread>, s: Sys, boot: BootStack)
    requires Rep(m, fl, off, th, s, boot)
    ensures Inv(s) && RingOk(s) && Layout(m, s.base, boot) && Good(m, s.base, fl, off, s.heap)
    ensures Table(th, s.tcb, s.base, s.heap) && Links(th, s.ring) && Words64(s.cpu)
    ensures Frames(WordsOf(m), th, s, boot)
    ensures |s.tcb| == |th| == POOL + 1 && s.cur <= POOL && s.cur in s.ring
    ensures |s.ring| > 0 && s.ring[0] == MAIN && Distinct(s.ring)
  {
  }

  lemma RepOf(m: seq<byte>, fl: nat, off: nat, th: seq<Thread>, s: Sys, boot: BootStack)
    requires Inv(s) && Layout(m, s.base, boot) && Good(m, s.base, fl, off, s.heap)
    requires Table(th, s.tcb, s.base, s.heap) && Links(th, s.ring) && Words64(s.cpu)
    requires Frames(WordsOf(m), th, s, boot)
    ensures Rep(m, fl, off, th, s, boot)
  {
  }

  /** Whatever a thread writes in its own stack leaves the heap as it was. */
  lemma StackWriteGood(m: seq<byte>, m': seq<byte>, fl: nat, off: nat, s: Sys, boot: BootStack, t: nat)
    requires Inv(s) && Layout(m, s.base, boot) && Good(m, s.base, fl, off, s.heap) && t in s.ring && t < |s.tcb|
    requires SameOutside(m, m', Lo(s, boot, t), Hi(s, boot, t))
    ensures Good(m', s.base, fl, off, s.heap)
  {
    hide WordsOf;
    if t == MAIN {
      WordsAgree(m, m', boot.lo, boot.hi);
      OutsideRepresents(WordsOf(m), WordsOf(m'), s.base, s.heap, boot.lo, boot.hi);
    } else {
      StackBlock(s, t);
      PayloadRepresents(m, m', s.base, s.heap, s.tcb[t].stack.value);
    }
  }

  lemma OutsideRepresents(w: Words, w': Words, base: nat, a: Alloc, lo: nat, hi: nat)
    requires a.Wf() && Represents(w, base, a) && (hi <= base || base + HEAP_SIZE <= lo)
    requires forall y: int {:trigger At(w', y)} :: y + WORD <= lo || hi <= y ==> At(w', y) == At(w, y)
    ensures Represents(w', base, a)
  {
    forall b: nat | a.IsBlock(b)
      ensures At(w', base + a.Start(b)) == a.Size(b)
    {
      Bounds(a, b);
    }
    forall k: nat | k < |a.free|
      ensures Linked(w', base, a, k)
    {
      Bounds(a, a.free[k]);
      assert Linked(w, base, a, k);
    }
  }

  /** ... and every other thread's frame. */
  lemma StackWriteFrames(m: seq<byte>, m': seq<byte>, th: seq<Thread>, s: Sys, boot: BootStack)
    requires Inv(s) && Layout(m, s.base, boot) && |th| == POOL + 1 && s.cur < |s.tcb|
    requires SameOutside(m, m', Lo(s, boot, s.cur), Hi(s, boot, s.cur))
    requires Frames(WordsOf(m), th, s, boot)
    ensures Frames(WordsOf(m'), th, s, boot)
  {
    hide WordsOf, Frames;
    forall t: nat | t <= POOL && t in s.saved
      ensures Hi(s, boot, t) <= |m|
      ensures Lo(s, boot, t) <= Hi(s, boot, t) ==>
        m'[Lo(s, boot, t)..Hi(s, boot, t)] == m[Lo(s, boot, t)..Hi(s, boot, t)]
    {
      StackOwned(m, s, boot, t, -1);
      StacksApart(m, s, boot, t, s.cur);
    }
    FramesKept(m, m', th, s, boot);
  }

  /** A running thread that writes only in its own stack. */
  lemma WorkRep(m: seq<byte>, fl: nat, off: nat, th: seq<Thread>, s: Sys, boot: BootStack, m': seq<byte>, cpu: Frame)
    requires Rep(m, fl, off, th, s, boot) && Words64(cpu)
    requires s.cur < |s.tcb| && SameOutside(m, m', Lo(s, boot, s.cur), Hi(s, boot, s.cur))
    ensures Rep(m', fl, off, th, Step(s, Work(cpu)), boot)
  {
    var s' := Step(s, Work(cpu));
    StepInv(s, Work(cpu));
    StackWriteGood(m, m', fl, off, s, boot, s.cur);
    StackWriteFrames(m, m', th, s, boot);
    hide WordsOf, Represents, Good, Inv;
    forall t: nat | t <= POOL && t in s'.saved
      ensures Suspended(WordsOf(m'), th, s', boot, t)
    {
      assert s.saved[t] == s'.saved[t] && Suspended(WordsOf(m'), th, s, boot, t);
    }
  }

  /** The table after the token passes from `prev` to `next` and cpu_switch saves the stack pointer. */
  predicate Switched(th: seq<Thread>, th': seq<Thread>, prev: nat, next: nat, rsp: nat) {
    && |th'| == |th| && prev < |th| && next < |th| && prev != next
    && th' == th[next := th[next].(token := 0)]
               [prev := th[prev].(rsp := rsp, token := if th[prev].state == Runnable then -1 else th[prev].token)]
  }

  /** cpu_switch, on the way out: the old thread's frame is on its own stack, and the new thread's is
      where it was. */
  lemma SwitchRep(m: seq<byte>, fl: nat, off: nat, th: seq<Thread>, s: Sys, boot: BootStack,
                  m': seq<byte>, th': seq<Thread>, next: nat)
    requires Rep(m, fl, off, th, s, boot)
    requires next != s.cur && next in s.ring && Eligible(s.tcb, next) && s.cur < |s.tcb|
    requires Lo(s, boot, s.cur) + FRAME <= s.cpu.sp <= Hi(s, boot, s.cur)
    requires Framed(m, m', s.cpu.sp - FRAME, s.cpu.(pc := AFTER_SWITCH))
    requires Switched(th, th', s.cur, next, s.cpu.sp - FRAME)
    ensures next in s.saved && Suspended(WordsOf(m'), th, s, boot, next)
    ensures Rep(m', fl, off, th', Switch(s, next), boot)
  {
    hide WordsOf, Represents, Good, Table, Links, Frames, Rep, Switch;
    hide Inv, Layout, Framed, Switched, Eligible, Words64, Lo, Hi;
    RepParts(m, fl, off, th, s, boot);
    SwitchShape(s, next);
    var s' := Switch(s, next);
    SwitchInv(s, next);
    FrameOnStack(m, m', s, boot);
    StackWriteGood(m, m', fl, off, s, boot, s.cur);
    StackWriteFrames(m, m', th, s, boot);
    SwitchTable(th, s, th', next, s.cpu.sp - FRAME);
    FrameOf(WordsOf(m'), th, s, boot, next);
    SwitchFrames(WordsOf(m'), th, s, boot, th', next);
    LayoutKept(m, m', s.base, boot);
    RepOf(m', fl, off, th', s', boot);
  }

  lemma SwitchShape(s: Sys, next: nat)
    requires Inv(s) && next != s.cur && next in s.ring && Eligible(s.tcb, next)
    ensures next in s.saved && next <= POOL && s.cur !in s.saved && |s.tcb| == POOL + 1 && s.cur < |s.tcb|
    ensures var s' := Switch(s, next);
      && s'.ring == s.ring && s'.base == s.base && s'.heap == s.heap && |s'.tcb| == |s.tcb|
      && s'.cpu == s.saved[next]
  {
  }

  /** The frame that cpu_switch pushes lies on the running thread's stack. */
  lemma FrameOnStack(m: seq<byte>, m': seq<byte>, s: Sys, boot: BootStack)
    requires s.cur < |s.tcb| && Lo(s, boot, s.cur) + FRAME <= s.cpu.sp <= Hi(s, boot, s.cur)
    requires Framed(m, m', s.cpu.sp - FRAME, s.cpu.(pc := AFTER_SWITCH))
    ensures SameOutside(m, m', Lo(s, boot, s.cur), Hi(s, boot, s.cur)) && |m'| == |m|
    ensures FrameAt(WordsOf(m'), s.cpu.sp - FRAME, s.cpu.(pc := AFTER_SWITCH))
  {
    hide FrameAt;
  }

  lemma FrameOf(w: Words, th: seq<Thread>, s: Sys, boot: BootStack, t: nat)
    requires |th| == |s.tcb| == POOL + 1 && Frames(w, th, s, boot) && t <= POOL && t in s.saved
    ensures Suspended(w, th, s, boot, t) && Words64(s.saved[t])
  {
    assert s.saved[t] == s.saved[t];
  }

  lemma SwitchTable(th: seq<Thread>, s: Sys, th': seq<Thread>, next: nat, rsp: nat)
    requires Table(th, s.tcb, s.base, s.heap) && Links(th, s.ring) && next in s.saved && next < |s.tcb|
    requires s.cur < |s.tcb| && Switched(th, th', s.cur, next, rsp)
    ensures Table(th', Switch(s, next).tcb, s.base, s.heap) && Links(th', s.ring)
  {
    SameLinks(th, th', s.ring);
  }

  lemma SwitchFrames(w: Words, th: seq<Thread>, s: Sys, boot: BootStack, th': seq<Thread>, next: nat)
    requires |th| == |s.tcb| == POOL + 1 && next in s.saved && next < |s.tcb| && s.cur < |s.tcb|
    requires Frames(w, th, s, boot) && s.cpu.sp >= FRAME && s.cur !in s.saved
    requires Switched(th, th', s.cur, next, s.cpu.sp - FRAME)
    requires Lo(s, boot, s.cur) + FRAME <= s.cpu.sp <= Hi(s, boot, s.cur)
    requires FrameAt(w, s.cpu.sp - FRAME, s.cpu.(pc := AFTER_SWITCH)) && Words64(s.cpu)
    ensures Frames(w, th', Switch(s, next), boot)
  {
    var s' := Switch(s, next);
    forall t: nat | t <= POOL && t in s'.saved
      ensures Suspended(w, th', s', boot, t)
    {
      assert s'.tcb[t].stack == s.tcb[t].stack;
      if t != s.cur {
        assert s.saved[t] == s'.saved[t] && Suspended(w, th, s, boot, t);
      }
    }
  }

  /** A block's address does not move when the arena grows. */
  lemma SameStacks(s: Sys, heap: Alloc, t: nat)
    requires Inv(s) && s.heap.cuts <= heap.cuts && t <= POOL
    ensures KStack(s.base, heap, s.tcb[t].stack) == KStack(s.base, s.heap, s.tcb[t].stack)
  {
    if t < POOL && s.tcb[t].stack.Some? {
      assert s.heap.Live(s.tcb[t].stack.value);
    }
  }

  /** kmalloc spares every suspended thread's frame. */
  lemma MallocFrames(m: seq<byte>, th: seq<Thread>, s: Sys, boot: BootStack, need: nat)
    requires Inv(s) && Layout(m, s.base, boot) && |th| == POOL + 1 && need >= 32
    requires Frames(WordsOf(m), th, s, boot)
    ensures Frames(WordsOf(MallocMem(m, s.base, s.heap, need)), th, s, boot)
  {
    hide WordsOf, MallocMem, Frames, Owned;
    var m' := MallocMem(m, s.base, s.heap, need);
    forall t: nat | t <= POOL && t in s.saved
      ensures Lo(s, boot, t) <= Hi(s, boot, t) <= |m|
      ensures m'[Lo(s, boot, t)..Hi(s, boot, t)] == m[Lo(s, boot, t)..Hi(s, boot, t)]
    {
      StackOwned(m, s, boot, t, -1);
      MallocFrame(m, s.base, s.heap, need, Lo(s, boot, t), Hi(s, boot, t));
    }
    FramesKept(m, m', th, s, boot);
  }

  /** kfree of one thread's stack spares the others' frames. */
  lemma FreeFrames(m: seq<byte>, th: seq<Thread>, s: Sys, boot: BootStack, z: nat, b: nat)
    requires Inv(s) && Layout(m, s.base, boot) && |th| == POOL + 1
    requires z < POOL && s.tcb[z].stack == Some(b) && s.heap.Live(b)
    requires Frames(WordsOf(m), th, s, boot)
    ensures Frames(WordsOf(FreeMem(m, s.base, s.heap, b)), th, s.(saved := s.saved - {z}), boot)
  {
    hide WordsOf, FreeMem, Frames, Owned;
    var m', s1 := FreeMem(m, s.base, s.heap, b), s.(saved := s.saved - {z});
    forall t: nat | t <= POOL && t in s1.saved
      ensures Lo(s, boot, t) <= Hi(s, boot, t) <= |m|
      ensures m'[Lo(s, boot, t)..Hi(s, boot, t)] == m[Lo(s, boot, t)..Hi(s, boot, t)]
    {
      assert t in s.saved && t != z;
      assert t < POOL && s.tcb[t].stack.Some? ==> s.tcb[t].stack.value != s.tcb[z].stack.value;
      StackOwned(m, s, boot, t, b);
      FreeFrame(m, s.base, s.heap, b, Lo(s, boot, t), Hi(s, boot, t));
    }
    FewerFrames(WordsOf(m), th, s, boot, s1);
    FramesKept(m, m', th, s1, boot);
  }

  lemma FewerFrames(w: Words, th: seq<Thread>, s: Sys, boot: BootStack, s1: Sys)
    requires |th| == |s.tcb| == POOL + 1 && Frames(w, th, s, boot)
    requires exists z :: s1 == s.(saved := s.saved - {z})
    ensures Frames(w, th, s1, boot)
  {
    forall t: nat | t <= POOL && t in s1.saved
      ensures Suspended(w, th, s1, boot, t)
    {
      assert s.saved[t] == s1.saved[t] && Suspended(w, th, s, boot, t);
    }
  }

  /** The table after thread_spawn fills slot `t` and links it in. */
  function SpawnTable(th: seq<Thread>, t: nat, fn: nat, kstack: nat): seq<Thread>
    requires t < POOL < |th|
  {
    var rsp := if kstack + STACK_SIZE >= FRAME then kstack + STACK_SIZE - FRAME else 0;
    SetNext(th[t := Thread(rsp, th[MAIN].next, fn, Runnable, kstack, AFF_ANY, -1)], MAIN, t)
  }

  lemma SpawnTableOk(th: seq<Thread>, s: Sys, t: nat, fn: nat, heap: Alloc, b: nat)
    requires Inv(s) && Table(th, s.tcb, s.base, s.heap) && Links(th, s.ring)
    requires t < POOL && s.tcb[t].state == Unused && s.heap.cuts <= heap.cuts
    ensures
      var th' := SpawnTable(th, t, fn, Payload(s.base, heap, b));
      && Table(th', s.tcb[t := Tcb(fn, Runnable, Some(b), AFF_ANY, -1)], s.base, heap)
      && Links(th', [MAIN, t] + s.ring[1..])
  {
    var kstack := Payload(s.base, heap, b);
    var th' := SpawnTable(th, t, fn, kstack);
    var th1 := th[t := Thread(th'[t].rsp, th[t].next, fn, Runnable, kstack, AFF_ANY, -1)];
    assert t !in s.ring;
    SameLinks(th, th1, s.ring);
    EnqueueLinks(th1, s.ring, t);
    assert th' == SetNext(SetNext(th1, t, th1[MAIN].next), MAIN, t);
    forall u: nat | u <= POOL
      ensures Agrees(th'[u], if u == t then Tcb(fn, Runnable, Some(b), AFF_ANY, -1) else s.tcb[u], s.base, heap)
    {
      SameStacks(s, heap, u);
      assert Agrees(th[u], s.tcb[u], s.base, s.heap);
    }
  }

  /** thread_spawn: `m1` is memory after kmalloc, `m2` after setup_initial_stack. */
  lemma SpawnRep(m: seq<byte>, fl: nat, off: nat, th: seq<Thread>, s: Sys, boot: BootStack, t: nat, fn: nat,
                 fl': nat, off': nat, b: nat, m2: seq<byte>)
    requires Rep(m, fl, off, th, s, boot) && fn != 0 && t == FirstUnused(s.tcb) < POOL
    requires Malloc(s.heap, Need(STACK_SIZE)).1 == Some(b)
    requires
      var heap, m1 := Malloc(s.heap, Need(STACK_SIZE)).0, MallocMem(m, s.base, s.heap, Need(STACK_SIZE));
      && Good(m1, s.base, fl', off', heap)
      && Framed(m1, m2, Payload(s.base, heap, b) + STACK_SIZE - FRAME,
                Frame(ZERO_REGS, StackTop(s.base, heap, b), TRAMPOLINE))
    ensures
      var heap := Malloc(s.heap, Need(STACK_SIZE)).0;
      Rep(m2, fl', off', SpawnTable(th, t, fn, Payload(s.base, heap, b)), SpawnStep(s, fn), boot)
  {
    hide MallocMem, Malloc, Rep, SpawnStep, Good, Framed;
    RepParts(m, fl, off, th, s, boot);
    var heap, m1 := Malloc(s.heap, Need(STACK_SIZE)).0, MallocMem(m, s.base, s.heap, Need(STACK_SIZE));
    SpawnedRep(m, fl, off, th, s, boot, t, fn, fl', off', b, m2, heap, m1, SpawnStep(s, fn));
  }

  lemma SpawnedRep(m: seq<byte>, fl: nat, off: nat, th: seq<Thread>, s: Sys, boot: BootStack, t: nat, fn: nat,
                   fl': nat, off': nat, b: nat, m2: seq<byte>, heap: Alloc, m1: seq<byte>, s': Sys)
    requires Rep(m, fl, off, th, s, boot) && fn != 0 && t == FirstUnused(s.tcb) < POOL && s' == SpawnStep(s, fn)
    requires Malloc(s.heap, Need(STACK_SIZE)) == (heap, Some(b))
    requires m1 == MallocMem(m, s.base, s.heap, Need(STACK_SIZE)) && Good(m1, s.base, fl', off', heap)
    requires Framed(m1, m2, Payload(s.base, heap, b) + STACK_SIZE - FRAME,
                    Frame(ZERO_REGS, StackTop(s.base, heap, b), TRAMPOLINE))
    ensures Rep(m2, fl', off', SpawnTable(th, t, fn, Payload(s.base, heap, b)), s', boot)
  {
    hide WordsOf, Represents, MallocMem, Malloc, Table, Links, Frames, SpawnStep, Good, Inv, Framed, SpawnTable, Rep;
    hide Layout, Words64, FirstUnused, Payload, StackTop;
    RepParts(m, fl, off, th, s, boot);
    SlotUnused(s, t);
    LayoutKept(m, m1, s.base, boot);
    SpawnShape(s, t, fn, b);
    SpawnTableOk(th, s, t, fn, heap, b);
    MallocFrames(m, th, s, boot, Need(STACK_SIZE));
    SpawnStacks(m1, m2, fl', off', th, s, boot, t, fn, b, s');
    RepOf(m2, fl', off', SpawnTable(th, t, fn, Payload(s.base, heap, b)), s', boot);
  }

  lemma SlotUnused(s: Sys, t: nat)
    requires |s.tcb| == POOL + 1 && t == FirstUnused(s.tcb) < POOL
    ensures s.tcb[t].state == Unused
  {
  }

  lemma LayoutKept(m: seq<byte>, m': seq<byte>, base: nat, boot: BootStack)
    requires Layout(m, base, boot) && |m'| == |m|
    ensures Layout(m', base, boot)
  {
  }

  /** The new thread's first frame spoils neither the heap nor another thread's frame. */
  lemma SpawnStacks(m1: seq<byte>, m2: seq<byte>, fl': nat, off': nat, th: seq<Thread>, s: Sys, boot: BootStack,
                    t: nat, fn: nat, b: nat, s': Sys)
    requires Inv(s) && Inv(s') && Layout(m1, s.base, boot) && |th| == |s.tcb| == POOL + 1 && t < POOL
    requires Frames(WordsOf(m1), th, s, boot) && Good(m1, s.base, fl', off', s'.heap)
    requires s'.base == s.base && s.heap.cuts <= s'.heap.cuts && s'.cur == s.cur
    requires s'.tcb == s.tcb[t := Tcb(fn, Runnable, Some(b), AFF_ANY, -1)] && t in s'.ring && t !in s.ring
    requires s'.saved == s.saved[t := Frame(ZERO_REGS, StackTop(s.base, s'.heap, b), TRAMPOLINE)]
    requires Framed(m1, m2, Payload(s.base, s'.heap, b) + STACK_SIZE - FRAME, s'.saved[t])
    ensures Layout(m2, s.base, boot) && Good(m2, s.base, fl', off', s'.heap)
    ensures Frames(WordsOf(m2), SpawnTable(th, t, fn, Payload(s.base, s'.heap, b)), s', boot)
  {
    hide WordsOf, Represents, Frames, Good, Inv, SameOutside, FrameAt, SpawnTable;
    assert |m2| == |m1| by { SameLength(m1, m2, Payload(s.base, s'.heap, b) + STACK_SIZE - FRAME, s'.saved[t]); }
    OnStack(m1, m2, s', boot, t, b, s'.saved[t]);
    StackWriteGood(m1, m2, fl', off', s', boot, t);
    SpawnFrames(m1, m2, th, s, boot, t, fn, b, s');
  }

  lemma SameLength(m1: seq<byte>, m2: seq<byte>, x: nat, f: Frame)
    requires Framed(m1, m2, x, f)
    ensures |m2| == |m1|
  {
  }

  /** A frame at the top of a thread's stack lies in it. */
  lemma OnStack(m1: seq<byte>, m2: seq<byte>, s: Sys, boot: BootStack, t: nat, b: nat, f: Frame)
    requires t < POOL < |s.tcb| && s.tcb[t].stack == Some(b)
    requires Framed(m1, m2, Payload(s.base, s.heap, b) + STACK_SIZE - FRAME, f)
    ensures SameOutside(m1, m2, Lo(s, boot, t), Hi(s, boot, t))
  {
  }

  lemma SpawnShape(s: Sys, t: nat, fn: nat, b: nat)
    requires Inv(s) && fn != 0 && t == FirstUnused(s.tcb) < POOL
    requires Malloc(s.heap, Need(STACK_SIZE)).1 == Some(b)
    ensures
      var heap, s' := Malloc(s.heap, Need(STACK_SIZE)).0, SpawnStep(s, fn);
      && Inv(s') && s.heap.cuts <= heap.cuts && t !in s.ring && t in s'.ring
      && s'.ring == [MAIN, t] + s.ring[1..] && s'.heap == heap
      && s'.base == s.base && s'.cur == s.cur && s'.cpu == s.cpu && s'.from == s.from
      && s'.tcb == s.tcb[t := Tcb(fn, Runnable, Some(b), AFF_ANY, -1)]
      && s'.saved == s.saved[t := Frame(ZERO_REGS, StackTop(s.base, heap, b), TRAMPOLINE)]
  {
    SpawnInv(s, fn);
    MallocOk(s.heap, Need(STACK_SIZE));
    assert SpawnStep(s, fn).ring[1] == t;
  }

  lemma SpawnFrames(m1: seq<byte>, m2: seq<byte>, th: seq<Thread>, s: Sys, boot: BootStack,
                    t: nat, fn: nat, b: nat, s': Sys)
    requires Inv(s) && Inv(s') && Layout(m1, s.base, boot) && |th| == POOL + 1 && t < POOL
    requires Frames(WordsOf(m1), th, s, boot)
    requires s'.base == s.base && s.heap.cuts <= s'.heap.cuts && s'.cur == s.cur
    requires s'.tcb == s.tcb[t := Tcb(fn, Runnable, Some(b), AFF_ANY, -1)] && t in s'.ring && t !in s.ring
    requires s'.saved == s.saved[t := Frame(ZERO_REGS, StackTop(s.base, s'.heap, b), TRAMPOLINE)]
    requires Framed(m1, m2, Payload(s.base, s'.heap, b) + STACK_SIZE - FRAME, s'.saved[t])
    ensures Frames(WordsOf(m2), SpawnTable(th, t, fn, Payload(s.base, s'.heap, b)), s', boot)
  {
    hide WordsOf;
    var th' := SpawnTable(th, t, fn, Payload(s.base, s'.heap, b));
    forall u: nat | u <= POOL && u in s'.saved
      ensures Suspended(WordsOf(m2), th', s', boot, u)
    {
      if u != t {
        SpawnFrame(m1, m2, th, s, boot, t, fn, b, s', u);
      }
    }
  }

  lemma SpawnFrame(m1: seq<byte>, m2: seq<byte>, th: seq<Thread>, s: Sys, boot: BootStack,
                   t: nat, fn: nat, b: nat, s': Sys, u: nat)
    requires Inv(s) && Inv(s') && Layout(m1, s.base, boot) && |th| == POOL + 1 && t < POOL
    requires Frames(WordsOf(m1), th, s, boot)
    requires s'.base == s.base && s.heap.cuts <= s'.heap.cuts
    requires s'.tcb == s.tcb[t := Tcb(fn, Runnable, Some(b), AFF_ANY, -1)] && t in s'.ring
    requires u <= POOL && u != t && u in s.saved && u in s'.saved && s'.saved[u] == s.saved[u]
    requires SameOutside(m1, m2, Lo(s', boot, t), Hi(s', boot, t))
    ensures Suspended(WordsOf(m2), SpawnTable(th, t, fn, Payload(s.base, s'.heap, b)), s', boot, u)
  {
    assert Suspended(WordsOf(m1), th, s, boot, u) by { assert s.saved[u] == s.saved[u]; }
    SameStacks(s, s'.heap, u);
    StacksApart(m1, s', boot, u, t);
    hide WordsOf, Inv, SameOutside, FrameAt;
    FrameSpared(m1, m2, th[u].rsp, s.saved[u], Lo(s', boot, t), Hi(s', boot, t));
  }

  /** The table after thread_reap_yield_from unlinks `z`, whose predecessor is `p`, and clears it. */
  function ReapTable(th: seq<Thread>, p: nat, z: nat): seq<Thread>
    requires p < |th| && z < |th|
  {
    var th1 := SetNext(SetNext(th, p, th[z].next), z, -1);
    th1[z := th1[z].(state := Unused, kstack := 0)]
  }

  lemma ReapTableOk(th: seq<Thread>, s: Sys, k: nat)
    requires Inv(s) && Table(th, s.tcb, s.base, s.heap) && Links(th, s.ring) && 0 < k < |s.ring|
    ensures s.ring[k] < POOL && s.ring[k - 1] <= POOL
    ensures
      var z, th' := s.ring[k], ReapTable(th, s.ring[k - 1], s.ring[k]);
      && Links(th', s.ring[..k] + s.ring[k + 1..])
      && var tcb := s.tcb[z := s.tcb[z].(state := Unused, stack := None)];
         forall heap: Alloc {:trigger Table(th', tcb, s.base, heap)} ::
           heap.cuts == s.heap.cuts ==> Table(th', tcb, s.base, heap)
  {
    var z, p := s.ring[k], s.ring[k - 1];
    assert z in s.ring && p in s.ring && z != s.ring[0];
    UnlinkLinks(th, s.ring, k);
    var th1 := SetNext(SetNext(th, p, th[z].next), z, -1);
    SameLinks(th1, ReapTable(th, p, z), s.ring[..k] + s.ring[k + 1..]);
  }

  /** thread_reap_yield_from, when it has something to reap. */
  lemma ReapRep(m: seq<byte>, fl: nat, off: nat, th: seq<Thread>, s: Sys, boot: BootStack,
                z: nat, b: nat, k: nat, fl': nat, off': nat)
    requires Rep(m, fl, off, th, s, boot) && s.from == z && z != s.cur && z < POOL
    requires s.tcb[z].state == Zombie && s.tcb[z].stack == Some(b)
    requires z in s.ring && k == IndexOf(s.ring, z)
    requires Good(FreeMem(m, s.base, s.heap, b), s.base, fl', off', Free(s.heap, b))
    ensures 0 < k < |s.ring| && s.ring[k - 1] < |th|
    ensures Rep(FreeMem(m, s.base, s.heap, b), fl', off', ReapTable(th, s.ring[k - 1], z), Reap(s), boot)
  {
    hide WordsOf, Represents, Table, Links, FreeMem, Inv, Reap, Frames, Good, Rep, Layout, Free, ReapTable, Words64;
    var m', s' := FreeMem(m, s.base, s.heap, b), Reap(s);
    RepParts(m, fl, off, th, s, boot);
    ReapInv(s);
    ReapShape(s, z, b, k);
    ReapTableOk(th, s, k);
    FreeFrames(m, th, s, boot, z, b);
    ReapFrames(WordsOf(m'), th, s, boot, s.ring[k - 1], z, s');
    LayoutKept(m, m', s.base, boot);
    RepOf(m', fl', off', ReapTable(th, s.ring[k - 1], z), s', boot);
  }

  lemma ReapShape(s: Sys, z: nat, b: nat, k: nat)
    requires Inv(s) && s.from == z && z != s.cur && z < POOL
    requires s.tcb[z].state == Zombie && s.tcb[z].stack == Some(b) && z in s.ring && k == IndexOf(s.ring, z)
    ensures 0 < k < |s.ring| && s.ring[k] == z && s.heap.Live(b)
    ensures var s' := Reap(s);
      && s'.ring == s.ring[..k] + s.ring[k + 1..] && s'.base == s.base && s'.cpu == s.cpu && s'.saved == s.saved - {z}
      && s'.heap == Free(s.heap, b) && s'.heap.cuts == s.heap.cuts
      && s'.tcb == s.tcb[z := s.tcb[z].(state := Unused, stack := None)]
  {
    assert s.ring[0] != z;
    assert s.heap.Live(s.tcb[z].stack.value);
    hide Inv;
  }

  lemma ReapFrames(w: Words, th: seq<Thread>, s: Sys, boot: BootStack, p: nat, z: nat, s': Sys)
    requires |th| == |s.tcb| == |s'.tcb| == POOL + 1 && z < POOL && p <= POOL
    requires Frames(w, th, s.(saved := s.saved - {z}), boot)
    requires s'.saved == s.saved - {z} && s'.base == s.base && s'.heap.cuts == s.heap.cuts
    requires s'.tcb == s.tcb[z := s.tcb[z].(state := Unused, stack := None)]
    ensures Frames(w, ReapTable(th, p, z), s', boot)
  {
    var s1 := s.(saved := s.saved - {z});
    forall t: nat | t <= POOL && t in s'.saved
      ensures Suspended(w, ReapTable(th, p, z), s', boot, t)
    {
      assert s1.saved[t] == s'.saved[t] && Suspended(w, th, s1, boot, t);
    }
  }
}
