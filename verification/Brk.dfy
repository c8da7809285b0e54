/** kernel/proc.c: the program break, on top of page tables and the frame allocator. */
module Brk {
  import opened Wrappers
  import Pmm
  import opened PageTables

  const HEAP_BASE := 0x8000_2000
  const HEAP_CAP := 0x8040_0000
  const RWU := 7                 // present, writable, user
  const ENOMEM := -12
  const EINVAL := -22

  /** `pd` is g_cur.pd_phys, 0 when the clone failed. */
  datatype Proc = Proc(s: Spaces, pd: nat, brk: nat)

  /** sys_brk's loop: one frame and one leaf entry a page; on failure the frame in hand goes back, the
      pages already mapped stay. */
  function Grow(s: Spaces, d: nat, v: nat, end: nat): (Spaces, bool)
    decreases if v < end then end - v else 0
  {
    if v >= end then (s, true) else
    var (frames, a) := Pmm.Alloc(s.frames);
    if a == 0 then (s.(frames := frames), false) else
    var (s', ok) := MapPage(s.(frames := frames), d, v, a, RWU);
    if !ok then (s'.(frames := Pmm.Release(s'.frames, a)), false)
    else Grow(s', d, v + 1, end)
  }

  /** A 32-bit value returned as int32_t. */
  function AsInt32(x: nat): int {
    if x < 0x8000_0000 then x else x - 0x1_0000_0000
  }

  function SysBrk(p: Proc, addr: nat): (Proc, int) {
    if p.pd == 0 then (p, ENOMEM)
    else if addr == 0 then (p, AsInt32(p.brk))
    else if addr % PAGE != 0 then (p, EINVAL)
    else if addr < HEAP_BASE || addr >= HEAP_CAP then (p, EINVAL)
    else if addr < p.brk then (p, EINVAL)
    else if addr == p.brk then (p, AsInt32(p.brk))
    else
      var (s', ok) := Grow(p.s, p.pd / PAGE, p.brk / PAGE, addr / PAGE);
      if ok then (p.(s := s', brk := addr), AsInt32(addr)) else (p.(s := s'), ENOMEM)
  }

  function ResetBrk(p: Proc): Proc {
    p.(brk := HEAP_BASE)
  }

  // ---------------------------------------------------------------- the pages below the break

  /** Page `v` has a present, writable, user leaf entry. */
  predicate Mapped(s: Spaces, d: nat, v: nat) {
    var e := Fetch(s.m, d, v);
    e.Some? && Present(e.value) && Writable(e.value) && User(e.value)
  }

  function FrameOf(s: Spaces, d: nat, v: nat): nat {
    var e := Fetch(s.m, d, v);
    if e.Some? then Target(e.value) else 0
  }

  /** The frame is in use, and neither a directory nor a table. */
  ghost predicate DataFrame(s: Spaces, f: nat) {
    && f < s.frames.count && s.frames.Used(f) && !s.IsDir(f)
    && forall e: nat, i: nat {:trigger s.Pde(e, i)} ::
         s.IsDir(e) && i < ENTRIES && Present(s.Pde(e, i)) ==> Target(s.Pde(e, i)) != f
  }

  ghost predicate PageOk(s: Spaces, d: nat, v: nat) {
    Mapped(s, d, v) && DataFrame(s, FrameOf(s, d, v))
  }

  ghost predicate Pages(s: Spaces, d: nat, lo: nat, hi: nat) {
    && (forall v: nat {:trigger PageOk(s, d, v)} :: lo <= v < hi ==> PageOk(s, d, v))
    && (forall v: nat, u: nat {:trigger FrameOf(s, d, v), FrameOf(s, d, u)} ::
          lo <= v < u < hi ==> FrameOf(s, d, v) != FrameOf(s, d, u))
  }

  const LO := 0x80002    // first page of the heap
  const TOP := 0x80400   // first page past its cap

  ghost predicate Inv(p: Proc) {
    && p.s.Inv()
    && p.brk % PAGE == 0 && HEAP_BASE <= p.brk < HEAP_CAP
    && (p.pd != 0 ==> p.pd % PAGE == 0 && p.s.IsDir(p.pd / PAGE) && Pages(p.s, p.pd / PAGE, LO, p.brk / PAGE))
  }

  /** Frames that could still be handed out. */
  ghost function Left(s: Spaces): nat {
    |s.frames.Free() - {0}|
  }

  /** One page of growth: what it takes, and when it fails. */
  lemma GrowStep(s: Spaces, d: nat, v: nat)
    requires s.Inv() && s.IsDir(d) && v < PAGES
    requires Pmm.Alloc(s.frames).1 != 0
    ensures
      var (frames, a) := Pmm.Alloc(s.frames);
      var s1 := s.(frames := frames);
      var (s2, ok) := MapPage(s1, d, v, a, RWU);
      && s1.Inv() && s2.Inv() && s2.boot == s.boot && s2.clones == s.clones && s2.frames.count == s.frames.count
      && (ok <==> Present(s.Pde(d, v / ENTRIES)) || Pmm.Alloc(frames).1 != 0)
      && (!ok ==> s2.(frames := Pmm.Release(s2.frames, a)) == s)
      && (ok ==> Present(s2.Pde(d, v / ENTRIES)))
      && Left(s) == Left(s1) + 1
      && (ok && Present(s.Pde(d, v / ENTRIES)) ==> Left(s2) == Left(s1))
      && (ok && !Present(s.Pde(d, v / ENTRIES)) ==> Left(s1) == Left(s2) + 1)
  {
    var (frames, a) := Pmm.Alloc(s.frames);
    var s1 := s.(frames := frames);
    NewFrame(s);
    Pmm.AllocReleased(s.frames);
    FewerFree(s, s1, a / PAGE);
    hide Pmm.Alloc, Pmm.Release, Pmm.Frames.Used, Entry, Fetch, Spaces.Inv;
    MapPageOk(s1, d, v, a, RWU);
    MapPageInv(s1, d, v, a, RWU);
    if MapPage(s1, d, v, a, RWU).1 {
      MapFrames(s1, d, v, a, RWU);
      hide MapPage;
    }
  }

  lemma RwuEntry(phys: nat)
    ensures Leaf(Entry(phys, RWU)) == Some(Entry(phys, RWU))
    ensures Present(Entry(phys, RWU)) && Writable(Entry(phys, RWU)) && User(Entry(phys, RWU))
    ensures Target(Entry(phys, RWU)) == phys / PAGE
  {
    EntryParts(phys, RWU);
  }

  /** One page of growth: the new page is good, and the pages mapped before are as they were. */
  lemma GrowPages(s: Spaces, d: nat, v: nat)
    requires s.Inv() && s.IsDir(d) && v < PAGES && LO <= v && Pages(s, d, LO, v)
    requires Pmm.Alloc(s.frames).1 != 0
    requires MapPage(s.(frames := Pmm.Alloc(s.frames).0), d, v, Pmm.Alloc(s.frames).1, RWU).1
    ensures Pages(MapPage(s.(frames := Pmm.Alloc(s.frames).0), d, v, Pmm.Alloc(s.frames).1, RWU).0, d, LO, v + 1)
  {
    var (frames, a) := Pmm.Alloc(s.frames);
    var s1 := s.(frames := frames);
    NewFrame(s);
    FewerFree(s, s1, a / PAGE);
    Taken(s, s1, a / PAGE);
    hide Pmm.Alloc, Pmm.Frames.Used, Entry, Fetch, Spaces.Inv, Pages;
    MapPageOk(s1, d, v, a, RWU);
    MapFrames(s1, d, v, a, RWU);
    RwuEntry(a);
    var s2 := MapPage(s1, d, v, a, RWU).0;
    hide MapPage, Present, Writable, User, Target;
    assert Fetch(s2.m, d, v) == Leaf(Entry(a, RWU));
    assert PageOk(s2, d, v) && FrameOf(s2, d, v) == a / PAGE;
    hide PageOk, FrameOf, OthersKept;
    GrowOthers(s, s1, s2, d, v, a / PAGE);
    MorePages(s, s2, d, v, a / PAGE);
  }

  /** Every good page but `v` is good with the same frame, which is not `t`. */
  ghost predicate OthersKept(s: Spaces, s2: Spaces, d: nat, v: nat, t: nat) {
    forall u: nat {:trigger PageOk(s2, d, u)} :: u < PAGES && u != v && PageOk(s, d, u) ==>
      PageOk(s2, d, u) && FrameOf(s2, d, u) == FrameOf(s, d, u) && FrameOf(s, d, u) != t
  }

  lemma GrowOthers(s: Spaces, s1: Spaces, s2: Spaces, d: nat, v: nat, t: nat)
    requires s1.m == s.m
    requires forall u: nat {:trigger Fetch(s2.m, d, u)} ::
               u < PAGES && u != v ==> Fetch(s2.m, d, u) == Fetch(s1.m, d, u)
    requires forall f: nat {:trigger DataFrame(s1, f)} :: DataFrame(s, f) ==> DataFrame(s1, f) && f != t
    requires forall f: nat {:trigger DataFrame(s2, f)} :: DataFrame(s1, f) ==> DataFrame(s2, f)
    ensures OthersKept(s, s2, d, v, t)
  {
    hide Fetch, DataFrame;
    forall u: nat | u < PAGES && u != v && PageOk(s, d, u)
      ensures PageOk(s2, d, u) && FrameOf(s2, d, u) == FrameOf(s, d, u) && FrameOf(s, d, u) != t
    {
      assert Fetch(s2.m, d, u) == Fetch(s1.m, d, u);
      assert DataFrame(s1, FrameOf(s, d, u));
      assert DataFrame(s2, FrameOf(s, d, u));
    }
  }

  /** Handing out a frame leaves the tables alone and takes it out of the free set. */
  lemma FewerFree(s: Spaces, s1: Spaces, t: nat)
    requires s.Inv() && s1 == s.(frames := s1.frames) && s1.frames.Wf() && s1.frames.count == s.frames.count
    requires t < s.frames.count && t != 0 && !s.frames.Used(t)
    requires forall q: nat {:trigger s1.frames.Used(q)} :: s1.frames.Used(q) <==> s.frames.Used(q) || q == t
    ensures s1.Inv() && Left(s) == Left(s1) + 1
  {
    assert s.frames.Free() - {0} == (s1.frames.Free() - {0}) + {t};
    hide Word, Present, Target;
    forall e: nat | s1.IsDir(e)
      ensures s1.DirOk(e)
    {
      assert s.IsDir(e) && s.DirOk(e);
    }
    forall e: nat, i: nat | s1.IsDir(e) && i < ENTRIES
      ensures s1.TableOk(e, i)
    {
      assert s.TableOk(e, i);
    }
    forall e: nat, i: nat, g: nat, j: nat | s1.IsDir(e) && s1.IsDir(g) && i < ENTRIES && j < ENTRIES
      ensures s1.SharedOk(e, i, g, j)
    {
      assert s.SharedOk(e, i, g, j);
    }
  }

  /** The frame just handed out can hold data, and is not the frame of any page mapped before. */
  lemma Taken(s: Spaces, s1: Spaces, t: nat)
    requires s.Inv() && s1 == s.(frames := s1.frames) && s1.frames.count == s.frames.count
    requires t < s.frames.count && !s.frames.Used(t) && !s.IsDir(t) && s1.frames.Used(t)
    requires forall d: nat, i: nat {:trigger s.Pde(d, i)} ::
               s.IsDir(d) && i < ENTRIES && Present(s.Pde(d, i)) ==> Target(s.Pde(d, i)) != t
    requires forall q: nat {:trigger s1.frames.Used(q)} :: s1.frames.Used(q) <==> s.frames.Used(q) || q == t
    ensures DataFrame(s1, t)
    ensures forall f: nat {:trigger DataFrame(s1, f)} :: DataFrame(s, f) ==> DataFrame(s1, f) && f != t
  {
    forall e: nat, i: nat | s1.IsDir(e) && i < ENTRIES && Present(s1.Pde(e, i))
      ensures Target(s1.Pde(e, i)) != t
    {
      assert s.IsDir(e) && s1.Pde(e, i) == s.Pde(e, i);
    }
    forall f: nat | DataFrame(s, f)
      ensures DataFrame(s1, f)
    {
      forall e: nat, i: nat | s1.IsDir(e) && i < ENTRIES && Present(s1.Pde(e, i))
        ensures Target(s1.Pde(e, i)) != f
      {
        assert s.Pde(e, i) == s1.Pde(e, i);
      }
    }
  }

  /** A mapping turns no data frame into a table, and takes a frame only for a missing table. */
  lemma MapFrames(s: Spaces, d: nat, v: nat, phys: nat, flags: nat)
    requires s.Inv() && s.IsDir(d) && v < PAGES && MapPage(s, d, v, phys, flags).1
    ensures
      var s' := MapPage(s, d, v, phys, flags).0;
      && s'.frames.count == s.frames.count
      && Present(s'.Pde(d, v / ENTRIES))
      && (forall f: nat {:trigger DataFrame(s', f)} :: DataFrame(s, f) ==> DataFrame(s', f))
      && (Present(s.Pde(d, v / ENTRIES)) ==> Left(s') == Left(s))
      && (!Present(s.Pde(d, v / ENTRIES)) ==> Left(s) == Left(s') + 1)
  {
    var s' := MapPage(s, d, v, phys, flags).0;
    MapPageOk(s, d, v, phys, flags);
    assert s.TableOk(d, v / ENTRIES) && s.DirOk(d);
    if Present(s.Pde(d, v / ENTRIES)) {
      var t := Target(s.Pde(d, v / ENTRIES));
      forall e: nat, i: nat | s.IsDir(e) && i < ENTRIES
        ensures s'.Pde(e, i) == s.Pde(e, i)
      {
        WordOf(s.m, t, v % ENTRIES, Entry(phys, flags), e, i);
      }
      StillData(s, s', d, v / ENTRIES, s.Pde(d, v / ENTRIES));
    } else {
      var a := Pmm.Alloc(s.frames).1;
      NewFrame(s);
      EntryParts(a, 3);
      FreeLeft(s, s', a / PAGE);
      forall e: nat, i: nat | s.IsDir(e) && i < ENTRIES
        ensures s'.Pde(e, i) == if e == d && i == v / ENTRIES then Entry(a, 3) else s.Pde(e, i)
      {
        NewTableWords(s, a / PAGE, d, v, Entry(a, 3), Entry(phys, flags), e, i);
      }
      StillData(s, s', d, v / ENTRIES, Entry(a, 3));
    }
  }

  lemma FreeLeft(s: Spaces, s': Spaces, t: nat)
    requires s'.frames.count == s.frames.count && t < s.frames.count && t != 0 && !s.frames.Used(t)
    requires forall q: nat {:trigger s'.frames.Used(q)} :: s'.frames.Used(q) <==> s.frames.Used(q) || q == t
    ensures Left(s) == Left(s') + 1
  {
    assert s.frames.Free() - {0} == (s'.frames.Free() - {0}) + {t};
  }

  lemma StillData(s: Spaces, s': Spaces, d: nat, slot: nat, pde: nat)
    requires s'.boot == s.boot && s'.clones == s.clones && s'.frames.count == s.frames.count
    requires forall q: nat {:trigger s'.frames.Used(q)} :: s.frames.Used(q) ==> s'.frames.Used(q)
    requires s.IsDir(d) && slot < ENTRIES && (pde == s.Pde(d, slot) || !s.frames.Used(Target(pde)))
    requires forall e: nat, i: nat {:trigger s'.Pde(e, i)} :: s.IsDir(e) && i < ENTRIES ==>
               s'.Pde(e, i) == if e == d && i == slot then pde else s.Pde(e, i)
    ensures forall f: nat {:trigger DataFrame(s', f)} :: DataFrame(s, f) ==> DataFrame(s', f)
  {
    hide Word, Pmm.Frames.Used, Present, Target;
    forall f: nat | DataFrame(s, f)
      ensures DataFrame(s', f)
    {
      forall e: nat, i: nat | s'.IsDir(e) && i < ENTRIES && Present(s'.Pde(e, i))
        ensures Target(s'.Pde(e, i)) != f
      {
        assert s'.Pde(e, i) == if e == d && i == slot then pde else s.Pde(e, i);
      }
    }
  }

  // ---------------------------------------------------------------- brk

  /** Frames that growth from page `v` to page `end` takes: the heap lies under one directory slot. */
  function Cost(s: Spaces, d: nat, v: nat, end: nat): nat {
    if v >= end then 0 else end - v + if Present(s.Pde(d, v / ENTRIES)) then 0 else 1
  }

  /** Growth succeeds exactly when the frames suffice.  Pages mapped before keep their frames; the new
      ones are as good.  A growth that fails has used up every frame, except the one that it gives
      back when the last one would have been needed for a table. */
  lemma {:induction false} GrowOk(s: Spaces, d: nat, v: nat, end: nat)
    requires s.Inv() && s.IsDir(d) && LO <= v <= end <= TOP && Pages(s, d, LO, v)
    ensures
      var (s', ok) := Grow(s, d, v, end);
      && s'.Inv() && s'.boot == s.boot && s'.clones == s.clones
      && Pages(s', d, LO, if ok then end else v)
      && (ok <==> Left(s) >= Cost(s, d, v, end))
      && (ok ==> Left(s') == Left(s) - Cost(s, d, v, end))
      && (!ok ==> Left(s') == if Left(s) == 1 && !Present(s.Pde(d, v / ENTRIES)) then 1 else 0)
    decreases end - v
  {
    hide Pmm.Alloc, Pmm.Release, MapPage, Spaces.Inv, Left, Pages, Present, Word;
    if v < end {
      HeapSlot(v);
      if Pmm.Alloc(s.frames).1 == 0 {
        NothingLeft(s, d, v, end);
      } else {
        hide Grow;
        var (frames, a) := Pmm.Alloc(s.frames);
        var (s2, ok) := MapPage(s.(frames := frames), d, v, a, RWU);
        GrowStep(s, d, v);
        GrowUnfolds(s, d, v, end, s.(frames := frames), s2);
        if ok {
          GrowPages(s, d, v);
          GrowOk(s2, d, v + 1, end);
          FewerPages(Grow(s2, d, v + 1, end).0, d, v);
        } else {
          NothingLeft(s.(frames := frames), d, v, end);
        }
      }
    }
  }

  lemma HeapSlot(v: nat)
    requires LO <= v < TOP
    ensures v / ENTRIES == 512 && (v + 1 < TOP ==> (v + 1) / ENTRIES == 512)
  {
  }

  lemma NothingLeft(s: Spaces, d: nat, v: nat, end: nat)
    requires s.Inv() && Pmm.Alloc(s.frames).1 == 0
    ensures Left(s) == 0 && s.(frames := Pmm.Alloc(s.frames).0) == s
    ensures v < end ==> Grow(s, d, v, end) == (s, false)
  {
    OutOfFrames(s);
  }

  lemma GrowUnfolds(s: Spaces, d: nat, v: nat, end: nat, s1: Spaces, s2: Spaces)
    requires v < end && Pmm.Alloc(s.frames).1 != 0 && s1 == s.(frames := Pmm.Alloc(s.frames).0)
    requires s2 == MapPage(s1, d, v, Pmm.Alloc(s.frames).1, RWU).0
    ensures Grow(s, d, v, end) ==
            if MapPage(s1, d, v, Pmm.Alloc(s.frames).1, RWU).1 then Grow(s2, d, v + 1, end)
            else (s2.(frames := Pmm.Release(s2.frames, Pmm.Alloc(s.frames).1)), false)
  {
    hide Pmm.Alloc, Pmm.Release, MapPage;
  }

  lemma OutOfFrames(s: Spaces)
    requires s.frames.Wf() && Pmm.Alloc(s.frames).1 == 0
    ensures Left(s) == 0 && s.(frames := Pmm.Alloc(s.frames).0) == s
  {
    Pmm.AllocOk(s.frames);
    assert s.frames.Free() - {0} == {};
  }

  lemma FewerPages(s: Spaces, d: nat, v: nat)
    ensures Pages(s, d, LO, v + 1) ==> Pages(s, d, LO, v)
  {
  }

  lemma MorePages(s: Spaces, s2: Spaces, d: nat, v: nat, t: nat)
    requires Pages(s, d, LO, v) && LO <= v < PAGES
    requires PageOk(s2, d, v) && FrameOf(s2, d, v) == t
    requires OthersKept(s, s2, d, v, t)
    ensures Pages(s2, d, LO, v + 1)
  {
    hide PageOk, FrameOf;
    forall u: nat | LO <= u < v
      ensures PageOk(s2, d, u) && FrameOf(s2, d, u) == FrameOf(s, d, u) && FrameOf(s, d, u) != t
    {
      assert PageOk(s, d, u);
    }
  }

  /** sys_brk keeps the break aligned, in range and never lowers it, keeps every page below it mapped to
      a frame of its own, and answers as documented; it moves the break exactly when the request is an
      aligned, larger, in-range one and the frames suffice. */
  lemma SysBrkOk(p: Proc, addr: nat)
    requires Inv(p)
    ensures
      var (p', r) := SysBrk(p, addr);
      && Inv(p') && p'.pd == p.pd && p.brk <= p'.brk
      && (p'.brk != p.brk <==>
            && p.pd != 0 && addr % PAGE == 0 && p.brk < addr < 0x8040_0000
            && Left(p.s) >= Cost(p.s, p.pd / PAGE, p.brk / PAGE, addr / PAGE))
      && (p'.brk != p.brk ==> p'.brk == addr)
      && (r == p'.brk - 0x1_0000_0000 <==> p.pd != 0 && (addr == 0 || addr == p'.brk))
      && (r == -12 <==>
            || p.pd == 0
            || (addr % PAGE == 0 && p.brk < addr < 0x8040_0000
                && Left(p.s) < Cost(p.s, p.pd / PAGE, p.brk / PAGE, addr / PAGE)))
      && (r == -22 <==> p.pd != 0 && addr != 0 && (addr % PAGE != 0 || addr < p.brk || addr >= 0x8040_0000))
      && (r != p'.brk - 0x1_0000_0000 ==> r == -22 || r == -12)
  {
    if p.pd != 0 && addr % PAGE == 0 && p.brk < addr < HEAP_CAP {
      GrowOk(p.s, p.pd / PAGE, p.brk / PAGE, addr / PAGE);
    }
  }

  // ---------------------------------------------------------------- what brk leaves alone

  const SLOT := 512      // the directory slot over the heap

  /** The directory is a clone, and its table over the heap, if it has one, is not boot_pd's. */
  predicate OwnHeap(s: Spaces, d: nat) {
    d in s.clones && !s.Share(d, s.boot, SLOT)
  }

  /** No other directory's translation differs, and of `d`'s none outside the pages [v, end). */
  ghost predicate OnlyPages(s: Spaces, s': Spaces, d: nat, v: nat, end: nat) {
    && s'.boot == s.boot && s'.clones == s.clones
    && forall e: nat, u: nat {:trigger Fetch(s'.m, e, u)} ::
         s.IsDir(e) && u < PAGES && (e != d || u < v || u >= end) ==> Fetch(s'.m, e, u) == Fetch(s.m, e, u)
  }

  /** Mapping one page of such a directory's heap. */
  lemma MapPrivate(s: Spaces, d: nat, v: nat, phys: nat, flags: nat)
    requires s.Inv() && OwnHeap(s, d) && v < PAGES && v / ENTRIES == SLOT
    ensures var s' := MapPage(s, d, v, phys, flags).0; OwnHeap(s', d) && OnlyPages(s, s', d, v, v + 1)
  {
    var s' := MapPage(s, d, v, phys, flags).0;
    MapPageOk(s, d, v, phys, flags);
    forall e: nat | s.IsDir(e) && e != d
      ensures !Affected(s, d, v, e)
    {
      assert s.SharedOk(d, SLOT, e, SLOT);
    }
    StillOwn(s, d, v, phys, flags);
    hide Fetch, MapPage, Entry, Leaf;
  }

  lemma StillOwn(s: Spaces, d: nat, v: nat, phys: nat, flags: nat)
    requires s.Inv() && OwnHeap(s, d) && v < PAGES && v / ENTRIES == SLOT
    ensures OwnHeap(MapPage(s, d, v, phys, flags).0, d)
  {
    hide Word, WithWord, ZeroFrame, Entry, Pmm.Alloc;
    assert s.IsDir(d) && s.IsDir(s.boot) && d != s.boot;
    assert s.DirOk(d) && s.DirOk(s.boot) && s.TableOk(d, SLOT) && s.TableOk(s.boot, SLOT);
    if Present(s.Pde(d, SLOT)) {
      var t := Target(s.Pde(d, SLOT));
      WordOf(s.m, t, v % ENTRIES, Entry(phys, flags), d, SLOT);
      WordOf(s.m, t, v % ENTRIES, Entry(phys, flags), s.boot, SLOT);
    } else if Pmm.Alloc(s.frames).1 != 0 {
      NewFrame(s);
      var a := Pmm.Alloc(s.frames).1;
      EntryParts(a, 3);
      NewTableWords(s, a / PAGE, d, v, Entry(a, 3), Entry(phys, flags), d, SLOT);
      NewTableWords(s, a / PAGE, d, v, Entry(a, 3), Entry(phys, flags), s.boot, SLOT);
    }
  }

  /** Growth, complete or not, changes the translation of the pages asked for and of no others, and shows
      in no other directory. */
  lemma {:induction false} GrowPrivate(s: Spaces, d: nat, v: nat, end: nat)
    requires s.Inv() && OwnHeap(s, d) && LO <= v <= end <= TOP
    ensures var s' := Grow(s, d, v, end).0; OwnHeap(s', d) && OnlyPages(s, s', d, v, end)
    decreases end - v
  {
    hide Pmm.Alloc, Pmm.Release, MapPage, Spaces.Inv, Left, Present, Word, OwnHeap, OnlyPages;
    SameSpaces(s, d, v, end);
    if v < end {
      HeapSlot(v);
      assert s.IsDir(d) by { CloneIsDir(s, d); }
      if Pmm.Alloc(s.frames).1 == 0 {
        NothingLeft(s, d, v, end);
      } else {
        hide Grow;
        var (frames, a) := Pmm.Alloc(s.frames);
        var s1 := s.(frames := frames);
        var (s2, ok) := MapPage(s1, d, v, a, RWU);
        GrowStep(s, d, v);
        GrowUnfolds(s, d, v, end, s1, s2);
        if ok {
          SameHeap(s, s1, d);
          MapPrivate(s1, d, v, a, RWU);
          GrowPrivate(s2, d, v + 1, end);
          Joined(s, s1, s2, Grow(s2, d, v + 1, end).0, d, v, end);
        }
      }
    }
  }

  lemma CloneIsDir(s: Spaces, d: nat)
    requires OwnHeap(s, d)
    ensures s.IsDir(d)
  {
  }

  lemma SameSpaces(s: Spaces, d: nat, v: nat, end: nat)
    ensures OnlyPages(s, s, d, v, end)
  {
  }

  lemma SameHeap(s: Spaces, s1: Spaces, d: nat)
    requires s1 == s.(frames := s1.frames)
    ensures OwnHeap(s1, d) <==> OwnHeap(s, d)
  {
  }

  lemma Joined(s: Spaces, s1: Spaces, s2: Spaces, s3: Spaces, d: nat, v: nat, end: nat)
    requires s1 == s.(frames := s1.frames) && v < end
    requires OnlyPages(s1, s2, d, v, v + 1) && OnlyPages(s2, s3, d, v + 1, end)
    ensures OnlyPages(s, s3, d, v, end)
  {
    hide Fetch;
  }

  lemma Wider(s: Spaces, s1: Spaces, s2: Spaces, d: nat, v: nat, end: nat, lo: nat, hi: nat)
    requires OnlyPages(s, s1, d, v, end) && OnlyPages(s1, s2, d, lo, hi) && lo <= v && end <= hi
    ensures OnlyPages(s, s2, d, lo, hi)
  {
    hide Fetch;
  }

  /** A call of sys_brk, successful or not, touches the pages from the old break to the address alone. */
  lemma SysBrkPrivate(p: Proc, addr: nat)
    requires Inv(p) && (p.pd != 0 ==> OwnHeap(p.s, p.pd / PAGE))
    ensures
      var p', d := SysBrk(p, addr).0, p.pd / PAGE;
      && (p.pd != 0 ==> OwnHeap(p'.s, d))
      && OnlyPages(p.s, p'.s, d, p.brk / PAGE, if p.brk < addr < HEAP_CAP then addr / PAGE else p.brk / PAGE)
  {
    hide Grow, Pages, OwnHeap, OnlyPages;
    SameSpaces(p.s, p.pd / PAGE, p.brk / PAGE, if p.brk < addr < HEAP_CAP then addr / PAGE else p.brk / PAGE);
    if p.pd != 0 && addr % PAGE == 0 && p.brk < addr < HEAP_CAP {
      GrowPrivate(p.s, p.pd / PAGE, p.brk / PAGE, addr / PAGE);
    }
  }

  // ---------------------------------------------------------------- runs

  datatype Call = Sys(addr: nat) | Reset

  function Run(p: Proc, calls: seq<Call>): Proc
    decreases |calls|
  {
    if calls == [] then p
    else Run(if calls[0].Sys? then SysBrk(p, calls[0].addr).0 else ResetBrk(p), calls[1..])
  }

  /** The invariant holds after any calls, failed and repeated ones included; between resets the break
      never falls. */
  lemma {:induction false} RunOk(p: Proc, calls: seq<Call>)
    requires Inv(p)
    ensures Inv(Run(p, calls))
    ensures (forall i :: 0 <= i < |calls| ==> calls[i].Sys?) ==> p.brk <= Run(p, calls).brk
    decreases |calls|
  {
    if calls != [] {
      if calls[0].Sys? {
        SysBrkOk(p, calls[0].addr);
        RunOk(SysBrk(p, calls[0].addr).0, calls[1..]);
      } else {
        RunOk(ResetBrk(p), calls[1..]);
      }
    }
  }

  /** No run of calls shows in another directory, or outside the heap's pages in the process's own. */
  lemma {:induction false} RunPrivate(p: Proc, calls: seq<Call>)
    requires Inv(p) && p.pd != 0 && OwnHeap(p.s, p.pd / PAGE)
    ensures OwnHeap(Run(p, calls).s, p.pd / PAGE) && OnlyPages(p.s, Run(p, calls).s, p.pd / PAGE, LO, TOP)
    decreases |calls|
  {
    hide Inv, OwnHeap, OnlyPages, SysBrk;
    if calls == [] {
      SameSpaces(p.s, p.pd / PAGE, LO, TOP);
    } else if calls[0].Sys? {
      var addr := calls[0].addr;
      var p1 := SysBrk(p, addr).0;
      BreakInHeap(p);
      SysBrkOk(p, addr);
      SysBrkPrivate(p, addr);
      RunPrivate(p1, calls[1..]);
      var v, end := p.brk / PAGE, if p.brk < addr < HEAP_CAP then addr / PAGE else p.brk / PAGE;
      Wider(p.s, p1.s, Run(p1, calls[1..]).s, p.pd / PAGE, v, end, LO, TOP);
    } else {
      ResetInv(p);
      RunPrivate(ResetBrk(p), calls[1..]);
    }
  }

  /** A new program starts with an empty heap in the same address space. */
  lemma ResetEmpties(p: Proc)
    requires Inv(p)
    ensures Inv(ResetBrk(p)) && ResetBrk(p) == Proc(p.s, p.pd, 0x8000_2000)
    ensures LO * PAGE == 0x8000_2000 && TOP * PAGE == HEAP_CAP == 0x8040_0000
  {
    ResetInv(p);
  }

  lemma BreakInHeap(p: Proc)
    requires Inv(p)
    ensures HEAP_BASE <= p.brk < HEAP_CAP && LO <= p.brk / PAGE < TOP
  {
  }

  lemma ResetInv(p: Proc)
    requires Inv(p)
    ensures Inv(ResetBrk(p))
  {
  }

  /** A new process's heap is its own exactly when boot_pd has no table over it. */
  lemma InitOwn(s: Spaces)
    requires s.Inv() && CloneKernelPd(s).1 != 0
    ensures var (s', n) := CloneKernelPd(s); OwnHeap(s', n / PAGE) <==> !Present(s.Pde(s.boot, SLOT))
  {
    var a := CloneKernelPd(s).1;
    NewFrame(s);
    WordCopy(s.m, s.boot, a / PAGE, s.boot, SLOT);
    WordCopy(s.m, s.boot, a / PAGE, a / PAGE, SLOT);
    hide CopyFrame, Word;
  }

  /** verve_proc_init_singleton: a clone of the kernel's directory, and an empty heap. */
  lemma InitOk(s: Spaces)
    requires s.Inv()
    ensures var (s', n) := CloneKernelPd(s); Inv(Proc(s', n, 0x8000_2000))
  {
    CloneOk(s);
    Pmm.AllocOk(s.frames);
  }
}
