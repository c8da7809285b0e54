/** arch/i386/paging.c on the bitmap allocator: two-level tables in physical memory, as maps from virtual
    pages to leaf entries.  Memory is 1024 32-bit words a frame. */
module PageTables {
  import opened Wrappers
  import Pmm

  const ENTRIES := 1024
  const PAGES := 1048576        // 2^20 virtual pages
  const PAGE := 4096

  // ---------------------------------------------------------------- entries

  predicate Present(e: nat) {
    e % 2 == 1
  }

  predicate Writable(e: nat) {
    e / 2 % 2 == 1
  }

  predicate User(e: nat) {
    e / 4 % 2 == 1
  }

  function Target(e: nat): nat {
    e / PAGE
  }

  /** (phys & 0xFFFFF000) | (flags & 0xFFF) */
  function Entry(phys: nat, flags: nat): nat {
    phys / PAGE * PAGE + flags % PAGE
  }

  // ---------------------------------------------------------------- words of frames

  function Word(m: seq<nat>, f: nat, i: nat): nat {
    if i < ENTRIES && f * ENTRIES + i < |m| then m[f * ENTRIES + i] else 0
  }

  function WithWord(m: seq<nat>, f: nat, i: nat, v: nat): (r: seq<nat>)
    ensures |r| == |m|
  {
    if i < ENTRIES && f * ENTRIES + i < |m| then m[f * ENTRIES + i := v] else m
  }

  function ZeroFrame(m: seq<nat>, f: nat): (r: seq<nat>)
    ensures |r| == |m|
  {
    seq(|m|, x requires 0 <= x < |m| => if x / ENTRIES == f then 0 else m[x])
  }

  function CopyFrame(m: seq<nat>, src: nat, dst: nat): (r: seq<nat>)
    ensures |r| == |m|
  {
    seq(|m|, x requires 0 <= x < |m| => if x / ENTRIES == dst then Word(m, src, x % ENTRIES) else m[x])
  }

  lemma WordOf(m: seq<nat>, f: nat, i: nat, v: nat, g: nat, j: nat)
    requires i < ENTRIES && (f + 1) * ENTRIES <= |m|
    ensures Word(WithWord(m, f, i, v), g, j) == if g == f && j == i then v else Word(m, g, j)
  {
  }

  lemma WordZero(m: seq<nat>, f: nat, g: nat, j: nat)
    ensures Word(ZeroFrame(m, f), g, j) == if g == f then 0 else Word(m, g, j)
  {
    if j < ENTRIES && g * ENTRIES + j < |m| {
      assert (g * ENTRIES + j) / ENTRIES == g;
    }
  }

  lemma WordCopy(m: seq<nat>, src: nat, dst: nat, g: nat, j: nat)
    requires (dst + 1) * ENTRIES <= |m|
    ensures Word(CopyFrame(m, src, dst), g, j) == if g == dst then Word(m, src, j) else Word(m, g, j)
  {
    if j < ENTRIES && g * ENTRIES + j < |m| {
      assert (g * ENTRIES + j) / ENTRIES == g && (g * ENTRIES + j) % ENTRIES == j;
    }
  }

  // ---------------------------------------------------------------- translation

  /** pte_fetch_pd: the present leaf entry of virtual page `v` in directory `d`. */
  function Fetch(m: seq<nat>, d: nat, v: nat): Option<nat> {
    var pde := Word(m, d, v / ENTRIES);
    if !Present(pde) then None else
    var pte := Word(m, Target(pde), v % ENTRIES);
    if !Present(pte) then None else Some(pte)
  }

  /** boot_pd and the clones; every other directory is unknown to the kernel. */
  datatype Spaces = Spaces(m: seq<nat>, frames: Pmm.Frames, boot: nat, clones: set<nat>) {

    predicate IsDir(d: nat) {
      d == boot || d in clones
    }

    function Pde(d: nat, i: nat): nat {
      Word(m, d, i)
    }

    /** Slot `i` of `d` and slot `i` of `e` name the same table. */
    predicate Share(d: nat, e: nat, i: nat) {
      Present(Pde(d, i)) && Present(Pde(e, i)) && Target(Pde(d, i)) == Target(Pde(e, i))
    }

    predicate InRam(f: nat) {
      (f + 1) * ENTRIES <= |m|
    }

    ghost predicate DirOk(d: nat) {
      InRam(d) && frames.Used(d)
    }

    /** A table is a frame in use that is no directory. */
    ghost predicate TableOk(d: nat, i: nat) {
      Present(Pde(d, i)) ==>
        && InRam(Target(Pde(d, i))) && frames.Used(Target(Pde(d, i))) && !IsDir(Target(Pde(d, i)))
    }

    /** Two slots name one table only when they are the same slot, and then, in different directories,
        only when boot_pd names it too. */
    ghost predicate SharedOk(d: nat, i: nat, e: nat, j: nat) {
      Present(Pde(d, i)) && Present(Pde(e, j)) && Target(Pde(d, i)) == Target(Pde(e, j)) ==>
        i == j && (d == e || Share(d, boot, i))
    }

    ghost predicate Inv() {
      && frames.Wf() && |m| <= ENTRIES * PAGES
      && (forall q: nat {:trigger frames.Used(q)} :: !frames.Used(q) ==> InRam(q))
      && boot !in clones
      && (forall d: nat {:trigger IsDir(d)} :: IsDir(d) ==> DirOk(d))
      && (forall d: nat, i: nat {:trigger TableOk(d, i)} :: IsDir(d) && i < ENTRIES ==> TableOk(d, i))
      && (forall d: nat, i: nat, e: nat, j: nat {:trigger SharedOk(d, i, e, j)} ::
            IsDir(d) && IsDir(e) && i < ENTRIES && j < ENTRIES ==> SharedOk(d, i, e, j))
    }
  }

  /** paging_map_page: a missing table is taken from the frame allocator, cleared and linked in. */
  function MapPage(s: Spaces, d: nat, v: nat, phys: nat, flags: nat): (Spaces, bool) {
    var pde := s.Pde(d, v / ENTRIES);
    if Present(pde) then
      (s.(m := WithWord(s.m, Target(pde), v % ENTRIES, Entry(phys, flags))), true)
    else
      var (frames, a) := Pmm.Alloc(s.frames);
      if a == 0 then (s.(frames := frames), false) else
      var t := a / PAGE;
      var linked := WithWord(ZeroFrame(s.m, t), d, v / ENTRIES, Entry(a, 3));
      (s.(m := WithWord(linked, t, v % ENTRIES, Entry(phys, flags)), frames := frames), true)
  }

  /** paging_clone_kernel_pd; 0 for failure. */
  function CloneKernelPd(s: Spaces): (Spaces, nat) {
    var (frames, a) := Pmm.Alloc(s.frames);
    if a == 0 then (s.(frames := frames), 0) else
    (s.(m := CopyFrame(s.m, s.boot, a / PAGE), frames := frames, clones := s.clones + {a / PAGE}), a)
  }

  // ---------------------------------------------------------------- what mapping a page does

  /** The directories whose translation a mapping in `d` at page `v` affects. */
  predicate Affected(s: Spaces, d: nat, v: nat, e: nat) {
    e == d || s.Share(d, e, v / ENTRIES)
  }

  function Leaf(e: nat): Option<nat> {
    if Present(e) then Some(e) else None
  }

  lemma Even(a: nat, b: nat)
    ensures (2 * a + b) % 2 == b % 2
  {
  }

  lemma ByPage(q: nat, r: nat)
    requires r < PAGE
    ensures (q * PAGE + r) / PAGE == q && (q * PAGE + r) % PAGE == r
  {
  }

  lemma ByTwo(q: nat, r: nat)
    requires r < 2
    ensures (q * 2 + r) / 2 == q
  {
  }

  lemma ByFour(q: nat, r: nat)
    requires r < 4
    ensures (q * 4 + r) / 4 == q
  {
  }

  lemma LowBits(k: nat, r: nat)
    requires r < PAGE
    ensures (k * PAGE + r) / PAGE == k && (k * PAGE + r) % PAGE == r
    ensures (k * PAGE + r) % 2 == r % 2
    ensures (k * PAGE + r) / 2 % 2 == r / 2 % 2
    ensures (k * PAGE + r) / 4 % 2 == r / 4 % 2
  {
    assert (k * PAGE + r) / PAGE == k && (k * PAGE + r) % PAGE == r by { ByPage(k, r); }
    assert (k * PAGE + r) % 2 == r % 2 by { Even(k * 2048, r); }
    assert (k * PAGE + r) / 2 == 2 * (k * 1024) + r / 2 by {
      ByTwo(2 * (k * 1024) + r / 2, r % 2);
      assert k * PAGE + r == (2 * (k * 1024) + r / 2) * 2 + r % 2;
    }
    assert (k * PAGE + r) / 4 == 2 * (k * 512) + r / 4 by {
      ByFour(2 * (k * 512) + r / 4, r % 4);
      assert k * PAGE + r == (2 * (k * 512) + r / 4) * 4 + r % 4;
    }
    Even(k * 1024, r / 2);
    Even(k * 512, r / 4);
  }

  lemma EntryParts(phys: nat, flags: nat)
    ensures Target(Entry(phys, flags)) == phys / PAGE
    ensures Present(Entry(phys, flags)) <==> Present(flags)
    ensures Writable(Entry(phys, flags)) <==> Writable(flags)
    ensures User(Entry(phys, flags)) <==> User(flags)
    ensures Entry(phys, flags) % 4096 == flags % 4096
  {
    LowBits(phys / PAGE, flags % PAGE);
    LowBits(flags / PAGE, flags % PAGE);
  }

  /** Mapping under a slot that has a table writes one word of that table. */
  lemma MapInTable(s: Spaces, d: nat, v: nat, phys: nat, flags: nat, e: nat, u: nat)
    requires s.Inv() && s.IsDir(d) && s.IsDir(e) && v < PAGES && u < PAGES
    requires Present(s.Pde(d, v / ENTRIES))
    ensures Fetch(MapPage(s, d, v, phys, flags).0.m, e, u) ==
      if u == v && Affected(s, d, v, e) then Leaf(Entry(phys, flags)) else Fetch(s.m, e, u)
  {
    var t := Target(s.Pde(d, v / ENTRIES));
    assert s.TableOk(d, v / ENTRIES) && s.TableOk(e, u / ENTRIES);
    assert s.SharedOk(d, v / ENTRIES, e, u / ENTRIES);
    WordOf(s.m, t, v % ENTRIES, Entry(phys, flags), e, u / ENTRIES);
    WordOf(s.m, t, v % ENTRIES, Entry(phys, flags), Target(s.Pde(e, u / ENTRIES)), u % ENTRIES);
  }

  /** Mapping under an empty slot links in a table that nobody else has. */
  lemma MapNewTable(s: Spaces, d: nat, v: nat, phys: nat, flags: nat, e: nat, u: nat)
    requires s.Inv() && s.IsDir(d) && s.IsDir(e) && v < PAGES && u < PAGES
    requires !Present(s.Pde(d, v / ENTRIES)) && Pmm.Alloc(s.frames).1 != 0
    ensures Fetch(MapPage(s, d, v, phys, flags).0.m, e, u) ==
      if u == v && Affected(s, d, v, e) then Leaf(Entry(phys, flags)) else Fetch(s.m, e, u)
  {
    var a := Pmm.Alloc(s.frames).1;
    var t := a / PAGE;
    NewFrame(s);
    EntryParts(a, 3);
    assert s.TableOk(e, u / ENTRIES) && s.DirOk(d) && s.DirOk(e);
    var x, pt := Entry(phys, flags), Target(s.Pde(e, u / ENTRIES));
    NewTableWords(s, t, d, v, Entry(a, 3), x, e, u / ENTRIES);
    NewTableWords(s, t, d, v, Entry(a, 3), x, pt, u % ENTRIES);
    NewTableWords(s, t, d, v, Entry(a, 3), x, t, u % ENTRIES);
    hide Word, WithWord, ZeroFrame;
  }

  lemma NewTableWords(s: Spaces, t: nat, d: nat, v: nat, pde: nat, pte: nat, g: nat, j: nat)
    requires (t + 1) * ENTRIES <= |s.m| && (d + 1) * ENTRIES <= |s.m| && d != t && v < PAGES
    ensures Word(WithWord(WithWord(ZeroFrame(s.m, t), d, v / ENTRIES, pde), t, v % ENTRIES, pte), g, j) ==
      if g == t then (if j == v % ENTRIES then pte else 0)
      else if g == d && j == v / ENTRIES then pde else Word(s.m, g, j)
  {
    var z := ZeroFrame(s.m, t);
    WordZero(s.m, t, g, j);
    WordOf(z, d, v / ENTRIES, pde, g, j);
    WordOf(WithWord(z, d, v / ENTRIES, pde), t, v % ENTRIES, pte, g, j);
  }

  /** A frame that the allocator hands out is no directory and no table. */
  lemma NewFrame(s: Spaces)
    requires s.Inv() && Pmm.Alloc(s.frames).1 != 0
    ensures
      var (frames, a) := Pmm.Alloc(s.frames);
      var t := a / PAGE;
      && a == t * PAGE && 0 < t < s.frames.count && (t + 1) * ENTRIES <= |s.m|
      && !s.frames.Used(t) && !s.IsDir(t)
      && (forall d: nat, i: nat {:trigger s.Pde(d, i)} ::
        s.IsDir(d) && i < ENTRIES && Present(s.Pde(d, i)) ==> Target(s.Pde(d, i)) != t)
      && frames.Wf() && frames.count == s.frames.count
      && forall q: nat {:trigger frames.Used(q)} :: frames.Used(q) <==> s.frames.Used(q) || q == t
  {
    Pmm.AllocOk(s.frames);
    var (frames, a) := Pmm.Alloc(s.frames);
    var t := a / PAGE;
    assert t in s.frames.Free();
    assert s.IsDir(t) ==> s.DirOk(t);
    forall d: nat, i: nat | s.IsDir(d) && i < ENTRIES && Present(s.Pde(d, i))
      ensures Target(s.Pde(d, i)) != t
    {
      assert s.TableOk(d, i);
    }
    forall q: nat
      ensures frames.Used(q) <==> s.frames.Used(q) || q == t
    {
      Pmm.SetOk(s.frames, t, q);
    }
  }

  /** paging_map_page changes the translation of page `v` alone, in its own directory and in those that
      share the table with it; on failure it changes nothing at all. */
  lemma MapPageOk(s: Spaces, d: nat, v: nat, phys: nat, flags: nat)
    requires s.Inv() && s.IsDir(d) && v < PAGES
    ensures
      var (s', ok) := MapPage(s, d, v, phys, flags);
      && s'.boot == s.boot && s'.clones == s.clones
      && (ok <==> Present(s.Pde(d, v / ENTRIES)) || Pmm.Alloc(s.frames).1 != 0)
      && (!ok ==> s' == s)
      && forall e: nat, u: nat {:trigger Fetch(s'.m, e, u)} :: ok && s.IsDir(e) && u < PAGES ==>
           Fetch(s'.m, e, u) == if u == v && Affected(s, d, v, e) then Leaf(Entry(phys, flags)) else Fetch(s.m, e, u)
  {
    var (s', ok) := MapPage(s, d, v, phys, flags);
    Pmm.AllocOk(s.frames);
    forall e: nat, u: nat | ok && s.IsDir(e) && u < PAGES
      ensures Fetch(s'.m, e, u) ==
        if u == v && Affected(s, d, v, e) then Leaf(Entry(phys, flags)) else Fetch(s.m, e, u)
    {
      if Present(s.Pde(d, v / ENTRIES)) {
        MapInTable(s, d, v, phys, flags, e, u);
      } else {
        MapNewTable(s, d, v, phys, flags, e, u);
      }
    }
  }

  /** The directory entry of a table that a mapping had to add: present, writable and the kernel's, to a frame
      that was free; no other directory entry changes. */
  lemma NewTable(s: Spaces, d: nat, v: nat, phys: nat, flags: nat)
    requires s.Inv() && s.IsDir(d) && v < PAGES && MapPage(s, d, v, phys, flags).1
    ensures
      var s', slot := MapPage(s, d, v, phys, flags).0, v / ENTRIES;
      && (forall e: nat, i: nat {:trigger s'.Pde(e, i)} :: s.IsDir(e) && i < ENTRIES && (e != d || i != slot) ==>
            s'.Pde(e, i) == s.Pde(e, i))
      && (if Present(s.Pde(d, slot)) then s'.Pde(d, slot) == s.Pde(d, slot)
          else
            && Present(s'.Pde(d, slot)) && Writable(s'.Pde(d, slot)) && !User(s'.Pde(d, slot))
            && s'.Pde(d, slot) % 4096 == 3
            && Target(s'.Pde(d, slot)) != 0 && !s.frames.Used(Target(s'.Pde(d, slot))))
  {
    var s', slot := MapPage(s, d, v, phys, flags).0, v / ENTRIES;
    assert s.DirOk(d) && s.TableOk(d, slot);
    if Present(s.Pde(d, slot)) {
      var t := Target(s.Pde(d, slot));
      forall e: nat, i: nat | s.IsDir(e) && i < ENTRIES
        ensures s'.Pde(e, i) == s.Pde(e, i)
      {
        WordOf(s.m, t, v % ENTRIES, Entry(phys, flags), e, i);
      }
    } else {
      NewFrame(s);
      var a := Pmm.Alloc(s.frames).1;
      EntryParts(a, 3);
      forall e: nat, i: nat | s.IsDir(e) && i < ENTRIES
        ensures s'.Pde(e, i) == if e == d && i == slot then Entry(a, 3) else s.Pde(e, i)
      {
        NewTableWords(s, a / PAGE, d, v, Entry(a, 3), Entry(phys, flags), e, i);
      }
    }
  }

  /** Under a slot that boot_pd left empty, a mapping in a clone is private to it. */
  lemma Isolation(s: Spaces, d: nat, v: nat, e: nat)
    requires s.Inv() && s.IsDir(d) && s.IsDir(e) && v < PAGES && e != d
    requires !Present(s.Pde(s.boot, v / ENTRIES))
    ensures !Affected(s, d, v, e)
  {
    assert s.SharedOk(d, v / ENTRIES, e, v / ENTRIES);
  }

  /** Exactly when a mapping in a clone stays private: the clone has a table of its own there, or
      boot_pd's translation is already the one that is made. */
  lemma Private(s: Spaces, d: nat, v: nat, phys: nat, flags: nat)
    requires s.Inv() && d in s.clones && v < PAGES && MapPage(s, d, v, phys, flags).1
    ensures
      var m := MapPage(s, d, v, phys, flags).0.m;
      (forall e: nat, u: nat {:trigger Fetch(m, e, u)} :: s.IsDir(e) && e != d && u < PAGES ==>
         Fetch(m, e, u) == Fetch(s.m, e, u))
      <==> !s.Share(d, s.boot, v / ENTRIES) || Fetch(s.m, s.boot, v) == Leaf(Entry(phys, flags))
  {
    hide Fetch, MapPage, Entry, Leaf;
    var m := MapPage(s, d, v, phys, flags).0.m;
    MapPageOk(s, d, v, phys, flags);
    if s.Share(d, s.boot, v / ENTRIES) {
      assert Fetch(m, s.boot, v) == Leaf(Entry(phys, flags));
    }
    forall e: nat, u: nat | s.IsDir(e) && e != d && u < PAGES && Fetch(m, e, u) != Fetch(s.m, e, u)
      ensures s.Share(d, s.boot, v / ENTRIES) && Fetch(s.m, s.boot, v) != Leaf(Entry(phys, flags))
    {
      assert u == v && s.Share(d, e, v / ENTRIES);
      assert s.SharedOk(d, v / ENTRIES, e, v / ENTRIES);
      SameTable(s, e, s.boot, v);
    }
  }

  lemma SameTable(s: Spaces, e: nat, g: nat, v: nat)
    requires s.Share(e, g, v / ENTRIES)
    ensures Fetch(s.m, e, v) == Fetch(s.m, g, v)
  {
  }

  lemma MapPageInv(s: Spaces, d: nat, v: nat, phys: nat, flags: nat)
    requires s.Inv() && s.IsDir(d) && v < PAGES
    ensures MapPage(s, d, v, phys, flags).0.Inv()
  {
    var (s', ok) := MapPage(s, d, v, phys, flags);
    Pmm.AllocOk(s.frames);
    if Present(s.Pde(d, v / ENTRIES)) {
      SameDirs(s, s', d, v, phys, flags);
    } else if ok {
      NewTableInv(s, d, v, phys, flags);
    }
  }

  lemma SameDirs(s: Spaces, s': Spaces, d: nat, v: nat, phys: nat, flags: nat)
    requires s.Inv() && s.IsDir(d) && v < PAGES && Present(s.Pde(d, v / ENTRIES))
    requires s' == MapPage(s, d, v, phys, flags).0
    ensures s'.Inv()
  {
    var t := Target(s.Pde(d, v / ENTRIES));
    assert s.TableOk(d, v / ENTRIES);
    forall e: nat, i: nat | s.IsDir(e) && i < ENTRIES
      ensures s'.Pde(e, i) == s.Pde(e, i)
    {
      WordOf(s.m, t, v % ENTRIES, Entry(phys, flags), e, i);
    }
    KeptDirs(s, s');
  }

  lemma KeptDirs(s: Spaces, s': Spaces)
    requires s.Inv() && s'.frames == s.frames && s'.boot == s.boot && s'.clones == s.clones && |s'.m| == |s.m|
    requires forall e: nat, i: nat {:trigger s'.Pde(e, i)} :: s.IsDir(e) && i < ENTRIES ==> s'.Pde(e, i) == s.Pde(e, i)
    ensures s'.Inv()
  {
    hide Word;
    forall e: nat | s'.IsDir(e)
      ensures s'.DirOk(e)
    {
      assert s.IsDir(e) && s.DirOk(e);
    }
    forall e: nat, i: nat | s'.IsDir(e) && i < ENTRIES
      ensures s'.TableOk(e, i)
    {
      assert s.TableOk(e, i) && s'.Pde(e, i) == s.Pde(e, i);
    }
    forall e: nat, i: nat, g: nat, j: nat | s'.IsDir(e) && s'.IsDir(g) && i < ENTRIES && j < ENTRIES
      ensures s'.SharedOk(e, i, g, j)
    {
      assert s.SharedOk(e, i, g, j) && s'.Pde(e, i) == s.Pde(e, i) && s'.Pde(g, j) == s.Pde(g, j);
      assert s'.Pde(s.boot, i) == s.Pde(s.boot, i);
    }
  }

  lemma NewTableInv(s: Spaces, d: nat, v: nat, phys: nat, flags: nat)
    requires s.Inv() && s.IsDir(d) && v < PAGES && !Present(s.Pde(d, v / ENTRIES)) && Pmm.Alloc(s.frames).1 != 0
    ensures MapPage(s, d, v, phys, flags).0.Inv()
  {
    var a := Pmm.Alloc(s.frames).1;
    var s' := MapPage(s, d, v, phys, flags).0;
    NewFrame(s);
    assert s.DirOk(d);
    forall e: nat, i: nat | s.IsDir(e) && i < ENTRIES
      ensures s'.Pde(e, i) == if e == d && i == v / ENTRIES then Entry(a, 3) else s.Pde(e, i)
    {
      NewTableWords(s, a / PAGE, d, v, Entry(a, 3), Entry(phys, flags), e, i);
    }
    EntryParts(a, 3);
    hide Word, WithWord, ZeroFrame, Entry, Pmm.Alloc, Pmm.Frames.Used;
    NewSlotInv(s, s', d, v / ENTRIES, a / PAGE, Entry(a, 3));
  }

  lemma NewSlotInv(s: Spaces, s': Spaces, d: nat, slot: nat, t: nat, pde: nat)
    requires s.Inv() && s.IsDir(d) && slot < ENTRIES && !Present(s.Pde(d, slot))
    requires s'.boot == s.boot && s'.clones == s.clones && |s'.m| == |s.m|
    requires s'.frames.Wf() && s'.frames.count == s.frames.count && s.InRam(t) && !s.IsDir(t)
    requires forall q: nat {:trigger s'.frames.Used(q)} :: s'.frames.Used(q) <==> s.frames.Used(q) || q == t
    requires Present(pde) && Target(pde) == t
    requires forall e: nat, i: nat {:trigger s.Pde(e, i)} ::
               s.IsDir(e) && i < ENTRIES && Present(s.Pde(e, i)) ==> Target(s.Pde(e, i)) != t
    requires forall e: nat, i: nat {:trigger s'.Pde(e, i)} :: s.IsDir(e) && i < ENTRIES ==>
               s'.Pde(e, i) == if e == d && i == slot then pde else s.Pde(e, i)
    ensures s'.Inv()
  {
    hide Word, Pmm.Frames.Used, Present, Target;
    forall e: nat | s'.IsDir(e)
      ensures s'.DirOk(e)
    {
      assert s.IsDir(e) && s.DirOk(e);
    }
    forall e: nat, i: nat | s'.IsDir(e) && i < ENTRIES
      ensures s'.TableOk(e, i)
    {
      assert s.TableOk(e, i) && (s'.Pde(e, i) == s.Pde(e, i) || s'.Pde(e, i) == pde);
    }
    forall e: nat, i: nat, g: nat, j: nat | s'.IsDir(e) && s'.IsDir(g) && i < ENTRIES && j < ENTRIES
      ensures s'.SharedOk(e, i, g, j)
    {
      assert s.SharedOk(e, i, g, j);
      assert s'.Pde(e, i) == if e == d && i == slot then pde else s.Pde(e, i);
      assert s'.Pde(g, j) == if g == d && j == slot then pde else s.Pde(g, j);
      assert s'.Pde(s.boot, i) == if s.boot == d && i == slot then pde else s.Pde(s.boot, i);
    }
  }

  // ---------------------------------------------------------------- cloning

  /** A clone translates as boot_pd does, and no other directory's translation changes. */
  lemma CloneOk(s: Spaces)
    requires s.Inv()
    ensures
      var (s', n) := CloneKernelPd(s);
      && s'.Inv()
      && (n == 0 <==> Pmm.Alloc(s.frames).1 == 0)
      && (n == 0 ==> s' == s)
      && (n != 0 ==>
            && n / PAGE !in s.clones && s'.clones == s.clones + {n / PAGE} && !s.IsDir(n / PAGE)
            && (forall v: nat {:trigger Fetch(s'.m, n / PAGE, v)} :: v < PAGES ==>
                  Fetch(s'.m, n / PAGE, v) == Fetch(s.m, s.boot, v))
            && (forall e: nat, v: nat {:trigger Fetch(s'.m, e, v)} :: s.IsDir(e) && v < PAGES ==>
                  Fetch(s'.m, e, v) == Fetch(s.m, e, v)))
  {
    Pmm.AllocOk(s.frames);
    var (s', a) := CloneKernelPd(s);
    if a != 0 {
      NewFrame(s);
      var n := a / PAGE;
      forall e: nat, v: nat | (s.IsDir(e) || e == n) && v < PAGES
        ensures Fetch(s'.m, e, v) == Fetch(s.m, if e == n then s.boot else e, v)
      {
        CloneFetch(s, s', n, e, v);
      }
      forall e: nat, i: nat | (s.IsDir(e) || e == n) && i < ENTRIES
        ensures s'.Pde(e, i) == s.Pde(if e == n then s.boot else e, i)
      {
        WordCopy(s.m, s.boot, n, e, i);
      }
      hide Word, CopyFrame, Pmm.Alloc, Pmm.Frames.Used;
      CloneInv(s, s', n);
    }
  }

  lemma CloneFetch(s: Spaces, s': Spaces, n: nat, e: nat, v: nat)
    requires s.Inv() && (n + 1) * ENTRIES <= |s.m| && !s.IsDir(n) && (s.IsDir(e) || e == n) && v < PAGES
    requires s'.m == CopyFrame(s.m, s.boot, n)
    requires forall d: nat, i: nat {:trigger s.Pde(d, i)} ::
               s.IsDir(d) && i < ENTRIES && Present(s.Pde(d, i)) ==> Target(s.Pde(d, i)) != n
    ensures Fetch(s'.m, e, v) == Fetch(s.m, if e == n then s.boot else e, v)
  {
    var d := if e == n then s.boot else e;
    WordCopy(s.m, s.boot, n, e, v / ENTRIES);
    var t := Target(s.Pde(d, v / ENTRIES));
    WordCopy(s.m, s.boot, n, t, v % ENTRIES);
  }

  lemma CloneInv(s: Spaces, s': Spaces, n: nat)
    requires s.Inv() && !s.IsDir(n) && s.InRam(n)
    requires s'.boot == s.boot && s'.clones == s.clones + {n} && |s'.m| == |s.m|
    requires s'.frames.Wf() && s'.frames.count == s.frames.count
    requires forall q: nat {:trigger s'.frames.Used(q)} :: s'.frames.Used(q) <==> s.frames.Used(q) || q == n
    requires forall d: nat, i: nat {:trigger s.Pde(d, i)} ::
               s.IsDir(d) && i < ENTRIES && Present(s.Pde(d, i)) ==> Target(s.Pde(d, i)) != n
    requires forall e: nat, i: nat {:trigger s'.Pde(e, i)} :: (s.IsDir(e) || e == n) && i < ENTRIES ==>
               s'.Pde(e, i) == s.Pde(if e == n then s.boot else e, i)
    ensures s'.Inv()
  {
    hide Word, Pmm.Frames.Used, Present, Target;
    forall e: nat | s'.IsDir(e)
      ensures s'.DirOk(e)
    {
      if e != n {
        assert s.IsDir(e) && s.DirOk(e);
      }
    }
    forall e: nat, i: nat | s'.IsDir(e) && i < ENTRIES
      ensures s'.TableOk(e, i)
    {
      var d := if e == n then s.boot else e;
      assert s.TableOk(d, i) && s'.Pde(e, i) == s.Pde(d, i);
    }
    forall e: nat, i: nat, g: nat, j: nat | s'.IsDir(e) && s'.IsDir(g) && i < ENTRIES && j < ENTRIES
      ensures s'.SharedOk(e, i, g, j)
    {
      var d, c := if e == n then s.boot else e, if g == n then s.boot else g;
      assert s.SharedOk(d, i, c, j);
      assert s'.Pde(e, i) == s.Pde(d, i) && s'.Pde(g, j) == s.Pde(c, j) && s'.Pde(s.boot, i) == s.Pde(s.boot, i);
    }
  }

  /** A new clone shares every table that boot_pd has, so that a mapping made in it under such a slot
      is one in boot_pd as well. */
  lemma CloneShares(s: Spaces, v: nat, phys: nat, flags: nat)
    requires s.Inv() && CloneKernelPd(s).1 != 0 && v < PAGES && Present(s.Pde(s.boot, v / ENTRIES))
    ensures
      var (s', n) := CloneKernelPd(s);
      && s'.Share(n / PAGE, s.boot, v / ENTRIES)
      && MapPage(s', n / PAGE, v, phys, flags).1
      && Fetch(MapPage(s', n / PAGE, v, phys, flags).0.m, s.boot, v) == Leaf(Entry(phys, flags))
  {
    var (s', a) := CloneKernelPd(s);
    NewFrame(s);
    WordCopy(s.m, s.boot, a / PAGE, s.boot, v / ENTRIES);
    WordCopy(s.m, s.boot, a / PAGE, a / PAGE, v / ENTRIES);
    CloneOk(s);
    hide Fetch, MapPage, Entry, Leaf, CopyFrame, Word;
    MapPageOk(s', a / PAGE, v, phys, flags);
  }
}
