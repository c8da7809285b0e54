/** arch/i386/paging.c and kernel/proc.c, on physical memory and the bitmap allocator. */
module PagingCode {
  import opened Wrappers
  import Pmm
  import opened PageTables
  import opened Brk

  const W32 := 0x1_0000_0000
  const MAX_ID_PT := 128

  // ---------------------------------------------------------------- the identity map

  /** paging_identity_init's page count and table count, as 32-bit arithmetic gives them. */
  function Pfns(maxPfn: nat): nat {
    (maxPfn + 1) % W32
  }

  function Tables(maxPfn: nat): nat {
    (Pfns(maxPfn) + ENTRIES - 1) % W32 / ENTRIES
  }

  /** The directory translates exactly the pages below `n`, each to the frame of its own number. */
  ghost predicate Identity(m: seq<nat>, d: nat, n: nat) {
    forall v: nat {:trigger Fetch(m, d, v)} :: v < PAGES ==>
      Fetch(m, d, v) == if v < n then Some(Entry(v * PAGE, 3)) else None
  }

  /** On its whole 32-bit domain: the map is built and is the identity exactly for max_pfn below 131072;
      for the last 1024 values of max_pfn the arithmetic wraps, the call succeeds and maps nothing. */
  lemma IdentityDomain(maxPfn: nat)
    requires maxPfn < W32
    ensures Tables(maxPfn) <= MAX_ID_PT <==> maxPfn + 1 <= 131072 || maxPfn >= W32 - 1024
    ensures maxPfn >= W32 - 1024 ==> Tables(maxPfn) == 0
    ensures maxPfn + 1 <= 131072 ==> Pfns(maxPfn) == maxPfn + 1 <= Tables(maxPfn) * ENTRIES
  {
  }

  datatype Verdict = Yes | No | Diverges

  /** The leaf entry of page `v` lets user code read, or with `write` also write. */
  predicate UserPage(m: seq<nat>, d: nat, v: nat, write: bool) {
    var e := Fetch(m, d, v);
    e.Some? && User(e.value) && (write ==> Writable(e.value))
  }

  class Machine {
    const ram: array<nat>          // 32-bit words, 1024 a frame
    const pmm: Pmm.Allocator
    const boot: nat                // frame of boot_pd
    const bootPt: nat              // frame of boot_pt[0]; the tables are consecutive
    var pdPhys: nat                // g_cur.pd_phys
    var brk: nat                   // g_brk
    ghost var clones: set<nat>

    ghost function View(): Spaces
      reads this, ram, pmm, pmm.mem
    {
      Spaces(ram[..], pmm.View(), boot, clones)
    }

    /** Page tables and the allocator's bitmap are separate memory. */
    ghost predicate Wired()
      reads this, pmm
    {
      ram as object != pmm.mem as object
    }

    ghost predicate Valid()
      reads this, ram, pmm, pmm.mem
    {
      Wired() && pmm.Valid() && View().Inv()
    }

    ghost function ProcView(): Proc
      reads this, ram, pmm, pmm.mem
    {
      Proc(View(), pdPhys, brk)
    }

    constructor (ram: array<nat>, pmm: Pmm.Allocator, boot: nat, bootPt: nat)
      ensures this.ram == ram && this.pmm == pmm && this.boot == boot && this.bootPt == bootPt
      ensures clones == {} && pdPhys == 0 && brk == 0
    {
      this.ram, this.pmm, this.boot, this.bootPt := ram, pmm, boot, bootPt;
      clones, pdPhys, brk := {}, 0, 0;
    }

    /** paging_identity_init.  The static tables lie in frames that the allocator counts as in use. */
    method IdentityInit(maxPfn: nat) returns (ok: bool)
      requires maxPfn < W32 && clones == {} && Wired()
      requires pmm.Valid() && ram.Length <= ENTRIES * PAGES && !(bootPt <= boot < bootPt + MAX_ID_PT)
      requires (boot + 1) * ENTRIES <= ram.Length && (bootPt + MAX_ID_PT) * ENTRIES <= ram.Length
      requires forall f: nat {:trigger pmm.View().Used(f)} :: !pmm.View().Used(f) ==> (f + 1) * ENTRIES <= ram.Length
      requires forall f: nat {:trigger pmm.View().Used(f)} ::
                 f == boot || bootPt <= f < bootPt + MAX_ID_PT ==> pmm.View().Used(f)
      modifies ram
      ensures ok <==> Tables(maxPfn) <= MAX_ID_PT
      ensures !ok ==> ram[..] == old(ram[..])
      ensures ok ==> Valid()
      ensures ok && maxPfn + 1 <= 131072 ==> Identity(ram[..], boot, maxPfn + 1)
      ensures ok && maxPfn + 1 > 131072 ==> Identity(ram[..], boot, 0)
      ensures ok ==> forall k: nat {:trigger Word(ram[..], boot, k)} :: k < ENTRIES ==>
        Word(ram[..], boot, k) == 0 || Word(ram[..], boot, k) % 4096 == 3
    {
      hide Pmm.Allocator.View;
      ghost var frames := pmm.View();
      IdentityDomain(maxPfn);
      var pfns := (maxPfn + 1) % W32;
      var nPt := (pfns + ENTRIES - 1) % W32 / ENTRIES;
      if nPt > MAX_ID_PT {
        return false;
      }
      var i := 0;
      while i < ENTRIES
        invariant i <= ENTRIES && pmm.View() == frames
        invariant forall k: nat {:trigger Word(ram[..], boot, k)} :: k < i ==> Word(ram[..], boot, k) == 0
      {
        SetWord(boot, i, 0);
        i := i + 1;
      }
      var ti := 0;
      while ti < nPt
        invariant ti <= nPt && pmm.View() == frames
        invariant forall k: nat {:trigger Word(ram[..], boot, k)} :: k < ENTRIES ==>
          Word(ram[..], boot, k) == if k < ti then Entry((bootPt + k) * PAGE, 3) else 0
        invariant forall k: nat, j: nat {:trigger Filled(ram[..], bootPt, k, j, pfns)} :: k < ti && j < ENTRIES ==>
          Filled(ram[..], bootPt, k, j, pfns)
      {
        ghost var m0 := ram[..];
        SetWord(boot, ti, Entry((bootPt + ti) * PAGE, 3));
        KeepFilled(m0, ram[..], bootPt, pfns, boot, ti);
        var pi := 0;
        while pi < ENTRIES
          invariant pi <= ENTRIES && pmm.View() == frames
          invariant forall k: nat {:trigger Word(ram[..], boot, k)} :: k < ENTRIES ==>
            Word(ram[..], boot, k) == if k < ti + 1 then Entry((bootPt + k) * PAGE, 3) else 0
          invariant forall k: nat, j: nat {:trigger Filled(ram[..], bootPt, k, j, pfns)} ::
            (k < ti && j < ENTRIES) || (k == ti && j < pi) ==> Filled(ram[..], bootPt, k, j, pfns)
        {
          var pfn := ti * ENTRIES + pi;
          ghost var m1 := ram[..];
          SetWord(bootPt + ti, pi, IdentityWord(pfn, pfns));
          KeepFilled(m1, ram[..], bootPt, pfns, bootPt + ti, pi);
          pi := pi + 1;
        }
        ti := ti + 1;
      }
      assert pmm.View() == frames;
      forall k: nat | k < ENTRIES
        ensures Word(ram[..], boot, k) == 0 || Word(ram[..], boot, k) % 4096 == 3
      {
        EntryParts((bootPt + k) * PAGE, 3);
      }
      IdentityBuilt(View(), bootPt, nPt, pfns);
      return true;
    }

    /** One 32-bit store. */
    method SetWord(f: nat, i: nat, v: nat)
      requires Wired() && i < ENTRIES && (f + 1) * ENTRIES <= ram.Length
      modifies ram
      ensures Wired() && pmm.View() == old(pmm.View())
      ensures ram[..] == WithWord(old(ram[..]), f, i, v)
      ensures forall g: nat, j: nat {:trigger Word(ram[..], g, j)} ::
        Word(ram[..], g, j) == if g == f && j == i then v else Word(old(ram[..]), g, j)
    {
      forall g: nat, j: nat
        ensures Word(WithWord(ram[..], f, i, v), g, j) == if g == f && j == i then v else Word(ram[..], g, j)
      {
        WordOf(ram[..], f, i, v, g, j);
      }
      ram[f * ENTRIES + i] := v;
    }

    method GetWord(f: nat, i: nat) returns (v: nat)
      requires i < ENTRIES
      ensures v == Word(ram[..], f, i)
    {
      v := if f * ENTRIES + i < ram.Length then ram[f * ENTRIES + i] else 0;
    }

    /** pte_fetch_pd, for a directory's frame and a virtual page. */
    method PteFetch(d: nat, v: nat) returns (e: Option<nat>)
      requires v < PAGES
      ensures e == Fetch(ram[..], d, v)
    {
      var pde := GetWord(d, v / ENTRIES);
      if pde % 2 == 0 {
        return None;
      }
      var pte := GetWord(pde / PAGE, v % ENTRIES);
      if pte % 2 == 0 {
        return None;
      }
      return Some(pte);
    }

    /** paging_clone_kernel_pd; 0 for failure. */
    method CloneKernelPd() returns (n: nat)
      requires Valid()
      modifies this`clones, ram, pmm.mem
      ensures Valid() && (View(), n) == PageTables.CloneKernelPd(old(View()))
    {
      hide Pmm.Allocator.View;
      ghost var s0 := View();
      PageTables.CloneOk(s0);
      assert s0.IsDir(boot) && s0.DirOk(boot);
      if Pmm.Alloc(s0.frames).1 != 0 {
        NewFrame(s0);
      }
      hide PageTables.Spaces.Inv, Pmm.Alloc, Word, CopyFrame;
      n := pmm.AllocFrame();
      if n == 0 {
        return;
      }
      CopyPd(n / PAGE);
      clones := clones + {n / PAGE};
    }

    /** The loop that copies boot_pd. */
    method CopyPd(dst: nat)
      requires Wired() && (dst + 1) * ENTRIES <= ram.Length && (boot + 1) * ENTRIES <= ram.Length && dst != boot
      modifies ram
      ensures Wired() && pmm.View() == old(pmm.View())
      ensures ram[..] == CopyFrame(old(ram[..]), boot, dst)
    {
      ghost var m := ram[..];
      var i := 0;
      while i < ENTRIES
        invariant i <= ENTRIES && Wired() && pmm.View() == old(pmm.View())
        invariant forall x: nat {:trigger ram[x]} :: x < ram.Length ==>
          ram[x] == if dst * ENTRIES <= x < dst * ENTRIES + i then m[boot * ENTRIES + (x - dst * ENTRIES)] else m[x]
      {
        ram[dst * ENTRIES + i] := ram[boot * ENTRIES + i];
        i := i + 1;
      }
      forall x: nat | x < ram.Length
        ensures ram[x] == CopyFrame(m, boot, dst)[x]
      {
        assert x / ENTRIES == dst <==> dst * ENTRIES <= x < dst * ENTRIES + ENTRIES;
      }
    }

    /** The loop that clears a new table. */
    method ClearTable(t: nat)
      requires Wired() && (t + 1) * ENTRIES <= ram.Length
      modifies ram
      ensures Wired() && pmm.View() == old(pmm.View())
      ensures ram[..] == ZeroFrame(old(ram[..]), t)
    {
      ghost var m := ram[..];
      var j := 0;
      while j < ENTRIES
        invariant j <= ENTRIES && Wired() && pmm.View() == old(pmm.View())
        invariant forall x: nat {:trigger ram[x]} :: x < ram.Length ==>
          ram[x] == if t * ENTRIES <= x < t * ENTRIES + j then 0 else m[x]
      {
        ram[t * ENTRIES + j] := 0;
        j := j + 1;
      }
      forall x: nat | x < ram.Length
        ensures ram[x] == ZeroFrame(m, t)[x]
      {
        assert x / ENTRIES == t <==> t * ENTRIES <= x < t * ENTRIES + ENTRIES;
      }
    }

    /** paging_map_page, in the directory whose frame is `d`. */
    method MapPage(d: nat, v: nat, phys: nat, flags: nat) returns (ok: bool)
      requires Valid() && View().IsDir(d) && v < PAGES
      modifies ram, pmm.mem
      ensures Valid() && (View(), ok) == PageTables.MapPage(old(View()), d, v, phys, flags)
    {
      hide Pmm.Allocator.View;
      ghost var s0 := View();
      MapPageInv(s0, d, v, phys, flags);
      assert s0.DirOk(d) && s0.TableOk(d, v / ENTRIES);
      if Pmm.Alloc(s0.frames).1 != 0 {
        NewFrame(s0);
      }
      hide PageTables.Spaces.Inv, Pmm.Alloc, WithWord, ZeroFrame, Entry;
      var pde := GetWord(d, v / ENTRIES);
      if pde % 2 == 0 {
        var a := pmm.AllocFrame();
        if a == 0 {
          return false;
        }
        ClearTable(a / PAGE);
        SetWord(d, v / ENTRIES, Entry(a, 3));
        SetWord(a / PAGE, v % ENTRIES, Entry(phys, flags));
      } else {
        SetWord(pde / PAGE, v % ENTRIES, Entry(phys, flags));
      }
      return true;
    }

    /** paging_user_range_ok on the directory at frame `d`, for a 32-bit address and length.  Diverges
        stands for the loop that never ends: its page number has wrapped to where it began, nothing has
        changed, and the guard can never fail. */
    method UserRangeOk(d: nat, va: nat, len: nat, write: bool) returns (r: Verdict)
      requires va < W32 && len < W32
      ensures len == 0 ==> r == Yes
      ensures len > 0 && va + len >= W32 ==> r == No
      ensures len > 0 && va + len < W32 && (va + len - 1) / PAGE < PAGES - 1 ==>
        r == if forall x: nat {:trigger UserPage(ram[..], d, x / PAGE, write)} ::
                  va <= x < va + len ==> UserPage(ram[..], d, x / PAGE, write) then Yes else No
      ensures len > 0 && va + len < W32 && (va + len - 1) / PAGE == PAGES - 1 ==>
        r == if forall v: nat {:trigger UserPage(ram[..], d, v, write)} ::
                  v < PAGES ==> UserPage(ram[..], d, v, write) then Diverges else No
    {
      hide Fetch, UserPage, AllSeen;
      if len == 0 {
        return Yes;
      }
      var end := (va + len) % W32;
      if end < va || end == 0 {
        return No;
      }
      PagesOf(va, len);
      end := end - 1;
      var first, last := va / PAGE, end / PAGE;
      var p := first;
      ghost var n := 0;
      NoneSeen(ram[..], d, write, first);
      while p <= last
        invariant p < PAGES && n < PAGES && p == (first + n) % PAGES
        invariant last < PAGES - 1 ==> p == first + n <= last + 1
        invariant AllSeen(ram[..], d, write, first, n)
        decreases PAGES - n
      {
        var e := PteFetch(d, p);
        PageTest(ram[..], d, p, write);
        if e.None? || e.value / 4 % 2 == 0 || (write && e.value / 2 % 2 == 0) {
          if last < PAGES - 1 {
            ghost var x := ByteOf(va, len, p);
          }
          return No;
        }
        OneMoreSeen(ram[..], d, write, first, n);
        p := (p + 1) % PAGES;
        n := n + 1;
        if p == first {
          RoundSeen(ram[..], d, write, first, n);
          return Diverges;
        }
      }
      RangeSeen(ram[..], d, write, first, n);
      return Yes;
    }

    // -------------------------------------------------------------- kernel/proc.c

    /** verve_proc_init_singleton */
    method InitSingleton()
      requires Valid()
      modifies this`clones, this`pdPhys, this`brk, ram, pmm.mem
      ensures Valid() && Brk.Inv(ProcView())
      ensures var (s, n) := PageTables.CloneKernelPd(old(View())); ProcView() == Proc(s, n, HEAP_BASE)
    {
      InitOk(View());
      var pd := CloneKernelPd();
      pdPhys := pd;
      brk := HEAP_BASE;
    }

    /** verve_proc_exec_reset_brk */
    method ExecResetBrk()
      modifies this`brk
      ensures ProcView() == ResetBrk(old(ProcView()))
    {
      brk := HEAP_BASE;
    }

    /** verve_proc_sys_brk */
    method SysBrk(addr: nat) returns (r: int)
      requires Valid() && Brk.Inv(ProcView())
      modifies this`brk, ram, pmm.mem
      ensures Valid() && Brk.Inv(ProcView())
      ensures (ProcView(), r) == Brk.SysBrk(old(ProcView()), addr)
    {
      hide Brk.Inv, PageTables.Spaces.Inv, Brk.SysBrk, Grow, Pages, Pmm.Allocator.View, Left, Cost;
      ghost var p0 := ProcView();
      SysBrkOk(p0, addr);
      Answers(p0, addr);
      var pd, cur := pdPhys, brk;
      if pd == 0 {
        return ENOMEM;
      }
      if addr == 0 {
        return AsInt32(cur);
      }
      if addr % PAGE != 0 {
        return EINVAL;
      }
      if addr < HEAP_BASE || addr >= HEAP_CAP {
        return EINVAL;
      }
      if addr < cur {
        return EINVAL;
      }
      if addr == cur {
        return AsInt32(cur);
      }
      var ok := GrowLoop(pd / PAGE, cur, addr);
      if !ok {
        return ENOMEM;
      }
      brk := addr;
      return AsInt32(addr);
    }

    /** The loop of sys_brk that allocates and maps page by page. */
    method GrowLoop(d: nat, cur: nat, addr: nat) returns (ok: bool)
      requires Valid() && View().IsDir(d) && cur % PAGE == 0 && addr % PAGE == 0 && cur < addr < HEAP_CAP
      modifies ram, pmm.mem
      ensures Valid() && (View(), ok) == Grow(old(View()), d, cur / PAGE, addr / PAGE)
    {
      hide PageTables.Spaces.Inv, PageTables.MapPage, Pmm.Alloc, Pmm.Release, Pmm.Allocator.View;
      ghost var s0 := View();
      var va := cur;
      while va < addr
        invariant cur <= va <= addr && va % PAGE == 0
        invariant Valid() && View().IsDir(d) && View().boot == s0.boot && View().clones == s0.clones
        invariant Grow(s0, d, cur / PAGE, addr / PAGE) == Grow(View(), d, va / PAGE, addr / PAGE)
      {
        ghost var s1 := View();
        FrameTaken(s1, d, va / PAGE);
        var frame := pmm.AllocFrame();
        if frame == 0 {
          return false;
        }
        var mapped := MapPage(d, va / PAGE, frame, RWU);
        if !mapped {
          pmm.FreeFrame(frame);
          return false;
        }
        va := va + PAGE;
      }
      return true;
    }
  }

  /** The cases of sys_brk, and what the one that grows may rely on. */
  lemma Answers(p: Proc, addr: nat)
    requires Brk.Inv(p)
    ensures p.pd == 0 ==> Brk.SysBrk(p, addr) == (p, ENOMEM)
    ensures p.pd != 0 && (addr == 0 || addr == p.brk) ==> Brk.SysBrk(p, addr) == (p, AsInt32(p.brk))
    ensures p.pd != 0 && addr != 0 && addr != p.brk ==>
      if addr % PAGE != 0 || addr < HEAP_BASE || addr >= HEAP_CAP || addr < p.brk then
        Brk.SysBrk(p, addr) == (p, EINVAL)
      else
        var (s', ok) := Grow(p.s, p.pd / PAGE, p.brk / PAGE, addr / PAGE);
        Brk.SysBrk(p, addr) == (p.(s := s', brk := if ok then addr else p.brk), if ok then AsInt32(addr) else ENOMEM)
    ensures p.brk % PAGE == 0 && HEAP_BASE <= p.brk < HEAP_CAP && (p.pd != 0 ==> p.s.IsDir(p.pd / PAGE))
  {
    hide Grow, Pages;
  }

  /** Allocating a frame keeps the page tables' invariant, and so does mapping it or giving it back. */
  lemma FrameTaken(s: Spaces, d: nat, v: nat)
    requires s.Inv() && s.IsDir(d) && v < PAGES
    ensures s.frames.Wf()
    ensures
      var (frames, a) := Pmm.Alloc(s.frames);
      var s1 := s.(frames := frames);
      && s1.Inv()
      && var (s2, ok) := PageTables.MapPage(s1, d, v, a, RWU);
         && s2.Inv() && s2.boot == s.boot && s2.clones == s.clones
         && (a != 0 && !ok ==> s2.(frames := Pmm.Release(s2.frames, a)).Inv())
  {
    var (frames, a) := Pmm.Alloc(s.frames);
    if a == 0 {
      Pmm.AllocOk(s.frames);
      assert s.(frames := frames) == s;
      MapPageInv(s, d, v, a, RWU);
    } else {
      GrowStep(s, d, v);
    }
  }

  /** The pages of a range, which does not reach the last page, and the bytes on them. */
  lemma PagesOf(va: nat, len: nat)
    requires va < W32 && 0 < len < W32 && va + len < W32
    ensures va / PAGE <= (va + len - 1) / PAGE < PAGES
    ensures forall x: nat {:trigger x / PAGE} :: va <= x < va + len ==> va / PAGE <= x / PAGE <= (va + len - 1) / PAGE
  {
  }

  lemma ByteOf(va: nat, len: nat, p: nat) returns (x: nat)
    requires len > 0 && va / PAGE <= p <= (va + len - 1) / PAGE
    ensures va <= x < va + len && x / PAGE == p
  {
    x := if p * PAGE < va then va else p * PAGE;
  }

  /** A memory of two frames in which paging_user_range_ok does not end for ranges that reach the last
      page: every slot of the directory names one table, and all its entries are the user's. */
  function EndlessTables(): seq<nat> {
    seq(ENTRIES, _ => Entry(PAGE, RWU)) + seq(ENTRIES, _ => Entry(0, RWU))
  }

  lemma Endless(v: nat, write: bool)
    requires v < PAGES
    ensures UserPage(EndlessTables(), 0, v, write)
  {
    EntryParts(PAGE, RWU);
    EntryParts(0, RWU);
    var m := EndlessTables();
    hide Entry;
    assert Word(m, 0, v / ENTRIES) == Entry(PAGE, RWU) && Word(m, 1, v % ENTRIES) == Entry(0, RWU);
  }

  /** A directory that still has the boot map's entry for page 0, as the kernel's own do, cannot reach
      that: page 0 is not the user's. */
  lemma BootPageZero(m: seq<nat>, d: nat, write: bool)
    requires Fetch(m, d, 0) == Some(Entry(0, 3))
    ensures !UserPage(m, d, 0, write)
  {
    EntryParts(0, 3);
  }

  /** Page `v` is among the first `n` that a walk from `first` visits, going round at the top. */
  predicate Seen(first: nat, n: nat, v: nat) {
    first <= v < first + n || v + PAGES < first + n
  }

  /** All the pages that the walk has visited are the user's. */
  ghost predicate AllSeen(m: seq<nat>, d: nat, write: bool, first: nat, n: nat) {
    forall v: nat {:trigger UserPage(m, d, v, write)} :: v < PAGES && Seen(first, n, v) ==> UserPage(m, d, v, write)
  }

  lemma NoneSeen(m: seq<nat>, d: nat, write: bool, first: nat)
    requires first < PAGES
    ensures AllSeen(m, d, write, first, 0)
  {
  }

  lemma OneMoreSeen(m: seq<nat>, d: nat, write: bool, first: nat, n: nat)
    requires first < PAGES && n < PAGES && AllSeen(m, d, write, first, n)
    requires UserPage(m, d, (first + n) % PAGES, write)
    ensures AllSeen(m, d, write, first, n + 1)
  {
    hide UserPage;
  }

  /** A walk that is back where it began has visited every page. */
  lemma RoundSeen(m: seq<nat>, d: nat, write: bool, first: nat, n: nat)
    requires first < PAGES && 0 < n <= PAGES && (first + n) % PAGES == first && AllSeen(m, d, write, first, n)
    ensures forall v: nat {:trigger UserPage(m, d, v, write)} :: v < PAGES ==> UserPage(m, d, v, write)
  {
    hide UserPage;
  }

  lemma RangeSeen(m: seq<nat>, d: nat, write: bool, first: nat, n: nat)
    requires AllSeen(m, d, write, first, n)
    ensures forall v: nat {:trigger UserPage(m, d, v, write)} ::
      first <= v < first + n && v < PAGES ==> UserPage(m, d, v, write)
  {
    hide UserPage;
  }

  /** The bits that the check looks at: present, user and, for writes, writable. */
  lemma LeafTest(m: seq<nat>, d: nat, v: nat, phys: nat, flags: nat, write: bool)
    requires Fetch(m, d, v) == Leaf(Entry(phys, flags))
    ensures UserPage(m, d, v, write) <==>
      flags % 2 == 1 && flags / 4 % 2 == 1 && (write ==> flags / 2 % 2 == 1)
  {
    EntryParts(phys, flags);
    hide Entry, Fetch;
  }

  lemma PageTest(m: seq<nat>, d: nat, v: nat, write: bool)
    ensures UserPage(m, d, v, write) <==>
      var e := Fetch(m, d, v); e.Some? && e.value / 4 % 2 == 1 && (write ==> e.value / 2 % 2 == 1)
  {
    hide Fetch;
  }

  function IdentityWord(pfn: nat, pfns: nat): nat {
    if pfn >= pfns then 0 else Entry(pfn * PAGE, 3)
  }

  /** Entry `j` of the k-th table holds what the loops put there. */
  predicate Filled(m: seq<nat>, bootPt: nat, k: nat, j: nat, pfns: nat) {
    Word(m, bootPt + k, j) == IdentityWord(k * ENTRIES + j, pfns)
  }

  lemma KeepFilled(m: seq<nat>, m': seq<nat>, bootPt: nat, pfns: nat, f: nat, i: nat)
    requires forall g: nat, j: nat {:trigger Word(m', g, j)} :: g != f || j != i ==> Word(m', g, j) == Word(m, g, j)
    ensures forall k: nat, j: nat {:trigger Filled(m', bootPt, k, j, pfns)} ::
      Filled(m, bootPt, k, j, pfns) && (bootPt + k != f || j != i) ==> Filled(m', bootPt, k, j, pfns)
  {
  }

  /** The tables that the two loops fill translate identically. */
  lemma IdentityBuilt(s: Spaces, bootPt: nat, nPt: nat, pfns: nat)
    requires s.frames.Wf() && |s.m| <= ENTRIES * PAGES && s.clones == {} && nPt <= MAX_ID_PT
    requires s.InRam(s.boot) && (bootPt + MAX_ID_PT) * ENTRIES <= |s.m|
    requires forall f: nat {:trigger s.frames.Used(f)} :: !s.frames.Used(f) ==> s.InRam(f)
    requires !(bootPt <= s.boot < bootPt + MAX_ID_PT)
    requires pfns <= nPt * ENTRIES || nPt == 0
    requires forall f: nat {:trigger s.frames.Used(f)} ::
               f == s.boot || bootPt <= f < bootPt + MAX_ID_PT ==> s.frames.Used(f)
    requires forall k: nat {:trigger Word(s.m, s.boot, k)} :: k < ENTRIES ==>
               Word(s.m, s.boot, k) == if k < nPt then Entry((bootPt + k) * PAGE, 3) else 0
    requires forall k: nat, j: nat {:trigger Filled(s.m, bootPt, k, j, pfns)} :: k < nPt && j < ENTRIES ==>
               Filled(s.m, bootPt, k, j, pfns)
    ensures s.Inv()
    ensures Identity(s.m, s.boot, if nPt == 0 then 0 else pfns)
  {
    forall k: nat | k < ENTRIES
      ensures s.Pde(s.boot, k) == if k < nPt then Entry((bootPt + k) * PAGE, 3) else 0
      ensures Present(s.Pde(s.boot, k)) <==> k < nPt
      ensures k < nPt ==> Target(s.Pde(s.boot, k)) == bootPt + k
    {
      EntryParts((bootPt + k) * PAGE, 3);
    }
    hide Entry, Pmm.Frames.Used, Word;
    forall d: nat, i: nat | s.IsDir(d) && i < ENTRIES
      ensures s.TableOk(d, i)
    {
      assert s.Pde(s.boot, i) == s.Pde(d, i);
      assert i < nPt ==> s.frames.Used(bootPt + i);
    }
    forall d: nat, i: nat, e: nat, j: nat | s.IsDir(d) && s.IsDir(e) && i < ENTRIES && j < ENTRIES
      ensures s.SharedOk(d, i, e, j)
    {
      assert s.Pde(s.boot, i) == s.Pde(d, i) && s.Pde(s.boot, j) == s.Pde(e, j);
    }
    forall v: nat | v < PAGES
      ensures Fetch(s.m, s.boot, v) == if v < (if nPt == 0 then 0 else pfns) then Some(Entry(v * PAGE, 3)) else None
    {
      var k, j := v / ENTRIES, v % ENTRIES;
      assert s.Pde(s.boot, k) == Word(s.m, s.boot, k);
      assert k * ENTRIES + j == v;
      if k < nPt {
        assert Filled(s.m, bootPt, k, j, pfns);
        EntryParts(v * PAGE, 3);
      }
    }
  }
}
