/** arch/x86_64/paging_amd64.c: the boot identity map of four-level tables with 2 MiB pages, and the
    hardware's walk of it (Intel SDM volume 3A, section 4.5). */
module Paging64 {
  import opened Wrappers

  const ENTRIES := 512
  const PAGE := 4096
  const PAGE_2M := 0x20_0000
  const MAX_PD := 64
  const PAGES := 0x800_0000      // 2^27 pages of 2 MiB in a 48-bit address space
  const TABLE := 3               // present, writable
  const LEAF := 0x83             // present, writable, page size

  function Word(m: seq<nat>, f: nat, i: nat): nat {
    if i < ENTRIES && f * ENTRIES + i < |m| then m[f * ENTRIES + i] else 0
  }

  predicate Present(e: nat) {
    e % 2 == 1
  }

  predicate Large(e: nat) {
    e / 128 % 2 == 1
  }

  /** The leaf that the walk from table `p4` reaches for 2 MiB page `g`. */
  function Walk(m: seq<nat>, p4: nat, g: nat): Option<nat> {
    var e4 := Word(m, p4, g / (ENTRIES * ENTRIES));
    if !Present(e4) then None else
    var e3 := Word(m, e4 / PAGE, g / ENTRIES % ENTRIES);
    if !Present(e3) || Large(e3) then None else
    var e2 := Word(m, e3 / PAGE, g % ENTRIES);
    if !Present(e2) || !Large(e2) then None else Some(e2)
  }

  /** The three entries on the way to page `g` allow writes. */
  predicate WritablePath(m: seq<nat>, p4: nat, g: nat) {
    var e4 := Word(m, p4, g / (ENTRIES * ENTRIES));
    var e3 := Word(m, e4 / PAGE, g / ENTRIES % ENTRIES);
    var e2 := Word(m, e3 / PAGE, g % ENTRIES);
    e4 / 2 % 2 == 1 && e3 / 2 % 2 == 1 && e2 / 2 % 2 == 1
  }

  /** The 2 MiB pages that have a byte below `span`. */
  function Pages2M(span: nat): nat {
    (span + PAGE_2M - 1) / PAGE_2M
  }

  lemma CoversSpan(span: nat, g: nat)
    ensures g < Pages2M(span) <==> g * PAGE_2M < span
  {
  }

  /** Entry `j` of directory `k`. */
  function Leaf(n: nat, k: nat, j: nat): nat {
    var g := k * ENTRIES + j;
    if g < n then g * PAGE_2M + LEAF else 0
  }

  predicate Filled(m: seq<nat>, pd: nat, k: nat, j: nat, n: nat) {
    Word(m, pd + k, j) == Leaf(n, k, j)
  }

  lemma TableEntry(f: nat)
    ensures Present(f * PAGE + TABLE) && !Large(f * PAGE + TABLE) && (f * PAGE + TABLE) / PAGE == f
    ensures (f * PAGE + TABLE) / 2 % 2 == 1
  {
    var x := f * 32;
    assert (f * PAGE + TABLE) / 128 == x;
    assert x == 2 * (f * 16);
  }

  lemma LeafEntry(g: nat)
    ensures Present(g * PAGE_2M + LEAF) && Large(g * PAGE_2M + LEAF) && (g * PAGE_2M + LEAF) / 2 % 2 == 1
  {
    EntryBits(g * 16384 + 1);
    Odd(g * 8192);
    hide Present, Large;
    assert g * PAGE_2M + LEAF == 128 * (g * 16384 + 1) + TABLE;
    assert g * 16384 + 1 == 2 * (g * 8192) + 1;
    Odd(g * 524288 + 32);
    assert g * PAGE_2M + LEAF == 4 * (g * 524288 + 32) + 3;
  }

  lemma EntryBits(q: nat)
    ensures Present(128 * q + TABLE) && (128 * q + TABLE) / 128 == q
  {
    Odd(64 * q + 1);
    assert 128 * q + TABLE == 2 * (64 * q + 1) + 1;
  }

  lemma Odd(h: nat)
    ensures (2 * h + 1) % 2 == 1
  {
  }

  /** The three levels translate exactly the first `n` pages, each to itself. */
  lemma Built(m: seq<nat>, p4: nat, p3: nat, pd: nat, n: nat)
    requires 0 < n <= MAX_PD * ENTRIES
    requires forall i: nat {:trigger Word(m, p4, i)} ::
               i < ENTRIES ==> Word(m, p4, i) == if i == 0 then p3 * PAGE + TABLE else 0
    requires forall i: nat {:trigger Word(m, p3, i)} :: i < ENTRIES ==>
               Word(m, p3, i) == if i < (n + 511) / 512 then (pd + i) * PAGE + TABLE else 0
    requires forall k: nat, j: nat {:trigger Filled(m, pd, k, j, n)} ::
               k < MAX_PD && j < ENTRIES ==> Filled(m, pd, k, j, n)
    ensures forall g: nat {:trigger Walk(m, p4, g)} :: g < PAGES ==>
      && Walk(m, p4, g) == (if g < n then Some(g * PAGE_2M + LEAF) else None)
      && (g < n ==> WritablePath(m, p4, g))
  {
    hide Word;
    forall g: nat | g < PAGES
      ensures Walk(m, p4, g) == if g < n then Some(g * PAGE_2M + LEAF) else None
      ensures g < n ==> WritablePath(m, p4, g)
    {
      var i4, k, j := g / (ENTRIES * ENTRIES), g / ENTRIES % ENTRIES, g % ENTRIES;
      TableEntry(p3);
      TableEntry(pd + k);
      LeafEntry(g);
      assert Word(m, p4, i4) == if i4 == 0 then p3 * PAGE + TABLE else 0;
      if i4 == 0 {
        assert k * ENTRIES + j == g;
        assert Word(m, p3, k) == if k < (n + 511) / 512 then (pd + k) * PAGE + TABLE else 0;
        if k < (n + 511) / 512 {
          assert Filled(m, pd, k, j, n);
        }
      }
    }
  }

  class Tables {
    const ram: array<nat>     // 64-bit words, 512 a frame
    const p4: nat             // frame of boot_pml4
    const p3: nat             // frame of boot_pdpt
    const pd: nat             // frame of boot_pd[0]; the 64 directories are consecutive

    ghost predicate Valid() {
      && (p4 + 1) * ENTRIES <= ram.Length && (p3 + 1) * ENTRIES <= ram.Length && (pd + MAX_PD) * ENTRIES <= ram.Length
      && p4 != p3 && (p4 < pd || p4 >= pd + MAX_PD) && (p3 < pd || p3 >= pd + MAX_PD)
    }

    constructor (ram: array<nat>, p4: nat, p3: nat, pd: nat)
      ensures this.ram == ram && this.p4 == p4 && this.p3 == p3 && this.pd == pd
    {
      this.ram, this.p4, this.p3, this.pd := ram, p4, p3, pd;
    }

    method SetWord(f: nat, i: nat, v: nat)
      requires i < ENTRIES && (f + 1) * ENTRIES <= ram.Length
      modifies ram
      ensures forall g: nat, j: nat {:trigger Word(ram[..], g, j)} ::
        Word(ram[..], g, j) == if g == f && j == i then v else Word(old(ram[..]), g, j)
    {
      ram[f * ENTRIES + i] := v;
    }

    /** tbl_zero */
    method Zero(f: nat)
      requires (f + 1) * ENTRIES <= ram.Length
      modifies ram
      ensures forall g: nat, j: nat {:trigger Word(ram[..], g, j)} ::
        Word(ram[..], g, j) == if g == f then 0 else Word(old(ram[..]), g, j)
    {
      var i := 0;
      while i < ENTRIES
        invariant i <= ENTRIES
        invariant forall g: nat, j: nat {:trigger Word(ram[..], g, j)} ::
          Word(ram[..], g, j) == if g == f && j < i then 0 else Word(old(ram[..]), g, j)
      {
        SetWord(f, i, 0);
        i := i + 1;
      }
    }

    /** paging_amd64_identity_init: it succeeds exactly for spans up to 64 GiB, and then the walk is the
        identity on the 2 MiB pages that the span touches, and nothing else. */
    method IdentityInit(span: nat) returns (ok: bool)
      requires Valid()
      modifies ram
      ensures ok <==> 0 < span <= 64 * 1024 * 1024 * 1024
      ensures !ok ==> ram[..] == old(ram[..])
      ensures ok ==> forall g: nat {:trigger Walk(ram[..], p4, g)} :: g < PAGES ==>
        && Walk(ram[..], p4, g) == (if g * 0x20_0000 < span then Some(g * 0x20_0000 + 0x83) else None)
        && (g * 0x20_0000 < span ==> WritablePath(ram[..], p4, g))
    {
      if span == 0 || span > MAX_PD * (ENTRIES * PAGE_2M) {
        return false;
      }
      var n := (span + PAGE_2M - 1) / PAGE_2M;
      var nPd := (n + 511) / 512;
      if nPd == 0 || nPd > MAX_PD {
        return false;
      }
      hide Word, Leaf, Walk, WritablePath;
      Zero(p4);
      Zero(p3);
      var k := 0;
      while k < MAX_PD
        invariant k <= MAX_PD
        invariant forall i: nat {:trigger Word(ram[..], p4, i)} :: i < ENTRIES ==> Word(ram[..], p4, i) == 0
        invariant forall i: nat {:trigger Word(ram[..], p3, i)} :: i < ENTRIES ==> Word(ram[..], p3, i) == 0
        invariant forall f: nat, i: nat {:trigger Word(ram[..], f, i)} :: pd <= f < pd + k ==> Word(ram[..], f, i) == 0
      {
        Zero(pd + k);
        k := k + 1;
      }
      SetWord(p4, 0, p3 * PAGE + TABLE);
      k := 0;
      while k < nPd
        invariant k <= nPd
        invariant forall i: nat {:trigger Word(ram[..], p4, i)} :: i < ENTRIES ==>
          Word(ram[..], p4, i) == if i == 0 then p3 * PAGE + TABLE else 0
        invariant forall i: nat {:trigger Word(ram[..], p3, i)} :: i < ENTRIES ==>
          Word(ram[..], p3, i) == if i < k then (pd + i) * PAGE + TABLE else 0
        invariant forall f: nat, i: nat {:trigger Word(ram[..], f, i)} ::
          pd + k <= f < pd + MAX_PD ==> Word(ram[..], f, i) == 0
        invariant forall c: nat, i: nat {:trigger Filled(ram[..], pd, c, i, n)} ::
          c < k && i < ENTRIES ==> Filled(ram[..], pd, c, i, n)
      {
        ghost var m0 := ram[..];
        SetWord(p3, k, (pd + k) * PAGE + TABLE);
        Keep(m0, ram[..], pd, n, k);
        FillDirectory(k, n);
        k := k + 1;
      }
      Rest(ram[..], pd, n, nPd);
      Built(ram[..], p4, p3, pd, n);
      forall g: nat | g < PAGES
        ensures Walk(ram[..], p4, g) == if g * 0x20_0000 < span then Some(g * 0x20_0000 + 0x83) else None
        ensures g * 0x20_0000 < span ==> WritablePath(ram[..], p4, g)
      {
        CoversSpan(span, g);
      }
      return true;
    }

    /** The inner loop, which stops at the first page past the span. */
    method FillDirectory(k: nat, n: nat)
      requires Valid() && k < MAX_PD
      requires forall i: nat {:trigger Word(ram[..], pd + k, i)} :: Word(ram[..], pd + k, i) == 0
      modifies ram
      ensures forall f: nat, i: nat {:trigger Word(ram[..], f, i)} ::
        f != pd + k ==> Word(ram[..], f, i) == Word(old(ram[..]), f, i)
      ensures forall i: nat {:trigger Filled(ram[..], pd, k, i, n)} :: i < ENTRIES ==> Filled(ram[..], pd, k, i, n)
      ensures forall c: nat, i: nat {:trigger Filled(ram[..], pd, c, i, n)} ::
        c != k && Filled(old(ram[..]), pd, c, i, n) ==> Filled(ram[..], pd, c, i, n)
    {
      hide Word;
      var j := 0;
      while j < ENTRIES
        invariant j <= ENTRIES
        invariant forall f: nat, i: nat {:trigger Word(ram[..], f, i)} ::
          Word(ram[..], f, i) == if f == pd + k && i < j then Leaf(n, k, i) else Word(old(ram[..]), f, i)
      {
        var glob := k * ENTRIES + j;
        if glob >= n {
          break;
        }
        SetWord(pd + k, j, glob * PAGE_2M + LEAF);
        j := j + 1;
      }
    }
  }

  /** A store outside the directories keeps their entries. */
  lemma Keep(m: seq<nat>, m': seq<nat>, pd: nat, n: nat, k: nat)
    requires forall f: nat, i: nat {:trigger Word(m', f, i)} :: pd <= f < pd + k ==> Word(m', f, i) == Word(m, f, i)
    ensures forall c: nat, i: nat {:trigger Filled(m', pd, c, i, n)} ::
      c < k && Filled(m, pd, c, i, n) ==> Filled(m', pd, c, i, n)
  {
    hide Word;
  }

  /** Directories past the span stay empty, as they should. */
  lemma Rest(m: seq<nat>, pd: nat, n: nat, nPd: nat)
    requires nPd == (n + 511) / 512
    requires forall f: nat, i: nat {:trigger Word(m, f, i)} :: pd + nPd <= f < pd + MAX_PD ==> Word(m, f, i) == 0
    requires forall c: nat, i: nat {:trigger Filled(m, pd, c, i, n)} ::
               c < nPd && i < ENTRIES ==> Filled(m, pd, c, i, n)
    ensures forall c: nat, i: nat {:trigger Filled(m, pd, c, i, n)} ::
      c < MAX_PD && i < ENTRIES ==> Filled(m, pd, c, i, n)
  {
    hide Word;
  }
}
