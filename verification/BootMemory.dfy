/** pmm_init (kernel/pmm.c) fed by the Multiboot2 walker (kernel/mboot2.c): the boot info, the bitmap and
    the kernel image lie in one memory, and the info is walked again after the bitmap has been filled. */
module BootMemory {
  import opened Bytes
  import opened Mboot2
  import opened BootInfos
  import opened Pmm

  // ---------------------------------------------------------------- regions

  /** max_cb's end of a region: the sum is a 64-bit one. */
  function End(e: MmapEntry): nat {
    (e.base + e.length) % U64_LIMIT
  }

  function MaxEnd(rs: seq<MmapEntry>): nat {
    if rs == [] then 0
    else var n, m := End(rs[|rs| - 1]), MaxEnd(rs[..|rs| - 1]); if n > m then n else m
  }

  /** pmm_init's frame count and bitmap length. */
  function FrameCount(rs: seq<MmapEntry>): nat {
    if MaxEnd(rs) == 0 then 0 else (MaxEnd(rs) - 1) / FRAME_SIZE + 1
  }

  function BitmapLen(rs: seq<MmapEntry>): nat {
    (FrameCount(rs) + 7) / 8
  }

  /** free_cb frees frame `q` for region `e`: both ends are cast to pointers. */
  predicate Frees(e: MmapEntry, q: nat, width: nat)
    requires width > 0
  {
    Overlaps(q, e.base % width, End(e) % width) && NoWrap(End(e) % width, width)
  }

  predicate FreedBy(rs: seq<MmapEntry>, q: nat, width: nat)
    requires width > 0
  {
    exists i :: 0 <= i < |rs| && Frees(rs[i], q, width)
  }

  /** The available regions that the info at `at` announces. */
  function RegionsAt(m: seq<byte>, at: nat): seq<MmapEntry> {
    Available(Walk(m, at).1)
  }

  /** Regions that do not reach the top of the address space are freed whole, and all are counted. */
  lemma WholeRegions(rs: seq<MmapEntry>, q: nat, width: nat)
    requires Pointers(width)
    requires forall i :: 0 <= i < |rs| ==> NoWrap(rs[i].base + rs[i].length, width)
    ensures FreedBy(rs, q, width) <==> exists i :: 0 <= i < |rs| && Overlaps(q, rs[i].base, rs[i].base + rs[i].length)
    ensures FreedBy(rs, q, width) ==> q < FrameCount(rs)
  {
    hide Overlaps;
    forall i | 0 <= i < |rs|
      ensures Frees(rs[i], q, width) <==> Overlaps(q, rs[i].base, rs[i].base + rs[i].length)
      ensures Frees(rs[i], q, width) ==> q < FrameCount(rs)
    {
      WholeRegion(rs[i], q, width);
      EndCounted(rs, i);
    }
  }

  /** The count of frames is no larger than the regions call for: the last one ends in the last frame. */
  lemma LastFrame(rs: seq<MmapEntry>) returns (i: nat)
    requires FrameCount(rs) > 0
    ensures i < |rs| && End(rs[i]) > 0 && FrameCount(rs) == (End(rs[i]) - 1) / 4096 + 1
    ensures 8 * BitmapLen(rs) >= FrameCount(rs) > 8 * (BitmapLen(rs) - 1)
  {
    i := LastEnd(rs);
  }

  lemma {:induction false} LastEnd(rs: seq<MmapEntry>) returns (i: nat)
    requires MaxEnd(rs) > 0
    ensures i < |rs| && End(rs[i]) == MaxEnd(rs)
    decreases |rs|
  {
    if End(rs[|rs| - 1]) > MaxEnd(rs[..|rs| - 1]) {
      i := |rs| - 1;
    } else {
      i := LastEnd(rs[..|rs| - 1]);
    }
  }

  lemma WholeRegion(e: MmapEntry, q: nat, width: nat)
    requires Pointers(width) && NoWrap(e.base + e.length, width)
    ensures End(e) == e.base + e.length == End(e) % width && e.base % width == e.base
    ensures Overlaps(q, e.base, e.base + e.length) ==> End(e) > 0 && q <= (End(e) - 1) / FRAME_SIZE
  {
    if width == U32_LIMIT {} else {}
  }

  lemma {:induction false} EndCounted(rs: seq<MmapEntry>, i: nat)
    requires i < |rs|
    ensures End(rs[i]) <= MaxEnd(rs)
    decreases |rs|
  {
    if i < |rs| - 1 {
      EndCounted(rs[..|rs| - 1], i);
    }
  }

  // ---------------------------------------------------------------- the second walk

  /** The info and the bitmap do not meet. */
  predicate Disjoint(at: nat, end: nat, base: nat, len: nat) {
    end <= base || base + len <= at
  }

  lemma SameGet(m: seq<byte>, m': seq<byte>, x: nat, n: nat, base: nat, len: nat)
    requires SameOutside(m, m', base, base + len) && x + n <= |m| && (x + n <= base || base + len <= x)
    ensures Get(m', x, n) == Get(m, x, n)
  {
    GetAgree(m, m', x, n, x, x + n);
  }

  /** free_cb */
  method FreeCb(pmm: Allocator, e: MmapEntry)
    requires pmm.Valid()
    modifies pmm.mem
    ensures pmm.Valid() && SameOutside(old(pmm.mem[..]), pmm.mem[..], pmm.base, pmm.base + pmm.len)
    ensures forall q: nat {:trigger q in pmm.View().Free()} ::
      q in pmm.View().Free() <==> q in old(pmm.View()).Free() || (q < pmm.count && Frees(e, q, pmm.width))
  {
    pmm.MarkFree(e.base % pmm.width, (e.base + e.length) % U64_LIMIT % pmm.width);
  }

  lemma FreedMore(rs: seq<MmapEntry>, e: MmapEntry, width: nat)
    requires width > 0
    ensures forall q: nat {:trigger FreedBy(rs + [e], q, width)} ::
      FreedBy(rs + [e], q, width) <==> FreedBy(rs, q, width) || Frees(e, q, width)
  {
    hide Frees;
    forall q: nat
      ensures FreedBy(rs + [e], q, width) <==> FreedBy(rs, q, width) || Frees(e, q, width)
    {
      assert (rs + [e])[|rs|] == e;
      forall i | 0 <= i < |rs|
        ensures (rs + [e])[i] == rs[i]
      {
      }
    }
  }

  /** Where the second walk stands: how its loads compare with the first one's. */
  datatype Place = Place(m: seq<byte>, at: nat, end: nat, base: nat, len: nat, width: nat) {

    predicate Apart() {
      Disjoint(at, end, base, len)
    }

    /** The info lies in memory; where the bitmap meets it, no pointer sum can wrap. */
    predicate Ok() {
      && Pointers(width) && at + FIXED <= end <= |m| < width && base + len <= |m|
      && (Apart() || end + U32_LIMIT <= width)
    }

    predicate Follows(pt: Point, seen: seq<MmapEntry>) {
      Apart() ==> Within(end, pt) && FitsFrom(Collect, m, end, width, State(pt, seen))
    }
  }

  lemma LoopSums(c: Place, p: nat, seen: seq<MmapEntry>)
    requires c.Ok() && p <= c.end && c.Follows(AtGuard(p), seen)
    ensures Sum(p, TAG, c.width) == p + TAG && (p + TAG <= c.end ==> Sum(p, 4, c.width) == p + 4)
  {
    hide FitsFrom, Sum, Get;
    if c.Apart() {
      FitsGuard(Collect, c.m, c.end, c.width, p, seen);
    } else {
      SumIs(p, TAG, c.width);
      SumIs(p, 4, c.width);
    }
  }

  lemma SizeSums(c: Place, p: nat, sz: nat, seen: seq<MmapEntry>)
    requires c.Ok() && p + TAG <= c.end && c.Follows(AtGuard(p), seen) && TAG <= sz < U32_LIMIT && sz % 8 == 0
    requires c.Apart() ==> sz == Get(c.m, p + 4, 4)
    ensures Sum(p, sz, c.width) == p + sz
    ensures p + sz <= c.end ==> c.Follows(AtKind(p, sz), seen)
    ensures p + sz <= c.end && sz >= 16 ==> Sum(p, 8, c.width) == p + 8 && Sum(p, 16, c.width) == p + 16
  {
    hide FitsFrom, Sum, Get;
    if c.Apart() {
      FitsGuard(Collect, c.m, c.end, c.width, p, seen);
    }
    SumIs(p, 8, c.width);
    SumIs(p, 16, c.width);
    if !c.Apart() {
      SumIs(p, sz, c.width);
    }
  }

  lemma EntrySums(c: Place, e: nat, size: nat, tagEnd: nat, seen: seq<MmapEntry>)
    requires c.Ok() && ENTRY <= size < U32_LIMIT && e <= tagEnd <= c.end && c.Follows(AtEntry(e, size, tagEnd), seen)
    ensures Sum(e, size, c.width) == e + size
    ensures e + size <= tagEnd ==> c.Follows(AtEntry(e + size, size, tagEnd), seen + [ReadEntry(c.m, e)])
    ensures e + size > tagEnd ==> c.Follows(AtGuard(tagEnd), seen)
  {
    hide FitsFrom, Sum, Get, ReadEntry;
    if c.Apart() {
      FitsEntry(c.m, c.end, c.width, e, size, tagEnd, seen);
    } else {
      SumIs(e, size, c.width);
    }
  }

  /** What the callbacks have freed so far, while the walk is the first one's. */
  ghost predicate Freed(pmm: Allocator, c: Place, f: Frames, seen: seq<MmapEntry>)
    reads pmm, pmm.mem
    requires c.width > 0
  {
    c.Apart() ==> forall q: nat {:trigger q in pmm.View().Free()} ::
      q in pmm.View().Free() <==> q in f.Free() || (q < f.count && FreedBy(Available(seen), q, c.width))
  }

  /** The allocator's bitmap is where the place says, and memory has changed only in it. */
  ghost predicate Placed(pmm: Allocator, c: Place, f: Frames)
    reads pmm, pmm.mem
  {
    && pmm.Valid() && pmm.width == c.width && pmm.base == c.base && pmm.len == c.len && pmm.count == f.count
    && pmm.mem.Length == |c.m| && SameOutside(c.m, pmm.mem[..], c.base, c.base + c.len)
  }

  lemma SameFields(c: Place, m: seq<byte>, e: nat)
    requires c.Ok() && c.Apart() && c.at <= e && e + ENTRY <= c.end && SameOutside(c.m, m, c.base, c.base + c.len)
    ensures Get(m, e, 8) == ReadEntry(c.m, e).base && Get(m, e + 8, 8) == ReadEntry(c.m, e).length
    ensures Get(m, e + 16, 4) == ReadEntry(c.m, e).kind
  {
    hide Get, SameOutside;
    SameGet(c.m, m, e, 8, c.base, c.len);
    SameGet(c.m, m, e + 8, 8, c.base, c.len);
    SameGet(c.m, m, e + 16, 4, c.base, c.len);
  }

  lemma SameWord(c: Place, m: seq<byte>, x: nat)
    requires c.Ok() && SameOutside(c.m, m, c.base, c.base + c.len) && c.at <= x && x + 4 <= c.end
    ensures c.Apart() ==> Get(m, x, 4) == Get(c.m, x, 4)
  {
    hide Get, SameOutside;
    if c.Apart() {
      SameGet(c.m, m, x, 4, c.base, c.len);
    }
  }

  lemma NoneFreed(pmm: Allocator, c: Place)
    requires c.width > 0
    ensures Freed(pmm, c, pmm.View(), [])
  {
  }

  lemma TagFollows(c: Place, p: nat, sz: nat, kind: nat, size: nat, seen: seq<MmapEntry>)
    requires c.Ok() && TAG <= sz && p + sz <= c.end && c.Follows(AtKind(p, sz), seen)
    requires c.Apart() ==> kind == Get(c.m, p, 4) && (kind == MMAP && sz >= 16 + ENTRY ==> size == Get(c.m, p + 8, 4))
    ensures kind != END && kind != MMAP ==> c.Follows(AtGuard(p + sz), seen)
    ensures kind == MMAP && sz >= 16 + ENTRY && size >= ENTRY ==> c.Follows(AtEntry(p + 16, size, p + sz), seen)
  {
    hide Get, FitsFrom;
    if c.Apart() {
      FitsTag(Collect, c.m, c.end, c.width, p, sz, seen);
    }
  }

  /** What is left of the first walk, by what stands at `p`. */
  lemma WalkUnfolds(m: seq<byte>, p: nat, end: nat, seen: seq<MmapEntry>)
    ensures
      var w, sz, kind, size := WalkFrom(m, p, end), Get(m, p + 4, 4), Get(m, p, 4), Get(m, p + 8, 4);
      if p + TAG > end || (!BadTag(m, p, end) && kind == END) then w.0 && seen + w.1 == seen
      else if BadTag(m, p, end) || (kind == MMAP && (sz < 16 + ENTRY || size < ENTRY)) then !w.0
      else if kind == MMAP then
        && w.0 == WalkFrom(m, p + sz, end).0
        && seen + w.1 == seen + Entries(m, p + 16, p + sz, size) + WalkFrom(m, p + sz, end).1
      else w == WalkFrom(m, p + sz, end)
  {
    hide Get, Entries;
    assert seen + [] == seen;
    var es, r := Entries(m, p + 16, p + Get(m, p + 4, 4), Get(m, p + 8, 4)), WalkFrom(m, p + Get(m, p + 4, 4), end).1;
    assert seen + (es + r) == seen + es + r;
  }

  lemma Outside(m: seq<byte>, m': seq<byte>, m'': seq<byte>, lo: nat, hi: nat)
    requires SameOutside(m, m', lo, hi) && SameOutside(m', m'', lo, hi)
    ensures SameOutside(m, m'', lo, hi)
  {
  }

  /** avail_walk_cb with free_cb, for the entry at `e`. */
  method VisitEntry(pmm: Allocator, e: nat, ghost c: Place, ghost f: Frames, ghost seen: seq<MmapEntry>)
    requires c.Ok() && Placed(pmm, c, f) && Freed(pmm, c, f, seen) && c.at <= e && e + ENTRY <= c.end
    modifies pmm.mem
    ensures Placed(pmm, c, f) && Freed(pmm, c, f, seen + [ReadEntry(c.m, e)])
  {
    hide Get, FreedBy, Frees, SameOutside, Frames.Free, Available, Allocator.View, ReadEntry;
    ghost var was := pmm.View();
    var base := Load(pmm.mem, e, 8);
    var length := Load(pmm.mem, e + 8, 8);
    var kind := Load(pmm.mem, e + 16, 4);
    ghost var x := ReadEntry(c.m, e);
    assert c.Apart() ==> x == MmapEntry(base, length, kind) by {
      if c.Apart() {
        SameFields(c, pmm.mem[..], e);
      }
    }
    AvailableConcat(seen, [x]);
    AvailableOne(x);
    if kind == AVAILABLE && length != 0 {
      FreedMore(Available(seen), MmapEntry(base, length, kind), c.width);
      FreeCb(pmm, MmapEntry(base, length, kind));
      Outside(c.m, old(pmm.mem[..]), pmm.mem[..], c.base, c.base + c.len);
    } else {
      assert Available(seen) + [] == Available(seen);
    }
  }

  /** The inner loop of the second walk. */
  method VisitAll(pmm: Allocator, first: nat, tagEnd: nat, entrySize: nat,
                  ghost c: Place, ghost f: Frames, ghost before: seq<MmapEntry>) returns (ghost seen: seq<MmapEntry>)
    requires c.Ok() && Placed(pmm, c, f) && Freed(pmm, c, f, before)
    requires ENTRY <= entrySize < U32_LIMIT && c.at <= first <= tagEnd <= c.end
    requires c.Follows(AtEntry(first, entrySize, tagEnd), before)
    modifies pmm.mem
    ensures Placed(pmm, c, f) && Freed(pmm, c, f, seen) && c.Follows(AtGuard(tagEnd), seen)
    ensures seen == before + Entries(c.m, first, tagEnd, entrySize)
  {
    hide Get, Sum, ReadEntry, Freed, Place.Follows, Allocator.Valid, SameOutside;
    var width, e := pmm.width, first;
    seen := before;
    EntrySums(c, e, entrySize, tagEnd, seen);
    while Sum(e, entrySize, width) <= tagEnd
      invariant first <= e <= tagEnd && Sum(e, entrySize, width) == e + entrySize
      invariant Placed(pmm, c, f) && Freed(pmm, c, f, seen) && c.Follows(AtEntry(e, entrySize, tagEnd), seen)
      invariant before + Entries(c.m, first, tagEnd, entrySize) == seen + Entries(c.m, e, tagEnd, entrySize)
      decreases tagEnd - e
    {
      EntrySums(c, e, entrySize, tagEnd, seen);
      VisitEntry(pmm, e, c, f, seen);
      ghost var x, r := ReadEntry(c.m, e), Entries(c.m, e + entrySize, tagEnd, entrySize);
      assert Entries(c.m, e, tagEnd, entrySize) == [x] + r;
      assert seen + ([x] + r) == seen + [x] + r;
      seen := seen + [x];
      e := Sum(e, entrySize, width);
      EntrySums(c, e, entrySize, tagEnd, seen);
    }
    EntrySums(c, e, entrySize, tagEnd, seen);
    assert seen + [] == seen;
  }

  /** The second walk_mmap_entries, whose callbacks write the bitmap between its loads.  When the info and
      the bitmap are apart, it is the first walk again; it fails at once when the total size has been
      spoiled; in any case it ends, having written the bitmap alone. */
  method WalkAgain(pmm: Allocator, at: nat, ghost c: Place) returns (ok: bool)
    requires Pointers(c.width) && Placed(pmm, c, pmm.View()) && at + FIXED <= |c.m|
    requires !BadInfo(pmm.mem[..], at) ==>
      c.Ok() && c.at == at && Get(pmm.mem[..], at, 4) == Get(c.m, at, 4) && c.end == at + Get(c.m, at, 4)
    requires c.Apart() ==> Walk(c.m, at).0 && Fits(Collect, c.m, at, c.width)
    modifies pmm.mem
    ensures Placed(pmm, c, old(pmm.View()))
    ensures old(BadInfo(pmm.mem[..], at)) ==> !ok
    ensures !old(BadInfo(pmm.mem[..], at)) && c.Apart() ==> ok && Freed(pmm, c, old(pmm.View()), Walk(c.m, at).1)
  {
    hide Get, Sum, Freed, FitsFrom, FreedBy, Allocator.Valid, SameOutside;
    var mem, width := pmm.mem, pmm.width;
    ghost var f, seen: seq<MmapEntry> := pmm.View(), [];
    assert Freed(pmm, c, f, seen) by { NoneFreed(pmm, c); }
    var total := Load(mem, at, 4);
    if total < 16 || total % 8 != 0 {
      return false;
    }
    SumIs(at, total, width);
    SumIs(at, FIXED, width);
    var end := Sum(at, total, width);
    var p := Sum(at, FIXED, width);
    assert [] + Walk(c.m, at).1 == Walk(c.m, at).1;
    assert c.Follows(AtGuard(p), seen);
    assert c.Apart() ==> WalkFrom(c.m, p, end).0 && Walk(c.m, at).1 == seen + WalkFrom(c.m, p, end).1;
    hide Place.Follows, WalkFrom, Walk, Entries, Fits;
    LoopSums(c, p, seen);
    while Sum(p, TAG, width) <= end
      invariant at <= p <= end && Sum(p, TAG, width) == p + TAG
      invariant Placed(pmm, c, f) && Freed(pmm, c, f, seen) && c.Follows(AtGuard(p), seen)
      invariant c.Apart() ==> WalkFrom(c.m, p, end).0 && Walk(c.m, at).1 == seen + WalkFrom(c.m, p, end).1
      decreases end - p
    {
      LoopSums(c, p, seen);
      WalkUnfolds(c.m, p, end, seen);
      SameWord(c, mem[..], p + 4);
      SameWord(c, mem[..], p);
      var sz := Load(mem, Sum(p, 4, width), 4);
      if sz < TAG || sz % 8 != 0 {
        return false;
      }
      GetBound(mem[..], p + 4);
      SizeSums(c, p, sz, seen);
      if Sum(p, sz, width) > end {
        return false;
      }
      var kind := Load(mem, p, 4);
      if kind == END {
        break;
      }
      if kind == MMAP {
        if sz < 16 + ENTRY {
          return false;
        }
        SameWord(c, mem[..], p + 8);
        var entrySize := Load(mem, Sum(p, 8, width), 4);
        if entrySize < ENTRY {
          return false;
        }
        GetBound(mem[..], p + 8);
        TagFollows(c, p, sz, kind, entrySize, seen);
        seen := VisitAll(pmm, Sum(p, 16, width), Sum(p, sz, width), entrySize, c, f, seen);
      } else {
        TagFollows(c, p, sz, kind, 0, seen);
      }
      p := Sum(p, sz, width);
      LoopSums(c, p, seen);
    }
    WalkUnfolds(c.m, p, end, seen);
    return true;
  }

  // ---------------------------------------------------------------- pmm_init

  /** max_cb over the regions. */
  method MaxCb(rs: seq<MmapEntry>) returns (maxEnd: nat)
    ensures maxEnd == MaxEnd(rs)
  {
    maxEnd := 0;
    var i := 0;
    while i < |rs|
      invariant i <= |rs| && maxEnd == MaxEnd(rs[..i])
    {
      assert rs[..i + 1][..i] == rs[..i];
      var end := (rs[i].base + rs[i].length) % U64_LIMIT;
      if end > maxEnd {
        maxEnd := end;
      }
      i := i + 1;
    }
    assert rs[..i] == rs;
  }

  lemma LowByte(m: seq<byte>, a: nat)
    requires a + 4 <= |m|
    ensures Get(m, a, 4) % 8 == m[a] % 8
  {
    assert m[a..a + 4][0] == m[a];
  }

  /** The info right after the bitmap has been filled: its total size is spoiled when the bitmap covers its
      first byte, and is as it was otherwise. */
  lemma Filled(m0: seq<byte>, m: seq<byte>, at: nat, base: nat, len: nat)
    requires SameOutside(m0, m, base, base + len) && at + FIXED <= |m0| && at % 8 == 0 && base % 8 == 0
    requires forall j :: base <= j < base + len ==> j < |m| && m[j] == 0xFF
    ensures base <= at < base + len ==> BadInfo(m, at)
    ensures !(base <= at < base + len) ==> Get(m, at, 4) == Get(m0, at, 4) && (BadInfo(m, at) <==> BadInfo(m0, at))
  {
    hide Get;
    if base <= at < base + len {
      LowByte(m, at);
    } else {
      SameGet(m0, m, at, 4, base, len);
    }
  }

  lemma KernelEnd(k1: nat, length: nat, width: nat)
    requires Pointers(width) && k1 <= length && length + FRAME_SIZE <= width
    ensures NoWrap(k1, width) && AlignUp(k1, width) % FRAME_SIZE == 0 && k1 <= AlignUp(k1, width) < k1 + FRAME_SIZE
  {
    if width == U32_LIMIT {} else {}
  }

  lemma GoodWalk(m: seq<byte>, at: nat)
    requires Walk(m, at).0
    ensures !BadInfo(m, at) && Get(m, at, 4) >= 16
  {
    hide Get, WalkFrom;
  }

  /** What pmm_init makes of a memory: whether it gets as far as to fill the bitmap, and where that lies. */
  predicate Ready(m: seq<byte>, at: nat) {
    Walk(m, at).0 && MaxEnd(RegionsAt(m, at)) > 0
  }

  /** pmm_init, for an info at `at`, which is 8-byte aligned (Multiboot2 specification, section 3.6), and the
      kernel image [k0, k1).  When the info and the bitmap are apart, a
      frame is free exactly when a region frees it, it is not frame 0, and neither the kernel image, the
      info nor the bitmap reaches into it.  When the bitmap covers the start of the info, the call fails.
      When it covers a later part only, what is freed depends on the spoiled bytes, but never a frame of
      those. */
  method PmmInit(pmm: Allocator, at: nat, k0: nat, k1: nat) returns (ok: bool)
    requires pmm.Valid() && pmm.mem.Length + FRAME_SIZE <= pmm.width
    requires Mapped(pmm.mem, at, pmm.width) && at % 8 == 0 && Fits(Collect, pmm.mem[..], at, pmm.width)
    requires k0 < pmm.width && k1 <= pmm.mem.Length
    requires var m, base := pmm.mem[..], AlignUp(k1, pmm.width);
      Ready(m, at) ==>
        && base + BitmapLen(RegionsAt(m, at)) <= pmm.mem.Length
        && (at < base < at + Get(m, at, 4) ==> at + Get(m, at, 4) + U32_LIMIT <= pmm.width)
    modifies pmm, pmm.mem
    ensures
      var m, base := old(pmm.mem[..]), AlignUp(k1, pmm.width);
      var rs, total := RegionsAt(m, at), Get(m, at, 4);
      && (!Ready(m, at) ==> !ok && pmm.mem[..] == m)
      && (Ready(m, at) && base <= at < base + BitmapLen(rs) ==> !ok)
      && (Ready(m, at) && Disjoint(at, at + total, base, BitmapLen(rs)) ==> ok)
      && (ok ==> pmm.Valid() && pmm.count == FrameCount(rs) && pmm.base == base && pmm.len == BitmapLen(rs))
      && (ok ==> forall q: nat {:trigger q in pmm.View().Free()} :: q in pmm.View().Free() ==>
            q != 0 && !Overlaps(q, k0, k1) && !Overlaps(q, at, at + total) && !Overlaps(q, base, base + pmm.len))
      && (ok && Disjoint(at, at + total, base, BitmapLen(rs)) ==> forall q: nat {:trigger q in pmm.View().Free()} ::
            q in pmm.View().Free() <==>
              && q != 0 && q < FrameCount(rs) && FreedBy(rs, q, pmm.width)
              && !Overlaps(q, k0, k1) && !Overlaps(q, at, at + total) && !Overlaps(q, base, base + pmm.len))
  {
    hide Get, Overlaps, Walk, Available, FreedBy, Frames.Free, Fits, AlignUp, MaxEnd, FrameCount, BitmapLen, Disjoint;
    var walked, rs := ForEachAvailable(pmm.mem, at, pmm.width);
    var maxEnd := MaxCb(rs);
    if !walked || maxEnd == 0 {
      return false;
    }
    ok := Build(pmm, at, k0, k1, maxEnd, rs);
  }

  /** pmm_init once the first walk has found where the regions end. */
  method Build(pmm: Allocator, at: nat, k0: nat, k1: nat, maxEnd: nat, ghost rs: seq<MmapEntry>) returns (ok: bool)
    requires pmm.Valid() && pmm.mem.Length + FRAME_SIZE <= pmm.width
    requires Mapped(pmm.mem, at, pmm.width) && at % 8 == 0 && Fits(Collect, pmm.mem[..], at, pmm.width)
    requires k0 < pmm.width && k1 <= pmm.mem.Length
    requires Walk(pmm.mem[..], at).0 && rs == RegionsAt(pmm.mem[..], at) && maxEnd == MaxEnd(rs) > 0
    requires AlignUp(k1, pmm.width) + BitmapLen(rs) <= pmm.mem.Length
    requires var base, end := AlignUp(k1, pmm.width), at + Get(pmm.mem[..], at, 4);
      at < base < end ==> end + U32_LIMIT <= pmm.width
    modifies pmm, pmm.mem
    ensures pmm.Valid() && pmm.count == FrameCount(rs) && pmm.len == BitmapLen(rs) && pmm.base == AlignUp(k1, pmm.width)
    ensures pmm.base <= at < pmm.base + pmm.len ==> !ok
    ensures Disjoint(at, at + old(Get(pmm.mem[..], at, 4)), pmm.base, pmm.len) ==> ok
    ensures ok ==> forall q: nat {:trigger q in pmm.View().Free()} :: q in pmm.View().Free() ==>
      && q != 0 && !Overlaps(q, k0, k1) && !Overlaps(q, at, at + old(Get(pmm.mem[..], at, 4)))
      && !Overlaps(q, pmm.base, pmm.base + pmm.len)
    ensures ok && Disjoint(at, at + old(Get(pmm.mem[..], at, 4)), pmm.base, pmm.len) ==>
      forall q: nat {:trigger q in pmm.View().Free()} :: q in pmm.View().Free() <==>
        && q != 0 && q < FrameCount(rs) && FreedBy(rs, q, pmm.width)
        && !Overlaps(q, k0, k1) && !Overlaps(q, at, at + old(Get(pmm.mem[..], at, 4)))
        && !Overlaps(q, pmm.base, pmm.base + pmm.len)
  {
    hide Get, Overlaps, Walk, Available, FreedBy, Frames.Free;
    hide Fits, SameOutside, BadInfo, AlignUp, FrameCount, BitmapLen, MaxEnd;
    hide Allocator.View, Frames.Wf;
    hide Place.Ok, Place.Apart, Disjoint;
    ghost var m0, total := pmm.mem[..], Get(pmm.mem[..], at, 4);
    GoodWalk(m0, at);
    KernelEnd(k1, pmm.mem.Length, pmm.width);
    FillBitmap(pmm, k1, maxEnd, rs);
    ghost var c := Place(m0, at, at + total, pmm.base, pmm.len, pmm.width);
    SecondPlace(m0, pmm.mem[..], c);
    var again := WalkAgain(pmm, at, c);
    if !again {
      return false;
    }
    Reserve(pmm, at, k0, k1, m0);
    return true;
  }

  /** What the second walk may rely on, once the bitmap has been filled. */
  lemma SecondPlace(m0: seq<byte>, m: seq<byte>, c: Place)
    requires c.m == m0 && Pointers(c.width) && c.at % 8 == 0 && c.base % 8 == 0 && !BadInfo(m0, c.at)
    requires c.end == c.at + Get(m0, c.at, 4) <= |m0| < c.width && c.base + c.len <= |m0| && c.at + FIXED <= c.end
    requires c.at < c.base < c.end ==> c.end + U32_LIMIT <= c.width
    requires SameOutside(m0, m, c.base, c.base + c.len)
    requires forall j :: c.base <= j < c.base + c.len ==> j < |m| && m[j] == 0xFF
    ensures c.base <= c.at < c.base + c.len <==> BadInfo(m, c.at)
    ensures !BadInfo(m, c.at) ==> c.Ok() && Get(m, c.at, 4) == Get(m0, c.at, 4)
    ensures c.Apart() <==> Disjoint(c.at, c.end, c.base, c.len)
    ensures c.Apart() ==> !(c.base <= c.at < c.base + c.len)
  {
    hide BadInfo, Get;
    Filled(m0, m, c.at, c.base, c.len);
  }

  /** The count, and a bitmap of ones behind the kernel image. */
  method FillBitmap(pmm: Allocator, k1: nat, maxEnd: nat, ghost rs: seq<MmapEntry>)
    requires Pointers(pmm.width) && pmm.mem.Length < pmm.width && maxEnd == MaxEnd(rs) > 0
    requires AlignUp(k1, pmm.width) + BitmapLen(rs) <= pmm.mem.Length
    modifies pmm, pmm.mem
    ensures pmm.count == FrameCount(rs) && pmm.len == BitmapLen(rs) && pmm.base == AlignUp(k1, pmm.width)
    ensures pmm.Valid() && SameOutside(old(pmm.mem[..]), pmm.mem[..], pmm.base, pmm.base + pmm.len)
    ensures forall j :: pmm.base <= j < pmm.base + pmm.len ==> pmm.mem[j] == 0xFF
    ensures pmm.View().Free() == {}
  {
    pmm.count := (maxEnd - 1) / FRAME_SIZE + 1;
    pmm.len := (pmm.count + 7) / 8;
    pmm.base := AlignUp(k1, pmm.width);
    hide MaxEnd, Frames.Free, BitsOf, AlignUp;
    pmm.BmFill(0xFF, pmm.len);
    AllFilled(pmm.mem[..], pmm.View(), pmm.base, pmm.len);
  }

  /** The end of pmm_init: the kernel image, the info, the bitmap and frame 0 are in use. */
  method Reserve(pmm: Allocator, at: nat, k0: nat, k1: nat, ghost m0: seq<byte>)
    requires pmm.Valid() && pmm.mem.Length + FRAME_SIZE <= pmm.width && k0 < pmm.width && k1 <= pmm.mem.Length
    requires SameOutside(m0, pmm.mem[..], pmm.base, pmm.base + pmm.len)
    requires at % 8 == 0 && pmm.base % 8 == 0 && !(pmm.base <= at < pmm.base + pmm.len)
    requires at + FIXED <= |m0| && at + Get(m0, at, 4) <= |m0|
    modifies pmm.mem
    ensures pmm.Valid()
    ensures forall q: nat {:trigger q in pmm.View().Free()} :: q in pmm.View().Free() <==>
      && q in old(pmm.View()).Free() && q != 0
      && !Overlaps(q, k0, k1) && !Overlaps(q, at, at + Get(m0, at, 4)) && !Overlaps(q, pmm.base, pmm.base + pmm.len)
  {
    hide Get, Overlaps, Frames.Free, Frames.Set, Frames.Clear, Frames.Used, BitsOf;
    var mem, width := pmm.mem, pmm.width;
    pmm.MarkUsed(k0, k1);
    SameGet(m0, mem[..], at, 4, pmm.base, pmm.len) by {
      Outside(m0, old(mem[..]), mem[..], pmm.base, pmm.base + pmm.len);
    }
    var total := Load(mem, at, 4);
    Small(at + total, width);
    Small(pmm.base + pmm.len, width);
    pmm.MarkUsed(at, (at + total) % width);
    pmm.MarkUsed(pmm.base, (pmm.base + pmm.len) % width);
    FreeSetOk(pmm.View(), 0);
    pmm.BmSet(0);
  }

  lemma Small(x: nat, width: nat)
    requires x < width
    ensures x % width == x
  {
  }

  lemma AllFilled(m: seq<byte>, f: Frames, base: nat, len: nat)
    requires base + len <= |m| && f.bits == BitsOf(m[base..base + len])
    requires forall j :: base <= j < base + len ==> m[j] == 0xFF
    ensures f.Free() == {}
  {
    forall i | 0 <= i < |f.bits|
      ensures f.bits[i] == 0xFF
    {
      assert m[base..base + len][i] == m[base + i] == 0xFF;
    }
    FilledIsUsed(f);
  }

  // ---------------------------------------------------------------- an info that the bitmap spoils

  /** 16 MiB of memory from 1 MiB on. */
  function LoaderTags(): seq<Tag> {
    [Map(ENTRY, 0, [RawEntry(MmapEntry(0x10_0000, 0x100_0000, AVAILABLE), [0, 0, 0, 0])], [])]
  }

  const SPOT := 0x20_0000

  function SpoiledMemory(): seq<byte> {
    seq(SPOT, _ => 0) + EncodeInfo(LoaderTags(), 0) + seq(4096, _ => 0)
  }

  /** A memory that meets what pmm_init relies on, with a well-formed info, a kernel image that ends where the
      info starts, and so the bitmap over the info: the case in which pmm_init fails does occur. */
  lemma Spoiled(width: nat)
    requires Pointers(width)
    ensures
      var m := SpoiledMemory();
      && |m| + FRAME_SIZE <= width && SPOT % 8 == 0
      && SPOT + FIXED <= |m| && SPOT + Get(m, SPOT, 4) <= |m| && Fits(Collect, m, SPOT, width)
      && Ready(m, SPOT) && AlignUp(SPOT, width) == SPOT
      && 0 < BitmapLen(RegionsAt(m, SPOT)) <= |m| - SPOT
  {
    var m, ts := SpoiledMemory(), LoaderTags();
    LoaderGood();
    assert Holds(m, SPOT, ts, 0);
    hide SpoiledMemory, LoaderTags, Get, EncodeInfo;
    InfoHeader(m, SPOT, ts, 0);
    WalkEncoded(m, SPOT, ts, 0);
    EncodedFits(Collect, m, SPOT, ts, 0, width);
    LoaderRegions();
    SpotAligned(width);
  }

  lemma LoaderGood()
    ensures GoodInfo(LoaderTags()) && |EncodeInfo(LoaderTags(), 0)| == 56
  {
    hide Encode;
    var r := RawEntry(MmapEntry(0x10_0000, 0x100_0000, AVAILABLE), [0, 0, 0, 0]);
    var t := Map(ENTRY, 0, [r], []);
    assert LoaderTags() == [t];
    assert [r][1..] == [] && [t][1..] == [];
    assert EncodeEntries([r]) == EncodeEntry(r) + EncodeEntries([]) && |EncodeEntry(r)| == 24;
    BodyLength(t);
    assert TagSize(t) == 40 && GoodTag(t);
    assert EncodeTags([t]) == EncodeTag(t) + EncodeTags([]);
    assert |EncodeTags([t])| == 48;
  }

  lemma LoaderRegions()
    ensures
      var rs := Available(AllEntries(LoaderTags()));
      MaxEnd(rs) == 0x110_0000 && BitmapLen(rs) == 544
  {
    var e := MmapEntry(0x10_0000, 0x100_0000, AVAILABLE);
    var r := RawEntry(e, [0, 0, 0, 0]);
    var t := Map(ENTRY, 0, [r], []);
    assert LoaderTags() == [t];
    assert [r][1..] == [] && [t][1..] == [] && [e][..0] == [];
    assert EntriesOf([r]) == [e] + EntriesOf([]) == [e];
    assert AllEntries([t]) == [e] + AllEntries([]) == [e];
    AvailableOne(e);
  }

  lemma SpotAligned(width: nat)
    requires Pointers(width)
    ensures AlignUp(SPOT, width) == SPOT
  {
    if width == U32_LIMIT {} else {}
  }
}
