/** kernel/mboot2.c: walking the tags of a Multiboot2 information structure, byte by byte, in memory of a
    given pointer width. */
module Mboot2 {
  import opened Wrappers
  import opened Bytes

  const END := 0
  const BASIC_MEMINFO := 4
  const MMAP := 6
  const ACPI_OLD := 14
  const ACPI_NEW := 15
  const AVAILABLE := 1

  const FIXED := 8        // struct mb2_fixed: total size, reserved
  const TAG := 8          // struct mb2_tag: type, size
  const ENTRY := 24       // struct mb2_mmap_entry

  datatype MmapEntry = MmapEntry(base: nat, length: nat, kind: nat)

  // ---------------------------------------------------------------- what the walkers compute

  /** The info at `at` has a total size that the walkers reject. */
  predicate BadInfo(b: seq<byte>, at: nat) {
    var total := Get(b, at, 4);
    total < 16 || total % 8 != 0
  }

  /** The tag at `p` has a size that the walkers reject. */
  predicate BadTag(b: seq<byte>, p: nat, end: nat) {
    var sz := Get(b, p + 4, 4);
    sz < TAG || sz % 8 != 0 || p + sz > end
  }

  function ReadEntry(b: seq<byte>, e: nat): MmapEntry {
    MmapEntry(Get(b, e, 8), Get(b, e + 8, 8), Get(b, e + 16, 4))
  }

  function Entries(b: seq<byte>, e: nat, tagEnd: nat, entrySize: nat): seq<MmapEntry>
    decreases if e < tagEnd then tagEnd - e else 0
  {
    if entrySize < ENTRY || e + entrySize > tagEnd then []
    else [ReadEntry(b, e)] + Entries(b, e + entrySize, tagEnd, entrySize)
  }

  /** walk_mmap_entries from the tag at `p`: whether it reaches the end of the chain, and the entries
      that it hands to its callback on the way. */
  function WalkFrom(b: seq<byte>, p: nat, end: nat): (bool, seq<MmapEntry>)
    decreases if p < end then end - p else 0
  {
    if p + TAG > end then (true, [])
    else if BadTag(b, p, end) then (false, [])
    else
      var sz := Get(b, p + 4, 4);
      if Get(b, p, 4) == END then (true, [])
      else if Get(b, p, 4) == MMAP then
        if sz < 16 + ENTRY || Get(b, p + 8, 4) < ENTRY then (false, [])
        else
          var (ok, rest) := WalkFrom(b, p + sz, end);
          (ok, Entries(b, p + 16, p + sz, Get(b, p + 8, 4)) + rest)
      else WalkFrom(b, p + sz, end)
  }

  function Walk(b: seq<byte>, at: nat): (bool, seq<MmapEntry>) {
    if BadInfo(b, at) then (false, []) else WalkFrom(b, at + FIXED, at + Get(b, at, 4))
  }

  /** The address of the first tag of a type in the chain from `p`. */
  function FirstTag(b: seq<byte>, p: nat, end: nat, want: nat): Option<nat>
    decreases if p < end then end - p else 0
  {
    if p + TAG > end || BadTag(b, p, end) || Get(b, p, 4) == END then None
    else if Get(b, p, 4) == want then Some(p)
    else FirstTag(b, p + Get(b, p + 4, 4), end, want)
  }

  function Find(b: seq<byte>, at: nat, want: nat): Option<nat> {
    if BadInfo(b, at) then None else FirstTag(b, at + FIXED, at + Get(b, at, 4), want)
  }

  function Available(es: seq<MmapEntry>): seq<MmapEntry> {
    if es == [] then []
    else (if es[0].kind == AVAILABLE && es[0].length != 0 then [es[0]] else []) + Available(es[1..])
  }

  function Total(es: seq<MmapEntry>): nat {
    if es == [] then 0
    else (if es[|es| - 1].kind == AVAILABLE then es[|es| - 1].length else 0) + Total(es[..|es| - 1])
  }

  lemma {:induction false} AvailableConcat(a: seq<MmapEntry>, b: seq<MmapEntry>)
    ensures Available(a + b) == Available(a) + Available(b)
  {
    if a == [] {
      assert a + b == b;
    } else {
      assert (a + b)[1..] == a[1..] + b;
      AvailableConcat(a[1..], b);
    }
  }

  lemma AvailableOne(x: MmapEntry)
    ensures Available([x]) == if x.kind == 1 && x.length != 0 then [x] else []
  {
    assert [x][1..] == [];
  }

  lemma {:induction false} TotalConcat(a: seq<MmapEntry>, b: seq<MmapEntry>)
    ensures Total(a + b) == Total(a) + Total(b)
    decreases |b|
  {
    if b == [] {
      assert a + b == a;
    } else {
      assert (a + b)[..|a + b| - 1] == a + b[..|b| - 1];
      TotalConcat(a, b[..|b| - 1]);
    }
  }

  lemma TotalOne(x: MmapEntry)
    ensures Total([x]) == if x.kind == 1 then x.length else 0
  {
    assert [x][..0] == [];
  }

  function Lengths(es: seq<MmapEntry>): nat {
    if es == [] then 0 else es[0].length + Lengths(es[1..])
  }

  /** The sum of usable memory is that of the regions that mb2_for_each_available hands out. */
  lemma {:induction false} TotalOfAvailable(es: seq<MmapEntry>)
    ensures Total(es) == Lengths(Available(es))
  {
    if es != [] {
      var rest := Available(es[1..]);
      assert es == [es[0]] + es[1..];
      assert ([es[0]] + rest)[1..] == rest && [] + rest == rest;
      TotalConcat([es[0]], es[1..]);
      TotalOne(es[0]);
      TotalOfAvailable(es[1..]);
    }
  }

  /** What the walkers refuse, and what ends the walk of a chain well: sizes below 8, sizes that are no
      multiples of 8 or lead past the end, memory-map tags with no room for an entry, and entries of fewer
      than 24 bytes. */
  lemma Refusals(b: seq<byte>, at: nat, p: nat, end: nat, want: nat)
    ensures Get(b, at, 4) < 16 || Get(b, at, 4) % 8 != 0 ==> Walk(b, at) == (false, []) && Find(b, at, want) == None
    ensures
      var sz, kind := Get(b, p + 4, 4), Get(b, p, 4);
      && (p + 8 > end ==> WalkFrom(b, p, end) == (true, []) && FirstTag(b, p, end, want) == None)
      && (p + 8 <= end && (sz < 8 || sz % 8 != 0 || p + sz > end) ==>
            WalkFrom(b, p, end) == (false, []) && FirstTag(b, p, end, want) == None)
      && (p + 8 <= end && sz >= 8 && sz % 8 == 0 && p + sz <= end ==>
            && (kind == 0 ==> WalkFrom(b, p, end) == (true, []) && FirstTag(b, p, end, want) == None)
            && (kind == 6 && (sz < 40 || Get(b, p + 8, 4) < 24) ==> WalkFrom(b, p, end) == (false, [])))
  {
    hide Get;
  }

  // ---------------------------------------------------------------- the walkers' steps on pointers

  /** walk_mmap_entries, or the loop that mb2_read_basic_meminfo and find_acpi_tag share. */
  datatype Walker = Collect | Seek(want: nat)

  /** Where a walker stands; addresses are pointer values. */
  datatype Point =
    | AtGuard(p: nat)                           // the outer loop's test
    | AtSize(p: nat)                            // the tag's size is read
    | AtKind(p: nat, sz: nat)                   // the size has passed the tests
    | AtEntry(e: nat, size: nat, tagEnd: nat)   // the inner loop's test
    | Stop(ok: bool)
    | Found(p: nat)

  datatype State = State(pt: Point, seen: seq<MmapEntry>)

  /** A pointer sum where pointers have `width` values; with width 0 pointers are unbounded. */
  function Sum(x: nat, y: nat, width: nat): nat {
    if width == 0 then x + y else (x + y) % width
  }

  function Next(w: Walker, m: seq<byte>, end: nat, width: nat, s: State): State {
    match s.pt
    case AtGuard(p) =>
      s.(pt := if Sum(p, TAG, width) > end then Stop(w.Collect?) else AtSize(p))
    case AtSize(p) =>
      var sz := Get(m, Sum(p, 4, width), 4);
      s.(pt := if sz < TAG || sz % 8 != 0 || Sum(p, sz, width) > end then Stop(false) else AtKind(p, sz))
    case AtKind(p, sz) =>
      var kind := Get(m, p, 4);
      if kind == END then s.(pt := Stop(w.Collect?))
      else if w == Seek(kind) then s.(pt := Found(p))
      else if w.Collect? && kind == MMAP then
        var size := Get(m, Sum(p, 8, width), 4);
        s.(pt := if sz < 16 + ENTRY || size < ENTRY then Stop(false)
                 else AtEntry(Sum(p, 16, width), size, Sum(p, sz, width)))
      else s.(pt := AtGuard(Sum(p, sz, width)))
    case AtEntry(e, size, tagEnd) =>
      if Sum(e, size, width) <= tagEnd
      then State(AtEntry(Sum(e, size, width), size, tagEnd), s.seen + [ReadEntry(m, e)])
      else s.(pt := AtGuard(tagEnd))
    case _ => s
  }

  function Trace(w: Walker, m: seq<byte>, end: nat, width: nat, s: State, n: nat): State
    decreases n
  {
    if n == 0 then s else Trace(w, m, end, width, Next(w, m, end, width, s), n - 1)
  }

  /** What holds of a point that exact sums lead to. */
  predicate Within(end: nat, pt: Point) {
    match pt
    case AtGuard(p) => p <= end
    case AtSize(p) => p + TAG <= end
    case AtKind(p, sz) => TAG <= sz && p + sz <= end
    case AtEntry(e, size, tagEnd) => ENTRY <= size && e <= tagEnd <= end
    case _ => true
  }

  /** The sum made at this point does not wrap. */
  predicate SumFits(m: seq<byte>, width: nat, pt: Point) {
    match pt
    case AtGuard(p) => p + TAG < width
    case AtSize(p) => var sz := Get(m, p + 4, 4); sz < TAG || sz % 8 != 0 || p + sz < width
    case AtEntry(e, size, _) => e + size < width
    case _ => true
  }

  function ToGo(end: nat, pt: Point): nat {
    match pt
    case AtEntry(e, _, _) => if e < end then end - e else 0
    case Stop(_) => 0
    case Found(_) => 0
    case _ => if pt.p < end then end - pt.p else 0
  }

  function Phase(pt: Point): nat {
    match pt
    case AtEntry(_, _, _) => 4
    case AtGuard(_) => 3
    case AtSize(_) => 2
    case AtKind(_, _) => 1
    case _ => 0
  }

  /** No sum wraps from here to the end of the exact walk. */
  predicate FitsFrom(w: Walker, m: seq<byte>, end: nat, width: nat, s: State)
    requires Within(end, s.pt)
    decreases ToGo(end, s.pt), Phase(s.pt)
  {
    && SumFits(m, width, s.pt)
    && (Phase(s.pt) == 0 || (ExactStep(w, m, end, s); FitsFrom(w, m, end, width, Next(w, m, end, 0, s))))
  }

  /** The walk of the info at `at` makes no pointer sum that wraps. */
  predicate Fits(w: Walker, m: seq<byte>, at: nat, width: nat) {
    BadInfo(m, at) || FitsFrom(w, m, at + Get(m, at, 4), width, State(AtGuard(at + FIXED), []))
  }

  lemma ExactStep(w: Walker, m: seq<byte>, end: nat, s: State)
    requires Within(end, s.pt) && Phase(s.pt) > 0
    ensures var t := Next(w, m, end, 0, s);
      && Within(end, t.pt)
      && (ToGo(end, t.pt) < ToGo(end, s.pt) || (ToGo(end, t.pt) == ToGo(end, s.pt) && Phase(t.pt) < Phase(s.pt)))
  {
    hide Get;
  }

  /** A step on pointers is the exact step exactly when its sum does not wrap: a sum that wraps always
      passes a test that the exact sum fails. */
  lemma StepWraps(w: Walker, m: seq<byte>, end: nat, width: nat, s: State)
    requires Within(end, s.pt) && TAG <= end < width && Pointers(width)
    requires s.pt.AtEntry? ==> s.pt.size < U32_LIMIT
    ensures Next(w, m, end, width, s) == Next(w, m, end, 0, s) <==> SumFits(m, width, s.pt)
    ensures Next(w, m, end, 0, s).pt.AtEntry? ==> Next(w, m, end, 0, s).pt.size < U32_LIMIT
  {
    hide Get, Sum, ReadEntry;
    match s.pt
    case AtGuard(p) => SumIs(p, TAG, width);
    case AtSize(p) =>
      SumIs(p, 4, width);
      GetBound(m, p + 4);
      SumIs(p, Get(m, p + 4, 4), width);
    case AtKind(p, sz) =>
      GetBound(m, p + 8);
      SumIs(p, 8, width);
      SumIs(p, 16, width);
      SumIs(p, sz, width);
    case AtEntry(e, size, _) => SumIs(e, size, width);
    case _ =>
  }

  lemma SumIs(x: nat, y: nat, width: nat)
    requires x < width && y < width && Pointers(width)
    ensures Sum(x, y, width) == if x + y < width then x + y else x + y - width
    ensures Sum(x, y, 0) == x + y
  {
    if width == U32_LIMIT {
    } else {
    }
  }

  /** The walkers make the exact walk, step for step, exactly when none of its sums wraps. */
  lemma SameSteps(w: Walker, m: seq<byte>, at: nat, width: nat)
    requires Pointers(width) && !BadInfo(m, at) && at + Get(m, at, 4) < width
    ensures
      var end, s := at + Get(m, at, 4), State(AtGuard(at + FIXED), []);
      (forall n: nat :: Trace(w, m, end, width, s, n) == Trace(w, m, end, 0, s, n)) <==> Fits(w, m, at, width)
  {
    hide Get, Trace, FitsFrom;
    var end, s := at + Get(m, at, 4), State(AtGuard(at + FIXED), []);
    if Fits(w, m, at, width) {
      forall n: nat
        ensures Trace(w, m, end, width, s, n) == Trace(w, m, end, 0, s, n)
      {
        Keeps(w, m, end, width, s, n);
      }
    } else {
      var n := Strays(w, m, end, width, s);
    }
  }

  lemma {:induction false} Keeps(w: Walker, m: seq<byte>, end: nat, width: nat, s: State, n: nat)
    requires Pointers(width) && TAG <= end < width && Within(end, s.pt) && FitsFrom(w, m, end, width, s)
    requires s.pt.AtEntry? ==> s.pt.size < U32_LIMIT
    ensures Trace(w, m, end, width, s, n) == Trace(w, m, end, 0, s, n)
    decreases n
  {
    if n > 0 {
      StepWraps(w, m, end, width, s);
      hide Next;
      if Phase(s.pt) > 0 {
        ExactStep(w, m, end, s);
        Keeps(w, m, end, width, Next(w, m, end, 0, s), n - 1);
      } else {
        Stopped(w, m, end, width, s, n);
      }
    }
  }

  lemma {:induction false} Stopped(w: Walker, m: seq<byte>, end: nat, width: nat, s: State, n: nat)
    requires Phase(s.pt) == 0
    ensures Trace(w, m, end, width, s, n) == s && Trace(w, m, end, 0, s, n) == s
    decreases n
  {
    if n > 0 {
      Stopped(w, m, end, width, s, n - 1);
    }
  }

  lemma {:induction false} Strays(w: Walker, m: seq<byte>, end: nat, width: nat, s: State) returns (n: nat)
    requires Pointers(width) && TAG <= end < width && Within(end, s.pt) && !FitsFrom(w, m, end, width, s)
    requires s.pt.AtEntry? ==> s.pt.size < U32_LIMIT
    ensures Trace(w, m, end, width, s, n) != Trace(w, m, end, 0, s, n)
    decreases ToGo(end, s.pt), Phase(s.pt)
  {
    StepWraps(w, m, end, width, s);
    hide Next, Get;
    if !SumFits(m, width, s.pt) {
      OneStep(w, m, end, width, s, 0);
      OneStep(w, m, end, 0, s, 0);
      n := 1;
    } else {
      ExactStep(w, m, end, s);
      n := Strays(w, m, end, width, Next(w, m, end, 0, s));
      OneStep(w, m, end, width, s, n);
      OneStep(w, m, end, 0, s, n);
      n := n + 1;
    }
  }

  lemma OneStep(w: Walker, m: seq<byte>, end: nat, width: nat, s: State, n: nat)
    ensures Trace(w, m, end, width, s, n + 1) == Trace(w, m, end, width, Next(w, m, end, width, s), n)
    ensures Trace(w, m, end, width, s, 0) == s
    ensures Trace(w, m, end, width, s, 1) == Next(w, m, end, width, s)
  {
    hide Next;
    assert Trace(w, m, end, width, Next(w, m, end, width, s), 0) == Next(w, m, end, width, s);
  }

  lemma {:induction false} Compose(w: Walker, m: seq<byte>, end: nat, width: nat, s: State, a: nat, b: nat)
    ensures Trace(w, m, end, width, s, a + b) == Trace(w, m, end, width, Trace(w, m, end, width, s, a), b)
    decreases a
  {
    hide Next;
    if a > 0 {
      Compose(w, m, end, width, Next(w, m, end, width, s), a - 1, b);
    }
  }

  lemma {:induction false} ExactEntries(m: seq<byte>, end: nat, e: nat, size: nat, tagEnd: nat, seen: seq<MmapEntry>)
    returns (n: nat)
    requires ENTRY <= size && e <= tagEnd
    ensures Trace(Collect, m, end, 0, State(AtEntry(e, size, tagEnd), seen), n) ==
            State(AtGuard(tagEnd), seen + Entries(m, e, tagEnd, size))
    decreases tagEnd - e
  {
    hide Get, ReadEntry, Trace;
    OneStep(Collect, m, end, 0, State(AtEntry(e, size, tagEnd), seen), 0);
    if e + size <= tagEnd {
      n := ExactEntries(m, end, e + size, size, tagEnd, seen + [ReadEntry(m, e)]);
      OneStep(Collect, m, end, 0, State(AtEntry(e, size, tagEnd), seen), n);
      n := n + 1;
      ghost var x, r := [ReadEntry(m, e)], Entries(m, e + size, tagEnd, size);
      assert seen + (x + r) == seen + x + r;
    } else {
      n := 1;
      assert seen + [] == seen;
    }
  }

  /** Three exact steps lead past the tests of a tag. */
  lemma ExactTag(w: Walker, m: seq<byte>, end: nat, p: nat, seen: seq<MmapEntry>)
    requires p + TAG <= end && !BadTag(m, p, end)
    ensures Trace(w, m, end, 0, State(AtGuard(p), seen), 2) == State(AtKind(p, Get(m, p + 4, 4)), seen)
    ensures Trace(w, m, end, 0, State(AtGuard(p), seen), 3) ==
            Next(w, m, end, 0, State(AtKind(p, Get(m, p + 4, 4)), seen))
  {
    hide Get;
    var s := State(AtGuard(p), seen);
    OneStep(w, m, end, 0, s, 1);
    OneStep(w, m, end, 0, s, 2);
    OneStep(w, m, end, 0, State(AtSize(p), seen), 0);
    OneStep(w, m, end, 0, State(AtSize(p), seen), 1);
    OneStep(w, m, end, 0, State(AtKind(p, Get(m, p + 4, 4)), seen), 0);
  }

  lemma ExactEnd(w: Walker, m: seq<byte>, end: nat, p: nat, seen: seq<MmapEntry>) returns (n: nat)
    requires p + TAG > end || BadTag(m, p, end)
    ensures Trace(w, m, end, 0, State(AtGuard(p), seen), n) == State(Stop(w.Collect? && p + TAG > end), seen)
  {
    hide Get;
    var s := State(AtGuard(p), seen);
    OneStep(w, m, end, 0, s, 0);
    OneStep(w, m, end, 0, s, 1);
    OneStep(w, m, end, 0, State(AtSize(p), seen), 0);
    n := if p + TAG > end then 1 else 2;
  }

  /** The exact walk is the one that WalkFrom describes. */
  lemma {:induction false} ExactWalk(m: seq<byte>, end: nat, p: nat, seen: seq<MmapEntry>) returns (n: nat)
    ensures Trace(Collect, m, end, 0, State(AtGuard(p), seen), n) ==
            State(Stop(WalkFrom(m, p, end).0), seen + WalkFrom(m, p, end).1)
    decreases if p < end then end - p else 0
  {
    hide Get, Trace, Entries, ReadEntry;
    var s := State(AtGuard(p), seen);
    if p + TAG > end || BadTag(m, p, end) {
      n := ExactEnd(Collect, m, end, p, seen);
      assert seen + [] == seen;
    } else {
      var sz, kind := Get(m, p + 4, 4), Get(m, p, 4);
      ExactTag(Collect, m, end, p, seen);
      n := 3;
      if kind == END || (kind == MMAP && (sz < 16 + ENTRY || Get(m, p + 8, 4) < ENTRY)) {
        assert seen + [] == seen;
      } else if kind == MMAP {
        var es := Entries(m, p + 16, p + sz, Get(m, p + 8, 4));
        var k := ExactEntries(m, end, p + 16, Get(m, p + 8, 4), p + sz, seen);
        var l := ExactWalk(m, end, p + sz, seen + es);
        Compose(Collect, m, end, 0, s, 3, k);
        Compose(Collect, m, end, 0, s, 3 + k, l);
        assert seen + es + WalkFrom(m, p + sz, end).1 == seen + (es + WalkFrom(m, p + sz, end).1);
        n := 3 + k + l;
      } else {
        var l := ExactWalk(m, end, p + sz, seen);
        Compose(Collect, m, end, 0, s, 3, l);
        n := 3 + l;
      }
    }
  }

  lemma {:induction false} ExactSeek(m: seq<byte>, end: nat, p: nat, want: nat) returns (n: nat)
    ensures Trace(Seek(want), m, end, 0, State(AtGuard(p), []), n) ==
            State(match FirstTag(m, p, end, want) case None => Stop(false) case Some(q) => Found(q), [])
    decreases if p < end then end - p else 0
  {
    hide Get, Trace;
    var s := State(AtGuard(p), []);
    if p + TAG > end || BadTag(m, p, end) {
      n := ExactEnd(Seek(want), m, end, p, []);
    } else {
      var sz, kind := Get(m, p + 4, 4), Get(m, p, 4);
      ExactTag(Seek(want), m, end, p, []);
      n := 3;
      if kind != END && kind != want {
        var l := ExactSeek(m, end, p + sz, want);
        Compose(Seek(want), m, end, 0, s, 3, l);
        n := 3 + l;
      }
    }
  }

  /** Where the info ends far enough below the top of the address space, as it always does with 64-bit
      pointers, no sum wraps, whatever the bytes. */
  lemma RoomyFits(w: Walker, m: seq<byte>, at: nat, width: nat)
    requires at + Get(m, at, 4) + U32_LIMIT <= width
    ensures Fits(w, m, at, width)
  {
    hide Get;
    if !BadInfo(m, at) {
      RoomyFitsFrom(w, m, at + Get(m, at, 4), width, State(AtGuard(at + FIXED), []));
    }
  }

  lemma {:induction false} RoomyFitsFrom(w: Walker, m: seq<byte>, end: nat, width: nat, s: State)
    requires Within(end, s.pt) && end + U32_LIMIT <= width && (s.pt.AtEntry? ==> s.pt.size < U32_LIMIT)
    ensures FitsFrom(w, m, end, width, s)
    decreases ToGo(end, s.pt), Phase(s.pt)
  {
    hide Get, ReadEntry;
    if s.pt.AtSize? {
      GetBound(m, s.pt.p + 4);
    } else if s.pt.AtKind? {
      GetBound(m, s.pt.p + 8);
    }
    if Phase(s.pt) > 0 {
      ExactStep(w, m, end, s);
      RoomyFitsFrom(w, m, end, width, Next(w, m, end, 0, s));
    }
  }

  // ---------------------------------------------------------------- where the walks end

  /** With 64-bit pointers, and wherever else nothing wraps, the walk on pointers ends as the exact one. */
  lemma CodeWalks(m: seq<byte>, at: nat, width: nat) returns (n: nat)
    requires Pointers(width) && !BadInfo(m, at) && at + Get(m, at, 4) < width && Fits(Collect, m, at, width)
    ensures Trace(Collect, m, at + Get(m, at, 4), width, State(AtGuard(at + FIXED), []), n) ==
            State(Stop(Walk(m, at).0), Walk(m, at).1)
  {
    hide Get, Trace, FitsFrom;
    SameSteps(Collect, m, at, width);
    n := ExactWalk(m, at + Get(m, at, 4), at + FIXED, []);
    assert [] + Walk(m, at).1 == Walk(m, at).1;
  }

  lemma CodeSeeks(m: seq<byte>, at: nat, width: nat, want: nat) returns (n: nat)
    requires Pointers(width) && !BadInfo(m, at) && at + Get(m, at, 4) < width && Fits(Seek(want), m, at, width)
    ensures Trace(Seek(want), m, at + Get(m, at, 4), width, State(AtGuard(at + FIXED), []), n) ==
            State(match Find(m, at, want) case None => Stop(false) case Some(q) => Found(q), [])
  {
    hide Get, Trace, FitsFrom;
    SameSteps(Seek(want), m, at, width);
    n := ExactSeek(m, at + Get(m, at, 4), at + FIXED, want);
  }

  lemma GetBound(m: seq<byte>, a: nat)
    ensures Get(m, a, 4) < U32_LIMIT
  {
    Limits();
    if a + 4 <= |m| {
      EncodeDecode(m[a..a + 4]);
    }
  }

  // ---------------------------------------------------------------- the code

  /** The info lies in memory: all that the walkers rely on. */
  predicate Mapped(mem: array<byte>, at: nat, width: nat)
    reads mem
  {
    && Pointers(width) && mem.Length < width
    && at + FIXED <= mem.Length && at + Get(mem[..], at, 4) <= mem.Length
  }

  /** What a walk that fits has at the top of its loop, past the tests of a tag, and at an entry. */
  lemma FitsGuard(w: Walker, m: seq<byte>, end: nat, width: nat, p: nat, seen: seq<MmapEntry>)
    requires Pointers(width) && p <= end < width && FitsFrom(w, m, end, width, State(AtGuard(p), seen))
    ensures Sum(p, TAG, width) == p + TAG
    ensures p + TAG <= end ==> Sum(p, 4, width) == p + 4
    ensures
      var sz := Get(m, p + 4, 4);
      && (p + TAG <= end && sz >= TAG && sz % 8 == 0 ==> Sum(p, sz, width) == p + sz)
      && (p + TAG <= end && !BadTag(m, p, end) ==> FitsFrom(w, m, end, width, State(AtKind(p, sz), seen)))
  {
    hide Get, Sum;
    GetBound(m, p + 4);
    SumIs(p, TAG, width);
    SumIs(p, 4, width);
    SumIs(p, Get(m, p + 4, 4), width);
    assert Sum(p, Get(m, p + 4, 4), 0) == p + Get(m, p + 4, 4);
  }

  lemma FitsTag(w: Walker, m: seq<byte>, end: nat, width: nat, p: nat, sz: nat, seen: seq<MmapEntry>)
    requires Pointers(width) && TAG <= sz && p + sz <= end < width
    requires FitsFrom(w, m, end, width, State(AtKind(p, sz), seen))
    ensures sz >= 16 ==> Sum(p, 8, width) == p + 8 && Sum(p, 16, width) == p + 16
    ensures Sum(p, sz, width) == p + sz
    ensures
      var kind := Get(m, p, 4);
      && (kind != END && w != Seek(kind) && !(w.Collect? && kind == MMAP) ==>
            FitsFrom(w, m, end, width, State(AtGuard(p + sz), seen)))
      && (w.Collect? && kind == MMAP && sz >= 16 + ENTRY && Get(m, p + 8, 4) >= ENTRY ==>
            FitsFrom(w, m, end, width, State(AtEntry(p + 16, Get(m, p + 8, 4), p + sz), seen)))
  {
    hide Get, Sum;
    SumIs(p, 8, width);
    SumIs(p, 16, width);
    SumIs(p, sz, width);
  }

  lemma FitsEntry(m: seq<byte>, end: nat, width: nat, e: nat, size: nat, tagEnd: nat, seen: seq<MmapEntry>)
    requires Pointers(width) && ENTRY <= size < width && e <= tagEnd <= end < width
    requires FitsFrom(Collect, m, end, width, State(AtEntry(e, size, tagEnd), seen))
    ensures Sum(e, size, width) == e + size
    ensures e + size <= tagEnd ==>
      FitsFrom(Collect, m, end, width, State(AtEntry(e + size, size, tagEnd), seen + [ReadEntry(m, e)]))
    ensures e + size > tagEnd ==> FitsFrom(Collect, m, end, width, State(AtGuard(tagEnd), seen))
  {
    hide Get, Sum;
    SumIs(e, size, width);
  }

  /** Where no sum wraps, every load is in bounds and the walk ends, whatever the bytes. */
  method WalkMmapEntries(mem: array<byte>, at: nat, width: nat) returns (ok: bool, seen: seq<MmapEntry>)
    requires Mapped(mem, at, width) && Fits(Collect, mem[..], at, width)
    ensures (ok, seen) == Walk(mem[..], at)
  {
    hide Get, Sum, FitsFrom;
    ghost var b := mem[..];
    seen := [];
    var total := Load(mem, at, 4);
    if total < 16 || total % 8 != 0 {
      return false, [];
    }
    SumIs(at, total, width);
    SumIs(at, FIXED, width);
    var end := Sum(at, total, width);
    var p := Sum(at, FIXED, width);
    FitsGuard(Collect, b, end, width, p, seen);
    while Sum(p, TAG, width) <= end
      invariant p <= end && FitsFrom(Collect, b, end, width, State(AtGuard(p), seen))
      invariant Sum(p, TAG, width) == p + TAG
      invariant WalkFrom(b, at + FIXED, end).0 == WalkFrom(b, p, end).0
      invariant WalkFrom(b, at + FIXED, end).1 == seen + WalkFrom(b, p, end).1
      decreases end - p
    {
      FitsGuard(Collect, b, end, width, p, seen);
      var sz := Load(mem, Sum(p, 4, width), 4);
      assert seen + [] == seen;
      if sz < TAG || sz % 8 != 0 {
        return false, seen;
      }
      if Sum(p, sz, width) > end {
        return false, seen;
      }
      FitsTag(Collect, b, end, width, p, sz, seen);
      var kind := Load(mem, p, 4);
      if kind == END {
        break;
      }
      if kind == MMAP {
        if sz < 16 + ENTRY {
          return false, seen;
        }
        var entrySize := Load(mem, Sum(p, 8, width), 4);
        if entrySize < ENTRY {
          return false, seen;
        }
        var es := VisitEntries(mem, Sum(p, 16, width), Sum(p, sz, width), entrySize, width, end, seen);
        assert seen + (es + WalkFrom(b, p + sz, end).1) == seen + es + WalkFrom(b, p + sz, end).1;
        seen := seen + es;
      }
      p := Sum(p, sz, width);
      FitsGuard(Collect, b, end, width, p, seen);
    }
    assert seen + [] == seen;
    return true, seen;
  }

  /** The inner loop: one callback an entry. */
  method VisitEntries(mem: array<byte>, first: nat, tagEnd: nat, entrySize: nat, width: nat,
                      ghost end: nat, ghost before: seq<MmapEntry>)
    returns (seen: seq<MmapEntry>)
    requires Pointers(width) && ENTRY <= entrySize < width && first <= tagEnd <= end <= mem.Length < width
    requires FitsFrom(Collect, mem[..], end, width, State(AtEntry(first, entrySize, tagEnd), before))
    ensures seen == Entries(mem[..], first, tagEnd, entrySize)
    ensures FitsFrom(Collect, mem[..], end, width, State(AtGuard(tagEnd), before + seen))
  {
    hide Get, Sum, FitsFrom;
    ghost var b := mem[..];
    var e := first;
    seen := [];
    assert before + [] == before;
    FitsEntry(b, end, width, e, entrySize, tagEnd, before);
    while Sum(e, entrySize, width) <= tagEnd
      invariant e <= tagEnd && Sum(e, entrySize, width) == e + entrySize
      invariant FitsFrom(Collect, b, end, width, State(AtEntry(e, entrySize, tagEnd), before + seen))
      invariant Entries(b, first, tagEnd, entrySize) == seen + Entries(b, e, tagEnd, entrySize)
      decreases tagEnd - e
    {
      FitsEntry(b, end, width, e, entrySize, tagEnd, before + seen);
      var base := Load(mem, e, 8);
      var length := Load(mem, e + 8, 8);
      var k := Load(mem, e + 16, 4);
      ghost var x, r := MmapEntry(base, length, k), Entries(b, e + entrySize, tagEnd, entrySize);
      assert Entries(b, e, tagEnd, entrySize) == [x] + r;
      assert seen + ([x] + r) == seen + [x] + r;
      assert before + seen + [x] == before + (seen + [x]);
      seen := seen + [MmapEntry(base, length, k)];
      e := Sum(e, entrySize, width);
      FitsEntry(b, end, width, e, entrySize, tagEnd, before + seen);
    }
    FitsEntry(b, end, width, e, entrySize, tagEnd, before + seen);
  }

  /** mb2_sum_usable_ram: the sum is taken modulo 2^64. */
  method SumUsableRam(mem: array<byte>, at: nat, width: nat) returns (ok: bool, sum: nat)
    requires Mapped(mem, at, width) && Fits(Collect, mem[..], at, width)
    ensures ok == Walk(mem[..], at).0
    ensures ok ==> sum == Total(Walk(mem[..], at).1) % U64_LIMIT
  {
    hide Walk, Fits, Get;
    var seen;
    ok, seen := WalkMmapEntries(mem, at, width);
    sum := 0;
    var i := 0;
    while i < |seen|
      invariant i <= |seen| && sum == Total(seen[..i]) % U64_LIMIT
    {
      assert seen[..i + 1][..i] == seen[..i];
      if seen[i].kind == AVAILABLE {
        sum := (sum + seen[i].length) % U64_LIMIT;
      }
      i := i + 1;
    }
    assert seen[..i] == seen;
  }

  /** mb2_for_each_available: the regions handed to the callback, in order.  The callback that it gives
      to the walk never stops it. */
  method ForEachAvailable(mem: array<byte>, at: nat, width: nat) returns (ok: bool, regions: seq<MmapEntry>)
    requires Mapped(mem, at, width) && Fits(Collect, mem[..], at, width)
    ensures ok == Walk(mem[..], at).0 && regions == Available(Walk(mem[..], at).1)
  {
    hide Walk, Fits, Get;
    var seen;
    ok, seen := WalkMmapEntries(mem, at, width);
    regions := [];
    var i := 0;
    while i < |seen|
      invariant i <= |seen| && Available(seen) == regions + Available(seen[i..])
    {
      assert seen[i..][1..] == seen[i + 1..];
      if seen[i].kind == AVAILABLE && seen[i].length != 0 {
        regions := regions + [seen[i]];
      }
      i := i + 1;
    }
  }

  /** The loop that mb2_read_basic_meminfo and find_acpi_tag share. */
  method FindTag(mem: array<byte>, at: nat, width: nat, want: nat) returns (tag: Option<nat>)
    requires Mapped(mem, at, width) && Fits(Seek(want), mem[..], at, width)
    ensures tag == Find(mem[..], at, want)
    ensures tag.Some? ==>
      tag.value + TAG <= tag.value + Get(mem[..], tag.value + 4, 4) <= at + Get(mem[..], at, 4)
  {
    hide Get, Sum, FitsFrom;
    ghost var b, w := mem[..], Seek(want);
    var total := Load(mem, at, 4);
    if total < 16 || total % 8 != 0 {
      return None;
    }
    SumIs(at, total, width);
    SumIs(at, FIXED, width);
    var end := Sum(at, total, width);
    var p := Sum(at, FIXED, width);
    FitsGuard(w, b, end, width, p, []);
    while Sum(p, TAG, width) <= end
      invariant p <= end && FitsFrom(w, b, end, width, State(AtGuard(p), []))
      invariant Sum(p, TAG, width) == p + TAG
      invariant FirstTag(b, at + FIXED, end, want) == FirstTag(b, p, end, want)
      decreases end - p
    {
      FitsGuard(w, b, end, width, p, []);
      var sz := Load(mem, Sum(p, 4, width), 4);
      if sz < TAG || sz % 8 != 0 {
        return None;
      }
      if Sum(p, sz, width) > end {
        return None;
      }
      FitsTag(w, b, end, width, p, sz, []);
      var kind := Load(mem, p, 4);
      if kind == END {
        break;
      }
      if kind == want {
        return Some(p);
      }
      p := Sum(p, sz, width);
      FitsGuard(w, b, end, width, p, []);
    }
    return None;
  }

  /** mb2_read_basic_meminfo */
  method ReadBasicMeminfo(mem: array<byte>, at: nat, width: nat) returns (ok: bool, lower: nat, upper: nat)
    requires Mapped(mem, at, width) && Fits(Seek(BASIC_MEMINFO), mem[..], at, width)
    ensures var tag := Find(mem[..], at, BASIC_MEMINFO);
      && (ok <==> tag.Some? && Get(mem[..], tag.value + 4, 4) >= 16)
      && (ok ==> lower == Get(mem[..], tag.value + 8, 4) && upper == Get(mem[..], tag.value + 12, 4))
  {
    hide Find, Fits, Get;
    lower, upper := 0, 0;
    var tag := FindTag(mem, at, width, BASIC_MEMINFO);
    if tag.None? {
      return false, 0, 0;
    }
    var sz := Load(mem, tag.value + 4, 4);
    if sz < 16 {
      return false, 0, 0;
    }
    lower := Load(mem, tag.value + 8, 4);
    upper := Load(mem, tag.value + 12, 4);
    ok := true;
  }

  /** find_acpi_tag: where the payload starts and how long it is. */
  method FindAcpiTag(mem: array<byte>, at: nat, width: nat, want: nat) returns (payload: Option<(nat, nat)>)
    requires Mapped(mem, at, width) && Fits(Seek(want), mem[..], at, width)
    ensures payload == AcpiPayload(mem[..], at, want)
    ensures payload.Some? ==>
      payload.value.0 + payload.value.1 <= at + Get(mem[..], at, 4) && payload.value.1 > 0
  {
    hide Find, Fits, Get;
    var tag := FindTag(mem, at, width, want);
    if tag.None? {
      return None;
    }
    var sz := Load(mem, tag.value + 4, 4);
    if sz <= 8 {
      return None;
    }
    payload := Some((tag.value + 8, sz - 8));
  }

  function AcpiPayload(b: seq<byte>, at: nat, want: nat): Option<(nat, nat)> {
    var tag := Find(b, at, want);
    if tag.None? || Get(b, tag.value + 4, 4) <= 8 then None
    else Some((tag.value + 8, Get(b, tag.value + 4, 4) - 8))
  }

  /** mb2_find_rsdp_payload: the new tag if it has a payload, else the old one, if it fits. */
  method FindRsdpPayload(mem: array<byte>, at: nat, width: nat, cap: nat) returns (out: Option<seq<byte>>)
    requires Mapped(mem, at, width)
    requires Fits(Seek(ACPI_NEW), mem[..], at, width)
    requires AcpiPayload(mem[..], at, ACPI_NEW).None? ==> Fits(Seek(ACPI_OLD), mem[..], at, width)
    ensures
      var new', old' := AcpiPayload(mem[..], at, ACPI_NEW), AcpiPayload(mem[..], at, ACPI_OLD);
      var pl := if new'.Some? then new' else old';
      if pl.None? || pl.value.1 > cap then out.None?
      else pl.value.0 + pl.value.1 <= mem.Length && out == Some(mem[pl.value.0..pl.value.0 + pl.value.1])
  {
    hide AcpiPayload, Fits, Get;
    var pl := FindAcpiTag(mem, at, width, ACPI_NEW);
    if pl.None? {
      pl := FindAcpiTag(mem, at, width, ACPI_OLD);
      if pl.None? {
        return None;
      }
    }
    var (a, n) := pl.value;
    if n > cap {
      return None;
    }
    var buf := [];
    var i := 0;
    while i < n
      invariant i <= n && buf == mem[a..a + i]
    {
      buf := buf + [mem[a + i]];
      i := i + 1;
    }
    return Some(buf);
  }
}
