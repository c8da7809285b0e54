/** kernel/heap.c: the first-fit free list threaded through the arena's own bytes, with a bump
    allocator for misses.  `Alloc` is the abstract allocator; `Represents` says when the bytes of
    memory encode one; HeapCode.dfy has the code. */
module HeapModel {
  import opened Wrappers
  import opened Bytes

  const HEAP_SIZE := 262144
  const HDR := 16      // HEAP_HDR_USER_OFFSET: an 8-byte total, padded to 16
  const WORD := 8      // sizeof(size_t) and of a pointer on amd64

  /** Bytes taken from the arena by a request: the header, rounded up to 16. */
  function Need(size: nat): nat {
    (HDR + size + 15) / 16 * 16
  }

  predicate BadSize(size: nat) {
    size == 0 || size > HEAP_SIZE || Need(size) > HEAP_SIZE
  }

  // ---------------------------------------------------------------- the abstract allocator

  /** Block `i` is the range [cuts[i], cuts[i + 1]) of the arena, so the blocks tile what has been
      carved; the last cut is g_heap_off.  `free` lists the free blocks in list order. */
  datatype Alloc = Alloc(cuts: seq<nat>, free: seq<nat>) {

    /** Cut `i` is a whole block, at least 32 bytes, before cut `j`. */
    predicate Ordered(i: nat, j: nat)
      requires i < |cuts| && j < |cuts|
    {
      cuts[i] + 32 <= cuts[j]
    }

    ghost predicate Wf() {
      && |cuts| > 0 && cuts[0] == 0 && Top() <= HEAP_SIZE
      && (forall i, j {:trigger Ordered(i, j)} :: 0 <= i < j < |cuts| ==> Ordered(i, j))
      && (forall k :: 0 <= k < |free| ==> free[k] < |cuts| - 1)
      && (forall j, k :: 0 <= j < k < |free| ==> free[j] != free[k])
    }

    /** Every block boundary is 16-byte aligned, hence every pointer handed out. */
    ghost predicate Aligned() {
      forall i :: 0 <= i < |cuts| ==> cuts[i] % 16 == 0
    }

    function Top(): nat {
      if cuts == [] then 0 else cuts[|cuts| - 1]
    }

    /** How many blocks have been carved. */
    function Count(): nat {
      if cuts == [] then 0 else |cuts| - 1
    }

    predicate IsBlock(i: nat) {
      i + 1 < |cuts|
    }

    predicate Live(i: nat) {
      IsBlock(i) && i !in free
    }

    /** Offset of block `i`'s header. */
    function Start(i: nat): nat {
      if i < |cuts| then cuts[i] else 0
    }

    function Size(i: nat): nat {
      if IsBlock(i) && cuts[i] <= cuts[i + 1] then cuts[i + 1] - cuts[i] else 0
    }
  }

  const EMPTY_HEAP := Alloc([0], [])

  /** Position in the free list of the first block that fits, or its length. */
  function FirstFit(a: Alloc, need: nat, from: nat := 0): (k: nat)
    requires from <= |a.free|
    ensures from <= k <= |a.free|
    ensures forall j :: from <= j < k ==> a.Size(a.free[j]) < need
    ensures k < |a.free| ==> a.Size(a.free[k]) >= need
    decreases |a.free| - from
  {
    if from == |a.free| || a.Size(a.free[from]) >= need then from else FirstFit(a, need, from + 1)
  }

  /** First fit without splitting; then bump; then out of memory.  The result is a block. */
  function Malloc(a: Alloc, need: nat): (Alloc, Option<nat>)
  {
    var k := FirstFit(a, need);
    if k < |a.free| then
      (a.(free := a.free[..k] + a.free[k + 1..]), Some(a.free[k]))
    else if HEAP_SIZE < a.Top() + need then
      (a, None)
    else
      (a.(cuts := a.cuts + [a.Top() + need]), Some(a.Count()))
  }

  function Free(a: Alloc, b: nat): Alloc {
    a.(free := [b] + a.free)
  }

  /** The bytes taken: room for the request behind the 16-byte header, to the next multiple of 16; a request
      is refused when it is empty or cannot fit the 256 KiB. */
  lemma NeedOk(size: nat)
    ensures size + 16 <= Need(size) < size + 32 && Need(size) % 16 == 0
    ensures BadSize(size) <==> size == 0 || size > 256 * 1024 - 16
  {
  }

  /** The block freed last is the first to be handed out again, and that undoes the release. */
  lemma FreeThenMalloc(a: Alloc, b: nat, need: nat)
    requires a.Wf() && a.Live(b) && need <= a.Size(b)
    ensures Malloc(Free(a, b), need) == (a, Some(b))
  {
    var a1 := Free(a, b);
    assert a1.free[0] == b && a1.Size(b) == a.Size(b);
    FirstFitTaken(a1, need, 0);
    assert a1.free[..0] + a1.free[1..] == a.free;
  }

  /** A successful allocation hands out a block nobody holds, big enough, and changes the place and
      status of no other block; failure means that nothing listed fits and the arena has no room. */
  lemma MallocOk(a: Alloc, need: nat)
    requires a.Wf() && need >= 32
    ensures var (a', r) := Malloc(a, need);
      && a'.Wf()
      && (need % 16 == 0 && a.Aligned() ==> a'.Aligned())
      && a.cuts <= a'.cuts
      && (r.None? <==> a.Top() + need > HEAP_SIZE && forall k :: 0 <= k < |a.free| ==> a.Size(a.free[k]) < need)
      && (r.None? ==> a' == a)
      && (r.Some? ==>
            && !a.Live(r.value) && a'.Live(r.value) && a'.Size(r.value) >= need
            && (forall c: nat :: c != r.value ==> (a'.Live(c) <==> a.Live(c))))
  {
    var k := FirstFit(a, need);
    if k < |a.free| {
      Reused(a, need, k);
    } else if a.Top() + need <= HEAP_SIZE {
      Bumped(a, need);
    }
  }

  /** Which block a request gets: the first listed one that fits, which leaves the list; without such a block,
      a new one of exactly the size asked for. */
  lemma FirstFitTaken(a: Alloc, need: nat, k: nat)
    requires k <= |a.free| && (k < |a.free| ==> a.Size(a.free[k]) >= need)
    requires forall j :: 0 <= j < k ==> a.Size(a.free[j]) < need
    ensures
      var (a', r) := Malloc(a, need);
      if k < |a.free| then
        r == Some(a.free[k]) && a'.free == a.free[..k] + a.free[k + 1..] && a'.cuts == a.cuts
      else if a.Top() + need <= 262144 then
        r == Some(a.Count()) && a'.free == a.free && a'.cuts == a.cuts + [a.Top() + need]
      else r.None? && a' == a
  {
    hide Alloc.Size, Alloc.Top, Alloc.Count;
    assert FirstFit(a, need) == k;
  }

  /** Taking the k-th listed block. */
  lemma Reused(a: Alloc, need: nat, k: nat)
    requires a.Wf() && k == FirstFit(a, need) < |a.free|
    ensures var (a', r) := Malloc(a, need);
      && a'.Wf() && a'.cuts == a.cuts && r == Some(a.free[k])
      && !a.Live(a.free[k]) && a'.Live(a.free[k]) && a'.Size(a.free[k]) >= need
      && (forall c: nat :: c != a.free[k] ==> (a'.Live(c) <==> a.Live(c)))
  {
    Removed(a.free, k);
    Bounds(a, a.free[k]);
    SameCuts(a, Malloc(a, need).0);
  }

  /** Carving a new block. */
  lemma Bumped(a: Alloc, need: nat)
    requires a.Wf() && need >= 32 && FirstFit(a, need) == |a.free| && a.Top() + need <= HEAP_SIZE
    ensures var (a', r) := Malloc(a, need);
      && a'.Wf() && a.cuts <= a'.cuts && r == Some(a.Count())
      && (need % 16 == 0 && a.Aligned() ==> a'.Aligned())
      && !a.Live(r.value) && a'.Live(r.value) && a'.Size(r.value) >= need
      && (forall c: nat :: c != r.value ==> (a'.Live(c) <==> a.Live(c)))
  {
    var a' := Malloc(a, need).0;
    forall i: nat, j: nat | i < j < |a'.cuts|
      ensures a'.Ordered(i, j)
    {
      if j < |a.cuts| {
        assert a.Ordered(i, j);
      } else if i < |a.cuts| - 1 {
        assert a.Ordered(i, |a.cuts| - 1);
      }
    }
  }

  lemma SameCuts(a: Alloc, a': Alloc)
    requires a.Wf() && a'.cuts == a.cuts
    ensures forall i, j {:trigger a'.Ordered(i, j)} :: 0 <= i < j < |a'.cuts| ==> a'.Ordered(i, j)
  {
    forall i: nat, j: nat | i < j < |a'.cuts|
      ensures a'.Ordered(i, j)
    {
      assert a.Ordered(i, j);
    }
  }

  lemma Bounds(a: Alloc, b: nat)
    requires a.Wf() && a.IsBlock(b)
    ensures a.Size(b) >= 32 && a.Start(b) + a.Size(b) == a.cuts[b + 1] <= a.Top() <= HEAP_SIZE
  {
    assert a.Ordered(b, b + 1);
    assert b + 1 < |a.cuts| - 1 ==> a.Ordered(b + 1, |a.cuts| - 1);
  }

  /** Two blocks do not meet. */
  lemma Disjoint(a: Alloc, b: nat, c: nat)
    requires a.Wf() && a.IsBlock(b) && a.IsBlock(c)
    ensures b < c ==> a.Start(b) + a.Size(b) <= a.Start(c)
    ensures c < b ==> a.Start(c) + a.Size(c) <= a.Start(b)
    ensures a.Size(b) >= 32 && a.Start(b) + a.Size(b) <= a.Top() <= HEAP_SIZE
    ensures a.Size(c) >= 32 && a.Start(c) + a.Size(c) <= a.Top()
  {
    Bounds(a, b);
    Bounds(a, c);
    assert b + 1 < c ==> a.Ordered(b + 1, c);
    assert c + 1 < b ==> a.Ordered(c + 1, b);
  }

  /** What taking element `i` out of a duplicate-free sequence leaves. */
  lemma Removed(s: seq<nat>, i: nat)
    requires i < |s|
    requires forall j, k :: 0 <= j < k < |s| ==> s[j] != s[k]
    ensures var t := s[..i] + s[i + 1..];
      && s[i] !in t
      && (forall x :: x != s[i] ==> (x in t <==> x in s))
      && (forall j, k :: 0 <= j < k < |t| ==> t[j] != t[k])
  {
    var t := s[..i] + s[i + 1..];
    forall x | x != s[i] && x in s
      ensures x in t
    {
      var j :| 0 <= j < |s| && s[j] == x;
      assert t[if j < i then j else j - 1] == x;
    }
  }

  lemma FreeOk(a: Alloc, b: nat)
    requires a.Wf() && a.Live(b)
    ensures Free(a, b).Wf() && !Free(a, b).Live(b)
    ensures forall c: nat :: c != b ==> (Free(a, b).Live(c) <==> a.Live(c))
  {
    SameCuts(a, Free(a, b));
    var f := Free(a, b).free;
    assert f[0] == b && forall i :: 0 < i < |f| ==> f[i] == a.free[i - 1];
    assert forall c :: c in a.free ==> c in f;
  }

  /** The tiling: every byte below the bump offset lies in exactly one block. */
  lemma BlockOf(a: Alloc, x: nat) returns (b: nat)
    requires a.Wf() && x < a.Top()
    ensures a.IsBlock(b) && a.cuts[b] <= x < a.cuts[b + 1]
    ensures forall c: nat :: a.IsBlock(c) && a.cuts[c] <= x < a.cuts[c + 1] ==> c == b
  {
    b := 0;
    while x >= a.cuts[b + 1]
      invariant a.IsBlock(b) && a.cuts[b] <= x
      decreases |a.cuts| - b
    {
      b := b + 1;
    }
    forall c: nat | a.IsBlock(c) && a.cuts[c] <= x < a.cuts[c + 1]
      ensures c == b
    {
      Disjoint(a, b, c);
    }
  }

  // ---------------------------------------------------------------- representation in memory

  /** The pointer to the block at position `k` of the free list: NULL past its end. */
  function PtrAt(base: nat, a: Alloc, k: nat): nat
  {
    if k < |a.free| then base + a.Start(a.free[k]) else 0
  }

  predicate Arena(m: seq<byte>, base: nat) {
    16 <= base && base % 16 == 0 && base + HEAP_SIZE <= |m| <= U64_LIMIT
  }

  /** The 8-byte words of memory, by address. */
  type Words = seq<int>

  function WordsOf(m: seq<byte>): (w: Words)
    ensures |w| == if |m| < WORD then 0 else |m| - WORD + 1
  {
    seq(if |m| < WORD then 0 else |m| - WORD + 1, x requires 0 <= x <= |m| - WORD => Get(m, x, WORD))
  }

  /** The word at address `x`; -1 outside memory. */
  function At(w: Words, x: int): int {
    if 0 <= x < |w| then w[x] else -1
  }

  /** `w'` is `w` after storing `v` at `x`, as far as words that do not straddle it can tell. */
  ghost predicate Stored(w: Words, w': Words, x: int, v: int) {
    At(w', x) == v && forall y: int {:trigger At(w', y)} :: y + WORD <= x || x + WORD <= y ==> At(w', y) == At(w, y)
  }

  lemma PutStored(m: seq<byte>, x: nat, v: nat)
    requires x + WORD <= |m| && v < U64_LIMIT
    ensures Stored(WordsOf(m), WordsOf(Put(m, x, WORD, v)), x, v)
  {
    Limits();
    GetPut(m, x, WORD, v);
    var w, w' := WordsOf(m), WordsOf(Put(m, x, WORD, v));
    forall y: int | y + WORD <= x || x + WORD <= y
      ensures At(w', y) == At(w, y)
    {
      if 0 <= y < |w| {
        PutFrame(m, x, WORD, v, y, y + WORD);
      }
    }
  }

  /** The link of the block at position `k` of the free list points to the next one. */
  predicate Linked(w: Words, base: nat, a: Alloc, k: nat)
    requires k < |a.free|
  {
    At(w, base + a.Start(a.free[k]) + HDR) == PtrAt(base, a, k + 1)
  }

  /** Memory holds each block's total in its header, and in each free block the pointer to the
      next free block. */
  ghost predicate Represents(w: Words, base: nat, a: Alloc) {
    && (forall b: nat {:trigger a.IsBlock(b)} :: a.IsBlock(b) ==> At(w, base + a.Start(b)) == a.Size(b))
    && (forall k: nat {:trigger Linked(w, base, a, k)} :: k < |a.free| ==> Linked(w, base, a, k))
  }

  /** Memory after kmalloc: an unlink in the predecessor's link, or a new header. */
  function MallocMem(m: seq<byte>, base: nat, a: Alloc, need: nat): (r: seq<byte>)
    ensures |r| == |m|
  {
    var k := FirstFit(a, need);
    if k < |a.free| then
      if k == 0 then m else Put(m, base + a.Start(a.free[k - 1]) + HDR, WORD, PtrAt(base, a, k + 1))
    else if HEAP_SIZE < a.Top() + need then m
    else Put(m, base + a.Top(), WORD, need)
  }

  /** Memory after kfree: the link in the freed block. */
  function FreeMem(m: seq<byte>, base: nat, a: Alloc, b: nat): (r: seq<byte>)
    ensures |r| == |m|
  {
    Put(m, base + a.Start(b) + HDR, WORD, PtrAt(base, a, 0))
  }

  /** Storing a word into the link field of block `p` keeps every header and every other link. */
  lemma LinkStore(w: Words, w': Words, base: nat, a: Alloc, p: nat, v: nat)
    requires a.Wf() && Represents(w, base, a) && a.IsBlock(p)
    requires Stored(w, w', base + a.Start(p) + HDR, v)
    ensures forall b: nat {:trigger a.IsBlock(b)} :: a.IsBlock(b) ==> At(w', base + a.Start(b)) == a.Size(b)
    ensures forall k: nat {:trigger Linked(w', base, a, k)} :: k < |a.free| && a.free[k] != p ==> Linked(w', base, a, k)
  {
    forall b: nat | a.IsBlock(b)
      ensures At(w', base + a.Start(b)) == a.Size(b)
    {
      Disjoint(a, b, p);
    }
    forall k: nat | k < |a.free| && a.free[k] != p
      ensures Linked(w', base, a, k)
    {
      Disjoint(a, a.free[k], p);
      assert Linked(w, base, a, k);
    }
  }

  /** kmalloc keeps the representation. */
  lemma MallocRepresents(m: seq<byte>, base: nat, a: Alloc, need: nat)
    requires Arena(m, base) && a.Wf() && Represents(WordsOf(m), base, a) && 32 <= need
    ensures Malloc(a, need).0.Wf()
    ensures Represents(WordsOf(MallocMem(m, base, a, need)), base, Malloc(a, need).0)
  {
    hide WordsOf, Put, Represents, Stored;
    MallocOk(a, need);
    var i := FirstFit(a, need);
    var (a', _) := Malloc(a, need);
    var m' := MallocMem(m, base, a, need);
    if i < |a.free| {
      if i > 0 {
        if i + 1 < |a.free| {
          Bounds(a, a.free[i + 1]);
        }
        Bounds(a, a.free[i - 1]);
        PutStored(m, base + a.Start(a.free[i - 1]) + HDR, PtrAt(base, a, i + 1));
      }
      UnlinkRepresents(WordsOf(m), WordsOf(m'), base, a, i, a');
    } else if a.Top() + need <= HEAP_SIZE {
      PutStored(m, base + a.Top(), need);
      BumpRepresents(WordsOf(m), WordsOf(m'), base, a, need, a');
    }
  }

  lemma UnlinkRepresents(w: Words, w': Words, base: nat, a: Alloc, i: nat, a': Alloc)
    requires a.Wf() && Represents(w, base, a) && i < |a.free|
    requires a' == a.(free := a.free[..i] + a.free[i + 1..]) && a'.Wf()
    requires i == 0 ==> w' == w
    requires i > 0 ==> Stored(w, w', base + a.Start(a.free[i - 1]) + HDR, PtrAt(base, a, i + 1))
    ensures Represents(w', base, a')
  {
    if i > 0 {
      LinkStore(w, w', base, a, a.free[i - 1], PtrAt(base, a, i + 1));
    }
    forall k: nat | k < |a'.free|
      ensures Linked(w', base, a', k)
    {
      assert a'.free[k] == a.free[if k < i then k else k + 1];
      assert k != i - 1 ==> Linked(w', base, a, if k < i then k else k + 1);
    }
    forall b: nat | a'.IsBlock(b)
      ensures At(w', base + a'.Start(b)) == a'.Size(b)
    {
      assert a.IsBlock(b);
    }
  }

  lemma BumpRepresents(w: Words, w': Words, base: nat, a: Alloc, need: nat, a': Alloc)
    requires a.Wf() && Represents(w, base, a) && 32 <= need
    requires a' == a.(cuts := a.cuts + [a.Top() + need]) && a'.Wf()
    requires Stored(w, w', base + a.Top(), need)
    ensures Represents(w', base, a')
  {
    forall b: nat | a'.IsBlock(b)
      ensures At(w', base + a'.Start(b)) == a'.Size(b)
    {
      if a.IsBlock(b) {
        Bounds(a, b);
      }
    }
    forall k: nat | k < |a'.free|
      ensures Linked(w', base, a', k)
    {
      Bounds(a, a.free[k]);
      assert Linked(w, base, a, k);
    }
  }

  /** kfree of a live block keeps the representation. */
  lemma FreeRepresents(m: seq<byte>, base: nat, a: Alloc, b: nat)
    requires Arena(m, base) && a.Wf() && Represents(WordsOf(m), base, a) && a.Live(b)
    ensures Free(a, b).Wf() && Represents(WordsOf(FreeMem(m, base, a, b)), base, Free(a, b))
  {
    hide WordsOf, Put;
    Bounds(a, b);
    FreeOk(a, b);
    if a.free != [] {
      Bounds(a, a.free[0]);
    }
    PutStored(m, base + a.Start(b) + HDR, PtrAt(base, a, 0));
    PushRepresents(WordsOf(m), WordsOf(FreeMem(m, base, a, b)), base, a, b, Free(a, b));
  }

  lemma PushRepresents(w: Words, w': Words, base: nat, a: Alloc, b: nat, a': Alloc)
    requires a.Wf() && Represents(w, base, a) && a.Live(b)
    requires a' == Free(a, b) && a'.Wf()
    requires Stored(w, w', base + a.Start(b) + HDR, PtrAt(base, a, 0))
    ensures Represents(w', base, a')
  {
    LinkStore(w, w', base, a, b, PtrAt(base, a, 0));
    forall k: nat | k < |a'.free|
      ensures Linked(w', base, a', k)
    {
      if k > 0 {
        assert a'.free[k] == a.free[k - 1];
        assert Linked(w', base, a, k - 1);
      }
    }
    forall c: nat | a'.IsBlock(c)
      ensures At(w', base + a'.Start(c)) == a'.Size(c)
    {
      assert a.IsBlock(c);
    }
  }

  /** The range [lo, hi) is outside the arena or inside one live block other than `but`. */
  ghost predicate Owned(base: nat, a: Alloc, lo: nat, hi: nat, but: int) {
    || hi <= base || base + HEAP_SIZE <= lo
    || exists b: nat {:trigger a.Live(b)} ::
      b != but && a.Live(b) && base + a.Start(b) <= lo && hi <= base + (a.Start(b) + a.Size(b))
  }

  /** kmalloc touches no byte of a live block and none outside the arena. */
  lemma MallocFrame(m: seq<byte>, base: nat, a: Alloc, need: nat, lo: nat, hi: nat)
    requires Arena(m, base) && a.Wf() && need >= 32 && lo <= hi <= |m|
    requires Owned(base, a, lo, hi, -1)
    ensures MallocMem(m, base, a, need)[lo..hi] == m[lo..hi]
  {
    hide Put;
    var i := FirstFit(a, need);
    if 0 < i < |a.free| {
      var p := a.free[i - 1];
      assert p in a.free;
      Bounds(a, p);
      if !(hi <= base || base + HEAP_SIZE <= lo) {
        var b: nat :| b != -1 && a.Live(b) && base + a.Start(b) <= lo && hi <= base + (a.Start(b) + a.Size(b));
        Disjoint(a, b, p);
      }
      PutFrame(m, base + a.Start(p) + HDR, WORD, PtrAt(base, a, i + 1), lo, hi);
    } else if i == |a.free| && a.Top() + need <= HEAP_SIZE {
      if !(hi <= base || base + HEAP_SIZE <= lo) {
        var b: nat :| b != -1 && a.Live(b) && base + a.Start(b) <= lo && hi <= base + (a.Start(b) + a.Size(b));
        Bounds(a, b);
      }
      PutFrame(m, base + a.Top(), WORD, need, lo, hi);
    }
  }

  /** kfree touches no byte of another live block and none outside the arena. */
  lemma FreeFrame(m: seq<byte>, base: nat, a: Alloc, f: nat, lo: nat, hi: nat)
    requires Arena(m, base) && a.Wf() && lo <= hi <= |m|
    requires a.Live(f)
    requires Owned(base, a, lo, hi, f)
    ensures FreeMem(m, base, a, f)[lo..hi] == m[lo..hi]
  {
    hide Put;
    Bounds(a, f);
    if !(hi <= base || base + HEAP_SIZE <= lo) {
      var b: nat :| b != f && a.Live(b) && base + a.Start(b) <= lo && hi <= base + (a.Start(b) + a.Size(b));
      Disjoint(a, b, f);
    }
    PutFrame(m, base + a.Start(f) + HDR, WORD, PtrAt(base, a, 0), lo, hi);
  }

  lemma WordsAgree(m: seq<byte>, m': seq<byte>, lo: int, hi: int)
    requires SameOutside(m, m', lo, hi)
    ensures forall y: int {:trigger At(WordsOf(m'), y)} :: y + WORD <= lo || hi <= y ==>
              At(WordsOf(m'), y) == At(WordsOf(m), y)
  {
    forall y: int | y + WORD <= lo || hi <= y
      ensures At(WordsOf(m'), y) == At(WordsOf(m), y)
    {
      if 0 <= y && y + WORD <= |m| {
        assert m'[y..y + WORD] == m[y..y + WORD];
      }
    }
  }

  /** Memory that differs only inside one live block's payload still represents the same heap. */
  lemma PayloadRepresents(m: seq<byte>, m': seq<byte>, base: nat, a: Alloc, b: nat)
    requires Arena(m, base) && a.Wf() && Represents(WordsOf(m), base, a) && a.Live(b)
    requires SameOutside(m, m', base + a.Start(b) + HDR, base + (a.Start(b) + a.Size(b)))
    ensures Represents(WordsOf(m'), base, a)
  {
    var w, w' := WordsOf(m), WordsOf(m');
    WordsAgree(m, m', base + a.Start(b) + HDR, base + (a.Start(b) + a.Size(b)));
    hide WordsOf;
    forall c: nat | a.IsBlock(c)
      ensures At(w', base + a.Start(c)) == a.Size(c)
    {
      Disjoint(a, b, c);
    }
    forall k: nat | k < |a.free|
      ensures Linked(w', base, a, k)
    {
      assert a.free[k] in a.free && Linked(w, base, a, k);
      Disjoint(a, b, a.free[k]);
    }
  }
}
