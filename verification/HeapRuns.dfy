/** What every run of the allocator and of the owners of its blocks keeps. */
module HeapRuns {
  import opened Wrappers
  import opened Bytes
  import opened HeapModel
  import opened HeapCode

  /** A heap in use: memory, the abstract heap, and what each live block's owner wrote in it. */
  datatype InUse = InUse(m: seq<byte>, a: Alloc, data: map<nat, seq<byte>>)

  datatype Op =
    | Allocate(size: nat)
    | Release(block: nat)
    | Write(block: nat, at: nat, bytes: seq<byte>)

  /** One step by the allocator or by a block's owner.  Releasing or writing anything but a live
      block is the caller's mistake, and is not a step. */
  function Step(base: nat, s: InUse, op: Op): InUse {
    match op
    case Allocate(size) =>
      if BadSize(size) then s else
      var (a', r) := Malloc(s.a, Need(size));
      var m' := MallocMem(s.m, base, s.a, Need(size));
      if r.None? then InUse(m', a', s.data)
      else InUse(m', a', s.data[r.value := PayloadBytes(m', base, a', r.value)])
    case Release(b) =>
      if !s.a.Live(b) then s else
      InUse(FreeMem(s.m, base, s.a, b), Free(s.a, b), s.data - {b})
    case Write(b, at, bytes) =>
      if b !in s.data || at + |bytes| > |s.data[b]| then s else
      var was := s.data[b];
      InUse(Overwrite(s.m, Payload(base, s.a, b) + at, bytes), s.a,
            s.data[b := was[..at] + bytes + was[at + |bytes|..]])
  }

  function Run(base: nat, s: InUse, ops: seq<Op>): InUse
    decreases |ops|
  {
    if ops == [] then s else Run(base, Step(base, s, ops[0]), ops[1..])
  }

  function PayloadBytes(m: seq<byte>, base: nat, a: Alloc, b: nat): seq<byte> {
    var lo, hi := Payload(base, a, b), base + a.Start(b) + a.Size(b);
    if lo <= hi <= |m| then m[lo..hi] else []
  }

  function Overwrite(m: seq<byte>, x: nat, bytes: seq<byte>): (r: seq<byte>)
    ensures |r| == |m|
  {
    if x + |bytes| <= |m| then m[..x] + bytes + m[x + |bytes|..] else m
  }

  /** The memory encodes a well-formed heap, and every live block holds exactly what its owner last
      wrote there. */
  ghost predicate Inv(base: nat, s: InUse) {
    && Arena(s.m, base) && s.a.Wf() && s.a.Aligned()
    && Represents(WordsOf(s.m), base, s.a)
    && (forall b: nat {:trigger s.a.Live(b)} {:trigger b in s.data} :: s.a.Live(b) <==> b in s.data)
    && (forall b: nat {:trigger s.data[b]} :: b in s.data ==> s.data[b] == PayloadBytes(s.m, base, s.a, b))
  }

  /** Any run of kmalloc, kfree and owners' writes, from any heap in use, ends in a heap whose bytes
      still encode the tiling and the free list and whose live blocks still hold their owners' bytes. */
  lemma {:induction false} RunKeepsHeap(base: nat, s: InUse, ops: seq<Op>)
    requires Inv(base, s)
    ensures Inv(base, Run(base, s, ops))
    decreases |ops|
  {
    if ops != [] {
      StepKeepsHeap(base, s, ops[0]);
      RunKeepsHeap(base, Step(base, s, ops[0]), ops[1..]);
    }
  }

  lemma InitialHeap(m: seq<byte>, base: nat)
    requires Arena(m, base)
    ensures Inv(base, InUse(m, EMPTY_HEAP, map[]))
  {
  }

  lemma StepKeepsHeap(base: nat, s: InUse, op: Op)
    requires Inv(base, s)
    ensures Inv(base, Step(base, s, op))
  {
    match op
    case Allocate(size) =>
      if !BadSize(size) {
        AllocateKeepsHeap(base, s, size);
      }
    case Release(b) =>
      if s.a.Live(b) {
        ReleaseKeepsHeap(base, s, b);
      }
    case Write(b, at, bytes) =>
      if b in s.data && at + |bytes| <= |s.data[b]| {
        WriteKeepsHeap(base, s, b, at, bytes);
      }
  }

  lemma SamePayload(m: seq<byte>, m': seq<byte>, base: nat, a: Alloc, a': Alloc, b: nat)
    requires a.Wf() && a.IsBlock(b) && a.cuts <= a'.cuts && |m'| == |m|
    requires base + HEAP_SIZE <= |m| && base + a.Start(b) + HDR <= base + a.Start(b) + a.Size(b) <= |m|
    requires var lo, hi := base + a.Start(b) + HDR, base + a.Start(b) + a.Size(b); m'[lo..hi] == m[lo..hi]
    ensures PayloadBytes(m', base, a', b) == PayloadBytes(m, base, a, b)
  {
    assert a'.cuts[b] == a.cuts[b] && a'.cuts[b + 1] == a.cuts[b + 1];
  }

  lemma AllocateKeepsHeap(base: nat, s: InUse, size: nat)
    requires Inv(base, s) && !BadSize(size)
    ensures Inv(base, Step(base, s, Allocate(size)))
  {
    hide WordsOf, Put, Represents, PayloadBytes, MallocMem, Malloc;
    var need := Need(size);
    MallocOk(s.a, need);
    MallocRepresents(s.m, base, s.a, need);
    var (a', r) := Malloc(s.a, need);
    var m' := MallocMem(s.m, base, s.a, need);
    forall b: nat | b in s.data
      ensures a'.IsBlock(b) && PayloadBytes(m', base, a', b) == s.data[b]
    {
      assert s.a.Live(b);
      Bounds(s.a, b);
      MallocFrame(s.m, base, s.a, need, base + s.a.Start(b) + HDR, base + s.a.Start(b) + s.a.Size(b));
      SamePayload(s.m, m', base, s.a, a', b);
    }
  }

  lemma ReleaseKeepsHeap(base: nat, s: InUse, f: nat)
    requires Inv(base, s) && s.a.Live(f)
    ensures Inv(base, Step(base, s, Release(f)))
  {
    hide WordsOf, Put, Represents, PayloadBytes, FreeMem;
    FreeOk(s.a, f);
    FreeRepresents(s.m, base, s.a, f);
    forall b: nat | b in s.data && b != f
      ensures PayloadBytes(FreeMem(s.m, base, s.a, f), base, Free(s.a, f), b) == s.data[b]
    {
      assert s.a.Live(b);
      Bounds(s.a, b);
      FreeFrame(s.m, base, s.a, f, base + s.a.Start(b) + HDR, base + s.a.Start(b) + s.a.Size(b));
      SamePayload(s.m, FreeMem(s.m, base, s.a, f), base, s.a, Free(s.a, f), b);
    }
  }

  lemma WriteKeepsHeap(base: nat, s: InUse, b: nat, at: nat, bytes: seq<byte>)
    requires Inv(base, s) && b in s.data && at + |bytes| <= |s.data[b]|
    ensures Inv(base, Step(base, s, Write(b, at, bytes)))
  {
    hide WordsOf, Represents;
    assert s.a.Live(b);
    Bounds(s.a, b);
    var x := Payload(base, s.a, b) + at;
    var m' := Overwrite(s.m, x, bytes);
    PayloadRepresents(s.m, m', base, s.a, b);
    forall c: nat | c in s.data && c != b
      ensures PayloadBytes(m', base, s.a, c) == s.data[c]
    {
      assert s.a.Live(c);
      Disjoint(s.a, b, c);
    }
    var was := s.data[b];
    assert PayloadBytes(m', base, s.a, b) == was[..at] + bytes + was[at + |bytes|..];
  }
}
