/** The allocator's code, proved against the abstract one. */
module HeapCode {
  import opened Wrappers
  import opened Bytes
  import opened HeapModel

  /** The pointer that kmalloc returns for block `b`. */
  function Payload(base: nat, a: Alloc, b: nat): nat {
    base + a.Start(b) + HDR
  }

  /** What kfree accepts: NULL, a pointer outside the arena, or the pointer to a live block. */
  ghost predicate Freeable(base: nat, a: Alloc, ptr: nat) {
    || ptr < base + HDR || ptr >= base + HEAP_SIZE
    || exists b: nat {:trigger a.Live(b)} :: a.Live(b) && ptr == Payload(base, a, b)
  }

  /** Memory, g_freelist and g_heap_off together encode the abstract heap `a`. */
  ghost predicate Good(m: seq<byte>, base: nat, freelist: nat, off: nat, a: Alloc) {
    && Arena(m, base)
    && a.Wf() && a.Aligned()
    && off == a.Top()
    && freelist == PtrAt(base, a, 0)
    && Represents(WordsOf(m), base, a)
  }

  lemma NeedIs(size: nat)
    ensures Need(size) == (HDR + size + 15) / 16 * 16
  {
  }

  /** `p` is aligned and points behind the 16-byte header of a block that has been free until now and has room
      for `size` bytes. */
  ghost predicate Room(base: nat, was: Alloc, a: Alloc, p: nat, size: nat) {
    p % 16 == 0 && exists b: nat {:trigger a.Live(b)} ::
      a.Live(b) && !was.Live(b) && base + a.cuts[b] + 16 == p && p + size <= base + a.cuts[b + 1]
  }

  /** A block taken for a request is aligned and has room for it. */
  lemma PayloadOk(m: seq<byte>, base: nat, fl: nat, off: nat, was: Alloc, a: Alloc, size: nat)
    requires was.Wf() && Good(m, base, fl, off, a) && size > 0
    requires Malloc(was, Need(size)).1.Some? && a == Malloc(was, Need(size)).0
    ensures Room(base, was, a, Payload(base, a, Malloc(was, Need(size)).1.value), size)
  {
    hide Malloc, Represents;
    NeedOk(size);
    MallocOk(was, Need(size));
  }

  lemma ListEnd(m: seq<byte>, base: nat, fl: nat, off: nat, a: Alloc)
    requires Good(m, base, fl, off, a)
    ensures fl == PtrAt(base, a, 0) && (fl == 0 <==> |a.free| == 0)
  {
  }

  /** What the header and the link of the k-th listed block hold. */
  lemma FreeBlock(m: seq<byte>, base: nat, fl: nat, off: nat, a: Alloc, k: nat)
    requires Good(m, base, fl, off, a) && k < |a.free|
    ensures var x, w := base + a.Start(a.free[k]), WordsOf(m);
      && 0 < x && x + HDR + WORD <= |m| && PtrAt(base, a, k) == x
      && At(w, x) == a.Size(a.free[k]) && At(w, x + HDR) == PtrAt(base, a, k + 1)
      && (PtrAt(base, a, k + 1) == 0 <==> k + 1 == |a.free|)
  {
    hide WordsOf, At;
    Bounds(a, a.free[k]);
    assert a.IsBlock(a.free[k]) && Linked(WordsOf(m), base, a, k);
  }

  lemma GoodBounds(m: seq<byte>, base: nat, fl: nat, off: nat, a: Alloc)
    requires Good(m, base, fl, off, a)
    ensures off == a.Top() <= HEAP_SIZE && 16 <= base && base + HEAP_SIZE <= |m| <= U64_LIMIT
    ensures fl == PtrAt(base, a, 0)
    ensures forall b: nat {:trigger a.IsBlock(b)} ::
      a.IsBlock(b) ==> a.Start(b) + a.Size(b) <= HEAP_SIZE && a.Size(b) >= 32
    ensures forall k :: 0 <= k < |a.free| ==> a.IsBlock(a.free[k])
  {
    forall b: nat | a.IsBlock(b)
      ensures a.Start(b) + a.Size(b) <= HEAP_SIZE && a.Size(b) >= 32
    {
      Bounds(a, b);
    }
  }

  /** kmalloc's outcome when position `k` of the free list is the first that fits: unlink it. */
  lemma UnlinkCase(m: seq<byte>, base: nat, fl: nat, off: nat, a: Alloc, need: nat, k: nat)
    requires Good(m, base, fl, off, a) && need >= 32 && need % 16 == 0
    requires k == FirstFit(a, need) < |a.free|
    ensures Malloc(a, need).1 == Some(a.free[k])
    ensures Malloc(a, need).0.cuts == a.cuts
    ensures MallocMem(m, base, a, need) ==
      if k == 0 then m else Put(m, base + a.Start(a.free[k - 1]) + HDR, WORD, PtrAt(base, a, k + 1))
    ensures Good(MallocMem(m, base, a, need), base, if k == 0 then PtrAt(base, a, 1) else fl, off, Malloc(a, need).0)
  {
    hide WordsOf, Put;
    MallocOk(a, need);
    MallocRepresents(m, base, a, need);
  }

  /** kmalloc's outcome when nothing listed fits: bump or fail. */
  lemma BumpCase(m: seq<byte>, base: nat, fl: nat, off: nat, a: Alloc, need: nat)
    requires Good(m, base, fl, off, a) && need >= 32 && need % 16 == 0
    requires FirstFit(a, need) == |a.free|
    ensures HEAP_SIZE < off + need ==>
      Malloc(a, need) == (a, None) && MallocMem(m, base, a, need) == m
    ensures HEAP_SIZE >= off + need ==>
      && MallocMem(m, base, a, need) == Put(m, base + off, WORD, need)
      && Malloc(a, need).1 == Some(a.Count())
      && Malloc(a, need).0.IsBlock(a.Count())
      && Payload(base, Malloc(a, need).0, a.Count()) == base + off + HDR
      && Good(MallocMem(m, base, a, need), base, fl, off + need, Malloc(a, need).0)
  {
    hide WordsOf, Put;
    MallocOk(a, need);
    MallocRepresents(m, base, a, need);
  }

  /** kfree's effect. */
  lemma FreeCase(m: seq<byte>, base: nat, fl: nat, off: nat, a: Alloc, b: nat)
    requires Good(m, base, fl, off, a) && a.Live(b)
    ensures FreeMem(m, base, a, b) == Put(m, base + a.Start(b) + HDR, WORD, fl)
    ensures Good(FreeMem(m, base, a, b), base, base + a.Start(b), off, Free(a, b))
    ensures forall c: nat {:trigger a.Live(c)} :: a.Live(c) && Payload(base, a, c) == Payload(base, a, b) ==> c == b
  {
    hide WordsOf, Put;
    Bounds(a, b);
    FreeRepresents(m, base, a, b);
    forall c: nat | a.Live(c) && Payload(base, a, c) == Payload(base, a, b)
      ensures c == b
    {
      Disjoint(a, b, c);
    }
  }

  class Heap {
    const mem: array<byte>   // all of physical memory
    const base: nat          // &g_heap[0]
    var freelist: nat        // g_freelist: a header's address, 0 for NULL
    var off: nat             // g_heap_off
    ghost var a: Alloc

    ghost predicate Valid()
      reads this, mem
    {
      Good(mem[..], base, freelist, off, a)
    }

    /** heap_init */
    constructor (mem: array<byte>, base: nat)
      requires Arena(mem[..], base)
      ensures this.mem == mem && this.base == base
      ensures Valid() && a == EMPTY_HEAP
    {
      this.mem := mem;
      this.base := base;
      freelist := 0;
      off := 0;
      a := EMPTY_HEAP;
    }

    method Kmalloc(size: nat) returns (p: nat)
      requires Valid()
      modifies this, mem
      ensures Valid()
      ensures BadSize(size) ==> p == 0 && a == old(a) && mem[..] == old(mem[..])
      ensures !BadSize(size) ==>
        var (a', r) := Malloc(old(a), Need(size));
        && a == a' && mem[..] == MallocMem(old(mem[..]), base, old(a), Need(size))
        && if r.None? then p == 0 else a.IsBlock(r.value) && p == Payload(base, a, r.value)
      ensures p != 0 ==> Room(base, old(a), a, p, size)
    {
      assert a.Wf();
      hide Malloc, MallocMem, Good, Payload, Room, Need;
      if size == 0 || size > HEAP_SIZE {
        return 0;
      }
      var need := (HDR + size + 15) / 16 * 16;
      NeedIs(size);
      if need > HEAP_SIZE {
        return 0;
      }
      NeedOk(size);
      ghost var was := a;
      p := Carve(need);
      if p != 0 {
        PayloadOk(mem[..], base, freelist, off, was, a, size);
      }
    }

    /** The part of kmalloc after the size checks. */
    method Carve(need: nat) returns (p: nat)
      requires Valid() && need >= 32 && need % 16 == 0
      modifies this, mem
      ensures Valid()
      ensures var (a', r) := Malloc(old(a), need);
        && a == a' && mem[..] == MallocMem(old(mem[..]), base, old(a), need)
        && if r.None? then p == 0 else a.IsBlock(r.value) && p == Payload(base, a, r.value)
    {
      ghost var a0 := a;
      hide Good, Malloc, MallocMem, FirstFit, Put;
      GoodBounds(mem[..], base, freelist, off, a);
      ghost var k := FirstFit(a, need);
      var plink, b, nb := FindFit(need);
      if b != 0 {
        UnlinkCase(mem[..], base, freelist, off, a, need, k);
        if plink == 0 {
          freelist := nb;
        } else {
          Store(mem, plink, WORD, nb);
        }
        a := Malloc(a0, need).0;
        return b + HDR;
      }
      BumpCase(mem[..], base, freelist, off, a, need);
      if HEAP_SIZE - off < need {
        return 0;
      }
      p := base + off + HDR;
      Store(mem, base + off, WORD, need);
      off := off + need;
      a := Malloc(a0, need).0;
    }

    /** kmalloc's walk of the free list: the first block that fits, the link that points to it
        (0 for g_freelist itself) and its successor; `b` is 0 when nothing fits. */
    method FindFit(need: nat) returns (plink: nat, b: nat, nb: nat)
      requires Valid()
      ensures var k := FirstFit(a, need);
        && b == PtrAt(base, a, k) && (b == 0 <==> k == |a.free|)
        && (k < |a.free| ==>
              && nb == PtrAt(base, a, k + 1)
              && plink == if k == 0 then 0 else base + a.Start(a.free[k - 1]) + HDR)
    {
      hide WordsOf, Good, PtrAt, Alloc.Size, Alloc.Start, At;
      plink, b, nb := 0, freelist, 0;
      ghost var k := 0;
      ListEnd(mem[..], base, freelist, off, a);
      while b != 0
        invariant k <= |a.free| && b == PtrAt(base, a, k) && (b == 0 <==> k == |a.free|)
        invariant plink == if k == 0 then 0 else base + a.Start(a.free[k - 1]) + HDR
        invariant FirstFit(a, need) == FirstFit(a, need, k)
        decreases |a.free| - k
      {
        FreeBlock(mem[..], base, freelist, off, a, k);
        nb := LoadWord(b + HDR);
        var total := LoadWord(b);
        if total >= need {
          return;
        }
        plink := b + HDR;
        b := nb;
        k := k + 1;
      }
    }

    method LoadWord(x: nat) returns (v: nat)
      requires x + WORD <= mem.Length
      ensures v == At(WordsOf(mem[..]), x)
    {
      v := Load(mem, x, WORD);
    }

    method Kfree(ptr: nat)
      requires Valid() && Freeable(base, a, ptr)
      modifies this, mem
      ensures Valid()
      ensures ptr < base + HDR || ptr >= base + HEAP_SIZE ==> a == old(a) && mem[..] == old(mem[..])
      ensures forall b: nat {:trigger old(a).Live(b)} :: old(a).Live(b) && ptr == Payload(base, old(a), b) ==>
        && a == Free(old(a), b)
        && mem[..] == FreeMem(old(mem[..]), base, old(a), b)
    {
      hide Good, FreeMem, Put;
      GoodBounds(mem[..], base, freelist, off, a);
      if ptr == 0 {
        return;
      }
      if ptr < base + HDR || ptr >= base + HEAP_SIZE {
        return;
      }
      ghost var b: nat :| a.Live(b) && ptr == Payload(base, a, b);
      FreeCase(mem[..], base, freelist, off, a, b);
      var h := ptr - HDR;
      Store(mem, h + HDR, WORD, freelist);
      freelist := h;
      a := Free(a, b);
    }
  }
}
