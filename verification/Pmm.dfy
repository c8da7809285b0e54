/** kernel/pmm.c: the physical frame bitmap, as a set of free frames. */
module Pmm {
  import opened Bytes

  const FRAME_SIZE := 4096

  // ---------------------------------------------------------------- bits

  function Mask(b: nat): bv8
    requires b < 8
  {
    (1 as bv8) << b
  }

  predicate Bit(v: bv8, b: nat)
    requires b < 8
  {
    (v >> b) & 1 != 0
  }

  function WithBit(v: bv8, b: nat): bv8
    requires b < 8
  {
    v | Mask(b)
  }

  function WithoutBit(v: bv8, b: nat): bv8
    requires b < 8
  {
    v & !Mask(b)
  }

  function Power(b: nat): bv8 {
    if b == 0 then 1 else if b == 1 then 2 else if b == 2 then 4 else if b == 3 then 8
    else if b == 4 then 16 else if b == 5 then 32 else if b == 6 then 64 else 128
  }

  lemma MaskIs(v: bv8, b: nat)
    requires b < 8
    ensures Mask(b) == Power(b) && (Bit(v, b) <==> v & Power(b) != 0)
  {
    if b == 0 {} else if b == 1 {} else if b == 2 {} else if b == 3 {}
    else if b == 4 {} else if b == 5 {} else if b == 6 {} else {}
  }

  /** Setting or clearing one bit of a byte changes that bit alone. */
  lemma BitSet(v: bv8, b: nat, c: nat)
    requires b < 8 && c < 8
    ensures Bit(WithBit(v, b), c) == (b == c || Bit(v, c))
  {
    MaskIs(v, b);
    MaskIs(v, c);
    MaskIs(WithBit(v, b), c);
    hide Mask, Bit;
  }

  lemma BitCleared(v: bv8, b: nat, c: nat)
    requires b < 8 && c < 8
    ensures Bit(WithoutBit(v, b), c) == (b != c && Bit(v, c))
  {
    MaskIs(v, b);
    MaskIs(v, c);
    MaskIs(WithoutBit(v, b), c);
    hide Mask, Bit;
  }

  lemma ByteRestored(v: bv8, b: nat)
    requires b < 8 && !Bit(v, b)
    ensures WithoutBit(WithBit(v, b), b) == v
  {
    if b == 0 {} else if b == 1 {} else if b == 2 {} else if b == 3 {}
    else if b == 4 {} else if b == 5 {} else if b == 6 {} else {}
  }

  lemma FullByte(b: nat)
    requires b < 8
    ensures Bit(0xFF, b)
  {
    if b == 0 {} else if b == 1 {} else if b == 2 {} else if b == 3 {}
    else if b == 4 {} else if b == 5 {} else if b == 6 {} else {}
  }

  /** A byte of memory as a bit vector, and back. */
  function Bits(v: byte): bv8 {
    v as bv8
  }

  function Packed(w: bv8): byte {
    w as byte
  }

  lemma Rebits(w: bv8)
    ensures Bits(Packed(w)) == w
  {
  }

  function BitsOf(s: seq<byte>): (r: seq<bv8>)
    ensures |r| == |s|
  {
    seq(|s|, i requires 0 <= i < |s| => Bits(s[i]))
  }

  // ---------------------------------------------------------------- the bitmap as a value

  /** `count` frames, one bit each; a set bit marks a frame in use. */
  datatype Frames = Frames(bits: seq<bv8>, count: nat) {

    ghost predicate Wf() {
      count <= 8 * |bits|
    }

    predicate Used(p: nat) {
      p >= count || p / 8 >= |bits| || Bit(bits[p / 8], p % 8)
    }

    function Set(p: nat): Frames {
      if p < count && p / 8 < |bits| then Frames(bits[p / 8 := WithBit(bits[p / 8], p % 8)], count) else this
    }

    function Clear(p: nat): Frames {
      if p < count && p / 8 < |bits| then Frames(bits[p / 8 := WithoutBit(bits[p / 8], p % 8)], count) else this
    }

    ghost function Free(): set<nat> {
      set p: nat | p < count && !Used(p)
    }
  }

  lemma SetOk(f: Frames, p: nat, q: nat)
    requires f.Wf()
    ensures f.Set(p).Wf() && f.Set(p).count == f.count
    ensures f.Set(p).Used(q) <==> f.Used(q) || q == p
    ensures f.Clear(p).Wf() && f.Clear(p).count == f.count
    ensures f.Clear(p).Used(q) <==> if q == p then p >= f.count else f.Used(q)
  {
    hide Bit, WithBit, WithoutBit;
    if p < f.count && q < f.count {
      BitSet(f.bits[p / 8], p % 8, q % 8);
      BitCleared(f.bits[p / 8], p % 8, q % 8);
      if q != p {
        assert q / 8 == p / 8 ==> q % 8 != p % 8;
      }
    }
  }

  lemma FreeSetOk(f: Frames, p: nat)
    requires f.Wf()
    ensures f.Set(p).Wf() && f.Set(p).count == f.count && f.Clear(p).Wf() && f.Clear(p).count == f.count
    ensures p >= f.count ==> p !in f.Free()
    ensures f.Set(p).Free() == f.Free() - {p}
    ensures f.Clear(p).Free() == if p < f.count then f.Free() + {p} else f.Free()
  {
    forall q: nat
      ensures q in f.Set(p).Free() <==> q in f.Free() - {p}
      ensures q in f.Clear(p).Free() <==> q in (if p < f.count then f.Free() + {p} else f.Free())
    {
      SetOk(f, p, q);
    }
    SetOk(f, p, 0);
  }

  /** The first free frame from `from` on, or `count`. */
  function FirstFree(f: Frames, from: nat): (p: nat)
    requires from <= f.count
    ensures from <= p <= f.count
    ensures p < f.count ==> !f.Used(p)
    ensures forall q: nat {:trigger f.Used(q)} :: from <= q < p ==> f.Used(q)
    decreases f.count - from
  {
    if from == f.count || !f.Used(from) then from else FirstFree(f, from + 1)
  }

  /** pmm_alloc_frame: the address of the lowest free frame but 0; 0 when there is none. */
  function Alloc(f: Frames): (Frames, nat) {
    if f.count <= 1 then (f, 0) else
    var p := FirstFree(f, 1);
    if p < f.count then (f.Set(p), p * FRAME_SIZE) else (f, 0)
  }

  /** pmm_free_frame: misaligned addresses, frame 0, frames out of range and free frames are ignored. */
  function Release(f: Frames, phys: nat): Frames {
    if phys % FRAME_SIZE != 0 then f else
    var p := phys / FRAME_SIZE;
    if p == 0 || p >= f.count || !f.Used(p) then f else f.Clear(p)
  }

  /** Allocation takes the least element of the set of free frames, never frame 0, and fails exactly
      when no other frame is free. */
  lemma AllocOk(f: Frames)
    requires f.Wf()
    ensures
      var (f', a) := Alloc(f);
      && f'.Wf() && f'.count == f.count
      && (a == 0 <==> f.Free() <= {0})
      && (a == 0 ==> f' == f)
      && (a != 0 ==>
            && a % 4096 == 0 && a / 4096 in f.Free()
            && (forall q :: q in f.Free() && q != 0 ==> a / 4096 <= q)
            && f'.Free() == f.Free() - {a / 4096})
  {
    hide Bit, WithBit, WithoutBit, Frames.Set, Frames.Used, Frames.Free;
    IsFree(f);
    if f.count > 1 {
      var p := FirstFree(f, 1);
      FreeSetOk(f, p);
      forall q | q in f.Free() && q != 0
        ensures p <= q < f.count
      {
      }
      if p < f.count {
        assert p in f.Free();
        SetOk(f, p, p);
      } else {
        assert f.Free() <= {0};
      }
    } else {
      assert f.Free() <= {0};
    }
  }

  lemma IsFree(f: Frames)
    ensures forall q: nat {:trigger q in f.Free()} {:trigger f.Used(q)} :: q in f.Free() <==> q < f.count && !f.Used(q)
  {
    hide Frames.Used;
  }

  /** Freeing what was just allocated restores every bit of the bitmap. */
  lemma AllocReleased(f: Frames)
    requires f.Wf() && Alloc(f).1 != 0
    ensures Release(Alloc(f).0, Alloc(f).1) == f
  {
    hide Bit, WithBit, WithoutBit;
    var p := FirstFree(f, 1);
    SetOk(f, p, p);
    ByteRestored(f.bits[p / 8], p % 8);
    assert f.bits[p / 8 := f.bits[p / 8]] == f.bits;
  }

  lemma ReleaseOk(f: Frames, phys: nat)
    requires f.Wf()
    ensures Release(f, phys).Wf() && Release(f, phys).count == f.count
    ensures Release(f, phys).Free() ==
      if phys % 4096 == 0 && 0 < phys / 4096 < f.count then f.Free() + {phys / 4096} else f.Free()
  {
    hide Bit, WithBit, WithoutBit;
    var p := phys / FRAME_SIZE;
    FreeSetOk(f, p);
    SetOk(f, p, p);
    if p < f.count && !f.Used(p) {
      assert f.Free() + {p} == f.Free();
    }
  }

  // ---------------------------------------------------------------- runs

  datatype Op = Take | Give(phys: nat)

  function Run(f: Frames, ops: seq<Op>): Frames
    decreases |ops|
  {
    if ops == [] then f
    else match ops[0]
      case Take => Run(Alloc(f).0, ops[1..])
      case Give(phys) => Run(Release(f, phys), ops[1..])
  }

  /** A frame that has been handed out is not handed out again, in any run, until it is freed. */
  lemma {:induction false} HeldUntilFreed(f: Frames, ops: seq<Op>, p: nat)
    requires f.Wf() && p !in f.Free() && 0 < p
    requires forall i :: 0 <= i < |ops| && ops[i].Give? ==> ops[i].phys != p * FRAME_SIZE
    ensures Run(f, ops).Wf() && p !in Run(f, ops).Free()
    ensures Alloc(Run(f, ops)).1 != p * FRAME_SIZE
    decreases |ops|
  {
    if ops == [] {
      AllocOk(f);
    } else {
      AllocOk(f);
      if ops[0].Give? {
        ReleaseOk(f, ops[0].phys);
        assert ops[0].phys % FRAME_SIZE == 0 ==> ops[0].phys / FRAME_SIZE != p;
      }
      HeldUntilFreed(if ops[0].Take? then Alloc(f).0 else Release(f, ops[0].phys), ops[1..], p);
    }
  }

  // ---------------------------------------------------------------- the code

  /** Frame `p` and the range [begin, end) have a byte in common. */
  predicate Overlaps(p: nat, begin: nat, end: nat) {
    begin < end && p * FRAME_SIZE < end && begin < (p + 1) * FRAME_SIZE
  }

  /** Rounding the end up to a frame stays in the address space. */
  predicate NoWrap(end: nat, width: nat) {
    end + FRAME_SIZE - 1 < width
  }

  function AlignUp(x: nat, width: nat): nat
    requires width > 0
  {
    (x + FRAME_SIZE - 1) % width / FRAME_SIZE * FRAME_SIZE
  }

  function AlignDown(x: nat): nat {
    x / FRAME_SIZE * FRAME_SIZE
  }

  class Allocator {
    const mem: array<byte>   // physical memory
    const width: nat         // the number of values of uintptr_t
    var base: nat            // bitmap
    var len: nat             // bitmap_byte_len
    var count: nat           // frame_count

    ghost function View(): (f: Frames)
      reads this, mem
      ensures f.count == count
    {
      Frames(if base + len <= mem.Length then BitsOf(mem[base..base + len]) else [], count)
    }

    ghost predicate Valid()
      reads this, mem
    {
      && Pointers(width) && mem.Length < width
      && base + len <= mem.Length && View().Wf()
    }

    constructor (mem: array<byte>, width: nat)
      requires Pointers(width) && mem.Length < width
      ensures this.mem == mem && this.width == width && Valid() && count == 0
    {
      this.mem, this.width := mem, width;
      base, len, count := 0, 0, 0;
    }

    method BmSet(p: nat)
      requires Valid()
      modifies mem
      ensures Valid() && View() == old(View()).Set(p) && SameOutside(old(mem[..]), mem[..], base, base + len)
    {
      hide Bits, Packed, WithBit, Bit;
      if p >= count {
        return;
      }
      ghost var m := mem[..];
      var i, b := p / 8, p % 8;
      var v := WithBit(Bits(mem[base + i]), b);
      mem[base + i] := Packed(v);
      SliceSet(m, mem[..], base, len, i, v);
    }

    method BmClear(p: nat)
      requires Valid()
      modifies mem
      ensures Valid() && View() == old(View()).Clear(p) && SameOutside(old(mem[..]), mem[..], base, base + len)
    {
      hide Bits, Packed, WithoutBit, Bit;
      if p >= count {
        return;
      }
      ghost var m := mem[..];
      var i, b := p / 8, p % 8;
      var v := WithoutBit(Bits(mem[base + i]), b);
      mem[base + i] := Packed(v);
      SliceSet(m, mem[..], base, len, i, v);
    }

    method BmGet(p: nat) returns (r: bool)
      requires Valid()
      ensures r == View().Used(p)
    {
      hide Bits, Bit;
      if p >= count {
        return true;
      }
      r := Bit(Bits(mem[base + p / 8]), p % 8);
    }

    method BmFill(v: byte, n: nat)
      requires base + n <= mem.Length
      modifies mem
      ensures forall j :: base <= j < base + n ==> mem[j] == v
      ensures SameOutside(old(mem[..]), mem[..], base, base + n)
    {
      var i := 0;
      while i < n
        invariant i <= n
        invariant forall j :: 0 <= j < mem.Length ==> mem[j] == if base <= j < base + i then v else old(mem[j])
      {
        mem[base + i] := v;
        i := i + 1;
      }
    }

    /** frames_mark_used */
    method MarkUsed(begin: nat, end: nat)
      requires Valid() && begin < width && end < width
      modifies mem
      ensures Valid() && SameOutside(old(mem[..]), mem[..], base, base + len)
      ensures forall q: nat {:trigger q in View().Free()} ::
        q in View().Free() <==> q in old(View()).Free() && !(Overlaps(q, begin, end) && NoWrap(end, width))
    {
      hide Frames.Set, Frames.Clear, Frames.Used, Frames.Free, Overlaps;
      if begin >= end {
        Nothing(begin, end);
        return;
      }
      Rounded(begin, end, width);
      var p, e := AlignDown(begin), AlignUp(end, width);
      ghost var f, first := View(), p / FRAME_SIZE;
      while p < e
        invariant p % FRAME_SIZE == 0 && first <= p / FRAME_SIZE && (p <= e || p == first * FRAME_SIZE)
        invariant Valid() && SameOutside(old(mem[..]), mem[..], base, base + len)
        invariant forall q: nat {:trigger q in View().Free()} ::
          q in View().Free() <==> q in f.Free() && !(first <= q < p / FRAME_SIZE)
      {
        var pfn := p / FRAME_SIZE;
        FreeSetOk(View(), pfn);
        if pfn < count {
          BmSet(pfn);
        }
        p := p + FRAME_SIZE;
      }
    }

    /** frames_mark_free */
    method MarkFree(begin: nat, end: nat)
      requires Valid() && begin < width && end < width
      modifies mem
      ensures Valid() && SameOutside(old(mem[..]), mem[..], base, base + len)
      ensures forall q: nat {:trigger q in View().Free()} ::
        q in View().Free() <==> q in old(View()).Free() || (q < count && Overlaps(q, begin, end) && NoWrap(end, width))
    {
      hide Frames.Set, Frames.Clear, Frames.Used, Frames.Free, Overlaps;
      if begin >= end {
        Nothing(begin, end);
        return;
      }
      Rounded(begin, end, width);
      var p, e := AlignDown(begin), AlignUp(end, width);
      ghost var f, first := View(), p / FRAME_SIZE;
      while p < e
        invariant p % FRAME_SIZE == 0 && first <= p / FRAME_SIZE && (p <= e || p == first * FRAME_SIZE)
        invariant Valid() && SameOutside(old(mem[..]), mem[..], base, base + len)
        invariant forall q: nat {:trigger q in View().Free()} ::
          q in View().Free() <==> q in f.Free() || (q < count && first <= q < p / FRAME_SIZE)
      {
        var pfn := p / FRAME_SIZE;
        FreeSetOk(View(), pfn);
        if pfn < count {
          BmClear(pfn);
        }
        p := p + FRAME_SIZE;
      }
    }

    method AllocFrame() returns (a: nat)
      requires Valid()
      modifies mem
      ensures Valid() && (View(), a) == Alloc(old(View())) && SameOutside(old(mem[..]), mem[..], base, base + len)
    {
      var p := 1;
      while p < count
        invariant 1 <= p && mem[..] == old(mem[..])
        invariant p <= count || count == 0
        invariant count > 0 ==> FirstFree(View(), 1) == FirstFree(View(), p)
      {
        var used := BmGet(p);
        if !used {
          BmSet(p);
          return p * FRAME_SIZE;
        }
        p := p + 1;
      }
      return 0;
    }

    method FreeFrame(phys: nat)
      requires Valid()
      modifies mem
      ensures Valid() && View() == Release(old(View()), phys) && SameOutside(old(mem[..]), mem[..], base, base + len)
    {
      if phys % FRAME_SIZE != 0 {
        return;
      }
      var p := phys / FRAME_SIZE;
      if p == 0 || p >= count {
        return;
      }
      var used := BmGet(p);
      if !used {
        return;
      }
      BmClear(p);
    }
  }

  lemma SliceSet(m: seq<byte>, m': seq<byte>, base: nat, len: nat, i: nat, v: bv8)
    requires base + len <= |m| && i < len && m' == m[base + i := Packed(v)]
    ensures BitsOf(m'[base..base + len]) == BitsOf(m[base..base + len])[i := v]
    ensures SameOutside(m, m', base, base + len)
  {
    Rebits(v);
    hide Bits, Packed;
  }

  lemma Nothing(begin: nat, end: nat)
    requires begin >= end
    ensures forall q: nat {:trigger Overlaps(q, begin, end)} :: !Overlaps(q, begin, end)
  {
  }

  /** The frames between the rounded bounds are those that the range meets; a bound that wraps is 0. */
  lemma Rounded(begin: nat, end: nat, width: nat)
    requires Pointers(width) && begin < end < width
    ensures AlignUp(end, width) % FRAME_SIZE == 0 && AlignUp(end, width) + FRAME_SIZE <= width
    ensures NoWrap(end, width) ==> AlignDown(begin) <= AlignUp(end, width)
    ensures NoWrap(end, width) ==> forall q: nat {:trigger Overlaps(q, begin, end)} ::
      Overlaps(q, begin, end) <==> AlignDown(begin) / FRAME_SIZE <= q < AlignUp(end, width) / FRAME_SIZE
    ensures !NoWrap(end, width) ==> AlignUp(end, width) == 0
  {
    if width == U32_LIMIT {} else {}
  }

  lemma FilledIsUsed(f: Frames)
    requires forall j :: 0 <= j < |f.bits| ==> f.bits[j] == 0xFF
    ensures f.Free() == {}
  {
    forall p: nat
      ensures f.Used(p)
    {
      FullByte(p % 8);
    }
  }
}
