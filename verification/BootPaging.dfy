/** kernel/main.c's pmm_init and paging_identity_init one after the other: from the boot info to a page map
    under which the kernel reaches every frame that the allocator can hand out. */
module BootPaging {
  import opened Wrappers
  import opened Bytes
  import opened Mboot2
  import opened BootInfos
  import Pmm
  import opened BootMemory
  import opened PageTables
  import opened PagingCode

  /** Frame `f` lies in the kernel image [k0, k1). */
  predicate InImage(f: nat, k0: nat, k1: nat) {
    k0 <= f * PAGE && (f + 1) * PAGE <= k1
  }

  /** Every frame that a region frees is in memory. */
  ghost predicate Covered(rs: seq<MmapEntry>, width: nat, words: nat)
    requires width > 0
  {
    forall q: nat {:trigger FreedBy(rs, q, width)} ::
      q < FrameCount(rs) && FreedBy(rs, q, width) ==> (q + 1) * ENTRIES <= words
  }

  /** The i386 kernel's boot.  It gets through exactly when the regions are found and the highest frame, as a
      32-bit number, passes paging_identity_init; then the page tables are sound, and with at most 131072
      frames every free one is mapped to itself. */
  method Start(machine: Machine, at: nat, k0: nat, k1: nat) returns (ok: bool)
    requires machine.pmm.Valid() && machine.pmm.width == U32_LIMIT &&
             machine.pmm.mem.Length + Pmm.FRAME_SIZE <= U32_LIMIT
    requires Mapped(machine.pmm.mem, at, U32_LIMIT) && at % 8 == 0 && Fits(Collect, machine.pmm.mem[..], at, U32_LIMIT)
    requires k1 <= machine.pmm.mem.Length && k0 < U32_LIMIT
    requires var m, base := machine.pmm.mem[..], Pmm.AlignUp(k1, U32_LIMIT);
      Ready(m, at) ==>
        && base + BitmapLen(RegionsAt(m, at)) <= machine.pmm.mem.Length
        && !(at < base < at + Get(m, at, 4))
        && Covered(RegionsAt(m, at), U32_LIMIT, machine.ram.Length)
    requires machine.clones == {} && machine.Wired() && machine.ram.Length <= ENTRIES * PAGES
    requires !(machine.bootPt <= machine.boot < machine.bootPt + MAX_ID_PT)
    requires (machine.boot + 1) * ENTRIES <= machine.ram.Length
    requires (machine.bootPt + MAX_ID_PT) * ENTRIES <= machine.ram.Length
    requires forall f: nat {:trigger InImage(f, k0, k1)} ::
               f == machine.boot || machine.bootPt <= f < machine.bootPt + MAX_ID_PT ==> InImage(f, k0, k1)
    modifies machine.pmm, machine.pmm.mem, machine.ram
    ensures
      var m, base := old(machine.pmm.mem[..]), Pmm.AlignUp(k1, U32_LIMIT);
      var rs := RegionsAt(m, at);
      ok <==>
        && Ready(m, at) && !(base <= at < base + BitmapLen(rs))
        && Tables((FrameCount(rs) - 1) % W32) <= MAX_ID_PT
    ensures ok ==> machine.Valid()
    ensures ok && machine.pmm.count <= 131072 ==>
      forall q: nat {:trigger q in machine.pmm.View().Free()} :: q in machine.pmm.View().Free() ==>
        q < PAGES && Fetch(machine.ram[..], machine.boot, q) == Some(Entry(q * PAGE, 3))
  {
    hide Get, Fits, Walk, FreedBy, Pmm.Overlaps, Pmm.Frames.Used, Pmm.Frames.Free, Pmm.Allocator.View, Fetch, Entry;
    hide BitmapLen, RegionsAt, Pmm.AlignUp, Pmm.Frames.Wf;
    ghost var m, rs := machine.pmm.mem[..], RegionsAt(machine.pmm.mem[..], at);
    ok := PmmInit(machine.pmm, at, k0, k1);
    if !ok {
      return false;
    }
    InUse(machine.pmm.View(), k0, k1);
    InMemory(machine.pmm.View(), rs, machine.ram.Length);
    ok := machine.IdentityInit((machine.pmm.count - 1) % W32);
    if machine.pmm.count <= 131072 {
      Reached(machine.pmm.View(), machine.ram[..], machine.boot);
    }
  }

  /** Frames of the kernel image are in use, since none of them is free. */
  lemma InUse(f: Pmm.Frames, k0: nat, k1: nat)
    requires forall q: nat {:trigger q in f.Free()} :: q in f.Free() ==> !Pmm.Overlaps(q, k0, k1)
    ensures forall q: nat {:trigger f.Used(q)} {:trigger InImage(q, k0, k1)} :: InImage(q, k0, k1) ==> f.Used(q)
  {
    hide Pmm.Frames.Used, Pmm.Frames.Free;
    Pmm.IsFree(f);
    forall q: nat | InImage(q, k0, k1)
      ensures f.Used(q)
    {
      assert Pmm.Overlaps(q, k0, k1);
      OutOfRange(f, q);
    }
  }

  lemma OutOfRange(f: Pmm.Frames, q: nat)
    ensures q >= f.count ==> f.Used(q)
  {
  }

  /** Free frames are in memory. */
  lemma InMemory(f: Pmm.Frames, rs: seq<MmapEntry>, words: nat)
    requires Covered(rs, U32_LIMIT, words)
    requires forall q: nat {:trigger q in f.Free()} :: q in f.Free() ==> q < FrameCount(rs) && FreedBy(rs, q, U32_LIMIT)
    ensures forall q: nat {:trigger f.Used(q)} :: !f.Used(q) ==> (q + 1) * ENTRIES <= words
  {
    hide Pmm.Frames.Used, Pmm.Frames.Free, FreedBy, FrameCount;
    Pmm.IsFree(f);
    forall q: nat | !f.Used(q)
      ensures (q + 1) * ENTRIES <= words
    {
      OutOfRange(f, q);
      assert FreedBy(rs, q, U32_LIMIT);
    }
  }

  lemma Reached(f: Pmm.Frames, m: seq<nat>, boot: nat)
    requires 0 < f.count <= 131072 && Identity(m, boot, (f.count - 1) % W32 + 1)
    ensures forall q: nat {:trigger q in f.Free()} :: q in f.Free() ==>
      q < PAGES && Fetch(m, boot, q) == Some(Entry(q * PAGE, 3))
  {
    hide Pmm.Frames.Used, Fetch, Entry;
    Pmm.IsFree(f);
  }
}
