/** paging_user_range_ok (arch/i386/paging.c) as kernel/vfs_ram.c calls it: on the page tables, it gives the
    answers that RamFs takes from a set of pages. */
module VfsPaging {
  import opened PageTables
  import opened PagingCode
  import RamFs

  /** The pages that directory `d` maps for user code, to read or also to write. */
  function UserPages(m: seq<nat>, d: nat, write: bool): set<nat> {
    set v: nat | v < PAGES && UserPage(m, d, v, write)
  }

  /** The check on the tables answers as the check on their set of pages, wherever page 0 is the kernel's. */
  method UserRange(machine: Machine, d: nat, va: nat, len: nat, write: bool) returns (ok: bool)
    requires va < W32 && 0 < len < W32 && !UserPage(machine.ram[..], d, 0, write)
    ensures 0 !in UserPages(machine.ram[..], d, write)
    ensures ok == RamFs.RangeOk(UserPages(machine.ram[..], d, write), va, len)
  {
    hide UserPage;
    var v := machine.UserRangeOk(d, va, len, write);
    SamePages(machine.ram[..], d, va, len, write);
    return v == Yes;
  }

  lemma SamePages(m: seq<nat>, d: nat, va: nat, len: nat, write: bool)
    requires 0 < len
    ensures RamFs.RangeOk(UserPages(m, d, write), va, len) <==>
      && va + len < W32 && (va + len - 1) / PAGE < PAGES - 1
      && forall x: nat {:trigger UserPage(m, d, x / PAGE, write)} ::
           va <= x < va + len ==> UserPage(m, d, x / PAGE, write)
  {
    hide UserPage;
    var pages := UserPages(m, d, write);
    if va + len < W32 && (va + len - 1) / PAGE < PAGES - 1 {
      PagesOf(va, len);
      forall x: nat | va <= x < va + len
        ensures UserPage(m, d, x / PAGE, write) <==> x / RamFs.PAGE in pages
      {
      }
    }
  }
}
