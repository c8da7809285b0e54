/** kernel/vfs_ram.c: a table of read-only files, twelve descriptors, and copies to and from user
    memory. */
module RamFs {
  import opened Wrappers
  import opened Bytes

  const MAX_UFD := 12
  const FD_BASE := 3
  const MAX_PATH := 96
  const MAX_READ := 4096
  const PAGE := 4096
  const TOP_PAGE := 1048575       // the last page of a 32-bit address space
  const ENOENT := -2
  const EBADF := -9
  const EFAULT := -14
  const EMFILE := -24

  datatype File = File(path: seq<byte>, data: seq<byte>)
  datatype Ufd = Ufd(used: bool, vfidx: nat, pos: nat)

  function Ascii(s: string): seq<byte> {
    seq(|s|, i requires 0 <= i < |s| => (s[i] as int) % 256)
  }

  /** g_vfs_files */
  const BUILT_IN: seq<File> := [
    File(Ascii("/hello.txt"), Ascii("Hello from VerveOS ramfs (vfs_ram.c).\r\n")),
    File(Ascii("/exit.bin"), [0xB8, 3, 0, 0, 0, 0x31, 0xDB, 0xCD, 0x80])
  ]

  /** They are what Vfs requires: their paths are C strings. */
  lemma BuiltInPaths()
    ensures forall i :: 0 <= i < |BUILT_IN| ==> 0 !in BUILT_IN[i].path
  {
    assert forall k :: 0 <= k < |"/hello.txt"| ==> Ascii("/hello.txt")[k] != 0;
    assert forall k :: 0 <= k < |"/exit.bin"| ==> Ascii("/exit.bin")[k] != 0;
  }

  // ---------------------------------------------------------------- paths

  /** The i-th byte of a C string. */
  function CharAt(s: seq<byte>, i: nat): byte {
    if i < |s| then s[i] else 0
  }

  /** strcmp_v is zero exactly for equal strings; otherwise it is the difference at the first place where
      they differ. */
  method Strcmp(a: seq<byte>, b: seq<byte>) returns (d: int)
    requires 0 !in a && 0 !in b
    ensures d == 0 <==> a == b
    ensures d != 0 ==> exists i: nat {:trigger CharAt(a, i)} ::
      i <= |a| && i <= |b| && a[..i] == b[..i] && d == CharAt(a, i) - CharAt(b, i)
  {
    var i := 0;
    while CharAt(a, i) != 0 && CharAt(a, i) == CharAt(b, i)
      invariant i <= |a| && i <= |b| && a[..i] == b[..i]
      decreases |a| - i
    {
      i := i + 1;
    }
    d := CharAt(a, i) - CharAt(b, i);
    if d == 0 {
      assert a == a[..i] && b == b[..i];
    } else if a == b {
      assert false;
    }
  }

  function FindFrom(files: seq<File>, path: seq<byte>, i: nat): int
    requires i <= |files|
    decreases |files| - i
  {
    if i == |files| then -1 else if files[i].path == path then i else FindFrom(files, path, i + 1)
  }

  /** vfs_find: the first file of that name, or -1. */
  function FindFile(files: seq<File>, path: seq<byte>): int {
    FindFrom(files, path, 0)
  }

  lemma {:induction false} FindOk(files: seq<File>, path: seq<byte>, i: nat)
    requires i <= |files|
    ensures var k := FindFrom(files, path, i);
      && (k == -1 ==> forall j :: i <= j < |files| ==> files[j].path != path)
      && (k != -1 ==> i <= k < |files| && files[k].path == path && forall j :: i <= j < k ==> files[j].path != path)
    decreases |files| - i
  {
    if i < |files| && files[i].path != path {
      FindOk(files, path, i + 1);
    }
  }

  /** User memory and the pages that user code may read and write. */
  datatype UserSpace = UserSpace(bytes: seq<byte>, readable: set<nat>, writable: set<nat>)

  /** paging_user_range_ok, where page 0 is not the user's: a range that reaches the last page is refused,
      because the check goes on to page 0. */
  predicate RangeOk(pages: set<nat>, va: nat, len: nat) {
    && va + len <= TOP_PAGE * PAGE
    && forall x: nat {:trigger x / PAGE in pages} :: va <= x < va + len ==> x / PAGE in pages
  }

  /** copy_user_path from its i-th byte: the path up to its NUL, cut at 95 bytes; None for a fault.
      The address wraps as a 32-bit one. */
  function CopyPath(u: UserSpace, uva: nat, i: nat): Option<seq<byte>>
    decreases MAX_PATH - i
  {
    if i >= MAX_PATH - 1 then Some([]) else
    var a := (uva + i) % U32_LIMIT;
    if !RangeOk(u.readable, a, 1) || a >= |u.bytes| then None
    else if u.bytes[a] == 0 then Some([])
    else
      var rest := CopyPath(u, uva, i + 1);
      if rest.None? then None else Some([u.bytes[a]] + rest.value)
  }

  function Prepend(s: seq<byte>, r: Option<seq<byte>>): Option<seq<byte>> {
    if r.None? then None else Some(s + r.value)
  }

  lemma Prepended(s: seq<byte>, r: Option<seq<byte>>)
    requires s == []
    ensures Prepend(s, r) == r
  {
    if r.Some? {
      assert s + r.value == r.value;
    }
  }

  lemma PrependMore(s: seq<byte>, c: byte, r: Option<seq<byte>>)
    ensures Prepend(s, if r.None? then None else Some([c] + r.value)) == Prepend(s + [c], r)
  {
    if r.Some? {
      assert s + ([c] + r.value) == s + [c] + r.value;
    }
  }

  /** A copied path is a C string that fits the buffer. */
  lemma {:induction false} CopyPathOk(u: UserSpace, uva: nat, i: nat)
    requires i < MAX_PATH
    ensures var p := CopyPath(u, uva, i); p.Some? ==> 0 !in p.value && |p.value| <= MAX_PATH - 1 - i
    decreases MAX_PATH - i
  {
    if i < MAX_PATH - 1 {
      CopyPathOk(u, uva, i + 1);
    }
  }

  /** The bytes of user memory from `uva` on, with 32-bit addresses. */
  function At(u: UserSpace, uva: nat, i: nat): nat {
    (uva + i) % 0x1_0000_0000
  }

  /** The user may read the byte. */
  predicate Readable(u: UserSpace, a: nat) {
    a < |u.bytes| && a < 0xFFFF_F000 && a / 4096 in u.readable
  }

  /** What copy_user_path copies: the n bytes up to the first NUL or, if none comes before, 95 bytes. */
  predicate PathLength(u: UserSpace, uva: nat, n: nat) {
    && n <= 95
    && (forall i: nat {:trigger At(u, uva, i)} :: i < n ==> Readable(u, At(u, uva, i)) && u.bytes[At(u, uva, i)] != 0)
    && (n < 95 ==> Readable(u, At(u, uva, n)) && u.bytes[At(u, uva, n)] == 0)
  }

  /** The path is the user's bytes up to the first NUL, or the first 95; there is one exactly when all of
      those, the NUL included, can be read. */
  lemma CopiedPath(u: UserSpace, uva: nat)
    ensures
      var p := CopyPath(u, uva, 0);
      && (p.Some? <==> exists n :: PathLength(u, uva, n))
      && (p.Some? ==>
            && PathLength(u, uva, |p.value|)
            && forall i: nat {:trigger At(u, uva, i)} :: i < |p.value| ==> p.value[i] == u.bytes[At(u, uva, i)] != 0)
  {
    hide CopyPath, At;
    var p := CopyPath(u, uva, 0);
    CopiedFrom(u, uva, 0);
    forall n | PathLength(u, uva, n)
      ensures p.Some?
    {
      NoFault(u, uva, n);
    }
    if p.Some? {
      var n := |p.value|;
      forall i: nat | i < n
        ensures Readable(u, At(u, uva, i)) && p.value[i] == u.bytes[At(u, uva, i)] != 0
      {
        assert p.value[i - 0] == p.value[i];
      }
      assert PathLength(u, uva, n);
    }
  }

  lemma NoFault(u: UserSpace, uva: nat, n: nat)
    requires PathLength(u, uva, n)
    ensures CopyPath(u, uva, 0).Some?
  {
    hide CopyPath, At, Readable;
    if CopyPath(u, uva, 0).None? {
      var k := FaultFrom(u, uva, 0);
    }
  }

  lemma ByteOk(u: UserSpace, a: nat)
    requires a < U32_LIMIT
    ensures RangeOk(u.readable, a, 1) && a < |u.bytes| <==> Readable(u, a)
  {
    if Readable(u, a) {
      assert forall x: nat {:trigger x / PAGE} :: a <= x < a + 1 ==> x == a;
    } else if RangeOk(u.readable, a, 1) {
      assert a / PAGE in u.readable;
    }
  }

  lemma {:induction false} CopiedFrom(u: UserSpace, uva: nat, i: nat)
    requires i <= 95
    ensures
      var p := CopyPath(u, uva, i);
      p.Some? ==>
        && i + |p.value| <= 95
        && (forall j: nat {:trigger At(u, uva, j)} :: i <= j < i + |p.value| ==>
              Readable(u, At(u, uva, j)) && p.value[j - i] == u.bytes[At(u, uva, j)] != 0)
        && (i + |p.value| < 95 ==>
              Readable(u, At(u, uva, i + |p.value|)) && u.bytes[At(u, uva, i + |p.value|)] == 0)
    decreases 95 - i
  {
    hide RangeOk, Readable;
    if i < 95 {
      ByteOk(u, At(u, uva, i));
      CopiedFrom(u, uva, i + 1);
    }
  }

  /** A fault comes from a byte that cannot be read and that no NUL precedes. */
  lemma {:induction false} FaultFrom(u: UserSpace, uva: nat, i: nat) returns (k: nat)
    requires i <= 95 && CopyPath(u, uva, i).None?
    ensures i <= k < 95 && !Readable(u, At(u, uva, k))
    ensures forall j: nat {:trigger At(u, uva, j)} :: i <= j < k ==>
      Readable(u, At(u, uva, j)) && u.bytes[At(u, uva, j)] != 0
    decreases 95 - i
  {
    hide RangeOk, Readable;
    ByteOk(u, At(u, uva, i));
    if !Readable(u, At(u, uva, i)) {
      k := i;
    } else {
      k := FaultFrom(u, uva, i + 1);
    }
  }

  // ---------------------------------------------------------------- descriptors

  predicate Table(t: seq<Ufd>) {
    |t| == MAX_UFD
  }

  function FirstUnused(t: seq<Ufd>, s: nat := 0): (r: nat)
    requires s <= |t|
    ensures s <= r <= |t|
    ensures r < |t| ==> !t[r].used
    ensures forall k :: s <= k < r ==> t[k].used
    decreases |t| - s
  {
    if s == |t| || !t[s].used then s else FirstUnused(t, s + 1)
  }

  /** ufd_alloc */
  function AllocUfd(t: seq<Ufd>, vfidx: nat): (seq<Ufd>, int) {
    var s := FirstUnused(t);
    if s < |t| then (t[s := Ufd(true, vfidx, 0)], FD_BASE + s) else (t, EMFILE)
  }

  /** vfs_get_ufd: the slot of an open descriptor, or -1. */
  function GetUfd(t: seq<Ufd>, fd: int): int {
    var s := fd - FD_BASE;
    if 0 <= s < |t| && t[s].used then s else -1
  }

  /** verve_vfs_open_u, once the path has been copied or the copy has faulted. */
  function Open(files: seq<File>, t: seq<Ufd>, path: Option<seq<byte>>): (seq<Ufd>, int) {
    if path.None? then (t, EFAULT) else
    var k := FindFile(files, path.value);
    if k < 0 then (t, ENOENT) else AllocUfd(t, k)
  }

  /** How many bytes a read of at most `len` takes from a file at a position. */
  function Chunk(len: nat, size: nat, pos: nat): nat {
    var l := if len > MAX_READ then MAX_READ else len;
    if pos >= size then 0 else if size - pos > l then l else size - pos
  }

  /** verve_vfs_read_u: the new table, the result, and the bytes copied out.  `ok` is the verdict on the
      user's buffer, cut to 4096 bytes. */
  function Read(files: seq<File>, t: seq<Ufd>, fd: int, len: nat, ok: bool): (seq<Ufd>, int, seq<byte>) {
    var s := GetUfd(t, fd);
    if s < 0 then (t, EBADF, [])
    else if t[s].vfidx >= |files| || len == 0 then (t, 0, [])
    else if !ok then (t, EFAULT, [])
    else
      var data, pos := files[t[s].vfidx].data, t[s].pos;
      var n := Chunk(len, |data|, pos);
      if n == 0 then (t, 0, []) else (t[s := t[s].(pos := pos + n)], n, data[pos..pos + n])
  }

  /** verve_vfs_close_u */
  function Close(t: seq<Ufd>, fd: int): seq<Ufd> {
    var s := GetUfd(t, fd);
    if s < 0 then t else t[s := t[s].(used := false)]
  }

  // ---------------------------------------------------------------- runs

  datatype Op =
    | OpenOp(path: Option<seq<byte>>)
    | ReadOp(fd: int, len: nat, ok: bool)
    | CloseOp(fd: int)

  /** The descriptors, with the bytes read on each since it was opened. */
  datatype Fs = Fs(t: seq<Ufd>, got: seq<seq<byte>>)

  function Step(files: seq<File>, f: Fs, op: Op): Fs
    requires |f.t| == |f.got|
    ensures |Step(files, f, op).t| == |Step(files, f, op).got| == |f.t|
  {
    match op
    case OpenOp(path) =>
      var (t, r) := Open(files, f.t, path);
      Fs(t, if r >= FD_BASE && r - FD_BASE < |f.got| then f.got[r - FD_BASE := []] else f.got)
    case ReadOp(fd, len, ok) =>
      var (t, r, bytes) := Read(files, f.t, fd, len, ok);
      var s := GetUfd(f.t, fd);
      Fs(t, if s >= 0 then f.got[s := f.got[s] + bytes] else f.got)
    case CloseOp(fd) => f.(t := Close(f.t, fd))
  }

  function Run(files: seq<File>, f: Fs, ops: seq<Op>): Fs
    requires |f.t| == |f.got|
    decreases |ops|
  {
    if ops == [] then f else Run(files, Step(files, f, ops[0]), ops[1..])
  }

  /** What has been read on an open descriptor is its file up to the descriptor's position. */
  ghost predicate SlotOk(files: seq<File>, u: Ufd, got: seq<byte>) {
    u.used ==> u.vfidx < |files| && u.pos <= |files[u.vfidx].data| && got == files[u.vfidx].data[..u.pos]
  }

  ghost predicate Inv(files: seq<File>, f: Fs) {
    && |f.t| == |f.got| == MAX_UFD
    && forall s {:trigger f.t[s]} {:trigger f.got[s]} :: 0 <= s < MAX_UFD ==> SlotOk(files, f.t[s], f.got[s])
  }

  lemma StepOk(files: seq<File>, f: Fs, op: Op)
    requires Inv(files, f)
    ensures Inv(files, Step(files, f, op))
  {
    match op
    case OpenOp(path) =>
      if path.Some? {
        FindOk(files, path.value, 0);
      }
    case ReadOp(fd, len, ok) =>
      var s := GetUfd(f.t, fd);
      if s >= 0 {
        assert SlotOk(files, f.t[s], f.got[s]);
        var data, pos := files[f.t[s].vfidx].data, f.t[s].pos;
        var n := Chunk(len, |data|, pos);
        assert data[..pos] + data[pos..pos + n] == data[..pos + n];
      }
    case CloseOp(_) =>
  }

  /** Under any interleaving of opens, reads and closes, of any chunk sizes, the bytes read on each open
      descriptor are a prefix of its file, as long as its position. */
  lemma {:induction false} RunOk(files: seq<File>, f: Fs, ops: seq<Op>)
    requires Inv(files, f)
    ensures Inv(files, Run(files, f, ops))
    decreases |ops|
  {
    if ops != [] {
      StepOk(files, f, ops[0]);
      RunOk(files, Step(files, f, ops[0]), ops[1..]);
    }
  }

  /** A read or a close touches its own descriptor only, and an open only the lowest free one; EMFILE
      means that all twelve are in use. */
  lemma Separate(files: seq<File>, t: seq<Ufd>, op: Op, s: nat)
    requires Table(t) && s < MAX_UFD
    ensures
      match op
      case OpenOp(path) =>
        var (t', r) := Open(files, t, path);
        && (t'[s] != t[s] ==> r == FD_BASE + s)
        && (r >= 0 ==> FD_BASE <= r < FD_BASE + MAX_UFD && !t[r - FD_BASE].used && t'[r - FD_BASE].used
                       && t'[r - FD_BASE].pos == 0 && (s < r - FD_BASE ==> t[s].used))
        && (r == EMFILE ==> t[s].used)
      case ReadOp(fd, len, ok) => Read(files, t, fd, len, ok).0[s] != t[s] ==> fd == FD_BASE + s && t[s].used
      case CloseOp(fd) => Close(t, fd)[s] != t[s] ==> fd == FD_BASE + s && t[s].used
  {
    if op.OpenOp? && op.path.Some? {
      FindOk(files, op.path.value, 0);
    }
  }

  predicate Full(t: seq<Ufd>) {
    forall s :: 0 <= s < |t| ==> t[s].used
  }

  /** Which file an open descriptor reads, and from where; and when each error is answered. */
  lemma OpenNames(files: seq<File>, t: seq<Ufd>, path: Option<seq<byte>>)
    requires Table(t)
    ensures
      var (t', r) := Open(files, t, path);
      && (r == -14 <==> path.None?)
      && (r == -2 <==> path.Some? && forall j :: 0 <= j < |files| ==> files[j].path != path.value)
      && (r == -24 <==> path.Some? && (exists j :: 0 <= j < |files| && files[j].path == path.value) && Full(t))
      && (r < 0 ==> t' == t && r in {-14, -2, -24})
      && (r >= 0 ==>
            && path.Some? && 3 <= r < 15 && |t'| == |t|
            && t'[r - 3].used && t'[r - 3].pos == 0 && t'[r - 3].vfidx < |files|
            && files[t'[r - 3].vfidx].path == path.value
            && (forall j :: 0 <= j < t'[r - 3].vfidx ==> files[j].path != path.value)
            && t' == t[r - 3 := t'[r - 3]])
  {
    if path.Some? {
      FindOk(files, path.value, 0);
    }
  }

  /** What a read answers, what it copies out, and what it leaves. */
  lemma ReadAnswers(files: seq<File>, t: seq<Ufd>, fd: int, len: nat, ok: bool)
    requires Table(t) && forall s :: 0 <= s < |t| && t[s].used ==> t[s].vfidx < |files|
    ensures
      var (t', r, bytes) := Read(files, t, fd, len, ok);
      var open := 3 <= fd < 15 && t[fd - 3].used;
      && (r == -9 <==> !open)
      && (r == -14 <==> open && len > 0 && !ok)
      && (r < 0 ==> t' == t && bytes == [] && (r == -9 || r == -14))
      && (r >= 0 ==>
            && |bytes| == r && t' == t[fd - 3 := t[fd - 3].(pos := t[fd - 3].pos + r)])
      && (open && ok ==>
            var data, pos := files[t[fd - 3].vfidx].data, t[fd - 3].pos;
            && r <= len && r <= 4096
            && (pos < |data| ==> pos + r <= |data| && bytes == data[pos..pos + r])
            && (r < len && r < 4096 ==> pos + r >= |data|)
            && (pos >= |data| ==> r == 0))
  {
    if 3 <= fd < 15 && t[fd - 3].used {
      assert t == t[fd - 3 := t[fd - 3].(pos := t[fd - 3].pos + 0)];
    }
  }

  /** A close ends its own descriptor, if it was open, and nothing else. */
  lemma CloseEnds(t: seq<Ufd>, fd: int)
    requires Table(t)
    ensures
      if 3 <= fd < 15 && t[fd - 3].used
      then !Close(t, fd)[fd - 3].used && Close(t, fd) == t[fd - 3 := Close(t, fd)[fd - 3]]
      else Close(t, fd) == t
  {
  }

  /** A descriptor that has been opened and not closed reads its file from the start; one that has been
      closed answers EBADF. */
  lemma OpenThenUse(files: seq<File>, t: seq<Ufd>, path: seq<byte>, len: nat)
    requires Table(t) && Open(files, t, Some(path)).1 >= 0
    ensures
      var (t', fd) := Open(files, t, Some(path));
      && (exists k :: 0 <= k < |files| && files[k].path == path && Read(files, t', fd, |files[k].data|, true).2 ==
            files[k].data[..if |files[k].data| > 4096 then 4096 else |files[k].data|])
      && Read(files, Close(t', fd), fd, len, true).1 == -9
  {
    OpenNames(files, t, Some(path));
    var (t', fd) := Open(files, t, Some(path));
    var k := t'[fd - 3].vfidx;
    assert files[k].path == path;
  }

  /** Reading to the end: once a read with a positive length and a good buffer returns 0, the whole file
      has been read. */
  lemma EndOfFile(files: seq<File>, f: Fs, fd: int, len: nat)
    requires Inv(files, f) && GetUfd(f.t, fd) >= 0 && len > 0 && Read(files, f.t, fd, len, true).1 == 0
    ensures f.got[GetUfd(f.t, fd)] == files[f.t[GetUfd(f.t, fd)].vfidx].data
  {
    var s := GetUfd(f.t, fd);
    assert SlotOk(files, f.t[s], f.got[s]);
  }

  // ---------------------------------------------------------------- the code

  class Vfs {
    const files: seq<File>
    const ufd: array<Ufd>
    const user: array<byte>        // user memory, by address
    const readable: set<nat>       // pages with a user leaf entry
    const writable: set<nat>       // ... that is writable too

    ghost function U(): UserSpace
      reads user
    {
      UserSpace(user[..], readable, writable)
    }

    ghost predicate Valid()
      reads ufd
    {
      && ufd.Length == MAX_UFD && user.Length == U32_LIMIT
      && 0 !in readable && 0 !in writable && |files| <= 256
      && (forall i :: 0 <= i < |files| ==> 0 !in files[i].path)
      && (forall s :: 0 <= s < MAX_UFD && ufd[s].used ==> ufd[s].vfidx < |files|)
    }

    /** verve_vfs_init */
    constructor (files: seq<File>, user: array<byte>, readable: set<nat>, writable: set<nat>)
      requires user.Length == U32_LIMIT && 0 !in readable && 0 !in writable
      requires |files| <= 256        // vfidx is one byte
      requires forall i :: 0 <= i < |files| ==> 0 !in files[i].path
      ensures Valid() && fresh(ufd) && this.files == files && this.user == user
      ensures ufd[..] == seq(MAX_UFD, _ => Ufd(false, 0, 0))
    {
      this.files, this.user, this.readable, this.writable := files, user, readable, writable;
      ufd := new Ufd[MAX_UFD](_ => Ufd(false, 0, 0));
    }

    method RangeCheck(pages: set<nat>, va: nat, len: nat) returns (ok: bool)
      requires va < U32_LIMIT && len <= MAX_READ
      requires 0 !in pages
      ensures len > 0 ==> ok == RangeOk(pages, va, len)
    {
      if len == 0 {
        return true;
      }
      var end := (va + len) % U32_LIMIT;
      if end < va || end == 0 {
        return false;
      }
      var first, last := va / PAGE, (end - 1) / PAGE;
      var p := first;
      ghost var n := first;
      while p <= last
        invariant first <= n <= last + 1 && p == (if n <= TOP_PAGE then n else 0)
        invariant forall q: nat {:trigger q in pages} :: first <= q < n ==> q in pages
        decreases last + 1 - n
      {
        if p !in pages {
          if n <= TOP_PAGE {
            ghost var x := if p * PAGE < va then va else p * PAGE;
            assert x / PAGE == p && va <= x < va + len;
          }
          return false;
        }
        p := (p + 1) % (TOP_PAGE + 1);
        n := n + 1;
      }
      return true;
    }

    method CopyUserPath(uva: nat) returns (path: Option<seq<byte>>)
      requires Valid() && uva < U32_LIMIT
      ensures path == CopyPath(U(), uva, 0)
    {
      var out: seq<byte> := [];
      var i := 0;
      Prepended(out, CopyPath(U(), uva, 0));
      while i < MAX_PATH - 1
        invariant i <= MAX_PATH - 1
        invariant CopyPath(U(), uva, 0) == Prepend(out, CopyPath(U(), uva, i))
      {
        var a := (uva + i) % U32_LIMIT;
        var ok := RangeCheck(readable, a, 1);
        if !ok {
          return None;
        }
        var c := user[a];
        if c == 0 {
          assert out + [] == out;
          return Some(out);
        }
        PrependMore(out, c, CopyPath(U(), uva, i + 1));
        out := out + [c];
        i := i + 1;
      }
      assert out + [] == out;
      return Some(out);
    }

    method Find(path: seq<byte>) returns (k: int)
      requires Valid() && 0 !in path
      ensures k == FindFile(files, path)
    {
      var i := 0;
      while i < |files|
        invariant i <= |files| && FindFile(files, path) == FindFrom(files, path, i)
      {
        var d := Strcmp(path, files[i].path);
        if d == 0 {
          return i;
        }
        i := i + 1;
      }
      return -1;
    }

    method UfdAlloc(vfidx: nat) returns (fd: int)
      requires Valid() && vfidx < |files|
      modifies ufd
      ensures Valid() && (ufd[..], fd) == AllocUfd(old(ufd[..]), vfidx)
    {
      var s := 0;
      while s < MAX_UFD
        invariant s <= MAX_UFD && FirstUnused(ufd[..]) == FirstUnused(ufd[..], s) && ufd[..] == old(ufd[..])
      {
        if !ufd[s].used {
          ufd[s] := ufd[s].(used := true);
          ufd[s] := ufd[s].(vfidx := vfidx);
          ufd[s] := ufd[s].(pos := 0);
          assert ufd[..] == old(ufd[..])[s := Ufd(true, vfidx, 0)];
          return FD_BASE + s;
        }
        s := s + 1;
      }
      return EMFILE;
    }

    /** verve_vfs_open_u */
    method OpenU(pathVa: nat) returns (r: int)
      requires Valid() && pathVa < U32_LIMIT
      modifies ufd
      ensures Valid() && (ufd[..], r) == Open(files, old(ufd[..]), CopyPath(U(), pathVa, 0))
    {
      CopyPathOk(U(), pathVa, 0);
      var path := CopyUserPath(pathVa);
      if path.None? {
        return EFAULT;
      }
      FindOk(files, path.value, 0);
      var k := Find(path.value);
      if k < 0 {
        return ENOENT;
      }
      r := UfdAlloc(k);
    }

    /** verve_vfs_read_u */
    method ReadU(fd: int, buf: nat, len: nat) returns (r: int)
      requires Valid() && buf < U32_LIMIT && len < U32_LIMIT
      modifies ufd, user
      ensures Valid()
      ensures
        var ok := RangeOk(writable, buf, if len > MAX_READ then MAX_READ else len);
        var (t, n, bytes) := Read(files, old(ufd[..]), fd, len, ok);
        && ufd[..] == t && r == n && buf + |bytes| <= user.Length
        && user[..] == old(user[..buf]) + bytes + old(user[buf + |bytes|..])
    {
      var s := fd - FD_BASE;
      if fd < FD_BASE || s >= MAX_UFD || !ufd[s].used {
        return EBADF;
      }
      var data := files[ufd[s].vfidx].data;
      if len == 0 {
        return 0;
      }
      var l := if len > MAX_READ then MAX_READ else len;
      var ok := RangeCheck(writable, buf, l);
      if !ok {
        return EFAULT;
      }
      if ufd[s].pos >= |data| {
        return 0;
      }
      var want := |data| - ufd[s].pos;
      if want > l {
        want := l;
      }
      var p := ufd[s].pos;
      ufd[s] := ufd[s].(pos := p + want);
      CopyOut(buf, data, p, want);
      return want;
    }

    /** The loop that copies file bytes to the user's buffer. */
    method CopyOut(buf: nat, data: seq<byte>, p: nat, n: nat)
      requires p + n <= |data| && buf + n <= user.Length
      modifies user
      ensures user[..] == old(user[..buf]) + data[p..p + n] + old(user[buf + n..])
    {
      var i := 0;
      while i < n
        invariant i <= n
        invariant forall x: nat {:trigger user[x]} :: x < user.Length ==>
          user[x] == if buf <= x < buf + i then data[p + (x - buf)] else old(user[x])
      {
        user[buf + i] := data[p + i];
        i := i + 1;
      }
    }

    /** verve_vfs_close_u */
    method CloseU(fd: int)
      requires Valid()
      modifies ufd
      ensures Valid() && ufd[..] == Close(old(ufd[..]), fd)
    {
      if fd < FD_BASE {
        return;
      }
      var s := fd - FD_BASE;
      if s >= MAX_UFD || !ufd[s].used {
        return;
      }
      ufd[s] := ufd[s].(used := false);
    }
  }
}
