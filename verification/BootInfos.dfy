/** Multiboot2 informations as boot loaders write them (Multiboot2 specification, section 3.6), what the
    walkers make of them, and two malformed ones that 32-bit pointers cannot stand. */
module BootInfos {
  import opened Wrappers
  import opened Bytes
  import opened Mboot2

  // ---------------------------------------------------------------- encoding (Multiboot2 section 3.6)

  /** A memory-map entry as it lies in memory: `rest` is the reserved word and whatever a larger entry
      size adds. */
  datatype RawEntry = RawEntry(e: MmapEntry, rest: seq<byte>)

  datatype Tag =
    | Map(entrySize: nat, version: nat, entries: seq<RawEntry>, tail: seq<byte>)
    | Other(kind: nat, payload: seq<byte>)

  predicate GoodEntry(r: RawEntry, entrySize: nat) {
    && r.e.base < U64_LIMIT && r.e.length < U64_LIMIT && r.e.kind < U32_LIMIT
    && 20 + |r.rest| == entrySize
  }

  predicate GoodTag(t: Tag) {
    && TagSize(t) % 8 == 0 && TagSize(t) < U32_LIMIT
    && match t
       case Map(es, v, entries, tail) =>
         && ENTRY <= es < U32_LIMIT && v < U32_LIMIT && |entries| > 0 && |tail| < es
         && forall i :: 0 <= i < |entries| ==> GoodEntry(entries[i], es)
       case Other(kind, _) => kind < U32_LIMIT && kind != END && kind != MMAP
  }

  function TagSize(t: Tag): nat {
    match t
    case Map(es, _, entries, tail) => 16 + |EncodeEntries(entries)| + |tail|
    case Other(_, payload) => TAG + |payload|
  }

  function EncodeEntry(r: RawEntry): seq<byte> {
    Encode(r.e.base, 8) + (Encode(r.e.length, 8) + (Encode(r.e.kind, 4) + r.rest))
  }

  function EncodeEntries(rs: seq<RawEntry>): seq<byte> {
    if rs == [] then [] else EncodeEntry(rs[0]) + EncodeEntries(rs[1..])
  }

  function Body(t: Tag): seq<byte> {
    match t
    case Map(es, v, entries, tail) => Encode(es, 4) + (Encode(v, 4) + (EncodeEntries(entries) + tail))
    case Other(_, payload) => payload
  }

  function Kind(t: Tag): nat {
    if t.Map? then MMAP else t.kind
  }

  function EncodeTag(t: Tag): seq<byte> {
    Encode(Kind(t), 4) + (Encode(TagSize(t), 4) + Body(t))
  }

  function EndTag(): seq<byte> {
    Encode(END, 4) + Encode(TAG, 4)
  }

  function EncodeTags(ts: seq<Tag>): seq<byte> {
    if ts == [] then EndTag() else EncodeTag(ts[0]) + EncodeTags(ts[1..])
  }

  function EncodeInfo(ts: seq<Tag>, reserved: nat): seq<byte> {
    Encode(FIXED + |EncodeTags(ts)|, 4) + (Encode(reserved, 4) + EncodeTags(ts))
  }

  predicate GoodInfo(ts: seq<Tag>) {
    && FIXED + |EncodeTags(ts)| < U32_LIMIT
    && forall i :: 0 <= i < |ts| ==> GoodTag(ts[i])
  }

  function EntriesOf(rs: seq<RawEntry>): seq<MmapEntry> {
    if rs == [] then [] else [rs[0].e] + EntriesOf(rs[1..])
  }

  function AllEntries(ts: seq<Tag>): seq<MmapEntry> {
    if ts == [] then [] else (if ts[0].Map? then EntriesOf(ts[0].entries) else []) + AllEntries(ts[1..])
  }

  // ---------------------------------------------------------------- round trips

  /** A value encoded at `p` is read back, and what follows it follows. */
  lemma Field(b: seq<byte>, p: nat, v: nat, n: nat, rest: seq<byte>)
    requires p <= |b| && b[p..] == Encode(v, n) + rest && v < Limit(n)
    ensures p + n <= |b| && Get(b, p, n) == v && b[p + n..] == rest
  {
    DecodeEncode(v, n);
    var s := b[p..];
    assert |s| == n + |rest|;
    assert b[p..p + n] == s[..n] == Encode(v, n);
    assert b[p + n..] == s[n..] == rest;
  }

  /** A run of bytes that starts at `p`. */
  lemma Skip(b: seq<byte>, p: nat, s: seq<byte>, rest: seq<byte>)
    requires p <= |b| && b[p..] == s + rest
    ensures p + |s| <= |b| && b[p..p + |s|] == s && b[p + |s|..] == rest
  {
    var t := b[p..];
    assert b[p..p + |s|] == t[..|s|] && b[p + |s|..] == t[|s|..];
  }

  lemma Regroup(a: seq<byte>, b: seq<byte>, c: seq<byte>, d: seq<byte>)
    ensures (a + (b + c)) + d == a + (b + (c + d))
  {
  }

  lemma EntryFields(b: seq<byte>, p: nat, r: RawEntry, entrySize: nat, rest: seq<byte>)
    requires p <= |b| && b[p..] == EncodeEntry(r) + rest && GoodEntry(r, entrySize)
    ensures p + entrySize <= |b| && ReadEntry(b, p) == r.e && b[p + entrySize..] == rest
  {
    hide Encode, Get, Limit;
    Limits();
    var r0 := r.rest + rest;
    var r1, r2 := Encode(r.e.kind, 4) + r0, Encode(r.e.length, 8) + (Encode(r.e.kind, 4) + r0);
    assert EncodeEntry(r) + rest == Encode(r.e.base, 8) + r2;
    Field(b, p, r.e.base, 8, r2);
    Field(b, p + 8, r.e.length, 8, r1);
    Field(b, p + 16, r.e.kind, 4, r0);
    Skip(b, p + 20, r.rest, rest);
  }

  lemma {:induction false} EntriesFound(b: seq<byte>, p: nat, rs: seq<RawEntry>, entrySize: nat,
                                        tail: seq<byte>, rest: seq<byte>)
    requires p <= |b| && b[p..] == EncodeEntries(rs) + tail + rest
    requires ENTRY <= entrySize && |tail| < entrySize
    requires forall i :: 0 <= i < |rs| ==> GoodEntry(rs[i], entrySize)
    ensures |EncodeEntries(rs)| == |rs| * entrySize
    ensures Entries(b, p, p + |EncodeEntries(rs)| + |tail|, entrySize) == EntriesOf(rs)
    decreases |rs|
  {
    hide ReadEntry, EncodeEntry;
    if rs != [] {
      var more := EncodeEntries(rs[1..]);
      assert EncodeEntries(rs) + tail + rest == EncodeEntry(rs[0]) + (more + tail + rest);
      EntryFields(b, p, rs[0], entrySize, more + tail + rest);
      EntryLength(rs[0], entrySize);
      EntriesFound(b, p + entrySize, rs[1..], entrySize, tail, rest);
      assert p + |EncodeEntries(rs)| + |tail| == p + entrySize + |more| + |tail|;
    }
  }

  lemma EntryLength(r: RawEntry, entrySize: nat)
    requires GoodEntry(r, entrySize)
    ensures |EncodeEntry(r)| == entrySize
  {
  }

  /** The header of an encoded tag passes the walkers' checks. */
  lemma TagHeader(b: seq<byte>, p: nat, end: nat, t: Tag, rest: seq<byte>)
    requires p <= |b| && b[p..] == EncodeTag(t) + rest && GoodTag(t) && p + TagSize(t) <= end
    ensures |EncodeTag(t)| == TagSize(t)
    ensures p + TAG <= p + TagSize(t) <= |b| && !BadTag(b, p, end)
    ensures Get(b, p, 4) == Kind(t) && Get(b, p + 4, 4) == TagSize(t)
    ensures b[p + 8..] == Body(t) + rest && b[p + TagSize(t)..] == rest
  {
    hide Encode, Get, Limit;
    Limits();
    BodyLength(t);
    Regroup(Encode(Kind(t), 4), Encode(TagSize(t), 4), Body(t), rest);
    Field(b, p, Kind(t), 4, Encode(TagSize(t), 4) + (Body(t) + rest));
    Field(b, p + 4, TagSize(t), 4, Body(t) + rest);
    Skip(b, p + 8, Body(t), rest);
  }

  lemma BodyLength(t: Tag)
    ensures |Body(t)| + TAG == TagSize(t)
    ensures |EncodeTag(t)| == TagSize(t)
  {
  }

  /** An encoded memory-map tag yields its entries. */
  lemma MapEntries(b: seq<byte>, p: nat, t: Tag, rest: seq<byte>)
    requires p <= |b| && b[p..] == EncodeTag(t) + rest && GoodTag(t) && t.Map?
    ensures p + 12 <= |b| && Get(b, p + 8, 4) == t.entrySize && TagSize(t) >= 16 + ENTRY
    ensures Entries(b, p + 16, p + TagSize(t), t.entrySize) == EntriesOf(t.entries)
  {
    hide Encode, Get, Limit, Entries, EncodeEntries, EntriesOf;
    TagHeader(b, p, p + TagSize(t), t, rest);
    MapFields(b, p, t.entrySize, t.version, EncodeEntries(t.entries) + t.tail, rest);
    EntriesFound(b, p + 16, t.entries, t.entrySize, t.tail, rest);
    AtLeastOne(|t.entries|, t.entrySize);
  }

  lemma MapFields(b: seq<byte>, p: nat, entrySize: nat, version: nat, entries: seq<byte>, rest: seq<byte>)
    requires p + 8 <= |b| && entrySize < U32_LIMIT && version < U32_LIMIT
    requires b[p + 8..] == Encode(entrySize, 4) + (Encode(version, 4) + entries) + rest
    ensures p + 16 <= |b| && Get(b, p + 8, 4) == entrySize && b[p + 16..] == entries + rest
  {
    Limits();
    hide Encode, Get, Limit;
    Regroup(Encode(entrySize, 4), Encode(version, 4), entries, rest);
    Field(b, p + 8, entrySize, 4, Encode(version, 4) + (entries + rest));
    Field(b, p + 12, version, 4, entries + rest);
  }

  lemma AtLeastOne(n: nat, k: nat)
    requires n > 0
    ensures n * k >= k
  {
  }

  lemma EndHeader(b: seq<byte>, p: nat, rest: seq<byte>)
    requires p <= |b| && b[p..] == EndTag() + rest
    ensures p + TAG <= |b| && !BadTag(b, p, p + TAG) && Get(b, p, 4) == END && Get(b, p + 4, 4) == TAG
  {
    hide Encode, Get, Limit;
    Limits();
    assert EndTag() + rest == Encode(END, 4) + (Encode(TAG, 4) + rest);
    Field(b, p, END, 4, Encode(TAG, 4) + rest);
    Field(b, p + 4, TAG, 4, rest);
  }

  lemma WalkOver(b: seq<byte>, p: nat, end: nat, sz: nat)
    requires p + TAG <= end && !BadTag(b, p, end) && Get(b, p + 4, 4) == sz
    requires Get(b, p, 4) != END && Get(b, p, 4) != MMAP
    ensures WalkFrom(b, p, end) == WalkFrom(b, p + sz, end)
  {
    hide Get;
  }

  lemma WalkInto(b: seq<byte>, p: nat, end: nat, sz: nat, entrySize: nat)
    requires p + TAG <= end && !BadTag(b, p, end) && Get(b, p + 4, 4) == sz && sz >= 16 + ENTRY
    requires Get(b, p, 4) == MMAP && Get(b, p + 8, 4) == entrySize && entrySize >= ENTRY
    ensures WalkFrom(b, p, end).0 == WalkFrom(b, p + sz, end).0
    ensures WalkFrom(b, p, end).1 == Entries(b, p + 16, p + sz, entrySize) + WalkFrom(b, p + sz, end).1
  {
    hide Get, Entries;
  }

  /** One step of the walk over an encoded tag. */
  lemma WalkStep(b: seq<byte>, p: nat, end: nat, t: Tag, rest: seq<byte>)
    requires p <= |b| && b[p..] == EncodeTag(t) + rest && GoodTag(t) && p + TagSize(t) <= end
    ensures p + TagSize(t) <= |b| && b[p + TagSize(t)..] == rest
    ensures WalkFrom(b, p, end).0 == WalkFrom(b, p + TagSize(t), end).0
    ensures
      var (es, more) := (if t.Map? then EntriesOf(t.entries) else [], WalkFrom(b, p + TagSize(t), end).1);
      WalkFrom(b, p, end).1 == es + more
  {
    hide Get, Entries, EncodeTag, BadTag, TagSize, EntriesOf, WalkFrom, Body;
    TagHeader(b, p, end, t, rest);
    if t.Map? {
      MapEntries(b, p, t, rest);
      WalkInto(b, p, end, TagSize(t), t.entrySize);
    } else {
      WalkOver(b, p, end, TagSize(t));
      assert [] + WalkFrom(b, p + TagSize(t), end).1 == WalkFrom(b, p + TagSize(t), end).1;
    }
  }

  /** Tags at `p`, followed by other memory: the first one, and the rest. */
  lemma FirstOfTags(b: seq<byte>, p: nat, ts: seq<Tag>, rest: seq<byte>)
    requires p <= |b| && b[p..] == EncodeTags(ts) + rest && ts != []
    ensures b[p..] == EncodeTag(ts[0]) + (EncodeTags(ts[1..]) + rest)
    ensures |EncodeTags(ts)| == TagSize(ts[0]) + |EncodeTags(ts[1..])|
  {
    hide EncodeTag, TagSize;
    BodyLength(ts[0]);
    Reassociate(EncodeTag(ts[0]), EncodeTags(ts[1..]), rest);
  }

  lemma Reassociate(a: seq<byte>, b: seq<byte>, c: seq<byte>)
    ensures a + b + c == a + (b + c)
  {
  }

  lemma {:induction false} WalkTags(b: seq<byte>, p: nat, ts: seq<Tag>, rest: seq<byte>)
    requires p <= |b| && b[p..] == EncodeTags(ts) + rest
    requires forall i :: 0 <= i < |ts| ==> GoodTag(ts[i])
    ensures WalkFrom(b, p, p + |EncodeTags(ts)|) == (true, AllEntries(ts))
    decreases |ts|
  {
    hide Get, BadTag, Encode, Entries, TagSize;
    if ts == [] {
      EndHeader(b, p, rest);
    } else {
      hide WalkFrom, EncodeTag, EncodeTags, TagSize, GoodTag, EntriesOf;
      FirstOfTags(b, p, ts, rest);
      WalkStep(b, p, p + |EncodeTags(ts)|, ts[0], EncodeTags(ts[1..]) + rest);
      WalkTags(b, p + TagSize(ts[0]), ts[1..], rest);
    }
  }

  /** Memory holds the encoded info at `at`. */
  predicate Holds(m: seq<byte>, at: nat, ts: seq<Tag>, reserved: nat) {
    var n := |EncodeInfo(ts, reserved)|;
    at + n <= |m| && m[at..at + n] == EncodeInfo(ts, reserved)
  }

  /** The header of an encoded info. */
  lemma InfoHeader(m: seq<byte>, at: nat, ts: seq<Tag>, reserved: nat)
    requires GoodInfo(ts) && reserved < U32_LIMIT && Holds(m, at, ts, reserved)
    ensures !BadInfo(m, at) && at + FIXED <= |m|
    ensures Get(m, at, 4) == FIXED + |EncodeTags(ts)| == |EncodeInfo(ts, reserved)|
    ensures m[at + FIXED..] == EncodeTags(ts) + m[at + Get(m, at, 4)..]
  {
    hide GoodTag, EncodeTags, Encode, Get;
    TagsLength(ts);
    var n := |EncodeInfo(ts, reserved)|;
    assert m[at..] == m[at..at + n] + m[at + n..];
    HeaderFields(m, at, EncodeTags(ts), reserved, m[at + n..]);
  }

  lemma HeaderFields(m: seq<byte>, at: nat, tags: seq<byte>, reserved: nat, rest: seq<byte>)
    requires FIXED + |tags| < U32_LIMIT && reserved < U32_LIMIT && at <= |m|
    requires m[at..] == Encode(FIXED + |tags|, 4) + (Encode(reserved, 4) + tags) + rest
    ensures at + FIXED <= |m| && Get(m, at, 4) == FIXED + |tags| && m[at + FIXED..] == tags + rest
  {
    Limits();
    hide Encode, Get, Limit;
    Regroup(Encode(FIXED + |tags|, 4), Encode(reserved, 4), tags, rest);
    Field(m, at, FIXED + |tags|, 4, Encode(reserved, 4) + (tags + rest));
    Field(m, at + 4, reserved, 4, tags + rest);
  }

  lemma {:induction false} TagsLength(ts: seq<Tag>)
    requires forall i :: 0 <= i < |ts| ==> GoodTag(ts[i])
    ensures |EncodeTags(ts)| % 8 == 0 && |EncodeTags(ts)| >= 8
  {
    if ts != [] {
      BodyLength(ts[0]);
      GoodSize(ts[0]);
      hide EncodeTag, TagSize, GoodTag;
      TagsLength(ts[1..]);
    }
  }

  lemma GoodSize(t: Tag)
    requires GoodTag(t)
    ensures TagSize(t) % 8 == 0
  {
  }

  /** Walking an encoded info visits exactly its memory-map entries, in order. */
  lemma WalkEncoded(m: seq<byte>, at: nat, ts: seq<Tag>, reserved: nat)
    requires GoodInfo(ts) && reserved < U32_LIMIT && Holds(m, at, ts, reserved)
    ensures Walk(m, at) == (true, AllEntries(ts))
  {
    InfoHeader(m, at, ts, reserved);
    WalkTags(m, at + FIXED, ts, m[at + Get(m, at, 4)..]);
    hide Get, EncodeTags, GoodTag, AllEntries, WalkFrom;
  }

  /** Position of the first tag of a type, or the number of tags. */
  function FirstOf(ts: seq<Tag>, want: nat): (i: nat)
    ensures i <= |ts|
    ensures i < |ts| ==> Kind(ts[i]) == want
    ensures forall j :: 0 <= j < i ==> Kind(ts[j]) != want
  {
    if ts == [] then 0 else if Kind(ts[0]) == want then 0 else 1 + FirstOf(ts[1..], want)
  }

  /** `at` is where tag `t` lies in `b`. */
  predicate Lies(b: seq<byte>, at: nat, t: Tag) {
    && TAG <= TagSize(t) && at + TagSize(t) <= |b| && Get(b, at + 4, 4) == TagSize(t)
    && b[at + 8..at + TagSize(t)] == Body(t)
  }

  lemma FindOver(b: seq<byte>, p: nat, end: nat, sz: nat, want: nat)
    requires p + TAG <= end && !BadTag(b, p, end) && Get(b, p + 4, 4) == sz && Get(b, p, 4) != END
    ensures FirstTag(b, p, end, want) == if Get(b, p, 4) == want then Some(p) else FirstTag(b, p + sz, end, want)
  {
    hide Get;
  }

  lemma FindStep(b: seq<byte>, p: nat, end: nat, t: Tag, rest: seq<byte>, want: nat)
    requires p <= |b| && b[p..] == EncodeTag(t) + rest && GoodTag(t) && p + TagSize(t) <= end
    ensures p + TagSize(t) <= |b| && b[p + TagSize(t)..] == rest && Lies(b, p, t)
    ensures FirstTag(b, p, end, want) == if Kind(t) == want then Some(p) else FirstTag(b, p + TagSize(t), end, want)
  {
    hide Get, EncodeTag, BadTag, TagSize, Body, FirstTag;
    TagHeader(b, p, end, t, rest);
    BodyLength(t);
    Skip(b, p + 8, Body(t), rest);
    FindOver(b, p, end, TagSize(t), want);
  }

  lemma {:induction false} FindTags(b: seq<byte>, p: nat, ts: seq<Tag>, want: nat, rest: seq<byte>)
    requires p <= |b| && b[p..] == EncodeTags(ts) + rest && want != END
    requires forall i :: 0 <= i < |ts| ==> GoodTag(ts[i])
    ensures
      var i, at := FirstOf(ts, want), FirstTag(b, p, p + |EncodeTags(ts)|, want);
      if i == |ts| then at.None? else at.Some? && Lies(b, at.value, ts[i])
    decreases |ts|
  {
    hide Get, BadTag, FirstTag, EncodeTag, EncodeTags, TagSize, GoodTag, Lies, FirstOf, Kind;
    if ts == [] {
      FindNothing(b, p, want, rest);
    } else {
      FirstOfTags(b, p, ts, rest);
      FirstOfIs(ts, want);
      FindStep(b, p, p + |EncodeTags(ts)|, ts[0], EncodeTags(ts[1..]) + rest, want);
      if Kind(ts[0]) != want {
        FindTags(b, p + TagSize(ts[0]), ts[1..], want, rest);
      }
    }
  }

  lemma FindNothing(b: seq<byte>, p: nat, want: nat, rest: seq<byte>)
    requires p <= |b| && b[p..] == EncodeTags([]) + rest
    ensures FirstTag(b, p, p + |EncodeTags([])|, want) == None && FirstOf([], want) == 0
  {
    hide Get, BadTag, Encode;
    EndHeader(b, p, rest);
  }

  lemma FirstOfIs(ts: seq<Tag>, want: nat)
    requires ts != []
    ensures FirstOf(ts, want) == if Kind(ts[0]) == want then 0 else 1 + FirstOf(ts[1..], want)
  {
    hide Kind;
  }

  /** The other walkers return the first tag of the wanted type, with its payload. */
  lemma FindEncoded(m: seq<byte>, at: nat, ts: seq<Tag>, reserved: nat, want: nat)
    requires GoodInfo(ts) && reserved < U32_LIMIT && want != END && Holds(m, at, ts, reserved)
    ensures
      var i, tag := FirstOf(ts, want), Find(m, at, want);
      if i == |ts| then tag.None? else tag.Some? && Lies(m, tag.value, ts[i])
  {
    InfoHeader(m, at, ts, reserved);
    FindTags(m, at + FIXED, ts, want, m[at + Get(m, at, 4)..]);
    hide Get, EncodeTags, GoodTag, FirstTag, Lies;
  }

  /** The bytes of the memory-map entries of type 1. */
  function UsableEntries(rs: seq<RawEntry>): nat {
    if rs == [] then 0 else (if rs[0].e.kind == 1 then rs[0].e.length else 0) + UsableEntries(rs[1..])
  }

  function Usable(ts: seq<Tag>): nat {
    if ts == [] then 0 else (if ts[0].Map? then UsableEntries(ts[0].entries) else 0) + Usable(ts[1..])
  }

  lemma {:induction false} EntriesUsable(rs: seq<RawEntry>)
    ensures Total(EntriesOf(rs)) == UsableEntries(rs)
  {
    if rs != [] {
      TotalConcat([rs[0].e], EntriesOf(rs[1..]));
      TotalOne(rs[0].e);
      EntriesUsable(rs[1..]);
    }
  }

  lemma {:induction false} TagsUsable(ts: seq<Tag>)
    ensures Total(AllEntries(ts)) == Usable(ts)
  {
    if ts != [] {
      var es := if ts[0].Map? then EntriesOf(ts[0].entries) else [];
      TotalConcat(es, AllEntries(ts[1..]));
      if ts[0].Map? {
        EntriesUsable(ts[0].entries);
      }
      TagsUsable(ts[1..]);
    }
  }

  /** For an encoded info, what mb2_sum_usable_ram sums up is the bytes of type 1. */
  lemma SumEncoded(m: seq<byte>, at: nat, ts: seq<Tag>, reserved: nat)
    requires GoodInfo(ts) && reserved < U32_LIMIT && Holds(m, at, ts, reserved)
    ensures Walk(m, at).0 && Total(Walk(m, at).1) == Usable(ts)
  {
    hide GoodInfo, Holds, Total, AllEntries, Usable, Walk;
    WalkEncoded(m, at, ts, reserved);
    TagsUsable(ts);
  }

  /** For an encoded info, find_acpi_tag finds the payload of the first tag of the type, unless there is no
      such tag or its payload is empty. */
  lemma PayloadEncoded(m: seq<byte>, at: nat, ts: seq<Tag>, reserved: nat, want: nat)
    requires GoodInfo(ts) && reserved < U32_LIMIT && want != END && Holds(m, at, ts, reserved)
    ensures
      var i, pl := FirstOf(ts, want), AcpiPayload(m, at, want);
      if i == |ts| || Body(ts[i]) == [] then pl.None?
      else
        && pl.Some? && pl.value.0 + pl.value.1 <= |m|
        && m[pl.value.0..pl.value.0 + pl.value.1] == Body(ts[i])
  {
    hide GoodInfo, Holds, Find, Get, Body, FirstOf;
    FindEncoded(m, at, ts, reserved, want);
    if FirstOf(ts, want) < |ts| {
      BodyLength(ts[FirstOf(ts, want)]);
    }
  }

  /** mb2_find_rsdp_payload finds the RSDP of version 2 or later if there is one, else the old one. */
  lemma RsdpEncoded(m: seq<byte>, at: nat, ts: seq<Tag>, reserved: nat)
    requires GoodInfo(ts) && reserved < U32_LIMIT && Holds(m, at, ts, reserved)
    ensures
      var i, j := FirstOf(ts, 15), FirstOf(ts, 14);
      var new', old' := AcpiPayload(m, at, ACPI_NEW), AcpiPayload(m, at, ACPI_OLD);
      var pl := if new'.Some? then new' else old';
      if i < |ts| && Body(ts[i]) != [] then pl.Some? && Shows(m, pl.value, Body(ts[i]))
      else if j < |ts| && Body(ts[j]) != [] then pl.Some? && Shows(m, pl.value, Body(ts[j]))
      else pl.None?
  {
    hide GoodInfo, Holds, AcpiPayload, Body, FirstOf;
    PayloadEncoded(m, at, ts, reserved, 15);
    PayloadEncoded(m, at, ts, reserved, 14);
  }

  predicate Shows(m: seq<byte>, pl: (nat, nat), body: seq<byte>) {
    pl.0 + pl.1 <= |m| && m[pl.0..pl.0 + pl.1] == body
  }

  /** The two words that mb2_read_basic_meminfo reads are the first two of the tag's payload. */
  lemma MeminfoEncoded(m: seq<byte>, at: nat, ts: seq<Tag>, reserved: nat)
    requires GoodInfo(ts) && reserved < U32_LIMIT && Holds(m, at, ts, reserved)
    ensures
      var i, tag := FirstOf(ts, 4), Find(m, at, BASIC_MEMINFO);
      && (tag.Some? && Get(m, tag.value + 4, 4) >= 16 <==> i < |ts| && |Body(ts[i])| >= 8)
      && (i < |ts| && |Body(ts[i])| >= 8 ==>
            && Get(m, tag.value + 8, 4) == Decode(Body(ts[i])[..4])
            && Get(m, tag.value + 12, 4) == Decode(Body(ts[i])[4..8]))
  {
    hide GoodInfo, Holds, Find, Decode, Body, FirstOf;
    var i, tag := FirstOf(ts, 4), Find(m, at, BASIC_MEMINFO);
    FindEncoded(m, at, ts, reserved, 4);
    if i < |ts| {
      BodyLength(ts[i]);
      if |Body(ts[i])| >= 8 {
        var p, q := tag.value + 8, tag.value + TagSize(ts[i]);
        SubSlice(m, p, q, 0, 4);
        SubSlice(m, p, q, 4, 8);
      }
    }
  }

  lemma SubSlice(m: seq<byte>, p: nat, q: nat, i: nat, j: nat)
    requires p <= q <= |m| && i <= j <= q - p
    ensures m[p..q][i..j] == m[p + i..p + j]
  {
    forall k | 0 <= k < j - i
      ensures m[p..q][i..j][k] == m[p + i..p + j][k]
    {
    }
  }

  // ---------------------------------------------------------------- encoded infos below the top of memory

  lemma {:induction false} SeenAside(w: Walker, m: seq<byte>, end: nat, width: nat, s: State, seen: seq<MmapEntry>)
    requires Within(end, s.pt) && FitsFrom(w, m, end, width, s)
    ensures FitsFrom(w, m, end, width, s.(seen := seen))
    decreases ToGo(end, s.pt), Phase(s.pt)
  {
    hide Get, ReadEntry;
    if Phase(s.pt) > 0 {
      ExactStep(w, m, end, s);
      SeenAside(w, m, end, width, Next(w, m, end, 0, s), Next(w, m, end, 0, s.(seen := seen)).seen);
    }
  }

  lemma {:induction false} EntriesFit(m: seq<byte>, end: nat, width: nat, s: State)
    requires s.pt.AtEntry? && Within(end, s.pt) && s.pt.tagEnd + s.pt.size < width
    requires FitsFrom(Collect, m, end, width, State(AtGuard(s.pt.tagEnd), []))
    ensures FitsFrom(Collect, m, end, width, s)
    decreases s.pt.tagEnd - s.pt.e
  {
    hide Get, ReadEntry;
    var t := Next(Collect, m, end, 0, s);
    if t.pt.AtEntry? {
      EntriesFit(m, end, width, t);
    } else {
      SeenAside(Collect, m, end, width, State(AtGuard(s.pt.tagEnd), []), s.seen);
    }
  }

  lemma TagFits(w: Walker, b: seq<byte>, p: nat, end: nat, width: nat, t: Tag, rest: seq<byte>)
    requires p <= |b| && b[p..] == EncodeTag(t) + rest && GoodTag(t) && p + TagSize(t) + TAG <= end
    requires end + TagSize(t) < width
    requires FitsFrom(w, b, end, width, State(AtGuard(p + TagSize(t)), []))
    ensures FitsFrom(w, b, end, width, State(AtGuard(p), []))
  {
    hide Get, Entries, EncodeTag, BadTag, TagSize, EntriesOf, Body;
    TagHeader(b, p, end, t, rest);
    var sz := TagSize(t);
    assert FitsFrom(w, b, end, width, State(AtKind(p, sz), [])) by {
      if t.Map? && w.Collect? {
        MapEntries(b, p, t, rest);
        EntrySizeBound(t);
        EntriesFit(b, end, width, State(AtEntry(p + 16, t.entrySize, p + sz), []));
      }
    }
    TagPassed(w, b, end, width, p, sz);
  }

  lemma EntrySizeBound(t: Tag)
    requires GoodTag(t) && t.Map?
    ensures t.entrySize <= TagSize(t)
  {
    EntryLength(t.entries[0], t.entrySize);
    hide EncodeEntry;
  }

  lemma TagPassed(w: Walker, m: seq<byte>, end: nat, width: nat, p: nat, sz: nat)
    requires p + TAG <= end < width && Get(m, p + 4, 4) == sz && !BadTag(m, p, end)
    requires FitsFrom(w, m, end, width, State(AtKind(p, sz), []))
    ensures FitsFrom(w, m, end, width, State(AtGuard(p), []))
  {
    hide Get;
    assert FitsFrom(w, m, end, width, State(AtSize(p), []));
  }

  lemma {:induction false} TagsFit(w: Walker, b: seq<byte>, p: nat, ts: seq<Tag>, width: nat, rest: seq<byte>, n: nat)
    requires p <= |b| && b[p..] == EncodeTags(ts) + rest && |EncodeTags(ts)| <= n
    requires p + |EncodeTags(ts)| + n < width
    requires forall i :: 0 <= i < |ts| ==> GoodTag(ts[i])
    ensures FitsFrom(w, b, p + |EncodeTags(ts)|, width, State(AtGuard(p), []))
    decreases |ts|
  {
    hide Get, Encode, Entries, TagSize;
    if ts == [] {
      EndHeader(b, p, rest);
      assert FitsFrom(w, b, p + TAG, width, State(AtKind(p, TAG), []));
      TagPassed(w, b, p + TAG, width, p, TAG);
    } else {
      var end := p + |EncodeTags(ts)|;
      FirstOfTags(b, p, ts, rest);
      TagsLength(ts[1..]);
      BodyLength(ts[0]);
      hide EncodeTag, EncodeTags, GoodTag, FitsFrom;
      WalkStep(b, p, end, ts[0], EncodeTags(ts[1..]) + rest);
      TagsFit(w, b, p + TagSize(ts[0]), ts[1..], width, rest, n);
      TagFits(w, b, p, end, width, ts[0], EncodeTags(ts[1..]) + rest);
    }
  }

  /** On either build, an encoded info that ends at least its own length below the top of the address space
      is walked without a sum that wraps. */
  lemma EncodedFits(w: Walker, m: seq<byte>, at: nat, ts: seq<Tag>, reserved: nat, width: nat)
    requires GoodInfo(ts) && reserved < U32_LIMIT && Holds(m, at, ts, reserved)
    requires at + 2 * |EncodeInfo(ts, reserved)| <= width
    ensures Fits(w, m, at, width)
  {
    InfoHeader(m, at, ts, reserved);
    hide Get, EncodeTags, GoodTag;
    TagsFit(w, m, at + FIXED, ts, width, m[at + Get(m, at, 4)..], |EncodeTags(ts)|);
  }

  // ---------------------------------------------------------------- two infos that defeat 32-bit pointers

  /** A tag of 8 bytes, and one whose size takes the pointer back to it. */
  function Runaway(): seq<byte> {
    Encode(32, 4) + (Encode(0, 4) + (Encode(1, 4) + (Encode(8, 4)
    + (Encode(1, 4) + (Encode(U32_LIMIT - 8, 4) + Encode(0, 8))))))
  }

  lemma RunawayFields(m: seq<byte>, at: nat)
    requires at + 32 <= |m| && m[at..at + 32] == Runaway()
    ensures !BadInfo(m, at) && Get(m, at, 4) == 32
    ensures Get(m, at + 8, 4) == 1 && Get(m, at + 12, 4) == 8
    ensures Get(m, at + 16, 4) == 1 && Get(m, at + 20, 4) == U32_LIMIT - 8
  {
    hide Encode, Get, Limit;
    Limits();
    var t6 := Encode(0, 8) + m[at + 32..];
    var t5 := Encode(U32_LIMIT - 8, 4) + t6;
    var t4 := Encode(1, 4) + t5;
    var t3 := Encode(8, 4) + t4;
    var t2 := Encode(1, 4) + t3;
    var t1 := Encode(0, 4) + t2;
    assert m[at..] == m[at..at + 32] + m[at + 32..];
    assert Runaway() + m[at + 32..] == Encode(32, 4) + t1;
    Field(m, at, 32, 4, t1);
    Field(m, at + 4, 0, 4, t2);
    Field(m, at + 8, 1, 4, t3);
    Field(m, at + 12, 8, 4, t4);
    Field(m, at + 16, 1, 4, t5);
    Field(m, at + 20, U32_LIMIT - 8, 4, t6);
  }

  /** The six points between which the walk goes round. */
  predicate GoesRound(at: nat, pt: Point) {
    || pt == AtGuard(at + 8) || pt == AtSize(at + 8) || pt == AtKind(at + 8, 8)
    || pt == AtGuard(at + 16) || pt == AtSize(at + 16) || pt == AtKind(at + 16, U32_LIMIT - 8)
  }

  lemma RoundStep(w: Walker, m: seq<byte>, at: nat, s: State)
    requires at + 32 <= |m| && at + 32 < U32_LIMIT && m[at..at + 32] == Runaway() && w != Seek(1)
    requires GoesRound(at, s.pt)
    ensures GoesRound(at, Next(w, m, at + 32, U32_LIMIT, s).pt)
  {
    RunawayFields(m, at);
    hide Get, Runaway, Sum;
    SumIs(at + 8, 8, U32_LIMIT);
    SumIs(at + 8, 4, U32_LIMIT);
    SumIs(at + 16, 8, U32_LIMIT);
    SumIs(at + 16, 4, U32_LIMIT);
    SumIs(at + 16, U32_LIMIT - 8, U32_LIMIT);
  }

  /** On i386 no walk of that info ends, where the exact walk rejects it. */
  lemma {:induction false} NeverEnds(w: Walker, m: seq<byte>, at: nat, s: State, n: nat)
    requires at + 32 <= |m| && at + 32 < U32_LIMIT && m[at..at + 32] == Runaway() && w != Seek(1)
    requires GoesRound(at, s.pt)
    ensures GoesRound(at, Trace(w, m, at + 32, U32_LIMIT, s, n).pt)
    decreases n
  {
    hide Next, Runaway;
    if n > 0 {
      RoundStep(w, m, at, s);
      NeverEnds(w, m, at, Next(w, m, at + 32, U32_LIMIT, s), n - 1);
    }
  }

  lemma RunawayRejected(m: seq<byte>, at: nat)
    requires at + 32 <= |m| && m[at..at + 32] == Runaway()
    ensures Walk(m, at) == (false, [])
  {
    RunawayFields(m, at);
    hide Get, Runaway;
    assert WalkFrom(m, at + 16, at + 32) == (false, []);
  }

  /** A memory-map tag whose entry size takes the entry pointer 16 bytes back. */
  function Backwards(): seq<byte> {
    Encode(56, 4) + (Encode(0, 4) + (Encode(MMAP, 4) + (Encode(40, 4) + Encode(U32_LIMIT - 16, 4))))
  }

  lemma BackwardsFields(m: seq<byte>, at: nat)
    requires at + 20 <= |m| && m[at..at + 20] == Backwards()
    ensures !BadInfo(m, at) && Get(m, at, 4) == 56
    ensures Get(m, at + 8, 4) == MMAP && Get(m, at + 12, 4) == 40 && Get(m, at + 16, 4) == U32_LIMIT - 16
  {
    hide Encode, Get, Limit;
    Limits();
    var t4 := Encode(U32_LIMIT - 16, 4) + m[at + 20..];
    var t3 := Encode(40, 4) + t4;
    var t2 := Encode(MMAP, 4) + t3;
    var t1 := Encode(0, 4) + t2;
    assert m[at..] == m[at..at + 20] + m[at + 20..];
    assert Backwards() + m[at + 20..] == Encode(56, 4) + t1;
    Field(m, at, 56, 4, t1);
    Field(m, at + 4, 0, 4, t2);
    Field(m, at + 8, MMAP, 4, t3);
    Field(m, at + 12, 40, 4, t4);
    Field(m, at + 16, U32_LIMIT - 16, 4, m[at + 20..]);
  }

  /** On i386 the walk of that info hands memory below the info to its callback as an entry; the exact walk
      visits none. */
  lemma ReadsBelow(m: seq<byte>, at: nat)
    requires at + 56 <= |m| && 24 <= at && at + 56 < U32_LIMIT && m[at..at + 20] == Backwards()
    ensures Trace(Collect, m, at + 56, U32_LIMIT, State(AtGuard(at + FIXED), []), 6).seen ==
            [ReadEntry(m, at + 24), ReadEntry(m, at + 8), ReadEntry(m, at - 8)]
    ensures Entries(m, at + 24, at + 48, Get(m, at + 16, 4)) == []
  {
    BackwardsFields(m, at);
    hide Get, Backwards, ReadEntry, Trace, Entries, Sum;
    SumIs(at + 24, U32_LIMIT - 16, U32_LIMIT);
    SumIs(at + 8, U32_LIMIT - 16, U32_LIMIT);
    SumIs(at - 8, U32_LIMIT - 16, U32_LIMIT);
    assert Entries(m, at + 24, at + 48, U32_LIMIT - 16) == [] by { BigEntry(m, at + 24, at + 48); }
    var s := State(AtGuard(at + FIXED), []);
    var x, y, z := ReadEntry(m, at + 24), ReadEntry(m, at + 8), ReadEntry(m, at - 8);
    var s4 := State(AtEntry(at + 8, U32_LIMIT - 16, at + 48), [x]);
    BackSteps(m, at, s, State(AtEntry(at + 24, U32_LIMIT - 16, at + 48), []));
    Compose(Collect, m, at + 56, U32_LIMIT, s, 3, 3);
    OneStep(Collect, m, at + 56, U32_LIMIT, State(AtEntry(at + 24, U32_LIMIT - 16, at + 48), []), 2);
    OneStep(Collect, m, at + 56, U32_LIMIT, s4, 1);
    assert [x] + [y] == [x, y] && [x, y] + [z] == [x, y, z];
    OneStep(Collect, m, at + 56, U32_LIMIT, State(AtEntry(at - 8, U32_LIMIT - 16, at + 48), [x, y]), 0);
  }

  lemma BigEntry(m: seq<byte>, e: nat, tagEnd: nat)
    requires tagEnd <= e + 24
    ensures Entries(m, e, tagEnd, U32_LIMIT - 16) == []
  {
  }

  lemma BackSteps(m: seq<byte>, at: nat, s: State, t: State)
    requires at + 56 < U32_LIMIT
    requires Get(m, at + 8, 4) == MMAP && Get(m, at + 12, 4) == 40 && Get(m, at + 16, 4) == U32_LIMIT - 16
    requires s == State(AtGuard(at + 8), []) && t == State(AtEntry(at + 24, U32_LIMIT - 16, at + 48), [])
    ensures Trace(Collect, m, at + 56, U32_LIMIT, s, 3) == t
  {
    hide Get, Trace, Sum, ReadEntry;
    var s1, s2 := State(AtSize(at + 8), []), State(AtKind(at + 8, 40), []);
    SumIs(at + 8, 8, U32_LIMIT);
    SumIs(at + 8, 4, U32_LIMIT);
    SumIs(at + 8, 16, U32_LIMIT);
    SumIs(at + 8, 40, U32_LIMIT);
    assert Next(Collect, m, at + 56, U32_LIMIT, s) == s1;
    assert Next(Collect, m, at + 56, U32_LIMIT, s1) == s2;
    assert Next(Collect, m, at + 56, U32_LIMIT, s2) == t;
    hide Next;
    OneStep(Collect, m, at + 56, U32_LIMIT, s, 2);
    OneStep(Collect, m, at + 56, U32_LIMIT, s1, 1);
    OneStep(Collect, m, at + 56, U32_LIMIT, s2, 0);
  }
}
