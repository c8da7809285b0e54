/** Byte-addressed memory and the little-endian codec that x86 uses for every multi-byte
    load and store: heap headers and links, stack frames, and Multiboot2 fields. */
module Bytes {

  type byte = x: int | 0 <= x < 256

  const U32_LIMIT := 0x1_0000_0000
  const U64_LIMIT := 0x1_0000_0000_0000_0000

  /** How many values a pointer has on the i386 and on the amd64 build. */
  predicate Pointers(width: nat) {
    width == U32_LIMIT || width == U64_LIMIT
  }

  /** The number of distinct values of `n` bytes. */
  function Limit(n: nat): (r: nat)
    ensures r >= 1
  {
    if n == 0 then 1 else 256 * Limit(n - 1)
  }

  function Decode(s: seq<byte>): nat {
    if s == [] then 0 else s[0] + 256 * Decode(s[1..])
  }

  function Encode(v: nat, n: nat): (s: seq<byte>)
    ensures |s| == n
  {
    if n == 0 then [] else [v % 256] + Encode(v / 256, n - 1)
  }

  lemma {:induction false} DecodeEncode(v: nat, n: nat)
    requires v < Limit(n)
    ensures Decode(Encode(v, n)) == v
  {
    if n > 0 {
      DecodeEncode(v / 256, n - 1);
      assert Encode(v, n)[1..] == Encode(v / 256, n - 1);
    }
  }

  lemma {:induction false} EncodeDecode(s: seq<byte>)
    ensures Decode(s) < Limit(|s|)
    ensures Encode(Decode(s), |s|) == s
  {
    if s != [] {
      EncodeDecode(s[1..]);
      assert Decode(s) % 256 == s[0] && Decode(s) / 256 == Decode(s[1..]);
    }
  }

  lemma Limits()
    ensures Limit(4) == U32_LIMIT
    ensures Limit(8) == U64_LIMIT
  {
    assert Limit(1) == 256;
    assert Limit(2) == 65536;
    assert Limit(3) == 16777216;
    assert Limit(4) == U32_LIMIT;
    assert Limit(5) == 256 * U32_LIMIT;
    assert Limit(6) == 65536 * U32_LIMIT;
    assert Limit(7) == 16777216 * U32_LIMIT;
  }

  /** The `n`-byte little-endian value stored at address `a`; 0 outside memory. */
  function Get(m: seq<byte>, a: nat, n: nat): nat {
    if a + n <= |m| then Decode(m[a..a + n]) else 0
  }

  /** Memory `m` after storing `v` in the `n` bytes from address `a`; unchanged if they do not exist. */
  function Put(m: seq<byte>, a: nat, n: nat, v: nat): (r: seq<byte>)
    ensures |r| == |m|
  {
    if a + n <= |m| then m[..a] + Encode(v, n) + m[a + n..] else m
  }

  lemma GetPut(m: seq<byte>, a: nat, n: nat, v: nat)
    requires a + n <= |m| && v < Limit(n)
    ensures Get(Put(m, a, n, v), a, n) == v
  {
    DecodeEncode(v, n);
    assert Put(m, a, n, v)[a..a + n] == Encode(v, n);
  }

  /** The lowest byte comes first. */
  lemma LittleEndian(m: seq<byte>, a: nat)
    requires a + 4 <= |m|
    ensures var (b0, b1, b2, b3) := (m[a] as int, m[a + 1] as int, m[a + 2] as int, m[a + 3] as int);
      Get(m, a, 4) == b0 + 0x100 * b1 + 0x1_0000 * b2 + 0x100_0000 * b3
  {
    var s := m[a..a + 4];
    assert s[1..][1..] == s[2..] && s[2..][1..] == s[3..] && s[3..][1..] == [];
    assert Decode(s) == s[0] + 256 * Decode(s[1..]) && Decode(s[1..]) == s[1] + 256 * Decode(s[2..]);
    assert Decode(s[2..]) == s[2] + 256 * Decode(s[3..]) && Decode(s[3..]) == s[3] as int;
  }

  /** A store leaves every range that does not meet it unchanged. */
  lemma PutFrame(m: seq<byte>, a: nat, n: nat, v: nat, lo: nat, hi: nat)
    requires a + n <= |m| && lo <= hi <= |m|
    requires hi <= a || a + n <= lo
    ensures Put(m, a, n, v)[lo..hi] == m[lo..hi]
  {
  }

  lemma GetAgree(m: seq<byte>, m': seq<byte>, a: nat, n: nat, lo: nat, hi: nat)
    requires lo <= a && a + n <= hi <= |m| && |m| == |m'|
    requires m[lo..hi] == m'[lo..hi]
    ensures Get(m, a, n) == Get(m', a, n)
  {
    forall i | a <= i < a + n
      ensures m[i] == m'[i]
    {
      assert m[i] == m[lo..hi][i - lo] && m'[i] == m'[lo..hi][i - lo];
    }
    assert m[a..a + n] == m'[a..a + n];
  }

  /** The two memories agree everywhere but on [lo, hi). */
  ghost predicate SameOutside(m: seq<byte>, m': seq<byte>, lo: int, hi: int) {
    |m'| == |m| && forall x :: 0 <= x < |m| && !(lo <= x < hi) ==> m'[x] == m[x]
  }

  method Load(mem: array<byte>, a: nat, n: nat) returns (v: nat)
    requires a + n <= mem.Length
    ensures v == Get(mem[..], a, n)
    ensures v < Limit(n)
  {
    v := 0;
    var i := n;
    while i > 0
      invariant 0 <= i <= n
      invariant v == Decode(mem[a + i..a + n])
    {
      i := i - 1;
      v := mem[a + i] + 256 * v;
      assert mem[a + i..a + n][1..] == mem[a + i + 1..a + n];
    }
    assert mem[..][a..a + n] == mem[a..a + n];
    EncodeDecode(mem[a..a + n]);
  }

  method Store(mem: array<byte>, a: nat, n: nat, v: nat)
    requires a + n <= mem.Length
    modifies mem
    ensures mem[..] == Put(old(mem[..]), a, n, v)
  {
    var i, w := 0, v;
    ghost var e := Encode(v, n);
    while i < n
      invariant 0 <= i <= n && w >= 0
      invariant Encode(w, n - i) == e[i..]
      invariant mem[..] == old(mem[..a]) + e[..i] + old(mem[a + i..])
    {
      assert Encode(w, n - i) == [w % 256] + Encode(w / 256, n - i - 1);
      assert e[i] == w % 256 && e[i + 1..] == Encode(w, n - i)[1..];
      mem[a + i] := w % 256;
      w := w / 256;
      i := i + 1;
    }
    assert e[..n] == e;
  }
}
