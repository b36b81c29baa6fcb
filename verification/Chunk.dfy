/** String chunks of str.h: a 10-byte identifier of the next chunk, a 2-byte size, and up to 20 characters. */
module Chunks {
  import opened Rids
  import opened BlockLayout

  const MAX_SIZE := 32       // STR_CHUNK_MAX_SIZE
  const MAX_LEN := 20        // STR_CHUNK_MAX_LEN
  const SIZE_AT := 10
  const CHARS_AT := 12

  // ----- two's complement, least significant byte first -----

  function Pow256(n: nat): nat {
    if n == 0 then 1 else 256 * Pow256(n - 1)
  }

  function Bytes(x: int, n: nat): (r: seq<byte>)
    ensures |r| == n
    decreases n
  {
    if n == 0 then [] else [x % 256] + Bytes(x / 256, n - 1)
  }

  function Unsigned(s: seq<byte>): nat {
    if s == [] then 0 else s[0] + 256 * Unsigned(s[1..])
  }

  function Signed(s: seq<byte>): int {
    if 2 * Unsigned(s) >= Pow256(|s|) then Unsigned(s) - Pow256(|s|) else Unsigned(s)
  }

  lemma ModUnique(x: int, d: int, q: int, r: int)
    requires 0 <= r < d && x == d * q + r
    ensures x % d == r
  {
    var k := x / d - q;
    assert d * k == r - x % d;
    if k != 0 {
      NonZeroMultiple(d, k);
      assert false;
    }
  }

  lemma NonZeroMultiple(d: int, k: int)
    requires d > 0 && k != 0
    ensures d * k >= d || d * k <= -d
  {
    if k > 0 {
      assert d * (k - 1) >= 0;
    } else {
      assert d * (-k - 1) >= 0;
    }
  }

  lemma ModDigit(x: int, p: int)
    requires p > 0
    ensures 0 < 256 * p && x % (256 * p) == x % 256 + 256 * (x / 256 % p)
  {
    var y, r := x / 256, x / 256 % p;
    var q := y / p;
    assert y == p * q + r;
    assert x == 256 * (p * q + r) + x % 256;
    assert 256 * (p * q) == (256 * p) * q;
    ModUnique(x, 256 * p, q, x % 256 + 256 * r);
  }

  lemma {:induction false} BytesUnsigned(x: int, n: nat)
    ensures Pow256(n) > 0 && Unsigned(Bytes(x, n)) == x % Pow256(n)
    decreases n
  {
    if n > 0 {
      BytesUnsigned(x / 256, n - 1);
      assert Bytes(x, n)[1..] == Bytes(x / 256, n - 1);
      ModDigit(x, Pow256(n - 1));
    }
  }

  /** The integers that fit in n bytes. */
  ghost predicate Fits(x: int, n: nat) {
    0 - Pow256(n) <= 2 * x < Pow256(n)
  }

  lemma BytesSigned(x: int, n: nat)
    requires Fits(x, n)
    ensures Signed(Bytes(x, n)) == x
  {
    BytesUnsigned(x, n);
    var p := Pow256(n);
    if x >= 0 {
      ModUnique(x, p, 0, x);
    } else {
      ModUnique(x, p, -1, x + p);
    }
  }

  // ----- chunks -----

  function RidBytes(r: RID): (s: seq<byte>)
    ensures |s| == SIZE_AT
  {
    Bytes(r.addr, 8) + Bytes(r.idx, 2)
  }

  /** get_str_chunk_rid */
  function RidOf(c: seq<byte>): RID
    requires |c| >= CHARS_AT
  {
    RID(Signed(c[..8]), Signed(c[8..SIZE_AT]))
  }

  /** get_str_chunk_size */
  function SizeOf(c: seq<byte>): int
    requires |c| >= CHARS_AT
  {
    Signed(c[SIZE_AT..CHARS_AT])
  }

  ghost predicate RidFits(r: RID) {
    Fits(r.addr, 8) && Fits(r.idx, 2)
  }

  /** The bytes of a chunk that holds the characters s and is followed by chunk next. */
  ghost predicate IsChunk(c: seq<byte>, next: RID, s: seq<byte>) {
    |c| == CHARS_AT + |s| && RidOf(c) == next && SizeOf(c) == |s| && c[CHARS_AT..] == s
  }

  /** What has been stored in the fields of a chunk can be read back. */
  lemma ChunkRoundTrip(c: seq<byte>, next: RID, s: seq<byte>)
    requires RidFits(next) && |s| <= MAX_LEN && c == RidBytes(next) + Bytes(|s|, 2) + s
    ensures IsChunk(c, next, s)
  {
    BytesSigned(next.addr, 8);
    BytesSigned(next.idx, 2);
    SmallFits(|s|);
    BytesSigned(|s|, 2);
    FieldSlices(c, Bytes(next.addr, 8), Bytes(next.idx, 2), Bytes(|s|, 2), s);
  }

  lemma FieldSlices(c: seq<byte>, a: seq<byte>, i: seq<byte>, z: seq<byte>, s: seq<byte>)
    requires |a| == 8 && |i| == 2 && |z| == 2 && c == a + i + z + s
    ensures |c| == CHARS_AT + |s|
    ensures c[..8] == a && c[8..SIZE_AT] == i && c[SIZE_AT..CHARS_AT] == z && c[CHARS_AT..] == s
  {
  }

  lemma SmallFits(x: int)
    requires -0x8000 <= x < 0x8000
    ensures Fits(x, 2)
  {
    assert Pow256(1) == 256;
    assert Pow256(2) == 256 * Pow256(1);
  }

  const MAX_OFF := 0x7fff_ffff_ffff_ffff

  lemma OffFits(x: int)
    requires -1 <= x <= MAX_OFF
    ensures Fits(x, 8)
  {
    assert Pow256(2) == 256 * Pow256(1) == 0x1_0000;
    assert Pow256(4) == 256 * Pow256(3) && Pow256(3) == 256 * Pow256(2);
    assert Pow256(6) == 256 * Pow256(5) && Pow256(5) == 256 * Pow256(4);
    assert Pow256(8) == 256 * Pow256(7) && Pow256(7) == 256 * Pow256(6);
  }

  function Overlaid(c: seq<byte>, o: nat, s: seq<byte>): (r: seq<byte>)
    requires o + |s| <= |c|
    ensures |r| == |c|
  {
    c[..o] + s + c[o + |s|..]
  }

  /** Stores bytes at an offset of a buffer. */
  method Store(a: array<byte>, o: nat, s: seq<byte>)
    requires o + |s| <= a.Length
    modifies a
    ensures a[..] == Overlaid(old(a[..]), o, s)
  {
    var i := 0;
    while i < |s|
      invariant 0 <= i <= |s|
      invariant a[..] == Overlaid(old(a[..]), o, s[..i])
    {
      a[o + i] := s[i];
      i := i + 1;
    }
    assert s[..i] == s;
  }

  lemma Fields(c: seq<byte>, r: seq<byte>, z: seq<byte>, s: seq<byte>, c': seq<byte>)
    requires |c| == MAX_SIZE && |r| == SIZE_AT && |z| == 2 && CHARS_AT + |s| <= MAX_SIZE
    requires c' == Overlaid(Overlaid(Overlaid(c, CHARS_AT, s), SIZE_AT, z), 0, r)
    ensures c'[..CHARS_AT + |s|] == r + z + s
  {
    var c1 := Overlaid(c, CHARS_AT, s);
    assert c1[CHARS_AT..CHARS_AT + |s|] == s;
    var c2 := Overlaid(c1, SIZE_AT, z);
    assert c2[SIZE_AT..CHARS_AT] == z && c2[CHARS_AT..CHARS_AT + |s|] == s;
    assert c'[..SIZE_AT] == r && c'[SIZE_AT..] == c2[SIZE_AT..];
  }

  /** Fills a chunk buffer with n characters from data, from position lo. */
  method FillChunk(chunk: array<byte>, data: seq<byte>, lo: nat, n: nat, next: RID)
    requires chunk.Length == MAX_SIZE && lo + n <= |data| && n <= MAX_LEN && RidFits(next)
    modifies chunk
    ensures IsChunk(chunk[..CHARS_AT + n], next, data[lo..lo + n])
  {
    ghost var c0, s := chunk[..], data[lo..lo + n];
    Store(chunk, CHARS_AT, data[lo..lo + n]);
    Store(chunk, SIZE_AT, Bytes(n, 2));
    Store(chunk, 0, RidBytes(next));
    ghost var c := chunk[..];
    Fields(c0, RidBytes(next), Bytes(n, 2), s, c);
    ChunkRoundTrip(c[..CHARS_AT + n], next, s);
    assert chunk[..CHARS_AT + n] == c[..CHARS_AT + n];
  }

  /** The bytes of a chunk, one by one: address, index and length in two's complement, least significant byte first. */
  lemma ChunkBytes(c: seq<byte>, next: RID, s: seq<byte>)
    requires IsChunk(c, next, s)
    ensures |c| == 12 + |s| && c[12..] == s
    ensures var b: seq<int> := c; |s| == b[10] + 256 * b[11] - (if b[11] >= 128 then 0x1_0000 else 0)
    ensures var b: seq<int> := c; next.idx == b[8] + 256 * b[9] - (if b[9] >= 128 then 0x1_0000 else 0)
    ensures var b: seq<int> := c;
            next.addr == b[0] + 0x100 * b[1] + 0x1_0000 * b[2] + 0x100_0000 * b[3] + 0x1_0000_0000 * b[4]
                       + 0x100_0000_0000 * b[5] + 0x1_0000_0000_0000 * b[6] + 0x100_0000_0000_0000 * b[7]
                       - (if b[7] >= 128 then 0x1_0000_0000_0000_0000 else 0)
  {
    SignedTwo(c[SIZE_AT..CHARS_AT]);
    SignedTwo(c[8..SIZE_AT]);
    SignedEight(c[..8]);
  }

  lemma UnsignedFour(s: seq<byte>)
    requires |s| >= 4
    ensures var b: seq<int> := s;
            Unsigned(s) == b[0] + 0x100 * b[1] + 0x1_0000 * b[2] + 0x100_0000 * b[3] + 0x1_0000_0000 * Unsigned(s[4..])
  {
    assert s[1..][1..] == s[2..] && s[2..][1..] == s[3..] && s[3..][1..] == s[4..];
    var b: seq<int> := s;
    assert Unsigned(s[3..]) == b[3] + 256 * Unsigned(s[4..]);
    assert Unsigned(s[2..]) == b[2] + 256 * Unsigned(s[3..]);
    assert Unsigned(s[1..]) == b[1] + 256 * Unsigned(s[2..]);
  }

  lemma SignedTwo(s: seq<byte>)
    requires |s| == 2
    ensures var b: seq<int> := s;
            Signed(s) == b[0] + 256 * b[1] - (if b[1] >= 128 then 0x1_0000 else 0)
  {
    assert s[1..] == [s[1]] && s[1..][1..] == [];
    assert Unsigned(s[1..]) == s[1];
    assert Pow256(1) == 256 && Pow256(2) == 256 * Pow256(1);
  }

  lemma SignedEight(s: seq<byte>)
    requires |s| == 8
    ensures var b: seq<int> := s;
            Signed(s) == b[0] + 0x100 * b[1] + 0x1_0000 * b[2] + 0x100_0000 * b[3] + 0x1_0000_0000 * b[4]
                       + 0x100_0000_0000 * b[5] + 0x1_0000_0000_0000 * b[6] + 0x100_0000_0000_0000 * b[7]
                       - (if b[7] >= 128 then 0x1_0000_0000_0000_0000 else 0)
  {
    UnsignedFour(s);
    UnsignedFour(s[4..]);
    assert s[4..][4..] == [];
    assert Pow256(2) == 256 * Pow256(1) == 0x1_0000;
    assert Pow256(4) == 256 * Pow256(3) && Pow256(3) == 256 * Pow256(2);
    assert Pow256(6) == 256 * Pow256(5) && Pow256(5) == 256 * Pow256(4);
    assert Pow256(8) == 256 * Pow256(7) && Pow256(7) == 256 * Pow256(6);
  }
}
