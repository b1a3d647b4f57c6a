// Bytes, fixed-size pages, and the little-endian integers every on-disk format uses.
module Bytes {
  type Byte = x: int | 0 <= x < 256
  type U16 = x: int | 0 <= x < 0x1_0000
  type U32 = x: int | 0 <= x < 0x1_0000_0000
  type U64 = x: int | 0 <= x < 0x1_0000_0000_0000_0000
  type I64 = x: int | -0x8000_0000_0000_0000 <= x < 0x8000_0000_0000_0000

  const MAX_U16: nat := 0xFFFF
  const MAX_U32: nat := 0xFFFF_FFFF
  const PAGE_SIZE := 4096

  type Page = s: seq<Byte> | |s| == PAGE_SIZE witness seq(PAGE_SIZE, _ => 0)

  function Zeros(n: nat): (s: seq<Byte>)
    ensures |s| == n
    ensures forall i :: 0 <= i < n ==> s[i] == 0
  {
    seq(n, _ => 0)
  }

  function Pow256(width: nat): (r: nat)
    ensures r > 0
  {
    if width == 0 then 1 else 256 * Pow256(width - 1)
  }

  // The low `width` bytes of n, least significant first.
  function Encode(n: nat, width: nat): (s: seq<Byte>)
    ensures |s| == width
  {
    if width == 0 then [] else [n % 256] + Encode(n / 256, width - 1)
  }

  function Decode(s: seq<Byte>): nat {
    if s == [] then 0 else s[0] + 256 * Decode(s[1..])
  }

  lemma {:induction false} DecodeEncode(n: nat, width: nat)
    requires n < Pow256(width)
    ensures Decode(Encode(n, width)) == n
  {
    if width > 0 {
      DecodeEncode(n / 256, width - 1);
      assert Encode(n, width)[1..] == Encode(n / 256, width - 1);
    }
  }

  lemma {:induction false} EncodeDecode(s: seq<Byte>)
    ensures Decode(s) < Pow256(|s|)
    ensures Encode(Decode(s), |s|) == s
  {
    if s != [] {
      EncodeDecode(s[1..]);
      LowByte(s[0], Decode(s[1..]));
      assert s == [s[0]] + s[1..];
    }
  }

  lemma LowByte(low: Byte, high: nat)
    ensures (low + 256 * high) % 256 == low && (low + 256 * high) / 256 == high
  {}

  lemma Widths()
    ensures Pow256(1) == 0x100
    ensures Pow256(2) == 0x1_0000
    ensures Pow256(4) == 0x1_0000_0000
    ensures Pow256(8) == 0x1_0000_0000_0000_0000
  {
    assert Pow256(2) == 256 * Pow256(1);
    assert Pow256(4) == 256 * Pow256(3) && Pow256(3) == 256 * Pow256(2);
    assert Pow256(6) == 256 * Pow256(5) && Pow256(5) == 256 * Pow256(4);
    assert Pow256(8) == 256 * Pow256(7) && Pow256(7) == 256 * Pow256(6);
  }

  // std::bit_cast between std::int64_t and std::uint64_t.
  function ToBits(k: I64): U64 {
    if k >= 0 then k else k + 0x1_0000_0000_0000_0000
  }

  function FromBits(b: U64): I64 {
    if b < 0x8000_0000_0000_0000 then b else b - 0x1_0000_0000_0000_0000
  }

  lemma BitsRoundTrip(k: I64, b: U64)
    ensures FromBits(ToBits(k)) == k
    ensures ToBits(FromBits(b)) == b
  {}

  // p with the bytes at offset.. replaced by s.
  function Splice(p: seq<Byte>, offset: nat, s: seq<Byte>): (q: seq<Byte>)
    requires offset + |s| <= |p|
    ensures |q| == |p|
    ensures q[offset..offset + |s|] == s
    ensures forall i {:trigger q[i]} :: 0 <= i < |p| && !(offset <= i < offset + |s|) ==> q[i] == p[i]
  {
    p[..offset] + s + p[offset + |s|..]
  }

  // The unsigned integer in `width` bytes at `offset`.
  function Field(p: seq<Byte>, offset: nat, width: nat): (n: nat)
    requires offset + width <= |p|
  {
    Decode(p[offset..offset + width])
  }

  function U16At(p: seq<Byte>, offset: nat): (n: U16)
    requires offset + 2 <= |p|
    ensures var low: int, high: int := p[offset], p[offset + 1]; n == low + 256 * high
  {
    TwoBytes(p[offset..offset + 2]);
    Field(p, offset, 2)
  }

  function U32At(p: seq<Byte>, offset: nat): (n: U32)
    requires offset + 4 <= |p|
    ensures n == U16At(p, offset) + 0x1_0000 * U16At(p, offset + 2)
  {
    var s := p[offset..offset + 4];
    FourBytes(s);
    assert s[..2] == p[offset..offset + 2] && s[2..] == p[offset + 2..offset + 4];
    Field(p, offset, 4)
  }

  lemma TwoBytes(s: seq<Byte>)
    requires |s| == 2
    ensures var low: int, high: int := s[0], s[1]; Decode(s) == low + 256 * high
  {
    OneByte(s);
    OneByte(s[1..]);
  }

  lemma FourBytes(s: seq<Byte>)
    requires |s| == 4
    ensures Decode(s) == Decode(s[..2]) + 0x1_0000 * Decode(s[2..])
    ensures Decode(s) < 0x1_0000_0000
  {
    var low, high := s[..2], s[2..];
    OneByte(s);
    OneByte(s[1..]);
    assert s[1..][1..] == high && low[0] == s[0] && low[1] == s[1..][0];
    TwoBytes(low);
    TwoBytes(high);
  }

  lemma OneByte(s: seq<Byte>)
    requires s != []
    ensures var low: int := s[0]; Decode(s) == low + 256 * Decode(s[1..])
    ensures |s| == 1 ==> Decode(s[1..]) == 0
  {}
}
