/** Little-endian two's-complement integers, as BinaryWriter.Write(int), BinaryWriter.Write(long),
    BinaryReader.ReadInt32 and BinaryReader.ReadInt64 lay them out. */
module LittleEndian {
  import opened Primitives

  function Pow256(n: nat): (p: nat)
    ensures p > 0
  {
    if n == 0 then 1 else 256 * Pow256(n - 1)
  }

  /** The `n` low-order bytes of `u`, least significant first. */
  function ToBytes(u: nat, n: nat): (r: seq<byte>)
    ensures |r| == n
  {
    if n == 0 then [] else [(u % 256) as byte] + ToBytes(u / 256, n - 1)
  }

  /** The unsigned number whose little-endian bytes are `bs`. */
  function FromBytes(bs: seq<byte>): (u: nat)
    ensures u < Pow256(|bs|)
  {
    if bs == [] then 0
    else
      var rest := FromBytes(bs[1..]);
      assert rest <= Pow256(|bs| - 1) - 1;
      assert 256 * rest <= 256 * Pow256(|bs| - 1) - 256;
      bs[0] as nat + 256 * rest
  }

  lemma {:induction false} FromToBytes(u: nat, n: nat)
    requires u < Pow256(n)
    ensures FromBytes(ToBytes(u, n)) == u
  {
    if n > 0 {
      var bs := ToBytes(u, n);
      assert bs[1..] == ToBytes(u / 256, n - 1);
      assert u / 256 < Pow256(n - 1);
      FromToBytes(u / 256, n - 1);
    }
  }

  lemma {:induction false} ToFromBytes(bs: seq<byte>)
    ensures ToBytes(FromBytes(bs), |bs|) == bs
  {
    if bs != [] {
      var u := FromBytes(bs);
      var rest := FromBytes(bs[1..]);
      assert u == bs[0] as nat + 256 * rest;
      assert u % 256 == bs[0] as nat;
      assert u / 256 == rest;
      ToFromBytes(bs[1..]);
    }
  }

  /** `x` fits in `n` bytes of two's complement. */
  predicate SignedFits(x: int, n: nat) {
    -(Pow256(n) as int) <= 2 * x < Pow256(n)
  }

  /** Two's-complement bit pattern of `x` in `n` bytes. */
  function Unsigned(x: int, n: nat): (u: nat)
    requires SignedFits(x, n)
    ensures u < Pow256(n)
  {
    if x < 0 then x + Pow256(n) else x
  }

  lemma Pow256Widths()
    ensures Pow256(4) == 0x1_0000_0000
    ensures Pow256(8) == 0x1_0000_0000_0000_0000
  {
  }

  /** BinaryWriter.Write(int): four bytes, least significant first. */
  function EncodeInt32(x: int32): (r: seq<byte>)
    ensures |r| == 4
  {
    Pow256Widths();
    ToBytes(Unsigned(x as int, 4), 4)
  }

  /** BinaryReader.ReadInt32 applied to exactly four bytes. */
  function DecodeInt32(bs: seq<byte>): int32
    requires |bs| == 4
  {
    Pow256Widths();
    var u := FromBytes(bs);
    if u >= 0x8000_0000 then (u - 0x1_0000_0000) as int32 else u as int32
  }

  /** BinaryWriter.Write(long): eight bytes, least significant first. */
  function EncodeInt64(x: int64): (r: seq<byte>)
    ensures |r| == 8
  {
    Pow256Widths();
    ToBytes(Unsigned(x as int, 8), 8)
  }

  /** BinaryReader.ReadInt64 applied to exactly eight bytes. */
  function DecodeInt64(bs: seq<byte>): int64
    requires |bs| == 8
  {
    Pow256Widths();
    var u := FromBytes(bs);
    if u >= 0x8000_0000_0000_0000 then (u - 0x1_0000_0000_0000_0000) as int64 else u as int64
  }

  lemma Int32RoundTrip(x: int32)
    ensures DecodeInt32(EncodeInt32(x)) == x
  {
    Pow256Widths();
    FromToBytes(Unsigned(x as int, 4), 4);
  }

  lemma Int32Canonical(bs: seq<byte>)
    requires |bs| == 4
    ensures EncodeInt32(DecodeInt32(bs)) == bs
  {
    Pow256Widths();
    ToFromBytes(bs);
  }

  lemma Int64RoundTrip(x: int64)
    ensures DecodeInt64(EncodeInt64(x)) == x
  {
    Pow256Widths();
    FromToBytes(Unsigned(x as int, 8), 8);
  }

  lemma Int64Canonical(bs: seq<byte>)
    requires |bs| == 8
    ensures EncodeInt64(DecodeInt64(bs)) == bs
  {
    Pow256Widths();
    ToFromBytes(bs);
  }
}
