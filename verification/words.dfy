/**
  Fixed-width integers as the target sees them: C#'s `byte`, `Int16`, `Int32`
  and `Int64`, unchecked 32-bit wrap-around, and the little-endian
  two's-complement layout `BitConverter` uses on a Windows/x86 host.
 */
module Words {

  type byte = x: int | 0 <= x < 0x100
  type Int16 = x: int | -0x8000 <= x < 0x8000
  type Int32 = x: int | -0x8000_0000 <= x < 0x8000_0000
  type Int64 = x: int | -0x8000_0000_0000_0000 <= x < 0x8000_0000_0000_0000

  /** 2^32, the modulus of unchecked `Int32` arithmetic. */
  const TwoTo32: nat := 0x1_0000_0000

  /** A freshly allocated `new byte[n]`. */
  function Zeros(n: nat): (z: seq<byte>)
    ensures |z| == n
    ensures forall k :: 0 <= k < n ==> z[k] == 0
  {
    seq(n, _ => 0)
  }

  /** 256^n, the number of distinct n-byte patterns. */
  function Pow256(n: nat): (r: nat)
    ensures r >= 1
  {
    if n == 0 then 1 else 256 * Pow256(n - 1)
  }

  /** Half the range of an n-byte integer: its signed values lie in [-Half(n), Half(n)). */
  function Half(n: nat): (h: int)
    requires n >= 1
    ensures h >= 1 && 2 * h == Pow256(n)
  {
    128 * Pow256(n - 1)
  }

  /** The result of unchecked C# `Int32` arithmetic on the mathematical value x. */
  function Wrap32(x: int): (r: Int32)
    ensures (r - x) % TwoTo32 == 0
    ensures -0x8000_0000 <= x < 0x8000_0000 ==> r == x
  {
    var u := x % TwoTo32;
    if u < 0x8000_0000 then u else u - TwoTo32
  }

  /** Wrap32 sees its argument only modulo 2^32. */
  lemma Wrap32Congruent(x: int, y: int)
    requires (x - y) % TwoTo32 == 0
    ensures Wrap32(x) == Wrap32(y)
  {
    assert x % TwoTo32 == y % TwoTo32;
  }

  /** Adding and then subtracting the same operand with wrap-around gives back an Int32. */
  lemma Wrap32AddSub(x: Int32, d: int)
    ensures Wrap32(Wrap32(x + d) - d) == x
  {
    var w := Wrap32(x + d);
    assert (w - d - x) % TwoTo32 == (w - (x + d)) % TwoTo32;
    Wrap32Congruent(w - d, x);
  }

  // ---------------------------------------------------------------------------
  // Little-endian unsigned layout
  // ---------------------------------------------------------------------------

  /** The n low-order bytes of u, least significant first. */
  function EncodeLE(u: nat, n: nat): (bs: seq<byte>)
    ensures |bs| == n
  {
    if n == 0 then [] else [u % 256] + EncodeLE(u / 256, n - 1)
  }

  /** The unsigned number whose little-endian bytes are bs. */
  function DecodeLE(bs: seq<byte>): (u: nat)
    ensures u < Pow256(|bs|)
  {
    if |bs| == 0 then 0 else bs[0] + 256 * DecodeLE(bs[1..])
  }

  /** Decoding an encoding gives back every number that fits in the width. */
  lemma {:induction false} DecodeEncode(u: nat, n: nat)
    requires u < Pow256(n)
    ensures DecodeLE(EncodeLE(u, n)) == u
  {
    if n > 0 {
      var bs := EncodeLE(u, n);
      assert bs[1..] == EncodeLE(u / 256, n - 1);
      DecodeEncode(u / 256, n - 1);
    }
  }

  /** Encoding a decoded buffer at its own length gives back the buffer. */
  lemma {:induction false} EncodeDecode(bs: seq<byte>)
    ensures EncodeLE(DecodeLE(bs), |bs|) == bs
  {
    if |bs| > 0 {
      var d := DecodeLE(bs[1..]);
      var u := bs[0] + 256 * d;
      assert u % 256 == bs[0];
      assert u / 256 == d;
      EncodeDecode(bs[1..]);
      assert EncodeLE(u, |bs|) == [bs[0]] + bs[1..];
    }
  }

  // ---------------------------------------------------------------------------
  // Two's complement
  // ---------------------------------------------------------------------------

  /** The n-byte two's-complement bit pattern of a signed value that fits in n bytes. */
  function ToUnsigned(v: int, n: nat): (u: nat)
    requires n >= 1 && -Half(n) <= v < Half(n)
    ensures u < Pow256(n)
  {
    if v >= 0 then v else v + Pow256(n)
  }

  /** The signed value an n-byte two's-complement bit pattern stands for. */
  function ToSigned(u: nat, n: nat): (v: int)
    requires n >= 1 && u < Pow256(n)
    ensures -Half(n) <= v < Half(n)
  {
    if u < Half(n) then u else u - Pow256(n)
  }

  lemma SignedUnsigned(v: int, n: nat)
    requires n >= 1 && -Half(n) <= v < Half(n)
    ensures ToSigned(ToUnsigned(v, n), n) == v
  {
  }

  lemma UnsignedSigned(u: nat, n: nat)
    requires n >= 1 && u < Pow256(n)
    ensures ToUnsigned(ToSigned(u, n), n) == u
  {
  }

  /** `BitConverter.GetBytes` for an n-byte signed integer. */
  function EncodeInt(v: int, n: nat): (bs: seq<byte>)
    requires n >= 1 && -Half(n) <= v < Half(n)
    ensures |bs| == n
  {
    EncodeLE(ToUnsigned(v, n), n)
  }

  /** `BitConverter.ToIntNN(bs, 0)`: the first n bytes of bs as a signed integer. */
  function DecodeInt(bs: seq<byte>, n: nat): (v: int)
    requires 1 <= n <= |bs|
    ensures -Half(n) <= v < Half(n)
  {
    ToSigned(DecodeLE(bs[..n]), n)
  }

  /** Every n-byte signed value survives an encode/decode round trip. */
  lemma DecodeEncodeInt(v: int, n: nat)
    requires n >= 1 && -Half(n) <= v < Half(n)
    ensures DecodeInt(EncodeInt(v, n), n) == v
  {
    var bs := EncodeInt(v, n);
    assert bs[..n] == bs;
    DecodeEncode(ToUnsigned(v, n), n);
    SignedUnsigned(v, n);
  }

  /** Every n-byte pattern survives a decode/encode round trip. */
  lemma EncodeDecodeInt(bs: seq<byte>, n: nat)
    requires 1 <= n <= |bs|
    ensures EncodeInt(DecodeInt(bs, n), n) == bs[..n]
  {
    UnsignedSigned(DecodeLE(bs[..n]), n);
    EncodeDecode(bs[..n]);
  }

  /** The all-zero pattern stands for 0. */
  lemma {:induction false} DecodeZeros(n: nat)
    ensures DecodeLE(Zeros(n)) == 0
  {
    if n > 0 {
      assert Zeros(n)[1..] == Zeros(n - 1);
      DecodeZeros(n - 1);
    }
  }

  lemma DecodeIntZeros(n: nat)
    requires n >= 1
    ensures DecodeInt(Zeros(n), n) == 0
  {
    assert Zeros(n)[..n] == Zeros(n);
    DecodeZeros(n);
  }

  // ---------------------------------------------------------------------------
  // BitConverter per width
  // ---------------------------------------------------------------------------

  lemma HalfValues()
    ensures Half(2) == 0x8000
    ensures Half(4) == 0x8000_0000
    ensures Half(8) == 0x8000_0000_0000_0000
  {
  }

  function GetBytesInt16(v: Int16): (bs: seq<byte>)
    ensures |bs| == 2
  {
    HalfValues();
    EncodeInt(v, 2)
  }

  function GetBytesInt32(v: Int32): (bs: seq<byte>)
    ensures |bs| == 4
  {
    HalfValues();
    EncodeInt(v, 4)
  }

  function GetBytesInt64(v: Int64): (bs: seq<byte>)
    ensures |bs| == 8
  {
    HalfValues();
    EncodeInt(v, 8)
  }

  function ToInt16(bs: seq<byte>): (v: Int16)
    requires |bs| >= 2
  {
    HalfValues();
    DecodeInt(bs, 2)
  }

  function ToInt32(bs: seq<byte>): (v: Int32)
    requires |bs| >= 4
  {
    HalfValues();
    DecodeInt(bs, 4)
  }

  function ToInt64(bs: seq<byte>): (v: Int64)
    requires |bs| >= 8
  {
    HalfValues();
    DecodeInt(bs, 8)
  }

  /** `BitConverter.ToInt16` inverts `BitConverter.GetBytes(Int16)`, and conversely. */
  lemma Int16Codec(v: Int16, bs: seq<byte>)
    requires |bs| == 2
    ensures ToInt16(GetBytesInt16(v)) == v
    ensures GetBytesInt16(ToInt16(bs)) == bs
  {
    HalfValues();
    DecodeEncodeInt(v, 2);
    EncodeDecodeInt(bs, 2);
    assert bs[..2] == bs;
  }

  /** `BitConverter.ToInt32` inverts `BitConverter.GetBytes(Int32)`, and conversely. */
  lemma Int32Codec(v: Int32, bs: seq<byte>)
    requires |bs| == 4
    ensures ToInt32(GetBytesInt32(v)) == v
    ensures GetBytesInt32(ToInt32(bs)) == bs
  {
    HalfValues();
    DecodeEncodeInt(v, 4);
    EncodeDecodeInt(bs, 4);
    assert bs[..4] == bs;
  }

  /** `BitConverter.ToInt64` inverts `BitConverter.GetBytes(Int64)`, and conversely. */
  lemma Int64Codec(v: Int64, bs: seq<byte>)
    requires |bs| == 8
    ensures ToInt64(GetBytesInt64(v)) == v
    ensures GetBytesInt64(ToInt64(bs)) == bs
  {
    HalfValues();
    DecodeEncodeInt(v, 8);
    EncodeDecodeInt(bs, 8);
    assert bs[..8] == bs;
  }

  /**
    A `byte` argument to `BitConverter.GetBytes` widens to `Int16` (there is no
    byte overload, and `short` is the best implicit conversion), so it yields
    the value followed by a zero high byte.
   */
  lemma ByteAsInt16(v: byte)
    ensures GetBytesInt16(v) == [v, 0]
  {
    HalfValues();
    assert EncodeLE(v, 2) == [v % 256] + EncodeLE(v / 256, 1);
    assert EncodeLE(v / 256, 1) == [0] + EncodeLE(0, 0);
  }
}
