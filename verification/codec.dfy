/** Little-endian integer and bit-packing codecs for the 4000-byte block payloads.

    The container stores every multi-byte integer as a little-endian 32-bit word and
    every bitmap as bytes whose bits are read least-significant first. The functions
    here are the only place where bytes and structured values meet; the rest of the
    model works on structured payloads and uses these to reinterpret a block the way
    a C pointer cast does.
 */
module Codec {

  type byte = x: int | 0 <= x < 256

  const TWO8: int := 0x100
  const TWO16: int := 0x1_0000
  const TWO24: int := 0x100_0000
  const TWO31: int := 0x8000_0000
  const TWO32: int := 0x1_0000_0000

  /** The values an `int32_t` can hold. */
  predicate IsI32(x: int) {
    -TWO31 <= x < TWO31
  }

  /** The values a `uint32_t` can hold. */
  predicate IsU32(x: int) {
    0 <= x < TWO32
  }

  /** Two's complement truncation to 32 bits, as a store into a `uint32_t` does. */
  function Wrap32(x: int): (u: int)
    ensures IsU32(u)
    ensures IsU32(x) ==> u == x
    ensures (u - x) % TWO32 == 0
  {
    x % TWO32
  }

  /** The four little-endian bytes of `x` truncated to 32 bits. */
  function U32Bytes(x: int): (bs: seq<byte>)
    ensures |bs| == 4
  {
    var u := x % TWO32;
    [u % TWO8, (u / TWO8) % TWO8, (u / TWO16) % TWO8, u / TWO24]
  }

  /** The unsigned value of four little-endian bytes. */
  function U32Of(bs: seq<byte>): (u: int)
    requires |bs| == 4
    ensures IsU32(u)
  {
    bs[0] + TWO8 * bs[1] + TWO16 * bs[2] + TWO24 * bs[3]
  }

  /** The signed value of four little-endian bytes. */
  function I32Of(bs: seq<byte>): (x: int)
    requires |bs| == 4
    ensures IsI32(x)
    ensures (x - U32Of(bs)) % TWO32 == 0
  {
    var u := U32Of(bs);
    if u >= TWO31 then u - TWO32 else u
  }

  lemma DivModDigits(u: int)
    requires IsU32(u)
    ensures u == u % TWO8 + TWO8 * ((u / TWO8) % TWO8) + TWO16 * ((u / TWO16) % TWO8) + TWO24 * (u / TWO24)
    ensures u / TWO24 < TWO8
  {
    var a := u / TWO8;
    var b := a / TWO8;
    var c := b / TWO8;
    assert u == TWO8 * a + u % TWO8;
    assert a == TWO8 * b + a % TWO8;
    assert b == TWO8 * c + b % TWO8;
    assert b == u / TWO16;
    assert c == u / TWO24;
  }

  lemma U32RoundTrip(x: int)
    requires IsU32(x)
    ensures U32Of(U32Bytes(x)) == x
  {
    DivModDigits(x);
    assert x % TWO32 == x;
    var bs := U32Bytes(x);
    assert bs[0] == x % TWO8 && bs[1] == (x / TWO8) % TWO8;
    assert bs[2] == (x / TWO16) % TWO8 && bs[3] == x / TWO24;
  }

  /** Decoding then re-encoding four bytes gives them back. */
  lemma U32BytesOfU32(bs: seq<byte>)
    requires |bs| == 4
    ensures U32Bytes(U32Of(bs)) == bs
  {
    var u := U32Of(bs);
    var h2 := bs[2] + TWO8 * bs[3];
    var h1 := bs[1] + TWO8 * h2;
    assert u == bs[0] + TWO8 * h1;
    assert u % TWO32 == u;
    Digit(u, bs[0], h1);
    Digit(h1, bs[1], h2);
    Digit(h2, bs[2], bs[3]);
    assert u / TWO16 == h2 && u / TWO24 == bs[3];
  }

  /** The last base-256 digit of lo + 256 * hi is lo. */
  lemma Digit(u: int, lo: int, hi: int)
    requires 0 <= lo < TWO8 && 0 <= hi && u == lo + TWO8 * hi
    ensures u % TWO8 == lo && u / TWO8 == hi
  {
  }

  /** An int32 written as four bytes reads back unchanged. */
  lemma I32RoundTrip(x: int)
    requires IsI32(x)
    ensures I32Of(U32Bytes(x)) == x
  {
    var u := x % TWO32;
    if x >= 0 {
      assert u == x;
    } else {
      assert u == x + TWO32;
    }
    assert u % TWO32 == u;
    U32RoundTrip(u);
    assert U32Bytes(x) == U32Bytes(u);
    assert U32Of(U32Bytes(x)) == u;
  }

  lemma U32BytesCongruent(x: int, y: int)
    requires (x - y) % TWO32 == 0
    ensures U32Bytes(x) == U32Bytes(y)
  {
    assert x % TWO32 == y % TWO32;
  }

  /** Four bytes read as an int32 and written back are unchanged. */
  lemma U32BytesOfI32(bs: seq<byte>)
    requires |bs| == 4
    ensures U32Bytes(I32Of(bs)) == bs
  {
    U32BytesCongruent(I32Of(bs), U32Of(bs));
    U32BytesOfU32(bs);
  }

  // ---------------------------------------------------------------------------
  // Arrays of 32-bit words

  lemma QuarterIndex(i: int, j: int)
    requires 0 <= j < 4
    ensures (4 * i + j) / 4 == i
    ensures (4 * i + j) % 4 == j
  {
  }

  /** An array of int32 values laid out as consecutive little-endian words. */
  function EncodeWords(ws: seq<int>): (bs: seq<byte>)
    ensures |bs| == 4 * |ws|
  {
    seq(4 * |ws|, k requires 0 <= k < 4 * |ws| => U32Bytes(ws[k / 4])[k % 4])
  }

  /** The int32 array held by a byte string whose length is a multiple of four. */
  function DecodeWords(bs: seq<byte>): (ws: seq<int>)
    requires |bs| % 4 == 0
    ensures |ws| == |bs| / 4
    ensures forall i :: 0 <= i < |ws| ==> IsI32(ws[i])
  {
    seq(|bs| / 4, i requires 0 <= i < |bs| / 4 => I32Of(bs[4 * i .. 4 * i + 4]))
  }

  lemma EncodeWordsSlice(ws: seq<int>, i: int)
    requires 0 <= i < |ws|
    ensures EncodeWords(ws)[4 * i .. 4 * i + 4] == U32Bytes(ws[i])
  {
    var bs := EncodeWords(ws);
    forall j | 0 <= j < 4
      ensures bs[4 * i .. 4 * i + 4][j] == U32Bytes(ws[i])[j]
    {
      QuarterIndex(i, j);
    }
  }

  /** A word array written out and read back is unchanged. */
  lemma {:induction false} WordsRoundTrip(ws: seq<int>)
    requires forall i :: 0 <= i < |ws| ==> IsI32(ws[i])
    ensures DecodeWords(EncodeWords(ws)) == ws
  {
    var back := DecodeWords(EncodeWords(ws));
    forall i | 0 <= i < |ws|
      ensures back[i] == ws[i]
    {
      EncodeWordsSlice(ws, i);
      I32RoundTrip(ws[i]);
    }
  }

  /** Bytes read as words and written back are unchanged. */
  lemma {:induction false} BytesRoundTripThroughWords(bs: seq<byte>)
    requires |bs| % 4 == 0
    ensures EncodeWords(DecodeWords(bs)) == bs
  {
    var ws := DecodeWords(bs);
    var back := EncodeWords(ws);
    forall k | 0 <= k < |bs|
      ensures back[k] == bs[k]
    {
      var i := k / 4;
      var j := k % 4;
      assert k == 4 * i + j;
      U32BytesOfI32(bs[4 * i .. 4 * i + 4]);
    }
  }

  // ---------------------------------------------------------------------------
  // Bits packed least-significant first

  /** 2 to the power n. */
  function Pow2(n: nat): nat
  {
    if n == 0 then 1 else 2 * Pow2(n - 1)
  }

  /** Bit `t` of `x`: `(x >> t) & 1`. */
  function BitOf(x: nat, t: nat): bool
  {
    if t == 0 then x % 2 == 1 else BitOf(x / 2, t - 1)
  }

  /** The byte whose bit t is bits[t]. */
  function ByteOfBits(bits: seq<bool>): (x: nat)
    ensures x < Pow2(|bits|)
  {
    if |bits| == 0 then 0 else (if bits[0] then 1 else 0) + 2 * ByteOfBits(bits[1..])
  }

  /** The bits of a value, least significant first. */
  function BitsOfByte(x: nat, n: nat): (bits: seq<bool>)
    ensures |bits| == n
  {
    if n == 0 then [] else [x % 2 == 1] + BitsOfByte(x / 2, n - 1)
  }

  lemma {:induction false} BitOfByteOfBits(bits: seq<bool>, t: nat)
    requires t < |bits|
    ensures BitOf(ByteOfBits(bits), t) == bits[t]
  {
    var rest := ByteOfBits(bits[1..]);
    var low := if bits[0] then 1 else 0;
    assert ByteOfBits(bits) == low + 2 * rest;
    Halve(low, rest);
    if t > 0 {
      BitOfByteOfBits(bits[1..], t - 1);
    }
  }

  /** Halving a bit plus twice a number gives the number back and leaves the bit. */
  lemma Halve(low: nat, rest: nat)
    requires low < 2
    ensures (low + 2 * rest) / 2 == rest && (low + 2 * rest) % 2 == low
  {
  }

  lemma {:induction false} ByteOfBitsOfByte(x: nat, n: nat)
    requires x < Pow2(n)
    ensures ByteOfBits(BitsOfByte(x, n)) == x
  {
    if n > 0 {
      var bits := BitsOfByte(x, n);
      assert bits[1..] == BitsOfByte(x / 2, n - 1);
      ByteOfBitsOfByte(x / 2, n - 1);
    }
  }

  lemma {:induction false} BitsOfByteIndex(x: nat, n: nat, t: nat)
    requires t < n
    ensures BitsOfByte(x, n)[t] == BitOf(x, t)
  {
    if t > 0 {
      BitsOfByteIndex(x / 2, n - 1, t - 1);
    }
  }

  lemma Pow2Eight()
    ensures Pow2(8) == 256
  {
  }

  /** `bits` packed eight to a byte, bit k in bit k % 8 of byte k / 8. */
  function PackBits(bits: seq<bool>): (bs: seq<byte>)
    requires |bits| % 8 == 0
    ensures |bs| == |bits| / 8
  {
    Pow2Eight();
    seq(|bits| / 8, j requires 0 <= j < |bits| / 8 => ByteOfBits(bits[8 * j .. 8 * j + 8]) as byte)
  }

  /** Bit k of a byte string: bit k % 8 of byte k / 8. */
  function UnpackBits(bs: seq<byte>): (bits: seq<bool>)
    ensures |bits| == 8 * |bs|
  {
    seq(8 * |bs|, k requires 0 <= k < 8 * |bs| => BitOf(bs[k / 8], k % 8))
  }

  lemma EighthIndex(j: int, t: int)
    requires 0 <= t < 8
    ensures (8 * j + t) / 8 == j
    ensures (8 * j + t) % 8 == t
  {
  }

  /** The byte-level address of a bit: bit k of a packed bitmap is bit k % 8 of byte k / 8. */
  lemma PackedBitAddress(bits: seq<bool>, k: int)
    requires |bits| % 8 == 0
    requires 0 <= k < |bits|
    ensures BitOf(PackBits(bits)[k / 8], k % 8) == bits[k]
  {
    EighthSplit(k, |bits|);
    PackedBit(bits, k / 8, k % 8);
  }

  lemma EighthSplit(k: int, n: int)
    requires n % 8 == 0 && 0 <= k < n
    ensures 0 <= k % 8 < 8 && k == 8 * (k / 8) + k % 8
    ensures 0 <= k / 8 && 8 * (k / 8) + 8 <= n
  {
    var j, m := k / 8, n / 8;
    assert n == 8 * m;
    assert 8 * j <= k < 8 * m;
    assert j < m;
  }

  /** Bit t of packed byte j is bit 8 * j + t of the bitmap. */
  lemma PackedBit(bits: seq<bool>, j: int, t: int)
    requires |bits| % 8 == 0 && 0 <= j && 8 * j + 8 <= |bits| && 0 <= t < 8
    ensures j < |PackBits(bits)| && BitOf(PackBits(bits)[j], t) == bits[8 * j + t]
  {
    var w := bits[8 * j .. 8 * j + 8];
    assert PackBits(bits)[j] == ByteOfBits(w);
    assert w[t] == bits[8 * j + t];
    BitOfByteOfBits(w, t);
  }

  /** A bitmap packed into bytes and read back bit by bit is unchanged. */
  lemma {:induction false} BitsRoundTrip(bits: seq<bool>)
    requires |bits| % 8 == 0
    ensures UnpackBits(PackBits(bits)) == bits
  {
    var back := UnpackBits(PackBits(bits));
    forall k | 0 <= k < |bits|
      ensures back[k] == bits[k]
    {
      PackedBitAddress(bits, k);
    }
  }

  /** Bytes read as bits and packed again are unchanged. */
  lemma {:induction false} BytesRoundTripThroughBits(bs: seq<byte>)
    ensures PackBits(UnpackBits(bs)) == bs
  {
    var back := PackBits(UnpackBits(bs));
    forall j | 0 <= j < |bs|
      ensures back[j] == bs[j]
    {
      UnpackedByte(bs, j);
    }
  }

  /** Byte j of a byte string survives unpacking to bits and packing back. */
  lemma UnpackedByte(bs: seq<byte>, j: int)
    requires 0 <= j < |bs|
    ensures PackBits(UnpackBits(bs))[j] == bs[j]
  {
    var bits := UnpackBits(bs);
    var eight := bits[8 * j .. 8 * j + 8];
    forall t | 0 <= t < 8
      ensures eight[t] == BitsOfByte(bs[j], 8)[t]
    {
      EighthIndex(j, t);
      BitsOfByteIndex(bs[j], 8, t);
    }
    assert eight == BitsOfByte(bs[j], 8);
    assert PackBits(bits)[j] == ByteOfBits(eight) as byte;
    Pow2Eight();
    ByteOfBitsOfByte(bs[j], 8);
  }
}
