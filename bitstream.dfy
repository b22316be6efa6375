/**
 * The bit stream between payload bytes and pixels. The encoder spreads each
 * byte out most-significant bit first; the decoder gathers every 8 bits back
 * into a byte with `acc = (byte) ((acc << 1) | bit)` and drops a trailing
 * group of fewer than 8 bits. A byte is held as its unsigned bit pattern
 * 0..255; where Java reads it as a signed value, `Signed` says so.
 */
module BitStream {
  import opened Raster

  /** The bit pattern of a Java `byte`, read unsigned. */
  type Byte = b: int | 0 <= b < 256

  /** The value Java sees in a `byte`: its bit pattern in two's complement. */
  function Signed(b: Byte): (v: int)
    ensures -128 <= v < 128
    ensures (v - b) % 256 == 0
  {
    if b < 128 then b else b - 256
  }

  /** The cast `(byte) v`: the low 8 bits of `v`. */
  function ByteCast(v: int): (b: Byte)
    ensures (v - b) % 256 == 0
  {
    v % 256
  }

  function Pow2(n: nat): (p: nat)
    ensures p >= 1
  {
    if n == 0 then 1 else 2 * Pow2(n - 1)
  }

  /** The powers of two at a byte's width. */
  lemma Pow2Values()
    ensures Pow2(7) == 128 && Pow2(8) == 256
  {
    assert Pow2(1) == 2 && Pow2(2) == 4 && Pow2(3) == 8 && Pow2(4) == 16;
    assert Pow2(5) == 32 && Pow2(6) == 64;
  }

  lemma {:induction false} Pow2Monotone(n: nat, m: nat)
    requires n <= m
    ensures Pow2(n) <= Pow2(m)
  {
    if n < m {
      Pow2Monotone(n, m - 1);
    }
  }

  /** Java's arithmetic shift `x >> n`: halve `n` times, rounding toward minus infinity. */
  function Shr(x: int, n: nat): (r: int)
    ensures 0 <= x ==> 0 <= r <= x
  {
    if n == 0 then x else Shr(x, n - 1) / 2
  }

  /** Bit `7 - k` of `b`: the k-th bit of `b` in most-significant-first order. */
  function BitOf(b: Byte, k: nat): Bit
    requires k < 8
  {
    Shr(b, 7 - k) % 2
  }

  /**
   * The encoder's bit selection `(textBytes[i] >> (7 - k)) & 1`: Java widens
   * the signed byte to an int, shifts it arithmetically and keeps bit 0.
   */
  function JavaBit(b: Byte, k: nat): Bit
    requires k < 8
  {
    Shr(Signed(b), 7 - k) % 2
  }

  /** Taking 256 off before a shift by `n <= 8` takes `2^(8 - n)` off after it. */
  lemma {:induction false} ShrMinus256(x: int, n: nat)
    requires n <= 8
    ensures Shr(x - 256, n) == Shr(x, n) - Pow2(8 - n)
  {
    if n == 0 {
      Pow2Values();
    } else {
      ShrMinus256(x, n - 1);
      assert Pow2(9 - n) == 2 * Pow2(8 - n);
    }
  }

  /** The sign bits never reach bit 0: Java's selection is the plain bit of the byte. */
  lemma SignedShiftBit(b: Byte, k: nat)
    requires k < 8
    ensures JavaBit(b, k) == BitOf(b, k)
  {
    if b >= 128 {
      ShrMinus256(b, 7 - k);
      assert Pow2(k + 1) == 2 * Pow2(k);
    }
  }

  /** The decoder's accumulator step on the unsigned pattern: shift in `bit`, keep 8 bits. */
  function Shift(acc: Byte, bit: Bit): Byte
  {
    (2 * acc + bit) % 256
  }

  /**
   * The decoder's step `(byte) ((currentByte << 1) | bit)`: Java shifts the
   * sign-extended int, where `<< 1` doubles and `| bit` fills the cleared
   * low bit, then keeps the low 8 bits. That is the shift of the byte.
   */
  lemma SignedAccumulateStep(acc: Byte, bit: Bit)
    ensures ByteCast(2 * Signed(acc) + bit) == Shift(acc, bit)
  {
  }

  /** The 8 bits of a byte, most significant first. */
  function ByteBits(b: Byte): (bits: seq<Bit>)
    ensures |bits| == 8
    ensures forall k :: 0 <= k < 8 ==> bits[k] == BitOf(b, k)
  {
    [BitOf(b, 0), BitOf(b, 1), BitOf(b, 2), BitOf(b, 3),
     BitOf(b, 4), BitOf(b, 5), BitOf(b, 6), BitOf(b, 7)]
  }

  /** The 8 bits are the byte's binary digits: their weighted sum is the byte. */
  lemma ByteBitsValue(b: Byte)
    ensures var bits := ByteBits(b);
      b == 128 * (bits[0] as int) + 64 * (bits[1] as int) + 32 * (bits[2] as int) + 16 * (bits[3] as int)
           + 8 * (bits[4] as int) + 4 * (bits[5] as int) + 2 * (bits[6] as int) + (bits[7] as int)
  {
    ShrByteOut(b);
  }

  /** The payload as a bit stream: each byte's bits, most significant first. */
  function Serialize(bytes: seq<Byte>): (bits: seq<Bit>)
    ensures |bits| == 8 * |bytes|
  {
    if bytes == [] then [] else ByteBits(bytes[0]) + Serialize(bytes[1..])
  }

  /** Bit `i` of the stream is bit `7 - i % 8` of byte `i / 8`. */
  lemma {:induction false} SerializeAt(bytes: seq<Byte>, i: nat)
    requires i < 8 * |bytes|
    ensures Serialize(bytes)[i] == BitOf(bytes[i / 8], i % 8)
  {
    if i >= 8 {
      SerializeAt(bytes[1..], i - 8);
      assert Serialize(bytes)[i] == Serialize(bytes[1..])[i - 8];
      assert (i - 8) / 8 == i / 8 - 1 && (i - 8) % 8 == i % 8;
    }
  }

  /** The decoder's accumulator after taking in `bits` from zero, one bit at a time. */
  function Accumulate(bits: seq<Bit>): Byte
  {
    if bits == [] then 0
    else Shift(Accumulate(bits[..|bits| - 1]), bits[|bits| - 1])
  }

  /** Shifting a byte right by 8 leaves nothing. */
  lemma ShrByteOut(b: Byte)
    ensures Shr(b, 8) == 0
  {
    assert Shr(b, 1) < 128;
    assert Shr(b, 2) < 64;
    assert Shr(b, 3) < 32;
    assert Shr(b, 4) < 16;
    assert Shr(b, 5) < 8;
    assert Shr(b, 6) < 4;
    assert Shr(b, 7) < 2;
  }

  /** Shifting back in the bit that a halving dropped restores the value. */
  lemma ShiftHalf(x: Byte)
    ensures Shift(x / 2, x % 2) == x
  {
  }

  /** After the first `j` bits of a byte, the accumulator holds the byte's top `j` bits. */
  lemma {:induction false} AccumulatePrefix(b: Byte, j: nat)
    requires j <= 8
    ensures Accumulate(ByteBits(b)[..j]) == Shr(b, 8 - j)
  {
    var s := ByteBits(b);
    if j == 0 {
      ShrByteOut(b);
    } else {
      AccumulatePrefix(b, j - 1);
      var prefix := s[..j];
      assert prefix[..j - 1] == s[..j - 1];
      var x := Shr(b, 8 - j);
      assert prefix[j - 1] == x % 2;
      assert Accumulate(s[..j - 1]) == x / 2;
      ShiftHalf(x);
    }
  }

  /** Gathering a byte's 8 bits gives the byte back. */
  lemma AccumulateByteBits(b: Byte)
    ensures Accumulate(ByteBits(b)) == b
  {
    AccumulatePrefix(b, 8);
    assert ByteBits(b)[..8] == ByteBits(b);
  }

  /** Every complete group of 8 bits becomes one byte; a shorter tail is dropped. */
  function Pack(bits: seq<Bit>): (bytes: seq<Byte>)
    ensures |bytes| == |bits| / 8
  {
    seq(|bits| / 8, j requires 0 <= j < |bits| / 8 => Accumulate(bits[8 * j .. 8 * j + 8]))
  }

  /** Packing undoes serializing, whatever bits follow the payload. */
  lemma {:induction false} PackSerialize(bytes: seq<Byte>, rest: seq<Bit>)
    ensures Pack(Serialize(bytes) + rest) == bytes + Pack(rest)
  {
    if bytes != [] {
      var tail := Serialize(bytes[1..]) + rest;
      calc {
        Pack(Serialize(bytes) + rest);
        { assert Serialize(bytes) + rest == ByteBits(bytes[0]) + tail; }
        Pack(ByteBits(bytes[0]) + tail);
        { PackByteFirst(bytes[0], tail); }
        [bytes[0]] + Pack(tail);
        { PackSerialize(bytes[1..], rest); }
        [bytes[0]] + (bytes[1..] + Pack(rest));
        { assert bytes == [bytes[0]] + bytes[1..]; }
        bytes + Pack(rest);
      }
    } else {
      assert Serialize(bytes) + rest == rest;
    }
  }

  lemma PackByteFirst(b: Byte, tail: seq<Bit>)
    ensures Pack(ByteBits(b) + tail) == [b] + Pack(tail)
  {
    var s := ByteBits(b) + tail;
    var packed, expected := Pack(s), [b] + Pack(tail);
    assert |packed| == |expected|;
    forall j | 0 <= j < |packed|
      ensures packed[j] == expected[j]
    {
      if j == 0 {
        assert s[0..8] == ByteBits(b);
        AccumulateByteBits(b);
      } else {
        assert s[8 * j .. 8 * j + 8] == tail[8 * (j - 1) .. 8 * (j - 1) + 8];
      }
    }
  }

  /** The round trip on its own: packing a serialized payload gives the payload. */
  lemma PackSerializeRoundTrip(bytes: seq<Byte>)
    ensures Pack(Serialize(bytes)) == bytes
  {
    PackSerialize(bytes, []);
    assert Serialize(bytes) + [] == Serialize(bytes);
  }

  /** Taking in one more bit shifts it into the accumulator. */
  lemma AccumulateSnoc(bits: seq<Bit>, start: nat, k: nat)
    requires start <= k < |bits|
    ensures Accumulate(bits[start..k + 1]) == Shift(Accumulate(bits[start..k]), bits[k])
  {
    assert bits[start..k + 1][..k - start] == bits[start..k];
  }

  /** The bytes packed from a prefix of the stream do not change when the prefix grows. */
  lemma PackPrefixesAgree(bits: seq<Bit>, k: nat, j: nat)
    requires k < |bits| && j < k / 8
    ensures Pack(bits[..k + 1])[j] == Pack(bits[..k])[j]
  {
    assert bits[..k + 1][8 * j .. 8 * j + 8] == bits[..k][8 * j .. 8 * j + 8];
  }

  /**
   * Packing a stream one bit longer: a new byte appears exactly when the
   * new bit completes a group of 8, and the bytes before it stay as they were.
   */
  lemma PackGrow(bits: seq<Bit>, k: nat)
    requires k < |bits|
    ensures (k + 1) % 8 != 0 ==> Pack(bits[..k + 1]) == Pack(bits[..k])
    ensures (k + 1) % 8 == 0 ==>
      Pack(bits[..k + 1]) == Pack(bits[..k]) + [Accumulate(bits[k + 1 - 8 .. k + 1])]
  {
    var before, after := Pack(bits[..k]), Pack(bits[..k + 1]);
    forall j | 0 <= j < |before|
      ensures after[j] == before[j]
    {
      PackPrefixesAgree(bits, k, j);
    }
    if (k + 1) % 8 == 0 {
      var n := |before|;
      assert |after| == n + 1;
      assert bits[..k + 1][8 * n .. 8 * n + 8] == bits[k + 1 - 8 .. k + 1];
      assert after == before + [after[n]];
    } else {
      assert |after| == |before|;
    }
  }

  /** Eight equal bits gather into 0x00 or 0xFF. */
  lemma {:induction false} AccumulateUniform(bits: seq<Bit>, b: Bit)
    requires |bits| <= 8 && forall i :: 0 <= i < |bits| ==> bits[i] == b
    ensures Accumulate(bits) == b * (Pow2(|bits|) - 1)
  {
    if bits != [] {
      var n := |bits| - 1;
      var prev := Accumulate(bits[..n]);
      AccumulateUniform(bits[..n], b);
      assert Accumulate(bits) == Shift(prev, b);
      if b == 0 {
        assert prev == 0 && Shift(prev, b) == 0;
      } else {
        Pow2Byte(n);
        assert prev == Pow2(n) - 1;
        assert |bits| == n + 1 && Pow2(n + 1) == 2 * Pow2(n);
        assert Shift(prev, b) == 2 * prev + 1 == Pow2(|bits|) - 1;
        assert b * (Pow2(|bits|) - 1) == Pow2(|bits|) - 1;
      }
    }
  }

  lemma Pow2Byte(n: nat)
    requires n < 8
    ensures Pow2(n) <= 128
  {
    Pow2Monotone(n, 7);
    Pow2Values();
  }

  /** A stream of equal bits packs into bytes that are all 0x00 or all 0xFF. */
  lemma PackUniform(bits: seq<Bit>, b: Bit)
    requires forall i :: 0 <= i < |bits| ==> bits[i] == b
    ensures forall j :: 0 <= j < |bits| / 8 ==> Pack(bits)[j] == b * 255
  {
    Pow2Values();
    forall j | 0 <= j < |bits| / 8
      ensures Pack(bits)[j] == b * 255
    {
      AccumulateUniform(bits[8 * j .. 8 * j + 8], b);
    }
  }
}
