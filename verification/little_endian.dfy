/** Little-endian two's-complement integers of any byte width: the decoding
    the script applies to every chunk it reads (Python's
    `int.from_bytes(chunk, byteorder = "little", signed = True)`), together
    with the encoding it inverts. */
module LittleEndian {

  /** One byte of the input file. */
  type Byte = b: int | 0 <= b < 256

  /** 2^e. */
  function Pow2(e: nat): (r: nat)
    ensures r >= 1
  {
    if e == 0 then 1 else 2 * Pow2(e - 1)
  }

  lemma {:induction false} Pow2Add(a: nat, b: nat)
    ensures Pow2(a + b) == Pow2(a) * Pow2(b)
    decreases a
  {
    if a > 0 {
      Pow2Add(a - 1, b);
    }
  }

  lemma {:induction false} Pow2Monotone(a: nat, b: nat)
    requires a <= b
    ensures Pow2(a) <= Pow2(b)
    decreases b - a
  {
    if a < b {
      Pow2Monotone(a, b - 1);
    }
  }

  /** The weight of one more significant byte: 2^(8(k+1)) == 256 * 2^(8k). */
  lemma ByteWeightStep(k: nat)
    ensures Pow2(8 * k + 8) == 256 * Pow2(8 * k)
  {
    Pow2Add(8 * k, 8);
    assert Pow2(8) == 256;
  }

  /** Bytes read as an unsigned number, the first byte least significant. */
  function Unsigned(bs: seq<Byte>): (r: nat)
    ensures r < Pow2(8 * |bs|)
  {
    if |bs| == 0 then 0
    else
      ByteWeightStep(|bs| - 1);
      bs[0] + 256 * Unsigned(bs[1..])
  }

  /** Bytes read as a two's-complement signed number, the first byte least
      significant; no bytes at all read as 0, as in Python. */
  function Signed(bs: seq<Byte>): (r: int)
    ensures |bs| >= 1 ==> -(Pow2(8 * |bs| - 1) as int) <= r < Pow2(8 * |bs| - 1)
    ensures |bs| == 0 ==> r == 0
  {
    if |bs| == 0 then 0
    else
      var half := Pow2(8 * |bs| - 1);
      var u := Unsigned(bs);
      if u < half then u else u - 2 * half
  }

  /** The first byte is the least significant one: it is the decoded
      sample modulo 256, whatever the width and the sign. */
  lemma FirstByteLeastSignificant(bs: seq<Byte>)
    requires |bs| >= 1
    ensures Signed(bs) % 256 == bs[0]
  {
    var k := |bs|;
    ByteWeightStep(k - 1);
    assert Pow2(8 * k) == 2 * Pow2(8 * k - 1);
    var m := if Unsigned(bs) < Pow2(8 * k - 1) then Unsigned(bs[1..]) else Unsigned(bs[1..]) - Pow2(8 * (k - 1));
    assert Signed(bs) == bs[0] + 256 * m;
    LowByte(bs[0], m);
  }

  lemma LowByte(b: Byte, m: int)
    ensures (b + 256 * m) % 256 == b
  {
  }

  /** The low `k` bytes of `u`, least significant first. */
  function EncodeUnsigned(u: nat, k: nat): (bs: seq<Byte>)
    ensures |bs| == k
  {
    if k == 0 then [] else [u % 256] + EncodeUnsigned(u / 256, k - 1)
  }

  /** The `k`-byte little-endian two's-complement encoding of `x`. */
  function Encode(x: int, k: nat): (bs: seq<Byte>)
    requires k >= 1
    requires -(Pow2(8 * k - 1) as int) <= x < Pow2(8 * k - 1)
    ensures |bs| == k
  {
    EncodeUnsigned(if x < 0 then x + Pow2(8 * k) else x, k)
  }

  lemma ShiftArith(a0: int, ua: int, ub: int, w: int)
    ensures a0 + 256 * (ua + w * ub) == (a0 + 256 * ua) + (256 * w) * ub
  {
  }

  /** Appending bytes appends more significant digits:
      the value of `a + b` is `a`'s value plus `b`'s shifted past `a`. */
  lemma {:induction false} UnsignedConcat(a: seq<Byte>, b: seq<Byte>)
    ensures Unsigned(a + b) == Unsigned(a) + Pow2(8 * |a|) * Unsigned(b)
    decreases |a|
  {
    if |a| > 0 {
      assert (a + b)[1..] == a[1..] + b;
      UnsignedConcat(a[1..], b);
      ByteWeightStep(|a| - 1);
      var w := Pow2(8 * (|a| - 1));
      var ua, ub := Unsigned(a[1..]), Unsigned(b);
      assert Pow2(8 * |a|) == 256 * w;
      assert Unsigned(a) == a[0] + 256 * ua;
      assert Unsigned(a + b) == a[0] + 256 * (ua + w * ub);
      ShiftArith(a[0], ua, ub, w);
    } else {
      assert a + b == b;
    }
  }

  lemma TopByteArith(lo: int, top: int, w: int)
    requires 0 <= lo < w && 0 <= top < 256
    ensures lo + w * top < 128 * w <==> top < 128
  {
    if top >= 128 {
      assert w * top >= w * 128;
    } else {
      assert w * top <= w * 127;
    }
  }

  /** A decoded chunk is negative exactly when the top bit of its last
      (most significant) byte is set. */
  lemma SignFromLastByte(bs: seq<Byte>)
    requires |bs| >= 1
    ensures Signed(bs) < 0 <==> bs[|bs| - 1] >= 128
  {
    var k := |bs|;
    var lo := bs[..k - 1];
    var top := bs[k - 1];
    assert bs == lo + [top];
    UnsignedSnoc(lo, top);
    var w := Pow2(8 * (k - 1));
    SignBitWeight(k);
    TopByteArith(Unsigned(lo), top, w);
  }

  /** The sign bit of `k` bytes weighs 128 times the last byte's weight. */
  lemma SignBitWeight(k: nat)
    requires k >= 1
    ensures Pow2(8 * k - 1) == 128 * Pow2(8 * (k - 1))
  {
    Pow2Add(8 * (k - 1), 7);
    assert Pow2(7) == 128;
  }

  /** One more byte `top` on the most significant end weighs 2^(8|lo|). */
  lemma UnsignedSnoc(lo: seq<Byte>, top: Byte)
    ensures Unsigned(lo + [top]) == Unsigned(lo) + Pow2(8 * |lo|) * top
  {
    var one: seq<Byte> := [top];
    assert Unsigned(one) == top by {
      assert one[1..] == [];
    }
    UnsignedConcat(lo, one);
  }

  /** Decoding inverts unsigned encoding of every number that fits. */
  lemma {:induction false} UnsignedOfEncode(u: nat, k: nat)
    requires u < Pow2(8 * k)
    ensures Unsigned(EncodeUnsigned(u, k)) == u
    decreases k
  {
    if k > 0 {
      ByteWeightStep(k - 1);
      var bs := EncodeUnsigned(u, k);
      assert bs[1..] == EncodeUnsigned(u / 256, k - 1);
      UnsignedOfEncode(u / 256, k - 1);
    }
  }

  /** Encoding inverts unsigned decoding: no two byte strings of one length
      decode to the same number. */
  lemma {:induction false} EncodeOfUnsigned(bs: seq<Byte>)
    ensures EncodeUnsigned(Unsigned(bs), |bs|) == bs
    decreases |bs|
  {
    if |bs| > 0 {
      var u := Unsigned(bs);
      assert u % 256 == bs[0] && u / 256 == Unsigned(bs[1..]);
      EncodeOfUnsigned(bs[1..]);
      assert bs == [bs[0]] + bs[1..];
    }
  }

  /** Decoding a chunk inverts the `k`-byte two's-complement encoding of
      every integer in that width's range. */
  lemma SignedOfEncode(x: int, k: nat)
    requires k >= 1
    requires -(Pow2(8 * k - 1) as int) <= x < Pow2(8 * k - 1)
    ensures Signed(Encode(x, k)) == x
  {
    assert Pow2(8 * k) == 2 * Pow2(8 * k - 1);
    var u := if x < 0 then x + Pow2(8 * k) else x;
    UnsignedOfEncode(u, k);
  }

  /** Encoding at the chunk's own width gives the chunk back, so decoding
      loses nothing. */
  lemma EncodeOfSigned(bs: seq<Byte>)
    requires |bs| >= 1
    ensures Encode(Signed(bs), |bs|) == bs
  {
    assert Pow2(8 * |bs|) == 2 * Pow2(8 * |bs| - 1);
    EncodeOfUnsigned(bs);
  }
}
