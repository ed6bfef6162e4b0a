/** Normalisation of a decoded sample: the division by `max_val` of
    Graph.py:19 and Graph.py:25, kept as an exact ratio. */
module Normalization {
  import opened LittleEndian
  import opened Rational

  /** `max_val = 2 ** (8 * depth - 1) - 1`. For a positive depth this is the
      largest value a `depth`-byte two's-complement integer holds; for a
      depth of 0 or less Python's power is the fraction 1/p with
      p = 2^(1 - 8 * depth), and `max_val` is (1 - p)/p. */
  function MaxVal(depth: int): (m: Ratio)
    ensures m.den >= 1
    ensures depth >= 1 ==> m.den == 1 && m.num >= 1 && 2 * (m.num + 1) == Pow2(8 * depth)
    ensures depth <= 0 ==> -m.den < m.num && 2 * m.num <= -m.den
  {
    if depth >= 1 then
      Ratio(Pow2(8 * depth - 1) - 1, 1)
    else
      var p := Pow2(1 - 8 * depth);
      Ratio(1 - p, p)
  }

  lemma InverseArith(s: int, p: int)
    ensures (-s * p) * (1 - p) == s * (p - 1) * p
  {
  }

  /** One point of the plot: `sample / max_val`. The result times `max_val`
      is the sample again. */
  function Normalize(sample: int, depth: int): (q: Ratio)
    ensures q.den >= 1
    ensures q.num * MaxVal(depth).num == sample * q.den * MaxVal(depth).den
  {
    if depth >= 1 then
      Ratio(sample, MaxVal(depth).num)
    else
      var p := MaxVal(depth).den;
      InverseArith(sample, p);
      Ratio(-sample * p, p - 1)
  }

  /** For a chunk of at most `depth` bytes the point lies in
      [-(max_val + 1)/max_val, 1], and its magnitude exceeds 1 exactly when
      the chunk is full width and holds the most negative value. */
  lemma OnlyMostNegativeExceedsOne(chunk: seq<Byte>, depth: int)
    requires 1 <= |chunk| <= depth
    ensures Normalize(Signed(chunk), depth).num <= Normalize(Signed(chunk), depth).den
    ensures Normalize(Signed(chunk), depth).num >= -(Normalize(Signed(chunk), depth).den + 1)
    ensures MagnitudeAboveOne(Normalize(Signed(chunk), depth))
        <==> |chunk| == depth && Signed(chunk) == -(MaxVal(depth).num + 1)
  {
    var k := |chunk|;
    var m := MaxVal(depth).num;
    assert Pow2(8 * depth) == 2 * Pow2(8 * depth - 1);
    assert Pow2(8 * k) == 2 * Pow2(8 * k - 1);
    if k < depth {
      Pow2Monotone(8 * k, 8 * depth - 1);
    }
  }

  /** 16-bit figures: the largest 16-bit sample is 32767 = `max_val`. The
      bytes 00 80 are the most negative sample, -32768, whose point
      -32768/32767 has magnitude above 1, and FF 3F is 16383, whose point
      is 16383/32767. */
  lemma SixteenBitExamples()
    ensures Signed([0x00, 0x80]) == -32768
    ensures Normalize(-32768, 2) == Ratio(-32768, 32767)
    ensures MagnitudeAboveOne(Normalize(-32768, 2))
    ensures Signed([0xFF, 0x3F]) == 16383
    ensures Normalize(16383, 2) == Ratio(16383, 32767)
  {
    assert Pow2(15) == 32768;
    assert Pow2(16) == 65536;
    assert [0x00, 0x80][1..] == [0x80];
    assert [0xFF, 0x3F][1..] == [0x3F];
  }

  /** The exponent at which a float overflows: the largest finite float
      is just below 2^1024. */
  const MaxExp: nat := 1024

  /** The bits of a float's significand, its leading 1 included. */
  const SignificandBits: nat := 53

  /** Converting the integer `x` to a float raises OverflowError. An int
      meets a float in `duration * rate` (a float times an int) and, for a
      depth of 0 or less where `max_val` is a float, in `sample / max_val`;
      both convert the int first. CPython rounds to nearest, ties to even,
      and raises when the rounded magnitude reaches 2^1024, that is from
      2^1024 - 2^970 up. */
  predicate ToFloatOverflows(x: int)
  {
    Abs(x) >= Pow2(MaxExp) - Pow2(MaxExp - SignificandBits - 1)
  }

  /** The largest finite value of a float format with an s-bit
      significand whose values stay below 2^e: s one bits ending at
      2^(e - s). */
  function LargestFinite(s: nat, e: nat): (m: int)
    requires s <= e
  {
    (Pow2(s) - 1) * Pow2(e - s)
  }

  /** 2^e - 2^(e - s - 1) is the point from which rounding to nearest,
      ties to even, goes up to 2^e: |x| reaches it exactly when it is at
      least the largest finite value and no nearer to it than to 2^e, a
      tie going to 2^e because the largest finite significand is odd. */
  lemma {:induction false} RoundsUpFrom(x: int, s: nat, e: nat)
    requires 1 <= s < e
    ensures Abs(x) >= Pow2(e) - Pow2(e - s - 1)
        <==> Abs(x) >= LargestFinite(s, e) && Pow2(e) - Abs(x) <= Abs(x) - LargestFinite(s, e)
  {
    var u, h := Pow2(e - s), Pow2(e - s - 1);
    Pow2Add(s, e - s);
    assert u == 2 * h;
    assert LargestFinite(s, e) == Pow2(s) * u - u;
  }

  /** A float overflows exactly when the integer rounds up past the largest
      finite float, (2^53 - 1) * 2^971. */
  lemma OverflowIsRoundingUp(x: int)
    ensures ToFloatOverflows(x)
        <==> Abs(x) >= LargestFinite(SignificandBits, MaxExp)
             && Pow2(MaxExp) - Abs(x) <= Abs(x) - LargestFinite(SignificandBits, MaxExp)
  {
    RoundsUpFrom(x, SignificandBits, MaxExp);
  }

  /** Only a sample of more than 128 bytes can overflow the conversion. */
  lemma OverflowNeedsLongSample(bs: seq<Byte>)
    ensures ToFloatOverflows(Signed(bs)) ==> |bs| > 128
  {
    if |bs| <= 128 {
      ShortSamplesFitFloat(bs);
    }
  }

  /** 2^(a+1) - 2^b exceeds 2^a when b < a. */
  lemma GapAboveHalf(a: nat, b: nat)
    requires b < a
    ensures Pow2(a + 1) - Pow2(b) > Pow2(a)
  {
    Pow2Monotone(b, a - 1);
    assert Pow2(a) == 2 * Pow2(a - 1);
  }

  /** A sample of at most 128 bytes always converts to a float. */
  lemma ShortSamplesFitFloat(bs: seq<Byte>)
    requires |bs| <= 128
    ensures !ToFloatOverflows(Signed(bs))
  {
    if |bs| >= 1 {
      var h := Pow2(8 * |bs| - 1);
      assert Abs(Signed(bs)) <= h;
      FitsFloat(Signed(bs), 8 * |bs| - 1);
    } else {
      FitsFloat(Signed(bs), 0);
    }
  }

  /** Every integer of magnitude at most 2^k, for any k up to 1023,
      converts to a float: the overflow threshold lies above 2^1023. An
      ordinary rate converts: see `ThirtyTwoBitFitsFloat`. */
  lemma FitsFloat(x: int, k: nat)
    requires k <= MaxExp - 1 && Abs(x) <= Pow2(k)
    ensures !ToFloatOverflows(x)
  {
    Pow2Monotone(k, MaxExp - 1);
    GapAboveHalf(MaxExp - 1, MaxExp - SignificandBits - 1);
  }

  /** Every integer of magnitude below 2^32, any sample rate a 32-bit
      field can hold among them, converts to a float. */
  lemma ThirtyTwoBitFitsFloat(x: int)
    requires Abs(x) < 0x1_0000_0000
    ensures !ToFloatOverflows(x)
  {
    assert Pow2(8) == 0x100;
    assert Pow2(16) == 0x1_0000;
    Pow2Add(16, 16);
    FitsFloat(x, 32);
  }

  /** `k` zero bytes. */
  function Zeros(k: nat): (z: seq<Byte>)
    ensures |z| == k && Unsigned(z) == 0
  {
    if k == 0 then [] else [0] + Zeros(k - 1)
  }

  /** A byte 01 after bytes worth 0 is worth 2^(8k). */
  lemma UnsignedOneAfterZero(z: seq<Byte>)
    requires Unsigned(z) == 0
    ensures Unsigned(z + [1]) == Pow2(8 * |z|)
  {
    UnsignedSnoc(z, 1);
  }

  /** 2^(8k) in k + 1 bytes is below the sign bit, so it decodes as itself. */
  lemma SignedOfLowPower(bs: seq<Byte>, k: nat)
    requires |bs| == k + 1 && Unsigned(bs) == Pow2(8 * k)
    ensures Signed(bs) == Pow2(8 * k)
  {
    var e := 8 * k;
    Pow2Monotone(e, e + 6);
    assert Pow2(e + 7) == 2 * Pow2(e + 6);
    assert 8 * |bs| - 1 == e + 7;
  }

  /** 128 zero bytes followed by 01 decode to 2^1024, which does not
      convert to a float: a file of 129 bytes read at a negative depth
      makes the division raise. */
  lemma HugeSampleOverflows()
    ensures Signed(Zeros(128) + [1]) == Pow2(MaxExp)
    ensures ToFloatOverflows(Signed(Zeros(128) + [1]))
  {
    UnsignedOneAfterZero(Zeros(128));
    SignedOfLowPower(Zeros(128) + [1], 128);
  }
}
