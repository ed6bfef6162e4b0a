/** The x-axis ticks of Graph.py:37-39: one tick per whole second of
    samples, at multiples of the rate, labelled 0, 1, 2, ... */
module Axis {
  import opened Wrappers

  /** A tick at sample index `position` labelled with the whole second `second`. */
  datatype Tick = Tick(position: int, second: int)

  /** Python's `a // b`: the quotient rounded toward negative infinity
      (Dafny's own `/` rounds so that the remainder is never negative). */
  function FloorDiv(a: int, b: int): (q: int)
    requires b != 0
    ensures b > 0 ==> b * q <= a < b * q + b
    ensures b < 0 ==> b * q >= a > b * q + b
  {
    if b > 0 then
      a / b
    else
      var c, q := -b, (-a) / (-b);
      assert c * q <= -a < c * q + c;
      assert b * q == -(c * q);
      q
  }

  /** The ticks for `count` points at `rate` samples per second:
      `range(count // rate)` positioned at multiples of `rate`; `None` when
      the rate is 0 and `//` raises ZeroDivisionError. */
  function Ticks(count: nat, rate: int): (ticks: Option<seq<Tick>>)
    ensures ticks.None? <==> rate == 0
    ensures rate > 0 ==> |ticks.value| * rate <= count < (|ticks.value| + 1) * rate
    ensures rate < 0 ==> ticks.value == []
  {
    if rate == 0 then None
    else
      var seconds := FloorDiv(count, rate);
      var n := if seconds > 0 then seconds else 0;
      Some(seq(n, i => Tick(i * rate, i)))
  }

  lemma MulStrict(i: int, j: int, r: int)
    requires i < j && r >= 1
    ensures i * r < j * r
  {
    assert j * r - i * r == (j - i) * r;
  }

  /** For a positive rate, tick i sits at i * rate and is labelled i; the
      positions grow strictly and every one of them indexes a point. */
  lemma TicksAreWholeSeconds(count: nat, rate: int)
    requires rate >= 1
    ensures forall i :: 0 <= i < |Ticks(count, rate).value| ==>
      Ticks(count, rate).value[i].second == i && Ticks(count, rate).value[i].position == i * rate
    ensures forall i, j :: 0 <= i < j < |Ticks(count, rate).value| ==>
      Ticks(count, rate).value[i].position < Ticks(count, rate).value[j].position
    ensures forall i :: 0 <= i < |Ticks(count, rate).value| ==>
      0 <= Ticks(count, rate).value[i].position < count
  {
    var t := Ticks(count, rate).value;
    forall i, j | 0 <= i < j < |t|
      ensures t[i].position < t[j].position
    {
      MulStrict(i, j, rate);
    }
    forall i | 0 <= i < |t|
      ensures 0 <= t[i].position < count
    {
      MulStrict(i, |t|, rate);
    }
  }
}
