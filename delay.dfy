/** The pacing delay `MessageSplitter._calc_delay`: a clamped linear map from
    a segment's text length to a pause, in exact real arithmetic. */
module Delay {

  /** `_max_len_for_delay`: the length at which the delay saturates. */
  const MaxLenForDelay: int := 150

  function Min(a: real, b: real): real { if a <= b then a else b }

  /** `_calc_delay(text_len)` for the configured bounds. */
  function CalcDelay(minDelay: real, maxDelay: real, textLen: int): real
  {
    if textLen <= 0 then 0.0
    else
      var ratio := Min(textLen as real / MaxLenForDelay as real, 1.0);
      minDelay + (maxDelay - minDelay) * ratio
  }

  /** No text, no pause. */
  lemma CalcDelayZero(minDelay: real, maxDelay: real, textLen: int)
    requires textLen <= 0
    ensures CalcDelay(minDelay, maxDelay, textLen) == 0.0
  {
  }

  /** From 150 characters on the delay is the configured maximum. */
  lemma CalcDelaySaturates(minDelay: real, maxDelay: real, textLen: int)
    requires textLen >= MaxLenForDelay
    ensures CalcDelay(minDelay, maxDelay, textLen) == maxDelay
  {
    assert textLen as real / 150.0 >= 1.0;
  }

  /** For non-empty text with ordered bounds the delay lies within them, and
      strictly above the minimum when the bounds differ. */
  lemma CalcDelayBounds(minDelay: real, maxDelay: real, textLen: int)
    requires minDelay <= maxDelay && textLen >= 1
    ensures minDelay <= CalcDelay(minDelay, maxDelay, textLen) <= maxDelay
    ensures minDelay < maxDelay ==> minDelay < CalcDelay(minDelay, maxDelay, textLen)
  {
    var ratio := Min(textLen as real / MaxLenForDelay as real, 1.0);
    var d := maxDelay - minDelay;
    assert 0.0 < ratio <= 1.0;
    MulBetween(d, ratio);
    var p := d * ratio;
    assert CalcDelay(minDelay, maxDelay, textLen) == minDelay + p;
    assert p <= d;
  }

  lemma MulBetween(d: real, r: real)
    requires d >= 0.0 && 0.0 < r <= 1.0
    ensures 0.0 <= d * r <= d
    ensures d > 0.0 ==> d * r > 0.0
  {
  }

  /** Longer text never waits less, once there is text and the bounds are ordered. */
  lemma CalcDelayMonotone(minDelay: real, maxDelay: real, a: int, b: int)
    requires minDelay <= maxDelay && 1 <= a <= b
    ensures CalcDelay(minDelay, maxDelay, a) <= CalcDelay(minDelay, maxDelay, b)
  {
    var ra := Min(a as real / MaxLenForDelay as real, 1.0);
    var rb := Min(b as real / MaxLenForDelay as real, 1.0);
    var d := maxDelay - minDelay;
    assert a as real / 150.0 <= b as real / 150.0;
    assert ra <= rb;
    MulMonotone(d, ra, rb);
    var pa := d * ra;
    var pb := d * rb;
    assert pa <= pb;
    assert CalcDelay(minDelay, maxDelay, a) == minDelay + pa;
    assert CalcDelay(minDelay, maxDelay, b) == minDelay + pb;
  }

  lemma MulMonotone(d: real, x: real, y: real)
    requires d >= 0.0 && x <= y
    ensures d * x <= d * y
  {
    assert d * y - d * x == d * (y - x);
  }
}
