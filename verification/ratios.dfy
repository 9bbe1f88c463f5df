/** Percentages computed with real division, restated as integer comparisons. */
module Ratios {

  /** Multiplying by a positive factor keeps a strict comparison. */
  lemma ScaleLess(a: real, b: real, l: real)
    requires l > 0.0
    ensures a < b <==> a * l < b * l
  {
    if a < b {
      assert (b - a) * l > 0.0;
    } else {
      assert (a - b) * l >= 0.0;
    }
  }

  /** `(x / l) * 100 < t` is `100 * x < t * l` for a positive `l`. */
  lemma PctBelow(x: real, l: real, t: real)
    requires l > 0.0
    ensures (x / l) * 100.0 < t <==> 100.0 * x < t * l
  {
    var p := x / l;
    assert p * l == x;
    assert (p * 100.0) * l == 100.0 * (p * l);
    ScaleLess(p * 100.0, t, l);
  }
}
