/** The 32-bit coding interval `[low, high]` shared by the range encoder and
    decoder: its constants, the three renormalisation cases, and the
    integer arithmetic of narrowing it to one symbol's share. */
module Interval {

  const Top: int := 0xFFFF_FFFF
  const Half: int := 0x8000_0000
  const Quarter: int := 0x4000_0000
  const ThreeQuarters: int := 0xC000_0000

  /** The largest distribution total for which every symbol of nonzero
      frequency is guaranteed a non-empty sub-interval: a settled interval
      spans more than a quarter of the 32-bit space. The source does not
      check this bound. */
  const MaxTotal: int := 0x4000_0000

  /** Both bounds are 32-bit values and the interval is not empty. */
  predicate InRange(low: int, high: int) {
    0 <= low <= high <= Top
  }

  /** The renormalisation cases, tested in this order by both coders. */
  datatype Case =
    | LowerHalf  // the interval lies below the midpoint: bit 0 is settled
    | UpperHalf  // the interval lies above the midpoint: bit 1 is settled
    | Straddle   // the interval straddles the midpoint inside the middle half
    | Settled    // the interval is wide enough: renormalisation stops

  function Classify(low: int, high: int): Case {
    if high < Half then LowerHalf
    else if low >= Half then UpperHalf
    else if Quarter <= low < Half <= high < ThreeQuarters then Straddle
    else Settled
  }

  /** What a case subtracts from `low`, `high` (and the decoder's `code`)
      before the interval is doubled. */
  function Offset(c: Case): int {
    match c
    case LowerHalf => 0
    case UpperHalf => Half
    case Straddle => Quarter
    case Settled => 0
  }

  /** The doubled lower bound after one renormalisation step. */
  function ScaleLow(low: int, c: Case): int {
    2 * (low - Offset(c))
  }

  /** The doubled upper bound after one renormalisation step: a one is shifted in. */
  function ScaleHigh(high: int, c: Case): int {
    2 * (high - Offset(c)) + 1
  }

  /** A renormalisation step keeps the interval inside 32 bits and strictly
      widens it, which is why the renormalisation loop terminates. */
  lemma ScaleStep(low: int, high: int)
    requires InRange(low, high) && Classify(low, high) != Settled
    ensures InRange(ScaleLow(low, Classify(low, high)), ScaleHigh(high, Classify(low, high)))
    ensures ScaleHigh(high, Classify(low, high)) - ScaleLow(low, Classify(low, high)) > high - low
  {
  }

  /** Renormalisation stops exactly when the interval contains the
      midpoint and reaches outside the middle half on at least one side;
      each other case names the half or middle half holding the interval. */
  lemma ClassifyCases(low: int, high: int)
    requires InRange(low, high)
    ensures Classify(low, high) == Settled <==> low < Half <= high && (low < Quarter || ThreeQuarters <= high)
    ensures Classify(low, high) == LowerHalf ==> high < Half
    ensures Classify(low, high) == UpperHalf ==> Half <= low
    ensures Classify(low, high) == Straddle ==> Quarter <= low && high < ThreeQuarters
  {
  }

  /** Once renormalisation stops, the interval straddles the midpoint and
      spans more than a quarter of the 32-bit space. */
  lemma SettledIsWide(low: int, high: int)
    requires InRange(low, high) && Classify(low, high) == Settled
    ensures low < Half <= high
    ensures high - low >= Quarter + 1
  {
  }

  /** Narrowing to `[c, c2)` out of `total` stays inside the old interval. */
  lemma NarrowWithin(range: int, c: int, c2: int, total: int)
    requires range > 0 && total > 0 && 0 <= c <= c2 <= total
    ensures 0 <= range * c / total <= range * c2 / total <= range
  {
    var a, b, m := range * c, range * c2, range * total;
    MulLe(range, 0, c);
    MulLe(range, c, c2);
    MulLe(range, c2, total);
    DivLe(0, a, total);
    DivLe(a, b, total);
    DivLe(b, m, total);
    MulComm(range, total);
    DivUnique(m, total, range);
  }

  /** A symbol of frequency at least one gets at least one point of an
      interval that is at least as wide as the total. */
  lemma NarrowNonEmpty(range: int, c: int, f: int, total: int)
    requires 0 < total <= range && 0 <= c && 1 <= f
    ensures range * (c + f) / total >= range * c / total + 1
  {
    var a := range * c;
    assert range * (c + f) == a + range * f;
    MulLe(range, 1, f);
    DivLe(a + total, range * (c + f), total);
    DivFloor(a, total);
    DivUnique(a + total, total, a / total + 1);
  }

  /** The decoder's scaled value of a code inside a range lies in `[0, total)`. */
  lemma ScaledValueInRange(x: int, range: int, total: int)
    requires 0 <= x < range && total > 0
    ensures 0 <= ((x + 1) * total - 1) / range < total
  {
    var v := (x + 1) * total - 1;
    MulComm(x + 1, total);
    MulComm(range, total);
    MulLe(total, 1, x + 1);
    MulLe(total, x + 1, range);
    DivLe(0, v, range);
    DivBelow(v, range, total);
  }

  /** Decoding direction: the symbol found for the scaled value owns a
      sub-interval that holds the code, so the code stays inside the
      narrowed interval. `x` is `code - low`. */
  lemma CodeInsideOwner(x: int, range: int, total: int, c: int, c2: int)
    requires 0 <= x < range && total > 0 && 0 <= c && 0 <= c2
    requires c <= ((x + 1) * total - 1) / range < c2
    ensures range * c / total <= x <= range * c2 / total - 1
  {
    var v := ((x + 1) * total - 1) / range;
    // c * range <= v * range <= (x + 1) * total - 1 < (x + 1) * total
    MulLe(range, c, v);
    DivFloor((x + 1) * total - 1, range);
    DivBelow(range * c, total, x + 1);
    // (x + 1) * total - 1 < (v + 1) * range <= c2 * range
    MulLe(range, v + 1, c2);
    DivAtLeast((x + 1) * total, range * c2, total, x + 1);
  }

  /** Encoding direction: a code inside the sub-interval of `[c, c2)` yields
      a scaled value in `[c, c2)`. */
  lemma OwnerOfCode(x: int, range: int, total: int, c: int, c2: int)
    requires 0 <= x < range && total > 0 && 0 <= c <= c2
    requires range * c / total <= x <= range * c2 / total - 1
    ensures c <= ((x + 1) * total - 1) / range < c2
  {
    var t1 := total * (x + 1);
    MulComm(x + 1, total);
    var scaled := t1 - 1;
    // range * c < total * (q + 1) <= total * (x + 1), so range * c <= scaled
    var a := range * c;
    var q := a / total;
    DivFloor(a, total);
    MulLe(total, q + 1, x + 1);
    MulDistrib(total, q);
    DivLe(a, scaled, range);
    DivUnique(a, range, c);
    // total * (x + 1) <= total * q2 <= range * c2, so scaled < range * c2
    var b := range * c2;
    var q2 := b / total;
    DivFloor(b, total);
    MulLe(total, x + 1, q2);
    DivBelow(scaled, range, c2);
  }

  // Small facts about multiplication and division by a positive number.

  lemma MulDistrib(d: int, q: int)
    ensures d * (q + 1) == d * q + d
  {
  }

  lemma MulComm(a: int, b: int)
    ensures a * b == b * a
  {
  }

  lemma MulLe(k: int, a: int, b: int)
    requires k >= 0 && a <= b
    ensures k * a <= k * b
  {
    assert k * b - k * a == k * (b - a);
  }

  lemma DivLe(a: int, b: int, d: int)
    requires d > 0 && a <= b
    ensures a / d <= b / d
  {
    DivFloor(a, d);
    DivFloor(b, d);
    if a / d > b / d {
      MulLe(d, b / d + 1, a / d);
    }
  }

  lemma DivUnique(a: int, d: int, q: int)
    requires d > 0 && d * q <= a < d * q + d
    ensures a / d == q
  {
    DivFloor(a, d);
    if a / d < q {
      MulLe(d, a / d + 1, q);
    } else if a / d > q {
      MulLe(d, q + 1, a / d);
    }
  }

  lemma DivFloor(a: int, d: int)
    requires d > 0
    ensures d * (a / d) <= a < d * (a / d) + d
  {
  }

  /** `a < d * q` means `a / d < q`. */
  lemma DivBelow(a: int, d: int, q: int)
    requires d > 0 && a < d * q
    ensures a / d < q
  {
    DivFloor(a, d);
    if a / d >= q {
      MulLe(d, q, a / d);
    }
  }

  /** `d * q <= b` means `q <= b / d`. */
  lemma DivAtLeast(a: int, b: int, d: int, q: int)
    requires d > 0 && a == d * q && a <= b
    ensures q <= b / d
  {
    DivFloor(b, d);
    if b / d < q {
      MulLe(d, b / d + 1, q);
    }
  }
}
