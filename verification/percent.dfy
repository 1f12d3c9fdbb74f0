/** The two progress formulas of the source: JavaScript's
    `Math.round((part / whole) * 100)` and Java's integer
    `(part * 100) / whole`. */
module Percent {

  /** `part/whole` as a percentage rounded half up, taken over exact
      rationals. */
  function RoundPercent(part: nat, whole: nat): (r: nat)
    requires part <= whole && 0 < whole
    ensures r <= 100
    ensures 2 * whole * r <= 200 * part + whole < 2 * whole * (r + 1)
  {
    RoundBounds(part, whole);
    (200 * part + whole) / (2 * whole)
  }

  /** `part/whole` as a percentage rounded down. */
  function FloorPercent(part: nat, whole: nat): (r: nat)
    requires part <= whole && 0 < whole
    ensures r <= 100
    ensures whole * r <= 100 * part < whole * (r + 1)
    ensures r == 100 <==> part == whole
  {
    FloorBounds(part, whole);
    (part * 100) / whole
  }

  lemma RoundBounds(part: nat, whole: nat)
    requires part <= whole && 0 < whole
    ensures var r := (200 * part + whole) / (2 * whole);
      r <= 100 && 2 * whole * r <= 200 * part + whole < 2 * whole * (r + 1)
  {
    var r := (200 * part + whole) / (2 * whole);
    DivBounds(200 * part + whole, 2 * whole);
    MulMonotone(2 * whole, 101, r);
  }

  lemma FloorBounds(part: nat, whole: nat)
    requires part <= whole && 0 < whole
    ensures var r := (part * 100) / whole;
      && r <= 100 && whole * r <= 100 * part < whole * (r + 1)
      && (r == 100 <==> part == whole)
  {
    var r := (part * 100) / whole;
    DivBounds(part * 100, whole);
    MulMonotone(whole, 101, r);
    MulMonotone(whole, 100, r);
    MulMonotone(100, part + 1, whole);
    MulMonotone(whole, r + 1, 100);
  }

  /** Euclidean division brackets the dividend between two multiples. */
  lemma DivBounds(n: nat, d: nat)
    requires 0 < d
    ensures d * (n / d) <= n < d * (n / d + 1)
  {
    assert n == d * (n / d) + n % d;
    assert d * (n / d + 1) == d * (n / d) + d;
  }

  /** Multiplying by a natural number keeps the order of the factors. */
  lemma MulMonotone(d: nat, a: nat, b: nat)
    ensures a <= b ==> d * a <= d * b
  {
    assert d * b == d * a + d * (b - a);
  }

  /** Nothing done rounds to 0 and everything done to 100. */
  lemma RoundEnds(whole: nat)
    requires 0 < whole
    ensures RoundPercent(0, whole) == 0 && RoundPercent(whole, whole) == 100
  {
    var z := RoundPercent(0, whole);
    MulMonotone(2 * whole, 1, z);
    var h := RoundPercent(whole, whole);
    assert 2 * whole * h <= 201 * whole < 2 * whole * (h + 1);
    MulMonotone(2 * whole, h + 1, 100);
  }

  /** The floor never exceeds the rounded value and trails it by at most one. */
  lemma FloorAtMostRound(part: nat, whole: nat)
    requires part <= whole && 0 < whole
    ensures FloorPercent(part, whole) <= RoundPercent(part, whole) <= FloorPercent(part, whole) + 1
  {
    var f := FloorPercent(part, whole);
    var r := RoundPercent(part, whole);
    // 2·whole·f <= 200·part < 200·part + whole < 2·whole·(r + 1), so f < r + 1
    assert 2 * (whole * f) <= 200 * part;
    assert 2 * whole * f < 2 * whole * (r + 1);
    MulMonotone(2 * whole, r + 1, f);
    // 2·whole·r <= 200·part + whole < 2·whole·(f + 1) + whole < 2·whole·(f + 2), so r < f + 2
    assert 200 * part < 2 * (whole * (f + 1));
    assert 2 * whole * r < 2 * whole * (f + 2);
    MulMonotone(2 * whole, f + 2, r);
  }

  /** With the total fixed, more completed work never lowers the rounded percentage. */
  lemma RoundMonotone(a: nat, b: nat, whole: nat)
    requires a <= b <= whole && 0 < whole
    ensures RoundPercent(a, whole) <= RoundPercent(b, whole)
  {
    var ra := RoundPercent(a, whole);
    var rb := RoundPercent(b, whole);
    // 2·whole·ra <= 200·a + whole <= 200·b + whole < 2·whole·(rb + 1)
    MulMonotone(2 * whole, rb + 1, ra);
  }

  /** Two of three: the Java floor shows 66 where the JavaScript rounding shows 67. */
  lemma TwoOfThree()
    ensures FloorPercent(2, 3) == 66 && RoundPercent(2, 3) == 67
  {
  }

  /** Rounding reports 100 exactly when at most half a percent is missing,
      so before everything is done: 199 of 200 already shows 100. */
  lemma RoundReachesHundred(part: nat, whole: nat)
    requires part <= whole && 0 < whole
    ensures RoundPercent(part, whole) == 100 <==> 200 * part >= 199 * whole
  {
    var r := RoundPercent(part, whole);
    // 100 <= r exactly when 2·whole·100 <= 200·part + whole
    MulMonotone(2 * whole, 100, r);
    MulMonotone(2 * whole, r + 1, 100);
  }

  /** The rounded value is one above the floor exactly when the remainder
      of the Java division is at least half the total. */
  lemma RoundAboveFloor(part: nat, whole: nat)
    requires part <= whole && 0 < whole
    ensures RoundPercent(part, whole) == FloorPercent(part, whole) + 1 <==> 2 * ((part * 100) % whole) >= whole
  {
    var f := FloorPercent(part, whole);
    var r := RoundPercent(part, whole);
    var rem := (part * 100) % whole;
    FloorAtMostRound(part, whole);
    assert part * 100 == whole * f + rem;
    assert 2 * whole * (f + 1) == 2 * (whole * f) + 2 * whole;
    assert 2 * whole * f == 2 * (whole * f);
    if r == f + 1 {
      assert 2 * whole * r <= 200 * part + whole;
    } else {
      assert r == f;
      assert 200 * part + whole < 2 * whole * (r + 1);
    }
  }
}
