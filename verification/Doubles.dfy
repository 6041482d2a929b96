/** The finite numbers of a C `double`, and how far the tolerance of the comparison reaches among them. */
module Doubles {

  const EPSILON: real := 0.000001
  const SIGNIFICANDS: int := 9_007_199_254_740_992  // 2 to the 53
  const LARGE: real := 8589934592.0                 // 2 to the 33

  function PowerOfTwo(n: nat): (p: int)
    ensures p >= 1
  {
    if n == 0 then 1 else 2 * PowerOfTwo(n - 1)
  }

  ghost predicate IsMultiple(x: real, m: int, n: nat) {
    -SIGNIFICANDS < m < SIGNIFICANDS && n <= 971 && x == (m * PowerOfTwo(n)) as real
  }

  ghost predicate IsFraction(x: real, m: int, n: nat) {
    -SIGNIFICANDS < m < SIGNIFICANDS && n <= 1074 && x * PowerOfTwo(n) as real == m as real
  }

  /** A finite number of the binary64 format of IEEE 754: 53 bits, and exponents from -1074 to 971. */
  ghost predicate IsDouble(x: real) {
    (exists m: int, n: nat :: IsMultiple(x, m, n)) || (exists m: int, n: nat :: IsFraction(x, m, n))
  }

  predicate IsLarge(x: real) {
    x < -LARGE || x > LARGE
  }

  /** How `json_value_equals` compares numbers. */
  predicate Near(x: real, y: real) {
    -EPSILON < x - y < EPSILON
  }

  /** Over the numbers in `r`, no two steps of less than the tolerance lead away from `x` by the tolerance. */
  ghost predicate Settled(x: real, r: real -> bool) {
    forall y, z :: r(y) && r(z) && Near(x, y) && Near(y, z) ==> Near(x, z)
  }

  lemma {:induction false} PowersMultiply(n: nat, k: nat)
    ensures PowerOfTwo(n + k) == PowerOfTwo(n) * PowerOfTwo(k)
  {
    if n > 0 {
      PowersMultiply(n - 1, k);
      assert PowerOfTwo(n + k) == 2 * (PowerOfTwo(n - 1) * PowerOfTwo(k));
    }
  }

  lemma SomePowers()
    ensures PowerOfTwo(19) == 524288 && PowerOfTwo(20) == 1048576 && PowerOfTwo(33) == 8589934592
  {
    assert PowerOfTwo(10) == 1024 && PowerOfTwo(9) == 512 && PowerOfTwo(13) == 8192;
    PowersMultiply(9, 10);
    PowersMultiply(10, 10);
    PowersMultiply(13, 20);
  }

  lemma PowersGrow(n: nat)
    ensures n >= 20 ==> PowerOfTwo(n) >= 1048576
  {
    SomePowers();
    if n > 20 { PowersMultiply(n - 20, 20); }
  }

  /** Up to 2 to the 33 every multiple of 2 to the -20 is a double. */
  lemma GridIsDouble(k: int)
    requires -SIGNIFICANDS <= k <= SIGNIFICANDS
    ensures IsDouble(k as real / 1048576.0)
  {
    var x := k as real / 1048576.0;
    SomePowers();
    if k == SIGNIFICANDS {
      assert IsMultiple(x, 1, 33);
    } else if k == -SIGNIFICANDS {
      assert IsMultiple(x, -1, 33);
    } else {
      assert IsFraction(x, k, 20);
    }
  }

  lemma FewDigits(x: real, p: int, m: int)
    requires IsLarge(x) && p >= 1 && x * p as real == m as real && -SIGNIFICANDS < m < SIGNIFICANDS
    ensures p < 1048576
  {
    var y := if x > LARGE then x else -x;
    assert y * p as real >= LARGE * p as real;
  }

  lemma Rescale(x: real, p: real, q: real, m: real, c: real)
    requires x * p == m && q * p == c
    ensures x * c == m * q
  {
    assert x * (q * p) == (x * p) * q;
  }

  lemma ProductsAgree(a: int, b: int)
    ensures (a * b) as real == a as real * b as real
  {
  }

  lemma FractionIsCoarse(x: real, m: int, n: nat)
    requires IsFraction(x, m, n) && IsLarge(x)
    ensures n <= 19 && x * 524288.0 == m as real * PowerOfTwo(19 - n) as real
  {
    hide PowerOfTwo, IsLarge;
    FewDigits(x, PowerOfTwo(n), m);
    PowersGrow(n);
    SomePowers();
    PowersMultiply(19 - n, n);
    Rescale(x, PowerOfTwo(n) as real, PowerOfTwo(19 - n) as real, m as real, 524288.0);
  }

  /** Beyond 2 to the 33 only multiples of 2 to the -19 are. */
  lemma LargeIsCoarse(x: real) returns (k: int)
    requires IsDouble(x) && IsLarge(x)
    ensures x * 524288.0 == k as real
  {
    hide PowerOfTwo, IsLarge, IsFraction;
    if m: int, n: nat :| IsMultiple(x, m, n) {
      var whole := m * PowerOfTwo(n);
      k := whole * 524288;
    } else {
      var m: int, n: nat :| IsFraction(x, m, n);
      FractionIsCoarse(x, m, n);
      var p := PowerOfTwo(19 - n);
      ProductsAgree(m, p);
      k := m * p;
    }
  }

  lemma Opposite(x: real)
    requires IsDouble(x)
    ensures IsDouble(-x)
  {
    if m: int, n: nat :| IsMultiple(x, m, n) {
      assert IsMultiple(-x, -m, n);
    } else {
      var m: int, n: nat :| IsFraction(x, m, n);
      assert IsFraction(-x, -m, n);
    }
  }

  /** A large double has no other double within the tolerance. */
  lemma LargeIsAlone(x: real, y: real)
    requires IsDouble(x) && IsDouble(y) && x > LARGE && Near(x, y)
    ensures x == y
  {
    var k := LargeIsCoarse(x);
    assert k > 4503599627370496;
    assert x >= LARGE + 1.0 / 524288.0;
    var l := LargeIsCoarse(y);
    assert -1.0 < (k - l) as real < 1.0;
  }

  /** From any other double two steps of less than the tolerance lead away. */
  lemma SmallStepsAway(x: real) returns (y: real, z: real)
    requires IsDouble(x) && 0.0 <= x <= LARGE
    ensures IsDouble(y) && IsDouble(z) && Near(x, y) && Near(y, z) && !Near(x, z)
  {
    var step := 1.0 / 1048576.0;
    var k := (x * 1048576.0).Floor;
    GridIsDouble(k);
    GridIsDouble(k - 1);
    GridIsDouble(k - 2);
    var grid := k as real / 1048576.0;
    assert grid <= x < grid + step;
    assert (k - 1) as real / 1048576.0 == grid - step && (k - 2) as real / 1048576.0 == grid - step - step;
    if Near(x, grid - step) { return grid - step, grid - step - step; }
    return grid, grid - step;
  }

  /** A double is settled among the doubles exactly when it is beyond 2 to the 33. */
  lemma SettledIffLarge(x: real)
    requires IsDouble(x)
    ensures Settled(x, IsDouble) <==> IsLarge(x)
  {
    hide IsDouble;
    Opposite(x);
    if IsLarge(x) {
      forall y | IsDouble(y) && Near(x, y) ensures x == y {
        Opposite(y);
        if x > LARGE { LargeIsAlone(x, y); } else { LargeIsAlone(-x, -y); }
      }
    } else if x >= 0.0 {
      var y, z := SmallStepsAway(x);
    } else {
      var y, z := SmallStepsAway(-x);
      Opposite(y);
      Opposite(z);
      assert Near(x, -y) && Near(-y, -z) && !Near(x, -z);
    }
  }
}
