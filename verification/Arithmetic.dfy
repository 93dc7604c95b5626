/** Facts about products, quotients and remainders that the solver does not find by itself. */
module Arithmetic {

  lemma ExactQuotient(q: int, d: int)
    requires d != 0
    ensures q * d / d == q
  {
    var r := q * d / d;
    assert q * d == d * r + q * d % d;
    assert d * (q - r) == q * d % d;
    if q != r {
      MagnitudeAtLeast(d, q - r);
    }
  }

  lemma MagnitudeAtLeast(d: int, x: int)
    requires d != 0 && x != 0
    ensures d * x >= (if d > 0 then d else -d) || d * x < 0
  {
    if d > 0 && x > 0 {
      assert d * (x - 1) >= 0;
    } else if d < 0 && x < 0 {
      assert (-d) * (-x - 1) >= 0;
    }
  }

  lemma FloorBounds(t: int, d: int)
    requires d > 0
    ensures t / d * d <= t < t / d * d + d
  {
  }

  lemma MulAtLeast(x: int, d: int)
    requires x >= 1 && d > 0
    ensures x * d >= d
  {
    assert (x - 1) * d >= 0;
  }

  lemma FloorUnique(t: int, d: int, q: int)
    requires d > 0 && q * d <= t < q * d + d
    ensures t / d == q
  {
    FloorBounds(t, d);
    var r := t / d;
    assert (q - r) * d == q * d - r * d && (r - q) * d == r * d - q * d;
    if r < q {
      MulAtLeast(q - r, d);
    } else if r > q {
      MulAtLeast(r - q, d);
    }
  }

  lemma MultipleHasNoRemainder(q: int, d: int)
    requires d > 0
    ensures q * d % d == 0
  {
    ExactQuotient(q, d);
    assert q * d % d == q * d - d * (q * d / d);
  }

  lemma Distribute(x: int, y: int, z: int)
    ensures (x + y) * z == x * z + y * z
  {
  }
}
