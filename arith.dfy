/** Facts about integer division that the decoding proofs use. */
module Arith {
  // The first three lemmas state single nonlinear facts. Calling them,
  // rather than asserting the facts inline, keeps the solver from searching
  // the products of the surrounding proofs.

  lemma MulAtLeast(t: int, d: int)
    requires t >= 1 && d > 0
    ensures t * d >= d
  {
  }

  lemma Distrib(a: int, b: int, d: int)
    ensures (a - b) * d == a * d - b * d
  {
  }

  lemma DivMod(v: int, d: int)
    requires d > 0
    ensures (v / d) * d + v % d == v
  {
  }

  /** Quotient and remainder are determined by v == q * d + r with 0 <= r < d. */
  lemma DivUnique(v: int, d: int, q: int, r: int)
    requires d > 0 && v == q * d + r && 0 <= r < d
    ensures v / d == q && v % d == r
  {
    var q0, r0 := v / d, v % d;
    assert v == q0 * d + r0;
    Distrib(q, q0, d);
    Distrib(q0, q, d);
    if q > q0 {
      MulAtLeast(q - q0, d);
      assert false;
    } else if q < q0 {
      MulAtLeast(q0 - q, d);
      assert false;
    }
  }

  lemma DivDiv(v: nat, a: nat, b: nat)
    requires a > 0 && b > 0
    ensures v / (a * b) == (v / a) / b
  {
    var q, r := v / a, v % a;
    var q2, r2 := q / b, q % b;
    assert v == q2 * (a * b) + (r2 * a + r) by {
      assert v == q * a + r;
      assert q == q2 * b + r2;
    }
    assert r2 * a + r < a * b by {
      assert r2 <= b - 1;
      assert r2 * a <= (b - 1) * a;
    }
    DivUnique(v, a * b, q2, r2 * a + r);
  }

  /** The remainder modulo b * a splits into the digit (v / a) % b and the remainder modulo a. */
  lemma ModSplit(v: nat, a: nat, b: nat)
    requires a > 0 && b > 0
    ensures v % (b * a) == ((v / a) % b) * a + v % a
  {
    var q, r := v / a, v % a;
    var q2, r2 := q / b, q % b;
    assert v == q2 * (b * a) + (r2 * a + r) by {
      assert v == q * a + r;
      assert q == q2 * b + r2;
    }
    assert r2 * a + r < b * a by {
      assert r2 <= b - 1;
      assert r2 * a <= (b - 1) * a;
    }
    DivUnique(v, b * a, q2, r2 * a + r);
  }
}
