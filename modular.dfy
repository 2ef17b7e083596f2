/** Residues modulo m (Dafny's `%` is Euclidean) and the facts about them the model needs. */
module Modular {

  /** The additive inverse of x modulo m, in canonical form. */
  function Neg(m: int, x: int): (n: int)
    requires m > 1
    ensures 0 <= n < m && (n + x) % m == 0
  {
    NegMod(x, m);
    (-x) % m
  }

  /** The canonical representative of x modulo m. */
  function Reduce(m: int, x: int): (c: int)
    requires m > 1
    ensures 0 <= c < m && (c - x) % m == 0
  {
    ReduceCongruent(x, m);
    x % m
  }

  /** Any representation `q * r + m` with `0 <= m < r` is the Euclidean one. */
  lemma UniqueRemainder(z: int, q: int, m: int, r: int)
    requires r > 0 && 0 <= m < r && z == q * r + m
    ensures z % r == m && z / r == q
  {
    var d := z / r - q;
    assert z == r * (z / r) + z % r;
    assert z % r == m - r * d;
  }

  /** Two canonical representatives of the same residue are equal. */
  lemma CanonicalUnique(a: int, b: int, r: int)
    requires r > 0 && 0 <= a < r && 0 <= b < r && (a - b) % r == 0
    ensures a == b
  {
    var d := a - b;
    if d < 0 {
      UniqueRemainder(d, -1, d + r, r);
    } else {
      UniqueRemainder(d, 0, d, r);
    }
  }

  /** Adding a multiple of the modulus does not change the remainder. */
  lemma AddMultiple(y: int, k: int, r: int)
    requires r > 0
    ensures (y + k * r) % r == y % r
  {
    var q := y / r;
    assert y == r * q + y % r;
    assert y + k * r == (q + k) * r + y % r;
    UniqueRemainder(y + k * r, q + k, y % r, r);
  }

  /** Congruence as divisibility of the difference. */
  lemma CongruentIff(a: int, b: int, r: int)
    requires r > 0
    ensures a % r == b % r <==> (a - b) % r == 0
  {
    var qa, ma, qb, mb := a / r, a % r, b / r, b % r;
    assert a == r * qa + ma;
    assert b == r * qb + mb;
    var e := ma - mb;
    assert a - b == e + (qa - qb) * r;
    AddMultiple(e, qa - qb, r);
    if e < 0 {
      UniqueRemainder(e, -1, e + r, r);
    } else {
      UniqueRemainder(e, 0, e, r);
    }
  }

  /** Reducing one summand first does not change the remainder of a sum. */
  lemma AddMod(a: int, b: int, r: int)
    requires r > 0
    ensures (a % r + b) % r == (a + b) % r
  {
    assert a == r * (a / r) + a % r;
    AddMultiple(a % r + b, a / r, r);
  }

  /** The residue of a negated value is the negated residue. */
  lemma NegMod(a: int, r: int)
    requires r > 0
    ensures ((-a) % r + a) % r == 0
  {
    AddMod(-a, a, r);
  }

  /** A value and its residue differ by a multiple of the modulus. */
  lemma ReduceCongruent(x: int, r: int)
    requires r > 0
    ensures (x % r - x) % r == 0
  {
    var q, m := x / r, x % r;
    assert x == r * q + m;
    assert m - x == 0 + (-q) * r;
    AddMultiple(0, -q, r);
  }

  /** Reducing one factor first does not change the remainder of a product. */
  lemma MulMod(a: int, c: int, r: int)
    requires r > 0
    ensures ((a % r) * c) % r == (a * c) % r
  {
    var q, m := a / r, a % r;
    assert a == q * r + m;
    assert a * c == m * c + (q * c) * r by {
      assert a * c == (q * r + m) * c;
    }
    AddMultiple(m * c, q * c, r);
  }

  /** A multiple of a multiple of the modulus is one. */
  lemma MultipleScaled(x: int, c: int, r: int)
    requires r > 0 && x % r == 0
    ensures (c * x) % r == 0
  {
    assert x == (x / r) * r;
    assert c * x == 0 + (c * (x / r)) * r;
    AddMultiple(0, c * (x / r), r);
  }

  /** Adding a multiple of the modulus preserves divisibility in both directions. */
  lemma ZeroPlus(x: int, y: int, r: int)
    requires r > 0 && x % r == 0
    ensures (x + y) % r == y % r
  {
    assert x == (x / r) * r;
    AddMultiple(y, x / r, r);
  }
}
