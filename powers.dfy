/** Natural-number powers and the few facts about them that the rest of the model uses. */
module Powers {

  /** b raised to the e-th power. */
  function Pow(b: nat, e: nat): (r: nat)
    ensures b >= 1 ==> r >= 1
    decreases e
  {
    if e == 0 then 1 else b * Pow(b, e - 1)
  }

  lemma {:induction false} PowAdd(b: nat, x: nat, y: nat)
    ensures Pow(b, x + y) == Pow(b, x) * Pow(b, y)
    decreases x
  {
    if x > 0 {
      PowAdd(b, x - 1, y);
      var q, r := Pow(b, x - 1), Pow(b, y);
      assert Pow(b, x + y) == b * (q * r);
      assert Pow(b, x) == b * q;
      MulRotate(b, q, r);
    }
  }

  lemma {:induction false} PowMonotone(b: nat, x: nat, y: nat)
    requires b >= 1 && x <= y
    ensures Pow(b, x) <= Pow(b, y)
    decreases y
  {
    if x < y {
      PowMonotone(b, x, y - 1);
      MulLe(Pow(b, y - 1), 1, b);
    }
  }

  /** Multiplication by a non-negative factor is monotone. */
  lemma MulLe(m: int, x: int, y: int)
    requires m >= 0 && x <= y
    ensures m * x <= m * y && x * m <= y * m
  {
  }

  lemma MulRotate(x: int, y: int, z: int)
    ensures x * (y * z) == (x * z) * y && (x * y) * z == x * (y * z)
  {
  }

  lemma Distrib(b: int, x: int, p: int, y: int)
    ensures b * (x + p * y) == b * x + (b * p) * y
  {
  }

  /** The Euclidean quotient and remainder are the unique pair with 0 <= r < m. */
  lemma ModUnique(v: int, m: int, q: int, r: int)
    requires m > 0 && 0 <= r < m && v == m * q + r
    ensures v % m == r && v / m == q
  {
    var q', r' := v / m, v % m;
    assert v == m * q' + r';
    if q' > q { MulLe(m, q + 1, q'); }
    if q' < q { MulLe(m, q' + 1, q); }
  }

  /** Splitting a remainder by a composite modulus base * p. */
  lemma ModProduct(v: nat, base: nat, p: nat)
    requires base >= 1 && p >= 1
    ensures v % (base * p) == base * ((v / base) % p) + v % base
    ensures v / (base * p) == (v / base) / p
  {
    var q, t := (v / base) / p, (v / base) % p;
    assert v / base == p * q + t;
    assert v == base * (v / base) + v % base;
    Distrib(base, t, p, q);
    assert v == (base * p) * q + (base * t + v % base);
    MulLe(base, t, p - 1);
    assert base * (p - 1) == base * p - base;
    ModUnique(v, base * p, q, base * t + v % base);
  }

  /** Adding a multiple of q keeps the residue. */
  lemma ModAddMultiple(x: int, k: int, q: int)
    requires q > 0
    ensures (q * k + x) % q == x % q
  {
    var r := x % q;
    assert x == q * (x / q) + r;
    assert q * k + x == q * (k + x / q) + r;
    ModUnique(q * k + x, q, k + x / q, r);
  }

  /** Residues multiply. */
  lemma ModMul(a: nat, b: nat, q: nat)
    requires q > 0
    ensures (a * b) % q == ((a % q) * (b % q)) % q
  {
    var qa, ra, qb, rb := a / q, a % q, b / q, b % q;
    assert a == q * qa + ra && b == q * qb + rb;
    var k := qa * b + ra * qb;
    assert a * b == (q * qa + ra) * b;
    assert (q * qa + ra) * b == q * (qa * b) + ra * b;
    assert ra * b == ra * (q * qb) + ra * rb;
    assert ra * (q * qb) == q * (ra * qb);
    assert a * b == q * k + ra * rb;
    ModAddMultiple(ra * rb, k, q);
  }

  /** Residues add. */
  lemma ModAdd(a: int, b: int, q: int)
    requires q > 0
    ensures (a + b) % q == (a % q + b % q) % q
  {
    assert a + b == q * (a / q + b / q) + (a % q + b % q);
    ModAddMultiple(a % q + b % q, a / q + b / q, q);
  }

  /** Quotient and remainder recompose the dividend. */
  lemma DivMod(x: int, m: int)
    requires m > 0
    ensures x == m * (x / m) + x % m
  {
  }

  /** A number below p is its own residue. */
  lemma ModSmall(v: nat, p: nat)
    requires v < p
    ensures v % p == v
  {
    ModUnique(v, p, 0, v);
  }

  /** A number below m * k has quotient by m below k. */
  lemma DivBelow(x: nat, m: nat, k: nat)
    requires m > 0 && x < m * k
    ensures x / m < k
  {
    if x / m >= k {
      MulLe(m, k, x / m);
    }
  }

  /** Strict bounds multiply. */
  lemma MulStrict(x: nat, y: nat, xs: nat, ys: nat)
    requires x < xs && y < ys
    ensures x * y < xs * ys
  {
    MulLe(x, y, ys - 1);
    MulLe(ys, x, xs - 1);
  }

  lemma QuotientPositive(x: nat, p: nat)
    requires p > 0 && x / p >= 1
    ensures p <= x
  {
    assert p * (x / p) <= x;
    MulLe(p, 1, x / p);
  }

  /** An odd quotient is positive, so the divisor does not exceed the dividend. */
  lemma OddQuotient(x: nat, p: nat)
    requires p >= 1 && (x / p) % 2 == 1
    ensures p <= x
  {
    QuotientPositive(x, p);
  }

  /** A number below 2p has quotient at most one by p. */
  lemma QuotientBelowTwo(x: nat, p: nat)
    requires p > 0 && x < 2 * p
    ensures x / p <= 1
  {
  }

  /** The word sizes the machine arithmetic of the model needs. */
  lemma Pow2Words()
    ensures Pow(2, 8) == 0x100
    ensures Pow(2, 32) == 0x1_0000_0000
    ensures Pow(2, 64) == 0x1_0000_0000_0000_0000
  {
    assert Pow(2, 4) == 0x10;
    PowAdd(2, 4, 4);
    PowAdd(2, 8, 8);
    assert Pow(2, 16) == 0x1_0000;
    PowAdd(2, 16, 16);
    assert Pow(2, 32) == 0x1_0000_0000;
    PowAdd(2, 32, 32);
  }

  /** m is 2^e for some exponent e. */
  ghost predicate IsPowerOfTwo(m: nat)
  {
    exists e: nat :: Pow(2, e) == m
  }
}
