/**
 * Little-endian multi-limb numbers: limb i carries weight base^i.
 * Both reference multipliers share this value function; they differ only in the base
 * (2^32 for the vector-of-u32 helper, 2^64 for the u64 helper).
 */
module Limbs {
  import opened Powers

  /** Every limb is a digit of the given base. */
  predicate AllBelow(s: seq<nat>, base: nat)
  {
    forall i :: 0 <= i < |s| ==> s[i] < base
  }

  /** The number the limbs denote. */
  function Value(s: seq<nat>, base: nat): nat
    decreases |s|
  {
    if s == [] then 0 else s[0] + base * Value(s[1..], base)
  }

  /** The lowest len limbs of v. */
  function ToLimbs(v: nat, base: nat, len: nat): (r: seq<nat>)
    requires base >= 2
    ensures |r| == len && AllBelow(r, base)
    decreases len
  {
    if len == 0 then [] else [v % base] + ToLimbs(v / base, base, len - 1)
  }

  /** No redundant high zero limb: the shape trimming leaves behind. */
  predicate Trimmed(s: seq<nat>)
  {
    |s| >= 1 && (|s| > 1 ==> s[|s| - 1] != 0)
  }

  lemma {:induction false} ValueConcat(a: seq<nat>, b: seq<nat>, base: nat)
    ensures Value(a + b, base) == Value(a, base) + Pow(base, |a|) * Value(b, base)
    decreases |a|
  {
    if a != [] {
      assert (a + b)[1..] == a[1..] + b;
      ValueConcat(a[1..], b, base);
      var x, y, p := Value(a[1..], base), Value(b, base), Pow(base, |a| - 1);
      assert Value(a + b, base) == a[0] + base * (x + p * y);
      Distrib(base, x, p, y);
    } else {
      assert a + b == b;
    }
  }

  lemma ValueSingle(x: nat, base: nat)
    ensures Value([x], base) == x
  {
    assert [x][1..] == [];
  }

  /** Appending one limb adds it at weight base^|s|. */
  lemma ValueSnoc(s: seq<nat>, x: nat, base: nat)
    ensures Value(s + [x], base) == Value(s, base) + x * Pow(base, |s|)
  {
    ValueConcat(s, [x], base);
    ValueSingle(x, base);
  }

  /** The value of a prefix grows by one weighted limb. */
  lemma ValuePrefixStep(s: seq<nat>, j: nat, base: nat)
    requires j < |s|
    ensures Value(s[..j + 1], base) == Value(s[..j], base) + s[j] * Pow(base, j)
  {
    assert s[..j + 1] == s[..j] + [s[j]];
    ValueSnoc(s[..j], s[j], base);
  }

  /** Writing limb i changes the value by (v - s[i]) * base^i. */
  lemma ValueUpdate(s: seq<nat>, i: nat, v: nat, base: nat)
    requires i < |s|
    ensures Value(s[i := v], base) + s[i] * Pow(base, i) == Value(s, base) + v * Pow(base, i)
  {
    var t := s[i := v];
    var rest := s[i + 1..];
    assert s == s[..i] + ([s[i]] + rest);
    assert t == s[..i] + ([v] + rest);
    ValueConcat(s[..i], [s[i]] + rest, base);
    ValueConcat(s[..i], [v] + rest, base);
    assert ([s[i]] + rest)[1..] == rest;
    assert ([v] + rest)[1..] == rest;
    var a, p, r := Value(s[..i], base), Pow(base, i), base * Value(rest, base);
    assert Value([v] + rest, base) == v + r;
    assert Value([s[i]] + rest, base) == s[i] + r;
    assert Value(t, base) == a + p * (v + r);
    assert Value(s, base) == a + p * (s[i] + r);
    UpdateArith(a, p, v, s[i], r);
  }

  lemma UpdateArith(a: int, p: int, x: int, y: int, r: int)
    ensures (a + p * (x + r)) + y * p == (a + p * (y + r)) + x * p
  {
  }

  /** Digits of the base bound the value by base^|s|. */
  lemma {:induction false} ValueBound(s: seq<nat>, base: nat)
    requires base >= 1 && AllBelow(s, base)
    ensures Value(s, base) < Pow(base, |s|)
    decreases |s|
  {
    if s != [] {
      ValueBound(s[1..], base);
      var v, q := Value(s[1..], base), Pow(base, |s| - 1);
      assert Value(s, base) == s[0] + base * v;
      assert Pow(base, |s|) == base * q;
      DigitBound(s[0], base, v, q);
    }
  }

  lemma DigitBound(d: nat, b: nat, v: nat, q: nat)
    requires d < b && v < q
    ensures d + b * v < b * q
  {
    MulLe(b, v + 1, q);
  }

  /** Removing a zero top limb keeps the value. */
  lemma DropZeroTop(s: seq<nat>, base: nat)
    requires |s| >= 1 && s[|s| - 1] == 0
    ensures Value(s[..|s| - 1], base) == Value(s, base)
  {
    assert s == s[..|s| - 1] + [0];
    ValueSnoc(s[..|s| - 1], 0, base);
  }

  /** Limbs at or above position k are zero when the value is below base^k. */
  lemma HighLimbsZero(s: seq<nat>, base: nat, k: nat, j: nat)
    requires base >= 1 && AllBelow(s, base)
    requires Value(s, base) < Pow(base, k)
    requires k <= j < |s|
    ensures s[j] == 0
  {
    assert s == s[..j] + s[j..];
    ValueConcat(s[..j], s[j..], base);
    var x, p := Value(s[j..], base), Pow(base, j);
    assert Value(s, base) >= p * x;
    PowMonotone(base, k, j);
    assert p * x < p;
    if x > 0 { MulLe(p, 1, x); }
    assert x == 0;
    assert s[j..][1..] == s[j + 1..];
    assert x == s[j] + base * Value(s[j + 1..], base);
  }

  /** Zero limbs appended on top keep the value. */
  lemma {:induction false} ValueZeroTail(s: seq<nat>, len: nat, base: nat)
    requires len <= |s|
    requires forall i :: len <= i < |s| ==> s[i] == 0
    ensures Value(s[..len], base) == Value(s, base)
    decreases |s| - len
  {
    if len < |s| {
      var t := s[..|s| - 1];
      DropZeroTop(s, base);
      assert t[..len] == s[..len];
      ValueZeroTail(t, len, base);
    } else {
      assert s[..len] == s;
    }
  }

  /** ToLimbs keeps exactly the value modulo base^len. */
  lemma {:induction false} ToLimbsValue(v: nat, base: nat, len: nat)
    requires base >= 2
    ensures Value(ToLimbs(v, base, len), base) == v % Pow(base, len)
    decreases len
  {
    if len > 0 {
      var r := ToLimbs(v, base, len);
      assert r[1..] == ToLimbs(v / base, base, len - 1);
      ToLimbsValue(v / base, base, len - 1);
      ModProduct(v, base, Pow(base, len - 1));
    }
  }

  /** Limbs are recovered from their value: ToLimbs inverts Value. */
  lemma {:induction false} ToLimbsOfValue(s: seq<nat>, base: nat)
    requires base >= 2 && AllBelow(s, base)
    ensures ToLimbs(Value(s, base), base, |s|) == s
    decreases |s|
  {
    if s != [] {
      var v := Value(s, base);
      ModUnique(v, base, Value(s[1..], base), s[0]);
      ToLimbsOfValue(s[1..], base);
    }
  }

  /** A trimmed string shorter than another trimmed string denotes a smaller number. */
  lemma TrimmedShorter(s: seq<nat>, t: seq<nat>, base: nat)
    requires base >= 2 && AllBelow(s, base) && AllBelow(t, base)
    requires Trimmed(s) && Trimmed(t) && |s| < |t|
    ensures Value(s, base) < Value(t, base)
  {
    var n := |t| - 1;
    ValueBound(s, base);
    PowMonotone(base, |s|, n);
    assert t == t[..n] + [t[n]];
    ValueSnoc(t[..n], t[n], base);
    MulLe(Pow(base, n), 1, t[n]);
  }

  /** Two trimmed limb strings with the same value are the same string. */
  lemma TrimmedUnique(s: seq<nat>, t: seq<nat>, base: nat)
    requires base >= 2 && AllBelow(s, base) && AllBelow(t, base)
    requires Trimmed(s) && Trimmed(t) && Value(s, base) == Value(t, base)
    ensures s == t
  {
    if |s| < |t| {
      TrimmedShorter(s, t, base);
    } else if |t| < |s| {
      TrimmedShorter(t, s, base);
    } else {
      ToLimbsOfValue(s, base);
      ToLimbsOfValue(t, base);
    }
  }

  // ---------------------------------------------------------------------------
  // Schoolbook steps, for any base
  // ---------------------------------------------------------------------------

  /** With digits below b, x * y + r + c is at most (b - 1)^2 + 2 (b - 1) = b^2 - 1. */
  lemma MacBound(x: nat, y: nat, r: nat, c: nat, b: nat)
    requires x < b && y < b && r < b && c < b
    ensures 0 <= x * y + r + c < b * b
    ensures (x * y + r + c) / b < b
  {
    var m := b - 1;
    MulLe(x, 0, y);
    MulLe(x, y, m);
    MulLe(m, x, m);
    assert m * m + m + m == b * b - 1;
    DivBelow(x * y + r + c, b, b);
  }

  /**
   * Storing the low half t % B of an accumulator t at a limb of weight w, and carrying the
   * high half t / B to weight w * B, adds t - r to the value, r being the limb it replaces.
   */
  lemma StoreLimb(v: int, v': int, r: int, t: nat, b: nat, w: int)
    requires b > 0 && v' + r * w == v + (t % b) * w
    ensures v' + (t / b) * (w * b) == v + (t - r) * w
  {
    var lo, hi := t % b, t / b;
    assert t == b * hi + lo;
    assert hi * (w * b) == (b * hi) * w;
    assert (t - r) * w == (b * hi) * w + lo * w - r * w;
  }

  /** Accumulating x * y at weight w * bj extends the partial row sum x * vj * w. */
  lemma RowStep(t: int, v: int, c: int, x: int, y: int, vj: int, w: int, bj: int)
    requires v + c * (w * bj) == t + x * vj * w
    ensures v + c * (w * bj) + x * y * (w * bj) == t + x * (vj + y * bj) * w
  {
    assert x * y * (w * bj) == x * (y * bj) * w;
    assert x * (vj + y * bj) * w == x * vj * w + x * (y * bj) * w;
  }

  lemma SumTimes(c: int, d: int, w: int)
    ensures (d + c) * w == c * w + d * w
  {
  }

  /** Adding row i, a[i] * b at weight base^i, to the sum of rows 0..i-1. */
  lemma RowTotal(ai: int, w: int, va: int, vb: int)
    ensures va * vb + ai * vb * w == (va + ai * w) * vb
  {
  }

  /**
   * One iteration of the inner loop, for any base: storing the low half of
   * x * b[j] + s[i + j] + c at i + j and carrying the high half extends the partial row
   * x * Value(b[..j]) * base^i by one limb of b.
   */
  lemma RowMacStep(s: seq<nat>, b: seq<nat>, i: nat, j: nat, x: nat, c: nat, t: int, base: nat)
    requires j < |b| && i + j < |s| && base > 0
    requires Value(s, base) + c * Pow(base, i + j) == t + x * Value(b[..j], base) * Pow(base, i)
    ensures var prod := x * b[j] + s[i + j] + c;
      Value(s[i + j := prod % base], base) + (prod / base) * Pow(base, i + j + 1)
      == t + x * Value(b[..j + 1], base) * Pow(base, i)
  {
    var prod := x * b[j] + s[i + j] + c;
    var s' := s[i + j := prod % base];
    var v, w, bj := Value(s, base), Pow(base, i), Pow(base, j);
    ValueUpdate(s, i + j, prod % base, base);
    PowAdd(base, i, j);
    StoreLimb(v, Value(s', base), s[i + j], prod, base, w * bj);
    ValuePrefixStep(b, j, base);
    RowStep(t, v, c, x, b[j], Value(b[..j], base), w, bj);
    SumTimes(c, x * b[j], w * bj);
    assert Pow(base, i + j + 1) == (w * bj) * base;
  }

  /** One iteration of the carry-propagation loop, for any base. */
  lemma CarryStep(s: seq<nat>, k: nat, c: nat, target: int, base: nat)
    requires k < |s| && base > 0
    requires Value(s, base) + c * Pow(base, k) == target
    ensures var sum := s[k] + c;
      Value(s[k := sum % base], base) + (sum / base) * Pow(base, k + 1) == target
  {
    var sum := s[k] + c;
    ValueUpdate(s, k, sum % base, base);
    StoreLimb(Value(s, base), Value(s[k := sum % base], base), s[k], sum, base, Pow(base, k));
    assert Pow(base, k + 1) == Pow(base, k) * base;
  }

  /** Closing row i: adding a[i] * b at weight base^i to the rows before it. */
  lemma RowClosed(a: seq<nat>, b: seq<nat>, i: nat, base: nat)
    requires i < |a|
    ensures Value(a[..i], base) * Value(b, base) + a[i] * Value(b[..|b|], base) * Pow(base, i)
         == Value(a[..i + 1], base) * Value(b, base)
  {
    assert b[..|b|] == b;
    ValuePrefixStep(a, i, base);
    RowTotal(a[i], Pow(base, i), Value(a[..i], base), Value(b, base));
  }

  /**
   * When the carry loop stops, the carry is zero: rows 0..i fit in i + 1 + |b| limbs, so a
   * carry left at position k >= i + 1 + |b| would make the value too large.
   */
  lemma CarryVanishes(s: seq<nat>, a: seq<nat>, b: seq<nat>, i: nat, k: nat, c: nat, base: nat)
    requires base >= 1 && AllBelow(a, base) && AllBelow(b, base) && i < |a|
    requires c == 0 || i + 1 + |b| <= k
    requires Value(s, base) + c * Pow(base, k) == Value(a[..i + 1], base) * Value(b, base)
    ensures c == 0
  {
    if c == 0 {
      return;
    }
    assert AllBelow(a[..i + 1], base);
    ProductLimbs(a[..i + 1], b, base);
    PowMonotone(base, i + 1 + |b|, k);
    CarryAbsorbed(Value(s, base), c, Pow(base, k), Value(a[..i + 1], base) * Value(b, base));
  }

  lemma CarryAbsorbed(v: nat, c: nat, w: nat, target: int)
    requires v + c * w == target && target < w
    ensures c == 0
  {
    if c > 0 {
      MulLe(w, 1, c);
    }
  }

  /** A product of an i-limb and a j-limb number fits in i + j limbs. */
  lemma ProductLimbs(a: seq<nat>, b: seq<nat>, base: nat)
    requires base >= 1 && AllBelow(a, base) && AllBelow(b, base)
    ensures Value(a, base) * Value(b, base) < Pow(base, |a| + |b|)
  {
    ValueBound(a, base);
    ValueBound(b, base);
    MulStrict(Value(a, base), Value(b, base), Pow(base, |a|), Pow(base, |b|));
    PowAdd(base, |a|, |b|);
  }
}
