/**
 * The u64 reference multiplier of the integration test: a schoolbook product of base-2^64
 * limb strings written into a caller's buffer of out_len limbs, truncated to that length.
 */
module ReferenceMul64 {
  import opened Powers
  import opened Words
  import opened Limbs

  // ---------------------------------------------------------------------------
  // The two formulations of the multiply-accumulate step
  // ---------------------------------------------------------------------------

  /**
   * The `unsigned __int128` step: prod = x * y + o + c, the limb is its low 64 bits and the
   * carry its high 64 bits. The pair is the two-word representation of prod.
   */
  function MulAddWide(x: U64, y: U64, o: U64, c: U64): (r: (U64, U64))
    ensures r.0 + TwoTo64 * r.1 == x * y + o + c
  {
    WideMacFits(x, y, o, c);
    var prod := x * y + o + c;
    (prod % TwoTo64, prod / TwoTo64)
  }

  /** The 128-bit accumulator never exceeds 2^128 - 1, and its high half is a word. */
  lemma WideMacFits(x: U64, y: U64, o: U64, c: U64)
    ensures 0 <= x * y + o + c < TwoTo128
    ensures (x * y + o + c) / TwoTo64 < TwoTo64
  {
    MacBound(x, y, o, c, TwoTo64);
    assert TwoTo64 * TwoTo64 == TwoTo128;
  }

  /**
   * The add-carry step: `_umul128` gives hi:lo = x * y, then two `_addcarry_u64` add the
   * carry into lo and lo into the output limb, and the new carry is hi + cf + cf2, a
   * 64-bit sum. It computes the same pair as the 128-bit step, so the final sum never wraps.
   */
  function MulAddSplit(x: U64, y: U64, o: U64, c: U64): (r: (U64, U64))
    ensures r == MulAddWide(x, y, o, c)
  {
    var xy := x * y;
    WideMacFits(x, y, o, c);
    var hi, lo := xy / TwoTo64, xy % TwoTo64;
    var s1 := lo + c;
    var lo', cf := s1 % TwoTo64, if s1 >= TwoTo64 then 1 else 0;
    CarryOut(s1, TwoTo64);
    var s2 := o + lo';
    var limb, cf2 := s2 % TwoTo64, if s2 >= TwoTo64 then 1 else 0;
    CarryOut(s2, TwoTo64);
    SplitAgrees(xy, o, c, hi, lo, lo', cf, limb, cf2, TwoTo64);
    ModSmall(hi + cf + cf2, TwoTo64);
    (limb, (hi + cf + cf2) % TwoTo64)
  }

  /** An add with carry-out: a sum of two digits is its low digit plus the carry times b. */
  lemma CarryOut(s: nat, b: nat)
    requires b > 0 && s < 2 * b
    ensures s == s % b + (if s >= b then 1 else 0) * b
  {
    if s >= b {
      ModUnique(s, b, 1, s - b);
    } else {
      ModUnique(s, b, 0, s);
    }
  }

  /**
   * The carry chain of the add-carry step adds up to the same two-word number: its limb is
   * the low digit of xy + o + c and hi + cf + cf2, the quotient, is itself a digit.
   */
  lemma SplitAgrees(xy: nat, o: nat, c: nat, hi: nat, lo: nat, lo': nat, cf: nat, limb: nat,
                    cf2: nat, b: nat)
    requires b > 0 && xy + o + c < b * b && limb < b
    requires xy == b * hi + lo && lo + c == lo' + cf * b && o + lo' == limb + cf2 * b
    ensures xy + o + c == limb + b * (hi + cf + cf2)
    ensures hi + cf + cf2 < b
    ensures limb == (xy + o + c) % b && hi + cf + cf2 == (xy + o + c) / b
  {
    assert xy + o + c == limb + b * (hi + cf + cf2);
    if hi + cf + cf2 >= b {
      MulLe(b, b, hi + cf + cf2);
    }
    ModUnique(xy + o + c, b, hi + cf + cf2, limb);
  }

  // ---------------------------------------------------------------------------
  // schoolbook_mul
  // ---------------------------------------------------------------------------

  /** The limbs of a are all digits of base 2^64. */
  lemma WordsBelow(a: seq<U64>)
    ensures AllBelow(a, TwoTo64)
  {
  }

  /** A product of |x| and |y| limbs fits in any buffer of at least |x| + |y| limbs. */
  lemma ProductFits(x: seq<nat>, y: seq<nat>, base: nat, len: nat)
    requires base >= 2 && AllBelow(x, base) && AllBelow(y, base) && |x| + |y| <= len
    ensures Value(x, base) * Value(y, base) < Pow(base, len)
    ensures (Value(x, base) * Value(y, base)) % Pow(base, len) == Value(x, base) * Value(y, base)
  {
    var v := Value(x, base) * Value(y, base);
    ProductLimbs(x, y, base);
    PowMonotone(base, |x| + |y|, len);
    MulLe(Value(x, base), 0, Value(y, base));
    ModSmall(v, Pow(base, len));
  }

  /**
   * A row that does not reach the end of the buffer: the buffer before the row held the
   * exact value X_i of rows 0..i-1 (a product of i and |b| limbs), in particular a zero at
   * limb i + |b|, and X_{i+1} still fits.
   */
  lemma RowFits(s0: seq<nat>, a: seq<nat>, b: seq<nat>, i: nat, base: nat)
    requires base >= 2 && AllBelow(a, base) && AllBelow(b, base) && AllBelow(s0, base)
    requires i < |a| && i + |b| < |s0|
    requires Value(s0, base) == (Value(a[..i], base) * Value(b, base)) % Pow(base, |s0|)
    ensures Value(s0, base) == Value(a[..i], base) * Value(b, base)
    ensures s0[i + |b|] == 0
    ensures (Value(a[..i + 1], base) * Value(b, base)) % Pow(base, |s0|)
         == Value(a[..i + 1], base) * Value(b, base)
  {
    assert AllBelow(a[..i], base) && AllBelow(a[..i + 1], base);
    ProductFits(a[..i], b, base, i + |b|);
    ProductFits(a[..i], b, base, |s0|);
    ProductFits(a[..i + 1], b, base, |s0|);
    HighLimbsZero(s0, base, i + |b|, i + |b|);
  }

  /**
   * A row that does not reach the end of the buffer, closed by storing its final carry c
   * at limb i + |b|: the buffer then holds X_{i+1} mod base^|s|.
   */
  lemma RowCarried(s: seq<nat>, s0: seq<nat>, a: seq<nat>, b: seq<nat>, i: nat, c: nat, base: nat)
    requires base >= 2 && AllBelow(a, base) && AllBelow(b, base) && AllBelow(s0, base)
    requires i < |a| && i + |b| < |s| && |s| == |s0| && s[i + |b|] == s0[i + |b|]
    requires Value(s0, base) == (Value(a[..i], base) * Value(b, base)) % Pow(base, |s|)
    requires Value(s, base) + c * Pow(base, i + |b|)
          == Value(s0, base) + a[i] * Value(b[..|b|], base) * Pow(base, i)
    ensures Value(s[i + |b| := c], base) == (Value(a[..i + 1], base) * Value(b, base)) % Pow(base, |s|)
  {
    RowFits(s0, a, b, i, base);
    ValueUpdate(s, i + |b|, c, base);
    RowClosed(a, b, i, base);
  }

  /** Arithmetic of a truncated row, over abstract values. */
  lemma TruncatedArith(xi: int, v: int, v0: int, q: int, c: int, x: int, vj: int, vr: int,
                       w: int, bj: int, m: int, e: int)
    requires xi == v0 + m * q && v + c * (m * e) == v0 + x * vj * w && w * bj == m * e
    ensures xi + x * (vj + bj * vr) * w == v + m * (q + (c + x * vr) * e)
  {
    assert x * (vj + bj * vr) * w == x * vj * w + x * vr * (w * bj);
    assert x * vr * (m * e) == m * (x * vr * e);
    assert c * (m * e) == m * (c * e);
  }

  /**
   * A row cut off at the end of the buffer: whatever the loop stopped with at limb
   * e = i + j >= |s| (the pending carry and the products with b[j..]) is a multiple of
   * base^|s|, so the buffer holds X_{i+1} mod base^|s|.
   */
  lemma RowTruncated(s: seq<nat>, s0: seq<nat>, a: seq<nat>, b: seq<nat>, i: nat, j: nat, c: nat,
                     base: nat)
    requires base >= 2 && AllBelow(s, base) && i < |a| && j <= |b| && |s| == |s0| && i + j >= |s|
    requires Value(s0, base) == (Value(a[..i], base) * Value(b, base)) % Pow(base, |s|)
    requires Value(s, base) + c * Pow(base, i + j)
          == Value(s0, base) + a[i] * Value(b[..j], base) * Pow(base, i)
    ensures Value(s, base) == (Value(a[..i + 1], base) * Value(b, base)) % Pow(base, |s|)
  {
    var d: nat := i + j - |s|;
    var m, e := Pow(base, |s|), Pow(base, d);
    var w, bj := Pow(base, i), Pow(base, j);
    var xi := Value(a[..i], base) * Value(b, base);
    var q := xi / m;
    DivMod(xi, m);
    PowAdd(base, |s|, d);
    PowAdd(base, i, j);
    assert |s| + d == i + j;
    assert w * bj == m * e;
    assert b == b[..j] + b[j..];
    ValueConcat(b[..j], b[j..], base);
    TruncatedArith(xi, Value(s, base), Value(s0, base), q, c, a[i], Value(b[..j], base),
                   Value(b[j..], base), w, bj, m, e);
    RowClosed(a, b, i, base);
    assert b[..|b|] == b;
    ValueBound(s, base);
    ModUnique(Value(a[..i + 1], base) * Value(b, base), m, q + (c + a[i] * Value(b[j..], base)) * e,
              Value(s, base));
  }

  /** One step of the inner loop, with the 128-bit sum split into its low word lo and
   *  its high word hi. */
  lemma WideRowStep(s: seq<nat>, b: seq<nat>, i: nat, j: nat, x: nat, c: nat, t: int,
                    lo: nat, hi: nat)
    requires j < |b| && i + j < |s| && lo < TwoTo64
    requires Value(s, TwoTo64) + c * Pow(TwoTo64, i + j) == t + x * Value(b[..j], TwoTo64) * Pow(TwoTo64, i)
    requires lo + TwoTo64 * hi == x * b[j] + s[i + j] + c
    ensures Value(s[i + j := lo], TwoTo64) + hi * Pow(TwoTo64, i + j + 1)
         == t + x * Value(b[..j + 1], TwoTo64) * Pow(TwoTo64, i)
  {
    ModUnique(x * b[j] + s[i + j] + c, TwoTo64, hi, lo);
    RowMacStep(s, b, i, j, x, c, t, TwoTo64);
  }

  /**
   * The inner loop of `schoolbook_mul` for row i: a[i] * b[j] is added at limb i + j with
   * the 128-bit step, stopping at the end of b or of the buffer, whichever comes first.
   * Limbs from i + j up are untouched, and the pending carry is returned.
   */
  method MacRow(out: array<U64>, outLen: nat, a: seq<U64>, b: seq<U64>, i: nat)
    returns (j: nat, carry: U64)
    requires outLen <= out.Length && i < |a|
    modifies out
    ensures j <= |b| && (i + j <= outLen || j == 0) && (j == |b| || i + j >= outLen)
    ensures out[outLen..] == old(out[outLen..])
    ensures forall t :: i + j <= t < outLen ==> out[t] == old(out[t])
    ensures Value(out[..outLen], TwoTo64) + carry * Pow(TwoTo64, i + j)
         == Value(old(out[..outLen]), TwoTo64) + a[i] * Value(b[..j], TwoTo64) * Pow(TwoTo64, i)
  {
    WordsBelow(b);
    ghost var s0 := out[..outLen];
    carry := 0;
    j := 0;
    while j < |b| && i + j < outLen
      invariant 0 <= j <= |b| && (i + j <= outLen || j == 0)
      invariant out[outLen..] == old(out[outLen..])
      invariant forall t :: i + j <= t < outLen ==> out[t] == s0[t]
      invariant Value(out[..outLen], TwoTo64) + carry * Pow(TwoTo64, i + j)
             == Value(s0, TwoTo64) + a[i] * Value(b[..j], TwoTo64) * Pow(TwoTo64, i)
    {
      ghost var s := out[..outLen];
      var r := MulAddWide(a[i], b[j], out[i + j], carry);
      WideRowStep(s, b, i, j, a[i], carry, Value(s0, TwoTo64), r.0, r.1);
      out[i + j] := r.0;
      carry := r.1;
      assert out[..outLen] == s[i + j := r.0];
      j := j + 1;
    }
  }

  /**
   * One pass of the outer loop of `schoolbook_mul`: the inner loop for row i, then its
   * final carry goes to limb i + |b| when that limb exists.
   */
  method AddRow(out: array<U64>, outLen: nat, a: seq<U64>, b: seq<U64>, i: nat)
    requires outLen <= out.Length && i < |a|
    requires Value(out[..outLen], TwoTo64)
          == (Value(a[..i], TwoTo64) * Value(b, TwoTo64)) % Pow(TwoTo64, outLen)
    modifies out
    ensures out[outLen..] == old(out[outLen..])
    ensures Value(out[..outLen], TwoTo64)
         == (Value(a[..i + 1], TwoTo64) * Value(b, TwoTo64)) % Pow(TwoTo64, outLen)
  {
    WordsBelow(a);
    WordsBelow(b);
    ghost var s0 := out[..outLen];
    var j: nat, carry: U64 := MacRow(out, outLen, a, b, i);
    if i + |b| < outLen {
      ghost var s := out[..outLen];
      var k := i + |b|;
      RowCarried(s, s0, a, b, i, carry, TwoTo64);
      RowFits(s0, a, b, i, TwoTo64);
      ModSmall(carry, TwoTo64);
      out[k] := (out[k] + carry) % TwoTo64;
      assert out[..outLen] == s[k := carry];
    } else {
      WordsBelow(out[..outLen]);
      RowTruncated(out[..outLen], s0, a, b, i, j, carry, TwoTo64);
    }
  }

  /**
   * `schoolbook_mul(out, out_len, a, na, b, nb)`: clears out[0..out_len), then adds each
   * row a[i] * b at limb i with the 128-bit step, writing no limb at or past out_len; the
   * final carry of a row goes to out[i + nb] when that limb exists, and it was zero there.
   * The buffer ends up holding the lowest out_len limbs of the product, and nothing past
   * out_len changes.
   */
  method SchoolbookMul(out: array<U64>, outLen: nat, a: seq<U64>, b: seq<U64>)
    requires outLen <= out.Length
    modifies out
    ensures out[..outLen] == ToLimbs(Value(a, TwoTo64) * Value(b, TwoTo64), TwoTo64, outLen)
    ensures out[outLen..] == old(out[outLen..])
  {
    forall t | 0 <= t < outLen {
      out[t] := 0;
    }
    ValueZeroTail(out[..outLen], 0, TwoTo64);
    assert out[..outLen][..0] == [];
    ghost var vb := Value(b, TwoTo64);
    ghost var m := Pow(TwoTo64, outLen);
    var i := 0;
    while i < |a|
      invariant 0 <= i <= |a|
      invariant out[outLen..] == old(out[outLen..])
      invariant Value(out[..outLen], TwoTo64) == (Value(a[..i], TwoTo64) * vb) % m
    {
      AddRow(out, outLen, a, b, i);
      i := i + 1;
    }
    assert a[..i] == a;
    LowLimbs(out[..outLen], Value(a, TwoTo64) * vb);
  }

  /** A buffer of words whose value is v mod 2^(64 len) holds the lowest len limbs of v. */
  lemma LowLimbs(s: seq<U64>, v: nat)
    requires Value(s, TwoTo64) == v % Pow(TwoTo64, |s|)
    ensures s == ToLimbs(v, TwoTo64, |s|)
  {
    WordsBelow(s);
    ToLimbsOfValue(s, TwoTo64);
    ToLimbsMod(v, TwoTo64, |s|);
  }

  /** Reducing modulo base^len first does not change the lowest len limbs. */
  lemma ToLimbsMod(v: nat, base: nat, len: nat)
    requires base >= 2
    ensures ToLimbs(v % Pow(base, len), base, len) == ToLimbs(v, base, len)
  {
    ToLimbsValue(v, base, len);
    ToLimbsOfValue(ToLimbs(v, base, len), base);
  }

  /** With out_len >= na + nb the buffer holds the whole product. */
  lemma FullBufferExact(a: seq<U64>, b: seq<U64>, outLen: nat)
    requires outLen >= |a| + |b|
    ensures Value(ToLimbs(Value(a, TwoTo64) * Value(b, TwoTo64), TwoTo64, outLen), TwoTo64)
         == Value(a, TwoTo64) * Value(b, TwoTo64)
  {
    WordsBelow(a);
    WordsBelow(b);
    ProductFits(a, b, TwoTo64, outLen);
    ToLimbsValue(Value(a, TwoTo64) * Value(b, TwoTo64), TwoTo64, outLen);
  }

  /** The known values of the small test: 3 * 7 gives {21, 0}; (2^64 - 1)^2 gives {1, 2^64 - 2}. */
  lemma KnownProducts()
    ensures ToLimbs(Value([3], TwoTo64) * Value([7], TwoTo64), TwoTo64, 2) == [21, 0]
    ensures ToLimbs(Value([TwoTo64 - 1], TwoTo64) * Value([TwoTo64 - 1], TwoTo64), TwoTo64, 2)
         == [1, TwoTo64 - 2]
  {
    ValueSingle(3, TwoTo64);
    ValueSingle(7, TwoTo64);
    ValueSingle(TwoTo64 - 1, TwoTo64);
    var big := (TwoTo64 - 1) * (TwoTo64 - 1);
    assert big == (TwoTo64 - 2) * TwoTo64 + 1;
    ModUnique(big, TwoTo64, TwoTo64 - 2, 1);
    ModUnique(TwoTo64 - 2, TwoTo64, 0, TwoTo64 - 2);
    assert ToLimbs(big, TwoTo64, 2) == [1] + ToLimbs(TwoTo64 - 2, TwoTo64, 1);
    assert ToLimbs(TwoTo64 - 2, TwoTo64, 1) == [TwoTo64 - 2] + ToLimbs(0, TwoTo64, 0);
    assert ToLimbs(21, TwoTo64, 2) == [21] + ToLimbs(0, TwoTo64, 1);
  }
}
