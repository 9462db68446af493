/**
 * The reference arithmetic of the correctness test: schoolbook multiplication of
 * base-2^32 limb vectors, the residue of a limb array modulo a small prime, and the
 * modular product that the large cases compare against.
 */
module ReferenceMul32 {
  import opened Powers
  import opened Words
  import opened Limbs

  // ---------------------------------------------------------------------------
  // Machine-word steps
  // ---------------------------------------------------------------------------

  /**
   * `u64(a[i]) * b[j] + result[i + j] + carry` stays below 2^64 when every operand is a
   * 32-bit limb: (2^32 - 1)^2 + 2 (2^32 - 1) = 2^64 - 1. The high half is again a limb.
   */
  lemma MacFits(x: U32, y: U32, r: U32, c: U32)
    ensures 0 <= x * y + r + c < TwoTo64
    ensures (x * y + r + c) / TwoTo32 < TwoTo32
  {
    MacBound(x, y, r, c, TwoTo32);
    assert TwoTo32 * TwoTo32 == TwoTo64;
  }

  // ---------------------------------------------------------------------------
  // Trimming
  // ---------------------------------------------------------------------------

  /**
   * `while (rlen > 1 && s[rlen - 1] == 0) --rlen`, starting from the full length; the
   * `pop_back` loop of `schoolbook_multiply` is the same loop on the vector itself.
   */
  method TrimmedLength(s: seq<U32>) returns (len: nat)
    ensures len <= |s| && (|s| == 0 <==> len == 0)
    ensures |s| > 0 ==> Trimmed(s[..len])
    ensures forall i :: len <= i < |s| ==> s[i] == 0
  {
    len := |s|;
    while len > 1 && s[len - 1] == 0
      invariant len <= |s| && (|s| == 0 <==> len == 0)
      invariant forall i :: len <= i < |s| ==> s[i] == 0
    {
      len := len - 1;
    }
  }

  /** Trimming zero top limbs keeps the value, hence the residue modulo any p. */
  lemma TrimKeepsResidue(s: seq<U32>, len: nat, p: nat)
    requires len <= |s| && p >= 1
    requires forall i :: len <= i < |s| ==> s[i] == 0
    ensures Value(s[..len], TwoTo32) == Value(s, TwoTo32)
    ensures Value(s[..len], TwoTo32) % p == Value(s, TwoTo32) % p
  {
    ValueZeroTail(s, len, TwoTo32);
  }

  // ---------------------------------------------------------------------------
  // schoolbook_multiply
  // ---------------------------------------------------------------------------

  /** The limbs of a are all digits of base 2^32. */
  lemma LimbsBelow(a: seq<U32>)
    ensures AllBelow(a, TwoTo32)
  {
  }

  /**
   * One pass of the outer loop of `schoolbook_multiply`: the row a[i] * b is added into
   * result at limb i, the inner loop storing low halves and passing carries up, and the
   * carry loop rippling the last carry until it is zero.
   */
  method AddRow(result0: seq<U32>, a: seq<U32>, b: seq<U32>, i: nat) returns (result: seq<U32>)
    requires i < |a| && |result0| == |a| + |b|
    requires Value(result0, TwoTo32) == Value(a[..i], TwoTo32) * Value(b, TwoTo32)
    ensures |result| == |result0|
    ensures Value(result, TwoTo32) == Value(a[..i + 1], TwoTo32) * Value(b, TwoTo32)
  {
    result := result0;
    var n := |a| + |b|;
    ghost var vb := Value(b, TwoTo32);
    ghost var t := Value(a[..i], TwoTo32) * vb;
    var carry: U64 := 0;
    var j := 0;
    while j < |b|
      invariant 0 <= j <= |b| && |result| == n
      invariant carry < TwoTo32
      invariant Value(result, TwoTo32) + carry * Pow(TwoTo32, i + j)
             == t + a[i] * Value(b[..j], TwoTo32) * Pow(TwoTo32, i)
    {
      MacFits(a[i], b[j], result[i + j], carry);
      RowMacStep(result, b, i, j, a[i], carry, t, TwoTo32);
      var prod: U64 := a[i] * b[j] + result[i + j] + carry;
      result := result[i + j := prod % TwoTo32];
      carry := prod / TwoTo32;
      j := j + 1;
    }
    RowClosed(a, b, i, TwoTo32);
    var k := i + |b|;
    while carry != 0 && k < n
      invariant i + |b| <= k <= n && |result| == n
      invariant carry < TwoTo32
      invariant Value(result, TwoTo32) + carry * Pow(TwoTo32, k) == Value(a[..i + 1], TwoTo32) * vb
      decreases n - k
    {
      var s: U64 := result[k] + carry;
      CarryStep(result, k, carry, Value(a[..i + 1], TwoTo32) * vb, TwoTo32);
      result := result[k := s % TwoTo32];
      carry := s / TwoTo32;
      DivBelow(s, TwoTo32, TwoTo32);
      k := k + 1;
    }
    LimbsBelow(a);
    LimbsBelow(b);
    CarryVanishes(result, a, b, i, k, carry, TwoTo32);
  }

  /**
   * `schoolbook_multiply(a, b)`: the empty vector when either factor is empty, otherwise
   * the trimmed base-2^32 limbs of the product.
   */
  method SchoolbookMultiply(a: seq<U32>, b: seq<U32>) returns (r: seq<U32>)
    ensures |a| == 0 || |b| == 0 ==> r == []
    ensures |a| > 0 && |b| > 0 ==> Trimmed(r)
    ensures |a| > 0 && |b| > 0 ==> Value(r, TwoTo32) == Value(a, TwoTo32) * Value(b, TwoTo32)
  {
    if |a| == 0 || |b| == 0 {
      return [];
    }
    var n := |a| + |b|;
    var result: seq<U32> := seq(n, _ => 0);
    ValueZeroTail(result, 0, TwoTo32);
    assert result[..0] == [];
    ghost var vb := Value(b, TwoTo32);
    var i := 0;
    while i < |a|
      invariant 0 <= i <= |a| && |result| == n
      invariant Value(result, TwoTo32) == Value(a[..i], TwoTo32) * vb
    {
      result := AddRow(result, a, b, i);
      i := i + 1;
    }
    assert a[..i] == a;
    var len := TrimmedLength(result);
    ValueZeroTail(result, len, TwoTo32);
    r := result[..len];
  }

  // ---------------------------------------------------------------------------
  // bignum_mod and mulmod
  // ---------------------------------------------------------------------------

  /** A residue-level multiply-accumulate: only the residues of the operands matter. */
  lemma ModCombine(x: nat, y: nat, z: nat, w: nat, p: nat)
    requires p >= 1 && z % p == w % p
    ensures (x % p + (y % p) * z) % p == (x + y * w) % p
  {
    var xp, yp := x % p, y % p;
    var u := yp * z;
    ModAdd(xp, u, p);
    ModMul(yp, z, p);
    ModMul(y, w, p);
    ModAdd(x, y * w, p);
    ModSmall(xp, p);
    ModSmall(yp, p);
    assert (u % p) == (y * w) % p;
  }

  /** Multiplying by y or by y mod p gives congruent products of congruent factors. */
  lemma ModMulCongruent(x: nat, x': nat, y: nat, p: nat)
    requires p >= 1 && x % p == x' % p
    ensures (x * (y % p)) % p == (x' * y) % p
  {
    ModMul(x, y % p, p);
    ModMul(x', y, p);
    ModSmall(y % p, p);
  }

  /** `u64` addition, which wraps modulo 2^64; a sum that fits is exact. */
  function AddU64(x: U64, y: U64): (r: U64)
    ensures x + y < TwoTo64 ==> r == x + y
  {
    if x + y < TwoTo64 then ModSmall(x + y, TwoTo64); (x + y) % TwoTo64 else (x + y) % TwoTo64
  }

  /** `u64` multiplication, which wraps modulo 2^64; a product that fits is exact. */
  function MulU64(x: U64, y: U64): (r: U64)
    ensures x * y < TwoTo64 ==> r == x * y
  {
    MulLe(x, 0, y);
    if x * y < TwoTo64 then ModSmall(x * y, TwoTo64); (x * y) % TwoTo64 else (x * y) % TwoTo64
  }

  /** (a[i] mod p) * base_pow + result stays below base^2 when p <= base. */
  lemma TermFits(x: nat, bp: nat, r: nat, p: nat, base: nat)
    requires x < p <= base && bp < base && r < p
    ensures 0 <= x * bp && r + x * bp < base * base
  {
    MulLe(x, 0, bp);
    MulLe(x, bp, base - 1);
    MulLe(base - 1, x, p - 1);
    assert (p - 1) * (base - 1) == p * base - p - base + 1;
    MulLe(base, p, base);
  }

  /**
   * The residue update of `bignum_mod` when p <= base and base^2 <= m: the 64-bit product
   * and sum do not wrap, and the running residue absorbs limb i at weight base^i.
   */
  lemma ResidueStep(a: seq<nat>, i: nat, r: nat, bp: nat, p: nat, base: nat, m: nat)
    requires i < |a| && 1 <= p <= base && base * base <= m
    requires r < p && bp < base
    requires bp % p == Pow(base, i) % p && r == Value(a[..i], base) % p
    ensures ((r + ((a[i] % p) * bp) % m) % m) % p == Value(a[..i + 1], base) % p
  {
    var x := a[i] % p;
    TermFits(x, bp, r, p, base);
    ModSmall(x * bp, m);
    ModSmall(r + x * bp, m);
    ValuePrefixStep(a, i, base);
    ModCombine(Value(a[..i], base), a[i], bp, Pow(base, i), p);
  }

  lemma PowStep(b: nat, i: nat)
    ensures Pow(b, i + 1) == Pow(b, i) * b
  {
  }

  /**
   * The weight update of `bignum_mod` under the same bounds: the product does not wrap and
   * the new weight is base^(i+1) mod p.
   */
  lemma WeightStep(i: nat, bp: nat, p: nat, base: nat, m: nat)
    requires 1 <= p <= base && base * base <= m && bp < base
    requires bp % p == Pow(base, i) % p
    ensures ((bp * (base % p)) % m) % p < base
    ensures ((bp * (base % p)) % m) % p % p == Pow(base, i + 1) % p
  {
    var y := base % p;
    var q := bp * y;
    MulLe(bp, 0, y);
    MulStrict(bp, y, base, base);
    ModSmall(q, m);
    assert (q % m) % p == q % p;
    ModSmall(q % p, p);
    ModMulCongruent(bp, Pow(base, i), base, p);
    PowStep(base, i);
  }

  /**
   * What the `bignum_mod` loop keeps after i limbs when p is at most the limb base: the
   * weight base_pow is a digit congruent to base^i and the result is the residue of the
   * limbs so far. For larger p only the bound result < p is claimed.
   */
  ghost predicate Tracks(a: seq<nat>, i: nat, r: nat, bp: nat, p: nat, base: nat)
  {
    1 <= p && i <= |a| && (p <= base ==> bp < base && bp % p == Pow(base, i) % p && r == Value(a[..i], base) % p)
  }

  /**
   * One pass of the `bignum_mod` loop, over the wrapped results t = (a[i] mod p) * base_pow,
   * u = result + t and w = base_pow * (base mod p) of machine words modulo m >= base^2:
   * for p up to the base none of them wraps, and both updates keep their meaning.
   */
  lemma ModLoopStep(a: seq<nat>, i: nat, r: nat, bp: nat, t: nat, u: nat, w: nat, p: nat,
                    base: nat, m: nat)
    requires i < |a| && 1 <= p && base * base <= m && r < p && Tracks(a, i, r, bp, p, base)
    requires (a[i] % p) * bp < m ==> t == (a[i] % p) * bp
    requires r + t < m ==> u == r + t
    requires bp * (base % p) < m ==> w == bp * (base % p)
    ensures Tracks(a, i + 1, u % p, w % p, p, base)
  {
    if p <= base {
      var x := a[i] % p;
      TermFits(x, bp, r, p, base);
      ModSmall(x * bp, m);
      ModSmall(r + x * bp, m);
      ResidueStep(a, i, r, bp, p, base, m);
      var y := base % p;
      MulLe(bp, 0, y);
      MulStrict(bp, y, base, base);
      ModSmall(w, m);
      WeightStep(i, bp, p, base, m);
      ModSmall(w % p, p);
    }
  }

  /**
   * `bignum_mod(a, len, p)` with its 64-bit arithmetic written out: every product and sum
   * wraps modulo 2^64. The result is always below p; for p up to 2^32 nothing wraps and
   * it is the value of the limbs modulo p. p = 0 is a division by zero and is excluded.
   */
  method BignumMod(a: seq<U32>, p: U64) returns (r: U64)
    requires p >= 1
    ensures r < p
    ensures p <= TwoTo32 ==> r == Value(a, TwoTo32) % p
  {
    r := 0;
    var basePow: U64 := 1;
    var base: U64 := TwoTo32 % p;
    var i := 0;
    TracksStart(a, p, TwoTo32);
    while i < |a|
      invariant i <= |a| && r < p && Tracks(a, i, r, basePow, p, TwoTo32)
    {
      var term := MulU64(a[i] % p, basePow);
      var sum := AddU64(r, term);
      var weight := MulU64(basePow, base);
      ModLoopStep(a, i, r, basePow, term, sum, weight, p, TwoTo32, TwoTo64);
      r := sum % p;
      basePow := weight % p;
      i := i + 1;
    }
    TracksEnd(a, r, basePow, p, TwoTo32);
  }

  /** Before the first limb: result 0 and weight 1 = base^0. */
  lemma TracksStart(a: seq<nat>, p: nat, base: nat)
    requires p >= 1 && base >= 2
    ensures Tracks(a, 0, 0, 1, p, base)
  {
    if p <= base {
      assert a[..0] == [];
    }
  }

  /** After the last limb the result is the residue of the whole string. */
  lemma TracksEnd(a: seq<nat>, r: nat, bp: nat, p: nat, base: nat)
    requires Tracks(a, |a|, r, bp, p, base)
    ensures p <= base ==> r == Value(a, base) % p
  {
    assert a[..|a|] == a;
  }

  /**
   * `mulmod(a, b, p)`: the product is formed in 128 bits, where it cannot wrap, and reduced
   * modulo p (p = 0 is a division by zero and is excluded).
   */
  function MulMod(a: U64, b: U64, p: U64): (r: U64)
    requires p >= 1
    ensures r < p
  {
    WideProductFits(a, b);
    (a * b) % p
  }

  /** Two 64-bit operands multiply to less than 2^128. */
  lemma WideProductFits(a: U64, b: U64)
    ensures a * b < TwoTo128
  {
    MulStrict(a, b, TwoTo64, TwoTo64);
  }

  /** mulmod of two residues is the residue of the product. */
  lemma MulModOfResidues(x: nat, y: nat, p: U64)
    requires p >= 1
    ensures MulMod(x % p, y % p, p) == (x * y) % p
  {
    ModMul(x, y, p);
  }

  /**
   * The comparison of the large cases: when the product buffer holds Value(a) * Value(b)
   * and only zero limbs lie above rlen, the residue of the trimmed buffer equals mulmod of
   * the residues of the factors, for every modulus p.
   */
  lemma ModularCheckSound(a: seq<U32>, b: seq<U32>, result: seq<U32>, rlen: nat, p: U64)
    requires p >= 1 && rlen <= |result|
    requires Value(result, TwoTo32) == Value(a, TwoTo32) * Value(b, TwoTo32)
    requires forall i :: rlen <= i < |result| ==> result[i] == 0
    ensures Value(result[..rlen], TwoTo32) % p
         == MulMod(Value(a, TwoTo32) % p, Value(b, TwoTo32) % p, p)
  {
    TrimKeepsResidue(result, rlen, p);
    MulModOfResidues(Value(a, TwoTo32), Value(b, TwoTo32), p);
  }
}
