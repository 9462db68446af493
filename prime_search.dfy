/**
 * The prime search of tools/find_primes.py: primes p = c * 2^n * k + 1 whose bit length
 * lies in a range, each reported with the factorization of p - 1 (assembled from the
 * factors of 2^n, c and k), a primitive root and the largest transform sizes it supports.
 *
 * The three number-theory routines the script borrows (`isprime`, `factorint`,
 * `primitive_root`) are parameters: `factorint` is required to return a correct
 * factorization, the other two are taken as they answer. What the script prints is
 * returned as an `Outcome`.
 */
module PrimeSearch {
  import opened Powers
  import opened FactorDict
  import NttCommon

  /** The number-theory routines the search calls. */
  datatype Sympy = Sympy(isprime: int -> bool, factorint: nat -> Dict, primitiveRoot: int -> int)

  /** `factorint(m)` is the prime factorization of m for every m >= 2. */
  ghost predicate FactorintCorrect(sympy: Sympy)
  {
    forall m: nat :: m >= 2 ==> IsFactorization(sympy.factorint(m), m)
  }

  /** Python's exceptions on bad parameters: `1 << s` with s < 0, and `// 0`. */
  datatype Error = NegativeShiftCount | DivisionByZero

  /** A transform length radix * 2^log2. */
  datatype NttSize = NttSize(radix: nat, log2: nat)

  /** One reported prime. */
  datatype Found = Found(p: int, k: nat, factors: Dict, root: int, sizes: seq<NttSize>)

  datatype Outcome =
    | Raised(error: Error)
    | NoCandidates(base: int, kMin: int, kMax: int)
    | Searched(primes: seq<Found>)

  function Max(a: int, b: int): int { if a >= b then a else b }
  function Min(a: int, b: int): int { if a <= b then a else b }

  /** Python's `a // b`, which rounds toward minus infinity. */
  function FloorDiv(a: int, b: int): (q: int)
    requires b != 0
    ensures b > 0 ==> b * q <= a < b * q + b
    ensures b < 0 ==> b * q + b < a <= b * q
  {
    if b > 0 || a % b == 0 then a / b else a / b - 1
  }

  /** The parameters for which the range computation raises nothing. */
  predicate ValidParameters(c: int, n: int, minBits: int, maxBits: int)
  {
    n >= 0 && minBits >= 1 && c != 0 && maxBits >= 0
  }

  /** The exception raised first, in Python's evaluation order. */
  function ErrorOf(c: int, n: int, minBits: int, maxBits: int): Error
  {
    if n < 0 || minBits < 1 then NegativeShiftCount
    else if c == 0 then DivisionByZero
    else NegativeShiftCount
  }

  function KMin(base: int, minBits: nat): int
    requires base != 0 && minBits >= 1
  {
    Max(1, FloorDiv(Pow(2, minBits - 1) - 1, base) + 1)
  }

  function KMax(base: int, maxBits: nat): int
    requires base != 0
  {
    FloorDiv(Pow(2, maxBits) - 1, base)
  }

  /** The k for which base * k + 1 passes the primality oracle, in increasing order. */
  function CandidateKs(base: nat, lo: nat, hi: int, isprime: int -> bool): seq<nat>
    decreases hi - lo
  {
    if hi < lo then []
    else CandidateKs(base, lo, hi - 1, isprime) + (if isprime(base * hi + 1) then [hi] else [])
  }

  /** The values handed to the primality oracle while k runs from lo to hi. */
  function Probes(base: nat, lo: nat, hi: int): seq<int>
    decreases hi - lo
  {
    if hi < lo then [] else Probes(base, lo, hi - 1) + [base * hi + 1]
  }

  /** The factorization of p - 1 = c * 2^n * k the script assembles: 2^n first, then the
   *  factors of c, then those of k. */
  function FactorsOfPm1(c: int, n: nat, k: nat, factorint: nat -> Dict): Dict
  {
    var cFactors := if c > 1 then factorint(c) else [];
    var kFactors := if k > 1 then factorint(k) else [];
    Merged(Merged([(2, n)], cFactors), kFactors)
  }

  /** The transform sizes listed for exponents v2, v3, v5 of 2, 3 and 5 in p - 1. */
  function NttSizes(v2: nat, v3: nat, v5: nat): seq<NttSize>
  {
    (if v2 >= 8 then [NttSize(1, v2)] else [])
    + (if v3 >= 1 && v2 >= 8 then [NttSize(3, v2)] else [])
    + (if v5 >= 1 && v2 >= 8 then [NttSize(5, v2)] else [])
  }

  /** A transform length: radix * 2^log2. */
  function SizeLength(s: NttSize): (len: nat)
    ensures s.radix >= 1 ==> len >= 1
  {
    var x := Pow(2, s.log2);
    if s.radix >= 1 then MulLe(x, 1, s.radix); s.radix * x else s.radix * x
  }

  /** What the script prints for the candidate k: p, the factorization of p - 1, the
   *  primitive root and the transform sizes. */
  ghost function Report(base: nat, c: int, n: nat, k: nat, sympy: Sympy): Found
  {
    var p := base * k + 1;
    var d := FactorsOfPm1(c, n, k, sympy.factorint);
    Found(p, k, d, sympy.primitiveRoot(p), NttSizes(Get(d, 2), Get(d, 3), Get(d, 5)))
  }

  /** f is the report of a candidate whose p passed the primality test. */
  ghost predicate Reported(f: Found, base: nat, c: int, n: nat, sympy: Sympy)
  {
    f == Report(base, c, n, f.k, sympy) && sympy.isprime(f.p)
  }

  /** The last k the loop looks at: the k of the last prime when the count was reached,
   *  otherwise the end of the range. */
  function LastProbed(primes: seq<Found>, count: int, kMax: int): int
  {
    if |primes| > 0 && |primes| == Max(count, 1) then primes[|primes| - 1].k else kMax
  }

  /** The k of each reported prime, in order. */
  function Ks(primes: seq<Found>): seq<nat>
    decreases |primes|
  {
    if primes == [] then [] else Ks(primes[..|primes| - 1]) + [primes[|primes| - 1].k]
  }

  ghost predicate AllReported(primes: seq<Found>, base: nat, c: int, n: nat, sympy: Sympy)
    decreases |primes|
  {
    primes == [] ||
    (AllReported(primes[..|primes| - 1], base, c, n, sympy) && Reported(primes[|primes| - 1], base, c, n, sympy))
  }

  lemma {:induction false} KsIndex(primes: seq<Found>)
    ensures |Ks(primes)| == |primes|
    ensures forall i :: 0 <= i < |primes| ==> primes[i].k == Ks(primes)[i]
    decreases |primes|
  {
    if primes != [] {
      KsIndex(primes[..|primes| - 1]);
    }
  }

  lemma {:induction false} AllReportedIndex(primes: seq<Found>, base: nat, c: int, n: nat, sympy: Sympy)
    requires AllReported(primes, base, c, n, sympy)
    ensures forall i :: 0 <= i < |primes| ==> Reported(primes[i], base, c, n, sympy)
  {
    forall i | 0 <= i < |primes|
      ensures Reported(primes[i], base, c, n, sympy)
    {
      AllReportedAt(primes, i, base, c, n, sympy);
    }
  }

  /** The i-th report of an all-reported list is a report. */
  lemma {:induction false} AllReportedAt(primes: seq<Found>, i: nat, base: nat, c: int, n: nat, sympy: Sympy)
    requires AllReported(primes, base, c, n, sympy) && i < |primes|
    ensures Reported(primes[i], base, c, n, sympy)
    decreases |primes|
  {
    var init := primes[..|primes| - 1];
    if i < |init| {
      AllReportedAt(init, i, base, c, n, sympy);
      assert primes[i] == init[i];
    }
  }

  // The k range

  /** kMin and kMax are the ends of the k range: the least k with base * k >= 2^(minBits-1)
   *  and the greatest k with base * k < 2^maxBits. */
  lemma KRange(base: nat, minBits: nat, maxBits: nat)
    requires base >= 1 && minBits >= 1
    ensures KMin(base, minBits) >= 1
    ensures base * KMin(base, minBits) >= Pow(2, minBits - 1)
    ensures KMin(base, minBits) > 1 ==> base * (KMin(base, minBits) - 1) < Pow(2, minBits - 1)
    ensures base * KMax(base, maxBits) < Pow(2, maxBits) <= base * (KMax(base, maxBits) + 1)
  {
    var t := Pow(2, minBits - 1);
    var q := FloorDiv(t - 1, base);
    assert base * q + base > t - 1 >= 0;
    assert base * (q + 1) == base * q + base;
    if q < 0 {
      MulLe(base, q, -1);
    }
    assert KMin(base, minBits) == q + 1;
    var h := KMax(base, maxBits);
    assert base * (h + 1) == base * h + base;
  }

  /** A k >= 1 lies in [kMin, kMax] exactly when p = base * k + 1 satisfies
   *  2^(minBits-1) < p <= 2^maxBits. */
  lemma KRangeIff(base: nat, minBits: nat, maxBits: nat, k: int)
    requires base >= 1 && minBits >= 1 && k >= 1
    ensures KMin(base, minBits) <= k <= KMax(base, maxBits)
        <==> Pow(2, minBits - 1) <= base * k < Pow(2, maxBits)
  {
    KRange(base, minBits, maxBits);
    var lo, hi := KMin(base, minBits), KMax(base, maxBits);
    if lo <= k {
      MulLe(base, lo, k);
    } else {
      MulLe(base, k, lo - 1);
    }
    if k <= hi {
      MulLe(base, k, hi);
    } else {
      MulLe(base, hi + 1, k);
    }
  }

  /** The range bound admits p = 2^maxBits: the search for c = 1, n = 0 and one-bit primes
   *  reaches p = 2, a two-bit number. */
  lemma RangeAdmitsPowerOfTwo()
    ensures KMin(1, 1) == 1 && KMax(1, 1) == 1
  {
    assert Pow(2, 0) == 1;
    assert FloorDiv(0, 1) == 0;
    assert Pow(2, 1) == 2;
    assert FloorDiv(1, 1) == 1;
  }

  /** A negative c always gives an empty range under floor division. */
  lemma NegativeCofactorEmpty(c: int, n: nat, minBits: nat, maxBits: nat)
    requires c < 0 && minBits >= 1
    ensures KMax(c * Pow(2, n), maxBits) < KMin(c * Pow(2, n), minBits)
  {
    NegativeTimesPositive(c, Pow(2, n));
    NegativeBaseEmpty(c * Pow(2, n), minBits, maxBits);
  }

  lemma NegativeTimesPositive(c: int, t: int)
    requires c < 0 && t >= 1
    ensures c * t < 0
  {
    MulLe(t, c, -1);
  }

  lemma NegativeBaseEmpty(base: int, minBits: nat, maxBits: nat)
    requires base < 0 && minBits >= 1
    ensures KMax(base, maxBits) < KMin(base, minBits)
  {
    var a := Pow(2, maxBits) - 1;
    var q := FloorDiv(a, base);
    assert base * q >= a >= 0;
    NonPositiveQuotient(base, q);
  }

  lemma NonPositiveQuotient(b: int, q: int)
    requires b < 0 && b * q >= 0
    ensures q <= 0
  {
  }

  // Candidates and probes

  /** The candidates are exactly the k in [lo, hi] whose p passes the oracle, increasing. */
  lemma {:induction false} CandidateKsMembers(base: nat, lo: nat, hi: int, isprime: int -> bool)
    ensures forall k :: k in CandidateKs(base, lo, hi, isprime) <==> lo <= k <= hi && isprime(base * k + 1)
    ensures NttCommon.StrictlyIncreasing(CandidateKs(base, lo, hi, isprime))
    ensures forall i :: 0 <= i < |CandidateKs(base, lo, hi, isprime)| ==> CandidateKs(base, lo, hi, isprime)[i] <= hi
    decreases hi - lo
  {
    if hi >= lo {
      CandidateKsMembers(base, lo, hi - 1, isprime);
    }
  }

  /** Stopping early at mid sees a prefix of the candidates of the whole range. */
  lemma {:induction false} CandidateKsPrefix(base: nat, lo: nat, mid: int, hi: int, isprime: int -> bool)
    requires lo - 1 <= mid <= hi
    ensures |CandidateKs(base, lo, mid, isprime)| <= |CandidateKs(base, lo, hi, isprime)|
    ensures CandidateKs(base, lo, mid, isprime)
         == CandidateKs(base, lo, hi, isprime)[..|CandidateKs(base, lo, mid, isprime)|]
    decreases hi - mid
  {
    if mid < hi {
      CandidateKsPrefix(base, lo, mid, hi - 1, isprime);
    }
  }

  lemma {:induction false} ProbesMembers(base: nat, lo: nat, hi: int)
    ensures |Probes(base, lo, hi)| == Max(hi - lo + 1, 0)
    ensures forall i :: 0 <= i < |Probes(base, lo, hi)| ==> Probes(base, lo, hi)[i] == base * (lo + i) + 1
    decreases hi - lo
  {
    if hi >= lo {
      ProbesMembers(base, lo, hi - 1);
    }
  }

  // The factorization of p - 1

  /** The factors the script uses for m >= 1: `factorint(m)` for m > 1, else the empty dict. */
  lemma FactorsOf(m: nat, sympy: Sympy)
    requires FactorintCorrect(sympy) && m >= 1
    ensures var d := if m > 1 then sympy.factorint(m) else [];
      DistinctKeys(d) && PrimeKeys(d) && Product(d) == m
  {
    if m > 1 {
      assert IsFactorization(sympy.factorint(m), m);
    }
  }

  /** The assembled dict is a factorization of c * 2^n * k: the product is exact, the keys
   *  are distinct primes, and each exponent is the sum of its exponents in 2^n, c and k. */
  lemma FactorsOfPm1Correct(c: int, n: nat, k: nat, sympy: Sympy, g: nat)
    requires FactorintCorrect(sympy) && c >= 1 && k >= 1
    ensures Product(FactorsOfPm1(c, n, k, sympy.factorint)) == c * Pow(2, n) * k
    ensures DistinctKeys(FactorsOfPm1(c, n, k, sympy.factorint))
    ensures PrimeKeys(FactorsOfPm1(c, n, k, sympy.factorint))
    ensures Get(FactorsOfPm1(c, n, k, sympy.factorint), g)
         == (if g == 2 then n else 0)
          + Get(if c > 1 then sympy.factorint(c) else [], g)
          + Get(if k > 1 then sympy.factorint(k) else [], g)
  {
    var cf: Dict := if c > 1 then sympy.factorint(c) else [];
    var kf: Dict := if k > 1 then sympy.factorint(k) else [];
    FactorsOf(c, sympy);
    FactorsOf(k, sympy);
    var start: Dict := [(2, n)];
    var mid := Merged(start, cf);
    assert Product(start) == Pow(2, n) * 1 && DistinctKeys(start);
    assert IsPrime(2) && KeySet(start) == {2};
    MergedProduct(start, cf);
    MergedProduct(mid, kf);
    var t := Pow(2, n);
    assert Product(mid) == t * c;
    assert t * c == c * t;
    assert Product(Merged(mid, kf)) == (c * t) * k;
    MergedKeys(start, cf);
    MergedKeys(mid, kf);
    MergedPrimeKeys(start, cf);
    MergedPrimeKeys(mid, kf);
    MergedGet(start, cf, g);
    MergedGet(mid, kf, g);
  }

  /** The exponent of 2 in the factorization is the number of trailing zero bits of p - 1. */
  lemma TwoExponentIsTrailingZeros(d: Dict, p: nat)
    requires DistinctKeys(d) && PrimeKeys(d) && Product(d) == p - 1 && p >= 2
    ensures Get(d, 2) == NttCommon.TrailingZeros(p - 1)
  {
    TwoAdicValuation(d);
    NttCommon.TrailingZerosUnique(p - 1, Get(d, 2));
  }

  /** Every listed size divides p - 1 and uses the full power of 2 in p - 1; one is listed
   *  exactly when 2^8 divides p - 1, and then 3 * 2^v2 (5 * 2^v2) exactly when 3 (5)
   *  divides p - 1; radices come in the order 1, 3, 5. */
  lemma NttSizesCorrect(d: Dict, p: nat)
    requires DistinctKeys(d) && PrimeKeys(d) && Product(d) == p - 1 && p >= 2
    ensures var sizes := NttSizes(Get(d, 2), Get(d, 3), Get(d, 5));
      && (forall s :: s in sizes ==>
            s.log2 == NttCommon.TrailingZeros(p - 1) && s.radix in {1, 3, 5}
            && (p - 1) % SizeLength(s) == 0)
      && (|sizes| > 0 <==> NttCommon.TrailingZeros(p - 1) >= 8)
      && (|sizes| > 0 ==> sizes[0].radix == 1)
      && (NttSize(3, Get(d, 2)) in sizes <==> NttCommon.TrailingZeros(p - 1) >= 8 && (p - 1) % 3 == 0)
      && (NttSize(5, Get(d, 2)) in sizes <==> NttCommon.TrailingZeros(p - 1) >= 8 && (p - 1) % 5 == 0)
      && (forall i, j :: 0 <= i < j < |sizes| ==> sizes[i].radix < sizes[j].radix)
  {
    TwoExponentIsTrailingZeros(d, p);
    TwoAdicValuation(d);
    var x := Pow(2, Get(d, 2));
    assert 1 * x == x;
    DivisibleIff(d, 3);
    DivisibleIff(d, 5);
    if Get(d, 3) >= 1 {
      OddTimesTwoPowerDivides(d, 3);
    }
    if Get(d, 5) >= 1 {
      OddTimesTwoPowerDivides(d, 5);
    }
  }

  /** A report is sound: its factor dict is a factorization of p - 1 into distinct primes,
   *  the two-exponent is the trailing-zero count of p - 1, and every listed size divides
   *  p - 1, the list being nonempty exactly when 2^8 divides p - 1. */
  lemma ReportedCorrect(f: Found, base: nat, c: int, n: nat, sympy: Sympy)
    requires FactorintCorrect(sympy) && c >= 1 && f.k >= 1 && base == c * Pow(2, n)
    requires Reported(f, base, c, n, sympy)
    ensures f.p == base * f.k + 1
    ensures DistinctKeys(f.factors) && PrimeKeys(f.factors) && Product(f.factors) == f.p - 1
    ensures Get(f.factors, 2) == NttCommon.TrailingZeros(f.p - 1)
    ensures forall s :: s in f.sizes ==> (f.p - 1) % SizeLength(s) == 0
    ensures |f.sizes| > 0 <==> NttCommon.TrailingZeros(f.p - 1) >= 8
  {
    var d, p, t := f.factors, f.p, Pow(2, n);
    assert d == FactorsOfPm1(c, n, f.k, sympy.factorint) && p == base * f.k + 1;
    assert f.sizes == NttSizes(Get(d, 2), Get(d, 3), Get(d, 5));
    FactorsOfPm1Correct(c, n, f.k, sympy, 2);
    assert c * t * f.k == base * f.k;
    MulLe(t, 1, c);
    MulLe(base, 1, f.k);
    assert p >= 2;
    TwoExponentIsTrailingZeros(d, p);
    NttSizesCorrect(d, p);
  }

  // A worked example

  /**
   * The search for 14-bit primes of the form 3 * 2^12 * k + 1 has the single candidate
   * k = 1, and reports 12289 with p - 1 = 2^12 * 3 and the sizes 2^12 and 3 * 2^12.
   */
  lemma Example12289(sympy: Sympy)
    requires sympy.isprime(12289) && sympy.factorint(3) == [(3, 1)]
    ensures KMin(3 * Pow(2, 12), 14) == 1 && KMax(3 * Pow(2, 12), 14) == 1
    ensures CandidateKs(3 * Pow(2, 12), 1, 1, sympy.isprime) == [1]
    ensures Report(3 * Pow(2, 12), 3, 12, 1, sympy)
         == Found(12289, 1, [(2, 12), (3, 1)], sympy.primitiveRoot(12289),
                  [NttSize(1, 12), NttSize(3, 12)])
  {
    assert Pow(2, 12) == 4096 by {
      PowAdd(2, 6, 6);
      assert Pow(2, 6) == 64;
    }
    assert Pow(2, 13) == 8192 by {
      PowAdd(2, 12, 1);
    }
    assert Pow(2, 14) == 16384 by {
      PowAdd(2, 12, 2);
    }
    var d := FactorsOfPm1(3, 12, 1, sympy.factorint);
    assert Merged([(2, 12)], [(3, 1)]) == [(2, 12), (3, 1)];
    assert d == [(2, 12), (3, 1)];
  }

  /**
   * The search for 6- to 8-bit primes of the form 2^4 * k + 1 runs k over [2, 15]. Its
   * first prime is 97 at k = 6. There the exponent of 2 comes from both 2^4 and
   * factorint(6), so p - 1 = 2^5 * 3, and no transform size is listed.
   */
  lemma Example97(sympy: Sympy)
    requires !sympy.isprime(33) && !sympy.isprime(49) && !sympy.isprime(65) && !sympy.isprime(81)
    requires sympy.isprime(97) && sympy.factorint(6) == [(2, 1), (3, 1)]
    ensures 1 * Pow(2, 4) == 16
    ensures KMin(16, 6) == 2 && KMax(16, 8) == 15
    ensures CandidateKs(16, 2, 6, sympy.isprime) == [6]
    ensures |CandidateKs(16, 2, 15, sympy.isprime)| >= 1 && CandidateKs(16, 2, 15, sympy.isprime)[0] == 6
    ensures Report(16, 1, 4, 6, sympy) == Found(97, 6, [(2, 5), (3, 1)], sympy.primitiveRoot(97), [])
  {
    Range97(sympy.isprime);
    Dict97(sympy.factorint);
  }

  /** The k range of the 97 example and its first candidate. */
  lemma Range97(isprime: int -> bool)
    requires !isprime(33) && !isprime(49) && !isprime(65) && !isprime(81) && isprime(97)
    ensures 1 * Pow(2, 4) == 16
    ensures KMin(16, 6) == 2 && KMax(16, 8) == 15
    ensures CandidateKs(16, 2, 6, isprime) == [6]
    ensures |CandidateKs(16, 2, 15, isprime)| >= 1 && CandidateKs(16, 2, 15, isprime)[0] == 6
  {
    assert Pow(2, 4) == 16;
    assert Pow(2, 5) == 32;
    assert Pow(2, 8) == 256 by {
      PowAdd(2, 4, 4);
    }
    assert CandidateKs(16, 2, 5, isprime) == [] by {
      assert CandidateKs(16, 2, 1, isprime) == [];
      assert CandidateKs(16, 2, 2, isprime) == [];
      assert CandidateKs(16, 2, 3, isprime) == [];
      assert CandidateKs(16, 2, 4, isprime) == [];
    }
    CandidateKsPrefix(16, 2, 6, 15, isprime);
  }

  /** The dict of p - 1 = 96 in the 97 example: the key 2 is merged from 2^4 and 2^1. */
  lemma Dict97(factorint: nat -> Dict)
    requires factorint(6) == [(2, 1), (3, 1)]
    ensures FactorsOfPm1(1, 4, 6, factorint) == [(2, 5), (3, 1)]
  {
    assert Merged([(2, 4)], []) == [(2, 4)];
    assert Merged([(2, 4)], [(2, 1), (3, 1)]) == [(2, 5), (3, 1)] by {
      assert Set([(2, 4)], 2, 5) == [(2, 5)];
      assert Set([(2, 5)], 3, 1) == [(2, 5), (3, 1)];
    }
  }

  /**
   * The search for 6-bit primes of the form 15 * 2^2 * k + 1 has the single candidate
   * k = 1 and reports 61, with p - 1 = 2^2 * 3 * 5 and no transform size.
   */
  lemma Example61(sympy: Sympy)
    requires sympy.isprime(61) && sympy.factorint(15) == [(3, 1), (5, 1)]
    ensures 15 * Pow(2, 2) == 60
    ensures KMin(60, 6) == 1 && KMax(60, 6) == 1
    ensures CandidateKs(60, 1, 1, sympy.isprime) == [1]
    ensures FactorsOfPm1(15, 2, 1, sympy.factorint) == [(2, 2), (3, 1), (5, 1)]
    ensures Report(60, 15, 2, 1, sympy) == Found(61, 1, [(2, 2), (3, 1), (5, 1)], sympy.primitiveRoot(61), [])
  {
    Range61(sympy.isprime);
    Dict61(sympy.factorint);
  }

  /** The k range of the 61 example. */
  lemma Range61(isprime: int -> bool)
    requires isprime(61)
    ensures 15 * Pow(2, 2) == 60
    ensures KMin(60, 6) == 1 && KMax(60, 6) == 1
    ensures CandidateKs(60, 1, 1, isprime) == [1]
  {
    assert Pow(2, 2) == 4;
    assert Pow(2, 5) == 32;
    assert Pow(2, 6) == 64;
  }

  /** The dict of p - 1 = 60 in the 61 example. */
  lemma Dict61(factorint: nat -> Dict)
    requires factorint(15) == [(3, 1), (5, 1)]
    ensures FactorsOfPm1(15, 2, 1, factorint) == [(2, 2), (3, 1), (5, 1)]
  {
    assert Merged([(2, 2)], [(3, 1), (5, 1)]) == [(2, 2), (3, 1), (5, 1)] by {
      assert Set([(2, 2)], 3, 1) == [(2, 2), (3, 1)];
      assert Set([(2, 2), (3, 1)], 5, 1) == [(2, 2), (3, 1), (5, 1)];
    }
  }

  // The search

  /** `for f, e in src.items(): d[f] = d.get(f, 0) + e`. */
  method MergeFactors(d: Dict, src: Dict) returns (r: Dict)
    ensures r == Merged(d, src)
  {
    r := d;
    var i := 0;
    while i < |src|
      invariant 0 <= i <= |src|
      invariant Merged(r, src[i..]) == Merged(d, src)
    {
      var f, e := src[i].0, src[i].1;
      assert src[i..][1..] == src[i + 1..];
      r := Set(r, f, Get(r, f) + e);
      i := i + 1;
    }
  }

  /** `check = 1; for f, e in d.items(): check *= f ** e`. */
  method FactorProduct(d: Dict) returns (check: nat)
    ensures check == Product(d)
  {
    check := 1;
    var i := 0;
    while i < |d|
      invariant 0 <= i <= |d|
      invariant check * Product(d[i..]) == Product(d)
    {
      var f, e := d[i].0, d[i].1;
      assert d[i..][1..] == d[i + 1..];
      MulRotate(check, Pow(f, e), Product(d[i + 1..]));
      check := check * Pow(f, e);
      i := i + 1;
    }
  }

  /** The loop body for a k whose p passed the primality test. */
  method Describe(c: int, n: nat, base: nat, k: nat, p: int, cFactors: Dict, sympy: Sympy)
    returns (f: Found)
    requires FactorintCorrect(sympy) && c >= 1 && k >= 1 && base == c * Pow(2, n)
    requires p == base * k + 1 && sympy.isprime(p)
    requires cFactors == if c > 1 then sympy.factorint(c) else []
    ensures f.k == k && Reported(f, base, c, n, sympy)
  {
    var pm1: Dict := [(2, n)];
    pm1 := MergeFactors(pm1, cFactors);
    var kFactors := if k > 1 then sympy.factorint(k) else [];
    pm1 := MergeFactors(pm1, kFactors);
    var g := sympy.primitiveRoot(p);
    var check := FactorProduct(pm1);
    FactorsOfPm1Correct(c, n, k, sympy, 2);
    assert check == p - 1;
    var v2, v3, v5 := Get(pm1, 2), Get(pm1, 3), Get(pm1, 5);
    var sizes: seq<NttSize> := [];
    if v2 >= 8 {
      sizes := sizes + [NttSize(1, v2)];
    }
    ghost var s1 := sizes;
    if v3 >= 1 && v2 >= 8 {
      sizes := sizes + [NttSize(3, v2)];
    }
    ghost var s2 := sizes;
    if v5 >= 1 && v2 >= 8 {
      sizes := sizes + [NttSize(5, v2)];
    }
    assert sizes == s2 + (if v5 >= 1 && v2 >= 8 then [NttSize(5, v2)] else []);
    assert s2 == s1 + (if v3 >= 1 && v2 >= 8 then [NttSize(3, v2)] else []);
    assert s1 == (if v2 >= 8 then [NttSize(1, v2)] else []);
    f := Found(p, k, pm1, g, sizes);
  }

  /** `find_primes(c, n, count, min_bits, max_bits)`. The ghost `probed` lists every value
   *  given to the primality test, in order. */
  method FindPrimes(c: int, n: int, count: int, minBits: int, maxBits: int, sympy: Sympy)
    returns (out: Outcome, ghost probed: seq<int>)
    requires FactorintCorrect(sympy)
    ensures out.Raised? <==> !ValidParameters(c, n, minBits, maxBits)
    ensures out.Raised? ==> out.error == ErrorOf(c, n, minBits, maxBits)
    ensures !out.Raised? ==> ValidParameters(c, n, minBits, maxBits)
    ensures out.NoCandidates? <==>
      ValidParameters(c, n, minBits, maxBits)
      && KMax(c * Pow(2, n), maxBits) < KMin(c * Pow(2, n), minBits)
    ensures out.NoCandidates? ==>
      out == NoCandidates(c * Pow(2, n), KMin(c * Pow(2, n), minBits), KMax(c * Pow(2, n), maxBits))
    ensures !out.Searched? ==> probed == []
    ensures out.Searched? ==> c >= 1 && KMin(c * Pow(2, n), minBits) <= KMax(c * Pow(2, n), maxBits)
    ensures out.Searched? ==>
      var base := c * Pow(2, n);
      var kMin, kMax := KMin(base, minBits), KMax(base, maxBits);
      var cands := CandidateKs(base, kMin, kMax, sympy.isprime);
      && |out.primes| == Min(Max(count, 1), |cands|)
      && (forall i :: 0 <= i < |out.primes| ==>
            out.primes[i].k == cands[i] && Reported(out.primes[i], base, c, n, sympy))
      && probed == Probes(base, kMin, LastProbed(out.primes, count, kMax))
    ensures out.Searched? ==>
      && minBits >= 1 && maxBits >= 0
      && (forall i :: 0 <= i < |out.primes| ==> Pow(2, minBits - 1) < out.primes[i].p <= Pow(2, maxBits))
      && (forall i, j :: 0 <= i < j < |out.primes| ==> out.primes[i].p < out.primes[j].p)
  {
    probed := [];
    if n < 0 {
      return Raised(NegativeShiftCount), probed;
    }
    var base := c * Pow(2, n);
    if minBits < 1 {
      return Raised(NegativeShiftCount), probed;
    }
    if base == 0 {
      return Raised(DivisionByZero), probed;
    }
    var kMin := KMin(base, minBits);
    if maxBits < 0 {
      return Raised(NegativeShiftCount), probed;
    }
    var kMax := KMax(base, maxBits);
    if kMax < kMin {
      return NoCandidates(base, kMin, kMax), probed;
    }
    if c < 0 {
      NegativeCofactorEmpty(c, n, minBits, maxBits);
    }
    var cFactors := if c > 1 then sympy.factorint(c) else [];
    var primes;
    primes, probed := Search(c, n, count, base, kMin, kMax, cFactors, sympy);
    SearchFindsFirstCandidates(base, kMin, kMax, count, primes, c, n, sympy);
    ReportedInWindow(base, minBits, maxBits, primes, c, n, sympy);
    out := Searched(primes);
  }

  /** The primes a search stopping at LastProbed reports are the first min(max(count, 1), N)
   *  of the N candidates of the whole range. */
  lemma SearchFindsFirstCandidates(base: nat, kMin: nat, kMax: int, count: int, primes: seq<Found>,
                                   c: int, n: nat, sympy: Sympy)
    requires AllReported(primes, base, c, n, sympy) && |primes| <= Max(count, 1)
    requires kMin <= LastProbed(primes, count, kMax) <= kMax
    requires Ks(primes) == CandidateKs(base, kMin, LastProbed(primes, count, kMax), sympy.isprime)
    ensures var cands := CandidateKs(base, kMin, kMax, sympy.isprime);
      && |primes| == Min(Max(count, 1), |cands|)
      && (forall i :: 0 <= i < |primes| ==>
            primes[i].k == cands[i] && Reported(primes[i], base, c, n, sympy))
  {
    KsIndex(primes);
    AllReportedIndex(primes, base, c, n, sympy);
    CandidateKsPrefix(base, kMin, LastProbed(primes, count, kMax), kMax, sympy.isprime);
  }

  /** When base * lo >= low and base * hi < high, every candidate's p = base * k + 1
   *  satisfies low < p <= high, and later candidates have larger p. */
  lemma CandidatesBetween(base: nat, lo: nat, hi: int, isprime: int -> bool, low: int, high: int)
    requires base >= 1 && base * lo >= low && base * hi < high
    ensures var cands := CandidateKs(base, lo, hi, isprime);
      && (forall i :: 0 <= i < |cands| ==> low < base * cands[i] + 1 <= high)
      && (forall i, j :: 0 <= i < j < |cands| ==> base * cands[i] + 1 < base * cands[j] + 1)
  {
    var cands := CandidateKs(base, lo, hi, isprime);
    CandidateKsMembers(base, lo, hi, isprime);
    forall i | 0 <= i < |cands|
      ensures low < base * cands[i] + 1 <= high
    {
      assert cands[i] in cands;
      MulLe(base, lo, cands[i]);
      MulLe(base, cands[i], hi);
    }
    forall i, j | 0 <= i < j < |cands|
      ensures base * cands[i] + 1 < base * cands[j] + 1
    {
      MulLe(base, cands[i] + 1, cands[j]);
      assert base * (cands[i] + 1) == base * cands[i] + base;
    }
  }

  /** Every candidate's p = base * k + 1 lies in the bit window 2^(minBits-1) < p <= 2^maxBits,
   *  and later candidates have larger p. */
  lemma CandidatesInWindow(base: nat, minBits: nat, maxBits: nat, isprime: int -> bool)
    requires base >= 1 && minBits >= 1
    ensures var cands := CandidateKs(base, KMin(base, minBits), KMax(base, maxBits), isprime);
      && (forall i :: 0 <= i < |cands| ==> Pow(2, minBits - 1) < base * cands[i] + 1 <= Pow(2, maxBits))
      && (forall i, j :: 0 <= i < j < |cands| ==> base * cands[i] + 1 < base * cands[j] + 1)
  {
    KRange(base, minBits, maxBits);
    CandidatesBetween(base, KMin(base, minBits), KMax(base, maxBits), isprime,
                      Pow(2, minBits - 1), Pow(2, maxBits));
  }

  /** A report's p is base * k + 1 for its k. */
  lemma ReportedPrime(f: Found, base: nat, c: int, n: nat, sympy: Sympy)
    requires Reported(f, base, c, n, sympy)
    ensures f.p == base * f.k + 1
  {
  }

  /** The primes reported for the first candidates of the range lie in the bit window,
   *  2^(minBits-1) < p <= 2^maxBits, and they come out in strictly increasing order. */
  lemma ReportedInWindow(base: nat, minBits: nat, maxBits: nat, primes: seq<Found>,
                         c: int, n: nat, sympy: Sympy)
    requires base >= 1 && minBits >= 1
    requires var cands := CandidateKs(base, KMin(base, minBits), KMax(base, maxBits), sympy.isprime);
      && |primes| <= |cands|
      && (forall i :: 0 <= i < |primes| ==>
            primes[i].k == cands[i] && Reported(primes[i], base, c, n, sympy))
    ensures forall i :: 0 <= i < |primes| ==> Pow(2, minBits - 1) < primes[i].p <= Pow(2, maxBits)
    ensures forall i, j :: 0 <= i < j < |primes| ==> primes[i].p < primes[j].p
  {
    var cands := CandidateKs(base, KMin(base, minBits), KMax(base, maxBits), sympy.isprime);
    CandidatesInWindow(base, minBits, maxBits, sympy.isprime);
    forall i | 0 <= i < |primes|
      ensures primes[i].p == base * cands[i] + 1
    {
      ReportedPrime(primes[i], base, c, n, sympy);
    }
  }

  /** The probes up to k extend those up to k - 1 by base * k + 1. */
  lemma ProbesStep(base: nat, lo: nat, k: nat, probed: seq<int>, p: int)
    requires lo <= k && probed == Probes(base, lo, k - 1) && p == base * k + 1
    ensures probed + [p] == Probes(base, lo, k)
  {
  }

  /** One step of the search loop that reports the prime found at k. */
  lemma FoundStep(primes: seq<Found>, f: Found, base: nat, kMin: nat, k: nat, c: int, n: nat,
                  sympy: Sympy)
    requires kMin <= k && f.k == k && Reported(f, base, c, n, sympy) && sympy.isprime(base * k + 1)
    requires Ks(primes) == CandidateKs(base, kMin, k - 1, sympy.isprime)
    requires AllReported(primes, base, c, n, sympy)
    ensures Ks(primes + [f]) == CandidateKs(base, kMin, k, sympy.isprime)
    ensures AllReported(primes + [f], base, c, n, sympy)
  {
    assert (primes + [f])[..|primes|] == primes;
  }

  /** The body of the search loop for one k: the candidate p = base * k + 1 goes to the
   *  primality oracle, and a prime is described and appended. */
  method Probe(c: int, n: nat, base: nat, kMin: nat, k: nat, p: int, cFactors: Dict, sympy: Sympy,
               primes: seq<Found>)
    returns (next: seq<Found>, prime: bool)
    requires FactorintCorrect(sympy) && c >= 1 && base == c * Pow(2, n) && 1 <= kMin <= k
    requires p == base * k + 1 && cFactors == if c > 1 then sympy.factorint(c) else []
    requires Ks(primes) == CandidateKs(base, kMin, k - 1, sympy.isprime)
    requires AllReported(primes, base, c, n, sympy)
    ensures prime == sympy.isprime(p)
    ensures Ks(next) == CandidateKs(base, kMin, k, sympy.isprime)
    ensures AllReported(next, base, c, n, sympy)
    ensures if prime then |next| == |primes| + 1 && next[|primes|].k == k else next == primes
  {
    next := primes;
    prime := sympy.isprime(p);
    if prime {
      var f := Describe(c, n, base, k, p, cFactors, sympy);
      FoundStep(primes, f, base, kMin, k, c, n, sympy);
      next := primes + [f];
    }
  }

  /** The loop over k in [kMin, kMax] of `find_primes`, stopping after the `count`-th prime
   *  (after the first one when `count <= 0`). */
  method Search(c: int, n: nat, count: int, base: nat, kMin: nat, kMax: int, cFactors: Dict, sympy: Sympy)
    returns (primes: seq<Found>, ghost probed: seq<int>)
    requires FactorintCorrect(sympy) && c >= 1 && base == c * Pow(2, n) && 1 <= kMin <= kMax
    requires cFactors == if c > 1 then sympy.factorint(c) else []
    ensures AllReported(primes, base, c, n, sympy) && |primes| <= Max(count, 1)
    ensures kMin <= LastProbed(primes, count, kMax) <= kMax
    ensures Ks(primes) == CandidateKs(base, kMin, LastProbed(primes, count, kMax), sympy.isprime)
    ensures probed == Probes(base, kMin, LastProbed(primes, count, kMax))
  {
    probed := [];
    var found := 0;
    primes := [];
    var k: nat := kMin;
    while k <= kMax
      invariant kMin <= k <= kMax + 1
      invariant Ks(primes) == CandidateKs(base, kMin, k - 1, sympy.isprime)
      invariant AllReported(primes, base, c, n, sympy)
      invariant found == |primes| < Max(count, 1)
      invariant probed == Probes(base, kMin, k - 1)
    {
      var p := base * k + 1;
      ProbesStep(base, kMin, k, probed, p);
      probed := probed + [p];
      var prime;
      primes, prime := Probe(c, n, base, kMin, k, p, cFactors, sympy, primes);
      if prime {
        found := found + 1;
        if found >= count {
          assert |primes| == Max(count, 1) && primes[|primes| - 1].k == k;
          return;
        }
      }
      k := k + 1;
    }
    assert k - 1 == kMax && LastProbed(primes, count, kMax) == kMax;
    assert probed == Probes(base, kMin, kMax);
  }
}
