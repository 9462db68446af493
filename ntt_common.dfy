/**
 * The compile-time bit helpers, the power-of-two ceiling, the table of smooth transform
 * sizes with its binary-search ceiling, and the block constants of ntt/common.hpp.
 *
 * Bit operations on unsigned values are written as the arithmetic they denote:
 * `x & 1` is `x % 2`, `x >>= 1` is `x := x / 2`, and `x & (1u << i)` is nonzero exactly
 * when `(x / 2^i) % 2 == 1`.
 */
module NttCommon {
  import opened Powers
  import opened Words

  // ---------------------------------------------------------------------------
  // Bit operations
  // ---------------------------------------------------------------------------

  /** The number of trailing zero bits of a nonzero number: x is 2^r times an odd number. */
  function TrailingZeros(x: nat): (r: nat)
    requires x > 0
    ensures x % Pow(2, r) == 0 && (x / Pow(2, r)) % 2 == 1
    decreases x
  {
    if x % 2 == 1 then 0
    else
      var r := 1 + TrailingZeros(x / 2);
      ModProduct(x, 2, Pow(2, r - 1));
      r
  }

  /** The number of trailing zero bits is the exponent of 2 in x. */
  lemma {:induction false} TrailingZerosUnique(x: nat, a: nat)
    requires x > 0 && x % Pow(2, a) == 0 && (x / Pow(2, a)) % 2 == 1
    ensures TrailingZeros(x) == a
    decreases a
  {
    var m := x / Pow(2, a);
    assert x == Pow(2, a) * m;
    if a > 0 {
      var p := Pow(2, a - 1);
      assert Pow(2, a) == 2 * p;
      MulRotate(2, p, m);
      ModUnique(x, 2, p * m, 0);
      ModUnique(x / 2, p, m, 0);
      TrailingZerosUnique(x / 2, a - 1);
    }
  }

  /** The floor of the base-2 logarithm, taken as 0 for 0 and 1. */
  function Log2(x: nat): (r: nat)
    ensures x >= 1 ==> Pow(2, r) <= x < Pow(2, r + 1)
    decreases x
  {
    if x <= 1 then 0 else 1 + Log2(x / 2)
  }

  /** The bit-length bounds determine the logarithm. */
  lemma {:induction false} Log2Unique(x: nat, r: nat)
    requires Pow(2, r) <= x < Pow(2, r + 1)
    ensures Log2(x) == r
    decreases r
  {
    if r > 0 {
      Log2Unique(x / 2, r - 1);
    }
  }

  /** A divisor of a positive number does not exceed it. */
  lemma DivisorBelow(x: nat, p: nat)
    requires x > 0 && p > 0 && x % p == 0
    ensures p <= x
  {
    var q := x / p;
    assert x == p * q;
    MulLe(p, 1, q);
  }

  /** `ctz_constexpr`: counts the low zero bits of a nonzero 32-bit value. */
  method CtzConstexpr(x: U32) returns (r: int)
    requires x != 0
    ensures 0 <= r < 32 && r == TrailingZeros(x)
    ensures x % Pow(2, r) == 0 && (x / Pow(2, r)) % 2 == 1
  {
    var y: nat := x;
    r := 0;
    while y % 2 == 0
      invariant 0 < y && 0 <= r
      invariant r + TrailingZeros(y) == TrailingZeros(x)
      decreases y
    {
      y := y / 2;
      r := r + 1;
    }
    DivisorBelow(x, Pow(2, r));
    Pow2Words();
    if r >= 32 { PowMonotone(2, 32, r); }
  }

  /** `ctzll_constexpr`: the same count for a nonzero 64-bit value. */
  method CtzllConstexpr(x: U64) returns (r: int)
    requires x != 0
    ensures 0 <= r < 64 && r == TrailingZeros(x)
    ensures x % Pow(2, r) == 0 && (x / Pow(2, r)) % 2 == 1
  {
    var y: nat := x;
    r := 0;
    while y % 2 == 0
      invariant 0 < y && 0 <= r
      invariant r + TrailingZeros(y) == TrailingZeros(x)
      decreases y
    {
      y := y / 2;
      r := r + 1;
    }
    DivisorBelow(x, Pow(2, r));
    Pow2Words();
    if r >= 64 { PowMonotone(2, 64, r); }
  }

  /** With bit i clear, a number below 2^(i+1) is below 2^i. */
  lemma BitClear(x: nat, i: nat)
    requires x < Pow(2, i + 1) && (x / Pow(2, i)) % 2 == 0
    ensures x < Pow(2, i)
  {
    var p := Pow(2, i);
    assert Pow(2, i + 1) == 2 * p;
    QuotientBelowTwo(x, p);
    assert x / p == 0;
  }

  /** With bit i set, a number is at least 2^i. */
  lemma BitSet(x: nat, i: nat)
    requires (x / Pow(2, i)) % 2 == 1
    ensures Pow(2, i) <= x
  {
    OddQuotient(x, Pow(2, i));
  }

  /**
   * `clz_constexpr`: scans the bits from 31 down and returns 31 - i for the first set
   * bit i, or 32 when none is set.
   */
  method ClzConstexpr(x: U32) returns (r: int)
    ensures x == 0 ==> r == 32
    ensures x != 0 ==> 0 <= r <= 31 && Pow(2, 31 - r) <= x < Pow(2, 32 - r)
    ensures x != 0 ==> r == 31 - Log2(x)
  {
    Pow2Words();
    var i := 31;
    while i >= 0
      invariant -1 <= i <= 31
      invariant x < Pow(2, i + 1)
    {
      if (x / Pow(2, i)) % 2 == 1 {
        BitSet(x, i);
        Log2Unique(x, i);
        return 31 - i;
      }
      BitClear(x, i);
      i := i - 1;
    }
    return 32;
  }

  /** `lg_constexpr`: halves x while it exceeds 1, counting the steps. */
  method LgConstexpr(x: U32) returns (r: int)
    ensures r == Log2(x)
    ensures x <= 1 ==> r == 0
    ensures x >= 1 ==> Pow(2, r) <= x < Pow(2, r + 1)
  {
    var y: nat := x;
    r := 0;
    while y > 1
      invariant 0 <= r && r + Log2(y) == Log2(x)
      decreases y
    {
      y := y / 2;
      r := r + 1;
    }
  }

  // ---------------------------------------------------------------------------
  // Ceil to power of 2
  // ---------------------------------------------------------------------------

  /**
   * `ceil_pow2` as written: one left shifted by one more than the runtime logarithm of
   * `(unsigned)(x - 1)`, the truncation of x - 1 to 32 bits. The runtime logarithm
   * `31 - __builtin_clz` has no defined value at 0; here it takes lg_constexpr's value 0.
   */
  function CeilPow2(x: U64): nat
  {
    if x < 2 then 1 else Pow(2, Log2((x - 1) % TwoTo32) + 1)
  }

  /** 2^(lg(m) + 1) is the least power of two strictly above m, and it is at most 2m. */
  lemma NextPowerAbove(m: nat)
    requires m >= 1
    ensures IsPowerOfTwo(Pow(2, Log2(m) + 1))
    ensures m < Pow(2, Log2(m) + 1) <= 2 * m
  {
    var e := Log2(m) + 1;
    assert Pow(2, e) == 2 * Pow(2, e - 1);
  }

  /** While x - 1 fits in 32 bits, ceil_pow2(x) is the power of two P with x <= P < 2x. */
  lemma CeilPow2Bounds(x: U64)
    ensures x < 2 ==> CeilPow2(x) == 1
    ensures 2 <= x <= TwoTo32 ==> IsPowerOfTwo(CeilPow2(x)) && x <= CeilPow2(x) < 2 * x
  {
    if 2 <= x <= TwoTo32 {
      assert (x - 1) % TwoTo32 == x - 1;
      NextPowerAbove(x - 1);
    }
  }

  /** Above 2^32 + 1 the truncation loses the high bits: 2^32 + 2 is rounded up to 2. */
  lemma CeilPow2TruncationExample()
    ensures CeilPow2(TwoTo32 + 2) == 2 < TwoTo32 + 2
  {
    assert (TwoTo32 + 1) % TwoTo32 == 1;
  }

  /**
   * The evidently intended ceiling over the whole 64-bit range: the logarithm of x - 1
   * without the truncation. The shift stays below 64 while x <= 2^63.
   */
  function CeilPow2Wide(x: U64): (r: nat)
    requires x <= 0x8000_0000_0000_0000
    ensures x < 2 ==> r == 1
    ensures x >= 2 ==> IsPowerOfTwo(r) && x <= r < 2 * x
  {
    if x < 2 then 1 else (NextPowerAbove(x - 1); Pow(2, Log2(x - 1) + 1))
  }

  /** The corrected ceiling agrees with the one as written wherever the latter is right. */
  lemma CeilPow2WideAgrees(x: U64)
    requires x <= TwoTo32
    ensures CeilPow2Wide(x) == CeilPow2(x)
  {
    if x >= 2 { assert (x - 1) % TwoTo32 == x - 1; }
  }

  // ---------------------------------------------------------------------------
  // Ceil to smooth number {4,5,6}*2^n
  // ---------------------------------------------------------------------------

  /** `SMOOTH_TABLE`, one source line per concatenated piece. */
  const SmoothTable: seq<nat> :=
    [4] +
    [8] +
    [16] +
    [32] +
    [64, 96] +
    [128, 160, 192] +
    [256, 320, 384] +
    [512, 640, 768] +
    [1024, 1280, 1536] +
    [2048, 2560, 3072] +
    [4096, 5120, 6144] +
    [8192, 10240, 12288] +
    [16384, 20480, 24576] +
    [32768, 40960, 49152] +
    [65536, 81920, 98304] +
    [131072, 163840, 196608] +
    [262144, 327680, 393216] +
    [524288, 655360, 786432] +
    [1048576, 1310720, 1572864] +
    [2097152, 2621440, 3145728] +
    [4194304, 5242880, 6291456] +
    [8388608, 10485760, 12582912] +
    [16777216, 20971520, 25165824]

  /** `SMOOTH_TABLE_SIZE`. */
  const SmoothTableSize: nat := |SmoothTable|

  /** The largest size the table offers, 3 * 2^23. */
  const MaxSmooth: nat := 25165824

  predicate StrictlyIncreasing(s: seq<nat>)
  {
    forall i, j :: 0 <= i < j < |s| ==> s[i] < s[j]
  }

  /** m * 2^j. */
  function Scaled(m: nat, j: nat): nat
  {
    m * Pow(2, j)
  }

  /** A transform size the mixed-radix code supports: m * 2^j with m in {4, 5, 6}. */
  ghost predicate IsSmoothSize(e: nat)
  {
    exists m: nat, j: nat :: 4 <= m <= 6 && e == Scaled(m, j)
  }

  /**
   * From position i on, entries come in rows (4p, 5p, 6p), and each row's first entry is
   * twice the previous row's.
   */
  predicate RowsFrom(s: seq<nat>, i: nat)
    decreases |s| - i
  {
    i + 3 > |s| ||
    (4 * s[i + 1] == 5 * s[i] && 4 * s[i + 2] == 6 * s[i]
     && (i + 3 < |s| ==> s[i + 3] == 2 * s[i])
     && RowsFrom(s, i + 3))
  }

  lemma {:induction false} RowsShape(s: seq<nat>, i: nat, j: nat)
    requires i < |s| && (|s| - i) % 3 == 0
    requires RowsFrom(s, i) && s[i] == 4 * Pow(2, j)
    ensures forall t :: i <= t < |s| ==> IsSmoothSize(s[t])
    ensures forall t :: i <= t < |s| - 1 ==> s[t] < s[t + 1]
    ensures s[|s| - 1] == 6 * Pow(2, j + (|s| - i) / 3 - 1)
    decreases |s| - i
  {
    var p := Pow(2, j);
    assert s[i] == Scaled(4, j);
    assert s[i + 1] == 5 * p == Scaled(5, j);
    assert s[i + 2] == 6 * p == Scaled(6, j);
    if i + 3 < |s| {
      assert s[i + 3] == 4 * Pow(2, j + 1);
      RowsShape(s, i + 3, j + 1);
    }
  }

  lemma {:induction false} AdjacentChain(s: seq<nat>, i: nat, j: nat)
    requires forall t :: 0 <= t < |s| - 1 ==> s[t] < s[t + 1]
    requires i < j < |s|
    ensures s[i] < s[j]
    decreases j - i
  {
    if i + 1 < j {
      AdjacentChain(s, i, j - 1);
    }
  }

  lemma IncreasingFromAdjacent(s: seq<nat>)
    requires forall t :: 0 <= t < |s| - 1 ==> s[t] < s[t + 1]
    ensures StrictlyIncreasing(s)
  {
    forall i, j | 0 <= i < j < |s| ensures s[i] < s[j] {
      AdjacentChain(s, i, j);
    }
  }

  /** The last nine rows. */
  lemma SmoothTableUpperRows()
    ensures |SmoothTable| == 60 && RowsFrom(SmoothTable, 33)
  {
    var t := SmoothTable;
    assert |t| == 60;
    assert RowsFrom(t, 57);
    assert RowsFrom(t, 54);
    assert RowsFrom(t, 51);
    assert RowsFrom(t, 48);
    assert RowsFrom(t, 45);
    assert RowsFrom(t, 42);
    assert RowsFrom(t, 39);
    assert RowsFrom(t, 36);
  }

  /** From index 6 on, the table is rows (4p, 5p, 6p) with p doubling. */
  lemma SmoothTableRows()
    ensures |SmoothTable| == 60 && RowsFrom(SmoothTable, 6)
  {
    var t := SmoothTable;
    SmoothTableUpperRows();
    assert RowsFrom(t, 30);
    assert RowsFrom(t, 27);
    assert RowsFrom(t, 24);
    assert RowsFrom(t, 21);
    assert RowsFrom(t, 18);
    assert RowsFrom(t, 15);
    assert RowsFrom(t, 12);
    assert RowsFrom(t, 9);
  }

  /** The first seven entries. */
  lemma SmoothTablePrefix()
    ensures |SmoothTable| == 60 && SmoothTable[..7] == [4, 8, 16, 32, 64, 96, 128]
  {
  }

  /** The first seven entries: 4 * 2^0 .. 4 * 2^5, with 6 * 2^4 before the last. */
  lemma SmoothTableHead()
    ensures |SmoothTable| == 60
    ensures forall i :: 0 <= i < 6 ==> IsSmoothSize(SmoothTable[i]) && SmoothTable[i] < SmoothTable[i + 1]
    ensures SmoothTable[6] == 4 * Pow(2, 5)
  {
    SmoothTablePrefix();
    var t := SmoothTable[..7];
    assert forall i :: 0 <= i < 7 ==> SmoothTable[i] == t[i];
    assert Pow(2, 4) == 16;
    assert t[0] == Scaled(4, 0) && t[1] == Scaled(4, 1) && t[2] == Scaled(4, 2);
    assert t[3] == Scaled(4, 3) && t[4] == Scaled(4, 4) && t[5] == Scaled(6, 4);
  }

  /**
   * The table is strictly increasing, every entry is m * 2^j with m in {4, 5, 6}, and the
   * last entry is 3 * 2^23.
   */
  lemma SmoothTableShape()
    ensures SmoothTableSize == 60
    ensures StrictlyIncreasing(SmoothTable)
    ensures forall i :: 0 <= i < |SmoothTable| ==> IsSmoothSize(SmoothTable[i])
    ensures SmoothTable[SmoothTableSize - 1] == 3 * Pow(2, 23) == MaxSmooth
  {
    var t := SmoothTable;
    SmoothTableRows();
    SmoothTableHead();
    RowsShape(t, 6, 5);
    IncreasingFromAdjacent(t);
    assert Pow(2, 23) == 2 * Pow(2, 22);
    assert Pow(2, 22) == 4194304 by {
      PowAdd(2, 11, 11);
      assert Pow(2, 11) == 2048;
    }
  }

  /** The index of the first entry that is at least x (|s| when there is none). */
  function LowerBound(s: seq<nat>, x: nat): (i: nat)
    ensures i <= |s|
    ensures forall j :: 0 <= j < i ==> s[j] < x
    ensures i < |s| ==> x <= s[i]
    decreases |s|
  {
    if s == [] || x <= s[0] then 0 else 1 + LowerBound(s[1..], x)
  }

  /** On a sorted table, everything from the lower bound on is at least x. */
  lemma LowerBoundSuffix(s: seq<nat>, x: nat)
    requires StrictlyIncreasing(s)
    ensures forall j :: LowerBound(s, x) <= j < |s| ==> x <= s[j]
  {
  }

  /** The smallest entry of a sorted table that is at least x. */
  function CeilingIn(t: seq<nat>, x: nat): (r: nat)
    requires StrictlyIncreasing(t) && |t| > 0 && x <= t[|t| - 1]
    ensures exists i :: 0 <= i < |t| && r == t[i]
    ensures x <= r
    ensures forall j :: 0 <= j < |t| && x <= t[j] ==> r <= t[j]
  {
    LowerBoundSuffix(t, x);
    t[LowerBound(t, x)]
  }

  /** Every entry of the table is its own ceiling, so rounding twice is rounding once. */
  lemma CeilingInIdempotent(t: seq<nat>, x: nat)
    requires StrictlyIncreasing(t) && |t| > 0 && x <= t[|t| - 1]
    ensures CeilingIn(t, x) <= t[|t| - 1]
    ensures CeilingIn(t, CeilingIn(t, x)) == CeilingIn(t, x)
  {
    var i := LowerBound(t, x);
    LowerBoundSuffix(t, x);
    var e := t[i];
    if i < |t| - 1 {
      assert t[i] < t[|t| - 1];
    }
    assert LowerBound(t, e) == i;
  }

  /** The facts about the table that rounding needs. */
  lemma SmoothTableSorted()
    ensures SmoothTableSize == 60 && StrictlyIncreasing(SmoothTable)
    ensures SmoothTable[SmoothTableSize - 1] == MaxSmooth
  {
    SmoothTableShape();
  }

  /** The lower bound falls off the end of the table exactly when x exceeds its last entry. */
  lemma SmoothLowerBoundInRange(x: nat)
    ensures LowerBound(SmoothTable, x) < SmoothTableSize <==> x <= MaxSmooth
  {
    SmoothTableSorted();
    LowerBoundSuffix(SmoothTable, x);
  }

  /** What ceil_smooth returns: the smallest table entry that is at least x. */
  function SmoothCeiling(x: nat): (r: nat)
    requires x <= MaxSmooth
    ensures exists i :: 0 <= i < SmoothTableSize && r == SmoothTable[i]
    ensures x <= r
    ensures forall j :: 0 <= j < SmoothTableSize && x <= SmoothTable[j] ==> r <= SmoothTable[j]
  {
    SmoothTableSorted();
    CeilingIn(SmoothTable, x)
  }

  /** Every table entry is a fixed point, so rounding twice is rounding once. */
  lemma SmoothCeilingIdempotent(x: nat)
    requires x <= MaxSmooth
    ensures SmoothCeiling(x) <= MaxSmooth
    ensures SmoothCeiling(SmoothCeiling(x)) == SmoothCeiling(x)
  {
    SmoothTableSorted();
    CeilingInIdempotent(SmoothTable, x);
  }

  /**
   * The binary search of `ceil_smooth` over a sorted table: narrows [lo, hi) until lo is
   * the first index whose entry is at least x.
   */
  method SearchLowerBound(t: seq<nat>, x: nat) returns (lo: nat)
    requires StrictlyIncreasing(t)
    ensures lo == LowerBound(t, x)
    ensures lo <= |t| && (lo == |t| <==> forall j :: 0 <= j < |t| ==> t[j] < x)
  {
    lo := 0;
    var hi := |t|;
    while lo < hi
      invariant 0 <= lo <= hi <= |t|
      invariant forall j :: 0 <= j < lo ==> t[j] < x
      invariant forall j :: hi <= j < |t| ==> x <= t[j]
      decreases hi - lo
    {
      var mid := (lo + hi) / 2;
      if t[mid] < x {
        lo := mid + 1;
      } else {
        hi := mid;
      }
    }
    ghost var i := LowerBound(t, x);
    assert lo < |t| ==> x <= t[lo];
    assert lo == i;
  }

  /**
   * `ceil_smooth`: the entry at the binary-search position. For x > MaxSmooth the source
   * reads one past the end of the table; that input is excluded.
   */
  method CeilSmooth(x: U64) returns (r: nat)
    requires x <= MaxSmooth
    ensures r == SmoothCeiling(x)
  {
    SmoothTableSorted();
    var lo := SearchLowerBound(SmoothTable, x);
    SmoothLowerBoundInRange(x);
    r := SmoothTable[lo];
  }

  // ---------------------------------------------------------------------------
  // Constants
  // ---------------------------------------------------------------------------

  /** `MAX_LOG`. */
  const MaxLog: nat := 26

  /** `LOG_BLOCK`: the cache-oblivious block is 2^6 vectors. */
  const LogBlock: nat := 6

  /** `BLOCK_SIZE`. */
  const BlockSize: nat := Pow(2, LogBlock)

  lemma BlockSizeIs64()
    ensures BlockSize == 64
  {
  }
}
