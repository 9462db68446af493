# NTT3 reference arithmetic, bit helpers and prime search in Dafny

This project models the small, self-contained parts of the NTT3 big-integer multiplication
library that the rest of the library and its tests depend on:

- **Prime search** (`tools/find_primes.py`). It looks for primes p = c * 2^n * k + 1 whose
  bit length lies in [min_bits, max_bits]. For each prime it finds, it reports the
  factorization of p - 1, built from 2^n, the factors of c and the factors of k. It also
  reports a primitive root and the largest NTT sizes 2^v2, 3 * 2^v2 and 5 * 2^v2 that the
  prime supports. The sympy routines `isprime`, `factorint` and `primitive_root` become
  function-valued parameters. `factorint` is required to return a correct prime
  factorization; the other two are used as they answer. Python's exceptions are modelled
  as outcomes: a negative shift count, and a division by zero when c = 0.
- **Bit helpers and size rounding** (`ntt/common.hpp`), with bit operations written as
  arithmetic on natural numbers:
  - `ctz`, `ctzll`, `clz` and `lg` in their constexpr forms;
  - `ceil_pow2`;
  - the table of smooth transform sizes {4,5,6} * 2^j, and its binary-search ceiling
    `ceil_smooth`;
  - the block constants.
- **The 32-bit test reference** (`test_correctness.cpp`):
  - `schoolbook_multiply` on base-2^32 limb vectors, with its trimming loops;
  - `bignum_mod`, with its wrapping 64-bit arithmetic written out;
  - `mulmod`;
  - the soundness of the large-case check: the residue of the product buffer equals
    mulmod of the residues of the factors.
- **The 64-bit test reference** (`test_sd_ntt_integrated.cpp`). `schoolbook_mul` writes
  the product of two base-2^64 limb strings into a caller's array of out_len limbs, cut
  off at out_len, and leaves the rest of the array untouched. Both forms of its
  multiply-accumulate (the `unsigned __int128` form and the `_umul128`/`_addcarry_u64`
  form) are modelled, and they are proved to compute the same pair of words.

Numbers are unbounded in Dafny. `U32` and `U64` are the ranges of the machine words, and
every wrap-around or truncation the C++ performs is written out with `%`. Limb strings
are little-endian. `Limbs.Value(s, base)` is the number a string denotes, and
`Limbs.ToLimbs(v, base, len)` gives the lowest len limbs of v.

## Model

| member | source | states |
|---|---|---|
| PrimeSearch.FindPrimes | tools/find_primes.py:18-93 | An exception is raised exactly when one of the shifts is negative or c = 0, and the exception matches Python's evaluation order. "No candidates" is reported exactly when the k range is empty. Otherwise the reported primes are the first max(count, 1) candidates of the range, in order, each with the report of its k. The values given to `isprime` are base * k + 1 for k from k_min up to the last k inspected. Every reported p lies in the bit window 2^(min_bits-1) < p <= 2^max_bits, and the p increase strictly. |
| PrimeSearch.Search | tools/find_primes.py:39-91 | At most max(count, 1) primes are reported, each correct for its k. Their k are exactly the candidates from k_min up to the last k inspected. That last k is the k of the count-th prime when the count is reached, and k_max otherwise. The values given to `isprime` are base * k + 1 for every k inspected. |
| PrimeSearch.Probe | tools/find_primes.py:40-43 | One loop step: the candidates up to k are the old list extended by k exactly when base * k + 1 passes `isprime`, and then the new report is the one for k. |
| PrimeSearch.SearchFindsFirstCandidates | tools/find_primes.py:89-91 | Stopping at the count gives the first min(max(count, 1), N) of the N candidates of the whole range. |
| PrimeSearch.FloorDiv | tools/find_primes.py:22-23 | Python's `//` rounds toward minus infinity: b * q <= a < b * q + b for b > 0, with the reversed bounds for b < 0. |
| PrimeSearch.KMin | tools/find_primes.py:22 | `max(1, ((2^(min_bits-1) - 1) // base) + 1)`. By `KRange` it is the least k >= 1 with base * k >= 2^(min_bits-1). |
| PrimeSearch.KMax | tools/find_primes.py:23 | `(2^max_bits - 1) // base`. By `KRange` it is the greatest k with base * k < 2^max_bits. |
| PrimeSearch.KRange | tools/find_primes.py:19-23 | k_min >= 1. base * k_min reaches 2^(min_bits-1), and base * (k_min - 1) does not, unless k_min = 1. base * k_max < 2^max_bits <= base * (k_max + 1). |
| PrimeSearch.KRangeIff | tools/find_primes.py:21-23 | For k >= 1, k lies in [k_min, k_max] if and only if 2^(min_bits-1) <= base * k < 2^max_bits. |
| PrimeSearch.RangeAdmitsPowerOfTwo | tools/find_primes.py:21-23 | The range for c = 1, n = 0, min_bits = max_bits = 1 is k = 1, which gives p = 2 = 2^max_bits, one bit longer than max_bits. |
| PrimeSearch.NegativeCofactorEmpty | tools/find_primes.py:19-24 | A negative c always gives an empty k range under floor division. |
| PrimeSearch.CandidateKs | tools/find_primes.py:40-43 | The k of the range whose p passes `isprime`, in scan order. `CandidateKsMembers` states membership both ways and strict increase. |
| PrimeSearch.Probes | tools/find_primes.py:40-42 | The arguments of the `isprime` calls, in order. `ProbesMembers` gives each of them and their number. |
| PrimeSearch.LastProbed | tools/find_primes.py:40-91 | The last k the loop inspects: the k of the count-th prime after the `break`, otherwise k_max. `Search` and `FindPrimes` tie the reports and probes to it. |
| PrimeSearch.CandidateKsMembers | tools/find_primes.py:40-43 | A k is a candidate if and only if it lies in the range and base * k + 1 passes `isprime`. The candidates are strictly increasing. |
| PrimeSearch.CandidateKsPrefix | tools/find_primes.py:89-91 | The candidates seen up to an early stop are a prefix of the candidates of the whole range. |
| PrimeSearch.ProbesMembers | tools/find_primes.py:40-41 | The i-th value given to `isprime` is base * (k_min + i) + 1, and there is one value for each k inspected. |
| PrimeSearch.CandidatesBetween | tools/find_primes.py:40-43 | If base * k_lo >= low and base * k_hi < high, every candidate p satisfies low < p <= high, and p increases strictly along the candidates. |
| PrimeSearch.CandidatesInWindow | tools/find_primes.py:19-43 | Every candidate p lies in the bit window 2^(min_bits-1) < p <= 2^max_bits, and the candidates' p increase strictly. |
| PrimeSearch.ReportedInWindow | tools/find_primes.py:40-70 | The reported primes lie in that window and are reported in strictly increasing order. |
| PrimeSearch.FactorsOfPm1Correct | tools/find_primes.py:45-52 | The assembled dict is a factorization of c * 2^n * k into distinct prime keys. The exponent of each prime is the sum of its exponents in 2^n, in c and in k. |
| PrimeSearch.FactorsOfPm1 | tools/find_primes.py:37-52 | The dict `{2: n}` merged with `factorint(c)` for c > 1, then with `factorint(k)` for k > 1. `FactorsOfPm1Correct` proves it factorizes p - 1 = c * 2^n * k. |
| PrimeSearch.MergeFactors | tools/find_primes.py:48-52 | The update loop `d[f] = d.get(f, 0) + e` yields the merge: `Merged` for a function, with products multiplying and exponents adding. |
| PrimeSearch.FactorProduct | tools/find_primes.py:63-66 | The check loop computes the product of f^e over the dict. |
| PrimeSearch.Describe | tools/find_primes.py:45-87 | The report for a prime p is the report of its k. The `assert check == p - 1` always holds. |
| PrimeSearch.ReportedCorrect | tools/find_primes.py:45-87 | Every report is sound: p = base * k + 1 and the dict is a factorization of p - 1 into distinct primes. Its exponent of 2 is the number of trailing zero bits of p - 1. Every listed size divides p - 1, and the list is nonempty exactly when 2^8 divides p - 1. |
| PrimeSearch.Report | tools/find_primes.py:41-87 | What is printed for k: p, k, the dict of p - 1, the primitive root and the size list. `ReportedCorrect` proves the report sound. |
| PrimeSearch.NttSizes | tools/find_primes.py:78-84 | The size list for exponents v2, v3 and v5. `NttSizesCorrect` states each of its three conditions both ways. |
| PrimeSearch.TwoExponentIsTrailingZeros | tools/find_primes.py:75 | v2 = `pm1_factors.get(2, 0)` is the full 2-adic valuation of p - 1. |
| PrimeSearch.NttSizesCorrect | tools/find_primes.py:74-84 | Every listed size is radix * 2^v2, with radix 1, 3 or 5, and divides p - 1. Sizes are listed exactly when v2 >= 8. 3 * 2^v2 (5 * 2^v2) is listed exactly when, in addition, 3 (5) divides p - 1. Radices appear in the order 1, 3, 5. |
| PrimeSearch.Example12289 | tools/find_primes.py:18-87 | For c = 3, n = 12 and 14-bit primes, the range is k = 1 and the report is p = 12289 with p - 1 = 2^12 * 3 and the sizes 2^12 and 3 * 2^12. |
| PrimeSearch.Example97 | tools/find_primes.py:18-87 | For c = 1, n = 4 and 6- to 8-bit primes, the range is [2, 15]. If 33, 49, 65 and 81 fail `isprime`, the first candidate is k = 6, with p = 97. The key 2 is contributed by both 2^4 and factorint(6), so the dict is {2: 5, 3: 1}, and no size is listed. |
| PrimeSearch.Example61 | tools/find_primes.py:18-87 | For c = 15, n = 2 and 6-bit primes, the range is k = 1. The dict is {2: 2, 3: 1, 5: 1}, for p = 61, and no size is listed. |
| FactorDict.SetGet | tools/find_primes.py:49 | Assigning `d[f] = v` changes the value of f, and of no other key. |
| FactorDict.SetKeys | tools/find_primes.py:49 | Assigning adds f to the keys and keeps the keys distinct. |
| FactorDict.SetProduct | tools/find_primes.py:49 | Adding e to the exponent of f multiplies the product by f^e. |
| FactorDict.MergedProduct | tools/find_primes.py:48-52 | Merging multiplies the products of the two dicts. |
| FactorDict.MergedKeys | tools/find_primes.py:48-52 | The keys of the merge are the union of the two key sets, and they stay distinct. |
| FactorDict.MergedGet | tools/find_primes.py:48-52 | Each exponent of the merge is the sum of its two exponents. |
| FactorDict.DivisibleIff | tools/find_primes.py:75-84 | For q in {2, 3, 5}, a factorization is divisible by q if and only if q has a positive exponent in it. |
| FactorDict.TwoAdicValuation | tools/find_primes.py:75 | 2^v2 divides the product, and the quotient is odd. |
| FactorDict.OddTimesTwoPowerDivides | tools/find_primes.py:81-84 | If 3 (or 5) is a key, 3 * 2^v2 (or 5 * 2^v2) divides the product. |
| FactorDict.Get | tools/find_primes.py:49 | `d.get(f, 0)`. `GetAbsent` and `SetGet` state what it returns. |
| FactorDict.Set | tools/find_primes.py:49 | `d[f] = v`: an existing key keeps its place, and a new key goes last. `SetGet`, `SetKeys` and `SetProduct` state its effect. |
| FactorDict.Merged | tools/find_primes.py:48-52 | The dict after the update loop over `src.items()`. `MergedProduct`, `MergedKeys` and `MergedGet` state its meaning. |
| FactorDict.Product | tools/find_primes.py:63-66 | The product of f^e over the items. `FactorProduct` computes it by the check loop. |
| NttCommon.TrailingZeros | ntt/common.hpp:33-42 | For x > 0, x is 2^r times an odd number. |
| NttCommon.TrailingZerosUnique | ntt/common.hpp:33-42 | That exponent is unique. |
| NttCommon.CtzConstexpr | ntt/common.hpp:33-37 | For nonzero 32-bit x, the count is below 32, 2^r divides x, and x / 2^r is odd. |
| NttCommon.CtzllConstexpr | ntt/common.hpp:38-42 | The same for nonzero 64-bit x, with the count below 64. |
| NttCommon.ClzConstexpr | ntt/common.hpp:43-49 | The result is 32 for 0. Otherwise it is 31 - floor(log2 x), with 2^(31-r) <= x < 2^(32-r). |
| NttCommon.Log2 | ntt/common.hpp:50-54 | For x >= 1, 2^r <= x < 2^(r+1). |
| NttCommon.Log2Unique | ntt/common.hpp:50-54 | Those bounds fix the logarithm. |
| NttCommon.LgConstexpr | ntt/common.hpp:50-54 | The halving loop returns floor(log2 x), and 0 for x <= 1. |
| NttCommon.CeilPow2Bounds | ntt/common.hpp:96-99 | x < 2 gives 1. For 2 <= x <= 2^32, the result is a power of two P with x <= P < 2x. |
| NttCommon.CeilPow2 | ntt/common.hpp:96-99 | `ceil_pow2` as written, with the 32-bit cast. `CeilPow2Bounds` gives its meaning up to 2^32, and `CeilPow2TruncationExample` covers the case above. |
| NttCommon.CeilPow2TruncationExample | ntt/common.hpp:98 | The 32-bit cast gives ceil_pow2(2^32 + 2) = 2, which is below its argument. |
| NttCommon.CeilPow2Wide | ntt/common.hpp:96-99 | The intended ceiling, without the cast: for every x up to 2^63 with x >= 2, a power of two P with x <= P < 2x. |
| NttCommon.CeilPow2WideAgrees | ntt/common.hpp:96-99 | Up to 2^32 the two ceilings agree. |
| NttCommon.SmoothTableShape | ntt/common.hpp:105-130 | The table has 60 entries and is strictly increasing. Every entry is m * 2^j with m in {4, 5, 6}. The last entry is 3 * 2^23. |
| NttCommon.SmoothTable | ntt/common.hpp:105-129 | The 60 entries of `SMOOTH_TABLE`. `SmoothTableShape` proves them sorted and smooth. |
| NttCommon.LowerBound | ntt/common.hpp:132-141 | The result is the index of the first entry >= x, or the table length when there is none. |
| NttCommon.SearchLowerBound | ntt/common.hpp:134-139 | The binary search returns that lower bound. It returns the table length exactly when every entry is below x. |
| NttCommon.CeilingIn | ntt/common.hpp:132-141 | The smallest entry of a sorted table that is >= x: it is a member of the table, it is >= x, and it is <= every entry >= x. |
| NttCommon.CeilingInIdempotent | ntt/common.hpp:132-141 | Rounding a rounded value changes nothing. |
| NttCommon.SmoothCeiling | ntt/common.hpp:132-141 | For x <= 3 * 2^23, the least table entry that is >= x. |
| NttCommon.SmoothCeilingIdempotent | ntt/common.hpp:132-141 | ceil_smooth is idempotent and stays within the table. |
| NttCommon.SmoothLowerBoundInRange | ntt/common.hpp:140 | The search falls off the end of the table exactly when x > 3 * 2^23. |
| NttCommon.CeilSmooth | ntt/common.hpp:132-141 | `ceil_smooth` returns the smooth ceiling of x. |
| NttCommon.BlockSizeIs64 | ntt/common.hpp:144-146 | BLOCK_SIZE = 2^LOG_BLOCK = 64. |
| NttCommon.MaxLog | ntt/common.hpp:144 | `MAX_LOG` = 26. |
| NttCommon.LogBlock | ntt/common.hpp:145 | `LOG_BLOCK` = 6. |
| NttCommon.BlockSize | ntt/common.hpp:146 | `BLOCK_SIZE` = 2^LOG_BLOCK, which `BlockSizeIs64` evaluates to 64. |
| ReferenceMul32.MacFits | test_correctness.cpp:33-35 | The u64 multiply-accumulate of 32-bit limbs never wraps, and its high half is again a limb. |
| ReferenceMul32.AddRow | test_correctness.cpp:30-44 | After row i, including the carry ripple, the buffer holds Value(a[..i+1]) * Value(b). |
| ReferenceMul32.SchoolbookMultiply | test_correctness.cpp:26-48 | The result is empty when a factor is empty. Otherwise it is trimmed and its value is the product. |
| ReferenceMul32.TrimmedLength | test_correctness.cpp:164-165 | The trimming loop stops at a length that is 0 only for an empty input. It leaves a trimmed prefix, and only zeros above it. |
| ReferenceMul32.TrimKeepsResidue | test_correctness.cpp:164-166 | Trimming keeps the value, and with it the residue modulo any p. |
| Limbs.TrimmedUnique | test_correctness.cpp:77-79 | Two trimmed limb strings with the same value are equal, so comparing trimmed vectors compares values. |
| ReferenceMul32.AddU64 | test_correctness.cpp:109 | u64 addition is the sum mod 2^64, and it is exact when the sum fits. |
| ReferenceMul32.MulU64 | test_correctness.cpp:109-110 | u64 multiplication is exact when the product fits. |
| ReferenceMul32.ModLoopStep | test_correctness.cpp:108-111 | For p <= 2^32 no step of the loop wraps. The result stays the residue of the limbs so far, and base_pow stays congruent to 2^(32 i). |
| ReferenceMul32.BignumMod | test_correctness.cpp:104-113 | The result is always < p. For p <= 2^32 it is Value(a) mod p. |
| ReferenceMul32.MulMod | test_correctness.cpp:116-128 | The result is < p. What it means is stated by `MulModOfResidues`. |
| ReferenceMul32.MulModOfResidues | test_correctness.cpp:115-128 | mulmod of the residues of x and y is the residue of x * y. |
| ReferenceMul32.ModularCheckSound | test_correctness.cpp:158-168 | If the buffer holds the product, then for every p the residue of the trimmed buffer equals mulmod of the residues of the factors. |
| ReferenceMul64.MulAddWide | test_sd_ntt_integrated.cpp:30-32 | The limb and the carry form the two-word representation of a[i] * b[j] + out[i+j] + carry. |
| ReferenceMul64.WideMacFits | test_sd_ntt_integrated.cpp:30 | The 128-bit accumulator never wraps, and its high half is a word. |
| ReferenceMul64.MulAddSplit | test_sd_ntt_integrated.cpp:22-28 | The `_umul128`/`_addcarry_u64` chain computes the same pair as the 128-bit step, so `hi + cf + cf2` never wraps. |
| ReferenceMul64.SplitAgrees | test_sd_ntt_integrated.cpp:26-28 | The carry chain's limb is the low digit of the sum, and hi + cf + cf2 is its high digit, below 2^64. |
| ReferenceMul64.MacRow | test_sd_ntt_integrated.cpp:20-34 | The inner loop stops at the end of b or of the buffer. It leaves the limbs from i + j up untouched and returns a carry that together with the buffer accounts for the row. |
| ReferenceMul64.RowFits | test_sd_ntt_integrated.cpp:35-36 | When the row fits, the buffer before it held X_i exactly and a zero at limb i + nb, so the `+=` does not wrap. |
| ReferenceMul64.RowCarried | test_sd_ntt_integrated.cpp:35-36 | Storing the final carry at limb i + nb gives X_{i+1} mod 2^(64 out_len). |
| ReferenceMul64.RowTruncated | test_sd_ntt_integrated.cpp:21 | A row cut off at out_len still leaves X_{i+1} mod 2^(64 out_len). |
| ReferenceMul64.AddRow | test_sd_ntt_integrated.cpp:19-37 | Row i takes the buffer from X_i mod 2^(64 out_len) to X_{i+1} mod 2^(64 out_len), and nothing past out_len changes. |
| ReferenceMul64.SchoolbookMul | test_sd_ntt_integrated.cpp:15-38 | out[0..out_len) holds the lowest out_len limbs of Value(a) * Value(b), and the rest of the array is unchanged. |
| ReferenceMul64.LowLimbs | test_sd_ntt_integrated.cpp:18-37 | A buffer worth v mod 2^(64 len) is exactly the lowest len limbs of v. |
| ReferenceMul64.FullBufferExact | test_sd_ntt_integrated.cpp:77-78 | With out_len >= na + nb the buffer holds the whole product. |
| ReferenceMul64.KnownProducts | test_sd_ntt_integrated.cpp:43-63 | 3 * 7 gives {21, 0}, and (2^64 - 1)^2 gives {1, 2^64 - 2}. |

Here X_i = Value(a[..i]) * Value(b) is the sum of the first i rows.

Two notes on where the model and the source's comments part:

- The k range bounds p by 2^(min_bits-1) < p <= 2^max_bits. The comment at
  `tools/find_primes.py:21` says p < 2^max_bits. The two coincide except when p is exactly
  2^max_bits, and `PrimeSearch.RangeAdmitsPowerOfTwo` exhibits that case: p = 2 at one bit.
  The model follows the code.
- A count of 0 or less reports one prime, because the `found >= count` test comes after
  the increment. The model follows the code.

## Left out

- Printing, the factorization string (`sorted` keys joined with ` * `), `bit_length` in
  the messages, and `argparse`/`main` in `tools/find_primes.py`. What would be printed is
  returned as an `Outcome` and `Found` records.
- `isprime`, `factorint` and `primitive_root` are not verified. `factorint` is required to be
  correct through `FactorintCorrect`. The primitive root is reported exactly as the oracle
  returns it.
- NttCommon.CeilPow2: as written it has no contract of its own. Its properties are
  `CeilPow2Bounds` up to 2^32 and the truncation example above 2^32. The runtime
  `31 - __builtin_clz(0)` is undefined, so for x = 2^32 + 1 the model uses `lg_constexpr`'s
  value 0.
- The intrinsic versions `ntt_ctz`, `ntt_ctzll`, `ntt_clz`, `ntt_lg`
  (`ntt/common.hpp:58-68`) are modelled by their constexpr equivalents. They have the
  same results on their defined inputs, and `ntt_lg` is `Log2`.
- NttCommon.CtzConstexpr and NttCommon.CtzllConstexpr require x != 0, because for x = 0
  the source loops forever.
- NttCommon.CeilSmooth requires x <= 3 * 2^23, because beyond that the source reads one
  entry past the end of the table.
- The allocation helpers, force-inline macros and SIMD includes of `ntt/common.hpp` are
  out of scope. So is `MAX_LOG` beyond its value.
- ReferenceMul32.BignumMod: it claims the exact residue only for p <= 2^32, where nothing
  wraps. All five test primes are below 2^32. For larger p the wrapped products are
  modelled but only r < p is stated.
- ReferenceMul32.MulMod: its own contract states only r < p, because the residue property needs the inputs x and y that the residues came from, and `MulModOfResidues` states it.
- The `mulmod` model covers the `unsigned __int128` branch. The MSVC
  `_umul128`/`_udiv128` branch computes the same remainder whenever the quotient fits in
  64 bits, and it is not modelled separately.
- ReferenceMul64.SchoolbookMul takes a and b as sequences, so aliasing between `out` and
  the inputs is not modelled. The macro choice between the two multiply-accumulate forms
  is modelled by proving that the two forms agree (`MulAddSplit`).
- The bodies of the test drivers (random inputs, `big_multiply`, reporting) and the NTT
  itself are out of scope. The model covers only the reference arithmetic they compare
  against.

## Findings

| source | as written | input that shows it | evidently intended | confidence | as-written member | corrected member |
|---|---|---|---|---|---|---|
| ntt/common.hpp:98 | `ceil_pow2` takes the logarithm of `(unsigned)(x - 1)`, dropping the high 32 bits of x - 1 | x = 2^32 + 2 gives 2 | the least power of two >= x for every `idt` x up to 2^63 | not executed | NttCommon.CeilPow2TruncationExample | NttCommon.CeilPow2Wide |
