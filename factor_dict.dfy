/**
 * Factorizations as Python dicts from prime factor to exponent. A dict is modelled as its
 * items in insertion order, which is the order in which `.items()` visits them.
 */
module FactorDict {
  import opened Powers

  /** The items (factor, exponent) of a dict, in insertion order. */
  type Dict = seq<(nat, nat)>

  ghost predicate IsPrime(m: nat)
  {
    m >= 2 && forall d :: 2 <= d < m ==> m % d != 0
  }

  /** The keys of the dict. */
  function KeySet(d: Dict): set<nat>
    decreases |d|
  {
    if d == [] then {} else {d[0].0} + KeySet(d[1..])
  }

  /** No key occurs twice: every dict the program builds has this shape. */
  predicate DistinctKeys(d: Dict)
    decreases |d|
  {
    d == [] || (d[0].0 !in KeySet(d[1..]) && DistinctKeys(d[1..]))
  }

  ghost predicate PrimeKeys(d: Dict)
  {
    forall f :: f in KeySet(d) ==> IsPrime(f)
  }

  /** `d.get(f, 0)`. */
  function Get(d: Dict, f: nat): nat
    decreases |d|
  {
    if d == [] then 0 else if d[0].0 == f then d[0].1 else Get(d[1..], f)
  }

  /** `d[f] = v`: an existing key keeps its position, a new key goes last. */
  function Set(d: Dict, f: nat, v: nat): Dict
    decreases |d|
  {
    if d == [] then [(f, v)]
    else if d[0].0 == f then [(f, v)] + d[1..]
    else [d[0]] + Set(d[1..], f, v)
  }

  /** The product of f^e over the items. */
  function Product(d: Dict): nat
    decreases |d|
  {
    if d == [] then 1 else Pow(d[0].0, d[0].1) * Product(d[1..])
  }

  /** What `factorint(m)` promises: distinct prime keys, positive exponents, product m. */
  ghost predicate IsFactorization(d: Dict, m: nat)
  {
    && DistinctKeys(d)
    && PrimeKeys(d)
    && (forall i :: 0 <= i < |d| ==> d[i].1 >= 1)
    && Product(d) == m
  }

  /** The dict after `for f, e in src.items(): d[f] = d.get(f, 0) + e`. */
  function Merged(d: Dict, src: Dict): Dict
    decreases |src|
  {
    if src == [] then d
    else Merged(Set(d, src[0].0, Get(d, src[0].0) + src[0].1), src[1..])
  }

  lemma GetAbsent(d: Dict, f: nat)
    requires f !in KeySet(d)
    ensures Get(d, f) == 0
  {
  }

  /** Setting a key changes that key's value and no other. */
  lemma {:induction false} SetGet(d: Dict, f: nat, v: nat, g: nat)
    ensures Get(Set(d, f, v), g) == if g == f then v else Get(d, g)
    decreases |d|
  {
    if d != [] && d[0].0 != f {
      SetGet(d[1..], f, v, g);
      assert Set(d, f, v)[1..] == Set(d[1..], f, v);
    } else if d != [] {
      assert Set(d, f, v)[1..] == d[1..];
    }
  }

  /** Setting a key adds it to the keys, and keeps the keys distinct. */
  lemma {:induction false} SetKeys(d: Dict, f: nat, v: nat)
    ensures KeySet(Set(d, f, v)) == KeySet(d) + {f}
    ensures DistinctKeys(d) ==> DistinctKeys(Set(d, f, v))
    decreases |d|
  {
    if d == [] {
      assert Set(d, f, v)[1..] == [];
    } else if d[0].0 == f {
      assert Set(d, f, v)[1..] == d[1..];
    } else {
      SetKeys(d[1..], f, v);
      assert Set(d, f, v)[1..] == Set(d[1..], f, v);
    }
  }

  /** Adding e to the exponent of f multiplies the product by f^e. */
  lemma {:induction false} SetProduct(d: Dict, f: nat, e: nat)
    ensures Product(Set(d, f, Get(d, f) + e)) == Product(d) * Pow(f, e)
    decreases |d|
  {
    if d == [] {
      assert Set(d, f, e)[1..] == [];
    } else if d[0].0 == f {
      var a := d[0].1;
      var s := Set(d, f, a + e);
      assert s[0] == (f, a + e) && s[1..] == d[1..];
      PowAdd(f, a, e);
      var rest := Product(d[1..]);
      calc {
        Product(s);
        Pow(f, a + e) * rest;
        (Pow(f, a) * Pow(f, e)) * rest;
        { MulRotate(Pow(f, a), Pow(f, e), rest); }
        (Pow(f, a) * rest) * Pow(f, e);
      }
    } else {
      var v := Get(d, f) + e;
      var s := Set(d, f, v);
      SetProduct(d[1..], f, e);
      assert s[0] == d[0] && s[1..] == Set(d[1..], f, v);
      var head := Pow(d[0].0, d[0].1);
      calc {
        Product(s);
        head * Product(Set(d[1..], f, v));
        head * (Product(d[1..]) * Pow(f, e));
        { MulRotate(head, Product(d[1..]), Pow(f, e)); }
        (head * Product(d[1..])) * Pow(f, e);
      }
    }
  }

  /** Merging multiplies the products: the reconstruction keeps the value exact. */
  lemma {:induction false} MergedProduct(d: Dict, src: Dict)
    ensures Product(Merged(d, src)) == Product(d) * Product(src)
    decreases |src|
  {
    if src != [] {
      var f, e := src[0].0, src[0].1;
      var d' := Set(d, f, Get(d, f) + e);
      MergedProduct(d', src[1..]);
      SetProduct(d, f, e);
      calc {
        Product(Merged(d, src));
        Product(d') * Product(src[1..]);
        (Product(d) * Pow(f, e)) * Product(src[1..]);
        { MulRotate(Product(d), Pow(f, e), Product(src[1..])); }
        Product(d) * (Pow(f, e) * Product(src[1..]));
      }
    }
  }

  /** Merging adds exponents key by key: the key set is the union and keys stay distinct. */
  lemma {:induction false} MergedKeys(d: Dict, src: Dict)
    ensures KeySet(Merged(d, src)) == KeySet(d) + KeySet(src)
    ensures DistinctKeys(d) ==> DistinctKeys(Merged(d, src))
    decreases |src|
  {
    if src != [] {
      var f, e := src[0].0, src[0].1;
      SetKeys(d, f, Get(d, f) + e);
      MergedKeys(Set(d, f, Get(d, f) + e), src[1..]);
    }
  }

  /** With distinct source keys, each exponent of the merge is the sum of the two. */
  lemma {:induction false} MergedGet(d: Dict, src: Dict, g: nat)
    requires DistinctKeys(src)
    ensures Get(Merged(d, src), g) == Get(d, g) + Get(src, g)
    decreases |src|
  {
    if src != [] {
      var f, e := src[0].0, src[0].1;
      var d' := Set(d, f, Get(d, f) + e);
      MergedGet(d', src[1..], g);
      SetGet(d, f, Get(d, f) + e, g);
      if g == f {
        GetAbsent(src[1..], g);
      }
    }
  }

  /** Merging dicts with prime keys gives a dict with prime keys. */
  lemma MergedPrimeKeys(d: Dict, src: Dict)
    requires PrimeKeys(d) && PrimeKeys(src)
    ensures PrimeKeys(Merged(d, src))
  {
    MergedKeys(d, src);
  }

  // Small-prime valuations of a product of prime powers

  predicate SmallPrime(q: nat)
  {
    q == 2 || q == 3 || q == 5
  }

  /** For q in {2, 3, 5}, a product of non-multiples of q is not a multiple of q. */
  lemma NonMultipleProduct(a: nat, b: nat, q: nat)
    requires SmallPrime(q) && a % q != 0 && b % q != 0
    ensures (a * b) % q != 0
  {
    ModMul(a, b, q);
    var ra, rb := a % q, b % q;
    if ra == 1 {
    } else if ra == 2 {
    } else if ra == 3 {
    } else {
      assert ra == 4;
    }
  }

  /** A prime other than q is not a multiple of q. */
  lemma PrimeNotMultiple(p: nat, q: nat)
    requires IsPrime(p) && q >= 2 && p != q
    ensures p % q != 0
  {
    if q > p {
      ModUnique(p, q, 0, p);
    }
  }

  lemma {:induction false} PowNotMultiple(p: nat, e: nat, q: nat)
    requires SmallPrime(q) && p % q != 0
    ensures Pow(p, e) % q != 0
    decreases e
  {
    if e == 0 {
      ModUnique(1, q, 0, 1);
    } else {
      PowNotMultiple(p, e - 1, q);
      NonMultipleProduct(p, Pow(p, e - 1), q);
    }
  }

  /** The dict without the key q. */
  function Remove(d: Dict, q: nat): Dict
    decreases |d|
  {
    if d == [] then [] else (if d[0].0 == q then [] else [d[0]]) + Remove(d[1..], q)
  }

  lemma {:induction false} RemoveFacts(d: Dict, q: nat, g: nat)
    ensures KeySet(Remove(d, q)) == KeySet(d) - {q}
    ensures DistinctKeys(d) ==> DistinctKeys(Remove(d, q))
    ensures Get(Remove(d, q), g) == if g == q then 0 else Get(d, g)
    decreases |d|
  {
    if d != [] {
      RemoveFacts(d[1..], q, g);
      var r := Remove(d[1..], q);
      if d[0].0 != q {
        assert Remove(d, q) == [d[0]] + r;
        assert ([d[0]] + r)[1..] == r;
      } else {
        assert Remove(d, q) == r;
      }
    }
  }

  /** With distinct keys, the product is q^(exponent of q) times the product of the rest. */
  lemma {:induction false} ProductSplit(d: Dict, q: nat)
    requires DistinctKeys(d)
    ensures Product(d) == Pow(q, Get(d, q)) * Product(Remove(d, q))
    decreases |d|
  {
    if d != [] {
      ProductSplit(d[1..], q);
      var h := Pow(d[0].0, d[0].1);
      var g := Pow(q, Get(d[1..], q));
      var c := Product(Remove(d[1..], q));
      if d[0].0 == q {
        GetAbsent(d[1..], q);
        assert Remove(d, q) == Remove(d[1..], q);
        assert Product(d) == h * (1 * c);
      } else {
        var r := Remove(d[1..], q);
        assert Remove(d, q) == [d[0]] + r;
        assert ([d[0]] + r)[1..] == r;
        calc {
          Product(d);
          h * (g * c);
          { MulRotate(h, g, c); MulRotate(g, h, c); }
          g * (h * c);
        }
      }
    }
  }

  /** A product of powers of primes other than q in {2, 3, 5} is not a multiple of q. */
  lemma {:induction false} NoKeyNotMultiple(d: Dict, q: nat)
    requires PrimeKeys(d) && SmallPrime(q) && q !in KeySet(d)
    ensures Product(d) % q != 0
    decreases |d|
  {
    if d == [] {
      ModUnique(1, q, 0, 1);
    } else {
      assert KeySet(d[1..]) <= KeySet(d);
      NoKeyNotMultiple(d[1..], q);
      var f := d[0].0;
      assert f in KeySet(d);
      PrimeNotMultiple(f, q);
      PowNotMultiple(f, d[0].1, q);
      NonMultipleProduct(Pow(f, d[0].1), Product(d[1..]), q);
    }
  }

  lemma RemovedNotMultiple(d: Dict, q: nat)
    requires PrimeKeys(d) && SmallPrime(q)
    ensures Product(Remove(d, q)) % q != 0
  {
    RemoveFacts(d, q, q);
    NoKeyNotMultiple(Remove(d, q), q);
  }

  /** A factorization is divisible by q in {2, 3, 5} exactly when q is one of its keys
   *  with a positive exponent. */
  lemma DivisibleIff(d: Dict, q: nat)
    requires DistinctKeys(d) && PrimeKeys(d) && SmallPrime(q)
    ensures Product(d) % q == 0 <==> Get(d, q) >= 1
  {
    ProductSplit(d, q);
    RemovedNotMultiple(d, q);
    var e := Get(d, q);
    var c := Product(Remove(d, q));
    if e >= 1 {
      var k := Pow(q, e - 1);
      assert Pow(q, e) == q * k;
      MulRotate(q, k, c);
      ModUnique(Product(d), q, k * c, 0);
    } else {
      assert Product(d) == c;
    }
  }

  /** The exponent of 2 in a factorization is the full 2-adic valuation of its product. */
  lemma TwoAdicValuation(d: Dict)
    requires DistinctKeys(d) && PrimeKeys(d)
    ensures Product(d) % Pow(2, Get(d, 2)) == 0
    ensures (Product(d) / Pow(2, Get(d, 2))) % 2 == 1
  {
    ProductSplit(d, 2);
    RemovedNotMultiple(d, 2);
    ModUnique(Product(d), Pow(2, Get(d, 2)), Product(Remove(d, 2)), 0);
  }

  /** If r in {3, 5} is a key, r times the full power of 2 divides the product. */
  lemma OddTimesTwoPowerDivides(d: Dict, r: nat)
    requires DistinctKeys(d) && PrimeKeys(d) && (r == 3 || r == 5) && Get(d, r) >= 1
    ensures Product(d) % (r * Pow(2, Get(d, 2))) == 0
  {
    var rest := Remove(d, 2);
    ProductSplit(d, 2);
    RemoveFacts(d, 2, r);
    assert PrimeKeys(rest);
    DivisibleIff(rest, r);
    var m := Product(rest) / r;
    assert Product(rest) == r * m;
    var t := Pow(2, Get(d, 2));
    MulRotate(t, r, m);
    MulRotate(r, t, m);
    ModUnique(Product(d), r * t, m, 0);
  }
}
