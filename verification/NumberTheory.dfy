/**
 * Primes, Euclid's lemma, Fermat's little theorem and inverses modulo a prime.
 */
module NumberTheory {
  import opened Congruence

  ghost predicate Divides(d: int, n: int) {
    exists k :: n == k * d
  }

  ghost predicate IsPrime(p: int) {
    p >= 2 && forall d :: 1 < d < p ==> !Divides(d, p)
  }

  /** No common divisor above one. */
  ghost predicate Coprime(a: int, b: int) {
    forall d :: d > 1 && Divides(d, a) ==> !Divides(d, b)
  }

  function Pow(b: int, e: nat): (r: int) {
    if e == 0 then 1 else b * Pow(b, e - 1)
  }

  lemma {:induction false} PowMod(b: int, b': int, e: nat, m: int)
    requires Cong(b, b', m)
    ensures Cong(Pow(b, e), Pow(b', e), m)
  {
    if e == 0 {
      CongRefl(1, m);
    } else {
      PowMod(b, b', e - 1, m);
      CongMul(b, b', Pow(b, e - 1), Pow(b', e - 1), m);
    }
  }

  /** Every non-zero residue of a prime has an inverse: divide the prime by it and recurse on the remainder. */
  lemma {:induction false} InverseExists(a: int, p: int) returns (x: int)
    requires IsPrime(p) && 0 < a < p
    ensures Cong(a * x, 1, p)
    decreases a
  {
    if a == 1 {
      CongRefl(1, p);
      return 1;
    }
    hide Cong;
    var q, r := p / a, p % a;
    PrimeRemainder(a, p);
    var y := InverseExists(r, p);
    x := -(q * y);
    InverseStep(a, q, r, y, p);
    CongMultiple(y, p);
    CongSub(r * y, 1, y * p, 0, p);
  }

  lemma PrimeRemainder(a: int, p: int)
    requires IsPrime(p) && 1 < a < p
    ensures 0 < p % a < a
  {
    if p % a == 0 {
      assert p == (p / a) * a;
      assert Divides(a, p);
    }
  }

  lemma InverseStep(a: int, q: int, r: int, y: int, p: int)
    requires p == a * q + r
    ensures a * -(q * y) == r * y - y * p
  {
    assert r * y == y * p - (a * q) * y;
  }

  lemma {:induction false} InverseOf(a: int, p: int) returns (x: int)
    requires IsPrime(p) && !Cong(a, 0, p)
    ensures Cong(a * x, 1, p)
  {
    var r := a % p;
    CongMod(a, p);
    CongSym(r, a, p);
    x := InverseExists(r, p);
    CongRefl(x, p);
    CongMul(a, r, x, x, p);
    CongTrans(a * x, r * x, 1, p);
  }

  /** A factor that is not divisible by the prime cancels. */
  lemma CancelFactor(a: int, b: int, c: int, p: int)
    requires IsPrime(p) && !Cong(c, 0, p)
    requires Cong(a * c, b * c, p)
    ensures Cong(a, b, p)
  {
    hide Cong;
    var x := InverseOf(c, p);
    CongRefl(x, p);
    CongMul(a * c, b * c, x, x, p);
    CongRefl(a, p);
    CongRefl(b, p);
    CongMul(a, a, c * x, 1, p);
    CongMul(b, b, c * x, 1, p);
    assert (a * c) * x == a * (c * x) && (b * c) * x == b * (c * x);
    CongSym(a * (c * x), a * 1, p);
    CongTrans(a * 1, a * (c * x), b * (c * x), p);
    CongTrans(a * 1, b * (c * x), b * 1, p);
  }

  /** Euclid's lemma: a prime that divides a product divides a factor. */
  lemma EuclidLemma(a: int, b: int, p: int)
    requires IsPrime(p)
    ensures Cong(a * b, 0, p) <==> Cong(a, 0, p) || Cong(b, 0, p)
  {
    hide Cong;
    CongRefl(a, p);
    CongRefl(b, p);
    if Cong(a, 0, p) {
      CongMul(a, 0, b, b, p);
    } else if Cong(b, 0, p) {
      CongMul(a, a, b, 0, p);
    } else if Cong(a * b, 0, p) {
      assert 0 * b == 0;
      CancelFactor(a, 0, b, p);
    }
  }

  lemma NotMultiple(a: int, p: int)
    requires 0 < a < p
    ensures !Cong(a, 0, p)
  {
    if Cong(a, 0, p) {
      CongUnique(a, 0, p);
    }
  }

  // ---------------------------------------------------------------------------------------------
  // Fermat's little theorem: multiplication by a permutes the non-zero residues.

  function Factorial(n: nat): (r: nat) {
    if n == 0 then 1 else n * Factorial(n - 1)
  }

  /** The numbers from 1 to n. */
  ghost function UpTo(n: nat): (s: set<int>)
    ensures forall k :: k in s <==> 1 <= k <= n
    ensures |s| == n
  {
    if n == 0 then {} else UpTo(n - 1) + {n}
  }

  /** The product of those members of s that lie between 1 and n. */
  ghost function Product(s: set<int>, n: nat): (r: int) {
    if n == 0 then 1 else (if n in s then n else 1) * Product(s, n - 1)
  }

  lemma {:induction false} ProductOfAll(m: nat, n: nat)
    requires n <= m
    ensures Product(UpTo(m), n) == Factorial(n)
  {
    if n > 0 {
      ProductOfAll(m, n - 1);
    }
  }

  lemma MulRegroup(a: int, n: int, e: int, q: int)
    ensures (a * n) * (e * q) == (a * e) * (n * q)
  {
  }

  lemma {:induction false} ProductAbove(s: set<int>, x: int, n: nat)
    requires n < x
    ensures Product(s + {x}, n) == Product(s, n)
  {
    if n > 0 {
      ProductAbove(s, x, n - 1);
    }
  }

  lemma {:induction false} ProductInsert(s: set<int>, x: int, n: nat)
    requires x !in s && 1 <= x <= n
    ensures Product(s + {x}, n) == x * Product(s, n)
  {
    if x == n {
      ProductAbove(s, x, n - 1);
    } else {
      ProductInsert(s, x, n - 1);
      SwapFactors(n, x, Product(s, n - 1));
    }
  }

  /** The residues of a, 2a, ..., na. */
  ghost function Multiples(n: nat, a: int, p: int): (r: set<int>)
    requires p > 0
  {
    if n == 0 then {} else Multiples(n - 1, a, p) + {(a * n) % p}
  }

  /** A residue above n has a multiple of a that no residue up to n has. */
  lemma {:induction false} MultiplesDistinct(n: nat, k: int, a: int, p: int)
    requires IsPrime(p) && !Cong(a, 0, p) && n < k < p
    ensures (a * k) % p !in Multiples(n, a, p)
  {
    hide Cong;
    if n > 0 {
      MultiplesDistinct(n - 1, k, a, p);
      if (a * k) % p == (a * n) % p {
        CongSameMod(a * k, a * n, p);
        assert a * k == k * a && a * n == n * a;
        CancelFactor(k, n, a, p);
        CongUnique(k, n, p);
      }
    }
  }

  lemma MultipleInRange(k: int, a: int, p: int)
    requires IsPrime(p) && !Cong(a, 0, p) && 0 < k < p
    ensures 1 <= (a * k) % p <= p - 1
  {
    hide Cong;
    NotMultiple(k, p);
    EuclidLemma(a, k, p);
    CongSameMod(a * k, 0, p);
  }

  lemma {:induction false} MultiplesSize(n: nat, a: int, p: int)
    requires IsPrime(p) && !Cong(a, 0, p) && n < p
    ensures Multiples(n, a, p) <= UpTo(p - 1)
    ensures |Multiples(n, a, p)| == n
  {
    hide Cong;
    if n > 0 {
      MultiplesSize(n - 1, a, p);
      MultiplesDistinct(n - 1, n, a, p);
      MultipleInRange(n, a, p);
    }
  }

  lemma {:induction false} MultiplesProduct(n: nat, a: int, p: int)
    requires IsPrime(p) && !Cong(a, 0, p) && n < p
    ensures Cong(Product(Multiples(n, a, p), p - 1), Pow(a, n) * Factorial(n), p)
  {
    hide Cong;
    if n == 0 {
      ProductOfNone(p - 1);
      CongRefl(1, p);
    } else {
      var y := (a * n) % p;
      MultiplesProduct(n - 1, a, p);
      MultiplesDistinct(n - 1, n, a, p);
      MultipleInRange(n, a, p);
      ProductInsert(Multiples(n - 1, a, p), y, p - 1);
      CongMod(a * n, p);
      var e, q := Pow(a, n - 1), Factorial(n - 1);
      CongMul(y, a * n, Product(Multiples(n - 1, a, p), p - 1), e * q, p);
      MulRegroup(a, n, e, q);
    }
  }

  lemma {:induction false} ProductOfNone(n: nat)
    ensures Product({}, n) == 1
  {
    if n > 0 {
      ProductOfNone(n - 1);
    }
  }

  lemma {:induction false} FactorialNonZero(n: nat, p: int)
    requires IsPrime(p) && n < p
    ensures !Cong(Factorial(n), 0, p)
  {
    hide Cong;
    if n == 0 {
      NotMultiple(1, p);
    } else {
      FactorialNonZero(n - 1, p);
      NotMultiple(n, p);
      EuclidLemma(n, Factorial(n - 1), p);
    }
  }

  lemma SubsetSameSize(s: set<int>, t: set<int>)
    requires s <= t && |s| == |t|
    ensures s == t
  {
    assert t == s + (t - s);
  }

  /** The residues of a, 2a, ..., (p-1)a are all of 1, ..., p-1, so their products agree. */
  lemma MultiplesAreAll(a: int, p: int)
    requires IsPrime(p) && !Cong(a, 0, p)
    ensures Cong(Factorial(p - 1), Pow(a, p - 1) * Factorial(p - 1), p)
  {
    hide Cong, Product, Multiples, UpTo, Factorial, Pow;
    MultiplesSize(p - 1, a, p);
    SubsetSameSize(Multiples(p - 1, a, p), UpTo(p - 1));
    MultiplesProduct(p - 1, a, p);
    ProductOfAll(p - 1, p - 1);
  }

  /** Fermat's little theorem. */
  lemma Fermat(a: int, p: int)
    requires IsPrime(p) && !Cong(a, 0, p)
    ensures Cong(Pow(a, p - 1), 1, p)
  {
    hide Cong, Pow, Factorial;
    var f := Factorial(p - 1);
    MultiplesAreAll(a, p);
    FactorialNonZero(p - 1, p);
    CongSym(f, Pow(a, p - 1) * f, p);
    assert 1 * f == f;
    CancelFactor(Pow(a, p - 1), 1, f, p);
  }

  // ---------------------------------------------------------------------------------------------
  // The inverse modulo a prime

  /** The inverse of x modulo the prime p. */
  ghost function Inverse(x: int, p: int): (y: int)
    requires IsPrime(p) && !Cong(x, 0, p)
    ensures 0 <= y < p && Cong(x * y, 1, p)
  {
    ReducedInverse(x, p);
    var y :| 0 <= y < p && Cong(x * y, 1, p);
    y
  }

  lemma ReducedInverse(x: int, p: int)
    requires IsPrime(p) && !Cong(x, 0, p)
    ensures exists y :: 0 <= y < p && Cong(x * y, 1, p)
  {
    var y := InverseOf(x, p);
    CongMod(y, p);
    CongRefl(x, p);
    CongMul(x, x, y % p, y, p);
    CongTrans(x * (y % p), x * y, 1, p);
  }

  lemma InverseUnique(x: int, y: int, p: int)
    requires IsPrime(p) && !Cong(x, 0, p)
    requires 0 <= y < p && Cong(x * y, 1, p)
    ensures y == Inverse(x, p)
  {
    hide Cong;
    var z := Inverse(x, p);
    CongSym(x * z, 1, p);
    CongTrans(x * y, 1, x * z, p);
    assert x * y == y * x && x * z == z * x;
    CancelFactor(y, z, x, p);
    CongUnique(y, z, p);
  }

}
