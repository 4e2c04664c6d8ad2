/**
 * Congruence modulo m, as a relation between integers.
 *
 * Proofs about field arithmetic elsewhere in the project keep `Cong` folded (`hide Cong`)
 * and use only the lemmas of this module, one per machine operation.
 */
module Congruence {

  /** a and b differ by a multiple of m. */
  ghost predicate Cong(a: int, b: int, m: int) {
    exists k :: a - b == k * m
  }

  lemma CongBy(a: int, b: int, m: int, k: int)
    requires a - b == k * m
    ensures Cong(a, b, m)
  {
  }

  lemma CongRefl(a: int, m: int)
    ensures Cong(a, a, m)
  {
    CongBy(a, a, m, 0);
  }

  lemma CongSym(a: int, b: int, m: int)
    requires Cong(a, b, m)
    ensures Cong(b, a, m)
  {
    var k :| a - b == k * m;
    CongBy(b, a, m, -k);
  }

  lemma CongTrans(a: int, b: int, c: int, m: int)
    requires Cong(a, b, m) && Cong(b, c, m)
    ensures Cong(a, c, m)
  {
    var k :| a - b == k * m;
    var l :| b - c == l * m;
    CongBy(a, c, m, k + l);
  }

  lemma CongAdd(a: int, a': int, b: int, b': int, m: int)
    requires Cong(a, a', m) && Cong(b, b', m)
    ensures Cong(a + b, a' + b', m)
  {
    var k :| a - a' == k * m;
    var l :| b - b' == l * m;
    CongBy(a + b, a' + b', m, k + l);
  }

  lemma CongSub(a: int, a': int, b: int, b': int, m: int)
    requires Cong(a, a', m) && Cong(b, b', m)
    ensures Cong(a - b, a' - b', m)
  {
    var k :| a - a' == k * m;
    var l :| b - b' == l * m;
    CongBy(a - b, a' - b', m, k - l);
  }

  lemma CongMul(a: int, a': int, b: int, b': int, m: int)
    requires Cong(a, a', m) && Cong(b, b', m)
    ensures Cong(a * b, a' * b', m)
  {
    var k :| a - a' == k * m;
    var l :| b - b' == l * m;
    hide Cong;
    ProductDifference(a, a', b, b', k, l, m);
    CongBy(a * b, a' * b', m, k * b + a' * l);
  }

  lemma ProductDifference(a: int, a': int, b: int, b': int, k: int, l: int, m: int)
    requires a - a' == k * m && b - b' == l * m
    ensures a * b - a' * b' == (k * b + a' * l) * m
  {
    assert a * b - a' * b' == (a - a') * b + a' * (b - b');
    assert (k * m) * b == (k * b) * m;
    assert a' * (l * m) == (a' * l) * m;
  }

  /** Multiples of m vanish. */
  lemma CongMultiple(k: int, m: int)
    ensures Cong(k * m, 0, m)
  {
    CongBy(k * m, 0, m, k);
  }

  /** A value is congruent to its remainder. */
  lemma CongMod(a: int, m: int)
    requires m > 0
    ensures Cong(a % m, a, m)
  {
    CongBy(a % m, a, m, -(a / m));
  }

  /** Two residues in range that are congruent are equal. */
  lemma CongUnique(a: int, b: int, m: int)
    requires 0 <= a < m && 0 <= b < m
    requires Cong(a, b, m)
    ensures a == b
  {
    var k :| a - b == k * m;
    assert k == 0;
  }

  lemma ModUnique(a: int, r: int, m: int)
    requires 0 <= r < m
    requires Cong(a, r, m)
    ensures a % m == r
  {
    CongMod(a, m);
    CongTrans(a % m, a, r, m);
    CongUnique(a % m, r, m);
  }

  lemma CongSameMod(a: int, b: int, m: int)
    requires m > 0
    ensures Cong(a, b, m) <==> a % m == b % m
  {
    CongMod(a, m);
    CongMod(b, m);
    CongSym(b % m, b, m);
    CongSym(a % m, a, m);
    if Cong(a, b, m) {
      CongTrans(a, b, b % m, m);
      ModUnique(a, b % m, m);
    } else if a % m == b % m {
      CongTrans(a, a % m, b, m);
    }
  }

  /** A congruence modulo a product holds modulo each factor. */
  lemma CongFactor(a: int, b: int, m: int, n: int)
    requires Cong(a, b, m * n)
    ensures Cong(a, b, m)
  {
    var k :| a - b == k * (m * n);
    assert k * (m * n) == (k * n) * m;
    CongBy(a, b, m, k * n);
  }

  lemma SwapFactors(x: int, y: int, z: int)
    ensures x * (y * z) == y * (x * z)
  {
  }

}
