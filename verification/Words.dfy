/**
 * EVM word arithmetic: a word is a natural number below R = 2^256, and every opcode is the
 * mathematical operation followed by reduction modulo R. Bitwise operations are defined bit by bit.
 */
module Words {

  /** r is 2 to the power k. */
  predicate IsPower(r: nat, k: nat)
    decreases r
  {
    if k == 0 then r == 1 else r > 0 && r % 2 == 0 && IsPower(r / 2, k - 1)
  }

  /** The one number that is 2^256; WordValue writes it out. */
  type WordModulus = r: nat | IsPower(r, 256) witness (PowerOf(256); Pow2(256))

  const R: WordModulus

  const HALF: nat := R / 2

  type Address = nat

  type Byte = b: int | 0 <= b < 256

  function WAdd(a: int, b: int): (r: nat) { (a + b) % R }

  function WSub(a: int, b: int): (r: nat) { (a - b) % R }

  function WMul(a: int, b: int): (r: nat) { (a * b) % R }

  /** The high word of the double-width product. */
  function MulHigh(a: nat, b: nat): (r: nat) { WDiv(a * b, R) }

  function AddMod(a: int, b: int, m: nat): (r: nat) { if m == 0 then 0 else (a + b) % m }

  function MulMod(a: int, b: int, m: nat): (r: nat) { if m == 0 then 0 else (a * b) % m }

  /** Division by zero yields zero. */
  function WDiv(a: nat, b: nat): (r: nat) { if b == 0 then 0 else a / b }

  function Pow2(k: nat): (r: nat)
    ensures r > 0
  {
    if k == 0 then 1 else 2 * Pow2(k - 1)
  }

  function Shr(k: nat, x: nat): (r: nat) { WDiv(x, Pow2(k)) }

  function WNot(x: nat): (r: nat)
    requires x < R
  {
    R - 1 - x
  }

  function BitAnd(a: nat, b: nat): (r: nat) {
    if a == 0 || b == 0 then 0 else 2 * BitAnd(a / 2, b / 2) + (if a % 2 == 1 && b % 2 == 1 then 1 else 0)
  }

  function BitOr(a: nat, b: nat): (r: nat) {
    if a == 0 then b else if b == 0 then a
    else 2 * BitOr(a / 2, b / 2) + (if a % 2 == 1 || b % 2 == 1 then 1 else 0)
  }

  function BitXor(a: nat, b: nat): (r: nat) {
    if a == 0 then b else if b == 0 then a
    else 2 * BitXor(a / 2, b / 2) + (if a % 2 != b % 2 then 1 else 0)
  }

  // ---------------------------------------------------------------------------------------------
  // What the wrapping operations compute

  lemma SmallMultiple(d: int, m: int)
    requires -m < d * m < m
    ensures d == 0
  {
  }

  lemma MulLess(x: int, y: int, r: nat)
    requires x * r < y * r
    ensures x < y
  {
  }

  lemma DivModUnique(x: int, q: int, r: int, m: int)
    requires 0 <= r < m && x == q * m + r
    ensures x / m == q && x % m == r
  {
    var d := x / m - q;
    assert d * m == (x / m) * m - q * m;
    assert x == (x / m) * m + x % m;
    SmallMultiple(d, m);
  }

  lemma WAddSpec(a: nat, b: nat)
    requires a < R && b < R
    ensures WAdd(a, b) == if a + b < R then a + b else a + b - R
  {
    if a + b < R {
      DivModUnique(a + b, 0, a + b, R);
    } else {
      DivModUnique(a + b, 1, a + b - R, R);
    }
  }

  lemma WSubSpec(a: nat, b: nat)
    requires a < R && b <= R
    ensures WSub(a, b) == if b <= a then a - b else a - b + R
  {
    if b <= a {
      DivModUnique(a - b, 0, a - b, R);
    } else {
      DivModUnique(a - b, -1, a - b + R, R);
    }
  }

  /** The two words of a double-width product. */
  lemma ProductSplit(a: nat, b: nat)
    ensures a * b == MulHigh(a, b) * R + WMul(a, b)
    ensures WMul(a, b) < R
  {
    WordSize();
  }

  lemma {:induction false} PowerOf(k: nat)
    ensures IsPower(Pow2(k), k)
  {
    if k > 0 {
      PowerOf(k - 1);
    }
  }

  lemma {:induction false} PowerIs(r: nat, k: nat)
    requires IsPower(r, k)
    ensures r == Pow2(k)
  {
    if k > 0 {
      PowerIs(r / 2, k - 1);
    }
  }

  lemma WordSize()
    ensures R == 2 * HALF && HALF > 1000000
  {
    WordValue();
  }

  lemma DoubleProduct(h: int, x: int)
    ensures (2 * h) * x == 2 * (h * x)
  {
  }

  lemma {:induction false} Pow2Add(i: nat, j: nat)
    ensures Pow2(i + j) == Pow2(i) * Pow2(j)
  {
    if i > 0 {
      Pow2Add(i - 1, j);
      DoubleProduct(Pow2(i - 1), Pow2(j));
    }
  }

  lemma Pow2Square(k: nat, v: nat)
    requires Pow2(k) == v
    ensures Pow2(2 * k) == v * v
  {
    Pow2Add(k, k);
  }

  /** The width of a word. */
  lemma WordWidth()
    ensures Pow2(255) == HALF && Pow2(256) == R
  {
    PowerIs(R, 256);
    assert Pow2(256) == 2 * Pow2(255);
  }

  lemma WordValue()
    ensures R == 0x1_0000000000000000_0000000000000000_0000000000000000_0000000000000000
  {
    PowerIs(R, 256);
    Pow2Square(1, 2);
    Pow2Square(2, 4);
    Pow2Square(4, 0x10);
    Pow2Square(8, 0x100);
    Pow2Square(16, 0x10000);
    Pow2Square(32, 0x100000000);
    Pow2Square(64, 0x10000000000000000);
    Pow2Square(128, 0x100000000000000000000000000000000);
  }

  // ---------------------------------------------------------------------------------------------
  // Bitwise operations against a power of two

  /** Setting a bit above all others adds it. */
  lemma {:induction false} OrTopBit(x: nat, k: nat)
    requires x < Pow2(k)
    ensures BitOr(x, Pow2(k)) == x + Pow2(k)
  {
    if x != 0 {
      OrTopBit(x / 2, k - 1);
    }
  }

  /** Testing the top bit of a (k+1)-bit number. */
  lemma {:induction false} AndTopBit(x: nat, k: nat)
    requires x < 2 * Pow2(k)
    ensures BitAnd(x, Pow2(k)) == 0 <==> x < Pow2(k)
  {
    if k == 0 {
      assert BitAnd(0, 0) == 0;
    } else if x != 0 {
      AndTopBit(x / 2, k - 1);
    }
  }

  // ---------------------------------------------------------------------------------------------
  // Shifts

  /** Shifting one place less doubles the prefix and appends a bit. */
  lemma ShrStep(i: nat, x: nat)
    ensures Shr(i, x) / 2 == Shr(i + 1, x)
  {
    var m := Pow2(i);
    assert Pow2(i + 1) == 2 * m;
    var q, r := x / m, x % m;
    var h, b := q / 2, q % 2;
    assert x == (2 * h + b) * m + r;
    assert (2 * h + b) * m == h * (2 * m) + b * m;
    assert b * m <= m;
    DivModUnique(x, h, b * m + r, 2 * m);
  }

  lemma ShrWhole(x: nat)
    ensures Shr(0, x) == x
  {
  }

  lemma ShrNothing(i: nat, x: nat)
    requires x < Pow2(i)
    ensures Shr(i, x) == 0
  {
    DivModUnique(x, 0, x, Pow2(i));
  }

  lemma Regroup(x: int, y: int, z: int)
    ensures (x * y) * z == x * (y * z)
  {
  }

  lemma ShrEnds(t: nat)
    requires t < R
    ensures Shr(256, t) == 0 && Shr(0, t) == t
  {
    ShrWhole(t);
    hide Shr, Pow2;
    WordWidth();
    ShrNothing(256, t);
  }

  lemma MulMono(a: int, b: int, c: nat)
    requires a <= b
    ensures a * c <= b * c
  {
  }

  lemma ProductLess(a: nat, b: nat, c: nat, d: nat)
    requires a < c && b < d
    ensures a * b < c * d
  {
    MulMono(b, d, a);
    MulMono(a + 1, c, d);
    assert (a + 1) * d == a * d + d;
  }

  /** Joining bits below position j with bits from position j on is addition. */
  lemma {:induction false} OrDisjoint(a: nat, b: nat, j: nat)
    requires a < Pow2(j)
    ensures BitOr(a, b * Pow2(j)) == a + b * Pow2(j)
  {
    if a != 0 && b != 0 {
      var h := b * Pow2(j - 1);
      assert b * Pow2(j) == 2 * h;
      OrDisjoint(a / 2, b, j - 1);
    }
  }

  lemma {:induction false} AndCommutes(a: nat, b: nat)
    ensures BitAnd(a, b) == BitAnd(b, a)
  {
    if a != 0 && b != 0 {
      AndCommutes(a / 2, b / 2);
    }
  }

  lemma {:induction false} OrCommutes(a: nat, b: nat)
    ensures BitOr(a, b) == BitOr(b, a)
  {
    if a != 0 && b != 0 {
      OrCommutes(a / 2, b / 2);
    }
  }

}
