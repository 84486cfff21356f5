/** Machine words as the exchange uses them: fixed widths written as remainders, and bit masks. */
module Words {

  const TWO16: nat := 0x1_0000
  const TWO32: nat := 0x1_0000_0000

  /** An unsigned 32-bit value. */
  type word32 = x: nat | x < TWO32

  /** Unsigned 32-bit subtraction from a wrapped total is subtraction from the true total, wrapped. */
  lemma WrapSub(total: int, q: int)
    ensures (total % TWO32 - q) % TWO32 == (total - q) % TWO32
  {
  }

  function Pow2(k: nat): (p: nat)
    ensures p >= 1
  {
    if k == 0 then 1 else 2 * Pow2(k - 1)
  }

  ghost predicate IsPow2(n: nat) {
    exists k: nat :: n == Pow2(k)
  }

  /** Bitwise conjunction, bit by bit from the low end. */
  function BitAnd(x: nat, y: nat): (r: nat)
    ensures r <= x
  {
    if x == 0 || y == 0 then 0
    else 2 * BitAnd(x / 2, y / 2) + (if x % 2 == 1 && y % 2 == 1 then 1 else 0)
  }

  lemma FactorBound(d: int, k: int)
    requires d > 0
    ensures k >= 1 ==> d * k >= d
    ensures k <= -1 ==> d * k <= -d
  {
    if k >= 1 {
      assert d * k == d * (k - 1) + d;
    } else if k <= -1 {
      assert d * k == d * (k + 1) - d;
    }
  }

  /** Quotient and remainder are determined by the division equation. */
  lemma DivModUnique(x: int, d: int, q: int, r: int)
    requires x == d * q + r && 0 <= r < d
    ensures x / d == q && x % d == r
  {
    var q', r' := x / d, x % d;
    assert x == d * q' + r';
    assert d * (q - q') == d * q - d * q';
    FactorBound(d, q - q');
  }

  lemma HalfRemainder(x: nat, p: nat)
    requires p > 0
    ensures x % (2 * p) == 2 * ((x / 2) % p) + x % 2
  {
    var q, r := (x / 2) / p, (x / 2) % p;
    assert x / 2 == p * q + r;
    assert (2 * p) * q == 2 * (p * q);
    DivModUnique(x, 2 * p, q, 2 * r + x % 2);
  }

  lemma MaskHalf(x: nat, p: nat)
    requires p > 0
    ensures BitAnd(x, 2 * p - 1) == 2 * BitAnd(x / 2, p - 1) + x % 2
  {
    assert (2 * p - 1) / 2 == p - 1 && (2 * p - 1) % 2 == 1;
  }

  /** Masking with 2^k - 1 is the remainder by 2^k. */
  lemma {:induction false} MaskIsRemainder(x: nat, k: nat)
    ensures BitAnd(x, Pow2(k) - 1) == x % Pow2(k)
    decreases k
  {
    if k > 0 {
      MaskIsRemainder(x / 2, k - 1);
      HalfRemainder(x, Pow2(k - 1));
      MaskHalf(x, Pow2(k - 1));
    }
  }

  /** The mask m changes no value up to m. */
  ghost predicate Transparent(m: nat) {
    forall l: nat :: l <= m ==> BitAnd(l, m) == l
  }

  /** A mask m leaves every value up to m alone exactly when m + 1 is a power of two. */
  lemma {:induction false} MaskIsIdentityIffPow2(m: nat)
    ensures Transparent(m) <==> IsPow2(m + 1)
  {
    if IsPow2(m + 1) {
      var k: nat :| m + 1 == Pow2(k);
      forall l: nat | l <= m
        ensures BitAnd(l, m) == l
      {
        MaskIsRemainder(l, k);
        DivModUnique(l, m + 1, 0, l);
      }
    }
    if Transparent(m) {
      IdentityMaskIsPow2(m);
    }
  }

  lemma {:induction false} IdentityMaskIsPow2(m: nat)
    requires Transparent(m)
    ensures IsPow2(m + 1)
  {
    if m == 0 {
      assert 1 == Pow2(0);
    } else if m % 2 == 0 {
      assert BitAnd(1, m) == 2 * BitAnd(0, m / 2);
      assert false;
    } else {
      forall l: nat | l <= m / 2
        ensures BitAnd(l, m / 2) == l
      {
        assert BitAnd(2 * l, m) == 2 * l;
        assert (2 * l) / 2 == l;
      }
      IdentityMaskIsPow2(m / 2);
      var k: nat :| m / 2 + 1 == Pow2(k);
      assert m + 1 == Pow2(k + 1);
    }
  }

  /** Taking a remainder by a multiple first does not change the remainder. */
  lemma ModOfMod(x: nat, d: nat, c: nat)
    requires d > 0 && c > 0
    ensures d * c > 0 && (x % (d * c)) % d == x % d
  {
    assert d * c > 0;
    var q, r := x / (d * c), x % (d * c);
    assert x == (d * c) * q + r;
    var q', r' := r / d, r % d;
    assert x == d * (c * q + q') + r' by {
      assert (d * c) * q == d * (c * q);
      assert r == d * q' + r';
      assert d * (c * q + q') == d * (c * q) + d * q';
    }
    DivModUnique(x, d, c * q + q', r');
  }

  /** Two numbers have the same remainder exactly when their distance is a multiple. */
  lemma SameRemainder(a: int, b: int, d: int)
    requires d > 0
    ensures a % d == b % d <==> (a - b) % d == 0
  {
    var qa, qb := a / d, b / d;
    assert a == d * qa + a % d && b == d * qb + b % d;
    assert d * (qa - qb) == d * qa - d * qb;
    if a % d == b % d {
      DivModUnique(a - b, d, qa - qb, 0);
    }
    if (a - b) % d == 0 {
      var q := (a - b) / d;
      assert a == b + d * q;
      assert d * (qb + q) == d * qb + d * q;
      DivModUnique(a, d, qb + q, b % d);
    }
  }

  /** Numbers less than d apart with the same remainder are equal. */
  lemma CloseSameRemainder(a: int, b: int, d: int)
    requires d > 0 && -d < a - b < d && a % d == b % d
    ensures a == b
  {
    SameRemainder(a, b, d);
    FactorBound(d, (a - b) / d);
  }

  lemma DoubleFactor(a: int, b: int)
    ensures 2 * (a * b) == a * (2 * b)
  {
  }

  /** A power of two up to 2^n divides 2^n. */
  lemma {:induction false} Pow2Divides(k: nat, n: nat)
    requires k <= n
    ensures Pow2(n) == Pow2(k) * Pow2(n - k)
    decreases n - k
  {
    if k < n {
      Pow2Divides(k, n - 1);
      DoubleFactor(Pow2(k), Pow2(n - 1 - k));
    }
  }

  lemma {:induction false} Pow2Monotone(j: nat, k: nat)
    requires j < k
    ensures Pow2(j) < Pow2(k)
    decreases k
  {
    if j < k - 1 {
      Pow2Monotone(j, k - 1);
    }
  }

  /** The two constants are the word sizes they stand for. */
  lemma WordSizes()
    ensures TWO16 == Pow2(16) && TWO32 == TWO16 * TWO16 == Pow2(32)
  {
    Pow2Sixteen();
    Pow2Divides(16, 32);
  }

  lemma Pow2Sixteen()
    ensures Pow2(16) == TWO16
  {
    assert Pow2(4) == 16;
    assert Pow2(8) == 256;
    assert Pow2(12) == 4096;
  }
}
