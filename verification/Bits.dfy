/** Bitwise operators on natural numbers, defined bit by bit, and the arithmetic meaning of the
    masks the kernel uses. */
module Bits {

  function Pow2(k: nat): (p: nat)
    ensures p > 0
  {
    if k == 0 then 1 else 2 * Pow2(k - 1)
  }

  function And(x: nat, y: nat): nat
    decreases x
  {
    if x == 0 || y == 0 then 0 else 2 * And(x / 2, y / 2) + (x % 2) * (y % 2)
  }

  function Xor(x: nat, y: nat): nat
    decreases x + y
  {
    if x == 0 then y else if y == 0 then x else 2 * Xor(x / 2, y / 2) + (x + y) % 2
  }

  function Or(x: nat, y: nat): nat
    decreases x + y
  {
    if x == 0 then y else if y == 0 then x
    else 2 * Or(x / 2, y / 2) + if x % 2 == 1 || y % 2 == 1 then 1 else 0
  }

  ghost predicate IsPow2(n: nat) { exists k: nat :: n == Pow2(k) }

  lemma {:induction false} Pow2Step(k: nat)
    ensures Pow2(k + 1) == 2 * Pow2(k)
  {
  }

  lemma {:induction false} Pow2Mono(j: nat, k: nat)
    requires j <= k
    ensures Pow2(j) <= Pow2(k) && (j < k ==> Pow2(j) < Pow2(k))
    decreases k
  {
    if j < k { Pow2Mono(j, k - 1); }
  }

  lemma {:induction false} Pow2Add(j: nat, k: nat)
    ensures Pow2(j + k) == Pow2(j) * Pow2(k)
    decreases j
  {
    if j > 0 {
      Pow2Add(j - 1, k);
      Pow2Step(j - 1);
      Pow2Step(j - 1 + k);
      hide Pow2;
      TwiceMul(Pow2(j - 1), Pow2(k));
    }
  }

  lemma {:induction false} TwiceMul(x: nat, y: nat)
    ensures 2 * x * y == 2 * (x * y)
  {
  }

  lemma {:induction false} Pow2At32()
    ensures Pow2(31) == 0x8000_0000 && Pow2(32) == 0x1_0000_0000
  {
    assert Pow2(8) == 256;
    Pow2Add(8, 8);
    Pow2Add(16, 8);
    Pow2Add(16, 16);
    Pow2Step(31);
  }

  /** x & (2^k - 1) is x mod 2^k. */
  lemma {:induction false} MaskIsMod(x: nat, k: nat)
    ensures And(x, Pow2(k) - 1) == x % Pow2(k)
    decreases k
  {
    hide And;
    if k == 0 {
      AndZero(x);
    } else {
      var p := Pow2(k - 1);
      assert Pow2(k) == 2 * p;
      MaskIsMod(x / 2, k - 1);
      AndOdd(x, p - 1);
      ModDouble(x, p);
    }
  }

  lemma {:induction false} AndZero(x: nat)
    ensures And(x, 0) == 0 && x % 1 == 0
  {
  }

  lemma {:induction false} AndOdd(x: nat, m: nat)
    ensures And(x, 2 * m + 1) == 2 * And(x / 2, m) + x % 2
  {
    assert (2 * m + 1) / 2 == m && (2 * m + 1) % 2 == 1;
  }

  lemma {:induction false} ModDouble(x: nat, p: nat)
    requires p > 0
    ensures x % (2 * p) == 2 * (x / 2 % p) + x % 2
  {
    var q, r := x / 2 / p, x / 2 % p;
    assert x / 2 == p * q + r;
    assert x == 2 * p * q + (2 * r + x % 2);
    ModUnique(x, 2 * p, q, 2 * r + x % 2);
  }

  lemma {:induction false} ModUnique(x: nat, m: nat, q: nat, r: nat)
    requires m > 0 && x == m * q + r && r < m
    ensures x % m == r && x / m == q
  {
    var d := x / m - q;
    assert x == m * (x / m) + x % m;
    assert m * d == r - x % m by { assert m * d == m * (x / m) - m * q; }
    MulAtLeast(m, d);
  }

  lemma {:induction false} DivMod(x: nat, p: nat)
    requires p > 0
    ensures x / p >= 0 && x % p < p && x / p * p + x % p == x
  {
  }

  lemma {:induction false} MulPos(m: nat, d: nat)
    requires d > 0
    ensures m * d >= m
  {
    assert m * d == m + m * (d - 1);
  }

  lemma {:induction false} MulAtLeast(m: nat, d: int)
    requires m > 0
    ensures (d > 0 ==> m * d >= m) && (d < 0 ==> m * d + m <= 0)
  {
    if d > 0 {
      MulPos(m, d);
    } else if d < 0 {
      MulPos(m, -d);
      assert m * d == 0 - m * (-d);
    }
  }

  lemma {:induction false} Pow2Divides(j: nat, k: nat)
    requires j <= k
    ensures Pow2(k) % Pow2(j) == 0
  {
    Pow2Add(j, k - j);
    ModUnique(Pow2(k), Pow2(j), Pow2(k - j), 0);
  }

  lemma {:induction false} AndAtMost(x: nat, y: nat)
    ensures And(x, y) <= y
    decreases x
  {
    if x != 0 && y != 0 {
      AndAtMost(x / 2, y / 2);
      assert (x % 2) * (y % 2) <= y % 2 by { assert x % 2 == 0 || x % 2 == 1; }
    }
  }

  /** n & (n - 1) clears the lowest set bit, so it is 0 exactly for powers of two. */
  lemma {:induction false} Pow2Test(n: nat)
    requires n > 0
    ensures And(n, n - 1) == 0 <==> IsPow2(n)
    decreases n
  {
    if n == 1 {
      assert n == Pow2(0);
    } else if n % 2 == 0 {
      Pow2Test(n / 2);
      assert (n - 1) / 2 == n / 2 - 1;
      assert And(n, n - 1) == 2 * And(n / 2, n / 2 - 1);
      HalfPow2(n);
    } else {
      assert (n - 1) / 2 == n / 2;
      AndSelf(n / 2);
      assert !IsPow2(n) by { OddNotPow2(n); }
    }
  }

  lemma {:induction false} HalfPow2(n: nat)
    requires n > 1 && n % 2 == 0
    ensures IsPow2(n) <==> IsPow2(n / 2)
  {
    if IsPow2(n) {
      var k: nat :| n == Pow2(k);
      assert n / 2 == Pow2(k - 1);
    }
    if IsPow2(n / 2) {
      var k: nat :| n / 2 == Pow2(k);
      assert n == Pow2(k + 1);
    }
  }

  lemma {:induction false} OddNotPow2(n: nat)
    requires n > 1 && n % 2 == 1
    ensures !IsPow2(n)
  {
    forall k: nat ensures n != Pow2(k) { if k > 0 { assert Pow2(k) == 2 * Pow2(k - 1); } }
  }

  lemma {:induction false} AndStep(x: nat, y: nat)
    ensures And(x, y) == 2 * And(x / 2, y / 2) + if x % 2 == 1 && y % 2 == 1 then 1 else 0
  {
    assert x == 0 ==> And(x / 2, y / 2) == 0;
    assert y == 0 ==> And(x / 2, y / 2) == 0;
    assert x % 2 == 0 || x % 2 == 1;
  }

  lemma {:induction false} AndSelf(n: nat)
    ensures And(n, n) == n
    decreases n
  {
    hide And;
    if n == 0 {
      AndZero(n);
    } else {
      AndSelf(n / 2);
      AndStep(n, n);
    }
  }

  /** Halving the complement of n below 2p complements its half below p. */
  lemma {:induction false} HalfComplement(n: nat, p: nat)
    requires n < 2 * p
    ensures (2 * p - 1 - n) / 2 == p - 1 - n / 2 && (2 * p - 1 - n) % 2 == 1 - n % 2
  {
  }

  /** A number and its complement have no bit in common. */
  lemma {:induction false} AndComplement(n: nat, k: nat)
    requires n < Pow2(k)
    ensures And(n, Pow2(k) - 1 - n) == 0
    decreases k
  {
    hide And;
    if k == 0 {
      AndZero(n);
    } else {
      var p := Pow2(k - 1);
      HalfComplement(n, p);
      AndComplement(n / 2, k - 1);
      AndStep(n, 2 * p - 1 - n);
    }
  }

  /** n & -n in k bits is n exactly for powers of two. */
  lemma {:induction false} LowBitTest(n: nat, k: nat)
    requires 0 < n < Pow2(k)
    ensures And(n, Pow2(k) - n) == n <==> IsPow2(n)
    decreases n
  {
    hide And, IsPow2;
    var p := Pow2(k - 1);
    AndStep(n, 2 * p - n);
    if n % 2 == 0 {
      LowBitTest(n / 2, k - 1);
      EvenHalf(n, p);
      HalfPow2(n);
    } else {
      HalfComplement(n - 1, p);
      AndComplement(n / 2, k - 1);
      OddPow2(n);
    }
  }

  lemma {:induction false} EvenHalf(n: nat, p: nat)
    requires n % 2 == 0 && n < 2 * p
    ensures (2 * p - n) / 2 == p - n / 2 && (2 * p - n) % 2 == 0
  {
  }

  lemma {:induction false} OddPow2(n: nat)
    requires n % 2 == 1
    ensures IsPow2(n) <==> n == 1
  {
    if n == 1 { assert n == Pow2(0); } else { OddNotPow2(n); }
  }

  lemma {:induction false} DivHalf(a: nat, p: nat)
    requires p > 0
    ensures a / 2 / p == a / (2 * p)
  {
    var q, r := a / 2 / p, a / 2 % p;
    assert a / 2 == p * q + r;
    assert a == 2 * p * q + (2 * r + a % 2);
    ModUnique(a, 2 * p, q, 2 * r + a % 2);
  }

  lemma {:induction false} DivStep(a: nat, k: nat)
    ensures a / 2 / Pow2(k) == a / Pow2(k + 1)
  {
    DivHalf(a, Pow2(k));
  }

  /** x >> k. */
  function Shr(x: nat, k: nat): nat {
    if k == 0 then x else Shr(x / 2, k - 1)
  }

  lemma {:induction false} ShrIsDiv(x: nat, k: nat)
    ensures Shr(x, k) == x / Pow2(k)
    decreases k
  {
    if k > 0 {
      ShrIsDiv(x / 2, k - 1);
      DivStep(x, k - 1);
    }
  }

  lemma {:induction false} OrStep(x: nat, y: nat)
    ensures Or(x, y) == 2 * Or(x / 2, y / 2) + if x % 2 == 1 || y % 2 == 1 then 1 else 0
  {
    assert x == 0 ==> Or(x / 2, y / 2) == y / 2;
    assert y == 0 ==> Or(x / 2, y / 2) == x / 2;
  }

  /** Without a bit in common, x | y is x + y. */
  lemma {:induction false} OrDisjoint(a: nat, b: nat, k: nat)
    requires b < Pow2(k)
    ensures Or(a * Pow2(k), b) == a * Pow2(k) + b
    decreases k
  {
    hide Or, Pow2;
    if k == 0 {
      Pow2Small(a, b);
    } else {
      DoubledPow2(a, b, k);
      OrDisjoint(a, b / 2, k - 1);
      OrStep(2 * (a * Pow2(k - 1)), b);
    }
  }

  lemma {:induction false} Pow2Small(a: nat, b: nat)
    requires b < Pow2(0)
    ensures Or(a * Pow2(0), b) == a * Pow2(0) + b
  {
  }

  lemma {:induction false} DoubledPow2(a: nat, b: nat, k: nat)
    requires k > 0 && b < Pow2(k)
    ensures a * Pow2(k) == 2 * (a * Pow2(k - 1)) && b / 2 < Pow2(k - 1)
  {
    var p := Pow2(k - 1);
    assert Pow2(k) == 2 * p;
    hide Pow2;
    assert a * (2 * p) == 2 * (a * p);
  }

  /** Setting the lowest bit. */
  lemma {:induction false} OrOne(x: nat)
    ensures Or(x, 1) == if x % 2 == 1 then x else x + 1
  {
    OrStep(x, 1);
  }
}
