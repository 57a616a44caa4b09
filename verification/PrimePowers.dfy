/**
  Powers modulo powers of a prime: what decides which numbers a Fermat test can take
  for primes, and which it can reject.
  */
module PrimePowers {
  import opened NumberTheory

  // ----- laws of powers -------------------------------------------------------------

  lemma {:induction false} PowOne(e: nat)
    ensures Pow(1, e) == 1
  {
    if e > 0 {
      PowOne(e - 1);
    }
  }

  lemma {:induction false} PowAdd(b: int, i: nat, j: nat)
    ensures Pow(b, i + j) == Pow(b, i) * Pow(b, j)
  {
    if i > 0 {
      PowAdd(b, i - 1, j);
      Regroup(b, Pow(b, j), Pow(b, i - 1));
    }
  }

  lemma {:induction false} PowMultiply(b: int, i: nat, j: nat)
    ensures Pow(Pow(b, i), j) == Pow(b, i * j)
  {
    if j > 0 {
      PowMultiply(b, i, j - 1);
      PowAdd(b, i, i * (j - 1));
      assert i + i * (j - 1) == i * j;
    }
  }

  lemma {:induction false} PowAtLeast(b: nat, e: nat)
    requires b >= 1
    ensures Pow(b, e) >= 1 && (e > 0 ==> Pow(b, e) >= b)
  {
    if e > 0 {
      PowAtLeast(b, e - 1);
      ProductMonotone(1, Pow(b, e - 1), b);
    }
  }

  lemma {:induction false} PowOdd(b: nat, e: nat)
    requires b % 2 == 1
    ensures Pow(b, e) % 2 == 1
  {
    if e > 0 {
      PowOdd(b, e - 1);
      OddProduct(b, Pow(b, e - 1));
    }
  }

  lemma OddProduct(a: int, b: int)
    ensures (a * b) % 2 == 1 <==> a % 2 == 1 && b % 2 == 1
  {
    ModMulLeft(a, b, 2);
    assert a % 2 == 0 ==> (a % 2) * b == 0;
    assert a % 2 == 1 ==> (a % 2) * b == b;
  }

  lemma PowDivisible(p: int, k: nat)
    requires k > 0
    ensures Divides(p, Pow(p, k))
  {}

  // ----- congruent powers ---------------------------------------------------------------

  /** 1 + x + ... + x^(m-1) */
  function Geometric(x: int, m: nat): int {
    if m == 0 then 0 else Geometric(x, m - 1) + Pow(x, m - 1)
  }

  lemma {:induction false} GeometricProduct(x: int, m: nat)
    ensures (x - 1) * Geometric(x, m) == Pow(x, m) - 1
  {
    if m > 0 {
      GeometricProduct(x, m - 1);
      Distribute(x, Geometric(x, m - 1), Pow(x, m - 1));
    }
  }

  lemma Distribute(x: int, g: int, w: int)
    ensures (x - 1) * (g + w) == (x - 1) * g + (x * w - w)
  {}

  lemma {:induction false} GeometricNonNegative(x: nat, m: nat)
    ensures Geometric(x, m) >= 0
  {
    if m > 0 {
      GeometricNonNegative(x, m - 1);
      PowNonNegative(x, m - 1);
    }
  }

  lemma {:induction false} PowNonNegative(x: nat, m: nat)
    ensures Pow(x, m) >= 0
  {
    if m > 0 {
      PowNonNegative(x, m - 1);
    }
  }

  /** If `x` is 1 modulo `d`, so are its powers. */
  lemma PowStaysOne(x: int, d: int, e: nat)
    requires Divides(d, x - 1)
    ensures Divides(d, Pow(x, e) - 1)
  {
    GeometricProduct(x, e);
    DividesMultiple(d, x - 1, Geometric(x, e));
    assert Geometric(x, e) * (x - 1) == Pow(x, e) - 1;
  }

  lemma {:induction false} GeometricIsLength(x: int, d: int, m: nat)
    requires Divides(d, x - 1)
    ensures Divides(d, Geometric(x, m) - m)
  {
    if m == 0 {
      assert 0 == d * 0;
    } else {
      GeometricIsLength(x, d, m - 1);
      PowStaysOne(x, d, m - 1);
      DividesSum(d, Geometric(x, m - 1) - (m - 1), Pow(x, m - 1) - 1);
    }
  }

  lemma DividesProducts(c: int, d: int, a: int, b: int)
    requires Divides(c, a) && Divides(d, b)
    ensures Divides(c * d, a * b)
  {
    var x :| a == c * x;
    var y :| b == d * y;
    assert (c * x) * (d * y) == (c * d) * (x * y) by {
      Regroup(c * x, y, d);
      Regroup(c, x, d);
      Regroup(c * d, y, x);
    }
  }

  /** A power with exponent `p` is 1 modulo one more factor `p`. */
  lemma LiftOnce(x: int, p: nat, d: int)
    requires Divides(p, x - 1) && Divides(d, x - 1)
    ensures Divides(d * p, Pow(x, p) - 1)
  {
    GeometricProduct(x, p);
    GeometricIsLength(x, p, p);
    assert p == p * 1;
    DividesSum(p, Geometric(x, p) - p, p);
    DividesProducts(d, p, x - 1, Geometric(x, p));
  }

  lemma {:induction false} Lift(x: int, p: nat, k: nat)
    requires Divides(p, x - 1)
    ensures Pow(p, k) >= 0
    ensures Divides(Pow(p, k + 1), Pow(x, Pow(p, k)) - 1)
  {
    PowNonNegative(p, k);
    if k == 0 {
      assert Pow(p, 1) == p * Pow(p, 0) == p;
      assert Pow(x, 1) == x * Pow(x, 0) == x;
    } else {
      Lift(x, p, k - 1);
      var y := Pow(x, Pow(p, k - 1));
      PowStaysOne(x, p, Pow(p, k - 1));
      LiftOnce(y, p, Pow(p, k));
      PowMultiply(x, Pow(p, k - 1), p);
      assert Pow(p, k - 1) * p == Pow(p, k) && Pow(p, k) * p == Pow(p, k + 1);
    }
  }

  /** Euler's theorem for a power of a prime. */
  lemma EulerPrimePower(p: nat, a: nat, k: nat)
    requires IsPrime(p) && !Divides(p, a)
    ensures Pow(p, k) >= 0
    ensures Divides(Pow(p, k + 1), Pow(Pow(a, p - 1), Pow(p, k)) - 1)
  {
    FermatLittle(p, a);
    var w := Pow(a, p - 1);
    assert w - 1 == p * (w / p);
    Lift(w, p, k);
  }

  /** Raising to the power p, any number of times, changes nothing modulo p. */
  lemma {:induction false} FermatRepeated(p: nat, a: nat, k: nat)
    requires IsPrime(p)
    ensures Pow(p, k) >= 0 && Pow(a, Pow(p, k)) >= 0
    ensures Divides(p, Pow(a, Pow(p, k)) - a)
  {
    PowNonNegative(p, k);
    PowNonNegative(a, Pow(p, k));
    if k == 0 {
      assert Pow(a, 1) == a * Pow(a, 0) == a;
      assert 0 == p * 0;
    } else {
      FermatRepeated(p, a, k - 1);
      var y := Pow(a, Pow(p, k - 1));
      FermatPower(p, y);
      PowMultiply(a, Pow(p, k - 1), p);
      assert Pow(p, k - 1) * p == Pow(p, k);
      DividesSum(p, Pow(y, p) - y, y - a);
    }
  }

  // ----- coprime factors -------------------------------------------------------------------

  /** `u` and `v` have no common factor: some combination of them is 1. */
  ghost predicate Coprime(u: int, v: int) {
    exists x, y :: Combination(u, v, x, y) == 1
  }

  function Combination(u: int, v: int, x: int, y: int): int {
    x * u + y * v
  }

  lemma GcdOneIsCoprime(u: nat, v: nat)
    requires Gcd(u, v) == 1
    ensures Coprime(u, v)
  {
    var x, y := Bezout(u, v);
    assert Combination(u, v, x, y) == 1;
  }

  lemma CombineCoprime(u: int, w: int, v: int, x: int, y: int, s: int, t: int)
    requires x * u + y * v == 1 && s * w + t * v == 1
    ensures (x * s) * (u * w) + (x * u * t + y) * v == 1
  {
    assert (x * u) * (s * w + t * v) == (x * u) * (s * w) + (x * u * t) * v by {
      Regroup(x * u, v, t);
    }
    assert (x * s) * (u * w) == (x * u) * (s * w) by {
      Regroup(x * s, w, u);
      Regroup(x, u, s);
      Regroup(x * u, w, s);
    }
  }

  lemma {:induction false} PrimePowerCoprime(p: nat, k: nat, m: nat)
    requires IsPrime(p) && !Divides(p, m)
    ensures Coprime(Pow(p, k), m)
  {
    if k == 0 {
      assert Combination(Pow(p, 0), m, 1, 0) == 1;
    } else {
      PrimePowerCoprime(p, k - 1, m);
      var s, t :| Combination(Pow(p, k - 1), m, s, t) == 1;
      PrimeGcd(p, m);
      var y, x := Bezout(m, p);
      CombineCoprime(p, Pow(p, k - 1), m, x, y, s, t);
      assert Combination(Pow(p, k), m, x * s, x * p * t + y) == 1;
    }
  }

  /** Every number is a power of a prime times a rest the prime does not divide. */
  lemma {:induction false} SplitOff(n: nat, p: nat) returns (k: nat, m: nat)
    requires n >= 1 && p >= 2
    ensures n == Pow(p, k) * m && m >= 1 && !Divides(p, m)
    ensures Divides(p, n) ==> k >= 1
  {
    if Divides(p, n) {
      var q: int :| n == p * q;
      QuotientSmaller(n, p, q);
      k, m := SplitOff(q, p);
      Regroup(p, m, Pow(p, k));
      k := k + 1;
      assert Pow(p, k) == p * Pow(p, k - 1);
    } else {
      k, m := 0, n;
    }
  }

  lemma QuotientSmaller(n: int, p: int, q: int)
    requires n >= 1 && p >= 2 && n == p * q
    ensures 1 <= q < n
  {}

  /** If a prime power divides a product and the prime does not divide one factor, it divides the other. */
  lemma CoprimeFactor(u: int, a: int, b: int)
    requires Coprime(u, a) && Divides(u, b * a)
    ensures Divides(u, b)
  {
    var x, y :| Combination(u, a, x, y) == 1;
    assert u == u * 1;
    DividesLinear(u, u, b * a, b * x, y);
    assert (b * x) * u + y * (b * a) == b * (x * u + y * a) by {
      Regroup(b, u, x);
      Regroup(y, a, b);
      Regroup(b, a, y);
    }
  }

  ghost predicate PowerOf3(n: int) {
    exists k: nat :: n == Pow(3, k)
  }

  lemma ThreeIsPrime()
    ensures IsPrime(3)
  {
    DividesIsZeroRemainder(2, 3);
  }

  /** An odd number from 5 up is a power of a prime or a product of two coprime odd factors. */
  lemma OddSplits(n: nat) returns (p: nat, k: nat, m: nat)
    requires n % 2 == 1 && n >= 3
    ensures IsPrime(p) && p >= 3 && p % 2 == 1 && k >= 1
    ensures n == Pow(p, k) * m && Pow(p, k) >= 3 && Pow(p, k) % 2 == 1
    ensures m == 1 || (m >= 3 && m % 2 == 1 && Coprime(Pow(p, k), m))
  {
    p := PrimeFactor(n);
    k, m := SplitOff(n, p);
    OddProduct(Pow(p, k), m);
    assert Pow(p, k) == p * Pow(p, k - 1);
    OddProduct(p, Pow(p, k - 1));
    PowAtLeast(p, k);
    PrimePowerCoprime(p, k, m);
  }
}
