/**
  Which numbers the randomised Fermat test of include/HashMap.c can accept and which it
  can reject, and what that means for the search for a table size.
  */
module FermatBases {
  import opened NumberTheory
  import opened PrimePowers
  import opened PrimeSearch

  /** From here on a 32-bit search may go on for ever. */
  const ENDLESS_FROM: nat := 65521

  /** An `int` holds `n`, and the products of the test on it do not overflow. */
  predicate Exact(n: nat, w: Width) {
    n <= if w.Unbounded? then RAND_MAX else 46341
  }

  // ----- rounds as powers -------------------------------------------------------------------

  /** Any number from 2 to `n - 3` may be drawn, and no other. */
  lemma BasesDrawn(a: int, n: nat, w: Width)
    requires 5 <= n <= RAND_MAX
    ensures IsBase(a, n, w) <==> 2 <= a <= n - 3
  {
    if 2 <= a <= n - 3 {
      DivModUnique(a - 2, n - 4, 0, a - 2);
      assert Base(a - 2, n, w) == a;
    }
  }

  lemma RoundIsPower(a: nat, n: nat, w: Width)
    requires 5 <= n && Exact(n, w) && a < n
    ensures PassesRound(a, n, w) <==> Pow(a, n - 1) % n == 1
  {
    PowerLoopIsModularPower(1, a, n - 1, n, w);
    assert 1 * Pow(a, n - 1) == Pow(a, n - 1);
  }

  /** `a` may be drawn for `n`, and then passes its round if products are exact. */
  predicate Passing(a: nat, n: nat)
    requires n >= 5
  {
    2 <= a <= n - 3 && Pow(a, n - 1) % n == 1
  }

  /** One base that passes is enough: it may be drawn nine times. */
  lemma AcceptableByOneBase(n: nat, w: Width)
    requires 5 <= n && Exact(n, w)
    ensures Acceptable(n, w) <==> exists a: nat :: Passing(a, n)
  {
    if Acceptable(n, w) {
      var bases :| Survives(n, bases, w);
      var a := bases[0];
      assert IsBase(a, n, w) && PassesRound(a, n, w);
      BasesDrawn(a, n, w);
      RoundIsPower(a, n, w);
      assert Passing(a, n);
    }
    if a: nat :| Passing(a, n) {
      BasesDrawn(a, n, w);
      RoundIsPower(a, n, w);
      assert Survives(n, seq(ROUNDS, _ => a), w);
    }
  }

  lemma OneModulo(x: int, n: nat)
    requires n > 1
    ensures x % n == 1 <==> Divides(n, x - 1)
  {
    EqualRemainders(x, 1, n);
    DivModUnique(1, n, 0, 1);
  }

  /** A number and its remainder differ by a multiple of every factor of the modulus. */
  lemma RemainderModuloFactor(z: int, n: int, u: int)
    requires n > 0 && Divides(u, n)
    ensures Divides(u, z - z % n)
  {
    assert z - z % n == (z / n) * n;
    DividesMultiple(u, n, z / n);
  }

  lemma NoSmallMultiple(u: int, x: int)
    requires u > x > 0
    ensures !Divides(u, x)
  {
    if Divides(u, x) {
      DivisorBound(u, x);
    }
  }

  lemma HalfPower(a: nat, n: nat)
    requires n % 2 == 1
    ensures Pow(a * a, (n - 1) / 2) == Pow(a, n - 1)
  {
    PowSquare(a, (n - 1) / 2);
  }

  // ----- numbers that can be accepted -------------------------------------------------------

  lemma CombinedRoot(u: int, v: int, x: int, y: int)
    requires x * u + y * v == 1
    ensures Divides(u, (x * u - y * v) + 1) && Divides(v, (x * u - y * v) - 1)
  {
    var z := x * u - y * v;
    assert z + 1 == u * (2 * x);
    assert z - 1 == v * (-2 * y);
  }

  lemma ReducedRoot(u: nat, v: nat, n: nat, z: int, e: int)
    requires n == u * v && n > 0 && e == z % n
    requires Divides(u, z + 1) && Divides(v, z - 1)
    ensures Divides(u, e + 1) && Divides(v, e - 1) && Divides(n, (e + 1) * (e - 1))
  {
    FactorsDivide(u, v);
    RemainderModuloFactor(z, n, u);
    RemainderModuloFactor(z, n, v);
    DividesDifference(u, z + 1, z - e);
    DividesDifference(v, z - 1, z - e);
    DividesProducts(u, v, e + 1, e - 1);
  }

  /** A square root of 1 other than 1 and -1: it is -1 modulo `u` and 1 modulo `v`. */
  lemma CoprimeRoot(u: nat, v: nat, n: nat) returns (e: nat)
    requires u >= 3 && v >= 3 && Coprime(u, v) && n == u * v
    ensures 2 <= e <= n - 3 && Divides(n, (e + 1) * (e - 1))
  {
    var x, y :| Combination(u, v, x, y) == 1;
    CombinedRoot(u, v, x, y);
    NonZeroProduct(u, v);
    e := (x * u - y * v) % n;
    ReducedRoot(u, v, n, x * u - y * v, e);
    RootInRange(u, v, e);
  }

  lemma FactorsDivide(u: int, v: int)
    ensures Divides(u, u * v) && Divides(v, u * v)
  {
    assert u * v == v * u;
  }

  lemma RootInRange(u: nat, v: nat, e: nat)
    requires u >= 3 && v >= 3 && e < u * v
    requires Divides(u, e + 1) && Divides(v, e - 1)
    ensures 2 <= e <= u * v - 3
  {
    FactorsDivide(u, v);
    if e <= 1 {
      NoSmallMultiple(u, e + 1);
    } else if e == u * v - 1 {
      DividesDifference(v, u * v, e - 1);
      NoSmallMultiple(v, 2);
    } else if e == u * v - 2 {
      DividesDifference(u, u * v, e + 1);
      NoSmallMultiple(u, 1);
    }
  }

  lemma RootAccepted(e: nat, n: nat)
    requires n >= 5 && n % 2 == 1 && 2 <= e <= n - 3 && Divides(n, (e + 1) * (e - 1))
    ensures Passing(e, n)
  {
    assert (e + 1) * (e - 1) == e * e - 1;
    PowStaysOne(e * e, n, (n - 1) / 2);
    HalfPower(e, n);
    OneModulo(Pow(e, n - 1), n);
  }

  lemma ProductAccepted(u: nat, v: nat, n: nat) returns (e: nat)
    requires u >= 3 && v >= 3 && Coprime(u, v) && n == u * v && n % 2 == 1 && n >= 5
    ensures Passing(e, n)
  {
    e := CoprimeRoot(u, v, n);
    RootAccepted(e, n);
  }

  /** For a power of a prime from 5 up: a base of an order that divides p - 1. */
  lemma PrimePowerAccepted(p: nat, k: nat) returns (e: nat)
    requires IsPrime(p) && p >= 5 && k >= 1
    ensures Pow(p, k) >= 5 && Passing(e, Pow(p, k))
  {
    PowAtLeast(p, k);
    PowNonNegative(p, k - 1);
    var n, t := Pow(p, k), Pow(p, k - 1);
    PowNonNegative(2, t);
    e := Pow(2, t) % n;
    OrderDividesSize(p, k, e);
    FermatRepeated(p, 2, k - 1);
    PowDivisible(p, k);
    RemainderModuloFactor(Pow(2, t), n, p);
    DividesDifference(p, Pow(2, t) - 2, Pow(2, t) - e);
    LikeTwoInRange(p, n, e);
  }

  /** A number below a multiple of `p` that leaves the remainder 2. */
  lemma LikeTwoInRange(p: nat, n: nat, e: nat)
    requires p >= 5 && Divides(p, n) && e < n && Divides(p, e - 2)
    ensures 2 <= e <= n - 3
  {
    if e < 2 {
      assert 0 == p * 0;
      DividesDifference(p, 0, e - 2);
      NoSmallMultiple(p, 2 - e);
    }
    if e > n - 3 {
      DividesDifference(p, n, e - 2);
      NoSmallMultiple(p, n - (e - 2));
    }
  }

  lemma OrderDividesSize(p: nat, k: nat, e: nat)
    requires IsPrime(p) && p >= 5 && k >= 1
    requires Pow(p, k) >= 5 && Pow(p, k - 1) >= 0 && e == Pow(2, Pow(p, k - 1)) % Pow(p, k)
    ensures Pow(e, Pow(p, k) - 1) % Pow(p, k) == 1
  {
    var n, t, g := Pow(p, k), Pow(p, k - 1), Geometric(p, k);
    if Divides(p, 2) {
      NoSmallMultiple(p, 2);
    }
    EulerPrimePower(p, 2, k - 1);
    GeometricProduct(p, k);
    GeometricNonNegative(p, k);
    var o := Pow(Pow(2, p - 1), t);
    PowStaysOne(o, n, g);
    PowMultiply(2, p - 1, t);
    PowMultiply(2, (p - 1) * t, g);
    PowMultiply(2, t, n - 1);
    assert ((p - 1) * t) * g == t * ((p - 1) * g) by { Regroup(p - 1, g, t); Regroup(t, g, p - 1); }
    PowModBase(Pow(2, t), n - 1, n);
    OneModulo(Pow(Pow(2, t), n - 1), n);
  }

  /** Modulo a power of 3 only 1 and -1 pass, and neither may be drawn. */
  lemma PowerOf3Fails(k: nat, a: nat)
    requires Pow(3, k) >= 5
    ensures !Passing(a, Pow(3, k))
  {
    var n := Pow(3, k);
    if Passing(a, n) {
      OneModulo(Pow(a, n - 1), n);
      assert k > 0;
      PowDivisible(3, k);
      DividesTransitive(3, n, Pow(a, n - 1) - 1);
      NotMultipleOf3(a, n - 1);
      ThreeIsPrime();
      SquareIsOne(k, a, n, 3);
      OnlyTrivialRoots(k, a);
    }
  }

  lemma NotMultipleOf3(a: nat, e: nat)
    requires e > 0 && Divides(3, Pow(a, e) - 1)
    ensures !Divides(3, a)
  {
    if Divides(3, a) {
      DividesMultiple(3, a, Pow(a, e - 1));
      assert Pow(a, e - 1) * a == Pow(a, e);
      DividesDifference(3, Pow(a, e), Pow(a, e) - 1);
      NoSmallMultiple(3, 1);
    }
  }

  /** Two powers of `b` that are 1, with exponents that differ by 1, make `b` itself 1. */
  lemma NeighbouringExponents(b: nat, e: nat, n: int)
    requires Divides(n, Pow(b, e) - 1) && Divides(n, Pow(b, e + 1) - 1)
    ensures Divides(n, b - 1)
  {
    DividesMultiple(n, Pow(b, e) - 1, b);
    assert b * (Pow(b, e) - 1) == Pow(b, e + 1) - b;
    DividesDifference(n, Pow(b, e + 1) - 1, Pow(b, e + 1) - b);
  }

  lemma RepeatedPower(b: nat, e: nat, m: nat, n: int)
    requires Divides(n, Pow(b, e) - 1)
    ensures Divides(n, Pow(b, e * m) - 1)
  {
    PowStaysOne(Pow(b, e), n, m);
    PowMultiply(b, e, m);
  }

  lemma ThirdAndHalf(b: nat, t: nat, n: nat)
    requires 3 * t == n && n % 2 == 1
    requires Divides(n, Pow(b, t) - 1) && Divides(n, Pow(b, (n - 1) / 2) - 1)
    ensures Divides(n, b - 1)
  {
    RepeatedPower(b, t, 3, n);
    RepeatedPower(b, (n - 1) / 2, 2, n);
    NeighbouringExponents(b, (n - 1) / 2 * 2, n);
  }

  lemma SquareOrder(a: nat, k: nat, p: nat)
    requires IsPrime(p) && p == 3 && k >= 1 && !Divides(p, a)
    ensures Pow(p, k - 1) >= 0 && Pow(p, k) == 3 * Pow(p, k - 1)
    ensures Divides(Pow(p, k), Pow(a * a, Pow(p, k - 1)) - 1)
  {
    EulerPrimePower(p, a, k - 1);
    assert Pow(a, p - 1) == a * Pow(a, p - 2) && Pow(a, p - 2) == a * Pow(a, p - 3);
  }

  /** The order of `a` divides both n - 1 and 2 * 3^(k-1), so it divides 2. */
  lemma SquareIsOne(k: nat, a: nat, n: nat, p: nat)
    requires IsPrime(p) && p == 3 && k >= 1 && n == Pow(p, k) && !Divides(p, a)
    requires n >= 1 && Divides(n, Pow(a, n - 1) - 1)
    ensures Divides(n, a * a - 1)
  {
    PowOdd(p, k);
    SquareOrder(a, k, p);
    HalfPower(a, n);
    ThirdAndHalf(a * a, Pow(p, k - 1), n);
  }

  lemma OnlyTrivialRoots(k: nat, a: nat)
    requires k >= 1 && Pow(3, k) >= 5 && Divides(Pow(3, k), a * a - 1)
    ensures !(2 <= a <= Pow(3, k) - 3)
  {
    var n := Pow(3, k);
    ThreeIsPrime();
    assert a * a - 1 == (a - 1) * (a + 1) == (a + 1) * (a - 1);
    if 2 <= a <= n - 3 {
      if Divides(3, a + 1) {
        if Divides(3, a - 1) {
          DividesDifference(3, a + 1, a - 1);
          NoSmallMultiple(3, 2);
        }
        PrimePowerCoprime(3, k, a - 1);
        CoprimeFactor(n, a - 1, a + 1);
        NoSmallMultiple(n, a + 1);
      } else {
        PrimePowerCoprime(3, k, a + 1);
        CoprimeFactor(n, a + 1, a - 1);
        NoSmallMultiple(n, a - 1);
      }
    }
  }

  lemma OddBaseOfPower(n: nat, p: nat, k: nat)
    requires n == Pow(p, k) && IsPrime(p) && p % 2 == 1 && !PowerOf3(n)
    ensures p >= 5
  {}

  lemma PassingBase(n: nat) returns (e: nat)
    requires n % 2 == 1 && n >= 5 && !PowerOf3(n)
    ensures Passing(e, n)
  {
    var p, k, m := OddSplits(n);
    if m == 1 {
      OddBaseOfPower(n, p, k);
      e := PrimePowerAccepted(p, k);
    } else {
      e := ProductAccepted(Pow(p, k), m, n);
    }
  }

  /** While products are exact, an odd number from 5 up can be accepted exactly if it is no power of 3. */
  lemma AcceptableExactly(n: nat, w: Width)
    requires n % 2 == 1 && n >= 5 && Exact(n, w)
    ensures Acceptable(n, w) <==> !PowerOf3(n)
  {
    AcceptableByOneBase(n, w);
    if PowerOf3(n) {
      var k: nat :| n == Pow(3, k);
      forall a: nat
        ensures !Passing(a, n)
      {
        PowerOf3Fails(k, a);
      }
    } else {
      var e := PassingBase(n);
    }
  }

  /** Every product of two coprime odd factors from 3 up can be accepted. */
  lemma CoprimeProductAcceptable(u: nat, v: nat, w: Width)
    requires u >= 3 && v >= 3 && Gcd(u, v) == 1 && (u * v) % 2 == 1 && Exact(u * v, w)
    ensures Acceptable(u * v, w)
  {
    GcdOneIsCoprime(u, v);
    ProductMonotone(3, u, v);
    var e := ProductAccepted(u, v, u * v);
    AcceptableByOneBase(u * v, w);
  }

  // ----- numbers that can be rejected -------------------------------------------------------

  lemma SmallProduct(x: nat, y: nat, n: nat, w: Width)
    requires n > 0 && (w.Unbounded? || x * y < 0x8000_0000)
    ensures Product(x, y, n, w) == (x * y) % n
  {
    assert x * y >= 0;
  }

  /** A base that is its own square modulo `n` is what the loop ends with. */
  lemma {:induction false} IdempotentLoop(p: int, e: nat, exp: nat, n: nat, w: Width)
    requires n > 0 && e < n && e < 0x8000_0000 && Product(e, e, n, w) == e
    requires p == e || (p == 1 && exp > 0)
    ensures PowerLoop(p, e, exp, n, w) == e
    decreases exp
  {
    if exp > 0 {
      DivModUnique(e, n, 0, e);
      assert Product(1, e, n, w) == e;
      IdempotentLoop(if exp % 2 == 1 then e else p, e, exp / 2, n, w);
    }
  }

  lemma IdempotentRejects(n: nat, e: nat, w: Width)
    requires 5 <= n <= RAND_MAX && 2 <= e <= n - 3 && Product(e, e, n, w) == e
    ensures Rejectable(n, w)
  {
    BasesDrawn(e, n, w);
    IdempotentLoop(1, e, n - 1, n, w);
    BaseRejects(e, n, w);
  }

  /** Once the square is 0 the loop ends with 0. */
  lemma ZeroSquareFails(n: nat, e: nat, w: Width)
    requires n >= 5 && n % 2 == 1 && Product(e, e, n, w) == 0
    ensures !PassesRound(e, n, w)
  {
    DivModUnique(0, n, 0, 0);
    assert Product(0, 0, n, w) == 0;
    IdempotentLoop(1, 0, (n - 1) / 2, n, w);
    assert PowerLoop(1, e, n - 1, n, w) == PowerLoop(1, 0, (n - 1) / 2, n, w);
  }

  lemma IdempotentModulo(e: nat, n: nat)
    requires e < n && Divides(n, e * (e - 1))
    ensures (e * e) % n == e
  {
    assert e * (e - 1) == e * e - e;
    EqualRemainders(e * e, e, n);
    DivModUnique(e, n, 0, e);
  }

  lemma CombinedIdempotent(u: nat, v: nat, n: nat, x: int, y: int, e: int)
    requires x * u + y * v == 1 && n == u * v && n > 0 && e == (x * u) % n
    ensures Divides(u, e) && Divides(v, e - 1)
  {
    var z := x * u;
    FactorsDivide(u, v);
    FactorsDivide(x, u);
    RemainderModuloFactor(z, n, u);
    RemainderModuloFactor(z, n, v);
    assert z - 1 == v * -y;
    DividesDifference(u, z, z - e);
    DividesDifference(v, z - 1, z - e);
  }

  /** A number that is 0 modulo `u` and 1 modulo `v`, or the other way round, in the lower half. */
  lemma CoprimeIdempotent(u: nat, v: nat, n: nat) returns (e: nat)
    requires u >= 3 && v >= 3 && Coprime(u, v) && n == u * v
    ensures 2 <= e && 2 * e <= n + 1 && e < n && Divides(n, e * (e - 1))
  {
    var x, y :| Combination(u, v, x, y) == 1;
    NonZeroProduct(u, v);
    var f := (x * u) % n;
    CombinedIdempotent(u, v, n, x, y, f);
    FactorsDivide(u, v);
    DividesProducts(u, v, f, f - 1);
    if f == 0 {
      DividesDifference(v, 0, f - 1);
      NoSmallMultiple(v, 1);
    }
    if f == 1 {
      NoSmallMultiple(u, 1);
    }
    e := f;
    if 2 * f > n + 1 {
      e := n + 1 - f;
      DividesDifference(u, n, f);
      DividesDifference(v, n, f - 1);
      DividesProducts(u, v, e - 1, e);
      assert (e - 1) * e == e * (e - 1);
    }
  }

  lemma NilpotentBase(p: nat, k: nat, n: nat) returns (e: nat)
    requires p >= 3 && k >= 2 && n == Pow(p, k)
    ensures 2 <= e && 3 * e <= n && Divides(n, e * e)
  {
    PowAtLeast(p, k - 1);
    e := Pow(p, k - 1);
    PowAdd(p, k, k - 2);
    PowAdd(p, k - 1, k - 1);
    assert k + (k - 2) == (k - 1) + (k - 1);
    ProductMonotone(3, p, e);
  }

  lemma NotJustThePrime(n: nat, p: nat, k: nat)
    requires IsPrime(p) && n == Pow(p, k) && !IsPrime(n) && k >= 1
    ensures k >= 2
  {
    assert Pow(p, 1) == p * Pow(p, 0);
  }

  /** A base in the lower half whose square modulo `n` is itself or 0. */
  lemma CompositeBase(n: nat) returns (e: nat)
    requires n % 2 == 1 && n >= 9 && !IsPrime(n)
    ensures 2 <= e <= n - 3 && 2 * e <= n + 1 && ((e * e) % n == e || (e * e) % n == 0)
  {
    var p, k, m := OddSplits(n);
    if m == 1 {
      NotJustThePrime(n, p, k);
      e := NilpotentBase(p, k, n);
      DividesIsZeroRemainder(n, e * e);
    } else {
      e := CoprimeIdempotent(Pow(p, k), m, n);
      IdempotentModulo(e, n);
    }
  }

  lemma LowerHalfSquare(e: nat, n: nat)
    requires 2 * e <= n + 1 && n <= 65537
    ensures e * e < 0x8000_0000
  {
    ProductMonotone(e, 32769, e);
    ProductMonotone(e, 32769, 32769);
  }

  /** In 32 bits the square of 65536 is stored as 0, so every larger odd number can be rejected. */
  lemma LargeIsRejectable(n: nat)
    requires n % 2 == 1 && n >= 65539
    ensures Fails(65534, n, Int32)
  {
    DivModUnique(65534, n - 4, 0, 65534);
    assert Base(65534, n, Int32) == 65536;
    WrappedToZero(65536, n);
    ZeroSquareFails(n, 65536, Int32);
  }

  lemma WrappedToZero(e: nat, n: nat)
    requires e == 65536 && n > 0
    ensures Product(e, e, n, Int32) == 0
  {
    assert e * e == 0x1_0000_0000;
    assert Stored(0x1_0000_0000, Int32) == 0;
    DivModUnique(0, n, 0, 0);
  }

  /** Every odd composite from 9 up can be rejected, in either width. */
  lemma CompositeIsRejectable(n: nat, w: Width)
    requires n % 2 == 1 && n >= 9 && !IsPrime(n) && (w.Int32? || n <= RAND_MAX)
    ensures Rejectable(n, w)
  {
    if w.Int32? && n > 65537 {
      LargeIsRejectable(n);
    } else {
      var e := CompositeBase(n);
      if w.Int32? {
        LowerHalfSquare(e, n);
      }
      SmallProduct(e, e, n, w);
      if (e * e) % n == e {
        IdempotentRejects(n, e, w);
      } else {
        BasesDrawn(e, n, w);
        ZeroSquareFails(n, e, w);
        BaseRejects(e, n, w);
      }
    }
  }

  lemma OddBelow9(n: nat)
    requires n == 5 || n == 7
    ensures IsPrime(n)
  {
    forall d {:trigger Divides(d, n)} | 2 <= d < n
      ensures !Divides(d, n)
    {
      DividesIsZeroRemainder(d, n);
    }
  }

  /** While products are exact, an odd number from 5 up can be rejected exactly if it is composite. */
  lemma RejectableExactly(n: nat, w: Width)
    requires n % 2 == 1 && n >= 5 && Exact(n, w)
    ensures Rejectable(n, w) <==> !IsPrime(n)
  {
    if IsPrime(n) {
      PrimeIsNotRejectable(n, w);
    } else {
      if n < 9 {
        OddBelow9(n);
      }
      CompositeIsRejectable(n, w);
    }
  }

  // ----- what the search may return --------------------------------------------------------

  /**
    While products are exact, a search from 3 up may return exactly the odd numbers up to
    the next prime, that one included, which are not powers of 3.
    */
  lemma MayReturnExactly(val: int, p: nat, w: Width)
    requires val >= 3 && Exact(p, w)
    ensures MayReturn(val, p, w) <==>
            p > val && p % 2 == 1 && !PowerOf3(p) && forall q :: IsPrime(q) ==> !(val < q < p)
  {
    if p > val && p % 2 == 1 {
      AcceptableExactly(p, w);
      forall q: nat | val < q < p && q % 2 == 1
        ensures Rejectable(q, w) <==> !IsPrime(q)
      {
        RejectableExactly(q, w);
      }
      forall q | IsPrime(q) && val < q < p
        ensures q % 2 == 1
      {
        PrimeIsOdd(q);
      }
    }
  }

  // ----- whether the search ends -----------------------------------------------------------

  lemma AllRejectableUnlessPrime(val: int, i: nat)
    requires val >= 3
    requires forall q: nat :: q % 2 == 1 && IsPrime(q) && val < q <= 65537 ==> Rejectable(q, Int32)
    ensures Rejectable(Candidate(val, i), Int32)
  {
    var q := Candidate(val, i);
    if q > 65537 {
      LargeIsRejectable(q);
    } else if !IsPrime(q) {
      SmallCompositeIsRejectable(q, Int32);
    }
  }

  /** In 32 bits a search from 3 up may go on for ever exactly if every prime up to 65537 above it can be rejected. */
  lemma MayNotEndUnlessPrime(val: int)
    requires val >= 3
    ensures MayNotEnd(val, Int32) <==>
            forall q: nat :: q % 2 == 1 && IsPrime(q) && val < q <= 65537 ==> Rejectable(q, Int32)
  {
    MayNotEndExactly(val, Int32);
    if MayNotEnd(val, Int32) {
      forall q: nat | q % 2 == 1 && IsPrime(q) && val < q <= 65537
        ensures Rejectable(q, Int32)
      {
        var i := CandidateIndex(val, q);
        assert q == Candidate(val, i);
      }
    } else if forall q: nat :: q % 2 == 1 && IsPrime(q) && val < q <= 65537 ==> Rejectable(q, Int32) {
      forall i: nat
        ensures Rejectable(Candidate(val, i), Int32)
      {
        AllRejectableUnlessPrime(val, i);
      }
    }
  }

  lemma SmallCompositeIsRejectable(q: nat, w: Width)
    requires q % 2 == 1 && q > 3 && !IsPrime(q) && (w.Int32? || q <= RAND_MAX)
    ensures Rejectable(q, w)
  {
    if q < 9 {
      OddBelow9(q);
    }
    CompositeIsRejectable(q, w);
  }

  /** 65536 is -1 modulo 65537, and its square is stored as 0. */
  lemma FermatPrimeRejectable()
    ensures Rejectable(65537, Int32)
  {
    var n, e := 65537, 256;
    BasesDrawn(e, n, Int32);
    assert Product(256, 256, 65537, Int32) == 65536;
    TwoSquaresFail(n, e);
    BaseRejects(e, n, Int32);
  }

  lemma EvenRound(e: nat, f: nat, exp: nat, n: nat)
    requires n > 0 && exp > 0 && Product(e, e, n, Int32) == f
    ensures PowerLoop(1, e, 2 * exp, n, Int32) == PowerLoop(1, f, exp, n, Int32)
  {}

  lemma TwoSquaresFail(n: nat, e: nat)
    requires n >= 5 && n % 4 == 1 && Product(e, e, n, Int32) == 65536
    ensures !PassesRound(e, n, Int32)
  {
    WrappedToZero(65536, n);
    DivModUnique(0, n, 0, 0);
    assert Product(0, 0, n, Int32) == 0;
    var h := (n - 1) / 4;
    IdempotentLoop(1, 0, h, n, Int32);
    EvenRound(65536, 0, h, n);
    EvenRound(e, 65536, 2 * h, n);
    assert 2 * (2 * h) == n - 1;
  }

  lemma NoPrimeFrom65522(q: nat)
    requires IsPrime(q) && 65521 < q <= 65537
    ensures q == 65537
  {
    PrimeIsOdd(q);
    assert Divides(3, 65523) by { assert 65523 == 3 * 21841; }
    assert Divides(5, 65525) by { assert 65525 == 5 * 13105; }
    assert Divides(7, 65527) by { assert 65527 == 7 * 9361; }
    assert Divides(3, 65529) by { assert 65529 == 3 * 21843; }
    assert Divides(19, 65531) by { assert 65531 == 19 * 3449; }
    assert Divides(13, 65533) by { assert 65533 == 13 * 5041; }
    assert Divides(3, 65535) by { assert 65535 == 3 * 21845; }
  }

  /** From 65521 on a 32-bit search may go on for ever. */
  lemma LargeSearchMayNotEnd(val: int)
    requires val >= ENDLESS_FROM
    ensures MayNotEnd(val, Int32)
  {
    forall q: nat | q % 2 == 1 && IsPrime(q) && val < q <= 65537
      ensures Rejectable(q, Int32)
    {
      NoPrimeFrom65522(q);
      FermatPrimeRejectable();
    }
    MayNotEndUnlessPrime(val);
  }

  /** Where the search is settled it ends, whatever the random numbers. */
  lemma SettledSearchEnds(val: int, w: Width)
    requires val >= -1 && Settled(val, w)
    ensures !MayNotEnd(val, w)
  {
    MayNotEndExactly(val, w);
    var q := AcceptedPrime(val, w);
    PrimeIsOdd(q);
    var i := CandidateIndex(val, q);
    assert q == Candidate(val, i);
  }

  /** From 65537 on one and the same random number, drawn again and again, keeps it going. */
  lemma ConstantDrawNeverEnds(val: int, rand: Draws, from: nat)
    requires val >= 65537 && forall i: nat :: rand(i) == 65534
    ensures InRange(rand) && AlwaysFails(val, Int32, rand, from)
  {
    forall i: nat
      ensures FailsOne(val, Int32, rand, from, i)
    {
      LargeIsRejectable(Candidate(val, i));
    }
  }

  // ----- the limit of the 32-bit search ------------------------------------------------------

  /** The powers of `a`, where `b` is its square and its cube is 1. */
  function CubeRoot(a: nat, b: nat, i: nat): nat {
    if i % 3 == 0 then 1 else if i % 3 == 1 then a else b
  }

  /** Modulo `val` the powers multiply like the powers of a cube root of 1. */
  predicate IsCubeRoot(val: nat, a: nat, b: nat)
    requires val > 0
  {
    && Product(1, 1, val, Int32) == 1
    && Product(1, a, val, Int32) == Product(a, 1, val, Int32) == Product(b, b, val, Int32) == a
    && Product(1, b, val, Int32) == Product(b, 1, val, Int32) == Product(a, a, val, Int32) == b
    && Product(a, b, val, Int32) == Product(b, a, val, Int32) == 1
  }

  lemma CubeRootProduct(val: nat, a: nat, b: nat, i: nat, j: nat)
    requires val > 0 && IsCubeRoot(val, a, b)
    ensures Product(CubeRoot(a, b, i), CubeRoot(a, b, j), val, Int32) == CubeRoot(a, b, i + j)
  {
    var x, y, q := i % 3, j % 3, i / 3 + j / 3;
    assert i + j == 3 * q + x + y;
    if x + y < 3 {
      DivModUnique(i + j, 3, q, x + y);
    } else {
      DivModUnique(i + j, 3, q + 1, x + y - 3);
    }
  }

  lemma HalvedExponent(i: nat, j: nat, exp: nat)
    ensures (if exp % 2 == 1 then i + j else i) + (j + j) * (exp / 2) == i + j * exp
  {
    assert exp == 2 * (exp / 2) + exp % 2;
  }

  lemma {:induction false} CubeRootLoop(val: nat, a: nat, b: nat, i: nat, j: nat, exp: nat, r: nat)
    requires val > 0 && IsCubeRoot(val, a, b) && r == i + j * exp
    ensures PowerLoop(CubeRoot(a, b, i), CubeRoot(a, b, j), exp, val, Int32) == CubeRoot(a, b, r)
    decreases exp
  {
    if exp == 0 {
      assert r == i;
    } else {
      CubeRootProduct(val, a, b, i, j);
      CubeRootProduct(val, a, b, j, j);
      HalvedExponent(i, j, exp);
      CubeRootLoop(val, a, b, if exp % 2 == 1 then i + j else i, j + j, exp / 2, r);
    }
  }

  lemma CubeRootPasses(val: nat, a: nat, b: nat)
    requires val >= 5 && IsCubeRoot(val, a, b) && val % 3 == 1
    ensures PassesRound(a, val, Int32)
  {
    CubeRootLoop(val, a, b, 0, 1, val - 1, val - 1);
    DivModUnique(val - 1, 3, val / 3, 0);
  }

  /** A cube root of 1 survives all rounds if 3 divides `val - 1`. */
  lemma CubeRootSurvives(val: nat, a: nat, b: nat)
    requires 5 <= val < 0x8000_0000 && 2 <= a <= val - 3 && IsCubeRoot(val, a, b) && val % 3 == 1
    ensures Survives(val, seq(ROUNDS, _ => a), Int32)
  {
    BasesDrawn(a, val, Int32);
    CubeRootPasses(val, a, b);
  }

  lemma SurvivorAboveLimit()
    ensures Survives(46351, seq(ROUNDS, _ => 17783), Int32)
  {
    CubeRootSurvives(46351, 17783, 28567);
  }

  lemma CompositesAboveLimit()
    ensures !IsPrime(46339) && !IsPrime(46341) && !IsPrime(46343) && !IsPrime(46345) && !IsPrime(46347)
  {
    assert Divides(149, 46339) by { assert 46339 == 149 * 311; }
    assert Divides(3, 46341) by { assert 46341 == 3 * 15447; }
    assert Divides(11, 46343) by { assert 46343 == 11 * 4213; }
    assert Divides(5, 46345) by { assert 46345 == 5 * 9269; }
    assert Divides(3, 46347) by { assert 46347 == 3 * 15449; }
  }

  /** From 46337 the search may go past the prime 46349 and return 46351. */
  lemma SearchPassesPrime()
    ensures MayReturn(SEARCH_LIMIT, 46351, Int32)
  {
    SurvivorAboveLimit();
    CompositesAboveLimit();
    FirstRejectablePrime();
    forall q: nat | SEARCH_LIMIT < q < 46351 && q % 2 == 1
      ensures Rejectable(q, Int32)
    {
      OddUpTo46349(q);
      if q != 46349 {
        CompositeIsRejectable(q, Int32);
      }
    }
  }

  lemma OddUpTo46349(q: nat)
    requires 46337 < q < 46351 && q % 2 == 1
    ensures q == 46339 || q == 46341 || q == 46343 || q == 46345 || q == 46347 || q == 46349
  {}

  /** In 32 bits the search ends no later than the next prime from 5 up exactly for `val` below 46337. */
  lemma SearchMeetsNextPrimeExactlyBelowLimit(v: int)
    ensures (forall val: int, p: nat, q: int ::
               -1 <= val < v && MayReturn(val, p, Int32) && IsPrime(q) && q >= 5 && q > val ==> p <= q)
            <==> v <= SEARCH_LIMIT
  {
    if v <= SEARCH_LIMIT {
      forall val: int, p: nat, q: int | -1 <= val < v && MayReturn(val, p, Int32) && IsPrime(q) && q >= 5 && q > val
        ensures p <= q
      {
        NextPrimeBound(val, p, Int32);
      }
    } else {
      LimitsArePrime();
      SearchPassesPrime();
    }
  }
}
