/**
  Elementary number theory behind the Fermat test and the double-hashing probe
  sequence: remainders, greatest common divisors with Bezout coefficients,
  Euclid's lemma, Fermat's little theorem and the infinitude of the primes.
  */
module NumberTheory {

  // ----- powers and remainders ------------------------------------------------

  function Pow(b: int, e: nat): int {
    if e == 0 then 1 else b * Pow(b, e - 1)
  }

  lemma {:induction false} PowSquare(b: int, e: nat)
    ensures Pow(b * b, e) == Pow(b, 2 * e)
  {
    if e > 0 {
      PowSquare(b, e - 1);
      assert Pow(b, 2 * e) == b * (b * Pow(b, 2 * (e - 1)));
    }
  }

  lemma SmallMultipleIsZero(d: int, m: int)
    requires -m < d * m < m
    ensures d == 0
  {}

  /** Quotient and remainder are the only pair with the remainder in range. */
  lemma DivModUnique(n: int, m: int, q: int, r: int)
    requires m > 0 && n == q * m + r && 0 <= r < m
    ensures n / m == q && n % m == r
  {
    var d := q - n / m;
    assert d * m == n % m - r;
    SmallMultipleIsZero(d, m);
  }

  lemma RemainderRange(n: nat, m: nat)
    requires m > 0
    ensures 0 <= n % m < m && n % m <= n
  {
    if n < m {
      DivModUnique(n, m, 0, n);
    }
  }

  lemma ModShift(x: int, q: int, m: int)
    requires m > 0
    ensures (x + q * m) % m == x % m
  {
    var y := x + q * m;
    assert y == (x / m + q) * m + x % m;
    DivModUnique(y, m, x / m + q, x % m);
  }

  lemma ProductMonotone(a: int, b: int, x: int)
    requires a <= b && x >= 0
    ensures a * x <= b * x
  {}

  /** Reducing modulo a multiple of `q` first does not change the remainder modulo `q`. */
  lemma RemainderOfMultiple(x: int, n: int, q: int, c: int)
    requires n > 0 && q > 0 && n == q * c
    ensures (x % n) % q == x % q
  {
    var y := x % n;
    assert x == y + (x / n) * n;
    assert (x / n) * n == ((x / n) * c) * q by { Regroup(x / n, q, c); }
    ModShift(y, (x / n) * c, q);
  }

  lemma CofactorOfProper(n: int, q: int, e: int)
    requires n == q * e && 2 <= q < n
    ensures e >= 2
  {
    if e <= 0 {
      ProductMonotone(e, 0, q);
    }
  }

  lemma ModAddLeft(x: int, s: int, m: int)
    requires m > 0
    ensures (x % m + s) % m == (x + s) % m
  {
    assert x + s == (x % m + s) + (x / m) * m;
    ModShift(x % m + s, x / m, m);
  }

  lemma ModMulLeft(a: int, b: int, m: int)
    requires m > 0
    ensures ((a % m) * b) % m == (a * b) % m
  {
    assert a * b == (a % m) * b + ((a / m) * b) * m;
    ModShift((a % m) * b, (a / m) * b, m);
  }

  lemma ModMulRight(a: int, b: int, m: int)
    requires m > 0
    ensures (a * (b % m)) % m == (a * b) % m
  {
    ModMulLeft(b, a, m);
  }

  lemma {:induction false} PowModBase(a: int, e: nat, m: int)
    requires m > 0
    ensures Pow(a % m, e) % m == Pow(a, e) % m
  {
    if e > 0 {
      PowModBase(a, e - 1, m);
      calc {
        Pow(a % m, e) % m;
        ((a % m) * Pow(a % m, e - 1)) % m;
        { ModMulLeft(a, Pow(a % m, e - 1), m); }
        (a * Pow(a % m, e - 1)) % m;
        { ModMulRight(a, Pow(a % m, e - 1), m); }
        (a * (Pow(a % m, e - 1) % m)) % m;
        { ModMulRight(a, Pow(a, e - 1), m); }
        (a * Pow(a, e - 1)) % m;
      }
    }
  }

  // ----- divisibility ---------------------------------------------------------

  ghost predicate Divides(d: int, n: int) {
    exists q: int :: n == d * q
  }

  lemma DividesIsZeroRemainder(d: int, n: int)
    requires d > 0
    ensures Divides(d, n) <==> n % d == 0
  {
    if n % d == 0 {
      assert n == d * (n / d);
    }
    if Divides(d, n) {
      var q :| n == d * q;
      DivModUnique(n, d, q, 0);
    }
  }

  lemma EqualRemainders(x: int, y: int, n: int)
    requires n > 0
    ensures x % n == y % n <==> Divides(n, x - y)
  {
    if x % n == y % n {
      assert x - y == n * (x / n - y / n);
    }
    if Divides(n, x - y) {
      var q :| x - y == n * q;
      assert x == y + q * n;
      ModShift(y, q, n);
    }
  }

  lemma DividesLinear(d: int, a: int, b: int, x: int, y: int)
    requires Divides(d, a) && Divides(d, b)
    ensures Divides(d, x * a + y * b)
  {
    var p :| a == d * p;
    var q :| b == d * q;
    assert x * a + y * b == d * (x * p + y * q);
  }

  lemma DividesDifference(d: int, a: int, b: int)
    requires Divides(d, a) && Divides(d, b)
    ensures Divides(d, a - b)
  {
    DividesLinear(d, a, b, 1, -1);
    assert 1 * a + (-1) * b == a - b;
  }

  lemma DividesSum(d: int, a: int, b: int)
    requires Divides(d, a) && Divides(d, b)
    ensures Divides(d, a + b)
  {
    DividesLinear(d, a, b, 1, 1);
    assert 1 * a + 1 * b == a + b;
  }

  lemma DividesMultiple(d: int, a: int, x: int)
    requires Divides(d, a)
    ensures Divides(d, x * a)
  {
    DividesLinear(d, a, a, x, 0);
  }

  lemma DividesTransitive(c: int, d: int, n: int)
    requires Divides(c, d) && Divides(d, n)
    ensures Divides(c, n)
  {
    var p :| d == c * p;
    var q :| n == d * q;
    assert n == c * (p * q);
  }

  lemma DivisorBound(d: int, n: int)
    requires d > 0 && n > 0 && Divides(d, n)
    ensures d <= n
  {
    var q :| n == d * q;
    assert q >= 1;
  }

  // ----- greatest common divisors ----------------------------------------------

  function Gcd(a: nat, b: nat): (g: nat)
    ensures a > 0 || b > 0 ==> g > 0
    decreases b
  {
    if b == 0 then a else Gcd(b, a % b)
  }

  lemma {:induction false} GcdDividesBoth(a: nat, b: nat)
    ensures Divides(Gcd(a, b), a) && Divides(Gcd(a, b), b)
    decreases b
  {
    if b == 0 {
      assert a == a * 1 && b == a * 0;
    } else {
      GcdDividesBoth(b, a % b);
      DividesLinear(Gcd(a, b), b, a % b, a / b, 1);
      assert a == (a / b) * b + 1 * (a % b);
    }
  }

  lemma BezoutStep(a: int, b: int, q: int, r: int, u: int, v: int)
    requires a == q * b + r
    ensures v * a + (u - v * q) * b == u * b + v * r
  {
    assert v * a == v * (q * b) + v * r;
    assert (u - v * q) * b == u * b - (v * q) * b;
    Regroup(v, b, q);
  }

  lemma {:induction false} Bezout(a: nat, b: nat) returns (x: int, y: int)
    ensures x * a + y * b == Gcd(a, b)
    decreases b
  {
    if b == 0 {
      x, y := 1, 0;
    } else {
      var u, v := Bezout(b, a % b);
      x, y := v, u - v * (a / b);
      BezoutStep(a, b, a / b, a % b, u, v);
    }
  }

  ghost predicate GreatestCommonDivisor(g: int, a: int, b: int) {
    && Divides(g, a) && Divides(g, b)
    && forall d :: Divides(d, a) && Divides(d, b) ==> d <= g
  }

  /** By Bezout, Euclid's algorithm finds the greatest common divisor. */
  lemma GcdIsGreatest(a: nat, b: nat)
    requires a > 0 || b > 0
    ensures GreatestCommonDivisor(Gcd(a, b), a, b)
  {
    GcdDividesBoth(a, b);
    var x, y := Bezout(a, b);
    forall d | Divides(d, a) && Divides(d, b)
      ensures d <= Gcd(a, b)
    {
      DividesLinear(d, a, b, x, y);
      if d > 0 {
        DivisorBound(d, Gcd(a, b));
      }
    }
  }

  /** If `n` divides `m * s`, the part of `n` not shared with `s` divides `m`. */
  lemma CofactorDivides(s: nat, n: nat, m: int)
    requires n > 0 && Divides(n, m * s)
    ensures n % Gcd(s, n) == 0 && Divides(n / Gcd(s, n), m)
  {
    var g := Gcd(s, n);
    GcdDividesBoth(s, n);
    DividesIsZeroRemainder(g, n);
    var c := n / g;
    assert n == c * g;
    var x, y := Bezout(s, n);
    var q :| m * s == n * q;
    assert m * g == n * (x * q + y * m) by { BezoutScaled(m, s, n, x, y, q); }
    assert n * (x * q + y * m) == (c * (x * q + y * m)) * g by { Regroup(c, g, x * q + y * m); }
    ProductCancel(m, c * (x * q + y * m), g);
  }

  lemma BezoutScaled(m: int, s: int, n: int, x: int, y: int, q: int)
    requires m * s == n * q
    ensures m * (x * s + y * n) == n * (x * q + y * m)
  {
    calc {
      m * (x * s + y * n);
      m * (x * s) + m * (y * n);
      { Regroup(m, s, x); Regroup(n, q, x); Regroup(n, m, y); }
      n * (x * q) + n * (y * m);
      n * (x * q + y * m);
    }
  }

  lemma Regroup(a: int, b: int, c: int)
    ensures a * (c * b) == c * (a * b) == (a * c) * b == (a * b) * c == a * (b * c)
  {}

  lemma ProductCancel(a: int, b: int, g: int)
    requires a * g == b * g && g != 0
    ensures a == b
  {
    if a != b {
      NonZeroProduct(a - b, g);
    }
  }

  lemma NonZeroProduct(a: int, b: int)
    requires a != 0 && b != 0
    ensures a * b != 0
  {}

  // ----- primes ------------------------------------------------------------------

  ghost predicate IsPrime(p: int) {
    p >= 2 && forall d {:trigger Divides(d, p)} :: 2 <= d < p ==> !Divides(d, p)
  }

  lemma PrimeGcd(p: nat, s: nat)
    requires IsPrime(p) && !Divides(p, s)
    ensures Gcd(s, p) == 1
  {
    var g := Gcd(s, p);
    GcdDividesBoth(s, p);
    DivisorBound(g, p);
  }

  lemma EuclidsLemma(p: nat, a: nat, b: int)
    requires IsPrime(p) && Divides(p, b * a) && !Divides(p, a)
    ensures Divides(p, b)
  {
    PrimeGcd(p, a);
    CofactorDivides(a, p, b);
  }

  lemma {:induction false} PrimeFactor(n: nat) returns (p: nat)
    requires n >= 2
    ensures IsPrime(p) && Divides(p, n)
  {
    if IsPrime(n) {
      assert n == n * 1;
      return n;
    }
    var d :| 2 <= d < n && Divides(d, n);
    p := PrimeFactor(d);
    DividesTransitive(p, d, n);
  }

  function Factorial(n: nat): (f: nat)
    ensures f >= 1
  {
    if n == 0 then 1 else n * Factorial(n - 1)
  }

  lemma {:induction false} FactorialDivisible(n: nat, d: nat)
    requires 1 <= d <= n
    ensures Divides(d, Factorial(n))
  {
    if d == n {
      assert Factorial(n) == n * Factorial(n - 1);
    } else {
      FactorialDivisible(n - 1, d);
      DividesMultiple(d, Factorial(n - 1), n);
    }
  }

  /** Euclid: there is a prime above every number. */
  lemma PrimeAbove(n: nat) returns (p: nat)
    ensures IsPrime(p) && p > n
  {
    var f := Factorial(n);
    p := PrimeFactor(f + 1);
    if p <= n {
      FactorialDivisible(n, p);
      DividesDifference(p, f + 1, f);
      DivisorBound(p, 1);
      assert false;
    }
  }

  // ----- Fermat's little theorem ---------------------------------------------------

  function Choose(n: nat, k: nat): nat {
    if k == 0 then 1
    else if n == 0 then 0
    else Choose(n - 1, k - 1) + Choose(n - 1, k)
  }

  lemma {:induction false} ChooseEdges(n: nat, k: nat)
    requires k >= n
    ensures Choose(n, k) == if k == n then 1 else 0
  {
    if n > 0 {
      ChooseEdges(n - 1, k - 1);
      ChooseEdges(n - 1, k);
    }
  }

  lemma {:induction false} ChooseAbsorption(n: nat, k: nat)
    requires n >= 1 && k >= 1
    ensures k * Choose(n, k) == n * Choose(n - 1, k - 1)
  {
    if n == 1 {
      ChooseEdges(0, k - 1);
      ChooseEdges(1, k);
    } else if k == 1 {
      ChooseAbsorption(n - 1, 1);
    } else {
      ChooseAbsorption(n - 1, k);
      ChooseAbsorption(n - 1, k - 1);
      AbsorptionStep(n, k, Choose(n - 1, k - 1), Choose(n - 1, k),
                     Choose(n - 2, k - 2), Choose(n - 2, k - 1));
    }
  }

  lemma AbsorptionStep(n: int, k: int, c: int, d: int, a: int, b: int)
    requires c == a + b && (k - 1) * c == (n - 1) * a && k * d == (n - 1) * b
    ensures k * (c + d) == n * c
  {
    assert k * c == (k - 1) * c + c;
    assert n * c == (n - 1) * (a + b) + c;
  }

  lemma PrimeDividesChoose(p: nat, k: nat)
    requires IsPrime(p) && 1 <= k < p
    ensures Divides(p, Choose(p, k))
  {
    ChooseAbsorption(p, k);
    assert Choose(p, k) * k == p * Choose(p - 1, k - 1);
    if Divides(p, k) {
      DivisorBound(p, k);
      assert false;
    }
    EuclidsLemma(p, k, Choose(p, k));
  }

  /** The terms of index 0 to k of the binomial expansion of (a + 1)^n. */
  function BinomialSum(a: nat, n: nat, k: nat): int {
    (if k == 0 then 0 else BinomialSum(a, n, k - 1)) + Choose(n, k) * Pow(a, k)
  }

  lemma {:induction false} BinomialShift(a: nat, n: nat, k: nat)
    ensures (a + 1) * BinomialSum(a, n, k) == BinomialSum(a, n + 1, k) + Choose(n, k) * Pow(a, k + 1)
  {
    if k > 0 {
      BinomialShift(a, n, k - 1);
      var s, c, d, w := BinomialSum(a, n, k - 1), Choose(n, k), Choose(n, k - 1), Pow(a, k);
      assert Choose(n + 1, k) == d + c;
      assert Pow(a, k + 1) == a * w;
      ShiftStep(a, s, BinomialSum(a, n + 1, k - 1), c, d, w);
    } else {
      assert BinomialSum(a, n, 0) == 1 && BinomialSum(a, n + 1, 0) == 1;
      assert Pow(a, 1) == a * Pow(a, 0);
    }
  }

  lemma ShiftStep(a: int, s: int, t: int, c: int, d: int, w: int)
    requires (a + 1) * s == t + d * w
    ensures (a + 1) * (s + c * w) == t + (d + c) * w + c * (a * w)
  {
    assert (a + 1) * (s + c * w) == (a + 1) * s + (a + 1) * (c * w);
    assert (a + 1) * (c * w) == c * (a * w) + c * w by { Regroup(a, w, c); }
  }

  lemma {:induction false} BinomialTheorem(a: nat, n: nat)
    ensures Pow(a + 1, n) == BinomialSum(a, n, n)
  {
    if n > 0 {
      BinomialTheorem(a, n - 1);
      BinomialShift(a, n - 1, n - 1);
      ChooseEdges(n - 1, n - 1);
      ChooseEdges(n, n);
    }
  }

  lemma {:induction false} BinomialSumModPrime(a: nat, p: nat, k: nat)
    requires IsPrime(p) && k < p
    ensures Divides(p, BinomialSum(a, p, k) - 1)
  {
    if k == 0 {
      assert BinomialSum(a, p, 0) - 1 == p * 0;
    } else {
      BinomialSumModPrime(a, p, k - 1);
      PrimeDividesChoose(p, k);
      DividesMultiple(p, Choose(p, k), Pow(a, k));
      DividesSum(p, BinomialSum(a, p, k - 1) - 1, Pow(a, k) * Choose(p, k));
    }
  }

  lemma {:induction false} FermatPower(p: nat, a: nat)
    requires IsPrime(p)
    ensures Divides(p, Pow(a, p) - a)
  {
    if a == 0 {
      assert Pow(0, p) == 0 * Pow(0, p - 1);
      assert Pow(0, p) - 0 == p * 0;
    } else {
      FermatPower(p, a - 1);
      BinomialTheorem(a - 1, p);
      BinomialSumModPrime(a - 1, p, p - 1);
      ChooseEdges(p, p);
      assert Pow(a, p) == BinomialSum(a - 1, p, p - 1) + Pow(a - 1, p);
      DividesSum(p, BinomialSum(a - 1, p, p - 1) - 1, Pow(a - 1, p) - (a - 1));
    }
  }

  /** Fermat's little theorem: a^(p-1) leaves remainder 1 unless p divides a. */
  lemma FermatLittle(p: nat, a: nat)
    requires IsPrime(p) && !Divides(p, a)
    ensures Pow(a, p - 1) % p == 1
  {
    FermatPower(p, a);
    var w := Pow(a, p - 1);
    assert Pow(a, p) == a * w;
    assert Pow(a, p) - a == (w - 1) * a;
    EuclidsLemma(p, a, w - 1);
    var q :| w - 1 == p * q;
    DivModUnique(w, p, q, 1);
  }
}
