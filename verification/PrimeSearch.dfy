/**
  The randomised Fermat test and the search for the next table size
  (include/HashMap.c, isPrime and findPrimeGreaterThan). The C code multiplies in a
  32-bit `int`; `Width` says whether the products wrap as they do there or are exact.
  */
module PrimeSearch {
  import opened NumberTheory

  datatype Width = Int32 | Unbounded

  const RAND_MAX: nat := 0x7fff_ffff

  /** `unsigned long` has 64 bits. */
  const ULONG_RANGE: nat := 0x1_0000_0000_0000_0000
  const ROUNDS: nat := 9

  /** The first prime the 32-bit test may reject. */
  const FIRST_REJECTABLE_PRIME: nat := 46349

  /** From here on a 32-bit search may run past the next prime. */
  const SEARCH_LIMIT: nat := 46337

  // ----- the arithmetic ---------------------------------------------------------------

  /** A value stored in an `int`: two's complement if it is taken in 32 bits. */
  function Stored(x: int, w: Width): (y: int)
    ensures w.Unbounded? || 0 <= x < 0x8000_0000 ==> y == x
  {
    if w.Int32? then (x + 0x8000_0000) % 0x1_0000_0000 - 0x8000_0000 else x
  }

  /** An `int` as the left operand of `% val`, where it is converted to `unsigned long`. */
  function Operand(x: int): (u: nat)
    ensures x >= 0 ==> u == x
  {
    if x >= 0 then x else x % ULONG_RANGE
  }

  /** `(x * y) % val` for `int` operands. */
  function Product(x: int, y: int, val: nat, w: Width): (r: nat)
    requires val > 0
    ensures r < val
  {
    Operand(Stored(x * y, w)) % val
  }

  lemma ExactProduct(x: nat, y: nat, val: nat, w: Width)
    requires val > 0 && (w.Unbounded? || (x < val <= 46341 && y < val))
    ensures Product(x, y, val, w) == (x * y) % val
  {
    if w.Int32? {
      ProductBound(x, y, val - 1);
      ProductBound(val - 1, val - 1, 46340);
    }
    assert x * y >= 0;
  }

  lemma ProductBound(x: nat, y: nat, m: nat)
    requires x <= m && y <= m
    ensures x * y <= m * m
  {
    assert x * y <= x * m <= m * m;
  }

  /** The square-and-multiply loop of isPrime. */
  function PowerLoop(p: int, a: int, exp: nat, val: nat, w: Width): int
    requires val > 0
    decreases exp
  {
    if exp == 0 then p
    else PowerLoop(if exp % 2 == 1 then Product(p, a, val, w) else p, Product(a, a, val, w), exp / 2, val, w)
  }

  lemma SquareStep(p: nat, a: nat, exp: nat, val: nat)
    requires val > 0 && exp > 0
    ensures ((if exp % 2 == 1 then (p * a) % val else p) * Pow((a * a) % val, exp / 2)) % val
         == (p * Pow(a, exp)) % val
  {
    var h := exp / 2;
    var w := Pow(a * a, h);
    PowSquare(a, h);
    var p' := if exp % 2 == 1 then (p * a) % val else p;
    calc {
      (p' * Pow((a * a) % val, h)) % val;
      { ModMulRight(p', Pow((a * a) % val, h), val); }
      (p' * (Pow((a * a) % val, h) % val)) % val;
      { PowModBase(a * a, h, val); }
      (p' * (w % val)) % val;
      { ModMulRight(p', w, val); }
      (p' * w) % val;
    }
    if exp % 2 == 1 {
      assert Pow(a, exp) == a * w;
      ModMulLeft(p * a, w, val);
      assert (p * a) * w == p * (a * w);
    }
  }

  /** With exact products, or up to 46341 in 32 bits, the loop is modular exponentiation. */
  lemma {:induction false} PowerLoopIsModularPower(p: nat, a: nat, exp: nat, val: nat, w: Width)
    requires p < val && (w.Unbounded? || (a < val <= 46341))
    ensures PowerLoop(p, a, exp, val, w) == (p * Pow(a, exp)) % val
    decreases exp
  {
    if exp == 0 {
      assert p * Pow(a, 0) == p;
      DivModUnique(p, val, 0, p);
    } else {
      var p' := if exp % 2 == 1 then Product(p, a, val, w) else p;
      LoopStep(p, a, exp, val, w);
      PowerLoopIsModularPower(p', Product(a, a, val, w), exp / 2, val, w);
    }
  }

  lemma LoopStep(p: nat, a: nat, exp: nat, val: nat, w: Width)
    requires p < val && exp > 0 && (w.Unbounded? || (a < val <= 46341))
    ensures ((if exp % 2 == 1 then Product(p, a, val, w) else p) * Pow(Product(a, a, val, w), exp / 2)) % val
         == (p * Pow(a, exp)) % val
  {
    ExactProduct(p, a, val, w);
    ExactProduct(a, a, val, w);
    SquareStep(p, a, exp, val);
  }

  // ----- one test ----------------------------------------------------------------------

  /** What `rand()` gives, call by call: any sequence of values in range. */
  type Draws = nat -> nat

  ghost predicate InRange(rand: Draws) {
    forall i: nat :: rand(i) <= RAND_MAX
  }

  /** The base drawn from the random number `r`; `val - 4` wraps when `val` is below 4. */
  function Base(r: nat, val: nat, w: Width): (a: int)
    requires val >= 1 && val != 4 && r <= RAND_MAX
    ensures val >= 5 && (w.Unbounded? || val < 0x8000_0000) ==> 2 <= a <= val - 3
  {
    RemainderRange(r, if val >= 5 then val - 4 else val + ULONG_RANGE - 4);
    Stored(r % (if val >= 5 then val - 4 else val + ULONG_RANGE - 4) + 2, w)
  }

  ghost predicate IsBase(a: int, val: nat, w: Width)
    requires val >= 1 && val != 4
  {
    exists r: nat :: r <= RAND_MAX && a == Base(r, val, w)
  }

  /** What one round checks of its base. */
  ghost predicate PassesRound(a: int, val: nat, w: Width)
    requires val >= 1
  {
    PowerLoop(1, a, val - 1, val, w) == 1
  }

  /** `val` got through all nine rounds with these bases. */
  ghost predicate Survives(val: nat, bases: seq<int>, w: Width) {
    && val >= 1 && val != 4
    && |bases| == ROUNDS
    && forall i :: 0 <= i < |bases| ==> IsBase(bases[i], val, w) && PassesRound(bases[i], val, w)
  }

  /** All nine rounds may pass. */
  ghost predicate Acceptable(val: nat, w: Width) {
    exists bases :: Survives(val, bases, w)
  }

  /** The base drawn from `r` fails its round. */
  ghost predicate Fails(r: nat, val: nat, w: Width)
    requires val >= 1 && val != 4
  {
    r <= RAND_MAX && !PassesRound(Base(r, val, w), val, w)
  }

  /** Some base that may be drawn for `val` fails its round. */
  ghost predicate Rejectable(val: nat, w: Width)
    requires val >= 1 && val != 4
  {
    exists r: nat :: Fails(r, val, w)
  }

  lemma BaseRejects(a: int, val: nat, w: Width)
    requires val >= 1 && val != 4 && IsBase(a, val, w) && !PassesRound(a, val, w)
    ensures Rejectable(val, w)
  {
    var r: nat :| r <= RAND_MAX && a == Base(r, val, w);
    assert Fails(r, val, w);
  }

  /** For `val` from 5 up the base is `r` reduced below `val - 4`, plus 2. */
  lemma BaseIsReduced(r: nat, val: nat, w: Width)
    requires 5 <= val <= RAND_MAX && r <= RAND_MAX
    ensures r < val - 4 ==> Base(r, val, w) == r + 2
    ensures r + (val - 4) <= RAND_MAX ==> Base(r + (val - 4), val, w) == Base(r, val, w)
  {
    if r < val - 4 {
      DivModUnique(r, val - 4, 0, r);
    }
    ModShift(r, 1, val - 4);
    assert r + 1 * (val - 4) == r + (val - 4);
  }

  /** The nine random numbers from call `at` on all give bases that pass. */
  ghost predicate AcceptedOn(val: nat, w: Width, rand: Draws, at: nat)
    requires val >= 1 && val != 4
  {
    forall j: nat :: at <= j < at + 9 ==> !Fails(rand(j), val, w)
  }

  /** Of them the last one drawn before call `next` is the first that fails. */
  ghost predicate RejectedOn(val: nat, w: Width, rand: Draws, at: nat, next: nat)
    requires val >= 1 && val != 4
  {
    && at < next <= at + 9
    && Fails(rand(next - 1), val, w)
    && forall j: nat :: at <= j < next - 1 ==> !Fails(rand(j), val, w)
  }

  /** isPrime, taking its random numbers from `rand`, the first one at `from`. */
  method IsProbablyPrime(val: nat, w: Width, rand: Draws, from: nat)
    returns (r: bool, next: nat, ghost bases: seq<int>)
    requires val >= 1 && val != 4 && InRange(rand)
    ensures r <==> forall j: nat :: from <= j < from + 9 ==> !Fails(rand(j), val, w)
    ensures r ==> next == from + 9
    ensures !r ==> RejectedOn(val, w, rand, from, next)
    ensures r ==> Survives(val, bases, w)
    ensures IsPrime(val) && val >= 5 && (w.Unbounded? || val < FIRST_REJECTABLE_PRIME) ==> r
  {
    bases, next := [], from;
    var i := 9;
    while i != 0
      invariant 0 <= i <= 9 && |bases| == 9 - i && next == from + |bases|
      invariant forall j: nat :: from <= j < next ==> !Fails(rand(j), val, w)
      invariant forall j :: 0 <= j < |bases| ==> IsBase(bases[j], val, w) && PassesRound(bases[j], val, w)
    {
      i := i - 1;
      var draw := rand(next);
      next := next + 1;
      var a := Base(draw, val, w);
      ghost var base := a;
      assert IsBase(base, val, w);
      bases := bases + [base];
      var p: int := 1;
      var exp := val - 1;
      while exp != 0
        invariant exp >= 0
        invariant PowerLoop(p, a, exp, val, w) == PowerLoop(1, base, val - 1, val, w)
      {
        if exp % 2 == 1 {
          p := Product(p, a, val, w);
        }
        a := Product(a, a, val, w);
        exp := exp / 2;
      }
      if p != 1 {
        assert Fails(draw, val, w) && draw == rand(next - 1);
        if IsPrime(val) && val >= 5 && (w.Unbounded? || val < FIRST_REJECTABLE_PRIME) {
          PrimeIsNotRejectable(val, w);
        }
        return false, next, bases;
      }
      assert !Fails(draw, val, w);
    }
    return true, next, bases;
  }

  /** Exact arithmetic, and 32 bits below 46349, reject no prime from 5 up. */
  lemma PrimeIsNotRejectable(q: nat, w: Width)
    requires q >= 5 && IsPrime(q) && (w.Unbounded? || q < FIRST_REJECTABLE_PRIME)
    ensures !Rejectable(q, w)
  {
    if w.Int32? {
      PrimesNearTheLimit(q);
    }
    forall r: nat | r <= RAND_MAX
      ensures PassesRound(Base(r, q, w), q, w)
    {
      var a := Base(r, q, w);
      if Divides(q, a) {
        DivisorBound(q, a);
      }
      FermatLittle(q, a);
      PowerLoopIsModularPower(1, a, q - 1, q, w);
    }
  }

  // ----- the limit of the 32-bit test -----------------------------------------------------

  /** None of the ten odd numbers from `d` on divides `n`. */
  predicate NoDivisorInBlock(n: nat, d: nat)
    requires d > 0
  {
    && n % d != 0 && n % (d + 2) != 0 && n % (d + 4) != 0 && n % (d + 6) != 0 && n % (d + 8) != 0
    && n % (d + 10) != 0 && n % (d + 12) != 0 && n % (d + 14) != 0 && n % (d + 16) != 0 && n % (d + 18) != 0
  }

  predicate NoDivisorInBlocks(n: nat, d: nat, blocks: nat)
    requires d > 0
    decreases blocks
  {
    blocks == 0 || (NoDivisorInBlock(n, d) && NoDivisorInBlocks(n, d + 20, blocks - 1))
  }

  lemma NotInBlock(n: nat, d: nat, j: nat, k: nat)
    requires d > 0 && j < 10 && k == d + 2 * j && NoDivisorInBlock(n, d)
    ensures n % k != 0
  {
    if
    case j == 0 => assert k == d;
    case j == 1 => assert k == d + 2;
    case j == 2 => assert k == d + 4;
    case j == 3 => assert k == d + 6;
    case j == 4 => assert k == d + 8;
    case j == 5 => assert k == d + 10;
    case j == 6 => assert k == d + 12;
    case j == 7 => assert k == d + 14;
    case j == 8 => assert k == d + 16;
    case j == 9 => assert k == d + 18;
  }

  lemma {:induction false} NoOddDivisor(n: nat, d: nat, blocks: nat, j: nat, k: nat)
    requires d > 0 && j < 10 * blocks && k == d + 2 * j && NoDivisorInBlocks(n, d, blocks)
    ensures n % k != 0
    decreases blocks
  {
    if j >= 10 {
      NoOddDivisor(n, d + 20, blocks - 1, j - 10, k);
    } else {
      NotInBlock(n, d, j, k);
    }
  }

  lemma EvenFactor(k: nat, n: nat)
    requires k % 2 == 0 && Divides(k, n)
    ensures n % 2 == 0
  {
    assert k == 2 * (k / 2);
    DividesTransitive(2, k, n);
    DividesIsZeroRemainder(2, n);
  }

  lemma OddFrom3(k: nat)
    requires k % 2 == 1 && 2 <= k < 223
    ensures 0 <= (k - 3) / 2 < 110 && k == 3 + 2 * ((k - 3) / 2)
  {}

  lemma NotAFactor(n: nat, k: nat)
    requires n % 2 == 1 && NoDivisorInBlocks(n, 3, 11) && 2 <= k < 223
    ensures !Divides(k, n)
  {
    DividesIsZeroRemainder(k, n);
    if k % 2 == 0 {
      if Divides(k, n) {
        EvenFactor(k, n);
      }
    } else {
      OddFrom3(k);
      NoOddDivisor(n, 3, 11, (k - 3) / 2, k);
    }
  }

  /** Trial division by the odd numbers below 223. */
  lemma TrialDivision(n: nat)
    requires 223 <= n < 223 * 223 && n % 2 == 1 && NoDivisorInBlocks(n, 3, 11)
    ensures IsPrime(n)
  {
    forall d {:trigger Divides(d, n)} | 2 <= d < n
      ensures !Divides(d, n)
    {
      if Divides(d, n) {
        var k := SmallFactor(n, d);
        NotAFactor(n, k);
      }
    }
  }

  lemma SmallFactor(n: nat, d: nat) returns (k: nat)
    requires n < 223 * 223 && 2 <= d < n && Divides(d, n)
    ensures 2 <= k < 223 && Divides(k, n)
  {
    var e: int :| n == d * e;
    OtherFactor(n, d, e);
    k := if d < 223 then d else e;
    assert n == e * d;
  }

  lemma OtherFactor(n: int, d: int, e: int)
    requires n == d * e && 2 <= d < n < 223 * 223
    ensures 2 <= e && (d < 223 || e < 223)
  {
    assert e >= 1;
    assert e != 1;
    if d >= 223 {
      assert 223 * e <= d * e;
    }
  }

  lemma LimitsArePrime()
    ensures IsPrime(FIRST_REJECTABLE_PRIME) && IsPrime(SEARCH_LIMIT)
  {
    FirstRejectableIsPrime();
    SearchLimitIsPrime();
  }

  lemma FirstRejectableIsPrime()
    ensures IsPrime(46349)
  {
    TrialDivision(46349);
  }

  lemma SearchLimitIsPrime()
    ensures IsPrime(46337)
  {
    TrialDivision(46337);
  }

  /** The odd numbers for which products may wrap, below 46349, are composite. */
  lemma PrimesNearTheLimit(q: nat)
    requires IsPrime(q) && q < FIRST_REJECTABLE_PRIME
    ensures q <= 46341
  {
    assert Divides(2, 46342) by { assert 46342 == 2 * 23171; }
    assert Divides(11, 46343) by { assert 46343 == 11 * 4213; }
    assert Divides(2, 46344) by { assert 46344 == 2 * 23172; }
    assert Divides(5, 46345) by { assert 46345 == 5 * 9269; }
    assert Divides(2, 46346) by { assert 46346 == 2 * 23173; }
    assert Divides(3, 46347) by { assert 46347 == 3 * 15449; }
    assert Divides(2, 46348) by { assert 46348 == 2 * 23174; }
  }

  /** The three variables of the loop. */
  datatype State = State(p: int, a: int, exp: nat)

  predicate IsRound(s: State, t: State, val: nat, w: Width)
    requires val > 0
  {
    && s.exp > 0 && t.exp == s.exp / 2
    && t.a == Product(s.a, s.a, val, w)
    && t.p == if s.exp % 2 == 1 then Product(s.p, s.a, val, w) else s.p
  }

  /** The loop for 46349 and the base 634 before each of its rounds, and at the end. */
  function RejectingRound(i: nat): State {
    match i
    case 0 => State(1, 634, 46348)
    case 1 => State(1, 31164, 23174)
    case 2 => State(1, 44299, 11587)
    case 3 => State(44299, 31090, 5793)
    case 4 => State(41724, 26054, 2896)
    case 5 => State(41724, 29811, 1448)
    case 6 => State(41724, 46344, 724)
    case 7 => State(41724, 37658, 362)
    case 8 => State(41724, 30960, 181)
    case 9 => State(28410, 24280, 90)
    case 10 => State(28410, 5469, 45)
    case 11 => State(12442, 14856, 22)
    case 12 => State(12442, 33147, 11)
    case 13 => State(1572, 20564, 5)
    case 14 => State(21355, 36169, 2)
    case 15 => State(21355, 42385, 1)
    case _ => State(28403, 985, 0)
  }

  lemma Round0()
    ensures IsRound(RejectingRound(0), RejectingRound(1), 46349, Int32)
  {}

  lemma Round1()
    ensures IsRound(RejectingRound(1), RejectingRound(2), 46349, Int32)
  {}

  lemma Round2()
    ensures IsRound(RejectingRound(2), RejectingRound(3), 46349, Int32)
  {}

  lemma Round3()
    ensures IsRound(RejectingRound(3), RejectingRound(4), 46349, Int32)
  {}

  lemma Round4()
    ensures IsRound(RejectingRound(4), RejectingRound(5), 46349, Int32)
  {}

  lemma Round5()
    ensures IsRound(RejectingRound(5), RejectingRound(6), 46349, Int32)
  {}

  /** Here the product wraps: 46344 * 46344 does not fit. */
  lemma WrappedSquare()
    ensures Product(46344, 46344, 46349, Int32) == 37658
  {
    assert 46344 * 46344 == 2147766336;
    assert Stored(2147766336, Int32) == -2147200960;
    assert Operand(-2147200960) == 18446744071562350656;
    assert 18446744071562350656 % 46349 == 37658;
  }

  lemma Round6()
    ensures IsRound(RejectingRound(6), RejectingRound(7), 46349, Int32)
  {
    WrappedSquare();
  }

  lemma Round7()
    ensures IsRound(RejectingRound(7), RejectingRound(8), 46349, Int32)
  {}

  lemma Round8()
    ensures IsRound(RejectingRound(8), RejectingRound(9), 46349, Int32)
  {}

  lemma Round9()
    ensures IsRound(RejectingRound(9), RejectingRound(10), 46349, Int32)
  {}

  lemma Round10()
    ensures IsRound(RejectingRound(10), RejectingRound(11), 46349, Int32)
  {}

  lemma Round11()
    ensures IsRound(RejectingRound(11), RejectingRound(12), 46349, Int32)
  {}

  lemma Round12()
    ensures IsRound(RejectingRound(12), RejectingRound(13), 46349, Int32)
  {}

  lemma Round13()
    ensures IsRound(RejectingRound(13), RejectingRound(14), 46349, Int32)
  {}

  lemma Round14()
    ensures IsRound(RejectingRound(14), RejectingRound(15), 46349, Int32)
  {}

  lemma Round15()
    ensures IsRound(RejectingRound(15), RejectingRound(16), 46349, Int32)
  {}

  lemma RejectingRoundsFollow(i: nat)
    requires i < 16
    ensures IsRound(RejectingRound(i), RejectingRound(i + 1), 46349, Int32)
  {
    if
    case i == 0 => Round0();
    case i == 1 => Round1();
    case i == 2 => Round2();
    case i == 3 => Round3();
    case i == 4 => Round4();
    case i == 5 => Round5();
    case i == 6 => Round6();
    case i == 7 => Round7();
    case i == 8 => Round8();
    case i == 9 => Round9();
    case i == 10 => Round10();
    case i == 11 => Round11();
    case i == 12 => Round12();
    case i == 13 => Round13();
    case i == 14 => Round14();
    case i == 15 => Round15();
  }

  lemma {:induction false} RejectingLoop(i: nat)
    requires i <= 16
    ensures var s := RejectingRound(i); PowerLoop(s.p, s.a, s.exp, 46349, Int32) == 28403
    decreases 16 - i
  {
    if i < 16 {
      RejectingRoundsFollow(i);
      RejectingLoop(i + 1);
    }
  }

  /** The draw 632 gives the base 634, and with it 46349 fails: a product has wrapped. */
  lemma FirstRejectablePrime()
    ensures Rejectable(FIRST_REJECTABLE_PRIME, Int32)
  {
    assert Base(632, 46349, Int32) == 634;
    RejectingLoop(0);
    assert Fails(632, 46349, Int32);
  }

  /** The 32-bit test accepts every prime from 5 up to `v`, whatever is drawn, exactly below 46349. */
  lemma AcceptsPrimesExactlyBelowLimit(v: nat)
    ensures (forall q: nat :: IsPrime(q) && 5 <= q <= v ==> !Rejectable(q, Int32)) <==> v < FIRST_REJECTABLE_PRIME
  {
    if v < FIRST_REJECTABLE_PRIME {
      forall q: nat | IsPrime(q) && 5 <= q <= v
        ensures !Rejectable(q, Int32)
      {
        PrimeIsNotRejectable(q, Int32);
      }
    } else {
      LimitsArePrime();
      FirstRejectablePrime();
    }
  }

  // ----- the search -----------------------------------------------------------------------

  /** Every odd candidate above `val` and below `p` may be rejected. */
  ghost predicate RejectedBetween(val: int, p: int, w: Width)
    requires val >= -1
  {
    forall q: nat :: val < q < p && q % 2 == 1 ==> Rejectable(q, w)
  }

  /** What a search that returns may return: the first odd number above `val` not rejected. */
  ghost predicate MayReturn(val: int, p: nat, w: Width)
    requires val >= -1
  {
    p % 2 == 1 && p > val && RejectedBetween(val, p, w) && Acceptable(p, w)
  }

  /** The condition under which the search is known to end: a caller can check it. */
  predicate Settled(val: int, w: Width) {
    w.Unbounded? || val < SEARCH_LIMIT
  }

  /** `p` lies beyond no prime from 5 up; from 46337 on this holds of primes below 46349 only. */
  ghost predicate KeepsToPrimes(val: int, p: int, w: Width) {
    forall q :: IsPrime(q) && q >= 5 && q > val && (Settled(val, w) || q < FIRST_REJECTABLE_PRIME) ==> p <= q
  }

  /** `StillSearching`: as many candidates as asked for were tried, and none accepted. */
  datatype Search = Found(p: nat) | StillSearching

  /** The first candidate of a search. */
  function FirstCandidate(val: int): (p: nat)
    requires val >= -1
    ensures p % 2 == 1 && val < p <= val + 2
  {
    if val % 2 == 1 then val + 2 else val + 1
  }

  function Candidate(val: int, i: nat): (q: nat)
    requires val >= -1
    ensures q % 2 == 1 && q > val
  {
    FirstCandidate(val) + 2 * i
  }

  /** Every odd number above `val` is a candidate. */
  lemma CandidateIndex(val: int, q: nat) returns (i: nat)
    requires val >= -1 && q > val && q % 2 == 1
    ensures q == FirstCandidate(val) + 2 * i
  {
    i := (q - FirstCandidate(val)) / 2;
  }

  /** From call `from` on, `rand` fails every candidate at its first base. */
  ghost predicate AlwaysFails(val: int, w: Width, rand: Draws, from: nat)
    requires val >= -1
  {
    forall i: nat :: FailsOne(val, w, rand, from, i)
  }

  ghost predicate FailsOne(val: int, w: Width, rand: Draws, from: nat, i: nat)
    requires val >= -1
  {
    Fails(rand(from + i), Candidate(val, i), w)
  }

  /** Some sequence of random numbers keeps the search going for ever. */
  ghost predicate MayNotEnd(val: int, w: Width)
    requires val >= -1
  {
    exists rand: Draws :: InRange(rand) && AlwaysFails(val, w, rand, 0)
  }

  ghost function FailingDraw(q: nat, w: Width): (r: nat)
    requires q >= 1 && q != 4
    ensures r <= RAND_MAX
    ensures Rejectable(q, w) ==> Fails(r, q, w)
  {
    if r: nat :| Fails(r, q, w) then r else 0
  }

  /** What `rand` may give from call `from` on to fail each candidate that can fail. */
  ghost function UnluckyDraw(val: int, w: Width, from: nat, i: nat): (r: nat)
    requires val >= -1
    ensures r <= RAND_MAX
  {
    if i >= from then FailingDraw(Candidate(val, i - from), w) else 0
  }

  lemma UnluckyDraws(val: int, w: Width, from: nat) returns (rand: Draws)
    requires val >= -1 && forall i: nat :: Rejectable(Candidate(val, i), w)
    ensures InRange(rand) && AlwaysFails(val, w, rand, from)
  {
    rand := i => UnluckyDraw(val, w, from, i);
    forall i: nat
      ensures FailsOne(val, w, rand, from, i)
    {
      assert rand(from + i) == FailingDraw(Candidate(val, i), w);
    }
  }

  lemma AllRejectable(val: int, w: Width, rand: Draws)
    requires val >= -1 && AlwaysFails(val, w, rand, 0)
    ensures forall i: nat :: Rejectable(Candidate(val, i), w)
  {
    forall i: nat
      ensures Rejectable(Candidate(val, i), w)
    {
      FailsAt(val, w, rand, 0, i);
    }
  }

  /** A search may go on for ever exactly if every candidate can be rejected. */
  lemma MayNotEndExactly(val: int, w: Width)
    requires val >= -1
    ensures MayNotEnd(val, w) <==> forall i: nat :: Rejectable(Candidate(val, i), w)
  {
    if MayNotEnd(val, w) {
      var rand :| InRange(rand) && AlwaysFails(val, w, rand, 0);
      AllRejectable(val, w, rand);
    } else if forall i: nat :: Rejectable(Candidate(val, i), w) {
      var rand := UnluckyDraws(val, w, 0);
    }
  }

  /**
    How the random numbers carry a search along: candidate number `i` is tested from call
    `starts[i]` on, and all before the last one fail on what they draw.
    */
  ghost predicate Trace(val: int, w: Width, rand: Draws, starts: seq<nat>)
    requires val >= -1
  {
    && |starts| > 0
    && forall i: nat :: i + 1 < |starts| ==> RejectedOn(Candidate(val, i), w, rand, starts[i], starts[i + 1])
  }

  /** `p` is the first candidate to pass on the random numbers from call `from` on; call `next` is still to come. */
  ghost predicate FoundOn(val: int, w: Width, rand: Draws, from: nat, p: nat, next: nat)
    requires val >= -1
  {
    exists starts :: FoundBy(val, w, rand, from, p, next, starts)
  }

  ghost predicate FoundBy(val: int, w: Width, rand: Draws, from: nat, p: nat, next: nat, starts: seq<nat>)
    requires val >= -1
  {
    && Trace(val, w, rand, starts) && starts[0] == from
    && p == Candidate(val, |starts| - 1)
    && AcceptedOn(p, w, rand, starts[|starts| - 1]) && next == starts[|starts| - 1] + 9
  }

  /** Two traces of the same random numbers agree as far as both go. */
  lemma {:induction false} TracesAgree(val: int, w: Width, rand: Draws, s: seq<nat>, t: seq<nat>, i: nat)
    requires val >= -1 && Trace(val, w, rand, s) && Trace(val, w, rand, t) && s[0] == t[0]
    requires i < |s| && i < |t|
    ensures s[i] == t[i]
  {
    if i > 0 {
      TracesAgree(val, w, rand, s, t, i - 1);
      RejectedOnce(Candidate(val, i - 1), w, rand, s[i - 1], s[i], t[i]);
    }
  }

  lemma RejectedOnce(q: nat, w: Width, rand: Draws, at: nat, next: nat, next': nat)
    requires q >= 1 && q != 4 && RejectedOn(q, w, rand, at, next) && RejectedOn(q, w, rand, at, next')
    ensures next == next'
  {}

  lemma AcceptedNotRejected(q: nat, w: Width, rand: Draws, at: nat, next: nat)
    requires q >= 1 && q != 4 && AcceptedOn(q, w, rand, at)
    ensures !RejectedOn(q, w, rand, at, next)
  {}

  lemma NotLonger(val: int, w: Width, rand: Draws, from: nat, p: nat, next: nat, s: seq<nat>, t: seq<nat>)
    requires val >= -1 && FoundBy(val, w, rand, from, p, next, s)
    requires Trace(val, w, rand, t) && t[0] == from
    ensures |t| <= |s|
  {
    var last := |s| - 1;
    if |t| > |s| {
      TracesAgree(val, w, rand, s, t, last);
      AcceptedNotRejected(p, w, rand, s[last], t[last + 1]);
    }
  }

  /** The random numbers determine what is found, and how many of them are used. */
  lemma SearchIsDetermined(val: int, w: Width, rand: Draws, from: nat, p: nat, next: nat, p': nat, next': nat)
    requires val >= -1 && FoundOn(val, w, rand, from, p, next) && FoundOn(val, w, rand, from, p', next')
    ensures p == p' && next == next'
  {
    var s :| FoundBy(val, w, rand, from, p, next, s);
    var t :| FoundBy(val, w, rand, from, p', next', t);
    NotLonger(val, w, rand, from, p, next, s, t);
    NotLonger(val, w, rand, from, p', next', t, s);
    TracesAgree(val, w, rand, s, t, |s| - 1);
  }

  lemma TraceGrows(val: int, w: Width, rand: Draws, starts: seq<nat>, next: nat)
    requires val >= -1 && Trace(val, w, rand, starts)
    requires RejectedOn(Candidate(val, |starts| - 1), w, rand, starts[|starts| - 1], next)
    ensures Trace(val, w, rand, starts + [next])
  {}

  /**
    findPrimeGreaterThan. In exact arithmetic it ends for all random numbers, and so it
    does in 32 bits for `val` below 46337. Where it may go on for ever, the model follows
    it for `patience` candidates.
    */
  method FindPrimeGreaterThan(val: int, w: Width, patience: nat, rand: Draws, from: nat)
    returns (r: Search, next: nat, ghost starts: seq<nat>)
    requires val >= -1 && InRange(rand)
    ensures r.Found? ==> MayReturn(val, r.p, w)
    ensures Settled(val, w) ==> r.Found?
    ensures r.StillSearching? ==> RejectedBetween(val, Candidate(val, patience), w)
    ensures AlwaysFails(val, w, rand, from) ==> r.StillSearching?
    ensures r.Found? ==> FoundBy(val, w, rand, from, r.p, next, starts)
    ensures r.StillSearching? ==> Trace(val, w, rand, starts) && starts[0] == from && |starts| == patience + 2
  {
    var p, tries: nat := FirstCandidate(val), 0;
    next, starts := from, [from];
    ghost var last := LastCandidate(val, w, patience);
    while true
      invariant p == Candidate(val, tries) && RejectedBetween(val, p, w) && p <= last
      invariant AlwaysFails(val, w, rand, from) ==> next == from + tries
      invariant Trace(val, w, rand, starts) && starts[0] == from
      invariant |starts| == tries + 1 && next == starts[tries] && (Settled(val, w) || tries <= patience)
      decreases last - p
    {
      var ok;
      ok, next := TryCandidate(val, w, rand, from, next, p, tries, last);
      if ok {
        return Found(p), next, starts;
      }
      TraceGrows(val, w, rand, starts, next);
      starts := starts + [next];
      if !Settled(val, w) && tries >= patience {
        return StillSearching, next, starts;
      }
      p := p + 2;
      tries := tries + 1;
    }
  }

  /** One test of that loop, of its candidate number `i`. */
  method TryCandidate(val: int, w: Width, rand: Draws, ghost from: nat, at: nat, p: nat, i: nat, ghost last: nat)
    returns (ok: bool, next: nat)
    requires val >= -1 && InRange(rand) && p == Candidate(val, i) && RejectedBetween(val, p, w)
    requires Settled(val, w) ==> EndsAt(val, last, w)
    ensures ok ==> MayReturn(val, p, w)
    ensures !ok ==> RejectedBetween(val, p + 2, w) && (Settled(val, w) ==> p + 2 <= last)
    ensures AlwaysFails(val, w, rand, from) && at == from + i ==> !ok && next == at + 1
    ensures if ok then AcceptedOn(p, w, rand, at) && next == at + 9 else RejectedOn(p, w, rand, at, next)
  {
    ghost var bases;
    ok, next, bases := IsProbablyPrime(p, w, rand, at);
    if AlwaysFails(val, w, rand, from) && at == from + i {
      FirstDraw(val, w, rand, from, i, at, next);
    }
    if ok {
      FirstAccepted(val, p, bases, w);
    } else {
      OneMoreRejected(val, p, last, w);
    }
  }

  /** If every candidate fails at once, this one does. */
  lemma FirstDraw(val: int, w: Width, rand: Draws, from: nat, i: nat, at: nat, next: nat)
    requires val >= -1 && at == from + i && AlwaysFails(val, w, rand, from)
    requires AcceptedOn(Candidate(val, i), w, rand, at) || RejectedOn(Candidate(val, i), w, rand, at, next)
    ensures !AcceptedOn(Candidate(val, i), w, rand, at) && next == at + 1
  {
    FailsAt(val, w, rand, from, i);
    assert Fails(rand(at), Candidate(val, i), w);
  }

  /** The search cannot pass `last`. */
  ghost predicate EndsAt(val: int, last: nat, w: Width) {
    last > val && last % 2 == 1 && !Rejectable(last, w)
  }

  lemma OneMoreRejected(val: int, p: nat, last: nat, w: Width)
    requires val >= -1 && p > val && p % 2 == 1 && RejectedBetween(val, p, w) && Rejectable(p, w)
    requires Settled(val, w) ==> EndsAt(val, last, w)
    ensures RejectedBetween(val, p + 2, w) && (Settled(val, w) ==> p + 2 <= last)
  {
    forall q: nat | val < q < p + 2 && q % 2 == 1
      ensures Rejectable(q, w)
    {
      OddNotAbove(p, q);
    }
  }

  lemma OddNotAbove(p: nat, q: nat)
    requires p % 2 == 1 && q % 2 == 1 && q < p + 2
    ensures q < p || q == p
  {}

  lemma FirstAccepted(val: int, p: nat, bases: seq<int>, w: Width)
    requires val >= -1 && p > val && p % 2 == 1 && RejectedBetween(val, p, w) && Survives(p, bases, w)
    ensures MayReturn(val, p, w)
  {}

  lemma FailsAt(val: int, w: Width, rand: Draws, from: nat, i: nat)
    requires val >= -1
    ensures AlwaysFails(val, w, rand, from) ==> Fails(rand(from + i), Candidate(val, i), w)
  {
    if AlwaysFails(val, w, rand, from) {
      assert FailsOne(val, w, rand, from, i);
    }
  }

  /** A settled search ends at some prime; otherwise as many candidates are tried as asked for. */
  lemma LastCandidate(val: int, w: Width, patience: nat) returns (last: nat)
    requires val >= -1
    ensures last >= FirstCandidate(val)
    ensures if Settled(val, w) then EndsAt(val, last, w) else last == Candidate(val, patience)
  {
    last := Candidate(val, patience);
    if Settled(val, w) {
      last := AcceptedPrime(val, w);
      PrimeIsOdd(last);
    }
  }

  lemma AcceptedPrime(val: int, w: Width) returns (target: nat)
    requires val >= -1
    ensures IsPrime(target) && target >= 5 && target > val
    ensures Settled(val, w) ==> !Rejectable(target, w)
  {
    if w.Int32? && val < SEARCH_LIMIT {
      LimitsArePrime();
      target := SEARCH_LIMIT;
      PrimeIsNotRejectable(target, w);
    } else {
      target := PrimeAbove(if val > 4 then val else 4);
      if w.Unbounded? {
        PrimeIsNotRejectable(target, w);
      }
    }
  }

  lemma NoPrimeSkipped(val: int, p: int, q: nat, w: Width)
    requires val >= -1 && RejectedBetween(val, p, w)
    requires IsPrime(q) && q >= 5 && q > val && !Rejectable(q, w)
    ensures p <= q
  {
    PrimeIsOdd(q);
  }

  /** The search never passes a prime that is not rejectable. */
  lemma NextPrimeBound(val: int, p: nat, w: Width)
    requires val >= -1 && RejectedBetween(val, p, w)
    ensures KeepsToPrimes(val, p, w)
  {
    forall q | IsPrime(q) && q >= 5 && q > val && (Settled(val, w) || q < FIRST_REJECTABLE_PRIME)
      ensures p <= q
    {
      if w.Unbounded? || q < FIRST_REJECTABLE_PRIME {
        PrimeIsNotRejectable(q, w);
        NoPrimeSkipped(val, p, q, w);
      } else {
        var target := AcceptedPrime(val, w);
        LimitsArePrime();
        PrimeIsNotRejectable(SEARCH_LIMIT, w);
        NoPrimeSkipped(val, p, SEARCH_LIMIT, w);
      }
    }
  }

  lemma PrimeIsOdd(q: int)
    requires IsPrime(q) && q > 2
    ensures q % 2 == 1
  {
    DividesIsZeroRemainder(2, q);
  }
}
