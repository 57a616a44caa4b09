/**
  The double-hashing probe sequence (include/HashMap.c): which slots the loops of
  hashmapInsert, hashmapRemove, hashmapGet and hashmapContains look at.
  */
module Probing {
  import opened NumberTheory
  import PrimeSearch

  /** Table sizes: 1 or an odd number of at least 3. */
  predicate TableSize(n: int) {
    n >= 1 && n % 2 == 1
  }

  /** `size - 2` as the unsigned modulus it is used for: for size 1 it wraps around. */
  function StepRange(n: nat): (m: nat)
    requires TableSize(n)
    ensures m > 0
  {
    if n >= 3 then n - 2 else n + PrimeSearch.ULONG_RANGE - 2
  }

  /** `(key % (size-2)) + 1`. */
  function Step(k: nat, n: nat): (s: nat)
    requires TableSize(n)
    ensures 1 <= s <= k + 1
    ensures n >= 3 ==> s <= n - 2
  {
    RemainderRange(k, StepRange(n));
    k % StepRange(n) + 1
  }

  /** The slot looked at in round `i` of a probing loop. */
  function Probe(k: nat, n: nat, i: nat): (s: nat)
    requires TableSize(n)
    ensures s < n
  {
    if i == 0 then k % n else (Probe(k, n, i - 1) + Step(k, n)) % n
  }

  lemma OneMore(i: int, s: int)
    ensures (i - 1) * s + s == i * s
  {}

  /** The index after `i` steps, without the steps. */
  lemma {:induction false} ProbeClosedForm(k: nat, n: nat, i: nat)
    requires TableSize(n)
    ensures Probe(k, n, i) == (k % n + i * Step(k, n)) % n
  {
    var s := Step(k, n);
    if i == 0 {
      var r := k % n;
      RemainderRange(k, n);
      assert r + 0 * s == r;
      DivModUnique(r, n, 0, r);
    } else {
      ProbeClosedForm(k, n, i - 1);
      ModAddLeft(k % n + (i - 1) * s, s, n);
      OneMore(i, s);
    }
  }

  /**
    For sizes from 3 up: the first slot is the key reduced modulo the size, the step the
    key reduced modulo size - 2, plus 1.
    */
  lemma FirstSlotAndStep(k: nat, n: nat)
    requires TableSize(n) && n >= 3
    ensures k < n ==> Probe(k, n, 0) == k
    ensures Probe(k + n, n, 0) == Probe(k, n, 0)
    ensures k < n - 2 ==> Step(k, n) == k + 1
    ensures Step(k + (n - 2), n) == Step(k, n)
  {
    if k < n {
      DivModUnique(k, n, 0, k);
    }
    if k < n - 2 {
      DivModUnique(k, n - 2, 0, k);
    }
    ModShift(k, 1, n);
    ModShift(k, 1, n - 2);
    assert k + 1 * n == k + n && k + 1 * (n - 2) == k + (n - 2);
  }

  // ----- orbits -------------------------------------------------------------------

  function OrbitLength(k: nat, n: nat): nat
    requires TableSize(n)
  {
    n / Gcd(Step(k, n), n)
  }

  lemma OrbitLengthTimesGcd(k: nat, n: nat)
    requires TableSize(n)
    ensures var g := Gcd(Step(k, n), n);
            1 <= g <= Step(k, n) && n == OrbitLength(k, n) * g && 1 <= OrbitLength(k, n) <= n
  {
    var g := Gcd(Step(k, n), n);
    GcdDividesBoth(Step(k, n), n);
    DividesIsZeroRemainder(g, n);
    DivisorBound(g, Step(k, n));
    DivisorBound(g, n);
    var c := n / g;
    assert n == c * g;
    QuotientRange(c, g, n);
  }

  lemma QuotientRange(c: int, g: int, n: int)
    requires n >= 1 && g >= 1 && n == c * g
    ensures 1 <= c <= n
  {}

  lemma DifferenceOfMultiples(i: int, j: int, s: int)
    ensures i * s - j * s == (i - j) * s
  {}

  /** The size divides a multiple of the step exactly when the orbit length divides the factor. */
  lemma StepMultiples(k: nat, n: nat, t: int)
    requires TableSize(n)
    ensures Divides(n, t * Step(k, n)) <==> Divides(OrbitLength(k, n), t)
  {
    var s, g, c := Step(k, n), Gcd(Step(k, n), n), OrbitLength(k, n);
    if Divides(n, t * s) {
      CofactorDivides(s, n, t);
    }
    if Divides(c, t) {
      var q: int :| t == c * q;
      OrbitLengthTimesGcd(k, n);
      GcdDividesBoth(s, n);
      var r :| s == g * r;
      assert t * s == n * (q * r) by { FourProduct(c, q, g, r, n); }
    }
  }

  /** Two rounds look at the same slot exactly when they lie a multiple of the orbit length apart. */
  lemma ProbeCollision(k: nat, n: nat, i: nat, j: nat)
    requires TableSize(n)
    ensures OrbitLength(k, n) > 0
    ensures Probe(k, n, i) == Probe(k, n, j) <==> Divides(OrbitLength(k, n), i - j)
  {
    var s := Step(k, n);
    OrbitLengthTimesGcd(k, n);
    ProbeClosedForm(k, n, i);
    ProbeClosedForm(k, n, j);
    DifferenceOfMultiples(i, j, s);
    EqualRemainders(k % n + i * s, k % n + j * s, n);
    StepMultiples(k, n, i - j);
  }

  lemma FourProduct(c: int, q: int, g: int, t: int, n: int)
    requires n == c * g
    ensures (c * q) * (g * t) == n * (q * t)
  {
    Regroup(c * q, t, g);
    assert (c * q) * g == (c * g) * q by { Regroup(g, q, c); }
    Regroup(n, t, q);
  }

  /** The slots looked at in the first `m` rounds. */
  ghost function OrbitPrefix(k: nat, n: nat, m: nat): (slots: set<nat>)
    requires TableSize(n)
    ensures forall i: nat :: i < m ==> Probe(k, n, i) in slots
  {
    if m == 0 then {} else OrbitPrefix(k, n, m - 1) + {Probe(k, n, m - 1)}
  }

  lemma {:induction false} RoundOf(k: nat, n: nat, m: nat, s: nat) returns (i: nat)
    requires TableSize(n) && s in OrbitPrefix(k, n, m)
    ensures i < m && Probe(k, n, i) == s
  {
    if s == Probe(k, n, m - 1) {
      i := m - 1;
    } else {
      i := RoundOf(k, n, m - 1, s);
    }
  }

  /** The slots looked at in a whole probing loop. */
  ghost function Orbit(k: nat, n: nat): set<nat>
    requires TableSize(n)
  {
    OrbitPrefix(k, n, n)
  }

  lemma RoundsDiffer(k: nat, n: nat, i: nat, j: nat)
    requires TableSize(n) && i < j < i + OrbitLength(k, n)
    ensures Probe(k, n, i) != Probe(k, n, j)
  {
    ProbeCollision(k, n, j, i);
    if Divides(OrbitLength(k, n), j - i) {
      DivisorBound(OrbitLength(k, n), j - i);
    }
  }

  ghost predicate AllDifferent(k: nat, n: nat, m: nat)
    requires TableSize(n)
  {
    forall i: nat, j: nat :: i < j < m ==> Probe(k, n, i) != Probe(k, n, j)
  }

  lemma {:induction false} OrbitPrefixSize(k: nat, n: nat, m: nat)
    requires TableSize(n) && AllDifferent(k, n, m)
    ensures |OrbitPrefix(k, n, m)| == m
  {
    if m > 0 {
      OrbitPrefixSize(k, n, m - 1);
      if Probe(k, n, m - 1) in OrbitPrefix(k, n, m - 1) {
        var i := RoundOf(k, n, m - 1, Probe(k, n, m - 1));
      }
    }
  }

  lemma OrbitRoundsDiffer(k: nat, n: nat)
    requires TableSize(n)
    ensures AllDifferent(k, n, OrbitLength(k, n))
  {
    forall i: nat, j: nat | i < j < OrbitLength(k, n)
      ensures Probe(k, n, i) != Probe(k, n, j)
    {
      RoundsDiffer(k, n, i, j);
    }
  }

  lemma SameResidue(i: nat, c: nat)
    requires c > 0
    ensures Divides(c, i - i % c)
  {
    assert i - i % c == c * (i / c);
  }

  lemma ProbeStaysInPrefix(k: nat, n: nat, i: nat)
    requires TableSize(n)
    ensures Probe(k, n, i) in OrbitPrefix(k, n, OrbitLength(k, n))
  {
    var c := OrbitLength(k, n);
    OrbitLengthTimesGcd(k, n);
    var r: nat := i % c;
    SameResidue(i, c);
    ProbeCollision(k, n, i, r);
    assert r < c && Probe(k, n, r) == Probe(k, n, i);
  }

  lemma OrbitIsPrefix(k: nat, n: nat)
    requires TableSize(n) && OrbitLength(k, n) <= n
    ensures Orbit(k, n) == OrbitPrefix(k, n, OrbitLength(k, n))
  {
    var p := OrbitPrefix(k, n, OrbitLength(k, n));
    forall s | s in Orbit(k, n)
      ensures s in p
    {
      var i := RoundOf(k, n, n, s);
      ProbeStaysInPrefix(k, n, i);
    }
    forall s | s in p
      ensures s in Orbit(k, n)
    {
      var i := RoundOf(k, n, OrbitLength(k, n), s);
    }
  }

  /** The number of different slots a probing loop looks at, times gcd(step, size), is the size. */
  lemma OrbitSize(k: nat, n: nat)
    requires TableSize(n)
    ensures |Orbit(k, n)| == OrbitLength(k, n)
    ensures |Orbit(k, n)| * Gcd(Step(k, n), n) == n
    ensures GreatestCommonDivisor(Gcd(Step(k, n), n), Step(k, n), n)
  {
    GcdIsGreatest(Step(k, n), n);
    OrbitLengthTimesGcd(k, n);
    OrbitRoundsDiffer(k, n);
    OrbitPrefixSize(k, n, OrbitLength(k, n));
    OrbitIsPrefix(k, n);
  }

  /** The slots of a table of size `n`. */
  ghost function Slots(n: nat): (s: set<nat>)
    ensures |s| == n
    ensures forall i: nat :: i in s <==> i < n
  {
    if n == 0 then {} else Slots(n - 1) + {n - 1}
  }

  lemma SubsetSize<T>(a: set<T>, b: set<T>)
    requires a <= b
    ensures |a| <= |b|
    ensures |a| == |b| ==> a == b
  {
    assert b == a + (b - a);
    if |a| == |b| {
      assert b - a == {};
    }
  }

  lemma OrbitWithinSlots(k: nat, n: nat)
    requires TableSize(n)
    ensures Orbit(k, n) <= Slots(n)
  {
    forall s | s in Orbit(k, n)
      ensures s in Slots(n)
    {
      var i := RoundOf(k, n, n, s);
    }
  }

  /** For a prime size every loop is a permutation of all the slots. */
  lemma PrimeOrbitIsEverySlot(k: nat, n: nat)
    requires TableSize(n) && IsPrime(n)
    ensures OrbitLength(k, n) == n
    ensures Orbit(k, n) == Slots(n)
    ensures AllDifferent(k, n, n)
  {
    if Divides(n, Step(k, n)) {
      DivisorBound(n, Step(k, n));
    }
    PrimeGcd(n, Step(k, n));
    OrbitLengthTimesGcd(k, n);
    OrbitSize(k, n);
    OrbitWithinSlots(k, n);
    SubsetSize(Orbit(k, n), Slots(n));
    OrbitRoundsDiffer(k, n);
  }

  /** Once the size has outgrown the keys, every orbit is longer than `count`. */
  lemma LargeTableOrbit(k: nat, n: nat, maxKey: nat, count: nat)
    requires TableSize(n) && k <= maxKey
    requires n > (maxKey + 1) * count
    ensures OrbitLength(k, n) > count
  {
    var g, c := Gcd(Step(k, n), n), OrbitLength(k, n);
    OrbitLengthTimesGcd(k, n);
    LongOrbit(c, g, maxKey, count, n);
  }

  lemma LongOrbit(c: int, g: int, maxKey: nat, count: nat, n: int)
    requires 1 <= g <= maxKey + 1 && n == c * g && n > (maxKey + 1) * count
    ensures c > count
  {
    assert c * g <= c * (maxKey + 1);
  }
}
