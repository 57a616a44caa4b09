/**
  How the size of a table grows (include/HashMap.c): the searches that hashmapInsert and
  rehash make, one after the other, and the random numbers each of them uses up.
  */
module TableSizes {
  import opened NumberTheory
  import opened PrimeSearch
  import opened HashTable
  import opened HashContents

  /** A table size, and how many random numbers have been drawn by then. */
  datatype Stage = Stage(size: int, drawn: nat)

  /** The search for more than twice the size of `a` gives the size of `b`. */
  ghost predicate Grows(a: Stage, b: Stage, w: Width, rand: Draws) {
    && a.size >= 1 && b.size >= 1
    && MayReturn(2 * a.size, b.size, w)
    && FoundOn(2 * a.size, w, rand, a.drawn, b.size, b.drawn)
  }

  /** Some table of `n` slots with keys out of `keys`, packed and not full, has no slot for one of them. */
  ghost predicate Blocked(n: int, keys: set<Key>) {
    exists t, k :: BlockedAt(t, k, n, keys)
  }

  ghost predicate BlockedAt(t: Table, k: Key, n: int, keys: set<Key>) {
    && |t| == n && Packed(t) && |ActiveSlots(t)| < n && ActiveKeys(t) <= keys
    && k in keys && Place(t, k).None?
  }

  /** One search after the other; after the first each starts from a size that is blocked for some key. */
  ghost predicate Chain(s: seq<Stage>, w: Width, rand: Draws, keys: set<Key>) {
    && |s| > 0
    && (forall i: nat :: i + 1 < |s| ==> Grows(s[i], s[i + 1], w, rand))
    && (forall i: nat :: 0 < i && i + 1 < |s| ==> Blocked(s[i].size, keys))
  }

  ghost predicate Leads(s: seq<Stage>, a: Stage, b: Stage, w: Width, rand: Draws, keys: set<Key>) {
    Chain(s, w, rand, keys) && s[0] == a && s[|s| - 1] == b
  }

  ghost predicate Reached(a: Stage, b: Stage, w: Width, rand: Draws, keys: set<Key>) {
    exists s :: Leads(s, a, b, w, rand, keys)
  }

  lemma ReachedAtOnce(a: Stage, w: Width, rand: Draws, keys: set<Key>)
    ensures Reached(a, a, w, rand, keys)
  {
    assert Leads([a], a, a, w, rand, keys);
  }

  lemma ReachedByOne(a: Stage, b: Stage, w: Width, rand: Draws, keys: set<Key>)
    requires Grows(a, b, w, rand)
    ensures Reached(a, b, w, rand, keys)
  {
    assert Leads([a, b], a, b, w, rand, keys);
  }

  lemma BlockedMore(n: int, keys: set<Key>, more: set<Key>)
    requires Blocked(n, keys) && keys <= more
    ensures Blocked(n, more)
  {
    var t, k :| BlockedAt(t, k, n, keys);
    assert BlockedAt(t, k, n, more);
  }

  lemma ReachedMore(a: Stage, b: Stage, w: Width, rand: Draws, keys: set<Key>, more: set<Key>)
    requires Reached(a, b, w, rand, keys) && keys <= more
    ensures Reached(a, b, w, rand, more)
  {
    var s: seq<Stage> :| Leads(s, a, b, w, rand, keys);
    forall i: nat | 0 < i && i + 1 < |s|
      ensures Blocked(s[i].size, more)
    {
      BlockedMore(s[i].size, keys, more);
    }
    assert Leads(s, a, b, w, rand, more);
  }

  lemma JoinChains(s: seq<Stage>, r: seq<Stage>, w: Width, rand: Draws, keys: set<Key>)
    requires Chain(s, w, rand, keys) && Chain(r, w, rand, keys) && s[|s| - 1] == r[0]
    requires |s| == 1 || Blocked(r[0].size, keys)
    ensures Chain(s + r[1..], w, rand, keys)
  {
    var q, n := s + r[1..], |s| - 1;
    assert forall i: nat :: i <= n ==> q[i] == s[i];
    assert forall i: nat :: n <= i < |q| ==> q[i] == r[i - n];
    forall i: nat | i + 1 < |q|
      ensures Grows(q[i], q[i + 1], w, rand)
    {
      if i >= n {
        assert Grows(r[i - n], r[i - n + 1], w, rand);
      }
    }
    forall i: nat | 0 < i && i + 1 < |q|
      ensures Blocked(q[i].size, keys)
    {
      if i > n {
        assert Blocked(r[i - n].size, keys);
      }
    }
  }

  lemma ReachedFurther(a: Stage, b: Stage, c: Stage, w: Width, rand: Draws, keys: set<Key>)
    requires Reached(a, b, w, rand, keys) && Reached(b, c, w, rand, keys)
    requires a == b || b == c || Blocked(b.size, keys)
    ensures Reached(a, c, w, rand, keys)
  {
    if a != b && b != c {
      var s: seq<Stage> :| Leads(s, a, b, w, rand, keys);
      var r: seq<Stage> :| Leads(r, b, c, w, rand, keys);
      JoinChains(s, r, w, rand, keys);
      assert Leads(s + r[1..], a, c, w, rand, keys);
    }
  }

  /** Only composite sizes can be blocked. */
  lemma BlockedIsComposite(n: int, keys: set<Key>)
    requires Blocked(n, keys)
    ensures !IsPrime(n)
  {
    var t, k :| BlockedAt(t, k, n, keys);
    if IsPrime(n) {
      PrimeSizeAlwaysPlaces(t, k);
    }
  }

  /** The size reached is the first one found, unless that is composite and blocked for some key. */
  lemma FirstSizeLasts(a: Stage, b: Stage, w: Width, rand: Draws, keys: set<Key>) returns (f: Stage)
    requires Reached(a, b, w, rand, keys) && a != b
    ensures Grows(a, f, w, rand)
    ensures f == b || (Blocked(f.size, keys) && !IsPrime(f.size))
  {
    var s: seq<Stage> :| Leads(s, a, b, w, rand, keys);
    f := s[1];
    if |s| > 2 {
      BlockedIsComposite(f.size, keys);
    }
  }

  lemma PrimeAfter2042()
    ensures IsPrime(2053)
  {
    TrialDivision(2053);
  }

  /** From the default size: at most 2053 slots if the first size found is prime. */
  lemma DefaultSizeGrows(drawn: nat, b: Stage, w: Width, rand: Draws, keys: set<Key>) returns (f: Stage)
    requires Reached(Stage(1021, drawn), b, w, rand, keys) && b.size > 1021
    ensures Grows(Stage(1021, drawn), f, w, rand) && 2043 <= f.size <= 2053
    ensures IsPrime(f.size) ==> b == f && b.size <= 2053
  {
    f := FirstSizeLasts(Stage(1021, drawn), b, w, rand, keys);
    PrimeAfter2042();
    NextPrimeBound(2042, f.size, w);
  }
}
