/**
  Where the hash map of include/HashMap.c stops being a finite map: stale values that
  come back, null data that hides later keys, and composite sizes whose paths fill up.
  */
module HashBoundaries {
  import NT = NumberTheory
  import PP = PrimePowers
  import PrimeSearch
  import opened FermatBases
  import opened Addresses
  import opened Probing
  import opened HashTable
  import opened HashContents
  import opened HashRuns
  import HashMaps

  /** The second round of a path is never back at the first slot. */
  lemma SecondProbeDiffers(k: Key, n: nat)
    requires TableSize(n) && n >= 3
    ensures Probe(k, n, 1) != Probe(k, n, 0)
  {
    ProbeCollision(k, n, 1, 0);
    OrbitLengthTimesGcd(k, n);
    if Probe(k, n, 1) == Probe(k, n, 0) {
      NT.DivisorBound(OrbitLength(k, n), 1);
    }
  }

  /** `k` goes to the first slot of its path. */
  lemma InsertAtFirst(t: Table, k: Key, d: Ptr, u: Table)
    requires TableSize(|t|) && InsertStep(t, k, d, u) && |ActiveSlots(t)| < |t|
    requires !At(t, k, 0).active || At(t, k, 0).key == k
    ensures u == Put(t, Probe(k, |t|, 0), k, d)
  {
    PlaceIs(t, k, 0, 0);
  }

  /** `k` goes to the second slot of its path. */
  lemma InsertAtSecond(t: Table, k: Key, d: Ptr, u: Table)
    requires TableSize(|t|) && |t| >= 3 && InsertStep(t, k, d, u) && |ActiveSlots(t)| < |t|
    requires At(t, k, 0).active && At(t, k, 0).key != k && !At(t, k, 1).active
    ensures u == Put(t, Probe(k, |t|, 1), k, d)
  {
    PlaceIs(t, k, 0, 1);
  }

  /** Three keys whose paths start in the same slot. */
  ghost predicate SameHome(a: Key, b: Key, c: Key, n: nat)
    requires TableSize(n)
  {
    a != b && b != c && a != c && Probe(a, n, 0) == Probe(b, n, 0) == Probe(c, n, 0)
  }

  /** Insert `a`, insert `b`, remove `a`: `b` sits behind an inactive slot. */
  lemma BehindTombstone(t0: Table, t1: Table, t2: Table, a: Key, b: Key, pa: Ptr, b1: Ptr)
    requires TableSize(|t0|) && |t0| >= 3 && AllBlank(t0) && pa != NULL && a != b
    requires Probe(a, |t0|, 0) == Probe(b, |t0|, 0)
    requires InsertStep(t0, a, pa, t1) && TableSize(|t1|) && InsertStep(t1, b, b1, t2)
    ensures |t2| == |t0|
    ensures var x, y := Probe(b, |t0|, 0), Probe(b, |t0|, 1);
            Remove(t2, a) == t0[x := Entry(pa, false, a)][y := Entry(b1, true, b)]
  {
    var x, y := Probe(b, |t0|, 0), Probe(b, |t0|, 1);
    SecondProbeDiffers(b, |t0|);
    assert ActiveSlots(t0) == {};
    InsertAtFirst(t0, a, pa, t1);
    assert ActiveSlots(t1) == {x};
    InsertAtSecond(t1, b, b1, t2);
    assert RemovalFrom(t2, a, 0) == Some(x);
  }

  /** Overwriting `b` there and removing it again deactivates only the nearer copy. */
  lemma NearerCopyRemoved(t3: Table, t4: Table, b: Key, b2: Ptr)
    requires TableSize(|t3|) && |t3| >= 3 && b2 != NULL && |ActiveSlots(t3)| < |t3|
    requires !At(t3, b, 0).active
    requires InsertStep(t3, b, b2, t4)
    ensures |t4| == |t3| && RemoveResult(t4, b) == b2
    ensures Remove(t4, b) == t3[Probe(b, |t3|, 0) := Entry(b2, false, b)]
  {
    InsertAtFirst(t3, b, b2, t4);
    assert RemovalFrom(t4, b, 0) == Some(Probe(b, |t3|, 0));
  }

  /** Filling that slot with `c` lets the search for `b` reach the farther copy. */
  lemma FartherCopyFound(t5: Table, t6: Table, b: Key, b1: Ptr, c: Key, pc: Ptr)
    requires TableSize(|t5|) && |t5| >= 3 && pc != NULL && b != c && |ActiveSlots(t5)| < |t5|
    requires !At(t5, b, 0).active && At(t5, b, 1) == Entry(b1, true, b)
    requires Probe(c, |t5|, 0) == Probe(b, |t5|, 0)
    requires InsertStep(t5, c, pc, t6)
    ensures TableSize(|t6|) && Lookup(t6, b) == b1
  {
    SecondProbeDiffers(b, |t5|);
    InsertAtFirst(t5, c, pc, t6);
    assert At(t6, b, 0) == Entry(pc, true, c) && At(t6, b, 1) == Entry(b1, true, b);
    FindIs(t6, b, 0, 1);
  }

  lemma OneActiveLeft(t0: Table, x: nat, e: Entry, y: nat, f: Entry)
    requires AllBlank(t0) && x < |t0| && y < |t0| && x != y && !e.active && f.active
    ensures ActiveSlots(t0[x := e][y := f]) == {y}
  {}

  /** The last three table changes, from the table in which `b` sits behind an inactive slot. */
  lemma StaleTables(t0: Table, t3: Table, t4: Table, t6: Table, e: Entry,
                    b: Key, c: Key, b1: Ptr, b2: Ptr, pc: Ptr)
    requires b1 != NULL && b2 != NULL && pc != NULL && b != c && !e.active
    requires TableSize(|t0|) && |t0| >= 3 && AllBlank(t0) && Probe(c, |t0|, 0) == Probe(b, |t0|, 0)
    requires t3 == t0[Probe(b, |t0|, 0) := e][Probe(b, |t0|, 1) := Entry(b1, true, b)]
    requires InsertStep(t3, b, b2, t4) && TableSize(|t4|) && InsertStep(Remove(t4, b), c, pc, t6)
    ensures RemoveResult(t4, b) == b2
    ensures TableSize(|t6|) && Lookup(t6, b) == b1
  {
    var x, y := Probe(b, |t0|, 0), Probe(b, |t0|, 1);
    SecondProbeDiffers(b, |t0|);
    OneActiveLeft(t0, x, e, y, Entry(b1, true, b));
    NearerCopyRemoved(t3, t4, b, b2);
    var t5 := Remove(t4, b);
    assert t5 == t0[x := Entry(b2, false, b)][y := Entry(b1, true, b)];
    OneActiveLeft(t0, x, Entry(b2, false, b), y, Entry(b1, true, b));
    FartherCopyFound(t5, t6, b, b1, c, pc);
  }

  /**
    A removed value comes back: overwriting `b` past the slot that `a` freed leaves two
    copies, removing `b` hides one, and reusing that slot for `c` uncovers the older.
    The last Get returns `b1`, where a map would return null.
    */
  lemma StaleValueComesBack(tables: seq<Table>, results: seq<Result>,
                            a: Key, b: Key, c: Key, pa: Ptr, b1: Ptr, b2: Ptr, pc: Ptr)
    requires pa != NULL && b1 != NULL && b2 != NULL && pc != NULL
    requires IsRun(tables, [InsertOp(pa, a), InsertOp(b1, b), RemoveOp(a), InsertOp(b2, b),
                            RemoveOp(b), InsertOp(pc, c), GetOp(b)], results)
    requires AllBlank(tables[0]) && |tables[0]| >= 3 && SameHome(a, b, c, |tables[0]|)
    ensures results[4] == Pointer(b2)
    ensures results[6] == Pointer(b1)
  {
    var ops := [InsertOp(pa, a), InsertOp(b1, b), RemoveOp(a), InsertOp(b2, b),
                RemoveOp(b), InsertOp(pc, c), GetOp(b)];
    assert Call(tables[0], ops[0], results[0], tables[1]);
    assert Call(tables[1], ops[1], results[1], tables[2]);
    assert Call(tables[2], ops[2], results[2], tables[3]);
    assert Call(tables[3], ops[3], results[3], tables[4]);
    assert Call(tables[4], ops[4], results[4], tables[5]);
    assert Call(tables[5], ops[5], results[5], tables[6]);
    assert Call(tables[6], ops[6], results[6], tables[7]);
    BehindTombstone(tables[0], tables[1], tables[2], a, b, pa, b1);
    StaleTables(tables[0], tables[3], tables[4], tables[6], Entry(pa, false, a), b, c, b1, b2, pc);
  }

  lemma DefaultSizeIsPrime()
    ensures NT.IsPrime(1021)
  {
    PrimeSearch.TrialDivision(1021);
  }

  /** Such a run exists in either width, from a map of the default size. */
  method ShowStaleValue(w: PrimeSearch.Width, rand: PrimeSearch.Draws, pa: Ptr, b1: Ptr, b2: Ptr, pc: Ptr)
    returns (results: seq<Result>)
    requires PrimeSearch.InRange(rand)
    requires pa != NULL && b1 != NULL && b2 != NULL && pc != NULL
    ensures |results| == 7 && results[4] == Pointer(b2) && results[6] == Pointer(b1)
  {
    var hm := HashMaps.Create(0, w, 0, rand);
    var a, b, c := 0, 1021, 2042;
    DefaultSizeIsPrime();
    ghost var tables;
    var back;
    results, tables, back := PerformAll(hm, [InsertOp(pa, a), InsertOp(b1, b), RemoveOp(a), InsertOp(b2, b),
                                             RemoveOp(b), InsertOp(pc, c), GetOp(b)]);
    assert Probe(a, 1021, 0) == 0 && Probe(b, 1021, 0) == 0 && Probe(c, 1021, 0) == 0;
    StaleValueComesBack(tables, results, a, b, c, pa, b1, b2, pc);
  }

  /** Null data reads as an empty slot, so it hides every key stored behind it. */
  lemma NullDataHidesLaterKeys(tables: seq<Table>, results: seq<Result>, a: Key, b: Key, d: Ptr)
    requires d != NULL && a != b
    requires IsRun(tables, [InsertOp(NULL, a), InsertOp(d, b), GetOp(b), CountOp], results)
    requires AllBlank(tables[0]) && |tables[0]| >= 3
    requires Probe(a, |tables[0]|, 0) == Probe(b, |tables[0]|, 0)
    ensures results[2] == Pointer(NULL) && results[3] == Number(2)
  {
    var ops := [InsertOp(NULL, a), InsertOp(d, b), GetOp(b), CountOp];
    var n := |tables[0]|;
    var x, y := Probe(b, n, 0), Probe(b, n, 1);
    SecondProbeDiffers(b, n);
    var t0, t1, t2 := tables[0], tables[1], tables[2];
    assert Call(t0, ops[0], results[0], t1);
    assert Call(t1, ops[1], results[1], t2);
    assert Call(t2, ops[2], results[2], tables[3]);
    assert Call(tables[3], ops[3], results[3], tables[4]);
    assert ActiveSlots(t0) == {};
    InsertAtFirst(t0, a, NULL, t1);
    assert ActiveSlots(t1) == {x};
    InsertAtSecond(t1, b, d, t2);
    assert FindFrom(t2, b, 0).None?;
    assert ActiveSlots(t2) == {x, y};
  }

  /** With two active copies a rehash keeps the one in the lowest slot, whatever Get returned before. */
  lemma RehashKeepsLowestCopy(t: Table, u: Table, s: nat, k: Key)
    requires Sound(t) && RehashOutcome(t, u)
    requires Holds(t, s, k) && forall r: nat :: r < s ==> !Holds(t, r, k)
    ensures Lookup(u, k) == t[s].data
  {
    RehashSound(t, u);
    CleanModel(u);
    StoredFromLowest(t, 0, s, k);
    ModelIsFind(u, k);
  }

  // ----- composite sizes -----------------------------------------------------------------------

  /** `n` slots; those one below a multiple of `q` are taken by the keys that hash to them. */
  function StuckTable(n: nat, q: nat): Table
    requires q > 0
  {
    seq(n, i requires 0 <= i < n => if i % q == q - 1 then Entry(1, true, i) else BLANK)
  }

  /** A key that starts in slot `q - 1` and moves on by `q`. */
  function StuckKey(n: nat, q: nat): Key
    requires n >= 2 && q >= 1
  {
    (n - 2) * n + (q - 1)
  }

  lemma StuckKeyPath(n: nat, q: nat)
    requires TableSize(n) && 2 <= q <= n - 2
    ensures StuckKey(n, q) >= n && StuckKey(n, q) % n == q - 1 && Step(StuckKey(n, q), n) == q
  {
    var k := StuckKey(n, q);
    assert (n - 2) * n >= 2 * n by { NT.ProductMonotone(2, n - 2, n); }
    NT.DivModUnique(k, n, n - 2, q - 1);
    assert k == n * (n - 2) + (q - 1);
    NT.DivModUnique(k, n - 2, n, q - 1);
  }

  /** If `q` divides the size, the path never leaves the taken slots. */
  lemma {:induction false} StuckPath(n: nat, q: nat, c: nat, i: nat)
    requires TableSize(n) && 2 <= q <= n - 2 && n == q * c
    ensures Probe(StuckKey(n, q), n, i) % q == q - 1
  {
    StuckKeyPath(n, q);
    if i == 0 {
      NT.DivModUnique(q - 1, q, 0, q - 1);
    } else {
      StuckPath(n, q, c, i - 1);
      var x := Probe(StuckKey(n, q), n, i - 1);
      NT.RemainderOfMultiple(x + q, n, q, c);
      NT.ModShift(x, 1, q);
      assert x + 1 * q == x + q;
    }
  }

  lemma StuckIsPacked(n: nat, q: nat)
    requires TableSize(n) && q >= 2
    ensures Packed(StuckTable(n, q)) && |ActiveSlots(StuckTable(n, q))| < n
  {
    var t := StuckTable(n, q);
    forall s: nat | s < |t| && t[s].active
      ensures exists p :: PackedAt(t, s, p)
    {
      assert t[s] == Entry(1, true, s);
      NT.DivModUnique(s, n, 0, s);
      assert PackedAt(t, s, 0);
    }
    NT.DivModUnique(0, q, 0, 0);
    assert !t[0].active;
    ActiveSlotsBound(t);
  }

  /** A size with a proper divisor has a packed table, not full, and a key with no slot in it. */
  lemma CompositeSizeCanBeStuck(n: nat, q: nat, c: nat)
    requires TableSize(n) && 2 <= q <= n - 2 && n == q * c
    ensures Packed(StuckTable(n, q)) && |ActiveSlots(StuckTable(n, q))| < n
    ensures Place(StuckTable(n, q), StuckKey(n, q)).None?
  {
    StuckIsPacked(n, q);
    StuckKeyPath(n, q);
    var t, k := StuckTable(n, q), StuckKey(n, q);
    forall i: nat | i < n
      ensures At(t, k, i).active && At(t, k, i).key != k
    {
      StuckPath(n, q, c, i);
    }
    var p := PlaceFound(t, k, 0);
  }

  lemma ProperDivisor(n: nat) returns (q: nat, c: nat)
    requires TableSize(n) && n >= 3 && !NT.IsPrime(n)
    ensures 2 <= q <= n - 2 && n == q * c
  {
    q :| 2 <= q < n && NT.Divides(q, n);
    var e: int :| n == q * e;
    NT.CofactorOfProper(n, q, e);
    c := e;
    if q == n - 1 {
      assert 2 * q <= q * e by { NT.ProductMonotone(2, e, q); }
    }
  }

  /**
    The fallback rehash cannot be reached exactly for the prime sizes: only for them does
    every packed table with room left have a slot on the path of every key.
    */
  lemma FallbackUnreachableExactlyForPrimes(n: nat)
    requires TableSize(n) && n >= 3
    ensures NT.IsPrime(n) <==>
            forall t: Table, k: Key :: |t| == n && Packed(t) && |ActiveSlots(t)| < n ==> CanPlace(t, k)
  {
    if NT.IsPrime(n) {
      forall t: Table, k: Key | |t| == n && Packed(t) && |ActiveSlots(t)| < n
        ensures CanPlace(t, k)
      {
        PrimeSizeAlwaysPlaces(t, k);
      }
    } else {
      var q, c := ProperDivisor(n);
      CompositeSizeCanBeStuck(n, q, c);
      assert !CanPlace(StuckTable(n, q), StuckKey(n, q));
    }
  }

  /** A packed table of `n` slots that has room, but none on the path of `k`. */
  ghost predicate Stuck(t: Table, k: Key, n: nat)
    requires TableSize(n)
  {
    |t| == n && Packed(t) && |ActiveSlots(t)| < n && !CanPlace(t, k)
  }

  /**
    The sizes at which the fallback matters: the search may return a size and a table of
    that size may be stuck exactly for the composites that are no powers of 3.
    */
  lemma StuckSizeReturnedExactly(n: nat, w: PrimeSearch.Width)
    requires TableSize(n) && n >= 5 && Exact(n, w)
    ensures PrimeSearch.MayReturn(n - 1, n, w) && (exists t, k :: Stuck(t, k, n))
            <==> !NT.IsPrime(n) && !PP.PowerOf3(n)
  {
    MayReturnExactly(n - 1, n, w);
    FallbackUnreachableExactlyForPrimes(n);
    assert (exists t, k :: Stuck(t, k, n)) <==> !NT.IsPrime(n) by {
      if !NT.IsPrime(n) {
        var t, k :| |t| == n && Packed(t) && |ActiveSlots(t)| < n && !CanPlace(t, k);
        assert Stuck(t, k, n);
      }
    }
  }

  lemma FifteenIsNoPowerOf3(n: nat, k: nat)
    requires n == 15
    ensures NT.Pow(3, k) != n
  {
    if k >= 3 {
      PP.PowAdd(3, 3, k - 3);
      PP.PowAtLeast(3, k - 3);
      assert NT.Pow(3, 3) == 27;
    } else if k > 0 {
      assert NT.Pow(3, 1) == 3 && NT.Pow(3, 2) == 9;
    }
  }

  /** The least such size. */
  lemma SearchMayReturnStuckSize(w: PrimeSearch.Width)
    ensures PrimeSearch.MayReturn(14, 15, w) && exists t, k :: Stuck(t, k, 15)
  {
    assert NT.Divides(3, 15) by { assert 15 == 3 * 5; }
    forall k
      ensures NT.Pow(3, k) != 15
    {
      FifteenIsNoPowerOf3(15, k);
    }
    StuckSizeReturnedExactly(15, w);
  }

  // ----- such a table is reached -----------------------------------------------------------------

  /** Insert the keys one below the first `c` multiples of `q`. */
  function FillOps(q: nat, c: nat): (ops: seq<Op>)
    requires q > 0
    ensures |ops| == c
  {
    seq(c, i requires 0 <= i < c => InsertOp(1, i * q + (q - 1)))
  }

  /** The table after the first `i` of them. */
  function FilledTo(n: nat, q: nat, i: nat): Table
    requires q > 0
  {
    seq(n, j requires 0 <= j < n => if j % q == q - 1 && j < i * q then Entry(1, true, j) else BLANK)
  }

  lemma LastOfBlock(i: nat, q: nat, c: nat, j: nat)
    requires q > 0 && i < c
    ensures i * q + (q - 1) < c * q && (i * q + (q - 1)) % q == q - 1
    ensures j % q == q - 1 && i * q <= j < (i + 1) * q ==> j == i * q + (q - 1)
  {
    NT.DivModUnique(i * q + (q - 1), q, i, q - 1);
    NT.ProductMonotone(i + 1, c, q);
    assert (i + 1) * q == i * q + q;
    if i * q <= j < (i + 1) * q {
      NT.DivModUnique(j, q, i, j - i * q);
    }
  }

  lemma FillOne(n: nat, q: nat, c: nat, i: nat, u: Table)
    requires TableSize(n) && q >= 2 && n == c * q && i < c
    requires InsertStep(FilledTo(n, q, i), i * q + (q - 1), 1, u)
    ensures u == FilledTo(n, q, i + 1)
  {
    var t, k := FilledTo(n, q, i), i * q + (q - 1);
    LastOfBlock(i, q, c, 0);
    NT.DivModUnique(k, n, 0, k);
    NT.DivModUnique(0, q, 0, 0);
    assert !t[0].active && !t[k].active;
    ActiveSlotsBound(t);
    InsertAtFirst(t, k, 1, u);
    forall j | 0 <= j < n
      ensures u[j] == FilledTo(n, q, i + 1)[j]
    {
      LastOfBlock(i, q, c, j);
    }
  }

  lemma {:induction false} FillRun(tables: seq<Table>, results: seq<Result>, n: nat, q: nat, c: nat, i: nat)
    requires TableSize(n) && q >= 2 && n == c * q && i <= c
    requires IsRun(tables, FillOps(q, c), results) && AllBlank(tables[0]) && |tables[0]| == n
    ensures tables[i] == FilledTo(n, q, i)
  {
    if i > 0 {
      FillRun(tables, results, n, q, c, i - 1);
      assert Call(tables[i - 1], FillOps(q, c)[i - 1], results[i - 1], tables[i]);
      FillOne(n, q, c, i - 1, tables[i]);
    }
  }

  /** Inserting these keys into an empty table ends in the stuck one. */
  lemma StuckTableIsReached(tables: seq<Table>, results: seq<Result>, n: nat, q: nat, c: nat)
    requires TableSize(n) && 2 <= q <= n - 2 && n == q * c
    requires IsRun(tables, FillOps(q, c), results) && AllBlank(tables[0]) && |tables[0]| == n
    ensures tables[c] == StuckTable(n, q) && Stuck(tables[c], StuckKey(n, q), n)
  {
    FillRun(tables, results, n, q, c, c);
    assert c * q == n;
    CompositeSizeCanBeStuck(n, q, c);
  }

  // ----- insertions that do not come back ----------------------------------------------------------

  /**
    In 32 bits, for tables from 32761 slots up, an insertion comes back for all random
    numbers exactly if its path has room.
    */
  lemma InsertionSureExactlyWithRoom(t: Table, k: Key, drawn: nat)
    requires TableSize(|t|) && 2 * |t| >= ENDLESS_FROM
    ensures CanPlace(t, k) <==>
            forall rand: PrimeSearch.Draws :: PrimeSearch.InRange(rand) ==>
              !HashMaps.HeldUp(t, k, PrimeSearch.Int32, rand, drawn)
  {
    if !CanPlace(t, k) {
      LargeSearchMayNotEnd(2 * |t|);
      PrimeSearch.MayNotEndExactly(2 * |t|, PrimeSearch.Int32);
      var rand := PrimeSearch.UnluckyDraws(2 * |t|, PrimeSearch.Int32, drawn);
      assert HashMaps.HeldUp(t, k, PrimeSearch.Int32, rand, drawn);
    }
  }

  /** If rand() always gives 65534, such an insertion comes back exactly if there is room, however long one waits. */
  method InsertWithConstantDraws(hm: HashMaps.HashMap, data: Ptr, key: Key) returns (back: bool)
    requires hm.Valid() && hm.width.Int32? && hm.size >= 32769 && forall i: nat :: hm.rand(i) == 65534
    modifies hm, hm.table
    ensures back <==> old(CanPlace(hm.table[..], key))
  {
    ConstantDrawNeverEnds(2 * hm.size, hm.rand, hm.drawn);
    back := hm.Insert(data, key);
  }
}
