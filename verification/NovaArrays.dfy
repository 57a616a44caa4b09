/**
  Multi-dimensional arrays as the runtime builds and releases them
  (include/Nova.c, nova_gen_array and nova_free_array).
  */
module NovaArrays {
  import opened Addresses

  const POINTER_BYTES: nat := 8

  /** How often the loop over dimension `d` runs. */
  function Extent(dims: seq<int>, d: nat): nat
    requires d < |dims|
  {
    if dims[d] > 0 then dims[d] else 0
  }

  /** Pointer slots in a block of `bytes` bytes. */
  function SlotsIn(bytes: int): nat {
    if bytes > 0 then bytes / POINTER_BYTES else 0
  }

  // ----- the blocks reachable below an array ---------------------------------------------

  /** The allocated blocks, each with its pointer slots. */
  type Blocks = map<Addr, seq<Addr>>

  function Slot(m: Blocks, a: Addr, i: nat): Addr {
    if a in m && i < |m[a]| then m[a][i] else NULL
  }

  /** The blocks below the first `i` slots of `a`, in the order they are allocated. */
  ghost function Under(m: Blocks, a: Addr, dims: seq<int>, d: nat, i: nat): seq<Addr>
    requires d < |dims|
    decreases |dims| - d, i
  {
    if i == 0 then []
    else Under(m, a, dims, d, i - 1) + [Slot(m, a, i - 1)] + Below(m, Slot(m, a, i - 1), dims, d)
  }

  /** The blocks below a block that dimension `d` allocated. */
  ghost function Below(m: Blocks, c: Addr, dims: seq<int>, d: nat): seq<Addr>
    requires d < |dims|
    decreases |dims| - d, 0
  {
    if d + 1 < |dims| then Under(m, c, dims, d + 1, Extent(dims, d + 1)) else []
  }

  ghost function Elements(s: seq<Addr>): set<Addr> {
    set x | x in s
  }

  /** `Under` depends only on the slots read and on the blocks it lists. */
  lemma {:induction false} UnderFrame(m: Blocks, m': Blocks, a: Addr, dims: seq<int>, d: nat, i: nat)
    requires d < |dims|
    requires forall j: nat :: j < i ==> Slot(m', a, j) == Slot(m, a, j)
    requires forall x :: x in Under(m, a, dims, d, i) ==> (x in m' <==> x in m) && (x in m ==> m'[x] == m[x])
    ensures Under(m', a, dims, d, i) == Under(m, a, dims, d, i)
    decreases |dims| - d, i
  {
    if i > 0 {
      UnderFrame(m, m', a, dims, d, i - 1);
      var c := Slot(m, a, i - 1);
      if d + 1 < |dims| {
        assert c in Under(m, a, dims, d, i);
        assert forall x :: x in Below(m, c, dims, d) ==> x in Under(m, a, dims, d, i);
        UnderFrame(m, m', c, dims, d + 1, Extent(dims, d + 1));
      }
    }
  }

  // ----- how many ------------------------------------------------------------------------------

  function PrefixProduct(dims: seq<int>, k: nat): nat
    requires k <= |dims|
  {
    if k == 0 then 1 else PrefixProduct(dims, k - 1) * Extent(dims, k - 1)
  }

  function PrefixProductSum(dims: seq<int>, k: nat): nat
    requires k <= |dims|
  {
    if k == 0 then 0 else PrefixProductSum(dims, k - 1) + PrefixProduct(dims, k)
  }

  function BlocksFrom(dims: seq<int>, d: nat): nat
    requires d <= |dims|
    decreases |dims| - d
  {
    if d == |dims| then 0 else Extent(dims, d) * (1 + BlocksFrom(dims, d + 1))
  }

  lemma {:induction false} UnderCount(m: Blocks, a: Addr, dims: seq<int>, d: nat, i: nat)
    requires d < |dims|
    ensures |Under(m, a, dims, d, i)| == i * (1 + BlocksFrom(dims, d + 1))
    decreases |dims| - d, i
  {
    if i > 0 {
      UnderCount(m, a, dims, d, i - 1);
      if d + 1 < |dims| {
        UnderCount(m, Slot(m, a, i - 1), dims, d + 1, Extent(dims, d + 1));
      }
      var b := 1 + BlocksFrom(dims, d + 1);
      assert (i - 1) * b + b == i * b;
    }
  }

  lemma {:induction false} PrefixSumSplit(dims: seq<int>, d: nat)
    requires d <= |dims|
    ensures PrefixProductSum(dims, |dims|)
         == PrefixProductSum(dims, d) + PrefixProduct(dims, d) * BlocksFrom(dims, d)
    decreases |dims| - d
  {
    if d < |dims| {
      PrefixSumSplit(dims, d + 1);
      Distribute(PrefixProduct(dims, d), Extent(dims, d), BlocksFrom(dims, d + 1));
    }
  }

  lemma Distribute(p: int, n: int, b: int)
    ensures p * n + (p * n) * b == p * (n * (1 + b))
  {
    assert n * (1 + b) == n + n * b;
    assert p * (n + n * b) == p * n + p * (n * b);
    assert p * (n * b) == (p * n) * b;
  }

  /** The number of blocks is the sum of the prefix products of the dimensions. */
  lemma BlockCount(m: Blocks, a: Addr, dims: seq<int>)
    requires |dims| > 0
    ensures |Under(m, a, dims, 0, Extent(dims, 0))| == PrefixProductSum(dims, |dims|)
  {
    UnderCount(m, a, dims, 0, Extent(dims, 0));
    PrefixSumSplit(dims, 0);
  }

  // ----- bounds ------------------------------------------------------------------------------------

  ghost predicate AllPositive(dims: seq<int>, d: nat, e: nat) {
    forall f :: d <= f <= e && f < |dims| ==> dims[f] > 0
  }

  /** A block of dimension `e` has a slot for each write of the next one. */
  predicate RoomForNext(dims: seq<int>, e: nat, size: int)
    requires e + 1 < |dims|
  {
    Extent(dims, e + 1) <= SlotsIn(size * dims[e])
  }

  /** Every block the dimensions from `d` on allocate has a slot for each write of the next one. */
  ghost predicate Fits(dims: seq<int>, d: nat, size: int) {
    forall e: nat :: d <= e && e + 1 < |dims| && AllPositive(dims, d, e) ==> RoomForNext(dims, e, size)
  }

  lemma FitsNext(dims: seq<int>, d: nat, size: int)
    requires Fits(dims, d, size) && d < |dims| && dims[d] > 0
    ensures Fits(dims, d + 1, size)
    ensures d + 1 < |dims| ==> RoomForNext(dims, d, size)
  {
    assert AllPositive(dims, d, d);
    forall e: nat | d + 1 <= e && e + 1 < |dims| && AllPositive(dims, d + 1, e)
      ensures RoomForNext(dims, e, size)
    {
      assert AllPositive(dims, d, e);
    }
  }

  /**
    With pointer-sized elements the writes stay in bounds exactly when no dimension that
    is reached exceeds the one before it.
    */
  lemma FitsWhenNonIncreasing(dims: seq<int>)
    ensures Fits(dims, 0, 8) <==>
            forall e: nat :: e + 1 < |dims| && AllPositive(dims, 0, e) ==> dims[e + 1] <= dims[e]
  {
    forall e: nat | e + 1 < |dims| && AllPositive(dims, 0, e)
      ensures RoomForNext(dims, e, POINTER_BYTES) <==> dims[e + 1] <= dims[e]
    {
      assert dims[e] > 0;
      assert SlotsIn(POINTER_BYTES * dims[e]) == dims[e];
    }
  }

  // ----- writes ------------------------------------------------------------------------------------

  /** A pointer stored in slot `slot` of a block of `capacity` slots. */
  datatype SlotWrite = SlotWrite(slot: nat, capacity: nat)

  predicate WithinBlock(w: SlotWrite) {
    w.slot < w.capacity
  }

  /** What nova_gen_array stores in its first `i` rounds on a block of `capacity` slots, in order. */
  function Writes(dims: seq<int>, d: nat, capacity: nat, size: int, i: nat): seq<SlotWrite>
    requires d < |dims|
    decreases |dims| - d, i
  {
    if i == 0 then []
    else Writes(dims, d, capacity, size, i - 1) + [SlotWrite(i - 1, capacity)] + WritesBelow(dims, d, size)
  }

  function WritesBelow(dims: seq<int>, d: nat, size: int): seq<SlotWrite>
    requires d < |dims|
    decreases |dims| - d, 0
  {
    if d + 1 < |dims| then Writes(dims, d + 1, SlotsIn(size * dims[d]), size, Extent(dims, d + 1)) else []
  }

  ghost predicate AllWithin(ws: seq<SlotWrite>) {
    forall w :: w in ws ==> WithinBlock(w)
  }

  lemma AllWithinConcat(u: seq<SlotWrite>, w: SlotWrite, v: seq<SlotWrite>)
    ensures AllWithin(u + [w] + v) <==> AllWithin(u) && WithinBlock(w) && AllWithin(v)
  {
    forall x | x in u || x == w || x in v
      ensures x in u + [w] + v
    {}
  }

  lemma {:induction false} RoundsWithin(dims: seq<int>, d: nat, capacity: nat, size: int, i: nat)
    requires d < |dims|
    ensures AllWithin(Writes(dims, d, capacity, size, i)) <==>
            i <= capacity && (i > 0 ==> AllWithin(WritesBelow(dims, d, size)))
  {
    if i > 0 {
      RoundsWithin(dims, d, capacity, size, i - 1);
      AllWithinConcat(Writes(dims, d, capacity, size, i - 1), SlotWrite(i - 1, capacity), WritesBelow(dims, d, size));
    }
  }

  /** `Fits` one dimension down, for a dimension that is reached. */
  lemma FitsUnfold(dims: seq<int>, d: nat, size: int)
    requires d < |dims| && dims[d] > 0
    ensures Fits(dims, d, size) <==>
            (d + 1 < |dims| ==> RoomForNext(dims, d, size)) && Fits(dims, d + 1, size)
  {
    if Fits(dims, d, size) {
      FitsNext(dims, d, size);
    } else {
      var e: nat :| d <= e && e + 1 < |dims| && AllPositive(dims, d, e) && !RoomForNext(dims, e, size);
      assert e > d ==> AllPositive(dims, d + 1, e);
    }
  }

  /** Every store stays inside its block exactly if the first block is long enough and `Fits`. */
  lemma {:induction false} WithinExactlyWhenFits(dims: seq<int>, d: nat, capacity: nat, size: int)
    requires d < |dims|
    ensures AllWithin(Writes(dims, d, capacity, size, Extent(dims, d)))
            <==> Extent(dims, d) <= capacity && Fits(dims, d, size)
    decreases |dims| - d
  {
    RoundsWithin(dims, d, capacity, size, Extent(dims, d));
    if dims[d] > 0 {
      FitsUnfold(dims, d, size);
      if d + 1 < |dims| {
        WithinExactlyWhenFits(dims, d + 1, SlotsIn(size * dims[d]), size);
      }
    } else {
      assert forall e :: e >= d ==> !AllPositive(dims, d, e);
    }
  }

  // ----- allocations -------------------------------------------------------------------------------

  /** The dimensions for which nova_gen_array allocates in its first `i` rounds, in order. */
  function AllocatedFor(dims: seq<int>, d: nat, i: nat): seq<nat>
    requires d < |dims|
    decreases |dims| - d, i
  {
    if i == 0 then [] else AllocatedFor(dims, d, i - 1) + [d] + AllocatedBelow(dims, d)
  }

  function AllocatedBelow(dims: seq<int>, d: nat): seq<nat>
    requires d < |dims|
    decreases |dims| - d, 0
  {
    if d + 1 < |dims| then AllocatedFor(dims, d + 1, Extent(dims, d + 1)) else []
  }

  lemma AllocatedNext(dims: seq<int>, d: nat, i: nat)
    requires d < |dims|
    ensures AllocatedFor(dims, d, i + 1) == AllocatedFor(dims, d, i) + ([d] + AllocatedBelow(dims, d))
  {}

  lemma CountConcat(u: seq<nat>, d: nat, v: seq<nat>, e: nat)
    ensures multiset(u + [d] + v)[e] == multiset(u)[e] + (if d == e then 1 else 0) + multiset(v)[e]
  {}

  /** Blocks of dimension `e` below one block of dimension `d`. */
  function BlocksPer(dims: seq<int>, d: nat, e: nat): nat
    requires d <= e < |dims|
    decreases e - d
  {
    if d == e then 1 else Extent(dims, d + 1) * BlocksPer(dims, d + 1, e)
  }

  lemma {:induction false} AllocationCount(dims: seq<int>, d: nat, i: nat, e: nat)
    requires d < |dims|
    ensures multiset(AllocatedFor(dims, d, i))[e] == if d <= e < |dims| then i * BlocksPer(dims, d, e) else 0
    decreases |dims| - d, i
  {
    if i > 0 {
      AllocationCount(dims, d, i - 1, e);
      CountConcat(AllocatedFor(dims, d, i - 1), d, AllocatedBelow(dims, d), e);
      AllocationCountBelow(dims, d, e);
      if d <= e < |dims| {
        OneRoundMore(i, BlocksPer(dims, d, e));
      }
    }
  }

  lemma {:induction false} AllocationCountBelow(dims: seq<int>, d: nat, e: nat)
    requires d < |dims|
    ensures multiset(AllocatedBelow(dims, d))[e] == if d < e < |dims| then BlocksPer(dims, d, e) else 0
    decreases |dims| - d, 0
  {
    if d + 1 < |dims| {
      AllocationCount(dims, d + 1, Extent(dims, d + 1), e);
    }
  }

  lemma OneRoundMore(i: int, b: int)
    ensures (i - 1) * b + b == i * b
  {}

  lemma {:induction false} PrefixTimesPer(dims: seq<int>, d: nat, e: nat)
    requires d <= e < |dims|
    ensures PrefixProduct(dims, d + 1) * BlocksPer(dims, d, e) == PrefixProduct(dims, e + 1)
    decreases e - d
  {
    if d < e {
      PrefixTimesPer(dims, d + 1, e);
      Reassociate(PrefixProduct(dims, d + 1), Extent(dims, d + 1), BlocksPer(dims, d + 1, e));
    }
  }

  lemma Reassociate(a: int, b: int, c: int)
    ensures a * (b * c) == (a * b) * c
  {}

  lemma FirstPrefix(dims: seq<int>)
    requires |dims| > 0
    ensures PrefixProduct(dims, 1) == Extent(dims, 0)
  {
    assert PrefixProduct(dims, 1) == PrefixProduct(dims, 0) * Extent(dims, 0);
  }

  /** A whole array asks for as many blocks of each dimension as the dimensions up to it multiply to. */
  lemma AllocationsPerDimension(dims: seq<int>, e: nat)
    requires |dims| > 0
    ensures multiset(AllocatedFor(dims, 0, Extent(dims, 0)))[e] == if e < |dims| then PrefixProduct(dims, e + 1) else 0
  {
    AllocationCount(dims, 0, Extent(dims, 0), e);
    if e < |dims| {
      PrefixTimesPer(dims, 0, e);
      FirstPrefix(dims);
    }
  }

  // ----- releases -------------------------------------------------------------------------------------

  /** NOVA_FREE of an inner block, or the delete callback on a block of the last level. */
  datatype Release = Freed(a: Addr) | Deleted(a: Addr)

  /** What nova_free_array does for the first `i` slots, in order. */
  ghost function Releases(m: Blocks, a: Addr, dims: seq<int>, d: nat, i: nat): seq<Release>
    requires d < |dims|
    decreases |dims| - d, i
  {
    if i == 0 then []
    else Releases(m, a, dims, d, i - 1) + ReleasesOf(m, Slot(m, a, i - 1), dims, d)
  }

  ghost function ReleasesOf(m: Blocks, c: Addr, dims: seq<int>, d: nat): seq<Release>
    requires d < |dims|
    decreases |dims| - d, 0
  {
    if d + 1 < |dims| then Releases(m, c, dims, d + 1, Extent(dims, d + 1)) + [Freed(c)]
    else [Deleted(c)]
  }

  ghost function AddressesOf(rs: seq<Release>): seq<Addr> {
    seq(|rs|, i requires 0 <= i < |rs| => rs[i].a)
  }

  lemma AddressesConcat(r: seq<Release>, s: seq<Release>)
    ensures AddressesOf(r + s) == AddressesOf(r) + AddressesOf(s)
  {}

  /** Every block below is released exactly once. */
  lemma {:induction false} EachReleasedOnce(m: Blocks, a: Addr, dims: seq<int>, d: nat, i: nat)
    requires d < |dims|
    ensures multiset(AddressesOf(Releases(m, a, dims, d, i))) == multiset(Under(m, a, dims, d, i))
    decreases |dims| - d, i, 1
  {
    if i > 0 {
      EachReleasedOnce(m, a, dims, d, i - 1);
      var c := Slot(m, a, i - 1);
      ReleasedWithBelow(m, c, dims, d);
      ReleasesGrow(Releases(m, a, dims, d, i - 1), ReleasesOf(m, c, dims, d),
                   Under(m, a, dims, d, i - 1), c, Below(m, c, dims, d));
    }
  }

  lemma MultisetOfConcat(r: seq<Addr>, s: seq<Addr>)
    ensures multiset(r + s) == multiset(r) + multiset(s)
  {}

  lemma SameMultiset(r: seq<Addr>, q: seq<Addr>, u: seq<Addr>, c: Addr, b: seq<Addr>)
    requires multiset(r) == multiset(u) && multiset(q) == multiset([c]) + multiset(b)
    ensures multiset(r + q) == multiset(u + [c] + b)
  {}

  lemma FreedLast(r: seq<Release>, b: seq<Addr>, c: Addr)
    requires multiset(AddressesOf(r)) == multiset(b)
    ensures multiset(AddressesOf(r + [Freed(c)])) == multiset([c]) + multiset(b)
  {
    AddressesConcat(r, [Freed(c)]);
    assert AddressesOf([Freed(c)]) == [c];
    MultisetOfConcat(AddressesOf(r), [c]);
  }

  lemma ReleasesGrow(r: seq<Release>, q: seq<Release>, u: seq<Addr>, c: Addr, b: seq<Addr>)
    requires multiset(AddressesOf(r)) == multiset(u)
    requires multiset(AddressesOf(q)) == multiset([c]) + multiset(b)
    ensures multiset(AddressesOf(r + q)) == multiset(u + [c] + b)
  {
    AddressesConcat(r, q);
    SameMultiset(AddressesOf(r), AddressesOf(q), u, c, b);
  }

  lemma {:induction false} ReleasedWithBelow(m: Blocks, c: Addr, dims: seq<int>, d: nat)
    requires d < |dims|
    ensures multiset(AddressesOf(ReleasesOf(m, c, dims, d))) == multiset([c]) + multiset(Below(m, c, dims, d))
    decreases |dims| - d, 0
  {
    if d + 1 < |dims| {
      EachReleasedOnce(m, c, dims, d + 1, Extent(dims, d + 1));
      FreedLast(Releases(m, c, dims, d + 1, Extent(dims, d + 1)), Below(m, c, dims, d), c);
    } else {
      assert AddressesOf([Deleted(c)]) == [c];
    }
  }

  // ----- which release ------------------------------------------------------------------------------

  /** The blocks of the last dimension below the first `i` slots of `a`. */
  ghost function Leaves(m: Blocks, a: Addr, dims: seq<int>, d: nat, i: nat): seq<Addr>
    requires d < |dims|
    decreases |dims| - d, i
  {
    if d + 1 == |dims| then seq(i, j requires 0 <= j < i => Slot(m, a, j))
    else if i == 0 then []
    else Leaves(m, a, dims, d, i - 1) + Leaves(m, Slot(m, a, i - 1), dims, d + 1, Extent(dims, d + 1))
  }

  ghost function DeletedIn(rs: seq<Release>): seq<Addr> {
    if rs == [] then []
    else DeletedIn(rs[..|rs| - 1]) + (if rs[|rs| - 1].Deleted? then [rs[|rs| - 1].a] else [])
  }

  lemma {:induction false} DeletedConcat(r: seq<Release>, s: seq<Release>)
    ensures DeletedIn(r + s) == DeletedIn(r) + DeletedIn(s)
  {
    if s == [] {
      assert r + s == r;
    } else {
      var n := |s| - 1;
      assert (r + s)[..|r + s| - 1] == r + s[..n];
      DeletedConcat(r, s[..n]);
    }
  }

  /** The delete callback gets exactly the blocks of the last dimension, in order; the others are freed. */
  lemma {:induction false} LeavesAreDeleted(m: Blocks, a: Addr, dims: seq<int>, d: nat, i: nat)
    requires d < |dims|
    ensures DeletedIn(Releases(m, a, dims, d, i)) == Leaves(m, a, dims, d, i)
    decreases |dims| - d, i, 1
  {
    if i > 0 {
      LeavesAreDeleted(m, a, dims, d, i - 1);
      var c := Slot(m, a, i - 1);
      DeletedConcat(Releases(m, a, dims, d, i - 1), ReleasesOf(m, c, dims, d));
      LeavesOfAreDeleted(m, c, dims, d);
      LeavesNext(m, a, dims, d, i);
    }
  }

  lemma LeavesNext(m: Blocks, a: Addr, dims: seq<int>, d: nat, i: nat)
    requires d < |dims| && i > 0
    ensures var c := Slot(m, a, i - 1);
            Leaves(m, a, dims, d, i) == Leaves(m, a, dims, d, i - 1)
              + (if d + 1 == |dims| then [c] else Leaves(m, c, dims, d + 1, Extent(dims, d + 1)))
  {}

  lemma {:induction false} LeavesOfAreDeleted(m: Blocks, c: Addr, dims: seq<int>, d: nat)
    requires d < |dims|
    ensures DeletedIn(ReleasesOf(m, c, dims, d))
         == if d + 1 == |dims| then [c] else Leaves(m, c, dims, d + 1, Extent(dims, d + 1))
    decreases |dims| - d, 0
  {
    if d + 1 < |dims| {
      LeavesAreDeleted(m, c, dims, d + 1, Extent(dims, d + 1));
      FreedIsNotDeleted(Releases(m, c, dims, d + 1, Extent(dims, d + 1)), c);
    } else {
      OneDeleted(c);
    }
  }

  lemma OneDeleted(c: Addr)
    ensures DeletedIn([Deleted(c)]) == [c]
  {
    assert [Deleted(c)][..0] == [];
  }

  lemma FreedIsNotDeleted(r: seq<Release>, c: Addr)
    ensures DeletedIn(r + [Freed(c)]) == DeletedIn(r)
  {
    assert (r + [Freed(c)])[..|r|] == r;
  }
}
