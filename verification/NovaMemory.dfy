/**
  nova_gen_array and nova_free_array as they run on memory (include/Nova.c): blocks are
  filled in place while they are allocated, and a release removes its block, so reading
  or releasing a block twice would be caught.
  */
module NovaMemory {
  import opened Addresses
  import opened NovaArrays

  /** What nova_free_array needs of the blocks below the first `i` slots of `a`. */
  ghost predicate Built(m: Blocks, a: Addr, dims: seq<int>, d: nat, i: nat)
    requires d < |dims|
    decreases |dims| - d, i
  {
    && a in m && i <= |m[a]|
    && (i > 0 ==> Built(m, a, dims, d, i - 1) && BuiltBelow(m, Slot(m, a, i - 1), dims, d))
  }

  ghost predicate BuiltBelow(m: Blocks, c: Addr, dims: seq<int>, d: nat)
    requires d < |dims|
    decreases |dims| - d, 0
  {
    c in m && (d + 1 < |dims| ==> Built(m, c, dims, d + 1, Extent(dims, d + 1)))
  }

  lemma {:induction false} BuiltFrame(m: Blocks, m': Blocks, a: Addr, dims: seq<int>, d: nat, i: nat)
    requires d < |dims| && Built(m, a, dims, d, i)
    requires a in m' && i <= |m'[a]| && forall j: nat :: j < i ==> m'[a][j] == m[a][j]
    requires forall x :: x in Under(m, a, dims, d, i) && x in m ==> x in m' && m'[x] == m[x]
    ensures Built(m', a, dims, d, i)
    decreases |dims| - d, i
  {
    if i > 0 {
      BuiltFrame(m, m', a, dims, d, i - 1);
      var c := Slot(m, a, i - 1);
      assert c in Under(m, a, dims, d, i);
      if d + 1 < |dims| {
        assert forall x :: x in Below(m, c, dims, d) ==> x in Under(m, a, dims, d, i);
        BuiltFrame(m, m', c, dims, d + 1, Extent(dims, d + 1));
      }
    }
  }

  lemma {:induction false} BuiltBlocksExist(m: Blocks, a: Addr, dims: seq<int>, d: nat, i: nat)
    requires d < |dims| && Built(m, a, dims, d, i)
    ensures forall x :: x in Under(m, a, dims, d, i) ==> x in m
    decreases |dims| - d, i
  {
    if i > 0 {
      BuiltBlocksExist(m, a, dims, d, i - 1);
      if d + 1 < |dims| {
        BuiltBlocksExist(m, Slot(m, a, i - 1), dims, d + 1, Extent(dims, d + 1));
      }
    }
  }

  /** The blocks below the first `i` slots are complete, distinct and new since `m0`. */
  ghost predicate FreshBelow(m0: Blocks, m: Blocks, a: Addr, dims: seq<int>, d: nat, i: nat)
    requires d < |dims|
  {
    && Built(m, a, dims, d, i)
    && NoDuplicates(Under(m, a, dims, d, i))
    && (forall x :: x in Under(m, a, dims, d, i) ==> x !in m0)
  }

  /** Since `m0` only slots of `a` below `i` have changed and only the blocks in `u` are new. */
  ghost predicate OnlyAdds(m0: Blocks, m: Blocks, a: Addr, i: nat, u: seq<Addr>) {
    && a in m0 && a in m && i <= |m[a]| == |m0[a]| && m[a][i..] == m0[a][i..]
    && (forall x :: x in m0 ==> x in m && (x != a ==> m[x] == m0[x]))
    && (forall x :: x in m && x !in m0 ==> x in u)
  }

  /** Memory with `c` in slot `i` of `a`, if the block has that slot. */
  function WithSlot(m: Blocks, a: Addr, i: nat, c: Addr): Blocks
    requires a in m
  {
    var ws: seq<Addr> := if i < |m[a]| then m[a][i := c] else m[a];
    m[a := ws]
  }

  /** NOVA_MALLOC was asked for `bytes` bytes, for dimension `dim`, and gave `block`. */
  datatype Request = Request(dim: nat, bytes: int, block: Addr)

  ghost function DimsOf(rs: seq<Request>): seq<nat> {
    seq(|rs|, k requires 0 <= k < |rs| => rs[k].dim)
  }

  lemma WritesRound(w0: seq<SlotWrite>, w1: seq<SlotWrite>, w2: seq<SlotWrite>,
                    dims: seq<int>, d: nat, capacity: nat, size: int, i: nat)
    requires d < |dims| && w1 == w0 + Writes(dims, d, capacity, size, i)
    requires w2 == w1 + [SlotWrite(i, capacity)] + WritesBelow(dims, d, size)
    ensures w2 == w0 + Writes(dims, d, capacity, size, i + 1)
  {}

  /** No block has gone or changed its size. */
  ghost predicate SameSizes(m: Blocks, m': Blocks) {
    forall x :: x in m ==> x in m' && |m'[x]| == |m[x]|
  }

  /** The request was for a whole row of elements and got a block that is new since `m`. */
  ghost predicate ServedOne(r: Request, m: Blocks, m': Blocks, dims: seq<int>, size: int) {
    && r.dim < |dims| && r.bytes == size * dims[r.dim]
    && r.block !in m && r.block in m' && |m'[r.block]| == SlotsIn(r.bytes)
  }

  /** All requests were served so, and nothing else is new. */
  ghost predicate Served(rs: seq<Request>, m: Blocks, m': Blocks, dims: seq<int>, size: int) {
    && (forall r :: r in rs ==> ServedOne(r, m, m', dims, size))
    && (forall x :: x in m' && x !in m ==> exists r :: r in rs && r.block == x)
  }

  /** From memory `m` and log `r0` to `m'` and `r1`: requests for the dimensions `ds`, in this order, and no others. */
  ghost predicate Allocated(r0: seq<Request>, r1: seq<Request>, m: Blocks, m': Blocks, ds: seq<nat>,
                            dims: seq<int>, size: int) {
    && SameSizes(m, m') && r0 <= r1
    && Served(r1[|r0|..], m, m', dims, size) && DimsOf(r1[|r0|..]) == ds
  }

  lemma AllocatedNone(r0: seq<Request>, m: Blocks, dims: seq<int>, size: int)
    ensures Allocated(r0, r0, m, m, [], dims, size)
  {}

  lemma AllocatedOne(r0: seq<Request>, m: Blocks, m': Blocks, dims: seq<int>, d: nat, size: int, c: Addr)
    requires d < |dims| && SameSizes(m, m')
    requires c !in m && c in m' && |m'[c]| == SlotsIn(size * dims[d]) && forall x :: x in m' && x != c ==> x in m
    ensures Allocated(r0, r0 + [Request(d, size * dims[d], c)], m, m', [d], dims, size)
  {
    var r := Request(d, size * dims[d], c);
    var rs := (r0 + [r])[|r0|..];
    assert rs == [r];
    assert r in rs && r.block == c;
  }

  lemma ServedBoth(u: seq<Request>, v: seq<Request>, m0: Blocks, m1: Blocks, m2: Blocks, dims: seq<int>, size: int)
    requires SameSizes(m0, m1) && SameSizes(m1, m2)
    requires Served(u, m0, m1, dims, size) && Served(v, m1, m2, dims, size)
    ensures Served(u + v, m0, m2, dims, size)
  {
    forall r | r in u + v
      ensures ServedOne(r, m0, m2, dims, size)
    {
      if r in u {
        assert ServedOne(r, m0, m1, dims, size);
      } else {
        assert ServedOne(r, m1, m2, dims, size);
      }
    }
    forall x | x in m2 && x !in m0
      ensures exists r :: r in u + v && r.block == x
    {
      var r :| (r in u || r in v) && r.block == x;
      assert r in u + v;
    }
  }

  lemma AllocatedBoth(r0: seq<Request>, r1: seq<Request>, r2: seq<Request>, m0: Blocks, m1: Blocks, m2: Blocks,
                      ds: seq<nat>, es: seq<nat>, dims: seq<int>, size: int)
    requires Allocated(r0, r1, m0, m1, ds, dims, size) && Allocated(r1, r2, m1, m2, es, dims, size)
    ensures Allocated(r0, r2, m0, m2, ds + es, dims, size)
  {
    var u, v := r1[|r0|..], r2[|r1|..];
    assert r2[|r0|..] == u + v;
    ServedBoth(u, v, m0, m1, m2, dims, size);
    assert DimsOf(u + v) == DimsOf(u) + DimsOf(v);
  }

  lemma AllocatedRound(r0: seq<Request>, r1: seq<Request>, r2: seq<Request>, m0: Blocks, m1: Blocks, m2: Blocks,
                       dims: seq<int>, d: nat, i: nat, size: int)
    requires d < |dims| && Allocated(r0, r1, m0, m1, AllocatedFor(dims, d, i), dims, size)
    requires Allocated(r1, r2, m1, m2, [d] + AllocatedBelow(dims, d), dims, size)
    ensures Allocated(r0, r2, m0, m2, AllocatedFor(dims, d, i + 1), dims, size)
  {
    AllocatedBoth(r0, r1, r2, m0, m1, m2, AllocatedFor(dims, d, i), [d] + AllocatedBelow(dims, d), dims, size);
    AllocatedNext(dims, d, i);
  }

  /** What nova_gen_array has achieved after `i` rounds, coming from memory `m0`. */
  ghost predicate Generated(m0: Blocks, m: Blocks, a: Addr, dims: seq<int>, d: nat, i: nat)
    requires d < |dims|
  {
    FreshBelow(m0, m, a, dims, d, i) && OnlyAdds(m0, m, a, i, Under(m, a, dims, d, i))
  }

  /** Memory after one round has allocated `c` and stored it in slot `i` of `a`. */
  function WithChild(m: Blocks, a: Addr, i: nat, c: Addr, ws: seq<Addr>): Blocks
    requires a in m && i < |m[a]|
  {
    var slots: seq<Addr> := m[a][i := c];
    m[c := ws][a := slots]
  }

  lemma GenerateOne(m0: Blocks, m: Blocks, c: Addr, ws: seq<Addr>, n: Blocks, m': Blocks,
                    a: Addr, dims: seq<int>, d: nat, i: nat)
    requires d < |dims| && Generated(m0, m, a, dims, d, i) && i < |m[a]| && c !in m
    requires n == WithChild(m, a, i, c, ws)
    requires if d + 1 < |dims| then Generated(n, m', c, dims, d + 1, Extent(dims, d + 1)) else m' == n
    ensures Generated(m0, m', a, dims, d, i + 1)
  {
    var u, b := Under(m, a, dims, d, i), Below(m', c, dims, d);
    var k := if d + 1 < |dims| then Extent(dims, d + 1) else 0;
    assert OnlyAdds(n, m', c, k, b);
    AddsOne(m0, m, c, ws, n, m', a, i, u, k, b);
    FreshOne(m0, m, c, ws, n, m', a, dims, d, i);
  }

  lemma FreshOne(m0: Blocks, m: Blocks, c: Addr, ws: seq<Addr>, n: Blocks, m': Blocks,
                 a: Addr, dims: seq<int>, d: nat, i: nat)
    requires d < |dims| && FreshBelow(m0, m, a, dims, d, i) && i < |m[a]| && c !in m
    requires n == WithChild(m, a, i, c, ws)
    requires c in m' && forall x :: x in n && x != c ==> x in m' && m'[x] == n[x]
    requires a in m0 && forall x :: x in m0 ==> x in m
    requires d + 1 < |dims| ==> FreshBelow(n, m', c, dims, d + 1, Extent(dims, d + 1))
    ensures FreshBelow(m0, m', a, dims, d, i + 1)
    ensures Under(m', a, dims, d, i + 1) == Under(m, a, dims, d, i) + [c] + Below(m', c, dims, d)
  {
    var u, b := Under(m, a, dims, d, i), Below(m', c, dims, d);
    assert m'[a] == n[a];
    BuiltBlocksExist(m, a, dims, d, i);
    BuiltFrame(m, m', a, dims, d, i);
    UnderFrame(m, m', a, dims, d, i);
    assert Slot(m', a, i) == c && BuiltBelow(m', c, dims, d);
    assert forall x :: x in b ==> x !in n;
    NoDuplicatesConcat(u, c, b);
  }

  lemma AddsOne(m0: Blocks, m: Blocks, c: Addr, ws: seq<Addr>, n: Blocks, m': Blocks,
                a: Addr, i: nat, u: seq<Addr>, k: nat, b: seq<Addr>)
    requires OnlyAdds(m0, m, a, i, u) && i < |m[a]| && c !in m
    requires n == WithChild(m, a, i, c, ws) && OnlyAdds(n, m', c, k, b)
    ensures OnlyAdds(m0, m', a, i + 1, u + [c] + b)
  {
    assert m'[a] == n[a];
    assert m'[a][i + 1..] == m[a][i..][1..] == m0[a][i..][1..] == m0[a][i + 1..];
  }

  lemma NoDuplicatesConcat(u: seq<Addr>, c: Addr, b: seq<Addr>)
    requires NoDuplicates(u) && NoDuplicates(b) && c !in u && c !in b
    requires forall x :: x in u ==> x !in b
    ensures NoDuplicates(u + [c] + b)
  {
    var s := u + [c] + b;
    forall i, j | 0 <= i < j < |s|
      ensures s[i] != s[j]
    {
      if i < |u| {
        assert u[i] in u;
      }
      if j > |u| {
        assert b[j - |u| - 1] in b;
      }
    }
  }

  // ----- releasing ------------------------------------------------------------------------------

  lemma {:induction false} Prefix(m: Blocks, a: Addr, dims: seq<int>, d: nat, i: nat, n: nat)
    requires d < |dims| && i <= n && Built(m, a, dims, d, n)
    ensures Built(m, a, dims, d, i)
    ensures Under(m, a, dims, d, i) <= Under(m, a, dims, d, n)
    decreases n
  {
    if i < n {
      Prefix(m, a, dims, d, i, n - 1);
    }
  }

  lemma {:induction false} ReleasesFrame(m: Blocks, m': Blocks, a: Addr, dims: seq<int>, d: nat, i: nat)
    requires d < |dims|
    requires forall j: nat :: j < i ==> Slot(m', a, j) == Slot(m, a, j)
    requires forall x :: x in Under(m, a, dims, d, i) ==> (x in m' <==> x in m) && (x in m ==> m'[x] == m[x])
    ensures Releases(m', a, dims, d, i) == Releases(m, a, dims, d, i)
    decreases |dims| - d, i
  {
    if i > 0 {
      ReleasesFrame(m, m', a, dims, d, i - 1);
      var c := Slot(m, a, i - 1);
      if d + 1 < |dims| {
        assert c in Under(m, a, dims, d, i);
        assert forall x :: x in Below(m, c, dims, d) ==> x in Under(m, a, dims, d, i);
        ReleasesFrame(m, m', c, dims, d + 1, Extent(dims, d + 1));
      }
    }
  }

  /** Below `c` the two memories agree, and nothing is listed twice. */
  ghost predicate SameBelow(m: Blocks, b: Blocks, c: Addr, dims: seq<int>, d: nat)
    requires d < |dims|
  {
    d + 1 < |dims| ==>
      var e := Extent(dims, d + 1);
      && Built(b, c, dims, d + 1, e)
      && Under(b, c, dims, d + 1, e) == Below(m, c, dims, d) && NoDuplicates(Below(m, c, dims, d))
      && Releases(b, c, dims, d + 1, e) == Releases(m, c, dims, d + 1, e)
  }

  /** Round `i` of the release: its child and everything below are still there, and untouched. */
  lemma ReadyToFree(m: Blocks, b: Blocks, a: Addr, dims: seq<int>, d: nat, i: nat, n: nat)
    requires d < |dims| && i < n && Built(m, a, dims, d, n)
    requires NoDuplicates(Under(m, a, dims, d, n)) && a !in Under(m, a, dims, d, n)
    requires b == m - Elements(Under(m, a, dims, d, i))
    ensures a in b && i < |b[a]| && b[a] == m[a] && b[a][i] == Slot(m, a, i)
    ensures var c := Slot(m, a, i); c in b && c !in Below(m, c, dims, d) && SameBelow(m, b, c, dims, d)
    ensures var c := Slot(m, a, i);
            Elements(Under(m, a, dims, d, i + 1))
            == Elements(Under(m, a, dims, d, i)) + {c} + Elements(Below(m, c, dims, d))
  {
    Prefix(m, a, dims, d, i, n);
    Prefix(m, a, dims, d, i + 1, n);
    var c, u, l := Slot(m, a, i), Under(m, a, dims, d, i), Below(m, Slot(m, a, i), dims, d);
    assert Under(m, a, dims, d, i + 1) == u + [c] + l;
    SplitNoDuplicates(u, c, l, Under(m, a, dims, d, n));
    assert a in m && a !in u;
    assert BuiltBelow(m, c, dims, d);
    BelowUntouched(m, b, c, dims, d, u);
  }

  /** Taking away other blocks leaves everything below `c` as it was. */
  lemma BelowUntouched(m: Blocks, b: Blocks, c: Addr, dims: seq<int>, d: nat, u: seq<Addr>)
    requires d < |dims| && BuiltBelow(m, c, dims, d) && NoDuplicates(Below(m, c, dims, d))
    requires b == m - Elements(u) && c !in u && forall x :: x in Below(m, c, dims, d) ==> x !in u
    ensures SameBelow(m, b, c, dims, d)
  {
    if d + 1 < |dims| {
      var e := Extent(dims, d + 1);
      BuiltBlocksExist(m, c, dims, d + 1, e);
      BuiltFrame(m, b, c, dims, d + 1, e);
      UnderFrame(m, b, c, dims, d + 1, e);
      ReleasesFrame(m, b, c, dims, d + 1, e);
    }
  }

  lemma MinusAll(m: Blocks, u: set<Addr>, l: set<Addr>, c: Addr)
    ensures m - u - l - {c} == m - (u + {c} + l)
  {}

  lemma LogGrows(log0: seq<Release>, log: seq<Release>, m: Blocks, a: Addr, dims: seq<int>, d: nat, i: nat, c: Addr)
    requires d < |dims| && c == Slot(m, a, i)
    requires log == log0 + Releases(m, a, dims, d, i) + ReleasesOf(m, c, dims, d)
    ensures log == log0 + Releases(m, a, dims, d, i + 1)
  {}

  lemma SplitNoDuplicates(u: seq<Addr>, c: Addr, l: seq<Addr>, whole: seq<Addr>)
    requires NoDuplicates(whole) && u + [c] + l <= whole
    ensures c !in u && c !in l && NoDuplicates(l)
    ensures forall x :: x in l ==> x !in u
  {
    var p := u + [c] + l;
    assert forall i :: 0 <= i < |p| ==> p[i] == whole[i];
    assert forall i :: 0 <= i < |u| ==> p[i] == u[i];
    assert p[|u|] == c;
    assert forall i :: 0 <= i < |l| ==> p[|u| + 1 + i] == l[i];
  }

  /**
    Releasing with the same arguments undoes the generation: it may be called, it
    releases the sum-of-prefix-products many blocks that were allocated, each once, and
    leaves the old blocks with their old contents, but for the dangling slots of `a`.
    */
  lemma FreeUndoesGen(m0: Blocks, m: Blocks, a: Addr, dims: seq<int>)
    requires |dims| > 0 && Generated(m0, m, a, dims, 0, Extent(dims, 0))
    ensures var n := Extent(dims, 0);
            var u, rs := Under(m, a, dims, 0, n), Releases(m, a, dims, 0, n);
            var left := m - Elements(u);
            && Built(m, a, dims, 0, n) && NoDuplicates(u) && a !in u
            && multiset(AddressesOf(rs)) == multiset(u) && |u| == PrefixProductSum(dims, |dims|)
            && left.Keys == m0.Keys
            && forall x :: x in m0 && x != a ==> left[x] == m0[x]
  {
    EachReleasedOnce(m, a, dims, 0, Extent(dims, 0));
    BlockCount(m, a, dims);
  }

  class Memory {
    var blocks: Blocks
    ghost var writes: seq<SlotWrite>
    ghost var requests: seq<Request>  // the calls of NOVA_MALLOC
    ghost var log: seq<Release>

    /** NOVA_MALLOC. */
    method Malloc(bytes: int, ghost dim: nat) returns (c: Addr)
      modifies this`blocks, this`requests
      ensures c != NULL && c !in old(blocks)
      ensures blocks == old(blocks)[c := seq(SlotsIn(bytes), _ => NULL)]
      ensures requests == old(requests) + [Request(dim, bytes, c)]
    {
      SomeAddressLeft(blocks.Keys, 1);
      c :| c >= 1 && c !in blocks;
      blocks := blocks[c := seq(SlotsIn(bytes), _ => NULL)];
      requests := requests + [Request(dim, bytes, c)];
    }

    /** `array[i] = c`: recorded, and lost if the block ends before the slot. */
    method Store(a: Addr, i: nat, c: Addr)
      requires a in blocks
      modifies this`blocks, this`writes
      ensures writes == old(writes) + [SlotWrite(i, |old(blocks)[a]|)]
      ensures blocks == old(WithSlot(blocks, a, i, c))
    {
      writes := writes + [SlotWrite(i, |blocks[a]|)];
      if i < |blocks[a]| {
        var ws: seq<Addr> := blocks[a][i := c];
        blocks := blocks[a := ws];
      }
    }

    /**
      nova_gen_array, for any dimensions: what it stores where, and what it builds if every
      store is within its block.
      */
    method GenArray(a: Addr, dims: seq<int>, d: nat, size: int)
      requires d < |dims| && a in blocks
      modifies this`blocks, this`writes, this`requests
      ensures Allocated(old(requests), requests, old(blocks), blocks,
                        AllocatedFor(dims, d, Extent(dims, d)), dims, size)
      ensures writes == old(writes) + Writes(dims, d, |old(blocks)[a]|, size, Extent(dims, d))
      ensures Extent(dims, d) <= |old(blocks)[a]| && Fits(dims, d, size) ==>
                Generated(old(blocks), blocks, a, dims, d, Extent(dims, d))
      decreases |dims| - d, 1
    {
      var i := 0;
      ghost var m0, w0, r0 := blocks, writes, requests;
      AllocatedNone(r0, m0, dims, size);
      while i < dims[d]
        invariant 0 <= i <= Extent(dims, d)
        invariant writes == w0 + Writes(dims, d, |m0[a]|, size, i)
        invariant Allocated(r0, requests, m0, blocks, AllocatedFor(dims, d, i), dims, size)
        invariant Extent(dims, d) <= |m0[a]| && Fits(dims, d, size) ==> Generated(m0, blocks, a, dims, d, i)
      {
        ghost var m1, r1, w1 := blocks, requests, writes;
        GenSlot(a, dims, d, size, i, m0);
        AllocatedRound(r0, r1, requests, m0, m1, blocks, dims, d, i, size);
        WritesRound(w0, w1, writes, dims, d, |m0[a]|, size, i);
        i := i + 1;
      }
    }

    /** One round of its loop. */
    method GenSlot(a: Addr, dims: seq<int>, d: nat, size: int, i: nat, ghost m0: Blocks)
      requires d < |dims| && i < dims[d] && a in blocks
      requires a in m0 && SameSizes(m0, blocks)
      requires Extent(dims, d) <= |m0[a]| && Fits(dims, d, size) ==> Generated(m0, blocks, a, dims, d, i)
      modifies this`blocks, this`writes, this`requests
      ensures SameSizes(m0, blocks)
      ensures Allocated(old(requests), requests, old(blocks), blocks, [d] + AllocatedBelow(dims, d), dims, size)
      ensures writes == old(writes) + [SlotWrite(i, |m0[a]|)] + WritesBelow(dims, d, size)
      ensures Extent(dims, d) <= |m0[a]| && Fits(dims, d, size) ==> Generated(m0, blocks, a, dims, d, i + 1)
      decreases |dims| - d, 0
    {
      ghost var m, r0 := blocks, requests;
      var c := Malloc(size * dims[d], d);
      ghost var ws := blocks[c];
      Store(a, i, c);
      ghost var n, r1 := blocks, requests;
      AllocatedOne(r0, m, n, dims, d, size, c);
      AllocatedNone(r1, n, dims, size);
      if d + 1 < |dims| {
        GenArray(c, dims, d + 1, size);
      }
      AllocatedBoth(r0, r1, requests, m, n, blocks, [d], AllocatedBelow(dims, d), dims, size);
      if Extent(dims, d) <= |m0[a]| && Fits(dims, d, size) {
        FitsNext(dims, d, size);
        GenerateOne(m0, m, c, ws, n, blocks, a, dims, d, i);
      }
    }

    /** NOVA_FREE, and the delete callback: the block must still be there. */
    method Free(c: Addr)
      requires c in blocks
      modifies this`blocks
      ensures blocks == old(blocks) - {c}
    {
      blocks := blocks - {c};
    }

    /** nova_free_array; `function` is modelled as releasing the block it is given. */
    method FreeArray(a: Addr, dims: seq<int>, d: nat)
      requires d < |dims| && Built(blocks, a, dims, d, Extent(dims, d))
      requires NoDuplicates(Under(blocks, a, dims, d, Extent(dims, d)))
      requires a !in Under(blocks, a, dims, d, Extent(dims, d))
      modifies this
      ensures blocks == old(blocks - Elements(Under(blocks, a, dims, d, Extent(dims, d))))
      ensures log == old(log) + old(Releases(blocks, a, dims, d, Extent(dims, d)))
      decreases |dims| - d, 1
    {
      ghost var m, log0 := blocks, log;
      ghost var n := Extent(dims, d);
      var i := 0;
      while i < dims[d]
        invariant 0 <= i <= n
        invariant blocks == m - Elements(Under(m, a, dims, d, i))
        invariant log == log0 + Releases(m, a, dims, d, i)
      {
        FreeSlot(a, dims, d, i, m, n, log0);
        i := i + 1;
      }
    }

    /** One round of its loop. */
    method FreeSlot(a: Addr, dims: seq<int>, d: nat, i: nat, ghost m: Blocks, ghost n: nat, ghost log0: seq<Release>)
      requires d < |dims| && i < n && Built(m, a, dims, d, n)
      requires NoDuplicates(Under(m, a, dims, d, n)) && a !in Under(m, a, dims, d, n)
      requires blocks == m - Elements(Under(m, a, dims, d, i))
      requires log == log0 + Releases(m, a, dims, d, i)
      modifies this
      ensures blocks == m - Elements(Under(m, a, dims, d, i + 1))
      ensures log == log0 + Releases(m, a, dims, d, i + 1)
      decreases |dims| - d, 0
    {
      ghost var b := blocks;
      ReadyToFree(m, b, a, dims, d, i, n);
      var c := blocks[a][i];
      if d + 1 < |dims| {
        FreeArray(c, dims, d + 1);
        Free(c);
        log := log + [Freed(c)];
      } else {
        Free(c);
        log := log + [Deleted(c)];
      }
      assert blocks == b - Elements(Below(m, c, dims, d)) - {c};
      MinusAll(m, Elements(Under(m, a, dims, d, i)), Elements(Below(m, c, dims, d)), c);
      LogGrows(log0, log, m, a, dims, d, i, c);
    }
  }
}
