/**
  The hash map of include/HashMap.c: a table updated in place, with hashmapInsert
  and rehash calling each other.
  */
module HashMaps {
  import opened Addresses
  import opened Probing
  import opened HashTable
  import opened HashContents
  import opened TableSizes
  import NT = NumberTheory
  import PrimeSearch

  /** The active slots below `n`: what a rehash has still to carry over. */
  ghost function ActiveBelow(t: Table, n: nat): set<nat> {
    set i: nat | i < |t| && i < n && t[i].active
  }

  /** No active key exceeds `maxKey`. */
  ghost predicate KeysUpTo(t: Table, maxKey: Key) {
    forall i: nat :: i < |t| && t[i].active ==> t[i].key <= maxKey
  }

  /** A table longer than this has a free slot on every path. */
  function SizeBound(maxKey: Key, total: nat): nat {
    (maxKey + 1) * total + 1
  }

  /** How far a table of size `n` is from that bound. */
  function SizeToGo(n: int, maxKey: Key, total: nat): nat {
    if n < SizeBound(maxKey, total) then SizeBound(maxKey, total) - n else 0
  }

  lemma SizeGrows(n: nat, m: nat, maxKey: Key, total: nat)
    requires m > n && n < SizeBound(maxKey, total)
    ensures SizeToGo(m, maxKey, total) < SizeToGo(n, maxKey, total)
  {}

  lemma FullTableIsSmall(n: nat, count: nat, maxKey: Key, total: nat)
    requires n <= count <= total
    ensures n < SizeBound(maxKey, total)
  {
    assert (maxKey + 1) * total == maxKey * total + total;
  }

  lemma StuckTableIsSmall(t: Table, k: Key, maxKey: Key, total: nat)
    requires TableSize(|t|) && Place(t, k).None? && k <= maxKey && |ActiveSlots(t)| <= total
    ensures |t| < SizeBound(maxKey, total)
  {
    if |t| > (maxKey + 1) * total {
      LargeTableAlwaysPlaces(t, k, maxKey, total);
    }
  }

  lemma KeysUpToStored(t: Table, maxKey: Key)
    ensures KeysUpTo(t, maxKey) <==> forall k :: k in Stored(t) ==> k <= maxKey
  {
    forall i: nat | i < |t| && t[i].active
      ensures t[i].key in Stored(t)
    {
      StoredKeys(t, t[i].key);
      assert Holds(t, i, t[i].key);
    }
    if KeysUpTo(t, maxKey) {
      forall k | k in Stored(t)
        ensures k <= maxKey
      {
        StoredKeys(t, k);
      }
    }
  }

  /** The table in which an insertion into `t0` is about to try its path. */
  ghost predicate Retrying(t0: Table, k: Key, t: Table)
    requires TableSize(|t0|)
  {
    || (t == t0 && |ActiveSlots(t0)| < |t0|)
    || (!CanPlace(t0, k) && RehashOutcome(t0, t))
  }

  lemma RetryPlaced(t0: Table, k: Key, t: Table, d: Ptr)
    requires TableSize(|t0|) && Retrying(t0, k, t)
    requires TableSize(|t|) && Place(t, k).Some?
    ensures InsertStep(t0, k, d, Put(t, Place(t, k).value, k, d))
  {
    if !CanPlace(t0, k) {
      assert RehashedThenPut(t0, t, k, d, Put(t, Place(t, k).value, k, d));
    }
  }

  /** The least such bound that also covers `k`. */
  lemma {:induction false} KeyBound(t: Table, k: Key) returns (m: Key)
    ensures k <= m && KeysUpTo(t, m)
    ensures m == k || HasKey(t, m)
  {
    if t == [] {
      m := k;
    } else {
      var n := |t| - 1;
      var m' := KeyBound(t[..n], k);
      m := if t[n].active && t[n].key > m' then t[n].key else m';
      forall i: nat | i < |t| && t[i].active
        ensures t[i].key <= m
      {
        if i < n {
          assert t[..n][i] == t[i];
        }
      }
      if m == t[n].key && t[n].active {
        assert Holds(t, n, m);
      } else if m' != k {
        var s :| Holds(t[..n], s, m');
        assert Holds(t, s, m');
      }
    }
  }

  lemma PendingStep(t: Table, n: nat)
    requires n < |t|
    ensures |ActiveBelow(t, n + 1)| == |ActiveBelow(t, n)| + (if t[n].active then 1 else 0)
  {
    assert ActiveBelow(t, n + 1) == if t[n].active then ActiveBelow(t, n) + {n} else ActiveBelow(t, n);
  }

  /** In the middle of a rehash of `t0`: the slots from `n` on have been reinserted into `t`. */
  ghost predicate CarriedOver(t0: Table, n: nat, t: Table, maxKey: Key) {
    && n <= |t0|
    && Packed(t) && Stored(t) == StoredFrom(t0, n)
    && |ActiveSlots(t)| + |ActiveBelow(t0, n)| <= |ActiveSlots(t0)|
    && KeysUpTo(t, maxKey)
  }

  lemma CarryNone(t0: Table, t: Table, maxKey: Key)
    requires TableSize(|t|) && AllBlank(t)
    ensures CarriedOver(t0, |t0|, t, maxKey)
  {
    BlankIsPacked(t);
    assert ActiveBelow(t0, |t0|) == ActiveSlots(t0);
  }

  lemma CarryOne(t0: Table, n: nat, t: Table, u: Table, maxKey: Key)
    requires n < |t0| && t0[n].active && t0[n].key <= maxKey
    requires CarriedOver(t0, n + 1, t, maxKey)
    requires InsertStep(t, t0[n].key, t0[n].data, u)
    ensures CarriedOver(t0, n, u, maxKey)
  {
    PendingStep(t0, n);
    InsertStepPacked(t, t0[n].key, t0[n].data, u);
    InsertStepCount(t, t0[n].key, t0[n].data, u);
    KeysUpToStored(t, maxKey);
    KeysUpToStored(u, maxKey);
  }

  lemma CarryAll(t0: Table, t: Table, maxKey: Key)
    requires CarriedOver(t0, 0, t, maxKey) && |t| > 2 * |t0|
    ensures RehashOutcome(t0, t) && KeysUpTo(t, maxKey) && |ActiveSlots(t)| <= |ActiveSlots(t0)|
  {}

  lemma SkipOne(t0: Table, n: nat, t: Table, maxKey: Key)
    requires n < |t0| && !t0[n].active
    requires CarriedOver(t0, n + 1, t, maxKey)
    ensures CarriedOver(t0, n, t, maxKey)
  {
    PendingStep(t0, n);
  }

  /** A rehash of a table this large may not come back. */
  predicate MayStick(n: int, w: PrimeSearch.Width) {
    !PrimeSearch.Settled(2 * n, w)
  }

  /** The size of the table at hand, or one that is not prime although the test took it. */
  ghost predicate Held(stuck: int, n: int) {
    stuck == n || !NT.IsPrime(stuck)
  }

  lemma NoRoomMeansComposite(t: Table, k: Key)
    requires TableSize(|t|) && |ActiveSlots(t)| < |t| && !CanPlace(t, k)
    ensures !NT.IsPrime(|t|)
  {
    if NT.IsPrime(|t|) {
      PrimeSizeAlwaysPlaces(t, k);
    }
  }

  /** An insertion that does not come back from the middle of a rehash. */
  lemma NestedMeansComposite(t0: Table, n: nat, t: Table, k: Key, maxKey: Key, stuck: int)
    requires TableSize(|t|) && |t| > 2 * |t0| && CarriedOver(t0, n, t, maxKey)
    requires !CanPlace(t, k) && Held(stuck, |t|)
    ensures !NT.IsPrime(stuck)
  {
    ActiveSlotsBound(t0);
    NoRoomMeansComposite(t, k);
  }

  /** The keys that have been carried over are keys of the superseded table. */
  lemma CarriedKeys(t0: Table, n: nat, t: Table)
    requires n <= |t0| && Stored(t) == StoredFrom(t0, n)
    ensures ActiveKeys(t) <= ActiveKeys(t0)
  {
    forall k | k in ActiveKeys(t)
      ensures k in ActiveKeys(t0)
    {
      var s :| s in ActiveSlots(t) && t[s].key == k;
      StoredFromHas(t, 0, s);
      var r := StoredFromHolder(t0, n, k);
      assert r in ActiveSlots(t0);
    }
  }

  lemma NoRoomIsBlocked(t: Table, k: Key, keys: set<Key>)
    requires Packed(t) && |ActiveSlots(t)| < |t| && Place(t, k).None?
    requires ActiveKeys(t) <= keys && k in keys
    ensures Blocked(|t|, keys)
  {
    assert BlockedAt(t, k, |t|, keys);
  }

  /** The table in which an insertion of `k` into `t0` tries its path, and how its size was reached. */
  ghost predicate Growing(t0: Table, k: Key, t: Table, a: Stage, b: Stage,
                          w: PrimeSearch.Width, rand: PrimeSearch.Draws)
    requires TableSize(|t0|)
  {
    && Retrying(t0, k, t) && (CanPlace(t0, k) ==> t == t0)
    && a.size == |t0| && b.size == |t| && (|t| == |t0| ==> a == b)
    && Reached(a, b, w, rand, ActiveKeys(t0) + {k})
  }

  /** A rehash that the insertion has to make takes the growth one step on. */
  lemma GrowsOn(t0: Table, k: Key, t: Table, u: Table, a: Stage, b: Stage, c: Stage,
                w: PrimeSearch.Width, rand: PrimeSearch.Draws)
    requires TableSize(|t0|) && TableSize(|t|) && !CanPlace(t, k) && a.size == |t0| && c.size == |u|
    requires if |ActiveSlots(t)| < |t| then Growing(t0, k, t, a, b, w, rand) else t == t0 && a == b
    requires RehashOutcome(t, u) && Reached(b, c, w, rand, ActiveKeys(t))
    ensures Growing(t0, k, u, a, c, w, rand)
  {
    var keys := ActiveKeys(t0) + {k};
    if t != t0 {
      CarriedKeys(t0, 0, t);
    }
    ReachedMore(b, c, w, rand, ActiveKeys(t), keys);
    if a == b {
      ReachedAtOnce(a, w, rand, keys);
    } else {
      NoRoomIsBlocked(t, k, keys);
    }
    ReachedFurther(a, b, c, w, rand, keys);
  }

  /** So does an insertion in the middle of a rehash of `t0`. */
  lemma NestedReached(t0: Table, n: nat, t: Table, maxKey: Key, a: Stage, b: Stage, c: Stage,
                      w: PrimeSearch.Width, rand: PrimeSearch.Draws)
    requires n < |t0| && t0[n].active && CarriedOver(t0, n + 1, t, maxKey) && |t| > 2 * |t0| && b.size == |t|
    requires Reached(a, b, w, rand, ActiveKeys(t0))
    requires Reached(b, c, w, rand, ActiveKeys(t) + {t0[n].key}) && (CanPlace(t, t0[n].key) ==> b == c)
    ensures Reached(a, c, w, rand, ActiveKeys(t0))
  {
    var k := t0[n].key;
    CarriedKeys(t0, n + 1, t);
    ActiveSlotsBound(t0);
    assert n in ActiveSlots(t0);
    ReachedMore(b, c, w, rand, ActiveKeys(t) + {k}, ActiveKeys(t0));
    if b != c {
      NoRoomIsBlocked(t, k, ActiveKeys(t0));
    }
    ReachedFurther(a, b, c, w, rand, ActiveKeys(t0));
  }

  /** While every reinsertion finds a slot at once, the table is laid out slot by slot and no further search is made. */
  ghost predicate LaidOut(t0: Table, n: nat, first: Stage, t: Table, now: Stage) {
    TableSize(first.size) && n <= |t0| && AllPlaced(t0, n, first.size) ==>
      t == Reinserted(t0, n, first.size) && now == first
  }

  lemma BlankIsLaidOut(t0: Table, first: Stage, t: Table)
    requires AllBlank(t) && |t| == first.size
    ensures LaidOut(t0, |t0|, first, t, first)
  {}

  lemma LaysOutOne(t0: Table, n: nat, maxKey: Key, first: Stage, t: Table, now: Stage, u: Table, later: Stage)
    requires n < |t0| && LaidOut(t0, n + 1, first, t, now) && |t| > 2 * |t0| && CarriedOver(t0, n + 1, t, maxKey)
    requires if t0[n].active then
               InsertStep(t, t0[n].key, t0[n].data, u) && (CanPlace(t, t0[n].key) ==> later == now)
             else u == t && later == now
    ensures LaidOut(t0, n, first, u, later)
  {
    ActiveSlotsBound(t0);
  }

  lemma BoundsAgree(t: Table, k: Key, m: Key, maxKey: Key, total: nat)
    requires KeysUpTo(t, m) && k <= m && (maxKey == k || HasKey(t, maxKey))
    ensures SizeBound(maxKey, total) <= SizeBound(m, total)
  {
    if HasKey(t, maxKey) {
      var s :| Holds(t, s, maxKey);
    }
    assert (maxKey + 1) * total <= (m + 1) * total;
  }

  /** With these random numbers an insertion starts a search that never ends. */
  ghost predicate HeldUp(t: Table, k: Key, w: PrimeSearch.Width, rand: PrimeSearch.Draws, drawn: nat)
    requires TableSize(|t|)
  {
    !CanPlace(t, k) && PrimeSearch.AlwaysFails(2 * |t|, w, rand, drawn)
  }

  class HashMap {
    const width: PrimeSearch.Width  // how isPrime multiplies
    const patience: nat             // candidates after which a search counts as not back
    const rand: PrimeSearch.Draws   // what rand() gives, call by call
    var drawn: nat                  // how many of them have been drawn
    var table: array<Entry>
    var size: int
    var count: int
    ghost var live: set<array<Entry>>  // allocated and not yet freed

    ghost predicate Valid()
      reads this, table
    {
      && TableSize(size) && PrimeSearch.InRange(rand)
      && table.Length == size
      && count == |ActiveSlots(table[..])|
      && table in live
    }

    ghost function Now(): Stage
      reads this
    {
      Stage(size, drawn)
    }

    /** With the random numbers that follow, a search for twice the size never ends. */
    ghost predicate Unlucky()
      requires size >= 1
      reads this
    {
      PrimeSearch.AlwaysFails(2 * size, width, rand, drawn)
    }

    /** The allocations of hashmapCreate, for a table of `n` slots. */
    constructor (n: nat, w: PrimeSearch.Width, p: nat, draws: PrimeSearch.Draws, from: nat)
      requires TableSize(n) && PrimeSearch.InRange(draws)
      ensures Valid() && fresh(table) && live == {table}
      ensures size == n && width == w && patience == p && rand == draws && drawn == from
      ensures count == 0 && AllBlank(table[..])
    {
      var slots := new Entry[n](_ => BLANK);
      table := slots;
      size := n;
      count := 0;
      live := {slots};
      width := w;
      patience := p;
      rand := draws;
      drawn := from;
      BlankIsPacked(slots[..]);
    }

    /** NOVA_FREE of a table: only a live one may be freed, and only once. */
    ghost method Free(t: array<Entry>)
      requires t in live
      modifies this`live
      ensures live == old(live) - {t}
    {
      live := live - {t};
    }

    /** The probing loop of hashmapInsert: one pass over the path, writing the first fitting slot. */
    method TryPlace(data: Ptr, key: Key) returns (placed: bool)
      requires Valid()
      modifies this`count, table
      ensures Valid()
      ensures placed <==> old(Place(table[..], key)).Some?
      ensures placed ==> table[..] == old(Put(table[..], Place(table[..], key).value, key, data))
      ensures !placed ==> table[..] == old(table[..]) && count == old(count)
    {
      ghost var t := table[..];
      var index := key % size;
      var step := Step(key, size);
      var i := 0;
      while i < size
        invariant 0 <= i <= size && index == Probe(key, size, i)
        invariant Place(t, key) == PlaceFrom(t, key, i)
        invariant table[..] == t && count == old(count)
      {
        if table[index].active {
          if table[index].key == key {
            table[index] := table[index].(data := data);
            PutCount(t, index, key, data);
            assert table[..] == Put(t, index, key, data);
            return true;
          }
        } else {
          table[index] := Entry(data, true, key);
          count := count + 1;
          PutCount(t, index, key, data);
          assert table[..] == Put(t, index, key, data);
          return true;
        }
        index := (index + step) % size;
        i := i + 1;
      }
      return false;
    }

    /**
      hashmapInsert; the two ghost numbers bound the keys and entries in play. `back` is
      false if a search for a table size has not returned; `stuck` is then the size of
      the table that was being rehashed.
      */
    method InsertBounded(data: Ptr, key: Key, ghost maxKey: Key, ghost total: nat)
      returns (back: bool, ghost stuck: int)
      requires Valid() && key <= maxKey && count <= total && KeysUpTo(table[..], maxKey)
      modifies this, table
      ensures back ==> Valid() && InsertStep(old(table[..]), key, data, table[..])
      ensures back ==> table == old(table) || fresh(table)
      ensures back ==> live == old(live) - {old(table)} + {table}
      ensures !back ==> MayStick(stuck, width) && old(size) <= stuck < SizeBound(maxKey, total)
      ensures !back ==> Held(stuck, old(size))
      ensures back ==> Reached(old(Now()), Now(), width, rand, ActiveKeys(old(table[..])) + {key})
      ensures back && CanPlace(old(table[..]), key) ==> Now() == old(Now())
      ensures !back ==> !CanPlace(old(table[..]), key)
      ensures old(Unlucky()) && !CanPlace(old(table[..]), key) ==> !back
      decreases SizeToGo(size, maxKey, total), 2
    {
      ghost var t0, start := table[..], Now();
      ReachedAtOnce(start, width, rand, ActiveKeys(t0) + {key});
      if size <= count {
        ActiveSlotsBound(t0);
        FullTableIsSmall(size, count, maxKey, total);
        back, stuck := RehashFor(key, t0, start, maxKey, total);
        if !back {
          return;
        }
      }
      while true
        invariant Valid() && count <= total && KeysUpTo(table[..], maxKey)
        invariant Growing(t0, key, table[..], start, Now(), width, rand) && count < size
        invariant old(Unlucky()) && !CanPlace(t0, key) ==> Unlucky() && table[..] == t0
        invariant table == old(table) || fresh(table)
        invariant live == old(live) - {old(table)} + {table}
        decreases SizeToGo(size, maxKey, total)
      {
        ghost var t := table[..];
        var placed := TryPlace(data, key);
        if placed {
          RetryPlaced(t0, key, t, data);
          return true, 0;
        }
        StuckTableIsSmall(t, key, maxKey, total);
        back, stuck := RehashFor(key, t0, start, maxKey, total);
        if !back {
          return;
        }
        SizeGrows(|t|, size, maxKey, total);
      }
    }

    /** A rehash that an insertion of `key` into `t0` has to make: all slots are taken, or a pass has failed. */
    method RehashFor(key: Key, ghost t0: Table, ghost start: Stage, ghost maxKey: Key, ghost total: nat)
      returns (back: bool, ghost stuck: int)
      requires Valid() && count <= total && KeysUpTo(table[..], maxKey) && size < SizeBound(maxKey, total)
      requires TableSize(|t0|) && start.size == |t0| && !CanPlace(table[..], key)
      requires if count < size then Growing(t0, key, table[..], start, Now(), width, rand)
               else table[..] == t0 && Now() == start
      modifies this
      ensures back ==> Valid() && count <= total && KeysUpTo(table[..], maxKey)
      ensures back ==> Growing(t0, key, table[..], start, Now(), width, rand) && count < size && size > old(size)
      ensures back ==> fresh(table) && live == old(live) - {old(table)} + {table}
      ensures !back ==> MayStick(stuck, width) && |t0| <= stuck < SizeBound(maxKey, total)
      ensures !back ==> Held(stuck, |t0|)
      ensures old(Unlucky()) ==> !back
      decreases SizeToGo(size, maxKey, total), 1
    {
      ghost var t, now := table[..], Now();
      ActiveSlotsBound(t);
      back, stuck := Rehash(maxKey, total);
      if back {
        GrowsOn(t0, key, t, table[..], start, now, Now(), width, rand);
      } else if |t| != |t0| {
        NoRoomMeansComposite(t, key);
      }
    }

    /** The first lines of rehash: an empty table of more than twice the size takes over. */
    method NewTable() returns (back: bool)
      requires Valid()
      modifies this
      ensures back ==> Valid() && fresh(table) && AllBlank(table[..])
      ensures back ==> Grows(old(Now()), Now(), width, rand)
      ensures back ==> size > 2 * old(size) && count == 0 && live == old(live) + {table}
      ensures !back ==> MayStick(old(size), width)
      ensures old(Unlucky()) ==> !back
    {
      var search;
      ghost var starts;
      search, drawn, starts := PrimeSearch.FindPrimeGreaterThan(2 * size, width, patience, rand, drawn);
      if search.StillSearching? {
        return false;
      }
      size := search.p;
      table := new Entry[search.p](_ => BLANK);
      live := live + {table};
      count := 0;
      BlankIsPacked(table[..]);
      assert PrimeSearch.FoundOn(2 * old(size), width, rand, old(drawn), size, drawn);
      return true;
    }

    /** rehash. */
    method Rehash(ghost maxKey: Key, ghost total: nat) returns (back: bool, ghost stuck: int)
      requires Valid() && count <= total && KeysUpTo(table[..], maxKey)
      requires size < SizeBound(maxKey, total)
      modifies this
      ensures back ==> Valid() && RehashOutcome(old(table[..]), table[..])
      ensures back ==> fresh(table)
      ensures back ==> count <= old(count) && size > 2 * old(size) && KeysUpTo(table[..], maxKey)
      ensures back ==> live == old(live) - {old(table)} + {table}
      ensures !back ==> MayStick(stuck, width) && old(size) <= stuck < SizeBound(maxKey, total)
      ensures !back ==> Held(stuck, old(size))
      ensures back ==> Reached(old(Now()), Now(), width, rand, ActiveKeys(old(table[..])))
      ensures back ==> exists first :: Grows(old(Now()), first, width, rand)
                                       && LaidOut(old(table[..]), 0, first, table[..], Now())
      ensures old(Unlucky()) ==> !back
      decreases SizeToGo(size, maxKey, total), 0
    {
      var n := size;
      var superseded := table;
      ghost var t0, start := table[..], Now();
      back := NewTable();
      if !back {
        return false, n;
      }
      ghost var first := Now();
      ReachedByOne(start, first, width, rand, ActiveKeys(t0));
      BlankIsLaidOut(t0, first, table[..]);
      SizeGrows(|t0|, size, maxKey, total);
      CarryNone(t0, table[..], maxKey);
      while n > 0
        invariant 0 <= n <= |t0|
        invariant Valid() && fresh(table) && size > 2 * |t0|
        invariant superseded[..] == t0 && superseded != table
        invariant live == old(live) + {table}
        invariant CarriedOver(t0, n, table[..], maxKey)
        invariant Reached(start, Now(), width, rand, ActiveKeys(t0))
        invariant LaidOut(t0, n, first, table[..], Now())
      {
        n := n - 1;
        back, stuck := Reinsert(superseded[n], n, t0, start, first, maxKey, total);
        if !back {
          return;
        }
      }
      CarryAll(t0, table[..], maxKey);
      Free(superseded);
      return true, 0;
    }

    /** One round of its loop: slot `n` of the superseded table. */
    method Reinsert(slot: Entry, n: nat, ghost t0: Table, ghost start: Stage, ghost first: Stage,
                    ghost maxKey: Key, ghost total: nat)
      returns (back: bool, ghost stuck: int)
      requires Valid() && n < |t0| && slot == t0[n] && size > 2 * |t0|
      requires KeysUpTo(t0, maxKey) && |ActiveSlots(t0)| <= total
      requires CarriedOver(t0, n + 1, table[..], maxKey)
      requires Reached(start, Now(), width, rand, ActiveKeys(t0))
      requires LaidOut(t0, n + 1, first, table[..], Now())
      modifies this, table
      ensures back ==> LaidOut(t0, n, first, table[..], Now())
      ensures back ==> Reached(start, Now(), width, rand, ActiveKeys(t0))
      ensures back ==> Valid() && size > 2 * |t0| && CarriedOver(t0, n, table[..], maxKey)
      ensures back ==> table == old(table) || fresh(table)
      ensures back ==> live == old(live) - {old(table)} + {table}
      ensures !back ==> MayStick(stuck, width) && |t0| <= stuck < SizeBound(maxKey, total) && !NT.IsPrime(stuck)
      decreases SizeToGo(size, maxKey, total), 3
    {
      ghost var t, now := table[..], Now();
      if slot.active {
        back, stuck := InsertBounded(slot.data, slot.key, maxKey, total);
        if back {
          NestedReached(t0, n, t, maxKey, start, now, Now(), width, rand);
          LaysOutOne(t0, n, maxKey, first, t, now, table[..], Now());
          CarryOne(t0, n, t, table[..], maxKey);
        } else {
          NestedMeansComposite(t0, n + 1, t, slot.key, maxKey, stuck);
        }
      } else {
        SkipOne(t0, n, t, maxKey);
        LaysOutOne(t0, n, maxKey, first, t, now, t, now);
        return true, 0;
      }
    }

    /**
      hashmapInsert as called from outside. With exact products it comes back for every
      table and key. In 32 bits it does if there is room on the path, or if a bound on the
      keys keeps every table that may be rehashed below the limit of the search; otherwise
      the search that does not return started from this table or from a composite size.
      It does not come back, however long one waits, if it is held up.
      */
    method Insert(data: Ptr, key: Key) returns (back: bool)
      requires Valid()
      modifies this, table
      ensures width.Unbounded? ==> back
      ensures old(CanPlace(table[..], key)) ==> back
      ensures old(HeldUp(table[..], key, width, rand, drawn)) ==> !back
      ensures old(count == size && PrimeSearch.AlwaysFails(2 * size, width, rand, drawn)) ==> !back
      ensures back && old(count) == old(size) ==> size > 2 * old(size)
      ensures back ==> Reached(old(Now()), Now(), width, rand, ActiveKeys(old(table[..])) + {key})
      ensures back && size == old(size) ==> drawn == old(drawn)
      ensures !back ==> exists s :: s >= old(size) && MayStick(s, width) && Held(s, old(size))
      ensures (exists m :: key <= m && KeysUpTo(old(table[..]), m) && !MayStick((m + 1) * old(count), width)) ==> back
      ensures back ==> Valid() && InsertStep(old(table[..]), key, data, table[..])
      ensures back ==> table == old(table) || fresh(table)
      ensures back ==> live == old(live) - {old(table)} + {table}
      ensures back ==> (Lookup(table[..], key) == data <==> data == NULL || !Hidden(table[..], key))
      ensures back && data != NULL && Clean(old(table[..])) ==>
                Model(table[..]) == old(Model(table[..]))[key := data]
                && (Clean(table[..]) <==> old(Unobstructed(table[..], key)))
    {
      ghost var t, n := table[..], count;
      ghost var maxKey := KeyBound(t, key);
      ghost var stuck;
      back, stuck := InsertBounded(data, key, maxKey, n);
      if back {
        InsertStepReadBack(t, key, data, table[..]);
        if data != NULL && Clean(t) {
          InsertStepClean(t, key, data, table[..]);
        }
      } else {
        forall m | key <= m && KeysUpTo(t, m)
          ensures MayStick((m + 1) * n, width)
        {
          BoundsAgree(t, key, m, maxKey, n);
        }
      }
    }

    /** hashmapRemove. */
    method Remove(key: Key) returns (r: Ptr)
      requires Valid()
      modifies this`count, table
      ensures Valid()
      ensures table[..] == old(HashTable.Remove(table[..], key))
      ensures r == old(RemoveResult(table[..], key))
    {
      ghost var t := table[..];
      var index := key % size;
      var step := Step(key, size);
      var i := 0;
      while i < size
        invariant 0 <= i <= size && index == Probe(key, size, i)
        invariant Removal(t, key) == RemovalFrom(t, key, i)
        invariant table[..] == t && count == old(count)
      {
        if table[index].data != NULL {
          if table[index].key == key {
            if table[index].active {
              table[index] := table[index].(active := false);
              count := count - 1;
              DeactivateCount(t, index);
              assert table[..] == Deactivate(t, index);
              return table[index].data;
            } else {
              return NULL;
            }
          }
        } else {
          return NULL;
        }
        index := (index + step) % size;
        i := i + 1;
      }
      return NULL;
    }

    /** hashmapGet. */
    method Get(key: Key) returns (r: Ptr)
      requires Valid()
      ensures r == Lookup(table[..], key)
    {
      ghost var t := table[..];
      if count == 0 {
        EmptyFindsNothing(t, key);
      } else {
        var index := key % size;
        var step := Step(key, size);
        var i := 0;
        while i < size
          invariant 0 <= i <= size && index == Probe(key, size, i)
          invariant Find(t, key) == FindFrom(t, key, i)
        {
          if table[index].key == key {
            if table[index].active {
              return table[index].data;
            }
            break;
          } else if table[index].data == NULL {
            break;
          }
          index := (index + step) % size;
          i := i + 1;
        }
      }
      return NULL;
    }

    /** hashmapContains. */
    method Contains(key: Key) returns (r: bool)
      requires Valid()
      ensures r <==> Find(table[..], key).Some?
      ensures (r <==> Lookup(table[..], key) != NULL) <==> !NullFound(table[..], key)
    {
      ghost var t := table[..];
      if count == 0 {
        EmptyFindsNothing(t, key);
      } else {
        var index := key % size;
        var step := Step(key, size);
        var i := 0;
        while i < size
          invariant 0 <= i <= size && index == Probe(key, size, i)
          invariant Find(t, key) == FindFrom(t, key, i)
        {
          if table[index].key == key {
            if table[index].active {
              return true;
            }
            break;
          } else if table[index].data == NULL {
            break;
          }
          index := (index + step) % size;
          i := i + 1;
        }
      }
      return false;
    }

    /** hashmapCount. */
    method Count() returns (r: int)
      requires Valid()
      ensures r == |ActiveSlots(table[..])| && 0 <= r <= size
      ensures Clean(table[..]) ==> r == |Model(table[..])|
    {
      ActiveSlotsBound(table[..]);
      if Clean(table[..]) {
        CleanModel(table[..]);
      }
      return count;
    }
  }

  /** hashmapCreate: 1021 slots, or the first size accepted near the request. */
  method Create(startsize: int, w: PrimeSearch.Width, patience: nat, rand: PrimeSearch.Draws)
    returns (hm: HashMap?)
    requires startsize >= 0 && PrimeSearch.InRange(rand)
    ensures startsize != 0 && PrimeSearch.AlwaysFails(startsize - 2, w, rand, 0) ==> hm == null
    ensures startsize == 0 || PrimeSearch.Settled(startsize - 2, w) ==> hm != null
    ensures hm != null ==> fresh(hm) && fresh(hm.table) && hm.Valid() && hm.live == {hm.table}
    ensures hm != null ==> hm.count == 0 && AllBlank(hm.table[..]) && hm.width == w
    ensures hm != null && startsize == 0 ==> hm.size == 1021 && hm.drawn == 0
    ensures hm != null && startsize != 0 ==>
              PrimeSearch.FoundOn(startsize - 2, w, rand, 0, hm.size, hm.drawn) && hm.rand == rand
    ensures hm != null && startsize != 0 ==> PrimeSearch.MayReturn(startsize - 2, hm.size, w)
  {
    var n, drawn := 1021, 0;
    if startsize != 0 {
      var search;
      ghost var starts;
      search, drawn, starts := PrimeSearch.FindPrimeGreaterThan(startsize - 2, w, patience, rand, 0);
      if search.StillSearching? {
        return null;
      }
      n := search.p;
    }
    hm := new HashMap(n, w, patience, rand, drawn);
  }
}
