/**
  The finite map a table stands for, the tables a rehash leaves behind, and what
  hashmapInsert does to a table when rehashes of unknown sizes may come in between
  (include/HashMap.c).
  */
module HashContents {
  import NT = NumberTheory
  import opened Addresses
  import opened Probing
  import opened HashTable

  // ----- the map that Get reports ---------------------------------------------------

  ghost function ActiveKeys(t: Table): set<Key> {
    set s | s in ActiveSlots(t) :: t[s].key
  }

  /** The keys Get finds, with the data it returns for them. */
  ghost function Model(t: Table): map<Key, Ptr>
    requires TableSize(|t|)
  {
    map k: Key | k in ActiveKeys(t) && Find(t, k).Some? :: Lookup(t, k)
  }

  lemma ModelIsFind(t: Table, k: Key)
    requires TableSize(|t|)
    ensures k in Model(t) <==> Find(t, k).Some?
    ensures k in Model(t) ==> Model(t)[k] == Lookup(t, k)
  {
    if Find(t, k).Some? {
      assert Find(t, k).value in ActiveSlots(t);
    }
  }

  // ----- the entries a rehash carries over ----------------------------------------------

  /** The reinsertion of slots |t|-1 down to `j`: for each key the lowest slot comes last. */
  ghost function StoredFrom(t: Table, j: nat): map<Key, Ptr>
    requires j <= |t|
    decreases |t| - j
  {
    if j == |t| then map[]
    else if t[j].active then StoredFrom(t, j + 1)[t[j].key := t[j].data]
    else StoredFrom(t, j + 1)
  }

  ghost function Stored(t: Table): map<Key, Ptr> {
    StoredFrom(t, 0)
  }

  /** The lowest holder from `j` on decides. */
  lemma {:induction false} StoredFromLowest(t: Table, j: nat, s: nat, k: Key)
    requires j <= s && Holds(t, s, k) && forall r: nat :: j <= r < s ==> !Holds(t, r, k)
    ensures k in StoredFrom(t, j) && StoredFrom(t, j)[k] == t[s].data
    decreases s - j
  {
    if j < s {
      StoredFromLowest(t, j + 1, s, k);
      assert !Holds(t, j, k);
    }
  }

  lemma {:induction false} StoredFromHas(t: Table, j: nat, s: nat)
    requires j <= s < |t| && t[s].active
    ensures t[s].key in StoredFrom(t, j)
    decreases s - j
  {
    if j < s {
      StoredFromHas(t, j + 1, s);
    }
  }

  lemma {:induction false} StoredFromHolder(t: Table, j: nat, k: Key) returns (s: nat)
    requires j <= |t| && k in StoredFrom(t, j)
    ensures j <= s && Holds(t, s, k)
    decreases |t| - j
  {
    if t[j].active && t[j].key == k {
      s := j;
    } else {
      s := StoredFromHolder(t, j + 1, k);
    }
  }

  lemma StoredUnique(t: Table, s: nat, k: Key)
    requires Unique(t) && Holds(t, s, k)
    ensures k in Stored(t) && Stored(t)[k] == t[s].data
  {
    StoredFromLowest(t, 0, s, k);
  }

  lemma StoredKeys(t: Table, k: Key)
    ensures k in Stored(t) <==> HasKey(t, k)
  {
    if HasKey(t, k) {
      var s :| Holds(t, s, k);
      StoredFromHas(t, 0, s);
    }
    if k in Stored(t) {
      var s := StoredFromHolder(t, 0, k);
    }
  }

  /** The active slots from `j` on. */
  ghost function ActiveFrom(t: Table, j: nat): set<nat> {
    set i: nat | i < |t| && j <= i && t[i].active
  }

  lemma {:induction false} StoredFromSize(t: Table, j: nat)
    requires j <= |t|
    ensures |StoredFrom(t, j)| <= |ActiveFrom(t, j)|
    ensures Unique(t) ==> |StoredFrom(t, j)| == |ActiveFrom(t, j)|
    decreases |t| - j
  {
    if j == |t| {
      assert ActiveFrom(t, j) == {};
    } else {
      StoredFromSize(t, j + 1);
      if t[j].active {
        assert ActiveFrom(t, j) == ActiveFrom(t, j + 1) + {j};
        if Unique(t) {
          if t[j].key in StoredFrom(t, j + 1) {
            var s := StoredFromHolder(t, j + 1, t[j].key);
            assert Holds(t, j, t[j].key);
          }
        }
      } else {
        assert ActiveFrom(t, j) == ActiveFrom(t, j + 1);
      }
    }
  }

  lemma StoredSize(t: Table)
    ensures |Stored(t)| <= |ActiveSlots(t)|
    ensures Unique(t) ==> |Stored(t)| == |ActiveSlots(t)|
  {
    StoredFromSize(t, 0);
    assert ActiveFrom(t, 0) == ActiveSlots(t);
  }

  lemma StoredAfterPut(t: Table, s: nat, k: Key, d: Ptr)
    requires s < |t| && Unique(t)
    requires t[s].active ==> t[s].key == k
    requires forall i :: Holds(t, i, k) ==> i == s
    ensures Unique(Put(t, s, k, d))
    ensures Stored(Put(t, s, k, d)) == Stored(t)[k := d]
  {
    var t' := Put(t, s, k, d);
    assert forall i, j: Key {:trigger Holds(t', i, j)} :: Holds(t', i, j) && i != s ==> Holds(t, i, j);
    assert Holds(t', s, k);
    StoredUnique(t', s, k);
    forall j: Key | j != k
      ensures j in Stored(t') <==> j in Stored(t)
      ensures j in Stored(t) ==> Stored(t')[j] == Stored(t)[j]
    {
      StoredKeys(t, j);
      StoredKeys(t', j);
      if HasKey(t, j) {
        var i :| Holds(t, i, j);
        assert Holds(t', i, j);
        StoredUnique(t, i, j);
        StoredUnique(t', i, j);
      }
    }
  }

  // ----- packed tables: what insertions into an empty table give --------------------------

  ghost predicate PackedAt(t: Table, s: nat, p: nat)
    requires TableSize(|t|) && s < |t|
  {
    p < |t| && s == Probe(t[s].key, |t|, p) && AllOthers(t, t[s].key, p)
  }

  ghost predicate Packed(t: Table) {
    && TableSize(|t|)
    && (forall s: nat :: s < |t| && !t[s].active ==> t[s] == BLANK)
    && (forall s: nat :: s < |t| && t[s].active ==> exists p :: PackedAt(t, s, p))
  }

  lemma PackedPlaceOfPresent(t: Table, s: nat)
    requires Packed(t) && s < |t| && t[s].active
    ensures Place(t, t[s].key) == Some(s)
  {
    var p :| PackedAt(t, s, p);
    PlaceIs(t, t[s].key, 0, p);
  }

  lemma PackedIsUnique(t: Table)
    requires Packed(t)
    ensures Unique(t)
  {
    forall i: nat, j: nat, k: Key | Holds(t, i, k) && Holds(t, j, k)
      ensures i == j
    {
      PackedPlaceOfPresent(t, i);
      PackedPlaceOfPresent(t, j);
    }
  }

  lemma PutPacked(t: Table, k: Key, d: Ptr)
    requires Packed(t) && Place(t, k).Some?
    ensures Packed(Put(t, Place(t, k).value, k, d))
    ensures Stored(Put(t, Place(t, k).value, k, d)) == Stored(t)[k := d]
  {
    var p := PlaceFound(t, k, 0);
    var s := Place(t, k).value;
    var t' := Put(t, s, k, d);
    PackedIsUnique(t);
    forall i | Holds(t, i, k)
      ensures i == s
    {
      PackedPlaceOfPresent(t, i);
    }
    StoredAfterPut(t, s, k, d);
    forall i: nat | i < |t'| && t'[i].active
      ensures exists p :: PackedAt(t', i, p)
    {
      if i == s {
        OthersAfterPut(t, s, k, d, k, p);
        assert PackedAt(t', i, p);
      } else {
        assert t[i].key == k ==> Holds(t, i, k);
        var q :| PackedAt(t, i, q);
        OthersAfterPut(t, s, k, d, t[i].key, q);
        assert PackedAt(t', i, q);
      }
    }
  }

  lemma OthersAfterPut(t: Table, s: nat, k: Key, d: Ptr, j: Key, p: nat)
    requires TableSize(|t|) && s < |t| && AllOthers(t, j, p)
    requires !t[s].active || t[s].key == k
    ensures AllOthers(Put(t, s, k, d), j, p)
  {
    var t' := Put(t, s, k, d);
    forall q: nat | q < p
      ensures At(t', j, q).active && At(t', j, q).key != j
    {
      assert At(t, j, q).active && At(t, j, q).key != j;
    }
  }

  ghost predicate AllBlank(t: Table) {
    forall i: nat :: i < |t| ==> t[i] == BLANK
  }

  lemma BlankIsPacked(t: Table)
    requires TableSize(|t|) && AllBlank(t)
    ensures Packed(t) && Stored(t) == map[] && ActiveSlots(t) == {}
  {
    forall k: Key
      ensures k !in Stored(t)
    {
      StoredKeys(t, k);
    }
  }

  /** Non-null data in a packed table makes it clean, with nothing in the way of any key. */
  lemma PackedIsClean(t: Table)
    requires Packed(t)
    requires forall s: nat :: s < |t| && t[s].active ==> t[s].data != NULL
    ensures Clean(t)
    ensures forall k: Key :: Unobstructed(t, k)
  {
    forall s: nat | s < |t| && t[s].active
      ensures exists p :: CleanAt(t, s, p)
      ensures exists p: nat :: p < |t| && s == Probe(t[s].key, |t|, p) && AllActive(t, t[s].key, p)
    {
      var p: nat :| PackedAt(t, s, p);
      assert CleanAt(t, s, p);
      assert p < |t| && s == Probe(t[s].key, |t|, p) && AllActive(t, t[s].key, p);
    }
  }

  // ----- rehash and insertion as relations between tables ------------------------------------

  /** What rehash promises, nested rehashes included: a larger packed table of the same entries. */
  ghost predicate RehashOutcome(t: Table, u: Table) {
    |u| > 2 * |t| && Packed(u) && Stored(u) == Stored(t)
  }

  /** The table of `n` slots into which slots |t|-1 down to `j` were inserted, each in the first slot that fits. */
  ghost function Reinserted(t: Table, j: nat, n: nat): (u: Table)
    requires TableSize(n) && j <= |t|
    ensures |u| == n
    decreases |t| - j
  {
    if j == |t| then seq(n, _ => BLANK)
    else
      var v := Reinserted(t, j + 1, n);
      if t[j].active && Place(v, t[j].key).Some? then Put(v, Place(v, t[j].key).value, t[j].key, t[j].data)
      else v
  }

  /** All of these insertions find a slot. */
  ghost predicate AllPlaced(t: Table, j: nat, n: nat)
    requires TableSize(n) && j <= |t|
    decreases |t| - j
  {
    j < |t| ==>
      AllPlaced(t, j + 1, n) && (t[j].active ==> Place(Reinserted(t, j + 1, n), t[j].key).Some?)
  }

  lemma {:induction false} ReinsertedCount(t: Table, j: nat, n: nat)
    requires TableSize(n) && j <= |t|
    ensures |ActiveSlots(Reinserted(t, j, n))| <= |t| - j
    decreases |t| - j
  {
    if j == |t| {
      assert ActiveSlots(Reinserted(t, j, n)) == {};
    } else {
      ReinsertedCount(t, j + 1, n);
      var v := Reinserted(t, j + 1, n);
      if t[j].active && Place(v, t[j].key).Some? {
        PutCount(v, Place(v, t[j].key).value, t[j].key, t[j].data);
      }
    }
  }

  /** In a larger prime size they always do. */
  lemma {:induction false} PrimeSizePlacesAll(t: Table, j: nat, n: nat)
    requires TableSize(n) && NT.IsPrime(n) && n > |t| && j <= |t|
    ensures AllPlaced(t, j, n)
    decreases |t| - j
  {
    if j < |t| {
      PrimeSizePlacesAll(t, j + 1, n);
      ReinsertedCount(t, j + 1, n);
      if t[j].active {
        PrimeSizeAlwaysPlaces(Reinserted(t, j + 1, n), t[j].key);
      }
    }
  }

  /** hashmapInsert: write the first fitting slot, after rehashing if there is none. */
  ghost predicate InsertStep(t: Table, k: Key, d: Ptr, u: Table)
    requires TableSize(|t|)
  {
    if CanPlace(t, k) then u == Put(t, Place(t, k).value, k, d)
    else exists v :: RehashedThenPut(t, v, k, d, u)
  }

  ghost predicate CanPlace(t: Table, k: Key)
    requires TableSize(|t|)
  {
    |ActiveSlots(t)| < |t| && Place(t, k).Some?
  }

  ghost predicate RehashedThenPut(t: Table, v: Table, k: Key, d: Ptr, u: Table) {
    RehashOutcome(t, v) && Place(v, k).Some? && u == Put(v, Place(v, k).value, k, d)
  }

  /** Round `p` of the path of `k` is the first whose slot is free or holds `k`. */
  ghost predicate FitsFirst(t: Table, k: Key, p: nat)
    requires TableSize(|t|)
  {
    && p < |t|
    && (t[Probe(k, |t|, p)].active ==> t[Probe(k, |t|, p)].key == k)
    && forall q: nat :: q < p ==> t[Probe(k, |t|, q)].active && t[Probe(k, |t|, q)].key != k
  }

  lemma PlaceIsFirstFit(t: Table, k: Key) returns (p: nat)
    requires TableSize(|t|)
    ensures Place(t, k).Some? ==> FitsFirst(t, k, p) && Place(t, k).value == Probe(k, |t|, p)
    ensures Place(t, k).None? ==> forall q :: !FitsFirst(t, k, q)
  {
    p := PlaceFound(t, k, 0);
    if Place(t, k).None? {
      forall q: nat
        ensures !FitsFirst(t, k, q)
      {
        assert q < |t| ==> At(t, k, q).active && At(t, k, q).key != k;
      }
    } else {
      forall q: nat | q < p
        ensures t[Probe(k, |t|, q)].active && t[Probe(k, |t|, q)].key != k
      {
        assert At(t, k, q).active && At(t, k, q).key != k;
      }
    }
  }

  /**
    What an insertion does to a table: if not all slots are taken and some round fits, the
    slot of the first one is written and nothing else changes; if not, the table has grown
    to more than twice its size.
    */
  lemma InsertStepExactly(t: Table, k: Key, d: Ptr, u: Table, p: nat)
    requires TableSize(|t|) && InsertStep(t, k, d, u)
    ensures |ActiveSlots(t)| < |t| && FitsFirst(t, k, p) ==> u == t[Probe(k, |t|, p) := Entry(d, true, k)]
    ensures |u| == |t| <==> |ActiveSlots(t)| < |t| && exists q :: FitsFirst(t, k, q)
    ensures |u| != |t| ==> |u| > 2 * |t|
  {
    var r := PlaceIsFirstFit(t, k);
    if FitsFirst(t, k, p) && FitsFirst(t, k, r) {
      FirstFitUnique(t, k, p, r);
    }
    if !CanPlace(t, k) {
      var v :| RehashedThenPut(t, v, k, d, u);
    }
  }

  lemma FirstFitUnique(t: Table, k: Key, p: nat, r: nat)
    requires TableSize(|t|) && FitsFirst(t, k, p) && FitsFirst(t, k, r)
    ensures p == r
  {}

  /** Insertion stores one more pair at most, and does so exactly in a packed table. */
  lemma InsertStepPacked(t: Table, k: Key, d: Ptr, u: Table)
    requires Packed(t) && InsertStep(t, k, d, u)
    ensures Packed(u) && Stored(u) == Stored(t)[k := d]
  {
    if CanPlace(t, k) {
      PutPacked(t, k, d);
    } else {
      var v :| RehashedThenPut(t, v, k, d, u);
      PutPacked(v, k, d);
    }
  }

  lemma InsertStepCount(t: Table, k: Key, d: Ptr, u: Table)
    requires TableSize(|t|) && InsertStep(t, k, d, u)
    ensures TableSize(|u|) && |u| >= |t|
    ensures |ActiveSlots(u)| <= |ActiveSlots(t)| + 1
  {
    if CanPlace(t, k) {
      PutCount(t, Place(t, k).value, k, d);
    } else {
      var v :| RehashedThenPut(t, v, k, d, u);
      PackedIsUnique(v);
      StoredSize(t);
      StoredSize(v);
      PutCount(v, Place(v, k).value, k, d);
    }
  }

  /**
    Insertion in every table: Get then returns the data exactly if that is null or no
    null data lies in the key's way; without a rehash that can be seen before the call.
    */
  lemma InsertStepReadBack(t: Table, k: Key, d: Ptr, u: Table)
    requires TableSize(|t|) && InsertStep(t, k, d, u)
    ensures TableSize(|u|)
    ensures Lookup(u, k) == d <==> d == NULL || !Hidden(u, k)
    ensures CanPlace(t, k) ==> (Hidden(u, k) <==> Hidden(t, k))
    ensures NoNullData(t) ==> !Hidden(u, k)
  {
    if CanPlace(t, k) {
      LookupAfterPut(t, k, d);
      HiddenAfterPut(t, k, d);
      if NoNullData(t) {
        NothingHiddenWithoutNull(t, k);
      }
    } else {
      var v :| RehashedThenPut(t, v, k, d, u);
      LookupAfterPut(v, k, d);
      HiddenAfterPut(v, k, d);
      if NoNullData(t) {
        RehashKeepsNonNull(t, v);
        NothingHiddenWithoutNull(v, k);
      }
    }
  }

  lemma RehashKeepsNonNull(t: Table, u: Table)
    requires NoNullData(t) && RehashOutcome(t, u)
    ensures NoNullData(u)
  {
    PackedIsUnique(u);
    forall s: nat | s < |u| && u[s].active
      ensures u[s].data != NULL
    {
      var k := u[s].key;
      assert Holds(u, s, k);
      StoredUnique(u, s, k);
      var r := LowestHolder(t, k);
      StoredFromLowest(t, 0, r, k);
    }
  }

  /** In every sound table: Insert keeps soundness and Get then returns the new data. */
  lemma InsertStepSound(t: Table, k: Key, d: Ptr, u: Table)
    requires Sound(t) && d != NULL && InsertStep(t, k, d, u)
    ensures Sound(u) && Lookup(u, k) == d
  {
    InsertStepReadBack(t, k, d, u);
    if CanPlace(t, k) {
      PutSound(t, k, d);
    } else {
      var v :| RehashedThenPut(t, v, k, d, u);
      RehashSound(t, v);
      PutSound(v, k, d);
    }
  }

  /** A rehash turns any sound table into a clean one. */
  lemma RehashSound(t: Table, u: Table)
    requires Sound(t) && RehashOutcome(t, u)
    ensures Sound(u) && Clean(u)
    ensures forall k: Key :: Unobstructed(u, k)
  {
    RehashKeepsNonNull(t, u);
    PackedIsClean(u);
    CleanIsSound(u);
  }

  lemma LowestHolder(t: Table, k: Key) returns (s: nat)
    requires k in Stored(t)
    ensures Holds(t, s, k) && forall r: nat :: r < s ==> !Holds(t, r, k)
  {
    StoredKeys(t, k);
    s :| Holds(t, s, k);
    while exists r: nat :: r < s && Holds(t, r, k)
      invariant Holds(t, s, k)
      decreases s
    {
      var r: nat :| r < s && Holds(t, r, k);
      s := r;
    }
  }

  // ----- the map of a clean table ------------------------------------------------------------

  lemma CleanModel(t: Table)
    requires Clean(t)
    ensures Model(t) == Stored(t)
    ensures |Model(t)| == |ActiveSlots(t)|
  {
    CleanIsUnique(t);
    forall k: Key
      ensures k in Model(t) <==> k in Stored(t)
      ensures k in Model(t) ==> Model(t)[k] == Stored(t)[k]
    {
      ModelIsFind(t, k);
      StoredKeys(t, k);
      if HasKey(t, k) {
        var s :| Holds(t, s, k);
        CleanFinds(t, s);
        StoredUnique(t, s, k);
      } else if Find(t, k).Some? {
        assert Holds(t, Find(t, k).value, k);
      }
    }
    StoredSize(t);
  }

  /** The two maps agree on `j`. */
  ghost predicate Agree(m: map<Key, Ptr>, m': map<Key, Ptr>, j: Key) {
    (j in m' <==> j in m) && (j in m ==> m'[j] == m[j])
  }

  lemma SameFind(t: Table, u: Table, j: Key)
    requires TableSize(|t|) && TableSize(|u|) && Find(u, j) == Find(t, j)
    requires Find(t, j).Some? ==> u[Find(t, j).value] == t[Find(t, j).value]
    ensures Agree(Model(t), Model(u), j)
  {
    ModelIsFind(t, j);
    ModelIsFind(u, j);
  }

  lemma DifferAtOneKey(m: map<Key, Ptr>, m': map<Key, Ptr>, k: Key)
    requires forall j: Key :: j != k ==> Agree(m, m', j)
    ensures k !in m' ==> m' == m - {k}
    ensures k in m' ==> m' == m[k := m'[k]]
  {
    assert forall j: Key :: Agree(m, m', j) ==> (j in m' <==> j in m) && (j in m ==> m'[j] == m[j]);
  }

  lemma FindOfOthersAfterPut(t: Table, k: Key, d: Ptr, j: Key)
    requires Clean(t) && Place(t, k).Some? && d != NULL && j != k
    ensures Find(Put(t, Place(t, k).value, k, d), j) == Find(t, j)
    ensures Find(t, j).Some? ==> Find(t, j).value != Place(t, k).value
  {
    var p := PlaceFound(t, k, 0);
    var s := Place(t, k).value;
    var t' := Put(t, s, k, d);
    if HasKey(t, j) {
      var i :| Holds(t, i, j);
      CleanFinds(t, i);
      var q :| CleanAt(t, i, q);
      CleanOthersAfterPut(t, s, k, d, j, q);
      assert i != s;
      FindIs(t', j, 0, q);
    } else {
      assert Find(t, j).Some? ==> Holds(t, Find(t, j).value, j);
      assert Find(t', j).Some? ==> Holds(t, Find(t', j).value, j);
    }
  }

  /** Get sees exactly one change after an insertion into a clean table. */
  lemma PutModel(t: Table, k: Key, d: Ptr)
    requires Clean(t) && Place(t, k).Some? && d != NULL
    ensures Model(Put(t, Place(t, k).value, k, d)) == Model(t)[k := d]
  {
    var u := Put(t, Place(t, k).value, k, d);
    CleanIsSound(t);
    PutSound(t, k, d);
    LookupAfterPut(t, k, d);
    NothingHiddenWithoutNull(t, k);
    ModelIsFind(u, k);
    forall j: Key | j != k
      ensures Agree(Model(t), Model(u), j)
    {
      FindOfOthersAfterPut(t, k, d, j);
      SameFind(t, u, j);
    }
    DifferAtOneKey(Model(t), Model(u), k);
  }

  /** When hashmapInsert has to rehash, nothing was in the key's way. */
  lemma RehashOnlyUnobstructed(t: Table, k: Key)
    requires Clean(t) && !CanPlace(t, k)
    ensures Unobstructed(t, k)
  {
    ActiveSlotsBound(t);
    forall s | Holds(t, s, k)
      ensures exists p: nat :: p < |t| && s == Probe(k, |t|, p) && AllActive(t, k, p)
    {
      var p: nat :| CleanAt(t, s, p);
      var p' := PlaceFound(t, k, 0);
      assert At(t, k, p).key == k;
      assert p < |t| && s == Probe(k, |t|, p) && AllActive(t, k, p);
    }
  }

  /**
    Insertion into a clean table: Get sees the map update in every case, and the
    table stays clean with `count` equal to the map's size exactly when nothing
    inactive came before a present key.
    */
  lemma InsertStepClean(t: Table, k: Key, d: Ptr, u: Table)
    requires Clean(t) && d != NULL && InsertStep(t, k, d, u)
    ensures Model(u) == Model(t)[k := d]
    ensures Clean(u) <==> Unobstructed(t, k)
    ensures |ActiveSlots(u)| == |Model(u)| <==> Unobstructed(t, k)
  {
    CleanModel(t);
    if CanPlace(t, k) {
      PutModel(t, k, d);
      if Unobstructed(t, k) {
        PutClean(t, k, d);
        CleanModel(u);
      } else {
        ObstructedPut(t, k, d);
      }
    } else {
      RehashOnlyUnobstructed(t, k);
      var v :| RehashedThenPut(t, v, k, d, u);
      CleanIsSound(t);
      RehashSound(t, v);
      CleanModel(v);
      PutModel(v, k, d);
      PutClean(v, k, d);
      CleanModel(u);
    }
  }

  /** An obstructed insertion leaves the key active twice. */
  lemma ObstructedPut(t: Table, k: Key, d: Ptr)
    requires Clean(t) && d != NULL && Place(t, k).Some? && !Unobstructed(t, k)
    ensures var u := Put(t, Place(t, k).value, k, d);
            !Clean(u) && |ActiveSlots(u)| == |Model(u)| + 1
  {
    var s := Place(t, k).value;
    var u := Put(t, s, k, d);
    var i :| Holds(t, i, k) && !exists p: nat :: p < |t| && i == Probe(k, |t|, p) && AllActive(t, k, p);
    PlaceOfPresent(t, k, i);
    assert Holds(u, i, k) && Holds(u, s, k);
    if Clean(u) {
      CleanIsUnique(u);
    }
    var p := PlaceFound(t, k, 0);
    CleanIsUnique(t);
    assert t[s].active ==> Holds(t, s, k);
    assert !t[s].active;
    PutCount(t, s, k, d);
    PutModel(t, k, d);
    CleanFinds(t, i);
    ModelIsFind(t, k);
    CleanModel(t);
  }

  lemma FindOfOthersAfterRemove(t: Table, k: Key, j: Key)
    requires Clean(t) && j != k
    ensures Find(Remove(t, k), j) == Find(t, j)
    ensures Find(t, j).Some? ==> Remove(t, k)[Find(t, j).value] == t[Find(t, j).value]
  {
    var u := Remove(t, k);
    RemovalIsFind(t, k, 0);
    RemoveClean(t, k);
    if HasKey(t, j) {
      var i :| Holds(t, i, j);
      CleanFinds(t, i);
      CleanFinds(u, i);
    } else {
      assert Find(t, j).Some? ==> Holds(t, Find(t, j).value, j);
      assert Find(u, j).Some? ==> Holds(t, Find(u, j).value, j);
    }
  }

  /** Removal from a clean table deletes one key from the map and returns its data. */
  lemma RemoveModel(t: Table, k: Key)
    requires Clean(t)
    ensures Clean(Remove(t, k))
    ensures Model(Remove(t, k)) == Model(t) - {k}
    ensures RemoveResult(t, k) == if k in Model(t) then Model(t)[k] else NULL
  {
    var u := Remove(t, k);
    CleanIsSound(t);
    RemoveClean(t, k);
    CleanIsSound(u);
    LookupAfterRemove(t, k);
    NothingHiddenWithoutNull(t, k);
    ModelIsFind(t, k);
    ModelIsFind(u, k);
    forall j: Key | j != k
      ensures Agree(Model(t), Model(u), j)
    {
      FindOfOthersAfterRemove(t, k, j);
      SameFind(t, u, j);
    }
    DifferAtOneKey(Model(t), Model(u), k);
  }

  /** A rehash keeps the map of a clean table, and its count. */
  lemma RehashModel(t: Table, u: Table)
    requires Clean(t) && RehashOutcome(t, u)
    ensures Clean(u) && Model(u) == Model(t)
    ensures |ActiveSlots(u)| == |ActiveSlots(t)| == |Model(t)|
    ensures forall s: nat :: s < |u| && !u[s].active ==> u[s] == BLANK
  {
    CleanIsSound(t);
    RehashSound(t, u);
    CleanModel(t);
    CleanModel(u);
  }

  // ----- when the insertion loop finds a slot --------------------------------------------------

  lemma FullOrbit(t: Table, k: Key)
    requires TableSize(|t|) && Place(t, k).None?
    ensures OrbitLength(k, |t|) <= |ActiveSlots(t)|
    ensures !HasKeyOnPath(t, k)
  {
    var p := PlaceFound(t, k, 0);
    forall s | s in Orbit(k, |t|)
      ensures s in ActiveSlots(t)
    {
      var i := RoundOf(k, |t|, |t|, s);
      assert At(t, k, i).active;
    }
    OrbitSize(k, |t|);
    SubsetSize(Orbit(k, |t|), ActiveSlots(t));
  }

  ghost predicate HasKeyOnPath(t: Table, k: Key)
    requires TableSize(|t|)
  {
    exists p: nat :: p < |t| && At(t, k, p).key == k
  }

  /** With a truly prime size and room left, the loop always finds a slot. */
  lemma PrimeSizeAlwaysPlaces(t: Table, k: Key)
    requires TableSize(|t|) && NT.IsPrime(|t|) && |ActiveSlots(t)| < |t|
    ensures CanPlace(t, k)
  {
    PrimeOrbitIsEverySlot(k, |t|);
    if Place(t, k).None? {
      FullOrbit(t, k);
    }
  }

  /** Prime or not, a table that has outgrown its keys always has a slot on the path. */
  lemma LargeTableAlwaysPlaces(t: Table, k: Key, maxKey: Key, total: nat)
    requires TableSize(|t|) && k <= maxKey && |ActiveSlots(t)| <= total
    requires |t| > (maxKey + 1) * total
    ensures Place(t, k).Some?
  {
    LargeTableOrbit(k, |t|, maxKey, total);
    if Place(t, k).None? {
      FullOrbit(t, k);
    }
  }
}
