/**
  What the operations of include/HashMap.c do to a table, written on values: the
  searches along a probe path, the two updates, and the invariants of the tables
  that can occur.
  */
module HashTable {
  import opened Addresses
  import opened Probing

  type Key = nat
  type Ptr = Addr

  /** hEntry. Of `flags` only the ACTIVE bit is ever set or tested. */
  datatype Entry = Entry(data: Ptr, active: bool, key: Key)

  /** An entry as calloc leaves it. */
  const BLANK: Entry := Entry(NULL, false, 0)

  type Table = seq<Entry>

  datatype Option<T> = None | Some(value: T)

  function At(t: Table, k: Key, i: nat): Entry
    requires TableSize(|t|)
  {
    t[Probe(k, |t|, i)]
  }

  // ----- searches, from round `i` on ----------------------------------------------

  /** The slot hashmapInsert writes: the first that is inactive or holds `k`. */
  function PlaceFrom(t: Table, k: Key, i: nat): (r: Option<nat>)
    requires TableSize(|t|) && i <= |t|
    ensures r.Some? ==> r.value < |t|
    decreases |t| - i
  {
    if i == |t| then None
    else if At(t, k, i).active && At(t, k, i).key != k then PlaceFrom(t, k, i + 1)
    else Some(Probe(k, |t|, i))
  }

  /** The slot hashmapRemove deactivates. */
  function RemovalFrom(t: Table, k: Key, i: nat): (r: Option<nat>)
    requires TableSize(|t|) && i <= |t|
    ensures r.Some? ==> r.value < |t| && t[r.value].active
    decreases |t| - i
  {
    if i == |t| || At(t, k, i).data == NULL then None
    else if At(t, k, i).key != k then RemovalFrom(t, k, i + 1)
    else if At(t, k, i).active then Some(Probe(k, |t|, i))
    else None
  }

  /** The slot in which hashmapGet and hashmapContains find `k`. */
  function FindFrom(t: Table, k: Key, i: nat): (r: Option<nat>)
    requires TableSize(|t|) && i <= |t|
    ensures r.Some? ==> r.value < |t| && t[r.value].active && t[r.value].key == k
    decreases |t| - i
  {
    if i == |t| then None
    else if At(t, k, i).key == k then
      if At(t, k, i).active then Some(Probe(k, |t|, i)) else None
    else if At(t, k, i).data == NULL then None
    else FindFrom(t, k, i + 1)
  }

  function Place(t: Table, k: Key): Option<nat>
    requires TableSize(|t|)
  {
    PlaceFrom(t, k, 0)
  }

  function Removal(t: Table, k: Key): Option<nat>
    requires TableSize(|t|)
  {
    RemovalFrom(t, k, 0)
  }

  function Find(t: Table, k: Key): Option<nat>
    requires TableSize(|t|)
  {
    FindFrom(t, k, 0)
  }

  function Lookup(t: Table, k: Key): Ptr
    requires TableSize(|t|)
  {
    var f := Find(t, k);
    if f.Some? then t[f.value].data else NULL
  }

  // ----- updates --------------------------------------------------------------------

  function Put(t: Table, s: nat, k: Key, d: Ptr): Table
    requires s < |t|
  {
    t[s := Entry(d, true, k)]
  }

  function Deactivate(t: Table, s: nat): Table
    requires s < |t|
  {
    t[s := t[s].(active := false)]
  }

  /** The table after hashmapRemove. */
  function Remove(t: Table, k: Key): Table
    requires TableSize(|t|)
  {
    var r := Removal(t, k);
    if r.Some? then Deactivate(t, r.value) else t
  }

  /** What hashmapRemove returns. */
  function RemoveResult(t: Table, k: Key): Ptr
    requires TableSize(|t|)
  {
    var r := Removal(t, k);
    if r.Some? then t[r.value].data else NULL
  }

  // ----- active slots and their keys --------------------------------------------------

  ghost function ActiveSlots(t: Table): set<nat> {
    set i: nat | i < |t| && t[i].active
  }

  ghost predicate Holds(t: Table, s: nat, k: Key) {
    s < |t| && t[s].active && t[s].key == k
  }

  ghost predicate HasKey(t: Table, k: Key) {
    exists s :: Holds(t, s, k)
  }

  lemma ActiveSlotsBound(t: Table)
    ensures |ActiveSlots(t)| <= |t|
    ensures |ActiveSlots(t)| == |t| ==> forall i: nat :: i < |t| ==> t[i].active
  {
    SubsetSize(ActiveSlots(t), Slots(|t|));
    if |ActiveSlots(t)| == |t| {
      forall i: nat | i < |t|
        ensures t[i].active
      {
        assert i in Slots(|t|);
      }
    }
  }

  lemma PutCount(t: Table, s: nat, k: Key, d: Ptr)
    requires s < |t|
    ensures |ActiveSlots(Put(t, s, k, d))| == |ActiveSlots(t)| + (if t[s].active then 0 else 1)
  {
    assert ActiveSlots(Put(t, s, k, d)) == ActiveSlots(t) + {s};
    if t[s].active {
      assert ActiveSlots(t) + {s} == ActiveSlots(t);
    } else {
      assert s !in ActiveSlots(t);
    }
  }

  lemma DeactivateCount(t: Table, s: nat)
    requires s < |t| && t[s].active
    ensures |ActiveSlots(Deactivate(t, s))| == |ActiveSlots(t)| - 1
  {
    assert ActiveSlots(Deactivate(t, s)) == ActiveSlots(t) - {s};
  }

  // ----- where the searches stop ---------------------------------------------------------

  /** Every slot of the first `p` rounds is active and holds another key. */
  ghost predicate AllOthers(t: Table, k: Key, p: nat)
    requires TableSize(|t|)
  {
    forall q: nat :: q < p ==> At(t, k, q).active && At(t, k, q).key != k
  }

  /** Every slot of the first `p` rounds has been used. */
  ghost predicate AllUsed(t: Table, k: Key, p: nat)
    requires TableSize(|t|)
  {
    forall q: nat :: q < p ==> At(t, k, q).data != NULL
  }

  /** No slot of the first `p` rounds carries the key `k`, active or not. */
  ghost predicate NoneOf(t: Table, k: Key, p: nat)
    requires TableSize(|t|)
  {
    forall q: nat :: q < p ==> At(t, k, q).key != k
  }

  lemma {:induction false} PlaceFound(t: Table, k: Key, i: nat) returns (p: nat)
    requires TableSize(|t|) && i <= |t| && AllOthers(t, k, i)
    ensures PlaceFrom(t, k, i).Some? ==>
              i <= p < |t| && PlaceFrom(t, k, i).value == Probe(k, |t|, p) && AllOthers(t, k, p)
              && (!At(t, k, p).active || At(t, k, p).key == k)
    ensures PlaceFrom(t, k, i).None? ==> AllOthers(t, k, |t|)
    decreases |t| - i
  {
    p := i;
    if i < |t| && At(t, k, i).active && At(t, k, i).key != k {
      p := PlaceFound(t, k, i + 1);
    }
  }

  lemma {:induction false} PlaceIs(t: Table, k: Key, i: nat, p: nat)
    requires TableSize(|t|) && i <= p < |t| && AllOthers(t, k, p)
    requires !At(t, k, p).active || At(t, k, p).key == k
    ensures PlaceFrom(t, k, i) == Some(Probe(k, |t|, p))
    decreases p - i
  {
    if i < p {
      PlaceIs(t, k, i + 1, p);
    }
  }

  lemma {:induction false} FindFound(t: Table, k: Key, i: nat) returns (p: nat)
    requires TableSize(|t|) && i <= |t| && AllUsed(t, k, i) && NoneOf(t, k, i)
    ensures i <= p <= |t| && AllUsed(t, k, p) && NoneOf(t, k, p)
    ensures FindFrom(t, k, i).Some? ==>
              p < |t| && FindFrom(t, k, i).value == Probe(k, |t|, p)
    ensures FindFrom(t, k, i).None? && p < |t| ==>
              !At(t, k, p).active || (At(t, k, p).data == NULL && At(t, k, p).key != k)
    ensures FindFrom(t, k, i).None? && p < |t| ==>
              At(t, k, p).data == NULL || At(t, k, p).key == k
    decreases |t| - i
  {
    p := i;
    if i < |t| && At(t, k, i).key != k && At(t, k, i).data != NULL {
      p := FindFound(t, k, i + 1);
    }
  }

  lemma {:induction false} FindIs(t: Table, k: Key, i: nat, p: nat)
    requires TableSize(|t|) && i <= p < |t| && AllUsed(t, k, p) && NoneOf(t, k, p)
    requires At(t, k, p).key == k
    ensures FindFrom(t, k, i) == if At(t, k, p).active then Some(Probe(k, |t|, p)) else None
    decreases p - i
  {
    if i < p {
      FindIs(t, k, i + 1, p);
    }
  }

  lemma {:induction false} FindStops(t: Table, k: Key, i: nat, q: nat)
    requires TableSize(|t|) && i <= q < |t| && NoneOf(t, k, q + 1) && At(t, k, q).data == NULL
    ensures FindFrom(t, k, i).None?
    decreases q - i
  {
    if i < q {
      FindStops(t, k, i + 1, q);
    }
  }

  /** hashmapRemove finds the slot hashmapGet finds, unless its data is null. */
  lemma {:induction false} RemovalIsFind(t: Table, k: Key, i: nat)
    requires TableSize(|t|) && i <= |t|
    ensures RemovalFrom(t, k, i)
         == if FindFrom(t, k, i).Some? && t[FindFrom(t, k, i).value].data != NULL then FindFrom(t, k, i) else None
    decreases |t| - i
  {
    if i < |t| && At(t, k, i).key != k && At(t, k, i).data != NULL {
      RemovalIsFind(t, k, i + 1);
    }
  }

  /** hashmapGet stops in round `p`: the first whose slot carries `k`, active or not, or holds null data. */
  ghost predicate StopsAt(t: Table, k: Key, p: nat)
    requires TableSize(|t|)
  {
    && p < |t|
    && (t[Probe(k, |t|, p)].key == k || t[Probe(k, |t|, p)].data == NULL)
    && forall q: nat :: q < p ==> t[Probe(k, |t|, q)].key != k && t[Probe(k, |t|, q)].data != NULL
  }

  /**
    What Get returns in every table: the data of the slot where it stops if that is active
    and carries the key, and null otherwise.
    */
  lemma LookupExactly(t: Table, k: Key, p: nat)
    requires TableSize(|t|)
    ensures StopsAt(t, k, p) ==>
              var e := t[Probe(k, |t|, p)];
              Lookup(t, k) == (if e.key == k && e.active then e.data else NULL)
              && (Find(t, k).Some? <==> e.key == k && e.active)
    ensures (forall q :: !StopsAt(t, k, q)) ==> Lookup(t, k) == NULL && Find(t, k).None?
  {
    var r := FindFound(t, k, 0);
    if r < |t| {
      forall q: nat | q < r
        ensures t[Probe(k, |t|, q)].key != k && t[Probe(k, |t|, q)].data != NULL
      {
        assert At(t, k, q).key != k && At(t, k, q).data != NULL;
      }
    }
    if StopsAt(t, k, p) {
      forall q: nat | q < p
        ensures At(t, k, q).key != k && At(t, k, q).data != NULL
      {
        assert t[Probe(k, |t|, q)].key != k;
      }
      if At(t, k, p).key == k {
        FindIs(t, k, 0, p);
      } else {
        FindStops(t, k, 0, p);
      }
    } else if Find(t, k).Some? {
      assert StopsAt(t, k, r);
    }
  }

  /** Remove deactivates exactly the slot Get returns non-null data from. */
  lemma RemoveExactly(t: Table, k: Key, p: nat)
    requires TableSize(|t|) && StopsAt(t, k, p)
    ensures var s := Probe(k, |t|, p);
            Remove(t, k) == if t[s].key == k && t[s].active && t[s].data != NULL
                            then t[s := Entry(t[s].data, false, k)] else t
  {
    LookupExactly(t, k, p);
    RemovalIsFind(t, k, 0);
    forall q: nat | q < p
      ensures At(t, k, q).key != k && At(t, k, q).data != NULL
    {
      assert t[Probe(k, |t|, q)].key != k;
    }
    if At(t, k, p).key == k {
      FindIs(t, k, 0, p);
    }
  }

  // ----- reading back, in every table -----------------------------------------------------

  /** Round `q` of the path of `k` meets null data before any slot that an insertion would take. */
  ghost predicate HiddenAt(t: Table, k: Key, q: nat)
    requires TableSize(|t|)
  {
    At(t, k, q).active && At(t, k, q).data == NULL && AllOthers(t, k, q + 1)
  }

  ghost predicate Hidden(t: Table, k: Key)
    requires TableSize(|t|)
  {
    exists q: nat :: q < |t| && HiddenAt(t, k, q)
  }

  /**
    Get right after an insertion returns the data exactly if that is null or no null
    data lies in the way.
    */
  lemma LookupAfterPut(t: Table, k: Key, d: Ptr)
    requires TableSize(|t|) && Place(t, k).Some?
    ensures Lookup(Put(t, Place(t, k).value, k, d), k) == d <==> d == NULL || !Hidden(t, k)
  {
    var p := PlaceFound(t, k, 0);
    var t' := Put(t, Place(t, k).value, k, d);
    forall q: nat | q < p
      ensures At(t', k, q) == At(t, k, q) && At(t, k, q).key != k
    {
      assert At(t, k, q).active && At(t, k, q).key != k;
    }
    assert !AllOthers(t, k, p + 1);
    if Hidden(t, k) {
      var q: nat :| q < |t| && HiddenAt(t, k, q);
      assert q < p;
      FindStops(t', k, 0, q);
    } else {
      forall q: nat | q < p
        ensures At(t', k, q).data != NULL
      {
        assert At(t, k, q).active;
        assert !HiddenAt(t, k, q);
      }
      FindIs(t', k, 0, p);
    }
  }

  lemma HiddenAfterPut(t: Table, k: Key, d: Ptr)
    requires TableSize(|t|) && Place(t, k).Some?
    ensures Hidden(Put(t, Place(t, k).value, k, d), k) <==> Hidden(t, k)
  {
    var p := PlaceFound(t, k, 0);
    var t' := Put(t, Place(t, k).value, k, d);
    forall q: nat | q < p
      ensures At(t', k, q) == At(t, k, q)
    {
      assert At(t, k, q).active && At(t, k, q).key != k;
    }
    forall q: nat | q < |t|
      ensures HiddenAt(t', k, q) <==> HiddenAt(t, k, q)
    {
      if q >= p {
        assert !(At(t, k, p).active && At(t, k, p).key != k);
        assert At(t', k, p).key == k;
      }
    }
  }

  /** Get right after Remove returns null, and Remove returned what Get would have. */
  lemma LookupAfterRemove(t: Table, k: Key)
    requires TableSize(|t|)
    ensures Lookup(Remove(t, k), k) == NULL
    ensures RemoveResult(t, k) == Lookup(t, k)
    ensures Find(Remove(t, k), k).Some? <==> Find(t, k).Some? && t[Find(t, k).value].data == NULL
  {
    RemovalIsFind(t, k, 0);
    if Removal(t, k).Some? {
      var p := FindFound(t, k, 0);
      var t' := Remove(t, k);
      forall q: nat | q < p
        ensures At(t', k, q).data != NULL && At(t', k, q).key != k
      {
        assert At(t, k, q).data != NULL && At(t, k, q).key != k;
      }
      FindIs(t', k, 0, p);
    }
  }

  /** Null data in the slot Get finds: Contains says yes, Get says null. */
  ghost predicate NullFound(t: Table, k: Key)
    requires TableSize(|t|)
  {
    Find(t, k).Some? && t[Find(t, k).value].data == NULL
  }

  ghost predicate NoNullData(t: Table) {
    forall s: nat :: s < |t| && t[s].active ==> t[s].data != NULL
  }

  lemma NothingHiddenWithoutNull(t: Table, k: Key)
    requires TableSize(|t|) && NoNullData(t)
    ensures !Hidden(t, k) && !NullFound(t, k)
  {
    forall q: nat | q < |t|
      ensures !HiddenAt(t, k, q)
    {
      assert At(t, k, q).active ==> t[Probe(k, |t|, q)].data != NULL;
    }
  }

  // ----- sound tables: every history of non-null data ------------------------------------

  /** Slot `s` is round `p` of its own key's path, and all rounds before it are used. */
  ghost predicate SoundAt(t: Table, s: nat, p: nat)
    requires TableSize(|t|) && s < |t|
  {
    p < |t| && s == Probe(t[s].key, |t|, p) && AllUsed(t, t[s].key, p)
  }

  ghost predicate Sound(t: Table) {
    && TableSize(|t|)
    && (forall s: nat :: s < |t| && t[s].active ==> t[s].data != NULL)
    && (forall s: nat :: s < |t| && t[s].active ==> exists p :: SoundAt(t, s, p))
  }

  lemma PutSound(t: Table, k: Key, d: Ptr)
    requires Sound(t) && Place(t, k).Some? && d != NULL
    ensures Sound(Put(t, Place(t, k).value, k, d))
  {
    var p := PlaceFound(t, k, 0);
    var s := Place(t, k).value;
    var t' := Put(t, s, k, d);
    forall i: nat | i < |t'| && t'[i].active
      ensures exists p :: SoundAt(t', i, p)
    {
      if i == s {
        UsedAfterPut(t, s, k, d, k, p);
        assert SoundAt(t', i, p);
      } else {
        var q :| SoundAt(t, i, q);
        UsedAfterPut(t, s, k, d, t[i].key, q);
        assert SoundAt(t', i, q);
      }
    }
  }

  lemma UsedAfterPut(t: Table, s: nat, k: Key, d: Ptr, j: Key, p: nat)
    requires TableSize(|t|) && s < |t| && d != NULL
    requires forall q: nat :: q < p ==> At(t, j, q).data != NULL
    ensures AllUsed(Put(t, s, k, d), j, p)
  {
    var t' := Put(t, s, k, d);
    forall q: nat | q < p
      ensures At(t', j, q).data != NULL
    {
      assert At(t, j, q).data != NULL;
    }
  }

  lemma RemoveSound(t: Table, k: Key)
    requires Sound(t)
    ensures Sound(Remove(t, k))
  {
    var t' := Remove(t, k);
    forall i: nat | i < |t'| && t'[i].active
      ensures exists p :: SoundAt(t', i, p)
    {
      var q :| SoundAt(t, i, q);
      forall r: nat | r < q
        ensures At(t', t'[i].key, r).data != NULL
      {
        assert At(t, t[i].key, r).data != NULL;
      }
      assert SoundAt(t', i, q);
    }
  }

  /** The early exit on count == 0 never hides a key. */
  lemma EmptyFindsNothing(t: Table, k: Key)
    requires TableSize(|t|) && |ActiveSlots(t)| == 0
    ensures Find(t, k).None?
  {
    assert forall i: nat :: i < |t| && t[i].active ==> i in ActiveSlots(t);
  }

  // ----- clean tables: one active copy per key, found by its path --------------------------

  ghost predicate CleanAt(t: Table, s: nat, p: nat)
    requires TableSize(|t|) && s < |t|
  {
    SoundAt(t, s, p) && NoneOf(t, t[s].key, p)
  }

  ghost predicate Clean(t: Table) {
    && TableSize(|t|)
    && (forall s: nat :: s < |t| && t[s].active ==> t[s].data != NULL)
    && (forall s: nat :: s < |t| && t[s].active ==> exists p :: CleanAt(t, s, p))
  }

  ghost predicate Unique(t: Table) {
    forall i: nat, j: nat, k: Key :: Holds(t, i, k) && Holds(t, j, k) ==> i == j
  }

  lemma CleanIsSound(t: Table)
    requires Clean(t)
    ensures Sound(t)
  {
    forall s: nat | s < |t| && t[s].active
      ensures exists p :: SoundAt(t, s, p)
    {
      var p :| CleanAt(t, s, p);
      assert SoundAt(t, s, p);
    }
  }

  lemma CleanFinds(t: Table, s: nat)
    requires Clean(t) && s < |t| && t[s].active
    ensures Find(t, t[s].key) == Some(s)
    ensures Lookup(t, t[s].key) == t[s].data != NULL
  {
    var p :| CleanAt(t, s, p);
    FindIs(t, t[s].key, 0, p);
  }

  lemma CleanIsUnique(t: Table)
    requires Clean(t)
    ensures Unique(t)
  {
    forall i: nat, j: nat, k: Key | Holds(t, i, k) && Holds(t, j, k)
      ensures i == j
    {
      CleanFinds(t, i);
      CleanFinds(t, j);
    }
  }

  /** If `k` is present, no inactive slot comes before it on its path. */
  ghost predicate Unobstructed(t: Table, k: Key)
    requires TableSize(|t|)
  {
    forall s :: Holds(t, s, k) ==> exists p: nat :: p < |t| && s == Probe(k, |t|, p) && AllActive(t, k, p)
  }

  ghost predicate AllActive(t: Table, k: Key, p: nat)
    requires TableSize(|t|)
  {
    forall q: nat :: q < p ==> At(t, k, q).active
  }

  /** On a clean table the insertion slot of an unobstructed present key is its own. */
  lemma PlaceOfPresent(t: Table, k: Key, s: nat)
    requires Clean(t) && Holds(t, s, k)
    ensures Unobstructed(t, k) ==> Place(t, k) == Some(s)
    ensures Place(t, k) == Some(s) ==> Unobstructed(t, k)
  {
    CleanIsUnique(t);
    if Unobstructed(t, k) {
      var p: nat :| p < |t| && s == Probe(k, |t|, p) && AllActive(t, k, p);
      var p' := PlaceFound(t, k, 0);
      assert At(t, k, p).key == k;
      assert Place(t, k).Some? && p' <= p;
      if p' < p {
        assert At(t, k, p').active;
        assert Holds(t, Probe(k, |t|, p'), k);
      }
    }
    if Place(t, k) == Some(s) {
      var p := PlaceFound(t, k, 0);
      forall q: nat | q < p
        ensures At(t, k, q).active
      {}
      forall r | Holds(t, r, k)
        ensures exists p: nat :: p < |t| && r == Probe(k, |t|, p) && AllActive(t, k, p)
      {
        assert Holds(t, s, k);
        assert r == s;
        assert p < |t| && r == Probe(k, |t|, p) && AllActive(t, k, p);
      }
    }
  }

  lemma PutClean(t: Table, k: Key, d: Ptr)
    requires Clean(t) && Place(t, k).Some? && d != NULL && Unobstructed(t, k)
    ensures Clean(Put(t, Place(t, k).value, k, d))
  {
    var p := PlaceFound(t, k, 0);
    var s := Place(t, k).value;
    var t' := Put(t, s, k, d);
    forall i: nat | i < |t'| && t'[i].active
      ensures exists p :: CleanAt(t', i, p)
    {
      if i == s {
        CleanAfterPut(t, s, k, d, k, p);
        assert CleanAt(t', i, p);
      } else {
        if t[i].key == k {
          assert Holds(t, i, k);
          PlaceOfPresent(t, k, i);
        }
        var q :| CleanAt(t, i, q);
        CleanOthersAfterPut(t, s, k, d, t[i].key, q);
        assert CleanAt(t', i, q);
      }
    }
  }

  lemma CleanAfterPut(t: Table, s: nat, k: Key, d: Ptr, j: Key, p: nat)
    requires TableSize(|t|) && s < |t| && d != NULL && j == k
    requires AllOthers(t, k, p) && (!t[s].active || t[s].key == k)
    requires forall i: nat :: i < |t| && t[i].active ==> t[i].data != NULL
    ensures AllUsed(Put(t, s, k, d), k, p) && NoneOf(Put(t, s, k, d), k, p)
  {
    var t' := Put(t, s, k, d);
    forall q: nat | q < p
      ensures At(t', k, q).data != NULL && At(t', k, q).key != k
    {
      assert At(t, k, q).active && At(t, k, q).key != k;
    }
  }

  lemma CleanOthersAfterPut(t: Table, s: nat, k: Key, d: Ptr, j: Key, p: nat)
    requires TableSize(|t|) && s < |t| && d != NULL && j != k
    requires AllUsed(t, j, p) && NoneOf(t, j, p)
    ensures AllUsed(Put(t, s, k, d), j, p) && NoneOf(Put(t, s, k, d), j, p)
  {
    var t' := Put(t, s, k, d);
    forall q: nat | q < p
      ensures At(t', j, q).data != NULL && At(t', j, q).key != j
    {
      assert At(t, j, q).data != NULL && At(t, j, q).key != j;
    }
  }

  lemma RemoveClean(t: Table, k: Key)
    requires Clean(t)
    ensures Clean(Remove(t, k))
  {
    var t' := Remove(t, k);
    forall i: nat | i < |t'| && t'[i].active
      ensures exists p :: CleanAt(t', i, p)
    {
      var q :| CleanAt(t, i, q);
      forall r: nat | r < q
        ensures At(t', t'[i].key, r).data != NULL && At(t', t'[i].key, r).key != t'[i].key
      {
        assert At(t, t[i].key, r).data != NULL && At(t, t[i].key, r).key != t[i].key;
      }
      assert CleanAt(t', i, q);
    }
  }
}
