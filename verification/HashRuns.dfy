/**
  Runs: any sequence of calls on one hash map, seen through its tables and results
  (include/HashMap.c). A finite map is the specification.
  */
module HashRuns {
  import opened Addresses
  import opened Probing
  import opened HashTable
  import opened HashContents
  import HashMaps
  import NT = NumberTheory

  datatype Op =
    | InsertOp(data: Ptr, key: Key)
    | RemoveOp(key: Key)
    | GetOp(key: Key)
    | ContainsOp(key: Key)
    | CountOp

  datatype Result = Nothing | Pointer(p: Ptr) | Flag(b: bool) | Number(n: int)

  /** One call: exactly what the methods of HashMap ensure of table and result. */
  ghost predicate Call(t: Table, op: Op, r: Result, u: Table)
    requires TableSize(|t|)
  {
    match op
    case InsertOp(d, k) => InsertStep(t, k, d, u) && r == Nothing
    case RemoveOp(k) => u == HashTable.Remove(t, k) && r == Pointer(RemoveResult(t, k))
    case GetOp(k) => u == t && r == Pointer(Lookup(t, k))
    case ContainsOp(k) => u == t && r == Flag(Find(t, k).Some?)
    case CountOp => u == t && r == Number(|ActiveSlots(t)|)
  }

  ghost predicate IsRun(tables: seq<Table>, ops: seq<Op>, results: seq<Result>) {
    && |tables| == |ops| + 1 && |results| == |ops|
    && TableSize(|tables[0]|)
    && forall i :: 0 <= i < |ops| ==>
         TableSize(|tables[i]|) && Call(tables[i], ops[i], results[i], tables[i + 1])
  }

  predicate NonNullData(ops: seq<Op>) {
    forall i :: 0 <= i < |ops| && ops[i].InsertOp? ==> ops[i].data != NULL
  }

  // ----- the specification: a finite map -------------------------------------------------

  function MapStep(m: map<Key, Ptr>, op: Op): map<Key, Ptr> {
    match op
    case InsertOp(d, k) => m[k := d]
    case RemoveOp(k) => m - {k}
    case _ => m
  }

  function MapResult(m: map<Key, Ptr>, op: Op): Result {
    match op
    case InsertOp(_, _) => Nothing
    case RemoveOp(k) => Pointer(if k in m then m[k] else NULL)
    case GetOp(k) => Pointer(if k in m then m[k] else NULL)
    case ContainsOp(k) => Flag(k in m)
    case CountOp => Number(|m|)
  }

  function MapAfter(ops: seq<Op>): map<Key, Ptr> {
    if ops == [] then map[] else MapStep(MapAfter(ops[..|ops| - 1]), ops[|ops| - 1])
  }

  lemma MapAfterNext(ops: seq<Op>, i: nat)
    requires i < |ops|
    ensures MapAfter(ops[..i + 1]) == MapStep(MapAfter(ops[..i]), ops[i])
  {
    var pre := ops[..i + 1];
    assert pre[..|pre| - 1] == ops[..i];
  }

  // ----- every history ----------------------------------------------------------------------

  lemma CallSound(t: Table, op: Op, r: Result, u: Table)
    requires Sound(t) && Call(t, op, r, u)
    requires op.InsertOp? ==> op.data != NULL
    ensures Sound(u)
  {
    match op
    case InsertOp(d, k) => InsertStepSound(t, k, d, u);
    case RemoveOp(k) => RemoveSound(t, k);
    case _ =>
  }

  lemma {:induction false} RunSound(tables: seq<Table>, ops: seq<Op>, results: seq<Result>, i: nat)
    requires IsRun(tables, ops, results) && i <= |ops|
    requires AllBlank(tables[0]) && NonNullData(ops)
    ensures Sound(tables[i])
  {
    if i > 0 {
      RunSound(tables, ops, results, i - 1);
      CallSound(tables[i - 1], ops[i - 1], results[i - 1], tables[i]);
    }
  }

  /**
    The read-back laws, for every history, null data and duplicates included. Get right
    after an insert returns the data exactly if that is null or no null data lies in the
    way; after a remove it returns null, and the remove returned what Get would have;
    Contains agrees with Get exactly if the slot found does not hold null; Count never
    exceeds the number of slots.
    */
  lemma ReadBackLaws(tables: seq<Table>, ops: seq<Op>, results: seq<Result>, i: nat)
    requires IsRun(tables, ops, results) && i < |ops|
    ensures TableSize(|tables[i + 1]|)
    ensures ops[i].InsertOp? ==> var k, d, u := ops[i].key, ops[i].data, tables[i + 1];
              && (Lookup(u, k) == d <==> d == NULL || !Hidden(u, k))
              && (CanPlace(tables[i], k) ==> (Hidden(u, k) <==> Hidden(tables[i], k)))
    ensures ops[i].RemoveOp? ==> Lookup(tables[i + 1], ops[i].key) == NULL
    ensures ops[i].RemoveOp? ==> results[i] == Pointer(Lookup(tables[i], ops[i].key))
    ensures ops[i].ContainsOp? ==>
              (results[i] == Flag(Lookup(tables[i], ops[i].key) != NULL) <==> !NullFound(tables[i], ops[i].key))
    ensures ops[i].CountOp? ==> results[i].Number? && 0 <= results[i].n <= |tables[i]|
  {
    assert Call(tables[i], ops[i], results[i], tables[i + 1]);
    ActiveSlotsBound(tables[i]);
    match ops[i]
    case InsertOp(d, k) => InsertStepReadBack(tables[i], k, d, tables[i + 1]);
    case RemoveOp(k) => LookupAfterRemove(tables[i], k);
    case _ =>
  }

  /** A history of non-null data hides nothing: every insert reads back, and Contains agrees with Get. */
  lemma NonNullHistoryHidesNothing(tables: seq<Table>, ops: seq<Op>, results: seq<Result>, i: nat, k: Key)
    requires IsRun(tables, ops, results) && i <= |ops|
    requires AllBlank(tables[0]) && NonNullData(ops)
    ensures TableSize(|tables[i]|) && !Hidden(tables[i], k) && !NullFound(tables[i], k)
  {
    RunSound(tables, ops, results, i);
    NothingHiddenWithoutNull(tables[i], k);
  }

  // ----- refinement of the finite map ----------------------------------------------------------

  /** No insert up to step `n` overwrote a key past an inactive slot of its path. */
  ghost predicate UnobstructedInserts(tables: seq<Table>, ops: seq<Op>, results: seq<Result>, n: nat)
    requires IsRun(tables, ops, results) && n <= |ops|
  {
    forall i :: 0 <= i < n && ops[i].InsertOp? ==> Unobstructed(tables[i], ops[i].key)
  }

  ghost predicate Represents(t: Table, m: map<Key, Ptr>) {
    Clean(t) && Model(t) == m
  }

  lemma RepresentsCount(t: Table, m: map<Key, Ptr>)
    ensures Represents(t, m) ==> |ActiveSlots(t)| == |m|
  {
    if Represents(t, m) {
      CleanModel(t);
    }
  }

  lemma CallRefines(t: Table, m: map<Key, Ptr>, op: Op, r: Result, u: Table)
    requires Represents(t, m) && Call(t, op, r, u)
    requires op.InsertOp? ==> op.data != NULL && Unobstructed(t, op.key)
    ensures Represents(u, MapStep(m, op)) && r == MapResult(m, op)
  {
    CleanModel(t);
    match op
    case InsertOp(d, k) => InsertStepClean(t, k, d, u);
    case RemoveOp(k) => RemoveModel(t, k);
    case GetOp(k) => ModelIsFind(t, k);
    case ContainsOp(k) => ModelIsFind(t, k);
    case CountOp =>
  }

  lemma BlankRepresentsEmpty(t: Table)
    requires TableSize(|t|) && AllBlank(t)
    ensures Represents(t, map[])
  {
    BlankIsPacked(t);
    PackedIsClean(t);
    CleanModel(t);
  }

  lemma {:induction false} RunRepresents(tables: seq<Table>, ops: seq<Op>, results: seq<Result>, n: nat)
    requires IsRun(tables, ops, results) && n <= |ops|
    requires AllBlank(tables[0]) && NonNullData(ops)
    requires UnobstructedInserts(tables, ops, results, n)
    ensures Represents(tables[n], MapAfter(ops[..n]))
    ensures forall i :: 0 <= i < n ==> results[i] == MapResult(MapAfter(ops[..i]), ops[i])
  {
    if n == 0 {
      BlankRepresentsEmpty(tables[0]);
    } else {
      RunRepresents(tables, ops, results, n - 1);
      MapAfterNext(ops, n - 1);
      CallRefines(tables[n - 1], MapAfter(ops[..n - 1]), ops[n - 1], results[n - 1], tables[n]);
    }
  }

  /**
    Refinement, with its exact condition: the table agrees with the finite map after
    every call, count included, if and only if no insert was obstructed.
    */
  lemma {:induction false} RefinesMapExactlyWhenUnobstructed(
      tables: seq<Table>, ops: seq<Op>, results: seq<Result>, n: nat)
    requires IsRun(tables, ops, results) && n <= |ops|
    requires AllBlank(tables[0]) && NonNullData(ops)
    ensures UnobstructedInserts(tables, ops, results, n) <==>
            forall i :: 0 <= i <= n ==> Represents(tables[i], MapAfter(ops[..i]))
    ensures UnobstructedInserts(tables, ops, results, n) <==>
            forall i :: 0 <= i <= n ==> |ActiveSlots(tables[i])| == |MapAfter(ops[..i])|
  {
    if UnobstructedInserts(tables, ops, results, n) {
      forall i | 0 <= i <= n
        ensures Represents(tables[i], MapAfter(ops[..i]))
        ensures |ActiveSlots(tables[i])| == |MapAfter(ops[..i])|
      {
        RunRepresents(tables, ops, results, i);
        CleanModel(tables[i]);
      }
    } else {
      var i := FirstObstructed(tables, ops, results, n);
      RunRepresents(tables, ops, results, i);
      assert Call(tables[i], ops[i], results[i], tables[i + 1]);
      InsertStepClean(tables[i], ops[i].key, ops[i].data, tables[i + 1]);
      MapAfterNext(ops, i);
      RepresentsCount(tables[i + 1], MapAfter(ops[..i + 1]));
      assert |ActiveSlots(tables[i + 1])| != |MapAfter(ops[..i + 1])|;
    }
  }

  lemma {:induction false} FirstObstructed(
      tables: seq<Table>, ops: seq<Op>, results: seq<Result>, n: nat) returns (i: nat)
    requires IsRun(tables, ops, results) && n <= |ops|
    requires !UnobstructedInserts(tables, ops, results, n)
    ensures i < n && ops[i].InsertOp? && !Unobstructed(tables[i], ops[i].key)
    ensures UnobstructedInserts(tables, ops, results, i)
  {
    if UnobstructedInserts(tables, ops, results, n - 1) {
      i := n - 1;
    } else {
      i := FirstObstructed(tables, ops, results, n - 1);
    }
  }

  // ----- two disciplines a caller can check ------------------------------------------------------

  /** Each insert is of a key the map does not hold, or comes before any removal. */
  predicate Disciplined(ops: seq<Op>) {
    forall i :: 0 <= i < |ops| && ops[i].InsertOp? ==>
      ops[i].key !in MapAfter(ops[..i]) || NoRemoval(ops[..i])
  }

  predicate NoRemoval(ops: seq<Op>) {
    forall i :: 0 <= i < |ops| ==> !ops[i].RemoveOp?
  }

  lemma AbsentIsUnobstructed(t: Table, k: Key)
    requires Clean(t) && k !in Model(t)
    ensures Unobstructed(t, k)
  {
    CleanModel(t);
    StoredKeys(t, k);
  }

  /** Without removals the table stays packed, however often it is rehashed. */
  lemma {:induction false} NoRemovalPacked(tables: seq<Table>, ops: seq<Op>, results: seq<Result>, n: nat)
    requires IsRun(tables, ops, results) && n <= |ops|
    requires AllBlank(tables[0]) && NoRemoval(ops[..n])
    ensures Packed(tables[n])
  {
    if n == 0 {
      BlankIsPacked(tables[0]);
    } else {
      assert forall i :: 0 <= i < n - 1 ==> ops[..n - 1][i] == ops[..n][i];
      NoRemovalPacked(tables, ops, results, n - 1);
      assert ops[..n][n - 1] == ops[n - 1];
      assert Call(tables[n - 1], ops[n - 1], results[n - 1], tables[n]);
      if ops[n - 1].InsertOp? {
        InsertStepPacked(tables[n - 1], ops[n - 1].key, ops[n - 1].data, tables[n]);
      }
    }
  }

  lemma AbsentKeyUnobstructed(tables: seq<Table>, ops: seq<Op>, results: seq<Result>, i: nat, k: Key)
    requires IsRun(tables, ops, results) && i <= |ops| && AllBlank(tables[0]) && NonNullData(ops)
    requires UnobstructedInserts(tables, ops, results, i) && k !in MapAfter(ops[..i])
    ensures TableSize(|tables[i]|) && Unobstructed(tables[i], k)
  {
    RunRepresents(tables, ops, results, i);
    AbsentIsUnobstructed(tables[i], k);
  }

  lemma PackedUnobstructed(tables: seq<Table>, ops: seq<Op>, results: seq<Result>, i: nat, k: Key)
    requires IsRun(tables, ops, results) && i <= |ops| && AllBlank(tables[0]) && NonNullData(ops)
    requires NoRemoval(ops[..i])
    ensures TableSize(|tables[i]|) && Unobstructed(tables[i], k)
  {
    NoRemovalPacked(tables, ops, results, i);
    RunSound(tables, ops, results, i);
    PackedIsClean(tables[i]);
  }

  lemma {:induction false} DisciplineUnobstructs(tables: seq<Table>, ops: seq<Op>, results: seq<Result>, n: nat)
    requires IsRun(tables, ops, results) && n <= |ops|
    requires AllBlank(tables[0]) && NonNullData(ops) && Disciplined(ops)
    ensures UnobstructedInserts(tables, ops, results, n)
  {
    if n > 0 {
      var i := n - 1;
      DisciplineUnobstructs(tables, ops, results, i);
      if ops[i].InsertOp? {
        if ops[i].key !in MapAfter(ops[..i]) {
          AbsentKeyUnobstructed(tables, ops, results, i, ops[i].key);
        } else {
          PackedUnobstructed(tables, ops, results, i, ops[i].key);
        }
      }
    }
  }

  /** A caller who never overwrites after a removal gets a finite map, result by result. */
  lemma DisciplinedRunsAreMaps(tables: seq<Table>, ops: seq<Op>, results: seq<Result>)
    requires IsRun(tables, ops, results)
    requires AllBlank(tables[0]) && NonNullData(ops) && Disciplined(ops)
    ensures forall i :: 0 <= i < |ops| ==> results[i] == MapResult(MapAfter(ops[..i]), ops[i])
    ensures Represents(tables[|ops|], MapAfter(ops))
  {
    DisciplineUnobstructs(tables, ops, results, |ops|);
    RunRepresents(tables, ops, results, |ops|);
    assert ops[..|ops|] == ops;
  }

  // ----- the methods make these calls --------------------------------------------------------------

  /** `back` is false only if an insertion has not come back. */
  method Perform(hm: HashMaps.HashMap, op: Op) returns (r: Result, back: bool)
    requires hm.Valid()
    modifies hm, hm.table
    ensures hm.width.Unbounded? || !op.InsertOp? || old(CanPlace(hm.table[..], op.key)) ==> back
    ensures op.InsertOp? && old(HashMaps.HeldUp(hm.table[..], op.key, hm.width, hm.rand, hm.drawn)) ==> !back
    ensures back ==> hm.Valid() && Call(old(hm.table[..]), op, r, hm.table[..])
    ensures hm.table == old(hm.table) || fresh(hm.table) || !back
  {
    back := true;
    match op
    case InsertOp(d, k) => back := hm.Insert(d, k); r := Nothing;
    case RemoveOp(k) => var p := hm.Remove(k); r := Pointer(p);
    case GetOp(k) => var p := hm.Get(k); r := Pointer(p);
    case ContainsOp(k) => var b := hm.Contains(k); r := Flag(b);
    case CountOp => var n := hm.Count(); r := Number(n);
  }

  /** A prime size has room on every path as long as fewer calls than slots were made. */
  lemma CallLeavesRoom(t: Table, op: Op, r: Result, u: Table, m: nat)
    requires TableSize(|t|) && NT.IsPrime(|t|) && Call(t, op, r, u)
    requires |ActiveSlots(t)| <= m < |t|
    ensures |u| == |t| && |ActiveSlots(u)| <= m + 1
  {
    match op
    case InsertOp(d, k) =>
      PrimeSizeAlwaysPlaces(t, k);
      PutCount(t, Place(t, k).value, k, d);
    case RemoveOp(k) =>
      if Removal(t, k).Some? {
        DeactivateCount(t, Removal(t, k).value);
      }
    case _ =>
  }

  lemma RunGrows(tables: seq<Table>, ops: seq<Op>, results: seq<Result>, i: nat, r: Result, u: Table)
    requires i < |ops| && IsRun(tables, ops[..i], results)
    requires TableSize(|tables[i]|) && Call(tables[i], ops[i], r, u)
    ensures IsRun(tables + [u], ops[..i + 1], results + [r])
  {
    forall j | 0 <= j < i
      ensures TableSize(|tables[j]|) && Call(tables[j], ops[j], results[j], tables[j + 1])
    {
      assert ops[..i][j] == ops[j];
    }
  }

  /**
    Any sequence of calls is a run. With exact products all calls come back, and in either
    width as many calls as the table has slots do, if that is a prime and the table was empty.
    */
  method PerformAll(hm: HashMaps.HashMap, ops: seq<Op>)
    returns (results: seq<Result>, ghost tables: seq<Table>, back: bool)
    requires hm.Valid()
    modifies hm, hm.table
    ensures back ==> hm.Valid() && IsRun(tables, ops, results)
    ensures back ==> tables[0] == old(hm.table[..]) && tables[|ops|] == hm.table[..]
    ensures hm.width.Unbounded? ==> back
    ensures NT.IsPrime(old(hm.size)) && old(AllBlank(hm.table[..])) && |ops| <= old(hm.size) ==> back
  {
    results, tables := [], [hm.table[..]];
    ghost var roomy := NT.IsPrime(hm.size) && AllBlank(hm.table[..]) && |ops| <= hm.size;
    if roomy {
      BlankIsPacked(hm.table[..]);
    }
    var i := 0;
    while i < |ops|
      invariant 0 <= i <= |ops| && hm.Valid() && (hm.table == old(hm.table) || fresh(hm.table))
      invariant IsRun(tables, ops[..i], results)
      invariant tables[0] == old(hm.table[..]) && tables[i] == hm.table[..]
      invariant roomy ==> NT.IsPrime(hm.size) && hm.count <= i && |ops| <= hm.size
    {
      if roomy && ops[i].InsertOp? {
        PrimeSizeAlwaysPlaces(hm.table[..], ops[i].key);
      }
      ghost var t := hm.table[..];
      var r;
      r, back := Perform(hm, ops[i]);
      if !back {
        return;
      }
      if roomy {
        CallLeavesRoom(t, ops[i], r, hm.table[..], i);
      }
      RunGrows(tables, ops, results, i, r, hm.table[..]);
      results, tables := results + [r], tables + [hm.table[..]];
      i := i + 1;
    }
    assert ops[..i] == ops;
    back := true;
  }
}
