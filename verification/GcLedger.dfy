/**
  The deferred byte counters of include/gc/new_gc_alloc.h: what the fast paths add to
  them, how GC_out_of_line_malloc reports them, and what they say about the free lists.
  */
module GcLedger {
  import opened Addresses
  import opened GcAlloc

  /** The four pending counters, and the collector's totals they are reported to. */
  datatype Ledger = Ledger(
    allocd: int, traceableAllocd: int, freed: int, traceableFreed: int,
    reportedAllocd: int, reportedFreed: int, nonGcBytes: int)

  function CountAllocated(l: Ledger, kind: Kind, bytes: nat): Ledger {
    if Traceable(kind) then l.(traceableAllocd := l.traceableAllocd + bytes)
    else l.(allocd := l.allocd + bytes)
  }

  function CountFreed(l: Ledger, kind: Kind, bytes: nat): Ledger {
    if Traceable(kind) then l.(traceableFreed := l.traceableFreed + bytes)
    else l.(freed := l.freed + bytes)
  }

  /** The reporting part of GC_out_of_line_malloc, statement by statement. */
  function Flush(l: Ledger): Ledger {
    var l1 := l.(allocd := l.allocd + l.traceableAllocd,
                 nonGcBytes := l.nonGcBytes + l.traceableAllocd, traceableAllocd := 0);
    var l2 := l1.(freed := l1.freed + l1.traceableFreed,
                  nonGcBytes := l1.nonGcBytes - l1.traceableFreed, traceableFreed := 0);
    var l3 := l2.(reportedAllocd := l2.reportedAllocd + l2.allocd, allocd := 0);
    l3.(reportedFreed := l3.reportedFreed + l3.freed, freed := 0)
  }

  function ClassBytes(c: Class, bpw: nat): nat {
    c.nwords * bpw
  }

  /** The counters after one call made in heap `h`. */
  function Accounted(h: Heap, l: Ledger, act: Action, bpw: nat): Ledger
    requires WordSize(bpw)
  {
    match act
    case Allocate(kind, n, _) =>
      var c := ClassOf(kind, n, bpw);
      if n > MAX_FAST_BYTES then l
      else if Head(h, c) == NULL then Flush(l)
      else CountAllocated(l, kind, ClassBytes(c, bpw))
    case Deallocate(kind, _, n) =>
      if n > MAX_FAST_BYTES then l
      else CountFreed(l, kind, ClassBytes(ClassOf(kind, n, bpw), bpw))
    case _ => l
  }

  // ----- the bytes that move ------------------------------------------------------------------

  /** The size of an object. */
  function SizeInBytes(h: Heap, a: Addr, bpw: nat): nat {
    if a in h.mem then |h.mem[a]| * bpw else 0
  }

  /** A class counts its objects with their size; class 0 counts nothing, although they have a word. */
  lemma ClassCountsSize(h: Heap, c: Class, a: Addr, bpw: nat)
    requires a in h.mem && |h.mem[a]| == Words(c)
    ensures ClassBytes(c, bpw) == if c.nwords == 0 then 0 else SizeInBytes(h, a, bpw)
  {
    if c.nwords == 0 {
      assert ClassBytes(c, bpw) == 0 * bpw == 0;
    }
  }

  /** Size of the object a fast path took off a list of a selected kind in this call. */
  function TakenBytes(h: Heap, act: Action, bpw: nat, traceableOnly: bool): nat
    requires WordSize(bpw)
  {
    match act
    case Allocate(kind, n, r) =>
      var c := ClassOf(kind, n, bpw);
      if n > 255 || Head(h, c) == NULL || c.nwords == 0 || (traceableOnly && !Traceable(kind)) then 0
      else SizeInBytes(h, r, bpw)
    case _ => 0
  }

  /** Size of the object put on a list of a selected kind in this call. */
  function GivenBytes(h: Heap, act: Action, bpw: nat, traceableOnly: bool): nat
    requires WordSize(bpw)
  {
    match act
    case Deallocate(kind, p, n) =>
      var c := ClassOf(kind, n, bpw);
      if n > 255 || c.nwords == 0 || (traceableOnly && !Traceable(kind)) then 0
      else SizeInBytes(h, p, bpw)
    case _ => 0
  }

  function TakenInRun(heaps: seq<Heap>, acts: seq<Action>, bpw: nat, traceableOnly: bool, n: nat): nat
    requires WordSize(bpw) && n <= |acts| < |heaps|
  {
    if n == 0 then 0
    else TakenInRun(heaps, acts, bpw, traceableOnly, n - 1)
         + TakenBytes(heaps[n - 1], acts[n - 1], bpw, traceableOnly)
  }

  function GivenInRun(heaps: seq<Heap>, acts: seq<Action>, bpw: nat, traceableOnly: bool, n: nat): nat
    requires WordSize(bpw) && n <= |acts| < |heaps|
  {
    if n == 0 then 0
    else GivenInRun(heaps, acts, bpw, traceableOnly, n - 1)
         + GivenBytes(heaps[n - 1], acts[n - 1], bpw, traceableOnly)
  }

  /** Size of the object the collector put on a list in this call, or took off one, counted negatively. */
  function SuppliedBytes(h: Heap, act: Action, bpw: nat, h': Heap): int {
    match act
    case Supply(c, r) => if c.nwords == 0 then 0 else SizeInBytes(h', r, bpw)
    case Reclaim(c) => if c.nwords == 0 then 0 else 0 - SizeInBytes(h, Head(h, c), bpw)
    case _ => 0
  }

  function SuppliedInRun(heaps: seq<Heap>, acts: seq<Action>, bpw: nat, n: nat): int
    requires n <= |acts| < |heaps|
  {
    if n == 0 then 0
    else SuppliedInRun(heaps, acts, bpw, n - 1) + SuppliedBytes(heaps[n - 1], acts[n - 1], bpw, heaps[n])
  }

  // ----- conservation -------------------------------------------------------------------------

  ghost predicate Keeps(heaps: seq<Heap>, ledgers: seq<Ledger>, acts: seq<Action>, bpw: nat) {
    && WordSize(bpw) && |ledgers| == |heaps| == |acts| + 1
    && ledgers[0] == Ledger(0, 0, 0, 0, 0, 0, ledgers[0].nonGcBytes)
    && forall i :: 0 <= i < |acts| ==> ledgers[i + 1] == Accounted(heaps[i], ledgers[i], acts[i], bpw)
  }

  ghost predicate IsAccountedRun(heaps: seq<Heap>, ledgers: seq<Ledger>, acts: seq<Action>, bpw: nat) {
    IsRun(heaps, acts, bpw) && Keeps(heaps, ledgers, acts, bpw)
  }

  /** Reporting zeroes what is pending and moves it, without loss, to the totals. */
  lemma FlushReportsEverything(l: Ledger)
    ensures var f := Flush(l);
            && f.allocd == f.traceableAllocd == f.freed == f.traceableFreed == 0
            && f.reportedAllocd == l.reportedAllocd + l.allocd + l.traceableAllocd
            && f.reportedFreed == l.reportedFreed + l.freed + l.traceableFreed
            && f.nonGcBytes == l.nonGcBytes + l.traceableAllocd - l.traceableFreed
  {}

  /** Reported plus pending. */
  function Allocd(l: Ledger): int {
    l.reportedAllocd + l.allocd + l.traceableAllocd
  }

  function Freed(l: Ledger): int {
    l.reportedFreed + l.freed + l.traceableFreed
  }

  function NonGc(l: Ledger): int {
    l.nonGcBytes + l.traceableAllocd - l.traceableFreed
  }

  /** One call adds to reported plus pending exactly the bytes it moved. */
  ghost predicate Balanced(h: Heap, l: Ledger, act: Action, bpw: nat, m: Ledger)
    requires WordSize(bpw)
  {
    && Allocd(m) == Allocd(l) + TakenBytes(h, act, bpw, false)
    && Freed(m) == Freed(l) + GivenBytes(h, act, bpw, false)
    && NonGc(m) == NonGc(l) + TakenBytes(h, act, bpw, true) - GivenBytes(h, act, bpw, true)
  }

  lemma CallIsBalanced(h: Heap, lists: Lists, l: Ledger, act: Action, bpw: nat, h': Heap)
    requires WordSize(bpw) && WellFormed(h, lists) && Step(h, act, bpw, h')
    ensures Balanced(h, l, act, bpw, Accounted(h, l, act, bpw))
  {
    match act
    case Allocate(kind, n, r) => AllocateIsBalanced(h, lists, l, kind, n, r, bpw, h');
    case Deallocate(kind, p, n) => DeallocateIsBalanced(h, l, kind, p, n, bpw);
    case _ =>
  }

  lemma AllocateIsBalanced(h: Heap, lists: Lists, l: Ledger, kind: Kind, n: nat, r: Addr, bpw: nat, h': Heap)
    requires WordSize(bpw) && WellFormed(h, lists) && AllocateStep(h, kind, n, bpw, r, h')
    ensures Balanced(h, l, Allocate(kind, n, r), bpw, Accounted(h, l, Allocate(kind, n, r), bpw))
  {
    FlushReportsEverything(l);
    var c := ClassOf(kind, n, bpw);
    if n <= 255 && Head(h, c) != NULL {
      HeadIsFree(h, lists, c);
      ClassCountsSize(h, c, r, bpw);
    }
  }

  lemma DeallocateIsBalanced(h: Heap, l: Ledger, kind: Kind, p: Addr, n: nat, bpw: nat)
    requires WordSize(bpw) && MatchingFree(h, kind, p, n, bpw)
    ensures Balanced(h, l, Deallocate(kind, p, n), bpw, Accounted(h, l, Deallocate(kind, p, n), bpw))
  {
    if n <= 255 {
      ClassCountsSize(h, ClassOf(kind, n, bpw), p, bpw);
    }
  }

  lemma CallInRun(heaps: seq<Heap>, ledgers: seq<Ledger>, acts: seq<Action>, bpw: nat, i: nat)
    requires IsAccountedRun(heaps, ledgers, acts, bpw) && i < |acts|
    ensures Balanced(heaps[i], ledgers[i], acts[i], bpw, ledgers[i + 1])
  {
    var lists := RunWellFormed(heaps, acts, bpw, i);
    CallIsBalanced(heaps[i], lists, ledgers[i], acts[i], bpw, heaps[i + 1]);
  }

  lemma {:induction false} BalancesAddUp(heaps: seq<Heap>, ledgers: seq<Ledger>, acts: seq<Action>, bpw: nat, n: nat)
    requires WordSize(bpw) && n <= |acts| < |heaps| == |ledgers|
    requires forall i: nat :: i < |acts| ==> Balanced(heaps[i], ledgers[i], acts[i], bpw, ledgers[i + 1])
    ensures Allocd(ledgers[n]) == Allocd(ledgers[0]) + TakenInRun(heaps, acts, bpw, false, n)
    ensures Freed(ledgers[n]) == Freed(ledgers[0]) + GivenInRun(heaps, acts, bpw, false, n)
    ensures NonGc(ledgers[n])
         == NonGc(ledgers[0]) + TakenInRun(heaps, acts, bpw, true, n) - GivenInRun(heaps, acts, bpw, true, n)
  {
    if n > 0 {
      BalancesAddUp(heaps, ledgers, acts, bpw, n - 1);
      assert Balanced(heaps[n - 1], ledgers[n - 1], acts[n - 1], bpw, ledgers[n - 1 + 1]);
    }
  }

  /**
    Over every run, reported plus pending bytes are the sizes of the objects the fast paths
    moved, and GC_non_gc_bytes has changed by the traceable bytes among them that were reported.
    */
  lemma BytesAreConserved(heaps: seq<Heap>, ledgers: seq<Ledger>, acts: seq<Action>, bpw: nat, n: nat)
    requires IsAccountedRun(heaps, ledgers, acts, bpw) && n <= |acts|
    ensures var l := ledgers[n];
            && l.reportedAllocd + l.allocd + l.traceableAllocd == TakenInRun(heaps, acts, bpw, false, n)
            && l.reportedFreed + l.freed + l.traceableFreed == GivenInRun(heaps, acts, bpw, false, n)
            && l.nonGcBytes - ledgers[0].nonGcBytes
               == (TakenInRun(heaps, acts, bpw, true, n) - l.traceableAllocd)
                  - (GivenInRun(heaps, acts, bpw, true, n) - l.traceableFreed)
  {
    forall i: nat | i < |acts|
      ensures Balanced(heaps[i], ledgers[i], acts[i], bpw, ledgers[i + 1])
    {
      CallInRun(heaps, ledgers, acts, bpw, i);
    }
    BalancesAddUp(heaps, ledgers, acts, bpw, n);
  }

  /** The least multiple of 8 that is above `n`, or at least `n` for the traceable kinds. */
  predicate LeastMultiple(bytes: nat, kind: Kind, n: nat) {
    && bytes % 8 == 0
    && (if Traceable(kind) then n <= bytes < n + 8 else n < bytes <= n + 8)
  }

  lemma ClassBytesAreLeast(kind: Kind, n: nat, bpw: nat)
    requires WordSize(bpw)
    ensures LeastMultiple(ClassBytes(ClassOf(kind, n, bpw), bpw), kind, n)
    ensures ClassOf(kind, n, bpw).nwords == 0 <==> Traceable(kind) && n == 0
  {
    WordsToBytes((n + BYTE_ALIGNMENT) / BYTE_ALIGNMENT, bpw);
    WordsToBytes((n + BYTE_ALIGNMENT - 1) / BYTE_ALIGNMENT, bpw);
  }

  /** The counters after `bytes` bytes of the kind were freed on the fast path. */
  ghost predicate OnlyFreed(l: Ledger, m: Ledger, kind: Kind, bytes: nat) {
    if kind.Normal? || kind.PtrFree? then m == l.(freed := l.freed + bytes)
    else m == l.(traceableFreed := l.traceableFreed + bytes)
  }

  ghost predicate OnlyAllocated(l: Ledger, m: Ledger, kind: Kind, bytes: nat) {
    if kind.Normal? || kind.PtrFree? then m == l.(allocd := l.allocd + bytes)
    else m == l.(traceableAllocd := l.traceableAllocd + bytes)
  }

  /**
    What one fast call adds to its counter: the size of the object, which is the least
    multiple of 8 that holds the request; nothing for a traceable request of 0 bytes.
    */
  lemma FastCallCounts(h: Heap, lists: Lists, l: Ledger, act: Action, bpw: nat, h': Heap)
    requires WordSize(bpw) && WellFormed(h, lists) && Step(h, act, bpw, h')
    ensures act.Deallocate? && act.n <= 255 ==>
              var bytes := if Traceable(act.kind) && act.n == 0 then 0 else SizeInBytes(h, act.p, bpw);
              OnlyFreed(l, Accounted(h, l, act, bpw), act.kind, bytes) && LeastMultiple(bytes, act.kind, act.n)
    ensures act.Allocate? && act.n <= 255 && Head(h, ClassOf(act.kind, act.n, bpw)) != NULL ==>
              var bytes := if Traceable(act.kind) && act.n == 0 then 0 else SizeInBytes(h, act.r, bpw);
              OnlyAllocated(l, Accounted(h, l, act, bpw), act.kind, bytes) && LeastMultiple(bytes, act.kind, act.n)
    ensures (act.Allocate? || act.Deallocate?) && act.n > 255 ==> Accounted(h, l, act, bpw) == l
  {
    match act
    case Allocate(kind, n, r) =>
      var c := ClassOf(kind, n, bpw);
      ClassBytesAreLeast(kind, n, bpw);
      if n <= 255 && Head(h, c) != NULL {
        HeadIsFree(h, lists, c);
        ClassCountsSize(h, c, r, bpw);
      }
    case Deallocate(kind, p, n) =>
      ClassBytesAreLeast(kind, n, bpw);
      if n <= 255 {
        ClassCountsSize(h, ClassOf(kind, n, bpw), p, bpw);
      }
    case _ =>
  }

  /** A call that finds its list empty leaves nothing pending. */
  lemma SlowPathClearsPending(heaps: seq<Heap>, ledgers: seq<Ledger>, acts: seq<Action>, bpw: nat, n: nat)
    requires IsAccountedRun(heaps, ledgers, acts, bpw) && n < |acts| && acts[n].Allocate?
    requires acts[n].n <= MAX_FAST_BYTES && Head(heaps[n], ClassOf(acts[n].kind, acts[n].n, bpw)) == NULL
    ensures var l := ledgers[n + 1];
            && l.allocd == l.traceableAllocd == l.freed == l.traceableFreed == 0
            && l.reportedAllocd == TakenInRun(heaps, acts, bpw, false, n + 1)
            && l.reportedFreed == GivenInRun(heaps, acts, bpw, false, n + 1)
  {
    BytesAreConserved(heaps, ledgers, acts, bpw, n + 1);
    FlushReportsEverything(ledgers[n]);
  }

  // ----- the counters and the lists ---------------------------------------------------------------

  ghost function FreeObjects(h: Heap): set<Addr> {
    set a | a in h.owner && h.owner[a].Free?
  }

  /** Bytes of the objects in `s`, all of them free. */
  ghost function BytesOf(s: set<Addr>, owner: map<Addr, Owner>, bpw: nat): nat
    requires forall a :: a in s ==> a in owner && owner[a].Free?
  {
    if s == {} then 0
    else var a :| a in s; ClassBytes(owner[a].c, bpw) + BytesOf(s - {a}, owner, bpw)
  }

  lemma {:induction false} BytesOfRemove(s: set<Addr>, owner: map<Addr, Owner>, bpw: nat, a: Addr)
    requires forall x :: x in s ==> x in owner && owner[x].Free?
    requires a in s
    ensures BytesOf(s, owner, bpw) == ClassBytes(owner[a].c, bpw) + BytesOf(s - {a}, owner, bpw)
  {
    var b :| b in s && BytesOf(s, owner, bpw) == ClassBytes(owner[b].c, bpw) + BytesOf(s - {b}, owner, bpw);
    if a != b {
      BytesOfRemove(s - {b}, owner, bpw, a);
      BytesOfRemove(s - {a}, owner, bpw, b);
      assert s - {b} - {a} == s - {a} - {b};
    }
  }

  lemma {:induction false} BytesOfFrame(s: set<Addr>, owner: map<Addr, Owner>, owner': map<Addr, Owner>, bpw: nat)
    requires forall x :: x in s ==> x in owner && owner[x].Free? && x in owner' && owner'[x] == owner[x]
    ensures BytesOf(s, owner', bpw) == BytesOf(s, owner, bpw)
  {
    if s != {} {
      var a :| a in s;
      BytesOfRemove(s, owner, bpw, a);
      BytesOfRemove(s, owner', bpw, a);
      BytesOfFrame(s - {a}, owner, owner', bpw);
    }
  }

  /** Taking `r` off the free objects, or putting it there, moves the bytes of its class. */
  lemma OneObjectMoves(owner: map<Addr, Owner>, owner': map<Addr, Owner>, s: set<Addr>, r: Addr, bpw: nat)
    requires r !in s && r in owner && owner[r].Free?
    requires forall x :: x in s ==> x in owner && owner[x].Free? && x in owner' && owner'[x] == owner[x]
    ensures BytesOf(s + {r}, owner, bpw) == BytesOf(s, owner', bpw) + ClassBytes(owner[r].c, bpw)
  {
    BytesOfRemove(s + {r}, owner, bpw, r);
    assert s + {r} - {r} == s;
    BytesOfFrame(s, owner, owner', bpw);
  }

  lemma AllocateMovesBytes(h: Heap, lists: Lists, kind: Kind, n: nat, r: Addr, bpw: nat, h': Heap)
    requires WordSize(bpw) && WellFormed(h, lists) && AllocateStep(h, kind, n, bpw, r, h')
    ensures BytesOf(FreeObjects(h'), h'.owner, bpw) + TakenBytes(h, Allocate(kind, n, r), bpw, false)
         == BytesOf(FreeObjects(h), h.owner, bpw)
  {
    var c := ClassOf(kind, n, bpw);
    var s, s' := FreeObjects(h), FreeObjects(h');
    if n <= MAX_FAST_BYTES && Head(h, c) != NULL {
      HeadIsFree(h, lists, c);
      ClassCountsSize(h, c, r, bpw);
      assert s == s' + {r};
      OneObjectMoves(h.owner, h'.owner, s', r, bpw);
    } else {
      assert s' == s;
      BytesOfFrame(s, h.owner, h'.owner, bpw);
    }
  }

  lemma DeallocateMovesBytes(h: Heap, kind: Kind, p: Addr, n: nat, bpw: nat)
    requires WordSize(bpw) && MatchingFree(h, kind, p, n, bpw)
    ensures var h' := Deallocated(h, kind, p, n, bpw);
            BytesOf(FreeObjects(h'), h'.owner, bpw)
            == BytesOf(FreeObjects(h), h.owner, bpw) + GivenBytes(h, Deallocate(kind, p, n), bpw, false)
  {
    var h' := Deallocated(h, kind, p, n, bpw);
    var s, s' := FreeObjects(h), FreeObjects(h');
    if n <= MAX_FAST_BYTES {
      ClassCountsSize(h, ClassOf(kind, n, bpw), p, bpw);
      assert s' == s + {p};
      OneObjectMoves(h'.owner, h.owner, s, p, bpw);
    } else {
      assert s' == s;
      BytesOfFrame(s, h.owner, h'.owner, bpw);
    }
  }

  lemma SupplyMovesBytes(h: Heap, c: Class, r: Addr, bpw: nat, h': Heap)
    requires WordSize(bpw) && (forall a :: a in h.mem <==> a in h.owner) && SupplyStep(h, c, r, h')
    ensures BytesOf(FreeObjects(h'), h'.owner, bpw)
         == BytesOf(FreeObjects(h), h.owner, bpw) + SuppliedBytes(h, Supply(c, r), bpw, h')
  {
    SuppliedOwner(h, c, r, h');
    SuppliedIsFree(h, c, r, h');
    ClassCountsSize(h', c, r, bpw);
    OneObjectMoves(h'.owner, h.owner, FreeObjects(h), r, bpw);
  }

  lemma OverwrittenOwner(owner: map<Addr, Owner>, r: Addr, who: Owner, next: Owner)
    ensures owner[r := who][r := next] == owner[r := next]
  {}

  lemma SuppliedOwner(h: Heap, c: Class, r: Addr, h': Heap)
    requires SupplyStep(h, c, r, h')
    ensures h'.owner == h.owner[r := Free(c)] && r in h'.mem && |h'.mem[r]| == Words(c)
  {
    var ws :| SuppliedWith(h, c, r, ws, h');
    OverwrittenOwner(h.owner, r, Live(c), Free(c));
  }

  lemma SuppliedIsFree(h: Heap, c: Class, r: Addr, h': Heap)
    requires r !in h.owner && h'.owner == h.owner[r := Free(c)]
    ensures FreeObjects(h') == FreeObjects(h) + {r}
  {}

  lemma ReclaimMovesBytes(h: Heap, lists: Lists, c: Class, bpw: nat, h': Heap)
    requires WordSize(bpw) && WellFormed(h, lists) && ReclaimStep(h, c, h')
    ensures BytesOf(FreeObjects(h'), h'.owner, bpw)
         == BytesOf(FreeObjects(h), h.owner, bpw) + SuppliedBytes(h, Reclaim(c), bpw, h')
  {
    var s' := FreeObjects(h');
    HeadIsFree(h, lists, c);
    ClassCountsSize(h, c, Head(h, c), bpw);
    assert FreeObjects(h) == s' + {Head(h, c)};
    OneObjectMoves(h.owner, h'.owner, s', Head(h, c), bpw);
  }

  lemma StepMovesBytes(h: Heap, lists: Lists, act: Action, bpw: nat, h': Heap)
    requires WordSize(bpw) && WellFormed(h, lists) && Step(h, act, bpw, h')
    ensures BytesOf(FreeObjects(h'), h'.owner, bpw) + TakenBytes(h, act, bpw, false)
         == BytesOf(FreeObjects(h), h.owner, bpw) + GivenBytes(h, act, bpw, false) + SuppliedBytes(h, act, bpw, h')
  {
    match act
    case Allocate(kind, n, r) => AllocateMovesBytes(h, lists, kind, n, r, bpw, h');
    case Deallocate(kind, p, n) => DeallocateMovesBytes(h, kind, p, n, bpw);
    case Write(_, _, _) =>
    case Supply(c, r) => SupplyMovesBytes(h, c, r, bpw, h');
    case Reclaim(c) => ReclaimMovesBytes(h, lists, c, bpw, h');
  }

  lemma HeadIsFree(h: Heap, lists: Lists, c: Class)
    requires WellFormed(h, lists) && Head(h, c) != NULL
    ensures Head(h, c) in h.owner && h.owner[Head(h, c)] == Free(c)
    ensures Head(h, c) in h.mem && |h.mem[Head(h, c)]| == Words(c)
  {
    HeadIsListed(h, lists, c);
    assert Head(h, c) in ListOf(lists, c);
  }

  lemma StepInRun(heaps: seq<Heap>, acts: seq<Action>, bpw: nat, i: nat)
    requires IsRun(heaps, acts, bpw) && i < |acts|
    ensures BytesOf(FreeObjects(heaps[i + 1]), heaps[i + 1].owner, bpw) + TakenBytes(heaps[i], acts[i], bpw, false)
         == BytesOf(FreeObjects(heaps[i]), heaps[i].owner, bpw)
            + GivenBytes(heaps[i], acts[i], bpw, false) + SuppliedBytes(heaps[i], acts[i], bpw, heaps[i + 1])
  {
    var lists := RunWellFormed(heaps, acts, bpw, i);
    StepMovesBytes(heaps[i], lists, acts[i], bpw, heaps[i + 1]);
  }

  lemma NothingFreeAtFirst(h: Heap, bpw: nat)
    requires h == EMPTY_HEAP
    ensures BytesOf(FreeObjects(h), h.owner, bpw) == 0
  {
    assert FreeObjects(h) == {};
  }

  /** `on[i]` changes in every call by what was given and supplied less what was taken. */
  lemma {:induction false} ChangesAddUp(on: seq<int>, heaps: seq<Heap>, acts: seq<Action>, bpw: nat, n: nat)
    requires WordSize(bpw) && n <= |acts| < |heaps| && |on| == |heaps| && on[0] == 0
    requires forall i :: 0 <= i < |acts| ==>
               on[i + 1] + TakenBytes(heaps[i], acts[i], bpw, false)
               == on[i] + GivenBytes(heaps[i], acts[i], bpw, false)
                  + SuppliedBytes(heaps[i], acts[i], bpw, heaps[i + 1])
    ensures on[n] + TakenInRun(heaps, acts, bpw, false, n)
         == GivenInRun(heaps, acts, bpw, false, n) + SuppliedInRun(heaps, acts, bpw, n)
  {
    if n > 0 {
      ChangesAddUp(on, heaps, acts, bpw, n - 1);
    }
  }

  lemma ListBytesInRun(heaps: seq<Heap>, acts: seq<Action>, bpw: nat, n: nat)
    requires IsRun(heaps, acts, bpw) && n <= |acts|
    ensures BytesOf(FreeObjects(heaps[n]), heaps[n].owner, bpw) + TakenInRun(heaps, acts, bpw, false, n)
         == GivenInRun(heaps, acts, bpw, false, n) + SuppliedInRun(heaps, acts, bpw, n)
  {
    var on: seq<int> :=
      seq(|heaps|, i requires 0 <= i < |heaps| => BytesOf(FreeObjects(heaps[i]), heaps[i].owner, bpw));
    NothingFreeAtFirst(heaps[0], bpw);
    forall i | 0 <= i < |acts|
      ensures on[i + 1] + TakenBytes(heaps[i], acts[i], bpw, false)
           == on[i] + GivenBytes(heaps[i], acts[i], bpw, false) + SuppliedBytes(heaps[i], acts[i], bpw, heaps[i + 1])
    {
      StepInRun(heaps, acts, bpw, i);
    }
    ChangesAddUp(on, heaps, acts, bpw, n);
  }

  /** Sizes of the objects in `s`, all of them free; those of class 0 are left out. */
  ghost function BytesOnLists(h: Heap, s: set<Addr>, bpw: nat): nat
    requires forall a :: a in s ==> a in h.owner && h.owner[a].Free?
  {
    if s == {} then 0
    else var a :| a in s;
      (if h.owner[a].c.nwords == 0 then 0 else SizeInBytes(h, a, bpw)) + BytesOnLists(h, s - {a}, bpw)
  }

  lemma {:induction false} SizesOnLists(h: Heap, lists: Lists, s: set<Addr>, bpw: nat)
    requires WellFormed(h, lists) && forall a :: a in s ==> a in h.owner && h.owner[a].Free?
    ensures BytesOnLists(h, s, bpw) == BytesOf(s, h.owner, bpw)
  {
    if s != {} {
      var a :| a in s && BytesOnLists(h, s, bpw)
                       == (if h.owner[a].c.nwords == 0 then 0 else SizeInBytes(h, a, bpw))
                          + BytesOnLists(h, s - {a}, bpw);
      SizesOnLists(h, lists, s - {a}, bpw);
      BytesOfRemove(s, h.owner, bpw, a);
      assert InOrder(h.mem[a], h.owner[a]);
      ClassCountsSize(h, h.owner[a].c, a, bpw);
    }
  }

  /**
    The counters know the lists: bytes freed minus bytes allocated, and what the collector
    supplied, are the sizes of the objects on them.
    */
  lemma CountersMeasureFreeLists(
      heaps: seq<Heap>, ledgers: seq<Ledger>, acts: seq<Action>, bpw: nat, n: nat)
    requires IsAccountedRun(heaps, ledgers, acts, bpw) && n <= |acts|
    ensures var l := ledgers[n];
            BytesOnLists(heaps[n], FreeObjects(heaps[n]), bpw)
            == (l.reportedFreed + l.freed + l.traceableFreed)
               - (l.reportedAllocd + l.allocd + l.traceableAllocd)
               + SuppliedInRun(heaps, acts, bpw, n)
  {
    BytesAreConserved(heaps, ledgers, acts, bpw, n);
    ListBytesInRun(heaps, acts, bpw, n);
    var lists := RunWellFormed(heaps, acts, bpw, n);
    SizesOnLists(heaps[n], lists, FreeObjects(heaps[n]), bpw);
  }
}
