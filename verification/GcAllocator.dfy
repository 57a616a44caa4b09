/**
  The allocators of include/gc/new_gc_alloc.h as they run: list heads, object words and
  counters updated in place. The four allocate and four deallocate functions differ only
  in the list array, the rounding, the counters and the clearing, so `kind` selects them.
  */
module GcAllocator {
  import opened Addresses
  import opened GcAlloc
  import opened GcLedger

  lemma LargeEnough(n: nat, bpw: nat)
    requires WordSize(bpw)
    ensures (n / bpw + 1) * bpw >= n
  {}

  class Allocator {
    const bpw: nat                    // GC_bytes_per_word
    var mem: map<Addr, seq<Word>>
    var heads: map<Class, Addr>       // GC_objfreelist_ptr and its three siblings
    ghost var owner: map<Addr, Owner>
    ghost var lists: Lists

    var allocd: int                   // GC_bytes_recently_allocd
    var traceableAllocd: int          // GC_uncollectable_bytes_recently_allocd
    var freed: int                    // GC_bytes_recently_freed
    var traceableFreed: int           // GC_uncollectable_bytes_recently_freed
    var reportedAllocd: int           // total passed to GC_incr_bytes_allocd
    var reportedFreed: int            // total passed to GC_incr_bytes_freed
    var nonGcBytes: int               // GC_non_gc_bytes

    ghost function State(): Heap
      reads this
    {
      Heap(mem, heads, owner)
    }

    ghost function Counters(): Ledger
      reads this
    {
      Ledger(allocd, traceableAllocd, freed, traceableFreed, reportedAllocd, reportedFreed, nonGcBytes)
    }

    ghost predicate Valid()
      reads this
    {
      WordSize(bpw) && WellFormed(State(), lists)
    }

    constructor (bytesPerWord: nat, nonGc: int)
      requires WordSize(bytesPerWord)
      ensures Valid() && bpw == bytesPerWord && State() == EMPTY_HEAP
      ensures Counters() == Ledger(0, 0, 0, 0, 0, 0, nonGc)
    {
      bpw := bytesPerWord;
      mem, heads, owner, lists := map[], map[], map[], map[];
      allocd, traceableAllocd, freed, traceableFreed := 0, 0, 0, 0;
      reportedAllocd, reportedFreed, nonGcBytes := 0, 0, nonGc;
    }

    /** The collector's own allocation: some object that nobody holds, with any contents. */
    method CollectorMalloc(size: nat, ghost who: Owner) returns (op: Addr)
      requires Valid() && !who.Free? && (who.Live? ==> size == Words(who.c))
      modifies this`mem, this`owner
      ensures Valid()
      ensures exists ws :: |ws| == size && FreshObject(old(State()), op, ws, who, State())
    {
      var used := mem.Keys;
      SomeAddressLeft(used, 1);
      op :| op >= 1 && op !in used;
      var ws := Zeros(size);
      ghost var h := State();
      mem := mem[op := ws];
      owner := owner[op := who];
      assert FreshObject(h, op, ws, who, State());
      FreshKeepsWellFormed(h, lists, op, ws, who, State());
    }

    /** What the collector does to a list when it refills it: no counter is touched. */
    method Supply(c: Class) returns (r: Addr)
      requires Valid()
      modifies this`mem, this`heads, this`owner, this`lists
      ensures Valid()
      ensures SupplyStep(old(State()), c, r, State())
    {
      var link := if c in heads then heads[c] else NULL;
      ghost var h := State();
      r := CollectorMalloc(Words(c), Live(c));
      ghost var ws :| |ws| == Words(c) && FreshObject(h, r, ws, Live(c), State());
      assert HeldAs(State(), c, r);
      ghost var after := PushKeepsWellFormed(State(), lists, c, r);
      mem := mem[r := FreedWords(c.kind, link, mem[r])];
      heads := heads[c := r];
      owner := owner[r := Free(c)];
      lists := after;
      assert SuppliedWith(h, c, r, ws, State());
    }

    /** The first half of GC_out_of_line_malloc: report the pending counters. */
    method Report()
      modifies this`allocd, this`traceableAllocd, this`freed, this`traceableFreed,
               this`reportedAllocd, this`reportedFreed, this`nonGcBytes
      ensures Counters() == Flush(old(Counters()))
    {
      allocd := allocd + traceableAllocd;
      nonGcBytes := nonGcBytes + traceableAllocd;
      traceableAllocd := 0;

      freed := freed + traceableFreed;
      nonGcBytes := nonGcBytes - traceableFreed;
      traceableFreed := 0;

      reportedAllocd := reportedAllocd + allocd;
      allocd := 0;

      reportedFreed := reportedFreed + freed;
      freed := 0;
    }

    /** GC_out_of_line_malloc: report, then ask the collector. */
    method OutOfLineMalloc(c: Class) returns (op: Addr)
      requires Valid()
      modifies this`mem, this`owner, this`allocd, this`traceableAllocd, this`freed,
               this`traceableFreed, this`reportedAllocd, this`reportedFreed, this`nonGcBytes
      ensures Valid()
      ensures Counters() == Flush(old(Counters()))
      ensures exists ws :: |ws| == Words(c) && FreshObject(old(State()), op, ws, Live(c), State())
    {
      Report();
      op := CollectorMalloc(Words(c), Live(c));
    }

    /** The fast path of allocation: unlink the head of the list and count its bytes. */
    method Pop(c: Class) returns (op: Addr)
      requires Head(State(), c) != NULL && Head(State(), c) in mem && |mem[Head(State(), c)]| > 0
      modifies this`heads, this`owner, this`allocd, this`traceableAllocd
      ensures op == old(Head(State(), c)) && State() == old(Popped(State(), c))
      ensures Counters() == CountAllocated(old(Counters()), c.kind, ClassBytes(c, bpw))
    {
      op := heads[c];
      heads := heads[c := mem[op][0]];
      owner := owner[op := Live(c)];
      if Traceable(c.kind) {
        traceableAllocd := traceableAllocd + ClassBytes(c, bpw);
      } else {
        allocd := allocd + ClassBytes(c, bpw);
      }
    }

    method Allocate(kind: Kind, n: nat) returns (r: Addr)
      requires Valid()
      modifies this
      ensures Valid()
      ensures AllocateStep(old(State()), kind, n, bpw, r, State())
      ensures Counters() == Accounted(old(State()), old(Counters()), Action.Allocate(kind, n, r), bpw)
    {
      var c := ClassOf(kind, n, bpw);
      if n > MAX_FAST_BYTES {
        LargeEnough(n, bpw);
        r := CollectorMalloc(n / bpw + 1, LiveLarge);
      } else if (if c in heads then heads[c] else NULL) == NULL {
        r := OutOfLineMalloc(c);
      } else {
        ghost var after := PopKeepsWellFormed(State(), lists, c);
        r := Pop(c);
        lists := after;
      }
    }

    /** The fast path of deallocation: link the object in front and count its bytes. */
    method Push(c: Class, p: Addr)
      requires p in mem && |mem[p]| > 0
      modifies this`mem, this`heads, this`owner, this`freed, this`traceableFreed
      ensures State() == old(Pushed(State(), c, p))
      ensures Counters() == CountFreed(old(Counters()), c.kind, ClassBytes(c, bpw))
    {
      var link := if c in heads then heads[c] else NULL;
      mem := mem[p := FreedWords(c.kind, link, mem[p])];
      heads := heads[c := p];
      owner := owner[p := Free(c)];
      if Traceable(c.kind) {
        traceableFreed := traceableFreed + ClassBytes(c, bpw);
      } else {
        freed := freed + ClassBytes(c, bpw);
      }
    }

    method Deallocate(kind: Kind, p: Addr, n: nat)
      requires Valid() && MatchingFree(State(), kind, p, n, bpw)
      modifies this
      ensures Valid()
      ensures State() == old(Deallocated(State(), kind, p, n, bpw))
      ensures Counters() == Accounted(old(State()), old(Counters()), Action.Deallocate(kind, p, n), bpw)
    {
      if n > MAX_FAST_BYTES {
        RemovalKeepsWellFormed(State(), lists, p);
        mem := mem - {p};
        owner := owner - {p};
      } else {
        var c := ClassOf(kind, n, bpw);
        ghost var after := PushKeepsWellFormed(State(), lists, c, p);
        Push(c, p);
        lists := after;
      }
    }
  }
}
