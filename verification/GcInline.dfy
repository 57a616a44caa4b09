/**
  The inline allocation macro GC_FAST_MALLOC_GRANS of include/gc/gc_inline.h. One word of
  the tiny free list array is first a counter of direct allocations and later a pointer
  to a list; only its size tells the two apart.
  */
module GcInline {
  import opened Addresses
  import opened GcAlloc

  /**
    GC_TINY_FREELISTS (25 or 33), num_direct, the size in granules, and whether the kind
    promises cleared objects.
    */
  datatype Config = Config(tiny: nat, numDirect: nat, granules: nat, cleared: bool)

  predicate ValidConfig(c: Config) {
    c.tiny == 25 || c.tiny == 33
  }

  /** The word of the array, the objects, and those the clients have got. */
  datatype Cell = Cell(word: Word, mem: map<Addr, seq<Word>>, held: set<Addr>)

  datatype Outcome = Default | Object(a: Addr) | OutOfMemory

  predicate ReadAsPointer(c: Config, w: Word) {
    w > c.numDirect + c.tiny + 1
  }

  predicate ReadAsCounter(c: Config, w: Word) {
    w <= c.numDirect && w != 0
  }

  /** The first object goes to the client; its link becomes the word. */
  ghost predicate Take(s: Cell, out: Outcome, s': Cell) {
    && s.word in s.mem && |s.mem[s.word]| > 0
    && out == Object(s.word)
    && s' == s.(word := s.mem[s.word][0], held := s.held + {s.word})
  }

  /** An object as GC_generic_malloc_many provides it. */
  ghost predicate GoodObject(c: Config, mem: map<Addr, seq<Word>>, a: Addr) {
    ReadAsPointer(c, a) && a in mem && |mem[a]| >= 2 && (c.cleared ==> mem[a][1] == 0)
  }

  /** GC_generic_malloc_many: a list, possibly empty, of new objects. */
  ghost predicate Refill(c: Config, s: Cell, l: seq<Addr>, m: Cell) {
    && Chain(m.mem, m.word, l)
    && (forall a :: a in l ==> a !in s.mem && GoodObject(c, m.mem, a))
    && (forall a :: a in s.mem ==> a in m.mem && m.mem[a] == s.mem[a])
    && m.held == s.held
  }

  /** One use of the macro. */
  ghost predicate Call(c: Config, s: Cell, out: Outcome, s': Cell) {
    if c.granules >= c.tiny then out == Default && s' == s
    else if ReadAsPointer(c, s.word) then Take(s, out, s')
    else if ReadAsCounter(c, s.word) then
      out == Default && s' == s.(word := s.word + c.granules + 1)
    else
      exists l, m :: Refill(c, s, l, m) && AfterRefill(m, out, s')
  }

  ghost predicate AfterRefill(m: Cell, out: Outcome, s': Cell) {
    if m.word == 0 then out == OutOfMemory && s' == m else Take(m, out, s')
  }

  /** A client writes to an object it has got. */
  ghost predicate ClientWrite(s: Cell, a: Addr, ws: seq<Word>, s': Cell) {
    a in s.held && s' == s.(mem := s.mem[a := ws])
  }

  // ----- what the word means ---------------------------------------------------------------

  /** Counting: `calls` direct allocations so far. Listing: the word heads the list `l`. */
  datatype Phase = Counting(calls: nat) | Listing(l: seq<Addr>)

  ghost predicate Means(c: Config, s: Cell, ph: Phase) {
    match ph
    case Counting(j) =>
      && s.word == 1 + j * (c.granules + 1)
      && (j > 0 ==> 1 + (j - 1) * (c.granules + 1) <= c.numDirect)
      && s.held == {}
    case Listing(l) =>
      && Chain(s.mem, s.word, l)
      && (forall a :: a in l ==> GoodObject(c, s.mem, a) && a !in s.held)
      && (forall a :: a in s.held ==> a in s.mem)
  }

  /**
    The word is never misread: it is taken for a pointer exactly when it heads a
    nonempty list, and for a running counter exactly when direct allocations are left.
    */
  lemma NeverMisread(c: Config, s: Cell, ph: Phase)
    requires ValidConfig(c) && c.granules < c.tiny && Means(c, s, ph)
    ensures ReadAsPointer(c, s.word) <==> ph.Listing? && ph.l != []
    ensures ReadAsPointer(c, s.word) ==> s.word == ph.l[0]
    ensures ReadAsCounter(c, s.word) <==> ph.Counting? && ph.calls * (c.granules + 1) < c.numDirect
    ensures ph.Counting? ==> 1 <= s.word <= c.numDirect + c.tiny
  {
    match ph
    case Counting(j) =>
      if j > 0 {
        assert j * (c.granules + 1) == (j - 1) * (c.granules + 1) + (c.granules + 1);
      }
    case Listing(l) =>
      if l != [] {
        assert l[0] in l;
      }
  }

  lemma TakeMeans(c: Config, s: Cell, l: seq<Addr>, out: Outcome, s': Cell)
    requires ValidConfig(c) && Means(c, s, Listing(l)) && l != [] && Take(s, out, s')
    ensures Means(c, s', Listing(l[1..]))
    ensures out == Object(l[0]) && out.a !in s.held && GoodObject(c, s'.mem, out.a)
  {
    ChainAcyclic(s.mem, s.word, l);
    assert l[0] in l && l == [l[0]] + l[1..];
    assert GoodObject(c, s.mem, l[0]);
  }

  lemma RefillMeans(c: Config, s: Cell, ph: Phase, l: seq<Addr>, m: Cell)
    requires ValidConfig(c) && Means(c, s, ph) && Refill(c, s, l, m)
    ensures Means(c, m, Listing(l))
  {}

  /** How many uses are served directly before the first refill. */
  function DirectCalls(c: Config): nat {
    (c.numDirect + c.granules) / (c.granules + 1)
  }

  lemma DirectCallsIsCeiling(c: Config, j: nat)
    ensures j < DirectCalls(c) <==> j * (c.granules + 1) < c.numDirect
  {
    var d, n := c.granules + 1, DirectCalls(c);
    assert n * d <= c.numDirect + d - 1 < n * d + d;
    if j < n {
      assert j * d + d <= n * d by { Monotone(j + 1, n, d); }
    } else {
      Monotone(n, j, d);
    }
  }

  lemma Monotone(a: int, b: int, d: nat)
    requires a <= b
    ensures a * d <= b * d
  {}

  /** Each use of the macro keeps the word meaningful and hands out only new objects. */
  lemma CallMeans(c: Config, s: Cell, ph: Phase, out: Outcome, s': Cell) returns (ph': Phase)
    requires ValidConfig(c) && c.granules < c.tiny && Means(c, s, ph) && Call(c, s, out, s')
    ensures Means(c, s', ph')
    ensures ph.Listing? ==> ph'.Listing?
    ensures ph.Counting? ==>
              if ph.calls < DirectCalls(c) then ph' == Counting(ph.calls + 1) else ph'.Listing?
    ensures out == Default <==> ph'.Counting?
    ensures out.Object? ==> out.a !in s.held && out.a in s'.held && GoodObject(c, s'.mem, out.a)
  {
    NeverMisread(c, s, ph);
    if ph.Counting? {
      DirectCallsIsCeiling(c, ph.calls);
    }
    if ReadAsPointer(c, s.word) {
      TakeMeans(c, s, ph.l, out, s');
      ph' := Listing(ph.l[1..]);
    } else if ReadAsCounter(c, s.word) {
      CounterStep(ph.calls, c.granules + 1);
      ph' := Counting(ph.calls + 1);
    } else {
      var l, m :| Refill(c, s, l, m) && AfterRefill(m, out, s');
      RefillMeans(c, s, ph, l, m);
      if m.word == 0 {
        ph' := Listing(l);
      } else {
        TakeMeans(c, m, l, out, s');
        ph' := Listing(l[1..]);
      }
    }
  }

  lemma CounterStep(j: nat, d: nat)
    ensures 1 + j * d + d == 1 + (j + 1) * d
  {}

  lemma WriteMeans(c: Config, s: Cell, ph: Phase, a: Addr, ws: seq<Word>, s': Cell)
    requires Means(c, s, ph) && ClientWrite(s, a, ws, s')
    ensures Means(c, s', ph)
  {
    if ph.Listing? {
      ChainFrame(s.mem, s'.mem, s.word, ph.l);
      assert forall x :: x in ph.l ==> GoodObject(c, s.mem, x) && x != a;
    }
  }

  // ----- runs ---------------------------------------------------------------------------------

  datatype Event = Malloc(out: Outcome) | Wrote(a: Addr, ws: seq<Word>)

  ghost predicate IsTinyRun(c: Config, cells: seq<Cell>, evs: seq<Event>) {
    && ValidConfig(c) && c.granules < c.tiny
    && |cells| == |evs| + 1
    && (cells[0].word == 1 || (cells[0].word == 0 && c.numDirect == 0))
    && cells[0].held == {}
    && forall i :: 0 <= i < |evs| ==> EventStep(c, cells[i], evs[i], cells[i + 1])
  }

  ghost predicate EventStep(c: Config, s: Cell, ev: Event, s': Cell) {
    match ev
    case Malloc(out) => Call(c, s, out, s')
    case Wrote(a, ws) => ClientWrite(s, a, ws, s')
  }

  /** After `k` uses of the macro the phase is the one their number calls for. */
  ghost predicate Timely(c: Config, ph: Phase, k: nat) {
    match ph
    case Counting(calls) => calls == k <= DirectCalls(c)
    case Listing(_) => k >= DirectCalls(c)
  }

  lemma EventMeans(c: Config, s: Cell, ph: Phase, k: nat, ev: Event, s': Cell) returns (ph': Phase)
    requires ValidConfig(c) && c.granules < c.tiny && Means(c, s, ph) && Timely(c, ph, k)
    requires EventStep(c, s, ev, s')
    ensures Means(c, s', ph')
    ensures Timely(c, ph', if ev.Malloc? then k + 1 else k)
    ensures ev.Malloc? ==> (ev.out == Default <==> k < DirectCalls(c))
    ensures ev.Malloc? && ev.out.Object? ==> ev.out.a !in s.held && ev.out.a in s'.held
    ensures ev.Malloc? && ev.out.Object? ==> GoodObject(c, s'.mem, ev.out.a)
  {
    match ev
    case Malloc(out) =>
      ph' := CallMeans(c, s, ph, out, s');
    case Wrote(a, ws) =>
      WriteMeans(c, s, ph, a, ws, s');
      ph' := ph;
  }

  lemma StartMeans(c: Config, s: Cell) returns (ph: Phase)
    requires s.held == {} && (s.word == 1 || (s.word == 0 && c.numDirect == 0))
    ensures Means(c, s, ph) && Timely(c, ph, 0)
  {
    if s.word == 1 {
      ph := Counting(0);
    } else {
      ph := Listing([]);
      DirectCallsIsCeiling(c, 0);
    }
  }

  function CallsBefore(evs: seq<Event>, n: nat): (k: nat)
    requires n <= |evs|
  {
    if n == 0 then 0 else CallsBefore(evs, n - 1) + (if evs[n - 1].Malloc? then 1 else 0)
  }

  lemma {:induction false} RunMeans(c: Config, cells: seq<Cell>, evs: seq<Event>, n: nat) returns (ph: Phase)
    requires IsTinyRun(c, cells, evs) && n <= |evs|
    ensures Means(c, cells[n], ph) && Timely(c, ph, CallsBefore(evs, n))
  {
    if n == 0 {
      ph := StartMeans(c, cells[0]);
    } else {
      var before := RunMeans(c, cells, evs, n - 1);
      ph := EventMeans(c, cells[n - 1], before, CallsBefore(evs, n - 1), evs[n - 1], cells[n]);
    }
  }

  /**
    Starting from 1 (or from 0 without direct allocations), the word always means what it
    is read as; it stays within num_direct + GC_TINY_FREELISTS while it counts; exactly the
    first ceil(num_direct / (granules + 1)) uses are direct, and the counting never comes
    back; every object lies beyond the counter values.
    */
  lemma TinyRunIsSafe(c: Config, cells: seq<Cell>, evs: seq<Event>, n: nat) returns (ph: Phase)
    requires IsTinyRun(c, cells, evs) && n < |evs| && evs[n].Malloc?
    ensures Means(c, cells[n], ph)
    ensures ReadAsPointer(c, cells[n].word) <==> ph.Listing? && ph.l != []
    ensures ph.Counting? ==> 1 <= cells[n].word <= c.numDirect + c.tiny
    ensures evs[n].out == Default <==> CallsBefore(evs, n) * (c.granules + 1) < c.numDirect
    ensures evs[n].out == Default ==> cells[n + 1].word == 1 + (CallsBefore(evs, n) + 1) * (c.granules + 1)
    ensures evs[n].out.Object? ==>
              var a := evs[n].out.a;
              && a > c.numDirect + c.tiny + 1 && a in cells[n + 1].mem
              && |cells[n + 1].mem[a]| >= 2 && (c.cleared ==> cells[n + 1].mem[a][1] == 0)
  {
    ph := RunMeans(c, cells, evs, n);
    NeverMisread(c, cells[n], ph);
    DirectCallsIsCeiling(c, CallsBefore(evs, n));
    var _ := EventMeans(c, cells[n], ph, CallsBefore(evs, n), evs[n], cells[n + 1]);
    var _ := RunMeans(c, cells, evs, n + 1);
  }

  /**
    A request of GC_TINY_FREELISTS granules or more leaves everything alone; a smaller one
    answers Default only to count.
    */
  lemma LargeRequestIsDefault(c: Config, s: Cell, out: Outcome, s': Cell)
    requires Call(c, s, out, s')
    ensures c.granules >= c.tiny ==> out == Default && s' == s
    ensures c.granules < c.tiny && out == Default ==> s'.word == s.word + c.granules + 1 && 1 <= s.word <= c.numDirect
  {}

  lemma {:induction false} HeldGrows(c: Config, cells: seq<Cell>, evs: seq<Event>, i: nat, n: nat)
    requires IsTinyRun(c, cells, evs) && i <= n <= |evs|
    ensures cells[i].held <= cells[n].held
    decreases n
  {
    if i < n {
      HeldGrows(c, cells, evs, i, n - 1);
      EventKeepsHeld(c, cells[n - 1], evs[n - 1], cells[n]);
    }
  }

  lemma EventKeepsHeld(c: Config, s: Cell, ev: Event, s': Cell)
    requires EventStep(c, s, ev, s')
    ensures s.held <= s'.held
  {}

  /** No object is handed out twice, whatever the clients write into theirs. */
  lemma ObjectsAreDistinct(c: Config, cells: seq<Cell>, evs: seq<Event>, i: nat, j: nat)
    requires IsTinyRun(c, cells, evs) && i < j < |evs|
    requires evs[i].Malloc? && evs[i].out.Object? && evs[j].Malloc? && evs[j].out.Object?
    ensures evs[i].out.a != evs[j].out.a
  {
    var ph := RunMeans(c, cells, evs, i);
    var _ := EventMeans(c, cells[i], ph, CallsBefore(evs, i), evs[i], cells[i + 1]);
    HeldGrows(c, cells, evs, i + 1, j);
    var ph2 := RunMeans(c, cells, evs, j);
    var _ := EventMeans(c, cells[j], ph2, CallsBefore(evs, j), evs[j], cells[j + 1]);
  }

  // ----- the macro as it runs --------------------------------------------------------------------

  class TinyFreeList {
    const config: Config
    var word: Word
    var mem: map<Addr, seq<Word>>
    ghost var held: set<Addr>
    ghost var phase: Phase

    ghost function State(): Cell
      reads this
    {
      Cell(word, mem, held)
    }

    ghost predicate Valid()
      reads this
    {
      ValidConfig(config) && (config.granules < config.tiny ==> Means(config, State(), phase))
    }

    constructor (c: Config)
      requires ValidConfig(c)
      ensures Valid() && config == c && held == {} && word == 1
    {
      config := c;
      word, mem, held := 1, map[], {};
      phase := Counting(0);
    }

    /** GC_generic_malloc_many: one new object, or none when memory has run out. */
    method MallocMany(ghost s: Cell) returns (ghost l: seq<Addr>)
      requires s == State()
      modifies this`word, this`mem
      ensures Refill(config, s, l, State())
    {
      var more: bool := *;
      if more {
        var a := Unused(mem.Keys, config.numDirect + config.tiny + 2);
        mem := mem[a := [0, 0]];
        word := a;
        l := [a];
      } else {
        word := 0;
        l := [];
      }
    }

    /** GC_FAST_MALLOC_GRANS; the ghost result counts the rounds of its loop. */
    method FastMalloc() returns (out: Outcome, ghost rounds: nat)
      requires Valid()
      modifies this
      ensures Valid()
      ensures Call(config, old(State()), out, State())
      ensures config.granules >= config.tiny ==> out == Default && State() == old(State())
      ensures rounds <= 2
    {
      rounds := 0;
      if config.granules >= config.tiny {
        return Default, rounds;
      }
      ghost var s := State();
      ghost var ph := phase;
      ghost var l: seq<Addr> := [];
      NeverMisread(config, s, ph);
      while true
        invariant rounds <= 1
        invariant rounds == 0 ==> State() == s && phase == ph
        invariant rounds == 1 ==> Refill(config, s, l, State()) && word != 0
        invariant rounds == 1 ==> !ReadAsPointer(config, s.word) && !ReadAsCounter(config, s.word)
        decreases 2 - rounds
      {
        rounds := rounds + 1;
        if rounds == 2 {
          RefillMeans(config, s, ph, l, State());
          NeverMisread(config, State(), Listing(l));
        }
        if word > config.numDirect + config.tiny + 1 {
          ghost var m := State();
          out := Object(word);
          held := held + {word};
          word := mem[word][0];
          assert Take(m, out, State());
          if rounds == 2 {
            assert Refill(config, s, l, m) && AfterRefill(m, out, State());
          }
          break;
        }
        if word <= config.numDirect && word != 0 {
          word := word + config.granules + 1;
          out := Default;
          break;
        } else {
          l := MallocMany(State());
          if word == 0 {
            out := OutOfMemory;
            assert Refill(config, s, l, State()) && AfterRefill(State(), out, State());
            break;
          }
        }
      }
      phase := CallMeans(config, s, ph, out, State());
    }
  }

  method Unused(used: set<Addr>, above: nat) returns (a: Addr)
    ensures a !in used && a >= above
  {
    SomeAddressLeft(used, above);
    a :| a >= above && a !in used;
  }
}
