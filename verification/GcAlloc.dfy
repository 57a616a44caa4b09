/**
  The single-client allocators of include/gc/new_gc_alloc.h: size classes, the linked
  free lists threaded through the objects themselves, and the deferred byte counters.
  The collector behind them hands out objects nobody holds, puts new ones on the lists and
  takes objects off them.
  */
module GcAlloc {
  import opened Addresses

  // ----- size classes ----------------------------------------------------------------

  const BYTE_ALIGNMENT: nat := 8
  const MAX_FAST_BYTES: nat := 255

  /** GC_bytes_per_word: 4 or 8. */
  predicate WordSize(bpw: nat) {
    bpw == 4 || bpw == 8
  }

  /** GC_round_up: words for n + 1 bytes. */
  function RoundUp(n: nat, bpw: nat): nat
    requires WordSize(bpw)
  {
    ((n + BYTE_ALIGNMENT) / BYTE_ALIGNMENT) * (BYTE_ALIGNMENT / bpw)
  }

  /** GC_round_up_uncollectable: words for n bytes. */
  function RoundUpUncollectable(n: nat, bpw: nat): nat
    requires WordSize(bpw)
  {
    ((n + BYTE_ALIGNMENT - 1) / BYTE_ALIGNMENT) * (BYTE_ALIGNMENT / bpw)
  }

  lemma WordsToBytes(q: nat, bpw: nat)
    requires WordSize(bpw)
    ensures q * (BYTE_ALIGNMENT / bpw) * bpw == q * BYTE_ALIGNMENT
  {}

  /** The least multiple of 8 above `n`, in bytes. */
  lemma RoundUpIsLeastAbove(n: nat, bpw: nat, m: nat)
    requires WordSize(bpw)
    ensures RoundUp(n, bpw) * bpw % BYTE_ALIGNMENT == 0 && RoundUp(n, bpw) * bpw > n
    ensures m % BYTE_ALIGNMENT == 0 && m > n ==> RoundUp(n, bpw) * bpw <= m
  {
    WordsToBytes((n + BYTE_ALIGNMENT) / BYTE_ALIGNMENT, bpw);
  }

  /** The least multiple of 8 that is at least `n`, in bytes. */
  lemma RoundUpUncollectableIsLeast(n: nat, bpw: nat, m: nat)
    requires WordSize(bpw)
    ensures RoundUpUncollectable(n, bpw) * bpw % BYTE_ALIGNMENT == 0
    ensures RoundUpUncollectable(n, bpw) * bpw >= n
    ensures m % BYTE_ALIGNMENT == 0 && m >= n ==> RoundUpUncollectable(n, bpw) * bpw <= m
  {
    WordsToBytes((n + BYTE_ALIGNMENT - 1) / BYTE_ALIGNMENT, bpw);
  }

  datatype Kind = PtrFree | Normal | Uncollectable | AUncollectable

  predicate Traceable(kind: Kind) {
    kind == Uncollectable || kind == AUncollectable
  }

  /** One free list: which of the four arrays, and the index in it. */
  datatype Class = Class(kind: Kind, nwords: nat)

  function ClassOf(kind: Kind, n: nat, bpw: nat): (c: Class)
    requires WordSize(bpw)
    ensures !Traceable(kind) ==> c.nwords > 0
  {
    if Traceable(kind) then Class(kind, RoundUpUncollectable(n, bpw))
    else Class(kind, RoundUp(n, bpw))
  }

  // ----- the heap ------------------------------------------------------------------------

  type Word = nat

  /** Who has an object: a client, through a size class or as a large object, or a free list. */
  datatype Owner = Live(c: Class) | LiveLarge | Free(c: Class)

  datatype Heap = Heap(mem: map<Addr, seq<Word>>, heads: map<Class, Addr>, owner: map<Addr, Owner>)

  /** Words of an object; class 0 holds objects of one word. */
  function Words(c: Class): nat {
    if c.nwords == 0 then 1 else c.nwords
  }

  function Head(h: Heap, c: Class): Addr {
    if c in h.heads then h.heads[c] else NULL
  }

  predicate IsLive(h: Heap, a: Addr) {
    a in h.owner && !h.owner[a].Free?
  }

  function Zeros(n: nat): (z: seq<Word>)
    ensures |z| == n && forall i :: 0 <= i < n ==> z[i] == 0
  {
    seq(n, _ => 0)
  }

  // ----- transitions -------------------------------------------------------------------------

  function WithObject(h: Heap, r: Addr, ws: seq<Word>, who: Owner): Heap {
    h.(mem := h.mem[r := ws], owner := h.owner[r := who])
  }

  /** `r` is new to the client and the lists, with `ws` in it. */
  ghost predicate FreshObject(h: Heap, r: Addr, ws: seq<Word>, who: Owner, h': Heap) {
    r != NULL && r !in h.mem && h' == WithObject(h, r, ws, who)
  }

  function WithoutObject(h: Heap, p: Addr): Heap {
    h.(mem := h.mem - {p}, owner := h.owner - {p})
  }

  /** The head of the list of `c` goes to a client; its link becomes the head. */
  function Popped(h: Heap, c: Class): Heap
    requires Head(h, c) in h.mem && |h.mem[Head(h, c)]| > 0
  {
    var r := Head(h, c);
    h.(heads := h.heads[c := h.mem[r][0]], owner := h.owner[r := Live(c)])
  }

  /** allocate and ptr_free_allocate of both allocators. */
  ghost predicate AllocateStep(h: Heap, kind: Kind, n: nat, bpw: nat, r: Addr, h': Heap)
    requires WordSize(bpw)
  {
    var c := ClassOf(kind, n, bpw);
    if n > MAX_FAST_BYTES then
      exists ws :: |ws| * bpw >= n && FreshObject(h, r, ws, LiveLarge, h')
    else if Head(h, c) == NULL then
      exists ws :: |ws| == Words(c) && FreshObject(h, r, ws, Live(c), h')
    else
      r == Head(h, c) && r in h.mem && |h.mem[r]| > 0 && h' == Popped(h, c)
  }

  /** The client of `p` holds it as an object of class `c`. */
  predicate HeldAs(h: Heap, c: Class, p: Addr) {
    p in h.owner && h.owner[p] == Live(c) && p in h.mem && |h.mem[p]| == Words(c)
  }

  /** The caller gives back a live object with the size it was allocated for. */
  predicate MatchingFree(h: Heap, kind: Kind, p: Addr, n: nat, bpw: nat)
    requires WordSize(bpw)
  {
    if n > MAX_FAST_BYTES then p in h.owner && p in h.mem && h.owner[p] == LiveLarge
    else HeldAs(h, ClassOf(kind, n, bpw), p)
  }

  /** What an object holds once it is on the list: the link, and zeros if the kind is normal. */
  function FreedWords(kind: Kind, link: Addr, ws: seq<Word>): (f: seq<Word>)
    requires |ws| > 0
    ensures |f| == |ws| && f[0] == link
  {
    [link] + (if kind == Normal then Zeros(|ws| - 1) else ws[1..])
  }

  /** The object goes in front of the list of `c`. */
  function Pushed(h: Heap, c: Class, p: Addr): Heap
    requires p in h.mem && |h.mem[p]| > 0
  {
    Heap(h.mem[p := FreedWords(c.kind, Head(h, c), h.mem[p])], h.heads[c := p], h.owner[p := Free(c)])
  }

  /** deallocate and ptr_free_deallocate of both allocators. */
  function Deallocated(h: Heap, kind: Kind, p: Addr, n: nat, bpw: nat): Heap
    requires WordSize(bpw) && MatchingFree(h, kind, p, n, bpw)
  {
    if n > MAX_FAST_BYTES then WithoutObject(h, p)
    else Pushed(h, ClassOf(kind, n, bpw), p)
  }

  /** The heap after a client stores `v` in word `i` of its object. */
  function Written(h: Heap, a: Addr, i: nat, v: Word): Heap
    requires a in h.mem && i < |h.mem[a]|
  {
    var ws: seq<Word> := h.mem[a][i := v];
    h.(mem := h.mem[a := ws])
  }

  /** The collector puts the new object `r`, cleared if the kind is normal, in front of a list. */
  ghost predicate SupplyStep(h: Heap, c: Class, r: Addr, h': Heap) {
    r != NULL && r !in h.mem && exists ws :: SuppliedWith(h, c, r, ws, h')
  }

  ghost predicate SuppliedWith(h: Heap, c: Class, r: Addr, ws: seq<Word>, h': Heap) {
    |ws| == Words(c) && h' == Pushed(WithObject(h, r, ws, Live(c)), c, r)
  }

  /** The collector takes the first object of a list back. */
  ghost predicate ReclaimStep(h: Heap, c: Class, h': Heap) {
    && Head(h, c) != NULL && Head(h, c) in h.mem && |h.mem[Head(h, c)]| > 0
    && h' == WithoutObject(Popped(h, c), Head(h, c))
  }

  datatype Action =
    | Allocate(kind: Kind, n: nat, r: Addr)
    | Deallocate(kind: Kind, p: Addr, n: nat)
    | Write(a: Addr, i: nat, v: Word)
    | Supply(c: Class, r: Addr)
    | Reclaim(c: Class)

  /** One allocator call, a client writing into an object it holds, or the collector at a list. */
  ghost predicate Step(h: Heap, act: Action, bpw: nat, h': Heap)
    requires WordSize(bpw)
  {
    match act
    case Allocate(kind, n, r) => AllocateStep(h, kind, n, bpw, r, h')
    case Deallocate(kind, p, n) =>
      MatchingFree(h, kind, p, n, bpw) && h' == Deallocated(h, kind, p, n, bpw)
    case Write(a, i, v) =>
      IsLive(h, a) && a in h.mem && i < |h.mem[a]| && h' == Written(h, a, i, v)
    case Supply(c, r) => SupplyStep(h, c, r, h')
    case Reclaim(c) => ReclaimStep(h, c, h')
  }

  // ----- the free lists ------------------------------------------------------------------------

  /** Starting at `a`, the links spell out `l` and end in null. */
  ghost predicate Chain(mem: map<Addr, seq<Word>>, a: Addr, l: seq<Addr>)
    decreases |l|
  {
    if l == [] then a == NULL
    else a == l[0] && a != NULL && a in mem && |mem[a]| > 0 && Chain(mem, mem[a][0], l[1..])
  }

  lemma {:induction false} ChainUnique(mem: map<Addr, seq<Word>>, a: Addr, l: seq<Addr>, m: seq<Addr>)
    requires Chain(mem, a, l) && Chain(mem, a, m)
    ensures l == m
    decreases |l|
  {
    if l != [] && m != [] {
      ChainUnique(mem, mem[a][0], l[1..], m[1..]);
      assert l == [a] + l[1..] && m == [a] + m[1..];
    }
  }

  lemma {:induction false} ChainSuffix(mem: map<Addr, seq<Word>>, a: Addr, l: seq<Addr>, i: nat)
    requires Chain(mem, a, l) && i < |l|
    ensures Chain(mem, l[i], l[i..])
    decreases |l|
  {
    if i > 0 {
      ChainSuffix(mem, mem[a][0], l[1..], i - 1);
      assert l[1..][i - 1..] == l[i..];
    }
  }

  /** A free list never comes back to an object it has passed. */
  lemma ChainAcyclic(mem: map<Addr, seq<Word>>, a: Addr, l: seq<Addr>)
    requires Chain(mem, a, l)
    ensures NoDuplicates(l)
  {
    forall i, j | 0 <= i < j < |l|
      ensures l[i] != l[j]
    {
      ChainSuffix(mem, a, l, i);
      ChainSuffix(mem, a, l, j);
      if l[i] == l[j] {
        ChainUnique(mem, l[i], l[i..], l[j..]);
      }
    }
  }

  lemma {:induction false} ChainFrame(mem: map<Addr, seq<Word>>, mem': map<Addr, seq<Word>>, a: Addr, l: seq<Addr>)
    requires Chain(mem, a, l)
    requires forall x :: x in l && x in mem ==> x in mem' && mem'[x] == mem[x]
    ensures Chain(mem', a, l)
    decreases |l|
  {
    if l != [] {
      assert a in l;
      ChainFrame(mem, mem', mem[a][0], l[1..]);
    }
  }

  type Lists = map<Class, seq<Addr>>

  ghost function ListOf(lists: Lists, c: Class): seq<Addr> {
    if c in lists then lists[c] else []
  }

  /** The links from every head spell out its list. */
  ghost predicate Spelled(h: Heap, lists: Lists) {
    forall c: Class :: Chain(h.mem, Head(h, c), ListOf(lists, c))
  }

  /** The lists hold exactly the free objects, each in its own class. */
  ghost predicate Sorted(owner: map<Addr, Owner>, lists: Lists) {
    && (forall c: Class, a: Addr :: a in ListOf(lists, c) ==> a in owner && owner[a] == Free(c))
    && (forall a: Addr :: a in owner && owner[a].Free? ==> a in ListOf(lists, owner[a].c))
  }

  /** What object `a` owes to its owner: the size of its class, and zeros on a normal list. */
  ghost predicate InOrder(ws: seq<Word>, who: Owner) {
    && (who != LiveLarge ==> |ws| == Words(who.c))
    && (who.Free? && who.c.kind == Normal ==> forall i :: 1 <= i < |ws| ==> ws[i] == 0)
  }

  ghost predicate ObjectsInOrder(mem: map<Addr, seq<Word>>, owner: map<Addr, Owner>) {
    && NULL !in mem
    && (forall a :: a in mem <==> a in owner)
    && (forall a :: a in mem && a in owner ==> InOrder(mem[a], owner[a]))
  }

  ghost predicate WellFormed(h: Heap, lists: Lists) {
    Spelled(h, lists) && Sorted(h.owner, lists) && ObjectsInOrder(h.mem, h.owner)
  }

  // ----- every step keeps the lists well formed ---------------------------------------------------

  /** A write to an object that is on no list leaves every list as it was. */
  lemma SpelledFrame(h: Heap, lists: Lists, mem': map<Addr, seq<Word>>, a: Addr)
    requires Spelled(h, lists) && forall c: Class :: a !in ListOf(lists, c)
    requires forall x :: x in h.mem && x != a ==> x in mem' && mem'[x] == h.mem[x]
    ensures forall c: Class :: Chain(mem', Head(h, c), ListOf(lists, c))
  {
    forall c: Class
      ensures Chain(mem', Head(h, c), ListOf(lists, c))
    {
      assert Chain(h.mem, Head(h, c), ListOf(lists, c));
      ChainFrame(h.mem, mem', Head(h, c), ListOf(lists, c));
    }
  }

  lemma LiveIsUnlisted(h: Heap, lists: Lists, a: Addr, c: Class)
    requires WellFormed(h, lists) && IsLive(h, a)
    ensures a !in ListOf(lists, c)
  {}

  lemma FreshKeepsWellFormed(h: Heap, lists: Lists, r: Addr, ws: seq<Word>, who: Owner, h': Heap)
    requires WellFormed(h, lists) && FreshObject(h, r, ws, who, h')
    requires !who.Free? && (who.Live? ==> |ws| == Words(who.c))
    ensures WellFormed(h', lists)
  {
    SpelledFrame(h, lists, h'.mem, r);
    assert forall c: Class :: Head(h', c) == Head(h, c);
  }

  lemma HeadIsListed(h: Heap, lists: Lists, c: Class)
    requires Spelled(h, lists) && Head(h, c) != NULL
    ensures var r, l := Head(h, c), ListOf(lists, c);
            l != [] && l[0] == r && r in h.mem && |h.mem[r]| > 0
            && Chain(h.mem, h.mem[r][0], l[1..]) && r !in l[1..]
  {
    assert Chain(h.mem, Head(h, c), ListOf(lists, c));
    ChainAcyclic(h.mem, Head(h, c), ListOf(lists, c));
  }

  lemma PopSpelled(h: Heap, lists: Lists, c: Class)
    requires Spelled(h, lists) && Head(h, c) != NULL
    ensures Head(h, c) in h.mem && |h.mem[Head(h, c)]| > 0 && ListOf(lists, c) != []
    ensures Spelled(Popped(h, c), lists[c := ListOf(lists, c)[1..]])
  {
    HeadIsListed(h, lists, c);
    var h' := Popped(h, c);
    var lists' := lists[c := ListOf(lists, c)[1..]];
    forall d: Class
      ensures Chain(h'.mem, Head(h', d), ListOf(lists', d))
    {
      assert Chain(h.mem, Head(h, d), ListOf(lists, d));
    }
  }

  lemma PopSorted(owner: map<Addr, Owner>, lists: Lists, c: Class)
    requires Sorted(owner, lists) && ListOf(lists, c) != []
    requires ListOf(lists, c)[0] !in ListOf(lists, c)[1..]
    ensures Sorted(owner[ListOf(lists, c)[0] := Live(c)], lists[c := ListOf(lists, c)[1..]])
  {
    var l := ListOf(lists, c);
    var lists' := lists[c := l[1..]];
    assert l == [l[0]] + l[1..];
    assert l[0] in l;
    forall d: Class, a: Addr | a in ListOf(lists', d)
      ensures a in owner && a != l[0] && owner[a] == Free(d)
    {
      assert a in ListOf(lists, d);
      if d != c {
        assert owner[l[0]] == Free(c);
      }
    }
    forall a: Addr | a in owner && owner[a].Free? && a != l[0]
      ensures a in ListOf(lists', owner[a].c)
    {
      assert a in ListOf(lists, owner[a].c);
    }
  }

  lemma ListedIsFree(h: Heap, lists: Lists, c: Class, a: Addr)
    requires WellFormed(h, lists) && a in ListOf(lists, c)
    ensures a in h.owner && h.owner[a] == Free(c) && !IsLive(h, a)
  {}

  lemma PopObjects(mem: map<Addr, seq<Word>>, owner: map<Addr, Owner>, c: Class, r: Addr)
    requires ObjectsInOrder(mem, owner) && r in owner && owner[r] == Free(c)
    ensures ObjectsInOrder(mem, owner[r := Live(c)])
  {
    assert InOrder(mem[r], owner[r]);
  }

  lemma PopKeepsWellFormed(h: Heap, lists: Lists, c: Class) returns (lists': Lists)
    requires WellFormed(h, lists) && Head(h, c) != NULL
    ensures Head(h, c) in h.mem && |h.mem[Head(h, c)]| > 0
    ensures WellFormed(Popped(h, c), lists')
    ensures ListOf(lists, c) == [Head(h, c)] + ListOf(lists', c)
  {
    HeadIsListed(h, lists, c);
    PopSpelled(h, lists, c);
    PopSorted(h.owner, lists, c);
    assert Head(h, c) in ListOf(lists, c);
    ListedIsFree(h, lists, c, Head(h, c));
    PopObjects(h.mem, h.owner, c, Head(h, c));
    lists' := lists[c := ListOf(lists, c)[1..]];
  }

  lemma PushSpelled(h: Heap, lists: Lists, c: Class, p: Addr)
    requires Spelled(h, lists) && p in h.mem && |h.mem[p]| > 0 && p != NULL
    requires forall d: Class :: p !in ListOf(lists, d)
    ensures Spelled(Pushed(h, c, p), lists[c := [p] + ListOf(lists, c)])
  {
    var h' := Pushed(h, c, p);
    var lists' := lists[c := [p] + ListOf(lists, c)];
    SpelledFrame(h, lists, h'.mem, p);
    forall d: Class
      ensures Chain(h'.mem, Head(h', d), ListOf(lists', d))
    {
      assert Chain(h'.mem, Head(h, d), ListOf(lists, d));
      assert ([p] + ListOf(lists, c))[1..] == ListOf(lists, c);
    }
  }

  lemma PushSorted(owner: map<Addr, Owner>, lists: Lists, c: Class, p: Addr)
    requires Sorted(owner, lists) && forall d: Class :: p !in ListOf(lists, d)
    ensures Sorted(owner[p := Free(c)], lists[c := [p] + ListOf(lists, c)])
  {
    var lists' := lists[c := [p] + ListOf(lists, c)];
    forall d: Class, a: Addr | a in ListOf(lists', d) && a != p
      ensures a in owner && owner[a] == Free(d)
    {
      assert a in ListOf(lists, d);
    }
    forall d: Class | p in ListOf(lists', d)
      ensures d == c
    {
      assert p !in ListOf(lists, d);
    }
    forall a: Addr | a in owner && owner[a].Free? && a != p
      ensures a in ListOf(lists', owner[a].c)
    {
      assert a in ListOf(lists, owner[a].c);
    }
  }

  lemma PushKeepsWellFormed(h: Heap, lists: Lists, c: Class, p: Addr) returns (lists': Lists)
    requires WellFormed(h, lists) && HeldAs(h, c, p)
    ensures WellFormed(Pushed(h, c, p), lists')
    ensures ListOf(lists', c) == [p] + ListOf(lists, c)
  {
    forall d: Class
      ensures p !in ListOf(lists, d)
    {
      LiveIsUnlisted(h, lists, p, d);
    }
    PushSpelled(h, lists, c, p);
    PushSorted(h.owner, lists, c, p);
    lists' := lists[c := [p] + ListOf(lists, c)];
  }

  /** An object that is on no list may go. */
  lemma RemovalKeepsWellFormed(h: Heap, lists: Lists, p: Addr)
    requires WellFormed(h, lists) && IsLive(h, p)
    ensures WellFormed(WithoutObject(h, p), lists)
  {
    var h' := WithoutObject(h, p);
    forall c: Class
      ensures p !in ListOf(lists, c)
    {
      LiveIsUnlisted(h, lists, p, c);
    }
    SpelledFrame(h, lists, h'.mem, p);
    assert forall c: Class :: Head(h', c) == Head(h, c);
  }

  lemma WriteKeepsWellFormed(h: Heap, lists: Lists, a: Addr, i: nat, v: Word)
    requires WellFormed(h, lists) && IsLive(h, a) && a in h.mem && i < |h.mem[a]|
    ensures WellFormed(Written(h, a, i, v), lists)
  {
    var h' := Written(h, a, i, v);
    SpelledFrame(h, lists, h'.mem, a);
    assert forall c: Class :: Head(h', c) == Head(h, c);
  }

  lemma SupplyKeepsWellFormed(h: Heap, lists: Lists, c: Class, r: Addr, h': Heap) returns (lists': Lists)
    requires WellFormed(h, lists) && SupplyStep(h, c, r, h')
    ensures WellFormed(h', lists')
    ensures ListOf(lists', c) == [r] + ListOf(lists, c)
  {
    var ws :| SuppliedWith(h, c, r, ws, h');
    var held := WithObject(h, r, ws, Live(c));
    FreshKeepsWellFormed(h, lists, r, ws, Live(c), held);
    lists' := PushKeepsWellFormed(held, lists, c, r);
  }

  lemma ReclaimKeepsWellFormed(h: Heap, lists: Lists, c: Class, h': Heap) returns (lists': Lists)
    requires WellFormed(h, lists) && ReclaimStep(h, c, h')
    ensures WellFormed(h', lists')
    ensures ListOf(lists, c) == [Head(h, c)] + ListOf(lists', c)
  {
    lists' := PopKeepsWellFormed(h, lists, c);
    RemovalKeepsWellFormed(Popped(h, c), lists', Head(h, c));
  }

  lemma StepKeepsWellFormed(h: Heap, lists: Lists, act: Action, bpw: nat, h': Heap) returns (lists': Lists)
    requires WordSize(bpw) && WellFormed(h, lists) && Step(h, act, bpw, h')
    ensures WellFormed(h', lists')
  {
    lists' := lists;
    match act
    case Allocate(kind, n, r) =>
      var c := ClassOf(kind, n, bpw);
      if n > MAX_FAST_BYTES {
        var ws :| |ws| * bpw >= n && FreshObject(h, r, ws, LiveLarge, h');
        FreshKeepsWellFormed(h, lists, r, ws, LiveLarge, h');
      } else if Head(h, c) == NULL {
        var ws :| |ws| == Words(c) && FreshObject(h, r, ws, Live(c), h');
        FreshKeepsWellFormed(h, lists, r, ws, Live(c), h');
      } else {
        lists' := PopKeepsWellFormed(h, lists, c);
      }
    case Deallocate(kind, p, n) =>
      if n > MAX_FAST_BYTES {
        RemovalKeepsWellFormed(h, lists, p);
      } else {
        lists' := PushKeepsWellFormed(h, lists, ClassOf(kind, n, bpw), p);
      }
    case Write(a, i, v) =>
      WriteKeepsWellFormed(h, lists, a, i, v);
    case Supply(c, r) =>
      lists' := SupplyKeepsWellFormed(h, lists, c, r, h');
    case Reclaim(c) =>
      lists' := ReclaimKeepsWellFormed(h, lists, c, h');
  }

  // ----- runs ---------------------------------------------------------------------------------

  const EMPTY_HEAP: Heap := Heap(map[], map[], map[])

  ghost predicate IsRun(heaps: seq<Heap>, acts: seq<Action>, bpw: nat) {
    && WordSize(bpw) && |heaps| == |acts| + 1 && heaps[0] == EMPTY_HEAP
    && forall i :: 0 <= i < |acts| ==> Step(heaps[i], acts[i], bpw, heaps[i + 1])
  }

  lemma {:induction false} RunWellFormed(heaps: seq<Heap>, acts: seq<Action>, bpw: nat, n: nat) returns (lists: Lists)
    requires IsRun(heaps, acts, bpw) && n <= |acts|
    ensures WellFormed(heaps[n], lists)
  {
    lists := map[];
    if n > 0 {
      var before := RunWellFormed(heaps, acts, bpw, n - 1);
      lists := StepKeepsWellFormed(heaps[n - 1], before, acts[n - 1], bpw, heaps[n]);
    }
  }

  /** Two lists share no object, and no list holds a live one. */
  ghost predicate Disjoint(h: Heap, lists: Lists) {
    && (forall c: Class, d: Class, a: Addr :: a in ListOf(lists, c) && a in ListOf(lists, d) ==> c == d)
    && (forall c: Class, a: Addr :: a in ListOf(lists, c) ==> !IsLive(h, a))
  }

  /** Every object on a normal list is zero but for its link. */
  ghost predicate Cleared(h: Heap, lists: Lists) {
    forall c: Class, a: Addr :: a in ListOf(lists, c) && c.kind == Normal ==>
      a in h.mem && forall i :: 1 <= i < |h.mem[a]| ==> h.mem[a][i] == 0
  }

  lemma ListsAcyclic(h: Heap, lists: Lists, c: Class)
    requires WellFormed(h, lists)
    ensures NoDuplicates(ListOf(lists, c))
  {
    assert Chain(h.mem, Head(h, c), ListOf(lists, c));
    ChainAcyclic(h.mem, Head(h, c), ListOf(lists, c));
  }

  lemma ListsDisjoint(h: Heap, lists: Lists)
    requires WellFormed(h, lists)
    ensures Disjoint(h, lists)
  {
    forall c: Class, d: Class, a: Addr | a in ListOf(lists, c) && a in ListOf(lists, d)
      ensures c == d
    {
      ListedIsFree(h, lists, c, a);
      ListedIsFree(h, lists, d, a);
    }
    forall c: Class, a: Addr | a in ListOf(lists, c)
      ensures !IsLive(h, a)
    {
      ListedIsFree(h, lists, c, a);
    }
  }

  lemma ListsCleared(h: Heap, lists: Lists)
    requires WellFormed(h, lists)
    ensures Cleared(h, lists)
  {
    forall c: Class, a: Addr | a in ListOf(lists, c) && c.kind == Normal
      ensures a in h.mem && forall i :: 1 <= i < |h.mem[a]| ==> h.mem[a][i] == 0
    {
      ListedIsFree(h, lists, c, a);
      assert InOrder(h.mem[a], h.owner[a]);
    }
  }

  /**
    After any run whose frees match, the links from every head spell out a finite
    acyclic list, the lists are pairwise disjoint and hold no live object, and normal
    ones hold only cleared objects.
    */
  lemma FreeListsAreSafe(heaps: seq<Heap>, acts: seq<Action>, bpw: nat, n: nat) returns (lists: Lists)
    requires IsRun(heaps, acts, bpw) && n <= |acts|
    ensures forall c: Class :: Chain(heaps[n].mem, Head(heaps[n], c), ListOf(lists, c))
    ensures forall c: Class :: NoDuplicates(ListOf(lists, c))
    ensures Disjoint(heaps[n], lists) && Cleared(heaps[n], lists)
  {
    lists := RunWellFormed(heaps, acts, bpw, n);
    forall c: Class
      ensures NoDuplicates(ListOf(lists, c))
    {
      ListsAcyclic(heaps[n], lists, c);
    }
    ListsDisjoint(heaps[n], lists);
    ListsCleared(heaps[n], lists);
  }

  /** Freeing an object, and writing into it: what a client does to its own. */
  predicate ActsOn(act: Action, a: Addr) {
    (act.Deallocate? && act.p == a) || (act.Write? && act.a == a)
  }

  lemma LiveIsNoHead(h: Heap, lists: Lists, c: Class)
    requires WellFormed(h, lists) && Head(h, c) != NULL
    ensures !IsLive(h, Head(h, c))
  {
    HeadIsListed(h, lists, c);
    ListedIsFree(h, lists, c, Head(h, c));
  }

  /** `a` is as it was. */
  predicate Untouched(h: Heap, h': Heap, a: Addr) {
    && a in h.mem && a in h'.mem && h'.mem[a] == h.mem[a]
    && a in h.owner && a in h'.owner && h'.owner[a] == h.owner[a]
  }

  lemma AllocateKeepsHeld(h: Heap, lists: Lists, kind: Kind, n: nat, r: Addr, bpw: nat, h': Heap, a: Addr)
    requires WordSize(bpw) && WellFormed(h, lists) && AllocateStep(h, kind, n, bpw, r, h') && IsLive(h, a)
    ensures Untouched(h, h', a)
  {
    var c := ClassOf(kind, n, bpw);
    if n <= MAX_FAST_BYTES && Head(h, c) != NULL {
      LiveIsNoHead(h, lists, c);
    }
  }

  lemma SupplyKeepsHeld(h: Heap, c: Class, r: Addr, h': Heap, a: Addr)
    requires a in h.mem && a in h.owner && SupplyStep(h, c, r, h')
    ensures Untouched(h, h', a)
  {}

  lemma ReclaimKeepsHeld(h: Heap, c: Class, h': Heap, a: Addr)
    requires a in h.mem && a in h.owner && a != Head(h, c) && ReclaimStep(h, c, h')
    ensures Untouched(h, h', a)
  {}

  lemma CollectorKeepsHeld(h: Heap, lists: Lists, c: Class, r: Addr, h': Heap, a: Addr)
    requires WellFormed(h, lists) && (SupplyStep(h, c, r, h') || ReclaimStep(h, c, h')) && IsLive(h, a)
    ensures Untouched(h, h', a)
  {
    if SupplyStep(h, c, r, h') {
      SupplyKeepsHeld(h, c, r, h', a);
    } else {
      LiveIsNoHead(h, lists, c);
      ReclaimKeepsHeld(h, c, h', a);
    }
  }

  lemma StepKeepsHeld(h: Heap, lists: Lists, act: Action, bpw: nat, h': Heap, a: Addr)
    requires WordSize(bpw) && WellFormed(h, lists) && Step(h, act, bpw, h')
    requires IsLive(h, a) && !ActsOn(act, a)
    ensures Untouched(h, h', a)
  {
    match act
    case Allocate(kind, n, r) => AllocateKeepsHeld(h, lists, kind, n, r, bpw, h', a);
    case Deallocate(_, _, _) =>
    case Write(_, _, _) =>
    case Supply(c, r) => CollectorKeepsHeld(h, lists, c, r, h', a);
    case Reclaim(c) => CollectorKeepsHeld(h, lists, c, NULL, h', a);
  }

  /**
    No allocation in a run hands out an object that is still held, and no call, the
    collector's included, changes an object held by anyone but the caller who names it.
    */
  lemma AllocationIsExclusive(heaps: seq<Heap>, acts: seq<Action>, bpw: nat, n: nat)
    requires IsRun(heaps, acts, bpw) && n < |acts|
    ensures acts[n].Allocate? ==>
              acts[n].r != NULL && !IsLive(heaps[n], acts[n].r) && IsLive(heaps[n + 1], acts[n].r)
    ensures forall a :: IsLive(heaps[n], a) && !ActsOn(acts[n], a) ==> Untouched(heaps[n], heaps[n + 1], a)
  {
    var lists := RunWellFormed(heaps, acts, bpw, n);
    var h, h', act := heaps[n], heaps[n + 1], acts[n];
    assert Step(h, act, bpw, h');
    forall a | IsLive(h, a) && !ActsOn(act, a)
      ensures Untouched(h, h', a)
    {
      StepKeepsHeld(h, lists, act, bpw, h', a);
    }
    if act.Allocate? && act.n <= MAX_FAST_BYTES && Head(h, ClassOf(act.kind, act.n, bpw)) != NULL {
      LiveIsNoHead(h, lists, ClassOf(act.kind, act.n, bpw));
    }
  }

  /** What an allocation hands out holds the request; a fast one, up to 255 bytes, at most 8 bytes more. */
  lemma AllocationIsLargeEnough(heaps: seq<Heap>, acts: seq<Action>, bpw: nat, n: nat)
    requires IsRun(heaps, acts, bpw) && n < |acts| && acts[n].Allocate?
    ensures acts[n].r in heaps[n + 1].mem
    ensures var bytes := |heaps[n + 1].mem[acts[n].r]| * bpw;
            && acts[n].n <= bytes
            && (acts[n].n <= 255 ==> bytes <= acts[n].n + 8 && (!Traceable(acts[n].kind) ==> acts[n].n < bytes))
  {
    var lists := RunWellFormed(heaps, acts, bpw, n + 1);
    var h, h', act := heaps[n], heaps[n + 1], acts[n];
    assert Step(h, act, bpw, h');
    var c := ClassOf(act.kind, act.n, bpw);
    if act.n <= MAX_FAST_BYTES {
      assert h'.owner[act.r] == Live(c);
      assert InOrder(h'.mem[act.r], h'.owner[act.r]);
    }
    RoundUpIsLeastAbove(act.n, bpw, 0);
    RoundUpUncollectableIsLeast(act.n, bpw, 0);
    ClassBytesBound(act.kind, act.n, bpw);
  }

  lemma ClassBytesBound(kind: Kind, n: nat, bpw: nat)
    requires WordSize(bpw)
    ensures Words(ClassOf(kind, n, bpw)) * bpw <= n + BYTE_ALIGNMENT
  {
    WordsToBytes((n + BYTE_ALIGNMENT) / BYTE_ALIGNMENT, bpw);
    WordsToBytes((n + BYTE_ALIGNMENT - 1) / BYTE_ALIGNMENT, bpw);
  }

  /** Freeing and allocating the same class again gives the object back and restores the list. */
  lemma AllocateUndoesDeallocate(h: Heap, kind: Kind, p: Addr, n: nat, m: nat, bpw: nat, r: Addr, h': Heap)
    requires WordSize(bpw) && MatchingFree(h, kind, p, n, bpw) && p != NULL
    requires n <= MAX_FAST_BYTES && m <= MAX_FAST_BYTES && ClassOf(kind, m, bpw) == ClassOf(kind, n, bpw)
    requires AllocateStep(Deallocated(h, kind, p, n, bpw), kind, m, bpw, r, h')
    ensures r == p && h'.owner == h.owner
    ensures forall c: Class :: Head(h', c) == Head(h, c)
    ensures kind == Normal ==> forall i :: 1 <= i < |h'.mem[p]| ==> h'.mem[p][i] == 0
    ensures kind != Normal ==> |h'.mem[p]| == |h.mem[p]| && h'.mem[p][1..] == h.mem[p][1..]
    ensures forall a :: a in h.mem && a != p ==> a in h'.mem && h'.mem[a] == h.mem[a]
  {}
}
