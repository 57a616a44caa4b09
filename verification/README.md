# Nova-C runtime: a Dafny model

This project models the parts of the Nova-C runtime that carry real state and
arithmetic, and proves what they keep.

* The open-addressing hash map of `include/HashMap.c`: double hashing, tombstones that
  keep their key, the mutual recursion of `hashmapInsert` and `rehash`, and table sizes
  from a randomised Fermat test.
* The single-client allocators of `include/gc/new_gc_alloc.h`: free lists threaded
  through the objects, and deferred byte counters.
* The inline allocation macro of `include/gc/gc_inline.h`, which keeps a counter or a
  pointer in the same word.
* The array and line helpers of `include/Nova.c`.
* The word-at-a-time scan `skip_trailing_space` of `include/nova_mysql/m_string.h` and
  the byte-order functions of `include/nova_mysql/byte_order_generic.h` it rests on.

## How the files fit together

| file | content |
|---|---|
| `NumberTheory.dfy` | remainders, Bezout, Euclid's lemma, Fermat's little theorem, infinitude of primes |
| `PrimeSearch.dfy` | `isPrime` and `findPrimeGreaterThan`, in 32-bit and in exact arithmetic |
| `PrimePowers.dfy` | powers modulo a power of a prime, coprime factors |
| `FermatBases.dfy` | which numbers the test can accept and reject, what the search may return, and whether it ends |
| `Probing.dfy` | the probe sequence and its orbits |
| `HashTable.dfy` | searches and updates on one table; sound and clean tables |
| `HashContents.dfy` | the map a table stands for; rehash and insertion as relations |
| `TableSizes.dfy` | how searches, one after the other, make a table grow |
| `HashMap.dfy` | the class, updated in place |
| `HashRuns.dfy` | sequences of calls against a finite map |
| `HashBoundaries.dfy` | where the map behaviour ends, with the inputs that show it |
| `GcAlloc.dfy`, `GcLedger.dfy`, `GcAllocator.dfy` | free lists, byte counters, and the class that updates both |
| `GcInline.dfy` | the counter-or-pointer word |
| `NovaArrays.dfy`, `NovaMemory.dfy` | multi-dimensional arrays: the block tree, and the code over memory |
| `ArrayCopy.dfy`, `LineReader.dfy` | `arrayCopy`, `ufgets` |
| `Addresses.dfy` | addresses, null, and an unused one for the allocators |
| `ByteOrder.dfy`, `TrailingSpace.dfy` | byte order, `skip_trailing_space` |

A class method or loop is proved equal to a function or relation on values, and the
properties are proved of that function or relation, then of whole runs.

## Reading the hash map results

* The C code multiplies in a 32-bit `int`; `Width` selects that (`Int32`) or exact
  products (`Unbounded`). In 32 bits the Fermat test accepts every prime from 5 up to `v`
  exactly if `v` is below 46349 (`AcceptsPrimesExactlyBelowLimit`), and the search meets
  the next prime from 5 up exactly for arguments below 46337
  (`SearchMeetsNextPrimeExactlyBelowLimit`). The unbounded results are idealised: they say
  what the algorithm would do if no product overflowed.
* What the test can do to an odd number from 5 up is known exactly while products are exact
  (up to 46341 in 32 bits): it can reject the composites (`RejectableExactly`) and accept
  everything but the powers of 3 (`AcceptableExactly`). So a search may return exactly the
  odd numbers up to the next prime that are no powers of 3 (`MayReturnExactly`).
* Below 46337 a 32-bit search ends for every sequence of random numbers
  (`SettledSearchEnds`). From 65521 on some sequence keeps it going for ever
  (`LargeSearchMayNotEnd`), and from 65537 on the constant 65534 does: it gives the base
  65536, whose square is stored as 0. For arguments from 46337 to 65520 the search may go on
  for ever exactly if every prime above the argument, up to 65537, can be rejected
  (`MayNotEndUnlessPrime`); that is shown of 46349 and 65537, and left open for the primes
  in between.
* The random numbers are a sequence handed to the methods. A search that need not end is
  followed for a number of candidates, `patience`, and then reports that the call has not
  come back (`back` is false); a call never comes back if `back` is false for every
  `patience`. In 32 bits an insertion comes back if there is room on the path of the key
  (`CanPlace`), and for tables from 32761 slots up this condition is exact
  (`InsertionSureExactlyWithRoom`, `InsertWithConstantDraws`). For smaller tables it also
  comes back if (maxKey + 1) * count stays below 46337 / 2; if it does not, the search in
  question started from the present size or from a composite one. In a map of prime size,
  such as the default 1021, as many calls as there are slots always come back
  (`PerformAll`).
* `InsertStep` says what an insertion that comes back does to a table when any number of
  rehashes, to any sizes, may come in between. The two ghost arguments of `InsertBounded`
  bound the keys and entries in play. Apart from the prime search, termination rests on
  nothing else, so it also holds if every composite size were to pass the primality test.
* `InsertStepExactly` pins an insertion without naming the search: if not all slots are
  taken and some round of the path fits, the slot of the first such round is written and
  nothing else changes; in every other case the table has grown. `Reached` says how: by
  searches one after the other on consecutive random numbers, each for twice the size
  before it, where every search after the first starts from a size that is blocked for one
  of the keys in play. `LookupExactly` and `RemoveExactly` do the same for the other calls.
* With no discipline at all the read-back laws hold (`ReadBackLaws`). The full map does
  not: an insert of a present key takes the first inactive slot of its path, even when
  the key sits behind it, and leaves two active copies. `Unobstructed` is the guard of
  that branch. `RefinesMapExactlyWhenUnobstructed` proves both directions: the tables
  represent the finite map, and count has its size, if and only if no insert was
  obstructed. `StaleValueComesBack` is the run that shows the failure, for every size
  from 3 and every three keys with a common home slot; `ShowStaleValue` performs it.
* `Disciplined` is a condition a caller can check on the calls alone: insert only absent
  keys, or insert before the first removal.
* Null data doubles as the marker of a never-used slot. Insertion accepts it and counts it.
  Get after an insertion then returns the data exactly if that is null or no active null
  entry comes before the key's slot (`Hidden`), and Contains agrees with Get exactly if the
  slot found does not hold null (`NullFound`). A history without null data has neither.
  `include/HashMap.h` does not mention this restriction.
* Table sizes are 1 or odd from 3. A start size of 1 or 2 gives size 1, where
  `size - 2` wraps as an unsigned modulus; this is modelled. The comment in
  `include/HashMap.c` says the fallback rehash should be impossible.
  `FallbackUnreachableExactlyForPrimes` proves that this is so for the prime sizes and for
  no other. `StuckSizeReturnedExactly` says which of these sizes the search may return: all
  composites but the powers of 3. `StuckTableIsReached` is the run that fills such a table.
* `NOVA_FREE` of a table is a ghost method that demands a live table, so no table can be
  freed twice; the ensures on `live` say that none is lost.

## Modelling choices

* `rand()` gives an arbitrary sequence of values up to 2^31 - 1. In the primality test
  products wrap as `Width` says, `val - 4` wraps as an unsigned number, and a negative
  `int` is converted to `unsigned long` before `%`; other integers are unbounded.
* `unsigned long` has 64 bits. The limits 46349 and 46337 rest on that: with 32 bits the
  conversion would undo the wrap. That 65536 squared is stored as 0 does not.
* Pointers and addresses are natural numbers with 0 as null. Allocation succeeds.
* Hash keys are the `unsigned long` the caller passes; the entry's `long` field gives the
  same value back when it is compared or reinserted.
* Of `hEntry.flags` only the ACTIVE bit is ever set or compared, so it is a boolean.
* The list arrays `GC_objfreelist_ptr` and its siblings are a map from kind and size
  class to the head; object words are a map from address to words. Class 0, which a
  traceable request of 0 bytes selects, holds objects of one word.
* A bad memory access is a precondition: `InBounds` for `arrayCopy`, which shows that
  closing a gap touches one byte past the elements. `nova_gen_array` records every store
  instead, with the size of the block it goes to, and drops the ones outside; from the
  first such store on the C code is undefined.
* Addresses that the collector provides to `GC_FAST_MALLOC_GRANS` exceed
  num_direct + GC_TINY_FREELISTS + 1 (`GoodObject`); otherwise the macro would read a
  pointer as a counter.
* The collector may at any time put a new object on a list or take one off.
* Where a C function holds a loop inside a loop, or a fast and a slow path, the inner
  part is a method of its own (`TryCandidate`, `TryPlace`, `NewTable`, `RehashFor`,
  `Reinsert`, `Pop`, `Push`, `GenSlot`, `FreeSlot`, `SkipWords`, `OpenUp`).

## Model

| member | source | states |
|---|---|---|
| NumberTheory.FermatLittle | include/HashMap.c:32-43 | why the test accepts primes: a power of a base not divisible by the prime leaves 1 |
| PrimeSearch.IsProbablyPrime | include/HashMap.c:21-44 | accepts exactly if none of the next nine random numbers gives a base that fails, and draws up to and including the first that does; no prime from 5 up is rejected, in 32 bits below 46349, with exact products (idealised) anywhere |
| PrimeSearch.BaseIsReduced | include/HashMap.c:27-27 | for val from 5 up the base is the random number modulo val - 4, plus 2 |
| PrimeSearch.FirstRejectablePrime | include/HashMap.c:23-40 | with a 64-bit unsigned long, the prime 46349 is rejected in 32 bits if rand gives the base 634 |
| PrimeSearch.AcceptsPrimesExactlyBelowLimit | include/HashMap.c:21-44 | with a 64-bit unsigned long, in 32 bits no prime from 5 up to v can be rejected if and only if v < 46349 |
| PrimeSearch.PowerLoopIsModularPower | include/HashMap.c:28-37 | the square-and-multiply loop computes the modular power: in 32 bits for bases below val <= 46341, which for val >= 5 are all that can be drawn; with exact products (idealised) always |
| PrimeSearch.FindPrimeGreaterThan | include/HashMap.c:46-57 | the first odd number above val that passes on its own nine of the random numbers, all before it having failed on theirs; ends for every sequence of random numbers in 32 bits for val below 46337, with exact products (idealised) always; never ends if each candidate fails at its first random number |
| PrimeSearch.SearchIsDetermined | include/HashMap.c:46-57 | the random numbers determine what is found and how many of them are used |
| PrimeSearch.NextPrimeBound | include/HashMap.c:46-57 | what is found lies beyond no prime from 5 up: in 32 bits for val below 46337, and beyond that for primes below 46349 |
| PrimeSearch.MayNotEndExactly | include/HashMap.c:46-57 | some sequence of random numbers keeps a search going for ever if and only if every candidate can be rejected |
| FermatBases.AcceptableExactly | include/HashMap.c:21-44 | an odd number n >= 5 can pass all nine rounds if and only if it is no power of 3 (in 32 bits for n <= 46341; with exact products, idealised, for every n an int holds) |
| FermatBases.CoprimeProductAcceptable | include/HashMap.c:21-44 | every odd product of two coprime factors from 3 up can pass, within the same bounds |
| FermatBases.CompositeIsRejectable | include/HashMap.c:21-44 | every odd composite from 9 up can be rejected, in 32 bits without bound |
| FermatBases.RejectableExactly | include/HashMap.c:21-44 | an odd number n >= 5 can be rejected if and only if it is composite, within the bounds of AcceptableExactly |
| FermatBases.LargeIsRejectable | include/HashMap.c:26-40 | in 32 bits the random number 65534 rejects every odd number from 65539 up |
| FermatBases.MayReturnExactly | include/HashMap.c:46-57 | from val >= 3 a search may return p if and only if p is odd, above val, no power of 3, and no prime lies between, within the same bounds |
| FermatBases.SettledSearchEnds | include/HashMap.c:46-57 | below 46337 in 32 bits, and always with exact products (idealised), no sequence of random numbers keeps a search going |
| FermatBases.MayNotEndUnlessPrime | include/HashMap.c:46-57 | from val >= 3 a 32-bit search may go on for ever if and only if every odd prime above val, up to 65537, can be rejected |
| FermatBases.LargeSearchMayNotEnd | include/HashMap.c:46-57 | from 65521 on a 32-bit search may go on for ever |
| FermatBases.ConstantDrawNeverEnds | include/HashMap.c:46-57 | from 65537 on it does if rand always gives 65534 |
| FermatBases.SearchMeetsNextPrimeExactlyBelowLimit | include/HashMap.c:46-57 | with a 64-bit unsigned long, 32-bit searches from below v never pass a prime from 5 up if and only if v <= 46337 |
| FermatBases.SearchPassesPrime | include/HashMap.c:46-57 | from 46337 a 32-bit search may return 46351, past the prime 46349 |
| Probing.ProbeClosedForm | include/HashMap.c:100-122 | the index after i steps is (key % size + i * step) % size |
| Probing.FirstSlotAndStep | include/HashMap.c:100-101 | the first slot is the key modulo the size, the step the key modulo size - 2, plus 1 |
| Probing.ProbeCollision | include/HashMap.c:100-122 | two rounds meet in a slot exactly when they lie a multiple of size/gcd(step,size) apart |
| Probing.OrbitSize | include/HashMap.c:100-122 | a full loop looks at exactly size/gcd(step,size) different slots, gcd being the greatest common divisor |
| Probing.PrimeOrbitIsEverySlot | include/HashMap.c:5-6 | for a prime size the probes are a permutation of all slots |
| Probing.LargeTableOrbit | include/HashMap.c:100-127 | once the size has outgrown the keys every orbit is longer than count |
| HashTable.LookupAfterPut | include/HashMap.c:105-120 | in every table, Get right after an insertion returns the data exactly if that is null or no active null entry comes before the slot |
| HashTable.LookupAfterRemove | include/HashMap.c:132-162 | in every table, Remove returns what Get would have, and Get then returns null, even if another copy of the key is active |
| HashTable.LookupExactly | include/HashMap.c:171-188 | in every table: Get stops in the first round whose slot carries the key, active or not, or holds null data, and returns the data only of an active slot with the key |
| HashTable.RemoveExactly | include/HashMap.c:139-161 | in every table: Remove deactivates exactly that slot if its data is not null, keeping data and key, and changes nothing else |
| HashTable.EmptyFindsNothing | include/HashMap.c:166-166 | the shortcut on count 0 hides no key |
| HashTable.PutClean | include/HashMap.c:103-120 | an unobstructed insertion keeps one active copy per key, reachable along its path |
| HashContents.InsertStepSound | include/HashMap.c:91-130 | insertion, rehashes included, keeps soundness, and Get then returns the data |
| HashContents.InsertStepReadBack | include/HashMap.c:91-130 | the exact read-back condition, through any rehashes |
| HashContents.InsertStepExactly | include/HashMap.c:91-130 | the size stays exactly if not all slots are taken and some round fits, and then only the slot of the first fitting round is written; otherwise it more than doubles |
| HashContents.InsertStepClean | include/HashMap.c:91-130 | into a clean table Get always sees the map update; the table stays clean, and count equals the map's size, exactly if nothing inactive came before a present key |
| HashContents.RemoveModel | include/HashMap.c:132-162 | removal deletes one key from the map and returns its data |
| HashContents.RehashSound | include/HashMap.c:59-73 | a rehash turns every sound table into a clean one with nothing in any key's way |
| HashContents.RehashModel | include/HashMap.c:59-73 | a rehash keeps the map and count of a clean table and leaves no tombstone |
| HashContents.RehashOnlyUnobstructed | include/HashMap.c:95-127 | whenever insertion has to rehash a clean table, the key was not obstructed |
| HashContents.PrimeSizeAlwaysPlaces | include/HashMap.c:125-127 | with a prime size and room left the fallback rehash is not reached |
| HashContents.LargeTableAlwaysPlaces | include/HashMap.c:98-129 | prime or not, a table larger than (maxKey+1)*total always has a slot on the path |
| HashContents.PrimeSizePlacesAll | include/HashMap.c:68-70 | a rehash into a larger prime size places all entries without another search |
| TableSizes.FirstSizeLasts | include/HashMap.c:59-70 | a table ends with the first size found, unless that is composite and blocked for one of the keys |
| TableSizes.DefaultSizeGrows | include/HashMap.c:59-70 | from 1021 the first size found lies between 2043 and 2053, and stays if it is prime |
| HashMaps.HashMap.constructor | include/HashMap.c:84-88 | an empty map of the given size |
| HashMaps.Create | include/HashMap.c:75-89 | 1021 slots, or the first size accepted above startsize - 2 on the random numbers given; comes back if that is below the limit, and never if the random numbers fail every candidate |
| HashMaps.HashMap.TryPlace | include/HashMap.c:100-123 | one pass writes the first fitting slot of the path and keeps count, or changes nothing |
| HashMaps.HashMap.InsertBounded | include/HashMap.c:91-130 | if it comes back it has performed InsertStep, freed exactly the superseded tables, and reached its size by the searches it had to make; if not, a search from the present size or a composite one, within the key bound and not below the limit, did not end; without room it never comes back if the random numbers fail every candidate |
| HashMaps.HashMap.Rehash | include/HashMap.c:59-73 | a packed table with the same entries, the old one freed once; its size is the one found for twice the old size, unless that is blocked for one of the keys; if all slots, taken from the last to the first, find a place in that size, the table is laid out by exactly these insertions |
| HashMaps.HashMap.Insert | include/HashMap.c:91-130 | a full table always grows to more than twice its size, by the searches it had to make; comes back with exact products (idealised) always, in 32 bits if there is room on the path or a key bound keeps the sizes below the limit, and never if it is held up; exact read-back; map update and the exact condition for a clean result |
| HashMaps.HashMap.Remove | include/HashMap.c:132-162 | table, count and result as specified |
| HashMaps.HashMap.Get | include/HashMap.c:164-189 | returns the lookup along the path |
| HashMaps.HashMap.Contains | include/HashMap.c:191-216 | true exactly if the path leads to the key, and in agreement with Get exactly if the slot found does not hold null |
| HashMaps.HashMap.Count | include/HashMap.c:218-221 | the number of active slots, never above size; the map's size if the table is clean |
| HashRuns.ReadBackLaws | include/HashMap.c:91-221 | every history, null data included: the exact conditions for Get after Insert and for Contains against Get, Get after Remove, Count against size |
| HashRuns.NonNullHistoryHidesNothing | include/HashMap.c:91-221 | a history of non-null data never hides a key, so every insert reads back and Contains agrees with Get |
| HashRuns.RunRepresents | include/HashMap.c:91-221 | while inserts are unobstructed every table represents the finite map and every result is the map's |
| HashRuns.RefinesMapExactlyWhenUnobstructed | include/HashMap.c:105-120 | tables represent the map, and count has its size, if and only if no insert was obstructed |
| HashRuns.DisciplinedRunsAreMaps | include/HashMap.c:91-221 | a caller who inserts only absent keys, or inserts before removing, gets a finite map |
| HashRuns.Perform | include/HashMap.c:91-221 | the methods make exactly the calls the runs are made of |
| HashRuns.PerformAll | include/HashMap.c:91-221 | any sequence of calls is a run; in either width as many calls as slots come back if the size is prime |
| HashBoundaries.StaleValueComesBack | include/HashMap.c:105-120 | the run in which a removed key comes back with an old value |
| HashBoundaries.ShowStaleValue | include/HashMap.c:75-221 | performs that run on a newly created map of the default size |
| HashBoundaries.NullDataHidesLaterKeys | include/HashMap.c:180-182 | a run in which null data hides the key stored behind it |
| HashBoundaries.RehashKeepsLowestCopy | include/HashMap.c:68-70 | of several active copies a rehash keeps the one in the lowest slot |
| HashBoundaries.CompositeSizeCanBeStuck | include/HashMap.c:125-127 | for every size with a proper divisor a packed table and a key without a slot, although slots are free |
| HashBoundaries.FallbackUnreachableExactlyForPrimes | include/HashMap.c:125-127 | for sizes from 3: every packed table with room has a slot for every key if and only if the size is prime |
| HashBoundaries.StuckSizeReturnedExactly | include/HashMap.c:46-57 | for n >= 5: the search may return n, and a packed table of n slots with room may be stuck, if and only if n is composite and no power of 3 |
| HashBoundaries.StuckTableIsReached | include/HashMap.c:91-127 | the run of insertions into an empty table that ends in the stuck one |
| HashBoundaries.SearchMayReturnStuckSize | include/HashMap.c:46-57 | the least of them: a search from 14 may return 15, and a packed table of 15 slots may be stuck |
| HashBoundaries.InsertionSureExactlyWithRoom | include/HashMap.c:91-130 | in 32 bits, for tables from 32761 slots up: no random numbers hold an insertion up if and only if its path has room |
| HashBoundaries.InsertWithConstantDraws | include/HashMap.c:91-130 | if rand always gives 65534, an insertion into 32769 slots or more comes back, however long one waits, if and only if its path has room |
| GcAlloc.PopKeepsWellFormed | include/gc/new_gc_alloc.h:193-199 | taking the head keeps every list linked, disjoint and complete |
| GcAlloc.PushKeepsWellFormed | include/gc/new_gc_alloc.h:224-229 | giving an object back keeps every list linked, disjoint and complete |
| GcAlloc.FreeListsAreSafe | include/gc/new_gc_alloc.h:184-316 | after every run with matching frees, the collector adding and taking objects at will, the lists are acyclic, disjoint, free of live objects, and cleared if normal |
| GcAlloc.AllocationIsExclusive | include/gc/new_gc_alloc.h:186-200 | no allocation hands out a held object, and no call of another changes one |
| GcAlloc.AllocationIsLargeEnough | include/gc/new_gc_alloc.h:110-200 | what an allocation hands out has at least the bytes asked for; up to 255 bytes one more if collectable, and at most 8 more than asked |
| GcAlloc.AllocateUndoesDeallocate | include/gc/new_gc_alloc.h:186-231 | freeing and allocating one class gives the object back and restores the lists; beyond the first word it is cleared if normal and kept otherwise |
| GcLedger.BytesAreConserved | include/gc/new_gc_alloc.h:157-315 | over every run reported plus pending bytes are the sizes of the objects moved, and GC_non_gc_bytes changes by the reported traceable part; objects of class 0 are not counted |
| GcLedger.FastCallCounts | include/gc/new_gc_alloc.h:186-315 | in every heap with well-formed lists, which all runs keep, a fast call changes one counter, by the size of its object, which is the least multiple of 8 above n (at least n if traceable); by nothing for a traceable request of 0 bytes |
| GcLedger.SlowPathClearsPending | include/gc/new_gc_alloc.h:157-196 | a call that finds its list empty leaves nothing pending and the totals exact |
| GcLedger.CountersMeasureFreeLists | include/gc/new_gc_alloc.h:184-315 | bytes counted freed minus bytes counted allocated, plus what the collector supplied, are the sizes of the objects lying on the free lists, those of class 0 left out |
| GcAllocator.Allocator.Allocate | include/gc/new_gc_alloc.h:186-285 | performs the allocation step on lists and counters; FastCallCounts says by how many bytes |
| GcAllocator.Allocator.Deallocate | include/gc/new_gc_alloc.h:216-315 | performs the release on lists and counters; FastCallCounts says by how many bytes |
| GcAllocator.Allocator.OutOfLineMalloc | include/gc/new_gc_alloc.h:157-175 | reports, then hands out a new object |
| GcAllocator.Allocator.Supply | include/gc/new_gc_alloc.h:174-174 | a list refilled by the collector: one new object in front, no counter touched |
| GcInline.NeverMisread | include/gc/gc_inline.h:102-116 | the word is read as a pointer exactly when it heads a nonempty list, as a counter exactly when direct allocations are left |
| GcInline.TinyRunIsSafe | include/gc/gc_inline.h:80-133 | over every run the word keeps its meaning and counts to at most num_direct + GC_TINY_FREELISTS; use k (from 0) is direct exactly if k * (granules + 1) < num_direct, and advances the word by granules + 1 |
| GcInline.LargeRequestIsDefault | include/gc/gc_inline.h:94-95 | a request of GC_TINY_FREELISTS granules or more answers with the default expression and changes nothing; a smaller one does so only while the word counts |
| GcInline.ObjectsAreDistinct | include/gc/gc_inline.h:101-131 | no object is handed out twice |
| GcInline.TinyFreeList.FastMalloc | include/gc/gc_inline.h:91-133 | performs one use of the macro in at most two rounds of its loop; a request of GC_TINY_FREELISTS granules or more changes nothing |
| NovaArrays.BlockCount | include/Nova.c:98-113 | the number of blocks is the sum of the prefix products of the dimensions |
| NovaArrays.AllocationsPerDimension | include/Nova.c:98-113 | for every dimension as many allocations as the dimensions up to it multiply to |
| NovaArrays.WithinExactlyWhenFits | include/Nova.c:102-110 | all stores, recursive ones included, stay inside their blocks if and only if the first block is long enough and Fits holds |
| NovaArrays.FitsWhenNonIncreasing | include/Nova.c:102-110 | with pointer-sized elements the writes stay in bounds exactly if no reached dimension exceeds the one before |
| NovaArrays.EachReleasedOnce | include/Nova.c:115-132 | the release touches every block below exactly once |
| NovaArrays.LeavesAreDeleted | include/Nova.c:119-130 | the delete callback gets exactly the blocks of the last dimension, in order; all others are freed |
| NovaMemory.FreeUndoesGen | include/Nova.c:98-132 | releasing with the same arguments is possible and undoes the generation |
| NovaMemory.Memory.GenArray | include/Nova.c:98-113 | for any dimensions the stores and the allocations made, in order, each allocation for a whole row and answered by a new block of that size; if all stores are within their blocks, new and distinct blocks and nothing else changed |
| NovaMemory.Memory.FreeArray | include/Nova.c:115-132 | removes exactly the blocks below, in order, never touching one that is gone |
| ArrayCopy.Copy | include/Nova.c:48-82 | the bytes after each branch; nothing changes for equal positions in one array |
| ArrayCopy.OpensGap | include/Nova.c:65-72 | opening a gap moves the tail up |
| ArrayCopy.ClosesGap | include/Nova.c:73-76 | closing it moves the tail down and writes one byte more |
| ArrayCopy.CloseUndoesOpen | include/Nova.c:63-76 | closing after opening restores the elements |
| LineReader.LineIsUpToNewline | include/Nova.c:22-22 | the line is the longest newline-free stretch |
| LineReader.Ufgets | include/Nova.c:11-37 | the line with a terminator, one reallocation for every 128 characters, the stream behind the newline |
| ByteOrder.LoadAfterStore8 | include/nova_mysql/byte_order_generic.h:56-97 | reading back what was stored gives the value |
| ByteOrder.StoreAfterLoad8 | include/nova_mysql/byte_order_generic.h:56-97 | storing back what was read changes nothing |
| ByteOrder.SignedLoadAfterStore | include/nova_mysql/byte_order_generic.h:20-97 | signed 16-, 32- and 64-bit values survive store and load |
| ByteOrder.LittleEndian | include/nova_mysql/byte_order_generic.h:38-69 | a single byte at position j counts 256^j |
| ByteOrder.Int2Store | include/nova_mysql/byte_order_generic.h:76-81 | the two bytes in place, the rest of the buffer unchanged, and reading them back gives the value |
| ByteOrder.Int4Store | include/nova_mysql/byte_order_generic.h:83-89 | the four bytes in place, the rest of the buffer unchanged, and reading them back gives the value |
| ByteOrder.Int8Store | include/nova_mysql/byte_order_generic.h:91-97 | the two halves in place, the rest of the buffer unchanged, and reading them back gives the value |
| TrailingSpace.TrimEndIsLastNonSpace | include/nova_mysql/m_string.h:292-295 | the plain scan stops behind the last byte that is no space |
| TrailingSpace.EightSpaces | include/nova_mysql/m_string.h:339-339 | the eight-byte comparison holds exactly for eight spaces |
| TrailingSpace.WordOfSpaces | include/nova_mysql/m_string.h:321-321 | the aligned word comparison holds exactly for a word of spaces |
| TrailingSpace.SkipTrailingSpace | include/nova_mysql/m_string.h:334-346 | equals the plain scan |
| TrailingSpace.SkipTrailingSpaceAligned | include/nova_mysql/m_string.h:297-327 | with the literal SPACE_INT equals the plain scan for every length and alignment, reading only inside the string |

## Left out

- Integer widths outside the primality test: table sizes, counts and byte counters are unbounded; `size << 1` passed as an `int` to the search truncates for sizes from 2^30, which is not modelled.
- PrimeSearch.FindPrimeGreaterThan: for 32-bit arguments from 46337 to 65520 neither an end nor its failure is proved; FermatBases.MayNotEndUnlessPrime reduces the question to the primes from 46351 to 65521.
- HashBoundaries.InsertionSureExactlyWithRoom: is stated from 32761 slots up. For smaller tables HashMaps.HashMap.Insert gives conditions that suffice: from 23169 slots for the reason just named, below that because a nested rehash may reach a larger composite size, which depends on the entries.
- HashRuns.RefinesMapExactlyWhenUnobstructed: is stated for histories of non-null data; for the others HashRuns.ReadBackLaws gives the exact read-back conditions.
- Negative start sizes of hashmapCreate, which the C code turns into huge unsigned candidates.
- hashmapDelete: it only frees the two blocks.
- Allocation failure in the hash map, in ufgets and in the array helpers.
- The collector itself: it appears as a source of objects nobody holds, which it hands out, puts on the lists or takes off them.
- GcInline.TinyFreeList.MallocMany: provides one object or none at a time; the relation the runs are built on allows any list.
- GC_MALLOC_WORDS_KIND, GC_CONS and the granule rounding, which only choose arguments for the macro.
- Use of the C standard's freedom on overlapping memcpy in arrayCopy: section 7.24.2.1 of C11 leaves it undefined, the model reads before it writes.
- NovaMemory.Memory.FreeArray: the delete callback is taken to release the block it is given and nothing else.
- copy_string and nova_get_funcStruct1 to 3: straight-line code.
- include/ExceptionHandler.h, include/NovaExceptionHandling.c, include/LibNovaThread.c, nova/ and include/tinydir.h: platform calls with little logic of their own.
- include/curl and the rest of include/nova_mysql and include/gc: declarations without bodies.
