# Verification of the wg14_signals containers and lock

This project models the three implementation headers on which the signal library keeps its global
state, and proves what they promise:

- **Verstable** (`include/wg14_signals/detail/impl/verstable.h`), the open-addressing hash table
  behind the thread-id map and the signal map. The keys of one home bucket form a chain, threaded
  through an 11-bit link in the metadata and ordered by triangular displacement. Insertion may evict
  a key, erasure moves the last key of a chain into the hole, rehashing doubles until all keys fit,
  and iteration reads four metadata at a time.
- **The intrusive list** of global deciders (`include/wg14_signals/detail/impl/linked_list.h`).
- **The spinlock** (`include/wg14_signals/detail/impl/lock_unlock.h`).

It also models how global deciders are registered, called and destroyed under that lock
(`include/wg14_signals/detail/impl/thrd_signal_handle_common.ipp.ipp` and
`include/wg14_signals/detail/impl/thrd_signal_handle_posix.c.ipp`), for a signal that stays installed.

The main results: every run of table operations answers as a plain map does, and fails only when a request
for memory is refused (`Runs.Run`); while at most 2046 keys are held, every reply and every request follows
from the operations and the answers of the allocator (`Runs.RunDetermined`); a pass that erases while it
iterates visits every key once (`Iteration.EraseWhileIterating`); insertion is refused, and memory requested,
exactly under a condition on the table before the call (`Tables.Table.Insert`);
triangular probing is a permutation, so the displacement limit is unreachable below 2047 keys
(`Keyed.NeverExhausted`); and under every interleaving of any number of threads the list is the one
that the updates they asked for leave in acquisition order, in the call order that the proposed wording
demands (`Spinlock.SerializedUpdates`). Raises that call deciders without the lock, while others register
and destroy deciders, never call one that was freed, and each calls the deciders that stay registered once,
in that order (`Raises.CallsAreSafe`, `Raises.RaiseCallsAll`, `Raises.ListInCallOrder`).

One promise does not hold, and the project says exactly when. `NAME_evict` cuts a key out of its chain
before it looks for a bucket to move it to. If there is none and `NAME_rehash` then cannot allocate,
the key stays stored and counted but no lookup finds it (`Stray.RefusedEvictionHidesKey`, with the
example `Stray.CrowdedTable`). A failed insertion leaves the table valid if and only if the load limit
was reached or the home bucket of the new key begins a chain (`Tables.Table.Insert`).

The same table shows the limit of the promise of `NAME_reserve`, that no rehash is needed for the
reserved number of keys: it holds for up to 2047 keys (`Runs.ReserveThenInsert`), and beyond that exactly
as long as no probe path is exhausted (`Tables.Table.Insert` states the condition).

## Layout

| file | content |
|---|---|
| `Probing.dfy` | powers of two, triangular numbers, the probe permutation |
| `Bits.dfy`, `Hashing.dfy`, `Metadata.dfy`, `Lanes.dfy` | masks and shifts as arithmetic, the integer hash, the packed metadatum, the first nonzero lane of four |
| `Chains.dfy` | the chains as a structure of their own: the invariant and the primitive updates that keep it |
| `Keyed.dfy` | chains with keys: the map they stand for, eviction, erasure, counting, scanning |
| `Tables.dfy` | the table object, its arrays and its operations |
| `Iteration.dfy`, `Runs.dfy`, `Stray.dfy` | whole passes, whole runs, the unreachable key |
| `DeciderOrder.dfy`, `LinkedLists.dfy` | the call order, the list over heap nodes |
| `ListMemory.dfy`, `Spinlock.dfy` | the list macros as single assignments, the lock as a step protocol |
| `Walks.dfy` | walks along a list of deciders that changes while they are under way |
| `Registry.dfy`, `Raises.dfy` | reference-counted deciders under concurrent raises, step by step; whole behaviours |

The table object carries a ghost `model`: the metadata, the home and displacement of the key in each
bucket, the entries, and the bucket of each key. `Valid()` ties it to the arrays. `Walkable()` allows
one stray key, `Scannable()` says nothing about links; `NAME_rehash` needs no more than that. Integers
are unbounded; hashes are numbers below 2^64, and masking with `bucket_count - 1` is reduction modulo
the bucket count (`Bits.MaskIsModulo`). The load factor 0.9 is nine tenths, which agrees with the double
comparison for every bucket count below 2^52 (`Tables.LoadLimitIsNineTenths`). The hash and comparison
functions are parameters (comparison is equality). So is the allocator: its answer may depend on the size of
a request and on how many came before, and beyond some limit it is a refusal. `Doublings` and `Grown` say
which requests an operation made and how they were answered; their `small` holds, for each request that was
granted in vain, the crowded table that shows why.

## Model

| member | source | states |
|---|---|---|
| Probing.SlotLaw | include/wg14_signals/detail/impl/verstable.h:467-473 | twice the offset of a probe from home is d(d + 1), modulo twice the bucket count, for every bucket count |
| Probing.SlotStep | include/wg14_signals/detail/impl/verstable.h:1019-1029 | each probe lies its displacement further on than the one before it: the running sum of the loop is the closed form |
| Probing.TriangularInjective | include/wg14_signals/detail/impl/verstable.h:467-473 | for a power-of-two bucket count, distinct displacements below it give distinct (home + (d*d + d)/2) mod count |
| Probing.TriangularSurjective | include/wg14_signals/detail/impl/verstable.h:467-473 | these reach every bucket from any home, at a displacement below the bucket count |
| Bits.SlotIsMasked | include/wg14_signals/detail/impl/verstable.h:470-473 | for a power-of-two bucket count the probe is home + (d*d + d)/2 masked with count - 1 |
| Bits.MaskIsModulo | include/wg14_signals/detail/impl/verstable.h:1140 | masking with 2^k - 1 is reduction modulo 2^k, for every number |
| Metadata.EncodeDecode | include/wg14_signals/detail/impl/verstable.h:452-458 | the packed metadatum is a bijection between records and 16-bit words |
| Metadata.MasksReadFields | include/wg14_signals/detail/impl/verstable.h:453-456 | the three masks extract link, flag and fragment from the packed word |
| Metadata.MaskedLink | include/wg14_signals/detail/impl/verstable.h:1081-1083 | clearing and or-ing a link changes the link and nothing else |
| Metadata.OrEndsChain | include/wg14_signals/detail/impl/verstable.h:1549 | or-ing the displacement mask ends the chain there and changes nothing else |
| Metadata.FragAndLink | include/wg14_signals/detail/impl/verstable.h:1098-1099 | the word written for an evicted key has its fragment, no flag, and the link of its predecessor |
| Metadata.CopiedFrag | include/wg14_signals/detail/impl/verstable.h:1546-1547 | the swap in erasure replaces the fragment and nothing else |
| Metadata.HashFragMask | include/wg14_signals/detail/impl/verstable.h:462-465 | vt_hashfrag is the top four bits of the hash, in place |
| Hashing.HashSteps | include/wg14_signals/detail/impl/verstable.h:544-550 | vt_hash_integer, step by step: bit by bit the two xor-shifts by 23 and 47, around the 64-bit product with its constant |
| Hashing.HashInverse | include/wg14_signals/detail/impl/verstable.h:544-550 | vt_hash_integer has a two-sided inverse on 64-bit words |
| Hashing.HashInjective | include/wg14_signals/detail/impl/verstable.h:544-550 | distinct integer keys have distinct hashes |
| Lanes.FirstNonzero | include/wg14_signals/detail/impl/verstable.h:516-531 | the portable routine returns the least nonzero lane |
| Lanes.LittleEndianScan | include/wg14_signals/detail/impl/verstable.h:483-490 | counting trailing zeros of the little-endian word gives the same lane |
| Lanes.BigEndianScan | include/wg14_signals/detail/impl/verstable.h:483-490 | counting leading zeros of the big-endian word gives the same lane |
| Chains.UnlinkKeeps | include/wg14_signals/detail/impl/verstable.h:1081-1083 | taking a key out between its neighbours keeps all chains well formed |
| Chains.LinkKeeps | include/wg14_signals/detail/impl/verstable.h:1230-1239 | linking a key at an empty bucket in displacement order keeps all chains well formed |
| Chains.BeginKeeps | include/wg14_signals/detail/impl/verstable.h:1156-1160 | a new chain at an empty home bucket keeps all chains well formed |
| Chains.VacateKeeps | include/wg14_signals/detail/impl/verstable.h:1484-1495 | removing the only key of a chain leaves no key without its home |
| Chains.FlagMeansHome | include/wg14_signals/detail/impl/verstable.h:8-14 | the flag is set exactly when the key sits in its own home bucket |
| Chains.WalkVisits | include/wg14_signals/detail/impl/verstable.h:1440-1461 | following links visits strictly increasing displacements and ends at 0x7FF |
| Chains.ChainVisitsHome | include/wg14_signals/detail/impl/verstable.h:1437-1461 | the walk from a flagged home visits exactly the buckets whose keys have that home, each once |
| Keyed.HomeIsMasked | include/wg14_signals/detail/impl/verstable.h:1140 | for a power-of-two bucket count the home bucket is the hash masked with count - 1 |
| Keyed.OccupiedCount | include/wg14_signals/detail/impl/verstable.h:1162 | the number of keys is the number of occupied buckets |
| Keyed.NeverExhausted | include/wg14_signals/detail/impl/verstable.h:1009-1030 | with an empty bucket and at most 2046 keys, probing from an occupied home finds an empty bucket |
| Keyed.ReattachKeyed | include/wg14_signals/detail/impl/verstable.h:1085-1103 | relinking an evicted key keeps the map, all chains, and every link outside its own chain |
| Keyed.EraseInner | include/wg14_signals/detail/impl/verstable.h:1532-1560 | swapping the last key of the chain into the hole removes exactly the erased key, empties exactly one bucket and moves only that last key |
| Keyed.EraseLast | include/wg14_signals/detail/impl/verstable.h:1511-1530 | cutting off the last key removes exactly it and moves no key |
| Keyed.AheadErased | include/wg14_signals/detail/impl/verstable.h:1552-1559 | erasure moves no key across the iterator, in either direction |
| Keyed.ScanLists | include/wg14_signals/detail/impl/verstable.h:1576-1596 | the reference scan lists each occupied bucket once, by index |
| Tables.LoadLimitIsNineTenths | include/wg14_signals/detail/impl/verstable.h:1148-1150 | the double comparison with MAX_LOAD is the comparison with nine tenths |
| Tables.Table.FindFirstEmpty | include/wg14_signals/detail/impl/verstable.h:1009-1030 | finds the first empty bucket on the triangular probe path, below the bucket count; fails exactly if there is none below the limit |
| Tables.Table.FindInsertLocation | include/wg14_signals/detail/impl/verstable.h:1036-1052 | ends at the key of the chain whose link crosses the new displacement |
| Tables.Table.FindPredecessor | include/wg14_signals/detail/impl/verstable.h:1067-1079 | ends at the key that links to the given one |
| Tables.Table.Disconnect | include/wg14_signals/detail/impl/verstable.h:1081-1083 | after the cut all keys are still stored and counted, every other key is reachable, other chains are untouched |
| Tables.Table.Evict | include/wg14_signals/detail/impl/verstable.h:1065-1103 | succeeds exactly if the probe path of the evicted key has an empty bucket; then only that key moves, to a bucket that was empty, and only its chain changes; on failure the scanned contents are unchanged |
| Tables.Table.InsertRaw | include/wg14_signals/detail/impl/verstable.h:1128-1250 | fails exactly if the key is absent and the load or the probe path refuses it; otherwise inserts, replaces or finds, moving at most the key that was in the home bucket; a failure changes no key and strays a key exactly if an eviction had begun |
| Tables.Table.Search | include/wg14_signals/detail/impl/verstable.h:1178-1215 | the walk with fragment skips finds the key exactly if it is reachable |
| Tables.Table.Get | include/wg14_signals/detail/impl/verstable.h:1426-1462 | finds a key exactly if it is in the map, and its iterator points to its value; in a table with a stray key, all but that key |
| Tables.Table.Transfer | include/wg14_signals/detail/impl/verstable.h:1302-1317 | the scan carries over the whole map, or it stops short, and then exhibits the crowded table that refused a key |
| Tables.NeverTooSmall | include/wg14_signals/detail/impl/verstable.h:1319-1344 | up to 2047 keys that respect the load limit, no table refuses a key, so that no rehash stops short |
| Tables.Table.Rehash | include/wg14_signals/detail/impl/verstable.h:1268-1346 | from a merely scannable table: one request for the given count and one for each doubling; each count but the last was granted and shown to be too small; it succeeds exactly if the last was granted, and then gives a valid table with the same map and that count; failure changes nothing; up to 2047 keys there is one request; the doubling terminates |
| Tables.Table.Grow | include/wg14_signals/detail/impl/verstable.h:1378-1382 | requests twice the bucket count, or 8 from none, and up from there while that is too small; fails exactly if the last request was refused; success makes room below the load limit |
| Tables.Table.Insert | include/wg14_signals/detail/impl/verstable.h:1355-1387 | the map update; memory is requested exactly if the key is absent and refused, in the amounts of Grow; it fails exactly if the last request was refused; up to 2046 keys there is one request at most; after a failure the table is valid exactly under a stated condition |
| Tables.Table.GetOrInsert | include/wg14_signals/detail/impl/verstable.h:1391-1423 | adds the key only if it is absent, requests no memory for a present one and as Insert does for an absent one, fails exactly if the last request was refused, and returns the value in the map |
| Tables.Table.SmallTableNeverBlocked | include/wg14_signals/detail/impl/verstable.h:1218-1228 | below the load limit and with at most 2046 keys no insertion is refused |
| Tables.Table.EraseRaw | include/wg14_signals/detail/impl/verstable.h:1473-1562 | removes exactly that key, empties one bucket, moves at most one key, and tells whether the iterator should advance |
| Tables.Table.Erase | include/wg14_signals/detail/impl/verstable.h:1566-1574 | the map without the key; true exactly if it was there |
| Tables.Table.FastForward | include/wg14_signals/detail/impl/verstable.h:1578-1596 | reading four metadata at a time stops at the first occupied bucket or the stopper, within the four excess metadata |
| Tables.Table.First | include/wg14_signals/detail/impl/verstable.h:1656-1664 | all keys are ahead of the first iterator; it is at the end exactly for the empty map |
| Tables.Table.Next | include/wg14_signals/detail/impl/verstable.h:1598-1604 | passes over the key under the iterator and no other |
| Tables.Table.EraseItr | include/wg14_signals/detail/impl/verstable.h:832-838 | the keys ahead afterwards are those before, without the erased one |
| Tables.MinBucketCount | include/wg14_signals/detail/impl/verstable.h:1608-1619 | the least power of two, at least 8, that takes the given number of keys |
| Tables.Table.Reserve | include/wg14_signals/detail/impl/verstable.h:1621-1629 | success makes room for the given number of keys and keeps the map; nothing happens if there is room; else the least sufficient count is requested, and more only while that is too small; fails exactly if the last request was refused, and then changes nothing |
| Tables.Table.Shrink | include/wg14_signals/detail/impl/verstable.h:1631-1654 | keeps the map; leaves no buckets for no keys, and the table alone if it has the least sufficient count; else that count is requested, and more only while it is too small; fails exactly if the last request was refused, and then changes nothing |
| Tables.Table.Clear | include/wg14_signals/detail/impl/verstable.h:1666-1687 | a valid table with the empty map, from any scannable one |
| Iteration.Enumerate | include/wg14_signals/detail/impl/verstable.h:1576-1604 | first and next list what a bucket-by-bucket scan lists, in that order |
| Iteration.EraseWhileIterating | include/wg14_signals/detail/impl/verstable.h:824-838 | a pass that erases an arbitrary set of keys visits each initial key once and leaves exactly the others |
| Runs.Perform | include/wg14_signals/detail/impl/verstable.h:1355-1687 | each operation is one step of a plain map that also counts buckets and requests: which request, if any, decides every reply |
| Runs.Run | include/wg14_signals/detail/impl/verstable.h:1355-1687 | every run from an empty table has a run of such a plain map with the same replies, contents, bucket counts and requests; out of memory means a refused request; it is cut short only at 2047 keys or more |
| Runs.RunDetermined | include/wg14_signals/detail/impl/verstable.h:1355-1687 | while at most 2046 keys are held, all replies, bucket counts and requests follow from the operations and the answers of the allocator, whatever the hash function |
| Runs.ReserveThenInsert | include/wg14_signals/detail/impl/verstable.h:1621-1629 | a reservation (2047 keys at most) succeeds exactly if there was room or its one request was granted; then insertions up to that many keys succeed without a request |
| Stray.RefusedEvictionHidesKey | include/wg14_signals/detail/impl/verstable.h:1081-1089 | for every table in which an eviction has nowhere to go, the key to be evicted stays in the map but is not found |
| Stray.CrowdedTable | include/wg14_signals/detail/impl/verstable.h:1081-1089 | a concrete valid table, with 2047 keys in 4096 buckets, in which that happens |
| DeciderOrder.CallOrder | docs/proposed-wording.md:261 | after any history the list is the live front insertions newest first, then the live back insertions oldest first |
| DeciderOrder.FromWithout | include/wg14_signals/detail/impl/linked_list.h:59-79 | removing another node drops exactly that node from what a walker has still to visit |
| LinkedLists.List.InsertFront | include/wg14_signals/detail/impl/linked_list.h:27-41 | the node comes first; the list is well linked exactly if it was not empty or the links of the node were null |
| LinkedLists.List.InsertBack | include/wg14_signals/detail/impl/linked_list.h:43-57 | the node comes last, under the same condition |
| LinkedLists.List.Remove | include/wg14_signals/detail/impl/linked_list.h:59-79 | removes exactly the node, keeps both directions linked, and leaves the links of the node null |
| LinkedLists.List.NodesInCallOrder | docs/proposed-wording.md:261 | the heap list is at all times in the call order of its history |
| LinkedLists.List.Walk | include/wg14_signals/detail/impl/linked_list.h:27-79 | following next from a node visits the rest of the list in order |
| LinkedLists.List.RemoveDuringWalk | include/wg14_signals/detail/impl/linked_list.h:59-79 | removal while a walker is at another node drops that node from the walk, and no other |
| LinkedLists.Retire | include/wg14_signals/detail/impl/thrd_signal_handle_posix.c.ipp:475-483 | moving a node from one list to the back of another, empty or not, keeps both well linked |
| ListMemory.UpdateRepresents | include/wg14_signals/detail/impl/linked_list.h:27-79 | assignment by assignment, each macro runs without a null dereference or a failing assertion and leaves the updated list |
| ListMemory.SerialRepresents | include/wg14_signals/detail/impl/linked_list.h:27-79 | macros run one after the other leave the list that their history replays to |
| Spinlock.InvariantStep | include/wg14_signals/detail/impl/lock_unlock.h:33-61 | every step of every thread, spurious failures included, keeps the protocol invariant |
| Spinlock.MutualExclusion | include/wg14_signals/detail/impl/lock_unlock.h:33-61 | in every reachable state at most one thread is inside, the word is 1 exactly if one is, and the assertion of UNLOCK has not failed |
| Spinlock.StepsTell | include/wg14_signals/detail/impl/lock_unlock.h:33-61 | from the steps alone: who holds the lock, which update each thread carries, and that the log is, in the order of acquisitions and continuations, what the acquiring threads had asked for |
| Spinlock.SerializedUpdates | include/wg14_signals/detail/impl/lock_unlock.h:33-61 | whenever the lock is free, the list is the one that these updates leave serially, and in the promised call order |
| Spinlock.WaiterCanEnter | include/wg14_signals/detail/impl/lock_unlock.h:33-61 | from every reachable state, every waiting thread can still get the lock: there is no deadlock |
| Registry.StepKeeps | include/wg14_signals/detail/impl/thrd_signal_handle_posix.c.ipp:460-495 | every stretch of code under the lock (creating, pinning, unpinning, destroying) keeps the counts exact, the three collections disjoint and every called decider registered |
| Registry.NextCall | include/wg14_signals/detail/impl/thrd_signal_handle_posix.c.ipp:456-494 | a raise begins with the first decider; after a call it ends exactly if that decided or nothing is behind it in the list, and else calls the next one; other raises are not touched |
| Raises.CallsAreSafe | include/wg14_signals/detail/impl/thrd_signal_handle_posix.c.ipp:460-495 | in every reachable state a decider that is being called is registered, neither freed nor waiting to be; its count is its handle plus its callers |
| Raises.ListInCallOrder | include/wg14_signals/detail/impl/thrd_signal_handle_common.ipp.ipp:746-760 | in every behaviour, with raises under way, the registered deciders are those created to be called first, newest first, then the others, oldest first, less those that have left |
| Raises.RaiseOnCourse | include/wg14_signals/detail/impl/thrd_signal_handle_posix.c.ipp:456-494 | at any time, of the deciders registered ever since it began, a raise has called exactly those up to its present one, in list order, and none twice |
| Raises.RaiseCallsAll | docs/proposed-wording.md:261 | a raise that ends without a decision has called every decider that was registered in all states since it began, exactly once, in list order |
| Registry.NothingLost | include/wg14_signals/detail/impl/thrd_signal_handle_common.ipp.ipp:796-850 | no step loses a decider; each is registered, waiting or freed; only destruction frees: what waits, and the decider itself unless it is being called |

## Left out

- Operations on a table with a stray key other than lookup, rehash and clear: the source does not restore the chain, and its walks need not end there.
- NAME_init_clone, NAME_cleanup, key and value destructors, the context parameter and the byte layout of the allocation.
- vt_hash_string and user-supplied comparison functions: comparison is equality.
- Wrap-around of size_t in bucket counts, and bucket counts of 2^52 or more in the load check.
- Memory orders weaker than sequential consistency in LOCK and UNLOCK, and fairness among the spinning threads.
- Raises.CallsAreSafe: covers a signal that stays installed on POSIX; siguninstall with deciders left registered, sigdecider_abandon and the Windows variant are not modelled, and an address is not reused for a new decider.
- Raises.RaiseCallsAll: the walk is a walk of a sequence of deciders; that the links realise that sequence is `LinkedLists.List.Walk`.
- Guarded calls, thread-local deciders, the thread-local-storage protocol, and signal installation.
- Spinlock.SerializedUpdates: assumes that threads insert only nodes outside the list and remove only nodes inside it, as the macros demand.
