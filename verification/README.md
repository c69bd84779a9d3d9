# Rings, brigades, hooks and alignment of the Apache Portable Runtime, verified

The repository ships the APR headers. Most of them only declare functions; the algorithms whose bodies
are there live in macros, and these are what this project models and proves correct.

**Rings** (`apr_ring.h`) are circular doubly-linked lists whose links are fields of the elements and whose
head is a pair of pointers disguised as one more element, the sentinel. They are modelled three times, and
the three models are connected by proof:

- `LinkMemory` keeps the pointers as two maps and the macros as programs whose arguments are expressions.
  A macro argument is read again at every use, so `CONCAT(h1, h2)` really passes "the next of h2", not its
  value. `RingTheory` says what the programs do to rings, `Mirror` what exchanging `next` and `prev` does
  to programs and rings, `Consistency` what the consistency checks decide on a graph that may be corrupt.
- `RingObjects` has the macros as methods on linked, mutable objects, assignment by assignment. The
  contract of every method equates the pointers it leaves with the effect proved in the two modules above.
- `FlatMemory` has bytes and wrapping addresses, an entry at an offset in its element, and the sentinel as
  the head's address minus that offset; pointers are stored little end first. Every program of `LinkMemory`
  does the same thing there. `Placement` derives what that needs from structs that do not overlap.

**Bucket brigades** (`apr_buckets.h`): `Brigades` is a state machine over any number of brigades and
buckets, with the pointer assignments on one side and the books (which bucket is where) on the other, and
an invariant over all runs; `Effects` says of each operation what becomes of every brigade and bucket.
`Streams` says what a brigade carries. `Sweeps` specifies the loops that delete or move buckets while
iterating. `BrigadeObjects` has brigades of linked objects, with the macros, `apr_bucket_destroy`,
`apr_bucket_delete` and the loops as methods; its class invariant is that the heap has come about by a run
of that state machine. `ReferenceRing` is the headless ring that `apr_mmap.h` uses as a reference count.

**Hooks** (`apr_hooks.h`, `apr_optional_hooks.h`): `Hooks` has registration and the four loops that run the
registered functions, with the trace of calls made. **Alignment** (`apr_general.h`): `Align` has the
bit-mask arithmetic at any word width.

Where the code and its comments disagree the model follows the code:

- `apr_ring.h:221-222` and `apr_ring.h:238-239` warn against splicing next to the sentinel.
  The assignments work in every gap of the ring, the two at the sentinel and the one of an empty ring
  included, and SPLICE_HEAD and SPLICE_TAIL depend on it: `RingTheory.SpliceFillsGap`. The warnings are
  right where the place is given as text: `RingTheory.InsertBeforeFirstByName`, `InsertAfterLastByName`.
- `apr_buckets.h:1005` says that `apr_bucket_delete` removes a bucket from its brigade "if any". It does for a
  bucket whose own pointers form a loop. A bucket that was removed keeps its old pointers, and deleting
  it writes through them: `Brigades.StaleDeleteUnlinksOther` shows a brigade losing another bucket that way.
  `Brigades.RemovableExactly` has the exact condition: REMOVE and delete of a removed bucket do what they are
  meant to if and only if the two neighbours it remembers still have memory and, unless they are removed
  buckets too, point past it at each other. `Remove` and `Delete` ask for no more than that.
- REMOVE and delete read their argument again after they have begun to write. Nothing warns of it, but
  REMOVE(FIRST(h)) as text goes wrong on every ring that is not empty (`RingTheory.RemoveFirstByName`),
  and delete(FIRST(h)) and delete(LAST(h)) destroy another node than the one they took out
  (`RingTheory.DeleteByNameDestroysOther`). The loops of `BrigadeObjects` read FIRST once, into a variable.
- CONCAT of a ring with itself is not ruled out by any comment. It cuts the head off and leaves the
  elements as a ring without one: `RingTheory.SelfConcatBeheads`.

## Model

| member | source | states |
|---|---|---|
| LinkMemory.SpliceBeforeByName | apache2/include/apr_ring.h:228-233 | The four assignments with unevaluated arguments: whenever each argument still leads to its node in the memories in between, the result is the chain put in the gap, even where the target of the last assignment has moved to another node by then |
| LinkMemory.SpliceAfterByName | apache2/include/apr_ring.h:245-250 | The same for SPLICE_AFTER, whose last target may have moved too |
| LinkMemory.UnspliceByName | apache2/include/apr_ring.h:364-369 | UNSPLICE with unevaluated arguments: what the second assignment does, given what each argument leads to before and after the first one |
| LinkMemory.SpliceBeforeEffect | apache2/include/apr_ring.h:228-233 | For plain pointers, however they alias: exactly four named cells are written, with these values in this order |
| LinkMemory.SpliceAfterEffect | apache2/include/apr_ring.h:245-250 | The same four cells, reached from the other side of the gap |
| LinkMemory.UnspliceEffect | apache2/include/apr_ring.h:364-369 | For plain pointers: exactly two cells are written; the pointers of the removed ends stay as they were |
| LinkMemory.RemoveOrFault | apache2/include/apr_ring.h:364-378 | REMOVE of any node of any graph: it joins the two neighbours, or faults exactly if the node or the cell of a neighbour has no memory |
| LinkMemory.InitOfNew | apache2/include/apr_ring.h:192-215 | INIT makes a loop of two cells that held anything |
| LinkMemory.ExecKeepsCells | apache2/include/apr_ring.h:192-369 | No ring macro, and no program made of the same statements, allocates or frees |
| RingTheory.SpliceFillsGap | apache2/include/apr_ring.h:228-301 | Any linked chain spliced into any gap of a ring, at the sentinel and in an empty ring too: SPLICE_BEFORE the right neighbour and SPLICE_AFTER the left one give the same memory, which is the ring with the chain inserted there, next and prev mutually inverse |
| RingTheory.UnspliceCuts | apache2/include/apr_ring.h:364-369 | UNSPLICE of any segment leaves the rest a ring in the old order, and the segment a chain whose ends still point to the old neighbours |
| RingTheory.UnspliceAllIsNoOp | apache2/include/apr_ring.h:364-369 | UNSPLICE of a whole headless ring changes nothing |
| RingTheory.RemoveFirstByName | apache2/include/apr_ring.h:364-378 | REMOVE(FIRST(h)) as text equals its call-by-value meaning if and only if the ring is empty; otherwise the head's next is the second element, or the head, whose prev still is the first |
| RingTheory.RemoveLastByName | apache2/include/apr_ring.h:364-378 | REMOVE(LAST(h)) as text always equals its call-by-value meaning |
| RingTheory.DeleteByNameDestroysOther | apache2/include/apr_buckets.h:1015-1018 | After the REMOVE in delete(FIRST(h)) the argument means the second bucket or the sentinel; after that in delete(LAST(h)), which leaves a ring, it means the last node of that ring: that is what is destroyed |
| RingTheory.InsertBeforeFirstByName | apache2/include/apr_ring.h:228-262 | INSERT_BEFORE(FIRST(h), e) as text leaves e its own predecessor and the first element's prev at the head |
| RingTheory.InsertAfterLastByName | apache2/include/apr_ring.h:245-274 | INSERT_AFTER(LAST(h), e) as text leaves e its own successor and the last element's next at the head |
| RingTheory.ResplicingRestores | apache2/include/apr_ring.h:364-369 | For every pointer graph: SPLICE_BEFORE(NEXT(epN), ep1, epN) after UNSPLICE(ep1, epN) restores every pointer if and only if both ends were mutually linked with their neighbours |
| RingTheory.StackOfUnsplicesUndone | apache2/include/apr_ring.h:228-233 | Dancing links: after any stack of UNSPLICEs of segments that leave the first node of the ring, undoing them in reverse order restores the whole memory, pointer for pointer |
| RingTheory.RingIsUnique | apache2/include/apr_ring.h:91-95 | A memory and a starting node determine the ring: no two sequences fit the same pointers |
| RingTheory.ConcatRings | apache2/include/apr_ring.h:332-339 | With FIRST(h2) and LAST(h2) re-evaluated: for disjoint rings, each possibly empty, h1 becomes its elements followed by those of h2, h2 becomes empty and well formed, and only the end pointers change |
| RingTheory.PrependRings | apache2/include/apr_ring.h:348-355 | The same for PREPEND, the elements of h2 coming first |
| RingTheory.SelfConcatBeheads | apache2/include/apr_ring.h:332-339 | CONCAT of a non-empty ring with itself leaves an empty head and the elements as a headless ring |
| RingTheory.SplitTail | apache2/include/apr_ring.h:299-301 | UNSPLICE from any element to the last and SPLICE_TAIL onto an empty ring: exactly the prefix and the suffix |
| RingTheory.SplitThenConcat | apache2/include/apr_ring.h:332-339 | And CONCAT afterwards restores the original memory, every pointer of it |
| Mirror.ExecFlip | apache2/include/apr_ring.h:228-250 | Every program, run on the memory with next and prev exchanged, does the mirror image of what it did, or fails where it failed |
| Mirror.SpliceFlip | apache2/include/apr_ring.h:228-301 | SPLICE_BEFORE and SPLICE_AFTER, so the TAIL and HEAD forms, are mirror images of each other, for unevaluated arguments |
| Mirror.RingFlip | apache2/include/apr_ring.h:166-183 | The mirror image of a headed ring is the headed ring of the reversed elements |
| Consistency.VerdictIsUnique | apache2/include/apr_ring.h:448-456 | For every graph and start there is at most one verdict, and it is "consistent" if and only if `next` leads from the start round a ring |
| Consistency.NoRho | apache2/include/apr_ring.h:451-456 | While next->prev is back here, the walk meets no visited node other than its start |
| Consistency.FirstAssertionSuffices | apache2/include/apr_ring.h:451-456 | If the first assertion has held all the way back to the start, the second holds at every node |
| Consistency.FailureMeansNoRing | apache2/include/apr_ring.h:451-456 | A check that fails is no false alarm: the start is on no ring |
| Consistency.RoundsAreBounded | apache2/include/apr_ring.h:448-456 | On any graph the check passes fewer rounds than there are nodes without having come back |
| FlatMemory.SentinelCells | apache2/include/apr_ring.h:159-160 | At every address, width and offset, wrap-around included, the next and prev cells of the phantom element at head minus offset are the head's two cells, byte for byte |
| FlatMemory.HeadIsSentinel | apache2/include/apr_ring.h:91-160 | Reading the two pointers of the head is reading NEXT and PREV of the sentinel |
| FlatMemory.LoadStored | apache2/include/apr_ring.h:61-65 | A pointer stored as bytes is read back |
| FlatMemory.StoreRefines | apache2/include/apr_ring.h:61-65 | A byte-level store to one pointer cell changes one abstract pointer, no other entry and no byte outside |
| FlatMemory.ExecRefines | apache2/include/apr_ring.h:159-160 | Every program that works on abstract nodes does exactly the same on bytes, and writes no byte outside the entries and heads of its kind |
| FlatMemory.OtherLinkUntouched | apache2/include/apr_ring.h:67-74 | For entries of two links that do not overlap: no program on one link changes any pointer of the other |
| Placement.SeparateIsValid | apache2/include/apr_ring.h:61-160 | If the structs that entries and heads lie in do not overlap, and two entries or heads in one struct are 2w bytes apart or more, then the ring's memory is well laid out; a head may be a field of any struct |
| Placement.LinksAreIndependent | apache2/include/apr_ring.h:67-74 | For elements on two kinds of ring through two entries so placed: both kinds of ring work, and every program on the one has its abstract effect there and changes no pointer of the other |
| RingObjects.RingInit | apache2/include/apr_ring.h:192-215 | INIT and ELEM_INIT: the node becomes its own neighbour, nothing else changes |
| RingObjects.RingSpliceBefore | apache2/include/apr_ring.h:228-233 | On objects: the memory is the chain put in the gap, for all aliasing of the arguments |
| RingObjects.RingSpliceAfter | apache2/include/apr_ring.h:245-250 | The same from the other side |
| RingObjects.RingUnsplice | apache2/include/apr_ring.h:364-369 | The memory has the outer neighbours joined and is otherwise as it was |
| RingObjects.RingConcat | apache2/include/apr_ring.h:332-339 | The memory is as it was if h2 is empty; otherwise the four end pointers are re-tied and h2 is looped |
| RingObjects.RingPrepend | apache2/include/apr_ring.h:348-355 | The same for PREPEND |
| RingObjects.Foreach | apache2/include/apr_ring.h:387-390 | The loop ends and visits exactly the elements, each once, in order |
| RingObjects.ForeachBackwards | apache2/include/apr_ring.h:166-183 | Walking by PREV from LAST visits the exact reverse |
| RingObjects.CheckElemConsistency | apache2/include/apr_ring.h:448-456 | On every closed graph, however corrupt, the loop ends within as many rounds as there are nodes and gives the verdict: no failure if and only if the start is on a ring, otherwise the first bad node of the walk |
| RingObjects.CheckElem | apache2/include/apr_ring.h:417-442 | Breaks at exactly the node at which the assertions would fail; otherwise what it lists is the ring |
| Brigades.PutSound | apache2/include/apr_buckets.h:358-415 | Inserting a detached bucket in any gap of a brigade keeps all brigades disjoint rings that agree with the books |
| Brigades.TakeSound | apache2/include/apr_buckets.h:434 | The same for removing any bucket of a brigade |
| Brigades.RemoveSound | apache2/include/apr_buckets.h:434 | The same for removing a bucket that is a loop, where nothing changes, and for a removed one that is passed by, where only stale pointers do |
| Brigades.RemovableExactly | apache2/include/apr_buckets.h:1004-1018 | For any bucket on a brigade or detached, in any state that satisfies the invariant: REMOVE and delete are memory-safe and leave all brigades as specified if and only if the bucket is on a brigade, or a loop, or the live neighbours it remembers point past it at each other unless stale |
| Brigades.NoRemoveAfterFree | apache2/include/apr_buckets.h:999-1018 | REMOVE and delete of a destroyed bucket fault |
| Brigades.RemovedIsRemovable | apache2/include/apr_buckets.h:1004-1018 | Right after it was removed, any bucket may be removed again, which changes nothing, or deleted |
| Brigades.FreeSound | apache2/include/apr_buckets.h:999-1002 | Giving a detached bucket's memory back leaves no pointer of a brigade dangling |
| Brigades.ConcatSound | apache2/include/apr_buckets.h:380-383 | Concatenating any two brigades keeps the invariant, b's buckets now being on a, in order, and b empty |
| Brigades.PrependSound | apache2/include/apr_buckets.h:390-393 | The same with b's buckets in front |
| Brigades.StepSound | apache2/include/apr_buckets.h:358-440 | Each of the twelve operations, where enabled, accesses live memory only and keeps the invariant; heads and buckets start out with arbitrary pointers |
| Effects.NewBrigadeDoes | apache2/include/apr_ring.h:192-195 | A new head: one more brigade, empty, a ring of its own; nothing else |
| Effects.NewBucketDoes | apache2/include/apr_buckets.h:224-255 | One more bucket, stale, with the given pointers; nothing else |
| Effects.InitBucketDoes | apache2/include/apr_buckets.h:436-440 | The bucket is a ring of its own; all brigades as before |
| Effects.InsertHeadDoes | apache2/include/apr_buckets.h:358-362 | Brigade h is [e] and then what it was, in the books and as a ring in memory; e is in h, all else as before |
| Effects.InsertTailDoes | apache2/include/apr_buckets.h:369-373 | Brigade h is what it was and then [e] |
| Effects.InsertBeforeDoes | apache2/include/apr_buckets.h:400-404 | Bucket e stands where a stood, a next after it; for the sentinel, last |
| Effects.InsertAfterDoes | apache2/include/apr_buckets.h:411-415 | Bucket e stands directly behind a; for the sentinel, first |
| Effects.ConcatDoes | apache2/include/apr_buckets.h:380-383 | Brigade a is its own sequence and then b's, b is empty, both as rings in memory; exactly b's buckets change place, to a |
| Effects.PrependDoes | apache2/include/apr_buckets.h:390-393 | Brigade a is b's sequence and then its own, otherwise the same |
| Effects.RemoveDoes | apache2/include/apr_buckets.h:434 | The sequence of e's brigade is as before without the position of e, e is stale, nothing is destroyed or freed |
| Effects.RemoveDetachedDoes | apache2/include/apr_buckets.h:434 | For a removable bucket on no brigade: the books are as before, and so is every pointer of a node that is not stale |
| Effects.DestroyDoes | apache2/include/apr_buckets.h:999-1002 | The bucket is destroyed, last in the list of destroyed ones, and its memory and no other is gone |
| Effects.DeleteIsBoth | apache2/include/apr_buckets.h:1004-1018 | delete has the same result as REMOVE followed by destroy, in memory and in the books |
| Effects.DeleteDoes | apache2/include/apr_buckets.h:1015-1018 | A bucket on a brigade: its sequence loses that position, the bucket is destroyed, last in the list, and its memory and no other is gone |
| Effects.DeleteDetachedDoes | apache2/include/apr_buckets.h:1015-1018 | A removable bucket on no brigade: all brigades stay, the bucket is destroyed and its memory gone |
| Brigades.RunSound | apache2/include/apr_buckets.h:358-440 | So does every sequence of them, from every state that satisfies it |
| Brigades.RunExtends | apache2/include/apr_buckets.h:358-440 | One more operation at the end of a run is one more step, in memory and in the books |
| Brigades.RunCounts | apache2/include/apr_buckets.h:358-1018 | Over any run the destroyed buckets are the operands of destroy and delete in their order, and the buckets and brigades are those that were made |
| Brigades.AllCanBeListed | apache2/include/apr_buckets.h:224-255 | In every state there is a list of all brigades, so that what is said of all such lists says something |
| Brigades.EveryRun | apache2/include/apr_buckets.h:358-1018 | From nothing, after any sequence of operations over any number of brigades: the destroyed buckets are the operands of destroy and delete in order; exactly what was made and not destroyed has memory; every brigade is a ring that passes its check, no bucket is on two brigades or twice on one, none is destroyed twice, destroyed ones are on no brigade, and on brigades + detached = created - destroyed |
| Brigades.ContentsApart | apache2/include/apr_buckets.h:224-255 | Over all listed brigades, the buckets are pairwise different and are exactly those whose books say so |
| Brigades.Conservation | apache2/include/apr_buckets.h:358-1018 | In brigades + detached = created - destroyed |
| Brigades.ChecksPass | apache2/include/apr_buckets.h:361-415 | The consistency checks at the ends of the macros pass, at the sentinel and at every bucket |
| Brigades.RemoveHarmless | apache2/include/apr_ring.h:364-378 | For every pointer graph: REMOVE changes no pointer if and only if the node's two neighbours are live and already point past it at each other |
| Brigades.StaleDeleteUnlinksOther | apache2/include/apr_buckets.h:1004-1018 | Removing a bucket, inserting another and deleting the first makes the brigade lose the second |
| Streams.StreamConcat | apache2/include/apr_buckets.h:380-383 | What a concatenation carries is what the parts carry, in order |
| Streams.StreamHasByte | apache2/include/apr_buckets.h:141-156 | Byte i of data bucket k is in the stream, right at its place behind what the earlier buckets carry |
| Streams.StreamHasToken | apache2/include/apr_buckets.h:141-156 | So is a metadata or unread bucket, as one token with its type and data |
| Streams.StreamLength | apache2/include/apr_buckets.h:141-156 | And nothing else is: the stream is as long as the lengths of the data buckets and one for every other |
| Streams.DropKeepsStream | apache2/include/apr_buckets.h:442-448 | Dropping an empty bucket anywhere preserves the stream of bytes and metadata if and only if it is not metadata |
| Streams.DroppableExactly | apache2/include/apr_buckets.h:442-448 | The buckets of length zero that are not metadata are exactly those that can be left out of every stream |
| Streams.EachIsNeeded | apache2/include/apr_buckets.h:442-448 | Leaving out any other bucket changes the stream |
| Streams.StrippedStream | apache2/include/apr_buckets.h:141-156 | Dropping all empty data buckets at once preserves it |
| Streams.WhereMembers | apache2/include/apr_ring.h:400-403 | A selection has exactly the elements that the predicate selects |
| Streams.WhereIsStable | apache2/include/apr_ring.h:400-403 | Selecting elements keeps each selected one, in its place among the selected |
| Streams.WhereSplits | apache2/include/apr_ring.h:400-403 | The two selections together are as long as the whole |
| Sweeps.SweepRound | apache2/include/apr_ring.h:400-403 | One round of a deleting iteration takes the specified state after k elements to that after k + 1 |
| Sweeps.PartRound | apache2/include/apr_ring.h:400-403 | The same for an iteration that moves elements |
| Sweeps.Partitioned | apache2/include/apr_ring.h:400-403 | What the specification of the moving iteration comes to: the unselected stay in order, the selected are appended in order to the second brigade, all other brigades and places are untouched |
| Sweeps.FullySwept | apache2/include/apr_ring.h:400-403 | What that of the deleting iteration comes to: the unselected stay in order, the selected are destroyed in order, all else is untouched |
| BrigadeObjects.World.NewBrigade | apache2/include/apr_ring.h:192-195 | From memory whose pointers are unspecified, a new, empty brigade; everything else as before |
| BrigadeObjects.World.NewBucket | apache2/include/apr_buckets.h:224-255 | A new bucket on no brigade, its pointers unspecified |
| BrigadeObjects.World.InitBucket | apache2/include/apr_buckets.h:436-440 | A detached bucket becomes looped to itself |
| BrigadeObjects.World.InsertHead | apache2/include/apr_buckets.h:358-362 | The bucket comes first, all other brigades as before |
| BrigadeObjects.World.InsertTail | apache2/include/apr_buckets.h:369-373 | The bucket comes last |
| BrigadeObjects.World.InsertBefore | apache2/include/apr_buckets.h:400-404 | The bucket comes directly before a bucket, or last if the sentinel is named |
| BrigadeObjects.World.InsertAfter | apache2/include/apr_buckets.h:411-415 | The bucket comes directly after a bucket, or first if the sentinel is named |
| BrigadeObjects.World.Concat | apache2/include/apr_buckets.h:380-383 | a holds its buckets and then b's, b is empty |
| BrigadeObjects.World.Prepend | apache2/include/apr_buckets.h:390-393 | a holds b's buckets and then its own, b is empty |
| BrigadeObjects.World.Remove | apache2/include/apr_buckets.h:434 | For exactly the buckets of RemovableExactly: the bucket is gone from its brigade, if it was on one, and nothing else is changed |
| BrigadeObjects.World.Destroy | apache2/include/apr_buckets.h:999-1002 | First the type's destroy, then the bucket's free, logged in that order; its memory is gone |
| BrigadeObjects.World.Delete | apache2/include/apr_buckets.h:1015-1018 | For exactly these buckets: removed, then destroyed |
| BrigadeObjects.World.CheckConsistency | apache2/include/apr_buckets.h:291-295 | At every sentinel and every bucket on a brigade, at every time, the check finds nothing |
| BrigadeObjects.CallsInPairs | apache2/include/apr_buckets.h:999-1002 | Two calls for each destroyed bucket, in order: the destroy of its data and then its own free |
| BrigadeObjects.World.Drain | apache2/include/apr_buckets.h:338-345 | Deleting FIRST, read once into a variable, until EMPTY ends, leaves an empty initialised brigade, and has called destroy and then free once for each of its buckets, in order, after all earlier calls |
| BrigadeObjects.World.StripEmpty | apache2/include/apr_ring.h:400-403 | The safe iteration that deletes empty buckets ends, deletes exactly those of length zero that are not metadata, in order, touches no other brigade, leaves what the brigade carries unchanged, and leaves no bucket that could be taken out without a change of that |
| BrigadeObjects.World.Partition | apache2/include/apr_ring.h:400-403 | The safe iteration that moves selected buckets ends, visits each original bucket once in order, and is a stable partition: both brigades have their part in order, all else is untouched, nothing is destroyed |
| BrigadeObjects.StripKeepsStream | apache2/include/apr_buckets.h:141-156 | When a brigade has been swept: what it carries is unchanged, exactly the buckets of length zero that are not metadata are gone, and none of the others could go |
| BrigadeObjects.NodeIsNeeded | apache2/include/apr_buckets.h:442-448 | On linked buckets: taking out any that is not droppable changes what the brigade carries |
| BrigadeObjects.PayloadsOfBuckets | apache2/include/apr_buckets.h:224-255 | What a list of linked buckets carries is made of each bucket's own payload, one by one |
| BrigadeObjects.WorldIsWellKept | apache2/include/apr_buckets.h:358-1018 | Whatever a program did through these methods: its heap of objects has every property of EveryRun, and the calls made are a destroy and a free for each destroyed bucket |
| ReferenceRing.NextAlone | apache2/include/apr_mmap.h:83-85 | NEXT(e) == e at a user if and only if it is the only one |
| ReferenceRing.FirstUser | apache2/include/apr_ring.h:212-215 | ELEM_INIT of any memory is the ring of one user |
| ReferenceRing.ShareSound | apache2/include/apr_ring.h:273-274 | The new user is linked in directly behind the old one, in front of the old one's former successor; the users are those before and the new one |
| ReferenceRing.ReleaseSound | apache2/include/apr_ring.h:377-378 | Releasing any user leaves the ring of exactly the others, takes away its memory alone, and sees "last" if and only if it was alone |
| ReferenceRing.LastReleaseIsSeenOnce | apache2/include/apr_mmap.h:83-85 | In every sequence of shares and releases: as many looks as releases, users left = users before + shares - releases, and a release sees "last" if and only if it is the final one and there were as many releases as users and shares |
| Hooks.RunUntilStops | apache2/include/apr_hooks.h:222-295 | Exactly the hooks up to and including the first stopping one are called, each in the state the earlier ones left; the result is that one's value, or the default if there is none |
| Hooks.StateAfterNext | apache2/include/apr_hooks.h:179-295 | Each function called runs in the state that the one before it left |
| Hooks.RanAllExactly | apache2/include/apr_hooks.h:222-250 | RUN_ALL by its returns: an outcome is the outcome if and only if all hooks called before the last returned ok or decline, and either the last returned something else, which is the result, or all were called, the last returned ok or decline too, and the result is ok |
| Hooks.RanFirstExactly | apache2/include/apr_hooks.h:267-295 | RUN_FIRST likewise: all before the last returned decline, and either the last did not and is the result, or all were called and declined |
| Hooks.RunAllGoesOn | apache2/include/apr_hooks.h:241-243 | If every hook would return ok or decline, RUN_ALL calls them all and gives ok |
| Hooks.RunUntilConcat | apache2/include/apr_hooks.h:222-295 | Running a list in two parts: the second runs if and only if the first did not stop, and result, state and calls compose |
| Hooks.RunAllConcat | apache2/include/apr_hooks.h:222-250 | RUN_ALL over concatenated lists continues into the second if and only if the first yields ok |
| Hooks.RunFirstConcat | apache2/include/apr_hooks.h:267-295 | RUN_FIRST continues if and only if the first yields decline |
| Hooks.RunAllIsRunFirst | apache2/include/apr_hooks.h:222-295 | With ok equal to decline both runners have the same result, state and calls |
| Hooks.AllRegistered | apache2/include/apr_hooks.h:143-165 | After any registrations the list is what was registered, in order, and was handed to the sorter once |
| Hooks.Hook.Register | apache2/include/apr_hooks.h:143-165 | The entry goes to the end; only a list that did not exist is created and handed to the sorter |
| Hooks.Hook.RunVoid | apache2/include/apr_hooks.h:179-202 | Every registered function is called once, in order, and nothing else |
| Hooks.Hook.RunAll | apache2/include/apr_hooks.h:222-250 | For every list, an absent one included: all called before the last returned ok or decline, the last returned another value, which is the result, or all were called and the result is ok |
| Hooks.Hook.RunFirst | apache2/include/apr_hooks.h:267-295 | The same with decline alone, which is also the default |
| Hooks.RunAllOptional | apache2/include/apr_optional_hooks.h:90-110 | The form with early returns meets the same statement as Hook.RunAll, which has one outcome only: same result, state and trace always |
| Align.AlignedIsLeast | apache2/include/apr_general.h:135-137 | At every word width: the least multiple of the power of two that is not below size, if the sum does not wrap around, and 0 if it does |
| Align.AlignedCovers | apache2/include/apr_general.h:135-137 | The result reaches size if and only if the sum does not wrap around or size is 0 |
| Align.AlignedMonotone | apache2/include/apr_general.h:135-140 | Below the bound, a larger size has no smaller result |
| Align.AlignedTwice | apache2/include/apr_general.h:135-140 | Aligning to two powers of two, in either order, is aligning to the larger; so aligning twice is aligning once |
| Align.WorksForPowersOfTwo | apache2/include/apr_general.h:135-137 | The comment's "only to be used to align on a power of 2" is exact: the formula gives multiples of the boundary for all sizes if and only if it is a power of two |
| Align.AndBits | apache2/include/apr_general.h:135-137 | The mask operation works bit by bit in a word of any width |
| Align.NotBits | apache2/include/apr_general.h:135-137 | So does the complement |

## Left out

- Functions that are declared without a body (pools, allocators, hashes, queues, escaping, pattern matching, bucket read, split, copy and setaside, brigade split and partition): there is no code to model.
- The hook sort: `apr_hook_sort_all` is only declared. Lists are in the order of registration, the predecessor and successor names are carried along, and registering with the sorter is a counter.
- Hook functions that register more hooks while the runner is going through the list: the code then reads the new count but may hold the old element pointer.
- Hook probes, debug output of registrations, and the text that CHECK_ELEM prints: only the control flow and the nodes listed are modelled.
- `volatile`, threads and signal handlers: one thread.
- Reuse of addresses: an allocation gives a node that never existed before; a freed one loses its memory for good.
- Freeing a brigade's own head: a brigade, once made, stays, possibly empty.
- FOREACH_SAFE with a body that removes the saved next cursor: outside its intended use.
- CONCAT and PREPEND of rings that share elements other than by being the same ring: a ring of the model has one head.
- What a bucket type's destroy does to data shared with other buckets: it is one entry of the log.
- Buckets with unknown length carry one token of unread data; reading them is a declared function.
- Addresses outside the live cells: reading or writing one has no result in the model, where the C program's behaviour is undefined.
- APR_ALIGN_DEFAULT has no member of its own: it is `Align.Aligned` at boundary 2 to the 3.
- Error code ranges, version and feature macros, module magic numbers, escape tables, the remaining APR and APR-util headers, and the PHP files: I/O, wiring or settled by reading one expression.
