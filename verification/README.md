# Proofs about two student servers and the containers under them

The repository holds a chat server in C (`a1`), a replicated store in Python (`a2`), and the
uthash headers that the chat server is built on. This project models the parts that are hard to
get right and proves, for all inputs or all runs, what they promise.

## What is modelled

**Substring search** (`Borders`, `RightBorders`, `Kmp`, `Mirror`, `UtString`). The two table
builders and the two searchers of `utstring.h` are methods that fill and read an array as the
source does. `Borders` is the theory they are measured against: occurrences, borders, and the
strong failure function, which skips borders that would meet the same mismatch again. The step
bounds count the iterations of inner and outer loops together. `Mirror` shows that the
right-to-left half is the left-to-right half of the reversed needle. Both searches cast lengths
to `int`; `UtString` says for exactly which pairs of lengths the answers are right.

**Merge sorts** (`Sorting`, `Elements`, `ListSort`, `UtList`, `InOrder`, `Links`,
`UtListEdit`).
`Sorting` says on sequences what the bottom-up merge sort computes and why the result is the one
stable sorted arrangement. `ListSort` relinks nodes in place; the three sorts of `utlist.h` and
the one of `uthash.h` share its pass and differ in how they end the list. `InOrder` sets the two
in-order inserts against the sort: `uthash.h` puts a new item after its ties, `utlist.h` before
them. Over the total preorders the latter keeps lists sorted exactly for comparisons by which what
compares as 0 is a tie, and also puts the new item before its ties exactly for those whose sign
turns around with their arguments.

**The hash table** (`BitMath`, `HashSpec`, `HashChains`, `UtHash`, `HashRuns`). The class
`UtHash.HashTable` has the fields of the source; bucket chains and the application order run
through the same nodes. Its `Valid` is the library's own integrity check as a predicate, and
more: each item is in the bucket of its key, keys are unique, and the chains keep the bound that
expansion is there for (`Bounded`): no bucket is due for an expansion, unless expanding has been
given up or the last one ended with an ideal length of 10 or more. The hash function is any
function. `HashRuns` refines whole runs of guarded adds and deletes to a map.

**The chat protocol** (`ChatProtocol`, `ChatSafety`, `ChatEffects`, `ChatDelivery`,
`ChatReconnect`, `ChatLoss`, `ChatServer`). `ChatProtocol` is the server as steps, one per critical section: enqueue, dequeue,
append, broadcast, replay, register, remove. `ChatServer` has the critical sections as the loops
they are, each proved to be its step. The theorems are about all runs. Two facts shape them.
Replay starts at the last read message itself, so that message may be sent twice. And replay and
registration are separate critical sections: a message that is both appended and broadcast
between them never reaches the socket, and the proofs give both the exact condition for that and
a run in which it happens. The reconnect theorems are about one client and ask nothing of the
others. `ChatLoss` says when a message that was missed, for whatever reason, can still arrive:
exactly while the client has not read past it. A failed send can be made up by a reconnect, but
not once another broadcast has found the client with a socket, whether that one arrived or not.
A failed send stops nothing else: `ChatEffects` says what each step does to one socket, and that a
session has failed exactly when its own socket was found unreachable.

Some sections overlap in time in the source but not here. The replay reads the log under a lock
that excludes the append, but a broadcast may go on beside it; the two then meet only in the
client's last-read message, to which both assign the tail of the log, and the broadcast does not
send to the socket that is being replayed to. A session here is one accepted connection; the
source tells them apart by descriptor, which is not reused before its session has been removed.

**Framing** (`CIntegers`, `Message`, `MessageNet`). Messages are marshalled through an advancing
cursor and read back by loops over a stream that may be cut anywhere. A read or write may fail at
any time; otherwise it moves at least one byte. The discard loop compares against the announced
length as an `int`, so a length of 2^31 or more leaves the stream misaligned; `AlignedIff` is
exact about it.

**Queue, list, ring buffer** (`Nodes`, `Sequences`, `Options`, `JobQueue`, `LinkedList`,
`RingBuffer`). The job queue never resets `tail` or the new head's `prev`; its invariant says
nothing about either when they are stale, and the frame of each operation shows that no freed node
is written to. The ring buffer's destructor calls are recorded, so that what was pushed is what
was destroyed and what is left.

**Leader election** (`Election`). `check_election` is a method; the cluster is a step system in
which a child list may be as old as it likes and a znode disappears only after its server has
died. The one case in which two servers can lead, an empty list shown to a server that has no
znode yet, is excluded, and shown to break the property.

## Where code and comments differ

- `a1/uthash/uthash.h:1087-1089` says that a chain which exceeds the threshold triggers an
  expansion; the code at line 790 triggers it when the threshold is reached. The model follows
  the code. An expansion that ends with an ideal length below 10 leaves no bucket due for another
  one. From 10 on the counts alone do not rule that out (`HashSpec.ExpansionSettlesIff`); whether
  a run of adds gets there is not part of this model.
- `a1/uthash/uthash.h:1116-1118` describes `nonideal_items` as a running count; the code brings
  it up to date only when it expands, so the model states it only there.

## Model

| member | source | states |
|---|---|---|
| `Kmp.BuildTable` | a1/uthash/utstring.h:171-207 | the table holds at every slot the strong failure value (`Borders.Table`), in at least m and at most 2m steps of the inner and outer loops together |
| `Kmp.FindWithTable` | a1/uthash/utstring.h:251-280 | for a needle within `int` the answer is the leftmost occurrence, or -1 exactly when there is none, in what the haystack's `int` cast lets the loop see, early exit included; for a longer needle it is what the cast of its length makes of it (`Kmp.FoundBy`); at most 2n steps |
| `Kmp.FallBackTo` | a1/uthash/utstring.h:265-268 | the search's inner loop stops at a prefix that goes on; its steps are the table look-ups that lead there, and are paid for by the fall of `i` |
| `Kmp.FoundByIsLeftmost` | a1/uthash/utstring.h:251-280 | for needles within `int` the answer as specified for all lengths is exactly the leftmost occurrence in what is seen |
| `Kmp.BuildTableR` | a1/uthash/utstring.h:211-247 | the same from the right end, with the index shift of one |
| `Kmp.FindWithTableR` | a1/uthash/utstring.h:284-314 | for a needle within `int` the rightmost occurrence, or -1 exactly when there is none; positions of a longer needle beyond the cast of its length are never compared (`Kmp.FoundByR`); at most 2n steps |
| `Kmp.FallBackToR` | a1/uthash/utstring.h:299-302 | the mirror of the inner loop |
| `Kmp.ShrinkBorder` | a1/uthash/utstring.h:183-186 | falling back stops at the longest border that `needle[i]` extends; its steps are the table look-ups that lead there, and are paid for by the fall of `j` |
| `Kmp.ShrinkBorderR` | a1/uthash/utstring.h:223-226 | the mirror of the inner loop |
| `Kmp.StoreEntry` | a1/uthash/utstring.h:187-203 | storing the copied or the plain border extends the correct part of the table |
| `Kmp.StoreEntryR` | a1/uthash/utstring.h:227-243 | the mirror of the store |
| `Kmp.SearchLimit` | a1/uthash/utstring.h:263 | the part of a haystack that the cast length covers is all of it exactly up to INT_MAX |
| `CIntegers.ToInt32` | a1/uthash/utstring.h:263-271 | the conversion of a `size_t` to `int` never grows a value and is exact up to INT_MAX |
| `CIntegers.ToInt32Wraps` | a1/uthash/utstring.h:263-271 | it gives the one number of the 32-bit range that differs by a multiple of 2^32 |
| `Borders.TableSays` | a1/uthash/utstring.h:171-207 | the slots in plain terms: the longest border of the prefix that goes on otherwise than the needle does there, or -1, all longer ones going on like it |
| `RightBorders.TableSaysR` | a1/uthash/utstring.h:211-247 | the slots of the right-to-left table in plain terms |
| `Borders.EntryUnique` | a1/uthash/utstring.h:189-203 | the failure table is determined by its specification |
| `Borders.BorderExtends` | a1/uthash/utstring.h:183-188 | the borders of a prefix one longer are the borders that the next character extends |
| `Borders.FallBack` | a1/uthash/utstring.h:183-186 | falling back to a failure value passes over no border that can be extended |
| `Borders.LongestExtends` | a1/uthash/utstring.h:187-188 | after the inner loop the border plus one is the longest border of the next prefix |
| `Borders.FillNext` | a1/uthash/utstring.h:189-203 | the strong value: the failure value of the longest border when the prefixes continue alike, the border itself otherwise |
| `Borders.OccurrenceIsBorder` | a1/uthash/utstring.h:265-268 | an occurrence overlapping the matched part is a border that the text extends |
| `Borders.EntryOfPrefix` | a1/uthash/utstring.h:265-268 | a failure value depends on the needle up to its position only |
| `Borders.SkipMismatch` | a1/uthash/utstring.h:265-268 | a mismatch moves the scan past no occurrence |
| `Borders.TakeElement` | a1/uthash/utstring.h:269-276 | taking a character keeps the scan or completes the leftmost occurrence |
| `Borders.NoRoom` | a1/uthash/utstring.h:263 | the early exit loses no occurrence |
| `RightBorders.FallBackR` | a1/uthash/utstring.h:223-226 | the mirror of `FallBack` |
| `RightBorders.FillNextR` | a1/uthash/utstring.h:229-243 | the mirror of `FillNext` |
| `RightBorders.SkipMismatchR` | a1/uthash/utstring.h:299-302 | the mirror of `SkipMismatch` |
| `RightBorders.TakeElementR` | a1/uthash/utstring.h:303-310 | the mirror of `TakeElement` |
| `RightBorders.NoRoomR` | a1/uthash/utstring.h:297 | the mirror of `NoRoom`: a match no longer fits before the start of the text |
| `Mirror.MatchMirror` | a1/uthash/utstring.h:210-314 | reversing text and needle mirrors every occurrence, both ways |
| `Mirror.RightmostMirrorsLeftmost` | a1/uthash/utstring.h:284-314 | a leftmost search of the reversed text is a rightmost search of the text |
| `Mirror.BorderMirror` | a1/uthash/utstring.h:211-247 | borders seen from the right are borders of the reversed needle, both ways |
| `Mirror.EntryMirror` | a1/uthash/utstring.h:211-247 | right-to-left failure values are the left-to-right ones of the reversed needle, counted from the other end |
| `Mirror.TableMirror` | a1/uthash/utstring.h:211-247 | the whole right-to-left table is the reversed needle's table, read backwards |
| `UtString.UtString.Find` | a1/uthash/utstring.h:318-360 | the leftmost occurrence that begins at or after the start, for a start within the text as at its distance from the end when it is negative, for needles within `int`, and for longer ones the answer of the table search; -1 for an empty needle or a start outside the text |
| `UtString.AllVisible` | a1/uthash/utstring.h:263 | a search from a start sees the whole text when what is left of it is within `int`, and never more |
| `UtString.UtString.FindR` | a1/uthash/utstring.h:364-402 | the rightmost occurrence that ends no later than the start, or than that distance from the end when it is negative, for needles within `int`, and for longer ones the answer of the table search; -1 for an empty needle or a start before the text |
| `UtString.FindBothWays` | a1/uthash/utstring.h:318-402 | on a text within `int` the searches of the whole text from both ends give the leftmost and the rightmost occurrence and agree on whether there is one |
| `UtString.SearchIsRightIff` | a1/uthash/utstring.h:263-271 | searches of haystacks of length n for needles of length m are always right if and only if n is at most INT_MAX or the needle does not fit; for all other lengths some haystack and needle are answered wrongly whatever is answered |
| `UtString.SearchIsRightIffR` | a1/uthash/utstring.h:297-303 | from the right they are always right if and only if m is at most INT_MAX or the needle does not fit; for all other lengths some haystack and needle are answered wrongly whatever is answered |
| `UtString.CastIsHarmlessIff` | a1/uthash/utstring.h:263 | searches of haystacks of length n always answer for the whole haystack if and only if n is at most INT_MAX; beyond that every length has a haystack whose only occurrence is missed |
| `Sorting.MergeSorted` | a1/uthash/utlist.h:128-149 | merging two sorted runs gives a sorted run |
| `Sorting.MergeStable` | a1/uthash/utlist.h:131-149 | merging keeps tied elements in order, those of the first run first |
| `Sorting.PassSorts` | a1/uthash/utlist.h:118-165 | a pass over sorted runs leaves sorted runs of twice the width |
| `Sorting.PassStable` | a1/uthash/utlist.h:118-165 | a pass keeps tied elements in order |
| `Sorting.PassElements` | a1/uthash/utlist.h:118-165 | a pass keeps the elements |
| `Sorting.MergeSortCorrect` | a1/uthash/utlist.h:111-169 | for any total preorder the bottom-up merge sort gives a sorted, stable rearrangement |
| `Sorting.StableSortUnique` | a1/uthash/utlist.h:111-169 | there is only one stable sorted rearrangement |
| `ListSort.SortPass` | a1/uthash/utlist.h:118-165 | one pass over a linked list relinks it, in place, into what the pass computes on sequences, and counts its merges right |
| `ListSort.Choose` | a1/uthash/utlist.h:138-150 | the choice of the next element of a merge |
| `ListSort.SplitRun` | a1/uthash/utlist.h:129-135 | stepping over a run of the pass width, or what is left of the list |
| `ListSort.Emit` | a1/uthash/utlist.h:151-156 | appending the chosen element to the output list |
| `UtList.LLSort` | a1/uthash/utlist.h:111-169 | the singly linked sort terminates with the stable sorted arrangement, ending in NULL |
| `UtList.DLSort` | a1/uthash/utlist.h:175-233 | the doubly linked sort gives the same arrangement, with back links and the head pointing back at the tail |
| `UtList.CDLSort` | a1/uthash/utlist.h:238-309 | the circular sort gives the same arrangement and a closed ring |
| `UtListEdit.FindLowerBound` | a1/uthash/utlist.h:372-383 | finds the last element of the initial part that compares less, or NULL |
| `UtListEdit.LLInsertInOrder` | a1/uthash/utlist.h:357-367 | the new element is linked in at the lower bound, and a sorted list stays sorted for every comparison by which what compares as 0 is a tie |
| `UtListEdit.LLAppendElem` | a1/uthash/utlist.h:494-504 | linking after a given element, or in front for NULL |
| `UtListEdit.LLDelete` | a1/uthash/utlist.h:388-402 | takes an element out if it is there and changes nothing if it is not |
| `UtListEdit.DLPrepend` | a1/uthash/utlist.h:624-634 | the element is linked in front and the head still points back at the tail |
| `UtListEdit.DLAppend` | a1/uthash/utlist.h:639-651 | the element is linked at the end and the head points back at it |
| `UtListEdit.DLAppendElem` | a1/uthash/utlist.h:803-819 | linking after a given element, or in front for NULL, with the tail pointer kept |
| `UtListEdit.DLInsertInOrder` | a1/uthash/utlist.h:656-667 | the same, with the back links and the tail pointer kept |
| `UtListEdit.DLDelete` | a1/uthash/utlist.h:706-723 | exactly the one element leaves, in each of the head, tail, middle and only-element cases |
| `UtListEdit.DLConcat` | a1/uthash/utlist.h:688-701 | two lists become one, with the tail pointers swapped as needed |
| `InOrder.LowerBoundInsertSorts` | a1/uthash/utlist.h:357-383 | inserting at the lower bound keeps a sorted list sorted when what compares as 0 is a tie; when signs agree it equals a prepend followed by the stable sort, the new element standing before its ties |
| `InOrder.KeepsSortedIff` | a1/uthash/utlist.h:357-383 | for a total preorder on the elements at hand, every insert at the lower bound of a sorted list leaves it sorted if and only if elements that compare as 0 one way round do not compare greater the other |
| `InOrder.KeepsSortedBeforeTiesIff` | a1/uthash/utlist.h:357-383 | every such insert leaves the list sorted with the new element before its ties if and only if the comparison is negative one way round exactly when it is positive the other |
| `BitMath.ShiftAndMaskIsCeiling` | a1/uthash/uthash.h:831-843 | the shift and masked carry of the comment are the ceiling of items over buckets |
| `BitMath.CeilingBounds` | a1/uthash/uthash.h:831-843 | the ceiling is enough buckets, and one fewer would not do |
| `BitMath.MaskIsMod` | a1/uthash/uthash.h:441-444 | masking with a power of two less one is the remainder |
| `BitMath.ShiftIsDiv` | a1/uthash/uthash.h:859-861 | shifting is division by a power of two |
| `BitMath.RemainderDoubled` | a1/uthash/uthash.h:865-867 | a remainder by twice the divisor is the old one, or that plus the divisor |
| `HashSpec.Home` | a1/uthash/uthash.h:441-444 | a key has one bucket, below the number of buckets |
| `HashSpec.HomeIsMod` | a1/uthash/uthash.h:441-444 | it is the hash value modulo the number of buckets |
| `HashSpec.PartitionAfterAdd` | a1/uthash/uthash.h:780-799 | pushing a new item on its bucket's chain keeps items and chains in step |
| `HashSpec.PartitionAfterDelete` | a1/uthash/uthash.h:802-815 | taking an item out of its chain keeps items and chains in step |
| `HashSpec.CountsAddUp` | a1/uthash/uthash.h:527-574 | the bucket counts add up to the number of items |
| `HashSpec.HomeAfterDoubling` | a1/uthash/uthash.h:865-867 | doubling moves an item of bucket b to b or to b plus the old number of buckets |
| `HashSpec.DoublingKeepsPartition` | a1/uthash/uthash.h:862-887 | doubling puts every item in the bucket it now belongs to and loses none |
| `HashSpec.MultBounds` | a1/uthash/uthash.h:869-874 | after an expansion the multiplier is 0 exactly when count <= ideal, and otherwise (mult-1)*ideal < count <= mult*ideal+1 |
| `HashSpec.MultIs` | a1/uthash/uthash.h:869-874 | that fixes it: the multiplier is the lesser of the items beyond the ideal length and the ideal lengths it takes to make up the count |
| `HashSpec.TotalOverCounts` | a1/uthash/uthash.h:869-870 | `nonideal_items` is the number of places that lie beyond the ideal length of their chain |
| `HashSpec.GrownReversed` | a1/uthash/uthash.h:865-885 | each new chain has its items in the reverse of their old order |
| `HashSpec.ExpansionSettlesIff` | a1/uthash/uthash.h:790-792 | a fact about counts: for any number of buckets, of all the counts with a given ideal chain length none makes a bucket, with the multiplier an expansion gives it, due for another expansion if and only if the ideal length is below the threshold of 10 |
| `HashChains.NoneDueAfterExpansion` | a1/uthash/uthash.h:869-874 | in a table as an expansion leaves it, an ideal length below the threshold means that no bucket is due for another one |
| `HashChains.ToBucketIsHome` | a1/uthash/uthash.h:441-444 | the masked hash value is the bucket of the specification |
| `HashChains.FindInBucket` | a1/uthash/uthash.h:758-777 | finds the item of a chain with the key, or NULL exactly when there is none |
| `HashChains.PushFront` | a1/uthash/uthash.h:782-789 | the new item heads its chain, its count is one more, all other buckets are as before |
| `HashChains.DeleteInBucket` | a1/uthash/uthash.h:802-815 | exactly one item leaves its chain; all other buckets and chains are as before |
| `HashChains.MoveItem` | a1/uthash/uthash.h:865-885 | one item goes to the front of its new chain and the counters follow |
| `HashChains.MoveAll` | a1/uthash/uthash.h:862-887 | all old chains are moved: chains, counts, multipliers and `nonideal_items` are those of the specification |
| `HashChains.ExpandBuckets` | a1/uthash/uthash.h:846-887 | twice the buckets with redistributed chains, the ceiling as ideal length, and `nonideal_items` the sum of what each chain exceeds it by |
| `UtHash.HashTable.Find` | a1/uthash/uthash.h:164-184 | the unique item with the key, or NULL exactly when there is none |
| `UtHash.HashTable.LinkLast` | a1/uthash/uthash.h:289-295 | the item is linked at the end of the application order |
| `UtHash.HashTable.LinkBefore` | a1/uthash/uthash.h:371-382 | the item is linked before the found position, the head included |
| `UtHash.HashTable.LinkInOrder` | a1/uthash/uthash.h:297-322 | the scan stops at the first item that compares greater |
| `UtHash.HashTable.MakeTable` | a1/uthash/uthash.h:223-250 | a table of 32 empty buckets with all counters zero, expansion allowed, and the first item as its tail |
| `UtHash.HashTable.PushItem` | a1/uthash/uthash.h:348-356 | counts the item and puts it on the chain of its key's bucket, whose multiplier stays; all other buckets are as before |
| `UtHash.HashTable.AddToTable` | a1/uthash/uthash.h:348-356 | the same, followed by an expansion exactly when the bucket has reached its threshold and expansion is not switched off; without one, nothing but the head and the count of that bucket changes |
| `UtHash.HashTable.DoubleBuckets` | a1/uthash/uthash.h:856-889 | the redistribution keeps every item in the bucket of its key and sets ideal length, multipliers and `nonideal_items` right |
| `UtHash.HashTable.Expand` | a1/uthash/uthash.h:846-896 | the bucket side after an expansion, with `ineff_expands` and `noexpand` updated as promised, and no bucket due for another one when the ideal chain length is below the threshold |
| `UtHash.HashTable.Add` | a1/uthash/uthash.h:407-426 | the item is appended to the application order and the whole table stays valid |
| `UtHash.HashTable.AddInOrder` | a1/uthash/uthash.h:361-392 | the item is inserted before the first one that compares greater, a sorted list stays sorted, and the whole table stays valid |
| `UtHash.HashTable.Unlink` | a1/uthash/uthash.h:470-482 | takes an item out of the application order, head and tail included |
| `UtHash.HashTable.Delete` | a1/uthash/uthash.h:461-488 | exactly the one item leaves list and bucket; with the last one the table goes |
| `UtHash.HashTable.SortPasses` | a1/uthash/uthash.h:912-982 | passes of doubled runs until one takes a single merge give the stable sorted arrangement with both ends right |
| `UtHash.HashTable.SortOnce` | a1/uthash/uthash.h:913-974 | one pass of the sort with the last `next` set to NULL |
| `UtHash.HashTable.Sort` | a1/uthash/uthash.h:903-985 | the ordered list becomes its stable sorted arrangement with next, prev, head and tail consistent; no chain is touched, so the table stays valid and lookups answer as before |
| `UtHash.HashTable.Fsck` | a1/uthash/uthash.h:527-574 | on a table whose forward links can be walked, the library's own integrity check passes if and only if all back links, bucket counts and item counts are right |
| `UtHash.HashTable.WalkChain` | a1/uthash/uthash.h:535-553 | one chain: its length, and whether its back links are right |
| `UtHash.HashTable.WalkList` | a1/uthash/uthash.h:558-568 | the application order: its length, and whether its back links are right |
| `UtHash.HashTable.ValidPassesFsck` | a1/uthash/uthash.h:527-574 | a valid table passes the check |
| `InOrder.InOrderAddSorts` | a1/uthash/uthash.h:297-303 | an in-order add keeps a sorted list sorted and equals an append followed by the stable sort: the new item stands after its ties |
| `HashRuns.AddIfAbsent` | a1/server.c:85-93 | the directory's guarded add: the operation of the specification |
| `HashRuns.StepAdds` | a1/server.c:85-93 | which appends the item exactly when its key is new |
| `HashRuns.DeleteKey` | a1/uthash/uthash.h:461-488 | a delete by key removes the item with that key if there is one |
| `HashRuns.StepDeletes` | a1/uthash/uthash.h:461-488 | in the specification exactly that item leaves, the others keeping their order |
| `HashRuns.OrderedStepAdds` | a1/uthash/uthash.h:361-392 | in the specification of in-order adds an item with a new key goes before the first that compares greater |
| `HashRuns.AddRepresents` | a1/uthash/uthash.h:407-426 | a guarded add does to the list what it does to a map |
| `HashRuns.DeleteRepresents` | a1/uthash/uthash.h:461-488 | a delete does to the list what it does to a map |
| `HashRuns.RunRepresents` | a1/uthash/uthash.h:361-488 | over every run of operations the list stands for the map the same run builds |
| `HashRuns.RunOps` | a1/uthash/uthash.h:361-488 | every run of guarded adds and deletes, expansions included, keeps the table valid and gives the list of the specification; after it no bucket is due for an expansion, unless expanding has been given up or the ideal chain length is 10 or more |
| `HashRuns.RunThenFind` | a1/uthash/uthash.h:164-184 | a lookup after any run on an empty table answers as the map does |
| `HashRuns.OrderedRunSorted` | a1/uthash/uthash.h:361-392 | a list that starts sorted is sorted after any run of guarded in-order adds and deletes |
| `HashRuns.OrderedRunRepresents` | a1/uthash/uthash.h:361-488 | such a run builds the same map as one of plain adds |
| `HashRuns.RunOrdered` | a1/uthash/uthash.h:361-392 | a table filled by any run of guarded in-order adds and deletes is valid and sorted and stands for the map, with the same bound on its chains |
| `ChatSafety.NextInv` | a1/server.c:145-330 | every step keeps the invariant: conservation, last-read bounds, socket lists, and what each socket has been sent |
| `ChatSafety.AppendInv` | a1/server.c:153-157 | the append keeps the invariant |
| `ChatSafety.BroadcastInv` | a1/server.c:159-185 | the broadcast keeps the invariant |
| `ChatSafety.FastForwardInv` | a1/server.c:211-238 | the replay keeps the invariant, whether it succeeds or a send fails |
| `ChatSafety.AddConnectionInv` | a1/server.c:95-105 | registering a socket keeps the invariant |
| `ChatSafety.RemoveConnectionInv` | a1/server.c:107-117 | removing a socket keeps the invariant |
| `ChatSafety.LogTheorem` | a1/server.c:145-189 | in every run, what was enqueued is the log, then what the sender holds, then the queue; the log is only appended to and no last-read message moves back |
| `ChatEffects.NothingLost` | a1/server.c:145-157 | in every run, the messages of the enqueue steps taken so far, in order, are the log, then what the sender holds, then the queue |
| `ChatEffects.BroadcastReaches` | a1/server.c:170-179 | a broadcast writes another's message to each socket that can be reached, whatever became of the client's other sockets, and marks only the unreachable ones as failed |
| `ChatEffects.BroadcastPasses` | a1/server.c:165-168 | a session without a registered socket is left alone by a broadcast |
| `ChatEffects.BroadcastNotes` | a1/server.c:164-183 | to every client with a socket the message becomes the last read one, its own too, and nothing else about any client changes |
| `ChatEffects.ReplayWrites` | a1/server.c:219-230 | a replay writes each message of another from the client's last read one on, that one included, once and in order, and then the log's tail is its last read one |
| `ChatEffects.FailedReplayStartsOver` | a1/server.c:224-237 | a replay that breaks off has written a beginning of that and moves no last-read message; the next one writes it all again |
| `ChatEffects.SocketsChange` | a1/server.c:95-117 | a socket is registered behind the client's others, and removal leaves those in order |
| `ChatEffects.FailedIff` | a1/server.c:170-237 | in every run a session has failed if and only if its own socket was once found unreachable, by its replay or by a broadcast with something to send to it |
| `ChatDelivery.SessionTheorem` | a1/server.c:211-238 | in every run, what a socket has been sent is the log from the last read message, inclusive, to the end of the replay, then every broadcast from registration on, each filtered by sender |
| `ChatDelivery.SeamTheorem` | a1/server.c:219-230 | with nothing in the window, a session gets everything from its start to its last broadcast, or to the end of its replay while that is ahead, with one adjacent repeat exactly when the socket was registered before the broadcast of the last replayed message and that has come |
| `ChatDelivery.RepeatsOnlyAtSeam` | a1/server.c:165-182 | what is written to a socket moves forwards through the log and repeats only the last replayed position |
| `ChatDelivery.MissesNothingIff` | a1/server.c:294-300 | a session misses nothing if and only if everything logged after its replay and broadcast before its registration was its own client's |
| `ChatDelivery.WindowIff` | a1/server.c:294-300 | log positions are skipped if and only if some message had both its append and its broadcast between replay and registration |
| `ChatDelivery.DeliveryTheorem` | a1/server.c:145-300 | for a socket replayed at one step and registered at a later one with no whole message in between, what it was sent is the filtered log from the last read message through the last broadcast, or the end of the replay while that is ahead, apart from one adjacent repeat at most |
| `ChatLoss.WindowOpens` | a1/server.c:294-300 | steps of a concrete run in which a connected client's message goes out between another's replay and registration |
| `ChatLoss.WindowCanLose` | a1/server.c:294-300 | a concrete run, every message of which comes from a listener thread of the run, after which a client was not sent a message of another and nothing that can follow will send it |
| `ChatLoss.CanStillGetIff` | a1/server.c:165-230 | a message that was broadcast and not sent to a client can still arrive by some continuation if and only if the client has not read past it |
| `ChatLoss.FailedSendCanBeMadeUp` | a1/server.c:173-181 | a broadcast none of whose sends to a client arrives leaves the message as its last read one, so that a reconnect can still bring it |
| `ChatLoss.NextBroadcastLoses` | a1/server.c:181 | the next broadcast while the client has a socket loses such a message for good |
| `ChatReconnect.NextHeard` | a1/server.c:211-326 | a step that is orderly for a client, whatever happens to the others, keeps what that client has heard complete up to its last-read message |
| `ChatReconnect.ReconnectTheorem` | a1/server.c:165-326 | in every run that is orderly for one client, over any number of its disconnects and reconnects, it has been sent exactly the others' messages up to its last-read one, in order, none skipped |
| `ChatReconnect.RepeatTheorem` | a1/server.c:165-230 | in such a run a position is repeated only where a replay meets the broadcasts, and then it is the last replayed one, or where a new session begins, and then it is the one its replay started from |
| `ChatServer.Server.EnqueueMessage` | a1/server.c:285-291 | handing a message to the sender is the Enqueue step |
| `ChatServer.Server.DequeueMessage` | a1/server.c:151 | taking a message is the Dequeue step |
| `ChatServer.Server.AppendToLog` | a1/server.c:74-78 | the append is the Append step |
| `ChatServer.Server.BroadcastLast` | a1/server.c:159-185 | the broadcast loop over clients and sockets is the Broadcast step, for any set of unreachable sockets |
| `ChatServer.Server.ServeClient` | a1/server.c:164-183 | one round of the loop: skip a client without sockets, send unless it is the sender's own, note the last-read message |
| `ChatServer.Server.SendToAll` | a1/server.c:170-179 | the loop over one client's sockets sends to each once, going on after a failure |
| `ChatServer.Server.ReplayLog` | a1/server.c:211-238 | the replay is the FastForward step, or the failing one that leaves the last-read message alone, which it is exactly when there is more to send than the connection lasts for |
| `ChatServer.Server.WriteReplay` | a1/server.c:219-229 | the replay loop writes the others' messages from the last-read one, inclusive, and stops at the first failing send |
| `ChatServer.Server.AddSocket` | a1/server.c:95-105 | registering is the AddConnection step |
| `ChatServer.Server.RemoveSocket` | a1/server.c:107-117 | removing is the RemoveConnection step |
| `Message.WireRoundTrip` | a1/message.c:46-136 | unmarshalling undoes marshalling whatever follows, a missing payload coming back as zeros |
| `Message.UnmarshalRoundTrip` | a1/message.c:81-108 | a buffer that is unmarshalled is what the result marshals to |
| `Message.WireLayout` | a1/message.c:46-79 | the wire form byte by byte: id, kind and length with the most significant byte first, then the payload or zeros |
| `Message.AnnouncedLayout` | a1/message.c:110-136 | id, kind and length of a header, byte by byte |
| `Message.RoundTrip16` | a1/message.c:63-69 | network byte order of 16 bits is a bijection |
| `Message.DecodeEncode32` | a1/message.c:71-73 | decoding undoes encoding of 32 bits |
| `Message.EncodeDecode32` | a1/message.c:100-102 | encoding undoes decoding of 32 bits |
| `Message.Terminated` | a1/message.c:15-22 | the first bytes up to 2040 of them, with the last one zeroed |
| `Message.Message.constructor` | a1/message.c:10-25 | `create_message`: the capped copy with a zero at the end |
| `Message.Message.Header` | a1/message.c:27-38 | `create_message_header`: the length as given and no payload |
| `Message.MessageMarshal` | a1/message.c:46-79 | the buffer is the wire form of the message, zeros standing for a missing payload |
| `Message.MessageUnmarshal` | a1/message.c:81-108 | the message is the one the buffer encodes |
| `Message.MessageUnmarshalHeader` | a1/message.c:110-136 | the header is the one the buffer encodes |
| `MessageNet.RecvHeader` | a1/message_net.c:18-40 | however the reads are cut, the first eight bytes are decoded and exactly they are consumed; NULL exactly when a read failed |
| `MessageNet.RecvPayload` | a1/message_net.c:42-83 | the payload is cut to 2040 bytes with a zero last byte and exactly `Taken` bytes are consumed |
| `MessageNet.Fill` | a1/message_net.c:55-64 | the first loop fills the payload from the stream |
| `MessageNet.Discard` | a1/message_net.c:65-79 | the second loop throws away exactly the rest of the announced length, and nothing when that length is negative as an `int` |
| `MessageNet.SendMessage` | a1/message_net.c:85-118 | on success exactly the wire form is written, however it is cut; on failure a prefix of it |
| `MessageNet.AlignedIff` | a1/message_net.c:42-83 | after any message the receiver stands at the start of the next one if and only if a connect or disconnect announces no payload and any other message a length of at most INT_MAX |
| `MessageNet.StreamTheorem` | a1/message_net.c:18-83 | the messages of a list come out in order and what follows is read as if it stood alone |
| `MessageNet.CreatedArriveUnchanged` | a1/message_net.c:18-118 | messages made by `create_message` arrive as they were sent |
| `MessageNet.Listen` | a1/server.c:302-319 | the listener's loop hands on what the specification says for the stream, for any fragmentation; up to a failed read, a prefix of it |
| `MessageNet.ListenOnce` | a1/server.c:303-318 | one round: disconnects are handed on and stop, connects are dropped, anything else is read with its payload |
| `MessageNet.ConnectDropped` | a1/server.c:308-312 | a connect on an open connection leaves no trace: what follows is heard as if it had not come |
| `MessageNet.NoConnects` | a1/server.c:308-312 | no connect is ever handed on |
| `MessageNet.OneBecomes` | a1/server.c:305-318 | what is handed on for one message, byte by byte: nothing for a connect, a disconnect as it is, and of any other one sender, kind and the first 2040 bytes, the last one zeroed |
| `MessageNet.DisconnectTheorem` | a1/server.c:305-307 | a disconnect ends the session there, whatever bytes follow |
| `JobQueue.JobQueue.Enqueue` | a1/jobqueue.c:70-95 | the item is added at the end, writing to no node but the last live one although `tail` may dangle |
| `JobQueue.JobQueue.Dequeue` | a1/jobqueue.c:97-118 | the oldest item leaves; no remaining node is written to |
| `JobQueue.JobQueue.IsEmpty` | a1/jobqueue.c:120-123 | true exactly when nothing is queued |
| `JobQueue.RunJobs` | a1/jobqueue.c:70-118 | over any mix of operations, what was taken, one thing for each take, and then what is left are what was there and then what was added |
| `LinkedList.LList.InsertHead` | a1/linked_list.c:67-79 | the value is added in front, links and ends kept |
| `LinkedList.LList.InsertTail` | a1/linked_list.c:80-92 | the value is added at the end, links and ends kept |
| `LinkedList.LList.RemoveHead` | a1/linked_list.c:94-112 | the first value leaves, the last one leaving both ends NULL |
| `LinkedList.LList.RemoveTail` | a1/linked_list.c:114-130 | the last value leaves |
| `LinkedList.LList.RemoveNode` | a1/linked_list.c:132-149 | exactly the given node leaves, wherever it stands |
| `LinkedList.LList.RemoveValue` | a1/linked_list.c:151-162 | the first node with the value leaves; nothing changes when there is none |
| `LinkedList.LList.IsEmpty` | a1/linked_list.c:61-64 | true exactly when the list is empty |
| `LinkedList.RemoveFirst` | a1/linked_list.c:151-162 | removal by value takes out the first occurrence |
| `LinkedList.RemoveAbsent` | a1/linked_list.c:151-162 | removal by value leaves a list without it alone |
| `RingBuffer.IndexMapsInverse` | a1/uthash/utringbuffer.h:95-101 | the real and the fake index map stay within the elements and undo each other |
| `RingBuffer.UnsignedIndexIff` | a1/uthash/utringbuffer.h:95 | computed in 32 bits the real index is right for every position if and only if the capacity is at most 2^31 |
| `RingBuffer.StepsVisit` | a1/uthash/utringbuffer.h:103-106 | iteration by next from NULL visits the elements in order, by prev in reverse order, and each comes back to NULL after all of them |
| `RingBuffer.EmptyStays` | a1/uthash/utringbuffer.h:103-106 | in an empty buffer next and prev of NULL are NULL |
| `RingBuffer.EachVisitedOnce` | a1/uthash/utringbuffer.h:100-104 | each slot in use is visited by exactly one step |
| `RingBuffer.RingPush` | a1/uthash/utringbuffer.h:84-89 | a push into the slots appends the element, the oldest one leaving a full buffer |
| `RingBuffer.RingAt` | a1/uthash/utringbuffer.h:95-97 | position j is found where the real index says |
| `RingBuffer.RingBuffer.PushBack` | a1/uthash/utringbuffer.h:84-89 | the buffer reads as the last n pushes, and the destructor has been called on exactly the elements that have left, in order |
| `RingBuffer.RingBuffer.Elt` | a1/uthash/utringbuffer.h:97 | position j of the contents, or NULL outside them |
| `RingBuffer.RingBuffer.Clear` | a1/uthash/utringbuffer.h:50-66 | every element ever pushed has been destroyed, in order, and the buffer is empty |
| `Election.Server.CheckElection` | a2/src/server.py:92-136 | takes the lead exactly when the list is no longer than the last, every znode answers and the least is its own; follows the least one otherwise; collects the ports in the order of the list, up to the one that raises; changes what the cluster sees of it as `Checked` says; it completes exactly when no `zk.get` raises, and an exception changes neither flag nor leader port |
| `Election.Server.InitElection` | a2/src/server.py:56-69 | the first check, whose list is never longer than the recorded count: flag, leader port, peer ports and completion |
| `Election.PeersUnique` | a2/src/server.py:113-118 | the list and the replies leave no choice of ports |
| `Election.Least` | a2/src/server.py:112-122 | the minimum of the listed znodes, None for an empty list |
| `Election.CheckInv` | a2/src/server.py:92-136 | a check, even on an outdated list, keeps that no live server has an earlier znode than a live leader |
| `Election.CreateInv` | a2/src/server.py:66 | so does creating a znode |
| `Election.AtMostOneLeader` | a2/src/server.py:56-136 | in every run in which no server without a znode is shown an empty list there is never more than one live leader |
| `Election.StartUpTakesLeadIff` | a2/src/server.py:112-126 | a server without a znode takes the lead if and only if it is shown an empty list |
| `Election.EmptyStartUpElectsTwo` | a2/src/server.py:112-126 | two servers that start up so both lead |
| `Election.CurrentListTakesLeadIff` | a2/src/server.py:102-128 | shown the current znodes, a server takes the lead if and only if the list is no longer than its last one, every znode answers and no earlier one is left |

## Left out

- UtString.UtString.Find: a start position before the buffer is excluded when the needle is short enough to be searched for, since the source would read outside the buffer.
- UtString.UtString.FindR: a start position beyond the buffer is excluded when the needle is short enough to be searched for, for the same reason.
- UtHash.HashTable.Add: counters and bucket numbers are unbounded, and the key is compared as a string; wrap-around of 32-bit counters is not modelled.
- UtHash.HashTable.Delete: the freed table is not modelled beyond the NULL head.
- Kmp.FindWithTableR: for a needle beyond INT_MAX the answer is stated when the needle does not fit and when the haystack ends like the part of the needle that is compared, which covers every needle whose cast length is not positive; after a mismatch in a longer one the source goes on with positions it has not compared, and what it then answers is not stated.
- UtList.LLSort: the run width is unbounded; its doubling beyond the `int` range is not modelled.
- MessageNet.RecvPayload: a payload announced as empty is excluded, since the source would write before the buffer.
- MessageNet.Listen: a failed header read ends the loop; the source would dereference NULL there. End of stream, on which the source's loops make no progress, counts as a failed read.
- Message.MessageMarshal: messages whose wire form is longer than an `int` can count are excluded.
- JobQueue.JobQueue.Dequeue: waiting on the condition variable is left to the caller, so the queue is not empty.
- RingBuffer.RingBuffer.PushBack: a buffer of capacity 0 is excluded, since it has no slot to write; copying is plain assignment and a destructor is always present.
- RingBuffer.RingBuffer.Elt: index arithmetic is exact; `UnsignedIndexIff` says when 32 bits suffice.
- ChatReconnect.ReconnectTheorem: says nothing of a client with two connections at once or whose own sends fail; `ChatLoss` says what a failed send costs.
- Election.AtMostOneLeader: excludes the start-up case of `EmptyStartUpElectsTwo`; a check is one step, and the running watch and initialisation of one process do not interleave inside it.
- Election.Server.CheckElection: the copy of the leader's data at the end is not modelled; paths are compared as sequence numbers, which the ten-digit names order alike.
- ChatServer.Server.ReplayLog: sockets are sequences per client; `LinkedList` proves the pointer form of the list on its own.
- `HASH_SELECT`, the Bloom filter, out-of-memory paths and the variants for compilers without `decltype`.
- `HASH_REPLACE`, `HASH_CLEAR` and the concrete hash functions.
- The remaining `utlist.h` macros (replace, prepend before an element, searches, the circular edits), `utarray.h`, `utstack.h` and string append and formatting: easy sequence refinements.
- Sockets, threads, handshake, option parsing and client list parsing of the chat server, and all of its client.
- Replication in the Python server: broadcasts are unordered and peer lists are not refreshed when a server joins, so agreement is not something the code keeps. Flask, Kazoo and JSON are not part of this model.
