# A model of libfaketime

libfaketime makes a program see another time than the system's.  This project models the
parts of it that carry state, and proves what they are relied on for:

* **The intrusive hash table** (`Bits`, `ChainBound`, `MergeSort`, `HashNodes`, `HashChains`,
  `ListSort`, `Uthash`, `TableRuns`).  The macros of `src/uthash.h` thread one set of nodes
  through an application-order list and through one chain per bucket.  `Uthash.Table.Valid`
  is the invariant that `HASH_FSCK` (src/uthash.h:506-553) spells out, together with the
  hash value of every node and the chain bound that the comment at src/uthash.h:877-905
  claims.  Every operation keeps it, bucket doubling and the in-place mergesort included,
  and whole runs agree with a plain list of keys.
* **The index of condition variables** (`CondIndex`): the user of that table.
* **The fake clock** (`TimeOps`, `FakeClock`, `ClockLaws`, `Settime`, `Deadlines`,
  `FileTimes`, `Modes`).  Saturating time arithmetic, `parse_ft_string`, the configuration cache,
  `fake_clock_gettime`, `clock_settime`, conversion of deadlines to the real clock, and file
  times.  The class `FakeClock.Process` holds the library's static variables and updates
  them in place.  The laws are proved over arbitrary sequences of calls, and stated once more
  as contracts of methods that run a process (`ClockLaws.ReadUnderXreset`,
  `ClockLaws.ReadWithBothCaches`, `Settime.SetThenRead`).
* **The shared clock** (`SharedClock`): any number of processes that agree on a start time,
  hand out ticks, and replay a recorded file, as a step relation at the level of single
  reads and writes of the shared memory, with the lock as a mutex.
* **The once-initialiser** (`OnceInit`): threads with stacks of re-entrant calls.
* **Records and text** (`Records`, `Text`): the timestamp file with its write loop, in-place
  comment stripping, and the search in a comma-separated list.

`double` and `long double` are exact reals, `time_t` has 64 bits, the wide integer is
`__int128`.  The real clock, the environment, the configuration file, the allocator's and
the locks' answers and the hash function are inputs, and every statement is for all of them.

The comment at src/time_ops.h:44-45 says that the comparison macro does not work for `>=` and
`<=`.  The code does work for them; the model follows the code and proves it
(`TimeOps.TimerCmpTotal`).

Some properties do not hold without a condition.  For each there is an input at which the code
fails it, and the exact condition under which it meets it:

* A deadline that has passed on the fake clock need not have passed on the real clock before
  the start time: `Deadlines.BeforeStartCounterexample` (at half speed) and
  `Deadlines.LowestBaseCounterexample` (without a rate); exactly when:
  `Deadlines.PassedExactly`.  One that is still ahead may have passed on the real clock:
  `Deadlines.OutOfReachCounterexample`; exactly when: `Deadlines.PendingExactly`.
* An answer may use a configuration older than the cache duration:
  `ClockLaws.CpuTimeUsesOldRate` (clocks for CPU time never look) and
  `ClockLaws.UnreadableKeepsOldText` (a failed look counts as a look); exactly when:
  `ClockLaws.RecentExactly`.
* A stat may consume a tick, and then loses the tick setting: `FileTimes.StatConsumesTick`;
  exactly when: `FileTimes.StatTicksExactly`.
* A wait may use the wrong clock after a destroy was refused the write lock:
  `CondIndex.LeftoverMisleads`; exactly when: `CondIndex.AgreesExactly` at one point, and over
  a run `CondIndex.AgreesWhileLive` and `CondIndex.AgreesThroughout`.
* clock_settime may have no effect after a load file has been used up:
  `Settime.UsedUpFileMisleads`; exactly when: `Settime.FollowsExactly` for the clock and
  `Settime.SetTakesEffectExactly` for the next reading.
* With saturation the inverse of the clock is not exact: `Deadlines.TooFarCounterexample`;
  exactly when, without a rate: `Deadlines.ExactWithoutRate`; with a rate `Deadlines.CloseWithRate` says by how much.
* The search in a comma-separated list runs past the end for an empty needle exactly when the
  list has no empty field: `Text.StrArrayContains`.

`dafny verify dfyconfig.toml` checks the project.

## Model

| member | source | states |
|---|---|---|
| `Bits.MaskIsRemainder` | src/uthash.h:430-433 | the mask that selects a bucket is the remainder of the hash value by the number of buckets |
| `Bits.ShiftIsQuotient` | src/uthash.h:919-921 | the shift in the ideal chain length is a division by twice the buckets |
| `ChainBound.IdealIsCeiling` | src/uthash.h:919-921 | the shift-and-mask formula is the ceiling of items over new buckets, at least 1 |
| `ChainBound.IdealAtMostTen` | src/uthash.h:840-859 | an insertion into a table within the bound finds an ideal length between 1 and 10, so a doubling always starts from such a length |
| `ChainBound.EmptyIsBounded` | src/uthash.h:212-242 | a new table is within the chain bound |
| `ChainBound.AddKeepsBound` | src/uthash.h:840-859 | an insertion that does not double the table keeps every chain within 10*(expand_mult+1) and the budget of 19 per bucket |
| `ChainBound.RemoveKeepsBound` | src/uthash.h:862-875 | a removal keeps the bound |
| `ChainBound.ExpandKeepsBound` | src/uthash.h:877-954 | a doubling re-establishes the bound however unevenly the hash function spreads the items |
| `ChainBound.MoveCounts` | src/uthash.h:929-932 | counting items beyond the ideal one by one adds up to the sum over buckets of max(0, count - ideal) |
| `ChainBound.OwedAfterOne` | src/uthash.h:929-932 | dividing anew whenever a chain longer than the ideal grows gives the multiplier m with ideal * m <= count < ideal * (m + 1), and 0 for chains that are not longer |
| `ChainBound.ItemsWithinBudget` | src/uthash.h:877-905 | a table within the bound holds at most 19 items per bucket |
| `MergeSort.SortPermutes` | src/uthash.h:961-1043 | the bottom-up mergesort rearranges its input |
| `MergeSort.MergeIsStable` | src/uthash.h:988-1028 | merging two sorted runs keeps equal elements in order, those of the first run first |
| `MergeSort.PassSorts` | src/uthash.h:961-1043 | a pass turns sorted runs of length k into sorted runs of length 2k |
| `MergeSort.PassIsStable` | src/uthash.h:961-1043 | a pass keeps the order of equal elements |
| `MergeSort.SortIsStable` | src/uthash.h:961-1043 | for a consistent comparison the result is the sorted, stable permutation of the input |
| `HashChains.PushFront` | src/uthash.h:844-849 | the pointer writes that put a node in front of a chain leave every chain linked both ways |
| `HashChains.Unlink` | src/uthash.h:869-874 | the pointer writes that take a node out of a chain leave every chain linked both ways |
| `HashChains.ChainsHoldPush` | src/uthash.h:840-859 | after an insertion each node is in the chain its hash selects, once, and in no other |
| `HashChains.ChainsHoldRemove` | src/uthash.h:862-875 | the same after a removal |
| `HashChains.HashedShuffle` | src/uthash.h:961-1043 | rearranging the list keeps every hash value right |
| `ListSort.Emit` | src/uthash.h:1017-1027 | appending one node to the output list links it both ways and does not disturb the inputs |
| `ListSort.Advance` | src/uthash.h:977-986 | stepping insize nodes forward finds the start of the second run and the length of the first |
| `ListSort.MergeRuns` | src/uthash.h:987-1028 | the inner loop appends the merge of two runs to the output list |
| `ListSort.MergePair` | src/uthash.h:976-1029 | one round of the middle loop merges the next two runs and stops where they end |
| `ListSort.MergePass` | src/uthash.h:971-1033 | one pass over the list is the pass of the specification, with forward and backward links; at most one merge means the list is sorted |
| `ListSort.Terminate` | src/uthash.h:1031-1033 | closing the output list gives a proper doubly linked list |
| `ListSort.Sort` | src/uthash.h:961-1043 | the loop over passes ends, and the list is the mergesort of the original one with its head, tail and links |
| `Uthash.Table.constructor` | src/uthash.h:396-405 | a null head is a valid, empty table |
| `Uthash.Table.Find` | src/uthash.h:156-173 | returns an element of the table with the key, and null exactly when there is none, also when keys repeat |
| `Uthash.Table.FindInBkt` | src/uthash.h:818-837 | the walk over one chain ends and finds the key if the chain holds it |
| `Uthash.Table.MakeTable` | src/uthash.h:212-242 | a new table around its first element: one-element list, 32 empty chains, all counters at zero, expansion not inhibited |
| `Uthash.Table.AppendList` | src/uthash.h:278-284 | the element becomes the last of the list, links and tail included; the chains stay as they are |
| `Uthash.Table.LinkIn` | src/uthash.h:396-412 | the part of an addition before the buckets: hash value, new table or end of the list |
| `Uthash.Table.PushIntoBkt` | src/uthash.h:840-849 | the element enters the chain its hash selects, and only that bucket's count grows |
| `Uthash.Table.ExpandIfFull` | src/uthash.h:850-859 | the table doubles exactly when the chain has reached 10*(expand_mult+1) and expansion is not inhibited; the chain bound holds afterwards |
| `Uthash.Table.AddToTable` | src/uthash.h:337-345 | list and chains hold the same nodes again, item count and chain bound included |
| `Uthash.Table.Add` | src/uthash.h:396-415 | for any new element, its key in the table or not: keeps the invariant; the list is the old one plus the element; the table doubles exactly when the chain would reach 10 * (expand_mult + 1) and expansion is not inhibited, and then has the ideal length, excess, multipliers and inhibition of a doubling; otherwise one bucket counts one more and no other counter moves; a first element gets 32 buckets |
| `Uthash.Table.MoveNode` | src/uthash.h:927-938 | one node moves to its new chain; the bucket has the multiplier it is owed, and the count of items beyond the ideal follows |
| `Uthash.Table.MoveChain` | src/uthash.h:924-940 | a whole old chain moves although its links are overwritten on the way |
| `Uthash.Table.Redistribute` | src/uthash.h:923-941 | after the loop over the old buckets every node has been moved exactly once |
| `Uthash.Table.Rehash` | src/uthash.h:912-941 | the new buckets hold exactly the nodes of the table, each in the chain its hash selects |
| `Uthash.Table.Install` | src/uthash.h:942-945 | installing the filled buckets gives a table whose list and chains agree, with the chain bound if the ideal length is at most 10 |
| `Uthash.Table.ExpandBuckets` | src/uthash.h:906-954 | twice the buckets, list and chains still agree; ideal length, nonideal items, every multiplier (ideal * m <= count < ideal * (m + 1), or 0), ineffective expansions and the inhibit flag have their defined values; an ideal length of at most 10 gives the chain bound |
| `Uthash.Table.DelInBkt` | src/uthash.h:862-875 | exactly the given node leaves its chain, and the count follows |
| `Uthash.Table.UnlinkList` | src/uthash.h:461-471 | exactly the given node leaves the list; head, tail and links follow |
| `Uthash.Table.DeleteOneOfMany` | src/uthash.h:459-475 | removal from a table with more elements keeps every part of the invariant |
| `Uthash.Table.Delete` | src/uthash.h:450-477 | keeps the invariant, removes exactly the given element and no other, keeps the order of the rest; one bucket counts one less and no other counter moves; the last removal leaves a null head |
| `Uthash.Table.SortLinks` | src/uthash.h:961-1043 | only list links are written; the chains are untouched |
| `Uthash.Table.SortList` | src/uthash.h:961-1043 | head, tail and both links are those of the sorted list, and list and chains still agree |
| `Uthash.Table.Sort` | src/uthash.h:961-1043 | keeps the whole invariant; the list becomes a permutation, and for a consistent comparison the stable sort, of the old list |
| `TableRuns.Step` | src/uthash.h:396-477 | one addition or removal does to the table what it does to a plain list of keys |
| `TableRuns.List` | src/uthash.h:506-553 | walking the list from the head ends and yields the keys in order |
| `TableRuns.Observe` | src/uthash.h:506-553 | what a caller sees of a valid table: keys, lookups, item count, bucket counts summing to it, chains within their limits |
| `TableRuns.Churn` | src/uthash.h:396-477 | after any run of additions and removals the table lists and finds exactly the keys a plain list has; while expansion is not inhibited there are at most 19 items per bucket and every chain is within 10*(expand_mult+1) |
| `CondIndex.Registry.Register` | src/libfaketime.c:5051-5051 | one more entry for the variable, and no other changes |
| `CondIndex.Registry.Unregister` | src/libfaketime.c:5086-5086 | exactly one entry of that variable leaves the index |
| `CondIndex.Registry.CondInit` | src/libfaketime.c:5020-5062 | on every error path and on success, the entries grow exactly by a variable that is initialised on the monotonic clock; the result is that of the step that failed |
| `CondIndex.InitResultExactly` | src/libfaketime.c:5020-5062 | the result is 0 exactly when every step succeeded, and otherwise what the first step to fail reported |
| `CondIndex.Registry.CondDestroy` | src/libfaketime.c:5071-5094 | an entry of the variable goes exactly when the real destroy and the write lock succeed; the result is that of the step that failed |
| `CondIndex.Registry.WaitClock` | src/libfaketime.c:5171-5183 | without a deadline nothing is looked up; a failing lock call is reported; otherwise the clock is the monotonic one exactly when the variable has an entry |
| `CondIndex.Replay` | src/libfaketime.c:5020-5183 | after any run of inits and destroys over a real hash table a wait picks the monotonic clock exactly when an entry is there; without double init that is the clock chosen if and only if none is left over or the choice was the monotonic one |
| `CondIndex.EntriesAccountedFor` | src/libfaketime.c:5020-5094 | every entry belongs to a live variable on the monotonic clock or was left behind by a destroy that was refused the write lock |
| `CondIndex.AgreesExactly` | src/libfaketime.c:5020-5183 | a wait would use the chosen clock if and only if the variable chose the monotonic one or has no entry left over |
| `CondIndex.AgreesThroughout` | src/libfaketime.c:5020-5183 | throughout a run the index agrees with the record, destroyed variables included, if and only if no destroy of a variable on the monotonic clock was refused the write lock |
| `CondIndex.AgreesWhileLive` | src/libfaketime.c:5020-5183 | throughout a run every wait on a live variable would use the chosen clock if and only if no new variable on another clock took over an address with an entry left over |
| `CondIndex.LeftoverMisleads` | src/libfaketime.c:5080-5083 | after such a destroy a new variable on the default clock at the same address waits on the monotonic clock |
| `TimeOps.AddTotal` | src/time_ops.h:52-83 | addition is integer addition of sub-second units, clamped; overflow is reported exactly when it clamps |
| `TimeOps.SubTotal` | src/time_ops.h:84-112 | subtraction likewise |
| `TimeOps.MulTotal` | src/time_ops.h:113-143 | scaling is the product truncated toward zero and clamped; overflow is reported exactly when the exact product is out of range |
| `TimeOps.MulWhole` | src/time_ops.h:113-143 | scaling by a whole number is clamped integer multiplication |
| `TimeOps.TimerCmpTotal` | src/time_ops.h:48-51 | all six comparison operators compare the instants |
| `TimeOps.ScaleMonotone` | src/time_ops.h:113-143 | scaling by a factor that is not negative keeps order |
| `TimeOps.TickValueNs` | src/libfaketime.c:1413-1415 | the k-th tick is the base plus k increments, clamped |
| `TimeOps.TicksIncrease` | src/libfaketime.c:1393-1423 | until saturation, ticks with a positive increment strictly increase, so they are distinct |
| `FakeClock.Process.ClockGettime` | src/libfaketime.c:4498-4787 | the new statics and the reading, in every mode and for every clock, with faking suspended or limited, a load file and a save file included; the rows of `Modes` say what these are |
| `FakeClock.Process.ReadAll` | src/libfaketime.c:4498-4787 | any sequence of calls on a process reads, and leaves behind, what the run of the specification does |
| `FakeClock.RunCalls` | src/libfaketime.c:4498-4787 | the same from given statics, so the laws below hold for the in-place updates |
| `Modes.DateFreezes` | src/libfaketime.c:4685-4690 | from initialisation on, under an unchanged text that is a date, every faked call on every clock reads that date |
| `Modes.OffsetRuns` | src/libfaketime.c:4698-4738 | an offset, with or without a rate: every clock reads the start time plus the offset, plus what has passed of its own real time since the start, at the rate |
| `Modes.FromRuns` | src/libfaketime.c:3613-3643 | a date after @: the same with that date as the base, from the moment of the parse, or from the start with FAKETIME_DONT_RESET |
| `Modes.TicksCount` | src/libfaketime.c:4692-4696 | with a tick modifier every call consumes a tick and reads the base plus as many increments as ticks were consumed before |
| `Modes.ModifierAloneIsReal` | src/libfaketime.c:4685-4690 | a modifier alone leaves every clock with the real time |
| `Modes.FollowedFileReads` | src/libfaketime.c:3645-3691 | a look at a text that follows a file starts the clocks at its time, to the second, or freezes them at its exact time |
| `Modes.RecordIsReplayed` | src/libfaketime.c:4673-4680 | while a load file lasts a call returns its record as it is |
| `Modes.UnfakedCalls` | src/libfaketime.c:4512-4521 | with faking suspended or outside the limits the time passed in comes back; CPU time is scaled by the rate and nothing else |
| `Modes.ExcludedFails` | src/libfaketime.c:4740-4743 | in FT_NOOP mode a call fails and leaves the time passed in, until a text with @ or % is parsed |
| `Modes.RemembersPair` | src/libfaketime.c:4754-4784 | a faked call remembers the real time and its answer, for the clock asked for |
| `Modes.XresetAnchors` | src/libfaketime.c:3705-3721 | under FAKETIME_XRESET a new rate moves the start of every clock to its last real time, and the base to the last fake real-time reading |
| `Modes.InstantsOf` | src/libfaketime.c:4702-4727 | each clock goes by its own instant of the start time, and any other clock by the real-time one |
| `Modes.InstantsWith` | src/libfaketime.c:4755-4783 | the instant of one clock is replaced, those of the others are not |
| `Modes.TextFound` | src/libfaketime.c:4645-4668 | a look takes FAKETIME if it was set at the start or if there is no file, else the text of the file, and nothing from an unreadable one |
| `Modes.TextAtStart` | src/libfaketime.c:4263-4272 | initialisation parses FAKETIME, else the file, and later looks keep to that choice |
| `Modes.LooksExactly` | src/libfaketime.c:4616-4639 | a call looks exactly when the cache is off, a look is forced, the last one is more than the duration ago, or none has been recorded |
| `ClockLaws.ShiftedNs` | src/libfaketime.c:4700-4736 | the reading on structs is a clamped computation on nanoseconds |
| `ClockLaws.FakeNsMonotone` | src/libfaketime.c:4704-4736 | for every positive rate the reading never decreases in the real time, saturation included |
| `ClockLaws.ReadingsInOrder` | src/libfaketime.c:4704-4736 | the same as the callers compare times |
| `ClockLaws.ParsedKeepsLine` | src/libfaketime.c:3698-3722 | after a new offset and rate the last real/fake pair still lies on the clock's line |
| `ClockLaws.BootsOnLine` | src/libfaketime.c:3563-3722 | a process whose first configuration is an offset with a rate starts on a line |
| `ClockLaws.RatedCall` | src/libfaketime.c:4704-4761 | one read keeps the invariant and does not go below the previous read |
| `ClockLaws.RatedRun` | src/libfaketime.c:4704-4761 | the invariant holds along a whole run |
| `ClockLaws.XresetNeverGoesBack` | src/libfaketime.c:3698-3722 | with FAKETIME_XRESET, over any run of reads and rate changes no reading is below an earlier one |
| `ClockLaws.XresetFromBoot` | src/libfaketime.c:4263-4272 | the same for every run of a process from its initialisation on |
| `ClockLaws.ReadUnderXreset` | src/libfaketime.c:4498-4761 | a process that makes the calls of such a run returns readings in order |
| `ClockLaws.CallIgnoresCache` | src/libfaketime.c:4616-4671 | a call answers the same and leaves the same clock under any two cache states |
| `ClockLaws.CacheIsTransparent` | src/libfaketime.c:4616-4671 | with an unchanging configuration that does not follow a file, a run reads the same times whatever the cache settings, also from the first call of a process |
| `ClockLaws.CacheTransparentFromBoot` | src/libfaketime.c:4263-4272 | processes initialised alike but for the cache settings read the same times |
| `ClockLaws.ReadWithBothCaches` | src/libfaketime.c:4616-4671 | two processes that differ in nothing but their cache return the same readings |
| `ClockLaws.LookOrKeep` | src/libfaketime.c:4639-4671 | any call, unreadable files and CPU-time clocks included: a look that finds a text puts it into effect, every look is recorded, nothing else changes text or record |
| `ClockLaws.InEffect` | src/libfaketime.c:4616-4671 | after any run the text in effect is the one the latest successful look found, and the record is of the latest look |
| `ClockLaws.ConfigIsRecent` | src/libfaketime.c:4616-4671 | in any run every faked answer comes at most the cache duration after a look at the configuration, and uses what that look found if it found something |
| `ClockLaws.FailedLookIsLate` | src/libfaketime.c:4616-4659 | a look that found nothing comes more than the cache duration after the last that did |
| `ClockLaws.RecentExactly` | src/libfaketime.c:4512-4671 | the text behind an answer was fetched at most the cache duration before if and only if the latest look found it and, for a call that does not get to the cache (a CPU-time clock, or outside the limits), the check would not have asked for another look |
| `ClockLaws.CpuTimeUsesOldRate` | src/libfaketime.c:4512-4521 | a CPU-time clock answers with a rate that was replaced longer than the cache duration ago |
| `ClockLaws.UnreadableKeepsOldText` | src/libfaketime.c:4659-4663 | after a look at an unreadable file the old text stays in effect beyond the cache duration |
| `ClockLaws.LimitedByCalls` | src/libfaketime.c:4539-4589 | with limits on the number of calls exactly the calls from the first limit up to the second, counted from 1, are faked; the others return the time passed in |
| `ClockLaws.RunKeepsSettings` | src/libfaketime.c:4639-4668 | under an unchanged text no run of calls changes mode, anchors, offset, rate or ticks |
| `Modes.LimitedBySeconds` | src/libfaketime.c:4577-4589 | with limits in seconds a call is faked exactly between them, counted on its own clock |
| `Settime.ClockSettime` | src/libfaketime.c:5313-5356 | each error in its own case; an early error changes nothing, a failing setenv leaves the configuration file switched off; otherwise the offset goes to the environment, which takes precedence and is looked at next; an overflow of the difference is undefined |
| `Settime.OffsetMicrosClose` | src/libfaketime.c:5339-5343 | the printed offset is within half a microsecond of the difference asked for |
| `Settime.DoubleToTimespecExactly` | src/libfaketime.c:202-233 | a number of seconds is accepted exactly when strictly between the ends of time_t, and becomes the whole nanoseconds at or below it |
| `Settime.MicrosReadBack` | src/libfaketime.c:202-233 | a printed offset parses to exactly that many microseconds, negative ones included |
| `Settime.FollowsParsed` | src/libfaketime.c:3515-3609 | every parse of a text, whatever was before, leaves a clock that runs at the offset if the text is one without a rate |
| `Settime.FollowsAfter` | src/libfaketime.c:4639-4671 | one call: the clock runs at the plain offset in effect afterwards if and only if it has parsed a text or did before, and the call has not used up a load file that ends elsewhere |
| `Settime.FollowsExactly` | src/libfaketime.c:4639-4680 | at the end of any run the clock runs at the plain offset in effect if and only if no call used up a load file that ends elsewhere without a text being parsed since |
| `Settime.FollowsAlways` | src/libfaketime.c:4263-4272 | in every state that a process without a load file reaches from its initialisation the clock runs at the plain offset in effect |
| `Settime.PlainReading` | src/libfaketime.c:4704-4736 | at a plain offset the reading is the real time plus the offset when no sum saturates |
| `Settime.PlainReadingExactly` | src/libfaketime.c:4704-4736 | for a clock started after 1970 and read after its start it is so if and only if offset start and offset reading are representable |
| `Settime.SettledRun` | src/libfaketime.c:4633-4668 | from the first reading after a clock_settime the clock is at the new offset, and stays there |
| `Settime.ReadsWhatWasSet` | src/libfaketime.c:5339-5356 | after clock_settime(T) at real time R every later reading at R' is T + (R' - R) within 500 nanoseconds, whatever mode but FT_NOOP was in effect, also after a load file unless the same text was in effect |
| `Settime.SetAfterRun` | src/libfaketime.c:5313-5356 | the same after any run from initialisation, load file included, unless the text was in effect already and a used-up file has replaced its base |
| `Settime.SetTakesEffectExactly` | src/libfaketime.c:3521-3526 | after any run from initialisation the next reading has the offset asked for if and only if that exception does not apply |
| `Settime.SetThenRead` | src/libfaketime.c:5313-5356 | a process that sets its clock and then reads it gets the wanted time plus what has passed, within 500 nanoseconds, at every reading; setting succeeds exactly when the difference is representable and the library calls succeed |
| `Settime.UsedUpFileMisleads` | src/libfaketime.c:1552-1572 | a process that starts with the offset +5, uses up a load file and is set to +5 again reads 100 instead of 205 |
| `Deadlines.ToRealNs` | src/libfaketime.c:2190-2213 | the conversion on structs is a clamped computation on nanoseconds |
| `Deadlines.RealNsMonotone` | src/libfaketime.c:2190-2213 | later deadlines never convert to earlier ones, saturation included |
| `Deadlines.ExactWithoutRate` | src/libfaketime.c:2190-2213 | without a rate the fake clock shows the deadline at the converted instant if and only if neither difference nor sum saturates |
| `Deadlines.TooFarCounterexample` | src/libfaketime.c:2190-2213 | with the lowest base the last representable time is not shown at the instant it converts to |
| `Deadlines.CloseWithRate` | src/libfaketime.c:2190-2213 | with a rate, for every deadline, the conversion inverts the clock up to what saturation cuts off, to within the rate plus one nanoseconds |
| `Deadlines.NothingCutExactly` | src/libfaketime.c:2190-2213 | nothing is cut off if and only if distance, scaled distance and real instant are in range |
| `Deadlines.PassedStaysPassed` | src/libfaketime.c:2190-2213 | a deadline passed on the fake clock is passed on the real clock, when now is not before the start time; saturation included |
| `Deadlines.PendingStaysPending` | src/libfaketime.c:2190-2213 | a deadline ahead on the fake clock is not behind after the conversion, when the present is in reach or before the start |
| `Deadlines.BeforeStartCounterexample` | src/libfaketime.c:2190-2213 | one nanosecond before the start at half speed, the current fake time converts to an instant still ahead |
| `Deadlines.LowestBaseCounterexample` | src/libfaketime.c:2190-2213 | without a rate and with the lowest base, the time shown just before the start converts to the start |
| `Deadlines.BeforeStartExactly` | src/libfaketime.c:2190-2213 | before the start, with or without a rate and with saturation, the current fake time converts to an instant that has passed if and only if the step back is a whole number of nanoseconds and in range |
| `Deadlines.PassedExactly` | src/libfaketime.c:2190-2213 | all passed deadlines stay passed if and only if now is not before the start or the step back is a whole one |
| `Deadlines.PendingExactly` | src/libfaketime.c:2190-2213 | all deadlines ahead are not behind after the conversion if and only if now is before the start, the fake clock is at the end of its range, or the distance and its scaled value are in range |
| `Deadlines.OutOfReachCounterexample` | src/libfaketime.c:2190-2213 | with base and start at the beginning of the range a deadline still ahead converts to an instant that has passed |
| `Deadlines.SleepAndTimerAgree` | src/libfaketime.c:2891-2924 | two separately written conversions, for sleeping until a deadline and for arming a timer, aim at the same real instant |
| `Deadlines.SleepEndsOnTime` | src/libfaketime.c:5761-5788 | without a rate the clock shows exactly the requested time at the end of an absolute sleep, if and only if no step saturates |
| `Deadlines.NoSleepUntilThePast` | src/libfaketime.c:2190-2213 | a sleep until a time the clock already shows aims at an instant already reached |
| `Deadlines.IntervalsAreKept` | src/libfaketime.c:2224-2233 | over the real interval slept for a requested one the fake clock advances by the request: never by more, and by less than the rate plus one nanoseconds less |
| `Deadlines.IntervalNs` | src/libfaketime.c:2926-2936 | a timer is given the same real interval as a sleep: the request divided by the rate |
| `Deadlines.PassedUnchanged` | src/libfaketime.c:2208-2233 | intervals without a rate or while faking is suspended, other clocks, a monotonic clock that is not faked, and disarming values are passed on as they are |
| `Deadlines.ConvertedAnyway` | src/libfaketime.c:2190-2222 | a sleep until a deadline is converted even while faking is suspended; a timer of any clock but the monotonic one is converted as one of the real-time clock |
| `FileTimes.FakeTwoTimespec` | src/libfaketime.c:2023-2062 | with utime faking disabled each time comes out unchanged and "now" as the fake time; otherwise the two special values come out unchanged and any other time less the offset, clamped; null times count as two UTIME_NOW; the fake clock is read at most once and only if needed, and its failure is reported |
| `FileTimes.Utime` | src/libfaketime.c:1925-1943 | the same for utime: times less the offset, unchanged if faking is disabled, the fake time for a null pointer then, a null pointer otherwise |
| `FileTimes.Utimes` | src/libfaketime.c:1963-1983 | the same for utimes |
| `FileTimes.FakeStatbuf` | src/libfaketime.c:1615-1681 | ticks are off during the three reads, and the setting is back afterwards |
| `FileTimes.StatAddsOffset` | src/libfaketime.c:1615-1681 | each of the times of a stat is the stored one plus the offset; stat consumes no tick and changes no setting |
| `FileTimes.UtimensatReadsBack` | src/libfaketime.c:2023-2062 | whatever fake_two_timespec hands out for a nanosecond time reads back exactly in any of the times of a later stat, after any calls under an unchanged text |
| `FileTimes.UtimesReadsBack` | src/libfaketime.c:1975-1983 | a microsecond time reads back to the microsecond, likewise |
| `FileTimes.UtimeReadsBack` | src/libfaketime.c:1938-1943 | a time in seconds reads back to the second, likewise |
| `FileTimes.StatTicksExactly` | src/libfaketime.c:1615-1655 | a read of a stat consumes a tick if and only if it is faked, the clock runs, no record is replayed, and this or an earlier read of the same stat looked and found a new text with a tick modifier; stated on the state before the read and the text offered |
| `FileTimes.StatConsumesTick` | src/libfaketime.c:1634-1655 | a process reads its configuration file, the file gets a tick modifier, and the first call after the cache has expired is a stat: it consumes a tick, and no later call does |
| `SharedClock.NextInv` | src/libfaketime.c:1393-1588 | every step of every process keeps the invariant of the protocol |
| `SharedClock.RunInv` | src/libfaketime.c:1393-1588 | so it holds after every schedule of any number of processes |
| `SharedClock.MutualExclusion` | src/faketime_common.h:74-95 | at most one process is inside the critical section, and the shared data always passes the header check |
| `SharedClock.ReplayThenTicks` | src/libfaketime.c:1531-1588 | the values taken are the records in order, each once, then the last record plus 1, 2, 3, ... increments; without a file, the base plus 0, 1, 2, ... increments counted over all processes |
| `SharedClock.CallersGetWhatWasTaken` | src/libfaketime.c:4673-4697 | each process returns exactly the values it took, in order |
| `SharedClock.SameAnchor` | src/libfaketime.c:1552-1572 | processes past the file share start time and base, the last record |
| `SharedClock.FirstAtEndFixesStart` | src/libfaketime.c:1558-1567 | after a load file the shared start time is what the process that first found it used up read from the system clock at that moment |
| `SharedClock.AnchorOfAll` | src/libfaketime.c:1552-1572 | every process done with the file has that reading as its start time and the last record as its base |
| `SharedClock.AnchorPersists` | src/libfaketime.c:1558-1571 | that start time stays for the rest of the run |
| `SharedClock.SameBase` | src/libfaketime.c:4235-4258 | without a file, processes share the start time, and those with the same offset the base |
| `SharedClock.StartIsKept` | src/libfaketime.c:4242-4252 | until a load file is used up no step changes a start time that is set |
| `SharedClock.StartPersists` | src/libfaketime.c:4242-4252 | so a start time that is set stays until then |
| `SharedClock.FirstFixesStart` | src/libfaketime.c:4235-4258 | until a load file is used up the start time of a run is what one process read from the system clock inside the critical section while none was set and no other process had begun |
| `SharedClock.TicksOfARunIncrease` | src/libfaketime.c:1393-1423 | in every run, ticks on the same base come in increasing order and are distinct, until saturation |
| `SharedClock.StepsMakeProgress` | src/libfaketime.c:1393-1588 | every step of a process that need not wait for the lock brings it closer to returning a value, or returns one |
| `OnceInit.NextInv` | src/libfaketime.c:1086-1130 | every step of every thread keeps the invariant of flag, mutex and call stacks |
| `OnceInit.RunInv` | src/libfaketime.c:1086-1130 | so it holds after every interleaving of threads and re-entrant calls |
| `OnceInit.StartsAtMostOnce` | src/libfaketime.c:1086-1130 | the initialiser starts at most once, and no call returns false |
| `OnceInit.OthersSeeReady` | src/libfaketime.c:1086-1130 | a thread other than the initialising one gets true only with the flag READY |
| `OnceInit.NoSelfDeadlock` | src/libfaketime.c:1102-1110 | a thread that cannot take its step at the lock call waits for another thread, and that one can always move on |
| `OnceInit.BlockedByAnother` | src/libfaketime.c:1102-1110 | a thread cannot move on at the lock call exactly when another thread holds the mutex |
| `OnceInit.StepsMakeProgress` | src/libfaketime.c:1086-1130 | every step of a thread that is neither blocked nor running the initialiser brings its call closer to its return, or returns |
| `OnceInit.ReadyForever` | src/libfaketime.c:1111-1125 | once READY, the flag stays READY |
| `Records.RecordRoundTrip` | src/libfaketime.c:1496-1497 | an encoded time decodes to itself and passes validation, negative seconds included |
| `Records.RecordBytes` | src/libfaketime.c:1496-1497 | a record is the seconds in two's complement and then the nanoseconds, eight bytes each, the most significant first |
| `Records.ExampleRecords` | src/libfaketime.c:1496-1497 | the bytes of two records, one before the epoch |
| `Records.DecodedSays` | src/libfaketime.c:546-557 | a record is read as the weighted sums of its bytes, and valid exactly when the nanoseconds are below 10^9 |
| `Records.RecordIsEncoding` | src/libfaketime.c:546-557 | a valid record is the encoding of what it decodes to |
| `Records.EncodeAllInjective` | src/libfaketime.c:546-557 | two lists of times with the same file are the same |
| `Records.LoadFile` | src/libfaketime.c:4181-4213 | a file loads exactly when it is a non-empty sequence of whole valid records, as the times its bytes say, the only list that encodes to it; each error exactly in its own case |
| `Records.Device.Write` | src/libfaketime.c:1459-1459 | what one write may do: nothing, or append any prefix of what it is given |
| `Records.WriteAll` | src/libfaketime.c:1451-1486 | ends for every pattern of short writes and interruptions, appends only a prefix, returns true exactly when that is all, and gives up only after a failed write, one that wrote nothing or too much, or 1000 interruptions in a row |
| `Records.SaveAll` | src/libfaketime.c:1488-1525 | if every save succeeds, the file has grown by the encodings in order; a save fails only for one of those reasons |
| `Records.RecordAndReplay` | src/libfaketime.c:1488-1525 | if every save of a run succeeds, the file loads as exactly the saved times; a save fails only for one of those reasons |
| `Text.StrippedIsKeptLines` | src/libfaketime.c:4326-4355 | stripping yields exactly the concatenation of the lines that are not comments |
| `Text.CommentExactly` | src/libfaketime.c:4338-4344 | a comment line is one with # or ; after nothing but spaces and tabs |
| `Text.LinesExactly` | src/libfaketime.c:4335-4337 | lines are what carriage returns and line feeds separate, and nothing else |
| `Text.StrippingIsIdempotent` | src/libfaketime.c:4326-4355 | a second stripping changes nothing |
| `Text.FindLineEnd` | src/libfaketime.c:4335-4337 | finds the end of the line in the unread part |
| `Text.IsComment` | src/libfaketime.c:4338-4344 | true exactly for lines whose first non-blank is '#' or ';' |
| `Text.CopyLine` | src/libfaketime.c:4345-4347 | moves the line down although source and target may overlap, and leaves the unread text alone |
| `Text.SkipBreaks` | src/libfaketime.c:4350-4352 | stops at the next character that is not a line break |
| `Text.HandleLine` | src/libfaketime.c:4331-4353 | one round: the write position stays behind the read position, and written plus still to be stripped is unchanged |
| `Text.PrepareConfigContents` | src/libfaketime.c:4326-4355 | ends, never writes past the read position, and leaves exactly the stripped text in the buffer |
| `Text.StrArrayContains` | src/libfaketime.c:4366-4381 | ends, and finds an occurrence between commas or ends if there is one, past overlapping and partial ones; for an empty needle it runs past the end exactly when there is none |
| `Text.FieldAtIffField` | src/libfaketime.c:4366-4381 | for a comma-free needle such an occurrence exists if and only if the needle is one of the fields |
| `Text.FieldsExactly` | src/libfaketime.c:4366-4381 | fields are what commas separate |
| `Text.ListContains` | src/libfaketime.c:4366-4381 | for a non-empty comma-free needle the answer is whether it is one of the fields |

## Left out

- Uthash.Table.Find: of several elements with the same key it does not say which one is found; that depends on earlier doublings.
- Uthash.Table: counters are unbounded, so sizes from 2^31 on, where unsigned arithmetic wraps, are not covered.
- Uthash.Table: the bucket array is a sequence-valued field, not an array on the heap; key bytes are one integer; the tbl pointer, key length and element offset are not stored; bucket storage that is freed is just dropped.
- Uthash.Table.Sort: the comparison callback is a function of the two nodes that reads no mutable state.
- TableRuns.Churn: the chain bound is claimed only while expansion is not inhibited; afterwards chains grow without bound by design.
- HASH_SELECT, in-order addition, replacement, the Bloom filter, non-fatal out-of-memory mode, HASH_EMIT_KEYS and the other hash functions.
- FakeClock: fake PID; configuration strings come already parsed; strtod, strptime, mktime, units of offsets, invalid strings (the program exits) and truncation to the buffer size are not modelled, nor is floating-point rounding.
- FakeClock: what load_time finds, a record or the end of the file, is an input of the call; `SharedClock` models how it comes about.  Of save_time only whether it is called is modelled; `Records` models what it writes.
- FakeClock.Process.ClockGettime: spawning an external command, which does not influence the reading, re-reading the monotonic setting, ticks without shared memory, a null pointer for the result, and the normalisation of times that are already normalised.
- FakeClock.Process.ResetTime: does not write the new start time to shared memory.
- ClockLaws.XresetNeverGoesBack: CLOCK_REALTIME only, without a load file and without limits of faking; the anchors of the other clocks are taken at different instants, and stat calls overwrite the remembered pair.
- ClockLaws.RecentExactly: for a cache that is in use and not forced, and a system clock that does not go back; otherwise a text can be recent although the latest look failed.
- Settime.ClockSettime: FAKETIME_UPDATE_TIMESTAMP_FILE, settimeofday and adjtime.
- Settime.ReadsWhatWasSet: not while a load file is being replayed.
- Settime.PlainReading: one direction, because before the start time two saturations can cancel out; `Settime.PlainReadingExactly` has both directions after it.
- Deadlines: sem_timedwait with a rate, which multiplies where the others divide, the monotonic branch of sem_clockwait, the futex loop, timer intervals and the old values that timers return.
- FileTimes.StatTicksExactly: describes the reads as far as next_time; there the lock is taken a second time, which passes with file locks only.
- FileTimes: a stored time whose subtraction of the offset saturates.
- SharedClock: one start time stands for those of all clocks; creation and attachment of the shared memory, interrupted or failing lock calls (retry or exit), the save file, stat while a load or save file is in use (the same lock is taken twice), and wrap-around of the 64-bit counters.
- OnceInit: failures of pthread_once and lock errors other than EDEADLK.
- Symbol lookup, the stat and syscall entry points, the command-line wrapper and the random-number interception.
