# Verified models of the sample programs

The repository is a collection of small programs. A few of them hold real state machines, allocators, codecs and
concurrent protocols; each of those is modelled here by a Dafny module of its own, in the form the program has: objects
and tables that are updated in place are classes and arrays with loops, pure arithmetic is functions, and threads that
share state are step relations whose properties range over all interleavings.

| module | models |
|---|---|
| `MallocBins`, `ChunkCodec` | the size and bin arithmetic of the glibc heap inspector `gdb.python/zcmd2.py`, and its chunk reader and writer over debuggee memory |
| `HeapWalk`, `HeapListing` | its two ways of walking a heap: the statistics of the bins, and the flat and compact listings of the chunks |
| `RepositoryDirectory` | the shared repository directory with cached handles of `src_C/gaoshan.C` |
| `DropMonitor`, `ProducerConsumer` | `src_java/Drop.java` under any number of threads, and one Producer with one Consumer over it |
| `BowLocks`, `CrossedMonitors` | `src_java/Safelock.java` and `src_java/Deadlock.java` |
| `SharedBuffer` | the semaphore protocol of `src_C/server.cpp` and `src_C/client.cpp` |
| `MutexCounters` | the thread counters of `src_C/zgThds.c`, with increments that are not atomic |
| `BumpHeap`, `PollTable`, `LinkedLists`, `PrimeTable` | `src_C/zgHeap.cpp`, `src_C/socket.srv.poll.c`, `src_C/listinterface.cpp`, `src_C/findzs.c` |
| `PrimeGaps` | a prime between every prime and its square, which makes the table of `findzs.c` right |
| `BoundedUtf8` | `convertWithMBTOWC` of `src_C/j9sl.c`, against section 3 and section 4 of RFC 3629 |
| `ForkBlur`, `Floats` | `src_java/ForkBlur.java`, and the binary32 arithmetic it uses (IEEE 754, section 4.3.1) |
| `SampleHeap` | concrete heaps that meet the requirements of `HeapWalk`, for both word sizes and any successor of the arena |
| `Basics` | definitions that several modules share |

Monitors follow sections 17.1 and 17.2 of the Java Language Specification. What the outside world decides (what malloc,
accept, mbtowc, pthread_create or the scheduler answer, and when a wait ends spuriously) is a parameter or a choice of the
step relation. `dafny verify dfyconfig.toml` checks everything.

## What the proofs found

These expectations fail for some inputs; each is proved to hold exactly under a condition a caller can check, and each
failure is shown at an input.

- A receive in `server.cpp` can overlap a client's write. It does exactly when semaphore 0 is not zero at the receive, and
  it can happen exactly when there are at least two clients (`SharedBuffer.TornIffBusyAtReceive`,
  `SharedBuffer.TornReadNeedsTwoClients`).
- `createSecondaryRepository` does not check the capacity of the pointer array. A run overruns it exactly when it makes a
  secondary on a full array, and some run does so for every capacity of two or more; 255 and 65535 are the capacities that
  occur (`RepositoryDirectory.RunOverrunsIff`, `RepositoryDirectory.EveryCapacityCanBeOverrun`).
- Blocks of the bump allocator are disjoint, from every start, exactly when the sizes of the run and any one of them after
  the first add up to at most MAXHEAP + 1 (`BumpHeap.DisjointIffRoomToWrap`).
- `print_mstats` reads the main arena again in every round, so its loop ends exactly when that arena is its own successor;
  with another successor it never does (`HeapWalk.Debuggee.PrintMstats`, `SampleHeap.SecondArenaNeverEnds`).
- `ForkBlur.java` adds floats, and 15 times v / 15 can be less than v. A channel that has one value v in the whole window
  goes down by one exactly for those v. 19 is one of them, no multiple of 15 is, and 2 v is exactly when v is, for v from 1
  to 127; every other output channel stays between the least and the greatest of the pixels at most 7 away (`ForkBlur.BlurStaysNear`,
  `ForkBlur.BlurKeepsFlatPictures`, `ForkBlur.LosesLikeItsDouble`, `ForkBlur.GreyGetsDarker`).
- `queue::store` writes to a deleted item exactly when the queue was emptied since its last store; the answers are right
  even so (`LinkedLists.Queue.Store`, `LinkedLists.RunQueue`, `LinkedLists.RefillEmptiedQueue`).
- The output of `convertWithMBTOWC` decodes back to the characters exactly when all of them are scalar values below
  U+10000. Other characters can give valid UTF-8 for something else: U+1F600 is written as U+F600. It is valid at all
  exactly when every stretch of negative characters (bytes that mbtowc refused) is valid by itself and every other
  character is below U+0800 or has 16 low bits that are a scalar value from U+0800 on
  (`BoundedUtf8.OutputIsUtf8IffBasic`, `BoundedUtf8.OutputIsValidIff`, `BoundedUtf8.DecodableButDifferent`).
- `Deadlock.java` deadlocks exactly on the schedules whose first two steps are taken by different threads
  (`CrossedMonitors.DeadlockIffCrossedStart`).

One expectation holds, but for a reason the code does not state: `findzs.c` never divides by its last table entry. Its
table is right exactly when a prime lies between every prime q from 13 on and q*q. One does, so the table holds exactly the
primes for every limit (`PrimeTable.TableIsPrimeIffGapsFilled`, `PrimeGaps.GapIsFilled`, `PrimeGaps.TableIsThePrimes`).

## Model

| member | source | states |
|---|---|---|
| `HeapWalk.Debuggee.MallocStats` | gdb.python/zcmd2.py:806-856 | a round of print_mstats over a well-formed arena ends and reports the statistics of its lists; memory is unchanged but for the mutex, which ends up free |
| `HeapWalk.Debuggee.PrintMstats` | gdb.python/zcmd2.py:803-856 | the loop over the arenas ends in its first round exactly when the main arena is its own successor, and otherwise adds the same arena once more in each of any number of rounds |
| `SampleHeap.SecondArenaNeverEnds` | gdb.python/zcmd2.py:807-856 | on a concrete heap whose main arena has any other successor k rounds do not end the loop, for every k, and add up the main arena k times |
| `HeapWalk.CollectStats` | gdb.python/zcmd2.py:813-849 | the walk along fastbins and bins counts and sums exactly the members of the lists, read through the locked arena |
| `HeapWalk.WalkFastbin` | gdb.python/zcmd2.py:822-828 | following fd to null visits the members of a fastbin once each |
| `HeapWalk.WalkBin` | gdb.python/zcmd2.py:833-840 | following fd round to the header visits the members of a bin once each |
| `HeapWalk.StatsAgreeWithTiling` | gdb.python/zcmd2.py:813-849 | the in-use bytes equal the sizes of the tiled chunks that are neither top nor on any list |
| `HeapWalk.StatsCountFreeChunks` | gdb.python/zcmd2.py:814-840 | the block counts and available bytes are those of the chunks on lists, with top among the blocks of the bins |
| `HeapWalk.ArenaLayout` | gdb.python/zcmd2.py:561-584 | the fields of malloc_state follow one another for both word sizes |
| `HeapListing.FlatListing` | gdb.python/zcmd2.py:1263-1304 | the flat listing ends, at top, with the right line for every chunk of the tiling in order |
| `HeapListing.EachChunkIsListedOnce` | gdb.python/zcmd2.py:1271-1301 | each chunk is listed once, in address order, none as a fence, top last |
| `HeapListing.FreeLineShowsLinks` | gdb.python/zcmd2.py:1285-1301 | the line of a bin member shows the next member of its bin, or the header, as FD and its fourth word as BK, and is marked as last remainder or lonely exactly when these links say so |
| `HeapListing.ListingAgreesWithStats` | gdb.python/zcmd2.py:1283-1284 | the bytes listed as in use are the in-use bytes of print_mstats plus those on fastbins |
| `HeapListing.CompactListing` | gdb.python/zcmd2.py:1308-1331 | the compact listing ends, at top, with the cell of every line of the flat listing in order |
| `HeapListing.RawSizeHasSameBin` | gdb.python/zcmd2.py:1329 | passing the raw size word to bin_index gives the bin of the chunk size |
| `ChunkCodec.WriteBackChangesOneBit` | gdb.python/zcmd2.py:94-104 | writing six words back leaves every byte as it was but the first of the size word of the next chunk, and that one but for bit 0, which is set or cleared; inuse then reads it |
| `ChunkCodec.InuseIsOneBit` | gdb.python/zcmd2.py:89-92 | inuse reads bit 0 of that byte |
| `ChunkCodec.FieldsInMemory` | gdb.python/zcmd2.py:427-443 | the six fields of a chunk are six consecutive words |
| `ChunkCodec.ByteOfWord` | gdb.python/zcmd2.py:434-443 | words are little-endian |
| `ChunkCodec.Inferior.ChangeInuse` | gdb.python/zcmd2.py:94-104 | set_inuse and clear_inuse change that one bit of memory, and nothing when the next chunk cannot be read |
| `ChunkCodec.LastCallDecides` | gdb.python/zcmd2.py:94-104 | the later of two calls decides, and of set and clear exactly one changes memory |
| `ChunkCodec.WriteReadChunk` | gdb.python/zcmd2.py:427-474 | writing a chunk that was read gives the bytes that were read |
| `ChunkCodec.ReadWrittenChunk` | gdb.python/zcmd2.py:427-474 | reading a chunk that was written gives the chunk that was written |
| `MallocBins.BinsAreRanges` | gdb.python/zcmd2.py:161-207 | every bin from 0 to 126 is one non-empty range of sizes, given by its boundaries, for both word sizes |
| `MallocBins.BinIndexIsMonotoneAndOnto` | gdb.python/zcmd2.py:161-207 | the bin index never goes down with the size and takes every value from 0 to 126 |
| `MallocBins.StatusBitsDoNotMatter` | gdb.python/zcmd2.py:201-207 | the three status bits do not change the bin |
| `MallocBins.RequestIsServedBest` | gdb.python/zcmd2.py:48-54 | request2size is the least aligned size of at least MINSIZE with room for the request and a size word |
| `MallocBins.FastbinsMatchSizes` | gdb.python/zcmd2.py:216-224 | ten fastbins, one to one with chunk sizes |
| `MallocBins.FastbinOfRequest` | gdb.python/zcmd2.py:216-224 | the requests that get a fastbin size are those up to one word above MAX_FAST_SIZE |
| `RepositoryDirectory.HandlesStayCoherent` | src_C/gaoshan.C:1303-1411 | over any interleaving every local list is a prefix of the primaries in persisted order, names are unique, and an own create or open brings the list to what a fresh open builds |
| `RepositoryDirectory.StepInv` | src_C/gaoshan.C:1286-1573 | every operation of every handle keeps all lists coherent with the persisted entries |
| `RepositoryDirectory.Handle.Open` | src_C/gaoshan.C:755-851 | open rebuilds the local list from the persisted array |
| `RepositoryDirectory.RebuildMatchesSecondaries` | src_C/gaoshan.C:794-848 | a repository that open builds has the pointer of the last entry marked as secondary with its name, and none exactly when there is no such entry |
| `RepositoryDirectory.SyncAppendsOnly` | src_C/gaoshan.C:1303-1350 | catching up appends new repositories with the right secondaries and changes nothing that was in the list |
| `RepositoryDirectory.CreatedEntry` | src_C/gaoshan.C:1351-1411 | the new entry comes last with the name and the pointer given, exactly when the name is new and the array has room |
| `RepositoryDirectory.SecondaryCreatedEntry` | src_C/gaoshan.C:1441-1469 | the repository the handle names gets the secondary exactly if it has none, the entry carries its name and the pointer given, and nothing else changes |
| `RepositoryDirectory.Handle.CreateRepository` | src_C/gaoshan.C:1303-1421 | the new local list, entries and answer, including the name clash and the full array |
| `RepositoryDirectory.Handle.CreateSecondaryRepository` | src_C/gaoshan.C:1441-1469 | the new local list, entries and answer |
| `RepositoryDirectory.Handle.OpenRepository` | src_C/gaoshan.C:1511-1572 | the resynchronised list and the repository found |
| `RepositoryDirectory.RebuildFindsPrimaries` | src_C/gaoshan.C:794-848 | open builds exactly the primaries, in persisted order |
| `RepositoryDirectory.RunOverrunsIff` | src_C/gaoshan.C:1441-1469 | a run ends beyond the capacity of the pointer array exactly when it makes a secondary on a full array |
| `RepositoryDirectory.EveryCapacityCanBeOverrun` | src_C/gaoshan.C:1363-1469 | some run on a new directory overruns the array exactly when the capacity is at least two and there is a handle |
| `RepositoryDirectory.CopyDirectory` | src_C/gaoshan.C:642-698 | the copy has the entries of the original on pointers of its own |
| `RepositoryDirectory.CopyRebuildsTheSame` | src_C/gaoshan.C:646-698 | an open of the copy builds the same list as an open of the original |
| `DropMonitor.TakesFollowPuts` | src_java/Drop.java:11-42 | for any threads and interleaving the takes are the puts in order but for at most the last, and empty says whether one is pending |
| `DropMonitor.NoLostWakeup` | src_java/Drop.java:14-41 | a waiting call has a false guard unless a thread is between its toggle and its notifyAll, and puts and takes never wait at the same time |
| `DropMonitor.SomeThreadRuns` | src_java/Drop.java:14-41 | nobody is stuck unless all calls in progress wait for a call of the other kind |
| `ProducerConsumer.ConsumerReceivesScript` | src_java/Producer.java:19-27 | the consumer has a beginning of the four messages and DONE; runs with w spurious wake-ups have at most 214 + 7 w steps; a run that cannot go on has delivered all five |
| `ProducerConsumer.FairRunsDeliver` | src_java/Consumer.java:18-25 | every run that is fair to each thread ends within a bound, however many wake-ups are spurious, and can only end with the whole script delivered |
| `ProducerConsumer.FairToEachIsFair` | src_java/Drop.java:14-41 | fairness to each thread gives the thread whose turn it is a step in time |
| `ProducerConsumer.FavouredIsReady` | src_java/Drop.java:14-41 | until all is delivered the thread whose turn it is has work, is not waiting, and can move once the monitor is free |
| `BowLocks.Safety` | src_java/Safelock.java:18-62 | bowBack runs with both locks owned, exchanges sharing a friend do not overlap, no illegal unlock, a thread outside bow holds nothing |
| `BowLocks.StepInv` | src_java/Safelock.java:18-55 | every step keeps each lock owned by the thread that holds it, as often as it holds it |
| `BowLocks.RefusalHasAHolder` | src_java/Safelock.java:22-23 | tryLock refuses exactly when another thread holds that friend's lock |
| `BowLocks.EveryBowReturns` | src_java/Safelock.java:37-55 | in every interleaving a thread has been outside bow after at most five steps of its own, whatever the others do and hold |
| `BowLocks.UndisturbedBowSucceeds` | src_java/Safelock.java:18-44 | a bow that meets no other on its two friends succeeds, whatever threads with other friends do meanwhile |
| `CrossedMonitors.DeadlockIffCrossedStart` | src_java/Deadlock.java:10-34 | a stopped run is deadlocked exactly when its first two steps were taken by different threads, and finished otherwise |
| `CrossedMonitors.RunsStopFinishedOrCrossed` | src_java/Deadlock.java:10-20 | the stuck states are the final and the crossing ones, and only eight steps finish |
| `CrossedMonitors.CrossingIsReachable` | src_java/Deadlock.java:28-33 | the crossing is reachable |
| `SharedBuffer.Safety` | src_C/client.cpp:107-152 | what both semaphores count, one writer at most, no entry while busy or reading, release always granted |
| `SharedBuffer.RunsEnd` | src_C/server.cpp:138-188 | every run ends within a bound, with the server finished exactly when there are enough clients |
| `SharedBuffer.TornIffBusyAtReceive` | src_C/server.cpp:144-159 | a receive overlaps a write exactly when semaphore 0 is not zero |
| `SharedBuffer.TornReadNeedsTwoClients` | src_C/server.cpp:144-159 | an overlap is reachable exactly with two clients or more |
| `MutexCounters.CountersAreOrdered` | src_C/zgThds.c:51-105 | ended, started and created are ordered in every interleaving, up to the creators between pthread_create and their counter |
| `MutexCounters.FinalCounters` | src_C/zgThds.c:86-105 | no update is lost: the final values, and when all three agree |
| `MutexCounters.NoDeadlock` | src_C/zgThds.c:54-67 | a state is finished exactly when no thread can move |
| `MutexCounters.RunsEnd` | src_C/zgThds.c:51-105 | a run has at most 14 steps for each thread asked for, one more for each EAGAIN and nine fewer for each failure, and is finished exactly at that length |
| `BumpHeap.DisjointIffRoomToWrap` | src_C/zgHeap.cpp:29-40 | a run of allocatable sizes is disjoint from every start exactly when its sizes and any one after the first add up to at most MAXHEAP + 1 |
| `BumpHeap.RunIsDisjoint` | src_C/zgHeap.cpp:29-40 | blocks of a run are disjoint and inside the arena, even across a wrap |
| `BumpHeap.BoundIsTight` | src_C/zgHeap.cpp:29-40 | two calls whose blocks overlap, one byte beyond the bound |
| `BumpHeap.BlocksAreConsecutive` | src_C/zgHeap.cpp:29-40 | each block starts where the one before it ends, or at the start of the arena if it would not fit |
| `BumpHeap.AccountingHolds` | src_C/zgHeap.cpp:29-40 | with sizes that are not negative allocatedsize is free - heap for ever |
| `BumpHeap.AccountingIsExact` | src_C/zgHeap.cpp:29-40 | with any sizes it is so exactly when the distance is an int |
| `BumpHeap.ZgHeap.AllocateAll` | src_C/zgHeap.cpp:29-40 | calls on one object return the blocks the laws are about |
| `PollTable.Server.Compress` | src_C/socket.srv.poll.c:285-295 | the in-place loops compute one pass over the table |
| `PollTable.PassHalvesEveryGap` | src_C/socket.srv.poll.c:287-294 | a pass keeps the open descriptors in order and halves every run of closed entries, rounding down |
| `PollTable.PassesThatClear` | src_C/socket.srv.poll.c:285-295 | n passes clear the table exactly when n is at least floor(log2 k) + 1 for every run length k |
| `PollTable.TableIsDetermined` | src_C/socket.srv.poll.c:287-294 | open descriptors and run lengths determine the table |
| `PollTable.RunKeepsTable` | src_C/socket.srv.poll.c:64-295 | over a run the table holds the accepted and unclosed descriptors in order of arrival, the listening socket in slot 0 |
| `PollTable.Server.Serve` | src_C/socket.srv.poll.c:64-295 | the server's array goes through the tables of that run |
| `LinkedLists.RunQueue` | src_C/listinterface.cpp:27-63 | any calls on a queue get the answers of a first-in first-out sequence, and exactly the stores that find it emptied write to a deleted item |
| `LinkedLists.RefillEmptiedQueue` | src_C/listinterface.cpp:27-44 | emptying and filling again does write to a deleted item, with the right answer |
| `LinkedLists.RunStack` | src_C/listinterface.cpp:71-106 | any calls on a stack get the answers of a last-in first-out sequence |
| `LinkedLists.QueueIsFifo` | src_C/listinterface.cpp:27-63 | the answers are the numbers stored, in order |
| `LinkedLists.StackIsLifo` | src_C/listinterface.cpp:71-106 | a retrieve answers the store it balances, whatever lies below |
| `LinkedLists.QueueAnswersLast` | src_C/listinterface.cpp:46-63 | after any calls a retrieve from an empty queue answers 0 |
| `LinkedLists.StackAnswersLast` | src_C/listinterface.cpp:88-106 | after any calls a retrieve from an empty stack answers 0 |
| `LinkedLists.Queue.Store` | src_C/listinterface.cpp:27-44 | the new contents, and exactly when a deleted item is written to |
| `PrimeTable.FillTable` | src_C/findzs.c:10-28 | the loop fills the array with the specified table, for any limit and large enough array |
| `PrimeTable.TryNumber` | src_C/findzs.c:13-27 | maxidx is the index before the last whenever the divisor loop starts |
| `PrimeTable.TableShape` | src_C/findzs.c:24-25 | the table is strictly increasing and below x |
| `PrimeTable.TableHasEveryPrime` | src_C/findzs.c:19-25 | no prime below x is missed |
| `PrimeTable.TableIsPrimeIffGapsFilled` | src_C/findzs.c:19-25 | only primes are entered exactly when each prime q is followed by another below q*q |
| `PrimeGaps.GapIsFilled` | src_C/findzs.c:19-25 | every prime q is followed by another below q*q |
| `PrimeGaps.TableIsThePrimes` | src_C/findzs.c:12-28 | for every limit from 14 on the table is exactly the primes below it |
| `BoundedUtf8.ConvertWithMBTOWC` | src_C/j9sl.c:516-551 | the buffer gets the encoding of the longest prefix that fits, then NUL, and nothing else changes; for a text it can be read back as the longest prefix of that text, cleaned, that fits |
| `BoundedUtf8.TextIsRead` | src_C/j9sl.c:524-532 | where mbtowc reads UTF-8 the characters of valid input are read one by one |
| `BoundedUtf8.RefusedByte` | src_C/j9sl.c:526-527 | a byte that mbtowc refuses is read alone, and as a signed char written as it was |
| `BoundedUtf8.InputIsCopied` | src_C/j9sl.c:524-549 | in a UTF-8 locale with signed char the characters read are written byte for byte, valid or not, if there is no sequence of four bytes |
| `BoundedUtf8.CleanIsByCharacter` | src_C/j9sl.c:534-535 | a carriage return is dropped, a line feed becomes a space, and every other character stays |
| `BoundedUtf8.NoLineEndIsWritten` | src_C/j9sl.c:534-548 | no carriage return or line feed gets into the output |
| `BoundedUtf8.Emit` | src_C/j9sl.c:536-548 | one character is written whole or not at all |
| `BoundedUtf8.OutputDecodesToPrefix` | src_C/j9sl.c:516-551 | the output decodes to that prefix, so no sequence is cut |
| `BoundedUtf8.OutputIsUtf8IffBasic` | src_C/j9sl.c:536-548 | the encoding decodes to the characters exactly when all are scalar values below U+10000 |
| `BoundedUtf8.UnitsAreUtf8IffBasic` | src_C/j9sl.c:536-548 | the same for one character |
| `BoundedUtf8.OutputIsValidIff` | src_C/j9sl.c:525-548 | the output is valid UTF-8 exactly when every stretch of negative characters (refused bytes) is valid by itself and every other character is below U+0800 or has 16 low bits that are a scalar value from U+0800 on |
| `BoundedUtf8.HighBitsAreLost` | src_C/j9sl.c:543-548 | what is read back for a character beyond U+FFFF: its low 16 bits if they are a scalar value of three bytes, nothing otherwise |
| `BoundedUtf8.DecodableButDifferent` | src_C/j9sl.c:543-548 | the output can be valid UTF-8 for another character |
| `ForkBlur.AnyInterleavingBlurs` | src_java/ForkBlur.java:87-98 | any interleaving of the pixel writes of the leaf tasks leaves what one direct computation leaves |
| `ForkBlur.LeavesPartition` | src_java/ForkBlur.java:84-98 | every index of a task is in exactly one leaf; a task below 10000 is one leaf, a larger one is split into leaves of 5000 to 9999 |
| `ForkBlur.UnfinishedTaskCanWrite` | src_java/ForkBlur.java:87-98 | leaf tasks never stop one another |
| `ForkBlur.Compute` | src_java/ForkBlur.java:87-98 | the recursion ends and writes exactly the range, with the values of the direct computation |
| `ForkBlur.ComputeDirectly` | src_java/ForkBlur.java:63-83 | writes exactly the range with the blurred pixels |
| `ForkBlur.AverageChannel` | src_java/ForkBlur.java:67-74 | the loop over the window computes the float average of a channel |
| `ForkBlur.AverageIsExactOrOneLess` | src_java/ForkBlur.java:67-81 | it is the integer average, except that it may be one less where the window sum is a multiple of 15 |
| `Floats.RoundedIs` | src_java/ForkBlur.java:71-73 | rounding gives the nearest float of 24 bits, ties to even |
| `Floats.RoundedIsClose` | src_java/ForkBlur.java:71-73 | a rounded number is at most half the distance between floats away |
| `ForkBlur.BlurIsWindowAverage` | src_java/ForkBlur.java:67-81 | each output channel is the average of 15 consecutive pixels of the picture padded with its end pixels, or one less, and the pixel is opaque |
| `ForkBlur.BlurStaysNear` | src_java/ForkBlur.java:68-81 | each output channel is between the bounds of the pixels at most 7 away, except exactly where they all have one value that loses |
| `ForkBlur.BlurStaysInWindow` | src_java/ForkBlur.java:68-81 | the same for the clamped window |
| `ForkBlur.BlurKeepsFlatPictures` | src_java/ForkBlur.java:68-81 | a channel of a one-colour picture stays, or goes down by one, exactly by whether its value loses |
| `ForkBlur.MultiplesDoNotLose` | src_java/ForkBlur.java:71-73 | multiples of 15 do not lose |
| `ForkBlur.LosesLikeItsDouble` | src_java/ForkBlur.java:71-73 | a value loses exactly when its double does |
| `ForkBlur.GreyGetsDarker` | src_java/ForkBlur.java:68-81 | a picture of the grey 19 comes out as the grey 18 |

## Left out

- Printing, colouring, argument parsing, `/proc` reading and symbol lookup of `zcmd2.py`; `malloc_state.write`; the
  fastchunks and contiguous setters, which write at another offset than the reader uses.
- The reader of chunks in use with their data, and its error messages, in `zcmd2.py:381-424`.
- HeapWalk.WalkBin: follows fd only, as the source does; nothing is said about bk links.
- HeapWalk.Debuggee.PrintMstats: of the mmap totals only the initial value of the sums.
- `gdb.python/zcmd.py`, a copy of print_mstats.
- MI system calls, lock timeouts, authority, ASP numbers and record I/O of `gaoshan.C`. `ypsRepository` is not part of this
  model: a repository is its name, its pointer and its secondary, and creating one always succeeds.
- RepositoryDirectory.HandlesStayCoherent: nothing is said about secondaries in the lists of different handles, since
  resynchronising copies only new primaries.
- The numbers 255 and 65535 for the capacities of `gaoshan.C` are those of its comments; its headers are not part of this
  model.
- PollTable.Server.Compress: needs a free slot, because the source reads the slot behind the table; the source appends
  accepted descriptors without checking for room, and the model asks for it.
- The events and revents fields of the poll table, and what recv and send do with a connection.
- PrimeTable.FillTable: needs an array as large as the table; that 10500 entries are enough for 105000 is not proved.
- LinkedLists.Queue.Store: deleted items stay addressable; what an allocator does with them is left out.
- Floats.RoundedIs: only zero and floats from 1/15 up to 256 occur, so exponents, infinities and subnormals are left out.
- ForkBlur.BlurKeepsFlatPictures: which of the odd values lose is given by a computation and not listed.
- BoundedUtf8.ConvertWithMBTOWC: mbtowc is an answer for each position of the input, so its shift state is not modelled.
- Start-up and clean-up of the sockets, semaphores and shared memory; the monitor thread and the stack-allocated parameters
  of `zgThds.c`, and creators that could not be started.
- `convertWithIConv` and the library-open fallbacks of `j9sl.c`, JNI code, call wrappers, XML tools, timing loops, generated
  tables and the hello-world samples, which have little state or branching.
