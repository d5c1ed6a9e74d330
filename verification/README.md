# Overlaybd in Dafny

A verified model of five parts of the accelerated container image stack: the intrusive hash
table `uthash`, the FastCDC chunkers, the coalesced completion wake-ups of the TCMU service,
the background download with its live switch of the read path, and two codecs (the prefetch
trace and Base64).

| files | part |
|---|---|
| `Basics`, `Bits` | shared types; AND, shifts and powers of two on natural numbers |
| `GearCut`, `FastCdc`, `CdcPlain`, `CdcTheorems`, `CdcStreaming` | the four chunkers, their reference, what a cut is in digits and sums, and what follows for all buffers and tables |
| `StableSort`, `UtHandle`, `UtSort`, `UtBuckets`, `UtExpand`, `UtBloom`, `UtTable`, `UtHash`, `UtFsck`, `UtRun` | the hash table on the heap, from single links to whole runs |
| `Wakeup` | the wake-up protocol as a state machine over yield points |
| `BlobCopy`, `Download`, `DownloadQueue` | one copy, one layer, the queue |
| `TraceCodec`, `Prefetch` | the trace format, recorder and reload |
| `Base64` | encoder and decoder |

The main results:

- **Hash table.** `UtRun.Run`: every run of add, ordered add, replace, delete and sort keeps the
  whole integrity condition (both lists well linked, counts exact, every element in exactly the
  chain of its hash value, the two lists over the same elements), produces the application list
  that the operations call for and refines a finite map; `UtRun.RunThenFind` reads that map,
  with or without the Bloom filter. `UtHash.Hash.Sort` rewrites the links in place into the
  merge sort of the list, which `StableSort.MergeSortIsStable` proves to be the stable sort;
  its frame shows that no chain changes. `UtRun.OrderedAddsAreAddsAndSort` relates the two ways
  of getting a sorted list. `UtTable.Table.Expand` proves the doubling with its statistics.
- **Chunkers.** Each loop equals a loop-free reference cut, and that is the first place where
  named binary digits of a sum of table entries are zero. From that: the two-byte forms refine
  the one-byte forms, the exact condition on the globals under which the rolling form does so,
  the exact inputs on which they differ, locality of the cut test, streaming safety,
  resynchronisation after an edit, and normalization toward the mid point.
- **Wake-ups.** For every interleaving of any number of handlers: at most one in the flush loop,
  the counter exact, the kernel notified of every completion before the counter returns to
  zero, and of everything completed whenever the notifying handler gets its turn. Between two
  such turns there is at most one notification, and none while a handler is in the flush loop.
- **Download.** A commit file has the digest it should have, every read between the turns of the
  download thread is answered with the layer's content, a copy succeeds exactly under a stated
  condition and then stores exactly stated bytes, a resumed one reads exactly the blocks that are
  not wholly there (and a shorter last one), and the queue ends empty with every item destroyed
  once and given up only when its tries are used. What files, network and the running flag answer
  is a parameter, and the results hold for all answers.
- **Codecs.** Round trips on all inputs. Whatever writes and truncation do, a trace reloads to
  exactly the records taken or to nothing, and the condition is exact.

Four properties that look plausible are false of the code, and the model keeps the code:

- `rolling_data_2byes_64` and `cdc_origin_64` stop agreeing once a normalized chunker has been
  called, since those overwrite `MinSize` but not `MinSize_divide_by_2`. For every table with a
  pair of bytes that cut together but not alone, `RollingMatchesOnlyInStep` states that they
  agree if and only if `MinSize` is twice its halved copy; `NormalizedCallBreaksRolling` shows
  that two entries of the shipped table form such a pair.
- A two-byte form never tests the last byte of an odd length, so it is not equal to the one-byte
  form. `OddEndIsMissed` gives buffers on which they differ, and `PairsDifferAtOddEnd` states that
  they differ if and only if the clamped length is odd and its last byte is the first hit.
- `download_blob` counts a block as copied when the write is no shorter than the read, so a short
  read leaves stale bytes in the file. `ShortReadIsAccepted` gives an input, and `CopyIsExact`
  states exactly when the copy is right, for every attempt, forced or resumed. (`download_done`
  finds a wrong file by its digest.)
- A trace file is not always complete or empty: where a write and the truncation after it both
  fail, part of it stays (`NeitherEmptyNorReloadable`), and where the last write fails it may even
  be complete (`CompleteAfterFailedWrite`). `Dumped` states exactly when it is complete and when
  it is empty, and that in all other cases it reloads to nothing.

## Model

| member | source | states |
|---|---|---|
| `FastCdc.Chunker.Init` | overlaybd/FastCDC-c/fastcdc.c:239-251 | after initialisation the second table holds every entry of the first shifted left once, and the minimum is twice its halved copy |
| `FastCdc.Chunker.CdcOrigin` | overlaybd/FastCDC-c/fastcdc.c:371-390 | the loop returns the reference cut: the first position from the minimum on whose fingerprint misses the mask, else the clamped length |
| `FastCdc.Chunker.RollingData2Bytes` | overlaybd/FastCDC-c/fastcdc.c:341-369 | two bytes per step with doubled table and mask return the reference cut from twice the halved minimum, the last byte of an odd length untested |
| `FastCdc.Chunker.NormalizedChunking` | overlaybd/FastCDC-c/fastcdc.c:253-288 | the two loops return the reference cut for a mask that changes at the mid point; the global minimum is left at 6144 |
| `FastCdc.Chunker.NormalizedChunking2Bytes` | overlaybd/FastCDC-c/fastcdc.c:290-339 | the same cut, two bytes per step, also across the mask change and when the mid point is the length |
| `GearCut.FirstHitMeans` | overlaybd/FastCDC-c/fastcdc.c:381-389 | the reference scan stops at a hit or at the end, and there is no hit before it |
| `CdcPlain.Mask02KBTests` | overlaybd/FastCDC-c/fastcdc.c:99-104 | a fingerprint passes the 2 KB test if and only if its binary digits 16, 17, 20, 22, 24, 25, 40, 43, 44, 46 and 47 are zero |
| `CdcPlain.Mask08KBTests` | overlaybd/FastCDC-c/fastcdc.c:99-104 | the 8 KB test asks the same of the digits 36 and 37 as well |
| `CdcPlain.Mask32KBTests` | overlaybd/FastCDC-c/fastcdc.c:99-104 | the 32 KB test asks the same of the digits 36, 37, 38 and 39 as well |
| `CdcPlain.FingerprintIsSum` | overlaybd/FastCDC-c/fastcdc.c:267-268 | the fingerprint is the sum modulo 2^64 of the table entries of the bytes scanned, each doubled once for every byte after it |
| `CdcPlain.OriginCutIs` | overlaybd/FastCDC-c/fastcdc.c:371-390 | the cut is the length up to the minimum, else the first place from the minimum on where 13 named digits of the sum are zero, else the clamped length |
| `CdcPlain.NormalCutIs` | overlaybd/FastCDC-c/fastcdc.c:253-288 | the same from 6144 on, with the 15 digits of the 32 KB test below 8192 and the 11 digits of the 2 KB test from there on |
| `FastCdc.ShiftedTest` | overlaybd/FastCDC-c/fastcdc.c:99-104 | a doubled fingerprint meets a doubled mask exactly when the fingerprint meets the mask |
| `CdcTheorems.RollingRefinesOrigin` | overlaybd/FastCDC-c/fastcdc.c:341-390 | while the minimum is twice its halved copy, the rolling form cuts every buffer as the origin form does, but for a cut at the last byte of an odd clamped length |
| `CdcTheorems.RollingMatchesOnlyInStep` | overlaybd/FastCDC-c/fastcdc.c:250-255 | given a pair of byte values that cut together but not alone, the two forms agree on all buffers if and only if the globals are in step |
| `CdcTheorems.NormalizedCallBreaksRolling` | overlaybd/FastCDC-c/fastcdc.c:239-256 | with the shipped table the forms agree after initialisation and disagree once a normalized chunker has set the minimum |
| `CdcTheorems.ShippedPair` | overlaybd/FastCDC-c/fastcdc.c:4-35 | entries 35 and 91 of the shipped table cut together but not alone |
| `CdcTheorems.NormalPairsRefineNormal` | overlaybd/FastCDC-c/fastcdc.c:253-339 | the two-byte normalized form cuts every buffer as the one-byte form does, with the same single exception |
| `CdcTheorems.PairsDifferAtOddEnd` | overlaybd/FastCDC-c/fastcdc.c:253-390 | the two forms of a chunker differ if and only if the clamped length is odd, its last byte is a hit and there is none before; then the one-byte form cuts there and the two-byte form does not |
| `CdcTheorems.RollingDiffersAtOddEnd` | overlaybd/FastCDC-c/fastcdc.c:341-390 | the same for the rolling and the origin form while the globals are in step |
| `CdcTheorems.NormalFormsDifferAtOddEnd` | overlaybd/FastCDC-c/fastcdc.c:253-339 | the same for the two normalized forms |
| `CdcTheorems.EvenLengthsAgree` | overlaybd/FastCDC-c/fastcdc.c:253-390 | at an even clamped length the two forms agree on every buffer |
| `CdcTheorems.ShippedThird` | overlaybd/FastCDC-c/fastcdc.c:45-87 | entry 246 of the shipped table cuts behind two of entry 121, which do not cut |
| `CdcTheorems.OddEndIsMissed` | overlaybd/FastCDC-c/fastcdc.c:239-390 | with the shipped table and sizes, buffers of 2051 and 6147 bytes that the one-byte forms cut before the last byte and the two-byte forms do not cut |
| `CdcTheorems.MasksNest` | overlaybd/FastCDC-c/fastcdc.c:99-104 | the bits of the 2 KB mask lie in the 8 KB mask, and those in the 32 KB mask |
| `CdcTheorems.NormalizationMovesTowardMid` | overlaybd/FastCDC-c/fastcdc.c:253-288 | with the same minimum, where the origin form cuts before the mid point the normalized form cuts no earlier than it, and where the origin form cuts later the normalized cut lies between the mid point and that cut |
| `CdcTheorems.CutTestSeesOnlyItsWindow` | overlaybd/FastCDC-c/fastcdc.c:99-104 | two positions in any two buffers whose windows of up to 48 bytes agree decide alike under equal masks |
| `CdcStreaming.CutSeesOnlyScannedBytes` | overlaybd/FastCDC-c/fastcdc.c:371-390 | bytes before the minimum and beyond the clamped length never affect a cut |
| `CdcStreaming.CutSurvivesAppend` | overlaybd/FastCDC-c/fastcdc.c:253-390 | a cut inside the buffer is unchanged by any bytes appended, for all four forms |
| `CdcStreaming.CutNeedsOnlyMaxSize` | overlaybd/FastCDC-c/fastcdc.c:253-390 | with at least the maximal size available, the cut does not depend on the length or on later bytes |
| `CdcStreaming.StreamingMatchesWhole` | overlaybd/FastCDC-c/fastcdc.c:253-390 | whatever each refill offers, if it is the rest or at least the maximal size, the chunks are those of the whole buffer |
| `CdcStreaming.TilesCover` | overlaybd/FastCDC-c/fastcdc.c:253-390 | chunks are nonempty, bounded, tile the buffer, and only the last may be shorter than the start of the scan |
| `CdcStreaming.EveryChunkerStreams` | overlaybd/FastCDC-c/fastcdc.c:245-390 | the streaming results for each of the four chunkers with the sizes that initialisation sets |
| `CdcStreaming.EditedStreamsResynchronise` | overlaybd/FastCDC-c/fastcdc.c:253-390 | two streams with a boundary before equal remaining bytes have equal chunks from there on, whatever differs before |
| `UtHandle.Append` | overlaybd/FastCDC-c/uthash.h:289-295 | the list with the element at its end is well linked in both directions |
| `UtHash.Hash.Add` | overlaybd/FastCDC-c/uthash.h:407-426 | keeps integrity and appends the element to the application list |
| `UtHash.Hash.FirstGreater` | overlaybd/FastCDC-c/uthash.h:297-304 | the walk stops at the first element greater than the new one, or behind the last |
| `UtHash.Hash.AddInOrder` | overlaybd/FastCDC-c/uthash.h:361-392 | keeps integrity through the head, middle and append cases and inserts behind all elements not greater |
| `StableSort.InsertPlaces` | overlaybd/FastCDC-c/uthash.h:297-304 | insertion puts the new element behind every element not greater and before the first greater one |
| `StableSort.InsertOrdered` | overlaybd/FastCDC-c/uthash.h:361-392 | ordered insertion keeps an ordered list ordered, newer among equals last |
| `UtHash.Hash.Delete` | overlaybd/FastCDC-c/uthash.h:461-488 | keeps integrity and removes exactly the element; removing the last one leaves no table |
| `UtHash.Hash.Replace` | overlaybd/FastCDC-c/uthash.h:265-273 | the element found under the key, if any, is returned and gone, the new one is last, integrity holds |
| `UtHash.Hash.Find` | overlaybd/FastCDC-c/uthash.h:164-184 | an element of the table with the key and hash value, or null exactly when there is none |
| `UtHash.Hash.Sort` | overlaybd/FastCDC-c/uthash.h:903-985 | terminates, keeps integrity, turns the application list into its merge sort and changes no chain |
| `UtSort.MergeRuns` | overlaybd/FastCDC-c/uthash.h:929-970 | merging two runs by relinking yields the merge of the two sequences and leaves the rest of the list intact |
| `UtSort.SortPass` | overlaybd/FastCDC-c/uthash.h:913-975 | one pass yields the list of merged neighbouring runs, well linked, and reports whether one merge was enough |
| `UtSort.SortList` | overlaybd/FastCDC-c/uthash.h:903-985 | the passes end, with head and tail at the ends of the sorted list |
| `StableSort.MergeSortIsStable` | overlaybd/FastCDC-c/uthash.h:903-985 | for a total preorder the result is the arrangement in order with equal elements as they stood |
| `StableSort.MergeSortPlain` | overlaybd/FastCDC-c/uthash.h:903-985 | the result is a permutation, no element stands before a smaller one, and of two that compare equal the one that stood first still does |
| `StableSort.SortIsInsertion` | overlaybd/FastCDC-c/uthash.h:903-985 | the bottom-up merge sort and repeated ordered insertion give the same list |
| `UtBuckets.HashToBkt` | overlaybd/FastCDC-c/uthash.h:441-444 | masking with the bucket count less one is the remainder by it, the count being a power of two |
| `UtBuckets.PushFront` | overlaybd/FastCDC-c/uthash.h:780-790 | the chain with the element in front is well linked and counted, all other chains as before |
| `UtBuckets.DelInBkt` | overlaybd/FastCDC-c/uthash.h:802-815 | the chain without the element is well linked and counted, all other chains as before |
| `UtTable.Table.AddToBkt` | overlaybd/FastCDC-c/uthash.h:780-799 | the element is in front of its chain; exactly when that brings the bucket to ten times its multiplier plus one, and expanding is not given up, the chains are spread over twice as many buckets with fresh statistics; otherwise the statistics and multipliers stay |
| `UtTable.Table.AddToTable` | overlaybd/FastCDC-c/uthash.h:348-356 | count, chains and Bloom filter all know the new element |
| `UtTable.Table.Expand` | overlaybd/FastCDC-c/uthash.h:846-896 | twice the buckets with the elements spread over them, ideal length, excess, multipliers and the decision to stop expanding |
| `UtBuckets.SpreadSplits` | overlaybd/FastCDC-c/uthash.h:863-883 | a chain is split between its own slot and that slot plus the old count, nothing lost or duplicated |
| `UtBuckets.SpreadAllMembers` | overlaybd/FastCDC-c/uthash.h:863-883 | after doubling, a chain has exactly the elements of the old chain with the same low bits whose hash value leaves its number as the remainder |
| `UtBuckets.SpreadReverses` | overlaybd/FastCDC-c/uthash.h:863-883 | two elements of a chain that fall into the same new chain change places in it |
| `UtBuckets.CeilByShift` | overlaybd/FastCDC-c/uthash.h:859-861 | the shift and mask compute the ceiling of the quotient |
| `UtExpand.ExpansionStatistics` | overlaybd/FastCDC-c/uthash.h:859-874 | the ideal length is the ceiling; a multiplier is zero exactly for a chain within it, and otherwise between the two bounds its length allows |
| `UtBuckets.MultIs` | overlaybd/FastCDC-c/uthash.h:869-874 | the multiplier in closed form: zero within the ideal length, and else the ceiling of the quotient but for one element too many, and one less than the count at ideal length one |
| `UtBuckets.ExcessCounts` | overlaybd/FastCDC-c/uthash.h:859-874 | the number of non-ideal items is the number of places deeper in their chain than the ideal length |
| `UtExpand.ExpandBuckets` | overlaybd/FastCDC-c/uthash.h:846-890 | the nested loops build the doubled array and count exactly the elements beyond the ideal length |
| `UtBloom.BitSet` | overlaybd/FastCDC-c/uthash.h:206-207 | this bit is set and every other is as it was |
| `UtTable.Table.BloomAdd` | overlaybd/FastCDC-c/uthash.h:209-218 | with the filter, exactly the bit of the hash value is set in addition; without it, nothing changes |
| `UtTable.Table.BloomTest` | overlaybd/FastCDC-c/uthash.h:212-219 | the answer is the bit of the hash value, and a negative one is never wrong |
| `UtTable.Table.FindInBkt` | overlaybd/FastCDC-c/uthash.h:758-777 | an element of the chain that matches, or null exactly when none does |
| `UtTable.Table.Find` | overlaybd/FastCDC-c/uthash.h:164-213 | the filter never hides an element: the answer is exact with and without it |
| `UtFsck.Fsck` | overlaybd/FastCDC-c/uthash.h:527-574 | on any table whose forward links can be followed, the integrity check passes if and only if all back links and all counts are right |
| `UtFsck.ValidIsClean` | overlaybd/FastCDC-c/uthash.h:527-574 | every valid table can be walked and passes the check |
| `UtFsck.ValidMeans` | overlaybd/FastCDC-c/uthash.h:527-574 | what integrity says of the application list, the counts and the place of every element, link by link |
| `UtFsck.ValidChainMeans` | overlaybd/FastCDC-c/uthash.h:527-574 | what integrity says of a chain: its head, its count, and its links in both directions |
| `UtFsck.CountsSum` | overlaybd/FastCDC-c/uthash.h:527-574 | the chain lengths add up to the number of elements |
| `UtRun.StepRefinesMap` | overlaybd/FastCDC-c/uthash.h:265-488 | every operation keeps keys unique and moves the finite map along |
| `UtRun.LastOperationDecides` | overlaybd/FastCDC-c/uthash.h:265-488 | after any run the map has under a key what the last operation on that key put there, nothing if that was a delete, and what it had if there was none |
| `UtRun.ApplyMeans` | overlaybd/FastCDC-c/uthash.h:265-985 | what each operation makes of the list, place by place: at the end, behind the elements not greater, without the one replaced or deleted, or the stable sort |
| `UtRun.Run` | overlaybd/FastCDC-c/uthash.h:265-985 | over any run of operations integrity holds, the list is the one called for, and the elements are those of the finite map |
| `UtRun.RunThenFind` | overlaybd/FastCDC-c/uthash.h:164-214 | after any run a lookup returns the live element for the key, or null |
| `UtRun.OrderedAddsAreAddsAndSort` | overlaybd/FastCDC-c/uthash.h:361-985 | ordered additions leave the list that plain additions followed by one sort leave, and it is the stable sort |
| `Wakeup.Device.OnAccept` | overlaybd/src/main.cpp:277-286 | one more command in flight |
| `Wakeup.Device.ProcessingComplete` | overlaybd/src/main.cpp:237-237 | one more notification, which covers everything completed so far |
| `Wakeup.Device.CompleteCommand` | overlaybd/src/main.cpp:233-237 | completing, counting, notifying at the counter value one, and yielding or leaving together make the completion step of the protocol |
| `Wakeup.Device.AfterYield` | overlaybd/src/main.cpp:239-249 | the reset of the counter, the repeated notification, and yielding or leaving together make the resumption step of the protocol |
| `Wakeup.Device.Schedule` | overlaybd/src/main.cpp:233-286 | any schedule of any number of handlers keeps the invariant and takes the device through the run of the protocol, notifications included |
| `Wakeup.ServeAll` | overlaybd/src/main.cpp:233-286 | a fresh device under any schedule: no more notifications than completions, and with no handler left none is waiting and both counters are zero |
| `Wakeup.InvariantKept` | overlaybd/src/main.cpp:233-249 | at every yield point at most one handler is in the flush loop, the counter is one more than the unflushed completions then and zero otherwise, and flushes never exceed completions |
| `Wakeup.InvariantAlways` | overlaybd/src/main.cpp:233-286 | the invariant holds after every run |
| `Wakeup.NotifiesExactly` | overlaybd/src/main.cpp:233-249 | a completion notifies exactly if no handler is in the flush loop, a turn of the flusher exactly if a completion is not notified yet, and nothing else does; a notification covers all completions so far, and only a handler that notifies stays |
| `Wakeup.Coalesces` | overlaybd/src/main.cpp:233-249 | any number of arrivals and completions between two turns of the flusher cause at most one notification, and none at all while a handler is in the flush loop |
| `Wakeup.FreshRunsKeepInvariant` | overlaybd/src/main.cpp:233-286 | the invariant holds at every yield point of every run from a fresh device |
| `Wakeup.NoLostWakeup` | overlaybd/src/main.cpp:233-249 | between a completion and any later return of the counter to zero there is an event that notifies the kernel, and with that event the kernel learns of the command |
| `Wakeup.FlusherDrains` | overlaybd/src/main.cpp:235-246 | the notifying handler alone brings the counter to zero in at most two turns |
| `Wakeup.FlusherTurnCovers` | overlaybd/src/main.cpp:235-246 | whenever the notifying handler gets its turn, after any interleaving, everything completed before has been notified |
| `Wakeup.QuietDeviceIsFlushed` | overlaybd/src/main.cpp:233-249 | with no handler left both counters are zero and every completion was notified |
| `BlobCopy.WriteBlock` | overlaybd/src/bk_download.cpp:193-203 | the first of at most two writes no shorter than the read is accepted, and the file then has the bytes of the buffer up to its length and is as before elsewhere; source bytes keep agreement with the source |
| `BlobCopy.DownloadBlob` | overlaybd/src/bk_download.cpp:129-207 | it succeeds if and only if file and buffer can be had, the image runs, and every block is there or is read and written; the file is then exactly the stated one; with a source of the expected size and no short read it equals the source, from any resumable file or from any file if forced, and a resumable file stays resumable also if the attempt fails |
| `BlobCopy.ReadBlock` | overlaybd/src/bk_download.cpp:181-192 | the first of at most two tries that is no error is used, and what it does not reach stays in the buffer |
| `BlobCopy.SucceedsMeans` | overlaybd/src/bk_download.cpp:157-207 | an attempt succeeds if and only if file and buffer can be had and for every block the image runs and either all its cells are data and nothing is forced, or one of two reads answers and one of two writes is no shorter than that |
| `BlobCopy.CopyMeans` | overlaybd/src/bk_download.cpp:167-203 | a present block stays as it is; of any other the bytes read are those of the source at their offset, those written beyond them are those of the buffer, and the rest stays |
| `BlobCopy.BufferMeans` | overlaybd/src/bk_download.cpp:150-203 | a stale byte in the buffer is the one that the last read to reach its place put there |
| `BlobCopy.BufferFresh` | overlaybd/src/bk_download.cpp:150-203 | and before any such read the one that the allocation left there |
| `BlobCopy.PresentIsNotFetched` | overlaybd/src/bk_download.cpp:167-175 | in an unforced attempt a block whose cells are all data is never read: whatever reads and writes would answer there, the attempt succeeds alike and stores the same file, with that block as it was |
| `BlobCopy.AbsentIsFetched` | overlaybd/src/bk_download.cpp:167-192 | a block with a hole, a last one that is shorter, or any block of a forced attempt is read: where its reads fail the attempt fails |
| `BlobCopy.CopyIsExact` | overlaybd/src/bk_download.cpp:181-203 | the copy of any successful attempt, forced or resumed, with retries and short writes, equals the source if and only if every byte was read, or was right already in the buffer or in the file where it was left |
| `BlobCopy.NoShortReadIsExact` | overlaybd/src/bk_download.cpp:157-203 | where no accepted read is short, every successful attempt from a resumable file, or forced from any file, equals the source |
| `BlobCopy.ShortReadIsAccepted` | overlaybd/src/bk_download.cpp:188-203 | an input on which a short read is accepted and the copy differs from the source |
| `Download.SwitchFile.Pread` | overlaybd/src/switch_file.cpp:117-124 | reads come from the local file once it is set, else from the remote one: as many bytes as asked for and there from the offset on, each the one at its place |
| `DownloadQueue.Serve` | overlaybd/src/switch_file.cpp:117-124 | any reads of layers in a good state return the bytes of their content at the places asked for |
| `Download.SwitchFile.SetSwitchFile` | overlaybd/src/switch_file.cpp:77-100 | the read path changes to the commit file exactly when it can be opened |
| `Download.Item.DownloadDone` | overlaybd/src/bk_download.cpp:64-99 | a commit file appears exactly when the digest is the expected one and the rename works; a wrong digest forces the next download |
| `Download.Item.Download` | overlaybd/src/bk_download.cpp:101-114 | commit files stay verified, readers see the same content before and after, a good source never fails the verification, and where nothing fails it is committed and switched to |
| `Download.RemoteBlobNames` | overlaybd/src/bk_download.cpp:74-91 | where equal digests mean equal bytes, the digest of the remote blob names its content |
| `DownloadQueue.Downloader.LockFile` | overlaybd/src/bk_download.cpp:116-123 | succeeds exactly when no one holds the directory, which is held afterwards |
| `DownloadQueue.Downloader.Settle` | overlaybd/src/bk_download.cpp:236-251 | the lock on the directory is released; an item goes back to the end of the queue exactly if it failed, has tries left and the image runs; otherwise it is destroyed |
| `DownloadQueue.Downloader.Turn` | overlaybd/src/bk_download.cpp:209-263 | an item whose directory is held elsewhere is put back unattempted, any other is attempted once; the loop stops exactly if the image exited meanwhile; no directory stays locked by it |
| `DownloadQueue.Downloader.Proc` | overlaybd/src/bk_download.cpp:209-263 | every item is attempted at most as often as it has tries, and unless the image exits exactly so often or until its commit file is there; each turn that finds the directory free and the image running makes one attempt and no other turn makes any, so none follows an exit but the one under way; every item is destroyed exactly once, the queue ends empty, every commit file has its digest, and every read before, between and after the turns returns the bytes of the layer at the places asked for; where nothing fails, every good source ends committed with its readers on the commit file |
| `Prefetch.WriteTrace` | overlaybd/src/prefetch.cpp:250-287 | for every outcome of the writes and the truncation: the file is the trace and reloads to its records if and only if header and records were written in full and the second header was too, or it was left untruncated with nothing but zeros of the checksum missing; otherwise it reloads to nothing; and it is empty if and only if a write was not full and truncation works or nothing was written |
| `Prefetch.MixedHeader` | overlaybd/src/prefetch.cpp:272-276 | a file under a header that is partly the first and partly the second is the trace, and reloads, exactly if the checksum bytes not written are zero |
| `Prefetch.ShortBody` | overlaybd/src/prefetch.cpp:263-270 | a file with records missing reloads to nothing |
| `TraceCodec.OverwrittenHeader` | overlaybd/src/prefetch.cpp:272-276 | a partly overwritten header is read with the new checksum exactly if it is the new header |
| `Prefetch.Recorder.RecordAccess` | overlaybd/src/prefetch.cpp:129-136 | an access is appended until the recorder is stopped and ignored afterwards |
| `Prefetch.TakenMeans` | overlaybd/src/prefetch.cpp:129-136 | the records taken are the accesses in front of the first removal of the lock, in order |
| `Prefetch.Recorder.Dump` | overlaybd/src/prefetch.cpp:235-287 | the first dump closes the file as the write leaves it, a second one changes nothing |
| `Prefetch.Recorder.LockRemoved` | overlaybd/src/prefetch.cpp:326-341 | removing the lock stops, dumps and closes the file, once |
| `Prefetch.RecorderRun` | overlaybd/src/prefetch.cpp:96-136 | after any run the file is as a dump of the records taken before the stop leaves it, and the next run records if and only if a write was not full and truncation works or nothing was written |
| `Prefetch.ModeBySize` | overlaybd/src/prefetch.cpp:559-572 | no trace file disables prefetching, an empty one is recorded to, any other is replayed |
| `Prefetch.Reload` | overlaybd/src/prefetch.cpp:289-324 | what reading the file record by record makes of magic, size, short data and checksum |
| `Prefetch.ReloadRefuses` | overlaybd/src/prefetch.cpp:289-301 | a file without a whole header, with another magic number or of another size than the header says is refused |
| `Prefetch.ReloadShort` | overlaybd/src/prefetch.cpp:303-314 | where records are missing the reload fails and the queue keeps those read |
| `Prefetch.ReloadWhole` | overlaybd/src/prefetch.cpp:303-324 | otherwise it succeeds with all records if the checksum is that of the header, and fails with none if not |
| `Prefetch.DecodeMeans` | overlaybd/src/prefetch.cpp:203-208 | the fields of the i-th record are the little-endian numbers at their offsets in the file |
| `Prefetch.TraceRoundTrip` | overlaybd/src/prefetch.cpp:235-324 | reloading a complete trace yields exactly its records in order |
| `Prefetch.RecordThenReload` | overlaybd/src/prefetch.cpp:96-341 | record, destroy and start again, for every outcome of the writes and the truncation: the next prefetcher has exactly the records taken before the stop in order, or none, and has them if and only if the trace is complete |
| `Prefetch.NeitherEmptyNorReloadable` | overlaybd/src/prefetch.cpp:257-261 | a run that leaves a file which is neither empty nor reloadable |
| `Prefetch.CompleteAfterFailedWrite` | overlaybd/src/prefetch.cpp:272-276 | a run whose last write and truncation fail and that leaves the complete trace |
| `TraceCodec.RecordRoundTrip` | overlaybd/src/prefetch.cpp:203-208 | decoding an encoded record gives it back |
| `TraceCodec.HeaderRoundTrip` | overlaybd/src/prefetch.cpp:210-214 | decoding an encoded header gives it back |
| `TraceCodec.RecordLayout` | overlaybd/src/prefetch.cpp:203-208 | the 24 bytes of a record, field by field |
| `TraceCodec.HeaderLayout` | overlaybd/src/prefetch.cpp:210-214 | the 24 bytes of a header, field by field |
| `TraceCodec.TraceHead` | overlaybd/src/prefetch.cpp:250-276 | a complete trace starts with the header that has the magic number, the size of the records and their checksum |
| `TraceCodec.TraceRecord` | overlaybd/src/prefetch.cpp:263-270 | the i-th record stands 24 + 24 i bytes in |
| `TraceCodec.ChecksumIsExtended` | overlaybd/src/prefetch.cpp:263-270 | the checksum extends zero by the records, the first one first |
| `Base64.Base64Encode` | overlaybd/src/overlaybd/base64.h:18-57 | the loop with its three- and four-byte buffers computes the encoding of section 4 of RFC 4648 |
| `Base64.EncodeMeans` | overlaybd/src/overlaybd/base64.h:10-57 | every letter is the one that the table of 64 has at the value of its six bits of the group of three bytes, and what follows the letters is the sign = as often as bytes are missing from the last group |
| `Base64.Base64Decode` | overlaybd/src/overlaybd/base64.h:59-99 | the loop computes the bytes of the leading letters, whatever a missing letter leaves in the buffer |
| `Base64.DecodeMeans` | overlaybd/src/overlaybd/base64.h:59-99 | every byte is the eight bits at its place in the group of four values, the values being the places of the leading letters in the table of 64 |
| `Base64.LettersAre` | overlaybd/src/overlaybd/base64.h:14-16 | the letters are exactly the characters of the table |
| `Base64.GroupRoundTrip` | overlaybd/src/overlaybd/base64.h:29-32 | three bytes cut into four sextets and joined again are the same three bytes |
| `Base64.RoundTrip` | overlaybd/src/overlaybd/base64.h:18-99 | decoding the encoding of any byte string gives it back |
| `Base64.EncodeLength` | overlaybd/src/overlaybd/base64.h:18-57 | n bytes take four characters for every three bytes begun |
| `Base64.DecodeUsesLetterPrefix` | overlaybd/src/overlaybd/base64.h:67-99 | decoding uses only the longest prefix of k letters and gives floor(6k / 8) bytes |

## Left out

- FastCdc.Chunker.NormalizedChunking: asks for a maximum of at least 8192, which `fastCDC_init` sets; below that the original reads past the clamped length. The same holds for `FastCdc.Chunker.NormalizedChunking2Bytes`.
- CdcTheorems.RollingMatchesOnlyInStep: the Gear table is any table; of the shipped one only entries 35, 91, 121 and 246 are written out.
- UtHash.Hash.Add: counts and sizes are unbounded, so wrap-around beyond 2^31 buckets or 2^32 elements is not captured; nor is running out of memory.
- UtHash.Hash.Sort: the comparator is a pure function of the elements.
- UtFsck.Fsck: asks that the forward links end, without which the original does not terminate; it does not look at the slots of elements, so passing it is weaker than `UtHash.Hash.Valid`.
- UtRun.Run: replace is modelled in its unordered form; the key and hash value of an element are constant while it lives, and the element is its own handle (`hho` offsets do not appear).
- Hash functions, HASH_SELECT, HASH_CLEAR and the convenience macros around the modelled ones: easy or independent of the invariant.
- Wakeup.Device.Schedule: the pending counter does not wrap; SCSI emulation, the ring buffer and thread scheduling between yields do not appear.
- BlobCopy.DownloadBlob: holes are tracked byte by byte, as a file system may report them at any granularity; truncation always works; throttling, delays and logging do not appear.
- DownloadQueue.Downloader.Proc: directories held by other queues are a parameter, reads are taken between the turns of the thread, within which the read path changes in one step, and no mutual exclusion between queues is claimed, because destroying an item unlocks its directory unconditionally (overlaybd/src/bk_download.h:41-44).
- Download.SwitchFile.SetSwitchFile: opening as tar and zfile is one abstract function of the bytes, and SHA-256 is one too.
- Prefetch.WriteTrace: the padding bytes of the structures are zero, CRC32C is an abstract function, and the bookkeeping of the OK and lock files does not appear.
- Prefetch.TraceRoundTrip: holds for files shorter than 2^64 bytes, the range of the size field.
- Slicing of extents in the dynamic prefetcher: true and easy.
- Base64.Base64Decode: strings of 2^31 characters or more, where the original's length counter wraps, and locales other than "C" for `isalnum`.
- The registry, cache, LSMT, ZFile and tar code, the Go snapshotter and convertor, configuration, metrics and command lines.
