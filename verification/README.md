# Verified models of six algorithms

The repository is a collection of C programs. Six of them are algorithms with something to get wrong, and each is
modelled here in Dafny in its own form (loops over arrays, classes with pointers, records, a state machine) and proved
against a specification that does not mention its code.

* **Channel assignment** (`ChannelColouring`, `ChannelOrder`, `ChannelAssignment`, `ThresholdSearch`). Access points
  are vertices; two of them are adjacent when either hears the other above a threshold. A backtracking search gives each
  a channel of 1, 6 and 11, trying channels by interference score or at random, and an outer loop looks for a low
  threshold that still has an assignment. Main result: `ThresholdSearch.ChooseThreshold` ends for every signal matrix
  with an assignment, at the lowest workable threshold or one above it (up to 100), or on the next step of 20 above it.
* **Carrying the matrices over** (`MatrixMove`, `MatrixSafety`, `MatrixUpdate`) when access points were added or deleted.
  Main results: `MatrixMove.Rebuild`, and `MatrixSafety.MoveKeepsAllIff`, the exact condition under which the in-place
  move keeps every value.
* **Ranges and CIDR blocks** (`Bits`, `RangeToCidr`, `CidrProperties`, `CidrBounds`, `CidrCount`, `RangeMerge`,
  `RangeRoundTrip`; CIDR notation is that of section 3.1 of RFC 4632). Main results: the greedy split tiles the range, is optimal, and emits
  exactly the maximal aligned blocks; sort-and-merge computes a unique canonical form; and range - blocks - ranges - merge
  returns the range if and only if the two ends of the range suit the mask table.
* **The Berkeley tail queue** (`TailQueue`), pointers included. Main result: `TailQueue.Run`.
* **Base64 twice** (`Base64Spec`, `Base64Stream`, `Base64OneShot`; sections 4 of RFC 4648 and 5.2 of RFC 1521). Main
  results: `Base64Stream.ChunkedRoundTrip` and `Base64OneShot.RoundTrip`.
* **The reboot handshake over FIFOs** (`RebootHandshake`), all interleavings of one master and n slaves, and
  **the bitmap** (`Bitmap`) as a set of naturals.

`dafny verify dfyconfig.toml` checks everything. `Bits` holds `And`, `Or`, single bits, powers of two and alignment on
unbounded naturals; the programs' masks and shifts are written with it.

## Where the code departs from what it is for

The code is modelled as it stands. Each departure has the exact condition under which the code is right.

* The mask table of the CIDR split clears more bits than the block has from 1024 values on. With `a` the first multiple of
  1024 from the start on and `d` the number of values from there to the end, addresses are stored right if and only if the
  prefix is below 10, or `d` is below 1024, or the top binary digit of `d` is within the prefix, its mask divides `a`, and
  the digits of `d` from 1024 on are far enough apart (`CidrBounds.MasksHarmlessIff`, `CidrProperties.AddressesExactIff`).
  A shortest failing range is [1024, 2047] (`CidrProperties.MaskFailsAt1024`, `CidrProperties.ShortRangesExact`).
* The loop of the split never looks at the size of its buffer. It overruns `cidr_max` places if and only if the end is
  2^32 - 1, where it never ends (`CidrBounds.LoopEndsIff`), or the range has more records than places
  (`CidrCount.OverrunsIff`). The number of records follows from the two ends and the prefix m (`CidrCount.RecordsAre`): with
  c the first multiple in [start, end + 1] of the highest power of two up to 2^m that has one there, it is the number of binary ones of c - start,
  plus the quotient of end + 1 - c by 2^m, plus the number of ones of the remainder. It has no bound for a fixed prefix
  (`CidrCount.FullBlocks`); below 2^m it is at most 2m - 2. The callers pass 32 places, too few already for [1, 2^32 - 2]
  at the prefix 32 and for [0, 33 * 2^16 - 1] at the prefix 16 (`CidrCount.ThirtyTwoPlacesOverrun`).
* In-place Base64 decoding rereads a cell it has overwritten. For encodings the length is right if and only if the
  original did not have two bytes (`Base64OneShot.InPlaceLength`, `Base64OneShot.RoundTrip`); for any text the condition is
  `Base64OneShot.InPlaceLengthRightIff`.
* Sort-and-merge uses zero both as a value and as "empty slot". The merged ranges are always right; the returned count
  is one short if and only if some range starts at 0 (`RangeMerge.SortMerge`, `RangeMerge.CountRightIff`).
* Moving a matrix in place keeps the values of all kept pairs if and only if every kept position moves up, or moves down
  to a deleted position whose row is not cleared afterwards (`MatrixSafety.MoveKeepsAllIff`). For a list that did not
  shrink this means that something was added, or the last position was deleted, or the list was empty
  (`MatrixSafety.GrownListSafeIff`); an unchanged list is wiped (`MatrixSafety.UnchangedListLoses`).
* Pairs with a new access point start at zero in the adjacency matrix (`MatrixUpdate.NewEdgesZero`). In the signal matrix
  they do so if and only if every such cell of a deleted row lies in the first bytes of the row, as many as the old list
  had entries, because the memset counts bytes as if they were cells (`MatrixUpdate.NewSignalsZeroIff`,
  `MatrixSafety.StaleSignal`).
* Every candidate of an access point on a configured channel is 0, so two of them that hear each other rule out every
  assignment, and they never constrain a third (`ChannelColouring.FixedNodesMatterOnlyToEachOther`).
* The candidates of the first node are not ordered again by the search, so that node is coloured by what it holds. It is
  treated as configured if and only if its candidates are those of its setting, which fails when the setting changed and
  the node was not scanned again (`ChannelAssignment.Head.TreatedAsConfiguredIff`).
* The master counts a slave as contacted even when the write to its FIFO failed. While it is running, the all-received
  exit can still be reached if and only if every contacted slave has answered, holds the message or has it waiting
  (`RebootHandshake.AllReceivedReachableIff`); after a failed write it never is
  (`RebootHandshake.FailedWriteNeverAllReceived`), and the run can only end by timeout
  (`RebootHandshake.TimeoutStaysPossible`, `RebootHandshake.FailedWriteRun`). With no slave contacted at all, only a pass in
  which select fails takes the all-received exit (`RebootHandshake.NoContactExit`).

## Model

| member | source | states |
|---|---|---|
| `ChannelColouring.PlanIsMonotone` | DCS/dcs.c:4613-4629 | raising the threshold keeps the network colourable, which is what lets a search over thresholds make sense |
| `ChannelColouring.ColourableAtTop` | DCS/dcs.c:4613-4629 | a threshold that no signal exceeds always has an assignment, so the climb ends |
| `ChannelColouring.FixedNodesMatterOnlyToEachOther` | DCS/dcs.c:3223-3233 | colourable if and only if no two fixed-channel nodes hear each other and the network without fixed-channel nodes is colourable |
| `ChannelColouring.ProperIsPlan` | DCS/dcs.c:3159-3187 | looking only at earlier neighbours in the symmetrised matrix is the same as separating every pair that hears each other in either direction |
| `ChannelColouring.TakenIsDeadEnd` | DCS/dcs.c:3167-3181 | a colour refused by the check cannot begin any proper assignment |
| `ChannelColouring.AllDeadEnds` | DCS/dcs.c:3403-3469 | when all candidates of a vertex lead nowhere, neither does the prefix: the backtracking step is complete |
| `ChannelColouring.DeadStart` | DCS/dcs.c:3333-3475 | failure from the first vertex means there is no assignment at all |
| `ChannelOrder.Shuffle` | DCS/dcs.c:887-899 | the draws, for given random values, make the exchanges that the next two rows are about |
| `ChannelOrder.ShuffledKeepsCounts` | DCS/dcs.c:887-899 | whatever the random values, the cards are only permuted |
| `ChannelOrder.EveryOrderPossible` | DCS/dcs.c:887-899 | every order of the cards comes out for some random values |
| `ChannelOrder.RandomNumber` | DCS/dcs.c:817-829 | a number between the bounds in either order, and every one of them for some value of rand() |
| `ChannelOrder.Collect` | DCS/dcs.c:903-923 | the last optional channels among the drawn cards, as many as there is room for, stand in order at the end of the candidate array, the rest untouched |
| `ChannelOrder.RandomOrder` | DCS/dcs.c:853-929 | for any range, number of draws and random values: the candidates receive the optional channels of the drawn end of the shuffled range, and nothing else changes |
| `ChannelOrder.FullDraw` | DCS/dcs.c:1041 | the call made by the program gives 1, 6 and 11, each once, whatever the draws |
| `ChannelOrder.SortTable` | DCS/dcs.c:979-1013 | the selection sort makes the scores ascend and keeps every score attached to its channel |
| `ChannelOrder.OptionalOfAll` | DCS/dcs.c:1017-1033 | the optional channels of any ordering of 1 to 11 are 1, 6 and 11, each once |
| `ChannelOrder.OptionalIffFiveApart` | DCS/dcs.c:1023 | three channels of 1 to 11 are the optional ones if and only if any two of them are at least five apart |
| `ChannelOrder.FullTable` | DCS/dcs.c:4531-4539 | a full table has eleven entries, the channels 1 to 11, each once |
| `ChannelOrder.OptionalByScore` | DCS/dcs.c:1017-1033 | channels taken in table order from an ascending table stand in the order of their scores in the original table |
| `ChannelOrder.TakeOptional` | DCS/dcs.c:1017-1033 | for any table: its optional channels in table order stand in front of the old candidates, as far as there is room |
| `ChannelOrder.Order` | DCS/dcs.c:937-1071 | for any table: with a positive score the table ascends with scores attached and its optional channels come in front of the old candidates; otherwise the table is untouched and the candidates are 1, 6 and 11 |
| `ChannelOrder.OrderOfFullTable` | DCS/dcs.c:975-1033 | a table of all eleven channels gives a permutation of {1, 6, 11} by non-decreasing score |
| `ChannelOrder.OrderOfBareTable` | DCS/dcs.c:1017-1033 | a table without an optional channel, such as a zeroed one, leaves the candidates as they were |
| `ChannelAssignment.Symmetrise` | DCS/dcs.c:3585-3633 | the result is symmetric, each pair holds the upper value if positive and the lower otherwise, and 1 is returned exactly when the input was not symmetric; null gives -1 |
| `ChannelAssignment.Head.IsColorOk` | DCS/dcs.c:3159-3187 | true exactly when no earlier adjacent vertex has the colour |
| `ChannelAssignment.Head.AddInterference` | DCS/dcs.c:3239-3273 | every channel within four of the assigned colour gains its share of the signal, no other changes |
| `ChannelAssignment.ScoredNext` | DCS/dcs.c:3239-3273 | the accumulated score over the colours assigned so far, one colour at a time |
| `ChannelAssignment.OthersDoNotInterfere` | DCS/dcs.c:3251 | a candidate gains nothing from the other two candidates or from skipped nodes, whatever their signals |
| `ChannelAssignment.Head.DoRfa` | DCS/dcs.c:3197-3321 | for any table: the candidates are ordered from the node's channels with the scores after all colours assigned so far (zeroes for a fixed channel); the first node is not touched and the node's own table never is |
| `ChannelAssignment.Head.OrderedFromFull` | DCS/dcs.c:3311-3319 | from a table of all eleven channels the candidates are {1, 6, 11}, by score when some score is positive |
| `ChannelAssignment.Head.OrderedFromBare` | DCS/dcs.c:4123-4135 | a node whose table was zeroed while it still counts as scanned keeps its candidates or draws {1, 6, 11} afresh |
| `ChannelAssignment.Head.Prepare` | DCS/dcs.c:3391-3401 | every participating node then has the candidates of the kind it is treated as, whatever the tables of skipped nodes hold; enabled and operational nodes after the first are ordered even when they were not scanned, and all other candidates are kept |
| `ChannelAssignment.Head.TreatedAsConfiguredIff` | DCS/dcs.c:3311-3319 | every node is treated as configured if and only if the first node holds the candidates of its setting |
| `ChannelAssignment.Head.TryCandidates` | DCS/dcs.c:3403-3469 | the loop ends with a full proper assignment, or no assignment extends the prefix; it never reorders the candidates it is walking |
| `ChannelAssignment.Head.Skip` | DCS/dcs.c:3439-3467 | a node that takes no part gets 0xff, and skipping loses no assignment |
| `ChannelAssignment.Head.GiveOneAssign` | DCS/dcs.c:3333-3475 | sound and complete: count 1 means the colours are a proper assignment extending the prefix, count 0 means none extends it, whatever orders are picked on the way |
| `ChannelAssignment.Head.BuildAdjacency` | DCS/dcs.c:4613-4629 | an edge stands exactly where either direction's signal exceeds the threshold |
| `ChannelAssignment.Head.PlanIsAssignment` | DCS/dcs.c:3413-3467 | the assignments searched for, read off the flags: 0xff exactly for nodes not enabled, not operational or not scanned, 0 for configured channels, else 1, 6 or 11, and only nodes with all three flags constrain each other |
| `ChannelAssignment.Head.Evaluate` | DCS/dcs.c:4613-4635 | one round finds a scheme if and only if there is an assignment over the flags at the threshold, and then the colours are one |
| `ThresholdSearch.Adjust` | DCS/dcs.c:4643-4751 | when the body stops, the threshold is at or just above the lowest workable one; otherwise the new bounds still have a failing lower and a working upper end, and the search is strictly closer to its end |
| `ThresholdSearch.StopsNearLeast` | DCS/dcs.c:4711-4743 | where the loop stops, the threshold is the lowest workable one from 15 on or one above it up to 100, and otherwise the next step of 20 above 100 |
| `ThresholdSearch.ThresholdBound` | DCS/dcs.c:4657-4665 | no threshold tried exceeds both 100 and the largest signal by 20 or more |
| `ThresholdSearch.ChooseThreshold` | DCS/dcs.c:4601-4753 | for every signal matrix the loop ends with an assignment over the flags at its threshold, which is the lowest workable one from 15 on or one above it up to 100, and otherwise the next step of 20 above 100 |
| `MatrixMove.NewPosKeepsOrder` | DCS/dcs.c:2203-2317 | kept positions stay different and in order |
| `MatrixMove.TailIsTaken` | DCS/dcs.c:2203-2317 | kept positions are packed at the tail without holes |
| `MatrixMove.MoveRow` | DCS/dcs.c:2241-2313 | the kept cells of an old row are at their new columns, zeroes before them, all other rows as they were |
| `MatrixMove.Rebuild` | DCS/dcs.c:2203-2317 | every pair of kept access points has its old value at its new positions, and every cell outside the tail square is zero |
| `MatrixMove.MoveInPlace` | DCS/dcs.c:2203-2317 | the in-place loops, for any lengths and deletions, compute on the array the function of the old values that the lemmas below are about |
| `MatrixSafety.SafeMoveKeeps` | DCS/dcs.c:2203-2317 | a safe in-place move brings every kept pair to its new position with its old value |
| `MatrixSafety.UnsafeMoveLoses` | DCS/dcs.c:2279-2303 | for every unsafe move there is a matrix that loses a kept value |
| `MatrixSafety.MoveKeepsAllIff` | DCS/dcs.c:2203-2317 | the in-place move keeps the kept pairs of every matrix if and only if it is safe, also with deletions and for a shorter list |
| `MatrixSafety.GrownListSafeIff` | DCS/dcs.c:2375-2387 | for a list that did not shrink: safe if and only if something was added, or the last position was deleted, or the list was empty |
| `MatrixSafety.UnchangedListLoses` | DCS/dcs.c:2283-2287 | one access point, nothing added or deleted: its value is lost |
| `MatrixSafety.OutsideTail` | DCS/dcs.c:2203-2317 | every cell outside the square of kept pairs, for any lengths and deletions: rows the loops get to hold what the memset leaves when deleted and zeroes when kept, all else is untouched |
| `MatrixSafety.NewPairsZeroIff` | DCS/dcs.c:2225-2275 | pairs with a new access point start at zero for every old matrix if and only if the memset clears those cells of deleted rows |
| `MatrixSafety.StaleSignal` | DCS/dcs.c:2231-2235 | a pair of new access points inherits a signal of the deleted one |
| `MatrixUpdate.Matrices.Setup` | DCS/dcs.c:1905-2083 | an empty list fails and changes nothing; matrices in place are kept; otherwise there are new zero matrices of the list's size |
| `MatrixUpdate.Matrices.Update` | DCS/dcs.c:2333-2491 | a list that outgrew the matrices rebuilds both and leaves the old ones unchanged; one that fits moves both in place, keeping all kept pairs when that is safe; of a deleted row it gets to, the signals from byte position oldListCount on stay and those wholly before it are cleared, and all its edges are cleared; an empty list moves nothing; deletions are forgotten; only an empty first list fails |
| `MatrixUpdate.SignalsKeptIff` | DCS/dcs.c:2375-2387 | for a list that fits and did not shrink, every signal matrix survives if and only if something was added, or the last position was deleted, or the list was empty |
| `MatrixUpdate.NewEdgesZero` | DCS/dcs.c:2231 | in the adjacency matrix the memset clears all pairs with a new access point |
| `MatrixUpdate.NewSignalsZeroIff` | DCS/dcs.c:2233 | in the signal matrix they start at zero if and only if all such cells of deleted rows lie within the first bytes that the memset clears |
| `RangeToCidr.MaskLaw` | range2cidr/range2cidr.c:14-21 | the law of the table: 2^32 - 2^j up to 9, 2^32 - 2^(j + 1 + (j - 10) / 3) from 10 to 25, so that every fourth mask is left out, and 0 from 26 on |
| `RangeToCidr.MaskMeaning` | range2cidr/range2cidr.c:14-21 | every mask is ones above zeros, more zeros than the exponent from 10 on |
| `RangeToCidr.TrailingZeros` | range2cidr/range2cidr.c:28-32 | the largest alignment of the start, up to the cap |
| `RangeToCidr.BlockEndStaysInWord` | range2cidr/range2cidr.c:41-42 | an aligned block that starts in a word ends in it, so the block end never wraps |
| `RangeToCidr.LongestBlock` | range2cidr/range2cidr.c:40-49 | the inner loop always finds a block, the largest aligned one that ends by the end of the range |
| `RangeToCidr.EmitOne` | range2cidr/range2cidr.c:28-50 | each pass emits exactly one block, the largest that fits, and moves behind it |
| `RangeToCidr.Split` | range2cidr/range2cidr.c:12-51 | the records written are those of the greedy blocks in order, the rest of the buffer is zero; an overrun is reported exactly when there are more blocks than places |
| `CidrProperties.SplitTiles` | range2cidr/range2cidr.c:27-51 | blocks follow one another from start to end, each aligned to its size and within the range and the cap |
| `CidrProperties.ChainHoldsEachOnce` | range2cidr/range2cidr.c:27-51 | so every value of the range lies in exactly one block, and no other value in any |
| `CidrProperties.SplitIsOptimal` | range2cidr/range2cidr.c:27-51 | no cover of the range by aligned blocks, overlapping or not, has fewer blocks |
| `CidrProperties.RiseThenFall` | range2cidr/range2cidr.c:27-51 | sizes strictly rise, stay at the cap, then strictly fall |
| `CidrCount.RecordsAre` | range2cidr/range2cidr.c:27-51 | the number of records of any range at any prefix, in closed form from the two ends |
| `CidrCount.RecordsAround` | range2cidr/range2cidr.c:27-51 | around any multiple c of 2^k with less than 2^k values on either side: the ones of c - start plus the ones of end + 1 - c |
| `CidrCount.FullBlocks` | range2cidr/range2cidr.c:27-51 | n full blocks need n records, so a fixed prefix gives no bound |
| `CidrCount.PassesAreRecords` | range2cidr/range2cidr.c:27-51 | a pass, and with it a write at its index, takes place exactly for the indices below the number of blocks |
| `CidrCount.OverrunsIff` | range2cidr/range2cidr.c:12-51 | for every start, end and prefix the split writes behind a buffer if and only if the end is 2^32 - 1 or the closed form exceeds the places |
| `CidrCount.ThirtyTwoPlacesOverrun` | range2cidr/range2cidr.c:63-67 | 32 places are too few at the prefix 32 and at the prefix 16 |
| `CidrBounds.MostBlocks` | range2cidr/range2cidr.c:12-51 | for ranges that end below 2^max_prefix the number of records is at most 2 * max_prefix - 2 (one when the prefix is at most 1) |
| `CidrBounds.MostBlocksReached` | range2cidr/range2cidr.c:12-51 | [1, 2^max_prefix - 2] needs exactly that many |
| `CidrBounds.LoopEndsIff` | range2cidr/range2cidr.c:27-51 | the loop ends if and only if the end is below 2^32 - 1 |
| `CidrProperties.EmittedIffMaximal` | range2cidr/range2cidr.c:27-51 | a block is emitted if and only if it is aligned, inside the range, and its parent block is not |
| `CidrProperties.RecordOf` | range2cidr/range2cidr.c:43-44 | the record of a block: its start without the low bits that the law of the table clears, and the prefix that gives its size |
| `CidrProperties.StoredAddressIsStart` | range2cidr/range2cidr.c:43 | the stored address is the start if and only if the start is a multiple of what the mask clears, and never above it |
| `CidrProperties.AddressesExactIff` | range2cidr/range2cidr.c:14-51 | all addresses are right if and only if every maximal block of 1024 values or more suits its mask |
| `CidrBounds.MasksHarmlessIff` | range2cidr/range2cidr.c:14-51 | the same condition read off the two ends of the range: the first multiple of 1024 and the binary digits of the length from there |
| `CidrProperties.ShortRangesExact` | range2cidr/range2cidr.c:14-51 | ranges of fewer than 1024 values are always stored right |
| `CidrProperties.MaskFailsAt1024` | range2cidr/range2cidr.c:17 | [1024, 2047] is one block and is stored at address 0 |
| `RangeMerge.TestsMean` | range2cidr/sort_merge.c:2-21 | overlap means a common value; overlap or adjacency means that the hull of the two adds no value |
| `RangeMerge.SortByStart` | range2cidr/sort_merge.c:28-45 | sorted by start, a permutation, nothing beyond cnt touched |
| `RangeMerge.MergeIntoKeeps` | range2cidr/sort_merge.c:55-67 | each pass keeps a canonical form of exactly the values covered so far |
| `RangeMerge.MergeSorted` | range2cidr/sort_merge.c:53-67 | sorted ranges become a canonical form covering the same values, followed by empty slots |
| `RangeMerge.CountNonEmpty` | range2cidr/sort_merge.c:70-73 | the count leaves out exactly a first range that starts at 0 |
| `RangeMerge.SortMerge` | range2cidr/sort_merge.c:22-78 | in place: same values covered, sorted with gaps, then zero slots; the count is right except that it is one short when 0 is covered |
| `RangeMerge.CountRightIff` | range2cidr/sort_merge.c:71 | 0 is covered if and only if some input range starts at 0 |
| `RangeMerge.CanonicalIsUnique` | range2cidr/sort_merge.c:22-78 | two canonical forms of the same values are equal |
| `RangeMerge.MergeDependsOnCoverOnly` | range2cidr/sort_merge.c:22-78 | any two inputs of equal cnt covering the same values give the same array |
| `RangeRoundTrip.CidrToRange` | range2cidr/range2cidr.c~:123-136 | one range per record up to the shorter array, the rest untouched |
| `RangeRoundTrip.ReadBackCoversIff` | range2cidr/range2cidr.c~:123-136 | the ranges read back cover exactly the original range if and only if no mask changes an address |
| `RangeRoundTrip.RoundTrip` | range2cidr/range2cidr.c~:17-136 | split, read back and merge give the single original range, with count 1, if and only if the two ends of the range suit the masks |
| `RangeRoundTrip.ShortRangesRoundTrip` | range2cidr/range2cidr.c~:17-64 | that condition holds for every range of fewer than 1024 values |
| `TailQueue.Init` | sys_queue_h_test/queue.h:387-390 | an empty, well-formed queue |
| `TailQueue.InsertHead` | sys_queue_h_test/queue.h:392-400 | well formed, the element before all others |
| `TailQueue.InsertTail` | sys_queue_h_test/queue.h:402-407 | well formed, the element behind all others |
| `TailQueue.InsertAfter` | sys_queue_h_test/queue.h:409-417 | well formed, the element right after the given one, wherever that is |
| `TailQueue.InsertBefore` | sys_queue_h_test/queue.h:419-424 | the same right before it, found without the head |
| `TailQueue.Remove` | sys_queue_h_test/queue.h:426-433 | well formed without the element, whose own pointers are left as they were |
| `TailQueue.Concat` | sys_queue_h_test/queue.h:445-452 | all elements of the second queue behind those of the first, either possibly empty; the second is empty afterwards |
| `TailQueue.First` | sys_queue_h_test/queue.h:458 | the first element, or null |
| `TailQueue.Next` | sys_queue_h_test/queue.h:459 | the following element, or null |
| `TailQueue.Last` | sys_queue_h_test/queue.h:461-462 | the cast through the back pointer gives the last element, or null when empty |
| `TailQueue.Prev` | sys_queue_h_test/queue.h:463-464 | the cast gives the preceding element, or null at the first, where it reads the head as an entry |
| `TailQueue.Forward` | sys_queue_h_test/queue.h:435-438 | visits the elements in order, each once |
| `TailQueue.Backward` | sys_queue_h_test/queue.h:440-443 | visits exactly the reverse |
| `TailQueue.QueueIsUnique` | sys_queue_h_test/queue.h:387-464 | the pointers determine the elements: no heap is two different queues |
| `TailQueue.Perform` | sys_queue_h_test/queue.h:387-452 | an update of one of two queues, or a concatenation either way, does to both what it does to two sequences, and keeps them apart |
| `TailQueue.Run` | sys_queue_h_test/queue.h:387-464 | from two initialised heads, every run of updates and concatenations ends in the same contents as on sequences, and reverse traversal visits the reverse of forward traversal |
| `Base64Spec.DigitsOfGroup` | base64/seuBase64.c:157-160 | the four groups are the base-64 digits of the 24-bit number |
| `Base64Spec.BytesOfDigits` | certifificate/base64decode.c:47-82 | the three bytes are recovered from the four groups |
| `Base64Spec.EncodeLength` | base64/seuBase64.c:146 | 4 * ceil(n / 3) characters |
| `Base64Spec.AlphabetIs` | base64/seuBase64.c:102-104 | the alphabet character by character, and the padding character outside it |
| `Base64Spec.EncodeByQuanta` | base64/seuBase64.c:151-198 | each quantum of the encoding stands for its own bytes: the same 24-bit number, with padding exactly for missing bytes |
| `Base64Spec.PaddingIs` | certifificate/base64encode.c:78-90 | the encoding of n bytes ends in exactly (3 - n % 3) % 3 padding characters and has no other |
| `Base64Spec.DecodeUndoesEncode` | certifificate/base64decode.c:25-87 | decoding undoes encoding for every byte string |
| `Base64Spec.NoiseIsIgnored` | certifificate/base64decode.c:45-46 | the same for every text that differs from the encoding only in non-alphabet characters |
| `Base64Spec.NoiseStrips` | certifificate/base64decode.c:45-46 | a character outside the alphabet inserted anywhere is such a difference |
| `Base64Stream.EncodeValue` | certifificate/base64encode.c:20-24 | the character of a value up to 63, padding above |
| `Base64Stream.Encoder.Consume` | certifificate/base64encode.c:43-67 | a byte in any step emits the characters it completes and leaves the state of one byte more |
| `Base64Stream.Encoder.Update` | certifificate/base64encode.c:26-73 | after any bytes, a chunk emits exactly what the longer stream adds, and leaves the state of all bytes so far |
| `Base64Stream.Encoder.Final` | certifificate/base64encode.c:75-93 | the padded rest of the last group |
| `Base64Stream.StreamIsEncoding` | certifificate/base64encode.c:26-93 | streamed and final characters together are the encoding of RFC 4648 |
| `Base64Stream.NoEarlyPadding` | certifificate/base64encode.c:26-73 | no padding before the final call |
| `Base64Stream.EmittedLength` | certifificate/base64encode.c:26-73 | how many characters a stream of n bytes has emitted |
| `Base64Stream.EncodeChunks` | certifificate/base64encode.c:15-104 | every chunking of the input gives the encoding of the whole |
| `Base64Stream.DecodeValue` | certifificate/base64decode.c:10-17 | with a signed char, the value of an alphabet character and a negative number for every other byte |
| `Base64Stream.Advance` | certifificate/base64decode.c:47-82 | an alphabet character in any step completes the byte it completes and leaves its remaining bits in the next cell |
| `Base64Stream.Decoder.Block` | certifificate/base64decode.c:25-87 | after any text, a chunk writes exactly the bytes the longer text adds, and leaves the state of all text so far |
| `Base64Stream.DecodeChunks` | certifificate/base64decode.c:19-87 | every chunking of the text gives the bytes of the whole |
| `Base64Stream.ChunkedRoundTrip` | certifificate/base64decode.c:25-87 | any chunking of the data, any chunking of the text, and any non-alphabet characters inserted anywhere: the original bytes |
| `Base64OneShot.B64Encode` | base64/seuBase64.c:134-207 | the same encoding with a terminating NUL, and none of the three size errors can happen |
| `Base64OneShot.Pr2Six` | base64/seuBase64.c:108-125 | the table gives the value of every alphabet character and 64 for every other byte |
| `Base64OneShot.Scan` | base64/seuBase64.c:228-233 | finds the first non-blank and the number of alphabet characters after it |
| `Base64OneShot.UnpackOne` | base64/seuBase64.c:252-257 | the three bytes of the four characters as they were before, even when written over them |
| `Base64OneShot.Unpack` | base64/seuBase64.c:250-260 | all quanta are packed from the original text in both modes, because no write reaches a cell still to be read |
| `Base64OneShot.B64Decode` | base64/seuBase64.c:220-273 | the packed bytes cut at the reported length and terminated, in both modes; separate decoding leaves the text alone and reports three bytes a quantum, less one or two for a last one that is not full |
| `Base64OneShot.PackedBytes` | base64/seuBase64.c:252-257 | the three bytes of any four characters, also outside the alphabet |
| `Base64OneShot.EncodingIsText` | base64/seuBase64.c:228-233 | every encoding, after blanks and before any other character, is a text the scans accept |
| `Base64OneShot.EncodingPacks` | base64/seuBase64.c:250-260 | packing an encoding gives back the bytes |
| `Base64OneShot.SeparateLength` | base64/seuBase64.c:262-268 | separate decoding reports the original length |
| `Base64OneShot.InPlaceLength` | base64/seuBase64.c:262-268 | in place it does so too, except that two bytes are reported as one |
| `Base64OneShot.InPlaceLengthRightIff` | base64/seuBase64.c:262-268 | for any text: in-place decoding reports the length of separate decoding if and only if there is more than one quantum or a full one, or the overwritten cell happens to fall on the same side of the alphabet as the original |
| `Base64OneShot.RoundTrip` | base64/seuBase64.c:134-273 | the original comes back if and only if it is not two bytes decoded in place |
| `RebootHandshake.NextKeepsInv` | fifo/sync_process_with_fifo/master_process.c:66-136 | every step of the master or of a slave keeps the invariant on masks, messages and answers |
| `RebootHandshake.RunKeepsInv` | fifo/sync_process_with_fifo/master_process.c:66-136 | so does every interleaving from fresh FIFOs |
| `RebootHandshake.RecordedWereContacted` | fifo/sync_process_with_fifo/master_process.c:119-125 | only contacted slaves are ever recorded |
| `RebootHandshake.AnswersConserved` | fifo/sync_process_with_fifo/slaveA_fifo.c:44-51 | an answer given is in the FIFO or recorded exactly once, and no other index ever appears |
| `RebootHandshake.AllReceivedMeansAnswered` | fifo/sync_process_with_fifo/slaveB_fifo.c:44-51 | leaving by the all-received exit means every contacted slave read the message and answered |
| `RebootHandshake.MasksAgreeIff` | fifo/sync_process_with_fifo/master_process.c:131-134 | the masks agree if and only if the answer of every contacted slave has been read |
| `RebootHandshake.AllReceivedReachableIff` | fifo/sync_process_with_fifo/master_process.c:100-136 | a run that is still going can end by the all-received exit if and only if every contacted slave has answered, holds the message, or has it waiting in its FIFO |
| `RebootHandshake.CleanRunCanFinish` | fifo/sync_process_with_fifo/master_process.c:66-136 | from the steps alone: a run that is still going, without a failed write, an early end of file or a failed answer, can end by the all-received exit |
| `RebootHandshake.FullRun` | fifo/sync_process_with_fifo/master_process.c:66-136 | for every n there is a run of n successful sends, n receipts, n answers and the fewest reads of at most 32 that ends by the all-received exit with all slaves answered |
| `RebootHandshake.ReadPassExit` | fifo/sync_process_with_fifo/master_process.c:119-134 | a pass that read answers leaves by the all-received exit if and only if all contacted slaves have been read |
| `RebootHandshake.ReadsAtMost32` | fifo/sync_process_with_fifo/master_process.c:37 | a pass reads between 1 and 32 answers |
| `RebootHandshake.GoneForGood` | fifo/sync_process_with_fifo/slaveA_fifo.c:44-51 | a slave that saw the end of its FIFO or failed to answer never answers |
| `RebootHandshake.AnsweredHasReceived` | fifo/sync_process_with_fifo/slaveA_fifo.c:44-51 | a slave that answered has read the message and written its answer |
| `RebootHandshake.AnswersInOrder` | fifo/sync_process_with_fifo/master_process.c:119-125 | answers are read in the order in which they were given |
| `RebootHandshake.FailedWriteNeverAllReceived` | fifo/sync_process_with_fifo/master_process.c:72-79 | after a write that failed, no continuation leaves by the all-received exit |
| `RebootHandshake.TimeoutStaysPossible` | fifo/sync_process_with_fifo/master_process.c:112-114 | every run that is still going can end by timeout |
| `RebootHandshake.FailedWriteRun` | fifo/sync_process_with_fifo/master_process.c:72-79 | a run whose only write fails and that ends by timeout with the slave contacted and uninformed |
| `Bitmap.Bitmap.constructor` | bitmap/bitmap_test.c:6-19 | the empty set, with room for the given bit and the rest of its byte |
| `Bitmap.LengthGuard` | bitmap/bitmap.h:10-15 | the length test accepts exactly the bits below the capacity |
| `Bitmap.Set` | bitmap/bitmap_test.c:28-46 | adds the bit to the set if it is below the capacity, else -1 and nothing changes |
| `Bitmap.Clear` | bitmap/bitmap_test.c:63-81 | removes the bit from the set, no other bit changes |
| `Bitmap.IsSet` | bitmap/bitmap_test.c:98-114 | 1 exactly for members; 0 for null and for bits out of range |
| `Bitmap.Count` | bitmap/bitmap_test.c:136-151 | the cardinality of the set |
| `Bitmap.Run` | bitmap/bitmap_test.c:28-81 | after any run of set and clear calls the map is the set of the same run, and the count its cardinality |

## Left out

- Channel assignment: pipes, select, semaphores, the list of peers, scanning, schedule callbacks, setting channel and
  power, and debug output. The signal matrix, the flags of the access points and their score tables are inputs. Skipped
  nodes and nodes on a configured channel may have any table. An auto node has a table of all eleven channels, or one
  without an optional channel (a zeroed one) and candidates left from an earlier calculation; a zeroed table together with
  candidates that were never set is not covered. The first node holds three zeroes or 1, 6 and 11, whatever its setting.
- Channel assignment: `rand()` is nondeterministic, and the two scoring functions the source calls but does not contain are
  parameters, the coefficient being at least 1. Signals and thresholds are unbounded naturals; `ThresholdSearch.ThresholdBound`
  says how large a threshold can get.
- ChannelOrder.NextRands: promises only how many values there are, because it stands for `rand()`.
- MatrixUpdate.Matrices.Update: how deleted indices are recorded over several deletions is not part of this model, and the
  two matrices are moved one after the other instead of together. What is left of a cell that a memset clears in part
  depends on the byte count and order and is a parameter that keeps zero; `MatrixUpdate.NewSignalsZeroIff` takes it that
  some value is not cleared wholly.
- RangeToCidr.Split: the end of the range is below 2^32 - 1, since the loop does not end otherwise
  (`CidrBounds.LoopEndsIff`), and the prefix at most 32. Where the program would write behind its buffer the model stops and
  reports it. One copy returns the number of records, the other always 0; the model returns the number.
- RangeMerge.SortMerge: ranges with start above end are not specified; values are below 2^31, as the comparisons are on `int`.
- RangeRoundTrip.CidrToRange: the prefix of a record is at most the maximum prefix, as the split produces it.
- Base64OneShot.B64Encode: lengths are unbounded, so a length near the limit of `int` is not modelled.
- Base64OneShot.B64Decode: the buffer holds whole quanta; for a text cut short the source reads past its end.
- Base64Stream.Decoder.Block: text and output are separate, and the output has one spare cell, which the source writes.
- The wrapper `base64decode` (certifificate/base64decode.c:89-98), which passes a pointer as a length, and the copy of the
  one-shot coder in certifificate/seuBase64.c.
- Handshake: blocking opens, signals and time; a timeout can happen at any pass. Indices are unbounded, while the source
  has two slaves and `int` masks.
- Bitmap: the range functions, which act on start + 1 to end + 1, clear-all, which also zeroes the stored length
  (bitmap/bitmap_test.c:48-61, 175-185), and negative bit numbers.
- Allocation failure and printed output throughout; the thread, semaphore, socket and library demos.
