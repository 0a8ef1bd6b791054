# Verification of the CTF platform's allocator, QR encoder, team hub, limiter and container pool

Four parts of the platform carry properties that no single function shows. This project models each of them and proves
those properties for every input, every run or every interleaving. `dafny verify dfyconfig.toml` checks it all.

**Instance manager** (`Scheduler`, `InstanceStore`, `InstanceManager`, `AllocatorProtocol`, `AllocatorPorts`,
`AllocatorRecords`, `AllocatorCapacity`, `AllocatorRuns`, `AllocatorLimits`). The scheduler chooses the first
best-scoring eligible worker and its smallest free port. The class `Store` holds the two tables and the class
`Manager` the operations on them; each method is proved against a specification on values. The protocol then takes the
operations apart: creates hold the allocation lock and are split into snapshot, choice, look-up, expiry stamp, worker
answer and write, while heartbeats, clock ticks and any number of stops, each split into a read, a worker delete and a
possibly stale write, run in between. The stop inside a create and the steps of the reaper are stops like any other.
`CreateAlone` and `StopAlone` show that a run with nothing in between is the manager's operation. Over all runs: no
two live instances of a worker share a port other than 0, and none share any port as long as no worker reports a range
that spans port 0; live instances of one network sit on one worker; capacity is never exceeded if requests are not
negative and heartbeats do not shrink it; a live record never changes until a stop's write ends it; and a create that
names a live record leaves every record alone and ends in a conflict or with that record, whatever runs between its
steps. `AllocatorLimits` shows each condition to be exact, for every port range, every request and every heartbeat.

**QR encoder** (`GaloisField`, `ByteField`, `LogTables`, `ReedSolomon`, `QrPayload`, `QrGrid`, `QrMatrix`,
`QrPlacement`, `QrPenalty`, `QrEncoder`, `QrDamage`). The tables give a field whose generator has order 255; the shift
register leaves the check bytes that make the generator's roots roots of the codeword; different messages give
codewords more than `nsym` places apart (a Vandermonde argument by elimination); the payload survives packing,
splitting and interleaving, and where each byte and each bit of it ends up is given in closed form, from the data
codewords to the cells of the finished matrix; the zigzag visits every cell but those of column 6 once; the format
words of the masks are at least 7 bits apart; the penalty is a sum over maximal runs, blocks and balance. The last
step is end to end: the matrix of `EncodeMatrix` is that of the lowest-numbered mask of least penalty, and a reader
that takes the mask from the format cells, undoes it, walks the zigzag, de-interleaves and parses gets the text back;
and the distance of the codewords reaches the matrix, so that damage of up to half of a block's check codewords leaves
the text determined. The methods fill arrays and grids in place as the encoder does.

**Team hub and attempt limiter** (`TeamHub`, `RateLimiter`). Membership, captaincy and join requests as a state
machine with a class that updates the three tables; and the sliding window, whose pruned list is proved to decide as
the full history of accepted attempts would. For each route the conditions of every answer are exact, and so are the
tables it leaves.

**Target containers** (`WhaleContainers`, `WhaleFlags`). Ports move between the pool and container rows and are
conserved exactly when port 0 is not in the range; a renewal made in time gives exactly one more timeout from now;
ordered flags are solved as a prefix.

Where a property fails, its exact condition is proved and a failing run is given: port 0 (`PortZeroIsShared`,
`PortsConservedExactly`), capacity (`CapacityNeedsNonNegative`, `CapacityNeedsRoomierHeartbeats`), the retry that gets
a conflict instead of the live record (`CreateIsIdempotent`, `RetryGetsConflict`), a stale stop that ends a fresh
record (`LiveRecordChange`, `StaleStopEndsFreshRecord`), team names (`NamesStayDistinct`, `NamesCollide`), a reported
wait that is too short by a fraction of a second (`RetryAfterWait`, `WaitIsTooShort`), and the container limit, which
the renewal of an expired container can exceed (`LimitHoldsExactly`, `LimitIsExceeded`).

Conventions: times, cpu amounts and scores are real numbers. A missing expiry is 0, as the code reads it. The outcome
of a call to a worker, to Docker or to a flag's comparison is a parameter, so every lemma holds for whatever it may
be. An id or key that the program draws at random is a parameter too.

## Model

| member | source | states |
|---|---|---|
| `Scheduler.FreePorts` | infra/instance_manager/scheduler.py:50-55 | the free ports of a range, exactly those not used, in ascending order |
| `Scheduler.RejectionsApply` | infra/instance_manager/scheduler.py:90-112 | a reason is listed exactly when it applies to the worker and request |
| `Scheduler.EligibleUnrejected` | infra/instance_manager/scheduler.py:90-112 | a worker is eligible exactly when nothing rejects it |
| `Scheduler.HardRejections` | infra/instance_manager/scheduler.py:90-112 | the appending checks list the reasons in their order |
| `Scheduler.UnsupportedExactly` | infra/instance_manager/scheduler.py:78-98 | an image is unsupported exactly where its trimmed platform, neither empty nor "multi", is listed neither as such nor as emulated |
| `Basics.TrimIs` | infra/instance_manager/scheduler.py:79-79 | trimming takes off blanks at both ends and nothing else |
| `Scheduler.LoadMonotone` | infra/instance_manager/scheduler.py:78-129 | more load, ports or failures never remove a rejection and never raise the score |
| `Scheduler.ScoreWeights` | infra/instance_manager/scheduler.py:115-129 | an idle worker scores 1 natively or for any platform, 0.955 where it emulates and 0.9 where it can do neither; using up a resource costs exactly its weight, and a failure 0.05 up to 0.4 |
| `Scheduler.NativeScoresMore` | infra/instance_manager/scheduler.py:78-87 | of two workers alike but for their platforms, the native one scores 0.045 more than the emulating one |
| `Scheduler.ScoreRange` | infra/instance_manager/scheduler.py:115-129 | whatever is used, a score lies between -0.4 and 1 |
| `Scheduler.SortHead` | infra/instance_manager/scheduler.py:144-145 | the head of the stable descending sort is the first candidate of highest score |
| `Scheduler.SelectsFirstBest` | infra/instance_manager/scheduler.py:132-154 | the choice is the first best eligible worker on its smallest free port; it fails exactly when all workers are rejected |
| `Scheduler.NativeIsChosen` | infra/instance_manager/scheduler.py:132-154 | an eligible worker that runs the image natively is chosen over one that would emulate it, alike but for name, address and platforms, in either order |
| `Scheduler.RoundingIsNear` | infra/instance_manager/scheduler.py:152-152 | the reported score is within half of the fourth decimal of the score |
| `Scheduler.TiesGoToEven` | infra/instance_manager/scheduler.py:152-152 | a score halfway between two values of four digits goes to the even one |
| `Scheduler.RoundingKeepsOrder` | infra/instance_manager/scheduler.py:152-152 | rounding never turns the order of two scores around |
| `Scheduler.AllAreNamed` | infra/instance_manager/scheduler.py:137-143 | when no worker is chosen the detail names every worker, in order, with its reasons |
| `Scheduler.SelectWorker` | infra/instance_manager/scheduler.py:132-154 | the loop over workers computes that choice with its rounded score, and collects the rejected workers with their reasons |
| `InstanceStore.UpsertReplaces` | infra/instance_manager/store.py:55-69 | a heartbeat replaces its worker's row in place or adds one, and leaves the others alone |
| `InstanceStore.UpsertValid` | infra/instance_manager/store.py:55-69 | worker ids stay unique and non-empty |
| `InstanceStore.PutValid` | infra/instance_manager/store.py:82-121 | keys stay unique under insert and update |
| `InstanceStore.Store.UpsertWorker` | infra/instance_manager/store.py:55-69 | the table after a heartbeat |
| `InstanceStore.Store.CreateInstance` | infra/instance_manager/store.py:82-88 | inserts exactly when the key is new, and otherwise changes nothing |
| `InstanceStore.Store.UpdateInstance` | infra/instance_manager/store.py:109-121 | replaces payload and status, and the expiry only when one is given |
| `InstanceManager.UsedPortsAre` | infra/instance_manager/app.py:164-179 | the recorded ports are exactly the non-zero ports of the worker's live instances |
| `InstanceManager.UsageCounts` | infra/instance_manager/app.py:164-179 | a record adds its request, one to the count and its non-zero port exactly when it is running, not past its expiry and on the worker |
| `InstanceManager.RecentAre` | infra/instance_manager/app.py:159-163 | exactly the workers whose heartbeat is not stale are listed |
| `InstanceManager.SnapshotShows` | infra/instance_manager/scheduler.py:30-48 | every field of a worker in a snapshot: those of its last heartbeat, defaults included, and what its records use |
| `InstanceManager.Manager.RecentWorkers` | infra/instance_manager/app.py:157-163 | the first loop keeps the recent workers, without load |
| `InstanceManager.Manager.CountInstance` | infra/instance_manager/app.py:165-179 | one record adds its use to its worker, if it is live and the worker recent |
| `InstanceManager.Manager.CurrentWorkerStates` | infra/instance_manager/app.py:156-180 | one pass over all records gives every recent worker the sum over its live instances |
| `InstanceManager.Manager.WorkerHeartbeat` | infra/instance_manager/app.py:186-196 | a heartbeat without an id is refused; any other is stored |
| `InstanceManager.Manager.StopInstanceRecord` | infra/instance_manager/app.py:109-125 | the answer and the table after a stop: unknown, already terminal, worker delete failed, or ended |
| `InstanceManager.StopDecides` | infra/instance_manager/app.py:98-125 | each answer of a stop, and its table, written out: the worker delete fails exactly for a running record with a network, in worker mode, when some row of its worker has an agent, the agent is out of reach and the stop is not forced |
| `InstanceManager.EndOne` | infra/instance_manager/app.py:130-139 | within a pass a stop sees its record as it was listed, and ends it unless the delete raises without force |
| `InstanceManager.Manager.ExpireDueInstances` | infra/instance_manager/app.py:127-140 | a pass ends exactly the due records whose delete did not raise or that are over 300 s overdue, and returns their number |
| `InstanceManager.ReaperBound` | infra/instance_manager/app.py:127-140 | after a pass a record is due exactly if it was and its delete raised at most 300 s past its expiry; what was not due is untouched |
| `InstanceManager.ReapedInTheEnd` | infra/instance_manager/app.py:136-137 | a pass more than 300 s past the expiry ends the record whatever the worker answers |
| `InstanceManager.Manager.StopAllInstances` | infra/instance_manager/app.py:450-464 | ends exactly the records not terminal whose delete did not raise or was forced, and returns their number |
| `InstanceManager.PassesDecide` | infra/instance_manager/app.py:98-140 | which records a pass of the reaper and a stop of all end, written out: by status, expiry, the worker's delete and force |
| `InstanceManager.Manager.ColocatedWorker` | infra/instance_manager/app.py:233-242 | the worker of the first live record on the network |
| `InstanceManager.Manager.DeployInstance` | infra/instance_manager/app.py:286-348 | only a successful answer writes the record, by update or by insert, and the insert never fails |
| `InstanceManager.Manager.CreateInstance` | infra/instance_manager/app.py:215-348 | the answer and the table after a create that runs alone, whatever its four readings of the clock |
| `InstanceManager.CreateDecides` | infra/instance_manager/app.py:245-348 | when a create ends in each answer: with a worker chosen and no live record, no agent exactly when none of its rows has one, a failed deployment exactly when one has and does not answer, and otherwise the record, deployed on its network or only allocated |
| `InstanceManager.CreateWrites` | infra/instance_manager/app.py:253-348 | the table after a create: only success writes the new record, and a record of the key past its expiry is ended whatever comes of it |
| `InstanceManager.SingleWorkerServes` | infra/instance_manager/scheduler.py:30-112 | a worker alone serves a request exactly when its heartbeat is recent, ready and not draining and declares platform, features, resources and ports enough, defaults included, and then on the first port of its range |
| `InstanceManager.CreateIsIdempotent` | infra/instance_manager/app.py:245-261 | a create naming a live record changes nothing; it returns that record exactly when some worker is eligible, and a conflict otherwise |
| `InstanceManager.RetryGivesRecord` | infra/instance_manager/app.py:253-263 | until its time to live is over, repeating a create changes nothing and gives the record it made, or a conflict |
| `AllocatorProtocol.StepSettles` | infra/instance_manager/app.py:109-125 | every step but the write of a create leaves records as they are or makes them terminal |
| `AllocatorProtocol.SettledLive` | infra/instance_manager/app.py:164-169 | what is live after such steps was live before and is the same record |
| `AllocatorProtocol.StatesCover` | infra/instance_manager/app.py:156-180 | a snapshot shows every non-zero port that a live instance of the worker holds |
| `AllocatorProtocol.ColocatedIs` | infra/instance_manager/app.py:233-242 | a live record of the network is found whenever there is one |
| `AllocatorProtocol.ChoiceIsFree` | infra/instance_manager/app.py:243-246 | a placement is on an eligible worker of the snapshot, on a port it shows free, and on the network's worker if there is one |
| `AllocatorProtocol.StaleWorkersAreNotChosen` | infra/instance_manager/app.py:159-163 | a worker with a stale heartbeat at the snapshot is never chosen |
| `AllocatorProtocol.RunKeeps` | infra/instance_manager/app.py:109-348 | the safety invariant holds after every interleaving |
| `AllocatorPorts.PortsAreExclusive` | infra/instance_manager/app.py:210-348 | in every interleaving two live instances of one worker have different ports, or both have port 0 |
| `AllocatorPorts.PortsNeverShared` | infra/instance_manager/app.py:210-348 | while no reported range spans port 0, two live instances of one worker never share a port |
| `AllocatorPorts.NetworksStayTogether` | infra/instance_manager/app.py:229-244 | in every interleaving all live instances of one network are on one worker |
| `AllocatorRecords.LiveRecordChange` | infra/instance_manager/app.py:109-125 | a live record changes in a step exactly when an open stop of its key is written, and then it is terminal with its expiry kept |
| `AllocatorRecords.LiveRecordFixed` | infra/instance_manager/app.py:253-261 | while a record stays live its worker, port, network and expiry never change |
| `AllocatorRecords.WriteNeverCollides` | infra/instance_manager/app.py:343-346 | a create never writes over a live record, inserts exactly when the key is unknown, and touches no other record |
| `AllocatorRecords.OneRowPerKey` | infra/instance_manager/store.py:20-26 | in every run each key has one row |
| `AllocatorRecords.CreateNamingLiveKey` | infra/instance_manager/app.py:215-263 | a create naming a live record, through any heartbeats, ticks and stops while the record stays live: it never gets past its look-up, writes nothing, and ends in a conflict or with the very record that was live at its start |
| `AllocatorCapacity.UsageShrinks` | infra/instance_manager/app.py:164-179 | fewer live records never use more, as long as no request is negative |
| `AllocatorCapacity.PutAdds` | infra/instance_manager/app.py:343-346 | writing a record that did not count adds exactly its request to its worker |
| `AllocatorCapacity.EndingLowersUsage` | infra/instance_manager/app.py:121-123 | ending a live record lowers its worker's usage exactly when its request is not negative |
| `AllocatorCapacity.PlacementFits` | infra/instance_manager/scheduler.py:102-109 | with no condition at all: a placement leaves the worker within the capacity it had when counted |
| `AllocatorCapacity.CapacityIsKept` | infra/instance_manager/scheduler.py:90-112 | with requests not negative and heartbeats never shrinking, no worker with live instances is over its cpu, ram, disk or container limit; the two rows on AllocatorLimits below show both conditions exact |
| `AllocatorRuns.StopAlone` | infra/instance_manager/app.py:109-125 | the steps of a stop with nothing in between are the operation |
| `AllocatorRuns.CreateAlone` | infra/instance_manager/app.py:215-348 | the steps of a create with only the clock going on in between are the operation, whatever stops are open |
| `AllocatorLimits.PortZeroIsShared` | infra/instance_manager/app.py:178-179 | for every range that spans port 0 some run puts two live instances on port 0 |
| `AllocatorLimits.NegativeRequestOverAllocates` | infra/instance_manager/app.py:220-228 | for every request negative in cpu, ram or disk there is a run, fair but for it, that over-allocates a worker |
| `AllocatorLimits.CapacityNeedsNonNegative` | infra/instance_manager/app.py:174-176 | runs fair but for one request never over-allocate a worker exactly when that request is not negative |
| `AllocatorLimits.ShrinkingOverAllocates` | infra/instance_manager/app.py:186-196 | for every heartbeat that declares less cpu, ram, disk or fewer containers than an eligible worker's last one there is a fair run after which it leaves the worker over-allocated |
| `AllocatorLimits.CapacityNeedsRoomierHeartbeats` | infra/instance_manager/app.py:186-196 | after fair runs that end with a worker's declaration, its next heartbeat never leaves a worker over-allocated exactly when it declares no less of anything |
| `AllocatorLimits.RetryGetsConflict` | infra/instance_manager/app.py:245-261 | a run in which the retry of a create whose record is live gets a conflict, because the record itself fills the worker |
| `AllocatorLimits.StaleStopEndsFreshRecord` | infra/instance_manager/app.py:109-125 | a run in which a stop that has read a record ends, after expiry and re-creation, the fresh record ten seconds before its time |
| `GaloisField.AlphaOrder` | target-plugin/qr.py:24-33 | the powers of the generator repeat with period 255 and no smaller one |
| `GaloisField.FirstPowers` | target-plugin/qr.py:24-33 | the powers are 1, 2, 4 up to 128 and then 0x1D |
| `GaloisField.AlphaInjective` | target-plugin/qr.py:24-33 | its first 255 powers are all different |
| `GaloisField.LogExists` | target-plugin/qr.py:24-33 | every non-zero element is one of them |
| `GaloisField.MulAssociates` | target-plugin/qr.py:39-42 | the product is associative |
| `GaloisField.MulDistributes` | target-plugin/qr.py:39-42 | the product distributes over addition |
| `LogTables.InitTables` | target-plugin/qr.py:24-33 | the loops fill both tables with powers and their logarithms |
| `LogTables.Tables.Product` | target-plugin/qr.py:39-42 | the product read off the tables is the field's |
| `ReedSolomon.GeneratorRoots` | target-plugin/qr.py:45-53 | the generator polynomial is zero exactly at the first nsym powers |
| `ReedSolomon.RsGenerator` | target-plugin/qr.py:45-53 | the nested loops build that polynomial |
| `ReedSolomon.RsEncode` | target-plugin/qr.py:56-66 | the shift register's content, for every message and nsym |
| `ReedSolomon.TurnKeepsRoot` | target-plugin/qr.py:58-65 | one turn of the register keeps message plus register a multiple of the generator |
| `ReedSolomon.CodewordRoots` | target-plugin/qr.py:56-66 | message and check bytes together are zero at each of the first nsym powers |
| `ReedSolomon.Vandermonde` | target-plugin/qr.py:45-66 | as many zero power sums as terms with different locators force all coefficients to zero |
| `ReedSolomon.LowWeight` | target-plugin/qr.py:45-66 | a word with the roots and at most nsym non-zero bytes is zero |
| `ReedSolomon.MinimumDistance` | target-plugin/qr.py:24-66 | codewords of different messages differ in more than nsym places |
| `ReedSolomon.UniqueDecoding` | target-plugin/qr.py:24-66 | nsym/2 errors leave the message determined |
| `ReedSolomon.CheckBytesUnique` | target-plugin/qr.py:56-66 | the encoder's check bytes are the only ones that give the message its roots |
| `QrPayload.ValueOfBits` | target-plugin/qr.py:86-88 | the bits pushed for a number spell it |
| `QrPayload.BytesRoundTrip` | target-plugin/qr.py:94-97 | bytes written as bits and packed again are the same bytes |
| `QrPayload.BitOrder` | target-plugin/qr.py:317-320 | each byte gives its eight bits, highest first |
| `QrPayload.SegmentRoundTrip` | target-plugin/qr.py:83-103 | a parser of mode, count and bytes recovers the text from the data codewords |
| `QrPayload.DataCodewordsAre` | target-plugin/qr.py:83-103 | each data codeword in closed form: mode nibble 4, count, bytes and nibble 0 shifted by half a byte, then 0xEC and 0x11 in turn |
| `QrPayload.Bitstream` | target-plugin/qr.py:83-103 | the bit loops give those data codewords |
| `QrPayload.BlockLensTotal` | target-plugin/qr.py:107-113 | the blocks, also of unequal length, use every data codeword |
| `QrPayload.BlocksAscend` | target-plugin/qr.py:107-113 | the block lengths add up, differ by at most one and never fall, which fixes them |
| `QrPayload.JoinSplit` | target-plugin/qr.py:112-118 | cutting into blocks loses and reorders nothing |
| `QrPayload.DeinterleaveInterleaved` | target-plugin/qr.py:120-127 | de-interleaving undoes interleaving, also for blocks of unequal length |
| `QrPayload.InterleavedAt` | target-plugin/qr.py:120-124 | where interleaving puts byte i of block b, also for blocks of unequal length |
| `QrPayload.InterleavedLength` | target-plugin/qr.py:120-127 | interleaving keeps the number of codewords |
| `QrPayload.SequenceRoundTrip` | target-plugin/qr.py:106-127 | the final sequence has data_cw + blocks * ecc_n codewords and splits back into the data blocks and each block's own check bytes |
| `QrPayload.SequenceAt` | target-plugin/qr.py:106-127 | the final sequence in closed form for blocks of one length: round i holds codeword i of every block in order, and check bytes likewise after all data |
| `QrPayload.Interleave` | target-plugin/qr.py:106-127 | the loops compute that sequence |
| `QrPayload.CutBlocks` | target-plugin/qr.py:107-119 | the first loop cuts the blocks and computes each one's check bytes |
| `QrGrid.ZigzagVisitsOnce` | target-plugin/qr.py:261-278 | for odd sizes the zigzag visits every cell but those of column 6, each once |
| `QrGrid.ZigzagAt` | target-plugin/qr.py:261-278 | the zigzag in closed form: the cell at each step, for every odd size over 6, and their number |
| `QrGrid.FillRead` | target-plugin/qr.py:266-278 | reading the free cells in zigzag order gives the placed bits and then zeros |
| `QrGrid.FillAt` | target-plugin/qr.py:266-278 | a free cell gets the bit whose number is the number of free cells before it, and 0 after the last bit |
| `QrGrid.FillKeeps` | target-plugin/qr.py:270-276 | placing changes no cell that was set |
| `QrGrid.PlaceData` | target-plugin/qr.py:261-278 | the loops over the grid place the bits so |
| `QrMatrix.FormatSpellsMask` | target-plugin/qr.py:214-221 | three bits of the format word spell the mask |
| `QrMatrix.FormatWords` | target-plugin/qr.py:214-221 | the eight format words, 0x5412 for mask 0 |
| `QrMatrix.FormatDistance` | target-plugin/qr.py:214-221 | the format words of different masks differ in at least 7 bits |
| `QrMatrix.FormatCellsAre` | target-plugin/qr.py:224-233 | the fifteen cells of both copies of the format word, in order |
| `QrMatrix.BaseCellsAreFunction` | target-plugin/qr.py:153-167 | every cell set before the data is a function cell, and column 6 is full |
| `QrMatrix.FunctionCellsAre` | target-plugin/qr.py:130-167 | the function cells of each version as rectangles and lines |
| `QrMatrix.BaseCellsAre` | target-plugin/qr.py:170-240 | the cells set before the data as rectangles and lines, without separators |
| `QrMatrix.MaskPatterns` | target-plugin/qr.py:243-258 | the eight mask patterns in other terms: parities, residues, blocks of two by three, and the product modulo 6 and 3 |
| `QrMatrix.DataCellsAre` | target-plugin/qr.py:270-276 | the data cells are exactly the cells left free, each once |
| `QrMatrix.SymbolKeepsBase` | target-plugin/qr.py:337-350 | finder, timing, alignment and format cells of the final matrix are as they were drawn |
| `QrMatrix.SymbolRoundTrip` | target-plugin/qr.py:337-350 | undoing the mask and reading the data cells gives the bits followed by zeros |
| `QrMatrix.SymbolDataAt` | target-plugin/qr.py:261-349 | every cell of the finished matrix that was free holds its bit of the stream, flipped exactly by the mask outside the function cells |
| `QrMatrix.SymbolFinders` | target-plugin/qr.py:170-184 | the finished matrix has the three finders, dark but for a light square within |
| `QrMatrix.SymbolAlignment` | target-plugin/qr.py:196-211 | from version 2 on it has the alignment pattern around (n-7, n-7) |
| `QrMatrix.SymbolTiming` | target-plugin/qr.py:187-193 | between the finders its row and column 6 are dark and light in turn |
| `QrMatrix.SymbolFormat` | target-plugin/qr.py:224-240 | both copies of the format word and the dark cell stand in it |
| `QrMatrix.SymbolSpellsMask` | target-plugin/qr.py:224-240 | a reader of the format cells learns the mask |
| `QrMatrix.Capacity` | target-plugin/qr.py:153-167 | the number of data cells that versions 1 to 5 leave at least |
| `QrPlacement.RowsAreRings` | target-plugin/qr.py:170-211 | the literal finder and alignment rows are concentric rings |
| `QrPlacement.WritePattern` | target-plugin/qr.py:180-184 | the nested loops write a pattern over the grid and nothing else |
| `QrPlacement.PlaceFinders` | target-plugin/qr.py:170-184 | the grid with the three finders |
| `QrPlacement.PlaceAlignment` | target-plugin/qr.py:196-211 | the grid with the alignment pattern of versions 2 to 5 |
| `QrPlacement.PlaceTiming` | target-plugin/qr.py:187-193 | the timing cells fill only what was unset |
| `QrPlacement.FormatBits` | target-plugin/qr.py:214-221 | the division loop gives the format word |
| `QrPlacement.PlaceFormat` | target-plugin/qr.py:224-240 | the grid with both copies of the format word |
| `QrPlacement.ApplyMask` | target-plugin/qr.py:344-349 | the mask flips exactly the non-function cells of its pattern, and an unset cell becomes light |
| `QrPenalty.RunCost` | target-plugin/qr.py:284-305 | a maximal run of five or more costs 3 and one for each further cell, a shorter one nothing |
| `QrPenalty.LineIsSumOfRuns` | target-plugin/qr.py:284-305 | the cost of a line is the sum over its maximal runs |
| `QrPenalty.RowRuns` | target-plugin/qr.py:284-294 | the run counter computes a row's cost |
| `QrPenalty.ColumnRuns` | target-plugin/qr.py:295-305 | the run counter computes a column's cost |
| `QrPenalty.CountBlocks` | target-plugin/qr.py:306-310 | the number of one-coloured 2x2 blocks |
| `QrPenalty.CountDark` | target-plugin/qr.py:311-311 | the number of dark cells |
| `QrPenalty.BalanceIs` | target-plugin/qr.py:311-313 | ten for every full five percent between one half and the dark share in whole percents |
| `QrPenalty.CostIs` | target-plugin/qr.py:281-314 | the cost written out: maximal runs of all rows and columns, three for each one-coloured block of two by two, and the balance |
| `QrPenalty.Penalty` | target-plugin/qr.py:281-314 | the score is the declarative cost of the grid, for every size |
| `QrEncoder.ChooseVersion` | target-plugin/qr.py:73-80 | the smallest version that holds the text; none exactly when none of the five does |
| `QrEncoder.VersionsAre` | target-plugin/qr.py:5-12 | the versions hold 14, 26, 42, 62 and 84 bytes, in 26, 44, 70, 100 and 134 codewords, in blocks of one length |
| `QrEncoder.BitsFromCodewords` | target-plugin/qr.py:317-322 | the bits of the codewords and the remainder zeros |
| `QrEncoder.SymbolFits` | target-plugin/qr.py:261-278 | the data bits of every version fit its data cells |
| `QrEncoder.DecodeSymbol` | target-plugin/qr.py:325-355 | a reader recovers the text from the finished symbol, whatever the mask |
| `QrEncoder.SymbolsDiffer` | tests/test_qr.py:50-53 | different texts give different matrices |
| `QrEncoder.BuildSymbol` | target-plugin/qr.py:337-350 | the placement steps build the symbol of a mask |
| `QrEncoder.BestIsFirst` | target-plugin/qr.py:334-354 | the mask chosen is the first by penalty and then by number |
| `QrEncoder.EncodeMatrix` | target-plugin/qr.py:325-355 | no matrix exactly when the text is too long; otherwise the lowest-numbered mask of least penalty, and the reader gets the text back |
| `QrDamage.InterleavedDistance` | target-plugin/qr.py:119-127 | interleaving brings no two different blocks closer together |
| `QrDamage.SequenceDistance` | target-plugin/qr.py:106-127 | final sequences of different data differ in more than ecc_n codewords |
| `QrDamage.MatrixDistance` | target-plugin/qr.py:325-355 | under one mask the matrices of different texts differ in more than ecc_n modules |
| `QrDamage.DamagedMatrixDetermines` | target-plugin/qr.py:325-355 | a matrix of known mask with at most ecc_n / 2 modules damaged is the matrix of one text only |
| `QrDamage.DamagedBlocksDetermine` | target-plugin/qr.py:106-127 | ecc_n / 2 damaged codewords in every block leave the text determined |
| `TeamHub.First` | enhanced-features-plugin/ctf_features.py:505-506 | the smallest id of a query, none exactly when it is empty |
| `TeamHub.CaptainIsMember` | enhanced-features-plugin/ctf_features.py:502-506 | a team has a captain exactly when it has members, and the captain is one of them |
| `TeamHub.CaptainIs` | enhanced-features-plugin/ctf_features.py:502-506 | a user is captain exactly when recorded so or, with none recorded, when no member has a smaller id |
| `TeamHub.LeaveMembers` | enhanced-features-plugin/ctf_features.py:593-621 | leaving takes exactly the actor; the captaincy goes to the smallest other id, or the team closes with its pending requests rejected |
| `TeamHub.LeaveRefused` | enhanced-features-plugin/ctf_features.py:593-600 | leaving is refused exactly to those in no team or in one that is gone, and then changes nothing |
| `TeamHub.LeaveKeeps` | enhanced-features-plugin/ctf_features.py:593-621 | leaving keeps the invariant |
| `TeamHub.DeleteKeeps` | enhanced-features-plugin/ctf_features.py:1433-1459 | deleting a user keeps the invariant |
| `TeamHub.RunKeeps` | enhanced-features-plugin/ctf_features.py:502-694 | the invariant holds after every run |
| `TeamHub.TeamsAreLed` | enhanced-features-plugin/ctf_features.py:502-694 | in every run a team not hidden has members and a captain among them, and an empty team has no pending request |
| `TeamHub.DecidedForever` | enhanced-features-plugin/ctf_features.py:656-694 | a decided request never changes again |
| `TeamHub.NoSecondTeam` | enhanced-features-plugin/ctf_features.py:670-681 | a member stays in the team until they leave or an administrator deletes them; no step moves them to another |
| `TeamHub.JoinsByConsent` | enhanced-features-plugin/ctf_features.py:563-694 | one enters a team only by founding it or by one's own pending request, decided by an administrator, the recorded captain or, with none recorded, the member with the smallest id |
| `TeamHub.ApprovalExact` | enhanced-features-plugin/ctf_features.py:656-694 | the exact conditions of an approval, and that it adds the applicant and no one else |
| `TeamHub.DecisionExact` | enhanced-features-plugin/ctf_features.py:656-694 | the exact conditions of either decision, and that it is refused with 403 exactly to whoever is neither administrator nor captain |
| `TeamHub.DecisionWrites` | enhanced-features-plugin/ctf_features.py:670-692 | what each decision changes and, of the refusals, the one that rejects an applicant in a team by now |
| `TeamHub.FoundingExact` | enhanced-features-plugin/ctf_features.py:563-590 | the exact conditions of founding a team, which is then visible with its founder as captain and only member |
| `TeamHub.RequestExact` | enhanced-features-plugin/ctf_features.py:624-653 | the exact conditions of a request to join, and that it is stored as pending |
| `TeamHub.DeletionExact` | enhanced-features-plugin/ctf_features.py:1433-1459 | the exact conditions of deleting a user, and what becomes of the team |
| `TeamHub.MembersGrow` | enhanced-features-plugin/ctf_features.py:677-681 | a step adds to a team at most its founder, or one applicant while there is room |
| `TeamHub.SizeIsKept` | enhanced-features-plugin/ctf_features.py:677-681 | with a fixed team_size no run brings a team above it |
| `TeamHub.AddUserNames` | enhanced-features-plugin/ctf_features.py:1292-1303 | an account made with a team keeps team names distinct exactly when the name has 3 to 128 characters and is no team's yet |
| `TeamHub.StepNames` | enhanced-features-plugin/ctf_features.py:569-574 | any step keeps team names distinct exactly when it is not an account made with a team under a name that does not fit |
| `TeamHub.LowerEqual` | enhanced-features-plugin/ctf_features.py:572-573 | names that are equal in lower case differ in nothing but the case of letters |
| `TeamHub.NamesStayDistinct` | enhanced-features-plugin/ctf_features.py:569-574 | team names are distinct throughout a run exactly when every account made with a team had a name that fits |
| `TeamHub.NamesCollide` | enhanced-features-plugin/ctf_features.py:1292-1303 | a run from empty tables that ends with two teams of one name |
| `TeamHub.TeamStore.FirstMember` | enhanced-features-plugin/ctf_features.py:601-604 | the other member with the smallest id |
| `TeamHub.TeamStore.CaptainId` | enhanced-features-plugin/ctf_features.py:502-506 | the recorded captain, or else the member with the smallest id |
| `TeamHub.TeamStore.CreateOptionalTeam` | enhanced-features-plugin/ctf_features.py:563-590 | the tables and the answer after founding a team, with each refusal |
| `TeamHub.TeamStore.RejectAllPending` | enhanced-features-plugin/ctf_features.py:613-617 | the loop rejects every pending request of the team and no other |
| `TeamHub.TeamStore.LeaveOptionalTeam` | enhanced-features-plugin/ctf_features.py:593-621 | the tables and the answer after leaving |
| `TeamHub.TeamStore.RequestTeamJoin` | enhanced-features-plugin/ctf_features.py:624-653 | the tables and the answer after a request, with each refusal |
| `TeamHub.TeamStore.DecideTeamJoin` | enhanced-features-plugin/ctf_features.py:656-694 | the tables and the answer after a decision, with each refusal |
| `TeamHub.TeamStore.AdminDeleteUser` | enhanced-features-plugin/ctf_features.py:1433-1459 | the tables and the answer after a deletion |
| `RateLimiter.PruneIsSuffix` | enhanced-features-plugin/ctf_features.py:261-261 | pruning keeps exactly the attempts of the window, the last ones |
| `RateLimiter.SamePruned` | enhanced-features-plugin/ctf_features.py:260-261 | the pruned list decides as the full history would |
| `RateLimiter.RunKeeps` | enhanced-features-plugin/ctf_features.py:257-266 | any six accepted attempts span at least the window |
| `RateLimiter.WindowSafety` | enhanced-features-plugin/ctf_features.py:257-266 | no 60 seconds hold more than five accepted attempts |
| `RateLimiter.AcceptsWhenSpaced` | enhanced-features-plugin/ctf_features.py:262-266 | a call is refused exactly when the fifth accepted attempt from the end is still in the window |
| `RateLimiter.RetryAfterWait` | enhanced-features-plugin/ctf_features.py:263-264 | retrying after the reported wait is accepted exactly when the time left was a whole number of seconds |
| `RateLimiter.WaitIsTooShort` | enhanced-features-plugin/ctf_features.py:263-264 | five attempts and a refused sixth half a second later, which is refused again after the reported 59 seconds |
| `RateLimiter.RetryOnWholeClock` | enhanced-features-plugin/ctf_features.py:263-264 | on a clock of whole seconds the reported wait is always enough |
| `RateLimiter.Limiter.Check` | enhanced-features-plugin/ctf_features.py:257-266 | the answer, the wait and the list after a call, in terms of the history |
| `WhaleContainers.InitPool` | whale-plugin/redis_utils.py:13-29 | the pool holds exactly the range without the non-zero ports of rows |
| `WhaleContainers.RemovedExactly` | whale-plugin/control_utils.py:17-29 | a removal takes all rows of the user and no other, and succeeds exactly when there is one |
| `WhaleContainers.RemoveConserves` | whale-plugin/control_utils.py:17-29 | removing a container hands back exactly its port |
| `WhaleContainers.AddedExactly` | whale-plugin/__init__.py:291-311 | a container starts exactly when the challenge is there, fewer than the limit run and a port is free, and then with a fresh row |
| `WhaleContainers.AddConserves` | whale-plugin/__init__.py:292-322 | adding keeps ports conserved, also when the start of the container raises |
| `WhaleContainers.RunConserves` | whale-plugin/control_utils.py:12-29 | with port 0 outside the range every run keeps pool and rows disjoint, together the range, and one row a port and user |
| `WhaleContainers.PortZeroLeaks` | whale-plugin/control_utils.py:25-27 | a run on a range with port 0 that loses the port |
| `WhaleContainers.PortsConservedExactly` | whale-plugin/control_utils.py:12-29 | all runs conserve the ports exactly when the range leaves out port 0 or no container may start |
| `WhaleContainers.RunOneRowEach` | whale-plugin/__init__.py:292-322 | whatever the range, no user ever has two rows |
| `WhaleContainers.StartsMoveForwardExactly` | whale-plugin/db_utils.py:85-89 | in every run and step no container's start moves back, exactly when the timeout is not negative |
| `WhaleContainers.OnlyUsersRow` | whale-plugin/db_utils.py:74-92 | the row renewed is the one whose count was checked, and only if the challenge is the same |
| `WhaleContainers.RenewedExactly` | whale-plugin/__init__.py:388-399 | the answers of a renewal: no container, no renewals left, or success, which alone changes a row, and that only for the same challenge |
| `WhaleContainers.RenewalRenews` | whale-plugin/db_utils.py:85-91 | a container renewed before its time is up expires exactly a timeout from now, one past it two timeouts after its old start; its count rises by one and no other row changes |
| `WhaleContainers.RenewalExtends` | whale-plugin/__init__.py:388-399 | the same for a step of any run |
| `WhaleContainers.RunBounded` | whale-plugin/db_utils.py:74-92 | in every run each start lies between creation and k timeouts later, and not in the future |
| `WhaleContainers.RenewalsEnd` | whale-plugin/__init__.py:388-399 | a container expires by its creation plus max_renew + 1 timeouts |
| `WhaleContainers.LimitHoldsExactly` | whale-plugin/__init__.py:297-301 | a step takes the number of running containers over the limit exactly when it renews an expired one with the limit already reached |
| `WhaleContainers.LimitIsExceeded` | whale-plugin/__init__.py:297-301 | a run that ends with two running containers where one is allowed |
| `WhaleContainers.GrantedAreSpaced` | whale-plugin/control_utils.py:54-63 | the requests a session is granted are at least a minute apart |
| `WhaleContainers.GrantedWhenSpaced` | whale-plugin/control_utils.py:54-63 | a request is granted exactly when it is the first or a minute after the last one granted |
| `WhaleContainers.Session.FrequencyLimit` | whale-plugin/control_utils.py:54-63 | a request less than a minute after the last granted one is refused and not recorded; any other is recorded |
| `WhaleContainers.Plugin.InitRedisPortSets` | whale-plugin/redis_utils.py:13-29 | the loops fill the pool so |
| `WhaleContainers.Plugin.GetAvailablePort` | whale-plugin/redis_utils.py:36-40 | takes some port out of the pool, and raises exactly when it is empty |
| `WhaleContainers.Plugin.RemoveContainer` | whale-plugin/control_utils.py:17-29 | the pool, the rows and the answer after a removal |
| `WhaleContainers.Plugin.StartContainer` | whale-plugin/__init__.py:292-311 | the pool, the rows and the outcome once the request is granted, also when the start raises |
| `WhaleContainers.Plugin.AddContainer` | whale-plugin/__init__.py:279-322 | the answer and the tables after a request for a container, with the lock and the one-minute limit |
| `WhaleContainers.Plugin.RemoveOwnContainer` | whale-plugin/__init__.py:360-375 | the answer and the tables after a request to stop the container, with the lock and the one-minute limit |
| `WhaleContainers.Plugin.RenewContainer` | whale-plugin/__init__.py:377-399 | the answer and the rows after a renewal, with the lock, the one-minute limit and the challenge check |
| `WhaleContainers.Plugin.RenewCurrentContainer` | whale-plugin/db_utils.py:74-92 | the first matching row moved a timeout on, clamped to the present, and counted |
| `WhaleFlags.SortInOrder` | whale-plugin/__init__.py:153-169 | flags come out by order, and by id where orders tie |
| `WhaleFlags.SortedByPlace` | whale-plugin/__init__.py:153-169 | flags with a place come by place and then id, and each without as if its place were its id and 100000 more |
| `WhaleFlags.SortPermutes` | whale-plugin/__init__.py:169-169 | sorting loses no flag and adds none |
| `WhaleFlags.FirstHit` | whale-plugin/__init__.py:185-191 | the first flag that matches, none exactly when none does |
| `WhaleFlags.Matched` | whale-plugin/__init__.py:171-191 | with an index only the flag there can match, and otherwise the first that does |
| `WhaleFlags.SubmitAdvances` | whale-plugin/__init__.py:178-218 | with k flags solved a submission counts exactly for one of the first k + 1, and adds a row exactly for the next |
| `WhaleFlags.ProgressIsPrefix` | whale-plugin/__init__.py:151-220 | after any submissions in either mode the rows are a prefix of the sorted flags, each once |
| `WhaleFlags.ProgressGrows` | whale-plugin/__init__.py:206-218 | no submission loses progress |
| `WhaleFlags.Progress.SubmitFlag` | whale-plugin/__init__.py:139-220 | the loops give that answer and those rows |

## Left out

- HTTP, authentication, signatures, JSON, SQL, Docker and Redis clients: tables are sequences and maps, and an outside call is a parameter that says whether it succeeded.
- Floating point: cpu, scores and times are reals; rounding to four digits is that of exact decimals.
- Scheduler.SelectWorker: does not give the placement's one-line platform reason, nor the wording of the error; the rejected workers and their reasons are data.
- Worker labels and the event log: no property depends on them.
- Request parsing: the defaults of missing request fields, the derived name of a shared network and the random key of a request without one are inputs of a create.
- The order of the two tables when the database returns them: rows come in the order of their insertion.
- The stop inside a create: in the protocol it is a stop like any other, which may be written before the create goes on, later, or never; this allows more runs than the code has.
- Deleting the container after a failed deployment: it touches no table.
- `architecture`, `nodes`, status and restart routes: they only read, or only log.
- AllocatorCapacity.CapacityIsKept: needs requests that are not negative and heartbeats that do not shrink capacity, neither of which the manager checks; PlacementFits is what holds without them, and CapacityNeedsNonNegative and CapacityNeedsRoomierHeartbeats that nothing less will do.
- QR conformance: the separators stay unset and are filled with data, format cells and penalty differ from ISO/IEC 18004:2015 as they do in the encoder; what is proved is about the code's own cells.
- Encoding a text to UTF-8 and drawing the SVG: the encoder starts from bytes.
- The padding loop to a byte boundary in the bit stream: mode, count, bytes and terminator always end on one, so its body never runs.
- Names: trimming knows blank, tab and line ends, and lower case is that of ASCII letters.
- TeamHub.AddUser, TeamHub.Moderate: creating users, hiding teams and changing roles are events on values only, without the routes' other effects.
- TeamHub.DeleteUser: whether other rows still refer to the user or team, so that the database refuses, is a parameter.
- Notifications, chat, the directory page and the approval record of a user.
- The limiter's Redis branch, which counts in fixed windows; and the lock around the list: calls are taken one at a time.
- WhaleContainers: operations are atomic, so the race between the expiry job and a player's request, and a user lock that times out before its holder is done, are not modelled; whether the lock is had is a parameter; the port range and the limits are fixed for a run; renewals by an administrator, which have no limit, are left out.
- WhaleContainers.Plugin.RenewCurrentContainer: takes one reading of the clock where the code compares with one and assigns the next.
- WhaleContainers.Row: the time of creation is a field of the model for the sake of the renewal bound; the table keeps only the start time.
- WhaleFlags: the comparison of a flag with a text is a parameter, and a flag's data is taken as already parsed; the flag list is fixed.
- Kali machines, whale administration, worker discovery, backups, catalogues, dashboards and the deliberately vulnerable challenges.
