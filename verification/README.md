# ACQ400 capture pipeline in Dafny

ACQ400DRV is the Linux driver for D-TACQ's data-acquisition cards, with the user program `acq400_stream` that
post-processes a capture. This project models the path the samples take and proves what it promises:

1. **Host buffers.** DMA fills a ring of host buffers that move between the lists EMPTIES, INFLIGHT, REFILLS and
   OPENS. `HostBuffers` gives the list operations as functions, `Device` performs them on the driver's own lists,
   and `RingOrder` proves that, over every interleaving, the buffers only turn round.
2. **Producers.** `AiLoop` is the ping-pong loop with two DMA channels; `AxiLoop` is the loop that recognises a
   full buffer by its two sentinel words, written and restored as in `Poison`. `Delivery` puts loops and reader
   together.
3. **The capture.** `CaptureFsm` is the pre/post state machine that decides when a capture ends. `Linearise`,
   `Distribution`, `Demux` and `PostProcess` are the unwrapping of a window that crosses the corner of the ring,
   the in-place demultiplexer and the block copy. `ChannelFiles` are the two readers, and `EndToEnd` composes
   the lot: both ways of storing a capture read back as the same channel of it.
4. **Beside it.** `BufferQueue` (queues of buffer numbers), `LiveDemux` (demultiplexing as buffers arrive), `Awg`
   (feeding an output FIFO), `RegCache` (register cache), `Coalesce` (joining buffers), `Oversample` (averaging).

## Conventions

- Memory is one flat array of data words; addresses count words from the low end of the mapping. `Poison` and
  `Awg` are in bytes. Data words are moved and never interpreted, except that `Oversample` adds them.
- A step of a list is one critical section; the emptiness tests that `getFull` and `getEmptyFromRefills` make just
  outside the lock are part of the step. The producer loops are state machines over such steps; a class beside
  each performs the steps on an `AcqDevice` and is proved equal to the state machine.
- What the source leaves to the world is a parameter: when DMA writes and what, what `select` finds, how many
  samples leave a FIFO, how a client cuts up its reads.
- A failed `assert` in the source is an outcome (`ok` false, or `None`), and the contract says exactly when.
- 32-bit wrap-around is written out where it matters (`CaptureFsm.Add32`, `Oversample.Int32`); masks are proved
  equal to remainders (`Bits`).

## Where the code and the wish part

Each of these is a lemma or a contract that gives the exact condition, on what is known before the call.

- Sorting the ring fails exactly when the last labelled buffer is not below the first (`BufferDistribution.GetSegments`).
- The end of a window that wraps is computed without counting the event signature, so `Overrun` words at its end can
  come from another buffer. A capture is stored right, whatever memory held, exactly when `Overrun` is 0 or nothing is
  kept from the event on (`StoredRightIff`). `Overrun` is 0 when the signature fits the last labelled buffer, or when
  the buffer left above the sorted ones is the next of the ring: that buffer is the end of the chain of labels
  (`AboveIsChainEnd`), reserved buffer 1 after a full ring, and unmoved below the first labelled buffer
  (`OverrunCases`). `FullRingLosesWord` and `ShortWindowKeepsWord` are a capture of each kind. A client reads its channel
  of the ring, whatever the ring held, exactly as far as `GoodLen` goes (`ReadRightIff`), and all of it exactly when
  nothing overran or only signature words that are shown (`SamplesRightIff`).
- Every step keeps the buffers in ring order exactly as `KeepsRing` says (`StepKeepsRingIff`): a drain when one of three
  parts is empty, a steal when nothing is between the buffer and its new place, one way round or the other. The emergency
  path of the ping-pong loop, with the reader running inside it, keeps it exactly when no other buffer is empty or open
  at the steal, and none is open, or none full, at the drain (`EmergencyKeepsRingIff`). The reader itself keeps its place
  across a drain or a steal exactly when the step is orderly (`OrderKeptIff`, `ExhaustedOrderIff`).
- Two missing sentinels prove that DMA wrote both words, in all runs from a start, exactly when the loop quits on
  exhaustion or has at most one buffer (`RunSoundIff`); at one exhaustion, up to the next, exactly when it quits or
  `NothingLost` holds of the lists (`ExhaustionSoundIff`).
- Poisoning is transparent exactly when neither word was its own sentinel, or the stash held it
  (`PoisonTransparentIff`), and a reading of a poisoned buffer is right exactly then, or if it stops short of the end
  (`PoisonedSessionIff`).
- A capture ends when it should, on all inputs, exactly when its pre target rounded up to whole buffers, and its post
  target with one buffer more, fit 32 bits (`CountsRightIff`); with the greatest post target it never ends
  (`GreatestTargetNeverEnds`).
- Every pass of the AWG feeder moves on and writes just the samples it moves past, whatever the waveform, exactly when
  the sizes are `Regular` (`EveryPassInStepIff`). With 12-byte samples and the standard sizes they are not, and 4 bytes
  are sent twice (`StandardBlockRepeats`).
- A cached control register reads as the device exactly when it has been written, or was right to begin with
  (`CoherentIff`).
- Averaging keeps a steady level exactly when nothing is shifted away before summing and the factor is a power of two
  (`SteadyIff`), so never for 32-bit data, which come out as the level's upper bits exactly when the factor is
  (`SteadyShiftedIff`). No sum wraps, for all data, exactly for factors up to 65536 and 256 (`SafeFactorsIff`). A single
  averaged sample takes more terms than the factor unless the factor divides the samples (`TakenAtMostIff`), and is right
  for all data exactly when there is room for the terms taken (`SingleRightIff`).

## Model

| member | source | states |
|---|---|---|
| `MapBuffers.Memcpy` | acq400_stream.cpp:3962-3971 | an ascending copy leaves exactly the source words at the destination and the rest alone, also when the ranges overlap and the data moves down |
| `Linearise.LabelBuffers` | acq400_stream.cpp:4028-4073 | each buffer's final label; a lower label replaces an upper one, and a finish beyond the mapping is the failure |
| `Linearise.FindSeq` | acq400_stream.cpp:4001-4011 | the first buffer with a label, or -1 when there is none |
| `Linearise.FindEs` | acq400_stream.cpp:4012-4022 | the first buffer labelled with the event, or -1 when there is none |
| `Linearise.LabelUnique` | acq400_stream.cpp:4045-4073 | with disjoint ranges each label is on exactly one buffer, the one that holds that part of the window |
| `Linearise.LabelStates` | acq400_stream.cpp:4048-4073 | only the event's buffer is marked so; marks go pre, event, post along the window with the event above the corner, and exactly which are marked otherwise with it below |
| `Linearise.LabelLost` | acq400_stream.cpp:4064-4073 | with overlapping ranges label 1 is on no buffer, which is why the search fails |
| `Linearise.CopySeq` | acq400_stream.cpp:3962-3971 | contents and label move together, the event pointer by as much as the data |
| `Linearise.Swap` | acq400_stream.cpp:3987-3992 | through the scratch buffer, two buffers are exchanged and no other above the scratch changes |
| `Linearise.SearchFails` | acq400_stream.cpp:4082-4085 | the search fails exactly on overlapping ranges, and then for the first label |
| `Linearise.FoundSource` | acq400_stream.cpp:4082-4090 | the search finds the buffer holding the wanted part, at or above its place, never the scratch; the move branch is unreachable |
| `Linearise.SwapLoop` | acq400_stream.cpp:4081-4092 | parts 1..k are in buffers 1..k in ring order, the buffers above the scratch are permuted, and the one left above the window is known; on failure memory is untouched |
| `Linearise.AboveIsChainEnd` | acq400_stream.cpp:4081-4092 | the buffer left above the sorted window is the unlabelled one that the chain of labels leads to from there |
| `Linearise.AboveCases` | acq400_stream.cpp:4081-4092 | reserved buffer 1 on a full ring; unmoved if below the first labelled buffer |
| `Linearise.FoundEs` | acq400_stream.cpp:4093-4099 | after the sort exactly one buffer carries the event, at its place in the window, with its pointer moved along |
| `Linearise.SortBuffers` | acq400_stream.cpp:4028-4100 | succeeds exactly when the ranges are disjoint and the event is labelled; then memory is a permutation with the window in order |
| `Distribution.SortedUnwraps` | acq400_stream.cpp:4081-4100 | every word of the sorted buffers is the word the ring held at the same distance from the event |
| `Distribution.OriginIs` | acq400_stream.cpp:3888-3940 | each word of a sorted window is taken round the ring, or beyond its last buffer from the one left above |
| `Distribution.OverrunCases` | acq400_stream.cpp:3939-3940 | what the overrun is on a full ring, and on one short enough for the buffer above not to have been moved |
| `Distribution.Capture.CornerWindow` | acq400_stream.cpp:4102-4120 | start and finish of a wrapped window are the event less pre and plus post, taken round the ring |
| `Distribution.SortedEnds` | acq400_stream.cpp:4102-4120 | the sorted window begins in buffer 1 at its old offset and ends in the last labelled buffer at its old offset |
| `Distribution.BufferDistribution.SortToLinearBuffer` | acq400_stream.cpp:4028-4101 | exactly when it succeeds, and that each word of the window is then the one its origin held, round the ring but for an overrun |
| `Distribution.BufferDistribution.GetSegments` | acq400_stream.cpp:4122-4142 | success exactly when sortable, segments laid out about the new event pointer, each word from its origin |
| `Distribution.SortableIff` | acq400_stream.cpp:3808-3820 | exactly which windows are processed, in words about the event: those that fit, and those past one end only whose last buffer comes round below their first |
| `Demux.TransposedTwice` | acq400_stream.cpp:3028-3034 | transposing a table and transposing back is the identity |
| `Demux.SlotThenLogical` | acq400_stream.cpp:2992-3040 | the slot of a capture word determines the word and lies in the same buffer |
| `Demux.LogicalThenSlot` | acq400_stream.cpp:2992-3040 | the inverse: every address of the image is the slot of exactly one word |
| `Demux.SourceIntact` | acq400_stream.cpp:2992-3040 | what lies a whole buffer above the words done has not been overwritten |
| `Demux.DemuxedCompose` | acq400_stream.cpp:3351-3381 | two transpositions in place, one after the other, are one transposition of the snapshot |
| `Demux.Demuxer.DemuxSample` | acq400_stream.cpp:3028-3034 | one sample's words go to their slots, memory as the snapshot transposed |
| `Demux.Demuxer.DemuxBlock` | acq400_stream.cpp:2992-3040 | the words that fit a buffer, transposed in place, equal the snapshot transposed |
| `Demux.Demuxer.Demux` | acq400_stream.cpp:3351-3381 | all bytes are consumed, or none if they are not whole samples, and memory is the snapshot transposed |
| `PostProcess.Blt.Transfer` | acq400_stream.cpp:4144-4158 | the block goes to the cursor, which moves by as much |
| `PostProcess.DemuxSegments` | acq400_stream.cpp:4650-4675 | demultiplexing the segments in turn puts every word of their concatenation in its slot |
| `PostProcess.BltSegments` | acq400_stream.cpp:4282-4303 | copying the segments in turn leaves their concatenation at the bottom of memory |
| `PostProcess.ReadyIsStored` | acq400_stream.cpp:3888-3940 | what the segments denote after unwrapping is each word from its origin |
| `PostProcess.StoredIsCaptured` | acq400_stream.cpp:3888-3940 | what is stored is the capture read round the ring, up to the overrun |
| `PostProcess.CapturedIs` | acq400_stream.cpp:3935-3940 | the capture is what came before the event, the signature if it is shown, and what came after it |
| `PostProcess.StoredRightIff` | acq400_stream.cpp:3888-3940 | all of it is, for every memory, exactly when there is no overrun or nothing is kept from the event on |
| `PostProcess.FullRingLosesWord` | acq400_stream.cpp:3939-3940 | a capture that fills the ring and is stored wrong |
| `PostProcess.ShortWindowKeepsWord` | acq400_stream.cpp:3939-3940 | a shorter one, cut at the same offset, that is stored right whatever memory held |
| `PostProcess.PostProcessDemux` | acq400_stream.cpp:4650-4675 | succeeds exactly when sortable; the image holds every word of the stored capture in its slot, overrun included |
| `PostProcess.PostProcessRaw` | acq400_stream.cpp:4282-4303 | the same words, raw, at the bottom of memory |
| `ChannelFiles.RawOffset` | acq400_fs.c:159-182 | the words of the sites aggregated before the first occurrence of this one, or -1 when it is absent |
| `ChannelFiles.ColumnHasChannel` | acq400_fs.c:184-192 | every word of a sample is the column of a channel |
| `ChannelFiles.ColumnsDiffer` | acq400_fs.c:184-192 | of one channel only |
| `ChannelFiles.ChannelFile.ReadCooked` | acq400_fs.c:365-436 | one read returns the next stretch of the channel's column, within its buffer and the file, and moves the position by it |
| `ChannelFiles.ChannelFile.ReadMuxdata` | acq400_fs.c:463-543 | the strided reader returns the same stretch |
| `ChannelFiles.ChannelFile.CopyStrided` | acq400_fs.c:439-461 | words a sample apart are a stretch of the column |
| `ChannelFiles.CookedColumn` | acq400_fs.c:194-200 | a stretch of a row of the image is a stretch of the column |
| `ChannelFiles.SessionIsColumn` | acq400_fs.c:365-436 | however reads are cut, together they return the column in order, nothing twice and nothing missing |
| `ChannelFiles.ShortRead` | acq400_fs.c:365-436 | a read is cut short only by the end of its buffer or of the file |
| `ChannelFiles.SessionReachesEnd` | acq400_fs.c:365-436 | enough non-empty reads reach the end of the file |
| `ChannelFiles.StoredColumn` | acq400_fs.c:463-543 | the good samples of a stored channel are those of the capture read round the ring |
| `EndToEnd.ReadCookedSession` | acq400_fs.c:365-436 | a client's reads of a demultiplexed capture return the start of the column |
| `EndToEnd.ReadMuxSession` | acq400_fs.c:463-543 | and of a raw one |
| `EndToEnd.ColumnRightIff` | acq400_fs.c:365-543 | the first n samples of a channel are those of the ring, for every memory, exactly when they end before the overrun |
| `EndToEnd.ReadRightIff` | acq400_fs.c:365-543 | what a client reads, in any cuts, is its channel of the capture read round the ring, for every memory, exactly when its reads stop within the good samples |
| `EndToEnd.SamplesRightIff` | acq400_stream.cpp:3888-3940 | all the samples of a channel are those of the ring, for every memory, exactly when nothing overran, or only signature words that are shown |
| `EndToEnd.ProcessAndReadCooked` | acq400_stream.cpp:4650-4675 | from the ring to the client: the channel of the stored capture, as far as the reads go |
| `EndToEnd.ProcessAndReadRaw` | acq400_stream.cpp:4282-4303 | the same for a raw capture |
| `EndToEnd.CookedReadsAsRaw` | acq400_fs.c:365-543 | both ways read back the same words, for every capture, and exactly when these are those of the ring whatever it held |
| `HostBuffers.OneList` | acq400_lists.c:33-183 | buffers whose state names their list are in one list only |
| `HostBuffers.StepConsistent` | acq400_lists.c:33-296 | every list operation keeps states, lists and counters consistent |
| `HostBuffers.StepKeepsBuffers` | acq400_lists.c:33-296 | no operation creates or loses a buffer |
| `HostBuffers.RunConsistent` | acq400_lists.c:33-403 | in every reachable state each buffer is in exactly one list, its state names it, and INFLIGHT is as long as gets less puts |
| `HostBuffers.CountersCount` | acq400_lists.c:33-128 | over every run each counter is the number of steps of its kind that found, or did not find, a buffer |
| `HostBuffers.StopsIff` | acq400_lists.c:73-108 | a run limited in buffers is told to stop exactly when so many have been put |
| `HostBuffers.SortSorts` | acq400_lists.c:363-375 | sorting EMPTIES permutes it into index order |
| `HostBuffers.ReplaceAllConsistent` | acq400_lists.c:378-403 | giving reserved buffers back keeps everything consistent |
| `HostBuffers.StartConsistent` | acq400_drv.c:697-717 | however a run was left, the next starts with every unreserved buffer empty, in index order, all counters at zero and no stop |
| `Device.AcqDevice.GetEmpty` | acq400_lists.c:33-66 | the head of EMPTIES goes to the tail of INFLIGHT, or an error is counted |
| `Device.AcqDevice.PutFull` | acq400_lists.c:73-108 | the head of INFLIGHT goes to the tail of REFILLS; a run limited in buffers is told to stop |
| `Device.AcqDevice.GetEmptyFromRefills` | acq400_lists.c:110-128 | the head of REFILLS goes back in flight |
| `Device.AcqDevice.GetFull` | acq400_lists.c:130-152 | the head of REFILLS goes to OPENS and its number is the one told, or the reader waits or is interrupted |
| `Device.AcqDevice.WokenFull` | acq400_lists.c:153-169 | after a wait a stop or an error comes before a full buffer |
| `Device.AcqDevice.PutEmpty` | acq400_lists.c:174-183 | the head of OPENS goes to the tail of EMPTIES |
| `Device.AcqDevice.PutBacklog` | acq400_drv.c:829-836 | the reader gives back the oldest buffers until the backlog is within its limit |
| `Device.AcqDevice.MoveListToEmpty` | acq400_lists.c:235-245 | a whole list is appended to EMPTIES in order |
| `Device.AcqDevice.EmptyLists` | acq400_lists.c:409-417 | everything to EMPTIES, sorted |
| `Device.AcqDevice.Reserve` | acq400_lists.c:264-296 | the named buffer leaves EMPTIES, or nothing changes |
| `Device.AcqDevice.ReplaceAll` | acq400_lists.c:378-403 | reserved buffers go back and EMPTIES is sorted |
| `Device.AcqDevice.PerformAll` | acq400_lists.c:33-403 | any run of critical sections on the device is the run of the model, loses no buffer, and tells the reader the numbers of the buffers delivered, round the ring if orderly |
| `RingOrder.StepTurns` | acq400_lists.c:33-183 | a step leaves the cycle of buffers as it is, turned by one when the reader is given one |
| `RingOrder.ToldIsGiven` | acq400_lists.c:130-152 | the number a reader is told is that of the buffer that leaves REFILLS and becomes the newest open |
| `RingOrder.ReaderFollowsRing` | acq400_lists.c:33-183 | over every orderly run the k-th buffer given to the reader is the k-th of the ring, round and round |
| `RingOrder.OrderKeptIff` | acq400_lists.c:110-245 | after a drain, or a steal, the reader still goes round the ring in every orderly run, exactly on the condition of an orderly step |
| `RingOrder.RunRotates` | acq400_lists.c:33-245 | over every run of steps that keep the ring, drains and steals among them, the cycle stays a rotation of where it began |
| `RingOrder.DrawnIsRotation` | acq400_lists.c:33-183 | OPENS, REFILLS, INFLIGHT, EMPTIES is a rotation of the same cycle |
| `RingOrder.EventBracketed` | acq400_ui.c:1047-1064 | at any time after a start: the buffer before is unknown only with none full or open, the one after only with none in flight, and when both are known they are neighbours in index order round the ring |
| `RingOrder.DrainKeepsRingIff` | acq400_drv.c:1759-1763 | a drain keeps ring order exactly when nothing is drained, drained past, or open |
| `RingOrder.StepKeepsRingIff` | acq400_lists.c:33-403 | every step keeps ring order exactly on its condition |
| `RingOrder.EmergencyKeepsRingIff` | acq400_drv.c:2064-2094 | steal, any reader steps and drain keep ring order exactly when nothing else is empty or open at the steal, and nothing open or nothing full at the drain |
| `AiLoop.InvHolds` | acq400_drv.c:1996-2098 | in every run INFLIGHT is the buffers of the outstanding transfers, in order |
| `AiLoop.CompletedInOrder` | acq400_drv.c:2032-2098 | transfers complete in the order submitted: the buffer put full is the one last submitted on the completing channel, steals and drains included |
| `AiLoop.ChannelsAlternate` | acq400_drv.c:2032-2075 | submissions alternate between the two channels |
| `AiLoop.TransfersApart` | acq400_drv.c:1996-2098 | no transfer runs into a buffer the reader holds, nor two into one |
| `AiLoop.NeverFaults` | acq400_drv.c:1996-2010 | with two empty buffers at the start priming finds no null buffer |
| `AiLoop.QuitsIff` | acq400_drv.c:1996-2098 | not told to stop, the loop quits exactly on a steal from empty REFILLS, or a steal with quit on exhaustion, and faults exactly for want of a buffer to prime with |
| `AiLoop.KeepsCompleting` | acq400_drv.c:2032-2098 | until it ends, any four of its own steps complete a transfer |
| `AiLoop.StarvedQuitsIff` | acq400_drv.c:2064-2073 | once EMPTIES had none, the loop gives up exactly if readers ask for every full buffer before it takes one back, whatever they give back meanwhile |
| `AiLoop.AiDataLoop.PrimeOne` | acq400_drv.c:1996-2010 | each buffer and submission before the loop, as the state machine has it |
| `AiLoop.AiDataLoop.Body` | acq400_drv.c:2032-2098 | each list operation of the loop's body, as the state machine has it |
| `AiLoop.AiDataLoop.Drive` | acq400_drv.c:1996-2098 | any events on the device give the state machine's run, its invariant and completions in the order of submission |
| `Poison.PoisonIdempotent` | acq400_axi_chain.c:102-127 | poisoning again changes nothing |
| `Poison.PoisonTransparentIff` | acq400_axi_chain.c:102-157 | poisoning any number of times and clearing restores the data exactly when no word was its own sentinel, or the stash held it |
| `Poison.PoisonHiddenIff` | acq400_ui.c:326-345 | a poisoned buffer shows the data on the same condition |
| `Poison.ClearedAfterDma` | acq400_axi_chain.c:102-157 | poisoned, written to by DMA and cleared: DMA's words are kept exactly if it wrote both, neither as its sentinel, or else both go back to what was displaced |
| `Poison.ShownAfterDma` | acq400_ui.c:326-345 | a reader is shown each word DMA wrote and for the others what was displaced |
| `Poison.ClearedIsShownIff` | acq400_axi_chain.c:149-158 | exactly when clearing leaves what a reader was shown |
| `Poison.PoisonPlace` | acq400_axi_chain.c:87-99 | the sentinels are the last two words ending at or below the place asked for, or the end of the buffer |
| `Poison.Hbm.PoisonOneBuffer` | acq400_axi_chain.c:102-127 | both sentinels written, displaced words stashed unless they are sentinels, no other byte changed |
| `Poison.Hbm.PoisonOverwritten` | acq400_axi_chain.c:139-147 | true exactly when both sentinels are gone |
| `Poison.Hbm.ClearPoison` | acq400_axi_chain.c:149-158 | the stash goes back unless both words were overwritten |
| `Poison.Hbm.Read` | acq400_ui.c:291-356 | what one read returns and where it leaves the position |
| `Poison.Hbm.ReadSession` | acq400_ui.c:291-356 | a client's reads from the beginning, one after another |
| `Poison.SessionUnpoisoned` | acq400_ui.c:291-356 | reads cut anywhere but inside the last 8 bytes return the contents with the sentinels hidden |
| `Poison.PoisonedSessionIff` | acq400_ui.c:291-356 | a buffer poisoned any number of times and read in such chunks gives the bytes it had, exactly if the reading stops short, no word was its own sentinel, or the stash held it |
| `Poison.ReadCutInside` | acq400_ui.c:303-325 | a read cut inside them fails or returns them as they are |
| `AxiLoop.CompletionSound` | acq400_drv.c:1684-1783 | in every run a buffer is put full only if DMA has written both its words since it became empty if it was poisoned then, at least one if it passed the check |
| `AxiLoop.FullOnlyWhenWritten` | acq400_drv.c:1705-1783 | from before the chain is poisoned on, with all buffers in it and recycled ones poisoned, in every run with safe drains: both words, always |
| `AxiLoop.ExhaustionSoundIff` | acq400_drv.c:1759-1782 | up to the next exhaustion both words were always written, exactly if the loop quits, nothing is drained, or one buffer that is all there is |
| `AxiLoop.RunSoundIff` | acq400_drv.c:1684-1783 | in every run from a start both words were always written, exactly if the loop quits on exhaustion or has at most one buffer |
| `AxiLoop.CheckTrusted` | acq400_axi_chain.c:195-214 | a passed check means each empty buffer has at least one sentinel |
| `AxiLoop.PassedKnown` | acq400_axi_chain.c:195-214 | after a passed check something is known of every empty buffer, and nothing that was known is lost |
| `AxiLoop.QuitsIff` | acq400_drv.c:1705-1783 | not told to stop, the loop quits exactly on a failed check, an exhaustion it must quit on, or no buffer even after a drain, and faults exactly for want of a first buffer |
| `AxiLoop.RecycledIff` | acq400_axi_chain.c:129-137 | a buffer given back has its sentinels again exactly if recycled ones are poisoned and it is not exempt |
| `AxiLoop.ClearAllIs` | acq400_axi_chain.c:181-194 | at the end a buffer that DMA filled is left alone, and one with a sentinel left gets its words back |
| `AxiLoop.AxiDataLoop.PoisonAllBuffers` | acq400_axi_chain.c:159-179 | every buffer of the chain is poisoned |
| `AxiLoop.AxiDataLoop.ClearPoisonAllBuffers` | acq400_axi_chain.c:181-194 | the loop over the chain clears each buffer and leaves filled ones alone |
| `AxiLoop.AxiDataLoop.CheckAllBuffersArePoisoned` | acq400_axi_chain.c:195-214 | no failures exactly when no empty buffer has lost both sentinels |
| `AxiLoop.AxiDataLoop.Begin` | acq400_drv.c:1705-1712 | poison, check and first buffer, each as the state machine has it |
| `AxiLoop.AxiDataLoop.Body` | acq400_drv.c:1717-1784 | each step of the loop, as the state machine has it |
| `AxiLoop.AxiDataLoop.Drive` | acq400_drv.c:1684-1784 | any events on the device give the state machine's run, with sound completions, and with safe drains both words written |
| `Delivery.AxiReaderFollowsRing` | acq400_drv.c:1684-1784 | from the start of a capture the reader is given the buffers in index order round and round, drains included if undisturbed |
| `Delivery.ExhaustedOrderIff` | acq400_drv.c:1759-1763 | at an exhaustion the drain leaves the reader its order exactly when EMPTIES or REFILLS is empty |
| `Delivery.AiReaderFollowsRing` | acq400_drv.c:1996-2098 | the ping-pong loop too, while EMPTIES does not run out |
| `CaptureFsm.RunMatches` | acq400_stream.cpp:4424-4506 | after any inputs the counters and flags are what counting buffers gives |
| `CaptureFsm.CaptureEndsIff` | acq400_stream.cpp:4355-4506 | a capture ends exactly when an event came after acceptance opened, then one buffer, then those of the whole post target plus three |
| `CaptureFsm.CountsRightIff` | acq400_stream.cpp:4454-4495 | that holds on all inputs exactly when the counters cannot wrap |
| `CaptureFsm.CountersWithinTargets` | acq400_stream.cpp:4454-4495 | of every capture, its counters wrapping or not: they never exceed their targets, and the post state needs pre filled and an event taken |
| `CaptureFsm.GreatestTargetNeverEnds` | acq400_stream.cpp:4481-4482 | with the greatest 32-bit post target and a pre-trigger sample, which the constructor admits, no inputs end the capture |
| `CaptureFsm.StreamHeadPrePost.GetBufferId` | acq400_stream.cpp:4355-4414 | inputs are taken up to the next buffer, events counted only while accepted |
| `CaptureFsm.StreamHeadPrePost.ProcessBuffer` | acq400_stream.cpp:4440-4500 | one buffer's effect on the capture, as the state machine has it |
| `CaptureFsm.StreamHeadPrePost.StreamCore` | acq400_stream.cpp:4424-4506 | finishes exactly when the inputs suffice, and at the first of them that does |
| `Bits.AndMask` | acq400_structs.h:284-286 | masking with a power of two less one is the remainder, also of negative differences |
| `Bits.AndBits` | acq400_stream.cpp:612-636 | a bit of a masked word is set exactly when it is set in word and mask |
| `BufferQueue.Masks` | acq400_structs.h:284-344 | increment, count and space of the circular queue, from the masks |
| `BufferQueue.Bq.Count` | acq400_structs.h:341-344 | the count is the number waiting |
| `BufferQueue.Bq.SpaceLeft` | acq400_structs.h:336-339 | the space is what is left, less the one place never used |
| `BufferQueue.Bq.Put` | acq400_structs.h:322-329 | one more waiting, or on a full queue none |
| `BufferQueue.Bq.Get` | acq400_structs.h:311-320 | the oldest comes out, or nothing when empty |
| `BufferQueue.Bq.Notify` | acq400_drv.c:743-771 | an overrun empties the queue first; then the number is put |
| `BufferQueue.Bq.Serve` | acq400_drv.c:743-771 | any notices and reads on the queue itself: what is read, waiting and lost accounts for every notice |
| `BufferQueue.EveryNoticeAccounted` | acq400_drv.c:743-771 | every number notified is read, waiting, or lost at a counted overrun, in order, each overrun losing exactly a full queue |
| `BufferQueue.QueueIsSuffix` | acq400_ui.c:1233-1257 | the queue is the last part of the notices, within capacity; without overruns nothing is skipped |
| `LiveDemux.EveryWordOnce` | acq400_stream.cpp:612-636 | word i of the stream is word i / nchan of channel i mod nchan and of no other |
| `LiveDemux.LiveIsColumn` | acq400_stream.cpp:612-636 | of whole samples, the arrays are the masked columns of a channel file |
| `LiveDemux.DemuxBuffer.Start` | acq400_stream.cpp:356-362 | empty arrays, first channel |
| `LiveDemux.DemuxBuffer.Demux` | acq400_stream.cpp:582-636 | after any calls the arrays are the channels of all the words so far, wherever the calls were cut |
| `LiveDemux.DemuxCalls` | acq400_stream.cpp:582-636 | a sequence of calls and one call on all their words leave the same arrays, those of the stream |
| `Awg.PassCarries` | acq400_drv.c:1266-1300 | a pass carries the least of what remains, fits, is in the block and in the buffer, rounded to the DMA size once if as large, with DMA or without |
| `Awg.AskedIff` | acq400_drv.c:1442-1480 | a pass is made exactly when the rest fits, or DMA can be had and what fits is enough for it |
| `Awg.InStepPassIff` | acq400_drv.c:1266-1309 | a pass moves on and writes, whatever the waveform, just the samples it moves past, exactly when what it carries is whole samples by DMA or whole words of whole samples |
| `Awg.EveryPassInStepIff` | acq400_drv.c:1442-1487 | every pass does exactly when the sizes are regular |
| `Awg.PassInStep` | acq400_drv.c:1442-1487 | with regular sizes a pass moves on and keeps all that was emitted in step with the waveform |
| `Awg.StandardBlockRepeats` | acq400_drv.c:1442-1487 | with 12-byte samples and the standard sizes the second pass sends 4 bytes again, so what is emitted is not the waveform |
| `Awg.LoopedAt` | acq400_drv.c:1498-1508 | byte k emitted is byte k, round and round, of the waveform |
| `Awg.Feeder.WriteFifoDma` | acq400_drv.c:1266-1309 | for any sizes, what is emitted and what is said to be: by DMA from that place, or whole words from the word it is in |
| `Awg.Feeder.WriteFifo` | acq400_core.c:178-204 | word by word, whole words from the start of a word |
| `Awg.Feeder.FillPass` | acq400_drv.c:1442-1487 | one pass on any sizes; in step with the waveform when they are regular; the FIFO filled within the headroom, or the pass put off |
| `Awg.Feeder.EndOfLoop` | acq400_drv.c:1493-1508 | the last repeat of a one-shot ends it, and otherwise the waveform begins again |
| `Awg.Feeder.FillFifo` | acq400_drv.c:1424-1514 | with regular sizes what was ever emitted is the waveform over and over up to the cursor, and more is emitted exactly when a pass must be made; the FIFO is not raised above its margin; the result says whether there was room; one-shots play as often as asked |
| `RegCache.BitSet` | acq400_reg_cache.c:28-39 | setting a bit sets that one and no other |
| `RegCache.Cache.RegisterInit` | acq400_reg_cache.c:41-53 | the register joins the map with its initial value, unless too high |
| `RegCache.Cache.Update` | acq400_reg_cache.c:73-89 | exactly the mapped entries are read afresh |
| `RegCache.Cache.RcRead` | acq400_reg_cache.c:91-108 | a mapped register's cached value, else a miss |
| `RegCache.Cache.RcWrite` | acq400_reg_cache.c:110-131 | a mapped register is written in cache and device, else neither |
| `RegCache.DeviceHasLastWrite` | acq400_core.c:145-147 | the device holds the last value written |
| `RegCache.CoherentIff` | acq400_core.c:145-163 | after any run, cache and device agree exactly when they did at first, or the register was written, or refreshed |
| `RegCache.CachedReadIsLastWrite` | acq400_core.c:150-175 | a written register reads as last written, cached or not |
| `RegCache.UncachedRead` | acq400_core.c:150-175 | a register that is not mapped, or read past the cache, reads as last written, or as the device had it |
| `RegCache.RefreshedEntries` | acq400_reg_cache.c:73-89 | after any run a refresh leaves the clock entries, and no others, as the device has them |
| `RegCache.AcqRegs.Wr32` | acq400_core.c:145-148 | a write reaches the device, and the cache when mapped |
| `RegCache.AcqRegs.Rd32` | acq400_core.c:150-165 | a read comes from the cache when allowed and mapped |
| `RegCache.AcqRegs.TimerUpdate` | acq400_reg_cache.c:133-142 | the clock refresh unless its site is inhibited, on the data array the caches share |
| `RegCache.AcqRegs.Drive` | acq400_core.c:145-165 | any writes, refreshes and changes on the device itself: coherent exactly as stated, and every read what was last written, or what the device had |
| `Coalesce.JoinedFromInputs` | acq400_drv.c:2525-2558 | each result is exactly the union of two neighbouring inputs |
| `Coalesce.JoinedExactly` | acq400_drv.c:2525-2558 | every pair end to end is joined, whatever the pairs before it were, and nothing else is kept |
| `Coalesce.JoinedInOrder` | acq400_drv.c:2525-2558 | results are disjoint and in order of address |
| `Coalesce.RoundsDouble` | acq400_drv.c:2567-2590 | f rounds over one length give buffers 2^f as long, in order |
| `Coalesce.RowRounds` | acq400_drv.c:2567-2590 | of n buffers end to end, f rounds make n / 2^f still end to end |
| `Coalesce.BufferlenIs` | acq400_drv.c:2560-2565 | the length parameter after f rounds is 2^f times the old, or 0 when nothing is left |
| `Coalesce.Device.CoalesceOnce` | acq400_drv.c:2516-2566 | EMPTIES is the joined pairs, and the parameters follow it |
| `Coalesce.Device.CoalesceBuffers` | acq400_drv.c:2567-2590 | as many rounds as the factor says |
| `Oversample.Asr` | acq400_stream.cpp:1110-1118 | the least shift with room for so many terms |
| `Oversample.NoOverflow` | acq400_stream.cpp:865-868 | partial sums of up to the factor's terms do not wrap |
| `Oversample.NoWrapIff` | acq400_stream.cpp:865-868 | no partial sum wraps, for all terms of a size, exactly when the factor times the size is within 2^31 |
| `Oversample.OutputWithin` | acq400_stream.cpp:869-873 | with that shift every output is of the size of the shifted inputs |
| `Oversample.SafeFactors` | acq400_stream.cpp:836-843 | the factors that are safe for 16- and 32-bit data |
| `Oversample.SafeFactorsIff` | acq400_stream.cpp:836-868 | for all data, exactly the factors up to 65536 for 16 bits and 256 for 32 |
| `Oversample.SteadyIff` | acq400_stream.cpp:843-873 | an output row of a steady buffer is that level, for every level, exactly when there is no pre-shift and the factor is a power of two |
| `Oversample.SteadyShiftedIff` | acq400_stream.cpp:843-873 | it is the pre-shifted level, for every level, exactly when the factor is a power of two |
| `Oversample.WriteAveraged` | acq400_stream.cpp:836-883 | with the shift chosen for a safe factor no sum wraps, rows are the shifted sums, and every output is in range |
| `Oversample.WriteBuffer` | acq400_stream.cpp:855-883 | each output word is the shifted 32-bit sum of its own samples of its own channel, and of the true sum where that fits |
| `Oversample.RowIsAverage` | acq400_stream.cpp:855-883 | word ic of row o is the shifted sum of the o-th stretch of channel ic, each word shifted first |
| `Oversample.TakenAtMostIff` | acq400_stream.cpp:935-963 | stepping takes at most the factor's samples exactly when it divides their number |
| `Oversample.WriteSingle` | acq400_stream.cpp:935-972 | the single output is the shifted 32-bit sum of the samples stepped on |
| `Oversample.SingleIsEvery` | acq400_stream.cpp:935-963 | its sum is of every so many samples of the channel, from the first to the end |
| `Oversample.SplitLeast` | acq400_stream.cpp:924-926 | the shifts make up what was asked for and 8, with none made before summing that could wait |
| `Oversample.SafeSingle` | acq400_stream.cpp:921-972 | with room for the samples taken, the split of the shift keeps the sum from wrapping and the output in range |
| `Oversample.SingleRightIff` | acq400_stream.cpp:921-972 | that is so for all data exactly when there is that room |
| `Oversample.WriteSingleAveraged` | acq400_stream.cpp:921-972 | with the shifts the buffer is made with: room whenever the factor divides the samples, and then no wrap and every output in range |

## Left out

- Register definitions, probing, sysfs, debugfs and proc knobs, sockets, multicast, signals and timers: no deep property.
- The dual-channel AXI loop and demultiplexer, and `bd_scale` 2: the invariants of the single-channel ones do not carry over.
- `replace` of acq400_lists.c, which moves the list head itself; `replace_all` is modelled.
- Device.AcqDevice.Reserve: from EMPTIES only; the STASH list, which the source tries first, is not modelled.
- The time and status output, the `elapsed` counter, and the search for the event in memory; the event pointer is an input, on a sample boundary.
- Double-up mode and the log of event signatures in the demultiplexer.
- Distribution.BufferDistribution.GetSegments: not for a pre-trigger longer than the ring, on which the source fails too, but may have moved buffers first.
- PostProcess.PostProcessDemux: in a linear window the post segment must end inside the mapping, which the source takes for granted.
- PostProcess.PostProcessRaw: the same.
- ChannelFiles.ChannelFile.ReadCooked: stride 1 and `pcomp` 0, whole words; a decimating stride is not modelled.
- ChannelFiles.ChannelFile.ReadMuxdata: whole words, and file positions up to the end of the data; beyond it the source compares signed with unsigned.
- Poison.Hbm.Read: sessions are proved for sentinels at the end of the buffer, which is where they are unless a debug parameter moves them.
- LiveDemux.DemuxBuffer.Demux: streams with no event signatures, and arrays with room for the words.
- Awg.Feeder.FillFifo: DMA that succeeds, and no rolling on into a physically contiguous buffer; rearming a one-shot is not modelled.
- RegCache.Cache.RcRead: not at offset 0x200, where the source's bound admits a map word that does not exist.
- RegCache.Cache.RcWrite: not at offset 0x200, for the same reason.
- RegCache.AcqRegs.Wr32: not at offset 0x200, for the same reason.
- RegCache.AcqRegs.Rd32: not at offset 0x200, for the same reason.
- BufferQueue.Bq.Notify: one client; the loop over clients treats each alike. A reset and a read that race are taken one after the other.
- Oversample.WriteSingle: the rejection of runs of equal samples; and a factor above the sample count, for which the source does not terminate.
- Oversample.WriteSingleAveraged: the same.
- White Rabbit timestamps, channel masks, delta triggers and the environment: small, or with no clean property.
