# Verification of the mmap queue and the pipeline around it

SkyWalking Satellite keeps received telemetry in a persistent queue and forwards it in batches.
This project models the parts of it that carry state across failures and threads, and proves what
they keep.

* **The memory-mapped queue.** Records are an 8-byte length and a payload, written in chunks into a
  ring of C segment files of S bytes that are reused modulo C; four cursors live in a metadata page,
  and a bounded number of segments is mapped. The central idea of the proof is an append-only
  *tape*: the ring is at every moment a window on the last C*S bytes of it (`Layout.Window`), so
  that all reasoning about records happens on a flat sequence (`Records`) and the ring arithmetic is
  done once (`Layout`).
  * `SegmentCache` and `MmapQueue.Queue` model the code method by method: the cache with its swapper,
    chunked reading and writing, Enqueue, Dequeue, Ack, doFlush, Close and Initialize, and
    reopening after a crash that leaves any mixture of synced and unsynced bytes.
  * `Interleaving` takes the same queue apart into single chunk and cursor steps of one writer and
    one reader, with acknowledgements, syncs, flushes and crashes in between; `Runs` puts whole
    operations together from such steps, and `Refinement` shows that the methods of the class are such
    runs: same cursors, records and stored bytes, those of a write that failed included.
  * `Recovery` says exactly when every crash can be recovered from, when every kill of the process is,
    and when doFlush, whose file syncs and watermark are two steps, is safe.
  * `Residency` runs the cache under the interleaved queue and shows when the swap of a full cache
    always ends; `Hangs` and `SmallCaches` have the runs in which it does not, and `SafeQueues` the exact limit.
  * `Metadata` is the page in place; `OffsetText` is the text form of positions.
* **The sender** (`Sender`): batch buffers, the two loops of a partition, grouping and forwarding.
* **The pipeline** (`Pipeline`): the interleaved queue, the hands between it and the sender, and the
  sender's acknowledgements, composed. `Delivery` has the result, at-least-once over every run with
  crashes: a flushed record is pending again, or every forwarder of its kind was called with each
  remote event that the processor made of it. `Progress` shows that from every state events can be
  accepted and everything pending can be delivered.
* **The limiter** (`Limiter`), **the labelled-metric table** (`Labels`, `MetricTable`), **the accept
  limit** (`AcceptLimiter`), **partition choice** (`Partition`) and **backoff** (`Backoff`).

Run `dafny verify dfyconfig.toml` to check everything (Dafny 4.11).

A remark on the proofs: large invariants are carried from state to state as single facts, which
keeps the verifier from taking them apart in every step. They are compared with `true`, or folded
behind a trivially true key (`HistoryKey`, `StorageKey`, ...) that a proof asserts when it looks
inside. Neither changes what they mean.

## What the code does not keep

These are properties one would expect that fail, each with the condition under which it holds. The
condition is exact, except that the one for the swap leaves some rings of medium size open if events
may fill a segment:

* The fullness check protects unread data only if `MaxEventSize mod SegmentSize <= SegmentSize - 8`,
  one degenerate geometry apart (`Records.NeverLapsIff`, `Records.LapWitness`). The queue theorems
  assume such a configuration (`Records.Roomy`); the default one is.
* IsFull guards the reading cursor, not the committed one. A crash is harmless as long as no byte was
  written a whole ring beyond the committed cursor (`Recovery.UnlappedSafe`), but every queue that
  accepts more than empty events has a run that gets there and loses a flushed record
  (`Runs.LappedRun`, `Recovery.AlwaysRecoversIff`).
* doFlush stores as the watermark a writing cursor that it reads after the files were synced. An
  event published in between ends below the watermark with bytes that are not synced
  (`Recovery.PublishedInBetween`, `Recovery.AlwaysMarksSafelyIff`); without one all is well
  (`Recovery.UnpublishedSafe`).
* If the process is killed instead of the machine, the mapped metadata survives unflushed, and the
  committed cursor can be beyond the watermark (`Runs.AckOvertakesFlush`). The queue then starts with
  its reading cursor beyond its writing cursor, is sound under no history whatever
  (`Interleaving.KilledComesUp`), and reading it never ends (`Recovery.KilledReads`). Otherwise the
  flushed, unacknowledged records are handed out again, if there are none or the writer has not
  lapped the committed cursor; but they are in every run only if the queue never accepts an event or
  only accepts empty ones (`Recovery.AlwaysSurvivesKillIff`), and they are no more than a ring of
  them, as the queue's invariant asks, only if it never accepts one (`Recovery.AlwaysComesUpIff`).
* doSwap never ends when no segment in its window can be unmapped (`MmapQueue.Queue.DoSwap`). That
  never happens in a ring of at most twice as many segments as may be mapped, less two. In larger
  rings it never happens if events are short (`MaxEventSize + 8 < SegmentSize`) and at least eight
  segments may be mapped, as by default, or more than half of all (`Residency.NeverHangs`). With four
  to seven of them small events are enough (`SmallCaches.SmallEventsHang`). Events that fill a segment
  leave segments mapped that nobody uses or frees, until a cache of any size is full of them
  (`Hangs.LeaksHang`), and one event that is nearly as long as the cache fills it by itself
  (`Hangs.LongEventHangs`).
  `SafeQueues.SafeIff` is the resulting equivalence, configuration by configuration.
* The limiter's signal does not mean a full batch: messages that a flush has counted and not yet
  taken from the channel count again, so a batch of any size can follow a full one. Only with a limit
  of one does every batch reach it without the timer (`Limiter.AlwaysFullIff`).
* Ack logs a position that does not decode and then commits segment 0, offset 0
  (`MmapQueue.Queue.Ack`).
* A zero LimitCount stops the metrics stream (`Limiter.ZeroLimitBlocks`), a zero MaxBufferSize drops
  every event (`Sender.NeverLosesIff`), and an accept limit too close to the 32-bit range can be
  exceeded (`AcceptLimiter.WithinLimitIff`).

## Assumptions

* The mapping library, by contract: ReadAt and WriteAt copy as many bytes as fit in the segment;
  words are little-endian (any invertible 8-byte form would do); Flush and Unmap succeed. Opening a
  segment file may fail at any time.
* Segment ids and positions are mathematical integers in the queue; the 64-bit range enters where
  positions are turned into words and text. Lengths and sizes fit a Go int.
* A machine crash leaves any mixture of synced and unsynced file bytes, but the metadata page as of its
  last sync; that the kernel may write the page back earlier is not modelled.
  `Interleaving.KilledComesUp` and `Recovery.KilledReads` say what a page that is newer than its sync
  means when all file writes survive, too.
* One swap, one mark-read and each step of the two queue threads are atomic with respect to each
  other, and so is doFlush except in `Recovery`. In `Residency` a mark-read message is handled at once.
* Acknowledged offsets come from Dequeue, in order, which `Pipeline` proves of the sender.
* Timers, I/O results, the order in which maps are visited and the results of Forward are arbitrary.

## Model

| member | source | states |
|---|---|---|
| Layout.AddressModulo | plugins/queue/mmap/segment_operation.go:138-141 | Segment `id % C` at `offset` is the place `(id*S + offset) mod (C*S)` of the files laid end to end, for every position. |
| Layout.OverlapIff | plugins/queue/mmap/segment_operation.go:138-141 | Reusing files modulo C: bytes written in a range collide with stored bytes below it exactly when the range passes one whole ring beyond the oldest stored byte. |
| Layout.ChunkWritten | plugins/queue/mmap/queue_operation.go:161-185 | One chunk written at the end of the logical tape extends what the ring represents by that chunk and disturbs no byte less than a ring behind it. |
| Layout.MixWindow | plugins/queue/mmap/queue.go:251-268 | If two images of the files agree on the represented bytes, so does any byte-by-byte mixture of them, which is what a machine crash can leave. |
| Records.SkipBounds | plugins/queue/mmap/queue_operation.go:142-158 | The length word is moved by fewer than eight bytes and then lies inside one segment. |
| Records.MarksInjective | plugins/queue/mmap/queue.go:271-275 | Two cursors on record boundaries are equal exactly when they have the same number of records before them, so comparing cursors compares record counts. |
| Records.ReadBack | plugins/queue/mmap/queue_operation.go:123-139 | The bytes stored for a record decode to its length and its payload, byte for byte, wherever it is split over segments, as long as it was not lapped. |
| Records.LogExtend | plugins/queue/mmap/queue_operation.go:48-70 | A completed write makes the log longer by exactly its payload and leaves every earlier record and boundary alone. |
| Records.NoOverwrite | plugins/queue/mmap/queue.go:277-283 | If the queue is not full, every byte an allowed event writes, with or without a skipped length word, has an id of at most the reading id + C - 1. |
| Records.NeverLapsIff | plugins/queue/mmap/queue.go:277-283 | Over all logs of allowed records and all reading positions in them, the check keeps writes within one ring of the reading cursor exactly when `MaxEventSize mod SegmentSize <= SegmentSize - 8`, or the queue is too small to ever accept anything, or segments hold a single word and one more byte fits only while reader and writer share a segment. |
| Records.LapWitness | plugins/queue/mmap/queue.go:277-283 | For every other configuration: a log of allowed records, each admitted by the check in its turn, after which it admits a maximal event that overwrites the oldest unread byte. |
| SegmentCache.UnmapKeepsImage | plugins/queue/mmap/segment_operation.go:69-83 | Because the segment is flushed first, unmapping changes nothing that any reader sees, and each file byte is the old or the mapped one. |
| SegmentCache.SweepStep | plugins/queue/mmap/segment_operation.go:119-134 | Each id the swap visits keeps: nothing evictable is left above it, only visited segments went, and never the reading or writing one. |
| SegmentCache.SweepEnd | plugins/queue/mmap/segment_operation.go:119-134 | A sweep to the bottom of its window frees a segment exactly when some mapped segment in the window is neither the reading nor the writing one. |
| SegmentCache.SwapOfIndices | plugins/queue/mmap/segment_operation.go:111-135 | As far as the set of mapped indices goes, doSwap goes down from the id below the writing one to some id, frees all that it may from there up and nothing below, at least one, and stops at the bottom of its window or, unless all is to be cleared, with half the limit less one free. |
| MmapQueue.Queue.UnmapSegment | plugins/queue/mmap/segment_operation.go:69-83 | Unmaps one index, keeps the count equal to the number of mapped segments, keeps all contents. |
| MmapQueue.Queue.SwapSweep | plugins/queue/mmap/segment_operation.go:119-134 | What one sweep over a full cache leaves, down to the stopping rule: the bottom of the window, or exactly half the limit less one free. |
| MmapQueue.Queue.DoSwap | plugins/queue/mmap/segment_operation.go:111-135 | Ends with fewer segments mapped than the limit exactly when the cache was not full or something in the window is evictable; otherwise it loops forever (Stuck), and then nothing changed. |
| MmapQueue.Queue.MapSegment | plugins/queue/mmap/segment_operation.go:53-66 | Maps exactly the one segment if it was not mapped, or fails and changes nothing. |
| MmapQueue.Queue.GetSegment | plugins/queue/mmap/segment_operation.go:37-51 | The segment is mapped afterwards; which others were unmapped for it, in doSwap's order; contents are unchanged, the mapped count stays within the limit of at least four; fails only if the file cannot be opened or the swap cannot end, the latter exactly when the cache is full and none of its indices can be freed. |
| MmapQueue.Adjusted | plugins/queue/mmap/queue.go:114-126 | Initialize's sizes for any settings: whole pages, 131072 bytes exactly for sizes of less than a page either way, at least four mapped segments; a more negative size stays negative. |
| MmapQueue.Queue.WriteLength | plugins/queue/mmap/queue_operation.go:142-158 | Appends the pad to the next segment, if needed, and the length word; the cursor returned is the new end. |
| MmapQueue.Queue.WriteBytes | plugins/queue/mmap/queue_operation.go:161-185 | Appends the payload across segments in chunks, byte by byte where it belongs and nothing else; on failure some of the chunks, beyond the published end. |
| MmapQueue.Queue.ReadLength | plugins/queue/mmap/queue_operation.go:123-139 | Mirrors writeLength: reads the word at the place the writer chose, for any stored bytes. |
| MmapQueue.Queue.ReadBytes | plugins/queue/mmap/queue_operation.go:96-120 | Returns the stored bytes of consecutive positions across segment ends and the cursor after them. |
| MmapQueue.Queue.EmptyIff | plugins/queue/mmap/queue.go:271-275 | isEmpty is true exactly when no record is pending. |
| MmapQueue.Queue.RoomFor | plugins/queue/mmap/queue.go:277-283 | When not full, the whole next record ends within one ring of the reading cursor. |
| MmapQueue.Queue.HeadReadable | plugins/queue/mmap/queue_operation.go:74-93 | In every valid state the bytes at the reading cursor are the oldest pending record. |
| MmapQueue.Queue.Append | plugins/queue/mmap/queue_operation.go:48-70 | enqueue past the fullness check: the record is appended as a whole, and counted, or nothing visible changes; it fails only if some segment is not mapped or the cache is full. |
| MmapQueue.Queue.Enqueue | plugins/queue/mmap/queue.go:161-174 | Which of the error cases applies, exactly, fullness as a condition on the cursors; a success appends exactly the payload to the pending records and is counted; any failure leaves records, cursors and counters unchanged; a write fails only if some segment is not mapped or the cache is full. |
| MmapQueue.Queue.FlushesSignalled | plugins/queue/mmap/queue_operation.go:63-67 | With a positive FlushCeilingNum the flushes signalled are the events accepted since Initialize divided by it, and the unflushed count is the remainder. |
| MmapQueue.Queue.Take | plugins/queue/mmap/queue_operation.go:74-93 | dequeue of a non-empty queue returns and removes exactly the oldest record, or fails and changes no cursor. |
| MmapQueue.Queue.Dequeue | plugins/queue/mmap/queue.go:176-194 | Empty exactly when nothing is pending; a success removes exactly the oldest record, hands out the cursor after it and announces the left segment. |
| MmapQueue.Queue.Ack | plugins/queue/mmap/queue.go:216-229 | Only the committed cursor changes; a position that does not decode commits segment 0, offset 0. |
| MmapQueue.DequeueAndAck | plugins/queue/mmap/queue.go:176-229 | Acknowledging the text of the offset just handed out commits every record handed out so far. |
| MmapQueue.Queue.DoFlush | plugins/queue/mmap/queue.go:251-268 | Afterwards the files equal what readers see, all accepted records are below the watermark, and the cursors on disk are the current ones. |
| MmapQueue.Queue.MarkRead | plugins/queue/mmap/segment_operation.go:86-95 | Unmapping a fully read segment keeps the queue valid and its contents. |
| MmapQueue.Queue.Close | plugins/queue/mmap/queue.go:196-214 | Refuses later calls, flushes files and cursors, loses nothing. |
| MmapQueue.Queue.Initialize | plugins/queue/mmap/queue.go:128-159 | For any files and any page: the cursors it starts with, contents unchanged, and ready exactly if both the reader's and the writer's segment could be mapped. If a queue left them and no byte was written a whole ring beyond the committed cursor: a valid queue of exactly the records between the committed cursor and the watermark, in order, with the used size and all counters at zero. |
| MmapQueue.CrashImage | plugins/queue/mmap/queue.go:251-268 | After a machine crash that leaves the page as of its last sync and any mixture of file bytes, the disk still holds every flushed, unlapped record and cursors on record boundaries. |
| MmapQueue.CrashAndReopen | plugins/queue/mmap/queue.go:128-159 | Reopening after a crash that left any mixture of old and new file bytes recovers exactly the flushed, unacknowledged records. |
| MmapQueue.CloseAndReopen | plugins/queue/mmap/queue.go:196-214 | After Close, reopening recovers every accepted record that was not acknowledged. |
| MmapQueue.PublishBalanced | plugins/queue/mmap/queue_operation.go:62-68 | Used size plus recovered payload stays the payload now pending, and all cursors stay on record boundaries, when a record is published. |
| MmapQueue.TakeBalanced | plugins/queue/mmap/queue_operation.go:87-91 | The same when a record is taken. |
| Interleaving.InvStep | plugins/queue/mmap/queue_operation.go:48-93 | Every check, length, chunk, cursor update, failure, acknowledgement, sync of a segment, flush or crash, in any order, keeps cursors on boundaries, unread bytes in place and both threads' partial work consistent, although the writer's fullness check is stale. |
| Interleaving.InvFresh | plugins/queue/mmap/queue.go:128-159 | A new queue satisfies that invariant whatever its files contain, so every run from one is covered. |
| Interleaving.KeepsCheckRoom | plugins/queue/mmap/queue_operation.go:49-51 | The room the writer saw stays sufficient however the reader moves on. |
| Interleaving.KeepsPutWriting | plugins/queue/mmap/queue_operation.go:62 | Publishing turns the finished chunks into one more record without touching the reader's. |
| Interleaving.KeepsGetChunk | plugins/queue/mmap/queue_operation.go:96-120 | Each chunk continues the record at the reading cursor, whatever the writer does between chunks. |
| Interleaving.Fifo | plugins/queue/mmap/queue_operation.go:48-93 | Over every run without a crash: pending before, then accepted during, equals delivered during, then pending after. Only whole published records are delivered. |
| Interleaving.UnreadBytesStable | plugins/queue/mmap/queue.go:277-283 | No step of either thread changes a byte between the reading and the writing cursor. |
| Interleaving.CursorOrder | plugins/queue/mmap/queue.go:251-283 | In every reachable state committed <= reading <= writing, watermark <= writing, and the emptiness test is exact. |
| Interleaving.Final | plugins/queue/mmap/queue_operation.go:48-93 | Every state reached by a run satisfies the invariant. |
| Interleaving.Recovers | plugins/queue/mmap/queue.go:134-145 | Crash and reopen at chunk grain, with both threads anywhere: exactly the flushed records after the flushed committed cursor are pending. |
| Interleaving.RecoversAfterClose | plugins/queue/mmap/queue.go:196-214 | A flush and a reopen keep exactly the unacknowledged records. |
| Interleaving.RecoveryConditionExact | plugins/queue/mmap/queue.go:134-145 | A byte written later has the place of a flushed, unacknowledged one exactly when there is such a byte and the writer has lapped the committed cursor on disk. |
| Recovery.UnlappedSafe | plugins/queue/mmap/queue.go:134-145 | If the writer has not lapped the committed cursor on disk, every crash image has every flushed, unacknowledged byte in its place. |
| Recovery.AlwaysRecoversIff | plugins/queue/mmap/queue.go:134-145 | No run of a new queue ends where a crash does damage exactly when the queue never accepts an event or only accepts empty ones. |
| Runs.LappedRun | plugins/queue/mmap/queue.go:277-283 | For every other configuration and any initial files: a run that overwrites a flushed, unacknowledged record; a queue reopened from its files would read length 0 in its place. |
| Recovery.UnpublishedSafe | plugins/queue/mmap/queue.go:251-268 | With the syncs and the watermark as two steps and nothing published in between, all bytes below the new watermark are in place in every crash image. |
| Recovery.AlwaysMarksSafelyIff | plugins/queue/mmap/queue.go:251-268 | The two steps are safe in every run exactly when the queue never accepts an event. |
| Recovery.PublishedInBetween | plugins/queue/mmap/queue.go:251-268 | Otherwise: a run in which the new watermark covers a byte that was never synced. |
| Interleaving.KilledComesUp | plugins/queue/mmap/queue.go:134-145 | If the process is killed, so that the unflushed page survives: with the committed cursor beyond the watermark the queue is sound under no history, tape or high-water mark; with the two equal it comes up empty, however far the writer lapped; with it below and not lapped it comes up with exactly the flushed, unacknowledged records. |
| Recovery.HandsOutOnce | plugins/queue/mmap/queue_operation.go:74-93 | What reading from one cursor to another hands out is determined by the files. |
| Recovery.KilledReads | plugins/queue/mmap/queue.go:134-145 | Reading such a queue to its end: with the committed cursor beyond the watermark no sequence of records gets there; otherwise, if nothing is to be read or the writer has not lapped it, exactly the flushed, unacknowledged records are handed out. |
| Recovery.AlwaysSurvivesKillIff | plugins/queue/mmap/queue.go:134-145 | In every state of every run of a new queue in which the committed cursor is not beyond the watermark, a kill leaves exactly the flushed, unacknowledged records to be handed out, if and only if the queue never accepts an event or only accepts empty ones. |
| Recovery.AlwaysComesUpIff | plugins/queue/mmap/queue.go:134-145 | In every such state the killed queue comes up sound, with no more than a ring of records waiting, if and only if the queue never accepts an event. |
| Runs.AckOvertakesFlush | plugins/queue/mmap/queue.go:216-229 | A run, from any fresh queue, in which an acknowledgement does get beyond the watermark. |
| Runs.Enqueued | plugins/queue/mmap/queue_operation.go:48-70 | Whenever the queue is not full, a run of the writer accepts any allowed event, stores its bytes and changes nothing else. |
| Runs.EnqueueFails | plugins/queue/mmap/queue_operation.go:48-70 | A write that fails after any number of chunks is a run that leaves those chunks and no record. |
| Runs.Dequeued | plugins/queue/mmap/queue_operation.go:74-93 | Whenever something is pending, a run of the reader hands out the oldest record and changes nothing else. |
| Runs.DequeueFails | plugins/queue/mmap/queue_operation.go:74-86 | A read that fails, at the length word or at a chunk, is a run that changes nothing. |
| Refinement.EnqueueIsRun | plugins/queue/mmap/queue.go:161-174 | The Enqueue of the queue object is a run of single steps to the same cursors, records and stored bytes: one that accepts the event, or one that fails and leaves some chunks; a call refused before that is no step. |
| Refinement.DequeueIsRun | plugins/queue/mmap/queue.go:176-194 | The same for Dequeue, down to the record and the offset handed out. |
| Refinement.FlushIsStep | plugins/queue/mmap/queue.go:251-268 | doFlush of the object is the flush of the interleaved queue, with the same files. |
| Refinement.AckIsStep | plugins/queue/mmap/queue.go:216-229 | Ack of the text of an offset handed out is the acknowledgement of the interleaved queue. |
| Refinement.MarkReadIsStep | plugins/queue/mmap/segment_operation.go:69-95 | Unmapping the announced segment is the interleaved queue's sync of it, with the same files. |
| Refinement.CrashIsStep | plugins/queue/mmap/queue.go:128-159 | Initialize on a crash image is the crash of the interleaved queue: same cursors, records and bytes. |
| Residency.TameStep | plugins/queue/mmap/segment_operation.go:37-135 | For events of at most two segments, every chunk and cursor step of reader and writer, with the segments it gets and swaps, keeps mapped segments between the reader and one beyond the writer, those passed since the last swap mapped, and older ones half the limit below it, in one block if they nearly fill the cache. |
| Residency.BrimfulStep | plugins/queue/mmap/segment_operation.go:37-135 | A queue opened with its writing cursor a whole ring of segments ahead stays so, with only the reader's segments mapped, until the reader leaves its segment; the invariant of `TameStep` holds from then on. |
| Residency.NeverHangs | plugins/queue/mmap/segment_operation.go:111-135 | In no state of any run, from anything Initialize opens and with any failures, would a swap never end, if all segments are at most twice as many as may be mapped, less two, or if events span at most two segments and at least eight segments or more than half of all may be mapped. |
| Hangs.LongEventHangs | plugins/queue/mmap/segment_operation.go:111-135 | If an event may fill all segments that may be mapped but one, there is room for it, and the ring is at least twice the limit less one: a run to a step for which the swap never ends. |
| Hangs.LeaksHang | plugins/queue/mmap/queue_operation.go:87-91 | If an event may fill a segment, there is room for it, and the ring is nearly three times the limit: a run in which a reader that keeps up with the writer leaves one segment after the other mapped, since it announces only the one its record began in, to a step for which the swap never ends. |
| SmallCaches.SmallEventsHang | plugins/queue/mmap/segment_operation.go:111-135 | For four to seven mapped segments, any whole-word segment size of 128 bytes or more and any ring of at least twice the limit, besides the segments an event may fill: a run with events of at most one byte to a step for which the swap never ends. |
| SafeQueues.SafeIff | plugins/queue/mmap/segment_operation.go:111-135 | Configuration by configuration: no run comes to a step that waits forever for a swap exactly when the ring is at most twice the limit, less two, or events span at most two segments and at least eight segments or more than half of all may be mapped. |
| SafeQueues.ShortSafeIff | plugins/queue/mmap/segment_operation.go:111-135 | With events of at most two segments, one byte long at least, and any ring: no run comes to such a step exactly when at least eight segments or more than half of all may be mapped. |
| SafeQueues.WideSafeIff | plugins/queue/mmap/segment_operation.go:111-135 | In any ring of three times the limit with room for the longest event: exactly when events span at most two segments and at least eight segments may be mapped. |
| SegmentCache.NoWayOnIff | plugins/queue/mmap/segment_operation.go:111-135 | The condition of the results about runs, in terms of the indices mapped, is the one for which the loops of doSwap do not end. |
| Metadata.SlotPatched | plugins/queue/mmap/meta/meta.go:40-59 | Writing one word of the page changes that word only; negative values are read back as zero. |
| Metadata.PageLayout | plugins/queue/mmap/meta/meta.go:40-52 | Which bytes of the page hold the version, the capacity and the parts of each cursor. |
| Metadata.Page.PutWritingOffset | plugins/queue/mmap/meta/meta.go:118-123 | Reading back gives the writing cursor just put; version, capacity and the other cursors are unchanged. |
| Metadata.Page.PutWatermarkOffset | plugins/queue/mmap/meta/meta.go:133-138 | The same for the watermark. |
| Metadata.Page.PutCommittedOffset | plugins/queue/mmap/meta/meta.go:148-153 | The same for the committed cursor. |
| Metadata.Page.PutReadingOffset | plugins/queue/mmap/meta/meta.go:163-168 | The same for the reading cursor. |
| Metadata.Page.Open | plugins/queue/mmap/meta/meta.go:69-94 | Which pages are refused, exactly; a refused page is untouched, an accepted one keeps its cursors. |
| Bytes.WordRoundTrip | plugins/queue/mmap/queue_operation.go:187-199 | A length survives the stored word; negative values become zero. |
| OffsetText.OffsetRoundTrip | plugins/queue/mmap/queue.go:286-305 | Decoding an encoded position gives it back for all non-negative 64-bit ids and offsets. |
| OffsetText.DecodesIff | plugins/queue/mmap/queue.go:286-305 | An encoded 64-bit pair decodes exactly when neither part is negative. |
| OffsetText.EncodeInjective | plugins/queue/mmap/queue.go:286-288 | Different positions have different texts. |
| OffsetText.TextExample | plugins/queue/mmap/queue.go:286-288 | The id, a hyphen and the offset, in decimal digits, most significant first. |
| OffsetText.ParsesSigned | plugins/queue/mmap/queue.go:291-305 | ParseInt takes decimal digits as they are or after either sign, in the 64-bit range. |
| OffsetText.OnlyDigits | plugins/queue/mmap/queue.go:291-305 | And besides that nothing but digits. |
| OffsetText.SplitRemoves | plugins/queue/mmap/queue.go:291-305 | Splitting leaves no separator in a part and one part more than separators, so no sign reaches the number parser. |
| Sender.BatchBuffer.Add | internal/satellite/module/buffer/buffer.go:66-80 | The contents grow by the item unless the buffer is full or the offset is missing; first and last offsets stay those of the contents. |
| Sender.Consume | internal/satellite/module/sender/sender.go:225-264 | The calls made, in forwarder order, the success and failure counts and the acknowledged offset of one batch. |
| Sender.ShareExact | internal/satellite/module/sender/sender.go:234-242 | What a forwarder of a type receives is every remote event of that type as often as it occurs, and no other. |
| Sender.ShareInOrder | internal/satellite/module/sender/sender.go:234-242 | What a forwarder receives is in the order of the batch: the events of its share are those at the places of the remote events of the type, in increasing order, and at all of these places. |
| Sender.EventsInOrder | internal/satellite/module/sender/sender.go:235-241 | That order is the order of the contexts in the buffer, and of the events in each. |
| Sender.PlanExact | internal/satellite/module/sender/sender.go:243-262 | Each forwarder is called exactly once with exactly its share, and not at all if that is empty. |
| Sender.PlanInOrder | internal/satellite/module/sender/sender.go:243-262 | The forwarders are called in their order. |
| Sender.CarriedIsSum | internal/satellite/module/sender/sender.go:248-261 | What is counted for the forwarders with some property is the sum of the sizes of their shares. |
| Sender.CountsAddUp | internal/satellite/module/sender/sender.go:248-261 | Successes, failures and what only the fallbacker took are together all events sent: accepted by the forwarder; taken by neither; refused by the forwarder and taken by the fallbacker. |
| Sender.InvStep | internal/satellite/module/sender/sender.go:110-184 | Every step of the two loops keeps inputs = consumed batches, batch in hand, current buffer; batches are non-empty, within MaxBufferSize and acknowledged by their last event. |
| Sender.Lossless | internal/satellite/module/sender/sender.go:110-184 | Over every run: all inputs, in order, are consumed, in hand or buffered; none is lost, repeated or moved. |
| Sender.BatchSizes | internal/satellite/module/sender/sender.go:130-141 | Over every run: each consumed batch has MaxBufferSize inputs, or at least MinFlushEvents. |
| Sender.TimerFlushes | internal/satellite/module/sender/sender.go:130-134 | If the flush loop waits, the first tick with at least MinFlushEvents inputs has the whole buffer consumed. |
| Sender.FullFlushes | internal/satellite/module/sender/sender.go:135-143 | So has the input that fills the buffer, without a tick. |
| Sender.Drains | internal/satellite/module/sender/sender.go:110-184 | From every state in which the buffer is empty or due, the two loops alone get to where every input was consumed. |
| Sender.NeverLosesIff | internal/satellite/module/buffer/buffer.go:66-80 | No run loses an input exactly when MaxBufferSize is at least one. |
| Sender.NoOffsetLost | internal/satellite/module/buffer/buffer.go:66-80 | An input without an offset is lost in every state. |
| Sender.AckSafety | internal/satellite/module/sender/sender.go:263 | Acknowledgements follow input order, each is the offset of its batch's last event, and everything up to it was given to consume. |
| Pipeline.InvStep | internal/satellite/module/gatherer/receiver_gatherer.go:131-157 | Queue at chunk grain, gatherer, processor and sender together: what the sender holds are the session's records in order with the offsets they were dequeued with; everything acknowledged was given to consume; and whatever the history says was given for a record is what the processor makes of that record. |
| Pipeline.TextIsValid | plugins/queue/mmap/queue.go:286-305 | The queue's text form of positions is one of those the pipeline results cover. |
| Pipeline.AckIsDequeuedOffset | internal/satellite/module/sender/sender.go:263 | The text consume acknowledges decodes to the cursor that Dequeue handed out with the batch's last event. |
| Delivery.ConsumedAreRecords | internal/satellite/module/processor/processor.go:66-90 | What consume was given are the dequeued records in order, each with just the events the processor made of it, and the history has exactly that for them. |
| Delivery.CarriesEvents | internal/satellite/module/processor/processor.go:66-86 | What the sender holds, and what is on its way to it: for each record of this session, in order, the events the processor made of it, with an offset that names the partition and decodes to the cursor handed out with the record. |
| Delivery.NeverSkips | plugins/queue/mmap/queue.go:134-145 | After any crash that does not come after a lap every flushed record is pending again in the reopened queue, or a context with just the events the processor made of that very record was given to consume. |
| Delivery.GivenWasHanded | internal/satellite/module/sender/sender.go:225-264 | Every context in the history was in some batch that consume worked off during the run. |
| Delivery.NeverSkipsInRuns | plugins/queue/mmap/queue.go:134-145 | Over every run from an empty queue, through any number of crashes: a flushed record is pending again, or consume worked off a batch with a context of just the events the processor made of it, and each remote one of them is in the share of its type, with which every forwarder of that type is called. |
| Progress.Accepts | plugins/queue/mmap/queue_operation.go:48-70 | From every state of the whole, an event that the fullness check lets through can be stored, whatever reader and sender are doing. |
| Progress.CatchesUp | internal/satellite/module/gatherer/receiver_gatherer.go:131-157 | From every state reader and sender get to where everything pending was handed out, processed, consumed and acknowledged, but for inputs left in a buffer with fewer than MinFlushEvents. |
| Limiter.InvStep | plugins/receiver/grpc/envoymetricsv3/als_service.go:39-86 | Every step of the stream loop and the flush loop keeps all messages accounted for in order and the channel bound. |
| Limiter.Batching | plugins/receiver/grpc/envoymetricsv3/als_service.go:39-86 | In every interleaving arrivals = emitted, then in the flusher's hand, then in the channel, then in the producer's hand; at most LimitCount + 1 in the channel; no empty batch; after the final flush everything was emitted. |
| Limiter.LimitFlushes | internal/satellite/module/buffer/limitor.go:76-80 | The message that reaches the limit has the channel flushed: all of it as one batch, as it is but that the first message has the identity of the stream. |
| Limiter.TimerFlushes | internal/satellite/module/buffer/limitor.go:60-61 | So has the timer, however few messages there are. |
| Limiter.StopFlushes | internal/satellite/module/buffer/limitor.go:65-67 | So has the end of the stream, after which the flush loop returns and nothing is left. |
| Limiter.NoEarlyFlush | internal/satellite/module/buffer/limitor.go:76-80 | Without the timer, and before the end of the stream, nothing is flushed or signalled before as many messages arrived as the limit says. |
| Limiter.AlwaysFullIff | internal/satellite/module/buffer/limitor.go:76-80 | Without the timer, and before the end of the stream, every batch of every run reaches the limit exactly if that is one. |
| Limiter.IdentityIsLatest | plugins/receiver/grpc/envoymetricsv3/als_service.go:81-83 | The identity of the stream is the latest that arrived. |
| Limiter.SendNeverBlocks | plugins/receiver/grpc/envoymetricsv3/als_service.go:84 | With LimitCount at least one the producer's send always has room. |
| Limiter.ZeroLimitBlocks | plugins/receiver/grpc/envoymetricsv3/als_service.go:84 | With LimitCount zero no run ever gets past the first send. |
| Limiter.DrainNeverBlocks | plugins/receiver/grpc/envoymetricsv3/als_service.go:54-56 | The flush loop never waits for a message it has counted. |
| Labels.InlineLabelValues | internal/satellite/telemetry/metricservice/base.go:182-195 | Succeeds exactly when the curried positions are strictly increasing and in range, and then returns the merged vector. |
| Labels.MergedPlaces | internal/satellite/telemetry/metricservice/base.go:182-195 | The merged vector has the curried values at their positions and the given ones, in their order, at all others. |
| Labels.MatchLabelValues | internal/satellite/telemetry/metricservice/base.go:208-227 | True exactly when the stored values are the merged vector. |
| Labels.HashLabelValues | internal/satellite/telemetry/metricservice/base.go:126-147 | The hash, by any hashing round, is that of the merged vector, so lookup and insertion agree on the bucket. |
| Labels.HashReadsStream | internal/satellite/telemetry/metricservice/base.go:126-147 | What is hashed is the whole stream of values and separators, byte after byte. |
| Labels.ValidateLabelValues | internal/satellite/telemetry/metricservice/base.go:108-124 | Accepts exactly the right number of valid UTF-8 values, none of which then contains the separator. |
| Labels.ValidUtf8Iff | internal/satellite/telemetry/metricservice/base.go:117-121 | Valid are exactly the encodings of sequences of characters, by the bit layout of section 3 of RFC 3629. |
| Labels.NoSeparator | internal/satellite/telemetry/metricservice/base.go:117-121 | Octet 255 does not occur in UTF-8 (section 4 of RFC 3629). |
| Labels.StreamsDetermine | internal/satellite/telemetry/metricservice/base.go:126-147 | Validated values under the same curry feed the same bytes to the hash only if the merged vectors are equal, even if curried values contain the separator. |
| Labels.GivenLeft | internal/satellite/telemetry/metricservice/base.go:185-193 | At a position that is not curried the loops still have a given value to take. |
| MetricTable.LookupIff | internal/satellite/telemetry/metricservice/base.go:170-180 | Bucket lookup, collisions included, is lookup in a map from label vectors to sub-metrics. |
| MetricTable.InsertKeeps | internal/satellite/telemetry/metricservice/base.go:159-166 | Inserting a new vector keeps every vector in its bucket exactly once. |
| MetricTable.BaseMetric.Get | internal/satellite/telemetry/metricservice/base.go:170-180 | Finds the entry of the merged vector in the bucket of any hash. |
| MetricTable.BaseMetric.GetMetricWithLabelValues | internal/satellite/telemetry/metricservice/base.go:88-95 | Returns the one sub-metric of the merged vector, creating it exactly if it did not exist; invalid labels change nothing. |
| MetricTable.BaseMetric.WriteMetric | internal/satellite/telemetry/metricservice/base.go:73-86 | Emits each created vector once, with each key and the value at its place, and nothing else, in whatever order the buckets are visited. |
| MetricTable.SameLabelsSameMetric | internal/satellite/telemetry/metricservice/base.go:149-168 | For any hash and any interleaving of callers between the read-locked miss and the write-locked retry: same sub-metric exactly if they asked for the same labels. |
| MetricTable.GetsItsOwn | internal/satellite/telemetry/metricservice/base.go:149-168 | A caller that had both its turns has a sub-metric, and it is that of the labels it asked for. |
| AcceptLimiter.AcceptLimit | plugins/server/grpc/server_limiter.go:103-124 | For any interleaving: the counter is the open connections plus the attempts not yet rolled back, never negative, and open connections stay within the limit. |
| AcceptLimiter.WithinLimitIff | plugins/server/grpc/server_limiter.go:103-124 | Over all runs, open connections stay within the limit exactly when limit plus concurrent attempts fit the 32-bit counter, or the limit is not positive. |
| AcceptLimiter.OneTooMany | plugins/server/grpc/server_limiter.go:114-117 | Otherwise a run wraps the counter around and grants one connection more than the limit. |
| AcceptLimiter.CloseOnce | plugins/server/grpc/server_connections.go:70-79 | A closed connection stays closed in every run, and closing it again at any later time changes nothing. |
| AcceptLimiter.GrantedIff | plugins/server/grpc/server_limiter.go:103-120 | With no other attempt under way and the process not busy, a connection is granted exactly if fewer than the limit are open. |
| AcceptLimiter.BusyChangesNothing | plugins/server/grpc/server_limiter.go:104-107 | A busy process takes no connection and counts nothing. |
| AcceptLimiter.RollsBack | plugins/server/grpc/server_limiter.go:114-117 | Attempts over the limit are all taken back, after which the counter is the number of open connections. |
| AcceptLimiter.CloseMakesRoom | plugins/server/grpc/server_limiter.go:122-124 | Closing an open connection takes exactly it away and lowers the counter by one. |
| Partition.PartitionedQueue.NextIndex | plugins/queue/partition/partitioned_queue.go:125-137 | The index loop ends in range whatever other callers make of the index, by increments or resets, between its increment and its swap; undisturbed it is the next index around. |
| Partition.PartitionedQueue.FindPartition | plugins/queue/partition/partitioned_queue.go:120-153 | ErrFull exactly when every partition is full; otherwise the first one not full from the round-robin index on. |
| Partition.PartitionedQueue.Round | plugins/queue/partition/partitioned_queue.go:120-153 | As many undisturbed calls as partitions, none full, hit every partition exactly once. |
| Partition.PartitionedQueue.DequeueThenAck | plugins/queue/partition/partitioned_queue.go:83-118 | Acknowledging a dequeued offset reaches the sub-queue it came from, with its own position, and no other. |
| Backoff.FallBack | plugins/fallbacker/timer/timer_fallbacker.go:66-80 | Number of retries, stop at the first success, the result; the first sleep is the base and each further one twice the last, up to the cap; closed form and bound for settings that are not negative. |

## Left out

- Protobuf marshalling in Enqueue and Dequeue: records are byte strings, so an event that fails to decode is not modelled.
- Spin locks and the channels to the swapper and flusher: GetSegment's error returns keep the lock, and doSwap takes none; steps are atomic instead, and blocking on a channel is only a matter of order.
- Metadata.Page and MmapQueue.Queue: the queue holds cursor values; that the page stores and returns such values unchanged within the 64-bit range is proved of the page by itself.
- MmapQueue.Queue.DoFlush: one step, and syncs succeed. A failed sync is logged by the code and the watermark advanced anyway. The two steps of a flush that interleaves with the writer are the subject of Recovery.
- MmapQueue.CrashImage: the metadata page reverts to its last sync; a page that the kernel wrote back earlier is not modelled.
- MmapQueue.CrashAndReopen: the same.
- Residency.NeverHangs: a mark-read message that waits while segments are got is not modelled.
- SafeQueues.SafeIff: for events of one byte at least and segments of 128 bytes or more in whole words, which all sizes that Initialize makes are; and if events may fill a segment, not for rings of at least twice the limit, less one, that are less than about three times the limit or have no room for the longest event, unless the limit is at most seven or an event may nearly fill the cache (`SafeQueues.Decided` has the exact bounds).
- Refinement.CrashIsStep: for crash images that are mixtures of the object's files and image and of the machine's; the object may have synced segments at other times.
- MmapQueue.Queue: fields that the program keeps in slices are sequences, and a mapped segment is the value of its bytes, so aliasing of mappings is not captured.
- Sender.Consume: the results of Forward and of the fallbacker are given per forwarder; the retries inside the fallbacker are the subject of Backoff.FallBack.
- Sender shutdown: shutdown0 and its timeout can consume a buffer twice; all statements about the sender are about runs before it.
- Limiter.Batching: the identifier stamped on the first message of a batch is written without synchronisation, so messages are compared without identifiers.
- AcceptLimiter: the CPU reading is an arbitrary answer of the check; the listener and the connections themselves are not modelled.
- MetricTable.BaseMetric.WriteMetric: the code visits the table without a lock; inserts during the visit are not modelled.
- Partition.PartitionedQueue: sub-queues are abstract; overflow of the 32-bit index under endless interference is not modelled.
- Sub-metric values, gauges and counters: floating-point addition by compare-and-swap is not modelled, and a sub-metric is known by the number of its creation.
- The in-memory and empty queues, clients, servers, other receivers and forwarders, plugin loading, configuration and documentation tools: plumbing or easy members.
