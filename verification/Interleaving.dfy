/** One writer and one reader interleaved at every chunk and cursor update, with
    acknowledgements, flushes and crashes in between. */
module Interleaving {
  import opened Basics
  import opened Bytes
  import opened Layout
  import opened Records
  import opened MmapQueue

  /** Where the writer is inside enqueue. */
  datatype Writer =
    | WIdle
    | WLength(data: Record)
    | WBytes(data: Record, done: nat, at: Cursor)
    | WPublish(data: Record, at: Cursor)

  /** Where the reader is inside dequeue. */
  datatype Reader =
    | RIdle
    | RLength
    | RBytes(length: nat, buf: seq<byte>, at: Cursor)
    | RPublish(buf: seq<byte>, at: Cursor)

  /** Record counts behind the cursors: of `log`, the first `head` are handed out, `acked`
      acknowledged and `mark` flushed; this session began at `base`, and the cursors on disk
      acknowledge `diskAcked`. */
  datatype History = History(log: seq<Record>, base: nat, head: nat, acked: nat, mark: nat, diskAcked: nat)

  /** The shared files and cursors, the two threads and, last, what no step looks at: the history,
      the tape and the highest position written. */
  datatype State = State(
    store: Store, meta: Cursors, writer: Writer, reader: Reader,
    disk: Store, diskMeta: Cursors,
    offsets: seq<Cursor>,
    h: History, tape: seq<byte>, hw: nat)

  datatype Action =
    | CheckRoom(data: Record) | PutLength | PutChunk | PutWriting | WriteFails
    | CheckEmpty | GetLength | GetChunk | PutReading | ReadFails
    | AckOffset(i: nat) | Sync(i: nat) | Flush | Crash(store: Store)

  // ----- steps -----

  ghost predicate Enabled(cfg: Config, s: State, a: Action)
    requires cfg.Valid()
  {
    match a
    case CheckRoom(data) =>
      s.writer.WIdle? && |data| <= cfg.maxEventSize &&
      !Full(cfg.g, cfg.maxEventSize, s.meta.reading.id, s.meta.writing.id)
    case PutLength => s.writer.WLength?
    case PutChunk => s.writer.WBytes?
    case PutWriting => s.writer.WPublish?
    case WriteFails => s.writer.WLength? || s.writer.WBytes?
    case CheckEmpty => s.reader.RIdle? && s.meta.reading != s.meta.writing
    case GetLength => s.reader.RLength?
    case GetChunk => s.reader.RBytes?
    case PutReading => s.reader.RPublish?
    case ReadFails => s.reader.RLength? || s.reader.RBytes?
    // an offset handed out in this session, acknowledged in order
    case AckOffset(i) => i < |s.offsets| && s.h.acked <= s.h.base + i + 1
    // one segment is synced when the swap or a mark-read unmaps it
    case Sync(i) => i < cfg.g.count
    case Flush => true
    // either image per byte; not lapped beyond the committed cursor on disk
    case Crash(store) =>
      WellFormed(cfg.g, s.disk) && WellFormed(cfg.g, s.store) && MixOf(cfg.g, store, s.disk, s.store) &&
      s.hw <= Linear(cfg.g, s.diskMeta.committed) + cfg.g.Total()
  }

  function Max(a: nat, b: nat): nat { if a <= b then b else a }

  /** The store, tape and high-water mark after one chunk `d` at `c`. */
  ghost function Written(g: Geometry, s: State, c: Cursor, d: seq<byte>): State
    requires g.Valid() && WellFormed(g, s.store) && c.offset + |d| <= g.size
  {
    var i := Index(g, c.id);
    s.(store := s.store[i := Patched(s.store[i], c.offset, d)],
       tape := s.tape + d, hw := Max(s.hw, |s.tape| + |d|))
  }

  /** A length word that does not fit moves to the next segment; the bytes left behind keep
      their contents. */
  ghost function Skipped(g: Geometry, s: State): State
    requires g.Valid() && WellFormed(g, s.store) && s.meta.writing.offset < g.size
  {
    var w := s.meta.writing;
    var pad := if SkipCursor(g, w) == w then [] else s.store[Index(g, w.id)][w.offset..];
    s.(tape := s.tape + pad, hw := Max(s.hw, |s.tape| + |pad|))
  }

  ghost function StepPutLength(g: Geometry, s: State): State
    requires g.Valid() && WellFormed(g, s.store) && s.writer.WLength? && s.meta.writing.offset < g.size
  {
    var c := SkipCursor(g, s.meta.writing);
    Written(g, Skipped(g, s), c, ToWord(|s.writer.data|))
      .(writer := WBytes(s.writer.data, 0, Advance(g, c, WORD)))
  }

  ghost function StepPutChunk(g: Geometry, s: State): State
    requires g.Valid() && WellFormed(g, s.store) && s.writer.WBytes?
    requires s.writer.at.offset < g.size && s.writer.done <= |s.writer.data|
  {
    var d := NextChunk(g, s.writer);
    Written(g, s, s.writer.at, d).(writer := AfterWrite(g, s.writer, |d|))
  }

  /** mmap's WriteAt takes as many bytes as the segment still has room for. */
  function NextChunk(g: Geometry, w: Writer): (d: seq<byte>)
    requires w.WBytes? && w.done <= |w.data| && w.at.offset <= g.size
    ensures w.at.offset + |d| <= g.size
  {
    w.data[w.done..w.done + Min(|w.data| - w.done, g.size - w.at.offset)]
  }

  function AfterWrite(g: Geometry, w: Writer, n: nat): Writer
    requires w.WBytes?
  {
    var c := Advance(g, w.at, n);
    if w.done + n == |w.data| then WPublish(w.data, c) else WBytes(w.data, w.done + n, c)
  }

  ghost function StepGetLength(g: Geometry, s: State): State
    requires g.Valid() && WellFormed(g, s.store)
  {
    var c := SkipCursor(g, s.meta.reading);
    var n := FromWord(Slice(g, s.store, Linear(g, c), WORD));
    s.(reader := RBytes(n, [], Advance(g, c, WORD)))
  }

  ghost function StepGetChunk(g: Geometry, s: State): State
    requires g.Valid() && WellFormed(g, s.store) && s.reader.RBytes?
    requires s.reader.at.offset < g.size && |s.reader.buf| <= s.reader.length
  {
    var r := s.reader;
    var n := Min(r.length - |r.buf|, g.size - r.at.offset);
    s.(reader := AfterChunk(g, r, s.store[Index(g, r.at.id)][r.at.offset..r.at.offset + n]))
  }

  function AfterChunk(g: Geometry, r: Reader, d: seq<byte>): Reader
    requires r.RBytes?
  {
    var buf, c := r.buf + d, Advance(g, r.at, |d|);
    if |buf| == r.length then RPublish(buf, c) else RBytes(r.length, buf, c)
  }

  function StepPutReading(s: State): State
    requires s.reader.RPublish?
  {
    s.(meta := s.meta.(reading := s.reader.at), reader := RIdle,
       offsets := s.offsets + [s.reader.at], h := s.h.(head := s.h.head + 1))
  }

  function StepAck(s: State, i: nat): State
    requires i < |s.offsets|
  {
    s.(meta := s.meta.(committed := s.offsets[i]), h := s.h.(acked := s.h.base + i + 1))
  }

  /** Close and Initialize, or a crash and Initialize, from the disk's cursors. */
  ghost function StepReopen(g: Geometry, s: State, store: Store): State
    requires g.Valid() && s.h.mark <= |s.h.log| && Boundary(g, s.h.log, s.h.mark) <= |s.tape|
  {
    var h := s.h;
    State(store, s.diskMeta.(writing := s.diskMeta.watermark, reading := s.diskMeta.committed),
          WIdle, RIdle, store, s.diskMeta, [],
          History(h.log[..h.mark], h.diskAcked, h.diskAcked, h.diskAcked, h.mark, h.diskAcked),
          s.tape[..Boundary(g, h.log, h.mark)], s.hw)
  }

  ghost function Apply(cfg: Config, s: State, a: Action): State
    requires Inv(cfg, s) && Enabled(cfg, s, a)
  {
    assert HistoryKey(true) && StorageKey(true) && WriterKey(true) && ReaderKey(true);
    var g := cfg.g;
    match a
    case CheckRoom(data) => s.(writer := WLength(data))
    case PutLength => StepPutLength(g, s)
    case PutChunk => StepPutChunk(g, s)
    case PutWriting =>
      s.(meta := s.meta.(writing := s.writer.at), writer := WIdle, h := s.h.(log := s.h.log + [s.writer.data]))
    case WriteFails => s.(writer := WIdle, tape := s.tape[..Boundary(g, s.h.log, |s.h.log|)])
    case CheckEmpty => s.(reader := RLength)
    case GetLength => StepGetLength(g, s)
    case GetChunk => StepGetChunk(g, s)
    case PutReading => StepPutReading(s)
    case ReadFails => s.(reader := RIdle)
    case AckOffset(i) => StepAck(s, i)
    case Sync(i) => s.(disk := s.disk[i := s.store[i]])
    case Flush =>
      var m := s.meta.(watermark := s.meta.writing);
      s.(disk := s.store, meta := m, diskMeta := m, h := s.h.(mark := |s.h.log|, diskAcked := s.h.acked))
    case Crash(store) => StepReopen(g, s, store)
  }

  // ----- the invariant -----

  predicate Ordered(h: History) {
    h.base <= h.acked <= h.head <= |h.log| && h.diskAcked <= h.mark <= |h.log| && h.diskAcked <= h.acked
  }

  ghost predicate HistoryOk(cfg: Config, h: History, meta: Cursors, diskMeta: Cursors, offsets: seq<Cursor>)
    requires cfg.Valid()
  {
    && Ordered(h)
    && AllFit(h.log, cfg.maxEventSize)
    && Marks(cfg.g, meta.writing, h.log, |h.log|)
    && Marks(cfg.g, meta.reading, h.log, h.head)
    && Marks(cfg.g, meta.committed, h.log, h.acked)
    && Marks(cfg.g, meta.watermark, h.log, h.mark)
    && diskMeta.watermark == meta.watermark
    && Marks(cfg.g, diskMeta.committed, h.log, h.diskAcked)
    && |offsets| == h.head - h.base
    && (forall i :: 0 <= i < |offsets| ==> Marks(cfg.g, offsets[i], h.log, h.base + i + 1))
  }

  ghost predicate StorageOk(g: Geometry, store: Store, disk: Store, tape: seq<byte>, hw: nat, h: History)
    requires g.Valid()
  {
    && WellFormed(g, store) && WellFormed(g, disk)
    && h.head <= |h.log| && h.mark <= |h.log|
    && LogHolds(g, tape, h.log)
    && Boundary(g, h.log, h.mark) <= Boundary(g, h.log, |h.log|) <= |tape| <= hw
    && hw <= Boundary(g, h.log, h.head) + g.Total()
    && Window(g, store, tape, hw)
    && Window(g, disk, tape[..Boundary(g, h.log, h.mark)], hw)
  }

  /** The record being written has room, and its part written so far is on the tape. */
  ghost predicate WriterOk(cfg: Config, w: Writer, tape: seq<byte>, end: nat, limit: nat)
    requires cfg.Valid()
  {
    match w
    case WIdle => |tape| == end
    case WLength(data) =>
      |tape| == end && |data| <= cfg.maxEventSize && Next(cfg.g, end, |data|) <= limit
    case WBytes(data, done, at) =>
      |data| <= cfg.maxEventSize && Next(cfg.g, end, |data|) <= limit &&
      done <= |data| && PartHeld(cfg.g, tape, end, data, done) && At(cfg.g, at, |tape|)
    case WPublish(data, at) =>
      |data| <= cfg.maxEventSize && PartHeld(cfg.g, tape, end, data, |data|) && At(cfg.g, at, |tape|)
  }

  /** The tape ends with the length word of `data` and its first `done` bytes. */
  ghost predicate PartHeld(g: Geometry, tape: seq<byte>, end: nat, data: Record, done: nat)
    requires g.Valid() && done <= |data|
  {
    var q := Skip(g, end);
    |tape| == q + WORD + done && tape[q..] == ToWord(|data|) + data[..done]
  }

  /** What the reader has so far is a prefix of the record at the reading cursor. */
  ghost predicate ReaderOk(g: Geometry, r: Reader, log: seq<Record>, head: nat)
    requires g.Valid() && head <= |log|
  {
    match r
    case RIdle => true
    case RLength => head < |log|
    case RBytes(length, buf, at) =>
      head < |log| && length == |log[head]| && buf <= log[head] &&
      At(g, at, Skip(g, Boundary(g, log, head)) + WORD + |buf|)
    case RPublish(buf, at) =>
      head < |log| && buf == log[head] && At(g, at, Boundary(g, log, head + 1))
  }

  // The parts of the invariant are kept folded, so that the verifier carries them from state to
  // state whole; a proof unfolds the parts it looks into by asserting their keys.

  predicate HistoryKey(b: bool) { true }

  predicate StorageKey(b: bool) { true }

  predicate WriterKey(b: bool) { true }

  predicate ReaderKey(b: bool) { true }

  ghost predicate HistoryKept(cfg: Config, h: History, meta: Cursors, diskMeta: Cursors, offsets: seq<Cursor>)
    requires cfg.Valid()
  {
    forall b :: HistoryKey(b) ==> HistoryOk(cfg, h, meta, diskMeta, offsets)
  }

  ghost predicate StorageKept(g: Geometry, store: Store, disk: Store, tape: seq<byte>, hw: nat, h: History)
    requires g.Valid()
  {
    forall b :: StorageKey(b) ==> StorageOk(g, store, disk, tape, hw, h)
  }

  ghost predicate WriterKept(cfg: Config, w: Writer, tape: seq<byte>, log: seq<Record>, head: nat)
    requires cfg.Valid() && head <= |log|
  {
    forall b :: WriterKey(b) ==>
      WriterOk(cfg, w, tape, Boundary(cfg.g, log, |log|), Boundary(cfg.g, log, head) + cfg.g.Total())
  }

  ghost predicate ReaderKept(g: Geometry, r: Reader, log: seq<Record>, head: nat)
    requires g.Valid() && head <= |log|
  {
    forall b :: ReaderKey(b) ==> ReaderOk(g, r, log, head)
  }

  ghost predicate Inv(cfg: Config, s: State) {
    && cfg.Valid()
    && WellFormed(cfg.g, s.store) && WellFormed(cfg.g, s.disk)
    && Ordered(s.h)
    && HistoryKept(cfg, s.h, s.meta, s.diskMeta, s.offsets) == true
    && StorageKept(cfg.g, s.store, s.disk, s.tape, s.hw, s.h) == true
    && WriterKept(cfg, s.writer, s.tape, s.h.log, s.h.head) == true
    && ReaderKept(cfg.g, s.reader, s.h.log, s.h.head) == true
  }

  // ----- every step keeps the invariant -----

  /** The position the writer publishes next, and the first one it must not reach. */
  ghost function End(cfg: Config, s: State): nat
    requires cfg.Valid()
  {
    Boundary(cfg.g, s.h.log, |s.h.log|)
  }

  ghost function Limit(cfg: Config, s: State): nat
    requires cfg.Valid() && s.h.head <= |s.h.log|
  {
    Boundary(cfg.g, s.h.log, s.h.head) + cfg.g.Total()
  }

  lemma KeepsCheckRoom(cfg: Config, s: State, data: Record)
    requires Inv(cfg, s) && Enabled(cfg, s, CheckRoom(data))
    ensures Inv(cfg, Apply(cfg, s, CheckRoom(data)))
  {
    assert HistoryKey(true) && WriterKey(true);
    BoundaryMonotone(cfg.g, s.h.log, s.h.head, |s.h.log|);
    CursorUnique(cfg.g, s.meta.reading);
    CursorUnique(cfg.g, s.meta.writing);
    NoOverwrite(cfg.g, cfg.maxEventSize, Boundary(cfg.g, s.h.log, s.h.head), End(cfg, s), |data|);
  }

  /** One chunk at the end of the tape keeps the storage part, if it ends within the limit. */
  lemma WrittenKeeps(cfg: Config, s: State, c: Cursor, d: seq<byte>)
    requires cfg.Valid() && WellFormed(cfg.g, s.store) && s.h.head <= |s.h.log|
    requires StorageKept(cfg.g, s.store, s.disk, s.tape, s.hw, s.h) == true
    requires At(cfg.g, c, |s.tape|) && c.offset + |d| <= cfg.g.size && |s.tape| + |d| <= Limit(cfg, s)
    ensures var t := Written(cfg.g, s, c, d);
            WellFormed(cfg.g, t.store) && StorageKept(cfg.g, t.store, t.disk, t.tape, t.hw, t.h) == true
  {
    assert StorageKey(true);
    ChunkWritten(cfg.g, s.store, s.tape, s.hw, c, d);
    TapeGrows(cfg.g, s.tape, d, s.h.log);
    var m := Boundary(cfg.g, s.h.log, s.h.mark);
    assert (s.tape + d)[..m] == s.tape[..m];
  }

  lemma TapeGrows(g: Geometry, tape: seq<byte>, d: seq<byte>, log: seq<Record>)
    requires g.Valid() && LogHolds(g, tape, log) && Boundary(g, log, |log|) <= |tape|
    ensures LogHolds(g, tape + d, log)
  {
    LogPrefix(g, tape, tape + d, log, |log|);
    assert log[..|log|] == log;
  }

  /** Skipping to the next segment: the bytes left behind join the tape as they are. */
  lemma SkipKeeps(cfg: Config, s: State)
    requires Inv(cfg, s) && s.writer.WLength? && s.meta.writing.offset < cfg.g.size
    ensures var t, c := Skipped(cfg.g, s), SkipCursor(cfg.g, s.meta.writing);
            StorageKept(cfg.g, t.store, t.disk, t.tape, t.hw, t.h) == true &&
            |t.tape| == Skip(cfg.g, End(cfg, s)) && At(cfg.g, c, |t.tape|) && c.offset + WORD <= cfg.g.size
  {
    var g := cfg.g;
    var w := s.meta.writing;
    var c := SkipCursor(g, w);
    var p := End(cfg, s);
    assert HistoryKey(true) && WriterKey(true);
    CursorUnique(g, w);
    SkipBounds(g, p);
    if c == w {
      assert s.tape + [] == s.tape;
    } else {
      var i := Index(g, w.id);
      var pad := s.store[i][w.offset..];
      AdvanceLinear(g, w, |pad|);
      WrittenKeeps(cfg, s, w, pad);
      assert Patched(s.store[i], w.offset, pad) == s.store[i];
      assert s.store[i := s.store[i]] == s.store;
    }
  }

  lemma KeepsPutLength(cfg: Config, s: State)
    requires Inv(cfg, s) && Enabled(cfg, s, PutLength)
    ensures Inv(cfg, Apply(cfg, s, PutLength))
  {
    assert HistoryKey(true) && WriterKey(true);
    var t, c := Skipped(cfg.g, s), SkipCursor(cfg.g, s.meta.writing);
    var word := ToWord(|s.writer.data|);
    SkipKeeps(cfg, s);
    WrittenKeeps(cfg, t, c, word);
    AdvanceLinear(cfg.g, c, WORD);
    PartStarts(cfg.g, t.tape, End(cfg, s), s.writer.data);
    var u := Apply(cfg, s, PutLength);
    assert u == Written(cfg.g, t, c, word).(writer := u.writer) && u.h == s.h;
    assert WriterOk(cfg, u.writer, u.tape, End(cfg, s), Limit(cfg, s));
  }

  lemma PartStarts(g: Geometry, tape: seq<byte>, end: nat, data: Record)
    requires g.Valid() && |tape| == Skip(g, end)
    ensures PartHeld(g, tape + ToWord(|data|), end, data, 0)
  {
    assert (tape + ToWord(|data|))[|tape|..] == ToWord(|data|) + data[..0];
  }

  lemma PartGrows(g: Geometry, tape: seq<byte>, end: nat, data: Record, done: nat, d: seq<byte>)
    requires g.Valid() && done + |d| <= |data| && d == data[done..done + |d|] && PartHeld(g, tape, end, data, done)
    ensures PartHeld(g, tape + d, end, data, done + |d|) == true
  {
    TailGrows(tape, Skip(g, end), ToWord(|data|), data, done, |d|);
  }

  lemma TailGrows(tape: seq<byte>, q: nat, word: seq<byte>, data: Record, done: nat, n: nat)
    requires done + n <= |data| && q <= |tape| && tape[q..] == word + data[..done]
    ensures (tape + data[done..done + n])[q..] == word + data[..done + n]
  {
    var d := data[done..done + n];
    assert (tape + d)[q..] == tape[q..] + d;
    assert data[..done] + d == data[..done + n];
  }

  /** The writer's next place after a chunk. */
  lemma ChunkWriter(cfg: Config, w: Writer, tape: seq<byte>, log: seq<Record>, head: nat, d: seq<byte>)
    requires cfg.Valid() && head <= |log| && w.WBytes? && WriterKept(cfg, w, tape, log, head) == true
    requires w.done + |d| <= |w.data| && w.at.offset + |d| <= cfg.g.size && d == w.data[w.done..w.done + |d|]
    ensures |tape| + |d| <= Boundary(cfg.g, log, head) + cfg.g.Total()
    ensures WriterKept(cfg, AfterWrite(cfg.g, w, |d|), tape + d, log, head) == true
  {
    assert WriterKey(true);
    ChunkPlaced(cfg, w, tape, Boundary(cfg.g, log, |log|), Boundary(cfg.g, log, head) + cfg.g.Total(), d);
  }

  lemma ChunkPlaced(cfg: Config, w: Writer, tape: seq<byte>, end: nat, limit: nat, d: seq<byte>)
    requires cfg.Valid() && w.WBytes? && WriterOk(cfg, w, tape, end, limit) == true
    requires w.done + |d| <= |w.data| && w.at.offset + |d| <= cfg.g.size && d == w.data[w.done..w.done + |d|]
    ensures |tape| + |d| <= limit
    ensures WriterOk(cfg, AfterWrite(cfg.g, w, |d|), tape + d, end, limit) == true
  {
    AdvanceLinear(cfg.g, w.at, |d|);
    PartGrows(cfg.g, tape, end, w.data, w.done, d);
  }

  lemma KeepsPutChunk(cfg: Config, s: State)
    requires Inv(cfg, s) && Enabled(cfg, s, PutChunk)
    ensures Inv(cfg, Apply(cfg, s, PutChunk)) == true
  {
    assert WriterKey(true);
    var d := NextChunk(cfg.g, s.writer);
    ChunkWriter(cfg, s.writer, s.tape, s.h.log, s.h.head, d);
    WrittenInv(cfg, s, s.writer.at, d, AfterWrite(cfg.g, s.writer, |d|));
  }

  lemma WrittenInv(cfg: Config, s: State, c: Cursor, d: seq<byte>, w: Writer)
    requires Inv(cfg, s)
    requires At(cfg.g, c, |s.tape|) && c.offset + |d| <= cfg.g.size && |s.tape| + |d| <= Limit(cfg, s)
    requires WriterKept(cfg, w, s.tape + d, s.h.log, s.h.head) == true
    ensures Inv(cfg, Written(cfg.g, s, c, d).(writer := w))
  {
    WrittenKeeps(cfg, s, c, d);
  }

  lemma PublishHistory(cfg: Config, h: History, meta: Cursors, diskMeta: Cursors, offsets: seq<Cursor>,
                       r: Record, at: Cursor)
    requires cfg.Valid() && HistoryKept(cfg, h, meta, diskMeta, offsets) == true && |r| <= cfg.maxEventSize
    requires At(cfg.g, at, Next(cfg.g, Boundary(cfg.g, h.log, |h.log|), |r|))
    ensures HistoryKept(cfg, h.(log := h.log + [r]), meta.(writing := at), diskMeta, offsets) == true
  {
    assert HistoryKey(true);
    forall k: nat | k <= |h.log|
      ensures Boundary(cfg.g, h.log + [r], k) == Boundary(cfg.g, h.log, k)
    {
      BoundaryKept(cfg.g, h.log, r, k);
    }
  }

  lemma PartComplete(g: Geometry, tape: seq<byte>, end: nat, r: Record)
    requires g.Valid() && PartHeld(g, tape, end, r, |r|)
    ensures Holds(g, tape, end, r)
  {
    var q := Skip(g, end);
    assert tape[q..q + WORD] == tape[q..][..WORD] == ToWord(|r|);
    assert tape[q + WORD..q + WORD + |r|] == tape[q..][WORD..] == r[..|r|] == r;
  }

  lemma PublishStorage(g: Geometry, store: Store, disk: Store, tape: seq<byte>, hw: nat, h: History, r: Record)
    requires g.Valid() && StorageKept(g, store, disk, tape, hw, h) == true
    requires PartHeld(g, tape, Boundary(g, h.log, |h.log|), r, |r|)
    ensures StorageKept(g, store, disk, tape, hw, h.(log := h.log + [r])) == true
    ensures |tape| == Boundary(g, h.log + [r], |h.log| + 1)
  {
    assert StorageKey(true);
    PartComplete(g, tape, Boundary(g, h.log, |h.log|), r);
    LogExtend(g, tape, tape, h.log, r);
    BoundaryKept(g, h.log, r, h.head);
    BoundaryKept(g, h.log, r, h.mark);
    BoundaryMonotone(g, h.log + [r], h.mark, |h.log| + 1);
  }

  lemma PublishReader(g: Geometry, reader: Reader, log: seq<Record>, head: nat, r: Record)
    requires g.Valid() && head <= |log| && ReaderKept(g, reader, log, head) == true
    ensures ReaderKept(g, reader, log + [r], head) == true
  {
    assert ReaderKey(true);
    if head < |log| {
      BoundaryKept(g, log, r, head);
      BoundaryKept(g, log, r, head + 1);
    }
  }

  lemma KeepsPutWriting(cfg: Config, s: State)
    requires Inv(cfg, s) && Enabled(cfg, s, PutWriting)
    ensures Inv(cfg, Apply(cfg, s, PutWriting))
  {
    var r := s.writer.data;
    assert WriterKey(true);
    PublishStorage(cfg.g, s.store, s.disk, s.tape, s.hw, s.h, r);
    PublishHistory(cfg, s.h, s.meta, s.diskMeta, s.offsets, r, s.writer.at);
    PublishReader(cfg.g, s.reader, s.h.log, s.h.head, r);
  }

  lemma KeepsWriteFails(cfg: Config, s: State)
    requires Inv(cfg, s) && Enabled(cfg, s, WriteFails)
    ensures Inv(cfg, Apply(cfg, s, WriteFails))
  {
    assert HistoryKey(true) && StorageKey(true);
    var g, end := cfg.g, End(cfg, s);
    var m := Boundary(g, s.h.log, s.h.mark);
    assert s.tape[..end][..m] == s.tape[..m];
    WindowTruncate(g, s.store, s.tape, end, s.hw);
    LogPrefix(g, s.tape, s.tape[..end], s.h.log, |s.h.log|);
    assert s.h.log[..|s.h.log|] == s.h.log;
  }

  lemma KeepsCheckEmpty(cfg: Config, s: State)
    requires Inv(cfg, s) && Enabled(cfg, s, CheckEmpty)
    ensures Inv(cfg, Apply(cfg, s, CheckEmpty))
  {
    assert HistoryKey(true);
    MarksInjective(cfg.g, s.h.log, s.meta.reading, s.h.head, s.meta.writing, |s.h.log|);
  }

  lemma KeepsGetLength(cfg: Config, s: State)
    requires Inv(cfg, s) && Enabled(cfg, s, GetLength)
    ensures Inv(cfg, StepGetLength(cfg.g, s))
  {
    assert HistoryKey(true) && StorageKey(true) && ReaderKey(true);
    var g := cfg.g;
    var p := Boundary(g, s.h.log, s.h.head);
    CursorUnique(g, s.meta.reading);
    SkipBounds(g, p);
    assert HoldsAt(g, s.tape, s.h.log, s.h.head);
    ReadBack(g, s.store, s.tape, s.hw, p, s.h.log[s.h.head]);
    AdvanceLinear(g, SkipCursor(g, s.meta.reading), WORD);
  }

  /** The bytes of a stored record from `k` on, as one chunk read sees them. */
  lemma ChunkOfRecord(g: Geometry, st: Store, tape: seq<byte>, hw: nat, p: nat, rec: Record, c: Cursor, k: nat, n: nat)
    requires g.Valid() && WellFormed(g, st) && Window(g, st, tape, hw) && Holds(g, tape, p, rec)
    requires hw <= p + g.Total() && k + n <= |rec|
    requires At(g, c, Skip(g, p) + WORD + k) && c.offset + n <= g.size
    ensures rec[..k] + st[Index(g, c.id)][c.offset..c.offset + n] == rec[..k + n]
  {
    var q := Skip(g, p) + WORD;
    SkipBounds(g, p);
    ChunkRead(g, st, c, n);
    SliceOfTape(g, st, tape, hw, q + k, n);
    SliceOfSlice(tape, q, rec, k, n);
  }

  lemma SliceOfSlice(t: seq<byte>, a: nat, r: seq<byte>, k: nat, n: nat)
    requires k + n <= |r| && a + |r| <= |t| && t[a..a + |r|] == r
    ensures r[..k] + t[a + k..a + k + n] == r[..k + n]
  {
    assert forall i :: 0 <= i < |r| ==> r[i] == t[a + i];
  }

  /** The reader's next place after a chunk of the record. */
  lemma ChunkReader(g: Geometry, r: Reader, log: seq<Record>, head: nat, d: seq<byte>)
    requires g.Valid() && head < |log| && r.RBytes? && ReaderKept(g, r, log, head) == true
    requires r.buf + d <= log[head] && r.at.offset + |d| <= g.size
    ensures ReaderKept(g, AfterChunk(g, r, d), log, head) == true
  {
    assert ReaderKey(true);
    AdvanceLinear(g, r.at, |d|);
  }

  lemma KeepsGetChunk(cfg: Config, s: State)
    requires Inv(cfg, s) && Enabled(cfg, s, GetChunk)
    ensures Inv(cfg, Apply(cfg, s, GetChunk))
  {
    assert ReaderKey(true);
    var r := s.reader;
    var n := Min(r.length - |r.buf|, cfg.g.size - r.at.offset);
    var d := s.store[Index(cfg.g, r.at.id)][r.at.offset..r.at.offset + n];
    ChunkIsNext(cfg, s, n);
    ChunkReader(cfg.g, r, s.h.log, s.h.head, d);
  }

  /** The next chunk at the reader's place continues the record. */
  lemma ChunkIsNext(cfg: Config, s: State, n: nat)
    requires Inv(cfg, s) && s.reader.RBytes?
    requires |s.reader.buf| + n <= s.reader.length && s.reader.at.offset + n <= cfg.g.size && s.h.head < |s.h.log|
    ensures var r := s.reader;
            r.buf + s.store[Index(cfg.g, r.at.id)][r.at.offset..r.at.offset + n] <= s.h.log[s.h.head]
  {
    assert ReaderKey(true);
    var r, rec := s.reader, s.h.log[s.h.head];
    assert r.buf == rec[..|r.buf|];
    ChunkOfHead(cfg.g, s.store, s.disk, s.tape, s.hw, s.h, r.at, |r.buf|, n);
  }

  lemma ChunkOfHead(g: Geometry, store: Store, disk: Store, tape: seq<byte>, hw: nat, h: History, c: Cursor, k: nat, n: nat)
    requires g.Valid() && WellFormed(g, store) && StorageKept(g, store, disk, tape, hw, h) == true
    requires h.head < |h.log| && k + n <= |h.log[h.head]| && c.offset + n <= g.size
    requires At(g, c, Skip(g, Boundary(g, h.log, h.head)) + WORD + k)
    ensures var rec := h.log[h.head]; rec[..k] + store[Index(g, c.id)][c.offset..c.offset + n] == rec[..k + n]
  {
    assert StorageKey(true);
    assert HoldsAt(g, tape, h.log, h.head);
    ChunkOfRecord(g, store, tape, hw, Boundary(g, h.log, h.head), h.log[h.head], c, k, n);
  }

  lemma KeepsPutReading(cfg: Config, s: State)
    requires Inv(cfg, s) && Enabled(cfg, s, PutReading)
    ensures Inv(cfg, StepPutReading(s))
  {
    assert ReaderKey(true);
    TakeWriter(cfg, s.writer, s.tape, s.h);
    TakeHistory(cfg, s.h, s.meta, s.diskMeta, s.offsets, s.reader.at);
    TakeStorage(cfg.g, s.store, s.disk, s.tape, s.hw, s.h);
  }

  lemma TakeStorage(g: Geometry, store: Store, disk: Store, tape: seq<byte>, hw: nat, h: History)
    requires g.Valid() && StorageKept(g, store, disk, tape, hw, h) == true && h.head < |h.log|
    ensures StorageKept(g, store, disk, tape, hw, h.(head := h.head + 1)) == true
  {
    assert StorageKey(true);
    BoundaryMonotone(g, h.log, h.head, h.head + 1);
  }

  /** The writer's room only grows when the reader moves on. */
  lemma TakeWriter(cfg: Config, w: Writer, tape: seq<byte>, h: History)
    requires cfg.Valid() && h.head < |h.log| && WriterKept(cfg, w, tape, h.log, h.head) == true
    ensures WriterKept(cfg, w, tape, h.log, h.head + 1) == true
  {
    assert WriterKey(true);
    BoundaryMonotone(cfg.g, h.log, h.head, h.head + 1);
  }

  lemma TakeHistory(cfg: Config, h: History, meta: Cursors, diskMeta: Cursors, offsets: seq<Cursor>, at: Cursor)
    requires cfg.Valid() && HistoryKept(cfg, h, meta, diskMeta, offsets) == true
    requires h.head < |h.log| && Marks(cfg.g, at, h.log, h.head + 1)
    ensures HistoryKept(cfg, h.(head := h.head + 1), meta.(reading := at), diskMeta, offsets + [at]) == true
  {
    assert HistoryKey(true);
  }

  lemma KeepsSync(cfg: Config, s: State, i: nat)
    requires Inv(cfg, s) && i < cfg.g.count
    ensures Inv(cfg, Apply(cfg, s, Sync(i)))
  {
    assert StorageKey(true);
    var m := Boundary(cfg.g, s.h.log, s.h.mark);
    WindowTruncate(cfg.g, s.store, s.tape, m, s.hw);
    MixWindow(cfg.g, s.disk[i := s.store[i]], s.disk, s.store, s.tape[..m], s.hw);
  }

  lemma KeepsFlush(cfg: Config, s: State)
    requires Inv(cfg, s) && Enabled(cfg, s, Flush)
    ensures Inv(cfg, Apply(cfg, s, Flush))
  {
    assert HistoryKey(true) && StorageKey(true);
    var h' := s.h.(mark := |s.h.log|, diskAcked := s.h.acked);
    var m := s.meta.(watermark := s.meta.writing);
    assert HistoryOk(cfg, h', m, m, s.offsets);
    assert StorageOk(cfg.g, s.store, s.store, s.tape, s.hw, h') by {
      WindowTruncate(cfg.g, s.store, s.tape, End(cfg, s), s.hw);
    }
  }

  lemma KeepsCrash(cfg: Config, s: State, store: Store)
    requires Inv(cfg, s) && Enabled(cfg, s, Crash(store))
    ensures Inv(cfg, Apply(cfg, s, Crash(store)))
  {
    assert HistoryKey(true) && StorageKey(true);
    var g, h := cfg.g, s.h;
    var m := Boundary(g, h.log, h.mark);
    var tape' := s.tape[..m];
    WindowTruncate(g, s.store, s.tape, m, s.hw);
    MixWindow(g, store, s.disk, s.store, tape', s.hw);
    LogPrefix(g, s.tape, tape', h.log, h.mark);
    BoundaryPrefix(g, h.log, h.mark, h.mark);
    BoundaryPrefix(g, h.log, h.mark, h.diskAcked);
    assert tape'[..m] == tape';
  }

  lemma KeepsAck(cfg: Config, s: State, i: nat)
    requires Inv(cfg, s) && Enabled(cfg, s, AckOffset(i))
    ensures Inv(cfg, StepAck(s, i))
  {
    AckHistory(cfg, s.h, s.meta, s.diskMeta, s.offsets, i);
  }

  lemma AckHistory(cfg: Config, h: History, meta: Cursors, diskMeta: Cursors, offsets: seq<Cursor>, i: nat)
    requires cfg.Valid() && Ordered(h) && HistoryKept(cfg, h, meta, diskMeta, offsets) == true
    requires i < |offsets| && h.acked <= h.base + i + 1
    ensures Ordered(h.(acked := h.base + i + 1))
    ensures HistoryKept(cfg, h.(acked := h.base + i + 1), meta.(committed := offsets[i]), diskMeta, offsets) == true
  {
    assert HistoryKey(true);
  }

  lemma InvStep(cfg: Config, s: State, a: Action)
    requires Inv(cfg, s) && Enabled(cfg, s, a)
    ensures Inv(cfg, Apply(cfg, s, a))
  {
    match a
    case CheckRoom(data) => KeepsCheckRoom(cfg, s, data);
    case PutLength => KeepsPutLength(cfg, s);
    case PutChunk => KeepsPutChunk(cfg, s);
    case PutWriting => KeepsPutWriting(cfg, s);
    case WriteFails => KeepsWriteFails(cfg, s);
    case CheckEmpty => KeepsCheckEmpty(cfg, s);
    case GetLength => KeepsGetLength(cfg, s);
    case GetChunk => KeepsGetChunk(cfg, s);
    case PutReading => KeepsPutReading(cfg, s);
    case ReadFails =>
    case AckOffset(i) => KeepsAck(cfg, s, i);
    case Sync(i) => KeepsSync(cfg, s, i);
    case Flush => KeepsFlush(cfg, s);
    case Crash(store) => KeepsCrash(cfg, s, store);
  }

  // ----- runs -----

  ghost predicate CanRun(cfg: Config, s: State, acts: seq<Action>)
    requires Inv(cfg, s)
    decreases |acts|
  {
    acts == [] ||
    (Enabled(cfg, s, acts[0]) && (InvStep(cfg, s, acts[0]); CanRun(cfg, Apply(cfg, s, acts[0]), acts[1..])))
  }

  /** Every state a run reaches keeps the invariant. */
  ghost function Final(cfg: Config, s: State, acts: seq<Action>): (t: State)
    requires Inv(cfg, s) && CanRun(cfg, s, acts)
    ensures Inv(cfg, t)
    decreases |acts|
  {
    if acts == [] then s else
    InvStep(cfg, s, acts[0]);
    Final(cfg, Apply(cfg, s, acts[0]), acts[1..])
  }

  /** The payloads whose enqueue completed during the run. */
  ghost function Accepted(cfg: Config, s: State, acts: seq<Action>): seq<Record>
    requires Inv(cfg, s) && CanRun(cfg, s, acts)
    decreases |acts|
  {
    if acts == [] then [] else
    InvStep(cfg, s, acts[0]);
    (if acts[0].PutWriting? then [s.writer.data] else []) + Accepted(cfg, Apply(cfg, s, acts[0]), acts[1..])
  }

  /** The byte strings dequeue returned during the run. */
  ghost function Delivered(cfg: Config, s: State, acts: seq<Action>): seq<Record>
    requires Inv(cfg, s) && CanRun(cfg, s, acts)
    decreases |acts|
  {
    if acts == [] then [] else
    InvStep(cfg, s, acts[0]);
    (if acts[0].PutReading? then [s.reader.buf] else []) + Delivered(cfg, Apply(cfg, s, acts[0]), acts[1..])
  }

  ghost function Pending(s: State): seq<Record>
    requires s.h.head <= |s.h.log|
  {
    s.h.log[s.h.head..]
  }

  /** A freshly created queue, whatever its files contain. */
  ghost function Fresh(store: Store): State {
    var c := Cursor(0, 0);
    var m := Cursors(c, c, c, c);
    State(store, m, WIdle, RIdle, store, m, [], History([], 0, 0, 0, 0, 0), [], 0)
  }

  lemma InvFresh(cfg: Config, store: Store)
    requires cfg.Valid() && WellFormed(cfg.g, store)
    ensures Inv(cfg, Fresh(store))
  {
  }

  /** What the reader publishes is the oldest pending record. */
  lemma ReadIsHead(cfg: Config, s: State)
    requires Inv(cfg, s) && s.reader.RPublish?
    ensures s.h.head < |s.h.log| && s.reader.buf == s.h.log[s.h.head]
  {
    assert ReaderKey(true);
  }

  /** Only publishing and reading change which records are pending. */
  lemma HistoryFrame(cfg: Config, s: State, a: Action)
    requires Inv(cfg, s) && Enabled(cfg, s, a) && !a.Crash?
    ensures var t := Apply(cfg, s, a);
            t.h.log == s.h.log + (if a.PutWriting? then [s.writer.data] else []) &&
            t.h.head == s.h.head + (if a.PutReading? then 1 else 0)
  {
  }

  lemma StepFifo(cfg: Config, s: State, a: Action)
    requires Inv(cfg, s) && Enabled(cfg, s, a) && !a.Crash?
    ensures var t := Apply(cfg, s, a);
            t.h.head <= |t.h.log| &&
            Pending(s) + (if a.PutWriting? then [s.writer.data] else []) ==
            (if a.PutReading? then [s.reader.buf] else []) + Pending(t)
  {
    HistoryFrame(cfg, s, a);
    if a.PutReading? {
      ReadIsHead(cfg, s);
      FromHead(s.h.log, s.h.head);
    } else if a.PutWriting? {
      FromLonger(s.h.log, s.h.head, s.writer.data);
    }
  }

  lemma FromHead(log: seq<Record>, head: nat)
    requires head < |log|
    ensures log[head..] + [] == [log[head]] + log[head + 1..]
  {
  }

  lemma FromLonger(log: seq<Record>, head: nat, r: Record)
    requires head <= |log|
    ensures log[head..] + [r] == [] + (log + [r])[head..]
  {
  }

  /** FIFO at the grain of chunks: what was pending followed by what was accepted is what was
      delivered followed by what is pending now, byte for byte and in order. */
  lemma {:induction false} Fifo(cfg: Config, s: State, acts: seq<Action>)
    requires Inv(cfg, s) && CanRun(cfg, s, acts)
    requires forall i :: 0 <= i < |acts| ==> !acts[i].Crash?
    ensures Pending(s) + Accepted(cfg, s, acts) == Delivered(cfg, s, acts) + Pending(Final(cfg, s, acts))
    decreases |acts|
  {
    if acts == [] {
    } else {
      StepFifo(cfg, s, acts[0]);
      InvStep(cfg, s, acts[0]);
      var t := Apply(cfg, s, acts[0]);
      Fifo(cfg, t, acts[1..]);
      var a := if acts[0].PutWriting? then [s.writer.data] else [];
      var d := if acts[0].PutReading? then [s.reader.buf] else [];
      var as', ds := Accepted(cfg, t, acts[1..]), Delivered(cfg, t, acts[1..]);
      Chained(Pending(s), a, as', d, Pending(t), ds, Pending(Final(cfg, t, acts[1..])));
    }
  }

  lemma Chained<T>(p: seq<T>, a: seq<T>, as': seq<T>, d: seq<T>, q: seq<T>, ds: seq<T>, f: seq<T>)
    requires p + a == d + q && q + as' == ds + f
    ensures p + (a + as') == (d + ds) + f
  {
    assert p + (a + as') == (p + a) + as' == d + (q + as') == d + (ds + f);
  }

  /** No step of either thread changes a byte between the reading and the writing cursor. */
  lemma UnreadBytesStable(cfg: Config, s: State, a: Action, p: nat)
    requires Inv(cfg, s) && Enabled(cfg, s, a) && !a.Crash?
    requires Linear(cfg.g, Apply(cfg, s, a).meta.reading) <= p < Linear(cfg.g, s.meta.writing)
    ensures WellFormed(cfg.g, Apply(cfg, s, a).store)
    ensures ByteAt(cfg.g, Apply(cfg, s, a).store, p) == ByteAt(cfg.g, s.store, p)
  {
    var t := Apply(cfg, s, a);
    InvStep(cfg, s, a);
    ReadingAdvances(cfg, s, a);
    assert HistoryKey(true) && StorageKey(true);
    assert s.tape[p] == t.tape[p];
    assert ByteAt(cfg.g, s.store, p) == s.tape[p];
    assert ByteAt(cfg.g, t.store, p) == t.tape[p];
  }

  lemma ReadingAdvances(cfg: Config, s: State, a: Action)
    requires Inv(cfg, s) && Enabled(cfg, s, a) && !a.Crash?
    ensures var t := Apply(cfg, s, a);
            Linear(cfg.g, s.meta.reading) <= Linear(cfg.g, t.meta.reading) &&
            s.hw <= t.hw && Agree(s.tape, t.tape, Linear(cfg.g, s.meta.writing))
  {
    assert HistoryKey(true) && StorageKey(true) && ReaderKey(true);
    if a.PutReading? {
      BoundaryMonotone(cfg.g, s.h.log, s.h.head, s.h.head + 1);
    }
  }

  /** The order of the four cursors, and emptiness as the code tests it. */
  lemma CursorOrder(cfg: Config, s: State)
    requires Inv(cfg, s)
    ensures Linear(cfg.g, s.meta.committed) <= Linear(cfg.g, s.meta.reading) <= Linear(cfg.g, s.meta.writing)
    ensures Linear(cfg.g, s.meta.watermark) <= Linear(cfg.g, s.meta.writing)
    ensures Linear(cfg.g, s.diskMeta.committed) <= Linear(cfg.g, s.diskMeta.watermark)
    ensures s.meta.reading == s.meta.writing <==> Pending(s) == []
  {
    assert HistoryKey(true);
    var g, h := cfg.g, s.h;
    BoundaryMonotone(g, h.log, h.acked, h.head);
    BoundaryMonotone(g, h.log, h.head, |h.log|);
    BoundaryMonotone(g, h.log, h.mark, |h.log|);
    BoundaryMonotone(g, h.log, h.diskAcked, h.mark);
    MarksInjective(g, h.log, s.meta.reading, h.head, s.meta.writing, |h.log|);
  }

  /** A reopened queue holds the flushed records that were not acknowledged on disk. */
  lemma Recovers(cfg: Config, s: State, store: Store)
    requires Inv(cfg, s) && MixOf(cfg.g, store, s.disk, s.store)
    requires s.hw <= Linear(cfg.g, s.diskMeta.committed) + cfg.g.Total()
    ensures Enabled(cfg, s, Crash(store))
    ensures var t := Apply(cfg, s, Crash(store));
            Inv(cfg, t) && Pending(t) == s.h.log[s.h.diskAcked..s.h.mark]
  {
    assert HistoryKey(true);
    KeepsCrash(cfg, s, store);
  }

  /** Closing flushes first, so nothing accepted is lost and nothing acknowledged comes back. */
  lemma RecoversAfterClose(cfg: Config, s: State)
    requires Inv(cfg, s) && s.hw <= Linear(cfg.g, s.meta.committed) + cfg.g.Total()
    ensures var t := Apply(cfg, s, Flush);
            Inv(cfg, t) && Enabled(cfg, t, Crash(s.store)) &&
            Pending(Apply(cfg, t, Crash(s.store))) == s.h.log[s.h.acked..]
  {
    assert HistoryKey(true) && StorageKey(true);
    KeepsFlush(cfg, s);
    Recovers(cfg, Apply(cfg, s, Flush), s.store);
    assert s.h.log[s.h.acked..|s.h.log|] == s.h.log[s.h.acked..];
  }

  /** The condition on recovery in terms of places: some byte written later has the place of a
      flushed, unacknowledged one exactly when there is such a byte and the writer has lapped the
      committed cursor on disk. */
  lemma RecoveryConditionExact(cfg: Config, s: State)
    requires Inv(cfg, s)
    ensures var c, m := Linear(cfg.g, s.diskMeta.committed), Linear(cfg.g, s.diskMeta.watermark);
            (exists p, q :: c <= p < m && p < q < s.hw && SamePlace(cfg.g, p, q)) <==>
            s.h.diskAcked < s.h.mark && s.hw > c + cfg.g.Total()
  {
    assert HistoryKey(true);
    var g, c, m := cfg.g, Linear(cfg.g, s.diskMeta.committed), Linear(cfg.g, s.diskMeta.watermark);
    BoundaryMonotone(g, s.h.log, s.h.diskAcked, s.h.mark);
    if s.h.diskAcked < s.h.mark && s.hw > c + g.Total() {
      SamePlaceTotal(g, c);
      MultipleAtLeast(g.count, g.size);
      assert c <= c < m && c < c + g.Total() < s.hw && SamePlace(g, c, c + g.Total());
    }
    forall p: nat, q: nat | c <= p < m && p < q < s.hw && SamePlace(g, p, q)
      ensures s.h.diskAcked < s.h.mark && s.hw > c + g.Total()
    {
      if q < p + g.Total() {
        SamePlaceNear(g, p, q);
      }
    }
  }

  /** What Initialize finds after the process was killed: the mapped files and page survive as
      they are, flushed or not. History, tape and high-water mark are what would have to explain
      them. */
  ghost function Killed(s: State, h: History, tape: seq<byte>, hw: nat): State {
    State(s.store, s.meta.(writing := s.meta.watermark, reading := s.meta.committed),
          WIdle, RIdle, s.disk, s.diskMeta, [], h, tape, hw)
  }

  /** The killed process comes up as a queue of exactly these records. */
  ghost predicate ComesUpWith(cfg: Config, s: State, records: seq<Record>) {
    exists h, tape, hw :: Inv(cfg, Killed(s, h, tape, hw)) && Pending(Killed(s, h, tape, hw)) == records
  }

  /** With the persisted committed cursor beyond the watermark a killed process never comes up as a
      queue: the reading cursor starts past the writing one, and the emptiness test, which only
      compares them for equality, does not notice. Otherwise it comes up with the flushed,
      unacknowledged records, if there are none or the writer has not lapped the first of them. */
  lemma KilledComesUp(cfg: Config, s: State)
    requires Inv(cfg, s)
    ensures s.h.acked <= s.h.mark <==> Linear(cfg.g, s.meta.committed) <= Linear(cfg.g, s.meta.watermark)
    ensures s.h.acked > s.h.mark ==> forall records :: !ComesUpWith(cfg, s, records)
    ensures s.h.acked == s.h.mark ==> ComesUpWith(cfg, s, [])
    ensures s.h.acked < s.h.mark && s.hw <= Linear(cfg.g, s.meta.committed) + cfg.g.Total() ==>
              ComesUpWith(cfg, s, s.h.log[s.h.acked..s.h.mark])
  {
    KilledOrder(cfg, s);
    if s.h.acked > s.h.mark {
      KilledBeyond(cfg, s);
    } else if s.h.acked == s.h.mark {
      KilledEmpty(cfg, s);
    } else if s.hw <= Linear(cfg.g, s.meta.committed) + cfg.g.Total() {
      KilledUnlapped(cfg, s);
    }
  }

  lemma KilledOrder(cfg: Config, s: State)
    requires Inv(cfg, s)
    ensures s.h.acked <= s.h.mark <==> Linear(cfg.g, s.meta.committed) <= Linear(cfg.g, s.meta.watermark)
    ensures Linear(cfg.g, s.meta.committed) == Boundary(cfg.g, s.h.log, s.h.acked)
  {
    assert HistoryKey(true);
    if s.h.acked <= s.h.mark {
      BoundaryMonotone(cfg.g, s.h.log, s.h.acked, s.h.mark);
    } else {
      BoundaryMonotone(cfg.g, s.h.log, s.h.mark, s.h.acked);
    }
  }

  lemma KilledEmpty(cfg: Config, s: State)
    requires Inv(cfg, s) && s.h.acked == s.h.mark
    ensures ComesUpWith(cfg, s, [])
  {
    KilledInOrder(cfg, s, Boundary(cfg.g, s.h.log, s.h.mark) + cfg.g.Total());
    assert s.h.log[s.h.acked..s.h.mark] == [];
  }

  lemma KilledUnlapped(cfg: Config, s: State)
    requires Inv(cfg, s) && s.h.acked <= s.h.mark && s.hw <= Linear(cfg.g, s.meta.committed) + cfg.g.Total()
    ensures ComesUpWith(cfg, s, s.h.log[s.h.acked..s.h.mark])
  {
    KilledOrder(cfg, s);
    assert Boundary(cfg.g, s.h.log, s.h.mark) <= s.hw by {
      assert StorageKey(true);
    }
    KilledInOrder(cfg, s, s.hw);
  }

  lemma KilledBeyond(cfg: Config, s: State)
    requires Linear(cfg.g, s.meta.committed) > Linear(cfg.g, s.meta.watermark)
    ensures forall records :: !ComesUpWith(cfg, s, records)
  {
    forall h, tape, hw | Inv(cfg, Killed(s, h, tape, hw))
      ensures false
    {
      CursorOrder(cfg, Killed(s, h, tape, hw));
    }
  }

  lemma KilledInOrder(cfg: Config, s: State, hw: nat)
    requires Inv(cfg, s) && s.h.acked <= s.h.mark
    requires Boundary(cfg.g, s.h.log, s.h.mark) <= hw <= Boundary(cfg.g, s.h.log, s.h.acked) + cfg.g.Total()
    requires hw >= s.hw || hw == Boundary(cfg.g, s.h.log, s.h.mark) + cfg.g.Total()
    ensures ComesUpWith(cfg, s, s.h.log[s.h.acked..s.h.mark])
  {
    assert HistoryKey(true) && StorageKey(true);
    var g, h := cfg.g, s.h;
    var m := Boundary(g, h.log, h.mark);
    var h' := History(h.log[..h.mark], h.acked, h.acked, h.acked, h.mark, h.diskAcked);
    WindowTruncate(g, s.store, s.tape, m, s.hw);
    LogPrefix(g, s.tape, s.tape[..m], h.log, h.mark);
    BoundaryPrefix(g, h.log, h.mark, h.mark);
    BoundaryPrefix(g, h.log, h.mark, h.acked);
    BoundaryPrefix(g, h.log, h.mark, h.diskAcked);
    assert s.tape[..m][..m] == s.tape[..m];
    var t := Killed(s, h', s.tape[..m], hw);
    assert Inv(cfg, t) && Pending(t) == h.log[h.acked..h.mark];
  }

  // ----- reachability -----

  ghost predicate Reaches(cfg: Config, s: State, t: State) {
    Inv(cfg, s) && Inv(cfg, t) && exists acts :: CanRun(cfg, s, acts) && Final(cfg, s, acts) == t
  }

  lemma {:induction false} RunAppend(cfg: Config, s: State, acts: seq<Action>, a: Action)
    requires Inv(cfg, s) && CanRun(cfg, s, acts) && Enabled(cfg, Final(cfg, s, acts), a)
    ensures CanRun(cfg, s, acts + [a])
    ensures Final(cfg, s, acts + [a]) == Apply(cfg, Final(cfg, s, acts), a)
    decreases |acts|
  {
    var all := acts + [a];
    if acts == [] {
      assert all[1..] == [];
      InvStep(cfg, s, a);
    } else {
      InvStep(cfg, s, acts[0]);
      assert all[0] == acts[0] && all[1..] == acts[1..] + [a];
      var t := Apply(cfg, s, acts[0]);
      assert CanRun(cfg, t, acts[1..]) && Final(cfg, t, acts[1..]) == Final(cfg, s, acts);
      RunAppend(cfg, t, acts[1..], a);
    }
  }

  lemma Reach(cfg: Config, s: State, t: State, a: Action)
    requires Reaches(cfg, s, t) && Enabled(cfg, t, a)
    ensures Reaches(cfg, s, Apply(cfg, t, a))
  {
    var acts :| CanRun(cfg, s, acts) && Final(cfg, s, acts) == t;
    RunAppend(cfg, s, acts, a);
    InvStep(cfg, t, a);
  }
}
