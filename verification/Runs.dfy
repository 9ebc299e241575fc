/** Whole operations as runs of single steps, and the runs in which recovery goes wrong. */
module Runs {
  import opened Bytes
  import opened Layout
  import opened Records
  import opened MmapQueue
  import opened Interleaving

  /** `t` is `s` with another writer, and what a writer changes before it publishes. */
  ghost predicate WriterMoved(s: State, t: State) {
    t == s.(writer := t.writer, store := t.store, tape := t.tape, hw := t.hw) && s.hw <= t.hw
  }

  /** What is still to be written, and where. */
  lemma ToWrite(cfg: Config, s: State)
    requires Inv(cfg, s) && s.writer.WBytes?
    ensures s.writer.at.offset < cfg.g.size && s.writer.done <= |s.writer.data|
  {
    assert WriterKey(true);
  }

  /** One chunk is written, and it was the last one exactly if the rest fitted in the segment. */
  lemma OneChunk(cfg: Config, s: State)
    requires Inv(cfg, s) && s.writer.WBytes? && s.writer.at.offset < cfg.g.size && s.writer.done <= |s.writer.data|
    ensures var t, rest := Apply(cfg, s, PutChunk), s.writer.data[s.writer.done..];
            var n := Fitting(cfg.g, s.writer.at, rest);
            t.store == ChunkOver(cfg.g, s.store, s.writer.at, rest[..n]) &&
            t.writer == AfterWrite(cfg.g, s.writer, n)
  {
    var rest := s.writer.data[s.writer.done..];
    var n := Fitting(cfg.g, s.writer.at, rest);
    assert rest[..n] == s.writer.data[s.writer.done..s.writer.done + n] == NextChunk(cfg.g, s.writer);
  }

  /** The chunks up to the last one. */
  lemma {:induction false} WritesAll(cfg: Config, x: State, s: State) returns (t: State)
    requires Reaches(cfg, x, s) && s.writer.WBytes?
    ensures s.writer.at.offset < cfg.g.size && s.writer.done <= |s.writer.data|
    ensures Reaches(cfg, x, t) && WriterMoved(s, t)
    ensures t.writer.WPublish? && t.writer.data == s.writer.data
    ensures t.store == BytesOver(cfg.g, s.store, s.writer.at, s.writer.data[s.writer.done..])
    decreases |s.writer.data| - s.writer.done
  {
    ToWrite(cfg, s);
    OneChunk(cfg, s);
    var u := Apply(cfg, s, PutChunk);
    Reach(cfg, x, s, PutChunk);
    if u.writer.WPublish? {
      t := u;
    } else {
      t := WritesAll(cfg, x, u);
      assert s.writer.data[s.writer.done..][u.writer.done - s.writer.done..] == s.writer.data[u.writer.done..];
    }
  }

  /** `t` is `s` once the record `data` was accepted. */
  ghost predicate AcceptedIn(s: State, t: State, data: Record) {
    && t == s.(store := t.store, tape := t.tape, hw := t.hw,
               meta := s.meta.(writing := t.meta.writing), h := s.h.(log := s.h.log + [data]))
    && s.hw <= t.hw
  }

  /** Enqueue as a run: whenever the queue is not full, an allowed event can be accepted. */
  lemma Enqueued(cfg: Config, x: State, s: State, data: Record) returns (t: State)
    requires Reaches(cfg, x, s) && s.writer.WIdle? && Enabled(cfg, s, CheckRoom(data))
    ensures Reaches(cfg, x, t) && AcceptedIn(s, t, data)
    ensures s.meta.writing.offset < cfg.g.size && t.store == RecordOver(cfg.g, s.store, s.meta.writing, data)
  {
    var u := WordPut(cfg, x, s, data);
    var v := WritesAll(cfg, x, u);
    assert data[0..] == data;
    Reach(cfg, x, v, PutWriting);
    t := Apply(cfg, v, PutWriting);
  }

  /** The fullness check and the length word. */
  lemma WordPut(cfg: Config, x: State, s: State, data: Record) returns (u: State)
    requires Reaches(cfg, x, s) && s.writer.WIdle? && Enabled(cfg, s, CheckRoom(data))
    ensures Reaches(cfg, x, u) && WriterMoved(s, u) && s.meta.writing.offset < cfg.g.size
    ensures u.writer == WBytes(data, 0, AfterWord(cfg.g, s.meta.writing))
    ensures u.store == WordOver(cfg.g, s.store, s.meta.writing, |data|) && s.tape <= u.tape
  {
    assert HistoryKey(true);
    Reach(cfg, x, s, CheckRoom(data));
    var a := Apply(cfg, s, CheckRoom(data));
    Reach(cfg, x, a, PutLength);
    u := Apply(cfg, a, PutLength);
  }

  /** `t` is `s` after a write that failed. */
  ghost predicate FailedIn(s: State, t: State) {
    t == s.(store := t.store, hw := t.hw) && s.hw <= t.hw
  }

  /** A write that fails, as a run, whatever it has stored by then. */
  lemma EnqueueFails(cfg: Config, x: State, s: State, data: Record, part: Store) returns (t: State)
    requires Reaches(cfg, x, s) && s.writer.WIdle? && Enabled(cfg, s, CheckRoom(data))
    requires s.meta.writing.offset < cfg.g.size && PartOver(cfg.g, s.store, s.meta.writing, data, part)
    ensures Reaches(cfg, x, t) && FailedIn(s, t) && t.store == part
  {
    AtEnd(cfg, s);
    if part == s.store {
      Reach(cfg, x, s, CheckRoom(data));
      var a := Apply(cfg, s, CheckRoom(data));
      Reach(cfg, x, a, WriteFails);
      t := Apply(cfg, a, WriteFails);
      assert s.tape[..|s.tape|] == s.tape;
    } else {
      var u := WordPut(cfg, x, s, data);
      assert data[0..] == data;
      t := ChunksFail(cfg, x, u, part);
      TapeKept(cfg, s, u);
    }
  }

  /** An idle writer has nothing on the tape beyond the log. */
  lemma AtEnd(cfg: Config, s: State)
    requires Inv(cfg, s) && s.writer.WIdle?
    ensures |s.tape| == End(cfg, s)
  {
    assert WriterKey(true);
  }

  lemma TapeKept(cfg: Config, s: State, u: State)
    requires Inv(cfg, s) && Inv(cfg, u) && s.writer.WIdle? && WriterMoved(s, u) && s.tape <= u.tape
    ensures End(cfg, u) <= |u.tape| && u.tape[..End(cfg, u)] == s.tape
  {
    AtEnd(cfg, s);
  }

  lemma {:induction false} ChunksFail(cfg: Config, x: State, s: State, part: Store) returns (t: State)
    requires Reaches(cfg, x, s) && s.writer.WBytes?
    requires s.writer.at.offset < cfg.g.size && s.writer.done <= |s.writer.data|
    requires SomeOver(cfg.g, s.store, s.writer.at, s.writer.data[s.writer.done..], part)
    ensures Reaches(cfg, x, t) && t.store == part && s.hw <= t.hw && End(cfg, s) <= |s.tape|
    ensures t == s.(writer := WIdle, store := t.store, hw := t.hw, tape := s.tape[..End(cfg, s)])
    decreases |s.writer.data| - s.writer.done
  {
    PublishedOnTape(cfg, s);
    if part == s.store {
      Reach(cfg, x, s, WriteFails);
      t := Apply(cfg, s, WriteFails);
    } else {
      OneChunk(cfg, s);
      var u := Apply(cfg, s, PutChunk);
      Reach(cfg, x, s, PutChunk);
      ToWrite(cfg, u);
      assert s.writer.data[s.writer.done..][u.writer.done - s.writer.done..] == s.writer.data[u.writer.done..];
      t := ChunksFail(cfg, x, u, part);
      assert u.tape[..End(cfg, s)] == s.tape[..End(cfg, s)];
    }
  }

  lemma PublishedOnTape(cfg: Config, s: State)
    requires Inv(cfg, s)
    ensures End(cfg, s) <= |s.tape|
  {
    assert StorageKey(true);
  }

  lemma {:induction false} ReadsAll(cfg: Config, x: State, s: State) returns (t: State)
    requires Reaches(cfg, x, s) && s.reader.RBytes?
    ensures Reaches(cfg, x, t) && t == s.(reader := t.reader) && t.reader.RPublish?
    decreases s.reader.length - |s.reader.buf|
  {
    assert ReaderKey(true);
    var u := Apply(cfg, s, GetChunk);
    Reach(cfg, x, s, GetChunk);
    if u.reader.RPublish? {
      t := u;
    } else {
      t := ReadsAll(cfg, x, u);
    }
  }

  /** `t` is `s` once its oldest record was handed out. */
  ghost predicate TakenIn(s: State, t: State) {
    && |t.offsets| == |s.offsets| + 1 && t.offsets[..|s.offsets|] == s.offsets
    && t == s.(offsets := t.offsets, meta := s.meta.(reading := t.meta.reading), h := s.h.(head := s.h.head + 1))
  }

  /** Dequeue as a run: whenever something is pending, the oldest record can be handed out. */
  lemma Dequeued(cfg: Config, x: State, s: State) returns (t: State)
    requires Reaches(cfg, x, s) && s.reader.RIdle? && s.h.head < |s.h.log|
    ensures Reaches(cfg, x, t) && TakenIn(s, t)
  {
    CursorOrder(cfg, s);
    Reach(cfg, x, s, CheckEmpty);
    var u := Apply(cfg, s, CheckEmpty);
    Reach(cfg, x, u, GetLength);
    var v := ReadsAll(cfg, x, Apply(cfg, u, GetLength));
    Reach(cfg, x, v, PutReading);
    t := Apply(cfg, v, PutReading);
  }

  /** A read that fails, at its length or at any of its chunks, is a run that changes nothing. */
  lemma DequeueFails(cfg: Config, x: State, s: State, worded: bool) returns (u: State)
    requires Reaches(cfg, x, s) && s.reader.RIdle? && s.h.head < |s.h.log|
    ensures Reaches(cfg, x, u) && (u.reader.RBytes? <==> worded) && u == s.(reader := u.reader)
    ensures Enabled(cfg, u, ReadFails) && Reaches(cfg, x, Apply(cfg, u, ReadFails)) && Apply(cfg, u, ReadFails) == s
  {
    CursorOrder(cfg, s);
    Reach(cfg, x, s, CheckEmpty);
    u := Apply(cfg, s, CheckEmpty);
    if worded {
      Reach(cfg, x, u, GetLength);
      u := Apply(cfg, u, GetLength);
    }
    Reach(cfg, x, u, ReadFails);
  }

  // ----- acknowledgements can overtake the watermark -----

  /** From any freshly created queue that is not full at once: one event written, read and
      acknowledged before the first flush leaves the committed cursor beyond the watermark. */
  lemma AckOvertakesFlush(cfg: Config, store: Store) returns (t: State)
    requires cfg.Valid() && WellFormed(cfg.g, store) && !Full(cfg.g, cfg.maxEventSize, 0, 0)
    ensures Reaches(cfg, Fresh(store), t) && t.h.acked > t.h.mark
  {
    var x := Begun(cfg, store);
    var s := Enqueued(cfg, x, x, []);
    var u := Dequeued(cfg, x, s);
    Reach(cfg, x, u, AckOffset(0));
    t := Apply(cfg, u, AckOffset(0));
  }

  lemma Begun(cfg: Config, store: Store) returns (x: State)
    requires cfg.Valid() && WellFormed(cfg.g, store)
    ensures x == Fresh(store) && Reaches(cfg, x, x)
  {
    x := Fresh(store);
    InvFresh(cfg, store);
    assert CanRun(cfg, x, []) && Final(cfg, x, []) == x;
  }

  // ----- the writer can lap the committed cursor -----

  /** Both threads idle and nothing pending. */
  predicate AtRest(s: State) {
    s.writer.WIdle? && s.reader.RIdle? && s.h.head == |s.h.log|
  }

  /** An empty event goes in and out of a queue at rest. */
  lemma Passes(cfg: Config, x: State, s: State) returns (t: State)
    requires Reaches(cfg, x, s) && AtRest(s) && !Full(cfg.g, cfg.maxEventSize, 0, 0)
    ensures Reaches(cfg, x, t) && AtRest(t) && t.h == s.h.(log := s.h.log + [[]], head := s.h.head + 1)
    ensures t.diskMeta == s.diskMeta
  {
    CursorOrder(cfg, s);
    var u := Enqueued(cfg, x, s, []);
    t := Dequeued(cfg, x, u);
  }

  /** Where the next length word goes is inside the ring as long as the end of the log is. */
  lemma NextWord(g: Geometry, p: nat)
    requires g.Valid() && p <= g.Total()
    ensures Skip(g, p) <= g.Total()
    ensures Skip(g, p) < g.Total() ==> Skip(g, p) + WORD <= g.Total()
  {
    SkipBounds(g, p);
    if p < g.Total() {
      SegmentInRing(g, p);
    } else {
      CursorUnique(g, Cursor(g.count, 0));
    }
    if Skip(g, p) < g.Total() {
      SegmentInRing(g, Skip(g, p));
    }
  }

  lemma SegmentInRing(g: Geometry, p: nat)
    requires g.Valid() && p < g.Total()
    ensures Linear(g, Cursor(CursorOf(g, p).id + 1, 0)) <= g.Total()
    ensures Linear(g, Cursor(CursorOf(g, p).id + 1, 0)) == p - CursorOf(g, p).offset + g.size
  {
    var c := CursorOf(g, p);
    assert (c.id + 1) * g.size == c.id * g.size + g.size;
    if c.id >= g.count {
      MultipleAtLeast(c.id - g.count + 1, g.size);
    } else {
      MultipleAtLeast(g.count - c.id, g.size);
      assert (g.count - c.id) * g.size == g.size * g.count - c.id * g.size;
    }
  }

  /** Empty events pass until the next length word goes exactly one ring beyond the start. */
  lemma {:induction false} Laps(cfg: Config, x: State, s: State) returns (t: State)
    requires Reaches(cfg, x, s) && AtRest(s) && !Full(cfg.g, cfg.maxEventSize, 0, 0)
    requires End(cfg, s) <= cfg.g.Total()
    ensures Reaches(cfg, x, t) && AtRest(t) && t.diskMeta == s.diskMeta
    ensures s.h.log <= t.h.log && t.h == s.h.(log := t.h.log, head := t.h.head)
    ensures Skip(cfg.g, End(cfg, t)) == cfg.g.Total() && End(cfg, t) <= cfg.g.Total()
    decreases cfg.g.Total() - End(cfg, s)
  {
    NextWord(cfg.g, End(cfg, s));
    if Skip(cfg.g, End(cfg, s)) == cfg.g.Total() {
      t := s;
    } else {
      var u := Passes(cfg, x, s);
      BoundaryKept(cfg.g, s.h.log, [], |s.h.log|);
      SkipBounds(cfg.g, End(cfg, s));
      t := Laps(cfg, x, u);
    }
  }

  /** The length word a reopened queue finds at its reading cursor. */
  ghost function FirstLength(cfg: Config, s: State, store: Store): nat
    requires cfg.Valid() && WellFormed(cfg.g, store)
  {
    FromWord(Slice(cfg.g, store, Skip(cfg.g, Linear(cfg.g, s.diskMeta.committed)), WORD))
  }

  /** A run in which a flushed, unacknowledged record is overwritten: its first byte is gone, and
      a queue reopened from these files would hand out an empty record in its place. */
  lemma LappedRun(cfg: Config, store: Store) returns (t: State)
    requires cfg.Valid() && WellFormed(cfg.g, store)
    requires !Full(cfg.g, cfg.maxEventSize, 0, 0) && cfg.maxEventSize >= 1
    ensures Reaches(cfg, Fresh(store), t) && t.h.acked == t.h.diskAcked == 0 < t.h.mark && t.h.log[0] == [1]
    ensures t.diskMeta.committed == Cursor(0, 0) && t.hw > cfg.g.Total()
    ensures 0 < |t.tape| && ByteAt(cfg.g, t.store, 0) != t.tape[0]
    ensures FirstLength(cfg, t, t.store) == 0
  {
    var x := Begun(cfg, store);
    var s := Enqueued(cfg, x, x, [1]);
    Reach(cfg, x, s, Flush);
    var u := Dequeued(cfg, x, Apply(cfg, s, Flush));
    FirstEnds(cfg, u);
    var v := Laps(cfg, x, u);
    CursorOrder(cfg, v);
    t := Enqueued(cfg, x, v, []);
    assert t.h.log == v.h.log + [[]];
    Overwritten(cfg, v, t);
  }

  lemma FirstEnds(cfg: Config, s: State)
    requires Inv(cfg, s) && s.h.log == [[1]] && !Full(cfg.g, cfg.maxEventSize, 0, 0)
    ensures End(cfg, s) <= cfg.g.Total()
  {
    NotFull(cfg.g, cfg.maxEventSize, 0, 0);
    CursorUnique(cfg.g, Cursor(0, 0));
    assert Boundary(cfg.g, s.h.log, 0) == 0 && End(cfg, s) == WORD + 1;
    MultipleAtLeast(cfg.g.count - 1, cfg.g.size);
    assert (cfg.g.count - 1) * cfg.g.size == cfg.g.size * cfg.g.count - cfg.g.size;
  }

  /** The empty record one ring beyond the first one has its place. */
  lemma Overwritten(cfg: Config, v: State, t: State)
    requires Inv(cfg, v) && Inv(cfg, t) && AtRest(v) && AcceptedIn(v, t, [])
    requires |v.h.log| >= 1 && v.h.log[0] == [1] && v.h.diskAcked == 0
    requires Skip(cfg.g, End(cfg, v)) == cfg.g.Total() && End(cfg, v) <= cfg.g.Total()
    ensures t.hw > cfg.g.Total() && t.diskMeta.committed == Cursor(0, 0)
    ensures 0 < |t.tape| && ByteAt(cfg.g, t.store, 0) != t.tape[0]
    ensures FirstLength(cfg, t, t.store) == 0
  {
    var g, k := cfg.g, |v.h.log|;
    BoundaryKept(g, v.h.log, [], k);
    WordStored(cfg, t, 0);
    WordStored(cfg, t, k);
    CommittedAtStart(cfg, t);
    CursorUnique(g, Cursor(0, 0));
    OneRingOn(g, t.store, WORD);
    WordsDiffer(g, t.store, t.tape);
  }

  /** An empty record's word in the files where the tape has that of a record of one byte. */
  lemma WordsDiffer(g: Geometry, st: Store, tape: seq<byte>)
    requires g.Valid() && WellFormed(g, st) && WORD <= |tape|
    requires tape[0..WORD] == ToWord(1) && Slice(g, st, 0, WORD) == ToWord(0)
    ensures ByteAt(g, st, 0) != tape[0] && FromWord(Slice(g, st, 0, WORD)) == 0
  {
    WordRoundTrip(0);
    assert tape[0] == tape[0..WORD][0] == ToWord(1)[0];
    assert ByteAt(g, st, 0) == Slice(g, st, 0, WORD)[0] == ToWord(0)[0];
  }

  lemma CommittedAtStart(cfg: Config, t: State)
    requires Inv(cfg, t) && t.h.diskAcked == 0
    ensures t.diskMeta.committed == Cursor(0, 0)
  {
    assert HistoryKey(true);
    CursorUnique(cfg.g, t.diskMeta.committed);
    CursorUnique(cfg.g, Cursor(0, 0));
  }

  /** The length word of record `k` on the tape, and in the files as long as it is not lapped. */
  lemma WordStored(cfg: Config, t: State, k: nat)
    requires Inv(cfg, t) && k < |t.h.log|
    ensures var q := Skip(cfg.g, Boundary(cfg.g, t.h.log, k));
            q + WORD <= |t.tape| <= t.hw && t.tape[q..q + WORD] == ToWord(|t.h.log[k]|) &&
            (t.h.head <= k ==> Slice(cfg.g, t.store, q, WORD) == ToWord(|t.h.log[k]|))
  {
    assert StorageKey(true);
    var g := cfg.g;
    assert HoldsAt(g, t.tape, t.h.log, k);
    if t.h.head <= k {
      BoundaryMonotone(g, t.h.log, t.h.head, k);
      SkipBounds(g, Boundary(g, t.h.log, k));
      SliceOfTape(g, t.store, t.tape, t.hw, Skip(g, Boundary(g, t.h.log, k)), WORD);
    }
  }

  lemma OneRingOn(g: Geometry, st: Store, n: nat)
    requires g.Valid() && WellFormed(g, st)
    ensures Slice(g, st, 0, n) == Slice(g, st, g.Total(), n)
  {
    forall i: nat | i < n
      ensures ByteAt(g, st, i) == ByteAt(g, st, g.Total() + i)
    {
      SamePlaceTotal(g, i);
    }
  }
}
