/** When every crash can be recovered from. */
module Recovery {
  import opened Bytes
  import opened Layout
  import opened Records
  import opened MmapQueue
  import opened Interleaving
  import opened Runs

  /** Every flushed, unacknowledged byte is in its place in these files. */
  ghost predicate Intact(cfg: Config, s: State, store: Store)
    requires cfg.Valid() && WellFormed(cfg.g, store)
  {
    forall p: nat :: Linear(cfg.g, s.diskMeta.committed) <= p < Linear(cfg.g, s.diskMeta.watermark) && p < |s.tape|
      ==> ByteAt(cfg.g, store, p) == s.tape[p]
  }

  /** Whatever a machine crash now leaves of the files, they are intact. */
  ghost predicate SafeCrash(cfg: Config, s: State)
    requires Inv(cfg, s)
  {
    forall store :: MixOf(cfg.g, store, s.disk, s.store) ==> Intact(cfg, s, store)
  }

  /** A writer that has not lapped the committed cursor on disk leaves the files intact. */
  lemma UnlappedSafe(cfg: Config, s: State)
    requires Inv(cfg, s) && s.hw <= Linear(cfg.g, s.diskMeta.committed) + cfg.g.Total()
    ensures SafeCrash(cfg, s)
  {
    assert HistoryKey(true) && StorageKey(true);
    var m := Boundary(cfg.g, s.h.log, s.h.mark);
    forall store | MixOf(cfg.g, store, s.disk, s.store)
      ensures Intact(cfg, s, store)
    {
      WindowTruncate(cfg.g, s.store, s.tape, m, s.hw);
      MixWindow(cfg.g, store, s.disk, s.store, s.tape[..m], s.hw);
    }
  }

  /** In no run of a new queue, whatever its files held, can a crash do damage. */
  ghost predicate AlwaysRecovers(cfg: Config)
    requires cfg.Valid()
  {
    forall store, s :: WellFormed(cfg.g, store) && Reaches(cfg, Fresh(store), s) ==> SafeCrash(cfg, s)
  }

  /** That is so exactly for the queues that never accept an event and for those that only accept
      empty ones; every other queue has a run after which a crash loses a flushed record. */
  lemma AlwaysRecoversIff(cfg: Config)
    requires cfg.Valid()
    ensures AlwaysRecovers(cfg) <==> Full(cfg.g, cfg.maxEventSize, 0, 0) || cfg.maxEventSize == 0
  {
    if Full(cfg.g, cfg.maxEventSize, 0, 0) || cfg.maxEventSize == 0 {
      forall store, s | WellFormed(cfg.g, store) && Reaches(cfg, Fresh(store), s)
        ensures SafeCrash(cfg, s)
      {
        var acts :| CanRun(cfg, Fresh(store), acts) && Final(cfg, Fresh(store), acts) == s;
        if cfg.maxEventSize == 0 {
          CalmRun(cfg, Fresh(store), acts);
          CalmSafe(cfg, s);
        } else {
          QuietRun(cfg, Fresh(store), acts);
          QuietSafe(cfg, s);
        }
      }
    } else {
      var store := seq(cfg.g.count, _ => seq(cfg.g.size, _ => 0));
      var t := LappedRun(cfg, store);
      LappedUnsafe(cfg, t);
    }
  }

  lemma LappedUnsafe(cfg: Config, t: State)
    requires Inv(cfg, t) && t.h.diskAcked == 0 < t.h.mark && t.diskMeta.committed == Cursor(0, 0)
    requires 0 < |t.tape| && ByteAt(cfg.g, t.store, 0) != t.tape[0]
    ensures !SafeCrash(cfg, t)
  {
    assert HistoryKey(true);
    BoundaryMonotone(cfg.g, t.h.log, 0, t.h.mark);
    assert MixOf(cfg.g, t.store, t.disk, t.store);
    assert !Intact(cfg, t, t.store);
  }

  // ----- a queue that is always full -----

  predicate Quiet(s: State) {
    s.h.log == [] && s.writer.WIdle?
  }

  lemma QuietStep(cfg: Config, s: State, a: Action)
    requires Inv(cfg, s) && Enabled(cfg, s, a) && Quiet(s) && Full(cfg.g, cfg.maxEventSize, 0, 0)
    ensures Quiet(Apply(cfg, s, a))
  {
    if a.CheckRoom? {
      CursorOrder(cfg, s);
    }
  }

  lemma {:induction false} QuietRun(cfg: Config, s: State, acts: seq<Action>)
    requires Inv(cfg, s) && CanRun(cfg, s, acts) && Quiet(s) && Full(cfg.g, cfg.maxEventSize, 0, 0)
    ensures Quiet(Final(cfg, s, acts))
    decreases |acts|
  {
    if acts == [] {
    } else {
      QuietStep(cfg, s, acts[0]);
      InvStep(cfg, s, acts[0]);
      QuietRun(cfg, Apply(cfg, s, acts[0]), acts[1..]);
    }
  }

  lemma QuietSafe(cfg: Config, s: State)
    requires Inv(cfg, s) && Quiet(s)
    ensures SafeCrash(cfg, s)
  {
    assert HistoryKey(true);
  }

  // ----- a queue of empty events -----

  /** The files show the first `n` bytes of the tape, however often the ring was lapped. */
  ghost predicate Shows(g: Geometry, st: Store, tape: seq<byte>, n: nat)
    requires g.Valid() && WellFormed(g, st)
  {
    forall p: nat :: p < n && p < |tape| ==> ByteAt(g, st, p) == tape[p]
  }

  /** The part of a segment that words can fill. */
  predicate WordPlace(g: Geometry, offset: nat) {
    offset < g.size - g.size % WORD
  }

  ghost predicate Zeroed(g: Geometry, tape: seq<byte>)
    requires g.Valid()
  {
    forall p: nat :: p < |tape| && WordPlace(g, CursorOf(g, p).offset) ==> tape[p] == 0
  }

  /** The files show the whole tape, the synced ones as far as the watermark. */
  ghost predicate CalmFiles(g: Geometry, st: Store, disk: Store, tape: seq<byte>, n: nat)
    requires g.Valid()
  {
    && WellFormed(g, st) && WellFormed(g, disk) && n <= |tape|
    && Shows(g, st, tape, |tape|) && Shows(g, disk, tape, n) && Zeroed(g, tape)
  }

  ghost predicate Calm(cfg: Config, s: State)
    requires cfg.Valid()
  {
    && CalmFiles(cfg.g, s.store, s.disk, s.tape, Linear(cfg.g, s.diskMeta.watermark)) == true
    && (s.writer.WIdle? || s.writer.data == [])
  }

  /** Records without payload leave the writer on a multiple of the word size. */
  lemma {:induction false} EmptyOffset(g: Geometry, log: seq<Record>, k: nat)
    requires g.Valid() && AllFit(log, 0) && k <= |log|
    ensures CursorOf(g, Boundary(g, log, k)).offset % WORD == 0
  {
    if k == 0 {
      CursorUnique(g, Cursor(0, 0));
    } else {
      EmptyOffset(g, log, k - 1);
      WordOffset(g, Boundary(g, log, k - 1));
    }
  }

  lemma WordOffset(g: Geometry, p: nat)
    requires g.Valid() && CursorOf(g, p).offset % WORD == 0
    ensures CursorOf(g, Next(g, p, 0)).offset % WORD == 0
  {
    SkipBounds(g, p);
    var c := SkipCursor(g, CursorOf(g, p));
    AdvanceLinear(g, c, WORD);
    CursorUnique(g, Advance(g, c, WORD));
  }

  /** A word of zeros on a word place changes nothing that was shown. */
  lemma ZeroWord(g: Geometry, st: Store, tape: seq<byte>, c: Cursor)
    requires g.Valid() && WellFormed(g, st) && Shows(g, st, tape, |tape|) && Zeroed(g, tape)
    requires At(g, c, |tape|) && c.offset % WORD == 0 && c.offset + WORD <= g.size
    ensures var st' := st[Index(g, c.id) := Patched(st[Index(g, c.id)], c.offset, ToWord(0))];
            WellFormed(g, st') && Shows(g, st', tape + ToWord(0), |tape| + WORD) && Zeroed(g, tape + ToWord(0))
  {
    var i := Index(g, c.id);
    var st' := st[i := Patched(st[i], c.offset, ToWord(0))];
    ZeroBytes();
    forall p: nat | p < |tape + ToWord(0)|
      ensures ByteAt(g, st', p) == (tape + ToWord(0))[p]
    {
      if p >= |tape| {
        Inside(g, c, p - |tape|);
      } else {
        ZeroedPlace(g, st, tape, c, p);
      }
    }
    forall p: nat | p < |tape + ToWord(0)| && WordPlace(g, CursorOf(g, p).offset)
      ensures (tape + ToWord(0))[p] == 0
    {
      assert p >= |tape| ==> (tape + ToWord(0))[p] == ToWord(0)[p - |tape|];
    }
  }

  lemma ZeroedPlace(g: Geometry, st: Store, tape: seq<byte>, c: Cursor, p: nat)
    requires g.Valid() && WellFormed(g, st) && Shows(g, st, tape, |tape|) && Zeroed(g, tape) && p < |tape|
    requires c.offset % WORD == 0 && c.offset + WORD <= g.size
    requires forall i :: 0 <= i < WORD ==> ToWord(0)[i] == 0
    ensures var st' := st[Index(g, c.id) := Patched(st[Index(g, c.id)], c.offset, ToWord(0))];
            WellFormed(g, st') && ByteAt(g, st', p) == tape[p]
  {
    assert ByteAt(g, st, p) == tape[p];
    var e := CursorOf(g, p);
    if Index(g, e.id) == Index(g, c.id) && c.offset <= e.offset < c.offset + WORD {
      assert WordPlace(g, e.offset);
    }
  }

  lemma ZeroBytes()
    ensures forall i :: 0 <= i < WORD ==> ToWord(0)[i] == 0
  {
    assert ToWord(0) == [0, 0, 0, 0, 0, 0, 0, 0];
  }

  /** The bytes a skipped word leaves behind are shown as they are, and are no word place. */
  lemma PadShown(g: Geometry, st: Store, tape: seq<byte>, w: Cursor)
    requires g.Valid() && WellFormed(g, st) && Shows(g, st, tape, |tape|) && Zeroed(g, tape)
    requires At(g, w, |tape|) && w.offset % WORD == 0 && w.offset + WORD > g.size
    ensures var pad := st[Index(g, w.id)][w.offset..]; Shows(g, st, tape + pad, |tape + pad|) && Zeroed(g, tape + pad)
  {
    var pad := st[Index(g, w.id)][w.offset..];
    forall p: nat | p < |tape + pad|
      ensures ByteAt(g, st, p) == (tape + pad)[p]
      ensures WordPlace(g, CursorOf(g, p).offset) ==> (tape + pad)[p] == 0
    {
      if p >= |tape| {
        Inside(g, w, p - |tape|);
        assert !WordPlace(g, w.offset + (p - |tape|));
      }
    }
  }

  /** A length word of zeros, after the bytes that a skip leaves behind. */
  lemma CalmWord(g: Geometry, st: Store, disk: Store, tape: seq<byte>, n: nat, w: Cursor)
    requires g.Valid() && CalmFiles(g, st, disk, tape, n) && At(g, w, |tape|) && w.offset % WORD == 0
    ensures var c := SkipCursor(g, w);
            var pad := if c == w then [] else st[Index(g, w.id)][w.offset..];
            c.offset + WORD <= g.size &&
            CalmFiles(g, st[Index(g, c.id) := Patched(st[Index(g, c.id)], c.offset, ToWord(0))], disk,
                      tape + pad + ToWord(0), n) == true
  {
    CursorUnique(g, w);
    SkipBounds(g, |tape|);
    var c := SkipCursor(g, w);
    if c == w {
      assert tape + [] == tape;
      ZeroWord(g, st, tape + [], c);
    } else {
      var pad := st[Index(g, w.id)][w.offset..];
      PadShown(g, st, tape, w);
      AdvanceLinear(g, w, |pad|);
      ZeroWord(g, st, tape + pad, c);
    }
  }

  lemma CalmPutLength(cfg: Config, s: State)
    requires Inv(cfg, s) && Calm(cfg, s) && s.writer == WLength([]) && cfg.maxEventSize == 0
    ensures Calm(cfg, Apply(cfg, s, PutLength))
  {
    assert HistoryKey(true) && WriterKey(true);
    EmptyOffset(cfg.g, s.h.log, |s.h.log|);
    CursorUnique(cfg.g, s.meta.writing);
    CalmWord(cfg.g, s.store, s.disk, s.tape, Linear(cfg.g, s.diskMeta.watermark), s.meta.writing);
  }

  lemma CalmPrefix(g: Geometry, st: Store, disk: Store, tape: seq<byte>, n: nat, m: nat)
    requires g.Valid() && CalmFiles(g, st, disk, tape, n) && n <= m <= |tape|
    ensures CalmFiles(g, st, disk, tape[..m], n) == true
  {
  }

  /** Any mixture of the synced and the written files shows the tape up to the watermark. */
  lemma CalmMix(g: Geometry, store: Store, st: Store, disk: Store, tape: seq<byte>, n: nat)
    requires g.Valid() && CalmFiles(g, st, disk, tape, n) && MixOf(g, store, disk, st)
    ensures CalmFiles(g, store, store, tape[..n], n) == true
  {
    forall p: nat | p < n
      ensures ByteAt(g, store, p) == tape[p]
    {
      assert ByteAt(g, disk, p) == tape[p] && ByteAt(g, st, p) == tape[p];
    }
  }

  lemma CalmPutChunk(cfg: Config, s: State)
    requires Inv(cfg, s) && Calm(cfg, s) && s.writer.WBytes?
    ensures Calm(cfg, Apply(cfg, s, PutChunk))
  {
    assert WriterKey(true);
    NothingWritten(s.store, Index(cfg.g, s.writer.at.id), s.writer.at.offset);
    assert NextChunk(cfg.g, s.writer) == [];
    assert s.tape + [] == s.tape;
  }

  lemma NothingWritten(st: Store, i: nat, offset: nat)
    requires i < |st| && offset <= |st[i]|
    ensures st[i := Patched(st[i], offset, [])] == st
  {
    assert Patched(st[i], offset, []) == st[i];
  }

  lemma CalmWriteFails(cfg: Config, s: State)
    requires Inv(cfg, s) && Calm(cfg, s) && Enabled(cfg, s, WriteFails)
    ensures Calm(cfg, Apply(cfg, s, WriteFails))
  {
    assert HistoryKey(true) && StorageKey(true);
    CalmPrefix(cfg.g, s.store, s.disk, s.tape, Linear(cfg.g, s.diskMeta.watermark), Boundary(cfg.g, s.h.log, |s.h.log|));
  }

  lemma CalmSync(g: Geometry, st: Store, disk: Store, tape: seq<byte>, n: nat, i: nat)
    requires g.Valid() && CalmFiles(g, st, disk, tape, n) && i < g.count
    ensures CalmFiles(g, st, disk[i := st[i]], tape, n) == true
  {
    forall p: nat | p < n
      ensures ByteAt(g, disk[i := st[i]], p) == tape[p]
    {
      assert ByteAt(g, disk, p) == tape[p] && ByteAt(g, st, p) == tape[p];
    }
  }

  lemma CalmFlush(cfg: Config, s: State)
    requires Inv(cfg, s) && Calm(cfg, s)
    ensures Calm(cfg, Apply(cfg, s, Flush))
  {
    assert Linear(cfg.g, s.meta.writing) <= |s.tape| by {
      assert HistoryKey(true) && StorageKey(true);
    }
  }

  lemma CalmCrash(cfg: Config, s: State, store: Store)
    requires Inv(cfg, s) && Calm(cfg, s) && Enabled(cfg, s, Crash(store))
    ensures Calm(cfg, Apply(cfg, s, Crash(store)))
  {
    assert HistoryKey(true);
    CalmMix(cfg.g, store, s.store, s.disk, s.tape, Linear(cfg.g, s.diskMeta.watermark));
  }

  lemma CalmStep(cfg: Config, s: State, a: Action)
    requires Inv(cfg, s) && Enabled(cfg, s, a) && Calm(cfg, s) && cfg.maxEventSize == 0
    ensures Calm(cfg, Apply(cfg, s, a))
  {
    match a
    case PutLength => CalmPutLength(cfg, s);
    case PutChunk => CalmPutChunk(cfg, s);
    case WriteFails => CalmWriteFails(cfg, s);
    case Sync(i) => CalmSync(cfg.g, s.store, s.disk, s.tape, Linear(cfg.g, s.diskMeta.watermark), i);
    case Flush => CalmFlush(cfg, s);
    case Crash(store) => CalmCrash(cfg, s, store);
    case _ =>
  }

  lemma {:induction false} CalmRun(cfg: Config, s: State, acts: seq<Action>)
    requires Inv(cfg, s) && CanRun(cfg, s, acts) && Calm(cfg, s) && cfg.maxEventSize == 0
    ensures Calm(cfg, Final(cfg, s, acts))
    decreases |acts|
  {
    if acts == [] {
    } else {
      CalmStep(cfg, s, acts[0]);
      InvStep(cfg, s, acts[0]);
      CalmRun(cfg, Apply(cfg, s, acts[0]), acts[1..]);
    }
  }

  lemma CalmSafe(cfg: Config, s: State)
    requires Inv(cfg, s) && Calm(cfg, s)
    ensures SafeCrash(cfg, s)
  {
    forall store | MixOf(cfg.g, store, s.disk, s.store)
      ensures Intact(cfg, s, store)
    {
      CalmMix(cfg.g, store, s.store, s.disk, s.tape, Linear(cfg.g, s.diskMeta.watermark));
    }
  }

  // ----- doFlush in two steps -----

  /** doFlush syncs the files, here in state `s`, and stores the watermark afterwards, in state `t`. */
  ghost predicate Flushing(cfg: Config, s: State, acts: seq<Action>, t: State)
    requires Inv(cfg, s)
  {
    && CanRun(cfg, s, acts) && Final(cfg, s, acts) == t
    && (forall i :: 0 <= i < |acts| ==> !acts[i].Crash?)
    && t.hw <= Linear(cfg.g, t.meta.committed) + cfg.g.Total()
  }

  /** Every unacknowledged byte below the new watermark is in its place in these files. */
  ghost predicate Marked(cfg: Config, t: State, store: Store)
    requires cfg.Valid() && WellFormed(cfg.g, store)
  {
    forall p: nat :: Linear(cfg.g, t.meta.committed) <= p < Linear(cfg.g, t.meta.writing) && p < |t.tape|
      ==> ByteAt(cfg.g, store, p) == t.tape[p]
  }

  /** And so whatever a crash right afterwards leaves of the files. */
  ghost predicate SafeMark(cfg: Config, s: State, t: State)
    requires Inv(cfg, s) && Inv(cfg, t)
  {
    forall store :: MixOf(cfg.g, store, s.store, t.store) ==> Marked(cfg, t, store)
  }

  /** A run without a publication leaves the published bytes alone. */
  lemma {:induction false} UnpublishedRun(cfg: Config, s: State, acts: seq<Action>)
    requires Inv(cfg, s) && CanRun(cfg, s, acts)
    requires forall i :: 0 <= i < |acts| ==> !acts[i].Crash? && !acts[i].PutWriting?
    ensures var t := Final(cfg, s, acts);
            t.meta.writing == s.meta.writing && s.hw <= t.hw && Agree(s.tape, t.tape, Linear(cfg.g, s.meta.writing))
    decreases |acts|
  {
    if acts == [] {
      assert HistoryKey(true) && StorageKey(true);
    } else {
      InvStep(cfg, s, acts[0]);
      ReadingAdvances(cfg, s, acts[0]);
      UnpublishedRun(cfg, Apply(cfg, s, acts[0]), acts[1..]);
    }
  }

  /** If nothing was published in between, the new watermark is safe. */
  lemma UnpublishedSafe(cfg: Config, s: State, acts: seq<Action>, t: State)
    requires Inv(cfg, s) && Flushing(cfg, s, acts, t)
    requires forall i :: 0 <= i < |acts| ==> !acts[i].PutWriting?
    ensures SafeMark(cfg, s, t)
  {
    UnpublishedRun(cfg, s, acts);
    assert StorageKey(true);
    forall store | MixOf(cfg.g, store, s.store, t.store)
      ensures Marked(cfg, t, store)
    {
      forall p: nat | Linear(cfg.g, t.meta.committed) <= p < Linear(cfg.g, t.meta.writing) && p < |t.tape|
        ensures ByteAt(cfg.g, store, p) == t.tape[p]
      {
        assert ByteAt(cfg.g, s.store, p) == s.tape[p] && ByteAt(cfg.g, t.store, p) == t.tape[p];
      }
    }
  }

  /** No flush of a new queue, whatever its files held, marks bytes that are not synced. */
  ghost predicate AlwaysMarksSafely(cfg: Config)
    requires cfg.Valid()
  {
    forall store, s, acts, t :: WellFormed(cfg.g, store) && Reaches(cfg, Fresh(store), s) && Flushing(cfg, s, acts, t)
      ==> SafeMark(cfg, s, t)
  }

  /** The two steps of doFlush are safe exactly for the queues that never accept an event. */
  lemma AlwaysMarksSafelyIff(cfg: Config)
    requires cfg.Valid()
    ensures AlwaysMarksSafely(cfg) <==> Full(cfg.g, cfg.maxEventSize, 0, 0)
  {
    if Full(cfg.g, cfg.maxEventSize, 0, 0) {
      forall store, s, acts, t | WellFormed(cfg.g, store) && Reaches(cfg, Fresh(store), s) && Flushing(cfg, s, acts, t)
        ensures SafeMark(cfg, s, t)
      {
        var before :| CanRun(cfg, Fresh(store), before) && Final(cfg, Fresh(store), before) == s;
        QuietRun(cfg, Fresh(store), before);
        QuietRun(cfg, s, acts);
        QuietMark(cfg, s, t);
      }
    } else {
      var store := seq(cfg.g.count, _ => seq(cfg.g.size, _ => 255));
      var x, acts, t := PublishedInBetween(cfg, store);
    }
  }

  lemma QuietMark(cfg: Config, s: State, t: State)
    requires Inv(cfg, s) && Inv(cfg, t) && Quiet(t)
    ensures SafeMark(cfg, s, t)
  {
    assert HistoryKey(true);
  }

  lemma RunOn(cfg: Config, s: State, acts: seq<Action>, t: State, a: Action) returns (acts': seq<Action>, t': State)
    requires Inv(cfg, s) && CanRun(cfg, s, acts) && Final(cfg, s, acts) == t && Enabled(cfg, t, a)
    ensures acts' == acts + [a] && t' == Apply(cfg, t, a)
    ensures CanRun(cfg, s, acts') && Final(cfg, s, acts') == t'
  {
    RunAppend(cfg, s, acts, a);
    acts', t' := acts + [a], Apply(cfg, t, a);
  }

  /** An event published between the two steps ends below the watermark although the files were
      synced before it was written. */
  lemma PublishedInBetween(cfg: Config, store: Store) returns (x: State, acts: seq<Action>, t: State)
    requires cfg.Valid() && WellFormed(cfg.g, store) && !Full(cfg.g, cfg.maxEventSize, 0, 0)
    requires ByteAt(cfg.g, store, 0) == 255
    ensures x == Fresh(store) && Reaches(cfg, x, x) && Flushing(cfg, x, acts, t) && !SafeMark(cfg, x, t)
  {
    x := Begun(cfg, store);
    var a, u := RunOn(cfg, x, [], x, CheckRoom([]));
    var b, v := RunOn(cfg, x, a, u, PutLength);
    assert WriterKey(true);
    var c, w := RunOn(cfg, x, b, v, PutChunk);
    assert w.writer.WPublish?;
    acts, t := RunOn(cfg, x, c, w, PutWriting);
    assert t.h.log == [[]];
    MarkedTooFar(cfg, x, t);
  }

  lemma MarkedTooFar(cfg: Config, x: State, t: State)
    requires Inv(cfg, x) && Inv(cfg, t) && ByteAt(cfg.g, x.store, 0) == 255 && t.h.log == [[]] && t.h.acked == 0
    ensures !SafeMark(cfg, x, t)
  {
    assert HistoryKey(true);
    WordStored(cfg, t, 0);
    CursorUnique(cfg.g, Cursor(0, 0));
    ZeroBytes();
    assert t.tape[0] == t.tape[0..WORD][0];
    assert MixOf(cfg.g, x.store, x.store, t.store);
    assert !Marked(cfg, t, x.store);
  }

  // ----- a killed process -----

  /** Reading record after record from `c`, until the cursors are equal, hands out exactly these. */
  ghost predicate HandsOut(g: Geometry, st: Store, c: Cursor, end: Cursor, records: seq<Record>)
    requires g.Valid() && WellFormed(g, st) && c.offset < g.size
    decreases |records|
  {
    if records == [] then c == end
    else
      c != end && StoredAt(g, st, Linear(g, c), records[0]) &&
      HandsOut(g, st, CursorOf(g, Next(g, Linear(g, c), |records[0]|)), end, records[1..])
  }

  /** The length word and the payload as a reader at position `p` sees them. */
  ghost predicate StoredAt(g: Geometry, st: Store, p: nat, r: Record)
    requires g.Valid() && WellFormed(g, st)
  {
    FromWord(Slice(g, st, Skip(g, p), WORD)) == |r| && Slice(g, st, Skip(g, p) + WORD, |r|) == r
  }

  /** What the files hand out is determined by them. */
  lemma {:induction false} HandsOutOnce(g: Geometry, st: Store, c: Cursor, end: Cursor, a: seq<Record>, b: seq<Record>)
    requires g.Valid() && WellFormed(g, st) && c.offset < g.size
    requires HandsOut(g, st, c, end, a) && HandsOut(g, st, c, end, b)
    ensures a == b
    decreases |a|
  {
    if a != [] {
      HandsOutOnce(g, st, CursorOf(g, Next(g, Linear(g, c), |a[0]|)), end, a[1..], b[1..]);
    }
  }

  /** A reader beyond the end never gets there. */
  lemma {:induction false} NeverHandsOut(g: Geometry, st: Store, c: Cursor, end: Cursor, records: seq<Record>)
    requires g.Valid() && WellFormed(g, st) && c.offset < g.size && Linear(g, end) < Linear(g, c)
    ensures !HandsOut(g, st, c, end, records)
    decreases |records|
  {
    if records != [] {
      SkipBounds(g, Linear(g, c));
      NeverHandsOut(g, st, CursorOf(g, Next(g, Linear(g, c), |records[0]|)), end, records[1..]);
    }
  }

  /** Records that are all in their places are handed out in order. */
  lemma {:induction false} HandsOutLog(g: Geometry, st: Store, log: seq<Record>, i: nat, j: nat)
    requires g.Valid() && WellFormed(g, st) && i <= j <= |log|
    requires forall k: nat :: i <= k < j ==> StoredAt(g, st, Boundary(g, log, k), log[k])
    ensures HandsOut(g, st, CursorOf(g, Boundary(g, log, i)), CursorOf(g, Boundary(g, log, j)), log[i..j])
    decreases j - i
  {
    if i < j {
      BoundaryMonotone(g, log, i, j);
      HandsOutLog(g, st, log, i + 1, j);
      assert log[i..j][0] == log[i] && log[i..j][1..] == log[i + 1..j];
    }
  }

  /** What the queue that Initialize opens after a kill hands out, if nothing more is written. */
  ghost predicate KilledHandsOut(cfg: Config, s: State, records: seq<Record>)
    requires Inv(cfg, s)
  {
    assert HistoryKey(true);
    HandsOut(cfg.g, s.store, s.meta.committed, s.meta.watermark, records)
  }

  /** With the committed cursor beyond the watermark it goes on forever; otherwise it hands out the
      flushed, unacknowledged records, if there are none or the writer has not lapped the first. */
  lemma KilledReads(cfg: Config, s: State)
    requires Inv(cfg, s)
    ensures s.h.acked > s.h.mark ==> forall records :: !KilledHandsOut(cfg, s, records)
    ensures s.h.acked == s.h.mark || (s.h.acked < s.h.mark && s.hw <= Linear(cfg.g, s.meta.committed) + cfg.g.Total()) ==>
              KilledHandsOut(cfg, s, s.h.log[s.h.acked..s.h.mark])
  {
    KilledOrder(cfg, s);
    KilledCursors(cfg, s);
    if s.h.acked > s.h.mark {
      forall records
        ensures !KilledHandsOut(cfg, s, records)
      {
        NeverHandsOut(cfg.g, s.store, s.meta.committed, s.meta.watermark, records);
      }
    } else if s.h.acked == s.h.mark || s.hw <= Linear(cfg.g, s.meta.committed) + cfg.g.Total() {
      forall k: nat | s.h.acked <= k < s.h.mark
        ensures StoredAt(cfg.g, s.store, Boundary(cfg.g, s.h.log, k), s.h.log[k])
      {
        UnlappedStored(cfg, s, k);
      }
      HandsOutLog(cfg.g, s.store, s.h.log, s.h.acked, s.h.mark);
    }
  }

  lemma KilledCursors(cfg: Config, s: State)
    requires Inv(cfg, s)
    ensures s.meta.committed == CursorOf(cfg.g, Boundary(cfg.g, s.h.log, s.h.acked))
    ensures s.meta.watermark == CursorOf(cfg.g, Boundary(cfg.g, s.h.log, s.h.mark))
  {
    assert HistoryKey(true);
    CursorUnique(cfg.g, s.meta.committed);
    CursorUnique(cfg.g, s.meta.watermark);
  }

  lemma UnlappedStored(cfg: Config, s: State, k: nat)
    requires Inv(cfg, s) && s.h.acked <= k < s.h.mark && s.hw <= Linear(cfg.g, s.meta.committed) + cfg.g.Total()
    ensures StoredAt(cfg.g, s.store, Boundary(cfg.g, s.h.log, k), s.h.log[k])
  {
    assert HistoryKey(true) && StorageKey(true);
    BoundaryMonotone(cfg.g, s.h.log, s.h.acked, k);
    assert HoldsAt(cfg.g, s.tape, s.h.log, k);
    ReadBack(cfg.g, s.store, s.tape, s.hw, Boundary(cfg.g, s.h.log, k), s.h.log[k]);
  }

  /** In every run of a new queue, a kill with the committed cursor not beyond the watermark leaves
      exactly the flushed, unacknowledged records. */
  ghost predicate AlwaysSurvivesKill(cfg: Config)
    requires cfg.Valid()
  {
    forall store, s :: WellFormed(cfg.g, store) && Reaches(cfg, Fresh(store), s) && s.h.acked <= s.h.mark ==>
      KilledHandsOut(cfg, s, s.h.log[s.h.acked..s.h.mark])
  }

  /** That is so exactly for the queues that never accept an event and for those that only accept
      empty ones. */
  lemma AlwaysSurvivesKillIff(cfg: Config)
    requires cfg.Valid()
    ensures AlwaysSurvivesKill(cfg) <==> Full(cfg.g, cfg.maxEventSize, 0, 0) || cfg.maxEventSize == 0
  {
    if Full(cfg.g, cfg.maxEventSize, 0, 0) || cfg.maxEventSize == 0 {
      forall store, s | WellFormed(cfg.g, store) && Reaches(cfg, Fresh(store), s) && s.h.acked <= s.h.mark
        ensures KilledHandsOut(cfg, s, s.h.log[s.h.acked..s.h.mark])
      {
        var acts :| CanRun(cfg, Fresh(store), acts) && Final(cfg, Fresh(store), acts) == s;
        if cfg.maxEventSize == 0 {
          CalmRun(cfg, Fresh(store), acts);
          CalmKilled(cfg, s);
        } else {
          QuietRun(cfg, Fresh(store), acts);
          KilledReads(cfg, s);
        }
      }
    } else {
      var store := seq(cfg.g.count, _ => seq(cfg.g.size, _ => 0));
      var t := LappedRun(cfg, store);
      KilledLoses(cfg, t);
    }
  }

  /** Empty records are in their places however often the ring was lapped. */
  lemma CalmKilled(cfg: Config, s: State)
    requires Inv(cfg, s) && Calm(cfg, s) && cfg.maxEventSize == 0 && s.h.acked <= s.h.mark
    ensures KilledHandsOut(cfg, s, s.h.log[s.h.acked..s.h.mark])
  {
    KilledCursors(cfg, s);
    forall k: nat | s.h.acked <= k < s.h.mark
      ensures StoredAt(cfg.g, s.store, Boundary(cfg.g, s.h.log, k), s.h.log[k])
    {
      CalmStored(cfg, s, k);
    }
    HandsOutLog(cfg.g, s.store, s.h.log, s.h.acked, s.h.mark);
  }

  lemma CalmStored(cfg: Config, s: State, k: nat)
    requires Inv(cfg, s) && Calm(cfg, s) && cfg.maxEventSize == 0 && k < |s.h.log|
    ensures StoredAt(cfg.g, s.store, Boundary(cfg.g, s.h.log, k), s.h.log[k]) == true
  {
    EmptyWord(cfg, s, k, Boundary(cfg.g, s.h.log, k), s.h.log[k]);
    EmptyStored(cfg.g, s.store, s.disk, s.tape, Linear(cfg.g, s.diskMeta.watermark), Boundary(cfg.g, s.h.log, k), s.h.log[k]);
  }

  lemma EmptyWord(cfg: Config, s: State, k: nat, p: nat, r: Record)
    requires Inv(cfg, s) == true && cfg.maxEventSize == 0 && k < |s.h.log|
    requires p == Boundary(cfg.g, s.h.log, k) && r == s.h.log[k]
    ensures r == [] && WordOn(cfg.g, s.tape, p) == true
  {
    assert HistoryKey(true);
    WordStored(cfg, s, k);
  }

  ghost predicate WordOn(g: Geometry, tape: seq<byte>, p: nat)
    requires g.Valid()
  {
    Skip(g, p) + WORD <= |tape| && tape[Skip(g, p)..Skip(g, p) + WORD] == ToWord(0)
  }

  lemma EmptyStored(g: Geometry, st: Store, disk: Store, tape: seq<byte>, n: nat, p: nat, r: Record)
    requires g.Valid() && CalmFiles(g, st, disk, tape, n) == true && r == []
    requires WordOn(g, tape, p) == true
    ensures StoredAt(g, st, p, r) == true
  {
    WordRoundTrip(0);
    assert Slice(g, st, Skip(g, p), WORD) == tape[Skip(g, p)..Skip(g, p) + WORD];
  }

  /** The files of the lapped run do not hand out its flushed record. */
  lemma KilledLoses(cfg: Config, t: State)
    requires Inv(cfg, t) && t.h.acked == t.h.diskAcked == 0 < t.h.mark && t.h.log[0] == [1]
    requires t.diskMeta.committed == Cursor(0, 0) && FirstLength(cfg, t, t.store) == 0
    ensures !KilledHandsOut(cfg, t, t.h.log[t.h.acked..t.h.mark])
  {
    KilledCursors(cfg, t);
    CursorUnique(cfg.g, Cursor(0, 0));
    var records := t.h.log[0..t.h.mark];
    assert records[0] == [1];
  }

  /** In every run of a new queue, a kill with the committed cursor not beyond the watermark leaves a
      sound queue of the flushed, unacknowledged records. */
  ghost predicate AlwaysComesUp(cfg: Config)
    requires cfg.Valid()
  {
    forall store, s :: WellFormed(cfg.g, store) && Reaches(cfg, Fresh(store), s) && s.h.acked <= s.h.mark ==>
      ComesUpWith(cfg, s, s.h.log[s.h.acked..s.h.mark])
  }

  /** That is so only if the queue never accepts an event: empty ones are handed out again, but more
      than a ring of them may be waiting. */
  lemma AlwaysComesUpIff(cfg: Config)
    requires cfg.Valid()
    ensures AlwaysComesUp(cfg) <==> Full(cfg.g, cfg.maxEventSize, 0, 0)
  {
    if Full(cfg.g, cfg.maxEventSize, 0, 0) {
      forall store, s | WellFormed(cfg.g, store) && Reaches(cfg, Fresh(store), s) && s.h.acked <= s.h.mark
        ensures ComesUpWith(cfg, s, s.h.log[s.h.acked..s.h.mark])
      {
        var acts :| CanRun(cfg, Fresh(store), acts) && Final(cfg, Fresh(store), acts) == s;
        QuietRun(cfg, Fresh(store), acts);
        KilledComesUp(cfg, s);
        assert s.h.log[s.h.acked..s.h.mark] == [];
      }
    } else {
      var t := RingWaits(cfg, seq(cfg.g.count, _ => seq(cfg.g.size, _ => 0)));
      TooManyWait(cfg, t);
    }
  }

  /** A run that flushes more than a ring of records before one is acknowledged. */
  lemma RingWaits(cfg: Config, store: Store) returns (t: State)
    requires cfg.Valid() && WellFormed(cfg.g, store) && !Full(cfg.g, cfg.maxEventSize, 0, 0)
    ensures Reaches(cfg, Fresh(store), t) && t.h.acked == 0 <= t.h.mark
    ensures Linear(cfg.g, t.meta.watermark) > Linear(cfg.g, t.meta.committed) + cfg.g.Total()
  {
    var x := Begun(cfg, store);
    var u := Laps(cfg, x, x);
    CursorOrder(cfg, u);
    var v := Enqueued(cfg, x, u, []);
    BoundaryKept(cfg.g, u.h.log, [], |u.h.log|);
    Reach(cfg, x, v, Flush);
    t := Apply(cfg, v, Flush);
    AtRing(cfg, t);
  }

  lemma AtRing(cfg: Config, t: State)
    requires Inv(cfg, t) && t.h.acked == 0 && t.h.mark == |t.h.log| && End(cfg, t) > cfg.g.Total()
    ensures Linear(cfg.g, t.meta.watermark) > Linear(cfg.g, t.meta.committed) + cfg.g.Total()
  {
    assert HistoryKey(true);
  }

  lemma TooManyWait(cfg: Config, t: State)
    requires Linear(cfg.g, t.meta.watermark) > Linear(cfg.g, t.meta.committed) + cfg.g.Total()
    ensures forall records :: !ComesUpWith(cfg, t, records)
  {
    forall records
      ensures !ComesUpWith(cfg, t, records)
    {
      if ComesUpWith(cfg, t, records) {
        var h, tape, hw :| Inv(cfg, Killed(t, h, tape, hw)) && Pending(Killed(t, h, tape, hw)) == records;
        WithinHigh(cfg, Killed(t, h, tape, hw));
      }
    }
  }

  lemma WithinHigh(cfg: Config, s: State)
    requires Inv(cfg, s)
    ensures Linear(cfg.g, s.meta.writing) <= Linear(cfg.g, s.meta.reading) + cfg.g.Total()
  {
    assert HistoryKey(true) && StorageKey(true);
  }
}
