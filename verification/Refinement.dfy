/** The queue's methods as runs of single steps of the interleaved machine: cursors, records and the
    bytes that readers see, down to those of a write that failed. */
module Refinement {
  import opened Basics
  import opened Bytes
  import opened Layout
  import opened Records
  import opened SegmentCache
  import opened MmapQueue
  import opened Interleaving
  import opened Runs
  import OffsetText

  /** The queue object is in the machine's state `s`: same stored bytes, same cursors, in memory and
      on disk, and same records, with both threads idle. */
  ghost predicate Represents(q: Queue, s: State)
    reads q
  {
    && q.Valid() && Inv(q.cfg, s) && s.writer.WIdle? && s.reader.RIdle?
    && s.store == Image(q.g, q.files, q.segments)
    && s.meta == q.meta && s.diskMeta == q.diskMeta
    && s.h.log == q.book.log && s.h.head == q.book.head && s.h.mark == q.book.mark
  }

  /** Enqueue is a run of the writer: it accepts the event, or it fails after some chunks, with what
      they stored; a call refused before that is no step at all. */
  method EnqueueIsRun(q: Queue, data: Record, ghost x: State, ghost s: State)
    returns (r: EnqueueResult, ghost t: State)
    requires Represents(q, s) && Reaches(q.cfg, x, s)
    modifies q
    ensures Represents(q, t) && Reaches(q.cfg, x, t)
    ensures match r
            case Accepted => AcceptedIn(s, t, data)
            case WriteFailed(_) => FailedIn(s, t)
            case _ => t == s
    ensures t.store == Image(q.g, q.files, q.segments) && t.meta == q.meta && t.h.log == q.book.log
  {
    r := q.Enqueue(data);
    t := s;
    match r
    case Accepted =>
      t := Enqueued(q.cfg, x, s, data);
      SameWriting(q, t);
    case WriteFailed(_) =>
      t := EnqueueFails(q.cfg, x, s, data, Image(q.g, q.files, q.segments));
    case _ =>
  }

  /** Both writing cursors stand after the same records. */
  lemma SameWriting(q: Queue, t: State)
    requires q.Valid() && Inv(q.cfg, t) && t.h.log == q.book.log
    ensures t.meta.writing == q.meta.writing
  {
    assert HistoryKey(true);
    AtUnique(q.cfg.g, t.meta.writing, q.meta.writing, Boundary(q.cfg.g, t.h.log, |t.h.log|));
  }

  /** Dequeue hands out what a run of the reader does, and ends in the same state. */
  method DequeueIsRun(q: Queue, ghost x: State, ghost s: State) returns (r: DequeueResult, ghost t: State)
    requires Represents(q, s) && Reaches(q.cfg, x, s)
    modifies q
    ensures Represents(q, t) && Reaches(q.cfg, x, t)
    ensures if r.Got? then TakenIn(s, t) && s.h.head < |s.h.log| && r.data == s.h.log[s.h.head] && r.at == t.meta.reading
            else t == s
    ensures t.store == Image(q.g, q.files, q.segments) && t.meta == q.meta && t.h.head == q.book.head
  {
    r := q.Dequeue();
    t := s;
    if r.Got? {
      assert s.h.log[s.h.head..][0] == r.data;
      t := Dequeued(q.cfg, x, s);
      SameReading(q, t);
    }
  }

  lemma SameReading(q: Queue, t: State)
    requires q.Valid() && Inv(q.cfg, t) && t.h.log == q.book.log && t.h.head == q.book.head
    ensures t.meta.reading == q.meta.reading
  {
    assert HistoryKey(true);
    AtUnique(q.cfg.g, t.meta.reading, q.meta.reading, Boundary(q.cfg.g, t.h.log, t.h.head));
  }

  /** Ack of the text of an offset that was handed out is the machine's acknowledgement. */
  method AckIsStep(q: Queue, position: string, ghost x: State, ghost s: State, ghost i: nat) returns (ghost t: State)
    requires Represents(q, s) && Reaches(q.cfg, x, s) && q.ready && Enabled(q.cfg, s, AckOffset(i))
    requires OffsetText.DecodeOffset(position) == Some((s.offsets[i].id, s.offsets[i].offset))
    modifies q
    ensures Represents(q, t) && Reaches(q.cfg, x, t) && t == Apply(q.cfg, s, AckOffset(i))
  {
    q.Ack(position);
    Reach(q.cfg, x, s, AckOffset(i));
    t := Apply(q.cfg, s, AckOffset(i));
  }

  /** doFlush is the machine's flush. */
  method FlushIsStep(q: Queue, ghost x: State, ghost s: State) returns (ghost t: State)
    requires Represents(q, s) && Reaches(q.cfg, x, s)
    modifies q
    ensures Represents(q, t) && Reaches(q.cfg, x, t) && t == Apply(q.cfg, s, Flush) && t.disk == q.files
  {
    q.DoFlush();
    Reach(q.cfg, x, s, Flush);
    t := Apply(q.cfg, s, Flush);
  }

  /** Unmapping the announced segment is the machine's sync of it, if the disks were the same. */
  method MarkReadIsStep(q: Queue, ghost x: State, ghost s: State) returns (ghost t: State)
    requires Represents(q, s) && Reaches(q.cfg, x, s) && q.markRead != [] && s.disk == q.files
    modifies q
    ensures Represents(q, t) && Reaches(q.cfg, x, t) && t.disk == q.files
    ensures t == Apply(q.cfg, s, Sync(Index(q.g, old(q.markRead)[0])))
  {
    var i := Index(q.g, q.markRead[0]);
    q.MarkRead();
    Reach(q.cfg, x, s, Sync(i));
    t := Apply(q.cfg, s, Sync(i));
    assert t == s.(disk := s.disk[i := s.store[i]]);
  }

  /** Initialize after a crash is the machine's crash, for an image that both can leave. */
  method CrashIsStep(q: Queue, crashed: Store, ghost x: State, ghost s: State) returns (q': Queue, ghost t: State)
    requires Represents(q, s) && Reaches(q.cfg, x, s) && Enabled(q.cfg, s, Crash(crashed))
    requires MixOf(q.g, crashed, q.files, Image(q.g, q.files, q.segments))
    requires q.hw <= Linear(q.g, q.diskMeta.committed) + q.g.Total()
    ensures q'.cfg == q.cfg && Represents(q', t) && Reaches(q.cfg, x, t) && t == Apply(q.cfg, s, Crash(crashed))
  {
    DiskCommitted(q, s);
    CrashImage(q, crashed, s.h.diskAcked);
    q' := new Queue.Initialize(q.cfg, crashed, q.diskMeta, q.book.log, q.tape, q.hw, s.h.diskAcked, q.book.mark);
    Reach(q.cfg, x, s, Crash(crashed));
    t := Apply(q.cfg, s, Crash(crashed));
  }

  lemma DiskCommitted(q: Queue, s: State)
    requires Represents(q, s)
    ensures q.DiskCommittedAt(s.h.diskAcked)
    ensures Linear(q.g, q.diskMeta.committed) == Boundary(q.g, q.book.log, s.h.diskAcked)
  {
    assert HistoryKey(true);
  }
}
