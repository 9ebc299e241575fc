/** What the pipeline can always do next: accept events, and catch up with them. */
module Progress {
  import opened Bytes
  import opened Layout
  import opened Records
  import opened MmapQueue
  import opened Basics
  import opened Batches
  import Q = Interleaving
  import S = Sender
  import opened Pipeline

  // ----- accepting -----

  /** The next step of the writer. */
  ghost function WriterStep(q: Q.State): Q.Action {
    if q.writer.WLength? then Q.PutLength else if q.writer.WBytes? then Q.PutChunk else Q.PutWriting
  }

  function BytesLeft(w: Q.Writer): nat {
    match w
    case WLength(data) => |data| + 2
    case WBytes(data, done, _) => if done <= |data| then |data| - done + 1 else 0
    case _ => 0
  }

  lemma WriterSteps(cfg: Config, q: Q.State)
    requires Q.Inv(cfg, q) && !q.writer.WIdle?
    ensures Q.Enabled(cfg, q, WriterStep(q))
    ensures var t := QueueStep(cfg, q, WriterStep(q));
            t.reader == q.reader && t.h.head == q.h.head && t.meta.reading == q.meta.reading &&
            if q.writer.WPublish? then t.writer.WIdle? && t.h.log == q.h.log + [q.writer.data]
            else t.h.log == q.h.log && !t.writer.WIdle? && t.writer.data == q.writer.data &&
                 BytesLeft(t.writer) < BytesLeft(q.writer)
  {
    assert Q.WriterKey(true);
  }

  /** Whatever reader and sender do, an event that the fullness check lets through can be stored. */
  lemma Accepts(u: Setup, y: System, data: Record) returns (acts: seq<Action>)
    requires Inv(u, y) && y.q.writer.WIdle? && |data| <= u.cfg.maxEventSize
    requires !Full(u.cfg.g, u.cfg.maxEventSize, y.q.meta.reading.id, y.q.meta.writing.id)
    ensures CanRun(u, y, acts) && Final(u, y, acts).q.h.log == y.q.h.log + [data]
    ensures var z := Final(u, y, acts); z.s == y.s && z.wire == y.wire && z.q.h.head == y.q.h.head
  {
    var a := Queue(Q.CheckRoom(data));
    InvStep(u, y, a);
    var rest := Writes(u, Apply(u, y, a), data);
    acts := [a] + rest;
    assert acts[1..] == rest;
  }

  lemma {:induction false} Writes(u: Setup, y: System, data: Record) returns (acts: seq<Action>)
    requires Inv(u, y) && !y.q.writer.WIdle? && y.q.writer.data == data
    ensures CanRun(u, y, acts) && Final(u, y, acts).q.h.log == y.q.h.log + [data]
    ensures var z := Final(u, y, acts); z.s == y.s && z.wire == y.wire && z.q.h.head == y.q.h.head
    decreases BytesLeft(y.q.writer)
  {
    var a := Queue(WriterStep(y.q));
    WriterSteps(u.cfg, y.q);
    InvStep(u, y, a);
    var z := Apply(u, y, a);
    var rest: seq<Action> := [];
    if !y.q.writer.WPublish? {
      rest := Writes(u, z, data);
    }
    acts := [a] + rest;
    assert acts[1..] == rest;
  }

  // ----- catching up -----

  /** Nothing is waiting but what the sender keeps for a fuller batch. */
  ghost predicate CaughtUp(u: Setup, y: System) {
    && y.q.h.head == |y.q.h.log| && y.wire == [] && y.s.store.Idle? && y.s.flush.Waiting?
    && (y.s.buffer == [] || |y.s.buffer| < u.minFlush)
  }

  function Stage(r: Q.Reader): nat {
    if r.RPublish? then 0 else if r.RBytes? then 1 else if r.RLength? then 2 else 3
  }

  /** The payload bytes that the reader still has to read. */
  function LeftToRead(r: Q.Reader): nat {
    if r.RBytes? && r.length >= |r.buf| then r.length - |r.buf| else 0
  }

  /** The next step towards that, first of the reader, then of the sender. */
  ghost function NextStep(y: System): Action {
    match y.q.reader
    case RPublish(_, _) => Queue(Q.PutReading)
    case RBytes(_, _, _) => Queue(Q.GetChunk)
    case RLength => Queue(Q.GetLength)
    case RIdle =>
      if y.q.h.head < |y.q.h.log| then Queue(Q.CheckEmpty)
      else if y.s.flush.Consuming? then Send(S.Finish)
      else if y.s.store.Replacing? then Send(S.Replace)
      else if y.s.store.Sending? then Send(S.HandOver)
      else if y.wire != [] then Pass
      else Send(S.Tick)
  }

  /** `z` is closer to it than `y`. */
  ghost predicate Closer(z: System, y: System) {
    && z.q.h.log == y.q.h.log && z.q.meta.writing == y.q.meta.writing
    && y.q.h.head <= z.q.h.head <= |y.q.h.log|
    && (z.q.h.head > y.q.h.head || Stage(z.q.reader) < Stage(y.q.reader) ||
        (Stage(z.q.reader) == Stage(y.q.reader) &&
         (LeftToRead(z.q.reader) < LeftToRead(y.q.reader) ||
          (LeftToRead(z.q.reader) == LeftToRead(y.q.reader) &&
           (|z.wire| < |y.wire| || (|z.wire| == |y.wire| && S.Stages(z.s) < S.Stages(y.s)))))))
  }

  lemma ReaderSteps(cfg: Config, q: Q.State, a: Q.Action)
    requires Q.Inv(cfg, q) && Q.Enabled(cfg, q, a) && (a.CheckEmpty? || a.GetLength? || a.GetChunk? || a.PutReading?)
    ensures var t := QueueStep(cfg, q, a);
            t.h.log == q.h.log && t.meta.writing == q.meta.writing &&
            (if a.PutReading? then t.h.head == q.h.head + 1 <= |q.h.log| && t.reader.RIdle?
             else t.h.head == q.h.head && (Stage(t.reader) < Stage(q.reader) ||
                  (Stage(t.reader) == Stage(q.reader) && LeftToRead(t.reader) < LeftToRead(q.reader))))
  {
    assert Q.ReaderKey(true);
  }

  /** The cursor to be published next is no further than the writer. */
  lemma PublishesInRange(cfg: Config, q: Q.State)
    requires Q.Inv(cfg, q) && q.reader.RPublish?
    ensures q.reader.at.id <= q.meta.writing.id
  {
    assert Q.HistoryKey(true) && Q.ReaderKey(true);
    BoundaryMonotone(cfg.g, q.h.log, q.h.head + 1, |q.h.log|);
    CursorUnique(cfg.g, q.reader.at);
    CursorUnique(cfg.g, q.meta.writing);
    IdMonotone(cfg.g, Linear(cfg.g, q.reader.at), Linear(cfg.g, q.meta.writing));
  }

  lemma ReaderProgress(u: Setup, y: System)
    requires Inv(u, y) && y.q.meta.writing.id <= MAX_INT && (!y.q.reader.RIdle? || y.q.h.head < |y.q.h.log|)
    ensures Enabled(u, y, NextStep(y)) && Closer(Apply(u, y, NextStep(y)), y)
  {
    match y.q.reader
    case RPublish(_, _) =>
      PublishesInRange(u.cfg, y.q);
      ReaderSteps(u.cfg, y.q, Q.PutReading);
    case RBytes(_, _, _) => ReaderSteps(u.cfg, y.q, Q.GetChunk);
    case RLength => ReaderSteps(u.cfg, y.q, Q.GetLength);
    case RIdle =>
      Q.CursorOrder(u.cfg, y.q);
      ReaderSteps(u.cfg, y.q, Q.CheckEmpty);
  }

  lemma SenderProgress(u: Setup, y: System)
    requires Inv(u, y) && !CaughtUp(u, y) && y.q.reader.RIdle? && y.q.h.head == |y.q.h.log|
    ensures Enabled(u, y, NextStep(y)) && Closer(Apply(u, y, NextStep(y)), y)
  {
    if NextStep(y) == Send(S.Finish) && y.s.flush.batch != [] {
      FinishedParts(u, y);
    }
  }

  lemma HeadInLog(cfg: Config, q: Q.State)
    requires Q.Inv(cfg, q)
    ensures q.h.head <= |q.h.log|
  {
  }

  lemma NextIsCloser(u: Setup, y: System)
    requires Inv(u, y) && !CaughtUp(u, y) && y.q.meta.writing.id <= MAX_INT
    ensures Enabled(u, y, NextStep(y)) && Closer(Apply(u, y, NextStep(y)), y)
  {
    HeadInLog(u.cfg, y.q);
    if !y.q.reader.RIdle? || y.q.h.head < |y.q.h.log| {
      ReaderProgress(u, y);
    } else {
      SenderProgress(u, y);
    }
  }

  /** From every state reader and sender can get to where everything pending was handed out, passed on
      and consumed, and acknowledged by that; only fewer inputs than the timer asks for may be left in
      the buffer. */
  lemma CatchesUp(u: Setup, y: System) returns (acts: seq<Action>)
    requires Inv(u, y) && y.q.meta.writing.id <= MAX_INT
    ensures CanRun(u, y, acts) && CaughtUp(u, Final(u, y, acts))
    ensures var z := Final(u, y, acts); z.q.h.log == y.q.h.log && z.q.h.acked + |z.s.buffer| == |y.q.h.log|
    decreases |y.q.h.log| - y.q.h.head, Stage(y.q.reader), LeftToRead(y.q.reader), |y.wire|, S.Stages(y.s)
  {
    if CaughtUp(u, y) {
      acts := [];
      AllAccounted(u, y);
    } else {
      NextIsCloser(u, y);
      InvStep(u, y, NextStep(y));
      var rest := CatchesUp(u, Apply(u, y, NextStep(y)));
      acts := [NextStep(y)] + rest;
      assert acts[1..] == rest;
    }
  }

  lemma AllAccounted(u: Setup, y: System)
    requires Inv(u, y) && CaughtUp(u, y)
    ensures y.q.h.acked + |y.s.buffer| == |y.q.h.log|
  {
    assert Q.HistoryKey(true);
  }
}
