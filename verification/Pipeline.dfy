/** One partition end to end: the queue at chunk grain, the hands between Dequeue and the
    sender, and the sender whose acknowledgements move the queue's committed cursor. */
module Pipeline {
  import opened Bytes
  import opened Layout
  import opened Records
  import opened MmapQueue
  import opened Basics
  import opened Batches
  import OffsetText
  import Q = Interleaving
  import S = Sender

  /** The configuration: `process` is what the processor's filters make of a record, `encode`
      and `decode` are the text form of a queue position. */
  datatype Setup = Setup(
    cfg: Config, partition: nat, process: Record -> seq<S.Event>, max: nat, minFlush: int,
    encode: Cursor -> string, decode: string -> Cursor)
  {
    ghost predicate Valid() {
      cfg.Valid() && max >= 1 && cfg.g.size <= MAX_INT &&
      forall c: Cursor :: c.id <= MAX_INT && c.offset <= MAX_INT ==> decode(encode(c)) == c
    }
  }

  /** The cursor Ack commits for an offset's text: zero when it does not decode. */
  function Decoded(position: string): Cursor {
    match OffsetText.DecodeOffset(position)
    case Some(v) => Cursor(v.0, v.1)
    case None => Cursor(0, 0)
  }

  /** The queue's own text form is such an encoding. */
  lemma TextIsValid(cfg: Config, partition: nat, process: Record -> seq<S.Event>, max: nat, minFlush: int)
    requires cfg.Valid() && max >= 1 && cfg.g.size <= MAX_INT
    ensures Setup(cfg, partition, process, max, minFlush,
                  (c: Cursor) => OffsetText.EncodeOffset(c.id, c.offset), Decoded).Valid()
  {
    forall c: Cursor | c.id <= MAX_INT && c.offset <= MAX_INT
      ensures Decoded(OffsetText.EncodeOffset(c.id, c.offset)) == c
    {
      OffsetText.OffsetRoundTrip(c.id, c.offset);
    }
  }

  /** `wire` is what was dequeued and has not reached the sender. `given` is the history of what
      consume was given, by record index, in this session or an earlier one. */
  datatype System = System(q: Q.State, wire: seq<S.Context>, s: S.State, given: map<nat, S.Context>)

  datatype Action =
    | Queue(a: Q.Action)
    | Pass
    | Send(b: S.Action)
    | Crash(store: Store)

  /** The context the processor sends for a record dequeued at `at`. */
  function ContextOf(u: Setup, r: Record, at: Cursor): S.Context {
    S.Context(u.process(r), Some(OffsetText.Offset(u.partition, u.encode(at))))
  }

  // ----- the queue as the pipeline sees it -----

  /** A queue step that hands out and acknowledges nothing. */
  predicate SameSession(q: Q.State, t: Q.State) {
    t.offsets == q.offsets && t.h.base == q.h.base && t.h.acked == q.h.acked && q.h.log <= t.h.log
  }

  /** A completed dequeue: the record that follows those already handed out. */
  ghost predicate Took(q: Q.State, t: Q.State) {
    && q.reader.RPublish? && q.h.base + |q.offsets| < |q.h.log|
    && q.reader.buf == q.h.log[q.h.base + |q.offsets|]
    && t.offsets == q.offsets + [q.reader.at]
    && t.h.base == q.h.base && t.h.acked == q.h.acked && t.h.log == q.h.log
  }

  /** A reopened queue holds the flushed records after the acknowledged ones. */
  ghost predicate Recovered(q: Q.State, t: Q.State) {
    && q.h.diskAcked <= q.h.acked && q.h.diskAcked <= q.h.mark <= |q.h.log|
    && t.offsets == [] && t.h.base == t.h.head == t.h.acked == q.h.diskAcked
    && t.h.log == q.h.log[..q.h.mark]
  }

  ghost function QueueStep(cfg: Config, q: Q.State, a: Q.Action): (t: Q.State)
    requires Q.Inv(cfg, q) && Q.Enabled(cfg, q, a)
    ensures Q.Inv(cfg, t)
    ensures !a.PutReading? && !a.AckOffset? && !a.Crash? ==> SameSession(q, t)
    ensures a.PutReading? ==> Took(q, t)
    ensures a.Crash? ==> Recovered(q, t)
    ensures a.AckOffset? ==> t == Acked(q, q.offsets[a.i], q.h.base + a.i + 1)
  {
    assert Q.HistoryKey(true);
    Q.InvStep(cfg, q, a);
    if a.PutReading? then Q.ReadIsHead(cfg, q); Q.Apply(cfg, q, a) else Q.Apply(cfg, q, a)
  }

  /** The queue once Ack has committed `at`, the offset handed out with record `count`. */
  function Acked(q: Q.State, at: Cursor, count: nat): Q.State {
    q.(meta := q.meta.(committed := at), h := q.h.(acked := count))
  }

  lemma OffsetShape(cfg: Config, q: Q.State, i: nat)
    requires Q.Inv(cfg, q) && i < |q.offsets|
    ensures q.offsets[i].offset < cfg.g.size
  {
    assert Q.HistoryKey(true);
    assert Marks(cfg.g, q.offsets[i], q.h.log, q.h.base + i + 1);
  }

  // ----- steps -----

  ghost predicate Enabled(u: Setup, y: System, a: Action)
    requires u.Valid()
  {
    match a
    case Queue(b) =>
      Q.Enabled(u.cfg, y.q, b) && !b.AckOffset? && !b.Crash? &&
      // segment ids stay in the 64-bit range
      (b.PutReading? ==> y.q.reader.at.id <= MAX_INT)
    case Pass => y.wire != [] && y.s.store.Idle?
    case Send(b) => !b.Input? && S.Enabled(y.s, b)
    case Crash(store) => Q.Enabled(u.cfg, y.q, Q.Crash(store))
  }

  /** A batch by record index, the first one at `at`. */
  ghost function Placed(at: nat, batch: seq<S.Context>): map<nat, S.Context> {
    map i: nat | i < at + |batch| && From(at, i) :: batch[i - at]
  }

  predicate From(at: nat, i: nat) { at <= i }

  /** The history once `batch` was given to consume. */
  ghost function Extended(given: map<nat, S.Context>, at: nat, batch: seq<S.Context>): map<nat, S.Context> {
    given + Placed(at, batch)
  }

  /** How many inputs of this session were consumed. */
  function Consumed(y: System): nat { |Flat(y.s.consumed)| }

  /** consume ends by acknowledging the batch's last offset, decoded from its text. */
  ghost function Finished(u: Setup, y: System): System
    requires S.Enabled(y.s, S.Finish)
  {
    var s := S.Apply(y.s, S.Finish);
    var n := y.q.h.base + |Flat(s.consumed)|;
    var last := S.LastOffset(y.s.flush.batch);
    y.(s := s, given := Extended(y.given, y.q.h.base + Consumed(y), y.s.flush.batch),
       q := Acked(y.q, if last.Some? then u.decode(last.value.position) else Cursor(0, 0), n))
  }

  ghost function Apply(u: Setup, y: System, a: Action): System
    requires u.Valid() && Q.Inv(u.cfg, y.q) && Enabled(u, y, a)
  {
    match a
    case Queue(b) =>
      y.(q := QueueStep(u.cfg, y.q, b),
         wire := if b.PutReading? then y.wire + [ContextOf(u, y.q.reader.buf, y.q.reader.at)] else y.wire)
    case Pass => y.(wire := y.wire[1..], s := S.Apply(y.s, S.Input(y.wire[0])))
    case Send(b) =>
      if b.Finish? && y.s.flush.batch != [] then Finished(u, y) else y.(s := S.Apply(y.s, b))
    case Crash(store) =>
      System(QueueStep(u.cfg, y.q, Q.Crash(store)), [], S.Start(u.max, u.minFlush),
             map i | i in y.given && i < y.q.h.mark :: y.given[i])
  }

  // ----- the invariant -----

  predicate CarriedAt(u: Setup, log: seq<Record>, base: nat, offsets: seq<Cursor>, contexts: seq<S.Context>, i: nat)
    requires |contexts| == |offsets| && base + |offsets| <= |log| && i < |offsets|
  {
    contexts[i] == ContextOf(u, log[base + i], offsets[i]) && offsets[i].id <= MAX_INT
  }

  /** The sender's inputs and then the wire are this session's records, each with its offset. */
  ghost predicate Carried(u: Setup, log: seq<Record>, base: nat, offsets: seq<Cursor>, contexts: seq<S.Context>) {
    && |contexts| == |offsets| && base + |offsets| <= |log|
    && (forall i :: 0 <= i < |offsets| ==> CarriedAt(u, log, base, offsets, contexts, i))
  }

  /** The context is what the processor makes of the record, at some offset. */
  ghost predicate Made(u: Setup, r: Record, c: S.Context) {
    exists at: Cursor :: c == ContextOf(u, r, at)
  }

  /** Everything acknowledged was given to consume, and what was given was made of the log's
      record of that index. */
  ghost predicate Given(u: Setup, log: seq<Record>, acked: nat, given: map<nat, S.Context>) {
    && (forall i: nat :: i < acked ==> i in given)
    && (forall i: nat :: i in given ==> GivenAt(u, log, given, i))
  }

  ghost predicate GivenAt(u: Setup, log: seq<Record>, given: map<nat, S.Context>, i: nat)
    requires i in given
  {
    i < |log| && Made(u, log[i], given[i])
  }

  /** What was consumed in this session is what the history says. */
  ghost predicate Recorded(base: nat, consumed: seq<S.Context>, given: map<nat, S.Context>) {
    forall i: nat :: i < |consumed| ==> RecordedAt(base, consumed, given, i)
  }

  predicate RecordedAt(base: nat, consumed: seq<S.Context>, given: map<nat, S.Context>, i: nat)
    requires i < |consumed|
  {
    base + i in given && given[base + i] == consumed[i]
  }

  // kept folded, like the parts of the queue's invariant
  predicate DeliveryKey(b: bool) { true }

  ghost predicate Delivery(u: Setup, log: seq<Record>, base: nat, consumed: seq<S.Context>, given: map<nat, S.Context>) {
    forall b :: DeliveryKey(b) ==> Given(u, log, base + |consumed|, given) && Recorded(base, consumed, given)
  }

  ghost predicate Inv(u: Setup, y: System) {
    && u.Valid() && Q.Inv(u.cfg, y.q) == true
    && S.Inv(y.s) == true && y.s.max == u.max && y.s.minFlush == u.minFlush
    && Carried(u, y.q.h.log, y.q.h.base, y.q.offsets, y.s.inputs + y.wire) == true
    && y.q.h.acked == y.q.h.base + Consumed(y)
    && Delivery(u, y.q.h.log, y.q.h.base, Flat(y.s.consumed), y.given) == true
  }

  /** The batch being consumed continues the consumed inputs, so its last offset is known. */
  lemma LastHasOffset(u: Setup, y: System)
    requires Inv(u, y) && y.s.flush.Consuming? && y.s.flush.batch != []
    ensures var n := Consumed(y) + |y.s.flush.batch|;
            Consumed(y) < n <= |y.s.inputs| && n <= |y.q.offsets| && y.q.offsets[n - 1].id <= MAX_INT &&
            S.LastOffset(y.s.flush.batch) == ContextOf(u, y.q.h.log[y.q.h.base + n - 1], y.q.offsets[n - 1]).offset
  {
    var b := y.s.flush.batch;
    var n := Consumed(y) + |b|;
    assert y.s.inputs[n - 1] == b[|b| - 1];
    assert (y.s.inputs + y.wire)[n - 1] == y.s.inputs[n - 1];
    assert CarriedAt(u, y.q.h.log, y.q.h.base, y.q.offsets, y.s.inputs + y.wire, n - 1);
  }

  /** Acknowledging the batch's last offset is acknowledging the dequeued offset it came from:
      the text decodes to that cursor. */
  lemma AckIsDequeuedOffset(u: Setup, y: System)
    requires Inv(u, y) && y.s.flush.Consuming? && y.s.flush.batch != []
    ensures var n := Consumed(y) + |y.s.flush.batch|;
            1 <= n <= |y.q.offsets| && S.LastOffset(y.s.flush.batch).Some? &&
            u.decode(S.LastOffset(y.s.flush.batch).value.position) == y.q.offsets[n - 1]
  {
    LastHasOffset(u, y);
    OffsetShape(u.cfg, y.q, Consumed(y) + |y.s.flush.batch| - 1);
  }

  // ----- every step keeps the invariant -----

  lemma CarriedAppend(u: Setup, log: seq<Record>, base: nat, offsets: seq<Cursor>, contexts: seq<S.Context>, at: Cursor)
    requires Carried(u, log, base, offsets, contexts) && base + |offsets| < |log| && at.id <= MAX_INT
    ensures Carried(u, log, base, offsets + [at], contexts + [ContextOf(u, log[base + |offsets|], at)])
  {
    var offsets', contexts' := offsets + [at], contexts + [ContextOf(u, log[base + |offsets|], at)];
    forall i | 0 <= i < |offsets'|
      ensures CarriedAt(u, log, base, offsets', contexts', i)
    {
      if i < |offsets| {
        assert CarriedAt(u, log, base, offsets, contexts, i);
      }
    }
  }

  /** A longer log changes nothing for what is carried. */
  lemma CarriedOn(u: Setup, log: seq<Record>, log': seq<Record>, base: nat, offsets: seq<Cursor>, contexts: seq<S.Context>)
    requires Carried(u, log, base, offsets, contexts) && log <= log'
    ensures Carried(u, log', base, offsets, contexts)
  {
    forall i | 0 <= i < |offsets|
      ensures CarriedAt(u, log', base, offsets, contexts, i)
    {
      assert CarriedAt(u, log, base, offsets, contexts, i);
    }
  }

  lemma KeepsPutReading(u: Setup, y: System)
    requires Inv(u, y) && Enabled(u, y, Queue(Q.PutReading))
    ensures Inv(u, Apply(u, y, Queue(Q.PutReading)))
  {
    var at, c := y.q.reader.at, ContextOf(u, y.q.reader.buf, y.q.reader.at);
    assert Took(y.q, QueueStep(u.cfg, y.q, Q.PutReading));
    CarriedAppend(u, y.q.h.log, y.q.h.base, y.q.offsets, y.s.inputs + y.wire, at);
    assert y.s.inputs + (y.wire + [c]) == (y.s.inputs + y.wire) + [c];
  }

  lemma KeepsPass(u: Setup, y: System)
    requires Inv(u, y) && Enabled(u, y, Pass)
    ensures Inv(u, Apply(u, y, Pass))
  {
    var c := y.wire[0];
    assert (y.s.inputs + y.wire)[|y.s.inputs|] == c;
    assert CarriedAt(u, y.q.h.log, y.q.h.base, y.q.offsets, y.s.inputs + y.wire, |y.s.inputs|);
    S.InvStep(y.s, S.Input(c));
    assert (y.s.inputs + [c]) + y.wire[1..] == y.s.inputs + y.wire;
  }

  ghost predicate MadeFrom(u: Setup, log: seq<Record>, at: nat, batch: seq<S.Context>) {
    forall j: nat :: j < |batch| ==> at + j < |log| && Made(u, log[at + j], batch[j])
  }

  /** The batch being consumed is made of the records that follow the acknowledged ones. */
  lemma BatchMade(u: Setup, log: seq<Record>, base: nat, offsets: seq<Cursor>,
                  consumed: seq<S.Context>, batch: seq<S.Context>, rest: seq<S.Context>)
    requires Carried(u, log, base, offsets, consumed + batch + rest)
    ensures MadeFrom(u, log, base + |consumed|, batch)
  {
    forall j: nat | j < |batch|
      ensures base + |consumed| + j < |log| && Made(u, log[base + |consumed| + j], batch[j])
    {
      var k := |consumed| + j;
      assert (consumed + batch + rest)[k] == batch[j];
      assert CarriedAt(u, log, base, offsets, consumed + batch + rest, k);
      assert batch[j] == ContextOf(u, log[base + k], offsets[k]);
    }
  }

  lemma GivenGrows(u: Setup, log: seq<Record>, at: nat, given: map<nat, S.Context>, batch: seq<S.Context>, n: nat)
    requires Given(u, log, at, given) && MadeFrom(u, log, at, batch) && n == at + |batch|
    ensures Given(u, log, n, Extended(given, at, batch)) == true
  {
    var given' := Extended(given, at, batch);
    assert forall i: nat :: at <= i < at + |batch| ==> From(at, i);
    forall i: nat | i in given'
      ensures GivenAt(u, log, given', i)
    {
      assert i in given ==> GivenAt(u, log, given, i);
      if i < at + |batch| && From(at, i) {
        assert at + (i - at) < |log| && Made(u, log[at + (i - at)], batch[i - at]);
      }
    }
  }

  lemma RecordedGrows(base: nat, consumed: seq<S.Context>, given: map<nat, S.Context>, batch: seq<S.Context>,
                      at: nat, consumed': seq<S.Context>)
    requires Recorded(base, consumed, given) && at == base + |consumed| && consumed' == consumed + batch
    ensures Recorded(base, consumed', Extended(given, at, batch)) == true
  {
    var given' := Extended(given, at, batch);
    forall i: nat | i < |consumed'|
      ensures RecordedAt(base, consumed', given', i)
    {
      if i < |consumed| {
        assert !From(at, base + i);
        assert RecordedAt(base, consumed, given, i);
      } else {
        assert From(at, base + i);
      }
    }
  }

  lemma DeliveryOn(u: Setup, log: seq<Record>, log': seq<Record>, base: nat, consumed: seq<S.Context>,
                   given: map<nat, S.Context>)
    requires Delivery(u, log, base, consumed, given) == true && log <= log'
    ensures Delivery(u, log', base, consumed, given) == true
  {
    assert DeliveryKey(true);
    forall i: nat | i in given
      ensures GivenAt(u, log', given, i)
    {
      assert GivenAt(u, log, given, i);
      assert log'[i] == log[i];
    }
  }

  /** A crash forgets the records after the watermark, and what was given of them. */
  lemma DeliveryCut(u: Setup, log: seq<Record>, base: nat, consumed: seq<S.Context>, given: map<nat, S.Context>,
                    mark: nat, acked: nat)
    requires Delivery(u, log, base, consumed, given) == true && acked <= base + |consumed| && acked <= mark <= |log|
    ensures Delivery(u, log[..mark], acked, [], map i | i in given && i < mark :: given[i]) == true
  {
    assert DeliveryKey(true);
    var given' := map i | i in given && i < mark :: given[i];
    forall i: nat | i in given'
      ensures GivenAt(u, log[..mark], given', i)
    {
      assert GivenAt(u, log, given, i);
      assert log[..mark][i] == log[i];
    }
  }

  /** The acknowledgement at the end of consume is a step of the queue. */
  lemma AckStep(u: Setup, y: System)
    requires Inv(u, y) && y.s.flush.Consuming? && y.s.flush.batch != []
    ensures var last, n := S.LastOffset(y.s.flush.batch), y.q.h.base + Consumed(y) + |y.s.flush.batch|;
            last.Some? && Q.Inv(u.cfg, Acked(y.q, u.decode(last.value.position), n))
  {
    var n := Consumed(y) + |y.s.flush.batch|;
    AckIsDequeuedOffset(u, y);
    var t := QueueStep(u.cfg, y.q, Q.AckOffset(n - 1));
    assert t == Acked(y.q, y.q.offsets[n - 1], y.q.h.base + n);
  }

  lemma KeepsFinish(u: Setup, y: System)
    requires Inv(u, y) == true && y.s.flush.Consuming? && y.s.flush.batch != []
    ensures Inv(u, Finished(u, y)) == true
  {
    FinishedParts(u, y);
    KeepsParts(u, y, Finished(u, y).q, S.Apply(y.s, S.Finish), y.q.h.base + Consumed(y),
               Extended(y.given, y.q.h.base + Consumed(y), y.s.flush.batch));
  }

  lemma KeepsParts(u: Setup, y: System, q: Q.State, s: S.State, at: nat, given: map<nat, S.Context>)
    requires Inv(u, y) == true && y.s.flush.Consuming? && y.s.flush.batch != []
    requires q == Finished(u, y).q && s == S.Apply(y.s, S.Finish)
    requires at == y.q.h.base + Consumed(y) && given == Extended(y.given, at, y.s.flush.batch)
    ensures Inv(u, y.(q := q, s := s, given := given)) == true
  {
    FinishAcks(u, y);
    SenderFinish(y.s);
    FinishDelivered(u, y, at, Flat(s.consumed), given);
    KeepsRest(u, y, q, s, given);
  }

  lemma FinishAcks(u: Setup, y: System)
    requires Inv(u, y) == true && y.s.flush.Consuming? && y.s.flush.batch != []
    ensures var q := Finished(u, y).q;
            Q.Inv(u.cfg, q) == true && q.h == y.q.h.(acked := y.q.h.base + |Flat(S.Apply(y.s, S.Finish).consumed)|) &&
            q.offsets == y.q.offsets
  {
    AckStep(u, y);
    SenderFinish(y.s);
  }

  lemma FinishedParts(u: Setup, y: System)
    requires S.Enabled(y.s, S.Finish) && y.s.flush.batch != []
    ensures Finished(u, y) == y.(q := Finished(u, y).q, s := S.Apply(y.s, S.Finish),
                                 given := Extended(y.given, y.q.h.base + Consumed(y), y.s.flush.batch))
  {
  }

  lemma FinishDelivered(u: Setup, y: System, at: nat, consumed: seq<S.Context>, given: map<nat, S.Context>)
    requires Inv(u, y) == true && y.s.flush.Consuming? && y.s.flush.batch != []
    requires at == y.q.h.base + Consumed(y) && consumed == Flat(S.Apply(y.s, S.Finish).consumed)
    requires given == Extended(y.given, at, y.s.flush.batch)
    ensures Delivery(u, y.q.h.log, y.q.h.base, consumed, given) == true
  {
    FinishDelivers(u, y.q.h.log, y.q.h.base, y.q.offsets, y.s, y.wire, y.given, at);
  }

  /** The parts of the invariant, for a step that leaves the records, the inputs and the wire. */
  lemma KeepsRest(u: Setup, y: System, q: Q.State, s: S.State, given: map<nat, S.Context>)
    requires Inv(u, y) == true && Q.Inv(u.cfg, q) == true && S.Inv(s) == true
    requires q.h.log == y.q.h.log && q.h.base == y.q.h.base && q.offsets == y.q.offsets
    requires s.inputs == y.s.inputs && s.max == y.s.max && s.minFlush == y.s.minFlush
    requires q.h.acked == q.h.base + |Flat(s.consumed)|
    requires Delivery(u, y.q.h.log, y.q.h.base, Flat(s.consumed), given) == true
    ensures Inv(u, y.(q := q, s := s, given := given)) == true
  {
  }

  lemma SenderFinish(s: S.State)
    requires S.Inv(s) && s.flush.Consuming? && s.flush.batch != []
    ensures var t := S.Apply(s, S.Finish);
            S.Inv(t) == true && |Flat(t.consumed)| == |Flat(s.consumed)| + |s.flush.batch|
  {
    S.InvStep(s, S.Finish);
    FlatAppend(s.consumed, s.flush.batch);
  }

  lemma FinishDelivers(u: Setup, log: seq<Record>, base: nat, offsets: seq<Cursor>, s: S.State,
                       wire: seq<S.Context>, given: map<nat, S.Context>, at: nat)
    requires at == base + |Flat(s.consumed)|
    requires S.Inv(s) == true && s.flush.Consuming? && s.flush.batch != []
    requires Carried(u, log, base, offsets, s.inputs + wire) == true
    requires Delivery(u, log, base, Flat(s.consumed), given) == true
    ensures Delivery(u, log, base, Flat(S.Apply(s, S.Finish).consumed),
                     Extended(given, at, s.flush.batch)) == true
  {
    InputsSplit(s, wire);
    FlatAppend(s.consumed, s.flush.batch);
    FinishDelivery(u, log, base, offsets, s.inputs + wire, Flat(s.consumed), s.flush.batch,
                   (if s.store.Replacing? then [] else s.buffer) + wire,
                   given, at, Flat(S.Apply(s, S.Finish).consumed));
  }

  /** The history after one more batch. */
  lemma FinishDelivery(u: Setup, log: seq<Record>, base: nat, offsets: seq<Cursor>, contexts: seq<S.Context>,
                       consumed: seq<S.Context>, batch: seq<S.Context>, rest: seq<S.Context>,
                       given: map<nat, S.Context>, at: nat, consumed': seq<S.Context>)
    requires contexts == consumed + batch + rest && at == base + |consumed| && consumed' == consumed + batch
    requires Carried(u, log, base, offsets, contexts) == true
    requires Delivery(u, log, base, consumed, given) == true
    ensures Delivery(u, log, base, consumed', Extended(given, at, batch)) == true
  {
    assert DeliveryKey(true);
    BatchMade(u, log, base, offsets, consumed, batch, rest);
    GivenGrows(u, log, at, given, batch, base + |consumed'|);
    RecordedGrows(base, consumed, given, batch, at, consumed');
  }

  /** What the sender holds, seen from the batch being consumed. */
  lemma InputsSplit(s: S.State, wire: seq<S.Context>)
    requires S.Conserved(s) && s.flush.Consuming?
    ensures s.inputs + wire ==
            Flat(s.consumed) + s.flush.batch + ((if s.store.Replacing? then [] else s.buffer) + wire)
  {
  }

  lemma InvStep(u: Setup, y: System, a: Action)
    requires Inv(u, y) && Enabled(u, y, a)
    ensures Inv(u, Apply(u, y, a))
  {
    match a
    case Queue(b) =>
      if b.PutReading? {
        KeepsPutReading(u, y);
      } else {
        var log := QueueStep(u.cfg, y.q, b).h.log;
        CarriedOn(u, y.q.h.log, log, y.q.h.base, y.q.offsets, y.s.inputs + y.wire);
        DeliveryOn(u, y.q.h.log, log, y.q.h.base, Flat(y.s.consumed), y.given);
      }
    case Pass => KeepsPass(u, y);
    case Send(b) =>
      if b.Finish? && y.s.flush.batch != [] {
        KeepsFinish(u, y);
      } else {
        S.InvStep(y.s, b);
      }
    case Crash(store) =>
      assert Recovered(y.q, QueueStep(u.cfg, y.q, Q.Crash(store)));
      DeliveryCut(u, y.q.h.log, y.q.h.base, Flat(y.s.consumed), y.given, y.q.h.mark, y.q.h.diskAcked);
      S.StartInv(u.max, u.minFlush);
  }

  // ----- runs -----

  ghost predicate CanRun(u: Setup, y: System, acts: seq<Action>)
    requires Inv(u, y)
    decreases |acts|
  {
    acts == [] ||
    (Enabled(u, y, acts[0]) && (InvStep(u, y, acts[0]); CanRun(u, Apply(u, y, acts[0]), acts[1..])))
  }

  /** Every state a run reaches keeps the invariant. */
  ghost function Final(u: Setup, y: System, acts: seq<Action>): (z: System)
    requires Inv(u, y) && CanRun(u, y, acts)
    ensures Inv(u, z)
    decreases |acts|
  {
    if acts == [] then y else
    InvStep(u, y, acts[0]);
    Final(u, Apply(u, y, acts[0]), acts[1..])
  }

  /** A newly created queue, whatever its files contain, and an empty sender. */
  ghost function Boot(u: Setup, store: Store): (y: System)
    requires u.Valid() && WellFormed(u.cfg.g, store)
    ensures Inv(u, y)
  {
    Q.InvFresh(u.cfg, store);
    S.StartInv(u.max, u.minFlush);
    System(Q.Fresh(store), [], S.Start(u.max, u.minFlush), map[])
  }

  ghost predicate RunsTo(u: Setup, x: System, acts: seq<Action>, y: System)
    requires Inv(u, x)
  {
    CanRun(u, x, acts) && Final(u, x, acts) == y
  }
}
