/** Receiver-side batching: the stream loop and the limiter's flush loop around one channel. */
module Limiter {
  import opened Basics
  import opened Batches

  datatype Message = Message(identifier: Option<int>, body: int)

  /** Where the stream loop is: before Recv, at the channel send, in Check, at the flush signal,
      at Stop, and after it. */
  datatype Producer = Receiving | Putting(m: Message) | Checking | Signalling | Stopping | Stopped

  /** Where the flush loop is; `last` marks the flush after which it returns. */
  datatype Flusher =
    | Selecting
    | Counting(last: bool)
    | Draining(left: nat, hand: seq<Message>, last: bool)
    | Returned

  datatype State = State(
    limit: nat, channel: seq<Message>, identity: Option<int>, producer: Producer, flusher: Flusher,
    received: seq<Message>, emitted: seq<seq<Message>>)

  datatype Action =
    | Recv(m: Message) | Put | Check | Signal | EndOfStream | Stop
    | Timer | Count | Drain | Emit

  function Start(limit: nat): State {
    State(limit, [], None, Receiving, Selecting, [], [])
  }

  /** Channel operations wait for room, for a message or for the other loop. */
  predicate Enabled(s: State, a: Action) {
    match a
    case Recv(m) => s.producer.Receiving?
    case Put => s.producer.Putting? && |s.channel| < 2 * s.limit
    case Check => s.producer.Checking?
    case Signal => s.producer.Signalling? && s.flusher.Selecting?
    case EndOfStream => s.producer.Receiving?
    case Stop => s.producer.Stopping? && s.flusher.Selecting?
    case Timer => s.flusher.Selecting?
    case Count => s.flusher.Counting?
    case Drain => s.flusher.Draining? && s.flusher.left > 0 && s.channel != []
    case Emit => s.flusher.Draining? && s.flusher.left == 0
  }

  /** The first message of a batch gets the identity of the stream. */
  function Stamped(batch: seq<Message>, identity: Option<int>): seq<Message> {
    if batch == [] then [] else [batch[0].(identifier := identity)] + batch[1..]
  }

  function AfterFlush(last: bool): Flusher {
    if last then Returned else Selecting
  }

  function Apply(s: State, a: Action): State
    requires Enabled(s, a)
  {
    match a
    case Recv(m) =>
      s.(producer := Putting(m), received := s.received + [m],
         identity := if m.identifier.Some? then m.identifier else s.identity)
    case Put => s.(producer := Checking, channel := s.channel + [s.producer.m])
    case Check => s.(producer := if |s.channel| >= s.limit then Signalling else Receiving)
    case Signal => s.(producer := Receiving, flusher := Counting(false))
    case EndOfStream => s.(producer := Stopping)
    case Stop => s.(producer := Stopped, flusher := Counting(true))
    case Timer => s.(flusher := Counting(false))
    case Count =>
      s.(flusher := if s.channel == [] then AfterFlush(s.flusher.last)
                    else Draining(|s.channel|, [], s.flusher.last))
    case Drain =>
      s.(channel := s.channel[1..],
         flusher := Draining(s.flusher.left - 1, s.flusher.hand + [s.channel[0]], s.flusher.last))
    case Emit =>
      s.(emitted := s.emitted + [Stamped(s.flusher.hand, s.identity)], flusher := AfterFlush(s.flusher.last))
  }

  // ----- the invariant -----

  function Bodies(ms: seq<Message>): (r: seq<int>)
    ensures |r| == |ms|
  {
    seq(|ms|, i requires 0 <= i < |ms| => ms[i].body)
  }

  /** Emitted, then in the flusher's hand, then in the channel, then in the producer's hand. */
  function Everywhere(s: State): seq<int> {
    Bodies(Flat(s.emitted))
    + (if s.flusher.Draining? then Bodies(s.flusher.hand) else [])
    + Bodies(s.channel)
    + (if s.producer.Putting? then [s.producer.m.body] else [])
  }

  /** How many messages the flusher has committed itself to. */
  function Left(f: Flusher): nat { if f.Draining? then f.left else 0 }

  /** The bound on the channel. `slack` is one between the send and the check after it. */
  predicate Bounded(s: State) {
    var slack := if s.producer.Checking? || s.producer.Signalling? then 1 else 0;
    && |s.channel| <= s.limit + slack
    && (s.flusher.Counting? || |s.channel| < s.limit + slack || |s.channel| <= Left(s.flusher) + slack)
  }

  ghost predicate Filled(batches: seq<seq<Message>>) {
    forall i :: 0 <= i < |batches| ==> batches[i] != []
  }

  lemma FilledNext(batches: seq<seq<Message>>, batch: seq<Message>, identity: Option<int>)
    requires Filled(batches) && batch != []
    ensures Filled(batches + [Stamped(batch, identity)]) == true
  {
  }

  /** Nothing received is lost, duplicated or out of order. */
  ghost predicate Accounted(s: State) {
    Bodies(s.received) == Everywhere(s)
  }

  ghost predicate Inv(s: State) {
    && s.limit >= 1
    && Accounted(s) == true
    && Bounded(s)
    && (s.flusher.Draining? ==>
          s.flusher.left <= |s.channel| && s.flusher.left + |s.flusher.hand| > 0)
    && Filled(s.emitted) == true
    && ((s.flusher.Returned? || (!s.flusher.Selecting? && s.flusher.last)) <==> s.producer.Stopped?)
    && (s.flusher.Returned? ==> s.channel == [])
    && (s.flusher.Draining? && s.flusher.last ==> s.flusher.left == |s.channel|)
  }

  lemma BodiesConcat(a: seq<Message>, b: seq<Message>)
    ensures Bodies(a + b) == Bodies(a) + Bodies(b)
  {
  }

  lemma InvStart(limit: nat)
    requires limit >= 1
    ensures Inv(Start(limit))
  {
  }

  lemma DrainKeepsAll(s: State)
    requires Enabled(s, Drain)
    ensures Everywhere(Apply(s, Drain)) == Everywhere(s)
  {
    var m, hand := s.channel[0], s.flusher.hand;
    assert s.channel == [m] + s.channel[1..];
    BodiesConcat([m], s.channel[1..]);
    BodiesConcat(hand, [m]);
    Slide(Bodies(Flat(s.emitted)), Bodies(hand), Bodies([m]), Bodies(s.channel[1..]));
  }

  lemma Slide(a: seq<int>, h: seq<int>, m: seq<int>, c: seq<int>)
    ensures a + h + (m + c) == a + (h + m) + c
  {
  }

  lemma EmitKeepsAll(s: State)
    requires Enabled(s, Emit)
    ensures Everywhere(Apply(s, Emit)) == Everywhere(s)
  {
    var hand := s.flusher.hand;
    var b := Stamped(hand, s.identity);
    StampedBodies(hand, s.identity);
    FlatAppend(s.emitted, b);
    BodiesConcat(Flat(s.emitted), b);
    var e := Bodies(Flat(s.emitted)) + Bodies(hand);
    assert e + [] == e;
  }

  lemma StampedBodies(batch: seq<Message>, identity: Option<int>)
    ensures Bodies(Stamped(batch, identity)) == Bodies(batch)
  {
  }

  /** No step loses, duplicates or reorders a message. */
  lemma StepKeepsAll(s: State, a: Action)
    requires Accounted(s) && Enabled(s, a)
    ensures Accounted(Apply(s, a)) == true
  {
    match a
    case Recv(m) => BodiesConcat(s.received, [m]);
    case Put =>
      BodiesConcat(s.channel, [s.producer.m]);
      assert Everywhere(Apply(s, a)) == Everywhere(s);
    case Drain => DrainKeepsAll(s);
    case Emit => EmitKeepsAll(s);
    case _ => assert Everywhere(Apply(s, a)) == Everywhere(s);
  }

  lemma InvStep(s: State, a: Action)
    requires Inv(s) && Enabled(s, a)
    ensures Inv(Apply(s, a))
  {
    StepKeepsAll(s, a);
    if a.Emit? {
      FilledNext(s.emitted, s.flusher.hand, s.identity);
    }
  }

  /** With a positive limit the producer's send always finds room. */
  lemma SendNeverBlocks(s: State)
    requires Inv(s) && s.producer.Putting?
    ensures Enabled(s, Put)
  {
  }

  /** The flusher never waits for a message it has counted. */
  lemma DrainNeverBlocks(s: State)
    requires Inv(s) && s.flusher.Draining? && s.flusher.left > 0
    ensures Enabled(s, Drain)
  {
  }

  // ----- runs -----

  ghost predicate CanRun(s: State, acts: seq<Action>)
    decreases |acts|
  {
    acts == [] || (Enabled(s, acts[0]) && CanRun(Apply(s, acts[0]), acts[1..]))
  }

  ghost function Final(s: State, acts: seq<Action>): State
    requires CanRun(s, acts)
    decreases |acts|
  {
    if acts == [] then s else Final(Apply(s, acts[0]), acts[1..])
  }

  function Arrivals(acts: seq<Action>): seq<Message> {
    if acts == [] then [] else (if acts[0].Recv? then [acts[0].m] else []) + Arrivals(acts[1..])
  }

  lemma {:induction false} RunInv(s: State, acts: seq<Action>)
    requires Inv(s) && CanRun(s, acts)
    ensures Inv(Final(s, acts))
    decreases |acts|
  {
    if acts == [] {
    } else {
      InvStep(s, acts[0]);
      RunInv(Apply(s, acts[0]), acts[1..]);
    }
  }

  lemma {:induction false} RunArrivals(s: State, acts: seq<Action>)
    requires CanRun(s, acts)
    ensures Final(s, acts).received == s.received + Arrivals(acts)
    decreases |acts|
  {
    if acts == [] {
    } else {
      var now := if acts[0].Recv? then [acts[0].m] else [];
      assert Apply(s, acts[0]).received == s.received + now;
      RunArrivals(Apply(s, acts[0]), acts[1..]);
      assert s.received + (now + Arrivals(acts[1..])) == (s.received + now) + Arrivals(acts[1..]);
    }
  }

  /** `id` is the latest identity among the messages, or the one before them if they have none. */
  ghost predicate IsLatest(ms: seq<Message>, before: Option<int>, id: Option<int>) {
    if forall i :: 0 <= i < |ms| ==> ms[i].identifier.None? then id == before
    else exists i :: LatestAt(ms, i, id)
  }

  ghost predicate LatestAt(ms: seq<Message>, i: nat, id: Option<int>) {
    i < |ms| && id.Some? && id == ms[i].identifier && forall j :: i < j < |ms| ==> ms[j].identifier.None?
  }

  lemma LatestFront(m: Message, rest: seq<Message>, before: Option<int>, id: Option<int>)
    requires IsLatest(rest, if m.identifier.Some? then m.identifier else before, id)
    ensures IsLatest([m] + rest, before, id)
  {
    var ms := [m] + rest;
    if forall i :: 0 <= i < |rest| ==> rest[i].identifier.None? {
      if m.identifier.Some? {
        assert ms[0] == m && LatestAt(ms, 0, id);
      }
    } else {
      var i: nat :| LatestAt(rest, i, id);
      assert ms[i + 1] == rest[i];
      assert LatestAt(ms, i + 1, id);
    }
  }

  /** The identity of the stream is the latest that arrived. */
  lemma {:induction false} IdentityIsLatest(s: State, acts: seq<Action>)
    requires CanRun(s, acts)
    ensures IsLatest(Arrivals(acts), s.identity, Final(s, acts).identity)
    decreases |acts|
  {
    if acts != [] {
      IdentityIsLatest(Apply(s, acts[0]), acts[1..]);
      if acts[0].Recv? {
        LatestFront(acts[0].m, Arrivals(acts[1..]), s.identity, Final(s, acts).identity);
      } else {
        assert [] + Arrivals(acts[1..]) == Arrivals(acts[1..]);
      }
    }
  }

  /** With a zero limit the channel has no room at all: the first send waits forever. */
  lemma {:induction false} ZeroLimitBlocks(s: State, acts: seq<Action>)
    requires s.limit == 0 && s.producer.Putting? && CanRun(s, acts)
    ensures Final(s, acts).producer == s.producer
    decreases |acts|
  {
    if acts == [] {
    } else {
      ZeroLimitBlocks(Apply(s, acts[0]), acts[1..]);
    }
  }

  /** In every interleaving the arrivals are what was emitted, what the flusher holds, what is
      in the channel and what is about to be sent, in that order; the channel never holds more
      than one message above the limit; and once the flusher has returned all was emitted. */
  lemma Batching(limit: nat, acts: seq<Action>)
    requires limit >= 1 && CanRun(Start(limit), acts)
    ensures var t := Final(Start(limit), acts);
            Bodies(Arrivals(acts)) == Everywhere(t) && |t.channel| <= limit + 1 &&
            Filled(t.emitted) &&
            (t.flusher.Returned? ==> Bodies(Arrivals(acts)) == Bodies(Flat(t.emitted)))
  {
    InvStart(limit);
    RunInv(Start(limit), acts);
    RunArrivals(Start(limit), acts);
    RunLimit(Start(limit), acts);
    var t := Final(Start(limit), acts);
    assert [] + Arrivals(acts) == Arrivals(acts);
    if t.flusher.Returned? {
      assert Everywhere(t) == Bodies(Flat(t.emitted));
    }
  }

  lemma {:induction false} RunLimit(s: State, acts: seq<Action>)
    requires CanRun(s, acts)
    ensures Final(s, acts).limit == s.limit
    decreases |acts|
  {
    if acts == [] {
    } else {
      RunLimit(Apply(s, acts[0]), acts[1..]);
    }
  }

  // ----- what makes the flusher flush -----

  lemma RunAppend(s: State, acts: seq<Action>, a: Action)
    requires CanRun(s, acts) && Enabled(Final(s, acts), a)
    ensures CanRun(s, acts + [a]) && Final(s, acts + [a]) == Apply(Final(s, acts), a)
    decreases |acts|
  {
    if acts == [] {
      assert [a][1..] == [] && acts + [a] == [a];
    } else {
      RunAppend(Apply(s, acts[0]), acts[1..], a);
      assert (acts + [a])[1..] == acts[1..] + [a];
    }
  }

  lemma Prepended(s: State, a: Action, rest: seq<Action>) returns (acts: seq<Action>)
    requires Enabled(s, a) && CanRun(Apply(s, a), rest)
    ensures acts == [a] + rest && CanRun(s, acts) && Final(s, acts) == Final(Apply(s, a), rest)
  {
    acts := [a] + rest;
    assert acts[1..] == rest;
  }

  lemma OnlyStep(s: State, a: Action) returns (acts: seq<Action>)
    requires Enabled(s, a)
    ensures acts == [a] && CanRun(s, acts) && Final(s, acts) == Apply(s, a)
  {
    assert CanRun(Apply(s, a), []) && Final(Apply(s, a), []) == Apply(s, a);
    acts := Prepended(s, a, []);
    assert [a] + [] == [a];
  }

  /** The batch that a flush sends: the channel's messages as they are, but that the first one has the
      identity of the stream. */
  ghost predicate IsBatch(batch: seq<Message>, channel: seq<Message>, identity: Option<int>) {
    && |batch| == |channel| > 0
    && batch[0].identifier == identity && batch[0].body == channel[0].body && batch[1..] == channel[1..]
  }

  /** `t` is `s` once all of the channel was sent as one more batch. */
  ghost predicate Flushed(s: State, t: State, channel: seq<Message>, last: bool) {
    && t.channel == [] && t.flusher == AfterFlush(last) && t.producer == s.producer
    && |t.emitted| == |s.emitted| + 1 && t.emitted[..|s.emitted|] == s.emitted
    && IsBatch(t.emitted[|s.emitted|], channel, s.identity)
  }

  /** The drain loop takes what was counted and sends it. */
  lemma {:induction false} DrainsAll(s: State) returns (acts: seq<Action>)
    requires s.flusher.Draining? && s.flusher.left == |s.channel| && s.flusher.left + |s.flusher.hand| > 0
    ensures CanRun(s, acts) && Flushed(s, Final(s, acts), s.flusher.hand + s.channel, s.flusher.last)
    decreases |s.channel|
  {
    if s.channel == [] {
      acts := OnlyStep(s, Emit);
      assert s.flusher.hand + s.channel == s.flusher.hand;
    } else {
      var t := Apply(s, Drain);
      var rest := DrainsAll(t);
      acts := Prepended(s, Drain, rest);
      assert t.flusher.hand + t.channel == s.flusher.hand + s.channel;
    }
  }

  /** A flush of a channel that is not empty sends all of it. */
  lemma CountsAll(s: State) returns (acts: seq<Action>)
    requires s.flusher.Counting? && s.channel != []
    ensures CanRun(s, acts) && Flushed(s, Final(s, acts), s.channel, s.flusher.last)
  {
    var t := Apply(s, Count);
    var rest := DrainsAll(t);
    acts := Prepended(s, Count, rest);
    assert [] + s.channel == s.channel;
  }

  /** The timer has the channel flushed, however few messages it holds. */
  lemma TimerFlushes(s: State) returns (acts: seq<Action>)
    requires s.flusher.Selecting? && s.channel != []
    ensures CanRun(s, acts) && Flushed(s, Final(s, acts), s.channel, false)
  {
    var rest := CountsAll(Apply(s, Timer));
    acts := Prepended(s, Timer, rest);
  }

  /** So does the message that reaches the limit. */
  lemma LimitFlushes(s: State, m: Message) returns (acts: seq<Action>)
    requires Inv(s) && s.producer.Receiving? && s.flusher.Selecting? && |s.channel| + 1 == s.limit
    requires m.identifier.None?
    ensures CanRun(s, acts) && Final(s, acts).producer.Receiving?
    ensures Flushed(s.(producer := Receiving), Final(s, acts), s.channel + [m], false)
  {
    var a := Apply(s, Recv(m));
    var b := Apply(a, Put);
    var c := Apply(b, Check);
    var d := Apply(c, Signal);
    var rest := CountsAll(d);
    var signalled := Prepended(c, Signal, rest);
    var checked := Prepended(b, Check, signalled);
    var put := Prepended(a, Put, checked);
    acts := Prepended(s, Recv(m), put);
  }

  /** And the end of the stream, after which the flusher returns. */
  lemma StopFlushes(s: State) returns (acts: seq<Action>)
    requires s.producer.Receiving? && s.flusher.Selecting?
    ensures CanRun(s, acts) && Final(s, acts).flusher.Returned? && Final(s, acts).channel == []
    ensures s.channel != [] ==> Flushed(s.(producer := Stopped), Final(s, acts), s.channel, true)
    ensures s.channel == [] ==> Final(s, acts).emitted == s.emitted
  {
    var a := Apply(s, EndOfStream);
    var b := Apply(a, Stop);
    var rest: seq<Action>;
    if s.channel == [] {
      rest := OnlyStep(b, Count);
    } else {
      rest := CountsAll(b);
    }
    var stop := Prepended(a, Stop, rest);
    acts := Prepended(s, EndOfStream, stop);
  }

  /** Runs without the timer, before the end of the stream. */
  predicate Untimed(acts: seq<Action>) {
    forall i :: 0 <= i < |acts| ==> !acts[i].Timer? && !acts[i].EndOfStream? && !acts[i].Stop?
  }

  /** Before the limit is reached nothing is flushed but by the timer and at the end of the stream. */
  lemma NoEarlyFlush(limit: nat, acts: seq<Action>)
    requires CanRun(Start(limit), acts) && Untimed(acts) && |Arrivals(acts)| < limit
    ensures var t := Final(Start(limit), acts);
            t.emitted == [] && t.flusher.Selecting? && !t.producer.Signalling?
  {
    Quiet(Start(limit), acts);
  }

  lemma {:induction false} Quiet(s: State, acts: seq<Action>)
    requires CanRun(s, acts) && Untimed(acts) && Waiting(s) && |s.received| + |Arrivals(acts)| < s.limit
    ensures Waiting(Final(s, acts))
    decreases |acts|
  {
    if acts != [] {
      var now := if acts[0].Recv? then [acts[0].m] else [];
      assert |Arrivals(acts)| == |now| + |Arrivals(acts[1..])|;
      Quiet(Apply(s, acts[0]), acts[1..]);
    }
  }

  predicate Waiting(s: State) {
    && s.emitted == [] && s.flusher.Selecting? && !s.producer.Signalling? && !s.producer.Stopping? && !s.producer.Stopped?
    && |s.channel| + (if s.producer.Putting? then 1 else 0) <= |s.received|
  }

  // ----- batches below the limit -----

  /** Without the timer, and before the end of the stream, every batch reaches the limit. */
  ghost predicate AlwaysFull(limit: nat) {
    forall acts :: Untimed(acts) && CanRun(Start(limit), acts) ==> FullBatches(Final(Start(limit), acts), limit)
  }

  ghost predicate FullBatches(s: State, limit: nat) {
    forall i :: 0 <= i < |s.emitted| ==> |s.emitted[i]| >= limit
  }

  /** That is so only of a limit of one: while a batch is taken from the channel, the messages still in it
      count for the next signal. */
  lemma AlwaysFullIff(limit: nat)
    requires limit >= 1
    ensures AlwaysFull(limit) <==> limit == 1
  {
    if limit == 1 {
      forall acts | Untimed(acts) && CanRun(Start(limit), acts)
        ensures FullBatches(Final(Start(limit), acts), limit)
      {
        InvStart(limit);
        RunInv(Start(limit), acts);
      }
    } else {
      var t := SmallBatch(limit);
      var acts :| Untimed(acts) && CanRun(Start(limit), acts) && Final(Start(limit), acts) == t;
    }
  }

  /** Some untimed run ends in `t`. */
  ghost predicate Comes(limit: nat, t: State) {
    exists acts :: Untimed(acts) && CanRun(Start(limit), acts) && Final(Start(limit), acts) == t
  }

  lemma ComesNext(limit: nat, s: State, a: Action) returns (t: State)
    requires Comes(limit, s) && Enabled(s, a) && !a.Timer? && !a.EndOfStream? && !a.Stop?
    ensures Comes(limit, t) && t == Apply(s, a)
  {
    var acts :| Untimed(acts) && CanRun(Start(limit), acts) && Final(Start(limit), acts) == s;
    t := Apply(s, a);
    RunAppend(Start(limit), acts, a);
    assert Untimed(acts + [a]);
  }

  const PLAIN := Message(None, 0)

  /** One more message, up to the check after it. */
  lemma ComesMessage(limit: nat, s: State) returns (t: State)
    requires Comes(limit, s) && s.producer.Receiving? && s.limit == limit && |s.channel| < 2 * limit
    ensures Comes(limit, t)
    ensures t == s.(received := s.received + [PLAIN], channel := s.channel + [PLAIN],
                    producer := if |s.channel| + 1 >= limit then Signalling else Receiving)
  {
    var a := ComesNext(limit, s, Recv(PLAIN));
    var b := ComesNext(limit, a, Put);
    t := ComesNext(limit, b, Check);
  }

  /** The channel filled up to the limit. */
  lemma {:induction false} ComesFull(limit: nat, k: nat) returns (t: State)
    requires 1 <= k <= limit
    ensures Comes(limit, t) && t.limit == limit && |t.channel| == k && t.flusher.Selecting? && t.emitted == []
    ensures t.producer == if k == limit then Signalling else Receiving
    decreases k
  {
    var s: State;
    if k == 1 {
      s := Start(limit);
      assert Untimed([]) && CanRun(s, []) && Final(s, []) == s;
    } else {
      s := ComesFull(limit, k - 1);
    }
    t := ComesMessage(limit, s);
  }

  /** The drain loop, with one message more in the channel than was counted. */
  lemma {:induction false} ComesDrained(limit: nat, s: State) returns (t: State)
    requires Comes(limit, s) && s.flusher.Draining? && !s.flusher.last && |s.channel| == s.flusher.left + 1
    ensures Comes(limit, t) && |t.channel| == 1 && t.flusher.Selecting? && t.producer == s.producer
    ensures |t.emitted| == |s.emitted| + 1
    decreases s.flusher.left
  {
    if s.flusher.left == 0 {
      t := ComesNext(limit, s, Emit);
    } else {
      var u := ComesNext(limit, s, Drain);
      t := ComesDrained(limit, u);
    }
  }

  /** A second batch of one message. */
  lemma SmallBatch(limit: nat) returns (t: State)
    requires limit >= 2
    ensures Comes(limit, t) && !FullBatches(t, limit)
  {
    var a := ComesFull(limit, limit);
    var b := ComesNext(limit, a, Signal);
    var c := ComesNext(limit, b, Count);
    var d := ComesMessage(limit, c);
    var e := ComesDrained(limit, d);
    var f := ComesNext(limit, e, Signal);
    var g := ComesNext(limit, f, Count);
    var h := ComesNext(limit, g, Drain);
    t := ComesNext(limit, h, Emit);
    assert |t.emitted[|e.emitted|]| == 1;
  }
}
