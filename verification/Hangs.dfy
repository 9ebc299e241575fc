/** Runs after which the swap of a full cache never ends. */
module Hangs {
  import opened Basics
  import opened Bytes
  import opened Layout
  import opened Records
  import opened SegmentCache
  import opened MmapQueue
  import opened Interleaving
  import opened Runs
  import opened Residency

  // ----- runs, step by step -----

  /** Some run of a queue ends in `y`. */
  ghost predicate Attains(cfg: Config, y: System) {
    exists ys: seq<System>, acts: seq<Action> :: IsRun(cfg, ys, acts) && ys[|acts|] == y
  }

  lemma AttainsOpened(cfg: Config, y: System)
    requires Opened(cfg, y)
    ensures Attains(cfg, y)
  {
    assert IsRun(cfg, [y], []) && [y][0] == y;
  }

  lemma AttainsStep(cfg: Config, y: System, a: Action, z: System)
    requires Attains(cfg, y) && Step(cfg, y, a, z)
    ensures Attains(cfg, z) && Inv(cfg, z.q)
  {
    var ys: seq<System>, acts: seq<Action> :| IsRun(cfg, ys, acts) && ys[|acts|] == y;
    var ys', acts' := ys + [z], acts + [a];
    forall i | 0 <= i < |acts'|
      ensures StepAt(cfg, ys', acts', i)
    {
      if i < |acts| {
        assert StepAt(cfg, ys, acts, i);
      }
    }
    assert IsRun(cfg, ys', acts') && ys'[|acts'|] == z;
    InvStep(cfg, y.q, a);
  }

  /** A step that gets a segment, with a swap or without. */
  lemma Gets(cfg: Config, y: System, a: Action, id: nat, now: set<nat>) returns (z: System)
    requires Attains(cfg, y) && Inv(cfg, y.q) && Enabled(cfg, y.q, a) && !a.Crash?
    requires Access(cfg.g, y.q, a) == Some(id)
    requires Fetched(cfg.g, cfg.maxInMem, y.mapped, now, y.q.meta.reading.id, y.q.meta.writing.id, id)
    ensures Attains(cfg, z) && Inv(cfg, z.q) && z == System(Apply(cfg, y.q, a), now)
  {
    z := System(Apply(cfg, y.q, a), now);
    AttainsStep(cfg, y, a, z);
  }

  /** A step that gets none; a reader that leaves its segment has it unmapped. */
  lemma Moves(cfg: Config, y: System, a: Action) returns (z: System)
    requires Attains(cfg, y) && Inv(cfg, y.q) && Enabled(cfg, y.q, a) && !a.Crash? && !a.WriteFails? && !a.ReadFails?
    requires Access(cfg.g, y.q, a) == None
    ensures Attains(cfg, z) && Inv(cfg, z.q) && z.q == Apply(cfg, y.q, a)
    ensures z.mapped == if a.PutReading? && z.q.meta.reading.id != y.q.meta.reading.id
                        then y.mapped - {Index(cfg.g, y.q.meta.reading.id)} else y.mapped
  {
    var q := Apply(cfg, y.q, a);
    z := System(q, if a.PutReading? && q.meta.reading.id != y.q.meta.reading.id
                   then y.mapped - {Index(cfg.g, y.q.meta.reading.id)} else y.mapped);
    AttainsStep(cfg, y, a, z);
  }

  /** A run has come to `y`. */
  ghost predicate Running(cfg: Config, y: System) {
    cfg.Valid() && Attains(cfg, y) && Inv(cfg, y.q)
  }

  /** The swap, the get and the segments mapped after it. */
  ghost predicate Fetch(cfg: Config, y: System, id: nat, now: set<nat>)
    requires cfg.Valid()
  {
    Fetched(cfg.g, cfg.maxInMem, y.mapped, now, y.q.meta.reading.id, y.q.meta.writing.id, id)
  }

  lemma Adds(cfg: Config, y: System, id: nat, now: set<nat>)
    requires cfg.Valid() && |y.mapped| < cfg.maxInMem && now == y.mapped + {Index(cfg.g, id)}
    ensures Fetch(cfg, y, id, now)
  {
  }

  lemma IndexSmall(g: Geometry, k: nat)
    requires g.Valid() && k < g.count
    ensures Index(g, k) == k
  {
    ModUnique(k, g.count, 0, k);
  }

  /** The run has come to a step that would have to get a segment, and the swap for it never ends. */
  ghost predicate HangsAt(cfg: Config, y: System) {
    Running(cfg, y) && Hung(cfg, y) && exists a :: Enabled(cfg, y.q, a) && Access(cfg.g, y.q, a).Some?
  }

  // ----- the writer's part -----

  /** `z` is `y` but for the writer, what it wrote, and the mapping. */
  ghost predicate OnlyWriter(y: System, z: System) {
    z.q.reader == y.q.reader && z.q.meta == y.q.meta && z.q.h == y.q.h
  }

  /** Past the fullness check and the length word. */
  lemma WritesWord(cfg: Config, y: System, data: Record, id: nat, now: set<nat>) returns (z: System)
    requires Running(cfg, y) && y.q.writer.WIdle? && Enabled(cfg, y.q, CheckRoom(data))
    requires id == SkipCursor(cfg.g, y.q.meta.writing).id && Fetch(cfg, y, id, now)
    ensures Running(cfg, z) && z.mapped == now && OnlyWriter(y, z)
    ensures z.q.writer == WBytes(data, 0, Advance(cfg.g, SkipCursor(cfg.g, y.q.meta.writing), WORD))
  {
    var a := Moves(cfg, y, CheckRoom(data));
    z := Gets(cfg, a, PutLength, id, now);
  }

  lemma WritesChunk(cfg: Config, y: System, now: set<nat>) returns (z: System)
    requires Running(cfg, y) && y.q.writer.WBytes? && y.q.writer.at.offset < cfg.g.size
    requires y.q.writer.done <= |y.q.writer.data| && Fetch(cfg, y, y.q.writer.at.id, now)
    ensures Running(cfg, z) && z.mapped == now && OnlyWriter(y, z)
    ensures z.q.writer == AfterWrite(cfg.g, y.q.writer, |NextChunk(cfg.g, y.q.writer)|)
  {
    z := Gets(cfg, y, PutChunk, y.q.writer.at.id, now);
  }

  /** A record of `n` bytes payload at `c` has some of it in the word's segment, and all. */
  predicate InOneSegment(g: Geometry, c: Cursor, n: nat) {
    c.offset + WORD < g.size && c.offset + WORD + n <= g.size
  }

  /** An event whose record lies in one segment. */
  lemma Puts(cfg: Config, y: System, data: Record, c: Cursor, one: set<nat>, two: set<nat>) returns (z: System)
    requires Running(cfg, y) && y.q.writer.WIdle? && Enabled(cfg, y.q, CheckRoom(data))
    requires c == SkipCursor(cfg.g, y.q.meta.writing) && InOneSegment(cfg.g, c, |data|)
    requires Fetch(cfg, y, c.id, one) && Fetch(cfg, y.(mapped := one), c.id, two)
    ensures Running(cfg, z) && z.mapped == two && z.q.writer.WIdle? && z.q.reader == y.q.reader
    ensures z.q.meta == y.q.meta.(writing := Advance(cfg.g, c, WORD + |data|))
    ensures z.q.h == y.q.h.(log := y.q.h.log + [data])
  {
    var a := WritesWord(cfg, y, data, c.id, one);
    var b := WritesChunk(cfg, a, two);
    assert b.q.writer == WPublish(data, Advance(cfg.g, c, WORD + |data|));
    z := Moves(cfg, b, PutWriting);
  }

  // ----- the reader's part -----

  /** `z` is `y` but for the reader and the mapping. */
  ghost predicate OnlyReader(y: System, z: System) {
    z.q == y.q.(reader := z.q.reader)
  }

  lemma ReadsWord(cfg: Config, y: System, id: nat, now: set<nat>) returns (z: System)
    requires Running(cfg, y) && y.q.reader.RIdle? && y.q.h.head < |y.q.h.log|
    requires id == SkipCursor(cfg.g, y.q.meta.reading).id && Fetch(cfg, y, id, now)
    ensures Running(cfg, z) && z.mapped == now && OnlyReader(y, z)
    ensures z.q.reader == RBytes(|y.q.h.log[y.q.h.head]|, [], Advance(cfg.g, SkipCursor(cfg.g, y.q.meta.reading), WORD))
  {
    CursorOrder(cfg, y.q);
    var a := Moves(cfg, y, CheckEmpty);
    z := Gets(cfg, a, GetLength, id, now);
    assert ReaderKey(true);
  }

  /** The one chunk of a record that ends in this segment. */
  lemma ReadsChunk(cfg: Config, y: System, len: nat, at: Cursor, now: set<nat>) returns (z: System)
    requires Running(cfg, y) && y.q.reader == RBytes(len, [], at)
    requires at.offset < cfg.g.size && at.offset + len <= cfg.g.size && Fetch(cfg, y, at.id, now)
    ensures Running(cfg, z) && z.mapped == now && OnlyReader(y, z)
    ensures z.q.reader.RPublish? && z.q.reader.at == Advance(cfg.g, at, len)
  {
    z := Gets(cfg, y, GetChunk, at.id, now);
  }

  /** A dequeue of a record that lies in one segment. */
  lemma Takes(cfg: Config, y: System, n: nat, c: Cursor, one: set<nat>, two: set<nat>) returns (z: System)
    requires Running(cfg, y) && y.q.reader.RIdle? && y.q.h.head < |y.q.h.log| && n == |y.q.h.log[y.q.h.head]|
    requires c == SkipCursor(cfg.g, y.q.meta.reading) && InOneSegment(cfg.g, c, n)
    requires Fetch(cfg, y, c.id, one) && Fetch(cfg, y.(mapped := one), c.id, two)
    ensures Running(cfg, z) && z.q.reader.RIdle? && z.q.writer == y.q.writer
    ensures z.q.meta == y.q.meta.(reading := Advance(cfg.g, c, WORD + n))
    ensures z.q.h == y.q.h.(head := y.q.h.head + 1)
    ensures z.mapped == if z.q.meta.reading.id != y.q.meta.reading.id
                        then two - {Index(cfg.g, y.q.meta.reading.id)} else two
  {
    var a := ReadsWord(cfg, y, c.id, one);
    var b := ReadsChunk(cfg, a, n, Cursor(c.id, c.offset + WORD), two);
    z := Moves(cfg, b, PutReading);
  }

  // ----- small records that fill a segment -----

  /** Records of eight and nine bytes can fill a segment from `o` up to `t`. */
  predicate Fillable(o: nat, t: nat) {
    o <= t && 9 * ((t - o) % 8) <= t - o
  }

  /** One byte as long as a multiple of eight is not left, and then no byte. */
  function Piece(o: nat, t: nat): (r: Record)
    requires Fillable(o, t)
    ensures o < t ==> Fillable(o + WORD + |r|, t)
  {
    if (t - o) % 8 == 0 then [] else [0]
  }

  function Pieces(o: nat, t: nat): seq<Record>
    requires Fillable(o, t)
    decreases t - o
  {
    if o == t then [] else [Piece(o, t)] + Pieces(o + WORD + |Piece(o, t)|, t)
  }

  /** The writer goes on to offset `t` of its segment. */
  lemma {:induction false} Fills(cfg: Config, y: System, w: nat, o: nat, t: nat, now: set<nat>) returns (z: System)
    requires Running(cfg, y) && y.q.writer.WIdle? && y.q.meta.writing == Cursor(w, o)
    requires !Full(cfg.g, cfg.maxEventSize, y.q.meta.reading.id, w) && cfg.maxEventSize >= 1
    requires o < t < cfg.g.size && Fillable(o, t)
    requires |y.mapped| < cfg.maxInMem && now == y.mapped + {Index(cfg.g, w)} && |now| < cfg.maxInMem
    ensures Running(cfg, z) && z.mapped == now && z.q.writer.WIdle? && z.q.reader == y.q.reader
    ensures z.q.meta == y.q.meta.(writing := Cursor(w, t))
    ensures z.q.h == y.q.h.(log := y.q.h.log + Pieces(o, t))
    decreases t - o
  {
    var r := Piece(o, t);
    Adds(cfg, y, w, now);
    assert now + {Index(cfg.g, w)} == now;
    Adds(cfg, y.(mapped := now), w, now);
    z := Puts(cfg, y, r, Cursor(w, o), now, now);
    assert y.q.h.log + [r] + Pieces(o + WORD + |r|, t) == y.q.h.log + Pieces(o, t);
    if o + WORD + |r| < t {
      z := Fills(cfg, z, w, o + WORD + |r|, t, now);
    }
  }

  /** The reader goes on to offset `t` of its segment. */
  lemma {:induction false} Drains(cfg: Config, y: System, r: nat, o: nat, t: nat) returns (z: System)
    requires Running(cfg, y) && y.q.reader.RIdle? && y.q.meta.reading == Cursor(r, o) && y.q.h.head <= |y.q.h.log|
    requires o <= t < cfg.g.size && Fillable(o, t) && Pieces(o, t) <= y.q.h.log[y.q.h.head..]
    requires |y.mapped| < cfg.maxInMem && Index(cfg.g, r) in y.mapped
    ensures Running(cfg, z) && z.mapped == y.mapped && z.q.reader.RIdle? && z.q.writer == y.q.writer
    ensures z.q.meta == y.q.meta.(reading := Cursor(r, t))
    ensures z.q.h == y.q.h.(head := y.q.h.head + |Pieces(o, t)|)
    decreases t - o
  {
    if o == t {
      z := y;
    } else {
      var p, head := Piece(o, t), y.q.h.head;
      assert y.q.h.log[head] == y.q.h.log[head..][0] == p;
      assert y.mapped + {Index(cfg.g, r)} == y.mapped;
      Adds(cfg, y, r, y.mapped);
      var a := Takes(cfg, y, |p|, Cursor(r, o), y.mapped, y.mapped);
      assert y.q.h.log[head + 1..] == y.q.h.log[head..][1..];
      z := Drains(cfg, a, r, o + WORD + |p|, t);
    }
  }

  // ----- a new queue -----

  lemma NewRun(cfg: Config, store: Store) returns (y: System)
    requires cfg.Valid() && WellFormed(cfg.g, store)
    ensures Running(cfg, y) && y == System(Fresh(store), {0})
  {
    InvFresh(cfg, store);
    IndexSmall(cfg.g, 0);
    y := System(Fresh(store), {0});
    AttainsOpened(cfg, y);
  }

  // ----- an event nearly as long as the cache -----

  /** An event may fill all segments that can be mapped but one, with room for one that does and for
      another segment, and some segment is always outside the window and what is mapped. */
  predicate TakesLong(cfg: Config)
    requires cfg.Valid()
  {
    && cfg.maxEventSize >= cfg.g.size * (cfg.maxInMem - 1) && !Full(cfg.g, cfg.maxEventSize, 0, 1)
    && cfg.g.count + 1 >= 2 * cfg.maxInMem && cfg.g.size >= 128 && cfg.g.size % WORD == 0
  }

  /** The writer at `writer`, the reader in segment 0, and the first segments mapped. */
  ghost predicate AheadBy(cfg: Config, y: System, writer: Writer, writing: Cursor, k: nat) {
    && Running(cfg, y) && y.q.writer == writer && y.q.meta.writing == writing && y.q.meta.reading.id == 0
    && y.mapped == Range(0, k)
  }

  /** Small events fill segment 0, and nothing is read. */
  lemma FillsFirst(cfg: Config, store: Store) returns (y: System)
    requires cfg.Valid() && TakesLong(cfg) && WellFormed(cfg.g, store)
    ensures AheadBy(cfg, y, WIdle, Cursor(1, 0), 1)
  {
    var x := NewRun(cfg, store);
    IndexSmall(cfg.g, 0);
    AtLeastSize(cfg.g.size, cfg.maxInMem - 1);
    assert {0} + {0} == {0} && !Full(cfg.g, cfg.maxEventSize, 0, 0);
    var a := Fills(cfg, x, 0, 0, cfg.g.size - 9, {0});
    Adds(cfg, a, 0, {0});
    y := Puts(cfg, a, [0], Cursor(0, cfg.g.size - 9), {0}, {0});
    assert Between(0, 1, 0) && y.mapped == Range(0, 1);
  }

  lemma AtLeastSize(size: nat, k: nat)
    requires k >= 1
    ensures size * k >= size
  {
    assert size * (k - 1) >= 0;
  }

  /** The event fills segments up to `k`, while the writing cursor stays in segment 1. */
  lemma {:induction false} FillsSegments(cfg: Config, store: Store, data: Record, k: nat) returns (y: System)
    requires cfg.Valid() && TakesLong(cfg) && WellFormed(cfg.g, store)
    requires cfg.g.size * (cfg.maxInMem - 1) == |data| <= cfg.maxEventSize && 1 <= k < cfg.maxInMem
    ensures cfg.g.size * k >= WORD
    ensures AheadBy(cfg, y, WBytes(data, cfg.g.size * k - WORD, Cursor(k + 1, 0)), Cursor(1, 0), k + 1)
  {
    AtLeastSize(cfg.g.size, cfg.maxInMem - 1);
    if k == 1 {
      var a := FillsFirst(cfg, store);
      y := StartsLong(cfg, a, data);
    } else {
      var a := FillsSegments(cfg, store, data, k - 1);
      SegmentsLeft(cfg.g.size, cfg.maxInMem - 1, k);
      y := FillsNext(cfg, a, data, cfg.g.size * (k - 1) - WORD, k);
    }
  }

  lemma StartsLong(cfg: Config, y: System, data: Record) returns (z: System)
    requires cfg.Valid() && TakesLong(cfg) && AheadBy(cfg, y, WIdle, Cursor(1, 0), 1)
    requires cfg.g.size <= |data| <= cfg.maxEventSize
    ensures AheadBy(cfg, z, WBytes(data, cfg.g.size - WORD, Cursor(2, 0)), Cursor(1, 0), 2)
  {
    RangeCount(0, 1);
    RangeGrows(2);
    IndexSmall(cfg.g, 1);
    Adds(cfg, y, 1, Range(0, 2));
    var a := WritesWord(cfg, y, data, 1, Range(0, 2));
    RangeCount(0, 2);
    assert Between(0, 2, 1) && Range(0, 2) + {1} == Range(0, 2);
    Adds(cfg, a, 1, Range(0, 2));
    z := WritesChunk(cfg, a, Range(0, 2));
  }

  lemma FillsNext(cfg: Config, y: System, data: Record, done: nat, k: nat) returns (z: System)
    requires 2 <= k < cfg.maxInMem <= cfg.g.count && done + cfg.g.size < |data|
    requires AheadBy(cfg, y, WBytes(data, done, Cursor(k, 0)), Cursor(1, 0), k)
    ensures AheadBy(cfg, z, WBytes(data, done + cfg.g.size, Cursor(k + 1, 0)), Cursor(1, 0), k + 1)
  {
    RangeCount(0, k);
    RangeGrows(k + 1);
    IndexSmall(cfg.g, k);
    Adds(cfg, y, k, Range(0, k + 1));
    z := WritesChunk(cfg, y, Range(0, k + 1));
  }

  /** Before the next segment is filled, more than a segment is left to write. */
  lemma SegmentsLeft(size: nat, n: nat, k: nat)
    requires 2 <= k <= n && size >= WORD
    ensures size * (k - 1) + size == size * k <= size * n
  {
    assert size * (n - k) >= 0;
  }

  lemma RangeGrows(k: nat)
    requires k >= 1
    ensures Range(0, k) == Range(0, k - 1) + {k - 1}
  {
    assert forall i: nat :: Between(0, k, i) <==> Between(0, k - 1, i) || i == k - 1;
  }

  /** The event maps as many segments as it may while the writing cursor is still in the first of
      them; only the reader's is in the window, and the next can never be mapped. */
  lemma LongEventHangs(cfg: Config, store: Store) returns (y: System)
    requires cfg.Valid() && TakesLong(cfg) && WellFormed(cfg.g, store)
    ensures HangsAt(cfg, y)
  {
    var n := cfg.maxInMem;
    y := FillsSegments(cfg, store, seq(cfg.g.size * (n - 1), _ => 0), n - 1);
    RangeCount(0, n);
    IndexSmall(cfg.g, 0);
    assert Enabled(cfg, y.q, PutChunk);
    forall x: nat
      ensures !FreeFrom(cfg.g, n, y.mapped, 0, 1, 0, x)
    {
      if FreeFrom(cfg.g, n, y.mapped, 0, 1, 0, x) {
        var i: nat :| InSwapWindow(cfg.g, n, 1, i) && Index(cfg.g, i) == x;
        LastIndex(cfg.g, i);
      }
    }
  }

  lemma LastIndex(g: Geometry, k: nat)
    requires g.Valid() && k <= g.count
    ensures Index(g, k) == if k == g.count then 0 else k
  {
    if k < g.count {
      IndexSmall(g, k);
    } else {
      IndexSmall(g, 0);
      IndexAhead(g, 0);
    }
  }

  // ----- segments that are never unmapped -----

  /** An event can fill a segment, the queue has room for it, and the ring is nearly three times as
      large as the cache. */
  predicate Leaky(cfg: Config)
    requires cfg.Valid()
  {
    && cfg.maxEventSize + WORD >= cfg.g.size >= 128 && cfg.g.size % WORD == 0
    && cfg.g.count >= cfg.maxEventSize / cfg.g.size + 3 && cfg.g.count + 4 >= 3 * cfg.maxInMem
  }

  /** Reader and writer stand at the same place, and nothing is pending. */
  ghost predicate Level(cfg: Config, y: System, w: nat, o: nat, mapped: set<nat>) {
    && Running(cfg, y) && y.q.writer.WIdle? && y.q.reader.RIdle? && y.mapped == mapped
    && y.q.meta.writing == y.q.meta.reading == Cursor(w, o) && y.q.h.head == |y.q.h.log|
  }

  /** An event and its dequeue, in the segment of both cursors or, skipping its rest, in the next. */
  lemma PassesOne(cfg: Config, y: System, w: nat, o: nat, data: Record, c: Cursor, now: set<nat>) returns (z: System)
    requires Level(cfg, y, w, o, y.mapped) && Enabled(cfg, y.q, CheckRoom(data))
    requires c == SkipCursor(cfg.g, Cursor(w, o)) && InOneSegment(cfg.g, c, |data|)
    requires now == y.mapped + {Index(cfg.g, c.id)} && |y.mapped| < cfg.maxInMem && |now| < cfg.maxInMem
    ensures var at := Advance(cfg.g, c, WORD + |data|);
            Level(cfg, z, at.id, at.offset, if at.id != w then now - {Index(cfg.g, w)} else now)
  {
    Adds(cfg, y, c.id, now);
    assert now + {Index(cfg.g, c.id)} == now;
    Adds(cfg, y.(mapped := now), c.id, now);
    var a := Puts(cfg, y, data, c, now, now);
    Adds(cfg, a, c.id, now);
    z := Takes(cfg, a, |data|, c, now, now);
  }

  /** Both go on to offset `t` of their segment. */
  lemma Passes(cfg: Config, y: System, w: nat, o: nat, t: nat, now: set<nat>) returns (z: System)
    requires Level(cfg, y, w, o, y.mapped) && !Full(cfg.g, cfg.maxEventSize, w, w) && cfg.maxEventSize >= 1
    requires o < t < cfg.g.size && Fillable(o, t)
    requires |y.mapped| < cfg.maxInMem && now == y.mapped + {Index(cfg.g, w)} && |now| < cfg.maxInMem
    ensures Level(cfg, z, w, t, now)
  {
    var a := Fills(cfg, y, w, o, t, now);
    assert a.q.h.log[a.q.h.head..] == Pieces(o, t);
    z := Drains(cfg, a, w, o, t);
  }

  ghost function Odds(j: nat): set<nat> {
    set k: nat | k < 2 * j && k % 2 == 1
  }

  lemma {:induction false} OddCount(j: nat)
    ensures |Odds(j)| == j
  {
    if j > 0 {
      OddCount(j - 1);
      assert Odds(j) == Odds(j - 1) + {2 * j - 1};
    }
  }

  lemma LeakyRoom(cfg: Config, r: nat, w: nat)
    requires cfg.Valid() && Leaky(cfg) && w <= r + 1
    ensures !Full(cfg.g, cfg.maxEventSize, r, w) && cfg.maxEventSize >= 1
  {
  }

  /** An event that fills segment `w + 1`, before which the rest of segment `w` is skipped: the reader
      goes from `w` to `w + 2`, and has only `w` unmapped. */
  lemma Leaps(cfg: Config, y: System, w: nat, mapped: set<nat>, leaked: set<nat>) returns (z: System)
    requires cfg.Valid() && Leaky(cfg) && Level(cfg, y, w, cfg.g.size - 1, mapped) && w + 1 < cfg.g.count
    requires |mapped| + 1 < cfg.maxInMem && leaked == mapped + {w + 1} - {w}
    ensures Level(cfg, z, w + 2, 0, leaked)
  {
    var data := seq(cfg.g.size - WORD, _ => 0);
    IndexSmall(cfg.g, w);
    IndexSmall(cfg.g, w + 1);
    LeakyRoom(cfg, w, w);
    UnionCount(mapped, {w + 1});
    z := PassesOne(cfg, y, w, cfg.g.size - 1, data, Cursor(w + 1, 0), mapped + {w + 1});
  }

  lemma NewLevel(cfg: Config, store: Store) returns (y: System)
    requires cfg.Valid() && WellFormed(cfg.g, store)
    ensures Level(cfg, y, 0, 0, {0}) == true
  {
    y := NewRun(cfg, store);
  }

  /** Every other segment so far, and the one of both cursors. */
  ghost function Trail(j: nat): set<nat> {
    Odds(j) + {2 * j}
  }

  /** After `j` of them that is what is mapped. */
  lemma {:induction false} Leaks(cfg: Config, store: Store, j: nat) returns (y: System)
    requires cfg.Valid() && Leaky(cfg) && WellFormed(cfg.g, store) && j + 3 <= cfg.maxInMem
    ensures Level(cfg, y, 2 * j, cfg.g.size - 1, Trail(j))
  {
    if j == 0 {
      var a := NewLevel(cfg, store);
      TrailStarts();
      y := FillsTop(cfg, a, 0, {0}, Trail(0));
    } else {
      var a := Leaks(cfg, store, j - 1);
      TrailGrows(cfg.maxInMem, j - 1);
      y := LeaksOne(cfg, a, 2 * (j - 1), Trail(j - 1), Odds(j), Trail(j));
    }
  }

  /** The segment after `w` takes its place, with room for one more before it does. */
  ghost predicate Left(max: nat, mapped: set<nat>, w: nat, now: set<nat>) {
    |mapped| + 1 < max && |now| < max && w in mapped && now == mapped + {w + 1} - {w}
  }

  lemma TrailStarts()
    ensures Trail(0) == {0} + {0} && |Trail(0)| == 1 && |{0}| == 1
  {
    TrailCount(0);
    assert Odds(0) == {};
  }

  lemma TrailCount(j: nat)
    ensures |Trail(j)| == j + 1 && 2 * j in Trail(j) && Trail(j) == Odds(j) + {2 * j}
  {
    OddCount(j);
  }

  lemma TrailMoves(j: nat)
    ensures Odds(j + 1) == Trail(j) + {2 * j + 1} - {2 * j}
  {
  }

  lemma TrailGrows(max: nat, j: nat)
    requires j + 4 <= max
    ensures Left(max, Trail(j), 2 * j, Odds(j + 1)) == true
    ensures Trail(j + 1) == Odds(j + 1) + {2 * j + 2} && |Trail(j + 1)| < max
  {
    TrailCount(j);
    TrailCount(j + 1);
    OddCount(j + 1);
    TrailMoves(j);
  }

  lemma LeaksOne(cfg: Config, y: System, w: nat, mapped: set<nat>, leaked: set<nat>, now: set<nat>) returns (z: System)
    requires cfg.Valid() && Leaky(cfg) && Level(cfg, y, w, cfg.g.size - 1, mapped) == true && w + 2 < cfg.g.count
    requires Left(cfg.maxInMem, mapped, w, leaked) == true && now == leaked + {w + 2} && |now| < cfg.maxInMem
    ensures Level(cfg, z, w + 2, cfg.g.size - 1, now) == true
  {
    var a := Leaps(cfg, y, w, mapped, leaked);
    z := FillsTop(cfg, a, w + 2, leaked, now);
  }

  /** Both fill a segment but for its last byte. */
  lemma FillsTop(cfg: Config, y: System, w: nat, mapped: set<nat>, now: set<nat>) returns (z: System)
    requires cfg.Valid() && Leaky(cfg) && Level(cfg, y, w, 0, mapped) && w < cfg.g.count
    requires |mapped| < cfg.maxInMem && now == mapped + {w} && |now| < cfg.maxInMem
    ensures Level(cfg, z, w, cfg.g.size - 1, now)
  {
    LeakyRoom(cfg, w, w);
    IndexSmall(cfg.g, w);
    z := Passes(cfg, y, w, 0, cfg.g.size - 1, now);
  }

  // ----- away from what was leaked -----

  /** A small record on each side of a segment border, and both are in the next segment. */
  lemma Drifts(cfg: Config, y: System, w: nat, mapped: set<nat>, now: set<nat>) returns (z: System)
    requires cfg.Valid() && Leaky(cfg) && Level(cfg, y, w, cfg.g.size - 1, mapped) == true && w + 1 < cfg.g.count
    requires Left(cfg.maxInMem, mapped, w, now) == true
    ensures Level(cfg, z, w + 1, cfg.g.size - 1, now) == true
  {
    IndexSmall(cfg.g, w);
    IndexSmall(cfg.g, w + 1);
    LeakyRoom(cfg, w, w);
    LeakyRoom(cfg, w + 1, w + 1);
    UnionCount(mapped, {w + 1});
    var a := PassesOne(cfg, y, w, cfg.g.size - 1, [0], Cursor(w + 1, 0), mapped + {w + 1});
    z := Passes(cfg, a, w + 1, 9, cfg.g.size - 1, now);
  }

  /** What was leaked, and the segment of both cursors. */
  ghost function Apart(j: nat, w: nat): set<nat> {
    Odds(j) + {w}
  }

  lemma ApartCount(j: nat, w: nat)
    requires w >= 2 * j
    ensures |Apart(j, w)| == j + 1 && w in Apart(j, w)
  {
    OddCount(j);
  }

  lemma LeaksApart(cfg: Config, store: Store, j: nat, w: nat) returns (y: System)
    requires cfg.Valid() && Leaky(cfg) && WellFormed(cfg.g, store) && j + 3 == cfg.maxInMem && w == 2 * j
    ensures Level(cfg, y, w, cfg.g.size - 1, Apart(j, w)) == true
  {
    y := Leaks(cfg, store, j);
    assert Apart(j, w) == Trail(j);
  }

  lemma ApartMoves(max: nat, j: nat, w: nat)
    requires w >= 2 * j && j + 3 == max
    ensures Left(max, Apart(j, w), w, Apart(j, w + 1)) == true
  {
    ApartCount(j, w);
    ApartCount(j, w + 1);
  }

  lemma {:induction false} DriftsTo(cfg: Config, store: Store, j: nat, w: nat) returns (y: System)
    requires cfg.Valid() && Leaky(cfg) && WellFormed(cfg.g, store) && j + 3 == cfg.maxInMem
    requires 2 * j <= w < cfg.g.count
    ensures Level(cfg, y, w, cfg.g.size - 1, Apart(j, w)) == true
    decreases w
  {
    if w == 2 * j {
      y := LeaksApart(cfg, store, j, w);
    } else {
      var a := DriftsTo(cfg, store, j, w - 1);
      y := DriftsNext(cfg, a, j, w - 1, w);
    }
  }

  lemma DriftsNext(cfg: Config, y: System, j: nat, w: nat, w': nat) returns (z: System)
    requires cfg.Valid() && Leaky(cfg) && j + 3 == cfg.maxInMem && 2 * j <= w && w' == w + 1 < cfg.g.count
    requires Level(cfg, y, w, cfg.g.size - 1, Apart(j, w)) == true
    ensures Level(cfg, z, w', cfg.g.size - 1, Apart(j, w')) == true
  {
    ApartMoves(cfg.maxInMem, j, w);
    z := Drifts(cfg, y, w, Apart(j, w), Apart(j, w'));
  }

  /** The writer goes on to the end of the next segment, and starts on an event in the one after. */
  lemma GoesAhead(cfg: Config, y: System, w: nat, mapped: set<nat>, one: set<nat>, full: set<nat>) returns (z: System)
    requires cfg.Valid() && Leaky(cfg) && Level(cfg, y, w, cfg.g.size - 1, mapped) == true && w + 2 < cfg.g.count
    requires |mapped| < cfg.maxInMem && one == mapped + {w + 1} && |one| < cfg.maxInMem && full == one + {w + 2}
    ensures Running(cfg, z) && z.mapped == full && z.q.meta.reading.id == w && z.q.meta.writing.id == w + 1
    ensures z.q.writer == WBytes([0], 0, Cursor(w + 2, WORD))
  {
    LeakyRoom(cfg, w, w);
    LeakyRoom(cfg, w, w + 1);
    IndexSmall(cfg.g, w + 1);
    IndexSmall(cfg.g, w + 2);
    Adds(cfg, y, w + 1, one);
    assert one + {w + 1} == one;
    Adds(cfg, y.(mapped := one), w + 1, one);
    var a := Puts(cfg, y, [0], Cursor(w + 1, 0), one, one);
    var b := Fills(cfg, a, w + 1, 9, cfg.g.size - 1, one);
    Adds(cfg, b, w + 2, full);
    z := WritesWord(cfg, b, [0], w + 2, full);
  }

  /** What was leaked lies below the window, and above it nothing can be freed. */
  lemma LeakedHung(cfg: Config, y: System, j: nat, w: nat, wid: nat)
    requires Running(cfg, y) && y.mapped == Apart(j, w) + {w + 1} + {w + 2} && |y.mapped| >= cfg.maxInMem
    requires wid == w + 1 < cfg.g.count && y.q.meta.reading.id == w && y.q.meta.writing.id == wid
    requires 2 * j + cfg.maxInMem <= wid
    ensures Hung(cfg, y)
  {
    IndexSmall(cfg.g, w);
    forall x: nat
      ensures !FreeFrom(cfg.g, cfg.maxInMem, y.mapped, w, wid, 0, x)
    {
      if FreeFrom(cfg.g, cfg.maxInMem, y.mapped, w, wid, 0, x) {
        var i: nat :| InSwapWindow(cfg.g, cfg.maxInMem, wid, i) && Index(cfg.g, i) == x;
        InWindow(cfg.g, cfg.maxInMem, wid, i);
      }
    }
  }

  /** The indices in the window of a swap in the first round. */
  lemma InWindow(g: Geometry, max: nat, wid: nat, i: nat)
    requires g.Valid() && max <= wid < g.count && InSwapWindow(g, max, wid, i)
    ensures wid - max <= Index(g, i) < wid
  {
    IndexAhead(g, i - g.count);
    IndexSmall(g, i - g.count);
  }

  /** Where an event can fill a segment, the swap for the writer's second segment ahead of the reader
      never ends once enough was leaked. */
  lemma LeaksHang(cfg: Config, store: Store) returns (y: System)
    requires cfg.Valid() && Leaky(cfg) && WellFormed(cfg.g, store)
    ensures HangsAt(cfg, y)
  {
    var j := cfg.maxInMem - 3;
    var w := 2 * j + cfg.maxInMem - 1;
    ApartCount(j, w);
    var a := DriftsTo(cfg, store, j, w);
    var one := Apart(j, w) + {w + 1};
    var full := one + {w + 2};
    assert |one| == j + 2 && |full| == j + 3;
    y := GoesAhead(cfg, a, w, Apart(j, w), one, full);
    LeakedHung(cfg, y, j, w, w + 1);
    assert Enabled(cfg, y.q, PutChunk);
  }
}
