/** For each cache of four to seven segments, in every ring of at least twice as many, a run of small
    events that hangs. */
module SmallCaches {
  import opened Basics
  import opened Bytes
  import opened Layout
  import opened Records
  import opened SegmentCache
  import opened MmapQueue
  import opened Interleaving
  import opened Runs
  import opened Residency
  import opened Hangs

  // ----- a queue opened on some records -----

  /** Allowed records up to `end`, none of which the fullness check refuses while nothing is read. */
  ghost predicate Loadable(g: Geometry, max: nat, log: seq<Record>, end: Cursor)
    requires g.Valid()
  {
    && AllFit(log, max) && CursorOf(g, Boundary(g, log, |log|)) == end && end.id < g.count
    && (forall k: nat :: k <= |log| ==> LowAt(g, max, log, k))
  }

  ghost predicate LowAt(g: Geometry, max: nat, log: seq<Record>, k: nat)
    requires g.Valid() && k <= |log|
  {
    CursorOf(g, Boundary(g, log, k)).id < g.count - 1 - max / g.size
  }

  /** The records go in one after the other. */
  lemma {:induction false} Loads(cfg: Config, store: Store, log: seq<Record>, end: Cursor, n: nat) returns (t: State)
    requires cfg.Valid() && WellFormed(cfg.g, store) && n <= |log| && Loadable(cfg.g, cfg.maxEventSize, log, end)
    ensures Reaches(cfg, Fresh(store), t) && t.writer.WIdle? && t.reader.RIdle?
    ensures t.h == Fresh(store).h.(log := log[..n])
  {
    if n == 0 {
      t := Begun(cfg, store);
    } else {
      var s := Loads(cfg, store, log, end, n - 1);
      HasRoom(cfg, s, log, end, n - 1);
      t := Enqueued(cfg, Fresh(store), s, log[n - 1]);
      assert log[..n] == log[..n - 1] + [log[n - 1]];
    }
  }

  lemma HasRoom(cfg: Config, s: State, log: seq<Record>, end: Cursor, n: nat)
    requires Inv(cfg, s) && s.writer.WIdle? && n < |log| && Loadable(cfg.g, cfg.maxEventSize, log, end)
    requires s.h.log == log[..n] && s.h.head == 0
    ensures Enabled(cfg, s, CheckRoom(log[n]))
  {
    CursorsAt(cfg, s);
    CursorUnique(cfg.g, Cursor(0, 0));
    BoundaryPrefix(cfg.g, log, n, n);
    assert LowAt(cfg.g, cfg.maxEventSize, log, n);
  }

  /** The cursors as the boundaries say. */
  lemma CursorsAt(cfg: Config, q: State)
    requires Inv(cfg, q)
    ensures q.meta.reading == CursorOf(cfg.g, Boundary(cfg.g, q.h.log, q.h.head))
    ensures q.meta.writing == CursorOf(cfg.g, Boundary(cfg.g, q.h.log, |q.h.log|))
  {
    assert HistoryKey(true);
    CursorUnique(cfg.g, q.meta.reading);
    CursorUnique(cfg.g, q.meta.writing);
  }

  /** Closed and opened again. */
  lemma Reopens(cfg: Config, x: State, s: State) returns (q: State)
    requires Reaches(cfg, x, s) && s.h.head == s.h.acked == 0
    ensures Inv(cfg, q) && q.writer.WIdle? && q.reader.RIdle? && q.h.log == s.h.log && q.h.head == 0
  {
    var t := Apply(cfg, s, Flush);
    InvStep(cfg, s, Flush);
    NotLapped(cfg, t);
    InvStep(cfg, t, Crash(t.store));
    q := Apply(cfg, t, Crash(t.store));
    assert s.h.log[..|s.h.log|] == s.h.log;
  }

  lemma NotLapped(cfg: Config, t: State)
    requires Inv(cfg, t) && t.h.head == t.h.diskAcked
    ensures t.hw <= Linear(cfg.g, t.diskMeta.committed) + cfg.g.Total()
  {
    assert HistoryKey(true) && StorageKey(true);
  }

  /** A queue closed and opened again on these records, with the reader's and the writer's segments
      mapped. */
  lemma OpenedOn(cfg: Config, store: Store, log: seq<Record>, end: Cursor) returns (y: System)
    requires cfg.Valid() && WellFormed(cfg.g, store) && Loadable(cfg.g, cfg.maxEventSize, log, end) == true
    ensures Attains(cfg, y) && Inv(cfg, y.q) && y.q.writer.WIdle? && y.q.reader.RIdle?
    ensures y.q.h.log == log && y.q.h.head == 0 && y.q.meta.reading == Cursor(0, 0)
    ensures y.q.meta.writing == end && y.mapped == {0, end.id}
  {
    var s := Loads(cfg, store, log, end, |log|);
    assert log[..|log|] == log;
    var q := Reopens(cfg, Fresh(store), s);
    CursorsAt(cfg, q);
    CursorUnique(cfg.g, Cursor(0, 0));
    IndexSmall(cfg.g, 0);
    IndexSmall(cfg.g, q.meta.writing.id);
    y := System(q, {0, q.meta.writing.id});
    AttainsOpened(cfg, y);
  }

  // ----- where the runs start -----

  /** A small cache, events of one byte at least, and a ring of twice as many segments besides those
      that an event may fill. */
  ghost predicate Small(cfg: Config) {
    && cfg.Valid() && cfg.maxInMem <= 7 && cfg.maxEventSize >= 1
    && cfg.g.size >= 128 && cfg.g.size % WORD == 0
    && cfg.g.count >= 2 * cfg.maxInMem && EventsFit(cfg)
  }

  // kept folded: the verifier is slow with quotients in its context
  predicate SpaceKey(b: bool) { true }

  ghost predicate EventsFit(cfg: Config)
    requires cfg.Valid()
  {
    forall b :: SpaceKey(b) ==> cfg.g.count >= 2 * cfg.maxInMem + cfg.maxEventSize / cfg.g.size
  }

  /** Where the log ends. */
  ghost function LogEnd(g: Geometry, log: seq<Record>): Cursor
    requires g.Valid()
  {
    CursorOf(g, Boundary(g, log, |log|))
  }

  lemma OneMore(g: Geometry, log: seq<Record>, r: Record, c: Cursor)
    requires g.Valid() && c == SkipCursor(g, LogEnd(g, log)) && InOneSegment(g, c, |r|)
    ensures LogEnd(g, log + [r]) == Advance(g, c, WORD + |r|)
  {
    var p := Boundary(g, log, |log|);
    BoundaryKept(g, log, r, |log|);
    SkipBounds(g, p);
    AdvanceLinear(g, c, WORD + |r|);
    CursorUnique(g, Advance(g, c, WORD + |r|));
  }

  lemma {:induction false} MorePieces(g: Geometry, log: seq<Record>, w: nat, o: nat, t: nat)
    requires g.Valid() && LogEnd(g, log) == Cursor(w, o) && o <= t < g.size && Fillable(o, t)
    ensures LogEnd(g, log + Pieces(o, t)) == Cursor(w, t)
    decreases t - o
  {
    if o == t {
      assert log + [] == log;
    } else {
      var r := Piece(o, t);
      OneMore(g, log, r, Cursor(w, o));
      MorePieces(g, log + [r], w, o + WORD + |r|, t);
      assert log + [r] + Pieces(o + WORD + |r|, t) == log + Pieces(o, t);
    }
  }

  lemma {:induction false} PiecesFit(o: nat, t: nat)
    requires Fillable(o, t)
    ensures AllFit(Pieces(o, t), 1)
    decreases t - o
  {
    if o < t {
      PiecesFit(o + WORD + |Piece(o, t)|, t);
    }
  }

  lemma AllFitBoth(a: seq<Record>, b: seq<Record>)
    requires AllFit(a, 1) && AllFit(b, 1)
    ensures AllFit(a + b, 1) == true
  {
  }

  /** The first segment up to its end, and the second but for its last byte. */
  ghost function FirstLoad(g: Geometry): seq<Record>
    requires g.size >= 128 && g.size % WORD == 0
  {
    Pieces(0, g.size - 9) + [[0]] + Pieces(0, g.size - 1)
  }

  lemma FirstLoadEnd(g: Geometry)
    requires g.Valid() && g.size >= 128 && g.size % WORD == 0
    ensures LogEnd(g, FirstLoad(g)) == Cursor(1, g.size - 1) && AllFit(FirstLoad(g), 1) == true
  {
    var a := Pieces(0, g.size - 9);
    CursorUnique(g, Cursor(0, 0));
    MorePieces(g, [], 0, 0, g.size - 9);
    assert [] + a == a;
    OneMore(g, a, [0], Cursor(0, g.size - 9));
    MorePieces(g, a + [[0]], 1, 0, g.size - 1);
    PiecesFit(0, g.size - 9);
    PiecesFit(0, g.size - 1);
    AllFitBoth(a, [[0]]);
    AllFitBoth(a + [[0]], Pieces(0, g.size - 1));
  }

  /** One more segment, but for its last byte. */
  ghost function NextLoad(g: Geometry, log: seq<Record>): seq<Record>
    requires g.size >= 128 && g.size % WORD == 0
  {
    log + [[0]] + Pieces(9, g.size - 1)
  }

  lemma NextLoadEnd(g: Geometry, log: seq<Record>, w: nat)
    requires g.Valid() && g.size >= 128 && g.size % WORD == 0
    requires LogEnd(g, log) == Cursor(w, g.size - 1) && AllFit(log, 1) == true
    ensures LogEnd(g, NextLoad(g, log)) == Cursor(w + 1, g.size - 1) && AllFit(NextLoad(g, log), 1) == true
  {
    OneMore(g, log, [0], Cursor(w + 1, 0));
    MorePieces(g, log + [[0]], w + 1, 9, g.size - 1);
    PiecesFit(9, g.size - 1);
    AllFitBoth(log, [[0]]);
    AllFitBoth(log + [[0]], Pieces(9, g.size - 1));
  }

  lemma IsLoadable(cfg: Config, log: seq<Record>, end: Cursor)
    requires Small(cfg) && LogEnd(cfg.g, log) == end && AllFit(log, 1) == true && end.id <= 3
    ensures Loadable(cfg.g, cfg.maxEventSize, log, end) == true
  {
    forall k: nat | k <= |log|
      ensures LowAt(cfg.g, cfg.maxEventSize, log, k)
    {
      IsLow(cfg, log, k);
    }
    AllFitMore(log, cfg.maxEventSize);
  }

  lemma AllFitMore(log: seq<Record>, max: nat)
    requires AllFit(log, 1) && max >= 1
    ensures AllFit(log, max) == true
  {
  }

  lemma IsLow(cfg: Config, log: seq<Record>, k: nat)
    requires Small(cfg) && LogEnd(cfg.g, log).id <= 3 && k <= |log|
    ensures LowAt(cfg.g, cfg.maxEventSize, log, k) == true
  {
    BoundaryMonotone(cfg.g, log, k, |log|);
    IdMonotone(cfg.g, Boundary(cfg.g, log, k), Boundary(cfg.g, log, |log|));
    assert SpaceKey(true);
  }

  lemma HasSpace(cfg: Config, w: nat)
    requires Small(cfg) && w < 2 * cfg.maxInMem
    ensures !Full(cfg.g, cfg.maxEventSize, 1, w)
  {
    assert SpaceKey(true);
  }

  /** Segment 1 is still to be read, up to a record that goes on to segment 2. */
  ghost predicate Ahead(g: Geometry, h: History) {
    g.size >= 128 && g.size % WORD == 0 && h.head <= |h.log| && Pieces(0, g.size - 1) + [[0]] <= h.log[h.head..]
  }

  /** Idle threads, the reader at the start of segment 1. */
  ghost predicate Rest(cfg: Config, y: System, w: nat, o: nat, mapped: set<nat>) {
    && Running(cfg, y) && y.q.writer.WIdle? && y.q.reader.RIdle? && y.mapped == mapped
    && y.q.meta.writing == Cursor(w, o) && y.q.meta.reading == Cursor(1, 0) && Ahead(cfg.g, y.q.h) == true
  }

  /** The reader has left segment 0, which was unmapped, and not touched segment 1 yet. */
  lemma Starts(cfg: Config, store: Store) returns (y: System)
    requires Small(cfg) && WellFormed(cfg.g, store)
    ensures Rest(cfg, y, 3, cfg.g.size - 1, {3})
  {
    var first := FirstLoad(cfg.g);
    var log := NextLoad(cfg.g, NextLoad(cfg.g, first));
    FirstLoadEnd(cfg.g);
    NextLoadEnd(cfg.g, first, 1);
    NextLoadEnd(cfg.g, NextLoad(cfg.g, first), 2);
    IsLoadable(cfg, log, Cursor(3, cfg.g.size - 1));
    var a := OpenedOn(cfg, store, log, Cursor(3, cfg.g.size - 1));
    LoadParts(cfg.g, log);
    y := LeavesFirst(cfg, a, log);
  }

  /** What the log of such a start has where. */
  ghost predicate StartsRight(g: Geometry, log: seq<Record>)
    requires g.size >= 128 && g.size % WORD == 0
  {
    var n := |Pieces(0, g.size - 9)|;
    Pieces(0, g.size - 9) <= log && n < |log| && log[n] == [0] && Pieces(0, g.size - 1) + [[0]] <= log[n + 1..]
  }

  lemma LoadParts(g: Geometry, log: seq<Record>)
    requires g.size >= 128 && g.size % WORD == 0 && log == NextLoad(g, NextLoad(g, FirstLoad(g)))
    ensures StartsRight(g, log)
  {
    var rest := Pieces(9, g.size - 1);
    assert log == Pieces(0, g.size - 9) + [[0]] + (Pieces(0, g.size - 1) + [[0]] + rest + [[0]] + rest);
  }

  lemma LeavesFirst(cfg: Config, y: System, log: seq<Record>) returns (z: System)
    requires Small(cfg) && Running(cfg, y) && y.q.writer.WIdle? && y.q.reader.RIdle? && y.mapped == {0, 3}
    requires y.q.h.log == log && y.q.h.head == 0 && StartsRight(cfg.g, log)
    requires y.q.meta.reading == Cursor(0, 0) && y.q.meta.writing == Cursor(3, cfg.g.size - 1)
    ensures Rest(cfg, z, 3, cfg.g.size - 1, {3}) == true
  {
    IndexSmall(cfg.g, 0);
    assert log[0..] == log;
    var a := Drains(cfg, y, 0, 0, cfg.g.size - 9);
    z := LeavesLast(cfg, a, a.q.h.log, a.q.h.head);
  }

  lemma LeavesLast(cfg: Config, y: System, log: seq<Record>, head: nat) returns (z: System)
    requires Small(cfg) && Running(cfg, y) && y.q.writer.WIdle? && y.q.reader.RIdle? && y.mapped == {0, 3}
    requires y.q.meta.reading == Cursor(0, cfg.g.size - 9) && y.q.meta.writing == Cursor(3, cfg.g.size - 1)
    requires y.q.h.log == log && y.q.h.head == head < |log| && log[head] == [0]
    requires Pieces(0, cfg.g.size - 1) + [[0]] <= log[head + 1..]
    ensures Rest(cfg, z, 3, cfg.g.size - 1, {3}) == true
  {
    IndexSmall(cfg.g, 0);
    assert {0, 3} + {0} == {0, 3} && {0, 3} - {0} == {3};
    Adds(cfg, y, 0, {0, 3});
    z := Takes(cfg, y, 1, Cursor(0, cfg.g.size - 9), {0, 3}, {0, 3});
  }

  // ----- the writer's way -----

  /** What is left when everything mapped from `low` up to the writer's segment is freed. */
  ghost function LeftBelow(mapped: set<nat>, low: nat, wid: nat): set<nat> {
    mapped - Range(low, wid)
  }

  /** What makes freeing from `low` up to the writer's segment a swap of a full cache. */
  ghost predicate CanFree(n: nat, mapped: set<nat>, low: nat, wid: nat) {
    && |mapped| == n && 1 < low < wid < 2 * n && low + n >= wid && LeftBelow(mapped, low, wid) != mapped
    && (low + n == wid || (!ClearAll(n, 1, wid) && |LeftBelow(mapped, low, wid)| + n / 2 - 1 == n))
  }

  /** That is what a swap does, with the reader in segment 1, if it gets to the bottom of its window
      or frees just enough before. */
  lemma SwapsDown(g: Geometry, n: nat, mapped: set<nat>, wid: nat, low: nat)
    requires g.Valid() && g.count >= 2 * n && CanFree(n, mapped, low, wid) == true
    ensures SwappedTo(g, n, mapped, LeftBelow(mapped, low, wid), 1, wid) == true
  {
    var at, left := low + g.count, LeftBelow(mapped, low, wid);
    IndexSmall(g, 1);
    IndexSmall(g, wid);
    forall x: nat | x in mapped && x !in left
      ensures FreeFrom(g, n, mapped, 1, wid, at, x)
    {
      assert Between(low, wid, x);
      IndexAhead(g, x);
      IndexSmall(g, x);
      assert InSwapWindow(g, n, wid, x + g.count) && Index(g, x + g.count) == x;
    }
    NothingLeft(g, n, mapped, wid, low, at);
    assert SwappedFrom(g, n, mapped, left, 1, wid, at);
  }

  lemma NothingLeft(g: Geometry, n: nat, mapped: set<nat>, wid: nat, low: nat, at: nat)
    requires g.Valid() && 1 < low < wid < 2 * n <= g.count && at == low + g.count
    ensures forall x :: !FreeFrom(g, n, LeftBelow(mapped, low, wid), 1, wid, at, x)
  {
    var left := LeftBelow(mapped, low, wid);
    forall i: nat | at <= i && InSwapWindow(g, n, wid, i)
      ensures Index(g, i) !in left
    {
      IndexAhead(g, i - g.count);
      IndexSmall(g, i - g.count);
      assert Between(low, wid, i - g.count);
    }
  }

  lemma Frees(cfg: Config, y: System, id: nat, low: nat, left: set<nat>, now: set<nat>)
    requires cfg.Valid() && cfg.g.count >= 2 * cfg.maxInMem && y.q.meta.reading.id == 1
    requires CanFree(cfg.maxInMem, y.mapped, low, y.q.meta.writing.id) == true
    requires left == LeftBelow(y.mapped, low, y.q.meta.writing.id) && now == left + {Index(cfg.g, id)}
    ensures Fetch(cfg, y, id, now)
  {
    SwapsDown(cfg.g, cfg.maxInMem, y.mapped, y.q.meta.writing.id, low);
  }

  lemma AheadKept(g: Geometry, h: History, more: seq<Record>)
    requires Ahead(g, h) && h.head <= |h.log|
    ensures Ahead(g, h.(log := h.log + more)) == true
  {
    assert (h.log + more)[h.head..] == h.log[h.head..] + more;
  }

  /** On to offset `t` of a segment that is mapped. */
  lemma FillsUp(cfg: Config, y: System, w: nat, o: nat, t: nat, mapped: set<nat>) returns (z: System)
    requires Small(cfg) && Rest(cfg, y, w, o, mapped) == true && w < 2 * cfg.maxInMem && w in mapped
    requires o < t < cfg.g.size && Fillable(o, t) && |mapped| < cfg.maxInMem
    ensures Rest(cfg, z, w, t, mapped) == true
  {
    HasSpace(cfg, w);
    IndexSmall(cfg.g, w);
    assert mapped + {w} == mapped;
    z := Fills(cfg, y, w, o, t, mapped);
    AheadKept(cfg.g, y.q.h, Pieces(o, t));
  }

  /** A record of one byte that goes to the next segment as a whole, and more up to `t`. */
  lemma Skips(cfg: Config, y: System, w: nat, mapped: set<nat>, one: set<nat>, two: set<nat>, t: nat) returns (z: System)
    requires Small(cfg) && Rest(cfg, y, w, cfg.g.size - 1, mapped) == true && w + 1 < 2 * cfg.maxInMem
    requires Fetch(cfg, y, w + 1, one) && Fetch(cfg, y.(mapped := one), w + 1, two)
    requires w + 1 in two && |two| < cfg.maxInMem && (t == cfg.g.size - 1 || t == cfg.g.size - 9)
    ensures Rest(cfg, z, w + 1, t, two) == true
  {
    HasSpace(cfg, w);
    var a := Puts(cfg, y, [0], Cursor(w + 1, 0), one, two);
    AheadKept(cfg.g, y.q.h, [[0]]);
    z := FillsUp(cfg, a, w + 1, 9, t, two);
  }

  /** A record of one byte up to the end of the segment. */
  lemma Ends(cfg: Config, y: System, w: nat, mapped: set<nat>) returns (z: System)
    requires Small(cfg) && Rest(cfg, y, w, cfg.g.size - 9, mapped) == true && w < 2 * cfg.maxInMem
    requires w in mapped && |mapped| < cfg.maxInMem
    ensures Rest(cfg, z, w + 1, 0, mapped) == true
  {
    HasSpace(cfg, w);
    IndexSmall(cfg.g, w);
    assert mapped + {w} == mapped;
    Adds(cfg, y, w, mapped);
    z := Puts(cfg, y, [0], Cursor(w, cfg.g.size - 9), mapped, mapped);
    AheadKept(cfg.g, y.q.h, [[0]]);
  }

  /** The first record of a segment, and more but for its last byte. */
  lemma Enters(cfg: Config, y: System, w: nat, mapped: set<nat>, one: set<nat>, two: set<nat>) returns (z: System)
    requires Small(cfg) && Rest(cfg, y, w, 0, mapped) == true && w < 2 * cfg.maxInMem
    requires Fetch(cfg, y, w, one) && Fetch(cfg, y.(mapped := one), w, two)
    requires w in two && |two| < cfg.maxInMem
    ensures Rest(cfg, z, w, cfg.g.size - 1, two) == true
  {
    HasSpace(cfg, w);
    var a := Puts(cfg, y, [0], Cursor(w, 0), one, two);
    AheadKept(cfg.g, y.q.h, [[0]]);
    z := FillsUp(cfg, a, w, 9, cfg.g.size - 1, two);
  }

  // ----- segment after segment on given sets -----

  lemma SkipsPlain(cfg: Config, y: System, w: nat, mapped: set<nat>, now: set<nat>, t: nat) returns (z: System)
    requires Small(cfg) && Rest(cfg, y, w, cfg.g.size - 1, mapped) == true && w + 1 < 2 * cfg.maxInMem
    requires now == mapped + {w + 1} && |mapped| < cfg.maxInMem && |now| < cfg.maxInMem
    requires t == cfg.g.size - 1 || t == cfg.g.size - 9
    ensures Rest(cfg, z, w + 1, t, now) == true
  {
    IndexSmall(cfg.g, w + 1);
    Adds(cfg, y, w + 1, now);
    assert now + {w + 1} == now;
    Adds(cfg, y.(mapped := now), w + 1, now);
    z := Skips(cfg, y, w, mapped, now, now, t);
  }

  /** A swap with the reader in segment 1 and the writer in `wid` that frees what `full` has from
      `low` up to the writer's segment, and leaves `left`. */
  ghost predicate SwapOk(n: nat, full: set<nat>, low: nat, wid: nat, left: set<nat>) {
    && |full| == n && |left| < n && 1 < low < wid < 2 * n && low + n >= wid && left != full && left <= full
    && (forall x :: x in full ==> (x in left <==> !(low <= x < wid)))
    && (low + n == wid || (!ClearAll(n, 1, wid) && |left| + n / 2 - 1 == n))
  }

  lemma FreesTo(n: nat, full: set<nat>, low: nat, wid: nat, left: set<nat>)
    requires SwapOk(n, full, low, wid, left)
    ensures LeftBelow(full, low, wid) == left && CanFree(n, full, low, wid)
  {
    forall x | x in full
      ensures Between(low, wid, x) <==> x !in left
    {
    }
  }

  /** An event that fills the cache with its length word and has segments freed for its payload. */
  lemma SkipsTo(cfg: Config, y: System, w: nat, mapped: set<nat>, full: set<nat>, low: nat, now: set<nat>, t: nat)
    returns (z: System)
    requires Small(cfg) && Rest(cfg, y, w, cfg.g.size - 1, mapped) == true && w + 1 < 2 * cfg.maxInMem
    requires full == mapped + {w + 1} && |mapped| < cfg.maxInMem && w + 1 in now
    requires SwapOk(cfg.maxInMem, full, low, w, now) == true && (t == cfg.g.size - 1 || t == cfg.g.size - 9)
    ensures Rest(cfg, z, w + 1, t, now) == true
  {
    IndexSmall(cfg.g, w + 1);
    Adds(cfg, y, w + 1, full);
    FreesTo(cfg.maxInMem, full, low, w, now);
    assert now + {w + 1} == now;
    Frees(cfg, y.(mapped := full), w + 1, low, now, now);
    z := Skips(cfg, y, w, mapped, full, now, t);
  }

  /** The same for the first event of a segment. */
  lemma EntersTo(cfg: Config, y: System, w: nat, mapped: set<nat>, full: set<nat>, low: nat, now: set<nat>)
    returns (z: System)
    requires Small(cfg) && Rest(cfg, y, w, 0, mapped) == true && w < 2 * cfg.maxInMem
    requires full == mapped + {w} && |mapped| < cfg.maxInMem && w in now
    requires SwapOk(cfg.maxInMem, full, low, w, now) == true
    ensures Rest(cfg, z, w, cfg.g.size - 1, now) == true
  {
    IndexSmall(cfg.g, w);
    Adds(cfg, y, w, full);
    FreesTo(cfg.maxInMem, full, low, w, now);
    assert now + {w} == now;
    Frees(cfg, y.(mapped := full), w, low, now, now);
    z := Enters(cfg, y, w, mapped, full, now);
  }

  // ----- a hang for each of the small caches -----

  /** A full cache with nothing in the window. */
  ghost predicate Outside(n: nat, mapped: set<nat>, wid: nat) {
    |mapped| == n <= wid && forall k :: k in mapped ==> k < wid - n || k >= wid
  }

  /** The reader in the middle of a record then has no way on. */
  lemma EndsHung(cfg: Config, y: System, wid: nat)
    requires Running(cfg, y) && y.q.reader.RBytes? && y.q.meta.writing.id == wid < cfg.g.count
    requires Outside(cfg.maxInMem, y.mapped, wid) == true
    ensures HangsAt(cfg, y)
  {
    assert Enabled(cfg, y.q, GetChunk);
    var rid := y.q.meta.reading.id;
    forall x: nat
      ensures !FreeFrom(cfg.g, cfg.maxInMem, y.mapped, rid, wid, 0, x)
    {
      if FreeFrom(cfg.g, cfg.maxInMem, y.mapped, rid, wid, 0, x) {
        var i: nat :| InSwapWindow(cfg.g, cfg.maxInMem, wid, i) && Index(cfg.g, i) == x;
        InWindow(cfg.g, cfg.maxInMem, wid, i);
      }
    }
  }

  /** The reader takes all of segment 1 and the length word of the record in segment 2. */
  lemma ReadsOnward(cfg: Config, y: System, one: set<nat>, two: set<nat>) returns (z: System)
    requires Small(cfg) && Running(cfg, y) && y.q.reader.RIdle? && y.q.meta.reading == Cursor(1, 0) && Ahead(cfg.g, y.q.h)
    requires Fetch(cfg, y, 1, one) && |one| < cfg.maxInMem && 1 in one && two == one + {2}
    ensures Running(cfg, z) && z.mapped == two && z.q.writer == y.q.writer && z.q.meta.writing == y.q.meta.writing
    ensures z.q.reader.RBytes?
  {
    var size, head := cfg.g.size, y.q.h.head;
    IndexSmall(cfg.g, 1);
    IndexSmall(cfg.g, 2);
    AheadParts(size, y.q.h.log, head);
    assert one + {1} == one;
    Adds(cfg, y.(mapped := one), 1, one);
    var a := Takes(cfg, y, 1, Cursor(1, 0), one, one);
    var b := Drains(cfg, a, 1, 9, size - 1);
    Adds(cfg, b, 2, two);
    z := ReadsWord(cfg, b, 2, two);
  }

  lemma AheadParts(size: nat, log: seq<Record>, head: nat)
    requires size >= 128 && size % WORD == 0 && head <= |log| && Pieces(0, size - 1) + [[0]] <= log[head..]
    ensures head < |log| && |log[head]| == 1 && Pieces(9, size - 1) <= log[head + 1..]
    ensures head + 1 + |Pieces(9, size - 1)| < |log|
  {
    assert Pieces(0, size - 1) == [[0]] + Pieces(9, size - 1);
    assert log[head] == log[head..][0] && log[head + 1..] == log[head..][1..];
  }

  /** The writer's last word goes to the segment after twice the limit, whose index may be 0. */
  lemma LastWord(cfg: Config, y: System, mapped: set<nat>, z: nat, now: set<nat>) returns (x: System)
    requires Small(cfg) && Rest(cfg, y, 2 * cfg.maxInMem - 1, cfg.g.size - 1, mapped) == true
    requires z == Index(cfg.g, 2 * cfg.maxInMem) && |mapped| < cfg.maxInMem && now == mapped + {z}
    ensures Running(cfg, x) && x.mapped == now && x.q.reader.RIdle? && Ahead(cfg.g, x.q.h)
    ensures x.q.meta.reading == Cursor(1, 0) && x.q.meta.writing.id == 2 * cfg.maxInMem - 1
  {
    HasSpace(cfg, 2 * cfg.maxInMem - 1);
    Adds(cfg, y, 2 * cfg.maxInMem, now);
    x := WritesWord(cfg, y, [0], 2 * cfg.maxInMem, now);
  }

  /** With room for the reader's two segments and no more, the reader gets no further than the second. */
  lemma HangsPlain(cfg: Config, y: System, mapped: set<nat>, z: nat, one: set<nat>, two: set<nat>) returns (x: System)
    requires Small(cfg) && Rest(cfg, y, 2 * cfg.maxInMem - 1, cfg.g.size - 1, mapped) == true
    requires z == Index(cfg.g, 2 * cfg.maxInMem) && |mapped| < cfg.maxInMem && |mapped + {z}| < cfg.maxInMem
    requires one == mapped + {z} + {1} && |one| < cfg.maxInMem && two == one + {2}
    requires Outside(cfg.maxInMem, two, 2 * cfg.maxInMem - 1) == true
    ensures HangsAt(cfg, x)
  {
    var a := LastWord(cfg, y, mapped, z, mapped + {z});
    IndexSmall(cfg.g, 1);
    Adds(cfg, a, 1, one);
    x := ReadsOnward(cfg, a, one, two);
    EndsHung(cfg, x, 2 * cfg.maxInMem - 1);
  }

  /** The same when the reader's first segment takes a swap. */
  lemma HangsFull(cfg: Config, y: System, mapped: set<nat>, z: nat, full: set<nat>, low: nat, left: set<nat>,
                  one: set<nat>, two: set<nat>) returns (x: System)
    requires Small(cfg) && Rest(cfg, y, 2 * cfg.maxInMem - 1, cfg.g.size - 1, mapped) == true
    requires z == Index(cfg.g, 2 * cfg.maxInMem) && |mapped| < cfg.maxInMem && full == mapped + {z}
    requires SwapOk(cfg.maxInMem, full, low, 2 * cfg.maxInMem - 1, left) == true
    requires one == left + {1} && |one| < cfg.maxInMem && two == one + {2}
    requires Outside(cfg.maxInMem, two, 2 * cfg.maxInMem - 1) == true
    ensures HangsAt(cfg, x)
  {
    var a := LastWord(cfg, y, mapped, z, full);
    IndexSmall(cfg.g, 1);
    FreesTo(cfg.maxInMem, full, low, 2 * cfg.maxInMem - 1, left);
    Frees(cfg, a, 1, low, left, one);
    x := ReadsOnward(cfg, a, one, two);
    EndsHung(cfg, x, 2 * cfg.maxInMem - 1);
  }

  /** From an empty cache the writer maps all but one. */
  lemma {:induction false} Grows(cfg: Config, store: Store, w: nat) returns (y: System)
    requires Small(cfg) && WellFormed(cfg.g, store) && 3 <= w <= cfg.maxInMem + 1
    ensures Rest(cfg, y, w, cfg.g.size - 1, Range(3, w + 1)) == true
  {
    if w == 3 {
      y := Starts(cfg, store);
      assert Between(3, 4, 3) && Range(3, 4) == {3};
    } else {
      var a := Grows(cfg, store, w - 1);
      RangeCount(3, w);
      RangeCount(3, w + 1);
      RangeOn(3, w);
      y := SkipsPlain(cfg, a, w - 1, Range(3, w), Range(3, w + 1), cfg.g.size - 1);
    }
  }

  lemma RangeOn(a: nat, b: nat)
    requires a <= b
    ensures Range(a, b + 1) == Range(a, b) + {b}
  {
    assert forall i: nat :: Between(a, b + 1, i) <==> Between(a, b, i) || i == b;
  }

  lemma RangeOf(k: nat)
    requires 5 <= k <= 8
    ensures Range(3, k + 1) == if k == 5 then {3, 4, 5} else if k == 6 then {3, 4, 5, 6} else
                               if k == 7 then {3, 4, 5, 6, 7} else {3, 4, 5, 6, 7, 8}
  {
    var top := k + 1;
    assert forall i: nat :: Between(3, top, i) <==> 3 <= i <= k;
  }

  // four segments

  lemma FourSwaps()
    ensures {3, 4, 5} + {6} == {3, 4, 5, 6} && SwapOk(4, {3, 4, 5, 6}, 4, 5, {3, 5, 6}) == true
    ensures {3, 5, 6} + {7} == {3, 5, 6, 7} && SwapOk(4, {3, 5, 6, 7}, 5, 6, {3, 6, 7}) == true
    ensures |{3, 4, 5}| == |{3, 5, 6}| == 3
  {
  }

  lemma FourEnds(z: nat)
    requires z == 0 || z == 8
    ensures |{3, 6, 7}| == 3 && {3, 6, 7} + {z} == {3, 6, 7, z} && SwapOk(4, {3, 6, 7, z}, 3, 7, {7, z}) == true
  {
  }

  lemma FourOutside(z: nat)
    requires z == 0 || z == 8
    ensures {7, z} + {1} == {1, 7, z} && |{1, 7, z}| == 3 && {1, 7, z} + {2} == {1, 2, 7, z}
    ensures Outside(4, {1, 2, 7, z}, 7) == true
  {
  }

  lemma HangsWithFour(cfg: Config, store: Store) returns (x: System)
    requires Small(cfg) && cfg.maxInMem == 4 && WellFormed(cfg.g, store)
    ensures HangsAt(cfg, x)
  {
    var a := Grows(cfg, store, 5);
    RangeOf(5);
    var b := FourGoes(cfg, a);
    LastIndex(cfg.g, 8);
    var z := Index(cfg.g, 8);
    FourEnds(z);
    FourOutside(z);
    x := HangsFull(cfg, b, {3, 6, 7}, z, {3, 6, 7, z}, 3, {7, z}, {1, 7, z}, {1, 2, 7, z});
  }

  lemma FourGoes(cfg: Config, y: System) returns (x: System)
    requires Small(cfg) && cfg.maxInMem == 4 && Rest(cfg, y, 5, cfg.g.size - 1, {3, 4, 5}) == true
    ensures Rest(cfg, x, 7, cfg.g.size - 1, {3, 6, 7}) == true
  {
    FourSwaps();
    var a := SkipsTo(cfg, y, 5, {3, 4, 5}, {3, 4, 5, 6}, 4, {3, 5, 6}, cfg.g.size - 1);
    x := SkipsTo(cfg, a, 6, {3, 5, 6}, {3, 5, 6, 7}, 5, {3, 6, 7}, cfg.g.size - 1);
  }

  // five segments

  lemma FiveSwaps()
    ensures {3, 4, 5, 6} + {7} == {3, 4, 5, 6, 7} && SwapOk(5, {3, 4, 5, 6, 7}, 5, 6, {3, 4, 6, 7}) == true
    ensures {3, 4, 6, 7} + {8} == {3, 4, 6, 7, 8} && SwapOk(5, {3, 4, 6, 7, 8}, 6, 7, {3, 4, 7, 8}) == true
    ensures |{3, 4, 5, 6}| == |{3, 4, 6, 7}| == 4
  {
  }

  lemma FiveEnters()
    ensures {3, 4, 7, 8} + {9} == {3, 4, 7, 8, 9} && SwapOk(5, {3, 4, 7, 8, 9}, 4, 9, {3, 9}) == true
    ensures |{3, 4, 7, 8}| == 4
  {
  }

  lemma FiveEnds(z: nat)
    requires z == 0 || z == 10
    ensures |{3, 9}| == 2 && {3, 9} + {z} == {3, 9, z} && |{3, 9, z}| == 3
  {
  }

  lemma FiveOutside(z: nat)
    requires z == 0 || z == 10
    ensures {3, 9, z} + {1} == {1, 3, 9, z} && |{1, 3, 9, z}| == 4 && {1, 3, 9, z} + {2} == {1, 2, 3, 9, z}
    ensures Outside(5, {1, 2, 3, 9, z}, 9) == true
  {
  }

  lemma HangsWithFive(cfg: Config, store: Store) returns (x: System)
    requires Small(cfg) && cfg.maxInMem == 5 && WellFormed(cfg.g, store)
    ensures HangsAt(cfg, x)
  {
    var a := Grows(cfg, store, 6);
    RangeOf(6);
    var b := FiveGoes(cfg, a);
    LastIndex(cfg.g, 10);
    var z := Index(cfg.g, 10);
    FiveEnds(z);
    FiveOutside(z);
    x := HangsPlain(cfg, b, {3, 9}, z, {1, 3, 9, z}, {1, 2, 3, 9, z});
  }

  lemma FiveGoes(cfg: Config, y: System) returns (x: System)
    requires Small(cfg) && cfg.maxInMem == 5 && Rest(cfg, y, 6, cfg.g.size - 1, {3, 4, 5, 6}) == true
    ensures Rest(cfg, x, 9, cfg.g.size - 1, {3, 9}) == true
  {
    FiveSwaps();
    FiveEnters();
    var a := SkipsTo(cfg, y, 6, {3, 4, 5, 6}, {3, 4, 5, 6, 7}, 5, {3, 4, 6, 7}, cfg.g.size - 1);
    var b := SkipsTo(cfg, a, 7, {3, 4, 6, 7}, {3, 4, 6, 7, 8}, 6, {3, 4, 7, 8}, cfg.g.size - 9);
    var c := Ends(cfg, b, 8, {3, 4, 7, 8});
    x := EntersTo(cfg, c, 9, {3, 4, 7, 8}, {3, 4, 7, 8, 9}, 4, {3, 9});
  }

  // six segments

  lemma SixSwaps()
    ensures {3, 4, 5, 6, 7} + {8} == {3, 4, 5, 6, 7, 8} && SwapOk(6, {3, 4, 5, 6, 7, 8}, 5, 7, {3, 4, 7, 8}) == true
    ensures {3, 4, 7, 8} + {9} == {3, 4, 7, 8, 9} && |{3, 4, 5, 6, 7}| == |{3, 4, 7, 8, 9}| == 5 && |{3, 4, 7, 8}| == 4
  {
  }

  lemma SixMoreSwaps()
    ensures {3, 4, 7, 8, 9} + {10} == {3, 4, 7, 8, 9, 10}
    ensures SwapOk(6, {3, 4, 7, 8, 9, 10}, 7, 9, {3, 4, 9, 10}) == true
    ensures {3, 4, 9, 10} + {11} == {3, 4, 9, 10, 11} && |{3, 4, 9, 10, 11}| == 5 && |{3, 4, 9, 10}| == 4
  {
  }

  lemma SixEnds(z: nat)
    requires z == 0 || z == 12
    ensures |{3, 4, 9, 10, 11}| == 5 && {3, 4, 9, 10, 11} + {z} == {3, 4, 9, 10, 11, z}
    ensures SwapOk(6, {3, 4, 9, 10, 11, z}, 5, 11, {3, 4, 11, z}) == true
  {
  }

  lemma SixOutside(z: nat)
    requires z == 0 || z == 12
    ensures {3, 4, 11, z} + {1} == {1, 3, 4, 11, z} && |{1, 3, 4, 11, z}| == 5
    ensures {1, 3, 4, 11, z} + {2} == {1, 2, 3, 4, 11, z} && Outside(6, {1, 2, 3, 4, 11, z}, 11) == true
  {
  }

  lemma HangsWithSix(cfg: Config, store: Store) returns (x: System)
    requires Small(cfg) && cfg.maxInMem == 6 && WellFormed(cfg.g, store)
    ensures HangsAt(cfg, x)
  {
    var a := Grows(cfg, store, 7);
    RangeOf(7);
    var b := SixGoes(cfg, a);
    LastIndex(cfg.g, 12);
    var z := Index(cfg.g, 12);
    SixEnds(z);
    SixOutside(z);
    x := HangsFull(cfg, b, {3, 4, 9, 10, 11}, z, {3, 4, 9, 10, 11, z}, 5, {3, 4, 11, z}, {1, 3, 4, 11, z},
                   {1, 2, 3, 4, 11, z});
  }

  lemma SixGoes(cfg: Config, y: System) returns (x: System)
    requires Small(cfg) && cfg.maxInMem == 6 && Rest(cfg, y, 7, cfg.g.size - 1, {3, 4, 5, 6, 7}) == true
    ensures Rest(cfg, x, 11, cfg.g.size - 1, {3, 4, 9, 10, 11}) == true
  {
    var top := cfg.g.size - 1;
    SixSwaps();
    SixMoreSwaps();
    var a := SkipsTo(cfg, y, 7, {3, 4, 5, 6, 7}, {3, 4, 5, 6, 7, 8}, 5, {3, 4, 7, 8}, top);
    var b := SkipsPlain(cfg, a, 8, {3, 4, 7, 8}, {3, 4, 7, 8, 9}, top);
    var c := SkipsTo(cfg, b, 9, {3, 4, 7, 8, 9}, {3, 4, 7, 8, 9, 10}, 7, {3, 4, 9, 10}, top);
    x := SkipsPlain(cfg, c, 10, {3, 4, 9, 10}, {3, 4, 9, 10, 11}, top);
  }

  // seven segments

  lemma SevenSwaps()
    ensures {3, 4, 5, 6, 7, 8} + {9} == {3, 4, 5, 6, 7, 8, 9}
    ensures SwapOk(7, {3, 4, 5, 6, 7, 8, 9}, 6, 8, {3, 4, 5, 8, 9}) == true
    ensures {3, 4, 5, 8, 9} + {10} == {3, 4, 5, 8, 9, 10}
    ensures |{3, 4, 5, 6, 7, 8}| == |{3, 4, 5, 8, 9, 10}| == 6 && |{3, 4, 5, 8, 9}| == 5
  {
  }

  lemma SevenMoreSwaps()
    ensures {3, 4, 5, 8, 9, 10} + {11} == {3, 4, 5, 8, 9, 10, 11}
    ensures SwapOk(7, {3, 4, 5, 8, 9, 10, 11}, 8, 10, {3, 4, 5, 10, 11}) == true
    ensures {3, 4, 5, 10, 11} + {12} == {3, 4, 5, 10, 11, 12}
    ensures |{3, 4, 5, 10, 11, 12}| == 6 && |{3, 4, 5, 10, 11}| == 5
  {
  }

  lemma SevenEnters()
    ensures {3, 4, 5, 10, 11, 12} + {13} == {3, 4, 5, 10, 11, 12, 13}
    ensures SwapOk(7, {3, 4, 5, 10, 11, 12, 13}, 6, 13, {3, 4, 5, 13}) == true
  {
  }

  lemma SevenEnds(z: nat)
    requires z == 0 || z == 14
    ensures |{3, 4, 5, 13}| == 4 && {3, 4, 5, 13} + {z} == {3, 4, 5, 13, z} && |{3, 4, 5, 13, z}| == 5
    ensures {3, 4, 5, 13, z} + {1} == {1, 3, 4, 5, 13, z} && |{1, 3, 4, 5, 13, z}| == 6
  {
  }

  lemma SevenOutside(z: nat)
    requires z == 0 || z == 14
    ensures {1, 3, 4, 5, 13, z} + {2} == {1, 2, 3, 4, 5, 13, z} && Outside(7, {1, 2, 3, 4, 5, 13, z}, 13) == true
  {
  }

  lemma HangsWithSeven(cfg: Config, store: Store) returns (x: System)
    requires Small(cfg) && cfg.maxInMem == 7 && WellFormed(cfg.g, store)
    ensures HangsAt(cfg, x)
  {
    var a := Grows(cfg, store, 8);
    RangeOf(8);
    var b := SevenGoes(cfg, a);
    var c := SevenGoesOn(cfg, b);
    var d := SevenLast(cfg, c);
    LastIndex(cfg.g, 14);
    var z := Index(cfg.g, 14);
    SevenEnds(z);
    SevenOutside(z);
    x := HangsPlain(cfg, d, {3, 4, 5, 13}, z, {1, 3, 4, 5, 13, z}, {1, 2, 3, 4, 5, 13, z});
  }

  lemma SevenGoes(cfg: Config, y: System) returns (x: System)
    requires Small(cfg) && cfg.maxInMem == 7 && Rest(cfg, y, 8, cfg.g.size - 1, {3, 4, 5, 6, 7, 8}) == true
    ensures Rest(cfg, x, 10, cfg.g.size - 1, {3, 4, 5, 8, 9, 10}) == true
  {
    SevenSwaps();
    var a := SkipsTo(cfg, y, 8, {3, 4, 5, 6, 7, 8}, {3, 4, 5, 6, 7, 8, 9}, 6, {3, 4, 5, 8, 9}, cfg.g.size - 1);
    x := SkipsPlain(cfg, a, 9, {3, 4, 5, 8, 9}, {3, 4, 5, 8, 9, 10}, cfg.g.size - 1);
  }

  lemma SevenGoesOn(cfg: Config, y: System) returns (x: System)
    requires Small(cfg) && cfg.maxInMem == 7 && Rest(cfg, y, 10, cfg.g.size - 1, {3, 4, 5, 8, 9, 10}) == true
    ensures Rest(cfg, x, 12, cfg.g.size - 9, {3, 4, 5, 10, 11, 12}) == true
  {
    SevenMoreSwaps();
    var a := SkipsTo(cfg, y, 10, {3, 4, 5, 8, 9, 10}, {3, 4, 5, 8, 9, 10, 11}, 8, {3, 4, 5, 10, 11}, cfg.g.size - 1);
    x := SkipsPlain(cfg, a, 11, {3, 4, 5, 10, 11}, {3, 4, 5, 10, 11, 12}, cfg.g.size - 9);
  }

  lemma SevenLast(cfg: Config, y: System) returns (x: System)
    requires Small(cfg) && cfg.maxInMem == 7 && Rest(cfg, y, 12, cfg.g.size - 9, {3, 4, 5, 10, 11, 12}) == true
    ensures Rest(cfg, x, 13, cfg.g.size - 1, {3, 4, 5, 13}) == true
  {
    SevenMoreSwaps();
    SevenEnters();
    var a := Ends(cfg, y, 12, {3, 4, 5, 10, 11, 12});
    x := EntersTo(cfg, a, 13, {3, 4, 5, 10, 11, 12}, {3, 4, 5, 10, 11, 12, 13}, 6, {3, 4, 5, 13});
  }

  /** Every small cache has a run that hangs, with events of no more than one byte. */
  lemma SmallEventsHang(cfg: Config, store: Store) returns (x: System)
    requires Small(cfg) && WellFormed(cfg.g, store)
    ensures HangsAt(cfg, x)
  {
    match cfg.maxInMem
    case 4 => x := HangsWithFour(cfg, store);
    case 5 => x := HangsWithFive(cfg, store);
    case 6 => x := HangsWithSix(cfg, store);
    case 7 => x := HangsWithSeven(cfg, store);
  }
}
