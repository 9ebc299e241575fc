/** Records on the tape: a length word that never straddles a segment, then the payload. */
module Records {
  import opened Basics
  import opened Bytes
  import opened Layout

  type Record = seq<byte>

  /** Where the length word goes: the next segment if it does not fit in this one. */
  function SkipCursor(g: Geometry, c: Cursor): Cursor {
    if c.offset + WORD > g.size then Cursor(c.id + 1, 0) else c
  }

  /** The cursor after `n` bytes of one segment, moved to the next segment at its end. */
  function Advance(g: Geometry, c: Cursor, n: nat): Cursor {
    if c.offset + n == g.size then Cursor(c.id + 1, 0) else Cursor(c.id, c.offset + n)
  }

  function Skip(g: Geometry, p: nat): nat
    requires g.Valid()
  {
    Linear(g, SkipCursor(g, CursorOf(g, p)))
  }

  /** The end of a record with a payload of `len` bytes written from `p`. */
  function Next(g: Geometry, p: nat, len: nat): nat
    requires g.Valid()
  {
    Skip(g, p) + WORD + len
  }

  /** The linear position between record `k - 1` and record `k`. */
  function Boundary(g: Geometry, log: seq<Record>, k: nat): nat
    requires g.Valid() && k <= |log|
  {
    if k == 0 then 0 else Next(g, Boundary(g, log, k - 1), |log[k - 1]|)
  }

  /** The cursor stands right after the first `k` records of the log. */
  predicate Marks(g: Geometry, c: Cursor, log: seq<Record>, k: nat)
    requires g.Valid()
  {
    k <= |log| && At(g, c, Boundary(g, log, k))
  }

  ghost predicate Holds(g: Geometry, tape: seq<byte>, p: nat, r: Record)
    requires g.Valid()
  {
    var q := Skip(g, p);
    q + WORD + |r| <= |tape| &&
    tape[q..q + WORD] == ToWord(|r|) &&
    tape[q + WORD..q + WORD + |r|] == r
  }

  ghost predicate HoldsAt(g: Geometry, tape: seq<byte>, log: seq<Record>, k: nat)
    requires g.Valid() && k < |log|
  {
    Holds(g, tape, Boundary(g, log, k), log[k])
  }

  ghost predicate LogHolds(g: Geometry, tape: seq<byte>, log: seq<Record>)
    requires g.Valid()
  {
    forall k :: 0 <= k < |log| ==> HoldsAt(g, tape, log, k)
  }

  ghost predicate AllFit(log: seq<Record>, max: nat) {
    forall k :: 0 <= k < |log| ==> |log[k]| <= max
  }

  lemma AdvanceLinear(g: Geometry, c: Cursor, n: nat)
    requires g.Valid() && c.offset + n <= g.size
    ensures Linear(g, Advance(g, c, n)) == Linear(g, c) + n
    ensures Advance(g, c, n).offset < g.size
  {
    assert (c.id + 1) * g.size == c.id * g.size + g.size;
  }

  lemma SkipBounds(g: Geometry, p: nat)
    requires g.Valid()
    ensures p <= Skip(g, p) < p + WORD
    ensures CursorOf(g, Skip(g, p)) == SkipCursor(g, CursorOf(g, p))
    ensures CursorOf(g, Skip(g, p)).offset + WORD <= g.size
  {
    var c := CursorOf(g, p);
    assert (c.id + 1) * g.size == c.id * g.size + g.size;
    CursorUnique(g, SkipCursor(g, c));
  }

  /** Boundaries depend only on the records before them. */
  lemma {:induction false} BoundaryPrefix(g: Geometry, log: seq<Record>, n: nat, k: nat)
    requires g.Valid() && k <= n <= |log|
    ensures Boundary(g, log[..n], k) == Boundary(g, log, k)
  {
    if k == 0 {
    } else {
      BoundaryPrefix(g, log, n, k - 1);
      assert log[..n][k - 1] == log[k - 1];
    }
  }

  /** Appending a record moves no earlier boundary. */
  lemma BoundaryKept(g: Geometry, log: seq<Record>, r: Record, k: nat)
    requires g.Valid() && k <= |log|
    ensures Boundary(g, log + [r], k) == Boundary(g, log, k)
  {
    assert (log + [r])[..|log|] == log;
    BoundaryPrefix(g, log + [r], |log|, k);
  }

  lemma {:induction false} BoundaryMonotone(g: Geometry, log: seq<Record>, i: nat, j: nat)
    requires g.Valid() && i <= j <= |log|
    ensures Boundary(g, log, i) + WORD * (j - i) <= Boundary(g, log, j)
    decreases j
  {
    if i == j {
    } else {
      BoundaryMonotone(g, log, i, j - 1);
      SkipBounds(g, Boundary(g, log, j - 1));
    }
  }

  /** Cursors on record boundaries are equal exactly when their record counts are. */
  lemma MarksInjective(g: Geometry, log: seq<Record>, c: Cursor, i: nat, d: Cursor, j: nat)
    requires g.Valid() && Marks(g, c, log, i) && Marks(g, d, log, j)
    ensures c == d <==> i == j
  {
    if i == j {
      AtUnique(g, c, d, Boundary(g, log, i));
    } else if i < j {
      BoundaryMonotone(g, log, i, j);
    } else {
      BoundaryMonotone(g, log, j, i);
    }
  }

  /** The two tapes have the same first `n` bytes. */
  ghost predicate Agree(a: seq<byte>, b: seq<byte>, n: nat) {
    n <= |a| && n <= |b| && forall i :: 0 <= i < n ==> a[i] == b[i]
  }

  /** A tape that agrees up to the end of a record still holds it. */
  lemma HoldsPrefix(g: Geometry, tape: seq<byte>, tape': seq<byte>, n: nat, p: nat, r: Record)
    requires g.Valid() && Agree(tape, tape', n)
    requires Holds(g, tape, p, r) && Next(g, p, |r|) <= n
    ensures Holds(g, tape', p, r)
  {
    var q := Skip(g, p);
    assert tape'[q..q + WORD] == tape[q..q + WORD];
    assert tape'[q + WORD..q + WORD + |r|] == tape[q + WORD..q + WORD + |r|];
  }

  /** One record of a log kept on a tape that agrees up to record `n`. */
  lemma HoldsKept(g: Geometry, tape: seq<byte>, tape': seq<byte>, log: seq<Record>, n: nat, k: nat)
    requires g.Valid() && LogHolds(g, tape, log) && k < n <= |log|
    requires Agree(tape, tape', Boundary(g, log, n))
    ensures Holds(g, tape', Boundary(g, log, k), log[k])
  {
    assert HoldsAt(g, tape, log, k);
    BoundaryMonotone(g, log, k + 1, n);
    assert Boundary(g, log, k + 1) == Next(g, Boundary(g, log, k), |log[k]|);
    HoldsPrefix(g, tape, tape', Boundary(g, log, n), Boundary(g, log, k), log[k]);
  }

  /** The first `n` records sit on any tape that agrees with this one up to their end. */
  lemma LogPrefix(g: Geometry, tape: seq<byte>, tape': seq<byte>, log: seq<Record>, n: nat)
    requires g.Valid() && LogHolds(g, tape, log) && n <= |log|
    requires Agree(tape, tape', Boundary(g, log, n))
    ensures LogHolds(g, tape', log[..n])
  {
    forall k | 0 <= k < n
      ensures HoldsAt(g, tape', log[..n], k)
    {
      BoundaryPrefix(g, log, n, k);
      HoldsKept(g, tape, tape', log, n, k);
    }
  }

  /** The tape once a record's pad, length word and payload are on it. */
  ghost function Appended(tape: seq<byte>, pad: seq<byte>, r: Record): seq<byte> {
    tape + pad + ToWord(|r|) + r
  }

  lemma AppendedHolds(g: Geometry, tape: seq<byte>, pad: seq<byte>, r: Record)
    requires g.Valid() && |tape| + |pad| == Skip(g, |tape|)
    ensures Agree(tape, Appended(tape, pad, r), |tape|)
    ensures Holds(g, Appended(tape, pad, r), |tape|, r)
    ensures |Appended(tape, pad, r)| == Next(g, |tape|, |r|)
  {
    var q, tape' := Skip(g, |tape|), Appended(tape, pad, r);
    assert tape'[q..q + WORD] == ToWord(|r|);
    assert tape'[q + WORD..q + WORD + |r|] == r;
  }

  /** A tape that holds one more record at its end holds the longer log. */
  lemma LogExtend(g: Geometry, tape: seq<byte>, tape': seq<byte>, log: seq<Record>, r: Record)
    requires g.Valid() && LogHolds(g, tape, log) && Agree(tape, tape', Boundary(g, log, |log|))
    requires Holds(g, tape', Boundary(g, log, |log|), r)
    ensures LogHolds(g, tape', log + [r])
    ensures Boundary(g, log + [r], |log| + 1) == Next(g, Boundary(g, log, |log|), |r|)
  {
    BoundaryKept(g, log, r, |log|);
    forall k | 0 <= k < |log + [r]|
      ensures HoldsAt(g, tape', log + [r], k)
    {
      BoundaryKept(g, log, r, k);
      if k < |log| {
        HoldsKept(g, tape, tape', log, |log|, k);
      }
    }
  }

  /** Appending a record to the tape appends it to the log. */
  lemma LogAppend(g: Geometry, tape: seq<byte>, log: seq<Record>, pad: seq<byte>, r: Record)
    requires g.Valid() && LogHolds(g, tape, log) && |tape| == Boundary(g, log, |log|)
    requires |tape| + |pad| == Skip(g, |tape|)
    ensures LogHolds(g, Appended(tape, pad, r), log + [r])
    ensures |Appended(tape, pad, r)| == Boundary(g, log + [r], |log| + 1)
  {
    AppendedHolds(g, tape, pad, r);
    LogExtend(g, tape, Appended(tape, pad, r), log, r);
  }

  /** The reader's view: the stored bytes at a record give back its length and payload. */
  lemma ReadBack(g: Geometry, st: Store, tape: seq<byte>, hw: nat, p: nat, r: Record)
    requires g.Valid() && WellFormed(g, st) && Window(g, st, tape, hw)
    requires Holds(g, tape, p, r) && hw <= p + g.Total() && |r| <= MAX_INT
    ensures FromWord(Slice(g, st, Skip(g, p), WORD)) == |r|
    ensures Slice(g, st, Skip(g, p) + WORD, |r|) == r
  {
    SkipBounds(g, p);
    SliceOfTape(g, st, tape, hw, Skip(g, p), WORD);
    SliceOfTape(g, st, tape, hw, Skip(g, p) + WORD, |r|);
    WordRoundTrip(|r|);
  }

  // ----- what a write does to the files -----

  /** The files after one chunk. */
  ghost function ChunkOver(g: Geometry, st: Store, c: Cursor, d: seq<byte>): (r: Store)
    requires g.Valid() && WellFormed(g, st) && c.offset + |d| <= g.size
    ensures WellFormed(g, r)
  {
    st[Index(g, c.id) := Patched(st[Index(g, c.id)], c.offset, d)]
  }

  /** How much of the data the segment takes. */
  function Fitting(g: Geometry, c: Cursor, data: seq<byte>): (n: nat)
    requires c.offset < g.size
    ensures n <= |data| && c.offset + n <= g.size && (data != [] ==> n > 0)
  {
    if |data| <= g.size - c.offset then |data| else g.size - c.offset
  }

  /** The files after all chunks. */
  ghost function BytesOver(g: Geometry, st: Store, c: Cursor, data: seq<byte>): (r: Store)
    requires g.Valid() && WellFormed(g, st) && c.offset < g.size
    ensures WellFormed(g, r)
    decreases |data|
  {
    var n := Fitting(g, c, data);
    var st' := ChunkOver(g, st, c, data[..n]);
    if n == |data| then st' else BytesOver(g, st', Advance(g, c, n), data[n..])
  }

  /** The files after some of the chunks, but not the last. */
  ghost predicate SomeOver(g: Geometry, st: Store, c: Cursor, data: seq<byte>, part: Store)
    requires g.Valid() && WellFormed(g, st) && c.offset < g.size
    decreases |data|
  {
    part == st ||
    (Fitting(g, c, data) < |data| &&
     var n := Fitting(g, c, data);
     SomeOver(g, ChunkOver(g, st, c, data[..n]), Advance(g, c, n), data[n..], part))
  }

  // kept folded, for the loop that writes the chunks
  predicate CameKey(b: bool) { true }

  /** A write of `data` that began at `c` of `st0` has come to `at` of `st`, with `rest` to write. */
  ghost predicate CameTo(g: Geometry, st0: Store, c: Cursor, data: seq<byte>, st: Store, at: Cursor, rest: seq<byte>)
    requires g.Valid() && WellFormed(g, st0) && c.offset < g.size && WellFormed(g, st) && at.offset < g.size
  {
    forall b :: CameKey(b) ==>
      BytesOver(g, st0, c, data) == BytesOver(g, st, at, rest) &&
      forall part :: SomeOver(g, st, at, rest, part) ==> SomeOver(g, st0, c, data, part)
  }

  lemma CameStart(g: Geometry, st: Store, c: Cursor, data: seq<byte>)
    requires g.Valid() && WellFormed(g, st) && c.offset < g.size
    ensures CameTo(g, st, c, data, st, c, data) == true
  {
  }

  lemma CameFurther(g: Geometry, st0: Store, c: Cursor, data: seq<byte>, st: Store, at: Cursor,
                    rest: seq<byte>, n: nat, st': Store, at': Cursor, rest': seq<byte>)
    requires g.Valid() && WellFormed(g, st0) && c.offset < g.size && WellFormed(g, st) && at.offset < g.size
    requires CameTo(g, st0, c, data, st, at, rest) == true
    requires n == Fitting(g, at, rest) && st' == ChunkOver(g, st, at, rest[..n])
    requires at' == Advance(g, at, n) && rest' == rest[n..]
    ensures if rest' == [] then BytesOver(g, st0, c, data) == st'
            else at'.offset < g.size && CameTo(g, st0, c, data, st', at', rest') == true
  {
    assert CameKey(true);
  }

  lemma CameSome(g: Geometry, st0: Store, c: Cursor, data: seq<byte>, st: Store, at: Cursor, rest: seq<byte>)
    requires g.Valid() && WellFormed(g, st0) && c.offset < g.size && WellFormed(g, st) && at.offset < g.size
    requires CameTo(g, st0, c, data, st, at, rest)
    ensures SomeOver(g, st0, c, data, st)
  {
    assert CameKey(true);
    assert SomeOver(g, st, at, rest, st);
  }

  /** The files after the length word at the writing cursor `w`, and where the payload goes then. */
  ghost function WordOver(g: Geometry, st: Store, w: Cursor, len: nat): (r: Store)
    requires g.Valid() && WellFormed(g, st) && w.offset < g.size
    ensures WellFormed(g, r)
  {
    ChunkOver(g, st, SkipCursor(g, w), ToWord(len))
  }

  function AfterWord(g: Geometry, w: Cursor): (c: Cursor)
    requires g.Valid() && w.offset < g.size
    ensures c.offset < g.size
  {
    Advance(g, SkipCursor(g, w), WORD)
  }

  /** The files after a whole record, and after a write that failed. */
  ghost function RecordOver(g: Geometry, st: Store, w: Cursor, data: Record): (r: Store)
    requires g.Valid() && WellFormed(g, st) && w.offset < g.size
    ensures WellFormed(g, r)
  {
    BytesOver(g, WordOver(g, st, w, |data|), AfterWord(g, w), data)
  }

  ghost predicate PartOver(g: Geometry, st: Store, w: Cursor, data: Record, part: Store)
    requires g.Valid() && WellFormed(g, st) && w.offset < g.size
  {
    part == st || SomeOver(g, WordOver(g, st, w, |data|), AfterWord(g, w), data, part)
  }

  // ----- fullness -----

  /** IsFull on the segment ids of the reading and writing cursors. */
  predicate Full(g: Geometry, max: nat, rid: nat, wid: nat)
    requires g.Valid()
  {
    wid >= rid + g.count - 1 - max / g.size
  }

  /** The configurations for which the fullness check keeps writes off unread bytes: after a
      skipped length word a maximal payload still ends inside its last spare segment, or the
      queue is so small that it is always full. */
  predicate Roomy(g: Geometry, max: nat)
    requires g.Valid()
  {
    max % g.size + WORD <= g.size || g.count <= max / g.size + 1
  }

  lemma NoOverwrite(g: Geometry, max: nat, r: nat, w: nat, len: nat)
    requires g.Valid() && Roomy(g, max) && r <= w && len <= max
    requires !Full(g, max, CursorOf(g, r).id, CursorOf(g, w).id)
    ensures Next(g, w, len) <= (CursorOf(g, r).id + g.count) * g.size <= r + g.Total()
  {
    var rc, wc := CursorOf(g, r), CursorOf(g, w);
    IdMonotone(g, r, w);
    var k := max / g.size;
    assert max == k * g.size + max % g.size;
    assert wc.id + 2 + k <= rc.id + g.count;
    assert (wc.id + 2 + k) * g.size <= (rc.id + g.count) * g.size by {
      var d := rc.id + g.count - (wc.id + 2 + k);
      assert d * g.size >= 0;
      assert (wc.id + 2 + k + d) * g.size == (wc.id + 2 + k) * g.size + d * g.size;
    }
    assert (wc.id + 2 + k) * g.size == wc.id * g.size + 2 * g.size + k * g.size;
    assert (rc.id + g.count) * g.size == rc.id * g.size + g.Total();
    assert (wc.id + 1) * g.size == wc.id * g.size + g.size;
  }

  lemma IdMonotone(g: Geometry, p: nat, q: nat)
    requires g.Valid() && p <= q
    ensures CursorOf(g, p).id <= CursorOf(g, q).id
  {
    var c, d := CursorOf(g, p), CursorOf(g, q);
    if c.id > d.id {
      assert (c.id - d.id) * g.size == c.id * g.size - d.id * g.size;
      MultipleAtLeast(c.id - d.id, g.size);
    }
  }

  /** Every write admitted by the fullness check stays within one ring of the reading cursor,
      whatever allowed records the queue was given and however many of them were read. */
  ghost predicate NeverLaps(g: Geometry, max: nat)
    requires g.Valid()
  {
    forall log, head, len :: Admitted(g, max, log, head, len) ==> Ends(g, log, len) <= Boundary(g, log, head) + g.Total()
  }

  /** With `head` of the allowed records read, the check admits one more of length `len`. */
  ghost predicate Admitted(g: Geometry, max: nat, log: seq<Record>, head: nat, len: nat)
    requires g.Valid()
  {
    AllFit(log, max) && head <= |log| && len <= max &&
    !Full(g, max, CursorOf(g, Boundary(g, log, head)).id, CursorOf(g, Boundary(g, log, |log|)).id)
  }

  ghost function Ends(g: Geometry, log: seq<Record>, len: nat): nat
    requires g.Valid()
  {
    Next(g, Boundary(g, log, |log|), len)
  }

  /** The one other case: segments of a single word, and a queue that admits a record of one byte
      more than whole segments only while reader and writer are in the same segment. */
  predicate Tight(g: Geometry, max: nat)
    requires g.Valid()
  {
    g.size == WORD && max % g.size == 1 && g.count == max / g.size + 2
  }

  /** The fullness check is sound exactly for the roomy configurations and the tight ones. */
  lemma NeverLapsIff(g: Geometry, max: nat)
    requires g.Valid()
    ensures NeverLaps(g, max) <==> Roomy(g, max) || Tight(g, max)
  {
    if Roomy(g, max) || Tight(g, max) {
      forall log, head, len | Admitted(g, max, log, head, len)
        ensures Ends(g, log, len) <= Boundary(g, log, head) + g.Total()
      {
        BoundaryMonotone(g, log, head, |log|);
        if Roomy(g, max) {
          NoOverwrite(g, max, Boundary(g, log, head), Boundary(g, log, |log|), len);
        } else {
          TightNeverLaps(g, max, log, head, len);
        }
      }
    } else {
      var log, head := LapWitness(g, max);
      assert Admitted(g, max, log, head, max);
    }
  }

  lemma TightNeverLaps(g: Geometry, max: nat, log: seq<Record>, head: nat, len: nat)
    requires g.Valid() && Tight(g, max) && Admitted(g, max, log, head, len)
    ensures Ends(g, log, len) <= Boundary(g, log, head) + g.Total()
  {
    var r, w := Boundary(g, log, head), Boundary(g, log, |log|);
    BoundaryMonotone(g, log, head, |log|);
    IdMonotone(g, r, w);
    assert CursorOf(g, w).id == CursorOf(g, r).id;
    SkipBounds(g, w);
    assert g.Total() == 8 * (max / 8) + 16;
  }

  /** Outside them, a log of allowed records, each of which the check admitted, after which it
      admits a maximal event that overwrites an unread byte. */
  lemma LapWitness(g: Geometry, max: nat) returns (log: seq<Record>, head: nat)
    requires g.Valid() && !Roomy(g, max) && !Tight(g, max)
    ensures Admitted(g, max, log, head, max)
    ensures AllAdmitted(g, max, log)
    ensures Ends(g, log, max) > Boundary(g, log, head) + g.Total()
    ensures exists q :: Boundary(g, log, |log|) <= q < Ends(g, log, max) && SamePlace(g, Boundary(g, log, head), q)
  {
    if g.size > WORD {
      head := 0;
      log := LapWide(g, max);
    } else if g.count > max / g.size + 2 {
      head := 0;
      log := LapNarrow(g, max);
    } else {
      head := 1;
      log := LapNarrowest(g, max);
    }
    Overwrites(g, max, Boundary(g, log, head), Boundary(g, log, |log|), Ends(g, log, max));
  }

  lemma Overwrites(g: Geometry, max: nat, r: nat, w: nat, end: nat)
    requires g.Valid() && !Full(g, max, CursorOf(g, r).id, CursorOf(g, w).id) && end > r + g.Total()
    ensures exists q :: w <= q < end && SamePlace(g, r, q)
  {
    SamePlaceTotal(g, r);
    NotFull(g, max, CursorOf(g, r).id, CursorOf(g, w).id);
    WithinRing(g, CursorOf(g, r), CursorOf(g, w));
    assert w <= r + g.Total() < end && SamePlace(g, r, r + g.Total());
  }

  lemma NotFull(g: Geometry, max: nat, rid: nat, wid: nat)
    requires g.Valid() && !Full(g, max, rid, wid)
    ensures wid + 2 <= rid + g.count
  {
    assert max / g.size >= 0;
  }

  lemma WithinRing(g: Geometry, rc: Cursor, wc: Cursor)
    requires g.Valid() && wc.id < rc.id + g.count && wc.offset < g.size
    ensures Linear(g, wc) <= Linear(g, rc) + g.Total()
  {
    MultipleAtLeast(rc.id + g.count - wc.id, g.size);
    assert (rc.id + g.count - wc.id) * g.size == rc.id * g.size + g.size * g.count - wc.id * g.size;
  }

  /** `n` equal records, each at the start of a segment and ending where no word fits. */
  lemma {:induction false} WideBoundary(g: Geometry, log: seq<Record>, len: nat, i: nat)
    requires g.Valid() && WORD + len < g.size < 2 * WORD + len && i <= |log|
    requires forall k :: 0 <= k < |log| ==> |log[k]| == len
    ensures Boundary(g, log, i) == if i == 0 then 0 else Linear(g, Cursor(i - 1, WORD + len))
  {
    if i == 0 {
    } else {
      WideBoundary(g, log, len, i - 1);
      if i == 1 {
        CursorUnique(g, Cursor(0, 0));
      } else {
        CursorUnique(g, Cursor(i - 2, WORD + len));
      }
    }
  }

  lemma LapWide(g: Geometry, max: nat) returns (log: seq<Record>)
    requires g.Valid() && !Roomy(g, max) && g.size > WORD
    ensures Admitted(g, max, log, 0, max) && AllAdmitted(g, max, log)
    ensures Ends(g, log, max) > g.Total()
  {
    var len := if g.size >= 2 * WORD then g.size - 2 * WORD + 1 else 0;
    var d := g.count - 2 - max / g.size;
    log := seq(d + 1, _ => seq(len, _ => 0));
    WideAdmitted(g, max, log, len, d);
  }

  lemma WideAdmitted(g: Geometry, max: nat, log: seq<Record>, len: nat, d: nat)
    requires g.Valid() && WORD + len < g.size < 2 * WORD + len && |log| == d + 1
    requires forall k :: 0 <= k < |log| ==> |log[k]| == len
    requires d == g.count - 2 - max / g.size && max % g.size + WORD > g.size && len <= max
    ensures Admitted(g, max, log, 0, max) && AllAdmitted(g, max, log)
    ensures Ends(g, log, max) > g.Total()
  {
    forall i: nat | i <= |log|
      ensures CursorOf(g, Boundary(g, log, i)) == if i == 0 then Cursor(0, 0) else Cursor(i - 1, WORD + len)
    {
      WideCursor(g, log, len, i);
    }
    PrefixesAdmitted(g, max, log);
    WideEnds(g, max, Boundary(g, log, |log|), d, WORD + len);
  }

  lemma WideCursor(g: Geometry, log: seq<Record>, len: nat, i: nat)
    requires g.Valid() && WORD + len < g.size < 2 * WORD + len && i <= |log|
    requires forall k :: 0 <= k < |log| ==> |log[k]| == len
    ensures CursorOf(g, Boundary(g, log, i)) == if i == 0 then Cursor(0, 0) else Cursor(i - 1, WORD + len)
  {
    WideBoundary(g, log, len, i);
    CursorUnique(g, if i == 0 then Cursor(0, 0) else Cursor(i - 1, WORD + len));
  }

  lemma WideEnds(g: Geometry, max: nat, w: nat, d: nat, offset: nat)
    requires g.Valid() && d == g.count - 2 - max / g.size && max % g.size + WORD > g.size
    requires CursorOf(g, w) == Cursor(d, offset) && offset + WORD > g.size
    ensures Next(g, w, max) > g.Total()
  {
    Spare(g, max, d);
  }

  /** A maximal event from the start of the segment after `d` ends beyond the ring. */
  lemma Spare(g: Geometry, max: nat, d: nat)
    requires g.Valid() && d == g.count - 2 - max / g.size
    ensures Linear(g, Cursor(d + 1, 0)) + WORD + max == g.Total() - g.size + WORD + max % g.size
  {
    var k := max / g.size;
    assert max == k * g.size + max % g.size;
    assert (d + 1) * g.size == g.size * g.count - g.size - k * g.size;
  }

  /** The records were admitted one after the other while nothing was read. */
  ghost predicate AllAdmitted(g: Geometry, max: nat, log: seq<Record>)
    requires g.Valid()
  {
    forall k: nat :: k < |log| ==> Admitted(g, max, log[..k], 0, |log[k]|)
  }

  lemma PrefixesAdmitted(g: Geometry, max: nat, log: seq<Record>)
    requires g.Valid() && AllFit(log, max)
    requires forall k: nat :: k < |log| ==>
               CursorOf(g, Boundary(g, log, k)).id < g.count - 1 - max / g.size
    ensures AllAdmitted(g, max, log)
  {
    CursorUnique(g, Cursor(0, 0));
    forall k: nat | k < |log|
      ensures Admitted(g, max, log[..k], 0, |log[k]|)
    {
      BoundaryPrefix(g, log, k, k);
    }
  }

  /** Segments of one word: empty records fill one segment each. */
  lemma {:induction false} NarrowBoundary(g: Geometry, log: seq<Record>, i: nat)
    requires g.Valid() && g.size == WORD && i <= |log|
    requires forall k :: 0 <= k < i ==> log[k] == []
    ensures Boundary(g, log, i) == WORD * i
  {
    if i == 0 {
    } else {
      NarrowBoundary(g, log, i - 1);
    }
  }

  lemma LapNarrow(g: Geometry, max: nat) returns (log: seq<Record>)
    requires g.Valid() && !Roomy(g, max) && g.size == WORD && g.count > max / g.size + 2
    ensures Admitted(g, max, log, 0, max) && AllAdmitted(g, max, log)
    ensures Ends(g, log, max) > g.Total()
  {
    var d := g.count - 2 - max / g.size;
    log := seq(d - 1, _ => []) + [[0]];
    NarrowAdmitted(g, max, log, d);
  }

  lemma NarrowAdmitted(g: Geometry, max: nat, log: seq<Record>, d: nat)
    requires g.Valid() && g.size == WORD && d == g.count - 2 - max / g.size && |log| == d >= 1
    requires max % g.size + WORD > g.size && max >= 1
    requires (forall k :: 0 <= k < d - 1 ==> log[k] == []) && |log[d - 1]| == 1
    ensures Admitted(g, max, log, 0, max) && AllAdmitted(g, max, log)
    ensures Ends(g, log, max) > g.Total()
  {
    forall k: nat | k < |log|
      ensures Boundary(g, log, k) == WORD * k
    {
      NarrowBoundary(g, log, k);
    }
    assert Boundary(g, log, d) == WORD * d + 1;
    PrefixesAdmitted(g, max, log);
    WideEnds(g, max, Boundary(g, log, d), d, 1);
  }

  lemma LapNarrowest(g: Geometry, max: nat) returns (log: seq<Record>)
    requires g.Valid() && !Roomy(g, max) && !Tight(g, max) && g.size == WORD && g.count <= max / g.size + 2
    ensures |log| == 1 && Admitted(g, max, log, 1, max) && AllAdmitted(g, max, log)
    ensures Ends(g, log, max) > Boundary(g, log, 1) + g.Total()
  {
    log := [[0]];
    assert Boundary(g, log, 0) == 0 && Boundary(g, log, 1) == 9;
    PrefixesAdmitted(g, max, log);
    Spare(g, max, 0);
  }

  // ----- payload totals -----

  function Payload(log: seq<Record>): nat {
    if log == [] then 0 else |log[0]| + Payload(log[1..])
  }

  lemma {:induction false} PayloadAppend(log: seq<Record>, r: Record)
    ensures Payload(log + [r]) == Payload(log) + |r|
  {
    if log == [] {
    } else {
      assert (log + [r])[1..] == log[1..] + [r];
      PayloadAppend(log[1..], r);
    }
  }
}
