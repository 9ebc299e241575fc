/** The persistent queue over the segment ring. */
module MmapQueue {
  import opened Bytes
  import opened Layout
  import opened Records
  import opened SegmentCache
  import opened Basics
  import OffsetText

  datatype Config = Config(g: Geometry, maxEventSize: nat, maxInMem: nat, flushCeiling: int) {
    predicate Valid() {
      g.Valid() && Roomy(g, maxEventSize) && maxEventSize <= MAX_INT && maxInMem >= MINIMUM_SEGMENTS
    }
  }

  const MINIMUM_SEGMENTS: nat := 4
  const DATA_4KB: nat := 131072

  /** The four cursors of the metadata page. */
  datatype Cursors = Cursors(writing: Cursor, watermark: Cursor, committed: Cursor, reading: Cursor)

  datatype Outcome = Done | IoError | Stuck

  datatype EnqueueResult = Accepted | Closed | TooLarge | QueueFull | WriteFailed(why: Outcome)

  datatype DequeueResult = Got(data: Record, at: Cursor) | NotReady | Empty | ReadFailed(why: Outcome)

  /** Go's remainder, which truncates toward zero. */
  function Remainder(a: int, b: int): int
    requires b > 0
  {
    if a < 0 then -((-a) % b) else a % b
  }

  /** Initialize's adjustments: whole pages per segment, at least four mapped segments. A size of
      less than a page becomes 131072 bytes, and so does a negative one of less than a page; a more
      negative one stays negative. */
  function Adjusted(segmentSize: int, maxInMem: int, pageSize: int): (r: (int, int))
    requires pageSize >= 1
    ensures -pageSize < segmentSize < pageSize ==> r.0 == DATA_4KB
    ensures segmentSize >= pageSize ==> r.0 % pageSize == 0 && pageSize <= r.0 <= segmentSize < r.0 + pageSize
    ensures segmentSize <= -pageSize ==> r.0 <= -pageSize
    ensures r.1 >= MINIMUM_SEGMENTS && r.1 >= maxInMem && (r.1 == maxInMem || r.1 == MINIMUM_SEGMENTS)
  {
    var whole := segmentSize - Remainder(segmentSize, pageSize);
    WholePages(segmentSize, pageSize);
    (if -pageSize < whole < pageSize then DATA_4KB else whole,
     if maxInMem < MINIMUM_SEGMENTS then MINIMUM_SEGMENTS else maxInMem)
  }

  lemma WholePages(size: int, page: int)
    requires page >= 1
    ensures var whole := size - Remainder(size, page);
            (0 <= size ==> whole % page == 0 && 0 <= whole <= size < whole + page) &&
            (size < 0 ==> whole - page < size <= whole <= 0) &&
            (-page < whole < page <==> -page < size < page)
  {
    if size >= 0 {
      PageMultiple(size, page);
    } else {
      PageMultiple(-size, page);
    }
  }

  lemma PageMultiple(s: int, page: int)
    requires page >= 1 && s >= 0
    ensures var whole := s - s % page;
            whole % page == 0 && 0 <= whole <= s < whole + page && (whole < page <==> s < page)
  {
    var whole := s - s % page;
    assert whole == (s / page) * page + 0;
    ModUnique(whole, page, s / page, 0);
    if s >= page {
      MultipleAtLeast(s / page, page);
    }
  }

  /** What the disk holds: the first `mark` records of `log` survive in the files as far as
      `hw` left them, and the stored cursors sit on the boundaries `acked` and `mark`. */
  ghost predicate OnDisk(g: Geometry, files: Store, disk: Cursors,
                         log: seq<Record>, tape: seq<byte>, hw: nat, acked: nat, mark: nat)
    requires g.Valid()
  {
    && WellFormed(g, files) && LogHolds(g, tape, log)
    && acked <= mark <= |log|
    && Boundary(g, log, mark) <= |tape| <= hw
    && Window(g, files, tape[..Boundary(g, log, mark)], hw)
    && Marks(g, disk.committed, log, acked)
    && Marks(g, disk.watermark, log, mark)
  }

  /** Such a disk, with nothing written a whole ring beyond the committed cursor. */
  ghost predicate Recoverable(cfg: Config, files: Store, disk: Cursors,
                              log: seq<Record>, tape: seq<byte>, hw: nat, acked: nat, mark: nat)
    requires cfg.Valid()
  {
    OnDisk(cfg.g, files, disk, log, tape, hw, acked, mark) &&
    AllFit(log, cfg.maxEventSize) && hw <= Boundary(cfg.g, log, acked) + cfg.g.Total()
  }

  /** The storage invariant: the image is a window on the tape, and so are the files as far as
      the tape is durable; the count of mapped segments is right and bounded. */
  ghost predicate Cached(cfg: Config, files: Store, segments: Segments, count: nat,
                         tape: seq<byte>, durable: nat, hw: nat)
    requires cfg.Valid()
  {
    && Fits(cfg.g, files, segments)
    && count == CountMapped(segments) <= cfg.maxInMem
    && durable <= |tape| <= hw
    && Window(cfg.g, Image(cfg.g, files, segments), tape, hw)
    && Window(cfg.g, files, tape[..durable], hw)
  }

  /** What the queue stands for: every record accepted so far, of which the first `head` were
      handed out, the first `mark` were flushed, and `recovered` payload bytes were found at
      Initialize. */
  datatype Book = Book(log: seq<Record>, head: nat, mark: nat, recovered: nat)

  /** The cursors sit on the book's record boundaries, the tape holds its records, and no
      byte was written a whole ring beyond the reading cursor. */
  ghost predicate Balanced(cfg: Config, b: Book, tape: seq<byte>, durable: nat, hw: nat,
                           meta: Cursors, watermark: Cursor, used: int)
    requires cfg.Valid()
  {
    && b.head <= |b.log| && b.mark <= |b.log|
    && LogHolds(cfg.g, tape, b.log) && AllFit(b.log, cfg.maxEventSize)
    && |tape| == Boundary(cfg.g, b.log, |b.log|)
    && durable == Boundary(cfg.g, b.log, b.mark)
    && hw <= Boundary(cfg.g, b.log, b.head) + cfg.g.Total()
    && At(cfg.g, meta.writing, |tape|)
    && Marks(cfg.g, meta.reading, b.log, b.head)
    && meta.watermark == watermark && At(cfg.g, watermark, durable)
    && used + b.recovered == Payload(b.log[b.head..])
  }

  // The two invariants as single facts about values: compared with `true` so that the
  // verifier carries them from state to state whole instead of clause by clause.

  ghost predicate CachedWhole(cfg: Config, files: Store, segments: Segments, count: nat,
                              tape: seq<byte>, durable: nat, hw: nat)
    requires cfg.Valid()
  {
    Cached(cfg, files, segments, count, tape, durable, hw) == true
  }

  ghost predicate BalancedWhole(cfg: Config, b: Book, tape: seq<byte>, durable: nat, hw: nat,
                                meta: Cursors, watermark: Cursor, used: int)
    requires cfg.Valid()
  {
    Balanced(cfg, b, tape, durable, hw, meta, watermark, used) == true
  }

  lemma PublishBalanced(cfg: Config, b: Book, tape: seq<byte>, durable: nat, hw: nat, hw': nat,
                        meta: Cursors, watermark: Cursor, used: int, pad: seq<byte>, r: Record, c: Cursor)
    requires cfg.Valid() && BalancedWhole(cfg, b, tape, durable, hw, meta, watermark, used)
    requires |tape| + |pad| == Skip(cfg.g, |tape|) && |r| <= cfg.maxEventSize
    requires hw' <= Boundary(cfg.g, b.log, b.head) + cfg.g.Total()
    requires c.offset < cfg.g.size && Linear(cfg.g, c) == |Appended(tape, pad, r)|
    ensures BalancedWhole(cfg, b.(log := b.log + [r]), Appended(tape, pad, r), durable, hw',
                     meta.(writing := c), watermark, used + |r|)
  {
    LogAppend(cfg.g, tape, b.log, pad, r);
    BoundaryKept(cfg.g, b.log, r, b.head);
    BoundaryKept(cfg.g, b.log, r, b.mark);
    PendingPayload(b.log, b.head, r);
  }

  lemma PendingPayload(log: seq<Record>, head: nat, r: Record)
    requires head <= |log|
    ensures Payload((log + [r])[head..]) == Payload(log[head..]) + |r|
  {
    assert (log + [r])[head..] == log[head..] + [r];
    PayloadAppend(log[head..], r);
  }

  lemma ChunkJoins(tape: seq<byte>, data: seq<byte>, k: nat, n: nat)
    requires k + n <= |data|
    ensures (tape + data[..k]) + data[k..][..n] == tape + data[..k + n]
  {
    assert data[..k] + data[k..][..n] == data[..k + n];
  }

  lemma RaiseMark(cfg: Config, b: Book, tape: seq<byte>, durable: nat, hw: nat, hw': nat,
                  meta: Cursors, watermark: Cursor, used: int)
    requires cfg.Valid() && BalancedWhole(cfg, b, tape, durable, hw, meta, watermark, used)
    requires hw' <= Boundary(cfg.g, b.log, b.head) + cfg.g.Total()
    ensures BalancedWhole(cfg, b, tape, durable, hw', meta, watermark, used)
  {
  }

  lemma TakeBalanced(cfg: Config, b: Book, tape: seq<byte>, durable: nat, hw: nat,
                     meta: Cursors, watermark: Cursor, used: int, c: Cursor)
    requires cfg.Valid() && BalancedWhole(cfg, b, tape, durable, hw, meta, watermark, used)
    requires b.head < |b.log| && c.offset < cfg.g.size
    requires Linear(cfg.g, c) == Next(cfg.g, Boundary(cfg.g, b.log, b.head), |b.log[b.head]|)
    ensures Marks(cfg.g, c, b.log, b.head + 1)
    ensures b.log[b.head..] == [b.log[b.head]] + b.log[b.head + 1..]
    ensures BalancedWhole(cfg, b.(head := b.head + 1), tape, durable, hw,
                     meta.(reading := c), watermark, used - |b.log[b.head]|)
  {
    BoundaryMonotone(cfg.g, b.log, b.head, b.head + 1);
    assert b.log[b.head..][1..] == b.log[b.head + 1..];
  }

  lemma RecoverBalanced(cfg: Config, files: Store, disk: Cursors,
                        log: seq<Record>, tape: seq<byte>, hw: nat, acked: nat, mark: nat)
    requires cfg.Valid() && Recoverable(cfg, files, disk, log, tape, hw, acked, mark)
    ensures var end := Boundary(cfg.g, log, mark);
            BalancedWhole(cfg, Book(log[..mark], acked, mark, Payload(log[acked..mark])), tape[..end], end, hw,
                     disk.(writing := disk.watermark, reading := disk.committed), disk.watermark, 0)
    ensures Marks(cfg.g, disk.committed, log[..mark], acked)
  {
    var end := Boundary(cfg.g, log, mark);
    LogPrefix(cfg.g, tape, tape[..end], log, mark);
    BoundaryPrefix(cfg.g, log, mark, mark);
    BoundaryPrefix(cfg.g, log, mark, acked);
    assert log[..mark][acked..] == log[acked..mark];
  }

  /** A flush is signalled with every `ceiling`-th of the accepted events, and never if the ceiling is
      not positive. */
  ghost predicate Metered(ceiling: int, unflushed: int, signals: nat, accepted: nat) {
    if ceiling >= 1 then signals * ceiling + unflushed == accepted && 0 <= unflushed < ceiling
    else signals == 0 && unflushed == accepted
  }

  lemma MeteredMore(ceiling: int, unflushed: int, signals: nat, accepted: nat)
    requires Metered(ceiling, unflushed, signals, accepted)
    ensures if unflushed + 1 == ceiling then Metered(ceiling, 0, signals + 1, accepted + 1)
            else Metered(ceiling, unflushed + 1, signals, accepted + 1)
  {
    assert (signals + 1) * ceiling == signals * ceiling + ceiling;
  }

  lemma MeteredIs(ceiling: int, unflushed: int, signals: nat, accepted: nat)
    requires Metered(ceiling, unflushed, signals, accepted) && ceiling >= 1
    ensures signals == accepted / ceiling && unflushed == accepted % ceiling
  {
    ModUnique(accepted, ceiling, signals, unflushed);
    assert (accepted / ceiling - signals) * ceiling == 0;
    SmallMultiple(accepted / ceiling - signals, ceiling);
  }

  lemma WholeWord(g: Geometry, st: Store, c: Cursor, at: Cursor, length: nat, n: nat, st': Store, c': Cursor)
    requires g.Valid() && WellFormed(g, st) && c.offset < g.size && at == SkipCursor(g, c) && n == WORD
    requires at.offset + n <= g.size && st' == ChunkOver(g, st, at, ToWord(length)[..n]) && c' == Advance(g, at, n)
    ensures st' == WordOver(g, st, c, length) && c' == AfterWord(g, c) && ToWord(length)[..n] == ToWord(length)
  {
    assert ToWord(length)[..n] == ToWord(length);
  }

  class Queue {
    const cfg: Config
    const g: Geometry := cfg.g
    // the metadata page and the segment files
    var meta: Cursors
    var diskMeta: Cursors
    var files: Store
    // running components
    var segments: Segments
    var mmapCount: nat
    var unflushedNum: int
    var flushSignals: nat
    var markRead: seq<nat>
    var usedSize: int
    var ready: bool
    ghost var book: Book
    ghost var tape: seq<byte>
    ghost var durable: nat
    ghost var hw: nat
    // how many events were accepted since Initialize
    ghost var accepted: nat

    ghost predicate Stored()
      reads this
    {
      cfg.Valid() && CachedWhole(cfg, files, segments, mmapCount, tape, durable, hw)
    }

    ghost predicate Valid()
      reads this
    {
      Stored() && BalancedWhole(cfg, book, tape, durable, hw, meta, diskMeta.watermark, usedSize) &&
      Metered(cfg.flushCeiling, unflushedNum, flushSignals, accepted) == true
    }

    /** With a positive ceiling the number of flushes signalled so far is the number of accepted events
        divided by it. */
    lemma FlushesSignalled()
      requires Valid() && cfg.flushCeiling >= 1
      ensures flushSignals == accepted / cfg.flushCeiling && unflushedNum == accepted % cfg.flushCeiling
    {
      MeteredIs(cfg.flushCeiling, unflushedNum, flushSignals, accepted);
    }

    /** The records waiting in the queue, oldest first. */
    ghost function Pending(): seq<Record>
      requires book.head <= |book.log|
      reads this
    {
      book.log[book.head..]
    }

    /** The committed cursor says that the first `k` records are acknowledged. */
    ghost predicate CommittedAt(k: nat)
      reads this
    {
      cfg.Valid() && k <= book.head && Marks(g, meta.committed, book.log, k)
    }

    ghost predicate DiskCommittedAt(k: nat)
      reads this
    {
      cfg.Valid() && k <= book.mark && Marks(g, diskMeta.committed, book.log, k)
    }

    // ----- segments -----

    method UnmapSegment(id: nat)
      requires Stored()
      modifies `segments, `files, `mmapCount
      ensures Stored()
      ensures Image(g, files, segments) == old(Image(g, files, segments))
      ensures segments == old(segments)[Index(g, id) := Absent]
      ensures files == old(files)[Index(g, id) := old(Image(g, files, segments))[Index(g, id)]]
      ensures mmapCount == old(mmapCount) - if old(segments)[Index(g, id)].Mapped? then 1 else 0
    {
      var index := Index(g, id);
      if segments[index].Absent? {
        assert segments == segments[index := Absent] && files == files[index := Image(g, files, segments)[index]];
        return;
      }
      UnmapKeepsImage(g, files, segments, index);
      WindowTruncate(g, Image(g, files, segments), tape, durable, hw);
      MixWindow(g, files[index := segments[index].bytes], files, Image(g, files, segments), tape[..durable], hw);
      CountUpdate(segments, index, Absent);
      files := files[index := segments[index].bytes];
      segments := segments[index := Absent];
      mmapCount := mmapCount - 1;
    }

    /** One sweep of doSwap's inner loop over a full cache. */
    method SwapSweep(clearAll: bool) returns (early: bool)
      requires Stored() && mmapCount == cfg.maxInMem
      requires clearAll == ClearAll(cfg.maxInMem, meta.reading.id, meta.writing.id)
      modifies `segments, `files, `mmapCount
      ensures Stored()
      ensures Image(g, files, segments) == old(Image(g, files, segments))
      ensures Swapped(g, cfg.maxInMem, old(segments), segments, mmapCount, meta.reading.id, meta.writing.id)
      ensures mmapCount < cfg.maxInMem <==>
              old(CanEvict(g, cfg.maxInMem, segments, meta.reading.id, meta.writing.id))
      ensures mmapCount == cfg.maxInMem ==> segments == old(segments)
      ensures early ==> mmapCount < cfg.maxInMem
    {
      var rid, wid := meta.reading.id, meta.writing.id;
      var low := Bottom(g, cfg.maxInMem, wid);
      var i := wid + g.count;
      ghost var before := segments;
      while low < i
        invariant low <= i <= wid + g.count
        invariant Stored() && Image(g, files, segments) == old(Image(g, files, segments))
        invariant SweptTo(g, cfg.maxInMem, before, segments, rid, wid, i)
        invariant mmapCount == cfg.maxInMem <==> segments == before
        invariant !clearAll ==> cfg.maxInMem - mmapCount < cfg.maxInMem / 2 - 1
      {
        i := i - 1;
        SweepStep(g, cfg.maxInMem, before, segments, rid, wid, i);
        if Index(g, i) == Index(g, wid) || Index(g, i) == Index(g, rid) {
          continue;
        }
        UnmapSegment(i);
        if !clearAll && cfg.maxInMem - mmapCount >= cfg.maxInMem / 2 - 1 {
          return true;
        }
      }
      SweepEnd(g, cfg.maxInMem, before, segments, rid, wid, low);
      return false;
    }

    /** doSwap, where Stuck stands for the loop that can never end. */
    method DoSwap() returns (out: Outcome)
      requires Stored()
      modifies `segments, `files, `mmapCount
      ensures Stored()
      ensures Image(g, files, segments) == old(Image(g, files, segments))
      ensures out == Done || out == Stuck
      ensures out == Done <==> mmapCount < cfg.maxInMem
      ensures out == Stuck <==>
                (old(mmapCount) == cfg.maxInMem &&
                 !old(CanEvict(g, cfg.maxInMem, segments, meta.reading.id, meta.writing.id)))
      ensures out == Done && old(mmapCount) == cfg.maxInMem ==>
                Swapped(g, cfg.maxInMem, old(segments), segments, mmapCount, meta.reading.id, meta.writing.id)
      ensures old(mmapCount) < cfg.maxInMem || out == Stuck ==> segments == old(segments)
    {
      var rid, wid := meta.reading.id, meta.writing.id;
      var clearAll := ClearAll(cfg.maxInMem, rid, wid);
      ghost var was, wasCount := segments, mmapCount;
      while mmapCount >= cfg.maxInMem
        invariant Stored() && Image(g, files, segments) == old(Image(g, files, segments))
        invariant mmapCount <= wasCount
        invariant mmapCount == wasCount ==> segments == was
        invariant mmapCount < wasCount ==> wasCount == cfg.maxInMem
        invariant mmapCount < wasCount ==> CanEvict(g, cfg.maxInMem, was, rid, wid) == true
        invariant mmapCount < wasCount ==> Swapped(g, cfg.maxInMem, was, segments, mmapCount, rid, wid) == true
        decreases mmapCount
      {
        var before := mmapCount;
        var early := SwapSweep(clearAll);
        if early {
          return Done;
        }
        if mmapCount == before {
          // nothing changed, so every later sweep does the same
          return Stuck;
        }
      }
      return Done;
    }

    /** mapSegment: nothing to do, one more segment mapped, or a file that cannot be opened. */
    method MapSegment(id: nat) returns (out: Outcome)
      requires Stored() && (mmapCount < cfg.maxInMem || segments[Index(g, id)].Mapped?)
      modifies `segments, `mmapCount
      ensures Stored()
      ensures Image(g, files, segments) == old(Image(g, files, segments))
      ensures out == Done || out == IoError
      ensures out == Done ==> segments[Index(g, id)].Mapped? && Indices(segments) == Indices(old(segments)) + {Index(g, id)}
      ensures OtherwiseSame(old(segments), segments, Index(g, id))
      ensures out != Done ==> segments == old(segments) && segments[Index(g, id)].Absent?
      ensures mmapCount <= old(mmapCount) + 1
    {
      var index := Index(g, id);
      if segments[index].Absent? {
        var mapsOk: bool := *;
        if !mapsOk {
          return IoError;
        }
        MapKeepsImage(g, files, segments, index);
        CountUpdate(segments, index, Mapped(files[index]));
        segments := segments[index := Mapped(files[index])];
        mmapCount := mmapCount + 1;
      }
      return Done;
    }

    /** The segment is mapped afterwards, unless its file cannot be opened or the swap of a full
        cache cannot end. */
    method GetSegment(id: nat) returns (out: Outcome)
      requires Stored()
      modifies `segments, `files, `mmapCount
      ensures Stored()
      ensures Image(g, files, segments) == old(Image(g, files, segments))
      ensures out == Done ==> segments[Index(g, id)].Mapped?
      ensures out == Done ==>
                Fetches(g, cfg.maxInMem, old(segments), segments, meta.reading.id, meta.writing.id, id)
      ensures out == Done && old(mmapCount) < cfg.maxInMem ==>
                OtherwiseSame(old(segments), segments, Index(g, id))
      ensures out == IoError ==> segments[Index(g, id)].Absent?
      ensures out != Done && old(mmapCount) < cfg.maxInMem ==> segments == old(segments)
      ensures mmapCount <= old(mmapCount) + 1
      ensures out == Stuck ==> old(mmapCount) == mmapCount == cfg.maxInMem
      ensures out == Stuck <==> NoWayOn(g, cfg.maxInMem, old(segments), meta.reading.id, meta.writing.id)
    {
      CountIndices(segments);
      NoWayOnIff(g, cfg.maxInMem, segments, meta.reading.id, meta.writing.id);
      if mmapCount >= cfg.maxInMem {
        out := DoSwap();
        if out == Stuck {
          return;
        }
        SwapOfIndices(g, cfg.maxInMem, old(segments), segments, mmapCount, meta.reading.id, meta.writing.id);
      }
      out := MapSegment(id);
    }

    // ----- chunks -----

    /** mmap's WriteAt: as many bytes as fit in the segment. */
    method WriteAt(d: seq<byte>, c: Cursor) returns (n: nat)
      requires Stored() && segments[Index(g, c.id)].Mapped?
      requires |tape| == Linear(g, c) && c.offset < g.size
      modifies `segments, `tape, `hw
      ensures Stored()
      ensures n == if |d| <= g.size - c.offset then |d| else g.size - c.offset
      ensures tape == old(tape) + d[..n]
      ensures hw == if old(hw) < |tape| then |tape| else old(hw)
      ensures segments[Index(g, c.id)].Mapped?
      ensures Image(g, files, segments) == ChunkOver(g, old(Image(g, files, segments)), c, d[..n])
    {
      n := if |d| <= g.size - c.offset then |d| else g.size - c.offset;
      var i := Index(g, c.id);
      ghost var was := Image(g, files, segments);
      ChunkWritten(g, was, tape, hw, c, d[..n]);
      segments := segments[i := Mapped(Patched(segments[i].bytes, c.offset, d[..n]))];
      CountUpdate(old(segments), i, segments[i]);
      assert Image(g, files, segments) == was[i := Patched(was[i], c.offset, d[..n])] == ChunkOver(g, was, c, d[..n]);
      assert (tape + d[..n])[..durable] == tape[..durable];
      tape := tape + d[..n];
      hw := if hw < |tape| then |tape| else hw;
    }

    /** Nothing fails unless a segment is not mapped, or the cache is full. */
    ghost predicate Excused(out: Outcome)
      reads this
    {
      match out
      case Done => true
      case IoError => exists i :: 0 <= i < |segments| && segments[i].Absent?
      case Stuck => mmapCount == cfg.maxInMem
    }

    /** GetSegment as the loops below use it. */
    method Fetch(id: nat) returns (out: Outcome)
      requires Stored()
      modifies `segments, `files, `mmapCount
      ensures Stored() && Image(g, files, segments) == old(Image(g, files, segments))
      ensures out == Done ==> segments[Index(g, id)].Mapped?
      ensures Excused(out)
    {
      out := GetSegment(id);
    }

    method WriteLength(length: nat, c: Cursor) returns (out: Outcome, c': Cursor, ghost pad: seq<byte>)
      requires Stored() && |tape| == Linear(g, c) && c.offset < g.size
      modifies `segments, `files, `mmapCount, `tape, `hw
      ensures Excused(out)
      ensures Stored()
      ensures |old(tape)| + |pad| == Skip(g, |old(tape)|)
      ensures out == Done ==> tape == old(tape) + pad + ToWord(length)
      ensures out != Done ==> tape == old(tape) + pad
      ensures hw == if old(hw) < |tape| then |tape| else old(hw)
      ensures out == Done ==> Linear(g, c') == |tape| && c' == AfterWord(g, c)
      ensures Image(g, files, segments) ==
              (var st := old(Image(g, files, segments)); if out == Done then WordOver(g, st, c, length) else st)
    {
      SkipBounds(g, |tape|);
      CursorUnique(g, c);
      c' := c;
      pad := [];
      if c'.offset + WORD > g.size {
        pad := PadToSegmentEnd(c');
        c' := Cursor(c'.id + 1, 0);
      }
      out := Fetch(c'.id);
      if out == Done {
        ghost var at, st := c', Image(g, files, segments);
        var n := WriteAt(ToWord(length), c');
        AdvanceLinear(g, c', WORD);
        c' := Advance(g, c', WORD);
        WholeWord(g, st, c, at, length, n, Image(g, files, segments), c');
      }
    }

    /** The bytes a skipped length word leaves behind stay what they were. */
    ghost method PadToSegmentEnd(c: Cursor) returns (pad: seq<byte>)
      requires Stored() && |tape| == Linear(g, c) && c.offset < g.size
      modifies `tape, `hw
      ensures Stored()
      ensures tape == old(tape) + pad && |pad| == g.size - c.offset
      ensures |tape| == Linear(g, Cursor(c.id + 1, 0))
      ensures hw == if old(hw) < |tape| then |tape| else old(hw)
    {
      var st := Image(g, files, segments);
      var i := Index(g, c.id);
      pad := st[i][c.offset..];
      ChunkWritten(g, st, tape, hw, c, pad);
      assert Patched(st[i], c.offset, pad) == st[i];
      assert st[i := st[i]] == st;
      assert (tape + pad)[..durable] == tape[..durable];
      AdvanceLinear(g, c, |pad|);
      tape := tape + pad;
      hw := if hw < |tape| then |tape| else hw;
    }

    method WriteBytes(data: seq<byte>, c: Cursor) returns (out: Outcome, c': Cursor)
      requires Stored() && |tape| == Linear(g, c) && c.offset < g.size
      modifies `segments, `files, `mmapCount, `tape, `hw
      ensures Excused(out)
      ensures Stored()
      ensures out == Done ==> tape == old(tape) + data
      ensures out != Done ==> exists n :: 0 <= n <= |data| && tape == old(tape) + data[..n]
      ensures hw == if old(hw) < |tape| then |tape| else old(hw)
      ensures out == Done ==> Linear(g, c') == |tape| && c'.offset < g.size
      ensures out == Done ==> Image(g, files, segments) == BytesOver(g, old(Image(g, files, segments)), c, data)
      ensures out != Done ==> SomeOver(g, old(Image(g, files, segments)), c, data, Image(g, files, segments))
    {
      var counter := 0;
      c' := c;
      ghost var st0 := Image(g, files, segments);
      CameStart(g, st0, c, data);
      assert data[0..] == data;
      while true
        invariant Stored() && 0 <= counter <= |data|
        invariant |tape| == Linear(g, c') && c'.offset < g.size
        invariant tape == old(tape) + data[..counter]
        invariant hw == if old(hw) < |tape| then |tape| else old(hw)
        invariant counter < |data| || data == []
        invariant CameTo(g, st0, c, data, Image(g, files, segments), c', data[counter..]) == true
        decreases |data| - counter
      {
        out := Fetch(c'.id);
        if out != Done {
          CameSome(g, st0, c, data, Image(g, files, segments), c', data[counter..]);
          return;
        }
        var n;
        n, c' := WriteChunk(data, counter, c', st0, c);
        ChunkJoins(old(tape), data, counter, n);
        counter := counter + n;
        if counter == |data| {
          assert data[..counter] == data;
          break;
        }
      }
    }

    /** One round of the loop, on a segment that is mapped. */
    method WriteChunk(data: seq<byte>, counter: nat, at: Cursor, ghost st0: Store, ghost c: Cursor)
      returns (n: nat, at': Cursor)
      requires Stored() && segments[Index(g, at.id)].Mapped? && |tape| == Linear(g, at) && at.offset < g.size
      requires (counter < |data| || data == []) && counter <= |data| && WellFormed(g, st0) && c.offset < g.size
      requires CameTo(g, st0, c, data, Image(g, files, segments), at, data[counter..]) == true
      modifies `segments, `tape, `hw
      ensures Stored() && counter + n <= |data| && (counter + n == |data| || n > 0)
      ensures tape == old(tape) + data[counter..][..n] && hw == if old(hw) < |tape| then |tape| else old(hw)
      ensures |tape| == Linear(g, at') && at'.offset < g.size
      ensures if counter + n == |data| then BytesOver(g, st0, c, data) == Image(g, files, segments)
              else CameTo(g, st0, c, data, Image(g, files, segments), at', data[counter + n..]) == true
    {
      ghost var st, rest := Image(g, files, segments), data[counter..];
      n := WriteAt(data[counter..], at);
      AdvanceLinear(g, at, n);
      at' := Advance(g, at, n);
      assert rest[n..] == data[counter + n..];
      CameFurther(g, st0, c, data, st, at, rest, n, Image(g, files, segments), at', data[counter + n..]);
    }

    method ReadLength(c: Cursor) returns (out: Outcome, c': Cursor, length: nat)
      requires Stored() && c.offset < g.size
      modifies `segments, `files, `mmapCount
      ensures Excused(out)
      ensures Stored() && Image(g, files, segments) == old(Image(g, files, segments))
      ensures out == Done ==>
                length == FromWord(Slice(g, Image(g, files, segments), Skip(g, Linear(g, c)), WORD)) &&
                Linear(g, c') == Skip(g, Linear(g, c)) + WORD && c'.offset < g.size
    {
      CursorUnique(g, c);
      SkipBounds(g, Linear(g, c));
      c', length := c, 0;
      if c'.offset + WORD > g.size {
        c' := Cursor(c'.id + 1, 0);
      }
      out := Fetch(c'.id);
      if out != Done {
        return;
      }
      var bytes := segments[Index(g, c'.id)].bytes;
      ChunkRead(g, Image(g, files, segments), c', WORD);
      length := FromWord(bytes[c'.offset..c'.offset + WORD]);
      AdvanceLinear(g, c', WORD);
      c' := Advance(g, c', WORD);
    }

    method ReadBytes(c: Cursor, length: nat) returns (out: Outcome, data: seq<byte>, c': Cursor)
      requires Stored() && c.offset < g.size
      modifies `segments, `files, `mmapCount
      ensures Excused(out)
      ensures Stored() && Image(g, files, segments) == old(Image(g, files, segments))
      ensures out == Done ==>
                data == Slice(g, Image(g, files, segments), Linear(g, c), length) &&
                Linear(g, c') == Linear(g, c) + length && c'.offset < g.size
    {
      data := [];
      c' := c;
      while true
        invariant Stored() && Image(g, files, segments) == old(Image(g, files, segments))
        invariant |data| <= length && c'.offset < g.size
        invariant Linear(g, c') == Linear(g, c) + |data|
        invariant data == Slice(g, Image(g, files, segments), Linear(g, c), |data|)
        decreases length - |data|
      {
        out := Fetch(c'.id);
        if out != Done {
          return;
        }
        // mmap's ReadAt: as many bytes as the segment still has
        var n := if length - |data| <= g.size - c'.offset then length - |data| else g.size - c'.offset;
        ChunkRead(g, Image(g, files, segments), c', n);
        SliceSplit(g, Image(g, files, segments), Linear(g, c), |data|, n);
        data := data + segments[Index(g, c'.id)].bytes[c'.offset..c'.offset + n];
        AdvanceLinear(g, c', n);
        c' := Advance(g, c', n);
        if |data| == length {
          break;
        }
      }
    }

    // ----- the queue -----

    predicate IsEmpty()
      reads this
    {
      meta.reading == meta.writing
    }

    predicate IsFull()
      requires g.Valid()
      reads this
    {
      Full(g, cfg.maxEventSize, meta.reading.id, meta.writing.id)
    }

    /** The cursor comparison is exactly emptiness of the record sequence. */
    lemma EmptyIff()
      requires Valid()
      ensures IsEmpty() <==> Pending() == []
    {
      MarksInjective(g, book.log, meta.reading, book.head, meta.writing, |book.log|);
    }

    /** What is stored after Enqueue: the record; or some of its chunks; or what was stored before. */
    ghost predicate Wrote(st: Store, w: Cursor, data: Record, r: EnqueueResult)
      requires g.Valid() && Fits(g, files, segments)
      reads this
    {
      WellFormed(g, st) && w.offset < g.size &&
      match r
      case Accepted => Image(g, files, segments) == RecordOver(g, st, w, data)
      case WriteFailed(_) => PartOver(g, st, w, data, Image(g, files, segments))
      case _ => Image(g, files, segments) == st
    }

    method Enqueue(data: Record) returns (r: EnqueueResult)
      requires Valid()
      modifies `segments, `files, `mmapCount, `tape, `hw, `book, `meta, `unflushedNum, `flushSignals, `usedSize, `accepted
      ensures Valid()
      ensures r == Closed <==> !ready
      ensures r == TooLarge <==> ready && |data| > cfg.maxEventSize
      ensures r == QueueFull <==>
                ready && |data| <= cfg.maxEventSize &&
                old(meta).writing.id >= old(meta).reading.id + g.count - 1 - cfg.maxEventSize / g.size
      ensures r.WriteFailed? ==> r.why != Done && Excused(r.why)
      ensures r == Accepted ==> Pending() == old(Pending()) + [data]
      ensures r == Accepted ==> book == old(book).(log := old(book.log) + [data])
      ensures r == Accepted ==> meta == old(meta).(writing := meta.writing)
      ensures r == Accepted ==> usedSize == old(usedSize) + |data|
      ensures r == Accepted ==> accepted == old(accepted) + 1
      ensures r != Accepted ==> unchanged(`book, `meta, `usedSize, `unflushedNum, `flushSignals, `accepted)
      ensures Wrote(old(Image(g, files, segments)), old(meta.writing), data, r)
    {
      if !ready {
        r := Closed;
      } else if |data| > cfg.maxEventSize {
        r := TooLarge;
      } else if IsFull() {
        r := QueueFull;
      } else {
        r := Append(data);
      }
    }

    /** enqueue on a queue that is not full: the length word, the payload, the new cursor. */
    method Append(data: Record) returns (r: EnqueueResult)
      requires Valid() && |data| <= cfg.maxEventSize && !IsFull()
      modifies `segments, `files, `mmapCount, `tape, `hw, `book, `meta, `usedSize, `unflushedNum, `flushSignals, `accepted
      ensures Valid()
      ensures r == Accepted || (r.WriteFailed? && r.why != Done && Excused(r.why))
      ensures r == Accepted ==> Pending() == old(Pending()) + [data]
      ensures r == Accepted ==> book == old(book).(log := old(book.log) + [data])
      ensures r == Accepted ==> meta == old(meta).(writing := meta.writing)
      ensures r == Accepted ==> usedSize == old(usedSize) + |data|
      ensures r == Accepted ==> accepted == old(accepted) + 1
      ensures r != Accepted ==> unchanged(`book, `meta, `usedSize, `unflushedNum, `flushSignals, `accepted)
      ensures Wrote(old(Image(g, files, segments)), old(meta.writing), data, r)
    {
      ghost var tape0, hw0, limit := tape, hw, Boundary(g, book.log, book.head) + g.Total();
      RoomFor(|data|);
      var out, c, pad := WriteRecord(data, meta.writing, limit);
      if out == Done {
        Accept(data, c, tape0, hw0, pad);
        r := Accepted;
      } else {
        RaiseMark(cfg, book, tape, durable, hw0, hw, meta, diskMeta.watermark, usedSize);
        r := WriteFailed(out);
      }
    }

    /** The new writing cursor and the counters. */
    method Accept(data: Record, c: Cursor, ghost tape0: seq<byte>, ghost hw0: nat, ghost pad: seq<byte>)
      requires Stored() && BalancedWhole(cfg, book, tape0, durable, hw0, meta, diskMeta.watermark, usedSize)
      requires Metered(cfg.flushCeiling, unflushedNum, flushSignals, accepted) == true
      requires |data| <= cfg.maxEventSize && |tape0| + |pad| == Skip(g, |tape0|)
      requires tape == Appended(tape0, pad, data) && Linear(g, c) == |tape| && c.offset < g.size
      requires hw <= Boundary(g, book.log, book.head) + g.Total()
      modifies `book, `meta, `usedSize, `unflushedNum, `flushSignals, `accepted
      ensures Valid()
      ensures book == old(book).(log := old(book.log) + [data]) && Pending() == old(Pending()) + [data]
      ensures meta == old(meta).(writing := meta.writing)
      ensures usedSize == old(usedSize) + |data|
      ensures accepted == old(accepted) + 1
    {
      Publish(data, c, tape0, hw0, pad);
      CountUnflushed();
    }

    /** The new writing cursor and the used size. */
    method Publish(data: Record, c: Cursor, ghost tape0: seq<byte>, ghost hw0: nat, ghost pad: seq<byte>)
      requires Stored() && BalancedWhole(cfg, book, tape0, durable, hw0, meta, diskMeta.watermark, usedSize)
      requires |data| <= cfg.maxEventSize && |tape0| + |pad| == Skip(g, |tape0|)
      requires tape == Appended(tape0, pad, data) && Linear(g, c) == |tape| && c.offset < g.size
      requires hw <= Boundary(g, book.log, book.head) + g.Total()
      modifies `book, `meta, `usedSize
      ensures Stored() && BalancedWhole(cfg, book, tape, durable, hw, meta, diskMeta.watermark, usedSize)
      ensures book == old(book).(log := old(book.log) + [data]) && Pending() == old(Pending()) + [data]
      ensures meta == old(meta).(writing := meta.writing)
      ensures usedSize == old(usedSize) + |data|
    {
      PublishBalanced(cfg, book, tape0, durable, hw0, hw, meta, diskMeta.watermark, usedSize, pad, data, c);
      book := book.(log := book.log + [data]);
      meta := meta.(writing := c);
      usedSize := usedSize + |data|;
    }

    /** The flush signal when the ceiling is reached. */
    method CountUnflushed()
      requires Metered(cfg.flushCeiling, unflushedNum, flushSignals, accepted)
      modifies `unflushedNum, `flushSignals, `accepted
      ensures Metered(cfg.flushCeiling, unflushedNum, flushSignals, accepted) == true
      ensures accepted == old(accepted) + 1
    {
      MeteredMore(cfg.flushCeiling, unflushedNum, flushSignals, accepted);
      accepted := accepted + 1;
      unflushedNum := unflushedNum + 1;
      if unflushedNum == cfg.flushCeiling {
        flushSignals := flushSignals + 1;
        unflushedNum := 0;
      }
    }

    /** The length word and the payload; a failed write is forgotten. */
    method WriteRecord(data: Record, c: Cursor, ghost limit: nat) returns (out: Outcome, c': Cursor, ghost pad: seq<byte>)
      requires Stored() && At(g, c, |tape|)
      requires Skip(g, |tape|) <= Next(g, |tape|, |data|) <= limit && hw <= limit
      modifies `segments, `files, `mmapCount, `tape, `hw
      ensures Excused(out)
      ensures Stored()
      ensures |old(tape)| + |pad| == Skip(g, |old(tape)|)
      ensures out != Done ==> tape == old(tape)
      ensures out == Done ==> tape == Appended(old(tape), pad, data) && Linear(g, c') == |tape| && c'.offset < g.size
      ensures hw <= limit
      ensures out == Done ==> Image(g, files, segments) == RecordOver(g, old(Image(g, files, segments)), c, data)
      ensures out != Done ==> PartOver(g, old(Image(g, files, segments)), c, data, Image(g, files, segments))
    {
      ghost var tape0 := tape;
      out, c', pad := WriteLength(|data|, c);
      if out != Done {
        Abandon(tape0);
        return;
      }
      out, c' := WriteBytes(data, c');
      if out != Done {
        Abandon(tape0);
      }
    }

    /** The mirror of WriteRecord on the reading side. */
    method ReadRecord(c: Cursor) returns (out: Outcome, data: Record, c': Cursor)
      requires Stored() && c.offset < g.size
      modifies `segments, `files, `mmapCount
      ensures Excused(out)
      ensures Stored() && Image(g, files, segments) == old(Image(g, files, segments))
      ensures out == Done ==>
                var st, q := Image(g, files, segments), Skip(g, Linear(g, c));
                data == Slice(g, st, q + WORD, FromWord(Slice(g, st, q, WORD))) &&
                Linear(g, c') == q + WORD + |data| && c'.offset < g.size
    {
      var length;
      data := [];
      out, c', length := ReadLength(c);
      if out != Done {
        return;
      }
      out, data, c' := ReadBytes(c', length);
    }

    /** When the queue is not full the whole record ends within one ring of the reading cursor. */
    lemma RoomFor(len: nat)
      requires Valid() && len <= cfg.maxEventSize && !IsFull()
      ensures |tape| <= Skip(g, |tape|) <= Next(g, |tape|, len) <= Boundary(g, book.log, book.head) + g.Total()
    {
      BoundaryMonotone(g, book.log, book.head, |book.log|);
      CursorUnique(g, meta.writing);
      CursorUnique(g, meta.reading);
      SkipBounds(g, |tape|);
      NoOverwrite(g, cfg.maxEventSize, Boundary(g, book.log, book.head), |tape|, len);
    }

    /** A failed write is forgotten: the tape goes back to the published end. */
    ghost method Abandon(was: seq<byte>)
      requires Stored() && durable <= |was| && was <= tape
      modifies `tape
      ensures Stored() && tape == was
    {
      WindowTruncate(g, Image(g, files, segments), tape, |was|, hw);
      assert tape[..durable] == was[..durable];
      assert tape[..|was|] == was;
      tape := was;
    }

    method Dequeue() returns (r: DequeueResult)
      requires Valid()
      modifies `segments, `files, `mmapCount, `book, `meta, `usedSize, `markRead
      ensures Valid()
      ensures r == NotReady <==> !ready
      ensures r == Empty <==> ready && old(Pending()) == []
      ensures r.ReadFailed? ==> r.why != Done && Excused(r.why)
      ensures r.Got? ==> old(Pending()) == [r.data] + Pending()
      ensures r.Got? ==> book == old(book).(head := old(book.head) + 1)
      ensures r.Got? ==> Marks(g, r.at, book.log, book.head)
      ensures r.Got? ==> meta == old(meta).(reading := r.at)
      ensures r.Got? ==> usedSize == old(usedSize) - |r.data|
      ensures r.Got? ==> markRead == old(markRead) + (if r.at.id != old(meta).reading.id then [old(meta).reading.id] else [])
      ensures !r.Got? ==> unchanged(`book, `meta, `usedSize, `markRead)
      ensures Image(g, files, segments) == old(Image(g, files, segments))
    {
      if !ready {
        return NotReady;
      }
      EmptyIff();
      if IsEmpty() {
        return Empty;
      }
      r := Take();
    }

    /** dequeue on a queue that is not empty. */
    method Take() returns (r: DequeueResult)
      requires Valid() && Pending() != []
      modifies `segments, `files, `mmapCount, `book, `meta, `usedSize, `markRead
      ensures Valid()
      ensures r.Got? || (r.ReadFailed? && r.why != Done && Excused(r.why))
      ensures r.Got? ==> old(Pending()) == [r.data] + Pending()
      ensures r.Got? ==> book == old(book).(head := old(book.head) + 1)
      ensures r.Got? ==> Marks(g, r.at, book.log, book.head)
      ensures r.Got? ==> meta == old(meta).(reading := r.at)
      ensures r.Got? ==> usedSize == old(usedSize) - |r.data|
      ensures r.Got? ==> markRead == old(markRead) + (if r.at.id != old(meta).reading.id then [old(meta).reading.id] else [])
      ensures !r.Got? ==> unchanged(`book, `meta, `usedSize, `markRead)
      ensures Image(g, files, segments) == old(Image(g, files, segments))
    {
      HeadReadable();
      var out, data, c := ReadRecord(meta.reading);
      if out == Done {
        Leave(data, c);
        r := Got(data, c);
      } else {
        r := ReadFailed(out);
      }
    }

    /** The new reading cursor, and the segment that was left. */
    method Leave(data: Record, c: Cursor)
      requires Valid() && Pending() != [] && data == Pending()[0] && c.offset < g.size
      requires Linear(g, c) == Next(g, Boundary(g, book.log, book.head), |data|)
      modifies `book, `meta, `usedSize, `markRead
      ensures Valid()
      ensures old(Pending()) == [data] + Pending()
      ensures book == old(book).(head := old(book.head) + 1) && Marks(g, c, book.log, book.head)
      ensures meta == old(meta).(reading := c) && usedSize == old(usedSize) - |data|
      ensures markRead == old(markRead) + (if c.id != old(meta).reading.id then [old(meta).reading.id] else [])
    {
      TakeBalanced(cfg, book, tape, durable, hw, meta, diskMeta.watermark, usedSize, c);
      var pre := meta.reading.id;
      book := book.(head := book.head + 1);
      meta := meta.(reading := c);
      markRead := if c.id != pre then markRead + [pre] else markRead;
      usedSize := usedSize - |data|;
    }

    /** The stored bytes at the reading cursor are the oldest pending record. */
    lemma HeadReadable()
      requires Valid() && Pending() != []
      ensures var st, p := Image(g, files, segments), Linear(g, meta.reading);
              var r := Pending()[0];
              FromWord(Slice(g, st, Skip(g, p), WORD)) == |r| && Slice(g, st, Skip(g, p) + WORD, |r|) == r
    {
      assert HoldsAt(g, tape, book.log, book.head);
      ReadBack(g, Image(g, files, segments), tape, hw, Boundary(g, book.log, book.head), book.log[book.head]);
    }

    method Ack(position: string)
      requires Valid()
      modifies `meta
      ensures Valid()
      ensures !ready ==> meta == old(meta)
      ensures ready ==>
                match OffsetText.DecodeOffset(position)
                case Some(at) => meta == old(meta).(committed := Cursor(at.0, at.1))
                case None => meta == old(meta).(committed := Cursor(0, 0))
    {
      if !ready {
        return;
      }
      match OffsetText.DecodeOffset(position) {
        // a decoding error is logged and the zero values are committed
        case None => meta := meta.(committed := Cursor(0, 0));
        case Some(at) => meta := meta.(committed := Cursor(at.0, at.1));
      }
    }

    // ----- durability -----

    method DoFlush()
      requires Valid()
      modifies `files, `meta, `diskMeta, `book, `durable
      ensures Valid()
      ensures files == Image(g, files, segments) == old(Image(g, files, segments))
      ensures book == old(book).(mark := |book.log|)
      ensures meta == old(meta).(watermark := meta.writing) && diskMeta == meta
    {
      FlushSegments();
      assert tape[..|tape|] == tape;
      meta := meta.(watermark := meta.writing);
      book := book.(mark := |book.log|);
      durable := |tape|;
      diskMeta := meta;
    }

    /** The loop that syncs every mapped segment. */
    method FlushSegments()
      requires Stored()
      modifies `files
      ensures Stored()
      ensures files == Image(g, files, segments) == old(Image(g, files, segments))
    {
      ghost var st := Image(g, files, segments);
      WindowTruncate(g, st, tape, durable, hw);
      for i := 0 to |segments|
        invariant Stored() && Image(g, files, segments) == st
        invariant forall j :: 0 <= j < i ==> files[j] == st[j]
      {
        if segments[i].Absent? {
          continue;
        }
        FlushKeepsImage(g, files, segments, i);
        MixWindow(g, files[i := segments[i].bytes], files, st, tape[..durable], hw);
        files := files[i := segments[i].bytes];
      }
      assert files == st;
    }

    /** segmentSwapper's handling of one mark-read message. */
    method MarkRead()
      requires Valid() && markRead != []
      modifies `markRead, `segments, `files, `mmapCount
      ensures Valid()
      ensures Image(g, files, segments) == old(Image(g, files, segments))
      ensures markRead == old(markRead)[1..]
      ensures segments == old(segments)[Index(g, old(markRead)[0]) := Absent]
      ensures files == old(files)[Index(g, old(markRead)[0]) := old(Image(g, files, segments))[Index(g, old(markRead)[0])]]
    {
      UnmapSegment(markRead[0]);
      markRead := markRead[1..];
    }

    method Close()
      requires Valid()
      modifies `ready, `files, `meta, `diskMeta, `book, `durable
      ensures Valid() && !ready
      ensures files == Image(g, files, segments) == old(Image(g, files, segments))
      ensures book == old(book).(mark := |book.log|)
      ensures meta == old(meta).(watermark := meta.writing) && diskMeta == meta
    {
      ready := false;
      DoFlush();
    }

    /** Initialize, on any files and any page. If they are what a queue left, and no byte was ever
        written a whole ring beyond the committed cursor, the recovered queue is exact. */
    constructor Initialize(cfg: Config, files: Store, disk: Cursors,
                           ghost log: seq<Record>, ghost tape: seq<byte>, ghost hw: nat, ghost acked: nat, ghost mark: nat)
      requires cfg.Valid() && WellFormed(cfg.g, files)
      ensures this.cfg == cfg && Stored() && Image(cfg.g, this.files, segments) == files
      ensures meta == disk.(writing := disk.watermark, reading := disk.committed) && diskMeta == disk
      ensures ready <==> segments[Index(cfg.g, disk.committed.id)].Mapped? && segments[Index(cfg.g, disk.watermark.id)].Mapped?
      ensures Recoverable(cfg, files, disk, log, tape, hw, acked, mark) ==>
                Valid() && Pending() == log[acked..mark] && CommittedAt(acked) &&
                book.log == log[..mark] && book.head == acked && book.mark == mark &&
                book.recovered == Payload(log[acked..mark])
      ensures usedSize == 0 && unflushedNum == 0 && flushSignals == 0 && accepted == 0 && markRead == []
    {
      ghost var good := Recoverable(cfg, files, disk, log, tape, hw, acked, mark);
      this.cfg := cfg;
      this.meta := disk.(writing := disk.watermark, reading := disk.committed);
      this.diskMeta := disk;
      this.files := files;
      this.segments := seq(cfg.g.count, _ => Absent);
      this.mmapCount := 0;
      this.unflushedNum, this.flushSignals, this.markRead, this.usedSize := 0, 0, [], 0;
      this.accepted := 0;
      this.ready := false;
      this.book := if good then Book(log[..mark], acked, mark, Payload(log[acked..mark])) else Book([], 0, 0, 0);
      this.tape := if good then tape[..Boundary(cfg.g, log, mark)] else [];
      this.durable := if good then Boundary(cfg.g, log, mark) else 0;
      this.hw := if good then hw else 0;
      new;
      ColdImage(g, files, this.segments);
      assert this.tape[..durable] == this.tape;
      if good {
        RecoverBalanced(cfg, files, disk, log, tape, hw, acked, mark);
        assert book.log[acked..] == log[acked..mark];
      }
      MapFirst(disk.committed.id, disk.watermark.id);
    }

    /** Initialize keeps the reader's and the writer's segment in memory. */
    method MapFirst(rid: nat, wid: nat)
      requires Stored() && !ready && mmapCount == 0 && forall i :: 0 <= i < |segments| ==> segments[i].Absent?
      modifies `segments, `files, `mmapCount, `ready
      ensures Stored() && Image(g, files, segments) == old(Image(g, files, segments))
      ensures ready <==> segments[Index(g, rid)].Mapped? && segments[Index(g, wid)].Mapped?
    {
      var out := GetSegment(rid);
      if out == Done {
        out := GetSegment(wid);
        ready := out == Done;
      }
    }
  }

  /** A machine crash leaves in every file byte either what was last synced or what was written
      since; the cursors are those of the last sync. */
  lemma CrashImage(q: Queue, crashed: Store, acked: nat)
    requires q.Valid() && q.DiskCommittedAt(acked)
    requires MixOf(q.g, crashed, q.files, Image(q.g, q.files, q.segments))
    ensures OnDisk(q.g, crashed, q.diskMeta, q.book.log, q.tape, q.hw, acked, q.book.mark)
  {
    var st := Image(q.g, q.files, q.segments);
    WindowTruncate(q.g, st, q.tape, q.durable, q.hw);
    MixWindow(q.g, crashed, q.files, st, q.tape[..q.durable], q.hw);
    BoundaryMonotone(q.g, q.book.log, q.book.mark, |q.book.log|);
  }

  /** After a crash the reopened queue holds the records after the last synced committed cursor
      and up to the last watermark, provided no byte was written a whole ring beyond the former. */
  method CrashAndReopen(q: Queue, crashed: Store, ghost acked: nat) returns (q': Queue)
    requires q.Valid() && q.DiskCommittedAt(acked)
    requires MixOf(q.g, crashed, q.files, Image(q.g, q.files, q.segments))
    requires q.hw <= Boundary(q.g, q.book.log, acked) + q.g.Total()
    ensures q'.Valid() && q'.CommittedAt(acked)
    ensures q'.Pending() == q.book.log[acked..q.book.mark]
  {
    CrashImage(q, crashed, acked);
    q' := new Queue.Initialize(q.cfg, crashed, q.diskMeta, q.book.log, q.tape, q.hw, acked, q.book.mark);
  }

  /** After Close nothing that was accepted and not acknowledged is missing. */
  method CloseAndReopen(q: Queue, ghost acked: nat) returns (q': Queue)
    requires q.Valid() && q.CommittedAt(acked)
    requires q.hw <= Boundary(q.g, q.book.log, acked) + q.g.Total()
    modifies q
    ensures q'.Valid() && q'.CommittedAt(acked)
    ensures q'.Pending() == old(q.book.log)[acked..]
  {
    q.Close();
    CrashImage(q, q.files, acked);
    q' := new Queue.Initialize(q.cfg, q.files, q.diskMeta, q.book.log, q.tape, q.hw, acked, q.book.mark);
    assert q.book.log[acked..q.book.mark] == q.book.log[acked..];
  }

  /** Acknowledging what was just dequeued commits every record handed out so far. */
  method DequeueAndAck(q: Queue) returns (r: DequeueResult)
    requires q.Valid() && q.ready && q.g.size <= MAX_INT
    modifies q
    ensures q.Valid()
    ensures r.Got? ==> old(q.Pending()) == [r.data] + q.Pending()
    ensures r.Got? && r.at.id <= MAX_INT ==> q.CommittedAt(q.book.head)
  {
    r := q.Dequeue();
    if r.Got? {
      if r.at.id <= MAX_INT {
        OffsetText.OffsetRoundTrip(r.at.id, r.at.offset);
      }
      q.Ack(OffsetText.EncodeOffset(r.at.id, r.at.offset));
    }
  }

  lemma WindowTruncate(g: Geometry, st: Store, tape: seq<byte>, n: nat, hw: nat)
    requires g.Valid() && WellFormed(g, st) && Window(g, st, tape, hw) && n <= |tape|
    ensures Window(g, st, tape[..n], hw)
  {
  }

  lemma ColdImage(g: Geometry, files: Store, segments: Segments)
    requires WellFormed(g, files) && segments == seq(g.count, _ => Absent)
    ensures Fits(g, files, segments) && Image(g, files, segments) == files && CountMapped(segments) == 0
  {
    NothingMapped(segments);
  }
}
