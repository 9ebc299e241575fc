/** Segment files as a ring, addressed by linear positions `id * segmentSize + offset`. */
module Layout {
  import opened Bytes

  /** A ring of `count` files of `size` bytes. */
  datatype Geometry = Geometry(size: nat, count: nat) {
    predicate Valid() { size >= WORD && count >= 1 }

    function Total(): nat { size * count }
  }

  datatype Cursor = Cursor(id: nat, offset: nat)

  /** The bytes of every segment file, by index. */
  type Store = seq<seq<byte>>

  function Linear(g: Geometry, c: Cursor): nat {
    c.id * g.size + c.offset
  }

  function CursorOf(g: Geometry, p: nat): (c: Cursor)
    requires g.Valid()
    ensures Linear(g, c) == p && c.offset < g.size
  {
    Cursor(p / g.size, p % g.size)
  }

  /** The cursor lies inside its segment, at linear position `p`. */
  predicate At(g: Geometry, c: Cursor, p: nat) {
    c.offset < g.size && Linear(g, c) == p
  }

  ghost predicate WellFormed(g: Geometry, st: Store) {
    |st| == g.count && forall i :: 0 <= i < |st| ==> |st[i]| == g.size
  }

  function Index(g: Geometry, id: nat): (i: nat)
    requires g.Valid()
    ensures i < g.count
  {
    id % g.count
  }

  function ByteAt(g: Geometry, st: Store, p: nat): byte
    requires g.Valid() && WellFormed(g, st)
  {
    var c := CursorOf(g, p);
    st[Index(g, c.id)][c.offset]
  }

  function Slice(g: Geometry, st: Store, p: nat, n: nat): (s: seq<byte>)
    requires g.Valid() && WellFormed(g, st)
    ensures |s| == n
  {
    seq<byte>(n, i requires 0 <= i < n => ByteAt(g, st, p + i))
  }

  /** The segment bytes after WriteAt(d, offset). */
  function Patched(bytes: seq<byte>, offset: nat, d: seq<byte>): (r: seq<byte>)
    requires offset + |d| <= |bytes|
    ensures |r| == |bytes|
  {
    bytes[..offset] + d + bytes[offset + |d|..]
  }

  /** The ring holds the last `g.Total()` bytes of an append-only tape, as far as `hw`, the
      highest position ever written, has left them in place. */
  ghost predicate Window(g: Geometry, st: Store, tape: seq<byte>, hw: nat)
    requires g.Valid() && WellFormed(g, st)
  {
    forall p: nat :: p < |tape| && hw <= p + g.Total() ==> ByteAt(g, st, p) == tape[p]
  }

  lemma MultipleAtLeast(k: int, s: int)
    requires k >= 1 && s >= 0
    ensures k * s >= s
  {
    assert (k - 1) * s >= 0;
  }

  lemma SmallMultiple(k: int, s: int)
    requires 0 - s < k * s < s
    ensures k == 0
  {
    if k >= 1 {
      MultipleAtLeast(k, s);
    } else if k <= -1 {
      MultipleAtLeast(-k, s);
    }
  }

  lemma AtUnique(g: Geometry, c: Cursor, d: Cursor, p: nat)
    requires g.Valid() && At(g, c, p) && At(g, d, p)
    ensures c == d
  {
    CursorUnique(g, c);
    CursorUnique(g, d);
  }

  /** A cursor inside its segment is the only one with its linear position. */
  lemma CursorUnique(g: Geometry, c: Cursor)
    requires g.Valid() && c.offset < g.size
    ensures CursorOf(g, Linear(g, c)) == c
  {
    var d := CursorOf(g, Linear(g, c));
    assert (d.id - c.id) * g.size == c.offset - d.offset;
    SmallMultiple(d.id - c.id, g.size);
  }

  /** The physical place of a position is that position modulo the ring's total size. */
  lemma AddressModulo(g: Geometry, p: nat)
    requires g.Valid()
    ensures g.Total() > 0
    ensures var c := CursorOf(g, p); Index(g, c.id) * g.size + c.offset == p % g.Total()
  {
    var c := CursorOf(g, p);
    var i := Index(g, c.id);
    MultipleAtLeast(g.count, g.size);
    AddressInRing(g, c);
    Regroup(c.id / g.count, g.count, i, g.size);
    ModUnique(p, g.Total(), c.id / g.count, i * g.size + c.offset);
  }

  lemma AddressInRing(g: Geometry, c: Cursor)
    requires g.Valid() && c.offset < g.size
    ensures Index(g, c.id) * g.size + c.offset < g.Total()
  {
    MultipleAtLeast(g.count - Index(g, c.id), g.size);
    assert (g.count - Index(g, c.id)) * g.size == g.Total() - Index(g, c.id) * g.size;
  }

  lemma Regroup(k: int, n: int, i: int, s: int)
    ensures (k * n + i) * s == k * (s * n) + i * s
  {
  }

  lemma ModUnique(p: int, t: int, k: int, a: int)
    requires p == k * t + a && 0 <= a < t
    ensures p % t == a
  {
    var q, r := p / t, p % t;
    assert (q - k) * t == a - r;
    SmallMultiple(q - k, t);
  }

  predicate SamePlace(g: Geometry, p: nat, q: nat)
    requires g.Valid()
  {
    var c, d := CursorOf(g, p), CursorOf(g, q);
    Index(g, c.id) == Index(g, d.id) && c.offset == d.offset
  }

  /** Positions less than a whole ring apart never share a place. */
  lemma SamePlaceNear(g: Geometry, p: nat, q: nat)
    requires g.Valid() && p < q < p + g.Total()
    ensures !SamePlace(g, p, q)
  {
    AddressModulo(g, p);
    AddressModulo(g, q);
    if SamePlace(g, p, q) {
      var t := g.Total();
      assert p % t == q % t;
      assert (q / t - p / t) * t == q - p;
      SmallMultiple(q / t - p / t, t);
    }
  }

  lemma SamePlaceTotal(g: Geometry, p: nat)
    requires g.Valid()
    ensures SamePlace(g, p, p + g.Total())
  {
    var c := CursorOf(g, p);
    var d := Cursor(c.id + g.count, c.offset);
    assert Linear(g, d) == p + g.Total() by {
      assert (c.id + g.count) * g.size == c.id * g.size + g.size * g.count;
    }
    CursorUnique(g, d);
    assert (c.id + g.count) % g.count == c.id % g.count by {
      var k := c.id / g.count;
      var m := (c.id + g.count) / g.count;
      assert (m - 1 - k) * g.count == c.id % g.count - (c.id + g.count) % g.count;
      SmallMultiple(m - 1 - k, g.count);
    }
  }

  /** Bytes written at `[b, h)` land on a stored byte of `[a, b)` exactly when they pass
      one whole ring beyond `a`. */
  lemma OverlapIff(g: Geometry, a: nat, b: nat, h: nat)
    requires g.Valid() && a < b <= h && b <= a + g.Total()
    ensures (exists p, q :: a <= p < b <= q < h && SamePlace(g, p, q)) <==> h > a + g.Total()
  {
    if h > a + g.Total() {
      SamePlaceTotal(g, a);
      assert a <= a < b <= a + g.Total() < h && SamePlace(g, a, a + g.Total());
    } else {
      forall p: nat, q: nat | a <= p < b <= q < h
        ensures !SamePlace(g, p, q)
      {
        SamePlaceNear(g, p, q);
      }
    }
  }

  /** The position `n` bytes further inside one segment. */
  lemma Inside(g: Geometry, c: Cursor, n: nat)
    requires g.Valid() && c.offset + n < g.size
    ensures CursorOf(g, Linear(g, c) + n) == Cursor(c.id, c.offset + n)
  {
    CursorUnique(g, Cursor(c.id, c.offset + n));
  }

  /** Writing one chunk inside a segment appends it to the tape. */
  lemma ChunkWritten(g: Geometry, st: Store, tape: seq<byte>, hw: nat, c: Cursor, d: seq<byte>)
    requires g.Valid() && WellFormed(g, st) && Window(g, st, tape, hw)
    requires |tape| <= hw && |tape| == Linear(g, c) && c.offset + |d| <= g.size
    ensures var i := Index(g, c.id);
            var st' := st[i := Patched(st[i], c.offset, d)];
            WellFormed(g, st') &&
            Window(g, st', tape + d, if hw < |tape| + |d| then |tape| + |d| else hw)
  {
    var i := Index(g, c.id);
    var st' := st[i := Patched(st[i], c.offset, d)];
    var hw' := if hw < |tape| + |d| then |tape| + |d| else hw;
    forall p: nat | p < |tape + d| && hw' <= p + g.Total()
      ensures ByteAt(g, st', p) == (tape + d)[p]
    {
      if p >= |tape| {
        Inside(g, c, p - |tape|);
      } else {
        var e := CursorOf(g, p);
        if e.offset < c.offset || e.offset >= c.offset + |d| || Index(g, e.id) != i {
          assert ByteAt(g, st', p) == ByteAt(g, st, p);
        } else {
          var q := |tape| + (e.offset - c.offset);
          Inside(g, c, e.offset - c.offset);
          assert SamePlace(g, p, q);
          SamePlaceNear(g, p, q);
          assert false;
        }
      }
    }
  }

  /** Reading one chunk inside a segment reads consecutive positions. */
  lemma ChunkRead(g: Geometry, st: Store, c: Cursor, n: nat)
    requires g.Valid() && WellFormed(g, st) && c.offset + n <= g.size
    ensures st[Index(g, c.id)][c.offset..c.offset + n] == Slice(g, st, Linear(g, c), n)
  {
    var s := st[Index(g, c.id)][c.offset..c.offset + n];
    forall k | 0 <= k < n
      ensures s[k] == Slice(g, st, Linear(g, c), n)[k]
    {
      Inside(g, c, k);
    }
  }

  lemma SliceOfTape(g: Geometry, st: Store, tape: seq<byte>, hw: nat, p: nat, n: nat)
    requires g.Valid() && WellFormed(g, st) && Window(g, st, tape, hw)
    requires p + n <= |tape| && hw <= p + g.Total()
    ensures Slice(g, st, p, n) == tape[p..p + n]
  {
    forall k | 0 <= k < n
      ensures Slice(g, st, p, n)[k] == tape[p..p + n][k]
    {
      assert ByteAt(g, st, p + k) == tape[p + k];
    }
  }

  lemma SliceSplit(g: Geometry, st: Store, p: nat, m: nat, n: nat)
    requires g.Valid() && WellFormed(g, st)
    ensures Slice(g, st, p, m + n) == Slice(g, st, p, m) + Slice(g, st, p + m, n)
  {
  }

  /** Each byte of `mix` is taken from one store or the other. */
  ghost predicate MixOf(g: Geometry, mix: Store, a: Store, b: Store)
    requires WellFormed(g, a) && WellFormed(g, b)
  {
    WellFormed(g, mix) &&
    forall i, j :: 0 <= i < g.count && 0 <= j < g.size ==> mix[i][j] == a[i][j] || mix[i][j] == b[i][j]
  }

  lemma MixWindow(g: Geometry, mix: Store, a: Store, b: Store, tape: seq<byte>, hw: nat)
    requires g.Valid() && WellFormed(g, a) && WellFormed(g, b) && MixOf(g, mix, a, b)
    requires Window(g, a, tape, hw) && Window(g, b, tape, hw)
    ensures Window(g, mix, tape, hw)
  {
    forall p: nat | p < |tape| && hw <= p + g.Total()
      ensures ByteAt(g, mix, p) == tape[p]
    {
      assert ByteAt(g, a, p) == tape[p] && ByteAt(g, b, p) == tape[p];
    }
  }
}
