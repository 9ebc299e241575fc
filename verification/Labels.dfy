/** Label vectors: values given by the caller merged with curried ones, and their hash. */
module Labels {
  import opened Bytes
  import opened Basics

  /** A label value: the bytes of a Go string. */
  type Label = seq<byte>

  datatype Curried = Curried(index: int, value: Label)

  const SEPARATOR: byte := 255

  // ----- merging -----

  /** Curried labels have strictly increasing positions inside the vector of `n` labels. */
  ghost predicate WellCurried(curry: seq<Curried>, n: nat) {
    && (forall k :: 0 <= k < |curry| ==> 0 <= curry[k].index < n)
    && (forall j, k :: 0 <= j < k < |curry| ==> curry[j].index < curry[k].index)
  }

  /** How many curried labels come before position `i`. */
  function Below(curry: seq<Curried>, i: int): (r: nat)
    ensures r <= |curry|
  {
    if curry == [] then 0
    else Below(curry[..|curry| - 1], i) + if curry[|curry| - 1].index < i then 1 else 0
  }

  /** Position `i` of the merged vector: the curried value there, or else the next given one. */
  ghost predicate MergedAt(v: Label, lvs: seq<Label>, curry: seq<Curried>, i: nat) {
    && (forall k :: 0 <= k < |curry| && curry[k].index == i ==> v == curry[k].value)
    && ((forall k :: 0 <= k < |curry| ==> curry[k].index != i) ==>
          0 <= i - Below(curry, i) < |lvs| && v == lvs[i - Below(curry, i)])
  }

  ghost predicate Merged(v: seq<Label>, lvs: seq<Label>, curry: seq<Curried>) {
    |v| == |lvs| + |curry| && forall i :: 0 <= i < |v| ==> MergedAt(v[i], lvs, curry, i)
  }

  /** `c` is the number of curried labels before position `i`, as the loops count them. */
  ghost predicate Pointer(curry: seq<Curried>, i: int, c: nat) {
    && c <= |curry|
    && (forall k :: 0 <= k < c ==> curry[k].index < i)
    && (forall k :: c <= k < |curry| ==> curry[k].index >= i)
  }

  lemma {:induction false} PointerIsBelow(curry: seq<Curried>, i: int, c: nat)
    requires Pointer(curry, i, c)
    ensures Below(curry, i) == c
  {
    if curry == [] {
    } else {
      var n := |curry| - 1;
      PointerIsBelow(curry[..n], i, if c <= n then c else n);
    }
  }

  /** The loops' pointer moves exactly past the curried labels it meets. */
  lemma PointerNext(curry: seq<Curried>, n: nat, i: int, c: nat)
    requires WellCurried(curry, n) && Pointer(curry, i, c)
    ensures Pointer(curry, i + 1, if c < |curry| && curry[c].index == i then c + 1 else c)
    ensures (c < |curry| && curry[c].index == i) <==> (exists k :: 0 <= k < |curry| && curry[k].index == i)
  {
  }

  /** Where no curried label sits there is a given one left. */
  lemma GivenLeft(curry: seq<Curried>, n: nat, i: nat, c: nat)
    requires WellCurried(curry, n) && Pointer(curry, i, c) && i < n
    requires !(c < |curry| && curry[c].index == i)
    ensures 0 <= i - c < n - |curry|
  {
    Spread(curry, n, 0, c);
    if c < |curry| {
      Spread(curry, n, c, |curry| - 1);
    }
    if c > 0 {
      Spread(curry, n, 0, c - 1);
    }
  }

  /** Strictly increasing integers are at least as far apart as their places. */
  lemma {:induction false} Spread(curry: seq<Curried>, n: nat, j: nat, k: nat)
    requires WellCurried(curry, n) && j <= k <= |curry|
    ensures k < |curry| ==> curry[j].index + (k - j) <= curry[k].index
    decreases k - j
  {
    if j < k < |curry| {
      Spread(curry, n, j, k - 1);
    }
  }

  lemma Merge(v: Label, lvs: seq<Label>, curry: seq<Curried>, i: nat, c: nat)
    requires WellCurried(curry, |lvs| + |curry|) && Pointer(curry, i, c) && i < |lvs| + |curry|
    requires if c < |curry| && curry[c].index == i then v == curry[c].value
             else 0 <= i - c < |lvs| && v == lvs[i - c]
    ensures MergedAt(v, lvs, curry, i)
  {
    PointerIsBelow(curry, i, c);
  }

  /** At most one value is right at each position. */
  lemma MergedUnique(v: Label, w: Label, lvs: seq<Label>, curry: seq<Curried>, i: nat)
    requires MergedAt(v, lvs, curry, i) && MergedAt(w, lvs, curry, i)
    ensures v == w
  {
  }

  /** The merged vector has the curried values at their positions and the given ones, in their order, at
      all others. */
  lemma {:induction false} MergedPlaces(v: seq<Label>, lvs: seq<Label>, curry: seq<Curried>) returns (m: seq<nat>)
    requires WellCurried(curry, |lvs| + |curry|) && Merged(v, lvs, curry)
    ensures forall k :: 0 <= k < |curry| ==> v[curry[k].index] == curry[k].value
    ensures |m| == |lvs| && forall k :: 0 <= k < |m| ==> m[k] < |v| && v[m[k]] == lvs[k]
    ensures forall j, k :: 0 <= j < k < |m| ==> m[j] < m[k]
    ensures forall j, k :: 0 <= j < |m| && 0 <= k < |curry| ==> m[j] != curry[k].index
  {
    forall k | 0 <= k < |curry|
      ensures v[curry[k].index] == curry[k].value
    {
      assert MergedAt(v[curry[k].index], lvs, curry, curry[k].index);
    }
    m := PlacesUpTo(v, lvs, curry, |v|, |curry|);
  }

  /** `m` are positions below `i`, in order, with the first given values, and none is curried. */
  ghost predicate Places(m: seq<nat>, v: seq<Label>, lvs: seq<Label>, curry: seq<Curried>, i: nat) {
    && |m| <= |lvs|
    && (forall k :: 0 <= k < |m| ==> m[k] < i <= |v| && v[m[k]] == lvs[k])
    && (forall j, k :: 0 <= j < k < |m| ==> m[j] < m[k])
    && (forall j, k :: 0 <= j < |m| && 0 <= k < |curry| ==> m[j] != curry[k].index)
  }

  /** They are all, if `c` labels are curried before `i`. */
  lemma {:induction false} PlacesUpTo(v: seq<Label>, lvs: seq<Label>, curry: seq<Curried>, i: nat, c: nat) returns (m: seq<nat>)
    requires WellCurried(curry, |lvs| + |curry|) && Merged(v, lvs, curry) && i <= |v| && Pointer(curry, i, c) == true
    ensures |m| == i - c && Places(m, v, lvs, curry, i) == true
    decreases i
  {
    m := [];
    PointerBack(curry, |v|, i, c);
    if i == 0 {
    } else if c > 0 && curry[c - 1].index == i - 1 {
      m := PlacesUpTo(v, lvs, curry, i - 1, c - 1);
      PlacesHigher(m, v, lvs, curry, i - 1);
    } else {
      var before := PlacesUpTo(v, lvs, curry, i - 1, c);
      NextPlace(v, lvs, curry, i - 1, c);
      m := before + [i - 1];
      PlacesNext(before, v, lvs, curry, i - 1);
    }
  }

  lemma PointerBack(curry: seq<Curried>, n: nat, i: nat, c: nat)
    requires WellCurried(curry, n) && Pointer(curry, i, c)
    ensures if i == 0 then c == 0
            else Pointer(curry, i - 1, if c > 0 && curry[c - 1].index == i - 1 then c - 1 else c) == true
  {
  }

  lemma PlacesHigher(m: seq<nat>, v: seq<Label>, lvs: seq<Label>, curry: seq<Curried>, i: nat)
    requires Places(m, v, lvs, curry, i) && i < |v|
    ensures Places(m, v, lvs, curry, i + 1) == true
  {
  }

  lemma PlacesNext(m: seq<nat>, v: seq<Label>, lvs: seq<Label>, curry: seq<Curried>, i: nat)
    requires Places(m, v, lvs, curry, i) && i < |v| && |m| < |lvs| && v[i] == lvs[|m|]
    requires forall k :: 0 <= k < |curry| ==> curry[k].index != i
    ensures Places(m + [i], v, lvs, curry, i + 1) == true
  {
  }

  lemma NextPlace(v: seq<Label>, lvs: seq<Label>, curry: seq<Curried>, i: nat, c: nat)
    requires WellCurried(curry, |lvs| + |curry|) && Merged(v, lvs, curry) && i < |v| && Pointer(curry, i, c)
    requires !(c > 0 && curry[c - 1].index == i) && !(c < |curry| && curry[c].index == i)
    ensures 0 <= i - c < |lvs| && v[i] == lvs[i - c]
    ensures forall k :: 0 <= k < |curry| ==> curry[k].index != i
  {
    GivenLeft(curry, |v|, i, c);
    PointerIsBelow(curry, i, c);
    PointerNext(curry, |v|, i, c);
    assert MergedAt(v[i], lvs, curry, i);
  }

  /** inlineLabelValues. None stands for the panic of indexing past the given values, which
      happens exactly when the curried positions are not increasing and in range. */
  method InlineLabelValues(lvs: seq<Label>, curry: seq<Curried>) returns (r: Option<seq<Label>>)
    ensures r.Some? <==> WellCurried(curry, |lvs| + |curry|)
    ensures r.Some? ==> Merged(r.value, lvs, curry)
  {
    var n := |lvs| + |curry|;
    var out: seq<Label> := [];
    var iCurry, iLvs := 0, 0;
    for i := 0 to n
      invariant |out| == i == iCurry + iLvs && iCurry <= |curry| && iLvs <= |lvs|
      invariant forall k :: 0 <= k < iCurry ==> 0 <= curry[k].index < i
      invariant forall j, k :: 0 <= j < k < iCurry ==> curry[j].index < curry[k].index
      invariant WellCurried(curry, n) ==> Pointer(curry, i, iCurry)
      invariant WellCurried(curry, n) ==> forall k :: 0 <= k < i ==> MergedAt(out[k], lvs, curry, k)
    {
      var v: Label;
      ghost var c := iCurry;
      if iCurry < |curry| && curry[iCurry].index == i {
        v := curry[iCurry].value;
        iCurry := iCurry + 1;
      } else {
        if iLvs == |lvs| {
          OutOfValues(lvs, curry, i, iCurry);
          return None;
        }
        v := lvs[iLvs];
        iLvs := iLvs + 1;
      }
      if WellCurried(curry, n) {
        PointerNext(curry, n, i, c);
        Merge(v, lvs, curry, i, c);
      }
      out := out + [v];
    }
    return Some(out);
  }

  lemma OutOfValues(lvs: seq<Label>, curry: seq<Curried>, i: nat, c: nat)
    requires i < |lvs| + |curry| && i - c == |lvs|
    requires !(c < |curry| && curry[c].index == i)
    requires WellCurried(curry, |lvs| + |curry|) ==> Pointer(curry, i, c)
    ensures !WellCurried(curry, |lvs| + |curry|)
  {
    if WellCurried(curry, |lvs| + |curry|) {
      GivenLeft(curry, |lvs| + |curry|, i, c);
    }
  }

  /** matchLabelValues: true exactly for the merged vector. */
  method MatchLabelValues(values: seq<Label>, lvs: seq<Label>, curry: seq<Curried>) returns (same: bool)
    requires WellCurried(curry, |lvs| + |curry|)
    ensures same <==> Merged(values, lvs, curry)
  {
    var n := |lvs| + |curry|;
    if |values| != n {
      return false;
    }
    var iCurry, iLvs := 0, 0;
    for i := 0 to n
      invariant i == iCurry + iLvs && Pointer(curry, i, iCurry)
      invariant forall k :: 0 <= k < i ==> MergedAt(values[k], lvs, curry, k)
    {
      PointerNext(curry, n, i, iCurry);
      if iCurry < |curry| && curry[iCurry].index == i {
        if values[i] != curry[iCurry].value {
          return false;
        }
        Merge(values[i], lvs, curry, i, iCurry);
        iCurry := iCurry + 1;
      } else {
        GivenLeft(curry, n, i, iCurry);
        PointerIsBelow(curry, i, iCurry);
        if values[i] != lvs[iLvs] {
          return false;
        }
        Merge(values[i], lvs, curry, i, iCurry);
        iLvs := iLvs + 1;
      }
    }
    return true;
  }

  // ----- hashing -----

  /** A hash of byte streams: its start and the round for one byte. Nothing below depends on
      which one it is. */
  datatype Hasher<!H> = Hasher(init: H, round: (H, byte) -> H)

  /** The hash state after a byte stream. */
  function Fold<H>(f: Hasher<H>, h: H, s: seq<byte>): H {
    if s == [] then h else f.round(Fold(f, h, s[..|s| - 1]), s[|s| - 1])
  }

  /** The bytes a label vector feeds to the hash. */
  function Stream(v: seq<Label>): seq<byte> {
    if v == [] then [] else Stream(v[..|v| - 1]) + v[|v| - 1] + [SEPARATOR]
  }

  /** The hash of a label vector. */
  function HashOf<H>(f: Hasher<H>, v: seq<Label>): H {
    Fold(f, f.init, Stream(v))
  }

  lemma {:induction false} FoldConcat<H>(f: Hasher<H>, h: H, s: seq<byte>, t: seq<byte>)
    ensures Fold(f, h, s + t) == Fold(f, Fold(f, h, s), t)
  {
    if t == [] {
      assert s + t == s;
    } else {
      var n := |t| - 1;
      assert (s + t)[..|s + t| - 1] == s + t[..n];
      FoldConcat(f, h, s, t[..n]);
    }
  }

  method HashAdd<H>(f: Hasher<H>, h: H, s: Label) returns (r: H)
    ensures r == Fold(f, h, s)
  {
    r := h;
    for i := 0 to |s|
      invariant r == Fold(f, h, s[..i])
    {
      assert s[..i + 1][..i] == s[..i];
      r := f.round(r, s[i]);
    }
    assert s[..|s|] == s;
  }

  /** The label at position `i` and the loop's new pointers. */
  method NextLabel(vals: seq<Label>, curry: seq<Curried>, i: nat, iCurry: nat, iVals: nat, ghost merged: seq<Label>)
    returns (value: Label, iCurry': nat, iVals': nat)
    requires WellCurried(curry, |vals| + |curry|) && Merged(merged, vals, curry)
    requires i < |merged| && i == iCurry + iVals && Pointer(curry, i, iCurry)
    ensures value == merged[i]
    ensures i + 1 == iCurry' + iVals' && Pointer(curry, i + 1, iCurry')
  {
    PointerNext(curry, |merged|, i, iCurry);
    if iCurry < |curry| && curry[iCurry].index == i {
      value, iCurry', iVals' := curry[iCurry].value, iCurry + 1, iVals;
    } else {
      GivenLeft(curry, |merged|, i, iCurry);
      value, iCurry', iVals' := vals[iVals], iCurry, iVals + 1;
    }
    Merge(value, vals, curry, i, iCurry);
    MergedUnique(merged[i], value, vals, curry, i);
  }

  /** hashLabelValues on validated values: the hash of the merged vector, so that a lookup and
      an insertion of the same labels use the same bucket. */
  method HashLabelValues<H>(f: Hasher<H>, vals: seq<Label>, curry: seq<Curried>, ghost merged: seq<Label>) returns (h: H)
    requires WellCurried(curry, |vals| + |curry|) && Merged(merged, vals, curry)
    ensures h == HashOf(f, merged)
  {
    var n := |vals| + |curry|;
    h := f.init;
    var iVals, iCurry := 0, 0;
    for i := 0 to n
      invariant i == iCurry + iVals && Pointer(curry, i, iCurry)
      invariant h == HashOf(f, merged[..i])
    {
      StreamNext(f, merged, i);
      var value;
      value, iCurry, iVals := NextLabel(vals, curry, i, iCurry, iVals, merged);
      h := HashAdd(f, h, value);
      h := f.round(h, SEPARATOR);
    }
    assert merged[..n] == merged;
  }

  lemma StreamNext<H>(f: Hasher<H>, v: seq<Label>, i: nat)
    requires i < |v|
    ensures HashOf(f, v[..i + 1]) == f.round(Fold(f, HashOf(f, v[..i]), v[i]), SEPARATOR)
  {
    assert v[..i + 1][..i] == v[..i];
    var s := Stream(v[..i]) + v[i];
    FoldConcat(f, f.init, Stream(v[..i]), v[i]);
    assert (s + [SEPARATOR])[..|s|] == s;
  }

  /** What is hashed is the whole stream, byte after byte: a hash that only records what it is fed
      gives just that. */
  lemma HashReadsStream(f: Hasher<seq<byte>>, v: seq<Label>)
    requires f.init == [] && forall h: seq<byte>, b: byte :: f.round(h, b) == h + [b]
    ensures HashOf(f, v) == Stream(v)
  {
    FoldRecords(f, Stream(v));
  }

  lemma {:induction false} FoldRecords(f: Hasher<seq<byte>>, s: seq<byte>)
    requires forall h: seq<byte>, b: byte :: f.round(h, b) == h + [b]
    ensures Fold(f, [], s) == s
  {
    if s != [] {
      FoldRecords(f, s[..|s| - 1]);
      assert s[..|s| - 1] + [s[|s| - 1]] == s;
    }
  }

  // ----- the stream determines the given values -----

  /** Label values that pass validation never contain the separator. */
  ghost predicate Separated(lvs: seq<Label>) {
    forall k :: 0 <= k < |lvs| ==> SEPARATOR !in lvs[k]
  }

  /** Byte strings up to their first separator. */
  lemma {:induction false} FirstField(a: Label, b: Label, s: seq<byte>, t: seq<byte>)
    requires SEPARATOR !in a && SEPARATOR !in b && a + [SEPARATOR] + s == b + [SEPARATOR] + t
    ensures a == b && s == t
  {
    var x, y := a + [SEPARATOR] + s, b + [SEPARATOR] + t;
    assert x[|a|] == SEPARATOR && y[|b|] == SEPARATOR;
    assert forall i :: 0 <= i < |a| ==> x[i] == a[i];
    assert forall i :: 0 <= i < |b| ==> y[i] == b[i];
    assert |a| == |b|;
    assert a == x[..|a|] && b == y[..|b|];
    assert s == x[|a| + 1..] && t == y[|b| + 1..];
  }

  /** The stream from the front. */
  lemma {:induction false} StreamFront(v: seq<Label>)
    requires v != []
    ensures Stream(v) == v[0] + [SEPARATOR] + Stream(v[1..])
  {
    var n := |v| - 1;
    if n == 0 {
      assert v[..0] == [] && v[1..] == [];
    } else {
      StreamFront(v[..n]);
      assert v[..n][1..] == v[1..][..n - 1];
      var front, mid, back := v[0] + [SEPARATOR], Stream(v[1..][..n - 1]), v[n];
      assert Stream(v) == (front + mid) + back + [SEPARATOR];
      assert Stream(v[1..]) == mid + back + [SEPARATOR];
      Associative(front, mid, back);
      Associative(front, mid + back, [SEPARATOR]);
    }
  }

  /** Vectors of the same length that agree on the curried positions and have separator-free
      values elsewhere feed the same bytes to the hash only if they are equal. */
  lemma {:induction false} StreamInjective(v: seq<Label>, w: seq<Label>)
    requires |v| == |w| && Stream(v) == Stream(w)
    requires forall i :: 0 <= i < |v| ==> v[i] == w[i] || (SEPARATOR !in v[i] && SEPARATOR !in w[i])
    ensures v == w
    decreases |v|
  {
    if v == [] {
    } else {
      StreamFront(v);
      StreamFront(w);
      if v[0] == w[0] {
        var f := v[0] + [SEPARATOR];
        assert Stream(v[1..]) == Stream(v)[|f|..] == Stream(w)[|f|..] == Stream(w[1..]);
      } else {
        FirstField(v[0], w[0], Stream(v[1..]), Stream(w[1..]));
      }
      StreamInjective(v[1..], w[1..]);
      assert v == [v[0]] + v[1..] && w == [w[0]] + w[1..];
    }
  }

  /** Two validated sets of values under the same curry collide before hashing only if equal:
      equal streams mean equal merged vectors. */
  lemma StreamsDetermine(v: seq<Label>, w: seq<Label>, lvs: seq<Label>, lws: seq<Label>, curry: seq<Curried>)
    requires |lvs| == |lws| && Merged(v, lvs, curry) && Merged(w, lws, curry)
    requires Separated(lvs) && Separated(lws) && Stream(v) == Stream(w)
    ensures v == w
  {
    forall i | 0 <= i < |v|
      ensures v[i] == w[i] || (SEPARATOR !in v[i] && SEPARATOR !in w[i])
    {
      assert MergedAt(v[i], lvs, curry, i) && MergedAt(w[i], lws, curry, i);
    }
    StreamInjective(v, w);
  }

  // ----- validation -----

  predicate Tail(b: byte) { 0x80 <= b <= 0xBF }

  /** The length of the character that starts `s`, by the table of section 4 of RFC 3629;
      zero if there is none. */
  function CharLength(s: seq<byte>): (n: nat)
    ensures n <= |s| && n <= 4
    ensures forall i :: 0 <= i < n ==> s[i] != SEPARATOR
  {
    if s == [] then 0
    else if s[0] <= 0x7F then 1
    else if |s| >= 2 && 0xC2 <= s[0] <= 0xDF && Tail(s[1]) then 2
    else if |s| >= 3 && Tail(s[2]) &&
            ((s[0] == 0xE0 && 0xA0 <= s[1] <= 0xBF) ||
             (0xE1 <= s[0] <= 0xEC && Tail(s[1])) ||
             (s[0] == 0xED && 0x80 <= s[1] <= 0x9F) ||
             (0xEE <= s[0] <= 0xEF && Tail(s[1]))) then 3
    else if |s| >= 4 && Tail(s[2]) && Tail(s[3]) &&
            ((s[0] == 0xF0 && 0x90 <= s[1] <= 0xBF) ||
             (0xF1 <= s[0] <= 0xF3 && Tail(s[1])) ||
             (s[0] == 0xF4 && 0x80 <= s[1] <= 0x8F)) then 4
    else 0
  }

  predicate ValidUtf8(s: seq<byte>) {
    s == [] || (CharLength(s) > 0 && ValidUtf8(s[CharLength(s)..]))
  }

  /** The characters that UTF-8 encodes: all but the surrogates. */
  predicate Scalar(c: nat) { c <= 0xD7FF || 0xE000 <= c <= 0x10FFFF }

  /** Their encoding, six bits to a tail octet (section 3 of RFC 3629). */
  function EncodeScalar(c: nat): (s: seq<byte>)
    requires Scalar(c)
    ensures 1 <= |s| <= 4
  {
    if c < 0x80 then [c]
    else if c < 0x800 then [0xC0 + c / 64, 0x80 + c % 64]
    else if c < 0x10000 then [0xE0 + c / 4096, 0x80 + c / 64 % 64, 0x80 + c % 64]
    else [0xF0 + c / 262144, 0x80 + c / 4096 % 64, 0x80 + c / 64 % 64, 0x80 + c % 64]
  }

  ghost predicate Scalars(cs: seq<nat>) {
    forall i :: 0 <= i < |cs| ==> Scalar(cs[i])
  }

  function EncodeAll(cs: seq<nat>): seq<byte>
    requires Scalars(cs)
  {
    if cs == [] then [] else EncodeScalar(cs[0]) + EncodeAll(cs[1..])
  }

  /** The length test finds every encoded character. */
  lemma EncodedLength(c: nat, rest: seq<byte>)
    requires Scalar(c)
    ensures CharLength(EncodeScalar(c) + rest) == |EncodeScalar(c)|
  {
    if 0x800 <= c < 0x10000 {
      ThreeOctets(c, EncodeScalar(c) + rest);
    } else if 0x10000 <= c {
      FourOctets(c, EncodeScalar(c) + rest);
    }
  }

  lemma ThreeOctets(c: nat, s: seq<byte>)
    requires Scalar(c) && 0x800 <= c < 0x10000 && |s| >= 3
    requires s[0] == 0xE0 + c / 4096 && s[1] == 0x80 + c / 64 % 64 && s[2] == 0x80 + c % 64
    ensures CharLength(s) == 3
  {
    assert c / 64 == c / 4096 * 64 + c / 64 % 64;
  }

  lemma FourOctets(c: nat, s: seq<byte>)
    requires Scalar(c) && 0x10000 <= c && |s| >= 4
    requires s[0] == 0xF0 + c / 262144 && s[1] == 0x80 + c / 4096 % 64
    requires s[2] == 0x80 + c / 64 % 64 && s[3] == 0x80 + c % 64
    ensures CharLength(s) == 4
  {
    assert c / 4096 == c / 262144 * 64 + c / 4096 % 64;
  }

  /** And nothing else. */
  lemma DecodedScalar(s: seq<byte>) returns (c: nat)
    requires CharLength(s) > 0
    ensures Scalar(c) && EncodeScalar(c) == s[..CharLength(s)]
  {
    var n := CharLength(s);
    var a: int := s[0];
    if n == 1 {
      c := a;
    } else {
      var b: int := s[1];
      if n == 2 {
        c := (a - 0xC0) * 64 + (b - 0x80);
      } else if n == 3 {
        c := DecodedThree(s);
      } else {
        c := DecodedFour(s);
      }
    }
  }

  lemma DecodedThree(s: seq<byte>) returns (c: nat)
    requires CharLength(s) == 3
    ensures Scalar(c) && EncodeScalar(c) == s[..3]
  {
    var a: int, b: int, d: int := s[0] - 0xE0, s[1] - 0x80, s[2] - 0x80;
    c := (a * 64 + b) * 64 + d;
    assert c / 64 == a * 64 + b && c % 64 == d;
    assert c / 64 % 64 == b && c / 4096 == a;
  }

  lemma DecodedFour(s: seq<byte>) returns (c: nat)
    requires CharLength(s) == 4
    ensures Scalar(c) && EncodeScalar(c) == s[..4]
  {
    var a: int, b: int, d: int, e: int := s[0] - 0xF0, s[1] - 0x80, s[2] - 0x80, s[3] - 0x80;
    c := ((a * 64 + b) * 64 + d) * 64 + e;
    assert c / 64 == (a * 64 + b) * 64 + d && c % 64 == e;
    assert c / 64 % 64 == d && c / 4096 == a * 64 + b;
    assert c / 4096 % 64 == b && c / 262144 == a;
  }

  ghost predicate Encodes(cs: seq<nat>, s: seq<byte>) {
    Scalars(cs) && EncodeAll(cs) == s
  }

  /** Valid are exactly the encodings of sequences of characters. */
  lemma ValidUtf8Iff(s: seq<byte>)
    ensures ValidUtf8(s) <==> exists cs :: Encodes(cs, s)
  {
    if ValidUtf8(s) {
      var cs := Characters(s);
    }
    if cs :| Encodes(cs, s) {
      EncodedIsValid(cs);
    }
  }

  lemma {:induction false} Characters(s: seq<byte>) returns (cs: seq<nat>)
    requires ValidUtf8(s)
    ensures Encodes(cs, s)
    decreases |s|
  {
    cs := [];
    if s != [] {
      var n := CharLength(s);
      var c := DecodedScalar(s);
      var rest := Characters(s[n..]);
      cs := [c] + rest;
      assert cs[1..] == rest && s == s[..n] + s[n..];
    }
  }

  lemma {:induction false} EncodedIsValid(cs: seq<nat>)
    requires Scalars(cs)
    ensures ValidUtf8(EncodeAll(cs))
  {
    if cs != [] {
      var head, rest := EncodeScalar(cs[0]), EncodeAll(cs[1..]);
      EncodedLength(cs[0], rest);
      EncodedIsValid(cs[1..]);
      assert (head + rest)[|head|..] == rest;
    }
  }

  /** The separator octet cannot occur in UTF-8. */
  lemma {:induction false} NoSeparator(s: seq<byte>)
    requires ValidUtf8(s)
    ensures SEPARATOR !in s
    decreases |s|
  {
    if s == [] {
    } else {
      var n := CharLength(s);
      NoSeparator(s[n..]);
      assert s == s[..n] + s[n..];
    }
  }

  /** validateLabelValues. */
  method ValidateLabelValues(vals: seq<Label>, expected: int) returns (ok: bool)
    ensures ok <==> |vals| == expected && forall k :: 0 <= k < |vals| ==> ValidUtf8(vals[k])
    ensures ok ==> Separated(vals)
  {
    if |vals| != expected {
      return false;
    }
    for i := 0 to |vals|
      invariant forall k :: 0 <= k < i ==> ValidUtf8(vals[k]) && SEPARATOR !in vals[k]
    {
      if !ValidUtf8(vals[i]) {
        return false;
      }
      NoSeparator(vals[i]);
    }
    return true;
  }
}
