/** The text form of a queue position: the segment id and the offset, joined by a hyphen. */
module OffsetText {
  import opened Basics

  /** Where an event came from: the queue partition and the position in it. */
  datatype Offset = Offset(partition: nat, position: string)

  const MIN_INT: int := -0x8000_0000_0000_0000

  function Digit(d: nat): (c: char)
    requires d < 10
    ensures '0' <= c <= '9'
  {
    '0' + d as char
  }

  /** strconv.FormatInt in base ten. */
  function FormatNat(n: nat): (s: string)
    ensures |s| > 0 && forall i :: 0 <= i < |s| ==> '0' <= s[i] <= '9'
  {
    if n < 10 then [Digit(n)] else FormatNat(n / 10) + [Digit(n % 10)]
  }

  function FormatInt(v: int): string {
    if v < 0 then "-" + FormatNat(-v) else FormatNat(v)
  }

  /** The value of a non-empty string of digits. */
  function ParseDigits(s: string): Option<nat> {
    if s == [] then None
    else
      var c := s[|s| - 1];
      if !('0' <= c <= '9') then None
      else
        var d := c as int - '0' as int;
        if |s| == 1 then Some(d)
        else match ParseDigits(s[..|s| - 1])
          case None => None
          case Some(v) => Some(10 * v + d)
  }

  /** strconv.ParseInt(s, 10, 64): an optional sign, digits, and the 64-bit range. */
  function ParseInt(s: string): (r: Option<int>)
    ensures r.Some? ==> MIN_INT <= r.value <= MAX_INT
    ensures r.Some? && r.value < 0 ==> '-' in s
  {
    var negative := s != [] && s[0] == '-';
    var digits := if s != [] && (s[0] == '-' || s[0] == '+') then s[1..] else s;
    match ParseDigits(digits)
    case None => None
    case Some(v) =>
      var x: int := if negative then 0 - v else v;
      if MIN_INT <= x <= MAX_INT then Some(x) else None
  }

  /** strings.Split on one character. */
  function Split(s: string, c: char): (parts: seq<string>)
    ensures |parts| > 0
  {
    if s == [] then [[]]
    else
      var rest := Split(s[1..], c);
      if s[0] == c then [[]] + rest else [[s[0]] + rest[0]] + rest[1..]
  }

  function EncodeOffset(id: int, offset: int): string {
    FormatInt(id) + "-" + FormatInt(offset)
  }

  function DecodeOffset(s: string): (r: Option<(nat, nat)>)
    ensures r.Some? ==> r.value.0 <= MAX_INT && r.value.1 <= MAX_INT
  {
    var arr := Split(s, '-');
    SplitRemoves(s, '-');
    if |arr| == 2 then
      match ParseInt(arr[0])
      case None => None
      case Some(id) =>
        match ParseInt(arr[1])
        case None => None
        case Some(offset) => Some((id, offset))
    else None
  }

  function Count(s: string, c: char): nat {
    if s == [] then 0 else (if s[0] == c then 1 else 0) + Count(s[1..], c)
  }

  lemma {:induction false} CountConcat(s: string, t: string, c: char)
    ensures Count(s + t, c) == Count(s, c) + Count(t, c)
  {
    if s == [] {
      assert s + t == t;
    } else {
      assert (s + t)[1..] == s[1..] + t;
      CountConcat(s[1..], t, c);
    }
  }

  /** The parts contain no separator, and there is one more of them than separators. */
  lemma {:induction false} SplitRemoves(s: string, c: char)
    ensures forall i :: 0 <= i < |Split(s, c)| ==> c !in Split(s, c)[i]
    ensures |Split(s, c)| == Count(s, c) + 1
  {
    if s == [] {
    } else {
      SplitRemoves(s[1..], c);
    }
  }

  lemma {:induction false} SplitOnce(s: string, t: string, c: char)
    requires c !in s && c !in t
    ensures Split(s + [c] + t, c) == [s, t]
  {
    if s == [] {
      assert s + [c] + t == [c] + t;
      assert ([c] + t)[1..] == t;
      SplitNone(t, c);
    } else {
      assert (s + [c] + t)[1..] == s[1..] + [c] + t;
      SplitOnce(s[1..], t, c);
      assert [s[0]] + s[1..] == s;
    }
  }

  lemma {:induction false} SplitNone(t: string, c: char)
    requires c !in t
    ensures Split(t, c) == [t]
  {
    if t == [] {
    } else {
      SplitNone(t[1..], c);
      assert [t[0]] + t[1..] == t;
    }
  }

  lemma {:induction false} ParseFormat(n: nat)
    ensures ParseDigits(FormatNat(n)) == Some(n)
  {
    var s := FormatNat(n);
    if n < 10 {
    } else {
      ParseFormat(n / 10);
      assert s[..|s| - 1] == FormatNat(n / 10);
    }
  }

  lemma ParseIntFormat(n: nat)
    requires n <= MAX_INT
    ensures ParseInt(FormatNat(n)) == Some(n)
  {
    ParseFormat(n);
  }

  /** What Dequeue hands out is what Ack commits. */
  lemma OffsetRoundTrip(id: nat, offset: nat)
    requires id <= MAX_INT && offset <= MAX_INT
    ensures DecodeOffset(EncodeOffset(id, offset)) == Some((id, offset))
  {
    SplitOnce(FormatNat(id), FormatNat(offset), '-');
    ParseIntFormat(id);
    ParseIntFormat(offset);
  }

  /** The id, then the offset, in decimal digits, the most significant first. */
  lemma TextExample()
    ensures EncodeOffset(120, 4095) == "120-4095"
  {
    assert FormatNat(120) == "120";
    assert FormatNat(409) == "409" && FormatNat(4095) == "4095";
  }

  /** ParseInt on decimal digits: as they are, or after either sign, in the 64-bit range. */
  lemma ParsesSigned(n: nat, sign: string)
    requires sign == "" || sign == "+" || sign == "-"
    ensures var v: int := if sign == "-" then 0 - n else n;
            ParseInt(sign + FormatNat(n)) == if MIN_INT <= v <= MAX_INT then Some(v) else None
  {
    ParseFormat(n);
    var s, digits := sign + FormatNat(n), FormatNat(n);
    if sign == "" {
      assert s == digits;
    } else {
      assert s[0] == sign[0] && s[1..] == digits;
    }
  }

  /** And on nothing but digits. */
  lemma {:induction false} OnlyDigits(s: string)
    ensures ParseDigits(s).Some? <==> s != [] && forall i :: 0 <= i < |s| ==> '0' <= s[i] <= '9'
  {
    if |s| > 1 {
      OnlyDigits(s[..|s| - 1]);
    }
  }

  /** A written 64-bit position decodes exactly when neither part is negative. */
  lemma DecodesIff(id: int, offset: int)
    requires MIN_INT <= id <= MAX_INT && MIN_INT <= offset <= MAX_INT
    ensures DecodeOffset(EncodeOffset(id, offset)).Some? <==> id >= 0 && offset >= 0
  {
    if id >= 0 && offset >= 0 {
      OffsetRoundTrip(id, offset);
    } else {
      var a, b := FormatInt(id), FormatInt(offset);
      CountConcat(a + "-", b, '-');
      CountConcat(a, "-", '-');
      assert Count("-", '-') == 1;
      assert Count(a, '-') + Count(b, '-') >= 1;
      SplitRemoves(EncodeOffset(id, offset), '-');
    }
  }

  lemma EncodeInjective(a: (nat, nat), b: (nat, nat))
    requires a.0 <= MAX_INT && a.1 <= MAX_INT && b.0 <= MAX_INT && b.1 <= MAX_INT
    requires EncodeOffset(a.0, a.1) == EncodeOffset(b.0, b.1)
    ensures a == b
  {
    OffsetRoundTrip(a.0, a.1);
    OffsetRoundTrip(b.0, b.1);
  }
}
