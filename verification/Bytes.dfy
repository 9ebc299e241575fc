/** Octets and the 8-byte little-endian word that the mapped files store lengths and cursors in. */
module Bytes {
  import opened Basics

  type byte = x: int | 0 <= x < 256

  const WORD: nat := 8

  function Pow256(n: nat): (r: nat)
    ensures r > 0
  {
    if n == 0 then 1 else 256 * Pow256(n - 1)
  }

  function Encode(v: nat, n: nat): (s: seq<byte>)
    ensures |s| == n
    decreases n
  {
    if n == 0 then [] else [v % 256] + Encode(v / 256, n - 1)
  }

  function Decode(s: seq<byte>): nat {
    if s == [] then 0 else s[0] + 256 * Decode(s[1..])
  }

  lemma {:induction false} DecodeEncode(v: nat, n: nat)
    requires v < Pow256(n)
    ensures Decode(Encode(v, n)) == v
    decreases n
  {
    if n == 0 {
    } else {
      DecodeEncode(v / 256, n - 1);
      assert Encode(v, n)[1..] == Encode(v / 256, n - 1);
    }
  }

  lemma WordRange()
    ensures Pow256(WORD) == 0x1_0000_0000_0000_0000
  {
    assert Pow256(2) == 0x1_0000;
    assert Pow256(4) == 0x1_0000_0000;
    assert Pow256(6) == 0x1_0000_0000_0000;
  }

  /** A Go int stored as an unsigned word: negative values become zero. */
  function ToWord(v: int): (s: seq<byte>)
    ensures |s| == WORD
  {
    Encode(if v < 0 then 0 else v, WORD)
  }

  /** A stored word read back as a Go int: values above the int range become zero. */
  function FromWord(s: seq<byte>): (v: nat)
    requires |s| == WORD
    ensures v <= MAX_INT
  {
    var u := Decode(s);
    if u > MAX_INT then 0 else u
  }

  /** The stored word gives back the value, with every negative value read as zero. */
  lemma WordRoundTrip(v: int)
    requires v <= MAX_INT
    ensures FromWord(ToWord(v)) == if v < 0 then 0 else v
  {
    WordRange();
    DecodeEncode(if v < 0 then 0 else v, WORD);
  }
}
