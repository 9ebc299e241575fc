/** The 80-byte metadata page: ten words, changed in place. */
module Metadata {
  import opened Basics
  import opened Bytes
  import opened Layout
  import opened MmapQueue

  const META_SIZE: nat := 80
  const META_VERSION: nat := 1

  // the word each field starts at
  const VERSION: nat := 0
  const WRITING: nat := 1
  const WATERMARK: nat := 3
  const COMMITTED: nat := 5
  const READING: nat := 7
  const CAPACITY: nat := 9

  /** The page as the program reads it. */
  datatype Fields = Fields(version: nat, cursors: Cursors, capacity: nat)

  datatype Opened = Opened | WrongVersion(found: nat) | WrongCapacity(found: nat)

  function Slot(s: seq<byte>, k: nat): nat
    requires WORD * k + WORD <= |s|
  {
    FromWord(s[WORD * k..WORD * k + WORD])
  }

  function Pair(s: seq<byte>, k: nat): Cursor
    requires WORD * k + 2 * WORD <= |s|
  {
    Cursor(Slot(s, k), Slot(s, k + 1))
  }

  function FieldsOf(s: seq<byte>): Fields
    requires |s| == META_SIZE
  {
    Fields(Slot(s, VERSION),
           Cursors(Pair(s, WRITING), Pair(s, WATERMARK), Pair(s, COMMITTED), Pair(s, READING)),
           Slot(s, CAPACITY))
  }

  /** Which bytes of the page each field is. */
  lemma PageLayout(s: seq<byte>)
    requires |s| == META_SIZE
    ensures var f := FieldsOf(s);
            f.version == FromWord(s[0..8]) && f.capacity == FromWord(s[72..80]) &&
            f.cursors.writing == Cursor(FromWord(s[8..16]), FromWord(s[16..24])) &&
            f.cursors.watermark == Cursor(FromWord(s[24..32]), FromWord(s[32..40])) &&
            f.cursors.committed == Cursor(FromWord(s[40..48]), FromWord(s[48..56])) &&
            f.cursors.reading == Cursor(FromWord(s[56..64]), FromWord(s[64..72]))
  {
  }

  function Clamp(v: int): nat { if v < 0 then 0 else v }

  /** Writing one word changes that word and no other. */
  lemma SlotPatched(s: seq<byte>, k: nat, v: int, j: nat)
    requires |s| == META_SIZE && k < 10 && j < 10 && v <= MAX_INT
    ensures Slot(Patched(s, WORD * k, ToWord(v)), j) == if j == k then Clamp(v) else Slot(s, j)
  {
    var t := Patched(s, WORD * k, ToWord(v));
    WordRoundTrip(v);
    if j == k {
      assert t[WORD * j..WORD * j + WORD] == ToWord(v);
    } else {
      assert t[WORD * j..WORD * j + WORD] == s[WORD * j..WORD * j + WORD];
    }
  }

  class Page {
    const bytes: array<byte>

    ghost predicate Valid()
      reads this
    {
      bytes.Length == META_SIZE
    }

    function View(): Fields
      requires Valid()
      reads this, bytes
    {
      FieldsOf(bytes[..])
    }

    constructor (file: array<byte>)
      requires file.Length == META_SIZE
      ensures Valid() && bytes == file
    {
      bytes := file;
    }

    /** mmap's WriteUint64At. */
    method WriteUint64At(v: int, at: nat)
      requires Valid() && at + WORD <= META_SIZE
      modifies bytes
      ensures bytes[..] == Patched(old(bytes[..]), at, ToWord(v))
    {
      var w := ToWord(v);
      for i := 0 to WORD
        invariant bytes[..at] == old(bytes[..at]) && bytes[at + WORD..] == old(bytes[at + WORD..])
        invariant bytes[at..at + i] == w[..i]
      {
        bytes[at + i] := w[i];
      }
      assert bytes[..] == bytes[..at] + bytes[at..at + WORD] + bytes[at + WORD..];
    }

    method PutWord(k: nat, v: int)
      requires Valid() && k < 10 && v <= MAX_INT
      modifies bytes
      ensures forall j :: 0 <= j < 10 ==> Slot(bytes[..], j) == if j == k then Clamp(v) else Slot(old(bytes[..]), j)
    {
      WriteUint64At(v, WORD * k);
      forall j | 0 <= j < 10
        ensures Slot(bytes[..], j) == if j == k then Clamp(v) else Slot(old(bytes[..]), j)
      {
        SlotPatched(old(bytes[..]), k, v, j);
      }
    }

    /** The two words of one cursor; the others keep their values. */
    method PutPair(k: nat, id: int, offset: int)
      requires Valid() && k < 9 && id <= MAX_INT && offset <= MAX_INT
      modifies bytes
      ensures forall j :: 0 <= j < 10 ==>
                Slot(bytes[..], j) ==
                if j == k then Clamp(id) else if j == k + 1 then Clamp(offset) else Slot(old(bytes[..]), j)
    {
      PutWord(k, id);
      PutWord(k + 1, offset);
    }

    method PutWritingOffset(id: int, offset: int)
      requires Valid() && id <= MAX_INT && offset <= MAX_INT
      modifies bytes
      ensures View() == old(View()).(cursors := old(View().cursors).(writing := Cursor(Clamp(id), Clamp(offset))))
    {
      PutPair(WRITING, id, offset);
    }

    method PutWatermarkOffset(id: int, offset: int)
      requires Valid() && id <= MAX_INT && offset <= MAX_INT
      modifies bytes
      ensures View() == old(View()).(cursors := old(View().cursors).(watermark := Cursor(Clamp(id), Clamp(offset))))
    {
      PutPair(WATERMARK, id, offset);
    }

    method PutCommittedOffset(id: int, offset: int)
      requires Valid() && id <= MAX_INT && offset <= MAX_INT
      modifies bytes
      ensures View() == old(View()).(cursors := old(View().cursors).(committed := Cursor(Clamp(id), Clamp(offset))))
    {
      PutPair(COMMITTED, id, offset);
    }

    method PutReadingOffset(id: int, offset: int)
      requires Valid() && id <= MAX_INT && offset <= MAX_INT
      modifies bytes
      ensures View() == old(View()).(cursors := old(View().cursors).(reading := Cursor(Clamp(id), Clamp(offset))))
    {
      PutPair(READING, id, offset);
    }

    /** NewMetaData's checks: an unused page or one of this version and capacity is taken over
        with its cursors, any other is left alone. */
    method Open(capacity: nat) returns (r: Opened)
      requires Valid() && capacity <= MAX_INT
      modifies bytes
      ensures r.WrongVersion? <==> old(View().version) !in {0, META_VERSION}
      ensures r.WrongCapacity? <==> old(View().version) in {0, META_VERSION} && old(View().capacity) !in {0, capacity}
      ensures r.Opened? ==> View() == old(View()).(version := META_VERSION, capacity := capacity)
      ensures !r.Opened? ==> bytes[..] == old(bytes[..])
    {
      var v := View().version;
      if v != 0 && v != META_VERSION {
        return WrongVersion(v);
      }
      var c := View().capacity;
      if c != 0 && c != capacity {
        return WrongCapacity(c);
      }
      PutWord(VERSION, META_VERSION);
      PutWord(CAPACITY, capacity);
      return Opened.Opened;
    }
  }
}
