/** Small common things. */
module Basics {
  /** An optional value: Go's nil pointers and error results. */
  datatype Option<+T> = None | Some(value: T)

  /** The largest 64-bit signed integer. */
  const MAX_INT: nat := 0x7FFF_FFFF_FFFF_FFFF

  function Min(a: int, b: int): (m: int)
    ensures m <= a && m <= b && (m == a || m == b)
  {
    if a <= b then a else b
  }

  lemma HasMember<T>(s: set<T>) returns (x: T)
    requires s != {}
    ensures x in s
  {
    if forall y :: y !in s {
      // a set without members is the empty set
    }
    x :| x in s;
  }

  lemma Associative<T>(a: seq<T>, b: seq<T>, c: seq<T>)
    ensures (a + b) + c == a + (b + c)
  {
  }
}
