/** The ring buffer of the delta encoder: a push replaces the oldest element and hands it back. */
module RingBuffers {

  /** The elements from position p around to just before it. */
  function Rotated<T>(s: seq<T>, p: nat): (r: seq<T>)
    requires p <= |s|
    ensures |r| == |s|
  {
    s[p..] + s[..p]
  }

  lemma RotatedPush<T>(s: seq<T>, p: nat, x: T)
    requires p < |s|
    ensures Rotated(s, p)[0] == s[p]
    ensures Rotated(s[p := x], p + 1) == Rotated(s, p)[1..] + [x]
  {
  }

  lemma RotatedEnd<T>(s: seq<T>)
    ensures Rotated(s, |s|) == Rotated(s, 0) == s
  {
  }

  class RingBuffer<T(0)> {
    const buffer: array<T>
    var ptr: nat

    ghost predicate Valid()
      reads this
    {
      ptr < buffer.Length
    }

    /** The elements, oldest first: the order in which they are serialised. */
    ghost function Contents(): (s: seq<T>)
      requires Valid()
      reads this, buffer
      ensures |s| == buffer.Length
    {
      Rotated(buffer[..], ptr)
    }

    constructor (size: nat)
      requires 0 < size
      ensures Valid() && fresh(buffer) && buffer.Length == size && ptr == 0
    {
      buffer := new T[size];
      ptr := 0;
    }

    method Push(x: T) returns (old_: T)
      requires Valid()
      modifies this, buffer
      ensures Valid() && old_ == old(Contents())[0] && Contents() == old(Contents())[1..] + [x]
      ensures ptr == if old(ptr) + 1 == buffer.Length then 0 else old(ptr) + 1
    {
      hide Rotated;
      ghost var was := buffer[..];
      RotatedPush(was, ptr, x);
      old_ := buffer[ptr];
      buffer[ptr] := x;
      assert buffer[..] == was[ptr := x];
      ptr := ptr + 1;
      if ptr == buffer.Length {
        RotatedEnd(buffer[..]);
        ptr := 0;
      }
    }

    /** full: as many pushes as the buffer has places, or none. */
    predicate Full()
      reads this
    {
      ptr == 0
    }

    /** serialize: the two pieces handed to the consumer. */
    method Serialize() returns (first: seq<T>, second: seq<T>)
      requires Valid()
      ensures first + second == Contents()
    {
      if ptr == 0 {
        first, second := buffer[..], [];
      } else {
        first, second := buffer[ptr..], buffer[..ptr];
      }
    }
  }
}
