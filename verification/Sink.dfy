/** A byte or character destination that may run out of room. */
module Sinks {
  /** The part of `s` that fits a destination holding `room` elements. */
  function Fit<T>(s: seq<T>, room: nat): (r: seq<T>)
    ensures r <= s && |r| <= room
    ensures |s| <= room <==> r == s
  {
    if |s| <= room then s else s[..room]
  }

  /** Writing `a` and, if it fits, `b` leaves the same trace as writing `a + b` at once. */
  lemma FitInParts<T>(start: seq<T>, a: seq<T>, b: seq<T>, room: nat)
    ensures |start| + |a| > room ==> Fit(start + (a + b), room) == Fit(start + a, room)
    ensures |start| + |a| <= room ==>
              Fit(start + a, room) == start + a
              && Fit(start + (a + b), room) == Fit(start + a + b, room)
  {
    assert start + (a + b) == start + a + b;
  }

  /** Writes append; a write that exceeds the room stores what fits and reports failure. */
  class Sink<T> {
    const room: nat
    var data: seq<T>

    constructor (room: nat)
      ensures this.room == room && data == []
    {
      this.room := room;
      data := [];
    }

    ghost predicate Valid()
      reads this
    {
      |data| <= room
    }

    method Write(s: seq<T>) returns (ok: bool)
      requires Valid()
      modifies this
      ensures Valid()
      ensures data == Fit(old(data) + s, room)
      ensures ok <==> |old(data)| + |s| <= room
    {
      ok := |data| + |s| <= room;
      data := Fit(data + s, room);
    }
  }
}
