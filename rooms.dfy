/** The room record both Mondrian layouts share, and the room graph their
    searches walk: a room's neighbours are the ids in its list. */
module Rooms {
  import opened Walks

  /** A room: its id, its rectangle on the canvas, its colour and the ids
      of the rooms next to it. */
  datatype Room = Room(id: int, x: int, y: int, width: int, height: int, color: string, neighbors: seq<int>)

  /** The answer of a lookup that may find nothing, such as getRoom. */
  datatype Option<T> = None | Some(value: T)

  /** The neighbour lists as an adjacency; an id that names no room has no
      neighbours. */
  function RoomAdj(rooms: seq<Room>): int -> seq<int> {
    u => if 0 <= u < |rooms| then rooms[u].neighbors else []
  }

  /** Every room sits at the index its id names, and lists each neighbour
      once, by an id that names a room. */
  ghost predicate WellLinked(rooms: seq<Room>) {
    forall u :: 0 <= u < |rooms| ==>
      && rooms[u].id == u
      && NoRepeat(rooms[u].neighbors)
      && forall v :: v in rooms[u].neighbors ==> 0 <= v < |rooms|
  }

  /** The cast `(size_t)m` of a 32-bit count: a negative value wraps
      around to a size no path reaches. */
  function SizeT(m: int): nat {
    if 0 <= m < 0x1_0000_0000_0000_0000 then m else m % 0x1_0000_0000_0000_0000
  }

  /** A walk along the neighbour lists that starts on a room stays on
      rooms. */
  lemma WalkOnRooms(rooms: seq<Room>, w: seq<int>)
    requires WellLinked(rooms) && IsWalk(RoomAdj(rooms), w) && 0 <= w[0] < |rooms|
    ensures forall i :: 0 <= i < |w| ==> 0 <= w[i] < |rooms|
  {
    assert ClosedUnder(RoomAdj(rooms), Ids(|rooms|));
    ClosedContainsWalk(RoomAdj(rooms), Ids(|rooms|), w);
  }

  /** A sequence of distinct ids below `n` has at most `n` elements. */
  lemma Pigeonhole(s: seq<int>, n: nat)
    requires NoRepeat(s) && forall x :: x in s ==> 0 <= x < n
    ensures |s| <= n
  {
    var S := set x | x in s;
    DistinctCount(s, S);
    assert Ids(n) == S + (Ids(n) - S);
  }

  /** The ids `0 .. n - 1`. */
  ghost function Ids(n: nat): (S: set<int>)
    ensures forall x :: x in S <==> 0 <= x < n
    ensures |S| == n
  {
    if n == 0 then {} else Ids(n - 1) + {n - 1}
  }
}
