/** The hand-drawn Mondrian maze: fourteen rooms laid out after a Mondrian
    painting, entered at room 0 and left at room 13, and a search that
    hands out simple routes in order of length until one is long enough. */
module MondrianTable {
  import opened Walks
  import opened Rooms

  /** The rooms: id, corner, size, colour and neighbour ids. */
  const TableRooms: seq<Room> := [
    Room(0, 0, 0, 40, 160, "#000000", [1, 2, 8]),
    Room(1, 40, 0, 320, 40, "#1d3557", [0, 2, 3, 9]),
    Room(2, 40, 40, 80, 80, "#f1faee", [0, 1, 3, 5]),
    Room(3, 120, 40, 120, 120, "#f4d35e", [1, 2, 4, 6]),
    Room(4, 240, 40, 120, 120, "#e63946", [3, 7, 9]),
    Room(5, 40, 120, 80, 80, "#f1faee", [2, 6, 8, 10]),
    Room(6, 160, 160, 80, 80, "#e63946", [3, 5, 7, 11]),
    Room(7, 240, 160, 120, 40, "#1d3557", [4, 6, 12]),
    Room(8, 0, 160, 40, 120, "#f1faee", [0, 5, 10]),
    Room(9, 360, 0, 40, 160, "#f4d35e", [1, 4, 13]),
    Room(10, 0, 280, 120, 80, "#f1faee", [5, 8, 11]),
    Room(11, 120, 280, 120, 80, "#000000", [6, 10, 12]),
    Room(12, 240, 200, 120, 80, "#1d3557", [7, 11, 13]),
    Room(13, 360, 160, 40, 200, "#f1faee", [9, 12])
  ]

  /** The layout is well formed: every room sits at the index of its id
      and lists each neighbour once, by the id of a room. */
  lemma TableWellLinked()
    ensures WellLinked(TableRooms)
  {
    forall u | 0 <= u < |TableRooms|
      ensures TableRooms[u].id == u && NoRepeat(TableRooms[u].neighbors)
      ensures forall v :: v in TableRooms[u].neighbors ==> 0 <= v < |TableRooms|
    {
      TableRoom(u);
    }
  }

  /** Neighbourhood in the layout goes both ways and no room is its own
      neighbour. */
  lemma TableSymmetric()
    ensures forall u, v :: 0 <= u < |TableRooms| && v in TableRooms[u].neighbors ==>
              u != v && 0 <= v < |TableRooms| && u in TableRooms[v].neighbors
  {
    forall u, v | 0 <= u < |TableRooms| && v in TableRooms[u].neighbors
      ensures u != v && 0 <= v < |TableRooms| && u in TableRooms[v].neighbors
    {
      TableRoom(u);
    }
  }

  /** Room `u` of the layout sits at its id and lists distinct rooms other
      than itself, each of which lists it back. */
  lemma TableRoom(u: int)
    requires 0 <= u < 14
    ensures TableRooms[u].id == u && NoRepeat(TableRooms[u].neighbors)
    ensures forall v :: v in TableRooms[u].neighbors ==> u != v && 0 <= v < |TableRooms| && u in TableRooms[v].neighbors
  {
    if u < 4 {
      TableRooms0To3(u);
    } else if u < 7 {
      TableRooms4To6(u);
    } else if u < 11 {
      TableRooms7To10(u);
    } else {
      TableRooms11To13(u);
    }
  }

  /** Rooms 0 to 3 of the layout: each sits at its id and lists distinct
      rooms other than itself, each of which lists it back. */
  lemma TableRooms0To3(u: int)
    requires 0 <= u < 4
    ensures TableRooms[u].id == u && NoRepeat(TableRooms[u].neighbors)
    ensures forall v :: v in TableRooms[u].neighbors ==> u != v && 0 <= v < |TableRooms| && u in TableRooms[v].neighbors
  {
    assert u == 0 || u == 1 || u == 2 || u == 3;
  }

  /** Rooms 4 to 6 of the layout, as TableRooms0To3. */
  lemma TableRooms4To6(u: int)
    requires 4 <= u < 7
    ensures TableRooms[u].id == u && NoRepeat(TableRooms[u].neighbors)
    ensures forall v :: v in TableRooms[u].neighbors ==> u != v && 0 <= v < |TableRooms| && u in TableRooms[v].neighbors
  {
    assert u == 4 || u == 5 || u == 6;
  }

  /** Rooms 7 to 10 of the layout, as TableRooms0To3. */
  lemma TableRooms7To10(u: int)
    requires 7 <= u < 11
    ensures TableRooms[u].id == u && NoRepeat(TableRooms[u].neighbors)
    ensures forall v :: v in TableRooms[u].neighbors ==> u != v && 0 <= v < |TableRooms| && u in TableRooms[v].neighbors
  {
    assert u == 7 || u == 8 || u == 9 || u == 10;
  }

  /** Rooms 11 to 13 of the layout, as TableRooms0To3. */
  lemma TableRooms11To13(u: int)
    requires 11 <= u < 14
    ensures TableRooms[u].id == u && NoRepeat(TableRooms[u].neighbors)
    ensures forall v :: v in TableRooms[u].neighbors ==> u != v && 0 <= v < |TableRooms| && u in TableRooms[v].neighbors
  {
    assert u == 11 || u == 12 || u == 13;
  }

  /** The route along the top edge and down the right-hand column leads
      from the entrance to the exit through four rooms. */
  lemma TopRightRoute()
    ensures WalkBetween(RoomAdj(TableRooms), [0, 1, 9, 13], 0, 13) && NoRepeat([0, 1, 9, 13])
  {
    var adj := RoomAdj(TableRooms);
    var w := [0, 1, 9, 13];
    forall i | 0 <= i < |w| - 1 ensures w[i + 1] in adj(w[i]) {
      if i == 0 {
        assert adj(0) == [1, 2, 8];
      } else if i == 1 {
        assert adj(1) == [0, 2, 3, 9];
      } else {
        assert adj(9) == [1, 4, 13];
      }
    }
  }

  /** Every route from the entrance to the exit passes through at least
      four rooms. */
  lemma TableShortest()
    ensures forall w :: WalkBetween(RoomAdj(TableRooms), w, 0, 13) ==> |w| >= 4
  {
    NoShortWalk();
  }

  /** No walk of at most three rooms leads from the entrance to the
      exit. */
  lemma NoShortWalk()
    ensures forall w :: IsWalk(RoomAdj(TableRooms), w) && w[0] == 0 && |w| <= 3 ==> w[|w| - 1] != 13
  {
    var adj := RoomAdj(TableRooms);
    assert adj(0) == [1, 2, 8];
    IntoExit();
    forall w | IsWalk(adj, w) && w[0] == 0 && |w| <= 3 ensures w[|w| - 1] != 13 {
      if |w| == 3 {
        assert w[1] in adj(w[0]) && w[2] in adj(w[1]);
      } else if |w| == 2 {
        assert w[1] in adj(w[0]);
      }
    }
  }

  /** Only rooms 9 and 12 lead into the exit. */
  lemma IntoExit()
    ensures forall u :: 13 in RoomAdj(TableRooms)(u) ==> u == 9 || u == 12
  {
    forall u | 13 in RoomAdj(TableRooms)(u) ensures u == 9 || u == 12 {
      assert 0 <= u < |TableRooms|;
      assert u == 0 || u == 1 || u == 2 || u == 3 || u == 4 || u == 5 || u == 6
          || u == 7 || u == 8 || u == 9 || u == 10 || u == 11 || u == 12 || u == 13;
    }
  }

  // ---------------------------------------------------------------------
  // Routes and how many simple routes continue one

  /** A non-empty route that repeats no room and stays on rooms (its last
      room in particular). */
  ghost predicate Simple(rooms: seq<Room>, p: seq<int>) {
    p != [] && NoRepeat(p) && (forall x :: x in p ==> 0 <= x < |rooms|) && 0 <= p[|p| - 1] < |rooms|
  }

  /** A simple route along the neighbour lists that starts at `s`. */
  ghost predicate FromStart(rooms: seq<Room>, s: int, p: seq<int>) {
    Simple(rooms, p) && p[0] == s && IsWalk(RoomAdj(rooms), p)
  }

  /** What findPath looks for: a route from `s` to `t` along the neighbour
      lists that repeats no room and has at least `minRooms` rooms, the
      count compared as the unsigned size the source casts it to. */
  ghost predicate Qualifies(rooms: seq<Room>, s: int, t: int, minRooms: int, w: seq<int>) {
    WalkBetween(RoomAdj(rooms), w, s, t) && NoRepeat(w) && |w| >= SizeT(minRooms)
  }

  /** `w` is `p` with one more room: a neighbour of its last room that it
      does not yet hold. */
  ghost predicate OneStep(rooms: seq<Room>, p: seq<int>, w: seq<int>)
    requires p != [] && 0 <= p[|p| - 1] < |rooms|
  {
    |w| == |p| + 1 && w[..|p|] == p && w[|p|] in rooms[p[|p| - 1]].neighbors && w[|p|] !in p
  }

  /** The number of simple routes that begin with `p`, `p` itself
      included. */
  ghost function Continuations(rooms: seq<Room>, p: seq<int>): nat
    requires WellLinked(rooms) && Simple(rooms, p)
    decreases |rooms| - |p|, 1, 0
  {
    Pigeonhole(p, |rooms|);
    1 + Branches(rooms, p, rooms[p[|p| - 1]].neighbors)
  }

  /** The number of simple routes that begin with `p` followed by one of
      the rooms `ns`. */
  ghost function Branches(rooms: seq<Room>, p: seq<int>, ns: seq<int>): nat
    requires WellLinked(rooms) && Simple(rooms, p) && forall x :: x in ns ==> 0 <= x < |rooms|
    decreases |rooms| - |p|, 0, |ns|
  {
    if ns == [] then 0
    else
      var v := ns[|ns| - 1];
      assert v in ns;
      PrefixMembers(ns, |ns| - 1);
      Branches(rooms, p, ns[..|ns| - 1])
      + if v in p then 0 else (NoRepeatSnoc(p, v); Pigeonhole(p + [v], |rooms|); Continuations(rooms, p + [v]))
  }

  /** The members of a prefix are members. */
  lemma PrefixMembers(ns: seq<int>, k: nat)
    requires k <= |ns|
    ensures forall x :: x in ns[..k] ==> x in ns
  {
    forall x | x in ns[..k] ensures x in ns {
      var i :| 0 <= i < k && ns[..k][i] == x;
      assert ns[i] == x;
    }
  }

  /** The simple routes the queue can still produce: each entry counts
      itself and its simple continuations. */
  ghost function Weight(rooms: seq<Room>, q: seq<seq<int>>): nat
    requires WellLinked(rooms) && forall i :: 0 <= i < |q| ==> Simple(rooms, q[i])
  {
    if q == [] then 0 else Weight(rooms, q[..|q| - 1]) + Continuations(rooms, q[|q| - 1])
  }

  /** The weight of a queue is that of its head plus that of the rest. */
  lemma {:induction false} WeightPop(rooms: seq<Room>, q: seq<seq<int>>)
    requires WellLinked(rooms) && (forall i :: 0 <= i < |q| ==> Simple(rooms, q[i])) && q != []
    ensures Weight(rooms, q) == Continuations(rooms, q[0]) + Weight(rooms, q[1..])
  {
    if |q| == 1 {
      assert q[1..] == [] && q[..0] == [];
    } else {
      var front := q[..|q| - 1];
      WeightPop(rooms, front);
      assert front[1..] == q[1..][..|q| - 2];
      assert q[1..][|q| - 2] == q[|q| - 1];
    }
  }

  // ---------------------------------------------------------------------
  // The search

  /** The queue of findPath: simple routes from the start, in order of
      length, none more than one room longer than the head. */
  ghost predicate PathQueue(rooms: seq<Room>, s: int, q: seq<seq<int>>) {
    && (forall i :: 0 <= i < |q| ==> FromStart(rooms, s, q[i]))
    && (forall i, j :: 0 <= i <= j < |q| ==> |q[i]| <= |q[j]|)
    && (forall i :: 0 <= i < |q| ==> |q[i]| <= |q[0]| + 1)
  }

  /** Some prefix of `w` is queued. */
  ghost predicate PrefixQueued(w: seq<int>, q: seq<seq<int>>) {
    exists k :: 1 <= k <= |w| && w[..k] in q
  }

  /** Nothing taken off the queue qualified, and every simple route from
      the start was taken off or has a prefix still queued. */
  ghost predicate Covered(rooms: seq<Room>, s: int, t: int, minRooms: int, q: seq<seq<int>>, popped: set<seq<int>>) {
    && (forall w :: w in popped ==> !Qualifies(rooms, s, t, minRooms, w))
    && forall w :: FromStart(rooms, s, w) ==> w in popped || PrefixQueued(w, q)
  }

  /** The queue holds only the start at first. */
  lemma SearchStart(rooms: seq<Room>, s: int, t: int, minRooms: int)
    requires 0 <= s < |rooms|
    ensures PathQueue(rooms, s, [[s]]) && Covered(rooms, s, t, minRooms, [[s]], {})
  {
    forall w | FromStart(rooms, s, w) ensures PrefixQueued(w, [[s]]) {
      assert w[..1] == [s];
    }
  }

  /** A queued route that qualifies is no longer than any route that
      qualifies. */
  lemma FoundFirst(rooms: seq<Room>, s: int, t: int, minRooms: int, q: seq<seq<int>>, popped: set<seq<int>>)
    requires WellLinked(rooms) && 0 <= s < |rooms|
    requires PathQueue(rooms, s, q) && Covered(rooms, s, t, minRooms, q, popped) && q != []
    requires q[0][|q[0]| - 1] == t && |q[0]| >= SizeT(minRooms)
    ensures Qualifies(rooms, s, t, minRooms, q[0])
    ensures forall w :: Qualifies(rooms, s, t, minRooms, w) ==> |q[0]| <= |w|
  {
    forall w | Qualifies(rooms, s, t, minRooms, w) ensures |q[0]| <= |w| {
      WalkOnRooms(rooms, w);
      assert FromStart(rooms, s, w);
      var k :| 1 <= k <= |w| && w[..k] in q;
      var j :| 0 <= j < |q| && q[j] == w[..k];
    }
  }

  /** With the queue empty, no route qualifies. */
  lemma SearchExhausted(rooms: seq<Room>, s: int, t: int, minRooms: int, popped: set<seq<int>>)
    requires WellLinked(rooms) && 0 <= s < |rooms| && Covered(rooms, s, t, minRooms, [], popped)
    ensures forall w :: !Qualifies(rooms, s, t, minRooms, w)
  {
    forall w | Qualifies(rooms, s, t, minRooms, w) ensures false {
      WalkOnRooms(rooms, w);
      assert FromStart(rooms, s, w);
    }
  }

  /** The queue after a round: the rest of the old one, then one-room
      extensions of the head, among them every extension that repeats no
      room. */
  ghost predicate Round(rooms: seq<Room>, q: seq<seq<int>>, q': seq<seq<int>>)
    requires q != [] && Simple(rooms, q[0])
  {
    Pushed(rooms, q[0], q[1..], q', rooms[q[0][|q[0]| - 1]].neighbors)
  }

  /** `q'` is `q` followed by one-room extensions of `path`, among them
      every extension by a room of `ns` that `path` does not hold, and all
      of its entries are simple routes. */
  ghost predicate Pushed(rooms: seq<Room>, path: seq<int>, q: seq<seq<int>>, q': seq<seq<int>>, ns: seq<int>)
    requires Simple(rooms, path)
  {
    && |q| <= |q'| && q'[..|q|] == q
    && (forall i :: |q| <= i < |q'| ==> OneStep(rooms, path, q'[i]))
    && (forall v :: v in ns && v !in path ==> path + [v] in q'[|q|..])
    && (forall i :: 0 <= i < |q'| ==> Simple(rooms, q'[i]))
  }

  /** Nothing queued yet. */
  lemma PushedStart(rooms: seq<Room>, path: seq<int>, q: seq<seq<int>>)
    requires Simple(rooms, path) && forall i :: 0 <= i < |q| ==> Simple(rooms, q[i])
    ensures Pushed(rooms, path, q, q, [])
  {
  }

  /** A neighbour that `path` already holds is passed over. */
  lemma PushedSkip(rooms: seq<Room>, path: seq<int>, q: seq<seq<int>>, q': seq<seq<int>>, ns: seq<int>, v: int)
    requires Simple(rooms, path) && Pushed(rooms, path, q, q', ns) && v in path
    ensures Pushed(rooms, path, q, q', ns + [v])
  {
  }

  /** A neighbour that `path` does not hold yet extends it, at the back
      of the queue. */
  lemma PushedAdd(rooms: seq<Room>, path: seq<int>, q: seq<seq<int>>, q': seq<seq<int>>, ns: seq<int>, v: int)
    requires Simple(rooms, path) && Pushed(rooms, path, q, q', ns) && v !in path
    requires v in rooms[path[|path| - 1]].neighbors && 0 <= v < |rooms|
    ensures Pushed(rooms, path, q, q' + [path + [v]], ns + [v])
  {
    var next := path + [v];
    var q'' := q' + [next];
    NoRepeatSnoc(path, v);
    assert q''[..|q|] == q'[..|q|];
    assert q''[|q|..] == q'[|q|..] + [next];
    assert next[..|path|] == path;
    forall i | 0 <= i < |q''| ensures Simple(rooms, q''[i]) {
      if i < |q'| { assert q''[i] == q'[i]; }
    }
  }

  /** A round keeps the queue in order of length. */
  lemma RoundOrdered(rooms: seq<Room>, s: int, q: seq<seq<int>>, q': seq<seq<int>>)
    requires PathQueue(rooms, s, q) && q != [] && Round(rooms, q, q')
    requires WellLinked(rooms)
    ensures PathQueue(rooms, s, q')
  {
    var p := q[0];
    forall i | 0 <= i < |q'| ensures FromStart(rooms, s, q'[i]) && |p| <= |q'[i]| <= |p| + 1 {
      if i < |q| - 1 {
        assert q'[i] == q[i + 1];
      } else {
        assert OneStep(rooms, p, q'[i]);
        var v := q'[i][|p|];
        assert q'[i] == p + [v];
        NoRepeatSnoc(p, v);
        WalkExtend(RoomAdj(rooms), p, v);
      }
    }
    forall i, j | 0 <= i <= j < |q'| ensures |q'[i]| <= |q'[j]| {
      if j < |q| - 1 {
        assert q'[i] == q[i + 1] && q'[j] == q[j + 1];
      } else if i < |q| - 1 {
        assert q'[i] == q[i + 1];
        assert OneStep(rooms, p, q'[j]);
      } else {
        assert OneStep(rooms, p, q'[i]) && OneStep(rooms, p, q'[j]);
      }
    }
  }

  /** A round that takes off a head that does not qualify keeps every
      simple route from the start covered. */
  lemma RoundCovers(rooms: seq<Room>, s: int, t: int, minRooms: int, q: seq<seq<int>>, popped: set<seq<int>>,
                    q': seq<seq<int>>)
    requires PathQueue(rooms, s, q) && Covered(rooms, s, t, minRooms, q, popped) && q != []
    requires Round(rooms, q, q')
    requires !(q[0][|q[0]| - 1] == t && |q[0]| >= SizeT(minRooms))
    ensures Covered(rooms, s, t, minRooms, q', popped + {q[0]})
  {
    var p := q[0];
    forall w | FromStart(rooms, s, w) && w !in popped + {p} ensures PrefixQueued(w, q') {
      var k :| 1 <= k <= |w| && w[..k] in q;
      var j :| 0 <= j < |q| && q[j] == w[..k];
      if j > 0 {
        assert q'[j - 1] == q[j];
      } else {
        assert k < |w| by {
          assert w[..|w|] == w;
        }
        ExtensionQueued(rooms, p, q[1..], q', w, k);
      }
    }
  }

  /** A route whose first `k` rooms were the head goes on with a neighbour
      of the head's last room that the head does not hold, so one round
      queues its first `k + 1` rooms. */
  lemma ExtensionQueued(rooms: seq<Room>, p: seq<int>, q: seq<seq<int>>, q': seq<seq<int>>, w: seq<int>, k: nat)
    requires Simple(rooms, p) && Pushed(rooms, p, q, q', rooms[p[|p| - 1]].neighbors)
    requires IsWalk(RoomAdj(rooms), w) && NoRepeat(w) && 1 <= k < |w| && w[..k] == p
    ensures PrefixQueued(w, q')
  {
    var v := w[k];
    assert w[..k + 1] == p + [v];
    assert p[|p| - 1] == w[k - 1];
    assert v in RoomAdj(rooms)(w[k - 1]);
    assert v !in p by {
      forall i | 0 <= i < k ensures p[i] != v { assert p[i] == w[i]; }
    }
    var tail := q'[|q|..];
    var i :| 0 <= i < |tail| && tail[i] == p + [v];
    assert q'[|q| + i] == w[..k + 1];
  }

  /** A round takes one route off the count. */
  lemma RoundWeight(rooms: seq<Room>, q: seq<seq<int>>, q': seq<seq<int>>)
    requires WellLinked(rooms) && (forall i :: 0 <= i < |q| ==> Simple(rooms, q[i])) && q != []
    requires (forall i :: 0 <= i < |q'| ==> Simple(rooms, q'[i]))
    requires Weight(rooms, q') == Weight(rooms, q[1..]) + Continuations(rooms, q[0]) - 1
    ensures Weight(rooms, q') < Weight(rooms, q)
  {
    WeightPop(rooms, q);
  }

  /** The neighbour loop of findPath: for every neighbour of the last room
      of `path` that `path` does not hold, in the order of the list, queue
      `path` extended by it. */
  method PushExtensions(rooms: seq<Room>, path: seq<int>, q: seq<seq<int>>) returns (q': seq<seq<int>>)
    requires WellLinked(rooms) && Simple(rooms, path) && forall i :: 0 <= i < |q| ==> Simple(rooms, q[i])
    ensures Pushed(rooms, path, q, q', rooms[path[|path| - 1]].neighbors)
    ensures Weight(rooms, q') == Weight(rooms, q) + Continuations(rooms, path) - 1
  {
    var curr := path[|path| - 1];
    var neighbours := rooms[curr].neighbors;
    q' := q;
    PushedStart(rooms, path, q);
    for i := 0 to |neighbours|
      invariant Pushed(rooms, path, q, q', neighbours[..i])
      invariant Weight(rooms, q') == Weight(rooms, q) + Branches(rooms, path, neighbours[..i])
    {
      var nb := neighbours[i];
      assert neighbours[..i + 1] == neighbours[..i] + [nb];
      PrefixMembers(neighbours, i);
      ghost var q0 := q';
      if nb !in path {
        q' := q' + [path + [nb]];
      }
      PushStep(rooms, path, q, q0, neighbours[..i], nb, q');
    }
    assert neighbours[..|neighbours|] == neighbours;
  }

  /** One neighbour of the loop in PushExtensions: appending the route it
      extends, when it does, keeps both invariants. */
  lemma PushStep(rooms: seq<Room>, path: seq<int>, q: seq<seq<int>>, q': seq<seq<int>>, ns: seq<int>, v: int, q'': seq<seq<int>>)
    requires WellLinked(rooms) && Simple(rooms, path) && forall i :: 0 <= i < |q| ==> Simple(rooms, q[i])
    requires v in rooms[path[|path| - 1]].neighbors && forall x :: x in ns ==> x in rooms[path[|path| - 1]].neighbors
    requires Pushed(rooms, path, q, q', ns)
    requires Weight(rooms, q') == Weight(rooms, q) + Branches(rooms, path, ns)
    requires q'' == if v in path then q' else q' + [path + [v]]
    ensures Pushed(rooms, path, q, q'', ns + [v])
    ensures Weight(rooms, q'') == Weight(rooms, q) + Branches(rooms, path, ns + [v])
  {
    PushStepQueue(rooms, path, q, q', ns, v, q'');
    PushStepWeight(rooms, path, q, q', ns, v, q'');
  }

  /** PushStep for what is queued. */
  lemma PushStepQueue(rooms: seq<Room>, path: seq<int>, q: seq<seq<int>>, q': seq<seq<int>>, ns: seq<int>, v: int, q'': seq<seq<int>>)
    requires WellLinked(rooms) && Simple(rooms, path) && forall i :: 0 <= i < |q| ==> Simple(rooms, q[i])
    requires v in rooms[path[|path| - 1]].neighbors && forall x :: x in ns ==> x in rooms[path[|path| - 1]].neighbors
    requires Pushed(rooms, path, q, q', ns)
    requires Weight(rooms, q') == Weight(rooms, q) + Branches(rooms, path, ns)
    requires q'' == if v in path then q' else q' + [path + [v]]
    ensures Pushed(rooms, path, q, q'', ns + [v])
  {
    if v in path {
      PushedSkip(rooms, path, q, q', ns, v);
    } else {
      PushedAdd(rooms, path, q, q', ns, v);
    }
  }

  /** PushStep for the weight: an appended route brings its own
      continuations, which are what the neighbour adds to the branches. */
  lemma PushStepWeight(rooms: seq<Room>, path: seq<int>, q: seq<seq<int>>, q': seq<seq<int>>, ns: seq<int>, v: int, q'': seq<seq<int>>)
    requires WellLinked(rooms) && Simple(rooms, path) && forall i :: 0 <= i < |q| ==> Simple(rooms, q[i])
    requires v in rooms[path[|path| - 1]].neighbors && forall x :: x in ns ==> x in rooms[path[|path| - 1]].neighbors
    requires Pushed(rooms, path, q, q', ns)
    requires Weight(rooms, q') == Weight(rooms, q) + Branches(rooms, path, ns)
    requires q'' == if v in path then q' else q' + [path + [v]]
    ensures Weight(rooms, q'') == Weight(rooms, q) + Branches(rooms, path, ns + [v])
  {
    assert (ns + [v])[..|ns|] == ns;
    if v !in path {
      SimpleSnoc(rooms, path, v);
      WeightAdd(rooms, q', path + [v]);
    }
  }

  /** A simple route stays simple when it takes a room it does not hold. */
  lemma SimpleSnoc(rooms: seq<Room>, path: seq<int>, v: int)
    requires Simple(rooms, path) && 0 <= v < |rooms| && v !in path
    ensures Simple(rooms, path + [v])
  {
    NoRepeatSnoc(path, v);
  }

  /** Queueing one more route adds its count to the weight. */
  lemma WeightAdd(rooms: seq<Room>, q: seq<seq<int>>, p: seq<int>)
    requires WellLinked(rooms) && (forall i :: 0 <= i < |q| ==> Simple(rooms, q[i])) && Simple(rooms, p)
    ensures Weight(rooms, q + [p]) == Weight(rooms, q) + Continuations(rooms, p)
  {
    assert (q + [p])[..|q|] == q;
  }

  /** The hand-drawn maze. */
  class MondrianMaze {
    var rooms: seq<Room>
    var entranceId: int
    var exitId: int

    /** MondrianMaze(): the fourteen rooms, the black block at the top
        left as entrance and the white block at the bottom right as
        exit. */
    constructor()
      ensures rooms == TableRooms && entranceId == 0 && exitId == 13
    {
      rooms := TableRooms;
      entranceId := 0;
      exitId := 13;
    }

    /** getRoomCount. */
    function GetRoomCount(): (n: int)
      reads this
      ensures n == |rooms|
    {
      |rooms|
    }

    /** getRoom: `rooms.at(id)`, which has no room to give (it throws)
        for an id outside the list. */
    function GetRoom(id: int): (r: Option<Room>)
      reads this
      ensures r.Some? <==> 0 <= id < |rooms|
      ensures r.Some? ==> r.value == rooms[id]
    {
      if 0 <= id < |rooms| then Some(rooms[id]) else None
    }

    /** getRooms, getEntranceId and getExitId. */
    function GetRooms(): (rs: seq<Room>)
      reads this
      ensures rs == rooms
    {
      rooms
    }

    function GetEntranceId(): (id: int)
      reads this
      ensures id == entranceId
    {
      entranceId
    }

    function GetExitId(): (id: int)
      reads this
      ensures id == exitId
    {
      exitId
    }

    /** findPath: take routes off a queue that starts with the start alone,
        return the first that ends at `endId` with at least `minRooms`
        rooms, and queue each one extended by every neighbour it does not
        yet hold. Routes leave the queue in order of length, so the result
        is a shortest route among those that repeat no room and are long
        enough; it is empty exactly when there is no such route. */
    method FindPath(startId: int, endId: int, minRooms: int) returns (path: seq<int>)
      requires WellLinked(rooms) && 0 <= startId < |rooms|
      ensures path != [] ==> Qualifies(rooms, startId, endId, minRooms, path)
                             && forall w :: Qualifies(rooms, startId, endId, minRooms, w) ==> |path| <= |w|
      ensures path == [] ==> forall w :: !Qualifies(rooms, startId, endId, minRooms, w)
    {
      var q: seq<seq<int>> := [[startId]];
      ghost var popped: set<seq<int>> := {};
      SearchStart(rooms, startId, endId, minRooms);
      while q != []
        invariant PathQueue(rooms, startId, q) && Covered(rooms, startId, endId, minRooms, q, popped)
        decreases Weight(rooms, q)
      {
        var p := q[0];
        var curr := p[|p| - 1];
        if curr == endId && |p| >= SizeT(minRooms) {
          FoundFirst(rooms, startId, endId, minRooms, q, popped);
          return p;
        }
        ghost var q0 := q;
        q := PushExtensions(rooms, p, q[1..]);
        RoundOrdered(rooms, startId, q0, q);
        RoundCovers(rooms, startId, endId, minRooms, q0, popped, q);
        RoundWeight(rooms, q0, q);
        popped := popped + {p};
      }
      SearchExhausted(rooms, startId, endId, minRooms, popped);
      return [];
    }
  }

  /** The demonstration route: in the hand-drawn maze the route findPath
      gives from the entrance to the exit, with the default of at least
      three rooms, passes through four rooms. */
  method EntranceToExit() returns (route: seq<int>)
    ensures |route| == 4 && WalkBetween(RoomAdj(TableRooms), route, 0, 13) && NoRepeat(route)
  {
    var maze := new MondrianMaze();
    TableWellLinked();
    route := maze.FindPath(maze.GetEntranceId(), maze.GetExitId(), 3);
    TableRoute();
  }

  /** The four-room route qualifies for findPath with at least three rooms
      and no shorter route does. */
  lemma TableRoute()
    ensures Qualifies(TableRooms, 0, 13, 3, [0, 1, 9, 13])
    ensures forall w :: Qualifies(TableRooms, 0, 13, 3, w) ==> |w| >= 4
  {
    TopRightRoute();
    TableShortest();
  }
}
