/** findAllPathsLimited of the Mondrian maze: a breadth-first search finds
    how many steps a shortest route from one room to another takes, then a
    depth-first search appends the simple routes of exactly that length to
    the caller's list, until the list holds `maxPaths` routes. */
module MondrianPaths {
  import opened Walks
  import opened Rooms
  import opened Mondrian

  // ---------------------------------------------------------------------
  // The length of a shortest route

  /** The queue of pairs holds each queued room with its label. */
  ghost predicate Paired(q: seq<(int, int)>, ids: seq<int>, dist: map<int, nat>) {
    && |q| == |ids|
    && forall i :: 0 <= i < |q| ==> ids[i] in dist && q[i] == (ids[i], dist[ids[i]])
  }

  /** A shortest route from `s` to `t` has `n` rooms. */
  ghost predicate ShortestIs(adj: int -> seq<int>, s: int, t: int, n: int) {
    && (exists w :: WalkBetween(adj, w, s, t) && |w| == n)
    && forall w :: WalkBetween(adj, w, s, t) ==> n <= |w|
  }

  /** Following parents back from a labelled room gives a route from the
      start with one room per label. */
  lemma {:induction false} ParentWalk(adj: int -> seq<int>, s: int, d: map<int, nat>, parent: map<int, int>, x: int)
    returns (w: seq<int>)
    requires RoomParents(adj, s, d, parent) && s in d && d[s] == 0 && x in d
    ensures WalkBetween(adj, w, s, x) && |w| == d[x] + 1
    decreases d[x]
  {
    if x == s {
      w := [s];
    } else {
      ParentOf(adj, s, d, parent, x);
      var w' := ParentWalk(adj, s, d, parent, parent[x]);
      WalkExtend(adj, w', x);
      w := w' + [x];
    }
  }

  /** When the target reaches the head of the queue, its label plus one is
      the length of a shortest route to it. */
  lemma FoundLength(rooms: seq<Room>, s: int, t: int, done: set<int>, queue: seq<int>, d: map<int, nat>,
                    parent: map<int, int>, len: int)
    requires RoomBfsState(rooms, s, t, done, queue, d, d.Keys, parent) && queue != [] && queue[0] == t
    requires t in d && len == d[t]
    ensures len >= 0 && ShortestIs(RoomAdj(rooms), s, t, len + 1)
  {
    BfsShortest(RoomAdj(rooms), s, t, done, queue, d);
    var w := ParentWalk(RoomAdj(rooms), s, d, parent, t);
  }

  /** The first half of findAllPathsLimited: -1 when `end` cannot be
      reached from `start`, otherwise the number of steps of a shortest
      route, that is, one less than its number of rooms. */
  method ShortestLength(rooms: seq<Room>, start: int, end: int) returns (minLen: int)
    requires WellLinked(rooms) && 0 <= start < |rooms|
    ensures minLen == -1 <==> !Reachable(RoomAdj(rooms), start, end)
    ensures minLen != -1 ==> minLen >= 0 && ShortestIs(RoomAdj(rooms), start, end, minLen + 1)
  {
    var q: seq<(int, int)> := [(start, 0)];
    var dist: map<int, nat> := map[start := 0];
    minLen := -1;
    ghost var ids := [start];
    ghost var done: set<int> := {};
    ghost var parent: map<int, int> := map[start := -1];
    RoomBfsStart(rooms, start, end);
    while q != []
      invariant RoomBfsState(rooms, start, end, done, ids, dist, dist.Keys, parent)
      invariant Paired(q, ids, dist) && minLen == -1
      decreases |Ids(|rooms|) - done|
    {
      PairedPop(q, ids, dist);
      var (u, d) := q[0];
      q := q[1..];
      if u == end {
        minLen := d;
        FoundLength(rooms, start, end, done, ids, dist, parent, minLen);
        return;
      }
      ghost var ids0, dist0, parent0 := ids, dist, parent;
      ghost var added;
      q, dist, ids, parent, added := LabelNeighbours(rooms, start, u, q, dist, ids[1..], parent);
      RoomBfsRound(rooms, start, end, done, ids0, dist0, dist0.Keys, parent0, added, dist, ids, dist.Keys, parent);
      done := done + {u};
    }
    LayeredExhausted(RoomAdj(rooms), start, done, dist, end);
  }

  /** The neighbour loop of the first half: every unlabelled neighbour of
      `u` is labelled one more than `u` and queued with its label. */
  method LabelNeighbours(rooms: seq<Room>, ghost s: int, u: int, q: seq<(int, int)>, dist: map<int, nat>,
                         ghost ids: seq<int>, ghost parent: map<int, int>)
    returns (q': seq<(int, int)>, dist': map<int, nat>, ghost ids': seq<int>, ghost parent': map<int, int>,
             ghost added: seq<int>)
    requires WellLinked(rooms) && u in dist && s in dist
    requires OnRooms(rooms, dist) && RoomParents(RoomAdj(rooms), s, dist, parent) && Paired(q, ids, dist)
    ensures RoomExpansion(rooms, s, u, dist, ids, added, dist', ids', dist'.Keys, parent')
    ensures AllLabelled(RoomAdj(rooms), u, dist')
    ensures Paired(q', ids', dist')
  {
    var neighbours := rooms[u].neighbors;
    q', dist' := q, dist;
    ids', parent', added := ids, parent, [];
    RoomExpansionStart(rooms, s, u, dist, ids, dist.Keys, parent);
    for i := 0 to |neighbours|
      invariant RoomExpansion(rooms, s, u, dist, ids, added, dist', ids', dist'.Keys, parent')
      invariant Paired(q', ids', dist')
      invariant forall v :: v in neighbours[..i] ==> v in dist'
    {
      var nb := neighbours[i];
      if nb !in dist' {
        RoomExpansionAdd(rooms, s, u, dist, ids, added, dist', ids', dist'.Keys, parent', nb);
        PairedAdd(q', ids', dist', nb, dist[u] + 1);
        dist' := dist'[nb := dist[u] + 1];
        q' := q' + [(nb, dist[u] + 1)];
        ids' := ids' + [nb];
        parent' := parent'[nb := u];
        added := added + [nb];
      }
      assert neighbours[..i + 1] == neighbours[..i] + [nb];
    }
    assert neighbours[..|neighbours|] == neighbours;
  }

  /** Taking the head pair off the queue: it holds the head room and its
      label, and the rest stay in step. */
  lemma PairedPop(q: seq<(int, int)>, ids: seq<int>, dist: map<int, nat>)
    requires Paired(q, ids, dist) && q != []
    ensures ids[0] in dist && q[0] == (ids[0], dist[ids[0]]) && Paired(q[1..], ids[1..], dist)
  {
    forall i | 0 <= i < |q| - 1 ensures ids[1..][i] in dist && q[1..][i] == (ids[1..][i], dist[ids[1..][i]]) {
      assert q[1..][i] == q[i + 1] && ids[1..][i] == ids[i + 1];
    }
  }

  /** Labelling and queueing one more room keeps the pairs in step. */
  lemma PairedAdd(q: seq<(int, int)>, ids: seq<int>, dist: map<int, nat>, v: int, n: nat)
    requires Paired(q, ids, dist) && v !in dist
    ensures Paired(q + [(v, n)], ids + [v], dist[v := n])
  {
  }

  // ---------------------------------------------------------------------
  // Enumerating the routes of that length

  /** `e` is a route of `len` rooms from `u` to `t` that repeats no room
      and avoids `visited`. */
  ghost predicate Extension(adj: int -> seq<int>, e: seq<int>, u: int, t: int, visited: set<int>, len: int) {
    && |e| == len && len >= 1
    && WalkBetween(adj, e, u, t)
    && NoRepeat(e)
    && forall x :: x in e ==> x !in visited
  }

  /** `q` is `path` followed by such a route. */
  ghost predicate Extends(adj: int -> seq<int>, q: seq<int>, path: seq<int>, u: int, t: int, visited: set<int>, len: int) {
    && len >= 1 && |q| == |path| + len
    && q[..|path|] == path
    && Extension(adj, q[|path|..], u, t, visited, len)
  }

  /** Every entry of `all` from index `from` on is `path` followed by such
      a route. */
  ghost predicate AllExtend(adj: int -> seq<int>, all: seq<seq<int>>, from: nat, path: seq<int>, u: int, t: int,
                            visited: set<int>, len: int) {
    forall k :: from <= k < |all| ==> Extends(adj, all[k], path, u, t, visited, len)
  }

  /** `all'` keeps `all` as its prefix. */
  predicate Appends(all: seq<seq<int>>, all': seq<seq<int>>) {
    |all| <= |all'| && all'[..|all|] == all
  }

  /** No route of `len` rooms leads from `nb` to `t` avoiding `visited`. */
  ghost predicate NoExtension(adj: int -> seq<int>, nb: int, t: int, visited: set<int>, len: int) {
    forall e :: !Extension(adj, e, nb, t, visited, len)
  }

  /** The neighbour loop of the search at `u` after the neighbours `done`:
      the entries appended since `all0` continue `path` through `u`, each
      once, with their room after `u` in `done`; and unless the list is
      full, every such continuation whose room after `u` is in `done` is
      among them. */
  ghost predicate DfsProgress(adj: int -> seq<int>, all0: seq<seq<int>>, all: seq<seq<int>>, path: seq<int>, u: int,
                              t: int, visited: set<int>, len: int, maxPaths: int, done: seq<int>) {
    && Appends(all0, all)
    && AllExtend(adj, all, |all0|, path, u, t, visited, len)
    && (forall k :: |all0| <= k < |all| ==> |all[k]| > |path| + 1 && all[k][|path| + 1] in done)
    && NoRepeat(all[|all0|..])
    && (|all| < maxPaths ==>
          forall e :: Extension(adj, e, u, t, visited, len) && |e| > 1 && e[1] in done ==> path + e in all[|all0|..])
  }

  /** The recursive search of findAllPathsLimited: with `path` the rooms
      above `u` and `visited` their set, it appends to the list the
      continuations of `path` through `u` that reach `end` after exactly
      `minLen` steps from the start without repeating a room, each once, in
      the order the neighbour lists give, and stops as soon as the list
      holds `maxPaths` routes; unless it stops so, it appends every one of
      them. The push and pop on the shared path and visited set are
      modelled by passing them by value. */
  method LimitedDfs(rooms: seq<Room>, end: int, minLen: int, maxPaths: int, u: int, depth: int,
                    path: seq<int>, visited: set<int>, allPaths: seq<seq<int>>) returns (allPaths': seq<seq<int>>)
    requires WellLinked(rooms) && 0 <= u < |rooms| && u !in visited && 0 <= depth <= minLen
    ensures Appends(allPaths, allPaths')
    ensures AllExtend(RoomAdj(rooms), allPaths', |allPaths|, path, u, end, visited, minLen - depth + 1)
    ensures NoRepeat(allPaths'[|allPaths|..])
    ensures |allPaths| >= maxPaths ==> allPaths' == allPaths
    ensures |allPaths| < maxPaths ==> |allPaths'| <= maxPaths
    ensures |allPaths'| < maxPaths ==>
              forall e :: Extension(RoomAdj(rooms), e, u, end, visited, minLen - depth + 1) ==>
                path + e in allPaths'[|allPaths|..]
    ensures |allPaths| < maxPaths && !NoExtension(RoomAdj(rooms), u, end, visited, minLen - depth + 1)
            ==> |allPaths'| > |allPaths|
    decreases minLen - depth
  {
    if |allPaths| >= maxPaths {
      return allPaths;
    }
    var p := path + [u];
    var vis := visited + {u};
    allPaths' := allPaths;
    if u == end && depth == minLen {
      allPaths' := allPaths + [p];
      FoundHere(RoomAdj(rooms), allPaths, path, u, visited);
    } else if depth < minLen {
      var neighbours := rooms[u].neighbors;
      DfsStart(RoomAdj(rooms), allPaths, path, u, end, visited, minLen - depth + 1, maxPaths);
      for i := 0 to |neighbours|
        invariant |allPaths'| <= maxPaths
        invariant DfsProgress(RoomAdj(rooms), allPaths, allPaths', path, u, end, visited, minLen - depth + 1, maxPaths,
                              neighbours[..i])
      {
        var nb := neighbours[i];
        NotTaken(neighbours, i);
        if nb !in vis {
          assert nb in rooms[u].neighbors;
          ghost var before := allPaths';
          allPaths' := LimitedDfs(rooms, end, minLen, maxPaths, nb, depth + 1, p, vis, allPaths');
          DescendStep(rooms, allPaths, before, allPaths', path, u, nb, end, visited, minLen - depth, maxPaths,
                      neighbours[..i]);
        } else {
          SkipStep(RoomAdj(rooms), allPaths, allPaths', path, u, nb, end, visited, minLen - depth + 1, maxPaths,
                   neighbours[..i]);
        }
        TakeOneMore(neighbours, i);
      }
      TakeAll(neighbours);
      DfsFinish(rooms, allPaths, allPaths', path, u, end, visited, minLen - depth + 1, maxPaths);
    } else {
      NotHere(RoomAdj(rooms), u, end, visited);
    }
  }

  /** The route that ends where it starts, at the target: it is the only
      one of one room. */
  lemma FoundHere(adj: int -> seq<int>, all: seq<seq<int>>, path: seq<int>, u: int, visited: set<int>)
    requires u !in visited
    ensures Appends(all, all + [path + [u]])
    ensures AllExtend(adj, all + [path + [u]], |all|, path, u, u, visited, 1)
    ensures NoRepeat((all + [path + [u]])[|all|..])
    ensures forall e :: Extension(adj, e, u, u, visited, 1) ==> path + e in (all + [path + [u]])[|all|..]
  {
    var q := path + [u];
    assert (all + [q])[..|all|] == all;
    assert (all + [q])[|all|..] == [q];
    assert q[..|path|] == path && q[|path|..] == [u];
    forall e | Extension(adj, e, u, u, visited, 1) ensures path + e in [q] {
      assert e == [u];
    }
  }

  /** A one-room route from `u` only reaches `u` itself. */
  lemma NotHere(adj: int -> seq<int>, u: int, t: int, visited: set<int>)
    requires u != t
    ensures NoExtension(adj, u, t, visited, 1)
  {
  }

  /** Before the first neighbour nothing is appended. */
  lemma DfsStart(adj: int -> seq<int>, all: seq<seq<int>>, path: seq<int>, u: int, t: int, visited: set<int>,
                 len: int, maxPaths: int)
    ensures DfsProgress(adj, all, all, path, u, t, visited, len, maxPaths, [])
  {
    assert all[..|all|] == all;
  }

  /** What one recursive call at the unvisited neighbour `nb` contributes:
      its routes continue `path` through `u` and `nb`, so they differ from
      those of earlier neighbours, and unless the list is full they are
      every continuation through `nb`. */
  lemma DescendStep(rooms: seq<Room>, all: seq<seq<int>>, before: seq<seq<int>>, after: seq<seq<int>>,
                    path: seq<int>, u: int, nb: int, t: int, visited: set<int>, len: int, maxPaths: int,
                    done: seq<int>)
    requires WellLinked(rooms) && 0 <= u < |rooms| && nb in rooms[u].neighbors && u !in visited && nb !in visited + {u}
    requires nb !in done
    requires DfsProgress(RoomAdj(rooms), all, before, path, u, t, visited, len + 1, maxPaths, done)
    requires Appends(before, after) && NoRepeat(after[|before|..])
    requires AllExtend(RoomAdj(rooms), after, |before|, path + [u], nb, t, visited + {u}, len)
    requires |after| < maxPaths ==>
               forall e :: Extension(RoomAdj(rooms), e, nb, t, visited + {u}, len) ==> (path + [u]) + e in after[|before|..]
    ensures DfsProgress(RoomAdj(rooms), all, after, path, u, t, visited, len + 1, maxPaths, done + [nb])
  {
    ghost var adj := RoomAdj(rooms);
    GrowTwice(all, before, after);
    forall k | |all| <= k < |after|
      ensures Extends(adj, after[k], path, u, t, visited, len + 1)
      ensures |after[k]| > |path| + 1 && after[k][|path| + 1] in done + [nb]
    {
      if k < |before| {
        KeptAt(before, after, k);
      } else {
        Lift(adj, after[k], path, u, nb, t, visited, len);
      }
    }
    NewDistinct(path, all, before, after, done, nb);
    if |after| < maxPaths {
      forall e | Extension(adj, e, u, t, visited, len + 1) && |e| > 1 && e[1] in done + [nb]
        ensures path + e in after[|all|..]
      {
        if e[1] !in done {
          ExtensionTail(adj, e, u, t, visited, len + 1);
          Reassemble(path, e);
        }
      }
    }
  }

  /** A continuation of `path + [u]` through a neighbour `nb` of `u` is a
      continuation of `path` through `u`, with `nb` after `u`. */
  lemma Lift(adj: int -> seq<int>, q: seq<int>, path: seq<int>, u: int, nb: int, t: int, visited: set<int>, len: int)
    requires nb in adj(u) && u !in visited
    requires Extends(adj, q, path + [u], nb, t, visited + {u}, len)
    ensures Extends(adj, q, path, u, t, visited, len + 1)
    ensures |q| > |path| + 1 && q[|path| + 1] == nb
  {
    var e := q[|path| + 1..];
    assert q[|path|..] == [u] + e;
    assert q[..|path|] == q[..|path| + 1][..|path|];
    WalkPrepend(adj, u, e);
  }

  /** A neighbour already on the path, or `u` itself, is never the second
      room of a route from `u` that avoids `visited` and repeats no room. */
  lemma SkipStep(adj: int -> seq<int>, all0: seq<seq<int>>, all: seq<seq<int>>, path: seq<int>, u: int, nb: int,
                 t: int, visited: set<int>, len: int, maxPaths: int, done: seq<int>)
    requires nb in visited + {u}
    requires DfsProgress(adj, all0, all, path, u, t, visited, len, maxPaths, done)
    ensures DfsProgress(adj, all0, all, path, u, t, visited, len, maxPaths, done + [nb])
  {
    forall e | Extension(adj, e, u, t, visited, len) && |e| > 1 ensures e[1] != nb {
      assert e[1] in e && e[0] != e[1];
    }
  }

  /** Without its first room, a route of `len` rooms from `u` is one of
      `len - 1` rooms from its second room, a neighbour of `u`, that also
      avoids `u`. */
  lemma ExtensionTail(adj: int -> seq<int>, e: seq<int>, u: int, t: int, visited: set<int>, len: int)
    requires Extension(adj, e, u, t, visited, len) && len >= 2
    ensures e[1] in adj(u) && Extension(adj, e[1..], e[1], t, visited + {u}, len - 1)
  {
    assert e[0] == u;
    forall x | x in e[1..] ensures x != u {
      var j :| 0 <= j < |e[1..]| && e[1..][j] == x;
      assert x == e[j + 1] && e[0] != e[j + 1];
    }
    WalkSuffix(adj, e, 1);
  }

  /** After every neighbour of `u`: a route of two rooms or more from `u`
      goes on to a neighbour, so, unless the list is full, every route from
      `u` is listed, and when there is one, something was appended. */
  lemma DfsFinish(rooms: seq<Room>, all0: seq<seq<int>>, all: seq<seq<int>>, path: seq<int>, u: int, t: int,
                  visited: set<int>, len: int, maxPaths: int)
    requires 0 <= u < |rooms| && len >= 2
    requires DfsProgress(RoomAdj(rooms), all0, all, path, u, t, visited, len, maxPaths, rooms[u].neighbors)
    ensures |all| < maxPaths ==>
              forall e :: Extension(RoomAdj(rooms), e, u, t, visited, len) ==> path + e in all[|all0|..]
    ensures |all0| < maxPaths && !NoExtension(RoomAdj(rooms), u, t, visited, len) ==> |all| > |all0|
  {
    forall e | Extension(RoomAdj(rooms), e, u, t, visited, len) ensures e[1] in rooms[u].neighbors {
      assert e[1] in RoomAdj(rooms)(e[0]);
    }
    if |all0| < maxPaths && !NoExtension(RoomAdj(rooms), u, t, visited, len) {
      var e :| Extension(RoomAdj(rooms), e, u, t, visited, len);
      if |all| < maxPaths {
        assert path + e in all[|all0|..];
      }
    }
  }

  /** findAllPathsLimited: appends to `allPaths` the shortest routes from
      `start` to `end`, each once, stopping once the list holds `maxPaths`
      routes; unless it stops so, every shortest route is appended. Nothing
      is appended when `end` cannot be reached or the list is already full;
      otherwise at least one route is. `maxLength` is not used. */
  method FindAllPathsLimited(maze: MondrianMaze, start: int, end: int, maxPaths: int, maxLength: int,
                             allPaths: seq<seq<int>>) returns (allPaths': seq<seq<int>>)
    requires WellLinked(maze.rooms) && 0 <= start < |maze.rooms|
    ensures Appends(allPaths, allPaths')
    ensures forall k :: |allPaths| <= k < |allPaths'| ==>
              && WalkBetween(RoomAdj(maze.rooms), allPaths'[k], start, end)
              && NoRepeat(allPaths'[k])
              && forall w :: WalkBetween(RoomAdj(maze.rooms), w, start, end) ==> |allPaths'[k]| <= |w|
    ensures NoRepeat(allPaths'[|allPaths|..])
    ensures !Reachable(RoomAdj(maze.rooms), start, end) || |allPaths| >= maxPaths ==> allPaths' == allPaths
    ensures |allPaths| < maxPaths ==> |allPaths'| <= maxPaths
    ensures |allPaths| < maxPaths && Reachable(RoomAdj(maze.rooms), start, end) ==> |allPaths'| > |allPaths|
    ensures |allPaths'| < maxPaths ==>
              forall w :: WalkBetween(RoomAdj(maze.rooms), w, start, end)
                          && (forall w' :: WalkBetween(RoomAdj(maze.rooms), w', start, end) ==> |w| <= |w'|)
                          ==> w in allPaths'[|allPaths|..]
  {
    var rooms := maze.GetRooms();
    var minLen := ShortestLength(rooms, start, end);
    if minLen == -1 {
      return allPaths;
    }
    allPaths' := LimitedDfs(rooms, end, minLen, maxPaths, start, 0, [], {}, allPaths);
    TopLevel(RoomAdj(rooms), allPaths, allPaths', start, end, minLen + 1);
    if |allPaths'| < maxPaths {
      TopComplete(RoomAdj(rooms), allPaths'[|allPaths|..], start, end, minLen + 1);
    }
  }

  /** From the search's contract to the caller's terms: a continuation of
      the empty path of a shortest length is a shortest simple route, and
      a shortest route is one such continuation. */
  lemma TopLevel(adj: int -> seq<int>, all: seq<seq<int>>, all': seq<seq<int>>, s: int, t: int, n: int)
    requires ShortestIs(adj, s, t, n) && AllExtend(adj, all', |all|, [], s, t, {}, n)
    ensures forall k :: |all| <= k < |all'| ==>
              && WalkBetween(adj, all'[k], s, t) && NoRepeat(all'[k])
              && forall w :: WalkBetween(adj, w, s, t) ==> |all'[k]| <= |w|
    ensures !NoExtension(adj, s, t, {}, n)
  {
    forall k | |all| <= k < |all'|
      ensures WalkBetween(adj, all'[k], s, t) && NoRepeat(all'[k])
    {
      assert all'[k][0..] == all'[k];
    }
    var w :| WalkBetween(adj, w, s, t) && |w| == n;
    ShortestNoRepeat(adj, w, s, t);
    assert Extension(adj, w, s, t, {}, n);
  }

  /** When every continuation of the empty path of a shortest length is
      listed, so is every shortest route. */
  lemma TopComplete(adj: int -> seq<int>, listed: seq<seq<int>>, s: int, t: int, n: int)
    requires ShortestIs(adj, s, t, n)
    requires forall e :: Extension(adj, e, s, t, {}, n) ==> [] + e in listed
    ensures forall w :: WalkBetween(adj, w, s, t) && (forall w' :: WalkBetween(adj, w', s, t) ==> |w| <= |w'|)
                        ==> w in listed
  {
    forall w | WalkBetween(adj, w, s, t) && (forall w' :: WalkBetween(adj, w', s, t) ==> |w| <= |w'|)
      ensures w in listed
    {
      ShortestExtension(adj, w, s, t, n);
      assert [] + w == w;
    }
  }

  /** A shortest route has the shortest length and repeats no room. */
  lemma ShortestExtension(adj: int -> seq<int>, w: seq<int>, s: int, t: int, n: int)
    requires ShortestIs(adj, s, t, n) && WalkBetween(adj, w, s, t)
    requires forall w' :: WalkBetween(adj, w', s, t) ==> |w| <= |w'|
    ensures Extension(adj, w, s, t, {}, n)
  {
    ShortestNoRepeat(adj, w, s, t);
  }
}
