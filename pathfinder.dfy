/** The path searches of pathfinder.h / pathfinder.cpp over a rectangular
    maze: recursive depth-first search, breadth-first search with a parent
    map, A* with a lazily cleaned closed list, and the bounded enumeration of
    simple paths. Every search only reads the maze (no `modifies` clause):
    it asks for the entrance, the exit, the size and the accessible
    neighbours of a cell. A step of a search is a step of the graph
    `OpenAdj(grid)`: from a cell to one of its accessible neighbours. */
module PathFinder {
  import opened MazeTypes
  import opened MazeGrid
  import opened Walks

  /** SearchResult without its timing and algorithm name. */
  datatype SearchResult = SearchResult(found: bool, path: seq<Point>, steps: int, visitedNodes: int)

  /** `SearchResult()`: nothing found, no steps, nothing visited. */
  const NoResult := SearchResult(false, [], 0, 0)

  /** `w` is a walk from `s` to `t` that repeats no cell and uses only cells
      of `F`. */
  ghost predicate FreshWalk(adj: Point -> seq<Point>, w: seq<Point>, s: Point, t: Point, F: set<Point>) {
    WalkBetween(adj, w, s, t) && NoRepeat(w) && forall i :: 0 <= i < |w| ==> w[i] in F
  }

  /** The cells a failed search marked (`after - before`) do not hold the
      target and have all their neighbours marked. */
  ghost predicate DeadEnd(adj: Point -> seq<Point>, before: set<Point>, after: set<Point>, target: Point) {
    && target !in after - before
    && forall u, v :: u in after - before && v in adj(u) ==> v in after
  }

  /** Marking more cells, at least one of them new and on the grid, leaves
      fewer unmarked cells. */
  lemma FewerUnmarked(rows: nat, cols: nat, A: set<Point>, B: set<Point>, p: Point)
    requires A <= B && p in B && p !in A && InBounds(rows, cols, p)
    ensures |AllCells(rows, cols) - B| < |AllCells(rows, cols) - A|
  {
    AllCellsMembers(rows, cols, p);
    var C := AllCells(rows, cols);
    assert C - B <= (C - A) - {p};
    SubsetCard(C - B, (C - A) - {p});
  }

  /** Putting a freshly marked cell in front of a fresh walk that starts at
      one of its neighbours. */
  lemma FreshPrepend(adj: Point -> seq<Point>, u: Point, w: seq<Point>, t: Point, F: set<Point>, G: set<Point>)
    requires |w| > 0 && FreshWalk(adj, w, w[0], t, F) && w[0] in adj(u) && u !in F
    requires F <= G && u in G
    ensures FreshWalk(adj, [u] + w, u, t, G)
  {
    WalkPrepend(adj, u, w);
    var w' := [u] + w;
    forall i, j | 0 <= i < j < |w'| ensures w'[i] != w'[j] {
      if i == 0 { assert w'[j] == w[j - 1]; }
      else { assert w'[i] == w[i - 1] && w'[j] == w[j - 1]; }
    }
    forall i | 0 <= i < |w'| ensures w'[i] in G {
      if i > 0 { assert w'[i] == w[i - 1]; }
    }
  }

  // ---------------------------------------------------------------------
  // Depth-first search

  /** findPathDFS: found exactly when the exit can be reached from the
      entrance; a found path runs from the entrance to the exit through
      accessible steps without repeating a cell, and `steps` counts its
      edges; otherwise the path is empty and `steps` is 0. `visitedNodes`
      counts the distinct cells marked, at least the entrance and at most
      every cell. */
  method FindPathDFS(m: Maze) returns (result: SearchResult)
    requires m.Valid() && m.rows > 0 && m.cols > 0
    ensures result.found <==> Reachable(OpenAdj(m.grid, m.rows, m.cols), m.entrance, m.exit)
    ensures result.found ==>
      WalkBetween(OpenAdj(m.grid, m.rows, m.cols), result.path, m.entrance, m.exit)
      && NoRepeat(result.path) && result.steps == |result.path| - 1
    ensures !result.found ==> result.path == [] && result.steps == 0
    ensures 1 <= result.visitedNodes <= m.rows * m.cols
  {
    ghost var adj := OpenAdj(m.grid, m.rows, m.cols);
    var visited := Unvisited(m.rows, m.cols);
    var found, path, visited', visitedCount := DfsHelper(m, m.entrance, m.exit, [], visited, 0);
    MarkedInGrid(visited', m.rows, m.cols);
    assert Marked(visited') - Marked(visited) == Marked(visited');
    if found {
      assert path[0..] == path;
      assert Reachable(adj, m.entrance, m.exit);
    } else {
      assert ClosedUnder(adj, Marked(visited'));
      ClosedSetBlocks(adj, Marked(visited'), m.entrance, m.exit);
    }
    result := SearchResult(found, path, if found then |path| - 1 else 0, visitedCount);
  }

  /** dfsHelper: marks `current`, counts it and appends it to `path`. On
      success `path` has been extended by a fresh walk from `current` to
      the target; on failure `path` is back as it was and the cells this
      call marked form a dead end. Either way the count grows by the number
      of cells newly marked. */
  method DfsHelper(m: Maze, current: Point, target: Point, path: seq<Point>,
                   visited: seq<seq<bool>>, visitedCount: int)
    returns (found: bool, path': seq<Point>, visited': seq<seq<bool>>, visitedCount': int)
    requires m.Valid() && InBounds(m.rows, m.cols, current)
    requires Shaped(visited, m.rows, m.cols) && current !in Marked(visited)
    ensures Shaped(visited', m.rows, m.cols)
    ensures Marked(visited) + {current} <= Marked(visited')
    ensures visitedCount' == visitedCount + |Marked(visited') - Marked(visited)|
    ensures found ==> (|path'| > |path| && path'[..|path|] == path
      && FreshWalk(OpenAdj(m.grid, m.rows, m.cols), path'[|path|..], current, target, Marked(visited') - Marked(visited)))
    ensures !found ==> (path' == path
      && DeadEnd(OpenAdj(m.grid, m.rows, m.cols), Marked(visited), Marked(visited'), target))
    decreases |AllCells(m.rows, m.cols) - Marked(visited)|, 0
  {
    ghost var adj := OpenAdj(m.grid, m.rows, m.cols);
    ghost var M := Marked(visited);
    visited' := Mark(visited, m.rows, m.cols, current);
    visitedCount' := visitedCount + 1;
    path' := path + [current];
    assert Marked(visited') - M == {current};
    if current == target {
      found := true;
      assert path'[|path|..] == [current];
      assert WalkBetween(adj, [current], current, target);
      return;
    }
    var neighbours := m.GetAccessibleNeighbors(current);
    for i := 0 to |neighbours|
      invariant DfsProgress(adj, m.rows, m.cols, visited', M, current, target, visitedCount, visitedCount')
      invariant path' == path + [current]
      invariant forall v :: v in neighbours[..i] ==> v in Marked(visited')
    {
      AccessibleOnGrid(m.grid, m.rows, m.cols, current, neighbours[i]);
      FewerUnmarked(m.rows, m.cols, M, Marked(visited'), current);
      found, path', visited', visitedCount' :=
        DfsNeighbour(m, current, neighbours[i], target, path', visited', visitedCount', path, M, visitedCount);
      if found {
        return;
      }
      TakeOneMore(neighbours, i);
    }
    TakeAll(neighbours);
    path' := path;
    found := false;
    assert forall v :: v in adj(current) ==> v in Marked(visited');
  }

  /** The state of dfsHelper's neighbour loop at `current`, the call having
      begun with the cells `M` marked and the count at `count0`: the cells
      marked since include `current`, are counted, exclude the target, and
      all but `current` have every neighbour marked. */
  ghost predicate DfsProgress(adj: Point -> seq<Point>, rows: nat, cols: nat, visited: seq<seq<bool>>,
                              M: set<Point>, current: Point, target: Point, count0: int, count: int) {
    && Shaped(visited, rows, cols)
    && current !in M && M + {current} <= Marked(visited)
    && count == count0 + |Marked(visited) - M|
    && target !in Marked(visited) - M
    && ClosedExcept(adj, M, Marked(visited), current)
  }

  /** One neighbour in dfsHelper's loop: an unmarked neighbour is searched
      from by a nested call, and a success there is a success at `current`
      (`path0` and `M` are the path and the marks when the search at
      `current` began). A marked neighbour changes nothing. */
  method DfsNeighbour(m: Maze, current: Point, neighbour: Point, target: Point, path: seq<Point>,
                      visited: seq<seq<bool>>, visitedCount: int,
                      ghost path0: seq<Point>, ghost M: set<Point>, ghost count0: int)
    returns (found: bool, path': seq<Point>, visited': seq<seq<bool>>, visitedCount': int)
    requires m.Valid() && InBounds(m.rows, m.cols, current) && InBounds(m.rows, m.cols, neighbour)
    requires neighbour in OpenAdj(m.grid, m.rows, m.cols)(current) && path == path0 + [current]
    requires DfsProgress(OpenAdj(m.grid, m.rows, m.cols), m.rows, m.cols, visited, M, current, target, count0, visitedCount)
    ensures Shaped(visited', m.rows, m.cols) && Marked(visited) <= Marked(visited')
    ensures visitedCount' == count0 + |Marked(visited') - M|
    ensures found ==> (|path'| > |path0| && path'[..|path0|] == path0
      && FreshWalk(OpenAdj(m.grid, m.rows, m.cols), path'[|path0|..], current, target, Marked(visited') - M))
    ensures !found ==> (path' == path && neighbour in Marked(visited')
      && DfsProgress(OpenAdj(m.grid, m.rows, m.cols), m.rows, m.cols, visited', M, current, target, count0, visitedCount'))
    decreases |AllCells(m.rows, m.cols) - Marked(visited)|, 1
  {
    ghost var adj := OpenAdj(m.grid, m.rows, m.cols);
    found, path', visited', visitedCount' := false, path, visited, visitedCount;
    MarkedMembers(visited, neighbour);
    if !visited[neighbour.x][neighbour.y] {
      var f;
      f, path', visited', visitedCount' := DfsHelper(m, neighbour, target, path, visited, visitedCount);
      CountSplit(M, Marked(visited), Marked(visited'));
      if f {
        found := true;
        Regroup(path0, current, path');
        FreshPrepend(adj, current, path'[|path|..], target, Marked(visited') - Marked(visited), Marked(visited') - M);
        return;
      }
      ClosedJoin(adj, M, Marked(visited), Marked(visited'), current, target);
    }
  }

  /** Every cell marked since `before`, except `c`, has all its neighbours
      marked. */
  ghost predicate ClosedExcept(adj: Point -> seq<Point>, before: set<Point>, after: set<Point>, c: Point) {
    forall u, v :: u in after - before && u != c && v in adj(u) ==> v in after
  }

  /** A failed nested call adds a dead end to what is already closed. */
  lemma ClosedJoin(adj: Point -> seq<Point>, A: set<Point>, B: set<Point>, C: set<Point>, c: Point, target: Point)
    requires A <= B <= C && ClosedExcept(adj, A, B, c) && DeadEnd(adj, B, C, target)
    ensures ClosedExcept(adj, A, C, c)
  {
  }

  /** An accessible neighbour lies on the grid. */
  lemma AccessibleOnGrid(g: Grid, rows: nat, cols: nat, p: Point, q: Point)
    requires q in Accessible(g, rows, cols, p)
    ensures InBounds(rows, cols, q)
  {
    AccessibleSpec(g, rows, cols, p);
  }

  /** A path that extends `path + [u]` is `path` followed by `u` and the
      rest. */
  lemma Regroup(path: seq<Point>, u: Point, p: seq<Point>)
    requires |p| > |path| + 1 && p[..|path| + 1] == path + [u]
    ensures p[..|path|] == path && p[|path|..] == [u] + p[|path| + 1..]
  {
    assert p[..|path|] == p[..|path| + 1][..|path|];
    assert p[|path|..] == [p[|path|]] + p[|path| + 1..];
  }


  /** Counting the marks of two nested calls. */
  lemma CountSplit(A: set<Point>, B: set<Point>, C: set<Point>)
    requires A <= B <= C
    ensures |C - A| == |B - A| + |C - B|
  {
    assert C - A == (B - A) + (C - B);
    assert (B - A) !! (C - B);
  }

  // ---------------------------------------------------------------------
  // Breadth-first search

  /** Every labelled cell other than `s` has a parent: a labelled cell one
      label lower that lists it as an accessible neighbour. */
  ghost predicate ParentsOk(adj: Point -> seq<Point>, s: Point, d: map<Point, nat>, parent: map<Point, Point>) {
    forall v :: v in d && v != s ==>
      v in parent && parent[v] in d && v in adj(parent[v]) && d[v] == d[parent[v]] + 1
  }

  /** The visited matrix marks exactly the labelled cells, all on the grid,
      and the count is their number. */
  ghost predicate MarksLabelled(visited: seq<seq<bool>>, rows: nat, cols: nat, d: map<Point, nat>, count: int) {
    && Shaped(visited, rows, cols)
    && Marked(visited) == d.Keys
    && d.Keys <= AllCells(rows, cols)
    && count == |d.Keys|
  }

  /** The state findPathBFS keeps between rounds: the breadth-first
      layering of `done`, `queue` and the labels `d`, the visited matrix and
      count matching the labels, the parents, and the exit not yet taken
      off the queue. */
  ghost predicate BfsState(adj: Point -> seq<Point>, s: Point, t: Point, rows: nat, cols: nat,
                           done: set<Point>, queue: seq<Point>, d: map<Point, nat>,
                           visited: seq<seq<bool>>, count: int, parent: map<Point, Point>) {
    && Layered(adj, s, done, queue, d)
    && MarksLabelled(visited, rows, cols, d, count)
    && ParentsOk(adj, s, d, parent)
    && t !in done
  }

  /** What the neighbour loop has done so far for `current`, taken off the
      front of the queue: the cells `added` were unmarked, are now marked,
      labelled one more than `current`, given it as parent, and queued
      behind the rest, in order and without repeats. */
  ghost predicate Expansion(adj: Point -> seq<Point>, s: Point, rows: nat, cols: nat, current: Point,
                            d: map<Point, nat>, queue: seq<Point>, added: seq<Point>, d': map<Point, nat>,
                            queue': seq<Point>, visited': seq<seq<bool>>, parent': map<Point, Point>, count': int) {
    && Queued(current, d, queue, added, d', queue')
    && MarksLabelled(visited', rows, cols, d', count')
    && ParentsOk(adj, s, d', parent')
  }

  /** Nothing done yet. */
  lemma ExpansionStart(adj: Point -> seq<Point>, s: Point, rows: nat, cols: nat, current: Point,
                       d: map<Point, nat>, queue: seq<Point>, visited: seq<seq<bool>>, parent: map<Point, Point>, count: int)
    requires current in d && MarksLabelled(visited, rows, cols, d, count) && ParentsOk(adj, s, d, parent)
    ensures Expansion(adj, s, rows, cols, current, d, queue, [], d, queue, visited, parent, count)
  {
    assert queue + [] == queue;
  }

  /** Marking, counting, parenting and queueing one more unmarked
      neighbour. */
  lemma ExpansionAdd(adj: Point -> seq<Point>, s: Point, rows: nat, cols: nat, current: Point,
                     d: map<Point, nat>, queue: seq<Point>, added: seq<Point>, d': map<Point, nat>,
                     queue': seq<Point>, visited': seq<seq<bool>>, parent': map<Point, Point>, count': int, v: Point)
    requires Expansion(adj, s, rows, cols, current, d, queue, added, d', queue', visited', parent', count')
    requires s in d && v in adj(current) && InBounds(rows, cols, v) && v !in d'
    ensures Expansion(adj, s, rows, cols, current, d, queue, added + [v], d'[v := d[current] + 1],
                      queue' + [v], Mark(visited', rows, cols, v), parent'[v := current], count' + 1)
  {
    QueuedStep(adj, s, rows, cols, current, d, queue, added, d', queue', visited', parent', count', v);
    MarksStep(adj, s, rows, cols, current, d, queue, added, d', queue', visited', parent', count', v);
    ParentsStep(adj, s, rows, cols, current, d, queue, added, d', queue', visited', parent', count', v);
  }

  /** Queueing one more unmarked neighbour. */
  lemma MarksStep(adj: Point -> seq<Point>, s: Point, rows: nat, cols: nat, current: Point,
                     d: map<Point, nat>, queue: seq<Point>, added: seq<Point>, d': map<Point, nat>,
                     queue': seq<Point>, visited': seq<seq<bool>>, parent': map<Point, Point>, count': int, v: Point)
    requires Expansion(adj, s, rows, cols, current, d, queue, added, d', queue', visited', parent', count')
    requires s in d && v in adj(current) && InBounds(rows, cols, v) && v !in d'
    ensures MarksLabelled(Mark(visited', rows, cols, v), rows, cols, d'[v := d[current] + 1], count' + 1)
  { MarksAdd(visited', rows, cols, d', count', v, d[current] + 1); }
  lemma ParentsStep(adj: Point -> seq<Point>, s: Point, rows: nat, cols: nat, current: Point,
                     d: map<Point, nat>, queue: seq<Point>, added: seq<Point>, d': map<Point, nat>,
                     queue': seq<Point>, visited': seq<seq<bool>>, parent': map<Point, Point>, count': int, v: Point)
    requires Expansion(adj, s, rows, cols, current, d, queue, added, d', queue', visited', parent', count')
    requires s in d && v in adj(current) && InBounds(rows, cols, v) && v !in d'
    ensures ParentsOk(adj, s, d'[v := d[current] + 1], parent'[v := current])
  { QueuedAdd(current, d, queue, added, d', queue', v); ParentsAdd(adj, s, d', parent', v, current, d[current] + 1); }
  lemma QueuedStep(adj: Point -> seq<Point>, s: Point, rows: nat, cols: nat, current: Point,
                     d: map<Point, nat>, queue: seq<Point>, added: seq<Point>, d': map<Point, nat>,
                     queue': seq<Point>, visited': seq<seq<bool>>, parent': map<Point, Point>, count': int, v: Point)
    requires Expansion(adj, s, rows, cols, current, d, queue, added, d', queue', visited', parent', count')
    requires s in d && v in adj(current) && InBounds(rows, cols, v) && v !in d'
    ensures Queued(current, d, queue, added + [v], d'[v := d[current] + 1], queue' + [v])
  { QueuedAdd(current, d, queue, added, d', queue', v); }
  /** A whole round keeps the search state and finishes one more cell. */
  lemma BfsRound(adj: Point -> seq<Point>, s: Point, t: Point, rows: nat, cols: nat,
                 done: set<Point>, queue: seq<Point>, d: map<Point, nat>,
                 visited: seq<seq<bool>>, count: int, parent: map<Point, Point>,
                 added: seq<Point>, d': map<Point, nat>, queue': seq<Point>,
                 visited': seq<seq<bool>>, parent': map<Point, Point>, count': int)
    requires BfsState(adj, s, t, rows, cols, done, queue, d, visited, count, parent)
    requires queue != [] && queue[0] != t
    requires Expansion(adj, s, rows, cols, queue[0], d, queue[1..], added, d', queue', visited', parent', count')
    requires forall v :: v in adj(queue[0]) ==> v in d'
    ensures BfsState(adj, s, t, rows, cols, done + {queue[0]}, queue', d', visited', count', parent')
    ensures |AllCells(rows, cols) - (done + {queue[0]})| < |AllCells(rows, cols) - done|
  {
    LayeredStep(adj, s, done, queue, d, added, d');
    AllCellsMembers(rows, cols, queue[0]);
    FewerUnmarked(rows, cols, done, done + {queue[0]}, queue[0]);
  }

  /** The state right after the entrance is queued and marked. */
  lemma BfsStart(adj: Point -> seq<Point>, s: Point, t: Point, rows: nat, cols: nat)
    requires InBounds(rows, cols, s)
    ensures BfsState(adj, s, t, rows, cols, {}, [s], map[s := 0],
                     Mark(Unvisited(rows, cols), rows, cols, s), 1, map[])
  {
    LayeredInit(adj, s);
    AllCellsMembers(rows, cols, s);
  }

  /** findPathBFS: found exactly when the exit can be reached from the
      entrance; a found path runs from the entrance to the exit through
      accessible steps and is no longer than any such walk, and `steps`
      counts its edges; otherwise the path is empty and `steps` is 0.
      `visitedNodes` counts the cells ever queued: the entrance and at most
      every cell. */
  method FindPathBFS(m: Maze) returns (result: SearchResult)
    requires m.Valid() && m.rows > 0 && m.cols > 0
    ensures result.found <==> Reachable(OpenAdj(m.grid, m.rows, m.cols), m.entrance, m.exit)
    ensures result.found ==>
      WalkBetween(OpenAdj(m.grid, m.rows, m.cols), result.path, m.entrance, m.exit)
      && result.steps == |result.path| - 1
      && forall w :: WalkBetween(OpenAdj(m.grid, m.rows, m.cols), w, m.entrance, m.exit) ==> |result.path| <= |w|
    ensures !result.found ==> result.path == [] && result.steps == 0
    ensures 1 <= result.visitedNodes <= m.rows * m.cols
  {
    ghost var adj := OpenAdj(m.grid, m.rows, m.cols);
    var entrance, exit := m.entrance, m.exit;
    var queue := [entrance];
    var visited := Mark(Unvisited(m.rows, m.cols), m.rows, m.cols, entrance);
    var parent: map<Point, Point> := map[];
    var visitedCount := 1;
    var found := false;
    ghost var done: set<Point> := {};
    ghost var d: map<Point, nat> := map[entrance := 0];
    BfsStart(adj, entrance, exit, m.rows, m.cols);
    while queue != [] && !found
      invariant BfsState(adj, entrance, exit, m.rows, m.cols, done, queue, d, visited, visitedCount, parent)
      invariant !found
      decreases |AllCells(m.rows, m.cols) - done|
    {
      var current := queue[0];
      if current == exit {
        found := true;
        break;
      }
      ghost var q0, added, d' := queue, [], d;
      ghost var visited0, count0, parent0 := visited, visitedCount, parent;
      queue, visited, parent, visitedCount, added, d' := BfsVisitNeighbours(m, current, queue[1..], visited, parent, visitedCount, d);
      BfsRound(adj, entrance, exit, m.rows, m.cols, done, q0, d, visited0, count0, parent0,
               added, d', queue, visited, parent, visitedCount);
      done := done + {current};
      d := d';
    }
    BfsCount(adj, entrance, exit, m.rows, m.cols, done, queue, d, visited, visitedCount, parent);
    if found {
      var path := TracePath(adj, entrance, exit, parent, d);
      BfsFound(adj, entrance, exit, done, queue, d, path);
      result := SearchResult(true, path, |path| - 1, visitedCount);
    } else {
      LayeredExhausted(adj, entrance, done, d, exit);
      result := SearchResult(false, [], 0, visitedCount);
    }
  }
  /** The count findPathBFS reports: the start and at most every cell. */
  lemma BfsCount(adj: Point -> seq<Point>, s: Point, t: Point, rows: nat, cols: nat,
                 done: set<Point>, queue: seq<Point>, d: map<Point, nat>,
                 visited: seq<seq<bool>>, count: int, parent: map<Point, Point>)
    requires BfsState(adj, s, t, rows, cols, done, queue, d, visited, count, parent)
    ensures 1 <= count <= rows * cols
  {
    MarkedInGrid(visited, rows, cols);
    assert {s} <= d.Keys;
  }

  /** A route to the head of the queue as long as its label is a shortest
      route. */
  lemma BfsFound(adj: Point -> seq<Point>, s: Point, t: Point, done: set<Point>, queue: seq<Point>, d: map<Point, nat>,
                 path: seq<Point>)
    requires Layered(adj, s, done, queue, d) && queue != [] && queue[0] == t && t !in done
    requires t in d && WalkBetween(adj, path, s, t) && |path| == d[t] + 1
    ensures Reachable(adj, s, t)
    ensures forall w :: WalkBetween(adj, w, s, t) ==> |path| <= |w|
  {
    BfsShortest(adj, s, t, done, queue, d);
  }


  /** The neighbour loop of findPathBFS: every unmarked accessible neighbour
      of `current` is marked, counted, given `current` as its parent and
      queued, in the order the maze lists them; as labels they get one more
      than `current`. */
  method BfsVisitNeighbours(m: Maze, current: Point, queue: seq<Point>, visited: seq<seq<bool>>,
                            parent: map<Point, Point>, visitedCount: int, ghost d: map<Point, nat>)
    returns (queue': seq<Point>, visited': seq<seq<bool>>, parent': map<Point, Point>, visitedCount': int,
             ghost added: seq<Point>, ghost d': map<Point, nat>)
    requires m.Valid() && current in d && m.entrance in d
    requires MarksLabelled(visited, m.rows, m.cols, d, visitedCount)
    requires ParentsOk(OpenAdj(m.grid, m.rows, m.cols), m.entrance, d, parent)
    ensures Expansion(OpenAdj(m.grid, m.rows, m.cols), m.entrance, m.rows, m.cols, current,
                      d, queue, added, d', queue', visited', parent', visitedCount')
    ensures forall v :: v in OpenAdj(m.grid, m.rows, m.cols)(current) ==> v in d'
    ensures |queue| <= |queue'| && queue'[..|queue|] == queue
    ensures forall v :: v in queue'[|queue|..] <==> v in Accessible(m.grid, m.rows, m.cols, current) && v !in Marked(visited)
    ensures forall v :: v in queue'[|queue|..] ==> v in parent' && parent'[v] == current
    ensures visitedCount' == visitedCount + (|queue'| - |queue|)
  {
    ghost var adj := OpenAdj(m.grid, m.rows, m.cols);
    var neighbours := m.GetAccessibleNeighbors(current);
    queue', visited', parent', visitedCount' := queue, visited, parent, visitedCount;
    added, d' := [], d;
    ExpansionStart(adj, m.entrance, m.rows, m.cols, current, d, queue, visited, parent, visitedCount);
    for i := 0 to |neighbours|
      invariant Expansion(adj, m.entrance, m.rows, m.cols, current, d, queue, added, d', queue', visited', parent', visitedCount')
      invariant forall v :: v in neighbours[..i] ==> v in d'
      invariant queue' == queue + added && visitedCount' == visitedCount + |added|
      invariant FreshAdded(added, neighbours[..i], d, parent', current)
    {
      var neighbour := neighbours[i];
      AccessibleOnGrid(m.grid, m.rows, m.cols, current, neighbour);
      MarkedMembers(visited', neighbour);
      if !visited'[neighbour.x][neighbour.y] {
        ExpansionAdd(adj, m.entrance, m.rows, m.cols, current, d, queue, added, d', queue', visited', parent', visitedCount', neighbour);
        ExpansionUnmarked(adj, m.entrance, m.rows, m.cols, current, d, queue, added, d', queue', visited', parent', visitedCount', neighbour);
        FreshAdd(added, neighbours[..i], d, parent', current, neighbour);
        visited' := Mark(visited', m.rows, m.cols, neighbour);
        visitedCount' := visitedCount' + 1;
        parent' := parent'[neighbour := current];
        queue' := queue' + [neighbour];
        added := added + [neighbour];
        d' := d'[neighbour := d[current] + 1];
      } else {
        ExpansionMarked(adj, m.entrance, m.rows, m.cols, current, d, queue, added, d', queue', visited', parent', visitedCount', neighbour);
        FreshSkip(added, neighbours[..i], d, parent', current, neighbour);
      }
      TakeOneMore(neighbours, i);
    }
    TakeAll(neighbours);
    FreshDone(added, neighbours, d, parent', current, visited, m.rows, m.cols, visitedCount);
    assert queue'[|queue|..] == added;
  }

  lemma FreshDone(added: seq<Point>, ns: seq<Point>, d: map<Point, nat>, parent: map<Point, Point>, current: Point,
                  visited: seq<seq<bool>>, rows: nat, cols: nat, count: int)
    requires FreshAdded(added, ns, d, parent, current) && MarksLabelled(visited, rows, cols, d, count)
    ensures forall v :: v in added <==> v in ns && v !in Marked(visited)
    ensures forall v :: v in added ==> v in parent && parent[v] == current
  {
  }

  /** A cell the matrix shows unmarked is neither labelled before the
      expansion nor queued by it. */
  lemma ExpansionUnmarked(adj: Point -> seq<Point>, s: Point, rows: nat, cols: nat, current: Point,
                          d: map<Point, nat>, queue: seq<Point>, added: seq<Point>, d': map<Point, nat>,
                          queue': seq<Point>, visited': seq<seq<bool>>, parent': map<Point, Point>, count': int, v: Point)
    requires Expansion(adj, s, rows, cols, current, d, queue, added, d', queue', visited', parent', count')
    requires InBounds(rows, cols, v) && !visited'[v.x][v.y]
    ensures v !in d && v !in added
  {
    MarkedMembers(visited', v);
  }

  /** A cell the matrix shows marked was labelled before or queued. */
  lemma ExpansionMarked(adj: Point -> seq<Point>, s: Point, rows: nat, cols: nat, current: Point,
                        d: map<Point, nat>, queue: seq<Point>, added: seq<Point>, d': map<Point, nat>,
                        queue': seq<Point>, visited': seq<seq<bool>>, parent': map<Point, Point>, count': int, v: Point)
    requires Expansion(adj, s, rows, cols, current, d, queue, added, d', queue', visited', parent', count')
    requires InBounds(rows, cols, v) && visited'[v.x][v.y]
    ensures v in d || v in added
  {
    MarkedMembers(visited', v);
  }

  lemma MarksAdd(visited: seq<seq<bool>>, rows: nat, cols: nat, d: map<Point, nat>, count: int, v: Point, level: nat)
    requires MarksLabelled(visited, rows, cols, d, count) && InBounds(rows, cols, v) && v !in d
    ensures MarksLabelled(Mark(visited, rows, cols, v), rows, cols, d[v := level], count + 1)
  {
    AllCellsMembers(rows, cols, v);
    assert d[v := level].Keys == d.Keys + {v};
  }

  lemma ParentsAdd(adj: Point -> seq<Point>, s: Point, d: map<Point, nat>, parent: map<Point, Point>, v: Point, u: Point,
                   level: nat)
    requires ParentsOk(adj, s, d, parent) && s in d && v !in d && u in d && v in adj(u) && level == d[u] + 1
    ensures ParentsOk(adj, s, d[v := level], parent[v := u])
  {
  }

  /** The path-rebuilding loop of findPathBFS: follow parents from the exit
      back to the entrance, then reverse. The result is a walk from the
      entrance to the exit with one cell per label from 0 to the exit's. */
  method TracePath(ghost adj: Point -> seq<Point>, entrance: Point, exit: Point,
                   parent: map<Point, Point>, ghost d: map<Point, nat>) returns (path: seq<Point>)
    requires exit in d && entrance in d && d[entrance] == 0 && ParentsOk(adj, entrance, d, parent)
    ensures WalkBetween(adj, path, entrance, exit) && |path| == d[exit] + 1
  {
    path := [];
    var current := exit;
    assert Reverse(path + [current]) == [exit];
    while current != entrance
      invariant current in d
      invariant WalkBetween(adj, Reverse(path + [current]), current, exit)
      invariant |path| + d[current] == d[exit]
      decreases d[current]
    {
      ghost var w := Reverse(path + [current]);
      ReverseSnoc(path + [current], parent[current]);
      WalkPrepend(adj, parent[current], w);
      path := path + [current];
      current := parent[current];
    }
    path := path + [entrance];
    path := Reverse(path);
  }

  // ---------------------------------------------------------------------
  // A*

  /** The parent pointer of an A* node: the index, in creation order, of
      the node it was reached from, or none for the start node. */
  datatype Link = NoParent | ParentAt(index: nat)

  /** AStarNode: a cell, the steps taken to reach it (g), the estimate of
      the steps left (h), their sum (f) and the parent link. */
  datatype AStarNode = AStarNode(point: Point, gCost: int, hCost: int, fCost: int, parent: Link)

  /** The AStarNode constructor: the node keeps its cell, costs and parent,
      and its f is the sum of its g and h. */
  function MakeNode(p: Point, g: int, h: int, parent: Link): (n: AStarNode)
    ensures n.point == p && n.gCost == g && n.hCost == h && n.parent == parent
    ensures n.fCost == n.gCost + n.hCost
  {
    AStarNode(p, g, h, g + h, parent)
  }

  /** `AStarNode::operator>`, the order of the open list's min-heap. */
  predicate Greater(a: AStarNode, b: AStarNode) {
    a.fCost > b.fCost
  }

  /** operator> is a strict weak order, as the heap requires: irreflexive,
      asymmetric, transitive, and two nodes are unordered exactly when their
      f is equal. */
  lemma GreaterIsStrictWeakOrder(a: AStarNode, b: AStarNode, c: AStarNode)
    ensures !Greater(a, a)
    ensures Greater(a, b) ==> !Greater(b, a)
    ensures Greater(a, b) && Greater(b, c) ==> Greater(a, c)
    ensures !Greater(a, b) && !Greater(b, a) <==> a.fCost == b.fCost
  {
  }

  /** manhattanDistance: zero exactly on equal cells. */
  function ManhattanDistance(a: Point, b: Point): (r: nat)
    ensures r == 0 <==> a == b
    ensures r == Abs(b.x - a.x) + Abs(b.y - a.y)
  {
    Abs(a.x - b.x) + Abs(a.y - b.y)
  }

  /** Every step of the graph moves to a cell at distance one. */
  ghost predicate UnitSteps(adj: Point -> seq<Point>) {
    forall p, q :: q in adj(p) ==> ManhattanDistance(p, q) == 1
  }

  lemma OpenAdjUnit(g: Grid, rows: nat, cols: nat)
    ensures UnitSteps(OpenAdj(g, rows, cols))
  {
    forall p, q | q in OpenAdj(g, rows, cols)(p) ensures ManhattanDistance(p, q) == 1 {
      AccessibleSpec(g, rows, cols, p);
      NeighbourOffset(rows, cols, p, q);
    }
  }

  /** The Manhattan estimate never overstates: along a walk of unit steps
      it falls by at most one per step, so from the first cell of a walk it
      is at most the walk's length plus the estimate from its last cell. */
  lemma {:induction false} ManhattanAlongWalk(adj: Point -> seq<Point>, w: seq<Point>, t: Point)
    requires UnitSteps(adj) && IsWalk(adj, w)
    ensures ManhattanDistance(w[0], t) <= ManhattanDistance(w[|w| - 1], t) + |w| - 1
    decreases |w|
  {
    if |w| > 1 {
      WalkSuffix(adj, w, 1);
      ManhattanAlongWalk(adj, w[1..], t);
      assert w[1] in adj(w[0]);
    }
  }

  /** Node `i` of the arena: on the grid unless it is node 0, `h` is the
      Manhattan distance to `t`, `f == g + h`, `g >= 0`; only node 0 has no
      parent, and any other node's parent was created before it, is one
      step away and has one less `g`. */
  ghost predicate NodeOk(adj: Point -> seq<Point>, t: Point, rows: nat, cols: nat, nodes: seq<AStarNode>, i: nat)
    requires i < |nodes|
  {
    var n := nodes[i];
    && (i > 0 ==> InBounds(rows, cols, n.point))
    && n.hCost == ManhattanDistance(n.point, t)
    && n.fCost == n.gCost + n.hCost
    && n.gCost >= 0
    && (i == 0 <==> n.parent == NoParent)
    && (n.parent.ParentAt? ==>
          && n.parent.index < i
          && n.point in adj(nodes[n.parent.index].point)
          && n.gCost == nodes[n.parent.index].gCost + 1)
  }

  /** Every node ever created; node 0 is the start node at `s`. */
  ghost predicate ArenaOk(adj: Point -> seq<Point>, s: Point, t: Point, rows: nat, cols: nat, nodes: seq<AStarNode>) {
    && |nodes| > 0 && nodes[0].point == s && nodes[0].gCost == 0
    && forall i :: 0 <= i < |nodes| ==> NodeOk(adj, t, rows, cols, nodes, i)
  }

  /** nodeMap names, for each cell, a node at that cell, and no node at a
      cell has a smaller `g` than the one nodeMap names. */
  ghost predicate MapOk(nodes: seq<AStarNode>, nodeMap: map<Point, nat>) {
    && (forall p :: p in nodeMap ==> nodeMap[p] < |nodes| && nodes[nodeMap[p]].point == p)
    && (forall i :: 0 <= i < |nodes| ==>
          nodes[i].point in nodeMap && nodes[nodeMap[nodes[i].point]].gCost <= nodes[i].gCost)
  }

  /** The `g` of the node nodeMap names for `p`. */
  ghost function Best(nodes: seq<AStarNode>, nodeMap: map<Point, nat>, p: Point): int
    requires MapOk(nodes, nodeMap) && p in nodeMap
  {
    nodes[nodeMap[p]].gCost
  }

  /** The open list holds distinct arena indices, and the node nodeMap
      names for any cell not yet closed is among them. */
  ghost predicate OpenOk(nodes: seq<AStarNode>, open: seq<nat>, closed: set<Point>, nodeMap: map<Point, nat>) {
    && NoRepeat(open)
    && (forall k :: 0 <= k < |open| ==> open[k] < |nodes|)
    && (forall p :: p in nodeMap && p !in closed ==> nodeMap[p] in open)
  }

  /** Every closed cell outside `pending` has been expanded: its neighbours
      have nodes, and those not closed are at most one step further. */
  ghost predicate Frontier(adj: Point -> seq<Point>, nodes: seq<AStarNode>, nodeMap: map<Point, nat>,
                           closed: set<Point>, pending: set<Point>)
    requires MapOk(nodes, nodeMap) && closed <= nodeMap.Keys
  {
    forall c, v :: c in closed && c !in pending && v in adj(c) ==>
      v in nodeMap && (v !in closed ==> Best(nodes, nodeMap, v) <= Best(nodes, nodeMap, c) + 1)
  }

  /** Every closed cell has its shortest distance from `s`. */
  ghost predicate Settled(adj: Point -> seq<Point>, s: Point, nodes: seq<AStarNode>, nodeMap: map<Point, nat>,
                          closed: set<Point>)
    requires MapOk(nodes, nodeMap) && closed <= nodeMap.Keys
  {
    forall c, w :: c in closed && WalkBetween(adj, w, s, c) ==> Best(nodes, nodeMap, c) <= |w| - 1
  }

  /** The state of findPathAStar's main loop; `pending` holds the cell
      closed in this round whose neighbours are still being examined. The
      closed cells are cells of the grid or the start, which an empty grid
      does not hold. */
  ghost predicate AStarState(adj: Point -> seq<Point>, s: Point, t: Point, rows: nat, cols: nat,
                             nodes: seq<AStarNode>, open: seq<nat>, closed: set<Point>,
                             nodeMap: map<Point, nat>, count: int, pending: set<Point>) {
    && UnitSteps(adj)
    && ArenaOk(adj, s, t, rows, cols, nodes)
    && MapOk(nodes, nodeMap)
    && OpenOk(nodes, open, closed, nodeMap)
    && closed <= nodeMap.Keys && closed <= AllCells(rows, cols) + {s} && count == |closed|
    && pending <= closed
    && s in nodeMap && Best(nodes, nodeMap, s) == 0
    && Frontier(adj, nodes, nodeMap, closed, pending)
    && Settled(adj, s, nodes, nodeMap, closed)
  }

  lemma AStarInit(adj: Point -> seq<Point>, s: Point, t: Point, rows: nat, cols: nat)
    requires UnitSteps(adj)
    ensures AStarState(adj, s, t, rows, cols, [MakeNode(s, 0, ManhattanDistance(s, t), NoParent)], [0], {},
                       map[s := 0], 0, {})
  {
    var nodes := [MakeNode(s, 0, ManhattanDistance(s, t), NoParent)];
    assert NodeOk(adj, t, rows, cols, nodes, 0);
  }

  /** Removing position `k` from a list without repeats removes exactly
      the element there. */
  lemma RemoveAt<T>(s: seq<T>, k: nat)
    requires NoRepeat(s) && k < |s|
    ensures NoRepeat(s[..k] + s[k + 1..])
    ensures forall x :: x in s[..k] + s[k + 1..] <==> x in s && x != s[k]
  {
    var r := s[..k] + s[k + 1..];
    assert forall i :: 0 <= i < |r| ==> r[i] == if i < k then s[i] else s[i + 1];
    forall x ensures x in r <==> x in s && x != s[k] {
      if x in s && x != s[k] {
        var i :| 0 <= i < |s| && s[i] == x;
        assert r[if i < k then i else i - 1] == x;
      }
    }
  }

  /** The popped node's cell is already closed: it is dropped. */
  lemma AStarSkip(adj: Point -> seq<Point>, s: Point, t: Point, rows: nat, cols: nat,
                  nodes: seq<AStarNode>, open: seq<nat>, closed: set<Point>,
                  nodeMap: map<Point, nat>, count: int, k: nat)
    requires AStarState(adj, s, t, rows, cols, nodes, open, closed, nodeMap, count, {})
    requires k < |open| && nodes[open[k]].point in closed
    ensures AStarState(adj, s, t, rows, cols, nodes, open[..k] + open[k + 1..], closed, nodeMap, count, {})
  {
    RemoveAt(open, k);
  }

  /** The heart of A*'s optimality: a node of least f in the open list, at
      a cell not yet closed, has a g no larger than any walk to its cell.
      The first cell of the walk outside the closed set has a node in the
      open list whose g is at most its position on the walk, and the
      Manhattan estimate from there is at most the rest of the walk. */
  lemma {:induction false} AStarScan(adj: Point -> seq<Point>, s: Point, t: Point, rows: nat, cols: nat,
                                     nodes: seq<AStarNode>, open: seq<nat>, closed: set<Point>,
                                     nodeMap: map<Point, nat>, count: int, idx: nat, w: seq<Point>, k: nat)
    requires AStarState(adj, s, t, rows, cols, nodes, open, closed, nodeMap, count, {})
    requires idx in open && forall j :: 0 <= j < |open| ==> !Greater(nodes[idx], nodes[open[j]])
    requires WalkBetween(adj, w, s, nodes[idx].point) && nodes[idx].point !in closed
    requires k < |w| && forall i :: 0 <= i < k ==> w[i] in closed
    ensures nodes[idx].gCost <= |w| - 1
    decreases |w| - k
  {
    if w[k] in closed {
      AStarScan(adj, s, t, rows, cols, nodes, open, closed, nodeMap, count, idx, w, k + 1);
    } else {
      var q := w[k];
      if k > 0 {
        var c := w[k - 1];
        assert q in adj(c);
        WalkPrefix(adj, w, k);
        assert WalkBetween(adj, w[..k], s, c);
      }
      assert q in nodeMap && Best(nodes, nodeMap, q) <= k;
      var j :| 0 <= j < |open| && open[j] == nodeMap[q];
      assert NodeOk(adj, t, rows, cols, nodes, nodeMap[q]);
      assert NodeOk(adj, t, rows, cols, nodes, idx);
      WalkSuffix(adj, w, k);
      ManhattanAlongWalk(adj, w[k..], t);
    }
  }

  /** Closing the popped cell: its node is the one nodeMap names, with the
      shortest distance, and the state holds with that cell pending. */
  lemma AStarClose(adj: Point -> seq<Point>, s: Point, t: Point, rows: nat, cols: nat,
                   nodes: seq<AStarNode>, open: seq<nat>, closed: set<Point>,
                   nodeMap: map<Point, nat>, count: int, k: nat)
    requires AStarState(adj, s, t, rows, cols, nodes, open, closed, nodeMap, count, {})
    requires k < |open| && forall j :: 0 <= j < |open| ==> !Greater(nodes[open[k]], nodes[open[j]])
    requires nodes[open[k]].point !in closed
    ensures nodes[open[k]].point in nodeMap && Best(nodes, nodeMap, nodes[open[k]].point) == nodes[open[k]].gCost
    ensures AStarState(adj, s, t, rows, cols, nodes, open[..k] + open[k + 1..], closed + {nodes[open[k]].point},
                       nodeMap, count + 1, {nodes[open[k]].point})
    ensures |(AllCells(rows, cols) + {s}) - (closed + {nodes[open[k]].point})| < |(AllCells(rows, cols) + {s}) - closed|
  {
    var idx := open[k];
    var P := nodes[idx].point;
    var closed' := closed + {P};
    assert NodeOk(adj, t, rows, cols, nodes, idx);
    var j := nodeMap[P];
    assert NodeOk(adj, t, rows, cols, nodes, j);
    var jk :| 0 <= jk < |open| && open[jk] == j;
    assert !Greater(nodes[idx], nodes[open[jk]]);
    forall w | WalkBetween(adj, w, s, P) ensures Best(nodes, nodeMap, P) <= |w| - 1 {
      AStarScan(adj, s, t, rows, cols, nodes, open, closed, nodeMap, count, idx, w, 0);
    }
    CloseSettled(adj, s, nodes, nodeMap, closed, P);
    CloseFrontier(adj, nodes, nodeMap, closed, P);
    RemoveAt(open, k);
    CloseOpen(nodes, open, closed, nodeMap, k);
    if idx > 0 {
      AllCellsMembers(rows, cols, P);
    }
    FewerLeft(AllCells(rows, cols) + {s}, closed, P);
  }

  lemma CloseSettled(adj: Point -> seq<Point>, s: Point, nodes: seq<AStarNode>, nodeMap: map<Point, nat>,
                     closed: set<Point>, p: Point)
    requires MapOk(nodes, nodeMap) && closed <= nodeMap.Keys && p in nodeMap
    requires Settled(adj, s, nodes, nodeMap, closed)
    requires forall w :: WalkBetween(adj, w, s, p) ==> Best(nodes, nodeMap, p) <= |w| - 1
    ensures Settled(adj, s, nodes, nodeMap, closed + {p})
  {
  }

  lemma CloseFrontier(adj: Point -> seq<Point>, nodes: seq<AStarNode>, nodeMap: map<Point, nat>,
                      closed: set<Point>, p: Point)
    requires MapOk(nodes, nodeMap) && closed <= nodeMap.Keys && p in nodeMap
    requires Frontier(adj, nodes, nodeMap, closed, {})
    ensures Frontier(adj, nodes, nodeMap, closed + {p}, {p})
  {
  }

  lemma CloseOpen(nodes: seq<AStarNode>, open: seq<nat>, closed: set<Point>, nodeMap: map<Point, nat>, k: nat)
    requires MapOk(nodes, nodeMap) && OpenOk(nodes, open, closed, nodeMap) && k < |open|
    requires forall x :: x in open[..k] + open[k + 1..] <==> x in open && x != open[k]
    requires NoRepeat(open[..k] + open[k + 1..])
    ensures OpenOk(nodes, open[..k] + open[k + 1..], closed + {nodes[open[k]].point}, nodeMap)
  {
    var r := open[..k] + open[k + 1..];
    forall i | 0 <= i < |r| ensures r[i] < |nodes| {
      assert r[i] in open;
    }
  }

  /** The neighbours of `p` examined so far either are closed or have a
      node at most one step further than `p`'s. */
  ghost predicate Relaxed(nodes: seq<AStarNode>, nodeMap: map<Point, nat>, closed: set<Point>, p: Point, vs: seq<Point>)
    requires MapOk(nodes, nodeMap) && p in nodeMap
  {
    forall v :: v in vs ==> v in closed || (v in nodeMap && Best(nodes, nodeMap, v) <= Best(nodes, nodeMap, p) + 1)
  }

  /** A neighbour with no node yet, or reached more cheaply through `p`,
      gets a new node with `p`'s node as parent. */
  lemma AStarAdd(adj: Point -> seq<Point>, s: Point, t: Point, rows: nat, cols: nat,
                 nodes: seq<AStarNode>, open: seq<nat>, closed: set<Point>,
                 nodeMap: map<Point, nat>, count: int, p: Point, vs: seq<Point>, v: Point, node: AStarNode)
    requires AStarState(adj, s, t, rows, cols, nodes, open, closed, nodeMap, count, {p})
    requires p in closed && v in adj(p) && v !in closed && InBounds(rows, cols, v)
    requires v !in nodeMap || Best(nodes, nodeMap, p) + 1 < Best(nodes, nodeMap, v)
    requires Relaxed(nodes, nodeMap, closed, p, vs)
    requires node == MakeNode(v, Best(nodes, nodeMap, p) + 1, ManhattanDistance(v, t), ParentAt(nodeMap[p]))
    ensures var nodes' := nodes + [node];
            var nodeMap' := nodeMap[v := |nodes|];
            && AStarState(adj, s, t, rows, cols, nodes', open + [|nodes|], closed, nodeMap', count, {p})
            && Best(nodes', nodeMap', p) == Best(nodes, nodeMap, p)
            && Relaxed(nodes', nodeMap', closed, p, vs + [v])
  {
    var n := |nodes|;
    AddArena(adj, s, t, rows, cols, nodes, nodeMap, p, v);
    AddMap(nodes, nodeMap, p, v, t);
    assert v != s by {
      assert NodeOk(adj, t, rows, cols, nodes, nodeMap[p]);
    }
    AddOpen(nodes, open, closed, nodeMap, node, v);
    AddFrontier(adj, nodes, nodeMap, closed, p, vs, node, v);
  }

  lemma AddArena(adj: Point -> seq<Point>, s: Point, t: Point, rows: nat, cols: nat,
                 nodes: seq<AStarNode>, nodeMap: map<Point, nat>, p: Point, v: Point)
    requires ArenaOk(adj, s, t, rows, cols, nodes) && MapOk(nodes, nodeMap) && p in nodeMap
    requires v in adj(p) && InBounds(rows, cols, v)
    ensures ArenaOk(adj, s, t, rows, cols,
                    nodes + [MakeNode(v, Best(nodes, nodeMap, p) + 1, ManhattanDistance(v, t), ParentAt(nodeMap[p]))])
  {
    var nodes' := nodes + [MakeNode(v, Best(nodes, nodeMap, p) + 1, ManhattanDistance(v, t), ParentAt(nodeMap[p]))];
    assert NodeOk(adj, t, rows, cols, nodes, nodeMap[p]);
    forall i | 0 <= i < |nodes'| ensures NodeOk(adj, t, rows, cols, nodes', i) {
      if i < |nodes| {
        assert NodeOk(adj, t, rows, cols, nodes, i);
      }
    }
  }

  lemma AddMap(nodes: seq<AStarNode>, nodeMap: map<Point, nat>, p: Point, v: Point, t: Point)
    requires MapOk(nodes, nodeMap) && p in nodeMap
    requires v !in nodeMap || Best(nodes, nodeMap, p) + 1 < Best(nodes, nodeMap, v)
    ensures var nodes' := nodes + [MakeNode(v, Best(nodes, nodeMap, p) + 1, ManhattanDistance(v, t), ParentAt(nodeMap[p]))];
            var nodeMap' := nodeMap[v := |nodes|];
            && MapOk(nodes', nodeMap')
            && (forall q :: q in nodeMap && q != v ==> Best(nodes', nodeMap', q) == Best(nodes, nodeMap, q))
            && Best(nodes', nodeMap', v) == Best(nodes, nodeMap, p) + 1
            && (v in nodeMap ==> Best(nodes', nodeMap', v) < Best(nodes, nodeMap, v))
  {
    var nodes' := nodes + [MakeNode(v, Best(nodes, nodeMap, p) + 1, ManhattanDistance(v, t), ParentAt(nodeMap[p]))];
    var nodeMap' := nodeMap[v := |nodes|];
    forall i | 0 <= i < |nodes'|
      ensures nodes'[i].point in nodeMap' && nodes'[nodeMap'[nodes'[i].point]].gCost <= nodes'[i].gCost
    {
      if i < |nodes| {
        assert nodes'[i] == nodes[i];
        if nodes[i].point != v {
          assert nodes'[nodeMap[nodes[i].point]] == nodes[nodeMap[nodes[i].point]];
        }
      }
    }
  }

  lemma AddOpen(nodes: seq<AStarNode>, open: seq<nat>, closed: set<Point>, nodeMap: map<Point, nat>,
                node: AStarNode, v: Point)
    requires OpenOk(nodes, open, closed, nodeMap) && forall q :: q in nodeMap ==> nodeMap[q] < |nodes|
    ensures OpenOk(nodes + [node], open + [|nodes|], closed, nodeMap[v := |nodes|])
  {
    assert |nodes| !in open;
    NoRepeatSnoc(open, |nodes|);
  }

  lemma AddFrontier(adj: Point -> seq<Point>, nodes: seq<AStarNode>, nodeMap: map<Point, nat>,
                    closed: set<Point>, p: Point, vs: seq<Point>, node: AStarNode, v: Point)
    requires MapOk(nodes, nodeMap) && closed <= nodeMap.Keys && p in closed && v !in closed
    requires Frontier(adj, nodes, nodeMap, closed, {p}) && Relaxed(nodes, nodeMap, closed, p, vs)
    requires MapOk(nodes + [node], nodeMap[v := |nodes|])
    requires forall q :: q in nodeMap && q != v ==> Best(nodes + [node], nodeMap[v := |nodes|], q) == Best(nodes, nodeMap, q)
    requires Best(nodes + [node], nodeMap[v := |nodes|], v) == Best(nodes, nodeMap, p) + 1
    requires v in nodeMap ==> Best(nodes + [node], nodeMap[v := |nodes|], v) < Best(nodes, nodeMap, v)
    ensures Frontier(adj, nodes + [node], nodeMap[v := |nodes|], closed, {p})
    ensures Relaxed(nodes + [node], nodeMap[v := |nodes|], closed, p, vs + [v])
  {
  }

  lemma RelaxedKeep(nodes: seq<AStarNode>, nodeMap: map<Point, nat>, closed: set<Point>, p: Point, vs: seq<Point>, v: Point)
    requires MapOk(nodes, nodeMap) && p in nodeMap && Relaxed(nodes, nodeMap, closed, p, vs)
    requires v in closed || (v in nodeMap && nodes[nodeMap[v]].gCost <= Best(nodes, nodeMap, p) + 1)
    ensures Relaxed(nodes, nodeMap, closed, p, vs + [v])
  {
  }

  /** Once every neighbour of the pending cell is relaxed, it counts as
      expanded. */
  lemma AStarExpanded(adj: Point -> seq<Point>, s: Point, t: Point, rows: nat, cols: nat,
                      nodes: seq<AStarNode>, open: seq<nat>, closed: set<Point>,
                      nodeMap: map<Point, nat>, count: int, p: Point)
    requires AStarState(adj, s, t, rows, cols, nodes, open, closed, nodeMap, count, {p})
    requires p in closed && Relaxed(nodes, nodeMap, closed, p, adj(p))
    ensures AStarState(adj, s, t, rows, cols, nodes, open, closed, nodeMap, count, {})
  {
  }

  /** With the open list empty every cell with a node is closed, so the
      closed cells are closed under the steps and contain the start: the
      target, not among them, is unreachable. */
  lemma AStarExhausted(adj: Point -> seq<Point>, s: Point, t: Point, rows: nat, cols: nat,
                       nodes: seq<AStarNode>, closed: set<Point>, nodeMap: map<Point, nat>, count: int)
    requires AStarState(adj, s, t, rows, cols, nodes, [], closed, nodeMap, count, {}) && t !in closed
    requires rows > 0 && cols > 0 ==> InBounds(rows, cols, s)
    ensures !Reachable(adj, s, t) && CountOk(count, rows, cols)
  {
    assert nodeMap.Keys <= closed;
    ClosedBound(closed, s, rows, cols);
    ClosedSetBlocks(adj, closed, s, t);
  }

  /** Any two results that satisfy what findPathBFS and findPathAStar
      promise agree: both find a path or neither does, and found paths have
      the same number of steps. */
  lemma OptimalResultsAgree(adj: Point -> seq<Point>, s: Point, t: Point, r1: SearchResult, r2: SearchResult)
    requires r1.found <==> Reachable(adj, s, t)
    requires r2.found <==> Reachable(adj, s, t)
    requires r1.found ==> (WalkBetween(adj, r1.path, s, t) && r1.steps == |r1.path| - 1
                             && forall w :: WalkBetween(adj, w, s, t) ==> |r1.path| <= |w|)
    requires r2.found ==> (WalkBetween(adj, r2.path, s, t) && r2.steps == |r2.path| - 1
                             && forall w :: WalkBetween(adj, w, s, t) ==> |r2.path| <= |w|)
    requires !r1.found ==> r1.steps == 0
    requires !r2.found ==> r2.steps == 0
    ensures r1.found == r2.found && r1.steps == r2.steps
  {
  }

  /** findPathAStar, with the open list as a list of arena indices and
      nodeMap naming the latest node per cell. It finds a path exactly when
      the exit is reachable; the path is a walk from the entrance to the
      exit no longer than any other (the Manhattan estimate never
      overstates and changes by at most one per step), `steps` counts its
      edges, and `visitedNodes` counts the closed cells: the entrance and
      at most every cell. On an empty grid the entrance is closed and has
      no neighbours, so it is the only cell counted. */
  method FindPathAStar(m: Maze) returns (result: SearchResult)
    requires m.Valid()
    ensures result.found <==> Reachable(OpenAdj(m.grid, m.rows, m.cols), m.entrance, m.exit)
    ensures result.found ==>
      WalkBetween(OpenAdj(m.grid, m.rows, m.cols), result.path, m.entrance, m.exit)
      && result.steps == |result.path| - 1
      && forall w :: WalkBetween(OpenAdj(m.grid, m.rows, m.cols), w, m.entrance, m.exit) ==> |result.path| <= |w|
    ensures !result.found ==> result.path == [] && result.steps == 0
    ensures 1 <= result.visitedNodes
    ensures m.rows > 0 && m.cols > 0 ==> result.visitedNodes <= m.rows * m.cols
    ensures m.rows == 0 || m.cols == 0 ==> result.visitedNodes == 1
  {
    ghost var adj := OpenAdj(m.grid, m.rows, m.cols);
    var entrance, exit := m.entrance, m.exit;
    OpenAdjUnit(m.grid, m.rows, m.cols);
    var nodes := [MakeNode(entrance, 0, ManhattanDistance(entrance, exit), NoParent)];
    var open: seq<nat> := [0];
    var closed: map<Point, int> := map[];
    var nodeMap: map<Point, nat> := map[entrance := 0];
    var visitedCount := 0;
    var found := false;
    var endNode: nat := 0;
    AStarInit(adj, entrance, exit, m.rows, m.cols);
    while open != [] && !found
      invariant !found ==>
        AStarState(adj, entrance, exit, m.rows, m.cols, nodes, open, closed.Keys, nodeMap, visitedCount, {})
        && exit !in closed
      invariant found ==> AStarFound(adj, entrance, exit, m.rows, m.cols, nodes, endNode, visitedCount)
      decreases |(AllCells(m.rows, m.cols) + {entrance}) - closed.Keys|, |open|
    {
      nodes, open, closed, nodeMap, visitedCount, found, endNode := AStarRound(m, nodes, open, closed, nodeMap, visitedCount);
    }
    if found {
      var path := ReconstructPath(adj, entrance, m.rows, m.cols, exit, nodes, endNode);
      result := SearchResult(true, path, |path| - 1, visitedCount);
    } else {
      AStarExhausted(adj, entrance, exit, m.rows, m.cols, nodes, closed.Keys, nodeMap, visitedCount);
      result := SearchResult(false, [], 0, visitedCount);
    }
  }

  /** The exit is closed through node `endNode`, whose g is no larger than
      any walk from the start, and the closed count is as CountOk says. */
  ghost predicate AStarFound(adj: Point -> seq<Point>, s: Point, t: Point, rows: nat, cols: nat,
                             nodes: seq<AStarNode>, endNode: nat, count: int) {
    && ArenaOk(adj, s, t, rows, cols, nodes) && endNode < |nodes| && nodes[endNode].point == t
    && (forall w :: WalkBetween(adj, w, s, t) ==> nodes[endNode].gCost <= |w| - 1)
    && CountOk(count, rows, cols)
  }

  /** What findPathAStar promises of visitedNodes: at least one, at most
      the number of cells, and exactly one on an empty grid. */
  predicate CountOk(count: int, rows: nat, cols: nat) {
    && 1 <= count
    && (rows > 0 && cols > 0 ==> count <= rows * cols)
    && (rows == 0 || cols == 0 ==> count == 1)
  }

  /** One round of findPathAStar's main loop: pop a node of least f; drop
      it if its cell is closed; otherwise close the cell and count it, stop
      if it is the exit, and expand it if not. Every round closes a cell or
      shortens the open list. */
  method AStarRound(m: Maze, nodes: seq<AStarNode>, open: seq<nat>, closed: map<Point, int>,
                    nodeMap: map<Point, nat>, visitedCount: int)
    returns (nodes': seq<AStarNode>, open': seq<nat>, closed': map<Point, int>, nodeMap': map<Point, nat>,
             visitedCount': int, found: bool, endNode: nat)
    requires m.Valid() && open != [] && m.exit !in closed
    requires AStarState(OpenAdj(m.grid, m.rows, m.cols), m.entrance, m.exit, m.rows, m.cols,
                        nodes, open, closed.Keys, nodeMap, visitedCount, {})
    ensures !found ==>
      AStarState(OpenAdj(m.grid, m.rows, m.cols), m.entrance, m.exit, m.rows, m.cols,
                 nodes', open', closed'.Keys, nodeMap', visitedCount', {})
      && m.exit !in closed'
    ensures found ==> AStarFound(OpenAdj(m.grid, m.rows, m.cols), m.entrance, m.exit, m.rows, m.cols,
                                 nodes', endNode, visitedCount')
    ensures |(AllCells(m.rows, m.cols) + {m.entrance}) - closed'.Keys| < |(AllCells(m.rows, m.cols) + {m.entrance}) - closed.Keys|
            || (closed' == closed && |open'| < |open|)
  {
    ghost var adj := OpenAdj(m.grid, m.rows, m.cols);
    var k := PopMin(open, nodes);
    var current := nodes[open[k]];
    if current.point in closed {
      open' := open[..k] + open[k + 1..];
      nodes', closed', nodeMap', visitedCount', found, endNode := nodes, closed, nodeMap, visitedCount, false, 0;
      AStarSkip(adj, m.entrance, m.exit, m.rows, m.cols, nodes, open, closed.Keys, nodeMap, visitedCount, k);
    } else {
      nodes', open', closed', nodeMap', visitedCount', found, endNode := AStarVisit(m, nodes, open, closed, nodeMap, visitedCount, k);
    }
  }

  /** The rest of a round of findPathAStar once the popped node's cell is
      found not closed: close and count it, stop at the exit, otherwise
      expand it. */
  method AStarVisit(m: Maze, nodes: seq<AStarNode>, open: seq<nat>, closed: map<Point, int>,
                    nodeMap: map<Point, nat>, visitedCount: int, k: nat)
    returns (nodes': seq<AStarNode>, open': seq<nat>, closed': map<Point, int>, nodeMap': map<Point, nat>,
             visitedCount': int, found: bool, endNode: nat)
    requires m.Valid() && m.exit !in closed
    requires AStarState(OpenAdj(m.grid, m.rows, m.cols), m.entrance, m.exit, m.rows, m.cols,
                        nodes, open, closed.Keys, nodeMap, visitedCount, {})
    requires k < |open| && forall j :: 0 <= j < |open| ==> !Greater(nodes[open[k]], nodes[open[j]])
    requires nodes[open[k]].point !in closed
    ensures !found ==>
      AStarState(OpenAdj(m.grid, m.rows, m.cols), m.entrance, m.exit, m.rows, m.cols,
                 nodes', open', closed'.Keys, nodeMap', visitedCount', {})
      && m.exit !in closed'
    ensures found ==> AStarFound(OpenAdj(m.grid, m.rows, m.cols), m.entrance, m.exit, m.rows, m.cols,
                                 nodes', endNode, visitedCount')
    ensures |(AllCells(m.rows, m.cols) + {m.entrance}) - closed'.Keys| < |(AllCells(m.rows, m.cols) + {m.entrance}) - closed.Keys|
  {
    ghost var adj := OpenAdj(m.grid, m.rows, m.cols);
    var current := nodes[open[k]];
    open' := open[..k] + open[k + 1..];
    AStarClose(adj, m.entrance, m.exit, m.rows, m.cols, nodes, open, closed.Keys, nodeMap, visitedCount, k);
    closed' := closed[current.point := current.fCost];
    KeysAdd(closed, current.point, current.fCost);
    visitedCount' := visitedCount + 1;
    if current.point == m.exit {
      nodes', nodeMap', found, endNode := nodes, nodeMap, true, nodeMap[current.point];
      AStarFinish(adj, m.entrance, m.exit, m.rows, m.cols, nodes, open', closed'.Keys, nodeMap, visitedCount', m.exit);
    } else {
      found, endNode := false, 0;
      nodes', open', nodeMap' := AStarExpand(m, current, nodes, open', closed', nodeMap, visitedCount');
    }
  }

  lemma KeysAdd<K, V>(M: map<K, V>, k: K, v: V)
    ensures M[k := v].Keys == M.Keys + {k}
  {
  }

  /** What findPathAStar needs once the exit is closed: the node nodeMap
      names for it is no further than any walk, and the count is between
      one and the number of cells. */
  lemma AStarFinish(adj: Point -> seq<Point>, s: Point, t: Point, rows: nat, cols: nat,
                    nodes: seq<AStarNode>, open: seq<nat>, closed: set<Point>,
                    nodeMap: map<Point, nat>, count: int, p: Point)
    requires AStarState(adj, s, t, rows, cols, nodes, open, closed, nodeMap, count, {p}) && p in closed && p == t
    requires rows > 0 && cols > 0 ==> InBounds(rows, cols, s)
    ensures p in nodeMap && AStarFound(adj, s, t, rows, cols, nodes, nodeMap[p], count)
  {
    ClosedBound(closed, s, rows, cols);
  }

  /** Cells of the grid, and the start, which lies on a non-empty grid: at
      most every cell, and at most one on an empty grid. */
  lemma ClosedBound(closed: set<Point>, s: Point, rows: nat, cols: nat)
    requires closed <= AllCells(rows, cols) + {s}
    requires rows > 0 && cols > 0 ==> InBounds(rows, cols, s)
    ensures rows > 0 && cols > 0 ==> |closed| <= rows * cols
    ensures rows == 0 || cols == 0 ==> |closed| <= 1
  {
    AllCellsMembers(rows, cols, s);
    if rows > 0 && cols > 0 {
      AllCellsCount(rows, cols);
      SubsetCard(closed, AllCells(rows, cols));
    } else {
      forall p | p in closed ensures p == s {
        AllCellsMembers(rows, cols, p);
      }
      SubsetCard(closed, {s});
    }
  }

  /** The neighbour loop of findPathAStar: each accessible neighbour of the
      closed cell that is not closed itself gets a new node, with g one more
      than the current node's, when it has none yet or the new g is
      smaller; the new node goes into nodeMap and the open list. */
  method AStarExpand(m: Maze, current: AStarNode, nodes: seq<AStarNode>, open: seq<nat>,
                     closed: map<Point, int>, nodeMap: map<Point, nat>, ghost count: int)
    returns (nodes': seq<AStarNode>, open': seq<nat>, nodeMap': map<Point, nat>)
    requires m.Valid()
    requires AStarState(OpenAdj(m.grid, m.rows, m.cols), m.entrance, m.exit, m.rows, m.cols,
                        nodes, open, closed.Keys, nodeMap, count, {current.point})
    requires current.point in closed && current.point in nodeMap
    requires Best(nodes, nodeMap, current.point) == current.gCost
    ensures AStarState(OpenAdj(m.grid, m.rows, m.cols), m.entrance, m.exit, m.rows, m.cols,
                       nodes', open', closed.Keys, nodeMap', count, {})
  {
    ghost var adj := OpenAdj(m.grid, m.rows, m.cols);
    var exit := m.exit;
    var neighbours := m.GetAccessibleNeighbors(current.point);
    nodes', open', nodeMap' := nodes, open, nodeMap;
    for i := 0 to |neighbours|
      invariant ExpandState(adj, m.entrance, exit, m.rows, m.cols, nodes', open', closed.Keys, nodeMap', count,
                            current, neighbours[..i])
    {
      AccessibleOnGrid(m.grid, m.rows, m.cols, current.point, neighbours[i]);
      nodes', open', nodeMap' := AStarRelax(m, current, neighbours[i], nodes', open', closed, nodeMap', count, neighbours[..i]);
      TakeOneMore(neighbours, i);
    }
    TakeAll(neighbours);
    AStarExpanded(adj, m.entrance, exit, m.rows, m.cols, nodes', open', closed.Keys, nodeMap', count, current.point);
  }

  /** The state of findPathAStar's neighbour loop: the main-loop state with
      the current cell pending, the current node still the one nodeMap
      names for its cell, and the neighbours `vs` already relaxed. */
  ghost predicate ExpandState(adj: Point -> seq<Point>, s: Point, t: Point, rows: nat, cols: nat,
                              nodes: seq<AStarNode>, open: seq<nat>, closed: set<Point>,
                              nodeMap: map<Point, nat>, count: int, current: AStarNode, vs: seq<Point>) {
    && AStarState(adj, s, t, rows, cols, nodes, open, closed, nodeMap, count, {current.point})
    && current.point in closed && current.point in nodeMap
    && Best(nodes, nodeMap, current.point) == current.gCost
    && Relaxed(nodes, nodeMap, closed, current.point, vs)
  }

  /** One neighbour in findPathAStar's neighbour loop: skipped when closed;
      otherwise given a new node, one step further than the current node,
      when it has no node yet or the new g is smaller. */
  method AStarRelax(m: Maze, current: AStarNode, neighbour: Point, nodes: seq<AStarNode>, open: seq<nat>,
                    closed: map<Point, int>, nodeMap: map<Point, nat>, ghost count: int, ghost vs: seq<Point>)
    returns (nodes': seq<AStarNode>, open': seq<nat>, nodeMap': map<Point, nat>)
    requires m.Valid() && neighbour in OpenAdj(m.grid, m.rows, m.cols)(current.point)
    requires InBounds(m.rows, m.cols, neighbour)
    requires ExpandState(OpenAdj(m.grid, m.rows, m.cols), m.entrance, m.exit, m.rows, m.cols,
                         nodes, open, closed.Keys, nodeMap, count, current, vs)
    ensures ExpandState(OpenAdj(m.grid, m.rows, m.cols), m.entrance, m.exit, m.rows, m.cols,
                        nodes', open', closed.Keys, nodeMap', count, current, vs + [neighbour])
  {
    ghost var adj := OpenAdj(m.grid, m.rows, m.cols);
    nodes', open', nodeMap' := nodes, open, nodeMap;
    if neighbour in closed {
      RelaxedKeep(nodes, nodeMap, closed.Keys, current.point, vs, neighbour);
      return;
    }
    var newGCost := current.gCost + 1;
    var hCost := ManhattanDistance(neighbour, m.exit);
    if neighbour !in nodeMap || newGCost < nodes[nodeMap[neighbour]].gCost {
      var neighbourNode := MakeNode(neighbour, newGCost, hCost, ParentAt(nodeMap[current.point]));
      AStarAdd(adj, m.entrance, m.exit, m.rows, m.cols, nodes, open, closed.Keys, nodeMap, count,
               current.point, vs, neighbour, neighbourNode);
      var index := |nodes|;
      nodes' := nodes + [neighbourNode];
      nodeMap' := nodeMap[neighbour := index];
      open' := open + [index];
    } else {
      RelaxedKeep(nodes, nodeMap, closed.Keys, current.point, vs, neighbour);
    }
  }

  /** The top of the open list: a node no other open node is smaller than
      by `operator>`; ties go to the earliest. */
  method PopMin(open: seq<nat>, nodes: seq<AStarNode>) returns (k: nat)
    requires open != [] && forall i :: 0 <= i < |open| ==> open[i] < |nodes|
    ensures k < |open| && forall j :: 0 <= j < |open| ==> !Greater(nodes[open[k]], nodes[open[j]])
  {
    k := 0;
    for i := 1 to |open|
      invariant k < i && forall j :: 0 <= j < i ==> !Greater(nodes[open[k]], nodes[open[j]])
    {
      if Greater(nodes[open[k]], nodes[open[i]]) {
        k := i;
      }
    }
  }

  /** reconstructPath: follow parent links from the end node back to the
      start node, then reverse. The result is a walk from the start to the
      end node's cell with one cell per step of its g. */
  method ReconstructPath(ghost adj: Point -> seq<Point>, ghost s: Point, ghost rows: nat, ghost cols: nat,
                         ghost t: Point, nodes: seq<AStarNode>, endNode: nat) returns (path: seq<Point>)
    requires ArenaOk(adj, s, t, rows, cols, nodes) && endNode < |nodes|
    ensures WalkBetween(adj, path, s, nodes[endNode].point) && |path| == nodes[endNode].gCost + 1
  {
    var rev := [];
    var current := ParentAt(endNode);
    assert Reverse(rev + [nodes[endNode].point]) == [nodes[endNode].point];
    while current.ParentAt?
      invariant current.ParentAt? ==>
        && current.index < |nodes|
        && WalkBetween(adj, Reverse(rev + [nodes[current.index].point]), nodes[current.index].point, nodes[endNode].point)
        && |rev| + nodes[current.index].gCost == nodes[endNode].gCost
      invariant current == NoParent ==>
        WalkBetween(adj, Reverse(rev), s, nodes[endNode].point) && |rev| == nodes[endNode].gCost + 1
      decreases if current.ParentAt? then current.index + 1 else 0
    {
      var j := current.index;
      assert NodeOk(adj, t, rows, cols, nodes, j);
      var next := nodes[j].parent;
      if next.ParentAt? {
        ghost var w := Reverse(rev + [nodes[j].point]);
        ReverseSnoc(rev + [nodes[j].point], nodes[next.index].point);
        WalkPrepend(adj, nodes[next.index].point, w);
      }
      rev := rev + [nodes[j].point];
      current := next;
    }
    path := Reverse(rev);
  }

  // ---------------------------------------------------------------------
  // All simple paths

  /** The default cap of findAllPaths. */
  const DefaultMaxPaths := 100

  /** The cap test of findAllPathsDFS. `allPaths.size() >= maxPaths`
      compares an unsigned size with `maxPaths` converted to unsigned, so a
      negative `maxPaths` never caps. */
  predicate Capped(count: nat, maxPaths: int) {
    maxPaths >= 0 && count >= maxPaths
  }

  /** `p` is `prefix` followed by a walk from `current` to `target` that
      repeats no cell and stays on cells of the grid outside `V`. */
  ghost predicate Extends(adj: Point -> seq<Point>, rows: nat, cols: nat, prefix: seq<Point>,
                          current: Point, target: Point, V: set<Point>, p: seq<Point>) {
    |p| > |prefix| && p[..|prefix|] == prefix
    && FreshWalk(adj, p[|prefix|..], current, target, AllCells(rows, cols) - V)
  }

  /** What findAllPathsDFS adds to `paths0`, ending with `paths`: it keeps
      `paths0` as a prefix and adds distinct extensions of `prefix`, stays
      within the cap when it started within it, and adds every extension
      when the cap is not reached. */
  ghost predicate PathsFound(adj: Point -> seq<Point>, rows: nat, cols: nat, prefix: seq<Point>,
                             current: Point, target: Point, V: set<Point>, maxPaths: int,
                             paths0: seq<seq<Point>>, paths: seq<seq<Point>>) {
    && |paths| >= |paths0| && paths[..|paths0|] == paths0
    && (forall k :: |paths0| <= k < |paths| ==> Extends(adj, rows, cols, prefix, current, target, V, paths[k]))
    && NoRepeat(paths[|paths0|..])
    && (0 <= maxPaths && |paths0| <= maxPaths ==> |paths| <= maxPaths)
    && (!Capped(|paths|, maxPaths) ==>
          forall w :: FreshWalk(adj, w, current, target, AllCells(rows, cols) - V) ==> prefix + w in paths)
  }

  /** The neighbour loop of findAllPathsDFS after the neighbours `done`:
      as PathsFound, restricted to extensions whose second cell is in
      `done`. */
  ghost predicate PathsProgress(adj: Point -> seq<Point>, rows: nat, cols: nat, prefix: seq<Point>,
                                current: Point, target: Point, V: set<Point>, maxPaths: int,
                                paths0: seq<seq<Point>>, paths: seq<seq<Point>>, done: seq<Point>) {
    && |paths| >= |paths0| && paths[..|paths0|] == paths0
    && (forall k :: |paths0| <= k < |paths| ==>
          && Extends(adj, rows, cols, prefix, current, target, V, paths[k])
          && |paths[k]| > |prefix| + 1 && paths[k][|prefix| + 1] in done)
    && NoRepeat(paths[|paths0|..])
    && (0 <= maxPaths && |paths0| <= maxPaths ==> |paths| <= maxPaths)
    && (!Capped(|paths|, maxPaths) ==>
          forall w :: FreshWalk(adj, w, current, target, AllCells(rows, cols) - V) && |w| > 1 && w[1] in done ==>
            prefix + w in paths)
  }

  /** findAllPaths: every simple path from the entrance to the exit, in the
      order the depth-first search meets them, at most `maxPaths` of them
      when `maxPaths` is not negative. Each is a walk through accessible
      steps that repeats no cell, no path is listed twice, and unless the
      cap is reached every such walk is listed. */
  method FindAllPaths(m: Maze, maxPaths: int) returns (allPaths: seq<seq<Point>>)
    requires m.Valid() && ((m.rows > 0 && m.cols > 0) || maxPaths == 0)
    ensures forall p :: p in allPaths ==> WalkBetween(OpenAdj(m.grid, m.rows, m.cols), p, m.entrance, m.exit) && NoRepeat(p)
    ensures NoRepeat(allPaths)
    ensures maxPaths >= 0 ==> |allPaths| <= maxPaths
    ensures !Capped(|allPaths|, maxPaths) ==>
      forall w :: WalkBetween(OpenAdj(m.grid, m.rows, m.cols), w, m.entrance, m.exit) && NoRepeat(w) ==> w in allPaths
  {
    ghost var adj := OpenAdj(m.grid, m.rows, m.cols);
    var currentPath: seq<Point> := [];
    var visited := Unvisited(m.rows, m.cols);
    var entrance, exit := m.entrance, m.exit;
    currentPath, allPaths, visited := FindAllPathsDFS(m, entrance, exit, currentPath, [], visited, maxPaths);
    AllPathsTop(m.grid, m.rows, m.cols, entrance, exit, maxPaths, allPaths);
  }

  /** findAllPaths with its default cap of 100. */
  method FindAllPathsDefault(m: Maze) returns (allPaths: seq<seq<Point>>)
    requires m.Valid() && m.rows > 0 && m.cols > 0
    ensures forall p :: p in allPaths ==> WalkBetween(OpenAdj(m.grid, m.rows, m.cols), p, m.entrance, m.exit) && NoRepeat(p)
    ensures NoRepeat(allPaths) && |allPaths| <= 100
    ensures |allPaths| < 100 ==>
      forall w :: WalkBetween(OpenAdj(m.grid, m.rows, m.cols), w, m.entrance, m.exit) && NoRepeat(w) ==> w in allPaths
  {
    allPaths := FindAllPaths(m, DefaultMaxPaths);
  }

  /** From what the search at the entrance adds to the empty list to the
      promises of findAllPaths. */
  lemma AllPathsTop(g: Grid, rows: nat, cols: nat, s: Point, t: Point, maxPaths: int, paths: seq<seq<Point>>)
    requires InBounds(rows, cols, s) || Capped(|paths|, maxPaths)
    requires PathsFound(OpenAdj(g, rows, cols), rows, cols, [], s, t, {}, maxPaths, [], paths)
    ensures forall p :: p in paths ==> WalkBetween(OpenAdj(g, rows, cols), p, s, t) && NoRepeat(p)
    ensures NoRepeat(paths)
    ensures maxPaths >= 0 ==> |paths| <= maxPaths
    ensures !Capped(|paths|, maxPaths) ==>
      forall w :: WalkBetween(OpenAdj(g, rows, cols), w, s, t) && NoRepeat(w) ==> w in paths
  {
    ghost var adj := OpenAdj(g, rows, cols);
    assert paths[0..] == paths;
    forall p | p in paths ensures WalkBetween(adj, p, s, t) && NoRepeat(p) {
      var k :| 0 <= k < |paths| && paths[k] == p;
      assert Extends(adj, rows, cols, [], s, t, {}, paths[k]);
      assert p[0..] == p;
    }
    if !Capped(|paths|, maxPaths) {
      forall w | WalkBetween(adj, w, s, t) && NoRepeat(w) ensures w in paths {
        WalkOnGrid(g, rows, cols, w);
        assert FreshWalk(adj, w, s, t, AllCells(rows, cols) - {});
        assert [] + w == w;
      }
    }
  }

  /** A walk through accessible steps that starts on the grid stays on
      it. */
  lemma WalkOnGrid(g: Grid, rows: nat, cols: nat, w: seq<Point>)
    requires IsWalk(OpenAdj(g, rows, cols), w) && InBounds(rows, cols, w[0])
    ensures forall i :: 0 <= i < |w| ==> w[i] in AllCells(rows, cols)
  {
    forall i | 0 <= i < |w| ensures w[i] in AllCells(rows, cols) {
      if i > 0 {
        AccessibleOnGrid(g, rows, cols, w[i - 1], w[i]);
      }
      AllCellsMembers(rows, cols, w[i]);
    }
  }

  /** findAllPathsDFS: stop if the cap is reached; otherwise mark `current`
      and push it; at the target record the path, elsewhere search from
      every unmarked accessible neighbour; then pop and unmark. The path
      and the marks come back as they were, and the list grows as
      PathsFound says, with `currentPath` as the prefix and the marked
      cells as the cells to avoid. */
  method FindAllPathsDFS(m: Maze, current: Point, target: Point, currentPath: seq<Point>,
                         allPaths: seq<seq<Point>>, visited: seq<seq<bool>>, maxPaths: int)
    returns (currentPath': seq<Point>, allPaths': seq<seq<Point>>, visited': seq<seq<bool>>)
    requires m.Valid() && (InBounds(m.rows, m.cols, current) || Capped(|allPaths|, maxPaths))
    requires Shaped(visited, m.rows, m.cols) && current !in Marked(visited)
    ensures currentPath' == currentPath && visited' == visited
    ensures PathsFound(OpenAdj(m.grid, m.rows, m.cols), m.rows, m.cols, currentPath, current, target,
                       Marked(visited), maxPaths, allPaths, allPaths')
    decreases |AllCells(m.rows, m.cols) - Marked(visited)|, 0
  {
    ghost var adj := OpenAdj(m.grid, m.rows, m.cols);
    ghost var V := Marked(visited);
    currentPath', allPaths', visited' := currentPath, allPaths, visited;
    if Capped(|allPaths|, maxPaths) {
      PathsNone(adj, m.rows, m.cols, currentPath, current, target, V, maxPaths, allPaths);
      return;
    }
    visited' := Mark(visited, m.rows, m.cols, current);
    currentPath' := currentPath + [current];
    if current == target {
      allPaths' := allPaths + [currentPath'];
      PathsAtTarget(adj, m.rows, m.cols, currentPath, current, V, maxPaths, allPaths);
    } else {
      var neighbours := m.GetAccessibleNeighbors(current);
      AccessibleSpec(m.grid, m.rows, m.cols, current);
      assert neighbours[..0] == [];
      for i := 0 to |neighbours|
        invariant visited' == Mark(visited, m.rows, m.cols, current)
        invariant currentPath' == currentPath + [current]
        invariant PathsProgress(adj, m.rows, m.cols, currentPath, current, target, V, maxPaths,
                                allPaths, allPaths', neighbours[..i])
      {
        AccessibleOnGrid(m.grid, m.rows, m.cols, current, neighbours[i]);
        FewerUnmarked(m.rows, m.cols, V, V + {current}, current);
        NotTaken(neighbours, i);
        currentPath', allPaths', visited' :=
          AllPathsNeighbour(m, current, neighbours[i], target, currentPath', allPaths', visited', maxPaths,
                            currentPath, V, allPaths, neighbours[..i]);
        TakeOneMore(neighbours, i);
      }
      TakeAll(neighbours);
      PathsFinish(adj, m.rows, m.cols, currentPath, current, target, V, maxPaths, allPaths, allPaths', neighbours);
    }
    currentPath' := currentPath'[..|currentPath'| - 1];
    visited' := Unmark(visited', m.rows, m.cols, current);
    UnmarkMark(visited, m.rows, m.cols, current);
  }

  /** One neighbour in findAllPathsDFS's loop: an unmarked neighbour is
      searched from with `current` on the path and marked; a marked one
      adds nothing. */
  method AllPathsNeighbour(m: Maze, current: Point, neighbour: Point, target: Point, currentPath: seq<Point>,
                           allPaths: seq<seq<Point>>, visited: seq<seq<bool>>, maxPaths: int,
                           ghost prefix: seq<Point>, ghost V: set<Point>, ghost paths0: seq<seq<Point>>,
                           ghost done: seq<Point>)
    returns (currentPath': seq<Point>, allPaths': seq<seq<Point>>, visited': seq<seq<bool>>)
    requires m.Valid() && InBounds(m.rows, m.cols, current) && InBounds(m.rows, m.cols, neighbour)
    requires current != target && neighbour in OpenAdj(m.grid, m.rows, m.cols)(current) && neighbour !in done
    requires Shaped(visited, m.rows, m.cols) && Marked(visited) == V + {current} && current !in V
    requires currentPath == prefix + [current]
    requires PathsProgress(OpenAdj(m.grid, m.rows, m.cols), m.rows, m.cols, prefix, current, target, V, maxPaths,
                           paths0, allPaths, done)
    ensures currentPath' == currentPath && visited' == visited
    ensures PathsProgress(OpenAdj(m.grid, m.rows, m.cols), m.rows, m.cols, prefix, current, target, V, maxPaths,
                          paths0, allPaths', done + [neighbour])
    decreases |AllCells(m.rows, m.cols) - Marked(visited)|, 1
  {
    ghost var adj := OpenAdj(m.grid, m.rows, m.cols);
    currentPath', allPaths', visited' := currentPath, allPaths, visited;
    MarkedMembers(visited, neighbour);
    if !visited[neighbour.x][neighbour.y] {
      currentPath', allPaths', visited' := FindAllPathsDFS(m, neighbour, target, currentPath, allPaths, visited, maxPaths);
      NeighbourProgress(adj, m.rows, m.cols, prefix, current, neighbour, target, V, maxPaths, paths0, allPaths, done, allPaths');
    } else {
      SkipProgress(adj, m.rows, m.cols, prefix, current, neighbour, target, V, maxPaths, paths0, allPaths, done);
    }
  }

  /** Pushing then popping `current`, and marking then unmarking it, gives
      back what there was. */
  lemma UnmarkMark(v: seq<seq<bool>>, rows: nat, cols: nat, p: Point)
    requires Shaped(v, rows, cols) && InBounds(rows, cols, p) && p !in Marked(v)
    ensures Unmark(Mark(v, rows, cols, p), rows, cols, p) == v
  {
    MarkedMembers(v, p);
    var row := v[p.x][p.y := true];
    assert row[p.y := false] == v[p.x];
    assert v[p.x := row][p.x := row[p.y := false]] == v;
  }

  /** A capped call adds nothing. */
  lemma PathsNone(adj: Point -> seq<Point>, rows: nat, cols: nat, prefix: seq<Point>, current: Point, target: Point,
                  V: set<Point>, maxPaths: int, paths: seq<seq<Point>>)
    requires Capped(|paths|, maxPaths)
    ensures PathsFound(adj, rows, cols, prefix, current, target, V, maxPaths, paths, paths)
  {
    assert paths[..|paths|] == paths;
  }

  /** At the target the only simple walk is the target itself, and the
      path recorded is the prefix followed by it. */
  lemma PathsAtTarget(adj: Point -> seq<Point>, rows: nat, cols: nat, prefix: seq<Point>, t: Point,
                      V: set<Point>, maxPaths: int, paths: seq<seq<Point>>)
    requires !Capped(|paths|, maxPaths) && InBounds(rows, cols, t) && t !in V
    ensures PathsFound(adj, rows, cols, prefix, t, t, V, maxPaths, paths, paths + [prefix + [t]])
  {
    var paths' := paths + [prefix + [t]];
    AllCellsMembers(rows, cols, t);
    assert (prefix + [t])[|prefix|..] == [t];
    assert (prefix + [t])[..|prefix|] == prefix;
    assert paths'[..|paths|] == paths;
    assert paths'[|paths|..] == [prefix + [t]];
    assert Extends(adj, rows, cols, prefix, t, t, V, paths'[|paths|]);
    forall w | FreshWalk(adj, w, t, t, AllCells(rows, cols) - V) ensures prefix + w in paths' {
      assert |w| == 1;
      assert w == [t];
    }
  }

  /** After every neighbour has been searched, every extension whose second
      cell is a neighbour is every extension: a simple walk from `current`
      to another cell has a second cell, and it is a neighbour. */
  lemma PathsFinish(adj: Point -> seq<Point>, rows: nat, cols: nat, prefix: seq<Point>, current: Point, target: Point,
                    V: set<Point>, maxPaths: int, paths0: seq<seq<Point>>, paths: seq<seq<Point>>, neighbours: seq<Point>)
    requires current != target && neighbours == adj(current)
    requires PathsProgress(adj, rows, cols, prefix, current, target, V, maxPaths, paths0, paths, neighbours)
    ensures PathsFound(adj, rows, cols, prefix, current, target, V, maxPaths, paths0, paths)
  {
    if !Capped(|paths|, maxPaths) {
      forall w | FreshWalk(adj, w, current, target, AllCells(rows, cols) - V) ensures prefix + w in paths {
        assert |w| > 1 && w[1] in adj(w[0]);
      }
    }
  }

  /** A marked neighbour (in `V` or `current` itself) begins no extension:
      a fresh walk avoids `V` and does not come back to `current`. */
  lemma SkipProgress(adj: Point -> seq<Point>, rows: nat, cols: nat, prefix: seq<Point>, current: Point, v: Point,
                     target: Point, V: set<Point>, maxPaths: int, paths0: seq<seq<Point>>, paths: seq<seq<Point>>,
                     done: seq<Point>)
    requires v in V + {current}
    requires PathsProgress(adj, rows, cols, prefix, current, target, V, maxPaths, paths0, paths, done)
    ensures PathsProgress(adj, rows, cols, prefix, current, target, V, maxPaths, paths0, paths, done + [v])
  {
    forall w | FreshWalk(adj, w, current, target, AllCells(rows, cols) - V) && |w| > 1
      ensures w[1] != v
    {
      assert w[1] in AllCells(rows, cols) - V;
      assert w[0] != w[1];
    }
  }

  /** A search from neighbour `v` with `current` pushed and marked adds
      extensions of `prefix` through `current` and `v`, distinct from those
      already added through earlier neighbours, and, unless capped, all of
      them. */
  lemma NeighbourProgress(adj: Point -> seq<Point>, rows: nat, cols: nat, prefix: seq<Point>, current: Point, v: Point,
                          target: Point, V: set<Point>, maxPaths: int, paths0: seq<seq<Point>>, paths: seq<seq<Point>>,
                          done: seq<Point>, paths': seq<seq<Point>>)
    requires v in adj(current) && v !in done && current !in V && InBounds(rows, cols, current)
    requires PathsProgress(adj, rows, cols, prefix, current, target, V, maxPaths, paths0, paths, done)
    requires PathsFound(adj, rows, cols, prefix + [current], v, target, V + {current}, maxPaths, paths, paths')
    ensures PathsProgress(adj, rows, cols, prefix, current, target, V, maxPaths, paths0, paths', done + [v])
  {
    GrowTwice(paths0, paths, paths');
    forall k | |paths0| <= k < |paths'|
      ensures Extends(adj, rows, cols, prefix, current, target, V, paths'[k])
      ensures |paths'[k]| > |prefix| + 1 && paths'[k][|prefix| + 1] in done + [v]
    {
      if k < |paths| {
        KeptAt(paths, paths', k);
      } else {
        ExtendsPrepend(adj, rows, cols, prefix, current, v, target, V, paths'[k]);
      }
    }
    NewDistinct(prefix, paths0, paths, paths', done, v);
    if !Capped(|paths'|, maxPaths) {
      forall w | FreshWalk(adj, w, current, target, AllCells(rows, cols) - V) && |w| > 1 && w[1] in done + [v]
        ensures prefix + w in paths'
      {
        if w[1] in done {
          KeptMember(paths, paths', prefix + w);
        } else {
          WalkTail(adj, rows, cols, current, target, V, w);
          Reassemble(prefix, w);
        }
      }
    }
  }

  /** An extension of `prefix + [current]` from neighbour `v` avoiding
      `V` and `current` is an extension of `prefix` from `current`
      avoiding `V`. */
  lemma ExtendsPrepend(adj: Point -> seq<Point>, rows: nat, cols: nat, prefix: seq<Point>, current: Point, v: Point,
                       target: Point, V: set<Point>, p: seq<Point>)
    requires v in adj(current) && current !in V && InBounds(rows, cols, current)
    requires Extends(adj, rows, cols, prefix + [current], v, target, V + {current}, p)
    ensures Extends(adj, rows, cols, prefix, current, target, V, p)
    ensures |p| > |prefix| + 1 && p[|prefix| + 1] == v
  {
    Regroup(prefix, current, p);
    AllCellsMembers(rows, cols, current);
    FreshPrepend(adj, current, p[|prefix| + 1..], target, AllCells(rows, cols) - (V + {current}), AllCells(rows, cols) - V);
  }

  /** Dropping the first cell of a fresh walk from `current` leaves a fresh
      walk from its second cell that also avoids `current`. */
  lemma WalkTail(adj: Point -> seq<Point>, rows: nat, cols: nat, current: Point, target: Point, V: set<Point>, w: seq<Point>)
    requires FreshWalk(adj, w, current, target, AllCells(rows, cols) - V) && |w| > 1
    ensures FreshWalk(adj, w[1..], w[1], target, AllCells(rows, cols) - (V + {current}))
  {
    WalkSuffix(adj, w, 1);
    forall i | 0 <= i < |w[1..]| ensures w[1..][i] in AllCells(rows, cols) - (V + {current}) {
      assert w[1..][i] == w[i + 1] && w[0] != w[i + 1];
    }
  }
}
