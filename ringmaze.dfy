/** The concentric-ring maze. Ring `r` (0 innermost) holds `6 * 2^r` slots;
    a cell is a `Point(r, i)` with `i` its slot. Slot `i` of ring `r` touches
    its two ring neighbours and, through the concentric wall on its outer
    side, slots `2i` and `2i + 1` of ring `r + 1`. Each radial wall is stored
    on the cell counter-clockwise of it (`vertical[r][i]` separates slots `i`
    and `i + 1 mod n`), each concentric wall on the inner cell
    (`horizontal[r][i]` closes both outward neighbours of `(r, i)`). */
module RingMaze {
  import opened MazeTypes
  import opened Walks

  function Pow2(k: nat): (r: nat)
    ensures r >= 1
  {
    if k == 0 then 1 else 2 * Pow2(k - 1)
  }

  /** The number of slots on ring `r`: six, doubling outward. */
  function Slots(r: nat): (n: nat)
    ensures n >= 6
  {
    6 * Pow2(r)
  }

  lemma SlotsDouble(r: nat)
    ensures Slots(r + 1) == 2 * Slots(r)
  {
  }

  /** Slots on rings `0 .. k-1` together. */
  function TotalSlots(k: nat): nat {
    if k == 0 then 0 else TotalSlots(k - 1) + Slots(k - 1)
  }

  /** The ring sizes sum to `6 * (2^k - 1)`. */
  lemma {:induction false} TotalSlotsClosed(k: nat)
    ensures TotalSlots(k) == 6 * (Pow2(k) - 1)
  {
    if k > 0 {
      TotalSlotsClosed(k - 1);
    }
  }

  predicate ValidCell(rings: int, p: Point) {
    0 <= p.x < rings && 0 <= p.y < Slots(p.x)
  }

  /** The ring graph: the two ring neighbours, and slot `i` of ring `r`
      against slots `2i` and `2i + 1` of ring `r + 1`. */
  predicate Adjacent(rings: int, p: Point, q: Point) {
    && ValidCell(rings, p) && ValidCell(rings, q)
    && ( (q.x == p.x && (q.y == (p.y + 1) % Slots(p.x) || p.y == (q.y + 1) % Slots(p.x)))
      || (q.x == p.x + 1 && q.y / 2 == p.y)
      || (p.x == q.x + 1 && p.y / 2 == q.y))
  }

  /** A wall flag: `Radial(r, i)` is `vertical[r][i]`, `Concentric(r, i)`
      is `horizontal[r][i]`. */
  datatype Flag = Radial(ring: int, slot: int) | Concentric(ring: int, slot: int)

  /** The flag that stands between two adjacent cells. */
  function FlagBetween(p: Point, q: Point): Flag
    requires p.x >= 0
  {
    if p.x == q.x then Radial(p.x, if q.y == (p.y + 1) % Slots(p.x) then p.y else q.y)
    else if p.x < q.x then Concentric(p.x, p.y)
    else Concentric(q.x, q.y)
  }

  /** Both sides name the same flag. */
  lemma FlagBetweenSymmetric(rings: int, p: Point, q: Point)
    requires Adjacent(rings, p, q)
    ensures FlagBetween(p, q) == FlagBetween(q, p)
  {
    if p.x == q.x && q.y == (p.y + 1) % Slots(p.x) {
      RingStepUnique(Slots(p.x), p.y, q.y);
    }
  }

  /** On a ring of at least three slots, `j` is the clockwise neighbour of
      `i` exactly when `i` is the counter-clockwise neighbour of `j`, and
      then not the other way round. */
  lemma RingStepUnique(n: nat, i: int, j: int)
    requires n >= 3 && 0 <= i < n && 0 <= j < n
    ensures j == (i + 1) % n <==> i == (j - 1 + n) % n
    ensures j == (i + 1) % n ==> i != (j + 1) % n
  {
    Succ(n, i);
    Succ(n, j);
    Pred(n, j);
  }

  lemma ModSmall(x: int, n: int)
    requires 0 <= x < n
    ensures x % n == x
  {
  }

  lemma ModWrap(x: int, n: int)
    requires n <= x < 2 * n
    ensures x % n == x - n
  {
  }

  /** The clockwise slot `(i + 1) % n`. */
  lemma Succ(n: int, i: int)
    requires 0 <= i < n
    ensures (i + 1) % n == if i == n - 1 then 0 else i + 1
  {
    if i == n - 1 { ModWrap(i + 1, n); } else { ModSmall(i + 1, n); }
  }

  /** The counter-clockwise slot `(i - 1 + n) % n`. */
  lemma Pred(n: int, i: int)
    requires 0 <= i < n
    ensures (i - 1 + n) % n == if i == 0 then n - 1 else i - 1
  {
    if i == 0 { ModSmall(i - 1 + n, n); } else { ModWrap(i - 1 + n, n); }
  }

  /** `rings` rows of flags, ring `r` holding one per slot. */
  ghost predicate RingShaped(rings: int, walls: seq<seq<bool>>) {
    rings >= 0 && |walls| == rings && forall r :: 0 <= r < rings ==> |walls[r]| == Slots(r)
  }

  ghost predicate AllUp(walls: seq<seq<bool>>) {
    forall r, i :: 0 <= r < |walls| && 0 <= i < |walls[r]| ==> walls[r][i]
  }

  /** Starting from `h0`, `v0`, exactly the flags of `F` have come down:
      a flag stands afterwards when it stood before and is not in `F`. */
  ghost predicate CarvedWalls(h0: seq<seq<bool>>, v0: seq<seq<bool>>, h1: seq<seq<bool>>, v1: seq<seq<bool>>,
                              F: set<Flag>) {
    && |h1| == |h0| && (forall r :: 0 <= r < |h0| ==> |h1[r]| == |h0[r]|)
    && |v1| == |v0| && (forall r :: 0 <= r < |v0| ==> |v1[r]| == |v0[r]|)
    && (forall r, i :: 0 <= r < |h0| && 0 <= i < |h0[r]| ==> (h1[r][i] <==> h0[r][i] && Concentric(r, i) !in F))
    && (forall r, i :: 0 <= r < |v0| && 0 <= i < |v0[r]| ==> (v1[r][i] <==> v0[r][i] && Radial(r, i) !in F))
  }

  predicate FlagUp(h: seq<seq<bool>>, v: seq<seq<bool>>, f: Flag) {
    match f
    case Radial(r, i) => 0 <= r < |v| && 0 <= i < |v[r]| && v[r][i]
    case Concentric(r, i) => 0 <= r < |h| && 0 <= i < |h[r]| && h[r][i]
  }

  /** `q` can be entered from `p`: they are adjacent and the flag between
      them is down. */
  predicate OpenIn(rings: int, h: seq<seq<bool>>, v: seq<seq<bool>>, p: Point, q: Point) {
    Adjacent(rings, p, q) && !FlagUp(h, v, FlagBetween(p, q))
  }

  /** The flags with the one at `[r][i]` brought down; an index off the
      arrays changes nothing. */
  function Cleared(walls: seq<seq<bool>>, r: int, i: int): (w: seq<seq<bool>>)
    ensures |w| == |walls| && forall k :: 0 <= k < |walls| ==> |w[k]| == |walls[k]|
    ensures forall k, j :: 0 <= k < |walls| && 0 <= j < |walls[k]| ==>
      w[k][j] == (walls[k][j] && !(k == r && j == i))
  {
    if 0 <= r < |walls| && 0 <= i < |walls[r]| then walls[r := walls[r][i := false]] else walls
  }

  function Min(a: int, b: int): int {
    if a < b then a else b
  }

  /** The concentric flags with `f` brought down when it is one of them. */
  function ClearConcentric(h: seq<seq<bool>>, f: Flag): seq<seq<bool>> {
    if f.Concentric? then Cleared(h, f.ring, f.slot) else h
  }

  /** The radial flags with `f` brought down when it is one of them. */
  function ClearRadial(v: seq<seq<bool>>, f: Flag): seq<seq<bool>> {
    if f.Radial? then Cleared(v, f.ring, f.slot) else v
  }

  /** The two slots `n - 1` and `0` that close ring `a.x`. */
  predicate WrapPair(a: Point, b: Point) {
    a.x == b.x && a.x >= 0 && Min(a.y, b.y) == 0 && a.y + b.y == Slots(a.x) - 1
  }

  /** The flag removeWallBetween(a, b) brings down: on one ring the radial
      flag at the smaller slot, across rings the concentric flag of the
      inner cell. */
  function ClearedFlag(a: Point, b: Point): Flag {
    if a.x == b.x then Radial(a.x, Min(a.y, b.y))
    else if a.x < b.x then Concentric(a.x, a.y)
    else Concentric(b.x, b.y)
  }

  /** For adjacent cells the flag brought down is the one between them,
      except for the pair of slots `n - 1` and `0` that closes a ring: there
      the flag at slot 0, the wall between slots 0 and 1, comes down
      instead. */
  lemma ClearedFlagBetween(rings: int, a: Point, b: Point)
    requires Adjacent(rings, a, b)
    ensures ClearedFlag(a, b) == FlagBetween(a, b) <==> !WrapPair(a, b)
    ensures WrapPair(a, b) ==> ClearedFlag(a, b) == FlagBetween(Point(a.x, 0), Point(a.x, 1))
  {
    var n := Slots(a.x);
    if a.x == b.x {
      Succ(n, a.y);
      Succ(n, b.y);
      Succ(n, 0);
    }
  }

  /** Bringing down flag `f` opens exactly the adjacent pairs `f` stood
      between, in both directions, and closes nothing. */
  lemma ClearEffect(rings: int, h: seq<seq<bool>>, v: seq<seq<bool>>, f: Flag, p: Point, q: Point)
    ensures f.Radial? ==>
      (OpenIn(rings, h, Cleared(v, f.ring, f.slot), p, q) <==>
         OpenIn(rings, h, v, p, q) || (Adjacent(rings, p, q) && FlagBetween(p, q) == f))
    ensures f.Concentric? ==>
      (OpenIn(rings, Cleared(h, f.ring, f.slot), v, p, q) <==>
         OpenIn(rings, h, v, p, q) || (Adjacent(rings, p, q) && FlagBetween(p, q) == f))
  {
  }

  /** Every cell of a `rings`-ring maze. */
  ghost function RingCells(rings: nat): set<Point> {
    set r: int, i: int | 0 <= r < rings && 0 <= i < Slots(r) :: Point(r, i)
  }

  ghost function RingRow(r: nat, n: nat): set<Point> {
    set i: int | 0 <= i < n :: Point(r, i)
  }

  lemma {:induction false} RingRowCount(r: nat, n: nat)
    ensures |RingRow(r, n)| == n
  {
    if n > 0 {
      RingRowCount(r, n - 1);
      assert RingRow(r, n) == RingRow(r, n - 1) + {Point(r, n - 1)};
    }
  }

  /** There are `TotalSlots(rings)` cells. */
  lemma {:induction false} RingCellsCount(rings: nat)
    ensures |RingCells(rings)| == TotalSlots(rings)
    ensures forall p :: p in RingCells(rings) <==> ValidCell(rings, p)
  {
    if rings > 0 {
      RingCellsCount(rings - 1);
      RingRowCount(rings - 1, Slots(rings - 1));
      assert RingCells(rings) == RingCells(rings - 1) + RingRow(rings - 1, Slots(rings - 1));
      assert RingCells(rings - 1) !! RingRow(rings - 1, Slots(rings - 1));
    }
  }

  /** A set holding the centre cell and closed under adjacency holds every
      cell: the ring graph is connected. */
  lemma RingConnected(rings: int, M: set<Point>)
    requires Point(0, 0) in M
    requires forall c, q :: c in M && Adjacent(rings, c, q) ==> q in M
    ensures forall p :: ValidCell(rings, p) ==> p in M
  {
    forall p | ValidCell(rings, p) ensures p in M {
      Reach(rings, M, p);
    }
  }

  lemma Reach(rings: int, M: set<Point>, p: Point)
    requires Point(0, 0) in M
    requires forall c, q :: c in M && Adjacent(rings, c, q) ==> q in M
    requires ValidCell(rings, p)
    ensures p in M
    decreases p.x, p.y
  {
    if p.x > 0 {
      var c := Point(p.x - 1, p.y / 2);
      Reach(rings, M, c);
      assert Adjacent(rings, c, p);
    } else if p.y > 0 {
      var c := Point(0, p.y - 1);
      Reach(rings, M, c);
      Succ(Slots(0), c.y);
      assert Adjacent(rings, c, p);
    }
  }

  /** `rings` rows of `Slots(r)` raised flags: the `assign(cells, true)`
      loop of the constructor. */
  method WalledRings(rings: nat) returns (walls: seq<seq<bool>>)
    ensures RingShaped(rings, walls) && AllUp(walls)
  {
    walls := [];
    for r := 0 to rings
      invariant RingShaped(r, walls) && AllUp(walls)
    {
      walls := walls + [seq(Slots(r), _ => true)];
    }
  }

  class CircularMaze {
    const rings: int
    const cellsInRing: seq<int>
    var horizontal: seq<seq<bool>>
    var vertical: seq<seq<bool>>
    var entrance: Point
    var exit: Point

    /** Ring `r` has `Slots(r)` cells and one radial and one concentric flag
        per cell. */
    ghost predicate Valid()
      reads this
    {
      && rings >= 0
      && |cellsInRing| == rings
      && (forall r :: 0 <= r < rings ==> cellsInRing[r] == Slots(r))
      && RingShaped(rings, horizontal) && RingShaped(rings, vertical)
    }

    /** CircularMaze(rings): at least three rings, every wall standing, the
        entrance at the centre slot 0 and the exit at slot 0 of the outer
        ring. */
    constructor(requested: int)
      ensures Valid() && rings == (if requested > 3 then requested else 3)
      ensures AllUp(horizontal) && AllUp(vertical)
      ensures entrance == Point(0, 0) && exit == Point(rings - 1, 0)
    {
      var count := if requested > 3 then requested else 3;
      var sizes: seq<int> := [];
      for i := 0 to count
        invariant |sizes| == i && forall r :: 0 <= r < i ==> sizes[r] == Slots(r)
      {
        var n := 6 * Pow2(i);
        if n < 6 {
          n := 6;
        }
        sizes := sizes + [n];
      }
      var hs := WalledRings(count);
      var vs := WalledRings(count);
      rings := count;
      cellsInRing := sizes;
      horizontal := hs;
      vertical := vs;
      entrance := Point(0, 0);
      exit := Point(count - 1, 0);
    }

    /** The older constructor: the ring count is taken as given. */
    constructor Unclamped(requested: int)
      requires requested >= 0
      ensures Valid() && rings == requested
      ensures AllUp(horizontal) && AllUp(vertical)
      ensures entrance == Point(0, 0) && exit == Point(rings - 1, 0)
    {
      var sizes: seq<int> := [];
      for i := 0 to requested
        invariant |sizes| == i && forall r :: 0 <= r < i ==> sizes[r] == Slots(r)
      {
        sizes := sizes + [6 * Pow2(i)];
      }
      var hs := WalledRings(requested);
      var vs := WalledRings(requested);
      rings := requested;
      cellsInRing := sizes;
      horizontal := hs;
      vertical := vs;
      entrance := Point(0, 0);
      exit := Point(requested - 1, 0);
    }

    predicate IsValidPosition(p: Point)
      reads this
      requires Valid()
    {
      0 <= p.x < rings && 0 <= p.y < cellsInRing[p.x]
    }

    lemma IsValidPositionSpec(p: Point)
      requires Valid()
      ensures IsValidPosition(p) <==> ValidCell(rings, p)
    {
    }

    function GetCellsInRing(ring: int): (n: int)
      reads this
      requires Valid()
      ensures 0 <= ring < rings ==> n == Slots(ring)
      ensures !(0 <= ring < rings) ==> n == 0
    {
      if 0 <= ring < rings then cellsInRing[ring] else 0
    }

    /** getAllNeighbors: the two ring neighbours, the outer cells and the
        inner cell; nothing for a cell off the maze. The float `ratio` of
        neighbouring ring sizes is exactly 2 (the sizes double), so the
        outer cells are slots `2i` and `2i + 1` (the `ratio > 1.5` branch is
        always taken) and the inner cell is slot `i / 2`. */
    function GetAllNeighbors(p: Point): (ns: seq<Point>)
      reads this
      requires Valid()
      ensures forall q :: q in ns <==> Adjacent(rings, p, q)
    {
      var r := p.x;
      if r < 0 || r >= rings then []
      else
        var i := p.y;
        var n := cellsInRing[r];
        if i < 0 || i >= n then []
        else
          var around := [Point(r, (i + 1) % n), Point(r, (i - 1 + n) % n)];
          var outward :=
            if r + 1 < rings then
              var outer := cellsInRing[r + 1];
              [Point(r + 1, (2 * i) % outer), Point(r + 1, (2 * i + 1) % outer)]
            else [];
          var inward :=
            if r > 0 then
              var inner := cellsInRing[r - 1];
              var k := i / 2;
              if 0 <= k < inner then [Point(r - 1, k)] else []
            else [];
          NeighbourList(rings, p, around, outward, inward)
    }

    /** getAccessibleNeighbors: the neighbours whose separating flag is
        down — the ring neighbours by their radial flags, both outer cells
        by the one concentric flag of `p`, the inner cell by its concentric
        flag; nothing for a cell off the maze. */
    function GetAccessibleNeighbors(p: Point): (ns: seq<Point>)
      reads this
      requires Valid()
      ensures forall q :: q in ns <==> OpenIn(rings, horizontal, vertical, p, q)
    {
      var r := p.x;
      if r < 0 || r >= rings then []
      else
        var i := p.y;
        var n := cellsInRing[r];
        if i < 0 || i >= n then []
        else
          var cw := if n > 0 && !vertical[r][i] then [Point(r, (i + 1) % n)] else [];
          var ccw := if n > 0 && !vertical[r][(i - 1 + n) % n] then [Point(r, (i - 1 + n) % n)] else [];
          var outward :=
            if r + 1 < rings && n > 0 && !horizontal[r][i] then
              var outer := cellsInRing[r + 1];
              [Point(r + 1, (2 * i) % outer), Point(r + 1, (2 * i + 1) % outer)]
            else [];
          var inward :=
            if r > 0 then
              var inner := cellsInRing[r - 1];
              var k := i / 2;
              if 0 <= k < inner && !horizontal[r - 1][k] then [Point(r - 1, k)] else []
            else [];
          OpenList(rings, horizontal, vertical, p, cw + ccw, outward, inward)
    }

    /** The older getAllNeighbors, which neither checks `p` nor reduces the
        outer slots modulo the ring size: on a cell of the maze it lists the
        same cells. */
    function AllNeighborsUnchecked(p: Point): (ns: seq<Point>)
      reads this
      requires Valid() && ValidCell(rings, p)
      ensures ns == GetAllNeighbors(p)
    {
      var r := p.x;
      var i := p.y;
      var n := cellsInRing[r];
      var around := [Point(r, (i + 1) % n), Point(r, (i - 1 + n) % n)];
      var outward := if r + 1 < rings then [Point(r + 1, 2 * i), Point(r + 1, 2 * i + 1)] else [];
      var inward := if r > 0 then [Point(r - 1, i / 2)] else [];
      OuterInRange(r, i);
      InnerInRange(r, i);
      around + outward + inward
    }

    /** The older getAccessibleNeighbors, indexing the flag arrays without
        checks: on a cell of the maze it lists the same cells. */
    function AccessibleUnchecked(p: Point): (ns: seq<Point>)
      reads this
      requires Valid() && ValidCell(rings, p)
      ensures ns == GetAccessibleNeighbors(p)
    {
      var r := p.x;
      var i := p.y;
      var n := cellsInRing[r];
      Pred(n, i);
      SlotsAround(p);
      var cw := if !vertical[r][i] then [Point(r, (i + 1) % n)] else [];
      var ccw := if !vertical[r][(i - 1 + n) % n] then [Point(r, (i - 1 + n) % n)] else [];
      var outward :=
        if r + 1 < rings && !horizontal[r][i] then [Point(r + 1, 2 * i), Point(r + 1, 2 * i + 1)] else [];
      var inward :=
        if r > 0 then
          var innerNeighbour := Point(r - 1, i / 2);
          if !horizontal[innerNeighbour.x][innerNeighbour.y] then [innerNeighbour] else []
        else [];
      cw + ccw + outward + inward
    }

    /** On a cell of the maze, the slots `2i` and `2i + 1` of the next ring
        out and the slot `i / 2` of the next ring in exist. */
    lemma SlotsAround(p: Point)
      requires Valid() && ValidCell(rings, p)
      ensures p.x + 1 < rings ==> (2 * p.y) % cellsInRing[p.x + 1] == 2 * p.y && (2 * p.y + 1) % cellsInRing[p.x + 1] == 2 * p.y + 1
      ensures p.x > 0 ==> 0 <= p.y / 2 < cellsInRing[p.x - 1]
    {
      OuterInRange(p.x, p.y);
      InnerInRange(p.x, p.y);
      if p.x + 1 < rings {
        assert cellsInRing[p.x + 1] == Slots(p.x + 1);
      }
      if p.x > 0 {
        assert cellsInRing[p.x - 1] == Slots(p.x - 1);
      }
    }

    /** generate: the stack-based carve from the centre cell.
        `shuffle(k, s)` stands for the k-th std::shuffle of a neighbour
        list, some reordering of it. Every cell is marked and pushed exactly
        once (`pushed` lists them in push order). Each push after the first
        carves from a pushed neighbour to the new cell (`carved` lists the
        pairs), and exactly the flags removeWallBetween clears for those
        pairs come down; outside the wrap pair each carve opens its cells
        to each other. */
    method Generate(shuffle: (nat, seq<Point>) -> seq<Point>)
      returns (ghost pushed: seq<Point>, ghost carved: seq<(Point, Point)>)
      requires Valid() && rings >= 1
      requires forall k, s :: multiset(shuffle(k, s)) == multiset(s)
      modifies this
      ensures Valid() && entrance == old(entrance) && exit == old(exit)
      ensures NoRepeat(pushed) && forall p :: p in pushed <==> ValidCell(rings, p)
      ensures |pushed| == TotalSlots(rings) && CarveLog(rings, pushed, carved)
      ensures CarvedWalls(old(horizontal), old(vertical), horizontal, vertical, CarvedFlags(carved))
      ensures forall k :: 0 <= k < |carved| && !WrapPair(carved[k].0, carved[k].1) ==>
        OpenIn(rings, horizontal, vertical, carved[k].0, carved[k].1)
    {
      var visited := Unvisited();
      var start := Point(0, 0);
      var stack := [start];
      visited := visited[start.x := visited[start.x][start.y := true]];
      ghost var M := {start};
      pushed, carved := [start], [];
      CarveStart(rings, visited, M, stack, pushed);
      assert CarvedFlags(carved) == {};
      var draws: nat := 0;
      while stack != []
        invariant Valid() && entrance == old(entrance) && exit == old(exit)
        invariant CarvedWalls(old(horizontal), old(vertical), horizontal, vertical, CarvedFlags(carved))
        invariant MarksMatch(rings, visited, M) && PushedOnce(M, pushed, |carved|)
        invariant CarveLog(rings, pushed, carved)
        invariant StackFrontier(rings, M, stack) && start in M
        decreases |RingCells(rings) - M|, |stack|
      {
        ghost var h0, v0, stack0, carved0 := horizontal, vertical, stack, carved;
        visited, stack, M, pushed, carved := CarveStep(shuffle, draws, visited, stack, M, pushed, carved);
        if |stack| == |stack0| + 1 {
          CarveWallsStep(old(horizontal), old(vertical), h0, v0, carved0, stack0[|stack0| - 1], stack[|stack0|]);
        }
        draws := draws + 1;
      }
      CarveDone(rings, visited, M, pushed, |carved|);
      forall k | 0 <= k < |carved| && !WrapPair(carved[k].0, carved[k].1)
        ensures OpenIn(rings, horizontal, vertical, carved[k].0, carved[k].1)
      {
        CarvedOpen(rings, old(horizontal), old(vertical), horizontal, vertical, carved, k);
      }
    }

    /** generate's first loop: every cell of every ring unvisited. */
    method Unvisited() returns (visited: seq<seq<bool>>)
      requires Valid()
      ensures RingShaped(rings, visited) && NoneMarked(visited)
    {
      visited := [];
      for r := 0 to rings
        invariant RingShaped(r, visited) && NoneMarked(visited)
      {
        visited := visited + [seq(cellsInRing[r], _ => false)];
      }
    }

    /** One round of generate's loop: look at the stack top, shuffle its
        neighbours and take the first unvisited one; carve to it, mark it
        and push it, or pop when there is none. A push brings down the flag
        `ClearedFlag(top, next)` and logs the pair; a pop changes no flag.
        Either a new cell is marked or, with the marks unchanged, the stack
        shrinks. */
    method CarveStep(shuffle: (nat, seq<Point>) -> seq<Point>, k: nat, visited: seq<seq<bool>>, stack: seq<Point>,
                     ghost M: set<Point>, ghost pushed: seq<Point>, ghost carved: seq<(Point, Point)>)
      returns (visited': seq<seq<bool>>, stack': seq<Point>, ghost M': set<Point>, ghost pushed': seq<Point>,
               ghost carved': seq<(Point, Point)>)
      requires Valid() && stack != []
      requires forall k, s :: multiset(shuffle(k, s)) == multiset(s)
      requires MarksMatch(rings, visited, M) && PushedOnce(M, pushed, |carved|)
      requires CarveLog(rings, pushed, carved)
      requires StackFrontier(rings, M, stack) && Point(0, 0) in M
      modifies this
      ensures Valid() && entrance == old(entrance) && exit == old(exit)
      ensures MarksMatch(rings, visited', M') && PushedOnce(M', pushed', |carved'|)
      ensures CarveLog(rings, pushed', carved')
      ensures StackFrontier(rings, M', stack') && Point(0, 0) in M'
      ensures |RingCells(rings) - M'| < |RingCells(rings) - M| || (M' == M && |stack'| < |stack|)
      ensures |stack'| == |stack| + 1 ==>
        var top, next := stack[|stack| - 1], stack'[|stack|];
        && stack' == stack + [next] && pushed' == pushed + [next] && carved' == carved + [(top, next)]
        && Adjacent(rings, top, next)
        && horizontal == ClearConcentric(old(horizontal), ClearedFlag(top, next))
        && vertical == ClearRadial(old(vertical), ClearedFlag(top, next))
      ensures |stack'| != |stack| + 1 ==>
        && stack' == stack[..|stack| - 1] && pushed' == pushed && carved' == carved
        && horizontal == old(horizontal) && vertical == old(vertical)
    {
      var current := stack[|stack| - 1];
      var neighbors := GetAllNeighbors(current);
      neighbors := shuffle(k, neighbors);
      var next := FirstUnvisited(neighbors, visited);
      if next.x != -1 {
        SameMembers(neighbors, GetAllNeighbors(current), next);
        RemoveWallBetween(current, next);
        visited' := visited[next.x := visited[next.x][next.y := true]];
        stack' := stack + [next];
        M', pushed', carved' := M + {next}, pushed + [next], carved + [(current, next)];
        PushStep(rings, visited, stack, M, pushed, |carved|, next);
        CarveLogPush(rings, pushed, carved, current, next);
      } else {
        forall q | Adjacent(rings, current, q) ensures q in M {
          SameMembers(GetAllNeighbors(current), neighbors, q);
        }
        PopStep(rings, M, stack);
        visited', stack' := visited, stack[..|stack| - 1];
        M', pushed', carved' := M, pushed, carved;
      }
    }

    /** The scan after the shuffle: the first listed cell that is on the
        maze and unvisited, or the sentinel `(-1, -1)` when there is none. */
    method FirstUnvisited(ns: seq<Point>, visited: seq<seq<bool>>) returns (next: Point)
      requires Valid() && RingShaped(rings, visited)
      ensures next.x != -1 ==> next in ns && ValidCell(rings, next) && !visited[next.x][next.y]
      ensures next.x != -1 ==> exists j :: 0 <= j < |ns| && ns[j] == next && Untaken(rings, ns, visited, j)
      ensures next.x == -1 ==> next == Point(-1, -1) && Untaken(rings, ns, visited, |ns|)
    {
      next := Point(-1, -1);
      for j := 0 to |ns|
        invariant next == Point(-1, -1) && Untaken(rings, ns, visited, j)
      {
        var n := ns[j];
        if IsValidPosition(n) && !visited[n.x][n.y] {
          next := n;
          return;
        }
      }
    }

    /** removeWallBetween: brings down the flag `ClearedFlag(a, b)` when it
        indexes the arrays; nothing else changes. */
    method RemoveWallBetween(a: Point, b: Point)
      requires Valid()
      modifies this
      ensures Valid() && entrance == old(entrance) && exit == old(exit)
      ensures horizontal == ClearConcentric(old(horizontal), ClearedFlag(a, b))
      ensures vertical == ClearRadial(old(vertical), ClearedFlag(a, b))
      ensures a.x == b.x ==>
        vertical == Cleared(old(vertical), a.x, Min(a.y, b.y)) && horizontal == old(horizontal)
      ensures a.x != b.x ==>
        var inner := if a.x < b.x then a else b;
        horizontal == Cleared(old(horizontal), inner.x, inner.y) && vertical == old(vertical)
    {
      if a.x == b.x {
        var i := Min(a.y, b.y);
        if a.x >= 0 && a.x < rings && i >= 0 && i < |vertical[a.x]| {
          vertical := vertical[a.x := vertical[a.x][i := false]];
        }
      } else {
        var inner := if a.x < b.x then a else b;
        if inner.x >= 0 && inner.x < rings && inner.y >= 0 && inner.y < |horizontal[inner.x]| {
          horizontal := horizontal[inner.x := horizontal[inner.x][inner.y := false]];
        }
      }
    }

    /** The older removeWallBetween, which indexes without checks and so
        needs the flag it clears to exist. */
    method RemoveWallUnchecked(a: Point, b: Point)
      requires Valid()
      requires a.x == b.x ==> 0 <= a.x < rings && 0 <= Min(a.y, b.y) < Slots(a.x)
      requires a.x != b.x ==>
        var inner := if a.x < b.x then a else b;
        0 <= inner.x < rings && 0 <= inner.y < Slots(inner.x)
      modifies this
      ensures Valid() && entrance == old(entrance) && exit == old(exit)
      ensures a.x == b.x ==>
        vertical == Cleared(old(vertical), a.x, Min(a.y, b.y)) && horizontal == old(horizontal)
      ensures a.x != b.x ==>
        var inner := if a.x < b.x then a else b;
        horizontal == Cleared(old(horizontal), inner.x, inner.y) && vertical == old(vertical)
    {
      if a.x == b.x {
        var i := Min(a.y, b.y);
        vertical := vertical[a.x := vertical[a.x][i := false]];
      } else {
        var inner := if a.x < b.x then a else b;
        horizontal := horizontal[inner.x := horizontal[inner.x][inner.y := false]];
      }
    }
  }

  lemma OuterInRange(r: nat, i: int)
    requires 0 <= i < Slots(r)
    ensures (2 * i) % Slots(r + 1) == 2 * i && (2 * i + 1) % Slots(r + 1) == 2 * i + 1
  {
    SlotsDouble(r);
    ModSmall(2 * i, Slots(r + 1));
    ModSmall(2 * i + 1, Slots(r + 1));
  }

  lemma InnerInRange(r: nat, i: int)
    requires 0 <= i < Slots(r)
    ensures r > 0 ==> 0 <= i / 2 < Slots(r - 1)
  {
    if r > 0 {
      SlotsDouble(r - 1);
    }
  }

  /** The five candidates of getAllNeighbors put together: every one is a
      neighbour and every neighbour is one of them. */
  function NeighbourList(rings: int, p: Point, around: seq<Point>, outward: seq<Point>, inward: seq<Point>): (ns: seq<Point>)
    requires ValidCell(rings, p)
    requires around == [Point(p.x, (p.y + 1) % Slots(p.x)), Point(p.x, (p.y - 1 + Slots(p.x)) % Slots(p.x))]
    requires outward == if p.x + 1 < rings then [Point(p.x + 1, (2 * p.y) % Slots(p.x + 1)), Point(p.x + 1, (2 * p.y + 1) % Slots(p.x + 1))] else []
    requires inward == if p.x > 0 then [Point(p.x - 1, p.y / 2)] else []
    ensures forall q :: q in ns <==> Adjacent(rings, p, q)
    ensures ns == around + outward + inward
  {
    var n := Slots(p.x);
    OuterInRange(p.x, p.y);
    forall q ensures q in around <==> (ValidCell(rings, q) && q.x == p.x && (q.y == (p.y + 1) % n || p.y == (q.y + 1) % n)) {
      if q.x == p.x && 0 <= q.y < n {
        RingStepUnique(n, q.y, p.y);
      }
    }
    around + outward + inward
  }

  function OpenList(rings: int, h: seq<seq<bool>>, v: seq<seq<bool>>, p: Point,
                    around: seq<Point>, outward: seq<Point>, inward: seq<Point>): (ns: seq<Point>)
    requires RingShaped(rings, h) && RingShaped(rings, v) && ValidCell(rings, p)
    requires forall q :: q in around <==>
      (q.x == p.x && ((q.y == (p.y + 1) % Slots(p.x) && !v[p.x][p.y])
                   || (q.y == (p.y - 1 + Slots(p.x)) % Slots(p.x) && !v[p.x][(p.y - 1 + Slots(p.x)) % Slots(p.x)])))
    requires outward == if p.x + 1 < rings && !h[p.x][p.y] then [Point(p.x + 1, (2 * p.y) % Slots(p.x + 1)), Point(p.x + 1, (2 * p.y + 1) % Slots(p.x + 1))] else []
    requires inward == if p.x > 0 && !h[p.x - 1][p.y / 2] then [Point(p.x - 1, p.y / 2)] else []
    ensures forall q :: q in ns <==> OpenIn(rings, h, v, p, q)
    ensures ns == around + outward + inward
  {
    forall q ensures q in around + outward + inward <==> OpenIn(rings, h, v, p, q) {
      if q.x == p.x {
        OpenAround(rings, h, v, p, q);
      } else if q.x == p.x + 1 {
        OpenOutward(rings, h, v, p, q);
      } else if q.x == p.x - 1 {
        OpenInward(rings, h, v, p, q);
      }
    }
    around + outward + inward
  }

  /** Entering a cell of the same ring. */
  lemma OpenAround(rings: int, h: seq<seq<bool>>, v: seq<seq<bool>>, p: Point, q: Point)
    requires RingShaped(rings, v) && ValidCell(rings, p) && q.x == p.x
    ensures OpenIn(rings, h, v, p, q) <==>
      var n := Slots(p.x);
      (q.y == (p.y + 1) % n && !v[p.x][p.y]) || (q.y == (p.y - 1 + n) % n && !v[p.x][(p.y - 1 + n) % n])
  {
    var n := Slots(p.x);
    Succ(n, p.y);
    Pred(n, p.y);
    if 0 <= q.y < n {
      Succ(n, q.y);
    }
  }

  /** Entering a cell of the next ring out. */
  lemma OpenOutward(rings: int, h: seq<seq<bool>>, v: seq<seq<bool>>, p: Point, q: Point)
    requires RingShaped(rings, h) && ValidCell(rings, p) && q.x == p.x + 1
    ensures OpenIn(rings, h, v, p, q) <==>
      p.x + 1 < rings && !h[p.x][p.y] && (q.y == (2 * p.y) % Slots(p.x + 1) || q.y == (2 * p.y + 1) % Slots(p.x + 1))
  {
    OuterInRange(p.x, p.y);
  }

  /** Entering a cell of the next ring in. */
  lemma OpenInward(rings: int, h: seq<seq<bool>>, v: seq<seq<bool>>, p: Point, q: Point)
    requires RingShaped(rings, h) && ValidCell(rings, p) && q.x == p.x - 1
    ensures OpenIn(rings, h, v, p, q) <==> p.x > 0 && !h[p.x - 1][p.y / 2] && q.y == p.y / 2
  {
    if p.x > 0 {
      SlotsDouble(p.x - 1);
    }
  }

  /** Accessibility is symmetric: `q` is listed from `p` exactly when `p`
      is listed from `q`. */
  lemma AccessibleSymmetric(m: CircularMaze, p: Point, q: Point)
    requires m.Valid()
    ensures q in m.GetAccessibleNeighbors(p) <==> p in m.GetAccessibleNeighbors(q)
  {
    if Adjacent(m.rings, p, q) {
      FlagBetweenSymmetric(m.rings, p, q);
    }
  }

  /** What one removeWallBetween does to accessibility: the pairs the
      brought-down flag stood between become accessible, nothing else
      changes; for adjacent `a`, `b` that pair is `a`, `b` itself unless it
      closes a ring. */
  lemma RemoveWallEffect(rings: int, h: seq<seq<bool>>, v: seq<seq<bool>>, a: Point, b: Point)
    requires Adjacent(rings, a, b) && !WrapPair(a, b)
    ensures a.x == b.x ==> OpenIn(rings, h, Cleared(v, a.x, Min(a.y, b.y)), a, b)
    ensures a.x != b.x ==>
      var inner := if a.x < b.x then a else b;
      OpenIn(rings, Cleared(h, inner.x, inner.y), v, a, b)
  {
    ClearedFlagBetween(rings, a, b);
    ClearEffect(rings, h, v, ClearedFlag(a, b), a, b);
  }

  ghost predicate NoneMarked(visited: seq<seq<bool>>) {
    forall r, i :: 0 <= r < |visited| && 0 <= i < |visited[r]| ==> !visited[r][i]
  }

  /** None of the first `j` listed cells is on the maze and unvisited. */
  ghost predicate Untaken(rings: int, ns: seq<Point>, visited: seq<seq<bool>>, j: int)
    requires RingShaped(rings, visited) && j <= |ns|
  {
    forall k :: 0 <= k < j && ValidCell(rings, ns[k]) ==> visited[ns[k].x][ns[k].y]
  }

  /** The visited flags mark exactly the cells of `M`, all on the maze. */
  ghost predicate MarksMatch(rings: int, visited: seq<seq<bool>>, M: set<Point>) {
    && RingShaped(rings, visited)
    && (forall p :: ValidCell(rings, p) ==> (visited[p.x][p.y] <==> p in M))
    && (forall p :: p in M ==> ValidCell(rings, p))
  }

  /** `pushed` lists the marked cells once each; one carve per push after
      the first. */
  ghost predicate PushedOnce(M: set<Point>, pushed: seq<Point>, carves: nat) {
    && (forall p :: p in pushed <==> p in M)
    && NoRepeat(pushed)
    && carves + 1 == |pushed|
  }

  /** The stack holds marked cells without repeats, and a marked cell off
      the stack has all its neighbours marked. */
  ghost predicate StackFrontier(rings: int, M: set<Point>, stack: seq<Point>) {
    && NoRepeat(stack)
    && (forall k :: 0 <= k < |stack| ==> stack[k] in M)
    && (forall c, q :: c in M && c !in stack && Adjacent(rings, c, q) ==> q in M)
  }

  /** The state generate's loop starts from: the centre cell marked,
      pushed and alone on the stack. */
  lemma CarveStart(rings: int, visited: seq<seq<bool>>, M: set<Point>, stack: seq<Point>, pushed: seq<Point>)
    requires rings >= 1 && M == {Point(0, 0)} && stack == [Point(0, 0)] && pushed == stack
    requires RingShaped(rings, visited) && visited[0][0] && NoneMarked(visited[0 := visited[0][0 := false]])
    ensures MarksMatch(rings, visited, M) && PushedOnce(M, pushed, 0) && StackFrontier(rings, M, stack)
  {
    var v0 := visited[0 := visited[0][0 := false]];
    forall p | ValidCell(rings, p) ensures visited[p.x][p.y] <==> p in M {
      if p != Point(0, 0) {
        assert visited[p.x][p.y] == v0[p.x][p.y];
      }
    }
  }

  /** When the stack runs empty every cell has been pushed, once each. */
  lemma CarveDone(rings: int, visited: seq<seq<bool>>, M: set<Point>, pushed: seq<Point>, carves: nat)
    requires rings >= 1 && MarksMatch(rings, visited, M) && PushedOnce(M, pushed, carves)
    requires StackFrontier(rings, M, []) && Point(0, 0) in M
    ensures NoRepeat(pushed) && forall p :: p in pushed <==> ValidCell(rings, p)
    ensures |pushed| == TotalSlots(rings) && carves == |pushed| - 1
  {
    RingConnected(rings, M);
    RingCellsCount(rings);
    DistinctCount(pushed, RingCells(rings));
  }

  /** Each push after the first carves from a cell pushed earlier to the
      newly pushed cell, an adjacent one. */
  ghost predicate CarveLog(rings: int, pushed: seq<Point>, carved: seq<(Point, Point)>) {
    && |carved| + 1 == |pushed|
    && forall k :: 0 <= k < |carved| ==>
         carved[k].1 == pushed[k + 1] && carved[k].0 in pushed[..k + 1] && Adjacent(rings, carved[k].0, carved[k].1)
  }

  /** The flags removeWallBetween clears for the carved pairs. */
  ghost function CarvedFlags(carved: seq<(Point, Point)>): set<Flag> {
    set k | 0 <= k < |carved| :: ClearedFlag(carved[k].0, carved[k].1)
  }

  /** Logging a carve from a pushed cell `c` to a newly pushed neighbour. */
  lemma CarveLogPush(rings: int, pushed: seq<Point>, carved: seq<(Point, Point)>, c: Point, next: Point)
    requires CarveLog(rings, pushed, carved) && c in pushed && Adjacent(rings, c, next)
    ensures CarveLog(rings, pushed + [next], carved + [(c, next)])
  {
    var p', c' := pushed + [next], carved + [(c, next)];
    forall k | 0 <= k < |c'|
      ensures c'[k].1 == p'[k + 1] && c'[k].0 in p'[..k + 1] && Adjacent(rings, c'[k].0, c'[k].1)
    {
      assert p'[..k + 1] == pushed[..k + 1];
      if k == |carved| {
        assert pushed[..k + 1] == pushed;
      }
    }
  }

  /** One more carve brings down its flag on top of those already down. */
  lemma CarveWallsStep(h0: seq<seq<bool>>, v0: seq<seq<bool>>, h: seq<seq<bool>>, v: seq<seq<bool>>,
                       carved: seq<(Point, Point)>, a: Point, b: Point)
    requires CarvedWalls(h0, v0, h, v, CarvedFlags(carved))
    ensures CarvedWalls(h0, v0, ClearConcentric(h, ClearedFlag(a, b)), ClearRadial(v, ClearedFlag(a, b)),
                        CarvedFlags(carved + [(a, b)]))
  {
    var c' := carved + [(a, b)];
    forall f ensures f in CarvedFlags(c') <==> f in CarvedFlags(carved) || f == ClearedFlag(a, b) {
      if f in CarvedFlags(carved) {
        var k :| 0 <= k < |carved| && f == ClearedFlag(carved[k].0, carved[k].1);
        assert c'[k] == carved[k];
      }
      if f == ClearedFlag(a, b) {
        assert c'[|carved|] == (a, b);
      }
    }
  }

  /** Outside the wrap pair a carved pair ends open to each other. */
  lemma CarvedOpen(rings: int, h0: seq<seq<bool>>, v0: seq<seq<bool>>, h: seq<seq<bool>>, v: seq<seq<bool>>,
                   carved: seq<(Point, Point)>, k: int)
    requires CarvedWalls(h0, v0, h, v, CarvedFlags(carved))
    requires 0 <= k < |carved| && Adjacent(rings, carved[k].0, carved[k].1) && !WrapPair(carved[k].0, carved[k].1)
    ensures OpenIn(rings, h, v, carved[k].0, carved[k].1)
  {
    var (a, b) := carved[k];
    ClearedFlagBetween(rings, a, b);
    assert FlagBetween(a, b) in CarvedFlags(carved);
  }

  /** A reordering keeps the members. */
  lemma SameMembers<T>(a: seq<T>, b: seq<T>, x: T)
    requires multiset(a) == multiset(b) && x in a
    ensures x in b
  {
    assert x in multiset(a);
  }

  /** Marking and pushing an unmarked cell next to the stack top. */
  lemma PushStep(rings: int, visited: seq<seq<bool>>, stack: seq<Point>, M: set<Point>, pushed: seq<Point>,
                 carves: nat, next: Point)
    requires MarksMatch(rings, visited, M) && PushedOnce(M, pushed, carves) && StackFrontier(rings, M, stack)
    requires ValidCell(rings, next) && !visited[next.x][next.y]
    ensures MarksMatch(rings, visited[next.x := visited[next.x][next.y := true]], M + {next})
    ensures PushedOnce(M + {next}, pushed + [next], carves + 1)
    ensures StackFrontier(rings, M + {next}, stack + [next])
    ensures |RingCells(rings) - (M + {next})| < |RingCells(rings) - M|
  {
    PushMarks(rings, visited, M, next);
    PushOnce(M, pushed, carves, next);
    PushFrontier(rings, M, stack, next);
    RingCellsCount(rings);
    assert RingCells(rings) - (M + {next}) == (RingCells(rings) - M) - {next};
  }

  lemma PushMarks(rings: int, visited: seq<seq<bool>>, M: set<Point>, next: Point)
    requires MarksMatch(rings, visited, M) && ValidCell(rings, next) && !visited[next.x][next.y]
    ensures MarksMatch(rings, visited[next.x := visited[next.x][next.y := true]], M + {next})
  {
  }

  lemma PushOnce(M: set<Point>, pushed: seq<Point>, carves: nat, next: Point)
    requires PushedOnce(M, pushed, carves) && next !in M
    ensures PushedOnce(M + {next}, pushed + [next], carves + 1)
  {
  }

  lemma PushFrontier(rings: int, M: set<Point>, stack: seq<Point>, next: Point)
    requires StackFrontier(rings, M, stack) && next !in M
    ensures StackFrontier(rings, M + {next}, stack + [next])
  {
    var st := stack + [next];
    forall k | 0 <= k < |st| ensures st[k] in M + {next} {
      if k < |stack| {
        assert st[k] == stack[k];
      }
    }
    forall c, q | c in M + {next} && c !in st && Adjacent(rings, c, q) ensures q in M + {next} {
      assert c !in stack;
    }
  }

  /** Popping a stack top whose neighbours are all marked. */
  lemma PopStep(rings: int, M: set<Point>, stack: seq<Point>)
    requires StackFrontier(rings, M, stack) && stack != []
    requires forall q :: Adjacent(rings, stack[|stack| - 1], q) ==> q in M
    ensures StackFrontier(rings, M, stack[..|stack| - 1])
  {
    var st := stack[..|stack| - 1];
    forall k | 0 <= k < |st| ensures st[k] in M {
      assert st[k] == stack[k];
    }
    assert stack == st + [stack[|stack| - 1]];
  }
}
