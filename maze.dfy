/** The rectangular wall-grid maze: a rows x cols lattice of four-walled
    cells, entrance and exit bookkeeping, the two generators and the
    neighbour queries the searches use. */
module MazeGrid {
  import opened MazeTypes
  import opened Walks

  type Grid = seq<seq<MazeCell>>

  // ---------------------------------------------------------------------
  // Cells, bounds and directions (value level)

  predicate Shaped<T>(g: seq<seq<T>>, rows: nat, cols: nat) {
    |g| == rows && forall i :: 0 <= i < rows ==> |g[i]| == cols
  }

  predicate InBounds(rows: int, cols: int, p: Point) {
    0 <= p.x < rows && 0 <= p.y < cols
  }

  function Abs(n: int): nat {
    if n < 0 then -n else n
  }

  /** The cell on the other side of wall `d` (getAdjacentCell). */
  function AdjacentCell(p: Point, d: WallDirection): (q: Point)
    ensures Abs(q.x - p.x) + Abs(q.y - p.y) == 1
  {
    match d
    case Top => Point(p.x - 1, p.y)
    case Right => Point(p.x, p.y + 1)
    case Bottom => Point(p.x + 1, p.y)
    case Left => Point(p.x, p.y - 1)
  }

  /** The same wall seen from the other side (getOppositeDirection). */
  function Opposite(d: WallDirection): (e: WallDirection)
    ensures e != d
  {
    match d
    case Top => Bottom
    case Right => Left
    case Bottom => Top
    case Left => Right
  }

  /** Crossing a wall and crossing back returns to the start, and no two
      directions lead to the same cell. */
  lemma AdjacentRoundTrip(p: Point, d: WallDirection, e: WallDirection)
    ensures Opposite(Opposite(d)) == d
    ensures AdjacentCell(AdjacentCell(p, d), Opposite(d)) == p
    ensures AdjacentCell(p, d) == AdjacentCell(p, e) ==> d == e
  {
  }

  /** The direction from `p` to `q` as removeWallBetween and canMoveTo
      compute it from the offset (dx = -1: TOP, dx = 1: BOTTOM, dy = -1:
      LEFT, otherwise RIGHT). */
  function StepDirection(p: Point, q: Point): (d: WallDirection)
    ensures Abs(q.x - p.x) + Abs(q.y - p.y) == 1 ==> AdjacentCell(p, d) == q
  {
    var dx := q.x - p.x;
    var dy := q.y - p.y;
    if dx == -1 then Top
    else if dx == 1 then Bottom
    else if dy == -1 then Left
    else Right
  }

  lemma StepDirectionOfAdjacent(p: Point, d: WallDirection)
    ensures StepDirection(p, AdjacentCell(p, d)) == d
  {
  }

  function At(g: Grid, rows: nat, cols: nat, p: Point): MazeCell
    requires Shaped(g, rows, cols) && InBounds(rows, cols, p)
  {
    g[p.x][p.y]
  }

  /** The grid with the cell at `p` replaced. */
  function SetCell(g: Grid, rows: nat, cols: nat, p: Point, c: MazeCell): (r: Grid)
    requires Shaped(g, rows, cols) && InBounds(rows, cols, p)
    ensures Shaped(r, rows, cols)
    ensures At(r, rows, cols, p) == c
    ensures forall q :: InBounds(rows, cols, q) && q != p ==> At(r, rows, cols, q) == At(g, rows, cols, q)
  {
    g[p.x := g[p.x][p.y := c]]
  }

  /** Facing flags of neighbouring cells agree. */
  ghost predicate Symmetric(g: Grid, rows: nat, cols: nat)
    requires Shaped(g, rows, cols)
  {
    forall p, d {:trigger AdjacentCell(p, d)} :: InBounds(rows, cols, p) && InBounds(rows, cols, AdjacentCell(p, d)) ==>
      At(g, rows, cols, p).HasWall(d) == At(g, rows, cols, AdjacentCell(p, d)).HasWall(Opposite(d))
  }

  /** Wall `d` of `p` and its mirror on the neighbour set to `v`: the value
      the grid holds after setWall. */
  function WithWall(g: Grid, rows: nat, cols: nat, p: Point, d: WallDirection, v: bool): (r: Grid)
    requires Shaped(g, rows, cols) && InBounds(rows, cols, p)
    ensures Shaped(r, rows, cols)
  {
    var g1 := SetCell(g, rows, cols, p, At(g, rows, cols, p).SetWall(d, v));
    var a := AdjacentCell(p, d);
    if InBounds(rows, cols, a) then SetCell(g1, rows, cols, a, At(g1, rows, cols, a).SetWall(Opposite(d), v)) else g1
  }

  /** Exactly wall `d` of `p` and, when on the grid, its mirror change; cell
      types stay; symmetric walls stay symmetric. */
  lemma WithWallEffect(g: Grid, rows: nat, cols: nat, p: Point, d: WallDirection, v: bool)
    requires Shaped(g, rows, cols) && InBounds(rows, cols, p)
    ensures forall q, e :: InBounds(rows, cols, q) ==>
      At(WithWall(g, rows, cols, p, d, v), rows, cols, q).HasWall(e) ==
        if (q == p && e == d) || (q == AdjacentCell(p, d) && e == Opposite(d)) then v
        else At(g, rows, cols, q).HasWall(e)
    ensures forall q :: InBounds(rows, cols, q) ==> At(WithWall(g, rows, cols, p, d, v), rows, cols, q).kind == At(g, rows, cols, q).kind
    ensures Symmetric(g, rows, cols) ==> Symmetric(WithWall(g, rows, cols, p, d, v), rows, cols)
  {
    WithWallFlags(g, rows, cols, p, d, v);
    WithWallSymmetric(g, WithWall(g, rows, cols, p, d, v), rows, cols, p, d, v);
  }

  lemma WithWallFlags(g: Grid, rows: nat, cols: nat, p: Point, d: WallDirection, v: bool)
    requires Shaped(g, rows, cols) && InBounds(rows, cols, p)
    ensures forall q, e :: InBounds(rows, cols, q) ==>
      At(WithWall(g, rows, cols, p, d, v), rows, cols, q).HasWall(e) ==
        if (q == p && e == d) || (q == AdjacentCell(p, d) && e == Opposite(d)) then v
        else At(g, rows, cols, q).HasWall(e)
    ensures forall q :: InBounds(rows, cols, q) ==> At(WithWall(g, rows, cols, p, d, v), rows, cols, q).kind == At(g, rows, cols, q).kind
  {
  }

  lemma WithWallSymmetric(g: Grid, r: Grid, rows: nat, cols: nat, p: Point, d: WallDirection, v: bool)
    requires Shaped(g, rows, cols) && Shaped(r, rows, cols) && InBounds(rows, cols, p)
    requires forall q, e :: InBounds(rows, cols, q) ==>
      At(r, rows, cols, q).HasWall(e) ==
        if (q == p && e == d) || (q == AdjacentCell(p, d) && e == Opposite(d)) then v
        else At(g, rows, cols, q).HasWall(e)
    ensures Symmetric(g, rows, cols) ==> Symmetric(r, rows, cols)
  {
    if Symmetric(g, rows, cols) {
      forall q, e | InBounds(rows, cols, q) && InBounds(rows, cols, AdjacentCell(q, e))
        ensures At(r, rows, cols, q).HasWall(e) == At(r, rows, cols, AdjacentCell(q, e)).HasWall(Opposite(e))
      {
        AdjacentRoundTrip(q, e, e);
        AdjacentRoundTrip(p, d, d);
      }
    }
  }

  /** Whether wall `d` of `p` stands, with everything off the grid walled
      (hasWall). */
  predicate WallAt(g: Grid, rows: nat, cols: nat, p: Point, d: WallDirection) {
    if InBounds(rows, cols, p) && Shaped(g, rows, cols) then At(g, rows, cols, p).HasWall(d) else true
  }

  /** Whether a step from `p` to `q` is open (canMoveTo). */
  predicate CanMove(g: Grid, rows: nat, cols: nat, p: Point, q: Point) {
    && InBounds(rows, cols, p) && InBounds(rows, cols, q)
    && Abs(q.x - p.x) + Abs(q.y - p.y) == 1
    && !WallAt(g, rows, cols, p, StepDirection(p, q))
  }

  /** Under symmetric walls a step is open in both directions or in
      neither. */
  lemma CanMoveSymmetric(g: Grid, rows: nat, cols: nat, p: Point, q: Point)
    requires Shaped(g, rows, cols) && Symmetric(g, rows, cols)
    ensures CanMove(g, rows, cols, p, q) <==> CanMove(g, rows, cols, q, p)
  {
    if InBounds(rows, cols, p) && InBounds(rows, cols, q) && Abs(q.x - p.x) + Abs(q.y - p.y) == 1 {
      var d := StepDirection(p, q);
      AdjacentRoundTrip(p, d, d);
      assert AdjacentCell(q, Opposite(d)) == p;
      assert StepDirection(q, p) == Opposite(d) by { StepDirectionOfAdjacent(q, Opposite(d)); }
    }
  }

  /** The neighbour behind wall `d`, if it is on the grid (and, when
      `needOpen`, the wall is absent). */
  function NeighbourVia(g: Grid, rows: nat, cols: nat, p: Point, d: WallDirection, needOpen: bool): seq<Point> {
    var q := AdjacentCell(p, d);
    if InBounds(rows, cols, q) && (!needOpen || !WallAt(g, rows, cols, p, d)) then [q] else []
  }

  function NeighboursVia(g: Grid, rows: nat, cols: nat, p: Point, ds: seq<WallDirection>, needOpen: bool): seq<Point>
  {
    if ds == [] then []
    else NeighboursVia(g, rows, cols, p, ds[..|ds| - 1], needOpen) + NeighbourVia(g, rows, cols, p, ds[|ds| - 1], needOpen)
  }

  lemma NeighboursViaUnfold(g: Grid, rows: nat, cols: nat, p: Point, needOpen: bool)
    ensures NeighboursVia(g, rows, cols, p, Directions, needOpen) ==
      NeighbourVia(g, rows, cols, p, Top, needOpen) + NeighbourVia(g, rows, cols, p, Right, needOpen)
      + NeighbourVia(g, rows, cols, p, Bottom, needOpen) + NeighbourVia(g, rows, cols, p, Left, needOpen)
  {
    var D := Directions;
    assert D[..3] == [Top, Right, Bottom] && D[..3][..2] == [Top, Right] && D[..3][..2][..1] == [Top] && D[..3][..2][..1][..0] == [];
    assert NeighboursVia(g, rows, cols, p, [Top], needOpen) == NeighbourVia(g, rows, cols, p, Top, needOpen);
    assert NeighboursVia(g, rows, cols, p, [Top, Right], needOpen) == NeighbourVia(g, rows, cols, p, Top, needOpen) + NeighbourVia(g, rows, cols, p, Right, needOpen);
    assert NeighboursVia(g, rows, cols, p, [Top, Right, Bottom], needOpen) == NeighbourVia(g, rows, cols, p, Top, needOpen) + NeighbourVia(g, rows, cols, p, Right, needOpen) + NeighbourVia(g, rows, cols, p, Bottom, needOpen);
  }

  /** The accessible neighbours of `p` (getAccessibleNeighbors). */
  function Accessible(g: Grid, rows: nat, cols: nat, p: Point): seq<Point> {
    NeighboursVia(g, rows, cols, p, Directions, true)
  }

  /** The accessible neighbours of `p` come in TOP, RIGHT, BOTTOM, LEFT
      order and are exactly the cells `canMoveTo` allows: each on the grid,
      none twice, at most four, all among the plain neighbours. */
  lemma AccessibleSpec(g: Grid, rows: nat, cols: nat, p: Point)
    ensures Accessible(g, rows, cols, p) ==
      NeighbourVia(g, rows, cols, p, Top, true) + NeighbourVia(g, rows, cols, p, Right, true)
      + NeighbourVia(g, rows, cols, p, Bottom, true) + NeighbourVia(g, rows, cols, p, Left, true)
    ensures |Accessible(g, rows, cols, p)| <= 4 && NoRepeat(Accessible(g, rows, cols, p))
    ensures forall q :: q in Accessible(g, rows, cols, p) <==> CanMove(g, rows, cols, p, q)
    ensures forall q :: q in Accessible(g, rows, cols, p) ==> InBounds(rows, cols, q) && q in AllNeighbours(rows, cols, p)
  {
    NeighboursViaUnfold(g, rows, cols, p, true);
    FourWayDistinct(g, rows, cols, p, true);
    AllNeighboursSpec(rows, cols, p);
    forall q ensures q in Accessible(g, rows, cols, p) <==> CanMove(g, rows, cols, p, q) {
      FourWayMembers(g, rows, cols, p, true, q);
    }
  }

  /** The on-grid neighbours of `p`, walls ignored (getAllNeighbors). */
  function AllNeighbours(rows: nat, cols: nat, p: Point): seq<Point> {
    NeighboursVia([], rows, cols, p, Directions, false)
  }

  /** The plain neighbours are exactly the on-grid cells one step away, none
      twice, at most four. */
  lemma AllNeighboursSpec(rows: nat, cols: nat, p: Point)
    ensures |AllNeighbours(rows, cols, p)| <= 4 && NoRepeat(AllNeighbours(rows, cols, p))
    ensures forall q :: q in AllNeighbours(rows, cols, p) <==> InBounds(rows, cols, q) && Abs(q.x - p.x) + Abs(q.y - p.y) == 1
  {
    NeighboursViaUnfold([], rows, cols, p, false);
    FourWayDistinct([], rows, cols, p, false);
    forall q ensures q in AllNeighbours(rows, cols, p) <==> InBounds(rows, cols, q) && Abs(q.x - p.x) + Abs(q.y - p.y) == 1 {
      FourWayMembers([], rows, cols, p, false, q);
    }
  }

  /** One plain neighbour: on the grid and one step away. */
  lemma NeighbourOffset(rows: nat, cols: nat, p: Point, q: Point)
    requires q in AllNeighbours(rows, cols, p)
    ensures InBounds(rows, cols, q) && Abs(q.x - p.x) + Abs(q.y - p.y) == 1
  {
    AllNeighboursSpec(rows, cols, p);
  }

  /** Membership in the four-way list: `q` is behind one of the four walls. */
  lemma FourWayMembers(g: Grid, rows: nat, cols: nat, p: Point, needOpen: bool, q: Point)
    ensures q in NeighbourVia(g, rows, cols, p, Top, needOpen) + NeighbourVia(g, rows, cols, p, Right, needOpen)
      + NeighbourVia(g, rows, cols, p, Bottom, needOpen) + NeighbourVia(g, rows, cols, p, Left, needOpen)
      <==> Abs(q.x - p.x) + Abs(q.y - p.y) == 1 && q in NeighbourVia(g, rows, cols, p, StepDirection(p, q), needOpen)
  {
    if Abs(q.x - p.x) + Abs(q.y - p.y) == 1 {
      assert AdjacentCell(p, StepDirection(p, q)) == q;
    }
  }

  /** The four candidates are distinct cells. */
  lemma FourWayDistinct(g: Grid, rows: nat, cols: nat, p: Point, needOpen: bool)
    ensures var r := NeighbourVia(g, rows, cols, p, Top, needOpen) + NeighbourVia(g, rows, cols, p, Right, needOpen)
      + NeighbourVia(g, rows, cols, p, Bottom, needOpen) + NeighbourVia(g, rows, cols, p, Left, needOpen);
      |r| <= 4 && NoRepeat(r)
  {
  }

  /** The grid as a graph for the searches: a step is an open wall. */
  function OpenAdj(g: Grid, rows: nat, cols: nat): Point -> seq<Point> {
    p => Accessible(g, rows, cols, p)
  }

  /** The grid as a graph with every wall ignored. */
  function FullAdj(rows: nat, cols: nat): Point -> seq<Point> {
    p => AllNeighbours(rows, cols, p)
  }

  // ---------------------------------------------------------------------
  // Cell sets, visited matrices, wall counts

  ghost function AllCells(rows: nat, cols: nat): set<Point> {
    set x, y | 0 <= x < rows && 0 <= y < cols :: Point(x, y)
  }

  lemma AllCellsMembers(rows: nat, cols: nat, p: Point)
    ensures p in AllCells(rows, cols) <==> InBounds(rows, cols, p)
  {
    if InBounds(rows, cols, p) { assert p == Point(p.x, p.y); }
  }

  ghost function RowCells(x: int, cols: nat): set<Point> {
    set y | 0 <= y < cols :: Point(x, y)
  }

  lemma RowCellsMembers(x: int, cols: nat, p: Point)
    ensures p in RowCells(x, cols) <==> p.x == x && 0 <= p.y < cols
  {
    if p.x == x && 0 <= p.y < cols { assert p == Point(x, p.y); }
  }

  lemma {:induction false} RowCellsCount(x: int, cols: nat)
    ensures |RowCells(x, cols)| == cols
  {
    if cols > 0 {
      RowCellsCount(x, cols - 1);
      var A, B := RowCells(x, cols), RowCells(x, cols - 1);
      forall p ensures p in A <==> p in B || p == Point(x, cols - 1) {
        RowCellsMembers(x, cols, p);
        RowCellsMembers(x, cols - 1, p);
      }
      assert A == B + {Point(x, cols - 1)};
      RowCellsMembers(x, cols - 1, Point(x, cols - 1));
    }
  }

  /** A rows x cols grid has rows * cols cells. */
  lemma {:induction false} AllCellsCount(rows: nat, cols: nat)
    ensures |AllCells(rows, cols)| == rows * cols
  {
    if rows > 0 {
      AllCellsCount(rows - 1, cols);
      RowCellsCount(rows - 1, cols);
      var A, B, R := AllCells(rows, cols), AllCells(rows - 1, cols), RowCells(rows - 1, cols);
      forall p ensures (p in A <==> p in B || p in R) && !(p in B && p in R) {
        AllCellsMembers(rows, cols, p);
        AllCellsMembers(rows - 1, cols, p);
        RowCellsMembers(rows - 1, cols, p);
      }
      assert A == B + R;
      assert B !! R;
      assert |A| == |B| + |R|;
      assert (rows - 1) * cols + cols == rows * cols;
    }
  }

  /** The cells a visited matrix has marked. */
  ghost function Marked(v: seq<seq<bool>>): set<Point> {
    set x, y | 0 <= x < |v| && 0 <= y < |v[x]| && v[x][y] :: Point(x, y)
  }

  lemma MarkedMembers(v: seq<seq<bool>>, p: Point)
    ensures p in Marked(v) <==> 0 <= p.x < |v| && 0 <= p.y < |v[p.x]| && v[p.x][p.y]
  {
    if 0 <= p.x < |v| && 0 <= p.y < |v[p.x]| && v[p.x][p.y] { assert p == Point(p.x, p.y); }
  }

  function Unvisited(rows: nat, cols: nat): (v: seq<seq<bool>>)
    ensures Shaped(v, rows, cols) && Marked(v) == {}
  {
    seq(rows, _ => seq(cols, _ => false))
  }

  /** Marking one more cell. */
  function Mark(v: seq<seq<bool>>, rows: nat, cols: nat, p: Point): (r: seq<seq<bool>>)
    requires Shaped(v, rows, cols) && InBounds(rows, cols, p)
    ensures Shaped(r, rows, cols)
    ensures Marked(r) == Marked(v) + {p}
  {
    var r := v[p.x := v[p.x][p.y := true]];
    forall q ensures q in Marked(r) <==> q in Marked(v) + {p} {
      MarkedMembers(r, q);
      MarkedMembers(v, q);
    }
    r
  }

  /** Unmarking one cell. */
  function Unmark(v: seq<seq<bool>>, rows: nat, cols: nat, p: Point): (r: seq<seq<bool>>)
    requires Shaped(v, rows, cols) && InBounds(rows, cols, p)
    ensures Shaped(r, rows, cols)
    ensures Marked(r) == Marked(v) - {p}
  {
    var r := v[p.x := v[p.x][p.y := false]];
    forall q ensures q in Marked(r) <==> q in Marked(v) - {p} {
      MarkedMembers(r, q);
      MarkedMembers(v, q);
    }
    r
  }

  lemma MarkedInGrid(v: seq<seq<bool>>, rows: nat, cols: nat)
    requires Shaped(v, rows, cols)
    ensures Marked(v) <= AllCells(rows, cols)
    ensures |Marked(v)| <= rows * cols
  {
    forall p | p in Marked(v) ensures p in AllCells(rows, cols) {
      MarkedMembers(v, p);
      AllCellsMembers(rows, cols, p);
    }
    AllCellsCount(rows, cols);
    SubsetCard(Marked(v), AllCells(rows, cols));
  }

  lemma SubsetCard<T>(a: set<T>, b: set<T>)
    requires a <= b
    ensures |a| <= |b|
  {
    assert b == a + (b - a);
  }

  function RowWalls(row: seq<MazeCell>): nat {
    if row == [] then 0 else RowWalls(row[..|row| - 1]) + row[|row| - 1].WallCount()
  }

  /** All standing wall flags of the grid, each shared wall counted from
      both sides. */
  function TotalWalls(g: Grid): nat {
    if g == [] then 0 else TotalWalls(g[..|g| - 1]) + RowWalls(g[|g| - 1])
  }

  lemma {:induction false} RowWallsUpdate(row: seq<MazeCell>, y: nat, c: MazeCell)
    requires y < |row|
    ensures RowWalls(row[y := c]) == RowWalls(row) - row[y].WallCount() + c.WallCount()
  {
    var n := |row|;
    if y < n - 1 {
      RowWallsUpdate(row[..n - 1], y, c);
      assert row[y := c][..n - 1] == row[..n - 1][y := c];
    } else {
      assert row[y := c][..n - 1] == row[..n - 1];
    }
  }

  lemma {:induction false} TotalWallsUpdate(g: Grid, x: nat, r: seq<MazeCell>)
    requires x < |g|
    ensures TotalWalls(g[x := r]) == TotalWalls(g) - RowWalls(g[x]) + RowWalls(r)
  {
    var n := |g|;
    if x < n - 1 {
      TotalWallsUpdate(g[..n - 1], x, r);
      assert g[x := r][..n - 1] == g[..n - 1][x := r];
    } else {
      assert g[x := r][..n - 1] == g[..n - 1];
    }
  }

  lemma CountTrueSnoc(w: seq<bool>, d: nat)
    requires d < |w|
    ensures CountTrue(w[..d + 1]) == CountTrue(w[..d]) + (if w[d] then 1 else 0)
  {
    assert w[..d + 1][..d] == w[..d];
  }

  lemma CountTrueWhole(c: MazeCell)
    ensures CountTrue(c.walls[..4]) == c.WallCount()
  {
    WallCountIsCountTrue(c);
    assert c.walls[..4] == c.walls;
  }

  lemma RowWallsSnoc(row: seq<MazeCell>, j: nat)
    requires j < |row|
    ensures RowWalls(row[..j + 1]) == RowWalls(row[..j]) + row[j].WallCount()
  {
    assert row[..j + 1][..j] == row[..j];
  }

  lemma TotalWallsSnoc(g: Grid, i: nat)
    requires i < |g|
    ensures TotalWalls(g[..i + 1]) == TotalWalls(g[..i]) + RowWalls(g[i][..|g[i]|])
  {
    assert g[..i + 1][..i] == g[..i];
    assert g[i][..|g[i]|] == g[i];
  }

  lemma TotalWallsSetCell(g: Grid, rows: nat, cols: nat, p: Point, c: MazeCell)
    requires Shaped(g, rows, cols) && InBounds(rows, cols, p)
    ensures TotalWalls(SetCell(g, rows, cols, p, c)) == TotalWalls(g) - At(g, rows, cols, p).WallCount() + c.WallCount()
  {
    RowWallsUpdate(g[p.x], p.y, c);
    TotalWallsUpdate(g, p.x, g[p.x][p.y := c]);
  }

  /** Opening a wall that stands on both sides of an inner edge removes
      exactly two flags. */
  lemma TotalWallsOpenEdge(g: Grid, rows: nat, cols: nat, p: Point, d: WallDirection)
    requires Shaped(g, rows, cols) && InBounds(rows, cols, p) && InBounds(rows, cols, AdjacentCell(p, d))
    requires At(g, rows, cols, p).HasWall(d) && At(g, rows, cols, AdjacentCell(p, d)).HasWall(Opposite(d))
    ensures TotalWalls(WithWall(g, rows, cols, p, d, false)) == TotalWalls(g) - 2
  {
    var a := AdjacentCell(p, d);
    var c1 := At(g, rows, cols, p).SetWall(d, false);
    var g1 := SetCell(g, rows, cols, p, c1);
    RemoveWallCount(At(g, rows, cols, p), d);
    TotalWallsSetCell(g, rows, cols, p, c1);
    assert At(g1, rows, cols, a) == At(g, rows, cols, a);
    RemoveWallCount(At(g1, rows, cols, a), Opposite(d));
    TotalWallsSetCell(g1, rows, cols, a, At(g1, rows, cols, a).SetWall(Opposite(d), false));
  }

  function FullyWalled(rows: nat, cols: nat): (g: Grid)
    ensures Shaped(g, rows, cols)
    ensures forall p, d :: InBounds(rows, cols, p) ==> At(g, rows, cols, p).HasWall(d) && At(g, rows, cols, p).kind == PathCell
  {
    seq(rows, _ => seq(cols, _ => DefaultCell()))
  }

  lemma {:induction false} RowWallsFull(row: seq<MazeCell>)
    requires forall i :: 0 <= i < |row| ==> row[i].WallCount() == 4
    ensures RowWalls(row) == 4 * |row|
  {
    if row != [] { RowWallsFull(row[..|row| - 1]); }
  }

  /** A fully walled grid shows four flags per cell. */
  lemma {:induction false} TotalWallsFull(g: Grid, rows: nat, cols: nat)
    requires Shaped(g, rows, cols)
    requires forall i, j :: 0 <= i < rows && 0 <= j < cols ==> g[i][j].WallCount() == 4
    ensures TotalWalls(g) == 4 * rows * cols
  {
    if rows > 0 {
      var init := g[..rows - 1];
      assert Shaped(init, rows - 1, cols);
      RowWallsFull(g[rows - 1]);
      TotalWallsFull(init, rows - 1, cols);
      assert TotalWalls(g) == TotalWalls(init) + RowWalls(g[rows - 1]);
      assert 4 * rows * cols == 4 * (rows - 1) * cols + 4 * cols;
    }
  }

  /** Each cell of a grid can be reached from any cell by plain neighbour
      steps: a set closed under neighbours that holds one cell holds them
      all. */
  lemma {:induction false} FullGridConnected(rows: nat, cols: nat, S: set<Point>, s: Point, p: Point)
    requires ClosedUnder(FullAdj(rows, cols), S) && s in S
    requires InBounds(rows, cols, s) && InBounds(rows, cols, p)
    ensures p in S
    decreases Abs(p.x - s.x) + Abs(p.y - s.y)
  {
    if p != s {
      var q := if p.x < s.x then Point(p.x + 1, p.y)
               else if p.x > s.x then Point(p.x - 1, p.y)
               else if p.y < s.y then Point(p.x, p.y + 1)
               else Point(p.x, p.y - 1);
      FullGridConnected(rows, cols, S, s, q);
      AllNeighboursSpec(rows, cols, q);
      assert p in FullAdj(rows, cols)(q);
    }
  }

  /** Walls only removed: every open step of `g` is open in `g'`. */
  lemma OpenStepsGrow(g: Grid, g': Grid, rows: nat, cols: nat)
    requires Shaped(g, rows, cols) && Shaped(g', rows, cols)
    requires forall q, e :: InBounds(rows, cols, q) && !At(g, rows, cols, q).HasWall(e) ==> !At(g', rows, cols, q).HasWall(e)
    ensures forall p, q :: q in OpenAdj(g, rows, cols)(p) ==> q in OpenAdj(g', rows, cols)(p)
  {
    forall p, q | q in OpenAdj(g, rows, cols)(p) ensures q in OpenAdj(g', rows, cols)(p) {
      AccessibleSpec(g, rows, cols, p);
      AccessibleSpec(g', rows, cols, p);
    }
  }

  /** Two grids with the same wall flags everywhere (cell types may
      differ). */
  ghost predicate SameWalls(g: Grid, h: Grid, rows: nat, cols: nat)
    requires Shaped(g, rows, cols) && Shaped(h, rows, cols)
  {
    forall q, e :: InBounds(rows, cols, q) ==> At(h, rows, cols, q).HasWall(e) == At(g, rows, cols, q).HasWall(e)
  }

  lemma SameWallsTrans(g: Grid, h: Grid, k: Grid, rows: nat, cols: nat)
    requires Shaped(g, rows, cols) && Shaped(h, rows, cols) && Shaped(k, rows, cols)
    requires SameWalls(g, h, rows, cols) && SameWalls(h, k, rows, cols)
    ensures SameWalls(g, k, rows, cols)
  {
  }

  /** Retyping cells keeps every cell reachable that was. */
  lemma SameWallsReach(g: Grid, h: Grid, rows: nat, cols: nat, s: Point)
    requires Shaped(g, rows, cols) && Shaped(h, rows, cols) && SameWalls(g, h, rows, cols)
    ensures forall p :: Reachable(OpenAdj(g, rows, cols), s, p) ==> Reachable(OpenAdj(h, rows, cols), s, p)
  {
    OpenStepsGrow(g, h, rows, cols);
    forall p | Reachable(OpenAdj(g, rows, cols), s, p) ensures Reachable(OpenAdj(h, rows, cols), s, p) {
      ReachableTransfer(OpenAdj(g, rows, cols), OpenAdj(h, rows, cols), s, p);
    }
  }

  /** Retyping cells changes neither symmetry nor any open step. */
  lemma SameWallsKeep(g: Grid, h: Grid, rows: nat, cols: nat)
    requires Shaped(g, rows, cols) && Shaped(h, rows, cols) && SameWalls(g, h, rows, cols)
    ensures Symmetric(g, rows, cols) ==> Symmetric(h, rows, cols)
    ensures forall p, q :: q in OpenAdj(g, rows, cols)(p) ==> q in OpenAdj(h, rows, cols)(p)
  {
    OpenStepsGrow(g, h, rows, cols);
  }

  /** The cells before (i, j) in row-major order. */
  predicate Before(o: Point, i: int, j: int) {
    o.x < i || (o.x == i && o.y < j)
  }
  /** The cells before `(i, j)` that `g0` had as Visited are PathCell in
      `g`; every other cell has the kind it had in `g0`. */
  ghost predicate ResetBefore(g0: Grid, g: Grid, rows: nat, cols: nat, i: int, j: int)
    requires Shaped(g0, rows, cols) && Shaped(g, rows, cols)
  {
    forall q :: InBounds(rows, cols, q) ==>
      At(g, rows, cols, q).kind ==
        if Before(q, i, j) && At(g0, rows, cols, q).kind == Visited then PathCell
        else At(g0, rows, cols, q).kind
  }

  /** Resetting cell `(i, j)` when it is Visited moves ResetBefore one cell
      on. */
  lemma ResetCell(g0: Grid, g: Grid, rows: nat, cols: nat, i: int, j: int, g': Grid)
    requires Shaped(g0, rows, cols) && Shaped(g, rows, cols) && 0 <= i < rows && 0 <= j < cols
    requires ResetBefore(g0, g, rows, cols, i, j)
    requires g' == if g[i][j].kind == Visited then SetCell(g, rows, cols, Point(i, j), g[i][j].(kind := PathCell)) else g
    ensures Shaped(g', rows, cols) && ResetBefore(g0, g', rows, cols, i, j + 1)
  {
    forall q | InBounds(rows, cols, q)
      ensures At(g', rows, cols, q).kind ==
        if Before(q, i, j + 1) && At(g0, rows, cols, q).kind == Visited then PathCell
        else At(g0, rows, cols, q).kind
    {
      if q != Point(i, j) {
        assert At(g', rows, cols, q) == At(g, rows, cols, q);
      }
    }
  }

  /** A finished row is the start of the next. */
  lemma ResetRow(g0: Grid, g: Grid, rows: nat, cols: nat, i: int)
    requires Shaped(g0, rows, cols) && Shaped(g, rows, cols)
    requires ResetBefore(g0, g, rows, cols, i, cols)
    ensures ResetBefore(g0, g, rows, cols, i + 1, 0)
  {
    forall q | InBounds(rows, cols, q)
      ensures At(g, rows, cols, q).kind ==
        if Before(q, i + 1, 0) && At(g0, rows, cols, q).kind == Visited then PathCell
        else At(g0, rows, cols, q).kind
    {
      assert Before(q, i + 1, 0) == Before(q, i, cols);
    }
  }


  /** Whether the per-edge pass of generateRandomMaze has opened wall `e` of
      `q` once every cell before (i, j) has had its RIGHT and BOTTOM draw:
      `openRight(o)` / `openDown(o)` is the coin for the wall right of /
      below cell `o`. */
  predicate CoinOpened(rows: nat, cols: nat, openRight: Point -> bool, openDown: Point -> bool,
                       i: int, j: int, q: Point, e: WallDirection)
  {
    match e
    case Right => q.y < cols - 1 && Before(q, i, j) && openRight(q)
    case Left => q.y > 0 && Before(Point(q.x, q.y - 1), i, j) && openRight(Point(q.x, q.y - 1))
    case Bottom => q.x < rows - 1 && Before(q, i, j) && openDown(q)
    case Top => q.x > 0 && Before(Point(q.x - 1, q.y), i, j) && openDown(Point(q.x - 1, q.y))
  }

  /** Drawing the coins of cell (i, j) opens its RIGHT wall (and the LEFT
      wall facing it) and its BOTTOM wall (and the TOP wall facing it). */
  lemma CoinStep(rows: nat, cols: nat, openRight: Point -> bool, openDown: Point -> bool, i: int, j: int, q: Point, e: WallDirection)
    requires 0 <= i < rows && 0 <= j < cols && InBounds(rows, cols, q)
    ensures CoinOpened(rows, cols, openRight, openDown, i, j + 1, q, e) <==>
      || CoinOpened(rows, cols, openRight, openDown, i, j, q, e)
      || (j < cols - 1 && openRight(Point(i, j)) && ((q == Point(i, j) && e == Right) || (q == Point(i, j + 1) && e == Left)))
      || (i < rows - 1 && openDown(Point(i, j)) && ((q == Point(i, j) && e == Bottom) || (q == Point(i + 1, j) && e == Top)))
  {
  }

  /** The grid after the coins of cell (i, j) are applied
      (maze.cpp:150-157). */
  function CoinCellStep(g: Grid, rows: nat, cols: nat, openRight: Point -> bool, openDown: Point -> bool, i: int, j: int): (r: Grid)
    requires Shaped(g, rows, cols) && 0 <= i < rows && 0 <= j < cols
    ensures Shaped(r, rows, cols)
  {
    var g1 := if j < cols - 1 && openRight(Point(i, j)) then WithWall(g, rows, cols, Point(i, j), Right, false) else g;
    if i < rows - 1 && openDown(Point(i, j)) then WithWall(g1, rows, cols, Point(i, j), Bottom, false) else g1
  }

  /** Clearing wall `d` of `p` when `c` holds, and leaving the grid alone
      otherwise. */
  lemma ClearWallWhen(g: Grid, rows: nat, cols: nat, p: Point, d: WallDirection, c: bool)
    requires Shaped(g, rows, cols) && InBounds(rows, cols, p)
    ensures forall q, e :: InBounds(rows, cols, q) ==>
      At(if c then WithWall(g, rows, cols, p, d, false) else g, rows, cols, q).HasWall(e) ==
        (At(g, rows, cols, q).HasWall(e) && !(c && ((q == p && e == d) || (q == AdjacentCell(p, d) && e == Opposite(d)))))
    ensures forall q :: InBounds(rows, cols, q) ==>
      At(if c then WithWall(g, rows, cols, p, d, false) else g, rows, cols, q).kind == At(g, rows, cols, q).kind
  {
    if c {
      WithWallEffect(g, rows, cols, p, d, false);
    }
  }

  /** Applying the coins of cell (i, j) to the layout of the cells before it
      gives the layout of the cells up to and including it; cell types stay. */
  /** Every wall of `g` stands exactly when no coin drawn before (i, j)
      opened it. */
  ghost predicate CoinLayout(g: Grid, rows: nat, cols: nat, openRight: Point -> bool, openDown: Point -> bool, i: int, j: int)
    requires Shaped(g, rows, cols)
  {
    forall q, e :: InBounds(rows, cols, q) ==>
      At(g, rows, cols, q).HasWall(e) == !CoinOpened(rows, cols, openRight, openDown, i, j, q, e)
  }

  /** Before any draw, a fully walled grid is the coin layout at (0, 0). */
  lemma CoinLayoutStart(g: Grid, rows: nat, cols: nat, openRight: Point -> bool, openDown: Point -> bool)
    requires Shaped(g, rows, cols)
    requires forall q :: InBounds(rows, cols, q) ==> At(g, rows, cols, q) == DefaultCell()
    ensures CoinLayout(g, rows, cols, openRight, openDown, 0, 0)
  {
  }

  /** Having drawn the whole of row i is the same as starting row i + 1. */
  lemma CoinLayoutRow(g: Grid, rows: nat, cols: nat, openRight: Point -> bool, openDown: Point -> bool, i: int)
    requires Shaped(g, rows, cols) && CoinLayout(g, rows, cols, openRight, openDown, i, cols)
    ensures CoinLayout(g, rows, cols, openRight, openDown, i + 1, 0)
  {
    forall q, e | InBounds(rows, cols, q)
      ensures CoinOpened(rows, cols, openRight, openDown, i, cols, q, e) == CoinOpened(rows, cols, openRight, openDown, i + 1, 0, q, e)
    {
    }
  }

  lemma CoinCellLayout(g: Grid, rows: nat, cols: nat, openRight: Point -> bool, openDown: Point -> bool, i: int, j: int)
    requires Shaped(g, rows, cols) && 0 <= i < rows && 0 <= j < cols
    requires CoinLayout(g, rows, cols, openRight, openDown, i, j)
    ensures CoinLayout(CoinCellStep(g, rows, cols, openRight, openDown, i, j), rows, cols, openRight, openDown, i, j + 1)
    ensures forall q :: InBounds(rows, cols, q) ==>
      At(CoinCellStep(g, rows, cols, openRight, openDown, i, j), rows, cols, q).kind == At(g, rows, cols, q).kind
  {
    var p := Point(i, j);
    var c1 := j < cols - 1 && openRight(p);
    var c2 := i < rows - 1 && openDown(p);
    var g1 := if c1 then WithWall(g, rows, cols, p, Right, false) else g;
    ClearWallWhen(g, rows, cols, p, Right, c1);
    ClearWallWhen(g1, rows, cols, p, Bottom, c2);
    assert AdjacentCell(p, Right) == Point(i, j + 1) && AdjacentCell(p, Bottom) == Point(i + 1, j);
    forall q, e | InBounds(rows, cols, q)
      ensures At(CoinCellStep(g, rows, cols, openRight, openDown, i, j), rows, cols, q).HasWall(e) ==
        !CoinOpened(rows, cols, openRight, openDown, i, j + 1, q, e)
    {
      CoinStep(rows, cols, openRight, openDown, i, j, q, e);
    }
  }

  /** The outer wall generateRandomMaze opens at door `p`: TOP in row 0,
      else BOTTOM in the last row; LEFT in column 0, else RIGHT in the last
      column. */
  predicate DoorOpened(rows: nat, cols: nat, p: Point, q: Point, e: WallDirection) {
    q == p &&
    match e
    case Top => p.x == 0
    case Bottom => p.x != 0 && p.x == rows - 1
    case Left => p.y == 0
    case Right => p.y != 0 && p.y == cols - 1
  }

  /** The first half of a door's opening: TOP in row 0, else BOTTOM in the
      last row. */
  function DoorRowStep(g: Grid, rows: nat, cols: nat, p: Point): (r: Grid)
    requires Shaped(g, rows, cols) && InBounds(rows, cols, p)
    ensures Shaped(r, rows, cols)
  {
    if p.x == 0 then WithWall(g, rows, cols, p, Top, false)
    else if p.x == rows - 1 then WithWall(g, rows, cols, p, Bottom, false)
    else g
  }

  /** The second half: LEFT in column 0, else RIGHT in the last column. */
  function DoorColStep(g: Grid, rows: nat, cols: nat, p: Point): (r: Grid)
    requires Shaped(g, rows, cols) && InBounds(rows, cols, p)
    ensures Shaped(r, rows, cols)
  {
    if p.y == 0 then WithWall(g, rows, cols, p, Left, false)
    else if p.y == cols - 1 then WithWall(g, rows, cols, p, Right, false)
    else g
  }

  /** Both halves clear exactly the outer walls DoorOpened names, and keep
      the kinds and the wall symmetry. */
  lemma DoorSteps(g: Grid, rows: nat, cols: nat, p: Point)
    requires Shaped(g, rows, cols) && InBounds(rows, cols, p)
    ensures forall q :: InBounds(rows, cols, q) ==>
      At(DoorColStep(DoorRowStep(g, rows, cols, p), rows, cols, p), rows, cols, q).kind == At(g, rows, cols, q).kind
    ensures forall q, e :: InBounds(rows, cols, q) ==>
      At(DoorColStep(DoorRowStep(g, rows, cols, p), rows, cols, p), rows, cols, q).HasWall(e) ==
        (At(g, rows, cols, q).HasWall(e) && !DoorOpened(rows, cols, p, q, e))
  {
    var g1 := DoorRowStep(g, rows, cols, p);
    DoorRowEffect(g, rows, cols, p);
    DoorColEffect(g1, rows, cols, p);
    forall q, e | InBounds(rows, cols, q)
      ensures At(DoorColStep(g1, rows, cols, p), rows, cols, q).HasWall(e) ==
        (At(g, rows, cols, q).HasWall(e) && !DoorOpened(rows, cols, p, q, e))
    {
      assert At(DoorColStep(g1, rows, cols, p), rows, cols, q).HasWall(e) ==
        (At(g1, rows, cols, q).HasWall(e) && !(q == p && ((e == Left && p.y == 0) || (e == Right && p.y != 0 && p.y == cols - 1))));
      assert At(g1, rows, cols, q).HasWall(e) ==
        (At(g, rows, cols, q).HasWall(e) && !(q == p && ((e == Top && p.x == 0) || (e == Bottom && p.x != 0 && p.x == rows - 1))));
    }
  }

  /** The row half clears only the outer TOP or BOTTOM wall of `p`. */
  lemma DoorRowEffect(g: Grid, rows: nat, cols: nat, p: Point)
    requires Shaped(g, rows, cols) && InBounds(rows, cols, p)
    ensures forall q :: InBounds(rows, cols, q) ==>
      At(DoorRowStep(g, rows, cols, p), rows, cols, q).kind == At(g, rows, cols, q).kind
    ensures forall q, e :: InBounds(rows, cols, q) ==>
      At(DoorRowStep(g, rows, cols, p), rows, cols, q).HasWall(e) ==
        (At(g, rows, cols, q).HasWall(e) && !(q == p && ((e == Top && p.x == 0) || (e == Bottom && p.x != 0 && p.x == rows - 1))))
  {
    if p.x == 0 {
      WithWallEffect(g, rows, cols, p, Top, false);
    } else if p.x == rows - 1 {
      WithWallEffect(g, rows, cols, p, Bottom, false);
    }
  }

  /** The column half clears only the outer LEFT or RIGHT wall of `p`. */
  lemma DoorColEffect(g: Grid, rows: nat, cols: nat, p: Point)
    requires Shaped(g, rows, cols) && InBounds(rows, cols, p)
    ensures forall q :: InBounds(rows, cols, q) ==>
      At(DoorColStep(g, rows, cols, p), rows, cols, q).kind == At(g, rows, cols, q).kind
    ensures forall q, e :: InBounds(rows, cols, q) ==>
      At(DoorColStep(g, rows, cols, p), rows, cols, q).HasWall(e) ==
        (At(g, rows, cols, q).HasWall(e) && !(q == p && ((e == Left && p.y == 0) || (e == Right && p.y != 0 && p.y == cols - 1))))
  {
    if p.y == 0 {
      WithWallEffect(g, rows, cols, p, Left, false);
    } else if p.y == cols - 1 {
      WithWallEffect(g, rows, cols, p, Right, false);
    }
  }

  /** The unvisited on-grid neighbours of `p` reached through `ds`, in that
      order. */
  function FreshVia(v: seq<seq<bool>>, rows: nat, cols: nat, p: Point, ds: seq<WallDirection>): seq<Point>
    requires Shaped(v, rows, cols)
  {
    if ds == [] then []
    else
      var q := AdjacentCell(p, ds[|ds| - 1]);
      FreshVia(v, rows, cols, p, ds[..|ds| - 1]) + (if InBounds(rows, cols, q) && !v[q.x][q.y] then [q] else [])
  }

  lemma {:induction false} FreshViaMembers(v: seq<seq<bool>>, rows: nat, cols: nat, p: Point, ds: seq<WallDirection>, q: Point)
    requires Shaped(v, rows, cols)
    ensures q in FreshVia(v, rows, cols, p, ds) <==> q in NeighboursVia([], rows, cols, p, ds, false) && InBounds(rows, cols, q) && !v[q.x][q.y]
  {
    if ds != [] {
      FreshViaMembers(v, rows, cols, p, ds[..|ds| - 1], q);
    }
  }

  /** The unvisited neighbours are exactly the unmarked on-grid
      neighbours. */
  lemma FreshNeighbours(v: seq<seq<bool>>, rows: nat, cols: nat, p: Point)
    requires Shaped(v, rows, cols)
    ensures forall q :: q in FreshVia(v, rows, cols, p, Directions) <==> q in AllNeighbours(rows, cols, p) && InBounds(rows, cols, q) && !v[q.x][q.y]
  {
    AllNeighboursSpec(rows, cols, p);
    forall q ensures q in FreshVia(v, rows, cols, p, Directions) <==> q in AllNeighbours(rows, cols, p) && InBounds(rows, cols, q) && !v[q.x][q.y] {
      FreshViaMembers(v, rows, cols, p, Directions, q);
    }
  }

  /** One carve step of the DFS keeps every marked cell, and the newly
      marked one, reachable from the start. */
  lemma CarveKeepsReachable(g: Grid, h: Grid, rows: nat, cols: nat, s: Point, M: set<Point>, cur: Point, next: Point)
    requires Shaped(g, rows, cols) && Shaped(h, rows, cols)
    requires forall q, e :: InBounds(rows, cols, q) && !At(g, rows, cols, q).HasWall(e) ==> !At(h, rows, cols, q).HasWall(e)
    requires cur in M && next in Accessible(h, rows, cols, cur)
    requires forall c :: c in M ==> Reachable(OpenAdj(g, rows, cols), s, c)
    ensures forall c :: c in M + {next} ==> Reachable(OpenAdj(h, rows, cols), s, c)
  {
    OpenStepsGrow(g, h, rows, cols);
    forall c | c in M ensures Reachable(OpenAdj(h, rows, cols), s, c) {
      ReachableTransfer(OpenAdj(g, rows, cols), OpenAdj(h, rows, cols), s, c);
    }
    assert Reachable(OpenAdj(h, rows, cols), s, cur);
    var w :| WalkBetween(OpenAdj(h, rows, cols), w, s, cur);
    WalkExtend(OpenAdj(h, rows, cols), w, next);
    assert WalkBetween(OpenAdj(h, rows, cols), w + [next], s, next);
  }

  // ---------------------------------------------------------------------
  // The DFS carve's loop invariant

  /** What holds at the head of generateMazeWithDFS's loop, `M` being the
      cells marked in `visited` and `carves` the number of walls removed so
      far: the stack holds marked cells; a marked cell off the stack has all
      its neighbours marked; unmarked cells are fully walled; the outer
      boundary is closed; every marked cell is reachable from `s`; each
      carve cleared two flags and marked one cell. */
  ghost predicate CarveState(g: Grid, rows: nat, cols: nat, s: Point, M: set<Point>, stack: seq<Point>, carves: nat) {
    && Shaped(g, rows, cols)
    && InBounds(rows, cols, s) && s in M
    && MarkedOnGrid(rows, cols, M)
    && StackFrontier(rows, cols, M, stack)
    && UnmarkedWalled(g, rows, cols, M)
    && BoundaryClosed(g, rows, cols)
    && AllReach(g, rows, cols, s, M)
    && TotalWalls(g) + 2 * carves == 4 * rows * cols
    && carves + 1 == |M|
  }

  ghost predicate MarkedOnGrid(rows: nat, cols: nat, M: set<Point>) {
    forall p :: p in M ==> InBounds(rows, cols, p)
  }

  /** The stack holds marked cells, and every marked cell off the stack has
      all its neighbours marked. */
  ghost predicate StackFrontier(rows: nat, cols: nat, M: set<Point>, stack: seq<Point>) {
    && (forall k :: 0 <= k < |stack| ==> stack[k] in M)
    && (forall c, q :: c in M && c !in stack && q in AllNeighbours(rows, cols, c) ==> q in M)
  }

  ghost predicate UnmarkedWalled(g: Grid, rows: nat, cols: nat, M: set<Point>)
    requires Shaped(g, rows, cols)
  {
    forall q, e :: InBounds(rows, cols, q) && q !in M ==> At(g, rows, cols, q).HasWall(e)
  }

  /** Every wall facing off the grid stands. */
  ghost predicate BoundaryClosed(g: Grid, rows: nat, cols: nat)
    requires Shaped(g, rows, cols)
  {
    forall q, e :: InBounds(rows, cols, q) && !InBounds(rows, cols, AdjacentCell(q, e)) ==> At(g, rows, cols, q).HasWall(e)
  }

  ghost predicate AllReach(g: Grid, rows: nat, cols: nat, s: Point, M: set<Point>) {
    forall c :: c in M ==> Reachable(OpenAdj(g, rows, cols), s, c)
  }

  /** The `visited` matrix marks exactly the cells of `M`. */
  ghost predicate MarksMatch(v: seq<seq<bool>>, rows: nat, cols: nat, M: set<Point>) {
    Shaped(v, rows, cols) && forall p :: InBounds(rows, cols, p) ==> (v[p.x][p.y] <==> p in M)
  }

  lemma MarksAfterMark(v: seq<seq<bool>>, rows: nat, cols: nat, M: set<Point>, p: Point)
    requires MarksMatch(v, rows, cols, M) && InBounds(rows, cols, p)
    ensures MarksMatch(v[p.x := v[p.x][p.y := true]], rows, cols, M + {p})
  {
  }

  /** Every cell on the grid is typed PATH. */
  ghost predicate AllPathTyped(g: Grid, rows: nat, cols: nat)
    requires Shaped(g, rows, cols)
  {
    forall q :: InBounds(rows, cols, q) ==> At(g, rows, cols, q).kind == PathCell
  }

  lemma TypesAfterWithWall(g: Grid, rows: nat, cols: nat, p: Point, d: WallDirection, v: bool)
    requires Shaped(g, rows, cols) && InBounds(rows, cols, p) && AllPathTyped(g, rows, cols)
    ensures AllPathTyped(WithWall(g, rows, cols, p, d, v), rows, cols)
  {
    WithWallEffect(g, rows, cols, p, d, v);
  }

  /** Right after the entrance is marked and pushed on a fully walled grid. */
  lemma CarveInit(g: Grid, rows: nat, cols: nat, s: Point)
    requires Shaped(g, rows, cols) && InBounds(rows, cols, s)
    requires forall q :: InBounds(rows, cols, q) ==> At(g, rows, cols, q) == DefaultCell()
    ensures CarveState(g, rows, cols, s, {s}, [s], 0)
  {
    forall i, j | 0 <= i < rows && 0 <= j < cols ensures g[i][j].WallCount() == 4 {
      assert At(g, rows, cols, Point(i, j)) == DefaultCell();
    }
    TotalWallsFull(g, rows, cols);
    assert WalkBetween(OpenAdj(g, rows, cols), [s], s, s);
  }

  /** Carving from the top of the stack to an unmarked neighbour, marking it
      and pushing it keeps the invariant and shrinks the unmarked set. */
  lemma CarvePush(g: Grid, rows: nat, cols: nat, s: Point, M: set<Point>, stack: seq<Point>, carves: nat, next: Point)
    requires CarveState(g, rows, cols, s, M, stack, carves) && Symmetric(g, rows, cols) && stack != []
    requires next in AllNeighbours(rows, cols, stack[|stack| - 1]) && next !in M
    ensures CarveState(WithWall(g, rows, cols, stack[|stack| - 1], StepDirection(stack[|stack| - 1], next), false),
                       rows, cols, s, M + {next}, stack + [next], carves + 1)
    ensures |AllCells(rows, cols) - (M + {next})| < |AllCells(rows, cols) - M|
  {
    var cur := stack[|stack| - 1];
    var h := WithWall(g, rows, cols, cur, StepDirection(cur, next), false);
    assert cur in M;
    NeighbourOffset(rows, cols, cur, next);
    PushReach(g, rows, cols, s, M, cur, next);
    PushCount(g, rows, cols, M, carves, cur, next);
    PushWalls(g, rows, cols, M, cur, next);
    PushStack(rows, cols, M, stack, next);
    PushMarked(rows, cols, M, next);
    CarveStateIntro(h, rows, cols, s, M + {next}, stack + [next], carves + 1);
  }

  lemma CarveStateIntro(g: Grid, rows: nat, cols: nat, s: Point, M: set<Point>, stack: seq<Point>, carves: nat)
    requires Shaped(g, rows, cols) && InBounds(rows, cols, s) && s in M
    requires MarkedOnGrid(rows, cols, M) && StackFrontier(rows, cols, M, stack)
    requires UnmarkedWalled(g, rows, cols, M) && BoundaryClosed(g, rows, cols) && AllReach(g, rows, cols, s, M)
    requires TotalWalls(g) + 2 * carves == 4 * rows * cols && carves + 1 == |M|
    ensures CarveState(g, rows, cols, s, M, stack, carves)
  {
  }

  /** The marked part of the invariant after a push. */
  lemma PushMarked(rows: nat, cols: nat, M: set<Point>, next: Point)
    requires MarkedOnGrid(rows, cols, M) && InBounds(rows, cols, next) && next !in M
    ensures MarkedOnGrid(rows, cols, M + {next}) && |M + {next}| == |M| + 1
  {
  }

  /** The stack part of the invariant after a push. */
  lemma PushStack(rows: nat, cols: nat, M: set<Point>, stack: seq<Point>, next: Point)
    requires StackFrontier(rows, cols, M, stack)
    ensures StackFrontier(rows, cols, M + {next}, stack + [next])
  {
    var st := stack + [next];
    forall k | 0 <= k < |st| ensures st[k] in M + {next} {
      if k < |stack| {
        assert st[k] == stack[k];
      }
    }
    forall c, q | c in M + {next} && c !in st && q in AllNeighbours(rows, cols, c) ensures q in M + {next} {
      assert c !in stack;
    }
  }

  lemma PushReach(g: Grid, rows: nat, cols: nat, s: Point, M: set<Point>, cur: Point, next: Point)
    requires Shaped(g, rows, cols) && cur in M
    requires InBounds(rows, cols, cur) && next in AllNeighbours(rows, cols, cur)
    requires AllReach(g, rows, cols, s, M)
    ensures AllReach(WithWall(g, rows, cols, cur, StepDirection(cur, next), false), rows, cols, s, M + {next})
  {
    var h := WithWall(g, rows, cols, cur, StepDirection(cur, next), false);
    AllNeighboursSpec(rows, cols, cur);
    WithWallEffect(g, rows, cols, cur, StepDirection(cur, next), false);
    AccessibleSpec(h, rows, cols, cur);
    assert next in Accessible(h, rows, cols, cur);
    CarveKeepsReachable(g, h, rows, cols, s, M, cur, next);
  }

  lemma PushCount(g: Grid, rows: nat, cols: nat, M: set<Point>, carves: nat, cur: Point, next: Point)
    requires Shaped(g, rows, cols) && Symmetric(g, rows, cols)
    requires InBounds(rows, cols, cur) && next in AllNeighbours(rows, cols, cur) && next !in M
    requires UnmarkedWalled(g, rows, cols, M)
    requires TotalWalls(g) + 2 * carves == 4 * rows * cols
    ensures TotalWalls(WithWall(g, rows, cols, cur, StepDirection(cur, next), false)) + 2 * (carves + 1) == 4 * rows * cols
    ensures |AllCells(rows, cols) - (M + {next})| < |AllCells(rows, cols) - M|
  {
    var d := StepDirection(cur, next);
    AllNeighboursSpec(rows, cols, cur);
    AdjacentRoundTrip(cur, d, d);
    TotalWallsOpenEdge(g, rows, cols, cur, d);
    AllCellsMembers(rows, cols, next);
    assert AllCells(rows, cols) - (M + {next}) == (AllCells(rows, cols) - M) - {next};
  }

  lemma PushWalls(g: Grid, rows: nat, cols: nat, M: set<Point>, cur: Point, next: Point)
    requires Shaped(g, rows, cols) && cur in M
    requires InBounds(rows, cols, cur) && next in AllNeighbours(rows, cols, cur)
    requires UnmarkedWalled(g, rows, cols, M) && BoundaryClosed(g, rows, cols)
    ensures UnmarkedWalled(WithWall(g, rows, cols, cur, StepDirection(cur, next), false), rows, cols, M + {next})
    ensures BoundaryClosed(WithWall(g, rows, cols, cur, StepDirection(cur, next), false), rows, cols)
  {
    var d := StepDirection(cur, next);
    AllNeighboursSpec(rows, cols, cur);
    AdjacentRoundTrip(cur, d, d);
    WithWallEffect(g, rows, cols, cur, d, false);
  }

  /** Popping a stack top whose neighbours are all marked keeps the
      invariant. */
  lemma CarvePop(g: Grid, rows: nat, cols: nat, s: Point, M: set<Point>, stack: seq<Point>, carves: nat)
    requires CarveState(g, rows, cols, s, M, stack, carves) && stack != []
    requires forall q :: q in AllNeighbours(rows, cols, stack[|stack| - 1]) ==> q in M
    ensures CarveState(g, rows, cols, s, M, stack[..|stack| - 1], carves)
  {
    var st := stack[..|stack| - 1];
    forall k | 0 <= k < |st| ensures st[k] in M {
      assert st[k] == stack[k];
    }
    forall c, q | c in M && c !in st && q in AllNeighbours(rows, cols, c) ensures q in M {
      if c != stack[|stack| - 1] {
        assert c !in stack;
      }
    }
    assert StackFrontier(rows, cols, M, st);
  }

  /** With the stack empty every cell is marked and reachable, and exactly
      rows*cols - 1 carves were made. */
  /** The outcome of a depth-first carve from `s`: every cell is reachable
      from `s` through open walls, exactly rows * cols - 1 inner walls were
      opened (the edges of a spanning tree), and the outer boundary is
      closed. */
  ghost predicate SpanningCarve(g: Grid, rows: nat, cols: nat, s: Point) {
    && Shaped(g, rows, cols)
    && (forall p :: InBounds(rows, cols, p) ==> Reachable(OpenAdj(g, rows, cols), s, p))
    && TotalWalls(g) == 4 * rows * cols - 2 * (rows * cols - 1)
    && BoundaryClosed(g, rows, cols)
  }

  lemma RetypeKeepsTotal(g: Grid, rows: nat, cols: nat, p: Point, k: CellType)
    requires Shaped(g, rows, cols) && InBounds(rows, cols, p)
    ensures TotalWalls(SetCell(g, rows, cols, p, g[p.x][p.y].(kind := k))) == TotalWalls(g)
  {
    TotalWallsSetCell(g, rows, cols, p, g[p.x][p.y].(kind := k));
  }

  /** Retyping cells keeps a spanning carve one. */
  lemma SameWallsSpanning(g: Grid, h: Grid, rows: nat, cols: nat, s: Point)
    requires Shaped(g, rows, cols) && Shaped(h, rows, cols) && SameWalls(g, h, rows, cols)
    requires TotalWalls(h) == TotalWalls(g)
    ensures SpanningCarve(g, rows, cols, s) ==> SpanningCarve(h, rows, cols, s)
  {
    SameWallsReach(g, h, rows, cols, s);
  }

  lemma CarveDone(g: Grid, rows: nat, cols: nat, s: Point, M: set<Point>, carves: nat)
    requires CarveState(g, rows, cols, s, M, [], carves)
    ensures forall p :: InBounds(rows, cols, p) ==> p in M
    ensures SpanningCarve(g, rows, cols, s)
    ensures carves == rows * cols - 1
  {
    assert StackFrontier(rows, cols, M, []);
    assert ClosedUnder(FullAdj(rows, cols), M);
    forall p | InBounds(rows, cols, p) ensures p in M {
      FullGridConnected(rows, cols, M, s, p);
    }
    forall p ensures p in AllCells(rows, cols) <==> p in M {
      AllCellsMembers(rows, cols, p);
    }
    assert M == AllCells(rows, cols);
    AllCellsCount(rows, cols);
  }

  // ---------------------------------------------------------------------
  // The maze object

  class Maze {
    const rows: nat
    const cols: nat
    var grid: Grid
    var entrance: Point
    var exit: Point

    /** The grid has its declared size, facing flags agree, and on a
        non-empty grid the entrance and exit are cells of it. */
    ghost predicate Valid()
      reads this
    {
      && Shaped(grid, rows, cols)
      && Symmetric(grid, rows, cols)
      && (rows > 0 && cols > 0 ==> InBounds(rows, cols, entrance) && InBounds(rows, cols, exit))
    }

    /** Maze(rows, cols): every cell fully walled; entrance (0,0) typed
        ENTRANCE, exit (rows-1, cols-1) typed EXIT (the exit wins on a 1x1
        grid), every other cell PATH. The loop at maze.cpp:16-20 writes the
        value `resize` already gave every cell. */
    constructor(rows: nat, cols: nat)
      ensures Valid() && this.rows == rows && this.cols == cols
      ensures entrance == Point(0, 0) && exit == Point(rows - 1, cols - 1)
      ensures forall p, d :: InBounds(rows, cols, p) ==> At(grid, rows, cols, p).HasWall(d)
      ensures forall p :: InBounds(rows, cols, p) ==>
        At(grid, rows, cols, p).kind == (if p == exit then Exit else if p == entrance then Entrance else PathCell)
    {
      this.rows := rows;
      this.cols := cols;
      grid := FullyWalled(rows, cols);
      entrance := Point(0, 0);
      exit := Point(rows - 1, cols - 1);
      new;
      SetCellType(entrance.x, entrance.y, Entrance);
      SetCellType(exit.x, exit.y, Exit);
    }

    /** isValidPosition: the position names a cell of the grid. */
    predicate IsValidPosition(x: int, y: int)
      ensures IsValidPosition(x, y) <==> 0 <= x < rows && 0 <= y < cols
      ensures IsValidPosition(x, y) <==> Point(x, y) in AllCells(rows, cols)
    {
      AllCellsMembers(rows, cols, Point(x, y));
      InBounds(rows, cols, Point(x, y))
    }

    /** getCell: the cell, or a fresh fully walled PATH cell off the grid. */
    function GetCell(x: int, y: int): (c: MazeCell)
      reads this
      requires Valid()
      ensures IsValidPosition(x, y) ==> c == At(grid, rows, cols, Point(x, y))
      ensures !IsValidPosition(x, y) ==> (forall d :: c.HasWall(d)) && c.kind == PathCell
    {
      if IsValidPosition(x, y) then grid[x][y] else DefaultCell()
    }

    /** hasWall: off the grid every wall stands. */
    predicate HasWall(x: int, y: int, d: WallDirection)
      reads this
      requires Valid()
      ensures !IsValidPosition(x, y) ==> HasWall(x, y, d)
      ensures IsValidPosition(x, y) ==> (HasWall(x, y, d) <==> GetCell(x, y).HasWall(d))
    {
      WallAt(grid, rows, cols, Point(x, y), d)
    }

    method SetCellType(x: int, y: int, t: CellType)
      requires Valid()
      modifies this
      ensures Valid() && entrance == old(entrance) && exit == old(exit)
      ensures SameWalls(old(grid), grid, rows, cols)
      ensures !IsValidPosition(x, y) ==> grid == old(grid)
      ensures IsValidPosition(x, y) ==> grid == SetCell(old(grid), rows, cols, Point(x, y), old(grid)[x][y].(kind := t))
    {
      if IsValidPosition(x, y) {
        var p := Point(x, y);
        var c := grid[x][y].(kind := t);
        var g := SetCell(grid, rows, cols, p, c);
        forall q, d | InBounds(rows, cols, q) ensures At(g, rows, cols, q).HasWall(d) == At(grid, rows, cols, q).HasWall(d) {
          if q == p { assert At(g, rows, cols, q) == c; }
        }
        grid := g;
      }
    }

    /** setWall: off the grid nothing happens; on it the flag is set and
        mirrored onto the neighbour when that is on the grid. */
    method SetWall(x: int, y: int, d: WallDirection, present: bool)
      requires Valid()
      modifies this
      ensures Valid() && entrance == old(entrance) && exit == old(exit)
      ensures !IsValidPosition(x, y) ==> grid == old(grid)
      ensures IsValidPosition(x, y) ==> grid == WithWall(old(grid), rows, cols, Point(x, y), d, present)
    {
      if !IsValidPosition(x, y) {
        return;
      }
      var p := Point(x, y);
      var g: Grid := SetCell(grid, rows, cols, p, grid[x][y].SetWall(d, present));
      var a := AdjacentCell(p, d);
      if IsValidPosition(a.x, a.y) {
        g := SetCell(g, rows, cols, a, g[a.x][a.y].SetWall(Opposite(d), present));
      }
      assert g == WithWall(grid, rows, cols, p, d, present);
      WithWallEffect(grid, rows, cols, p, d, present);
      grid := g;
    }

    method RemoveWall(x: int, y: int, d: WallDirection)
      requires Valid()
      modifies this
      ensures Valid() && entrance == old(entrance) && exit == old(exit)
      ensures !IsValidPosition(x, y) ==> grid == old(grid)
      ensures IsValidPosition(x, y) ==> grid == WithWall(old(grid), rows, cols, Point(x, y), d, false)
    {
      SetWall(x, y, d, false);
    }

    /** removeWallBetween: a no-op unless both cells are on the grid and one
        step apart; otherwise exactly the two facing flags are cleared. */
    method RemoveWallBetween(p1: Point, p2: Point)
      requires Valid()
      modifies this
      ensures Valid() && entrance == old(entrance) && exit == old(exit)
      ensures !(IsValidPosition(p1.x, p1.y) && IsValidPosition(p2.x, p2.y) && Abs(p2.x - p1.x) + Abs(p2.y - p1.y) == 1) ==>
        grid == old(grid)
      ensures IsValidPosition(p1.x, p1.y) && IsValidPosition(p2.x, p2.y) && Abs(p2.x - p1.x) + Abs(p2.y - p1.y) == 1 ==>
        grid == WithWall(old(grid), rows, cols, p1, StepDirection(p1, p2), false)
    {
      if !IsValidPosition(p1.x, p1.y) || !IsValidPosition(p2.x, p2.y) {
        return;
      }
      var dx := p2.x - p1.x;
      var dy := p2.y - p1.y;
      if Abs(dx) + Abs(dy) != 1 {
        return;
      }
      var dir1, dir2;
      if dx == -1 {
        dir1, dir2 := Top, Bottom;
      } else if dx == 1 {
        dir1, dir2 := Bottom, Top;
      } else if dy == -1 {
        dir1, dir2 := Left, Right;
      } else {
        dir1, dir2 := Right, Left;
      }
      assert dir1 == StepDirection(p1, p2) && dir2 == Opposite(dir1);
      var g: Grid := SetCell(grid, rows, cols, p1, grid[p1.x][p1.y].RemoveWall(dir1));
      g := SetCell(g, rows, cols, p2, g[p2.x][p2.y].RemoveWall(dir2));
      assert g == WithWall(grid, rows, cols, p1, dir1, false);
      WithWallEffect(grid, rows, cols, p1, dir1, false);
      grid := g;
    }

    /** setEntrance: an off-grid point changes nothing; otherwise the old
        entrance cell becomes PATH, the new one ENTRANCE. */
    method SetEntrance(p: Point)
      requires Valid()
      modifies this
      ensures Valid() && exit == old(exit)
      ensures !IsValidPosition(p.x, p.y) ==> grid == old(grid) && entrance == old(entrance)
      ensures IsValidPosition(p.x, p.y) ==> entrance == p
      ensures IsValidPosition(p.x, p.y) ==> forall q :: InBounds(rows, cols, q) ==>
        && (forall d :: At(grid, rows, cols, q).HasWall(d) == At(old(grid), rows, cols, q).HasWall(d))
        && At(grid, rows, cols, q).kind ==
             if q == p then Entrance
             else if q == old(entrance) then PathCell
             else At(old(grid), rows, cols, q).kind
    {
      if IsValidPosition(p.x, p.y) {
        if entrance != Point(-1, -1) {
          SetCellType(entrance.x, entrance.y, PathCell);
        }
        entrance := p;
        SetCellType(p.x, p.y, Entrance);
      }
    }

    /** setExit: as setEntrance, for the exit. */
    method SetExit(p: Point)
      requires Valid()
      modifies this
      ensures Valid() && entrance == old(entrance)
      ensures !IsValidPosition(p.x, p.y) ==> grid == old(grid) && exit == old(exit)
      ensures IsValidPosition(p.x, p.y) ==> exit == p
      ensures IsValidPosition(p.x, p.y) ==> forall q :: InBounds(rows, cols, q) ==>
        && (forall d :: At(grid, rows, cols, q).HasWall(d) == At(old(grid), rows, cols, q).HasWall(d))
        && At(grid, rows, cols, q).kind ==
             if q == p then Exit
             else if q == old(exit) then PathCell
             else At(old(grid), rows, cols, q).kind
    {
      if IsValidPosition(p.x, p.y) {
        if exit != Point(-1, -1) {
          SetCellType(exit.x, exit.y, PathCell);
        }
        exit := p;
        SetCellType(p.x, p.y, Exit);
      }
    }

    /** canMoveTo. */
    predicate CanMoveTo(from: Point, to: Point)
      reads this
      requires Valid()
      ensures CanMoveTo(from, to) <==> to in Accessible(grid, rows, cols, from)
      ensures CanMoveTo(from, to) ==> !HasWall(from.x, from.y, StepDirection(from, to))
      ensures CanMoveTo(from, to) ==> to in AllNeighbours(rows, cols, from)
    {
      AccessibleSpec(grid, rows, cols, from);
      CanMove(grid, rows, cols, from, to)
    }

    /** getAccessibleNeighbors. */
    method GetAccessibleNeighbors(p: Point) returns (neighbours: seq<Point>)
      requires Valid()
      ensures neighbours == Accessible(grid, rows, cols, p)
    {
      neighbours := [];
      for k := 0 to 4
        invariant neighbours == NeighboursVia(grid, rows, cols, p, Directions[..k], true)
      {
        var q := AdjacentCell(p, Directions[k]);
        if IsValidPosition(q.x, q.y) && !HasWall(p.x, p.y, Directions[k]) {
          neighbours := neighbours + [q];
        }
        assert Directions[..k + 1][..k] == Directions[..k];
      }
      assert Directions[..4] == Directions;
    }

    /** getAllNeighbors. */
    method GetAllNeighbors(p: Point) returns (neighbours: seq<Point>)
      requires Valid()
      ensures neighbours == AllNeighbours(rows, cols, p)
    {
      neighbours := [];
      for k := 0 to 4
        invariant neighbours == NeighboursVia([], rows, cols, p, Directions[..k], false)
      {
        var q := AdjacentCell(p, Directions[k]);
        if IsValidPosition(q.x, q.y) {
          neighbours := neighbours + [q];
        }
        assert Directions[..k + 1][..k] == Directions[..k];
      }
      assert Directions[..4] == Directions;
    }
  
    /** The reset loop both generators start with: every cell becomes
        `MazeCell()`, fully walled and typed PATH. */
    method ResetCells()
      modifies this
      ensures entrance == old(entrance) && exit == old(exit)
      ensures Shaped(grid, rows, cols)
      ensures forall q :: InBounds(rows, cols, q) ==> At(grid, rows, cols, q) == DefaultCell()
      ensures Valid() <== (rows > 0 && cols > 0 ==> InBounds(rows, cols, entrance) && InBounds(rows, cols, exit))
    {
      var g := FullyWalled(rows, cols);
      grid := g;
      forall p, d | InBounds(rows, cols, p) && InBounds(rows, cols, AdjacentCell(p, d))
        ensures At(grid, rows, cols, p).HasWall(d) == At(grid, rows, cols, AdjacentCell(p, d)).HasWall(Opposite(d))
      {
      }
    }

    /** generateRandomMaze, with `openRight(o)` / `openDown(o)` standing for
        the draw `dist(rng) < wallRemovalProbability` made for the wall right
        of / below cell `o`. The layout is fully determined by the coins and
        the two doors; the only gaps in the outer boundary are the doors;
        every cell ends typed PATH (entrance and exit are not retyped). */
    method GenerateRandomMaze(openRight: Point -> bool, openDown: Point -> bool)
      requires Valid()
      modifies this
      ensures Valid() && entrance == old(entrance) && exit == old(exit)
      ensures forall q, e :: InBounds(rows, cols, q) ==>
        At(grid, rows, cols, q).HasWall(e) ==
          !(CoinOpened(rows, cols, openRight, openDown, rows, 0, q, e)
            || DoorOpened(rows, cols, entrance, q, e) || DoorOpened(rows, cols, exit, q, e))
      ensures forall q, e :: InBounds(rows, cols, q) && !InBounds(rows, cols, AdjacentCell(q, e)) ==>
        (At(grid, rows, cols, q).HasWall(e) <==> !(DoorOpened(rows, cols, entrance, q, e) || DoorOpened(rows, cols, exit, q, e)))
      ensures forall q :: InBounds(rows, cols, q) ==> At(grid, rows, cols, q).kind == PathCell
    {
      ResetCells();
      CoinLayoutStart(grid, rows, cols, openRight, openDown);
      for i := 0 to rows
        invariant Valid() && entrance == old(entrance) && exit == old(exit)
        invariant AllPathTyped(grid, rows, cols)
        invariant CoinLayout(grid, rows, cols, openRight, openDown, i, 0)
      {
        for j := 0 to cols
          invariant Valid() && entrance == old(entrance) && exit == old(exit)
          invariant AllPathTyped(grid, rows, cols)
          invariant CoinLayout(grid, rows, cols, openRight, openDown, i, j)
        {
          CoinCell(i, j, openRight, openDown);
        }
        CoinLayoutRow(grid, rows, cols, openRight, openDown, i);
      }
      ghost var g0 := grid;
      OpenDoor(entrance);
      OpenDoor(exit);
      assert CoinLayout(g0, rows, cols, openRight, openDown, rows, 0);
    }

    /** The two coin draws for cell (i, j) (maze.cpp:150-155). */
    method CoinCell(i: nat, j: nat, openRight: Point -> bool, openDown: Point -> bool)
      requires Valid() && i < rows && j < cols
      requires AllPathTyped(grid, rows, cols) && CoinLayout(grid, rows, cols, openRight, openDown, i, j)
      modifies this
      ensures Valid() && entrance == old(entrance) && exit == old(exit)
      ensures AllPathTyped(grid, rows, cols) && CoinLayout(grid, rows, cols, openRight, openDown, i, j + 1)
    {
      ghost var g0 := grid;
      if j < cols - 1 && openRight(Point(i, j)) {
        RemoveWall(i, j, Right);
      }
      if i < rows - 1 && openDown(Point(i, j)) {
        RemoveWall(i, j, Bottom);
      }
      assert grid == CoinCellStep(g0, rows, cols, openRight, openDown, i, j);
      CoinCellLayout(g0, rows, cols, openRight, openDown, i, j);
    }

    /** The forced opening of one door's outer walls (maze.cpp:160-180, once
        for the entrance and once for the exit). */
    method OpenDoor(p: Point)
      requires Valid()
      modifies this
      ensures Valid() && entrance == old(entrance) && exit == old(exit)
      ensures forall q :: InBounds(rows, cols, q) ==> At(grid, rows, cols, q).kind == At(old(grid), rows, cols, q).kind
      ensures forall q, e :: InBounds(rows, cols, q) ==>
        At(grid, rows, cols, q).HasWall(e) == (At(old(grid), rows, cols, q).HasWall(e) && !DoorOpened(rows, cols, p, q, e))
    {
      if !IsValidPosition(p.x, p.y) {
        return;
      }
      ghost var g0 := grid;
      if p.x == 0 {
        RemoveWall(p.x, p.y, Top);
      } else if p.x == rows - 1 {
        RemoveWall(p.x, p.y, Bottom);
      }
      ghost var g1 := grid;
      assert g1 == DoorRowStep(g0, rows, cols, p);
      if p.y == 0 {
        RemoveWall(p.x, p.y, Left);
      } else if p.y == cols - 1 {
        RemoveWall(p.x, p.y, Right);
      }
      assert grid == DoorColStep(g1, rows, cols, p);
      DoorSteps(g0, rows, cols, p);
    }

    /** generateMazeWithDFS, with `roll(k)` standing for the k-th draw of
        `dist(rng)` (taken modulo 4, the range of `dist`). Every cell is
        marked exactly once; every cell ends reachable from the entrance
        through open walls; exactly rows*cols - 1 inner walls are opened
        (each clears two of the 4*rows*cols flags), so the open walls form a
        spanning tree; the outer boundary stays closed; only the entrance
        and exit are retyped. */
    method GenerateMazeWithDFS(roll: nat -> nat) returns (ghost carves: nat)
      requires Valid() && rows > 0 && cols > 0
      modifies this
      ensures Valid() && entrance == old(entrance) && exit == old(exit)
      ensures carves == rows * cols - 1
      ensures SpanningCarve(grid, rows, cols, entrance)
      ensures forall q :: InBounds(rows, cols, q) ==>
        At(grid, rows, cols, q).kind == (if q == exit then Exit else if q == entrance then Entrance else PathCell)
    {
      var visited, stack;
      ghost var marked;
      visited, stack, marked, carves := StartCarve();
      var draws: nat := 0;
      while stack != []
        invariant Valid() && entrance == old(entrance) && exit == old(exit)
        invariant AllPathTyped(grid, rows, cols)
        invariant MarksMatch(visited, rows, cols, marked)
        invariant CarveState(grid, rows, cols, entrance, marked, stack, carves)
        decreases |AllCells(rows, cols) - marked|, |stack|
      {
        visited, stack, draws, marked, carves := CarveStep(visited, stack, roll, draws, marked, carves);
      }
      CarveDone(grid, rows, cols, entrance, marked, carves);
      MarkDoors();
    }

    /** The set-up of generateMazeWithDFS (maze.cpp:185-199): every cell
        walled and unvisited, then the entrance marked visited and pushed. */
    method StartCarve() returns (visited: seq<seq<bool>>, stack: seq<Point>, ghost marked: set<Point>, ghost carves: nat)
      requires Valid() && rows > 0 && cols > 0
      modifies this
      ensures Valid() && entrance == old(entrance) && exit == old(exit)
      ensures AllPathTyped(grid, rows, cols) && MarksMatch(visited, rows, cols, marked)
      ensures CarveState(grid, rows, cols, entrance, marked, stack, carves)
    {
      ResetCells();
      visited := seq(rows, _ => seq(cols, _ => false));
      stack := [];
      carves := 0;
      marked := {};
      var current := entrance;
      visited := visited[current.x := visited[current.x][current.y := true]];
      marked := marked + {current};
      stack := stack + [current];
      CarveInit(grid, rows, cols, entrance);
    }

    /** One round of generateMazeWithDFS's loop (maze.cpp:202-231): look at
        the stack top; if it has unvisited neighbours, carve through to the
        one the draw picks, mark it and push it; otherwise pop. Either a new
        cell is marked or, with the marks unchanged, the stack shrinks. */
    method CarveStep(visited: seq<seq<bool>>, stack: seq<Point>, roll: nat -> nat, draws: nat,
                     ghost marked: set<Point>, ghost carves: nat)
      returns (visited': seq<seq<bool>>, stack': seq<Point>, draws': nat, ghost marked': set<Point>, ghost carves': nat)
      requires Valid() && stack != []
      requires AllPathTyped(grid, rows, cols) && MarksMatch(visited, rows, cols, marked)
      requires CarveState(grid, rows, cols, entrance, marked, stack, carves)
      modifies this
      ensures Valid() && entrance == old(entrance) && exit == old(exit)
      ensures AllPathTyped(grid, rows, cols) && MarksMatch(visited', rows, cols, marked')
      ensures CarveState(grid, rows, cols, entrance, marked', stack', carves')
      ensures |AllCells(rows, cols) - marked'| < |AllCells(rows, cols) - marked|
        || (marked' == marked && |stack'| < |stack|)
    {
      var current := stack[|stack| - 1];
      var unvisited := UnvisitedNeighbours(visited, current);
      draws' := draws;
      if unvisited != [] {
        var randIndex := (roll(draws') % 4) % |unvisited|;
        draws' := draws' + 1;
        var next := unvisited[randIndex];
        FreshViaMembers(visited, rows, cols, current, Directions, next);
        NeighbourOffset(rows, cols, current, next);
        ghost var g := grid;
        CarvePush(g, rows, cols, entrance, marked, stack, carves, next);
        TypesAfterWithWall(g, rows, cols, current, StepDirection(current, next), false);
        MarksAfterMark(visited, rows, cols, marked, next);
        assert IsValidPosition(current.x, current.y);
        RemoveWallBetween(current, next);
        visited' := visited[next.x := visited[next.x][next.y := true]];
        marked' := marked + {next};
        stack' := stack + [next];
        carves' := carves + 1;
      } else {
        forall q | q in AllNeighbours(rows, cols, current) ensures q in marked {
          FreshViaMembers(visited, rows, cols, current, Directions, q);
          NeighbourOffset(rows, cols, current, q);
        }
        CarvePop(grid, rows, cols, entrance, marked, stack, carves);
        visited', marked', carves' := visited, marked, carves;
        stack' := stack[..|stack| - 1];
      }
    }

    /** The candidate list of one carve step (maze.cpp:205-216): the
        unvisited on-grid neighbours of `current` in TOP, RIGHT, BOTTOM, LEFT
        order. */
    method UnvisitedNeighbours(visited: seq<seq<bool>>, current: Point) returns (unvisited: seq<Point>)
      requires Shaped(visited, rows, cols)
      ensures unvisited == FreshVia(visited, rows, cols, current, Directions)
    {
      unvisited := [];
      for k := 0 to 4
        invariant unvisited == FreshVia(visited, rows, cols, current, Directions[..k])
      {
        var neighbour := AdjacentCell(current, Directions[k]);
        if IsValidPosition(neighbour.x, neighbour.y) && !visited[neighbour.x][neighbour.y] {
          unvisited := unvisited + [neighbour];
        }
        assert Directions[..k + 1][..k] == Directions[..k];
      }
      assert Directions[..4] == Directions;
    }

    /** The closing retyping of generateMazeWithDFS (maze.cpp:235-236): the
        entrance and exit get their types; walls, and so reachability and
        the wall count, stay. */
    method MarkDoors()
      requires Valid() && rows > 0 && cols > 0
      modifies this
      ensures Valid() && entrance == old(entrance) && exit == old(exit)
      ensures SameWalls(old(grid), grid, rows, cols)
      ensures SpanningCarve(old(grid), rows, cols, entrance) ==> SpanningCarve(grid, rows, cols, entrance)
      ensures forall q :: InBounds(rows, cols, q) ==>
        At(grid, rows, cols, q).kind ==
          (if q == exit then Exit else if q == entrance then Entrance else At(old(grid), rows, cols, q).kind)
    {
      ghost var g0 := grid;
      SetCellType(entrance.x, entrance.y, Entrance);
      RetypeKeepsTotal(g0, rows, cols, entrance, Entrance);
      ghost var g1 := grid;
      SetCellType(exit.x, exit.y, Exit);
      RetypeKeepsTotal(g1, rows, cols, exit, Exit);
      SameWallsTrans(g0, g1, grid, rows, cols);
      SameWallsSpanning(g0, grid, rows, cols, entrance);
    }

    /** resetVisited: VISITED cells become PATH, the entrance and exit get
        their types back, walls stay. */
    method ResetVisited()
      requires Valid()
      modifies this
      ensures Valid() && entrance == old(entrance) && exit == old(exit)
      ensures SameWalls(old(grid), grid, rows, cols)
      ensures forall q :: InBounds(rows, cols, q) ==>
        At(grid, rows, cols, q).kind ==
          if q == exit then Exit
          else if q == entrance then Entrance
          else if At(old(grid), rows, cols, q).kind == Visited then PathCell
          else At(old(grid), rows, cols, q).kind
    {
      for i := 0 to rows
        invariant Valid() && entrance == old(entrance) && exit == old(exit)
        invariant SameWalls(old(grid), grid, rows, cols)
        invariant ResetBefore(old(grid), grid, rows, cols, i, 0)
      {
        for j := 0 to cols
          invariant Valid() && entrance == old(entrance) && exit == old(exit)
          invariant SameWalls(old(grid), grid, rows, cols)
          invariant ResetBefore(old(grid), grid, rows, cols, i, j)
        {
          ghost var g := grid;
          if grid[i][j].kind == Visited {
            SetCellType(i, j, PathCell);
          }
          ResetCell(old(grid), g, rows, cols, i, j, grid);
        }
        ResetRow(old(grid), grid, rows, cols, i);
      }
      SetCellType(entrance.x, entrance.y, Entrance);
      SetCellType(exit.x, exit.y, Exit);
    }

    /** clone: a fresh maze holding the same grid, entrance and exit. */
    method Clone() returns (copy: Maze)
      requires Valid()
      ensures fresh(copy) && copy.Valid()
      ensures copy.rows == rows && copy.cols == cols
      ensures copy.grid == grid && copy.entrance == entrance && copy.exit == exit
    {
      copy := new Maze(rows, cols);
      copy.grid := grid;
      copy.entrance := entrance;
      copy.exit := exit;
    }

    /** countWalls: the standing wall flags of all cells, halved. */
    method CountWalls() returns (count: int)
      requires Valid()
      ensures count == TotalWalls(grid) / 2
    {
      var total := 0;
      for i := 0 to rows
        invariant total == TotalWalls(grid[..i])
      {
        for j := 0 to cols
          invariant total == TotalWalls(grid[..i]) + RowWalls(grid[i][..j])
        {
          var w := grid[i][j].walls;
          for d := 0 to 4
            invariant total == TotalWalls(grid[..i]) + RowWalls(grid[i][..j]) + CountTrue(w[..d])
          {
            CountTrueSnoc(w, d);
            if grid[i][j].HasWall(Directions[d]) {
              total := total + 1;
            }
          }
          CountTrueWhole(grid[i][j]);
          RowWallsSnoc(grid[i], j);
        }
        TotalWallsSnoc(grid, i);
      }
      assert grid[..rows] == grid;
      count := total / 2;
    }
}
}
