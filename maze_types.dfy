/** Value types shared by the rectangular maze and its searches: coordinates,
    wall directions, cell types and the four-walled cell record. */
module MazeTypes {

  /** The four sides of a cell; `DirIndex` is the `static_cast<int>` used to
      index a cell's wall array. */
  datatype WallDirection = Top | Right | Bottom | Left

  function DirIndex(d: WallDirection): (k: nat)
    ensures k < 4
    ensures d == Top <==> k == 0
    ensures d == Right <==> k == 1
    ensures d == Bottom <==> k == 2
    ensures d == Left <==> k == 3
  {
    match d
    case Top => 0
    case Right => 1
    case Bottom => 2
    case Left => 3
  }

  /** The directions in the order every neighbour loop visits them. */
  const Directions: seq<WallDirection> := [Top, Right, Bottom, Left]

  datatype CellType = PathCell | Entrance | Exit | Visited

  /** A coordinate: `x` is the row, `y` the column. */
  datatype Point = Point(x: int, y: int)

  predicate Equals(a: Point, b: Point) {
    a.x == b.x && a.y == b.y
  }

  predicate NotEquals(a: Point, b: Point) {
    !Equals(a, b)
  }

  /** Lexicographic order on (x, y). */
  predicate Less(a: Point, b: Point) {
    if a.x != b.x then a.x < b.x else a.y < b.y
  }

  lemma EqualsIsIdentity(a: Point, b: Point)
    ensures Equals(a, b) <==> a == b
    ensures NotEquals(a, b) <==> a != b
  {
  }

  /** `Less` is a strict total order. */
  lemma LessIsStrictTotalOrder(a: Point, b: Point, c: Point)
    ensures !Less(a, a)
    ensures Less(a, b) && Less(b, c) ==> Less(a, c)
    ensures a != b ==> (Less(a, b) <==> !Less(b, a))
    ensures a == b ==> !Less(a, b) && !Less(b, a)
  {
  }

  /** The wall array of a cell: exactly four flags, indexed by `DirIndex`. */
  type FourWalls = s: seq<bool> | |s| == 4 witness [true, true, true, true]

  datatype MazeCell = MazeCell(walls: FourWalls, kind: CellType) {

    predicate HasWall(d: WallDirection) {
      walls[DirIndex(d)]
    }

    /** The cell with the wall on side `d` set to `present`. */
    function SetWall(d: WallDirection, present: bool): (c: MazeCell)
      ensures c.HasWall(d) == present
      ensures forall e :: e != d ==> c.HasWall(e) == HasWall(e)
      ensures c.kind == kind
    {
      MazeCell(walls[DirIndex(d) := present], kind)
    }

    function RemoveWall(d: WallDirection): (c: MazeCell)
      ensures !c.HasWall(d)
      ensures forall e :: e != d ==> c.HasWall(e) == HasWall(e)
      ensures c.kind == kind
    {
      SetWall(d, false)
    }

    /** The number of walls still standing around this cell. */
    function WallCount(): (n: nat)
      ensures n <= 4
      ensures n == 4 <==> forall d :: HasWall(d)
    {
      assert HasWall(Top) == walls[0] && HasWall(Right) == walls[1];
      assert HasWall(Bottom) == walls[2] && HasWall(Left) == walls[3];
      (if walls[0] then 1 else 0) + (if walls[1] then 1 else 0)
      + (if walls[2] then 1 else 0) + (if walls[3] then 1 else 0)
    }
  }

  /** The number of set flags. */
  function CountTrue(s: seq<bool>): nat {
    if s == [] then 0 else CountTrue(s[..|s| - 1]) + (if s[|s| - 1] then 1 else 0)
  }

  lemma WallCountIsCountTrue(c: MazeCell)
    ensures c.WallCount() == CountTrue(c.walls)
  {
    var w := c.walls;
    assert w[..3][..2][..1][..0] == [];
    assert w[..3][..2][..1] == [w[0]] && w[..3][..2] == [w[0], w[1]] && w[..3] == [w[0], w[1], w[2]];
    assert CountTrue([w[0]]) == (if w[0] then 1 else 0);
    assert CountTrue([w[0], w[1]]) == CountTrue([w[0]]) + (if w[1] then 1 else 0);
    assert CountTrue([w[0], w[1], w[2]]) == CountTrue([w[0], w[1]]) + (if w[2] then 1 else 0);
    assert CountTrue(w) == CountTrue([w[0], w[1], w[2]]) + (if w[3] then 1 else 0);
  }

  /** `MazeCell()`: all four walls present, type PATH. */
  function DefaultCell(): (c: MazeCell)
    ensures forall d :: c.HasWall(d)
    ensures c.kind == PathCell
  {
    MazeCell([true, true, true, true], PathCell)
  }

  /** Removing a wall clears exactly one standing wall, or none if it was
      already open. */
  lemma RemoveWallCount(c: MazeCell, d: WallDirection)
    ensures c.RemoveWall(d).WallCount() == if c.HasWall(d) then c.WallCount() - 1 else c.WallCount()
  {
    var r := c.RemoveWall(d);
    assert r.walls == c.walls[DirIndex(d) := false];
  }

  /** Setting a wall and reading it back. */
  lemma SetThenHas(c: MazeCell, d: WallDirection, e: WallDirection, present: bool)
    ensures c.SetWall(d, present).HasWall(e) == if e == d then present else c.HasWall(e)
  {
  }
}
