/** The randomly generated Mondrian layout: an 800 by 800 canvas is cut into
    rectangles, largest first; each rectangle becomes a room, rooms whose
    edges touch become neighbours, the two rooms whose centres lie farthest
    apart become the entrance and the exit, and a layout is kept when the
    breadth-first route between them passes through at least three rooms. */
module Mondrian {
  import opened Walks
  import opened Rooms

  /** The colour pool, white left out. */
  const MondrianColors: seq<string> :=
    ["#e63946", "#f4d35e", "#1d3557", "#000000", "#43aa8b", "#f3722c", "#9d4edd", "#f8961e", "#577590", "#f94144"]

  /** A finished rectangle and the index of its colour in the pool. */
  datatype Block = Block(x: int, y: int, w: int, h: int, colorIdx: int)

  /** A rectangle still waiting to be cut, with the number of cuts that
      produced it. */
  datatype QBlock = QBlock(x: int, y: int, w: int, h: int, depth: nat)

  function Min(a: int, b: int): int {
    if a < b then a else b
  }

  function Max(a: int, b: int): int {
    if a < b then b else a
  }

  // ---------------------------------------------------------------------
  // Cutting the canvas

  /** The direction of the next cut: across the longer side, and for a
      square by the parity of the depth. */
  predicate CutsVertically(b: QBlock) {
    if b.w > b.h then true else if b.h > b.w then false else b.depth % 2 == 0
  }

  /** `a` and `c` are the two pieces of `b`, one level deeper, cut at a
      vertical line when `CutsVertically(b)` and at a horizontal one
      otherwise: `a` keeps the corner, is at least 60 across the cut, and
      `c` takes the rest, at least 1 across. */
  ghost predicate Halves(b: QBlock, a: QBlock, c: QBlock) {
    && a.depth == b.depth + 1 && c.depth == b.depth + 1
    && a.x == b.x && a.y == b.y
    && if CutsVertically(b) then
         && a.h == b.h && c.h == b.h && c.y == b.y
         && c.x == b.x + a.w && a.w + c.w == b.w && a.w >= 60 && c.w >= 1
       else
         && a.w == b.w && c.w == b.w && c.x == b.x
         && c.y == b.y + a.h && a.h + c.h == b.h && a.h >= 60 && c.h >= 1
  }

  /** The cut of one rectangle, `r` being the value rand() returns: a cut
      happens exactly when the side being cut is at least 120 long, and
      then yields two halves. */
  function Split(b: QBlock, r: nat): (halves: Option<(QBlock, QBlock)>)
    ensures halves.Some? <==> if CutsVertically(b) then b.w >= 120 else b.h >= 120
    ensures halves.Some? ==> Halves(b, halves.value.0, halves.value.1)
  {
    if CutsVertically(b) && b.w >= 120 then
      var sw := 60 + r % (b.w - 60);
      Some((QBlock(b.x, b.y, sw, b.h, b.depth + 1), QBlock(b.x + sw, b.y, b.w - sw, b.h, b.depth + 1)))
    else if !CutsVertically(b) && b.h >= 120 then
      var sh := 60 + r % (b.h - 60);
      Some((QBlock(b.x, b.y, b.w, sh, b.depth + 1), QBlock(b.x, b.y + sh, b.w, b.h - sh, b.depth + 1)))
    else
      None
  }

  function QArea(b: QBlock): int {
    b.w * b.h
  }

  function BArea(b: Block): int {
    b.w * b.h
  }

  /** The two halves cover the area of the whole. */
  lemma HalvesArea(b: QBlock, a: QBlock, c: QBlock)
    requires Halves(b, a, c)
    ensures QArea(a) + QArea(c) == QArea(b)
  {
    if CutsVertically(b) {
      assert QArea(b) == (a.w + c.w) * b.h;
    } else {
      assert QArea(b) == b.w * (a.h + c.h);
    }
  }

  function QueueArea(q: seq<QBlock>): int {
    if q == [] then 0 else QArea(q[0]) + QueueArea(q[1..])
  }

  function BlocksArea(bs: seq<Block>): int {
    if bs == [] then 0 else BlocksArea(bs[..|bs| - 1]) + BArea(bs[|bs| - 1])
  }

  lemma {:induction false} QueueAreaAppend(s: seq<QBlock>, t: seq<QBlock>)
    ensures QueueArea(s + t) == QueueArea(s) + QueueArea(t)
  {
    if s != [] {
      assert (s + t)[1..] == s[1..] + t;
      QueueAreaAppend(s[1..], t);
    } else {
      assert s + t == t;
    }
  }

  /** A rectangle at (px, py), `pw` by `ph`, inside the canvas (x, y, w, h)
      and at least one unit (or, for a degenerate canvas, the canvas's
      width or height) across. */
  ghost predicate Inside(x: int, y: int, w: int, h: int, px: int, py: int, pw: int, ph: int) {
    && x <= px && px + pw <= x + w && pw >= Min(1, w)
    && y <= py && py + ph <= y + h && ph >= Min(1, h)
  }

  /** Cutting keeps both halves inside the canvas. */
  lemma HalvesInside(x: int, y: int, w: int, h: int, b: QBlock, a: QBlock, c: QBlock)
    requires Inside(x, y, w, h, b.x, b.y, b.w, b.h) && Halves(b, a, c)
    ensures Inside(x, y, w, h, a.x, a.y, a.w, a.h) && Inside(x, y, w, h, c.x, c.y, c.w, c.h)
  {
  }

  /** The block a queued rectangle becomes when it is put down as the
      `n`-th block: its colour cycles through the pool. */
  function Settle(b: QBlock, n: nat): Block {
    Block(b.x, b.y, b.w, b.h, n % |MondrianColors|)
  }

  /** std::max_element under the area order: the first queued rectangle of
      largest area, or the end position for an empty queue. */
  method Largest(q: seq<QBlock>) returns (i: int)
    ensures q == [] ==> i == |q|
    ensures q != [] ==> 0 <= i < |q|
    ensures q != [] ==> forall k :: 0 <= k < |q| ==> QArea(q[k]) <= QArea(q[i])
    ensures q != [] ==> forall k :: 0 <= k < i ==> QArea(q[k]) < QArea(q[i])
  {
    if q == [] {
      return |q|;
    }
    i := 0;
    for j := 1 to |q|
      invariant 0 <= i < j
      invariant forall k :: 0 <= k < j ==> QArea(q[k]) <= QArea(q[i])
      invariant forall k :: 0 <= k < i ==> QArea(q[k]) < QArea(q[i])
    {
      if QArea(q[i]) < QArea(q[j]) {
        i := j;
      }
    }
  }

  /** What splitBlocksMondrian keeps while it cuts: the blocks it started
      with are untouched, there is at least one rectangle more and at most
      as many as the target (or the start), blocks and queue together cover
      the canvas's area, each new block has the colour of its position and
      lies inside the canvas, and so does every queued rectangle. */
  ghost predicate Cutting(blocks0: seq<Block>, x: int, y: int, w: int, h: int, target: int,
                          blocks: seq<Block>, q: seq<QBlock>) {
    && |blocks0| <= |blocks| && blocks[..|blocks0|] == blocks0
    && |blocks0| + 1 <= |blocks| + |q| <= Max(target, |blocks0| + 1)
    && BlocksArea(blocks) + QueueArea(q) == BlocksArea(blocks0) + w * h
    && (forall i :: |blocks0| <= i < |blocks| ==> NewBlock(x, y, w, h, blocks, i))
    && (forall i :: 0 <= i < |q| ==> Inside(x, y, w, h, q[i].x, q[i].y, q[i].w, q[i].h))
  }

  ghost predicate NewBlock(x: int, y: int, w: int, h: int, blocks: seq<Block>, i: int)
    requires 0 <= i < |blocks|
  {
    blocks[i].colorIdx == i % |MondrianColors|
    && Inside(x, y, w, h, blocks[i].x, blocks[i].y, blocks[i].w, blocks[i].h)
  }

  /** splitBlocksMondrian: cut the canvas (x, y, w, h), always the largest
      queued rectangle first, until blocks and queue together reach
      `targetBlocks` or nothing is left to cut, then put down what is still
      queued. `rand(k)` is the k-th value rand() returns; `k` counts the
      values used. The blocks passed in stay first; at least one block is
      added and, past those, no more than `targetBlocks` in all; the new
      blocks cover the canvas's area, lie inside it, and take their
      colours by position. */
  method SplitBlocks(blocks0: seq<Block>, x: int, y: int, w: int, h: int, targetBlocks: int,
                     rand: nat -> nat, k0: nat)
    returns (blocks: seq<Block>, k: nat)
    ensures |blocks0| < |blocks| <= Max(targetBlocks, |blocks0| + 1)
    ensures blocks[..|blocks0|] == blocks0
    ensures BlocksArea(blocks) == BlocksArea(blocks0) + w * h
    ensures forall i :: |blocks0| <= i < |blocks| ==> NewBlock(x, y, w, h, blocks, i)
    ensures k0 <= k
  {
    var q := [QBlock(x, y, w, h, 0)];
    blocks, k := blocks0, k0;
    CutStart(blocks0, x, y, w, h, targetBlocks);
    while |blocks| + |q| < targetBlocks
      invariant Cutting(blocks0, x, y, w, h, targetBlocks, blocks, q) && k0 <= k
      decreases targetBlocks - |blocks| - |q|, |q|
    {
      var i := Largest(q);
      if i == |q| {
        break;
      }
      var blk := q[i];
      var halves := Split(blk, rand(k));
      if halves.Some? {
        CutStep(blocks0, x, y, w, h, targetBlocks, blocks, q, i, halves.value.0, halves.value.1);
        k := k + 1;
        q := q[..i] + q[i + 1..] + [halves.value.0, halves.value.1];
      } else {
        SettleStep(blocks0, x, y, w, h, targetBlocks, blocks, q, i);
        blocks := blocks + [Settle(blk, |blocks|)];
        q := q[..i] + q[i + 1..];
      }
    }
    for j := 0 to |q|
      invariant Cutting(blocks0, x, y, w, h, targetBlocks, blocks, q[j..])
    {
      SettleStep(blocks0, x, y, w, h, targetBlocks, blocks, q[j..], 0);
      assert q[j..][..0] + q[j..][1..] == q[j + 1..];
      blocks := blocks + [Settle(q[j], |blocks|)];
    }
    CutEnd(blocks0, x, y, w, h, targetBlocks, blocks, q[|q|..]);
  }

  lemma CutStart(blocks0: seq<Block>, x: int, y: int, w: int, h: int, target: int)
    ensures Cutting(blocks0, x, y, w, h, target, blocks0, [QBlock(x, y, w, h, 0)])
  {
    assert QueueArea([QBlock(x, y, w, h, 0)]) == w * h;
  }

  lemma CutEnd(blocks0: seq<Block>, x: int, y: int, w: int, h: int, target: int, blocks: seq<Block>, q: seq<QBlock>)
    requires Cutting(blocks0, x, y, w, h, target, blocks, q) && q == []
    ensures |blocks0| < |blocks| <= Max(target, |blocks0| + 1)
    ensures blocks[..|blocks0|] == blocks0
    ensures BlocksArea(blocks) == BlocksArea(blocks0) + w * h
    ensures forall i :: |blocks0| <= i < |blocks| ==> NewBlock(x, y, w, h, blocks, i)
  {
  }

  /** Taking the `i`-th queued rectangle out of the queue. */
  lemma QueueRemove(q: seq<QBlock>, i: nat)
    requires i < |q|
    ensures QueueArea(q) == QueueArea(q[..i] + q[i + 1..]) + QArea(q[i])
  {
    var pre, post := q[..i], q[i + 1..];
    assert q == pre + ([q[i]] + post);
    assert ([q[i]] + post)[1..] == post;
    calc {
      QueueArea(q);
    == { QueueAreaAppend(pre, [q[i]] + post); }
      QueueArea(pre) + QueueArea([q[i]] + post);
    ==
      QueueArea(pre) + QueueArea(post) + QArea(q[i]);
    == { QueueAreaAppend(pre, post); }
      QueueArea(pre + post) + QArea(q[i]);
    }
  }

  /** Cutting the `i`-th queued rectangle into two halves. */
  lemma CutStep(blocks0: seq<Block>, x: int, y: int, w: int, h: int, target: int,
                blocks: seq<Block>, q: seq<QBlock>, i: nat, a: QBlock, c: QBlock)
    requires Cutting(blocks0, x, y, w, h, target, blocks, q) && |blocks| + |q| < target
    requires i < |q| && Halves(q[i], a, c)
    ensures Cutting(blocks0, x, y, w, h, target, blocks, q[..i] + q[i + 1..] + [a, c])
  {
    CutArea(q, i, a, c);
    CutInside(x, y, w, h, q, i, a, c, q[..i] + q[i + 1..] + [a, c]);
  }

  lemma CutArea(q: seq<QBlock>, i: nat, a: QBlock, c: QBlock)
    requires i < |q| && Halves(q[i], a, c)
    ensures QueueArea(q[..i] + q[i + 1..] + [a, c]) == QueueArea(q)
  {
    var rest := q[..i] + q[i + 1..];
    QueueRemove(q, i);
    QueueAreaAppend(rest, [a, c]);
    PairArea(a, c);
    HalvesArea(q[i], a, c);
  }

  lemma PairArea(a: QBlock, c: QBlock)
    ensures QueueArea([a, c]) == QArea(a) + QArea(c)
  {
    assert [a, c][1..] == [c];
    assert QueueArea([a, c]) == QArea(a) + QueueArea([c]);
    assert [c][1..] == [];
    assert QueueArea([c]) == QArea(c) + QueueArea([]);
  }

  lemma CutInside(x: int, y: int, w: int, h: int, q: seq<QBlock>, i: nat, a: QBlock, c: QBlock, q': seq<QBlock>)
    requires i < |q| && Halves(q[i], a, c) && q' == q[..i] + q[i + 1..] + [a, c]
    requires forall k :: 0 <= k < |q| ==> Inside(x, y, w, h, q[k].x, q[k].y, q[k].w, q[k].h)
    ensures forall k :: 0 <= k < |q'| ==> Inside(x, y, w, h, q'[k].x, q'[k].y, q'[k].w, q'[k].h)
  {
    var rest := q[..i] + q[i + 1..];
    HalvesInside(x, y, w, h, q[i], a, c);
    forall k | 0 <= k < |q'| ensures Inside(x, y, w, h, q'[k].x, q'[k].y, q'[k].w, q'[k].h) {
      if k < i {
        assert q'[k] == q[k];
      } else if k < |rest| {
        assert q'[k] == q[k + 1];
      }
    }
  }

  /** Putting the `i`-th queued rectangle down as the next block. */
  lemma SettleStep(blocks0: seq<Block>, x: int, y: int, w: int, h: int, target: int,
                   blocks: seq<Block>, q: seq<QBlock>, i: nat)
    requires Cutting(blocks0, x, y, w, h, target, blocks, q) && i < |q|
    ensures Cutting(blocks0, x, y, w, h, target, blocks + [Settle(q[i], |blocks|)], q[..i] + q[i + 1..])
  {
    var b := Settle(q[i], |blocks|);
    var blocks' := blocks + [b];
    var rest := q[..i] + q[i + 1..];
    QueueRemove(q, i);
    forall k | 0 <= k < |rest| ensures Inside(x, y, w, h, rest[k].x, rest[k].y, rest[k].w, rest[k].h) {
      if k < i {
        assert rest[k] == q[k];
      } else {
        assert rest[k] == q[k + 1];
      }
    }
    assert blocks'[..|blocks|] == blocks;
    assert blocks'[..|blocks0|] == blocks0;
    forall j | |blocks0| <= j < |blocks'| ensures NewBlock(x, y, w, h, blocks', j) {
      if j < |blocks| {
        assert NewBlock(x, y, w, h, blocks, j);
      }
    }
  }

  // ---------------------------------------------------------------------
  // Rooms and their neighbours

  /** The room block `i` becomes: id `i`, the block's rectangle and colour,
      no neighbours yet. */
  function RoomOf(b: Block, i: int): Room
    requires 0 <= b.colorIdx < |MondrianColors|
  {
    Room(i, b.x, b.y, b.w, b.h, MondrianColors[b.colorIdx], [])
  }

  /** Step 2 of an attempt: one room per block, in block order. */
  method RoomsOf(blocks: seq<Block>) returns (rooms: seq<Room>)
    requires forall i :: 0 <= i < |blocks| ==> 0 <= blocks[i].colorIdx < |MondrianColors|
    ensures |rooms| == |blocks|
    ensures forall i :: 0 <= i < |rooms| ==> rooms[i] == RoomOf(blocks[i], i)
  {
    rooms := [];
    for i := 0 to |blocks|
      invariant |rooms| == i
      invariant forall j :: 0 <= j < i ==> rooms[j] == RoomOf(blocks[j], j)
    {
      rooms := rooms + [RoomOf(blocks[i], i)];
    }
  }

  /** One room's right edge is the other's left edge, and their vertical
      extents overlap by a positive length. */
  predicate SideBySide(a: Room, b: Room) {
    (a.x + a.width == b.x || b.x + b.width == a.x)
    && Max(a.y, b.y) < Min(a.y + a.height, b.y + b.height)
  }

  /** One room's bottom edge is the other's top edge, and their horizontal
      extents overlap by a positive length. */
  predicate OneAbove(a: Room, b: Room) {
    (a.y + a.height == b.y || b.y + b.height == a.y)
    && Max(a.x, b.x) < Min(a.x + a.width, b.x + b.width)
  }

  /** The two rooms share a stretch of edge of positive length. */
  predicate Touching(a: Room, b: Room) {
    SideBySide(a, b) || OneAbove(a, b)
  }

  /** What meeting `b` adds to `a`'s list: `b`'s id once for each of the
      two tests, side by side and one above the other, that the pair
      passes. */
  function Pushes(a: Room, b: Room, side: (Room, Room) -> bool, above: (Room, Room) -> bool): seq<int> {
    (if side(a, b) then [b.id] else []) + (if above(a, b) then [b.id] else [])
  }

  /** The ids room `m` has collected from the rooms `0 .. k - 1` other than
      itself, in that order. */
  function Gathered(R: seq<Room>, m: nat, k: nat, side: (Room, Room) -> bool, above: (Room, Room) -> bool): seq<int>
    requires m < |R| && k <= |R|
  {
    if k == 0 then []
    else Gathered(R, m, k - 1, side, above) + (if k - 1 == m then [] else Pushes(R[m], R[k - 1], side, above))
  }

  /** Room `m` with the ids it has collected from the rooms before `k`
      appended to its list. */
  function WithGathered(R: seq<Room>, m: nat, k: nat, side: (Room, Room) -> bool, above: (Room, Room) -> bool): Room
    requires m < |R| && k <= |R|
  {
    R[m].(neighbors := R[m].neighbors + Gathered(R, m, k, side, above))
  }

  /** How far room `m` has got while the pair loop stands at `(i, j)`:
      every partner for a room before `i`, the partners before `j` for
      room `i`, and for a later room the partners up to `i`, plus `i`
      itself once the inner loop has passed it. */
  function Reach(m: nat, i: nat, j: nat, n: nat): nat {
    if m < i then n else if m == i then j else if m < j then i + 1 else i
  }

  /** The pair loop standing at `(i, j)`: every room is as far as Reach
      says. */
  ghost predicate LinkState(R: seq<Room>, rooms: seq<Room>, i: nat, j: nat, side: (Room, Room) -> bool, above: (Room, Room) -> bool) {
    i <= |R| && j <= |R| && |rooms| == |R| && forall m :: 0 <= m < |R| ==> rooms[m] == WithGathered(R, m, Reach(m, i, j, |R|), side, above)
  }

  /** Step 3 of an attempt: every pair `i < j` is tested once, side by side
      and then one above the other, and each test that passes appends each
      room's id to the other's list. Room `m` ends up with the ids of all
      the rooms it meets, in index order. */
  method LinkRooms(R: seq<Room>) returns (rooms: seq<Room>)
    ensures |rooms| == |R|
    ensures forall m :: 0 <= m < |R| ==> rooms[m] == WithGathered(R, m, |R|, SideBySide, OneAbove)
  {
    rooms := R;
    var n := |R|;
    for i := 0 to n
      invariant LinkState(R, rooms, i, i, SideBySide, OneAbove)
    {
      LinkRowStart(R, rooms, i, SideBySide, OneAbove);
      for j := i + 1 to n
        invariant LinkState(R, rooms, i, j, SideBySide, OneAbove)
      {
        rooms := LinkOne(R, rooms, i, j);
      }
    }
    LinkDone(R, rooms, SideBySide, OneAbove);
  }

  /** The body of the pair loop: test rooms `i` and `j` side by side,
      then one above the other, and on each success append each room's id
      to the other's list. */
  method LinkOne(R: seq<Room>, rooms: seq<Room>, i: nat, j: nat) returns (rooms': seq<Room>)
    requires i < j < |R| && LinkState(R, rooms, i, j, SideBySide, OneAbove)
    ensures LinkState(R, rooms', i, j + 1, SideBySide, OneAbove)
  {
    var r1, r2 := rooms[i], rooms[j];
    assert r1 == WithGathered(R, i, j, SideBySide, OneAbove);
    assert r2 == WithGathered(R, j, i, SideBySide, OneAbove);
    if SideBySide(r1, r2) {
      r1 := r1.(neighbors := r1.neighbors + [r2.id]);
      r2 := r2.(neighbors := r2.neighbors + [r1.id]);
    }
    if OneAbove(r1, r2) {
      r1 := r1.(neighbors := r1.neighbors + [r2.id]);
      r2 := r2.(neighbors := r2.neighbors + [r1.id]);
    }
    LinkPair(R, rooms, i, j, r1, r2, rooms[i := r1][j := r2], SideBySide, OneAbove);
    rooms' := rooms[i := r1][j := r2];
  }

  /** Entering row `i`: room `i` has gathered nothing from itself. */
  lemma LinkRowStart(R: seq<Room>, rooms: seq<Room>, i: nat, side: (Room, Room) -> bool, above: (Room, Room) -> bool)
    requires i < |R| && LinkState(R, rooms, i, i, side, above)
    ensures LinkState(R, rooms, i, i + 1, side, above)
  {
    assert Gathered(R, i, i + 1, side, above) == Gathered(R, i, i, side, above);
  }

  /** Leaving the last row: every room has gathered from every room. */
  lemma LinkDone(R: seq<Room>, rooms: seq<Room>, side: (Room, Room) -> bool, above: (Room, Room) -> bool)
    requires LinkState(R, rooms, |R|, |R|, side, above)
    ensures |rooms| == |R|
    ensures forall m :: 0 <= m < |R| ==> rooms[m] == WithGathered(R, m, |R|, side, above)
  {
  }

  /** One pair of the loop: both rooms gain what meeting the other adds. */
  lemma LinkPair(R: seq<Room>, rooms: seq<Room>, i: nat, j: nat, r1: Room, r2: Room, rooms': seq<Room>,
                 side: (Room, Room) -> bool, above: (Room, Room) -> bool)
    requires i < j < |R| && LinkState(R, rooms, i, j, side, above)
    requires r1 == rooms[i].(neighbors := rooms[i].neighbors + Pushes(R[i], R[j], side, above))
    requires r2 == rooms[j].(neighbors := rooms[j].neighbors + Pushes(R[j], R[i], side, above))
    requires rooms' == rooms[i := r1][j := r2]
    ensures LinkState(R, rooms', i, j + 1, side, above)
  {
    forall m | 0 <= m < |R|
      ensures rooms'[m] == WithGathered(R, m, Reach(m, i, j + 1, |R|), side, above)
    {
      LinkPairAt(R, rooms, i, j, r1, r2, rooms', side, above, m);
    }
  }

  /** LinkPair for room `m`. */
  lemma LinkPairAt(R: seq<Room>, rooms: seq<Room>, i: nat, j: nat, r1: Room, r2: Room, rooms': seq<Room>,
                   side: (Room, Room) -> bool, above: (Room, Room) -> bool, m: nat)
    requires i < j < |R| && m < |R| && |rooms| == |R|
    requires rooms[m] == WithGathered(R, m, Reach(m, i, j, |R|), side, above)
    requires r1 == rooms[i].(neighbors := rooms[i].neighbors + Pushes(R[i], R[j], side, above))
    requires r2 == rooms[j].(neighbors := rooms[j].neighbors + Pushes(R[j], R[i], side, above))
    requires rooms' == rooms[i := r1][j := r2]
    ensures rooms'[m] == WithGathered(R, m, Reach(m, i, j + 1, |R|), side, above)
  {
    if m == i {
      GatheredGrows(R, i, j, side, above);
    } else if m == j {
      GatheredGrows(R, j, i, side, above);
    } else {
      assert Reach(m, i, j, |R|) == Reach(m, i, j + 1, |R|);
    }
  }

  /** Gathering one room further appends what meeting it adds. */
  lemma GatheredGrows(R: seq<Room>, m: nat, k: nat, side: (Room, Room) -> bool, above: (Room, Room) -> bool)
    requires m < |R| && k < |R| && k != m
    ensures WithGathered(R, m, k + 1, side, above).neighbors
         == WithGathered(R, m, k, side, above).neighbors + Pushes(R[m], R[k], side, above)
  {
    var g := Gathered(R, m, k, side, above);
    var p := Pushes(R[m], R[k], side, above);
    assert Gathered(R, m, k + 1, side, above) == g + p;
    assert R[m].neighbors + (g + p) == (R[m].neighbors + g) + p;
  }

  /** Rooms at least one unit across both ways. */
  predicate Solid(r: Room) {
    r.width >= 1 && r.height >= 1
  }

  /** Two solid rooms cannot pass both tests: touching left to right leaves
      no horizontal overlap. */
  lemma NotBoth(a: Room, b: Room)
    requires Solid(a) && Solid(b)
    ensures !(SideBySide(a, b) && OneAbove(a, b))
  {
  }

  /** Ids equal positions. */
  ghost predicate IdsArePositions(R: seq<Room>) {
    forall u :: 0 <= u < |R| ==> R[u].id == u
  }

  /** The ids room `m` collects from the rooms before `k` are those of the
      rooms it touches, and none twice when all rooms are solid. */
  lemma GatheredSpec(R: seq<Room>, m: nat, k: nat, side: (Room, Room) -> bool, above: (Room, Room) -> bool)
    requires m < |R| && k <= |R| && IdsArePositions(R) && Exclusive(R, side, above)
    ensures forall v :: v in Gathered(R, m, k, side, above) <==> 0 <= v < k && v != m && (side(R[m], R[v]) || above(R[m], R[v]))
    ensures NoRepeat(Gathered(R, m, k, side, above))
  {
    GatheredPartners(R, m, k, side, above);
    forall v ensures v in Partners(R, m, k, side, above) <==> 0 <= v < k && v != m && (side(R[m], R[v]) || above(R[m], R[v])) {
      PartnersHas(R, m, k, side, above, v);
    }
    PartnersNoRepeat(R, m, k, side, above);
  }

  /** The positions, in order, of the rooms before `k` other than `m` that
      pass either test: what room `m` should collect. */
  ghost function Partners(R: seq<Room>, m: nat, k: nat, side: (Room, Room) -> bool, above: (Room, Room) -> bool): seq<int>
    requires m < |R| && k <= |R|
  {
    if k == 0 then []
    else Partners(R, m, k - 1, side, above) + (if k - 1 != m && (side(R[m], R[k - 1]) || above(R[m], R[k - 1])) then [k - 1] else [])
  }

  /** When ids are positions and no pair passes both tests, the pair loop
      collects exactly the partners. */
  lemma {:induction false} GatheredPartners(R: seq<Room>, m: nat, k: nat, side: (Room, Room) -> bool, above: (Room, Room) -> bool)
    requires m < |R| && k <= |R| && IdsArePositions(R) && Exclusive(R, side, above)
    ensures Gathered(R, m, k, side, above) == Partners(R, m, k, side, above)
  {
    if k > 0 {
      GatheredPartners(R, m, k - 1, side, above);
      assert R[k - 1].id == k - 1;
      assert !(side(R[m], R[k - 1]) && above(R[m], R[k - 1]));
    }
  }

  /** `v` is a partner among the rooms before `k` exactly when it is one of
      them, is not `m`, and passes a test. */
  lemma {:induction false} PartnersHas(R: seq<Room>, m: nat, k: nat, side: (Room, Room) -> bool, above: (Room, Room) -> bool, v: int)
    requires m < |R| && k <= |R|
    ensures v in Partners(R, m, k, side, above) <==> 0 <= v < k && v != m && (side(R[m], R[v]) || above(R[m], R[v]))
  {
    if k > 0 {
      PartnersHas(R, m, k - 1, side, above, v);
    }
  }

  /** No partner is listed twice. */
  lemma {:induction false} PartnersNoRepeat(R: seq<Room>, m: nat, k: nat, side: (Room, Room) -> bool, above: (Room, Room) -> bool)
    requires m < |R| && k <= |R|
    ensures NoRepeat(Partners(R, m, k, side, above))
  {
    if k > 0 {
      PartnersNoRepeat(R, m, k - 1, side, above);
      PartnersHas(R, m, k - 1, side, above, k - 1);
      NoRepeatAppend(Partners(R, m, k - 1, side, above), if k - 1 != m && (side(R[m], R[k - 1]) || above(R[m], R[k - 1])) then [k - 1] else []);
    }
  }

  /** No pair of rooms passes both tests. */
  ghost predicate Exclusive(R: seq<Room>, side: (Room, Room) -> bool, above: (Room, Room) -> bool) {
    forall u, v :: 0 <= u < |R| && 0 <= v < |R| ==> !(side(R[u], R[v]) && above(R[u], R[v]))
  }

  /** The rooms as linking leaves them: ids equal positions, and `v` is
      listed by `u` exactly when they are different rooms that touch,
      each such neighbour once and by an id that names a room. */
  ghost predicate LinkedByTouch(rooms: seq<Room>) {
    forall u :: 0 <= u < |rooms| ==> LinkedRoom(rooms, u)
  }

  /** LinkedByTouch lists neighbours the way the searches need. */
  lemma LinkedIsWellLinked(rooms: seq<Room>)
    requires LinkedByTouch(rooms)
    ensures WellLinked(rooms)
  {
    forall u | 0 <= u < |rooms|
      ensures rooms[u].id == u && NoRepeat(rooms[u].neighbors)
      ensures forall v :: v in rooms[u].neighbors ==> 0 <= v < |rooms|
    {
      assert LinkedRoom(rooms, u);
    }
  }

  /** Linking solid rooms that start with empty lists gives LinkedByTouch. */
  lemma LinkedRooms(R: seq<Room>, rooms: seq<Room>)
    requires IdsArePositions(R) && forall u :: 0 <= u < |R| ==> Solid(R[u]) && R[u].neighbors == []
    requires |rooms| == |R| && forall m :: 0 <= m < |R| ==> rooms[m] == WithGathered(R, m, |R|, SideBySide, OneAbove)
    ensures LinkedByTouch(rooms)
  {
    forall u, v | 0 <= u < |R| && 0 <= v < |R| ensures !(SideBySide(R[u], R[v]) && OneAbove(R[u], R[v])) {
      NotBoth(R[u], R[v]);
    }
    forall m | 0 <= m < |R| ensures LinkedRoom(rooms, m) {
      LinkedOne(R, rooms, m);
    }
  }

  /** Room `m` as linking leaves it; LinkedByTouch for one room. */
  ghost predicate LinkedRoom(rooms: seq<Room>, m: int)
    requires 0 <= m < |rooms|
  {
    && rooms[m].id == m
    && NoRepeat(rooms[m].neighbors)
    && (forall v :: v in rooms[m].neighbors ==> 0 <= v < |rooms|)
    && forall v :: 0 <= v < |rooms| ==> (v in rooms[m].neighbors <==> m != v && Touching(rooms[m], rooms[v]))
  }

  /** One room of LinkedRooms. */
  lemma LinkedOne(R: seq<Room>, rooms: seq<Room>, m: nat)
    requires IdsArePositions(R) && forall u :: 0 <= u < |R| ==> R[u].neighbors == []
    requires Exclusive(R, SideBySide, OneAbove)
    requires |rooms| == |R| && m < |R| && forall u :: 0 <= u < |R| ==> rooms[u] == WithGathered(R, u, |R|, SideBySide, OneAbove)
    ensures LinkedRoom(rooms, m)
  {
    GatheredSpec(R, m, |R|, SideBySide, OneAbove);
    assert rooms[m].neighbors == Gathered(R, m, |R|, SideBySide, OneAbove);
    forall v | 0 <= v < |R| ensures Touching(rooms[m], rooms[v]) == (SideBySide(R[m], R[v]) || OneAbove(R[m], R[v])) {
      TouchingIgnoresLists(R[m], R[v], rooms[m], rooms[v]);
    }
  }

  /** The tests read only the rectangles, not the neighbour lists. */
  lemma TouchingIgnoresLists(a: Room, b: Room, a': Room, b': Room)
    requires a' == a.(neighbors := a'.neighbors) && b' == b.(neighbors := b'.neighbors)
    ensures Touching(a', b') == (SideBySide(a, b) || OneAbove(a, b))
  {
  }

  /** Touching is symmetric, so the lists are: `v` lists `u` exactly when
      `u` lists `v`; and no room lists itself. */
  lemma NeighboursSymmetric(rooms: seq<Room>, u: int, v: int)
    requires LinkedByTouch(rooms) && 0 <= u < |rooms| && 0 <= v < |rooms|
    ensures v in rooms[u].neighbors <==> u in rooms[v].neighbors
    ensures u !in rooms[u].neighbors
  {
    assert LinkedRoom(rooms, u) && LinkedRoom(rooms, v);
    assert Touching(rooms[u], rooms[v]) == Touching(rooms[v], rooms[u]);
  }

  // ---------------------------------------------------------------------
  // Entrance and exit

  /** C++ `/ 2` on an int: the quotient truncated toward zero. */
  function Half(v: int): int {
    if v >= 0 then v / 2 else -((-v) / 2)
  }

  /** The squared distance between the centres of two rooms. */
  function Dist2(a: Room, b: Room): int {
    var dx := (a.x + Half(a.width)) - (b.x + Half(b.width));
    var dy := (a.y + Half(a.height)) - (b.y + Half(b.height));
    dx * dx + dy * dy
  }

  /** `(a, b)` comes before `(c, d)` in row-major order. */
  predicate Earlier(a: int, b: int, c: int, d: int) {
    a < c || (a == c && b < d)
  }

  /** `(ent, ext)` is the ordered pair of rooms whose centres lie farthest
      apart, and the first such pair in row-major order. */
  ghost predicate FarthestPair(rooms: seq<Room>, ent: int, ext: int) {
    && 0 <= ent < |rooms| && 0 <= ext < |rooms|
    && (forall i, j :: 0 <= i < |rooms| && 0 <= j < |rooms| ==> Dist2(rooms[i], rooms[j]) <= Dist2(rooms[ent], rooms[ext]))
    && (forall i, j :: 0 <= i < |rooms| && 0 <= j < |rooms| && Earlier(i, j, ent, ext) ==>
          Dist2(rooms[i], rooms[j]) < Dist2(rooms[ent], rooms[ext]))
  }

  /** Step 4 of an attempt: scan every ordered pair and keep the first of
      the largest squared centre distance. With no rooms both stay 0. */
  method Farthest(rooms: seq<Room>) returns (ent: int, ext: int)
    ensures |rooms| == 0 ==> ent == 0 && ext == 0
    ensures |rooms| > 0 ==> FarthestPair(rooms, ent, ext)
  {
    var maxDist := -1;
    ent, ext := 0, 0;
    for i := 0 to |rooms|
      invariant ScanState(rooms, i, 0, maxDist, ent, ext)
    {
      maxDist, ent, ext := ScanRow(rooms, i, maxDist, ent, ext);
      RowDone(rooms, i, maxDist, ent, ext);
    }
    ScanDone(rooms, maxDist, ent, ext);
  }

  /** The inner loop of the scan: every partner `j` of room `i`. */
  method ScanRow(rooms: seq<Room>, i: int, maxDist0: int, ent0: int, ext0: int)
    returns (maxDist: int, ent: int, ext: int)
    requires 0 <= i < |rooms| && ScanState(rooms, i, 0, maxDist0, ent0, ext0)
    ensures ScanState(rooms, i, |rooms|, maxDist, ent, ext)
  {
    maxDist, ent, ext := maxDist0, ent0, ext0;
    for j := 0 to |rooms|
      invariant ScanState(rooms, i, j, maxDist, ent, ext)
    {
      var d := Dist2(rooms[i], rooms[j]);
      ghost var (m0, e0, x0) := (maxDist, ent, ext);
      if d > maxDist {
        maxDist := d;
        ent, ext := i, j;
      }
      ScanStep(rooms, i, j, m0, e0, x0, maxDist, ent, ext);
    }
  }

  /** Having scanned row `i` is having reached the start of row `i + 1`. */
  lemma RowDone(rooms: seq<Room>, i: int, maxDist: int, ent: int, ext: int)
    requires 0 <= i < |rooms| && ScanState(rooms, i, |rooms|, maxDist, ent, ext)
    ensures ScanState(rooms, i + 1, 0, maxDist, ent, ext)
  {
  }

  /** The finished scan: nothing seen for no rooms, the farthest pair
      otherwise. */
  lemma ScanDone(rooms: seq<Room>, maxDist: int, ent: int, ext: int)
    requires ScanState(rooms, |rooms|, 0, maxDist, ent, ext)
    ensures |rooms| == 0 ==> ent == 0 && ext == 0
    ensures |rooms| > 0 ==> FarthestPair(rooms, ent, ext)
  {
  }

  /** The pair scan having seen every pair before `(i, j)`: nothing seen
      yet, or `(ent, ext)` was seen, `maxDist` is its distance, no pair
      seen is farther and every pair seen before it is nearer. */
  ghost predicate ScanState(rooms: seq<Room>, i: int, j: int, maxDist: int, ent: int, ext: int) {
    && ScanBest(rooms, i, j, maxDist, ent, ext)
    && NoneFarther(rooms, i, j, maxDist)
    && NoneEarlier(rooms, ent, ext, maxDist)
  }

  /** The position is in range, and the best pair kept is one already
      seen, with its distance. */
  ghost predicate ScanBest(rooms: seq<Room>, i: int, j: int, maxDist: int, ent: int, ext: int) {
    var n := |rooms|;
    && 0 <= i <= n && 0 <= j <= n
    && (if i == 0 && j == 0 then maxDist == -1 && ent == 0 && ext == 0
        else 0 <= ent < n && 0 <= ext < n && Earlier(ent, ext, i, j) && maxDist == Dist2(rooms[ent], rooms[ext]))
  }

  /** No pair before `(i, j)` lies farther apart than `maxDist`. */
  ghost predicate NoneFarther(rooms: seq<Room>, i: int, j: int, maxDist: int) {
    forall a, b :: 0 <= a < |rooms| && 0 <= b < |rooms| && Earlier(a, b, i, j) ==> Dist2(rooms[a], rooms[b]) <= maxDist
  }

  /** Every pair before `(ent, ext)` lies nearer than `maxDist`. */
  ghost predicate NoneEarlier(rooms: seq<Room>, ent: int, ext: int, maxDist: int) {
    forall a, b :: 0 <= a < |rooms| && 0 <= b < |rooms| && Earlier(a, b, ent, ext) ==> Dist2(rooms[a], rooms[b]) < maxDist
  }

  /** One pair of the scan keeps ScanState. */
  lemma ScanStep(rooms: seq<Room>, i: int, j: int, m0: int, e0: int, x0: int, m: int, e: int, x: int)
    requires ScanState(rooms, i, j, m0, e0, x0) && i < |rooms| && j < |rooms|
    requires var d := Dist2(rooms[i], rooms[j]);
      if d > m0 then m == d && e == i && x == j else m == m0 && e == e0 && x == x0
    ensures ScanState(rooms, i, j + 1, m, e, x)
  {
    ScanStepBest(rooms, i, j, m0, e0, x0, m, e, x);
    ScanStepFarther(rooms, i, j, m0, e0, x0, m, e, x);
    ScanStepEarlier(rooms, i, j, m0, e0, x0, m, e, x);
  }

  /** ScanStep for the best pair kept. */
  lemma ScanStepBest(rooms: seq<Room>, i: int, j: int, m0: int, e0: int, x0: int, m: int, e: int, x: int)
    requires ScanState(rooms, i, j, m0, e0, x0) && i < |rooms| && j < |rooms|
    requires var d := Dist2(rooms[i], rooms[j]);
      if d > m0 then m == d && e == i && x == j else m == m0 && e == e0 && x == x0
    ensures ScanBest(rooms, i, j + 1, m, e, x)
  {
    if i == 0 && j == 0 {
      assert Dist2(rooms[0], rooms[0]) == 0;
    }
  }

  /** ScanStep for the pairs seen: the new pair is no farther than the
      larger of the two distances. */
  lemma ScanStepFarther(rooms: seq<Room>, i: int, j: int, m0: int, e0: int, x0: int, m: int, e: int, x: int)
    requires ScanState(rooms, i, j, m0, e0, x0) && i < |rooms| && j < |rooms|
    requires var d := Dist2(rooms[i], rooms[j]);
      if d > m0 then m == d && e == i && x == j else m == m0 && e == e0 && x == x0
    ensures NoneFarther(rooms, i, j + 1, m)
  {
    forall a, b | 0 <= a < |rooms| && 0 <= b < |rooms| && Earlier(a, b, i, j + 1)
      ensures Dist2(rooms[a], rooms[b]) <= m
    {
      if Earlier(a, b, i, j) {
        assert Dist2(rooms[a], rooms[b]) <= m0;
      }
    }
  }

  /** ScanStep for the pairs before the best one: a new best pair is
      strictly farther than everything seen before it. */
  lemma ScanStepEarlier(rooms: seq<Room>, i: int, j: int, m0: int, e0: int, x0: int, m: int, e: int, x: int)
    requires ScanState(rooms, i, j, m0, e0, x0) && i < |rooms| && j < |rooms|
    requires var d := Dist2(rooms[i], rooms[j]);
      if d > m0 then m == d && e == i && x == j else m == m0 && e == e0 && x == x0
    ensures NoneEarlier(rooms, e, x, m)
  {
    if Dist2(rooms[i], rooms[j]) > m0 {
      forall a, b | 0 <= a < |rooms| && 0 <= b < |rooms| && Earlier(a, b, i, j)
        ensures Dist2(rooms[a], rooms[b]) < m
      {
        assert Dist2(rooms[a], rooms[b]) <= m0;
      }
    }
  }

  // ---------------------------------------------------------------------
  // Breadth-first search over the rooms

  /** The parent map of findPath: the start has parent -1, every other
      labelled room a labelled room one label lower that lists it. */
  ghost predicate RoomParents(adj: int -> seq<int>, s: int, d: map<int, nat>, parent: map<int, int>) {
    && s in parent && parent[s] == -1
    && forall v {:trigger parent[v]} :: v in d && v != s ==>
         v in parent && parent[v] in d && v in adj(parent[v]) && d[v] == d[parent[v]] + 1
  }

  /** The state findPath keeps between rounds: the breadth-first layering,
      the visited set equal to the labelled rooms, all of them rooms, the
      parents, and the target not yet taken off the queue. */
  ghost predicate RoomBfsState(rooms: seq<Room>, s: int, t: int, done: set<int>, queue: seq<int>,
                               d: map<int, nat>, visited: set<int>, parent: map<int, int>) {
    && Layered(RoomAdj(rooms), s, done, queue, d)
    && visited == d.Keys && OnRooms(rooms, d)
    && RoomParents(RoomAdj(rooms), s, d, parent)
    && t !in done
  }

  /** What the neighbour loop has done for `current`: the rooms `added`
      were unvisited, are now visited, labelled one more than `current`,
      given it as parent and queued behind the rest. */
  ghost predicate RoomExpansion(rooms: seq<Room>, s: int, current: int, d: map<int, nat>, queue: seq<int>,
                                added: seq<int>, d': map<int, nat>, queue': seq<int>,
                                visited': set<int>, parent': map<int, int>) {
    && Queued(current, d, queue, added, d', queue')
    && visited' == d'.Keys && OnRooms(rooms, d')
    && RoomParents(RoomAdj(rooms), s, d', parent')
  }

  /** Every labelled id names a room. */
  ghost predicate OnRooms(rooms: seq<Room>, d: map<int, nat>) {
    forall x :: x in d ==> 0 <= x < |rooms|
  }

  /** The state right after the start is queued and visited. */
  lemma RoomBfsStart(rooms: seq<Room>, s: int, t: int)
    requires 0 <= s < |rooms|
    ensures RoomBfsState(rooms, s, t, {}, [s], map[s := 0], {s}, map[s := -1])
  {
    LayeredInit(RoomAdj(rooms), s);
  }

  /** Nothing done yet for `current`. */
  lemma RoomExpansionStart(rooms: seq<Room>, s: int, current: int, d: map<int, nat>, queue: seq<int>,
                           visited: set<int>, parent: map<int, int>)
    requires current in d && visited == d.Keys && OnRooms(rooms, d) && RoomParents(RoomAdj(rooms), s, d, parent)
    ensures RoomExpansion(rooms, s, current, d, queue, [], d, queue, visited, parent)
  {
    assert queue + [] == queue;
  }

  /** Visiting, parenting and queueing one more unvisited neighbour. */
  lemma RoomExpansionAdd(rooms: seq<Room>, s: int, current: int, d: map<int, nat>, queue: seq<int>,
                         added: seq<int>, d': map<int, nat>, queue': seq<int>,
                         visited': set<int>, parent': map<int, int>, v: int)
    requires RoomExpansion(rooms, s, current, d, queue, added, d', queue', visited', parent')
    requires s in d && v in RoomAdj(rooms)(current) && 0 <= v < |rooms| && v !in visited'
    ensures RoomExpansion(rooms, s, current, d, queue, added + [v], d'[v := d[current] + 1], queue' + [v],
                          visited' + {v}, parent'[v := current])
  {
    QueuedAdd(current, d, queue, added, d', queue', v);
    assert d'[v := d[current] + 1].Keys == d'.Keys + {v};
  }

  /** A whole round keeps the search state and finishes one more room. */
  lemma RoomBfsRound(rooms: seq<Room>, s: int, t: int, done: set<int>, queue: seq<int>, d: map<int, nat>,
                     visited: set<int>, parent: map<int, int>, added: seq<int>, d': map<int, nat>,
                     queue': seq<int>, visited': set<int>, parent': map<int, int>)
    requires RoomBfsState(rooms, s, t, done, queue, d, visited, parent)
    requires queue != [] && queue[0] != t
    requires RoomExpansion(rooms, s, queue[0], d, queue[1..], added, d', queue', visited', parent')
    requires AllLabelled(RoomAdj(rooms), queue[0], d')
    ensures RoomBfsState(rooms, s, t, done + {queue[0]}, queue', d', visited', parent')
    ensures |Ids(|rooms|) - (done + {queue[0]})| < |Ids(|rooms|) - done|
  {
    LayeredRound(RoomAdj(rooms), s, done, queue, d, added, d', queue');
    FewerLeft(Ids(|rooms|), done, queue[0]);
  }

  /** The parent of a labelled room other than the start. */
  lemma ParentOf(adj: int -> seq<int>, s: int, d: map<int, nat>, parent: map<int, int>, v: int)
    requires RoomParents(adj, s, d, parent) && v in d && v != s
    ensures v in parent && parent[v] in d && v in adj(parent[v]) && d[v] == d[parent[v]] + 1
  {
  }

  /** The path-rebuilding loop of findPath: follow parents from the target
      until the -1 of the start, then reverse. The result is a walk from
      the start to the target with one room per label from 0 to the
      target's. */
  method TraceParents(ghost adj: int -> seq<int>, s: int, t: int, parent: map<int, int>, ghost d: map<int, nat>)
    returns (path: seq<int>)
    requires t in d && s in d && d[s] == 0 && -1 !in d && RoomParents(adj, s, d, parent)
    ensures WalkBetween(adj, path, s, t) && |path| == d[t] + 1
  {
    var rev := [];
    var node := t;
    assert Reverse(rev + [node]) == [t];
    while node != -1
      invariant node == -1 ==> WalkBetween(adj, Reverse(rev), s, t) && |rev| == d[t] + 1
      invariant node != -1 ==> node in d && WalkBetween(adj, Reverse(rev + [node]), node, t) && |rev| + d[node] == d[t]
      decreases if node == -1 then 0 else d[node] + 1
    {
      if node != s {
        ParentOf(adj, s, d, parent, node);
        ghost var w := Reverse(rev + [node]);
        ReverseSnoc(rev + [node], parent[node]);
        WalkPrepend(adj, parent[node], w);
      }
      rev := rev + [node];
      node := parent[node];
    }
    path := Reverse(rev);
  }

  /** The Mondrian maze: its rooms, and the ids of the entrance and the
      exit. */
  class MondrianMaze {
    var rooms: seq<Room>
    var entranceId: int
    var exitId: int

    /** MondrianMaze(): generate mazes until one is accepted, here for at
        most `attempts` tries; the maze holds the last one. */
    constructor(rand: nat -> nat, attempts: nat)
      requires attempts >= 1
      ensures Layout(rooms) && FarthestPair(rooms, entranceId, exitId)
    {
      rooms, entranceId, exitId := [], 0, 0;
      new;
      var accepted := Regenerate(this, rand, attempts);
    }

    /** findPath: a shortest route from `startId` to `endId` along the
        neighbour lists, or the empty route when there is none or when the
        shortest one has fewer rooms than `minRooms` allows. The route is
        non-empty exactly when the target can be reached and every route to
        it has at least `minRooms` rooms. */
    method FindPath(startId: int, endId: int, minRooms: int) returns (path: seq<int>)
      requires WellLinked(rooms) && 0 <= startId < |rooms|
      ensures path != [] <==> Reachable(RoomAdj(rooms), startId, endId)
                              && forall w :: WalkBetween(RoomAdj(rooms), w, startId, endId) ==> |w| >= SizeT(minRooms)
      ensures path != [] ==> WalkBetween(RoomAdj(rooms), path, startId, endId)
                             && forall w :: WalkBetween(RoomAdj(rooms), w, startId, endId) ==> |path| <= |w|
    {
      ghost var adj := RoomAdj(rooms);
      var q := [startId];
      var parentMap: map<int, int> := map[startId := -1];
      var visited: set<int> := {startId};
      ghost var done: set<int> := {};
      ghost var d: map<int, nat> := map[startId := 0];
      RoomBfsStart(rooms, startId, endId);
      while q != []
        invariant RoomBfsState(rooms, startId, endId, done, q, d, visited, parentMap)
        decreases |Ids(|rooms|) - done|
      {
        var current := q[0];
        if current == endId {
          var route := TraceParents(adj, startId, endId, parentMap, d);
          BfsShortest(adj, startId, endId, done, q, d);
          if |route| >= SizeT(minRooms) {
            return route;
          } else {
            return [];
          }
        }
        ghost var q0, d0, visited0, parent0 := q, d, visited, parentMap;
        ghost var added, d';
        q, visited, parentMap, added, d' := VisitNeighbours(rooms, startId, current, q[1..], visited, parentMap, d);
        RoomBfsRound(rooms, startId, endId, done, q0, d0, visited0, parent0, added, d', q, visited, parentMap);
        done := done + {current};
        d := d';
      }
      LayeredExhausted(adj, startId, done, d, endId);
      return [];
    }

    /** getRoomCount. */
    function GetRoomCount(): (n: int)
      reads this
      ensures n == |rooms|
    {
      |rooms|
    }

    /** getRoom: `rooms.at(id)`, which has no room to give (it throws)
        for an id outside the list. */
    function GetRoom(id: int): (r: Option<Room>)
      reads this
      ensures r.Some? <==> 0 <= id < |rooms|
      ensures r.Some? ==> r.value == rooms[id]
    {
      if 0 <= id < |rooms| then Some(rooms[id]) else None
    }

    /** getRooms, getEntranceId and getExitId. */
    function GetRooms(): (rs: seq<Room>)
      reads this
      ensures rs == rooms
    {
      rooms
    }

    function GetEntranceId(): (id: int)
      reads this
      ensures id == entranceId
    {
      entranceId
    }

    function GetExitId(): (id: int)
      reads this
      ensures id == exitId
    {
      exitId
    }
  }

  /** The neighbour loop of findPath: every unvisited neighbour of
      `current` is visited, given `current` as its parent and queued, in
      the order the room lists them. */
  method VisitNeighbours(rooms: seq<Room>, ghost s: int, current: int, queue: seq<int>, visited: set<int>,
                         parentMap: map<int, int>, ghost d: map<int, nat>)
    returns (queue': seq<int>, visited': set<int>, parentMap': map<int, int>, ghost added: seq<int>, ghost d': map<int, nat>)
    requires WellLinked(rooms) && current in d && s in d
    requires visited == d.Keys && OnRooms(rooms, d) && RoomParents(RoomAdj(rooms), s, d, parentMap)
    ensures RoomExpansion(rooms, s, current, d, queue, added, d', queue', visited', parentMap')
    ensures AllLabelled(RoomAdj(rooms), current, d')
    ensures |queue| <= |queue'| && queue'[..|queue|] == queue
    ensures forall v :: v in queue'[|queue|..] <==> v in rooms[current].neighbors && v !in visited
    ensures forall v :: v in queue'[|queue|..] ==> v in parentMap' && parentMap'[v] == current
    ensures forall v :: v in visited' <==> v in visited || v in rooms[current].neighbors
  {
    var neighbours := rooms[current].neighbors;
    queue', visited', parentMap' := queue, visited, parentMap;
    added, d' := [], d;
    RoomExpansionStart(rooms, s, current, d, queue, visited, parentMap);
    for i := 0 to |neighbours|
      invariant RoomExpansion(rooms, s, current, d, queue, added, d', queue', visited', parentMap')
      invariant forall v :: v in neighbours[..i] ==> v in d'
      invariant FreshAdded(added, neighbours[..i], d, parentMap', current)
    {
      var nb := neighbours[i];
      if nb !in visited' {
        RoomExpansionAdd(rooms, s, current, d, queue, added, d', queue', visited', parentMap', nb);
        RoomExpansionFresh(rooms, s, current, d, queue, added, d', queue', visited', parentMap', nb);
        FreshAdd(added, neighbours[..i], d, parentMap', current, nb);
        visited' := visited' + {nb};
        parentMap' := parentMap'[nb := current];
        queue' := queue' + [nb];
        added := added + [nb];
        d' := d'[nb := d[current] + 1];
      } else {
        RoomExpansionFresh(rooms, s, current, d, queue, added, d', queue', visited', parentMap', nb);
        FreshSkip(added, neighbours[..i], d, parentMap', current, nb);
      }
      TakeOneMore(neighbours, i);
    }
    TakeAll(neighbours);
    RoomExpansionDone(rooms, s, current, d, queue, added, d', queue', visited', parentMap');
    FreshTail(queue, added, queue', neighbours, d, parentMap', current);
  }

  /** A room is in the visited set during an expansion exactly when it was
      labelled before or has been queued by it. */
  lemma RoomExpansionFresh(rooms: seq<Room>, s: int, current: int, d: map<int, nat>, queue: seq<int>,
                           added: seq<int>, d': map<int, nat>, queue': seq<int>,
                           visited': set<int>, parent': map<int, int>, v: int)
    requires RoomExpansion(rooms, s, current, d, queue, added, d', queue', visited', parent')
    ensures v in visited' <==> v in d || v in added
  {
  }

  /** The visited set after an expansion. */
  lemma RoomExpansionDone(rooms: seq<Room>, s: int, current: int, d: map<int, nat>, queue: seq<int>,
                          added: seq<int>, d': map<int, nat>, queue': seq<int>,
                          visited': set<int>, parent': map<int, int>)
    requires RoomExpansion(rooms, s, current, d, queue, added, d', queue', visited', parent')
    requires 0 <= current < |rooms| && FreshAdded(added, rooms[current].neighbors, d, parent', current)
    requires forall v :: v in rooms[current].neighbors ==> v in d'
    ensures forall v :: v in visited' <==> v in d || v in rooms[current].neighbors
    ensures queue' == queue + added
  {
  }

  // ---------------------------------------------------------------------
  // Generating a maze

  /** The summed areas of the rooms. */
  function RoomsArea(rooms: seq<Room>): int {
    if rooms == [] then 0 else RoomsArea(rooms[..|rooms| - 1]) + rooms[|rooms| - 1].width * rooms[|rooms| - 1].height
  }

  /** Rooms with the blocks' rectangles have the blocks' summed area. */
  lemma {:induction false} RoomsAreaOfBlocks(blocks: seq<Block>, rooms: seq<Room>)
    requires |rooms| == |blocks|
    requires forall i :: 0 <= i < |rooms| ==> rooms[i].width == blocks[i].w && rooms[i].height == blocks[i].h
    ensures RoomsArea(rooms) == BlocksArea(blocks)
  {
    if rooms != [] {
      RoomsAreaOfBlocks(blocks[..|blocks| - 1], rooms[..|rooms| - 1]);
    }
  }

  /** What an attempt leaves in the rooms: between 1 and 100 rooms, each
      inside the 800 x 800 canvas with the colour its position picks, their
      areas summing to the canvas's, linked exactly to the rooms they
      touch. */
  ghost predicate Layout(rooms: seq<Room>) {
    && 1 <= |rooms| <= 100
    && (forall i :: 0 <= i < |rooms| ==>
          rooms[i].color == MondrianColors[i % |MondrianColors|]
          && Inside(0, 0, 800, 800, rooms[i].x, rooms[i].y, rooms[i].width, rooms[i].height))
    && RoomsArea(rooms) == 800 * 800
    && LinkedByTouch(rooms)
  }

  /** The acceptance test of the constructor: the exit can be reached from
      the entrance, and every route between them passes through at least
      three rooms. */
  ghost predicate Solvable(rooms: seq<Room>, ent: int, ext: int) {
    && Reachable(RoomAdj(rooms), ent, ext)
    && forall w :: WalkBetween(RoomAdj(rooms), w, ent, ext) ==> |w| >= 3
  }

  /** Steps 1 to 3 of an attempt: cut the canvas into at most 100 blocks,
      turn them into rooms and link the rooms that touch. `rand` is the
      stream of `rand()` values, read from position `k0` on. */
  method BuildRooms(rand: nat -> nat, k0: nat) returns (rooms: seq<Room>, k: nat)
    ensures Layout(rooms) && k0 <= k
  {
    var blocks;
    blocks, k := SplitBlocks([], 0, 0, 800, 800, 100, rand, k0);
    assert blocks[..0] == [];
    forall i | 0 <= i < |blocks| ensures 0 <= blocks[i].colorIdx < |MondrianColors| {
      assert NewBlock(0, 0, 800, 800, blocks, i);
    }
    var bare := RoomsOf(blocks);
    rooms := LinkRooms(bare);
    LayoutOf(blocks, bare, rooms);
  }

  /** The rooms BuildRooms makes have the Layout. */
  lemma {:induction false} LayoutOf(blocks: seq<Block>, bare: seq<Room>, rooms: seq<Room>)
    requires 1 <= |blocks| <= 100 && BlocksArea(blocks) == 800 * 800
    requires forall i :: 0 <= i < |blocks| ==> NewBlock(0, 0, 800, 800, blocks, i)
    requires forall i :: 0 <= i < |blocks| ==> 0 <= blocks[i].colorIdx < |MondrianColors|
    requires |bare| == |blocks| && forall i :: 0 <= i < |bare| ==> bare[i] == RoomOf(blocks[i], i)
    requires |rooms| == |bare| && forall m :: 0 <= m < |bare| ==> rooms[m] == WithGathered(bare, m, |bare|, SideBySide, OneAbove)
    ensures Layout(rooms)
  {
    forall i | 0 <= i < |bare|
      ensures bare[i].id == i && Solid(bare[i]) && bare[i].neighbors == []
      ensures rooms[i].color == MondrianColors[i % |MondrianColors|]
      ensures Inside(0, 0, 800, 800, rooms[i].x, rooms[i].y, rooms[i].width, rooms[i].height)
      ensures rooms[i].width == blocks[i].w && rooms[i].height == blocks[i].h
    {
      assert NewBlock(0, 0, 800, 800, blocks, i);
      assert rooms[i] == bare[i].(neighbors := bare[i].neighbors + Gathered(bare, i, |bare|, SideBySide, OneAbove));
    }
    LinkedRooms(bare, rooms);
    RoomsAreaOfBlocks(blocks, rooms);
  }

  /** Steps 1 to 5 of the constructor, once: build the rooms, take the
      farthest pair as entrance and exit, and accept when findPath with at
      least one room finds a route of at least three rooms. */
  method Attempt(maze: MondrianMaze, rand: nat -> nat, k0: nat) returns (accepted: bool, k: nat)
    modifies maze
    ensures Layout(maze.rooms) && FarthestPair(maze.rooms, maze.entranceId, maze.exitId) && k0 <= k
    ensures accepted <==> Solvable(maze.rooms, maze.entranceId, maze.exitId)
  {
    var rooms;
    rooms, k := BuildRooms(rand, k0);
    maze.rooms := rooms;
    var ent, ext := Farthest(rooms);
    maze.entranceId, maze.exitId := ent, ext;
    LinkedIsWellLinked(rooms);
    var path := maze.FindPath(ent, ext, 1);
    accepted := path != [] && |path| >= 3;
    Accepting(rooms, ent, ext, path);
  }

  /** The constructor's test on findPath's answer is Solvable. */
  lemma Accepting(rooms: seq<Room>, ent: int, ext: int, path: seq<int>)
    requires path != [] <==> Reachable(RoomAdj(rooms), ent, ext)
                             && forall w :: WalkBetween(RoomAdj(rooms), w, ent, ext) ==> |w| >= SizeT(1)
    requires path != [] ==> WalkBetween(RoomAdj(rooms), path, ent, ext)
                            && forall w :: WalkBetween(RoomAdj(rooms), w, ent, ext) ==> |path| <= |w|
    ensures (path != [] && |path| >= 3) <==> Solvable(rooms, ent, ext)
  {
    assert SizeT(1) == 1;
  }

  /** The constructor's loop, with the number of attempts bounded: attempt
      until one is accepted or `attempts` have been made. The maze holds
      the last attempt, and `accepted` says whether it passed. */
  method Regenerate(maze: MondrianMaze, rand: nat -> nat, attempts: nat) returns (accepted: bool)
    requires attempts >= 1
    modifies maze
    ensures Layout(maze.rooms) && FarthestPair(maze.rooms, maze.entranceId, maze.exitId)
    ensures accepted <==> Solvable(maze.rooms, maze.entranceId, maze.exitId)
  {
    var k := 0;
    accepted, k := Attempt(maze, rand, k);
    var tries := 1;
    while !accepted && tries < attempts
      invariant Layout(maze.rooms) && FarthestPair(maze.rooms, maze.entranceId, maze.exitId)
      invariant accepted <==> Solvable(maze.rooms, maze.entranceId, maze.exitId)
      decreases attempts - tries
    {
      accepted, k := Attempt(maze, rand, k);
      tries := tries + 1;
    }
  }
}
