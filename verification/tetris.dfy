/** The falling-block game (`js/tetrisclone.js`): a moving block made of the
    points of a shape, turned by a quarter turn per rotation step, falls into
    a `width` by `height` area of landed squares; full lines are wiped. */
module TetrisClone {
  import opened Wrappers
  import opened Common

  datatype Point = Point(x: int, y: int)

  /** A shape: its name, how many of its rotations are used, and its points
      around the turning centre. */
  datatype Shape = Shape(name: string, rotationCount: int, points: seq<Point>)

  /** The falling block. The source copies it before changing a copy; here it
      is a value, so a copy is the value itself. */
  datatype MovingBlock = MovingBlock(shape: Shape, rotation: int, x: int, y: int)

  /** A landed square holds the name of the shape that landed there. */
  type Square = Option<string>

  /** What `zip` throws on arrays of different lengths. */
  datatype ZipError = LengthMismatch

  /** Blocks attached per level. */
  const BlocksPerLevel: int := 50

  const AllShapes: seq<Shape> := [
    Shape("square1", 1, [Point(0, 0)]),
    Shape("I2", 2, [Point(0, 0), Point(0, 1)]),
    Shape("I3", 2, [Point(0, -1), Point(0, 0), Point(0, 1)]),
    Shape("corner2", 4, [Point(1, 0), Point(0, 0), Point(0, 1)]),
    Shape("I4", 2, [Point(0, -1), Point(0, 0), Point(0, 1), Point(0, 2)]),
    Shape("S", 2, [Point(1, 0), Point(0, 0), Point(0, 1), Point(-1, 1)]),
    Shape("Z", 2, [Point(-1, 0), Point(0, 0), Point(0, 1), Point(1, 1)]),
    Shape("square2", 1, [Point(0, 0), Point(0, 1), Point(1, 0), Point(1, 1)]),
    Shape("T", 4, [Point(-1, 0), Point(0, 0), Point(0, 1), Point(1, 0)]),
    Shape("L", 4, [Point(0, -1), Point(0, 0), Point(0, 1), Point(1, 1)]),
    Shape("J", 4, [Point(0, -1), Point(0, 0), Point(0, 1), Point(-1, 1)]),
    Shape("b", 4, [Point(0, -1), Point(0, 0), Point(1, 0), Point(0, 1), Point(1, 1)]),
    Shape("d", 4, [Point(1, -1), Point(0, 0), Point(1, 0), Point(0, 1), Point(1, 1)]),
    Shape("hatLeft", 4, [Point(0, -1), Point(0, 0), Point(-1, 0), Point(0, 1), Point(0, 2)]),
    Shape("hatRight", 4, [Point(0, -1), Point(0, 0), Point(1, 0), Point(0, 1), Point(0, 2)]),
    Shape("U", 4, [Point(-1, 0), Point(-1, 1), Point(0, 1), Point(1, 1), Point(1, 0)]),
    Shape("monsterLeft", 4, [Point(-1, -1), Point(-1, 0), Point(0, 0), Point(0, 1), Point(1, 0)]),
    Shape("monsterRight", 4, [Point(-1, 0), Point(0, 0), Point(0, 1), Point(1, 0), Point(1, -1)]),
    Shape("Tlong", 4, [Point(-1, -1), Point(1, -1), Point(0, -1), Point(0, 0), Point(0, 1)]),
    Shape("Llong", 4, [Point(0, -2), Point(0, -1), Point(0, 0), Point(0, 1), Point(1, 1)]),
    Shape("Jlong", 4, [Point(0, -2), Point(0, -1), Point(0, 0), Point(0, 1), Point(-1, 1)]),
    Shape("corner3", 4, [Point(-1, -1), Point(-1, 0), Point(-1, 1), Point(0, 1), Point(1, 1)]),
    Shape("M", 4, [Point(-1, -1), Point(0, -1), Point(0, 0), Point(1, 0), Point(1, 1)]),
    Shape("underscoreS", 4, [Point(1, -1), Point(0, -1), Point(0, 0), Point(-1, 0), Point(-2, 0)]),
    Shape("Zunderscore", 4, [Point(-1, -1), Point(0, -1), Point(0, 0), Point(1, 0), Point(2, 0)]),
    Shape("I5", 4, [Point(0, -2), Point(0, -1), Point(0, 0), Point(0, 1), Point(0, 2)]),
    Shape("plus", 1, [Point(0, 0), Point(-1, 0), Point(1, 0), Point(0, -1), Point(0, 1)])
  ]

  /** A shape a block can have: it has points, and uses 1, 2 or 4 of the
      four rotations. */
  predicate ShapeOk(s: Shape) {
    0 < |s.points| && (s.rotationCount == 1 || s.rotationCount == 2 || s.rotationCount == 4)
  }

  /** Every shape of the game is one a block can have. */
  lemma ShapesOk()
    ensures forall i | 0 <= i < |AllShapes| :: ShapeOk(AllShapes[i])
  {
  }

  /** A block whose shape can be used and whose rotation is one of the used
      rotations of its shape. */
  predicate BlockOk(b: MovingBlock) {
    ShapeOk(b.shape) && 0 <= b.rotation < b.shape.rotationCount
  }

  // ---------------------------------------------------------------- points

  /** The point `p` of a shape at rotation `rotation`; rotations other than
      0 to 3 are an error. */
  function Turn(p: Point, rotation: int): (r: Option<Point>)
    ensures r.Some? <==> 0 <= rotation < 4
  {
    if rotation == 0 then Some(p)
    else if rotation == 1 then Some(Point(p.y, -p.x))
    else if rotation == 2 then Some(Point(-p.x, -p.y))
    else if rotation == 3 then Some(Point(-p.y, p.x))
    else None
  }

  /** One quarter turn. */
  function QuarterTurn(p: Point): Point {
    Point(p.y, -p.x)
  }

  /** `k` quarter turns. */
  function QuarterTurns(p: Point, k: nat): Point {
    if k == 0 then p else QuarterTurn(QuarterTurns(p, k - 1))
  }

  /** Rotation `r` is `r` quarter turns, and four quarter turns are none. */
  lemma {:induction false} TurnIsQuarterTurns(p: Point, rotation: int)
    requires 0 <= rotation < 4
    ensures Turn(p, rotation) == Some(QuarterTurns(p, rotation))
    ensures QuarterTurns(p, 4) == p
  {
    assert QuarterTurns(p, 1) == Point(p.y, -p.x);
    assert QuarterTurns(p, 2) == Point(-p.x, -p.y);
    assert QuarterTurns(p, 3) == Point(-p.y, p.x);
  }

  /** Turning never merges two points. */
  lemma TurnInjective(p: Point, q: Point, rotation: int)
    requires 0 <= rotation < 4 && Turn(p, rotation) == Turn(q, rotation)
    ensures p == q
  {
  }

  /** `getCoords`: every point turned by the rotation and moved to the block
      position; a rotation other than 0 to 3 is an error. */
  function Coords(b: MovingBlock): (r: Option<seq<Point>>)
    ensures r.Some? <==> 0 <= b.rotation < 4
    ensures r.Some? ==> |r.value| == |b.shape.points|
  {
    if 0 <= b.rotation < 4 then
      Some(seq(|b.shape.points|, i requires 0 <= i < |b.shape.points| =>
        var t := Turn(b.shape.points[i], b.rotation).value;
        Point(b.x + t.x, b.y + t.y)))
    else None
  }

  /** Moving a block moves each of its squares by the same amount, and
      keeps them distinct when the shape's points are. */
  lemma CoordsShift(b: MovingBlock, dx: int, dy: int)
    requires 0 <= b.rotation < 4
    ensures var moved := Coords(b.(x := b.x + dx, y := b.y + dy)).value;
      forall i | 0 <= i < |moved| :: moved[i] == Point(Coords(b).value[i].x + dx, Coords(b).value[i].y + dy)
  {
  }

  /** Distinct points give distinct squares. */
  lemma CoordsDistinct(b: MovingBlock, i: int, j: int)
    requires 0 <= b.rotation < 4 && 0 <= i < j < |b.shape.points|
    requires b.shape.points[i] != b.shape.points[j]
    ensures Coords(b).value[i] != Coords(b).value[j]
  {
    if Coords(b).value[i] == Coords(b).value[j] {
      TurnInjective(b.shape.points[i], b.shape.points[j], b.rotation);
    }
  }

  /** The largest `y` among the points (`Math.max` over them). */
  function MaxY(points: seq<Point>): (m: int)
    requires |points| > 0
    ensures forall i | 0 <= i < |points| :: points[i].y <= m
    ensures exists i :: 0 <= i < |points| && points[i].y == m
  {
    if |points| == 1 then points[0].y
    else
      var rest := MaxY(points[1..]);
      assert forall i | 1 <= i < |points| :: points[i] == points[1..][i - 1];
      if points[0].y >= rest then points[0].y else rest
  }

  /** The `MovingBlock` constructor for a chosen shape: rotation 0, left of
      the middle column, and just above the area. */
  function NewBlock(shape: Shape, gameWidth: int): MovingBlock
    requires |shape.points| > 0
  {
    MovingBlock(shape, 0, gameWidth / 2 - 1, -MaxY(shape.points) - 1)
  }

  /** A new block is hidden all the way above the area, its lowest square
      right above row 0. */
  lemma NewBlockHidden(shape: Shape, gameWidth: int)
    requires |shape.points| > 0
    ensures var coords := Coords(NewBlock(shape, gameWidth)).value;
      (forall i | 0 <= i < |coords| :: coords[i].y <= -1) &&
      (exists i :: 0 <= i < |coords| && coords[i].y == -1)
  {
    var coords := Coords(NewBlock(shape, gameWidth)).value;
    var i :| 0 <= i < |shape.points| && shape.points[i].y == MaxY(shape.points);
    assert coords[i].y == -1;
  }

  // ---------------------------------------------------------------- zip

  /** `zip`: the pairs of items at the same index. */
  function Zip<A, B>(a: seq<A>, b: seq<B>): (r: Result<seq<(A, B)>, ZipError>)
    ensures r.Ok? <==> |a| == |b|
    ensures r.Ok? ==> |r.value| == |a|
  {
    if |a| != |b| then Err(LengthMismatch)
    else Ok(seq(|a|, i requires 0 <= i < |a| => (a[i], b[i])))
  }

  /** The first and the second items of zipped pairs are the zipped arrays. */
  lemma ZipUnzip<A, B>(a: seq<A>, b: seq<B>)
    requires |a| == |b|
    ensures var pairs := Zip(a, b).value;
      (seq(|pairs|, i requires 0 <= i < |pairs| => pairs[i].0)) == a &&
      (seq(|pairs|, i requires 0 <= i < |pairs| => pairs[i].1)) == b
  {
  }

  /** `arraysEqual`: the lengths agree and every zipped pair is equal. */
  function ArraysEqual<T(==)>(a: seq<T>, b: seq<T>): (r: bool)
    ensures r <==> a == b
  {
    if |a| != |b| then false
    else
      var pairs := Zip(a, b).value;
      var every := forall i | 0 <= i < |pairs| :: pairs[i].0 == pairs[i].1;
      assert every ==> a == b by {
        if every {
          assert forall i | 0 <= i < |a| :: a[i] == pairs[i].0 == pairs[i].1 == b[i];
        }
      }
      every
  }

  // ---------------------------------------------------------------- rotation

  /** The rotation after `rotate`. */
  function NextRotation(rotation: int, rotationCount: int): int
    requires rotationCount > 0
  {
    (rotation + 1) % rotationCount
  }

  /** The rotation after `k` calls of `rotate`. */
  function Rotations(rotation: int, rotationCount: int, k: nat): int
    requires rotationCount > 0
  {
    if k == 0 then rotation else NextRotation(Rotations(rotation, rotationCount, k - 1), rotationCount)
  }

  /** Rotating counts up by one until the last rotation. */
  lemma {:induction false} RotationsUp(rotation: int, rotationCount: int, k: nat)
    requires 0 <= rotation && rotation + k < rotationCount
    ensures Rotations(rotation, rotationCount, k) == rotation + k
  {
    if k > 0 {
      RotationsUp(rotation, rotationCount, k - 1);
      NextRotationUp(rotation + k - 1, rotationCount);
    }
  }

  lemma NextRotationUp(rotation: int, rotationCount: int)
    requires 0 <= rotation && rotation + 1 < rotationCount
    ensures NextRotation(rotation, rotationCount) == rotation + 1
  {
  }

  /** `a + b` calls of `rotate` are `a` calls and then `b` calls. */
  lemma {:induction false} RotationsAdd(rotation: int, rotationCount: int, a: nat, b: nat)
    requires rotationCount > 0
    ensures Rotations(rotation, rotationCount, a + b) == Rotations(Rotations(rotation, rotationCount, a), rotationCount, b)
  {
    if b > 0 {
      RotationsAdd(rotation, rotationCount, a, b - 1);
    }
  }

  /** `rotate` stays among the used rotations, and `rotationCount` calls of
      it come back to the rotation it started from. */
  lemma RotationsCycle(rotation: int, rotationCount: int)
    requires 0 <= rotation < rotationCount
    ensures 0 <= NextRotation(rotation, rotationCount) < rotationCount
    ensures Rotations(rotation, rotationCount, rotationCount) == rotation
  {
    RotationsToZero(rotation, rotationCount);
    RotationsAdd(rotation, rotationCount, rotationCount - rotation, rotation);
    RotationsUp(0, rotationCount, rotation);
  }

  /** From the last rotation, `rotate` wraps round to rotation 0. */
  lemma RotationsToZero(rotation: int, rotationCount: int)
    requires 0 <= rotation < rotationCount
    ensures Rotations(rotation, rotationCount, rotationCount - rotation) == 0
  {
    RotationsUp(rotation, rotationCount, rotationCount - 1 - rotation);
  }

  // ---------------------------------------------------------------- level

  /** `getLevel`. */
  function Level(initialLevel: int, blocksAttached: nat): int {
    initialLevel + blocksAttached / BlocksPerLevel
  }

  /** Attaching a block raises the level by one exactly when the count of
      attached blocks reaches a multiple of 50; otherwise the level stays. */
  lemma LevelStep(initialLevel: int, blocksAttached: nat)
    ensures Level(initialLevel, blocksAttached + 1) ==
            Level(initialLevel, blocksAttached) + (if (blocksAttached + 1) % BlocksPerLevel == 0 then 1 else 0)
  {
  }

  /** The level never goes down as blocks are attached. */
  lemma {:induction false} LevelMonotone(initialLevel: int, a: nat, b: nat)
    requires a <= b
    ensures Level(initialLevel, a) <= Level(initialLevel, b)
    decreases b - a
  {
    if a < b {
      LevelStep(initialLevel, a);
      LevelMonotone(initialLevel, a + 1, b);
    }
  }

  // ---------------------------------------------------------------- landed squares

  /** A row with no empty square (`!row.includes(null)`). */
  predicate Full(row: seq<Square>) {
    forall x | 0 <= x < |row| :: row[x].Some?
  }

  /** `Array(width).fill(null)`. */
  function EmptyRow(width: nat): seq<Square> {
    seq(width, _ => None)
  }

  /** `n` empty rows. */
  function Blank(n: nat, width: nat): seq<seq<Square>> {
    seq(n, _ => EmptyRow(width))
  }

  /** `height` rows of `width` squares. */
  predicate Shaped(grid: seq<seq<Square>>, width: nat, height: nat) {
    |grid| == height && forall y | 0 <= y < |grid| :: |grid[y]| == width
  }

  /** The rows that are not full, in their order. */
  function NonFull(rows: seq<seq<Square>>): (r: seq<seq<Square>>)
    ensures |r| <= |rows|
    ensures forall i | 0 <= i < |r| :: !Full(r[i]) && r[i] in rows
  {
    if rows == [] then []
    else
      var init := rows[..|rows| - 1];
      assert forall row | row in init :: row in rows;
      NonFull(init) + (if Full(rows[|rows| - 1]) then [] else [rows[|rows| - 1]])
  }

  /** The rows after wiping the full ones: an empty row on top for each full
      row, then the other rows in their order. */
  function Wiped(rows: seq<seq<Square>>, width: nat): (r: seq<seq<Square>>)
    ensures |r| == |rows|
  {
    Blank(|rows| - |NonFull(rows)|, width) + NonFull(rows)
  }

  /** The filter works row block by row block. */
  lemma {:induction false} NonFullConcat(a: seq<seq<Square>>, b: seq<seq<Square>>)
    ensures NonFull(a + b) == NonFull(a) + NonFull(b)
    decreases |b|
  {
    if b == [] {
      assert a + b == a;
    } else {
      var init := b[..|b| - 1];
      NonFullConcat(a, init);
      assert (a + b)[..|a + b| - 1] == a + init;
    }
  }

  /** Rows none of which is full pass the filter unchanged. */
  lemma {:induction false} NonFullOfNonFull(rows: seq<seq<Square>>)
    requires forall i | 0 <= i < |rows| :: !Full(rows[i])
    ensures NonFull(rows) == rows
  {
    if rows != [] {
      var init := rows[..|rows| - 1];
      NonFullOfNonFull(init);
      assert init + [rows[|rows| - 1]] == rows;
    }
  }

  /** After wiping, no row is full (on a non-empty width). */
  lemma WipedNoFullRow(rows: seq<seq<Square>>, width: nat)
    requires width > 0
    ensures forall y | 0 <= y < |rows| :: !Full(Wiped(rows, width)[y])
  {
    var blank := Blank(|rows| - |NonFull(rows)|, width);
    assert EmptyRow(width)[0] == None;
    forall y | 0 <= y < |rows|
      ensures !Full(Wiped(rows, width)[y])
    {
      if y >= |blank| {
        assert Wiped(rows, width)[y] == NonFull(rows)[y - |blank|];
      }
    }
  }

  /** Wiping keeps `height` rows of `width` squares. */
  lemma WipedShaped(rows: seq<seq<Square>>, width: nat, height: nat)
    requires Shaped(rows, width, height)
    ensures Shaped(Wiped(rows, width), width, height)
  {
    var blank := Blank(|rows| - |NonFull(rows)|, width);
    forall y | 0 <= y < height
      ensures |Wiped(rows, width)[y]| == width
    {
      if y >= |blank| {
        assert Wiped(rows, width)[y] == NonFull(rows)[y - |blank|];
      }
    }
  }

  /** Wiping twice is wiping once. */
  lemma WipedIdempotent(rows: seq<seq<Square>>, width: nat)
    requires width > 0
    ensures Wiped(Wiped(rows, width), width) == Wiped(rows, width)
  {
    var once := Wiped(rows, width);
    WipedNoFullRow(rows, width);
    NonFullOfNonFull(once);
    assert Blank(0, width) + once == once;
  }

  /** The rows below the last full row stay where they were. */
  lemma WipedKeepsBottom(rows: seq<seq<Square>>, width: nat, y: nat)
    requires y <= |rows|
    requires forall j | y <= j < |rows| :: !Full(rows[j])
    ensures Wiped(rows, width)[y..] == rows[y..]
  {
    var top, bottom := rows[..y], rows[y..];
    assert NonFull(rows) == NonFull(top) + bottom by {
      assert rows == top + bottom;
      NonFullConcat(top, bottom);
      NonFullOfNonFull(bottom);
    }
    var prefix := Blank(|rows| - |NonFull(rows)|, width) + NonFull(top);
    assert Wiped(rows, width) == prefix + bottom;
    assert |prefix| == y;
  }

  /** Without a full row, wiping changes nothing. */
  lemma WipedNothingFull(rows: seq<seq<Square>>, width: nat)
    requires forall y | 0 <= y < |rows| :: !Full(rows[y])
    ensures Wiped(rows, width) == rows
  {
    NonFullOfNonFull(rows);
  }

  /** The rows while wiping has reached row `y`: the rows above `y` wiped,
      the others untouched. */
  function WipedUpTo(rows: seq<seq<Square>>, y: nat, width: nat): seq<seq<Square>>
    requires y <= |rows|
  {
    Wiped(rows[..y], width) + rows[y..]
  }

  /** One row of the wiping loop: the rows before `y` are the wiped rows
      before `y`, the rest are untouched; a full row `y` is spliced out and an
      empty row put on top. */
  lemma WipeStep(rows: seq<seq<Square>>, cur: seq<seq<Square>>, y: nat, width: nat)
    requires y < |rows| && cur == WipedUpTo(rows, y, width)
    ensures |cur| == |rows| && cur[y] == rows[y]
    ensures Full(rows[y]) ==> [EmptyRow(width)] + (cur[..y] + cur[y + 1..]) == WipedUpTo(rows, y + 1, width)
    ensures !Full(rows[y]) ==> cur == WipedUpTo(rows, y + 1, width)
  {
    var pre := rows[..y];
    var done := Wiped(pre, width);
    assert cur == done + rows[y..];
    assert rows[y..] == [rows[y]] + rows[y + 1..];
    assert cur[y] == rows[y];
    assert rows[..y + 1][..y] == pre;
    if Full(rows[y]) {
      WipeFull(rows, y, width);
      assert cur[..y] == done;
      assert cur[y + 1..] == rows[y + 1..];
    } else {
      WipeNonFull(rows, y, width);
    }
  }

  lemma WipeFull(rows: seq<seq<Square>>, y: nat, width: nat)
    requires y < |rows| && Full(rows[y])
    ensures WipedUpTo(rows, y + 1, width) == [EmptyRow(width)] + (Wiped(rows[..y], width) + rows[y + 1..])
  {
    var pre := rows[..y];
    var nf := NonFull(pre);
    var k := y - |nf|;
    assert rows[..y + 1][..y] == pre;
    assert NonFull(rows[..y + 1]) == nf;
    assert Wiped(rows[..y + 1], width) == Blank(k + 1, width) + nf;
    assert Blank(k + 1, width) == [EmptyRow(width)] + Blank(k, width);
    assert Wiped(pre, width) == Blank(k, width) + nf;
  }

  lemma WipeNonFull(rows: seq<seq<Square>>, y: nat, width: nat)
    requires y < |rows| && !Full(rows[y])
    ensures WipedUpTo(rows, y + 1, width) == Wiped(rows[..y], width) + rows[y..]
  {
    var pre := rows[..y];
    var nf := NonFull(pre);
    var k := y - |nf|;
    assert rows[..y + 1][..y] == pre;
    assert NonFull(rows[..y + 1]) == nf + [rows[y]];
    assert Wiped(rows[..y + 1], width) == Blank(k, width) + (nf + [rows[y]]);
    assert rows[y..] == [rows[y]] + rows[y + 1..];
  }

  /** A block square is allowed: inside the columns, above the floor, and
      on an empty square once it is in the area (negative rows are above
      the area and allowed). */
  predicate SquareOk(grid: seq<seq<Square>>, width: nat, height: nat, p: Point) {
    0 <= p.x < width && p.y < height &&
    (0 <= p.y ==> p.y < |grid| && p.x < |grid[p.y]| && grid[p.y][p.x] == None)
  }

  /** Every square of a block is allowed. */
  predicate Fits(grid: seq<seq<Square>>, width: nat, height: nat, coords: seq<Point>) {
    forall i | 0 <= i < |coords| :: SquareOk(grid, width, height, coords[i])
  }

  /** Every square of a block is above the area. */
  predicate AboveArea(coords: seq<Point>) {
    forall i | 0 <= i < |coords| :: coords[i].y < 0
  }

  /** `_movingBlockIsFullyInGameArea`. */
  predicate InArea(coords: seq<Point>) {
    forall i | 0 <= i < |coords| :: coords[i].y >= 0
  }

  /** The landed squares after writing `name` into the squares of a block. */
  function Stamp(grid: seq<seq<Square>>, coords: seq<Point>, name: string): (r: seq<seq<Square>>)
    ensures |r| == |grid| && forall y | 0 <= y < |r| :: |r[y]| == |grid[y]|
  {
    seq(|grid|, y requires 0 <= y < |grid| =>
      seq(|grid[y]|, x requires 0 <= x < |grid[y]| => if Point(x, y) in coords then Some(name) else grid[y][x]))
  }

  /** A block that fits and is in the area no longer fits once attached: its
      squares are taken. Attaching frees no square. */
  lemma StampTakes(grid: seq<seq<Square>>, width: nat, height: nat, coords: seq<Point>, name: string, p: Point)
    requires Shaped(grid, width, height)
    ensures p in coords && 0 <= p.y ==> !SquareOk(Stamp(grid, coords, name), width, height, p)
    ensures SquareOk(Stamp(grid, coords, name), width, height, p) ==> SquareOk(grid, width, height, p)
  {
  }

  /** Writing no square changes nothing. */
  lemma StampNothing(grid: seq<seq<Square>>, name: string)
    ensures Stamp(grid, [], name) == grid
  {
    var r := Stamp(grid, [], name);
    forall y | 0 <= y < |grid|
      ensures r[y] == grid[y]
    {
    }
  }

  /** Writing one more square of a block. */
  lemma StampStep(grid: seq<seq<Square>>, width: nat, height: nat, coords: seq<Point>, i: int, name: string)
    requires Shaped(grid, width, height) && 0 <= i < |coords|
    requires 0 <= coords[i].x < width && 0 <= coords[i].y < height
    ensures var before := Stamp(grid, coords[..i], name); var p := coords[i];
      Stamp(grid, coords[..i + 1], name) == before[p.y := before[p.y][p.x := Some(name)]]
  {
    var before := Stamp(grid, coords[..i], name);
    var p := coords[i];
    var after := Stamp(grid, coords[..i + 1], name);
    var expected := before[p.y := before[p.y][p.x := Some(name)]];
    PrefixStep(coords, i);
    forall y | 0 <= y < height
      ensures after[y] == expected[y]
    {
      forall x | 0 <= x < width
        ensures after[y][x] == expected[y][x]
      {
        assert Point(x, y) in coords[..i + 1] <==> Point(x, y) in coords[..i] || Point(x, y) == p;
      }
    }
  }

  /** The block after `_moveDownIfPossible` moves it. */
  function Lowered(b: MovingBlock): MovingBlock {
    b.(y := b.y + 1)
  }

  /** The game (`TetrisCloneCore`). The landed squares are rows from the top;
      the moving block is missing only while a block is being attached. */
  class TetrisCloneCore {
    const width: nat
    const height: nat
    const initialLevel: int
    var landed: seq<seq<Square>>
    var moving: Option<MovingBlock>
    var blocksAttached: nat
    var status: Status

    /** The landed squares are `height` rows of `width`, and the moving block
        has a usable shape and rotation and either fits or is still wholly
        above the area. */
    ghost predicate Valid()
      reads this
    {
      Shaped(landed, width, height) && moving.Some? && BlockOk(moving.value) &&
      (Fits(landed, width, height, Coords(moving.value).value) || AboveArea(Coords(moving.value).value))
    }

    /** A game with nothing landed, playing, with a new block of the chosen
        shape. */
    constructor (width: nat, height: nat, initialLevel: int, firstShape: Shape)
      requires ShapeOk(firstShape)
      ensures Valid() && status == Playing && blocksAttached == 0
      ensures this.width == width && this.height == height && this.initialLevel == initialLevel
      ensures landed == Blank(height, width) && moving == Some(NewBlock(firstShape, width))
    {
      this.width := width;
      this.height := height;
      this.initialLevel := initialLevel;
      landed := Blank(height, width);
      moving := Some(NewBlock(firstShape, width));
      blocksAttached := 0;
      status := Playing;
      NewBlockHidden(firstShape, width);
    }

    /** `_setMovingBlockIfPossible`: the block copy replaces the moving block
        exactly when every one of its squares is allowed. */
    method SetMovingBlockIfPossible(copy: MovingBlock) returns (ok: bool)
      requires Valid() && status == Playing && BlockOk(copy)
      modifies this`moving
      ensures Valid()
      ensures ok <==> Fits(landed, width, height, Coords(copy).value)
      ensures moving == if ok then Some(copy) else old(moving)
    {
      var coords := Coords(copy).value;
      var i := 0;
      while i < |coords|
        invariant 0 <= i <= |coords|
        invariant forall j | 0 <= j < i :: SquareOk(landed, width, height, coords[j])
      {
        var p := coords[i];
        if p.x < 0 || p.x >= width || p.y >= height || (p.y >= 0 && landed[p.y][p.x] != None) {
          return false;
        }
        i := i + 1;
      }
      moving := Some(copy);
      return true;
    }

    /** `moveHorizontally`: while playing, the block moves `xDelta` columns
        when it fits there. */
    method MoveHorizontally(xDelta: int)
      requires Valid()
      modifies this`moving
      ensures Valid()
      ensures var b := old(moving).value; var moved := b.(x := b.x + xDelta);
        moving == if status == Playing && Fits(landed, width, height, Coords(moved).value) then Some(moved) else old(moving)
    {
      if status != Playing {
        return;
      }
      var b := moving.value;
      var _ := SetMovingBlockIfPossible(b.(x := b.x + xDelta));
    }

    /** `rotate`: while playing, the block goes to its next used rotation
        when it fits there. */
    method Rotate()
      requires Valid()
      modifies this`moving
      ensures Valid()
      ensures var b := old(moving).value; var turned := b.(rotation := NextRotation(b.rotation, b.shape.rotationCount));
        moving == if status == Playing && Fits(landed, width, height, Coords(turned).value) then Some(turned) else old(moving)
    {
      if status != Playing {
        return;
      }
      var b := moving.value;
      var _ := SetMovingBlockIfPossible(b.(rotation := NextRotation(b.rotation, b.shape.rotationCount)));
    }

    /** `_attachBlock`: the shape name goes into every square of the moving
        block, which must be wholly in the area; one more block is attached. */
    method AttachBlock()
      requires Valid() && InArea(Coords(moving.value).value)
      modifies this`landed, this`moving, this`blocksAttached
      ensures Shaped(landed, width, height)
      ensures landed == Stamp(old(landed), Coords(old(moving).value).value, old(moving).value.shape.name)
      ensures moving == None && blocksAttached == old(blocksAttached) + 1
    {
      var b := moving.value;
      var coords := Coords(b).value;
      assert coords[0].y >= 0;
      assert !AboveArea(coords);
      StampNothing(landed, b.shape.name);
      assert coords[..0] == [];
      var i := 0;
      while i < |coords|
        invariant 0 <= i <= |coords|
        invariant landed == Stamp(old(landed), coords[..i], b.shape.name)
        modifies this`landed
      {
        var p := coords[i];
        assert SquareOk(old(landed), width, height, p);
        StampStep(old(landed), width, height, coords, i, b.shape.name);
        landed := landed[p.y := landed[p.y][p.x := Some(b.shape.name)]];
        i := i + 1;
      }
      assert coords[..i] == coords;
      assert Shaped(landed, width, height);
      moving := None;
      blocksAttached := blocksAttached + 1;
    }

    /** `_wipeFullLines`: from the top down, each full row is spliced out and
        an empty row put on top. */
    method WipeFullLines()
      requires Shaped(landed, width, height)
      modifies this`landed
      ensures landed == Wiped(old(landed), width)
    {
      ghost var rows := landed;
      var y := 0;
      while y < height
        invariant 0 <= y <= height
        invariant landed == WipedUpTo(rows, y, width)
      {
        var cur := landed;
        WipeStep(rows, cur, y, width);
        if Full(cur[y]) {
          landed := [EmptyRow(width)] + (cur[..y] + cur[y + 1..]);
        }
        y := y + 1;
      }
      assert rows[..y] == rows && rows[y..] == [];
    }

    /** The landing branch of `moveDown`: the block is attached, full lines
        are wiped and a new block of the chosen shape appears. */
    method LandBlock(nextShape: Shape)
      requires Valid() && ShapeOk(nextShape) && InArea(Coords(moving.value).value)
      modifies this`landed, this`moving, this`blocksAttached
      ensures Valid()
      ensures var b := old(moving).value;
        landed == Wiped(Stamp(old(landed), Coords(b).value, b.shape.name), width)
      ensures moving == Some(NewBlock(nextShape, width)) && blocksAttached == old(blocksAttached) + 1
    {
      AttachBlock();
      WipeFullLines();
      WipedShaped(landed, width, height);
      NewBlockHidden(nextShape, width);
      moving := Some(NewBlock(nextShape, width));
    }

    /** `moveDown`: nothing while not playing. Otherwise the block moves one
        row down when it fits there; when the time is up and it cannot, a
        block wholly in the area is attached, full lines are wiped and a new
        block of the chosen shape appears, and a block still partly above the
        area ends the game. Reports whether the block moved. */
    method MoveDown(timeouted: bool, nextShape: Shape) returns (moved: bool)
      requires Valid() && ShapeOk(nextShape)
      modifies this`landed, this`moving, this`blocksAttached, this`status
      ensures Valid()
      ensures old(status) != Playing ==>
        !moved && moving == old(moving) && landed == old(landed) && status == old(status) && blocksAttached == old(blocksAttached)
      ensures old(status) == Playing ==>
        (moved <==> Fits(old(landed), width, height, Coords(Lowered(old(moving).value)).value))
      ensures old(status) == Playing && (moved || !timeouted) ==>
        landed == old(landed) && status == Playing && blocksAttached == old(blocksAttached) &&
        moving == if moved then Some(Lowered(old(moving).value)) else old(moving)
      ensures old(status) == Playing && !moved && timeouted && InArea(Coords(old(moving).value).value) ==>
        var b := old(moving).value;
        landed == Wiped(Stamp(old(landed), Coords(b).value, b.shape.name), width) &&
        moving == Some(NewBlock(nextShape, width)) && blocksAttached == old(blocksAttached) + 1 && status == Playing
      ensures old(status) == Playing && !moved && timeouted && !InArea(Coords(old(moving).value).value) ==>
        status == GameOver && landed == old(landed) && moving == old(moving) && blocksAttached == old(blocksAttached)
    {
      if status != Playing {
        return false;
      }
      moved := SetMovingBlockIfPossible(Lowered(moving.value));
      if timeouted && !moved {
        if InArea(Coords(moving.value).value) {
          LandBlock(nextShape);
        } else {
          status := GameOver;
        }
      }
    }
  }
}
