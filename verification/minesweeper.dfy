/** The minesweeper game (`minesweeper/js/core.js`): a `width` by `height`
    board of squares, each opened or not, mined or not, flagged or not; the
    mines are laid when the first square is opened, never on it; opening a
    square without mines around it opens its neighbours too. */
module Minesweeper {
  import opened Wrappers
  import opened Common

  datatype Pos = Pos(x: int, y: int)

  /** What the constructor throws. */
  datatype CreateError = TooManyMines

  predicate InBounds(p: Pos, width: int, height: int) {
    0 <= p.x < width && 0 <= p.y < height
  }

  /** `q` is one of the eight squares around `p`. */
  predicate Touches(p: Pos, q: Pos) {
    q != p && -1 <= q.x - p.x <= 1 && -1 <= q.y - p.y <= 1
  }

  /** The squares of the board. */
  function Grid(width: int, height: int): (g: set<Pos>)
    ensures forall p {:trigger p in g} :: p in g <==> InBounds(p, width, height)
  {
    var g := set x, y | 0 <= x < width && 0 <= y < height :: Pos(x, y);
    assert forall p: Pos {:trigger InBounds(p, width, height)} | InBounds(p, width, height) :: Pos(p.x, p.y) in g;
    g
  }

  /** Column `x` of a board `height` squares high. */
  function Column(x: int, height: int): (col: set<Pos>)
    ensures forall p {:trigger p in col} :: p in col <==> p.x == x && 0 <= p.y < height
  {
    var col := set y | 0 <= y < height :: Pos(x, y);
    assert forall p: Pos {:trigger p in col} | p.x == x && 0 <= p.y < height :: Pos(p.x, p.y) in col;
    col
  }

  lemma {:induction false} ColumnSize(x: int, height: int)
    requires 0 <= height
    ensures |Column(x, height)| == height
  {
    if height > 0 {
      ColumnSize(x, height - 1);
      assert Column(x, height) == Column(x, height - 1) + {Pos(x, height - 1)};
    } else {
      assert Column(x, height) == {};
    }
  }

  /** A board has `width * height` squares. */
  lemma {:induction false} GridSize(width: int, height: int)
    requires 0 <= width && 0 <= height
    ensures |Grid(width, height)| == width * height
  {
    if width > 0 {
      GridSize(width - 1, height);
      GridSplit(width, height);
      assert (width - 1) * height + height == width * height;
    } else {
      assert Grid(width, height) == {};
    }
  }

  /** A board is one column wider than the board without its last column. */
  lemma GridSplit(width: int, height: int)
    requires 0 < width && 0 <= height
    ensures |Grid(width, height)| == |Grid(width - 1, height)| + height
  {
    ColumnSize(width - 1, height);
    assert Grid(width, height) == Grid(width - 1, height) + Column(width - 1, height);
    assert Grid(width - 1, height) !! Column(width - 1, height);
  }

  /** The in-bounds cells of `s`, in order (the `filter` of `_getNeighbors`). */
  function InBoundsOnly(s: seq<Pos>, width: int, height: int): (r: seq<Pos>)
    ensures forall q {:trigger q in r} {:trigger q in s} :: q in r <==> q in s && InBounds(q, width, height)
  {
    if s == [] then []
    else (if InBounds(s[0], width, height) then [s[0]] else []) + InBoundsOnly(s[1..], width, height)
  }

  /** `_getNeighbors`: the squares around `p` that are on the board, starting
      at the top left and going round. */
  function Neighbors(p: Pos, width: int, height: int): (ns: seq<Pos>)
    ensures forall q {:trigger q in ns} {:trigger Touches(p, q)} :: q in ns <==> InBounds(q, width, height) && Touches(p, q)
  {
    var around := [Pos(p.x - 1, p.y - 1), Pos(p.x - 1, p.y), Pos(p.x - 1, p.y + 1), Pos(p.x, p.y + 1),
                   Pos(p.x + 1, p.y + 1), Pos(p.x + 1, p.y), Pos(p.x + 1, p.y - 1), Pos(p.x, p.y - 1)];
    assert forall q | Touches(p, q) :: q in around by {
      forall q | Touches(p, q)
        ensures q in around
      {
        assert q == Pos(p.x + (q.x - p.x), p.y + (q.y - p.y));
      }
    }
    InBoundsOnly(around, width, height)
  }

  /** How many listed squares are in `marked`. */
  function CountIn(s: seq<Pos>, marked: set<Pos>): (n: nat)
    ensures n <= |s|
  {
    if s == [] then 0
    else CountIn(s[..|s| - 1], marked) + (if s[|s| - 1] in marked then 1 else 0)
  }

  /** None of the listed squares is marked exactly when the count is zero. */
  lemma {:induction false} CountInZero(s: seq<Pos>, marked: set<Pos>)
    ensures CountIn(s, marked) == 0 <==> forall q | q in s :: q !in marked
  {
    if s != [] {
      var init := s[..|s| - 1];
      CountInZero(init, marked);
      assert forall q | q in s :: q in init || q == s[|s| - 1] by {
        forall q | q in s
          ensures q in init || q == s[|s| - 1]
        {
          var i :| 0 <= i < |s| && s[i] == q;
          if i < |s| - 1 {
            assert init[i] == q;
          }
        }
      }
    }
  }

  /** A square that is safe and has no mine around it. */
  ghost predicate Zero(q: Pos, mines: set<Pos>, width: int, height: int) {
    InBounds(q, width, height) && q !in mines &&
    forall n {:trigger Touches(q, n)} | InBounds(n, width, height) && Touches(q, n) :: n !in mines
  }

  /** A path along which opening spreads: squares of the board, each touching
      the next, all but the last with no mine around them. */
  ghost predicate IsSpread(path: seq<Pos>, mines: set<Pos>, width: int, height: int) {
    |path| > 0 &&
    (forall i | 0 <= i < |path| :: InBounds(path[i], width, height)) &&
    (forall i | 0 <= i < |path| - 1 :: Zero(path[i], mines, width, height) && Touches(path[i], path[i + 1]))
  }

  /** The squares that opening `start` reaches: those at the end of a
      spreading path from it. */
  ghost function Flood(mines: set<Pos>, width: int, height: int, start: Pos): set<Pos> {
    set q | q in Grid(width, height) &&
      exists path :: IsSpread(path, mines, width, height) && path[0] == start && path[|path| - 1] == q
  }

  /** Every opened square outside `pending` with no mine around it has all its
      neighbours opened. */
  ghost predicate ZeroClosed(openSquares: set<Pos>, mines: set<Pos>, width: int, height: int, pending: set<Pos>) {
    forall p, n {:trigger Touches(p, n)} | p in openSquares && p !in pending && Zero(p, mines, width, height) &&
                  InBounds(n, width, height) && Touches(p, n) :: n in openSquares
  }

  /** Every safe square is opened. */
  ghost predicate AllSafeOpened(openSquares: set<Pos>, mines: set<Pos>, width: int, height: int) {
    forall p {:trigger InBounds(p, width, height)} | InBounds(p, width, height) :: p in mines || p in openSquares
  }

  /** Opening never spreads onto a mine except when the square opened is
      one. */
  lemma FloodSafe(mines: set<Pos>, width: int, height: int, start: Pos)
    requires start !in mines
    ensures Flood(mines, width, height, start) !! mines
  {
    forall q | q in Flood(mines, width, height, start)
      ensures q !in mines
    {
      var path :| IsSpread(path, mines, width, height) && path[0] == start && path[|path| - 1] == q;
      if |path| > 1 {
        var k := |path| - 2;
        assert Zero(path[k], mines, width, height) && Touches(path[k], path[k + 1]);
      }
    }
  }

  /** The squares that opening the unflagged ones among the first `n` listed
      squares spreads to. */
  ghost function OpenedBy(ns: seq<Pos>, n: int, flagged: set<Pos>, mines: set<Pos>, width: int, height: int): set<Pos>
    requires 0 <= n <= |ns|
  {
    if n == 0 then {}
    else OpenedBy(ns, n - 1, flagged, mines, width, height) +
         (if ns[n - 1] in flagged then {} else Flood(mines, width, height, ns[n - 1]))
  }

  /** Every unflagged square of the board among the first `n` is opened. */
  lemma {:induction false} OpenedByHas(ns: seq<Pos>, n: int, j: int, flagged: set<Pos>, mines: set<Pos>,
                                       width: int, height: int)
    requires 0 <= j < n <= |ns| && ns[j] !in flagged && InBounds(ns[j], width, height)
    ensures ns[j] in OpenedBy(ns, n, flagged, mines, width, height)
  {
    if j == n - 1 {
      FloodHasStart(mines, width, height, ns[j]);
    } else {
      OpenedByHas(ns, n - 1, j, flagged, mines, width, height);
    }
  }

  /** The index of the first unflagged mine among the first `n` listed
      squares, or `n` when there is none. */
  ghost function FirstMine(ns: seq<Pos>, n: int, flagged: set<Pos>, mines: set<Pos>): (k: int)
    requires 0 <= n <= |ns|
    ensures 0 <= k <= n
    ensures k < n ==> ns[k] in mines && ns[k] !in flagged
    ensures forall j | 0 <= j < k :: ns[j] in flagged || ns[j] !in mines
  {
    if n == 0 then 0
    else
      var k := FirstMine(ns, n - 1, flagged, mines);
      if k < n - 1 || (ns[n - 1] in mines && ns[n - 1] !in flagged) then k else n
  }

  /** What calling `open` on each of the first `n` listed squares in turn,
      starting while playing, leaves behind. Still playing: everything the
      unflagged squares spread to has been opened. Won: every safe square is
      open, and so is every safe square they spread to, but no mine. Lost:
      the first unflagged mine among them was opened, together with what the
      squares before it spread to, and nothing after it. */
  ghost predicate OpenedInTurn(ns: seq<Pos>, n: int, before: set<Pos>, after: set<Pos>, status: Status,
                               mines: set<Pos>, flagged: set<Pos>, width: int, height: int)
    requires 0 <= n <= |ns|
  {
    (status == Playing ==> after == before + OpenedBy(ns, n, flagged, mines, width, height)) &&
    (status == Win ==>
       after == before + (OpenedBy(ns, n, flagged, mines, width, height) - mines) &&
       AllSafeOpened(after, mines, width, height)) &&
    (status == GameOver ==>
       var k := FirstMine(ns, n, flagged, mines);
       k < n && after == before + OpenedBy(ns, k + 1, flagged, mines, width, height))
  }

  /** One more `open` keeps `OpenedInTurn`: it does nothing once the game
      has stopped or on a flagged square, and otherwise opens what the square
      spreads to and sets the status as `open` does. */
  lemma OpenedInTurnStep(ns: seq<Pos>, i: int, start: set<Pos>, before: set<Pos>, was: Status,
                         after: set<Pos>, now: Status, mines: set<Pos>, flagged: set<Pos>, width: int, height: int)
    requires 0 <= i < |ns| && forall j | 0 <= j <= i :: InBounds(ns[j], width, height)
    requires OpenedInTurn(ns, i, start, before, was, mines, flagged, width, height)
    requires was == Playing ==> before !! mines
    requires was != Playing || ns[i] in flagged ==> after == before && now == was
    requires was == Playing && ns[i] !in flagged ==>
      after == before + Flood(mines, width, height, ns[i]) &&
      now == if ns[i] in mines then GameOver else if AllSafeOpened(after, mines, width, height) then Win else Playing
    requires was == Playing && (exists j | 0 <= j < i :: ns[j] !in flagged) ==>
      !AllSafeOpened(before, mines, width, height)
    ensures OpenedInTurn(ns, i + 1, start, after, now, mines, flagged, width, height)
    ensures now == Playing && (exists j | 0 <= j < i + 1 :: ns[j] !in flagged) ==>
      !AllSafeOpened(after, mines, width, height)
    ensures now == Playing ==> after !! mines
  {
    var q := ns[i];
    var done := OpenedBy(ns, i, flagged, mines, width, height);
    var next := OpenedBy(ns, i + 1, flagged, mines, width, height);
    assert next == done + (if q in flagged then {} else Flood(mines, width, height, q));
    if was == Win {
      forall p | p in next - mines
        ensures p in after
      {
        if p !in done {
          assert InBounds(p, width, height);
        }
      }
    } else if was == Playing && q !in flagged {
      if now == GameOver {
        var k := FirstMine(ns, i, flagged, mines);
        if k < i {
          OpenedByHas(ns, i, k, flagged, mines, width, height);
          assert false;
        }
      } else {
        FloodSafe(mines, width, height, q);
        if now == Win {
          assert next !! mines;
          assert next - mines == next;
        }
      }
    }
  }

  /** What `open` does to the uncovered squares and the status once the mines
      are laid: nothing after the game has stopped or on a flagged square;
      otherwise it opens everything the square spreads to, loses on a mine
      and wins once no safe square is left closed. */
  ghost function OpenStep(uncovered: set<Pos>, status: Status, q: Pos, mines: set<Pos>, flagged: set<Pos>,
                          width: int, height: int): (r: (set<Pos>, Status))
  {
    if status != Playing || q in flagged then (uncovered, status)
    else
      var after := uncovered + Flood(mines, width, height, q);
      (after, if q in mines then GameOver else if AllSafeOpened(after, mines, width, height) then Win else Playing)
  }

  /** `open` on each of the first `n` listed squares in turn. */
  ghost function OpenSeq(ns: seq<Pos>, n: int, uncovered: set<Pos>, status: Status, mines: set<Pos>,
                         flagged: set<Pos>, width: int, height: int): (r: (set<Pos>, Status))
    requires 0 <= n <= |ns|
  {
    if n == 0 then (uncovered, status)
    else
      var prev := OpenSeq(ns, n - 1, uncovered, status, mines, flagged, width, height);
      OpenStep(prev.0, prev.1, ns[n - 1], mines, flagged, width, height)
  }

  /** Opening the listed squares in turn from a playing board without an
      opened mine ends as `OpenedInTurn` says. While the game goes on, no
      unflagged square among them is a mine, and once one of them has been
      opened some safe square is still closed. */
  lemma {:induction false} OpenSeqOutcome(ns: seq<Pos>, n: int, start: set<Pos>, mines: set<Pos>,
                                          flagged: set<Pos>, width: int, height: int)
    requires 0 <= n <= |ns| && forall j | 0 <= j < n :: InBounds(ns[j], width, height)
    requires start !! mines
    ensures var r := OpenSeq(ns, n, start, Playing, mines, flagged, width, height);
      && OpenedInTurn(ns, n, start, r.0, r.1, mines, flagged, width, height)
      && (r.1 == Playing ==> r.0 !! mines)
      && (r.1 == Playing ==> forall j | 0 <= j < n && ns[j] !in flagged :: ns[j] !in mines)
      && (r.1 == Playing && (exists j | 0 <= j < n :: ns[j] !in flagged) ==> !AllSafeOpened(r.0, mines, width, height))
  {
    var r := OpenSeq(ns, n, start, Playing, mines, flagged, width, height);
    if n > 0 {
      var prev := OpenSeq(ns, n - 1, start, Playing, mines, flagged, width, height);
      OpenSeqOutcome(ns, n - 1, start, mines, flagged, width, height);
      OpenedInTurnStep(ns, n - 1, start, prev.0, prev.1, r.0, r.1, mines, flagged, width, height);
    }
    if r.1 == Playing {
      forall j | 0 <= j < n && ns[j] !in flagged
        ensures ns[j] !in mines
      {
        OpenedByHas(ns, n, j, flagged, mines, width, height);
      }
    }
  }

  /** What `toggleFlag` does to the flags of an unopened square. */
  function Toggled(flagged: set<Pos>, p: Pos): (r: set<Pos>)
    ensures p in r <==> p !in flagged
    ensures forall q | q != p :: q in r <==> q in flagged
  {
    if p in flagged then flagged - {p} else flagged + {p}
  }

  /** Two toggles restore the flags. */
  lemma ToggledTwice(flagged: set<Pos>, p: Pos)
    ensures Toggled(Toggled(flagged, p), p) == flagged
  {
  }

  /** A square opens itself. */
  lemma FloodHasStart(mines: set<Pos>, width: int, height: int, start: Pos)
    requires InBounds(start, width, height)
    ensures start in Flood(mines, width, height, start)
  {
    assert IsSpread([start], mines, width, height);
  }

  /** Opening spreads from a square with no mine around it to each of its
      neighbours. */
  lemma FloodStep(mines: set<Pos>, width: int, height: int, a: Pos, n: Pos)
    requires Zero(a, mines, width, height) && InBounds(n, width, height) && Touches(a, n)
    ensures Flood(mines, width, height, n) <= Flood(mines, width, height, a)
  {
    forall q | q in Flood(mines, width, height, n)
      ensures q in Flood(mines, width, height, a)
    {
      var path :| IsSpread(path, mines, width, height) && path[0] == n && path[|path| - 1] == q;
      var longer := [a] + path;
      assert forall i | 1 <= i < |longer| :: longer[i] == path[i - 1];
      assert IsSpread(longer, mines, width, height);
    }
  }

  /** Opening does not spread from a square with a mine around it. */
  lemma FloodStops(mines: set<Pos>, width: int, height: int, start: Pos)
    requires !Zero(start, mines, width, height)
    ensures Flood(mines, width, height, start) <= {start}
  {
    forall q | q in Flood(mines, width, height, start)
      ensures q == start
    {
      var path :| IsSpread(path, mines, width, height) && path[0] == start && path[|path| - 1] == q;
      if |path| > 1 {
        assert false;
      }
    }
  }

  /** Opened squares closed under spreading contain everything opening any of
      them would open. */
  lemma {:induction false} ZeroClosedContainsFlood(openSquares: set<Pos>, mines: set<Pos>, width: int, height: int,
                                                   start: Pos)
    requires ZeroClosed(openSquares, mines, width, height, {}) && start in openSquares
    ensures Flood(mines, width, height, start) <= openSquares
  {
    forall q | q in Flood(mines, width, height, start)
      ensures q in openSquares
    {
      var path :| IsSpread(path, mines, width, height) && path[0] == start && path[|path| - 1] == q;
      var i := 0;
      while i < |path| - 1
        invariant 0 <= i < |path| && path[i] in openSquares
      {
        assert Zero(path[i], mines, width, height) && Touches(path[i], path[i + 1]);
        assert InBounds(path[i + 1], width, height);
        i := i + 1;
      }
    }
  }

  /** The listed squares around `p` include a mine exactly when `p` is not a
      zero square (for a safe square on the board). */
  lemma CountZero(p: Pos, mines: set<Pos>, width: int, height: int)
    requires InBounds(p, width, height) && p !in mines
    ensures CountIn(Neighbors(p, width, height), mines) == 0 <==> Zero(p, mines, width, height)
  {
    var ns := Neighbors(p, width, height);
    CountInZero(ns, mines);
    if CountIn(ns, mines) == 0 {
      forall n | InBounds(n, width, height) && Touches(p, n)
        ensures n !in mines
      {
        assert n in ns;
      }
    } else {
      var q :| q in ns && q in mines;
      assert InBounds(q, width, height) && Touches(p, q);
    }
  }

  lemma CountStep(s: seq<Pos>, marked: set<Pos>, i: int)
    requires 0 <= i < |s|
    ensures CountIn(s[..i + 1], marked) == CountIn(s[..i], marked) + (if s[i] in marked then 1 else 0)
  {
    assert s[..i + 1][..i] == s[..i];
  }

  class Game {
    const width: int
    const height: int
    const mineCount: int
    /** The squares opened, mined and flagged (the three flags of each square
        record). */
    var openSquares: set<Pos>
    var mines: set<Pos>
    var flagged: set<Pos>
    var minesAdded: bool
    var status: Status

    /** The mines are laid once, with the first opening, and are as many as
        asked for; while playing, no opened square is a mine and opening has
        spread as far as it goes. */
    ghost predicate Valid()
      reads this
    {
      openSquares <= Grid(width, height) && mines <= Grid(width, height) && flagged <= Grid(width, height) &&
      mineCount <= width * height - 1 &&
      (!minesAdded ==> openSquares == {} && mines == {}) &&
      (minesAdded ==> |mines| == (if mineCount < 0 then 0 else mineCount)) &&
      (status == Playing ==> openSquares !! mines && ZeroClosed(openSquares, mines, width, height, {}))
    }

    /** The board without mines, nothing opened or flagged, playing. */
    constructor (width: int, height: int, mineCount: int)
      requires mineCount <= width * height - 1
      ensures Valid() && status == Playing && !minesAdded
      ensures this.width == width && this.height == height && this.mineCount == mineCount
      ensures openSquares == {} && mines == {} && flagged == {}
    {
      this.width := width;
      this.height := height;
      this.mineCount := mineCount;
      openSquares := {};
      mines := {};
      flagged := {};
      minesAdded := false;
      status := Playing;
    }

    /** `_countNeighborMines`. */
    method CountNeighborMines(p: Pos) returns (count: nat)
      ensures count == CountIn(Neighbors(p, width, height), mines)
    {
      var ns := Neighbors(p, width, height);
      count := 0;
      var i := 0;
      while i < |ns|
        invariant 0 <= i <= |ns|
        invariant count == CountIn(ns[..i], mines)
      {
        CountStep(ns, mines, i);
        if ns[i] in mines {
          count := count + 1;
        }
        i := i + 1;
      }
      assert ns[..|ns|] == ns;
    }

    /** `_addMines`: lays `mineCount` mines one by one, each on a square that
        is neither opened nor mined yet. The only opened square is the one
        being opened first, so there is always room. */
    method AddMines(first: Pos)
      requires InBounds(first, width, height) && openSquares == {first} && mines == {}
      requires mineCount <= width * height - 1
      modifies this`mines
      ensures mines <= Grid(width, height) && first !in mines
      ensures |mines| == if mineCount < 0 then 0 else mineCount
    {
      GridSize(width, height);
      var mined := 0;
      while mined < mineCount
        invariant mines <= Grid(width, height) && first !in mines
        invariant |mines| == mined && 0 <= mined
        invariant mined <= if mineCount < 0 then 0 else mineCount
        decreases mineCount - mined
      {
        assert |mines + {first}| == mined + 1;
        SomethingLeft(mines + {first}, Grid(width, height));
        var p :| p in Grid(width, height) && p !in mines + {first};
        mines := mines + {p};
        mined := mined + 1;
      }
    }

    /** `_openRecurser`: opens `xy` unless it is open already; the first
        opening lays the mines; opening a mine ends the game, and opening a
        square with no mine around it opens its neighbours. `pending` holds
        the squares whose neighbours are still being opened further up. */
    method OpenRecurser(xy: Pos, ghost pending: set<Pos>)
      requires InBounds(xy, width, height) && status == Playing
      requires openSquares <= Grid(width, height) && mines <= Grid(width, height)
      requires mineCount <= width * height - 1
      requires !minesAdded ==> openSquares == {} && mines == {}
      requires minesAdded ==> |mines| == (if mineCount < 0 then 0 else mineCount) && openSquares !! mines
      requires ZeroClosed(openSquares, mines, width, height, pending)
      modifies this`openSquares, this`mines, this`minesAdded, this`status
      ensures minesAdded && openSquares <= Grid(width, height) && mines <= Grid(width, height)
      ensures |mines| == (if mineCount < 0 then 0 else mineCount)
      ensures old(minesAdded) ==> mines == old(mines)
      ensures !old(minesAdded) ==> xy !in mines
      ensures old(openSquares) + {xy} <= openSquares <= old(openSquares) + Flood(mines, width, height, xy)
      ensures status == if xy in mines then GameOver else Playing
      ensures status == Playing ==> openSquares !! mines && ZeroClosed(openSquares, mines, width, height, pending)
      decreases Grid(width, height) - openSquares, 1
    {
      if xy in openSquares {
        FloodHasStart(mines, width, height, xy);
        return;
      }
      openSquares := openSquares + {xy};
      if !minesAdded {
        AddMines(xy);
        minesAdded := true;
      }
      FloodHasStart(mines, width, height, xy);
      if xy in mines {
        status := GameOver;
        return;
      }
      var count := CountNeighborMines(xy);
      CountZero(xy, mines, width, height);
      if count == 0 {
        OpenNeighbors(xy, pending);
      }
    }

    /** The loop of `_openRecurser` over the neighbours of a just opened
        square with no mine around it. */
    method OpenNeighbors(xy: Pos, ghost pending: set<Pos>)
      requires InBounds(xy, width, height) && status == Playing && minesAdded
      requires xy in openSquares && Zero(xy, mines, width, height)
      requires openSquares <= Grid(width, height) && mines <= Grid(width, height)
      requires mineCount <= width * height - 1
      requires |mines| == (if mineCount < 0 then 0 else mineCount) && openSquares !! mines
      requires ZeroClosed(openSquares, mines, width, height, pending + {xy})
      modifies this`openSquares, this`mines, this`minesAdded, this`status
      ensures minesAdded && mines == old(mines) && status == Playing
      ensures old(openSquares) <= openSquares <= old(openSquares) + Flood(mines, width, height, xy)
      ensures openSquares <= Grid(width, height) && openSquares !! mines
      ensures ZeroClosed(openSquares, mines, width, height, pending)
      decreases Grid(width, height) - (openSquares - {xy}), 0
    {
      ghost var start := openSquares;
      var ns := Neighbors(xy, width, height);
      var i := 0;
      while i < |ns|
        invariant 0 <= i <= |ns|
        invariant minesAdded && mines == old(mines) && status == Playing
        invariant start <= openSquares <= start + Flood(mines, width, height, xy)
        invariant openSquares <= Grid(width, height) && openSquares !! mines
        invariant forall q | q in ns[..i] :: q in openSquares
        invariant ZeroClosed(openSquares, mines, width, height, pending + {xy})
      {
        assert ns[i] in ns;
        FloodStep(mines, width, height, xy, ns[i]);
        assert ns[i] !in mines;
        assert xy in Grid(width, height) - (start - {xy}) && xy !in Grid(width, height) - openSquares;
        OpenRecurser(ns[i], pending + {xy});
        PrefixStep(ns, i);
        i := i + 1;
      }
      assert ns[..i] == ns;
      forall n | InBounds(n, width, height) && Touches(xy, n)
        ensures n in openSquares
      {
        assert n in ns;
      }
    }

    /** `open`: nothing happens when the game is over or the square is
        flagged. Otherwise the square and everything it spreads to is opened,
        laying the mines first if nothing was open; a mine ends the game, and
        the game is won once every safe square is open. */
    method Open(xy: Pos)
      requires Valid() && InBounds(xy, width, height)
      modifies this`openSquares, this`mines, this`minesAdded, this`status
      ensures Valid()
      ensures old(status) != Playing || xy in flagged ==>
        openSquares == old(openSquares) && mines == old(mines) && status == old(status) && minesAdded == old(minesAdded)
      ensures old(status) == Playing && xy !in flagged ==>
        minesAdded &&
        (old(minesAdded) ==> mines == old(mines)) &&
        (!old(minesAdded) ==> xy !in mines) &&
        openSquares == old(openSquares) + Flood(mines, width, height, xy) &&
        status == if xy in mines then GameOver
                  else if AllSafeOpened(openSquares, mines, width, height) then Win
                  else Playing
    {
      if status != Playing || xy in flagged {
        return;
      }
      OpenRecurser(xy, {});
      if status == GameOver {
        CountZeroMine(xy);
        FloodStops(mines, width, height, xy);
        return;
      }
      ZeroClosedContainsFlood(openSquares, mines, width, height, xy);
      var safeLeft := SafeSquareLeft();
      if !safeLeft {
        status := Win;
      }
    }

    /** A mined square is not a zero square. */
    lemma CountZeroMine(xy: Pos)
      requires xy in mines
      ensures !Zero(xy, mines, width, height)
    {
    }

    /** The search of `open` for a safe square that is still closed. */
    method SafeSquareLeft() returns (found: bool)
      ensures found <==> !AllSafeOpened(openSquares, mines, width, height)
    {
      var x := 0;
      while x < width
        invariant x <= width || width < 0
        invariant forall p {:trigger InBounds(p, width, height)} | InBounds(p, width, height) && p.x < x :: p in mines || p in openSquares
      {
        var y := 0;
        while y < height
          invariant y <= height || height < 0
          invariant forall p {:trigger InBounds(p, width, height)} | InBounds(p, width, height) && p.x < x :: p in mines || p in openSquares
          invariant forall p {:trigger InBounds(p, width, height)} | InBounds(p, width, height) && p.x == x && p.y < y :: p in mines || p in openSquares
        {
          var p := Pos(x, y);
          if p !in mines && p !in openSquares {
            assert InBounds(p, width, height);
            return true;
          }
          y := y + 1;
        }
        x := x + 1;
      }
      return false;
    }

    /** `toggleFlag`: flips the flag of an unopened square while playing. */
    method ToggleFlag(xy: Pos)
      requires Valid() && InBounds(xy, width, height)
      modifies this`flagged
      ensures Valid()
      ensures flagged == if old(status) == Playing && xy !in openSquares then Toggled(old(flagged), xy) else old(flagged)
    {
      if status != Playing || xy in openSquares {
        return;
      }
      flagged := Toggled(flagged, xy);
    }

    /** `openAroundIfSafe`: on an opened square while playing, when as many
        flags as mines are around it, calls `open` on every neighbour in
        turn, which leaves the board as `OpenedInTurn` says. Otherwise
        nothing happens. */
    method OpenAroundIfSafe(xy: Pos)
      requires Valid() && InBounds(xy, width, height)
      modifies this`openSquares, this`mines, this`minesAdded, this`status
      ensures Valid() && mines == old(mines)
      ensures var ns := Neighbors(xy, width, height);
        if old(status) == Playing && xy in old(openSquares) && CountIn(ns, old(mines)) == CountIn(ns, flagged) then
          (openSquares, status) == OpenSeq(ns, |ns|, old(openSquares), Playing, mines, flagged, width, height) &&
          OpenedInTurn(ns, |ns|, old(openSquares), openSquares, status, mines, flagged, width, height) &&
          (status == Playing ==> forall n | InBounds(n, width, height) && Touches(xy, n) :: n in flagged || n !in mines)
        else
          openSquares == old(openSquares) && status == old(status)
    {
      if status != Playing || xy !in openSquares {
        return;
      }
      var ns := Neighbors(xy, width, height);
      var neighborMines, neighborFlags := CountAround(ns);
      if neighborMines == neighborFlags {
        ghost var start := openSquares;
        OpenEach(ns);
        OpenSeqOutcome(ns, |ns|, start, mines, flagged, width, height);
        if status == Playing {
          forall n | InBounds(n, width, height) && Touches(xy, n)
            ensures n in flagged || n !in mines
          {
            assert n in ns;
            var j :| 0 <= j < |ns| && ns[j] == n;
          }
        }
      }
    }

    /** The counting loop of `openAroundIfSafe`: the mines and the flags among
        the listed squares. */
    method CountAround(ns: seq<Pos>) returns (neighborMines: nat, neighborFlags: nat)
      ensures neighborMines == CountIn(ns, mines) && neighborFlags == CountIn(ns, flagged)
    {
      neighborMines, neighborFlags := 0, 0;
      var i := 0;
      while i < |ns|
        invariant 0 <= i <= |ns|
        invariant neighborMines == CountIn(ns[..i], mines) && neighborFlags == CountIn(ns[..i], flagged)
      {
        CountStep(ns, mines, i);
        CountStep(ns, flagged, i);
        if ns[i] in mines {
          neighborMines := neighborMines + 1;
        }
        if ns[i] in flagged {
          neighborFlags := neighborFlags + 1;
        }
        i := i + 1;
      }
      assert ns[..|ns|] == ns;
    }

    /** The opening loop of `openAroundIfSafe`: `open` on each listed square
        in turn. */
    method OpenEach(ns: seq<Pos>)
      requires Valid() && minesAdded && status == Playing
      requires forall q | q in ns :: InBounds(q, width, height)
      modifies this`openSquares, this`mines, this`minesAdded, this`status
      ensures Valid() && minesAdded && mines == old(mines)
      ensures (openSquares, status) == OpenSeq(ns, |ns|, old(openSquares), Playing, mines, flagged, width, height)
    {
      ghost var start := openSquares;
      var i := 0;
      while i < |ns|
        invariant 0 <= i <= |ns|
        invariant Valid() && minesAdded && mines == old(mines)
        invariant (openSquares, status) == OpenSeq(ns, i, start, Playing, mines, flagged, width, height)
      {
        assert ns[i] in ns;
        Open(ns[i]);
        i := i + 1;
      }
    }
  }

  /** `new Game(width, height, mineCount)`: too many mines is an error;
      otherwise a board with no mine yet and nothing opened or flagged. */
  method Create(width: int, height: int, mineCount: int) returns (r: Result<Game, CreateError>)
    ensures r.Err? <==> mineCount > width * height - 1
    ensures r.Ok? ==> fresh(r.value) && r.value.Valid() && r.value.status == Playing
    ensures r.Ok? ==> r.value.width == width && r.value.height == height && r.value.mineCount == mineCount
    ensures r.Ok? ==> r.value.openSquares == {} && r.value.mines == {} && r.value.flagged == {}
  {
    if mineCount > width * height - 1 {
      return Err(TooManyMines);
    }
    var g := new Game(width, height, mineCount);
    return Ok(g);
  }
}
