/** The earliest bubble shooter (`bubbleshooter.py`): a `BubbleManager` that
    holds only colours and has no status of its own (the end of the game is
    a raised `GameOverError`), and a `Shooter` that counts the shots and
    keeps the waiting colour. */
module LegacyBubbles {
  import opened HexGrid
  import opened FloodFill
  import opened BubbleField
  import opened BubbleGame
  import opened Wrappers

  /** `NEW_ROW_FREQUENCY`. */
  const NewRowFrequency: int := 5

  /** What `attach_bubble` reports. */
  datatype AttachResult = NotAttached | Attached | AttachedAndBubblesDestroyed

  /** What it raises: `GameOverError` once a bubble sits on row `y_limit` or
      below it, and the `ValueError` of `min` over an empty list of places
      when the whole scan area is occupied. */
  datatype Failure = GameOverError | NoPlaceLeft

  /** The outcome of attaching `color` at the empty cell `c`: the cluster of
      `c` is deleted when it has 3 or more cells, and then the loose bubbles
      are. */
  ghost predicate LegacyAttachedAt(before: Field, c: Cell, color: Color, xLimit: int,
                                   after: Field, result: AttachResult)
  {
    var placed := before[c := color];
    var cluster := Cluster(placed, c);
    if |cluster| >= 3 then
      result == AttachedAndBubblesDestroyed && after == Prune(placed - cluster, xLimit)
    else
      result == Attached && after == Prune(placed, xLimit)
  }

  /** The colours `add_bubble_row` injects: the given ones, or by default the
      colours still on the field. */
  function RowColors(f: Field, colors: Option<set<Color>>): (chosen: set<Color>)
    ensures colors.None? ==> forall col :: col in chosen <==> exists c :: c in f && f[c] == col
    ensures colors.Some? ==> chosen == colors.value
  {
    if colors.Some? then colors.value else UsedColors(f)
  }

  /** How many rows `add_bubble_row` injects (`how_many_rows`);
      `LegacyRowsCountMissing` says what the count means. */
  function LegacyRowsToAdd(colors: set<Color>): int {
    if colors == {} then 0 else RowsToAdd(|colors|)
  }

  /** No row without colours; otherwise one for the colours present and one
      more per missing palette colour. */
  lemma LegacyRowsCountMissing(colors: set<Color>)
    requires colors <= Palette
    ensures LegacyRowsToAdd(colors) == 0 <==> colors == {}
    ensures colors != {} ==> LegacyRowsToAdd(colors) == |Palette - colors| + 1
  {
    RowsToAddCountsMissing(colors);
  }

  class BubbleManager {
    const xLimit: int
    const yLimit: int
    /** `_attached_bubbles`: cell to colour. */
    var field: Field

    ghost predicate Valid()
      reads this
    {
      0 <= xLimit && 0 <= yLimit && WellFormed(field, xLimit) && PaletteColors(field)
    }

    /** `BubbleManager(x_limit, y_limit)`: `y_limit // 2` injections of the
        whole palette into the empty field, each adding one full row; none
        of them can end the game. */
    constructor (xLimit: int, yLimit: int)
      requires 0 <= xLimit && 0 <= yLimit
      ensures Valid() && this.xLimit == xLimit && this.yLimit == yLimit
      ensures FullRows(field, xLimit, yLimit / 2)
    {
      this.xLimit := xLimit;
      this.yLimit := yLimit;
      field := map[];
      new;
      PaletteSizeIsSize();
      var i := 0;
      while i < yLimit / 2
        invariant 0 <= i <= yLimit / 2
        invariant Valid() && FullRows(field, xLimit, i)
        modifies this`field
      {
        ghost var prev := field;
        var r := AddBubbleRow(Some(Palette));
        ghost var mid :| RowsInjected(prev, mid, 1, Palette, xLimit) && field == Prune(mid, xLimit);
        FullRowsGrow(prev, mid, Palette, xLimit, i);
        FullRowsNoLoose(mid, xLimit, i + 1);
        PruneNoLooseUnchanged(mid, xLimit);
        assert Below(field, yLimit);
        assert r.Ok?;
        i := i + 1;
      }
    }

    /** `_remove_loose_bubbles`: marks what hangs from row 0, deletes the
        rest, and starts over while a pass deleted something. */
    method RemoveLooseBubbles()
      requires Valid()
      modifies this`field
      ensures Valid()
      ensures field == Prune(old(field), xLimit)
      decreases field.Keys
    {
      ghost var start := field;
      var notLoose := AnchoredCells(field, xLimit);
      var didSomething := DeleteAllBut(notLoose);
      SubmapSound(start, field, xLimit);
      PruneIs(start, field, xLimit);
      if didSomething {
        RemoveLooseBubbles();
        PruneIdempotent(start, xLimit);
      }
    }

    /** The deleting loop of `_remove_loose_bubbles`: deletes every occupied
        cell outside `keep`, in some order; the result tells whether any
        was. */
    method DeleteAllBut(keep: set<Cell>) returns (didSomething: bool)
      modifies this`field
      ensures field.Keys == old(field).Keys * keep
      ensures forall c | c in field :: field[c] == old(field)[c]
      ensures didSomething <==> !(old(field).Keys <= keep)
    {
      ghost var start := field;
      var todo := field.Keys - keep;
      didSomething := false;
      while todo != {}
        invariant todo <= start.Keys - keep
        invariant field.Keys == start.Keys * keep + todo
        invariant forall c | c in field :: field[c] == start[c]
        invariant didSomething <==> todo != start.Keys - keep
        decreases todo
      {
        HasCell(todo);
        var c :| c in todo;
        field := field - {c};
        todo := todo - {c};
        didSomething := true;
      }
    }

    /** `_check_game_over`: game over exactly when some bubble sits on row
        `y_limit` or below it. Its assertions on the columns and rows hold on
        a valid manager. */
    method CheckGameOver() returns (over: bool)
      requires Valid()
      ensures over <==> !Below(field, yLimit)
    {
      var keys := KeyList(field);
      var r := ScanRows(keys, xLimit, yLimit);
      assert forall j | 0 <= j < |keys| :: keys[j] in field;
      assert r.Ok?;
      over := r.value;
      if over {
        var j :| 0 <= j < |keys| && keys[j].y >= yLimit;
        assert keys[j] in field;
      } else {
        forall c | c in field
          ensures c.y < yLimit
        {
          assert c in Elems(keys);
        }
      }
    }

    /** One injected row: every bubble one row down, then row 0 filled with
        colours drawn from `colors`. */
    method InjectRow(colors: set<Color>)
      requires colors != {} && 0 <= xLimit && WellFormed(field, xLimit)
      modifies this`field
      ensures RowsInjected(old(field), field, 1, colors, xLimit)
    {
      HasColor(colors);
      ghost var prev := field;
      field := ShiftDown(field);
      ghost var shifted := field;
      var x := 0;
      while x < xLimit
        invariant 0 <= x <= xLimit
        invariant forall c {:trigger c in field} :: c in field <==> c in shifted || (c.y == 0 && 0 <= c.x < x)
        invariant forall c {:trigger field[c]} | c in field && c.y != 0 :: field[c] == shifted[c]
        invariant forall c {:trigger field[c]} | c in field && c.y == 0 :: field[c] in colors
      {
        var color :| color in colors;
        field := field[Cell(x, 0) := color];
        x := x + 1;
      }
      ShiftedRowInjected(prev, field, colors, xLimit);
    }

    /** `add_bubble_row`: injects `LegacyRowsToAdd` rows in the chosen
        colours, removes the loose bubbles and raises `GameOverError` when a
        bubble ends up on row `y_limit` or below it. */
    method AddBubbleRow(colors: Option<set<Color>>) returns (r: Result<(), Failure>)
      requires Valid()
      requires colors.Some? ==> colors.value <= Palette
      modifies this`field
      ensures Valid()
      ensures exists mid :: RowsInjected(old(field), mid, LegacyRowsToAdd(RowColors(old(field), colors)),
                                         RowColors(old(field), colors), xLimit) &&
                            field == Prune(mid, xLimit)
      ensures r == Err(GameOverError) <==> !Below(field, yLimit)
      ensures r.Ok? || r == Err(GameOverError)
    {
      var chosen := if colors.Some? then colors.value else UsedColors(field);
      var howManyRows := if chosen != {} then PaletteSize - |chosen| + 1 else 0;
      RowsToAddPositive(chosen);
      ghost var start := field;
      RowsInjectedZero(field, chosen, xLimit);
      var i := 0;
      while i < howManyRows
        invariant 0 <= i <= howManyRows
        invariant RowsInjected(start, field, i, chosen, xLimit)
        invariant Valid()
      {
        ghost var prev := field;
        InjectRow(chosen);
        RowsInjectedStep(start, prev, field, i, chosen, xLimit);
        RowsInjectedWellFormed(start, field, i + 1, chosen, xLimit);
        i := i + 1;
      }
      ghost var mid := field;
      RemoveLooseBubbles();
      assert chosen == RowColors(start, colors) && howManyRows == LegacyRowsToAdd(chosen);
      assert RowsInjected(start, mid, howManyRows, chosen, xLimit) && field == Prune(mid, xLimit);
      var over := CheckGameOver();
      r := if over then Err(GameOverError) else Ok(());
    }

    /** `attach_bubble`: when the shot bubble does not yet touch the ceiling
        or another bubble (`eligible` is false) nothing changes and the result
        is `NotAttached`. Otherwise the colour goes to the first nearest
        empty cell of columns `0..x_limit-1` and rows `0..y_limit`, its
        cluster is deleted when it has 3 or more cells, loose bubbles are
        deleted, and `GameOverError` is raised when a bubble ends up on row
        `y_limit` or below it. `dist` stands for the distance from the shot
        bubble to each cell's centre. */
    method AttachBubble(color: Color, eligible: bool, dist: Cell -> real) returns (r: Result<AttachResult, Failure>)
      requires Valid() && color in Palette
      modifies this`field
      ensures Valid()
      ensures !eligible ==> r == Ok(NotAttached) && field == old(field)
      ensures r == Err(NoPlaceLeft) <==> eligible && forall d | InScanArea(d, xLimit, yLimit) :: d in old(field)
      ensures r == Err(NoPlaceLeft) ==> field == old(field)
      ensures eligible && r != Err(NoPlaceLeft) ==>
        (r == Err(GameOverError) <==> !Below(field, yLimit)) &&
        exists c, result :: IsFirstNearest(old(field), dist, c, xLimit, yLimit) &&
                            LegacyAttachedAt(old(field), c, color, xLimit, field, result) &&
                            (r.Ok? ==> r.value == result)
    {
      if !eligible {
        return Ok(NotAttached);
      }
      var nearest := NearestEmptyCell(field, dist, xLimit, yLimit);
      if nearest.None? {
        return Err(NoPlaceLeft);
      }
      var c := nearest.value;
      ghost var before := field;
      field := field[c := color];
      ghost var placed := field;
      var sameColor := SameColorComponent(field, c);
      ClusterInField(field, c);
      DistinctSize(sameColor);
      var result;
      if |sameColor| >= 3 {
        DeleteCells(sameColor);
        result := AttachedAndBubblesDestroyed;
      } else {
        result := Attached;
      }
      SubmapSound(placed, field, xLimit);
      RemoveLooseBubbles();
      var over := CheckGameOver();
      r := if over then Err(GameOverError) else Ok(result);
      assert LegacyAttachedAt(before, c, color, xLimit, field, result);
    }

    /** The deleting loop over `same_color`: deletes the listed cells. */
    method DeleteCells(cells: seq<Cell>)
      requires Elems(cells) <= field.Keys
      modifies this`field
      ensures field == old(field) - Elems(cells)
    {
      ghost var start := field;
      var i := 0;
      while i < |cells|
        invariant 0 <= i <= |cells|
        invariant field == start - Elems(cells[..i])
      {
        ElemsSnoc(cells[..i], cells[i]);
        assert cells[..i + 1] == cells[..i] + [cells[i]];
        field := field - {cells[i]};
        i := i + 1;
      }
      assert cells[..|cells|] == cells;
    }
  }

  /** The shooter's bookkeeping: the colour of the waiting bubble and the
      shot counter. */
  class Shooter {
    var nextColor: Color
    var shootCounter: int
    /** How many calls of `IncrementCounter` asked for a new row. */
    ghost var rowsDue: int

    /** `rowsDue` counts the multiples of the frequency among the shots so
        far. */
    ghost predicate Valid()
      reads this
    {
      shootCounter >= 0 && NewRowFrequency * rowsDue <= shootCounter < NewRowFrequency * (rowsDue + 1)
    }

    /** `Shooter(...)`: a waiting bubble of some palette colour, no shots. */
    constructor ()
      ensures Valid() && nextColor in Palette && shootCounter == 0
    {
      nextColor := 1;
      shootCounter := 0;
      rowsDue := 0;
    }

    /** `increment_counter`: counts a shot and asks for a new row on every
        `NEW_ROW_FREQUENCY`-th one. */
    method IncrementCounter() returns (newRow: bool)
      requires Valid()
      modifies this
      ensures Valid() && nextColor == old(nextColor)
      ensures shootCounter == old(shootCounter) + 1
      ensures newRow <==> shootCounter % NewRowFrequency == 0
      ensures rowsDue == old(rowsDue) + (if newRow then 1 else 0)
    {
      shootCounter := shootCounter + 1;
      newRow := shootCounter % NewRowFrequency == 0;
      if newRow {
        rowsDue := rowsDue + 1;
      }
    }

    /** `shoot`: the waiting colour is shot; the next one is drawn from
        `choices`, and stays as it was when there is nothing to draw from. */
    method Shoot(choices: set<Color>) returns (shot: Color)
      modifies this`nextColor
      ensures shot == old(nextColor)
      ensures choices == {} ==> nextColor == old(nextColor)
      ensures choices != {} ==> nextColor in choices
    {
      shot := nextColor;
      if choices != {} {
        HasColor(choices);
        var chosen :| chosen in choices;
        nextColor := chosen;
      }
    }
  }
}
