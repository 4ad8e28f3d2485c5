/** The bubble field shared by the four bubble shooter versions: the sparse
    map from cells to colours, its constants, the win/loss status it implies,
    row injection and the search for the nearest empty cell. */
module BubbleField {
  import opened HexGrid
  import opened FloodFill
  import opened Wrappers
  import opened Common

  /** A colour id. The JavaScript versions use the ids 1..6 of `COLOR_IDS`;
      the Python versions use the six names of `BUBBLE_COLORS`, which the
      model numbers 1..6 in the order they are listed. */
  type Color = int

  /** The attached bubbles: which cells are occupied, and by which colour. */
  type Field = map<Cell, Color>

  const XLimit: int := 20
  const YLimit: int := 15
  const BubbleRadius: int := 10
  const Palette: set<Color> := {1, 2, 3, 4, 5, 6}
  const PaletteSize: int := 6

  /** Every occupied cell lies in one of the `xLimit` columns, on a row that is
      not negative. */
  ghost predicate WellFormed(f: Field, xLimit: int) {
    forall c {:trigger c in f} | c in f :: 0 <= c.x < xLimit && 0 <= c.y
  }

  /** Every occupied row is above `yLimit`. */
  ghost predicate Below(f: Field, yLimit: int) {
    forall c {:trigger c in f} | c in f :: c.y < yLimit
  }

  /** Every colour in the field is one of the palette's. */
  ghost predicate PaletteColors(f: Field) {
    forall c | c in f :: f[c] in Palette
  }

  /** The status the field implies: a win once it is empty, game over once
      some bubble sits on row `yLimit` or below it. */
  ghost function StatusOf(f: Field, yLimit: int): Status {
    if |f| == 0 then Win else if Below(f, yLimit) then Playing else GameOver
  }

  /** The colours still present (`_getUsedColorIds`, `_get_used_colors`). */
  function UsedColors(f: Field): (used: set<Color>)
    ensures forall col :: col in used <==> exists c :: c in f && f[c] == col
  {
    f.Values
  }

  /** A field with a bubble has a colour in use. */
  lemma UsedColorsNonEmpty(f: Field)
    requires f != map[]
    ensures UsedColors(f) != {}
  {
    if forall c :: c !in f {
      assert false;
    }
    var c :| c in f;
    assert f[c] in UsedColors(f);
  }

  /** How many rows one injection of `colorCount` colours adds
      (`howManyRows`); `RowsToAddCountsMissing` says what the count means. */
  function RowsToAdd(colorCount: int): int {
    PaletteSize - colorCount + 1
  }

  /** The palette has `PaletteSize` colours. */
  lemma PaletteSizeIsSize()
    ensures |Palette| == PaletteSize
  {
    assert Palette == {1, 2, 3, 4, 5} + {6};
    assert {1, 2, 3, 4, 5} == {1, 2, 3, 4} + {5};
    assert {1, 2, 3, 4} == {1, 2, 3} + {4};
    assert {1, 2, 3} == {1, 2} + {3};
  }

  /** An injection of palette colours adds one row, plus one for each palette
      colour that is not among them; exactly one row when none is missing. */
  lemma RowsToAddCountsMissing(colors: set<Color>)
    requires colors <= Palette
    ensures RowsToAdd(|colors|) == |Palette - colors| + 1
    ensures RowsToAdd(|colors|) == 1 <==> colors == Palette
  {
    PaletteSizeIsSize();
    assert Palette == (Palette - colors) + colors;
    if RowsToAdd(|colors|) == 1 {
      assert |Palette - colors| == 0;
      assert Palette - colors == {};
    }
  }

  /** On a field of palette colours, injecting the colours still in use adds
      one row, plus one for each palette colour no bubble has any more. */
  lemma RowsToAddForField(f: Field)
    requires PaletteColors(f)
    ensures forall col | col in Palette :: col !in UsedColors(f) <==> forall c | c in f :: f[c] != col
    ensures RowsToAdd(|UsedColors(f)|) == |Palette - UsedColors(f)| + 1
    ensures RowsToAdd(|UsedColors(f)|) == 1 <==> UsedColors(f) == Palette
  {
    RowsToAddCountsMissing(UsedColors(f));
  }

  /** An injection with colours of the palette adds at least one row. */
  lemma RowsToAddPositive(colors: set<Color>)
    requires colors <= Palette
    ensures RowsToAdd(|colors|) >= 1
  {
    PaletteSizeIsSize();
    SubsetNoLarger(colors, Palette);
  }

  /** The width of the playing area in pixels (`get_width`). */
  function Width(xLimit: int): int {
    (2 * xLimit + 1) * BubbleRadius
  }

  // ---------------------------------------------------------------------
  // The status scan (`_updateStatus`, `_check_game_over_or_win`)
  // ---------------------------------------------------------------------

  /** The errors the scan raises on a cell that cannot be occupied. */
  datatype ScanError = BadColumn(x: int) | BadRow(y: int)

  /** A cell that is inside the columns and on a row that is not negative. */
  predicate Placeable(c: Cell, xLimit: int) {
    0 <= c.x < xLimit && 0 <= c.y
  }

  /** Placeable, and above row `yLimit`. */
  predicate Settled(c: Cell, xLimit: int, yLimit: int) {
    Placeable(c, xLimit) && c.y < yLimit
  }

  /** The loop over the occupied cells in `keys` order: it stops with an
      error at the first cell with a column outside `[0, xLimit)` or a negative
      row, and with `Ok(true)` (game over) at the first cell on row `yLimit`
      or below, whichever comes first; `Ok(false)` means every cell is
      settled. */
  method ScanRows(keys: seq<Cell>, xLimit: int, yLimit: int) returns (r: Result<bool, ScanError>)
    ensures r == Ok(false) <==> forall j | 0 <= j < |keys| :: Settled(keys[j], xLimit, yLimit)
    ensures r == Ok(true) ==> exists i | 0 <= i < |keys| ::
      Placeable(keys[i], xLimit) && keys[i].y >= yLimit &&
      forall j | 0 <= j < i :: Settled(keys[j], xLimit, yLimit)
    ensures r.Err? ==> exists i | 0 <= i < |keys| ::
      !Placeable(keys[i], xLimit) &&
      r.error == (if keys[i].x < 0 || keys[i].x >= xLimit then BadColumn(keys[i].x) else BadRow(keys[i].y)) &&
      forall j | 0 <= j < i :: Settled(keys[j], xLimit, yLimit)
    ensures (forall j | 0 <= j < |keys| :: Placeable(keys[j], xLimit)) ==>
      r == Ok(exists j | 0 <= j < |keys| :: keys[j].y >= yLimit)
  {
    var i := 0;
    while i < |keys|
      invariant 0 <= i <= |keys|
      invariant forall j | 0 <= j < i :: Settled(keys[j], xLimit, yLimit)
    {
      var c := keys[i];
      if c.x < 0 || c.x >= xLimit {
        return Err(BadColumn(c.x));
      }
      if c.y < 0 {
        return Err(BadRow(c.y));
      }
      if c.y >= yLimit {
        return Ok(true);
      }
      i := i + 1;
    }
    return Ok(false);
  }

  /** The keys of a map, each once, in some order (the order in which the
      source enumerates an object's keys or a dict is not modelled). */
  method KeyList<V>(f: map<Cell, V>) returns (ks: seq<Cell>)
    ensures Elems(ks) == f.Keys && Distinct(ks) && |ks| == |f|
  {
    ks := [];
    var rest := f.Keys;
    while rest != {}
      invariant rest <= f.Keys
      invariant Elems(ks) == f.Keys - rest && Distinct(ks)
      invariant |ks| + |rest| == |f.Keys|
    {
      var c :| c in rest;
      assert c !in Elems(ks);
      ks := ks + [c];
      rest := rest - {c};
    }
  }

  // ---------------------------------------------------------------------
  // Row injection (`_addBubbleRowOrRows`, `add_bubble_row_or_rows`)
  // ---------------------------------------------------------------------

  /** Every bubble moved one row down: `(x, y)` becomes `(x, y + 1)`. */
  function ShiftDown(f: Field): (g: Field)
    ensures forall c {:trigger c in g} :: c in g <==> Cell(c.x, c.y - 1) in f
    ensures forall c {:trigger g[c]} | c in g :: g[c] == f[Cell(c.x, c.y - 1)]
  {
    var g := map d {:trigger d in f} | d in f :: Cell(d.x, d.y + 1) := f[d];
    assert forall c: Cell {:trigger c in g} | Cell(c.x, c.y - 1) in f :: Cell(c.x, c.y - 1 + 1) in g;
    g
  }

  /** What injecting `k` rows means for the cell `c`: it is occupied after
      the injection exactly when it is on one of the rows `0..k-1` in one of
      the `xLimit` columns, or the cell `k` rows above it was occupied
      before; in the second case it holds that cell's colour, in the first a
      colour of `colors`. */
  ghost predicate InjectedAt(before: Field, after: Field, k: int, colors: set<Color>, xLimit: int, c: Cell) {
    (c in after <==> (k <= c.y && Cell(c.x, c.y - k) in before) || (0 <= c.x < xLimit && 0 <= c.y < k)) &&
    (c in after && k <= c.y ==> after[c] == before[Cell(c.x, c.y - k)]) &&
    (c in after && c.y < k ==> after[c] in colors)
  }

  /** `after` is `before` with `k` rows injected: every bubble moved `k` rows
      down, and rows `0..k-1` filled in all `xLimit` columns with colours
      taken from `colors`. */
  ghost predicate RowsInjected(before: Field, after: Field, k: int, colors: set<Color>, xLimit: int) {
    forall c :: InjectedAt(before, after, k, colors, xLimit, c)
  }

  /** Injecting `i` rows and then one more is injecting `i + 1` rows. */
  lemma {:induction false} RowsInjectedStep(before: Field, mid: Field, after: Field, i: int,
                                           colors: set<Color>, xLimit: int)
    requires WellFormed(before, xLimit) && 0 <= i
    requires RowsInjected(before, mid, i, colors, xLimit)
    requires RowsInjected(mid, after, 1, colors, xLimit)
    ensures RowsInjected(before, after, i + 1, colors, xLimit)
  {
    var k := i + 1;
    forall c
      ensures InjectedAt(before, after, k, colors, xLimit, c)
    {
      var up := Cell(c.x, c.y - 1);
      assert InjectedAt(mid, after, 1, colors, xLimit, c);
      assert InjectedAt(before, mid, i, colors, xLimit, up);
      assert Cell(up.x, up.y - i) == Cell(c.x, c.y - (i + 1));
    }
  }

  /** Injection keeps the field well formed and its colours in the palette. */
  lemma RowsInjectedWellFormed(before: Field, after: Field, k: int, colors: set<Color>, xLimit: int)
    requires WellFormed(before, xLimit) && PaletteColors(before) && colors <= Palette && 0 <= k
    requires RowsInjected(before, after, k, colors, xLimit)
    ensures WellFormed(after, xLimit) && PaletteColors(after)
  {
    forall c | c in after
      ensures 0 <= c.x < xLimit && 0 <= c.y && after[c] in Palette
    {
      assert InjectedAt(before, after, k, colors, xLimit, c);
    }
  }

  /** Injecting no rows changes nothing. */
  lemma RowsInjectedZero(f: Field, colors: set<Color>, xLimit: int)
    requires WellFormed(f, xLimit)
    ensures RowsInjected(f, f, 0, colors, xLimit)
  {
    forall c
      ensures InjectedAt(f, f, 0, colors, xLimit, c)
    {
      assert Cell(c.x, c.y - 0) == c;
    }
  }

  // ---------------------------------------------------------------------
  // The full rectangle of the initial rows
  // ---------------------------------------------------------------------

  /** The cells of rows `0..rows-1` in all `xLimit` columns. */
  predicate InRect(c: Cell, xLimit: int, rows: int) {
    0 <= c.x < xLimit && 0 <= c.y < rows
  }

  /** The occupied cells are exactly the rectangle of the first `rows` rows. */
  ghost predicate FullRows(f: Field, xLimit: int, rows: int) {
    forall c :: c in f <==> InRect(c, xLimit, rows)
  }

  /** Injecting one row into the first `rows` full rows gives `rows + 1` full
      rows. */
  lemma FullRowsGrow(before: Field, after: Field, colors: set<Color>, xLimit: int, rows: int)
    requires 0 <= rows && FullRows(before, xLimit, rows)
    requires RowsInjected(before, after, 1, colors, xLimit)
    ensures FullRows(after, xLimit, rows + 1)
  {
    forall c
      ensures c in after <==> InRect(c, xLimit, rows + 1)
    {
      assert InjectedAt(before, after, 1, colors, xLimit, c);
      assert InRect(Cell(c.x, c.y - 1), xLimit, rows) <==> 1 <= c.y < rows + 1 && 0 <= c.x < xLimit;
    }
  }

  /** A full rectangle of 1 to `yLimit` rows is a game still being played. */
  lemma FullRowsPlaying(f: Field, xLimit: int, rows: int, yLimit: int)
    requires FullRows(f, xLimit, rows) && 0 < xLimit && 1 <= rows <= yLimit
    ensures Below(f, yLimit) && StatusOf(f, yLimit) == Playing
  {
    assert InRect(Cell(0, 0), xLimit, rows);
    assert Cell(0, 0) in f;
  }

  /** In a full rectangle every cell hangs from the ceiling: the cell right
      above each cell is one of its neighbours, whatever the row parity. */
  lemma {:induction false} FullRowsNoLoose(f: Field, xLimit: int, rows: int)
    requires FullRows(f, xLimit, rows)
    ensures NoLoose(f, xLimit)
  {
    forall c | c in f
      ensures c in Anchored(f, xLimit)
    {
      var top := Cell(c.x, 0);
      assert top in Roots(f, xLimit);
      ReachesSelf(f.Keys, top);
      var y := 0;
      while y < c.y
        invariant 0 <= y <= c.y
        invariant Reaches(f.Keys, top, Cell(c.x, y))
      {
        assert Neighbors(Cell(c.x, y))[if y % 2 == 0 then 5 else 4] == Cell(c.x, y + 1);
        ReachesStep(f.Keys, top, Cell(c.x, y), Cell(c.x, y + 1));
        y := y + 1;
      }
    }
  }

  // ---------------------------------------------------------------------
  // Row injection can loosen bubbles
  // ---------------------------------------------------------------------

  /** Two bubbles of colour 1: `(1, 0)` on the ceiling and `(0, 1)` hanging
      from it diagonally. */
  function LoosenBefore(): Field {
    map[Cell(1, 0) := 1, Cell(0, 1) := 1]
  }

  /** `LoosenBefore` after one injected row of colour 1. */
  function LoosenAfter(): Field {
    (map x | 0 <= x < XLimit :: Cell(x, 0) := 1)[Cell(1, 1) := 1][Cell(0, 2) := 1]
  }

  lemma LoosenBeforeAnchored()
    ensures NoLoose(LoosenBefore(), XLimit)
  {
    var f := LoosenBefore();
    assert Cell(1, 0) in Roots(f, XLimit);
    ReachesSelf(f.Keys, Cell(1, 0));
    assert Neighbors(Cell(1, 0))[4] == Cell(0, 1);
    ReachesStep(f.Keys, Cell(1, 0), Cell(1, 0), Cell(0, 1));
  }

  lemma LoosenInjected()
    ensures RowsInjected(LoosenBefore(), LoosenAfter(), 1, {1}, XLimit)
  {
    var before, after := LoosenBefore(), LoosenAfter();
    forall c
      ensures InjectedAt(before, after, 1, {1}, XLimit, c)
    {
    }
  }

  lemma LoosenAfterLoose()
    ensures Cell(0, 2) in LoosenAfter() && Cell(0, 2) !in Anchored(LoosenAfter(), XLimit)
  {
    var after := LoosenAfter();
    var loose := Cell(0, 2);
    assert forall m | m in Neighbors(loose) :: m !in after;
    var rest := after.Keys - {loose};
    forall d, n | d in rest && n in Neighbors(d) && n in after.Keys
      ensures n in rest
    {
      if n == loose {
        AdjacentSymmetric(d, n);
      }
    }
    ClosedContainsReachable(after.Keys, Roots(after, XLimit), rest);
  }

  /** Moving a row down flips its parity, so two bubbles that touched
      diagonally may no longer touch: in `LoosenBefore` nothing is loose, but
      once a row is injected the bubble moved to `(0, 2)` touches nothing.
      Injection alone therefore does not keep the field free of loose
      bubbles, and the pruning pass after it is needed. */
  lemma InjectionCanLoosen()
    ensures NoLoose(LoosenBefore(), XLimit)
    ensures RowsInjected(LoosenBefore(), LoosenAfter(), 1, {1}, XLimit)
    ensures !NoLoose(LoosenAfter(), XLimit)
  {
    LoosenBeforeAnchored();
    LoosenInjected();
    LoosenAfterLoose();
  }

  // ---------------------------------------------------------------------
  // The nearest empty cell (`_attachBubble`, `_attach_bubble`)
  // ---------------------------------------------------------------------

  /** The cells the attach loop looks at: columns `[0, xLimit)` and rows
      `0..yLimit`, one row beyond the limit so that an attach can end the
      game. */
  predicate InScanArea(c: Cell, xLimit: int, yLimit: int) {
    0 <= c.x < xLimit && 0 <= c.y <= yLimit
  }

  /** `a` comes before `b` in the scan, which runs column by column and,
      within a column, row by row. */
  predicate ScannedBefore(a: Cell, b: Cell) {
    a.x < b.x || (a.x == b.x && a.y < b.y)
  }

  /** `c` is the empty cell of the scan area at the smallest distance, and
      the first such cell in scan order when several tie. */
  ghost predicate IsFirstNearest(f: Field, dist: Cell -> real, c: Cell, xLimit: int, yLimit: int) {
    InScanArea(c, xLimit, yLimit) && c !in f &&
    (forall d | InScanArea(d, xLimit, yLimit) && d !in f :: dist(c) <= dist(d)) &&
    (forall d | InScanArea(d, xLimit, yLimit) && d !in f && ScannedBefore(d, c) :: dist(c) < dist(d))
  }

  /** The search for the place to attach the shot bubble: over the scan area,
      column by column, keep the first empty cell whose distance is strictly
      smaller than the best so far. `dist` stands for the Euclidean distance
      between the shot bubble and the centre of a cell. */
  method NearestEmptyCell(f: Field, dist: Cell -> real, xLimit: int, yLimit: int) returns (r: Option<Cell>)
    ensures r.None? <==> forall d | InScanArea(d, xLimit, yLimit) :: d in f
    ensures r.Some? ==> IsFirstNearest(f, dist, r.value, xLimit, yLimit)
  {
    r := None;
    var x := 0;
    while x < xLimit
      invariant x <= xLimit || xLimit < 0
      invariant r.None? <==> forall d | InScanArea(d, xLimit, yLimit) && d.x < x :: d in f
      invariant r.Some? ==> InScanArea(r.value, xLimit, yLimit) && r.value !in f && r.value.x < x
      invariant r.Some? ==> forall d | InScanArea(d, xLimit, yLimit) && d !in f && d.x < x ::
        dist(r.value) <= dist(d) && (ScannedBefore(d, r.value) ==> dist(r.value) < dist(d))
    {
      var y := 0;
      while y < yLimit + 1
        invariant y <= yLimit + 1 || yLimit + 1 < 0
        invariant r.None? <==> forall d | InScanArea(d, xLimit, yLimit) && ScannedBefore(d, Cell(x, y)) :: d in f
        invariant r.Some? ==> InScanArea(r.value, xLimit, yLimit) && r.value !in f && ScannedBefore(r.value, Cell(x, y))
        invariant r.Some? ==> forall d | InScanArea(d, xLimit, yLimit) && d !in f && ScannedBefore(d, Cell(x, y)) ::
          dist(r.value) <= dist(d) && (ScannedBefore(d, r.value) ==> dist(r.value) < dist(d))
      {
        var c := Cell(x, y);
        if c !in f && (r.None? || dist(c) < dist(r.value)) {
          r := Some(c);
        }
        y := y + 1;
      }
      x := x + 1;
    }
  }
}
