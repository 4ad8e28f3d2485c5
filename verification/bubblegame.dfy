/** The bubble shooter's game object, shared by the three versions that keep a
    status (`bubbleshooter/js/core.js`, `js/core.js`, `bubbleshooter/core.py`):
    the attached bubbles, the status, the shot counter and the shot bubbles,
    and the operations that change them. The versions differ only in the
    number of non-popping shots between row injections, `shotsPerRow`, and in
    how many rows they seed; see the per-version modules. */
module BubbleGame {
  import opened HexGrid
  import opened FloodFill
  import opened BubbleField
  import opened Common
  import opened Wrappers

  /** What happens to the field, the shot counter and the status when a
      bubble of colour `color` is attached at the empty cell `c`: the cluster
      of `c` pops when it has 3 or more cells, without counting the shot;
      otherwise the shot is counted and every `shotsPerRow`-th counted shot
      injects rows in the colours still present. Loose bubbles are pruned and
      the status follows from what remains. */
  ghost predicate AttachedAt(before: Field, counter: int, c: Cell, color: Color, shotsPerRow: int,
                             after: Field, counter': int, status': Status)
    requires shotsPerRow > 0
  {
    var placed := before[c := color];
    var cluster := Cluster(placed, c);
    if |cluster| >= 3 then
      counter' == counter &&
      after == Prune(placed - cluster, XLimit) && status' == StatusOf(after, YLimit)
    else
      counter' == counter + 1 &&
      if counter' % shotsPerRow != 0 then
        after == Prune(placed, XLimit) && status' == StatusOf(after, YLimit)
      else
        (exists mid :: RowsInjected(placed, mid, RowsToAdd(|UsedColors(placed)|), UsedColors(placed), XLimit) &&
                       after == Prune(mid, XLimit)) &&
        status' == StatusOf(after, YLimit)
  }

  class Game {
    /** Counted (non-popping) shots between two row injections. */
    const shotsPerRow: int
    /** The attached bubbles (`_attachedBubbles`, `_attached_bubbles`). */
    var field: Field
    var status: Status
    /** Non-popping attaches so far (`_shootCounter`). */
    var shootCounter: int
    /** The colour of the bubble waiting in the shooter. */
    var nextColor: Color
    /** The colour of the bubble in flight. */
    var shotColor: Color
    /** Whether a shot bubble is in flight (`shotBubbleMoving`). */
    var shotMoving: bool
    /** The cells whose bubbles were handed to the destroy notification, in
        order. */
    ghost var destroyed: seq<Cell>
    /** The statuses handed to the status notification, in order. */
    ghost var notified: seq<Status>
    /** How many times the status was recomputed. */
    ghost var statusChecks: int

    /** What holds between any two steps, even in the middle of an operation. */
    ghost predicate Sound()
      reads this
    {
      shotsPerRow > 0 && WellFormed(field, XLimit) && PaletteColors(field) && shootCounter >= 0
    }

    /** What holds between operations: while playing, nothing sits on row
        `YLimit` or below it and nothing is loose. */
    ghost predicate Valid()
      reads this
    {
      Sound() && (status == Playing ==> Below(field, YLimit) && NoLoose(field, XLimit))
    }

    /** A game with an empty field, playing, nothing shot yet. */
    constructor (shotsPerRow: int)
      requires shotsPerRow > 0
      ensures Valid() && this.shotsPerRow == shotsPerRow
      ensures field == map[] && status == Playing && shootCounter == 0 && !shotMoving
      ensures destroyed == [] && notified == [] && statusChecks == 0
    {
      this.shotsPerRow := shotsPerRow;
      field := map[];
      status := Playing;
      shootCounter := 0;
      nextColor := 1;
      shotColor := 1;
      shotMoving := false;
      destroyed := [];
      notified := [];
      statusChecks := 0;
    }

    /** `_updateStatus`: only legal while playing. An empty field wins; a
        bubble on row `YLimit` or below ends the game; otherwise the status
        stays. Each change is notified once. The scan's errors for a bad
        column or row cannot happen on a well-formed field. */
    method UpdateStatus()
      requires Sound() && status == Playing
      modifies this`status, this`notified, this`statusChecks
      ensures Sound()
      ensures status == StatusOf(field, YLimit)
      ensures notified == old(notified) + (if status == Playing then [] else [status])
      ensures statusChecks == old(statusChecks) + 1
    {
      statusChecks := statusChecks + 1;
      if |field| == 0 {
        status := Win;
        notified := notified + [Win];
        return;
      }
      var keys := KeyList(field);
      var r := ScanRows(keys, XLimit, YLimit);
      assert forall j | 0 <= j < |keys| :: keys[j] in field;
      assert r.Ok?;
      if r.value {
        status := GameOver;
        notified := notified + [GameOver];
        var j :| 0 <= j < |keys| && keys[j].y >= YLimit;
        assert keys[j] in field;
      } else {
        forall c | c in field
          ensures c.y < YLimit
        {
          assert c in Elems(keys);
        }
      }
    }

    /** `_removeBubble`: removes the bubble at `c` and notifies its
        destruction. */
    method RemoveBubble(c: Cell)
      requires c in field
      modifies this`field, this`destroyed
      ensures field == old(field) - {c}
      ensures destroyed == old(destroyed) + [c]
    {
      field := field - {c};
      destroyed := destroyed + [c];
    }

    /** The removal phase of `_removeLooseBubbles`: visits every occupied
        cell once, in some order, and removes, notifying each, those not in
        `keep`. The result tells whether anything was removed; `removed`
        lists the removed cells in order. */
    method RemoveAllBut(keep: set<Cell>) returns (didSomething: bool, ghost removed: seq<Cell>)
      modifies this`field, this`destroyed
      ensures field.Keys == old(field).Keys * keep
      ensures forall c | c in field :: field[c] == old(field)[c]
      ensures didSomething <==> !(old(field).Keys <= keep)
      ensures destroyed == old(destroyed) + removed
      ensures multiset(removed) == multiset(old(field).Keys - keep)
    {
      ghost var start := field;
      ghost var log := destroyed;
      ghost var done: set<Cell> := {};
      didSomething := false;
      removed := [];
      var todo := field.Keys;
      while todo != {}
        invariant done == start.Keys - todo && todo <= start.Keys
        invariant field.Keys == start.Keys - (done - keep)
        invariant forall c | c in field :: field[c] == start[c]
        invariant didSomething <==> !(done <= keep)
        invariant destroyed == log + removed
        invariant multiset(removed) == multiset(done - keep)
        decreases todo
      {
        HasCell(todo);
        var c :| c in todo;
        LogStep(removed, done, keep, c);
        if c !in keep {
          RemoveBubble(c);
          removed := removed + [c];
          didSomething := true;
        }
        todo := todo - {c};
        done := done + {c};
      }
    }

    /** One pass of `_removeLooseBubbles`: marks the anchored bubbles and
        removes all others. The result tells whether anything was removed. */
    method PrunePass() returns (didSomething: bool, ghost removed: seq<Cell>)
      requires Sound()
      modifies this`field, this`destroyed
      ensures Sound()
      ensures field == Prune(old(field), XLimit)
      ensures didSomething <==> field.Keys < old(field).Keys
      ensures destroyed == old(destroyed) + removed
      ensures multiset(removed) == multiset(old(field).Keys - field.Keys)
    {
      var notLoose := AnchoredCells(field, XLimit);
      ghost var start := field;
      didSomething, removed := RemoveAllBut(notLoose);
      assert start.Keys - notLoose == start.Keys - field.Keys;
      SubmapSound(start, field, XLimit);
      PruneIs(start, field, XLimit);
    }

    /** `_removeLooseBubbles`: passes until a pass removes nothing; then,
        once, recomputes the status. Each removed bubble is notified exactly
        once; `removed` lists them in order. */
    method RemoveLooseBubbles() returns (ghost removed: seq<Cell>)
      requires Sound() && status == Playing
      modifies this`field, this`destroyed, this`status, this`notified, this`statusChecks
      ensures Valid()
      ensures field == Prune(old(field), XLimit)
      ensures status == StatusOf(field, YLimit)
      ensures destroyed == old(destroyed) + removed
      ensures multiset(removed) == multiset(old(field).Keys - field.Keys)
      ensures notified == old(notified) + (if status == Playing then [] else [status])
      ensures statusChecks == old(statusChecks) + 1
      decreases field.Keys
    {
      ghost var start := field;
      var didSomething;
      didSomething, removed := PrunePass();
      if didSomething {
        ghost var more := RemoveLooseBubbles();
        PruneIdempotent(start, XLimit);
        removed := removed + more;
      } else {
        UpdateStatus();
        PruneLeavesNoLoose(start, XLimit);
      }
    }

    /** One round of `_addBubbleRowOrRows`'s outer loop: every bubble moves
        one row down, and each column of row 0 gets a bubble of a colour drawn
        from `colorIds`. */
    method InjectRow(colorIds: set<Color>)
      requires colorIds != {}
      requires WellFormed(field, XLimit)
      modifies this`field
      ensures RowsInjected(old(field), field, 1, colorIds, XLimit)
    {
      HasColor(colorIds);
      ghost var prev := field;
      field := ShiftDown(field);
      ghost var shifted := field;
      var x := 0;
      while x < XLimit
        invariant 0 <= x <= XLimit
        invariant forall c {:trigger c in field} :: c in field <==> c in shifted || (c.y == 0 && 0 <= c.x < x)
        invariant forall c {:trigger field[c]} | c in field && c.y != 0 :: field[c] == shifted[c]
        invariant forall c {:trigger field[c]} | c in field && c.y == 0 :: field[c] in colorIds
      {
        var color :| color in colorIds;
        field := field[Cell(x, 0) := color];
        x := x + 1;
      }
      ShiftedRowInjected(prev, field, colorIds, XLimit);
    }

    /** `_addBubbleRowOrRows`: only legal while playing. Adds
        `RowsToAdd(|colorIds|)` rows, each moving every bubble one row down and
        filling row 0 with bubbles of colours drawn from `colorIds`; then
        prunes loose bubbles, notifying each removed one, and recomputes the
        status. */
    method AddBubbleRowOrRows(colorIds: set<Color>) returns (ghost removed: seq<Cell>)
      requires Sound() && status == Playing
      requires colorIds != {} && colorIds <= Palette
      modifies this`field, this`destroyed, this`status, this`notified, this`statusChecks
      ensures Valid()
      ensures exists mid :: RowsInjected(old(field), mid, RowsToAdd(|colorIds|), colorIds, XLimit) &&
                            field == Prune(mid, XLimit) && multiset(removed) == multiset(mid.Keys - field.Keys)
      ensures status == StatusOf(field, YLimit)
      ensures destroyed == old(destroyed) + removed
      ensures notified == old(notified) + (if status == Playing then [] else [status])
    {
      var howManyRows := RowsToAdd(|colorIds|);
      RowsToAddPositive(colorIds);
      ghost var start := field;
      RowsInjectedZero(field, colorIds, XLimit);
      var i := 0;
      while i < howManyRows
        invariant 0 <= i <= howManyRows
        invariant RowsInjected(start, field, i, colorIds, XLimit)
        invariant Sound()
        modifies this`field
      {
        ghost var prev := field;
        InjectRow(colorIds);
        RowsInjectedStep(start, prev, field, i, colorIds, XLimit);
        RowsInjectedWellFormed(start, field, i + 1, colorIds, XLimit);
        i := i + 1;
      }
      ghost var mid := field;
      removed := RemoveLooseBubbles();
      assert RowsInjected(start, mid, howManyRows, colorIds, XLimit) &&
             field == Prune(mid, XLimit) && multiset(removed) == multiset(mid.Keys - field.Keys);
    }

    /** `_createNextShotBubble`: the next bubble takes one of the colours still
        on the field. */
    method CreateNextShotBubble()
      requires field != map[]
      modifies this`nextColor
      ensures nextColor in UsedColors(field)
    {
      var colors := UsedColors(field);
      UsedColorsNonEmpty(field);
      HasColor(colors);
      var chosen :| chosen in colors;
      nextColor := chosen;
    }

    /** The popping loop of `_attachBubble`: removes, and notifies, the
        listed cells in order. */
    method PopCells(cells: seq<Cell>)
      requires Distinct(cells) && Elems(cells) <= field.Keys
      modifies this`field, this`destroyed
      ensures field == old(field) - Elems(cells)
      ensures destroyed == old(destroyed) + cells
    {
      ghost var start := field;
      ghost var log := destroyed;
      var i := 0;
      while i < |cells|
        invariant 0 <= i <= |cells|
        invariant field == start - Elems(cells[..i])
        invariant destroyed == log + cells[..i]
      {
        assert cells[i] !in Elems(cells[..i]);
        ElemsSnoc(cells[..i], cells[i]);
        assert cells[..i + 1] == cells[..i] + [cells[i]];
        RemoveBubble(cells[i]);
        i := i + 1;
      }
      assert cells[..|cells|] == cells;
    }

    /** `_attachBubble`: when the shot bubble is not yet touching the ceiling
        or another bubble (`eligible` is false) nothing changes and the
        result is false. Otherwise the bubble goes to the first nearest empty
        cell of the scan area, and the outcome is `AttachedAt` that cell; the
        result is true. `dist` gives the distance from the shot bubble to
        each cell's centre; `removed` lists the bubbles destroyed. */
    method AttachBubble(color: Color, eligible: bool, dist: Cell -> real)
        returns (attached: bool, ghost removed: seq<Cell>)
      requires Valid() && status == Playing && color in Palette
      modifies this`field, this`destroyed, this`status, this`notified, this`statusChecks, this`shootCounter
      ensures Valid()
      ensures attached == eligible
      ensures destroyed == old(destroyed) + removed
      ensures !eligible ==> field == old(field) && status == old(status) && shootCounter == old(shootCounter)
      ensures eligible ==> exists c ::
        IsFirstNearest(old(field), dist, c, XLimit, YLimit) &&
        AttachedAt(old(field), old(shootCounter), c, color, shotsPerRow, field, shootCounter, status)
    {
      removed := [];
      if !eligible {
        return false, removed;
      }
      var nearest := NearestEmptyCell(field, dist, XLimit, YLimit);
      assert nearest.Some? by {
        assert InScanArea(Cell(0, YLimit), XLimit, YLimit) && Cell(0, YLimit) !in field;
      }
      var c := nearest.value;
      field := field[c := color];
      var sameColor := SameColorComponent(field, c);
      ClusterInField(field, c);
      DistinctSize(sameColor);
      if |sameColor| >= 3 {
        removed := PopCluster(c, sameColor);
      } else {
        removed := CountShot();
      }
      return true, removed;
    }

    /** The popping branch of `_attachBubble`: the cluster of `c`, listed
        without repetitions in `cluster`, is removed and notified, and then
        the loose bubbles are. */
    method PopCluster(c: Cell, cluster: seq<Cell>) returns (ghost removed: seq<Cell>)
      requires Sound() && status == Playing && c in field
      requires Distinct(cluster) && Elems(cluster) == Cluster(field, c)
      modifies this`field, this`destroyed, this`status, this`notified, this`statusChecks
      ensures Valid()
      ensures field == Prune(old(field) - Cluster(old(field), c), XLimit)
      ensures status == StatusOf(field, YLimit)
      ensures destroyed == old(destroyed) + removed
    {
      ClusterInField(field, c);
      PopCells(cluster);
      SubmapSound(old(field), field, XLimit);
      ghost var more := RemoveLooseBubbles();
      removed := cluster + more;
      Appended(old(destroyed), cluster, more);
    }

    /** The non-popping branch of `_attachBubble`: the shot is counted; every
        `shotsPerRow`-th counted shot injects rows in the colours still
        present. Then, while still playing, the loose bubbles are removed and
        the status recomputed. */
    method CountShot() returns (ghost removed: seq<Cell>)
      requires Sound() && status == Playing && field != map[]
      modifies this`field, this`destroyed, this`status, this`notified, this`statusChecks, this`shootCounter
      ensures Valid()
      ensures shootCounter == old(shootCounter) + 1
      ensures shootCounter % shotsPerRow != 0 ==> field == Prune(old(field), XLimit)
      ensures shootCounter % shotsPerRow == 0 ==>
        exists mid :: RowsInjected(old(field), mid, RowsToAdd(|UsedColors(old(field))|), UsedColors(old(field)), XLimit) &&
                      field == Prune(mid, XLimit)
      ensures status == StatusOf(field, YLimit)
      ensures destroyed == old(destroyed) + removed
    {
      shootCounter := shootCounter + 1;
      if shootCounter % shotsPerRow == 0 {
        removed := InjectThenPrune();
      } else {
        removed := RemoveLooseBubbles();
      }
    }

    /** The injecting case of `_attachBubble`: rows in the colours still
        present, and then, while still playing, a second pruning that finds
        nothing more to remove but recomputes the status. */
    method InjectThenPrune() returns (ghost removed: seq<Cell>)
      requires Sound() && status == Playing && field != map[]
      modifies this`field, this`destroyed, this`status, this`notified, this`statusChecks
      ensures Valid()
      ensures exists mid :: RowsInjected(old(field), mid, RowsToAdd(|UsedColors(old(field))|), UsedColors(old(field)), XLimit) &&
                            field == Prune(mid, XLimit)
      ensures status == StatusOf(field, YLimit)
      ensures destroyed == old(destroyed) + removed
    {
      UsedColorsNonEmpty(field);
      removed := AddBubbleRowOrRows(UsedColors(field));
      ghost var mid :| RowsInjected(old(field), mid, RowsToAdd(|UsedColors(old(field))|), UsedColors(old(field)), XLimit) &&
                       field == Prune(mid, XLimit);
      if status == Playing {
        PruneIdempotent(mid, XLimit);
        ghost var more := RemoveLooseBubbles();
        Appended(old(destroyed), removed, more);
        removed := removed + more;
      }
    }

    /** `shoot`: only while playing, with no bubble in flight and the field
        seeded. The waiting bubble becomes the shot bubble, a new waiting
        bubble is made, and the shot bubble is in flight. */
    method Shoot()
      requires Valid() && status == Playing && !shotMoving && field != map[]
      modifies this`nextColor, this`shotColor, this`shotMoving
      ensures shotColor == old(nextColor) && shotMoving
      ensures nextColor in UsedColors(field)
    {
      shotColor := nextColor;
      CreateNextShotBubble();
      shotMoving := true;
    }

    /** One frame of the shot's animation callback, after the bubble has been
        moved: try to attach it; once attached, no bubble is in flight. */
    method Frame(eligible: bool, dist: Cell -> real) returns (attached: bool)
      requires Valid() && status == Playing && shotMoving && shotColor in Palette
      modifies this`field, this`destroyed, this`status, this`notified, this`statusChecks,
               this`shootCounter, this`shotMoving
      ensures Valid()
      ensures attached == eligible && shotMoving == !attached
      ensures !attached ==> field == old(field) && status == old(status)
      ensures attached ==> exists c ::
        IsFirstNearest(old(field), dist, c, XLimit, YLimit) &&
        AttachedAt(old(field), old(shootCounter), c, shotColor, shotsPerRow, field, shootCounter, status)
    {
      ghost var removed;
      attached, removed := AttachBubble(shotColor, eligible, dist);
      if attached {
        shotMoving := false;
      }
    }

    /** The initial seeding: `calls` row injections with the whole palette
        into the empty field, each adding exactly one row, and then the first
        waiting bubble. The field ends up as the full rectangle of the first
        `calls` rows and the game is still on. */
    method SeedRows(calls: int)
      requires Valid() && field == map[] && status == Playing
      requires 1 <= calls <= YLimit
      modifies this`field, this`destroyed, this`status, this`notified, this`statusChecks, this`nextColor
      ensures Valid()
      ensures FullRows(field, XLimit, calls) && status == Playing
      ensures nextColor in UsedColors(field)
    {
      PaletteSizeIsSize();
      var i := 0;
      while i < calls
        invariant 0 <= i <= calls
        invariant Valid() && status == Playing
        invariant FullRows(field, XLimit, i)
      {
        ghost var prev := field;
        ghost var removed := AddBubbleRowOrRows(Palette);
        ghost var mid :| RowsInjected(prev, mid, 1, Palette, XLimit) && field == Prune(mid, XLimit);
        FullRowsGrow(prev, mid, Palette, XLimit, i);
        FullRowsNoLoose(mid, XLimit, i + 1);
        PruneNoLooseUnchanged(mid, XLimit);
        FullRowsPlaying(field, XLimit, i + 1, YLimit);
        i := i + 1;
      }
      assert Cell(0, 0) in field;
      CreateNextShotBubble();
    }
  }

  /** A list without repetitions has as many cells as it lists. */
  lemma {:induction false} DistinctSize(s: seq<Cell>)
    requires Distinct(s)
    ensures |Elems(s)| == |s|
  {
    if |s| > 0 {
      var t := s[..|s| - 1];
      assert Distinct(t);
      DistinctSize(t);
      assert Elems(s) == Elems(t) + {s[|s| - 1]};
      assert s[|s| - 1] !in Elems(t);
    }
  }

  /** Listing one more cell adds that cell. */
  lemma ElemsSnoc(s: seq<Cell>, c: Cell)
    ensures Elems(s + [c]) == Elems(s) + {c}
  {
    assert forall d :: d in s + [c] <==> d in s || d == c;
  }

  /** Removing cells keeps a field sound. */
  lemma SubmapSound(big: Field, small: Field, xLimit: int)
    requires WellFormed(big, xLimit) && PaletteColors(big)
    requires small.Keys <= big.Keys && forall c | c in small :: small[c] == big[c]
    ensures WellFormed(small, xLimit) && PaletteColors(small)
  {
  }

  /** A field that keeps exactly the anchored cells of `f`, each with its
      colour, is `Prune(f)`. */
  lemma PruneIs(f: Field, g: Field, xLimit: int)
    requires g.Keys == f.Keys * Anchored(f, xLimit)
    requires forall c | c in g :: g[c] == f[c]
    ensures g == Prune(f, xLimit)
  {
    PruneKeeps(f, xLimit);
  }

  /** Every listed cell is in the set of listed cells. */
  lemma ElemsHas(s: seq<Cell>, i: int)
    requires 0 <= i < |s|
    ensures s[i] in Elems(s)
  {
  }

  /** A non-empty set of colours has a member to draw. */
  lemma HasColor(colors: set<Color>)
    requires colors != {}
    ensures exists col :: col in colors
  {
    if forall col :: col !in colors {
      assert false;
    }
  }

  /** The shifted field with row 0 filled in all columns is one injected
      row. */
  lemma ShiftedRowInjected(before: Field, after: Field, colors: set<Color>, xLimit: int)
    requires WellFormed(before, xLimit)
    requires forall c {:trigger c in after} :: c in after <==> c in ShiftDown(before) || (c.y == 0 && 0 <= c.x < xLimit)
    requires forall c {:trigger after[c]} | c in after && c.y != 0 :: after[c] == ShiftDown(before)[c]
    requires forall c {:trigger after[c]} | c in after && c.y == 0 :: after[c] in colors
    ensures RowsInjected(before, after, 1, colors, xLimit)
  {
    var shifted := ShiftDown(before);
    forall c
      ensures InjectedAt(before, after, 1, colors, xLimit, c)
    {
      assert c in shifted <==> Cell(c.x, c.y - 1) in before;
      if c in after && c.y < 1 && c in shifted {
        assert false;
      }
    }
  }


  /** Appending two logs one after the other appends their concatenation. */
  lemma Appended(log: seq<Cell>, first: seq<Cell>, second: seq<Cell>)
    ensures (log + first) + second == log + (first + second)
  {
  }

  /** A non-empty set of cells has a member to visit. */
  lemma HasCell(cells: set<Cell>)
    requires cells != {}
    ensures exists c :: c in cells
  {
    if forall c :: c !in cells {
      assert false;
    }
  }

  /** Visiting one more cell keeps the removal log a listing of the visited
      cells outside `keep`. */
  lemma LogStep(removed: seq<Cell>, done: set<Cell>, keep: set<Cell>, c: Cell)
    requires c !in done && multiset(removed) == multiset(done - keep)
    ensures c !in keep ==> multiset(removed + [c]) == multiset((done + {c}) - keep)
    ensures c in keep ==> multiset(removed) == multiset((done + {c}) - keep)
  {
    if c in keep {
      assert (done + {c}) - keep == done - keep;
    } else {
      assert (done + {c}) - keep == (done - keep) + {c};
      assert multiset((done - keep) + {c}) == multiset(done - keep) + multiset{c};
    }
  }
}
