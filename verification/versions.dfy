/** The event version of the bubble shooter (`bubbleshooter/js/core.js`): a
    row every 4 counted shots, and seeding once the events are connected. */
module BubbleShooterJs {
  import opened BubbleField
  import opened Common
  import opened BubbleGame

  const ShotsPerRow: int := 4

  /** How many times a loop `for (i = 0; i < limit/2; i++)` runs: JavaScript
      divides exactly, so `i` runs while `2 * i < limit`. */
  function HalfLoopCount(limit: int): (n: nat)
    ensures forall i: nat :: i < n <==> 2 * i < limit
  {
    if limit <= 0 then 0 else (limit + 1) / 2
  }

  /** The rows seeded by a new game: `15/2` is 7.5, so the loop runs 8 times. */
  lemma SeedCount()
    ensures HalfLoopCount(YLimit) == 8
  {
  }

  /** A new game (`new Game(...)`): nothing attached, playing. */
  method NewGame() returns (g: Game)
    ensures fresh(g) && g.Valid() && g.shotsPerRow == ShotsPerRow
    ensures g.field == map[] && g.status == Playing && g.shootCounter == 0
  {
    g := new Game(ShotsPerRow);
  }

  /** `onEventsConnected`: seeds the field with full rows, one per loop
      iteration, and then makes the first waiting bubble. */
  method OnEventsConnected(g: Game)
    requires g.Valid() && g.field == map[] && g.status == Playing
    modifies g
    ensures g.Valid() && g.status == Playing
    ensures FullRows(g.field, XLimit, 8)
    ensures g.nextColor in UsedColors(g.field)
  {
    g.SeedRows(HalfLoopCount(YLimit));
  }
}

/** The callback version of the bubble shooter (`js/core.js`): the same
    engine, seeded by the constructor itself. */
module BubbleShooterCallbacks {
  import opened BubbleField
  import opened Common
  import opened BubbleGame
  import BubbleShooterJs

  /** `new Game(...)`: playing, nothing shot, no bubble in flight, the field
      seeded with 8 full rows and the first waiting bubble made. */
  method NewGame() returns (g: Game)
    ensures fresh(g) && g.Valid() && g.shotsPerRow == BubbleShooterJs.ShotsPerRow
    ensures g.status == Playing && g.shootCounter == 0 && !g.shotMoving
    ensures FullRows(g.field, XLimit, 8)
    ensures g.nextColor in UsedColors(g.field)
  {
    g := new Game(BubbleShooterJs.ShotsPerRow);
    g.SeedRows(BubbleShooterJs.HalfLoopCount(YLimit));
  }
}

/** The Python port (`bubbleshooter/core.py`): a row every 5 counted shots,
    and seeding by `create_initial_bubbles`. */
module BubbleShooterPy {
  import opened BubbleField
  import opened Common
  import opened BubbleGame

  /** `_NEW_ROW_FREQUENCY`. */
  const NewRowFrequency: int := 5

  /** How many times `for i in range(limit // 2)` runs; `//` floors. */
  function FloorHalf(limit: int): (n: nat)
    ensures limit >= 0 ==> 2 * n <= limit < 2 * n + 2
    ensures limit < 0 ==> n == 0
  {
    if limit <= 0 then 0 else limit / 2
  }

  /** A new game (`Game(...)`): nothing attached, playing, nothing shot. */
  method NewGame() returns (g: Game)
    ensures fresh(g) && g.Valid() && g.shotsPerRow == NewRowFrequency
    ensures g.field == map[] && g.status == Playing && g.shootCounter == 0 && !g.shotMoving
  {
    g := new Game(NewRowFrequency);
  }

  /** `create_initial_bubbles`: 7 full rows, then the first waiting bubble. */
  method CreateInitialBubbles(g: Game)
    requires g.Valid() && g.field == map[] && g.status == Playing
    modifies g
    ensures g.Valid() && g.status == Playing
    ensures FullRows(g.field, XLimit, 7)
    ensures g.nextColor in UsedColors(g.field)
  {
    g.SeedRows(FloorHalf(YLimit));
  }

  /** `get_width`: 41 bubble radii. */
  lemma WidthIs410()
    ensures Width(XLimit) == 410
  {
  }
}
