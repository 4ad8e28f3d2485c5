# Verified model of the bubble-shooter-clone game cores

This project models, in Dafny, the game logic of a small collection of browser
and desktop games. Each game's logic is separate from its user interface.

The bubble shooter is the main part. It exists in four near-identical versions:

- `bubbleshooter/js/core.js` is the event version.
- `js/core.js` is the callback version.
- `bubbleshooter/core.py` is the Python port.
- `bubbleshooter.py` is the earliest version, with a `BubbleManager` and a `Shooter`.

All four share one bubble field:

- a sparse map from cells `(xCount, yCount)` of an offset hexagonal grid to colours;
- the six neighbours of a cell, chosen by row parity;
- the depth-first search for the same-colour cluster of a cell;
- the pruning of bubbles that no longer hang from row 0;
- row injection: everything moves one row down and row 0 is refilled;
- the shot counter, which adds rows every few non-popping shots;
- the win / game-over status;
- the scan for the nearest empty cell where a shot bubble attaches.

The modules are laid out as follows:

- `hexgrid.dfy`, `floodfill.dfy` and `bubblefield.dfy` state and prove these once.
- `bubblegame.dfy` is the game object of the three later versions, as a class whose methods are proved against those definitions.
- `versions.dfy` holds the per-version constants and seeding.
- `legacy.dfy` models `bubbleshooter.py`.

The other game cores are modelled too:

- minesweeper (`minesweeper.dfy`);
- the falling-block game (`tetris.dfy`);
- the shared card-game base class and its layout-string parser (`cards.dfy`);
- Klondike (`klondike.dfy`);
- Spider (`spider.dfy`).

State that the sources update in place is modelled as classes:

- game objects;
- the map of card piles;
- the landed squares.

Their methods keep the loops of the source and are proved against pure specification functions. Lemmas then prove the specification functions' properties:

- every card stays in play;
- the flood fills compute exactly the connected components;
- pruning leaves nothing loose and is idempotent;
- wiping full lines leaves no full line.

Row injection can detach bubbles that hung from the ceiling before the injection. Moving a row down flips its parity, so two bubbles that touched may no longer touch. `BubbleField.InjectionCanLoosen` exhibits such a field. The sources run the loose-bubble pass after every injection, which is why their behaviour is still right.

`HexGrid.JsNeighbors` models the JavaScript `%`, which truncates toward zero. It differs from Python's floored `%` only on negative rows, and no bubble ever occupies one.

A card dealt from the Spider stock is still face down when `rawMove` looks for a completed run on the tableau, and `stockToTableau` turns it over only afterwards. So dealing a row never sends a run to a foundation, and each tableau gains exactly one face-up card (`Spider.StockStepDeals`, `Spider.StockRoundDeals`).

## Model

| member | source | states |
|---|---|---|
| HexGrid.Parity | bubbleshooter/core.py:194-195 | the row parity is 0 or 1 and has the parity of the row |
| HexGrid.JsParity | bubbleshooter/js/core.js:239-240 | JavaScript's `y % 2` agrees with the floored parity on rows 0 and below them it is -1 on odd rows |
| HexGrid.Neighbors | bubbleshooter/js/core.js:225-243 | a cell has six listed neighbours |
| HexGrid.JsNeighbors | js/core.js:215-233 | the truncating-`%` neighbour list also has six entries |
| HexGrid.NeighborsCharacterized | bubbleshooter/core.py:182-196 | the neighbours are exactly the two cells beside the cell and two cells in each adjacent row at columns shifted by the parity; a cell is not its own neighbour; the six are distinct |
| HexGrid.JsNeighborsAgree | js/core.js:215-233 | the JavaScript list equals the Python one on every row from 0 down and differs on odd negative rows |
| HexGrid.AdjacentSymmetric | bubbleshooter.py:127-141 | being neighbours is symmetric |
| HexGrid.JsAdjacencyAsymmetricAboveRowZero | bubbleshooter/js/core.js:238-241 | with truncating parity, cell (0,-1) neighbours (0,0) but not the other way round |
| FloodFill.SameColorCells | bubbleshooter/js/core.js:252-253 | exactly the occupied cells holding the colour |
| FloodFill.ClusterInField | bubbleshooter/js/core.js:245-262 | the cluster of an occupied cell contains it and only occupied cells |
| FloodFill.CollectCluster | bubbleshooter/js/core.js:249-258 | one `recurser` call records the cell, keeps the list duplicate-free and inside the component, and closes the cell under same-colour adjacency |
| FloodFill.VisitNeighbor | bubbleshooter/js/core.js:251-257 | visiting a neighbour records it when it has the colour and was not yet found, keeping the same invariants |
| FloodFill.SameColorComponent | bubbleshooter/js/core.js:245-262 | the returned list starts with the start cell, has no duplicates and lists exactly the same-colour connected component |
| FloodFill.Roots | bubbleshooter/js/core.js:157-159 | exactly the occupied cells of row 0 in the playing columns |
| FloodFill.MarkAnchored | bubbleshooter/js/core.js:148-155 | a marking call only marks anchored cells, marks the cell when occupied, and keeps the marked set closed under occupied adjacency |
| FloodFill.AnchoredCells | bubbleshooter/js/core.js:146-159 | the marking phase yields exactly the cells connected through occupied cells to an occupied row-0 cell |
| FloodFill.PruneLeavesNoLoose | bubbleshooter/js/core.js:161-175 | after one pruning pass every remaining cell hangs from the ceiling |
| FloodFill.PruneKeeps | bubbleshooter/js/core.js:161-167 | pruning keeps exactly the anchored cells with their colours |
| FloodFill.PruneNoLooseUnchanged | bubbleshooter/js/core.js:169-175 | a field with nothing loose is left unchanged, so the repeated pass stops |
| FloodFill.PruneIdempotent | bubbleshooter.py:57-76 | a second pruning pass changes nothing |
| BubbleField.UsedColors | bubbleshooter/js/core.js:178-184 | a colour is used exactly when some occupied cell holds it |
| BubbleField.UsedColorsNonEmpty | bubbleshooter/js/core.js:104-107 | a non-empty field has a colour to draw the next bubble from |
| BubbleField.RowsToAddCountsMissing | bubbleshooter/js/core.js:193-196 | for palette colours, one row plus one per palette colour missing from them, and a single row exactly when none is missing |
| BubbleField.RowsToAddForField | bubbleshooter/js/core.js:178-196 | for the colours left on a field, one row plus one per palette colour no bubble has any more, and a single row exactly when every colour is still there |
| BubbleField.PaletteSizeIsSize | bubbleshooter/js/core.js:4 | the palette has six colours |
| BubbleField.RowsToAddPositive | bubbleshooter/js/core.js:193-196 | an injection with palette colours adds at least one row |
| BubbleField.ScanRows | bubbleshooter/js/core.js:122-134 | the status scan reports "no row too low" exactly when every cell is settled, "game over" only for a placeable cell on a row at or past the limit, and an error only for a cell outside the columns or on a negative row, and no error when every cell is placeable |
| BubbleField.KeyList | bubbleshooter/js/core.js:162 | the loop visits every occupied cell exactly once |
| BubbleField.ShiftDown | bubbleshooter/core.py:154-156 | every bubble moves from `(x, y)` to `(x, y + 1)` with its colour |
| BubbleField.RowsInjectedStep | bubbleshooter/js/core.js:198-214 | injecting `i` rows and then one more is injecting `i + 1` rows |
| BubbleField.RowsInjectedWellFormed | bubbleshooter/js/core.js:198-214 | injection keeps every bubble in the columns, on rows from 0, in palette colours |
| BubbleField.RowsInjectedZero | bubbleshooter.py:103-105 | injecting no rows changes nothing |
| BubbleField.FullRowsGrow | bubbleshooter/js/core.js:84-87 | one injection into `n` full rows gives `n + 1` full rows |
| BubbleField.FullRowsPlaying | bubbleshooter/js/core.js:115-135 | 1 to `yLimit` full rows are a game still being played |
| BubbleField.FullRowsNoLoose | bubbleshooter/js/core.js:145-159 | in full rows every bubble hangs from the ceiling |
| BubbleField.InjectionCanLoosen | bubbleshooter/js/core.js:198-216 | a field with nothing loose can have a loose bubble after one injected row |
| BubbleField.NearestEmptyCell | bubbleshooter/js/core.js:282-296 | no cell exactly when the scan area is full; otherwise the empty cell at strictly smallest distance, the first such in column-major scan order |
| BubbleGame.Game.constructor | bubbleshooter/js/core.js:75-82 | an empty field, playing, nothing shot, nothing notified |
| BubbleGame.Game.UpdateStatus | bubbleshooter/js/core.js:115-135 | the status becomes win on an empty field, game over when a bubble is on a row at or past the limit, otherwise stays playing; a change is notified once |
| BubbleGame.Game.RemoveBubble | js/core.js:126-132 | the bubble leaves the field and is handed to the destroy notification |
| BubbleGame.Game.RemoveAllBut | bubbleshooter/js/core.js:161-167 | the field keeps exactly the kept cells with their colours; the pass reports work exactly when something was removed; each removed cell is notified once |
| BubbleGame.Game.PrunePass | bubbleshooter/js/core.js:146-167 | one pass leaves the pruned field and reports work exactly when it shrank the field |
| BubbleGame.Game.RemoveLooseBubbles | bubbleshooter/js/core.js:145-176 | the field ends pruned, each removed bubble notified once, the status recomputed exactly once |
| BubbleGame.Game.InjectRow | bubbleshooter/js/core.js:198-213 | the field is the old field with one row injected in the given colours |
| BubbleGame.Game.AddBubbleRowOrRows | bubbleshooter/js/core.js:187-217 | `RowsToAdd` rows are injected, loose bubbles pruned and the status recomputed |
| BubbleGame.Game.CreateNextShotBubble | bubbleshooter/js/core.js:104-107 | the next bubble has a colour still in the field |
| BubbleGame.Game.PopCells | bubbleshooter/js/core.js:303-305 | the listed cells leave the field and are notified in order |
| BubbleGame.Game.AttachBubble | bubbleshooter/js/core.js:264-318 | nothing happens unless the shot may attach; then the bubble goes to the nearest empty cell and the field, counter and status are those of popping or counting the shot |
| BubbleGame.Game.PopCluster | bubbleshooter/js/core.js:301-316 | the cluster is removed, loose bubbles pruned, the status recomputed |
| BubbleGame.Game.CountShot | bubbleshooter/js/core.js:306-316 | the counter goes up by one; on a multiple of the shots per row rows are injected first; then loose bubbles are pruned |
| BubbleGame.Game.InjectThenPrune | bubbleshooter/js/core.js:309-316 | rows in the used colours are injected, then loose bubbles are pruned |
| BubbleGame.Game.Shoot | js/core.js:310-313 | the waiting bubble is in flight and the next one has a used colour |
| BubbleGame.Game.Frame | js/core.js:340-344 | the bubble stops moving exactly when it attaches |
| BubbleGame.Game.SeedRows | js/core.js:81-85 | `calls` injections of the whole palette give that many full rows, still playing |
| BubbleShooterJs.HalfLoopCount | bubbleshooter/js/core.js:85 | the loop `i < limit/2` runs for exactly the `i` with `2i < limit` |
| BubbleShooterJs.SeedCount | bubbleshooter/js/core.js:85-87 | 15/2 makes the seeding loop run 8 times |
| BubbleShooterJs.NewGame | bubbleshooter/js/core.js:75-82 | a new game is empty, playing, with 4 shots per row |
| BubbleShooterJs.OnEventsConnected | bubbleshooter/js/core.js:84-89 | seeding gives 8 full rows and a waiting bubble of a used colour |
| BubbleShooterCallbacks.NewGame | js/core.js:65-86 | a new game has 8 full rows, is playing, nothing shot or moving |
| BubbleShooterPy.FloorHalf | bubbleshooter/core.py:86 | `limit // 2` iterations |
| BubbleShooterPy.NewGame | bubbleshooter/core.py:61-81 | a new game is empty, playing, with a row every 5 counted shots |
| BubbleShooterPy.CreateInitialBubbles | bubbleshooter/core.py:85-88 | 7 full rows and a waiting bubble of a used colour |
| BubbleShooterPy.WidthIs410 | bubbleshooter/core.py:170-171 | the playing area is 410 pixels wide |
| LegacyBubbles.RowColors | bubbleshooter.py:93-94 | without colours, exactly the colours in the field |
| LegacyBubbles.LegacyRowsCountMissing | bubbleshooter.py:96-103 | no row exactly when there are no colours; otherwise one row plus one per palette colour missing from them |
| LegacyBubbles.BubbleManager.constructor | bubbleshooter.py:48-54 | `y_limit // 2` full rows |
| LegacyBubbles.BubbleManager.RemoveLooseBubbles | bubbleshooter.py:57-76 | the field ends pruned |
| LegacyBubbles.BubbleManager.DeleteAllBut | bubbleshooter.py:69-72 | exactly the kept cells remain; work reported exactly when something was deleted |
| LegacyBubbles.BubbleManager.CheckGameOver | bubbleshooter.py:79-85 | game over exactly when a bubble is on a row at or past the limit |
| LegacyBubbles.BubbleManager.InjectRow | bubbleshooter.py:106-110 | one injected row in the given colours |
| LegacyBubbles.BubbleManager.AddBubbleRow | bubbleshooter.py:92-113 | the chosen number of rows injected and pruned; `GameOverError` exactly when a bubble then sits too low |
| LegacyBubbles.BubbleManager.AttachBubble | bubbleshooter.py:159-195 | not attached when not eligible; no place left exactly when the scan area is full; otherwise the bubble lands at the nearest empty cell, a cluster of 3 or more is deleted and the result says which |
| LegacyBubbles.BubbleManager.DeleteCells | bubbleshooter.py:187-188 | the listed cells are deleted |
| LegacyBubbles.Shooter.constructor | bubbleshooter.py:243-252 | a palette colour is waiting, no shot counted |
| LegacyBubbles.Shooter.IncrementCounter | bubbleshooter.py:298-301 | the counter goes up by one and a row is asked for exactly on multiples of 5 |
| LegacyBubbles.Shooter.Shoot | bubbleshooter.py:290-296 | the waiting colour is shot and the next one is one of the given colours |
| Minesweeper.Create | minesweeper/js/core.js:5-9 | too many mines is an error exactly when `mineCount > width * height - 1` |
| Minesweeper.Game.constructor | minesweeper/js/core.js:10-23 | a board with nothing opened, mined or flagged, playing |
| Minesweeper.Grid | minesweeper/js/core.js:16-20 | the squares are exactly those in bounds |
| Minesweeper.GridSize | minesweeper/js/core.js:16-20 | a board has `width * height` squares |
| Minesweeper.Neighbors | minesweeper/js/core.js:25-41 | exactly the in-bounds squares touching the square |
| Minesweeper.InBoundsOnly | minesweeper/js/core.js:37-40 | the filter keeps exactly the in-bounds squares |
| Minesweeper.CountZero | minesweeper/js/core.js:88 | the mine count around a safe square is zero exactly when no mine touches it |
| Minesweeper.Game.CountNeighborMines | minesweeper/js/core.js:43-51 | the number of listed neighbours that are mines |
| Minesweeper.Game.AddMines | minesweeper/js/core.js:62-73 | exactly `mineCount` mines, on the board, never on the first opened square |
| Minesweeper.FloodStep | minesweeper/js/core.js:88-91 | opening spreads from a square with no mine around it to each neighbour |
| Minesweeper.FloodStops | minesweeper/js/core.js:86-88 | opening does not spread from a mine or a square with a mine around it |
| Minesweeper.FloodHasStart | minesweeper/js/core.js:80 | a square opens itself |
| Minesweeper.ZeroClosedContainsFlood | minesweeper/js/core.js:75-93 | opened squares closed under spreading contain everything the spread reaches |
| Minesweeper.Game.OpenRecurser | minesweeper/js/core.js:75-93 | mines are laid once, never on the first square; the opened squares grow by the square and only by what its spread reaches; a mine ends the game |
| Minesweeper.Game.OpenNeighbors | minesweeper/js/core.js:89-91 | opening the neighbours of a zero square stays within its spread and closes it |
| Minesweeper.Game.Open | minesweeper/js/core.js:95-118 | nothing when not playing or flagged; otherwise the spread is opened, a mine ends the game, and the game is won exactly when no safe square is left closed |
| Minesweeper.Game.SafeSquareLeft | minesweeper/js/core.js:108-116 | the scan finds a closed safe square exactly when not all safe squares are open |
| Minesweeper.Toggled | minesweeper/js/core.js:124 | only the square's flag flips |
| Minesweeper.ToggledTwice | minesweeper/js/core.js:120-125 | two toggles restore the flags |
| Minesweeper.Game.ToggleFlag | minesweeper/js/core.js:120-125 | the flag flips only on an unopened square while playing |
| Minesweeper.Game.CountAround | minesweeper/js/core.js:132-141 | the loop counts the mines and the flags among the neighbours |
| Minesweeper.FloodSafe | minesweeper/js/core.js:75-93 | the spread from a safe square never reaches a mine |
| Minesweeper.FirstMine | minesweeper/js/core.js:143-147 | the first unflagged mine among the listed squares, or their count when there is none |
| Minesweeper.OpenedInTurnStep | minesweeper/js/core.js:95-118 | one more `open` of the next listed square keeps `OpenedInTurn`: the union of the spreads of the unflagged squares so far while playing, up to and including the first mine on a loss, and every safe square on a win |
| Minesweeper.OpenSeqOutcome | minesweeper/js/core.js:143-147 | opening the listed squares in turn adds exactly the union of the spreads of the unflagged ones while the game goes on, stops after the first unflagged mine with the game lost, and wins only with every safe square open; while playing, no unflagged listed square is a mine |
| Minesweeper.Game.OpenAroundIfSafe | minesweeper/js/core.js:127-148 | off an opened square, while playing, or with flags and mines around it differing, nothing changes; otherwise the board and status are those of opening every neighbour in turn, as `OpenedInTurn` gives them, and a game still going on has a mine under no unflagged neighbour |
| Minesweeper.Game.OpenEach | minesweeper/js/core.js:143-147 | the opened squares and status are those of calling `open` on each listed square in turn |
| TetrisClone.ShapesOk | js/tetrisclone.js:4-205 | every shape has points and uses 1, 2 or 4 rotations |
| TetrisClone.Turn | js/tetrisclone.js:232-237 | a point turns exactly for rotations 0 to 3, else the error |
| TetrisClone.TurnIsQuarterTurns | js/tetrisclone.js:232-237 | rotation `r` is `r` quarter turns and four quarter turns are none |
| TetrisClone.TurnInjective | js/tetrisclone.js:232-237 | turning never merges two points |
| TetrisClone.Coords | js/tetrisclone.js:230-240 | squares exactly for rotations 0 to 3, one per point |
| TetrisClone.CoordsShift | js/tetrisclone.js:239 | moving the block moves each square by the same amount |
| TetrisClone.CoordsDistinct | js/tetrisclone.js:230-240 | distinct points give distinct squares |
| TetrisClone.MaxY | js/tetrisclone.js:221 | the largest `y` of the points |
| TetrisClone.NewBlock | js/tetrisclone.js:215-221 | rotation 0, the column left of the middle and, as `NewBlockHidden` proves, wholly above the area |
| TetrisClone.NewBlockHidden | js/tetrisclone.js:217-221 | a new block lies wholly above the area, its lowest square right above row 0 |
| TetrisClone.Zip | js/tetrisclone.js:244-249 | pairs exactly when the lengths agree, one per index |
| TetrisClone.ZipUnzip | js/tetrisclone.js:248 | the pairs' first and second items are the zipped arrays |
| TetrisClone.ArraysEqual | js/tetrisclone.js:251-256 | true exactly when the arrays are equal |
| TetrisClone.RotationsUp | js/tetrisclone.js:348 | `rotate` counts up by one before the last rotation |
| TetrisClone.NextRotationUp | js/tetrisclone.js:348 | one `rotate` below the last rotation adds one |
| TetrisClone.RotationsAdd | js/tetrisclone.js:348 | `a + b` rotations are `a` then `b` rotations |
| TetrisClone.RotationsCycle | js/tetrisclone.js:348 | rotating stays among the used rotations and `rotationCount` rotations come back |
| TetrisClone.RotationsToZero | js/tetrisclone.js:348 | the last rotation wraps round to 0 |
| TetrisClone.LevelStep | js/tetrisclone.js:297-303 | the level rises by one exactly when the attached count reaches a multiple of 50 |
| TetrisClone.LevelMonotone | js/tetrisclone.js:401-403 | the level never goes down |
| TetrisClone.Wiped | js/tetrisclone.js:352-371 | wiping keeps the number of rows |
| TetrisClone.WipedNoFullRow | js/tetrisclone.js:352-371 | no row is full after wiping |
| TetrisClone.WipedShaped | js/tetrisclone.js:352-371 | wiping keeps `height` rows of `width` squares |
| TetrisClone.WipedIdempotent | js/tetrisclone.js:352-371 | wiping twice is wiping once |
| TetrisClone.WipedKeepsBottom | js/tetrisclone.js:356-358 | rows below the last full row stay in place |
| TetrisClone.WipedNothingFull | js/tetrisclone.js:354-355 | without a full row nothing changes |
| TetrisClone.WipeStep | js/tetrisclone.js:355-358 | one loop step splices out a full row and puts an empty row on top |
| TetrisClone.Stamp | js/tetrisclone.js:291-294 | the grid keeps its size; `StampTakes` proves the block's squares become taken and no square is freed |
| TetrisClone.StampTakes | js/tetrisclone.js:291-294 | the attached block's squares are taken and no square is freed |
| TetrisClone.TetrisCloneCore.constructor | js/tetrisclone.js:259-267 | empty landed rows, playing, a new block |
| TetrisClone.TetrisCloneCore.SetMovingBlockIfPossible | js/tetrisclone.js:306-330 | the copy replaces the block exactly when every square is allowed |
| TetrisClone.TetrisCloneCore.MoveHorizontally | js/tetrisclone.js:332-340 | while playing the block moves when it fits there |
| TetrisClone.TetrisCloneCore.Rotate | js/tetrisclone.js:342-350 | while playing the block turns to its next rotation when it fits |
| TetrisClone.TetrisCloneCore.AttachBlock | js/tetrisclone.js:291-304 | the block's squares take the shape name and one more block is attached |
| TetrisClone.TetrisCloneCore.WipeFullLines | js/tetrisclone.js:352-371 | the landed rows become their wiped rows |
| TetrisClone.TetrisCloneCore.LandBlock | js/tetrisclone.js:389-393 | attach, wipe and a new block |
| TetrisClone.TetrisCloneCore.MoveDown | js/tetrisclone.js:383-399 | nothing when not playing; moves exactly when it fits one row lower; when the time is up a block in the area lands and one partly above ends the game |
| CardGames.Digits | js/cards.js:26 | a non-empty string of digits |
| CardGames.DigitsRoundTrip | js/cards.js:26 | reading back the digits gives the number |
| CardGames.DigitsInjective | js/cards.js:26 | different numbers have different digits |
| CardGames.NumberString | js/cards.js:20-28 | a non-empty label |
| CardGames.NumberStringInjective | js/cards.js:20-28 | the labels of 1 to 13 are distinct and 2 to 10 are their digits |
| CardGames.Deck | js/cards.js:113-121 | 52 cards |
| CardGames.DeckComplete | js/cards.js:113-121 | every suit and number 1 to 13 appears exactly once |
| CardGames.CreateCards | js/cards.js:113-121 | the loop builds the deck |
| CardGames.PutNumberBetween | js/cards.js:209-217 | the result is in range and an in-range number is kept |
| CardGames.PutNumberBetweenNearest | js/cards.js:209-217 | no value of the range is nearer to the number; clamping twice is clamping once |
| CardGames.Split | js/cards.js:71 | at least one part, no part holds the separator |
| CardGames.JoinSplit | js/cards.js:71 | joining the parts gives the string back |
| CardGames.SplitJoin | js/cards.js:71 | splitting joined separator-free parts gives them back |
| CardGames.LayoutFine | js/cards.js:65-74 | with no layout error every row is digit-free with `width` parts |
| CardGames.CellsFaithful | js/cards.js:76-84 | every listed place is in the layout with its kind, once |
| CardGames.CellsComplete | js/cards.js:76-84 | every place of the layout is listed |
| CardGames.CollectRow | js/cards.js:76-84 | one row's places are appended to their kinds |
| CardGames.CollectKinds | js/cards.js:61-85 | an error exactly on a digit or a part count mismatch; else each kind maps to its places in order |
| CardGames.IdsFor | js/cards.js:98-101 | one id per place |
| CardGames.IdsOfKind | js/cards.js:98-101 | the ids are distinct and start with the kind |
| CardGames.NameKind | js/cards.js:96-106 | one kind's places are named and entered in all three tables |
| CardGames.NamePlaces | js/cards.js:95-107 | every kind's places are named |
| CardGames.CollectedWhere | js/cards.js:76-84 | collected places are where the layout puts their kind |
| CardGames.CollectedAll | js/cards.js:76-84 | every place of the layout is collected |
| CardGames.GetCardPlaces | js/cards.js:55-111 | an error for no rows, a digit or a part count mismatch; otherwise tables whose ids, coordinates and kinds agree with the layout and invert each other |
| CardGames.IndexOf | js/cards.js:185 | the first index of the card, or -1 exactly when it is absent |
| CardGames.Reverse | klondike/js/core.js:256-260 | the sequence in reverse order |
| Klondike.MakeCardPlace | klondike/js/core.js:55-72 | stock and discard take no number, foundations 0 to 3, tableaus 0 to 6, any other kind is unknown |
| Klondike.CardPlaceRoundTrip | klondike/js/core.js:55-72 | a valid place is rebuilt from its kind and number |
| Klondike.FoundationStaysBuilt | klondike/js/core.js:198-205 | a foundation stays Ace upwards in one suit |
| Klondike.TriFacts | klondike/js/core.js:135-140 | dealing takes 28 cards |
| Klondike.WithPile | klondike/js/core.js:105-113 | only the chosen pile changes |
| Klondike.MoveTable | klondike/js/core.js:231-239 | the card and those above it move, in order, onto the destination |
| Klondike.MoveKeepsCards | klondike/js/core.js:231-239 | a move keeps every card in play |
| Klondike.DealStep | klondike/js/core.js:135-140 | one deal round moves `i + 1` stock cards to tableau `i` |
| Klondike.DealKeepsCards | klondike/js/core.js:133-141 | the deal keeps all 52 cards |
| Klondike.ReverseKeepsCards | klondike/js/core.js:256-260 | turning the discard over keeps its cards |
| Klondike.Game.constructor | klondike/js/core.js:86-103 | all piles empty and no card visible |
| Klondike.NewGame | klondike/js/core.js:86-89 | an error exactly when there are not 52 cards |
| Klondike.Game.MoveCards | klondike/js/core.js:115-130 | cards are appended and the game is won when all foundations hold 13 |
| Klondike.Game.DealTo | klondike/js/core.js:136-139 | one deal round, its top card shown |
| Klondike.Game.Deal | klondike/js/core.js:133-141 | 24 cards left in the stock, tableau `i` holds `i + 1`, their tops visible |
| Klondike.Game.CanMaybeMoveSomewhere | klondike/js/core.js:170-184 | never from the stock, only the top of the discard or a foundation, any visible tableau card |
| Klondike.Game.CanMove | klondike/js/core.js:186-224 | an error exactly when the card is not in the source; else the foundation and tableau rules |
| Klondike.Game.CanMoveNeedsDrag | klondike/js/core.js:170-224 | an allowed move is of a card that can be dragged |
| Klondike.Game.RawMove | klondike/js/core.js:231-244 | an error exactly when the card is not in the source; else the move and the new top of a tableau shown |
| Klondike.Game.Move | klondike/js/core.js:246-251 | moves exactly when allowed; a foundation stays built |
| Klondike.Game.TurnOverTop | klondike/js/core.js:262-264 | the top stock card goes to the discard, shown |
| Klondike.Game.TurnOverDiscard | klondike/js/core.js:255-260 | the discard goes back to the stock reversed, hidden |
| Klondike.Game.StockToDiscard | klondike/js/core.js:253-266 | one of the two cases above |
| Klondike.Game.FirstFoundationFor | klondike/js/core.js:269-275 | the first foundation that accepts the card |
| Klondike.Game.MoveCardToAnyFoundationIfPossible | klondike/js/core.js:268-277 | the card moves to the first foundation that accepts it, or nothing changes |
| Klondike.Game.FirstAutoSource | klondike/js/core.js:280-290 | the first tableau, then the discard, whose top card a foundation accepts |
| Klondike.Game.MoveAnyCardToAnyFoundationIfPossible | klondike/js/core.js:279-292 | that top card moves, or nothing changes |
| Klondike.Game.FindCurrentPlace | klondike/js/core.js:148-167 | the first place holding the card in search order, or an error when none does |
| Spider.PlaceIds | spider/js/core.js:16-21 | the ids are distinct and exactly the tableau ids start with `tableau` |
| Spider.CheckWin | spider/js/core.js:31-34 | won exactly when every foundation holds 13 cards |
| Spider.MovePiles | js/cards.js:182-191 | the card and those above it move, in order, onto the destination |
| Spider.MovePilesKeepsCards | js/cards.js:182-191 | a move keeps every card in play |
| Spider.CanMoveTo | spider/js/core.js:80-86 | any card may go onto an empty pile, otherwise only a card one lower than the top card; `DraggedNotToItself` and `MoveExtendsRun` prove what that guarantees |
| Spider.CompletedRunKingToAce | spider/js/core.js:98-104 | a completed run reads King down to Ace |
| Spider.LastFreeFoundation | spider/js/core.js:107-112 | the last empty foundation |
| Spider.AfterMove | spider/js/core.js:88-94 | visible cards and a win are kept |
| Spider.AutoFoundation | spider/js/core.js:96-114 | never a missing-card error; visible cards and a win kept |
| Spider.RawMoveOn | spider/js/core.js:88-115 | an error exactly when the card is not in the source, then nothing changes |
| Spider.RawMoveKeepsCards | spider/js/core.js:88-115 | `rawMove` keeps every card in play |
| Spider.AutoFoundationOutcome | spider/js/core.js:98-113 | nothing happens without a completed run; no free foundation exactly when all are taken |
| Spider.AutoFoundationMovesRun | spider/js/core.js:106-111 | the run goes to the last empty foundation, King at the bottom |
| Spider.StockStep | spider/js/core.js:127-129 | an empty stock is an error |
| Spider.StockStepKeepsCards | spider/js/core.js:127-129 | a stock step keeps every card |
| Spider.StockStepTakesTop | spider/js/core.js:127-128 | the top stock card leaves the stock |
| Spider.StockRound | spider/js/core.js:126-130 | the loop over the ten tableaus stops at the first failed step; `StockRoundDeals` proves what it deals |
| Spider.StockStepDeals | spider/js/core.js:126-130 | a face-down top stock card goes face up onto tableau `i`, the stock loses exactly it, and no other pile changes |
| Spider.StockRoundDeals | spider/js/core.js:117-131 | from a stock of distinct face-down cards the round succeeds, each tableau from `i` on gains exactly one face-up card, the `k`-th card from the top going to tableau `i + k`, the stock loses exactly those cards and every other pile is unchanged |
| Spider.StockRoundKeepsCards | spider/js/core.js:117-131 | dealing a row keeps every card |
| Spider.StockRoundNeverShort | spider/js/core.js:126-130 | enough stock means no missing-card error |
| Spider.StockRoundTakesTen | spider/js/core.js:126-130 | a row takes the top ten stock cards |
| Spider.DraggedNotToItself | spider/js/core.js:53-86 | a dragged card is never accepted by its own pile |
| Spider.MoveExtendsRun | spider/js/core.js:65-85 | dropping a run keeps the destination descending |
| Spider.SpiderDeck | spider/js/core.js:5-14 | 104 cards |
| Spider.SpiderDeckComplete | spider/js/core.js:5-14 | 8 spades of each number, in order, all distinct |
| Spider.CreateSpiderCards | spider/js/core.js:5-14 | the loop builds that deck |
| Spider.DealtCounts | spider/js/core.js:40-46 | after `k` tableaus `5k + min(k, 4)` cards are dealt |
| Spider.SpiderGame.constructor | spider/js/core.js:23-29 | all piles empty, no card visible |
| Spider.SpiderGame.MoveCards | js/cards.js:144-159 | cards appended, win checked when asked |
| Spider.SpiderGame.BaseRawMove | js/cards.js:182-191 | an error exactly when the card is not in the source; else the move |
| Spider.SpiderGame.MoveAndTurnOver | spider/js/core.js:89-94 | the move and the exposed tableau card shown |
| Spider.SpiderGame.RawMove | spider/js/core.js:88-115 | the state and result are `RawMoveOn` |
| Spider.SpiderGame.IsCompletedRun | spider/js/core.js:98-104 | the loop decides a completed run |
| Spider.SpiderGame.FindFreeFoundation | spider/js/core.js:107-112 | the last empty foundation |
| Spider.SpiderGame.MoveCompletedRun | spider/js/core.js:106-113 | the state and result are `AutoFoundation` |
| Spider.SpiderGame.Move | js/cards.js:193-198 | an invalid move changes nothing; else `RawMoveOn` |
| Spider.SpiderGame.FindCurrentPlace | js/cards.js:162-169 | the first place holding the card, or an error when none does |
| Spider.SpiderGame.CardInSomeTableau | spider/js/core.js:75-78 | true exactly when a tableau holds the card |
| Spider.SpiderGame.CanMaybeMoveSomewhere | spider/js/core.js:53-73 | a visible tableau card heading a descending run; the error exactly when it is not in the source |
| Spider.SpiderGame.DealTo | spider/js/core.js:45-50 | one deal round, its top card shown |
| Spider.SpiderGame.Deal | spider/js/core.js:36-51 | 50 cards left in the stock, tableau `i` gets its share, tops visible |
| Spider.SpiderGame.StockToTableauStep | spider/js/core.js:126-130 | one step is `StockStep` |
| Spider.SpiderGame.StockToTableau | spider/js/core.js:117-131 | a stock not a multiple of ten is an error, an empty stock changes nothing, else `StockRound` |

## Left out

- Floating-point geometry is not modelled. This covers `_getCoords`, the distances, `get_height`, the shooting angle and its correction, and the moment a flying bubble may attach. The distance becomes a parameter `dist` and the attach moment a boolean `eligible`.
- Randomness becomes a choice the model leaves open. This covers the colour of new bubbles and rows, mine positions, the next falling shape and the shuffle. The shuffled deck is a parameter constrained to be a permutation.
- Timers, animation frames, drawing and input handling are not modelled, nor are the files that wire the UI (`index.js`, `ui.js`, `gui.py`, `__main__.py`).
- Event and callback notifications become ghost logs of destroyed cells and status changes. Bubble-creation and card-visibility events are not logged.
- Map iteration order is unspecified. `BubbleField.KeyList` lists the keys in some order, and the removal loops work in any order.
- Internal "must be playing" and "this cannot happen" throws become preconditions on the internal methods.
- `js/common.js` and `game.js` are not part of this model. Their status values are modelled as `Common.Status`.
- Minesweeper squares are stored as sets of opened, mined and flagged positions rather than as records per square.
- The falling block is a value. `copy` therefore needs no model, and `_doChangeEvents` / `_getShapeName` only feed the display. `getTimeout` is floating point.
- The card base class is modelled from `js/cards.js`. Spider imports `common/js/cards.js`, which is not part of this model.
- Card identity is an `id` field, and visibility is a set of visible cards.
- Conservation of cards is stated as lemmas over the pure move functions.
- The caching in `getCardPlaces` is not modelled. Spider's places are a datatype, and `Spider.IdOf` gives their layout ids.
- Klondike's `_detachCards` has an empty body and is not modelled. Its `createCards` is `CardGames.CreateCards`.
- The `window.asdf` debug global is not modelled.
- Spider.AutoFoundation: the recursive `rawMove` of the completed run is flattened into one move in the pure function; the method keeps the recursion. The "not enough foundations" throw is the `NoFreeFoundation` error, and its unreachability in a real game is not proved.
- Spider.CanMoveTo: follows the code, so any card may go onto an empty pile, foundations included.
- Spider.SpiderGame.Deal: proved for the 104-card Spider deck only, which is the only deck the game deals.
- Spider.StockRoundTakesTen: requires a stock without repeated cards, as the cards of a real deck are distinct objects.
- Spider.StockRoundNeverShort: requires the same.
- Spider.StockRoundDeals: requires, besides distinct cards, that the stock's top cards are face down, as the deal leaves them. That every stock card stays face down through a game is not proved.
- BubbleGame.Game.AttachBubble: the snapping of the bubble's coordinates to the chosen cell is geometry and is left out.
- LegacyBubbles.BubbleManager.AttachBubble: the same.
