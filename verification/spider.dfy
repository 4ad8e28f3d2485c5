// Spider solitaire: two full decks of spades, eight foundations, ten
// tableaus. The game state is a map from place to pile, as in the shared
// card-game core, with the Spider rules layered on top: dealing, dragging
// descending runs, dealing a row from the stock and moving a completed King
// to Ace run onto a free foundation.
module Spider {
  import opened Wrappers
  import opened Common
  import opened CardGames

  // ---------------------------------------------------------------- places

  /** A place of the Spider layout: one stock, eight foundations, ten
      tableaus. */
  datatype Place = Stock | Foundation(i: int) | Tableau(i: int)

  predicate ValidPlace(p: Place) {
    match p
    case Stock => true
    case Foundation(i) => 0 <= i < 8
    case Tableau(i) => 0 <= i < 10
  }

  /** The id the layout gives a place: `stock`, `foundation0` to
      `foundation7`, `tableau0` to `tableau9`. */
  function IdOf(p: Place): string
    requires ValidPlace(p)
  {
    match p
    case Stock => "stock"
    case Foundation(i) => IdsFor("foundation", 8)[i]
    case Tableau(i) => IdsFor("tableau", 10)[i]
  }

  /** `id.startsWith('tableau')`. */
  predicate StartsWithTableau(id: string) {
    |id| >= 7 && id[..7] == "tableau"
  }

  lemma NoDigitIn(s: string)
    requires forall i | 0 <= i < |s| :: !('0' <= s[i] <= '9')
    ensures !HasDigit(s)
  {
  }

  /** Places and ids correspond one to one, and an id starts with
      `tableau` exactly when it names a tableau. */
  lemma PlaceIds(p: Place, q: Place)
    requires ValidPlace(p) && ValidPlace(q)
    ensures StartsWithTableau(IdOf(p)) <==> p.Tableau?
    ensures IdOf(p) == IdOf(q) <==> p == q
  {
    NoDigitIn("foundation");
    NoDigitIn("tableau");
    IdsOfKind("foundation", 8);
    IdsOfKind("tableau", 10);
    DigitFreePrefixOf("stock", []);
    assert "stock" + [] == "stock";
    if p.Foundation? {
      assert IdOf(p)[..7] == "foundat";
    }
    if p.Tableau? {
      assert IdOf(p)[..7] == "tableau";
    }
  }

  /** The places in the order the place table lists them, which is the
      order `findCurrentPlaceId` searches. */
  const Places: seq<Place> := [
    Stock,
    Foundation(0), Foundation(1), Foundation(2), Foundation(3),
    Foundation(4), Foundation(5), Foundation(6), Foundation(7),
    Tableau(0), Tableau(1), Tableau(2), Tableau(3), Tableau(4),
    Tableau(5), Tableau(6), Tableau(7), Tableau(8), Tableau(9)]

  /** Where a place stands in `Places`. */
  function PlaceIndex(p: Place): (k: int)
    requires ValidPlace(p)
    ensures 0 <= k < |Places| && Places[k] == p
  {
    match p
    case Stock => 0
    case Foundation(i) => 1 + i
    case Tableau(i) => 9 + i
  }

  lemma PlacesDistinct()
    ensures |Places| == 19
    ensures forall k | 0 <= k < |Places| :: ValidPlace(Places[k]) && PlaceIndex(Places[k]) == k
    ensures Distinct(Places)
  {
    forall k | 0 <= k < |Places|
      ensures ValidPlace(Places[k]) && PlaceIndex(Places[k]) == k
    {
      if k == 0 {
      } else if k < 9 {
        assert Places[k] == Foundation(k - 1);
      } else {
        assert Places[k] == Tableau(k - 9);
      }
    }
  }

  // ---------------------------------------------------------------- piles

  type Piles = map<Place, seq<Card>>

  /** The map holds a pile for every place of the layout and nothing else. */
  ghost predicate WellKeyed(piles: Piles) {
    forall p :: p in piles <==> ValidPlace(p)
  }

  /** Spider's `checkWin`: every foundation holds thirteen cards. */
  predicate CheckWin(piles: Piles)
    requires WellKeyed(piles)
  {
    forall i | 0 <= i < 8 :: |piles[Foundation(i)]| == 13
  }

  /** The base `rawMove` on the piles alone: the card and everything above
      it leave the source and land, in order, on the destination. */
  function MovePiles(piles: Piles, card: Card, src: Place, dst: Place): (r: Piles)
    requires WellKeyed(piles) && ValidPlace(src) && ValidPlace(dst)
    requires card in piles[src]
    ensures WellKeyed(r)
    ensures var s, i := piles[src], IndexOf(piles[src], card);
      && 0 <= i < |s| && s[i] == card && card !in s[..i]
      && (src != dst ==> r[src] == s[..i] && r[dst] == piles[dst] + s[i..])
      && (src == dst ==> r[src] == s)
    ensures forall p | p in piles && p != src && p != dst :: r[p] == piles[p]
  {
    var sourceArray := piles[src];
    var index := IndexOf(sourceArray, card);
    var left := piles[src := sourceArray[..index]];
    assert src == dst ==> sourceArray[..index] + sourceArray[index..] == sourceArray;
    left[dst := left[dst] + sourceArray[index..]]
  }

  /** The cards of the piles at `ps`, with multiplicity. */
  function CardsOf(ps: seq<Place>, piles: Piles): multiset<Card>
    requires forall k | 0 <= k < |ps| :: ps[k] in piles
  {
    if ps == [] then multiset{} else CardsOf(ps[..|ps| - 1], piles) + multiset(piles[ps[|ps| - 1]])
  }

  /** Every card on the table. */
  function Total(piles: Piles): multiset<Card>
    requires WellKeyed(piles)
  {
    PlacesDistinct();
    CardsOf(Places, piles)
  }

  lemma {:induction false} CardsOfOther(ps: seq<Place>, piles: Piles, k: Place, s: seq<Card>)
    requires forall j | 0 <= j < |ps| :: ps[j] in piles
    requires k !in ps
    ensures CardsOf(ps, piles[k := s]) == CardsOf(ps, piles)
  {
    if ps != [] {
      CardsOfOther(ps[..|ps| - 1], piles, k, s);
    }
  }

  /** Replacing one pile changes the cards by exactly the old and the new
      pile. */
  lemma {:induction false} CardsOfUpdate(ps: seq<Place>, piles: Piles, k: Place, s: seq<Card>)
    requires forall j | 0 <= j < |ps| :: ps[j] in piles
    requires Distinct(ps) && k in ps
    ensures CardsOf(ps, piles[k := s]) + multiset(piles[k]) == CardsOf(ps, piles) + multiset(s)
  {
    var init := ps[..|ps| - 1];
    if ps[|ps| - 1] == k {
      assert k !in init;
      CardsOfOther(init, piles, k, s);
      assert CardsOf(ps, piles[k := s]) == CardsOf(init, piles) + multiset(s);
      assert CardsOf(ps, piles) == CardsOf(init, piles) + multiset(piles[k]);
      MultisetCommute(CardsOf(init, piles), multiset(s), multiset(piles[k]));
    } else {
      assert k in init by {
        var j :| 0 <= j < |ps| && ps[j] == k;
        assert init[j] == k;
      }
      CardsOfUpdate(init, piles, k, s);
      var last := multiset(piles[ps[|ps| - 1]]);
      var updated := CardsOf(init, piles[k := s]);
      assert CardsOf(ps, piles[k := s]) == updated + last;
      assert CardsOf(ps, piles) == CardsOf(init, piles) + last;
      MultisetCommute(updated, last, multiset(piles[k]));
      MultisetCommute(CardsOf(init, piles), multiset(s), last);
    }
  }

  /** Moving cards between piles neither creates nor destroys a card. */
  lemma MovePilesKeepsCards(piles: Piles, card: Card, src: Place, dst: Place)
    requires WellKeyed(piles) && ValidPlace(src) && ValidPlace(dst)
    requires card in piles[src]
    ensures Total(MovePiles(piles, card, src, dst)) == Total(piles)
  {
    var r := MovePiles(piles, card, src, dst);
    if src == dst {
      assert r == piles;
    } else {
      var s, i := piles[src], IndexOf(piles[src], card);
      assert s == s[..i] + s[i..];
      MoveBetweenKeepsCards(piles, src, dst, s[..i], s[i..]);
    }
  }

  /** Splitting a pile and putting its upper part on another pile neither
      creates nor destroys a card. */
  lemma MoveBetweenKeepsCards(piles: Piles, src: Place, dst: Place, low: seq<Card>, high: seq<Card>)
    requires WellKeyed(piles) && ValidPlace(src) && ValidPlace(dst) && src != dst
    requires piles[src] == low + high
    ensures Total(piles[src := low][dst := piles[dst] + high]) == Total(piles)
  {
    PlacesDistinct();
    var left := piles[src := low];
    var r := left[dst := piles[dst] + high];
    assert left[dst] == piles[dst];
    assert Places[PlaceIndex(src)] == src && Places[PlaceIndex(dst)] == dst;
    CardsOfUpdate(Places, piles, src, low);
    CardsOfUpdate(Places, left, dst, piles[dst] + high);
    MultisetMoved(CardsOf(Places, piles), CardsOf(Places, left), CardsOf(Places, r),
      multiset(low), multiset(high), multiset(piles[dst]));
  }

  // ---------------------------------------------------------------- runs

  /** Each card is one lower than the card below it, as in 11 10 9 8. */
  predicate DescendingRun(run: seq<Card>) {
    forall i | 1 <= i < |run| :: run[i].number == run[i - 1].number - 1
  }

  /** The last card of a descending run is lower than the first by the
      run's length less one. */
  lemma {:induction false} RunTop(run: seq<Card>)
    requires DescendingRun(run) && run != []
    ensures Top(run).number == run[0].number - (|run| - 1)
  {
    if |run| > 1 {
      var init := run[..|run| - 1];
      assert DescendingRun(init);
      RunTop(init);
    }
  }

  /** The thirteen cards on top of the pile are, from the top down, Ace to
      King and all face up. */
  predicate CompletedRun(pile: seq<Card>, visible: set<Card>) {
    |pile| >= 13 && forall k | |pile| - 13 <= k < |pile| :: pile[k].number == |pile| - k && pile[k] in visible
  }

  /** A completed run read from the bottom is a King to Ace descending run. */
  lemma CompletedRunKingToAce(pile: seq<Card>, visible: set<Card>)
    requires CompletedRun(pile, visible)
    ensures var run := pile[|pile| - 13..];
      DescendingRun(run) && run[0].number == 13 && Top(run).number == 1
  {
    var run := pile[|pile| - 13..];
    forall i | 1 <= i < 13
      ensures run[i].number == run[i - 1].number - 1
    {
      assert run[i] == pile[|pile| - (13 - i)];
      assert run[i - 1] == pile[|pile| - (13 - i + 1)];
    }
    assert run[0] == pile[|pile| - 13];
  }

  /** The last empty foundation among the first `n`, the one a backwards
      search over the foundation ids meets first. */
  function LastFreeFoundation(piles: Piles, n: int): (r: Option<int>)
    requires WellKeyed(piles) && 0 <= n <= 8
    ensures r.Some? ==> 0 <= r.value < n && piles[Foundation(r.value)] == []
    ensures forall j | (if r.Some? then r.value + 1 else 0) <= j < n :: piles[Foundation(j)] != []
  {
    if n == 0 then None
    else if piles[Foundation(n - 1)] == [] then Some(n - 1)
    else LastFreeFoundation(piles, n - 1)
  }

  // ---------------------------------------------------------------- the rules on values

  datatype SpiderError = CardNotInSource | NoFreeFoundation | InvalidMove | StockNotDivisible | CardNotFound

  /** Everything a Spider game changes: the piles, the face-up cards and
      the status. */
  datatype Position = Position(piles: Piles, visible: set<Card>, status: Status)

  /** The card on top of a tableau becomes visible once the cards above it
      have left. */
  function Revealed(piles: Piles, src: Place): set<Card>
    requires WellKeyed(piles) && ValidPlace(src)
  {
    if src.Tableau? && piles[src] != [] then {Top(piles[src])} else {}
  }

  /** The base `rawMove` followed by Spider's turning face up of the tableau
      card the move exposed; the win check sees the moved piles. */
  function AfterMove(pos: Position, card: Card, src: Place, dst: Place): (r: Position)
    requires WellKeyed(pos.piles) && ValidPlace(src) && ValidPlace(dst)
    requires card in pos.piles[src]
    ensures WellKeyed(r.piles)
    ensures pos.visible <= r.visible
    ensures pos.status == Win ==> r.status == Win
  {
    var moved := MovePiles(pos.piles, card, src, dst);
    Position(moved, pos.visible + Revealed(moved, src), if CheckWin(moved) then Win else pos.status)
  }

  /** The end of Spider's `rawMove`: when the destination is a tableau whose
      top thirteen cards form a completed run, the run moves on to the last
      free foundation. That further `rawMove` lands on a foundation, so it
      ends after its own base move and turning over. */
  function AutoFoundation(pos: Position, dst: Place): (r: (Position, Result<(), SpiderError>))
    requires WellKeyed(pos.piles) && ValidPlace(dst)
    ensures WellKeyed(r.0.piles)
    ensures r.1 != Err(CardNotInSource)
    ensures pos.visible <= r.0.visible
    ensures pos.status == Win ==> r.0.status == Win
  {
    if !(dst.Tableau? && CompletedRun(pos.piles[dst], pos.visible)) then (pos, Ok(()))
    else
      match LastFreeFoundation(pos.piles, 8)
      case None => (pos, Err(NoFreeFoundation))
      case Some(f) =>
        var d := pos.piles[dst];
        (AfterMove(pos, d[|d| - 13], dst, Foundation(f)), Ok(()))
  }

  /** Spider's `rawMove`: the base move, the turning over, the move of a
      completed run. */
  function RawMoveOn(pos: Position, card: Card, src: Place, dst: Place): (r: (Position, Result<(), SpiderError>))
    requires WellKeyed(pos.piles) && ValidPlace(src) && ValidPlace(dst)
    ensures WellKeyed(r.0.piles)
    ensures r.1 == Err(CardNotInSource) <==> card !in pos.piles[src]
    ensures card !in pos.piles[src] ==> r.0 == pos
    ensures pos.visible <= r.0.visible
    ensures pos.status == Win ==> r.0.status == Win
  {
    if card !in pos.piles[src] then (pos, Err(CardNotInSource))
    else AutoFoundation(AfterMove(pos, card, src, dst), dst)
  }

  /** No move, the move of a completed run included, creates or destroys a
      card. */
  lemma RawMoveKeepsCards(pos: Position, card: Card, src: Place, dst: Place)
    requires WellKeyed(pos.piles) && ValidPlace(src) && ValidPlace(dst)
    ensures Total(RawMoveOn(pos, card, src, dst).0.piles) == Total(pos.piles)
  {
    if card in pos.piles[src] {
      var after := AfterMove(pos, card, src, dst);
      MovePilesKeepsCards(pos.piles, card, src, dst);
      if dst.Tableau? && CompletedRun(after.piles[dst], after.visible) && LastFreeFoundation(after.piles, 8).Some? {
        AutoFoundationPiles(after, dst);
        var d := after.piles[dst];
        MovePilesKeepsCards(after.piles, d[|d| - 13], dst, Foundation(LastFreeFoundation(after.piles, 8).value));
      }
    }
  }

  /** Without a completed run on the tableau nothing happens; with one, the
      error "no free foundation" comes exactly when every foundation holds
      cards, and then nothing moves. */
  lemma AutoFoundationOutcome(pos: Position, dst: Place)
    requires WellKeyed(pos.piles) && ValidPlace(dst) && dst.Tableau?
    ensures var r := AutoFoundation(pos, dst);
      && (!CompletedRun(pos.piles[dst], pos.visible) ==> r == (pos, Ok(())))
      && (r.1 == Err(NoFreeFoundation) <==>
            CompletedRun(pos.piles[dst], pos.visible) && forall j | 0 <= j < 8 :: pos.piles[Foundation(j)] != [])
      && (r.1 == Err(NoFreeFoundation) ==> r.0 == pos)
  {
    var free := LastFreeFoundation(pos.piles, 8);
    if free.Some? {
      assert pos.piles[Foundation(free.value)] == [];
    }
  }

  /** The first position of `x` comes no later than any position holding it. */
  lemma IndexOfAtMost<T>(s: seq<T>, x: T, k: int)
    requires 0 <= k < |s| && s[k] == x
    ensures 0 <= IndexOf(s, x) <= k
  {
  }

  /** The completed run goes to the last empty foundation, which then holds
      a King at the bottom and, on top, thirteen cards reading King down to
      Ace. */
  lemma AutoFoundationMovesRun(pos: Position, dst: Place)
    requires WellKeyed(pos.piles) && ValidPlace(dst) && dst.Tableau?
    requires CompletedRun(pos.piles[dst], pos.visible) && LastFreeFoundation(pos.piles, 8).Some?
    ensures var f := LastFreeFoundation(pos.piles, 8).value;
      var pile := AutoFoundation(pos, dst).0.piles[Foundation(f)];
      && pos.piles[Foundation(f)] == []
      && |pile| >= 13 && pile[0].number == 13
      && forall k | |pile| - 13 <= k < |pile| :: pile[k].number == |pile| - k
  {
    AutoFoundationPiles(pos, dst);
    MovedRunLands(pos.piles, pos.visible, dst, LastFreeFoundation(pos.piles, 8).value);
  }

  /** The base move of a completed run's King onto an empty foundation. */
  lemma MovedRunLands(piles: Piles, visible: set<Card>, dst: Place, f: int)
    requires WellKeyed(piles) && ValidPlace(dst) && dst.Tableau? && CompletedRun(piles[dst], visible)
    requires 0 <= f < 8 && piles[Foundation(f)] == []
    ensures var d := piles[dst];
      var pile := MovePiles(piles, d[|d| - 13], dst, Foundation(f))[Foundation(f)];
      && |pile| >= 13 && pile[0].number == 13
      && forall k | |pile| - 13 <= k < |pile| :: pile[k].number == |pile| - k
  {
    var d := piles[dst];
    var c := d[|d| - 13];
    var i := IndexOf(d, c);
    IndexOfAtMost(d, c, |d| - 13);
    var pile := MovePiles(piles, c, dst, Foundation(f))[Foundation(f)];
    assert pile == piles[Foundation(f)] + d[i..];
    RunLands(d, i, visible, pile);
  }

  /** The move of a completed run is the base move of its King onto the last
      free foundation. */
  lemma AutoFoundationPiles(pos: Position, dst: Place)
    requires WellKeyed(pos.piles) && ValidPlace(dst) && dst.Tableau?
    requires CompletedRun(pos.piles[dst], pos.visible) && LastFreeFoundation(pos.piles, 8).Some?
    ensures var f, d := LastFreeFoundation(pos.piles, 8).value, pos.piles[dst];
      && 0 <= f < 8 && pos.piles[Foundation(f)] == []
      && AutoFoundation(pos, dst).0.piles == MovePiles(pos.piles, d[|d| - 13], dst, Foundation(f))
  {
  }

  /** What lands on the foundation: the cards from the first copy of the
      run's King up, which end in the whole King to Ace run. */
  lemma RunLands(d: seq<Card>, i: int, visible: set<Card>, pile: seq<Card>)
    requires CompletedRun(d, visible)
    requires 0 <= i <= |d| - 13 && d[i] == d[|d| - 13] && pile == d[i..]
    ensures |pile| >= 13 && pile[0].number == 13
    ensures forall k | |pile| - 13 <= k < |pile| :: pile[k].number == |pile| - k
  {
    forall k | |pile| - 13 <= k < |pile|
      ensures pile[k].number == |pile| - k
    {
      assert pile[k] == d[i + k];
    }
  }

  /** One turn of `stockToTableau`'s loop: the top card of the stock moves
      to tableau `i` and turns face up. An empty stock fails like any move
      of a card that is not there. */
  function StockStep(pos: Position, i: int): (r: (Position, Result<(), SpiderError>))
    requires WellKeyed(pos.piles) && 0 <= i < 10
    ensures WellKeyed(r.0.piles)
    ensures pos.piles[Stock] == [] ==> r == (pos, Err(CardNotInSource))
  {
    if pos.piles[Stock] == [] then (pos, Err(CardNotInSource))
    else
      var card := Top(pos.piles[Stock]);
      var step := RawMoveOn(pos, card, Stock, Tableau(i));
      if step.1.Err? then step else (step.0.(visible := step.0.visible + {card}), Ok(()))
  }

  /** The turns of `stockToTableau`'s loop from tableau `i` on, stopping at
      the first error. */
  function StockRound(pos: Position, i: int): (r: (Position, Result<(), SpiderError>))
    requires WellKeyed(pos.piles) && 0 <= i <= 10
    decreases 10 - i
    ensures WellKeyed(r.0.piles)
  {
    if i == 10 then (pos, Ok(()))
    else
      var step := StockStep(pos, i);
      if step.1.Err? then step else StockRound(step.0, i + 1)
  }

  lemma {:induction false} StockRoundKeepsCards(pos: Position, i: int)
    requires WellKeyed(pos.piles) && 0 <= i <= 10
    decreases 10 - i
    ensures Total(StockRound(pos, i).0.piles) == Total(pos.piles)
  {
    if i < 10 {
      var step := StockStep(pos, i);
      StockStepKeepsCards(pos, i);
      if step.1.Ok? {
        StockRoundKeepsCards(step.0, i + 1);
      }
    }
  }

  lemma StockStepKeepsCards(pos: Position, i: int)
    requires WellKeyed(pos.piles) && 0 <= i < 10
    ensures Total(StockStep(pos, i).0.piles) == Total(pos.piles)
  {
    if pos.piles[Stock] != [] {
      RawMoveKeepsCards(pos, Top(pos.piles[Stock]), Stock, Tableau(i));
    }
  }

  /** From a stock without repeated cards, a turn takes exactly its top
      card off the stock and never misses the card. */
  lemma StockStepTakesTop(pos: Position, i: int)
    requires WellKeyed(pos.piles) && 0 <= i < 10
    requires pos.piles[Stock] != [] && NoRepeats(pos.piles[Stock])
    ensures var s, r := pos.piles[Stock], StockStep(pos, i);
      && r.1 != Err(CardNotInSource) && r.0.piles[Stock] == s[..|s| - 1]
      && |r.0.piles[Stock]| == |s| - 1 && NoRepeats(r.0.piles[Stock])
  {
    var s := pos.piles[Stock];
    assert NoRepeats(s[..|s| - 1]);
    var k := IndexOf(s, Top(s));
    assert k == |s| - 1;
    var after := AfterMove(pos, Top(s), Stock, Tableau(i));
    assert after.piles[Stock] == s[..|s| - 1];
    if CompletedRun(after.piles[Tableau(i)], after.visible) {
      match LastFreeFoundation(after.piles, 8)
      case None =>
      case Some(f) =>
        var d := after.piles[Tableau(i)];
        assert MovePiles(after.piles, d[|d| - 13], Tableau(i), Foundation(f))[Stock] == after.piles[Stock];
    }
  }

  /** A round dealt from a stock without repeated cards holding enough of
      them never runs short. */
  lemma {:induction false} StockRoundNeverShort(pos: Position, i: int)
    requires WellKeyed(pos.piles) && 0 <= i <= 10
    requires |pos.piles[Stock]| >= 10 - i && NoRepeats(pos.piles[Stock])
    decreases 10 - i
    ensures StockRound(pos, i).1 != Err(CardNotInSource)
  {
    if i < 10 {
      var step := StockStep(pos, i);
      StockStepTakesTop(pos, i);
      if step.1.Ok? {
        StockRoundNeverShort(step.0, i + 1);
      }
    }
  }

  /** When such a round succeeds it has taken exactly one card for each
      remaining tableau off the top of the stock. */
  lemma {:induction false} StockRoundTakesTen(pos: Position, i: int)
    requires WellKeyed(pos.piles) && 0 <= i <= 10
    requires |pos.piles[Stock]| >= 10 - i && NoRepeats(pos.piles[Stock])
    decreases 10 - i, 1
    ensures var r, s := StockRound(pos, i), pos.piles[Stock];
      r.1.Ok? ==> r.0.piles[Stock] == s[..|s| - (10 - i)]
  {
    if i == 10 {
      var s := pos.piles[Stock];
      assert s[..|s|] == s;
    } else {
      StockRoundTakesNext(pos, i);
    }
  }

  lemma {:induction false} StockRoundTakesNext(pos: Position, i: int)
    requires WellKeyed(pos.piles) && 0 <= i < 10
    requires |pos.piles[Stock]| >= 10 - i && NoRepeats(pos.piles[Stock])
    decreases 10 - i, 0
    ensures var r, s := StockRound(pos, i), pos.piles[Stock];
      r.1.Ok? ==> r.0.piles[Stock] == s[..|s| - (10 - i)]
  {
    var s := pos.piles[Stock];
    var step := StockStep(pos, i);
    StockStepTakesTop(pos, i);
    if step.1.Ok? {
      var rest := StockRound(step.0, i + 1);
      StockRoundTakesTen(step.0, i + 1);
      StockRoundOk(pos, i);
      if rest.1.Ok? {
        PrefixOfPrefix(s, step.0.piles[Stock], rest.0.piles[Stock], |s| - (10 - i));
      }
    }
  }

  lemma StockRoundOk(pos: Position, i: int)
    requires WellKeyed(pos.piles) && 0 <= i < 10 && StockStep(pos, i).1.Ok?
    ensures StockRound(pos, i) == StockRound(StockStep(pos, i).0, i + 1)
  {
  }

  lemma PrefixOfPrefix<T>(s: seq<T>, t: seq<T>, u: seq<T>, m: int)
    requires |s| > 0 && t == s[..|s| - 1] && 0 <= m <= |t| && u == t[..m]
    ensures u == s[..m]
  {
  }

  /** A turn on a stock whose top card is face down deals that card face up
      onto tableau `i` and changes nothing else. The dealt card is face down
      while it lands, so the top of the tableau is no completed run and
      nothing moves on to a foundation. */
  lemma StockStepDeals(pos: Position, i: int)
    requires WellKeyed(pos.piles) && 0 <= i < 10
    requires pos.piles[Stock] != [] && NoRepeats(pos.piles[Stock]) && Top(pos.piles[Stock]) !in pos.visible
    ensures var s, r := pos.piles[Stock], StockStep(pos, i);
      && r.1 == Ok(())
      && r.0.piles == pos.piles[Stock := s[..|s| - 1]][Tableau(i) := pos.piles[Tableau(i)] + [Top(s)]]
      && r.0.visible == pos.visible + {Top(s)}
      && r.0.status == (if CheckWin(pos.piles) then Win else pos.status)
  {
    var s := pos.piles[Stock];
    var card := Top(s);
    assert IndexOf(s, card) == |s| - 1;
    assert s[|s| - 1..] == [card];
    var after := AfterMove(pos, card, Stock, Tableau(i));
    var dealt := pos.piles[Stock := s[..|s| - 1]][Tableau(i) := pos.piles[Tableau(i)] + [card]];
    assert after.piles == dealt;
    assert after.visible == pos.visible;
    var d := after.piles[Tableau(i)];
    assert d[|d| - 1] == card;
    assert !CompletedRun(d, after.visible);
    assert forall j | 0 <= j < 8 :: dealt[Foundation(j)] == pos.piles[Foundation(j)];
  }

  /** A round from tableau `i` on, over a stock without repeated cards whose
      top cards are all face down, succeeds and deals the stock's top card to
      tableau `i`, the next one down to tableau `i + 1`, and so on, each
      face up on top of the tableau's old cards; every other pile stays as it
      was. */
  lemma {:induction false} StockRoundDeals(pos: Position, i: int)
    requires WellKeyed(pos.piles) && 0 <= i <= 10
    requires |pos.piles[Stock]| >= 10 - i && NoRepeats(pos.piles[Stock])
    requires forall k | |pos.piles[Stock]| - (10 - i) <= k < |pos.piles[Stock]| :: pos.piles[Stock][k] !in pos.visible
    decreases 10 - i, 1
    ensures RoundDealt(pos, StockRound(pos, i), i)
  {
    if i == 10 {
      var s := pos.piles[Stock];
      assert s[..|s|] == s;
      assert s[|s|..] == [];
    } else {
      StockRoundDealsNext(pos, i);
    }
  }

  /** What `StockRoundDeals` promises of the result `r` of a round from
      tableau `i` on. */
  ghost predicate RoundDealt(pos: Position, r: (Position, Result<(), SpiderError>), i: int)
    requires WellKeyed(pos.piles) && 0 <= i <= 10 && |pos.piles[Stock]| >= 10 - i
  {
    var s := pos.piles[Stock];
    && r.1 == Ok(())
    && PilesDealt(pos.piles, r.0.piles, i)
    && r.0.visible == pos.visible + (set k | |s| - (10 - i) <= k < |s| :: s[k])
    && r.0.status == (if i < 10 && CheckWin(pos.piles) then Win else pos.status)
  }

  /** The piles after a round from tableau `i` on: the stock's top card on
      tableau `i`, the next one down on tableau `i + 1` and so on, the stock
      without those cards, every other pile as it was. */
  ghost predicate PilesDealt(piles: Piles, after: Piles, i: int)
    requires WellKeyed(piles) && 0 <= i <= 10 && |piles[Stock]| >= 10 - i
  {
    var s := piles[Stock];
    && after.Keys == piles.Keys
    && after[Stock] == s[..|s| - (10 - i)]
    && (forall j | i <= j < 10 :: after[Tableau(j)] == piles[Tableau(j)] + [s[|s| - 1 - (j - i)]])
    && (forall p | p in piles && p != Stock && !(p.Tableau? && i <= p.i) :: after[p] == piles[p])
  }

  lemma {:induction false} StockRoundDealsNext(pos: Position, i: int)
    requires WellKeyed(pos.piles) && 0 <= i < 10
    requires |pos.piles[Stock]| >= 10 - i && NoRepeats(pos.piles[Stock])
    requires forall k | |pos.piles[Stock]| - (10 - i) <= k < |pos.piles[Stock]| :: pos.piles[Stock][k] !in pos.visible
    decreases 10 - i, 0
    ensures RoundDealt(pos, StockRound(pos, i), i)
  {
    var s := pos.piles[Stock];
    var step := StockStep(pos, i);
    StockStepDeals(pos, i);
    StillFaceDown(s, pos.visible, i);
    StockRoundDeals(step.0, i + 1);
    StockRoundOk(pos, i);
    RoundDealtCons(pos, step.0, StockRound(step.0, i + 1), i);
  }

  /** After the top card is dealt, the cards the rest of the round deals
      are still face down and still distinct. */
  lemma StillFaceDown(s: seq<Card>, visible: set<Card>, i: int)
    requires 0 <= i < 10 && |s| >= 10 - i && NoRepeats(s)
    requires forall k | |s| - (10 - i) <= k < |s| :: s[k] !in visible
    ensures var t := s[..|s| - 1];
      && NoRepeats(t)
      && forall k | |t| - (10 - (i + 1)) <= k < |t| :: t[k] !in visible + {Top(s)}
  {
    var t := s[..|s| - 1];
    assert IndexOf(s, Top(s)) == |s| - 1;
    forall k | |t| - (10 - (i + 1)) <= k < |t|
      ensures t[k] !in visible + {Top(s)}
    {
      assert t[k] == s[k];
      assert t[k] in t;
    }
  }

  /** Dealing the top card to tableau `i` and then the rest of the round
      from `i + 1` on is the round from `i` on. */
  lemma RoundDealtCons(pos: Position, mid: Position, r: (Position, Result<(), SpiderError>), i: int)
    requires WellKeyed(pos.piles) && 0 <= i < 10 && |pos.piles[Stock]| >= 10 - i
    requires var s := pos.piles[Stock];
      && mid.piles == pos.piles[Stock := s[..|s| - 1]][Tableau(i) := pos.piles[Tableau(i)] + [Top(s)]]
      && mid.visible == pos.visible + {Top(s)}
      && mid.status == (if CheckWin(pos.piles) then Win else pos.status)
    requires WellKeyed(mid.piles) && RoundDealt(mid, r, i + 1)
    ensures RoundDealt(pos, r, i)
  {
    var s := pos.piles[Stock];
    var t := mid.piles[Stock];
    var m := |s| - (10 - i);
    PilesDealtCons(pos.piles, mid.piles, r.0.piles, i);
    assert s[m..] == t[m..] + [Top(s)];
    assert CheckWin(mid.piles) == CheckWin(pos.piles) by {
      assert forall j | 0 <= j < 8 :: mid.piles[Foundation(j)] == pos.piles[Foundation(j)];
    }
  }

  lemma PilesDealtCons(piles: Piles, mid: Piles, after: Piles, i: int)
    requires WellKeyed(piles) && 0 <= i < 10 && |piles[Stock]| >= 10 - i
    requires var s := piles[Stock];
      mid == piles[Stock := s[..|s| - 1]][Tableau(i) := piles[Tableau(i)] + [Top(s)]]
    requires WellKeyed(mid) && PilesDealt(mid, after, i + 1)
    ensures PilesDealt(piles, after, i)
  {
    var s := piles[Stock];
    var t := mid[Stock];
    assert after[Stock] == t[..|s| - (10 - i)] == s[..|s| - (10 - i)];
    forall j | i < j < 10
      ensures after[Tableau(j)] == piles[Tableau(j)] + [s[|s| - 1 - (j - i)]]
    {
      assert t[|t| - 1 - (j - (i + 1))] == s[|s| - 1 - (j - i)];
    }
  }

  /** No card occurs twice in the pile, read from the top down. */
  predicate NoRepeats(s: seq<Card>) {
    s == [] || (IndexOf(s, Top(s)) == |s| - 1 && NoRepeats(s[..|s| - 1]))
  }

  /** A pile of distinct cards has no repeats. */
  lemma {:induction false} DistinctNoRepeats(s: seq<Card>)
    requires Distinct(s)
    ensures NoRepeats(s)
  {
    if s != [] {
      DistinctPrefix(s, |s| - 1);
      DistinctNoRepeats(s[..|s| - 1]);
    }
  }

  lemma DistinctPrefix<T>(s: seq<T>, n: int)
    requires Distinct(s) && 0 <= n <= |s|
    ensures Distinct(s[..n])
  {
    forall i, j | 0 <= i < j < n
      ensures s[..n][i] != s[..n][j]
    {
      assert s[..n][i] == s[i] && s[..n][j] == s[j];
    }
  }

  /** `canMaybeMoveSomewhere` answers yes: a face-up tableau card with a
      descending run from it to the top of its pile. */
  predicate Draggable(piles: Piles, visible: set<Card>, card: Card, src: Place)
    requires WellKeyed(piles) && ValidPlace(src)
  {
    src.Tableau? && card in visible && card in piles[src]
    && DescendingRun(piles[src][IndexOf(piles[src], card)..])
  }

  /** Spider's `canMove`: anything goes onto an empty pile, otherwise the
      card must be one lower than the top card there. */
  predicate CanMoveTo(piles: Piles, card: Card, dst: Place)
    requires WellKeyed(piles) && ValidPlace(dst)
  {
    piles[dst] == [] || card.number == Top(piles[dst]).number - 1
  }

  /** A card that can be dragged is never accepted by its own pile, as the
      base class asks of `canMove`. */
  lemma DraggedNotToItself(piles: Piles, visible: set<Card>, card: Card, src: Place)
    requires WellKeyed(piles) && ValidPlace(src)
    requires Draggable(piles, visible, card, src)
    ensures !CanMoveTo(piles, card, src)
  {
    var s := piles[src];
    var run := s[IndexOf(s, card)..];
    RunTop(run);
    assert Top(run) == Top(s);
  }

  /** Dropping a dragged run where `canMove` allows keeps the destination
      descending from its old top card upwards. */
  lemma MoveExtendsRun(piles: Piles, visible: set<Card>, card: Card, src: Place, dst: Place)
    requires WellKeyed(piles) && ValidPlace(src) && ValidPlace(dst)
    requires Draggable(piles, visible, card, src) && CanMoveTo(piles, card, dst)
    requires src != dst && piles[dst] != []
    ensures var d := MovePiles(piles, card, src, dst)[dst];
      DescendingRun(d[|piles[dst]| - 1..])
  {
    var s := piles[src];
    var run := s[IndexOf(s, card)..];
    var d := MovePiles(piles, card, src, dst)[dst];
    var n := |piles[dst]|;
    assert d == piles[dst] + run;
    var tail := d[n - 1..];
    assert tail == [Top(piles[dst])] + run;
    forall i | 1 <= i < |tail|
      ensures tail[i].number == tail[i - 1].number - 1
    {
      if i > 1 {
        assert tail[i] == run[i - 1] && tail[i - 1] == run[i - 2];
      }
    }
  }

  // ---------------------------------------------------------------- the deck and the deal

  /** Spider's `createCards`: eight spades of each number from 1 to 13,
      numbers ascending; each card's id is its position. */
  function SpiderDeck(): (d: seq<Card>)
    ensures |d| == 104
  {
    seq(104, k requires 0 <= k < 104 => Card(k, k / 8 + 1, Spade))
  }

  /** The deck holds eight cards of each number from 1 to 13, all spades,
      with distinct ids. */
  lemma SpiderDeckComplete()
    ensures forall k | 0 <= k < 104 :: SpiderDeck()[k].suit == Spade && 1 <= SpiderDeck()[k].number <= 13
    ensures forall k | 0 <= k < 104 :: 8 * (SpiderDeck()[k].number - 1) <= k < 8 * SpiderDeck()[k].number
    ensures Distinct(SpiderDeck())
  {
  }

  method CreateSpiderCards() returns (cards: seq<Card>)
    ensures cards == SpiderDeck()
  {
    cards := [];
    for i := 1 to 14
      invariant cards == SpiderDeck()[..8 * (i - 1)]
    {
      for j := 0 to 8
        invariant cards == SpiderDeck()[..8 * (i - 1) + j]
      {
        cards := cards + [Card(|cards|, i, Spade)];
      }
    }
  }

  /** How many cards `deal` puts on tableau `i` when the game has
      `cardCount` cards: all but 50 of them shared among the ten tableaus,
      the first ones getting one extra card each. */
  function HowManyToDeal(cardCount: int, i: int): int
    requires cardCount >= 50
  {
    var total := cardCount - 50;
    total / 10 + if i < total % 10 then 1 else 0
  }

  /** The cards dealt to the first `k` tableaus, counted. */
  function DealtCount(k: int): int
    requires 0 <= k <= 10
  {
    if k == 0 then 0 else DealtCount(k - 1) + HowManyToDeal(104, k - 1)
  }

  /** With 104 cards the first four tableaus get six cards and the others
      five: 54 dealt, 50 left in the stock. */
  lemma {:induction false} DealtCounts(k: int)
    requires 0 <= k <= 10
    ensures DealtCount(k) == 5 * k + (if k < 4 then k else 4)
  {
    if k > 0 {
      DealtCounts(k - 1);
    }
  }

  /** The tableau piles `k - 1` down to 0, concatenated: what the deal took
      off the top of the stock, in order. */
  function DealtFrom(piles: Piles, k: int): seq<Card>
    requires WellKeyed(piles) && 0 <= k <= 10
  {
    if k == 0 then [] else piles[Tableau(k - 1)] + DealtFrom(piles, k - 1)
  }

  /** The top cards of the first `k` tableaus. */
  function TopsOf(piles: Piles, k: int): set<Card>
    requires WellKeyed(piles) && 0 <= k <= 10
  {
    if k == 0 then {}
    else TopsOf(piles, k - 1) + (if piles[Tableau(k - 1)] != [] then {Top(piles[Tableau(k - 1)])} else {})
  }

  lemma {:induction false} DealtSame(a: Piles, b: Piles, k: int)
    requires WellKeyed(a) && WellKeyed(b) && 0 <= k <= 10
    requires forall j | 0 <= j < k :: a[Tableau(j)] == b[Tableau(j)]
    ensures DealtFrom(a, k) == DealtFrom(b, k) && TopsOf(a, k) == TopsOf(b, k)
  {
    if k > 0 {
      DealtSame(a, b, k - 1);
    }
  }

  /** The piles' sizes once the deal of a 104-card game has served the
      first `i` tableaus. */
  ghost predicate DealShape(piles: Piles, i: int) {
    && WellKeyed(piles) && 0 <= i <= 10
    && |piles[Stock]| == 104 - DealtCount(i)
    && (forall j | 0 <= j < i :: |piles[Tableau(j)]| == HowManyToDeal(104, j))
    && (forall j | i <= j < 10 :: piles[Tableau(j)] == [])
    && (forall j | 0 <= j < 8 :: piles[Foundation(j)] == [])
  }

  /** The deal of a 104-card game has served the first `i` tableaus: the
      piles have their sizes, and the stock with the dealt piles still
      makes up the whole deck in order. */
  ghost predicate DealtUpTo(piles: Piles, i: int, all: seq<Card>) {
    && DealShape(piles, i) && |all| == 104
    && all == piles[Stock] + DealtFrom(piles, i)
  }

  lemma DealRoom(piles: Piles, i: int)
    requires DealShape(piles, i) && i < 10
    ensures 0 < HowManyToDeal(104, i) <= |piles[Stock]|
  {
    DealtCounts(i);
  }

  /** The piles after one round of the deal, on values. */
  function DealRound(a: Piles, i: int): Piles
    requires WellKeyed(a) && 0 <= i < 10 && HowManyToDeal(104, i) <= |a[Stock]|
  {
    var s, n := a[Stock], HowManyToDeal(104, i);
    a[Stock := s[..|s| - n]][Tableau(i) := a[Tableau(i)] + s[|s| - n..]]
  }

  lemma DealShapeStep(a: Piles, i: int)
    requires DealShape(a, i) && i < 10 && HowManyToDeal(104, i) <= |a[Stock]|
    ensures DealShape(DealRound(a, i), i + 1)
  {
    var b := DealRound(a, i);
    assert |b[Tableau(i)]| == HowManyToDeal(104, i);
    forall j | 0 <= j < 10 && j != i
      ensures b[Tableau(j)] == a[Tableau(j)]
    {
    }
    forall j | 0 <= j < 8
      ensures b[Foundation(j)] == a[Foundation(j)]
    {
    }
  }

  /** A round of the deal puts the stock's top share, in order, after the
      piles dealt before, and its last card among the tops. */
  lemma DealRoundDealt(a: Piles, i: int)
    requires WellKeyed(a) && 0 <= i < 10 && 0 < HowManyToDeal(104, i) <= |a[Stock]|
    requires a[Tableau(i)] == []
    ensures var s := a[Stock];
      DealtFrom(DealRound(a, i), i + 1) == s[|s| - HowManyToDeal(104, i)..] + DealtFrom(a, i)
    ensures TopsOf(DealRound(a, i), i + 1) == TopsOf(a, i) + {Top(a[Stock])}
  {
    DealShareDealt(a, DealRound(a, i), i, HowManyToDeal(104, i));
  }

  /** Moving the stock's top `n` cards onto the empty tableau `i` puts them,
      in order, after the piles dealt before, and the stock's top card among
      the tops. */
  lemma DealShareDealt(a: Piles, b: Piles, i: int, n: int)
    requires WellKeyed(a) && 0 <= i < 10 && 0 < n <= |a[Stock]| && a[Tableau(i)] == []
    requires var s := a[Stock];
      b == a[Stock := s[..|s| - n]][Tableau(i) := a[Tableau(i)] + s[|s| - n..]]
    ensures var s := a[Stock];
      DealtFrom(b, i + 1) == s[|s| - n..] + DealtFrom(a, i)
    ensures TopsOf(b, i + 1) == TopsOf(a, i) + {Top(a[Stock])}
  {
    var s := a[Stock];
    var high := s[|s| - n..];
    assert b[Tableau(i)] == high by {
      assert a[Tableau(i)] + high == high;
    }
    assert WellKeyed(b);
    DealtSame(a, b, i);
    assert Top(high) == Top(s);
  }

  /** One round of the deal on values: moving the tableau's share off the
      top of the stock onto the empty tableau `i` serves one more tableau
      and adds the share's last card to the tops. */
  lemma DealStep(a: Piles, i: int, all: seq<Card>)
    requires DealtUpTo(a, i, all) && i < 10 && HowManyToDeal(104, i) <= |a[Stock]|
    ensures DealtUpTo(DealRound(a, i), i + 1, all)
    ensures TopsOf(DealRound(a, i), i + 1) == TopsOf(a, i) + {Top(a[Stock])}
  {
    var b := DealRound(a, i);
    DealShapeStep(a, i);
    DealRoom(a, i);
    DealRoundDealt(a, i);
    var s, n := a[Stock], HowManyToDeal(104, i);
    var low, high := s[..|s| - n], s[|s| - n..];
    assert b[Stock] == low;
    assert s == low + high;
    assert (low + high) + DealtFrom(a, i) == low + (high + DealtFrom(a, i));
  }

  // ---------------------------------------------------------------- the game

  /** A Spider game: the shared card-game state with Spider's rules. */
  class SpiderGame {
    var piles: Piles
    var visible: set<Card>
    var status: Status
    const allCards: seq<Card>

    ghost predicate Valid()
      reads this
    {
      WellKeyed(piles)
    }

    function Current(): Position
      reads this
    {
      Position(piles, visible, status)
    }

    /** The base constructor with Spider's: the shuffled cards, every pile
        empty, every card face down. */
    constructor (cards: seq<Card>, shuffled: seq<Card>)
      requires multiset(shuffled) == multiset(cards)
      ensures Valid() && allCards == shuffled
      ensures forall p | ValidPlace(p) :: piles[p] == []
      ensures visible == {} && status == Playing
    {
      allCards := shuffled;
      PlacesDistinct();
      var empty := map p | p in Places :: [];
      forall p | ValidPlace(p)
        ensures p in empty
      {
        assert Places[PlaceIndex(p)] == p;
      }
      piles := empty;
      visible := {};
      status := Playing;
    }

    /** `moveCards`: push the cards onto a pile, then, unless told not to,
        check for a win. */
    method MoveCards(cards: seq<Card>, p: Place, setStatus: bool)
      requires Valid() && ValidPlace(p)
      modifies this
      ensures Valid()
      ensures piles == old(piles)[p := old(piles[p]) + cards]
      ensures visible == old(visible)
      ensures status == if setStatus && CheckWin(piles) then Win else old(status)
    {
      piles := piles[p := piles[p] + cards];
      if setStatus && CheckWin(piles) {
        status := Win;
      }
    }

    /** The base `rawMove`: the card and everything above it go to the
        destination, or nothing happens when the card is not in the
        source. */
    method BaseRawMove(card: Card, src: Place, dst: Place) returns (r: Result<(), SpiderError>)
      requires Valid() && ValidPlace(src) && ValidPlace(dst)
      modifies this
      ensures Valid()
      ensures card !in old(piles[src]) ==> r == Err(CardNotInSource) && unchanged(this)
      ensures card in old(piles[src]) ==>
        && r == Ok(())
        && piles == MovePiles(old(piles), card, src, dst)
        && visible == old(visible)
        && status == if CheckWin(piles) then Win else old(status)
    {
      var sourceArray := piles[src];
      var index := IndexOf(sourceArray, card);
      if index == -1 {
        return Err(CardNotInSource);
      }
      var moving := sourceArray[index..];
      piles := piles[src := sourceArray[..index]];
      MoveCards(moving, dst, true);
      r := Ok(());
    }

    /** The base `rawMove` and the turning over of the tableau card it
        exposed. */
    method MoveAndTurnOver(card: Card, src: Place, dst: Place) returns (r: Result<(), SpiderError>)
      requires Valid() && ValidPlace(src) && ValidPlace(dst)
      modifies this
      ensures Valid()
      ensures card !in old(piles[src]) ==> r == Err(CardNotInSource) && unchanged(this)
      ensures card in old(piles[src]) ==> r == Ok(()) && Current() == AfterMove(old(Current()), card, src, dst)
    {
      r := BaseRawMove(card, src, dst);
      if r.Err? {
        return;
      }
      var sourceArray := piles[src];
      if src.Tableau? && |sourceArray| != 0 {
        visible := visible + {sourceArray[|sourceArray| - 1]};
      }
    }

    /** Spider's `rawMove`. */
    method RawMove(card: Card, src: Place, dst: Place) returns (r: Result<(), SpiderError>)
      requires Valid() && ValidPlace(src) && ValidPlace(dst)
      modifies this
      decreases if dst.Tableau? then 2 else 0
      ensures Valid()
      ensures (Current(), r) == RawMoveOn(old(Current()), card, src, dst)
    {
      r := MoveAndTurnOver(card, src, dst);
      if r.Err? {
        return;
      }
      if dst.Tableau? {
        r := MoveCompletedRun(dst);
      }
    }

    /** The top thirteen cards of a pile are Ace to King, face up. */
    method IsCompletedRun(destArray: seq<Card>) returns (b: bool)
      ensures b == CompletedRun(destArray, visible)
    {
      if |destArray| < 13 {
        return false;
      }
      var i := 1;
      while i <= 13
        invariant 1 <= i <= 14
        invariant forall k | |destArray| - i < k < |destArray| :: destArray[k].number == |destArray| - k && destArray[k] in visible
      {
        if destArray[|destArray| - i].number != i || destArray[|destArray| - i] !in visible {
          return false;
        }
        i := i + 1;
      }
      return true;
    }

    /** The backwards search over the foundation ids for an empty one. */
    method FindFreeFoundation() returns (f: Option<int>)
      requires Valid()
      ensures f == LastFreeFoundation(piles, 8)
    {
      var k := 8;
      while k > 0
        invariant 0 <= k <= 8
        invariant forall j | k <= j < 8 :: piles[Foundation(j)] != []
      {
        if piles[Foundation(k - 1)] == [] {
          return Some(k - 1);
        }
        k := k - 1;
      }
      return None;
    }

    /** The end of `rawMove` onto a tableau: a completed run on top of it is
        moved, by a further `rawMove`, to the last free foundation. */
    method MoveCompletedRun(dst: Place) returns (r: Result<(), SpiderError>)
      requires Valid() && ValidPlace(dst) && dst.Tableau?
      modifies this
      decreases 1
      ensures Valid()
      ensures (Current(), r) == AutoFoundation(old(Current()), dst)
    {
      var destArray := piles[dst];
      var completed := IsCompletedRun(destArray);
      if !completed {
        return Ok(());
      }
      var f := FindFreeFoundation();
      if f.None? {
        return Err(NoFreeFoundation);
      }
      r := RawMove(destArray[|destArray| - 13], dst, Foundation(f.value));
    }

    /** The base `move`: refused unless Spider's `canMove` allows it. */
    method Move(card: Card, src: Place, dst: Place) returns (r: Result<(), SpiderError>)
      requires Valid() && ValidPlace(src) && ValidPlace(dst)
      modifies this
      ensures Valid()
      ensures !old(CanMoveTo(piles, card, dst)) ==> r == Err(InvalidMove) && unchanged(this)
      ensures old(CanMoveTo(piles, card, dst)) ==> (Current(), r) == RawMoveOn(old(Current()), card, src, dst)
    {
      if !CanMoveTo(piles, card, dst) {
        return Err(InvalidMove);
      }
      r := RawMove(card, src, dst);
    }

    /** `findCurrentPlaceId`: the first place, in the table's order, whose
        pile holds the card. */
    method FindCurrentPlace(card: Card) returns (r: Result<Place, SpiderError>)
      requires Valid()
      ensures r.Err? <==> forall p | ValidPlace(p) :: card !in piles[p]
      ensures r.Err? ==> r.error == CardNotFound
      ensures r.Ok? ==>
        && ValidPlace(r.value) && card in piles[r.value]
        && forall k | 0 <= k < PlaceIndex(r.value) :: card !in piles[Places[k]]
    {
      PlacesDistinct();
      for k := 0 to |Places|
        invariant forall j | 0 <= j < k :: card !in piles[Places[j]]
      {
        if card in piles[Places[k]] {
          return Ok(Places[k]);
        }
      }
      forall p | ValidPlace(p)
        ensures card !in piles[p]
      {
        assert Places[PlaceIndex(p)] == p;
      }
      r := Err(CardNotFound);
    }

    /** `_cardInSomeTableau`. */
    method CardInSomeTableau(card: Card) returns (r: bool)
      requires Valid()
      ensures r <==> exists i | 0 <= i < 10 :: card in piles[Tableau(i)]
    {
      for i := 0 to 10
        invariant forall j | 0 <= j < i :: card !in piles[Tableau(j)]
      {
        if card in piles[Tableau(i)] {
          return true;
        }
      }
      return false;
    }

    /** `canMaybeMoveSomewhere`: only a face-up tableau card with a
        descending run above it can be dragged; a face-up tableau card that
        is not in the named pile is an error. */
    method CanMaybeMoveSomewhere(card: Card, src: Place) returns (r: Result<bool, SpiderError>)
      requires Valid() && ValidPlace(src)
      ensures r.Err? <==> src.Tableau? && card in visible && card !in piles[src]
      ensures r.Err? ==> r.error == CardNotInSource
      ensures r == Ok(true) <==> Draggable(piles, visible, card, src)
    {
      if !(src.Tableau? && card in visible) {
        return Ok(false);
      }
      var cardArray := piles[src];
      var index := IndexOf(cardArray, card);
      if index < 0 {
        return Err(CardNotInSource);
      }
      var cardsToMove := cardArray[index..];
      for i := 1 to |cardsToMove|
        invariant forall j | 1 <= j < i :: cardsToMove[j].number == cardsToMove[j - 1].number - 1
      {
        if cardsToMove[i].number != cardsToMove[i - 1].number - 1 {
          return Ok(false);
        }
      }
      r := Ok(true);
    }

    /** Spider's `canMove`. */
    predicate CanMove(card: Card, src: Place, dst: Place)
      requires Valid() && ValidPlace(dst)
      reads this
    {
      CanMoveTo(piles, card, dst)
    }

    /** One round of the deal: the tableau's share of cards off the top of
        the stock onto tableau `i`, the last of them face up. */
    method DealTo(i: int)
      requires Valid() && |allCards| == 104 && DealShape(piles, i) && i < 10
      modifies this
      ensures Valid()
      ensures HowManyToDeal(104, i) <= |old(piles[Stock])| && piles == DealRound(old(piles), i)
      ensures visible == old(visible) + {Top(old(piles[Stock]))}
      ensures status == old(status)
    {
      DealRoom(piles, i);
      ghost var before := piles;
      var howManyToDeal := HowManyToDeal(|allCards|, i);
      var stock := piles[Stock];
      var cardsToMove := stock[|stock| - howManyToDeal..];
      piles := piles[Stock := stock[..|stock| - howManyToDeal]];
      assert piles[Tableau(i)] == before[Tableau(i)];
      assert |piles[Foundation(0)]| != 13;
      MoveCards(cardsToMove, Tableau(i), true);
      assert piles == DealRound(before, i);
      visible := visible + {cardsToMove[|cardsToMove| - 1]};
    }

    /** Spider's `deal` for the 104-card game: every card onto the stock,
        then six cards to each of the first four tableaus and five to the
        rest, taken off the top of the stock, each top card face up. */
    method Deal()
      requires Valid() && |allCards| == 104
      requires forall p | ValidPlace(p) :: piles[p] == []
      modifies this
      ensures Valid()
      ensures |piles[Stock]| == 50
      ensures forall i | 0 <= i < 10 :: |piles[Tableau(i)]| == HowManyToDeal(104, i)
      ensures forall i | 0 <= i < 8 :: piles[Foundation(i)] == []
      ensures allCards == piles[Stock] + DealtFrom(piles, 10)
      ensures visible == old(visible) + TopsOf(piles, 10)
      ensures status == old(status)
    {
      MoveCards(allCards, Stock, false);
      assert piles[Stock] == allCards;
      for i := 0 to 10
        invariant Valid() && DealtUpTo(piles, i, allCards)
        invariant visible == old(visible) + TopsOf(piles, i)
        invariant status == old(status)
      {
        DealRoom(piles, i);
        DealStep(piles, i, allCards);
        DealTo(i);
      }
      DealtCounts(10);
    }

    /** One turn of `stockToTableau`'s loop. */
    method StockToTableauStep(i: int) returns (r: Result<(), SpiderError>)
      requires Valid() && 0 <= i < 10
      modifies this
      ensures Valid()
      ensures (Current(), r) == StockStep(old(Current()), i)
    {
      if piles[Stock] == [] {
        return Err(CardNotInSource);
      }
      var card := piles[Stock][|piles[Stock]| - 1];
      r := RawMove(card, Stock, Tableau(i));
      if r.Err? {
        return;
      }
      visible := visible + {card};
    }

    /** `stockToTableau`: a stock that is not a multiple of ten is an error,
        an empty stock does nothing, otherwise one card goes to each
        tableau. */
    method StockToTableau() returns (r: Result<(), SpiderError>)
      requires Valid()
      modifies this
      ensures Valid()
      ensures |old(piles[Stock])| % 10 != 0 ==> r == Err(StockNotDivisible) && unchanged(this)
      ensures |old(piles[Stock])| == 0 ==> r == Ok(()) && unchanged(this)
      ensures |old(piles[Stock])| % 10 == 0 && |old(piles[Stock])| != 0 ==>
        (Current(), r) == StockRound(old(Current()), 0)
    {
      if |piles[Stock]| % 10 != 0 {
        return Err(StockNotDivisible);
      }
      if |piles[Stock]| == 0 {
        return Ok(());
      }
      r := Ok(());
      for i := 0 to 10
        invariant Valid()
        invariant StockRound(Current(), i) == StockRound(old(Current()), 0)
        invariant r == Ok(())
      {
        r := StockToTableauStep(i);
        if r.Err? {
          return;
        }
      }
    }
  }
}
