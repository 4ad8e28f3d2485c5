/** Klondike solitaire (`klondike/js/core.js`): seven tableau piles, four
    foundations, a stock and a discard pile, and the rules for moving cards
    between them. Card objects are modelled by `Card` values (their `id`
    keeps apart distinct objects), and each card's `visible` flag by the
    game's set of face-up cards. */
module Klondike {
  import opened Wrappers
  import opened Common
  import opened CardGames

  // ---------------------------------------------------------------- card places

  /** `CardPlace`: where a pile is. */
  datatype CardPlace = Stock | Discard | Foundation(n: int) | Tableau(n: int)

  datatype PlaceError = UnexpectedNumber(kind: string) | NumberOutOfRange(kind: string) | UnknownKind(kind: string)

  predicate ValidPlace(p: CardPlace) {
    match p
    case Foundation(n) => 0 <= n < 4
    case Tableau(n) => 0 <= n < 7
    case _ => true
  }

  function KindName(p: CardPlace): string {
    match p
    case Stock => "stock"
    case Discard => "discard"
    case Foundation(_) => "foundation"
    case Tableau(_) => "tableau"
  }

  function PlaceNumber(p: CardPlace): Option<int> {
    match p
    case Foundation(n) => Some(n)
    case Tableau(n) => Some(n)
    case _ => None
  }

  /** `new CardPlace(kind, optionalNumber)`: stock and discard take no
      number, foundations a number from 0 to 3 and tableaus one from 0 to 6;
      anything else is an error. */
  function MakeCardPlace(kind: string, optionalNumber: Option<int>): (r: Result<CardPlace, PlaceError>)
    ensures r.Ok? ==> ValidPlace(r.value) && KindName(r.value) == kind && PlaceNumber(r.value) == optionalNumber
    ensures r.Err? <==>
      (kind in {"stock", "discard"} && optionalNumber.Some?)
      || (kind == "foundation" && !(optionalNumber.Some? && 0 <= optionalNumber.value < 4))
      || (kind == "tableau" && !(optionalNumber.Some? && 0 <= optionalNumber.value < 7))
      || kind !in {"stock", "discard", "foundation", "tableau"}
    ensures r == Err(UnknownKind(kind)) <==> kind !in {"stock", "discard", "foundation", "tableau"}
  {
    if kind == "stock" || kind == "discard" then
      if optionalNumber.Some? then Err(UnexpectedNumber(kind))
      else if kind == "stock" then Ok(Stock) else Ok(Discard)
    else if kind == "foundation" || kind == "tableau" then
      var numberLimit := if kind == "foundation" then 4 else 7;
      if optionalNumber.None? || optionalNumber.value < 0 || optionalNumber.value >= numberLimit then
        Err(NumberOutOfRange(kind))
      else if kind == "foundation" then Ok(Foundation(optionalNumber.value))
      else Ok(Tableau(optionalNumber.value))
    else Err(UnknownKind(kind))
  }

  /** Every valid place is made back from its kind and number. */
  lemma CardPlaceRoundTrip(p: CardPlace)
    requires ValidPlace(p)
    ensures MakeCardPlace(KindName(p), PlaceNumber(p)) == Ok(p)
  {
  }

  // ---------------------------------------------------------------- the rules

  /** An empty foundation takes an ace; otherwise the next number of the
      same suit. */
  predicate FoundationAccepts(pile: seq<Card>, card: Card) {
    if pile == [] then card.number == 1
    else card.suit == Top(pile).suit && card.number == Top(pile).number + 1
  }

  /** An empty tableau takes a king; otherwise a card of the other colour,
      one lower. */
  predicate TableauAccepts(pile: seq<Card>, card: Card) {
    if pile == [] then card.number == 13
    else SuitColor(card.suit) != SuitColor(Top(pile).suit) && card.number == Top(pile).number - 1
  }

  /** A foundation built the way the rules allow: ace, two, three, … of one
      suit. */
  predicate FoundationBuilt(pile: seq<Card>) {
    forall i | 0 <= i < |pile| :: pile[i].number == i + 1 && pile[i].suit == pile[0].suit
  }

  /** The foundation rule keeps a foundation built; a full built foundation
      runs from ace to king. */
  lemma FoundationStaysBuilt(pile: seq<Card>, card: Card)
    requires FoundationBuilt(pile) && FoundationAccepts(pile, card)
    ensures FoundationBuilt(pile + [card])
    ensures |pile| == 12 ==> (pile + [card])[12].number == 13
  {
  }

  /** `card` is the topmost card of `pile`, as `indexOf` finds it. */
  predicate IsTopmost(pile: seq<Card>, card: Card) {
    IndexOf(pile, card) == |pile| - 1
  }

  /** Cards the tableaus deal out: the first `n` tableaus get 1, 2, …, `n`
      cards. */
  function Tri(n: nat): nat {
    if n == 0 then 0 else Tri(n - 1) + n
  }

  lemma {:induction false} TriFacts(n: nat)
    requires n <= 7
    ensures Tri(n) <= Tri(7) == 28
    decreases 7 - n
  {
    if n < 7 {
      TriFacts(n + 1);
    }
  }

  datatype GameError = WrongCardCount(count: int) | CardNotInSource | InvalidMove | CardNotFound

  /** The places in the order `findCurrentPlace` searches them. */
  const SearchOrder: seq<CardPlace> :=
    [Stock, Discard, Foundation(0), Foundation(1), Foundation(2), Foundation(3),
     Tableau(0), Tableau(1), Tableau(2), Tableau(3), Tableau(4), Tableau(5), Tableau(6)]

  /** The places `moveAnyCardToAnyFoundationIfPossible` tries, in order. */
  const AutoSources: seq<CardPlace> :=
    [Tableau(0), Tableau(1), Tableau(2), Tableau(3), Tableau(4), Tableau(5), Tableau(6), Discard]

  // ---------------------------------------------------------------- the piles as a value

  /** The four kinds of pile, as values. */
  datatype Table = Table(stock: seq<Card>, discard: seq<Card>, foundations: seq<seq<Card>>, tableau: seq<seq<Card>>)

  predicate WellShaped(t: Table) {
    |t.foundations| == 4 && |t.tableau| == 7
  }

  function PileOf(t: Table, p: CardPlace): seq<Card>
    requires WellShaped(t) && ValidPlace(p)
  {
    match p
    case Stock => t.stock
    case Discard => t.discard
    case Foundation(n) => t.foundations[n]
    case Tableau(n) => t.tableau[n]
  }

  /** The table with the pile at `p` replaced by `s`; every other pile stays. */
  function WithPile(t: Table, p: CardPlace, s: seq<Card>): (r: Table)
    requires WellShaped(t) && ValidPlace(p)
    ensures WellShaped(r) && PileOf(r, p) == s
    ensures forall q | ValidPlace(q) && q != p :: PileOf(r, q) == PileOf(t, q)
  {
    match p
    case Stock => t.(stock := s)
    case Discard => t.(discard := s)
    case Foundation(n) => t.(foundations := t.foundations[n := s])
    case Tableau(n) => t.(tableau := t.tableau[n := s])
  }

  /** Every card on the table, counted with multiplicity. */
  function CardsIn(t: Table): multiset<Card> {
    multiset(t.stock) + multiset(t.discard) + Flat(t.foundations) + Flat(t.tableau)
  }

  /** Replacing a foundation replaces its cards among the cards on the
      table. */
  lemma {:induction false} FoundationCards(t: Table, n: int, s: seq<Card>)
    requires WellShaped(t) && 0 <= n < 4
    ensures CardsIn(WithPile(t, Foundation(n), s)) + multiset(t.foundations[n]) == CardsIn(t) + multiset(s)
  {
    var piles := multiset(t.stock) + multiset(t.discard);
    FlatUpdate(t.foundations, n, s);
    calc {
      CardsIn(WithPile(t, Foundation(n), s)) + multiset(t.foundations[n]);
      piles + (Flat(t.foundations[n := s]) + multiset(t.foundations[n])) + Flat(t.tableau);
      piles + (Flat(t.foundations) + multiset(s)) + Flat(t.tableau);
    }
  }

  /** Replacing a tableau replaces its cards among the cards on the table. */
  lemma {:induction false} TableauCards(t: Table, n: int, s: seq<Card>)
    requires WellShaped(t) && 0 <= n < 7
    ensures CardsIn(WithPile(t, Tableau(n), s)) + multiset(t.tableau[n]) == CardsIn(t) + multiset(s)
  {
    var piles := multiset(t.stock) + multiset(t.discard) + Flat(t.foundations);
    FlatUpdate(t.tableau, n, s);
    calc {
      CardsIn(WithPile(t, Tableau(n), s)) + multiset(t.tableau[n]);
      piles + (Flat(t.tableau[n := s]) + multiset(t.tableau[n]));
      piles + (Flat(t.tableau) + multiset(s));
    }
  }

  /** Replacing a pile replaces its cards among the cards on the table. */
  lemma {:induction false} WithPileCards(t: Table, p: CardPlace, s: seq<Card>)
    requires WellShaped(t) && ValidPlace(p)
    ensures CardsIn(WithPile(t, p, s)) + multiset(PileOf(t, p)) == CardsIn(t) + multiset(s)
  {
    match p
    case Stock =>
      assert CardsIn(t) == multiset(t.stock) + (multiset(t.discard) + Flat(t.foundations) + Flat(t.tableau));
    case Discard =>
      assert CardsIn(t) == multiset(t.discard) + (multiset(t.stock) + Flat(t.foundations) + Flat(t.tableau));
    case Foundation(n) =>
      FoundationCards(t, n, s);
    case Tableau(n) =>
      TableauCards(t, n, s);
  }

  /** `rawMove` on the piles: the card and the cards on it leave `src` for
      the top of `dst`, in order; every other pile stays. */
  function MoveTable(t: Table, card: Card, src: CardPlace, dst: CardPlace): (r: Table)
    requires WellShaped(t) && ValidPlace(src) && ValidPlace(dst) && card in PileOf(t, src)
    ensures WellShaped(r)
    ensures var i := IndexOf(PileOf(t, src), card);
      && (src != dst ==> PileOf(r, src) == PileOf(t, src)[..i] && PileOf(r, dst) == PileOf(t, dst) + PileOf(t, src)[i..])
      && (src == dst ==> PileOf(r, src) == PileOf(t, src))
    ensures forall q | ValidPlace(q) && q != src && q != dst :: PileOf(r, q) == PileOf(t, q)
  {
    var sourceArray := PileOf(t, src);
    var index := IndexOf(sourceArray, card);
    var left := WithPile(t, src, sourceArray[..index]);
    assert src == dst ==> sourceArray[..index] + sourceArray[index..] == sourceArray;
    WithPile(left, dst, PileOf(left, dst) + sourceArray[index..])
  }

  /** A move keeps every card on the table. */
  lemma {:induction false} MoveKeepsCards(t: Table, card: Card, src: CardPlace, dst: CardPlace)
    requires WellShaped(t) && ValidPlace(src) && ValidPlace(dst) && card in PileOf(t, src)
    ensures CardsIn(MoveTable(t, card, src, dst)) == CardsIn(t)
  {
    var sourceArray := PileOf(t, src);
    var index := IndexOf(sourceArray, card);
    var rest := sourceArray[..index];
    var moving := sourceArray[index..];
    var left := WithPile(t, src, rest);
    WithPileCards(t, src, rest);
    WithPileCards(left, dst, PileOf(left, dst) + moving);
    assert rest + moving == sourceArray;
    var under := PileOf(left, dst);
    assert multiset(under + moving) == multiset(under) + multiset(moving);
    MultisetMoved(CardsIn(t), CardsIn(left), CardsIn(MoveTable(t, card, src, dst)),
                  multiset(rest), multiset(moving), multiset(under));
  }

  /** Tableaus `k - 1`, …, `0` one after the other: the order in which
      their cards lay at the end of the stock before the deal. */
  function DealtFrom(tableau: seq<seq<Card>>, k: nat): seq<Card>
    requires k <= |tableau|
  {
    if k == 0 then [] else tableau[k - 1] + DealtFrom(tableau, k - 1)
  }

  lemma {:induction false} DealtFromSame(a: seq<seq<Card>>, b: seq<seq<Card>>, k: nat)
    requires k <= |a| && k <= |b|
    requires forall j | 0 <= j < k :: a[j] == b[j]
    ensures DealtFrom(a, k) == DealtFrom(b, k)
  {
    if k > 0 {
      DealtFromSame(a, b, k - 1);
    }
  }

  /** The dealt tableaus hold the cards they were dealt. */
  lemma {:induction false} DealtCards(tableau: seq<seq<Card>>, k: nat)
    requires k <= |tableau|
    ensures Flat(tableau[..k]) == multiset(DealtFrom(tableau, k))
  {
    if k > 0 {
      DealtCards(tableau, k - 1);
      assert tableau[..k][..k - 1] == tableau[..k - 1];
    }
  }

  /** One round of the deal, on values: the stock still ends in the cards
      not yet dealt, and the new tableau's top card joins the face-up ones. */
  lemma {:induction false} DealStep(allCards: seq<Card>, stock0: seq<Card>, t0: seq<seq<Card>>, stock1: seq<Card>, t1: seq<seq<Card>>, i: int)
    requires |t0| == 7 && 0 <= i < 7 && |stock0| > i
    requires allCards == stock0 + DealtFrom(t0, i)
    requires forall j | 0 <= j < i :: |t0[j]| == j + 1
    requires t0[i] == [] && t1 == t0[i := t0[i] + stock0[|stock0| - (i + 1)..]]
    requires stock1 == stock0[..|stock0| - (i + 1)]
    ensures allCards == stock1 + DealtFrom(t1, i + 1)
    ensures |t1[i]| == i + 1 && Top(stock0) == t1[i][i]
    ensures (set j | 0 <= j < i + 1 :: t1[j][j]) == (set j | 0 <= j < i :: t0[j][j]) + {t1[i][i]}
  {
    var moved := stock0[|stock0| - (i + 1)..];
    assert t1[i] == moved;
    DealtFromSame(t0, t1, i);
    assert stock1 + moved == stock0;
    assert DealtFrom(t1, i + 1) == moved + DealtFrom(t0, i);
    assert allCards == stock1 + (moved + DealtFrom(t0, i));
    TopsStep(t0, t1, i);
  }

  lemma {:induction false} TopsStep(t0: seq<seq<Card>>, t1: seq<seq<Card>>, i: int)
    requires |t0| == |t1| == 7 && 0 <= i < 7 && |t1[i]| == i + 1
    requires forall j | 0 <= j < i :: |t0[j]| == j + 1 && t1[j] == t0[j]
    ensures (set j | 0 <= j < i + 1 :: t1[j][j]) == (set j | 0 <= j < i :: t0[j][j]) + {t1[i][i]}
  {
    var after, before := set j | 0 <= j < i + 1 :: t1[j][j], set j | 0 <= j < i :: t0[j][j];
    forall x | x in after
      ensures x in before + {t1[i][i]}
    {
      var j :| 0 <= j < i + 1 && t1[j][j] == x;
      if j < i {
        assert t0[j][j] == x;
      }
    }
    forall x | x in before
      ensures x in after
    {
      var j :| 0 <= j < i && t0[j][j] == x;
      assert t1[j][j] == x;
    }
  }

  /** After `deal`, the table holds exactly the game's cards. */
  lemma {:induction false} DealKeepsCards(t: Table, allCards: seq<Card>)
    requires WellShaped(t) && t.discard == [] && t.foundations == [[], [], [], []]
    requires allCards == t.stock + DealtFrom(t.tableau, 7)
    ensures CardsIn(t) == multiset(allCards)
  {
    FlatEmpty(t.foundations);
    DealtCards(t.tableau, 7);
    assert t.tableau[..7] == t.tableau;
    var dealt := multiset(DealtFrom(t.tableau, 7));
    assert Flat(t.tableau) == dealt;
    assert multiset(allCards) == multiset(t.stock) + dealt;
    assert CardsIn(t) == multiset(t.stock) + multiset{} + multiset{} + dealt;
  }

  /** Turning the discard pile over keeps its cards. */
  lemma {:induction false} ReverseKeepsCards<T>(s: seq<T>)
    ensures multiset(Reverse(s)) == multiset(s)
  {
    if s != [] {
      var init := s[..|s| - 1];
      ReverseKeepsCards(init);
      assert s == init + [s[|s| - 1]];
      assert Reverse(s) == [s[|s| - 1]] + Reverse(init);
    }
  }

  /** How the pile being turned over looks one card further on. */
  lemma {:induction false} TurnOverFacts(pile: seq<Card>, k: int)
    requires 0 <= k <= |pile|
    ensures k == |pile| ==> pile[..k] == pile && pile[k..] == [] && Reverse(pile[k..]) == []
    ensures k == 0 ==> pile[k..] == pile
    ensures k < |pile| ==>
      var later := pile[k + 1..];
      && pile[..k + 1][..k] == pile[..k] && pile[..k + 1][k] == pile[k]
      && Reverse(pile[k..]) == Reverse(later) + [pile[k]]
      && (set c | c in pile[k..]) == (set c | c in later) + {pile[k]}
  {
    if k < |pile| {
      assert pile[k..] == [pile[k]] + pile[k + 1..];
    }
  }

  // ---------------------------------------------------------------- the game

  class Game {
    var tableau: seq<seq<Card>>
    var foundations: seq<seq<Card>>
    var discard: seq<Card>
    var stock: seq<Card>
    /** The cards lying face up. */
    var visible: set<Card>
    var status: Status
    /** The game's cards, in their shuffled order. */
    const allCards: seq<Card>

    ghost predicate Valid()
      reads this
    {
      |tableau| == 7 && |foundations| == 4 && |allCards| == 52
    }

    function Piles(): Table
      reads this
    {
      Table(stock, discard, foundations, tableau)
    }

    predicate Empty()
      reads this
    {
      tableau == [[], [], [], [], [], [], []] && foundations == [[], [], [], []] && discard == [] && stock == []
    }

    /** `arrayFromCardPlace`. */
    function Pile(p: CardPlace): seq<Card>
      reads this
      requires Valid() && ValidPlace(p)
    {
      PileOf(Piles(), p)
    }

    predicate AllFoundationsFull()
      reads this
      requires Valid()
    {
      forall i | 0 <= i < 4 :: |foundations[i]| == 13
    }

    /** `_cardInSomeTableau`. */
    predicate CardInSomeTableau(card: Card)
      reads this
      requires Valid()
    {
      exists i | 0 <= i < 7 :: card in tableau[i]
    }

    /** The card a move from `src` turns face up: the new top of a tableau. */
    function Revealed(src: CardPlace): set<Card>
      reads this
      requires Valid() && ValidPlace(src)
    {
      if src.Tableau? && Pile(src) != [] then {Top(Pile(src))} else {}
    }

    /** The constructor without its card-count check: a shuffled copy of the
        cards, all piles empty, every card face down. */
    constructor (cards: seq<Card>, shuffled: seq<Card>)
      requires |cards| == 52 && multiset(shuffled) == multiset(cards)
      ensures Valid() && Empty() && allCards == shuffled
      ensures visible == {} && status == Playing
    {
      assert |shuffled| == |multiset(shuffled)| == |cards|;
      allCards := shuffled;
      tableau := [[], [], [], [], [], [], []];
      foundations := [[], [], [], []];
      discard := [];
      stock := [];
      visible := {};
      status := Playing;
    }

    /** Replaces one pile, as the source's in-place array edits do. */
    method SetPile(p: CardPlace, s: seq<Card>)
      requires Valid() && ValidPlace(p)
      modifies this
      ensures Valid() && Piles() == WithPile(old(Piles()), p, s)
      ensures visible == old(visible) && status == old(status)
    {
      match p {
        case Stock =>
          stock := s;
        case Discard =>
          discard := s;
        case Foundation(n) =>
          foundations := foundations[n := s];
        case Tableau(n) =>
          tableau := tableau[n := s];
      }
    }

    /** `_moveCards`: puts `cards` on top of the pile at `place`; with
        `setStatus`, the game is won when all four foundations hold 13
        cards. */
    method MoveCards(cards: seq<Card>, place: CardPlace, setStatus: bool)
      requires Valid() && ValidPlace(place)
      modifies this
      ensures Valid() && Piles() == WithPile(old(Piles()), place, old(Pile(place)) + cards)
      ensures visible == old(visible)
      ensures status == if setStatus && AllFoundationsFull() then Win else old(status)
    {
      SetPile(place, Pile(place) + cards);
      if setStatus && AllFoundationsFull() {
        status := Win;
      }
    }

    /** One round of `deal`: the last `i + 1` stock cards go onto tableau
        `i`, the top one face up. */
    method DealTo(i: int)
      requires Valid() && 0 <= i < 7 && |stock| > i && foundations[0] == []
      modifies this
      ensures Valid() && discard == old(discard) && foundations == old(foundations)
      ensures stock == old(stock)[..|old(stock)| - (i + 1)]
      ensures tableau == old(tableau)[i := old(tableau[i]) + old(stock)[|old(stock)| - (i + 1)..]]
      ensures visible == old(visible) + {Top(old(stock))}
      ensures status == old(status)
    {
      var howManyCardsToMove := i + 1;
      var cardsToMove := stock[|stock| - howManyCardsToMove..];
      SetPile(Stock, stock[..|stock| - howManyCardsToMove]);
      MoveCards(cardsToMove, Tableau(i), true);
      visible := visible + {cardsToMove[|cardsToMove| - 1]};
    }

    /** `deal`: the cards go to the stock, then tableau `i` gets the last
        `i + 1` of them with the top one face up; 24 stay in the stock. */
    method Deal()
      requires Valid() && Empty() && visible == {}
      modifies this
      ensures Valid() && discard == [] && foundations == old(foundations)
      ensures |stock| == 24 && forall i | 0 <= i < 7 :: |tableau[i]| == i + 1
      ensures allCards == stock + DealtFrom(tableau, 7)
      ensures visible == set i | 0 <= i < 7 :: tableau[i][i]
      ensures status == old(status)
    {
      MoveCards(allCards, Stock, false);
      for i := 0 to 7
        invariant Valid() && discard == [] && foundations == old(foundations)
        invariant |stock| == 52 - Tri(i)
        invariant allCards == stock + DealtFrom(tableau, i)
        invariant forall j | 0 <= j < i :: |tableau[j]| == j + 1
        invariant forall j | i <= j < 7 :: tableau[j] == []
        invariant visible == set j | 0 <= j < i :: tableau[j][j]
        invariant status == old(status)
      {
        TriFacts(i + 1);
        ghost var before := tableau;
        ghost var stockBefore := stock;
        DealTo(i);
        DealStep(allCards, stockBefore, before, stock, tableau, i);
      }
      TriFacts(0);
    }

    /** `canMaybeMoveSomewhere`: dragging starts only from the top of the
        discard pile or of a foundation, or from a face-up tableau card. */
    function CanMaybeMoveSomewhere(card: Card, src: CardPlace): (r: bool)
      reads this
      requires Valid() && ValidPlace(src)
      ensures r ==> !src.Stock?
      ensures (src.Discard? || src.Foundation?) ==> (r <==> Pile(src) != [] && card == Top(Pile(src)))
      ensures src.Tableau? ==> (r <==> card in visible)
    {
      match src
      case Stock => false
      case Discard => Pile(src) != [] && card == Pile(src)[|Pile(src)| - 1]
      case Foundation(_) => Pile(src) != [] && card == Pile(src)[|Pile(src)| - 1]
      case Tableau(_) => card in visible
    }

    /** `canMove`: an error when the card is not in the source pile. A
        topmost face-up card may go to a foundation that accepts it or to a
        tableau that accepts it; a card with cards on top of it only from
        one tableau to another, face up, onto a tableau that accepts it. */
    function CanMove(card: Card, src: CardPlace, dst: CardPlace): (r: Result<bool, GameError>)
      reads this
      requires Valid() && ValidPlace(src) && ValidPlace(dst)
      ensures r.Err? <==> card !in Pile(src)
      ensures r.Err? ==> r.error == CardNotInSource
      ensures r == Ok(true) <==>
        card in Pile(src) && card in visible
        && (if IsTopmost(Pile(src), card)
            then (dst.Foundation? && FoundationAccepts(foundations[dst.n], card))
                 || (dst.Tableau? && TableauAccepts(tableau[dst.n], card))
            else CardInSomeTableau(card) && dst.Tableau? && TableauAccepts(tableau[dst.n], card))
    {
      var sourceArray := Pile(src);
      var sourceArrayIndex := IndexOf(sourceArray, card);
      if sourceArrayIndex < 0 then Err(CardNotInSource)
      else if sourceArrayIndex == |sourceArray| - 1 then
        if dst.Stock? || dst.Discard? || card !in visible then Ok(false)
        else if dst.Foundation? then Ok(FoundationAccepts(foundations[dst.n], card))
        else Ok(TableauAccepts(tableau[dst.n], card))
      else if !(CardInSomeTableau(card) && dst.Tableau? && card in visible) then Ok(false)
      else Ok(TableauAccepts(tableau[dst.n], card))
    }

    /** Whenever a card may be dropped somewhere, it may be dragged: given
        that stock cards lie face down and a card in a tableau is in no other
        pile. */
    lemma CanMoveNeedsDrag(card: Card, src: CardPlace, dst: CardPlace)
      requires Valid() && ValidPlace(src) && ValidPlace(dst)
      requires src.Stock? ==> card !in visible
      requires CardInSomeTableau(card) ==> src.Tableau?
      requires CanMove(card, src, dst) == Ok(true)
      ensures CanMaybeMoveSomewhere(card, src)
    {
      if src.Discard? || src.Foundation? {
        assert IsTopmost(Pile(src), card);
      }
    }

    /** The new state after a `rawMove` of `card` from `src` to `dst`: the
        piles as `MoveTable` leaves them, the new top of a tableau source
        face up, and the game won if all foundations are full. */
    twostate predicate Moved(card: Card, src: CardPlace, dst: CardPlace)
      reads this
      requires old(Valid()) && Valid() && ValidPlace(src) && ValidPlace(dst)
      requires card in old(Pile(src))
    {
      && Piles() == MoveTable(old(Piles()), card, src, dst)
      && visible == old(visible) + Revealed(src)
      && status == (if AllFoundationsFull() then Win else old(status))
    }

    /** `rawMove`: an error when the card is not in the source pile;
        otherwise the move `Moved` describes. */
    method RawMove(card: Card, src: CardPlace, dst: CardPlace) returns (r: Result<(), GameError>)
      requires Valid() && ValidPlace(src) && ValidPlace(dst)
      modifies this
      ensures Valid()
      ensures r.Err? <==> card !in old(Pile(src))
      ensures r.Err? ==> r.error == CardNotInSource && unchanged(this)
      ensures r.Ok? ==> Moved(card, src, dst)
    {
      var sourceArray := Pile(src);
      var index := IndexOf(sourceArray, card);
      if index == -1 {
        return Err(CardNotInSource);
      }
      var moving := sourceArray[index..];
      SetPile(src, sourceArray[..index]);
      MoveCards(moving, dst, true);
      if src.Tableau? && Pile(src) != [] {
        visible := visible + {Pile(src)[|Pile(src)| - 1]};
      }
      return Ok(());
    }

    /** `move`: a move `canMove` allows, or an error; a foundation that was
        built stays built. */
    method Move(card: Card, src: CardPlace, dst: CardPlace) returns (r: Result<(), GameError>)
      requires Valid() && ValidPlace(src) && ValidPlace(dst)
      modifies this
      ensures Valid()
      ensures r.Ok? <==> old(CanMove(card, src, dst)) == Ok(true)
      ensures r.Err? ==> unchanged(this)
      ensures r.Err? ==> r.error == if card in old(Pile(src)) then InvalidMove else CardNotInSource
      ensures r.Ok? ==> Moved(card, src, dst)
      ensures r.Ok? && dst.Foundation? ==> Pile(dst) == old(Pile(dst)) + [card]
      ensures r.Ok? && dst.Foundation? && FoundationBuilt(old(Pile(dst))) ==> FoundationBuilt(Pile(dst))
    {
      var can := CanMove(card, src, dst);
      if can.Err? {
        return Err(can.error);
      }
      if !can.value {
        return Err(InvalidMove);
      }
      ghost var i := IndexOf(Pile(src), card);
      assert dst.Foundation? ==> src != dst && i == |Pile(src)| - 1 && Pile(src)[i..] == [card];
      r := RawMove(card, src, dst);
      if dst.Foundation? && FoundationBuilt(old(Pile(dst))) {
        FoundationStaysBuilt(old(Pile(dst)), card);
      }
    }

    /** One step of turning the discard pile over: its top card goes face
        down onto the stock. */
    method TurnOverTop()
      requires Valid() && discard != []
      modifies this
      ensures Valid() && tableau == old(tableau) && foundations == old(foundations)
      ensures stock == old(stock) + [Top(old(discard))] && discard == old(discard)[..|old(discard)| - 1]
      ensures visible == old(visible) - {Top(old(discard))}
      ensures status == if AllFoundationsFull() then Win else old(status)
    {
      var card := discard[|discard| - 1];
      SetPile(Discard, discard[..|discard| - 1]);
      visible := visible - {card};
      MoveCards([card], Stock, true);
    }

    /** Turns the whole discard pile over onto the empty stock, one card at
        a time. */
    method TurnOverDiscard()
      requires Valid() && stock == []
      modifies this
      ensures Valid() && tableau == old(tableau) && foundations == old(foundations)
      ensures stock == Reverse(old(discard)) && discard == []
      ensures visible == old(visible) - (set c | c in old(discard))
      ensures status == if old(discard) != [] && AllFoundationsFull() then Win else old(status)
    {
      ghost var pile := discard;
      TurnOverFacts(pile, |pile|);
      while |discard| != 0
        invariant Valid() && tableau == old(tableau) && foundations == old(foundations)
        invariant |discard| <= |pile| && discard == pile[..|discard|]
        invariant stock == Reverse(pile[|discard|..])
        invariant visible == old(visible) - (set c | c in pile[|discard|..])
        invariant status == if |discard| < |pile| && AllFoundationsFull() then Win else old(status)
        decreases |discard|
      {
        TurnOverFacts(pile, |discard| - 1);
        TurnOverTop();
      }
      TurnOverFacts(pile, 0);
    }

    /** `stockToDiscard`: the top stock card goes face up onto the discard
        pile; from an empty stock, the discard pile goes back face down, the
        last discarded card at the bottom. */
    method StockToDiscard()
      requires Valid()
      modifies this
      ensures Valid() && tableau == old(tableau) && foundations == old(foundations)
      ensures old(stock) == [] ==>
        && stock == Reverse(old(discard)) && discard == []
        && visible == old(visible) - (set c | c in old(discard))
        && status == (if old(discard) != [] && AllFoundationsFull() then Win else old(status))
      ensures old(stock) != [] ==>
        && stock == old(stock)[..|old(stock)| - 1] && discard == old(discard) + [Top(old(stock))]
        && visible == old(visible) + {Top(old(stock))}
        && status == (if AllFoundationsFull() then Win else old(status))
    {
      if |stock| == 0 {
        TurnOverDiscard();
      } else {
        var card := stock[|stock| - 1];
        SetPile(Stock, stock[..|stock| - 1]);
        MoveCards([card], Discard, true);
        visible := visible + {card};
      }
    }

    /** The first foundation from `from` on that `card` may move to. */
    function FirstFoundationFor(card: Card, src: CardPlace, from: nat): (r: Option<int>)
      reads this
      requires Valid() && ValidPlace(src)
      decreases 4 - from
      ensures r.Some? ==> from <= r.value < 4 && CanMove(card, src, Foundation(r.value)) == Ok(true)
      ensures forall i | from <= i < (if r.Some? then r.value else 4) :: CanMove(card, src, Foundation(i)) != Ok(true)
    {
      if from >= 4 then None
      else if CanMove(card, src, Foundation(from)) == Ok(true) then Some(from)
      else FirstFoundationFor(card, src, from + 1)
    }

    /** `moveCardToAnyFoundationIfPossible`: moves the card to the first
        foundation that accepts it, if any, and says whether it did. */
    method MoveCardToAnyFoundationIfPossible(card: Card, src: CardPlace) returns (r: Result<bool, GameError>)
      requires Valid() && ValidPlace(src)
      modifies this
      ensures Valid()
      ensures r.Err? <==> card !in old(Pile(src))
      ensures r.Ok? ==> r.value == old(FirstFoundationFor(card, src, 0)).Some?
      ensures r != Ok(true) ==> unchanged(this)
      ensures r == Ok(true) ==> Moved(card, src, Foundation(old(FirstFoundationFor(card, src, 0)).value))
    {
      for i := 0 to 4
        invariant unchanged(this)
        invariant i > 0 ==> card in Pile(src)
        invariant FirstFoundationFor(card, src, 0) == FirstFoundationFor(card, src, i)
      {
        var can := CanMove(card, src, Foundation(i));
        if can.Err? {
          return Err(can.error);
        }
        if can.value {
          var moved := Move(card, src, Foundation(i));
          return Ok(true);
        }
      }
      return Ok(false);
    }

    /** The top card of the `k`-th place of `AutoSources` may go to some
        foundation. */
    predicate CanAutoMove(k: int)
      reads this
      requires Valid() && 0 <= k < 8
    {
      var place := AutoSources[k];
      Pile(place) != [] && FirstFoundationFor(Top(Pile(place)), place, 0).Some?
    }

    /** The first place from `from` on in `AutoSources` whose top card may
        go to some foundation. */
    function FirstAutoSource(from: nat): (r: Option<int>)
      reads this
      requires Valid()
      decreases 8 - from
      ensures r.Some? ==> from <= r.value < 8 && CanAutoMove(r.value)
      ensures forall k | from <= k < (if r.Some? then r.value else 8) :: !CanAutoMove(k)
    {
      if from >= 8 then None
      else if CanAutoMove(from) then Some(from)
      else FirstAutoSource(from + 1)
    }

    /** `moveAnyCardToAnyFoundationIfPossible`: moves the top card of the
        first tableau, or else of the discard pile, that has one a foundation
        accepts, and says whether it did. */
    method MoveAnyCardToAnyFoundationIfPossible() returns (moved: bool)
      requires Valid()
      modifies this
      ensures Valid()
      ensures moved == old(FirstAutoSource(0)).Some?
      ensures !moved ==> unchanged(this)
      ensures moved ==>
        (var src := AutoSources[old(FirstAutoSource(0)).value];
         var card := old(Top(Pile(src)));
         Moved(card, src, Foundation(old(FirstFoundationFor(card, src, 0)).value)))
    {
      for k := 0 to 8
        invariant unchanged(this)
        invariant FirstAutoSource(0) == FirstAutoSource(k)
      {
        var place := AutoSources[k];
        var pile := Pile(place);
        if pile != [] {
          var r := MoveCardToAnyFoundationIfPossible(pile[|pile| - 1], place);
          if r == Ok(true) {
            assert old(FirstAutoSource(k)) == Some(k);
            return true;
          }
        }
        assert !CanAutoMove(k);
      }
      return false;
    }

    /** `findCurrentPlace`: the first place, in `SearchOrder`, holding the
        card; an error when no pile holds it. */
    method FindCurrentPlace(card: Card) returns (r: Result<CardPlace, GameError>)
      requires Valid()
      ensures r.Ok? ==> ValidPlace(r.value) && card in Pile(r.value)
      ensures r.Ok? ==>
        exists k | 0 <= k < |SearchOrder| ::
          SearchOrder[k] == r.value && forall j | 0 <= j < k :: card !in Pile(SearchOrder[j])
      ensures r.Err? <==> forall k | 0 <= k < |SearchOrder| :: card !in Pile(SearchOrder[k])
    {
      if card in stock {
        return Ok(Stock);
      }
      assert card !in Pile(SearchOrder[0]);
      if card in discard {
        assert SearchOrder[1] == Discard;
        return Ok(Discard);
      }
      for i := 0 to 4
        invariant forall j | 0 <= j < 2 + i :: card !in Pile(SearchOrder[j])
      {
        if card in foundations[i] {
          assert SearchOrder[2 + i] == Foundation(i);
          return Ok(Foundation(i));
        }
      }
      for i := 0 to 7
        invariant forall j | 0 <= j < 6 + i :: card !in Pile(SearchOrder[j])
      {
        if card in tableau[i] {
          assert SearchOrder[6 + i] == Tableau(i);
          return Ok(Tableau(i));
        }
      }
      return Err(CardNotFound);
    }
  }

  /** `new Game(cards)`: an error unless there are exactly 52 cards; the
      shuffle is the `shuffled` argument, a reordering of `cards`. */
  method NewGame(cards: seq<Card>, shuffled: seq<Card>) returns (r: Result<Game, GameError>)
    requires multiset(shuffled) == multiset(cards)
    ensures r.Err? <==> |cards| != 52
    ensures r.Err? ==> r.error == WrongCardCount(|cards|)
    ensures r.Ok? ==>
      && fresh(r.value) && r.value.Valid() && r.value.Empty() && r.value.allCards == shuffled
      && r.value.visible == {} && r.value.status == Playing
  {
    if |cards| != 13 * 4 {
      return Err(WrongCardCount(|cards|));
    }
    var g := new Game(cards, shuffled);
    return Ok(g);
  }
}
