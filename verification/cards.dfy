/** The card-game base (`js/cards.js`): cards, the 52-card deck, number
    strings, the layout parser that turns rows of place kinds into place ids,
    and moving a card with the cards on top of it between piles. */
module CardGames {
  import opened Wrappers

  datatype Suit = Spade | Club | Heart | Diamond
  datatype Color = Black | Red

  /** The suits in the order of `SUITS`. */
  const AllSuits: seq<Suit> := [Spade, Club, Heart, Diamond]

  function SuitColor(s: Suit): Color {
    match s
    case Spade => Black
    case Club => Black
    case Heart => Red
    case Diamond => Red
  }

  /** A card. `id` tells apart cards that are separate objects in the game
      even when number and suit agree. */
  datatype Card = Card(id: int, number: int, suit: Suit)

  // ---------------------------------------------------------------- decimal strings

  function DigitChar(d: int): char
    requires 0 <= d < 10
  {
    ('0' as int + d) as char
  }

  predicate IsDigit(c: char) {
    '0' as int <= c as int <= '9' as int
  }

  /** The decimal digits of `n`, as JavaScript writes a number. */
  function Digits(n: nat): (s: string)
    ensures |s| > 0 && forall i | 0 <= i < |s| :: IsDigit(s[i])
  {
    if n < 10 then [DigitChar(n)] else Digits(n / 10) + [DigitChar(n % 10)]
  }

  /** The number a string of decimal digits denotes. */
  function DigitsValue(s: string): nat
    requires forall i | 0 <= i < |s| :: IsDigit(s[i])
  {
    if s == [] then 0
    else
      assert IsDigit(s[|s| - 1]);
      DigitsValue(s[..|s| - 1]) * 10 + (s[|s| - 1] as int - '0' as int)
  }

  /** Reading back the digits of `n` gives `n`. */
  lemma {:induction false} DigitsRoundTrip(n: nat)
    ensures DigitsValue(Digits(n)) == n
  {
    if n >= 10 {
      DigitsRoundTrip(n / 10);
      var s := Digits(n);
      assert s[..|s| - 1] == Digits(n / 10);
    }
  }

  /** Different numbers have different digits. */
  lemma DigitsInjective(a: nat, b: nat)
    requires Digits(a) == Digits(b)
    ensures a == b
  {
    DigitsRoundTrip(a);
    DigitsRoundTrip(b);
  }

  /** `number + ''`. */
  function Decimal(n: int): string {
    if n < 0 then "-" + Digits(-n) else Digits(n)
  }

  /** `getNumberString`: A, J, Q and K for 1, 11, 12 and 13, the decimal
      number otherwise. */
  function NumberString(number: int): (r: string)
    ensures |r| > 0
  {
    if number == 1 then "A"
    else if number == 11 then "J"
    else if number == 12 then "Q"
    else if number == 13 then "K"
    else Decimal(number)
  }

  /** The thirteen numbers of a suit have thirteen different strings, and a
      number between 2 and 10 is written in decimal. */
  lemma NumberStringInjective(a: int, b: int)
    requires 1 <= a <= 13 && 1 <= b <= 13 && NumberString(a) == NumberString(b)
    ensures a == b
    ensures 2 <= a <= 10 ==> NumberString(a) == Digits(a)
  {
    if 2 <= a <= 10 && 2 <= b <= 10 {
      DigitsInjective(a, b);
    }
  }

  // ---------------------------------------------------------------- the deck

  /** The deck `createCards` makes: for each suit in order, the numbers 1 to
      13; each card's id is its position. */
  function Deck(): (d: seq<Card>)
    ensures |d| == 52
  {
    seq(52, i requires 0 <= i < 52 => Card(i, i % 13 + 1, AllSuits[i / 13]))
  }

  /** Some card of the deck has this suit and number. */
  predicate InDeck(s: Suit, n: int) {
    exists i | 0 <= i < 52 :: Deck()[i].suit == s && Deck()[i].number == n
  }

  /** The deck holds every suit and number from 1 to 13 exactly once, and
      only those. */
  lemma DeckComplete()
    ensures forall i, j | 0 <= i < j < 52 :: Deck()[i].suit != Deck()[j].suit || Deck()[i].number != Deck()[j].number
    ensures forall s: Suit, n | 1 <= n <= 13 :: InDeck(s, n)
    ensures forall i | 0 <= i < 52 :: 1 <= Deck()[i].number <= 13 && Deck()[i].id == i
  {
    forall s: Suit, n | 1 <= n <= 13
      ensures InDeck(s, n)
    {
      var k := if s == Spade then 0 else if s == Club then 1 else if s == Heart then 2 else 3;
      var i := 13 * k + n - 1;
      assert Deck()[i].suit == s && Deck()[i].number == n;
    }
    forall i, j | 0 <= i < j < 52
      ensures Deck()[i].suit != Deck()[j].suit || Deck()[i].number != Deck()[j].number
    {
      if i / 13 == j / 13 {
        assert i % 13 != j % 13;
      } else {
        assert AllSuits[i / 13] != AllSuits[j / 13];
      }
    }
  }

  /** `createCards`. */
  method CreateCards() returns (cards: seq<Card>)
    ensures cards == Deck()
  {
    cards := [];
    for s := 0 to 4
      invariant cards == Deck()[..13 * s]
    {
      for number := 1 to 14
        invariant cards == Deck()[..13 * s + number - 1]
      {
        cards := cards + [Card(|cards|, number, AllSuits[s])];
      }
    }
  }

  // ---------------------------------------------------------------- clamping

  /** `putNumberBetween`: `num` moved into `[min, maxPlus1)`. */
  function PutNumberBetween(num: int, min: int, maxPlus1: int): (r: int)
    ensures min < maxPlus1 ==> min <= r < maxPlus1
    ensures min <= num < maxPlus1 ==> r == num
  {
    if num < min then min
    else if num >= maxPlus1 then maxPlus1 - 1
    else num
  }

  /** The clamped value is the nearest value of the range, and clamping it
      again changes nothing. */
  lemma PutNumberBetweenNearest(num: int, min: int, maxPlus1: int, v: int)
    requires min <= v < maxPlus1
    ensures var r := PutNumberBetween(num, min, maxPlus1);
      (if r <= num then num - r else r - num) <= (if v <= num then num - v else v - num)
    ensures PutNumberBetween(PutNumberBetween(num, min, maxPlus1), min, maxPlus1) == PutNumberBetween(num, min, maxPlus1)
  {
  }

  // ---------------------------------------------------------------- splitting

  /** `s.split(sep)`: the pieces between separators; an empty string is one
      empty piece. */
  function Split(s: string, sep: char): (parts: seq<string>)
    ensures |parts| > 0
    ensures forall i | 0 <= i < |parts| :: sep !in parts[i]
    ensures forall i, j | 0 <= i < |parts| && 0 <= j < |parts[i]| :: parts[i][j] in s
  {
    if s == [] then [[]]
    else
      var rest := Split(s[1..], sep);
      if s[0] == sep then [[]] + rest else [[s[0]] + rest[0]] + rest[1..]
  }

  /** `parts.join(sep)`. */
  function Join(parts: seq<string>, sep: char): string
    requires |parts| > 0
  {
    if |parts| == 1 then parts[0] else parts[0] + [sep] + Join(parts[1..], sep)
  }

  /** Joining the pieces gives the string back. */
  lemma {:induction false} JoinSplit(s: string, sep: char)
    ensures Join(Split(s, sep), sep) == s
  {
    if s != [] {
      var rest := Split(s[1..], sep);
      JoinSplit(s[1..], sep);
      if s[0] == sep {
        assert ([[]] + rest)[1..] == rest;
      } else if |rest| == 1 {
        assert Split(s, sep) == [[s[0]] + rest[0]];
      } else {
        var parts := Split(s, sep);
        assert parts[1..] == rest[1..];
        assert Join(rest, sep) == rest[0] + [sep] + Join(rest[1..], sep);
      }
    }
  }

  /** Joining pieces whose first piece is not empty starts with that
      piece's first character. */
  lemma JoinFirstChar(parts: seq<string>, sep: char)
    requires |parts| > 0 && |parts[0]| > 0
    ensures Join(parts, sep) == [parts[0][0]] + Join([parts[0][1..]] + parts[1..], sep)
  {
    var shorter := [parts[0][1..]] + parts[1..];
    if |parts| > 1 {
      assert shorter[1..] == parts[1..];
    }
  }

  /** Joining pieces whose first piece is empty starts with the separator. */
  lemma JoinFirstEmpty(parts: seq<string>, sep: char)
    requires |parts| > 1 && parts[0] == []
    ensures Join(parts, sep) == [sep] + Join(parts[1..], sep)
  {
  }

  /** Splitting pieces that hold no separator, once joined, gives the pieces
      back. */
  lemma {:induction false} SplitJoin(parts: seq<string>, sep: char)
    requires |parts| > 0 && forall i | 0 <= i < |parts| :: sep !in parts[i]
    ensures Split(Join(parts, sep), sep) == parts
    decreases |parts|, |parts[0]|
  {
    var joined := Join(parts, sep);
    if |parts[0]| > 0 {
      var first := parts[0];
      var shorter := [first[1..]] + parts[1..];
      assert forall i | 1 <= i < |shorter| :: shorter[i] == parts[i];
      assert sep !in shorter[0];
      SplitJoin(shorter, sep);
      JoinFirstChar(parts, sep);
      assert joined[1..] == Join(shorter, sep);
      assert [first[0]] + first[1..] == first;
      assert [first] + shorter[1..] == parts;
    } else if |parts| > 1 {
      SplitJoin(parts[1..], sep);
      JoinFirstEmpty(parts, sep);
      assert joined[1..] == Join(parts[1..], sep);
      assert [[]] + parts[1..] == parts;
    }
  }

  // ---------------------------------------------------------------- the layout

  /** Column and row of a place in the layout (`[xCount, yCount]`). */
  type Counts = (int, int)

  datatype PlacesError = NoRows | ContainsDigit(row: string) | InconsistentPartCount

  /** What `getCardPlaces` returns. */
  datatype CardPlaces = CardPlaces(
    kindToPlaceIds: map<string, seq<string>>,
    placeIdToCounts: map<string, Counts>,
    countsToPlaceId: map<Counts, string>,
    countsToKind: map<Counts, string>,
    width: int,
    height: int)

  predicate HasDigit(s: string) {
    exists i | 0 <= i < |s| :: IsDigit(s[i])
  }

  /** The space-separated parts of a layout row. */
  function Parts(row: string): seq<string> {
    Split(row, ' ')
  }

  /** The first complaint about rows `y..` of a layout `width` parts wide:
      a row with a digit, or a row with another number of parts. */
  function LayoutError(rows: seq<string>, width: int, y: nat): Option<PlacesError>
    decreases |rows| - y
  {
    if y >= |rows| then None
    else if HasDigit(rows[y]) then Some(ContainsDigit(rows[y]))
    else if |Parts(rows[y])| != width then Some(InconsistentPartCount)
    else LayoutError(rows, width, y + 1)
  }

  /** No complaint about rows `y..` means each of them is digit-free and
      `width` parts wide. */
  lemma {:induction false} LayoutFine(rows: seq<string>, width: int, y: nat)
    requires LayoutError(rows, width, y).None?
    ensures forall j | y <= j < |rows| :: !HasDigit(rows[j]) && |Parts(rows[j])| == width
    decreases |rows| - y
  {
    if y < |rows| {
      LayoutFine(rows, width, y + 1);
    }
  }

  predicate InLayout(rows: seq<string>, c: Counts) {
    0 <= c.1 < |rows| && 0 <= c.0 < |Parts(rows[c.1])|
  }

  /** The kind written at a position of the layout. */
  function KindAt(rows: seq<string>, c: Counts): string
    requires InLayout(rows, c)
  {
    Parts(rows[c.1])[c.0]
  }

  /** A position that is a card place: in the layout and not `-`. */
  predicate IsPlace(rows: seq<string>, c: Counts) {
    InLayout(rows, c) && KindAt(rows, c) != "-"
  }

  /** A position together with the kind written there. */
  datatype Cell = Cell(at: Counts, kind: string)

  function RowCells(parts: seq<string>, y: int): (cells: seq<Cell>)
    ensures |cells| == |parts|
  {
    seq(|parts|, x requires 0 <= x < |parts| => Cell((x, y), parts[x]))
  }

  /** The cells of the layout, row by row, left to right: the order in which
      `getCardPlaces` visits them. */
  function Cells(rows: seq<string>): seq<Cell> {
    if rows == [] then [] else Cells(rows[..|rows| - 1]) + RowCells(Parts(rows[|rows| - 1]), |rows| - 1)
  }

  /** The positions of the cells of `kind`, in visiting order. */
  function Occ(cells: seq<Cell>, kind: string): seq<Counts> {
    if cells == [] then []
    else Occ(cells[..|cells| - 1], kind) + (if cells[|cells| - 1].kind == kind then [cells[|cells| - 1].at] else [])
  }

  lemma OccSnoc(cells: seq<Cell>, c: Cell, kind: string)
    ensures Occ(cells + [c], kind) == Occ(cells, kind) + (if c.kind == kind then [c.at] else [])
  {
    assert (cells + [c])[..|cells|] == cells;
  }

  lemma CellsSnoc(rows: seq<string>, y: int)
    requires 0 <= y < |rows|
    ensures Cells(rows[..y + 1]) == Cells(rows[..y]) + RowCells(Parts(rows[y]), y)
  {
    assert rows[..y + 1][..y] == rows[..y];
  }

  /** Every cell records the kind written at its position, and no two cells
      share a position. */
  lemma {:induction false} CellsFaithful(rows: seq<string>)
    ensures forall cell | cell in Cells(rows) :: InLayout(rows, cell.at) && cell.kind == KindAt(rows, cell.at)
    ensures forall i, j | 0 <= i < j < |Cells(rows)| :: Cells(rows)[i].at != Cells(rows)[j].at
    ensures forall i | 0 <= i < |Cells(rows)| :: Cells(rows)[i].at.1 < |rows|
  {
    if rows != [] {
      var y := |rows| - 1;
      CellsFaithful(rows[..y]);
      CellsSnoc(rows, y);
      assert rows[..y + 1] == rows;
      var before := Cells(rows[..y]);
      var row := RowCells(Parts(rows[y]), y);
      forall cell | cell in Cells(rows)
        ensures InLayout(rows, cell.at) && cell.kind == KindAt(rows, cell.at)
      {
        if cell in before {
          assert InLayout(rows[..y], cell.at);
        } else {
          assert cell in row;
        }
      }
    }
  }

  /** Every cell of the layout is found among the cells. */
  lemma {:induction false} CellsComplete(rows: seq<string>, c: Counts)
    requires InLayout(rows, c)
    ensures Cell(c, KindAt(rows, c)) in Cells(rows)
  {
    var y := |rows| - 1;
    CellsSnoc(rows, y);
    assert rows[..y + 1] == rows;
    if c.1 == y {
      assert RowCells(Parts(rows[y]), y)[c.0] == Cell(c, KindAt(rows, c));
    } else {
      assert InLayout(rows[..y], c);
      CellsComplete(rows[..y], c);
    }
  }

  lemma {:induction false} OccMembers(cells: seq<Cell>, kind: string, c: Counts)
    ensures c in Occ(cells, kind) <==> Cell(c, kind) in cells
  {
    if cells != [] {
      var init := cells[..|cells| - 1];
      OccMembers(init, kind, c);
      assert cells == init + [cells[|cells| - 1]];
    }
  }

  predicate Distinct<T(==)>(s: seq<T>) {
    forall i, j | 0 <= i < j < |s| :: s[i] != s[j]
  }

  lemma {:induction false} OccDistinct(cells: seq<Cell>, kind: string)
    requires forall i, j | 0 <= i < j < |cells| :: cells[i].at != cells[j].at
    ensures Distinct(Occ(cells, kind))
  {
    if cells != [] {
      var init := cells[..|cells| - 1];
      var last := cells[|cells| - 1];
      OccDistinct(init, kind);
      if last.kind == kind {
        var o := Occ(init, kind);
        forall i | 0 <= i < |o|
          ensures o[i] != last.at
        {
          assert o[i] in o;
          OccMembers(init, kind, o[i]);
          var m :| 0 <= m < |init| && init[m] == Cell(o[i], kind);
          assert cells[m] == init[m];
        }
        assert Occ(cells, kind) == o + [last.at];
      }
    }
  }

  /** What the first phase of `getCardPlaces` has collected after visiting
      `cells`: for each kind other than `-`, its positions in visiting order. */
  ghost predicate KindsOf(cells: seq<Cell>, kc: map<string, seq<Counts>>) {
    (forall k :: k in kc <==> k != "-" && Occ(cells, k) != [])
    && forall k | k in kc :: kc[k] == Occ(cells, k)
  }

  /** Visiting one more cell: a kind other than `-` gets the position added
      to its list, which is created when the kind is new. */
  lemma CollectStep(cells: seq<Cell>, c: Cell, kc: map<string, seq<Counts>>)
    requires KindsOf(cells, kc)
    ensures KindsOf(cells + [c],
      if c.kind == "-" then kc
      else kc[c.kind := (if c.kind in kc then kc[c.kind] else []) + [c.at]])
  {
    forall k {
      OccSnoc(cells, c, k);
    }
  }

  /** The inner loop of the first phase: collects the positions of one row. */
  method CollectRow(stringParts: seq<string>, y: int, ghost done: seq<Cell>, kc0: map<string, seq<Counts>>)
    returns (kindToCounts: map<string, seq<Counts>>)
    requires KindsOf(done, kc0)
    ensures KindsOf(done + RowCells(stringParts, y), kindToCounts)
  {
    kindToCounts := kc0;
    ghost var row := RowCells(stringParts, y);
    assert done + row[..0] == done;
    for x := 0 to |stringParts|
      invariant KindsOf(done + row[..x], kindToCounts)
    {
      assert done + row[..x + 1] == (done + row[..x]) + [row[x]];
      CollectStep(done + row[..x], row[x], kindToCounts);
      var kind := stringParts[x];
      if kind != "-" {
        if kind !in kindToCounts {
          kindToCounts := kindToCounts[kind := []];
        }
        kindToCounts := kindToCounts[kind := kindToCounts[kind] + [(x, y)]];
      }
    }
    assert row[..|stringParts|] == row;
  }

  /** First phase of `getCardPlaces`: checks each row and collects the
      positions of each kind. */
  method CollectKinds(rows: seq<string>, width: int) returns (r: Result<map<string, seq<Counts>>, PlacesError>)
    ensures r.Err? <==> LayoutError(rows, width, 0).Some?
    ensures r.Err? ==> r.error == LayoutError(rows, width, 0).value
    ensures r.Ok? ==> KindsOf(Cells(rows), r.value)
  {
    var kindToCounts: map<string, seq<Counts>> := map[];
    for y := 0 to |rows|
      invariant LayoutError(rows, width, 0) == LayoutError(rows, width, y)
      invariant KindsOf(Cells(rows[..y]), kindToCounts)
    {
      if HasDigit(rows[y]) {
        return Err(ContainsDigit(rows[y]));
      }
      var stringParts := Parts(rows[y]);
      if |stringParts| != width {
        return Err(InconsistentPartCount);
      }
      kindToCounts := CollectRow(stringParts, y, Cells(rows[..y]), kindToCounts);
      CellsSnoc(rows, y);
    }
    assert rows[..|rows|] == rows;
    return Ok(kindToCounts);
  }

  /** The ids of the places of a kind with `n` places: the kind itself when
      there is one, the kind followed by the index otherwise. */
  function IdsFor(kind: string, n: nat): (ids: seq<string>)
    ensures |ids| == n
  {
    seq(n, i requires 0 <= i < n => if n == 1 then kind else kind + Digits(i))
  }

  /** The part of `s` before its first digit. */
  function DigitFreePrefix(s: string): string {
    if s == [] || IsDigit(s[0]) then [] else [s[0]] + DigitFreePrefix(s[1..])
  }

  lemma {:induction false} DigitFreePrefixOf(kind: string, digits: string)
    requires !HasDigit(kind)
    requires digits == [] || IsDigit(digits[0])
    ensures DigitFreePrefix(kind + digits) == kind
  {
    if kind != [] {
      assert !IsDigit(kind[0]);
      assert (kind + digits)[1..] == kind[1..] + digits;
      DigitFreePrefixOf(kind[1..], digits);
    } else {
      assert kind + digits == digits;
    }
  }

  /** Every id of a kind begins with the kind and goes on with digits only;
      the ids of a kind are distinct. */
  lemma IdsOfKind(kind: string, n: nat)
    requires !HasDigit(kind)
    ensures forall i | 0 <= i < n :: DigitFreePrefix(IdsFor(kind, n)[i]) == kind
    ensures Distinct(IdsFor(kind, n))
  {
    forall i | 0 <= i < n
      ensures DigitFreePrefix(IdsFor(kind, n)[i]) == kind
    {
      if n == 1 {
        DigitFreePrefixOf(kind, []);
        assert kind + [] == kind;
      } else {
        DigitFreePrefixOf(kind, Digits(i));
      }
    }
    forall i, j | 0 <= i < j < n
      ensures IdsFor(kind, n)[i] != IdsFor(kind, n)[j]
    {
      var a, b := kind + Digits(i), kind + Digits(j);
      assert a[|kind|..] == Digits(i) && b[|kind|..] == Digits(j);
      if Digits(i) == Digits(j) {
        DigitsInjective(i, j);
      }
    }
  }

  /** Entry `i` of `kind` has been named: its id maps to its position, its
      position to its id and to its kind. */
  ghost predicate Entered(kc: map<string, seq<Counts>>, kind: string, i: int,
                          pc: map<string, Counts>, cp: map<Counts, string>, ck: map<Counts, string>)
    requires kind in kc && 0 <= i < |kc[kind]|
  {
    var id := IdsFor(kind, |kc[kind]|)[i];
    var c := kc[kind][i];
    id in pc && pc[id] == c && c in cp && cp[c] == id && c in ck && ck[c] == kind
  }

  /** Naming a new id at a new position keeps every earlier entry. */
  lemma EnteredKept(kc: map<string, seq<Counts>>, k: string, i: int,
                    pc: map<string, Counts>, cp: map<Counts, string>, ck: map<Counts, string>,
                    id: string, c: Counts, kind: string)
    requires k in kc && 0 <= i < |kc[k]| && Entered(kc, k, i, pc, cp, ck)
    requires id !in pc && c !in ck && cp.Keys == ck.Keys
    ensures Entered(kc, k, i, pc[id := c], cp[c := id], ck[c := kind])
  {
  }

  /** The collected positions as the second phase needs them: kinds without
      digits, no position twice, no position under two kinds. */
  ghost predicate WellCollected(kc: map<string, seq<Counts>>) {
    (forall k | k in kc :: !HasDigit(k) && Distinct(kc[k]))
    && forall k1, k2, c | k1 in kc && k2 in kc && c in kc[k1] && c in kc[k2] :: k1 == k2
  }

  /** The maps after naming the kinds in `done`: every entry of those kinds
      named, ids and positions mutually inverse, and nothing else named. */
  ghost predicate Named(kc: map<string, seq<Counts>>, done: set<string>,
                        pc: map<string, Counts>, cp: map<Counts, string>, ck: map<Counts, string>)
  {
    (forall k, i | k in done && k in kc && 0 <= i < |kc[k]| :: Entered(kc, k, i, pc, cp, ck))
    && (forall id | id in pc :: pc[id] in cp && cp[pc[id]] == id)
    && (forall c | c in cp :: cp[c] in pc && pc[cp[c]] == c)
    && cp.Keys == ck.Keys
    && (forall c | c in ck :: ck[c] in done && ck[c] in kc && c in kc[ck[c]])
    && (forall id | id in pc :: DigitFreePrefix(id) in done)
  }

  /** The maps part way through naming `kind`: the kinds in `done` and the
      first `index` entries of `kind` named, nothing else. */
  ghost predicate NamedPart(kc: map<string, seq<Counts>>, done: set<string>, kind: string, index: int,
                            pc: map<string, Counts>, cp: map<Counts, string>, ck: map<Counts, string>)
    requires kind in kc && 0 <= index <= |kc[kind]|
  {
    (forall k, i | k in done && k in kc && 0 <= i < |kc[k]| :: Entered(kc, k, i, pc, cp, ck))
    && (forall i | 0 <= i < index :: Entered(kc, kind, i, pc, cp, ck))
    && (forall id | id in pc :: pc[id] in cp && cp[pc[id]] == id)
    && (forall c | c in cp :: cp[c] in pc && pc[cp[c]] == c)
    && cp.Keys == ck.Keys
    && (forall c | c in ck :: ck[c] in kc && ((ck[c] in done && c in kc[ck[c]]) || (ck[c] == kind && c in kc[kind][..index])))
    && (forall id | id in pc :: DigitFreePrefix(id) in done || id in IdsFor(kind, |kc[kind]|)[..index])
  }

  /** Naming the next entry of `kind` keeps the maps consistent. */
  lemma NameStep(kc: map<string, seq<Counts>>, done: set<string>, kind: string, index: int,
                 pc: map<string, Counts>, cp: map<Counts, string>, ck: map<Counts, string>)
    requires WellCollected(kc) && kind in kc && kind !in done && 0 <= index < |kc[kind]|
    requires NamedPart(kc, done, kind, index, pc, cp, ck)
    ensures var id, c := IdsFor(kind, |kc[kind]|)[index], kc[kind][index];
      NamedPart(kc, done, kind, index + 1, pc[id := c], cp[c := id], ck[c := kind])
  {
    var n := |kc[kind]|;
    var id, c := IdsFor(kind, n)[index], kc[kind][index];
    IdsOfKind(kind, n);
    assert id !in pc;
    assert c in kc[kind];
    assert c !in ck;
    var pc', cp', ck' := pc[id := c], cp[c := id], ck[c := kind];
    forall k, i | k in done && k in kc && 0 <= i < |kc[k]|
      ensures Entered(kc, k, i, pc', cp', ck')
    {
      EnteredKept(kc, k, i, pc, cp, ck, id, c, kind);
    }
    forall i | 0 <= i < index
      ensures Entered(kc, kind, i, pc', cp', ck')
    {
      EnteredKept(kc, kind, i, pc, cp, ck, id, c, kind);
    }
    assert kc[kind][..index + 1] == kc[kind][..index] + [c];
    assert IdsFor(kind, n)[..index + 1] == IdsFor(kind, n)[..index] + [id];
  }

  /** Second phase of `getCardPlaces` for one kind: names its places. */
  method NameKind(kc: map<string, seq<Counts>>, ghost done: set<string>, kind: string,
                  pc0: map<string, Counts>, cp0: map<Counts, string>, ck0: map<Counts, string>)
    returns (ids: seq<string>, pc: map<string, Counts>, cp: map<Counts, string>, ck: map<Counts, string>)
    requires WellCollected(kc) && kind in kc && kind !in done
    requires Named(kc, done, pc0, cp0, ck0)
    ensures ids == IdsFor(kind, |kc[kind]|)
    ensures Named(kc, done + {kind}, pc, cp, ck)
  {
    var counts2dArray := kc[kind];
    pc, cp, ck := pc0, cp0, ck0;
    ids := [];
    for index := 0 to |counts2dArray|
      invariant ids == IdsFor(kind, |counts2dArray|)[..index]
      invariant NamedPart(kc, done, kind, index, pc, cp, ck)
    {
      var counts := counts2dArray[index];
      var id := kind;
      if |counts2dArray| != 1 {
        id := id + Digits(index);
      }
      assert id == IdsFor(kind, |counts2dArray|)[index];
      NameStep(kc, done, kind, index, pc, cp, ck);
      ids := ids + [id];
      pc := pc[id := counts];
      cp := cp[counts := id];
      ck := ck[counts := kind];
    }
    NamedWhole(kc, done, kind, pc, cp, ck);
  }

  /** Once every entry of `kind` is named, `kind` counts as done. */
  lemma NamedWhole(kc: map<string, seq<Counts>>, done: set<string>, kind: string,
                   pc: map<string, Counts>, cp: map<Counts, string>, ck: map<Counts, string>)
    requires kind in kc && !HasDigit(kind)
    requires NamedPart(kc, done, kind, |kc[kind]|, pc, cp, ck)
    ensures Named(kc, done + {kind}, pc, cp, ck)
  {
    var n := |kc[kind]|;
    IdsOfKind(kind, n);
    assert kc[kind][..n] == kc[kind];
    assert IdsFor(kind, n)[..n] == IdsFor(kind, n);
  }

  /** Second phase of `getCardPlaces`: names the places of every kind. */
  method NamePlaces(kc: map<string, seq<Counts>>)
    returns (kindToPlaceIds: map<string, seq<string>>, pc: map<string, Counts>, cp: map<Counts, string>, ck: map<Counts, string>)
    requires WellCollected(kc)
    ensures kindToPlaceIds.Keys == kc.Keys
    ensures forall k | k in kc :: kindToPlaceIds[k] == IdsFor(k, |kc[k]|)
    ensures Named(kc, kc.Keys, pc, cp, ck)
  {
    kindToPlaceIds, pc, cp, ck := map[], map[], map[], map[];
    var remaining := kc.Keys;
    ghost var done: set<string> := {};
    while remaining != {}
      invariant remaining + done == kc.Keys && remaining !! done
      invariant kindToPlaceIds.Keys == done
      invariant forall k | k in done :: kindToPlaceIds[k] == IdsFor(k, |kc[k]|)
      invariant Named(kc, done, pc, cp, ck)
      decreases remaining
    {
      var kind :| kind in remaining;
      var ids;
      ids, pc, cp, ck := NameKind(kc, done, kind, pc, cp, ck);
      kindToPlaceIds := kindToPlaceIds[kind := ids];
      remaining := remaining - {kind};
      done := done + {kind};
    }
  }

  /** Each collected position is where its kind is written. */
  lemma CollectedWhere(rows: seq<string>, kc: map<string, seq<Counts>>)
    requires KindsOf(Cells(rows), kc)
    ensures forall k, c | k in kc && c in kc[k] :: InLayout(rows, c) && KindAt(rows, c) == k
  {
    CellsFaithful(rows);
    forall k, c | k in kc && c in kc[k]
      ensures InLayout(rows, c) && KindAt(rows, c) == k
    {
      OccMembers(Cells(rows), k, c);
    }
  }

  /** Every card place is collected under the kind written there. */
  lemma CollectedAll(rows: seq<string>, kc: map<string, seq<Counts>>)
    requires KindsOf(Cells(rows), kc)
    ensures forall c | IsPlace(rows, c) :: KindAt(rows, c) in kc && c in kc[KindAt(rows, c)]
  {
    forall c | IsPlace(rows, c)
      ensures KindAt(rows, c) in kc && c in kc[KindAt(rows, c)]
    {
      CellsComplete(rows, c);
      OccMembers(Cells(rows), KindAt(rows, c), c);
    }
  }

  /** A part of a digit-free row is digit-free. */
  lemma PartNoDigit(row: string, x: int)
    requires !HasDigit(row) && 0 <= x < |Parts(row)|
    ensures !HasDigit(Parts(row)[x])
  {
    var k := Parts(row)[x];
    forall j | 0 <= j < |k|
      ensures !IsDigit(k[j])
    {
      assert k[j] in row;
    }
  }

  /** A collected kind is digit-free and lists no position twice. */
  lemma CollectedKind(rows: seq<string>, width: int, kc: map<string, seq<Counts>>, k: string)
    requires KindsOf(Cells(rows), kc) && LayoutError(rows, width, 0).None? && k in kc
    ensures !HasDigit(k) && Distinct(kc[k])
  {
    CellsFaithful(rows);
    OccDistinct(Cells(rows), k);
    var c := kc[k][0];
    OccMembers(Cells(rows), k, c);
    LayoutFine(rows, width, 0);
    assert !HasDigit(rows[c.1]);
    PartNoDigit(rows[c.1], c.0);
  }

  /** What the first phase collected, on a layout without complaints, is fit
      for naming. */
  lemma CollectedFacts(rows: seq<string>, width: int, kc: map<string, seq<Counts>>)
    requires KindsOf(Cells(rows), kc) && LayoutError(rows, width, 0).None?
    ensures WellCollected(kc)
  {
    CollectedWhere(rows, kc);
    forall k | k in kc
      ensures !HasDigit(k) && Distinct(kc[k])
    {
      CollectedKind(rows, width, kc, k);
    }
    forall k1, k2, c | k1 in kc && k2 in kc && c in kc[k1] && c in kc[k2]
      ensures k1 == k2
    {
      assert KindAt(rows, c) == k1 && KindAt(rows, c) == k2;
    }
  }

  /** A place for every part other than `-`, under the kind written there. */
  ghost predicate PlacesWhere(rows: seq<string>, p: CardPlaces) {
    (forall c :: c in p.countsToKind <==> IsPlace(rows, c))
    && (forall c | c in p.countsToKind :: InLayout(rows, c) && p.countsToKind[c] == KindAt(rows, c))
    && p.countsToPlaceId.Keys == p.countsToKind.Keys
  }

  /** Each kind's places, in visiting order, get the ids `IdsFor` makes. */
  ghost predicate PlacesNamed(rows: seq<string>, p: CardPlaces) {
    (forall k :: k in p.kindToPlaceIds <==> k != "-" && Occ(Cells(rows), k) != [])
    && (forall k | k in p.kindToPlaceIds :: p.kindToPlaceIds[k] == IdsFor(k, |Occ(Cells(rows), k)|))
    && (forall k, i | k in p.kindToPlaceIds && 0 <= i < |Occ(Cells(rows), k)| ::
          var c, id := Occ(Cells(rows), k)[i], p.kindToPlaceIds[k][i];
          c in p.countsToPlaceId && p.countsToPlaceId[c] == id && id in p.placeIdToCounts && p.placeIdToCounts[id] == c)
  }

  /** `placeIdToCounts` and `countsToPlaceId` are mutual inverses. */
  ghost predicate PlacesInverse(p: CardPlaces) {
    (forall id | id in p.placeIdToCounts ::
       p.placeIdToCounts[id] in p.countsToPlaceId && p.countsToPlaceId[p.placeIdToCounts[id]] == id)
    && (forall c | c in p.countsToPlaceId ::
       p.countsToPlaceId[c] in p.placeIdToCounts && p.placeIdToCounts[p.countsToPlaceId[c]] == c)
  }

  /** What `getCardPlaces` promises about its result for `rows`. */
  ghost predicate PlacesOf(rows: seq<string>, p: CardPlaces)
    requires |rows| > 0
  {
    p.width == |Parts(rows[0])| && p.height == |rows|
    && PlacesWhere(rows, p) && PlacesNamed(rows, p) && PlacesInverse(p)
  }

  lemma NamedWhere(rows: seq<string>, kc: map<string, seq<Counts>>, p: CardPlaces)
    requires KindsOf(Cells(rows), kc) && Named(kc, kc.Keys, p.placeIdToCounts, p.countsToPlaceId, p.countsToKind)
    ensures PlacesWhere(rows, p)
  {
    var ck := p.countsToKind;
    NamedHasPlaces(rows, kc, p);
    CollectedWhere(rows, kc);
    forall c | c in ck
      ensures InLayout(rows, c) && ck[c] == KindAt(rows, c) && IsPlace(rows, c)
    {
      assert ck[c] in kc && c in kc[ck[c]];
      assert ck[c] != "-";
    }
  }

  /** Every card place has been named. */
  lemma NamedHasPlaces(rows: seq<string>, kc: map<string, seq<Counts>>, p: CardPlaces)
    requires KindsOf(Cells(rows), kc) && Named(kc, kc.Keys, p.placeIdToCounts, p.countsToPlaceId, p.countsToKind)
    ensures forall c | IsPlace(rows, c) :: c in p.countsToKind
  {
    CollectedAll(rows, kc);
    forall c | IsPlace(rows, c)
      ensures c in p.countsToKind
    {
      var k := KindAt(rows, c);
      var i :| 0 <= i < |kc[k]| && kc[k][i] == c;
      assert Entered(kc, k, i, p.placeIdToCounts, p.countsToPlaceId, p.countsToKind);
    }
  }

  lemma NamedIds(rows: seq<string>, kc: map<string, seq<Counts>>, p: CardPlaces)
    requires KindsOf(Cells(rows), kc) && Named(kc, kc.Keys, p.placeIdToCounts, p.countsToPlaceId, p.countsToKind)
    requires p.kindToPlaceIds.Keys == kc.Keys
    requires forall k | k in kc :: p.kindToPlaceIds[k] == IdsFor(k, |kc[k]|)
    ensures PlacesNamed(rows, p)
  {
    forall k, i | k in p.kindToPlaceIds && 0 <= i < |Occ(Cells(rows), k)|
      ensures var c, id := Occ(Cells(rows), k)[i], p.kindToPlaceIds[k][i];
        c in p.countsToPlaceId && p.countsToPlaceId[c] == id && id in p.placeIdToCounts && p.placeIdToCounts[id] == c
    {
      assert kc[k] == Occ(Cells(rows), k);
      assert Entered(kc, k, i, p.placeIdToCounts, p.countsToPlaceId, p.countsToKind);
    }
    forall k | k in p.kindToPlaceIds
      ensures p.kindToPlaceIds[k] == IdsFor(k, |Occ(Cells(rows), k)|)
    {
      assert kc[k] == Occ(Cells(rows), k);
    }
  }

  /** `getCardPlaces` (without its cache): an empty layout, a row with a
      digit and a row with a different part count than the first are
      errors; otherwise every part other than `-` becomes a place. */
  method GetCardPlaces(rows: seq<string>) returns (r: Result<CardPlaces, PlacesError>)
    ensures |rows| == 0 ==> r == Err(NoRows)
    ensures |rows| > 0 ==> (r.Err? <==> LayoutError(rows, |Parts(rows[0])|, 0).Some?)
    ensures |rows| > 0 && r.Err? ==> r.error == LayoutError(rows, |Parts(rows[0])|, 0).value
    ensures r.Ok? ==> |rows| > 0 && PlacesOf(rows, r.value)
  {
    if |rows| == 0 {
      return Err(NoRows);
    }
    var width := |Parts(rows[0])|;
    var collected := CollectKinds(rows, width);
    if collected.Err? {
      return Err(collected.error);
    }
    var kindToCounts := collected.value;
    CollectedFacts(rows, width, kindToCounts);
    var kindToPlaceIds, placeIdToCounts, countsToPlaceId, countsToKind := NamePlaces(kindToCounts);
    var places := CardPlaces(kindToPlaceIds, placeIdToCounts, countsToPlaceId, countsToKind, width, |rows|);
    NamedWhere(rows, kindToCounts, places);
    NamedIds(rows, kindToCounts, places);
    return Ok(places);
  }

  // ---------------------------------------------------------------- piles

  /** `Array.prototype.indexOf`: the first position of `x`, or -1. */
  function IndexOf<T(==)>(s: seq<T>, x: T): (i: int)
    ensures -1 <= i < |s|
    ensures i == -1 <==> x !in s
    ensures i >= 0 ==> s[i] == x && x !in s[..i]
  {
    if s == [] then -1
    else if s[0] == x then 0
    else
      var j := IndexOf(s[1..], x);
      assert j >= 0 ==> s[..j + 1] == [s[0]] + s[1..][..j];
      if j == -1 then -1 else j + 1
  }

  /** The last card of a non-empty pile, its top. */
  function Top<T>(s: seq<T>): T
    requires |s| > 0
  {
    s[|s| - 1]
  }

  function Reverse<T>(s: seq<T>): (r: seq<T>)
    ensures |r| == |s|
    ensures forall i | 0 <= i < |s| :: r[i] == s[|s| - 1 - i]
  {
    if s == [] then [] else [s[|s| - 1]] + Reverse(s[..|s| - 1])
  }

  /** Every card of a row of piles, counted with multiplicity. */
  function Flat<T>(piles: seq<seq<T>>): multiset<T> {
    if piles == [] then multiset{} else Flat(piles[..|piles| - 1]) + multiset(piles[|piles| - 1])
  }

  /** Replacing one pile of a row replaces its cards in the row's cards. */
  lemma {:induction false} FlatUpdate<T>(piles: seq<seq<T>>, i: int, s: seq<T>)
    requires 0 <= i < |piles|
    ensures Flat(piles[i := s]) + multiset(piles[i]) == Flat(piles) + multiset(s)
  {
    var n := |piles| - 1;
    var updated := piles[i := s];
    if i == n {
      assert updated[..n] == piles[..n];
      assert Flat(updated) == Flat(piles[..n]) + multiset(s);
    } else {
      assert updated[..n] == piles[..n][i := s];
      assert updated[n] == piles[n] && piles[..n][i] == piles[i];
      FlatUpdate(piles[..n], i, s);
      var rest := Flat(piles[..n][i := s]);
      assert Flat(updated) == rest + multiset(piles[n]);
      assert Flat(piles) == Flat(piles[..n]) + multiset(piles[n]);
      calc {
        Flat(updated) + multiset(piles[i]);
        (rest + multiset(piles[i])) + multiset(piles[n]);
        (Flat(piles[..n]) + multiset(s)) + multiset(piles[n]);
        Flat(piles) + multiset(s);
      }
    }
  }

  /** No card of a row of piles, when each pile is empty. */
  lemma {:induction false} FlatEmpty<T>(piles: seq<seq<T>>)
    requires forall i | 0 <= i < |piles| :: piles[i] == []
    ensures Flat(piles) == multiset{}
  {
    if piles != [] {
      FlatEmpty(piles[..|piles| - 1]);
    }
  }
}
