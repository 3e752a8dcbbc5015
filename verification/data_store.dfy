/** The card and deck tables and the operations the app performs on them. A table is a
    sequence of records in row order; identifiers and timestamps are passed in. */
module DataStore {
  import opened Options
  import opened Seqs
  import opened Cards
  import Srs

  /** Is the card in deck `deckId`? */
  function InDeck(deckId: string): Card -> bool
  {
    (c: Card) => c.deckId == deckId
  }

  /** The cards of a deck, or every card when no deck (or an empty deck id) is given. */
  function GetCards(cards: seq<Card>, deckId: Option<string>): (r: seq<Card>)
    ensures deckId.None? || deckId.value == "" ==> r == cards
    ensures deckId.Some? && deckId.value != "" ==>
      && Selects(r, cards, InDeck(deckId.value))
      && forall c :: c in r <==> c in cards && c.deckId == deckId.value
  {
    match deckId
    case None => cards
    case Some(d) =>
      if d == "" then cards
      else
        FilterSelects(InDeck(d), cards);
        Filter(InDeck(d), cards)
  }

  /** Why adding a card fails: the card data lacks a required key. */
  datatype AddError = MissingKey(key: string)

  /** `data.get(key, "")`. */
  function Optional(data: map<string, string>, key: string): (v: string)
    ensures key in data ==> v == data[key]
    ensures key !in data ==> v == ""
  {
    if key in data then data[key] else ""
  }

  /** Appends a fresh card built from `data` in the initial scheduling state: box 1,
      ease 2.5, a one-day interval, no repetitions or lapses, due today. The card data
      must carry `deck_id`, `de` and `en`; the first one missing is reported. */
  function AddCard(cards: seq<Card>, data: map<string, string>, newId: string, today: int,
                   createdAt: string, updatedAt: string): (r: Result<seq<Card>, AddError>)
    ensures r.Failure? <==> "deck_id" !in data || "de" !in data || "en" !in data
    ensures "deck_id" !in data ==> r == Failure(MissingKey("deck_id"))
    ensures "deck_id" in data && "de" !in data ==> r == Failure(MissingKey("de"))
    ensures "deck_id" in data && "de" in data && "en" !in data ==> r == Failure(MissingKey("en"))
    ensures r.Success? ==>
      && |r.value| == |cards| + 1
      && r.value[..|cards|] == cards
      && var c := r.value[|cards|];
      && c.id == newId && c.deckId == data["deck_id"] && c.de == data["de"] && c.en == data["en"]
      && c.example == Optional(data, "example") && c.tags == Optional(data, "tags")
      && c.notes == Optional(data, "notes")
      && c.box == Some(1) && c.ease == Some(Srs.DefaultEase) && c.intervalDays == Some(1)
      && c.reps == Some(0) && c.lapses == Some(0) && c.dueDate == today
      && c.createdAt == createdAt && c.updatedAt == updatedAt
  {
    if "deck_id" !in data then Failure(MissingKey("deck_id"))
    else if "de" !in data then Failure(MissingKey("de"))
    else if "en" !in data then Failure(MissingKey("en"))
    else
      var c := Card(newId, data["deck_id"], data["de"], data["en"], Optional(data, "example"),
                    Optional(data, "tags"), Optional(data, "notes"), Some(1), Some(Srs.DefaultEase),
                    Some(1), Some(0), Some(0), today, createdAt, updatedAt);
      Success(cards + [c])
  }

  /** The entry that stamps the update time. */
  function Stamp(now: string): Update
  {
    Cell(UpdatedAt, Text(now))
  }

  /** `r` is row `c` after an update: every entry's column takes the value of the last
      entry naming it, the update time becomes `now`, and every other column keeps its
      cell. */
  ghost predicate UpdatedRow(c: Card, updates: seq<Update>, now: string, r: Card)
  {
    && Get(r, UpdatedAt) == Text(now)
    && (forall col :: col != UpdatedAt && Unnamed(updates, col) ==> Get(r, col) == Get(c, col))
    && (forall k :: LastFor(updates, k) && updates[k].column != UpdatedAt ==>
          Get(r, updates[k].column) == updates[k].value)
  }

  /** Writing the entries then the time stamp gives an updated row. */
  lemma StampedRowIsUpdated(c: Card, updates: seq<Update>, now: string)
    ensures UpdatedRow(c, updates, now, Set(SetAll(c, updates), Stamp(now)))
  {
  }

  /** Writes `updates` into every card whose id is `cardId` and stamps those rows with
      the update time; other rows, and a table with no such card, are left as they are. */
  function UpdateCard(cards: seq<Card>, cardId: string, updates: seq<Update>, now: string): (r: seq<Card>)
    ensures |r| == |cards|
    ensures (forall i :: 0 <= i < |cards| ==> cards[i].id != cardId) ==> r == cards
    ensures forall i :: 0 <= i < |cards| && cards[i].id != cardId ==> r[i] == cards[i]
    ensures forall i :: 0 <= i < |cards| && cards[i].id == cardId ==> UpdatedRow(cards[i], updates, now, r[i])
  {
    forall c: Card {
      StampedRowIsUpdated(c, updates, now);
    }
    seq(|cards|, i requires 0 <= i < |cards| =>
      if cards[i].id == cardId then Set(SetAll(cards[i], updates), Stamp(now)) else cards[i])
  }

  /** Is the deck other than `deckId`? */
  function DeckOtherThan(deckId: string): Deck -> bool
  {
    (d: Deck) => d.id != deckId
  }

  /** Is the card outside deck `deckId`? */
  function NotInDeck(deckId: string): Card -> bool
  {
    (c: Card) => c.deckId != deckId
  }

  /** Removes deck `deckId` and every card in it; all other rows stay, in order. */
  function DeleteDeck(decks: seq<Deck>, cards: seq<Card>, deckId: string): (r: (seq<Deck>, seq<Card>))
    ensures Selects(r.0, decks, DeckOtherThan(deckId))
    ensures forall d :: d in r.0 <==> d in decks && d.id != deckId
    ensures Selects(r.1, cards, NotInDeck(deckId))
    ensures forall c :: c in r.1 <==> c in cards && c.deckId != deckId
  {
    FilterSelects(DeckOtherThan(deckId), decks);
    FilterSelects(NotInDeck(deckId), cards);
    (Filter(DeckOtherThan(deckId), decks), Filter(NotInDeck(deckId), cards))
  }

  /** Is the card's id other than `cardId`? */
  function OtherCard(cardId: string): Card -> bool
  {
    (c: Card) => c.id != cardId
  }

  /** Removes every card whose id is `cardId`; all other rows stay, in order. */
  function DeleteCard(cards: seq<Card>, cardId: string): (r: seq<Card>)
    ensures Selects(r, cards, OtherCard(cardId))
    ensures forall c :: c in r <==> c in cards && c.id != cardId
  {
    FilterSelects(OtherCard(cardId), cards);
    Filter(OtherCard(cardId), cards)
  }

  /** Is the card in deck `deckId` and due on or before day `today`? */
  function DueIn(deckId: string, today: int): Card -> bool
  {
    (c: Card) => c.deckId == deckId && c.dueDate <= today
  }

  /** The cards of a deck due on or before `today`, in table order. */
  function GetDueCards(cards: seq<Card>, deckId: string, today: int): (r: seq<Card>)
    ensures Selects(r, cards, DueIn(deckId, today))
    ensures forall c :: c in r <==> c in cards && c.deckId == deckId && c.dueDate <= today
  {
    FilterSelects(DueIn(deckId, today), cards);
    Filter(DueIn(deckId, today), cards)
  }

  /** Is the card in deck `deckId` and never reviewed? An unset repetition count does
      not count as zero. */
  function NewIn(deckId: string): Card -> bool
  {
    (c: Card) => c.deckId == deckId && c.reps == Some(0)
  }

  /** The never-reviewed cards of a deck, in table order. */
  function GetNewCards(cards: seq<Card>, deckId: string): (r: seq<Card>)
    ensures Selects(r, cards, NewIn(deckId))
    ensures forall c :: c in r <==> c in cards && c.deckId == deckId && c.reps == Some(0)
  {
    FilterSelects(NewIn(deckId), cards);
    Filter(NewIn(deckId), cards)
  }

  /** A freshly added card joins the end of its deck's new-card list; the lists of every
      other deck stay as they were. */
  lemma AddedCardJoinsNewList(cards: seq<Card>, data: map<string, string>, newId: string, today: int,
                              createdAt: string, updatedAt: string, deckId: string)
    requires AddCard(cards, data, newId, today, createdAt, updatedAt).Success?
    ensures var r := AddCard(cards, data, newId, today, createdAt, updatedAt).value;
      && (deckId == data["deck_id"] ==> GetNewCards(r, deckId) == GetNewCards(cards, deckId) + [r[|cards|]])
      && (deckId != data["deck_id"] ==> GetNewCards(r, deckId) == GetNewCards(cards, deckId))
  {
    var r := AddCard(cards, data, newId, today, createdAt, updatedAt).value;
    assert r == cards + [r[|cards|]];
    FilterAppend(NewIn(deckId), cards, [r[|cards|]]);
  }

  /** A freshly added card joins the end of its deck's due list from the day it was added
      on; before that day, and in every other deck, the due lists stay as they were. */
  lemma AddedCardJoinsDueList(cards: seq<Card>, data: map<string, string>, newId: string, today: int,
                              createdAt: string, updatedAt: string, deckId: string, day: int)
    requires AddCard(cards, data, newId, today, createdAt, updatedAt).Success?
    ensures var r := AddCard(cards, data, newId, today, createdAt, updatedAt).value;
      && (deckId == data["deck_id"] && today <= day ==>
            GetDueCards(r, deckId, day) == GetDueCards(cards, deckId, day) + [r[|cards|]])
      && (deckId != data["deck_id"] || day < today ==> GetDueCards(r, deckId, day) == GetDueCards(cards, deckId, day))
  {
    var r := AddCard(cards, data, newId, today, createdAt, updatedAt).value;
    assert r == cards + [r[|cards|]];
    FilterAppend(DueIn(deckId, day), cards, [r[|cards|]]);
  }

  /** When no card had the new id, deleting it right after adding restores the table. */
  lemma AddThenDeleteRestores(cards: seq<Card>, data: map<string, string>, newId: string, today: int,
                              createdAt: string, updatedAt: string)
    requires AddCard(cards, data, newId, today, createdAt, updatedAt).Success?
    requires forall k :: 0 <= k < |cards| ==> cards[k].id != newId
    ensures DeleteCard(AddCard(cards, data, newId, today, createdAt, updatedAt).value, newId) == cards
  {
    var r := AddCard(cards, data, newId, today, createdAt, updatedAt).value;
    assert r == cards + [r[|cards|]];
    FilterAppend(OtherCard(newId), cards, [r[|cards|]]);
    FilterKeepsAll(OtherCard(newId), cards);
  }

  /** Deleting a card that is not there leaves the table as it is. */
  lemma DeleteMissingCardKeepsTable(cards: seq<Card>, cardId: string)
    requires forall k :: 0 <= k < |cards| ==> cards[k].id != cardId
    ensures DeleteCard(cards, cardId) == cards
  {
    FilterKeepsAll(OtherCard(cardId), cards);
  }

  /** After a deck is deleted no card of it is listed, due or new. */
  lemma DeletedDeckIsEmpty(decks: seq<Deck>, cards: seq<Card>, deckId: string, today: int)
    requires deckId != ""
    ensures var rest := DeleteDeck(decks, cards, deckId).1;
      && GetCards(rest, Some(deckId)) == []
      && GetDueCards(rest, deckId, today) == []
      && GetNewCards(rest, deckId) == []
  {
    var rest := DeleteDeck(decks, cards, deckId).1;
    assert forall k :: 0 <= k < |rest| ==> rest[k] in rest;
    FilterKeepsNone(InDeck(deckId), rest);
    FilterKeepsNone(DueIn(deckId, today), rest);
    FilterKeepsNone(NewIn(deckId), rest);
  }

  /** The column written by entry `k` of a whole-row update. */
  function ColumnAt(k: int): Column
    requires 0 <= k < 15
  {
    [Id, DeckId, De, En, Example, Tags, Notes, Box, Ease, IntervalDays, Reps, Lapses,
     DueDate, CreatedAt, UpdatedAt][k]
  }

  /** The position of a column in a whole-row update. */
  function IndexOf(col: Column): (k: int)
    ensures 0 <= k < 15 && ColumnAt(k) == col
  {
    match col
    case Id => 0
    case DeckId => 1
    case De => 2
    case En => 3
    case Example => 4
    case Tags => 5
    case Notes => 6
    case Box => 7
    case Ease => 8
    case IntervalDays => 9
    case Reps => 10
    case Lapses => 11
    case DueDate => 12
    case CreatedAt => 13
    case UpdatedAt => 14
  }

  /** Every column of `c` as update entries, the dictionary of a whole card. */
  function AllCells(c: Card): (us: seq<Update>)
    ensures |us| == 15
    ensures forall col :: LastFor(us, IndexOf(col)) && us[IndexOf(col)] == Cell(col, Get(c, col))
  {
    var us: seq<Update> := seq(15, k requires 0 <= k < 15 => Cell(ColumnAt(k), Get(c, ColumnAt(k))));
    forall col
      ensures LastFor(us, IndexOf(col))
    {
      forall l | IndexOf(col) < l < 15
        ensures us[l].column != col
      {
        assert IndexOf(ColumnAt(l)) == l;
      }
    }
    us
  }

  /** Writing a whole card back over its rows replaces each of them with that card,
      stamped with the update time. */
  lemma WriteBackReplacesRows(cards: seq<Card>, c: Card, now: string)
    ensures var r := UpdateCard(cards, c.id, AllCells(c), now);
      forall i :: 0 <= i < |cards| && cards[i].id == c.id ==> r[i] == c.(updatedAt := now)
  {
    var us := AllCells(c);
    var r := UpdateCard(cards, c.id, us, now);
    forall i | 0 <= i < |cards| && cards[i].id == c.id
      ensures r[i] == c.(updatedAt := now)
    {
      forall col
        ensures Get(r[i], col) == Get(c.(updatedAt := now), col)
      {
        if col != UpdatedAt {
          assert LastFor(us, IndexOf(col)) && us[IndexOf(col)].column == col;
        }
      }
      SameCells(r[i], c.(updatedAt := now));
    }
  }

  /** A card graded on day `today` and written back is no longer due that day: none of
      its rows is in the deck's due list. */
  lemma ReviewedCardLeavesDueList(cards: seq<Card>, c: Card, grade: Srs.Grade, today: int,
                                  now: string, deckId: string)
    ensures var g := Srs.GradeCard(c, grade, today);
      forall x :: x in GetDueCards(UpdateCard(cards, g.id, AllCells(g), now), deckId, today) ==> x.id != c.id
  {
    var g := Srs.GradeCard(c, grade, today);
    var r := UpdateCard(cards, g.id, AllCells(g), now);
    assert g.id == c.id by { assert Get(g, Id) == Get(c, Id); }
    WriteBackReplacesRows(cards, g, now);
    forall x | x in r && x.id == c.id
      ensures x.dueDate > today
    {
      var i :| 0 <= i < |r| && r[i] == x;
      assert cards[i].id == c.id;
    }
  }
}
