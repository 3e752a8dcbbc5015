/** The card and deck records of the store, and the column-wise view used to update them. */
module Cards {
  import opened Options

  /** One row of the cards table. The scheduling columns may be unset (an empty cell);
      `ease` is kept in hundredths (250 stands for 2.5) and `dueDate` is a day number. */
  datatype Card = Card(
    id: string,
    deckId: string,
    de: string,
    en: string,
    example: string,
    tags: string,
    notes: string,
    box: Option<int>,
    ease: Option<int>,
    intervalDays: Option<int>,
    reps: Option<int>,
    lapses: Option<int>,
    dueDate: int,
    createdAt: string,
    updatedAt: string)

  /** One row of the decks table. */
  datatype Deck = Deck(id: string, name: string, description: string, createdAt: string)

  /** The columns of the cards table. */
  datatype Column =
    | Id | DeckId | De | En | Example | Tags | Notes
    | Box | Ease | IntervalDays | Reps | Lapses
    | DueDate | CreatedAt | UpdatedAt

  /** The content of one cell. */
  datatype Value = Text(text: string) | Number(number: Option<int>) | Day(day: int)

  /** The kind of value a column holds. */
  predicate Fits(col: Column, v: Value)
  {
    match col
    case Box | Ease | IntervalDays | Reps | Lapses => v.Number?
    case DueDate => v.Day?
    case _ => v.Text?
  }

  /** The cell of `c` in column `col`. */
  function Get(c: Card, col: Column): (v: Value)
    ensures Fits(col, v)
  {
    match col
    case Id => Text(c.id)
    case DeckId => Text(c.deckId)
    case De => Text(c.de)
    case En => Text(c.en)
    case Example => Text(c.example)
    case Tags => Text(c.tags)
    case Notes => Text(c.notes)
    case Box => Number(c.box)
    case Ease => Number(c.ease)
    case IntervalDays => Number(c.intervalDays)
    case Reps => Number(c.reps)
    case Lapses => Number(c.lapses)
    case DueDate => Day(c.dueDate)
    case CreatedAt => Text(c.createdAt)
    case UpdatedAt => Text(c.updatedAt)
  }

  /** A card is determined by its cells. */
  lemma SameCells(a: Card, b: Card)
    requires forall col :: Get(a, col) == Get(b, col)
    ensures a == b
  {
    assert a.id == b.id by { assert Get(a, Id) == Get(b, Id); }
    assert a.deckId == b.deckId by { assert Get(a, DeckId) == Get(b, DeckId); }
    assert a.de == b.de by { assert Get(a, De) == Get(b, De); }
    assert a.en == b.en by { assert Get(a, En) == Get(b, En); }
    assert a.example == b.example by { assert Get(a, Example) == Get(b, Example); }
    assert a.tags == b.tags by { assert Get(a, Tags) == Get(b, Tags); }
    assert a.notes == b.notes by { assert Get(a, Notes) == Get(b, Notes); }
    assert a.box == b.box by { assert Get(a, Box) == Get(b, Box); }
    assert a.ease == b.ease by { assert Get(a, Ease) == Get(b, Ease); }
    assert a.intervalDays == b.intervalDays by { assert Get(a, IntervalDays) == Get(b, IntervalDays); }
    assert a.reps == b.reps by { assert Get(a, Reps) == Get(b, Reps); }
    assert a.lapses == b.lapses by { assert Get(a, Lapses) == Get(b, Lapses); }
    assert a.dueDate == b.dueDate by { assert Get(a, DueDate) == Get(b, DueDate); }
    assert a.createdAt == b.createdAt by { assert Get(a, CreatedAt) == Get(b, CreatedAt); }
    assert a.updatedAt == b.updatedAt by { assert Get(a, UpdatedAt) == Get(b, UpdatedAt); }
  }

  /** One `column: value` entry of an update dictionary. */
  datatype Cell = Cell(column: Column, value: Value)

  /** An entry whose value has the kind its column holds. */
  type Update = u: Cell | Fits(u.column, u.value) witness Cell(Id, Text(""))

  /** Writes one entry into a card. */
  function Set(c: Card, u: Update): (r: Card)
    ensures Get(r, u.column) == u.value
    ensures forall col :: col != u.column ==> Get(r, col) == Get(c, col)
  {
    match u.column
    case Id => c.(id := u.value.text)
    case DeckId => c.(deckId := u.value.text)
    case De => c.(de := u.value.text)
    case En => c.(en := u.value.text)
    case Example => c.(example := u.value.text)
    case Tags => c.(tags := u.value.text)
    case Notes => c.(notes := u.value.text)
    case Box => c.(box := u.value.number)
    case Ease => c.(ease := u.value.number)
    case IntervalDays => c.(intervalDays := u.value.number)
    case Reps => c.(reps := u.value.number)
    case Lapses => c.(lapses := u.value.number)
    case DueDate => c.(dueDate := u.value.day)
    case CreatedAt => c.(createdAt := u.value.text)
    case UpdatedAt => c.(updatedAt := u.value.text)
  }

  /** No entry of `us` names column `col`. */
  predicate Unnamed(us: seq<Update>, col: Column)
  {
    forall k :: 0 <= k < |us| ==> us[k].column != col
  }

  /** Entry `k` is the last entry of `us` naming its column. */
  predicate LastFor(us: seq<Update>, k: int)
  {
    0 <= k < |us| && forall l :: k < l < |us| ==> us[l].column != us[k].column
  }

  /** `r` is `c` after writing the entries of `us` in order: a column no entry names keeps
      its cell, and a named column holds the value of the last entry naming it. */
  ghost predicate Written(c: Card, us: seq<Update>, r: Card)
  {
    && (forall col :: Unnamed(us, col) ==> Get(r, col) == Get(c, col))
    && (forall k :: LastFor(us, k) ==> Get(r, us[k].column) == us[k].value)
  }

  /** Writing one more entry after the first `|us| - 1` extends `Written` to all of `us`. */
  lemma WrittenStep(c: Card, us: seq<Update>, prev: Card)
    requires |us| > 0
    requires Written(c, us[..|us| - 1], prev)
    ensures Written(c, us, Set(prev, us[|us| - 1]))
  {
    var init, last, r := us[..|us| - 1], us[|us| - 1], Set(prev, us[|us| - 1]);
    forall col | Unnamed(us, col)
      ensures Get(r, col) == Get(c, col)
    {
      assert Unnamed(init, col) by {
        forall k | 0 <= k < |init|
          ensures init[k].column != col
        {
          assert init[k] == us[k];
        }
      }
      assert last.column != col by { assert us[|us| - 1].column != col; }
    }
    forall k | LastFor(us, k)
      ensures Get(r, us[k].column) == us[k].value
    {
      if k < |us| - 1 {
        assert init[k] == us[k];
        assert LastFor(init, k) by {
          forall l | k < l < |init|
            ensures init[l].column != init[k].column
          {
            assert init[l] == us[l];
          }
        }
        assert us[|us| - 1].column != us[k].column;
      }
    }
  }

  /** Writes the entries of `us` into a card one after another, as a loop over a
      dictionary's items does. */
  function SetAll(c: Card, us: seq<Update>): (r: Card)
    ensures Written(c, us, r)
    decreases |us|
  {
    if |us| == 0 then c
    else
      var prev := SetAll(c, us[..|us| - 1]);
      WrittenStep(c, us, prev);
      Set(prev, us[|us| - 1])
  }
}
