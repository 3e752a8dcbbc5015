# fishki core in Dafny

fishki is a German–English flashcard app. Cards live in decks. A Leitner-style scheduler
decides when each card is due again from the learner's grade (Again, Hard, Good or
Easy). Cards can be imported from and exported to CSV files. This project models three
parts of the app and proves properties of them:

- the scheduler (`fishki/srs.py`);
- the row logic of the CSV import and export (`fishki/csv_io.py`);
- the operations on the card and deck tables (`fishki/data_store.py`).

Modules:

- `Options` (options.dfy): optional values and Python's `x or default`.
- `Seqs` (seqs.dfy): order-preserving filtering, with an independent description
  (`Selects`: increasing positions, exactly the qualifying ones). The description is
  proved to determine the result.
- `Rounding` (rounding.dfy): Python's `round` on an exact rational, which rounds ties
  to even. A reference predicate `RoundsTo` is proved to have exactly one solution and
  to be monotone.
- `Cards` (cards.dfy): the card and deck records, plus a column view of a card. This is
  what an update dictionary writes through.
- `Srs` (srs.dfy): `clamp`, `next_schedule` and `grade_card`.
- `CsvIo` (csv_io.dfy): the required-column check, row cleaning (`str.strip`, with Python's
  whitespace set), skipping of rows with an empty side, and the export projection.
- `DataStore` (data_store.dfy): `get_cards`, `add_card`, `update_card`, `delete_deck`,
  `delete_card`, `get_due_cards` and `get_new_cards` over sequences of records.

Representation choices:

- Ease is an integer in hundredths: 250 stands for 2.5, and the bounds are 130 and 300.
  The scheduler's arithmetic is therefore exact.
- Dates are day numbers.
- Identifiers, timestamps and "today" are parameters.
- An unset numeric cell is `None`.

Two behaviours of the scheduler that are easy to miss:

- `next_schedule` never checks the grade. Any value other than 1, 2 or 3 takes the Easy
  branch (`fishki/srs.py:25`). The model types `Grade` as 1..4, following the `Literal`
  annotation at `fishki/srs.py:8`.
- Intervals use Python's `round`, which rounds half to even (`fishki/srs.py:20`, 23, 27).
  So a new card answered Good gets `round(2.5) = 2` days (`Srs.NewCardOutcomes`).

## Model

| member | source | states |
|---|---|---|
| Options.IntOr | fishki/srs.py:33 | `x or d` on a number: an unset or zero value gives the default; any other value is kept |
| Options.TextOr | fishki/csv_io.py:27 | `x or ""` on a cell: an unset cell reads as the empty string; a set one is kept |
| Srs.Clamp | fishki/srs.py:10-11 | the result lies in `[lo, hi]`; it is `x` itself when `x` is inside, otherwise the bound `x` overshoots |
| Rounding.RoundHalfEven | fishki/srs.py:20 | the result is within half a unit of `n/d`; on an exact tie it is the even neighbour |
| Rounding.RoundsToUnique | fishki/srs.py:20 | at most one integer is `n/d` rounded half to even, so the rounding is fully determined |
| Rounding.RoundMonotone | fishki/srs.py:23 | rounding never reverses the order of two quotients |
| Srs.NextSchedule | fishki/srs.py:13-29 | Again: ease −0.20 clamped to [1.3, 3.0], interval 1, box 1. Hard: ease −0.15 clamped, interval `round(max(1,i)·1.2)` and at least 1, box kept. Good: ease kept, interval `max(1, round(max(1,i)·ease))`, box +1 capped at 5. Easy: ease +0.15 clamped, interval `round(max(1,i)·(ease′+0.2))` and at least 2, box +1 capped at 5 |
| Srs.ReadSchedule | fishki/srs.py:33 | an unset or zero ease, interval or box reads as 2.5, 1 or 1 respectively; any other value is read as stored |
| Srs.IsLapse | fishki/srs.py:36 | a grade is a lapse exactly when it is Again and the card's box is set and above 1; an unset or zero box counts as 1 |
| Srs.GradeCard | fishki/srs.py:31-37 | ease, interval and box are the transition of the defaulted fields; the card is due `interval` days after today, strictly later; repetitions go up by one; the lapse count changes exactly when the grade is Again on a card above box 1, and then by one; no other column changes |
| Srs.ScheduleStaysInRange | fishki/srs.py:13-29 | from an ease in bounds and a box in 1..5, every grade keeps both in range and gives an interval of at least one day |
| Srs.RepeatedAgainStaysAtFloor | fishki/srs.py:14-17 | repeated Again answers from the lowest ease stay at the floor, in box 1, with a one-day interval |
| Srs.RepeatedEasyStaysAtCeiling | fishki/srs.py:25-28 | repeated Easy answers from the highest ease stay at the ceiling; the box climbs one step per answer up to 5 |
| Srs.GradeOrdering | tests/test_srs.py:36-61 | from the same state, Easy ≥ Good ≥ Hard ≥ Again in interval and in ease; Easy and Good reach the same box, Hard keeps the box, Again resets it |
| Srs.NewCardOutcomes | tests/test_srs.py:14-61 | on a new card: Again gives (2.30, 1 day, box 1), Hard (2.35, 1, 1), Good (2.50, 2, 2), Easy (2.65, 3, 2) |
| Srs.AgainTwiceCountsOneLapse | tests/test_srs.py:63-70 | Again twice on a card past box 1 counts one lapse and two repetitions; the card is due the next day |
| CsvIo.Strip | fishki/csv_io.py:27 | the result is a stretch of the input whose ends are not whitespace, with only whitespace around it |
| CsvIo.StripOfUnique | fishki/csv_io.py:27 | only one string meets that description, so `Strip` is `str.strip` |
| CsvIo.StripIdempotent | fishki/csv_io.py:27 | stripping twice is stripping once |
| CsvIo.Cell | fishki/csv_io.py:27 | `row.get(k, "") or ""`: a set cell is kept; a missing column or unset cell gives `""` |
| CsvIo.CleanRow | fishki/csv_io.py:27 | each of the five columns is the strip of that column's cell |
| CsvIo.MissingRequired | fishki/csv_io.py:23 | lists exactly the required columns absent from the header, in the order they are required |
| CsvIo.MissingColumnsMessage | fishki/csv_io.py:23-25 | the error text is "Missing required columns in CSV: " followed by the missing columns in order, separated by ", ": `de`, `en`, or `de, en` |
| CsvIo.ReadRows | fishki/csv_io.py:23-30 | an import without a header, or without `de` or `en`, fails, and the failure lists the missing columns; otherwise the result is, in file order, exactly the cleaned rows with both sides non-empty, each of them clean |
| CsvIo.WriteRow | fishki/csv_io.py:42 | each exported column holds the card's attribute; a missing or unset attribute is written as `""` |
| CsvIo.WriteRows | fishki/csv_io.py:41-42 | one exported row per card, in order |
| CsvIo.CleanRowFixesClean | fishki/csv_io.py:27 | cleaning a row that is already clean changes nothing |
| CsvIo.ReadBackClean | fishki/csv_io.py:26-30 | importing clean rows under the full header returns them unchanged |
| CsvIo.ReimportIsStable | fishki/csv_io.py:23-30 | importing the rows an import returned gives the same rows again |
| CsvIo.ExportThenImport | fishki/csv_io.py:37-42 | exporting cards with stripped attributes and both sides filled, then importing the rows, returns exactly the rows written |
| CsvIo.ExportListing | fishki/csv_io.py:42 | the export as the deck page performs it, on the dictionaries the listing returns: one row per card, every cell empty |
| CsvIo.ExportedListingReimportsNothing | fishki/csv_io.py:42 | importing that export returns no rows, whatever cards were exported |
| CsvIo.ExportCards | fishki/csv_io.py:41-42 | the corrected export of card records: one row per card holding its five texts |
| CsvIo.ExportCardsThenImport | fishki/csv_io.py:37-42 | importing the corrected export of cards with stripped texts and both sides filled returns exactly one row per card, with its texts |
| Cards.Set | fishki/data_store.py:100 | writing one entry sets its column to the value and leaves every other column as it was |
| Cards.SetAll | fishki/data_store.py:99-100 | after writing a list of entries, each named column holds its last entry's value and every unnamed column is unchanged |
| Seqs.SelectsUnique | fishki/data_store.py:64 | the order-preserving selection of the qualifying rows is unique |
| DataStore.GetCards | fishki/data_store.py:62-65 | no deck, or an empty deck id, returns the whole table; otherwise exactly that deck's cards, in table order |
| DataStore.Optional | fishki/data_store.py:82-84 | `card_data.get(k, "")`: the value stored under the key, or `""` when the key is absent |
| DataStore.AddCard | fishki/data_store.py:76-94 | fails on a missing `deck_id`, then `de`, then `en`; otherwise appends one card with the given sides, box 1, ease 2.5, interval 1, no repetitions or lapses, due today, optional texts defaulting to `""`, and leaves the existing rows untouched |
| DataStore.UpdateCard | fishki/data_store.py:96-102 | same length; rows with another id are unchanged, and so is a table without the id; each matching row takes the last value given per column, has its update time set to now, and keeps every other column |
| DataStore.DeleteDeck | fishki/data_store.py:104-107 | keeps, in order, exactly the decks with another id and the cards of other decks |
| DataStore.DeleteCard | fishki/data_store.py:109-110 | keeps, in order, exactly the cards with another id |
| DataStore.GetDueCards | fishki/data_store.py:112-115 | exactly the deck's cards due on or before today, in table order |
| DataStore.GetNewCards | fishki/data_store.py:117-119 | exactly the deck's cards whose repetition count is 0, in table order |
| DataStore.AddedCardJoinsNewList | fishki/data_store.py:76-94 | a freshly added card joins the end of its deck's new-card list; the lists of other decks do not change |
| DataStore.AddedCardJoinsDueList | fishki/data_store.py:76-94 | a freshly added card joins the end of its deck's due list from its creation day on; earlier days and other decks do not change |
| DataStore.AddThenDeleteRestores | fishki/data_store.py:109-110 | deleting a card right after adding it, under an id no other card had, restores the table |
| DataStore.DeleteMissingCardKeepsTable | fishki/data_store.py:109-110 | deleting an id that no card has leaves the table as it is |
| DataStore.DeletedDeckIsEmpty | fishki/data_store.py:104-107 | after a deck is deleted, no card of it is listed, due or new |
| DataStore.AllCells | fishki/data_store.py:99-100 | a whole card as an update dictionary, which the review and learn pages pass as `card.__dict__`: one entry per column, each the last entry for its column and holding the card's cell |
| DataStore.WriteBackReplacesRows | fishki/data_store.py:96-102 | writing a whole card back over its id replaces each of its rows with that card, stamped with the update time |
| DataStore.ReviewedCardLeavesDueList | fishki/data_store.py:112-115 | a card graded today and written back is not in its deck's due list for today |

## Left out

- Srs.NextSchedule: exact decimal arithmetic replaces the source's binary floats. Over
  several grades the source's ease drifts from its decimal value. For example, Again,
  Again, then Easy leaves the float ease at 2.2499999999999996 rather than 2.25. Good
  with a 6-day interval then gives `round(13.499…) = 13` days, where the model gives
  `round(13.5) = 14`.
- Srs.GradeCard: the card is a record, not a mutable object. A numeric field that holds
  a float, or NaN after a CSV round trip through pandas, is not modelled.
- CsvIo.ReadRows: file opening, UTF-8/BOM decoding and CSV tokenising and quoting are
  left out, because they belong to the standard library. The header and the rows arrive
  as the reader produces them.
- CsvIo.ReadRows: a file without any header line makes the source fail with a `TypeError`.
  Here it is the `NoHeader` error.
- CsvIo.WriteRows: the CSV text, the header line and the optional write to a file are
  left out. Only the projection of each card onto the five columns is modelled.
- DataStore.AddCard: the fresh id (`uuid4`), today's date and the two creation
  timestamps are parameters, because they come from the clock and the random generator.
- DataStore.UpdateCard: each value must match the kind of its column (text, number or
  day). The cases where pandas coerces a column's type, and where an update names a
  column the table lacks (pandas adds it), are left out. The source also mutates the
  table it is given before returning it (`fishki/data_store.py:100-101`). The model
  returns a new table and says nothing about the caller's old one.
- DataStore.GetDueCards: due dates are compared as day numbers. The source compares ISO
  date strings, which order the same way for four-digit years. "Today" is a parameter.
- DataStore.GetNewCards: an unset repetition count is not 0, as pandas' `NaN == 0` is
  false.
- Loading and saving the tables, the Streamlit cache, `add_deck` and `get_decks` are left
  out. They are I/O or lie outside the modelled operations.
- The Streamlit pages, `fishki/ui.py`, `fishki/audio.py` and `fishki/utils.py` are left
  out because they are user interface and audio. `fishki/models.py` is not part of this
  model. The grade-0 "no answer" of the UI never reaches the scheduler, because the
  caller filters it out.

## Findings

| source | as written | input that shows it | evidently intended | confidence | as-written member | corrected member |
|---|---|---|---|---|---|---|
| fishki/csv_io.py:42 | the export reads each column with `getattr(c, k, "")`. The deck page passes the dictionaries `get_cards` returns (pages/1_🗂️_Decks.py:79, 100), which have no such attributes, so every cell is written empty | any non-empty deck, such as one card with `de = "Haus"`, `en = "house"`: the file holds one row of empty cells, and importing it returns no card | each row holds the card's five texts, so that the exported file imports back | high; not executed | CsvIo.ExportedListingReimportsNothing | CsvIo.ExportCardsThenImport |
