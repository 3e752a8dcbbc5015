/** The row logic of the CSV import and export of cards: the required-column check, the
    cleaning of each row read, and the projection of each card written. Tokenising and
    quoting are below this level: rows arrive as column-to-cell maps. */
module CsvIo {
  import opened Options
  import opened Seqs
  import opened Cards

  /** Columns an imported file must have. */
  const RequiredCols: seq<string> := ["de", "en"]

  /** Columns read from and written to a file, in file order. */
  const AllCols: seq<string> := ["de", "en", "example", "tags", "notes"]

  /** A row as the CSV reader yields it: column name to cell. A cell the row is too short
      to fill is unset. */
  type RawRow = map<string, Option<string>>

  /** The attributes of a card being exported; an attribute the card lacks is absent. */
  type Attrs = map<string, Option<string>>

  /** The characters Python's `str.strip()` removes (those `str.isspace()` accepts). */
  predicate IsSpace(c: char)
  {
    || ('\t' <= c <= '\r')
    || ('\U{001C}' <= c <= ' ')
    || c == '\U{0085}' || c == '\U{00A0}' || c == '\U{1680}'
    || ('\U{2000}' <= c <= '\U{200A}')
    || c == '\U{2028}' || c == '\U{2029}' || c == '\U{202F}' || c == '\U{205F}' || c == '\U{3000}'
  }

  predicate AllSpace(s: string)
  {
    forall k :: 0 <= k < |s| ==> IsSpace(s[k])
  }

  /** Neither end of `s` is whitespace. */
  predicate IsStripped(s: string)
  {
    s == [] || (!IsSpace(s[0]) && !IsSpace(s[|s| - 1]))
  }

  /** `r` sits at offset `i` of `s` with only whitespace around it. */
  predicate StretchAt(s: string, r: string, i: int)
  {
    0 <= i <= |s| - |r| && r == s[i..i + |r|] && AllSpace(s[..i]) && AllSpace(s[i + |r|..])
  }

  /** `r` is `s` with its leading and trailing whitespace removed: a stretch of `s` that
      does not begin or end with whitespace, with only whitespace around it. */
  ghost predicate IsStripOf(s: string, r: string)
  {
    && IsStripped(r)
    && exists i :: StretchAt(s, r, i)
  }

  /** The first position at or after `i` that does not hold whitespace, or `|s|`. */
  function SkipSpace(s: string, i: int): (j: int)
    requires 0 <= i <= |s|
    ensures i <= j <= |s|
    ensures forall k :: i <= k < j ==> IsSpace(s[k])
    ensures j == |s| || !IsSpace(s[j])
    decreases |s| - i
  {
    if i < |s| && IsSpace(s[i]) then SkipSpace(s, i + 1) else i
  }

  /** The end of `s[lo..hi]` once its trailing whitespace is dropped. */
  function TrimEnd(s: string, lo: int, hi: int): (j: int)
    requires 0 <= lo <= hi <= |s|
    ensures lo <= j <= hi
    ensures forall k :: j <= k < hi ==> IsSpace(s[k])
    ensures j == lo || !IsSpace(s[j - 1])
    decreases hi - lo
  {
    if lo < hi && IsSpace(s[hi - 1]) then TrimEnd(s, lo, hi - 1) else hi
  }

  /** A run of whitespace positions, seen as a slice, is all whitespace. */
  lemma SpaceSlice(s: string, i: int, j: int)
    requires 0 <= i <= j <= |s|
    requires forall k :: i <= k < j ==> IsSpace(s[k])
    ensures AllSpace(s[i..j])
  {
    forall k | 0 <= k < j - i
      ensures IsSpace(s[i..j][k])
    {
      assert s[i..j][k] == s[i + k];
    }
  }

  /** Python's `s.strip()`. */
  function Strip(s: string): (r: string)
    ensures IsStripOf(s, r)
  {
    var i := SkipSpace(s, 0);
    var j := TrimEnd(s, i, |s|);
    SpaceSlice(s, 0, i);
    SpaceSlice(s, j, |s|);
    assert s[..i] == s[0..i] && s[j..] == s[j..|s|];
    assert StretchAt(s, s[i..j], i);
    s[i..j]
  }

  /** Stripping changes nothing in a string whose ends are not whitespace. */
  lemma StripFixes(s: string)
    requires IsStripped(s)
    ensures Strip(s) == s
  {
  }

  /** A position inside an all-whitespace prefix holds whitespace. */
  lemma SpaceInPrefix(s: string, j: int, i: int)
    requires 0 <= i < j <= |s|
    requires AllSpace(s[..j])
    ensures IsSpace(s[i])
  {
    assert s[..j][i] == s[i];
  }

  /** A position inside an all-whitespace suffix holds whitespace. */
  lemma SpaceInSuffix(s: string, j: int, i: int)
    requires 0 <= j <= i < |s|
    requires AllSpace(s[j..])
    ensures IsSpace(s[i])
  {
    assert s[j..][i - j] == s[i];
  }

  /** Two stretches of `s` with non-whitespace ends and only whitespace around them are
      the same stretch. */
  lemma SameStretch(s: string, r1: string, i1: int, r2: string, i2: int)
    requires StretchAt(s, r1, i1) && IsStripped(r1)
    requires StretchAt(s, r2, i2) && IsStripped(r2)
    ensures r1 == r2
  {
    var j1, j2 := i1 + |r1|, i2 + |r2|;
    if |r1| > 0 && |r2| > 0 {
      assert !IsSpace(s[i1]) && !IsSpace(s[j1 - 1]) by {
        assert s[i1] == r1[0] && s[j1 - 1] == r1[|r1| - 1];
      }
      assert !IsSpace(s[i2]) && !IsSpace(s[j2 - 1]) by {
        assert s[i2] == r2[0] && s[j2 - 1] == r2[|r2| - 1];
      }
      if i1 < i2 {
        SpaceInPrefix(s, i2, i1);
      } else if i2 < i1 {
        SpaceInPrefix(s, i1, i2);
      } else if j1 < j2 {
        SpaceInSuffix(s, j1, j2 - 1);
      } else if j2 < j1 {
        SpaceInSuffix(s, j2, j1 - 1);
      }
    } else if |r1| == 0 {
      EmptyStretchMeansAllSpace(s, r1, i1);
      OnlyEmptyStretchInSpace(s, r2, i2);
    } else {
      EmptyStretchMeansAllSpace(s, r2, i2);
      OnlyEmptyStretchInSpace(s, r1, i1);
    }
  }

  /** A string with an empty stretch of it surrounded by whitespace is all whitespace. */
  lemma EmptyStretchMeansAllSpace(s: string, r: string, i: int)
    requires StretchAt(s, r, i) && |r| == 0
    ensures AllSpace(s)
  {
    forall k | 0 <= k < |s|
      ensures IsSpace(s[k])
    {
      if k < i {
        SpaceInPrefix(s, i, k);
      } else {
        SpaceInSuffix(s, i, k);
      }
    }
  }

  /** In an all-whitespace string the only stretch without whitespace ends is empty. */
  lemma OnlyEmptyStretchInSpace(s: string, r: string, i: int)
    requires StretchAt(s, r, i) && IsStripped(r)
    requires AllSpace(s)
    ensures r == []
  {
  }

  /** The description `IsStripOf` has only one solution, so `Strip` is the only function
      meeting it. */
  lemma StripOfUnique(s: string, r1: string, r2: string)
    requires IsStripOf(s, r1)
    requires IsStripOf(s, r2)
    ensures r1 == r2
  {
    var i1 :| StretchAt(s, r1, i1);
    var i2 :| StretchAt(s, r2, i2);
    SameStretch(s, r1, i1, r2, i2);
  }

  /** Stripping twice is stripping once. */
  lemma StripIdempotent(s: string)
    ensures Strip(Strip(s)) == Strip(s)
  {
    StripFixes(Strip(s));
  }

  /** `row.get(k, "") or ""`: the cell of column `k`, or `""` when the row lacks the column
      or the cell is unset. */
  function Cell(row: map<string, Option<string>>, k: string): (v: string)
    ensures k in row && row[k].Some? ==> v == row[k].value
    ensures k !in row || row[k].None? ==> v == ""
  {
    if k in row then TextOr(row[k]) else ""
  }

  /** A row over the five card columns, as an import returns it and an export writes it. */
  datatype Row = Row(de: string, en: string, example: string, tags: string, notes: string)

  /** The cell of `r` under column name `k`. */
  function Field(r: Row, k: string): string
    requires k in AllCols
  {
    if k == "de" then r.de
    else if k == "en" then r.en
    else if k == "example" then r.example
    else if k == "tags" then r.tags
    else r.notes
  }

  /** Projects a row read from a file onto the five card columns, stripping each cell. */
  function CleanRow(row: RawRow): (r: Row)
    ensures IsStripOf(Cell(row, "de"), r.de) && IsStripOf(Cell(row, "en"), r.en)
    ensures IsStripOf(Cell(row, "example"), r.example) && IsStripOf(Cell(row, "tags"), r.tags)
    ensures IsStripOf(Cell(row, "notes"), r.notes)
  {
    Row(Strip(Cell(row, "de")), Strip(Cell(row, "en")), Strip(Cell(row, "example")),
        Strip(Cell(row, "tags")), Strip(Cell(row, "notes")))
  }

  /** A cleaned row worth importing: both the German and the English side are non-empty. */
  predicate Complete(r: Row)
  {
    r.de != "" && r.en != ""
  }

  /** The cleaned form of every row, in order. */
  function CleanAll(rows: seq<RawRow>): (r: seq<Row>)
    ensures |r| == |rows|
    ensures forall i :: 0 <= i < |rows| ==> r[i] == CleanRow(rows[i])
  {
    seq(|rows|, i requires 0 <= i < |rows| => CleanRow(rows[i]))
  }

  /** A row with stripped cells and both sides filled: the shape of every row an import
      returns. */
  predicate Clean(row: Row)
  {
    && IsStripped(row.de) && IsStripped(row.en) && IsStripped(row.example)
    && IsStripped(row.tags) && IsStripped(row.notes)
    && Complete(row)
  }

  /** Every row a clean-and-keep pass returns is clean. */
  lemma KeptRowsAreClean(rows: seq<RawRow>)
    ensures forall x :: x in Filter(Complete, CleanAll(rows)) ==> Clean(x)
  {
    var cleaned := CleanAll(rows);
    forall x | x in Filter(Complete, cleaned)
      ensures Clean(x)
    {
      assert x in cleaned && Complete(x);
      var j :| 0 <= j < |cleaned| && cleaned[j] == x;
      assert x == CleanRow(rows[j]);
    }
  }

  /** Why an import is refused: the file has no header line at all (the reader's field
      names are unset), or the header lacks required columns (listed in order). */
  datatype CsvError = NoHeader | MissingColumns(columns: seq<string>)

  function Join(parts: seq<string>, sep: string): string
  {
    if |parts| == 0 then ""
    else if |parts| == 1 then parts[0]
    else parts[0] + sep + Join(parts[1..], sep)
  }

  /** The opening of the error raised for missing columns. */
  const MissingPrefix := "Missing required columns in CSV: "

  /** The text of the error raised for missing columns. */
  function ErrorMessage(e: CsvError): (m: string)
    requires e.MissingColumns?
    ensures "Missing required columns" <= m
  {
    MissingPrefix + Join(e.columns, ", ")
  }

  /** The error text names the missing required columns in order, separated by commas:
      exactly one of the three possible lists for a header lacking `de`, `en` or both. */
  lemma MissingColumnsMessage(header: seq<string>)
    ensures "de" !in header && "en" in header ==>
      ErrorMessage(MissingColumns(MissingRequired(header))) == MissingPrefix + "de"
    ensures "de" in header && "en" !in header ==>
      ErrorMessage(MissingColumns(MissingRequired(header))) == MissingPrefix + "en"
    ensures "de" !in header && "en" !in header ==>
      ErrorMessage(MissingColumns(MissingRequired(header))) == MissingPrefix + "de, en"
  {
    var m := MissingRequired(header);
    assert m == Filter(Absent(header), ["de", "en"]);
    assert ["de", "en"][1..] == ["en"];
    assert ["en"][1..] == [];
    if "de" !in header && "en" !in header {
      assert Join(m, ", ") == "de" + ", " + Join(["en"], ", ");
    }
  }

  /** Is `c` missing from the header? */
  function Absent(header: seq<string>): string -> bool
  {
    c => c !in header
  }

  /** The required columns the header lacks, in the order they are required. */
  function MissingRequired(header: seq<string>): (m: seq<string>)
    ensures forall c :: c in m <==> c in RequiredCols && c !in header
    ensures Selects(m, RequiredCols, Absent(header))
  {
    FilterSelects(Absent(header), RequiredCols);
    Filter(Absent(header), RequiredCols)
  }

  /** The pure part of importing a file: given the header and the rows the CSV reader
      produced, refuse a file without the required columns, otherwise clean every row and
      keep those with both sides filled, in file order. */
  function ReadRows(header: Option<seq<string>>, rows: seq<RawRow>): (r: Result<seq<Row>, CsvError>)
    ensures header.None? ==> r == Failure(NoHeader)
    ensures header.Some? ==> (r.Failure? <==> "de" !in header.value || "en" !in header.value)
    ensures header.Some? && r.Failure? ==>
      r.error.MissingColumns? && forall c :: c in r.error.columns <==> c in RequiredCols && c !in header.value
    ensures r.Success? ==> |r.value| <= |rows|
    ensures r.Success? ==> forall i :: 0 <= i < |r.value| ==> Clean(r.value[i])
    ensures r.Success? ==> Selects(r.value, CleanAll(rows), Complete)
  {
    match header
    case None => Failure(NoHeader)
    case Some(h) =>
      var missing := MissingRequired(h);
      if |missing| > 0 then
        Failure(MissingColumns(missing))
      else
        assert "de" in RequiredCols && "en" in RequiredCols;
        var cleaned := CleanAll(rows);
        FilterSelects(Complete, cleaned);
        KeptRowsAreClean(rows);
        var kept := Filter(Complete, cleaned);
        assert forall i :: 0 <= i < |kept| ==> kept[i] in kept;
        Success(kept)
  }

  /** Projects one card onto the five exported columns; an attribute the card lacks, or
      leaves unset, is written as `""`. */
  function WriteRow(card: Attrs): (r: Row)
    ensures forall k :: k in AllCols && k in card && card[k].Some? ==> Field(r, k) == card[k].value
    ensures forall k :: k in AllCols && (k !in card || card[k].None?) ==> Field(r, k) == ""
  {
    Row(Cell(card, "de"), Cell(card, "en"), Cell(card, "example"), Cell(card, "tags"), Cell(card, "notes"))
  }

  /** The rows written for a list of cards: one per card, in order. */
  function WriteRows(cards: seq<Attrs>): (r: seq<Row>)
    ensures |r| == |cards|
    ensures forall i :: 0 <= i < |cards| ==> r[i] == WriteRow(cards[i])
  {
    seq(|cards|, i requires 0 <= i < |cards| => WriteRow(cards[i]))
  }

  /** A written row as the reader gives it back: every one of the five columns present
      and set. */
  function Reread(row: Row): (r: RawRow)
    ensures forall k :: k in AllCols ==> k in r && r[k] == Some(Field(row, k))
  {
    map["de" := Some(row.de), "en" := Some(row.en), "example" := Some(row.example),
        "tags" := Some(row.tags), "notes" := Some(row.notes)]
  }

  function RereadAll(rows: seq<Row>): (r: seq<RawRow>)
    ensures |r| == |rows|
    ensures forall i :: 0 <= i < |rows| ==> r[i] == Reread(rows[i])
  {
    seq(|rows|, i requires 0 <= i < |rows| => Reread(rows[i]))
  }

  /** Cleaning a clean row read back changes nothing. */
  lemma CleanRowFixesClean(row: Row)
    requires Clean(row)
    ensures CleanRow(Reread(row)) == row
  {
    var raw := Reread(row);
    assert Cell(raw, "de") == row.de && Cell(raw, "en") == row.en;
    assert Cell(raw, "example") == row.example && Cell(raw, "tags") == row.tags;
    assert Cell(raw, "notes") == row.notes;
    assert CleanRow(raw) == Row(Strip(row.de), Strip(row.en), Strip(row.example), Strip(row.tags), Strip(row.notes));
    StripFixes(row.de);
    StripFixes(row.en);
    StripFixes(row.example);
    StripFixes(row.tags);
    StripFixes(row.notes);
  }

  /** The full header lacks no required column. */
  lemma FullHeaderMissesNothing()
    ensures MissingRequired(AllCols) == []
  {
  }

  /** Reading back clean rows under the full header returns them unchanged. */
  lemma ReadBackClean(rows: seq<Row>)
    requires forall i :: 0 <= i < |rows| ==> Clean(rows[i])
    ensures ReadRows(Some(AllCols), RereadAll(rows)) == Success(rows)
  {
    var cleaned := CleanAll(RereadAll(rows));
    forall i | 0 <= i < |rows|
      ensures cleaned[i] == rows[i]
    {
      CleanRowFixesClean(rows[i]);
    }
    assert cleaned == rows;
    FilterKeepsAll(Complete, rows);
    FullHeaderMissesNothing();
  }

  /** Importing what an import returned gives the same rows again. */
  lemma ReimportIsStable(header: Option<seq<string>>, rows: seq<RawRow>)
    requires header.Some? && "de" in header.value && "en" in header.value
    ensures var out := ReadRows(header, rows).value;
      ReadRows(Some(AllCols), RereadAll(out)) == Success(out)
  {
    ReadBackClean(ReadRows(header, rows).value);
  }

  /** Exporting cards whose five text attributes are set and stripped, with both sides
      filled, then importing the rows, gives back exactly the rows written. */
  lemma ExportThenImport(cards: seq<Attrs>)
    requires forall i, k :: 0 <= i < |cards| && k in AllCols ==> IsStripped(Cell(cards[i], k))
    requires forall i :: 0 <= i < |cards| ==> Cell(cards[i], "de") != "" && Cell(cards[i], "en") != ""
    ensures ReadRows(Some(AllCols), RereadAll(WriteRows(cards))) == Success(WriteRows(cards))
  {
    var rows := WriteRows(cards);
    forall i | 0 <= i < |rows|
      ensures Clean(rows[i])
    {
      assert "de" in AllCols && "en" in AllCols && "example" in AllCols;
      assert "tags" in AllCols && "notes" in AllCols;
      assert IsStripped(Cell(cards[i], "example"));
    }
    ReadBackClean(rows);
  }

  /** The attributes `getattr(d, k, "")` finds on a plain dictionary: none, since a
      dictionary's entries are not attributes. This is what the export receives for each
      card the deck listing returns. */
  function DictAttrs(card: Card): (a: Attrs)
    ensures forall k :: k !in a
  {
    map[]
  }

  /** The export of the deck listing as the deck page performs it: the rows written for
      the card dictionaries. */
  function ExportListing(cards: seq<Card>): (r: seq<Row>)
    ensures |r| == |cards|
    ensures forall i :: 0 <= i < |r| ==> r[i] == Row("", "", "", "", "")
  {
    var rows := WriteRows(seq(|cards|, i requires 0 <= i < |cards| => DictAttrs(cards[i])));
    forall i | 0 <= i < |rows|
      ensures rows[i] == Row("", "", "", "", "")
    {
      assert "de" in AllCols && "en" in AllCols && "example" in AllCols;
      assert "tags" in AllCols && "notes" in AllCols;
    }
    rows
  }

  /** Importing the file the deck page exports gives no card back, however many cards
      were exported: every written row has an empty German side and is skipped. */
  lemma ExportedListingReimportsNothing(cards: seq<Card>)
    ensures ReadRows(Some(AllCols), RereadAll(ExportListing(cards))) == Success([])
  {
    var cleaned := CleanAll(RereadAll(ExportListing(cards)));
    ListingRowsIncomplete(cards);
    FilterKeepsNone(Complete, cleaned);
    FullHeaderMissesNothing();
  }

  /** No row of the exported listing is complete once read back. */
  lemma ListingRowsIncomplete(cards: seq<Card>)
    ensures var cleaned := CleanAll(RereadAll(ExportListing(cards)));
      forall i :: 0 <= i < |cleaned| ==> !Complete(cleaned[i])
  {
    var rows := ExportListing(cards);
    var cleaned := CleanAll(RereadAll(rows));
    EmptyRowIsSkipped();
    forall i | 0 <= i < |cleaned|
      ensures !Complete(cleaned[i])
    {
      assert cleaned[i] == CleanRow(Reread(Row("", "", "", "", "")));
    }
  }

  /** A written row of empty cells is read back incomplete. */
  lemma EmptyRowIsSkipped()
    ensures !Complete(CleanRow(Reread(Row("", "", "", "", ""))))
  {
    var raw := Reread(Row("", "", "", "", ""));
    assert Cell(raw, "de") == "";
    assert SkipSpace("", 0) == 0;
  }

  /** The attributes of a card record under the five exported column names: what the
      export evidently means to read from each card. */
  function CardAttrs(card: Card): (a: Attrs)
    ensures forall k :: k in AllCols ==> k in a && a[k].Some?
    ensures Cell(a, "de") == card.de && Cell(a, "en") == card.en
    ensures Cell(a, "example") == card.example && Cell(a, "tags") == card.tags
    ensures Cell(a, "notes") == card.notes
  {
    map["de" := Some(card.de), "en" := Some(card.en), "example" := Some(card.example),
        "tags" := Some(card.tags), "notes" := Some(card.notes)]
  }

  /** The export of a list of card records: one row per card holding its five texts. */
  function ExportCards(cards: seq<Card>): (r: seq<Row>)
    ensures |r| == |cards|
    ensures forall i :: 0 <= i < |r| ==>
      r[i] == Row(cards[i].de, cards[i].en, cards[i].example, cards[i].tags, cards[i].notes)
  {
    WriteRows(seq(|cards|, i requires 0 <= i < |cards| => CardAttrs(cards[i])))
  }

  /** Exporting cards whose texts are stripped and whose sides are filled, then importing
      the file, gives back one row per card with that card's texts. */
  lemma ExportCardsThenImport(cards: seq<Card>)
    requires forall i :: 0 <= i < |cards| ==>
      && IsStripped(cards[i].de) && IsStripped(cards[i].en) && IsStripped(cards[i].example)
      && IsStripped(cards[i].tags) && IsStripped(cards[i].notes)
    requires forall i :: 0 <= i < |cards| ==> cards[i].de != "" && cards[i].en != ""
    ensures ReadRows(Some(AllCols), RereadAll(ExportCards(cards))) == Success(ExportCards(cards))
    ensures |ExportCards(cards)| == |cards|
  {
    var rows := ExportCards(cards);
    forall i | 0 <= i < |rows|
      ensures Clean(rows[i])
    {
    }
    ReadBackClean(rows);
  }
}
