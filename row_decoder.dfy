/** `parse_term`: turns one term-summary table into a list of heading-keyed rows.
    Row 4 of the table gives the headings, rows 6 onward are data; each data cell
    is paired with the heading in the same column. */
module RowDecoder {
  import opened Wrappers
  import opened Text

  /** A decoded value: a cell's raw text, or a count parsed out of one. */
  datatype Field = Str(text: string) | Int(count: nat)

  /** One decoded row, the Python dict `row`: heading to value. */
  type Record = map<string, Field>

  /** A table as the decoder sees it: its rows, each the texts of its `td` cells. */
  type Table = seq<seq<string>>

  const HeadingRow := 4
  const FirstDataRow := 6
  const MinFields := 6

  /** The one composite column, and the two keys it is split into. */
  const EnrolsCapacity := "Enrols/Capacity"
  const Enrols := "Enrols"
  const Capacity := "Capacity"

  /** A heading is its cell's text with line breaks turned into spaces, then stripped. */
  function Heading(text: string): string
  {
    Strip(ReplaceNewlines(text))
  }

  function Headings(cells: seq<string>): (hs: seq<string>)
  {
    seq(|cells|, k requires 0 <= k < |cells| => Heading(cells[k]))
  }

  function Min(a: nat, b: nat): nat
  {
    if a < b then a else b
  }

  /** The effect of one (cell text, heading) pair on the row being built. */
  function DecodeCell(row: Record, text: string, heading: string): Result<Record>
  {
    if text == "" || text == heading then Ok(row)
    else if heading == EnrolsCapacity then
      var parts := Split(text, '/');
      if |parts| < 2 then Err(IndexError("row_text[1]"))
      else Ok(row[Enrols := Int(ParseCount(parts[0]))][Capacity := Int(ParseCount(parts[1]))])
    else Ok(row[heading := Str(text)])
  }

  /** A pair fails exactly on a composite cell without '/'; otherwise it only adds
      keys, and only the cell's heading or the two composite keys can change value. */
  lemma DecodeCellEffect(row: Record, text: string, heading: string)
    ensures var r := DecodeCell(row, text, heading);
      r.Err? <==> text != "" && text != heading && heading == EnrolsCapacity && '/' !in text
    ensures var r := DecodeCell(row, text, heading);
      r.Ok? ==> row.Keys <= r.value.Keys
    ensures var r := DecodeCell(row, text, heading);
      r.Ok? ==> forall k :: k in row && k != heading && k != Enrols && k != Capacity ==> r.value[k] == row[k]
  {
    SplitHasSecondPiece(text, '/');
  }

  /** The row built from the first `n` (cell, heading) pairs, left to right. */
  function DecodePairs(cells: seq<string>, headings: seq<string>, n: nat): Result<Record>
    requires n <= |cells| && n <= |headings|
  {
    if n == 0 then Ok(map[])
    else
      var row :- DecodePairs(cells, headings, n - 1);
      DecodeCell(row, cells[n - 1], headings[n - 1])
  }

  /** A data row zipped with the headings; `zip` stops at the shorter of the two. */
  function DecodeRow(cells: seq<string>, headings: seq<string>): Result<Record>
  {
    DecodePairs(cells, headings, Min(|cells|, |headings|))
  }

  /** The rows kept from the first `n` data rows: those with at least six fields. */
  function DecodeRows(rows: seq<seq<string>>, headings: seq<string>, n: nat): Result<seq<Record>>
    requires n <= |rows|
  {
    if n == 0 then Ok([])
    else
      var kept :- DecodeRows(rows, headings, n - 1);
      var row :- DecodeRow(rows[n - 1], headings);
      Ok(if |row| >= MinFields then kept + [row] else kept)
  }

  function DataRows(table: Table): seq<seq<string>>
  {
    if |table| >= FirstDataRow then table[FirstDataRow..] else []
  }

  /** What `parse_term` returns for a table, or the exception it raises. */
  function ParseTermSpec(table: Table): Result<seq<Record>>
  {
    if |table| <= HeadingRow then Err(IndexError("tp_table_data[4]"))
    else DecodeRows(DataRows(table), Headings(table[HeadingRow]), |DataRows(table)|)
  }

  /** One more data row: its decoding is appended when it has enough fields. */
  lemma DecodeRowsStep(rows: seq<seq<string>>, headings: seq<string>, n: nat)
    requires n < |rows|
    ensures DecodeRows(rows, headings, n + 1) ==
      match DecodeRows(rows, headings, n)
      case Err(e) => Err(e)
      case Ok(kept) =>
        match DecodeRow(rows[n], headings)
        case Err(e) => Err(e)
        case Ok(row) => Ok(if |row| >= MinFields then kept + [row] else kept)
  {
  }

  /** One more data row, decoded to `row`: a failure is the result of the whole
      loop; otherwise the row is kept when it has enough fields. */
  lemma DecodeRowsAdvance(rows: seq<seq<string>>, headings: seq<string>, n: nat, kept: seq<Record>, row: Result<Record>)
    requires n < |rows| && DecodeRows(rows, headings, n) == Ok(kept)
    requires row == DecodeRow(rows[n], headings)
    ensures row.Err? ==> DecodeRows(rows, headings, |rows|) == Err(row.error)
    ensures row.Ok? ==>
      DecodeRows(rows, headings, n + 1) == Ok(if |row.value| >= MinFields then kept + [row.value] else kept)
  {
    DecodeRowsStep(rows, headings, n);
    if row.Err? {
      DecodeRowsErrSticky(rows, headings, n + 1, |rows|);
    }
  }

  /** Every kept row has at least six fields. */
  lemma {:induction false} DecodeRowsKeepsFull(rows: seq<seq<string>>, headings: seq<string>, n: nat)
    requires n <= |rows|
    ensures var r := DecodeRows(rows, headings, n);
      r.Ok? ==> forall k :: 0 <= k < |r.value| ==> |r.value[k]| >= MinFields
    decreases n
  {
    if n > 0 {
      DecodeRowsKeepsFull(rows, headings, n - 1);
    }
  }

  /** Once a row fails, every longer prefix fails the same way. */
  lemma {:induction false} DecodeRowsErrSticky(rows: seq<seq<string>>, headings: seq<string>, n: nat, m: nat)
    requires n <= m <= |rows|
    requires DecodeRows(rows, headings, n).Err?
    ensures DecodeRows(rows, headings, m) == DecodeRows(rows, headings, n)
    decreases m
  {
    if m > n {
      DecodeRowsErrSticky(rows, headings, n, m - 1);
    }
  }

  /** Once a cell fails, every longer prefix of the row fails the same way. */
  lemma {:induction false} DecodePairsErrSticky(cells: seq<string>, headings: seq<string>, n: nat, m: nat)
    requires n <= m <= |cells| && m <= |headings|
    requires DecodePairs(cells, headings, n).Err?
    ensures DecodePairs(cells, headings, m) == DecodePairs(cells, headings, n)
    decreases m
  {
    if m > n {
      DecodePairsErrSticky(cells, headings, n, m - 1);
    }
  }

  /** A composite cell without '/': the one (cell text, heading) pair that raises. */
  predicate SlashlessComposite(text: string, heading: string)
  {
    text != "" && text != heading && heading == EnrolsCapacity && '/' !in text
  }

  /** A row fails exactly when one of its first `n` cells is a composite cell without
      '/', and the failure is the `IndexError` of `row_text[1]`. */
  lemma {:induction false} DecodePairsFailsIff(cells: seq<string>, headings: seq<string>, n: nat)
    requires n <= |cells| && n <= |headings|
    ensures DecodePairs(cells, headings, n).Err? <==>
      exists j :: 0 <= j < n && SlashlessComposite(cells[j], headings[j])
    ensures DecodePairs(cells, headings, n).Err? ==>
      DecodePairs(cells, headings, n).error == IndexError("row_text[1]")
    decreases n
  {
    if n > 0 {
      DecodePairsFailsIff(cells, headings, n - 1);
      var prev := DecodePairs(cells, headings, n - 1);
      if prev.Ok? {
        DecodeCellEffect(prev.value, cells[n - 1], headings[n - 1]);
        assert SlashlessComposite(cells[n - 1], headings[n - 1]) ==> DecodePairs(cells, headings, n).Err?;
      }
    }
  }

  /** The same for a whole data row zipped with the headings. */
  lemma DecodeRowFailsIff(cells: seq<string>, headings: seq<string>)
    ensures DecodeRow(cells, headings).Err? <==>
      exists j :: 0 <= j < |cells| && j < |headings| && SlashlessComposite(cells[j], headings[j])
  {
    DecodePairsFailsIff(cells, headings, Min(|cells|, |headings|));
  }

  /** The first `n` data rows fail exactly when one of them does. */
  lemma {:induction false} DecodeRowsFailsIff(rows: seq<seq<string>>, headings: seq<string>, n: nat)
    requires n <= |rows|
    ensures DecodeRows(rows, headings, n).Err? <==> exists r :: 0 <= r < n && DecodeRow(rows[r], headings).Err?
    decreases n
  {
    if n > 0 {
      DecodeRowsFailsIff(rows, headings, n - 1);
    }
  }

  /** `parse_term` raises exactly when the heading row is missing, or some data row
      has a composite cell without '/' under the `Enrols/Capacity` heading. */
  lemma ParseTermFailsIff(table: Table)
    ensures ParseTermSpec(table).Err? <==>
      || |table| <= HeadingRow
      || exists r, j :: 0 <= r < |DataRows(table)| && 0 <= j < |DataRows(table)[r]|
           && j < |Headings(table[HeadingRow])|
           && SlashlessComposite(DataRows(table)[r][j], Headings(table[HeadingRow])[j])
  {
    if |table| > HeadingRow {
      var rows, hs := DataRows(table), Headings(table[HeadingRow]);
      DecodeRowsFailsIff(rows, hs, |rows|);
      forall r | 0 <= r < |rows| {
        DecodeRowFailsIff(rows[r], hs);
      }
    }
  }

  /** The inner loop of `parse_term`: builds the dict for one data row. */
  method DecodeRowCells(cells: seq<string>, headings: seq<string>) returns (result: Result<Record>)
    ensures result == DecodeRow(cells, headings)
  {
    var n := Min(|cells|, |headings|);
    var row: Record := map[];
    for c := 0 to n
      invariant DecodePairs(cells, headings, c) == Ok(row)
    {
      var text, heading := cells[c], headings[c];
      if text == "" || text == heading {
        continue;
      }
      if heading == EnrolsCapacity {
        var parts := Split(text, '/');
        if |parts| < 2 {
          DecodePairsErrSticky(cells, headings, c + 1, n);
          return Err(IndexError("row_text[1]"));
        }
        row := row[Enrols := Int(ParseCount(parts[0]))][Capacity := Int(ParseCount(parts[1]))];
      } else {
        row := row[heading := Str(text)];
      }
    }
    return Ok(row);
  }

  /** The headings loop of `parse_term`. */
  method ReadHeadings(cells: seq<string>) returns (headings: seq<string>)
    ensures headings == Headings(cells)
  {
    headings := [];
    for i := 0 to |cells|
      invariant |headings| == i
      invariant forall k :: 0 <= k < i ==> headings[k] == Heading(cells[k])
    {
      headings := headings + [Heading(cells[i])];
    }
  }

  /** The loop of `parse_term` over data rows: decode each, keep those with at
      least six fields, stop at the first row that raises. */
  method DecodeDataRows(data: seq<seq<string>>, headings: seq<string>) returns (result: Result<seq<Record>>)
    ensures result == DecodeRows(data, headings, |data|)
  {
    var kept: seq<Record> := [];
    for j := 0 to |data|
      invariant DecodeRows(data, headings, j) == Ok(kept)
    {
      var row := DecodeRowCells(data[j], headings);
      DecodeRowsAdvance(data, headings, j, kept, row);
      if row.Err? {
        return Err(row.error);
      }
      if |row.value| >= MinFields {
        kept := kept + [row.value];
      }
    }
    return Ok(kept);
  }

  /** `parse_term`: headings from row 4, then the data rows from row 6 on. */
  method ParseTerm(table: Table) returns (result: Result<seq<Record>>)
    ensures result == ParseTermSpec(table)
    ensures result.Ok? ==> forall k :: 0 <= k < |result.value| ==> |result.value[k]| >= MinFields
  {
    if |table| <= HeadingRow {
      return Err(IndexError("tp_table_data[4]"));
    }
    var headings := ReadHeadings(table[HeadingRow]);
    result := DecodeDataRows(DataRows(table), headings);
    DecodeRowsKeepsFull(DataRows(table), headings, |DataRows(table)|);
  }

  // ---------------------------------------------------------------------------
  // Properties
  // ---------------------------------------------------------------------------

  /** The composite column: the part before the first '/' gives `Enrols`, the part
      after it up to any next '/' gives `Capacity`, each reduced to its digits. */
  lemma EnrolsCapacitySplit(row: Record, before: string, after: string)
    requires '/' !in before
    requires before + "/" + after != EnrolsCapacity
    ensures DecodeCell(row, before + "/" + after, EnrolsCapacity)
      == Ok(row[Enrols := Int(ParseCount(before))][Capacity := Int(ParseCount(Split(after, '/')[0]))])
  {
    var text := before + "/" + after;
    assert text == before + ['/'] + after;
    SplitAtFirst(before, after, '/');
    var parts := Split(text, '/');
    assert parts[0] == before && parts[1] == Split(after, '/')[0];
    assert text != "";
  }

  /** A composite cell with no '/' makes the whole table fail. */
  lemma EnrolsCapacityNeedsSlash(row: Record, text: string)
    requires text != "" && text != EnrolsCapacity
    ensures DecodeCell(row, text, EnrolsCapacity).Err? <==> '/' !in text
  {
    SplitHasSecondPiece(text, '/');
  }

  /** A composite cell written as two counts gives back those counts: "45/50" is
      45 enrolled of 50. */
  lemma EnrolsCapacityRoundTrip(row: Record, enrols: nat, capacity: nat)
    ensures DecodeCell(row, Decimal(enrols) + "/" + Decimal(capacity), EnrolsCapacity)
      == Ok(row[Enrols := Int(enrols)][Capacity := Int(capacity)])
  {
    var e, c := Decimal(enrols), Decimal(capacity);
    assert '/' !in e by {
      assert forall i :: 0 <= i < |e| ==> IsDigit(e[i]);
    }
    assert '/' !in c by {
      assert forall i :: 0 <= i < |c| ==> IsDigit(c[i]);
    }
    assert (e + "/" + c)[0] == e[0];
    EnrolsCapacitySplit(row, e, c);
    SplitNoSeparator(c, '/');
    ParseCountProperties("", enrols);
    ParseCountProperties("", capacity);
  }

  /** "N/A" gives 0 enrolled of 0. */
  lemma EnrolsCapacityNotAvailable(row: Record)
    ensures DecodeCell(row, "N/A", EnrolsCapacity) == Ok(row[Enrols := Int(0)][Capacity := Int(0)])
  {
    EnrolsCapacitySplit(row, "N", "A");
    SplitNoSeparator("A", '/');
    assert DigitsOnly("N") == [] && DigitsOnly("A") == [];
  }

  /** Every field of a decoded row comes from a cell: a key is either one of the
      two composite keys or the heading of a column whose cell is stored as its raw,
      untrimmed text, which is neither empty nor equal to the heading. */
  lemma {:induction false} DecodedFieldsComeFromCells(cells: seq<string>, headings: seq<string>, n: nat)
    requires n <= |cells| && n <= |headings|
    requires DecodePairs(cells, headings, n).Ok?
    ensures var row := DecodePairs(cells, headings, n).value;
      forall key :: key in row && key != Enrols && key != Capacity ==>
        && row[key].Str? && row[key].text != "" && row[key].text != key
        && exists i :: 0 <= i < n && headings[i] == key && cells[i] == row[key].text
    ensures var row := DecodePairs(cells, headings, n).value;
      forall key :: key in row ==> key == Enrols || key == Capacity || key in headings[..n]
  {
    if n > 0 {
      DecodedFieldsComeFromCells(cells, headings, n - 1);
      var prev := DecodePairs(cells, headings, n - 1).value;
      var row := DecodePairs(cells, headings, n).value;
      assert headings[..n] == headings[..n - 1] + [headings[n - 1]];
      forall key | key in row && key != Enrols && key != Capacity
        ensures row[key].Str? && row[key].text != "" && row[key].text != key
        ensures exists i :: 0 <= i < n && headings[i] == key && cells[i] == row[key].text
      {
        if key == headings[n - 1] && cells[n - 1] != "" && cells[n - 1] != key && key != EnrolsCapacity {
          assert row[key] == Str(cells[n - 1]);
        } else {
          assert key in prev && row[key] == prev[key];
        }
      }
    }
  }

  /** A cell that is neither empty nor its own heading is kept: its heading is a key
      of the row, and unless a later cell of the same heading is kept too, the value
      is the cell's raw, untrimmed text. */
  lemma {:induction false} DecodePairsKeepsTextCell(cells: seq<string>, headings: seq<string>, n: nat, j: nat)
    requires j < n <= |cells| && n <= |headings|
    requires DecodePairs(cells, headings, n).Ok?
    requires cells[j] != "" && cells[j] != headings[j] && headings[j] != EnrolsCapacity
    ensures headings[j] in DecodePairs(cells, headings, n).value
    ensures headings[j] != Enrols && headings[j] != Capacity
      && (forall i :: j < i < n && headings[i] == headings[j] ==> cells[i] == "" || cells[i] == headings[i])
      ==> DecodePairs(cells, headings, n).value[headings[j]] == Str(cells[j])
    decreases n
  {
    var prev := DecodePairs(cells, headings, n - 1);
    assert prev.Ok?;
    DecodeCellEffect(prev.value, cells[n - 1], headings[n - 1]);
    if n - 1 > j {
      DecodePairsKeepsTextCell(cells, headings, n - 1, j);
    }
  }

  /** A kept `Enrols/Capacity` cell gives the row its two counts: it contains '/',
      `Enrols` is the count of the text before the first '/' and `Capacity` that of
      the next piece, unless a later cell that could write those keys is kept too. */
  lemma {:induction false} DecodePairsKeepsCompositeCell(cells: seq<string>, headings: seq<string>, n: nat, j: nat)
    requires j < n <= |cells| && n <= |headings|
    requires DecodePairs(cells, headings, n).Ok?
    requires cells[j] != "" && cells[j] != headings[j] && headings[j] == EnrolsCapacity
    requires forall i :: j < i < n && (headings[i] == Enrols || headings[i] == Capacity || headings[i] == EnrolsCapacity)
                         ==> cells[i] == "" || cells[i] == headings[i]
    ensures '/' in cells[j] && |Split(cells[j], '/')| >= 2
    ensures var row, parts := DecodePairs(cells, headings, n).value, Split(cells[j], '/');
      && Enrols in row && row[Enrols] == Int(ParseCount(parts[0]))
      && Capacity in row && row[Capacity] == Int(ParseCount(parts[1]))
    decreases n
  {
    var prev := DecodePairs(cells, headings, n - 1);
    assert prev.Ok?;
    DecodeCellEffect(prev.value, cells[n - 1], headings[n - 1]);
    SplitHasSecondPiece(cells[j], '/');
    if n - 1 > j {
      DecodePairsKeepsCompositeCell(cells, headings, n - 1, j);
    }
  }

  /** The same for a whole data row zipped with the headings. */
  lemma DecodeRowKeepsCompositeCell(cells: seq<string>, headings: seq<string>, j: nat)
    requires j < |cells| && j < |headings|
    requires DecodeRow(cells, headings).Ok?
    requires cells[j] != "" && cells[j] != headings[j] && headings[j] == EnrolsCapacity
    requires forall i :: j < i < |cells| && i < |headings|
                         && (headings[i] == Enrols || headings[i] == Capacity || headings[i] == EnrolsCapacity)
                         ==> cells[i] == "" || cells[i] == headings[i]
    ensures '/' in cells[j] && |Split(cells[j], '/')| >= 2
    ensures var row, parts := DecodeRow(cells, headings).value, Split(cells[j], '/');
      && Enrols in row && row[Enrols] == Int(ParseCount(parts[0]))
      && Capacity in row && row[Capacity] == Int(ParseCount(parts[1]))
  {
    DecodePairsKeepsCompositeCell(cells, headings, Min(|cells|, |headings|), j);
  }

  /** The decoder keeps the rows' order: decoding two blocks of rows one after the
      other gives the two outputs one after the other. */
  lemma {:induction false} DecodeRowsAppend(a: seq<seq<string>>, b: seq<seq<string>>, headings: seq<string>, n: nat)
    requires n <= |b|
    requires DecodeRows(a + b, headings, |a| + n).Ok?
    ensures DecodeRows(a, headings, |a|).Ok? && DecodeRows(b, headings, n).Ok?
    ensures DecodeRows(a + b, headings, |a| + n).value
      == DecodeRows(a, headings, |a|).value + DecodeRows(b, headings, n).value
    decreases n
  {
    if n == 0 {
      DecodeRowsPrefix(a, b, headings, |a|);
    } else {
      assert (a + b)[|a| + n - 1] == b[n - 1];
      DecodeRowsAppend(a, b, headings, n - 1);
    }
  }

  /** Rows past the first `n` do not affect what the first `n` decode to. */
  lemma {:induction false} DecodeRowsPrefix(a: seq<seq<string>>, b: seq<seq<string>>, headings: seq<string>, n: nat)
    requires n <= |a|
    ensures DecodeRows(a + b, headings, n) == DecodeRows(a, headings, n)
  {
    if n > 0 {
      assert (a + b)[n - 1] == a[n - 1];
      DecodeRowsPrefix(a, b, headings, n - 1);
    }
  }

  /** Acceptance threshold: a single data row decoding to exactly five fields is
      dropped, and one decoding to six is kept. */
  lemma RowThreshold(cells: seq<string>, headings: seq<string>)
    requires DecodeRow(cells, headings).Ok?
    ensures var row := DecodeRow(cells, headings).value;
      && (|row| >= MinFields ==> DecodeRows([cells], headings, 1) == Ok([row]))
      && (|row| < MinFields ==> DecodeRows([cells], headings, 1) == Ok([]))
  {
    assert [cells][0] == cells;
    DecodeRowsStep([cells], headings, 0);
    var none: seq<Record> := [];
    assert none + [DecodeRow(cells, headings).value] == [DecodeRow(cells, headings).value];
  }

  /** The first six rows never contribute output beyond row 4's headings: tables that
      agree on row 4 and on rows 6 onward decode alike. */
  lemma ParseTermIgnoresPreamble(t1: Table, t2: Table)
    requires |t1| > HeadingRow && |t2| > HeadingRow
    requires t1[HeadingRow] == t2[HeadingRow] && DataRows(t1) == DataRows(t2)
    ensures ParseTermSpec(t1) == ParseTermSpec(t2)
  {
  }
}
