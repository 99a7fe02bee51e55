/** The three readings `get_course` takes of a course page before it writes
    anything: how many terms are offered, the faculty/school/campus/career
    label-value pairs, and which tables hold the per-term class summaries. */
module CoursePage {
  import opened Wrappers
  import opened Text
  import RowDecoder

  type Table = RowDecoder.Table

  /** A `td` of the course-information table: its class attribute as a list of
      class names (`None` when the attribute is missing) and its text. */
  datatype Cell = Cell(classes: Option<seq<string>>, text: string)

  /** A course page, reduced to the parts `get_course` reads: the rows of the
      terms-offered table, the rows of the course-information table, and every
      table of the page's second form body in document order. */
  datatype Page = Page(termsOffered: Table, courseInfo: seq<seq<Cell>>, tables: seq<Table>)

  /** The cells of a table in document order, row after row. */
  function Flatten<T>(rows: seq<seq<T>>): seq<T>
  {
    if rows == [] then [] else rows[0] + Flatten(rows[1..])
  }

  // ---------------------------------------------------------------------------
  // Terms offered
  // ---------------------------------------------------------------------------

  const TermMarkers: seq<string> :=
    ["SUMMER TERM", "TERM ONE", "TERM TWO", "TERM THREE", "SEMESTER ONE", "SEMESTER TWO", "SEMESTER THREE"]

  /** `any(term_match in td.text for term_match in allowed_terms)`. */
  predicate NamesTerm(text: string)
  {
    exists k :: 0 <= k < |TermMarkers| && Contains(text, TermMarkers[k])
  }

  /** A cell names a term exactly when some marker occurs in its text at some index. */
  lemma NamesTermIffOccurs(text: string)
    ensures NamesTerm(text) <==> exists k: nat, i: nat :: k < |TermMarkers| && OccursAt(text, TermMarkers[k], i)
  {
    ContainsAnyIffOccurs(text, TermMarkers);
  }

  /** The number of cells that name at least one term. */
  function CountNamed(cells: seq<string>): nat
  {
    if cells == [] then 0 else (if NamesTerm(cells[0]) then 1 else 0) + CountNamed(cells[1..])
  }

  /** The terms-offered loop of `get_course`: one increment per matching cell. */
  method CountTerms(rows: Table) returns (numTerms: nat)
    ensures numTerms == CountNamed(Flatten(rows))
  {
    numTerms := 0;
    for i := 0 to |rows|
      invariant numTerms + CountNamed(Flatten(rows[i..])) == CountNamed(Flatten(rows))
    {
      assert rows[i..] == [rows[i]] + rows[i + 1..];
      var row := rows[i];
      assert Flatten(rows[i..]) == row + Flatten(rows[i + 1..]);
      CountNamedAppend(row, Flatten(rows[i + 1..]));
      assert row[0..] == row;
      for j := 0 to |row|
        invariant numTerms + CountNamed(row[j..]) + CountNamed(Flatten(rows[i + 1..]))
          == CountNamed(Flatten(rows))
      {
        CountNamedAppend(row[j..], Flatten(rows[i + 1..]));
        assert row[j..] == [row[j]] + row[j + 1..];
        CountNamedAppend(row[j + 1..], Flatten(rows[i + 1..]));
        if NamesTerm(row[j]) {
          numTerms := numTerms + 1;
        }
      }
      CountNamedAppend(row, Flatten(rows[i + 1..]));
    }
  }

  /** The count over two blocks of cells is the sum of the two counts. */
  lemma {:induction false} CountNamedAppend(a: seq<string>, b: seq<string>)
    ensures CountNamed(a + b) == CountNamed(a) + CountNamed(b)
  {
    if a != [] {
      assert (a + b)[0] == a[0] && (a + b)[1..] == a[1..] + b;
      CountNamedAppend(a[1..], b);
    } else {
      assert a + b == b;
    }
  }

  /** Each cell adds at most one, however many markers it contains, so the count
      never exceeds the number of cells; it reaches it exactly when every cell
      names a term. */
  lemma {:induction false} CountNamedBound(cells: seq<string>)
    ensures CountNamed(cells) <= |cells|
    ensures CountNamed(cells) == |cells| <==> forall i :: 0 <= i < |cells| ==> NamesTerm(cells[i])
  {
    if cells != [] {
      CountNamedBound(cells[1..]);
      if !NamesTerm(cells[0]) {
        assert CountNamed(cells) < |cells|;
      }
      assert forall i :: 1 <= i < |cells| ==> cells[i] == cells[1..][i - 1];
    }
  }

  /** A cell naming two terms still counts once. */
  lemma TwoMarkersCountOnce()
    ensures CountNamed(["TERM ONE, TERM TWO"]) == 1
  {
    var cell := "TERM ONE, TERM TWO";
    assert TermMarkers[1] == "TERM ONE" && TermMarkers[1] <= cell;
    assert NamesTerm(cell);
    assert ["TERM ONE, TERM TWO"][1..] == [];
  }

  // ---------------------------------------------------------------------------
  // Label / value pairs
  // ---------------------------------------------------------------------------

  const AllowedLabels: set<string> := {"Faculty", "School", "Campus", "Career"}

  /** `td.attrs['class'][0]`: `KeyError` without a class attribute, `IndexError`
      when the list of classes is empty. */
  function FirstClass(cell: Cell): Result<string>
  {
    match cell.classes
    case None => Err(KeyError("class"))
    case Some(names) => if names == [] then Err(IndexError("class[0]")) else Ok(names[0])
  }

  /** The label/value machine: the pending label (`""` when there is none: Python's
      `None` and `''` are both false there, and `''` is no allowed label) and the
      pairs collected so far. */
  datatype LabelState = LabelState(pending: string, info: map<string, string>)

  const Start := LabelState("", map[])

  /** One cell: a `label` cell sets the pending label to its stripped text; a `data`
      cell with a pending label forms a pair, kept when the label is allowed, and
      clears the label either way; any other cell changes nothing. */
  function Step(st: LabelState, cell: Cell): Result<LabelState>
  {
    var cls :- FirstClass(cell);
    if cls == "label" then Ok(st.(pending := Strip(cell.text)))
    else if st.pending != "" && cls == "data" then
      Ok(LabelState("", if st.pending in AllowedLabels then st.info[st.pending := Strip(cell.text)] else st.info))
    else Ok(st)
  }

  /** One cell fails exactly when it has no first class name. Otherwise no pair is
      lost and only the pending label's value can change; a `label` cell makes its
      stripped text the pending label, a `data` cell clears it, and any other cell
      changes nothing. */
  lemma StepEffect(st: LabelState, cell: Cell)
    ensures var r := Step(st, cell); r.Ok? <==> FirstClass(cell).Ok?
    ensures var r := Step(st, cell); r.Ok? ==> st.info.Keys <= r.value.info.Keys
    ensures var r := Step(st, cell);
      r.Ok? ==> forall l :: l in st.info && l != st.pending ==> r.value.info[l] == st.info[l]
    ensures var r := Step(st, cell); r.Ok? && FirstClass(cell) == Ok("label") ==> r.value.pending == Strip(cell.text)
    ensures var r := Step(st, cell); r.Ok? && FirstClass(cell) == Ok("data") ==> r.value.pending == ""
    ensures var r := Step(st, cell);
      r.Ok? && FirstClass(cell) != Ok("label") && FirstClass(cell) != Ok("data") ==> r.value == st
  {
  }

  function Run(st: LabelState, cells: seq<Cell>): Result<LabelState>
    decreases |cells|
  {
    if cells == [] then Ok(st)
    else
      var next :- Step(st, cells[0]);
      Run(next, cells[1..])
  }

  /** `faculty_info` as the loop leaves it, or the exception it raises. */
  function CourseInfo(rows: seq<seq<Cell>>): Result<map<string, string>>
  {
    var st :- Run(Start, Flatten(rows));
    Ok(st.info)
  }

  /** The faculty-information loop of `get_course`. */
  method ExtractCourseInfo(rows: seq<seq<Cell>>) returns (result: Result<map<string, string>>)
    ensures result == CourseInfo(rows)
  {
    var st := Start;
    for i := 0 to |rows|
      invariant Run(st, Flatten(rows[i..])) == Run(Start, Flatten(rows))
    {
      FlattenFrom(rows, i);
      var row := rows[i];
      ghost var rest := Flatten(rows[i + 1..]);
      for j := 0 to |row|
        invariant Run(st, row[j..] + rest) == Run(Start, Flatten(rows))
      {
        RunFrom(st, row, j, rest);
        var next := Step(st, row[j]);
        if next.Err? {
          return Err(next.error);
        }
        st := next.value;
      }
      assert row[|row|..] + rest == rest;
    }
    assert rows[|rows|..] == [];
    return Ok(st.info);
  }

  /** The cells from row `i` on are row `i`'s, then those of the rows after it. */
  lemma FlattenFrom<T>(rows: seq<seq<T>>, i: nat)
    requires i < |rows|
    ensures Flatten(rows[i..]) == rows[i] + Flatten(rows[i + 1..])
  {
    assert rows[i..][0] == rows[i] && rows[i..][1..] == rows[i + 1..];
  }

  /** The machine from cell `j` of a row on: one step, then the rest. */
  lemma RunFrom(st: LabelState, row: seq<Cell>, j: nat, rest: seq<Cell>)
    requires j < |row|
    ensures Run(st, row[j..] + rest)
      == match Step(st, row[j]) case Err(e) => Err(e) case Ok(next) => Run(next, row[j + 1..] + rest)
  {
    assert (row[j..] + rest)[0] == row[j] && (row[j..] + rest)[1..] == row[j + 1..] + rest;
  }

  /** Running over two blocks of cells is running over the first, then the second. */
  lemma {:induction false} RunAppend(st: LabelState, a: seq<Cell>, b: seq<Cell>)
    ensures Run(st, a + b) == (match Run(st, a) case Err(e) => Err(e) case Ok(mid) => Run(mid, b))
    decreases |a|
  {
    if a != [] {
      assert (a + b)[0] == a[0] && (a + b)[1..] == a[1..] + b;
      match Step(st, a[0])
      case Err(e) =>
        assert Run(st, a + b) == Err(e) && Run(st, a) == Err(e);
      case Ok(next) =>
        RunAppend(next, a[1..], b);
        assert Run(st, a + b) == Run(next, a[1..] + b);
        assert Run(st, a) == Run(next, a[1..]);
    } else {
      assert a + b == b;
    }
  }

  /** Only the four allowed labels are ever collected. */
  lemma {:induction false} CollectedLabelsAllowed(st: LabelState, cells: seq<Cell>)
    requires st.info.Keys <= AllowedLabels
    requires Run(st, cells).Ok?
    ensures Run(st, cells).value.info.Keys <= AllowedLabels
    decreases |cells|
  {
    if cells != [] {
      CollectedLabelsAllowed(Step(st, cells[0]).value, cells[1..]);
    }
  }

  /** The collected result has at most the four allowed keys. */
  lemma CourseInfoKeys(rows: seq<seq<Cell>>)
    requires CourseInfo(rows).Ok?
    ensures CourseInfo(rows).value.Keys <= AllowedLabels
  {
    CollectedLabelsAllowed(Start, Flatten(rows));
  }

  /** A `data` cell with no pending label is ignored. */
  lemma OrphanDataIgnored(st: LabelState, cell: Cell, rest: seq<Cell>)
    requires st.pending == "" && FirstClass(cell) == Ok("data")
    ensures Run(st, [cell] + rest) == Run(st, rest)
  {
    assert ([cell] + rest)[1..] == rest;
  }

  /** A later `label` cell overwrites the pending label. */
  lemma LaterLabelWins(st: LabelState, first: Cell, second: Cell, rest: seq<Cell>)
    requires FirstClass(first) == Ok("label") && FirstClass(second) == Ok("label")
    ensures Run(st, [first, second] + rest) == Run(st, [second] + rest)
  {
    assert ([first, second] + rest)[1..] == [second] + rest;
    assert ([first, second] + rest)[0] == first;
    assert ([second] + rest)[1..] == rest;
    assert ([second] + rest)[1..] == ([first, second] + rest)[1..][1..];
  }

  /** The pending label is cleared after every pairing, whether or not the pair is kept. */
  lemma PairingClearsLabel(st: LabelState, cell: Cell)
    requires st.pending != "" && FirstClass(cell) == Ok("data")
    ensures Step(st, cell).Ok? && Step(st, cell).value.pending == ""
    ensures st.pending !in AllowedLabels ==> Step(st, cell).value.info == st.info
  {
  }

  /** The last pair for a label decides its value: whatever came before, a
      label cell followed by a data cell sets that label to the data's stripped text. */
  lemma LastPairWins(st: LabelState, before: seq<Cell>, labelCell: Cell, dataCell: Cell)
    requires FirstClass(labelCell) == Ok("label") && FirstClass(dataCell) == Ok("data")
    requires Strip(labelCell.text) in AllowedLabels
    requires Run(st, before).Ok?
    ensures var r := Run(st, before + [labelCell, dataCell]);
      && r.Ok? && Strip(labelCell.text) in r.value.info
      && r.value.info[Strip(labelCell.text)] == Strip(dataCell.text) && r.value.pending == ""
  {
    RunAppend(st, before, [labelCell, dataCell]);
    var key, value := Strip(labelCell.text), Strip(dataCell.text);
    var m0 := Run(st, before).value;
    var m1 := m0.(pending := key);
    var m2 := LabelState("", m1.info[key := value]);
    assert Step(m0, labelCell) == Ok(m1);
    assert Step(m1, dataCell) == Ok(m2);
    assert [labelCell, dataCell][0] == labelCell && [labelCell, dataCell][1..] == [dataCell];
    assert Run(m0, [labelCell, dataCell]) == Run(m1, [dataCell]);
    assert Run(m1, [dataCell]) == Run(m2, []);
  }

  /** The machine fails exactly when some cell has no first class name. */
  lemma {:induction false} RunOkIffClassed(st: LabelState, cells: seq<Cell>)
    ensures Run(st, cells).Ok? <==> forall i :: 0 <= i < |cells| ==> FirstClass(cells[i]).Ok?
    decreases |cells|
  {
    if cells != [] {
      assert forall i :: 1 <= i < |cells| ==> cells[i] == cells[1..][i - 1];
      if Step(st, cells[0]).Ok? {
        RunOkIffClassed(Step(st, cells[0]).value, cells[1..]);
      }
    }
  }

  /** A collected pair survives later cells: its label stays a key, and its value
      stays unless a later `label` cell names the same label (nor may the label
      be the one pending). */
  lemma {:induction false} RunKeepsPair(st: LabelState, cells: seq<Cell>, l: string)
    requires Run(st, cells).Ok? && l in st.info
    ensures l in Run(st, cells).value.info
    ensures l != "" && l != st.pending
      && (forall i :: 0 <= i < |cells| && FirstClass(cells[i]) == Ok("label") ==> Strip(cells[i].text) != l)
      ==> Run(st, cells).value.info[l] == st.info[l]
    decreases |cells|
  {
    if cells != [] {
      var next := Step(st, cells[0]).value;
      assert forall i :: 1 <= i < |cells| ==> cells[i] == cells[1..][i - 1];
      RunKeepsPair(next, cells[1..], l);
    }
  }

  /** `label` cell `l` followed by a `data` cell, at index `i`. */
  predicate PairAt(cells: seq<Cell>, i: nat, l: string)
  {
    i + 1 < |cells| && FirstClass(cells[i]) == Ok("label") && Strip(cells[i].text) == l
    && FirstClass(cells[i + 1]) == Ok("data")
  }

  /** Running over a prefix, then over the rest, is running over the whole. */
  lemma RunSplit(st: LabelState, cells: seq<Cell>, n: nat)
    requires n <= |cells|
    ensures Run(st, cells) == (match Run(st, cells[..n]) case Err(e) => Err(e) case Ok(mid) => Run(mid, cells[n..]))
  {
    RunAppend(st, cells[..n], cells[n..]);
    assert cells[..n] + cells[n..] == cells;
  }

  /** A label/data pair anywhere in the cells is collected, and its value is the
      data's stripped text unless a later `label` cell names the same label. */
  lemma PairAtCollected(st: LabelState, c: seq<Cell>, i: nat, l: string)
    requires PairAt(c, i, l) && l in AllowedLabels && Run(st, c).Ok?
    ensures l in Run(st, c).value.info
    ensures (forall j :: i + 2 <= j < |c| && FirstClass(c[j]) == Ok("label") ==> Strip(c[j].text) != l)
      ==> Run(st, c).value.info[l] == Strip(c[i + 1].text)
  {
    RunSplit(st, c, i + 2);
    var front := c[..i + 2];
    RunSplit(st, front, i);
    var mid0 := Run(st, front[..i]).value;
    assert front[i..] == [c[i], c[i + 1]];
    var m1 := Step(mid0, c[i]).value;
    var m2 := Step(m1, c[i + 1]).value;
    var pair := [c[i], c[i + 1]];
    assert pair[0] == c[i] && pair[1..] == [c[i + 1]];
    assert Run(mid0, pair) == Run(m1, [c[i + 1]]);
    assert [c[i + 1]][1..] == [];
    assert Run(m1, [c[i + 1]]) == Ok(m2);
    assert m2.pending == "" && l in m2.info && m2.info[l] == Strip(c[i + 1].text);
    var after := c[i + 2..];
    RunKeepsPair(m2, after, l);
    if forall j :: i + 2 <= j < |c| && FirstClass(c[j]) == Ok("label") ==> Strip(c[j].text) != l {
      forall k | 0 <= k < |after| && FirstClass(after[k]) == Ok("label")
        ensures Strip(after[k].text) != l
      {
        assert after[k] == c[i + 2 + k];
      }
    }
  }

  /** In the eight-cell layout every cell is classed, and only the even ones are labels. */
  lemma FourPairsLayout(c: seq<Cell>)
    requires |c| == 8 && PairAt(c, 0, "Faculty") && PairAt(c, 2, "School")
      && PairAt(c, 4, "Campus") && PairAt(c, 6, "Career")
    ensures forall j :: 0 <= j < 8 ==> FirstClass(c[j]).Ok?
    ensures forall j :: 0 <= j < 8 && FirstClass(c[j]) == Ok("label") ==> j == 0 || j == 2 || j == 4 || j == 6
  {
    forall j | 0 <= j < 8
      ensures FirstClass(c[j]).Ok?
      ensures FirstClass(c[j]) == Ok("label") ==> j == 0 || j == 2 || j == 4 || j == 6
    {
      assert j == 0 || j == 1 || j == 2 || j == 3 || j == 4 || j == 5 || j == 6 || j == 7;
    }
  }

  /** Eight cells holding the Faculty, School, Campus and Career pairs in turn:
      the machine collects all four, each with its data's stripped text. */
  lemma RunOfFourPairs(c: seq<Cell>)
    requires |c| == 8 && PairAt(c, 0, "Faculty") && PairAt(c, 2, "School")
      && PairAt(c, 4, "Campus") && PairAt(c, 6, "Career")
    ensures Run(Start, c).Ok?
    ensures var info := Run(Start, c).value.info;
      && "Faculty" in info && info["Faculty"] == Strip(c[1].text)
      && "School" in info && info["School"] == Strip(c[3].text)
      && "Campus" in info && info["Campus"] == Strip(c[5].text)
      && "Career" in info && info["Career"] == Strip(c[7].text)
  {
    FourPairsLayout(c);
    RunOkIffClassed(Start, c);
    PairAtCollected(Start, c, 6, "Career");
    PairAtCollected(Start, c, 4, "Campus");
    PairAtCollected(Start, c, 2, "School");
    PairAtCollected(Start, c, 0, "Faculty");
  }

  /** A course-information table holding the Faculty, School, Campus and Career
      pairs in turn yields exactly those four labels, each with its data's stripped text. */
  lemma CourseInfoOfFourPairs(rows: seq<seq<Cell>>)
    requires var c := Flatten(rows);
      |c| == 8 && PairAt(c, 0, "Faculty") && PairAt(c, 2, "School")
      && PairAt(c, 4, "Campus") && PairAt(c, 6, "Career")
    ensures CourseInfo(rows).Ok? && CourseInfo(rows).value.Keys == AllowedLabels
    ensures var c, info := Flatten(rows), CourseInfo(rows).value;
      && info["Faculty"] == Strip(c[1].text) && info["School"] == Strip(c[3].text)
      && info["Campus"] == Strip(c[5].text) && info["Career"] == Strip(c[7].text)
  {
    var c := Flatten(rows);
    RunOfFourPairs(c);
    CollectedLabelsAllowed(Start, c);
    var info := Run(Start, c).value.info;
    assert CourseInfo(rows) == Ok(info);
    forall l | l in AllowedLabels ensures l in info {
      assert l == "Faculty" || l == "School" || l == "Campus" || l == "Career";
    }
  }

  // ---------------------------------------------------------------------------
  // Term-summary tables
  // ---------------------------------------------------------------------------

  /** Case-sensitive, trailing space included. */
  const SummaryMarker := "SUMMARY OF "

  /** `table.find(lambda tag: tag.name == "td" and "SUMMARY OF " in tag.text)` found something. */
  predicate IsMarkerTable(t: Table)
  {
    exists i, j :: 0 <= i < |t| && 0 <= j < |t[i]| && Contains(t[i][j], SummaryMarker)
  }

  /** The tables `term_summary_tables` collects from index `i` on: the one after
      each marker table; a marker in the last table is an `IndexError`. */
  function LocateFrom(tables: seq<Table>, i: nat): Result<seq<Table>>
    requires i <= |tables|
    decreases |tables| - i
  {
    if i == |tables| then Ok([])
    else if IsMarkerTable(tables[i]) then
      if i + 1 < |tables| then
        var rest :- LocateFrom(tables, i + 1);
        Ok([tables[i + 1]] + rest)
      else Err(IndexError("tables[i+1]"))
    else LocateFrom(tables, i + 1)
  }

  function Locate(tables: seq<Table>): Result<seq<Table>>
  {
    LocateFrom(tables, 0)
  }

  /** `located` put in front of a result. */
  function Prepend(located: seq<Table>, r: Result<seq<Table>>): Result<seq<Table>>
  {
    match r
    case Err(e) => Err(e)
    case Ok(more) => Ok(located + more)
  }

  /** The locator loop of `get_course`. */
  method LocateSummaries(tables: seq<Table>) returns (result: Result<seq<Table>>)
    ensures result == Locate(tables)
  {
    var located: seq<Table> := [];
    assert Prepend(located, Locate(tables)) == Locate(tables) by {
      if Locate(tables).Ok? {
        assert located + Locate(tables).value == Locate(tables).value;
      }
    }
    for i := 0 to |tables|
      invariant Prepend(located, LocateFrom(tables, i)) == Locate(tables)
    {
      if IsMarkerTable(tables[i]) {
        if i + 1 >= |tables| {
          return Err(IndexError("tables[i+1]"));
        }
        match LocateFrom(tables, i + 1)
        case Err(_) =>
        case Ok(rest) => assert located + ([tables[i + 1]] + rest) == (located + [tables[i + 1]]) + rest;
        located := located + [tables[i + 1]];
      }
    }
    assert located + [] == located;
    return Ok(located);
  }

  /** The indices from `i` on of the marker tables, ascending. */
  function MarkerIndices(tables: seq<Table>, i: nat): (idx: seq<nat>)
    requires i <= |tables|
    decreases |tables| - i
  {
    if i == |tables| then []
    else (if IsMarkerTable(tables[i]) then [i] else []) + MarkerIndices(tables, i + 1)
  }

  /** Every marker index from `i` on is in range and names a marker table. */
  lemma {:induction false} MarkerIndicesSound(tables: seq<Table>, i: nat)
    requires i <= |tables|
    ensures forall k :: 0 <= k < |MarkerIndices(tables, i)| ==>
      i <= MarkerIndices(tables, i)[k] < |tables| && IsMarkerTable(tables[MarkerIndices(tables, i)[k]])
    decreases |tables| - i
  {
    if i < |tables| {
      MarkerIndicesSound(tables, i + 1);
      var rest := MarkerIndices(tables, i + 1);
      var head: seq<nat> := if IsMarkerTable(tables[i]) then [i] else [];
      var idx := head + rest;
      assert MarkerIndices(tables, i) == idx;
      forall k | 0 <= k < |idx| ensures i <= idx[k] < |tables| && IsMarkerTable(tables[idx[k]]) {
        if k < |head| {
          assert idx[k] == i;
        } else {
          assert idx[k] == rest[k - |head|];
        }
      }
    }
  }

  /** The marker indices are strictly ascending. */
  lemma {:induction false} MarkerIndicesAscending(tables: seq<Table>, i: nat)
    requires i <= |tables|
    ensures forall k, l :: 0 <= k < l < |MarkerIndices(tables, i)| ==> MarkerIndices(tables, i)[k] < MarkerIndices(tables, i)[l]
    decreases |tables| - i
  {
    if i < |tables| {
      MarkerIndicesAscending(tables, i + 1);
      MarkerIndicesSound(tables, i + 1);
      var rest := MarkerIndices(tables, i + 1);
      var head: seq<nat> := if IsMarkerTable(tables[i]) then [i] else [];
      var idx := head + rest;
      assert MarkerIndices(tables, i) == idx;
      forall k, l | 0 <= k < l < |idx| ensures idx[k] < idx[l] {
        assert idx[l] == rest[l - |head|];
        if k < |head| {
          assert idx[k] == i;
        } else {
          assert idx[k] == rest[k - |head|];
        }
      }
    }
  }

  /** Every marker table from `i` on has its index listed. */
  lemma {:induction false} MarkerIndicesComplete(tables: seq<Table>, i: nat)
    requires i <= |tables|
    ensures forall j :: i <= j < |tables| && IsMarkerTable(tables[j]) ==> j in MarkerIndices(tables, i)
    decreases |tables| - i
  {
    if i < |tables| {
      MarkerIndicesComplete(tables, i + 1);
      var rest := MarkerIndices(tables, i + 1);
      var head: seq<nat> := if IsMarkerTable(tables[i]) then [i] else [];
      var idx := head + rest;
      assert MarkerIndices(tables, i) == idx;
      forall j | i <= j < |tables| && IsMarkerTable(tables[j]) ensures j in idx {
        if j == i {
          assert idx[0] == i;
        } else {
          assert j in rest;
        }
      }
    }
  }

  /** The locator fails exactly when the last table is a marker table. */
  lemma {:induction false} LocateFailsIffLastMarked(tables: seq<Table>, i: nat)
    requires i <= |tables|
    ensures LocateFrom(tables, i).Err? <==> i < |tables| && IsMarkerTable(tables[|tables| - 1])
    decreases |tables| - i
  {
    if i < |tables| {
      LocateFailsIffLastMarked(tables, i + 1);
    }
  }

  /** Positional pairing: when the locator succeeds it returns, in order, the table
      right after each marker table. */
  lemma {:induction false} LocatePairsPositionally(tables: seq<Table>, i: nat)
    requires i <= |tables| && LocateFrom(tables, i).Ok?
    ensures var idx, located := MarkerIndices(tables, i), LocateFrom(tables, i).value;
      |located| == |idx| && forall k :: 0 <= k < |idx| ==> idx[k] + 1 < |tables| && located[k] == tables[idx[k] + 1]
    decreases |tables| - i
  {
    if i < |tables| {
      LocatePairsPositionally(tables, i + 1);
      if IsMarkerTable(tables[i]) {
        var rest, restIdx := LocateFrom(tables, i + 1).value, MarkerIndices(tables, i + 1);
        var located, idx := [tables[i + 1]] + rest, [i] + restIdx;
        assert LocateFrom(tables, i) == Ok(located);
        assert MarkerIndices(tables, i) == idx;
        forall k | 0 <= k < |idx| ensures idx[k] + 1 < |tables| && located[k] == tables[idx[k] + 1] {
          if k > 0 {
            assert idx[k] == restIdx[k - 1] && located[k] == rest[k - 1];
          }
        }
      } else {
        assert MarkerIndices(tables, i) == [] + MarkerIndices(tables, i + 1);
      }
    }
  }

  /** Five tables A..E where B and D carry markers locate [C, E]. */
  lemma PairingExample(a: Table, b: Table, c: Table, d: Table, e: Table)
    requires !IsMarkerTable(a) && IsMarkerTable(b) && !IsMarkerTable(c) && IsMarkerTable(d) && !IsMarkerTable(e)
    ensures Locate([a, b, c, d, e]) == Ok([c, e])
  {
    var ts := [a, b, c, d, e];
    assert ts[1] == b && ts[2] == c && ts[3] == d && ts[4] == e;
    assert LocateFrom(ts, 5) == Ok([]);
    assert LocateFrom(ts, 4) == Ok([]);
    assert [e] + [] == [e];
    assert LocateFrom(ts, 3) == Ok([e]);
    assert LocateFrom(ts, 2) == Ok([e]);
    assert [c] + [e] == [c, e];
    assert LocateFrom(ts, 1) == Ok([c, e]);
  }
}
