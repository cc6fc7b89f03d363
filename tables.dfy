/**
 * Table extraction in `scraper.py`: header-keyed row dictionaries, the
 * strict-width filters (two-cell highlights, three-cell exam rows, rows as
 * wide as the header row), verbatim cell-text tables and the small
 * column-picking tables of the syllabus and salary sections.
 */
module Tables {
  import opened Wrappers
  import opened Text
  import opened Dicts
  import opened Seqs
  import opened Dom

  /*************************************************************************
   * Header-keyed tables (eligibility and specialization sections)
   *************************************************************************/

  /** The key of the cell at `idx`: its header, or `col_idx` past the last header. */
  function KeyFor(headers: seq<string>, idx: nat): string {
    if idx < |headers| then headers[idx] else ColKey(idx)
  }

  /** Each cell's text paired with its key, in cell order. */
  function KeyedCells(headers: seq<string>, cells: seq<Cell>): (ps: seq<(string, string)>)
    ensures |ps| == |cells|
    ensures forall i | 0 <= i < |cells| :: ps[i] == (KeyFor(headers, i), cells[i].text)
  {
    seq(|cells|, i requires 0 <= i < |cells| => (KeyFor(headers, i), cells[i].text))
  }

  /** The row dictionary of `cells`: each cell's text assigned under its key, in cell order. */
  function KeyedRowOf(headers: seq<string>, cells: seq<Cell>): Dict<string> {
    Assign(KeyedCells(headers, cells))
  }

  /** Fills `row_dict` cell by cell: `row_dict[key] = col.get_text(...)`. */
  method KeyedRow(headers: seq<string>, cells: seq<Cell>) returns (row: Dict<string>)
    ensures row == KeyedRowOf(headers, cells)
  {
    ghost var pairs := KeyedCells(headers, cells);
    row := [];
    for idx := 0 to |cells|
      invariant row == Assign(pairs[..idx])
    {
      var key := if idx < |headers| then headers[idx] else ColKey(idx);
      assert pairs[idx] == (key, cells[idx].text);
      AssignPrefixSnoc(pairs, idx);
      row := Put(row, key, cells[idx].text);
    }
    assert pairs[..|cells|] == pairs;
  }

  /** No cell is dropped: the row's keys are exactly the keys of its cells, each once. */
  lemma KeyedRowKeys(headers: seq<string>, cells: seq<Cell>)
    ensures UniqueKeys(KeyedRowOf(headers, cells))
    ensures forall k :: HasKey(KeyedRowOf(headers, cells), k) <==> exists i | 0 <= i < |cells| :: KeyFor(headers, i) == k
  {
    var pairs := KeyedCells(headers, cells);
    AssignKeys(pairs);
  }

  /** A cell's text is what its key holds, unless a later cell of the row has the same key. */
  lemma KeyedRowValue(headers: seq<string>, cells: seq<Cell>, i: nat)
    requires i < |cells|
    requires forall j | i < j < |cells| :: KeyFor(headers, j) != KeyFor(headers, i)
    ensures Get(KeyedRowOf(headers, cells), KeyFor(headers, i)) == Some(cells[i].text)
  {
    AssignLastWins(KeyedCells(headers, cells), i);
  }

  /**
   * With distinct headers, none of them spelled like a synthetic key, a row of
   * M cells under N headers has M entries in cell order: the N named keys
   * first, then `col_N` ... `col_{M-1}`, each holding its cell's text.
   */
  lemma KeyedRowCoversAllCells(headers: seq<string>, cells: seq<Cell>)
    requires forall i, j | 0 <= i < j < |headers| :: headers[i] != headers[j]
    requires forall j | |headers| <= j < |cells| :: ColKey(j) !in headers
    ensures |KeyedRowOf(headers, cells)| == |cells|
    ensures forall i | 0 <= i < |cells| :: KeyedRowOf(headers, cells)[i].1 == cells[i].text
    ensures forall i | 0 <= i < |cells| && i < |headers| :: KeyedRowOf(headers, cells)[i].0 == headers[i]
    ensures forall i | |headers| <= i < |cells| :: KeyedRowOf(headers, cells)[i].0 == ColKey(i)
  {
    var pairs := KeyedCells(headers, cells);
    forall i, j | 0 <= i < j < |pairs| ensures pairs[i].0 != pairs[j].0 {
      if j < |headers| {
      } else if i < |headers| {
        assert pairs[i].0 == headers[i];
      } else {
        ColKeyInjective(i, j);
      }
    }
    AssignDistinct(pairs);
  }

  datatype KeyedTable = KeyedTable(headers: seq<string>, rows: seq<Dict<string>>)

  function KeyedTableOf(table: Table): KeyedTable {
    var headers := HeaderTexts(table);
    KeyedTable(headers, seq(|DataRows(table)|, i requires 0 <= i < |DataRows(table)| => KeyedRowOf(headers, table[i + 1])))
  }

  /**
   * The `{"headers", "rows"}` block of a table: every `th` text as a header,
   * and one row dictionary for every `tr` after the first.
   */
  method HeaderKeyedTable(table: Table) returns (t: KeyedTable)
    ensures t.headers == HeaderTexts(table)
    ensures |t.rows| == |DataRows(table)|
    ensures forall i | 0 <= i < |t.rows| :: t.rows[i] == KeyedRowOf(t.headers, table[i + 1])
    ensures t == KeyedTableOf(table)
  {
    var headers := HeaderTexts(table);
    var data := DataRows(table);
    var rows: seq<Dict<string>> := [];
    for j := 0 to |data|
      invariant |rows| == j
      invariant forall i | 0 <= i < j :: rows[i] == KeyedRowOf(headers, data[i])
    {
      var row := KeyedRow(headers, data[j]);
      rows := rows + [row];
    }
    t := KeyedTable(headers, rows);
    KeyedTableOfRows(table, rows);
  }

  lemma KeyedTableOfRows(table: Table, rows: seq<Dict<string>>)
    requires |rows| == |DataRows(table)|
    requires forall i | 0 <= i < |rows| :: rows[i] == KeyedRowOf(HeaderTexts(table), table[i + 1])
    ensures KeyedTable(HeaderTexts(table), rows) == KeyedTableOf(table)
  {
  }

  /*************************************************************************
   * Overview highlights: data rows of exactly two cells
   *************************************************************************/

  datatype Highlight = Highlight(particular: string, details: string)

  datatype Highlights = Highlights(columns: seq<string>, rows: seq<Highlight>)

  function HighlightOf(row: Row): Option<Highlight> {
    if |row| == 2 then Some(Highlight(row[0].text, row[1].text)) else None
  }

  /** The highlight rows of every table, table after table. */
  function HighlightsOf(tables: seq<Table>): seq<Highlight> {
    if tables == [] then []
    else HighlightsOf(tables[..|tables| - 1]) + Pick(DataRows(tables[|tables| - 1]), HighlightOf)
  }

  lemma HighlightsSnoc(tables: seq<Table>, t: nat)
    requires t < |tables|
    ensures HighlightsOf(tables[..t + 1]) == HighlightsOf(tables[..t]) + Pick(DataRows(tables[t]), HighlightOf)
  {
    assert tables[..t + 1][..t] == tables[..t];
  }

  /** The overview's `highlights` block, built over all tables of the overview. */
  method OverviewHighlights(tables: seq<Table>) returns (h: Highlights)
    ensures h.columns == ["Particular", "Details"]
    ensures h.rows == HighlightsOf(tables)
  {
    var rows: seq<Highlight> := [];
    for t := 0 to |tables|
      invariant rows == HighlightsOf(tables[..t])
    {
      var tableRows := TableHighlights(tables[t]);
      rows := rows + tableRows;
      HighlightsSnoc(tables, t);
    }
    assert tables[..|tables|] == tables;
    h := Highlights(["Particular", "Details"], rows);
  }

  /** The inner loop over one table: a highlight for each two-cell data row. */
  method TableHighlights(table: Table) returns (rows: seq<Highlight>)
    ensures rows == Pick(DataRows(table), HighlightOf)
  {
    var data := DataRows(table);
    rows := [];
    for j := 0 to |data|
      invariant rows == Pick(data[..j], HighlightOf)
    {
      var cols := data[j];
      PickSnoc(data, HighlightOf, j);
      if |cols| == 2 {
        rows := rows + [Highlight(cols[0].text, cols[1].text)];
      }
    }
    assert data[..|data|] == data;
  }

  /** Table `table` has a two-cell row below its header row whose texts make `h`. */
  predicate HasHighlightRow(table: Table, h: Highlight) {
    exists j | 1 <= j < |table| :: |table[j]| == 2 && h == Highlight(table[j][0].text, table[j][1].text)
  }

  lemma TableHighlightsMembership(table: Table, h: Highlight)
    ensures h in Pick(DataRows(table), HighlightOf) <==> HasHighlightRow(table, h)
  {
    var data := DataRows(table);
    PickMembership(data, HighlightOf, h);
    if exists j | 0 <= j < |data| :: HighlightOf(data[j]) == Some(h) {
      var j :| 0 <= j < |data| && HighlightOf(data[j]) == Some(h);
      assert data[j] == table[j + 1];
    }
    if HasHighlightRow(table, h) {
      var j :| 1 <= j < |table| && |table[j]| == 2 && h == Highlight(table[j][0].text, table[j][1].text);
      assert HighlightOf(data[j - 1]) == Some(h);
    }
  }

  /** Something is kept from the data rows exactly when some row below the header yields it. */
  lemma DataRowsPickMembership<B>(table: Table, f: Row -> Option<B>, b: B)
    ensures b in Pick(DataRows(table), f) <==> exists j | 1 <= j < |table| :: f(table[j]) == Some(b)
  {
    var data := DataRows(table);
    PickMembership(data, f, b);
    if exists j | 0 <= j < |data| :: f(data[j]) == Some(b) {
      var j :| 0 <= j < |data| && f(data[j]) == Some(b);
      assert table[j + 1] == data[j];
    }
    if exists j | 1 <= j < |table| :: f(table[j]) == Some(b) {
      var j :| 1 <= j < |table| && f(table[j]) == Some(b);
      assert data[j - 1] == table[j];
    }
  }

  /** A highlight appears exactly when some table has a two-cell row below its header row. */
  lemma {:induction false} HighlightsMembership(tables: seq<Table>, h: Highlight)
    ensures h in HighlightsOf(tables) <==> exists t | 0 <= t < |tables| :: HasHighlightRow(tables[t], h)
  {
    if tables != [] {
      var init, last := tables[..|tables| - 1], tables[|tables| - 1];
      HighlightsMembership(init, h);
      TableHighlightsMembership(last, h);
      assert HighlightsOf(tables) == HighlightsOf(init) + Pick(DataRows(last), HighlightOf);
      if exists t | 0 <= t < |tables| :: HasHighlightRow(tables[t], h) {
        var t :| 0 <= t < |tables| && HasHighlightRow(tables[t], h);
        if t < |init| {
          assert init[t] == tables[t];
        }
      }
      if h in HighlightsOf(init) {
        var t :| 0 <= t < |init| && HasHighlightRow(init[t], h);
        assert tables[t] == init[t];
      }
    }
  }

  /*************************************************************************
   * Popular entrance exams: data rows of exactly three `td`
   *************************************************************************/

  datatype Exam = Exam(name: string, dates: string, scheduleLink: Option<string>)

  function ExamOf(row: Row): Option<Exam> {
    var tds := Tds(row);
    if |tds| == 3 then Some(Exam(tds[0].text, tds[1].text, tds[2].href)) else None
  }

  /** `popular_exams`: empty without a table, else one exam per three-`td` data row. */
  method PopularExams(table: Option<Table>) returns (exams: seq<Exam>)
    ensures table.None? ==> exams == []
    ensures table.Some? ==> exams == Pick(DataRows(table.value), ExamOf)
  {
    exams := [];
    if table.Some? {
      var data := DataRows(table.value);
      for j := 0 to |data|
        invariant exams == Pick(data[..j], ExamOf)
      {
        var cols := Tds(data[j]);
        if |cols| == 3 {
          exams := exams + [Exam(cols[0].text, cols[1].text, cols[2].href)];
        }
        PickSnoc(data, ExamOf, j);
      }
      assert data[..|data|] == data;
    }
  }

  /** A data row of three `td` whose texts and third anchor make up `e`. */
  predicate ExamRow(row: Row, e: Exam) {
    |Tds(row)| == 3 && e == Exam(Tds(row)[0].text, Tds(row)[1].text, Tds(row)[2].href)
  }

  /**
   * An exam is listed exactly when a data row has three `td`; its link is the
   * third cell's anchor, `None` when that cell has none.
   */
  lemma ExamsMembership(table: Table, e: Exam)
    ensures e in Pick(DataRows(table), ExamOf) <==> exists j | 1 <= j < |table| :: ExamRow(table[j], e)
  {
    DataRowsPickMembership(table, ExamOf, e);
    assert forall j | 1 <= j < |table| :: ExamOf(table[j]) == Some(e) <==> ExamRow(table[j], e);
  }

  /*************************************************************************
   * Listing-page tables: rows exactly as wide as the header row
   *************************************************************************/

  function StrictRowOf(headers: seq<string>, row: Row): Option<Dict<string>> {
    if |Tds(row)| == |headers| then Some(KeyedRowOf(headers, Tds(row))) else None
  }

  /** The filter of one listing-page table, for the headers of its first row. */
  function StrictRow(headers: seq<string>): Row -> Option<Dict<string>> {
    row => StrictRowOf(headers, row)
  }

  /**
   * The `data` of a table on the listing page: headers are the `th` of the
   * first row; a later row is kept only when its `td` count equals the header
   * count. Python fails on `rows[0]` for a table without rows.
   */
  method StrictTable(table: Table) returns (data: seq<Dict<string>>)
    requires |table| > 0
    ensures data == Pick(table[1..], StrictRow(Texts(Ths(table[0]))))
  {
    var headers := Texts(Ths(table[0]));
    var rows := table[1..];
    data := [];
    ghost var keep := StrictRow(headers);
    for j := 0 to |rows|
      invariant data == Pick(rows[..j], keep)
    {
      var cols := Tds(rows[j]);
      assert keep(rows[j]) == StrictRowOf(headers, rows[j]);
      PickSnoc(rows, keep, j);
      if |cols| == |headers| {
        var rowData := KeyedRowOf(headers, cols);
        data := data + [rowData];
      }
    }
    assert rows[..|rows|] == rows;
  }

  /** Every kept row is keyed by exactly the header texts. */
  lemma StrictRowKeys(headers: seq<string>, row: Row)
    requires StrictRow(headers)(row).Some?
    ensures forall k :: HasKey(StrictRow(headers)(row).value, k) <==> k in headers
  {
    var tds := Tds(row);
    KeyedRowKeys(headers, tds);
    forall k ensures (exists i | 0 <= i < |tds| :: KeyFor(headers, i) == k) <==> k in headers {
      if k in headers {
        var i :| 0 <= i < |headers| && headers[i] == k;
        assert KeyFor(headers, i) == k;
      }
    }
  }

  /** With distinct headers, a kept row pairs the i-th header with the i-th `td`. */
  lemma StrictRowPairs(headers: seq<string>, row: Row)
    requires StrictRow(headers)(row).Some?
    requires forall i, j | 0 <= i < j < |headers| :: headers[i] != headers[j]
    ensures StrictRow(headers)(row).value == seq(|headers|, i requires 0 <= i < |headers| => (headers[i], Tds(row)[i].text))
  {
    KeyedRowCoversAllCells(headers, Tds(row));
  }

  /** A listing-page row survives exactly when its `td` count equals the header count. */
  lemma StrictTableMembership(table: Table, d: Dict<string>)
    requires |table| > 0
    ensures d in Pick(table[1..], StrictRow(Texts(Ths(table[0])))) <==>
      exists j | 1 <= j < |table| ::
        |Tds(table[j])| == |Ths(table[0])| && d == KeyedRowOf(Texts(Ths(table[0])), Tds(table[j]))
  {
    var headers := Texts(Ths(table[0]));
    assert table[1..] == DataRows(table);
    DataRowsPickMembership(table, StrictRow(headers), d);
    assert forall j | 1 <= j < |table| :: StrictRow(headers)(table[j]) == StrictRowOf(headers, table[j]);
  }

  /*************************************************************************
   * Cutoff and seat tables: a dictionary for every data row
   *************************************************************************/

  /**
   * `{headers[i]: cols[i].get_text(...) for i in range(len(cols))}` for every
   * data row. Python raises IndexError when a row has more `td` than the
   * table has `th`, hence the precondition.
   */
  function CutoffRowsOf(table: Table): seq<Dict<string>> {
    var headers := HeaderTexts(table);
    seq(|DataRows(table)|, i requires 0 <= i < |DataRows(table)| => KeyedRowOf(headers, Tds(table[i + 1])))
  }

  method CutoffTable(table: Table) returns (rows: seq<Dict<string>>)
    requires forall j | 1 <= j < |table| :: |Tds(table[j])| <= |HeaderTexts(table)|
    ensures |rows| == |DataRows(table)|
    ensures forall i | 0 <= i < |rows| :: rows[i] == KeyedRowOf(HeaderTexts(table), Tds(table[i + 1]))
    ensures rows == CutoffRowsOf(table)
  {
    var headers := HeaderTexts(table);
    var data := DataRows(table);
    rows := [];
    for j := 0 to |data|
      invariant |rows| == j
      invariant forall i | 0 <= i < j :: rows[i] == KeyedRowOf(headers, Tds(data[i]))
    {
      var cols := Tds(data[j]);
      var rowData := KeyedRowOf(headers, cols);
      rows := rows + [rowData];
    }
    CutoffRowsOfRows(table, rows);
  }

  lemma CutoffRowsOfRows(table: Table, rows: seq<Dict<string>>)
    requires |rows| == |DataRows(table)|
    requires forall i | 0 <= i < |rows| :: rows[i] == KeyedRowOf(HeaderTexts(table), Tds(table[i + 1]))
    ensures rows == CutoffRowsOf(table)
  {
  }

  /** A cutoff row that fits under the headers has only header keys, never a synthetic one. */
  lemma CutoffRowKeys(headers: seq<string>, cells: seq<Cell>)
    requires |cells| <= |headers|
    ensures forall k :: HasKey(KeyedRowOf(headers, cells), k) <==> k in headers[..|cells|]
  {
    KeyedRowKeys(headers, cells);
    forall k ensures (exists i | 0 <= i < |cells| :: KeyFor(headers, i) == k) <==> k in headers[..|cells|] {
      if k in headers[..|cells|] {
        var i :| 0 <= i < |cells| && headers[..|cells|][i] == k;
        assert KeyFor(headers, i) == k;
      }
    }
  }

  /*************************************************************************
   * Verbatim tables: every non-empty row as its list of cell texts
   *************************************************************************/

  function RawRowOf(row: Row): Option<seq<string>> {
    if row == [] then None else Some(Texts(row))
  }

  /** `table_data`: each `tr` with at least one cell, header row included, as its cell texts. */
  /** The inner loop over one `tr`: the texts of its cells, in order. */
  method RowTexts(row: Row) returns (rowData: seq<string>)
    ensures rowData == Texts(row)
  {
    rowData := [];
    for c := 0 to |row|
      invariant rowData == Texts(row[..c])
    {
      rowData := rowData + [row[c].text];
    }
    assert row[..|row|] == row;
  }

  method RawTable(table: Table) returns (rows: seq<seq<string>>)
    ensures rows == Pick(table, RawRowOf)
  {
    rows := [];
    for j := 0 to |table|
      invariant rows == Pick(table[..j], RawRowOf)
    {
      var rowData := RowTexts(table[j]);
      if rowData != [] {
        rows := rows + [rowData];
      }
      PickSnoc(table, RawRowOf, j);
    }
    assert table[..|table|] == table;
  }

  /**
   * Nothing but empty rows is dropped, and rows keep their own lengths: a
   * non-empty `tr` (the header row too) appears, verbatim, after the rows
   * kept before it.
   */
  lemma RawTableRows(table: Table, i: nat)
    requires i < |table| && table[i] != []
    ensures forall r | r in Pick(table, RawRowOf) :: r != []
    ensures |Pick(table[..i], RawRowOf)| < |Pick(table, RawRowOf)|
    ensures Pick(table, RawRowOf)[|Pick(table[..i], RawRowOf)|] == Texts(table[i])
  {
    forall r | r in Pick(table, RawRowOf) ensures r != [] {
      PickMembership(table, RawRowOf, r);
    }
    PickAt(table, RawRowOf, i);
  }

  /** With no empty row, the verbatim table has one list per `tr`, in order. */
  lemma RawTableOfFullRows(table: Table)
    requires forall i | 0 <= i < |table| :: table[i] != []
    ensures |Pick(table, RawRowOf)| == |table|
    ensures forall i | 0 <= i < |table| :: Pick(table, RawRowOf)[i] == Texts(table[i])
  {
    PickKeepsAll(table, RawRowOf);
  }

  function AnswerTableOf(table: Table): Option<seq<seq<string>>> {
    var rows := Pick(table, RawRowOf);
    if rows == [] then None else Some(rows)
  }

  /** A table yields a verbatim table exactly when one of its rows has a cell. */
  lemma RawRowsNonEmpty(table: Table)
    ensures Pick(table, RawRowOf) != [] <==> exists r | r in table :: r != []
  {
    if exists r | r in table :: r != [] {
      var r :| r in table && r != [];
      var j :| 0 <= j < |table| && table[j] == r;
      assert RawRowOf(table[j]) == Some(Texts(r));
      PickMembership(table, RawRowOf, Texts(r));
    }
    if Pick(table, RawRowOf) != [] {
      var y := Pick(table, RawRowOf)[0];
      PickMembership(table, RawRowOf, y);
      var j :| 0 <= j < |table| && RawRowOf(table[j]) == Some(y);
      assert table[j] in table;
    }
  }

  /** An answer has tables to attach exactly when one of its tables has a row with a cell. */
  lemma AnswerTablesNonEmpty(tables: seq<Table>)
    ensures Pick(tables, AnswerTableOf) != [] <==> exists t | t in tables :: exists r | r in t :: r != []
  {
    if exists t | t in tables :: exists r | r in t :: r != [] {
      var t :| t in tables && exists r | r in t :: r != [];
      var k :| 0 <= k < |tables| && tables[k] == t;
      RawRowsNonEmpty(t);
      assert AnswerTableOf(tables[k]) == Some(Pick(t, RawRowOf));
      PickMembership(tables, AnswerTableOf, Pick(t, RawRowOf));
    }
    if Pick(tables, AnswerTableOf) != [] {
      var x := Pick(tables, AnswerTableOf)[0];
      PickMembership(tables, AnswerTableOf, x);
      var k :| 0 <= k < |tables| && AnswerTableOf(tables[k]) == Some(x);
      RawRowsNonEmpty(tables[k]);
      assert tables[k] in tables;
    }
  }

  /** The tables nested in an FAQ answer: each verbatim table that has at least one row. */
  method AnswerTables(tables: seq<Table>) returns (answerTables: seq<seq<seq<string>>>)
    ensures answerTables == Pick(tables, AnswerTableOf)
  {
    answerTables := [];
    for t := 0 to |tables|
      invariant answerTables == Pick(tables[..t], AnswerTableOf)
    {
      var tableData := RawTable(tables[t]);
      if tableData != [] {
        answerTables := answerTables + [tableData];
      }
      PickSnoc(tables, AnswerTableOf, t);
    }
    assert tables[..|tables|] == tables;
  }

  /*************************************************************************
   * Salary jobs and syllabus link tables
   *************************************************************************/

  datatype JobProfile = JobProfile(profile: string, description: string, averageSalary: string)

  function JobProfileOf(row: Row): Option<JobProfile> {
    if |row| >= 3 then Some(JobProfile(row[0].text, row[1].text, row[2].text)) else None
  }

  /** `job_profiles`: the first three cells of each data row that has at least three. */
  method JobProfiles(table: Table) returns (profiles: seq<JobProfile>)
    ensures profiles == Pick(DataRows(table), JobProfileOf)
  {
    var data := DataRows(table);
    profiles := [];
    for j := 0 to |data|
      invariant profiles == Pick(data[..j], JobProfileOf)
    {
      var cols := data[j];
      if |cols| >= 3 {
        profiles := profiles + [JobProfile(cols[0].text, cols[1].text, cols[2].text)];
      }
      PickSnoc(data, JobProfileOf, j);
    }
    assert data[..|data|] == data;
  }

  /** A job profile is listed exactly when a data row has three or more cells. */
  lemma JobProfilesMembership(table: Table, p: JobProfile)
    ensures p in Pick(DataRows(table), JobProfileOf) <==>
      exists j | 1 <= j < |table| ::
        |table[j]| >= 3 && p == JobProfile(table[j][0].text, table[j][1].text, table[j][2].text)
  {
    var data := DataRows(table);
    PickMembership(data, JobProfileOf, p);
    if exists j | 1 <= j < |table| ::
        |table[j]| >= 3 && p == JobProfile(table[j][0].text, table[j][1].text, table[j][2].text)
    {
      var j :| 1 <= j < |table| &&
        |table[j]| >= 3 && p == JobProfile(table[j][0].text, table[j][1].text, table[j][2].text);
      assert data[j - 1] == table[j];
    }
  }

  /** The non-empty texts among the first two cells of a row with at least two cells. */
  function LinkTextsOf(row: Row): seq<string> {
    if |row| < 2 then []
    else (if row[0].text != "" then [row[0].text] else []) + (if row[1].text != "" then [row[1].text] else [])
  }

  function SyllabusLinksOf(rows: seq<Row>): seq<string> {
    if rows == [] then [] else SyllabusLinksOf(rows[..|rows| - 1]) + LinkTextsOf(rows[|rows| - 1])
  }

  /** `specialization_links`: the left and right cell texts of each data row, skipping empty ones. */
  method SyllabusLinks(table: Table) returns (links: seq<string>)
    ensures links == SyllabusLinksOf(DataRows(table))
  {
    var data := DataRows(table);
    links := [];
    for j := 0 to |data|
      invariant links == SyllabusLinksOf(data[..j])
    {
      var cols := data[j];
      if |cols| >= 2 {
        var left := cols[0].text;
        var right := if |cols| > 1 then cols[1].text else "";
        if left != "" {
          links := links + [left];
        }
        if right != "" {
          links := links + [right];
        }
      }
      assert data[..j + 1][..j] == data[..j];
    }
    assert data[..|data|] == data;
  }

  /**
   * Every link is a non-empty first- or second-column text of a row with at
   * least two cells, and there are at most two per row.
   */
  lemma {:induction false} SyllabusLinksFromRows(rows: seq<Row>)
    ensures |SyllabusLinksOf(rows)| <= 2 * |rows|
    ensures forall l | l in SyllabusLinksOf(rows) ::
      l != "" && exists j | 0 <= j < |rows| :: |rows[j]| >= 2 && (l == rows[j][0].text || l == rows[j][1].text)
  {
    if rows != [] {
      var init, last := rows[..|rows| - 1], rows[|rows| - 1];
      SyllabusLinksFromRows(init);
      forall l | l in SyllabusLinksOf(rows)
        ensures l != "" && exists j | 0 <= j < |rows| :: |rows[j]| >= 2 && (l == rows[j][0].text || l == rows[j][1].text)
      {
        if l in SyllabusLinksOf(init) {
          var j :| 0 <= j < |init| && |init[j]| >= 2 && (l == init[j][0].text || l == init[j][1].text);
          assert rows[j] == init[j];
        } else {
          assert l in LinkTextsOf(last);
          assert rows[|rows| - 1] == last;
        }
      }
    }
  }
}
