/**
 * The DOM fragments the scraper works on, as the HTML parser hands them
 * over. Locating them (tag and class matching, CSS selectors, document
 * traversal) and extracting their text belong to the parser; what remains
 * here is their shape, with each node's extracted text already given.
 */
module Dom {
  import opened Wrappers
  import opened Text

  datatype CellTag = Th | Td

  /** A `th` or `td` cell: its text, and the `href` of its first anchor if it has one. */
  datatype Cell = Cell(tag: CellTag, text: string, href: Option<string>)

  /** A `tr`, as the list of its `td`/`th` cells in document order. */
  type Row = seq<Cell>

  /** A `table`, as the list of its `tr` rows in document order (the first is the header row). */
  type Table = seq<Row>

  /** A node in a list of siblings; only the tags the scraper tells apart are distinguished. */
  datatype Sibling =
    | P(text: string)
    | H2(text: string)
    | H4(text: string)
    | Ul(items: seq<string>)        // the texts of its `li` descendants
    | TableNode(table: Table)
    | OtherTag(text: string)        // any other element

  /** A container whose answer text is taken from its paragraphs, or from its whole text when it has none. */
  datatype TextBox = TextBox(paragraphs: seq<string>, wholeText: string)

  /** An `<a>` naming a tag: its text and its `href` attribute. */
  datatype Tag = Tag(name: string, url: Option<string>)

  /** An author anchor: its text and its `href` attribute. */
  datatype AuthorLink = AuthorLink(name: string, href: Option<string>)

  /** The follower-count span of a post and its `valuecount` attribute. */
  datatype FollowersSpan = NoSpan | Span(valuecount: Option<string>)

  function Texts(cells: seq<Cell>): (ts: seq<string>)
    ensures |ts| == |cells| && forall i | 0 <= i < |cells| :: ts[i] == cells[i].text
  {
    if cells == [] then [] else [cells[0].text] + Texts(cells[1..])
  }

  /** `row.find_all("td")`. */
  function Tds(row: Row): (tds: seq<Cell>)
    ensures |tds| <= |row| && forall c | c in tds :: c in row && c.tag == Td
  {
    if row == [] then [] else (if row[0].tag == Td then [row[0]] else []) + Tds(row[1..])
  }

  /** `row.find_all("th")`. */
  function Ths(row: Row): (ths: seq<Cell>)
    ensures |ths| <= |row| && forall c | c in ths :: c in row && c.tag == Th
  {
    if row == [] then [] else (if row[0].tag == Th then [row[0]] else []) + Ths(row[1..])
  }

  /** `table.find_all("tr")[1:]`: every row after the header row. */
  function DataRows(table: Table): (rows: seq<Row>)
    ensures |rows| == if table == [] then 0 else |table| - 1
    ensures forall i | 0 <= i < |rows| :: rows[i] == table[i + 1]
  {
    if table == [] then [] else table[1..]
  }

  /**
   * The texts of every `th` in the table, row by row: the comprehension
   * `[th.get_text(...) for th in table.find_all("th")]`.
   */
  function HeaderTexts(table: Table): seq<string> {
    if table == [] then [] else HeaderTexts(table[..|table| - 1]) + Texts(Ths(table[|table| - 1]))
  }

  /** The text of a container: its paragraphs space-joined, or its whole text when it has none. */
  function BoxText(box: TextBox): (t: string)
    ensures box.paragraphs == [] ==> t == box.wholeText
    ensures |box.paragraphs| == 1 ==> t == box.paragraphs[0]
  {
    if box.paragraphs != [] then Join(" ", box.paragraphs) else box.wholeText
  }

  /** The text is empty exactly when there are no paragraphs and no text, or a single empty paragraph. */
  lemma BoxTextEmptyIff(box: TextBox)
    ensures BoxText(box) == "" <==>
      (box.paragraphs == [] && box.wholeText == "") || box.paragraphs == [""]
  {
    if box.paragraphs != [] {
      JoinEmptyIff(" ", box.paragraphs);
    }
  }

  /** `int(span.get("valuecount", "0"))` does not raise: the attribute, when present, is an integer literal. */
  predicate FollowersParse(span: FollowersSpan) {
    span.Span? && span.valuecount.Some? ==> ParseInt(span.valuecount.value).Some?
  }

  /** The follower count: 0 without the span or its attribute, else the attribute's integer value. */
  function FollowersOf(span: FollowersSpan): int
    requires FollowersParse(span)
  {
    match span
    case NoSpan => 0
    case Span(valuecount) => if valuecount.Some? then ParseInt(valuecount.value).value else 0
  }

  lemma FollowersOfCount(n: nat)
    ensures FollowersParse(Span(Some(NatToString(n)))) && FollowersOf(Span(Some(NatToString(n)))) == n
    ensures FollowersOf(Span(None)) == 0 && FollowersOf(NoSpan) == 0
  {
    ParseIntOfNat(n);
  }
}
