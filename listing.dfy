/**
 * The listing page: its table of contents and its `h2`-delimited sections,
 * each holding the paragraphs, lists and header-width tables that follow
 * the heading up to the next `h2`.
 */
module Listing {
  import opened Wrappers
  import opened Dicts
  import opened Seqs
  import opened Dom
  import opened Tables

  /** One `li` of the contents list: the text of its anchor, if it has one. */
  datatype TocEntry = TocEntry(text: string)

  function TocEntryOf(anchorText: Option<string>): Option<TocEntry> {
    if anchorText.Some? then Some(TocEntry(anchorText.value)) else None
  }

  /** One entry per `li` that holds an anchor, in list order. */
  method TableOfContents(items: seq<Option<string>>) returns (toc: seq<TocEntry>)
    ensures toc == Pick(items, TocEntryOf)
  {
    toc := [];
    for i := 0 to |items|
      invariant toc == Pick(items[..i], TocEntryOf)
    {
      var a := items[i];
      if a.Some? {
        toc := toc + [TocEntry(a.value)];
      }
      PickSnoc(items, TocEntryOf, i);
    }
    assert items[..|items|] == items;
  }

  /** An entry is listed exactly when some `li` has an anchor with that text. */
  lemma TableOfContentsMembership(items: seq<Option<string>>, e: TocEntry)
    ensures e in Pick(items, TocEntryOf) <==> Some(e.text) in items
  {
    PickMembership(items, TocEntryOf, e);
    if Some(e.text) in items {
      var i :| 0 <= i < |items| && items[i] == Some(e.text);
      assert TocEntryOf(items[i]) == Some(e);
    }
  }

  /** A section's content item. */
  datatype Block =
    | TextBlock(text: string)
    | ItemsBlock(items: seq<string>)
    | DataBlock(data: seq<Dict<string>>)

  datatype Section = Section(heading: string, content: seq<Block>)

  /** An `h2` of the page: its text and the siblings that follow it. */
  datatype Heading = Heading(text: string, following: seq<Sibling>)

  /** The siblings before the next `h2`. */
  function UntilH2(s: seq<Sibling>): (r: seq<Sibling>)
    ensures |r| <= |s| && r == s[..|r|]
  {
    if s == [] || s[0].H2? then [] else [s[0]] + UntilH2(s[1..])
  }

  lemma {:induction false} UntilH2Is(s: seq<Sibling>, i: nat)
    requires i <= |s| && (i == |s| || s[i].H2?)
    requires forall j | 0 <= j < i :: !s[j].H2?
    ensures UntilH2(s) == s[..i]
  {
    if i > 0 {
      UntilH2Is(s[1..], i - 1);
    }
  }

  /** Every table before the next `h2` has a header row (the source indexes `rows[0]`). */
  predicate TablesHaveRows(s: seq<Sibling>) {
    forall i | 0 <= i < |s| :: s[i].TableNode? ==> |s[i].table| > 0
  }

  /**
   * The block a sibling contributes: a `p` its text, a `ul` its items, a
   * table its rows whose `td` count matches the header count. Other tags
   * contribute nothing. A table without rows is excluded by the callers'
   * preconditions and yields nothing here.
   */
  function BlockOf(s: Sibling): Option<Block> {
    match s
    case P(text) => Some(TextBlock(text))
    case Ul(items) => Some(ItemsBlock(items))
    case TableNode(t) =>
      if |t| > 0 then Some(DataBlock(Pick(t[1..], StrictRow(Texts(Ths(t[0])))))) else None
    case _ => None
  }

  method SectionContent(following: seq<Sibling>) returns (content: seq<Block>)
    requires TablesHaveRows(UntilH2(following))
    ensures content == Pick(UntilH2(following), BlockOf)
  {
    content := [];
    var i := 0;
    while i < |following| && !following[i].H2?
      invariant 0 <= i <= |following|
      invariant forall j | 0 <= j < i :: !following[j].H2?
      invariant content == Pick(following[..i], BlockOf)
    {
      var sibling := following[i];
      PickSnoc(following, BlockOf, i);
      if sibling.P? {
        content := content + [TextBlock(sibling.text)];
      } else if sibling.Ul? {
        content := content + [ItemsBlock(sibling.items)];
      } else if sibling.TableNode? {
        TableBeforeH2HasRows(following, i);
        var tableData := StrictTable(sibling.table);
        content := content + [DataBlock(tableData)];
      }
      i := i + 1;
    }
    UntilH2Is(following, i);
  }

  lemma TableBeforeH2HasRows(s: seq<Sibling>, i: nat)
    requires i < |s| && forall j | 0 <= j <= i :: !s[j].H2?
    requires TablesHaveRows(UntilH2(s)) && s[i].TableNode?
    ensures |s[i].table| > 0
  {
    UntilH2Prefix(s, i);
  }

  /** A sibling before the first `h2` lies inside the scanned prefix. */
  lemma {:induction false} UntilH2Prefix(s: seq<Sibling>, i: nat)
    requires i < |s| && forall j | 0 <= j <= i :: !s[j].H2?
    ensures i < |UntilH2(s)| && UntilH2(s)[i] == s[i]
  {
    if i > 0 {
      UntilH2Prefix(s[1..], i - 1);
    }
  }

  /** One section per `h2`, in document order, each with the content that follows its heading. */
  method Sections(headings: seq<Heading>) returns (sections: seq<Section>)
    requires forall i | 0 <= i < |headings| :: TablesHaveRows(UntilH2(headings[i].following))
    ensures |sections| == |headings|
    ensures forall i | 0 <= i < |headings| ::
      sections[i] == Section(headings[i].text, Pick(UntilH2(headings[i].following), BlockOf))
  {
    sections := [];
    for i := 0 to |headings|
      invariant |sections| == i
      invariant forall j | 0 <= j < i ::
        sections[j] == Section(headings[j].text, Pick(UntilH2(headings[j].following), BlockOf))
    {
      var content := SectionContent(headings[i].following);
      sections := sections + [Section(headings[i].text, content)];
    }
  }

  /** A section's content stops at the next `h2`: nothing after it contributes. */
  lemma SectionStopsAtNextH2(before: seq<Sibling>, heading: string, rest: seq<Sibling>)
    requires forall j | 0 <= j < |before| :: !before[j].H2?
    ensures UntilH2(before + [H2(heading)] + rest) == before
  {
    var s := before + [H2(heading)] + rest;
    UntilH2Is(s, |before|);
    assert s[..|before|] == before;
  }

  /** Tags other than `p`, `ul` and `table` (an `h4`, say) leave the content unchanged. */
  lemma SectionIgnoresOtherTags(a: seq<Sibling>, x: Sibling, b: seq<Sibling>)
    requires x.H4? || x.OtherTag?
    ensures Pick(a + [x] + b, BlockOf) == Pick(a + b, BlockOf)
  {
    PickAppend(a + [x], b, BlockOf);
    PickAppend(a, [x], BlockOf);
    PickAppend(a, b, BlockOf);
    assert Pick([x], BlockOf) == [] by {
      assert [x][..0] == [];
    }
  }

  /**
   * Each `p`, `ul` and table before the next `h2` contributes its block, in
   * sibling order: the block from sibling `i` follows the blocks of the
   * siblings before it.
   */
  lemma SectionBlockAt(following: seq<Sibling>, i: nat)
    requires i < |UntilH2(following)|
    requires TablesHaveRows(UntilH2(following))
    requires following[i].P? || following[i].Ul? || following[i].TableNode?
    ensures var s := UntilH2(following);
      |Pick(s[..i], BlockOf)| < |Pick(s, BlockOf)| &&
      Pick(s, BlockOf)[|Pick(s[..i], BlockOf)|] ==
        match following[i]
        case P(text) => TextBlock(text)
        case Ul(items) => ItemsBlock(items)
        case TableNode(t) => DataBlock(Pick(t[1..], StrictRow(Texts(Ths(t[0])))))
  {
    var s := UntilH2(following);
    assert s[i] == following[i];
    PickAt(s, BlockOf, i);
  }
}
