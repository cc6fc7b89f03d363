/**
 * The course page's sections assembled from their parts: the overview,
 * the eligibility content, the specialization list, the keyword-selected
 * syllabus and industry sections, and the IIT seat tables.
 */
module Course {
  import opened Wrappers
  import opened Text
  import opened Dicts
  import opened Seqs
  import opened Dom
  import opened Tables
  import opened Siblings
  import opened Faqs

  /*************************************************************************
   * Overview
   *************************************************************************/

  datatype Link = Link(title: string, url: string)

  /** An anchor is listed when it carries an `href`. */
  function LinkOf(a: AuthorLink): Option<Link> {
    if a.href.Some? then Some(Link(a.name, a.href.value)) else None
  }

  datatype Overview = Overview(description: seq<string>, importantLinks: seq<Link>, highlights: Highlights)

  /** `data["overview"]`: the long paragraphs among the first two, the anchors with an `href`, and the highlights. */
  method CourseOverview(paragraphs: seq<string>, anchors: seq<AuthorLink>, tables: seq<Table>) returns (overview: Overview)
    ensures overview.description == Pick(paragraphs[..Min(2, |paragraphs|)], LongParagraph)
    ensures overview.importantLinks == Pick(anchors, LinkOf)
    ensures overview.highlights == Highlights(["Particular", "Details"], HighlightsOf(tables))
  {
    var description := OverviewDescription(paragraphs);
    var links := [];
    for i := 0 to |anchors|
      invariant links == Pick(anchors[..i], LinkOf)
    {
      var a := anchors[i];
      if a.href.Some? {
        links := links + [Link(a.name, a.href.value)];
      }
      PickSnoc(anchors, LinkOf, i);
    }
    assert anchors[..|anchors|] == anchors;
    var highlights := OverviewHighlights(tables);
    overview := Overview(description, links, highlights);
  }

  /** A link is listed exactly when some anchor has that text and `href`. */
  lemma ImportantLinksMembership(anchors: seq<AuthorLink>, l: Link)
    ensures l in Pick(anchors, LinkOf) <==> AuthorLink(l.title, Some(l.url)) in anchors
  {
    PickMembership(anchors, LinkOf, l);
    if AuthorLink(l.title, Some(l.url)) in anchors {
      var i :| 0 <= i < |anchors| && anchors[i] == AuthorLink(l.title, Some(l.url));
      assert LinkOf(anchors[i]) == Some(l);
    }
  }

  /*************************************************************************
   * Eligibility
   *************************************************************************/

  /**
   * An element of the eligibility section, in document order: a heading
   * (`h1`..`h6`), a table, or a `p`/`div`, which the source matches but
   * does not use.
   */
  datatype EligibilityElem = HeadingElem(text: string) | TableElem(table: Table) | OtherElem

  datatype EligibilityItem = TextItem(text: string) | TableItem(keyed: KeyedTable) | FaqItem(faq: QAPair)

  function EligibilityItemOf(e: EligibilityElem): Option<EligibilityItem> {
    match e
    case HeadingElem(text) => Some(TextItem(text))
    case TableElem(table) => Some(TableItem(KeyedTableOf(table)))
    case OtherElem => None
  }

  function FaqItems(faqs: seq<QAPair>): (items: seq<EligibilityItem>)
    ensures |items| == |faqs| && forall i | 0 <= i < |faqs| :: items[i] == FaqItem(faqs[i])
  {
    seq(|faqs|, i requires 0 <= i < |faqs| => FaqItem(faqs[i]))
  }

  /** `data["eligibility_admission"]`: headings and keyed tables in document order, then the FAQs. */
  method EligibilityContent(elems: seq<EligibilityElem>, faqBlocks: seq<FaqBlock>) returns (content: seq<EligibilityItem>)
    ensures content == Pick(elems, EligibilityItemOf) + FaqItems(Pick(faqBlocks, EligibilityFaqOf))
  {
    content := [];
    for i := 0 to |elems|
      invariant content == Pick(elems[..i], EligibilityItemOf)
    {
      match elems[i] {
        case HeadingElem(text) =>
          content := content + [TextItem(text)];
        case TableElem(table) =>
          var keyed := HeaderKeyedTable(table);
          content := content + [TableItem(keyed)];
        case OtherElem =>
      }
      PickSnoc(elems, EligibilityItemOf, i);
    }
    assert elems[..|elems|] == elems;
    var faqs := EligibilityFaqs(faqBlocks);
    ghost var before := content;
    for i := 0 to |faqs|
      invariant content == before + FaqItems(faqs[..i])
    {
      content := content + [FaqItem(faqs[i])];
    }
    assert faqs[..|faqs|] == faqs;
  }

  /**
   * Every heading and every table contributes exactly one item, in
   * document order, ahead of all FAQ items; `p` and `div` contribute none.
   */
  lemma EligibilityContentItems(elems: seq<EligibilityElem>, i: nat)
    requires i < |elems| && !elems[i].OtherElem?
    ensures |Pick(elems[..i], EligibilityItemOf)| < |Pick(elems, EligibilityItemOf)|
    ensures Pick(elems, EligibilityItemOf)[|Pick(elems[..i], EligibilityItemOf)|] ==
      if elems[i].HeadingElem? then TextItem(elems[i].text) else TableItem(KeyedTableOf(elems[i].table))
  {
    PickAt(elems, EligibilityItemOf, i);
  }

  lemma EligibilityIgnoresOthers(a: seq<EligibilityElem>, b: seq<EligibilityElem>)
    ensures Pick(a + [OtherElem] + b, EligibilityItemOf) == Pick(a + b, EligibilityItemOf)
  {
    PickAppend(a + [OtherElem], b, EligibilityItemOf);
    PickAppend(a, [OtherElem], EligibilityItemOf);
    PickAppend(a, b, EligibilityItemOf);
    assert [OtherElem][..0] == [];
  }

  /*************************************************************************
   * Popular specializations list
   *************************************************************************/

  /** An `li` of the specialization box: its anchor's text if it has one with an `href`, and its `p` text. */
  datatype SpecializationLi = SpecializationLi(link: Option<string>, collegeCount: Option<string>)

  datatype Specialization = Specialization(name: string, collegeCount: Option<string>)

  function SpecializationOf(li: SpecializationLi): Option<Specialization> {
    if li.link.Some? then Some(Specialization(li.link.value, li.collegeCount)) else None
  }

  /** The specializations list, appended only when some `li` had a link. */
  method SpecializationList(lis: seq<SpecializationLi>) returns (block: Option<seq<Specialization>>)
    ensures block.None? <==> Pick(lis, SpecializationOf) == []
    ensures block.Some? ==> block.value == Pick(lis, SpecializationOf)
  {
    var specializations := [];
    for i := 0 to |lis|
      invariant specializations == Pick(lis[..i], SpecializationOf)
    {
      var link := lis[i].link;
      if link.Some? {
        specializations := specializations + [Specialization(link.value, lis[i].collegeCount)];
      }
      PickSnoc(lis, SpecializationOf, i);
    }
    assert lis[..|lis|] == lis;
    block := None;
    if specializations != [] {
      block := Some(specializations);
    }
  }

  /** The block is absent exactly when no `li` has a link; otherwise one entry per linked `li`. */
  lemma SpecializationListShape(lis: seq<SpecializationLi>)
    ensures Pick(lis, SpecializationOf) == [] <==> forall i | 0 <= i < |lis| :: lis[i].link.None?
    ensures forall s :: s in Pick(lis, SpecializationOf) <==> SpecializationLi(Some(s.name), s.collegeCount) in lis
  {
    forall s ensures s in Pick(lis, SpecializationOf) <==> SpecializationLi(Some(s.name), s.collegeCount) in lis {
      PickMembership(lis, SpecializationOf, s);
      if SpecializationLi(Some(s.name), s.collegeCount) in lis {
        var i :| 0 <= i < |lis| && lis[i] == SpecializationLi(Some(s.name), s.collegeCount);
        assert SpecializationOf(lis[i]) == Some(s);
      }
    }
    if exists i | 0 <= i < |lis| :: lis[i].link.Some? {
      var i :| 0 <= i < |lis| && lis[i].link.Some?;
      PickMembership(lis, SpecializationOf, SpecializationOf(lis[i]).value);
    }
  }

  /*************************************************************************
   * Keyword-selected headings: syllabus and industry sections
   *************************************************************************/

  /** `any(keyword in text for keyword in keywords)`. */
  predicate AnyKeyword(text: string, keywords: seq<string>) {
    exists k | k in keywords :: Contains(text, k)
  }

  /**
   * A candidate heading: its text, and what the document holds after it:
   * the next `p`, the next table, and the next `p` whose string mentions "Note -".
   */
  datatype FollowedHeading = FollowedHeading(text: string, nextP: Option<string>, nextTable: Option<Table>, nextNote: Option<string>)

  const SyllabusKeywords: seq<string> := [
    "BTech CSE Syllabus", "BTech Electrical Engineering Syllabus",
    "BTech Mechanical Engineering Syllabus", "BTech in Artificial Intelligence Syllabus",
    "B Tech Specialization-Wise Syllabus"]

  datatype SyllabusSection = SyllabusSection(title: string, description: string, semesterTables: seq<seq<string>>, note: Option<string>)

  function SyllabusSectionOf(h: FollowedHeading): Option<SyllabusSection> {
    if AnyKeyword(h.text, SyllabusKeywords) then
      Some(SyllabusSection(
        h.text,
        h.nextP.GetOr(""),
        if h.nextTable.Some? then Pick(h.nextTable.value, RawRowOf) else [],
        h.nextNote))
    else None
  }

  /** One section per `h2`/`h3` that names a specialization syllabus, with its verbatim table. */
  method SyllabusSections(headings: seq<FollowedHeading>) returns (specializations: seq<SyllabusSection>)
    ensures specializations == Pick(headings, SyllabusSectionOf)
  {
    specializations := [];
    for i := 0 to |headings|
      invariant specializations == Pick(headings[..i], SyllabusSectionOf)
    {
      var heading := headings[i];
      if AnyKeyword(heading.text, SyllabusKeywords) {
        var section := SyllabusSection(heading.text, "", [], None);
        if heading.nextP.Some? {
          section := section.(description := heading.nextP.value);
        }
        if heading.nextTable.Some? {
          var tableData := RawTable(heading.nextTable.value);
          if tableData != [] {
            section := section.(semesterTables := tableData);
          }
        }
        if heading.nextNote.Some? {
          section := section.(note := heading.nextNote);
        }
        specializations := specializations + [section];
      }
      PickSnoc(headings, SyllabusSectionOf, i);
    }
    assert headings[..|headings|] == headings;
  }

  /**
   * A section is listed exactly for a heading naming one of the syllabus
   * keywords; its semester table has no empty row.
   */
  lemma SyllabusSectionsMembership(headings: seq<FollowedHeading>, s: SyllabusSection)
    ensures s in Pick(headings, SyllabusSectionOf) <==>
      exists i | 0 <= i < |headings| :: AnyKeyword(headings[i].text, SyllabusKeywords) && SyllabusSectionOf(headings[i]) == Some(s)
    ensures s in Pick(headings, SyllabusSectionOf) ==>
      AnyKeyword(s.title, SyllabusKeywords) && forall r | r in s.semesterTables :: r != []
  {
    PickMembership(headings, SyllabusSectionOf, s);
    if s in Pick(headings, SyllabusSectionOf) {
      var i :| 0 <= i < |headings| && SyllabusSectionOf(headings[i]) == Some(s);
      SyllabusSectionRows(headings[i], s);
    }
  }

  lemma SyllabusSectionRows(h: FollowedHeading, s: SyllabusSection)
    requires SyllabusSectionOf(h) == Some(s)
    ensures AnyKeyword(s.title, SyllabusKeywords) && forall r | r in s.semesterTables :: r != []
  {
    if h.nextTable.Some? {
      forall r | r in s.semesterTables ensures r != [] {
        PickMembership(h.nextTable.value, RawRowOf, r);
      }
    }
  }

  const IndustryKeywords: seq<string> := [
    "IT & Software", "Automotive", "Aerospace", "Electrical & Electronics", "Mechanical", "Civil"]

  /** The industry's name: the heading without "B Tech Jobs" and "BTech Jobs", stripped. */
  function IndustryName(text: string): string {
    Strip(RemoveAll(RemoveAll(text, "B Tech Jobs"), "BTech Jobs"))
  }

  /** A heading mentioning neither phrase keeps its whole (stripped) text as the name. */
  lemma IndustryNamePlain(text: string)
    requires !Contains(text, "B Tech Jobs") && !Contains(text, "BTech Jobs")
    ensures IndustryName(text) == Strip(text)
  {
    RemoveAllAbsent(text, "B Tech Jobs");
    RemoveAllAbsent(text, "BTech Jobs");
  }

  datatype IndustrySection = IndustrySection(industry: string, description: string, jobProfiles: seq<JobProfile>, note: Option<string>)

  function IndustrySectionOf(h: FollowedHeading): Option<IndustrySection> {
    if AnyKeyword(h.text, IndustryKeywords) then
      Some(IndustrySection(
        IndustryName(h.text),
        h.nextP.GetOr(""),
        if h.nextTable.Some? then Pick(DataRows(h.nextTable.value), JobProfileOf) else [],
        h.nextNote))
    else None
  }

  /** One section per `h4` naming one of the industries, with the job profiles of the table after it. */
  method IndustrySections(headings: seq<FollowedHeading>) returns (industrySections: seq<IndustrySection>)
    ensures industrySections == Pick(headings, IndustrySectionOf)
  {
    industrySections := [];
    for i := 0 to |headings|
      invariant industrySections == Pick(headings[..i], IndustrySectionOf)
    {
      var heading := headings[i];
      if AnyKeyword(heading.text, IndustryKeywords) {
        var section := IndustrySection(IndustryName(heading.text), "", [], None);
        if heading.nextP.Some? {
          section := section.(description := heading.nextP.value);
        }
        if heading.nextTable.Some? {
          var profiles := JobProfiles(heading.nextTable.value);
          section := section.(jobProfiles := profiles);
        }
        if heading.nextNote.Some? {
          section := section.(note := heading.nextNote);
        }
        industrySections := industrySections + [section];
      }
      PickSnoc(headings, IndustrySectionOf, i);
    }
    assert headings[..|headings|] == headings;
  }

  /** A section is listed exactly for a heading naming one of the industries, in heading order. */
  lemma IndustrySectionsMembership(headings: seq<FollowedHeading>, i: nat)
    requires i < |headings| && AnyKeyword(headings[i].text, IndustryKeywords)
    ensures |Pick(headings[..i], IndustrySectionOf)| < |Pick(headings, IndustrySectionOf)|
    ensures Pick(headings, IndustrySectionOf)[|Pick(headings[..i], IndustrySectionOf)|].industry == IndustryName(headings[i].text)
  {
    PickAt(headings, IndustrySectionOf, i);
  }

  /*************************************************************************
   * IIT seat tables
   *************************************************************************/

  /** An `h4` of the exams section and the table that follows it, if any. */
  datatype SeatsHeading = SeatsHeading(text: string, nextTable: Option<Table>)

  predicate IsSeatsHeading(text: string) {
    Contains(text, "IIT") && Contains(text, "BTech Seats")
  }

  function IitName(text: string): string {
    Strip(RemoveAll(text, "BTech Seats"))
  }

  function SeatsEntryOf(h: SeatsHeading): Option<(string, seq<Dict<string>>)> {
    if IsSeatsHeading(h.text) then
      Some((IitName(h.text), if h.nextTable.Some? then CutoffRowsOf(h.nextTable.value) else []))
    else None
  }

  /** No seat table has a data row wider than its header list (the source indexes `headers[i]`). */
  predicate SeatTablesFit(h4s: seq<SeatsHeading>) {
    forall i | 0 <= i < |h4s| :: IsSeatsHeading(h4s[i].text) && h4s[i].nextTable.Some? ==>
      forall j | 1 <= j < |h4s[i].nextTable.value| :: |Tds(h4s[i].nextTable.value[j])| <= |HeaderTexts(h4s[i].nextTable.value)|
  }

  /** `data["iit_btech_seats"]`: the seat rows of each IIT heading, keyed by the institute's name. */
  method IitSeats(h4s: seq<SeatsHeading>) returns (iitSeats: Dict<seq<Dict<string>>>)
    requires SeatTablesFit(h4s)
    ensures iitSeats == Assign(Pick(h4s, SeatsEntryOf))
  {
    iitSeats := [];
    for i := 0 to |h4s|
      invariant iitSeats == Assign(Pick(h4s[..i], SeatsEntryOf))
    {
      var h4 := h4s[i];
      PickSnoc(h4s, SeatsEntryOf, i);
      if IsSeatsHeading(h4.text) {
        var iitName := IitName(h4.text);
        var seats := [];
        if h4.nextTable.Some? {
          seats := CutoffTable(h4.nextTable.value);
        }
        assert SeatsEntryOf(h4) == Some((iitName, seats));
        AssignSnoc(Pick(h4s[..i], SeatsEntryOf), iitName, seats);
        iitSeats := Put(iitSeats, iitName, seats);
      } else {
        assert Pick(h4s[..i + 1], SeatsEntryOf) == Pick(h4s[..i], SeatsEntryOf);
      }
    }
    assert h4s[..|h4s|] == h4s;
  }

  /**
   * The keys are the names of the IIT headings, each once; when two
   * headings give the same name, the later one's seats win.
   */
  lemma IitSeatsKeys(h4s: seq<SeatsHeading>, i: nat)
    requires i < |h4s| && IsSeatsHeading(h4s[i].text)
    requires forall j | i < j < |h4s| :: IsSeatsHeading(h4s[j].text) ==> IitName(h4s[j].text) != IitName(h4s[i].text)
    ensures UniqueKeys(Assign(Pick(h4s, SeatsEntryOf)))
    ensures Get(Assign(Pick(h4s, SeatsEntryOf)), IitName(h4s[i].text)) == Some(SeatsEntryOf(h4s[i]).value.1)
  {
    AssignKeys(Pick(h4s, SeatsEntryOf));
    AssignPickLastWins(h4s, SeatsEntryOf, i);
  }
}
