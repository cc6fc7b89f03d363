/**
 * FAQ question/answer pairing. An FAQ block holds spans (the question is
 * the second one); its answer is the next `div` sibling with the answer
 * class, whose text is its paragraphs space-joined, or its whole text
 * when it has no paragraphs.
 */
module Faqs {
  import opened Wrappers
  import opened Text
  import opened Seqs
  import opened Dom
  import opened Tables

  /** A `span`: its `.string` (present only when the span holds a single string) and its text. */
  datatype FaqSpan = FaqSpan(str: Option<string>, text: string)

  /** The answer `div`: its own text, its `cmsAContent` child if any, and the tables inside it. */
  datatype AnswerDiv = AnswerDiv(box: TextBox, content: Option<TextBox>, tables: seq<Table>)

  /** One FAQ block: its spans in document order and the answer `div` that follows it, if any. */
  datatype FaqBlock = FaqBlock(spans: seq<FaqSpan>, answer: Option<AnswerDiv>)

  /** An eligibility FAQ: both fields present and non-empty. */
  datatype QAPair = QAPair(question: string, answer: string)

  type TableRows = seq<seq<string>>

  /** A section FAQ; `tables` is `None` when the key is absent from the item. */
  datatype SectionFaq = SectionFaq(question: string, answer: Option<string>, tables: Option<seq<TableRows>>)

  /*************************************************************************
   * Eligibility FAQs
   *************************************************************************/

  /** A span whose string, stripped, starts with "Q:". */
  predicate IsQuestionMarker(s: FaqSpan) {
    s.str.Some? && s.str.value != "" && StartsWith(Strip(s.str.value), "Q:")
  }

  predicate HasQuestionMarker(spans: seq<FaqSpan>) {
    exists i | 0 <= i < |spans| :: IsQuestionMarker(spans[i])
  }

  /** The question: the second span's text, when a "Q:" span exists and there are at least two spans. */
  function EligibilityQuestion(b: FaqBlock): Option<string> {
    if HasQuestionMarker(b.spans) && |b.spans| > 1 then Some(b.spans[1].text) else None
  }

  /** The answer: the answer `div`'s text, or "" without one. */
  function EligibilityAnswer(b: FaqBlock): string {
    if b.answer.Some? then BoxText(b.answer.value.box) else ""
  }

  function EligibilityFaqOf(b: FaqBlock): Option<QAPair> {
    var q := EligibilityQuestion(b);
    var a := EligibilityAnswer(b);
    if q.Some? && q.value != "" && a != "" then Some(QAPair(q.value, a)) else None
  }

  method EligibilityFaqs(blocks: seq<FaqBlock>) returns (faqs: seq<QAPair>)
    ensures faqs == Pick(blocks, EligibilityFaqOf)
  {
    faqs := [];
    for i := 0 to |blocks|
      invariant faqs == Pick(blocks[..i], EligibilityFaqOf)
    {
      var faq := blocks[i];
      var questionText: Option<string> := None;
      if HasQuestionMarker(faq.spans) {
        var spans := faq.spans;
        if |spans| > 1 {
          questionText := Some(spans[1].text);
        }
      }
      var answerText := "";
      if faq.answer.Some? {
        var paragraphs := faq.answer.value.box.paragraphs;
        if paragraphs != [] {
          answerText := Join(" ", paragraphs);
        } else {
          answerText := faq.answer.value.box.wholeText;
        }
      }
      assert questionText == EligibilityQuestion(faq) && answerText == EligibilityAnswer(faq);
      PickSnoc(blocks, EligibilityFaqOf, i);
      if questionText.Some? && questionText.value != "" && answerText != "" {
        faqs := faqs + [QAPair(questionText.value, answerText)];
      }
    }
    assert blocks[..|blocks|] == blocks;
  }

  /**
   * A pair is emitted exactly when some block has a "Q:" span, a non-empty
   * second span giving the question, and an answer `div` whose text is
   * the non-empty answer. A block without an answer `div` yields nothing.
   */
  lemma EligibilityFaqsMembership(blocks: seq<FaqBlock>, f: QAPair)
    ensures f in Pick(blocks, EligibilityFaqOf) <==>
      exists i | 0 <= i < |blocks| ::
        HasQuestionMarker(blocks[i].spans) && |blocks[i].spans| > 1 &&
        blocks[i].spans[1].text == f.question != "" &&
        blocks[i].answer.Some? && BoxText(blocks[i].answer.value.box) == f.answer != ""
  {
    PickMembership(blocks, EligibilityFaqOf, f);
  }

  /** The answer is empty, and the block dropped, exactly when the answer `div` has no text. */
  lemma EligibilityAnswerEmpty(b: FaqBlock)
    ensures EligibilityAnswer(b) == "" <==>
      b.answer.None? ||
      (b.answer.value.box.paragraphs == [] && b.answer.value.box.wholeText == "") ||
      b.answer.value.box.paragraphs == [""]
  {
    if b.answer.Some? {
      BoxTextEmptyIff(b.answer.value.box);
    }
  }

  /*************************************************************************
   * Section FAQs (specializations, syllabus, salary)
   *************************************************************************/

  /** The question: the second span's text, when there are at least two spans. */
  function SectionQuestion(b: FaqBlock): Option<string> {
    if |b.spans| >= 2 then Some(b.spans[1].text) else None
  }

  /** The answer: the text of the `cmsAContent` child of the answer `div`, or "" without either. */
  function SectionAnswer(b: FaqBlock): string {
    if b.answer.Some? && b.answer.value.content.Some? then BoxText(b.answer.value.content.value) else ""
  }

  function NoneIfEmpty(s: string): (r: Option<string>)
    ensures r.None? <==> s == ""
    ensures r.Some? ==> r.value == s
  {
    if s != "" then Some(s) else None
  }

  function SectionFaqOf(b: FaqBlock): Option<SectionFaq> {
    var q := SectionQuestion(b);
    if q.Some? && q.value != "" then Some(SectionFaq(q.value, NoneIfEmpty(SectionAnswer(b)), None)) else None
  }

  /** The `questions` item of a section: present only when at least one FAQ was found. */
  function QuestionsBlock(faqs: seq<SectionFaq>): (r: Option<seq<SectionFaq>>)
    ensures r.None? <==> faqs == []
    ensures r.Some? ==> r.value == faqs
  {
    if faqs != [] then Some(faqs) else None
  }

  /** The FAQs of the specializations and syllabus sections: questions and answers, no tables. */
  method SectionFaqs(blocks: seq<FaqBlock>) returns (questions: Option<seq<SectionFaq>>)
    ensures questions == QuestionsBlock(Pick(blocks, SectionFaqOf))
  {
    var faqs := [];
    for i := 0 to |blocks|
      invariant faqs == Pick(blocks[..i], SectionFaqOf)
    {
      var faqBlock := blocks[i];
      var questionText: Option<string> := None;
      if |faqBlock.spans| >= 2 {
        questionText := Some(faqBlock.spans[1].text);
      }
      var answerText := "";
      if faqBlock.answer.Some? {
        var answerContent := faqBlock.answer.value.content;
        if answerContent.Some? {
          answerText := BoxText(answerContent.value);
        }
      }
      assert questionText == SectionQuestion(faqBlock) && answerText == SectionAnswer(faqBlock);
      PickSnoc(blocks, SectionFaqOf, i);
      if questionText.Some? && questionText.value != "" {
        faqs := faqs + [SectionFaq(questionText.value, if answerText != "" then Some(answerText) else None, None)];
      }
    }
    assert blocks[..|blocks|] == blocks;
    questions := None;
    if faqs != [] {
      questions := Some(faqs);
    }
  }

  /**
   * An FAQ is emitted exactly when a block has at least two spans and a
   * non-empty second span; its answer is `None` exactly when the answer text is empty.
   */
  lemma SectionFaqsMembership(blocks: seq<FaqBlock>, f: SectionFaq)
    ensures f in Pick(blocks, SectionFaqOf) <==>
      f.tables.None? &&
      exists i | 0 <= i < |blocks| ::
        |blocks[i].spans| >= 2 && blocks[i].spans[1].text == f.question != "" &&
        (f.answer.None? <==> SectionAnswer(blocks[i]) == "") &&
        (f.answer.Some? ==> f.answer.value == SectionAnswer(blocks[i]))
  {
    PickMembership(blocks, SectionFaqOf, f);
    if f.tables.None? && exists i | 0 <= i < |blocks| ::
        |blocks[i].spans| >= 2 && blocks[i].spans[1].text == f.question != "" &&
        (f.answer.None? <==> SectionAnswer(blocks[i]) == "") &&
        (f.answer.Some? ==> f.answer.value == SectionAnswer(blocks[i]))
    {
      var i :| 0 <= i < |blocks| &&
        |blocks[i].spans| >= 2 && blocks[i].spans[1].text == f.question != "" &&
        (f.answer.None? <==> SectionAnswer(blocks[i]) == "") &&
        (f.answer.Some? ==> f.answer.value == SectionAnswer(blocks[i]));
      assert SectionFaqOf(blocks[i]) == Some(f);
    }
  }

  /** When every block carries a question, there is one FAQ per block, in block order. */
  lemma SectionFaqsOnePerBlock(blocks: seq<FaqBlock>)
    requires forall i | 0 <= i < |blocks| :: |blocks[i].spans| >= 2 && blocks[i].spans[1].text != ""
    ensures |Pick(blocks, SectionFaqOf)| == |blocks|
    ensures forall i | 0 <= i < |blocks| :: Pick(blocks, SectionFaqOf)[i].question == blocks[i].spans[1].text
  {
    PickKeepsAll(blocks, SectionFaqOf);
  }

  /*************************************************************************
   * Salary FAQs, with the tables of their answers
   *************************************************************************/

  /** The non-empty verbatim tables inside a block's own answer `div`. */
  function BlockTables(b: FaqBlock): seq<TableRows> {
    if b.answer.Some? then Pick(b.answer.value.tables, AnswerTableOf) else []
  }

  function SalaryFaqOf(b: FaqBlock): Option<SectionFaq> {
    var q := SectionQuestion(b);
    var tables := BlockTables(b);
    if q.Some? && q.value != "" then
      Some(SectionFaq(q.value, NoneIfEmpty(SectionAnswer(b)), if tables != [] then Some(tables) else None))
    else None
  }

  /**
   * The salary section's FAQs. Each item's `tables` are those of its own
   * answer `div` (see the findings: the source reuses the previous block's).
   */
  method SalaryFaqs(blocks: seq<FaqBlock>) returns (questions: Option<seq<SectionFaq>>)
    ensures questions == QuestionsBlock(Pick(blocks, SalaryFaqOf))
  {
    var faqs := [];
    for i := 0 to |blocks|
      invariant faqs == Pick(blocks[..i], SalaryFaqOf)
    {
      var faqBlock := blocks[i];
      var questionText: Option<string> := None;
      if |faqBlock.spans| >= 2 {
        questionText := Some(faqBlock.spans[1].text);
      }
      var answerText := "";
      var answerTables: seq<TableRows> := [];
      if faqBlock.answer.Some? {
        var answerContent := faqBlock.answer.value.content;
        if answerContent.Some? {
          answerText := BoxText(answerContent.value);
        }
        answerTables := AnswerTables(faqBlock.answer.value.tables);
      }
      assert questionText == SectionQuestion(faqBlock) && answerText == SectionAnswer(faqBlock);
      assert answerTables == BlockTables(faqBlock);
      PickSnoc(blocks, SalaryFaqOf, i);
      if questionText.Some? && questionText.value != "" {
        var faqItem := SectionFaq(questionText.value, if answerText != "" then Some(answerText) else None, None);
        if answerTables != [] {
          faqItem := faqItem.(tables := Some(answerTables));
        }
        faqs := faqs + [faqItem];
      }
    }
    assert blocks[..|blocks|] == blocks;
    questions := None;
    if faqs != [] {
      questions := Some(faqs);
    }
  }

  /**
   * A salary FAQ carries `tables` exactly when its own answer `div` holds a
   * table with at least one non-empty row, and then they are those tables.
   */
  lemma SalaryFaqTables(b: FaqBlock)
    requires SalaryFaqOf(b).Some?
    ensures SalaryFaqOf(b).value.tables.Some? <==>
      b.answer.Some? && exists t | t in b.answer.value.tables :: exists r | r in t :: r != []
    ensures SalaryFaqOf(b).value.tables.Some? ==>
      SalaryFaqOf(b).value.tables.value == Pick(b.answer.value.tables, AnswerTableOf)
  {
    if b.answer.Some? {
      AnswerTablesNonEmpty(b.answer.value.tables);
    }
  }

  /**
   * The salary loop as the source writes it: `answer_tables` is assigned
   * only when the block has an answer `div`, so a block without one sees
   * the value left by the last block that had one (and the name is unbound,
   * raising, if no earlier block had one). `carried` is that left-over value.
   */
  function SalaryFaqsAsWritten(blocks: seq<FaqBlock>, carried: Option<seq<TableRows>>): seq<SectionFaq>
    requires TablesBound(blocks, carried)
  {
    if blocks == [] then []
    else
      var b := blocks[0];
      var answerTables := if b.answer.Some? then Some(BlockTables(b)) else carried;
      var rest := SalaryFaqsAsWritten(blocks[1..], answerTables);
      var q := SectionQuestion(b);
      if q.Some? && q.value != "" then
        var tables := answerTables.value;
        [SectionFaq(q.value, NoneIfEmpty(SectionAnswer(b)), if tables != [] then Some(tables) else None)] + rest
      else rest
  }

  /** The source reads `answer_tables` only for blocks with a question; it must be bound by then. */
  predicate TablesBound(blocks: seq<FaqBlock>, carried: Option<seq<TableRows>>) {
    blocks == [] ||
    var answerTables := if blocks[0].answer.Some? then Some(BlockTables(blocks[0])) else carried;
    (SectionQuestion(blocks[0]).Some? && SectionQuestion(blocks[0]).value != "" ==> answerTables.Some?) &&
    TablesBound(blocks[1..], answerTables)
  }

  /**
   * A question block without an answer `div`, after one whose answer holds a
   * table: as written, the second FAQ gets the first one's table; as
   * intended, it gets none.
   */
  lemma SalaryFaqsStaleTables()
    ensures var withTable := FaqBlock([FaqSpan(Some("Q:"), "Q:"), FaqSpan(None, "What is the salary?")],
        Some(AnswerDiv(TextBox(["It varies."], "It varies."), None, [[[Cell(Td, "Fresher", None)]]])));
      var noAnswer := FaqBlock([FaqSpan(Some("Q:"), "Q:"), FaqSpan(None, "Who hires?")], None);
      TablesBound([withTable, noAnswer], None) &&
      SalaryFaqsAsWritten([withTable, noAnswer], None)[1].tables == Some([[["Fresher"]]]) &&
      Pick([withTable, noAnswer], SalaryFaqOf)[1].tables == None
  {
    var table: Table := [[Cell(Td, "Fresher", None)]];
    var withTable := FaqBlock([FaqSpan(Some("Q:"), "Q:"), FaqSpan(None, "What is the salary?")],
        Some(AnswerDiv(TextBox(["It varies."], "It varies."), None, [table])));
    var noAnswer := FaqBlock([FaqSpan(Some("Q:"), "Q:"), FaqSpan(None, "Who hires?")], None);
    assert Pick(table, RawRowOf) == [["Fresher"]] by {
      assert Texts(table[0]) == ["Fresher"];
      assert table[..0] == [];
    }
    assert BlockTables(withTable) == [[["Fresher"]]] by {
      assert [table][..0] == [];
    }
    assert TablesBound([withTable, noAnswer][1..], Some([[["Fresher"]]])) by {
      assert [withTable, noAnswer][1..] == [noAnswer];
      assert [noAnswer][1..] == [];
    }
    assert [withTable, noAnswer][1..] == [noAnswer];
    assert SalaryFaqsAsWritten([noAnswer], Some([[["Fresher"]]]))[0].tables == Some([[["Fresher"]]]);
    PickAppend([withTable], [noAnswer], SalaryFaqOf);
    assert [withTable] + [noAnswer] == [withTable, noAnswer];
    assert Pick([noAnswer], SalaryFaqOf) == [SectionFaq("Who hires?", None, None)] by {
      assert [noAnswer][..0] == [];
    }
    assert Pick([withTable], SalaryFaqOf) != [] by {
      assert [withTable][..0] == [];
    }
  }
}
