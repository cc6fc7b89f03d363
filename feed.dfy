/**
 * The discussion feed: one record per question or discussion post, each
 * field starting from its default and overwritten when the post has it,
 * with the view counter parsed from its text.
 */
module Feed {
  import opened Wrappers
  import opened Text
  import opened Dom
  import opened QA

  /** `views`: the integer when the counter text parses, else the substituted text itself. */
  datatype ViewCount = Count(n: int) | Raw(text: string)

  /** The counter text reduced to its first word, with every `k` and then every `K` replaced by "000". */
  function ViewsText(text: string): string
    requires HasNonSpace(text)
  {
    ReplaceChar(ReplaceChar(FirstToken(text), 'k', "000"), 'K', "000")
  }

  function Views(text: string): ViewCount
    requires HasNonSpace(text)
  {
    var t := ViewsText(text);
    var n := ParseInt(t);
    if n.Some? then Count(n.value) else Raw(t)
  }

  /** A whitespace-free first word followed by a space is what `split()[0]` returns. */
  lemma FirstTokenOfWords(a: string, c: char, b: string)
    requires a != [] && IsSpace(c)
    requires forall i | 0 <= i < |a| :: !IsSpace(a[i])
    ensures HasNonSpace(a + [c] + b) && FirstToken(a + [c] + b) == a
  {
    var s := a + [c] + b;
    assert !IsSpace(s[0]);
    assert StripLeft(s) == s;
    assert forall i | 0 <= i < |a| :: s[i] == a[i];
    assert s[|a|] == c;
    assert TakeToken(s) == s[..|a|] == a;
  }

  /** Only the first word of the counter text matters ("1.2k views" reads as "1.2k"). */
  lemma ViewsFirstWord(a: string, c: char, b: string)
    requires a != [] && IsSpace(c)
    requires forall i | 0 <= i < |a| :: !IsSpace(a[i])
    ensures HasNonSpace(a) && HasNonSpace(a + [c] + b) && Views(a + [c] + b) == Views(a)
  {
    FirstTokenOfWords(a, c, b);
    assert !IsSpace(a[0]);
  }

  lemma DigitsHaveNoLetters(s: string)
    requires AllDigits(s)
    ensures 'k' !in s && 'K' !in s && forall i | 0 <= i < |s| :: !IsSpace(s[i])
  {
    assert forall i | 0 <= i < |s| :: IsDigit(s[i]);
  }

  /** A counter text of one word is read without its whitespace handling. */
  lemma ViewsOfWord(s: string)
    requires s != [] && forall i | 0 <= i < |s| :: !IsSpace(s[i])
    ensures HasNonSpace(s) && ViewsText(s) == ReplaceChar(ReplaceChar(s, 'k', "000"), 'K', "000")
  {
    assert !IsSpace(s[0]);
  }

  /** A digit string reads as its decimal value. */
  lemma ViewsOfDigits(t: string)
    requires IsDigits(t)
    ensures HasNonSpace(t) && Views(t) == Count(DigitsValue(t))
  {
    DigitsHaveNoLetters(t);
    ViewsOfWord(t);
    assert ViewsText(t) == t;
    ParseIntOfDigits(t);
  }

  /** A plain count reads as its number. */
  lemma ViewsOfCount(n: nat)
    ensures HasNonSpace(NatToString(n)) && Views(NatToString(n)) == Count(n)
  {
    ViewsOfDigits(NatToString(n));
    DigitsValueOfNatToString(n);
  }

  /** A count in thousands, "<n>k", reads as n * 1000. */
  lemma ViewsOfThousands(n: nat)
    ensures HasNonSpace(NatToString(n) + "k") && Views(NatToString(n) + "k") == Count(n * 1000)
  {
    var digits := NatToString(n);
    var t := digits + "000";
    ThousandsText(digits);
    DigitsTimesThousand(digits);
    DigitsValueOfNatToString(n);
    assert DigitsValue(t) == n * 1000;
    ParseIntOfDigits(t);
    assert ParseInt(ViewsText(digits + "k")) == Some(n * 1000);
  }

  lemma ThousandsText(digits: string)
    requires IsDigits(digits)
    ensures HasNonSpace(digits + "k") && ViewsText(digits + "k") == digits + "000"
  {
    DigitsHaveNoLetters(digits);
    ThousandsOfWord(digits);
  }

  /**
   * A fractional count in thousands, "<whole>.<frac>k", does not parse and is
   * kept as the substituted text "<whole>.<frac>000" (so "2.5k" becomes "2.5000").
   */
  lemma ViewsOfFraction(whole: string, frac: string)
    requires IsDigits(whole) && IsDigits(frac)
    ensures HasNonSpace(whole + "." + frac + "k")
    ensures Views(whole + "." + frac + "k") == Raw(whole + "." + frac + "000")
  {
    var t := whole + "." + frac + "000";
    FractionText(whole, frac);
    assert t[0] == whole[0] && t[|whole|] == '.' && t[|t| - 1] == '0';
    ParseIntOfPointFails(t, |whole|);
  }

  lemma FractionText(whole: string, frac: string)
    requires IsDigits(whole) && IsDigits(frac)
    ensures HasNonSpace(whole + "." + frac + "k")
    ensures ViewsText(whole + "." + frac + "k") == whole + "." + frac + "000"
  {
    PointWord(whole, frac);
    ThousandsOfWord(whole + "." + frac);
  }

  /** "<whole>.<frac>" is a single word with no thousands suffix in it. */
  lemma PointWord(whole: string, frac: string)
    requires AllDigits(whole) && AllDigits(frac)
    ensures PlainWord(whole + "." + frac)
  {
    var a := whole + "." + frac;
    DigitsHaveNoLetters(whole);
    DigitsHaveNoLetters(frac);
    assert forall i | 0 <= i < |whole| :: a[i] == whole[i];
    assert forall i | |whole| < i < |a| :: a[i] == frac[i - |whole| - 1];
  }

  /** A word with neither whitespace nor a thousands suffix. */
  predicate PlainWord(a: string) {
    a != [] && forall i | 0 <= i < |a| :: !IsSpace(a[i]) && a[i] != 'k' && a[i] != 'K'
  }

  /** A plain word followed by `k` reads as the word followed by "000". */
  lemma ThousandsOfWord(a: string)
    requires PlainWord(a)
    ensures HasNonSpace(a + "k") && ViewsText(a + "k") == a + "000"
  {
    var s := a + "k";
    assert forall i | 0 <= i < |s| :: !IsSpace(s[i]) by {
      assert forall i | 0 <= i < |a| :: s[i] == a[i];
    }
    ViewsOfWord(s);
    assert 'k' !in a;
    ReplaceCharLast(a, 'k', "000");
    assert 'K' !in a + "000";
  }

  /** Replacing a character that occurs only at the end substitutes the end. */
  lemma ReplaceCharLast(a: string, c: char, rep: string)
    requires c !in a
    ensures ReplaceChar(a + [c], c, rep) == a + rep
  {
    ReplaceCharAppend(a, [c], c, rep);
    assert [c][1..] == [];
  }

  /** A post of the feed, as the parser finds its parts (each absent when the post lacks it). */
  datatype FeedPost = FeedPost(
    postedTime: Option<string>,
    tags: seq<Tag>,
    question: Option<string>,
    followers: FollowersSpan,
    views: Option<string>,
    author: Option<AuthorLink>,
    answer: Option<TextBox>)

  datatype FeedRecord = FeedRecord(
    postedTime: Option<string>,
    tags: seq<Tag>,
    questionText: Option<string>,
    followers: int,
    views: ViewCount,
    author: Author,
    answerText: Option<string>)

  /** The calls `int()` and `split()[0]` in the record's construction do not raise. */
  predicate PostParses(p: FeedPost) {
    FollowersParse(p.followers) && (p.views.Some? ==> HasNonSpace(p.views.value))
  }

  function RecordOf(p: FeedPost): FeedRecord
    requires PostParses(p)
  {
    FeedRecord(
      p.postedTime,
      p.tags,
      p.question,
      FollowersOf(p.followers),
      if p.views.Some? then Views(p.views.value) else Count(0),
      AuthorOf(p.author),
      if p.answer.Some? then Some(BoxText(p.answer.value)) else None)
  }

  /** `int(views_text)`, falling back to the text itself when it raises. */
  method ParseViews(text: string) returns (views: ViewCount)
    requires HasNonSpace(text)
    ensures views == Views(text)
  {
    var viewsText := ViewsText(text);
    var n := ParseInt(viewsText);
    if n.Some? {
      views := Count(n.value);
    } else {
      views := Raw(viewsText);
    }
  }

  /** The record of one post: start from the defaults and overwrite each field the post has. */
  method Record(block: FeedPost) returns (qaData: FeedRecord)
    requires PostParses(block)
    ensures qaData == RecordOf(block)
  {
    qaData := FeedRecord(None, [], None, 0, Count(0), Author(None, None), None);
    if block.postedTime.Some? {
      qaData := qaData.(postedTime := block.postedTime);
    }
    var tags := [];
    for t := 0 to |block.tags|
      invariant tags == block.tags[..t]
    {
      tags := tags + [block.tags[t]];
    }
    assert block.tags[..|block.tags|] == block.tags;
    qaData := qaData.(tags := tags);
    if block.question.Some? {
      qaData := qaData.(questionText := block.question);
    }
    if block.followers.Span? {
      qaData := qaData.(followers := FollowersOf(block.followers));
    }
    if block.views.Some? {
      var views := ParseViews(block.views.value);
      qaData := qaData.(views := views);
    }
    if block.author.Some? {
      qaData := qaData.(author := Author(Some(block.author.value.name), block.author.value.href));
    }
    if block.answer.Some? {
      var paragraphs := block.answer.value.paragraphs;
      if paragraphs != [] {
        qaData := qaData.(answerText := Some(Join(" ", paragraphs)));
      } else {
        qaData := qaData.(answerText := Some(block.answer.value.wholeText));
      }
    }
  }

  /** A post with none of the optional parts keeps every default. */
  lemma RecordDefaults(p: FeedPost)
    requires p.postedTime.None? && p.tags == [] && p.question.None? && p.followers.NoSpan?
    requires p.views.None? && p.author.None? && p.answer.None?
    ensures PostParses(p)
    ensures RecordOf(p) == FeedRecord(None, [], None, 0, Count(0), Author(None, None), None)
  {
  }

  /** Each post yields exactly one record, in post order: nothing is grouped or merged. */
  method DiscussionFeed(blocks: seq<FeedPost>) returns (questions: seq<FeedRecord>)
    requires forall i | 0 <= i < |blocks| :: PostParses(blocks[i])
    ensures |questions| == |blocks|
    ensures forall i | 0 <= i < |blocks| :: questions[i] == RecordOf(blocks[i])
  {
    ghost var records := seq(|blocks|, j requires 0 <= j < |blocks| => RecordOf(blocks[j]));
    questions := [];
    for i := 0 to |blocks|
      invariant questions == records[..i]
    {
      var qaData := Record(blocks[i]);
      questions := questions + [qaData];
      assert records[..i + 1] == records[..i] + [records[i]];
    }
    assert records[..|blocks|] == records;
  }
}
