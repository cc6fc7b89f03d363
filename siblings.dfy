/**
 * The bounded scans over sibling lists in the course-overview extractor:
 * "the next two non-empty paragraphs", "the paragraphs before the next
 * h4", and the overview's "first two paragraphs, if long enough".
 */
module Siblings {
  import opened Wrappers
  import opened Text
  import opened Seqs
  import opened Dom

  function NonEmptyParagraph(s: Sibling): Option<string> {
    if s.P? && s.text != "" then Some(s.text) else None
  }

  /**
   * The useful-links scan: walk the siblings that follow the anchor while
   * fewer than two items are found, collecting each non-empty `p` text.
   * The result is the first two non-empty paragraphs, or all of them if fewer.
   */
  method NextParagraphs(following: seq<Sibling>) returns (items: seq<string>)
    ensures var ps := Pick(following, NonEmptyParagraph); items == ps[..Min(2, |ps|)]
  {
    items := [];
    var linkCount := 0;
    var i := 0;
    while i < |following| && linkCount < 2
      invariant 0 <= i <= |following|
      invariant items == Pick(following[..i], NonEmptyParagraph)
      invariant linkCount == |items| <= 2
    {
      var next := following[i];
      if next.P? {
        var linkText := next.text;
        if linkText != "" {
          items := items + [linkText];
          linkCount := linkCount + 1;
        }
      }
      PickSnoc(following, NonEmptyParagraph, i);
      i := i + 1;
    }
    PickAppend(following[..i], following[i..], NonEmptyParagraph);
    assert following[..i] + following[i..] == following;
  }

  /** At most two items, each the text of a non-empty `p` among the following siblings. */
  lemma NextParagraphsItems(following: seq<Sibling>)
    ensures var ps := Pick(following, NonEmptyParagraph);
      forall t | t in ps[..Min(2, |ps|)] :: t != "" && exists i | 0 <= i < |following| :: following[i] == P(t)
  {
    var ps := Pick(following, NonEmptyParagraph);
    forall t | t in ps[..Min(2, |ps|)]
      ensures t != "" && exists i | 0 <= i < |following| :: following[i] == P(t)
    {
      PickMembership(following, NonEmptyParagraph, t);
    }
  }

  /** The siblings before the first `h4`. */
  function BeforeH4(s: seq<Sibling>): (r: seq<Sibling>)
    ensures |r| <= |s| && r == s[..|r|]
  {
    if s == [] || s[0].H4? then [] else [s[0]] + BeforeH4(s[1..])
  }

  lemma {:induction false} BeforeH4Is(s: seq<Sibling>, i: nat)
    requires i <= |s| && (i == |s| || s[i].H4?)
    requires forall j | 0 <= j < i :: !s[j].H4?
    ensures BeforeH4(s) == s[..i]
  {
    if i > 0 {
      BeforeH4Is(s[1..], i - 1);
    }
  }

  function ParagraphText(s: Sibling): Option<string> {
    if s.P? then Some(s.text) else None
  }

  /** The salary section's description: the `p` texts before the first `h4` sibling, space-joined. */
  method SalaryDescription(following: seq<Sibling>) returns (description: string)
    ensures description == Join(" ", Pick(BeforeH4(following), ParagraphText))
  {
    var parts: seq<string> := [];
    var i := 0;
    while i < |following| && !following[i].H4?
      invariant 0 <= i <= |following|
      invariant forall j | 0 <= j < i :: !following[j].H4?
      invariant parts == Pick(following[..i], ParagraphText)
    {
      if following[i].P? {
        parts := parts + [following[i].text];
      }
      PickSnoc(following, ParagraphText, i);
      i := i + 1;
    }
    BeforeH4Is(following, i);
    description := "";
    if parts != [] {
      description := Join(" ", parts);
    }
  }

  /** Nothing from the first `h4` on contributes to the description. */
  lemma {:induction false} SalaryDescriptionStopsAtH4(before: seq<Sibling>, heading: string, rest: seq<Sibling>)
    requires forall j | 0 <= j < |before| :: !before[j].H4?
    ensures BeforeH4(before + [H4(heading)] + rest) == before
  {
    var s := before + [H4(heading)] + rest;
    BeforeH4Is(s, |before|);
    assert s[..|before|] == before;
  }

  /** Without a `p` before the first `h4`, the description is the empty string. */
  lemma SalaryDescriptionEmpty(following: seq<Sibling>)
    requires forall j | 0 <= j < |BeforeH4(following)| :: !BeforeH4(following)[j].P?
    ensures Join(" ", Pick(BeforeH4(following), ParagraphText)) == ""
  {
    var b := BeforeH4(following);
    if Pick(b, ParagraphText) != [] {
      var t := Pick(b, ParagraphText)[0];
      PickMembership(b, ParagraphText, t);
    }
  }

  function LongParagraph(text: string): Option<string> {
    if |text| > 30 then Some(text) else None
  }

  /** The overview's `description`: of the first two paragraphs, those longer than 30 characters. */
  method OverviewDescription(paragraphs: seq<string>) returns (description: seq<string>)
    ensures description == Pick(paragraphs[..Min(2, |paragraphs|)], LongParagraph)
  {
    var firstTwo := paragraphs[..Min(2, |paragraphs|)];
    description := [];
    for i := 0 to |firstTwo|
      invariant description == Pick(firstTwo[..i], LongParagraph)
    {
      var text := firstTwo[i];
      if text != "" && |text| > 30 {
        description := description + [text];
      }
      PickSnoc(firstTwo, LongParagraph, i);
    }
    assert firstTwo[..|firstTwo|] == firstTwo;
  }

  /** At most two entries, each one of the first two paragraphs and longer than 30 characters. */
  lemma OverviewDescriptionBounds(paragraphs: seq<string>)
    ensures var d := Pick(paragraphs[..Min(2, |paragraphs|)], LongParagraph);
      |d| <= 2 && forall t | t in d :: |t| > 30 && t in paragraphs[..Min(2, |paragraphs|)]
  {
    var firstTwo := paragraphs[..Min(2, |paragraphs|)];
    forall t | t in Pick(firstTwo, LongParagraph) ensures |t| > 30 && t in firstTwo {
      PickMembership(firstTwo, LongParagraph, t);
    }
  }
}
