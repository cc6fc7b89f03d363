/**
 * The questions page: the counters of its stats table, and its answer
 * posts grouped under their question text in first-seen order.
 */
module QA {
  import opened Wrappers
  import opened Text
  import opened Dicts
  import opened Seqs
  import opened Dom

  /*************************************************************************
   * Stats
   *************************************************************************/

  const StatsKeys: seq<string> := ["Questions", "Discussions", "Active Users", "Followers"]

  /** The `b` inside a stats cell: its `valuecount` attribute and its text. */
  datatype CountTag = CountTag(valuecount: Option<string>, text: string)

  /** `valuecount or text`: the attribute unless it is missing or empty. */
  function StatValue(b: CountTag): (v: string)
    ensures b.valuecount.Some? && b.valuecount.value != "" ==> v == b.valuecount.value
    ensures b.valuecount.None? || b.valuecount.value == "" ==> v == b.text
  {
    if b.valuecount.Some? && b.valuecount.value != "" then b.valuecount.value else b.text
  }

  /** The stats entries from the first `n` cells zipped with the keys: one per cell holding a `b`. */
  function StatEntries(cells: seq<Option<CountTag>>, n: nat): seq<(string, string)>
    requires n <= Min(|StatsKeys|, |cells|)
  {
    if n == 0 then []
    else
      StatEntries(cells, n - 1) +
      (if cells[n - 1].Some? then [(StatsKeys[n - 1], StatValue(cells[n - 1].value))] else [])
  }

  /** An entry is present exactly for a zipped cell holding a `b`, with that cell's value; keys are unique. */
  lemma {:induction false} StatEntriesShape(cells: seq<Option<CountTag>>, n: nat)
    requires n <= Min(|StatsKeys|, |cells|)
    ensures UniqueKeys(StatEntries(cells, n))
    ensures forall e :: e in StatEntries(cells, n) <==>
      exists i | 0 <= i < n :: cells[i].Some? && e == (StatsKeys[i], StatValue(cells[i].value))
  {
    if n > 0 {
      StatEntriesShape(cells, n - 1);
      var prev := StatEntries(cells, n - 1);
      forall j | 0 <= j < |prev| ensures prev[j].0 != StatsKeys[n - 1] {
        assert prev[j] in prev;
        var i :| 0 <= i < n - 1 && cells[i].Some? && prev[j] == (StatsKeys[i], StatValue(cells[i].value));
      }
    }
  }

  /** `result["stats"]`: each key zipped with a cell that holds a count tag, in key order. */
  method Stats(cells: seq<Option<CountTag>>) returns (stats: Dict<string>)
    ensures stats == StatEntries(cells, Min(|StatsKeys|, |cells|))
  {
    stats := [];
    var n := Min(|StatsKeys|, |cells|);
    for i := 0 to n
      invariant stats == StatEntries(cells, i)
    {
      var key, cell := StatsKeys[i], cells[i];
      if cell.Some? {
        var value := if cell.value.valuecount.Some? && cell.value.valuecount.value != "" then cell.value.valuecount.value else cell.value.text;
        StatEntriesShape(cells, i);
        forall j | 0 <= j < |stats| ensures stats[j].0 != key {
          assert stats[j] in stats;
        }
        stats := Put(stats, key, value);
      }
    }
  }

  /*************************************************************************
   * Posts and their grouping
   *************************************************************************/

  /**
   * One answer post: the question text (absent when the post has no
   * question element), its tags, follower span, author anchor, answer
   * text, up/down vote anchor texts and posted time.
   */
  datatype Post = Post(
    question: Option<string>,
    tags: seq<Tag>,
    followers: FollowersSpan,
    author: Option<AuthorLink>,
    answer: Option<string>,
    upvote: Option<string>,
    downvote: Option<string>,
    postedTime: Option<string>)

  datatype Author = Author(name: Option<string>, profileUrl: Option<string>)

  datatype Answer = Answer(author: Author, answerText: Option<string>, upvotes: nat, downvotes: nat, postedTime: Option<string>)

  /** A question's accumulated entry: tags and followers from its first post, one answer per post. */
  datatype Group = Group(tags: seq<Tag>, followers: int, answers: seq<Answer>)

  datatype QuestionEntry = QuestionEntry(questionText: string, tags: seq<Tag>, followers: int, answers: seq<Answer>)

  /** A vote count: the anchor's text when it is all digits, else 0. */
  function VoteCount(el: Option<string>): nat {
    if el.Some? && IsDigits(el.value) then DigitsValue(el.value) else 0
  }

  /** A vote count is what Python's `int` makes of the digits, and 0 for anything else. */
  lemma VoteCountIsInt(el: Option<string>)
    ensures el.Some? && IsDigits(el.value) ==> ParseInt(el.value) == Some(VoteCount(el) as int)
    ensures el.None? || !IsDigits(el.value) ==> VoteCount(el) == 0
  {
    if el.Some? && IsDigits(el.value) {
      ParseIntOfDigits(el.value);
    }
  }

  function AuthorOf(a: Option<AuthorLink>): Author {
    if a.Some? then Author(Some(a.value.name), a.value.href) else Author(None, None)
  }

  function PostAnswer(p: Post): Answer {
    Answer(AuthorOf(p.author), p.answer, VoteCount(p.upvote), VoteCount(p.downvote), p.postedTime)
  }

  /** The follower counts that are read (those of posts with a question) parse as integers. */
  predicate PostsParse(posts: seq<Post>) {
    forall i | 0 <= i < |posts| :: posts[i].question.Some? ==> FollowersParse(posts[i].followers)
  }

  /** `questions_dict` after the loop over `posts`. */
  function Grouped(posts: seq<Post>): Dict<Group>
    requires PostsParse(posts)
  {
    if posts == [] then []
    else
      var d := Grouped(posts[..|posts| - 1]);
      var p := posts[|posts| - 1];
      if p.question.None? then d
      else
        var q := p.question.value;
        var g := if HasKey(d, q) then Get(d, q).value else Group(p.tags, FollowersOf(p.followers), []);
        Put(d, q, g.(answers := g.answers + [PostAnswer(p)]))
  }

  function Entries(d: Dict<Group>): (es: seq<QuestionEntry>)
    ensures |es| == |d|
    ensures forall i | 0 <= i < |d| :: es[i] == QuestionEntry(d[i].0, d[i].1.tags, d[i].1.followers, d[i].1.answers)
  {
    if d == [] then [] else [QuestionEntry(d[0].0, d[0].1.tags, d[0].1.followers, d[0].1.answers)] + Entries(d[1..])
  }

  /** `result["questions"]`: group the posts by question text, then list the groups in insertion order. */
  method Questions(posts: seq<Post>) returns (questions: seq<QuestionEntry>)
    requires PostsParse(posts)
    ensures questions == Entries(Grouped(posts))
  {
    var questionsDict: Dict<Group> := [];
    for i := 0 to |posts|
      invariant questionsDict == Grouped(posts[..i])
    {
      assert posts[..i + 1][..i] == posts[..i];
      var post := posts[i];
      if post.question.None? {
        continue;
      }
      var questionText := post.question.value;
      var followers := FollowersOf(post.followers);
      var upvotes := VoteCount(post.upvote);
      var downvotes := VoteCount(post.downvote);
      if Get(questionsDict, questionText).None? {
        questionsDict := Put(questionsDict, questionText, Group(post.tags, followers, []));
      }
      ghost var before := Grouped(posts[..i]);
      GetPut(before, questionText, Group(post.tags, followers, []), questionText);
      var data := Get(questionsDict, questionText).value;
      PutPut(before, questionText, Group(post.tags, followers, []),
        data.(answers := data.answers + [Answer(AuthorOf(post.author), post.answer, upvotes, downvotes, post.postedTime)]));
      questionsDict := Put(questionsDict, questionText,
        data.(answers := data.answers + [Answer(AuthorOf(post.author), post.answer, upvotes, downvotes, post.postedTime)]));
    }
    assert posts[..|posts|] == posts;
    questions := [];
    for i := 0 to |questionsDict|
      invariant questions == Entries(questionsDict[..i])
    {
      var (qText, data) := questionsDict[i];
      questions := questions + [QuestionEntry(qText, data.tags, data.followers, data.answers)];
    }
    assert questionsDict[..|questionsDict|] == questionsDict;
  }

  /** The question texts of the posts that have one, in post order. */
  function QuestionTexts(posts: seq<Post>): seq<string> {
    if posts == [] then []
    else
      var p := posts[|posts| - 1];
      QuestionTexts(posts[..|posts| - 1]) + (if p.question.Some? then [p.question.value] else [])
  }

  /** The distinct values of `xs`, each where it first occurs. */
  function Distinct(xs: seq<string>): (r: seq<string>)
    ensures forall x :: x in r <==> x in xs
    ensures forall i, j | 0 <= i < j < |r| :: r[i] != r[j]
  {
    if xs == [] then []
    else
      var d := Distinct(xs[..|xs| - 1]);
      var x := xs[|xs| - 1];
      assert forall y :: y in xs <==> y in xs[..|xs| - 1] || y == x;
      if x in d then d else d + [x]
  }

  /** The index of the first post with question `k`. */
  function FirstIndex(posts: seq<Post>, k: string): (r: Option<nat>)
    ensures r.None? <==> forall j | 0 <= j < |posts| :: posts[j].question != Some(k)
    ensures r.Some? ==>
      && r.value < |posts|
      && posts[r.value].question == Some(k)
      && forall j | 0 <= j < r.value :: posts[j].question != Some(k)
  {
    if posts == [] then None
    else
      var f := FirstIndex(posts[..|posts| - 1], k);
      if f.Some? then f
      else if posts[|posts| - 1].question == Some(k) then Some(|posts| - 1)
      else None
  }

  /** The answers of the posts with question `k`, in post order. */
  function AnswersFor(posts: seq<Post>, k: string): (r: seq<Answer>)
    ensures (forall j | 0 <= j < |posts| :: posts[j].question != Some(k)) ==> r == []
  {
    if posts == [] then []
    else
      var p := posts[|posts| - 1];
      AnswersFor(posts[..|posts| - 1], k) + (if p.question == Some(k) then [PostAnswer(p)] else [])
  }

  /**
   * One key per distinct question text, in order of first occurrence;
   * posts without a question are skipped.
   */
  lemma {:induction false} GroupedKeys(posts: seq<Post>)
    requires PostsParse(posts)
    ensures UniqueKeys(Grouped(posts))
    ensures Keys(Grouped(posts)) == Distinct(QuestionTexts(posts))
  {
    if posts != [] {
      var init, p := posts[..|posts| - 1], posts[|posts| - 1];
      GroupedKeys(init);
      var d := Grouped(init);
      if p.question.Some? {
        var q := p.question.value;
        var g := if HasKey(d, q) then Get(d, q).value else Group(p.tags, FollowersOf(p.followers), []);
        var v := g.(answers := g.answers + [PostAnswer(p)]);
        PutKeys(d, q, v);
        KeysPut(d, q, v);
        assert QuestionTexts(posts) == QuestionTexts(init) + [q];
      } else {
        assert QuestionTexts(posts) == QuestionTexts(init);
      }
    }
  }

  /** A key the dictionary lacks goes to the end of the key order; an existing one keeps its place. */
  lemma KeysPut<V>(d: Dict<V>, k: string, v: V)
    ensures HasKey(d, k) <==> k in Keys(d)
    ensures Keys(Put(d, k, v)) == if HasKey(d, k) then Keys(d) else Keys(d) + [k]
  {
    KeysHasKey(d, k);
    if HasKey(d, k) {
      KeysSameKeys(Put(d, k, v), d);
    } else {
      KeysSnoc(d, (k, v));
    }
  }

  lemma KeysHasKey<V>(d: Dict<V>, k: string)
    ensures HasKey(d, k) <==> k in Keys(d)
  {
    var ks := Keys(d);
    if k in ks {
      var j :| 0 <= j < |ks| && ks[j] == k;
      assert d[j].0 == k;
    }
    if HasKey(d, k) {
      var j :| 0 <= j < |d| && d[j].0 == k;
      assert ks[j] == k;
    }
  }

  lemma KeysSameKeys<V>(d: Dict<V>, e: Dict<V>)
    requires |d| == |e| && forall i | 0 <= i < |d| :: d[i].0 == e[i].0
    ensures Keys(d) == Keys(e)
  {
    assert forall i | 0 <= i < |d| :: Keys(d)[i] == Keys(e)[i];
  }

  lemma KeysSnoc<V>(d: Dict<V>, p: (string, V))
    ensures Keys(d + [p]) == Keys(d) + [p.0]
  {
    var d' := d + [p];
    assert forall i | 0 <= i < |d'| :: Keys(d')[i] == (Keys(d) + [p.0])[i];
  }

  /**
   * Each question's group holds the tags and follower count of its first
   * post and the answers of all its posts, in post order; a text no post
   * carries has no group.
   */
  lemma {:induction false} GroupedGet(posts: seq<Post>, k: string)
    requires PostsParse(posts)
    ensures var f := FirstIndex(posts, k);
      Get(Grouped(posts), k) ==
        if f.None? then None
        else Some(Group(posts[f.value].tags, FollowersOf(posts[f.value].followers), AnswersFor(posts, k)))
  {
    if posts != [] {
      var init, p := posts[..|posts| - 1], posts[|posts| - 1];
      GroupedGet(init, k);
      var d := Grouped(init);
      if p.question.Some? {
        var q := p.question.value;
        var g := if HasKey(d, q) then Get(d, q).value else Group(p.tags, FollowersOf(p.followers), []);
        var v := g.(answers := g.answers + [PostAnswer(p)]);
        GetPut(d, q, v, k);
        assert Grouped(posts) == Put(d, q, v);
        if k == q {
          assert AnswersFor(posts, k) == AnswersFor(init, k) + [PostAnswer(p)];
          if HasKey(d, q) {
            var f := FirstIndex(init, k).value;
            assert FirstIndex(posts, k) == Some(f) && posts[f] == init[f];
          } else {
            assert FirstIndex(posts, k) == Some(|init|) && posts[|init|] == p;
            assert AnswersFor(init, k) == [];
          }
        } else {
          assert AnswersFor(posts, k) == AnswersFor(init, k);
          assert FirstIndex(posts, k) == FirstIndex(init, k);
          if FirstIndex(init, k).Some? {
            assert posts[FirstIndex(init, k).value] == init[FirstIndex(init, k).value];
          }
        }
      } else {
        assert AnswersFor(posts, k) == AnswersFor(init, k);
        if FirstIndex(init, k).Some? {
          assert posts[FirstIndex(init, k).value] == init[FirstIndex(init, k).value];
        }
      }
    }
  }

  /** The sum of the answer counts over all groups. */
  function TotalAnswers(d: Dict<Group>): nat {
    if d == [] then 0 else |d[0].1.answers| + TotalAnswers(d[1..])
  }

  lemma {:induction false} TotalAnswersPut(d: Dict<Group>, k: string, g: Group)
    ensures TotalAnswers(Put(d, k, g)) + (if Get(d, k).Some? then |Get(d, k).value.answers| else 0) ==
      TotalAnswers(d) + |g.answers|
  {
    if d != [] && d[0].0 != k {
      TotalAnswersPut(d[1..], k, g);
      assert Put(d, k, g)[1..] == Put(d[1..], k, g);
    }
  }

  /** Every post with a question adds exactly one answer: no answer is lost or merged away. */
  lemma {:induction false} GroupedTotal(posts: seq<Post>)
    requires PostsParse(posts)
    ensures TotalAnswers(Grouped(posts)) == |QuestionTexts(posts)|
  {
    if posts != [] {
      var init, p := posts[..|posts| - 1], posts[|posts| - 1];
      GroupedTotal(init);
      var d := Grouped(init);
      if p.question.Some? {
        var q := p.question.value;
        var g := if HasKey(d, q) then Get(d, q).value else Group(p.tags, FollowersOf(p.followers), []);
        TotalAnswersPut(d, q, g.(answers := g.answers + [PostAnswer(p)]));
      }
    }
  }

  /*************************************************************************
   * The page
   *************************************************************************/

  datatype QAPage = QAPage(tagName: Option<string>, description: Option<string>, stats: Dict<string>, questions: seq<QuestionEntry>)

  /**
   * The questions page: nothing (`{}`) when no post loaded before the wait
   * gave up, else the tag heading, stats and grouped questions.
   */
  method ScrapeQA(loaded: bool, tagName: Option<string>, description: Option<string>,
                  cells: seq<Option<CountTag>>, posts: seq<Post>) returns (page: Option<QAPage>)
    requires PostsParse(posts)
    ensures !loaded <==> page.None?
    ensures page.Some? ==> page.value == QAPage(tagName, description,
      StatEntries(cells, Min(|StatsKeys|, |cells|)), Entries(Grouped(posts)))
  {
    if !loaded {
      return None;
    }
    var stats := Stats(cells);
    var questions := Questions(posts);
    page := Some(QAPage(tagName, description, stats, questions));
  }
}
