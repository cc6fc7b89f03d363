/**
 * The loop shape the scraper repeats for every filtered list: walk a list in
 * order and append one output item for each input the filter keeps.
 */
module Seqs {
  import opened Wrappers

  function Min(a: nat, b: nat): nat {
    if a <= b then a else b
  }

  /**
   * The items `f` keeps from `s`, in the order of `s`: the list a loop
   * `for x in s: if keep(x): out.append(make(x))` builds.
   */
  function Pick<A, B>(s: seq<A>, f: A -> Option<B>): (r: seq<B>)
    ensures |r| <= |s|
  {
    if s == [] then []
    else
      var last := f(s[|s| - 1]);
      Pick(s[..|s| - 1], f) + (if last.Some? then [last.value] else [])
  }

  /** One more step of the loop: the output grows by what `f` makes of item `i`, if anything. */
  lemma PickSnoc<A, B>(s: seq<A>, f: A -> Option<B>, i: nat)
    requires i < |s|
    ensures Pick(s[..i + 1], f) == Pick(s[..i], f) + (if f(s[i]).Some? then [f(s[i]).value] else [])
  {
    assert s[..i + 1][..i] == s[..i];
  }

  lemma {:induction false} PickAppend<A, B>(a: seq<A>, b: seq<A>, f: A -> Option<B>)
    ensures Pick(a + b, f) == Pick(a, f) + Pick(b, f)
  {
    if b == [] {
      assert a + b == a;
    } else {
      assert (a + b)[..|a + b| - 1] == a + b[..|b| - 1];
      PickAppend(a, b[..|b| - 1], f);
    }
  }

  /** Something is in the output exactly when some input item yields it. */
  lemma {:induction false} PickMembership<A, B>(s: seq<A>, f: A -> Option<B>, b: B)
    ensures b in Pick(s, f) <==> exists i | 0 <= i < |s| :: f(s[i]) == Some(b)
  {
    if s != [] {
      var init := s[..|s| - 1];
      PickMembership(init, f, b);
      if exists i | 0 <= i < |init| :: f(init[i]) == Some(b) {
        var i :| 0 <= i < |init| && f(init[i]) == Some(b);
        assert s[i] == init[i];
      }
      if exists i | 0 <= i < |s| :: f(s[i]) == Some(b) {
        var i :| 0 <= i < |s| && f(s[i]) == Some(b);
        if i < |init| {
          assert init[i] == s[i];
        }
      }
    }
  }

  /** The item kept from input `i` sits after exactly the items kept from inputs before `i`. */
  lemma PickAt<A, B>(s: seq<A>, f: A -> Option<B>, i: nat)
    requires i < |s| && f(s[i]).Some?
    ensures |Pick(s[..i], f)| < |Pick(s, f)|
    ensures Pick(s, f)[|Pick(s[..i], f)|] == f(s[i]).value
  {
    var upTo, after := s[..i + 1], s[i + 1..];
    assert s == upTo + after;
    PickAppend(upTo, after, f);
    PickSnoc(s, f, i);
  }

  /** The output splits around a kept item into what the inputs before and after it yield. */
  lemma PickSplit<A, B>(s: seq<A>, f: A -> Option<B>, i: nat)
    requires i < |s| && f(s[i]).Some?
    ensures Pick(s, f) == Pick(s[..i], f) + [f(s[i]).value] + Pick(s[i + 1..], f)
  {
    var upTo, after := s[..i + 1], s[i + 1..];
    assert s == upTo + after;
    PickAppend(upTo, after, f);
    PickSnoc(s, f, i);
  }

  /** When the filter keeps everything, the output is the input mapped item by item. */
  lemma {:induction false} PickKeepsAll<A, B>(s: seq<A>, f: A -> Option<B>)
    requires forall i | 0 <= i < |s| :: f(s[i]).Some?
    ensures |Pick(s, f)| == |s|
    ensures forall i | 0 <= i < |s| :: Pick(s, f)[i] == f(s[i]).value
  {
    if s != [] {
      PickKeepsAll(s[..|s| - 1], f);
    }
  }
}
