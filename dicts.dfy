/**
 * Python's `dict` with string keys as the scraper uses it: insertion-ordered,
 * one entry per key, and `d[k] = v` overwriting an existing key where it
 * stands or appending a new key at the end.
 */
module Dicts {
  import opened Wrappers
  import opened Seqs

  type Dict<V> = seq<(string, V)>

  predicate HasKey<V>(d: Dict<V>, k: string) {
    exists i | 0 <= i < |d| :: d[i].0 == k
  }

  predicate UniqueKeys<V>(d: Dict<V>) {
    forall i, j | 0 <= i < j < |d| :: d[i].0 != d[j].0
  }

  /** The keys in insertion order: `list(d)`. */
  function Keys<V>(d: Dict<V>): (ks: seq<string>)
    ensures |ks| == |d| && forall i | 0 <= i < |d| :: ks[i] == d[i].0
  {
    if d == [] then [] else [d[0].0] + Keys(d[1..])
  }

  /** `d.get(k)`. */
  function Get<V>(d: Dict<V>, k: string): (r: Option<V>)
    ensures r.Some? <==> HasKey(d, k)
  {
    if d == [] then None
    else if d[0].0 == k then Some(d[0].1)
    else
      var r := Get(d[1..], k);
      assert HasKey(d[1..], k) ==> HasKey(d, k);
      assert HasKey(d, k) ==> HasKey(d[1..], k) by {
        if HasKey(d, k) {
          var i :| 0 <= i < |d| && d[i].0 == k;
          assert d[1..][i - 1].0 == k;
        }
      }
      r
  }

  /** `d[k] = v`: overwrite in place when present, append otherwise. */
  function Put<V>(d: Dict<V>, k: string, v: V): (r: Dict<V>)
    ensures !HasKey(d, k) ==> r == d + [(k, v)]
    ensures HasKey(d, k) ==> |r| == |d| && forall i | 0 <= i < |d| :: r[i].0 == d[i].0
    ensures forall i | 0 <= i < |d| && d[i].0 != k :: r[i] == d[i]
  {
    if d == [] then [(k, v)]
    else if d[0].0 == k then [(k, v)] + d[1..]
    else
      assert HasKey(d[1..], k) <==> HasKey(d, k) by {
        if HasKey(d, k) {
          var i :| 0 <= i < |d| && d[i].0 == k;
          assert d[1..][i - 1].0 == k;
        }
      }
      [d[0]] + Put(d[1..], k, v)
  }

  lemma PutKeys<V>(d: Dict<V>, k: string, v: V)
    ensures UniqueKeys(d) ==> UniqueKeys(Put(d, k, v))
    ensures forall k' :: HasKey(Put(d, k, v), k') <==> HasKey(d, k') || k' == k
  {
    if HasKey(d, k) {
      PutKeysPresent(d, k, v);
    } else {
      PutKeysAbsent(d, k, v);
    }
  }

  lemma PutKeysPresent<V>(d: Dict<V>, k: string, v: V)
    requires HasKey(d, k)
    ensures UniqueKeys(d) ==> UniqueKeys(Put(d, k, v))
    ensures forall k' :: HasKey(Put(d, k, v), k') <==> HasKey(d, k') || k' == k
  {
    var r := Put(d, k, v);
    assert |r| == |d| && forall i | 0 <= i < |d| :: r[i].0 == d[i].0;
    forall k' ensures HasKey(r, k') <==> HasKey(d, k') {
      if HasKey(r, k') {
        var i :| 0 <= i < |r| && r[i].0 == k';
        assert d[i].0 == k';
      }
      if HasKey(d, k') {
        var i :| 0 <= i < |d| && d[i].0 == k';
        assert r[i].0 == k';
      }
    }
  }

  lemma PutKeysAbsent<V>(d: Dict<V>, k: string, v: V)
    requires !HasKey(d, k)
    ensures UniqueKeys(d) ==> UniqueKeys(Put(d, k, v))
    ensures forall k' :: HasKey(Put(d, k, v), k') <==> HasKey(d, k') || k' == k
  {
    var r := Put(d, k, v);
    assert r == d + [(k, v)];
    if UniqueKeys(d) {
      forall i, j | 0 <= i < j < |r| ensures r[i].0 != r[j].0 {
        assert r[i] == d[i];
        if j < |d| {
          assert r[j] == d[j];
        }
      }
    }
    forall k' ensures HasKey(r, k') <==> HasKey(d, k') || k' == k {
      if HasKey(d, k') {
        var i :| 0 <= i < |d| && d[i].0 == k';
        assert r[i].0 == k';
      }
      if HasKey(r, k') {
        var i :| 0 <= i < |r| && r[i].0 == k';
        if i < |d| {
          assert d[i].0 == k';
        }
      }
      assert r[|d|].0 == k;
    }
  }

  lemma {:induction false} GetPut<V>(d: Dict<V>, k: string, v: V, k': string)
    ensures Get(Put(d, k, v), k') == if k' == k then Some(v) else Get(d, k')
  {
    if d != [] && d[0].0 != k {
      GetPut(d[1..], k, v, k');
      assert Put(d, k, v)[1..] == Put(d[1..], k, v);
    }
  }

  /** Assigning a key twice leaves the second value. */
  lemma {:induction false} PutPut<V>(d: Dict<V>, k: string, v: V, w: V)
    ensures Put(Put(d, k, v), k, w) == Put(d, k, w)
  {
    if d != [] && d[0].0 != k {
      PutPut(d[1..], k, v, w);
      assert Put(d, k, v)[1..] == Put(d[1..], k, v);
    }
  }

  /** The dictionary built by assigning `d[k] = v` for each pair in order, starting from `{}`. */
  function Assign<V>(pairs: seq<(string, V)>): Dict<V> {
    if pairs == [] then []
    else Put(Assign(pairs[..|pairs| - 1]), pairs[|pairs| - 1].0, pairs[|pairs| - 1].1)
  }

  /** One more assignment at the end of the run. */
  lemma AssignSnoc<V>(pairs: seq<(string, V)>, k: string, v: V)
    ensures Assign(pairs + [(k, v)]) == Put(Assign(pairs), k, v)
  {
    assert (pairs + [(k, v)])[..|pairs|] == pairs;
  }

  /** The run of assignments up to `i`, one step longer. */
  lemma AssignPrefixSnoc<V>(pairs: seq<(string, V)>, i: nat)
    requires i < |pairs|
    ensures Assign(pairs[..i + 1]) == Put(Assign(pairs[..i]), pairs[i].0, pairs[i].1)
  {
    assert pairs[..i + 1][..i] == pairs[..i];
  }

  /** The keys are unique and are exactly the keys assigned. */
  lemma {:induction false} AssignKeys<V>(pairs: seq<(string, V)>)
    ensures UniqueKeys(Assign(pairs))
    ensures forall k :: HasKey(Assign(pairs), k) <==> exists i | 0 <= i < |pairs| :: pairs[i].0 == k
  {
    if pairs != [] {
      var init, last := pairs[..|pairs| - 1], pairs[|pairs| - 1];
      AssignKeys(init);
      PutKeys(Assign(init), last.0, last.1);
      forall k
        ensures HasKey(Assign(pairs), k) <==> exists i | 0 <= i < |pairs| :: pairs[i].0 == k
      {
        if exists i | 0 <= i < |init| :: init[i].0 == k {
          var i :| 0 <= i < |init| && init[i].0 == k;
          assert pairs[i].0 == k;
        }
        if exists i | 0 <= i < |pairs| :: pairs[i].0 == k {
          var i :| 0 <= i < |pairs| && pairs[i].0 == k;
          if i < |init| {
            assert init[i].0 == k;
          }
        }
      }
    }
  }

  /** A key holds the value of the last pair assigned to it. */
  lemma {:induction false} AssignLastWins<V>(pairs: seq<(string, V)>, i: nat)
    requires i < |pairs|
    requires forall j | i < j < |pairs| :: pairs[j].0 != pairs[i].0
    ensures Get(Assign(pairs), pairs[i].0) == Some(pairs[i].1)
  {
    var init, last, k := pairs[..|pairs| - 1], pairs[|pairs| - 1], pairs[i].0;
    GetAssignLast(pairs, k);
    if i < |pairs| - 1 {
      assert last.0 != k;
      assert init[i] == pairs[i];
      assert forall j | i < j < |init| :: init[j] == pairs[j];
      AssignLastWins(init, i);
      assert Get(Assign(init), k) == Some(pairs[i].1);
    }
  }

  /** Looking a key up after the last assignment of the run. */
  lemma GetAssignLast<V>(pairs: seq<(string, V)>, k: string)
    requires pairs != []
    ensures Get(Assign(pairs), k) ==
      if pairs[|pairs| - 1].0 == k then Some(pairs[|pairs| - 1].1) else Get(Assign(pairs[..|pairs| - 1]), k)
  {
    var init, last := pairs[..|pairs| - 1], pairs[|pairs| - 1];
    assert Assign(pairs) == Put(Assign(init), last.0, last.1);
    GetPut(Assign(init), last.0, last.1, k);
  }

  /** With no key assigned twice, the dictionary holds the pairs as they were given. */
  lemma {:induction false} AssignDistinct<V>(pairs: seq<(string, V)>)
    requires forall i, j | 0 <= i < j < |pairs| :: pairs[i].0 != pairs[j].0
    ensures Assign(pairs) == pairs
  {
    if pairs != [] {
      var init, last := pairs[..|pairs| - 1], pairs[|pairs| - 1];
      assert forall i | 0 <= i < |init| :: init[i] == pairs[i];
      AssignDistinct(init);
      assert !HasKey(init, last.0);
      calc {
        Assign(pairs);
        Put(Assign(init), last.0, last.1);
        Put(init, last.0, last.1);
        init + [last];
        pairs;
      }
    }
  }

  /** Assigning the pairs a filter keeps: an item's pair wins when no later kept pair has its key. */
  lemma AssignPickLastWins<A, V>(s: seq<A>, f: A -> Option<(string, V)>, i: nat)
    requires i < |s| && f(s[i]).Some?
    requires forall j | i < j < |s| :: f(s[j]).Some? ==> f(s[j]).value.0 != f(s[i]).value.0
    ensures Get(Assign(Pick(s, f)), f(s[i]).value.0) == Some(f(s[i]).value.1)
  {
    var entries, after := Pick(s, f), Pick(s[i + 1..], f);
    PickSplit(s, f, i);
    var k := |Pick(s[..i], f)|;
    forall j | k < j < |entries| ensures entries[j].0 != entries[k].0 {
      assert entries[j] == after[j - k - 1];
      PickMembership(s[i + 1..], f, entries[j]);
      var m :| 0 <= m < |s[i + 1..]| && f(s[i + 1..][m]) == Some(entries[j]);
      assert s[i + 1..][m] == s[i + 1 + m];
    }
    AssignLastWins(entries, k);
  }
}
