/** Generic sequence operations: order-preserving filters (a `re.sub` that deletes a character
 *  class, a list comprehension with an `if`), filter-maps and dict assignment over a listing, the
 *  first index that passes a test, and the concatenation of per-element strings. */
module Seqs {
  import opened Wrappers

  /** `a` is obtained from `b` by deleting elements, without reordering the rest. */
  ghost predicate IsSubsequence<T>(a: seq<T>, b: seq<T>)
    decreases |b|
  {
    if a == [] then true
    else if b == [] then false
    else if a[0] == b[0] then IsSubsequence(a[1..], b[1..])
    else IsSubsequence(a, b[1..])
  }

  /** The elements of `s` that satisfy `p`, in their original order. */
  function Filter<T(!new)>(p: T -> bool, s: seq<T>): (r: seq<T>)
    ensures |r| <= |s|
  {
    if s == [] then []
    else if p(s[0]) then [s[0]] + Filter(p, s[1..]) else Filter(p, s[1..])
  }

  /** Every survivor passes, and each passing value survives as often as it occurs. */
  lemma {:induction false} FilterCounts<T(!new)>(p: T -> bool, s: seq<T>)
    ensures forall i :: 0 <= i < |Filter(p, s)| ==> p(Filter(p, s)[i])
    ensures forall x :: multiset(Filter(p, s))[x] == if p(x) then multiset(s)[x] else 0
  {
    if s != [] {
      var t := s[1..];
      FilterCounts(p, t);
      assert s == [s[0]] + t;
      if p(s[0]) {
        var r := [s[0]] + Filter(p, t);
        assert forall i :: 0 < i < |r| ==> r[i] == Filter(p, t)[i - 1];
      }
    }
  }

  /** Filtering keeps the survivors in their original order. */
  lemma {:induction false} FilterIsSubsequence<T(!new)>(p: T -> bool, s: seq<T>)
    ensures IsSubsequence(Filter(p, s), s)
  {
    if s != [] {
      FilterIsSubsequence(p, s[1..]);
      if !p(s[0]) {
        FilterCounts(p, s[1..]);
      }
    }
  }

  /** A sequence is left unchanged exactly when every element passes. */
  lemma {:induction false} FilterFixpoint<T(!new)>(p: T -> bool, s: seq<T>)
    ensures Filter(p, s) == s <==> forall i :: 0 <= i < |s| ==> p(s[i])
  {
    if s != [] {
      var t := s[1..];
      FilterFixpoint(p, t);
      assert (forall i :: 0 <= i < |s| ==> p(s[i])) <==> p(s[0]) && forall i :: 0 <= i < |t| ==> p(t[i]) by {
        assert forall i :: 0 < i < |s| ==> s[i] == t[i - 1];
      }
      if p(s[0]) {
        assert s == [s[0]] + t;
        assert Filter(p, s) == [s[0]] + Filter(p, t);
      } else {
        assert |Filter(p, s)| == |Filter(p, t)| <= |t| < |s|;
      }
    }
  }

  /** Filtering twice is filtering once. */
  lemma FilterIdempotent<T(!new)>(p: T -> bool, s: seq<T>)
    ensures Filter(p, Filter(p, s)) == Filter(p, s)
  {
    FilterFixpoint(p, Filter(p, s));
  }

  /** Filtering distributes over concatenation. */
  lemma {:induction false} FilterAppend<T(!new)>(p: T -> bool, a: seq<T>, b: seq<T>)
    ensures Filter(p, a + b) == Filter(p, a) + Filter(p, b)
  {
    if a == [] {
      assert a + b == b;
    } else {
      assert (a + b)[0] == a[0] && (a + b)[1..] == a[1..] + b;
      FilterAppend(p, a[1..], b);
    }
  }

  /** A filter that rejects every element yields the empty sequence. */
  lemma FilterNone<T(!new)>(p: T -> bool, s: seq<T>)
    requires forall i :: 0 <= i < |s| ==> !p(s[i])
    ensures Filter(p, s) == []
  {
  }

  /**
   * `m` after inserting every pair of `entries` in order, as a dict assignment does: a later pair
   * overwrites an earlier one with the same key.
   */
  function InsertAll<K, V>(m: map<K, V>, entries: seq<(K, V)>): (r: map<K, V>)
    ensures r.Keys == m.Keys + set i | 0 <= i < |entries| :: entries[i].0
  {
    if entries == [] then m
    else
      var n := |entries| - 1;
      assert forall i :: 0 <= i < n ==> entries[..n][i] == entries[i];
      InsertAll(m, entries[..n])[entries[n].0 := entries[n].1]
  }

  /** A key holds the value of the last pair that has it. */
  lemma {:induction false} InsertAllLaterWins<K, V>(m: map<K, V>, entries: seq<(K, V)>, i: nat)
    requires i < |entries|
    requires forall j :: i < j < |entries| ==> entries[j].0 != entries[i].0
    ensures InsertAll(m, entries)[entries[i].0] == entries[i].1
  {
    var n := |entries| - 1;
    if i < n {
      assert entries[..n][i] == entries[i];
      InsertAllLaterWins(m, entries[..n], i);
    }
  }

  /** A key that no pair has keeps its old value, or stays absent. */
  lemma {:induction false} InsertAllUntouched<K, V>(m: map<K, V>, entries: seq<(K, V)>, k: K)
    requires forall j :: 0 <= j < |entries| ==> entries[j].0 != k
    ensures k in InsertAll(m, entries) <==> k in m
    ensures k in m ==> InsertAll(m, entries)[k] == m[k]
  {
    if entries != [] {
      var n := |entries| - 1;
      assert forall j :: 0 <= j < n ==> entries[..n][j] == entries[j];
      InsertAllUntouched(m, entries[..n], k);
    }
  }

  /** Inserting one more pair is one more map update. */
  lemma InsertAllSnoc<K, V>(m: map<K, V>, entries: seq<(K, V)>, e: (K, V))
    ensures InsertAll(m, entries + [e]) == InsertAll(m, entries)[e.0 := e.1]
  {
    assert (entries + [e])[..|entries|] == entries;
  }

  /** The results `f` yields, in order, skipping the elements for which it yields nothing. */
  function Collect<T, W>(f: T -> Option<W>, s: seq<T>): (r: seq<W>)
    ensures |r| <= |s|
  {
    if s == [] then []
    else
      var n := |s| - 1;
      var earlier := Collect(f, s[..n]);
      match f(s[n])
      case None => earlier
      case Some(w) => earlier + [w]
  }

  lemma CollectSnoc<T, W>(f: T -> Option<W>, s: seq<T>, x: T)
    ensures Collect(f, s + [x]) == Collect(f, s) + (if f(x).Some? then [f(x).value] else [])
  {
    assert (s + [x])[..|s|] == s;
  }

  /** Every collected result is what `f` yields for some element. */
  lemma {:induction false} CollectFrom<T, W>(f: T -> Option<W>, s: seq<T>, k: nat)
    requires k < |Collect(f, s)|
    ensures exists i :: 0 <= i < |s| && f(s[i]) == Some(Collect(f, s)[k])
  {
    var n := |s| - 1;
    var earlier := Collect(f, s[..n]);
    if k < |earlier| {
      CollectFrom(f, s[..n], k);
      var i :| 0 <= i < n && f(s[..n][i]) == Some(earlier[k]);
      assert s[..n][i] == s[i];
    } else {
      assert f(s[n]) == Some(Collect(f, s)[k]);
    }
  }

  /**
   * Inserting the collected pairs in order: an element's pair is in the map unless a later
   * element yields a pair with the same key.
   */
  lemma {:induction false} CollectLaterWins<T, K, V>(m: map<K, V>, f: T -> Option<(K, V)>, s: seq<T>, i: nat)
    requires i < |s| && f(s[i]).Some?
    requires forall j :: i < j < |s| && f(s[j]).Some? ==> f(s[j]).value.0 != f(s[i]).value.0
    ensures f(s[i]).value.0 in InsertAll(m, Collect(f, s))
    ensures InsertAll(m, Collect(f, s))[f(s[i]).value.0] == f(s[i]).value.1
  {
    var n := |s| - 1;
    var earlier, key := Collect(f, s[..n]), f(s[i]).value.0;
    assert Collect(f, s) == if f(s[n]).Some? then earlier + [f(s[n]).value] else earlier;
    if f(s[n]).Some? {
      InsertAllSnoc(m, earlier, f(s[n]).value);
    }
    if i < n {
      assert s[..n][i] == s[i];
      forall j | i < j < n && f(s[..n][j]).Some? ensures f(s[..n][j]).value.0 != key {
        assert s[..n][j] == s[j];
      }
      CollectLaterWins(m, f, s[..n], i);
    }
  }

  /** A key that no collected pair has keeps its old value, or stays absent. */
  lemma CollectUntouched<T, K, V>(m: map<K, V>, f: T -> Option<(K, V)>, s: seq<T>, key: K)
    requires forall i :: 0 <= i < |s| && f(s[i]).Some? ==> f(s[i]).value.0 != key
    ensures key in InsertAll(m, Collect(f, s)) <==> key in m
    ensures key in m ==> InsertAll(m, Collect(f, s))[key] == m[key]
  {
    var r := Collect(f, s);
    forall k | 0 <= k < |r| ensures r[k].0 != key {
      CollectFrom(f, s, k);
    }
    InsertAllUntouched(m, r, key);
  }

  /** The index of the first element that satisfies `p`, or `|s|` when none does. */
  function FirstWhere<T>(p: T -> bool, s: seq<T>): (k: nat)
    ensures k <= |s|
    ensures forall j :: 0 <= j < k ==> !p(s[j])
    ensures k < |s| ==> p(s[k])
  {
    if s == [] then 0
    else if p(s[0]) then 0
    else
      var k := FirstWhere(p, s[1..]);
      assert forall j :: 0 < j <= k ==> s[j] == s[1..][j - 1];
      1 + k
  }

  /** Elements after the first satisfying one do not move it. */
  lemma {:induction false} FirstWhereAppend<T>(p: T -> bool, s: seq<T>, rest: seq<T>)
    requires FirstWhere(p, s) < |s|
    ensures FirstWhere(p, s + rest) == FirstWhere(p, s)
  {
    var k := FirstWhere(p, s);
    assert forall j :: 0 <= j < |s| ==> (s + rest)[j] == s[j];
  }

  /** The concatenation of `f`'s results for the elements of `s`, in order. */
  function Flatten<T, W>(f: T -> seq<W>, s: seq<T>): seq<W> {
    if s == [] then [] else Flatten(f, s[..|s| - 1]) + f(s[|s| - 1])
  }

  /** Flattening consecutive parts concatenates their results. */
  lemma {:induction false} FlattenAppend<T, W>(f: T -> seq<W>, a: seq<T>, b: seq<T>)
    ensures Flatten(f, a + b) == Flatten(f, a) + Flatten(f, b)
    decreases |b|
  {
    if b == [] {
      assert a + b == a;
    } else {
      var n, ab := |b| - 1, a + b;
      assert ab[..|ab| - 1] == a + b[..n];
      assert ab[|ab| - 1] == b[n];
      FlattenAppend(f, a, b[..n]);
    }
  }

  /** Each element's result sits between the results of the elements before and after it. */
  lemma {:induction false} FlattenAt<T, W>(f: T -> seq<W>, s: seq<T>, k: nat)
    requires k < |s|
    ensures Flatten(f, s) == Flatten(f, s[..k]) + f(s[k]) + Flatten(f, s[k + 1..])
  {
    var front, back := s[..k + 1], s[k + 1..];
    assert front[..k] == s[..k] && front[k] == s[k];
    assert Flatten(f, front) == Flatten(f, s[..k]) + f(s[k]);
    assert front + back == s;
    FlattenAppend(f, front, back);
  }

  /** One more element appends its result. */
  lemma FlattenSnoc<T, W>(f: T -> seq<W>, s: seq<T>, x: T)
    ensures Flatten(f, s + [x]) == Flatten(f, s) + f(x)
  {
    assert (s + [x])[..|s|] == s;
  }
}
