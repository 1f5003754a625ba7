/**
 * The testcase record shared by the question type and the edit form, and
 * the stable sort by the `ordering` field that orders a question's
 * testcases.
 */
module Testcases {
  import opened Php

  /**
   * A testcase's mark.  The plugin holds a float: 1.0 by default, or the
   * `floatval` of the text typed into the form.  Float parsing and
   * formatting are not modelled, so the text is kept as it was typed.
   */
  datatype Mark = DefaultMark | ParsedMark(text: string)

  /** One testcase, as the question type builds it and the testcase table stores it. */
  datatype Testcase = Testcase(
    rownum: Option<nat>,     // edit-form row, set only when validating
    questionId: int,
    testType: int,
    testCode: string,
    stdin: string,
    expected: string,
    extra: string,
    useAsExample: bool,
    display: string,
    hideRestIfFail: bool,
    mark: Mark,
    ordering: int)

  predicate SortedByOrdering(s: seq<Testcase>)
  {
    forall i, j :: 0 <= i < j < |s| ==> s[i].ordering <= s[j].ordering
  }

  /** The subsequence of `s` whose `ordering` is `k`, in the order of `s`. */
  function WithOrdering(s: seq<Testcase>, k: int): (r: seq<Testcase>)
    ensures |r| <= |s|
  {
    if s == [] then []
    else (if s[0].ordering == k then [s[0]] else []) + WithOrdering(s[1..], k)
  }

  /** Every element of `s` has ordering at least `v`. */
  predicate AllAtLeast(s: seq<Testcase>, v: int)
  {
    forall i :: 0 <= i < |s| ==> v <= s[i].ordering
  }

  lemma WithOrderingCons(x: Testcase, s: seq<Testcase>, k: int)
    ensures WithOrdering([x] + s, k) == (if x.ordering == k then [x] else []) + WithOrdering(s, k)
  {
    assert ([x] + s)[1..] == s;
  }

  lemma AllAtLeastOfPermutation(a: seq<Testcase>, b: seq<Testcase>, v: int)
    requires multiset(a) == multiset(b)
    requires AllAtLeast(b, v)
    ensures AllAtLeast(a, v)
  {
    forall i | 0 <= i < |a| ensures v <= a[i].ordering {
      assert a[i] in multiset(b);
      var j :| 0 <= j < |b| && b[j] == a[i];
    }
  }

  /**
   * Inserts `t` before the first element whose ordering is not smaller, so
   * that `t` precedes the elements of `s` that compare equal to it.
   */
  function InsertByOrdering(t: Testcase, s: seq<Testcase>): (r: seq<Testcase>)
    ensures SortedByOrdering(s) ==> SortedByOrdering(r)
    ensures multiset(r) == multiset(s) + multiset{t}
    ensures forall k :: WithOrdering(r, k) == (if t.ordering == k then [t] else []) + WithOrdering(s, k)
    decreases |s|, 1
  {
    if s == [] || t.ordering <= s[0].ordering then
      assert forall k :: WithOrdering([t] + s, k) == (if t.ordering == k then [t] else []) + WithOrdering(s, k) by {
        forall k { WithOrderingCons(t, s, k); }
      }
      [t] + s
    else
      InsertStep(t, s);
      [s[0]] + InsertByOrdering(t, s[1..])
  }

  lemma InsertStep(t: Testcase, s: seq<Testcase>)
    requires s != [] && s[0].ordering < t.ordering
    ensures var r := [s[0]] + InsertByOrdering(t, s[1..]);
            && (SortedByOrdering(s) ==> SortedByOrdering(r))
            && multiset(r) == multiset(s) + multiset{t}
            && forall k :: WithOrdering(r, k) == (if t.ordering == k then [t] else []) + WithOrdering(s, k)
    decreases |s|, 0
  {
    var rest := InsertByOrdering(t, s[1..]);
    var r := [s[0]] + rest;
    assert s == [s[0]] + s[1..];
    assert multiset(r) == multiset(s) + multiset{t};
    InsertStepStable(t, s, rest);
    if SortedByOrdering(s) {
      InsertStepSorted(t, s, rest);
    }
  }

  lemma InsertStepStable(t: Testcase, s: seq<Testcase>, rest: seq<Testcase>)
    requires s != [] && s[0].ordering < t.ordering
    requires forall k :: WithOrdering(rest, k) == (if t.ordering == k then [t] else []) + WithOrdering(s[1..], k)
    ensures forall k :: WithOrdering([s[0]] + rest, k) == (if t.ordering == k then [t] else []) + WithOrdering(s, k)
  {
    assert [s[0]] + s[1..] == s;
    forall k ensures WithOrdering([s[0]] + rest, k) == (if t.ordering == k then [t] else []) + WithOrdering(s, k) {
      WithOrderingCons(s[0], rest, k);
      WithOrderingCons(s[0], s[1..], k);
      var tail := WithOrdering(s[1..], k);
      if s[0].ordering == k {
        assert WithOrdering(rest, k) == tail;
        assert WithOrdering(s, k) == [s[0]] + tail;
      } else {
        assert WithOrdering([s[0]] + rest, k) == WithOrdering(rest, k);
        assert WithOrdering(s, k) == [] + tail;
      }
    }
  }

  lemma InsertStepSorted(t: Testcase, s: seq<Testcase>, rest: seq<Testcase>)
    requires s != [] && s[0].ordering < t.ordering
    requires SortedByOrdering(s) && SortedByOrdering(rest)
    requires multiset(rest) == multiset(s[1..]) + multiset{t}
    ensures SortedByOrdering([s[0]] + rest)
  {
    assert AllAtLeast(s[1..] + [t], s[0].ordering);
    assert multiset(rest) == multiset(s[1..] + [t]);
    AllAtLeastOfPermutation(rest, s[1..] + [t], s[0].ordering);
    SortedCons(s[0], rest);
  }

  lemma SortedCons(x: Testcase, s: seq<Testcase>)
    requires SortedByOrdering(s) && AllAtLeast(s, x.ordering)
    ensures SortedByOrdering([x] + s)
  {
    forall i, j | 0 <= i < j < |[x] + s| ensures ([x] + s)[i].ordering <= ([x] + s)[j].ordering {
      if i > 0 {
        assert ([x] + s)[i] == s[i - 1];
      }
      assert ([x] + s)[j] == s[j - 1];
    }
  }

  /**
   * The sort `usort` performs with the comparator on `ordering`: the result
   * is sorted, is a permutation of the input, and is stable — for every
   * ordering value the testcases carrying it keep their relative order.
   */
  function SortByOrdering(s: seq<Testcase>): (r: seq<Testcase>)
    ensures |r| == |s|
    ensures SortedByOrdering(r)
    ensures multiset(r) == multiset(s)
    ensures forall k :: WithOrdering(r, k) == WithOrdering(s, k)
  {
    if s == [] then []
    else
      assert s == [s[0]] + s[1..];
      var rest := SortByOrdering(s[1..]);
      var r := InsertByOrdering(s[0], rest);
      assert |r| == |multiset(r)| == |multiset(rest)| + 1;
      r
  }

  /** A sorted sequence is its own sort. */
  lemma {:induction false} SortOfSortedIsIdentity(s: seq<Testcase>)
    requires SortedByOrdering(s)
    ensures SortByOrdering(s) == s
  {
    if s != [] {
      assert SortedByOrdering(s[1..]);
      SortOfSortedIsIdentity(s[1..]);
      assert s == [s[0]] + s[1..];
    }
  }
}
