/** Order-preserving selection from a sequence, used both for the
    validator's list of failed checks and for the columns of an update. */
module Filtering {

  /** The elements of `s` that satisfy `keep`, in the order of `s`. */
  function Filter<T>(s: seq<T>, keep: T -> bool): (r: seq<T>)
    ensures |r| <= |s|
  {
    if s == [] then []
    else (if keep(s[0]) then [s[0]] else []) + Filter(s[1..], keep)
  }

  /** The elements of `s` in strictly increasing `rank` (so each occurs at
      most once). */
  predicate Ascending<T>(s: seq<T>, rank: T -> int)
  {
    forall i, j :: 0 <= i < j < |s| ==> rank(s[i]) < rank(s[j])
  }

  lemma {:induction false} FilterMembers<T>(s: seq<T>, keep: T -> bool, x: T)
    ensures x in Filter(s, keep) <==> x in s && keep(x)
  {
    if s != [] {
      FilterMembers(s[1..], keep, x);
      var head := if keep(s[0]) then [s[0]] else [];
      assert Filter(s, keep) == head + Filter(s[1..], keep);
      assert x in s <==> x == s[0] || x in s[1..];
    }
  }

  /** Filtering keeps the order of the input: a subsequence of an
      ascending sequence is ascending. */
  lemma {:induction false} FilterAscending<T>(s: seq<T>, keep: T -> bool, rank: T -> int)
    requires Ascending(s, rank)
    ensures Ascending(Filter(s, keep), rank)
  {
    if s != [] {
      var rest := Filter(s[1..], keep);
      FilterAscending(s[1..], keep, rank);
      forall k | 0 <= k < |rest|
        ensures rank(s[0]) < rank(rest[k])
      {
        FilterMembers(s[1..], keep, rest[k]);
        var m :| 0 <= m < |s[1..]| && s[1..][m] == rest[k];
        assert s[m + 1] == rest[k];
      }
    }
  }

  /** One step of the definition of Filter. */
  lemma FilterUnfold<T>(s: seq<T>, keep: T -> bool)
    requires s != []
    ensures Filter(s, keep) == (if keep(s[0]) then [s[0]] else []) + Filter(s[1..], keep)
  {
  }

  lemma Associative<T>(a: seq<T>, b: seq<T>, c: seq<T>)
    ensures a + (b + c) == (a + b) + c
  {
  }

  /** Filtering one element more: the step of a loop that selects from `s`
      from left to right. */
  lemma FilterStep<T>(done: seq<T>, todo: seq<T>, keep: T -> bool, whole: seq<T>)
    requires todo != []
    requires done + Filter(todo, keep) == Filter(whole, keep)
    ensures (if keep(todo[0]) then done + [todo[0]] else done) + Filter(todo[1..], keep)
            == Filter(whole, keep)
  {
    var head := if keep(todo[0]) then [todo[0]] else [];
    FilterUnfold(todo, keep);
    Associative(done, head, Filter(todo[1..], keep));
    if !keep(todo[0]) {
      assert done + [] == done;
    }
  }

  /** Filtering distributes over concatenation. */
  lemma {:induction false} FilterAppend<T>(a: seq<T>, b: seq<T>, keep: T -> bool)
    ensures Filter(a + b, keep) == Filter(a, keep) + Filter(b, keep)
  {
    if a != [] {
      var head := if keep(a[0]) then [a[0]] else [];
      assert (a + b)[0] == a[0];
      assert (a + b)[1..] == a[1..] + b;
      FilterUnfold(a + b, keep);
      FilterUnfold(a, keep);
      FilterAppend(a[1..], b, keep);
      Associative(head, Filter(a[1..], keep), Filter(b, keep));
    } else {
      assert a + b == b;
    }
  }

  /** An ascending sequence whose ranks lie in [lo, hi] has at most
      hi - lo + 1 elements. */
  lemma {:induction false} AscendingLength<T>(s: seq<T>, rank: T -> int, lo: int, hi: int)
    requires Ascending(s, rank)
    requires forall x :: x in s ==> lo <= rank(x) <= hi
    ensures |s| <= if hi < lo then 0 else hi - lo + 1
  {
    if s != [] {
      forall x | x in s[1..]
        ensures lo + 1 <= rank(x) <= hi
      {
        var k :| 0 <= k < |s[1..]| && s[1..][k] == x;
        assert s[k + 1] == x;
        assert rank(s[0]) < rank(s[k + 1]);
      }
      AscendingLength(s[1..], rank, lo + 1, hi);
    }
  }

  /** Nothing is selected exactly when no element satisfies `keep`. */
  lemma {:induction false} FilterEmpty<T>(s: seq<T>, keep: T -> bool)
    ensures Filter(s, keep) == [] <==> forall i :: 0 <= i < |s| ==> !keep(s[i])
  {
    if s != [] {
      FilterEmpty(s[1..], keep);
      assert forall i :: 1 <= i < |s| ==> s[i] == s[1..][i - 1];
    }
  }
}
