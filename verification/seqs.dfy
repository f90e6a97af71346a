/** Small facts about sequences shared by the queue and the orchestrator. */
module Seqs {

  /** No element occurs twice. */
  predicate Distinct<T(==)>(s: seq<T>) {
    forall i, j :: 0 <= i < j < |s| ==> s[i] != s[j]
  }

  /** A concatenation is duplicate-free exactly when both halves are and they share nothing. */
  lemma DistinctConcat<T>(a: seq<T>, b: seq<T>)
    ensures Distinct(a + b) <==> Distinct(a) && Distinct(b) && (forall x :: x in a ==> x !in b)
  {
    if Distinct(a + b) {
      forall i, j | 0 <= i < j < |a| ensures a[i] != a[j] {
        assert a[i] == (a + b)[i] && a[j] == (a + b)[j];
      }
      forall i, j | 0 <= i < j < |b| ensures b[i] != b[j] {
        assert b[i] == (a + b)[|a| + i] && b[j] == (a + b)[|a| + j];
      }
      forall i, j | 0 <= i < |a| && 0 <= j < |b| ensures a[i] != b[j] {
        assert a[i] == (a + b)[i] && b[j] == (a + b)[|a| + j];
      }
    }
    if Distinct(a) && Distinct(b) && (forall x :: x in a ==> x !in b) {
      forall i, j | 0 <= i < j < |a + b| ensures (a + b)[i] != (a + b)[j] {
        if j < |a| {
          assert (a + b)[i] == a[i] && (a + b)[j] == a[j];
        } else if i >= |a| {
          assert (a + b)[i] == b[i - |a|] && (a + b)[j] == b[j - |a|];
        } else {
          assert (a + b)[i] == a[i] && (a + b)[j] == b[j - |a|];
          assert a[i] in a;
        }
      }
    }
  }

  // ---------------------------------------------------------------------
  // A reference filter
  // ---------------------------------------------------------------------

  /** The positions of the elements of `s` that `keep` accepts, in
      increasing order. */
  function KeptAt<T>(s: seq<T>, keep: T -> bool): (ix: seq<nat>)
    ensures forall k :: 0 <= k < |ix| ==> ix[k] < |s| && keep(s[ix[k]])
    ensures forall j, k :: 0 <= j < k < |ix| ==> ix[j] < ix[k]
    decreases |s|
  {
    if s == [] then []
    else
      var n := |s| - 1;
      var front := KeptAt(s[..n], keep);
      assert forall k :: 0 <= k < |front| ==> s[..n][front[k]] == s[front[k]];
      front + (if keep(s[n]) then [n] else [])
  }

  /** Every accepted position is listed. */
  lemma {:induction false} KeptAtComplete<T>(s: seq<T>, keep: T -> bool, i: nat)
    requires i < |s| && keep(s[i])
    ensures i in KeptAt(s, keep)
    decreases |s|
  {
    var n := |s| - 1;
    if i < n {
      assert s[..n][i] == s[i];
      KeptAtComplete(s[..n], keep, i);
    }
  }

  /** `s.filter(keep)`, built from the back. */
  function Filter<T>(s: seq<T>, keep: T -> bool): seq<T>
    decreases |s|
  {
    if s == [] then []
    else
      var n := |s| - 1;
      Filter(s[..n], keep) + (if keep(s[n]) then [s[n]] else [])
  }

  /** A filter that accepts every element returns the sequence itself. */
  lemma {:induction false} FilterAll<T>(s: seq<T>, keep: T -> bool)
    requires forall k :: 0 <= k < |s| ==> keep(s[k])
    ensures Filter(s, keep) == s
    decreases |s|
  {
    if s != [] {
      var n := |s| - 1;
      FilterAll(s[..n], keep);
      assert s == s[..n] + [s[n]];
    }
  }

  /** The filter lists the accepted elements in their order: its k-th
      element is the one at the k-th accepted position, so order and
      multiplicity are kept. */
  lemma {:induction false} FilterPositions<T>(s: seq<T>, keep: T -> bool)
    ensures |Filter(s, keep)| == |KeptAt(s, keep)|
    ensures forall k :: 0 <= k < |Filter(s, keep)| ==> Filter(s, keep)[k] == s[KeptAt(s, keep)[k]]
    decreases |s|
  {
    if s != [] {
      var n := |s| - 1;
      FilterPositions(s[..n], keep);
      var front := KeptAt(s[..n], keep);
      assert KeptAt(s, keep) == front + (if keep(s[n]) then [n] else []);
      forall k | 0 <= k < |front| ensures Filter(s, keep)[k] == s[KeptAt(s, keep)[k]] {
        assert Filter(s, keep)[k] == Filter(s[..n], keep)[k];
        assert s[..n][front[k]] == s[front[k]];
      }
    }
  }

  /** The reference filter seen from the front: the head is kept or dropped,
      then the tail is filtered. */
  lemma {:induction false} FilterCons<T>(s: seq<T>, keep: T -> bool)
    requires s != []
    ensures Filter(s, keep) == (if keep(s[0]) then [s[0]] else []) + Filter(s[1..], keep)
    decreases |s|
  {
    var n := |s| - 1;
    if n == 0 {
      assert s[..n] == [] && s[1..] == [];
    } else {
      var head := if keep(s[0]) then [s[0]] else [];
      var last := if keep(s[n]) then [s[n]] else [];
      FilterCons(s[..n], keep);
      assert s[..n][0] == s[0];
      assert s[..n][1..] == s[1..][..n - 1];
      assert s[1..][n - 1] == s[n];
      assert Filter(s[1..], keep) == Filter(s[1..][..n - 1], keep) + last;
      calc {
        Filter(s, keep);
        Filter(s[..n], keep) + last;
        (head + Filter(s[1..][..n - 1], keep)) + last;
        head + (Filter(s[1..][..n - 1], keep) + last);
      }
    }
  }

  /** The test that drops `x`. */
  function Other<T(==)>(x: T): T -> bool {
    y => y != x
  }

  /** `s.filter(v => v !== x)`: every occurrence of `x` dropped, the rest in order. */
  function Without<T(==)>(s: seq<T>, x: T): (r: seq<T>)
    ensures r == Filter(s, Other(x))
    ensures multiset(r) == multiset(s)[x := 0]
    ensures forall i :: 0 <= i < |r| ==> r[i] in s && r[i] != x
    ensures forall i :: 0 <= i < |s| && s[i] != x ==> s[i] in r
  {
    if s == [] then []
    else
      assert s == [s[0]] + s[1..];
      FilterCons(s, Other(x));
      var r := if s[0] == x then Without(s[1..], x) else [s[0]] + Without(s[1..], x);
      assert multiset(r) == multiset(s)[x := 0];
      BagMembers(s, x, r);
      r
  }

  /** A sequence whose bag is `s`'s without `x` holds exactly `s`'s other elements. */
  lemma BagMembers<T>(s: seq<T>, x: T, r: seq<T>)
    requires multiset(r) == multiset(s)[x := 0]
    ensures forall i :: 0 <= i < |r| ==> r[i] in s && r[i] != x
    ensures forall i :: 0 <= i < |s| && s[i] != x ==> s[i] in r
  {
    forall i | 0 <= i < |r| ensures r[i] in s && r[i] != x {
      var y := r[i];
      assert multiset(r)[y] > 0;
      assert multiset(s)[x := 0][y] > 0;
      assert y != x;
      assert multiset(s)[y] > 0;
    }
    forall i | 0 <= i < |s| && s[i] != x ensures s[i] in r {
      var y := s[i];
      assert multiset(s)[y] > 0;
      assert multiset(r)[y] > 0;
    }
  }

  /** Filtering keeps a sequence duplicate-free. */
  lemma {:induction false} WithoutDistinct<T>(s: seq<T>, x: T)
    requires Distinct(s)
    ensures Distinct(Without(s, x))
    decreases |s|
  {
    if s != [] {
      assert s == [s[0]] + s[1..];
      DistinctConcat([s[0]], s[1..]);
      WithoutDistinct(s[1..], x);
      if s[0] != x {
        DistinctConcat([s[0]], Without(s[1..], x));
      }
    }
  }

  /** In a duplicate-free sequence every value occurs at most once. */
  lemma {:induction false} DistinctCount<T>(s: seq<T>, x: T)
    requires Distinct(s)
    ensures multiset(s)[x] <= 1
    decreases |s|
  {
    if s != [] {
      assert s == [s[0]] + s[1..];
      DistinctConcat([s[0]], s[1..]);
      DistinctCount(s[1..], x);
      if s[0] == x {
        assert x !in s[1..];
      }
    }
  }
}
