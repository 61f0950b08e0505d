// The order that sort_list() gives to a list of named entries.
module MergeSort {
  import opened CStrings

  predicate StrictlySorted<T>(s: seq<T>, name: T -> string, caseSensitive: bool) {
    forall i :: 0 <= i < |s| - 1 ==> Before(name(s[i]), name(s[i + 1]), caseSensitive)
  }

  predicate Sorted<T>(s: seq<T>, name: T -> string, caseSensitive: bool) {
    forall i, j :: 0 <= i < j < |s| ==> CompareStrings(name(s[i]), name(s[j]), caseSensitive) <= 0
  }

  // The slow cursor takes one step for two of the fast one, rounding up.
  function Middle(length: nat): (m: nat)
    ensures length >= 2 ==> 0 < m < length
  {
    (length + 1) / 2
  }

  // A tie takes the entry of the second list first, so the sort is not stable.
  function Merge<T>(a: seq<T>, b: seq<T>, name: T -> string, caseSensitive: bool): seq<T>
    decreases |a| + |b|
  {
    if a == [] then b
    else if b == [] then a
    else if Before(name(a[0]), name(b[0]), caseSensitive) then [a[0]] + Merge(a[1..], b, name, caseSensitive)
    else [b[0]] + Merge(a, b[1..], name, caseSensitive)
  }

  function SortSeq<T>(s: seq<T>, name: T -> string, caseSensitive: bool): seq<T>
    decreases |s|
  {
    if |s| <= 1 || StrictlySorted(s, name, caseSensitive) then s
    else
      var m := Middle(|s|);
      Merge(SortSeq(s[..m], name, caseSensitive), SortSeq(s[m..], name, caseSensitive), name, caseSensitive)
  }

  lemma {:induction false} MergePermutes<T>(a: seq<T>, b: seq<T>, name: T -> string, caseSensitive: bool)
    ensures multiset(Merge(a, b, name, caseSensitive)) == multiset(a) + multiset(b)
    decreases |a| + |b|
  {
    if a != [] && b != [] {
      assert a == [a[0]] + a[1..] && b == [b[0]] + b[1..];
      if Before(name(a[0]), name(b[0]), caseSensitive) {
        MergePermutes(a[1..], b, name, caseSensitive);
      } else {
        MergePermutes(a, b[1..], name, caseSensitive);
      }
    }
  }

  lemma SplitMultiset<T>(s: seq<T>, m: nat)
    requires m <= |s|
    ensures multiset(s) == multiset(s[..m]) + multiset(s[m..])
  {
    assert s == s[..m] + s[m..];
  }

  // Sorting rearranges the entries and neither drops nor repeats one.
  lemma {:induction false} SortPermutes<T>(s: seq<T>, name: T -> string, caseSensitive: bool)
    ensures multiset(SortSeq(s, name, caseSensitive)) == multiset(s)
    decreases |s|
  {
    if |s| > 1 && !StrictlySorted(s, name, caseSensitive) {
      var m := Middle(|s|);
      SplitMultiset(s, m);
      SortPermutes(s[..m], name, caseSensitive);
      SortPermutes(s[m..], name, caseSensitive);
      MergePermutes(SortSeq(s[..m], name, caseSensitive), SortSeq(s[m..], name, caseSensitive), name, caseSensitive);
    }
  }

  lemma SortMembership<T>(s: seq<T>, name: T -> string, caseSensitive: bool)
    ensures |SortSeq(s, name, caseSensitive)| == |s|
    ensures forall x :: x in SortSeq(s, name, caseSensitive) <==> x in s
  {
    SortPermutes(s, name, caseSensitive);
    var r := SortSeq(s, name, caseSensitive);
    assert |multiset(r)| == |r| && |multiset(s)| == |s|;
    forall x ensures x in r <==> x in s {
      assert x in r <==> x in multiset(r);
    }
  }

  // a[0] before b[0], and both sorted: a[0] is not after anything in either list.
  lemma {:induction false} StrictIsSorted<T>(s: seq<T>, name: T -> string, caseSensitive: bool)
    requires StrictlySorted(s, name, caseSensitive)
    ensures Sorted(s, name, caseSensitive)
    ensures forall i, j :: 0 <= i < j < |s| ==> Before(name(s[i]), name(s[j]), caseSensitive)
    decreases |s|
  {
    if |s| >= 2 {
      var t := s[1..];
      assert forall i :: 0 <= i < |t| ==> t[i] == s[i + 1];
      StrictIsSorted(t, name, caseSensitive);
      forall j | 1 <= j < |s| ensures Before(name(s[0]), name(s[j]), caseSensitive) {
        if j > 1 {
          assert Before(name(t[0]), name(t[j - 1]), caseSensitive);
          CompareTransitive(name(s[0]), name(s[1]), name(s[j]), caseSensitive);
        }
      }
      forall i, j | 0 <= i < j < |s| ensures Before(name(s[i]), name(s[j]), caseSensitive) {
        if i > 0 {
          assert Before(name(t[i - 1]), name(t[j - 1]), caseSensitive);
        }
      }
    }
  }

  lemma {:induction false} ConsSorted<T>(x: T, s: seq<T>, a: seq<T>, b: seq<T>, name: T -> string, caseSensitive: bool)
    requires Sorted(s, name, caseSensitive) && multiset(s) == multiset(a) + multiset(b)
    requires forall y :: y in a ==> CompareStrings(name(x), name(y), caseSensitive) <= 0
    requires forall y :: y in b ==> CompareStrings(name(x), name(y), caseSensitive) <= 0
    ensures Sorted([x] + s, name, caseSensitive)
  {
    var r := [x] + s;
    forall i, j | 0 <= i < j < |r| ensures CompareStrings(name(r[i]), name(r[j]), caseSensitive) <= 0 {
      if i == 0 {
        assert s[j - 1] in multiset(s);
        assert r[j] in a || r[j] in b;
      } else {
        assert r[i] == s[i - 1] && r[j] == s[j - 1];
      }
    }
  }

  lemma {:induction false} MergeSorts<T>(a: seq<T>, b: seq<T>, name: T -> string, caseSensitive: bool)
    requires Sorted(a, name, caseSensitive) && Sorted(b, name, caseSensitive)
    ensures Sorted(Merge(a, b, name, caseSensitive), name, caseSensitive)
    decreases |a| + |b|
  {
    if a != [] && b != [] {
      var before := Before(name(a[0]), name(b[0]), caseSensitive);
      var (x, y, p, q) := if before then (a[0], b, a[1..], b) else (b[0], a, a, b[1..]);
      assert Sorted(p, name, caseSensitive) && Sorted(q, name, caseSensitive);
      MergeSorts(p, q, name, caseSensitive);
      MergePermutes(p, q, name, caseSensitive);
      CompareFlip(name(a[0]), name(b[0]), caseSensitive);
      CompareFlip(name(b[0]), name(a[0]), caseSensitive);
      CompareZero(name(x), name(x), caseSensitive);
      forall z | z in p || z in q ensures CompareStrings(name(x), name(z), caseSensitive) <= 0 {
        if z in (if before then p else q) {
          HeadFirst(if before then a else b, z, name, caseSensitive);
        } else {
          HeadFirst(y, z, name, caseSensitive);
          CompareTransitive(name(x), name(y[0]), name(z), caseSensitive);
        }
      }
      ConsSorted(x, Merge(p, q, name, caseSensitive), p, q, name, caseSensitive);
    }
  }

  lemma HeadFirst<T>(s: seq<T>, z: T, name: T -> string, caseSensitive: bool)
    requires Sorted(s, name, caseSensitive) && z in s
    ensures CompareStrings(name(s[0]), name(z), caseSensitive) <= 0
  {
    var j :| 0 <= j < |s| && s[j] == z;
    if j == 0 {
      CompareZero(name(z), name(z), caseSensitive);
    }
  }

  // No entry of the result comes after a later one.
  lemma {:induction false} SortSorts<T>(s: seq<T>, name: T -> string, caseSensitive: bool)
    ensures Sorted(SortSeq(s, name, caseSensitive), name, caseSensitive)
    decreases |s|
  {
    if |s| > 1 && !StrictlySorted(s, name, caseSensitive) {
      var m := Middle(|s|);
      SortSorts(s[..m], name, caseSensitive);
      SortSorts(s[m..], name, caseSensitive);
      MergeSorts(SortSeq(s[..m], name, caseSensitive), SortSeq(s[m..], name, caseSensitive), name, caseSensitive);
    } else if |s| > 1 {
      StrictIsSorted(s, name, caseSensitive);
    }
  }

  // ---------- Which ends stay ----------

  predicate FirstIsLeast<T>(s: seq<T>, name: T -> string, caseSensitive: bool) {
    forall i :: 0 < i < |s| ==> Before(name(s[0]), name(s[i]), caseSensitive)
  }

  predicate LastIsGreatest<T>(s: seq<T>, name: T -> string, caseSensitive: bool) {
    forall i :: 0 <= i < |s| - 1 ==> Before(name(s[i]), name(s[|s| - 1]), caseSensitive)
  }

  predicate AllDiffer<T(==)>(s: seq<T>) {
    forall i, j :: 0 <= i < j < |s| ==> s[i] != s[j]
  }

  lemma AllDifferHalves<T>(s: seq<T>, m: nat)
    requires AllDiffer(s) && 0 < m < |s|
    ensures AllDiffer(s[..m]) && AllDiffer(s[m..]) && s[0] !in s[m..] && s[|s| - 1] !in s[..m]
    ensures s[..m][0] == s[0] && s[m..][|s| - m - 1] == s[|s| - 1]
  {
  }

  lemma SortSteps<T>(s: seq<T>, name: T -> string, caseSensitive: bool)
    ensures SortSeq(s, name, caseSensitive) ==
      if |s| <= 1 || StrictlySorted(s, name, caseSensitive) then s
      else Merge(SortSeq(s[..Middle(|s|)], name, caseSensitive), SortSeq(s[Middle(|s|)..], name, caseSensitive), name, caseSensitive)
  {
  }

  lemma StrictEnds<T>(s: seq<T>, name: T -> string, caseSensitive: bool)
    requires |s| <= 1 || StrictlySorted(s, name, caseSensitive)
    ensures FirstIsLeast(s, name, caseSensitive) && LastIsGreatest(s, name, caseSensitive)
  {
    hide Before;
    if |s| > 1 {
      StrictIsSorted(s, name, caseSensitive);
    }
  }

  // The first entry stays in front exactly when its name comes before all others: of several least
  // names the last one is taken.
  lemma {:induction false} FirstStays<T>(s: seq<T>, name: T -> string, caseSensitive: bool)
    requires AllDiffer(s) && s != []
    ensures |SortSeq(s, name, caseSensitive)| == |s|
    ensures SortSeq(s, name, caseSensitive)[0] == s[0] <==> FirstIsLeast(s, name, caseSensitive)
    decreases |s|
  {
    hide Before, CompareStrings, Merge, SortSeq, FirstIsLeast;
    SortMembership(s, name, caseSensitive);
    SortSteps(s, name, caseSensitive);
    if |s| <= 1 || StrictlySorted(s, name, caseSensitive) {
      StrictEnds(s, name, caseSensitive);
    } else {
      var m := Middle(|s|);
      var a, b := SortSeq(s[..m], name, caseSensitive), SortSeq(s[m..], name, caseSensitive);
      AllDifferHalves(s, m);
      SortMembership(s[..m], name, caseSensitive);
      SortMembership(s[m..], name, caseSensitive);
      SortPermutes(s[m..], name, caseSensitive);
      SortSorts(s[m..], name, caseSensitive);
      FirstStays(s[..m], name, caseSensitive);
      assert b[0] in multiset(b);
      FirstOfHalves(s, m, a, b, name, caseSensitive);
    }
  }

  lemma FirstOfHalves<T>(s: seq<T>, m: nat, a: seq<T>, b: seq<T>, name: T -> string, caseSensitive: bool)
    requires 0 < m < |s| && |a| == m && |b| == |s| - m && s[0] !in s[m..] && b[0] in s[m..]
    requires a[0] == s[0] <==> FirstIsLeast(s[..m], name, caseSensitive)
    requires Sorted(b, name, caseSensitive) && multiset(b) == multiset(s[m..])
    ensures Merge(a, b, name, caseSensitive) != []
    ensures Merge(a, b, name, caseSensitive)[0] == s[0] <==> FirstIsLeast(s, name, caseSensitive)
  {
    hide CompareStrings;
    if FirstIsLeast(s, name, caseSensitive) {
      LeastParts(s, m, name, caseSensitive);
    }
    if a[0] == s[0] && Before(name(a[0]), name(b[0]), caseSensitive) {
      forall i | 0 < i < |s| ensures Before(name(s[0]), name(s[i]), caseSensitive) {
        if i < m {
          assert s[i] == s[..m][i];
        } else {
          assert s[i] == s[m..][i - m] && s[i] in multiset(s[m..]);
          HeadFirst(b, s[i], name, caseSensitive);
          CompareTransitive(name(s[0]), name(b[0]), name(s[i]), caseSensitive);
        }
      }
    }
  }

  lemma LeastParts<T>(s: seq<T>, m: nat, name: T -> string, caseSensitive: bool)
    requires 0 < m < |s| && FirstIsLeast(s, name, caseSensitive)
    ensures FirstIsLeast(s[..m], name, caseSensitive)
    ensures forall i :: 0 <= i < |s| - m ==> Before(name(s[0]), name(s[m..][i]), caseSensitive)
  {
    hide Before;
  }

  lemma GreatestParts<T>(s: seq<T>, m: nat, name: T -> string, caseSensitive: bool)
    requires 0 < m < |s| && LastIsGreatest(s, name, caseSensitive)
    ensures LastIsGreatest(s[m..], name, caseSensitive)
    ensures forall i :: 0 <= i < m ==> Before(name(s[..m][i]), name(s[|s| - 1]), caseSensitive)
  {
    hide Before;
  }

  lemma {:induction false} MergeLast<T>(a: seq<T>, b: seq<T>, name: T -> string, caseSensitive: bool)
    requires Sorted(a, name, caseSensitive) && Sorted(b, name, caseSensitive) && a != [] && b != []
    ensures var r, x, y := Merge(a, b, name, caseSensitive), a[|a| - 1], b[|b| - 1];
      r != [] && r[|r| - 1] == if Before(name(x), name(y), caseSensitive) then y else x
    decreases |a| + |b|
  {
    hide CompareStrings;
    var x, y := a[|a| - 1], b[|b| - 1];
    if Before(name(a[0]), name(b[0]), caseSensitive) {
      if |a| > 1 {
        MergeLast(a[1..], b, name, caseSensitive);
      } else {
        HeadFirst(b, y, name, caseSensitive);
        CompareTransitive(name(x), name(b[0]), name(y), caseSensitive);
      }
    } else {
      CompareFlip(name(b[0]), name(a[0]), caseSensitive);
      CompareFlip(name(a[0]), name(b[0]), caseSensitive);
      if |b| > 1 {
        MergeLast(a, b[1..], name, caseSensitive);
      } else {
        HeadFirst(a, x, name, caseSensitive);
        NotAfter(name(y), name(a[0]), name(x), caseSensitive);
      }
    }
  }

  lemma NotAfter(y: string, a: string, x: string, caseSensitive: bool)
    requires !Before(a, y, caseSensitive) && CompareStrings(a, x, caseSensitive) <= 0
    ensures !Before(x, y, caseSensitive)
  {
    if Before(x, y, caseSensitive) {
      CompareTransitive(a, x, y, caseSensitive);
    }
  }

  lemma LastLast<T>(s: seq<T>, z: T, name: T -> string, caseSensitive: bool)
    requires Sorted(s, name, caseSensitive) && z in s
    ensures CompareStrings(name(z), name(s[|s| - 1]), caseSensitive) <= 0
  {
    var j :| 0 <= j < |s| && s[j] == z;
    if j == |s| - 1 {
      CompareZero(name(z), name(z), caseSensitive);
    }
  }

  // The last entry stays at the end exactly when its name comes behind all others.
  lemma {:induction false} LastStays<T>(s: seq<T>, name: T -> string, caseSensitive: bool)
    requires AllDiffer(s) && s != []
    ensures |SortSeq(s, name, caseSensitive)| == |s|
    ensures SortSeq(s, name, caseSensitive)[|s| - 1] == s[|s| - 1] <==> LastIsGreatest(s, name, caseSensitive)
    decreases |s|
  {
    hide Before, CompareStrings, Merge, SortSeq, LastIsGreatest;
    SortMembership(s, name, caseSensitive);
    SortSteps(s, name, caseSensitive);
    if |s| <= 1 || StrictlySorted(s, name, caseSensitive) {
      StrictEnds(s, name, caseSensitive);
    } else {
      var m := Middle(|s|);
      var a, b := SortSeq(s[..m], name, caseSensitive), SortSeq(s[m..], name, caseSensitive);
      AllDifferHalves(s, m);
      SortMembership(s[..m], name, caseSensitive);
      SortMembership(s[m..], name, caseSensitive);
      SortSorts(s[..m], name, caseSensitive);
      SortSorts(s[m..], name, caseSensitive);
      SortPermutes(s[..m], name, caseSensitive);
      LastStays(s[m..], name, caseSensitive);
      MergeLast(a, b, name, caseSensitive);
      assert a[m - 1] in multiset(a);
      LastOfHalves(s, m, a, b, name, caseSensitive);
    }
  }

  lemma LastOfHalves<T>(s: seq<T>, m: nat, a: seq<T>, b: seq<T>, name: T -> string, caseSensitive: bool)
    requires 0 < m < |s| && |a| == m && |b| == |s| - m && s[|s| - 1] !in s[..m] && a[m - 1] in s[..m]
    requires b[|b| - 1] == s[|s| - 1] <==> LastIsGreatest(s[m..], name, caseSensitive)
    requires Sorted(a, name, caseSensitive) && multiset(a) == multiset(s[..m])
    ensures (if Before(name(a[m - 1]), name(b[|b| - 1]), caseSensitive) then b[|b| - 1] else a[m - 1]) == s[|s| - 1]
       <==> LastIsGreatest(s, name, caseSensitive)
  {
    hide CompareStrings;
    var z := s[|s| - 1];
    if LastIsGreatest(s, name, caseSensitive) {
      GreatestParts(s, m, name, caseSensitive);
    }
    if b[|b| - 1] == z && Before(name(a[m - 1]), name(z), caseSensitive) {
      forall i | 0 <= i < |s| - 1 ensures Before(name(s[i]), name(z), caseSensitive) {
        if i >= m {
          assert s[i] == s[m..][i - m] && z == s[m..][|s| - m - 1];
        } else {
          assert s[i] == s[..m][i] && s[i] in multiset(s[..m]);
          LastLast(a, s[i], name, caseSensitive);
          CompareTransitive(name(s[i]), name(a[m - 1]), name(z), caseSensitive);
        }
      }
    }
  }
}
