// compare_json(): equality of trees by way of sorted member lists.
module JsonCompare {
  import opened CStrings
  import opened Json
  import opened MergeSort
  import opened Seqs

  // The members in the order that sort_object() gives them.
  function SortedMembers(o: Json, caseSensitive: bool): (r: seq<Member>)
    requires o.Object?
    ensures forall m <- r :: m in o.members && m.value < o
  {
    SortMembership(o.members, KeyOf, caseSensitive);
    SortSeq(o.members, KeyOf, caseSensitive)
  }

  function CompareJson(a: Json, b: Json, caseSensitive: bool): bool
    decreases a, 1
  {
    match (a, b)
    case (Number(m), Number(n)) => m == n
    case (String(s), String(t)) => s == t
    case (Array(es), Array(fs)) => CompareElems(a, es, fs, caseSensitive)
    case (Object(_), Object(_)) =>
      CompareMembers(a, SortedMembers(a, caseSensitive), SortedMembers(b, caseSensitive), caseSensitive)
    case _ => a == b
  }

  function CompareElems(ghost whole: Json, es: seq<Json>, fs: seq<Json>, caseSensitive: bool): bool
    requires forall i :: 0 <= i < |es| ==> es[i] < whole
    decreases whole, 0, |es|
  {
    if es == [] || fs == [] then es == [] && fs == []
    else CompareJson(es[0], fs[0], caseSensitive) && CompareElems(whole, es[1..], fs[1..], caseSensitive)
  }

  function CompareMembers(ghost whole: Json, ms: seq<Member>, ns: seq<Member>, caseSensitive: bool): bool
    requires forall m <- ms :: m.value < whole
    decreases whole, 0, |ms|
  {
    if ms == [] || ns == [] then ms == [] && ns == []
    else
      && CompareStrings(ms[0].key, ns[0].key, caseSensitive) == 0
      && CompareJson(ms[0].value, ns[0].value, caseSensitive)
      && CompareMembers(whole, ms[1..], ns[1..], caseSensitive)
  }

  // compare_json() itself, but for what sorting leaves in the trees
  method CompareJsonTrees(a: Json, b: Json, caseSensitive: bool) returns (same: bool)
    ensures same == CompareJson(a, b, caseSensitive)
    decreases a, 1
  {
    match (a, b) {
      case (Number(m), Number(n)) => same := m == n;
      case (String(s), String(t)) => same := s == t;
      case (Array(_), Array(_)) => same := CompareArrays(a, b, caseSensitive);
      case (Object(_), Object(_)) => same := CompareObjects(a, b, caseSensitive);
      case _ => same := a == b;
    }
  }

  method CompareArrays(a: Json, b: Json, caseSensitive: bool) returns (same: bool)
    requires a.Array? && b.Array?
    ensures same == CompareElems(a, a.elems, b.elems, caseSensitive)
    decreases a, 0
  {
    var es, fs := a.elems, b.elems;
    var i := 0;
    Whole(es);
    Whole(fs);
    while i < |es| && i < |fs|
      invariant 0 <= i <= |es| && i <= |fs|
      invariant CompareElems(a, es, fs, caseSensitive) == CompareElems(a, es[i..], fs[i..], caseSensitive)
    {
      Next(es, i);
      Next(fs, i);
      var identical := CompareJsonTrees(es[i], fs[i], caseSensitive);
      if !identical {
        return false;
      }
      i := i + 1;
    }
    return i == |es| && i == |fs|;
  }

  method CompareObjects(a: Json, b: Json, caseSensitive: bool) returns (same: bool)
    requires a.Object? && b.Object?
    ensures same == CompareMembers(a, SortedMembers(a, caseSensitive), SortedMembers(b, caseSensitive), caseSensitive)
    decreases a, 0
  {
    var ms, ns := SortedMembers(a, caseSensitive), SortedMembers(b, caseSensitive);
    var i := 0;
    Whole(ms);
    Whole(ns);
    while i < |ms| && i < |ns|
      invariant 0 <= i <= |ms| && i <= |ns|
      invariant CompareMembers(a, ms, ns, caseSensitive) == CompareMembers(a, ms[i..], ns[i..], caseSensitive)
    {
      Next(ms, i);
      Next(ns, i);
      if CompareStrings(ms[i].key, ns[i].key, caseSensitive) != 0 {
        return false;
      }
      assert ms[i] in ms;
      var identical := CompareJsonTrees(ms[i].value, ns[i].value, caseSensitive);
      if !identical {
        return false;
      }
      i := i + 1;
    }
    return i == |ms| && i == |ns|;
  }

  // ---------- Sorted member lists ----------

  // Every key comes before every later one.
  ghost predicate Ascending(ms: seq<Member>, caseSensitive: bool) {
    forall i, j :: 0 <= i < j < |ms| ==> Before(ms[i].key, ms[j].key, caseSensitive)
  }

  lemma {:induction false} UniqueOnce(ms: seq<Member>, x: Member)
    requires DistinctKeys(ms)
    ensures multiset(ms)[x] <= 1
  {
    if ms != [] {
      var t := ms[1..];
      assert ms == [ms[0]] + t;
      assert forall i :: 0 <= i < |t| ==> t[i] == ms[i + 1];
      UniqueOnce(t, x);
    }
  }

  lemma TwiceCounts<T>(s: seq<T>, i: nat, j: nat)
    requires i < j < |s| && s[i] == s[j]
    ensures multiset(s)[s[i]] >= 2
  {
    assert s == s[..j] + s[j..];
    assert s[..j][i] in multiset(s[..j]) && s[j..][0] in multiset(s[j..]);
  }

  // Where two entries of a permutation stood before.
  lemma PermutedFrom(ms: seq<Member>, ns: seq<Member>, i: nat, j: nat) returns (p: nat, q: nat)
    requires DistinctKeys(ms) && multiset(ms) == multiset(ns) && i < j < |ns|
    ensures p < |ms| && q < |ms| && p != q && ms[p] == ns[i] && ms[q] == ns[j]
  {
    assert ns[i] in multiset(ns) && ns[j] in multiset(ns);
    p :| 0 <= p < |ms| && ms[p] == ns[i];
    q :| 0 <= q < |ms| && ms[q] == ns[j];
    if p == q {
      TwiceCounts(ns, i, j);
      UniqueOnce(ms, ns[i]);
    }
  }

  lemma PermutedUnique(ms: seq<Member>, ns: seq<Member>, exact: bool)
    requires KeysTold(ms, exact) && multiset(ms) == multiset(ns)
    ensures KeysTold(ns, exact)
  {
    forall i, j | 0 <= i < j < |ns|
      ensures ns[i].key != ns[j].key && (!exact ==> !SameName(ns[i].key, ns[j].key, false))
    {
      var p, q := PermutedFrom(ms, ns, i, j);
      if q < p {
        assert ms[q].key != ms[p].key && (!exact ==> !SameName(ms[q].key, ms[p].key, false));
      }
    }
  }

  // Sorting an object with unique keys orders them strictly and keeps the map.
  lemma SortedDenotes(o: Json, caseSensitive: bool)
    requires o.Object? && KeysTold(o.members, caseSensitive)
    ensures var r := SortedMembers(o, caseSensitive);
      && Ascending(r, caseSensitive) && DistinctKeys(r) && (UniqueKeys(o.members) ==> UniqueKeys(r))
      && DenoteMembers(r) == DenoteMembers(o.members)
      && forall m :: m in r <==> m in o.members
  {
    var ms, r := o.members, SortedMembers(o, caseSensitive);
    SortPermutes(ms, KeyOf, caseSensitive);
    SortSorts(ms, KeyOf, caseSensitive);
    SortMembership(ms, KeyOf, caseSensitive);
    PermutedUnique(ms, r, caseSensitive);
    if UniqueKeys(ms) {
      PermutedUnique(ms, r, false);
    }
    forall i, j | 0 <= i < j < |r| ensures Before(r[i].key, r[j].key, caseSensitive) {
      assert CompareStrings(KeyOf(r[i]), KeyOf(r[j]), caseSensitive) <= 0;
      CompareZero(r[i].key, r[j].key, caseSensitive);
      SameNameExact(r[i].key, r[j].key);
    }
    PermutedMap(ms, r);
  }

  lemma PermutedMap(ms: seq<Member>, r: seq<Member>)
    requires DistinctKeys(ms) && DistinctKeys(r) && forall m :: m in r <==> m in ms
    ensures DenoteMembers(r) == DenoteMembers(ms)
  {
    MembersMap(ms);
    forall k | k in DenoteMembers(ms) ensures exists i :: 0 <= i < |r| && r[i].key == k {
      var j :| 0 <= j < |ms| && ms[j].key == k;
      assert ms[j] in r;
      var i :| 0 <= i < |r| && r[i] == ms[j];
    }
    forall i | 0 <= i < |r|
      ensures r[i].key in DenoteMembers(ms) && DenoteMembers(ms)[r[i].key] == Denote(r[i].value)
    {
      assert r[i] in ms;
      var j :| 0 <= j < |ms| && ms[j] == r[i];
    }
    MapIs(r, DenoteMembers(ms));
  }

  // A key before the first of an ascending list is not in the list.
  lemma BelowAll(k: string, ms: seq<Member>, caseSensitive: bool)
    requires Ascending(ms, caseSensitive) && (ms != [] ==> Before(k, ms[0].key, caseSensitive))
    ensures forall m <- ms :: m.key != k && Before(k, m.key, caseSensitive)
    ensures k !in DenoteMembers(ms)
  {
    MembersMap(ms);
    forall i | 0 <= i < |ms| ensures Before(k, ms[i].key, caseSensitive) && ms[i].key != k {
      if i > 0 {
        CompareTransitive(k, ms[0].key, ms[i].key, caseSensitive);
      }
      CompareZero(k, k, caseSensitive);
    }
  }

  lemma AscendingTail(ms: seq<Member>, caseSensitive: bool)
    requires Ascending(ms, caseSensitive) && ms != []
    ensures Ascending(ms[1..], caseSensitive) && (UniqueKeys(ms) ==> UniqueKeys(ms[1..]))
    ensures ms[0].key !in DenoteMembers(ms[1..])
    ensures DenoteMembers(ms) == DenoteMembers(ms[1..])[ms[0].key := Denote(ms[0].value)]
  {
    var t := ms[1..];
    assert forall i :: 0 <= i < |t| ==> t[i] == ms[i + 1];
    BelowAll(ms[0].key, t, caseSensitive);
  }

  // ---------- What the comparison decides ----------

  // Keys of the two trees that differ only in letter case do not meet.
  ghost predicate CaseCompatible(a: Json, b: Json)
    decreases a
  {
    match (a, b)
    case (Array(es), Array(fs)) => forall i :: 0 <= i < |es| && i < |fs| ==> CaseCompatible(es[i], fs[i])
    case (Object(ms), Object(ns)) =>
      forall i, j :: 0 <= i < |ms| && 0 <= j < |ns| && SameName(ms[i].key, ns[j].key, false) ==>
        ms[i].key == ns[j].key && CaseCompatible(ms[i].value, ns[j].value)
    case _ => true
  }

  // Two trees compare equal exactly when they denote the same value.
  lemma {:induction false} CompareAgrees(a: Json, b: Json, caseSensitive: bool)
    requires Formed(a, caseSensitive) && Formed(b, caseSensitive) && (caseSensitive || CaseCompatible(a, b))
    ensures CompareJson(a, b, caseSensitive) <==> Denote(a) == Denote(b)
    decreases a, 1
  {
    if a.Array? && b.Array? {
      ElemsAgree(a, a.elems, b.elems, caseSensitive);
    } else if a.Object? && b.Object? {
      SortedDenotes(a, caseSensitive);
      SortedDenotes(b, caseSensitive);
      forall x: string, y: string | SameName(x, y, true) ensures x == y {
        SameNameExact(x, y);
      }
      MembersAgree(a, SortedMembers(a, caseSensitive), SortedMembers(b, caseSensitive), caseSensitive);
    }
  }

  ghost function DenoteElems(es: seq<Json>): seq<Value> {
    Denote(Array(es)).elems
  }

  lemma {:induction false} ElemsAgree(whole: Json, es: seq<Json>, fs: seq<Json>, caseSensitive: bool)
    requires forall i :: 0 <= i < |es| ==> es[i] < whole && Formed(es[i], caseSensitive)
    requires forall i :: 0 <= i < |fs| ==> Formed(fs[i], caseSensitive)
    requires forall i :: 0 <= i < |es| && i < |fs| ==> caseSensitive || CaseCompatible(es[i], fs[i])
    ensures CompareElems(whole, es, fs, caseSensitive) <==> DenoteElems(es) == DenoteElems(fs)
    decreases whole, 0, |es|
  {
    if es == [] || fs == [] {
      assert |DenoteElems(es)| == |es| && |DenoteElems(fs)| == |fs|;
    } else {
      CompareAgrees(es[0], fs[0], caseSensitive);
      ElemsAgree(whole, es[1..], fs[1..], caseSensitive);
      ConsElems(es);
      ConsElems(fs);
    }
  }

  lemma ConsElems(es: seq<Json>)
    requires es != []
    ensures DenoteElems(es) == [Denote(es[0])] + DenoteElems(es[1..])
    ensures DenoteElems(es)[0] == Denote(es[0]) && DenoteElems(es)[1..] == DenoteElems(es[1..])
  {
  }

  lemma {:induction false} MembersAgree(whole: Json, ms: seq<Member>, ns: seq<Member>, caseSensitive: bool)
    requires forall m <- ms :: m.value < whole
    requires Ascending(ms, caseSensitive) && Ascending(ns, caseSensitive)
    requires forall m <- ms :: Formed(m.value, caseSensitive)
    requires forall n <- ns :: Formed(n.value, caseSensitive)
    requires forall m <- ms, n <- ns :: SameName(m.key, n.key, caseSensitive) ==>
      m.key == n.key && (caseSensitive || CaseCompatible(m.value, n.value))
    ensures CompareMembers(whole, ms, ns, caseSensitive) <==> DenoteMembers(ms) == DenoteMembers(ns)
    decreases whole, 0, |ms|
  {
    if ms == [] || ns == [] {
      assert ms != [] ==> ms[0].key in DenoteMembers(ms);
      assert ns != [] ==> ns[0].key in DenoteMembers(ns);
    } else {
      var m, n := ms[0], ns[0];
      assert m in ms && n in ns;
      CompareZero(m.key, n.key, caseSensitive);
      CompareFlip(m.key, n.key, caseSensitive);
      CompareFlip(n.key, m.key, caseSensitive);
      SameNameExact(m.key, n.key);
      AscendingTail(ms, caseSensitive);
      AscendingTail(ns, caseSensitive);
      if m.key == n.key {
        CompareAgrees(m.value, n.value, caseSensitive);
        MembersAgree(whole, ms[1..], ns[1..], caseSensitive);
        SameEntries(m.key, DenoteMembers(ms[1..]), Denote(m.value), DenoteMembers(ns[1..]), Denote(n.value));
      } else if Before(m.key, n.key, caseSensitive) {
        BelowAll(m.key, ns, caseSensitive);
        assert m.key in DenoteMembers(ms);
      } else {
        BelowAll(n.key, ms, caseSensitive);
        assert n.key in DenoteMembers(ns);
      }
    }
  }

  lemma SameEntries(k: string, p: map<string, Value>, x: Value, q: map<string, Value>, y: Value)
    requires k !in p && k !in q
    ensures p[k := x] == q[k := y] <==> x == y && p == q
  {
    if p[k := x] == q[k := y] {
      assert p[k := x][k] == q[k := y][k];
      assert p == p[k := x] - {k} && q == q[k := y] - {k};
    }
  }
}
