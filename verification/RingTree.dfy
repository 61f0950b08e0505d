// Trees that remember, for every object, where the first child's prev leads. Comparing sorts the
// objects that it reaches, in place.
module RingTree {
  import opened CStrings
  import opened Json
  import opened JsonCompare
  import opened MergeSort
  import opened Pointer
  import opened Rings
  import opened Seqs

  type Scalar = j: Json | !j.Array? && !j.Object? witness Null

  // Arrays are never sorted, so their rings stay closed.
  datatype Tree = Leaf(value: Scalar) | List(elems: seq<Tree>) | Dict(members: seq<Named>, back: Back)

  datatype Named = Named(key: string, value: Tree)

  function NameIn(m: Named): string {
    m.key
  }

  // The tree without its rings.
  function Erase(t: Tree): Json {
    match t
    case Leaf(j) => j
    case List(es) => Array(seq(|es|, i requires 0 <= i < |es| => Erase(es[i])))
    case Dict(ms, _) => Object(seq(|ms|, i requires 0 <= i < |ms| => Member(ms[i].key, Erase(ms[i].value))))
  }

  function EraseElems(es: seq<Tree>): (r: seq<Json>)
    ensures |r| == |es| && forall i :: 0 <= i < |es| ==> r[i] == Erase(es[i])
  {
    Erase(List(es)).elems
  }

  function EraseMembers(ms: seq<Named>): (r: seq<Member>)
    ensures |r| == |ms| && forall i :: 0 <= i < |ms| ==> r[i] == Member(ms[i].key, Erase(ms[i].value))
  {
    Erase(Dict(ms, Nowhere)).members
  }

  lemma MembersErased(t: Tree)
    requires t.Dict?
    ensures Erase(t) == Object(EraseMembers(t.members))
  {
  }

  lemma ElemsErased(t: Tree)
    requires t.List?
    ensures Erase(t).elems == EraseElems(t.elems)
    ensures forall i :: 0 <= i < |t.elems| ==>
      t.elems[i] < t && Erase(t.elems[i]) == Erase(t).elems[i] && Erase(t.elems[i]) < Erase(t)
  {
  }

  // What parsing and cJSON_Duplicate() make: every ring is closed.
  function Fresh(j: Json): Tree {
    match j
    case Array(es) => List(seq(|es|, i requires 0 <= i < |es| => Fresh(es[i])))
    case Object(ms) =>
      Dict(seq(|ms|, i requires 0 <= i < |ms| => Named(ms[i].key, Fresh(ms[i].value))), ClosedBack(|ms|))
    case _ => Leaf(j)
  }

  ghost predicate AllClosed(t: Tree) {
    match t
    case Leaf(_) => true
    case List(es) => forall i :: 0 <= i < |es| ==> AllClosed(es[i])
    case Dict(ms, back) => Closed(|ms|, back) && forall i :: 0 <= i < |ms| ==> AllClosed(ms[i].value)
  }

  lemma {:induction false} FreshIs(j: Json)
    ensures Erase(Fresh(j)) == j && AllClosed(Fresh(j))
  {
    match j {
      case Array(es) =>
        forall i | 0 <= i < |es| ensures Erase(Fresh(es[i])) == es[i] && AllClosed(Fresh(es[i])) {
          FreshIs(es[i]);
        }
        assert Erase(Fresh(j)).elems == es;
      case Object(ms) =>
        forall i | 0 <= i < |ms| ensures Erase(Fresh(ms[i].value)) == ms[i].value && AllClosed(Fresh(ms[i].value)) {
          FreshIs(ms[i].value);
        }
        assert Erase(Fresh(j)).members == ms;
      case _ =>
    }
  }

  // ---------- Nodes of a tree, by their location ----------

  function Child(t: Tree, i: nat): (c: Tree)
    requires i < ChildCount(Erase(t))
    ensures Erase(c) == ChildAt(Erase(t), i) && c < t
  {
    if t.List? then t.elems[i] else t.members[i].value
  }

  function NodeAt(t: Tree, loc: seq<nat>): (u: Tree)
    requires ValidLocation(Erase(t), loc)
    ensures Erase(u) == At(Erase(t), loc)
  {
    if loc == [] then t else NodeAt(Child(t, loc[0]), loc[1..])
  }

  function WithNode(t: Tree, i: nat, u: Tree): (r: Tree)
    requires i < ChildCount(Erase(t))
    ensures Erase(r) == WithChild(Erase(t), i, Erase(u))
  {
    if t.List? then
      assert EraseElems(t.elems[i := u]) == EraseElems(t.elems)[i := Erase(u)];
      List(t.elems[i := u])
    else
      var key := t.members[i].key;
      assert EraseMembers(t.members[i := Named(key, u)]) == EraseMembers(t.members)[i := Member(key, Erase(u))];
      t.(members := t.members[i := Named(key, u)])
  }

  function PutNode(t: Tree, loc: seq<nat>, u: Tree): (r: Tree)
    requires ValidLocation(Erase(t), loc)
    ensures Erase(r) == Put(Erase(t), loc, Erase(u))
  {
    if loc == [] then u else WithNode(t, loc[0], PutNode(Child(t, loc[0]), loc[1..], u))
  }

  lemma {:induction false} ClosedBelow(t: Tree, loc: seq<nat>, u: Tree)
    requires AllClosed(t) && ValidLocation(Erase(t), loc)
    ensures AllClosed(NodeAt(t, loc)) && (AllClosed(u) ==> AllClosed(PutNode(t, loc, u)))
    decreases |loc|
  {
    if loc != [] {
      ClosedBelow(Child(t, loc[0]), loc[1..], u);
    }
  }

  // ---------- Comparing ----------

  // sort_object() on the object of a tree
  function SortDict(t: Tree, caseSensitive: bool): (r: Tree)
    requires t.Dict?
    ensures r.Dict? && forall m <- r.members :: m in t.members && m.value < t
  {
    SortMembership(t.members, NameIn, caseSensitive);
    Dict(SortSeq(t.members, NameIn, caseSensitive), BackAfterSort(Names(t.members, NameIn), t.back, caseSensitive))
  }

  lemma SortDictErases(t: Tree, caseSensitive: bool)
    requires t.Dict?
    ensures EraseMembers(SortDict(t, caseSensitive).members) == SortedMembers(Erase(t), caseSensitive)
  {
    hide SortSeq, Order, Erase;
    var ms, es := t.members, EraseMembers(t.members);
    assert Erase(t).members == es by { MembersErased(t); }
    SortIsPick(ms, NameIn, caseSensitive);
    SortIsPick(es, KeyOf, caseSensitive);
    assert Names(ms, NameIn) == Names(es, KeyOf);
    var p := Order(Names(ms, NameIn), caseSensitive);
    assert EraseMembers(Pick(ms, p)) == Pick(es, p);
  }

  datatype Compared = Compared(same: bool, tree: Tree)
  datatype ComparedElems = ComparedElems(same: bool, elems: seq<Tree>)
  datatype ComparedMembers = ComparedMembers(same: bool, members: seq<Named>)

  // compare_json(): the answer, and the first tree as sorting leaves it. What lies behind the first
  // difference is not reached.
  function Compare(a: Tree, b: Json, caseSensitive: bool): Compared
    decreases a, 1
  {
    match (a, b)
    case (List(es), Array(fs)) =>
      var r := CompareInList(a, es, fs, caseSensitive);
      Compared(r.same, List(r.elems))
    case (Dict(_, _), Object(_)) =>
      var s := SortDict(a, caseSensitive);
      var r := CompareInDict(a, s.members, SortedMembers(b, caseSensitive), caseSensitive);
      Compared(r.same, Dict(r.members, s.back))
    case _ => Compared(CompareJson(Erase(a), b, caseSensitive), a)
  }

  function CompareInList(ghost whole: Tree, es: seq<Tree>, fs: seq<Json>, caseSensitive: bool): (r: ComparedElems)
    requires forall i :: 0 <= i < |es| ==> es[i] < whole
    ensures |r.elems| == |es|
    decreases whole, 0, |es|
  {
    if es == [] || fs == [] then ComparedElems(es == [] && fs == [], es)
    else
      var c := Compare(es[0], fs[0], caseSensitive);
      if !c.same then ComparedElems(false, [c.tree] + es[1..])
      else
        var r := CompareInList(whole, es[1..], fs[1..], caseSensitive);
        ComparedElems(r.same, [c.tree] + r.elems)
  }

  function CompareInDict(ghost whole: Tree, ms: seq<Named>, ns: seq<Member>, caseSensitive: bool): (r: ComparedMembers)
    requires forall m <- ms :: m.value < whole
    ensures |r.members| == |ms| && forall i :: 0 <= i < |ms| ==> r.members[i].key == ms[i].key
    decreases whole, 0, |ms|
  {
    if ms == [] || ns == [] then ComparedMembers(ms == [] && ns == [], ms)
    else if CompareStrings(ms[0].key, ns[0].key, caseSensitive) != 0 then ComparedMembers(false, ms)
    else
      var c := Compare(ms[0].value, ns[0].value, caseSensitive);
      if !c.same then ComparedMembers(false, [Named(ms[0].key, c.tree)] + ms[1..])
      else
        var r := CompareInDict(whole, ms[1..], ns[1..], caseSensitive);
        ComparedMembers(r.same, [Named(ms[0].key, c.tree)] + r.members)
  }

  // compare_json() itself, on a tree and the value that a patch gives
  method CompareTrees(a: Tree, b: Json, caseSensitive: bool) returns (r: Compared)
    ensures r == Compare(a, b, caseSensitive)
    decreases a, 1
  {
    if a.List? && b.Array? {
      var elems := CompareLists(a, b, caseSensitive);
      return Compared(elems.same, List(elems.elems));
    } else if a.Dict? && b.Object? {
      var s := SortDict(a, caseSensitive);
      var members := CompareDicts(a, s.members, SortedMembers(b, caseSensitive), caseSensitive);
      return Compared(members.same, Dict(members.members, s.back));
    } else {
      var same := CompareJsonTrees(Erase(a), b, caseSensitive);
      return Compared(same, a);
    }
  }

  method CompareLists(a: Tree, b: Json, caseSensitive: bool) returns (r: ComparedElems)
    requires a.List? && b.Array?
    ensures r == CompareInList(a, a.elems, b.elems, caseSensitive)
    decreases a, 0
  {
    var es, fs := a.elems, b.elems;
    var done: seq<Tree> := [];
    Whole(es);
    Whole(fs);
    var i := 0;
    while i < |es| && i < |fs|
      invariant 0 <= i <= |es| && i <= |fs|
      invariant var rest := CompareInList(a, es[i..], fs[i..], caseSensitive);
        CompareInList(a, es, fs, caseSensitive) == ComparedElems(rest.same, done + rest.elems)
    {
      Next(es, i);
      Next(fs, i);
      var c := CompareTrees(es[i], fs[i], caseSensitive);
      if !c.same {
        return ComparedElems(false, done + ([c.tree] + es[i + 1..]));
      }
      Assoc(done, [c.tree], CompareInList(a, es[i + 1..], fs[i + 1..], caseSensitive).elems);
      done := done + [c.tree];
      i := i + 1;
    }
    return ComparedElems(i == |es| && i == |fs|, done + es[i..]);
  }

  method CompareDicts(ghost a: Tree, ms: seq<Named>, ns: seq<Member>, caseSensitive: bool) returns (r: ComparedMembers)
    requires forall m <- ms :: m.value < a
    ensures r == CompareInDict(a, ms, ns, caseSensitive)
    decreases a, 0
  {
    var done: seq<Named> := [];
    Whole(ms);
    Whole(ns);
    var i := 0;
    while i < |ms| && i < |ns|
      invariant 0 <= i <= |ms| && i <= |ns|
      invariant var rest := CompareInDict(a, ms[i..], ns[i..], caseSensitive);
        CompareInDict(a, ms, ns, caseSensitive) == ComparedMembers(rest.same, done + rest.members)
    {
      Next(ms, i);
      Next(ns, i);
      assert ms[i] in ms;
      if CompareStrings(ms[i].key, ns[i].key, caseSensitive) != 0 {
        return ComparedMembers(false, done + ms[i..]);
      }
      var c := CompareTrees(ms[i].value, ns[i].value, caseSensitive);
      var m := Named(ms[i].key, c.tree);
      if !c.same {
        return ComparedMembers(false, done + ([m] + ms[i + 1..]));
      }
      Assoc(done, [m], CompareInDict(a, ms[i + 1..], ns[i + 1..], caseSensitive).members);
      done := done + [m];
      i := i + 1;
    }
    return ComparedMembers(i == |ms| && i == |ns|, done + ms[i..]);
  }

  // The answer is that for the trees without their rings.
  lemma {:induction false} CompareErases(a: Tree, b: Json, caseSensitive: bool)
    ensures Compare(a, b, caseSensitive).same == CompareJson(Erase(a), b, caseSensitive)
    decreases a, 1
  {
    if a.List? && b.Array? {
      ElemsErased(a);
      ListErases(a, Erase(a), a.elems, b.elems, caseSensitive);
    } else if a.Dict? && b.Object? {
      SortDictErases(a, caseSensitive);
      DictErases(a, Erase(a), SortDict(a, caseSensitive).members, SortedMembers(b, caseSensitive), caseSensitive);
    }
  }

  lemma {:induction false} ListErases(whole: Tree, erased: Json, es: seq<Tree>, fs: seq<Json>, caseSensitive: bool)
    requires forall i :: 0 <= i < |es| ==> es[i] < whole && Erase(es[i]) < erased
    ensures CompareInList(whole, es, fs, caseSensitive).same == CompareElems(erased, EraseElems(es), fs, caseSensitive)
    decreases whole, 0, |es|
  {
    if es != [] && fs != [] {
      CompareErases(es[0], fs[0], caseSensitive);
      ListErases(whole, erased, es[1..], fs[1..], caseSensitive);
      assert EraseElems(es)[1..] == EraseElems(es[1..]);
    }
  }

  lemma {:induction false} DictErases(whole: Tree, erased: Json, ms: seq<Named>, ns: seq<Member>, caseSensitive: bool)
    requires forall m <- ms :: m.value < whole && Erase(m.value) < erased
    ensures forall m <- EraseMembers(ms) :: m.value < erased
    ensures CompareInDict(whole, ms, ns, caseSensitive).same == CompareMembers(erased, EraseMembers(ms), ns, caseSensitive)
    decreases whole, 0, |ms|
  {
    assert forall i :: 0 <= i < |ms| ==> ms[i] in ms;
    if ms != [] && ns != [] {
      CompareErases(ms[0].value, ns[0].value, caseSensitive);
      DictErases(whole, erased, ms[1..], ns[1..], caseSensitive);
      assert EraseMembers(ms)[1..] == EraseMembers(ms[1..]);
    }
  }

  // Members with the same keys and with values that denote the same, one by one.
  ghost predicate SameMeaning(ms: seq<Named>, ns: seq<Named>, exact: bool) {
    |ns| == |ms| && forall i :: 0 <= i < |ms| ==>
      && ns[i].key == ms[i].key && Denote(Erase(ns[i].value)) == Denote(Erase(ms[i].value))
      && (Formed(Erase(ms[i].value), exact) ==> Formed(Erase(ns[i].value), exact))
  }

  lemma {:induction false} SameMap(ms: seq<Named>, ns: seq<Named>, exact: bool)
    requires SameMeaning(ms, ns, exact)
    ensures DenoteMembers(EraseMembers(ns)) == DenoteMembers(EraseMembers(ms))
    decreases |ms|
  {
    if ms != [] {
      SameMap(ms[1..], ns[1..], exact);
      assert EraseMembers(ms)[1..] == EraseMembers(ms[1..]) && EraseMembers(ns)[1..] == EraseMembers(ns[1..]);
    }
  }

  // Whatever sorting leaves, the tree denotes what it did.
  lemma {:induction false} CompareKeeps(a: Tree, b: Json, caseSensitive: bool)
    requires Formed(Erase(a), caseSensitive)
    ensures var r := Erase(Compare(a, b, caseSensitive).tree); Denote(r) == Denote(Erase(a)) && Formed(r, caseSensitive)
    decreases a, 1
  {
    if a.List? && b.Array? {
      ElemsErased(a);
      ListKeeps(a, a.elems, b.elems, caseSensitive);
      assert Denote(Erase(Compare(a, b, caseSensitive).tree)).elems == Denote(Erase(a)).elems;
    } else if a.Dict? && b.Object? {
      DictKeeps(a, b, caseSensitive);
    }
  }

  lemma {:induction false} ListKeeps(whole: Tree, es: seq<Tree>, fs: seq<Json>, caseSensitive: bool)
    requires forall i :: 0 <= i < |es| ==> es[i] < whole && Formed(Erase(es[i]), caseSensitive)
    ensures var r := CompareInList(whole, es, fs, caseSensitive).elems;
      forall i :: 0 <= i < |es| ==> Denote(Erase(r[i])) == Denote(Erase(es[i])) && Formed(Erase(r[i]), caseSensitive)
    decreases whole, 0, |es|
  {
    hide Formed, Denote, Erase, Compare;
    if es != [] && fs != [] {
      CompareKeeps(es[0], fs[0], caseSensitive);
      ListKeeps(whole, es[1..], fs[1..], caseSensitive);
    }
  }

  lemma {:induction false} MembersKeep(whole: Tree, ms: seq<Named>, ns: seq<Member>, caseSensitive: bool)
    requires forall i :: 0 <= i < |ms| ==> ms[i].value < whole && Formed(Erase(ms[i].value), caseSensitive)
    ensures SameMeaning(ms, CompareInDict(whole, ms, ns, caseSensitive).members, caseSensitive)
    decreases whole, 0, |ms|
  {
    hide Formed, Denote, Erase, Compare, CompareStrings;
    if ms != [] && ns != [] {
      CompareKeeps(ms[0].value, ns[0].value, caseSensitive);
      MembersKeep(whole, ms[1..], ns[1..], caseSensitive);
    }
  }

  lemma {:induction false} DictKeeps(a: Tree, b: Json, caseSensitive: bool)
    requires a.Dict? && b.Object? && Formed(Erase(a), caseSensitive)
    ensures var r := Erase(Compare(a, b, caseSensitive).tree); Denote(r) == Denote(Erase(a)) && Formed(r, caseSensitive)
    decreases a, 0
  {
    var s := SortDict(a, caseSensitive).members;
    var r := CompareInDict(a, s, SortedMembers(b, caseSensitive), caseSensitive).members;
    SortedFormed(a, caseSensitive);
    assert forall i :: 0 <= i < |s| ==> s[i] in s;
    MembersKeep(a, s, SortedMembers(b, caseSensitive), caseSensitive);
    SameMap(s, r, caseSensitive);
    StillTold(s, r, caseSensitive);
    assert EraseMembers(r) == Erase(Compare(a, b, caseSensitive).tree).members;
  }

  lemma SortedFormed(a: Tree, caseSensitive: bool)
    requires a.Dict? && Formed(Erase(a), caseSensitive)
    ensures var s := SortDict(a, caseSensitive).members;
      && DenoteMembers(EraseMembers(s)) == DenoteMembers(Erase(a).members)
      && Formed(Object(EraseMembers(s)), caseSensitive)
      && forall i :: 0 <= i < |s| ==> Formed(Erase(s[i].value), caseSensitive)
  {
    var s, ms := SortDict(a, caseSensitive).members, Erase(a).members;
    SortDictErases(a, caseSensitive);
    SortedDenotes(Erase(a), caseSensitive);
    var r := EraseMembers(s);
    forall i | 0 <= i < |r| ensures NulFree(r[i].key) && Formed(r[i].value, caseSensitive) {
      assert r[i] in ms;
      var j :| 0 <= j < |ms| && ms[j] == r[i];
    }
    assert forall i :: 0 <= i < |s| ==> r[i].value == Erase(s[i].value);
  }

  lemma StillTold(ms: seq<Named>, ns: seq<Named>, exact: bool)
    requires SameMeaning(ms, ns, exact) && Formed(Object(EraseMembers(ms)), exact)
    ensures Formed(Object(EraseMembers(ns)), exact)
  {
    var es, fs := EraseMembers(ms), EraseMembers(ns);
    forall i, j | 0 <= i < j < |fs|
      ensures fs[i].key != fs[j].key && (!exact ==> !SameName(fs[i].key, fs[j].key, false))
    {
      assert es[i].key == fs[i].key && es[j].key == fs[j].key;
    }
  }
}
