// What a test, or a generator, does to a document by sorting it.
module SortedInPlace {
  import opened CStrings
  import opened Json
  import opened JsonCompare
  import opened JsonPatch
  import opened MergeSort
  import opened PatchDiff
  import opened PatchMeaning
  import opened PatchRings
  import opened PatchRuns
  import opened Pointer
  import opened PointerText
  import opened RingTree
  import opened Rings

  // A test of the whole document against a tree, and the addition of a member to it.
  function TestAndAdd(v: Json, k: string, y: Json): seq<Json> {
    [ComposePatch("test", "", None, Some(v)), ComposePatch("add", "", Some(k), Some(y))]
  }

  ghost function TestAndAddOps(v: Json, k: string, y: Json): seq<Operation> {
    [Test([], Denote(v)), Add([k], Denote(y))]
  }

  // An object with a closed ring, a tree that denotes the same, and a new key.
  ghost predicate Testable(t: Tree, v: Json, k: string, y: Json) {
    && t.Dict? && t.members != [] && Closed(|t.members|, t.back) && Formed(Erase(t), true)
    && Formed(v, true) && Denote(v) == Denote(Erase(t)) && Formed(y, true)
    && GoodLast(k) && k !in DenoteMembers(EraseMembers(t.members))
  }

  lemma PatchesEncode(v: Json, k: string, y: Json)
    requires Formed(v, true) && Formed(y, true)
    ensures Encodes(TestAndAdd(v, k, y)[0], TestAndAddOps(v, k, y)[0])
    ensures Encodes(TestAndAdd(v, k, y)[1], TestAndAddOps(v, k, y)[1])
  {
    hide Formed, Denote, ItemNamed, ComposePatch;
    ComposedFields("test", "", None, Some(v));
    ComposedFields("add", "", Some(k), Some(y));
    SplitPath([], k);
    assert [] + [k] == [k];
    EmptyPath();
    assert Render([]) + "/" + Encode(k) == Render([k]);
  }

  // What the test leaves: the members in order, with values that mean what they did.
  lemma AfterTest(t: Tree, v: Json, k: string, y: Json)
    requires Testable(t, v, k, y)
    ensures var r := Apply(t, TestAndAdd(v, k, y)[0], true);
      && r == Known(0, Compare(t, v, true).tree)
      && r.tree.Dict? && |r.tree.members| == |t.members| && r.tree.back == SortDict(t, true).back
      && Formed(Erase(r.tree), true) && Denote(Erase(r.tree)) == Denote(Erase(t))
  {
    var patch, op := TestAndAdd(v, k, y)[0], TestAndAddOps(v, k, y)[0];
    PatchesEncode(v, k, y);
    ApplyIs(t, patch, op);
    ComposedFields("test", "", None, Some(v));
    TestFollows(t, patch, []);
    CompareErases(t, v, true);
    CompareAgrees(Erase(t), v, true);
    assert Locate(Erase(t), "", true) == Some([]);
    assert v.Object?;
    SortMembership(t.members, NameIn, true);
  }

  // Adding to an object by its own key: what is safe, and what becomes of it.
  lemma AddAtRoot(t: Tree, k: string, y: Json)
    requires t.Dict? && GoodLast(k) && Formed(y, true) && DistinctKeys(EraseMembers(t.members))
    requires k !in DenoteMembers(EraseMembers(t.members))
    ensures var patch := TestAndAdd(y, k, y)[1];
      && (Safe(t, patch, true) <==> Closed(|t.members|, t.back))
      && (!LeadsAstray(|t.members|, t.back) ==>
            Apply(t, patch, true)
              == Known(0, Dict(Appended(t.members, t.back, Named(k, Fresh(y))), BackAfterAppend(|t.members|, t.back))))
  {
    hide Formed, Denote, GoodLast, Apply, Safe, Encodes, ComposePatch, ItemNamed, ClosedAlong, AddAlong, Erase, Appended, Fresh;
    var patch, op := TestAndAdd(y, k, y)[1], TestAndAddOps(y, k, y)[1];
    PatchesEncode(y, k, y);
    ComposedFields("add", "", Some(k), Some(y));
    ApplyIs(t, patch, op);
    SafeIs(t, patch, op);
    assert [] + [k] == [k];
    AlongUnfolds(t, [], k, Fresh(y));
    EmptyPath();
    NothingCleared(t, k);
  }

  lemma NothingCleared(t: Tree, k: string)
    requires t.Dict? && DistinctKeys(EraseMembers(t.members)) && k !in DenoteMembers(EraseMembers(t.members))
    ensures Cleared(t, k, true) == t
    ensures Locate(Erase(t), "", true) == Some([]) && ValidLocation(Erase(t), []) && NodeAt(t, []) == t
  {
    MembersErased(t);
    FindInMap(EraseMembers(t.members), k);
  }

  // Testing a document and then adding a member to it does what the RFC says exactly when its first
  // member's key came before all others and its last member's behind all others.
  lemma TestThenAddExactly(t: Tree, v: Json, k: string, y: Json)
    requires Testable(t, v, k, y)
    ensures FollowsRun(t, TestAndAdd(v, k, y), TestAndAddOps(v, k, y))
      <==> FirstIsLeast(t.members, NameIn, true) && LastIsGreatest(t.members, NameIn, true)
  {
    hide Formed, Denote, Compare, Erase, Apply, Safe, GoodLast, FirstIsLeast, LastIsGreatest, BackAfterSort;
    var ps, ops := TestAndAdd(v, k, y), TestAndAddOps(v, k, y);
    AfterTest(t, v, k, y);
    var u := Apply(t, ps[0], true).tree;
    PatchesEncode(v, k, y);
    FirstFollows(t, v, k, y);
    SecondIsClear(u, t, k, y);
    ApplyFollowsExactly(u, ps[1], ops[1]);
    AddAtRoot(u, k, y);
    ClosedAfterSort(t.members, t.back, NameIn, true);
    assert ps[1..] == [ps[1]] && ops[1..] == [ops[1]];
    LastStep(u, ps[1], ops[1]);
  }

  lemma LastStep(u: Tree, patch: Json, op: Operation)
    ensures FollowsRun(u, [patch], [op]) <==> Follows(Apply(u, patch, true), Rfc6902(Denote(Erase(u)), op))
  {
    hide Apply, Follows, Rfc6902;
    assert [patch][1..] == [] && [op][1..] == [];
  }

  lemma FirstFollows(t: Tree, v: Json, k: string, y: Json)
    requires Testable(t, v, k, y)
    ensures Follows(Apply(t, TestAndAdd(v, k, y)[0], true), Rfc6902(Denote(Erase(t)), Test([], Denote(v))))
  {
    hide Denote, Erase, Formed, Compare, Apply, CompareJson;
    AfterTest(t, v, k, y);
    TestSucceeds(t, v, k, y);
    WholeIs(Denote(Erase(t)), VNull);
  }

  lemma TestSucceeds(t: Tree, v: Json, k: string, y: Json)
    requires Testable(t, v, k, y)
    ensures Apply(t, TestAndAdd(v, k, y)[0], true).Known? && Apply(t, TestAndAdd(v, k, y)[0], true).status == 0
  {
    AfterTest(t, v, k, y);
  }

  lemma SecondIsClear(u: Tree, t: Tree, k: string, y: Json)
    requires u.Dict? && t.Dict? && Denote(Erase(u)) == Denote(Erase(t)) && Formed(Erase(u), true) && GoodLast(k)
    requires k !in DenoteMembers(EraseMembers(t.members))
    ensures Clear(Denote(Erase(u)), Add([k], Denote(y))) && TakesRight(Erase(u), Add([k], Denote(y)))
    ensures DistinctKeys(EraseMembers(u.members)) && k !in DenoteMembers(EraseMembers(u.members))
  {
    MembersErased(u);
    MembersErased(t);
    assert [k][0] == k;
  }

  // ---------- Inputs ----------

  ghost predicate Flat(t: Tree) {
    t.Dict? && forall i :: 0 <= i < |t.members| ==> t.members[i].value.Leaf?
  }

  lemma {:induction false} FlatStays(whole: Tree, ms: seq<Named>, ns: seq<Member>)
    requires forall m <- ms :: m.value < whole && m.value.Leaf?
    ensures CompareInDict(whole, ms, ns, true).members == ms
    decreases |ms|
  {
    hide CompareStrings, CompareJson;
    if ms != [] && ns != [] {
      assert ms[0] in ms;
      FlatStays(whole, ms[1..], ns[1..]);
      assert [ms[0]] + ms[1..] == ms;
    }
  }

  lemma CompareFlat(t: Tree, v: Json)
    requires Flat(t) && v.Object?
    ensures Compare(t, v, true).tree == SortDict(t, true)
  {
    var s := SortDict(t, true);
    forall m | m in s.members ensures m.value.Leaf? {
      assert m in t.members;
    }
    FlatStays(t, s.members, SortedMembers(v, true));
  }

  // Both patches on a flat object: the members in order, and the new one where the ring leads.
  lemma FlatTestThenAdd(t: Tree, v: Json, k: string, y: Json)
    requires Testable(t, v, k, y) && Flat(t) && !LeadsAstray(|t.members|, SortDict(t, true).back)
    ensures var s := SortDict(t, true);
      ApplyRun(t, TestAndAdd(v, k, y), true)
        == Known(0, Dict(Appended(s.members, s.back, Named(k, Fresh(y))), BackAfterAppend(|s.members|, s.back)))
  {
    hide Compare, Formed, Denote, GoodLast, Appended, SortDict;
    var ps := TestAndAdd(v, k, y);
    AfterTest(t, v, k, y);
    assert v.Object? by { DenotesObject(t, v); }
    CompareFlat(t, v);
    var u := Apply(t, ps[0], true).tree;
    SecondIsClear(u, t, k, y);
    AddAtRoot(u, k, y);
    assert ps[1..] == [ps[1]] && [ps[1]][1..] == [];
    RunOfOne(u, ps[1]);
  }

  lemma DenotesObject(t: Tree, v: Json)
    requires t.Dict? && Denote(v) == Denote(Erase(t))
    ensures v.Object?
  {
  }

  lemma RunOfOne(u: Tree, patch: Json)
    ensures Apply(u, patch, true).Known? ==> ApplyRun(u, [patch], true) == Apply(u, patch, true)
  {
    hide Apply;
    assert [patch][1..] == [];
  }

  // A flat object with these keys, on a closed ring.
  function Numbered(keys: seq<string>): Tree {
    Dict(seq(|keys|, i requires 0 <= i < |keys| => Named(keys[i], Leaf(Number(i)))), ClosedBack(|keys|))
  }

  lemma SortNumbered(keys: seq<string>)
    ensures var p, ms := Order(keys, true), Numbered(keys).members;
      && Within(p, |ms|)
      && SortDict(Numbered(keys), true) == Dict(Pick(ms, p), BackAfterSort(keys, ClosedBack(|keys|), true))
  {
    var ms := Numbered(keys).members;
    assert Names(ms, NameIn) == keys;
    SortIsPick(ms, NameIn, true);
  }

  lemma NumberedTestable(keys: seq<string>, k: string)
    requires 0 < |keys| <= ULONG_MAX && (forall i, j :: 0 <= i < j < |keys| ==> keys[i] != keys[j])
    requires (forall i :: 0 <= i < |keys| ==> NulFree(keys[i]) && keys[i] != k) && GoodLast(k)
    ensures var t := Numbered(keys); Testable(t, Erase(t), k, Number(3)) && Flat(t)
  {
    var t := Numbered(keys);
    var ms := EraseMembers(t.members);
    MembersErased(t);
    NoKeyIn(ms, k);
  }

  lemma Letters()
    ensures GoodLast("c") && GoodLast("d") && NulFree("a") && NulFree("b") && NulFree("c")
    ensures Before("a", "b", true) && Before("a", "c", true) && Before("b", "c", true)
  {
    PlainSurvives("c");
    PlainSurvives("d");
  }

  // {"b": 0, "a": 1}, tested against itself: the member "c" is then added with success, and is not there.
  lemma TestLosesTheNewMember()
    ensures var t := Numbered(["b", "a"]);
      var r := ApplyRun(t, TestAndAdd(Erase(t), "c", Number(3)), true);
      && r.Known? && r.status == 0
      && Erase(r.tree) == Object([Member("a", Number(1)), Member("b", Number(0))])
  {
    var keys := ["b", "a"];
    var t := Numbered(keys);
    Letters();
    PairSorted();
    NumberedTestable(keys, "c");
    FlatTestThenAdd(t, Erase(t), "c", Number(3));
    var s := SortDict(t, true);
    AppendedNowhere(s.members, Named("c", Fresh(Number(3))));
    assert EraseMembers(s.members) == [Member("a", Number(1)), Member("b", Number(0))];
    MembersErased(s);
  }

  lemma PairSorted()
    ensures SortDict(Numbered(["b", "a"]), true) == Dict([Named("a", Leaf(Number(1))), Named("b", Leaf(Number(0)))], Nowhere)
  {
    LettersCompare();
    PairOrder(["b", "a"], true);
    SortNumbered(["b", "a"]);
    var ms := Numbered(["b", "a"]).members;
    assert Pick(ms, [1, 0]) == [Named("a", Leaf(Number(1))), Named("b", Leaf(Number(0)))];
  }

  // {"a": 0, "c": 1, "b": 2}, tested against itself: adding the member "d" loses the member "c".
  lemma TestLosesAnOldMember()
    ensures var t := Numbered(["a", "c", "b"]);
      var r := ApplyRun(t, TestAndAdd(Erase(t), "d", Number(3)), true);
      && r.Known? && r.status == 0
      && Erase(r.tree) == Object([Member("a", Number(0)), Member("b", Number(2)), Member("d", Number(3))])
  {
    hide SortDict, ApplyRun, Before, GoodLast, Testable, TestAndAdd;
    var keys := ["a", "c", "b"];
    var t := Numbered(keys);
    Letters();
    TripleSorted();
    NumberedTestable(keys, "d");
    FlatTestThenAdd(t, Erase(t), "d", Number(3));
    AppendedInside(SortDict(t, true));
  }

  lemma AppendedInside(s: Tree)
    requires s == Dict([Named("a", Leaf(Number(0))), Named("b", Leaf(Number(2))), Named("c", Leaf(Number(1)))], ToChild(1))
    ensures Erase(Dict(Appended(s.members, s.back, Named("d", Fresh(Number(3)))), BackAfterAppend(|s.members|, s.back)))
      == Object([Member("a", Number(0)), Member("b", Number(2)), Member("d", Number(3))])
  {
    var r := Appended(s.members, s.back, Named("d", Fresh(Number(3))));
    assert r == [s.members[0], s.members[1], Named("d", Leaf(Number(3)))];
    assert EraseMembers(r) == [Member("a", Number(0)), Member("b", Number(2)), Member("d", Number(3))];
  }

  lemma TripleSorted()
    ensures SortDict(Numbered(["a", "c", "b"]), true)
      == Dict([Named("a", Leaf(Number(0))), Named("b", Leaf(Number(2))), Named("c", Leaf(Number(1)))], ToChild(1))
  {
    LettersCompare();
    TripleOrder(["a", "c", "b"], true);
    SortNumbered(["a", "c", "b"]);
    var ms, p: seq<nat> := Numbered(["a", "c", "b"]).members, [0, 2, 1];
    assert Pick(ms, p) == [Named("a", Leaf(Number(0))), Named("b", Leaf(Number(2))), Named("c", Leaf(Number(1)))];
    assert p[2] == 1 && p[..2] == [0, 2];
  }

  // The patch generated for {"b": 0, "a": 1} and {"a": 1, "b": 0, "c": 3} adds "c". Applied to the first
  // tree itself, as the generator has left it, it succeeds and adds nothing.
  lemma GeneratorLosesTheNewMember()
    ensures var from := Numbered(["b", "a"]);
      var to := Object([Member("a", Number(1)), Member("b", Number(0)), Member("c", Number(3))]);
      var left := SortDict(from, true);
      && Diff("", Erase(from), to, true) == [ComposePatch("add", "", Some("c"), Some(Number(3)))]
      && ApplyRun(left, Diff("", Erase(from), to, true), true) == Known(0, left)
  {
    DiffAddsC();
    PairSorted();
    hide SortDict, Diff, Apply, Erase, ComposePatch;
    AddToSorted(SortDict(Numbered(["b", "a"]), true));
  }

  lemma AddToSorted(left: Tree)
    requires left == Dict([Named("a", Leaf(Number(1))), Named("b", Leaf(Number(0)))], Nowhere)
    ensures ApplyRun(left, [ComposePatch("add", "", Some("c"), Some(Number(3)))], true) == Known(0, left)
  {
    hide Apply, ComposePatch, GoodLast;
    Letters();
    NoKeyIn(EraseMembers(left.members), "c");
    AddAtRoot(left, "c", Number(3));
    AppendedNowhere(left.members, Named("c", Fresh(Number(3))));
    RunOfOne(left, ComposePatch("add", "", Some("c"), Some(Number(3))));
  }

  // A number that both objects have under one key needs no patch.
  lemma DiffSkips(whole: Json, fs: seq<Member>, ts: seq<Member>)
    requires fs != [] && ts != [] && fs[0] == ts[0] && fs[0].value.Number? && forall f <- fs :: f.value < whole
    ensures DiffMembers("", whole, fs, ts, true) == DiffMembers("", whole, fs[1..], ts[1..], true)
  {
    hide CompareStrings, ComposePatch, Encode;
    CompareExact(fs[0].key, ts[0].key);
    var rest := DiffMembers("", whole, fs[1..], ts[1..], true);
    assert [] + rest == rest;
  }

  lemma DiffAddsLast(whole: Json, t: Member)
    ensures DiffMembers("", whole, [], [t], true) == [ComposePatch("add", "", Some(t.key), Some(t.value))]
  {
    hide ComposePatch;
    assert [t][1..] == [];
  }

  lemma BothSorted()
    ensures SortedMembers(Erase(Numbered(["b", "a"])), true) == [Member("a", Number(1)), Member("b", Number(0))]
    ensures var ts := [Member("a", Number(1)), Member("b", Number(0)), Member("c", Number(3))];
      SortedMembers(Object(ts), true) == ts
  {
    hide Before, GoodLast;
    Letters();
    PairSorted();
    SortDictErases(Numbered(["b", "a"]), true);
  }

  lemma DiffAddsC()
    ensures var to := Object([Member("a", Number(1)), Member("b", Number(0)), Member("c", Number(3))]);
      Diff("", Erase(Numbered(["b", "a"])), to, true) == [ComposePatch("add", "", Some("c"), Some(Number(3)))]
  {
    hide CompareStrings, ComposePatch, SortedMembers, DiffMembers, Erase;
    var from := Erase(Numbered(["b", "a"]));
    var a, b, c := Member("a", Number(1)), Member("b", Number(0)), Member("c", Number(3));
    BothSorted();
    MembersErased(Numbered(["b", "a"]));
    var fs, ts := [a, b], [a, b, c];
    assert fs[1..] == [b] && ts[1..] == [b, c] && [b][1..] == [] && [b, c][1..] == [c];
    assert forall f <- fs :: f.value < from by { SortedBelow(from, fs); }
    DiffSkips(from, fs, ts);
    DiffSkips(from, [b], [b, c]);
    DiffAddsLast(from, c);
  }

  lemma SortedBelow(o: Json, ms: seq<Member>)
    requires o.Object? && SortedMembers(o, true) == ms
    ensures forall m <- ms :: m.value < o
  {
  }
}
