// For which keys a generated merge patch leads from one tree to another: exactly for those that
// folding tells apart, and sorts as strcmp() does, wherever the code folds them.
module MergeShapes {
  import opened CStrings
  import opened Json
  import opened JsonCompare
  import opened MergeInverse
  import opened MergeMeaning
  import opened MergePatch
  import MergeSort

  // The keys that objects may have, and below each of them the same again.
  datatype Shape = Shape(keys: map<string, Shape>)

  ghost predicate NamesOf(sh: Shape) {
    forall k <- sh.keys :: NulFree(k) && NamesOf(sh.keys[k])
  }

  // Trees whose objects have such keys, and whose arrays hold neither objects nor arrays.
  ghost predicate Fits(j: Json, sh: Shape)
    decreases j
  {
    match j
    case Object(ms) =>
      && UniqueKeys(ms)
      && forall i :: 0 <= i < |ms| ==> ms[i].key in sh.keys && Fits(ms[i].value, sh.keys[ms[i].key])
    case Array(es) => |es| <= ULONG_MAX + 1 && forall e <- es :: !e.Object? && !e.Array? && !e.Invalid?
    case Invalid => false
    case _ => true
  }

  // What the keys have to meet where objects are generated from, merged into, and compared before
  // that, in each case with regard to case or without. Below a key patches are always generated
  // without, and values are compared as the objects above them are sorted.
  ghost predicate ShapeOk(sh: Shape, generated: bool, merged: bool, compared: bool)
    decreases sh
  {
    && (!generated ==> KeyOrdersAgree(sh.keys.Keys))
    && (!merged || !compared ==> KeysDiffer(sh.keys.Keys))
    && forall k <- sh.keys :: ShapeOk(sh.keys[k], false, merged, generated)
  }

  // The patch makes the first tree the second, or there is none and they are the same.
  ghost predicate Inverts(from: Json, to: Json, generated: bool, merged: bool) {
    match Generate(from, to, generated)
    case None => Denote(from) == Denote(to)
    case Some(p) => Denote(Merge(from, p, merged)) == Denote(to)
  }

  ghost predicate AlwaysInverts(sh: Shape, caseSensitive: bool) {
    forall from, to | Fits(from, sh) && Fits(to, sh) && NullsKept(Denote(from), Denote(to)) ::
      Inverts(from, to, caseSensitive, caseSensitive)
  }

  // ---------- Such keys suffice ----------

  lemma {:induction false} FitsIsWellFormed(j: Json, sh: Shape)
    requires Fits(j, sh) && NamesOf(sh)
    ensures WellFormed(j)
    decreases j
  {
    if j.Object? {
      forall i | 0 <= i < |j.members| ensures NulFree(j.members[i].key) && WellFormed(j.members[i].value) {
        FitsIsWellFormed(j.members[i].value, sh.keys[j.members[i].key]);
      }
    }
  }

  lemma {:induction false} ShapeOrders(from: Json, to: Json, sh: Shape, generated: bool, merged: bool, compared: bool)
    requires Fits(from, sh) && Fits(to, sh) && ShapeOk(sh, generated, merged, compared) && (generated ==> merged && compared)
    ensures SameOrder(from, to, generated)
    ensures !merged || !compared ==> CaseCompatible(from, to)
    decreases from
  {
    hide SameName, OrdersAgree;
    if from.Object? && to.Object? {
      var ms, ns := from.members, to.members;
      assert KeysOf(ms) + KeysOf(ns) <= sh.keys.Keys;
      forall i, j | 0 <= i < |ms| && 0 <= j < |ns| && ms[i].key == ns[j].key
        ensures SameOrder(ms[i].value, ns[j].value, false) && (generated || CaseCompatible(ms[i].value, ns[j].value))
      {
        ShapeOrders(ms[i].value, ns[j].value, sh.keys[ms[i].key], false, merged, generated);
      }
      if !merged || !compared {
        forall i, j | 0 <= i < |ms| && 0 <= j < |ns| && SameName(ms[i].key, ns[j].key, false)
          ensures ms[i].key == ns[j].key && CaseCompatible(ms[i].value, ns[j].value)
        {
          assert ms[i].key in sh.keys.Keys && ns[j].key in sh.keys.Keys;
        }
      }
    }
  }

  // ---------- And are needed ----------

  // A pair of objects that a patch does not lead between, or that is taken for the same.
  ghost predicate Bad(f: Json, t: Json, sh: Shape, generated: bool, merged: bool, compared: bool) {
    && f.Object? && t.Object? && Fits(f, sh) && Fits(t, sh) && NullsKept(Denote(f), Denote(t)) && Denote(f) != Denote(t)
    && (CompareJson(f, t, compared) || !Inverts(f, t, generated, merged))
  }

  function One(k: string, v: Json): Json {
    Object([Member(k, v)])
  }

  lemma OneDenotes(k: string, v: Json)
    ensures Denote(One(k, v)) == VObject(map[k := Denote(v)])
  {
    var ms := [Member(k, v)];
    assert ms[1..] == [] && DenoteMembers(ms[1..]) == map[];
    assert DenoteMembers(ms) == map[][k := Denote(v)] == map[k := Denote(v)];
  }

  lemma OneSorts(k: string, v: Json, caseSensitive: bool)
    ensures SortedMembers(One(k, v), caseSensitive) == [Member(k, v)]
  {
  }

  lemma OneFits(k: string, v: Json, sh: Shape)
    requires k in sh.keys && Fits(v, sh.keys[k])
    ensures Fits(One(k, v), sh)
  {
  }

  // Under a common key a bad pair makes the objects around it one.
  lemma BadAbove(k: string, f: Json, t: Json, sh: Shape, generated: bool, merged: bool, compared: bool)
    requires k in sh.keys && Bad(f, t, sh.keys[k], false, merged, generated)
    ensures Bad(One(k, f), One(k, t), sh, generated, merged, compared)
  {
    hide Fits, CompareJson, Merge;
    var from, to := One(k, f), One(k, t);
    OneDenotes(k, f);
    OneDenotes(k, t);
    assert Denote(from).members[k] != Denote(to).members[k];
    OneFits(k, f, sh);
    OneFits(k, t, sh);
    OneSorts(k, f, generated);
    OneSorts(k, t, generated);
    CompareExact(k, k);
    WalkOne(k, f, t, generated);
    var patch := Generate(from, to, generated);
    if patch.Some? {
      var p := Generate(f, t, false).value;
      assert patch == Some(One(k, p)) && p.Object?;
      MergeOne(k, f, p, merged);
      OneDenotes(k, Merge(f, p, merged));
      assert Denote(Merge(from, patch.value, merged)).members[k] != Denote(to).members[k];
    }
  }

  lemma WalkOne(k: string, f: Json, t: Json, generated: bool)
    ensures Generate(One(k, f), One(k, t), generated)
         == (var ms := GenerateCommon(Member(k, f), Member(k, t), generated); if ms == [] then None else Some(Object(ms)))
  {
    hide GenerateCommon;
    var fs, ts := [Member(k, f)], [Member(k, t)];
    OneSorts(k, f, generated);
    OneSorts(k, t, generated);
    CompareExact(k, k);
    assert fs[1..] == [] && ts[1..] == [];
    assert GenerateMembers(One(k, f), [], [], generated) == [];
    var common := GenerateCommon(fs[0], ts[0], generated);
    assert common + [] == common;
  }

  lemma MergeOne(k: string, f: Json, p: Json, merged: bool)
    requires p.Object?
    ensures Merge(One(k, f), One(k, p), merged) == One(k, Merge(f, p, merged))
  {
    hide Merge;
    var ms, ps := [Member(k, f)], [Member(k, p)];
    SameNameExact(k, k);
    DropNameStep(ms, k, merged);
    assert ms[1..] == [] && ps[1..] == [];
    assert [] + [Member(k, Merge(f, p, merged))] == [Member(k, Merge(f, p, merged))];
    assert NextMembers(ms, ps[0], merged) == [Member(k, Merge(f, p, merged))];
    MergeUnfolds(ms, One(k, p), ps, merged);
    MergeIsMembers(One(k, f), One(k, p), merged);
  }

  lemma MergeIsMembers(target: Json, patch: Json, merged: bool)
    requires target.Object? && patch.Object?
    ensures Merge(target, patch, merged) == Object(MergeMembers(target.members, patch, patch.members, merged))
  {
  }

  // Two keys in one order when folded and in the other for strcmp(): from both to the second, the
  // walk puts the second in, and then takes out both.
  lemma SwappedLosesAKey(j: string, k: string, merged: bool)
    requires Before(j, k, false) && !Before(j, k, true)
    ensures var a, b := Member(j, Number(1)), Member(k, Number(1));
      var patch := Object([b, Member(j, Null), Member(k, Null)]);
      && Generate(Object([a, b]), Object([b]), false) == Some(patch)
      && Merge(Object([a, b]), patch, merged) == Object([])
  {
    CompareZero(j, k, false);
    CompareExact(j, k);
    SwappedGenerates(j, k);
    SameNameExact(j, k);
    SwappedMerges(j, k, merged);
  }

  lemma SwappedGenerates(j: string, k: string)
    requires Before(j, k, false) && !Before(j, k, true) && j != k
    ensures var a, b := Member(j, Number(1)), Member(k, Number(1));
      Generate(Object([a, b]), Object([b]), false) == Some(Object([b, Member(j, Null), Member(k, Null)]))
  {
    hide CompareStrings;
    var a, b := Member(j, Number(1)), Member(k, Number(1));
    var from, to := Object([a, b]), Object([b]);
    CompareExact(j, k);
    assert MergeSort.StrictlySorted([a, b], KeyOf, false);
    assert SortedMembers(from, false) == [a, b] && SortedMembers(to, false) == [b];
    assert [a, b][1..] == [b] && [b][1..] == [];
    assert GenerateMembers(from, [b], [], false) == [Member(k, Null)];
    assert GenerateMembers(from, [a, b], [], false) == [Member(j, Null), Member(k, Null)];
    assert GenerateMembers(from, [a, b], [b], false) == [b, Member(j, Null), Member(k, Null)];
  }

  lemma SwappedMerges(j: string, k: string, merged: bool)
    requires !SameName(j, k, merged)
    ensures var a, b := Member(j, Number(1)), Member(k, Number(1));
      Merge(Object([a, b]), Object([b, Member(j, Null), Member(k, Null)]), merged) == Object([])
  {
    hide SameName, FoldString;
    var a, b := Member(j, Number(1)), Member(k, Number(1));
    var patch := Object([b, Member(j, Null), Member(k, Null)]);
    var ps := patch.members;
    NameRules(j, k, merged);
    DropNameStep([a, b], k, merged);
    DropNameStep([b], k, merged);
    DropNameStep([a, b], j, merged);
    assert [a, b][1..] == [b] && [b][1..] == [];
    assert [a] + [] == [a] && [a] + [b] == [a, b];
    assert NextMembers([a, b], ps[0], merged) == [a, b];
    assert NextMembers([a, b], ps[1], merged) == [b];
    assert NextMembers([b], ps[2], merged) == [];
    MergeUnfolds([a, b], patch, ps, merged);
    MergeUnfolds([a, b], patch, ps[1..], merged);
    MergeUnfolds([b], patch, ps[2..], merged);
    assert ps[1..][1..] == ps[2..] && ps[2..][1..] == [];
  }

  lemma NameRules(j: string, k: string, merged: bool)
    ensures SameName(j, j, merged) && SameName(k, k, merged) && (SameName(j, k, merged) <==> SameName(k, j, merged))
  {
  }

  // Two keys that differ in case only: from the first to the second, the walk puts the second in
  // over the first, and then takes it out; and to a comparison that folds they are the same.
  lemma FoldedLosesAKey(j: string, k: string, generated: bool)
    requires SameName(j, k, false) && Before(k, j, true)
    ensures var patch := Object([Member(k, Number(1)), Member(j, Null)]);
      && Generate(One(j, Number(1)), One(k, Number(1)), generated) == Some(patch)
      && Merge(One(j, Number(1)), patch, false) == Object([])
    ensures CompareJson(One(j, Number(1)), One(k, Number(1)), false)
  {
    hide SameName, FoldString, CompareStrings;
    var a, b := Member(j, Number(1)), Member(k, Number(1));
    var from, to := Object([a]), Object([b]);
    assert from == One(j, Number(1)) && to == One(k, Number(1));
    CompareFlip(k, j, true);
    CompareZero(j, k, false);
    OneSorts(j, Number(1), generated);
    OneSorts(k, Number(1), generated);
    assert [a][1..] == [] && [b][1..] == [];
    assert GenerateMembers(from, [a], [], generated) == [Member(j, Null)];
    assert GenerateMembers(from, [a], [b], generated) == [b, Member(j, Null)];
    FoldedMerges(j, k);
    FoldedSame(j, k);
  }

  lemma FoldedMerges(j: string, k: string)
    requires SameName(j, k, false)
    ensures Merge(One(j, Number(1)), Object([Member(k, Number(1)), Member(j, Null)]), false) == Object([])
  {
    hide SameName, FoldString;
    var a, b := Member(j, Number(1)), Member(k, Number(1));
    var patch := Object([b, Member(j, Null)]);
    var ps := patch.members;
    NameRules(j, k, false);
    DropNameStep([a], k, false);
    DropNameStep([b], j, false);
    assert [a][1..] == [] && [b][1..] == [] && [] + [b] == [b];
    assert NextMembers([a], ps[0], false) == [b];
    assert NextMembers([b], ps[1], false) == [];
    MergeUnfolds([a], patch, ps, false);
    MergeUnfolds([b], patch, ps[1..], false);
    assert ps[1..][1..] == [];
  }

  lemma FoldedSame(j: string, k: string)
    requires SameName(j, k, false)
    ensures CompareJson(One(j, Number(1)), One(k, Number(1)), false)
  {
    hide SameName, FoldString, CompareStrings;
    var ms, ns := [Member(j, Number(1))], [Member(k, Number(1))];
    CompareZero(j, k, false);
    OneSorts(j, Number(1), false);
    OneSorts(k, Number(1), false);
    assert ms[1..] == [] && ns[1..] == [];
    assert CompareMembers(One(j, Number(1)), [], [], false);
    assert CompareJson(Number(1), Number(1), false);
    assert CompareMembers(One(j, Number(1)), ms, ns, false);
  }

  lemma {:induction false} BadPair(sh: Shape, generated: bool, merged: bool, compared: bool) returns (f: Json, t: Json)
    requires NamesOf(sh) && !ShapeOk(sh, generated, merged, compared) && (generated ==> merged && compared)
    ensures Bad(f, t, sh, generated, merged, compared)
    decreases sh
  {
    hide Bad, SameName, Before;
    if !generated && !KeyOrdersAgree(sh.keys.Keys) {
      var j, k :| j in sh.keys.Keys && k in sh.keys.Keys && !OrdersAgree(j, k);
      f, t := BadOrder(sh, j, k, merged, compared);
    } else if (!merged || !compared) && !KeysDiffer(sh.keys.Keys) {
      var j, k :| j in sh.keys.Keys && k in sh.keys.Keys && SameName(j, k, false) && j != k;
      f, t := BadNames(sh, j, k, generated, merged, compared);
    } else {
      var k :| k in sh.keys && !ShapeOk(sh.keys[k], false, merged, generated);
      var x, y := BadPair(sh.keys[k], false, merged, generated);
      f, t := One(k, x), One(k, y);
      BadAbove(k, x, y, sh, generated, merged, compared);
    }
  }

  lemma BadOrder(sh: Shape, p: string, q: string, merged: bool, compared: bool) returns (f: Json, t: Json)
    requires p in sh.keys && q in sh.keys && !OrdersAgree(p, q)
    ensures Bad(f, t, sh, false, merged, compared)
  {
    CompareExact(p, q);
    CompareZero(p, q, false);
    CompareFlip(p, q, false);
    CompareFlip(q, p, false);
    CompareFlip(p, q, true);
    CompareFlip(q, p, true);
    var j, k := if Before(p, q, false) then p else q, if Before(p, q, false) then q else p;
    f, t := Object([Member(j, Number(1)), Member(k, Number(1))]), Object([Member(k, Number(1))]);
    BadSwapped(sh, j, k, merged, compared);
  }

  lemma BadSwapped(sh: Shape, j: string, k: string, merged: bool, compared: bool)
    requires j in sh.keys && k in sh.keys && Before(j, k, false) && !Before(j, k, true)
    ensures Bad(Object([Member(j, Number(1)), Member(k, Number(1))]), Object([Member(k, Number(1))]), sh, false, merged, compared)
  {
    hide Generate, Merge, CompareJson, Before;
    var f, t := Object([Member(j, Number(1)), Member(k, Number(1))]), One(k, Number(1));
    SwappedLosesAKey(j, k, merged);
    assert Before(j, k, false) ==> !SameName(j, k, false) by { BeforeDiffers(j, k); }
    assert f.members[1..] == [Member(k, Number(1))];
    OneDenotes(k, Number(1));
    assert DenoteMembers(f.members) == map[k := VNumber(1)][j := VNumber(1)];
    SameNameExact(j, k);
    assert j in Denote(f).members && j !in Denote(t).members;
    OneKept(Denote(f), k);
    TwoFit(j, k, sh);
    OneFits(k, Number(1), sh);
    assert Denote(Object([])) == VObject(map[]);
    assert k in Denote(t).members;
  }

  lemma TwoFit(j: string, k: string, sh: Shape)
    requires j in sh.keys && k in sh.keys && !SameName(j, k, false)
    ensures Fits(Object([Member(j, Number(1)), Member(k, Number(1))]), sh)
  {
  }

  lemma OneKept(a: Value, k: string)
    ensures NullsKept(a, VObject(map[k := VNumber(1)]))
  {
    assert NullsKept(Entry(EntriesOf(a), k), VNumber(1));
  }

  lemma BeforeDiffers(j: string, k: string)
    requires Before(j, k, false)
    ensures !SameName(j, k, false)
  {
    CompareZero(j, k, false);
  }

  lemma BadNames(sh: Shape, p: string, q: string, generated: bool, merged: bool, compared: bool) returns (f: Json, t: Json)
    requires p in sh.keys && q in sh.keys && SameName(p, q, false) && p != q && (!merged || !compared)
    ensures Bad(f, t, sh, generated, merged, compared)
  {
    hide Generate, Merge, CompareJson;
    CompareExact(p, q);
    CompareFlip(q, p, true);
    CompareFlip(p, q, true);
    NameRules(p, q, false);
    var j, k := if Before(p, q, true) then q else p, if Before(p, q, true) then p else q;
    f, t := One(j, Number(1)), One(k, Number(1));
    FoldedLosesAKey(j, k, generated);
    OneDenotes(j, Number(1));
    OneDenotes(k, Number(1));
    OneFits(j, Number(1), sh);
    OneFits(k, Number(1), sh);
    OneKept(Denote(f), k);
    assert k in Denote(t).members && k !in Denote(f).members;
    assert Denote(Object([])) == VObject(map[]);
  }

  // ---------- The results ----------

  // Every pair of trees with such keys, of which the second keeps its nulls, is inverted, by merging into a
  // duplicate of the first, exactly when the keys sort alike and are told apart wherever the code folds them.
  lemma InvertsExactly(sh: Shape, caseSensitive: bool)
    requires NamesOf(sh)
    ensures AlwaysInverts(sh, caseSensitive) <==> ShapeOk(sh, caseSensitive, caseSensitive, true)
  {
    hide Fits, NullsKept, Inverts, ShapeOk, NamesOf;
    if ShapeOk(sh, caseSensitive, caseSensitive, true) {
      forall from, to | Fits(from, sh) && Fits(to, sh) && NullsKept(Denote(from), Denote(to))
        ensures Inverts(from, to, caseSensitive, caseSensitive)
      {
        FitsInverts(from, to, sh, caseSensitive);
      }
    } else {
      var f, t := BadPair(sh, caseSensitive, caseSensitive, true);
      FitsIsWellFormed(f, sh);
      FitsIsWellFormed(t, sh);
      WellFormedExactly(f);
      WellFormedExactly(t);
      CompareAgrees(f, t, true);
      assert !Inverts(f, t, caseSensitive, caseSensitive);
    }
  }

  lemma FitsInverts(from: Json, to: Json, sh: Shape, caseSensitive: bool)
    requires NamesOf(sh) && ShapeOk(sh, caseSensitive, caseSensitive, true)
    requires Fits(from, sh) && Fits(to, sh) && NullsKept(Denote(from), Denote(to))
    ensures Inverts(from, to, caseSensitive, caseSensitive)
  {
    hide Fits, NullsKept, NamesOf, SameOrder, ShapeOk, Merge, Generate;
    FitsIsWellFormed(from, sh);
    FitsIsWellFormed(to, sh);
    ShapeOrders(from, to, sh, caseSensitive, caseSensitive, true);
    MergeInverts(from, to, caseSensitive);
  }

  // Objects of one level over a set of keys.
  function Flat(keys: set<string>): Shape {
    Shape(map k | k in keys :: Shape(map[]))
  }

  lemma FlatInvertsExactly(keys: set<string>)
    requires forall k <- keys :: NulFree(k)
    ensures AlwaysInverts(Flat(keys), false) <==> KeyOrdersAgree(keys) && KeysDiffer(keys)
    ensures AlwaysInverts(Flat(keys), true)
  {
    hide AlwaysInverts, KeyOrdersAgree, KeysDiffer;
    var sh := Flat(keys);
    assert sh.keys.Keys == keys;
    NothingBelow();
    InvertsExactly(sh, false);
    InvertsExactly(sh, true);
  }

  lemma NothingBelow()
    ensures ShapeOk(Shape(map[]), false, false, false) && ShapeOk(Shape(map[]), false, true, true)
  {
  }

  // So one upper-case letter is enough: {"a": 1, "B": 1} to {"B": 1} loses "B" on the way.
  lemma UpperCaseLosesAKey()
    ensures var from, to := Object([Member("a", Number(1)), Member("B", Number(1))]), Object([Member("B", Number(1))]);
      var patch := Generate(from, to, false);
      && patch == Some(Object([Member("B", Number(1)), Member("a", Null), Member("B", Null)]))
      && Merge(from, patch.value, false) == Object([])
  {
    assert CompareStrings("a", "B", false) == -1 && CompareStrings("a", "B", true) > 0;
    SwappedLosesAKey("a", "B", false);
  }
}
