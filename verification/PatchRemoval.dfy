// Removing by path looks the key up without regard to case, in every call.
module PatchRemoval {
  import opened CStrings
  import opened Json
  import opened JsonPatch
  import opened Pointer
  import opened PointerText

  // A member is removed exactly when the RFC removes one, and it is the same one.
  ghost predicate RemoveAgrees(doc: Json, up: seq<string>, t: string) {
    var d, r := DetachPath(doc, Render(up + [t]), true), RfcRemove(Denote(doc), up + [t]);
    (d.Some? <==> r.Some?) && (d.Some? ==> Denote(d.value.doc) == r.value)
  }

  // A lookup that minds the case and one that does not differ: another key is found.
  lemma FindsAnother(ms: seq<Member>, t: string)
    requires DistinctKeys(ms) && FindName(ms, t, false) != FindName(ms, t, true)
    ensures var i := FindName(ms, t, false); i < |ms| && ms[i].key != t
  {
    hide SameName;
    var i, j := FindName(ms, t, false), FindName(ms, t, true);
    FindNameFirst(ms, t, false);
    FindNameFirst(ms, t, true);
    if j < |ms| {
      SameNameExact(ms[j].key, t);
    }
    if i < |ms| && ms[i].key == t {
      FindUnique(ms, i, true);
    }
  }

  lemma AnotherKey(p: Json, t: string)
    requires p.Object? && Formed(p, true) && !FoundAlike(p, t)
    ensures var ms, i := p.members, FindName(p.members, t, false);
      && i < |ms| && ms[i].key != t && ms[i].key in DenoteMembers(ms)
      && Denote(WithoutChild(p, i)) == VObject(DenoteMembers(ms) - {ms[i].key})
      && Formed(WithoutChild(p, i), true)
  {
    hide FindName;
    var ms, i := p.members, FindName(p.members, t, false);
    FindsAnother(ms, t);
    MembersMap(ms);
    RemoveMember(ms, i);
    DropMembership(ms, i);
  }

  // This holds exactly when the lookup that the removal uses finds what the case-sensitive one finds.
  lemma RemoveAgreesExactly(doc: Json, up: seq<string>, t: string)
    requires Formed(doc, true) && PlainPath(Denote(doc), up + [t]) && GoodLast(t)
    ensures RemoveAgrees(doc, up, t) <==> RightKey(doc, up, t)
  {
    if RightKey(doc, up, t) {
      DetachIsRemove(doc, up, t, true);
    } else {
      RemovesAnother(doc, up, t);
    }
  }

  lemma ObjectDenotes(p: Json)
    requires p.Object?
    ensures Denote(p) == VObject(DenoteMembers(p.members))
  {
  }

  // What is taken out instead: the member of another key.
  lemma TakesAnother(doc: Json, up: seq<string>, t: string) returns (m: map<string, Value>, k: string)
    requires Formed(doc, true) && PlainPath(Denote(doc), up + [t]) && GoodLast(t) && !RightKey(doc, up, t)
    ensures Get(Denote(doc), up) == Some(VObject(m)) && k in m && k != t
    ensures var d := DetachPath(doc, Render(up + [t]), true);
      d.Some? && Formed(d.value.doc, true) && Denote(d.value.doc) == Set(Denote(doc), up, VObject(m - {k}))
  {
    hide PlainPath, Formed, Denote, DenoteMembers, Get, Set, Locate, At, Put, Render, FindName, ValidLocation;
    DetachUnfolds(doc, up, t);
    ParentOf(doc, up, t, doc, true);
    var loc := Locate(doc, Render(up), true).value;
    var p := At(doc, loc);
    AnotherKey(p, t);
    var i := FindName(p.members, t, false);
    m, k := DenoteMembers(p.members), p.members[i].key;
    ParentOf(doc, up, t, WithoutChild(p, i), true);
    ObjectDenotes(p);
  }

  lemma RemovesAnother(doc: Json, up: seq<string>, t: string)
    requires Formed(doc, true) && PlainPath(Denote(doc), up + [t]) && GoodLast(t) && !RightKey(doc, up, t)
    ensures !RemoveAgrees(doc, up, t)
  {
    hide PlainPath, Formed, Denote, Get, Set, RightKey;
    var m, k := TakesAnother(doc, up, t);
    assert (up + [t])[..|up + [t]| - 1] == up;
    if t in m {
      assert t in m - {k};
      SetTwice(Denote(doc), up, VObject(m - {k}), VObject(m - {t}));
      SetTwice(Denote(doc), up, VObject(m - {t}), VObject(m - {t}));
    }
  }

  // In {"a": null}, removing /A with the case-sensitive call takes out "a".
  lemma RemoveTakesTheWrongKey()
    ensures var doc, patch := Object([Member("a", Null)]),
        Object([Member("op", String("remove")), Member("path", String("/A"))]);
      && ApplyPatch(doc, patch, true) == Outcome(0, Object([]))
      && RfcRemove(Denote(doc), ["A"]) == None
  {
    var doc, patch := Object([Member("a", Null)]),
      Object([Member("op", String("remove")), Member("path", String("/A"))]);
    PatchFields();
    DetachesA();
    assert RfcRemove(Denote(doc), ["A"]) == None by {
      assert ["A"][..0] == [] && doc.members[1..] == [];
      assert DenoteMembers(doc.members) == map["a" := VNull];
    }
  }

  lemma DetachesA()
    ensures DetachPath(Object([Member("a", Null)]), "/A", true) == Some(Detached(Null, Object([])))
  {
    var doc := Object([Member("a", Null)]);
    PlainSurvives("A");
    assert Render(["A"][1..]) == "";
    assert Render(["A"]) == "/A" && [] + ["A"] == ["A"];
    DetachUnfolds(doc, [], "A");
    assert FoldString("a", false) == "a" && FoldString("A", false) == "a";
    assert FindName(doc.members, "A", false) == 0;
    assert DropMember(doc.members, 0) == [];
  }

  lemma PatchFields()
    ensures var patch := Object([Member("op", String("remove")), Member("path", String("/A"))]);
      && ItemNamed(patch, "path", true) == Some(String("/A"))
      && DecodeOperation(patch, true) == RemoveOp
  {
    var ms := [Member("op", String("remove")), Member("path", String("/A"))];
    SameNameExact("op", "op");
    SameNameExact("op", "path");
    SameNameExact("path", "path");
    FindNameIs(ms, "op", true, 0);
    FindNameIs(ms, "path", true, 1);
  }

  // In {"a": 1, "A": 2}, both keys are there: removing /a takes out "a", and removing /A takes out
  // "a" as well.
  lemma BothSpellings()
    ensures var doc := Object([Member("a", Number(1)), Member("A", Number(2))]);
      && Formed(doc, true) && RemoveAgrees(doc, [], "a") && !RemoveAgrees(doc, [], "A")
  {
    var ms := [Member("a", Number(1)), Member("A", Number(2))];
    var doc := Object(ms);
    assert Locate(doc, Render([]), true) == Some([]) && At(doc, []) == doc;
    assert FoldString("a", false) == "a" && FoldString("A", false) == "a";
    assert FoldString("a", true) == "a" && FoldString("A", true) == "A";
    FindNameIs(ms, "a", false, 0);
    FindNameIs(ms, "a", true, 0);
    FindNameIs(ms, "A", false, 0);
    FindNameIs(ms, "A", true, 1);
    PlainSurvives("a");
    PlainSurvives("A");
    assert [] + ["a"] == ["a"] && [] + ["A"] == ["A"];
    RemoveAgreesExactly(doc, [], "a");
    RemoveAgreesExactly(doc, [], "A");
  }
}
