// create_patches(): the differences of two trees as a list of patches, and the proof that
// applying them leads from one to the other.
module PatchDiff {
  import opened CStrings
  import opened Json
  import opened JsonCompare
  import opened JsonPatch
  import opened PatchMeaning
  import opened Pointer
  import opened Seqs

  // compose_patch()
  function ComposePatch(operation: string, path: string, suffix: Option<string>, value: Option<Json>): Json {
    var full := if suffix.Some? then path + "/" + Encode(suffix.value) else path;
    var head := [Member("op", String(operation)), Member("path", String(full))];
    Object(if value.Some? then head + [Member("value", value.value)] else head)
  }

  function Diff(path: string, from: Json, to: Json, caseSensitive: bool): seq<Json>
    decreases from, 1, 0
  {
    match (from, to)
    case (Array(fs), Array(ts)) => DiffElems(path, from, fs, ts, 0, caseSensitive)
    case (Object(_), Object(_)) =>
      DiffMembers(path, from, SortedMembers(from, caseSensitive), SortedMembers(to, caseSensitive), caseSensitive)
    case _ => if from == to then [] else [ComposePatch("replace", path, None, Some(to))]
  }

  // Elements that both arrays have, then the surplus of the one or the other. An index that
  // does not fit unsigned long ends the work on this array.
  function DiffElems(path: string, ghost whole: Json, fs: seq<Json>, ts: seq<Json>, i: nat, caseSensitive: bool): seq<Json>
    requires forall k :: 0 <= k < |fs| ==> fs[k] < whole
    decreases whole, 0, |fs| + |ts|
  {
    if fs != [] && i > ULONG_MAX then []
    else if fs != [] && ts != [] then
      Diff(path + "/" + Decimal(i), fs[0], ts[0], caseSensitive)
      + DiffElems(path, whole, fs[1..], ts[1..], i + 1, caseSensitive)
    else if fs != [] then
      [ComposePatch("remove", path, Some(Decimal(i)), None)] + DiffElems(path, whole, fs[1..], ts, i, caseSensitive)
    else if ts != [] then
      [ComposePatch("add", path, Some("-"), Some(ts[0]))] + DiffElems(path, whole, fs, ts[1..], i, caseSensitive)
    else []
  }

  // The walk over two member lists in key order.
  function DiffMembers(path: string, ghost whole: Json, fs: seq<Member>, ts: seq<Member>, caseSensitive: bool): seq<Json>
    requires forall f <- fs :: f.value < whole
    decreases whole, 0, |fs| + |ts|
  {
    if fs == [] && ts == [] then []
    else
      var diff := KeyOrder(fs, ts, caseSensitive);
      if diff == 0 then
        Diff(path + "/" + Encode(fs[0].key), fs[0].value, ts[0].value, caseSensitive)
        + DiffMembers(path, whole, fs[1..], ts[1..], caseSensitive)
      else if diff < 0 then
        [ComposePatch("remove", path, Some(fs[0].key), None)] + DiffMembers(path, whole, fs[1..], ts, caseSensitive)
      else
        [ComposePatch("add", path, Some(ts[0].key), Some(ts[0].value))]
        + DiffMembers(path, whole, fs, ts[1..], caseSensitive)
  }

  function KeyOrder(fs: seq<Member>, ts: seq<Member>, caseSensitive: bool): (diff: int)
    requires fs != [] || ts != []
    ensures diff == 0 ==> fs != [] && ts != []
    ensures diff < 0 ==> fs != []
    ensures diff > 0 ==> ts != []
  {
    if fs == [] then 1 else if ts == [] then -1 else CompareStrings(fs[0].key, ts[0].key, caseSensitive)
  }

  // create_patches() itself
  method CreatePatches(path: string, from: Json, to: Json, caseSensitive: bool) returns (patches: seq<Json>)
    ensures patches == Diff(path, from, to, caseSensitive)
    decreases from, 1, 0
  {
    match (from, to) {
      case (Array(fs), Array(ts)) => patches := CreateArrayPatches(path, from, to, caseSensitive);
      case (Object(_), Object(_)) => patches := CreateObjectPatches(path, from, to, caseSensitive);
      case _ => patches := if from == to then [] else [ComposePatch("replace", path, None, Some(to))];
    }
  }

  method CreateArrayPatches(path: string, from: Json, to: Json, caseSensitive: bool) returns (patches: seq<Json>)
    requires from.Array? && to.Array?
    ensures patches == Diff(path, from, to, caseSensitive)
    decreases from, 0, 1
  {
    patches := [];
    var fs, ts := from.elems, to.elems;
    var index := 0;
    Whole(fs);
    Whole(ts);
    while index < |fs| && index < |ts|
      invariant 0 <= index <= |fs| && index <= |ts|
      invariant Diff(path, from, to, caseSensitive)
                == patches + DiffElems(path, from, fs[index..], ts[index..], index, caseSensitive)
    {
      Next(fs, index);
      Next(ts, index);
      if index > ULONG_MAX {
        return;
      }
      var more := CreatePatches(path + "/" + Decimal(index), fs[index], ts[index], caseSensitive);
      Assoc(patches, more, DiffElems(path, from, fs[index + 1..], ts[index + 1..], index + 1, caseSensitive));
      patches := patches + more;
      index := index + 1;
    }
    var rest := CreateSurplusPatches(path, from, fs[index..], ts[index..], index, caseSensitive);
    patches := patches + rest;
  }

  // The last two loops for arrays: one of the lists has run out.
  method CreateSurplusPatches(path: string, ghost whole: Json, fs: seq<Json>, ts: seq<Json>, index: nat, caseSensitive: bool)
    returns (patches: seq<Json>)
    requires fs == [] || ts == []
    requires forall k :: 0 <= k < |fs| ==> fs[k] < whole
    ensures patches == DiffElems(path, whole, fs, ts, index, caseSensitive)
  {
    patches := [];
    ghost var all := DiffElems(path, whole, fs, ts, index, caseSensitive);
    Whole(fs);
    Whole(ts);
    for f := 0 to |fs|
      invariant all == patches + DiffElems(path, whole, fs[f..], ts, index, caseSensitive)
    {
      Next(fs, f);
      if index > ULONG_MAX {
        return;
      }
      var patch := ComposePatch("remove", path, Some(Decimal(index)), None);
      Assoc(patches, [patch], DiffElems(path, whole, fs[f + 1..], ts, index, caseSensitive));
      patches := patches + [patch];
    }
    for t := 0 to |ts|
      invariant all == patches + DiffElems(path, whole, [], ts[t..], index, caseSensitive)
    {
      Next(ts, t);
      var patch := ComposePatch("add", path, Some("-"), Some(ts[t]));
      Assoc(patches, [patch], DiffElems(path, whole, [], ts[t + 1..], index, caseSensitive));
      patches := patches + [patch];
    }
  }

  method CreateObjectPatches(path: string, from: Json, to: Json, caseSensitive: bool) returns (patches: seq<Json>)
    requires from.Object? && to.Object?
    ensures patches == Diff(path, from, to, caseSensitive)
    decreases from, 0, 1
  {
    patches := [];
    var fs, ts := SortedMembers(from, caseSensitive), SortedMembers(to, caseSensitive);
    var f, t := 0, 0;
    Whole(fs);
    Whole(ts);
    while f < |fs| || t < |ts|
      invariant 0 <= f <= |fs| && 0 <= t <= |ts|
      invariant Diff(path, from, to, caseSensitive)
                == patches + DiffMembers(path, from, fs[f..], ts[t..], caseSensitive)
      decreases |fs| - f + |ts| - t
    {
      var more;
      more, f, t := NextMemberPatches(path, from, fs, ts, f, t, caseSensitive);
      Assoc(patches, more, DiffMembers(path, from, fs[f..], ts[t..], caseSensitive));
      patches := patches + more;
    }
  }

  // One turn of the walk: the patches for the smaller of the two next keys.
  method NextMemberPatches(path: string, ghost whole: Json, fs: seq<Member>, ts: seq<Member>, f0: nat, t0: nat, caseSensitive: bool)
    returns (more: seq<Json>, f: nat, t: nat)
    requires f0 <= |fs| && t0 <= |ts| && (f0 < |fs| || t0 < |ts|) && forall m <- fs :: m.value < whole
    ensures f0 <= f <= |fs| && t0 <= t <= |ts| && f0 + t0 < f + t
    ensures DiffMembers(path, whole, fs[f0..], ts[t0..], caseSensitive)
         == more + DiffMembers(path, whole, fs[f..], ts[t..], caseSensitive)
    decreases whole, 0, 0
  {
    hide ComposePatch, Encode, CompareStrings, Diff;
    f, t := f0, t0;
    StepBoth(fs, f);
    StepBoth(ts, t);
    var diff :=
      if f == |fs| then 1 else if t == |ts| then -1 else CompareStrings(fs[f].key, ts[t].key, caseSensitive);
    if diff == 0 {
      assert fs[f] in fs;
      more := CreatePatches(path + "/" + Encode(fs[f].key), fs[f].value, ts[t].value, caseSensitive);
      f, t := f + 1, t + 1;
    } else if diff < 0 {
      more := [ComposePatch("remove", path, Some(fs[f].key), None)];
      f := f + 1;
    } else {
      more := [ComposePatch("add", path, Some(ts[t].key), Some(ts[t].value))];
      t := t + 1;
    }
  }

  lemma StepBoth(s: seq<Member>, i: nat)
    requires i <= |s|
    ensures i == |s| <==> s[i..] == []
    ensures i < |s| ==> s[i..][0] == s[i] && s[i..][1..] == s[i + 1..]
  {
  }

  // ---------- What one composed patch does ----------

  // The document that a list of patches leads to.
  ghost predicate LeadsTo(doc: Json, patches: seq<Json>, x: Value) {
    var r := ApplyAll(doc, patches, true);
    r.status == 0 && WellFormed(r.doc) && Denote(r.doc) == x
  }

  lemma {:induction false} ApplyConcat(doc: Json, a: seq<Json>, b: seq<Json>)
    ensures ApplyAll(doc, a + b, true) ==
      var r := ApplyAll(doc, a, true); if r.status == 0 then ApplyAll(r.doc, b, true) else r
    decreases |a|
  {
    if a == [] {
      assert a + b == b;
    } else {
      assert (a + b)[1..] == a[1..] + b;
      var r := ApplyPatch(doc, a[0], true);
      if r.status == 0 {
        ApplyConcat(r.doc, a[1..], b);
      }
    }
  }

  lemma ApplyOne(doc: Json, patch: Json)
    ensures ApplyAll(doc, [patch], true) == ApplyPatch(doc, patch, true)
  {
    var r := ApplyPatch(doc, patch, true);
    assert [patch][1..] == [];
    assert ApplyAll(r.doc, [], true) == Outcome(0, r.doc);
  }

  lemma ComposedFields(operation: string, path: string, suffix: Option<string>, value: Option<Json>)
    ensures var p := ComposePatch(operation, path, suffix, value);
      && ItemNamed(p, "op", true) == Some(String(operation))
      && ItemNamed(p, "path", true) == Some(String(if suffix.Some? then path + "/" + Encode(suffix.value) else path))
      && ItemNamed(p, "value", true) == value
  {
    SameNameExact("op", "path");
    SameNameExact("op", "value");
    SameNameExact("path", "value");
    SameNameExact("op", "op");
    SameNameExact("path", "path");
    SameNameExact("value", "value");
    var ms := ComposePatch(operation, path, suffix, value).members;
    FindNameIs(ms, "op", true, 0);
    FindNameIs(ms, "path", true, 1);
    if value.Some? {
      FindNameIs(ms, "value", true, 2);
    } else {
      FindNameFirst(ms, "value", true);
    }
  }

  lemma RemoveIs(doc: Json, up: seq<string>, t: string)
    ensures ApplyPatch(doc, ComposePatch("remove", Render(up), Some(t), None), true) ==
      match DetachPath(doc, Render(up + [t]), true) case None => Outcome(13, doc) case Some(d) => Outcome(0, d.doc)
  {
    ComposedFields("remove", Render(up), Some(t), None);
    SplitPath(up, t);
    ApplyUnfolds(doc, ComposePatch("remove", Render(up), Some(t), None), Remove(up + [t]));
  }

  lemma AddIs(doc: Json, up: seq<string>, t: string, y: Json)
    requires WellFormed(y)
    ensures ApplyPatch(doc, ComposePatch("add", Render(up), Some(t), Some(y)), true)
         == AddAtPath(doc, Render(up + [t]), y, true)
  {
    ComposedFields("add", Render(up), Some(t), Some(y));
    WellFormedExactly(y);
    SplitPath(up, t);
    ApplyUnfolds(doc, ComposePatch("add", Render(up), Some(t), Some(y)), Add(up + [t], Denote(y)));
  }

  lemma ReplaceIs(doc: Json, path: seq<string>, y: Json)
    requires WellFormed(y)
    ensures ApplyPatch(doc, ComposePatch("replace", Render(path), None, Some(y)), true) ==
      if path == [] then Outcome(0, y)
      else match DetachPath(doc, Render(path), true)
        case None => Outcome(13, doc)
        case Some(d) => AddAtPath(d.doc, Render(path), y, true)
  {
    ComposedFields("replace", Render(path), None, Some(y));
    WellFormedExactly(y);
    if path != [] {
      ApplyUnfolds(doc, ComposePatch("replace", Render(path), None, Some(y)), Replace(path, Denote(y)));
    }
  }

  // A key that is there is the only one of its spelling.
  lemma KeyIsClear(ms: seq<Member>, t: string)
    requires UniqueKeys(ms) && t in DenoteMembers(ms)
    ensures CaseClear(VObject(DenoteMembers(ms)), t)
  {
    MembersMap(ms);
    var i :| 0 <= i < |ms| && ms[i].key == t;
    forall k | k in DenoteMembers(ms) && SameName(k, t, false) ensures k == t {
      var j :| 0 <= j < |ms| && ms[j].key == k;
      assert SameName(ms[i].key, ms[j].key, false) && SameName(ms[j].key, ms[i].key, false);
    }
  }

  lemma PresentIsClear(doc: Json, up: seq<string>, t: string)
    requires WellFormed(doc) && Get(Denote(doc), up + [t]).Some?
    ensures PlainPath(Denote(doc), up + [t])
    ensures Get(Denote(doc), up).Some? && Step(Get(Denote(doc), up).value, t).Some?
    ensures CaseClear(Get(Denote(doc), up).value, t)
    ensures Get(Denote(doc), up).value.VArray? ==> |Get(Denote(doc), up).value.elems| <= ULONG_MAX + 1
  {
    FoundIsPlain(doc, up + [t], false);
    ParentOf(doc, up, t, doc, false);
    GetAppend(Denote(doc), up, t);
    var p := At(doc, Locate(doc, Render(up), true).value);
    if p.Object? {
      KeyIsClear(p.members, t);
    }
  }

  // A "remove" for an existing child.
  lemma RemovePatch(doc: Json, up: seq<string>, t: string)
    requires WellFormed(doc) && GoodLast(t) && Get(Denote(doc), up + [t]).Some?
    ensures Get(Denote(doc), up).Some? && Step(Get(Denote(doc), up).value, t).Some?
    ensures LeadsTo(doc, [ComposePatch("remove", Render(up), Some(t), None)],
                    Set(Denote(doc), up, RemoveChild(Get(Denote(doc), up).value, t)))
  {
    var patch := ComposePatch("remove", Render(up), Some(t), None);
    RemoveIs(doc, up, t);
    PresentIsClear(doc, up, t);
    PlainAppend(Denote(doc), up, t);
    ClearIsRight(doc, up, t, false);
    DetachIsRemove(doc, up, t, false);
    assert (up + [t])[..|up + [t]| - 1] == up;
    ApplyOne(doc, patch);
  }

  // An "add" that makes a new child.
  lemma AddPatch(doc: Json, up: seq<string>, t: string, y: Json)
    requires WellFormed(doc) && WellFormed(y) && GoodLast(t) && PlainPath(Denote(doc), up + [t])
    requires Get(Denote(doc), up).Some? && CaseClear(Get(Denote(doc), up).value, t) && HasRoom(Denote(doc), up)
    requires AddChild(Get(Denote(doc), up).value, t, Denote(y)).Some?
    ensures LeadsTo(doc, [ComposePatch("add", Render(up), Some(t), Some(y))],
                    Set(Denote(doc), up, AddChild(Get(Denote(doc), up).value, t, Denote(y)).value))
  {
    hide AddChild, PlainPath, CaseClear, HasRoom, GoodLast, Denote, Get, Set, AddAtPath, Render, Formed, ApplyPatch, ComposePatch;
    var patch := ComposePatch("add", Render(up), Some(t), Some(y));
    AddIs(doc, up, t, y);
    AddIsAdd(doc, up, t, y, false);
    assert (up + [t])[..|up + [t]| - 1] == up && (up + [t])[|up + [t]| - 1] == t && up + [t] != [];
    ApplyOne(doc, patch);
  }

  // A "replace" of an existing value: of the root, or of a child.
  lemma ReplacePatch(doc: Json, path: seq<string>, y: Json)
    requires WellFormed(doc) && WellFormed(y) && Get(Denote(doc), path).Some?
    requires path != [] ==> GoodLast(path[|path| - 1])
    ensures LeadsTo(doc, [ComposePatch("replace", Render(path), None, Some(y))], Set(Denote(doc), path, Denote(y)))
  {
    ApplyOne(doc, ComposePatch("replace", Render(path), None, Some(y)));
    ReplaceIs(doc, path, y);
    if path != [] {
      ReplaceChild(doc, path, y);
    }
  }

  lemma ReplaceChild(doc: Json, path: seq<string>, y: Json)
    requires WellFormed(doc) && WellFormed(y) && Get(Denote(doc), path).Some? && path != []
    requires GoodLast(path[|path| - 1])
    ensures var d := DetachPath(doc, Render(path), true);
      && d.Some?
      && var r := AddAtPath(d.value.doc, Render(path), y, true);
      r.status == 0 && WellFormed(r.doc) && Denote(r.doc) == Set(Denote(doc), path, Denote(y))
  {
    assert path == path[..|path| - 1] + [path[|path| - 1]];
    ReplaceBelow(doc, path[..|path| - 1], path[|path| - 1], y);
  }

  lemma ReplaceBelow(doc: Json, up: seq<string>, t: string, y: Json)
    requires WellFormed(doc) && WellFormed(y) && Get(Denote(doc), up + [t]).Some? && GoodLast(t)
    ensures var d := DetachPath(doc, Render(up + [t]), true);
      && d.Some?
      && var r := AddAtPath(d.value.doc, Render(up + [t]), y, true);
      r.status == 0 && WellFormed(r.doc) && Denote(r.doc) == Set(Denote(doc), up + [t], Denote(y))
  {
    PresentIsClear(doc, up, t);
    PlainAppend(Denote(doc), up, t);
    ClearIsRight(doc, up, t, false);
    DetachIsRemove(doc, up, t, false);
    RemoveThenAdd(Denote(doc), up, t, Denote(y));
    var d := DetachPath(doc, Render(up + [t]), true).value.doc;
    WellFormedExactly(doc);
    SmallParent(doc, up, t);
    AfterRemove(Denote(doc), up, t);
    ClearAfterRemove(Denote(doc), up, t);
    AddIsAdd(d, up, t, y, false);
  }

  // The parent of a removed child: nothing there clashes with the child coming back.
  lemma ClearAfterRemove(x: Value, up: seq<string>, t: string)
    requires Get(x, up + [t]).Some? && Get(x, up).Some? && CaseClear(Get(x, up).value, t)
    ensures RfcRemove(x, up + [t]).Some?
    ensures var r := RfcRemove(x, up + [t]).value; Get(r, up).Some? && CaseClear(Get(r, up).value, t)
  {
    assert (up + [t])[..|up + [t]| - 1] == up;
    GetAppend(x, up, t);
    var p := Get(x, up).value;
    SetTwice(x, up, RemoveChild(p, t), p);
  }

  // ---------- No patches ----------

  // No array in the tree has more elements than an index counts.
  ghost predicate Countable(j: Json) {
    match j
    case Array(es) => |es| <= ULONG_MAX && forall i :: 0 <= i < |es| ==> Countable(es[i])
    case Object(ms) => forall i :: 0 <= i < |ms| ==> Countable(ms[i].value)
    case _ => true
  }

  // There is nothing to patch exactly when the two trees compare equal.
  lemma {:induction false} NothingToPatchExactly(path: string, from: Json, to: Json, caseSensitive: bool)
    requires Countable(from)
    ensures Diff(path, from, to, caseSensitive) == [] <==> CompareJson(from, to, caseSensitive)
    decreases from, 1, 0
  {
    hide SortedMembers, ComposePatch, Countable;
    match (from, to) {
      case (Array(fs), Array(ts)) =>
        ElemsCountable(from);
        NoElemsToPatch(path, from, fs, ts, 0, caseSensitive);
      case (Object(_), Object(_)) =>
        MembersCountable(from);
        NoMembersToPatch(path, from, SortedMembers(from, caseSensitive), SortedMembers(to, caseSensitive), caseSensitive);
      case _ =>
    }
  }

  lemma ElemsCountable(j: Json)
    requires j.Array? && Countable(j)
    ensures |j.elems| <= ULONG_MAX && forall i :: 0 <= i < |j.elems| ==> Countable(j.elems[i])
  {
  }

  lemma MembersCountable(j: Json)
    requires j.Object? && Countable(j)
    ensures forall m <- j.members :: Countable(m.value)
  {
  }

  lemma {:induction false} NoElemsToPatch(path: string, whole: Json, fs: seq<Json>, ts: seq<Json>, i: nat, caseSensitive: bool)
    requires forall k :: 0 <= k < |fs| ==> fs[k] < whole && Countable(fs[k])
    requires i + |fs| <= ULONG_MAX
    ensures DiffElems(path, whole, fs, ts, i, caseSensitive) == [] <==> CompareElems(whole, fs, ts, caseSensitive)
    decreases whole, 0, |fs| + |ts|
  {
    hide Diff, CompareJson, ComposePatch, Countable;
    if fs != [] && ts != [] {
      NothingToPatchExactly(path + "/" + Decimal(i), fs[0], ts[0], caseSensitive);
      NoElemsToPatch(path, whole, fs[1..], ts[1..], i + 1, caseSensitive);
    }
  }

  lemma {:induction false} NoMembersToPatch(path: string, whole: Json, fs: seq<Member>, ts: seq<Member>, caseSensitive: bool)
    requires forall f <- fs :: f.value < whole && Countable(f.value)
    ensures DiffMembers(path, whole, fs, ts, caseSensitive) == [] <==> CompareMembers(whole, fs, ts, caseSensitive)
    decreases whole, 0, |fs| + |ts|
  {
    hide Diff, CompareJson, ComposePatch, CompareStrings, Countable;
    if fs != [] && ts != [] && KeyOrder(fs, ts, caseSensitive) == 0 {
      NothingToPatchExactly(path + "/" + Encode(fs[0].key), fs[0].value, ts[0].value, caseSensitive);
      NoMembersToPatch(path, whole, fs[1..], ts[1..], caseSensitive);
    }
  }
}
