// Runs of patches on trees with rings.
module PatchRuns {
  import opened CStrings
  import opened Json
  import opened JsonCompare
  import opened JsonPatch
  import opened PatchDiff
  import opened PatchMeaning
  import opened PatchReach
  import opened PatchRings
  import opened Pointer
  import opened PointerText
  import opened RingTree
  import opened Rings

  // All operations in order, as section 5 of RFC 6902 has it: the first one that fails makes the whole
  // fail.
  ghost function RfcRun(x: Value, ops: seq<Operation>): Option<Value>
    decreases |ops|
  {
    if ops == [] then Some(x)
    else match Rfc6902(x, ops[0]) case None => None case Some(y) => RfcRun(y, ops[1..])
  }

  // Up to the first patch that fails, every patch does what the RFC says.
  ghost predicate FollowsRun(t: Tree, patches: seq<Json>, ops: seq<Operation>)
    requires |ops| == |patches|
    decreases |patches|
  {
    patches != [] ==>
      var r := Apply(t, patches[0], true);
      && Follows(r, Rfc6902(Denote(Erase(t)), ops[0]))
      && (r.status == 0 ==> FollowsRun(r.tree, patches[1..], ops[1..]))
  }

  // Up to the first patch that fails, every patch gives members only to objects with closed rings, and
  // takes out what its path names.
  ghost predicate SafeRun(t: Tree, patches: seq<Json>, ops: seq<Operation>)
    requires |ops| == |patches|
    decreases |patches|
  {
    patches != [] ==>
      && Safe(t, patches[0], true) && TakesRight(Erase(t), ops[0])
      && match Apply(t, patches[0], true)
         case Known(0, next) => SafeRun(next, patches[1..], ops[1..])
         case _ => true
  }

  // The patches stand for the operations, whose paths are clear at the time. A move takes out what its
  // path names.
  ghost predicate ClearRun(t: Tree, patches: seq<Json>, ops: seq<Operation>)
    requires |ops| == |patches|
    decreases |patches|
  {
    patches != [] ==>
      && Encodes(patches[0], ops[0]) && Clear(Denote(Erase(t)), ops[0]) && Room(Denote(Erase(t)), ops[0])
      && (ops[0].Move? ==> RightEnd(Erase(t), ops[0].from))
      && match Apply(t, patches[0], true)
         case Known(0, next) => ClearRun(next, patches[1..], ops[1..])
         case _ => true
  }

  // A run does what the RFC says exactly when it is safe.
  lemma {:induction false} RunFollowsExactly(t: Tree, patches: seq<Json>, ops: seq<Operation>)
    requires |ops| == |patches| && Formed(Erase(t), true) && ClearRun(t, patches, ops)
    ensures FollowsRun(t, patches, ops) <==> SafeRun(t, patches, ops)
    decreases |patches|
  {
    if patches != [] {
      ApplyFollowsExactly(t, patches[0], ops[0]);
      var r := Apply(t, patches[0], true);
      if Follows(r, Rfc6902(Denote(Erase(t)), ops[0])) && r.status == 0 {
        RunFollowsExactly(r.tree, patches[1..], ops[1..]);
      }
    }
  }

  // So a safe run succeeds exactly when the RFC lets it, and leaves the document that the RFC asks for.
  lemma {:induction false} SafeRunIsRfc6902(t: Tree, patches: seq<Json>, ops: seq<Operation>)
    requires |ops| == |patches| && Formed(Erase(t), true) && ClearRun(t, patches, ops) && SafeRun(t, patches, ops)
    ensures Follows(ApplyRun(t, patches, true), RfcRun(Denote(Erase(t)), ops))
    decreases |patches|
  {
    if patches != [] {
      ApplyFollowsExactly(t, patches[0], ops[0]);
      var r := Apply(t, patches[0], true);
      if r.status == 0 {
        SafeRunIsRfc6902(r.tree, patches[1..], ops[1..]);
      }
    }
  }

  // ---------- Trees with closed rings, as they are parsed or duplicated ----------

  lemma TakeOutClosed(t: Tree, i: nat)
    requires AllClosed(t) && i < ChildCount(Erase(t))
    ensures AllClosed(TakeOut(t, i)) && AllClosed(Child(t, i))
  {
    if t.Dict? {
      ClosedStaysClosed(t.members, t.back, t.members[i], i);
    }
  }

  lemma DetachClosed(t: Tree, path: string, caseSensitive: bool)
    requires AllClosed(t)
    ensures var d := Detach(t, path, caseSensitive); d.Some? ==> AllClosed(d.value.item) && AllClosed(d.value.tree)
  {
    hide AllClosed, Erase, At, Put, TakeOut, Child, DetachPosition, Decoded;
    var d := Detach(t, path, caseSensitive);
    if d.Some? {
      var k := LastSlash(path).value;
      var loc := Locate(Erase(t), path[..k], caseSensitive).value;
      var parent := NodeAt(t, loc);
      var i := DetachPosition(Erase(parent), Decoded(path[k + 1..]));
      ClosedBelow(t, loc, parent);
      TakeOutClosed(parent, i);
      ClosedBelow(t, loc, TakeOut(parent, i));
    }
  }

  lemma ClearedClosed(parent: Tree, child: string, caseSensitive: bool)
    requires AllClosed(parent) && parent.Dict?
    ensures AllClosed(Cleared(parent, child, caseSensitive))
  {
    var i := FindName(Erase(parent).members, child, caseSensitive);
    if i < |parent.members| {
      TakeOutClosed(parent, i);
    }
  }

  lemma AppendedClosed(c: Tree, added: Named)
    requires AllClosed(c) && c.Dict? && AllClosed(added.value)
    ensures Closed(|c.members|, c.back) && !LeadsAstray(|c.members|, c.back)
    ensures AllClosed(Dict(Appended(c.members, c.back, added), BackAfterAppend(|c.members|, c.back)))
  {
    ClosedStaysClosed(c.members, c.back, added, 0);
  }

  lemma AddToKeepsClosed(parent: Tree, child: string, value: Tree, caseSensitive: bool)
    requires AllClosed(parent) && AllClosed(value)
    ensures ClosedFor(parent, child, caseSensitive)
    ensures var r := AddTo(parent, child, value, caseSensitive); r.Known? && AllClosed(r.tree)
  {
    if parent.Dict? {
      hide AllClosed, Erase, Cleared, Appended, BackAfterAppend;
      ClearedClosed(parent, child, caseSensitive);
      AppendedClosed(Cleared(parent, child, caseSensitive), Named(child, value));
    } else {
      ListKeepsClosed(parent, child, value, caseSensitive);
    }
  }

  lemma ListKeepsClosed(parent: Tree, child: string, value: Tree, caseSensitive: bool)
    requires AllClosed(parent) && AllClosed(value) && !parent.Dict?
    ensures var r := AddTo(parent, child, value, caseSensitive); r.Known? && AllClosed(r.tree)
  {
    hide DecodeIndex;
  }

  lemma AddClosed(t: Tree, path: string, value: Tree, caseSensitive: bool)
    requires AllClosed(t) && AllClosed(value)
    ensures ClosedAlong(t, path, caseSensitive)
    ensures var r, j := AddAlong(t, path, value, caseSensitive), AddAtPath(Erase(t), path, Erase(value), caseSensitive);
      r.Known? && AllClosed(r.tree) && Outcome(r.status, Erase(r.tree)) == j
  {
    hide AllClosed, Erase, At, Put, AddTo, ClosedFor, Decoded, AddAtPath;
    if LastSlash(path).Some? {
      var k := LastSlash(path).value;
      var at := Locate(Erase(t), path[..k], caseSensitive);
      if at.Some? {
        var parent, child := NodeAt(t, at.value), Decoded(path[k + 1..]);
        ClosedBelow(t, at.value, parent);
        AddToKeepsClosed(parent, child, value, caseSensitive);
        ClosedBelow(t, at.value, AddTo(parent, child, value, caseSensitive).tree);
      }
    }
    AddAlongClosed(t, path, value, caseSensitive);
  }

  lemma InvalidClosed()
    ensures AllClosed(Leaf(Invalid)) && Erase(Leaf(Invalid)) == Invalid
  {
  }

  lemma GivenClosed(t: Tree, patch: Json, path: string, caseSensitive: bool)
    requires AllClosed(t)
    ensures SafeGiven(t, patch, path, caseSensitive)
    ensures var r := AddGiven(t, patch, path, caseSensitive);
      r.Known? && AllClosed(r.tree) && Outcome(r.status, Erase(r.tree)) == AddValue(Erase(t), patch, path, caseSensitive)
  {
    hide AllClosed, Erase, AddAlong, AddAtPath, ClosedAlong, ItemNamed, Fresh;
    var value := ItemNamed(patch, "value", caseSensitive);
    if value.Some? {
      FreshIs(value.value);
      AddClosed(t, path, Fresh(value.value), caseSensitive);
    }
  }

  lemma ReplaceClosed(t: Tree, patch: Json, path: string, caseSensitive: bool)
    requires AllClosed(t)
    ensures var d := Detach(t, path, caseSensitive);
      d.Some? ==>
        && SafeGiven(d.value.tree, patch, path, caseSensitive)
        && var r := AddGiven(d.value.tree, patch, path, caseSensitive);
        && r.Known? && AllClosed(r.tree)
        && Outcome(r.status, Erase(r.tree)) == AddValue(Erase(d.value.tree), patch, path, caseSensitive)
  {
    DetachClosed(t, path, caseSensitive);
    var d := Detach(t, path, caseSensitive);
    if d.Some? {
      GivenClosed(d.value.tree, patch, path, caseSensitive);
    }
  }

  lemma MoveClosed(t: Tree, source: string, path: string, caseSensitive: bool)
    requires AllClosed(t)
    ensures SafeMove(t, source, path, caseSensitive)
    ensures var r := MoveFrom(t, source, path, caseSensitive);
      && r.Known? && AllClosed(r.tree)
      && Outcome(r.status, Erase(r.tree)) == match DetachPath(Erase(t), source, caseSensitive)
          case None => Outcome(5, Erase(t))
          case Some(d) => AddAtPath(d.doc, path, d.item, caseSensitive)
  {
    DetachClosed(t, source, caseSensitive);
    var d := Detach(t, source, caseSensitive);
    if d.Some? {
      AddClosed(d.value.tree, path, d.value.item, caseSensitive);
    }
  }

  lemma CopyClosed(t: Tree, source: string, path: string, caseSensitive: bool)
    requires AllClosed(t)
    ensures Locate(Erase(t), source, caseSensitive).Some? ==> ClosedAlong(t, path, caseSensitive)
    ensures var r := CopyFrom(t, source, path, caseSensitive);
      && r.Known? && AllClosed(r.tree)
      && Outcome(r.status, Erase(r.tree)) == match Locate(Erase(t), source, caseSensitive)
          case None => Outcome(5, Erase(t))
          case Some(loc) => AddAtPath(Erase(t), path, At(Erase(t), loc), caseSensitive)
  {
    var loc := Locate(Erase(t), source, caseSensitive);
    if loc.Some? {
      FreshIs(At(Erase(t), loc.value));
      AddClosed(t, path, Fresh(At(Erase(t), loc.value)), caseSensitive);
    }
  }

  ghost predicate StaysClosed(t: Tree, patch: Json, caseSensitive: bool) {
    var r := Apply(t, patch, caseSensitive);
    && Safe(t, patch, caseSensitive)
    && r.Known? && AllClosed(r.tree) && Outcome(r.status, Erase(r.tree)) == ApplyPatch(Erase(t), patch, caseSensitive)
  }

  lemma AddOpClosed(t: Tree, patch: Json, path: string, caseSensitive: bool)
    requires AllClosed(t) && ItemNamed(patch, "path", caseSensitive) == Some(String(path))
    requires DecodeOperation(patch, caseSensitive) == AddOp
    ensures StaysClosed(t, patch, caseSensitive)
  {
    hide AllClosed, Erase, AddGiven, AddValue, SafeGiven, ItemNamed, DecodeOperation, SetRoot;
    GivenClosed(t, patch, path, caseSensitive);
    RootClosed(t, patch, caseSensitive);
  }

  lemma ReplaceOpClosed(t: Tree, patch: Json, path: string, caseSensitive: bool)
    requires AllClosed(t) && ItemNamed(patch, "path", caseSensitive) == Some(String(path))
    requires DecodeOperation(patch, caseSensitive) == ReplaceOp
    ensures StaysClosed(t, patch, caseSensitive)
  {
    hide AllClosed, Erase, AddGiven, AddValue, SafeGiven, ItemNamed, DecodeOperation, SetRoot, Detach, DetachPath,
      Apply, Safe, ApplyPatch;
    ReplaceClosed(t, patch, path, caseSensitive);
    RootClosed(t, patch, caseSensitive);
    ReplaceUnfolds(t, patch, path, caseSensitive);
    ReplaceOnLists(Erase(t), patch, path, caseSensitive);
  }

  lemma ReplaceUnfolds(t: Tree, patch: Json, path: string, caseSensitive: bool)
    requires ItemNamed(patch, "path", caseSensitive) == Some(String(path))
    requires DecodeOperation(patch, caseSensitive) == ReplaceOp
    ensures var d := Detach(t, path, caseSensitive);
      && Apply(t, patch, caseSensitive) ==
           (if path == "" then SetRoot(t, patch, caseSensitive)
            else if d.None? then Known(13, t) else AddGiven(d.value.tree, patch, path, caseSensitive))
      && (Safe(t, patch, caseSensitive) <==> path == "" || d.None? || SafeGiven(d.value.tree, patch, path, caseSensitive))
  {
    hide AddGiven, SafeGiven, ItemNamed, DecodeOperation, SetRoot, Detach, Erase;
  }

  lemma ReplaceOnLists(doc: Json, patch: Json, path: string, caseSensitive: bool)
    requires ItemNamed(patch, "path", caseSensitive) == Some(String(path))
    requires DecodeOperation(patch, caseSensitive) == ReplaceOp
    ensures var d, value := DetachPath(doc, path, caseSensitive), ItemNamed(patch, "value", caseSensitive);
      ApplyPatch(doc, patch, caseSensitive) ==
        if path == "" then (if value.Some? then Outcome(0, value.value) else Outcome(7, doc))
        else if d.None? then Outcome(13, doc) else AddValue(d.value.doc, patch, path, caseSensitive)
  {
    hide AddValue, ItemNamed, DecodeOperation, DetachPath;
  }

  lemma RemoveOpClosed(t: Tree, patch: Json, path: string, caseSensitive: bool)
    requires AllClosed(t) && ItemNamed(patch, "path", caseSensitive) == Some(String(path))
    requires DecodeOperation(patch, caseSensitive) == RemoveOp
    ensures StaysClosed(t, patch, caseSensitive)
  {
    hide AllClosed, Erase, ItemNamed, DecodeOperation, Detach, DetachPath;
    DetachClosed(t, path, caseSensitive);
    InvalidClosed();
  }

  lemma MoveOrCopyUnfolds(t: Tree, patch: Json, path: string, source: string, caseSensitive: bool)
    requires ItemNamed(patch, "path", caseSensitive) == Some(String(path))
    requires ItemNamed(patch, "from", caseSensitive) == Some(String(source))
    ensures DecodeOperation(patch, caseSensitive) == MoveOp ==>
      Apply(t, patch, caseSensitive) == MoveFrom(t, source, path, caseSensitive)
    ensures DecodeOperation(patch, caseSensitive) == CopyOp ==>
      Apply(t, patch, caseSensitive) == CopyFrom(t, source, path, caseSensitive)
  {
    hide ItemNamed, DecodeOperation, MoveFrom, CopyFrom;
  }

  lemma MoveOrCopySafe(t: Tree, patch: Json, path: string, source: string, caseSensitive: bool)
    requires ItemNamed(patch, "path", caseSensitive) == Some(String(path))
    requires ItemNamed(patch, "from", caseSensitive) == Some(String(source))
    ensures DecodeOperation(patch, caseSensitive) == MoveOp ==>
      (Safe(t, patch, caseSensitive) <==> SafeMove(t, source, path, caseSensitive))
    ensures DecodeOperation(patch, caseSensitive) == CopyOp ==>
      Safe(t, patch, caseSensitive) == (Locate(Erase(t), source, caseSensitive).Some? ==> ClosedAlong(t, path, caseSensitive))
  {
    hide ItemNamed, DecodeOperation, SafeMove, ClosedAlong, Locate;
  }

  lemma MoveOrCopyOnLists(doc: Json, patch: Json, path: string, source: string, caseSensitive: bool)
    requires ItemNamed(patch, "path", caseSensitive) == Some(String(path))
    requires ItemNamed(patch, "from", caseSensitive) == Some(String(source))
    ensures DecodeOperation(patch, caseSensitive) == MoveOp ==>
      ApplyPatch(doc, patch, caseSensitive) == match DetachPath(doc, source, caseSensitive)
        case None => Outcome(5, doc)
        case Some(d) => AddAtPath(d.doc, path, d.item, caseSensitive)
    ensures DecodeOperation(patch, caseSensitive) == CopyOp ==>
      ApplyPatch(doc, patch, caseSensitive) == match Locate(doc, source, caseSensitive)
        case None => Outcome(5, doc)
        case Some(loc) => AddAtPath(doc, path, At(doc, loc), caseSensitive)
  {
    hide ItemNamed, DecodeOperation, DetachPath, AddAtPath, Locate, At;
  }

  lemma MoveOrCopyClosed(t: Tree, patch: Json, path: string, caseSensitive: bool)
    requires AllClosed(t) && ItemNamed(patch, "path", caseSensitive) == Some(String(path))
    requires DecodeOperation(patch, caseSensitive) in {MoveOp, CopyOp}
    ensures StaysClosed(t, patch, caseSensitive)
  {
    match ItemNamed(patch, "from", caseSensitive) {
      case Some(String(source)) =>
        hide ItemNamed, DecodeOperation, Apply, ApplyPatch, Safe, AllClosed, Erase;
        MoveOrCopyUnfolds(t, patch, path, source, caseSensitive);
        MoveOrCopySafe(t, patch, path, source, caseSensitive);
        MoveOrCopyOnLists(Erase(t), patch, path, source, caseSensitive);
        MoveClosed(t, source, path, caseSensitive);
        CopyClosed(t, source, path, caseSensitive);
      case _ => NoSource(t, patch, path, caseSensitive);
    }
  }

  lemma NoSource(t: Tree, patch: Json, path: string, caseSensitive: bool)
    requires AllClosed(t) && ItemNamed(patch, "path", caseSensitive) == Some(String(path))
    requires DecodeOperation(patch, caseSensitive) in {MoveOp, CopyOp}
    requires !(match ItemNamed(patch, "from", caseSensitive) case Some(String(_)) => true case _ => false)
    ensures StaysClosed(t, patch, caseSensitive)
  {
    hide AllClosed, Erase, ItemNamed, DecodeOperation;
  }

  // A patch that is no test keeps all rings closed, and does on the tree what it does on its lists.
  lemma ApplyClosed(t: Tree, patch: Json, caseSensitive: bool)
    requires AllClosed(t) && DecodeOperation(patch, caseSensitive) != TestOp
    ensures StaysClosed(t, patch, caseSensitive)
  {
    var named, op := ItemNamed(patch, "path", caseSensitive), DecodeOperation(patch, caseSensitive);
    if named.Some? && named.value.String? && op != InvalidOp {
      hide StaysClosed, ItemNamed, DecodeOperation;
      var path := named.value.s;
      match op {
        case AddOp => AddOpClosed(t, patch, path, caseSensitive);
        case ReplaceOp => ReplaceOpClosed(t, patch, path, caseSensitive);
        case RemoveOp => RemoveOpClosed(t, patch, path, caseSensitive);
        case _ => MoveOrCopyClosed(t, patch, path, caseSensitive);
      }
    } else {
      MalformedClosed(t, patch, caseSensitive);
    }
  }

  lemma MalformedClosed(t: Tree, patch: Json, caseSensitive: bool)
    requires AllClosed(t)
    requires DecodeOperation(patch, caseSensitive) == InvalidOp
      || !(match ItemNamed(patch, "path", caseSensitive) case Some(String(_)) => true case _ => false)
    ensures StaysClosed(t, patch, caseSensitive)
  {
    hide AllClosed, Erase, ItemNamed, DecodeOperation;
  }

  lemma RootClosed(t: Tree, patch: Json, caseSensitive: bool)
    requires AllClosed(t)
    ensures var r, value := SetRoot(t, patch, caseSensitive), ItemNamed(patch, "value", caseSensitive);
      && r.Known? && AllClosed(r.tree)
      && Outcome(r.status, Erase(r.tree)) == if value.Some? then Outcome(0, value.value) else Outcome(7, Erase(t))
  {
    hide AllClosed, Erase, ItemNamed, Fresh;
    var value := ItemNamed(patch, "value", caseSensitive);
    if value.Some? {
      FreshIs(value.value);
    }
  }

  ghost predicate NoTest(patches: seq<Json>) {
    forall i :: 0 <= i < |patches| ==> DecodeOperation(patches[i], true) != TestOp
  }

  lemma {:induction false} RunClosed(t: Tree, patches: seq<Json>)
    requires AllClosed(t) && NoTest(patches)
    ensures var r := ApplyRun(t, patches, true);
      r.Known? && AllClosed(r.tree) && Outcome(r.status, Erase(r.tree)) == ApplyAll(Erase(t), patches, true)
    decreases |patches|
  {
    hide AllClosed, Erase, Apply, ApplyPatch, DecodeOperation;
    if patches != [] {
      ApplyClosed(t, patches[0], true);
      var r := Apply(t, patches[0], true);
      if r.status == 0 {
        RunClosed(r.tree, patches[1..]);
      }
    }
  }

  // ---------- Generated patches ----------

  lemma ComposedIsNoTest(operation: string, path: string, suffix: Option<string>, value: Option<Json>)
    requires operation != "test"
    ensures NoTest([ComposePatch(operation, path, suffix, value)])
  {
    ComposedFields(operation, path, suffix, value);
  }

  lemma {:induction false} DiffHasNoTest(path: string, from: Json, to: Json)
    ensures NoTest(Diff(path, from, to, true))
    decreases from, 1, 0
  {
    match (from, to) {
      case (Array(fs), Array(ts)) => ElemsHaveNoTest(path, from, fs, ts, 0);
      case (Object(_), Object(_)) => MembersHaveNoTest(path, from, SortedMembers(from, true), SortedMembers(to, true));
      case _ => ComposedIsNoTest("replace", path, None, Some(to));
    }
  }

  lemma {:induction false} ElemsHaveNoTest(path: string, whole: Json, fs: seq<Json>, ts: seq<Json>, i: nat)
    requires forall k :: 0 <= k < |fs| ==> fs[k] < whole
    ensures NoTest(DiffElems(path, whole, fs, ts, i, true))
    decreases whole, 0, |fs| + |ts|
  {
    if fs != [] && i > ULONG_MAX {
    } else if fs != [] && ts != [] {
      DiffHasNoTest(path + "/" + Decimal(i), fs[0], ts[0]);
      ElemsHaveNoTest(path, whole, fs[1..], ts[1..], i + 1);
    } else if fs != [] {
      ComposedIsNoTest("remove", path, Some(Decimal(i)), None);
      ElemsHaveNoTest(path, whole, fs[1..], ts, i);
    } else if ts != [] {
      ComposedIsNoTest("add", path, Some("-"), Some(ts[0]));
      ElemsHaveNoTest(path, whole, fs, ts[1..], i);
    }
  }

  lemma {:induction false} MembersHaveNoTest(path: string, whole: Json, fs: seq<Member>, ts: seq<Member>)
    requires forall f <- fs :: f.value < whole
    ensures NoTest(DiffMembers(path, whole, fs, ts, true))
    decreases whole, 0, |fs| + |ts|
  {
    if fs != [] || ts != [] {
      var diff := KeyOrder(fs, ts, true);
      if diff == 0 {
        DiffHasNoTest(path + "/" + Encode(fs[0].key), fs[0].value, ts[0].value);
        MembersHaveNoTest(path, whole, fs[1..], ts[1..]);
      } else if diff < 0 {
        ComposedIsNoTest("remove", path, Some(fs[0].key), None);
        MembersHaveNoTest(path, whole, fs[1..], ts);
      } else {
        ComposedIsNoTest("add", path, Some(ts[0].key), Some(ts[0].value));
        MembersHaveNoTest(path, whole, fs, ts[1..]);
      }
    }
  }

  // Applying GeneratePatchesCaseSensitive(from, to) to a document that denotes what from does,
  // whatever the order of its members, and whose rings are closed, as those of a duplicate are,
  // succeeds at every patch and gives to.
  lemma DiffThenPatch(t: Tree, from: Json, to: Json)
    requires AllClosed(t) && WellFormed(Erase(t)) && WellFormed(from) && WellFormed(to) && Diffable(from, to)
    requires Denote(Erase(t)) == Denote(from)
    ensures var r := ApplyRun(t, Diff("", from, to, true), true);
      r.Known? && r.status == 0 && AllClosed(r.tree) && Denote(Erase(r.tree)) == Denote(to)
  {
    DiffHasNoTest("", from, to);
    RunClosed(t, Diff("", from, to, true));
    DiffApplies(Erase(t), from, to);
  }
}
