// The statuses of apply_patch(): what each of them says about the patch and the document.
module PatchStatus {
  import opened CStrings
  import opened Json
  import opened JsonPatch
  import opened PatchMeaning
  import opened PatchRings
  import opened Pointer
  import opened RingTree

  predicate IsText(j: Option<Json>) {
    j.Some? && j.value.String?
  }

  // A patch without a text for a path has status 2, and one whose "op" is none of the six words, or no
  // text, has status 3. Neither touches the document.
  lemma MalformedIsRefused(t: Tree, patch: Json, caseSensitive: bool)
    ensures var path, name := ItemNamed(patch, "path", caseSensitive), ItemNamed(patch, "op", caseSensitive);
      && (!IsText(path) ==> Apply(t, patch, caseSensitive) == Known(2, t))
      && (IsText(path) && !(IsText(name) && IsOperation(name.value.s)) ==> Apply(t, patch, caseSensitive) == Known(3, t))
  {
    hide ItemNamed, TestAt, Detach, AddGiven, SetRoot, MoveFrom, CopyFrom;
  }

  // The words that are taken: any of the six is.
  lemma WordIsTaken(patch: Json, caseSensitive: bool)
    requires IsText(ItemNamed(patch, "op", caseSensitive))
    ensures DecodeOperation(patch, caseSensitive) == InvalidOp <==> !IsOperation(ItemNamed(patch, "op", caseSensitive).value.s)
  {
    hide ItemNamed;
  }

  // Without the value that it needs a patch has status 7, or 1 for a test. A replace has taken out the
  // old item by then.
  lemma ValueIsNeeded(t: Tree, patch: Json, path: string, op: Operation, caseSensitive: bool)
    requires ItemNamed(patch, "path", caseSensitive) == Some(String(path))
    requires ItemNamed(patch, "op", caseSensitive) == Some(String(NameOf(op)))
    requires ItemNamed(patch, "value", caseSensitive) == None
    ensures var r, d := Apply(t, patch, caseSensitive), Detach(t, path, caseSensitive);
      && (op.Add? ==> r == Known(7, t))
      && (op.Test? ==> r == Known(1, t))
      && (op.Replace? ==> r == if path == "" then Known(7, t) else if d == None then Known(13, t) else Known(7, d.value.tree))
  {
    hide ItemNamed, Detach, AddAlong, Compare, MoveFrom, CopyFrom, Fresh, Locate, DecodeOperation, NameOf;
    DecodesAs(patch, op, caseSensitive);
    var code := DecodeOperation(patch, caseSensitive);
    match op {
      case Add(_, _) => assert code == AddOp;
      case Test(_, _) => assert code == TestOp;
      case Replace(_, _) => assert code == ReplaceOp;
      case _ =>
    }
  }

  // Without a source a move or copy has status 4, and with one that is no text status 5.
  lemma SourceIsNeeded(t: Tree, patch: Json, path: string, op: Operation, caseSensitive: bool)
    requires ItemNamed(patch, "path", caseSensitive) == Some(String(path)) && (op.Move? || op.Copy?)
    requires ItemNamed(patch, "op", caseSensitive) == Some(String(NameOf(op)))
    requires !IsText(ItemNamed(patch, "from", caseSensitive))
    ensures Apply(t, patch, caseSensitive) == Known(if ItemNamed(patch, "from", caseSensitive) == None then 4 else 5, t)
  {
    hide ItemNamed, Detach, AddAlong, Compare, MoveFrom, CopyFrom, Fresh, Locate, DecodeOperation, NameOf;
    DecodesAs(patch, op, caseSensitive);
    var code := DecodeOperation(patch, caseSensitive);
    if op.Move? {
      assert code == MoveOp;
    } else {
      assert code == CopyOp;
    }
  }

  // What the status of an addition says, in terms of the value above the last token: 9 for none or one
  // that holds nothing, 11 for a token that is no index, 10 for an index behind the end.
  lemma AddStatus(t: Tree, path: seq<string>, value: Tree)
    requires Formed(Erase(t), true) && path != [] && PlainPath(Denote(Erase(t)), path) && GoodEnd(path)
    ensures var r, p := AddAlong(t, Render(path), value, true), Get(Denote(Erase(t)), path[..|path| - 1]);
      var last := path[|path| - 1];
      match p
      case None => r == Known(9, t)
      case Some(VObject(_)) => r.Known? ==> r.status == 0
      case Some(VArray(s)) =>
        if last == "-" then r.Known? && r.status == 0
        else if ArrayIndex(last) == None then r == Known(11, t)
        else if ArrayIndex(last).value > |s| then r == Known(10, t)
        else r.Known? && r.status == 0
      case Some(_) => r == Known(9, t)
  {
    RenderedPath(path);
    var up, last := path[..|path| - 1], path[|path| - 1];
    AlongUnfolds(t, up, last, value);
    ParentOf(Erase(t), up, last, Erase(t), true);
    hide Render, Locate, PlainPath, Formed, GoodLast, Get, Set, Put, Cleared, AddAlong;
    var loc := Locate(Erase(t), Render(up), true);
    if loc.Some? {
      AddToStatus(NodeAt(t, loc.value), last, value);
    }
  }

  // A path that is no pointer, for want of a slash, has no parent either.
  lemma NoSlashStatus(t: Tree, path: string, value: Tree, caseSensitive: bool)
    requires '/' !in path
    ensures AddAlong(t, path, value, caseSensitive) == Known(9, t) && Detach(t, path, caseSensitive) == None
  {
    NoSlash(path);
  }

  lemma AddToStatus(parent: Tree, last: string, value: Tree)
    requires PlainPath(Denote(Erase(parent)), [last]) && GoodLast(last)
    ensures var r := AddTo(parent, last, value, true);
      match Denote(Erase(parent))
      case VObject(_) => r.Known? ==> r.status == 0
      case VArray(s) =>
        && r.Known?
        && r.status == (if last == "-" then 0 else if ArrayIndex(last) == None then 11
                        else if ArrayIndex(last).value > |s| then 10 else 0)
      case _ => r == Known(9, parent)
  {
    if parent.List? {
      PlainIndex(Erase(parent), last);
    }
  }

  // What the status of any other operation says: 13 or 5 for nothing at the path that something is
  // taken from, 1 for a test that finds nothing or something else.
  lemma OtherStatus(t: Tree, patch: Json, op: Operation)
    requires Formed(Erase(t), true) && Encodes(patch, op) && Clear(Denote(Erase(t)), op) && TakesRight(Erase(t), op)
    ensures var r, x := Apply(t, patch, true), Denote(Erase(t));
      && (op.Remove? ==> r.Known? && r.status == if Get(x, op.path).Some? then 0 else 13)
      && (op.Replace? && Get(x, op.path) == None ==> r == Known(13, t))
      && ((op.Move? || op.Copy?) && Get(x, op.from) == None ==> r == Known(5, t))
      && (op.Test? ==> r.Known? && r.status == if Get(x, op.path) == Some(op.value) then 0 else 1)
  {
    hide Apply, PlainPath, Formed, Denote, Erase, AddAlong, Detach, Locate, Compare, ItemNamed, Render, Fresh, RfcAdd, RfcRemove,
      Get, Set, RightKey, GoodLast, NameOf;
    ApplyIs(t, patch, op);
    ValueIs(patch, op);
    match op {
      case Remove(path) => DetachMeans(Erase(t), path);
      case Replace(path, _) =>
        if path != [] {
          DetachMeans(Erase(t), path);
        } else {
          WholeIs(Denote(Erase(t)), VNull);
        }
      case Move(_, from) => DetachMeans(Erase(t), from);
      case Copy(_, from) => LocateAgrees(Erase(t), from, Erase(t), true);
      case Test(path, _) =>
        TestFollows(t, patch, path);
        TestStatus(t, patch, path);
      case Add(_, _) =>
    }
  }

  lemma TestStatus(t: Tree, patch: Json, path: seq<string>)
    ensures TestAt(t, patch, Render(path), true).Known? && TestAt(t, patch, Render(path), true).status <= 1
  {
    hide Render, Locate, Compare, ItemNamed;
  }
}
