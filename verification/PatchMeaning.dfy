// While appending appends, apply_patch() computes the operations of RFC 6902.
module PatchMeaning {
  import opened CStrings
  import opened Json
  import opened JsonCompare
  import opened JsonPatch
  import opened Pointer
  import opened Seqs

  // The words of section 4 of RFC 6902.
  function NameOf(op: Operation): string {
    match op
    case Add(_, _) => "add"
    case Remove(_) => "remove"
    case Replace(_, _) => "replace"
    case Move(_, _) => "move"
    case Copy(_, _) => "copy"
    case Test(_, _) => "test"
  }

  // The patch object stands for this operation, as section 4 of RFC 6902 writes it.
  ghost predicate Encodes(patch: Json, op: Operation) {
    && ItemNamed(patch, "op", true) == Some(String(NameOf(op)))
    && ItemNamed(patch, "path", true) == Some(String(Render(op.path)))
    && (op.Add? || op.Replace? || op.Test? ==>
          var value := ItemNamed(patch, "value", true);
          value.Some? && Formed(value.value, true) && Denote(value.value) == op.value)
    && (op.Move? || op.Copy? ==> ItemNamed(patch, "from", true) == Some(String(Render(op.from))))
  }

  // The branch that the code takes for it.
  lemma DecodesAs(patch: Json, op: Operation, caseSensitive: bool)
    requires ItemNamed(patch, "op", caseSensitive) == Some(String(NameOf(op)))
    ensures var code := DecodeOperation(patch, caseSensitive);
      && (op.Add? ==> code == AddOp) && (op.Remove? ==> code == RemoveOp) && (op.Replace? ==> code == ReplaceOp)
      && (op.Move? ==> code == MoveOp) && (op.Copy? ==> code == CopyOp) && (op.Test? ==> code == TestOp)
  {
    hide ItemNamed;
  }

  predicate IsOperation(name: string) {
    name == "add" || name == "remove" || name == "replace" || name == "move" || name == "copy" || name == "test"
  }

  // The key at the end of a path is the one that the removal takes.
  ghost predicate RightEnd(doc: Json, path: seq<string>) {
    path != [] ==> RightKey(doc, path[..|path| - 1], path[|path| - 1])
  }

  // The last token decodes to itself.
  ghost predicate GoodEnd(path: seq<string>) {
    path != [] ==> GoodLast(path[|path| - 1])
  }

  ghost predicate RoomAt(x: Value, path: seq<string>) {
    path != [] ==> HasRoom(x, path[..|path| - 1])
  }

  lemma RenderedPath(path: seq<string>)
    requires path != []
    ensures Render(path) != "" && path == path[..|path| - 1] + [path[|path| - 1]]
  {
    Next(path, |path| - 1);
    Whole(path);
    assert Render(path)[0] == '/';
  }

  lemma AddMeans(doc: Json, path: seq<string>, y: Json)
    requires Formed(doc, true) && Formed(y, true) && path != [] && PlainPath(Denote(doc), path) && GoodEnd(path)
    ensures var r, q := AddAtPath(doc, Render(path), y, true), RfcAdd(Denote(doc), path, Denote(y));
      Agrees(r, q) && (q.Some? && RoomAt(Denote(doc), path) ==> Formed(r.doc, true))
  {
    RenderedPath(path);
    AddIsAdd(doc, path[..|path| - 1], path[|path| - 1], y, true);
  }

  lemma DetachMeans(doc: Json, path: seq<string>)
    requires Formed(doc, true) && path != [] && PlainPath(Denote(doc), path) && GoodEnd(path) && RightEnd(doc, path)
    ensures var d, r := DetachPath(doc, Render(path), true), RfcRemove(Denote(doc), path);
      && (d.Some? <==> r.Some?) && (r.Some? <==> Get(Denote(doc), path).Some?)
      && (d.Some? ==>
            && Denote(d.value.doc) == r.value && Formed(d.value.doc, true)
            && Get(Denote(doc), path) == Some(Denote(d.value.item)) && Formed(d.value.item, true))
  {
    RenderedPath(path);
    GetAppend(Denote(doc), path[..|path| - 1], path[|path| - 1]);
    DetachIsRemove(doc, path[..|path| - 1], path[|path| - 1], true);
  }

  // Where a child was taken out there is room for another, and the path leads there as before.
  lemma AfterRemove(x: Value, up: seq<string>, t: string)
    requires Get(x, up + [t]).Some? && PlainPath(x, up + [t])
    requires Get(x, up).Some? && Get(x, up).value.VArray? ==> |Get(x, up).value.elems| <= ULONG_MAX + 1
    ensures RfcRemove(x, up + [t]).Some?
    ensures var r := RfcRemove(x, up + [t]).value; PlainPath(r, up + [t]) && HasRoom(r, up)
  {
    assert (up + [t])[..|up + [t]| - 1] == up;
    GetAppend(x, up, t);
    var p := Get(x, up).value;
    SetTwice(x, up, RemoveChild(p, t), p);
    PlainAppend(x, up, t);
    PlainAfterSet(x, up, t, RemoveChild(p, t));
  }

  lemma SmallParent(doc: Json, up: seq<string>, t: string)
    requires Formed(doc, true) && PlainPath(Denote(doc), up + [t])
    ensures Get(Denote(doc), up).Some? && Get(Denote(doc), up).value.VArray? ==>
      |Get(Denote(doc), up).value.elems| <= ULONG_MAX + 1
  {
    ParentOf(doc, up, t, doc, true);
  }

  lemma ReplaceMeans(doc: Json, path: seq<string>, y: Json)
    requires Formed(doc, true) && Formed(y, true)
    requires path != [] && PlainPath(Denote(doc), path) && GoodEnd(path) && RightEnd(doc, path)
    requires Get(Denote(doc), path).Some?
    ensures var d := DetachPath(doc, Render(path), true);
      && d.Some?
      && var r := AddAtPath(d.value.doc, Render(path), y, true);
      r.status == 0 && Denote(r.doc) == Set(Denote(doc), path, Denote(y)) && Formed(r.doc, true)
  {
    var up, t := path[..|path| - 1], path[|path| - 1];
    RenderedPath(path);
    DetachMeans(doc, path);
    var d := DetachPath(doc, Render(path), true).value.doc;
    RemoveThenAdd(Denote(doc), up, t, Denote(y));
    SmallParent(doc, up, t);
    AfterRemove(Denote(doc), up, t);
    AddMeans(d, path, y);
  }

  // Success and failure as the reference has it, and on success the same document.
  ghost predicate Agrees(r: Outcome, q: Option<Value>) {
    (r.status == 0 <==> q.Some?) && (q.Some? ==> Denote(r.doc) == q.value)
  }

  // What the paths of an operation must be like for the code to follow the RFC: no empty token and no
  // number beyond size_t for an array, a last token that decodes to itself, and the whole document
  // for a path only where a value is given.
  ghost predicate Clear(x: Value, op: Operation) {
    && (op.Remove? || op.Move? || op.Copy? ==> op.path != [])
    && (!op.Test? ==> GoodEnd(op.path))
    && (if !op.Move? then PlainPath(x, op.path)
        else
          && op.from != [] && PlainPath(x, op.from) && GoodEnd(op.from)
          && (RfcRemove(x, op.from).Some? ==> PlainPath(RfcRemove(x, op.from).value, op.path)))
    && (op.Copy? ==> PlainPath(x, op.from))
  }

  // What is taken out is what the path names: the lookup for it never minds the case.
  ghost predicate TakesRight(doc: Json, op: Operation) {
    && (op.Remove? || op.Replace? ==> RightEnd(doc, op.path))
    && (op.Move? ==> RightEnd(doc, op.from))
  }

  // An array that gets an element stays within the indices that path texts are printed for.
  ghost predicate Room(x: Value, op: Operation) {
    match op
    case Add(path, _) => RoomAt(x, path)
    case Copy(path, _) => RoomAt(x, path)
    case Move(path, from) => RfcRemove(x, from).Some? ==> RoomAt(RfcRemove(x, from).value, path)
    case _ => true
  }

  // One patch, for every operation of RFC 6902: it succeeds exactly when the RFC lets it, and leaves
  // the document that the RFC asks for.
  lemma ApplyIsRfc6902(doc: Json, patch: Json, op: Operation)
    requires Formed(doc, true) && Encodes(patch, op) && Clear(Denote(doc), op) && TakesRight(doc, op)
    ensures var r, q := ApplyPatch(doc, patch, true), Rfc6902(Denote(doc), op);
      Agrees(r, q) && (q.Some? && Room(Denote(doc), op) ==> Formed(r.doc, true))
  {
    hide ApplyPatch, Encodes, PlainPath, GoodEnd, RightEnd, HasRoom, Formed, Denote, Get, Set, RfcAdd, RfcRemove;
    ApplyUnfolds(doc, patch, op);
    ValueIs(patch, op);
    match op {
      case Add(path, _) => AddBranchMeans(doc, path, ItemNamed(patch, "value", true).value);
      case Remove(path) => RemoveMeans(doc, path);
      case Replace(path, _) => ReplaceBranchMeans(doc, path, ItemNamed(patch, "value", true).value);
      case Move(path, from) => MoveMeans(doc, path, from);
      case Copy(path, from) => CopyMeans(doc, path, from);
      case Test(path, _) => TestMeans(doc, path, ItemNamed(patch, "value", true).value);
    }
  }

  lemma ValueIs(patch: Json, op: Operation)
    requires Encodes(patch, op)
    ensures op.Add? || op.Replace? || op.Test? ==>
      var value := ItemNamed(patch, "value", true);
      value.Some? && Formed(value.value, true) && Denote(value.value) == op.value
  {
  }

  // The branch of apply_patch() that an operation takes.
  ghost function Branch(doc: Json, patch: Json, op: Operation): Outcome
    requires Encodes(patch, op)
  {
    match op
    case Add(path, _) => AddBranch(doc, path, ItemNamed(patch, "value", true).value)
    case Remove(path) => RemoveBranch(doc, Render(path))
    case Replace(path, _) => ReplaceBranch(doc, path, ItemNamed(patch, "value", true).value)
    case Move(path, from) => MoveBranch(doc, Render(path), Render(from))
    case Copy(path, from) => CopyBranch(doc, Render(path), Render(from))
    case Test(path, _) => TestBranch(doc, Render(path), ItemNamed(patch, "value", true).value)
  }

  ghost function AddBranch(doc: Json, path: seq<string>, value: Json): Outcome {
    if path == [] then Outcome(0, value) else AddAtPath(doc, Render(path), value, true)
  }

  ghost function RemoveBranch(doc: Json, path: string): Outcome {
    match DetachPath(doc, path, true) case None => Outcome(13, doc) case Some(d) => Outcome(0, d.doc)
  }

  ghost function ReplaceBranch(doc: Json, path: seq<string>, value: Json): Outcome {
    if path == [] then Outcome(0, value)
    else
      match DetachPath(doc, Render(path), true)
      case None => Outcome(13, doc)
      case Some(d) => AddAtPath(d.doc, Render(path), value, true)
  }

  ghost function MoveBranch(doc: Json, path: string, source: string): Outcome {
    match DetachPath(doc, source, true) case None => Outcome(5, doc) case Some(d) => AddAtPath(d.doc, path, d.item, true)
  }

  ghost function CopyBranch(doc: Json, path: string, source: string): Outcome {
    match Locate(doc, source, true) case None => Outcome(5, doc) case Some(loc) => AddAtPath(doc, path, At(doc, loc), true)
  }

  ghost function TestBranch(doc: Json, path: string, value: Json): Outcome {
    match Locate(doc, path, true)
    case None => Outcome(1, doc)
    case Some(loc) => if CompareJson(At(doc, loc), value, true) then Outcome(0, doc) else Outcome(1, doc)
  }

  lemma EmptyPath()
    ensures Render([]) == ""
  {
  }

  lemma ApplyUnfolds(doc: Json, patch: Json, op: Operation)
    requires Encodes(patch, op) && (op.Remove? || op.Move? || op.Copy? ==> op.path != [])
    ensures ApplyPatch(doc, patch, true) == Branch(doc, patch, op)
  {
    hide Formed, Denote, AddAtPath, DetachPath, Locate, At, ValidLocation, CompareJson, ItemNamed, DecodeOperation, Render, NameOf;
    EmptyPath();
    if op.path != [] {
      RenderedPath(op.path);
    }
    DecodesAs(patch, op, true);
    var code := DecodeOperation(patch, true);
    match op {
      case Add(_, _) => assert code == AddOp;
      case Remove(_) => assert code == RemoveOp;
      case Replace(_, _) => assert code == ReplaceOp;
      case Move(_, _) => assert code == MoveOp;
      case Copy(_, _) => assert code == CopyOp;
      case Test(_, _) => assert code == TestOp;
    }
  }

  lemma AddBranchMeans(doc: Json, path: seq<string>, value: Json)
    requires Formed(doc, true) && Formed(value, true) && PlainPath(Denote(doc), path) && GoodEnd(path)
    ensures var r, q := AddBranch(doc, path, value), RfcAdd(Denote(doc), path, Denote(value));
      Agrees(r, q) && (q.Some? && RoomAt(Denote(doc), path) ==> Formed(r.doc, true))
  {
    if path != [] {
      AddMeans(doc, path, value);
    }
  }

  lemma RemoveMeans(doc: Json, path: seq<string>)
    requires Formed(doc, true) && path != [] && PlainPath(Denote(doc), path) && GoodEnd(path) && RightEnd(doc, path)
    ensures var r, q := RemoveBranch(doc, Render(path)), RfcRemove(Denote(doc), path);
      Agrees(r, q) && (q.Some? ==> Formed(r.doc, true))
  {
    DetachMeans(doc, path);
  }

  lemma ReplaceBranchMeans(doc: Json, path: seq<string>, value: Json)
    requires Formed(doc, true) && Formed(value, true)
    requires PlainPath(Denote(doc), path) && GoodEnd(path) && RightEnd(doc, path)
    ensures var r, q := ReplaceBranch(doc, path, value), Rfc6902(Denote(doc), Replace(path, Denote(value)));
      Agrees(r, q) && (q.Some? ==> Formed(r.doc, true))
  {
    if path != [] {
      DetachMeans(doc, path);
      if Get(Denote(doc), path).Some? {
        ReplaceMeans(doc, path, value);
      }
    }
  }

  lemma MoveMeans(doc: Json, path: seq<string>, from: seq<string>)
    requires Formed(doc, true) && Clear(Denote(doc), Move(path, from)) && RightEnd(doc, from)
    ensures var r, q := MoveBranch(doc, Render(path), Render(from)), Rfc6902(Denote(doc), Move(path, from));
      Agrees(r, q) && (q.Some? && Room(Denote(doc), Move(path, from)) ==> Formed(r.doc, true))
  {
    DetachMeans(doc, from);
    var d := DetachPath(doc, Render(from), true);
    if d.Some? {
      AddMeans(d.value.doc, path, d.value.item);
    }
  }

  lemma CopyMeans(doc: Json, path: seq<string>, from: seq<string>)
    requires Formed(doc, true) && Clear(Denote(doc), Copy(path, from))
    ensures var r, q := CopyBranch(doc, Render(path), Render(from)), Rfc6902(Denote(doc), Copy(path, from));
      Agrees(r, q) && (q.Some? && Room(Denote(doc), Copy(path, from)) ==> Formed(r.doc, true))
  {
    LocateAgrees(doc, from, doc, true);
    var loc := Locate(doc, Render(from), true);
    if loc.Some? {
      AddMeans(doc, path, At(doc, loc.value));
    }
  }

  lemma TestMeans(doc: Json, path: seq<string>, value: Json)
    requires Formed(doc, true) && Formed(value, true) && PlainPath(Denote(doc), path)
    ensures var r := TestBranch(doc, Render(path), value);
      Agrees(r, Rfc6902(Denote(doc), Test(path, Denote(value)))) && r.doc == doc
  {
    hide CompareJson, Formed, Denote, Get, Locate, At, Render, PlainPath, ValidLocation;
    LocateAgrees(doc, path, doc, true);
    var loc := Locate(doc, Render(path), true);
    if loc.Some? {
      CompareAgrees(At(doc, loc.value), value, true);
    }
  }
}
