// JSON Patch on trees with rings: when a patch does what RFC 6902 says, and when a run of patches does.
module PatchRings {
  import opened CStrings
  import opened Json
  import opened JsonCompare
  import opened JsonPatch
  import opened PatchMeaning
  import opened PatchRemoval
  import opened Pointer
  import opened PointerText
  import opened RingTree
  import opened Rings

  // What a step leaves. Unknown: the code appends behind a node that has left the list.
  datatype Result = Unknown | Known(status: nat, tree: Tree)

  datatype TakenOut = TakenOut(item: Tree, tree: Tree)

  function TakeOut(t: Tree, i: nat): (r: Tree)
    requires i < ChildCount(Erase(t))
    ensures Erase(r) == WithoutChild(Erase(t), i)
  {
    if t.List? then
      assert EraseElems(t.elems[..i] + t.elems[i + 1..]) == EraseElems(t.elems)[..i] + EraseElems(t.elems)[i + 1..];
      List(t.elems[..i] + t.elems[i + 1..])
    else
      var ms := t.members;
      assert EraseMembers(ms[..i] + ms[i + 1..]) == EraseMembers(ms)[..i] + EraseMembers(ms)[i + 1..];
      Dict(ms[..i] + ms[i + 1..], BackAfterDetach(|ms|, t.back, i))
  }

  // detach_path()
  function Detach(t: Tree, path: string, caseSensitive: bool): (r: Option<TakenOut>)
    ensures DetachPath(Erase(t), path, caseSensitive) ==
      match r case None => None case Some(d) => Some(Detached(Erase(d.item), Erase(d.tree)))
  {
    match LastSlash(path)
    case None => None
    case Some(k) =>
      match Locate(Erase(t), path[..k], caseSensitive)
      case None => None
      case Some(loc) =>
        var parent := NodeAt(t, loc);
        var i := DetachPosition(Erase(parent), Decoded(path[k + 1..]));
        if i < ChildCount(Erase(parent))
        then Some(TakenOut(Child(parent, i), PutNode(t, loc, TakeOut(parent, i)))) else None
  }

  // The object without the first member of that name, which is deleted before the new one is added.
  function Cleared(t: Tree, name: string, caseSensitive: bool): (r: Tree)
    requires t.Dict?
    ensures r.Dict? && Erase(r) == Object(DropName(Erase(t).members, name, caseSensitive))
  {
    var i := FindName(Erase(t).members, name, caseSensitive);
    if i < |t.members| then TakeOut(t, i) else t
  }

  predicate LeadsAstray(n: nat, back: Back) {
    n > 0 && (back.Astray? || (back.ToChild? && back.k >= n))
  }

  // The last part of apply_patch(), on the node that the parent pointer names.
  function AddTo(parent: Tree, child: string, value: Tree, caseSensitive: bool): Result {
    match parent
    case List(es) =>
      if child == "-" then Known(0, List(es + [value]))
      else (match DecodeIndex(child)
        case None => Known(11, parent)
        case Some(n) => if n <= |es| then Known(0, List(es[..n] + [value] + es[n..])) else Known(10, parent))
    case Dict(_, _) =>
      var c := Cleared(parent, child, caseSensitive);
      var n := |c.members|;
      if LeadsAstray(n, c.back) then Unknown
      else Known(0, Dict(Appended(c.members, c.back, Named(child, value)), BackAfterAppend(n, c.back)))
    case Leaf(_) => Known(9, parent)
  }

  function AddAlong(t: Tree, path: string, value: Tree, caseSensitive: bool): Result {
    match LastSlash(path)
    case None => Known(9, t)
    case Some(k) =>
      match Locate(Erase(t), path[..k], caseSensitive)
      case None => Known(9, t)
      case Some(loc) => AddAtNode(t, loc, Decoded(path[k + 1..]), value, caseSensitive)
  }

  function AddAtNode(t: Tree, loc: seq<nat>, child: string, value: Tree, caseSensitive: bool): Result
    requires ValidLocation(Erase(t), loc)
  {
    match AddTo(NodeAt(t, loc), child, value, caseSensitive)
    case Unknown => Unknown
    case Known(status, node) => if status == 0 then Known(0, PutNode(t, loc, node)) else Known(status, t)
  }

  // An object that gets a member has a closed ring once the old member of that name is deleted.
  predicate ClosedFor(parent: Tree, child: string, caseSensitive: bool) {
    parent.Dict? ==> var c := Cleared(parent, child, caseSensitive); Closed(|c.members|, c.back)
  }

  predicate ClosedAlong(t: Tree, path: string, caseSensitive: bool) {
    match LastSlash(path)
    case None => true
    case Some(k) =>
      match Locate(Erase(t), path[..k], caseSensitive)
      case None => true
      case Some(loc) => ClosedFor(NodeAt(t, loc), Decoded(path[k + 1..]), caseSensitive)
  }

  // The "value" part of an add or replace, once the old value is gone.
  function AddGiven(t: Tree, patch: Json, path: string, caseSensitive: bool): Result {
    match ItemNamed(patch, "value", caseSensitive)
    case None => Known(7, t)
    case Some(value) => AddAlong(t, path, Fresh(value), caseSensitive)
  }

  function SetRoot(t: Tree, patch: Json, caseSensitive: bool): Result {
    match ItemNamed(patch, "value", caseSensitive)
    case None => Known(7, t)
    case Some(value) => Known(0, Fresh(value))
  }

  // The test operation sorts what it compares, and does so even if it fails.
  function TestAt(t: Tree, patch: Json, path: string, caseSensitive: bool): Result {
    match (Locate(Erase(t), path, caseSensitive), ItemNamed(patch, "value", caseSensitive))
    case (Some(loc), Some(value)) =>
      var c := Compare(NodeAt(t, loc), value, caseSensitive);
      Known(if c.same then 0 else 1, PutNode(t, loc, c.tree))
    case _ => Known(1, t)
  }

  // apply_patch()
  function Apply(t: Tree, patch: Json, caseSensitive: bool): Result {
    match ItemNamed(patch, "path", caseSensitive)
    case Some(String(path)) =>
      (match DecodeOperation(patch, caseSensitive)
       case InvalidOp => Known(3, t)
       case TestOp => TestAt(t, patch, path, caseSensitive)
       case RemoveOp =>
         if path == "" then Known(0, Leaf(Invalid))
         else (match Detach(t, path, caseSensitive) case None => Known(13, t) case Some(d) => Known(0, d.tree))
       case ReplaceOp =>
         if path == "" then SetRoot(t, patch, caseSensitive)
         else (match Detach(t, path, caseSensitive)
           case None => Known(13, t)
           case Some(d) => AddGiven(d.tree, patch, path, caseSensitive))
       case AddOp => if path == "" then SetRoot(t, patch, caseSensitive) else AddGiven(t, patch, path, caseSensitive)
       case MoveOp =>
         (match ItemNamed(patch, "from", caseSensitive)
          case None => Known(4, t)
          case Some(String(source)) => MoveFrom(t, source, path, caseSensitive)
          case _ => Known(5, t))
       case CopyOp =>
         (match ItemNamed(patch, "from", caseSensitive)
          case None => Known(4, t)
          case Some(String(source)) => CopyFrom(t, source, path, caseSensitive)
          case _ => Known(5, t)))
    case _ => Known(2, t)
  }

  // The node itself goes to its new place, with its own ring.
  function MoveFrom(t: Tree, source: string, path: string, caseSensitive: bool): Result {
    match Detach(t, source, caseSensitive)
    case None => Known(5, t)
    case Some(d) => AddAlong(d.tree, path, d.item, caseSensitive)
  }

  function CopyFrom(t: Tree, source: string, path: string, caseSensitive: bool): Result {
    match Locate(Erase(t), source, caseSensitive)
    case None => Known(5, t)
    case Some(loc) => AddAlong(t, path, Fresh(At(Erase(t), loc)), caseSensitive)
  }

  // The loop of cJSONUtils_ApplyPatches().
  function ApplyRun(t: Tree, patches: seq<Json>, caseSensitive: bool): Result
    decreases |patches|
  {
    if patches == [] then Known(0, t)
    else
      match Apply(t, patches[0], caseSensitive)
      case Known(0, next) => ApplyRun(next, patches[1..], caseSensitive)
      case r => r
  }

  // ---------- Adding to a closed ring, and to an open one ----------

  lemma AddToList(es: seq<Tree>, child: string, value: Tree, caseSensitive: bool)
    ensures var r := AddTo(List(es), child, value, caseSensitive);
      r.Known? && Outcome(r.status, Erase(r.tree)) == AddChildTo(Erase(List(es)), child, Erase(value), caseSensitive)
  {
    hide Erase, DecodeIndex;
    ErasedList(es);
    ElemAppended(es, value);
    match DecodeIndex(child) {
      case Some(n) =>
        if n <= |es| {
          ElemInserted(es, value, n);
        }
      case None =>
    }
  }

  lemma ErasedList(es: seq<Tree>)
    ensures Erase(List(es)) == Array(EraseElems(es))
  {
  }

  lemma ElemAppended(es: seq<Tree>, value: Tree)
    ensures Erase(List(es + [value])) == Array(EraseElems(es) + [Erase(value)])
  {
    assert EraseElems(es + [value]) == EraseElems(es) + [Erase(value)];
  }

  lemma ElemInserted(es: seq<Tree>, value: Tree, n: nat)
    requires n <= |es|
    ensures Erase(List(es[..n] + [value] + es[n..])) == Array(EraseElems(es)[..n] + [Erase(value)] + EraseElems(es)[n..])
  {
    assert EraseElems(es[..n] + [value] + es[n..]) == EraseElems(es)[..n] + [Erase(value)] + EraseElems(es)[n..];
  }

  lemma AddToClosed(parent: Tree, child: string, value: Tree, caseSensitive: bool)
    requires ClosedFor(parent, child, caseSensitive)
    ensures var r, j := AddTo(parent, child, value, caseSensitive), AddChildTo(Erase(parent), child, Erase(value), caseSensitive);
      r.Known? && Outcome(r.status, Erase(r.tree)) == j
  {
    match parent {
      case List(es) => AddToList(es, child, value, caseSensitive);
      case Dict(_, _) =>
        var c := Cleared(parent, child, caseSensitive);
        var added := Named(child, value);
        ClosedStaysClosed(c.members, c.back, added, 0);
        assert EraseMembers(c.members + [added]) == EraseMembers(c.members) + [Member(child, Erase(value))];
      case Leaf(_) =>
    }
  }

  lemma AddAlongClosed(t: Tree, path: string, value: Tree, caseSensitive: bool)
    requires ClosedAlong(t, path, caseSensitive)
    ensures var r, j := AddAlong(t, path, value, caseSensitive), AddAtPath(Erase(t), path, Erase(value), caseSensitive);
      r.Known? && Outcome(r.status, Erase(r.tree)) == j
  {
    hide AddTo, AddChildTo, ClosedFor, Locate, LastSlash, Decoded, ValidLocation, Put, At, Erase;
    match LastSlash(path) {
      case None =>
      case Some(k) =>
        match Locate(Erase(t), path[..k], caseSensitive) {
          case None =>
          case Some(loc) => AddToClosed(NodeAt(t, loc), Decoded(path[k + 1..]), value, caseSensitive);
        }
    }
  }

  // What appending to an open ring leaves lacks the new member, or the last of the old ones.
  lemma ShortDiffers(rest: seq<Member>, short: seq<Member>, k: nat, t: string, y: Json)
    requires DistinctKeys(rest) && IsNew(rest, t, true) && rest != []
    requires short == rest || (k < |rest| - 1 && short == rest[..k + 1] + [Member(t, y)])
    ensures DenoteMembers(short) != DenoteMembers(rest + [Member(t, y)])
  {
    var full, last := rest + [Member(t, y)], rest[|rest| - 1];
    assert forall i :: 0 <= i < |rest| ==> rest[i] in rest;
    if short == rest {
      assert full[|rest|].key == t;
      KeyIn(full, |rest|);
      NoKeyIn(short, t);
    } else {
      assert full[|rest| - 1] == last;
      KeyIn(full, |rest| - 1);
      NoKeyIn(short, last.key);
    }
  }

  lemma KeyIn(ms: seq<Member>, i: nat)
    requires i < |ms|
    ensures ms[i].key in DenoteMembers(ms)
  {
    MembersMap(ms);
  }

  lemma NoKeyIn(ms: seq<Member>, k: string)
    requires forall i :: 0 <= i < |ms| ==> ms[i].key != k
    ensures k !in DenoteMembers(ms)
  {
    MembersMap(ms);
  }

  lemma AddToOpen(parent: Tree, child: string, value: Tree)
    requires Formed(Erase(parent), true) && !ClosedFor(parent, child, true)
    ensures var r, j := AddTo(parent, child, value, true), AddChildTo(Erase(parent), child, Erase(value), true);
      && j.status == 0
      && (r.Known? ==> r.status == 0 && Denote(Erase(r.tree)) != Denote(j.doc))
  {
    var c := Cleared(parent, child, true);
    var ms, added := c.members, Named(child, value);
    var rest := EraseMembers(ms);
    MembersErased(parent);
    MembersErased(c);
    WithoutName(Erase(parent).members, child, true);
    AppendedExactly(ms, c.back, added);
    var short := Appended(ms, c.back, added);
    var k := if c.back.ToChild? then c.back.k else 0;
    if short != ms {
      assert EraseMembers(short) == rest[..k + 1] + [Member(child, Erase(value))];
    }
    ShortDiffers(rest, EraseMembers(short), k, child, Erase(value));
  }

  // Nodes that denote different things make documents that do.
  lemma PutDiffers(doc: Json, up: seq<string>, t: string, w: Json, q: Value)
    requires Formed(doc, true) && PlainPath(Denote(doc), up + [t]) && Locate(doc, Render(up), true).Some?
    requires Get(Denote(doc), up).Some? && Denote(w) != q
    ensures Denote(Put(doc, Locate(doc, Render(up), true).value, w)) != Set(Denote(doc), up, q)
  {
    ParentOf(doc, up, t, w, true);
    SetTwice(Denote(doc), up, Denote(w), q);
    SetTwice(Denote(doc), up, q, q);
  }

  lemma AlongUnfolds(t: Tree, up: seq<string>, tk: string, value: Tree)
    requires GoodLast(tk)
    ensures AddAlong(t, Render(up + [tk]), value, true) ==
      match Locate(Erase(t), Render(up), true) case None => Known(9, t) case Some(loc) => AddAtNode(t, loc, tk, value, true)
    ensures ClosedAlong(t, Render(up + [tk]), true) ==
      match Locate(Erase(t), Render(up), true) case None => true case Some(loc) => ClosedFor(NodeAt(t, loc), tk, true)
  {
    SplitPath(up, tk);
    GoodLastIndex(tk);
  }

  lemma AddAlongOpen(t: Tree, up: seq<string>, tk: string, value: Tree)
    requires Formed(Erase(t), true) && PlainPath(Denote(Erase(t)), up + [tk]) && GoodLast(tk)
    requires !ClosedAlong(t, Render(up + [tk]), true)
    ensures var r, j := AddAlong(t, Render(up + [tk]), value, true), AddAtPath(Erase(t), Render(up + [tk]), Erase(value), true);
      && j.status == 0
      && (r.Known? ==> r.status == 0 && Denote(Erase(r.tree)) != Denote(j.doc))
  {
    AlongUnfolds(t, up, tk, value);
    AddUnfolds(Erase(t), up, tk, Erase(value));
    hide AddTo, AddChildTo, ClosedFor, Locate, Render, PlainPath, Formed, Denote, Erase, Put, At, ValidLocation, AddAlong,
      AddAtPath, ClosedAlong;
    ParentOf(Erase(t), up, tk, Erase(t), true);
    var loc := Locate(Erase(t), Render(up), true).value;
    AddToOpen(NodeAt(t, loc), tk, value);
    var r, j := AddTo(NodeAt(t, loc), tk, value, true), AddChildTo(At(Erase(t), loc), tk, Erase(value), true);
    ParentOf(Erase(t), up, tk, j.doc, true);
    if r.Known? {
      PutDiffers(Erase(t), up, tk, Erase(r.tree), Denote(j.doc));
    }
  }

  // The result is what the RFC asks for, with success or failure alike.
  ghost predicate Follows(r: Result, q: Option<Value>) {
    r.Known? && Agrees(Outcome(r.status, Erase(r.tree)), q)
  }

  // Adding follows the RFC exactly when the ring of the object that gets the member is closed.
  lemma AddFollows(t: Tree, path: seq<string>, value: Tree)
    requires Formed(Erase(t), true) && Formed(Erase(value), true)
    requires path != [] && PlainPath(Denote(Erase(t)), path) && GoodEnd(path)
    ensures var r, q := AddAlong(t, Render(path), value, true), RfcAdd(Denote(Erase(t)), path, Denote(Erase(value)));
      && (Follows(r, q) <==> ClosedAlong(t, Render(path), true))
      && (Follows(r, q) && q.Some? && RoomAt(Denote(Erase(t)), path) ==> Formed(Erase(r.tree), true))
  {
    hide AddAlong, AddAtPath, RfcAdd, ClosedAlong, Render, PlainPath, Formed, Denote, Erase, RoomAt;
    AddMeans(Erase(t), path, Erase(value));
    if ClosedAlong(t, Render(path), true) {
      AddAlongClosed(t, Render(path), value, true);
    } else {
      RenderedPath(path);
      AddAlongOpen(t, path[..|path| - 1], path[|path| - 1], value);
    }
  }

  // ---------- One patch ----------

  // Every object that the patch gives a member to has a closed ring by then.
  predicate Safe(t: Tree, patch: Json, caseSensitive: bool) {
    match ItemNamed(patch, "path", caseSensitive)
    case Some(String(path)) =>
      (match DecodeOperation(patch, caseSensitive)
       case AddOp => path == "" || SafeGiven(t, patch, path, caseSensitive)
       case ReplaceOp =>
         path == "" || (match Detach(t, path, caseSensitive)
           case None => true
           case Some(d) => SafeGiven(d.tree, patch, path, caseSensitive))
       case MoveOp =>
         (match ItemNamed(patch, "from", caseSensitive)
          case Some(String(source)) => SafeMove(t, source, path, caseSensitive)
          case _ => true)
       case CopyOp =>
         (match ItemNamed(patch, "from", caseSensitive)
          case Some(String(source)) =>
            Locate(Erase(t), source, caseSensitive).Some? ==> ClosedAlong(t, path, caseSensitive)
          case _ => true)
       case _ => true)
    case _ => true
  }

  predicate SafeGiven(t: Tree, patch: Json, path: string, caseSensitive: bool) {
    ItemNamed(patch, "value", caseSensitive).Some? ==> ClosedAlong(t, path, caseSensitive)
  }

  predicate SafeMove(t: Tree, source: string, path: string, caseSensitive: bool) {
    match Detach(t, source, caseSensitive)
    case None => true
    case Some(d) => ClosedAlong(d.tree, path, caseSensitive)
  }

  function GiveAt(t: Tree, path: seq<string>, value: Tree): Result {
    if path == [] then Known(0, value) else AddAlong(t, Render(path), value, true)
  }

  function ReplaceAt(t: Tree, path: seq<string>, value: Tree): Result {
    if path == [] then Known(0, value)
    else
      match Detach(t, Render(path), true)
      case None => Known(13, t)
      case Some(d) => AddAlong(d.tree, Render(path), value, true)
  }

  function RemoveFrom(t: Tree, path: string): Result {
    match Detach(t, path, true) case None => Known(13, t) case Some(d) => Known(0, d.tree)
  }

  ghost function TreeBranch(t: Tree, patch: Json, op: Operation): Result
    requires Encodes(patch, op)
  {
    match op
    case Add(path, _) => GiveAt(t, path, Fresh(ItemNamed(patch, "value", true).value))
    case Remove(path) => RemoveFrom(t, Render(path))
    case Replace(path, _) => ReplaceAt(t, path, Fresh(ItemNamed(patch, "value", true).value))
    case Move(path, from) => MoveFrom(t, Render(from), Render(path), true)
    case Copy(path, from) => CopyFrom(t, Render(from), Render(path), true)
    case Test(path, _) => TestAt(t, patch, Render(path), true)
  }

  ghost predicate SafeBranch(t: Tree, op: Operation) {
    match op
    case Add(path, _) => path == [] || ClosedAlong(t, Render(path), true)
    case Replace(path, _) => path == [] || SafeMove(t, Render(path), Render(path), true)
    case Move(path, from) => SafeMove(t, Render(from), Render(path), true)
    case Copy(path, from) => Locate(Erase(t), Render(from), true).Some? ==> ClosedAlong(t, Render(path), true)
    case _ => true
  }

  // The branch of apply_patch() that an operation takes, and what is safe in it.
  lemma ApplyIs(t: Tree, patch: Json, op: Operation)
    requires Encodes(patch, op) && (op.Remove? || op.Move? || op.Copy? ==> op.path != [])
    ensures Apply(t, patch, true) == TreeBranch(t, patch, op)
  {
    hide Formed, Denote, AddAlong, Detach, Locate, ClosedAlong, Compare, ItemNamed, DecodeOperation, Render, Fresh, Erase, At,
      PutNode, NodeAt, TestAt, NameOf;
    EmptyPath();
    if op.path != [] {
      RenderedPath(op.path);
    }
    DecodesAs(patch, op, true);
    var code := DecodeOperation(patch, true);
    match op {
      case Add(_, _) => assert code == AddOp;
      case Remove(_) => assert code == RemoveOp;
      case Replace(_, _) => assert code == ReplaceOp;
      case Move(_, _) => assert code == MoveOp;
      case Copy(_, _) => assert code == CopyOp;
      case Test(_, _) => assert code == TestOp;
    }
  }

  lemma SafeIs(t: Tree, patch: Json, op: Operation)
    requires Encodes(patch, op) && (op.Remove? || op.Move? || op.Copy? ==> op.path != [])
    ensures Safe(t, patch, true) <==> SafeBranch(t, op)
  {
    hide Formed, Denote, Detach, Locate, ClosedAlong, ItemNamed, DecodeOperation, Render, Erase, NameOf;
    EmptyPath();
    if op.path != [] {
      RenderedPath(op.path);
    }
    DecodesAs(patch, op, true);
    var code := DecodeOperation(patch, true);
    match op {
      case Add(_, _) => assert code == AddOp;
      case Remove(_) => assert code == RemoveOp;
      case Replace(_, _) => assert code == ReplaceOp;
      case Move(_, _) => assert code == MoveOp;
      case Copy(_, _) => assert code == CopyOp;
      case Test(_, _) => assert code == TestOp;
    }
  }

  lemma RemoveFollows(t: Tree, path: seq<string>)
    requires Formed(Erase(t), true) && path != [] && PlainPath(Denote(Erase(t)), path) && GoodEnd(path)
    ensures var r, q := RemoveFrom(t, Render(path)), RfcRemove(Denote(Erase(t)), path);
      && (Follows(r, q) <==> RightEnd(Erase(t), path))
      && (Follows(r, q) && q.Some? ==> Formed(Erase(r.tree), true))
  {
    hide PlainPath, Formed, Denote, RfcRemove, Erase, RightKey;
    RenderedPath(path);
    RemoveAgreesExactly(Erase(t), path[..|path| - 1], path[|path| - 1]);
    if RightEnd(Erase(t), path) {
      RemoveMeans(Erase(t), path);
    }
  }

  // An object that lacks a key and gets another lacks it still, however its ring is.
  lemma AddKeepsOut(t: Tree, up: seq<string>, tk: string, value: Tree, m: map<string, Value>, k: string)
    requires Formed(Erase(t), true) && PlainPath(Denote(Erase(t)), up + [tk]) && GoodLast(tk)
    requires Get(Denote(Erase(t)), up) == Some(VObject(m)) && k !in m && k != tk
    ensures var r := AddAlong(t, Render(up + [tk]), value, true);
      r.Known? ==>
        && r.status == 0
        && var p := Get(Denote(Erase(r.tree)), up); p.Some? && p.value.VObject? && k !in p.value.members
  {
    AlongUnfolds(t, up, tk, value);
    hide AddTo, Locate, Render, PlainPath, Formed, Denote, Erase, Put, At, ValidLocation, AddAlong, Get, Set;
    ParentOf(Erase(t), up, tk, Erase(t), true);
    var loc := Locate(Erase(t), Render(up), true).value;
    AddToKeepsOut(NodeAt(t, loc), tk, value, m, k);
    var r := AddTo(NodeAt(t, loc), tk, value, true);
    if r.Known? {
      ParentOf(Erase(t), up, tk, Erase(r.tree), true);
      SetTwice(Denote(Erase(t)), up, Denote(Erase(r.tree)), VNull);
    }
  }

  lemma AddToKeepsOut(parent: Tree, tk: string, value: Tree, m: map<string, Value>, k: string)
    requires Denote(Erase(parent)) == VObject(m) && k !in m && k != tk
    ensures var r := AddTo(parent, tk, value, true);
      r.Known? ==> r.status == 0 && Denote(Erase(r.tree)).VObject? && k !in Denote(Erase(r.tree)).members
  {
    var c := Cleared(parent, tk, true);
    MembersErased(parent);
    ClearedKeysOut(parent, tk, k);
    hide Cleared, Denote, Erase;
    var r := AddTo(parent, tk, value, true);
    if r.Known? {
      KeyNotIn(r.tree, k);
    }
  }

  lemma ClearedKeysOut(parent: Tree, tk: string, k: string)
    requires parent.Dict? && k !in DenoteMembers(EraseMembers(parent.members))
    ensures forall m <- Cleared(parent, tk, true).members :: m.key != k
  {
    var es := EraseMembers(parent.members);
    MembersMap(es);
    forall m | m in Cleared(parent, tk, true).members ensures m.key != k {
      assert m in parent.members;
      var i :| 0 <= i < |parent.members| && parent.members[i] == m;
      assert es[i].key == m.key;
    }
  }

  lemma KeyNotIn(t: Tree, k: string)
    requires t.Dict? && forall i :: 0 <= i < |t.members| ==> t.members[i].key != k
    ensures Denote(Erase(t)).VObject? && k !in Denote(Erase(t)).members
  {
    MembersErased(t);
    NoKeyIn(EraseMembers(t.members), k);
  }

  // Where the wrong member is taken out, the value goes to the right key and the other one is gone.
  lemma ReplaceWrong(t: Tree, up: seq<string>, tk: string, value: Tree)
    requires Formed(Erase(t), true) && PlainPath(Denote(Erase(t)), up + [tk]) && GoodLast(tk)
    requires !RightKey(Erase(t), up, tk)
    ensures !Follows(ReplaceAt(t, up + [tk], value), Rfc6902(Denote(Erase(t)), Replace(up + [tk], Denote(Erase(value)))))
  {
    hide PlainPath, Formed, Denote, Get, Set, RightKey, AddAlong, Render, Erase;
    var x, y := Denote(Erase(t)), Denote(Erase(value));
    var m, k := TakesAnother(Erase(t), up, tk);
    var d := Detach(t, Render(up + [tk]), true).value.tree;
    SetTwice(x, up, VObject(m - {k}), VNull);
    PlainAppend(x, up, tk);
    PlainObject(m - {k}, tk);
    PlainAfterSet(x, up, tk, VObject(m - {k}));
    AddKeepsOut(d, up, tk, value, m - {k}, k);
    if Get(x, up + [tk]).Some? {
      SetInObject(x, up, tk, y, m);
      SetTwice(x, up, VObject(m[tk := y]), VNull);
    }
  }

  lemma PlainObject(m: map<string, Value>, t: string)
    ensures PlainPath(VObject(m), [t])
  {
  }

  lemma SetInObject(x: Value, up: seq<string>, t: string, y: Value, m: map<string, Value>)
    requires Get(x, up + [t]).Some? && Get(x, up) == Some(VObject(m))
    ensures Set(x, up + [t], y) == Set(x, up, VObject(m[t := y]))
  {
    SetAppend(x, up, t, y);
  }

  lemma ReplaceFollows(t: Tree, path: seq<string>, value: Tree)
    requires Formed(Erase(t), true) && Formed(Erase(value), true) && PlainPath(Denote(Erase(t)), path) && GoodEnd(path)
    ensures var r, q := ReplaceAt(t, path, value), Rfc6902(Denote(Erase(t)), Replace(path, Denote(Erase(value))));
      && (Follows(r, q) <==> (path == [] || SafeMove(t, Render(path), Render(path), true)) && RightEnd(Erase(t), path))
      && (Follows(r, q) && q.Some? ==> Formed(Erase(r.tree), true))
  {
    hide PlainPath, Formed, Denote, Get, Set, RightKey, AddAlong, ClosedAlong, Render, Erase, RfcRemove, RfcAdd, HasRoom;
    if path != [] {
      RenderedPath(path);
      var up, tk := path[..|path| - 1], path[|path| - 1];
      if RightEnd(Erase(t), path) {
        DetachMeans(Erase(t), path);
        var d := Detach(t, Render(path), true);
        if d.Some? {
          RemoveThenAdd(Denote(Erase(t)), up, tk, Denote(Erase(value)));
          SmallParent(Erase(t), up, tk);
          AfterRemove(Denote(Erase(t)), up, tk);
          AddFollows(d.value.tree, path, value);
        }
      } else {
        ReplaceWrong(t, up, tk, value);
      }
    } else {
      WholeIs(Denote(Erase(t)), Denote(Erase(value)));
    }
  }

  lemma WholeIs(x: Value, y: Value)
    ensures Get(x, []) == Some(x) && Set(x, [], y) == y
  {
  }

  lemma MoveFollows(t: Tree, path: seq<string>, from: seq<string>)
    requires Formed(Erase(t), true) && Clear(Denote(Erase(t)), Move(path, from)) && RightEnd(Erase(t), from)
    ensures var r, q := MoveFrom(t, Render(from), Render(path), true), Rfc6902(Denote(Erase(t)), Move(path, from));
      && (Follows(r, q) <==> SafeMove(t, Render(from), Render(path), true))
      && (Follows(r, q) && q.Some? && Room(Denote(Erase(t)), Move(path, from)) ==> Formed(Erase(r.tree), true))
  {
    hide PlainPath, Formed, Denote, Get, RightEnd, AddAlong, ClosedAlong, Render, Erase, RfcRemove, RfcAdd, RoomAt, GoodEnd;
    DetachMeans(Erase(t), from);
    var d := Detach(t, Render(from), true);
    if d.Some? {
      AddFollows(d.value.tree, path, d.value.item);
    }
  }

  lemma CopyFollows(t: Tree, path: seq<string>, from: seq<string>)
    requires Formed(Erase(t), true) && Clear(Denote(Erase(t)), Copy(path, from))
    ensures var r, q := CopyFrom(t, Render(from), Render(path), true), Rfc6902(Denote(Erase(t)), Copy(path, from));
      && (Follows(r, q) <==> (Locate(Erase(t), Render(from), true).Some? ==> ClosedAlong(t, Render(path), true)))
      && (Follows(r, q) && q.Some? && Room(Denote(Erase(t)), Copy(path, from)) ==> Formed(Erase(r.tree), true))
  {
    hide PlainPath, Formed, Denote, Get, AddAlong, ClosedAlong, Render, Erase, RfcAdd, RoomAt, GoodEnd, Locate, At, Fresh;
    LocateAgrees(Erase(t), from, Erase(t), true);
    var loc := Locate(Erase(t), Render(from), true);
    if loc.Some? {
      FreshIs(At(Erase(t), loc.value));
      AddFollows(t, path, Fresh(At(Erase(t), loc.value)));
    }
  }

  // The order of members and the rings may change, but the document means the same.
  lemma TestFollows(t: Tree, patch: Json, path: seq<string>)
    requires Formed(Erase(t), true) && PlainPath(Denote(Erase(t)), path) && ItemNamed(patch, "value", true).Some?
    requires Formed(ItemNamed(patch, "value", true).value, true)
    ensures var r, y := TestAt(t, patch, Render(path), true), Denote(ItemNamed(patch, "value", true).value);
      && Follows(r, Rfc6902(Denote(Erase(t)), Test(path, y)))
      && r.Known? && Formed(Erase(r.tree), true) && Denote(Erase(r.tree)) == Denote(Erase(t))
  {
    hide PlainPath, Formed, Denote, Get, Set, Render, Erase, Locate, At, Put, CompareJson, Compare, ItemNamed;
    var value := ItemNamed(patch, "value", true).value;
    TestMeans(Erase(t), path, value);
    LocateAgrees(Erase(t), path, Erase(t), true);
    var loc := Locate(Erase(t), Render(path), true);
    if loc.Some? {
      var node := NodeAt(t, loc.value);
      CompareErases(node, value, true);
      CompareKeeps(node, value, true);
      LocateAgrees(Erase(t), path, Erase(Compare(node, value, true).tree), true);
      SetSame(Denote(Erase(t)), path);
    }
  }

  // One patch on a tree with any rings: it does what RFC 6902 says exactly when every object that it
  // gives a member to has a closed ring by then, and what it takes out is what the path names.
  lemma ApplyFollowsExactly(t: Tree, patch: Json, op: Operation)
    requires Formed(Erase(t), true) && Encodes(patch, op) && Clear(Denote(Erase(t)), op)
    requires op.Move? ==> RightEnd(Erase(t), op.from)
    ensures var r, q := Apply(t, patch, true), Rfc6902(Denote(Erase(t)), op);
      && (Follows(r, q) <==> Safe(t, patch, true) && TakesRight(Erase(t), op))
      && (Follows(r, q) && q.Some? && Room(Denote(Erase(t)), op) ==> Formed(Erase(r.tree), true))
  {
    hide Apply, Safe, PlainPath, Formed, Denote, Erase, RightEnd, AddAlong, Detach, Locate, ClosedAlong, Compare, ItemNamed,
      DecodeOperation, Render, Fresh, RfcAdd, RfcRemove, Get, Set, GoodEnd, RoomAt, NameOf;
    ApplyIs(t, patch, op);
    SafeIs(t, patch, op);
    ValueIs(patch, op);
    match op {
      case Add(path, _) => GiveFollows(t, path, Given(patch));
      case Remove(path) => RemoveFollows(t, path);
      case Replace(path, _) => ReplaceFollows(t, path, Given(patch));
      case Move(path, from) => MoveFollows(t, path, from);
      case Copy(path, from) => CopyFollows(t, path, from);
      case Test(path, _) => TestFollows(t, patch, path);
    }
  }

  // A duplicate of the value that the patch gives.
  function Given(patch: Json): (t: Tree)
    requires ItemNamed(patch, "value", true).Some?
    ensures t == Fresh(ItemNamed(patch, "value", true).value) && Erase(t) == ItemNamed(patch, "value", true).value
  {
    FreshIs(ItemNamed(patch, "value", true).value);
    Fresh(ItemNamed(patch, "value", true).value)
  }

  lemma GiveFollows(t: Tree, path: seq<string>, value: Tree)
    requires Formed(Erase(t), true) && Formed(Erase(value), true) && PlainPath(Denote(Erase(t)), path) && GoodEnd(path)
    ensures var r, q := GiveAt(t, path, value), RfcAdd(Denote(Erase(t)), path, Denote(Erase(value)));
      && (Follows(r, q) <==> path == [] || ClosedAlong(t, Render(path), true))
      && (Follows(r, q) && q.Some? && RoomAt(Denote(Erase(t)), path) ==> Formed(Erase(r.tree), true))
  {
    if path != [] {
      AddFollows(t, path, value);
    }
  }
}
