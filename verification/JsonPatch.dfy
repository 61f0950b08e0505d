// JSON Patch: applying one patch, against the operations of RFC 6902 on values. Trees have no rings here:
// adding a member appends it, as it does while the ring of the object is closed.
module JsonPatch {
  import opened CStrings
  import opened Json
  import opened JsonCompare
  import opened Pointer
  import opened PointerText
  import opened Seqs

  datatype Outcome = Outcome(status: nat, doc: Json)

  datatype PatchOperation = InvalidOp | AddOp | RemoveOp | ReplaceOp | MoveOp | CopyOp | TestOp

  // strrchr(path, '/')
  function LastSlash(path: string): (k: Option<nat>)
    ensures k.Some? ==> k.value < |path|
  {
    if path == "" then None
    else match LastSlash(path[1..])
      case Some(k) => Some(k + 1)
      case None => if path[0] == '/' then Some(0) else None
  }

  // get_object_item()
  function ItemNamed(v: Json, name: string, caseSensitive: bool): Option<Json> {
    if v.Object? && FindName(v.members, name, caseSensitive) < |v.members|
    then Some(v.members[FindName(v.members, name, caseSensitive)].value) else None
  }

  function DecodeOperation(patch: Json, caseSensitive: bool): PatchOperation {
    match ItemNamed(patch, "op", caseSensitive)
    case Some(String(op)) =>
      if op == "add" then AddOp
      else if op == "remove" then RemoveOp
      else if op == "replace" then ReplaceOp
      else if op == "move" then MoveOp
      else if op == "copy" then CopyOp
      else if op == "test" then TestOp
      else InvalidOp
    case _ => InvalidOp
  }

  function WithoutChild(v: Json, i: nat): Json
    requires i < ChildCount(v)
  {
    if v.Array? then Array(v.elems[..i] + v.elems[i + 1..]) else Object(DropMember(v.members, i))
  }

  function DropMember(ms: seq<Member>, i: nat): seq<Member>
    requires i < |ms|
  {
    ms[..i] + ms[i + 1..]
  }

  // Without the first member of that name, if there is one.
  function DropName(ms: seq<Member>, name: string, caseSensitive: bool): seq<Member> {
    var i := FindName(ms, name, caseSensitive);
    if i < |ms| then DropMember(ms, i) else ms
  }

  // The position that detach_path() removes. A member is looked up without regard to case.
  function DetachPosition(parent: Json, child: string): nat {
    match parent
    case Array(es) => (match DecodeIndex(child) case Some(n) => n case None => |es|)
    case Object(ms) => FindName(ms, child, false)
    case _ => 0
  }

  datatype Detached = Detached(item: Json, doc: Json)

  // detach_path()
  function DetachPath(doc: Json, path: string, caseSensitive: bool): Option<Detached> {
    match LastSlash(path)
    case None => None
    case Some(k) =>
      match Locate(doc, path[..k], caseSensitive)
      case None => None
      case Some(loc) => DetachAt(doc, loc, Decoded(path[k + 1..]))
  }

  function DetachAt(doc: Json, loc: seq<nat>, child: string): Option<Detached>
    requires ValidLocation(doc, loc)
  {
    var parent := At(doc, loc);
    var i := DetachPosition(parent, child);
    if i < ChildCount(parent)
    then Some(Detached(ChildAt(parent, i), Put(doc, loc, WithoutChild(parent, i)))) else None
  }

  // The last part of apply_patch(), on the node that the parent pointer names.
  function AddChildTo(parent: Json, child: string, value: Json, caseSensitive: bool): Outcome {
    match parent
    case Array(es) =>
      if child == "-" then Outcome(0, Array(es + [value]))
      else (match DecodeIndex(child)
        case None => Outcome(11, parent)
        case Some(n) => if n <= |es| then Outcome(0, Array(es[..n] + [value] + es[n..])) else Outcome(10, parent))
    case Object(ms) =>
      Outcome(0, Object(DropName(ms, child, caseSensitive) + [Member(child, value)]))
    case _ => Outcome(9, parent)
  }

  function AddAtPath(doc: Json, path: string, value: Json, caseSensitive: bool): Outcome {
    match LastSlash(path)
    case None => Outcome(9, doc)
    case Some(k) =>
      match Locate(doc, path[..k], caseSensitive)
      case None => Outcome(9, doc)
      case Some(loc) => AddAt(doc, loc, Decoded(path[k + 1..]), value, caseSensitive)
  }

  function AddAt(doc: Json, loc: seq<nat>, child: string, value: Json, caseSensitive: bool): Outcome
    requires ValidLocation(doc, loc)
  {
    var r := AddChildTo(At(doc, loc), child, value, caseSensitive);
    if r.status == 0 then Outcome(0, Put(doc, loc, r.doc)) else Outcome(r.status, doc)
  }

  // The "value" part of an add or replace, once the old value is gone.
  function AddValue(doc: Json, patch: Json, path: string, caseSensitive: bool): Outcome {
    match ItemNamed(patch, "value", caseSensitive)
    case None => Outcome(7, doc)
    case Some(value) => AddAtPath(doc, path, value, caseSensitive)
  }

  // apply_patch(): the status and the document it leaves.
  function ApplyPatch(doc: Json, patch: Json, caseSensitive: bool): Outcome {
    match ItemNamed(patch, "path", caseSensitive)
    case Some(String(path)) =>
      var opcode := DecodeOperation(patch, caseSensitive);
      var value, from := ItemNamed(patch, "value", caseSensitive), ItemNamed(patch, "from", caseSensitive);
      (match opcode
       case InvalidOp => Outcome(3, doc)
       case TestOp =>
         var target := Locate(doc, path, caseSensitive);
         if target.Some? && value.Some? && CompareJson(At(doc, target.value), value.value, caseSensitive)
         then Outcome(0, doc) else Outcome(1, doc)
       case RemoveOp =>
         if path == "" then Outcome(0, Invalid)
         else (match DetachPath(doc, path, caseSensitive)
           case None => Outcome(13, doc)
           case Some(d) => Outcome(0, d.doc))
       case ReplaceOp =>
         if path == "" then (if value.Some? then Outcome(0, value.value) else Outcome(7, doc))
         else (match DetachPath(doc, path, caseSensitive)
           case None => Outcome(13, doc)
           case Some(d) => AddValue(d.doc, patch, path, caseSensitive))
       case AddOp =>
         if path == "" then (if value.Some? then Outcome(0, value.value) else Outcome(7, doc))
         else AddValue(doc, patch, path, caseSensitive)
       case MoveOp =>
         (match from
          case None => Outcome(4, doc)
          case Some(String(source)) =>
            (match DetachPath(doc, source, caseSensitive)
             case None => Outcome(5, doc)
             case Some(d) => AddAtPath(d.doc, path, d.item, caseSensitive))
          case _ => Outcome(5, doc))
       case CopyOp =>
         (match from
          case None => Outcome(4, doc)
          case Some(String(source)) =>
            (match Locate(doc, source, caseSensitive)
             case None => Outcome(5, doc)
             case Some(loc) => AddAtPath(doc, path, At(doc, loc), caseSensitive))
          case _ => Outcome(5, doc)))
    case _ => Outcome(2, doc)
  }

  // The loop of cJSONUtils_ApplyPatches: stops at the first patch that fails.
  function ApplyAll(doc: Json, patches: seq<Json>, caseSensitive: bool): Outcome
    decreases |patches|
  {
    if patches == [] then Outcome(0, doc)
    else
      var r := ApplyPatch(doc, patches[0], caseSensitive);
      if r.status != 0 then r else ApplyAll(r.doc, patches[1..], caseSensitive)
  }

  // ---------- Reference: the operations of section 4 of RFC 6902, on values ----------

  datatype Operation =
    | Add(path: seq<string>, value: Value)
    | Remove(path: seq<string>)
    | Replace(path: seq<string>, value: Value)
    | Move(path: seq<string>, from: seq<string>)
    | Copy(path: seq<string>, from: seq<string>)
    | Test(path: seq<string>, value: Value)

  ghost function RemoveChild(p: Value, t: string): Value
    requires Step(p, t).Some?
  {
    match p
    case VObject(m) => VObject(m - {t})
    case VArray(s) => var i := ArrayIndex(t).value; VArray(s[..i] + s[i + 1..])
    case _ => p
  }

  ghost function AddChild(p: Value, t: string, y: Value): Option<Value> {
    match p
    case VObject(m) => Some(VObject(m[t := y]))
    case VArray(s) =>
      if t == "-" then Some(VArray(s + [y]))
      else (match ArrayIndex(t)
        case Some(i) => if i <= |s| then Some(VArray(s[..i] + [y] + s[i..])) else None
        case None => None)
    case _ => None
  }

  ghost function RfcAdd(x: Value, path: seq<string>, y: Value): Option<Value> {
    if path == [] then Some(y)
    else
      var up := path[..|path| - 1];
      match Get(x, up)
      case None => None
      case Some(p) =>
        match AddChild(p, path[|path| - 1], y)
        case None => None
        case Some(q) => Some(Set(x, up, q))
  }

  // The whole document is not removed from anything.
  ghost function RfcRemove(x: Value, path: seq<string>): Option<Value> {
    if path == [] then None
    else
      var up, t := path[..|path| - 1], path[|path| - 1];
      match Get(x, up)
      case None => None
      case Some(p) => if Step(p, t).Some? then Some(Set(x, up, RemoveChild(p, t))) else None
  }

  ghost function Rfc6902(x: Value, op: Operation): Option<Value> {
    match op
    case Add(path, y) => RfcAdd(x, path, y)
    case Remove(path) => RfcRemove(x, path)
    case Replace(path, y) => if Get(x, path).Some? then Some(Set(x, path, y)) else None
    case Move(path, from) =>
      (match (Get(x, from), RfcRemove(x, from))
       case (Some(y), Some(z)) => RfcAdd(z, path, y)
       case _ => None)
    case Copy(path, from) =>
      (match Get(x, from) case Some(y) => RfcAdd(x, path, y) case None => None)
    case Test(path, y) => if Get(x, path) == Some(y) then Some(x) else None
  }

  // ---------- Values and paths ----------

  lemma {:induction false} GetAppend(x: Value, a: seq<string>, t: string)
    ensures Get(x, a + [t]) == match Get(x, a) case Some(p) => Step(p, t) case None => None
  {
    var path := a + [t];
    if a == [] {
      assert path[1..] == [];
      assert Step(x, t).Some? ==> Get(Step(x, t).value, path[1..]) == Step(x, t);
    } else {
      assert path[1..] == a[1..] + [t];
      if Step(x, a[0]).Some? {
        GetAppend(Step(x, a[0]).value, a[1..], t);
      }
    }
  }

  lemma {:induction false} SetAppend(x: Value, a: seq<string>, t: string, y: Value)
    requires Get(x, a + [t]).Some?
    ensures Get(x, a).Some? && Step(Get(x, a).value, t).Some?
    ensures Set(x, a + [t], y) == Set(x, a, SetChild(Get(x, a).value, t, y))
  {
    GetAppend(x, a, t);
    var path := a + [t];
    if a == [] {
      assert path[1..] == [];
    } else {
      assert path[1..] == a[1..] + [t];
      SetAppend(Step(x, a[0]).value, a[1..], t, y);
    }
  }

  lemma StepSetChild(x: Value, t: string, y: Value, z: Value)
    requires Step(x, t).Some?
    ensures Step(SetChild(x, t, y), t) == Some(y)
    ensures SetChild(SetChild(x, t, y), t, z) == SetChild(x, t, z)
  {
    if x.VObject? {
      assert x.members[t := y][t := z] == x.members[t := z];
    }
  }

  lemma {:induction false} SetTwice(x: Value, a: seq<string>, y: Value, z: Value)
    requires Get(x, a).Some?
    ensures Get(Set(x, a, y), a) == Some(y)
    ensures Set(Set(x, a, y), a, z) == Set(x, a, z)
  {
    if a != [] {
      var below := Step(x, a[0]).value;
      SetTwice(below, a[1..], y, z);
      StepSetChild(x, a[0], Set(below, a[1..], y), Set(below, a[1..], z));
    }
  }

  lemma {:induction false} SetSame(x: Value, up: seq<string>)
    requires Get(x, up).Some?
    ensures Set(x, up, Get(x, up).value) == x
  {
    if up != [] {
      var below := Step(x, up[0]).value;
      SetSame(below, up[1..]);
      assert SetChild(x, up[0], below) == x;
    }
  }

  // Changing one child of the value at a path.
  // ---------- Splitting a path text at its last token ----------

  lemma {:induction false} NoSlash(s: string)
    requires forall i :: 0 <= i < |s| ==> s[i] != '/'
    ensures LastSlash(s) == None
  {
    if s != "" {
      NoSlash(s[1..]);
    }
  }

  lemma {:induction false} LastSlashIs(a: string, e: string)
    requires forall i :: 0 <= i < |e| ==> e[i] != '/'
    ensures LastSlash(a + "/" + e) == Some(|a|)
  {
    if a == "" {
      Parts("/", e);
      assert a + "/" == "/";
      NoSlash(e);
    } else {
      Next(a, 0);
      Whole(a);
      Assoc(a, "/", e);
      Assoc([a[0]], a[1..], "/" + e);
      Assoc(a[1..], "/", e);
      Parts([a[0]], a[1..] + "/" + e);
      LastSlashIs(a[1..], e);
    }
  }

  lemma SplitPath(up: seq<string>, t: string)
    ensures var p, k := Render(up + [t]), |Render(up)|;
      && p == Render(up) + "/" + Encode(t)
      && LastSlash(p) == Some(k) && p[..k] == Render(up) && p[k + 1..] == Encode(t)
  {
    var u, e := Render(up), Encode(t);
    RenderAppend(up, [t]);
    assert Render([t][1..]) == "";
    assert Render([t]) == "/" + e;
    Assoc(u, "/", e);
    Parts(u, "/" + e);
    Parts(u + "/", e);
    EncodeHasNoSlash(t);
    LastSlashIs(u, e);
  }

  // A last token that the code decodes to itself.
  ghost predicate GoodLast(t: string) {
    NulFree(t) && SurvivesPointer(t)
  }

  lemma {:induction false} PlainAppend(x: Value, a: seq<string>, t: string)
    requires PlainPath(x, a + [t])
    ensures PlainPath(x, a)
    ensures Get(x, a).Some? ==> PlainPath(Get(x, a).value, [t])
  {
    var path := a + [t];
    if a == [] {
      assert path == [t];
    } else {
      assert path[1..] == a[1..] + [t];
      if Step(x, a[0]).Some? {
        PlainAppend(Step(x, a[0]).value, a[1..], t);
      }
    }
  }

  lemma {:induction false} PlainAfterSet(x: Value, up: seq<string>, t: string, y: Value)
    requires Get(x, up).Some? && PlainPath(x, up) && PlainPath(y, [t])
    ensures PlainPath(Set(x, up, y), up + [t])
  {
    var path := up + [t];
    if up == [] {
      assert path == [t];
    } else {
      assert path[1..] == up[1..] + [t];
      var below := Step(x, up[0]).value;
      PlainAfterSet(below, up[1..], t, y);
      StepSetChild(x, up[0], Set(below, up[1..], y), y);
    }
  }

  // ---------- Removing ----------

  lemma DropMembership(ms: seq<Member>, i: nat)
    requires i < |ms|
    ensures forall m <- DropMember(ms, i) :: m in ms
  {
  }

  lemma {:induction false} RemoveMember(ms: seq<Member>, i: nat)
    requires DistinctKeys(ms) && i < |ms|
    ensures DistinctKeys(DropMember(ms, i)) && (UniqueKeys(ms) ==> UniqueKeys(DropMember(ms, i)))
    ensures DenoteMembers(DropMember(ms, i)) == DenoteMembers(ms) - {ms[i].key}
    decreases i
  {
    hide DistinctKeys, UniqueKeys, Denote, DropMember;
    var ns, t := DropMember(ms, i), ms[1..];
    DropUnique(ms, i);
    TailMap(ms);
    DropTail(ms, i);
    if i == 0 {
      assert DenoteMembers(t) == DenoteMembers(ms) - {ms[0].key};
    } else {
      RemoveMember(t, i - 1);
      FirstDiffers(ms, i);
    }
  }

  lemma FirstDiffers(ms: seq<Member>, i: nat)
    requires DistinctKeys(ms) && 0 < i < |ms|
    ensures ms[0].key != ms[i].key
  {
  }

  lemma DropTail(ms: seq<Member>, i: nat)
    requires i < |ms|
    ensures if i == 0 then DropMember(ms, i) == ms[1..]
      else DropMember(ms, i) == [ms[0]] + DropMember(ms[1..], i - 1) && DropMember(ms, i)[1..] == DropMember(ms[1..], i - 1)
  {
  }

  function Skipping(i: nat, k: nat): nat {
    if k < i then k else k + 1
  }

  lemma DropUnique(ms: seq<Member>, i: nat)
    requires DistinctKeys(ms) && i < |ms|
    ensures DistinctKeys(DropMember(ms, i)) && (UniqueKeys(ms) ==> UniqueKeys(DropMember(ms, i)))
  {
    var ns := DropMember(ms, i);
    DropIndex(ms, i);
    forall j, k | 0 <= j < k < |ns|
      ensures ns[j].key != ns[k].key && (UniqueKeys(ms) ==> !SameName(ns[j].key, ns[k].key, false))
    {
      assert ns[j] == ms[Skipping(i, j)] && ns[k] == ms[Skipping(i, k)];
    }
  }

  lemma DropIndex(ms: seq<Member>, i: nat)
    requires i < |ms|
    ensures |DropMember(ms, i)| == |ms| - 1
    ensures forall k :: 0 <= k < |ms| - 1 ==> DropMember(ms, i)[k] == ms[Skipping(i, k)]
  {
  }

  // No key of an object differs from the token in letter case only.
  ghost predicate CaseClear(p: Value, t: string) {
    p.VObject? ==> forall k <- p.members :: SameName(k, t, false) ==> k == t
  }

  // Both lookups find the same member, or none. The removal ignores case in any call.
  predicate FoundAlike(p: Json, t: string) {
    p.Object? ==> FindName(p.members, t, false) == FindName(p.members, t, true)
  }

  predicate RightKey(doc: Json, up: seq<string>, t: string) {
    var loc := Locate(doc, Render(up), true);
    loc.Some? ==> FoundAlike(At(doc, loc.value), t)
  }

  lemma ClearIsAlike(p: Json, t: string, exact: bool)
    requires Formed(p, exact) && CaseClear(Denote(p), t)
    ensures FoundAlike(p, t)
  {
    if p.Object? {
      var ms := p.members;
      MembersMap(ms);
      FindInMap(ms, t);
      FindNameFirst(ms, t, false);
      FindNameFirst(ms, t, true);
      var i, j := FindName(ms, t, false), FindName(ms, t, true);
      if j < |ms| {
        SameNameExact(ms[j].key, t);
      }
      if i < |ms| {
        assert ms[i].key in DenoteMembers(ms);
        FindUnique(ms, i, true);
      }
    }
  }

  lemma ClearIsRight(doc: Json, up: seq<string>, t: string, exact: bool)
    requires Formed(doc, exact) && PlainPath(Denote(doc), up)
    requires Get(Denote(doc), up).Some? ==> CaseClear(Get(Denote(doc), up).value, t)
    ensures RightKey(doc, up, t)
  {
    LocateAgrees(doc, up, doc, exact);
    var loc := Locate(doc, Render(up), true);
    if loc.Some? {
      ClearIsAlike(At(doc, loc.value), t, exact);
    }
  }

  lemma GoodLastIndex(t: string)
    requires GoodLast(t)
    ensures DecodeIndex(t) ==
      if t == "" then Some(0)
      else match ArrayIndex(t) case Some(n) => Some(n % SIZE_MAX1) case None => None
    ensures Decoded(Encode(t)) == t
  {
    DecodeUndoesEncode(t);
    EncodeHasNoSlash(t);
    var d := DigitPrefix(t);
    assert |d| < |t| ==> t[|d|] != '/';
    assert |t| > 1 ==> t[1] != '/';
    if |d| == |t| {
      assert d == t;
    }
  }

  lemma RemoveFromParent(p: Json, t: string, exact: bool)
    requires Formed(p, exact) && PlainPath(Denote(p), [t]) && GoodLast(t) && FoundAlike(p, t)
    ensures var i := DetachPosition(p, t);
      && (i < ChildCount(p) <==> Step(Denote(p), t).Some?)
      && (i < ChildCount(p) ==>
            && Denote(ChildAt(p, i)) == Step(Denote(p), t).value && Formed(ChildAt(p, i), exact)
            && Denote(WithoutChild(p, i)) == RemoveChild(Denote(p), t) && Formed(WithoutChild(p, i), exact))
  {
    if p.Object? {
      RemoveFromObject(p, t, exact);
    } else if p.Array? {
      RemoveFromArray(p, t, exact);
    }
  }

  lemma RemoveFromObject(p: Json, t: string, exact: bool)
    requires p.Object? && Formed(p, exact) && FoundAlike(p, t)
    ensures var i, ms := FindName(p.members, t, false), p.members;
      && (i < |ms| <==> t in DenoteMembers(ms))
      && (i < |ms| ==>
            && Denote(ms[i].value) == DenoteMembers(ms)[t] && Formed(ms[i].value, exact)
            && Denote(WithoutChild(p, i)) == VObject(DenoteMembers(ms) - {t}) && Formed(WithoutChild(p, i), exact))
  {
    var ms, i := p.members, FindName(p.members, t, false);
    FindInMap(ms, t);
    if i < |ms| {
      RemoveMember(ms, i);
      DropMembership(ms, i);
    }
  }

  lemma PlainIndex(p: Json, t: string)
    requires p.Array? && PlainPath(Denote(p), [t]) && GoodLast(t)
    ensures DecodeIndex(t) == ArrayIndex(t)
  {
    GoodLastIndex(t);
  }

  lemma WithoutElement(es: seq<Json>, i: nat, exact: bool)
    requires i < |es|
    ensures Denote(WithoutChild(Array(es), i)) == VArray(DenoteElems(es)[..i] + DenoteElems(es)[i + 1..])
    ensures Formed(Array(es), exact) ==> Formed(es[i], exact) && Formed(WithoutChild(Array(es), i), exact)
  {
    assert DenoteElems(es[..i] + es[i + 1..]) == DenoteElems(es)[..i] + DenoteElems(es)[i + 1..];
  }

  lemma RemoveFromArray(p: Json, t: string, exact: bool)
    requires p.Array? && Formed(p, exact) && PlainPath(Denote(p), [t]) && GoodLast(t)
    ensures var i := DetachPosition(p, t);
      && (i < |p.elems| <==> Step(Denote(p), t).Some?)
      && (i < |p.elems| ==>
            && ArrayIndex(t) == Some(i) && Formed(p.elems[i], exact)
            && Denote(WithoutChild(p, i)) == RemoveChild(Denote(p), t) && Formed(WithoutChild(p, i), exact))
  {
    PlainIndex(p, t);
    hide DecodeIndex, ArrayIndex, Formed, GoodLast;
    var i := DetachPosition(p, t);
    if i < |p.elems| {
      WithoutElement(p.elems, i, exact);
    }
  }

  // The document in terms of the node above the last token.
  lemma ParentOf(doc: Json, up: seq<string>, t: string, w: Json, exact: bool)
    requires Formed(doc, exact) && PlainPath(Denote(doc), up + [t])
    ensures Locate(doc, Render(up), true).Some? <==> Get(Denote(doc), up).Some?
    ensures Locate(doc, Render(up), true).Some? ==>
      var loc := Locate(doc, Render(up), true).value;
      var parent := At(doc, loc);
      && Formed(parent, exact) && PlainPath(Denote(parent), [t]) && Get(Denote(doc), up) == Some(Denote(parent))
      && Get(Denote(doc), up + [t]) == Step(Denote(parent), t)
      && Denote(Put(doc, loc, w)) == Set(Denote(doc), up, Denote(w))
      && (Formed(w, exact) ==> Formed(Put(doc, loc, w), exact))
  {
    PlainAppend(Denote(doc), up, t);
    GetAppend(Denote(doc), up, t);
    LocateAgrees(doc, up, w, exact);
  }

  lemma DetachUnfolds(doc: Json, up: seq<string>, t: string)
    requires GoodLast(t)
    ensures DetachPath(doc, Render(up + [t]), true) ==
      match Locate(doc, Render(up), true) case None => None case Some(loc) => DetachAt(doc, loc, t)
  {
    SplitPath(up, t);
    GoodLastIndex(t);
  }

  // detach_path() removes what RFC 6902 removes, and finds nothing when there is nothing.
  lemma DetachIsRemove(doc: Json, up: seq<string>, t: string, exact: bool)
    requires Formed(doc, exact) && PlainPath(Denote(doc), up + [t]) && GoodLast(t)
    requires RightKey(doc, up, t)
    ensures var d, r := DetachPath(doc, Render(up + [t]), true), RfcRemove(Denote(doc), up + [t]);
      && (d.Some? <==> r.Some?)
      && (d.Some? ==>
            && Denote(d.value.doc) == r.value && Formed(d.value.doc, exact)
            && Get(Denote(doc), up + [t]) == Some(Denote(d.value.item)) && Formed(d.value.item, exact))
  {
    DetachUnfolds(doc, up, t);
    assert (up + [t])[..|up + [t]| - 1] == up;
    ParentOf(doc, up, t, doc, exact);
    var loc := Locate(doc, Render(up), true);
    if loc.Some? {
      var parent := At(doc, loc.value);
      RemoveFromParent(parent, t, exact);
      var i := DetachPosition(parent, t);
      if i < ChildCount(parent) {
        ParentOf(doc, up, t, WithoutChild(parent, i), exact);
      }
    }
  }

  // ---------- Adding ----------

  // No member has this key, or any that is taken for it.
  ghost predicate IsNew(ms: seq<Member>, t: string, exact: bool) {
    forall m <- ms :: m.key != t && (!exact ==> !SameName(m.key, t, false))
  }

  lemma AppendMember(ms: seq<Member>, t: string, y: Json, exact: bool)
    requires KeysTold(ms, exact) && IsNew(ms, t, exact)
    ensures var ns := ms + [Member(t, y)];
      KeysTold(ns, exact) && DenoteMembers(ns) == DenoteMembers(ms)[t := Denote(y)]
  {
    var ns, m := ms + [Member(t, y)], DenoteMembers(ms)[t := Denote(y)];
    MembersMap(ms);
    forall i, j | 0 <= i < j < |ns|
      ensures ns[i].key != ns[j].key && (!exact ==> !SameName(ns[i].key, ns[j].key, false))
    {
      assert ms[i] in ms;
    }
    forall i | 0 <= i < |ns| ensures ns[i].key in m && m[ns[i].key] == Denote(ns[i].value) {
      if i < |ms| {
        assert ms[i] in ms;
      }
    }
    forall k | k in m ensures exists i :: 0 <= i < |ns| && ns[i].key == k {
      if k == t {
        assert ns[|ms|].key == t;
      } else {
        var j :| 0 <= j < |ms| && ms[j].key == k;
        assert ns[j].key == k;
      }
    }
    MapIs(ns, m);
  }

  // Deleting the member of that name, if there is one, clears the way for the new member.
  lemma WithoutName(ms: seq<Member>, t: string, exact: bool)
    requires KeysTold(ms, exact) && (exact || CaseClear(VObject(DenoteMembers(ms)), t))
    ensures var rest := DropName(ms, t, true);
      && KeysTold(rest, exact) && DenoteMembers(rest) == DenoteMembers(ms) - {t}
      && (forall m <- rest :: m in ms) && IsNew(rest, t, exact)
  {
    var i, rest := FindName(ms, t, true), DropName(ms, t, true);
    FindInMap(ms, t);
    if i < |ms| {
      FindNameFirst(ms, t, true);
      SameNameExact(ms[i].key, t);
      RemoveMember(ms, i);
      DropMembership(ms, i);
    } else {
      assert DenoteMembers(ms) - {t} == DenoteMembers(ms);
    }
    NotNamed(ms, rest, t, exact);
  }

  lemma NotNamed(ms: seq<Member>, rest: seq<Member>, t: string, exact: bool)
    requires exact || CaseClear(VObject(DenoteMembers(ms)), t)
    requires DenoteMembers(rest) == DenoteMembers(ms) - {t}
    ensures IsNew(rest, t, exact)
  {
    MembersMap(rest);
    forall m <- rest ensures m.key != t && (!exact ==> !SameName(m.key, t, false)) {
      var j :| 0 <= j < |rest| && rest[j] == m;
      assert m.key in DenoteMembers(rest);
    }
  }

  lemma FormedMembers(ms: seq<Member>, ns: seq<Member>, extra: Member, exact: bool)
    requires Formed(Object(ms), exact) && KeysTold(ns, exact) && NulFree(extra.key) && Formed(extra.value, exact)
    requires forall i :: 0 <= i < |ns| ==> ns[i] in ms || ns[i] == extra
    ensures Formed(Object(ns), exact)
  {
    forall i | 0 <= i < |ns| ensures NulFree(ns[i].key) && Formed(ns[i].value, exact) {
      if ns[i] in ms {
        var j :| 0 <= j < |ms| && ms[j] == ns[i];
      }
    }
  }

  lemma AddToObject(p: Json, t: string, y: Json, exact: bool)
    requires p.Object? && Formed(p, exact) && Formed(y, exact) && GoodLast(t) && (exact || CaseClear(Denote(p), t))
    ensures var r := AddChildTo(p, t, y, true);
      && r.status == 0 && Formed(r.doc, exact)
      && Denote(r.doc) == VObject(DenoteMembers(p.members)[t := Denote(y)])
  {
    var ms, rest := p.members, DropName(p.members, t, true);
    WithoutName(ms, t, exact);
    AppendMember(rest, t, y, exact);
    assert (DenoteMembers(ms) - {t})[t := Denote(y)] == DenoteMembers(ms)[t := Denote(y)];
    var ns := rest + [Member(t, y)];
    forall i | 0 <= i < |ns| ensures ns[i] in ms || ns[i] == Member(t, y) {
      assert i < |rest| ==> rest[i] in rest;
    }
    FormedMembers(ms, ns, Member(t, y), exact);
  }

  lemma InsertElement(es: seq<Json>, n: nat, y: Json, exact: bool)
    requires n <= |es|
    ensures Denote(Array(es[..n] + [y] + es[n..])) ==
      VArray(Denote(Array(es)).elems[..n] + [Denote(y)] + Denote(Array(es)).elems[n..])
    ensures Formed(Array(es), exact) && Formed(y, exact) && |es| <= ULONG_MAX ==>
      Formed(Array(es[..n] + [y] + es[n..]), exact)
  {
    var ns := es[..n] + [y] + es[n..];
    assert Denote(Array(ns)).elems == Denote(Array(es)).elems[..n] + [Denote(y)] + Denote(Array(es)).elems[n..];
  }

  lemma AddToArray(p: Json, t: string, y: Json, exact: bool)
    requires p.Array? && Formed(p, exact) && Formed(y, exact) && GoodLast(t) && PlainPath(Denote(p), [t])
    ensures var r, q := AddChildTo(p, t, y, true), AddChild(Denote(p), t, Denote(y));
      && (r.status == 0 <==> q.Some?)
      && (q.Some? ==> Denote(r.doc) == q.value && (|p.elems| <= ULONG_MAX ==> Formed(r.doc, exact)))
  {
    if t == "-" {
      AppendElement(p.elems, y, exact);
      assert AddChildTo(p, t, y, true) == Outcome(0, Array(p.elems + [y]));
    } else {
      AddIndexed(p, t, y, exact);
    }
  }

  lemma AddIndexed(p: Json, t: string, y: Json, exact: bool)
    requires p.Array? && Formed(p, exact) && Formed(y, exact) && GoodLast(t) && PlainPath(Denote(p), [t]) && t != "-"
    ensures match ArrayIndex(t)
      case None => AddChildTo(p, t, y, true).status != 0 && AddChild(Denote(p), t, Denote(y)) == None
      case Some(n) =>
        if n > |p.elems| then AddChildTo(p, t, y, true).status != 0 && AddChild(Denote(p), t, Denote(y)) == None
        else
          var es := p.elems[..n] + [y] + p.elems[n..];
          && AddChildTo(p, t, y, true) == Outcome(0, Array(es))
          && AddChild(Denote(p), t, Denote(y)) == Some(Denote(Array(es)))
          && (|p.elems| <= ULONG_MAX ==> Formed(Array(es), exact))
  {
    PlainIndex(p, t);
    if ArrayIndex(t).Some? && ArrayIndex(t).value <= |p.elems| {
      InsertElement(p.elems, ArrayIndex(t).value, y, exact);
    }
  }

  lemma AppendElement(es: seq<Json>, y: Json, exact: bool)
    ensures Denote(Array(es + [y])) == VArray(Denote(Array(es)).elems + [Denote(y)])
    ensures Formed(Array(es), exact) && Formed(y, exact) && |es| <= ULONG_MAX ==> Formed(Array(es + [y]), exact)
  {
    var ns := es + [y];
    assert Denote(Array(ns)).elems == Denote(Array(es)).elems + [Denote(y)];
  }

  // An array at the end of the path has room for one more element.
  ghost predicate HasRoom(x: Value, up: seq<string>) {
    Get(x, up).Some? && Get(x, up).value.VArray? ==> |Get(x, up).value.elems| <= ULONG_MAX
  }

  lemma AddUnfolds(doc: Json, up: seq<string>, t: string, y: Json)
    requires GoodLast(t)
    ensures AddAtPath(doc, Render(up + [t]), y, true) ==
      match Locate(doc, Render(up), true) case None => Outcome(9, doc) case Some(loc) => AddAt(doc, loc, t, y, true)
  {
    SplitPath(up, t);
    GoodLastIndex(t);
  }

  lemma AddToParent(p: Json, t: string, y: Json, exact: bool)
    requires Formed(p, exact) && Formed(y, exact) && GoodLast(t) && PlainPath(Denote(p), [t])
    requires exact || CaseClear(Denote(p), t)
    ensures var r, q := AddChildTo(p, t, y, true), AddChild(Denote(p), t, Denote(y));
      && (r.status == 0 <==> q.Some?)
      && (q.Some? ==>
            && Denote(r.doc) == q.value
            && ((p.Array? ==> |p.elems| <= ULONG_MAX) ==> Formed(r.doc, exact)))
  {
    if p.Object? {
      AddToObject(p, t, y, exact);
    } else if p.Array? {
      AddToArray(p, t, y, exact);
    }
  }

  // The add of apply_patch() is the add of RFC 6902, for a path with at least one token. Where keys
  // may differ in letter case only, the new key may as well.
  lemma AddIsAdd(doc: Json, up: seq<string>, t: string, y: Json, exact: bool)
    requires Formed(doc, exact) && Formed(y, exact) && PlainPath(Denote(doc), up + [t]) && GoodLast(t)
    requires exact || (Get(Denote(doc), up).Some? ==> CaseClear(Get(Denote(doc), up).value, t))
    ensures var r, q := AddAtPath(doc, Render(up + [t]), y, true), RfcAdd(Denote(doc), up + [t], Denote(y));
      && (r.status == 0 <==> q.Some?)
      && (q.Some? ==> Denote(r.doc) == q.value && (HasRoom(Denote(doc), up) ==> Formed(r.doc, exact)))
  {
    hide Formed, AddAt, AddChild, PlainPath, CaseClear, HasRoom, GoodLast, Denote, Get, Set, Locate, AddAtPath, Render;
    AddUnfolds(doc, up, t, y);
    assert (up + [t])[..|up + [t]| - 1] == up && (up + [t])[|up + [t]| - 1] == t && up + [t] != [];
    ParentOf(doc, up, t, doc, exact);
    var loc := Locate(doc, Render(up), true);
    if loc.Some? {
      AddAtLocation(doc, up, t, y, loc.value, exact);
    }
  }

  lemma AddAtLocation(doc: Json, up: seq<string>, t: string, y: Json, loc: seq<nat>, exact: bool)
    requires Formed(doc, exact) && Formed(y, exact) && PlainPath(Denote(doc), up + [t]) && GoodLast(t)
    requires Locate(doc, Render(up), true) == Some(loc)
    requires exact || (Get(Denote(doc), up).Some? ==> CaseClear(Get(Denote(doc), up).value, t))
    ensures var r := AddAt(doc, loc, t, y, true);
      && Get(Denote(doc), up).Some?
      && var q := AddChild(Get(Denote(doc), up).value, t, Denote(y));
      && (r.status == 0 <==> q.Some?)
      && (q.Some? ==> Denote(r.doc) == Set(Denote(doc), up, q.value) && (HasRoom(Denote(doc), up) ==> Formed(r.doc, exact)))
  {
    ParentOf(doc, up, t, doc, exact);
    var parent := At(doc, loc);
    AddToParent(parent, t, y, exact);
    ParentOf(doc, up, t, AddChildTo(parent, t, y, true).doc, exact);
  }

  // ---------- Replacing ----------

  // Taking a value out and putting another one in is setting the value.
  lemma RemoveThenAdd(x: Value, up: seq<string>, t: string, y: Value)
    requires Get(x, up + [t]).Some?
    ensures RfcRemove(x, up + [t]).Some?
    ensures RfcAdd(RfcRemove(x, up + [t]).value, up + [t], y) == Some(Set(x, up + [t], y))
  {
    GetAppend(x, up, t);
    SetAppend(x, up, t, y);
    assert (up + [t])[..|up + [t]| - 1] == up;
    var p := Get(x, up).value;
    var r := RemoveChild(p, t);
    SetTwice(x, up, r, SetChild(p, t, y));
    hide Step, SetChild, RemoveChild, AddChild;
    ChildBack(p, t, y);
  }

  lemma ChildBack(p: Value, t: string, y: Value)
    requires Step(p, t).Some?
    ensures AddChild(RemoveChild(p, t), t, y) == Some(SetChild(p, t, y))
  {
    if p.VObject? {
      assert (p.members - {t})[t := y] == p.members[t := y];
    } else {
      var s, i := p.elems, ArrayIndex(t).value;
      var rest := s[..i] + s[i + 1..];
      assert rest[..i] + [y] + rest[i..] == s[i := y];
      assert t != "-";
    }
  }
}
