// Merge patches on trees with rings: into a tree with closed rings, as a duplicate has them, merging
// is what it is on the lists alone. Into the tree that the generator was given it is not.
module MergeRings {
  import opened CStrings
  import opened Json
  import opened JsonCompare
  import opened JsonPatch
  import opened MergeInverse
  import opened MergeMeaning
  import opened MergePatch
  import opened PatchRings
  import opened PatchRuns
  import opened RingTree
  import opened Rings
  import opened Seqs
  import opened SortedInPlace

  // What merge_patch() goes on with: a target that is no object becomes an empty one.
  function Start(target: Tree): (t: Tree)
    ensures t.Dict?
  {
    if target.Dict? then target else Dict([], Nowhere)
  }

  // merge_patch(). None: it appends behind a node that has left the list.
  function MergeTree(target: Tree, patch: Json, caseSensitive: bool): Option<Tree>
    decreases patch, 1, 0
  {
    if patch.Object?
    then MergeInto(Start(target), patch, patch.members, caseSensitive)
    else Some(Fresh(patch))
  }

  function MergeInto(t: Tree, ghost whole: Json, ps: seq<Member>, caseSensitive: bool): Option<Tree>
    requires t.Dict? && forall p <- ps :: p.value < whole
    decreases whole, 0, |ps|
  {
    if ps == [] then Some(t)
    else
      var p, c := ps[0], Cleared(t, ps[0].key, caseSensitive);
      if p.value.Null? then MergeInto(c, whole, ps[1..], caseSensitive)
      else
        match MergeTree(BelowKey(t, p.key, caseSensitive), p.value, caseSensitive)
        case None => None
        case Some(m) =>
          if LeadsAstray(|c.members|, c.back) then None else MergeInto(With(c, p.key, m), whole, ps[1..], caseSensitive)
  }

  // cJSON_AddItemToObject()
  function With(c: Tree, key: string, m: Tree): (r: Tree)
    requires c.Dict?
    ensures r.Dict?
  {
    Dict(Appended(c.members, c.back, Named(key, m)), BackAfterAppend(|c.members|, c.back))
  }

  // The member that was detached before merging into it.
  function BelowKey(t: Tree, name: string, caseSensitive: bool): (r: Tree)
    requires t.Dict?
    ensures Erase(r) == MergePatch.Named(Erase(t).members, name, caseSensitive)
  {
    var i := FindName(Erase(t).members, name, caseSensitive);
    if i < |t.members| then t.members[i].value else Leaf(Null)
  }

  // merge_patch() itself
  method MergeTrees(target: Tree, patch: Json, caseSensitive: bool) returns (merged: Option<Tree>)
    ensures merged == MergeTree(target, patch, caseSensitive)
    decreases patch
  {
    if !patch.Object? {
      return Some(Fresh(patch));
    }
    var t, ps := Start(target), patch.members;
    Whole(ps);
    for i := 0 to |ps|
      invariant t.Dict? && MergeTree(target, patch, caseSensitive) == MergeInto(t, patch, ps[i..], caseSensitive)
    {
      Next(ps, i);
      var p, replaceMe := ps[i], BelowKey(t, ps[i].key, caseSensitive);
      assert p in patch.members;
      t := Cleared(t, p.key, caseSensitive);
      if !p.value.Null? {
        var replacement := MergeTrees(replaceMe, p.value, caseSensitive);
        if replacement.None? || LeadsAstray(|t.members|, t.back) {
          return None;
        }
        t := With(t, p.key, replacement.value);
      }
    }
    return Some(t);
  }

  lemma {:induction false} MergeClosed(target: Tree, patch: Json, caseSensitive: bool)
    requires AllClosed(target)
    ensures var r := MergeTree(target, patch, caseSensitive);
      r.Some? && AllClosed(r.value) && Erase(r.value) == Merge(Erase(target), patch, caseSensitive)
    decreases patch, 1, 0
  {
    if patch.Object? {
      assert Erase(Start(target)) == Object(MembersOf(Erase(target)));
      IntoClosed(Start(target), patch, patch.members, caseSensitive);
    } else {
      FreshIs(patch);
    }
  }

  lemma {:induction false} IntoClosed(t: Tree, whole: Json, ps: seq<Member>, caseSensitive: bool)
    requires t.Dict? && AllClosed(t) && forall p <- ps :: p.value < whole
    ensures var r := MergeInto(t, whole, ps, caseSensitive);
      r.Some? && AllClosed(r.value) && Erase(r.value) == Object(MergeMembers(Erase(t).members, whole, ps, caseSensitive))
    decreases whole, 0, |ps|
  {
    hide AllClosed, Erase, Cleared, BelowKey, Appended, BackAfterAppend;
    if ps == [] {
      MembersErased(t);
    } else {
      var p, c := ps[0], Cleared(t, ps[0].key, caseSensitive);
      ClearedClosed(t, p.key, caseSensitive);
      if p.value.Null? {
        IntoClosed(c, whole, ps[1..], caseSensitive);
      } else {
        BelowClosed(t, p.key, caseSensitive);
        MergeClosed(BelowKey(t, p.key, caseSensitive), p.value, caseSensitive);
        var m := MergeTree(BelowKey(t, p.key, caseSensitive), p.value, caseSensitive).value;
        AppendedClosed(c, Named(p.key, m));
        WithErases(c, p.key, m);
        IntoClosed(With(c, p.key, m), whole, ps[1..], caseSensitive);
      }
    }
  }

  lemma BelowClosed(t: Tree, name: string, caseSensitive: bool)
    requires t.Dict? && AllClosed(t)
    ensures AllClosed(BelowKey(t, name, caseSensitive))
  {
  }

  lemma WithErases(c: Tree, key: string, m: Tree)
    requires c.Dict? && Closed(|c.members|, c.back)
    ensures Erase(With(c, key, m)) == Object(EraseMembers(c.members) + [Member(key, Erase(m))])
    ensures Erase(c) == Object(EraseMembers(c.members))
  {
    var added := Named(key, m);
    ClosedStaysClosed(c.members, c.back, added, 0);
    assert EraseMembers(c.members + [added]) == EraseMembers(c.members) + [Member(key, Erase(m))];
  }

  // ---------- Any rings ----------

  // Every object that gets a member, at any depth, has a closed ring by then.
  ghost predicate SafeMerge(target: Tree, patch: Json)
    decreases patch, 1, 0
  {
    patch.Object? ==> SafeInto(Start(target), patch, patch.members)
  }

  ghost predicate SafeInto(t: Tree, whole: Json, ps: seq<Member>)
    requires t.Dict? && forall p <- ps :: p.value < whole
    decreases whole, 0, |ps|
  {
    ps != [] ==>
      var p, c := ps[0], Cleared(t, ps[0].key, true);
      if p.value.Null? then SafeInto(c, whole, ps[1..])
      else
        && SafeMerge(BelowKey(t, p.key, true), p.value) && Closed(|c.members|, c.back)
        && match MergeTree(BelowKey(t, p.key, true), p.value, true)
           case None => true
           case Some(m) => SafeInto(With(c, p.key, m), whole, ps[1..])
  }

  // For every member of the patch, at any depth, the object has then what it had before, with this member.
  ghost predicate FollowsMerge(target: Tree, patch: Json)
    decreases patch, 1, 0
  {
    patch.Object? ==> FollowsInto(Start(target), patch, patch.members)
  }

  ghost predicate FollowsInto(t: Tree, whole: Json, ps: seq<Member>)
    requires t.Dict? && forall p <- ps :: p.value < whole
    decreases whole, 0, |ps|
  {
    ps != [] ==>
      var p, c := ps[0], Cleared(t, ps[0].key, true);
      if p.value.Null? then FollowsInto(c, whole, ps[1..])
      else
        && FollowsMerge(BelowKey(t, p.key, true), p.value)
        && match MergeTree(BelowKey(t, p.key, true), p.value, true)
           case None => false
           case Some(m) =>
             && !LeadsAstray(|c.members|, c.back) && HasGained(c, With(c, p.key, m), p.key, Denote(Erase(m)))
             && FollowsInto(With(c, p.key, m), whole, ps[1..])
  }

  ghost predicate HasGained(c: Tree, r: Tree, key: string, y: Value)
    requires c.Dict?
  {
    Denote(Erase(r)) == VObject(DenoteMembers(EraseMembers(c.members))[key := y])
  }

  lemma GainsExactly(c: Tree, key: string, m: Tree)
    requires c.Dict? && DistinctKeys(EraseMembers(c.members)) && IsNew(EraseMembers(c.members), key, true)
    ensures !LeadsAstray(|c.members|, c.back) && HasGained(c, With(c, key, m), key, Denote(Erase(m)))
      <==> Closed(|c.members|, c.back)
  {
    var es := EraseMembers(c.members);
    AppendMember(es, key, Erase(m), true);
    if Closed(|c.members|, c.back) {
      WithErases(c, key, m);
    } else if !LeadsAstray(|c.members|, c.back) {
      WithoutOne(c, key, m);
    }
  }

  lemma WithoutOne(c: Tree, key: string, m: Tree)
    requires c.Dict? && DistinctKeys(EraseMembers(c.members)) && IsNew(EraseMembers(c.members), key, true)
    requires !Closed(|c.members|, c.back) && !LeadsAstray(|c.members|, c.back)
    ensures Denote(Erase(With(c, key, m))) != VObject(DenoteMembers(EraseMembers(c.members) + [Member(key, Erase(m))]))
  {
    var es, added := EraseMembers(c.members), Named(key, m);
    var k := if c.back.ToChild? then c.back.k else 0;
    AppendedExactly(c.members, c.back, added);
    var short := Appended(c.members, c.back, added);
    if short != c.members {
      assert EraseMembers(short) == es[..k + 1] + [Member(key, Erase(m))];
    }
    ShortDiffers(es, EraseMembers(short), k, key, Erase(m));
    MembersErased(With(c, key, m));
  }

  // Deleting the member of that name leaves a well-formed object without it.
  lemma ClearedFormed(t: Tree, key: string)
    requires t.Dict? && Formed(Erase(t), true)
    ensures var c := Cleared(t, key, true); var es := EraseMembers(c.members);
      && Formed(Erase(c), true) && Erase(c) == Object(es) && es == DropName(EraseMembers(t.members), key, true)
      && DistinctKeys(es) && IsNew(es, key, true)
  {
    var c, es := Cleared(t, key, true), EraseMembers(t.members);
    MembersErased(t);
    MembersErased(c);
    WithoutName(es, key, true);
    var rest := EraseMembers(c.members);
    forall i | 0 <= i < |rest| ensures NulFree(rest[i].key) && Formed(rest[i].value, true) {
      assert rest[i] in es;
      var j :| 0 <= j < |es| && es[j] == rest[i];
    }
    DropSmaller(es, key);
  }

  lemma DropSmaller(ms: seq<Member>, key: string)
    ensures |DropName(ms, key, true)| <= |ms|
  {
  }

  lemma WithFormed(c: Tree, key: string, m: Tree)
    requires c.Dict? && Formed(Erase(c), true) && Closed(|c.members|, c.back) && IsNew(EraseMembers(c.members), key, true)
    requires NulFree(key) && Formed(Erase(m), true)
    ensures Formed(Erase(With(c, key, m)), true)
  {
    var es, added := EraseMembers(c.members), Member(key, Erase(m));
    WithErases(c, key, m);
    AppendMember(es, key, Erase(m), true);
    var ns := es + [added];
    forall i | 0 <= i < |ns| ensures ns[i] in es || ns[i] == added {
      assert i < |es| ==> es[i] in es;
    }
    FormedMembers(es, ns, added, true);
  }

  lemma BelowFormed(t: Tree, name: string)
    requires t.Dict? && Formed(Erase(t), true)
    ensures Formed(Erase(BelowKey(t, name, true)), true)
  {
    MembersErased(t);
  }

  // A merge does at every member of the patch what RFC 7396 says exactly when every object that gets a
  // member has a closed ring by then; and then it is the merge on the lists alone.
  lemma {:induction false} MergeFollowsExactly(target: Tree, patch: Json)
    requires Formed(Erase(target), true) && Formed(patch, true)
    ensures FollowsMerge(target, patch) <==> SafeMerge(target, patch)
    ensures SafeMerge(target, patch) ==>
      var r := MergeTree(target, patch, true);
      r.Some? && Formed(Erase(r.value), true) && Erase(r.value) == Merge(Erase(target), patch, true)
    decreases patch, 1, 0
  {
    if patch.Object? {
      StartFormed(target);
      assert forall i :: 0 <= i < |patch.members| ==> patch.members[i] in patch.members;
      IntoFollowsExactly(Start(target), patch, patch.members);
    } else {
      FreshIs(patch);
    }
  }

  lemma StartFormed(target: Tree)
    requires Formed(Erase(target), true)
    ensures Formed(Erase(Start(target)), true) && Erase(Start(target)) == Object(MembersOf(Erase(target)))
  {
  }

  lemma {:induction false} IntoFollowsExactly(t: Tree, whole: Json, ps: seq<Member>)
    requires t.Dict? && Formed(Erase(t), true)
    requires forall i :: 0 <= i < |ps| ==> ps[i].value < whole && NulFree(ps[i].key) && Formed(ps[i].value, true)
    ensures FollowsInto(t, whole, ps) <==> SafeInto(t, whole, ps)
    ensures SafeInto(t, whole, ps) ==>
      var r := MergeInto(t, whole, ps, true);
      r.Some? && Formed(Erase(r.value), true) && Erase(r.value) == Object(MergeMembers(EraseMembers(t.members), whole, ps, true))
    decreases whole, 0, |ps|
  {
    hide Formed, Denote, Erase, Cleared, BelowKey, With, HasGained, LeadsAstray, Merge, MergeTree;
    MembersErased(t);
    if ps != [] {
      var p, c := ps[0], Cleared(t, ps[0].key, true);
      ClearedFormed(t, p.key);
      if p.value.Null? {
        IntoFollowsExactly(c, whole, ps[1..]);
      } else {
        BelowFormed(t, p.key);
        var below := BelowKey(t, p.key, true);
        MergeFollowsExactly(below, p.value);
        if SafeMerge(below, p.value) {
          var m := MergeTree(below, p.value, true).value;
          GainsExactly(c, p.key, m);
          if Closed(|c.members|, c.back) {
            WithFormed(c, p.key, m);
            WithErases(c, p.key, m);
            MembersErased(With(c, p.key, m));
            NotAstray(|c.members|, c.back);
            IntoFollowsExactly(With(c, p.key, m), whole, ps[1..]);
          }
        }
      }
    }
  }

  lemma NotAstray(n: nat, back: Back)
    requires Closed(n, back)
    ensures !LeadsAstray(n, back)
  {
  }

  // So a safe merge gives what the function of RFC 7396 gives.
  lemma SafeMergeIsRfc7396(target: Tree, patch: Json)
    requires Formed(Erase(target), true) && Formed(patch, true) && SafeMerge(target, patch)
    ensures var r := MergeTree(target, patch, true);
      r.Some? && Denote(Erase(r.value)) == Rfc7396(Denote(Erase(target)), Denote(patch))
  {
    hide Formed, Denote, Erase, SafeMerge, MergeTree;
    MergeFollowsExactly(target, patch);
    FormedIsDistinct(Erase(target));
    FormedIsDistinct(patch);
    DistinctMergeable(Erase(target), patch);
    MergeIsRfc7396(Erase(target), patch, true);
  }

  lemma {:induction false} FormedIsDistinct(j: Json)
    requires Formed(j, true)
    ensures DistinctThroughout(j)
  {
    match j {
      case Object(ms) =>
        forall i, k | 0 <= i < k < |ms| ensures !SameName(ms[i].key, ms[k].key, true) {
          SameNameExact(ms[i].key, ms[k].key);
        }
        forall i | 0 <= i < |ms| ensures DistinctThroughout(ms[i].value) {
          FormedIsDistinct(ms[i].value);
        }
      case _ =>
    }
  }

  // Merging the patch generated for two trees into a tree with closed rings that has the members of the
  // first, as a duplicate of it does, gives the second exactly when no null of the second stands in the way.
  lemma MergeInvertsClosed(t: Tree, to: Json, caseSensitive: bool)
    requires AllClosed(t) && WellFormed(Erase(t)) && WellFormed(to) && SameOrder(Erase(t), to, caseSensitive)
    requires caseSensitive || CaseCompatible(Erase(t), to)
    ensures var patch := Generate(Erase(t), to, caseSensitive);
      patch.Some? ==>
        var r := MergeTree(t, patch.value, caseSensitive);
        r.Some? && AllClosed(r.value) && (Denote(Erase(r.value)) == Denote(to) <==> NullsKept(Denote(Erase(t)), Denote(to)))
  {
    hide AllClosed, Erase, MergeTree, Generate;
    MergeInverts(Erase(t), to, caseSensitive);
    var patch := Generate(Erase(t), to, caseSensitive);
    if patch.Some? {
      MergeClosed(t, patch.value, caseSensitive);
    }
  }

  // The merge patch generated for {"b": 0, "a": 1} and {"a": 1, "b": 0, "c": 3} is {"c": 3}. Merging it
  // into the first tree itself, as the generator has left it, adds nothing.
  lemma GeneratorLosesTheMergedMember()
    ensures var from := Numbered(["b", "a"]);
      var to := Object([Member("a", Number(1)), Member("b", Number(0)), Member("c", Number(3))]);
      var left := SortDict(from, true);
      && Generate(Erase(from), to, true) == Some(Object([Member("c", Number(3))]))
      && MergeTree(left, Object([Member("c", Number(3))]), true) == Some(left)
  {
    GeneratesC();
    PairSorted();
    hide SortDict, Generate, Erase, MergeTree;
    MergeIntoSorted(SortDict(Numbered(["b", "a"]), true));
  }

  lemma MergeIntoSorted(left: Tree)
    requires left == Dict([Named("a", Leaf(Number(1))), Named("b", Leaf(Number(0)))], Nowhere)
    ensures MergeTree(left, Object([Member("c", Number(3))]), true) == Some(left)
  {
    var ps := [Member("c", Number(3))];
    var es := EraseMembers(left.members);
    NoKeyIn(es, "c");
    FindInMap(es, "c");
    MembersErased(left);
    assert Cleared(left, "c", true) == left;
    AppendedNowhere(left.members, Named("c", Leaf(Number(3))));
    assert ps[1..] == [];
  }

  // A number that both objects have under one key needs no patch.
  lemma GenerateSkips(whole: Json, fs: seq<Member>, ts: seq<Member>)
    requires fs != [] && ts != [] && fs[0] == ts[0] && fs[0].value.Number? && forall f <- fs :: f.value < whole
    ensures GenerateMembers(whole, fs, ts, true) == GenerateMembers(whole, fs[1..], ts[1..], true)
  {
    hide CompareStrings;
    CompareExact(fs[0].key, ts[0].key);
    var rest := GenerateMembers(whole, fs[1..], ts[1..], true);
    assert [] + rest == rest;
  }

  lemma GeneratesC()
    ensures var to := Object([Member("a", Number(1)), Member("b", Number(0)), Member("c", Number(3))]);
      Generate(Erase(Numbered(["b", "a"])), to, true) == Some(Object([Member("c", Number(3))]))
  {
    hide CompareStrings, SortedMembers, GenerateMembers, Erase;
    var from := Erase(Numbered(["b", "a"]));
    var a, b, c := Member("a", Number(1)), Member("b", Number(0)), Member("c", Number(3));
    BothSorted();
    MembersErased(Numbered(["b", "a"]));
    var fs, ts := [a, b], [a, b, c];
    assert fs[1..] == [b] && ts[1..] == [b, c] && [b][1..] == [] && [b, c][1..] == [c];
    assert forall f <- fs :: f.value < from by { SortedBelow(from, fs); }
    GenerateSkips(from, fs, ts);
    GenerateSkips(from, [b], [b, c]);
    GenerateLast(from, c);
  }

  lemma GenerateLast(whole: Json, t: Member)
    ensures GenerateMembers(whole, [], [t], true) == [t]
  {
    assert [t][1..] == [];
  }
}
