// JSON Merge Patch: applying and generating one, against RFC 7396 on values. Trees have no rings here:
// adding a member appends it, as it does while the ring of the object is closed.
module MergePatch {
  import opened CStrings
  import opened Json
  import opened JsonCompare
  import opened JsonPatch
  import opened PatchDiff
  import opened Seqs

  // What merge_patch() goes on with: a target that is not an object becomes an empty one.
  function MembersOf(target: Json): seq<Member> {
    if target.Object? then target.members else []
  }

  // merge_patch(). A target that is not there acts as any target that is no object.
  function Merge(target: Json, patch: Json, caseSensitive: bool): Json
    decreases patch, 1, 0
  {
    if patch.Object? then Object(MergeMembers(MembersOf(target), patch, patch.members, caseSensitive)) else patch
  }

  function MergeMembers(ms: seq<Member>, ghost whole: Json, ps: seq<Member>, caseSensitive: bool): seq<Member>
    requires forall p <- ps :: p.value < whole
    decreases whole, 0, |ps|
  {
    if ps == [] then ms
    else
      var p, rest := ps[0], DropName(ms, ps[0].key, caseSensitive);
      var next :=
        if p.value.Null? then rest
        else rest + [Member(p.key, Merge(Named(ms, p.key, caseSensitive), p.value, caseSensitive))];
      MergeMembers(next, whole, ps[1..], caseSensitive)
  }

  function Named(ms: seq<Member>, name: string, caseSensitive: bool): Json {
    var i := FindName(ms, name, caseSensitive);
    if i < |ms| then ms[i].value else Null
  }

  // merge_patch() itself
  method MergePatchTrees(target: Json, patch: Json, caseSensitive: bool) returns (merged: Json)
    ensures merged == Merge(target, patch, caseSensitive)
    decreases patch
  {
    if !patch.Object? {
      return patch;
    }
    var ms, ps := MembersOf(target), patch.members;
    Whole(ps);
    for i := 0 to |ps|
      invariant Merge(target, patch, caseSensitive) == Object(MergeMembers(ms, patch, ps[i..], caseSensitive))
    {
      Next(ps, i);
      var p := ps[i];
      assert p in patch.members;
      var replaceMe := FindName(ms, p.key, caseSensitive);
      if p.value.Null? {
        ms := DropName(ms, p.key, caseSensitive);
      } else {
        var below := if replaceMe < |ms| then ms[replaceMe].value else Null;
        var replacement := MergePatchTrees(below, p.value, caseSensitive);
        ms := DropName(ms, p.key, caseSensitive) + [Member(p.key, replacement)];
      }
    }
    return Object(ms);
  }

  // generate_merge_patch(): None is the NULL it returns when nothing differs. What it finds
  // below a common key it always generates without regard to case.
  function Generate(from: Json, to: Json, caseSensitive: bool): Option<Json>
    decreases from, 1, 0
  {
    if !to.Object? || !from.Object? then Some(to)
    else
      var ms := GenerateMembers(from, SortedMembers(from, caseSensitive), SortedMembers(to, caseSensitive), caseSensitive);
      if ms == [] then None else Some(Object(ms))
  }

  // The walk: sorted as the flag says, but compared with strcmp().
  function GenerateMembers(ghost whole: Json, fs: seq<Member>, ts: seq<Member>, caseSensitive: bool): seq<Member>
    requires forall f <- fs :: f.value < whole
    decreases whole, 0, |fs| + |ts|
  {
    if fs == [] && ts == [] then []
    else
      var diff := KeyOrder(fs, ts, true);
      if diff < 0 then [Member(fs[0].key, Null)] + GenerateMembers(whole, fs[1..], ts, caseSensitive)
      else if diff > 0 then [ts[0]] + GenerateMembers(whole, fs, ts[1..], caseSensitive)
      else GenerateCommon(fs[0], ts[0], caseSensitive) + GenerateMembers(whole, fs[1..], ts[1..], caseSensitive)
  }

  // A member of both: nothing if they compare equal, and nothing if the patch below is NULL.
  function GenerateCommon(f: Member, t: Member, caseSensitive: bool): seq<Member>
    decreases f.value, 2, 0
  {
    if CompareJson(f.value, t.value, caseSensitive) then []
    else match Generate(f.value, t.value, false)
      case Some(p) => [Member(t.key, p)]
      case None => []
  }

  // A tree that is not there: no patch keeps anything of the first, a null stands for that.
  function GenerateFor(from: Option<Json>, to: Option<Json>, caseSensitive: bool): Option<Json> {
    match to
    case None => Some(Null)
    case Some(t) => if from.Some? then Generate(from.value, t, caseSensitive) else Some(t)
  }

  // generate_merge_patch() itself; either tree may be NULL
  method GenerateMergePatch(source: Option<Json>, target: Option<Json>, caseSensitive: bool) returns (patch: Option<Json>)
    ensures patch == GenerateFor(source, target, caseSensitive)
    decreases if source == None then Null else source.value, 1
  {
    if target == None {
      return Some(Null);
    }
    if !target.value.Object? || source == None || !source.value.Object? {
      return target;
    }
    var from, to := source.value, target.value;
    var fs, ts := SortedMembers(from, caseSensitive), SortedMembers(to, caseSensitive);
    var f, t := 0, 0;
    var ms: seq<Member> := [];
    Whole(fs);
    Whole(ts);
    while f < |fs| || t < |ts|
      invariant 0 <= f <= |fs| && 0 <= t <= |ts|
      invariant GenerateMembers(from, fs, ts, caseSensitive) == ms + GenerateMembers(from, fs[f..], ts[t..], caseSensitive)
      decreases |fs| - f + |ts| - t
    {
      var more;
      more, f, t := NextMergeMembers(from, fs, ts, f, t, caseSensitive);
      Assoc(ms, more, GenerateMembers(from, fs[f..], ts[t..], caseSensitive));
      ms := ms + more;
    }
    assert GenerateMembers(from, fs[f..], ts[t..], caseSensitive) == [] && ms + [] == ms;
    return if ms == [] then None else Some(Object(ms));
  }

  // One turn of the walk.
  method NextMergeMembers(ghost whole: Json, fs: seq<Member>, ts: seq<Member>, f0: nat, t0: nat, caseSensitive: bool)
    returns (more: seq<Member>, f: nat, t: nat)
    requires f0 <= |fs| && t0 <= |ts| && (f0 < |fs| || t0 < |ts|) && forall m <- fs :: m.value < whole
    ensures f0 <= f <= |fs| && t0 <= t <= |ts| && f0 + t0 < f + t
    ensures GenerateMembers(whole, fs[f0..], ts[t0..], caseSensitive)
         == more + GenerateMembers(whole, fs[f..], ts[t..], caseSensitive)
    decreases whole, 0
  {
    f, t := f0, t0;
    StepBoth(fs, f);
    StepBoth(ts, t);
    var diff := if f == |fs| then 1 else if t == |ts| then -1 else CompareStrings(fs[f].key, ts[t].key, true);
    if diff < 0 {
      more := [Member(fs[f].key, Null)];
      f := f + 1;
    } else if diff > 0 {
      more := [ts[t]];
      t := t + 1;
    } else {
      more := [];
      assert fs[f] in fs;
      var identical := CompareJsonTrees(fs[f].value, ts[t].value, caseSensitive);
      if !identical {
        var below := GenerateMergePatch(Some(fs[f].value), Some(ts[t].value), false);
        if below.Some? {
          more := [Member(ts[t].key, below.value)];
        }
      }
      f, t := f + 1, t + 1;
    }
  }
}
