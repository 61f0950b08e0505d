// merge_patch() computes RFC 7396, and generating then merging leads from one tree to the other.
module MergeMeaning {
  import opened CStrings
  import opened Json
  import opened JsonPatch
  import opened MergePatch

  // ---------- Reference: section 2 of RFC 7396, on values ----------

  ghost function EntriesOf(x: Value): map<string, Value> {
    if x.VObject? then x.members else map[]
  }

  // What is at the key; a null stands for nothing there, which merging does not tell apart.
  ghost function Entry(m: map<string, Value>, k: string): Value {
    if k in m then m[k] else VNull
  }

  ghost function Rfc7396(target: Value, patch: Value): Value
    decreases patch
  {
    match patch
    case VObject(p) =>
      var base := EntriesOf(target);
      VObject(map k | k in base.Keys + p.Keys && (k in p ==> p[k] != VNull) ::
        if k in p then Rfc7396(Entry(base, k), p[k]) else base[k])
    case _ => patch
  }

  // r is what merging the entries p into base gives.
  ghost predicate IsMerged(base: map<string, Value>, p: map<string, Value>, r: map<string, Value>) {
    && (forall k :: k in r <==> k in base.Keys + p.Keys && (k in p ==> p[k] != VNull))
    && forall k <- r :: r[k] == if k in p then Rfc7396(Entry(base, k), p[k]) else base[k]
  }

  lemma MergedIs(target: Value, patch: Value, r: map<string, Value>)
    requires patch.VObject? && IsMerged(EntriesOf(target), patch.members, r)
    ensures Rfc7396(target, patch) == VObject(r)
  {
    var q := Rfc7396(target, patch).members;
    assert q.Keys == r.Keys;
    assert q == r;
  }

  // ---------- Keys that a lookup tells apart ----------

  ghost predicate Distinct(ms: seq<Member>, caseSensitive: bool) {
    forall i, j :: 0 <= i < j < |ms| ==> !SameName(ms[i].key, ms[j].key, caseSensitive)
  }

  // The lookup by p's key finds the member with that very key, if there is any.
  ghost predicate Apart(ms: seq<Member>, k: string, caseSensitive: bool) {
    forall i :: 0 <= i < |ms| && SameName(ms[i].key, k, caseSensitive) ==> ms[i].key == k
  }

  lemma DistinctTail(ms: seq<Member>, caseSensitive: bool)
    requires Distinct(ms, caseSensitive) && ms != []
    ensures Distinct(ms[1..], caseSensitive)
    ensures forall i :: 0 <= i < |ms| - 1 ==> ms[1..][i] == ms[i + 1] && ms[1..][i].key != ms[0].key
  {
    forall i | 0 <= i < |ms| - 1 ensures ms[1..][i] == ms[i + 1] && ms[i + 1].key != ms[0].key {
      assert !SameName(ms[0].key, ms[i + 1].key, caseSensitive);
    }
  }

  // ---------- One entry of the member list ----------

  lemma DropNameStep(ms: seq<Member>, k: string, caseSensitive: bool)
    ensures DropName(ms, k, caseSensitive) ==
      if ms == [] then []
      else if SameName(ms[0].key, k, caseSensitive) then ms[1..]
      else [ms[0]] + DropName(ms[1..], k, caseSensitive)
  {
    if ms != [] {
      var i := FindName(ms, k, caseSensitive);
      if i < |ms| {
        DropTail(ms, i);
      } else {
        assert ms == [ms[0]] + ms[1..];
      }
    }
  }

  lemma ApartTail(ms: seq<Member>, k: string, caseSensitive: bool)
    requires Apart(ms, k, caseSensitive) && ms != []
    ensures Apart(ms[1..], k, caseSensitive)
    ensures SameName(ms[0].key, k, caseSensitive) <==> ms[0].key == k
  {
    assert forall i :: 0 <= i < |ms| - 1 ==> ms[1..][i] == ms[i + 1];
  }

  lemma {:induction false} DropNameMembers(ms: seq<Member>, k: string, caseSensitive: bool)
    requires Distinct(ms, true) && Apart(ms, k, caseSensitive)
    ensures var rest := DropName(ms, k, caseSensitive);
      && (forall i :: 0 <= i < |rest| ==> rest[i] in ms && rest[i].key != k)
      && Distinct(rest, true)
  {
    DropNameStep(ms, k, caseSensitive);
    if ms != [] {
      DistinctTail(ms, true);
      ApartTail(ms, k, caseSensitive);
      DropNameMembers(ms[1..], k, caseSensitive);
      DistinctCons(ms[0], DropName(ms[1..], k, caseSensitive), ms[1..]);
    }
  }

  lemma WithoutKey(m: map<string, Value>, j: string, x: Value, k: string)
    ensures j != k ==> m[j := x] - {k} == (m - {k})[j := x]
    ensures k !in m ==> m[k := x] - {k} == m
  {
  }

  lemma FirstOnly(ps: seq<Member>, caseSensitive: bool)
    requires Distinct(ps, caseSensitive) && ps != []
    ensures ps[0].key !in DenoteMembers(ps[1..])
  {
    DistinctTail(ps, caseSensitive);
    MembersMap(ps[1..]);
  }

  // Taking out the member that a key names takes one entry out of the map.
  lemma {:induction false} DropNameIs(ms: seq<Member>, k: string, caseSensitive: bool)
    requires Distinct(ms, true) && Apart(ms, k, caseSensitive)
    ensures DenoteMembers(DropName(ms, k, caseSensitive)) == DenoteMembers(ms) - {k}
  {
    DropNameStep(ms, k, caseSensitive);
    if ms != [] {
      var m, t := ms[0], ms[1..];
      DistinctTail(ms, true);
      ApartTail(ms, k, caseSensitive);
      DropNameIs(t, k, caseSensitive);
      WithoutKey(DenoteMembers(t), m.key, Denote(m.value), k);
      if m.key == k {
        FirstOnly(ms, true);
      } else {
        assert ([m] + DropName(t, k, caseSensitive))[1..] == DropName(t, k, caseSensitive);
      }
    }
  }

  // The lookup reads the entry of the map.
  lemma {:induction false} NamedIs(ms: seq<Member>, k: string, caseSensitive: bool)
    requires Apart(ms, k, caseSensitive)
    ensures Denote(Named(ms, k, caseSensitive)) == Entry(DenoteMembers(ms), k)
    ensures Named(ms, k, caseSensitive) == Named(ms, k, true)
  {
    if ms != [] {
      ApartTail(ms, k, caseSensitive);
      NamedIs(ms[1..], k, caseSensitive);
      NamedTail(ms, k);
    }
  }

  lemma DistinctCons(m: Member, rest: seq<Member>, t: seq<Member>)
    requires Distinct(rest, true) && forall i :: 0 <= i < |t| ==> t[i].key != m.key
    requires forall i :: 0 <= i < |rest| ==> rest[i] in t
    ensures Distinct([m] + rest, true)
  {
    var r := [m] + rest;
    forall i, j | 0 <= i < j < |r| ensures !SameName(r[i].key, r[j].key, true) {
      SameNameExact(r[i].key, r[j].key);
      if i == 0 {
        assert rest[j - 1] in t;
      } else {
        assert r[i] == rest[i - 1] && r[j] == rest[j - 1];
      }
    }
  }

  // A new member at the end puts one entry into the map.
  lemma {:induction false} AppendIs(ms: seq<Member>, k: string, v: Json)
    requires Distinct(ms, true) && forall i :: 0 <= i < |ms| ==> ms[i].key != k
    ensures DenoteMembers(ms + [Member(k, v)]) == DenoteMembers(ms)[k := Denote(v)]
    ensures Distinct(ms + [Member(k, v)], true)
  {
    var ns := ms + [Member(k, v)];
    if ms == [] {
      assert ns[1..] == [];
    } else {
      assert ns[1..] == ms[1..] + [Member(k, v)];
      DistinctTail(ms, true);
      AppendIs(ms[1..], k, v);
    }
    forall i, j | 0 <= i < j < |ns| ensures !SameName(ns[i].key, ns[j].key, true) {
      SameNameExact(ns[i].key, ns[j].key);
      if j < |ms| {
        assert !SameName(ms[i].key, ms[j].key, true);
      }
    }
  }

  // The lookup of another key is left alone.
  lemma {:induction false} NamedElsewhere(ms: seq<Member>, k: string, q: string, caseSensitive: bool)
    requires k != q && Apart(ms, k, caseSensitive)
    ensures Named(DropName(ms, k, caseSensitive), q, true) == Named(ms, q, true)
  {
    DropNameStep(ms, k, caseSensitive);
    if ms != [] {
      var u := DropName(ms[1..], k, caseSensitive);
      ApartTail(ms, k, caseSensitive);
      NamedTail(ms, q);
      if ms[0].key != k {
        NamedElsewhere(ms[1..], k, q, caseSensitive);
        assert ([ms[0]] + u)[1..] == u;
        NamedTail([ms[0]] + u, q);
      }
    }
  }

  lemma NamedTail(ms: seq<Member>, q: string)
    requires ms != []
    ensures Named(ms, q, true) == if ms[0].key == q then ms[0].value else Named(ms[1..], q, true)
  {
    SameNameExact(ms[0].key, q);
  }

  lemma {:induction false} NamedAppend(ms: seq<Member>, k: string, v: Json, q: string)
    requires k != q
    ensures Named(ms + [Member(k, v)], q, true) == Named(ms, q, true)
  {
    var ns := ms + [Member(k, v)];
    NamedTail(ns, q);
    if ms == [] {
      assert ns[1..] == [];
    } else {
      assert ns[1..] == ms[1..] + [Member(k, v)];
      NamedTail(ms, q);
      NamedAppend(ms[1..], k, v, q);
    }
  }

  // ---------- Merging ----------

  // No object of the two trees confuses the lookups: an object of the target has no key twice,
  // one of the patch none that the lookup takes for another, and a key of the patch finds
  // nothing but itself.
  ghost predicate Mergeable(target: Json, patch: Json, caseSensitive: bool)
    decreases patch, 1
  {
    patch.Object? ==> Ready(MembersOf(target), patch, patch.members, caseSensitive)
  }

  ghost predicate Ready(ms: seq<Member>, whole: Json, ps: seq<Member>, caseSensitive: bool)
    requires forall p <- ps :: p.value < whole
    decreases whole, 0
  {
    && Distinct(ms, true) && Distinct(ps, caseSensitive)
    && forall j :: 0 <= j < |ps| ==>
         && Apart(ms, ps[j].key, caseSensitive)
         && Mergeable(Named(ms, ps[j].key, true), ps[j].value, caseSensitive)
  }

  // merge_patch() is the function of RFC 7396.
  lemma {:induction false} MergeIsRfc7396(target: Json, patch: Json, caseSensitive: bool)
    requires Mergeable(target, patch, caseSensitive)
    ensures Denote(Merge(target, patch, caseSensitive)) == Rfc7396(Denote(target), Denote(patch))
    decreases patch, 1
  {
    if patch.Object? {
      MembersMerge(MembersOf(target), patch, patch.members, caseSensitive);
      MergedIs(Denote(target), Denote(patch), DenoteMembers(Merge(target, patch, caseSensitive).members));
    }
  }

  // The member list after one member of the patch.
  ghost function NextMembers(ms: seq<Member>, p: Member, caseSensitive: bool): seq<Member> {
    var rest := DropName(ms, p.key, caseSensitive);
    if p.value.Null? then rest
    else rest + [Member(p.key, Merge(Named(ms, p.key, caseSensitive), p.value, caseSensitive))]
  }

  // Putting a value under a key, over what was there.
  lemma PutIs(ms: seq<Member>, k: string, v: Json, caseSensitive: bool)
    requires Distinct(ms, true) && Apart(ms, k, caseSensitive)
    ensures DenoteMembers(DropName(ms, k, caseSensitive) + [Member(k, v)]) == DenoteMembers(ms)[k := Denote(v)]
  {
    var rest := DropName(ms, k, caseSensitive);
    DropNameMembers(ms, k, caseSensitive);
    DropNameIs(ms, k, caseSensitive);
    AppendIs(rest, k, v);
    assert (DenoteMembers(ms) - {k})[k := Denote(v)] == DenoteMembers(ms)[k := Denote(v)];
  }

  lemma NextDenotes(ms: seq<Member>, p: Member, caseSensitive: bool)
    requires Distinct(ms, true) && Apart(ms, p.key, caseSensitive)
    requires Denote(Merge(Named(ms, p.key, caseSensitive), p.value, caseSensitive))
          == Rfc7396(Entry(DenoteMembers(ms), p.key), Denote(p.value))
    ensures var base, next := DenoteMembers(ms), DenoteMembers(NextMembers(ms, p, caseSensitive));
      next == if Denote(p.value) == VNull then base - {p.key}
              else base[p.key := Rfc7396(Entry(base, p.key), Denote(p.value))]
  {
    assert p.value.Null? <==> Denote(p.value) == VNull;
    if p.value.Null? {
      DropNameIs(ms, p.key, caseSensitive);
    } else {
      PutIs(ms, p.key, Merge(Named(ms, p.key, caseSensitive), p.value, caseSensitive), caseSensitive);
    }
  }

  lemma NextReady(ms: seq<Member>, whole: Json, ps: seq<Member>, caseSensitive: bool)
    requires forall p <- ps :: p.value < whole
    requires Ready(ms, whole, ps, caseSensitive) && ps != []
    ensures Ready(NextMembers(ms, ps[0], caseSensitive), whole, ps[1..], caseSensitive)
  {
    var p, q, next := ps[0], ps[1..], NextMembers(ms, ps[0], caseSensitive);
    var rest, merged := DropName(ms, p.key, caseSensitive), Merge(Named(ms, p.key, caseSensitive), p.value, caseSensitive);
    DropNameMembers(ms, p.key, caseSensitive);
    AppendIs(rest, p.key, merged);
    DistinctTail(ps, caseSensitive);
    forall j | 0 <= j < |q|
      ensures Apart(next, q[j].key, caseSensitive) && Mergeable(Named(next, q[j].key, true), q[j].value, caseSensitive)
    {
      assert q[j] == ps[j + 1];
      assert !SameName(ps[0].key, ps[j + 1].key, caseSensitive);
      NamedElsewhere(ms, p.key, q[j].key, caseSensitive);
      NamedAppend(rest, p.key, merged, q[j].key);
      forall i | 0 <= i < |next| && SameName(next[i].key, q[j].key, caseSensitive) ensures next[i].key == q[j].key {
        if i < |rest| {
          assert next[i] in ms;
        }
      }
    }
  }

  lemma MergedStep(base: map<string, Value>, p: map<string, Value>, k: string, v: Value, next: map<string, Value>,
                   r: map<string, Value>)
    requires k !in p && IsMerged(next, p, r)
    requires next == if v == VNull then base - {k} else base[k := Rfc7396(Entry(base, k), v)]
    ensures IsMerged(base, p[k := v], r)
  {
    forall j <- p ensures Entry(next, j) == Entry(base, j) {
    }
  }

  lemma MergeUnfolds(ms: seq<Member>, whole: Json, ps: seq<Member>, caseSensitive: bool)
    requires (forall p <- ps :: p.value < whole) && ps != []
    ensures MergeMembers(ms, whole, ps, caseSensitive)
         == MergeMembers(NextMembers(ms, ps[0], caseSensitive), whole, ps[1..], caseSensitive)
    ensures DenoteMembers(ps) == DenoteMembers(ps[1..])[ps[0].key := Denote(ps[0].value)]
  {
  }

  lemma {:induction false} MembersMerge(ms: seq<Member>, whole: Json, ps: seq<Member>, caseSensitive: bool)
    requires forall p <- ps :: p.value < whole
    requires Ready(ms, whole, ps, caseSensitive)
    ensures IsMerged(DenoteMembers(ms), DenoteMembers(ps), DenoteMembers(MergeMembers(ms, whole, ps, caseSensitive)))
    decreases whole, 0, |ps|
  {
    if ps != [] {
      var p, k, q := ps[0], ps[0].key, ps[1..];
      var next := NextMembers(ms, p, caseSensitive);
      NamedIs(ms, k, caseSensitive);
      MergeIsRfc7396(Named(ms, k, caseSensitive), p.value, caseSensitive);
      NextDenotes(ms, p, caseSensitive);
      NextReady(ms, whole, ps, caseSensitive);
      MembersMerge(next, whole, q, caseSensitive);
      MergeUnfolds(ms, whole, ps, caseSensitive);
      FirstOnly(ps, caseSensitive);
      MergedStep(DenoteMembers(ms), DenoteMembers(q), k, Denote(p.value), DenoteMembers(next),
        DenoteMembers(MergeMembers(next, whole, q, caseSensitive)));
    }
  }

  // ---------- The case-sensitive merge needs no more than keys that are not repeated ----------

  ghost predicate DistinctThroughout(j: Json) {
    match j
    case Object(ms) => Distinct(ms, true) && forall i :: 0 <= i < |ms| ==> DistinctThroughout(ms[i].value)
    case _ => true
  }

  lemma {:induction false} DistinctMergeable(target: Json, patch: Json)
    requires DistinctThroughout(target) && DistinctThroughout(patch)
    ensures Mergeable(target, patch, true)
    decreases patch
  {
    if patch.Object? {
      var ms, ps := MembersOf(target), patch.members;
      forall j | 0 <= j < |ps|
        ensures Apart(ms, ps[j].key, true) && Mergeable(Named(ms, ps[j].key, true), ps[j].value, true)
      {
        forall i | 0 <= i < |ms| && SameName(ms[i].key, ps[j].key, true) ensures ms[i].key == ps[j].key {
          SameNameExact(ms[i].key, ps[j].key);
        }
        assert DistinctThroughout(Named(ms, ps[j].key, true));
        DistinctMergeable(Named(ms, ps[j].key, true), ps[j].value);
      }
    }
  }
}
