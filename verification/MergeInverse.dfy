// Generating a merge patch from one tree to another and merging it into the first.
module MergeInverse {
  import opened CStrings
  import opened Json
  import opened JsonCompare
  import opened MergeMeaning
  import opened MergePatch
  import opened PatchDiff

  // ---------- The difference of two values ----------

  // The least merge patch: what is gone becomes null, what is new is there in full.
  ghost function Difference(a: Value, b: Value): Value
    decreases b
  {
    match b
    case VObject(bs) =>
      if !a.VObject? then b
      else
        var xs := a.members;
        VObject(map k | k in xs.Keys + bs.Keys && !(k in xs && k in bs && xs[k] == bs[k]) ::
          if k in bs then Difference(Entry(xs, k), bs[k]) else VNull)
    case _ => b
  }

  // Every null member of b is in a as it is, and what b has in place of other things has none.
  ghost predicate NullsKept(a: Value, b: Value)
    decreases b
  {
    b.VObject? ==>
      var xs := EntriesOf(a);
      forall k <- b.members :: (k in xs && xs[k] == b.members[k]) ||
        (b.members[k] != VNull && NullsKept(Entry(xs, k), b.members[k]))
  }

  ghost predicate EntryKept(xs: map<string, Value>, k: string, y: Value) {
    (k in xs && xs[k] == y) || (y != VNull && NullsKept(Entry(xs, k), y))
  }

  // Merging the difference gives b exactly when no null stands in the way.
  lemma {:induction false} DifferenceInverts(a: Value, b: Value)
    ensures Rfc7396(a, Difference(a, b)) == b <==> NullsKept(a, b)
    decreases b, 1
  {
    if b.VObject? {
      var xs, bs, r := EntriesOf(a), b.members, Rfc7396(a, Difference(a, b)).members;
      forall k <- bs ensures (k in r && r[k] == bs[k]) <==> EntryKept(xs, k, bs[k]) {
        EntryInverts(a, b, k);
      }
      forall k <- r ensures k in bs {
        EntryInverts(a, b, k);
      }
      SameMaps(r, bs);
    }
  }

  lemma SameMaps(r: map<string, Value>, bs: map<string, Value>)
    requires forall k <- r :: k in bs
    ensures r == bs <==> forall k <- bs :: k in r && r[k] == bs[k]
  {
    if forall k <- bs :: k in r && r[k] == bs[k] {
      assert r.Keys == bs.Keys;
    }
  }

  lemma {:induction false} EntryInverts(a: Value, b: Value, k: string)
    requires b.VObject?
    ensures var xs, bs, r := EntriesOf(a), b.members, Rfc7396(a, Difference(a, b)).members;
      if k in bs then (k in r && r[k] == bs[k]) <==> EntryKept(xs, k, bs[k]) else k !in r
    decreases b, 0
  {
    var xs, bs, p := EntriesOf(a), b.members, Difference(a, b).members;
    assert k in p && k in bs ==> p[k] == Difference(Entry(xs, k), bs[k]);
    if k in bs && !(k in xs && xs[k] == bs[k]) {
      DifferenceInverts(Entry(xs, k), bs[k]);
    }
  }

  // ---------- What the walk generates ----------

  // Two names that folding tells apart come in the order that strcmp() gives them.
  ghost predicate OrdersAgree(j: string, k: string) {
    !SameName(j, k, false) ==> (Before(j, k, false) <==> Before(j, k, true))
  }

  ghost predicate KeyOrdersAgree(keys: set<string>) {
    forall j, k :: j in keys && k in keys ==> OrdersAgree(j, k)
  }

  // No two names are the same but for letter case.
  ghost predicate KeysDiffer(keys: set<string>) {
    forall j, k :: j in keys && k in keys && SameName(j, k, false) ==> j == k
  }

  ghost function KeysOf(ms: seq<Member>): set<string> {
    set m <- ms :: m.key
  }

  // Wherever the generator ignores letter case, it makes no difference: it sorts the keys of the two
  // objects as strcmp() does, and takes no two values for the same that are not.
  ghost predicate SameOrder(from: Json, to: Json, caseSensitive: bool)
    decreases from
  {
    from.Object? && to.Object? ==>
      && (!caseSensitive ==> KeyOrdersAgree(KeysOf(from.members) + KeysOf(to.members)))
      && forall i, j :: 0 <= i < |from.members| && 0 <= j < |to.members| && from.members[i].key == to.members[j].key ==>
           var x, y := from.members[i].value, to.members[j].value;
           SameOrder(x, y, false) && (caseSensitive || CaseCompatible(x, y))
  }

  // p is the difference of the two sets of entries.
  ghost predicate IsDifference(xs: map<string, Value>, bs: map<string, Value>, p: map<string, Value>) {
    && (forall k :: k in p <==> k in xs.Keys + bs.Keys && !(k in xs && k in bs && xs[k] == bs[k]))
    && forall k <- p :: p[k] == if k in bs then Difference(Entry(xs, k), bs[k]) else VNull
  }

  lemma DifferenceIs(xs: map<string, Value>, bs: map<string, Value>, p: map<string, Value>)
    requires IsDifference(xs, bs, p)
    ensures Difference(VObject(xs), VObject(bs)) == VObject(p)
    ensures p == map[] <==> xs == bs
  {
    assert Difference(VObject(xs), VObject(bs)).members == p;
    if p == map[] {
      assert xs.Keys == bs.Keys;
    }
  }

  lemma DifferenceGone(xs: map<string, Value>, bs: map<string, Value>, p: map<string, Value>, k: string, x: Value)
    requires IsDifference(xs, bs, p) && k !in xs && k !in bs
    ensures IsDifference(xs[k := x], bs, p[k := VNull])
  {
    assert forall j <- p :: Entry(xs[k := x], j) == Entry(xs, j);
  }

  lemma DifferenceNew(xs: map<string, Value>, bs: map<string, Value>, p: map<string, Value>, k: string, y: Value)
    requires IsDifference(xs, bs, p) && k !in xs && k !in bs
    ensures IsDifference(xs, bs[k := y], p[k := y])
  {
    assert Difference(VNull, y) == y;
  }

  lemma DifferenceCommon(xs: map<string, Value>, bs: map<string, Value>, p: map<string, Value>, k: string, x: Value, y: Value)
    requires IsDifference(xs, bs, p) && k !in xs && k !in bs
    ensures IsDifference(xs[k := x], bs[k := y], if x == y then p else p[k := Difference(x, y)])
  {
    assert forall j <- p :: Entry(xs[k := x], j) == Entry(xs, j);
  }

  // Two member lists that the walk can take in step.
  ghost predicate Walkable(fs: seq<Member>, ts: seq<Member>, caseSensitive: bool) {
    && Ascending(fs, true) && Ascending(ts, true) && UniqueKeys(fs) && UniqueKeys(ts)
    && (forall f <- fs :: WellFormed(f.value))
    && (forall t <- ts :: WellFormed(t.value))
    && forall f <- fs, t <- ts :: f.key == t.key ==>
         && SameOrder(f.value, t.value, false)
         && (caseSensitive || CaseCompatible(f.value, t.value))
  }

  lemma WalkableTails(fs: seq<Member>, ts: seq<Member>, caseSensitive: bool)
    requires Walkable(fs, ts, caseSensitive)
    ensures fs != [] ==> Walkable(fs[1..], ts, caseSensitive)
    ensures ts != [] ==> Walkable(fs, ts[1..], caseSensitive)
    ensures fs != [] && ts != [] ==> Walkable(fs[1..], ts[1..], caseSensitive)
  {
    if fs != [] {
      AscendingTail(fs, true);
    }
    if ts != [] {
      AscendingTail(ts, true);
    }
  }

  // A first key that comes before everything in the other list.
  lemma FirstIsNew(fs: seq<Member>, ts: seq<Member>)
    requires Ascending(fs, true) && Ascending(ts, true) && UniqueKeys(fs) && UniqueKeys(ts) && fs != []
    requires ts != [] ==> Before(fs[0].key, ts[0].key, true)
    ensures fs[0].key !in DenoteMembers(fs[1..]) && fs[0].key !in DenoteMembers(ts)
    ensures DenoteMembers(fs) == DenoteMembers(fs[1..])[fs[0].key := Denote(fs[0].value)]
  {
    AscendingTail(fs, true);
    BelowAll(fs[0].key, ts, true);
  }

  lemma ConsDenotes(m: Member, r: seq<Member>)
    ensures DenoteMembers([m] + r) == DenoteMembers(r)[m.key := Denote(m.value)]
  {
    assert ([m] + r)[1..] == r;
  }

  // The patch is the difference, and there is none exactly when two objects are equal.
  lemma {:induction false} GenerateDenotes(from: Json, to: Json, caseSensitive: bool)
    requires WellFormed(from) && WellFormed(to) && SameOrder(from, to, caseSensitive)
    ensures Generate(from, to, caseSensitive) == None <==> from.Object? && to.Object? && Denote(from) == Denote(to)
    ensures Generate(from, to, caseSensitive).Some? ==>
      Denote(Generate(from, to, caseSensitive).value) == Difference(Denote(from), Denote(to))
    decreases from, 1, 0
  {
    if from.Object? && to.Object? {
      var fs, ts := SortedMembers(from, caseSensitive), SortedMembers(to, caseSensitive);
      StartMerge(from, to, caseSensitive);
      MembersDiffer(from, fs, ts, caseSensitive);
      var r := GenerateMembers(from, fs, ts, caseSensitive);
      DifferenceIs(DenoteMembers(fs), DenoteMembers(ts), DenoteMembers(r));
      assert r != [] ==> r[0].key in DenoteMembers(r);
    }
  }

  lemma {:induction false} MembersDiffer(whole: Json, fs: seq<Member>, ts: seq<Member>, caseSensitive: bool)
    requires (forall f <- fs :: f.value < whole) && Walkable(fs, ts, caseSensitive)
    ensures IsDifference(DenoteMembers(fs), DenoteMembers(ts), DenoteMembers(GenerateMembers(whole, fs, ts, caseSensitive)))
    decreases whole, 0, |fs| + |ts|
  {
    if fs != [] || ts != [] {
      var diff := KeyOrder(fs, ts, true);
      WalkableTails(fs, ts, caseSensitive);
      if diff < 0 {
        var f, r := fs[0], GenerateMembers(whole, fs[1..], ts, caseSensitive);
        MembersDiffer(whole, fs[1..], ts, caseSensitive);
        FirstIsNew(fs, ts);
        DifferenceGone(DenoteMembers(fs[1..]), DenoteMembers(ts), DenoteMembers(r), f.key, Denote(f.value));
        ConsDenotes(Member(f.key, Null), r);
      } else if diff > 0 {
        var t, r := ts[0], GenerateMembers(whole, fs, ts[1..], caseSensitive);
        MembersDiffer(whole, fs, ts[1..], caseSensitive);
        LaterKey(fs, ts);
        FirstIsNew(ts, fs);
        DifferenceNew(DenoteMembers(fs), DenoteMembers(ts[1..]), DenoteMembers(r), t.key, Denote(t.value));
        ConsDenotes(t, r);
      } else {
        CommonDiffers(whole, fs, ts, caseSensitive);
      }
    }
  }

  lemma LaterKey(fs: seq<Member>, ts: seq<Member>)
    requires (fs != [] || ts != []) && KeyOrder(fs, ts, true) > 0
    ensures ts != [] && (fs != [] ==> Before(ts[0].key, fs[0].key, true))
  {
    if fs != [] {
      CompareFlip(ts[0].key, fs[0].key, true);
    }
  }

  lemma {:induction false} CommonDiffers(whole: Json, fs: seq<Member>, ts: seq<Member>, caseSensitive: bool)
    requires (forall f <- fs :: f.value < whole) && Walkable(fs, ts, caseSensitive)
    requires fs != [] && ts != [] && KeyOrder(fs, ts, true) == 0
    ensures IsDifference(DenoteMembers(fs), DenoteMembers(ts), DenoteMembers(GenerateMembers(whole, fs, ts, caseSensitive)))
    decreases whole, 0, |fs| + |ts| - 1
  {
    var f, t, r := fs[0], ts[0], GenerateMembers(whole, fs[1..], ts[1..], caseSensitive);
    WalkableTails(fs, ts, caseSensitive);
    MembersDiffer(whole, fs[1..], ts[1..], caseSensitive);
    CompareExact(f.key, t.key);
    assert f in fs && t in ts;
    CommonPatch(f, t, caseSensitive);
    AddCommon(fs, ts, GenerateCommon(f, t, caseSensitive), r);
  }

  lemma AddCommon(fs: seq<Member>, ts: seq<Member>, common: seq<Member>, r: seq<Member>)
    requires Ascending(fs, true) && Ascending(ts, true) && UniqueKeys(fs) && UniqueKeys(ts)
    requires fs != [] && ts != [] && fs[0].key == ts[0].key
    requires IsDifference(DenoteMembers(fs[1..]), DenoteMembers(ts[1..]), DenoteMembers(r))
    requires IsCommonPatch(fs[0], ts[0], common)
    ensures IsDifference(DenoteMembers(fs), DenoteMembers(ts), DenoteMembers(common + r))
  {
    var f, t := fs[0], ts[0];
    AscendingTail(fs, true);
    AscendingTail(ts, true);
    DifferenceCommon(DenoteMembers(fs[1..]), DenoteMembers(ts[1..]), DenoteMembers(r), f.key, Denote(f.value), Denote(t.value));
    if common == [] {
      assert [] + r == r;
    } else {
      ConsDenotes(common[0], r);
    }
  }

  // No patch when the values are equal, and the one for their difference otherwise.
  ghost predicate IsCommonPatch(f: Member, t: Member, common: seq<Member>) {
    if Denote(f.value) == Denote(t.value) then common == []
    else
      && |common| == 1 && common == [common[0]] && common[0].key == t.key
      && Denote(common[0].value) == Difference(Denote(f.value), Denote(t.value))
  }

  lemma {:induction false} CommonPatch(f: Member, t: Member, caseSensitive: bool)
    requires WellFormed(f.value) && WellFormed(t.value) && SameOrder(f.value, t.value, false)
    requires caseSensitive || CaseCompatible(f.value, t.value)
    ensures IsCommonPatch(f, t, GenerateCommon(f, t, caseSensitive))
    decreases f.value, 2, 0
  {
    WellFormedExactly(f.value);
    WellFormedExactly(t.value);
    CompareAgrees(f.value, t.value, caseSensitive);
    GenerateDenotes(f.value, t.value, false);
  }

  // Sorting prepares the walk: by strcmp(), or in an order that comes to the same.
  lemma StartMerge(from: Json, to: Json, caseSensitive: bool)
    requires from.Object? && to.Object? && WellFormed(from) && WellFormed(to) && SameOrder(from, to, caseSensitive)
    ensures var fs, ts := SortedMembers(from, caseSensitive), SortedMembers(to, caseSensitive);
      && Walkable(fs, ts, caseSensitive)
      && DenoteMembers(fs) == DenoteMembers(from.members) && DenoteMembers(ts) == DenoteMembers(to.members)
  {
    var keys := KeysOf(from.members) + KeysOf(to.members);
    StartList(from, keys, caseSensitive);
    StartList(to, keys, caseSensitive);
    forall f <- from.members, t <- to.members | f.key == t.key
      ensures SameOrder(f.value, t.value, false) && (caseSensitive || CaseCompatible(f.value, t.value))
    {
      var i :| 0 <= i < |from.members| && from.members[i] == f;
      var j :| 0 <= j < |to.members| && to.members[j] == t;
    }
  }

  lemma StartList(o: Json, keys: set<string>, caseSensitive: bool)
    requires o.Object? && WellFormed(o) && (caseSensitive || (KeyOrdersAgree(keys) && KeysOf(o.members) <= keys))
    ensures var ms := SortedMembers(o, caseSensitive);
      && Ascending(ms, true) && UniqueKeys(ms) && DenoteMembers(ms) == DenoteMembers(o.members)
      && forall m <- ms :: m in o.members && WellFormed(m.value)
  {
    var ms := SortedMembers(o, caseSensitive);
    SortedDenotes(o, caseSensitive);
    forall m <- ms ensures WellFormed(m.value) {
      var i :| 0 <= i < |o.members| && o.members[i] == m;
    }
    if !caseSensitive {
      assert forall m <- ms :: m.key in KeysOf(o.members);
      ExactOrder(ms, keys);
    }
  }

  lemma ExactOrder(ms: seq<Member>, keys: set<string>)
    requires Ascending(ms, false) && KeyOrdersAgree(keys) && forall m <- ms :: m.key in keys
    ensures Ascending(ms, true)
  {
    forall i, j | 0 <= i < j < |ms| ensures Before(ms[i].key, ms[j].key, true) {
      assert ms[i] in ms && ms[j] in ms;
      CompareZero(ms[i].key, ms[j].key, false);
    }
  }

  // ---------- The generated patch does not confuse the lookups of the merge ----------

  lemma UniqueDistinct(ms: seq<Member>, caseSensitive: bool)
    requires UniqueKeys(ms)
    ensures Distinct(ms, caseSensitive)
  {
    forall i, j | 0 <= i < j < |ms| ensures !SameName(ms[i].key, ms[j].key, caseSensitive) {
      SameNameExact(ms[i].key, ms[j].key);
    }
  }

  lemma {:induction false} FreshMergeable(target: Json, patch: Json, caseSensitive: bool)
    requires WellFormed(patch) && !target.Object?
    ensures Mergeable(target, patch, caseSensitive)
    decreases patch
  {
    if patch.Object? {
      var ps := patch.members;
      UniqueDistinct(ps, caseSensitive);
      forall j | 0 <= j < |ps|
        ensures Apart([], ps[j].key, caseSensitive) && Mergeable(Named([], ps[j].key, true), ps[j].value, caseSensitive)
      {
        FreshMergeable(Null, ps[j].value, caseSensitive);
      }
    }
  }

  // Where a member of the patch comes from: a key that is gone, one that is new, or one that
  // both objects have with different values.
  ghost predicate Origin(p: Member, fs: seq<Member>, ts: seq<Member>) {
    || p.value.Null?
    || (p in ts && forall f <- fs :: f.key != p.key)
    || exists f, t :: f in fs && t in ts && Both(f, t, p)
  }

  ghost predicate Both(f: Member, t: Member, p: Member) {
    f.key == t.key == p.key && Generate(f.value, t.value, false) == Some(p.value)
  }

  ghost predicate Origins(r: seq<Member>, fs: seq<Member>, ts: seq<Member>) {
    && Ascending(r, true)
    && forall p <- r :: Origin(p, fs, ts) && p.key in KeysOf(fs) + KeysOf(ts)
  }

  lemma {:induction false} WalkOrigins(whole: Json, fs: seq<Member>, ts: seq<Member>, caseSensitive: bool)
    requires (forall f <- fs :: f.value < whole) && Ascending(fs, true) && Ascending(ts, true)
    requires UniqueKeys(fs) && UniqueKeys(ts)
    ensures Origins(GenerateMembers(whole, fs, ts, caseSensitive), fs, ts)
    decreases |fs| + |ts|
  {
    if fs != [] || ts != [] {
      var diff := KeyOrder(fs, ts, true);
      if fs != [] {
        AscendingTail(fs, true);
      }
      if ts != [] {
        AscendingTail(ts, true);
      }
      if diff < 0 {
        WalkOrigins(whole, fs[1..], ts, caseSensitive);
        GoneOrigins(GenerateMembers(whole, fs[1..], ts, caseSensitive), fs, ts);
      } else if diff > 0 {
        WalkOrigins(whole, fs, ts[1..], caseSensitive);
        LaterKey(fs, ts);
        NewOrigins(GenerateMembers(whole, fs, ts[1..], caseSensitive), fs, ts);
      } else {
        WalkOrigins(whole, fs[1..], ts[1..], caseSensitive);
        CommonOrigins(GenerateMembers(whole, fs[1..], ts[1..], caseSensitive), fs, ts, caseSensitive);
      }
    }
  }

  lemma GoneOrigins(r: seq<Member>, fs: seq<Member>, ts: seq<Member>)
    requires Ascending(fs, true) && Ascending(ts, true) && fs != [] && Origins(r, fs[1..], ts)
    requires ts != [] ==> Before(fs[0].key, ts[0].key, true)
    ensures Origins([Member(fs[0].key, Null)] + r, fs, ts)
  {
    BelowAll(fs[0].key, ts, true);
    FirstBelow(fs);
    MoreOrigins([Member(fs[0].key, Null)], r, fs, ts, fs[1..], ts);
  }

  lemma NewOrigins(r: seq<Member>, fs: seq<Member>, ts: seq<Member>)
    requires Ascending(fs, true) && Ascending(ts, true) && ts != [] && Origins(r, fs, ts[1..])
    requires fs != [] ==> Before(ts[0].key, fs[0].key, true)
    ensures Origins([ts[0]] + r, fs, ts)
  {
    BelowAll(ts[0].key, fs, true);
    FirstBelow(ts);
    MoreOrigins([ts[0]], r, fs, ts, fs, ts[1..]);
  }

  lemma CommonOrigins(r: seq<Member>, fs: seq<Member>, ts: seq<Member>, caseSensitive: bool)
    requires Ascending(fs, true) && Ascending(ts, true) && fs != [] && ts != [] && Origins(r, fs[1..], ts[1..])
    requires KeyOrder(fs, ts, true) == 0
    ensures Origins(GenerateCommon(fs[0], ts[0], caseSensitive) + r, fs, ts)
  {
    CompareExact(fs[0].key, ts[0].key);
    FirstBelow(fs);
    FirstBelow(ts);
    var common := GenerateCommon(fs[0], ts[0], caseSensitive);
    assert common != [] ==> Both(fs[0], ts[0], common[0]);
    MoreOrigins(common, r, fs, ts, fs[1..], ts[1..]);
  }

  lemma FirstBelow(ms: seq<Member>)
    requires Ascending(ms, true) && ms != []
    ensures forall m <- ms[1..] :: Before(ms[0].key, m.key, true) && m.key != ms[0].key
  {
    assert forall i :: 0 <= i < |ms| - 1 ==> ms[1..][i] == ms[i + 1];
    BelowAll(ms[0].key, ms[1..], true);
  }

  // One step of the walk puts at most one member in front of those from the rest of the lists.
  lemma MoreOrigins(head: seq<Member>, r: seq<Member>, fs: seq<Member>, ts: seq<Member>, gs: seq<Member>, us: seq<Member>)
    requires Origins(r, gs, us)
    requires gs == fs || (fs != [] && gs == fs[1..] && forall u <- us :: u.key != fs[0].key)
    requires us == ts || (ts != [] && us == ts[1..])
    requires |head| <= 1 && forall h <- head :: Origin(h, fs, ts) && h.key in KeysOf(fs) + KeysOf(ts)
    requires forall h <- head :: (forall g <- gs :: Before(h.key, g.key, true)) && forall u <- us :: Before(h.key, u.key, true)
    ensures Origins(head + r, fs, ts)
  {
    assert (forall g <- gs :: g in fs) && forall u <- us :: u in ts;
    forall p <- r ensures Origin(p, fs, ts) && p.key in KeysOf(fs) + KeysOf(ts) {
      OriginMore(p, fs, ts, gs, us);
    }
    var s := head + r;
    forall i, j | 0 <= i < j < |s| ensures Before(s[i].key, s[j].key, true) {
      if i < |head| {
        assert s[j] == r[j - |head|] && s[j] in r && head[0] in head;
      } else {
        assert s[i] == r[i - |head|] && s[j] == r[j - |head|];
      }
    }
  }

  lemma OriginMore(p: Member, fs: seq<Member>, ts: seq<Member>, gs: seq<Member>, us: seq<Member>)
    requires Origin(p, gs, us)
    requires gs == fs || (fs != [] && gs == fs[1..] && forall u <- us :: u.key != fs[0].key)
    requires (forall g <- gs :: g in fs) && forall u <- us :: u in ts
    ensures Origin(p, fs, ts)
  {
    if f, t :| f in gs && t in us && Both(f, t, p) {
      assert f in fs && t in ts;
    } else if p in us && forall g <- gs :: g.key != p.key {
      assert forall f <- fs :: f.key != p.key;
    }
  }

  lemma {:induction false} GenerateMergeable(from: Json, to: Json, generated: bool, caseSensitive: bool)
    requires WellFormed(from) && WellFormed(to) && SameOrder(from, to, generated)
    requires caseSensitive || CaseCompatible(from, to)
    ensures var patch := Generate(from, to, generated);
      patch.Some? ==> Mergeable(from, patch.value, caseSensitive)
    decreases from, 2
  {
    if !from.Object? || !to.Object? {
      if to.Object? {
        FreshMergeable(from, to, caseSensitive);
      }
    } else {
      var fs, ts := SortedMembers(from, generated), SortedMembers(to, generated);
      var r := GenerateMembers(from, fs, ts, generated);
      SortedDenotes(from, generated);
      SortedDenotes(to, generated);
      StartMerge(from, to, generated);
      WalkOrigins(from, fs, ts, generated);
      PatchKeys(from, to, r, caseSensitive);
      forall j | 0 <= j < |r| ensures Mergeable(Named(from.members, r[j].key, true), r[j].value, caseSensitive) {
        assert r[j] in r;
        assert Origin(r[j], from.members, to.members);
        MemberMergeable(from, to, r[j], generated, caseSensitive);
      }
    }
  }

  lemma {:induction false} MemberMergeable(from: Json, to: Json, p: Member, generated: bool, caseSensitive: bool)
    requires WellFormed(from) && WellFormed(to) && SameOrder(from, to, generated)
    requires caseSensitive || CaseCompatible(from, to)
    requires from.Object? && to.Object? && Origin(p, from.members, to.members)
    ensures Mergeable(Named(from.members, p.key, true), p.value, caseSensitive)
    decreases from, 1
  {
    if f, t :| f in from.members && t in to.members && Both(f, t, p) {
      CommonMergeable(from, to, f, t, p, generated, caseSensitive);
    } else if !p.value.Null? {
      NotThere(from.members, p.key);
      var j :| 0 <= j < |to.members| && to.members[j] == p;
      FreshMergeable(Null, p.value, caseSensitive);
    }
  }

  lemma {:induction false} CommonMergeable(from: Json, to: Json, f: Member, t: Member, p: Member, generated: bool, caseSensitive: bool)
    requires WellFormed(from) && WellFormed(to) && SameOrder(from, to, generated) && from.Object? && to.Object?
    requires caseSensitive || CaseCompatible(from, to)
    requires f in from.members && t in to.members && Both(f, t, p)
    ensures Mergeable(Named(from.members, p.key, true), p.value, caseSensitive)
    decreases from, 0
  {
    var i :| 0 <= i < |from.members| && from.members[i] == f;
    var j :| 0 <= j < |to.members| && to.members[j] == t;
    FindUnique(from.members, i, true);
    SameNameExact(f.key, t.key);
    GenerateMergeable(f.value, t.value, false, caseSensitive);
  }

  lemma NotThere(ms: seq<Member>, k: string)
    requires forall m <- ms :: m.key != k
    ensures Named(ms, k, true) == Null
  {
    FindNameFirst(ms, k, true);
    var i := FindName(ms, k, true);
    if i < |ms| {
      SameNameExact(ms[i].key, k);
      assert ms[i] in ms;
    }
  }

  lemma PatchKeys(from: Json, to: Json, r: seq<Member>, caseSensitive: bool)
    requires from.Object? && to.Object? && WellFormed(from) && WellFormed(to) && (caseSensitive || CaseCompatible(from, to))
    requires Ascending(r, true) && forall p <- r :: p.key in KeysOf(from.members) + KeysOf(to.members)
    ensures Distinct(from.members, true) && Distinct(r, caseSensitive)
    ensures forall j :: 0 <= j < |r| ==> Apart(from.members, r[j].key, caseSensitive)
  {
    var keys := KeysOf(from.members) + KeysOf(to.members);
    UniqueDistinct(from.members, true);
    forall j: string, k: string | j in keys && k in keys && SameName(j, k, caseSensitive) ensures j == k {
      SameNameExact(j, k);
      if !caseSensitive {
        CompatibleKeys(from, to, j, k);
      }
    }
    forall i, j | 0 <= i < j < |r| ensures !SameName(r[i].key, r[j].key, caseSensitive) {
      assert r[i] in r && r[j] in r;
      CompareExact(r[i].key, r[j].key);
    }
    forall j | 0 <= j < |r| ensures Apart(from.members, r[j].key, caseSensitive) {
      assert r[j] in r;
    }
  }

  lemma CompatibleKeys(from: Json, to: Json, j: string, k: string)
    requires from.Object? && to.Object? && UniqueKeys(from.members) && UniqueKeys(to.members) && CaseCompatible(from, to)
    requires j in KeysOf(from.members) + KeysOf(to.members) && k in KeysOf(from.members) + KeysOf(to.members)
    requires SameName(j, k, false)
    ensures j == k
  {
    var ms, ns := from.members, to.members;
    if m, n :| m in ms && n in ms && m.key == j && n.key == k {
      UniqueTold(ms, m, n);
    } else if m, n :| m in ns && n in ns && m.key == j && n.key == k {
      UniqueTold(ns, m, n);
    } else if m, n :| m in ms && n in ns && m.key == j && n.key == k {
    } else if m, n :| m in ns && n in ms && m.key == j && n.key == k {
    }
  }

  lemma UniqueTold(ms: seq<Member>, m: Member, n: Member)
    requires UniqueKeys(ms) && m in ms && n in ms && SameName(m.key, n.key, false)
    ensures m == n
  {
    var i :| 0 <= i < |ms| && ms[i] == m;
    var j :| 0 <= j < |ms| && ms[j] == n;
    assert i == j;
  }

  // ---------- The inverse ----------

  // A patch is generated unless two objects are equal, and merging it into a duplicate of the first tree
  // gives the second exactly when no null of the second stands in the way.
  lemma MergeInverts(from: Json, to: Json, caseSensitive: bool)
    requires WellFormed(from) && WellFormed(to) && SameOrder(from, to, caseSensitive)
    requires caseSensitive || CaseCompatible(from, to)
    ensures var patch := Generate(from, to, caseSensitive);
      && (patch == None <==> from.Object? && to.Object? && Denote(from) == Denote(to))
      && (patch.Some? ==>
            (Denote(Merge(from, patch.value, caseSensitive)) == Denote(to) <==> NullsKept(Denote(from), Denote(to))))
  {
    GenerateDenotes(from, to, caseSensitive);
    var patch := Generate(from, to, caseSensitive);
    if patch.Some? {
      GenerateMergeable(from, to, caseSensitive, caseSensitive);
      MergeIsRfc7396(from, patch.value, caseSensitive);
      DifferenceInverts(Denote(from), Denote(to));
    }
  }
}
