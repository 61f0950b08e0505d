// Diff, then patch, reaches the goal.
module PatchReach {
  import opened CStrings
  import opened Json
  import opened JsonCompare
  import opened JsonPatch
  import opened PatchDiff
  import opened Pointer
  import opened PointerText
  import opened Seqs

  // The two values are exchanged as a whole.
  ghost predicate Replaced(from: Json, to: Json) {
    !(from.Array? && to.Array?) && !(from.Object? && to.Object?) && from != to
  }

  ghost predicate HasKey(ms: seq<Member>, k: string) {
    exists i :: 0 <= i < |ms| && ms[i].key == k
  }

  // Where two objects meet, keys of the one and of the other do not differ in letter case
  // only, and a key that a patch names last comes back from its encoded form.
  ghost predicate Diffable(from: Json, to: Json)
    decreases from
  {
    match (from, to)
    case (Array(fs), Array(ts)) => forall i :: 0 <= i < |fs| && i < |ts| ==> Diffable(fs[i], ts[i])
    case (Object(fs), Object(ts)) =>
      && (forall i, j :: 0 <= i < |fs| && 0 <= j < |ts| && SameName(fs[i].key, ts[j].key, false) ==>
            fs[i].key == ts[j].key)
      && (forall i :: 0 <= i < |fs| && !HasKey(ts, fs[i].key) ==> SurvivesPointer(fs[i].key))
      && (forall j :: 0 <= j < |ts| && !HasKey(fs, ts[j].key) ==> SurvivesPointer(ts[j].key))
      && (forall i, j :: 0 <= i < |fs| && 0 <= j < |ts| && fs[i].key == ts[j].key ==>
            && Diffable(fs[i].value, ts[j].value)
            && (Replaced(fs[i].value, ts[j].value) ==> SurvivesPointer(fs[i].key)))
    case _ => true
  }

  lemma LeadsOn(doc: Json, a: seq<Json>, x: Value, b: seq<Json>, y: Value)
    requires LeadsTo(doc, a, x) && LeadsTo(ApplyAll(doc, a, true).doc, b, y)
    ensures LeadsTo(doc, a + b, y)
  {
    ApplyConcat(doc, a, b);
  }

  lemma SetBelow(x: Value, up: seq<string>, t: string, y: Value)
    requires Get(x, up).Some? && Step(Get(x, up).value, t).Some?
    ensures Get(x, up + [t]) == Step(Get(x, up).value, t)
    ensures Set(x, up + [t], y) == Set(x, up, SetChild(Get(x, up).value, t, y))
  {
    GetAppend(x, up, t);
    SetAppend(x, up, t, y);
  }

  lemma ChildPath(up: seq<string>, t: string)
    ensures Render(up + [t]) == Render(up) + "/" + Encode(t)
    ensures (up + [t])[|up + [t]| - 1] == t
  {
    SplitPath(up, t);
  }

  // ---------- The state of the walk over two member lists ----------

  // No two of the keys differ in letter case only.
  ghost predicate OneSpelling(keys: set<string>) {
    forall a, b :: a in keys && b in keys && SameName(a, b, false) ==> a == b
  }

  // fs and ts are what is left of the sorted members of the objects that denote from and to;
  // m is what the document holds by now.
  ghost predicate Walk(fs: seq<Member>, ts: seq<Member>, m: map<string, Value>,
                       from: map<string, Value>, to: map<string, Value>) {
    && Ascending(fs, true) && Ascending(ts, true) && UniqueKeys(fs) && UniqueKeys(ts)
    && m.Keys <= from.Keys + to.Keys && OneSpelling(from.Keys + to.Keys)
    && (forall f <- fs :: LeftFrom(f, ts, m, from, to))
    && (forall t <- ts :: LeftTo(t, fs, m, from, to))
    && (forall f <- fs, t <- ts :: f.key == t.key ==>
          Diffable(f.value, t.value) && (Replaced(f.value, t.value) ==> SurvivesPointer(f.key)))
  }

  ghost predicate LeftFrom(f: Member, ts: seq<Member>, m: map<string, Value>,
                           from: map<string, Value>, to: map<string, Value>) {
    && NulFree(f.key) && WellFormed(f.value)
    && f.key in m && m[f.key] == Denote(f.value) && f.key in from
    && (f.key in to <==> f.key in DenoteMembers(ts))
    && (f.key !in to ==> SurvivesPointer(f.key))
  }

  ghost predicate LeftTo(t: Member, fs: seq<Member>, m: map<string, Value>,
                         from: map<string, Value>, to: map<string, Value>) {
    && NulFree(t.key) && WellFormed(t.value) && t.key in to
    && (t.key in from <==> t.key in DenoteMembers(fs))
    && (t.key in m ==> t.key in DenoteMembers(fs))
    && (t.key !in from ==> SurvivesPointer(t.key))
  }

  // What the walk makes of m, when a and b are the maps of what is left.
  ghost function Target(m: map<string, Value>, a: map<string, Value>, b: map<string, Value>): map<string, Value> {
    (m - a.Keys) + b
  }

  lemma TargetSteps(m: map<string, Value>, a: map<string, Value>, b: map<string, Value>, k: string, x: Value, y: Value)
    requires k !in a && k !in b
    ensures Target(m[k := y], a, b) == Target(m, a[k := x], b[k := y])
    ensures Target(m - {k}, a, b) == Target(m, a[k := x], b)
    ensures Target(m[k := y], a, b) == Target(m, a, b[k := y])
  {
    TargetBoth(m, a, b, k, x, y);
    TargetGone(m, a, b, k, x);
    TargetNew(m, a, b, k, y);
  }

  lemma TargetBoth(m: map<string, Value>, a: map<string, Value>, b: map<string, Value>, k: string, x: Value, y: Value)
    requires k !in a && k !in b
    ensures Target(m[k := y], a, b) == Target(m, a[k := x], b[k := y])
  {
  }

  lemma TargetGone(m: map<string, Value>, a: map<string, Value>, b: map<string, Value>, k: string, x: Value)
    requires k !in a && k !in b
    ensures Target(m - {k}, a, b) == Target(m, a[k := x], b)
  {
  }

  lemma TargetNew(m: map<string, Value>, a: map<string, Value>, b: map<string, Value>, k: string, y: Value)
    requires k !in a && k !in b
    ensures Target(m[k := y], a, b) == Target(m, a, b[k := y])
  {
  }

  lemma InMap(ms: seq<Member>)
    requires UniqueKeys(ms)
    ensures forall f <- ms :: f.key in DenoteMembers(ms) && DenoteMembers(ms)[f.key] == Denote(f.value)
  {
    MembersMap(ms);
  }

  lemma TailMembers(ms: seq<Member>)
    requires ms != []
    ensures ms[0] in ms && forall f <- ms[1..] :: f in ms
  {
  }

  // The key leaves both lists: the document has taken over the new value.
  lemma WalkBoth(fs: seq<Member>, ts: seq<Member>, m: map<string, Value>,
                 from: map<string, Value>, to: map<string, Value>)
    requires Walk(fs, ts, m, from, to) && fs != [] && ts != [] && fs[0].key == ts[0].key
    ensures var m' := m[fs[0].key := Denote(ts[0].value)];
      && Walk(fs[1..], ts[1..], m', from, to)
      && Target(m', DenoteMembers(fs[1..]), DenoteMembers(ts[1..])) == Target(m, DenoteMembers(fs), DenoteMembers(ts))
  {
    var k, m' := fs[0].key, m[fs[0].key := Denote(ts[0].value)];
    AscendingTail(fs, true);
    AscendingTail(ts, true);
    TailMembers(fs);
    TailMembers(ts);
    InMap(fs[1..]);
    InMap(ts[1..]);
    forall f | f in fs[1..] ensures LeftFrom(f, ts[1..], m', from, to) {
      assert LeftFrom(f, ts, m, from, to);
    }
    forall t | t in ts[1..] ensures LeftTo(t, fs[1..], m', from, to) {
      assert LeftTo(t, fs, m, from, to);
    }
    assert LeftFrom(fs[0], ts, m, from, to);
    TargetSteps(m, DenoteMembers(fs[1..]), DenoteMembers(ts[1..]), k, Denote(fs[0].value), Denote(ts[0].value));
  }

  // A key that only the first object has leaves the document.
  lemma WalkFrom(fs: seq<Member>, ts: seq<Member>, m: map<string, Value>,
                 from: map<string, Value>, to: map<string, Value>)
    requires Walk(fs, ts, m, from, to) && fs != [] && (ts != [] ==> Before(fs[0].key, ts[0].key, true))
    ensures fs[0].key !in to && SurvivesPointer(fs[0].key)
    ensures var m' := m - {fs[0].key};
      && Walk(fs[1..], ts, m', from, to)
      && Target(m', DenoteMembers(fs[1..]), DenoteMembers(ts)) == Target(m, DenoteMembers(fs), DenoteMembers(ts))
  {
    var k, m' := fs[0].key, m - {fs[0].key};
    AscendingTail(fs, true);
    TailMembers(fs);
    BelowAll(k, ts, true);
    assert LeftFrom(fs[0], ts, m, from, to);
    InMap(fs[1..]);
    forall f | f in fs[1..] ensures LeftFrom(f, ts, m', from, to) {
      assert LeftFrom(f, ts, m, from, to);
    }
    forall t | t in ts ensures LeftTo(t, fs[1..], m', from, to) {
      assert LeftTo(t, fs, m, from, to);
    }
    TargetSteps(m, DenoteMembers(fs[1..]), DenoteMembers(ts), k, Denote(fs[0].value), VNull);
  }

  // A key that only the second object has is added.
  lemma WalkTo(fs: seq<Member>, ts: seq<Member>, m: map<string, Value>,
               from: map<string, Value>, to: map<string, Value>)
    requires Walk(fs, ts, m, from, to) && ts != [] && (fs != [] ==> Before(ts[0].key, fs[0].key, true))
    ensures ts[0].key !in m && SurvivesPointer(ts[0].key) && CaseClear(VObject(m), ts[0].key)
    ensures var m' := m[ts[0].key := Denote(ts[0].value)];
      && Walk(fs, ts[1..], m', from, to)
      && Target(m', DenoteMembers(fs), DenoteMembers(ts[1..])) == Target(m, DenoteMembers(fs), DenoteMembers(ts))
  {
    var k, m' := ts[0].key, m[ts[0].key := Denote(ts[0].value)];
    AscendingTail(ts, true);
    TailMembers(ts);
    BelowAll(k, fs, true);
    assert LeftTo(ts[0], fs, m, from, to);
    InMap(ts[1..]);
    forall f | f in fs ensures LeftFrom(f, ts[1..], m', from, to) {
      assert LeftFrom(f, ts, m, from, to);
    }
    forall t | t in ts[1..] ensures LeftTo(t, fs, m', from, to) {
      assert LeftTo(t, fs, m, from, to);
    }
    TargetSteps(m, DenoteMembers(fs), DenoteMembers(ts[1..]), k, VNull, Denote(ts[0].value));
  }

  // ---------- Main results ----------

  // Wherever a tree hangs in a document, its patches turn it into the other tree and leave
  // the rest of the document alone.
  lemma {:induction false} DiffReaches(doc: Json, path: seq<string>, from: Json, to: Json)
    requires WellFormed(doc) && WellFormed(from) && WellFormed(to) && Diffable(from, to)
    requires Get(Denote(doc), path) == Some(Denote(from))
    requires path != [] && Replaced(from, to) ==> GoodLast(path[|path| - 1])
    ensures LeadsTo(doc, Diff(Render(path), from, to, true), Set(Denote(doc), path, Denote(to)))
    decreases from, 1, 0
  {
    if from.Array? && to.Array? {
      ArrayReaches(doc, path, from, to);
    } else if from.Object? && to.Object? {
      ObjectReaches(doc, path, from, to);
    } else if from == to {
      SetSame(Denote(doc), path);
      assert ApplyAll(doc, [], true) == Outcome(0, doc);
    } else {
      ReplacePatch(doc, path, to);
    }
  }

  lemma {:induction false} ArrayReaches(doc: Json, path: seq<string>, from: Json, to: Json)
    requires WellFormed(doc) && WellFormed(from) && WellFormed(to) && Diffable(from, to)
    requires from.Array? && to.Array? && Get(Denote(doc), path) == Some(Denote(from))
    ensures LeadsTo(doc, Diff(Render(path), from, to, true), Set(Denote(doc), path, Denote(to)))
    decreases from, 0, 3 * (|from.elems| + |to.elems|) + 2
  {
    var s := Denote(from).elems;
    Whole(s);
    assert DenoteElems(from.elems) == s;
    ElemsReach(doc, path, from, from.elems, to.elems, 0, s);
    assert [] + DenoteElems(to.elems) == DenoteElems(to.elems);
  }

  lemma {:induction false} ObjectReaches(doc: Json, path: seq<string>, from: Json, to: Json)
    requires WellFormed(doc) && WellFormed(from) && WellFormed(to) && Diffable(from, to)
    requires from.Object? && to.Object? && Get(Denote(doc), path) == Some(Denote(from))
    ensures LeadsTo(doc, Diff(Render(path), from, to, true), Set(Denote(doc), path, Denote(to)))
    decreases from, 0, 2 * (|SortedMembers(from, true)| + |SortedMembers(to, true)|) + 2
  {
    StartWalk(from, to);
    var m, n := DenoteMembers(from.members), DenoteMembers(to.members);
    assert Target(m, m, n) == n && Denote(from) == VObject(m) && Denote(to) == VObject(n);
    hide LeadsTo, Get, Set, Render, Walk, SortedMembers, WellFormed, Diffable, Target, Denote, DenoteMembers, DiffMembers;
    MembersReach(doc, path, from, SortedMembers(from, true), SortedMembers(to, true), m, m, n);
  }

  lemma StartWalk(from: Json, to: Json)
    requires WellFormed(from) && WellFormed(to) && Diffable(from, to) && from.Object? && to.Object?
    ensures var m, n := DenoteMembers(from.members), DenoteMembers(to.members);
      && Walk(SortedMembers(from, true), SortedMembers(to, true), m, m, n)
      && DenoteMembers(SortedMembers(from, true)) == m && DenoteMembers(SortedMembers(to, true)) == n
  {
    var fs, ts := SortedMembers(from, true), SortedMembers(to, true);
    var m, n := DenoteMembers(from.members), DenoteMembers(to.members);
    SortedDenotes(from, true);
    SortedDenotes(to, true);
    SpelledOnce(from.members, to.members);
    forall f | f in fs ensures LeftFrom(f, ts, m, m, n) {
      StartFrom(from, to, f);
    }
    forall t | t in ts ensures LeftTo(t, fs, m, m, n) {
      StartTo(from, to, t);
    }
    forall f, t | f in fs && t in ts && f.key == t.key
      ensures Diffable(f.value, t.value) && (Replaced(f.value, t.value) ==> SurvivesPointer(f.key))
    {
      var i :| 0 <= i < |from.members| && from.members[i] == f;
      var j :| 0 <= j < |to.members| && to.members[j] == t;
    }
  }

  lemma StartFrom(from: Json, to: Json, f: Member)
    requires WellFormed(from) && WellFormed(to) && Diffable(from, to) && from.Object? && to.Object?
    requires f in from.members
    ensures LeftFrom(f, SortedMembers(to, true), DenoteMembers(from.members),
                     DenoteMembers(from.members), DenoteMembers(to.members))
  {
    SortedDenotes(to, true);
    MembersMap(from.members);
    MembersMap(to.members);
    var i :| 0 <= i < |from.members| && from.members[i] == f;
  }

  lemma StartTo(from: Json, to: Json, t: Member)
    requires WellFormed(from) && WellFormed(to) && Diffable(from, to) && from.Object? && to.Object?
    requires t in to.members
    ensures LeftTo(t, SortedMembers(from, true), DenoteMembers(from.members),
                   DenoteMembers(from.members), DenoteMembers(to.members))
  {
    SortedDenotes(from, true);
    MembersMap(from.members);
    MembersMap(to.members);
    var j :| 0 <= j < |to.members| && to.members[j] == t;
  }

  lemma SpelledOnce(ms: seq<Member>, ns: seq<Member>)
    requires UniqueKeys(ms) && UniqueKeys(ns)
    requires forall i, j :: 0 <= i < |ms| && 0 <= j < |ns| && SameName(ms[i].key, ns[j].key, false) ==> ms[i].key == ns[j].key
    ensures OneSpelling(DenoteMembers(ms).Keys + DenoteMembers(ns).Keys)
  {
    MembersMap(ms);
    MembersMap(ns);
    forall a, b | a in DenoteMembers(ms).Keys + DenoteMembers(ns).Keys
      && b in DenoteMembers(ms).Keys + DenoteMembers(ns).Keys && SameName(a, b, false)
      ensures a == b
    {
      if a in DenoteMembers(ms) && b in DenoteMembers(ms) {
        KeyIsClear(ms, b);
      } else if a in DenoteMembers(ns) && b in DenoteMembers(ns) {
        KeyIsClear(ns, b);
      }
    }
  }

  lemma {:induction false} MembersReach(doc: Json, up: seq<string>, whole: Json, fs: seq<Member>, ts: seq<Member>,
                                        m: map<string, Value>, from: map<string, Value>, to: map<string, Value>)
    requires WellFormed(doc) && Get(Denote(doc), up) == Some(VObject(m)) && Walk(fs, ts, m, from, to)
    requires forall f <- fs :: f.value < whole
    ensures LeadsTo(doc, DiffMembers(Render(up), whole, fs, ts, true),
                    Set(Denote(doc), up, VObject(Target(m, DenoteMembers(fs), DenoteMembers(ts)))))
    decreases whole, 0, 2 * (|fs| + |ts|)
  {
    hide Formed, Diff, ComposePatch, Get, Set, Encode, Denote;
    if fs == [] && ts == [] {
      SetSame(Denote(doc), up);
      assert Target(m, map[], map[]) == m;
    } else {
      var diff := KeyOrder(fs, ts, true);
      if fs != [] && ts != [] {
        CompareExact(fs[0].key, ts[0].key);
        CompareFlip(ts[0].key, fs[0].key, true);
      }
      if diff == 0 {
        var k := fs[0].key;
        var m' := m[k := Denote(ts[0].value)];
        WalkBoth(fs, ts, m, from, to);
        assert LeftFrom(fs[0], ts, m, from, to) && LeftTo(ts[0], fs, m, from, to);
        BothReach(doc, up, m, fs[0], ts[0], whole);
        var a := Diff(Render(up) + "/" + Encode(k), fs[0].value, ts[0].value, true);
        TailMembers(fs);
        MembersGoOn(doc, up, a, m', whole, fs[1..], ts[1..], from, to);
      } else if diff < 0 {
        WalkFrom(fs, ts, m, from, to);
        assert LeftFrom(fs[0], ts, m, from, to);
        TailMembers(fs);
        RemoveReach(doc, up, m, fs[0].key);
        MembersGoOn(doc, up, [ComposePatch("remove", Render(up), Some(fs[0].key), None)],
                    m - {fs[0].key}, whole, fs[1..], ts, from, to);
      } else {
        WalkTo(fs, ts, m, from, to);
        assert LeftTo(ts[0], fs, m, from, to);
        TailMembers(ts);
        AddReach(doc, up, m, ts[0].key, ts[0].value);
        MembersGoOn(doc, up, [ComposePatch("add", Render(up), Some(ts[0].key), Some(ts[0].value))],
                    m[ts[0].key := Denote(ts[0].value)], whole, fs, ts[1..], from, to);
      }
    }
  }

  // The rest of the walk, from the document that the first patches lead to.
  lemma {:induction false} MembersGoOn(doc: Json, up: seq<string>, a: seq<Json>, m: map<string, Value>, whole: Json,
                                       fs: seq<Member>, ts: seq<Member>, from: map<string, Value>, to: map<string, Value>)
    requires Get(Denote(doc), up).Some? && LeadsTo(doc, a, Set(Denote(doc), up, VObject(m)))
    requires Walk(fs, ts, m, from, to) && forall f <- fs :: f.value < whole
    ensures LeadsTo(doc, a + DiffMembers(Render(up), whole, fs, ts, true),
                    Set(Denote(doc), up, VObject(Target(m, DenoteMembers(fs), DenoteMembers(ts)))))
    decreases whole, 0, 2 * (|fs| + |ts|) + 1
  {
    var next := ApplyAll(doc, a, true).doc;
    var goal := VObject(Target(m, DenoteMembers(fs), DenoteMembers(ts)));
    SetTwice(Denote(doc), up, VObject(m), goal);
    MembersReach(next, up, whole, fs, ts, m, from, to);
    LeadsOn(doc, a, Set(Denote(doc), up, VObject(m)),
            DiffMembers(Render(up), whole, fs, ts, true), Set(Denote(doc), up, goal));
  }

  lemma {:induction false} BothReach(doc: Json, up: seq<string>, m: map<string, Value>, f: Member, t: Member, whole: Json)
    requires WellFormed(doc) && Get(Denote(doc), up) == Some(VObject(m))
    requires f.key == t.key && f.key in m && m[f.key] == Denote(f.value) && f.value < whole
    requires WellFormed(f.value) && WellFormed(t.value) && NulFree(f.key)
    requires Diffable(f.value, t.value) && (Replaced(f.value, t.value) ==> SurvivesPointer(f.key))
    ensures LeadsTo(doc, Diff(Render(up) + "/" + Encode(f.key), f.value, t.value, true),
                    Set(Denote(doc), up, VObject(m[f.key := Denote(t.value)])))
    decreases whole, 0, 1
  {
    ChildPath(up, f.key);
    SetBelow(Denote(doc), up, f.key, Denote(t.value));
    DiffReaches(doc, up + [f.key], f.value, t.value);
  }

  lemma RemoveReach(doc: Json, up: seq<string>, m: map<string, Value>, k: string)
    requires WellFormed(doc) && Get(Denote(doc), up) == Some(VObject(m)) && k in m && GoodLast(k)
    ensures LeadsTo(doc, [ComposePatch("remove", Render(up), Some(k), None)], Set(Denote(doc), up, VObject(m - {k})))
  {
    GetAppend(Denote(doc), up, k);
    RemovePatch(doc, up, k);
  }

  lemma AddReach(doc: Json, up: seq<string>, m: map<string, Value>, k: string, y: Json)
    requires WellFormed(doc) && Get(Denote(doc), up) == Some(VObject(m)) && GoodLast(k) && WellFormed(y)
    requires CaseClear(VObject(m), k)
    ensures LeadsTo(doc, [ComposePatch("add", Render(up), Some(k), Some(y))],
                    Set(Denote(doc), up, VObject(m[k := Denote(y)])))
  {
    PlainExtend(doc, up, k);
    AddPatch(doc, up, k, y);
  }

  lemma PlainExtend(doc: Json, up: seq<string>, t: string)
    requires WellFormed(doc) && Get(Denote(doc), up).Some? && PlainPath(Get(Denote(doc), up).value, [t])
    ensures PlainPath(Denote(doc), up + [t])
  {
    FoundIsPlain(doc, up, false);
    PlainAfterSet(Denote(doc), up, t, Get(Denote(doc), up).value);
    SetSame(Denote(doc), up);
  }

  // The patches for an array, when the document has the first i elements right already.
  lemma {:induction false} ElemsReach(doc: Json, up: seq<string>, whole: Json, fs: seq<Json>, ts: seq<Json>, i: nat, s: seq<Value>)
    requires WellFormed(doc) && Get(Denote(doc), up) == Some(VArray(s))
    requires |s| == i + |fs| <= ULONG_MAX + 1 && i + |ts| <= ULONG_MAX + 1 && s[i..] == DenoteElems(fs)
    requires forall k :: 0 <= k < |fs| ==> fs[k] < whole && WellFormed(fs[k])
    requires forall k :: 0 <= k < |ts| ==> WellFormed(ts[k])
    requires forall k :: 0 <= k < |fs| && k < |ts| ==> Diffable(fs[k], ts[k])
    ensures LeadsTo(doc, DiffElems(Render(up), whole, fs, ts, i, true),
                    Set(Denote(doc), up, VArray(s[..i] + DenoteElems(ts))))
    decreases whole, 0, 3 * (|fs| + |ts|)
  {
    if fs == [] && ts == [] {
      SetSame(Denote(doc), up);
      assert s[..i] + DenoteElems(ts) == s;
      assert ApplyAll(doc, [], true) == Outcome(0, doc);
    } else if fs != [] && ts != [] {
      CommonReach(doc, up, whole, fs, ts, i, s);
    } else if fs != [] {
      var a, s' := [ComposePatch("remove", Render(up), Some(Decimal(i)), None)], s[..i] + s[i + 1..];
      ConsElems(fs);
      assert s'[i..] == s[i..][1..] && s'[..i] == s[..i];
      RemoveElementReach(doc, up, i, s);
      ElemsGoOn(doc, up, a, whole, fs[1..], ts, i, s');
    } else {
      SurplusReach(doc, up, whole, ts, i, s);
    }
  }

  lemma {:induction false} CommonReach(doc: Json, up: seq<string>, whole: Json, fs: seq<Json>, ts: seq<Json>, i: nat, s: seq<Value>)
    requires WellFormed(doc) && Get(Denote(doc), up) == Some(VArray(s)) && fs != [] && ts != []
    requires |s| == i + |fs| <= ULONG_MAX + 1 && i + |ts| <= ULONG_MAX + 1 && s[i..] == DenoteElems(fs)
    requires forall k :: 0 <= k < |fs| ==> fs[k] < whole && WellFormed(fs[k])
    requires forall k :: 0 <= k < |ts| ==> WellFormed(ts[k])
    requires forall k :: 0 <= k < |fs| && k < |ts| ==> Diffable(fs[k], ts[k])
    ensures LeadsTo(doc, DiffElems(Render(up), whole, fs, ts, i, true),
                    Set(Denote(doc), up, VArray(s[..i] + DenoteElems(ts))))
    decreases whole, 0, 3 * (|fs| + |ts|) - 1
  {
    var a, s' := Diff(Render(up) + "/" + Decimal(i), fs[0], ts[0], true), s[i := Denote(ts[0])];
    hide LeadsTo, Get, Set, Render, Encode;
    Prefixes(fs, ts, i, s);
    ElementReach(doc, up, whole, fs[0], ts[0], i, s);
    ElemsGoOn(doc, up, a, whole, fs[1..], ts[1..], i + 1, s');
  }

  lemma {:induction false} SurplusReach(doc: Json, up: seq<string>, whole: Json, ts: seq<Json>, i: nat, s: seq<Value>)
    requires WellFormed(doc) && Get(Denote(doc), up) == Some(VArray(s)) && ts != []
    requires |s| == i <= ULONG_MAX + 1 && i + |ts| <= ULONG_MAX + 1
    requires forall k :: 0 <= k < |ts| ==> WellFormed(ts[k])
    ensures LeadsTo(doc, DiffElems(Render(up), whole, [], ts, i, true),
                    Set(Denote(doc), up, VArray(s[..i] + DenoteElems(ts))))
    decreases whole, 0, 3 * |ts| - 1
  {
    var a, s' := [ComposePatch("add", Render(up), Some("-"), Some(ts[0]))], s + [Denote(ts[0])];
    hide LeadsTo, Get, Set, Render, ComposePatch, Denote, WellFormed, DenoteElems, DiffElems;
    ConsElems(ts);
    Whole(s);
    Whole(s');
    Assoc(s, [Denote(ts[0])], DenoteElems(ts[1..]));
    NoElems();
    SurplusStep(Render(up), whole, ts, i);
    AppendReach(doc, up, ts[0], s);
    SurplusIgnoresIndex(Render(up), whole, ts[1..], i, i + 1);
    ElemsGoOn(doc, up, a, whole, [], ts[1..], i + 1, s');
  }

  lemma NoElems()
    ensures DenoteElems([]) == []
  {
  }

  lemma SurplusStep(path: string, whole: Json, ts: seq<Json>, i: nat)
    requires ts != []
    ensures DiffElems(path, whole, [], ts, i, true)
         == [ComposePatch("add", path, Some("-"), Some(ts[0]))] + DiffElems(path, whole, [], ts[1..], i, true)
  {
  }

  lemma Prefixes(fs: seq<Json>, ts: seq<Json>, i: nat, s: seq<Value>)
    requires fs != [] && ts != [] && |s| == i + |fs| && s[i..] == DenoteElems(fs)
    ensures var s' := s[i := Denote(ts[0])];
      && s[i] == Denote(fs[0]) && s'[i + 1..] == DenoteElems(fs[1..])
      && s'[..i + 1] + DenoteElems(ts[1..]) == s[..i] + DenoteElems(ts)
  {
    ConsElems(fs);
    ConsElems(ts);
    Next(s, i);
    var y := Denote(ts[0]);
    assert s[i := y][i + 1..] == s[i + 1..];
    assert s[i := y][..i + 1] == s[..i] + [y];
    Assoc(s[..i], [y], DenoteElems(ts[1..]));
  }

  lemma {:induction false} SurplusIgnoresIndex(path: string, whole: Json, ts: seq<Json>, i: nat, j: nat)
    ensures DiffElems(path, whole, [], ts, i, true) == DiffElems(path, whole, [], ts, j, true)
    decreases |ts|
  {
    if ts != [] {
      SurplusIgnoresIndex(path, whole, ts[1..], i, j);
    }
  }

  lemma {:induction false} ElemsGoOn(doc: Json, up: seq<string>, a: seq<Json>, whole: Json, fs: seq<Json>, ts: seq<Json>,
                                     i: nat, s: seq<Value>)
    requires Get(Denote(doc), up).Some? && LeadsTo(doc, a, Set(Denote(doc), up, VArray(s)))
    requires |s| == i + |fs| <= ULONG_MAX + 1 && i + |ts| <= ULONG_MAX + 1 && s[i..] == DenoteElems(fs)
    requires forall k :: 0 <= k < |fs| ==> fs[k] < whole && WellFormed(fs[k])
    requires forall k :: 0 <= k < |ts| ==> WellFormed(ts[k])
    requires forall k :: 0 <= k < |fs| && k < |ts| ==> Diffable(fs[k], ts[k])
    ensures LeadsTo(doc, a + DiffElems(Render(up), whole, fs, ts, i, true),
                    Set(Denote(doc), up, VArray(s[..i] + DenoteElems(ts))))
    decreases whole, 0, 3 * (|fs| + |ts|) + 1
  {
    var next := ApplyAll(doc, a, true).doc;
    var goal := VArray(s[..i] + DenoteElems(ts));
    SetTwice(Denote(doc), up, VArray(s), goal);
    ElemsReach(next, up, whole, fs, ts, i, s);
    LeadsOn(doc, a, Set(Denote(doc), up, VArray(s)), DiffElems(Render(up), whole, fs, ts, i, true), Set(Denote(doc), up, goal));
  }

  lemma {:induction false} ElementReach(doc: Json, up: seq<string>, whole: Json, f: Json, t: Json, i: nat, s: seq<Value>)
    requires WellFormed(doc) && Get(Denote(doc), up) == Some(VArray(s)) && i < |s| && s[i] == Denote(f) && f < whole
    requires WellFormed(f) && WellFormed(t) && Diffable(f, t)
    ensures LeadsTo(doc, Diff(Render(up) + "/" + Decimal(i), f, t, true), Set(Denote(doc), up, VArray(s[i := Denote(t)])))
    decreases whole, 0, 1
  {
    DecimalToken(i);
    GoodDecimal(i);
    ChildPath(up, Decimal(i));
    SetBelow(Denote(doc), up, Decimal(i), Denote(t));
    DiffReaches(doc, up + [Decimal(i)], f, t);
  }

  lemma GoodDecimal(i: nat)
    ensures GoodLast(Decimal(i))
  {
    var s := Decimal(i);
    assert forall k :: 0 <= k < |s| ==> s[k] in s;
    PlainSurvives(s);
  }

  lemma RemoveElementReach(doc: Json, up: seq<string>, i: nat, s: seq<Value>)
    requires WellFormed(doc) && Get(Denote(doc), up) == Some(VArray(s)) && i < |s|
    ensures LeadsTo(doc, [ComposePatch("remove", Render(up), Some(Decimal(i)), None)],
                    Set(Denote(doc), up, VArray(s[..i] + s[i + 1..])))
  {
    DecimalToken(i);
    GoodDecimal(i);
    GetAppend(Denote(doc), up, Decimal(i));
    RemovePatch(doc, up, Decimal(i));
  }

  lemma AppendReach(doc: Json, up: seq<string>, y: Json, s: seq<Value>)
    requires WellFormed(doc) && Get(Denote(doc), up) == Some(VArray(s)) && |s| <= ULONG_MAX && WellFormed(y)
    ensures LeadsTo(doc, [ComposePatch("add", Render(up), Some("-"), Some(y))], Set(Denote(doc), up, VArray(s + [Denote(y)])))
  {
    PlainSurvives("-");
    PlainExtend(doc, up, "-");
    AddPatch(doc, up, "-", y);
  }

  // Applying the patches generated for from and to to any document that denotes what from does
  // succeeds at every patch and gives to, as long as appending appends.
  lemma DiffApplies(doc: Json, from: Json, to: Json)
    requires WellFormed(doc) && WellFormed(from) && WellFormed(to) && Diffable(from, to)
    requires Denote(doc) == Denote(from)
    ensures var r := ApplyAll(doc, Diff("", from, to, true), true);
      r.status == 0 && Denote(r.doc) == Denote(to)
  {
    DiffReaches(doc, [], from, to);
  }
}
