// Keys that give no trouble: lower-case ones for merge patches, and ones without '~' and '/' for
// patches that name them.
module PlainKeys {
  import opened CStrings
  import opened Json
  import opened JsonCompare
  import opened MergeInverse
  import opened MergeMeaning
  import opened MergePatch
  import opened PatchReach
  import opened PointerText

  // ---------- Without upper-case letters ----------

  ghost predicate LowerCase(k: string) {
    forall i :: 0 <= i < |k| ==> ToLower(k[i]) == k[i]
  }

  ghost predicate LowerCaseKeys(j: Json) {
    match j
    case Array(es) => forall i :: 0 <= i < |es| ==> LowerCaseKeys(es[i])
    case Object(ms) => forall i :: 0 <= i < |ms| ==> LowerCase(ms[i].key) && LowerCaseKeys(ms[i].value)
    case _ => true
  }

  lemma {:induction false} LowerCaseCompares(a: string, b: string)
    requires LowerCase(a) && LowerCase(b)
    ensures CompareStrings(a, b, false) == CompareStrings(a, b, true)
  {
    if a != [] && b != [] {
      LowerCaseCompares(a[1..], b[1..]);
    }
  }

  lemma LowerCaseName(a: string, b: string)
    requires LowerCase(a) && LowerCase(b)
    ensures SameName(a, b, false) <==> a == b
  {
    assert FoldString(a, false) == a && FoldString(b, false) == b;
  }

  lemma {:induction false} LowerCaseCompatible(a: Json, b: Json)
    requires LowerCaseKeys(a) && LowerCaseKeys(b)
    ensures CaseCompatible(a, b)
    decreases a
  {
    hide LowerCase, SameName;
    match (a, b) {
      case (Array(es), Array(fs)) =>
        forall i | 0 <= i < |es| && i < |fs| ensures CaseCompatible(es[i], fs[i]) {
          LowerCaseCompatible(es[i], fs[i]);
        }
      case (Object(ms), Object(ns)) =>
        forall i, j | 0 <= i < |ms| && 0 <= j < |ns| && SameName(ms[i].key, ns[j].key, false)
          ensures ms[i].key == ns[j].key && CaseCompatible(ms[i].value, ns[j].value)
        {
          LowerCaseName(ms[i].key, ns[j].key);
          LowerCaseCompatible(ms[i].value, ns[j].value);
        }
      case _ =>
    }
  }

  lemma {:induction false} LowerCaseSameOrder(from: Json, to: Json, caseSensitive: bool)
    requires LowerCaseKeys(from) && LowerCaseKeys(to)
    ensures SameOrder(from, to, caseSensitive)
    decreases from
  {
    hide LowerCase, OrdersAgree;
    if from.Object? && to.Object? {
      var keys := KeysOf(from.members) + KeysOf(to.members);
      forall j, k | j in keys && k in keys ensures OrdersAgree(j, k) {
        assert LowerCase(j) && LowerCase(k);
        LowerCaseAgrees(j, k);
      }
      forall i, j | 0 <= i < |from.members| && 0 <= j < |to.members| && from.members[i].key == to.members[j].key
        ensures SameOrder(from.members[i].value, to.members[j].value, false)
        ensures CaseCompatible(from.members[i].value, to.members[j].value)
      {
        LowerCaseSameOrder(from.members[i].value, to.members[j].value, false);
        LowerCaseCompatible(from.members[i].value, to.members[j].value);
      }
    }
  }

  lemma LowerCaseAgrees(j: string, k: string)
    requires LowerCase(j) && LowerCase(k)
    ensures OrdersAgree(j, k)
  {
    LowerCaseCompares(j, k);
  }

  // No object below has a null for a member, unless it is in an array.
  ghost predicate NoNulls(v: Value) {
    v.VObject? ==> forall k <- v.members :: v.members[k] != VNull && NoNulls(v.members[k])
  }

  lemma {:induction false} NoNullsKept(a: Value, b: Value)
    requires NoNulls(b)
    ensures NullsKept(a, b)
    decreases b
  {
    if b.VObject? {
      forall k <- b.members ensures EntryKept(EntriesOf(a), k, b.members[k]) {
        NoNullsKept(Entry(EntriesOf(a), k), b.members[k]);
      }
    }
  }

  // For two different trees with unique lower-case keys, and no null member in the second, the
  // generated merge patch turns a duplicate of the first into the second, with regard to case or without.
  lemma LowerCaseMergeInverts(from: Json, to: Json, caseSensitive: bool)
    requires WellFormed(from) && WellFormed(to) && LowerCaseKeys(from) && LowerCaseKeys(to)
    requires NoNulls(Denote(to)) && Denote(from) != Denote(to)
    ensures var patch := Generate(from, to, caseSensitive);
      patch.Some? && Denote(Merge(from, patch.value, caseSensitive)) == Denote(to)
  {
    hide LowerCaseKeys, SameOrder, NullsKept, NoNulls;
    LowerCaseSameOrder(from, to, caseSensitive);
    LowerCaseCompatible(from, to);
    NoNullsKept(Denote(from), Denote(to));
    MergeInverts(from, to, caseSensitive);
  }

  // ---------- Without '~' and '/' ----------

  ghost predicate Plain(k: string) {
    forall c <- k :: c != '~' && c != '/'
  }

  ghost predicate AllPlain(j: Json) {
    match j
    case Array(es) => forall i :: 0 <= i < |es| ==> AllPlain(es[i])
    case Object(ms) => forall i :: 0 <= i < |ms| ==> Plain(ms[i].key) && AllPlain(ms[i].value)
    case _ => true
  }

  // Two trees with such keys, of which none that meet differ in letter case only, can be diffed.
  lemma {:induction false} PlainKeysDiffable(from: Json, to: Json)
    requires CaseCompatible(from, to) && AllPlain(from) && AllPlain(to)
    ensures Diffable(from, to)
    decreases from
  {
    hide Plain, SurvivesPointer, HasKey, Replaced, SameName;
    match (from, to) {
      case (Array(fs), Array(ts)) =>
        forall i | 0 <= i < |fs| && i < |ts| ensures Diffable(fs[i], ts[i]) {
          PlainKeysDiffable(fs[i], ts[i]);
        }
      case (Object(fs), Object(ts)) =>
        forall i | 0 <= i < |fs| ensures SurvivesPointer(fs[i].key) {
          PlainKeySurvives(fs[i].key);
        }
        forall j | 0 <= j < |ts| ensures SurvivesPointer(ts[j].key) {
          PlainKeySurvives(ts[j].key);
        }
        forall i, j | 0 <= i < |fs| && 0 <= j < |ts| && fs[i].key == ts[j].key ensures Diffable(fs[i].value, ts[j].value) {
          assert SameName(fs[i].key, ts[j].key, false) by { NameIsItself(fs[i].key); }
          PlainKeysDiffable(fs[i].value, ts[j].value);
        }
      case _ =>
    }
  }

  lemma NameIsItself(k: string)
    ensures SameName(k, k, false)
  {
  }

  lemma PlainKeySurvives(k: string)
    requires Plain(k)
    ensures SurvivesPointer(k)
  {
    PlainSurvives(k);
  }
}
