// JSON trees as cJSON holds them, and the values they denote.
module Json {
  import opened CStrings

  // Invalid is the node type that removing the root leaves behind.
  datatype Json =
    | Invalid
    | Null
    | False
    | True
    | Number(n: int)
    | String(s: string)
    | Array(elems: seq<Json>)
    | Object(members: seq<Member>)

  datatype Member = Member(key: string, value: Json)

  // What a tree means: an array is a sequence, an object a map whose order does not matter.
  datatype Value =
    | VInvalid
    | VNull
    | VFalse
    | VTrue
    | VNumber(n: int)
    | VString(s: string)
    | VArray(elems: seq<Value>)
    | VObject(members: map<string, Value>)

  function KeyOf(m: Member): string {
    m.key
  }

  ghost function Denote(j: Json): Value {
    match j
    case Invalid => VInvalid
    case Null => VNull
    case False => VFalse
    case True => VTrue
    case Number(n) => VNumber(n)
    case String(s) => VString(s)
    case Array(es) => VArray(seq(|es|, i requires 0 <= i < |es| => Denote(es[i])))
    case Object(ms) => VObject(DenoteMembers(ms))
  }

  // Of two members with one key the first counts, as for a lookup.
  ghost function DenoteMembers(ms: seq<Member>): map<string, Value> {
    if ms == [] then map[] else DenoteMembers(ms[1..])[ms[0].key := Denote(ms[0].value)]
  }

  // No two keys the same, even when letter case is ignored.
  ghost predicate UniqueKeys(ms: seq<Member>) {
    forall i, j :: 0 <= i < j < |ms| ==> !SameName(ms[i].key, ms[j].key, false)
  }

  ghost predicate DistinctKeys(ms: seq<Member>) {
    forall i, j :: 0 <= i < j < |ms| ==> ms[i].key != ms[j].key
  }

  // The index of an array element fits the unsigned long that path texts are printed from.
  const ULONG_MAX: nat := 0xFFFF_FFFF

  // A tree that was read or built without repeating a key, where exact tells keys apart that differ
  // in letter case only.
  ghost predicate Formed(j: Json, exact: bool) {
    match j
    case Invalid => false
    case Array(es) => |es| <= ULONG_MAX + 1 && forall i :: 0 <= i < |es| ==> Formed(es[i], exact)
    case Object(ms) =>
      && KeysTold(ms, exact)
      && forall i :: 0 <= i < |ms| ==> NulFree(ms[i].key) && Formed(ms[i].value, exact)
    case _ => true
  }

  ghost predicate KeysTold(ms: seq<Member>, exact: bool) {
    if exact then DistinctKeys(ms) else UniqueKeys(ms)
  }

  ghost predicate WellFormed(j: Json) {
    Formed(j, false)
  }

  lemma {:induction false} WellFormedExactly(j: Json)
    requires WellFormed(j)
    ensures Formed(j, true)
  {
    match j {
      case Array(es) =>
        forall i | 0 <= i < |es| ensures Formed(es[i], true) {
          WellFormedExactly(es[i]);
        }
      case Object(ms) =>
        forall i | 0 <= i < |ms| ensures Formed(ms[i].value, true) {
          WellFormedExactly(ms[i].value);
        }
      case _ =>
    }
  }

  // The first member whose key matches, or the number of members.
  function FindName(ms: seq<Member>, name: string, caseSensitive: bool): (i: nat)
    ensures i <= |ms|
  {
    if ms == [] || SameName(ms[0].key, name, caseSensitive) then 0
    else 1 + FindName(ms[1..], name, caseSensitive)
  }

  lemma SameNameExact(a: string, b: string)
    ensures SameName(a, b, true) <==> a == b
    ensures a == b ==> SameName(a, b, false)
  {
    assert FoldString(a, true) == a && FoldString(b, true) == b;
  }

  lemma {:induction false} MembersMap(ms: seq<Member>)
    ensures forall k :: k in DenoteMembers(ms) <==> exists i :: 0 <= i < |ms| && ms[i].key == k
    ensures DistinctKeys(ms) ==>
      forall i :: 0 <= i < |ms| ==> ms[i].key in DenoteMembers(ms) && DenoteMembers(ms)[ms[i].key] == Denote(ms[i].value)
  {
    if ms != [] {
      var t := ms[1..];
      MembersMap(t);
      forall k ensures k in DenoteMembers(ms) <==> exists i :: 0 <= i < |ms| && ms[i].key == k {
        if i :| 0 <= i < |ms| && ms[i].key == k {
          assert i > 0 ==> t[i - 1].key == k;
        }
        if i :| 0 <= i < |t| && t[i].key == k {
          assert ms[i + 1].key == k;
        }
      }
      if DistinctKeys(ms) {
        assert DistinctKeys(t) by {
          forall i, j | 0 <= i < j < |t| ensures t[i].key != t[j].key {
            assert t[i] == ms[i + 1] && t[j] == ms[j + 1];
          }
        }
        forall i | 0 <= i < |ms|
          ensures ms[i].key in DenoteMembers(ms) && DenoteMembers(ms)[ms[i].key] == Denote(ms[i].value)
        {
          if i > 0 {
            assert t[i - 1] == ms[i];
          }
        }
      }
    }
  }

  lemma TailMap(ms: seq<Member>)
    requires DistinctKeys(ms) && ms != []
    ensures DistinctKeys(ms[1..]) && ms[0].key !in DenoteMembers(ms[1..])
  {
    var t := ms[1..];
    assert forall i :: 0 <= i < |t| ==> t[i] == ms[i + 1];
    MembersMap(t);
  }

  // The map is fixed by the keys and by the value under each of them.
  lemma MapIs(ms: seq<Member>, m: map<string, Value>)
    requires DistinctKeys(ms)
    requires forall k :: k in m ==> exists i :: 0 <= i < |ms| && ms[i].key == k
    requires forall i :: 0 <= i < |ms| ==> ms[i].key in m && m[ms[i].key] == Denote(ms[i].value)
    ensures DenoteMembers(ms) == m
  {
    hide DistinctKeys, Denote, DenoteMembers;
    MembersMap(ms);
    var d := DenoteMembers(ms);
    forall k | k in m ensures k in d && d[k] == m[k] {
      var i :| 0 <= i < |ms| && ms[i].key == k;
    }
    forall k | k in d ensures k in m {
      var i :| 0 <= i < |ms| && ms[i].key == k;
    }
  }

  lemma {:induction false} FindNameIs(ms: seq<Member>, name: string, caseSensitive: bool, j: nat)
    requires j < |ms| && SameName(ms[j].key, name, caseSensitive)
    requires forall i :: 0 <= i < j ==> !SameName(ms[i].key, name, caseSensitive)
    ensures FindName(ms, name, caseSensitive) == j
  {
    if j > 0 {
      FindNameIs(ms[1..], name, caseSensitive, j - 1);
    }
  }

  lemma {:induction false} FindNameFirst(ms: seq<Member>, name: string, caseSensitive: bool)
    ensures var j := FindName(ms, name, caseSensitive);
      && (j < |ms| ==> SameName(ms[j].key, name, caseSensitive))
      && forall i :: 0 <= i < j ==> !SameName(ms[i].key, name, caseSensitive)
  {
    if ms != [] && !SameName(ms[0].key, name, caseSensitive) {
      FindNameFirst(ms[1..], name, caseSensitive);
      var j := FindName(ms[1..], name, caseSensitive);
      assert forall i :: 0 <= i < j ==> ms[i + 1] == ms[1..][i];
      forall i | 0 <= i < j + 1 ensures !SameName(ms[i].key, name, caseSensitive) {
        if i > 0 {
          assert ms[i] == ms[1..][i - 1];
        }
      }
    }
  }

  // With unique keys both lookups find a key that is there at the place where it is.
  lemma FindUnique(ms: seq<Member>, j: nat, caseSensitive: bool)
    requires KeysTold(ms, caseSensitive) && j < |ms|
    ensures FindName(ms, ms[j].key, caseSensitive) == j
  {
    SameNameExact(ms[j].key, ms[j].key);
    forall i | 0 <= i < j ensures !SameName(ms[i].key, ms[j].key, caseSensitive) {
      SameNameExact(ms[i].key, ms[j].key);
    }
    FindNameIs(ms, ms[j].key, caseSensitive, j);
  }

  // A key is in the map exactly when the case-sensitive lookup finds it.
  lemma FindInMap(ms: seq<Member>, name: string)
    requires DistinctKeys(ms)
    ensures name in DenoteMembers(ms) <==> FindName(ms, name, true) < |ms|
    ensures name in DenoteMembers(ms) ==>
      var j := FindName(ms, name, true); ms[j].key == name && DenoteMembers(ms)[name] == Denote(ms[j].value)
  {
    MembersMap(ms);
    FindNameFirst(ms, name, true);
    var j := FindName(ms, name, true);
    if j < |ms| {
      SameNameExact(ms[j].key, name);
    }
    if name in DenoteMembers(ms) {
      var i :| 0 <= i < |ms| && ms[i].key == name;
      FindUnique(ms, i, true);
    }
  }

  lemma SameKeys(ms: seq<Member>, ns: seq<Member>, i: nat)
    requires DistinctKeys(ms) && |ns| == |ms| && i < |ms| && forall k :: 0 <= k < |ms| ==> ns[k].key == ms[k].key
    ensures DistinctKeys(ns) && (UniqueKeys(ms) ==> UniqueKeys(ns))
    ensures forall k :: 0 <= k < |ms| && k != i ==> ms[k].key != ms[i].key
  {
    hide SameName;
    forall j, k | 0 <= j < k < |ns| ensures ns[j].key != ns[k].key {
      assert ms[j].key != ms[k].key;
    }
  }

  // Changing the value under one key changes one entry of the map.
  lemma UpdateMember(ms: seq<Member>, i: nat, w: Json)
    requires DistinctKeys(ms) && i < |ms|
    ensures var ns := ms[i := Member(ms[i].key, w)];
      DistinctKeys(ns) && (UniqueKeys(ms) ==> UniqueKeys(ns)) && DenoteMembers(ns) == DenoteMembers(ms)[ms[i].key := Denote(w)]
  {
    hide DistinctKeys, UniqueKeys, Denote, DenoteMembers;
    var ns, t := ms[i := Member(ms[i].key, w)], ms[i].key;
    var m := DenoteMembers(ms)[t := Denote(w)];
    SameKeys(ms, ns, i);
    MembersMap(ms);
    forall k | 0 <= k < |ns| ensures ns[k].key in m && m[ns[k].key] == Denote(ns[k].value) {
    }
    forall k | k in m ensures exists j :: 0 <= j < |ns| && ns[j].key == k {
      if k == t {
        assert ns[i].key == k;
      } else {
        var j :| 0 <= j < |ms| && ms[j].key == k;
        assert ns[j].key == k;
      }
    }
    MapIs(ns, m);
  }
}
