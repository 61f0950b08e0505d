// The children of a node and the pointer that appending goes by: the first child's prev. Sorting and
// detaching can leave it elsewhere than at the last child.
module Rings {
  import opened CStrings
  import opened MergeSort

  // Where the first child's prev leads: to NULL, to a child, or to a node that has left the list.
  datatype Back = Nowhere | ToChild(k: nat) | Astray

  predicate Closed(n: nat, back: Back) {
    n == 0 || back == ToChild(n - 1)
  }

  function ClosedBack(n: nat): (back: Back)
    ensures Closed(n, back)
  {
    if n == 0 then Nowhere else ToChild(n - 1)
  }

  // add_item_to_array(): the item is linked behind the child that is found, which cuts off what was
  // behind it. Otherwise nothing of the list changes.
  function Appended<T>(s: seq<T>, back: Back, x: T): seq<T> {
    if s == [] then [x]
    else match back
      case ToChild(k) => if k < |s| then s[..k + 1] + [x] else s
      case _ => s
  }

  function BackAfterAppend(n: nat, back: Back): Back {
    if n == 0 then ToChild(0)
    else match back
      case ToChild(k) => ToChild(k + 1)
      case _ => back
  }

  // cJSON_DetachItemViaPointer(): a new first child takes over the pointer of the old one, and taking
  // the last child out sets the pointer to the one before it.
  function BackAfterDetach(n: nat, back: Back, i: nat): Back
    requires i < n
  {
    if n == 1 then Nowhere
    else if i == n - 1 then ToChild(i - 1)
    else match back
      case ToChild(k) => if k < i then back else if k == i then Astray else ToChild(k - 1)
      case _ => back
  }

  lemma ClosedStaysClosed<T>(s: seq<T>, back: Back, x: T, i: nat)
    requires Closed(|s|, back)
    ensures Appended(s, back, x) == s + [x] && Closed(|s| + 1, BackAfterAppend(|s|, back))
    ensures i < |s| ==> Closed(|s| - 1, BackAfterDetach(|s|, back, i))
  {
    assert s[..|s|] == s;
  }

  // Appending appends exactly when the ring is closed.
  lemma AppendedExactly<T>(s: seq<T>, back: Back, x: T)
    ensures Appended(s, back, x) == s + [x] <==> Closed(|s|, back)
    ensures !Closed(|s|, back) ==>
      Appended(s, back, x) == s || (back.ToChild? && back.k < |s| - 1 && Appended(s, back, x) == s[..back.k + 1] + [x])
  {
    if Closed(|s|, back) {
      ClosedStaysClosed(s, back, x, 0);
    }
  }

  // ---------- Sorting, as a permutation of the positions ----------

  function NameAt(names: seq<string>): nat -> string {
    (i: nat) => if i < |names| then names[i] else ""
  }

  function Positions(n: nat): seq<nat> {
    seq(n, i requires 0 <= i < n => i)
  }

  // The old positions of the children in the order that sort_object() gives them.
  function Order(names: seq<string>, caseSensitive: bool): seq<nat> {
    SortSeq(Positions(|names|), NameAt(names), caseSensitive)
  }

  // Where a position has gone, past the end if it is none.
  function WhereIs(p: seq<nat>, i: nat): (w: nat)
    ensures w <= |p| && (w < |p| ==> p[w] == i)
    ensures i in p ==> w < |p|
    ensures p != [] && p[|p| - 1] == i ==> w == |p| - 1
  {
    if p == [] then 0
    else if p[|p| - 1] == i then |p| - 1
    else
      var w := WhereIs(p[..|p| - 1], i);
      if w < |p| - 1 then w else |p|
  }

  // sort_object(): the first child's prev stays only if the first child does, and the node that it
  // leads to is elsewhere now.
  function BackAfterSort(names: seq<string>, back: Back, caseSensitive: bool): Back {
    var p := Order(names, caseSensitive);
    if p != [] && p[0] != 0 then Nowhere
    else match back
      case ToChild(k) => ToChild(WhereIs(p, k))
      case _ => back
  }

  predicate Within(p: seq<nat>, n: nat) {
    forall j :: 0 <= j < |p| ==> p[j] < n
  }

  function Pick<T>(s: seq<T>, p: seq<nat>): (r: seq<T>)
    requires Within(p, |s|)
    ensures |r| == |p| && forall j :: 0 <= j < |p| ==> r[j] == s[p[j]]
  {
    seq(|p|, j requires 0 <= j < |p| => s[p[j]])
  }

  function Names<T>(s: seq<T>, name: T -> string): seq<string> {
    seq(|s|, i requires 0 <= i < |s| => name(s[i]))
  }

  lemma {:induction false} MergeWithin(p: seq<nat>, q: seq<nat>, n: nat, name: nat -> string, caseSensitive: bool)
    requires Within(p, n) && Within(q, n)
    ensures Within(Merge(p, q, name, caseSensitive), n)
    decreases |p| + |q|
  {
    if p != [] && q != [] {
      if Before(name(p[0]), name(q[0]), caseSensitive) {
        MergeWithin(p[1..], q, n, name, caseSensitive);
      } else {
        MergeWithin(p, q[1..], n, name, caseSensitive);
      }
    }
  }

  lemma PickTail<T>(s: seq<T>, p: seq<nat>)
    requires Within(p, |s|) && p != []
    ensures p[0] < |s| && Within(p[1..], |s|) && Pick(s, p)[0] == s[p[0]] && Pick(s, p)[1..] == Pick(s, p[1..])
    ensures Pick(s, p) == [s[p[0]]] + Pick(s, p[1..])
  {
  }

  lemma PickCons<T>(s: seq<T>, i: nat, p: seq<nat>)
    requires Within(p, |s|) && i < |s|
    ensures Within([i] + p, |s|) && Pick(s, [i] + p) == [s[i]] + Pick(s, p)
  {
  }

  lemma {:induction false} PickMerge<T>(s: seq<T>, p: seq<nat>, q: seq<nat>, name: T -> string, at: nat -> string,
                                        caseSensitive: bool)
    requires Within(p, |s|) && Within(q, |s|) && forall i :: 0 <= i < |s| ==> at(i) == name(s[i])
    ensures Within(Merge(p, q, at, caseSensitive), |s|)
    ensures Merge(Pick(s, p), Pick(s, q), name, caseSensitive) == Pick(s, Merge(p, q, at, caseSensitive))
    decreases |p| + |q|
  {
    hide Before, Pick, Within;
    MergeWithin(p, q, |s|, at, caseSensitive);
    if p != [] && q != [] {
      PickTail(s, p);
      PickTail(s, q);
      if Before(at(p[0]), at(q[0]), caseSensitive) {
        PickMerge(s, p[1..], q, name, at, caseSensitive);
        PickCons(s, p[0], Merge(p[1..], q, at, caseSensitive));
      } else {
        PickMerge(s, p, q[1..], name, at, caseSensitive);
        PickCons(s, q[0], Merge(p, q[1..], at, caseSensitive));
      }
    }
  }

  // Sorting looks at the names alone.
  lemma {:induction false} PickSort<T>(s: seq<T>, p: seq<nat>, name: T -> string, at: nat -> string, caseSensitive: bool)
    requires Within(p, |s|) && forall i :: 0 <= i < |s| ==> at(i) == name(s[i])
    ensures Within(SortSeq(p, at, caseSensitive), |s|)
    ensures SortSeq(Pick(s, p), name, caseSensitive) == Pick(s, SortSeq(p, at, caseSensitive))
    decreases |p|
  {
    hide Before, Merge;
    assert StrictlySorted(Pick(s, p), name, caseSensitive) <==> StrictlySorted(p, at, caseSensitive);
    if |p| > 1 && !StrictlySorted(p, at, caseSensitive) {
      var m := Middle(|p|);
      assert Pick(s, p)[..m] == Pick(s, p[..m]) && Pick(s, p)[m..] == Pick(s, p[m..]);
      PickSort(s, p[..m], name, at, caseSensitive);
      PickSort(s, p[m..], name, at, caseSensitive);
      PickMerge(s, SortSeq(p[..m], at, caseSensitive), SortSeq(p[m..], at, caseSensitive), name, at, caseSensitive);
    }
  }

  lemma OrderPermutes(names: seq<string>, caseSensitive: bool)
    ensures |Order(names, caseSensitive)| == |names| && Within(Order(names, caseSensitive), |names|)
    ensures forall i :: 0 <= i < |names| ==> i in Order(names, caseSensitive)
  {
    var p, q := Positions(|names|), Order(names, caseSensitive);
    SortMembership(p, NameAt(names), caseSensitive);
    forall j | 0 <= j < |q| ensures q[j] < |names| {
      assert q[j] in p;
    }
    forall i | 0 <= i < |names| ensures i in q {
      assert p[i] in p;
    }
  }

  // The sorted list is the list at the positions of the order.
  lemma SortIsPick<T>(s: seq<T>, name: T -> string, caseSensitive: bool)
    ensures var p := Order(Names(s, name), caseSensitive);
      |p| == |s| && Within(p, |s|) && SortSeq(s, name, caseSensitive) == Pick(s, p)
  {
    var names := Names(s, name);
    OrderPermutes(names, caseSensitive);
    PickSort(s, Positions(|s|), name, NameAt(names), caseSensitive);
    assert Pick(s, Positions(|s|)) == s;
  }

  // ---------- Appending after sorting ----------

  lemma EndsOfOrder<T>(s: seq<T>, name: T -> string, caseSensitive: bool)
    requires s != []
    ensures var p := Order(Names(s, name), caseSensitive);
      && |p| == |s|
      && (p[0] == 0 <==> FirstIsLeast(s, name, caseSensitive))
      && (p[|s| - 1] == |s| - 1 <==> LastIsGreatest(s, name, caseSensitive))
  {
    hide SortSeq, Before;
    var q, at := Positions(|s|), NameAt(Names(s, name));
    FirstStays(q, at, caseSensitive);
    LastStays(q, at, caseSensitive);
    assert forall i :: 0 <= i < |s| ==> at(q[i]) == name(s[i]);
    SameEnds(q, at, s, name, caseSensitive);
  }

  lemma SameEnds<S, T>(q: seq<S>, at: S -> string, s: seq<T>, name: T -> string, caseSensitive: bool)
    requires |q| == |s| && forall i :: 0 <= i < |s| ==> at(q[i]) == name(s[i])
    ensures FirstIsLeast(q, at, caseSensitive) <==> FirstIsLeast(s, name, caseSensitive)
    ensures LastIsGreatest(q, at, caseSensitive) <==> LastIsGreatest(s, name, caseSensitive)
  {
    hide Before;
    assert s != [] ==> at(q[0]) == name(s[0]) && at(q[|q| - 1]) == name(s[|s| - 1]);
  }

  // After the children of a ring were sorted, appending appends exactly when the first child's name
  // came before all others and the last child's behind all others. If the first one's did not,
  // nothing is linked. If only the last one's did not, what is behind that child now is lost.
  lemma AppendAfterSort<T>(s: seq<T>, back: Back, name: T -> string, x: T, caseSensitive: bool)
    requires s != [] && Closed(|s|, back)
    ensures var names, r := Names(s, name), SortSeq(s, name, caseSensitive);
      var t, w := Appended(r, BackAfterSort(names, back, caseSensitive), x), WhereIs(Order(names, caseSensitive), |s| - 1);
      && |r| == |s|
      && (t == r + [x] <==> FirstIsLeast(s, name, caseSensitive) && LastIsGreatest(s, name, caseSensitive))
      && (!FirstIsLeast(s, name, caseSensitive) ==> t == r)
      && (FirstIsLeast(s, name, caseSensitive) && !LastIsGreatest(s, name, caseSensitive) ==>
            w < |r| - 1 && r[w] == s[|s| - 1] && t == r[..w + 1] + [x])
  {
    hide SortSeq, FirstIsLeast, LastIsGreatest;
    EndsOfOrder(s, name, caseSensitive);
    SortIsPick(s, name, caseSensitive);
    OrderPermutes(Names(s, name), caseSensitive);
    var r := SortSeq(s, name, caseSensitive);
    assert r[..|r|] == r;
  }

  // A closed ring is closed after sorting exactly when both ends were in their places.
  lemma ClosedAfterSort<T>(s: seq<T>, back: Back, name: T -> string, caseSensitive: bool)
    requires s != [] && Closed(|s|, back)
    ensures Closed(|s|, BackAfterSort(Names(s, name), back, caseSensitive))
      <==> FirstIsLeast(s, name, caseSensitive) && LastIsGreatest(s, name, caseSensitive)
  {
    hide SortSeq, FirstIsLeast, LastIsGreatest;
    EndsOfOrder(s, name, caseSensitive);
    SortIsPick(s, name, caseSensitive);
    OrderPermutes(Names(s, name), caseSensitive);
  }

  lemma PairOrder(names: seq<string>, caseSensitive: bool)
    requires |names| == 2 && !Before(names[0], names[1], caseSensitive)
    ensures Order(names, caseSensitive) == [1, 0]
  {
    hide Before;
    var at := NameAt(names);
    var p, x: seq<nat>, y: seq<nat>, none: seq<nat> := Positions(2), [0], [1], [];
    assert !StrictlySorted(p, at, caseSensitive) by {
      assert !Before(at(p[0]), at(p[1]), caseSensitive);
    }
    assert p[..1] == x && p[1..] == y && y[1..] == none;
    assert Merge(x, y, at, caseSensitive) == y + Merge(x, none, at, caseSensitive);
  }

  lemma TripleOrder(names: seq<string>, caseSensitive: bool)
    requires |names| == 3 && Before(names[0], names[1], caseSensitive) && Before(names[0], names[2], caseSensitive)
    requires !Before(names[1], names[2], caseSensitive)
    ensures Order(names, caseSensitive) == [0, 2, 1]
  {
    hide Before;
    var at := NameAt(names);
    var p, x: seq<nat>, y: seq<nat>, a: seq<nat>, none: seq<nat> := Positions(3), [0, 1], [2], [1], [];
    assert !StrictlySorted(p, at, caseSensitive) by {
      assert !Before(at(p[1]), at(p[2]), caseSensitive);
    }
    assert p[..2] == x && p[2..] == y && x[1..] == a && y[1..] == none;
    assert SortSeq(x, at, caseSensitive) == x && SortSeq(y, at, caseSensitive) == y;
    assert Merge(a, y, at, caseSensitive) == y + Merge(a, none, at, caseSensitive);
    assert Merge(x, y, at, caseSensitive) == [0] + Merge(a, y, at, caseSensitive);
  }

  lemma LettersCompare()
    ensures Before("a", "b", true) && Before("a", "c", true) && !Before("b", "a", true) && !Before("c", "b", true)
  {
  }

  // Of the children b and a, sorted, neither is followed by c.
  lemma SortedPairTakesNothing(name: string -> string)
    requires forall x :: name(x) == x
    ensures BackAfterSort(["b", "a"], ToChild(1), true) == Nowhere
    ensures Appended(SortSeq(["b", "a"], name, true), Nowhere, "c") == ["a", "b"]
  {
    hide SortSeq, Before, Order, Appended;
    var s := ["b", "a"];
    LettersCompare();
    PairOrder(s, true);
    SortIsPick(s, name, true);
    assert Names(s, name) == s;
    assert Pick(s, [1, 0]) == ["a", "b"];
    AppendedNowhere(["a", "b"], "c");
  }

  lemma AppendedNowhere<T>(s: seq<T>, x: T)
    requires s != []
    ensures Appended(s, Nowhere, x) == s
  {
  }

  // Of the children a, c and b, sorted, the last one is lost when d is appended: d goes behind b.
  lemma SortedTripleLosesOne(name: string -> string)
    requires forall x :: name(x) == x
    ensures BackAfterSort(["a", "c", "b"], ToChild(2), true) == ToChild(1)
    ensures Appended(SortSeq(["a", "c", "b"], name, true), ToChild(1), "d") == ["a", "b", "d"]
  {
    hide SortSeq, Before, Order;
    var s := ["a", "c", "b"];
    LettersCompare();
    TripleOrder(s, true);
    SortIsPick(s, name, true);
    assert Names(s, name) == s;
    var p: seq<nat> := [0, 2, 1];
    assert Pick(s, p)[..2] == ["a", "b"];
    assert p[..2] == [0, 2] && p[2] == 1;
  }
}
