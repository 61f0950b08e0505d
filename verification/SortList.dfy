// sort_list() and sort_object(): mergesort on the links of the nodes themselves.
module SortList {
  import opened CStrings
  import opened Items
  import opened MergeSort
  import opened Rings

  // sort_list(): the early exit, the walk of two cursors to the middle, the two recursive
  // calls and the merge, all on the links of the nodes themselves.
  method SortList(list: Item?, caseSensitive: bool, ghost s: seq<Item>) returns (result: Item?, ghost r: seq<Item>)
    requires Chain(list, s)
    modifies Nodes(s)`next, Nodes(s)`prev
    ensures r == SortSeq(s, NameOf, caseSensitive)
    ensures Chain(result, r) && Nodes(r) == Nodes(s) && |r| == |s|
    ensures result != null ==> result.prev == if r[0] == s[0] then old(s[0].prev) else null
    decreases |s|, 1
  {
    SortNodes(s, caseSensitive);
    ShortChain(list, s);
    if list == null || list.next == null {
      return list, s;
    }
    var sorted := TestSorted(list, caseSensitive, s);
    if sorted {
      return list, s;
    }
    result, r := SortHalves(list, caseSensitive, s);
  }

  // The recursive step of sort_list(): split in the middle, sort both halves, merge.
  method SortHalves(list: Item, caseSensitive: bool, ghost s: seq<Item>) returns (result: Item, ghost r: seq<Item>)
    requires Chain(list, s) && |s| >= 2
    modifies Nodes(s)`next, Nodes(s)`prev
    ensures r == Merge(SortSeq(s[..Middle(|s|)], NameOf, caseSensitive), SortSeq(s[Middle(|s|)..], NameOf, caseSensitive),
                       NameOf, caseSensitive)
    ensures Chain(result, r)
    ensures result.prev == if result == s[0] then old(s[0].prev) else null
    decreases |s|, 0
  {
    hide SortSeq, Merge, Chain;
    ghost var a, b, p, q := s[..Middle(|s|)], s[Middle(|s|)..], [], [];
    var first: Item?, second: Item? := list, null;
    second := SplitList(list, s);
    assert a[0] == s[0] && s[0] in Nodes(a);
    first, p := SortList(first, caseSensitive, a);
    second, q := SortList(second, caseSensitive, b);
    assert second in Nodes(q) && Disjoint(p, q);
    result, r := MergeLists(first, second, caseSensitive, p, q);
  }

  lemma ShortChain(list: Item?, s: seq<Item>)
    requires Chain(list, s)
    ensures |s| >= 2 <==> list != null && list.next != null
  {
    assert |s| >= 2 ==> s[0].next == s[1];
  }

  method SplitList(list: Item, ghost s: seq<Item>) returns (second: Item)
    requires Chain(list, s) && |s| >= 2
    modifies Nodes(s)`next, Nodes(s)`prev
    ensures Chain(list, s[..Middle(|s|)]) && Chain(second, s[Middle(|s|)..])
    ensures Disjoint(s[..Middle(|s|)], s[Middle(|s|)..])
    ensures Nodes(s) == Nodes(s[..Middle(|s|)]) + Nodes(s[Middle(|s|)..])
    ensures list.prev == old(list.prev) && second.prev == null && second != list
  {
    second := FindMiddle(list, s);
    ghost var m := Middle(|s|);
    SplitNodes(s, m);
    assert second.prev == s[m - 1];
    second.prev.next := null;
    second.prev := null;
  }

  lemma SplitNodes(s: seq<Item>, m: nat)
    requires Distinct(s) && m <= |s|
    ensures Distinct(s[..m]) && Distinct(s[m..])
    ensures Disjoint(s[..m], s[m..])
    ensures Nodes(s) == Nodes(s[..m]) + Nodes(s[m..])
  {
    forall x | x in s[..m] ensures x !in s[m..] {
      var i :| 0 <= i < m && s[i] == x;
      assert forall j :: m <= j < |s| ==> s[i] != s[j];
    }
    assert s == s[..m] + s[m..];
  }

  lemma SortNodes(s: seq<Item>, caseSensitive: bool)
    ensures |SortSeq(s, NameOf, caseSensitive)| == |s|
    ensures Nodes(SortSeq(s, NameOf, caseSensitive)) == Nodes(s)
  {
    SortMembership(s, NameOf, caseSensitive);
    var r := SortSeq(s, NameOf, caseSensitive);
    forall x: Item | x in Nodes(r) ensures x in Nodes(s) {
      assert x in r;
      assert x in s;
    }
    forall x: Item | x in Nodes(s) ensures x in Nodes(r) {
      assert x in s;
      assert x in r;
    }
  }

  // The early exit: a list with every name strictly before the next one is left as it is.
  method TestSorted(list: Item, caseSensitive: bool, ghost s: seq<Item>) returns (sorted: bool)
    requires Chain(list, s)
    ensures sorted <==> StrictlySorted(s, NameOf, caseSensitive)
  {
    var current: Item := list;
    ghost var i := 0;
    while current.next != null && Before(current.name, current.next.name, caseSensitive)
      invariant 0 <= i < |s| && current == s[i]
      invariant forall k :: 0 <= k < i ==> Before(NameOf(s[k]), NameOf(s[k + 1]), caseSensitive)
      decreases |s| - i
    {
      current := current.next;
      i := i + 1;
    }
    assert i + 1 < |s| ==> s[i].next == s[i + 1];
    return current.next == null;
  }

  method FindMiddle(list: Item, ghost s: seq<Item>) returns (second: Item)
    requires Chain(list, s) && |s| >= 2
    ensures second == s[Middle(|s|)]
  {
    second := list;
    var current: Item? := list;
    ghost var i, k := 0, 0;
    while current != null
      invariant 0 <= i <= |s| && current == (if i < |s| then s[i] else null)
      invariant 0 <= k < |s| && second == s[k]
      invariant if i < |s| then i == 2 * k else k == Middle(|s|)
      decreases |s| - i
    {
      assert i + 1 < |s| ==> s[i].next == s[i + 1];
      assert i + 2 < |s| ==> s[i + 1].next == s[i + 2];
      assert s[k].next == s[k + 1];
      second := second.next;
      current := current.next;
      i, k := i + 1, k + 1;
      if current != null {
        current := current.next;
        i := i + 1;
      }
    }
  }

  // Appends an item to the merged part: result_tail->next = smaller; smaller->prev = result_tail.
  method LinkAfter(tail: Item, item: Item, ghost done: seq<Item>, ghost a: seq<Item>, ghost b: seq<Item>)
    requires Linked(done) && done != [] && tail == done[|done| - 1] && item !in Nodes(done)
    requires Chain(item, a) && Distinct(done) && Disjoint(done, a) && Disjoint(done, b)
    requires item !in Nodes(b) && tail !in Nodes(b)
    modifies tail`next, item`prev
    ensures Linked(done + [item]) && Chain(item, a)
  {
    assert tail in done && item in a;
    assert tail in Nodes(done) && item in Nodes(a);
    tail.next := item;
    item.prev := tail;
  }

  // first and second are what is left to merge, done what is merged already, tail its last item.
  ghost predicate Merging(first: Item?, second: Item?, tail: Item?, done: seq<Item>, a: seq<Item>, b: seq<Item>)
    reads Nodes(done), Nodes(a), Nodes(b)
  {
    && Chain(first, a) && Chain(second, b) && Linked(done) && Distinct(done)
    && Disjoint(a, b) && Disjoint(done, a) && Disjoint(done, b)
    && tail == (if done == [] then null else done[|done| - 1])
  }

  // The merge of sort_list(): the loop, then the rest of whichever list is left.
  method MergeLists(first: Item, second: Item, caseSensitive: bool, ghost a: seq<Item>, ghost b: seq<Item>)
    returns (result: Item, ghost r: seq<Item>)
    requires Chain(first, a) && Chain(second, b) && Disjoint(a, b)
    modifies Nodes(a)`next, Nodes(a)`prev, Nodes(b)`next, Nodes(b)`prev
    ensures r == Merge(a, b, NameOf, caseSensitive)
    ensures Chain(result, r) && (result == first || result == second)
    ensures result.prev == old(result.prev)
  {
    var tail: Item?, rest: Item;
    ghost var done, s;
    result := if Before(first.name, second.name, caseSensitive) then first else second;
    tail, rest, done, s := MergeLoop(first, second, caseSensitive, a, b);
    r := AppendRest(tail, rest, done, s);
  }

  method MergeLoop(first0: Item, second0: Item, caseSensitive: bool, ghost a0: seq<Item>, ghost b0: seq<Item>)
    returns (tail: Item?, rest: Item, ghost done: seq<Item>, ghost s: seq<Item>)
    requires Merging(first0, second0, null, [], a0, b0)
    modifies Nodes(a0)`next, Nodes(a0)`prev, Nodes(b0)`next, Nodes(b0)`prev
    ensures Merging(rest, null, tail, done, s, []) && done != []
    ensures Nodes(done) + Nodes(s) == Nodes(a0) + Nodes(b0)
    ensures done + s == Merge(a0, b0, NameOf, caseSensitive)
    ensures done[0] == if Before(first0.name, second0.name, caseSensitive) then first0 else second0
    ensures done[0].prev == old(done[0].prev)
  {
    ghost var head := if Before(first0.name, second0.name, caseSensitive) then first0 else second0;
    var first: Item?, second: Item? := first0, second0;
    ghost var a, b := a0, b0;
    tail, done := null, [];
    while first != null && second != null
      invariant first != null || second != null
      invariant Merging(first, second, tail, done, a, b)
      invariant Nodes(done) + Nodes(a) + Nodes(b) == Nodes(a0) + Nodes(b0)
      invariant if done == [] then first == first0 && second == second0
                else done[0] == head
      invariant head.prev == old(head.prev)
      invariant done + Merge(a, b, NameOf, caseSensitive) == Merge(a0, b0, NameOf, caseSensitive)
      decreases |a| + |b|
    {
      first, second, tail, done, a, b := TakeSmaller(first, second, tail, caseSensitive, done, a, b);
    }
    if first != null {
      rest, s := first, a;
    } else {
      rest, s := second, b;
    }
  }

  // One turn of the merge loop.
  method TakeSmaller(first: Item, second: Item, tail: Item?, caseSensitive: bool,
                     ghost done: seq<Item>, ghost a: seq<Item>, ghost b: seq<Item>)
    returns (first': Item?, second': Item?, tail': Item, ghost done': seq<Item>, ghost a': seq<Item>, ghost b': seq<Item>)
    requires Merging(first, second, tail, done, a, b)
    modifies Nodes(done)`next, first`prev, second`prev
    ensures Merging(first', second', tail', done', a', b')
    ensures first' != null || second' != null
    ensures Nodes(done') + Nodes(a') + Nodes(b') == Nodes(done) + Nodes(a) + Nodes(b)
    ensures |a'| + |b'| < |a| + |b|
    ensures done' == done + [if Before(first.name, second.name, caseSensitive) then first else second]
    ensures done'[0].prev == old(done'[0].prev)
    ensures done' + Merge(a', b', NameOf, caseSensitive) == done + Merge(a, b, NameOf, caseSensitive)
  {
    MergeStep(done, a, b, caseSensitive);
    assert first in a && second in b;
    assert first in Nodes(a) && second in Nodes(b);
    first', second', a', b' := first, second, a, b;
    if Before(first.name, second.name, caseSensitive) {
      tail' := first;
      first', done', a' := TakeHead(tail, first, done, a, b);
    } else {
      tail' := second;
      second', done', b' := TakeHead(tail, second, done, b, a);
    }
  }

  // result_tail->next = rest; rest->prev = result_tail, when one list has run out.
  method AppendRest(tail: Item, rest: Item, ghost done: seq<Item>, ghost s: seq<Item>) returns (ghost r: seq<Item>)
    requires Linked(done) && done != [] && tail == done[|done| - 1] && Distinct(done)
    requires Chain(rest, s) && Disjoint(done, s)
    modifies Nodes(done)`next, Nodes(s)`prev
    ensures r == done + s && Chain(done[0], r)
  {
    assert tail in done && rest in s;
    assert tail in Nodes(done) && rest in Nodes(s);
    LinkAfter(tail, rest, done, s, []);
    JoinChain(done, rest, s);
    r := done + s;
  }

  // Moves the head of one list to the end of the merged part.
  method TakeHead(tail: Item?, head: Item, ghost done: seq<Item>, ghost s: seq<Item>, ghost other: seq<Item>)
    returns (rest: Item?, ghost newDone: seq<Item>, ghost t: seq<Item>)
    requires Linked(done) && (if done == [] then tail == null else tail == done[|done| - 1])
    requires Distinct(done) && Disjoint(done, s) && Disjoint(s, other) && Disjoint(done, other)
    requires Chain(head, s)
    modifies Nodes(done)`next, head`prev
    ensures s != [] && newDone == done + [head] && head == s[0] && t == s[1..]
    ensures Chain(rest, t) && Linked(newDone) && Distinct(newDone)
    ensures Disjoint(newDone, t) && Disjoint(newDone, other)
    ensures Nodes(newDone) + Nodes(t) == Nodes(done) + Nodes(s)
    ensures newDone[0].prev == old(newDone[0].prev)
  {
    assert head in s;
    assert head in Nodes(s);
    assert done != [] ==> done[0] in Nodes(done);
    if tail != null {
      assert tail in done;
      assert tail in Nodes(done);
      LinkAfter(tail, head, done, s, other);
    }
    Unchain(head, s);
    rest, newDone, t := head.next, done + [head], s[1..];
    assert Nodes(newDone) == Nodes(done) + {head};
    assert Nodes(s) == {head} + Nodes(t) && head !in Nodes(t);
  }

  lemma MergeStep(done: seq<Item>, a: seq<Item>, b: seq<Item>, caseSensitive: bool)
    requires a != [] && b != []
    ensures done + Merge(a, b, NameOf, caseSensitive) ==
            if Before(a[0].name, b[0].name, caseSensitive)
            then (done + [a[0]]) + Merge(a[1..], b, NameOf, caseSensitive)
            else (done + [b[0]]) + Merge(a, b[1..], NameOf, caseSensitive)
  {
    var x, y := a[0], b[0];
    if Before(x.name, y.name, caseSensitive) {
      var m := Merge(a[1..], b, NameOf, caseSensitive);
      assert Merge(a, b, NameOf, caseSensitive) == [x] + m;
      assert done + ([x] + m) == (done + [x]) + m;
    } else {
      var m := Merge(a, b[1..], NameOf, caseSensitive);
      assert Merge(a, b, NameOf, caseSensitive) == [y] + m;
      assert done + ([y] + m) == (done + [y]) + m;
    }
  }

  lemma JoinChain(done: seq<Item>, head: Item, s: seq<Item>)
    requires Linked(done + [head]) && Distinct(done) && Disjoint(done, s) && Chain(head, s)
    ensures Chain((done + s)[0], done + s)
  {
    var r, d := done + s, done + [head];
    forall i, j | 0 <= i < j < |r| ensures r[i] != r[j] {
      if i < |done| <= j {
        assert r[i] in done && s[j - |done|] in s;
        assert r[i] in Nodes(done) && r[j] in Nodes(s);
      }
    }
    forall i | 0 <= i < |r| - 1 ensures r[i].next == r[i + 1] && r[i + 1].prev == r[i] {
      if i < |done| {
        assert d[i].next == d[i + 1] && d[i + 1].prev == d[i];
      } else {
        var k := i - |done|;
        assert s[k].next == s[k + 1] && s[k + 1].prev == s[k];
      }
    }
    assert forall i :: 0 < i < |r| ==> r[i].prev == r[i - 1] by {
      forall i | 0 < i < |r| ensures r[i].prev == r[i - 1] { assert r[(i - 1) + 1].prev == r[i - 1]; }
    }
  }

  lemma Unchain(head: Item, s: seq<Item>)
    requires Chain(head, s)
    ensures s != [] && head == s[0]
    ensures Chain(head.next, s[1..]) && head !in s[1..]
  {
    assert |s| > 1 ==> s[0].next == s[1];
  }

  // sort_object(). The chain is sorted. The first child's prev stays with the first child or is NULL
  // now. A ring survives exactly when the first child's name comes before all others, and the last
  // child's behind all others.
  method SortObject(parent: Item, caseSensitive: bool, ghost back: Back)
    requires parent.Listed() && Leads(parent.children, back)
    modifies parent`child, parent`children, Nodes(parent.children)`next, Nodes(parent.children)`prev
    ensures parent.children == SortSeq(old(parent.children), NameOf, caseSensitive)
    ensures parent.Listed() && |parent.children| == |old(parent.children)|
    ensures Leads(parent.children, BackAfterSort(Names(old(parent.children), NameOf), back, caseSensitive))
    ensures var s := old(parent.children);
      old(parent.Ring()) ==>
        (parent.Ring() <==> FirstIsLeast(s, NameOf, caseSensitive) && LastIsGreatest(s, NameOf, caseSensitive))
  {
    hide SortSeq, FirstIsLeast, LastIsGreatest;
    ghost var s, r := parent.children, [];
    SortNodes(s, caseSensitive);
    assert parent !in Nodes(s);
    parent.child, r := SortList(parent.child, caseSensitive, s);
    assert parent !in r by { assert parent !in Nodes(r); }
    parent.children := r;
    EndsStay(s, caseSensitive);
    BackMoves(s, back, caseSensitive);
  }

  // What the first child's prev leads to, once the children are at their new places.
  lemma BackMoves(s: seq<Item>, back: Back, caseSensitive: bool)
    requires Distinct(s)
    ensures var r, after := SortSeq(s, NameOf, caseSensitive), BackAfterSort(Names(s, NameOf), back, caseSensitive);
      && |r| == |s| && (forall x <- r :: x in s)
      && (s != [] && r[0] != s[0] ==> after == Nowhere)
      && (s != [] && r[0] == s[0] ==>
            match back
            case ToChild(k) => k < |s| ==> after.ToChild? && after.k < |s| && r[after.k] == s[k]
            case _ => after == back)
  {
    hide SortSeq;
    SortIsPick(s, NameOf, caseSensitive);
    OrderPermutes(Names(s, NameOf), caseSensitive);
    SortMembership(s, NameOf, caseSensitive);
  }

  lemma EndsStay(s: seq<Item>, caseSensitive: bool)
    requires Distinct(s)
    ensures |SortSeq(s, NameOf, caseSensitive)| == |s|
    ensures var r := SortSeq(s, NameOf, caseSensitive);
      (s == [] || (r[0] == s[0] && r[|s| - 1] == s[|s| - 1]))
      <==> FirstIsLeast(s, NameOf, caseSensitive) && LastIsGreatest(s, NameOf, caseSensitive)
  {
    hide SortSeq;
    SortMembership(s, NameOf, caseSensitive);
    if s != [] {
      FirstStays(s, NameOf, caseSensitive);
      LastStays(s, NameOf, caseSensitive);
    }
  }

  // Two children in the wrong order are enough to break it.
  method TwoChildrenBreakTheRing() returns (parent: Item)
    ensures |parent.children| == 2 && parent.children[0].name == "a" && parent.children[1].name == "b"
    ensures Chain(parent.child, parent.children) && !parent.Ring()
  {
    parent := new Item("", EMPTY);
    var b := new Item("b", EMPTY);
    var a := new Item("a", EMPTY);
    parent.child, b.next, b.prev, a.prev := b, a, a, b;
    parent.children := [b, a];
    assert parent.Ring();
    assert CompareStrings("b", "a", true) == 1 && CompareStrings("a", "b", true) == -1;
    SortObject(parent, true, ToChild(1));
    TwoSorted(b, a);
  }

  lemma TwoSorted(b: Item, a: Item)
    requires a.name == "a" && b.name == "b" && CompareStrings("b", "a", true) == 1 && CompareStrings("a", "b", true) == -1
    ensures SortSeq([b, a], NameOf, true) == [a, b] && !FirstIsLeast([b, a], NameOf, true)
  {
    hide CompareStrings;
    var s := [b, a];
    assert !Before(NameOf(s[0]), NameOf(s[1]), true);
    assert s[..1] == [b] && s[1..] == [a] && [b][1..] == [] && [a][1..] == [];
    assert Merge([b], [a], NameOf, true) == [a] + Merge([b], [], NameOf, true);
  }
}
