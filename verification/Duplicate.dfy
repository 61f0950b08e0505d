// cJSON_Duplicate(): a copy of a tree on nodes of its own.
module Duplicate {
  import opened Items

  // What the nodes of a tree hold, and their order.
  datatype Tree = Tree(name: string, content: Content, children: seq<Tree>)

  // The copy holds the same, and owns it.
  function Owned(t: Tree): (u: Tree)
    ensures u.name == t.name && |u.children| == |t.children|
    ensures forall i :: 0 <= i < |t.children| ==> u.children[i] == Owned(t.children[i])
  {
    Tree(t.name, t.content.(isReference := false),
         seq(|t.children|, i requires 0 <= i < |t.children| => Owned(t.children[i])))
  }

  function Alone(t: Tree): Tree {
    t.(children := [])
  }

  const CIRCULAR_LIMIT: nat := 10000

  // How many levels there are below the root.
  function Height(t: Tree): nat {
    HeightOf(t, t.children)
  }

  function HeightOf(whole: Tree, ts: seq<Tree>): nat
    requires forall i :: 0 <= i < |ts| ==> ts[i] < whole
    decreases whole, |ts|
  {
    if ts == [] then 0
    else
      var first, rest := 1 + Height(ts[0]), HeightOf(whole, ts[1..]);
      if first >= rest then first else rest
  }

  // The node is the root of such a tree, of which all other nodes are among those below. Every child
  // list is a ring.
  ghost predicate Holds(item: Item, t: Tree, below: set<Item>)
    reads item`child, item`children, below
    decreases t
  {
    && item.name == t.name && item.content == t.content && Nodes(item.children) <= below && |item.children| == |t.children|
    && Chain(item.child, item.children)
    && (item.children != [] ==> item.children[0].prev == item.children[|item.children| - 1])
    && forall i :: 0 <= i < |t.children| ==> item.children[i] in below && Holds(item.children[i], t.children[i], below)
  }

  lemma {:induction false} HoldsMore(item: Item, t: Tree, below: set<Item>, more: set<Item>)
    requires Holds(item, t, below) && below <= more
    ensures Holds(item, t, more)
    decreases t
  {
    forall i | 0 <= i < |t.children| ensures item.children[i] in more && Holds(item.children[i], t.children[i], more) {
      HoldsMore(item.children[i], t.children[i], below, more);
    }
  }

  // The tallest of the children decides.
  lemma {:induction false} HeightIs(whole: Tree, ts: seq<Tree>, limit: nat)
    requires forall i :: 0 <= i < |ts| ==> ts[i] < whole
    ensures HeightOf(whole, ts) <= limit <==> forall i :: 0 <= i < |ts| ==> Height(ts[i]) < limit
    decreases |ts|
  {
    if ts != [] {
      HeightIs(whole, ts[1..], limit);
      assert forall i :: 1 <= i < |ts| ==> ts[i] == ts[1..][i - 1];
    }
  }

  // A chain of copies that is not closed yet: the head's prev is still NULL.
  ghost predicate Strung(head: Item?, ns: seq<Item>)
    reads Nodes(ns)
  {
    Chain(head, ns) && (ns != [] ==> ns[0].prev == null)
  }

  ghost predicate AllHold(ns: seq<Item>, ts: seq<Tree>, below: set<Item>)
    reads Nodes(ns)`child, Nodes(ns)`children, below
  {
    |ns| <= |ts| && forall i :: 0 <= i < |ns| ==> Holds(ns[i], ts[i], below)
  }

  lemma AllHoldMore(ns: seq<Item>, ts: seq<Tree>, below: set<Item>, more: set<Item>)
    requires AllHold(ns, ts, below) && below <= more
    ensures AllHold(ns, ts, more)
  {
    forall i | 0 <= i < |ns| ensures Holds(ns[i], ts[i], more) {
      HoldsMore(ns[i], ts[i], below, more);
    }
  }

  // next->next = newchild; newchild->prev = next; or the first child.
  method StringTo(parent: Item, last: Item?, child: Item, ghost ns: seq<Item>)
    requires Strung(parent.child, ns) && parent !in ns && child !in ns && child != parent
    requires last == (if ns == [] then null else ns[|ns| - 1]) && child.next == null && child.prev == null
    modifies parent`child, Nodes(ns)`next, child`prev
    ensures Strung(parent.child, ns + [child])
  {
    assert last != null ==> last in Nodes(ns);
    if last != null {
      last.next := child;
      child.prev := last;
    } else {
      parent.child := child;
    }
    ghost var all := ns + [child];
    assert forall i :: 0 <= i < |ns| ==> all[i] == ns[i] && ns[i] in Nodes(ns);
  }

  // A copy whose first children are made.
  ghost predicate Partial(copy: Item, last: Item?, ns: seq<Item>, ts: seq<Tree>, made: set<Item>)
    reads copy, Nodes(ns), made
  {
    && copy !in made && copy !in ns && Nodes(ns) !! made && copy.next == null && copy.prev == null
    && last == (if ns == [] then null else ns[|ns| - 1])
    && Strung(copy.child, ns) && AllHold(ns, ts, made)
  }

  method AppendCopy(copy: Item, last: Item?, child: Item, ghost ns: seq<Item>, ghost ts: seq<Tree>, ghost made: set<Item>,
                    ghost below: set<Item>)
    requires Partial(copy, last, ns, ts, made) && |ns| < |ts| && Holds(child, ts[|ns|], below)
    requires child !in below && child !in made && child !in ns && child != copy && child.next == null && child.prev == null
    requires below !! Nodes(ns) && copy !in below
    modifies copy`child, Nodes(ns)`next, child`prev
    ensures Partial(copy, child, ns + [child], ts, made + below)
  {
    hide Holds, Strung;
    HoldsMore(child, ts[|ns|], below, made + below);
    AllHoldMore(ns, ts, made, made + below);
    StringTo(copy, last, child, ns);
  }

  // newitem->child->prev = newchild, and the copy is complete.
  method CloseRing(copy: Item, last: Item?, ghost ns: seq<Item>, ghost t: Tree, ghost made: set<Item>)
    requires Partial(copy, last, ns, t.children, made) && |ns| == |t.children|
    requires copy.name == t.name && copy.content == t.content
    modifies copy`children, Nodes(ns)`prev
    ensures Holds(copy, t, made + Nodes(ns)) && copy !in made + Nodes(ns) && copy.next == null && copy.prev == null
  {
    if copy.child != null {
      assert copy.child in Nodes(ns);
      copy.child.prev := last;
    }
    copy.children := ns;
    assert AllHold(ns, t.children, made);
    AllHoldMore(ns, t.children, made, made + Nodes(ns));
  }

  // cJSON_Duplicate_rec(): NULL when there are more levels than the limit leaves.
  method DuplicateRec(item: Item, depth: nat, recurse: bool, ghost t: Tree, ghost below: set<Item>)
    returns (newitem: Item?, ghost made: set<Item>)
    requires Holds(item, t, below)
    ensures newitem == null <==> recurse && t.children != [] && depth + Height(t) > CIRCULAR_LIMIT
    ensures fresh(made)
    ensures newitem != null ==>
      && fresh(newitem) && newitem !in made && newitem.next == null && newitem.prev == null
      && Holds(newitem, if recurse then Owned(t) else Alone(Owned(t)), made)
    decreases t
  {
    hide Holds, Partial, HeightOf, Owned;
    made := {};
    newitem := new Item(item.name, item.content.(isReference := false));
    ghost var u := Owned(t);
    OwnedContent(t);
    ItemStarts(item, t, below, newitem);
    if !recurse {
      return;
    }
    var copy: Item := newitem;
    ghost var i := 0;
    ghost var ns: seq<Item> := [];
    HeightIs(t, t.children, if depth <= CIRCULAR_LIMIT then CIRCULAR_LIMIT - depth else 0);
    var child, next: Item? := item.child, null;
    while child != null
      invariant 0 <= i == |ns| <= |t.children| && |item.children| == |t.children|
      invariant child == (if i < |t.children| then item.children[i] else null)
      invariant fresh(copy) && fresh(made) && fresh(Nodes(ns)) && copy.name == u.name && copy.content == u.content
      invariant Partial(copy, next, ns, u.children, made)
      invariant i > 0 ==> depth < CIRCULAR_LIMIT
      invariant forall k :: 0 <= k < i ==> depth + 1 + Height(t.children[k]) <= CIRCULAR_LIMIT
      decreases |t.children| - i
    {
      TallEnough(t, depth);
      if depth >= CIRCULAR_LIMIT {
        return null, made;
      }
      NextChild(item, t, below, i);
      ghost var b;
      var newchild;
      newchild, b := DuplicateRec(child, depth + 1, true, t.children[i], below);
      TallEnough(t.children[i], depth + 1);
      if newchild == null {
        return null, made;
      }
      AppendCopy(copy, next, newchild, ns, u.children, made, b);
      assert Nodes(ns + [newchild]) == Nodes(ns) + {newchild};
      made, ns, i := made + b, ns + [newchild], i + 1;
      next := newchild;
      child := child.next;
    }
    CloseRing(copy, next, ns, u, made);
    made := made + Nodes(ns);
    newitem := copy;
  }

  lemma OwnedContent(t: Tree)
    ensures Owned(t).content == t.content.(isReference := false)
  {
  }

  lemma TallEnough(t: Tree, depth: nat)
    ensures t.children != [] <==> Height(t) > 0
    ensures depth <= CIRCULAR_LIMIT ==>
      (t.children != [] && depth + Height(t) > CIRCULAR_LIMIT <==> depth + Height(t) > CIRCULAR_LIMIT)
  {
  }

  lemma ItemStarts(item: Item, t: Tree, below: set<Item>, copy: Item)
    requires Holds(item, t, below) && copy.name == item.name && copy.content == item.content.(isReference := false)
    requires copy.child == null && copy.children == []
    requires copy.next == null && copy.prev == null
    ensures item.name == t.name && item.content == t.content && |item.children| == |t.children|
    ensures item.child == if t.children == [] then null else item.children[0]
    ensures Holds(copy, Alone(Owned(t)), {}) && Partial(copy, null, [], Owned(t).children, {})
  {
  }

  lemma NextChild(item: Item, t: Tree, below: set<Item>, i: nat)
    requires Holds(item, t, below) && i < |t.children|
    ensures |item.children| == |t.children| && item.children[i] in below && Holds(item.children[i], t.children[i], below)
    ensures item.children[i].next == if i + 1 < |t.children| then item.children[i + 1] else null
  {
  }

  // cJSON_Duplicate(): the copy holds what the original holds, in its order, with a ring at every level,
  // and has no node in common with anything that was there.
  method DuplicateItem(item: Item?, recurse: bool, ghost t: Tree, ghost below: set<Item>)
    returns (newitem: Item?, ghost made: set<Item>)
    requires item != null ==> Holds(item, t, below)
    ensures newitem == null <==> item == null || (recurse && Height(t) > CIRCULAR_LIMIT)
    ensures fresh(made)
    ensures newitem != null ==>
      && fresh(newitem) && newitem !in made && newitem.next == null && newitem.prev == null
      && Holds(newitem, if recurse then Owned(t) else Alone(Owned(t)), made)
  {
    if item == null {
      return null, {};
    }
    newitem, made := DuplicateRec(item, 0, recurse, t, below);
    TallEnough(t, 0);
  }
}
