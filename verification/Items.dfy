// Tree nodes and their child lists: a ring through prev, a NULL-ended chain through next.
module Items {
  import opened CStrings
  import opened Rings

  // What a node holds besides its name and its links.
  datatype Content = Content(kind: nat, isReference: bool, constantName: bool,
                             valueString: Option<string>, valueInt: int, valueDouble: real)

  const EMPTY := Content(0, false, false, None, 0, 0.0)

  class Item {
    const name: string
    const content: Content
    var next: Item?
    var prev: Item?
    var child: Item?
    ghost var children: seq<Item>

    constructor (name: string, content: Content)
      ensures this.name == name && this.content == content
      ensures next == null && prev == null && child == null && children == []
    {
      this.name, this.content := name, content;
      next, prev, child, children := null, null, null, [];
    }

    // child is the first of children, and the links of children agree with the sequence.
    ghost predicate Listed()
      reads this, Nodes(children)
    {
      this !in children && Chain(child, children)
    }

    // Besides, the first one's prev is the last one.
    ghost predicate Ring()
      reads this, Nodes(children)
    {
      && Listed()
      && (children != [] ==> children[0].prev == children[|children| - 1])
    }
  }

  function NameOf(item: Item): string {
    item.name
  }

  ghost function Nodes(s: seq<Item>): set<Item> {
    set x | x in s
  }

  ghost predicate Disjoint(s: seq<Item>, t: seq<Item>) {
    Nodes(s) !! Nodes(t)
  }

  ghost predicate Distinct(s: seq<Item>) {
    forall i, j :: 0 <= i < j < |s| ==> s[i] != s[j]
  }

  // next runs through s and ends in NULL; prev runs back except at the head.
  ghost predicate Chain(head: Item?, s: seq<Item>)
    reads Nodes(s)
  {
    && Distinct(s)
    && (if s == [] then head == null else head == s[0] && s[|s| - 1].next == null)
    && Linked(s)
  }

  ghost predicate Linked(s: seq<Item>)
    reads Nodes(s)
  {
    && (forall i :: 0 <= i < |s| - 1 ==> s[i].next == s[i + 1])
    && (forall i :: 0 < i < |s| ==> s[i].prev == s[i - 1])
  }

  // The first child's prev leads there.
  ghost predicate Leads(s: seq<Item>, back: Back)
    reads Nodes(s)
  {
    s != [] ==>
      match back
      case Nowhere => s[0].prev == null
      case ToChild(k) => k < |s| && s[0].prev == s[k]
      case Astray => s[0].prev != null && s[0].prev !in s
  }

  lemma RingIsClosed(parent: Item, back: Back)
    requires parent.Listed() && Leads(parent.children, back)
    ensures parent.Ring() <==> Closed(|parent.children|, back)
  {
  }

  // The node that appending goes by.
  ghost function Behind(parent: Item): set<Item>
    reads parent, parent.child
  {
    if parent.child == null || parent.child.prev == null then {} else {parent.child.prev}
  }
}
