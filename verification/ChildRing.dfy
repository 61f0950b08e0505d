// The list operations on the children of an array or object node. Each keeps the links (child, next,
// prev) and refines an operation on the sequence of children; appending and detaching also where the
// first child's prev does not lead to the last child.
module ChildRing {
  import opened Items
  import opened Rings

  ghost function RemovedAt(s: seq<Item>, k: nat): seq<Item>
    requires k < |s|
  {
    s[..k] + s[k + 1..]
  }

  ghost function InsertedAt(s: seq<Item>, k: nat, item: Item): seq<Item>
    requires k <= |s|
  {
    s[..k] + [item] + s[k..]
  }

  lemma NextOf(head: Item?, s: seq<Item>, i: nat)
    requires Chain(head, s) && i < |s|
    ensures s[i].next == if i + 1 < |s| then s[i + 1] else null
    ensures i > 0 ==> s[i].prev == s[i - 1]
    ensures s[i] == head <==> i == 0
  {
  }

  // get_array_item(): NULL past the end.
  method GetArrayItem(parent: Item, index: nat) returns (item: Item?)
    requires parent.Ring()
    ensures item == if index < |parent.children| then parent.children[index] else null
  {
    item := parent.child;
    var left: nat := index;
    ghost var i := 0;
    while item != null && left > 0
      invariant i + left == index && i <= |parent.children|
      invariant item == if i < |parent.children| then parent.children[i] else null
      invariant item == null <==> i == |parent.children|
    {
      NextOf(parent.child, parent.children, i);
      left := left - 1;
      item := item.next;
      i := i + 1;
    }
  }

  // cJSON_AddItemToArray(): the item must not be linked anywhere below the parent. It says true also
  // when the first child's prev is NULL and nothing is linked.
  method AddItemToArray(parent: Item, item: Item?, ghost back: Back) returns (ok: bool)
    requires parent.Listed() && Leads(parent.children, back)
    requires item != null ==> item !in parent.children && item.next == null
    modifies parent`child, parent`children, Nodes(parent.children)`next, Nodes(parent.children)`prev, Behind(parent)`next
    modifies if item == null then {} else {item}
    ensures ok <==> item != null && item != parent
    ensures parent.Listed()
    ensures var s := old(parent.children);
      if ok then parent.children == Appended(s, back, item) && Leads(parent.children, BackAfterAppend(|s|, back))
      else parent.children == s && Leads(s, back)
  {
    if item == null || item == parent {
      return false;
    }
    ghost var s := parent.children;
    var child := parent.child;
    if child == null {
      parent.child := item;
      item.prev := item;
      item.next := null;
    } else if child.prev != null {
      var last := child.prev;
      assert child in Nodes(s) && last in Behind(parent);
      last.next := item;
      item.prev := last;
      child.prev := item;
    }
    parent.children := Appended(s, back, item);
    return true;
  }

  // The same on a ring.
  method AddToRing(parent: Item, item: Item?) returns (ok: bool)
    requires parent.Ring()
    requires item != null ==> item !in parent.children && item.next == null
    modifies parent`child, parent`children, Nodes(parent.children)`next, Nodes(parent.children)`prev
    modifies if item == null then {} else {item}
    ensures ok <==> item != null && item != parent
    ensures parent.Ring()
    ensures parent.children == if ok then old(parent.children) + [item] else old(parent.children)
  {
    ghost var s, back := parent.children, ClosedBack(|parent.children|);
    assert Behind(parent) <= Nodes(s);
    ok := AddItemToArray(parent, item, back);
    if ok {
      ClosedStaysClosed(s, back, item, 0);
      RingIsClosed(parent, BackAfterAppend(|s|, back));
    } else {
      RingIsClosed(parent, back);
    }
  }

  // cJSON_DetachItemViaPointer(): NULL for no item, or for one that hangs nowhere.
  method DetachItemViaPointer(parent: Item, item: Item?, ghost back: Back) returns (detached: Item?, ghost k: nat)
    requires parent.Listed() && Leads(parent.children, back)
    requires item != null ==> item in parent.children || item.prev == null
    modifies parent`child, parent`children, Nodes(parent.children)`next, Nodes(parent.children)`prev
    ensures parent.Listed()
    ensures detached == if item != null && item in old(parent.children) then item else null
    ensures detached == null ==> parent.children == old(parent.children) && Leads(parent.children, back)
    ensures detached != null ==> item.prev == null && item.next == null
    ensures detached != null ==> k < |old(parent.children)| && item == old(parent.children)[k]
    ensures detached != null ==>
      && parent.children == RemovedAt(old(parent.children), k)
      && Leads(parent.children, BackAfterDetach(|old(parent.children)|, back, k))
  {
    k := 0;
    if item != null && item in parent.children {
      k :| k < |parent.children| && parent.children[k] == item;
      NextOf(parent.child, parent.children, k);
    }
    if item == null || (item != parent.child && item.prev == null) {
      return null, k;
    }
    Unlink(parent, item, k, back);
    detached := item;
  }

  // The relinking of cJSON_DetachItemViaPointer() and detach_item_from_array().
  method Unlink(parent: Item, item: Item, ghost k: nat, ghost back: Back)
    requires parent.Listed() && Leads(parent.children, back)
    requires k < |parent.children| && item == parent.children[k]
    modifies parent`child, parent`children, Nodes(parent.children)`next, Nodes(parent.children)`prev
    ensures parent.Listed() && parent.children == RemovedAt(old(parent.children), k)
    ensures Leads(parent.children, BackAfterDetach(|old(parent.children)|, back, k))
    ensures item.prev == null && item.next == null
  {
    ghost var s := parent.children;
    NextOf(parent.child, s, k);
    assert item in Nodes(s);
    if item != parent.child {
      assert item.prev == s[k - 1] && item.prev in Nodes(s);
      item.prev.next := item.next;
    }
    if item.next != null {
      assert item.next in Nodes(s);
      item.next.prev := item.prev;
    }
    if item == parent.child {
      parent.child := item.next;
    } else if item.next == null {
      parent.child.prev := item.prev;
    }
    item.prev := null;
    item.next := null;
    RemovedLinks(s, k);
    parent.children := RemovedAt(s, k);
  }

  lemma RemovedLinks(s: seq<Item>, k: nat)
    requires k < |s| && Distinct(s)
    requires forall j :: 0 <= j < |s| - 1 && j != k && j + 1 != k ==> s[j].next == s[j + 1] && s[j + 1].prev == s[j]
    requires 0 < k < |s| - 1 ==> s[k - 1].next == s[k + 1] && s[k + 1].prev == s[k - 1]
    ensures Distinct(RemovedAt(s, k)) && Linked(RemovedAt(s, k))
    ensures forall x <- RemovedAt(s, k) :: x in s
  {
    var r := RemovedAt(s, k);
    forall i | 0 <= i < |r| - 1 ensures r[i].next == r[i + 1] && r[i + 1].prev == r[i] {
      if i + 1 < k {
        assert s[i].next == s[i + 1];
      } else if i >= k {
        assert s[i + 1].next == s[i + 2];
      }
    }
    LinksBothWays(r);
  }

  lemma InsertedLinks(s: seq<Item>, k: nat, item: Item)
    requires k < |s| && Distinct(s) && item !in s
    requires forall j :: 0 <= j < |s| - 1 && j + 1 != k ==> s[j].next == s[j + 1] && s[j + 1].prev == s[j]
    requires k > 0 ==> s[k - 1].next == item && item.prev == s[k - 1]
    requires item.next == s[k] && s[k].prev == item
    ensures Distinct(InsertedAt(s, k, item)) && Linked(InsertedAt(s, k, item))
  {
    var r := InsertedAt(s, k, item);
    forall i | 0 <= i < |r| - 1 ensures r[i].next == r[i + 1] && r[i + 1].prev == r[i] {
      if i + 1 < k {
        assert s[i].next == s[i + 1];
      } else if i > k {
        assert s[i - 1].next == s[i];
      }
    }
    LinksBothWays(r);
  }

  lemma LinksBothWays(r: seq<Item>)
    requires forall i :: 0 <= i < |r| - 1 ==> r[i].next == r[i + 1] && r[i + 1].prev == r[i]
    ensures Linked(r)
  {
    forall i | 0 < i < |r| ensures r[i].prev == r[i - 1] {
      assert r[i - 1].next == r[i];
    }
  }

  // cJSON_DetachItemFromArray() and detach_item_from_array().
  method DetachItemFromArray(parent: Item, index: int) returns (detached: Item?)
    requires parent.Ring()
    modifies parent`child, parent`children, Nodes(parent.children)`next, Nodes(parent.children)`prev
    ensures parent.Ring()
    ensures var s := old(parent.children);
      if 0 <= index < |s|
      then detached == s[index] && parent.children == RemovedAt(s, index)
      else detached == null && parent.children == s
  {
    if index < 0 {
      return null;
    }
    var item := GetArrayItem(parent, index);
    ghost var s, back, k := parent.children, ClosedBack(|parent.children|), 0;
    detached, k := DetachItemViaPointer(parent, item, back);
    if detached != null {
      ClosedStaysClosed(s, back, detached, k);
      RingIsClosed(parent, BackAfterDetach(|s|, back, k));
    }
  }

  // cJSON_InsertItemInArray(): an index past the end appends.
  method InsertItemInArray(parent: Item, index: int, item: Item?) returns (ok: bool)
    requires parent.Ring()
    requires item != null ==> item !in parent.children && item.next == null && item != parent
    modifies parent`child, parent`children, Nodes(parent.children)`next, Nodes(parent.children)`prev
    modifies if item == null then {} else {item}
    ensures parent.Ring()
    ensures ok <==> index >= 0 && item != null
    ensures var s := old(parent.children);
      parent.children == if !ok then s else if index < |s| then InsertedAt(s, index, item) else s + [item]
  {
    if index < 0 || item == null {
      return false;
    }
    var after := GetArrayItem(parent, index);
    if after == null {
      ok := AddToRing(parent, item);
      return;
    }
    assert after in parent.children && (index > 0 ==> parent.children[index - 1] == after.prev);
    if after != parent.child && after.prev == null {
      return false;
    }
    InsertBefore(parent, after, item, index);
    return true;
  }

  // insert_item_in_array() of the patch code: an index past the end is an error.
  method InsertItemOrFail(parent: Item, index: nat, item: Item) returns (ok: bool)
    requires parent.Ring()
    requires item !in parent.children && item.next == null && item != parent
    modifies parent`child, parent`children, Nodes(parent.children)`next, Nodes(parent.children)`prev, item
    ensures parent.Ring()
    ensures ok <==> index <= |old(parent.children)|
    ensures parent.children ==
            if ok then InsertedAt(old(parent.children), index, item) else old(parent.children)
  {
    var child := parent.child;
    var which: nat := index;
    ghost var i := 0;
    while child != null && which > 0
      invariant i + which == index && i <= |parent.children|
      invariant child == if i < |parent.children| then parent.children[i] else null
      invariant child == null <==> i == |parent.children|
      modifies {}
    {
      NextOf(parent.child, parent.children, i);
      child := child.next;
      which := which - 1;
      i := i + 1;
    }
    if which > 0 {
      return false;
    }
    if child == null {
      ok := AddToRing(parent, item);
    } else {
      InsertBefore(parent, child, item, index);
      ok := true;
    }
  }

  // The relinking that both insertions share.
  method InsertBefore(parent: Item, after: Item, item: Item, ghost k: nat)
    requires parent.Ring()
    requires k < |parent.children| && after == parent.children[k]
    requires item !in parent.children && item != parent
    modifies parent`child, parent`children, Nodes(parent.children)`next, Nodes(parent.children)`prev, item
    ensures parent.Ring() && parent.children == InsertedAt(old(parent.children), k, item)
  {
    ghost var s := parent.children;
    NextOf(parent.child, s, k);
    assert after in Nodes(s);
    item.next := after;
    item.prev := after.prev;
    after.prev := item;
    if after == parent.child {
      parent.child := item;
    } else {
      assert item.prev == s[k - 1] && item.prev in Nodes(s);
      item.prev.next := item;
    }
    InsertedLinks(s, k, item);
    parent.children := InsertedAt(s, k, item);
  }

  lemma ReplacedLinks(s: seq<Item>, k: nat, item: Item)
    requires k < |s| && Distinct(s) && item !in s
    requires forall j :: 0 <= j < |s| - 1 && j != k && j + 1 != k ==> s[j].next == s[j + 1] && s[j + 1].prev == s[j]
    requires k > 0 ==> s[k - 1].next == item && item.prev == s[k - 1]
    requires k + 1 < |s| ==> item.next == s[k + 1] && s[k + 1].prev == item
    ensures Distinct(s[k := item]) && Linked(s[k := item])
  {
    LinksBothWays(s[k := item]);
  }

  // The relinking of cJSON_ReplaceItemViaPointer().
  method ReplaceChild(parent: Item, item: Item, replacement: Item, ghost k: nat)
    requires parent.Ring()
    requires k < |parent.children| && item == parent.children[k]
    requires replacement == item || (replacement !in parent.children && replacement != parent)
    modifies parent`child, parent`children, Nodes(parent.children)`next, Nodes(parent.children)`prev, replacement
    ensures parent.Ring()
    ensures parent.children == old(parent.children)[k := replacement]
    ensures replacement != item ==> item.next == null && item.prev == null
  {
    ghost var s := parent.children;
    if replacement == item {
      return;
    }
    assert item in Nodes(s);
    replacement.next := item.next;
    replacement.prev := item.prev;
    assert item.next == if k + 1 < |s| then s[k + 1] else null;
    if replacement.next != null {
      assert replacement.next in Nodes(s);
      replacement.next.prev := replacement;
    }
    if parent.child == item {
      if parent.child.prev == parent.child {
        replacement.prev := replacement;
      }
      parent.child := replacement;
    } else {
      assert replacement.prev == s[k - 1] && s[k - 1] in Nodes(s) && s[0] in Nodes(s);
      if replacement.prev != null {
        replacement.prev.next := replacement;
      }
      if replacement.next == null {
        parent.child.prev := replacement;
      }
    }
    ReplacedLinks(s, k, replacement);
    item.next := null;
    item.prev := null;
    parent.children := s[k := replacement];
  }

  ghost function Only(item: Item?): set<Item> {
    if item == null then {} else {item}
  }

  ghost function ChildrenOf(parent: Item?): seq<Item>
    reads parent
  {
    if parent == null then [] else parent.children
  }

  // cJSON_ReplaceItemViaPointer(), up to the release of the replaced item: NULL for any of the three,
  // or a parent without children, is an error.
  method ReplaceItemViaPointer(parent: Item?, item: Item?, replacement: Item?, ghost k: nat) returns (ok: bool)
    requires parent != null ==> parent.Ring()
    requires ChildrenOf(parent) != [] && item != null ==> k < |ChildrenOf(parent)| && item == ChildrenOf(parent)[k]
    requires replacement != null && replacement != item ==> replacement !in ChildrenOf(parent) && replacement != parent
    modifies Only(parent)`child, Only(parent)`children, Nodes(ChildrenOf(parent))`next, Nodes(ChildrenOf(parent))`prev,
      Only(replacement)
    ensures parent != null ==> parent.Ring()
    ensures ok <==> old(ChildrenOf(parent)) != [] && item != null && replacement != null
    ensures ChildrenOf(parent) == if ok then old(ChildrenOf(parent))[k := replacement] else old(ChildrenOf(parent))
    ensures ok && replacement != item ==> item.next == null && item.prev == null
    ensures !ok ==> unchanged(Only(parent) + Nodes(old(ChildrenOf(parent))) + Only(replacement))
  {
    if parent == null || parent.child == null || replacement == null || item == null {
      return false;
    }
    ReplaceChild(parent, item, replacement, k);
    return true;
  }

  // The loop by which cJSON_Duplicate() and the parser string together freshly made nodes,
  // closing the ring at the end.
  method LinkChildren(parent: Item, items: seq<Item>)
    requires Distinct(items) && parent !in items && parent.child == null
    requires forall x <- items :: x.next == null && x.prev == null
    modifies parent`child, parent`children, Nodes(items)`next, Nodes(items)`prev
    ensures parent.Ring() && parent.children == items
  {
    var last: Item? := null;
    var i := 0;
    while i < |items|
      invariant 0 <= i <= |items|
      invariant parent.child == (if i == 0 then null else items[0])
      invariant last == (if i == 0 then null else items[i - 1])
      invariant forall k :: 0 <= k < i - 1 ==> items[k].next == items[k + 1] && items[k + 1].prev == items[k]
      invariant i > 0 ==> last.next == null && items[0].prev == null
      invariant forall k :: i <= k < |items| ==> items[k].next == null && items[k].prev == null
    {
      var item := items[i];
      assert item in Nodes(items);
      if last != null {
        assert last in Nodes(items);
        last.next := item;
        item.prev := last;
      } else {
        parent.child := item;
      }
      last := item;
      i := i + 1;
    }
    LinksBothWays(items);
    if parent.child != null {
      assert parent.child in Nodes(items);
      parent.child.prev := last;
    }
    parent.children := items;
  }
}
