// Appending to an object that was sorted.
module OpenRing {
  import opened ChildRing
  import opened Items
  import opened MergeSort
  import opened Rings
  import opened SortList

  // cJSONUtils_SortObject() and cJSON_AddItemToArray(), one after the other. The second always says
  // true. It appends exactly when the first child's name came before all others and the last child's
  // behind all others. If the first one's did not, nothing is linked; if only the last one's did not,
  // the item follows that child, and all that is behind it after sorting is lost.
  method SortThenAdd(parent: Item, item: Item, caseSensitive: bool) returns (ok: bool)
    requires parent.Ring() && parent.children != []
    requires item !in parent.children && item.next == null && item != parent
    modifies parent`child, parent`children, Nodes(parent.children)`next, Nodes(parent.children)`prev, item
    ensures ok && parent.Listed()
    ensures var s, t := old(parent.children), parent.children;
      var r := SortSeq(s, NameOf, caseSensitive);
      && (t == r + [item] <==> FirstIsLeast(s, NameOf, caseSensitive) && LastIsGreatest(s, NameOf, caseSensitive))
      && (!FirstIsLeast(s, NameOf, caseSensitive) ==> t == r)
      && (FirstIsLeast(s, NameOf, caseSensitive) && !LastIsGreatest(s, NameOf, caseSensitive) ==>
            var w := WhereIs(Order(Names(s, NameOf), caseSensitive), |s| - 1);
            |r| == |s| && w < |r| - 1 && r[w] == s[|s| - 1] && t == r[..w + 1] + [item])
  {
    hide SortSeq, FirstIsLeast, LastIsGreatest, Order, Leads, WhereIs;
    ghost var s, back := parent.children, ClosedBack(|parent.children|);
    assert Leads(s, back) by { RingLeads(parent); }
    SortObject(parent, caseSensitive, back);
    ghost var after := BackAfterSort(Names(s, NameOf), back, caseSensitive);
    SortNodes(s, caseSensitive);
    assert item !in Nodes(s);
    BehindIsChild(parent, after);
    AppendAfterSort(s, back, NameOf, item, caseSensitive);
    ok := AddItemToArray(parent, item, after);
  }

  lemma RingLeads(parent: Item)
    requires parent.Ring()
    ensures Leads(parent.children, ClosedBack(|parent.children|))
  {
  }

  lemma BehindIsChild(parent: Item, back: Back)
    requires parent.Listed() && Leads(parent.children, back) && back != Astray
    ensures Behind(parent) <= Nodes(parent.children)
  {
  }
}
