// The document that apply_patch() edits step by step.
module PatchDocument {
  import opened CStrings
  import opened Json
  import opened JsonPatch
  import opened PatchRings
  import opened Pointer
  import opened PointerText
  import opened RingTree
  import opened Seqs

  // A status, or none for a step of which nothing is said.
  predicate Leaves(result: Result, status: Option<nat>, root: Tree) {
    match result
    case Unknown => status == None
    case Known(s, t) => status == Some(s) && root == t
  }

  class Document {
    var root: Tree

    constructor (start: Tree)
      ensures root == start
    {
      root := start;
    }

    // detach_path(): takes the item out, or finds nothing and changes nothing.
    method DetachItem(path: string, caseSensitive: bool) returns (item: Option<Tree>)
      modifies this
      ensures match Detach(old(root), path, caseSensitive)
        case None => item == None && root == old(root)
        case Some(d) => item == Some(d.item) && root == d.tree
    {
      var slash := LastSlash(path);
      if slash.None? {
        return None;
      }
      var loc := Locate(Erase(root), path[..slash.value], caseSensitive);
      if loc.None? {
        return None;
      }
      var parent := NodeAt(root, loc.value);
      var i := DetachPosition(Erase(parent), Decoded(path[slash.value + 1..]));
      if i >= ChildCount(Erase(parent)) {
        return None;
      }
      item := Some(Child(parent, i));
      root := PutNode(root, loc.value, TakeOut(parent, i));
    }

    // "Now, just add value to path".
    method AddItem(path: string, value: Tree, caseSensitive: bool) returns (status: Option<nat>)
      modifies this
      ensures Leaves(AddAlong(old(root), path, value, caseSensitive), status, root)
    {
      var slash := LastSlash(path);
      if slash.None? {
        return Some(9);
      }
      var loc := Locate(Erase(root), path[..slash.value], caseSensitive);
      if loc.None? {
        return Some(9);
      }
      var child := Decoded(path[slash.value + 1..]);
      match AddTo(NodeAt(root, loc.value), child, value, caseSensitive) {
        case Unknown => status := None;
        case Known(s, node) =>
          if s == 0 {
            root := PutNode(root, loc.value, node);
          }
          status := Some(s);
      }
    }

    // The test operation: its answer, and the document as the comparison has sorted it.
    method TestItem(patch: Json, path: string, caseSensitive: bool) returns (status: nat)
      modifies this
      ensures TestAt(old(root), patch, path, caseSensitive) == Known(status, root)
    {
      var target := Locate(Erase(root), path, caseSensitive);
      var value := ItemNamed(patch, "value", caseSensitive);
      if target.None? || value.None? {
        return 1;
      }
      var compared := CompareTrees(NodeAt(root, target.value), value.value, caseSensitive);
      root := PutNode(root, target.value, compared.tree);
      return if compared.same then 0 else 1;
    }

    // apply_patch(): the old item is taken out before the new one goes in, and the document
    // keeps what was done before a step failed.
    method ApplyOne(patch: Json, caseSensitive: bool) returns (status: Option<nat>)
      modifies this
      ensures Leaves(Apply(old(root), patch, caseSensitive), status, root)
    {
      var named := ItemNamed(patch, "path", caseSensitive);
      if named.None? || !named.value.String? {
        return Some(2);
      }
      var path, opcode := named.value.s, DecodeOperation(patch, caseSensitive);
      var given := ItemNamed(patch, "value", caseSensitive);
      if opcode.InvalidOp? {
        return Some(3);
      } else if opcode.TestOp? {
        var answer := TestItem(patch, path, caseSensitive);
        return Some(answer);
      }
      if path == "" {
        if opcode.RemoveOp? {
          root := Leaf(Invalid);
          return Some(0);
        }
        if opcode.ReplaceOp? || opcode.AddOp? {
          if given.None? {
            return Some(7);
          }
          root := Fresh(given.value);
          return Some(0);
        }
      }
      if opcode.RemoveOp? || opcode.ReplaceOp? {
        var oldItem := DetachItem(path, caseSensitive);
        if oldItem.None? {
          return Some(13);
        }
        if opcode.RemoveOp? {
          return Some(0);
        }
      }
      var value: Option<Tree>;
      if opcode.MoveOp? || opcode.CopyOp? {
        var from := ItemNamed(patch, "from", caseSensitive);
        if from.None? {
          return Some(4);
        }
        if !from.value.String? {
          return Some(5);
        }
        if opcode.MoveOp? {
          value := DetachItem(from.value.s, caseSensitive);
        } else {
          var source := Locate(Erase(root), from.value.s, caseSensitive);
          value := if source.Some? then Some(Fresh(At(Erase(root), source.value))) else None;
        }
        if value.None? {
          return Some(5);
        }
      } else {
        if given.None? {
          return Some(7);
        }
        value := Some(Fresh(given.value));
      }
      status := AddItem(path, value.value, caseSensitive);
    }

    // cJSONUtils_ApplyPatches() and its case-sensitive twin
    method ApplyPatches(patches: Json, caseSensitive: bool) returns (status: Option<nat>)
      modifies this
      ensures patches.Array? ==> Leaves(ApplyRun(old(root), patches.elems, caseSensitive), status, root)
      ensures !patches.Array? ==> status == Some(1) && root == old(root)
    {
      if !patches.Array? {
        return Some(1);
      }
      var ps := patches.elems;
      var i := 0;
      Whole(ps);
      while i < |ps|
        invariant 0 <= i <= |ps|
        invariant ApplyRun(old(root), ps, caseSensitive) == ApplyRun(root, ps[i..], caseSensitive)
      {
        Next(ps, i);
        status := ApplyOne(ps[i], caseSensitive);
        if status != Some(0) {
          return status;
        }
        i := i + 1;
      }
      return Some(0);
    }
  }
}
