// Two hooks in one transaction, on functions that may overlap or be the same: the commit takes the
// newest first, so the oldest is the one that is sure to be entered.
module HookTwice {
  import opened HookIdentity
  import opened JumpEncoding
  import opened Prologue
  import opened Transaction
  import opened X86Relocation

  lemma CommitsTwo(s: State, o: Operation, p: Operation)
    requires SlotsOk(s.code, s.slots) && OperationOk(s, o) && OperationOk(s, p)
    ensures CommitAll(s, [o, p]).0 == CommitOne(CommitOne(s, o).0, p).0
    ensures CommitAll(s, [o, p]).1 == [CommitOne(s, o).1, CommitOne(CommitOne(s, o).0, p).1]
  {
    hide CommitOne, SlotsOk, OperationOk;
    var (one, a) := CommitOne(s, o);
    var (two, b) := CommitOne(one, p);
    assert [o, p][1..] == [p] && [p][1..] == [] && [b] + [] == [b] && [a] + [b] == [a, b];
    assert CommitAll(two, []) == (two, []);
    assert CommitAll(one, [p]) == (two, [b]);
  }

  // What an add leaves over the code, and in the trampolines.
  lemma AddWrites(s: State, h: HookIdentity.Hook)
    requires SlotsOk(s.code, s.slots) && OperationOk(s, AddOf(h))
    ensures var (r, o) := CommitOne(s, AddOf(h));
      && o == AddOf(h) && Mapped(r.code, h.target, SIZE_OF_JMP)
      && Read(r.code, h.target, SIZE_OF_JMP) == JmpImmediate(h.target, h.slot + CODE_IN_OFFSET)
  {
    hide JmpImmediate, CodeIn;
    SlotIsOk(s, h.slot);
    var n := s.slots[h.slot].cbRestore;
    var r, jump := CommitOne(s, AddOf(h)).0, JmpImmediate(h.target, h.slot + CODE_IN_OFFSET);
    assert forall i :: 0 <= i < SIZE_OF_JMP ==> Patch(h.target, h.slot, n)[i] == jump[i];
    assert Read(r.code, h.target, SIZE_OF_JMP) == jump;
  }

  // One attach, as it is put on record.
  lemma AttachedOne(s0: State, t: Table, thread: int, h: HookIdentity.Hook, s: State)
    requires Attachable(s0, t, h) && Valid(s) && s.owner == thread && s.code == s0.code && s.pointers == s0.pointers
    requires h.slot !in s.slots
    ensures AttachOf(s, t, thread, h)
         == (Success, s.(slots := s.slots[h.slot := Record(s0, t, h)], pending := [AddOf(h)] + s.pending))
  {
    hide Attachable, Record, Valid, Attach;
    CanBoth(s0, t, h, s);
    AttachRecords(s0, t, thread, h, s);
  }

  lemma SlotIsFree(s: State, t: Table, h: HookIdentity.Hook)
    requires Attachable(s, t, h)
    ensures h.slot !in s.slots
  {
  }

  // ---------- Where the second function leads in the end ----------

  // The bytes that the first hook's patch puts over the jump of the second are that jump's own.
  predicate Spares(h: HookIdentity.Hook, n: nat, g: HookIdentity.Hook)
    requires n >= SIZE_OF_JMP
  {
    forall a | h.target <= a < h.target + n && Within(a, g.target, SIZE_OF_JMP) ::
      Patch(h.target, h.slot, n)[a - h.target] == JmpImmediate(g.target, Entry(g))[a - g.target]
  }

  // There are no such bytes.
  predicate Misses(h: HookIdentity.Hook, n: nat, g: HookIdentity.Hook) {
    h.target + n <= g.target || g.target + SIZE_OF_JMP <= h.target
  }

  function Entry(h: HookIdentity.Hook): int {
    h.slot + CODE_IN_OFFSET
  }

  ghost predicate Enters(code: Memory, h: HookIdentity.Hook) {
    Mapped(code, h.target, SIZE_OF_JMP) && Read(code, h.target, SIZE_OF_JMP) == JmpImmediate(h.target, Entry(h))
  }

  lemma EntersIs(code: Memory, h: HookIdentity.Hook)
    ensures Enters(code, h) <==> forall a | Within(a, h.target, SIZE_OF_JMP) ::
      a in code && code[a] == JmpImmediate(h.target, Entry(h))[a - h.target]
  {
    hide JmpImmediate;
    var jump := JmpImmediate(h.target, Entry(h));
    if Enters(code, h) {
      forall a | Within(a, h.target, SIZE_OF_JMP) ensures a in code && code[a] == jump[a - h.target] {
        assert Read(code, h.target, SIZE_OF_JMP)[a - h.target] == code[a];
      }
    } else if forall a | Within(a, h.target, SIZE_OF_JMP) :: a in code && code[a] == jump[a - h.target] {
      ReadIs(code, h.target, jump);
    }
  }

  // The jump of g, and then the patch of h over it.
  lemma PatchedOver(code: Memory, h: HookIdentity.Hook, n: nat, g: HookIdentity.Hook)
    requires Enters(code, g) && n >= SIZE_OF_JMP && Mapped(code, h.target, n)
    ensures Enters(Write(code, h.target, Patch(h.target, h.slot, n)), g) <==> Spares(h, n, g)
  {
    hide Patch, JmpImmediate, Enters, Read;
    EntersIs(code, g);
    EntersIs(Write(code, h.target, Patch(h.target, h.slot, n)), g);
  }

  lemma AddEnters(s: State, h: HookIdentity.Hook)
    requires SlotsOk(s.code, s.slots) && OperationOk(s, AddOf(h))
    ensures var n := s.slots[h.slot].cbRestore; n >= SIZE_OF_JMP && Mapped(s.code, h.target, n)
    ensures var (r, o) := CommitOne(s, AddOf(h));
      && o == AddOf(h) && Enters(r.code, h) && (forall k <- s.slots :: k in r.slots && r.slots[k].cbRestore == s.slots[k].cbRestore)
      && r.code == Write(s.code, h.target, Patch(h.target, h.slot, s.slots[h.slot].cbRestore))
  {
    hide JmpImmediate, CodeIn, Patch;
    SlotIsOk(s, h.slot);
    AddWrites(s, h);
  }

  // The commit of two adds.
  lemma CommittedTwo(s: State, thread: int, h: HookIdentity.Hook, g: HookIdentity.Hook)
    requires Valid(s) && s.owner == thread && s.pending == [AddOf(g), AddOf(h)]
    ensures h.slot in s.slots && g.slot in s.slots && s.slots[h.slot].cbRestore >= SIZE_OF_JMP
    ensures var r := Commit(s, thread);
      && r.0 == Success && g.slot in r.1.slots && Enters(r.1.code, h)
      && (Enters(r.1.code, g) <==> Spares(h, s.slots[h.slot].cbRestore, g))
  {
    hide CommitOne, CommitAll, SlotsOk, Freed, Spares, Enters, Patch, OperationOk;
    assert AddOf(g) in s.pending && AddOf(h) in s.pending;
    CommitsTwo(s, AddOf(g), AddOf(h));
    AddEnters(s, g);
    var one := CommitOne(s, AddOf(g)).0;
    AddIsThere(s, h);
    AddIsThere(s, g);
    SlotIsOk(s, h.slot);
    AddEnters(one, h);
    PatchedOver(one.code, h, one.slots[h.slot].cbRestore, g);
    NoneFreed(g, h);
    var last := CommitAll(s, s.pending).0;
    assert last.slots - {} == last.slots;
  }

  lemma AddIsThere(s: State, h: HookIdentity.Hook)
    requires OperationOk(s, AddOf(h))
    ensures h.slot in s.slots
  {
  }

  // Both attaches succeed, and so does the commit. The function that was attached first jumps to its
  // trampoline, and the other one does so exactly when the patch of the first spares its jump.
  lemma BothEnteredExactly(s0: State, t: Table, thread: int, h: HookIdentity.Hook, g: HookIdentity.Hook)
    requires Valid(s0) && s0.owner == 0 && s0.pending == []
    requires Attachable(s0, t, h) && Attachable(s0, t, g) && h.slot != g.slot
    ensures var s1 := AttachOf(Begin(s0, thread).1, t, thread, h); var s2 := AttachOf(s1.1, t, thread, g);
      var r := Commit(s2.1, thread);
      && s1.0 == Success && s2.0 == Success && r.0 == Success && g.slot in r.1.slots
      && Enters(r.1.code, h) && (Enters(r.1.code, g) <==> Spares(h, Taken(s0, t, h), g))
  {
    hide Attachable, Commit, Record, Valid, AttachOf, Enters, Spares, Taken;
    var begun := Begin(s0, thread).1;
    SlotIsFree(s0, t, h);
    SlotIsFree(s0, t, g);
    AttachedOne(s0, t, thread, h, begun);
    var s1 := AttachOf(begun, t, thread, h).1;
    AttachedOne(s0, t, thread, g, s1);
    var s2 := AttachOf(s1, t, thread, g).1;
    assert s2.pending == [AddOf(g), AddOf(h)];
    RecordTakes(s0, t, h);
    CommittedTwo(s2, thread, h, g);
  }

  lemma RecordTakes(s0: State, t: Table, h: HookIdentity.Hook)
    requires Attachable(s0, t, h)
    ensures Record(s0, t, h).cbRestore == Taken(s0, t, h)
  {
    hide Prepare;
  }

  // A patch that misses the jump spares it. One that does not spares it only when the functions
  // start one to four bytes apart and the bytes of the two displacements happen to fall together.
  lemma SparedOrMissed(h: HookIdentity.Hook, n: nat, g: HookIdentity.Hook)
    requires n >= SIZE_OF_JMP && h.slot != g.slot
    requires FitsInt32(Entry(h) - (h.target + 5)) && FitsInt32(Entry(g) - (g.target + 5))
    ensures Misses(h, n, g) ==> Spares(h, n, g)
    ensures Spares(h, n, g) ==> Misses(h, n, g) || 1 <= g.target - h.target <= 4 || 1 <= h.target - g.target <= 4
  {
    hide JmpImmediate;
    var patch, jump := Patch(h.target, h.slot, n), JmpImmediate(g.target, Entry(g));
    if !Misses(h, n, g) && h.target == g.target && Spares(h, n, g) {
      SameStart(h, n, g);
      assert false;
    } else if !Misses(h, n, g) && h.target + SIZE_OF_JMP <= g.target {
      assert Within(g.target, g.target, SIZE_OF_JMP);
      assert patch[g.target - h.target] == BRK && jump[0] == 0xE9 by {
        JumpStarts(g.target, Entry(g));
      }
    }
  }

  lemma SameStart(h: HookIdentity.Hook, n: nat, g: HookIdentity.Hook)
    requires n >= SIZE_OF_JMP && h.target == g.target && Spares(h, n, g)
    requires FitsInt32(Entry(h) - (h.target + 5)) && FitsInt32(Entry(g) - (g.target + 5))
    ensures h.slot == g.slot
  {
    hide JmpImmediate, IsJmpImmediateTo;
    var patch, own, jump := Patch(h.target, h.slot, n), JmpImmediate(h.target, Entry(h)), JmpImmediate(g.target, Entry(g));
    forall k | 0 <= k < SIZE_OF_JMP ensures own[k] == jump[k] {
      assert own[k] == patch[k];
      assert Within(g.target + k, g.target, SIZE_OF_JMP);
      assert patch[g.target + k - h.target] == jump[g.target + k - g.target];
    }
    assert own == jump;
    JmpImmediateIs(h.target, Entry(h), Entry(g));
    JmpImmediateIs(h.target, Entry(g), Entry(g));
    WrapNear(Entry(h) - (h.target + 5), Entry(g) - (g.target + 5));
  }

  lemma JumpStarts(at: int, to: int)
    ensures JmpImmediate(at, to)[0] == 0xE9
  {
  }

  // They can fall together: the first function's jump goes E9 bytes far, and the second function
  // starts at that byte.
  lemma SparedByChance(h: HookIdentity.Hook, g: HookIdentity.Hook)
    requires Entry(h) == h.target + 5 + 0xE9 && g.target == h.target + 1 && Entry(g) == g.target + 5 + 0x7F00_0000
    ensures !Misses(h, SIZE_OF_JMP, g) && Spares(h, SIZE_OF_JMP, g)
  {
    var patch, jump := Patch(h.target, h.slot, SIZE_OF_JMP), JmpImmediate(g.target, Entry(g));
    assert Bytes32(0xE9) == [0xE9, 0, 0, 0] && Bytes32(0x7F00_0000) == [0, 0, 0, 0x7F];
    assert JmpImmediate(h.target, Entry(h)) == [0xE9, 0xE9, 0, 0, 0] && jump == [0xE9, 0, 0, 0, 0x7F];
    assert patch == JmpImmediate(h.target, Entry(h)) + [] == JmpImmediate(h.target, Entry(h));
  }

  // So for functions that are the same, or five bytes or more apart, both are entered exactly when
  // the patch of the first misses the jump of the second.
  lemma BothEnteredUnlessHit(s0: State, t: Table, thread: int, h: HookIdentity.Hook, g: HookIdentity.Hook)
    requires Valid(s0) && s0.owner == 0 && s0.pending == []
    requires Attachable(s0, t, h) && Attachable(s0, t, g) && h.slot != g.slot
    requires FitsInt32(Entry(h) - (h.target + 5)) && FitsInt32(Entry(g) - (g.target + 5))
    requires h.target == g.target || h.target + SIZE_OF_JMP <= g.target || g.target + SIZE_OF_JMP <= h.target
    ensures var r := Commit(AttachOf(AttachOf(Begin(s0, thread).1, t, thread, h).1, t, thread, g).1, thread).1;
      Enters(r.code, h) && Enters(r.code, g) <==> Misses(h, Taken(s0, t, h), g)
  {
    hide Attachable, Commit, Valid, AttachOf, Enters, Spares, Taken;
    BothEnteredExactly(s0, t, thread, h, g);
    SparedOrMissed(h, Taken(s0, t, h), g);
  }

  // Of two attaches to one function the second is never entered, though its trampoline stays live.
  lemma SecondAttachIsNotEntered(s0: State, t: Table, thread: int, h: HookIdentity.Hook, g: HookIdentity.Hook)
    requires Valid(s0) && s0.owner == 0 && s0.pending == []
    requires Attachable(s0, t, h) && Attachable(s0, t, g) && h.target == g.target && h.slot != g.slot
    requires FitsInt32(Entry(h) - (h.target + 5)) && FitsInt32(Entry(g) - (g.target + 5))
    ensures var s2 := AttachOf(AttachOf(Begin(s0, thread).1, t, thread, h).1, t, thread, g); var r := Commit(s2.1, thread);
      s2.0 == Success && r.0 == Success && g.slot in r.1.slots && Enters(r.1.code, h) && !Enters(r.1.code, g)
  {
    hide Attachable, Commit, Valid, AttachOf, Enters, Spares, Taken;
    BothEnteredExactly(s0, t, thread, h, g);
    SparedOrMissed(h, Taken(s0, t, h), g);
  }

  lemma CanBoth(s0: State, t: Table, h: HookIdentity.Hook, s: State)
    requires Attachable(s0, t, h) && Valid(s) && s.code == s0.code && s.pointers == s0.pointers && h.slot !in s.slots
    ensures CanAttach(s, t, h)
  {
    hide Prepare, Valid;
  }

  lemma NoneFreed(g: HookIdentity.Hook, h: HookIdentity.Hook)
    ensures Freed([AddOf(g), AddOf(h)], false) == {}
  {
  }
}
