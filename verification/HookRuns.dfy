// Any run of hooking one function and taking hooks off again: what every step keeps, and where
// control goes after it.
module HookRuns {
  import opened CStrings
  import opened HookChain
  import opened HookIdentity
  import opened JumpEncoding
  import opened Prologue
  import opened Seqs
  import opened Transaction
  import opened X86Relocation

  datatype Event = On(slot: int, detour: int) | Off(detour: int)

  // ---------- A transaction with one operation ----------

  ghost function HookOf(w: World, slot: int, detour: int): HookIdentity.Hook
    requires detour in w.through
  {
    HookIdentity.Hook(w.through[detour], w.target, detour, slot)
  }

  ghost function HookOn(s: State, t: Table, thread: int, h: HookIdentity.Hook): (r: State)
    requires Valid(s)
    ensures Valid(r)
  {
    Commit(AttachOf(Begin(s, thread).1, t, thread, h).1, thread).1
  }

  ghost function HookOff(s: State, thread: int, h: HookIdentity.Hook): (r: State)
    requires Valid(s)
    ensures Valid(r)
  {
    Commit(DetachOf(Begin(s, thread).1, thread, h).1, thread).1
  }

  lemma CommitsOne(s: State, o: Operation)
    requires SlotsOk(s.code, s.slots) && OperationOk(s, o)
    ensures CommitAll(s, [o]) == (CommitOne(s, o).0, [CommitOne(s, o).1])
  {
    hide CommitOne, SlotsOk, OperationOk;
    var (next, after) := CommitOne(s, o);
    assert [o][1..] == [] && [after] + [] == [after];
    assert CommitAll(next, []) == (next, []);
  }

  // All that hooking changes: the code, the trampoline and the pointer.
  lemma HookOnIs(s: State, t: Table, thread: int, h: HookIdentity.Hook, m: Moved, n: nat)
    requires Valid(s) && s.owner == 0 && s.pending == [] && CanAttach(s, t, h)
    requires s.pointers[h.pointer] == h.target && h.detour != h.target
    requires Prepare(t, Read(s.code, h.target, WINDOW), h.target, h.slot) == Some(Prepared(m, n))
    ensures SIZE_OF_JMP <= n <= CODE_SIZE - SIZE_OF_JMP && Mapped(s.code, h.target, n) && |m.bytes| <= CODE_SIZE
    ensures var ends := EndsFrom(t, Read(s.code, h.target, WINDOW), 0, 0, h.slot - h.target, 0);
      var tr := Trampoline(Head(m.bytes, Read(s.code, h.target, WINDOW)[..n], h.slot), n, AlignTable(ends), h.target + n, h.detour,
                           CodeIn(h.slot));
      HookOn(s, t, thread, h) == s.(code := Write(s.code, h.target, Patch(h.target, h.slot, n)),
                                    slots := s.slots[h.slot := tr], pointers := s.pointers[h.pointer := h.slot])
  {
    hide Prepare, Head, CodeIn, Patch, Brk, EndsFrom;
    var begun := Begin(s, thread).1;
    var attached := Attach(begun, t, thread, h.pointer, h.detour, Some(h.slot)).1;
    var o := Operation(true, false, h.pointer, h.target, h.slot);
    assert CanAttach(begun, t, h) && attached.pending == [o] + [] == [o];
    assert OperationOk(attached, o);
    CommitsOne(attached, o);
    assert Freed([CommitOne(attached, o).1], false) == {};
    var last := CommitOne(attached, o).0;
    assert last.slots - {} == last.slots;
  }

  // All that unhooking changes, when the function still jumps to this hook and when it does not.
  lemma HookOffIs(s: State, thread: int, h: HookIdentity.Hook)
    requires Valid(s) && s.owner == 0 && s.pending == [] && CanDetach(s, h) && s.pointers[h.pointer] == h.slot
    requires s.slots[h.slot].pbDetour == h.detour && s.slots[h.slot].pbRemain - s.slots[h.slot].cbRestore == h.target
    ensures |s.slots[h.slot].rbCodeIn| == 8 && Mapped(s.code, h.target, SIZE_OF_JMP)
    ensures |s.slots[h.slot].head| == HEAD_SIZE && s.slots[h.slot].cbRestore <= RESTORE_SIZE
    ensures Mapped(s.code, h.target, s.slots[h.slot].cbRestore)
    ensures var tr, pointers := s.slots[h.slot], s.pointers[h.pointer := h.target];
      HookOff(s, thread, h) ==
        if HookIsStillThere(s, RemoveOf(h))
        then s.(code := Write(s.code, h.target, Restored(tr)), slots := s.slots - {h.slot}, pointers := pointers)
        else s.(slots := s.slots[h.slot := tr.(pbDetour := h.slot)], pointers := pointers)
  {
    hide IsJmpImmediateTo, IsJmpIndirectTo;
    SlotIsOk(s, h.slot);
    var begun := Begin(s, thread).1;
    var detached := Detach(begun, thread, h.pointer, h.detour).1;
    var o := RemoveOf(h);
    assert CanDetach(begun, h) && detached.pending == [o] + [] == [o];
    assert OperationOk(detached, o);
    CommitsOne(detached, o);
    var (last, after) := CommitOne(detached, o);
    assert HookIsStillThere(detached, o) == HookIsStillThere(s, o);
    assert Freed([after], false) == if after.isRemove then {h.slot} else {};
    assert last.slots - {} == last.slots;
  }

  // ---------- A jump at the front of the function is moved as it is ----------

  lemma JumpCopied(t: Table, window: seq<Byte>, target: int, slot: int, to: int)
    requires KnowsJumps(t) && |window| >= SIZE_OF_JMP && window[..SIZE_OF_JMP] == JmpImmediate(target, to)
    requires FitsInt32(to - (target + 5)) && FitsInt32(to - (slot + 5))
    ensures CopyInstruction(t, window, slot - target) == Some(Copied(JmpImmediate(slot, to), SIZE_OF_JMP))
    ensures EndsFunction(window)
  {
    assert window[0] == window[..SIZE_OF_JMP][0] == 0xE9;
    assert Decode(t, window, NO_FLAGS, false) == Some(Decoded(0, NO_FLAGS, t.one(0xE9)));
    assert window[0..] == window && window[1..5] == window[..SIZE_OF_JMP][1..] == Bytes32(to - (target + 5));
    Int32RoundTrip(to - (target + 5));
    assert Adjusted(window, 1, 5, slot - target) == JmpImmediate(slot, to);
  }

  lemma JumpPrepared(t: Table, window: seq<Byte>, target: int, slot: int, below: int)
    requires KnowsJumps(t) && |window| >= SIZE_OF_JMP && window[..SIZE_OF_JMP] == JmpImmediate(target, Entry(below))
    requires FitsInt32(Entry(below) - (target + 5)) && FitsInt32(Entry(below) - (slot + 5))
    ensures Prepare(t, window, target, slot) == Some(Prepared(MovedJump(slot, below), SIZE_OF_JMP))
    ensures EndsFrom(t, window, 0, 0, slot - target, 0) == JUMP_ENDS
  {
    hide CopyInstruction, KnowsJumps, JmpImmediate, EndsFunction, FillerSize;
    assert window[0..] == window;
    JumpCopied(t, window, target, slot, Entry(below));
    assert MoveFrom(t, window, 0, 0, slot - target) == Some(MovedJump(slot, below));
  }

  // ---------- One more layer ----------

  lemma ReadWritten(code: Memory, at: int, b: seq<Byte>, n: nat)
    requires Mapped(code, at, n) && |b| <= n
    ensures Mapped(code, at, |b|) && Mapped(Write(code, at, b), at, n)
    ensures Read(Write(code, at, b), at, n) == b + Read(code, at, n)[|b|..]
  {
  }

  // How many bytes the next layer takes.
  ghost function NextTaken(w: World, layers: seq<Layer>, slot: int): (n: nat)
    requires layers == [] ==> Movable(w, slot)
    ensures SIZE_OF_JMP <= n <= WINDOW
  {
    if layers == [] then Base(w, slot).taken else SIZE_OF_JMP
  }

  // The jump to the newest layer, and behind it what does not change from layer to layer.
  ghost function Behind(w: World, layers: seq<Layer>): seq<Byte>
    requires layers != [] && Movable(w, layers[0].slot)
  {
    var n := Base(w, layers[0].slot).taken;
    Brk(n - SIZE_OF_JMP) + w.original[n..]
  }

  lemma WindowParts(w: World, layers: seq<Layer>)
    requires layers != [] && Movable(w, layers[0].slot)
    ensures var jump := JmpImmediate(w.target, Entry(layers[|layers| - 1].slot));
      && Window(w, layers) == jump + Behind(w, layers) && |Window(w, layers)| == WINDOW
      && Window(w, layers)[..SIZE_OF_JMP] == jump && Window(w, layers)[SIZE_OF_JMP..] == Behind(w, layers)
  {
    hide Movable, JmpImmediate, Brk;
    var n, jump := Base(w, layers[0].slot).taken, JmpImmediate(w.target, Entry(layers[|layers| - 1].slot));
    assert |w.original| == WINDOW by { MovableSize(w, layers[0].slot); }
    Assoc(jump, Brk(n - SIZE_OF_JMP), w.original[n..]);
    Parts(jump, Behind(w, layers));
  }

  lemma MovableSize(w: World, slot: int)
    requires Movable(w, slot)
    ensures |w.original| == WINDOW
  {
  }

  lemma WindowGrows(w: World, layers: seq<Layer>, l: Layer)
    requires Movable(w, if layers == [] then l.slot else layers[0].slot)
    ensures var n := NextTaken(w, layers, l.slot);
      && |Window(w, layers)| == WINDOW
      && Patch(w.target, l.slot, n) + Window(w, layers)[n..] == Window(w, layers + [l])
  {
    hide Movable, JmpImmediate, Brk;
    var n := NextTaken(w, layers, l.slot);
    WindowParts(w, layers + [l]);
    if layers != [] {
      WindowParts(w, layers);
      assert Behind(w, layers + [l]) == Behind(w, layers);
      JustTheJump(w.target, l.slot);
    }
  }

  lemma JustTheJump(target: int, slot: int)
    ensures Patch(target, slot, SIZE_OF_JMP) == JmpImmediate(target, Entry(slot))
  {
    assert Brk(0) == [];
  }

  // The function once its last hook is off: the jump behind the moved instructions may have run over
  // the front of what was saved.
  ghost function Bared(w: World, slot: int): (r: World)
    ensures r == w.(original := r.original) && |r.original| == |w.original|
  {
    if !Movable(w, slot) then w
    else
      var b := Spilled(|Base(w, slot).moved.bytes|);
      SpilledIs(|Base(w, slot).moved.bytes|);
      w.(original := b + w.original[|b|..])
  }

  // It is as before exactly when its trampoline has kept what it took.
  lemma BaredIsSame(w: World, slot: int)
    requires Movable(w, slot)
    ensures Bared(w, slot) == w <==> Intact(|Base(w, slot).moved.bytes|, w.original)
  {
    var b := Spilled(|Base(w, slot).moved.bytes|);
    SpilledIs(|Base(w, slot).moved.bytes|);
    Parts(b, w.original[|b|..]);
    assert w.original[..|b|] + w.original[|b|..] == w.original;
  }

  // What a layer puts back is what it took, up to those bytes.
  lemma RestoredIs(w: World, layers: seq<Layer>, k: nat)
    requires k < |layers| && Movable(w, layers[0].slot)
    ensures |w.original| == WINDOW
    ensures var tr := LayerRecord(w, layers, k); var n := Base(w, layers[0].slot).taken;
      Restored(tr) == if k == 0 then Bared(w, layers[0].slot).original[..n] else JmpImmediate(w.target, Entry(layers[k - 1].slot))
  {
    hide Movable, JmpImmediate, Head, CodeIn, Spilled;
    MovableSize(w, layers[0].slot);
    if k == 0 {
      var p := Base(w, layers[0].slot);
      HeadRestores(p.moved.bytes, w.original, p.taken, layers[0].slot);
      SpilledIs(|p.moved.bytes|);
      FrontOf(Spilled(|p.moved.bytes|), w.original, p.taken);
    } else {
      var below := layers[k - 1].slot;
      var jump := JmpImmediate(w.target, Entry(below));
      assert jump[..SIZE_OF_JMP] == jump;
      SpilledIs(SIZE_OF_JMP);
      HeadRestores(MovedJump(layers[k].slot, below).bytes, jump, SIZE_OF_JMP, layers[k].slot);
    }
  }

  lemma FrontOf(b: seq<Byte>, code: seq<Byte>, n: nat)
    requires |b| <= n <= |code|
    ensures (b + code[|b|..])[..n] == b + code[|b|..n] && (b + code[|b|..])[n..] == code[n..]
  {
  }

  lemma WindowShrinks(w: World, layers: seq<Layer>)
    requires layers != [] && Movable(w, layers[0].slot)
    ensures var k := |layers| - 1; var tr := LayerRecord(w, layers, k); var b := Restored(tr);
      && |b| <= WINDOW == |Window(w, layers)|
      && b + Window(w, layers)[|b|..] == Window(LeftWorld(w, layers, k), layers[..k])
  {
    hide Movable, JmpImmediate, Head, CodeIn, Brk, Spilled, Bared;
    var k, n := |layers| - 1, Base(w, layers[0].slot).taken;
    WindowParts(w, layers);
    RestoredIs(w, layers, k);
    if k > 0 {
      WindowParts(w, layers[..k]);
      assert Behind(w, layers[..k]) == Behind(w, layers);
    } else {
      var patch := Patch(w.target, layers[0].slot, n);
      Parts(patch, w.original[n..]);
      BaredBehind(w, layers[0].slot);
      var code := Bared(w, layers[0].slot).original;
      assert code[..n] + code[n..] == code;
    }
  }

  lemma BaredBehind(w: World, slot: int)
    requires Movable(w, slot)
    ensures var n := Base(w, slot).taken; n <= |w.original| == |Bared(w, slot).original| && Bared(w, slot).original[n..] == w.original[n..]
  {
    SpilledIs(|Base(w, slot).moved.bytes|);
    FrontOf(Spilled(|Base(w, slot).moved.bytes|), w.original, Base(w, slot).taken);
  }

  // The removal of the only layer bares the function.
  ghost function LeftWorld(w: World, layers: seq<Layer>, k: nat): World
    requires k < |layers|
  {
    if |layers| == 1 then Bared(w, layers[0].slot) else w
  }

  lemma OthersStay(w: World, layers: seq<Layer>, more: seq<Layer>, i: nat)
    requires i < |layers| && i < |more| && Movable(w, layers[0].slot)
    requires more[i] == layers[i] && more[0].slot == layers[0].slot && (i > 0 ==> more[i - 1].slot == layers[i - 1].slot)
    ensures LayerRecord(w, more, i) == LayerRecord(w, layers, i)
  {
  }

  lemma LayersGrow(w: World, slots: map<int, Trampoline>, pointers: map<int, int>, layers: seq<Layer>, l: Layer)
    requires Movable(w, if layers == [] then l.slot else layers[0].slot) && LayersIn(w, slots, pointers, layers)
    requires l.slot !in slots && l.on && l.detour in w.through
    requires Clear(w, slots.Keys) && w.through[l.detour] in pointers && pointers[w.through[l.detour]] == w.target
    ensures LayersIn(w, slots[l.slot := LayerRecord(w, layers + [l], |layers|)], pointers[w.through[l.detour] := l.slot], layers + [l])
  {
    hide Movable, Base, Head, CodeIn, JmpImmediate, LayerRecord;
    var more := layers + [l];
    var slots', pointers' := slots[l.slot := LayerRecord(w, more, |layers|)], pointers[w.through[l.detour] := l.slot];
    forall i | 0 <= i < |more| ensures LayerIn(w, slots', pointers', more, i)
    {
      if i < |layers| {
        assert LayerIn(w, slots, pointers, layers, i);
        OthersStay(w, layers, more, i);
      }
    }
  }

  // When the function can be hooked with this trampoline by this detour.
  ghost predicate CanHook(w: World, s: State, layers: seq<Layer>, slot: int, detour: int) {
    && detour in w.through && detour != w.target
    && w.through[detour] in s.pointers && s.pointers[w.through[detour]] == w.target
    && slot !in s.slots && Clear(w, s.slots.Keys + {slot}) && Near(w, layers + [Layer(slot, detour, true)])
    && (layers == [] ==> Movable(w, slot))
  }

  lemma HookTakes(w: World, s: State, layers: seq<Layer>, slot: int, detour: int)
    requires KnowsJumps(w.t) && ChainOk(w, s, layers) && CanHook(w, s, layers, slot, detour)
    ensures var m := if layers == [] then Base(w, slot).moved else MovedJump(slot, layers[|layers| - 1].slot);
      && Prepare(w.t, Window(w, layers), w.target, slot) == Some(Prepared(m, NextTaken(w, layers, slot)))
      && |Window(w, layers)| == WINDOW
      && EndsFrom(w.t, Window(w, layers), 0, 0, slot - w.target, 0) == if layers == [] then BaseEnds(w, slot) else JUMP_ENDS
  {
    hide KnowsJumps, Prepare, Valid, Mapped, LayersIn, Clear, MovedJump, JmpImmediate, EndsFrom;
    if layers == [] {
      MovableSize(w, slot);
    } else {
      var k := |layers| - 1;
      var more := layers + [Layer(slot, detour, true)];
      assert more[k] == layers[k] && more[k + 1].slot == slot;
      WindowParts(w, layers);
      JumpPrepared(w.t, Window(w, layers), w.target, slot, layers[k].slot);
    }
  }

  // The parts that make up a chain.
  lemma ChainOf(w: World, s: State, layers: seq<Layer>)
    requires Valid(s) && s.owner == 0 && s.pending == [] && |w.original| == WINDOW
    requires layers != [] ==> Movable(w, layers[0].slot)
    requires Mapped(s.code, w.target, WINDOW) && Read(s.code, w.target, WINDOW) == Window(w, layers)
    requires Clear(w, s.slots.Keys) && Near(w, layers) && LayersIn(w, s.slots, s.pointers, layers)
    ensures ChainOk(w, s, layers)
  {
  }

  lemma ChainParts(w: World, s: State, layers: seq<Layer>)
    requires ChainOk(w, s, layers)
    ensures Valid(s) && s.owner == 0 && s.pending == [] && |w.original| == WINDOW
    ensures layers != [] ==> Movable(w, layers[0].slot)
    ensures Mapped(s.code, w.target, WINDOW) && Read(s.code, w.target, WINDOW) == Window(w, layers)
    ensures Clear(w, s.slots.Keys) && Near(w, layers) && LayersIn(w, s.slots, s.pointers, layers)
  {
  }

  lemma HookStep(w: World, s: State, layers: seq<Layer>, slot: int, detour: int)
    requires KnowsJumps(w.t) && ChainOk(w, s, layers) && CanHook(w, s, layers, slot, detour)
    ensures ChainOk(w, HookOn(s, w.t, w.thread, HookOf(w, slot, detour)), layers + [Layer(slot, detour, true)])
  {
    hide KnowsJumps, Prepare, Valid, Mapped, LayersIn, Window, Movable, Near, Patch, Head, CodeIn, JmpImmediate,
      ChainOk, HookOn, NextTaken, Clear, Write, Read, Base, MovedJump, LayerRecord, EndsFrom, BaseEnds, AlignTable;
    ChainParts(w, s, layers);
    var l, h, n := Layer(slot, detour, true), HookOf(w, slot, detour), NextTaken(w, layers, slot);
    var m := if layers == [] then Base(w, slot).moved else MovedJump(slot, layers[|layers| - 1].slot);
    HookTakes(w, s, layers, slot, detour);
    HookOnIs(s, w.t, w.thread, h, m, n);
    ReadWritten(s.code, w.target, Patch(w.target, slot, n), WINDOW);
    WindowGrows(w, layers, l);
    LayersGrow(w, s.slots, s.pointers, layers, l);
    RecordIs(w, layers, slot, detour, n);
    var after := HookOn(s, w.t, w.thread, h);
    assert after.slots.Keys == s.slots.Keys + {slot};
    ChainOf(w, after, layers + [l]);
  }

  // What the new trampoline holds.
  lemma RecordIs(w: World, layers: seq<Layer>, slot: int, detour: int, n: nat)
    requires Movable(w, if layers == [] then slot else layers[0].slot) && n == NextTaken(w, layers, slot)
    ensures |Window(w, layers)| == WINDOW
    ensures var m := if layers == [] then Base(w, slot).moved else MovedJump(slot, layers[|layers| - 1].slot);
      LayerRecord(w, layers + [Layer(slot, detour, true)], |layers|)
        == Trampoline(Head(m.bytes, Window(w, layers)[..n], slot), n,
                      AlignTable(if layers == [] then BaseEnds(w, slot) else JUMP_ENDS), w.target + n, detour, CodeIn(slot))
  {
    hide Movable, JmpImmediate, Head, CodeIn, AlignTable, BaseEnds;
    if layers == [] {
      MovableSize(w, slot);
    } else {
      WindowParts(w, layers);
    }
  }

  // ---------- One layer less, or one that is passed by ----------

  // The layers after the removal of one of them: the newest is gone, another one stays and is off.
  function Without(layers: seq<Layer>, k: nat): seq<Layer>
    requires k < |layers|
  {
    if k == |layers| - 1 then layers[..k] else layers[k := layers[k].(on := false)]
  }

  // The function still jumps to the newest hook, and to no other.
  lemma StillThereIsNewest(w: World, s: State, layers: seq<Layer>, k: nat)
    requires ChainOk(w, s, layers) && k < |layers| && layers[k].on
    ensures layers[k].detour in w.through
    ensures var o := RemoveOf(HookOf(w, layers[k].slot, layers[k].detour));
      && o.trampoline in s.slots && |s.slots[o.trampoline].rbCodeIn| == 8 && Mapped(s.code, o.target, SIZE_OF_JMP)
      && (HookIsStillThere(s, o) <==> k == |layers| - 1)
  {
    hide Movable, Base, Window, Valid, JmpImmediate, IsJmpImmediateTo, IsJmpIndirectTo, CodeIn, Prepare, Head, Clear;
    assert LayerIn(w, s.slots, s.pointers, layers, k);
    var top, l := |layers| - 1, layers[k];
    WindowParts(w, layers);
    CodeInIs(l.slot);
    var jump := Read(s.code, w.target, SIZE_OF_JMP);
    assert jump == Read(s.code, w.target, WINDOW)[..SIZE_OF_JMP];
    JmpImmediateIs(w.target, Entry(layers[top].slot), Entry(l.slot));
    assert layers[top].slot == l.slot ==> top == k;
    if IsJmpImmediateTo(jump, w.target, Entry(l.slot)) {
      WrapNear(Entry(layers[top].slot) - (w.target + 5), Entry(l.slot) - (w.target + 5));
    }
  }

  lemma CanUnhook(w: World, s: State, layers: seq<Layer>, k: nat)
    requires ChainOk(w, s, layers) && k < |layers| && layers[k].on
    ensures layers[k].detour in w.through
    ensures var h := HookOf(w, layers[k].slot, layers[k].detour);
      && CanDetach(s, h) && s.pointers[h.pointer] == h.slot
      && s.slots[h.slot].pbDetour == h.detour && s.slots[h.slot].pbRemain - s.slots[h.slot].cbRestore == h.target
      && s.slots[h.slot] == LayerRecord(w, layers, k)
  {
    hide Movable, Window, Valid, CodeIn, Prepare, Head, Clear, Near, JmpImmediate;
    assert LayerIn(w, s.slots, s.pointers, layers, k);
  }

  lemma LayersShrink(w: World, slots: map<int, Trampoline>, pointers: map<int, int>, layers: seq<Layer>, pointer: int)
    requires layers != [] && Movable(w, layers[0].slot) && LayersIn(w, slots, pointers, layers) && Near(w, layers)
    requires var l := layers[|layers| - 1]; l.on && l.detour in w.through && pointer == w.through[l.detour]
    ensures LayersIn(w, slots - {layers[|layers| - 1].slot}, pointers[pointer := w.target], layers[..|layers| - 1])
  {
    hide Movable, Base, Head, CodeIn, JmpImmediate, LayerRecord;
    var k := |layers| - 1;
    var less, slots', pointers' := layers[..k], slots - {layers[k].slot}, pointers[pointer := w.target];
    assert LayerIn(w, slots, pointers, layers, k);
    forall i | 0 <= i < |less| ensures LayerIn(w, slots', pointers', less, i) {
      assert LayerIn(w, slots, pointers, layers, i);
      OthersStay(w, layers, less, i);
    }
  }

  lemma LayersBypass(w: World, slots: map<int, Trampoline>, pointers: map<int, int>, layers: seq<Layer>, k: nat, pointer: int)
    requires k < |layers| && Movable(w, layers[0].slot) && LayersIn(w, slots, pointers, layers) && Near(w, layers)
    requires var l := layers[k]; l.on && l.detour in w.through && pointer == w.through[l.detour] && l.slot in slots
    ensures var l := layers[k];
      LayersIn(w, slots[l.slot := slots[l.slot].(pbDetour := l.slot)], pointers[pointer := w.target], layers[k := l.(on := false)])
  {
    hide Movable, Base, Head, CodeIn, JmpImmediate;
    var l := layers[k];
    var after, slots', pointers' :=
      layers[k := l.(on := false)], slots[l.slot := slots[l.slot].(pbDetour := l.slot)], pointers[pointer := w.target];
    assert LayerIn(w, slots, pointers, layers, k);
    forall i | 0 <= i < |after| ensures LayerIn(w, slots', pointers', after, i) {
      assert LayerIn(w, slots, pointers, layers, i);
      if i != k {
        OthersStay(w, layers, after, i);
      }
    }
  }

  // Taking off the newest hook puts back the layer below it, and frees its trampoline; taking off
  // another one leaves the code alone, makes its trampoline pass by the detour, and frees nothing.
  lemma UnhookStep(w: World, s: State, layers: seq<Layer>, k: nat)
    requires ChainOk(w, s, layers) && k < |layers| && layers[k].on
    ensures layers[k].detour in w.through
    ensures var l := layers[k]; var after := HookOff(s, w.thread, HookOf(w, l.slot, l.detour));
      && ChainOk(LeftWorld(w, layers, k), after, Without(layers, k))
      && l.slot in s.slots
      && after.slots == (if k == |layers| - 1 then s.slots - {l.slot} else s.slots[l.slot := s.slots[l.slot].(pbDetour := l.slot)])
      && (k < |layers| - 1 ==> after.code == s.code)
  {
    hide Movable, Window, Valid, CodeIn, Prepare, Head, JmpImmediate, LayerRecord, LayersIn, HookIsStillThere, Mapped,
      ChainOk, HookOff;
    ChainParts(w, s, layers);
    var l := layers[k];
    CanUnhook(w, s, layers, k);
    var pointer := w.through[l.detour];
    StillThereIsNewest(w, s, layers, k);
    HookOffIs(s, w.thread, HookOf(w, l.slot, l.detour));
    if k == |layers| - 1 {
      WindowShrinks(w, layers);
      ReadWritten(s.code, w.target, Restored(s.slots[l.slot]), WINDOW);
      LayersShrink(w, s.slots, s.pointers, layers, pointer);
    } else {
      LayersBypass(w, s.slots, s.pointers, layers, k, pointer);
      WindowOf(w, layers, Without(layers, k));
    }
    var after := HookOff(s, w.thread, HookOf(w, l.slot, l.detour));
    assert after.slots.Keys <= s.slots.Keys;
    ChainOf(LeftWorld(w, layers, k), after, Without(layers, k));
  }

  lemma WindowOf(w: World, layers: seq<Layer>, more: seq<Layer>)
    requires layers != [] && Movable(w, layers[0].slot) && |more| == |layers| && more[0].slot == layers[0].slot
    requires more[|more| - 1].slot == layers[|layers| - 1].slot
    ensures Window(w, more) == Window(w, layers)
  {
  }

  // ---------- Any run ----------

  // The newest layer with this detour that is on.
  function Newest(layers: seq<Layer>, detour: int): (k: Option<nat>)
    ensures k.Some? ==> k.value < |layers| && layers[k.value].on && layers[k.value].detour == detour
  {
    if layers == [] then None
    else
      var i := |layers| - 1;
      if layers[i].on && layers[i].detour == detour then Some(i) else Newest(layers[..i], detour)
  }

  ghost predicate Possible(w: World, s: State, layers: seq<Layer>, e: Event) {
    match e
    case On(slot, detour) => CanHook(w, s, layers, slot, detour)
    case Off(detour) => detour in w.through && Newest(layers, detour).Some?
  }

  ghost function After(w: World, s: State, layers: seq<Layer>, e: Event): (r: (State, seq<Layer>, World))
    requires Valid(s) && Possible(w, s, layers, e)
    ensures Valid(r.0) && r.2 == w.(original := r.2.original)
  {
    match e
    case On(slot, detour) =>
      (HookOn(s, w.t, w.thread, HookOf(w, slot, detour)), layers + [Layer(slot, detour, true)], w)
    case Off(detour) =>
      var k := Newest(layers, detour).value;
      (HookOff(s, w.thread, HookOf(w, layers[k].slot, detour)), Without(layers, k), LeftWorld(w, layers, k))
  }

  ghost predicate AllPossible(w: World, s: State, layers: seq<Layer>, es: seq<Event>)
    requires Valid(s)
    decreases |es|
  {
    es == [] || (Possible(w, s, layers, es[0]) &&
                 var (next, more, now) := After(w, s, layers, es[0]); AllPossible(now, next, more, es[1..]))
  }

  ghost function Play(w: World, s: State, layers: seq<Layer>, es: seq<Event>): (r: (State, seq<Layer>, World))
    requires Valid(s) && AllPossible(w, s, layers, es)
    ensures r.2 == w.(original := r.2.original)
    decreases |es|
  {
    if es == [] then (s, layers, w)
    else
      var (next, more, now) := After(w, s, layers, es[0]);
      Play(now, next, more, es[1..])
  }

  // Reference: the detours that are attached, the newest first, by the events alone.
  function WithoutFirst(ds: seq<int>, d: int): seq<int> {
    if ds == [] then [] else if ds[0] == d then ds[1..] else [ds[0]] + WithoutFirst(ds[1..], d)
  }

  function Attached(ds: seq<int>, es: seq<Event>): seq<int>
    decreases |es|
  {
    if es == [] then ds
    else
      var next := match es[0] case On(_, detour) => [detour] + ds case Off(detour) => WithoutFirst(ds, detour);
      Attached(next, es[1..])
  }

  lemma WithoutPasses(here: seq<int>, rest: seq<int>, d: int)
    requires |here| <= 1 && d !in here
    ensures WithoutFirst(here + rest, d) == here + WithoutFirst(rest, d)
    ensures WithoutFirst([d] + rest, d) == rest
  {
    assert [d] + rest != [] && ([d] + rest)[1..] == rest;
    if here == [] {
      assert here + rest == rest;
    } else {
      assert (here + rest)[1..] == rest;
    }
  }

  lemma VisitsTop(layers: seq<Layer>, l: Layer, on: bool)
    ensures Visits(layers + [l.(on := on)]) == (if on then [l.detour] else []) + Visits(layers)
  {
    assert (layers + [l.(on := on)])[..|layers|] == layers;
  }

  lemma {:induction false} VisitsOff(layers: seq<Layer>, d: int)
    requires Newest(layers, d).Some?
    ensures var k := Newest(layers, d).value;
      && Visits(layers[k := layers[k].(on := false)]) == WithoutFirst(Visits(layers), d)
      && Visits(Without(layers, k)) == WithoutFirst(Visits(layers), d)
  {
    hide Visits, WithoutFirst;
    var i, k := |layers| - 1, Newest(layers, d).value;
    var init, l, off := layers[..i], layers[i], layers[k := layers[k].(on := false)];
    assert layers == init + [l.(on := l.on)];
    VisitsTop(init, l, l.on);
    if k == i {
      assert off == init + [l.(on := false)];
      VisitsTop(init, l, false);
      WithoutPasses([], Visits(init), d);
      assert [] + Visits(init) == Visits(init);
    } else {
      var less := init[k := init[k].(on := false)];
      assert off == less + [l.(on := l.on)];
      VisitsTop(less, l, l.on);
      VisitsOff(init, d);
      WithoutPasses(if l.on then [l.detour] else [], Visits(init), d);
    }
  }

  lemma EventStep(w: World, s: State, layers: seq<Layer>, e: Event)
    requires KnowsJumps(w.t) && ChainOk(w, s, layers) && Possible(w, s, layers, e)
    ensures var (next, more, now) := After(w, s, layers, e);
      ChainOk(now, next, more) && Visits(more) == Attached(Visits(layers), [e])
  {
    hide KnowsJumps, ChainOk, CanHook, HookOn, HookOff;
    assert [e][1..] == [];
    match e {
      case On(slot, detour) =>
        var l := Layer(slot, detour, true);
        HookStep(w, s, layers, slot, detour);
        assert (layers + [l])[..|layers|] == layers;
      case Off(detour) =>
        UnhookStep(w, s, layers, Newest(layers, detour).value);
        VisitsOff(layers, detour);
    }
  }

  lemma ChainIsValid(w: World, s: State, layers: seq<Layer>)
    requires ChainOk(w, s, layers)
    ensures Valid(s)
  {
  }

  // Whatever is hooked and unhooked, the chain stays whole, and its layers that are on are the
  // detours that are attached.
  lemma {:induction false} RunKeepsChain(w: World, s: State, layers: seq<Layer>, es: seq<Event>)
    requires KnowsJumps(w.t) && ChainOk(w, s, layers) && AllPossible(w, s, layers, es)
    ensures var (last, left, now) := Play(w, s, layers, es);
      ChainOk(now, last, left) && Visits(left) == Attached(Visits(layers), es)
    decreases |es|
  {
    hide KnowsJumps, ChainOk, Possible, After, Visits;
    ChainIsValid(w, s, layers);
    if es != [] {
      EventStep(w, s, layers, es[0]);
      var (next, more, now) := After(w, s, layers, es[0]);
      assert [es[0]][1..] == [];
      RunKeepsChain(now, next, more, es[1..]);
    }
  }

  // Where the last jump leads: the first instructions of the function, where they were moved to, or
  // in place when no layer is left.
  ghost predicate BodyAtEnd(w: World, s: State, layers: seq<Layer>) {
    if layers == [] then Mapped(s.code, w.target, WINDOW) && Read(s.code, w.target, WINDOW) == w.original
    else
      var slot := layers[0].slot;
      && Movable(w, slot) && slot in s.slots
      && s.slots[slot].head == Head(Base(w, slot).moved.bytes, w.original[..Base(w, slot).taken], slot)
      && s.slots[slot].pbRemain == w.target + Base(w, slot).taken
      && Mapped(s.code, w.target, WINDOW)
      && Read(s.code, w.target, WINDOW)[Base(w, slot).taken..] == w.original[Base(w, slot).taken..]
  }

  lemma ChainEnds(w: World, s: State, layers: seq<Layer>)
    requires ChainOk(w, s, layers)
    ensures BodyAtEnd(w, s, layers)
  {
    hide Movable, Head, Near, Clear, Valid, Patch, CodeIn, JmpImmediate, Mapped, Prepare;
    if layers != [] {
      assert LayerIn(w, s.slots, s.pointers, layers, 0);
      var n := Base(w, layers[0].slot).taken;
      Parts(Patch(w.target, layers[|layers| - 1].slot, n), w.original[n..]);
    }
  }

  // After any run on a function that had no hook, control that enters the function passes through
  // exactly the attached detours, the newest first, and then comes to the function's own code.
  lemma ControlPassesThroughTheAttached(w: World, s: State, es: seq<Event>)
    requires KnowsJumps(w.t) && ChainOk(w, s, []) && AllPossible(w, s, [], es)
    ensures var (last, left, now) := Play(w, s, [], es);
      && Walk(now, last, w.target, if left == [] then 0 else 1 + Steps(left))
         == (Attached([], es), if left == [] then w.target else left[0].slot)
      && BodyAtEnd(now, last, left)
  {
    hide KnowsJumps, Walk, ChainOk, BodyAtEnd, Attached, Possible, After;
    ChainIsValid(w, s, []);
    RunKeepsChain(w, s, [], es);
    var (last, left, now) := Play(w, s, [], es);
    EntryPassesThroughTheAttached(now, last, left);
    ChainEnds(now, last, left);
  }

  // And running that code does what the function did before the oldest of these hooks.
  lemma BodyRunsAsBefore<S>(w: World, s: State, layers: seq<Layer>, exec: (Meaning, S) -> Flow<S>, state: S)
    requires KnowsJumps(w.t) && BodyAtEnd(w, s, layers) && layers != []
    requires AllInReach(w.t, w.original, 0, 0, w.target, layers[0].slot - w.target)
    ensures var slot := layers[0].slot; var p := Base(w, slot);
      RunTrampoline(w.t, s.slots[slot].head, slot, p.moved, s.slots[slot].pbRemain, exec, state)
        == Moving(Run(w.t, w.original, w.target, p.moved.count, exec, state), w.target + p.taken)
  {
    hide KnowsJumps, AllInReach, Run, RunTrampoline, Head, Moving, Prepare, Movable, Mapped;
    var slot := layers[0].slot;
    var p, b := Base(w, slot), s.slots[slot].head;
    HeadRuns(p.moved, w.original[..p.taken], slot);
    TrampolineKeepsMeaning(w.t, w.original, w.target, slot, b[|p.moved.bytes| + 6..], exec, state);
  }
}
