// One function that is hooked any number of times, and the hooks taken off again in any order, each
// in a transaction of its own.
module HookChain {
  import opened CStrings
  import opened HookIdentity
  import opened JumpEncoding
  import opened Prologue
  import opened Seqs
  import opened Transaction
  import opened X86Relocation

  // The function, its first bytes without a hook, and the pointer variable through which each
  // detour calls on.
  datatype World = World(t: Table, thread: int, target: int, original: seq<Byte>, through: map<int, int>)

  // A hook on the function. It is off when its removal had to leave it where it is.
  datatype Layer = Layer(slot: int, detour: int, on: bool)

  function Entry(slot: int): int {
    slot + CODE_IN_OFFSET
  }

  // ---------- What the memory looks like under so many layers, the oldest first ----------

  // The first instructions can be moved.
  ghost predicate Movable(w: World, slot: int) {
    && |w.original| == WINDOW
    && var p := Prepare(w.t, w.original, w.target, slot); p.Some? && p.value.Prepared?
  }

  ghost function Base(w: World, slot: int): (p: Prepared)
    requires Movable(w, slot)
    ensures p.Prepared? && SIZE_OF_JMP <= p.taken <= CODE_SIZE - SIZE_OF_JMP && p.taken <= |w.original|
    ensures |p.moved.bytes| <= CODE_SIZE
    ensures Prepare(w.t, w.original, w.target, slot) == Some(p)
  {
    Prepare(w.t, w.original, w.target, slot).value
  }

  // The jump into the layer below, as it is moved into a trampoline.
  function MovedJump(slot: int, below: int): (m: Moved)
    ensures |m.bytes| == SIZE_OF_JMP
  {
    Moved(1, SIZE_OF_JMP, JmpImmediate(slot, Entry(below)))
  }

  const JUMP_ENDS := [End(SIZE_OF_JMP, SIZE_OF_JMP)]

  ghost function BaseEnds(w: World, slot: int): seq<End> {
    EndsFrom(w.t, w.original, 0, 0, slot - w.target, 0)
  }

  ghost function LayerRecord(w: World, layers: seq<Layer>, i: nat): Trampoline
    requires i < |layers| && Movable(w, layers[0].slot)
  {
    var l := layers[i];
    var goesTo := if l.on then l.detour else l.slot;
    if i == 0 then
      var p := Base(w, l.slot);
      Trampoline(Head(p.moved.bytes, w.original[..p.taken], l.slot), p.taken, AlignTable(BaseEnds(w, l.slot)),
                 w.target + p.taken, goesTo, CodeIn(l.slot))
    else
      var below := layers[i - 1].slot;
      Trampoline(Head(MovedJump(l.slot, below).bytes, JmpImmediate(w.target, Entry(below)), l.slot), SIZE_OF_JMP,
                 AlignTable(JUMP_ENDS), w.target + SIZE_OF_JMP, goesTo, CodeIn(l.slot))
  }

  // The first bytes of the function: the jump to the newest layer, what the oldest one took filled
  // up, and the rest.
  ghost function Window(w: World, layers: seq<Layer>): seq<Byte>
    requires layers != [] ==> Movable(w, layers[0].slot)
  {
    if layers == [] then w.original
    else
      var n := Base(w, layers[0].slot).taken;
      Patch(w.target, layers[|layers| - 1].slot, n) + w.original[n..]
  }

  ghost predicate LayerIn(w: World, slots: map<int, Trampoline>, pointers: map<int, int>, layers: seq<Layer>, i: nat)
    requires i < |layers| && Movable(w, layers[0].slot)
  {
    var l := layers[i];
    && l.slot in slots && slots[l.slot] == LayerRecord(w, layers, i)
    && (l.on ==> l.detour in w.through && w.through[l.detour] in pointers && pointers[w.through[l.detour]] == l.slot)
  }

  ghost predicate LayersIn(w: World, slots: map<int, Trampoline>, pointers: map<int, int>, layers: seq<Layer>)
    requires layers != [] ==> Movable(w, layers[0].slot)
  {
    forall i :: 0 <= i < |layers| ==> LayerIn(w, slots, pointers, layers, i)
  }

  // No place is at the same time the function, a detour, or two different things in trampolines.
  ghost predicate Clear(w: World, slots: set<int>) {
    && w.target !in w.through
    && (forall k <- slots :: k != w.target && Entry(k) != w.target && k !in w.through && Entry(k) !in w.through)
    && (forall j, k :: j in slots && k in slots ==> j != Entry(k))
  }

  // The trampolines are different ones, and every jump that leads into one reaches it.
  ghost predicate Near(w: World, layers: seq<Layer>) {
    && (forall i :: 0 <= i < |layers| ==> FitsInt32(Entry(layers[i].slot) - (w.target + 5)))
    && (forall i, j :: 0 <= i < j < |layers| ==>
          layers[i].slot != layers[j].slot && (j == i + 1 ==> FitsInt32(Entry(layers[i].slot) - (layers[j].slot + 5))))
  }

  ghost predicate ChainOk(w: World, s: State, layers: seq<Layer>) {
    && Valid(s) && s.owner == 0 && s.pending == [] && |w.original| == WINDOW
    && (layers != [] ==> Movable(w, layers[0].slot))
    && Mapped(s.code, w.target, WINDOW) && Read(s.code, w.target, WINDOW) == Window(w, layers)
    && Clear(w, s.slots.Keys) && Near(w, layers) && LayersIn(w, s.slots, s.pointers, layers)
  }

  // ---------- Where control goes ----------

  // From one place to the next: a detour is entered and calls on through its pointer; the entry of
  // a trampoline goes where pbDetour says; a jump goes to its target.
  ghost function Step(w: World, s: State, a: int): (seq<int>, int) {
    if a in w.through then ([a], if w.through[a] in s.pointers then s.pointers[w.through[a]] else a)
    else if a - CODE_IN_OFFSET in s.slots then
      var tr := s.slots[a - CODE_IN_OFFSET];
      ([], if IsJmpIndirectTo(tr.rbCodeIn, a, a - CODE_IN_OFFSET + DETOUR_OFFSET) then tr.pbDetour else a)
    else if a in s.slots then
      var b := s.slots[a].head;
      ([], if |b| >= SIZE_OF_JMP && b[0] == 0xE9 then JmpTarget(b, a) else a)
    else ([], if Mapped(s.code, a, SIZE_OF_JMP) && s.code[a] == 0xE9 then JmpTarget(Read(s.code, a, SIZE_OF_JMP), a) else a)
  }

  // The detours that are entered on so many steps, and the place that is reached.
  ghost function Walk(w: World, s: State, a: int, n: nat): (seq<int>, int)
    decreases n
  {
    if n == 0 then ([], a)
    else
      var (here, next) := Step(w, s, a);
      var (rest, last) := Walk(w, s, next, n - 1);
      (here + rest, last)
  }

  // The detours that are still attached, the newest first.
  function Visits(layers: seq<Layer>): (v: seq<int>)
  {
    if layers == [] then []
    else
      var i := |layers| - 1;
      (if layers[i].on then [layers[i].detour] else []) + Visits(layers[..i])
  }

  // The steps from the entry of the newest layer to the moved code of the oldest.
  function Steps(layers: seq<Layer>): nat {
    if layers == [] then 0
    else
      var i := |layers| - 1;
      1 + (if layers[i].on then 1 else 0) + (if i > 0 then 1 + Steps(layers[..i]) else 0)
  }

  lemma {:induction false} WalkOn(w: World, s: State, a: int, m: nat, n: nat)
    ensures var (v, b) := Walk(w, s, a, m); var (u, c) := Walk(w, s, b, n);
      Walk(w, s, a, m + n) == (v + u, c)
    decreases m
  {
    if m == 0 {
      assert [] + Walk(w, s, a, n).0 == Walk(w, s, a, n).0;
    } else {
      var (here, next) := Step(w, s, a);
      WalkOn(w, s, next, m - 1, n);
      var (v, b) := Walk(w, s, next, m - 1);
      Assoc(here, v, Walk(w, s, b, n).0);
    }
  }

  lemma WalkStep(w: World, s: State, a: int, n: nat)
    requires n > 0
    ensures var (here, next) := Step(w, s, a); Walk(w, s, a, n) == (here + Walk(w, s, next, n - 1).0, Walk(w, s, next, n - 1).1)
    ensures Step(w, s, a).0 == [] ==> Walk(w, s, a, n) == Walk(w, s, Step(w, s, a).1, n - 1)
    ensures n == 1 ==> Walk(w, s, a, n) == Step(w, s, a)
  {
    var (here, next) := Step(w, s, a);
    assert [] + Walk(w, s, next, n - 1).0 == Walk(w, s, next, n - 1).0;
    assert here + [] == here;
  }

  // Within the chain: from the entry to the moved code, and on to the layer below.
  lemma EntryStep(w: World, s: State, layers: seq<Layer>, i: nat)
    requires ChainOk(w, s, layers) && i < |layers|
    ensures Step(w, s, Entry(layers[i].slot)) == ([], if layers[i].on then layers[i].detour else layers[i].slot)
    ensures layers[i].on ==> Step(w, s, layers[i].detour) == ([layers[i].detour], layers[i].slot)
  {
    hide Window, Base, Movable, IsJmpIndirectTo, CodeIn, Valid, Mapped, Head;
    assert LayerIn(w, s.slots, s.pointers, layers, i);
    CodeInIs(layers[i].slot);
  }

  lemma DownStep(w: World, s: State, layers: seq<Layer>, i: nat)
    requires ChainOk(w, s, layers) && 0 < i < |layers|
    ensures Step(w, s, layers[i].slot) == ([], Entry(layers[i - 1].slot))
  {
    hide Window, Base, Movable, CodeIn, JmpImmediate, JmpTarget, Valid, Mapped, IsJmpImmediateTo, Head;
    assert LayerIn(w, s.slots, s.pointers, layers, i) && LayerIn(w, s.slots, s.pointers, layers, i - 1);
    var slot, to := layers[i].slot, Entry(layers[i - 1].slot);
    var restore, m := JmpImmediate(w.target, to), MovedJump(slot, layers[i - 1].slot);
    var b := Head(m.bytes, restore, slot);
    HeadRuns(m, restore, slot);
    Assoc(m.bytes, JmpIndirect(slot + SIZE_OF_JMP, slot + REMAIN_OFFSET), b[SIZE_OF_JMP + 6..]);
    FirstJump(slot, to, JmpIndirect(slot + SIZE_OF_JMP, slot + REMAIN_OFFSET) + b[SIZE_OF_JMP + 6..]);
  }

  // What follows a jump does not matter.
  lemma FirstJump(at: int, to: int, rest: seq<Byte>)
    requires FitsInt32(to - (at + 5))
    ensures var b := JmpImmediate(at, to) + rest; b[0] == 0xE9 && JmpTarget(b, at) == to
  {
    JmpImmediateIs(at, to, to);
    assert (JmpImmediate(at, to) + rest)[1..5] == JmpImmediate(at, to)[1..5];
  }

  lemma TopStep(w: World, s: State, layers: seq<Layer>)
    requires ChainOk(w, s, layers) && layers != []
    ensures Step(w, s, w.target) == ([], Entry(layers[|layers| - 1].slot))
  {
    hide Base, Movable, JmpImmediate, JmpTarget, Valid, LayersIn, Prepare;
    var i, n := |layers| - 1, Base(w, layers[0].slot).taken;
    var to := Entry(layers[i].slot);
    var window, jump := Read(s.code, w.target, WINDOW), Read(s.code, w.target, SIZE_OF_JMP);
    assert window == JmpImmediate(w.target, to) + (Brk(n - SIZE_OF_JMP) + w.original[n..]);
    assert jump == window[..SIZE_OF_JMP] == JmpImmediate(w.target, to) + [];
    FirstJump(w.target, to, []);
    NoEntry(w, s.slots.Keys, w.target);
  }

  lemma NoEntry(w: World, slots: set<int>, a: int)
    requires Clear(w, slots) && a == w.target
    ensures a - CODE_IN_OFFSET !in slots && a !in slots && a !in w.through
  {
    assert Entry(a - CODE_IN_OFFSET) == a;
  }

  // From the entry of one layer control passes through the detours from there on that are still
  // attached, and through nothing else, on its way down.
  lemma {:induction false} WalkDown(w: World, s: State, layers: seq<Layer>, i: nat)
    requires ChainOk(w, s, layers) && i < |layers|
    ensures Walk(w, s, Entry(layers[i].slot), Steps(layers[..i + 1])) == (Visits(layers[..i + 1]), layers[0].slot)
    decreases i
  {
    hide ChainOk, Step;
    var l, some := layers[i], layers[..i + 1];
    assert some[..i] == layers[..i] && some[i] == l;
    EntryStep(w, s, layers, i);
    var here := if l.on then [l.detour] else [];
    WalkStep(w, s, Entry(l.slot), 1 + |here|);
    if l.on {
      WalkStep(w, s, l.detour, 1);
    }
    assert Walk(w, s, Entry(l.slot), 1 + |here|) == (here, l.slot);
    if i == 0 {
      assert here + [] == here;
    } else {
      DownStep(w, s, layers, i);
      WalkDown(w, s, layers, i - 1);
      WalkStep(w, s, l.slot, 1 + Steps(layers[..i]));
      WalkOn(w, s, Entry(l.slot), 1 + |here|, 1 + Steps(layers[..i]));
    }
  }

  // Control that enters the function passes through exactly the detours that are still attached,
  // the newest first, and comes to the moved code of the oldest layer, or stays when there is none.
  lemma EntryPassesThroughTheAttached(w: World, s: State, layers: seq<Layer>)
    requires ChainOk(w, s, layers)
    ensures Walk(w, s, w.target, if layers == [] then 0 else 1 + Steps(layers))
         == (Visits(layers), if layers == [] then w.target else layers[0].slot)
  {
    hide ChainOk, Step;
    if layers != [] {
      var i := |layers| - 1;
      TopStep(w, s, layers);
      WalkStep(w, s, w.target, 1 + Steps(layers));
      WalkDown(w, s, layers, i);
      assert layers[..i + 1] == layers;
    }
  }
}
