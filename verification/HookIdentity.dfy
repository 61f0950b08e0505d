// Attaching any number of hooks and detaching them again leaves everything as it was.
module HookIdentity {
  import opened CStrings
  import opened JumpEncoding
  import opened Prologue
  import opened Transaction
  import opened X86Relocation

  // A pointer variable, the function it holds, the detour, and the trampoline that is found.
  datatype Hook = Hook(pointer: int, target: int, detour: int, slot: int)

  ghost predicate Attachable(s: State, t: Table, h: Hook) {
    && h.pointer in s.pointers && s.pointers[h.pointer] == h.target && h.detour != h.target && h.slot !in s.slots
    && Mapped(s.code, h.target, WINDOW)
    && var p := Prepare(t, Read(s.code, h.target, WINDOW), h.target, h.slot);
       p.Some? && p.value.Prepared?
  }

  ghost function PreparedFor(s: State, t: Table, h: Hook): Prepared
    requires Attachable(s, t, h)
  {
    Prepare(t, Read(s.code, h.target, WINDOW), h.target, h.slot).value
  }

  // The bytes of the function that the hook takes.
  ghost function Taken(s: State, t: Table, h: Hook): (n: nat)
    requires Attachable(s, t, h)
    ensures SIZE_OF_JMP <= n <= CODE_SIZE - SIZE_OF_JMP && n <= WINDOW
  {
    PreparedFor(s, t, h).taken
  }

  // Where its instructions end, in place and moved.
  ghost function EndsOf(s: State, t: Table, h: Hook): seq<End>
    requires Attachable(s, t, h)
  {
    EndsFrom(t, Read(s.code, h.target, WINDOW), 0, 0, h.slot - h.target, 0)
  }

  ghost function Record(s: State, t: Table, h: Hook): Trampoline
    requires Attachable(s, t, h)
  {
    var p := PreparedFor(s, t, h);
    Trampoline(Head(p.moved.bytes, Read(s.code, h.target, WINDOW)[..p.taken], h.slot), p.taken, AlignTable(EndsOf(s, t, h)),
               h.target + p.taken, h.detour, Brk(8))
  }

  // How many of these bytes the jump in the trampoline spoils.
  ghost function MovedSize(s: State, t: Table, h: Hook): (n: nat)
    requires Attachable(s, t, h)
    ensures n <= CODE_SIZE && |Spilled(n)| < Taken(s, t, h)
  {
    |PreparedFor(s, t, h).moved.bytes|
  }

  ghost predicate KeepsItsBytes(s: State, t: Table, h: Hook)
    requires Attachable(s, t, h)
  {
    Intact(MovedSize(s, t, h), Read(s.code, h.target, WINDOW))
  }

  // The code that is put back: the spoilt bytes over the front of each of the first n functions.
  ghost function Spoilt(s: State, t: Table, hs: seq<Hook>, n: nat): (code: Memory)
    requires n <= |hs| && forall i :: 0 <= i < |hs| ==> Attachable(s, t, hs[i])
    ensures code.Keys == s.code.Keys
  {
    if n == 0 then s.code
    else
      assert Mapped(Spoilt(s, t, hs, n - 1), hs[n - 1].target, WINDOW);
      Write(Spoilt(s, t, hs, n - 1), hs[n - 1].target, Spilled(MovedSize(s, t, hs[n - 1])))
  }

  // Hooks that have nothing in common.
  ghost predicate Apart(s: State, t: Table, hs: seq<Hook>) {
    && (forall i :: 0 <= i < |hs| ==> Attachable(s, t, hs[i]))
    && forall i, j :: 0 <= i < |hs| && 0 <= j < |hs| && i != j ==>
         && hs[i].pointer != hs[j].pointer && hs[i].slot != hs[j].slot
         && (hs[i].target + Taken(s, t, hs[i]) <= hs[j].target || hs[j].target + Taken(s, t, hs[j]) <= hs[i].target)
  }

  predicate Within(a: int, target: int, n: nat) {
    target <= a < target + n
  }

  // ---------- Every stage on the way ----------

  // The state s, when of the hooks those in have own a trampoline, those in armed have had their
  // commit, and those in on are in place; all the rest is as it was in s0, with this code at base.
  ghost predicate Stage(s0: State, t: Table, hs: seq<Hook>, base: Memory, s: State, on: set<int>, armed: set<int>, have: set<int>)
    requires Apart(s0, t, hs)
  {
    && on <= armed <= have && (forall i <- have :: 0 <= i < |hs|)
    && CodeStage(s0, t, hs, base, s.code, on)
    && PointerStage(s0, hs, s.pointers, on)
    && SlotStage(s0, t, hs, s.slots, armed, have)
  }

  ghost predicate CodeStage(s0: State, t: Table, hs: seq<Hook>, base: Memory, code: Memory, on: set<int>)
    requires Apart(s0, t, hs)
  {
    && code.Keys == base.Keys == s0.code.Keys && (forall i <- on :: 0 <= i < |hs|)
    && forall a <- code :: ByteStage(s0, t, hs, base, on, a, code[a])
  }

  // Within a function that is hooked the patch stands, and elsewhere what is at the base.
  ghost predicate ByteStage(s0: State, t: Table, hs: seq<Hook>, base: Memory, on: set<int>, a: int, v: Byte)
    requires Apart(s0, t, hs) && (forall i <- on :: 0 <= i < |hs|) && a in base
  {
    && (forall i <- on :: Within(a, hs[i].target, Taken(s0, t, hs[i])) ==>
          v == Patch(hs[i].target, hs[i].slot, Taken(s0, t, hs[i]))[a - hs[i].target])
    && ((forall i <- on :: !Within(a, hs[i].target, Taken(s0, t, hs[i]))) ==> v == base[a])
  }

  ghost predicate PointerStage(s0: State, hs: seq<Hook>, pointers: map<int, int>, on: set<int>) {
    && pointers.Keys == s0.pointers.Keys
    && (forall i :: 0 <= i < |hs| ==>
          hs[i].pointer in pointers && pointers[hs[i].pointer] == if i in on then hs[i].slot else hs[i].target)
    && (forall p <- pointers :: (forall i :: 0 <= i < |hs| ==> p != hs[i].pointer) ==> pointers[p] == s0.pointers[p])
  }

  ghost function SlotSet(hs: seq<Hook>, have: set<int>): set<int>
    requires forall i <- have :: 0 <= i < |hs|
  {
    set i <- have :: hs[i].slot
  }

  ghost function RecordOf(s0: State, t: Table, h: Hook, armed: bool): Trampoline
    requires Attachable(s0, t, h)
  {
    if armed then Record(s0, t, h).(rbCodeIn := CodeIn(h.slot)) else Record(s0, t, h)
  }

  ghost predicate SlotStage(s0: State, t: Table, hs: seq<Hook>, slots: map<int, Trampoline>, armed: set<int>, have: set<int>)
    requires Apart(s0, t, hs)
  {
    && (forall i <- have :: 0 <= i < |hs|)
    && slots.Keys == s0.slots.Keys + SlotSet(hs, have)
    && (forall i <- have :: hs[i].slot in slots && slots[hs[i].slot] == RecordOf(s0, t, hs[i], i in armed))
    && (forall k <- s0.slots :: k in slots && slots[k] == s0.slots[k])
  }

  // The start, and the end, of it all.
  lemma NothingDone(s0: State, t: Table, hs: seq<Hook>, s: State)
    requires Apart(s0, t, hs) && s.code == s0.code && s.pointers == s0.pointers && s.slots == s0.slots
    ensures Stage(s0, t, hs, s0.code, s, {}, {}, {})
  {
    forall i | 0 <= i < |hs| ensures hs[i].pointer in s.pointers && s.pointers[hs[i].pointer] == hs[i].target {
      assert Attachable(s0, t, hs[i]);
    }
    assert SlotSet(hs, {}) == {};
  }

  lemma SameMap<V>(m: map<int, V>, n: map<int, V>)
    requires m.Keys == n.Keys && forall k <- m :: m[k] == n[k]
    ensures m == n
  {
    forall k | k in m ensures k in n && m[k] == n[k] {
    }
  }

  lemma CodeBack(s0: State, t: Table, hs: seq<Hook>, base: Memory, code: Memory)
    requires Apart(s0, t, hs) && CodeStage(s0, t, hs, base, code, {})
    ensures code == base
  {
    forall a <- code ensures code[a] == base[a] {
      assert ByteStage(s0, t, hs, base, {}, a, code[a]);
    }
    SameMap(code, base);
  }

  lemma PointersBack(s0: State, t: Table, hs: seq<Hook>, pointers: map<int, int>)
    requires Apart(s0, t, hs) && PointerStage(s0, hs, pointers, {})
    ensures pointers == s0.pointers
  {
    forall p <- pointers ensures pointers[p] == s0.pointers[p] {
      if i :| 0 <= i < |hs| && p == hs[i].pointer {
        assert Attachable(s0, t, hs[i]);
      }
    }
    SameMap(pointers, s0.pointers);
  }

  // Which trampolines have been armed does not matter any more once they are freed.
  lemma SlotsBack(s0: State, t: Table, hs: seq<Hook>, slots: map<int, Trampoline>, armed: set<int>, have: set<int>)
    requires Apart(s0, t, hs) && SlotStage(s0, t, hs, slots, armed, have)
    ensures slots - SlotSet(hs, have) == s0.slots
  {
    var rest := slots - SlotSet(hs, have);
    forall i <- have ensures hs[i].slot !in s0.slots {
      assert Attachable(s0, t, hs[i]);
    }
    forall k <- s0.slots ensures k in rest && rest[k] == s0.slots[k] {
    }
    assert rest.Keys == s0.slots.Keys;
    SameMap(rest, s0.slots);
  }

  // ---------- One operation of a commit ----------

  function AddOf(h: Hook): Operation {
    Operation(true, false, h.pointer, h.target, h.slot)
  }

  function RemoveOf(h: Hook): Operation {
    Operation(false, true, h.pointer, h.target, h.slot)
  }

  lemma AllAttachable(s0: State, t: Table, hs: seq<Hook>)
    requires Apart(s0, t, hs)
    ensures forall i :: 0 <= i < |hs| ==> Attachable(s0, t, hs[i])
  {
  }

  // What hooks that have nothing in common do not share.
  lemma NothingShared(s0: State, t: Table, hs: seq<Hook>, i: int)
    requires Apart(s0, t, hs) && 0 <= i < |hs|
    ensures hs[i].slot !in s0.slots && Attachable(s0, t, hs[i])
    ensures forall j :: 0 <= j < |hs| && j != i ==> hs[j].slot != hs[i].slot && hs[j].pointer != hs[i].pointer
  {
    assert Attachable(s0, t, hs[i]);
  }

  lemma BytesDiffer(s0: State, t: Table, hs: seq<Hook>, i: int)
    requires Apart(s0, t, hs) && 0 <= i < |hs|
    ensures forall j, a :: 0 <= j < |hs| && j != i && Within(a, hs[j].target, Taken(s0, t, hs[j])) ==>
      !Within(a, hs[i].target, Taken(s0, t, hs[i]))
  {
    hide Attachable, Taken;
  }

  lemma ByteAdded(s0: State, t: Table, hs: seq<Hook>, base: Memory, on: set<int>, i: int, a: int, v: Byte)
    requires Apart(s0, t, hs) && (forall j <- on :: 0 <= j < |hs|) && 0 <= i < |hs| && a in base
    requires ByteStage(s0, t, hs, base, on, a, v)
    ensures ByteStage(s0, t, hs, base, on + {i}, a,
      if Within(a, hs[i].target, Taken(s0, t, hs[i]))
      then Patch(hs[i].target, hs[i].slot, Taken(s0, t, hs[i]))[a - hs[i].target] else v)
  {
    hide Apart, Attachable, Taken, Patch;
    AllAttachable(s0, t, hs);
    BytesDiffer(s0, t, hs, i);
    assert i in on + {i} && forall j <- on :: j in on + {i};
  }

  lemma CodeAdded(s0: State, t: Table, hs: seq<Hook>, base: Memory, code: Memory, on: set<int>, i: int)
    requires Apart(s0, t, hs) && CodeStage(s0, t, hs, base, code, on) && 0 <= i < |hs|
    ensures Mapped(code, hs[i].target, Taken(s0, t, hs[i]))
    ensures CodeStage(s0, t, hs, base, Write(code, hs[i].target, Patch(hs[i].target, hs[i].slot, Taken(s0, t, hs[i]))), on + {i})
  {
    hide Apart, Taken, Patch, ByteStage, Prepare;
    NothingShared(s0, t, hs, i);
    var b := Patch(hs[i].target, hs[i].slot, Taken(s0, t, hs[i]));
    var patched := Write(code, hs[i].target, b);
    forall a <- patched ensures ByteStage(s0, t, hs, base, on + {i}, a, patched[a]) {
      ByteAdded(s0, t, hs, base, on, i, a, code[a]);
    }
  }

  // What the hook's trampoline holds to be put back.
  ghost function Kept(s: State, t: Table, h: Hook): (b: seq<Byte>)
    requires Attachable(s, t, h)
    ensures |b| == Taken(s, t, h)
  {
    Restored(Record(s, t, h))
  }

  // This code has all of that in its place.
  ghost predicate HasKept(s0: State, t: Table, h: Hook, base: Memory)
    requires Attachable(s0, t, h)
  {
    Mapped(base, h.target, Taken(s0, t, h)) && Read(base, h.target, Taken(s0, t, h)) == Kept(s0, t, h)
  }

  ghost predicate AllKept(s0: State, t: Table, hs: seq<Hook>, base: Memory)
    requires Apart(s0, t, hs)
  {
    forall i :: 0 <= i < |hs| ==> HasKept(s0, t, hs[i], base)
  }

  lemma KeptOf(s0: State, t: Table, hs: seq<Hook>, base: Memory, i: int)
    requires Apart(s0, t, hs) && AllKept(s0, t, hs, base) && 0 <= i < |hs|
    ensures Attachable(s0, t, hs[i]) && HasKept(s0, t, hs[i], base)
  {
    assert Attachable(s0, t, hs[i]);
  }

  lemma ByteRestored(s0: State, t: Table, hs: seq<Hook>, base: Memory, on: set<int>, i: int, a: int, v: Byte)
    requires Apart(s0, t, hs) && (forall j <- on :: 0 <= j < |hs|) && 0 <= i < |hs| && a in base
    requires ByteStage(s0, t, hs, base, on, a, v) && HasKept(s0, t, hs[i], base)
    ensures ByteStage(s0, t, hs, base, on - {i}, a,
      if Within(a, hs[i].target, Taken(s0, t, hs[i])) then Kept(s0, t, hs[i])[a - hs[i].target] else v)
  {
    hide Apart, Attachable, Taken, Patch, Kept;
    AllAttachable(s0, t, hs);
    BytesDiffer(s0, t, hs, i);
    var h, n := hs[i], Taken(s0, t, hs[i]);
    if Within(a, h.target, n) {
      assert Read(base, h.target, n)[a - h.target] == base[a];
    } else if forall j <- on - {i} :: !Within(a, hs[j].target, Taken(s0, t, hs[j])) {
      forall j <- on ensures !Within(a, hs[j].target, Taken(s0, t, hs[j])) {
        assert j != i ==> j in on - {i};
      }
    }
  }

  lemma CodeRestored(s0: State, t: Table, hs: seq<Hook>, base: Memory, code: Memory, on: set<int>, i: int)
    requires Apart(s0, t, hs) && CodeStage(s0, t, hs, base, code, on) && 0 <= i < |hs| && HasKept(s0, t, hs[i], base)
    ensures Mapped(code, hs[i].target, Taken(s0, t, hs[i]))
    ensures CodeStage(s0, t, hs, base, Write(code, hs[i].target, Kept(s0, t, hs[i])), on - {i})
  {
    hide Apart, Taken, ByteStage, Kept, HasKept, Prepare;
    NothingShared(s0, t, hs, i);
    var restored := Write(code, hs[i].target, Kept(s0, t, hs[i]));
    forall a <- restored ensures ByteStage(s0, t, hs, base, on - {i}, a, restored[a]) {
      ByteRestored(s0, t, hs, base, on, i, a, code[a]);
    }
  }

  lemma PointerSet(s0: State, t: Table, hs: seq<Hook>, pointers: map<int, int>, on: set<int>, i: int)
    requires Apart(s0, t, hs) && PointerStage(s0, hs, pointers, on) && 0 <= i < |hs|
    ensures PointerStage(s0, hs, pointers[hs[i].pointer := hs[i].slot], on + {i})
    ensures PointerStage(s0, hs, pointers[hs[i].pointer := hs[i].target], on - {i})
  {
    hide Apart;
    NothingShared(s0, t, hs, i);
  }

  lemma SlotArmed(s0: State, t: Table, hs: seq<Hook>, slots: map<int, Trampoline>, armed: set<int>, have: set<int>, i: int)
    requires Apart(s0, t, hs) && SlotStage(s0, t, hs, slots, armed, have) && i in have
    ensures var tr := slots[hs[i].slot];
      SlotStage(s0, t, hs, slots[hs[i].slot := tr.(rbCodeIn := CodeIn(hs[i].slot))], armed + {i}, have)
  {
    hide Apart, Attachable, RecordOf, CodeIn;
    NothingShared(s0, t, hs, i);
    ArmedRecord(s0, t, hs[i], i in armed);
    var more := slots[hs[i].slot := slots[hs[i].slot].(rbCodeIn := CodeIn(hs[i].slot))];
    assert hs[i].slot in SlotSet(hs, have);
    assert more.Keys == slots.Keys;
  }

  lemma ArmedRecord(s0: State, t: Table, h: Hook, armed: bool)
    requires Attachable(s0, t, h)
    ensures RecordOf(s0, t, h, armed).(rbCodeIn := CodeIn(h.slot)) == RecordOf(s0, t, h, true)
  {
    hide Record, CodeIn, Attachable;
  }

  lemma SlotFacts(s0: State, t: Table, hs: seq<Hook>, base: Memory, s: State, on: set<int>, armed: set<int>, have: set<int>, i: int)
    requires Apart(s0, t, hs) && Stage(s0, t, hs, base, s, on, armed, have) && i in have
    ensures 0 <= i < |hs| && hs[i].slot in s.slots && s.slots[hs[i].slot] == RecordOf(s0, t, hs[i], i in armed)
    ensures s.slots[hs[i].slot].cbRestore == Taken(s0, t, hs[i])
    ensures Attachable(s0, t, hs[i]) && |s.slots[hs[i].slot].head| == HEAD_SIZE && Restored(s.slots[hs[i].slot]) == Kept(s0, t, hs[i])
    ensures s.slots[hs[i].slot].pbRemain == hs[i].target + Taken(s0, t, hs[i]) && s.slots[hs[i].slot].pbDetour == hs[i].detour
    ensures i in armed ==> s.slots[hs[i].slot].rbCodeIn == CodeIn(hs[i].slot)
  {
  }

  lemma AddCommits(s0: State, t: Table, hs: seq<Hook>, base: Memory, s: State, on: set<int>, armed: set<int>, have: set<int>, i: int)
    requires Apart(s0, t, hs) && Stage(s0, t, hs, base, s, on, armed, have) && i in have
    requires SlotsOk(s.code, s.slots) && OperationOk(s, AddOf(hs[i]))
    ensures var r := CommitOne(s, AddOf(hs[i]));
      r.1 == AddOf(hs[i]) && Stage(s0, t, hs, base, r.0, on + {i}, armed + {i}, have)
  {
    hide Stage, CodeStage, PointerStage, SlotStage, Apart, RecordOf, Attachable, Taken, SlotOk, OperationOk, Patch;
    SlotFacts(s0, t, hs, base, s, on, armed, have, i);
    StageParts(s0, t, hs, base, s, on, armed, have);
    SlotIsOk(s, hs[i].slot);
    CodeAdded(s0, t, hs, base, s.code, on, i);
    PointerSet(s0, t, hs, s.pointers, on, i);
    SlotArmed(s0, t, hs, s.slots, armed, have, i);
    StageOf(s0, t, hs, base, CommitOne(s, AddOf(hs[i])).0, on + {i}, armed + {i}, have);
  }

  lemma StageParts(s0: State, t: Table, hs: seq<Hook>, base: Memory, s: State, on: set<int>, armed: set<int>, have: set<int>)
    requires Apart(s0, t, hs) && Stage(s0, t, hs, base, s, on, armed, have)
    ensures on <= armed <= have && CodeStage(s0, t, hs, base, s.code, on)
    ensures PointerStage(s0, hs, s.pointers, on) && SlotStage(s0, t, hs, s.slots, armed, have)
  {
  }

  lemma StageOf(s0: State, t: Table, hs: seq<Hook>, base: Memory, s: State, on: set<int>, armed: set<int>, have: set<int>)
    requires Apart(s0, t, hs) && on <= armed <= have && CodeStage(s0, t, hs, base, s.code, on)
    requires PointerStage(s0, hs, s.pointers, on) && SlotStage(s0, t, hs, s.slots, armed, have)
    ensures Stage(s0, t, hs, base, s, on, armed, have)
  {
  }

  lemma SlotIsOk(s: State, k: int)
    requires SlotsOk(s.code, s.slots) && k in s.slots
    ensures SlotOk(s.code, s.slots[k]) && Mapped(s.code, s.slots[k].pbRemain - s.slots[k].cbRestore, s.slots[k].cbRestore)
    ensures |s.slots[k].rbCodeIn| == 8 && SIZE_OF_JMP <= s.slots[k].cbRestore && |s.slots[k].head| == HEAD_SIZE
  {
  }

  // A hook that is in place is found to be there.
  lemma StillThere(s0: State, t: Table, hs: seq<Hook>, base: Memory, s: State, on: set<int>, armed: set<int>, have: set<int>, i: int)
    requires Apart(s0, t, hs) && Stage(s0, t, hs, base, s, on, armed, have) && i in on
    requires SlotsOk(s.code, s.slots) && OperationOk(s, RemoveOf(hs[i]))
    ensures hs[i].slot in s.slots && |s.slots[hs[i].slot].rbCodeIn| == 8 && Mapped(s.code, hs[i].target, SIZE_OF_JMP)
    ensures HookIsStillThere(s, RemoveOf(hs[i]))
  {
    hide Stage, CodeStage, PointerStage, SlotStage, Apart, RecordOf, Attachable, Taken, Kept, SlotOk, OperationOk, CodeIn, JmpImmediate,
      IsJmpImmediateTo, IsJmpIndirectTo, Mapped, SlotsOk;
    StageParts(s0, t, hs, base, s, on, armed, have);
    SlotFacts(s0, t, hs, base, s, on, armed, have, i);
    var h := hs[i];
    SlotIsOk(s, h.slot);
    PatchThere(s0, t, hs, base, s.code, on, i);
    JmpImmediateIs(h.target, h.slot + CODE_IN_OFFSET, h.slot + CODE_IN_OFFSET);
    CodeInIs(h.slot);
  }

  lemma PatchByte(s0: State, t: Table, hs: seq<Hook>, base: Memory, code: Memory, on: set<int>, i: int, a: int)
    requires Apart(s0, t, hs) && CodeStage(s0, t, hs, base, code, on) && i in on && 0 <= i < |hs|
    requires Within(a, hs[i].target, SIZE_OF_JMP)
    ensures a in code && code[a] == JmpImmediate(hs[i].target, hs[i].slot + CODE_IN_OFFSET)[a - hs[i].target]
  {
    hide JmpImmediate, Prepare, Apart, Taken;
    NothingShared(s0, t, hs, i);
    assert Within(a, hs[i].target, Taken(s0, t, hs[i]));
    assert ByteStage(s0, t, hs, base, on, a, code[a]);
  }

  lemma PatchThere(s0: State, t: Table, hs: seq<Hook>, base: Memory, code: Memory, on: set<int>, i: int)
    requires Apart(s0, t, hs) && CodeStage(s0, t, hs, base, code, on) && i in on && 0 <= i < |hs|
    ensures Mapped(code, hs[i].target, SIZE_OF_JMP)
    ensures Read(code, hs[i].target, SIZE_OF_JMP) == JmpImmediate(hs[i].target, hs[i].slot + CODE_IN_OFFSET)
  {
    hide JmpImmediate, Apart, CodeStage;
    var at, jmp := hs[i].target, JmpImmediate(hs[i].target, hs[i].slot + CODE_IN_OFFSET);
    forall a | Within(a, at, SIZE_OF_JMP) ensures a in code && code[a] == jmp[a - at] {
      PatchByte(s0, t, hs, base, code, on, i, a);
    }
    ReadIs(code, at, jmp);
  }

  lemma ReadIs(code: Memory, at: int, b: seq<Byte>)
    requires forall a :: Within(a, at, |b|) ==> a in code && code[a] == b[a - at]
    ensures Mapped(code, at, |b|) && Read(code, at, |b|) == b
  {
    forall a | at <= a < at + |b| ensures a in code {
      assert Within(a, at, |b|);
    }
    forall k | 0 <= k < |b| ensures Read(code, at, |b|)[k] == b[k] {
      assert Within(at + k, at, |b|);
    }
  }

  lemma CodeInIs(slot: int)
    ensures IsJmpIndirectTo(CodeIn(slot), slot + CODE_IN_OFFSET, slot + DETOUR_OFFSET)
  {
    var vector, at := slot + DETOUR_OFFSET, slot + CODE_IN_OFFSET;
    JmpIndirectIs(at, vector, vector);
    assert CodeIn(slot)[2..6] == JmpIndirect(at, vector)[2..6];
  }

  lemma RemoveCommits(s0: State, t: Table, hs: seq<Hook>, base: Memory, s: State, on: set<int>, armed: set<int>, have: set<int>, i: int)
    requires Apart(s0, t, hs) && Stage(s0, t, hs, base, s, on, armed, have) && i in on && AllKept(s0, t, hs, base)
    requires SlotsOk(s.code, s.slots) && OperationOk(s, RemoveOf(hs[i]))
    ensures var r := CommitOne(s, RemoveOf(hs[i]));
      r.1 == RemoveOf(hs[i]) && Stage(s0, t, hs, base, r.0, on - {i}, armed, have)
  {
    hide Stage, CodeStage, PointerStage, SlotStage, Apart, RecordOf, Attachable, Taken, SlotOk, OperationOk, HookIsStillThere;
    StageParts(s0, t, hs, base, s, on, armed, have);
    SlotFacts(s0, t, hs, base, s, on, armed, have, i);
    SlotIsOk(s, hs[i].slot);
    StillThere(s0, t, hs, base, s, on, armed, have, i);
    KeptOf(s0, t, hs, base, i);
    CodeRestored(s0, t, hs, base, s.code, on, i);
    PointerSet(s0, t, hs, s.pointers, on, i);
    StageOf(s0, t, hs, base, CommitOne(s, RemoveOf(hs[i])).0, on - {i}, armed, have);
  }

  // ---------- A whole commit ----------

  ghost predicate Distinct(idx: seq<int>) {
    forall i, j :: 0 <= i < j < |idx| ==> idx[i] != idx[j]
  }

  ghost predicate Indices(idx: seq<int>, n: nat) {
    forall j :: 0 <= j < |idx| ==> 0 <= idx[j] < n
  }

  ghost function Ops(hs: seq<Hook>, idx: seq<int>, adds: bool): (os: seq<Operation>)
    requires Indices(idx, |hs|)
    ensures |os| == |idx|
  {
    seq(|idx|, j requires 0 <= j < |idx| => if adds then AddOf(hs[idx[j]]) else RemoveOf(hs[idx[j]]))
  }

  ghost function Elements(idx: seq<int>): set<int> {
    set k <- idx
  }

  lemma OpsTail(hs: seq<Hook>, idx: seq<int>, adds: bool)
    requires Indices(idx, |hs|) && idx != []
    ensures Indices(idx[1..], |hs|)
    ensures Ops(hs, idx, adds)[0] == (if adds then AddOf(hs[idx[0]]) else RemoveOf(hs[idx[0]]))
    ensures Ops(hs, idx, adds)[1..] == Ops(hs, idx[1..], adds)
    ensures Ops(hs, idx, adds) == [Ops(hs, idx, adds)[0]] + Ops(hs, idx[1..], adds)
    ensures Elements(idx) == {idx[0]} + Elements(idx[1..]) && (Distinct(idx) ==> Distinct(idx[1..]) && idx[0] !in idx[1..])
  {
    assert idx == [idx[0]] + idx[1..];
  }

  lemma {:induction false} AddsCommit(s0: State, t: Table, hs: seq<Hook>, base: Memory, s: State, on: set<int>, armed: set<int>,
                                      have: set<int>, idx: seq<int>)
    requires Apart(s0, t, hs) && Stage(s0, t, hs, base, s, on, armed, have) && Indices(idx, |hs|) && Elements(idx) <= have
    requires SlotsOk(s.code, s.slots) && forall o <- Ops(hs, idx, true) :: OperationOk(s, o)
    ensures var r := CommitAll(s, Ops(hs, idx, true));
      r.1 == Ops(hs, idx, true) && Stage(s0, t, hs, base, r.0, on + Elements(idx), armed + Elements(idx), have)
    decreases |idx|
  {
    hide Stage, Apart, SlotsOk, OperationOk, CommitOne, Ops;
    if idx == [] {
      assert Elements(idx) == {} && on + {} == on && armed + {} == armed;
    } else {
      var i, rest := idx[0], idx[1..];
      OpsTail(hs, idx, true);
      AddCommits(s0, t, hs, base, s, on, armed, have, i);
      AddsCommit(s0, t, hs, base, CommitOne(s, AddOf(hs[i])).0, on + {i}, armed + {i}, have, rest);
      assert on + {i} + Elements(rest) == on + Elements(idx) && armed + {i} + Elements(rest) == armed + Elements(idx);
    }
  }

  lemma {:induction false} RemovesCommit(s0: State, t: Table, hs: seq<Hook>, base: Memory, s: State, on: set<int>, armed: set<int>,
                                         have: set<int>, idx: seq<int>)
    requires Apart(s0, t, hs) && Stage(s0, t, hs, base, s, on, armed, have) && Distinct(idx) && Indices(idx, |hs|) && Elements(idx) <= on
    requires AllKept(s0, t, hs, base)
    requires SlotsOk(s.code, s.slots) && forall o <- Ops(hs, idx, false) :: OperationOk(s, o)
    ensures var r := CommitAll(s, Ops(hs, idx, false));
      r.1 == Ops(hs, idx, false) && Stage(s0, t, hs, base, r.0, on - Elements(idx), armed, have)
    decreases |idx|
  {
    hide Stage, Apart, SlotsOk, OperationOk, CommitOne, Ops;
    if idx == [] {
      assert Elements(idx) == {} && on - {} == on;
    } else {
      var i, rest := idx[0], idx[1..];
      OpsTail(hs, idx, false);
      RemoveCommits(s0, t, hs, base, s, on, armed, have, i);
      RemovesCommit(s0, t, hs, base, CommitOne(s, RemoveOf(hs[i])).0, on - {i}, armed, have, rest);
      assert on - {i} - Elements(rest) == on - Elements(idx);
    }
  }

  // ---------- The transactions ----------

  ghost function Upto(n: nat): (r: set<int>)
    ensures forall i :: i in r <==> 0 <= i < n
  {
    if n == 0 then {} else Upto(n - 1) + {n - 1}
  }

  // The last of these first, as the pending list has them.
  ghost function Latest(order: seq<int>, n: nat): (r: seq<int>)
    requires n <= |order|
    ensures |r| == n
  {
    seq(n, j requires 0 <= j < n => order[n - 1 - j])
  }

  ghost function InOrder(n: nat): (r: seq<int>)
    ensures |r| == n && Indices(r, n) && Distinct(r)
  {
    seq(n, j => j)
  }

  lemma LatestStep(hs: seq<Hook>, order: seq<int>, n: nat, adds: bool)
    requires n < |order| && Indices(order, |hs|)
    ensures Indices(Latest(order, n), |hs|) && Indices(Latest(order, n + 1), |hs|)
    ensures Ops(hs, Latest(order, n + 1), adds)
         == [if adds then AddOf(hs[order[n]]) else RemoveOf(hs[order[n]])] + Ops(hs, Latest(order, n), adds)
  {
    assert Latest(order, n + 1) == [order[n]] + Latest(order, n);
  }

  lemma LatestAll(hs: seq<Hook>, order: seq<int>)
    requires Indices(order, |hs|) && Distinct(order) && Elements(order) == Upto(|hs|)
    ensures var r := Latest(order, |order|); Indices(r, |hs|) && Distinct(r) && Elements(r) == Upto(|hs|)
  {
    var n, r := |order|, Latest(order, |order|);
    forall k ensures k in r <==> k in order {
      if k in order {
        var j :| 0 <= j < n && order[j] == k;
        assert r[n - 1 - j] == k;
      }
    }
  }

  ghost predicate Ready(s: State, t: Table, thread: int, hs: seq<Hook>) {
    Valid(s) && s.owner == 0 && s.pending == [] && thread != 0 && Apart(s, t, hs)
  }

  // Where a transaction stands after its first n attaches.
  ghost predicate AttachedUpTo(s0: State, t: Table, thread: int, hs: seq<Hook>, s: State, n: nat)
    requires Apart(s0, t, hs) && n <= |hs|
  {
    && Valid(s) && s.owner == thread && Indices(Latest(InOrder(|hs|), n), |hs|)
    && s.pending == Ops(hs, Latest(InOrder(|hs|), n), true) && Stage(s0, t, hs, s0.code, s, {}, {}, Upto(n))
  }

  // What an attach needs of its caller and of the trampoline that is found for it.
  ghost predicate CanAttach(s: State, t: Table, h: Hook) {
    && Valid(s) && h.pointer in s.pointers && Mapped(s.code, s.pointers[h.pointer], WINDOW) && h.slot !in s.slots
    && Prepare(t, Read(s.code, s.pointers[h.pointer], WINDOW), s.pointers[h.pointer], h.slot).Some?
  }

  ghost function AttachOf(s: State, t: Table, thread: int, h: Hook): (r: (Status, State))
    requires Valid(s)
    ensures Valid(r.1)
  {
    if CanAttach(s, t, h) then Attach(s, t, thread, h.pointer, h.detour, Some(h.slot)) else (InvalidHandle, s)
  }

  // One transaction, up to its first n attaches.
  ghost function AttachEach(s0: State, t: Table, thread: int, hs: seq<Hook>, n: nat): (r: State)
    requires Valid(s0) && n <= |hs|
    ensures Valid(r)
  {
    if n == 0 then Begin(s0, thread).1 else AttachOf(AttachEach(s0, t, thread, hs, n - 1), t, thread, hs[n - 1]).1
  }

  // Every attach succeeds, and is put on record.
  lemma {:induction false} AttachesSucceed(s0: State, t: Table, thread: int, hs: seq<Hook>, n: nat)
    requires Ready(s0, t, thread, hs) && n <= |hs|
    ensures AttachedUpTo(s0, t, thread, hs, AttachEach(s0, t, thread, hs, n), n)
    ensures n < |hs| ==> CanAttach(AttachEach(s0, t, thread, hs, n), t, hs[n])
    ensures n < |hs| ==> AttachOf(AttachEach(s0, t, thread, hs, n), t, thread, hs[n]).0 == Success
  {
    hide AttachedUpTo, CanAttach, AttachOf, Begin, Apart, Valid;
    if n == 0 {
      AttachStart(s0, t, thread, hs);
    } else {
      AttachesSucceed(s0, t, thread, hs, n - 1);
      AttachNext(s0, t, thread, hs, AttachEach(s0, t, thread, hs, n - 1), n - 1);
    }
    if n < |hs| {
      AttachNext(s0, t, thread, hs, AttachEach(s0, t, thread, hs, n), n);
    }
  }

  lemma AttachStart(s0: State, t: Table, thread: int, hs: seq<Hook>)
    requires Ready(s0, t, thread, hs)
    ensures AttachedUpTo(s0, t, thread, hs, Begin(s0, thread).1, 0)
  {
    NothingDone(s0, t, hs, Begin(s0, thread).1);
  }

  lemma AttachNext(s0: State, t: Table, thread: int, hs: seq<Hook>, s: State, n: nat)
    requires Apart(s0, t, hs) && n < |hs| && AttachedUpTo(s0, t, thread, hs, s, n)
    ensures CanAttach(s, t, hs[n]) && AttachOf(s, t, thread, hs[n]).0 == Success
    ensures AttachedUpTo(s0, t, thread, hs, AttachOf(s, t, thread, hs[n]).1, n + 1)
  {
    hide Stage, Apart, Valid, Ops, Latest, Prepare, Attach;
    AttachSucceeds(s0, t, thread, hs, s, n);
    LatestStep(hs, InOrder(|hs|), n, true);
  }

  lemma AttachSucceeds(s0: State, t: Table, thread: int, hs: seq<Hook>, s: State, i: nat)
    requires Apart(s0, t, hs) && Valid(s) && s.owner == thread && i < |hs| && Stage(s0, t, hs, s0.code, s, {}, {}, Upto(i))
    ensures var h := hs[i];
      && h.pointer in s.pointers && s.pointers[h.pointer] == h.target && Mapped(s.code, h.target, WINDOW) && h.slot !in s.slots
      && Prepare(t, Read(s.code, h.target, WINDOW), h.target, h.slot).Some?
      && var r := Attach(s, t, thread, h.pointer, h.detour, Some(h.slot));
      && r.0 == Success && r.1.owner == thread && r.1.pending == [AddOf(h)] + s.pending
      && Stage(s0, t, hs, s0.code, r.1, {}, {}, Upto(i + 1))
  {
    hide Stage, CodeStage, PointerStage, SlotStage, Apart, Valid, Record, Taken;
    StageParts(s0, t, hs, s0.code, s, {}, {}, Upto(i));
    CodeBack(s0, t, hs, s0.code, s.code);
    PointersBack(s0, t, hs, s.pointers);
    SlotIsNew(s0, t, hs, s.slots, i);
    SlotAdded(s0, t, hs, s.slots, i);
    AttachRecords(s0, t, thread, hs[i], s);
    StageOf(s0, t, hs, s0.code, Attach(s, t, thread, hs[i].pointer, hs[i].detour, Some(hs[i].slot)).1, {}, {}, Upto(i + 1));
  }

  lemma AttachRecords(s0: State, t: Table, thread: int, h: Hook, s: State)
    requires Attachable(s0, t, h) && Valid(s) && s.owner == thread && s.code == s0.code && s.pointers == s0.pointers && h.slot !in s.slots
    ensures h.pointer in s.pointers && s.pointers[h.pointer] == h.target && Mapped(s.code, h.target, WINDOW)
    ensures Prepare(t, Read(s.code, h.target, WINDOW), h.target, h.slot).Some?
    ensures Attach(s, t, thread, h.pointer, h.detour, Some(h.slot))
         == (Success, s.(slots := s.slots[h.slot := Record(s0, t, h)], pending := [AddOf(h)] + s.pending))
  {
    hide Prepare, Valid, Head, Brk, EndsFrom;
  }

  lemma SlotIsNew(s0: State, t: Table, hs: seq<Hook>, slots: map<int, Trampoline>, i: nat)
    requires Apart(s0, t, hs) && i < |hs| && SlotStage(s0, t, hs, slots, {}, Upto(i))
    ensures Attachable(s0, t, hs[i]) && hs[i].slot !in slots
  {
    assert Attachable(s0, t, hs[i]);
    forall j <- Upto(i) ensures hs[j].slot != hs[i].slot {
    }
  }

  lemma SlotAdded(s0: State, t: Table, hs: seq<Hook>, slots: map<int, Trampoline>, i: nat)
    requires Apart(s0, t, hs) && i < |hs| && SlotStage(s0, t, hs, slots, {}, Upto(i))
    ensures SlotStage(s0, t, hs, slots[hs[i].slot := Record(s0, t, hs[i])], {}, Upto(i + 1))
  {
    hide Apart, Attachable, RecordOf, SlotSet;
    NothingShared(s0, t, hs, i);
    SlotSetGrows(hs, i);
    NotArmed(s0, t, hs[i]);
    var more := slots[hs[i].slot := Record(s0, t, hs[i])];
    assert more.Keys == slots.Keys + {hs[i].slot};
  }

  lemma SlotSetGrows(hs: seq<Hook>, i: nat)
    requires i < |hs|
    ensures SlotSet(hs, Upto(i + 1)) == SlotSet(hs, Upto(i)) + {hs[i].slot}
  {
    assert Upto(i + 1) == Upto(i) + {i};
  }

  lemma NotArmed(s0: State, t: Table, h: Hook)
    requires Attachable(s0, t, h)
    ensures RecordOf(s0, t, h, false) == Record(s0, t, h)
  {
  }

  lemma InOrderAll(n: nat)
    ensures Elements(InOrder(n)) == Upto(n)
  {
    forall k | 0 <= k < n ensures k in InOrder(n) {
      assert InOrder(n)[k] == k;
    }
  }

  lemma FreedOps(hs: seq<Hook>, idx: seq<int>, adds: bool)
    requires Indices(idx, |hs|) && forall i <- Elements(idx) :: 0 <= i < |hs|
    ensures Freed(Ops(hs, idx, adds), adds) == SlotSet(hs, Elements(idx))
    ensures adds ==> Freed(Ops(hs, idx, adds), false) == {}
  {
    var os := Ops(hs, idx, adds);
    forall k | k in SlotSet(hs, Elements(idx)) ensures k in Freed(os, adds) {
      var j :| 0 <= j < |idx| && hs[idx[j]].slot == k;
      assert os[j] in os;
    }
  }

  // The commit of all the attaches succeeds, and puts every hook in place.
  lemma AttachesCommit(s0: State, t: Table, thread: int, hs: seq<Hook>)
    requires Ready(s0, t, thread, hs)
    ensures var r := Commit(AttachEach(s0, t, thread, hs, |hs|), thread); var all := Upto(|hs|);
      r.0 == Success && r.1.owner == 0 && r.1.pending == [] && Stage(s0, t, hs, s0.code, r.1, all, all, all)
  {
    hide Stage, CodeStage, PointerStage, SlotStage, Apart, SlotsOk, OperationOk, CommitOne, CommitAll, Ops, Latest, InOrder, Freed;
    var n, s := |hs|, AttachEach(s0, t, thread, hs, |hs|);
    var idx, all := Latest(InOrder(n), n), Upto(n);
    AttachesSucceed(s0, t, thread, hs, n);
    InOrderAll(n);
    LatestAll(hs, InOrder(n));
    FreedOps(hs, idx, true);
    AddsCommit(s0, t, hs, s0.code, s, {}, {}, all, idx);
    assert {} + all == all;
    var last := CommitAll(s, s.pending).0;
    assert last.slots - {} == last.slots;
    StageOnly(s0, t, hs, s0.code, last, Commit(s, thread).1, all, all, all);
  }

  lemma StageOnly(s0: State, t: Table, hs: seq<Hook>, base: Memory, s: State, same: State, on: set<int>, armed: set<int>, have: set<int>)
    requires Apart(s0, t, hs) && Stage(s0, t, hs, base, s, on, armed, have)
    requires same.code == s.code && same.pointers == s.pointers && same.slots == s.slots
    ensures Stage(s0, t, hs, base, same, on, armed, have)
  {
  }

  // ---------- And back ----------

  ghost predicate CanDetach(s: State, h: Hook) {
    Valid(s) && h.pointer in s.pointers && s.pointers[h.pointer] in s.slots
  }

  ghost function DetachOf(s: State, thread: int, h: Hook): (r: (Status, State))
    requires Valid(s)
    ensures Valid(r.1)
  {
    if CanDetach(s, h) then Detach(s, thread, h.pointer, h.detour) else (InvalidHandle, s)
  }

  // One transaction, up to its first n detaches.
  ghost function DetachEach(s1: State, thread: int, hs: seq<Hook>, order: seq<int>, n: nat): (r: State)
    requires Valid(s1) && Indices(order, |hs|) && n <= |order|
    ensures Valid(r)
  {
    if n == 0 then Begin(s1, thread).1 else DetachOf(DetachEach(s1, thread, hs, order, n - 1), thread, hs[order[n - 1]]).1
  }

  // All the hooks are in place, and no transaction is open.
  ghost predicate Hooked(s0: State, t: Table, hs: seq<Hook>, s: State)
    requires Apart(s0, t, hs)
  {
    Valid(s) && s.owner == 0 && s.pending == [] && Stage(s0, t, hs, s0.code, s, Upto(|hs|), Upto(|hs|), Upto(|hs|))
  }

  ghost predicate DetachedUpTo(s1: State, thread: int, hs: seq<Hook>, order: seq<int>, s: State, n: nat)
    requires Indices(order, |hs|) && n <= |order|
  {
    && Valid(s) && Indices(Latest(order, n), |hs|)
    && s == s1.(owner := thread, pending := Ops(hs, Latest(order, n), false))
  }

  lemma DetachStart(s1: State, thread: int, hs: seq<Hook>, order: seq<int>)
    requires Valid(s1) && s1.owner == 0 && Indices(order, |hs|)
    ensures DetachedUpTo(s1, thread, hs, order, Begin(s1, thread).1, 0)
  {
  }

  lemma DetachFinds(s0: State, t: Table, hs: seq<Hook>, base: Memory, s: State, all: set<int>, i: int)
    requires Apart(s0, t, hs) && Stage(s0, t, hs, base, s, all, all, all) && i in all
    ensures 0 <= i < |hs| && hs[i].pointer in s.pointers && s.pointers[hs[i].pointer] == hs[i].slot && hs[i].slot in s.slots
    ensures var tr := s.slots[hs[i].slot];
      0 < tr.cbRestore <= CODE_SIZE && tr.pbDetour == hs[i].detour && tr.pbRemain - tr.cbRestore == hs[i].target
  {
    hide CodeStage, SlotStage, Apart;
    SlotFacts(s0, t, hs, base, s, all, all, all, i);
  }

  lemma DetachNext(s0: State, t: Table, s1: State, thread: int, hs: seq<Hook>, order: seq<int>, s: State, n: nat)
    requires Apart(s0, t, hs) && Hooked(s0, t, hs, s1) && Indices(order, |hs|) && n < |order|
    requires DetachedUpTo(s1, thread, hs, order, s, n)
    ensures CanDetach(s, hs[order[n]]) && DetachOf(s, thread, hs[order[n]]).0 == Success
    ensures DetachedUpTo(s1, thread, hs, order, DetachOf(s, thread, hs[order[n]]).1, n + 1)
  {
    hide Stage, Apart, Valid, Ops, Latest;
    DetachFinds(s0, t, hs, s0.code, s1, Upto(|hs|), order[n]);
    LatestStep(hs, order, n, false);
  }

  // Every detach succeeds, and is put on record.
  lemma {:induction false} DetachesSucceed(s0: State, t: Table, s1: State, thread: int, hs: seq<Hook>, order: seq<int>, n: nat)
    requires Apart(s0, t, hs) && Hooked(s0, t, hs, s1) && Indices(order, |hs|) && n <= |order|
    ensures DetachedUpTo(s1, thread, hs, order, DetachEach(s1, thread, hs, order, n), n)
    ensures n < |order| ==> DetachOf(DetachEach(s1, thread, hs, order, n), thread, hs[order[n]]).0 == Success
  {
    hide DetachedUpTo, CanDetach, DetachOf, Begin, Apart, Valid, Stage;
    if n == 0 {
      DetachStart(s1, thread, hs, order);
    } else {
      DetachesSucceed(s0, t, s1, thread, hs, order, n - 1);
      DetachNext(s0, t, s1, thread, hs, order, DetachEach(s1, thread, hs, order, n - 1), n - 1);
    }
    if n < |order| {
      DetachNext(s0, t, s1, thread, hs, order, DetachEach(s1, thread, hs, order, n), n);
    }
  }

  // ---------- What is put back ----------

  ghost predicate SpoiltUpTo(s0: State, t: Table, hs: seq<Hook>, code: Memory, n: nat)
    requires Apart(s0, t, hs) && n <= |hs|
  {
    && code.Keys == s0.code.Keys
    && (forall i :: 0 <= i < n ==> HasKept(s0, t, hs[i], code))
    && (forall i, a :: n <= i < |hs| && Within(a, hs[i].target, Taken(s0, t, hs[i])) ==> a in code && code[a] == s0.code[a])
    && (forall a <- code :: (forall i :: 0 <= i < |hs| ==> !Within(a, hs[i].target, Taken(s0, t, hs[i]))) ==> code[a] == s0.code[a])
  }

  lemma KeptIs(s0: State, t: Table, h: Hook)
    requires Attachable(s0, t, h)
    ensures var window, b := Read(s0.code, h.target, WINDOW), Spilled(MovedSize(s0, t, h));
      && Kept(s0, t, h) == b + window[|b|..Taken(s0, t, h)]
      && (Kept(s0, t, h) == window[..Taken(s0, t, h)] <==> KeepsItsBytes(s0, t, h))
  {
    hide Head, Spilled, Prepare;
    var p := PreparedFor(s0, t, h);
    HeadRestores(p.moved.bytes, Read(s0.code, h.target, WINDOW), p.taken, h.slot);
  }

  lemma SpoiltStep(s0: State, t: Table, hs: seq<Hook>, code: Memory, n: nat)
    requires Apart(s0, t, hs) && n < |hs| && SpoiltUpTo(s0, t, hs, code, n) && Attachable(s0, t, hs[n])
    requires Mapped(code, hs[n].target, |Spilled(MovedSize(s0, t, hs[n]))|)
    ensures SpoiltUpTo(s0, t, hs, Write(code, hs[n].target, Spilled(MovedSize(s0, t, hs[n]))), n + 1)
  {
    hide Apart, Attachable, Taken, Spilled, Kept, MovedSize, HasKept;
    AllAttachable(s0, t, hs);
    var h := hs[n];
    BytesDiffer(s0, t, hs, n);
    var b := Spilled(MovedSize(s0, t, h));
    var next := Write(code, h.target, b);
    forall i | 0 <= i < n + 1 ensures HasKept(s0, t, hs[i], next) {
      if i < n {
        KeptElsewhere(s0, t, hs, code, b, n, i);
      } else {
        KeptHere(s0, t, h, code, b);
      }
    }
    forall i, a | n + 1 <= i < |hs| && Within(a, hs[i].target, Taken(s0, t, hs[i])) ensures a in next && next[a] == s0.code[a] {
      assert !Within(a, h.target, Taken(s0, t, h));
    }
    forall a <- next | forall i :: 0 <= i < |hs| ==> !Within(a, hs[i].target, Taken(s0, t, hs[i])) ensures next[a] == s0.code[a] {
      assert !Within(a, h.target, Taken(s0, t, h));
    }
  }

  lemma KeptElsewhere(s0: State, t: Table, hs: seq<Hook>, code: Memory, b: seq<Byte>, n: nat, i: nat)
    requires Apart(s0, t, hs) && i < n < |hs| && HasKept(s0, t, hs[i], code)
    requires Mapped(code, hs[n].target, |b|) && |b| < Taken(s0, t, hs[n])
    ensures HasKept(s0, t, hs[i], Write(code, hs[n].target, b))
  {
    hide Attachable, Taken, Kept;
    AllAttachable(s0, t, hs);
    BytesDiffer(s0, t, hs, n);
    var h, next := hs[i], Write(code, hs[n].target, b);
    var before, after := Read(code, h.target, Taken(s0, t, h)), Read(next, h.target, Taken(s0, t, h));
    forall k | 0 <= k < Taken(s0, t, h) ensures after[k] == before[k] {
      assert Within(h.target + k, h.target, Taken(s0, t, h));
    }
    assert after == before;
  }

  lemma KeptHere(s0: State, t: Table, h: Hook, code: Memory, b: seq<Byte>)
    requires Attachable(s0, t, h) && code.Keys == s0.code.Keys && b == Spilled(MovedSize(s0, t, h))
    requires forall a :: Within(a, h.target, Taken(s0, t, h)) ==> a in code && code[a] == s0.code[a]
    ensures Mapped(code, h.target, |b|) && HasKept(s0, t, h, Write(code, h.target, b))
  {
    hide Taken, Kept, Spilled, MovedSize, Prepare;
    KeptIs(s0, t, h);
    var n, window := Taken(s0, t, h), Read(s0.code, h.target, WINDOW);
    WrittenOver(s0.code, code, h.target, b, n);
    assert Read(s0.code, h.target, n) == window[..n];
    assert window[..n][|b|..] == window[|b|..n];
  }

  lemma WrittenOver(before: Memory, code: Memory, at: int, b: seq<Byte>, n: nat)
    requires Mapped(before, at, n) && |b| <= n && (forall a :: Within(a, at, n) ==> a in code && code[a] == before[a])
    ensures Mapped(code, at, |b|) && Mapped(Write(code, at, b), at, n)
    ensures Read(Write(code, at, b), at, n) == b + Read(before, at, n)[|b|..]
  {
    forall a | at <= a < at + n ensures a in code {
      assert Within(a, at, n);
    }
    var r, goal := Read(Write(code, at, b), at, n), b + Read(before, at, n)[|b|..];
    forall k | 0 <= k < n ensures r[k] == goal[k] {
      assert Within(at + k, at, n);
    }
  }

  lemma {:induction false} SpoiltIs(s0: State, t: Table, hs: seq<Hook>, n: nat)
    requires Apart(s0, t, hs) && n <= |hs|
    ensures forall i :: 0 <= i < |hs| ==> Attachable(s0, t, hs[i])
    ensures SpoiltUpTo(s0, t, hs, Spoilt(s0, t, hs, n), n)
  {
    hide Apart, Attachable, Taken, SpoiltUpTo, MovedSize, Spilled;
    AllAttachable(s0, t, hs);
    if n == 0 {
      NothingSpoilt(s0, t, hs);
    } else {
      SpoiltIs(s0, t, hs, n - 1);
      FunctionMapped(s0, t, hs[n - 1]);
      SpoiltStep(s0, t, hs, Spoilt(s0, t, hs, n - 1), n - 1);
    }
  }

  lemma NothingSpoilt(s0: State, t: Table, hs: seq<Hook>)
    requires Apart(s0, t, hs)
    ensures SpoiltUpTo(s0, t, hs, s0.code, 0)
  {
    forall i, a | 0 <= i < |hs| && Within(a, hs[i].target, Taken(s0, t, hs[i])) ensures a in s0.code {
      assert Attachable(s0, t, hs[i]);
    }
  }

  lemma FunctionMapped(s0: State, t: Table, h: Hook)
    requires Attachable(s0, t, h)
    ensures Mapped(s0.code, h.target, WINDOW)
  {
  }

  // Nothing is spoilt exactly when every trampoline keeps its bytes.
  lemma SpoiltNothing(s0: State, t: Table, hs: seq<Hook>)
    requires Apart(s0, t, hs)
    ensures forall i :: 0 <= i < |hs| ==> Attachable(s0, t, hs[i])
    ensures Spoilt(s0, t, hs, |hs|) == s0.code <==> forall i :: 0 <= i < |hs| ==> KeepsItsBytes(s0, t, hs[i])
  {
    hide Apart, Attachable, Taken, Spoilt, KeepsItsBytes, Kept, HasKept;
    AllAttachable(s0, t, hs);
    SpoiltIs(s0, t, hs, |hs|);
    var code := Spoilt(s0, t, hs, |hs|);
    forall i | 0 <= i < |hs| ensures forall a :: Within(a, hs[i].target, Taken(s0, t, hs[i])) ==> a in s0.code && a in code
      ensures KeepsItsBytes(s0, t, hs[i]) <==>
        forall a :: Within(a, hs[i].target, Taken(s0, t, hs[i])) ==> code[a] == s0.code[a]
    {
      KeepsExactly(s0, t, hs[i], code);
    }
    if forall i :: 0 <= i < |hs| ==> KeepsItsBytes(s0, t, hs[i]) {
      SameMap(code, s0.code);
    }
  }

  lemma KeepsExactly(s0: State, t: Table, h: Hook, code: Memory)
    requires Attachable(s0, t, h) && HasKept(s0, t, h, code)
    ensures forall a :: Within(a, h.target, Taken(s0, t, h)) ==> a in s0.code && a in code
    ensures KeepsItsBytes(s0, t, h) <==> forall a :: Within(a, h.target, Taken(s0, t, h)) ==> code[a] == s0.code[a]
  {
    hide Taken, Kept, KeepsItsBytes, Prepare;
    KeptIs(s0, t, h);
    var n, window := Taken(s0, t, h), Read(s0.code, h.target, WINDOW);
    var b := Read(code, h.target, n);
    forall a | Within(a, h.target, n)
      ensures a in s0.code && a in code && code[a] == b[a - h.target] && s0.code[a] == window[a - h.target]
    {
    }
    if forall a :: Within(a, h.target, n) ==> code[a] == s0.code[a] {
      forall k | 0 <= k < n ensures b[k] == window[k] {
        assert Within(h.target + k, h.target, n);
      }
      assert b == window[..n];
    } else {
      var a :| Within(a, h.target, n) && code[a] != s0.code[a];
      assert b[a - h.target] != window[..n][a - h.target];
    }
  }

  // With every hook in place, the code below the hooks may be any other.
  lemma Rebase(s0: State, t: Table, hs: seq<Hook>, code: Memory, s: State, all: set<int>)
    requires Apart(s0, t, hs) && SpoiltUpTo(s0, t, hs, code, |hs|)
    requires Stage(s0, t, hs, s0.code, s, all, all, all) && all == Upto(|hs|)
    ensures Stage(s0, t, hs, code, s, all, all, all) && AllKept(s0, t, hs, code)
  {
    hide Apart, Attachable, Taken, HasKept, PointerStage, SlotStage, ByteStage;
    forall a <- s.code ensures ByteStage(s0, t, hs, code, all, a, s.code[a]) {
      ByteRebased(s0, t, hs, code, all, a, s.code[a]);
    }
  }

  lemma ByteRebased(s0: State, t: Table, hs: seq<Hook>, code: Memory, all: set<int>, a: int, v: Byte)
    requires Apart(s0, t, hs) && SpoiltUpTo(s0, t, hs, code, |hs|) && all == Upto(|hs|) && a in s0.code
    requires ByteStage(s0, t, hs, s0.code, all, a, v)
    ensures ByteStage(s0, t, hs, code, all, a, v)
  {
    hide Apart, Attachable, Taken, HasKept, Patch;
    AllAttachable(s0, t, hs);
    if forall i <- all :: !Within(a, hs[i].target, Taken(s0, t, hs[i])) {
      assert forall i :: 0 <= i < |hs| ==> i in all && !Within(a, hs[i].target, Taken(s0, t, hs[i]));
    }
  }

  // The commit of all the detaches succeeds, and leaves what there was before the hooks, but for
  // the bytes that were spoilt.
  lemma DetachesCommit(s0: State, t: Table, s1: State, thread: int, hs: seq<Hook>, order: seq<int>)
    requires Apart(s0, t, hs) && s0.owner == 0 && s0.pending == [] && Hooked(s0, t, hs, s1)
    requires Indices(order, |hs|) && Distinct(order) && Elements(order) == Upto(|hs|)
    ensures forall i :: 0 <= i < |hs| ==> Attachable(s0, t, hs[i])
    ensures Commit(DetachEach(s1, thread, hs, order, |order|), thread) == (Success, s0.(code := Spoilt(s0, t, hs, |hs|)))
  {
    hide Stage, CodeStage, PointerStage, SlotStage, Apart, SlotsOk, OperationOk, CommitOne, CommitAll, Ops, Latest, Freed, Attachable,
      Spoilt, SpoiltUpTo, AllKept;
    AllAttachable(s0, t, hs);
    SpoiltIs(s0, t, hs, |hs|);
    var s, all, base := DetachEach(s1, thread, hs, order, |order|), Upto(|hs|), Spoilt(s0, t, hs, |hs|);
    var idx := Latest(order, |order|);
    DetachesSucceed(s0, t, s1, thread, hs, order, |order|);
    LatestAll(hs, order);
    FreedOps(hs, idx, false);
    StageOnly(s0, t, hs, s0.code, s1, s, all, all, all);
    Rebase(s0, t, hs, base, s, all);
    RemovesCommit(s0, t, hs, base, s, all, all, all, idx);
    assert all - all == {};
    var last := CommitAll(s, s.pending).0;
    StageParts(s0, t, hs, base, last, {}, all, all);
    CodeBack(s0, t, hs, base, last.code);
    PointersBack(s0, t, hs, last.pointers);
    SlotsBack(s0, t, hs, last.slots, all, all);
  }

  // ---------- The results ----------

  // Attaching all the hooks and committing, then detaching all of them in any order and committing,
  // gives back every pointer and the live trampolines, and of the code all but the spoilt bytes.
  lemma AttachThenDetach(s0: State, t: Table, thread: int, later: int, hs: seq<Hook>, order: seq<int>)
    requires Ready(s0, t, thread, hs)
    requires Indices(order, |hs|) && Distinct(order) && Elements(order) == Upto(|hs|)
    ensures forall i :: 0 <= i < |hs| ==> Attachable(s0, t, hs[i])
    ensures var hooked := Commit(AttachEach(s0, t, thread, hs, |hs|), thread).1;
      Commit(DetachEach(hooked, later, hs, order, |order|), later) == (Success, s0.(code := Spoilt(s0, t, hs, |hs|)))
  {
    hide Stage, Apart, Valid, AttachEach, DetachEach, Begin, Commit, Spoilt, Attachable;
    AttachesCommit(s0, t, thread, hs);
    DetachesCommit(s0, t, Commit(AttachEach(s0, t, thread, hs, |hs|), thread).1, later, hs, order);
  }

  // So everything is as it was exactly when, for every hook, the moved code leaves room for the jump
  // in front of the saved bytes, or the jump happens to hold the bytes that it spoils.
  lemma AttachThenDetachIsIdentity(s0: State, t: Table, thread: int, later: int, hs: seq<Hook>, order: seq<int>)
    requires Ready(s0, t, thread, hs)
    requires Indices(order, |hs|) && Distinct(order) && Elements(order) == Upto(|hs|)
    ensures forall i :: 0 <= i < |hs| ==> Attachable(s0, t, hs[i])
    ensures var hooked := Commit(AttachEach(s0, t, thread, hs, |hs|), thread).1;
      (Commit(DetachEach(hooked, later, hs, order, |order|), later) == (Success, s0)) <==>
      (forall i :: 0 <= i < |hs| ==> KeepsItsBytes(s0, t, hs[i]))
  {
    hide Apart, Valid, AttachEach, DetachEach, Commit, Spoilt, Attachable, KeepsItsBytes;
    AttachThenDetach(s0, t, thread, later, hs, order);
    SpoiltNothing(s0, t, hs);
    assert s0.(code := s0.code) == s0;
  }

  // Up to the commit nothing that a program could see has changed, and aborting frees what the
  // attaches took.
  lemma AbortIsIdentity(s0: State, t: Table, thread: int, hs: seq<Hook>, n: nat)
    requires Ready(s0, t, thread, hs) && n <= |hs|
    ensures var s := AttachEach(s0, t, thread, hs, n); s.code == s0.code && s.pointers == s0.pointers
    ensures Abort(AttachEach(s0, t, thread, hs, n), thread) == (Success, s0)
  {
    hide Stage, CodeStage, PointerStage, SlotStage, Apart, SlotsOk, OperationOk, Ops, Latest, Freed, InOrder;
    var s, idx := AttachEach(s0, t, thread, hs, n), Latest(InOrder(|hs|), n);
    AttachesSucceed(s0, t, thread, hs, n);
    StageParts(s0, t, hs, s0.code, s, {}, {}, Upto(n));
    CodeBack(s0, t, hs, s0.code, s.code);
    PointersBack(s0, t, hs, s.pointers);
    SlotsBack(s0, t, hs, s.slots, {}, Upto(n));
    LatestUpto(|hs|, n);
    FreedOps(hs, idx, true);
  }

  lemma LatestUpto(all: nat, n: nat)
    requires n <= all
    ensures Elements(Latest(InOrder(all), n)) == Upto(n)
  {
    var r := Latest(InOrder(all), n);
    forall k | 0 <= k < n ensures k in r {
      assert r[n - 1 - k] == k;
    }
  }
}
