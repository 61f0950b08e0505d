// How an attach moves the first instructions of a function into a trampoline.
module Prologue {
  import opened CStrings
  import opened JumpEncoding
  import opened Seqs
  import opened X86Relocation

  // The trampoline of 64-bit x86: where its parts are, and how long they are.
  const CODE_SIZE: nat := 30
  const RESTORE_OFFSET: nat := 32
  const RESTORE_SIZE: nat := 30
  const HEAD_SIZE: nat := 62
  const REMAIN_OFFSET: nat := 72
  const DETOUR_OFFSET: nat := 80
  const CODE_IN_OFFSET: nat := 88
  const ALIGN_COUNT: nat := 8

  // detour_does_code_end_function(), for the jumps and returns that it looks for
  predicate EndsFunction(b: seq<Byte>) {
    || (b != [] && (b[0] == 0xEB || b[0] == 0xE9 || b[0] == 0xE0 || b[0] == 0xC2 || b[0] == 0xC3 || b[0] == BRK))
    || (|b| >= 2 && b[0] == 0xF3 && b[1] == 0xC3)
    || (|b| >= 2 && b[0] == 0xFF && b[1] == 0x25)
    || (|b| >= 3 && (b[0] == 0x26 || b[0] == 0x2E || b[0] == 0x36 || b[0] == 0x3E || b[0] == 0x64 || b[0] == 0x65)
        && b[1] == 0xFF && b[2] == 0x25)
  }

  // The instructions that were moved: how many, how many bytes they took, and their copies.
  datatype Moved = Moved(count: nat, taken: nat, bytes: seq<Byte>)

  // The first loop of SlimDetoursAttach(), from so many bytes and instructions on. delta is how far
  // the place in the trampoline lies above the place in the code.
  function MoveFrom(t: Table, code: seq<Byte>, taken: nat, count: nat, delta: int): (m: Option<Moved>)
    requires taken <= |code| && count < ALIGN_COUNT
    ensures m.Some? ==> taken <= m.value.taken <= |code| && count <= m.value.count <= ALIGN_COUNT
    ensures m.Some? && taken < SIZE_OF_JMP ==> count < m.value.count
    decreases |code| - taken
  {
    if taken >= SIZE_OF_JMP then Some(Moved(count, taken, []))
    else match CopyInstruction(t, code[taken..], delta)
      case None => None
      case Some(c) =>
        if count + 1 >= ALIGN_COUNT || EndsFunction(code[taken..]) then Some(Moved(count + 1, taken + c.length, c.bytes))
        else match MoveFrom(t, code, taken + c.length, count + 1, delta + |c.bytes| - c.length)
          case None => None
          case Some(m) => Some(Moved(m.count, m.taken, c.bytes + m.bytes))
  }

  // Where an instruction ends, in the function and in the trampoline.
  datatype End = End(target: nat, trampoline: nat)

  // The ends of all the instructions that the loop moves.
  function EndsFrom(t: Table, code: seq<Byte>, taken: nat, count: nat, delta: int, moved: nat): (es: seq<End>)
    requires taken <= |code| && count < ALIGN_COUNT
    ensures |es| <= ALIGN_COUNT - count
    decreases |code| - taken
  {
    if taken >= SIZE_OF_JMP then []
    else match CopyInstruction(t, code[taken..], delta)
      case None => []
      case Some(c) =>
        var e := End(taken + c.length, moved + |c.bytes|);
        if count + 1 >= ALIGN_COUNT || EndsFunction(code[taken..]) then [e]
        else [e] + EndsFrom(t, code, taken + c.length, count + 1, delta + |c.bytes| - c.length, moved + |c.bytes|)
  }

  // An entry of rAlign: three bits for the one, five for the other.
  datatype Align = Align(obTarget: nat, obTrampoline: nat)

  const NO_ALIGN := Align(0, 0)

  function Packed(e: End): Align {
    Align(e.target % 8, e.trampoline % 32)
  }

  function AlignTable(es: seq<End>): (b: seq<Align>)
    ensures |b| == ALIGN_COUNT
  {
    seq(ALIGN_COUNT, i requires 0 <= i < ALIGN_COUNT => if i < |es| then Packed(es[i]) else NO_ALIGN)
  }

  // detour_is_code_filler()
  function FillerSize(b: seq<Byte>): (n: nat)
    ensures n <= |b|
  {
    if |b| >= 1 && b[0] == 0x90 then 1
    else if |b| >= 2 && b[0] == 0x66 && b[1] == 0x90 then 2
    else if |b| >= 3 && b[0] == 0x0F && b[1] == 0x1F && b[2] == 0x00 then 3
    else if |b| >= 4 && b[0] == 0x0F && b[1] == 0x1F && b[2] == 0x40 && b[3] == 0x00 then 4
    else if |b| >= 5 && b[0] == 0x0F && b[1] == 0x1F && b[2] == 0x44 && b[3] == 0x00 && b[4] == 0x00 then 5
    else if |b| >= 6 && b[0] == 0x66 && b[1] == 0x0F && b[2] == 0x1F && b[3] == 0x44 && b[4] == 0x00
            && b[5] == 0x00 then 6
    else if |b| >= 7 && b[0] == 0x0F && b[1] == 0x1F && b[2] == 0x80 && b[3] == 0x00 && b[4] == 0x00 && b[5] == 0x00
            && b[6] == 0x00 then 7
    else if |b| >= 8 && b[0] == 0x0F && b[1] == 0x1F && b[2] == 0x84 && b[3] == 0x00 && b[4] == 0x00 && b[5] == 0x00
            && b[6] == 0x00 && b[7] == 0x00 then 8
    else if |b| >= 9 && b[0] == 0x66 && b[1] == 0x0F && b[2] == 0x1F && b[3] == 0x84 && b[4] == 0x00 && b[5] == 0x00
            && b[6] == 0x00 && b[7] == 0x00 && b[8] == 0x00 then 9
    else if |b| >= 10 && b[0] == 0x66 && b[1] == 0x66 && b[2] == 0x0F && b[3] == 0x1F && b[4] == 0x84 && b[5] == 0x00
            && b[6] == 0x00 && b[7] == 0x00 && b[8] == 0x00 && b[9] == 0x00 then 10
    else if |b| >= 11 && b[0] == 0x66 && b[1] == 0x66 && b[2] == 0x66 && b[3] == 0x0F && b[4] == 0x1F && b[5] == 0x84
            && b[6] == 0x00 && b[7] == 0x00 && b[8] == 0x00 && b[9] == 0x00 && b[10] == 0x00 then 11
    else if |b| >= 1 && b[0] == BRK then 1
    else 0
  }

  // The second loop: padding is taken, but not copied.
  function WithFiller(code: seq<Byte>, taken: nat): (r: nat)
    requires taken <= |code|
    ensures taken <= r <= |code|
    decreases |code| - taken
  {
    if taken >= SIZE_OF_JMP || FillerSize(code[taken..]) == 0 then taken
    else WithFiller(code, taken + FillerSize(code[taken..]))
  }

  // Trapped is no status: the process stops at a debug break.
  datatype Status = Success | NoMemory | InvalidParameter | InvalidBlockLength | InvalidHandle | Conflict | Trapped

  // The prologue as it is moved to the trampoline, or the status that the attach fails with.
  datatype Prepared = Failed(status: Status) | Prepared(moved: Moved, taken: nat)

  function Prepare(t: Table, code: seq<Byte>, target: int, trampoline: int): (p: Option<Prepared>)
    ensures p.Some? && p.value.Prepared? ==>
      SIZE_OF_JMP <= p.value.taken <= CODE_SIZE - SIZE_OF_JMP && p.value.taken <= |code| && |p.value.moved.bytes| <= CODE_SIZE
  {
    match MoveFrom(t, code, 0, 0, trampoline - target)
    case None => None
    case Some(m) =>
      var taken := WithFiller(code, m.taken);
      if taken < SIZE_OF_JMP then Some(Failed(InvalidBlockLength))
      else if |m.bytes| > CODE_SIZE then Some(Failed(Trapped))
      else if taken > CODE_SIZE - SIZE_OF_JMP then Some(Failed(InvalidHandle))
      else Some(Prepared(m, taken))
  }

  // ---------- Running the moved prologue ----------

  // After an instruction control goes on behind it, or to a place that is not relative to it.
  datatype Flow<+S> = Onward(state: S) | Leave(to: int, state: S)

  // Where a run ends: at an instruction that is none, at a place it jumped to, or behind the last.
  datatype Outcome<+S> = Stuck | Left(to: int, state: S) | Through(to: int, state: S)

  // The processor on so many instructions from the front of these bytes. What an instruction does
  // may depend on what it says, and on nothing else about the place where it stands.
  function Run<S>(t: Table, b: seq<Byte>, address: int, count: nat, exec: (Meaning, S) -> Flow<S>, s: S): Outcome<S>
    decreases count
  {
    if count == 0 then Through(address, s)
    else match MeaningOf(t, b, address)
      case None => Stuck
      case Some(m) =>
        match exec(m, s)
        case Leave(to, next) => Left(to, next)
        case Onward(next) =>
          var n := LengthOf(t, b);
          Run(t, b[if n <= |b| then n else |b|..], address + n, count - 1, exec, next)
  }

  // Every displacement that is adjusted on the way fits in its four bytes.
  ghost predicate FirstInReach(t: Table, src: seq<Byte>, address: int, delta: int) {
    var c, m := CopyInstruction(t, src, delta), MeaningOf(t, src, address);
    c.Some? && m.Some? ==> InReach(m.value, address + delta + |c.value.bytes|)
  }

  ghost predicate AllInReach(t: Table, code: seq<Byte>, taken: nat, count: nat, target: int, delta: int)
    requires taken <= |code| && count < ALIGN_COUNT
    decreases |code| - taken
  {
    taken >= SIZE_OF_JMP || CopyInstruction(t, code[taken..], delta).None? ||
    var c := CopyInstruction(t, code[taken..], delta).value;
    && FirstInReach(t, code[taken..], target + taken, delta)
    && (count + 1 >= ALIGN_COUNT || EndsFunction(code[taken..]) ||
        AllInReach(t, code, taken + c.length, count + 1, target, delta + |c.bytes| - c.length))
  }

  // The same end, but for the place behind the last instruction.
  function Moving<S>(o: Outcome<S>, to: int): Outcome<S> {
    if o.Through? then Through(to, o.state) else o
  }

  // One instruction and its copy do the same, and go on behind themselves.
  lemma OneRuns<S>(t: Table, src: seq<Byte>, address: int, delta: int, rest: seq<Byte>, count: nat,
                   exec: (Meaning, S) -> Flow<S>, s: S)
    requires KnowsJumps(t) && CopyInstruction(t, src, delta).Some? && count > 0
    requires FirstInReach(t, src, address, delta)
    ensures var c := CopyInstruction(t, src, delta).value;
      && MeaningOf(t, src, address).Some?
      && var flow := exec(MeaningOf(t, src, address).value, s);
      && Run(t, c.bytes + rest, address + delta, count, exec, s)
         == (match flow case Leave(to, next) => Left(to, next)
             case Onward(next) => Run(t, rest, address + delta + |c.bytes|, count - 1, exec, next))
      && Run(t, src, address, count, exec, s)
         == (match flow case Leave(to, next) => Left(to, next)
             case Onward(next) => Run(t, src[c.length..], address + c.length, count - 1, exec, next))
  {
    hide CopyInstruction, MeaningOf, LengthOf, KnowsJumps;
    var c := CopyInstruction(t, src, delta).value;
    CopyKeepsMeaning(t, src, address, delta);
    CopyIsInstruction(t, src, delta);
    LengthIs(t, src, delta);
    MeaningStays(t, c.bytes, rest, address + delta);
    Parts(c.bytes, rest);
  }

  lemma RunNothing<S>(t: Table, exec: (Meaning, S) -> Flow<S>, s: S)
    ensures forall b, address {:trigger Run(t, b, address, 0, exec, s)} :: Run(t, b, address, 0, exec, s) == Through(address, s)
  {
  }

  lemma {:induction false} MovedRuns<S>(t: Table, code: seq<Byte>, taken: nat, count: nat, target: int, delta: int,
                                        rest: seq<Byte>, exec: (Meaning, S) -> Flow<S>, s: S)
    requires KnowsJumps(t) && taken <= |code| && count < ALIGN_COUNT
    requires MoveFrom(t, code, taken, count, delta).Some? && AllInReach(t, code, taken, count, target, delta)
    ensures var m := MoveFrom(t, code, taken, count, delta).value;
      && m.count >= count
      && var original := Run(t, code[taken..], target + taken, m.count - count, exec, s);
      && Run(t, m.bytes + rest, target + taken + delta, m.count - count, exec, s)
         == Moving(original, target + taken + delta + |m.bytes|)
      && (original.Through? ==> original.to == target + m.taken)
    decreases |code| - taken
  {
    hide CopyInstruction, MeaningOf, KnowsJumps, FirstInReach, EndsFunction, Run;
    RunNothing(t, exec, s);
    if taken < SIZE_OF_JMP {
      var m, here := MoveFrom(t, code, taken, count, delta).value, target + taken;
      var c := CopyInstruction(t, code[taken..], delta).value;
      DropDrop(code, taken, c.length);
      if count + 1 >= ALIGN_COUNT || EndsFunction(code[taken..]) {
        OneRuns(t, code[taken..], here, delta, rest, 1, exec, s);
        var flow := exec(MeaningOf(t, code[taken..], here).value, s);
        if flow.Onward? {
          RunNothing(t, exec, flow.state);
        }
      } else {
        var more := MoveFrom(t, code, taken + c.length, count + 1, delta + |c.bytes| - c.length).value;
        OneRuns(t, code[taken..], here, delta, more.bytes + rest, m.count - count, exec, s);
        Assoc(c.bytes, more.bytes, rest);
        var flow := exec(MeaningOf(t, code[taken..], here).value, s);
        if flow.Onward? {
          MovedRuns(t, code, taken + c.length, count + 1, target, delta + |c.bytes| - c.length, rest, exec, flow.state);
        }
      }
    }
  }

  // What SlimDetoursAttach() puts into rbCode: the copies, and the jump to where they were taken from.
  function TrampolineCode(m: Moved, trampoline: int): seq<Byte> {
    m.bytes + JmpIndirect(trampoline + |m.bytes|, trampoline + REMAIN_OFFSET)
  }

  // The record from rbCode to the end of rbRestore, with one byte between for cbCode and one that is
  // never used. The jump is written behind the moved code last of all, over whatever is there.
  function HeadByte(moved: seq<Byte>, restore: seq<Byte>, jmp: seq<Byte>, i: nat): Byte
    requires |moved| <= CODE_SIZE
  {
    if i < |moved| then moved[i]
    else if i < |moved| + |jmp| then jmp[i - |moved|]
    else if i == CODE_SIZE then |moved|
    else if RESTORE_OFFSET <= i < RESTORE_OFFSET + |restore| then restore[i - RESTORE_OFFSET]
    else BRK
  }

  function Head(moved: seq<Byte>, restore: seq<Byte>, trampoline: int): (b: seq<Byte>)
    requires |moved| <= CODE_SIZE
    ensures |b| == HEAD_SIZE
  {
    var jmp := JmpIndirect(trampoline + |moved|, trampoline + REMAIN_OFFSET);
    seq(HEAD_SIZE, i requires 0 <= i < HEAD_SIZE => HeadByte(moved, restore, jmp, i))
  }

  // The bytes of the jump that fall on rbRestore. They are the same for every trampoline.
  function Spilled(moved: nat): (b: seq<Byte>)
    requires moved <= CODE_SIZE
    ensures |b| == if moved <= RESTORE_OFFSET - 6 then 0 else moved - (RESTORE_OFFSET - 6)
  {
    if moved <= RESTORE_OFFSET - 6 then [] else JmpIndirect(moved, REMAIN_OFFSET)[RESTORE_OFFSET - moved..]
  }

  // What was taken from the function survives the jump.
  predicate Intact(moved: nat, code: seq<Byte>)
    requires moved <= CODE_SIZE
  {
    Spilled(moved) <= code
  }

  lemma SpilledIs(moved: nat)
    requires moved <= CODE_SIZE
    ensures Spilled(moved) ==
      if moved <= 26 then [] else if moved == 27 then [0] else if moved == 28 then [0, 0]
      else if moved == 29 then [0, 0, 0] else [36, 0, 0, 0]
  {
    var d: int := REMAIN_OFFSET - (moved + 6);
    if moved > 26 {
      assert Bytes32(d) == [d, 0, 0, 0];
      assert JmpIndirect(moved, REMAIN_OFFSET) == [0xFF, 0x25, d, 0, 0, 0];
    }
  }

  // The code at the front of the record is what is executed, wherever its jump ends.
  lemma HeadRuns(m: Moved, restore: seq<Byte>, trampoline: int)
    requires |m.bytes| <= CODE_SIZE
    ensures var b := Head(m.bytes, restore, trampoline); var n := |m.bytes| + 6;
      b == TrampolineCode(m, trampoline) + b[n..]
  {
    hide Bytes32;
  }

  // Putting rbRestore back gives what was taken, or else the front of it spoilt by the jump.
  lemma HeadRestores(moved: seq<Byte>, code: seq<Byte>, taken: nat, trampoline: int)
    requires |moved| <= CODE_SIZE && SIZE_OF_JMP <= taken <= RESTORE_SIZE && taken <= |code|
    ensures var b := Head(moved, code[..taken], trampoline)[RESTORE_OFFSET..RESTORE_OFFSET + taken];
      && b == Spilled(|moved|) + code[|Spilled(|moved|)|..taken]
      && (b == code[..taken] <==> Intact(|moved|, code))
  {
    hide Bytes32;
    var n, d := |Spilled(|moved|)|, REMAIN_OFFSET - (|moved| + 6);
    var b := Head(moved, code[..taken], trampoline)[RESTORE_OFFSET..RESTORE_OFFSET + taken];
    var jmp := JmpIndirect(trampoline + |moved|, trampoline + REMAIN_OFFSET);
    assert jmp == JmpIndirect(|moved|, REMAIN_OFFSET);
    assert b == Spilled(|moved|) + code[n..taken];
    assert b[..n] == Spilled(|moved|) && b[n..] == code[..taken][n..];
    assert code[..n] == code[..taken][..n];
    if Intact(|moved|, code) {
      assert Spilled(|moved|) == code[..n];
      assert b == code[..n] + code[n..taken];
    }
  }

  // ---------- The loops that fill it in ----------

  method CopyTo(b: array<Byte>, at: nat, w: seq<Byte>)
    requires at + |w| <= b.Length
    modifies b
    ensures forall i :: 0 <= i < b.Length ==> b[i] == if at <= i < at + |w| then w[i - at] else old(b[i])
  {
    for k := 0 to |w|
      invariant forall i :: 0 <= i < b.Length ==> b[i] == if at <= i < at + k then w[i - at] else old(b[i])
    {
      b[at + k] := w[k];
    }
  }

  // SlimDetoursAttach() behind its loops, in a record that the allocator filled with breaks.
  method LayOut(b: array<Byte>, moved: seq<Byte>, restore: seq<Byte>, trampoline: int)
    requires b.Length == HEAD_SIZE && b[..] == Brk(HEAD_SIZE) && |moved| <= CODE_SIZE && |restore| <= RESTORE_SIZE
    modifies b
    ensures b[..] == Head(moved, restore, trampoline)
  {
    hide JmpIndirect;
    CopyTo(b, 0, moved);
    b[CODE_SIZE] := |moved|;
    CopyTo(b, RESTORE_OFFSET, restore);
    var jmp := JmpIndirect(trampoline + |moved|, trampoline + REMAIN_OFFSET);
    CopyTo(b, |moved|, jmp);
    var at := |moved| + 6;
    while at < CODE_SIZE
      invariant |moved| + 6 <= at
      invariant forall i :: 0 <= i < HEAD_SIZE ==> b[i] == HeadByte(moved, restore, jmp, i)
    {
      b[at] := BRK;
      at := at + 1;
    }
  }

  // The code at this place goes where pbRemain of the trampoline says.
  predicate JumpsToRemain(code: seq<Byte>, at: nat, trampoline: int) {
    && at + 6 <= |code| && code[at] == 0xFF && code[at + 1] == 0x25
    && JmpVector(code[at..], trampoline + at) == trampoline + REMAIN_OFFSET
  }

  // Running the trampoline's code and then the jump through pbRemain.
  function RunTrampoline<S>(t: Table, code: seq<Byte>, trampoline: int, m: Moved, remain: int,
                            exec: (Meaning, S) -> Flow<S>, s: S): Outcome<S>
  {
    var o := Run(t, code, trampoline, m.count, exec, s);
    if !o.Through? then o
    else if o.to == trampoline + |m.bytes| && JumpsToRemain(code, |m.bytes|, trampoline) then Through(remain, o.state)
    else Stuck
  }

  lemma JumpIsThere(m: Moved, trampoline: int, rest: seq<Byte>)
    requires |m.bytes| <= CODE_SIZE
    ensures JumpsToRemain(TrampolineCode(m, trampoline) + rest, |m.bytes|, trampoline)
    ensures TrampolineCode(m, trampoline) + rest
         == m.bytes + (JmpIndirect(trampoline + |m.bytes|, trampoline + REMAIN_OFFSET) + rest)
  {
    var jmp := JmpIndirect(trampoline + |m.bytes|, trampoline + REMAIN_OFFSET);
    Assoc(m.bytes, jmp, rest);
    Parts(m.bytes, jmp + rest);
    JmpIndirectIs(trampoline + |m.bytes|, trampoline + REMAIN_OFFSET, 0);
    assert (jmp + rest)[2..6] == jmp[2..6];
  }

  lemma PreparedMoved(t: Table, code: seq<Byte>, target: int, trampoline: int)
    requires Prepare(t, code, target, trampoline).Some? && Prepare(t, code, target, trampoline).value.Prepared?
    ensures MoveFrom(t, code, 0, 0, trampoline - target) == Some(Prepare(t, code, target, trampoline).value.moved)
  {
  }

  // Executing rbCode has the effect of executing the moved instructions where they were and going
  // on behind them, for whatever the instructions do. Padding that was taken with them is not
  // executed; none is when the last instruction may be passed.
  lemma TrampolineKeepsMeaning<S>(t: Table, code: seq<Byte>, target: int, trampoline: int, rest: seq<Byte>,
                                  exec: (Meaning, S) -> Flow<S>, s: S)
    requires KnowsJumps(t) && Prepare(t, code, target, trampoline).Some? && Prepare(t, code, target, trampoline).value.Prepared?
    requires AllInReach(t, code, 0, 0, target, trampoline - target)
    ensures var p := Prepare(t, code, target, trampoline).value;
      var original := Run(t, code, target, p.moved.count, exec, s);
      && RunTrampoline(t, TrampolineCode(p.moved, trampoline) + rest, trampoline, p.moved, target + p.taken, exec, s)
         == Moving(original, target + p.taken)
      && (p.moved.taken == p.taken ==> Moving(original, target + p.taken) == original)
  {
    hide Run, MoveFrom, AllInReach, KnowsJumps, Prepare, TrampolineCode, JumpsToRemain;
    var p := Prepare(t, code, target, trampoline).value;
    PreparedMoved(t, code, target, trampoline);
    Whole(code);
    JumpIsThere(p.moved, trampoline, rest);
    MovedRuns(t, code, 0, 0, target, trampoline - target,
      JmpIndirect(trampoline + |p.moved.bytes|, trampoline + REMAIN_OFFSET) + rest, exec, s);
  }

  // ---------- The loops ----------

  lemma MoveTurn(t: Table, code: seq<Byte>, taken: nat, count: nat, delta: int)
    requires taken <= |code| && count < ALIGN_COUNT && taken < SIZE_OF_JMP
    ensures MoveFrom(t, code, taken, count, delta) ==
      match CopyInstruction(t, code[taken..], delta)
      case None => None
      case Some(c) => MovedSoFar(c.bytes, MoveOn(t, code, taken, count, delta, c))
  {
    hide CopyInstruction, EndsFunction;
    var c := CopyInstruction(t, code[taken..], delta);
    if c.Some? {
      assert c.value.bytes + [] == c.value.bytes;
    }
  }

  // What the loop still does after one instruction.
  ghost function MoveOn(t: Table, code: seq<Byte>, taken: nat, count: nat, delta: int, c: Copied): Option<Moved>
    requires taken + c.length <= |code| && count < ALIGN_COUNT
  {
    if count + 1 >= ALIGN_COUNT || EndsFunction(code[taken..]) then Some(Moved(count + 1, taken + c.length, []))
    else MoveFrom(t, code, taken + c.length, count + 1, delta + |c.bytes| - c.length)
  }

  lemma EndsTurn(t: Table, code: seq<Byte>, taken: nat, count: nat, delta: int, moved: nat)
    requires taken <= |code| && count < ALIGN_COUNT && taken < SIZE_OF_JMP
    ensures EndsFrom(t, code, taken, count, delta, moved) ==
      match CopyInstruction(t, code[taken..], delta)
      case None => []
      case Some(c) =>
        [End(taken + c.length, moved + |c.bytes|)] +
          if count + 1 >= ALIGN_COUNT || EndsFunction(code[taken..]) then []
          else EndsFrom(t, code, taken + c.length, count + 1, delta + |c.bytes| - c.length, moved + |c.bytes|)
  {
    hide CopyInstruction, EndsFunction;
    var c := CopyInstruction(t, code[taken..], delta);
    if c.Some? {
      var e := End(taken + c.value.length, moved + |c.value.bytes|);
      assert [e] + [] == [e];
    }
  }

  // What the loop has still to do, for the code and for rAlign.
  ghost predicate Goes(t: Table, code: seq<Byte>, delta: int, taken: nat, count: nat, bytes: seq<Byte>, ends: seq<End>, done: bool)
    requires taken <= |code| && (!done ==> count < ALIGN_COUNT)
  {
    && MoveFrom(t, code, 0, 0, delta)
       == MovedSoFar(bytes, if done then Some(Moved(count, taken, [])) else MoveFrom(t, code, taken, count, delta + |bytes| - taken))
    && EndsFrom(t, code, 0, 0, delta, 0)
       == ends + if done then [] else EndsFrom(t, code, taken, count, delta + |bytes| - taken, |bytes|)
  }

  lemma GoesFirst(t: Table, code: seq<Byte>, delta: int)
    ensures Goes(t, code, delta, 0, 0, [], [], false)
  {
    NothingMoved(MoveFrom(t, code, 0, 0, delta));
    assert [] + EndsFrom(t, code, 0, 0, delta, 0) == EndsFrom(t, code, 0, 0, delta, 0);
  }

  lemma GoesOn(t: Table, code: seq<Byte>, delta: int, taken: nat, count: nat, bytes: seq<Byte>, ends: seq<End>, c: Copied)
    requires taken <= |code| && taken < SIZE_OF_JMP && count < ALIGN_COUNT && Goes(t, code, delta, taken, count, bytes, ends, false)
    requires CopyInstruction(t, code[taken..], delta + |bytes| - taken) == Some(c)
    ensures Goes(t, code, delta, taken + c.length, count + 1, bytes + c.bytes,
      ends + [End(taken + c.length, |bytes| + |c.bytes|)], count + 1 >= ALIGN_COUNT || EndsFunction(code[taken..]))
  {
    hide CopyInstruction, EndsFunction, MoveFrom, EndsFrom;
    var d := delta + |bytes| - taken;
    MoveTurn(t, code, taken, count, d);
    EndsTurn(t, code, taken, count, d, |bytes|);
    MovedTwice(bytes, c.bytes, MoveOn(t, code, taken, count, d, c));
    var rest := if count + 1 >= ALIGN_COUNT || EndsFunction(code[taken..]) then []
      else EndsFrom(t, code, taken + c.length, count + 1, d + |c.bytes| - c.length, |bytes| + |c.bytes|);
    Assoc(ends, [End(taken + c.length, |bytes| + |c.bytes|)], rest);
  }

  lemma GoesNowhere(t: Table, code: seq<Byte>, delta: int, taken: nat, count: nat, bytes: seq<Byte>, ends: seq<End>)
    requires taken <= |code| && taken < SIZE_OF_JMP && count < ALIGN_COUNT && Goes(t, code, delta, taken, count, bytes, ends, false)
    requires CopyInstruction(t, code[taken..], delta + |bytes| - taken) == None
    ensures MoveFrom(t, code, 0, 0, delta) == None && EndsFrom(t, code, 0, 0, delta, 0) == ends
  {
    hide CopyInstruction, EndsFunction;
    assert ends + [] == ends;
  }

  lemma GoesNoFurther(t: Table, code: seq<Byte>, delta: int, taken: nat, count: nat, bytes: seq<Byte>, ends: seq<End>, done: bool)
    requires taken <= |code| && (!done ==> count < ALIGN_COUNT) && (done || taken >= SIZE_OF_JMP)
    requires Goes(t, code, delta, taken, count, bytes, ends, done)
    ensures MoveFrom(t, code, 0, 0, delta) == Some(Moved(count, taken, bytes)) && EndsFrom(t, code, 0, 0, delta, 0) == ends
  {
    hide CopyInstruction, EndsFunction;
    assert ends + [] == ends && bytes + [] == bytes;
  }

  // The loop of SlimDetoursAttach() that copies instructions, and notes in rAlign where they end.
  method CopyLoop(t: Table, code: seq<Byte>, delta: int, align: array<Align>) returns (m: Option<Moved>)
    requires align.Length == ALIGN_COUNT && align[..] == AlignTable([])
    modifies align
    ensures m == MoveFrom(t, code, 0, 0, delta)
    ensures align[..] == AlignTable(EndsFrom(t, code, 0, 0, delta, 0))
  {
    hide CopyInstruction, EndsFunction, MoveFrom, EndsFrom, Goes;
    var taken, count, bytes: seq<Byte> := 0, 0, [];
    ghost var ends: seq<End> := [];
    var done := false;
    GoesFirst(t, code, delta);
    while taken < SIZE_OF_JMP && !done
      invariant 0 <= taken <= |code| && 0 <= count <= ALIGN_COUNT && (!done ==> count < ALIGN_COUNT)
      invariant Goes(t, code, delta, taken, count, bytes, ends, done)
      invariant |ends| == count && align[..] == AlignTable(ends)
      decreases !done, |code| - taken
    {
      var c := CopyInstruction(t, code[taken..], delta + |bytes| - taken);
      if c == None {
        GoesNowhere(t, code, delta, taken, count, bytes, ends);
        return None;
      }
      GoesOn(t, code, delta, taken, count, bytes, ends, c.value);
      done := count + 1 >= ALIGN_COUNT || EndsFunction(code[taken..]);
      taken, bytes := taken + c.value.length, bytes + c.value.bytes;
      align[count] := Align(taken % 8, |bytes| % 32);
      ends := ends + [End(taken, |bytes|)];
      count := count + 1;
    }
    GoesNoFurther(t, code, delta, taken, count, bytes, ends, done);
    return Some(Moved(count, taken, bytes));
  }

  // Both loops, and the checks behind them.
  method MoveInstructions(t: Table, code: seq<Byte>, target: int, trampoline: int, align: array<Align>) returns (p: Option<Prepared>)
    requires align.Length == ALIGN_COUNT && align[..] == AlignTable([])
    modifies align
    ensures p == Prepare(t, code, target, trampoline)
    ensures align[..] == AlignTable(EndsFrom(t, code, 0, 0, trampoline - target, 0))
  {
    hide MoveFrom, FillerSize, EndsFrom;
    var m := CopyLoop(t, code, trampoline - target, align);
    if m == None {
      return None;
    }
    var taken := m.value.taken;
    while taken < SIZE_OF_JMP && FillerSize(code[taken..]) != 0
      invariant 0 <= taken <= |code| && WithFiller(code, m.value.taken) == WithFiller(code, taken)
      decreases |code| - taken
    {
      taken := taken + FillerSize(code[taken..]);
    }
    if taken < SIZE_OF_JMP {
      return Some(Failed(InvalidBlockLength));
    }
    if |m.value.bytes| > CODE_SIZE {
      return Some(Failed(Trapped));
    }
    if taken > CODE_SIZE - SIZE_OF_JMP {
      return Some(Failed(InvalidHandle));
    }
    return Some(Prepared(m.value, taken));
  }

  ghost function MovedSoFar(bytes: seq<Byte>, more: Option<Moved>): Option<Moved> {
    if more.Some? then Some(more.value.(bytes := bytes + more.value.bytes)) else None
  }

  lemma NothingMoved(more: Option<Moved>)
    ensures MovedSoFar([], more) == more
  {
    if more.Some? {
      assert [] + more.value.bytes == more.value.bytes;
    }
  }

  lemma MovedTwice(a: seq<Byte>, b: seq<Byte>, more: Option<Moved>)
    ensures MovedSoFar(a, MovedSoFar(b, more)) == MovedSoFar(a + b, more)
  {
    if more.Some? {
      Assoc(a, b, more.value.bytes);
    }
  }
}
