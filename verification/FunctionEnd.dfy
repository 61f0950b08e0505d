// Which instructions an attach moves and which padding it takes along, told from the bytes.
module FunctionEnd {
  import opened CStrings
  import opened JumpEncoding
  import opened Prologue
  import opened Seqs
  import opened Transaction
  import opened X86Relocation

  // Behind these a function may end: ret, rep ret and ret with a number; the jumps by 8 and by 32 bits;
  // the jump through memory, with any segment prefix; the break. 0xE0, which the code has down as
  // "jmp eax", is the opcode of loopne.
  const ENDINGS: seq<seq<Byte>> := [
    [0xC3], [0xF3, 0xC3], [0xC2], [0xEB], [0xE9], [0xFF, 0x25], [0x26, 0xFF, 0x25], [0x2E, 0xFF, 0x25],
    [0x36, 0xFF, 0x25], [0x3E, 0xFF, 0x25], [0x64, 0xFF, 0x25], [0x65, 0xFF, 0x25], [0xCC], [0xE0]]

  // The nops of one to eleven bytes, and the break.
  const PADDINGS: seq<seq<Byte>> := [
    [0x90], [0x66, 0x90], [0x0F, 0x1F, 0x00], [0x0F, 0x1F, 0x40, 0x00], [0x0F, 0x1F, 0x44, 0x00, 0x00],
    [0x66, 0x0F, 0x1F, 0x44, 0x00, 0x00], [0x0F, 0x1F, 0x80, 0x00, 0x00, 0x00, 0x00],
    [0x0F, 0x1F, 0x84, 0x00, 0x00, 0x00, 0x00, 0x00], [0x66, 0x0F, 0x1F, 0x84, 0x00, 0x00, 0x00, 0x00, 0x00],
    [0x66, 0x66, 0x0F, 0x1F, 0x84, 0x00, 0x00, 0x00, 0x00, 0x00],
    [0x66, 0x66, 0x66, 0x0F, 0x1F, 0x84, 0x00, 0x00, 0x00, 0x00, 0x00], [0xCC]]

  // One of these stands in front.
  ghost predicate OneOf(words: seq<seq<Byte>>, b: seq<Byte>) {
    exists i :: 0 <= i < |words| && words[i] <= b
  }

  lemma EndsAre(b: seq<Byte>)
    ensures EndsFunction(b) <==> OneOf(ENDINGS, b)
  {
    if EndsFunction(b) {
      var i := if b[0] == 0xC3 then 0 else if b[0] == 0xF3 then 1 else if b[0] == 0xC2 then 2 else if b[0] == 0xEB then 3
        else if b[0] == 0xE9 then 4 else if b[0] == 0xFF then 5 else if b[0] == 0x26 then 6 else if b[0] == 0x2E then 7
        else if b[0] == 0x36 then 8 else if b[0] == 0x3E then 9 else if b[0] == 0x64 then 10 else if b[0] == 0x65 then 11
        else if b[0] == 0xCC then 12 else 13;
      assert ENDINGS[i] <= b;
    }
  }

  lemma FillersAre(b: seq<Byte>, i: nat)
    requires i < |PADDINGS| && PADDINGS[i] <= b
    ensures FillerSize(b) == |PADDINGS[i]|
  {
    var w := PADDINGS[i];
    assert b[..|w|] == w && forall k :: 0 <= k < |w| ==> b[k] == w[k];
    assert |w| == if i == 11 then 1 else i + 1;
  }

  lemma FillerIs(b: seq<Byte>) returns (i: nat)
    requires FillerSize(b) > 0
    ensures i < |PADDINGS| && PADDINGS[i] <= b && FillerSize(b) == |PADDINGS[i]|
  {
    var n := FillerSize(b);
    i := if b[0] == 0xCC then 11 else n - 1;
  }

  // An instruction begins in front of byte 5, and what follows it is the next one, or end.
  ghost predicate Follows(t: Table, code: seq<Byte>, starts: seq<nat>, i: nat, end: nat)
    requires i < |starts|
  {
    && starts[i] < 5 && starts[i] < |code|
    && starts[i] + LengthOf(t, code[starts[i]..]) == if i + 1 < |starts| then starts[i + 1] else end
  }

  // The function may end behind this one.
  ghost predicate Last(code: seq<Byte>, start: nat) {
    start <= |code| && OneOf(ENDINGS, code[start..])
  }

  // Instructions at these places follow each other up to end. Behind none but the last the function may
  // end, and behind the last one it may, or that one reaches byte 5.
  ghost predicate Movable(t: Table, code: seq<Byte>, from: nat, starts: seq<nat>, end: nat) {
    && starts != [] && starts[0] == from && end <= |code|
    && (forall i :: 0 <= i < |starts| ==> Follows(t, code, starts, i, end))
    && (forall i :: 0 <= i < |starts| - 1 ==> !Last(code, starts[i]))
    && (end >= 5 || Last(code, starts[|starts| - 1]))
  }

  // Padding from here to there, begun in front of byte 5.
  ghost predicate Padding(code: seq<Byte>, from: nat, to: nat)
    requires from <= |code|
    decreases |code| - from
  {
    from == to || (from < 5 && exists i :: 0 <= i < |PADDINGS| && PaddedBy(code, from, PADDINGS[i], to))
  }

  ghost predicate PaddedBy(code: seq<Byte>, from: nat, word: seq<Byte>, to: nat)
    requires from <= |code|
    decreases |code| - from, 0
  {
    word != [] && word <= code[from..] && Padding(code, from + |word|, to)
  }

  // ---------- The two loops ----------

  lemma {:induction false} MovedAre(t: Table, code: seq<Byte>, taken: nat, count: nat, delta: int) returns (starts: seq<nat>)
    requires taken <= |code| && taken < 5 && count <= taken && MoveFrom(t, code, taken, count, delta).Some?
    ensures var m := MoveFrom(t, code, taken, count, delta).value;
      Movable(t, code, taken, starts, m.taken) && m.count == count + |starts|
    decreases |code| - taken
  {
    hide CopyInstruction, LengthOf, EndsFunction, OneOf;
    var c := CopyInstruction(t, code[taken..], delta).value;
    LengthIs(t, code[taken..], delta);
    EndsAre(code[taken..]);
    starts := [taken];
    if taken + c.length < 5 && !EndsFunction(code[taken..]) {
      var more := MovedAre(t, code, taken + c.length, count + 1, delta + |c.bytes| - c.length);
      starts := [taken] + more;
      PutBefore(t, code, taken, starts, MoveFrom(t, code, taken, count, delta).value.taken);
    }
  }

  lemma PutBefore(t: Table, code: seq<Byte>, from: nat, a: seq<nat>, end: nat)
    requires |a| > 1 && a[0] == from && Movable(t, code, a[1], a[1..], end)
    requires from < 5 && from < |code| && from + LengthOf(t, code[from..]) == a[1] && !Last(code, from)
    ensures Movable(t, code, from, a, end)
  {
    hide Last, LengthOf;
    var rest := a[1..];
    forall i | 0 <= i < |a| ensures Follows(t, code, a, i, end) && (i < |a| - 1 ==> !Last(code, a[i])) {
      assert i > 0 ==> a[i] == rest[i - 1] && Follows(t, code, rest, i - 1, end);
    }
    assert a[|a| - 1] == rest[|rest| - 1];
  }

  // There is one way to go from instruction to instruction.
  lemma {:induction false} MovableOnce(t: Table, code: seq<Byte>, from: nat, a: seq<nat>, aEnd: nat, b: seq<nat>, bEnd: nat)
    requires Movable(t, code, from, a, aEnd) && Movable(t, code, from, b, bEnd)
    ensures a == b && aEnd == bEnd
    decreases |a|
  {
    hide Last, LengthOf, Movable;
    MovableFirst(t, code, from, a, aEnd);
    MovableFirst(t, code, from, b, bEnd);
    if |a| > 1 && |b| > 1 {
      MovableFrom(t, code, from, a, aEnd);
      MovableFrom(t, code, from, b, bEnd);
      MovableOnce(t, code, a[1], a[1..], aEnd, b[1..], bEnd);
      assert a == [a[0]] + a[1..] && b == [b[0]] + b[1..];
    }
  }

  lemma MovableFirst(t: Table, code: seq<Byte>, from: nat, a: seq<nat>, end: nat)
    requires Movable(t, code, from, a, end)
    ensures from <= |code| && var next := from + LengthOf(t, code[from..]);
      && |a| > 0 && a[0] == from
      && (|a| > 1 <==> next < 5 && !Last(code, from))
      && (if |a| > 1 then a[1] == next else a == [from] && end == next)
  {
    hide Last, LengthOf;
    assert Follows(t, code, a, 0, end) && (|a| > 1 ==> Follows(t, code, a, 1, end));
  }

  lemma MovableFrom(t: Table, code: seq<Byte>, from: nat, a: seq<nat>, end: nat)
    requires Movable(t, code, from, a, end) && |a| > 1
    ensures Movable(t, code, a[1], a[1..], end)
  {
    hide Last, LengthOf;
    var rest := a[1..];
    forall i | 0 <= i < |rest| ensures Follows(t, code, rest, i, end) && (i < |rest| - 1 ==> !Last(code, rest[i])) {
      assert rest[i] == a[i + 1] && Follows(t, code, a, i + 1, end);
    }
    assert a[|a| - 1] == rest[|rest| - 1];
  }

  lemma {:induction false} FillerPads(code: seq<Byte>, taken: nat)
    requires taken <= |code|
    ensures var to := WithFiller(code, taken);
      Padding(code, taken, to) && (to >= 5 || !OneOf(PADDINGS, code[to..]))
    decreases |code| - taken
  {
    hide FillerSize;
    var n := FillerSize(code[taken..]);
    if taken < 5 && n > 0 {
      var i := FillerIs(code[taken..]);
      FillerPads(code, taken + n);
      assert PaddedBy(code, taken, PADDINGS[i], WithFiller(code, taken));
    } else if taken < 5 && OneOf(PADDINGS, code[taken..]) {
      var i :| 0 <= i < |PADDINGS| && PADDINGS[i] <= code[taken..];
      FillersAre(code[taken..], i);
    }
  }

  // There is one way to go over the padding, as far as it goes.
  lemma {:induction false} PaddingOnce(code: seq<Byte>, from: nat, to: nat)
    requires from <= |code| && Padding(code, from, to) && (to >= 5 || (to <= |code| && !OneOf(PADDINGS, code[to..])))
    ensures to == WithFiller(code, from)
    decreases |code| - from
  {
    hide FillerSize;
    if from != to {
      var i :| 0 <= i < |PADDINGS| && PaddedBy(code, from, PADDINGS[i], to);
      FillersAre(code[from..], i);
      PaddingOnce(code, from + |PADDINGS[i]|, to);
    } else if from < 5 && FillerSize(code[from..]) > 0 {
      var i := FillerIs(code[from..]);
    }
  }

  // ---------- What is prepared ----------

  // Whether an attach succeeds is told from the bytes: the instructions up to the first one behind which
  // the function may end, or up to byte 5, and then the padding up to byte 5, have to reach that far.
  lemma PreparedExactly(t: Table, code: seq<Byte>, target: int, trampoline: int, starts: seq<nat>, end: nat, to: nat)
    requires Prepare(t, code, target, trampoline).Some?
    requires Movable(t, code, 0, starts, end) && Padding(code, end, to)
    requires to >= 5 || (to <= |code| && !OneOf(PADDINGS, code[to..]))
    ensures MoveFrom(t, code, 0, 0, trampoline - target).Some?
    ensures var p := Prepare(t, code, target, trampoline).value;
      var copies := |MoveFrom(t, code, 0, 0, trampoline - target).value.bytes|;
      && (p == Failed(InvalidBlockLength) <==> to < 5)
      && (p == Failed(Trapped) <==> to >= 5 && copies > 30)
      && (p == Failed(InvalidHandle) <==> to > 25 && copies <= 30)
      && (p.Prepared? <==> 5 <= to <= 25 && copies <= 30)
      && (p.Prepared? ==> p.moved.count == |starts| && p.moved.taken == end && p.taken == to)
  {
    hide MoveFrom, Movable, Padding, WithFiller, OneOf;
    var m := MoveFrom(t, code, 0, 0, trampoline - target).value;
    var own := MovedAre(t, code, 0, 0, trampoline - target);
    MovableOnce(t, code, 0, starts, end, own, m.taken);
    PaddingOnce(code, end, to);
  }

  // Such instructions and such padding there are, whenever the bytes tell at all.
  lemma PreparedFrom(t: Table, code: seq<Byte>, target: int, trampoline: int) returns (starts: seq<nat>, end: nat, to: nat)
    requires Prepare(t, code, target, trampoline).Some?
    ensures Movable(t, code, 0, starts, end) && Padding(code, end, to)
    ensures to >= 5 || (to <= |code| && !OneOf(PADDINGS, code[to..]))
  {
    hide MoveFrom, Movable, Padding, WithFiller, OneOf;
    var m := MoveFrom(t, code, 0, 0, trampoline - target).value;
    starts := MovedAre(t, code, 0, 0, trampoline - target);
    end, to := m.taken, WithFiller(code, m.taken);
    FillerPads(code, m.taken);
  }

  // A function that ends in front of byte 5, with no padding behind it, is not hooked: nothing changes.
  lemma ShortFunctionIsRefused(s: State, t: Table, thread: int, pointer: int, detour: int, slot: int, starts: seq<nat>, end: nat)
    requires Valid(s) && pointer in s.pointers && Mapped(s.code, s.pointers[pointer], WINDOW) && slot !in s.slots
    requires s.owner == thread && detour != s.pointers[pointer]
    requires var code := Read(s.code, s.pointers[pointer], WINDOW);
      && Prepare(t, code, s.pointers[pointer], slot).Some?
      && Movable(t, code, 0, starts, end) && end < 5 && !OneOf(PADDINGS, code[end..])
    ensures Attach(s, t, thread, pointer, detour, Some(slot)) == (InvalidBlockLength, s)
  {
    hide Prepare, Movable, Valid, OneOf;
    var code := Read(s.code, s.pointers[pointer], WINDOW);
    PreparedExactly(t, code, s.pointers[pointer], slot, starts, end, end);
  }

  // So it is with a ret of one byte, behind which another function begins.
  lemma LoneRetIsRefused(t: Table, code: seq<Byte>, target: int, trampoline: int)
    requires t.one(0xC3) == Sized(1, 1, 0, 0, false, false)
    requires |code| > 1 && code[0] == 0xC3 && !OneOf(PADDINGS, code[1..])
    ensures Prepare(t, code, target, trampoline) == Some(Failed(InvalidBlockLength))
  {
    hide OneOf;
    Whole(code);
    var c := CopyInstruction(t, code, trampoline - target);
    assert c.Some? && c.value.length == 1;
    EndsAre(code);
    assert ENDINGS[0] <= code;
    assert Follows(t, code, [0], 0, 1) && Last(code, 0) by {
      LastHere(code);
    }
    PreparedExactly(t, code, target, trampoline, [0], 1, 1);
  }

  lemma LastHere(code: seq<Byte>)
    requires ENDINGS[0] <= code
    ensures OneOf(ENDINGS, code[0..])
  {
    Whole(code);
  }
}
