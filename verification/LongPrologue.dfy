// A function whose first instructions, once moved, leave no room for the jump behind them: the jump
// runs over what was saved, and taking the hook off spoils the function.
module LongPrologue {
  import opened CStrings
  import opened HookIdentity
  import opened JumpEncoding
  import opened Prologue
  import opened Transaction
  import opened X86Relocation

  // What the tables say about the prefixes 67, 64, F0 and 48, and about the opcode 81.
  ghost predicate KnowsAdd(t: Table) {
    && t.one(0x67) == AddressPrefix && t.one(0x64) == Prefix && t.one(0xF0) == Prefix && t.one(0x48) == Rex
    && t.one(0x81) == Sized(6, 4, 1, 0, false, false)
  }

  // Two short branches, and lock add qword ptr fs:[eax+ecx*4+disp32], imm32 with 8 bytes of numbers.
  ghost predicate StartsLong(window: seq<Byte>) {
    && |window| == WINDOW && window[0] == 0x70 && window[2] == 0x70
    && window[4..11] == [0x67, 0x64, 0xF0, 0x48, 0x81, 0x84, 0x88]
  }

  lemma BranchCopied(t: Table, src: seq<Byte>, delta: int)
    requires KnowsJumps(t) && |src| >= 2 && src[0] == 0x70
    ensures CopyInstruction(t, src, delta).Some? && !EndsFunction(src)
    ensures var c := CopyInstruction(t, src, delta).value; c.length == 2 && |c.bytes| == 6
  {
    hide Bytes32;
    assert Decode(t, src, NO_FLAGS, false) == Some(Decoded(0, NO_FLAGS, ShortJump));
  }

  lemma AddDecoded(t: Table, src: seq<Byte>)
    requires KnowsAdd(t) && |src| >= 15 && src[..7] == [0x67, 0x64, 0xF0, 0x48, 0x81, 0x84, 0x88]
    ensures Decode(t, src, NO_FLAGS, false) == Some(Decoded(4, Flags(false, true, true), Sized(6, 4, 1, 0, false, false)))
  {
    var f, g := NO_FLAGS.(address := true), Flags(false, true, true);
    var b := src[..7];
    assert src[0] == b[0] && src[1] == b[1] && src[2] == b[2] && src[3] == b[3] && src[4] == b[4];
    var one, two, three, four := src[1..], src[2..], src[3..], src[4..];
    assert one[1..] == two && two[1..] == three && three[1..] == four;
    assert Decode(t, four, g, false) == Some(Decoded(0, g, Sized(6, 4, 1, 0, false, false)));
    assert Decode(t, three, f, false) == Some(Decoded(1, g, Sized(6, 4, 1, 0, false, false)));
    assert Decode(t, two, f, false) == Some(Decoded(2, g, Sized(6, 4, 1, 0, false, false)));
    assert Decode(t, one, f, false) == Some(Decoded(3, g, Sized(6, 4, 1, 0, false, false)));
  }

  lemma AddCopied(t: Table, src: seq<Byte>, delta: int)
    requires KnowsAdd(t) && |src| >= 15 && src[..7] == [0x67, 0x64, 0xF0, 0x48, 0x81, 0x84, 0x88]
    ensures CopyInstruction(t, src, delta) == Some(Copied(src[..15], 15))
  {
    hide Decode;
    AddDecoded(t, src);
    var rest := src[4..];
    assert src[5] == src[..7][5] && rest[1] == src[5] && rest[1] == 0x84;
    assert ShapeOf(Sized(6, 4, 1, 0, false, false), Flags(false, true, true), rest) == Some(Shape(11, 0));
  }

  // 19 bytes are taken, 27 are moved, and the last byte of the jump falls on the first one saved.
  lemma LongPrepared(t: Table, window: seq<Byte>, target: int, slot: int)
    requires KnowsJumps(t) && KnowsAdd(t) && StartsLong(window)
    ensures Prepare(t, window, target, slot).Some? && Prepare(t, window, target, slot).value.Prepared?
    ensures var p := Prepare(t, window, target, slot).value;
      p.taken == 19 && |p.moved.bytes| == 27 && !Intact(27, window) && Spilled(27) == [0]
  {
    hide CopyInstruction, KnowsJumps, KnowsAdd, FillerSize, EndsFunction, Spilled;
    var delta := slot - target;
    assert window[0..] == window && window[4..][..7] == window[4..11];
    BranchCopied(t, window, delta);
    BranchCopied(t, window[2..], delta + 4);
    AddCopied(t, window[4..], delta + 8);
    var m := MoveFrom(t, window, 4, 2, delta + 8);
    AddMoved(t, window, delta + 8);
    assert MoveFrom(t, window, 2, 1, delta + 4).Some? && |MoveFrom(t, window, 2, 1, delta + 4).value.bytes| == 21;
    assert MoveFrom(t, window, 0, 0, delta).Some? && |MoveFrom(t, window, 0, 0, delta).value.bytes| == 27;
    SpilledIs(27);
    assert window[..1][0] == 0x70;
  }

  lemma AddMoved(t: Table, window: seq<Byte>, delta: int)
    requires |window| == WINDOW && CopyInstruction(t, window[4..], delta) == Some(Copied(window[4..][..15], 15))
    ensures MoveFrom(t, window, 4, 2, delta) == Some(Moved(3, 19, window[4..][..15]))
  {
    hide CopyInstruction, EndsFunction;
    assert window[4..][..15] + [] == window[4..][..15];
    assert MoveFrom(t, window, 19, 3, delta) == Some(Moved(3, 19, []));
  }

  // Such a function is attached to and detached from with success, and then starts with a zero.
  lemma LongPrologueIsSpoilt(s0: State, t: Table, thread: int, later: int, h: HookIdentity.Hook)
    requires KnowsJumps(t) && KnowsAdd(t) && Ready(s0, t, thread, [h]) && Attachable(s0, t, h)
    requires StartsLong(Read(s0.code, h.target, WINDOW))
    ensures var r := Commit(DetachEach(Commit(AttachEach(s0, t, thread, [h], 1), thread).1, later, [h], [0], 1), later);
      && r.0 == Success && h.target in s0.code && s0.code[h.target] == 0x70
      && r.1 == s0.(code := s0.code[h.target := 0])
  {
    hide KnowsJumps, KnowsAdd, Apart, Valid, AttachEach, DetachEach, Commit, Prepare, Spilled, Spoilt;
    LongPrepared(t, Read(s0.code, h.target, WINDOW), h.target, h.slot);
    assert Elements([0]) == Upto(1) by {
      assert forall k :: k in Upto(1) <==> k == 0;
    }
    AttachThenDetach(s0, t, thread, later, [h], [0]);
    SpoiltOne(s0, t, h);
    assert Read(s0.code, h.target, WINDOW)[0] == s0.code[h.target];
  }

  lemma SpoiltOne(s0: State, t: Table, h: HookIdentity.Hook)
    requires Attachable(s0, t, h) && Spilled(MovedSize(s0, t, h)) == [0]
    ensures h.target in s0.code && Spoilt(s0, t, [h], 1) == s0.code[h.target := 0]
  {
    hide Prepare, Spilled, MovedSize;
    var spoilt, goal := Spoilt(s0, t, [h], 1), s0.code[h.target := 0];
    assert Spoilt(s0, t, [h], 0) == s0.code;
    SameMap(spoilt, goal);
  }
}
