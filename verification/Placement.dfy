// Where the trampoline of a function may be placed: within reach of the function, and of what a jump
// at its front refers to.
module Placement {
  import opened CStrings
  import opened HookChain
  import opened JumpEncoding
  import opened TrampolinePool
  import opened X86Relocation

  const TWO_GB: int := 0x8000_0000
  const HALF_MB: int := 0x8_0000
  const TWO_TO_64: int := 0x1_0000_0000_0000_0000

  // The lowest and the highest address that a program can have, as the system tells them.
  datatype Limits = Limits(min: int, max: int)

  ghost predicate LimitsOk(l: Limits) {
    0 <= l.min <= 0x4000_0000 && 2 * TWO_GB <= l.max < USER_LIMIT
  }

  // detour_memory_2gb_below()
  function Below(l: Limits, a: int): int {
    if a > l.min + TWO_GB then a - (TWO_GB - HALF_MB) else l.min + HALF_MB
  }

  // detour_memory_2gb_above()
  function Above(l: Limits, a: int): int {
    if a <= l.max - TWO_GB then a + (TWO_GB - HALF_MB) else l.max - HALF_MB
  }

  // What the jump at the front refers to: a target for E9, a vector for FF 25. Pointers wrap around.
  function Refers(code: seq<Byte>, at: int): (to: Option<int>)
    requires |code| >= 6
  {
    if code[0] == 0xE9 then Some((at + 5 + Signed32(code[1..5])) % TWO_TO_64)
    else if code[0] == 0xFF && code[1] == 0x25 then Some((at + 6 + Signed32(code[2..6])) % TWO_TO_64)
    else None
  }

  // detour_find_jmp_bounds()
  method FindJmpBounds(l: Limits, code: seq<Byte>, at: int) returns (lo: int, hi: int)
    requires |code| >= 6
    ensures (lo, hi) == Bounds(l, code, at)
  {
    lo, hi := Below(l, at), Above(l, at);
    if code[0] == 0xE9 {
      var to := (at + 5 + Signed32(code[1..5])) % TWO_TO_64;
      if to < at {
        hi := Above(l, to);
      } else {
        lo := Below(l, to);
      }
    } else if code[0] == 0xFF && code[1] == 0x25 {
      var to := (at + 6 + Signed32(code[2..6])) % TWO_TO_64;
      if to < at {
        hi := Above(l, to);
      } else {
        lo := Below(l, to);
      }
    }
  }

  function Bounds(l: Limits, code: seq<Byte>, at: int): (int, int)
    requires |code| >= 6
  {
    match Refers(code, at)
    case None => (Below(l, at), Above(l, at))
    case Some(to) => if to < at then (Below(l, at), Above(l, to)) else (Below(l, to), Above(l, at))
  }

  // So far does a trampoline stay away from the furthest address that a displacement reaches, and from
  // the ends of the memory that a program can have: half a megabyte.
  ghost predicate Around(a: int, x: int) {
    a - (0x8000_0000 - 0x8_0000) <= x <= a + (0x8000_0000 - 0x8_0000)
  }

  // Nothing else is left out.
  lemma BoundsExactly(l: Limits, code: seq<Byte>, at: int, x: int)
    requires LimitsOk(l) && l.min <= at <= l.max && |code| >= 6
    ensures var (lo, hi) := Bounds(l, code, at);
      lo <= x <= hi <==>
        && l.min + 0x8_0000 <= x <= l.max - 0x8_0000 && Around(at, x)
        && (Refers(code, at).Some? ==> Around(Refers(code, at).value, x))
  {
    if Refers(code, at).Some? {
      ReferenceNear(code, at);
    }
  }

  // Every byte of a trampoline within the bounds is an address that a program can have, and is
  // reached by a 32-bit displacement from the function, whichever way round.
  lemma BoundsReach(l: Limits, code: seq<Byte>, at: int, slot: int, x: int)
    requires LimitsOk(l) && l.min <= at <= l.max && |code| >= 6
    requires var (lo, hi) := Bounds(l, code, at); lo <= slot <= hi
    requires slot <= x < slot + TRAMPOLINE_SIZE
    ensures l.min <= x <= l.max && FitsInt32(x - (at + 5)) && FitsInt32(at + 30 - x)
  {
    if Refers(code, at).Some? {
      ReferenceNear(code, at);
    }
  }

  // The distance is that of the displacement, or the pointer has wrapped around.
  lemma ReferenceNear(code: seq<Byte>, at: int)
    requires |code| >= 6 && Refers(code, at).Some? && 0 <= at < USER_LIMIT
    ensures var to, size, n := Refers(code, at).value, if code[0] == 0xE9 then 5 else 6,
        if code[0] == 0xE9 then Signed32(code[1..5]) else Signed32(code[2..6]);
      && FitsInt32(n) && 0 <= to < TWO_TO_64
      && (if at + size + n >= 0 then to == at + size + n else to == at + size + n + TWO_TO_64)
  {
    var size, n := if code[0] == 0xE9 then 5 else 6, if code[0] == 0xE9 then Signed32(code[1..5]) else Signed32(code[2..6]);
    Wraps(at + size + n);
  }

  lemma Wraps(a: int)
    requires -TWO_TO_64 <= a < TWO_TO_64
    ensures a % TWO_TO_64 == if a >= 0 then a else a + TWO_TO_64
  {
  }

  // What the jump at the front refers to is also within reach of the jump's copy in a trampoline
  // within the bounds; a jump that wraps around leaves no room within them.
  lemma BoundsReachTarget(l: Limits, code: seq<Byte>, at: int, slot: int)
    requires LimitsOk(l) && l.min <= at <= l.max && |code| >= 6
    requires var (lo, hi) := Bounds(l, code, at); lo <= slot <= hi
    ensures code[0] == 0xE9 ==> at + 5 + Signed32(code[1..5]) >= 0 && FitsInt32(at + 5 + Signed32(code[1..5]) - (slot + 5))
    ensures code[0] == 0xFF && code[1] == 0x25 ==>
      at + 6 + Signed32(code[2..6]) >= 0 && FitsInt32(at + 6 + Signed32(code[2..6]) - (slot + 6))
  {
    if Refers(code, at).Some? {
      ReferenceNear(code, at);
    }
  }

  // There is room within the bounds whenever the jump refers to an address that a program can have.
  lemma BoundsHaveRoom(l: Limits, code: seq<Byte>, at: int)
    requires LimitsOk(l) && l.min <= at <= l.max && |code| >= 6
    requires Refers(code, at).Some? ==> Refers(code, at).value <= l.max
    ensures var (lo, hi) := Bounds(l, code, at); lo <= hi
  {
    if Refers(code, at).Some? {
      ReferenceNear(code, at);
    }
  }

  // So the copy of such a jump says what the jump says.
  lemma CopiedJumpInReach(t: Table, l: Limits, code: seq<Byte>, at: int, slot: int)
    requires KnowsJumps(t) && LimitsOk(l) && l.min <= at <= l.max && |code| >= 6 && code[0] == 0xE9
    requires var (lo, hi) := Bounds(l, code, at); lo <= slot <= hi
    ensures CopyInstruction(t, code, slot - at).Some?
    ensures MeaningOf(t, CopyInstruction(t, code, slot - at).value.bytes, slot) == MeaningOf(t, code, at)
  {
    BoundsReachTarget(l, code, at, slot);
    assert Decode(t, code, NO_FLAGS, false) == Some(Decoded(0, NO_FLAGS, t.one(0xE9)));
    assert code[0..] == code;
    CopyKeepsMeaning(t, code, at, slot - at);
  }

  // And likewise for a jump through a vector, where the tables give FF a ModR/M byte.
  lemma CopiedVectorInReach(t: Table, l: Limits, code: seq<Byte>, at: int, slot: int)
    requires KnowsJumps(t) && LimitsOk(l) && l.min <= at <= l.max && |code| >= 6 && code[0] == 0xFF && code[1] == 0x25
    requires t.one(0xFF) == Sized(2, 2, 1, 0, false, false)
    requires var (lo, hi) := Bounds(l, code, at); lo <= slot <= hi
    ensures CopyInstruction(t, code, slot - at).Some?
    ensures MeaningOf(t, CopyInstruction(t, code, slot - at).value.bytes, slot) == MeaningOf(t, code, at)
    ensures MeaningOf(t, code, at) == Some(Relative(code[..2], [], at + 6 + Signed32(code[2..6]), false))
  {
    hide Bounds, KnowsJumps, Signed32;
    BoundsReachTarget(l, code, at, slot);
    assert Decode(t, code, NO_FLAGS, false) == Some(Decoded(0, NO_FLAGS, t.one(0xFF)));
    assert code[0..] == code && code[6..6] == [];
    assert ShapeOf(t.one(0xFF), NO_FLAGS, code) == Some(Shape(6, 2));
    CopyKeepsMeaning(t, code, at, slot - at);
  }

  // And the trampolines that are found for one hook after the other are as near as the chain of
  // hooks needs them.
  lemma BoundsAreNear(w: World, l: Limits, layers: seq<Layer>, slot: int, detour: int, code: seq<Byte>)
    requires LimitsOk(l) && l.min <= w.target <= l.max && |code| >= 6
    requires Near(w, layers) && forall i :: 0 <= i < |layers| ==> layers[i].slot != slot
    requires layers != [] ==> code[..5] == JmpImmediate(w.target, Entry(layers[|layers| - 1].slot))
    requires var (lo, hi) := Bounds(l, code, w.target); lo <= slot <= hi
    ensures Near(w, layers + [Layer(slot, detour, true)])
  {
    var k, more := |layers|, layers + [Layer(slot, detour, true)];
    BoundsReach(l, code, w.target, slot, Entry(slot));
    if k > 0 {
      var to := Entry(layers[k - 1].slot);
      assert code[0] == code[..5][0] && code[1..5] == code[..5][1..];
      Int32RoundTrip(to - (w.target + 5));
      BoundsReachTarget(l, code, w.target, slot);
      assert w.target + 5 + Signed32(code[1..5]) == to;
    }
  }
}
