// How long an instruction is, by the manual: its prefixes, its opcode, its address and its immediate.
module InstructionSize {
  import opened CStrings
  import opened JumpEncoding
  import opened X86Relocation

  // What the table says about prefixes: the operand size, the address size, REX, the segments and LOCK.
  ghost predicate KnowsPrefixes(t: Table) {
    && (forall b: Byte :: t.one(b) == OperandPrefix <==> b == 0x66)
    && (forall b: Byte :: t.one(b) == AddressPrefix <==> b == 0x67)
    && (forall b: Byte :: t.one(b) == Rex <==> 0x40 <= b <= 0x4F)
    && (forall b: Byte :: b in {0x26, 0x2E, 0x36, 0x3E, 0x64, 0x65, 0xF0} ==> t.one(b) == Prefix)
    && t.one(0x0F) == Escape
  }

  predicate IsPrefix(b: Byte) {
    b in {0x26, 0x2E, 0x36, 0x3E, 0x64, 0x65, 0x66, 0x67, 0xF0} || 0x40 <= b <= 0x4F
  }

  predicate Prefixes(ps: seq<Byte>) {
    forall i :: 0 <= i < |ps| ==> IsPrefix(ps[i])
  }

  // REX with its bit W.
  predicate Wide(ps: seq<Byte>) {
    exists i :: 0 <= i < |ps| && 0x48 <= ps[i] <= 0x4F
  }

  function FlagsOf(ps: seq<Byte>): Flags {
    Flags(0x66 in ps, 0x67 in ps, Wide(ps))
  }

  // One more prefix.
  function With(f: Flags, b: Byte): Flags {
    Flags(f.operand || b == 0x66, f.address || b == 0x67, f.rex || 0x48 <= b <= 0x4F)
  }

  function Joined(f: Flags, g: Flags): Flags {
    Flags(f.operand || g.operand, f.address || g.address, f.rex || g.rex)
  }

  lemma FirstPrefix(ps: seq<Byte>, f: Flags)
    requires ps != []
    ensures var g := With(f, ps[0]);
      Joined(f, FlagsOf(ps)) == Joined(g, FlagsOf(ps[1..]))
  {
    var rest := ps[1..];
    assert ps == [ps[0]] + rest;
    if Wide(ps) {
      var i :| 0 <= i < |ps| && 0x48 <= ps[i] <= 0x4F;
      assert i > 0 ==> rest[i - 1] == ps[i];
    }
    if Wide(rest) {
      var i :| 0 <= i < |rest| && 0x48 <= rest[i] <= 0x4F;
      assert ps[i + 1] == rest[i];
    }
  }

  lemma NoPrefix(f: Flags)
    ensures Joined(f, FlagsOf([])) == f
  {
  }

  lemma OnePrefix(t: Table, b: Byte, f: Flags)
    requires KnowsPrefixes(t) && IsPrefix(b)
    ensures var c := t.one(b); !c.Sized? && !c.ShortJump? && !c.Other? && !c.Escape?
    ensures After(t.one(b), b, f) == With(f, b)
  {
  }

  // Behind any prefixes the opcode decides, and the prefixes have set the flags in whatever order.
  lemma {:induction false} DecodeBehind(t: Table, ps: seq<Byte>, rest: seq<Byte>, f: Flags)
    requires KnowsPrefixes(t) && Prefixes(ps)
    ensures Decode(t, ps + rest, f, false) ==
      match Decode(t, rest, Joined(f, FlagsOf(ps)), false)
      case None => None
      case Some(d) => Some(d.(lead := d.lead + |ps|))
    decreases |ps|
  {
    hide KnowsPrefixes, FlagsOf, IsPrefix, After, With;
    if ps == [] {
      assert ps + rest == rest;
      NoPrefix(f);
    } else {
      var src := ps + rest;
      assert src[0] == ps[0] && src[1..] == ps[1..] + rest;
      FirstPrefix(ps, f);
      var g := After(t.one(ps[0]), ps[0], f);
      OnePrefix(t, ps[0], f);
      assert Prefixes(ps[1..]) by {
        forall i | 0 <= i < |ps| - 1 ensures IsPrefix(ps[1..][i]) {
          assert ps[1..][i] == ps[i + 1];
        }
      }
      DecodeBehind(t, ps[1..], rest, g);
    }
  }

  // ---------- Sizes ----------

  // An immediate of the operand size, of 32 bits at most: 16 bits behind 66, unless REX.W stands there too.
  function Immediate(ps: seq<Byte>): nat {
    if 0x66 in ps && !Wide(ps) then 2 else 4
  }

  // The immediate of MOV to a register may have 64 bits.
  function WideImmediate(ps: seq<Byte>): nat {
    if Wide(ps) then 8 else Immediate(ps)
  }

  // The address of MOV with an absolute address.
  function AbsoluteAddress(ps: seq<Byte>): nat {
    if 0x67 in ps then 4 else 8
  }

  // The size of an instruction without ModR/M, by the row of the table that its opcode has.
  lemma PlainSize(t: Table, ps: seq<Byte>, rest: seq<Byte>)
    requires KnowsPrefixes(t) && Prefixes(ps) && rest != [] && |rest| >= 9 && t.one(rest[0]).Sized? && t.one(rest[0]).modOffset == 0
    ensures var c, n := t.one(rest[0]), LengthOf(t, ps + rest);
      && (c == Sized(1, 1, 0, 0, false, false) ==> n == |ps| + 1)
      && (c == Sized(2, 2, 0, 0, false, false) ==> n == |ps| + 2)
      && (c == Sized(5, 3, 0, 0, false, false) ==> n == |ps| + 1 + Immediate(ps))
      && (c == Sized(5, 3, 0, 0, false, true) ==> n == |ps| + 1 + WideImmediate(ps))
      && (c == Sized(9, 5, 0, 0, true, false) ==> n == |ps| + 1 + AbsoluteAddress(ps))
      && (c == Sized(5, 5, 0, 1, false, false) ==> n == |ps| + 5)
  {
    hide KnowsPrefixes, Prefixes;
    DecodeBehind(t, ps, rest, NO_FLAGS);
    assert (ps + rest)[|ps|..] == rest;
  }

  lemma AddressedDecodes(t: Table, ps: seq<Byte>, rest: seq<Byte>, two: bool)
    requires KnowsPrefixes(t) && Prefixes(ps) && |rest| >= 16 && (two ==> rest[0] == 0x0F)
    requires (if two then t.two(rest[1]) else t.one(rest[0])).Sized?
    ensures var c, lead := if two then t.two(rest[1]) else t.one(rest[0]), if two then |ps| + 1 else |ps|;
      && Decode(t, ps + rest, NO_FLAGS, false) == Some(Decoded(lead, FlagsOf(ps), c))
      && (ps + rest)[lead..] == if two then rest[1..] else rest
  {
    hide KnowsPrefixes, Prefixes, FlagsOf;
    DecodeBehind(t, ps, rest, NO_FLAGS);
    EscapeIs(t);
    assert Joined(NO_FLAGS, FlagsOf(ps)) == FlagsOf(ps);
  }

  // And of one with ModR/M, from either table: the address has the size that the manual gives its form, and
  // the immediate follows.
  lemma AddressedSize(t: Table, ps: seq<Byte>, rest: seq<Byte>, two: bool)
    requires KnowsPrefixes(t) && Prefixes(ps) && |rest| >= 16 && (two ==> rest[0] == 0x0F)
    requires var c := if two then t.two(rest[1]) else t.one(rest[0]);
      c == Sized(2, 2, 1, 0, false, false) || c == Sized(3, 3, 1, 0, false, false) || c == Sized(6, 4, 1, 0, false, false)
    ensures var c, at := if two then t.two(rest[1]) else t.one(rest[0]), if two then 2 else 1;
      LengthOf(t, ps + rest) == |ps| + at + 1 + AddressBytes(rest[at], rest[at + 1])
        + (if c.size == 2 then 0 else if c.size == 3 then 1 else Immediate(ps))
  {
    hide KnowsPrefixes, Prefixes, AddressBytes, ModRmBytes, Decode, Wide, HasSibFlag, HasRipFlag;
    var c, src := if two then t.two(rest[1]) else t.one(rest[0]), if two then rest[1..] else rest;
    AddressedDecodes(t, ps, rest, two);
    ShapeIs(c, FlagsOf(ps), src);
    SizeFollowsManual(c, FlagsOf(ps), src);
    AtMost(src[1], src[2]);
  }

  lemma ShapeIs(c: Class, flags: Flags, src: seq<Byte>)
    requires c == Sized(2, 2, 1, 0, false, false) || c == Sized(3, 3, 1, 0, false, false) || c == Sized(6, 4, 1, 0, false, false)
    requires |src| > 2
    ensures ShapeOf(c, flags, src).Some?
  {
  }

  lemma EscapeIs(t: Table)
    requires KnowsPrefixes(t)
    ensures t.one(0x0F) == Escape
  {
  }

  lemma AtMost(modRm: Byte, sib: Byte)
    ensures AddressBytes(modRm, sib) <= 5
  {
  }

  // ---------- What is relative ----------

  // Such an instruction is about a place relative to the one behind it exactly in the form that the manual
  // has for this: mod 0 and r/m 5, and 32 bits of displacement behind ModR/M.
  lemma AddressedMeans(t: Table, ps: seq<Byte>, rest: seq<Byte>, two: bool, address: int)
    requires KnowsPrefixes(t) && Prefixes(ps) && |rest| >= 16 && (two ==> rest[0] == 0x0F)
    requires var c := if two then t.two(rest[1]) else t.one(rest[0]);
      c == Sized(2, 2, 1, 0, false, false) || c == Sized(3, 3, 1, 0, false, false) || c == Sized(6, 4, 1, 0, false, false)
    ensures var src, at, n := ps + rest, if two then 2 else 1, LengthOf(t, ps + rest);
      var d := |ps| + at + 1;
      && d <= n <= |src| && (rest[at] / 64 == 0 && rest[at] % 8 == 5 ==> d + 4 <= n)
      && MeaningOf(t, src, address) ==
           if rest[at] / 64 == 0 && rest[at] % 8 == 5
           then Some(Relative(src[..d], src[d + 4..n], address + n + Signed32(rest[at + 1..at + 5]), false))
           else Some(Anywhere(src[..n]))
  {
    hide KnowsPrefixes, Prefixes, AddressBytes, ModRmBytes, Decode, Wide, Signed32, ShapeOf, FlagsOf;
    var c, src, at := if two then t.two(rest[1]) else t.one(rest[0]), if two then rest[1..] else rest, if two then 2 else 1;
    AddressedDecodes(t, ps, rest, two);
    AddressedShape(c, FlagsOf(ps), src);
    var d := |ps| + at + 1;
    assert (ps + rest)[d..d + 4] == rest[at + 1..at + 5];
  }

  lemma AddressedShape(c: Class, flags: Flags, src: seq<Byte>)
    requires c == Sized(2, 2, 1, 0, false, false) || c == Sized(3, 3, 1, 0, false, false) || c == Sized(6, 4, 1, 0, false, false)
    requires |src| >= 15
    ensures var s := ShapeOf(c, flags, src);
      && s.Some? && 2 <= s.value.size <= 11
      && s.value.rel == (if src[1] / 64 == 0 && src[1] % 8 == 5 then 2 else 0) && (s.value.rel > 0 ==> s.value.size >= 6)
  {
  }

  // A short jump has two bytes, and its last one is the distance from behind it, with a sign. It says what
  // the long form says: E9 for EB, and 0F 80 and on for 70 and on.
  lemma ShortJumpMeans(t: Table, ps: seq<Byte>, rest: seq<Byte>, address: int)
    requires KnowsPrefixes(t) && KnowsJumps(t) && Prefixes(ps) && |rest| >= 2 && (rest[0] == 0xEB || 0x70 <= rest[0] <= 0x7F)
    ensures LengthOf(t, ps + rest) == |ps| + 2
    ensures var m := MeaningOf(t, ps + rest, address);
      && m.Some? && m.value.Relative? && m.value.branch && m.value.tail == []
      && m.value.head == ps + (if rest[0] == 0xEB then [0xE9] else [0x0F, rest[0] + 0x10])
      && var d := m.value.target - (address + |ps| + 2); -128 <= d < 128 && d % 256 == rest[1]
  {
    hide Prefixes, FlagsOf;
    DecodeBehind(t, ps, rest, NO_FLAGS);
    var src := ps + rest;
    assert src[..|ps|] == ps && src[|ps|] == rest[0] && src[|ps| + 1] == rest[1];
  }

  // A jump or a call with 32 bits, and a jump on a condition, behind 0F: the distance is from behind it too.
  lemma NearJumpMeans(t: Table, ps: seq<Byte>, rest: seq<Byte>, two: bool, address: int)
    requires KnowsPrefixes(t) && Prefixes(ps) && |rest| >= 16 && (two ==> rest[0] == 0x0F)
    requires (if two then t.two(rest[1]) else t.one(rest[0])) == Sized(5, 5, 0, 1, false, false)
    ensures var src, at := ps + rest, if two then 2 else 1;
      && LengthOf(t, src) == |ps| + at + 4
      && MeaningOf(t, src, address)
           == Some(Relative(src[..|ps| + at], [], address + |ps| + at + 4 + Signed32(rest[at..at + 4]), true))
  {
    hide KnowsPrefixes, Prefixes, Decode, Wide, Signed32, FlagsOf;
    var at := if two then 2 else 1;
    AddressedDecodes(t, ps, rest, two);
    assert (ps + rest)[|ps| + at..|ps| + at + 4] == rest[at..at + 4];
    assert (ps + rest)[|ps| + at + 4..|ps| + at + 4] == [];
  }
}
