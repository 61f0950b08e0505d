// SlimDetoursCopyInstruction() for 64-bit x86: an instruction copied to another address, with
// whatever it says relative to its own address made to say the same from there.
module X86Relocation {
  import opened CStrings
  import opened JumpEncoding
  import opened Seqs

  // How the copy table treats an opcode. The sizes are those of CopyBytes; the rest of the
  // disassembler's classes (VEX, EVEX, XOP, LOOP and JCXZ, dynamic targets) is Other.
  datatype Class =
    | Sized(size: nat, size16: nat, modOffset: nat, relOffset: nat, address: bool, rax: bool)
    | ShortJump
    | Prefix
    | OperandPrefix
    | AddressPrefix
    | Rex
    | Escape
    | Other

  // The one-byte table and the one behind 0F.
  datatype Table = Table(one: Byte -> Class, two: Byte -> Class)

  datatype Flags = Flags(operand: bool, address: bool, rex: bool)

  // What the tables say about relative jumps, whatever else is in them.
  ghost predicate KnowsJumps(t: Table) {
    && t.one(0xE9) == Sized(5, 5, 0, 1, false, false)
    && t.one(0x0F) == Escape
    && (forall b: Byte :: t.one(b) == ShortJump <==> b == 0xEB || 0x70 <= b <= 0x7F)
    && (forall b: Byte :: t.two(b) != ShortJump)
    && (forall b: Byte :: 0x80 <= b <= 0x8F ==> t.two(b) == Sized(5, 5, 0, 1, false, false))
  }

  // ---------- The size of an instruction ----------

  // g_rbModRm: how many bytes follow the ModR/M byte, and the flags for a SIB byte without
  // displacement and for an address relative to the next instruction.
  function ModRmBytes(modRm: Byte): nat {
    var mod, rm := modRm / 64, modRm % 8;
    if mod == 0 then (if rm == 4 then 1 else if rm == 5 then 4 else 0)
    else if mod == 1 then (if rm == 4 then 2 else 1)
    else if mod == 2 then (if rm == 4 then 5 else 4)
    else 0
  }

  predicate HasSibFlag(modRm: Byte) {
    modRm / 64 == 0 && modRm % 8 == 4
  }

  predicate HasRipFlag(modRm: Byte) {
    modRm / 64 == 0 && modRm % 8 == 5
  }

  function FixedSize(c: Class, flags: Flags): nat
    requires c.Sized?
  {
    if c.address then (if flags.address then c.size16 else c.size)
    else if flags.rex then c.size + (if c.rax then 4 else 0)
    else if flags.operand then c.size16 else c.size
  }

  // The bytes of the instruction behind its prefixes, and where in them a 32-bit displacement is.
  datatype Shape = Shape(size: nat, rel: nat)

  // The head of CopyBytes(). The bytes it looks at have to be there.
  function ShapeOf(c: Class, flags: Flags, src: seq<Byte>): (s: Option<Shape>)
    requires c.Sized?
    ensures s.Some? && s.value.rel > 0 ==> s.value.rel + 4 <= s.value.size
  {
    var fixed, m := FixedSize(c, flags), c.modOffset;
    if m == 0 then
      (if c.relOffset == 0 || fixed == c.relOffset + 4 then Some(Shape(fixed, c.relOffset)) else None)
    else if m >= |src| || (HasSibFlag(src[m]) && m + 1 >= |src|) || c.relOffset > 0 || fixed < m + 1 then None
    else
      var n := fixed + ModRmBytes(src[m]);
      if HasSibFlag(src[m]) then Some(Shape(n + (if src[m + 1] % 8 == 5 then 4 else 0), 0))
      else Some(Shape(n, if HasRipFlag(src[m]) then m + 1 else 0))
  }

  // Reference: the bytes behind ModR/M by the manual's rules for the addressing forms.
  function AddressBytes(modRm: Byte, sib: Byte): nat {
    var mod, rm := modRm / 64, modRm % 8;
    var displacement := if mod == 1 then 1 else if mod == 2 then 4
      else if mod == 0 && (rm == 5 || (rm == 4 && sib % 8 == 5)) then 4 else 0;
    displacement + (if mod != 3 && rm == 4 then 1 else 0)
  }

  lemma SizeFollowsManual(c: Class, flags: Flags, src: seq<Byte>)
    requires c.Sized? && c.modOffset > 0 && ShapeOf(c, flags, src).Some?
    ensures var sib := if c.modOffset + 1 < |src| then src[c.modOffset + 1] else 0;
      ShapeOf(c, flags, src).value.size == FixedSize(c, flags) + AddressBytes(src[c.modOffset], sib)
  {
  }

  // ---------- Prefixes ----------

  // The number of bytes in front of the opcode that decides, the flags they set, and its class.
  datatype Decoded = Decoded(lead: nat, flags: Flags, class_: Class)

  function After(c: Class, op: Byte, flags: Flags): Flags {
    match c
    case OperandPrefix => flags.(operand := true)
    case AddressPrefix => flags.(address := true)
    case Rex => if op / 8 % 2 == 1 then flags.(rex := true) else flags
    case _ => flags
  }

  function Decode(t: Table, src: seq<Byte>, flags: Flags, two: bool): (d: Option<Decoded>)
    ensures d.Some? ==> d.value.lead < |src| && (d.value.class_.Sized? || d.value.class_.ShortJump?)
  {
    if src == [] then None
    else
      var c := if two then t.two(src[0]) else t.one(src[0]);
      if c.Sized? || c.ShortJump? then Some(Decoded(0, flags, c))
      else if c.Other? then None
      else
        match Decode(t, src[1..], After(c, src[0], flags), c.Escape?)
        case Some(d) => Some(d.(lead := d.lead + 1))
        case None => None
  }

  // ---------- Copying ----------

  datatype Copied = Copied(bytes: seq<Byte>, length: nat)

  const NO_FLAGS := Flags(false, false, false)

  // A four-byte displacement moved with its instruction: AdjustTarget().
  function Adjusted(src: seq<Byte>, at: nat, size: nat, delta: int): (b: seq<Byte>)
    requires at + 4 <= size <= |src|
    ensures |b| == size
  {
    src[..at] + Bytes32(Signed32(src[at..at + 4]) - delta) + src[at + 4..size]
  }

  // delta is how far the copy lies above the original. The extra bytes that the code reports are
  // those by which the copy is longer.
  function CopyInstruction(t: Table, src: seq<Byte>, delta: int): (r: Option<Copied>)
    ensures r.Some? ==> 0 < r.value.length <= |src| && r.value.length <= |r.value.bytes| <= r.value.length + 4
  {
    match Decode(t, src, NO_FLAGS, false)
    case None => None
    case Some(d) =>
      if d.class_.ShortJump? then
        (if d.lead + 2 > |src| then None else Some(CopyShortJump(src, d.lead, delta)))
      else match ShapeOf(d.class_, d.flags, src[d.lead..])
        case None => None
        case Some(s) =>
          var n := d.lead + s.size;
          if s.size == 0 || n > |src| then None
          else if s.rel == 0 then Some(Copied(src[..n], n))
          else Some(Copied(Adjusted(src, d.lead + s.rel, n, delta), n))
  }

  // CopyBytesJump(): a short jump becomes the one with a 32-bit displacement.
  function CopyShortJump(src: seq<Byte>, lead: nat, delta: int): (c: Copied)
    requires lead + 2 <= |src|
    ensures c.length == lead + 2 && |c.bytes| <= lead + 6 && |c.bytes| >= lead + 5
  {
    var offset := Signed8(src[lead + 1]);
    if src[lead] == 0xEB then Copied(src[..lead] + [0xE9] + Bytes32(offset - (delta + 3)), lead + 2)
    else Copied(src[..lead] + [0x0F, LongForm(src[lead])] + Bytes32(offset - (delta + 4)), lead + 2)
  }

  function Signed8(b: Byte): int {
    if b < 0x80 then b else b - 0x100
  }

  // 0x80 | (op & 0xf)
  function LongForm(op: Byte): Byte {
    0x80 + op % 16
  }

  // ---------- What an instruction says ----------

  // Either nothing about its own address, or an absolute address besides the bytes around the
  // displacement. A short jump says what its long form says.
  datatype Meaning =
    | Anywhere(bytes: seq<Byte>)
    | Relative(head: seq<Byte>, tail: seq<Byte>, target: int, branch: bool)

  function MeaningOf(t: Table, src: seq<Byte>, address: int): Option<Meaning> {
    match Decode(t, src, NO_FLAGS, false)
    case None => None
    case Some(d) =>
      if d.class_.ShortJump? then
        (if d.lead + 2 > |src| then None
         else Some(Relative(src[..d.lead] + (if src[d.lead] == 0xEB then [0xE9] else [0x0F, LongForm(src[d.lead])]), [],
                            address + d.lead + 2 + Signed8(src[d.lead + 1]), true)))
      else match ShapeOf(d.class_, d.flags, src[d.lead..])
        case None => None
        case Some(s) =>
          var n, at := d.lead + s.size, d.lead + s.rel;
          if s.size == 0 || n > |src| then None
          else if s.rel == 0 then Some(Anywhere(src[..n]))
          else Some(Relative(src[..at], src[at + 4..n], address + n + Signed32(src[at..at + 4]), d.class_.relOffset > 0))
  }

  // ---------- The copy says what the original says ----------

  // The decoder looks no further than the deciding opcode.
  lemma {:induction false} DecodeSame(t: Table, a: seq<Byte>, b: seq<Byte>, flags: Flags, two: bool)
    requires Decode(t, a, flags, two).Some?
    requires var n := Decode(t, a, flags, two).value.lead + 1; n <= |b| && a[..n] == b[..n]
    ensures Decode(t, b, flags, two) == Decode(t, a, flags, two)
    decreases |a|
  {
    var n := Decode(t, a, flags, two).value.lead + 1;
    assert a[0] == a[..n][0] && b[0] == b[..n][0];
    var c := if two then t.two(a[0]) else t.one(a[0]);
    if !c.Sized? && !c.ShortJump? {
      var next := After(c, a[0], flags);
      assert a[1..][..n - 1] == a[..n][1..] && b[1..][..n - 1] == b[..n][1..];
      DecodeSame(t, a[1..], b[1..], next, c.Escape?);
    }
  }

  // Behind the prefixes of a short jump the decoder finds whatever stands there instead.
  lemma {:induction false} DecodeInstead(t: Table, a: seq<Byte>, b: seq<Byte>, flags: Flags, two: bool)
    requires KnowsJumps(t) && Decode(t, a, flags, two).Some? && Decode(t, a, flags, two).value.class_.ShortJump?
    requires var n := Decode(t, a, flags, two).value.lead; n < |b| && a[..n] == b[..n]
    ensures var d := Decode(t, a, flags, two).value;
      Decode(t, b, flags, two) ==
        match Decode(t, b[d.lead..], d.flags, false) case None => None case Some(e) => Some(e.(lead := d.lead + e.lead))
    decreases |a|
  {
    hide After, KnowsJumps;
    var n := Decode(t, a, flags, two).value.lead;
    var c := if two then t.two(a[0]) else t.one(a[0]);
    if n == 0 {
      Whole(b);
      ShortIsOneByte(t, a[0], two);
    } else {
      FirstSame(a, b, n);
      DecodeInstead(t, a[1..], b[1..], After(c, a[0], flags), c.Escape?);
      DropDrop(b, 1, n - 1);
    }
  }

  lemma ShortIsOneByte(t: Table, op: Byte, two: bool)
    requires KnowsJumps(t) && (if two then t.two(op) else t.one(op)).ShortJump?
    ensures !two
  {
  }

  lemma FirstSame(a: seq<Byte>, b: seq<Byte>, n: nat)
    requires 0 < n <= |a| && n <= |b| && a[..n] == b[..n]
    ensures a[0] == b[0] && a[1..][..n - 1] == b[1..][..n - 1]
  {
    assert a[0] == a[..n][0] && b[0] == b[..n][0];
    assert a[1..][..n - 1] == a[..n][1..] && b[1..][..n - 1] == b[..n][1..];
  }

  // The new displacement that the copy needs, if it needs one.
  predicate InReach(m: Meaning, end: int) {
    m.Relative? ==> FitsInt32(m.target - end)
  }

  // An instruction of the kinds that are copied says the same where it is copied to, exactly when
  // what it says stays within reach.
  lemma CopyKeepsMeaning(t: Table, src: seq<Byte>, address: int, delta: int)
    requires KnowsJumps(t) && CopyInstruction(t, src, delta).Some?
    ensures var c, m := CopyInstruction(t, src, delta).value, MeaningOf(t, src, address);
      && m.Some?
      && (MeaningOf(t, c.bytes, address + delta) == m <==> InReach(m.value, address + delta + |c.bytes|))
  {
    var d := Decode(t, src, NO_FLAGS, false).value;
    if d.class_.ShortJump? {
      ShortKeepsMeaning(t, src, address, delta);
    } else {
      SizedKeepsMeaning(t, src, address, delta);
    }
  }

  // What an instruction with a size says, in terms of its shape.
  function SizedMeaning(src: seq<Byte>, d: Decoded, s: Shape, address: int): Meaning
    requires d.lead + s.size <= |src| && (s.rel > 0 ==> s.rel + 4 <= s.size)
  {
    var n, at := d.lead + s.size, d.lead + s.rel;
    if s.rel == 0 then Anywhere(src[..n])
    else Relative(src[..at], src[at + 4..n], address + n + Signed32(src[at..at + 4]), d.class_.Sized? && d.class_.relOffset > 0)
  }

  lemma SizedMeans(t: Table, src: seq<Byte>, address: int, d: Decoded, s: Shape)
    requires Decode(t, src, NO_FLAGS, false) == Some(d) && d.class_.Sized?
    requires ShapeOf(d.class_, d.flags, src[d.lead..]) == Some(s) && 0 < s.size && d.lead + s.size <= |src|
    ensures MeaningOf(t, src, address) == Some(SizedMeaning(src, d, s, address))
  {
  }

  lemma SizedCopies(t: Table, src: seq<Byte>, delta: int) returns (d: Decoded, s: Shape)
    requires CopyInstruction(t, src, delta).Some? && Decode(t, src, NO_FLAGS, false).value.class_.Sized?
    ensures Decode(t, src, NO_FLAGS, false) == Some(d) && d.class_.Sized?
    ensures ShapeOf(d.class_, d.flags, src[d.lead..]) == Some(s) && 0 < s.size && d.lead + s.size <= |src|
    ensures s.rel > 0 ==> s.rel + 4 <= s.size && d.lead < d.lead + s.rel
    ensures CopyInstruction(t, src, delta).value.bytes ==
      if s.rel == 0 then src[..d.lead + s.size] else Adjusted(src, d.lead + s.rel, d.lead + s.size, delta)
  {
    d := Decode(t, src, NO_FLAGS, false).value;
    s := ShapeOf(d.class_, d.flags, src[d.lead..]).value;
  }

  lemma SizedKeepsMeaning(t: Table, src: seq<Byte>, address: int, delta: int)
    requires CopyInstruction(t, src, delta).Some? && Decode(t, src, NO_FLAGS, false).value.class_.Sized?
    ensures var c, m := CopyInstruction(t, src, delta).value, MeaningOf(t, src, address);
      && m.Some?
      && (MeaningOf(t, c.bytes, address + delta) == m <==> InReach(m.value, address + delta + |c.bytes|))
  {
    hide CopyInstruction, MeaningOf, Decode, ShapeOf, Adjusted, Bytes32, Signed32, Wrap32;
    var d, s := SizedCopies(t, src, delta);
    var b := CopyInstruction(t, src, delta).value.bytes;
    var n, at := d.lead + s.size, d.lead + s.rel;
    SizedMeans(t, src, address, d, s);
    if s.rel == 0 {
      assert b[..n] == src[..n];
    } else {
      AdjustedParts(src, at, n, delta);
      Int32RoundTrip(Signed32(src[at..at + 4]) - delta);
      WrapFits(Signed32(src[at..at + 4]) - delta);
    }
    SameShape(t, src, b, d);
    SizedMeans(t, b, address + delta, d, s);
  }

  lemma WrapFits(n: int)
    ensures Wrap32(n) == n <==> FitsInt32(n)
  {
  }

  lemma AdjustedParts(src: seq<Byte>, at: nat, n: nat, delta: int)
    requires at + 4 <= n <= |src|
    ensures var b := Adjusted(src, at, n, delta);
      |b| == n && b[..at] == src[..at] && b[at..at + 4] == Bytes32(Signed32(src[at..at + 4]) - delta) && b[at + 4..n] == src[at + 4..n]
  {
  }

  // A displacement stands behind everything that decides the size.
  lemma ShapeInside(c: Class, flags: Flags, src: seq<Byte>)
    requires c.Sized? && ShapeOf(c, flags, src).Some?
    ensures var s := ShapeOf(c, flags, src).value; s.rel > 0 && c.modOffset > 0 ==> s.rel == c.modOffset + 1
    ensures var s := ShapeOf(c, flags, src).value; c.modOffset > 0 ==> c.modOffset < s.size
    ensures var s := ShapeOf(c, flags, src).value;
      c.modOffset > 0 && HasSibFlag(src[c.modOffset]) ==> c.modOffset + 1 < s.size && s.rel == 0
  {
  }

  // Up to the displacement, or to the end when there is none, the same bytes have the same shape.
  lemma SameShapeOf(c: Class, flags: Flags, a: seq<Byte>, b: seq<Byte>)
    requires c.Sized? && ShapeOf(c, flags, a).Some?
    requires var s := ShapeOf(c, flags, a).value;
      s.size <= |b| && s.size <= |a| && forall i :: 0 <= i < (if s.rel > 0 then s.rel else s.size) ==> a[i] == b[i]
    ensures ShapeOf(c, flags, b) == ShapeOf(c, flags, a)
  {
    ShapeInside(c, flags, a);
  }

  lemma SameShape(t: Table, src: seq<Byte>, b: seq<Byte>, d: Decoded)
    requires Decode(t, src, NO_FLAGS, false) == Some(d) && d.class_.Sized? && ShapeOf(d.class_, d.flags, src[d.lead..]).Some?
    requires var s := ShapeOf(d.class_, d.flags, src[d.lead..]).value;
      var k := d.lead + if s.rel > 0 then s.rel else s.size;
      0 < s.size && d.lead + s.size <= |src| && d.lead + s.size <= |b| && d.lead < k && b[..k] == src[..k]
    ensures Decode(t, b, NO_FLAGS, false) == Some(d)
    ensures ShapeOf(d.class_, d.flags, b[d.lead..]) == ShapeOf(d.class_, d.flags, src[d.lead..])
  {
    hide Decode, ShapeOf;
    var s := ShapeOf(d.class_, d.flags, src[d.lead..]).value;
    var k := d.lead + if s.rel > 0 then s.rel else s.size;
    assert b[..d.lead + 1] == b[..k][..d.lead + 1] && src[..d.lead + 1] == src[..k][..d.lead + 1];
    DecodeSame(t, src, b, NO_FLAGS, false);
    forall i | 0 <= i < k - d.lead ensures b[d.lead..][i] == src[d.lead..][i] {
      assert b[..k][d.lead + i] == src[..k][d.lead + i];
    }
    SameShapeOf(d.class_, d.flags, src[d.lead..], b[d.lead..]);
  }

  // An instruction of this shape is copied, and has this length.
  lemma SizedLength(t: Table, src: seq<Byte>, d: Decoded, s: Shape)
    requires Decode(t, src, NO_FLAGS, false) == Some(d) && d.class_.Sized?
    requires ShapeOf(d.class_, d.flags, src[d.lead..]) == Some(s) && 0 < s.size && d.lead + s.size <= |src|
    ensures CopyInstruction(t, src, 0).Some? && LengthOf(t, src) == d.lead + s.size
  {
    hide Decode, ShapeOf, Adjusted;
  }

  // The long form that stands in for a short jump.
  function LongOpcode(op: Byte): seq<Byte> {
    if op == 0xEB then [0xE9] else [0x0F, LongForm(op)]
  }

  lemma ShortCopies(t: Table, src: seq<Byte>, address: int, delta: int) returns (d: Decoded, offset: int)
    requires KnowsJumps(t) && CopyInstruction(t, src, delta).Some? && Decode(t, src, NO_FLAGS, false).value.class_.ShortJump?
    ensures Decode(t, src, NO_FLAGS, false) == Some(d) && d.class_.ShortJump? && d.lead + 2 <= |src|
    ensures src[d.lead] == 0xEB || 0x70 <= src[d.lead] <= 0x7F
    ensures CopyInstruction(t, src, delta).value.bytes == src[..d.lead] + LongOpcode(src[d.lead]) + Bytes32(offset)
    ensures MeaningOf(t, src, address) == Some(Relative(src[..d.lead] + LongOpcode(src[d.lead]), [],
      address + delta + d.lead + |LongOpcode(src[d.lead])| + 4 + offset, true))
  {
    d := Decode(t, src, NO_FLAGS, false).value;
    ShortOpcode(t, src, NO_FLAGS, false);
    offset := Signed8(src[d.lead + 1]) - (delta + |LongOpcode(src[d.lead])| + 2);
  }

  lemma ShortKeepsMeaning(t: Table, src: seq<Byte>, address: int, delta: int)
    requires KnowsJumps(t) && CopyInstruction(t, src, delta).Some? && Decode(t, src, NO_FLAGS, false).value.class_.ShortJump?
    ensures var c, m := CopyInstruction(t, src, delta).value, MeaningOf(t, src, address);
      && m.Some?
      && (MeaningOf(t, c.bytes, address + delta) == m <==> InReach(m.value, address + delta + |c.bytes|))
  {
    hide CopyInstruction, MeaningOf, Decode, Bytes32, Wrap32, KnowsJumps;
    var d, offset := ShortCopies(t, src, address, delta);
    var b, op := CopyInstruction(t, src, delta).value.bytes, LongOpcode(src[d.lead]);
    var disp := Bytes32(offset);
    assert b[..d.lead] == src[..d.lead] && b[d.lead..] == op + disp;
    assert b[..d.lead + |op|] == src[..d.lead] + op && b[d.lead + |op|..d.lead + |op| + 4] == disp;
    DecodeInstead(t, src, b, NO_FLAGS, false);
    LongJumpDecodes(t, op, disp, d.flags);
    LongMeaning(t, b, address + delta, d.lead + |op| - 1, src[..d.lead] + op, offset);
    WrapFits(offset);
  }

  lemma {:induction false} ShortOpcode(t: Table, src: seq<Byte>, flags: Flags, two: bool)
    requires KnowsJumps(t) && Decode(t, src, flags, two).Some? && Decode(t, src, flags, two).value.class_.ShortJump?
    ensures var op := src[Decode(t, src, flags, two).value.lead]; op == 0xEB || 0x70 <= op <= 0x7F
    decreases |src|
  {
    var c := if two then t.two(src[0]) else t.one(src[0]);
    if !c.ShortJump? {
      var next := After(c, src[0], flags);
      ShortOpcode(t, src[1..], next, c.Escape?);
    }
  }

  lemma LongJumpDecodes(t: Table, op: seq<Byte>, disp: seq<Byte>, flags: Flags)
    requires KnowsJumps(t) && |disp| == 4
    requires op == [0xE9] || (|op| == 2 && op[0] == 0x0F && 0x80 <= op[1] <= 0x8F)
    ensures Decode(t, op + disp, flags, false) == Some(Decoded(|op| - 1, flags, Sized(5, 5, 0, 1, false, false)))
  {
    var b := op + disp;
    if |op| == 2 {
      assert b[1..][0] == op[1];
      assert Decode(t, b[1..], flags, true) == Some(Decoded(0, flags, Sized(5, 5, 0, 1, false, false)));
    }
  }

  lemma LongMeaning(t: Table, b: seq<Byte>, address: int, lead: nat, head: seq<Byte>, offset: int)
    requires |b| == lead + 5 && head == b[..lead + 1] && b[lead + 1..lead + 5] == Bytes32(offset)
    requires Decode(t, b, NO_FLAGS, false).Some?
    requires var d := Decode(t, b, NO_FLAGS, false).value; d.lead == lead && d.class_ == Sized(5, 5, 0, 1, false, false)
    ensures MeaningOf(t, b, address) == Some(Relative(head, [], address + lead + 5 + Wrap32(offset), true))
  {
    Int32RoundTrip(offset);
    assert b[lead + 5..lead + 5] == [];
  }

  // ---------- In the midst of other code ----------

  // The length of the instruction at the front.
  function LengthOf(t: Table, src: seq<Byte>): nat {
    match CopyInstruction(t, src, 0) case Some(c) => c.length case None => 0
  }

  lemma LengthIs(t: Table, src: seq<Byte>, delta: int)
    requires CopyInstruction(t, src, delta).Some?
    ensures LengthOf(t, src) == CopyInstruction(t, src, delta).value.length
  {
  }

  // What follows an instruction does not change what it says.
  lemma MeaningStays(t: Table, b: seq<Byte>, rest: seq<Byte>, address: int)
    requires CopyInstruction(t, b, 0).Some? && LengthOf(t, b) == |b|
    ensures MeaningOf(t, b + rest, address) == MeaningOf(t, b, address) && LengthOf(t, b + rest) == |b|
  {
    var d := Decode(t, b, NO_FLAGS, false).value;
    var all := b + rest;
    assert all[..d.lead + 1] == b[..d.lead + 1];
    DecodeSame(t, b, all, NO_FLAGS, false);
    if d.class_.ShortJump? {
      assert all[..d.lead] == b[..d.lead] && all[d.lead] == b[d.lead] && all[d.lead + 1] == b[d.lead + 1];
    } else {
      SizedStays(t, b, rest, address);
    }
  }

  lemma SizedStays(t: Table, b: seq<Byte>, rest: seq<Byte>, address: int)
    requires CopyInstruction(t, b, 0).Some? && LengthOf(t, b) == |b| && Decode(t, b, NO_FLAGS, false).value.class_.Sized?
    ensures MeaningOf(t, b + rest, address) == MeaningOf(t, b, address) && LengthOf(t, b + rest) == |b|
  {
    hide Decode, ShapeOf, CopyInstruction, MeaningOf, LengthOf, Adjusted, SizedMeaning;
    var d, s := SizedCopies(t, b, 0);
    var all, k := b + rest, d.lead + if s.rel > 0 then s.rel else s.size;
    SizedLength(t, b, d, s);
    assert all[..k] == b[..k];
    SameShape(t, b, all, d);
    SizedLength(t, all, d, s);
    SizedMeans(t, b, address, d, s);
    SizedMeans(t, all, address, d, s);
    SizedMeaningStays(b, rest, d, s, address);
  }

  lemma SizedMeaningStays(b: seq<Byte>, rest: seq<Byte>, d: Decoded, s: Shape, address: int)
    requires d.lead + s.size <= |b| && (s.rel > 0 ==> s.rel + 4 <= s.size)
    ensures SizedMeaning(b + rest, d, s, address) == SizedMeaning(b, d, s, address)
  {
    hide Signed32;
    var all, n, at := b + rest, d.lead + s.size, d.lead + s.rel;
    assert all[..n] == b[..n] && all[..at] == b[..at];
    if s.rel > 0 {
      assert all[at..at + 4] == b[at..at + 4] && all[at + 4..n] == b[at + 4..n];
    }
  }

  // A copy is an instruction of the length that the copy has.
  lemma CopyIsInstruction(t: Table, src: seq<Byte>, delta: int)
    requires KnowsJumps(t) && CopyInstruction(t, src, delta).Some?
    ensures var b := CopyInstruction(t, src, delta).value.bytes; CopyInstruction(t, b, 0).Some? && LengthOf(t, b) == |b|
  {
    hide Decode, ShapeOf, Adjusted, LengthOf, KnowsJumps;
    if Decode(t, src, NO_FLAGS, false).value.class_.ShortJump? {
      ShortCopyIsInstruction(t, src, delta);
    } else {
      SizedCopyIsInstruction(t, src, delta);
    }
  }

  lemma ShortCopyIsInstruction(t: Table, src: seq<Byte>, delta: int)
    requires KnowsJumps(t) && CopyInstruction(t, src, delta).Some? && Decode(t, src, NO_FLAGS, false).value.class_.ShortJump?
    ensures var b := CopyInstruction(t, src, delta).value.bytes; CopyInstruction(t, b, 0).Some? && LengthOf(t, b) == |b|
  {
    hide Decode, CopyInstruction, LengthOf, KnowsJumps, Bytes32, LongOpcode;
    var d, offset := ShortCopies(t, src, 0, delta);
    var b, op := CopyInstruction(t, src, delta).value.bytes, LongOpcode(src[d.lead]);
    LongOpcodeIs(src[d.lead]);
    assert b[..d.lead] == src[..d.lead] && b[d.lead..] == op + Bytes32(offset);
    DecodeInstead(t, src, b, NO_FLAGS, false);
    LongJumpDecodes(t, op, Bytes32(offset), d.flags);
    var long := Decoded(d.lead + |op| - 1, d.flags, Sized(5, 5, 0, 1, false, false));
    LongShape(d.flags, b[long.lead..]);
    SizedLength(t, b, long, Shape(5, 1));
  }

  lemma LongOpcodeIs(op: Byte)
    requires op == 0xEB || 0x70 <= op <= 0x7F
    ensures var l := LongOpcode(op); l == [0xE9] || (|l| == 2 && l[0] == 0x0F && 0x80 <= l[1] <= 0x8F)
  {
  }

  lemma LongShape(flags: Flags, src: seq<Byte>)
    ensures ShapeOf(Sized(5, 5, 0, 1, false, false), flags, src) == Some(Shape(5, 1))
  {
  }

  lemma SizedCopyIsInstruction(t: Table, src: seq<Byte>, delta: int)
    requires CopyInstruction(t, src, delta).Some? && Decode(t, src, NO_FLAGS, false).value.class_.Sized?
    ensures var b := CopyInstruction(t, src, delta).value.bytes; CopyInstruction(t, b, 0).Some? && LengthOf(t, b) == |b|
  {
    hide Decode, ShapeOf, CopyInstruction, Adjusted, LengthOf;
    var d, s := SizedCopies(t, src, delta);
    var b, n := CopyInstruction(t, src, delta).value.bytes, d.lead + s.size;
    if s.rel > 0 {
      AdjustedParts(src, d.lead + s.rel, n, delta);
    } else {
      assert b[..n] == src[..n];
    }
    SameShape(t, src, b, d);
    SizedLength(t, b, d, s);
  }
}
