// The few ARM64 instructions that branch relocation is about: how they are encoded, and what they do.
module Arm64Machine {
  import opened CStrings

  // An instruction, in the low 32 bits. Fields of instructions are bv64 as well.
  type Word = bv64
  type Address = bv64

  // ---------- The encodings, by the architecture manual ----------

  datatype Insn =
    | Branch(link: bool, offset: bv64)
    | BranchIf(condition: bv64, offset: bv64)
    | CompareBranch(wide: bool, nonZero: bool, rt: bv64, offset: bv64)
    | TestBranch(bit: bv64, nonZero: bool, rt: bv64, offset: bv64)
    | BranchTo(link: bool, rn: bv64)
    | MoveWide(wide: bool, kind: bv64, rd: bv64, imm: bv64, shift: bv64)
    | Other

  // Fields that hold a number of words, as a number of bytes with its sign extended.
  function Times4(a: bv64): bv64 {
    a << 2
  }

  function Fill26(field: Word): bv64 {
    field | 0xFFFF_FFFF_FC00_0000
  }

  function Offset26(field: Word): bv64 {
    if field & 0x200_0000 != 0 then Times4(Fill26(field)) else Times4(field)
  }

  function Fill19(field: Word): bv64 {
    field | 0xFFFF_FFFF_FFF8_0000
  }

  function Offset19(field: Word): bv64 {
    if field & 0x4_0000 != 0 then Times4(Fill19(field)) else Times4(field)
  }

  function Fill14(field: Word): bv64 {
    field | 0xFFFF_FFFF_FFFF_C000
  }

  function Offset14(field: Word): bv64 {
    if field & 0x2000 != 0 then Times4(Fill14(field)) else Times4(field)
  }

  function Decode(w: Word): Insn {
    if w & 0x7C00_0000 == 0x1400_0000 then Branch(w & 0x8000_0000 != 0, Offset26(w & 0x3FF_FFFF))
    else if w & 0xFF00_0010 == 0x5400_0000 then BranchIf(w & 0xF, Offset19((w >> 5) & 0x7_FFFF))
    else if w & 0x7E00_0000 == 0x3400_0000 then
      CompareBranch(w & 0x8000_0000 != 0, w & 0x100_0000 != 0, w & 0x1F, Offset19((w >> 5) & 0x7_FFFF))
    else if w & 0x7E00_0000 == 0x3600_0000 then
      TestBranch(((w >> 26) & 0x20) | ((w >> 19) & 0x1F), w & 0x100_0000 != 0, w & 0x1F, Offset14((w >> 5) & 0x3FFF))
    else if w & 0xFFDF_FC1F == 0xD61F_0000 then BranchTo(w & 0x20_0000 != 0, (w >> 5) & 0x1F)
    else if w & 0x1F80_0000 == 0x1280_0000 then
      MoveWide(w & 0x8000_0000 != 0, (w >> 29) & 3, w & 0x1F, (w >> 5) & 0xFFFF, (w >> 21) & 3)
    else Other
  }

  // ---------- What they do ----------

  datatype Flags = Flags(n: bool, z: bool, c: bool, v: bool)

  // The registers that a relocated branch may write stand apart from the others.
  datatype Cpu = Cpu(pc: Address, x17: bv64, lr: bv64, others: bv64 -> bv64, flags: Flags)

  function Register(cpu: Cpu, r: bv64): bv64 {
    if r == 17 then cpu.x17 else if r == 30 then cpu.lr else if r == 31 then 0 else cpu.others(r)
  }

  predicate Holds(condition: bv64, f: Flags) {
    var c := condition >> 1;
    var b := if c == 0 then f.z else if c == 1 then f.c else if c == 2 then f.n else if c == 3 then f.v
      else if c == 4 then f.c && !f.z else if c == 5 then f.n == f.v else if c == 6 then f.n == f.v && !f.z else true;
    if condition & 1 == 1 && c != 7 then !b else b
  }

  predicate IsNonZero(v: bv64, wide: bool) {
    (if wide then v else v & 0xFFFF_FFFF) != 0
  }

  predicate BitSet(v: bv64, bit: bv64) {
    (v >> (bit & 0x3F)) & 1 != 0
  }

  // Whether the branch is taken.
  predicate Taken(i: Insn, cpu: Cpu) {
    match i
    case Branch(_, _) => true
    case BranchIf(condition, _) => Holds(condition, cpu.flags)
    case CompareBranch(wide, nonZero, rt, _) => IsNonZero(Register(cpu, rt), wide) == nonZero
    case TestBranch(bit, nonZero, rt, _) => BitSet(Register(cpu, rt), bit) == nonZero
    case _ => false
  }

  function Shifted(imm: bv64, shift: bv64): bv64 {
    if shift == 0 then imm else if shift == 1 then imm << 16 else if shift == 2 then imm << 32 else imm << 48
  }

  // MOVN, MOVZ and MOVK, into x17.
  function Moved(wide: bool, kind: bv64, imm: bv64, shift: bv64, was: bv64): (r: Option<bv64>) {
    var v := Shifted(imm, shift);
    if kind == 1 || (!wide && shift >= 2) then None
    else
      var r := if kind == 0 then !v else if kind == 2 then v else (was & !Shifted(0xFFFF, shift)) | v;
      Some(if wide then r else r & 0xFFFF_FFFF)
  }

  // The address of the next instruction.
  function After(a: Address): Address {
    a + 4
  }

  function Plus(a: Address, offset: bv64): Address {
    a + offset
  }

  function Exec(w: Word, cpu: Cpu): Option<Cpu> {
    match Decode(w)
    case Branch(link, offset) => Some(cpu.(pc := Plus(cpu.pc, offset), lr := if link then After(cpu.pc) else cpu.lr))
    case BranchIf(_, offset) => Some(cpu.(pc := if Taken(Decode(w), cpu) then Plus(cpu.pc, offset) else After(cpu.pc)))
    case CompareBranch(_, _, _, offset) => Some(cpu.(pc := if Taken(Decode(w), cpu) then Plus(cpu.pc, offset) else After(cpu.pc)))
    case TestBranch(_, _, _, offset) => Some(cpu.(pc := if Taken(Decode(w), cpu) then Plus(cpu.pc, offset) else After(cpu.pc)))
    case BranchTo(link, rn) => Some(cpu.(pc := Register(cpu, rn), lr := if link then After(cpu.pc) else cpu.lr))
    case MoveWide(wide, kind, rd, imm, shift) =>
      var v := if rd == 17 then Moved(wide, kind, imm, shift, cpu.x17) else None;
      if v == None then None else Some(cpu.(pc := After(cpu.pc), x17 := v.value))
    case Other => None
  }

  // Running these words at this address, until control leaves them: each goes on to the next one or
  // over it, or is left by a branch.
  function Run(ws: seq<Word>, a: Address, cpu: Cpu): Option<Cpu>
    decreases |ws|
  {
    if ws == [] then Some(cpu)
    else
      match Exec(ws[0], cpu)
      case None => None
      case Some(next) =>
        if next.pc == After(a) then Run(ws[1..], After(a), next)
        else if next.pc == After(After(a)) && |ws| > 1 then Run(ws[2..], After(After(a)), next)
        else Some(next)
  }
}
