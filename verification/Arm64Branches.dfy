// Copying an ARM64 branch to another address, at any distance.
module Arm64Branches {
  import opened Arm64Machine
  import opened Arm64Relocation
  import opened CStrings

  // ---------- The copies ----------

  // From one address to another, as a signed number.
  function Distance(to: Address, from: Address): bv64 {
    to - from
  }

  predicate Aligned(a: bv64) {
    a & 3 == 0
  }

  // The condition, or the kind of test, that is the opposite.
  function Inverse(b: bv64): bv64 {
    b ^ 1
  }

  // From 14 on a condition always holds.
  predicate HasOpposite(condition: bv64) {
    condition < 14
  }

  // The two longer forms of a conditional branch: over a direct branch, or over one through x17.
  function BranchOver(skip: Word, target: Address, dest: Address): seq<Word> {
    var delta := Distance(target, After(dest));
    if Within(delta, 0x800_0000) then [skip, AssembleB(false, delta)]
    else MovImmediate(17, target) + [skip, AssembleBr(17, false)]
  }

  function CopyBcc(condition: bv64, target: Address, dest: Address): seq<Word> {
    if Within(Distance(target, dest), 0x10_0000) then [AssembleBcc(condition, Distance(target, dest))]
    else BranchOver(AssembleBcc(Inverse(condition), 8), target, dest)
  }

  function CopyB(link: bool, target: Address, dest: Address): seq<Word> {
    if Within(Distance(target, dest), 0x800_0000) then [AssembleB(link, Distance(target, dest))]
    else MovImmediate(17, target) + [AssembleBr(17, link)]
  }

  function CopyCbz(size: bv64, nz: bv64, rt: bv64, target: Address, dest: Address): seq<Word> {
    if Within(Distance(target, dest), 0x10_0000) then [AssembleCbz(size, nz, rt, Distance(target, dest))]
    else BranchOver(AssembleCbz(size, Inverse(nz), rt, 8), target, dest)
  }

  function CopyTbz(size: bv64, nz: bv64, rt: bv64, bit: bv64, target: Address, dest: Address): seq<Word> {
    if Within(Distance(target, dest), 0x2000) then [AssembleTbz(size, nz, rt, bit, Distance(target, dest))]
    else BranchOver(AssembleTbz(size, Inverse(nz), rt, bit, 8), target, dest)
  }

  // The branches that CopyInstruction() recognizes; addresses and literals in the code are not part
  // of this model, and everything else is copied as it is.
  function Copy(w: Word, src: Address, dest: Address): (ws: Option<seq<Word>>) {
    if w & 0x1F00_0000 == 0x1000_0000 then None
    else if w & 0xFF00_0010 == 0x5400_0000 then Some(CopyBcc(w & 0xF, Plus(src, Offset19((w >> 5) & 0x7_FFFF)), dest))
    else if w & 0x7C00_0000 == 0x1400_0000 then Some(CopyB(w & 0x8000_0000 != 0, Plus(src, Offset26(w & 0x3FF_FFFF)), dest))
    else if w & 0x7E00_0000 == 0x3400_0000 then
      Some(CopyCbz((w >> 31) & 1, (w >> 24) & 1, w & 0x1F, Plus(src, Offset19((w >> 5) & 0x7_FFFF)), dest))
    else if w & 0x7E00_0000 == 0x3600_0000 then
      Some(CopyTbz((w >> 31) & 1, (w >> 24) & 1, w & 0x1F, (w >> 19) & 0x1F, Plus(src, Offset14((w >> 5) & 0x3FFF)), dest))
    else if w & 0x3B00_0000 == 0x1800_0000 then None
    else Some([w])
  }

  // ---------- What runs ----------

  // Conditional branches over one word.
  predicate IsSkip(w: Word) {
    var i := Decode(w);
    (i.BranchIf? || i.CompareBranch? || i.TestBranch?) && i.offset == 8
  }

  // Where a branch stands does not decide whether it is taken.
  lemma TakenAnywhere(i: Insn, cpu: Cpu, pc: Address)
    ensures Taken(i, cpu.(pc := pc)) == Taken(i, cpu)
  {
    hide Holds, Register, BitSet, IsNonZero;
    if i.CompareBranch? || i.TestBranch? {
      RegisterAnywhere(i.rt, cpu, pc);
    }
  }

  lemma RegisterAnywhere(r: bv64, cpu: Cpu, pc: Address)
    ensures Register(cpu.(pc := pc), r) == Register(cpu, r)
  {
  }

  lemma NextDiffers(a: Address)
    ensures After(a) != a && After(After(a)) != After(a) && Plus(a, 8) == After(After(a))
  {
  }

  lemma ThereAndBack(from: Address, to: Address)
    ensures Plus(from, Distance(to, from)) == to
  {
    PlusMinus(from, to);
  }

  lemma PlusMinus(from: bv64, to: bv64)
    ensures Plus(from, to - from) == to
  {
  }

  lemma ExecSkip(w: Word, cpu: Cpu)
    requires IsSkip(w)
    ensures Exec(w, cpu) == Some(cpu.(pc := if Taken(Decode(w), cpu) then After(After(cpu.pc)) else After(cpu.pc)))
  {
    hide Decode, Taken, After, Plus;
    NextDiffers(cpu.pc);
  }

  lemma RunOne(w: Word, a: Address, cpu: Cpu)
    ensures Run([w], a, cpu) == Exec(w, cpu)
  {
    hide Exec, After;
    assert [w][1..] == [];
  }

  lemma RunSkip(skip: Word, w: Word, a: Address, cpu: Cpu)
    requires IsSkip(skip) && cpu.pc == a
    ensures Run([skip, w], a, cpu) ==
      if Taken(Decode(skip), cpu) then Some(cpu.(pc := After(After(a)))) else Exec(w, cpu.(pc := After(a)))
  {
    hide Exec, IsSkip, Taken, Decode, After;
    ExecSkip(skip, cpu);
    NextDiffers(a);
    RunOne(w, After(a), cpu.(pc := After(a)));
    assert [skip, w][1..] == [w] && [skip, w][2..] == [];
  }

  lemma PastAdds(a: Address, n: nat, m: nat)
    ensures Past(Past(a, n), m) == Past(a, n + m)
    decreases n
  {
    hide After;
  }

  lemma ExecB(link: bool, target: Address, cpu: Cpu)
    requires Aligned(Distance(target, cpu.pc)) && Within(Distance(target, cpu.pc), 0x800_0000)
    ensures Exec(AssembleB(link, Distance(target, cpu.pc)), cpu)
         == Some(cpu.(pc := target, lr := if link then After(cpu.pc) else cpu.lr))
  {
    hide Decode, AssembleB, Within, After, Distance, Plus;
    BDecodes(link, Distance(target, cpu.pc));
    ThereAndBack(cpu.pc, target);
  }

  lemma ExecBr(link: bool, cpu: Cpu)
    ensures Exec(AssembleBr(17, link), cpu) == Some(cpu.(pc := cpu.x17, lr := if link then After(cpu.pc) else cpu.lr))
  {
    hide Decode, AssembleBr, After;
    BrDecodes(17, link);
  }

  // Whether the branch is too far away for a direct one.
  predicate IsFar(target: Address, dest: Address) {
    !Within(Distance(target, After(dest)), 0x800_0000)
  }

  // Where the longer forms go: behind them when they skip, and to the target otherwise.
  lemma BranchOverRuns(skip: Word, target: Address, dest: Address, cpu: Cpu)
    requires IsSkip(skip) && cpu.pc == dest && Aligned(target) && Aligned(dest)
    ensures var ws := BranchOver(skip, target, dest); var c := if IsFar(target, dest) then cpu.(x17 := target) else cpu;
      Run(ws, dest, cpu) == Some(c.(pc := if Taken(Decode(skip), c) then Past(dest, |ws|) else target))
  {
    hide Exec, IsSkip, Taken, Decode, After, Run, AssembleB, AssembleBr, MovImmediate, Within, Distance, Aligned;
    if IsFar(target, dest) {
      var moves, tail := MovImmediate(17, target), [skip, AssembleBr(17, false)];
      var end := Past(dest, |moves|);
      var c := cpu.(x17 := target);
      var there := c.(pc := end);
      MovImmediateRuns(target, tail, dest, cpu);
      RunSkip(skip, AssembleBr(17, false), end, there);
      TakenAnywhere(Decode(skip), c, end);
      ExecBr(false, there.(pc := After(end)));
      TwoPast(end);
      PastAdds(dest, |moves|, 2);
    } else {
      RunSkip(skip, AssembleB(false, Distance(target, After(dest))), dest, cpu);
      AlignedDistance(target, dest);
      ExecB(false, target, cpu.(pc := After(dest)));
      TwoPast(dest);
    }
  }

  lemma TwoPast(a: Address)
    ensures Past(a, 0) == a && Past(a, 1) == After(a) && Past(a, 2) == After(After(a))
  {
    hide After;
    assert Past(After(a), 0) == After(a);
    assert Past(After(After(a)), 0) == After(After(a));
    assert Past(After(a), 1) == After(After(a));
  }

  lemma AlignedDistance(target: Address, dest: Address)
    requires Aligned(target) && Aligned(dest)
    ensures Aligned(Distance(target, After(dest))) && Aligned(Distance(target, dest))
  {
  }

  // ---------- Each kind ----------

  // Control ends at the target, or behind the copy.
  function Ends(taken: bool, target: Address, dest: Address, n: nat, c: Cpu): Cpu {
    c.(pc := if taken then target else Past(dest, n))
  }

  // The processor as it is after the moves of the longest form.
  function Loaded(far: bool, target: Address, cpu: Cpu): Cpu {
    if far then cpu.(x17 := target) else cpu
  }

  lemma InverseHolds(condition: bv64, f: Flags)
    requires condition < 16
    ensures Inverse(condition) < 16
    ensures Holds(Inverse(condition), f) == if HasOpposite(condition) then !Holds(condition, f) else Holds(condition, f)
    ensures !HasOpposite(condition) ==> Holds(condition, f)
  {
    assert Inverse(condition) >> 1 == condition >> 1;
  }

  lemma LowEight()
    ensures 8 == 8 && Aligned(8) && Within(8, 0x10_0000) && Within(8, 0x2000)
  {
  }

  lemma NearRuns(w: Word, target: Address, dest: Address, cpu: Cpu)
    requires var i := Decode(w); (i.BranchIf? || i.CompareBranch? || i.TestBranch?) && i.offset == Distance(target, dest)
    requires cpu.pc == dest
    ensures Run([w], dest, cpu) == Some(Ends(Taken(Decode(w), cpu), target, dest, 1, cpu))
  {
    hide Decode, Taken, After, Run, Plus, Distance;
    RunOne(w, dest, cpu);
    ThereAndBack(dest, target);
    TwoPast(dest);
  }

  predicate IsCondition(condition: bv64) {
    condition < 16
  }

  lemma InverseDecodes(condition: bv64)
    requires IsCondition(condition)
    ensures Decode(AssembleBcc(Inverse(condition), 8)) == BranchIf(Inverse(condition), 8)
  {
    hide Decode, AssembleBcc, Inverse, Holds, Within;
    InverseHolds(condition, Flags(false, false, false, false));
    LowEight();
    BccDecodes(Inverse(condition), 8);
  }

  // A conditional branch goes where it should, unless its condition is "always" and it is too far
  // away for its own kind: then the longer forms pass over the branch.
  lemma CopyBccRuns(condition: bv64, target: Address, dest: Address, cpu: Cpu)
    requires IsCondition(condition) && cpu.pc == dest && Aligned(target) && Aligned(dest)
    ensures var ws, near := CopyBcc(condition, target, dest), Within(Distance(target, dest), 0x10_0000);
      Run(ws, dest, cpu) == Some(Ends(Holds(condition, cpu.flags) && (near || HasOpposite(condition)), target, dest, |ws|,
                                      Loaded(!near && IsFar(target, dest), target, cpu)))
  {
    hide Holds, After, Run, Plus, Distance, Aligned, Within, AssembleBcc, Decode, BranchOver, Exec, Inverse, HasOpposite, IsFar,
      IsCondition;
    if Within(Distance(target, dest), 0x10_0000) {
      NearDecodes(condition, target, dest);
      NearRuns(AssembleBcc(condition, Distance(target, dest)), target, dest, cpu);
    } else {
      InverseDecodes(condition);
      ConditionHolds(condition, cpu.flags);
      BranchOverRuns(AssembleBcc(Inverse(condition), 8), target, dest, cpu);
    }
  }

  lemma NearDecodes(condition: bv64, target: Address, dest: Address)
    requires IsCondition(condition) && Aligned(target) && Aligned(dest) && Within(Distance(target, dest), 0x10_0000)
    ensures Decode(AssembleBcc(condition, Distance(target, dest))) == BranchIf(condition, Distance(target, dest))
  {
    hide Decode, AssembleBcc, Distance, Within;
    AlignedDistance(target, dest);
    IsAligned(Distance(target, dest));
    BccDecodes(condition, Distance(target, dest));
  }

  lemma ConditionHolds(condition: bv64, f: Flags)
    requires IsCondition(condition)
    ensures Holds(Inverse(condition), f) == if HasOpposite(condition) then !Holds(condition, f) else Holds(condition, f)
    ensures !HasOpposite(condition) ==> Holds(condition, f)
  {
    hide Holds, Inverse, HasOpposite;
    InverseHolds(condition, f);
  }

  lemma IsAligned(a: bv64)
    requires Aligned(a)
    ensures a & 3 == 0
  {
  }

  // The number of a register.
  predicate IsRegister(r: bv64) {
    r < 32
  }

  // One-bit fields, and the two parts of the number of a bit.
  function One(b: bool): bv64 {
    if b then 1 else 0
  }

  function HighPart(bit: bv64): bv64 {
    bit >> 5
  }

  function LowPart(bit: bv64): bv64 {
    bit & 0x1F
  }

  lemma OneIs(b: bool)
    ensures One(b) < 2 && Inverse(One(b)) == One(!b) && (One(b) == 1) == b
  {
  }

  // A test of a register sees what the moves have left in it.
  lemma CopyCbzRuns(wide: bool, nonZero: bool, rt: bv64, target: Address, dest: Address, cpu: Cpu)
    requires IsRegister(rt) && cpu.pc == dest && Aligned(target) && Aligned(dest)
    ensures var ws, near := CopyCbz(One(wide), One(nonZero), rt, target, dest), Within(Distance(target, dest), 0x10_0000);
      var c := Loaded(!near && IsFar(target, dest), target, cpu);
      Run(ws, dest, cpu) == Some(Ends(IsNonZero(Register(c, rt), wide) == nonZero, target, dest, |ws|, c))
  {
    hide *;
    AlignedDistance(target, dest);
    if Within(Distance(target, dest), 0x10_0000) {
      CbzNearRuns(wide, nonZero, rt, target, dest, cpu);
    } else {
      CbzFarRuns(wide, nonZero, rt, target, dest, cpu);
    }
  }

  lemma CbzNearRuns(wide: bool, nonZero: bool, rt: bv64, target: Address, dest: Address, cpu: Cpu)
    requires IsRegister(rt) && cpu.pc == dest && Aligned(target) && Aligned(dest) && Within(Distance(target, dest), 0x10_0000)
    ensures var ws := CopyCbz(One(wide), One(nonZero), rt, target, dest);
      var c := Loaded(false, target, cpu);
      Run(ws, dest, cpu) == Some(Ends(IsNonZero(Register(c, rt), wide) == nonZero, target, dest, |ws|, c))
  {
    hide Register, IsNonZero, After, Run, Plus, Distance, Aligned, Within, AssembleCbz, Decode, BranchOver, Exec, Inverse,
      IsFar, One;
    AlignedDistance(target, dest);
    IsAligned(Distance(target, dest));
    OneIs(wide);
    OneIs(nonZero);
    CbzDecodes(One(wide), One(nonZero), rt, Distance(target, dest));
    NearRuns(AssembleCbz(One(wide), One(nonZero), rt, Distance(target, dest)), target, dest, cpu);
  }

  lemma CbzFarRuns(wide: bool, nonZero: bool, rt: bv64, target: Address, dest: Address, cpu: Cpu)
    requires IsRegister(rt) && cpu.pc == dest && Aligned(target) && Aligned(dest) && !Within(Distance(target, dest), 0x10_0000)
    ensures var ws := CopyCbz(One(wide), One(nonZero), rt, target, dest);
      var c := Loaded(IsFar(target, dest), target, cpu);
      Run(ws, dest, cpu) == Some(Ends(IsNonZero(Register(c, rt), wide) == nonZero, target, dest, |ws|, c))
  {
    hide Register, IsNonZero, After, Run, Plus, Distance, Aligned, Within, AssembleCbz, Decode, BranchOver, Exec, Inverse,
      IsFar, One;
    OneIs(wide);
    OneIs(nonZero);
    OneIs(!nonZero);
    LowEight();
    CbzDecodes(One(wide), One(!nonZero), rt, 8);
    BranchOverRuns(AssembleCbz(One(wide), One(!nonZero), rt, 8), target, dest, cpu);
  }

  // The number of a bit.
  predicate IsBit(bit: bv64) {
    bit < 64
  }

  lemma BitParts(bit: bv64)
    requires IsBit(bit)
    ensures HighPart(bit) < 2 && LowPart(bit) < 32 && (HighPart(bit) << 5) | LowPart(bit) == bit
  {
  }

  lemma TbzDecodesBit(bit: bv64, nonZero: bool, rt: bv64, delta: bv64)
    requires IsBit(bit) && IsRegister(rt) && Aligned(delta) && Within(delta, 0x2000)
    ensures Decode(AssembleTbz(HighPart(bit), One(nonZero), rt, LowPart(bit), delta)) == TestBranch(bit, nonZero, rt, delta)
  {
    hide Decode, AssembleTbz, HighPart, LowPart, One, Within;
    BitParts(bit);
    OneIs(nonZero);
    WithinMore(delta);
    TbzDecodes(HighPart(bit), One(nonZero), rt, LowPart(bit), delta);
  }

  lemma CopyTbzRuns(bit: bv64, nonZero: bool, rt: bv64, target: Address, dest: Address, cpu: Cpu)
    requires IsBit(bit) && IsRegister(rt) && cpu.pc == dest && Aligned(target) && Aligned(dest)
    ensures var ws := CopyTbz(HighPart(bit), One(nonZero), rt, LowPart(bit), target, dest);
      var near := Within(Distance(target, dest), 0x2000);
      var c := Loaded(!near && IsFar(target, dest), target, cpu);
      Run(ws, dest, cpu) == Some(Ends(BitSet(Register(c, rt), bit) == nonZero, target, dest, |ws|, c))
  {
    hide *;
    if Within(Distance(target, dest), 0x2000) {
      TbzNearRuns(bit, nonZero, rt, target, dest, cpu);
    } else {
      TbzFarRuns(bit, nonZero, rt, target, dest, cpu);
    }
  }

  lemma TbzNearRuns(bit: bv64, nonZero: bool, rt: bv64, target: Address, dest: Address, cpu: Cpu)
    requires IsBit(bit) && IsRegister(rt) && cpu.pc == dest && Aligned(target) && Aligned(dest)
    requires Within(Distance(target, dest), 0x2000)
    ensures var ws := CopyTbz(HighPart(bit), One(nonZero), rt, LowPart(bit), target, dest);
      var c := Loaded(false, target, cpu);
      Run(ws, dest, cpu) == Some(Ends(BitSet(Register(c, rt), bit) == nonZero, target, dest, |ws|, c))
  {
    hide Register, BitSet, After, Run, Plus, Distance, Aligned, Within, AssembleTbz, Decode, BranchOver, Exec, Inverse,
      IsFar, One, HighPart, LowPart, IsBit;
    AlignedDistance(target, dest);
    TbzDecodesBit(bit, nonZero, rt, Distance(target, dest));
    NearRuns(AssembleTbz(HighPart(bit), One(nonZero), rt, LowPart(bit), Distance(target, dest)), target, dest, cpu);
  }

  lemma TbzFarRuns(bit: bv64, nonZero: bool, rt: bv64, target: Address, dest: Address, cpu: Cpu)
    requires IsBit(bit) && IsRegister(rt) && cpu.pc == dest && Aligned(target) && Aligned(dest)
    requires !Within(Distance(target, dest), 0x2000)
    ensures var ws := CopyTbz(HighPart(bit), One(nonZero), rt, LowPart(bit), target, dest);
      var c := Loaded(IsFar(target, dest), target, cpu);
      Run(ws, dest, cpu) == Some(Ends(BitSet(Register(c, rt), bit) == nonZero, target, dest, |ws|, c))
  {
    hide Register, BitSet, After, Run, Plus, Distance, Aligned, Within, AssembleTbz, Decode, BranchOver, Exec, Inverse,
      IsFar, One, HighPart, LowPart, IsBit;
    OneIs(nonZero);
    LowEight();
    TbzDecodesBit(bit, !nonZero, rt, 8);
    BranchOverRuns(AssembleTbz(HighPart(bit), One(!nonZero), rt, LowPart(bit), 8), target, dest, cpu);
  }

  lemma WithinMore(d: bv64)
    requires Within(d, 0x2000)
    ensures Within(d, 0x8000)
  {
  }

  // The return address of a branch with link is the place behind the copy.
  lemma CopyBRuns(link: bool, target: Address, dest: Address, cpu: Cpu)
    requires cpu.pc == dest && Aligned(target) && Aligned(dest)
    ensures var ws := CopyB(link, target, dest); var far := !Within(Distance(target, dest), 0x800_0000);
      Run(ws, dest, cpu) == Some(Loaded(far, target, cpu).(pc := target, lr := if link then Past(dest, |ws|) else cpu.lr))
  {
    hide After, Run, Distance, Aligned, Within, AssembleB, AssembleBr, Decode, MovImmediate, Exec;
    TwoPast(dest);
    if Within(Distance(target, dest), 0x800_0000) {
      AlignedDistance(target, dest);
      ExecB(link, target, cpu);
      RunOne(AssembleB(link, Distance(target, dest)), dest, cpu);
    } else {
      var moves := MovImmediate(17, target);
      var end := Past(dest, |moves|);
      MovImmediateRuns(target, [AssembleBr(17, link)], dest, cpu);
      ExecBr(link, cpu.(pc := end, x17 := target));
      RunOne(AssembleBr(17, link), end, cpu.(pc := end, x17 := target));
      TwoPast(end);
      PastAdds(dest, |moves|, 1);
    }
  }

  // ---------- The result ----------

  ghost predicate IsBranch(i: Insn) {
    i.Branch? || i.BranchIf? || i.CompareBranch? || i.TestBranch?
  }

  // Where a branch goes when it is taken.
  function TargetOf(w: Word, src: Address): Address
    requires IsBranch(Decode(w))
  {
    Plus(src, Decode(w).offset)
  }

  // Which branch is which, and the fields that are single bits.
  lemma ClassOfB(w: Word)
    requires w & 0x7C00_0000 == 0x1400_0000
    ensures w & 0x1F00_0000 != 0x1000_0000 && w & 0xFF00_0010 != 0x5400_0000
  {
  }

  lemma ClassOfBcc(w: Word)
    requires w & 0xFF00_0010 == 0x5400_0000
    ensures w & 0x1F00_0000 != 0x1000_0000 && w & 0x7C00_0000 != 0x1400_0000
  {
  }

  lemma ClassOfCbz(w: Word)
    requires w & 0x7E00_0000 == 0x3400_0000
    ensures w & 0x1F00_0000 != 0x1000_0000
  {
  }

  lemma ClassOfTbz(w: Word)
    requires w & 0x7E00_0000 == 0x3600_0000
    ensures w & 0x1F00_0000 != 0x1000_0000 && w & 0x7E00_0000 != 0x3400_0000
  {
  }

  lemma SizeField(w: Word)
    ensures (w >> 31) & 1 == if w & 0x8000_0000 != 0 then 1 else 0
  {
  }

  lemma NzField(w: Word)
    ensures (w >> 24) & 1 == if w & 0x100_0000 != 0 then 1 else 0
  {
  }

  lemma BitField(w: Word)
    ensures var bit := ((w >> 26) & 0x20) | ((w >> 19) & 0x1F); bit >> 5 == (w >> 31) & 1 && bit & 0x1F == (w >> 19) & 0x1F
  {
  }

  lemma CopyOfDirect(w: Word, src: Address, dest: Address)
    requires Decode(w).Branch? || Decode(w).BranchIf?
    ensures var i, target := Decode(w), TargetOf(w, src);
      Copy(w, src, dest) == Some(if i.Branch? then CopyB(i.link, target, dest) else CopyBcc(i.condition, target, dest))
  {
    hide Offset14, Offset19, Offset26, CopyBcc, CopyB, CopyCbz, CopyTbz, Plus;
    if w & 0x7C00_0000 == 0x1400_0000 {
      ClassOfB(w);
    } else {
      ClassOfBcc(w);
    }
  }

  lemma CopyOfCbz(w: Word, src: Address, dest: Address)
    requires Decode(w).CompareBranch?
    ensures var i := Decode(w);
      Copy(w, src, dest) == Some(CopyCbz(One(i.wide), One(i.nonZero), i.rt, TargetOf(w, src), dest))
  {
    hide Offset14, Offset19, Offset26, CopyBcc, CopyB, CopyCbz, CopyTbz, Plus;
    ClassOfCbz(w);
    SizeField(w);
    NzField(w);
  }

  lemma CopyOfTbz(w: Word, src: Address, dest: Address)
    requires Decode(w).TestBranch?
    ensures var i := Decode(w);
      Copy(w, src, dest) == Some(CopyTbz(HighPart(i.bit), One(i.nonZero), i.rt, LowPart(i.bit), TargetOf(w, src), dest))
  {
    hide Offset14, Offset19, Offset26, CopyBcc, CopyB, CopyCbz, CopyTbz, Plus;
    ClassOfTbz(w);
    BitField(w);
    NzField(w);
  }

  // The copy of a branch does what the branch does: it goes to the same target, or on behind the
  // copy, where a call also returns to, and leaves the other registers and the flags as they are.
  ghost predicate GoesRight(w: Word, src: Address, dest: Address, cpu: Cpu)
    requires IsBranch(Decode(w))
  {
    var c := Copy(w, src, dest);
    c.Some? &&
    var behind, r := Past(dest, |c.value|), Run(c.value, dest, cpu.(pc := dest));
    && r.Some? && (r.value.x17 == cpu.x17 || r.value.x17 == TargetOf(w, src))
    && r.value == cpu.(pc := if Taken(Decode(w), cpu) then TargetOf(w, src) else behind, x17 := r.value.x17,
                       lr := if Decode(w).Branch? && Decode(w).link then behind else cpu.lr)
  }

  // When it does, whatever the registers hold: a condition that always holds must not be too far
  // from its target, and a test of x17 must do without the moves.
  predicate Keeps(w: Word, src: Address, dest: Address)
    requires IsBranch(Decode(w))
  {
    var i, target := Decode(w), TargetOf(w, src);
    if i.BranchIf? then Within(Distance(target, dest), 0x10_0000) || HasOpposite(i.condition)
    else if i.CompareBranch? then Within(Distance(target, dest), 0x10_0000) || !IsFar(target, dest) || i.rt != 17
    else if i.TestBranch? then Within(Distance(target, dest), 0x2000) || !IsFar(target, dest) || i.rt != 17
    else true
  }

  lemma FieldsFit(w: Word)
    ensures var i := Decode(w);
      && (i.BranchIf? ==> IsCondition(i.condition))
      && (i.CompareBranch? ==> IsRegister(i.rt))
      && (i.TestBranch? ==> IsRegister(i.rt) && IsBit(i.bit))
  {
    hide Offset14, Offset19, Offset26;
    SmallFields(w);
  }

  lemma SmallFields(w: Word)
    ensures w & 0xF < 16 && w & 0x1F < 32
    ensures ((w >> 26) & 0x20) | ((w >> 19) & 0x1F) < 64
  {
  }

  lemma TargetAligned(w: Word, src: Address)
    requires IsBranch(Decode(w)) && Aligned(src)
    ensures Aligned(TargetOf(w, src))
  {
    hide Offset14, Offset19, Offset26;
    OffsetsAligned(w & 0x3FF_FFFF);
    OffsetsAligned((w >> 5) & 0x7_FFFF);
    OffsetsAligned((w >> 5) & 0x3FFF);
    SumAligned(src, Decode(w).offset);
  }

  lemma OffsetsAligned(field: Word)
    ensures Offset14(field) & 3 == 0 && Offset19(field) & 3 == 0 && Offset26(field) & 3 == 0
  {
  }

  lemma SumAligned(a: bv64, b: bv64)
    requires Aligned(a) && b & 3 == 0
    ensures Aligned(Plus(a, b))
  {
  }

  lemma OtherRegister(r: bv64, far: bool, target: Address, cpu: Cpu, pc: Address)
    requires r != 17 || !far
    ensures Register(Loaded(far, target, cpu.(pc := pc)), r) == Register(cpu, r)
  {
  }

  lemma CbzSameRegister(w: Word, src: Address, dest: Address, cpu: Cpu)
    requires Decode(w).CompareBranch? && Keeps(w, src, dest)
    ensures var i, target := Decode(w), TargetOf(w, src);
      Register(Loaded(!Within(Distance(target, dest), 0x10_0000) && IsFar(target, dest), target, cpu.(pc := dest)), i.rt)
        == Register(cpu, i.rt)
  {
    hide Decode, Register, Within, IsFar, Distance, TargetOf;
    var target := TargetOf(w, src);
    OtherRegister(Decode(w).rt, !Within(Distance(target, dest), 0x10_0000) && IsFar(target, dest), target, cpu, dest);
  }

  lemma TbzSameRegister(w: Word, src: Address, dest: Address, cpu: Cpu)
    requires Decode(w).TestBranch? && Keeps(w, src, dest)
    ensures var i, target := Decode(w), TargetOf(w, src);
      Register(Loaded(!Within(Distance(target, dest), 0x2000) && IsFar(target, dest), target, cpu.(pc := dest)), i.rt)
        == Register(cpu, i.rt)
  {
    hide Decode, Register, Within, IsFar, Distance, TargetOf;
    var target := TargetOf(w, src);
    OtherRegister(Decode(w).rt, !Within(Distance(target, dest), 0x2000) && IsFar(target, dest), target, cpu, dest);
  }

  lemma BGoesRight(w: Word, src: Address, dest: Address, cpu: Cpu)
    requires Decode(w).Branch? && Aligned(src) && Aligned(dest)
    ensures GoesRight(w, src, dest, cpu)
  {
    hide Decode, Copy, CopyB, Run, Past, Distance, Within, TargetOf, Aligned;
    TargetAligned(w, src);
    CopyOfDirect(w, src, dest);
    CopyBRuns(Decode(w).link, TargetOf(w, src), dest, cpu.(pc := dest));
  }

  lemma BccGoesRight(w: Word, src: Address, dest: Address, cpu: Cpu)
    requires Decode(w).BranchIf? && Aligned(src) && Aligned(dest) && Keeps(w, src, dest)
    ensures GoesRight(w, src, dest, cpu)
  {
    hide IsCondition, Decode, Copy, CopyBcc, Run, Past, Holds, HasOpposite, Distance, Within, IsFar, TargetOf, Aligned;
    FieldsFit(w);
    TargetAligned(w, src);
    CopyOfDirect(w, src, dest);
    CopyBccRuns(Decode(w).condition, TargetOf(w, src), dest, cpu.(pc := dest));
  }

  lemma CbzGoesRight(w: Word, src: Address, dest: Address, cpu: Cpu)
    requires Decode(w).CompareBranch? && Aligned(src) && Aligned(dest) && Keeps(w, src, dest)
    ensures GoesRight(w, src, dest, cpu)
  {
    hide Keeps, IsRegister, Decode, Copy, CopyCbz, Run, Past, Register, IsNonZero, Distance, Within, IsFar, TargetOf, Aligned, One;
    var i, target := Decode(w), TargetOf(w, src);
    FieldsFit(w);
    TargetAligned(w, src);
    CopyOfCbz(w, src, dest);
    CopyCbzRuns(i.wide, i.nonZero, i.rt, target, dest, cpu.(pc := dest));
    CbzSameRegister(w, src, dest, cpu);
  }

  lemma TbzGoesRight(w: Word, src: Address, dest: Address, cpu: Cpu)
    requires Decode(w).TestBranch? && Aligned(src) && Aligned(dest) && Keeps(w, src, dest)
    ensures GoesRight(w, src, dest, cpu)
  {
    hide Keeps, IsRegister, Decode, Copy, CopyTbz, Run, Past, Register, BitSet, Distance, Within, IsFar, TargetOf, Aligned, One,
      HighPart, LowPart, IsBit;
    var i, target := Decode(w), TargetOf(w, src);
    FieldsFit(w);
    TargetAligned(w, src);
    CopyOfTbz(w, src, dest);
    CopyTbzRuns(i.bit, i.nonZero, i.rt, target, dest, cpu.(pc := dest));
    TbzSameRegister(w, src, dest, cpu);
  }

  // For every address that a branch stands at and is copied to, and over every distance.
  lemma CopyGoesRight(w: Word, src: Address, dest: Address, cpu: Cpu)
    requires IsBranch(Decode(w)) && Aligned(src) && Aligned(dest) && Keeps(w, src, dest)
    ensures GoesRight(w, src, dest, cpu)
  {
    hide Decode, Keeps, GoesRight, Aligned;
    match Decode(w) {
      case Branch(_, _) => BGoesRight(w, src, dest, cpu);
      case BranchIf(_, _) => BccGoesRight(w, src, dest, cpu);
      case CompareBranch(_, _, _, _) => CbzGoesRight(w, src, dest, cpu);
      case TestBranch(_, _, _, _) => TbzGoesRight(w, src, dest, cpu);
    }
  }

  // ---------- And when it does not ----------

  function Bytes(n: nat): bv64
    requires n <= 6
  {
    if n == 0 then 0 else if n == 1 then 4 else if n == 2 then 8 else if n == 3 then 12 else if n == 4 then 16
    else if n == 5 then 20 else 24
  }

  lemma PlusPlus(a: Address, b: bv64, c: bv64)
    ensures Plus(a + b, c) == Plus(a, b + c)
  {
  }

  lemma AfterPlus(a: Address, c: bv64)
    ensures Plus(After(a), c) == Plus(a, 4 + c)
  {
    hide Plus;
    PlusPlus(a, 4, c);
  }

  lemma {:induction false} PastIs(a: Address, n: nat)
    requires n <= 6
    ensures Past(a, n) == Plus(a, Bytes(n))
    decreases n
  {
    hide After, Plus;
    if n == 0 {
      PlusZero(a);
    } else {
      PastIs(After(a), n - 1);
      AfterPlus(a, Bytes(n - 1));
    }
  }

  lemma PlusZero(a: Address)
    ensures Plus(a, 0) == a
  {
  }

  lemma SumOver(a: Address, c: bv64)
    ensures Distance(a + c, a) == c && Distance(a + c, a + 4) == c - 4
  {
  }

  lemma DistanceOver(a: Address, c: bv64)
    ensures Distance(Plus(a, c), a) == c
  {
    hide Distance;
    SumOver(a, c);
  }

  lemma DistanceFromAfter(a: Address, c: bv64)
    ensures Distance(Plus(a, c), After(a)) == c - 4
  {
    hide Distance;
    SumOver(a, c);
  }

  // The place behind a copy is near it.
  lemma PastIsNear(dest: Address, n: nat)
    requires n <= 6
    ensures Within(Distance(Past(dest, n), dest), 0x10_0000) && Within(Distance(Past(dest, n), dest), 0x2000)
    ensures !IsFar(Past(dest, n), dest)
  {
    hide Within, Distance, Past, Bytes, Plus, After;
    PastIs(dest, n);
    DistanceOver(dest, Bytes(n));
    DistanceFromAfter(dest, Bytes(n));
    FewBytes(n);
  }

  lemma FewBytes(n: nat)
    requires n <= 6
    ensures Within(Bytes(n), 0x10_0000) && Within(Bytes(n), 0x2000) && Within(Bytes(n) - 4, 0x800_0000)
  {
  }

  lemma CopyIsShort(skip: Word, target: Address, dest: Address)
    ensures |BranchOver(skip, target, dest)| <= 6
  {
    hide Within, AssembleB, AssembleBr, Distance, After;
  }

  function AnyCpu(x17: bv64): Cpu {
    Cpu(0, x17, 0, _ => 0, Flags(false, false, false, false))
  }

  lemma BccGoesWrong(w: Word, src: Address, dest: Address)
    requires Decode(w).BranchIf? && Aligned(src) && Aligned(dest) && !Keeps(w, src, dest)
    ensures !GoesRight(w, src, dest, AnyCpu(0))
  {
    hide Decode, Copy, BranchOver, Run, Past, Holds, HasOpposite, Distance, Within, IsFar, TargetOf, Aligned, AssembleBcc, Inverse,
      IsCondition;
    var condition, target, cpu := Decode(w).condition, TargetOf(w, src), AnyCpu(0);
    FieldsFit(w);
    TargetAligned(w, src);
    CopyOfDirect(w, src, dest);
    CopyBccRuns(condition, target, dest, cpu.(pc := dest));
    ConditionHolds(condition, cpu.flags);
    CopyIsShort(AssembleBcc(Inverse(condition), 8), target, dest);
    PastIsNear(dest, |CopyBcc(condition, target, dest)|);
  }

  // What x17 has to hold for its test to come out otherwise than that of the target.
  function OtherThan(v: bv64, wide: bool): bv64 {
    if IsNonZero(v, wide) then 0 else 1
  }

  lemma OtherTest(v: bv64, wide: bool)
    ensures IsNonZero(OtherThan(v, wide), wide) != IsNonZero(v, wide)
  {
    assert IsNonZero(1, wide) && !IsNonZero(0, wide);
  }

  lemma CbzGoesWrong(w: Word, src: Address, dest: Address)
    requires Decode(w).CompareBranch? && Aligned(src) && Aligned(dest) && !Keeps(w, src, dest)
    ensures !GoesRight(w, src, dest, AnyCpu(OtherThan(TargetOf(w, src), Decode(w).wide)))
  {
    hide Decode, Copy, BranchOver, Run, Past, IsNonZero, Distance, Within, IsFar, TargetOf, Aligned, AssembleCbz, Inverse, One,
      IsRegister, OtherThan;
    var i, target := Decode(w), TargetOf(w, src);
    var cpu := AnyCpu(OtherThan(target, i.wide));
    FieldsFit(w);
    TargetAligned(w, src);
    CopyOfCbz(w, src, dest);
    CopyCbzRuns(i.wide, i.nonZero, i.rt, target, dest, cpu.(pc := dest));
    OtherTest(target, i.wide);
    CopyIsShort(AssembleCbz(One(i.wide), Inverse(One(i.nonZero)), i.rt, 8), target, dest);
    PastIsNear(dest, |CopyCbz(One(i.wide), One(i.nonZero), i.rt, target, dest)|);
  }

  function OtherBits(v: bv64, bit: bv64): bv64 {
    if BitSet(v, bit) then 0 else 0xFFFF_FFFF_FFFF_FFFF
  }

  lemma OtherBitTest(v: bv64, bit: bv64)
    ensures BitSet(OtherBits(v, bit), bit) != BitSet(v, bit)
  {
    AllBitsSet(bit);
  }

  lemma AllBitsSet(bit: bv64)
    ensures BitSet(0xFFFF_FFFF_FFFF_FFFF, bit) && !BitSet(0, bit)
  {
  }

  lemma TbzGoesWrong(w: Word, src: Address, dest: Address)
    requires Decode(w).TestBranch? && Aligned(src) && Aligned(dest) && !Keeps(w, src, dest)
    ensures !GoesRight(w, src, dest, AnyCpu(OtherBits(TargetOf(w, src), Decode(w).bit)))
  {
    hide Decode, Copy, BranchOver, Run, Past, BitSet, Distance, Within, IsFar, TargetOf, Aligned, AssembleTbz, Inverse, One,
      IsRegister, OtherBits, HighPart, LowPart, IsBit;
    var i, target := Decode(w), TargetOf(w, src);
    var cpu := AnyCpu(OtherBits(target, i.bit));
    FieldsFit(w);
    TargetAligned(w, src);
    CopyOfTbz(w, src, dest);
    CopyTbzRuns(i.bit, i.nonZero, i.rt, target, dest, cpu.(pc := dest));
    OtherBitTest(target, i.bit);
    CopyIsShort(AssembleTbz(HighPart(i.bit), Inverse(One(i.nonZero)), i.rt, LowPart(i.bit), 8), target, dest);
    PastIsNear(dest, |CopyTbz(HighPart(i.bit), One(i.nonZero), i.rt, LowPart(i.bit), target, dest)|);
  }

  // The copy does what the branch does, whatever the registers and flags are, exactly when it keeps
  // to the conditions above.
  lemma CopyGoesRightExactly(w: Word, src: Address, dest: Address)
    requires IsBranch(Decode(w)) && Aligned(src) && Aligned(dest)
    ensures Keeps(w, src, dest) <==> forall cpu :: GoesRight(w, src, dest, cpu)
  {
    hide Decode, Keeps, GoesRight, Aligned;
    if Keeps(w, src, dest) {
      forall cpu ensures GoesRight(w, src, dest, cpu) {
        CopyGoesRight(w, src, dest, cpu);
      }
    } else {
      match Decode(w) {
        case Branch(_, _) => DirectKeeps(w, src, dest);
        case BranchIf(_, _) => BccGoesWrong(w, src, dest);
        case CompareBranch(_, _, _, _) => CbzGoesWrong(w, src, dest);
        case TestBranch(_, _, _, _) => TbzGoesWrong(w, src, dest);
      }
    }
  }

  lemma DirectKeeps(w: Word, src: Address, dest: Address)
    requires Decode(w).Branch?
    ensures Keeps(w, src, dest)
  {
  }

  // ---------- What is copied as it is ----------

  // ADR and ADRP, and the loads of literals.
  predicate NamesAPlace(w: Word) {
    (w >> 24) & 0x1F == 0x10 || ((w >> 27) & 7 == 3 && (w >> 24) & 3 == 0)
  }

  // Whatever neither branches relative to its place nor names one in another way.
  lemma OthersStay(w: Word, src: Address, dest: Address)
    requires w < 0x1_0000_0000
    ensures Copy(w, src, dest) == None <==> NamesAPlace(w) && !IsBranch(Decode(w))
    ensures !NamesAPlace(w) && !IsBranch(Decode(w)) ==> Copy(w, src, dest) == Some([w])
  {
    hide CopyB, CopyBcc, CopyCbz, CopyTbz, Offset14, Offset19, Offset26;
  }
}
