// The relocation of ARM64 branches: the copy of a branch goes where the branch goes, over any
// distance.
module Arm64Relocation {
  import opened Arm64Machine
  import opened CStrings
  import opened Seqs

  // ---------- Assembling ----------

  // The distances that are assembled are cast to LONG; no field holds a bit that the cast drops.

  // Bcc19_Assemble()
  function AssembleBcc(condition: bv64, delta: bv64): Word {
    (condition & 0xF) | (Field19(delta) << 5) | (0x54 << 24)
  }

  // Branch26_Assemble()
  function AssembleB(link: bool, delta: bv64): Word {
    PackB(link, Field26(delta))
  }

  function PackB(link: bool, field: Word): Word {
    field | (0x5 << 26) | (if link then 0x8000_0000 else 0)
  }

  // Br_Assemble()
  function AssembleBr(rn: bv64, link: bool): Word {
    ((rn & 0x1F) << 5) | (0x3587C0 << 10) | (if link then 0x20_0000 else 0)
  }

  // Cbz19_Assemble()
  function AssembleCbz(size: bv64, nz: bv64, rt: bv64, delta: bv64): Word {
    (rt & 0x1F) | (Field19(delta) << 5) | ((nz & 1) << 24) | (0x1A << 25) | ((size & 1) << 31)
  }

  // Tbz14_Assemble()
  function AssembleTbz(size: bv64, nz: bv64, rt: bv64, bit: bv64, delta: bv64): Word {
    (rt & 0x1F) | (Field14(delta) << 5) | ((bit & 0x1F) << 19) | ((nz & 1) << 24) | (0x1B << 25) | ((size & 1) << 31)
  }

  // Mov16_Assemble()
  function AssembleMov(size: bv64, kind: bv64, rd: bv64, imm: bv64, shift: bv64): Word {
    (rd & 0x1F) | ((imm & 0xFFFF) << 5) | ((shift & 3) << 21) | (0x25 << 23) | ((kind & 3) << 29) | ((size & 1) << 31)
  }

  // -(1 << n) <= delta < (1 << n), for a signed delta.
  predicate Within(delta: bv64, half: bv64) {
    delta < half || delta >= 0 - half
  }

  // Fields hold the words of a distance; reading them back gives the distance, upwards and downwards.
  function Field26(delta: bv64): Word {
    (delta >> 2) & 0x3FF_FFFF
  }

  lemma Up26(delta: bv64)
    requires delta & 3 == 0 && delta < 0x800_0000
    ensures Times4(Field26(delta)) == delta
  {
  }

  lemma OffsetUp26(delta: bv64)
    requires delta & 3 == 0 && delta < 0x800_0000
    ensures Offset26(Field26(delta)) == delta
  {
    hide Times4;
    Up26(delta);
    assert Field26(delta) & 0x200_0000 == 0;
  }

  lemma Down26(delta: bv64)
    requires delta & 3 == 0 && delta & 0xFFFF_FFFF_F800_0000 == 0xFFFF_FFFF_F800_0000
    ensures Times4(Fill26(Field26(delta))) == delta
  {
  }

  lemma OffsetDown26(delta: bv64)
    requires delta & 3 == 0 && delta & 0xFFFF_FFFF_F800_0000 == 0xFFFF_FFFF_F800_0000
    ensures Offset26(Field26(delta)) == delta
  {
    hide Times4, Fill26;
    Down26(delta);
    assert Field26(delta) & 0x200_0000 != 0;
  }

  lemma TopBits26(delta: bv64)
    requires delta >= 0xFFFF_FFFF_F800_0000
    ensures delta & 0xFFFF_FFFF_F800_0000 == 0xFFFF_FFFF_F800_0000
  {
  }

  lemma Offset26Back(delta: bv64)
    requires delta & 3 == 0 && Within(delta, 0x800_0000)
    ensures Offset26(Field26(delta)) == delta
  {
    hide Offset26, Field26;
    if delta < 0x800_0000 {
      OffsetUp26(delta);
    } else {
      TopBits26(delta);
      OffsetDown26(delta);
    }
  }

  function Field19(delta: bv64): Word {
    (delta >> 2) & 0x7_FFFF
  }

  lemma Up19(delta: bv64)
    requires delta & 3 == 0 && delta < 0x10_0000
    ensures Times4(Field19(delta)) == delta
  {
  }

  lemma OffsetUp19(delta: bv64)
    requires delta & 3 == 0 && delta < 0x10_0000
    ensures Offset19(Field19(delta)) == delta
  {
    hide Times4;
    Up19(delta);
    assert Field19(delta) & 0x4_0000 == 0;
  }

  lemma Down19(delta: bv64)
    requires delta & 3 == 0 && delta & 0xFFFF_FFFF_FFF0_0000 == 0xFFFF_FFFF_FFF0_0000
    ensures Times4(Fill19(Field19(delta))) == delta
  {
  }

  lemma OffsetDown19(delta: bv64)
    requires delta & 3 == 0 && delta & 0xFFFF_FFFF_FFF0_0000 == 0xFFFF_FFFF_FFF0_0000
    ensures Offset19(Field19(delta)) == delta
  {
    hide Times4, Fill19;
    Down19(delta);
    assert Field19(delta) & 0x4_0000 != 0;
  }

  lemma TopBits19(delta: bv64)
    requires delta >= 0xFFFF_FFFF_FFF0_0000
    ensures delta & 0xFFFF_FFFF_FFF0_0000 == 0xFFFF_FFFF_FFF0_0000
  {
  }

  lemma Offset19Back(delta: bv64)
    requires delta & 3 == 0 && Within(delta, 0x10_0000)
    ensures Offset19(Field19(delta)) == delta
  {
    hide Offset19, Field19;
    if delta < 0x10_0000 {
      OffsetUp19(delta);
    } else {
      TopBits19(delta);
      OffsetDown19(delta);
    }
  }

  function Field14(delta: bv64): Word {
    (delta >> 2) & 0x3FFF
  }

  lemma Up14(delta: bv64)
    requires delta & 3 == 0 && delta < 0x8000
    ensures Times4(Field14(delta)) == delta
  {
  }

  lemma OffsetUp14(delta: bv64)
    requires delta & 3 == 0 && delta < 0x8000
    ensures Offset14(Field14(delta)) == delta
  {
    hide Times4;
    Up14(delta);
    assert Field14(delta) & 0x2000 == 0;
  }

  lemma Down14(delta: bv64)
    requires delta & 3 == 0 && delta & 0xFFFF_FFFF_FFFF_8000 == 0xFFFF_FFFF_FFFF_8000
    ensures Times4(Fill14(Field14(delta))) == delta
  {
  }

  lemma OffsetDown14(delta: bv64)
    requires delta & 3 == 0 && delta & 0xFFFF_FFFF_FFFF_8000 == 0xFFFF_FFFF_FFFF_8000
    ensures Offset14(Field14(delta)) == delta
  {
    hide Times4, Fill14;
    Down14(delta);
    assert Field14(delta) & 0x2000 != 0;
  }

  lemma TopBits14(delta: bv64)
    requires delta >= 0xFFFF_FFFF_FFFF_8000
    ensures delta & 0xFFFF_FFFF_FFFF_8000 == 0xFFFF_FFFF_FFFF_8000
  {
  }

  lemma Offset14Back(delta: bv64)
    requires delta & 3 == 0 && Within(delta, 0x8000)
    ensures Offset14(Field14(delta)) == delta
  {
    hide Offset14, Field14;
    if delta < 0x8000 {
      OffsetUp14(delta);
    } else {
      TopBits14(delta);
      OffsetDown14(delta);
    }
  }

  // What has been assembled is decoded again.
  lemma BccDecodes(condition: bv64, delta: bv64)
    requires condition < 16 && delta & 3 == 0 && Within(delta, 0x10_0000)
    ensures Decode(AssembleBcc(condition, delta)) == BranchIf(condition, delta)
  {
    hide Offset19, Within;
    Offset19Back(delta);
  }

  lemma BDecodes(link: bool, delta: bv64)
    requires delta & 3 == 0 && Within(delta, 0x800_0000)
    ensures Decode(AssembleB(link, delta)) == Branch(link, delta)
  {
    hide Offset26, Within, Field26, Decode, PackB;
    Offset26Back(delta);
    FieldFits26(delta);
    BPacked(Field26(delta), link);
  }

  lemma FieldFits26(delta: bv64)
    ensures Field26(delta) <= 0x3FF_FFFF
  {
  }

  lemma BPacked(field: Word, link: bool)
    requires field <= 0x3FF_FFFF
    ensures Decode(PackB(link, field)) == Branch(link, Offset26(field))
  {
    hide Offset26;
    if link {
      BPackedBits(field, 0x8000_0000);
    } else {
      BPackedBits(field, 0);
    }
  }

  lemma BPackedBits(field: Word, bit: Word)
    requires field <= 0x3FF_FFFF && (bit == 0 || bit == 0x8000_0000)
    ensures var w := field | (0x5 << 26) | bit; w & 0x7C00_0000 == 0x1400_0000 && w & 0x8000_0000 == bit && w & 0x3FF_FFFF == field
  {
  }

  lemma BrDecodes(rn: bv64, link: bool)
    requires rn < 32
    ensures Decode(AssembleBr(rn, link)) == BranchTo(link, rn)
  {
  }

  lemma CbzDecodes(size: bv64, nz: bv64, rt: bv64, delta: bv64)
    requires size < 2 && nz < 2 && rt < 32 && delta & 3 == 0 && Within(delta, 0x10_0000)
    ensures Decode(AssembleCbz(size, nz, rt, delta)) == CompareBranch(size == 1, nz == 1, rt, delta)
  {
    hide Offset19, Within;
    Offset19Back(delta);
  }

  lemma TbzDecodes(size: bv64, nz: bv64, rt: bv64, bit: bv64, delta: bv64)
    requires size < 2 && nz < 2 && rt < 32 && bit < 32 && delta & 3 == 0 && Within(delta, 0x8000)
    ensures Decode(AssembleTbz(size, nz, rt, bit, delta)) == TestBranch((size << 5) | bit, nz == 1, rt, delta)
  {
    hide Offset14, Within;
    Offset14Back(delta);
  }

  lemma MovDecodes(size: bv64, kind: bv64, rd: bv64, imm: bv64, shift: bv64)
    requires size < 2 && kind < 4 && rd < 32 && imm < 0x1_0000 && shift < 4
    ensures Decode(AssembleMov(size, kind, rd, imm, shift)) == MoveWide(size == 1, kind, rd, imm, shift)
  {
  }

  // ---------- Any 64-bit constant ----------

  function Piece(imm: bv64, n: nat): (p: bv64)
    requires n < 4
    ensures p < 0x1_0000
  {
    if n == 0 then imm & 0xFFFF else if n == 1 then (imm >> 16) & 0xFFFF else if n == 2 then (imm >> 32) & 0xFFFF
    else (imm >> 48) & 0xFFFF
  }

  function Count(imm: bv64, p: bv64): nat {
    (if Piece(imm, 3) == p then 1 else 0) + (if Piece(imm, 2) == p then 1 else 0)
    + (if Piece(imm, 1) == p then 1 else 0) + (if Piece(imm, 0) == p then 1 else 0)
  }

  // The piece that needs no move of its own.
  function Usual(ones: bool): bv64 {
    if ones then 0xFFFF else 0
  }

  function Number(n: nat): (b: bv64)
    requires n < 4
    ensures b < 4
  {
    if n == 0 then 0 else if n == 1 then 1 else if n == 2 then 2 else 3
  }

  function MoveOf(rd: bv64, imm: bv64, ones: bool, n: nat, first: bool): Word
    requires n < 4
  {
    if !first then AssembleMov(1, 3, rd, Piece(imm, n), Number(n))
    else if ones then AssembleMov(1, 0, rd, Piece(imm, n) ^ 0xFFFF, Number(n))
    else AssembleMov(1, 2, rd, Piece(imm, n), Number(n))
  }

  function NarrowMoveOf(rd: bv64, imm: bv64): Word {
    AssembleMov(0, 0, rd, Piece(imm, 0) ^ 0xFFFF, 0)
  }

  // The loop of EmitMovImmediate(), with this many pieces to come.
  function MovesFrom(rd: bv64, imm: bv64, ones: bool, n: nat, first: bool): (ws: seq<Word>)
    requires n <= 4
    ensures |ws| <= n && (first && n > 0 ==> ws != [])
    decreases n
  {
    if n == 0 then []
    else
      if Piece(imm, n - 1) != Usual(ones) || (n == 1 && first) then
        [MoveOf(rd, imm, ones, n - 1, first)] + MovesFrom(rd, imm, ones, n - 1, false)
      else MovesFrom(rd, imm, ones, n - 1, first)
  }

  // The top 32 bits are clear, and the next 16 are set: one 32-bit move will do.
  predicate IsNarrow(imm: bv64) {
    Piece(imm, 3) == 0 && Piece(imm, 2) == 0 && Piece(imm, 1) == 0xFFFF
  }

  function MovImmediate(rd: bv64, imm: bv64): (ws: seq<Word>)
    ensures 1 <= |ws| <= 4
  {
    if IsNarrow(imm) then [NarrowMoveOf(rd, imm)]
    else MovesFrom(rd, imm, Count(imm, 0xFFFF) > Count(imm, 0), 4, true)
  }

  // EmitMovImmediate()
  method EmitMovImmediate(rd: bv64, imm: bv64) returns (ws: seq<Word>)
    ensures ws == MovImmediate(rd, imm)
  {
    hide MoveOf, NarrowMoveOf, Piece, IsNarrow, Count, Usual;
    if IsNarrow(imm) {
      return [NarrowMoveOf(rd, imm)];
    }
    var ones := Count(imm, 0xFFFF) > Count(imm, 0);
    var first, n := true, 4;
    ws := [];
    ghost var goal := MovesFrom(rd, imm, ones, 4, true);
    assert [] + goal == goal;
    while n > 0
      invariant 0 <= n <= 4 && ws + MovesFrom(rd, imm, ones, n, first) == goal
    {
      if Piece(imm, n - 1) != Usual(ones) || (n == 1 && first) {
        var w := MoveOf(rd, imm, ones, n - 1, first);
        Assoc(ws, [w], MovesFrom(rd, imm, ones, n - 1, false));
        ws, first := ws + [w], false;
      }
      n := n - 1;
    }
    assert ws + [] == ws;
  }

  // The bits of all the pieces from one on.
  function BitsFrom(n: nat): bv64
    requires n <= 4
  {
    if n == 0 then 0xFFFF_FFFF_FFFF_FFFF else if n == 1 then 0xFFFF_FFFF_FFFF_0000
    else if n == 2 then 0xFFFF_FFFF_0000_0000 else if n == 3 then 0xFFFF_0000_0000_0000 else 0
  }

  // The pieces from n on are those of the constant, and the others the usual one.
  function Upper(imm: bv64, ones: bool, n: nat): bv64
    requires n <= 4
  {
    if !ones then imm & BitsFrom(n) else imm | !BitsFrom(n)
  }

  // Only usual pieces so far.
  predicate UsualFrom(imm: bv64, ones: bool, n: nat)
    requires n <= 4
  {
    if !ones then imm & BitsFrom(n) == 0 else imm & BitsFrom(n) == BitsFrom(n)
  }

  // One more piece, where the usual one is 0, and where it is FFFF: the usual one, one by the first
  // move, and one by a later move.
  lemma ZeroStays(imm: bv64, n: nat)
    requires n < 4 && Piece(imm, n) == 0
    ensures imm & BitsFrom(n) == imm & BitsFrom(n + 1)
  {
    if n == 0 {
      assert imm & BitsFrom(n) == imm & BitsFrom(n + 1);
    } else if n == 1 {
      assert imm & BitsFrom(n) == imm & BitsFrom(n + 1);
    } else if n == 2 {
      assert imm & BitsFrom(n) == imm & BitsFrom(n + 1);
    } else {
      assert imm & BitsFrom(n) == imm & BitsFrom(n + 1);
    }
  }

  lemma OnesStay(imm: bv64, n: nat)
    requires n < 4 && Piece(imm, n) == 0xFFFF
    ensures imm | !BitsFrom(n) == imm | !BitsFrom(n + 1)
  {
    if n == 0 {
      assert imm | !BitsFrom(n) == imm | !BitsFrom(n + 1);
    } else if n == 1 {
      assert imm | !BitsFrom(n) == imm | !BitsFrom(n + 1);
    } else if n == 2 {
      assert imm | !BitsFrom(n) == imm | !BitsFrom(n + 1);
    } else {
      assert imm | !BitsFrom(n) == imm | !BitsFrom(n + 1);
    }
  }

  lemma OnesGrow(imm: bv64, n: nat)
    requires n < 4 && Piece(imm, n) == 0xFFFF && imm & BitsFrom(n + 1) == BitsFrom(n + 1)
    ensures imm & BitsFrom(n) == BitsFrom(n)
  {
    if n == 0 {
      assert imm & BitsFrom(n) == BitsFrom(n);
    } else if n == 1 {
      assert imm & BitsFrom(n) == BitsFrom(n);
    } else if n == 2 {
      assert imm & BitsFrom(n) == BitsFrom(n);
    } else {
      assert imm & BitsFrom(n) == BitsFrom(n);
    }
  }

  lemma Piece0Moves(imm: bv64, n: nat)
    requires n == 0
    ensures imm & BitsFrom(n + 1) == 0 ==> Shifted(Piece(imm, n), Number(n)) == imm & BitsFrom(n)
    ensures (imm & BitsFrom(n + 1) & !Shifted(0xFFFF, Number(n))) | Shifted(Piece(imm, n), Number(n)) == imm & BitsFrom(n)
  {
  }

  lemma Piece1Moves(imm: bv64, n: nat)
    requires n == 1
    ensures imm & BitsFrom(n + 1) == 0 ==> Shifted(Piece(imm, n), Number(n)) == imm & BitsFrom(n)
    ensures (imm & BitsFrom(n + 1) & !Shifted(0xFFFF, Number(n))) | Shifted(Piece(imm, n), Number(n)) == imm & BitsFrom(n)
  {
  }

  lemma Piece2Moves(imm: bv64, n: nat)
    requires n == 2
    ensures imm & BitsFrom(n + 1) == 0 ==> Shifted(Piece(imm, n), Number(n)) == imm & BitsFrom(n)
    ensures (imm & BitsFrom(n + 1) & !Shifted(0xFFFF, Number(n))) | Shifted(Piece(imm, n), Number(n)) == imm & BitsFrom(n)
  {
  }

  lemma Piece3Moves(imm: bv64, n: nat)
    requires n == 3
    ensures imm & BitsFrom(n + 1) == 0 ==> Shifted(Piece(imm, n), Number(n)) == imm & BitsFrom(n)
    ensures (imm & BitsFrom(n + 1) & !Shifted(0xFFFF, Number(n))) | Shifted(Piece(imm, n), Number(n)) == imm & BitsFrom(n)
  {
  }

  lemma MovesOnZero(imm: bv64, n: nat)
    requires n < 4
    ensures imm & BitsFrom(n + 1) == 0 ==> Shifted(Piece(imm, n), Number(n)) == imm & BitsFrom(n)
    ensures (imm & BitsFrom(n + 1) & !Shifted(0xFFFF, Number(n))) | Shifted(Piece(imm, n), Number(n)) == imm & BitsFrom(n)
  {
    hide Piece, BitsFrom, Shifted;
    if n == 0 {
      Piece0Moves(imm, n);
    } else if n == 1 {
      Piece1Moves(imm, n);
    } else if n == 2 {
      Piece2Moves(imm, n);
    } else {
      Piece3Moves(imm, n);
    }
  }

  lemma Piece0FirstOnOnes(imm: bv64, n: nat)
    requires n == 0 && imm & BitsFrom(n + 1) == BitsFrom(n + 1)
    ensures !Shifted(Piece(imm, n) ^ 0xFFFF, Number(n)) == imm | !BitsFrom(n)
  {
  }

  lemma Piece0LaterOnOnes(imm: bv64, n: nat)
    requires n == 0
    ensures ((imm | !BitsFrom(n + 1)) & !Shifted(0xFFFF, Number(n))) | Shifted(Piece(imm, n), Number(n)) == imm | !BitsFrom(n)
  {
  }

  lemma Piece1FirstOnOnes(imm: bv64, n: nat)
    requires n == 1 && imm & BitsFrom(n + 1) == BitsFrom(n + 1)
    ensures !Shifted(Piece(imm, n) ^ 0xFFFF, Number(n)) == imm | !BitsFrom(n)
  {
  }

  lemma Piece1LaterOnOnes(imm: bv64, n: nat)
    requires n == 1
    ensures ((imm | !BitsFrom(n + 1)) & !Shifted(0xFFFF, Number(n))) | Shifted(Piece(imm, n), Number(n)) == imm | !BitsFrom(n)
  {
  }

  lemma Piece2FirstOnOnes(imm: bv64, n: nat)
    requires n == 2 && imm & BitsFrom(n + 1) == BitsFrom(n + 1)
    ensures !Shifted(Piece(imm, n) ^ 0xFFFF, Number(n)) == imm | !BitsFrom(n)
  {
  }

  lemma Piece2LaterOnOnes(imm: bv64, n: nat)
    requires n == 2
    ensures ((imm | !BitsFrom(n + 1)) & !Shifted(0xFFFF, Number(n))) | Shifted(Piece(imm, n), Number(n)) == imm | !BitsFrom(n)
  {
  }

  lemma Piece3FirstOnOnes(imm: bv64, n: nat)
    requires n == 3 && imm & BitsFrom(n + 1) == BitsFrom(n + 1)
    ensures !Shifted(Piece(imm, n) ^ 0xFFFF, Number(n)) == imm | !BitsFrom(n)
  {
  }

  lemma Piece3LaterOnOnes(imm: bv64, n: nat)
    requires n == 3
    ensures ((imm | !BitsFrom(n + 1)) & !Shifted(0xFFFF, Number(n))) | Shifted(Piece(imm, n), Number(n)) == imm | !BitsFrom(n)
  {
  }

  lemma FirstOnOnes(imm: bv64, n: nat)
    requires n < 4 && imm & BitsFrom(n + 1) == BitsFrom(n + 1)
    ensures !Shifted(Piece(imm, n) ^ 0xFFFF, Number(n)) == imm | !BitsFrom(n)
  {
    hide Piece, BitsFrom, Shifted;
    if n == 0 {
      Piece0FirstOnOnes(imm, n);
    } else if n == 1 {
      Piece1FirstOnOnes(imm, n);
    } else if n == 2 {
      Piece2FirstOnOnes(imm, n);
    } else {
      Piece3FirstOnOnes(imm, n);
    }
  }

  lemma LaterOnOnes(imm: bv64, n: nat)
    requires n < 4
    ensures ((imm | !BitsFrom(n + 1)) & !Shifted(0xFFFF, Number(n))) | Shifted(Piece(imm, n), Number(n)) == imm | !BitsFrom(n)
  {
    hide Piece, BitsFrom, Shifted;
    if n == 0 {
      Piece0LaterOnOnes(imm, n);
    } else if n == 1 {
      Piece1LaterOnOnes(imm, n);
    } else if n == 2 {
      Piece2LaterOnOnes(imm, n);
    } else {
      Piece3LaterOnOnes(imm, n);
    }
  }

  lemma UsualStep(imm: bv64, ones: bool, n: nat)
    requires n < 4 && Piece(imm, n) == Usual(ones)
    ensures Upper(imm, ones, n) == Upper(imm, ones, n + 1)
    ensures UsualFrom(imm, ones, n + 1) ==> UsualFrom(imm, ones, n)
  {
    hide Piece, BitsFrom;
    if !ones {
      ZeroStays(imm, n);
    } else {
      OnesStay(imm, n);
      if imm & BitsFrom(n + 1) == BitsFrom(n + 1) {
        OnesGrow(imm, n);
      }
    }
  }

  lemma MovedWide(imm: bv64, shift: bv64, was: bv64)
    ensures Moved(true, 0, imm, shift, was) == Some(!Shifted(imm, shift))
    ensures Moved(true, 2, imm, shift, was) == Some(Shifted(imm, shift))
    ensures Moved(true, 3, imm, shift, was) == Some((was & !Shifted(0xFFFF, shift)) | Shifted(imm, shift))
  {
    hide Shifted;
  }

  lemma FirstMoveOnZero(imm: bv64, n: nat, was: bv64)
    requires n < 4 && UsualFrom(imm, false, n + 1)
    ensures Moved(true, 2, Piece(imm, n), Number(n), was) == Some(Upper(imm, false, n))
  {
    hide Piece, BitsFrom, Shifted, Moved;
    MovedWide(Piece(imm, n), Number(n), was);
    MovesOnZero(imm, n);
  }

  lemma FirstMoveOnOnes(imm: bv64, n: nat, was: bv64)
    requires n < 4 && UsualFrom(imm, true, n + 1)
    ensures Moved(true, 0, Piece(imm, n) ^ 0xFFFF, Number(n), was) == Some(Upper(imm, true, n))
  {
    hide Piece, BitsFrom, Shifted, Moved;
    MovedWide(Piece(imm, n) ^ 0xFFFF, Number(n), was);
    FirstOnOnes(imm, n);
  }

  lemma LaterMove(imm: bv64, ones: bool, n: nat)
    requires n < 4
    ensures Moved(true, 3, Piece(imm, n), Number(n), Upper(imm, ones, n + 1)) == Some(Upper(imm, ones, n))
  {
    hide Piece, BitsFrom, Shifted, Moved, Upper, Number;
    if ones {
      LaterMoveOnOnes(imm, n);
    } else {
      LaterMoveOnZero(imm, n);
    }
  }

  lemma LaterMoveOnZero(imm: bv64, n: nat)
    requires n < 4
    ensures Moved(true, 3, Piece(imm, n), Number(n), Upper(imm, false, n + 1)) == Some(Upper(imm, false, n))
  {
    hide Piece, BitsFrom, Shifted, Moved, Number;
    MovedWide(Piece(imm, n), Number(n), Upper(imm, false, n + 1));
    MovesOnZero(imm, n);
  }

  lemma LaterMoveOnOnes(imm: bv64, n: nat)
    requires n < 4
    ensures Moved(true, 3, Piece(imm, n), Number(n), Upper(imm, true, n + 1)) == Some(Upper(imm, true, n))
  {
    hide Piece, BitsFrom, Shifted, Moved, Number;
    MovedWide(Piece(imm, n), Number(n), Upper(imm, true, n + 1));
    LaterOnOnes(imm, n);
  }

  // ---------- Running the moves ----------

  // So many words further on.
  function Past(a: Address, n: nat): Address
    decreases n
  {
    if n == 0 then a else Past(After(a), n - 1)
  }

  lemma PastNext(a: Address, n: nat)
    ensures Past(a, 0) == a && (n > 0 ==> Past(a, n) == Past(After(a), n - 1))
  {
  }

  lemma ExecMov(size: bv64, kind: bv64, imm: bv64, shift: bv64, cpu: Cpu)
    requires size < 2 && kind < 4 && imm < 0x1_0000 && shift < 4
    ensures var v := Moved(size == 1, kind, imm, shift, cpu.x17);
      Exec(AssembleMov(size, kind, 17, imm, shift), cpu) == if v == None then None else Some(cpu.(pc := After(cpu.pc), x17 := v.value))
  {
    hide Decode, AssembleMov, Moved, After;
    MovDecodes(size, kind, 17, imm, shift);
  }

  lemma RunOn(w: Word, rest: seq<Word>, a: Address, cpu: Cpu)
    requires Exec(w, cpu).Some? && Exec(w, cpu).value.pc == After(a)
    ensures Run([w] + rest, a, cpu) == Run(rest, After(a), Exec(w, cpu).value)
  {
    hide Exec, After;
    assert ([w] + rest)[1..] == rest;
  }

  lemma {:induction false} MovesRun(imm: bv64, ones: bool, n: nat, first: bool, rest: seq<Word>, a: Address, cpu: Cpu)
    requires n <= 4 && (n > 0 || !first) && cpu.pc == a
    requires if first then UsualFrom(imm, ones, n) else cpu.x17 == Upper(imm, ones, n)
    ensures var ws := MovesFrom(17, imm, ones, n, first); var end := Past(a, |ws|);
      Run(ws + rest, a, cpu) == Run(rest, end, cpu.(pc := end, x17 := imm))
    decreases n
  {
    hide Run, Exec, Piece, MoveOf, Upper, UsualFrom, After, Usual, Past;
    var ws := MovesFrom(17, imm, ones, n, first);
    PastNext(a, |ws|);
    if n == 0 {
      assert ws + rest == rest;
      AllThere(imm, ones);
      assert cpu == cpu.(pc := a, x17 := imm);
    } else if Piece(imm, n - 1) != Usual(ones) || (n == 1 && first) {
      var more := MovesFrom(17, imm, ones, n - 1, false);
      var next := cpu.(pc := After(a), x17 := Upper(imm, ones, n - 1));
      OneMove(imm, ones, n, first, cpu);
      RunOn(ws[0], more + rest, a, cpu);
      Assoc([ws[0]], more, rest);
      MovesRun(imm, ones, n - 1, false, rest, After(a), next);
    } else {
      UsualStep(imm, ones, n - 1);
      MovesRun(imm, ones, n - 1, first, rest, a, cpu);
    }
  }

  lemma AllThere(imm: bv64, ones: bool)
    ensures Upper(imm, ones, 0) == imm
  {
    if !ones {
      assert imm & 0xFFFF_FFFF_FFFF_FFFF == imm;
    } else {
      assert imm | !0xFFFF_FFFF_FFFF_FFFF == imm;
    }
  }

  lemma OneMove(imm: bv64, ones: bool, n: nat, first: bool, cpu: Cpu)
    requires 0 < n <= 4
    requires if first then UsualFrom(imm, ones, n) else cpu.x17 == Upper(imm, ones, n)
    ensures Exec(MoveOf(17, imm, ones, n - 1, first), cpu) == Some(cpu.(pc := After(cpu.pc), x17 := Upper(imm, ones, n - 1)))
  {
    hide Exec, Piece, Moved, AssembleMov, Upper, UsualFrom, After, Usual;
    if !first {
      LaterMoveRuns(imm, ones, n - 1, cpu);
    } else if ones {
      FirstMoveRunsOnOnes(imm, n - 1, cpu);
    } else {
      FirstMoveRunsOnZero(imm, n - 1, cpu);
    }
  }

  lemma LaterMoveRuns(imm: bv64, ones: bool, n: nat, cpu: Cpu)
    requires n < 4 && cpu.x17 == Upper(imm, ones, n + 1)
    ensures Exec(AssembleMov(1, 3, 17, Piece(imm, n), Number(n)), cpu) == Some(cpu.(pc := After(cpu.pc), x17 := Upper(imm, ones, n)))
  {
    hide Exec, Piece, Moved, AssembleMov, Upper, UsualFrom, After, Usual;
    LaterMove(imm, ones, n);
    ExecMov(1, 3, Piece(imm, n), Number(n), cpu);
  }

  lemma FirstMoveRunsOnOnes(imm: bv64, n: nat, cpu: Cpu)
    requires n < 4 && UsualFrom(imm, true, n + 1)
    ensures Exec(AssembleMov(1, 0, 17, Piece(imm, n) ^ 0xFFFF, Number(n)), cpu)
         == Some(cpu.(pc := After(cpu.pc), x17 := Upper(imm, true, n)))
  {
    hide Exec, Piece, Moved, AssembleMov, Upper, UsualFrom, After, Usual;
    FirstMoveOnOnes(imm, n, cpu.x17);
    Flipped(Piece(imm, n));
    ExecMov(1, 0, Piece(imm, n) ^ 0xFFFF, Number(n), cpu);
  }

  lemma FirstMoveRunsOnZero(imm: bv64, n: nat, cpu: Cpu)
    requires n < 4 && UsualFrom(imm, false, n + 1)
    ensures Exec(AssembleMov(1, 2, 17, Piece(imm, n), Number(n)), cpu) == Some(cpu.(pc := After(cpu.pc), x17 := Upper(imm, false, n)))
  {
    hide Exec, Piece, Moved, AssembleMov, Upper, UsualFrom, After, Usual;
    FirstMoveOnZero(imm, n, cpu.x17);
    ExecMov(1, 2, Piece(imm, n), Number(n), cpu);
  }

  lemma Flipped(p: bv64)
    requires p < 0x1_0000
    ensures p ^ 0xFFFF < 0x1_0000
  {
  }

  lemma ExecNarrow(imm: bv64, cpu: Cpu)
    requires IsNarrow(imm)
    ensures Exec(NarrowMoveOf(17, imm), cpu) == Some(cpu.(pc := After(cpu.pc), x17 := imm))
  {
    hide Exec, Piece, Moved, AssembleMov, After, IsNarrow;
    Flipped(Piece(imm, 0));
    NarrowMove(imm, cpu.x17);
    ExecMov(0, 0, Piece(imm, 0) ^ 0xFFFF, 0, cpu);
  }

  lemma NarrowRuns(imm: bv64, rest: seq<Word>, a: Address, cpu: Cpu)
    requires cpu.pc == a && IsNarrow(imm)
    ensures Run(MovImmediate(17, imm) + rest, a, cpu) == Run(rest, Past(a, 1), cpu.(pc := Past(a, 1), x17 := imm))
  {
    hide Run, Exec, Piece, NarrowMoveOf, After, MovesFrom, IsNarrow, Count;
    ExecNarrow(imm, cpu);
    RunOn(NarrowMoveOf(17, imm), rest, a, cpu);
    assert Past(a, 1) == Past(After(a), 0);
  }

  // One to four moves build any 64-bit constant.
  lemma MovImmediateRuns(imm: bv64, rest: seq<Word>, a: Address, cpu: Cpu)
    requires cpu.pc == a
    ensures var ws := MovImmediate(17, imm); var end := Past(a, |ws|);
      1 <= |ws| <= 4 && Run(ws + rest, a, cpu) == Run(rest, end, cpu.(pc := end, x17 := imm))
  {
    hide Run, Exec, Piece, IsNarrow, AssembleMov, UsualFrom, MovesFrom, After, Count, Past;
    if IsNarrow(imm) {
      NarrowRuns(imm, rest, a, cpu);
    } else {
      var ones := Count(imm, 0xFFFF) > Count(imm, 0);
      NothingYet(imm, ones);
      MovesRun(imm, ones, 4, true, rest, a, cpu);
    }
  }

  lemma NarrowMove(imm: bv64, was: bv64)
    requires IsNarrow(imm)
    ensures Moved(false, 0, Piece(imm, 0) ^ 0xFFFF, 0, was) == Some(imm)
  {
    NarrowParts(imm);
    NarrowInverse(imm);
  }

  lemma NarrowParts(imm: bv64)
    requires (imm >> 48) & 0xFFFF == 0 && (imm >> 32) & 0xFFFF == 0 && (imm >> 16) & 0xFFFF == 0xFFFF
    ensures 0xFFFF_0000 | (imm & 0xFFFF) == imm
  {
  }

  lemma NarrowInverse(imm: bv64)
    ensures !((imm & 0xFFFF) ^ 0xFFFF) & 0xFFFF_FFFF == 0xFFFF_0000 | (imm & 0xFFFF)
  {
  }

  lemma NothingYet(imm: bv64, ones: bool)
    ensures UsualFrom(imm, ones, 4)
  {
  }

  // How many of the first n pieces are this one.
  function Same(imm: bv64, p: bv64, n: nat): (c: nat)
    requires n <= 4
    ensures c <= n
  {
    if n == 0 then 0 else (if Piece(imm, n - 1) == p then 1 else 0) + Same(imm, p, n - 1)
  }

  lemma {:induction false} MovesCount(rd: bv64, imm: bv64, ones: bool, n: nat, first: bool)
    requires n <= 4
    ensures var c := Same(imm, Usual(ones), n);
      |MovesFrom(rd, imm, ones, n, first)| == if first && n > 0 && c == n then 1 else n - c
    decreases n
  {
    hide MoveOf, Piece, Usual;
    if n > 0 {
      MovesCount(rd, imm, ones, n - 1, false);
      MovesCount(rd, imm, ones, n - 1, first);
    }
  }

  // How many of the four pieces of 16 bits are this one.
  function Times(imm: bv64, p: bv64): nat {
    (if imm & 0xFFFF == p then 1 else 0) + (if (imm >> 16) & 0xFFFF == p then 1 else 0)
    + (if (imm >> 32) & 0xFFFF == p then 1 else 0) + (if imm >> 48 == p then 1 else 0)
  }

  lemma PiecesAre(imm: bv64)
    ensures imm & 0xFFFF == Piece(imm, 0) && (imm >> 16) & 0xFFFF == Piece(imm, 1)
    ensures (imm >> 32) & 0xFFFF == Piece(imm, 2) && imm >> 48 == Piece(imm, 3)
  {
  }

  lemma CountIs(imm: bv64, p: bv64)
    ensures Count(imm, p) == Times(imm, p) <= 4
  {
    hide Piece;
    PiecesAre(imm);
  }

  lemma SameIs(imm: bv64, p: bv64)
    ensures Same(imm, p, 4) == Count(imm, p)
  {
    hide Piece;
    assert Same(imm, p, 2) == (if Piece(imm, 1) == p then 1 else 0) + Same(imm, p, 1);
    assert Same(imm, p, 3) == (if Piece(imm, 2) == p then 1 else 0) + Same(imm, p, 2);
  }

  // It takes a move for each piece that is not the more frequent one of 0 and FFFF, and one at least; a
  // constant of 32 bits with FFFF above takes one.
  lemma MovImmediateLength(rd: bv64, imm: bv64)
    ensures var zeros, ones := Times(imm, 0), Times(imm, 0xFFFF);
      |MovImmediate(rd, imm)| == if imm >> 16 == 0xFFFF || zeros == 4 || ones == 4 then 1 else 4 - if ones > zeros then ones else zeros
  {
    hide MovesFrom, Count, IsNarrow, Same, Times;
    NarrowIs(imm);
    CountIs(imm, 0);
    CountIs(imm, 0xFFFF);
    SameIs(imm, 0);
    SameIs(imm, 0xFFFF);
    MovesCount(rd, imm, Count(imm, 0xFFFF) > Count(imm, 0), 4, true);
  }

  lemma NarrowIs(imm: bv64)
    ensures IsNarrow(imm) <==> imm >> 16 == 0xFFFF
  {
  }
}
