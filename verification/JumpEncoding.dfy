// The jumps that hooking writes over code, byte by byte, for 64-bit x86.
module JumpEncoding {

  type Byte = x: int | 0 <= x < 256

  const TWO_TO_31: int := 0x8000_0000
  const TWO_TO_32: int := 0x1_0000_0000
  const SIZE_OF_JMP: nat := 5
  const BRK: Byte := 0xCC

  predicate FitsInt32(n: int) {
    -TWO_TO_31 <= n < TWO_TO_31
  }

  // The cast to INT32.
  function Wrap32(n: int): (r: int)
    ensures FitsInt32(r) && (FitsInt32(n) ==> r == n)
  {
    (n + TWO_TO_31) % TWO_TO_32 - TWO_TO_31
  }

  // Four bytes, the lowest first.
  function Bytes32(n: int): (b: seq<Byte>)
    ensures |b| == 4
  {
    [n % 256, n / 256 % 256, n / 65536 % 256, n / 16777216 % 256]
  }

  function Unsigned32(b: seq<Byte>): (u: int)
    requires |b| == 4
    ensures 0 <= u < TWO_TO_32
  {
    var b0: int, b1: int, b2: int, b3: int := b[0], b[1], b[2], b[3];
    b0 + 256 * b1 + 65536 * b2 + 16777216 * b3
  }

  // What reading them as an INT32 gives.
  function Signed32(b: seq<Byte>): int
    requires |b| == 4
  {
    var u := Unsigned32(b);
    if u < TWO_TO_31 then u else u - TWO_TO_32
  }

  lemma Int32RoundTrip(n: int)
    ensures Signed32(Bytes32(n)) == Wrap32(n)
  {
    var a, b, c := n / 256, n / 65536, n / 16777216;
    assert b == a / 256 && c == b / 256;
    var d := c / 256;
    assert n == n % 256 + 256 * a && a == a % 256 + 256 * b && b == b % 256 + 256 * c && c == c % 256 + 256 * d;
    var u := n % 256 + 256 * (a % 256) + 65536 * (b % 256) + 16777216 * (c % 256);
    assert n == u + TWO_TO_32 * d && 0 <= u < TWO_TO_32;
    WrapOf(n, u, d);
  }

  lemma WrapOf(n: int, u: int, d: int)
    requires n == u + TWO_TO_32 * d && 0 <= u < TWO_TO_32
    ensures Wrap32(n) == if u < TWO_TO_31 then u else u - TWO_TO_32
  {
    var m := n + TWO_TO_31;
    if u < TWO_TO_31 {
      assert m == (u + TWO_TO_31) + TWO_TO_32 * d;
    } else {
      assert m == (u - TWO_TO_31) + TWO_TO_32 * (d + 1);
    }
  }

  // The four bytes tell two numbers apart exactly when the cast does.
  lemma BytesAndWrap(m: int, n: int)
    ensures Bytes32(m) == Bytes32(n) <==> Wrap32(m) == Wrap32(n)
  {
    Int32RoundTrip(m);
    Int32RoundTrip(n);
    if Wrap32(m) == Wrap32(n) {
      Recode(Bytes32(m));
      Recode(Bytes32(n));
    }
  }

  // The lowest byte of a number, and what stands above it.
  lemma LowByte(b: Byte, more: int)
    ensures (b + 256 * more) % 256 == b && (b + 256 * more) / 256 == more
  {
  }

  lemma Shifts(n: int)
    ensures n / 65536 == n / 256 / 256 && n / 16777216 == n / 256 / 256 / 256
  {
  }

  lemma Recode(b: seq<Byte>)
    requires |b| == 4
    ensures Bytes32(Signed32(b)) == b
  {
    var d: int := if Unsigned32(b) < TWO_TO_31 then 0 else -1;
    var low: int := b[3] + 256 * d;
    var high: int := b[2] + 256 * low;
    var all: int := b[1] + 256 * high;
    LowByte(b[3], d);
    LowByte(b[2], low);
    LowByte(b[1], high);
    LowByte(b[0], all);
    Shifts(b[0] + 256 * all);
    assert Signed32(b) == b[0] + 256 * all;
  }

  // detour_gen_jmp_immediate(): jmp +imm32
  function JmpImmediate(code: int, target: int): (b: seq<Byte>)
    ensures |b| == SIZE_OF_JMP
  {
    [0xE9] + Bytes32(target - (code + 5))
  }

  // detour_is_jmp_immediate_to()
  predicate IsJmpImmediateTo(bytes: seq<Byte>, code: int, target: int) {
    |bytes| >= 5 && bytes[0] == 0xE9 && Signed32(bytes[1..5]) == Wrap32(target - (code + 5))
  }

  // detour_gen_jmp_indirect(): jmp [+imm32]
  function JmpIndirect(code: int, vector: int): (b: seq<Byte>)
    ensures |b| == 6
  {
    [0xFF, 0x25] + Bytes32(vector - (code + 6))
  }

  // detour_is_jmp_indirect_to()
  predicate IsJmpIndirectTo(bytes: seq<Byte>, code: int, vector: int) {
    |bytes| >= 6 && bytes[0] == 0xFF && bytes[1] == 0x25 && Signed32(bytes[2..6]) == Wrap32(vector - (code + 6))
  }

  // Where the processor goes from here, for the two jumps.
  function JmpTarget(bytes: seq<Byte>, code: int): int
    requires |bytes| >= 5 && bytes[0] == 0xE9
  {
    code + 5 + Signed32(bytes[1..5])
  }

  function JmpVector(bytes: seq<Byte>, code: int): int
    requires |bytes| >= 6 && bytes[0] == 0xFF && bytes[1] == 0x25
  {
    code + 6 + Signed32(bytes[2..6])
  }

  // The test recognizes the jump that was written, and another one only when its target lies a
  // multiple of four gigabytes away; within reach the processor goes where it should.
  lemma JmpImmediateIs(code: int, target: int, other: int)
    ensures var b := JmpImmediate(code, target);
      && (IsJmpImmediateTo(b, code, other) <==> Wrap32(target - (code + 5)) == Wrap32(other - (code + 5)))
      && (JmpTarget(b, code) == target <==> FitsInt32(target - (code + 5)))
  {
    Int32RoundTrip(target - (code + 5));
    assert JmpImmediate(code, target)[1..5] == Bytes32(target - (code + 5));
  }

  // Bytes that pass the test are the jump.
  lemma IsJmpImmediateExactly(bytes: seq<Byte>, code: int, target: int)
    requires |bytes| >= 5
    ensures IsJmpImmediateTo(bytes, code, target) <==> bytes[..5] == JmpImmediate(code, target)
  {
    var d := target - (code + 5);
    Int32RoundTrip(d);
    assert bytes[..5] == [bytes[0]] + bytes[1..5];
    Recode(bytes[1..5]);
    Recode(Bytes32(d));
    assert bytes[1..5] == bytes[..5][1..];
    if IsJmpImmediateTo(bytes, code, target) {
      assert bytes[1..5] == Bytes32(d);
    }
  }

  lemma JmpIndirectIs(code: int, vector: int, other: int)
    ensures var b := JmpIndirect(code, vector);
      && (IsJmpIndirectTo(b, code, other) <==> Wrap32(vector - (code + 6)) == Wrap32(other - (code + 6)))
      && (JmpVector(b, code) == vector <==> FitsInt32(vector - (code + 6)))
  {
    Int32RoundTrip(vector - (code + 6));
    assert JmpIndirect(code, vector)[2..6] == Bytes32(vector - (code + 6));
  }

  // Two numbers that agree after the cast and are near each other are the same.
  lemma WrapNear(m: int, n: int)
    requires Wrap32(m) == Wrap32(n) && -TWO_TO_32 < m - n < TWO_TO_32
    ensures m == n
  {
    var x, y := m + TWO_TO_31, n + TWO_TO_31;
    assert x == TWO_TO_32 * (x / TWO_TO_32) + x % TWO_TO_32 && y == TWO_TO_32 * (y / TWO_TO_32) + y % TWO_TO_32;
  }

  // detour_gen_brk(): filling up to the limit.
  function Brk(n: nat): (b: seq<Byte>)
    ensures |b| == n && forall i :: 0 <= i < n ==> b[i] == BRK
  {
    seq(n, i => BRK)
  }
}
