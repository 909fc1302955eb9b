// book_crc32 (reflected CRC-32, section 8 of RFC 1952) on 32-bit words kept as integers.
module Crc32 {
  import opened Utf8

  type u32 = x: int | 0 <= x < 0x1_0000_0000

  const ALL_ONES: u32 := 0xffff_ffff
  const POLYNOMIAL: u32 := 0xedb8_8320

  // ----- Exclusive or

  // The source's ^ operator, bit by bit.
  function Xor(a: nat, b: nat): nat
    decreases a + b
  {
    if a == 0 && b == 0 then 0 else (a % 2 + b % 2) % 2 + 2 * Xor(a / 2, b / 2)
  }

  function Pow2(k: nat): nat { if k == 0 then 1 else 2 * Pow2(k - 1) }

  // The last bit, and the bits above it.
  lemma XorBits(a: nat, b: nat)
    ensures Xor(a, b) % 2 == (a % 2 + b % 2) % 2
    ensures Xor(a, b) / 2 == Xor(a / 2, b / 2)
  {
  }

  lemma {:induction false} XorCancels(a: nat, b: nat)
    ensures Xor(Xor(a, b), b) == a
    decreases a + b
  {
    if a == 0 && b == 0 {
    } else {
      XorCancels(a / 2, b / 2);
      XorBits(a, b);
      XorBits(Xor(a, b), b);
      LastBitCancels(a, b);
    }
  }

  lemma LastBitCancels(a: nat, b: nat)
    ensures ((a % 2 + b % 2) % 2 + b % 2) % 2 == a % 2
  {
  }

  lemma {:induction false} XorCommutes(a: nat, b: nat)
    ensures Xor(a, b) == Xor(b, a)
    decreases a + b
  {
    if a != 0 || b != 0 {
      XorCommutes(a / 2, b / 2);
    }
  }

  lemma {:induction false} XorBelow(a: nat, b: nat, k: nat)
    requires a < Pow2(k) && b < Pow2(k)
    ensures Xor(a, b) < Pow2(k)
    decreases k
  {
    if k > 0 && (a != 0 || b != 0) {
      XorBelow(a / 2, b / 2, k - 1);
    }
  }

  // A word with its top bit set keeps it when a word without it is added in.
  lemma {:induction false} XorTop(a: nat, b: nat, k: nat)
    requires a < Pow2(k) && Pow2(k) <= b < Pow2(k + 1)
    ensures Pow2(k) <= Xor(a, b)
    decreases k
  {
    if k > 0 {
      XorTop(a / 2, b / 2, k - 1);
    }
  }

  lemma Pow32()
    ensures Pow2(31) == 0x8000_0000 && Pow2(32) == 0x1_0000_0000
  {
    assert Pow2(8) == 0x100;
    assert Pow2(16) == 0x1_0000;
    assert Pow2(24) == 0x100_0000;
  }

  lemma WordXor(a: u32, b: u32)
    ensures Xor(a, b) < 0x1_0000_0000
  {
    Pow32();
    XorBelow(a, b, 32);
  }

  // A byte, or another word, can be told from the sum.
  lemma XorInjective(a: nat, b: nat, c: nat)
    requires Xor(c, a) == Xor(c, b)
    ensures a == b
  {
    XorCommutes(c, a);
    XorCommutes(c, b);
    XorCancels(a, c);
    XorCancels(b, c);
  }

  // ----- The register

  // One turn of the inner loop.
  function Shift(c: u32): (r: u32) {
    WordXor(c / 2, POLYNOMIAL);
    if c % 2 == 1 then Xor(c / 2, POLYNOMIAL) else c / 2
  }

  // The polynomial has its top bit set, so the bit shifted out can be seen in the result.
  lemma ShiftInjective(c: u32, d: u32)
    requires Shift(c) == Shift(d)
    ensures c == d
  {
    Pow32();
    XorTop(c / 2, POLYNOMIAL, 31);
    XorTop(d / 2, POLYNOMIAL, 31);
    if c % 2 == 1 && d % 2 == 1 {
      XorCancels(c / 2, POLYNOMIAL);
      XorCancels(d / 2, POLYNOMIAL);
    }
  }

  function Shifts(c: u32, n: nat): u32 { if n == 0 then c else Shift(Shifts(c, n - 1)) }

  lemma {:induction false} ShiftsInjective(c: u32, d: u32, n: nat)
    requires Shifts(c, n) == Shifts(d, n)
    ensures c == d
  {
    if n > 0 {
      ShiftInjective(Shifts(c, n - 1), Shifts(d, n - 1));
      ShiftsInjective(c, d, n - 1);
    }
  }

  function Step(c: u32, b: byte): u32 {
    WordXor(c, b);
    Shifts(Xor(c, b), 8)
  }

  // The register step is injective in the register and in the input byte.
  lemma StepInjective(c: u32, d: u32, b: byte, e: byte)
    requires Step(c, b) == Step(d, e)
    ensures b == e ==> c == d
    ensures c == d ==> b == e
  {
    WordXor(c, b);
    WordXor(d, e);
    ShiftsInjective(Xor(c, b), Xor(d, e), 8);
    if b == e {
      XorCancels(c, b);
      XorCancels(d, b);
    }
    if c == d {
      XorInjective(b, e, c);
    }
  }

  function Register(c: u32, data: seq<byte>): u32
    decreases |data|
  {
    if data == [] then c else Register(Step(c, data[0]), data[1..])
  }

  // book_crc32: the checksum of a block, continuing an earlier one.
  function Crc(data: seq<byte>, previous: u32): u32 {
    WordXor(previous, ALL_ONES);
    WordXor(Register(Xor(previous, ALL_ONES), data), ALL_ONES);
    Xor(Register(Xor(previous, ALL_ONES), data), ALL_ONES)
  }

  method ChecksumBlock(data: seq<byte>, previous: u32) returns (checksum: u32)
    ensures checksum == Crc(data, previous)
  {
    WordXor(previous, ALL_ONES);
    var crc: u32 := Xor(previous, ALL_ONES);
    var i := 0;
    while i < |data|
      invariant 0 <= i <= |data|
      invariant Register(Xor(previous, ALL_ONES), data) == Register(crc, data[i..])
    {
      ghost var before := crc;
      WordXor(crc, data[i]);
      crc := Xor(crc, data[i]);
      var bit := 0;
      while bit < 8
        invariant 0 <= bit <= 8
        invariant crc == Shifts(Xor(before, data[i]), bit)
      {
        WordXor(crc / 2, POLYNOMIAL);
        crc := if crc % 2 == 1 then Xor(crc / 2, POLYNOMIAL) else crc / 2;
        bit := bit + 1;
      }
      assert data[i..][1..] == data[i + 1..];
      i := i + 1;
    }
    assert data[i..] == [];
    WordXor(crc, ALL_ONES);
    checksum := Xor(crc, ALL_ONES);
  }

  // ----- What the checksum is good for

  lemma {:induction false} RegisterSplit(c: u32, a: seq<byte>, b: seq<byte>)
    ensures Register(c, a + b) == Register(Register(c, a), b)
    decreases |a|
  {
    if a == [] {
      assert a + b == b;
    } else {
      assert (a + b)[1..] == a[1..] + b;
      RegisterSplit(Step(c, a[0]), a[1..], b);
    }
  }

  // Checksumming in any split equals checksumming at once.
  lemma CrcSplit(a: seq<byte>, b: seq<byte>, previous: u32)
    ensures Crc(a + b, previous) == Crc(b, Crc(a, previous))
  {
    hide Step, Xor;
    WordXor(previous, ALL_ONES);
    var c: u32 := Xor(previous, ALL_ONES);
    RegisterSplit(c, a, b);
    WordXor(Register(c, a), ALL_ONES);
    XorCancels(Register(c, a), ALL_ONES);
  }

  lemma {:induction false} RegisterInjective(c: u32, d: u32, data: seq<byte>)
    requires Register(c, data) == Register(d, data)
    ensures c == d
    decreases |data|
  {
    if data != [] {
      RegisterInjective(Step(c, data[0]), Step(d, data[0]), data[1..]);
      StepInjective(c, d, data[0], data[0]);
    }
  }

  // Exactly one byte of a block was changed.
  ghost predicate OneByteChanged(a: seq<byte>, b: seq<byte>) {
    |a| == |b| && exists k :: 0 <= k < |a| && ChangedAt(a, b, k)
  }

  ghost predicate ChangedAt(a: seq<byte>, b: seq<byte>, k: nat)
    requires k < |a| == |b|
  {
    a[k] != b[k] && a[..k] == b[..k] && a[k + 1..] == b[k + 1..]
  }

  // Any change of one byte changes the checksum.
  lemma CrcDetects(a: seq<byte>, b: seq<byte>, previous: u32)
    requires OneByteChanged(a, b)
    ensures Crc(a, previous) != Crc(b, previous)
  {
    hide Step, Xor;
    var k :| 0 <= k < |a| && ChangedAt(a, b, k);
    WordXor(previous, ALL_ONES);
    var c: u32 := Xor(previous, ALL_ONES);
    if Crc(a, previous) == Crc(b, previous) {
      XorCancels(Register(c, a), ALL_ONES);
      XorCancels(Register(c, b), ALL_ONES);
      var r := Register(c, a[..k]);
      RegisterAround(c, a, k);
      RegisterAround(c, b, k);
      RegisterInjective(Step(r, a[k]), Step(r, b[k]), a[k + 1..]);
      StepInjective(r, r, a[k], b[k]);
      assert false;
    }
  }

  lemma RegisterAround(c: u32, data: seq<byte>, k: nat)
    requires k < |data|
    ensures Register(c, data) == Register(Step(Register(c, data[..k]), data[k]), data[k + 1..])
  {
    hide Step;
    assert data == data[..k] + data[k..];
    RegisterSplit(c, data[..k], data[k..]);
    assert data[k..][1..] == data[k + 1..];
  }
}
