// Little-endian integers, as the binary formats under services/book store them.
module LittleEndian {
  import opened Utf8

  function Pow256(n: nat): nat { if n == 0 then 1 else 0x100 * Pow256(n - 1) }

  lemma Widths()
    ensures Pow256(4) == 0x1_0000_0000 && Pow256(8) == 0x1_0000_0000_0000_0000
  {
    assert Pow256(2) == 0x1_0000;
    assert Pow256(6) == 0x1_0000_0000_0000;
  }

  // The low n bytes of a value, lowest first.
  function Bytes(value: nat, n: nat): (s: seq<byte>)
    ensures |s| == n
  {
    if n == 0 then [] else [value % 0x100] + Bytes(value / 0x100, n - 1)
  }

  function Value(s: seq<byte>): nat {
    if s == [] then 0 else s[0] + 0x100 * Value(s[1..])
  }

  lemma {:induction false} ValueBelow(s: seq<byte>)
    ensures Value(s) < Pow256(|s|)
  {
    if s != [] {
      ValueBelow(s[1..]);
    }
  }

  // Decoding inverts encoding on values that fit, and encoding inverts decoding.
  lemma {:induction false} ValueOfBytes(value: nat, n: nat)
    requires value < Pow256(n)
    ensures Value(Bytes(value, n)) == value
    decreases n
  {
    if n > 0 {
      ValueOfBytes(value / 0x100, n - 1);
      assert Bytes(value, n)[1..] == Bytes(value / 0x100, n - 1);
    }
  }

  lemma {:induction false} BytesOfValue(s: seq<byte>)
    ensures Bytes(Value(s), |s|) == s
  {
    if s != [] {
      BytesOfValue(s[1..]);
      var rest := Value(s[1..]);
      LowestByte(s[0], rest);
      assert s == [s[0]] + s[1..];
    }
  }

  lemma LowestByte(b: byte, rest: nat)
    ensures (b + 0x100 * rest) % 0x100 == b && (b + 0x100 * rest) / 0x100 == rest
  {
  }

  // A value shifted right by i bytes.
  function ShiftRight(value: nat, i: nat): nat { if i == 0 then value else ShiftRight(value, i - 1) / 0x100 }

  lemma {:induction false} ByteAt(value: nat, n: nat, i: nat)
    requires i < n
    ensures Bytes(value, n)[i] == ShiftRight(value, i) % 0x100
    decreases i
  {
    if i > 0 {
      ByteAt(value / 0x100, n - 1, i - 1);
      ShiftFirst(value, i);
    }
  }

  lemma {:induction false} ShiftFirst(value: nat, i: nat)
    requires i > 0
    ensures ShiftRight(value, i) == ShiftRight(value / 0x100, i - 1)
  {
    if i > 1 {
      ShiftFirst(value, i - 1);
    }
  }

  // encode_u32, book_encode_u64: n bytes written at a position of a buffer.
  method Store(buffer: array<byte>, at: nat, value: nat, n: nat)
    requires at + n <= buffer.Length
    modifies buffer
    ensures buffer[..at] == old(buffer[..at])
    ensures buffer[at..at + n] == Bytes(value, n)
    ensures buffer[at + n..] == old(buffer[at + n..])
  {
    var i := 0;
    ghost var bytes := Bytes(value, n);
    while i < n
      invariant 0 <= i <= n
      invariant buffer[..at] == old(buffer[..at])
      invariant buffer[at..at + i] == bytes[..i]
      invariant buffer[at + n..] == old(buffer[at + n..])
    {
      ByteAt(value, n, i);
      buffer[at + i] := ShiftRight(value, i) % 0x100;
      i := i + 1;
    }
    assert bytes[..n] == bytes;
  }

  lemma {:induction false} ValueSnoc(s: seq<byte>, b: byte)
    ensures Value(s + [b]) == Value(s) + b * Pow256(|s|)
    decreases |s|
  {
    if s == [] {
      assert s + [b] == [b];
      assert [b][1..] == [];
    } else {
      ValueSnoc(s[1..], b);
      assert (s + [b])[1..] == s[1..] + [b];
      var rest := Value(s[1..]);
      var high := Pow256(|s| - 1);
      assert 0x100 * (rest + b * high) == 0x100 * rest + b * (0x100 * high);
    }
  }

  // decode_u32, book_decode_u64. The shifted byte meets only zero bits, so |= adds it.
  method Load(source: seq<byte>) returns (value: nat)
    ensures value == Value(source)
  {
    value := 0;
    var i := 0;
    var unit: nat := 1;
    while i < |source|
      invariant 0 <= i <= |source|
      invariant unit == Pow256(i)
      invariant value == Value(source[..i])
    {
      ValueSnoc(source[..i], source[i]);
      assert source[..i + 1] == source[..i] + [source[i]];
      value := value + source[i] * unit;
      unit := unit * 0x100;
      i := i + 1;
    }
    assert source[..i] == source;
  }
}
