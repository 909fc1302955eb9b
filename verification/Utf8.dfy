// Strict UTF-8 (sections 3 and 4 of RFC 3629), as decoded incrementally and encoded
// by core/include/core/utf8.hpp.
module Utf8 {

  type byte = x: int | 0 <= x < 0x100

  datatype DecodeResult =
    | Complete(codepoint: nat, length: nat)
    | Incomplete
    | Invalid

  // The Unicode scalar values: every code point that has a UTF-8 encoding.
  predicate IsScalar(cp: int) {
    0 <= cp <= 0x10ffff && !(0xd800 <= cp <= 0xdfff)
  }

  // The encoding table of RFC 3629, section 3. It is the reference against which both
  // directions of the codec are proved.
  function Encode(cp: nat): (s: seq<byte>)
    requires cp <= 0x10ffff
    ensures 1 <= |s| <= 4
  {
    if cp < 0x80 then [cp]
    else if cp < 0x800 then [0xc0 + cp / 0x40, 0x80 + cp % 0x40]
    else if cp < 0x10000 then [0xe0 + cp / 0x1000, 0x80 + cp / 0x40 % 0x40, 0x80 + cp % 0x40]
    else [0xf0 + cp / 0x40000, 0x80 + cp / 0x1000 % 0x40, 0x80 + cp / 0x40 % 0x40, 0x80 + cp % 0x40]
  }

  // Length announced by a leading byte; 0 when no sequence may start with it.
  function LeadLength(first: byte): nat {
    if first < 0x80 then 1
    else if 0xc2 <= first <= 0xdf then 2
    else if 0xe0 <= first <= 0xef then 3
    else if 0xf0 <= first <= 0xf4 then 4
    else 0
  }

  function LeadBits(first: byte): nat
    requires LeadLength(first) != 0
  {
    match LeadLength(first)
    case 1 => first
    case 2 => first % 0x20
    case 3 => first % 0x10
    case _ => first % 0x08
  }

  // Smallest code point that needs a sequence of the given length.
  function Minimum(length: nat): nat {
    match length
    case 2 => 0x80
    case 3 => 0x800
    case 4 => 0x10000
    case _ => 0
  }

  predicate IsContinuation(b: byte) { b / 0x40 == 2 }

  // The payload bits of the first n bytes of a sequence.
  function Accumulate(data: seq<byte>, n: nat): nat
    requires 1 <= n <= |data| && LeadLength(data[0]) != 0
  {
    if n == 1 then LeadBits(data[0]) else Accumulate(data, n - 1) * 0x40 + data[n - 1] % 0x40
  }

  function Min(a: nat, b: nat): nat { if a < b then a else b }

  // What the decoder answers for the bytes seen so far.
  function Decode(data: seq<byte>): DecodeResult {
    if |data| == 0 then Incomplete
    else
      var length := LeadLength(data[0]);
      if length == 0 then Invalid
      else if exists i :: 1 <= i < Min(length, |data|) && !IsContinuation(data[i]) then Invalid
      else if |data| < length then Incomplete
      else
        var cp := Accumulate(data, length);
        if cp < Minimum(length) || !IsScalar(cp) then Invalid else Complete(cp, length)
  }

  // utf8_decode: one pass over the bytes, folding the payload as it goes.
  method DecodeBytes(data: seq<byte>) returns (result: DecodeResult)
    ensures result == Decode(data)
  {
    if |data| == 0 {
      return Incomplete;
    }
    var first := data[0];
    var codepoint: nat, length: nat, minimum: nat := 0, 0, 0;
    if first < 0x80 {
      codepoint, length := first, 1;
    } else if 0xc2 <= first <= 0xdf {
      codepoint, length, minimum := first % 0x20, 2, 0x80;
    } else if 0xe0 <= first <= 0xef {
      codepoint, length, minimum := first % 0x10, 3, 0x800;
    } else if 0xf0 <= first <= 0xf4 {
      codepoint, length, minimum := first % 0x08, 4, 0x10000;
    } else {
      return Invalid;
    }
    var index := 1;
    while index < length && index < |data|
      invariant 1 <= index <= length == LeadLength(first) && index <= |data|
      invariant codepoint == Accumulate(data, index)
      invariant forall i :: 1 <= i < index ==> IsContinuation(data[i])
    {
      if data[index] / 0x40 != 2 {
        return Invalid;
      }
      codepoint := codepoint * 0x40 + data[index] % 0x40;
      index := index + 1;
    }
    if |data| < length {
      return Incomplete;
    }
    if codepoint < minimum || codepoint > 0x10ffff || 0xd800 <= codepoint <= 0xdfff {
      return Invalid;
    }
    return Complete(codepoint, length);
  }

  // utf8_encode. Its callers only pass code points up to U+10FFFF.
  method EncodeBytes(codepoint: nat) returns (text: seq<byte>)
    requires codepoint <= 0x10ffff
    ensures text == Encode(codepoint)
  {
    text := [];
    if codepoint < 0x80 {
      text := text + [codepoint];
    } else if codepoint < 0x800 {
      text := text + [0xc0 + codepoint / 0x40];
      text := text + [0x80 + codepoint % 0x40];
    } else if codepoint < 0x10000 {
      text := text + [0xe0 + codepoint / 0x1000];
      text := text + [0x80 + codepoint / 0x40 % 0x40];
      text := text + [0x80 + codepoint % 0x40];
    } else {
      text := text + [0xf0 + codepoint / 0x40000];
      text := text + [0x80 + codepoint / 0x1000 % 0x40];
      text := text + [0x80 + codepoint / 0x40 % 0x40];
      text := text + [0x80 + codepoint % 0x40];
    }
  }

  // ----- The decoder meets the reference table

  lemma AccumulateUnrolled(data: seq<byte>, n: nat)
    requires 1 <= n <= |data| && n <= 4 && LeadLength(data[0]) != 0
    ensures n == 1 ==> Accumulate(data, n) == LeadBits(data[0])
    ensures n == 2 ==> Accumulate(data, n) == LeadBits(data[0]) * 0x40 + data[1] % 0x40
    ensures n == 3 ==> Accumulate(data, n) == (LeadBits(data[0]) * 0x40 + data[1] % 0x40) * 0x40 + data[2] % 0x40
    ensures n == 4 ==> Accumulate(data, n) ==
                       ((LeadBits(data[0]) * 0x40 + data[1] % 0x40) * 0x40 + data[2] % 0x40) * 0x40 + data[3] % 0x40
  {
    if n > 1 {
      AccumulateUnrolled(data, n - 1);
    }
  }

  // One six-bit digit shifted in and out again.
  lemma Digit(q: nat, r: nat)
    requires r < 0x40
    ensures (q * 0x40 + r) / 0x40 == q && (q * 0x40 + r) % 0x40 == r
  {
  }

  lemma Regroup(cp: nat)
    ensures cp / 0x1000 == cp / 0x40 / 0x40
    ensures cp / 0x40000 == cp / 0x1000 / 0x40
  {
  }

  // Payload and bytes determine each other, for each length.
  lemma Bytes2(b0: byte, b1: byte, cp: nat)
    requires 0xc2 <= b0 <= 0xdf && IsContinuation(b1)
    requires cp == b0 % 0x20 * 0x40 + b1 % 0x40
    ensures b0 == 0xc0 + cp / 0x40 && b1 == 0x80 + cp % 0x40
    ensures cp >= 0x80 ==> Encode(cp) == [b0, b1]
  {
    Digit(b0 % 0x20, b1 % 0x40);
  }

  lemma Bytes3(b0: byte, b1: byte, b2: byte, cp: nat)
    requires 0xe0 <= b0 <= 0xef && IsContinuation(b1) && IsContinuation(b2)
    requires cp == (b0 % 0x10 * 0x40 + b1 % 0x40) * 0x40 + b2 % 0x40
    ensures cp >= 0x800 ==> Encode(cp) == [b0, b1, b2]
    ensures b0 == 0xe0 + cp / 0x1000 && b1 == 0x80 + cp / 0x40 % 0x40 && b2 == 0x80 + cp % 0x40
  {
    Digit(b0 % 0x10, b1 % 0x40);
    Digit(b0 % 0x10 * 0x40 + b1 % 0x40, b2 % 0x40);
    Regroup(cp);
  }

  lemma Bytes4(b0: byte, b1: byte, b2: byte, b3: byte, cp: nat)
    requires 0xf0 <= b0 <= 0xf4 && IsContinuation(b1) && IsContinuation(b2) && IsContinuation(b3)
    requires cp == ((b0 % 0x08 * 0x40 + b1 % 0x40) * 0x40 + b2 % 0x40) * 0x40 + b3 % 0x40
    ensures b0 == 0xf0 + cp / 0x40000 && b1 == 0x80 + cp / 0x1000 % 0x40
    ensures b2 == 0x80 + cp / 0x40 % 0x40 && b3 == 0x80 + cp % 0x40
    ensures 0x10000 <= cp <= 0x10ffff ==> Encode(cp) == [b0, b1, b2, b3]
  {
    var q := b0 % 0x08 * 0x40 + b1 % 0x40;
    Digit(b0 % 0x08, b1 % 0x40);
    Digit(q, b2 % 0x40);
    Digit(q * 0x40 + b2 % 0x40, b3 % 0x40);
    Regroup(cp);
  }

  // The bytes of an accepted sequence, given the payload they fold to.
  lemma PayloadEncodes(data: seq<byte>, cp: nat)
    requires data != [] && 1 <= LeadLength(data[0]) <= |data|
    requires forall i :: 1 <= i < LeadLength(data[0]) ==> IsContinuation(data[i])
    requires cp == Accumulate(data, LeadLength(data[0])) && Minimum(LeadLength(data[0])) <= cp <= 0x10ffff
    ensures Encode(cp) == data[..LeadLength(data[0])]
  {
    hide Encode, IsContinuation, Accumulate;
    var length := LeadLength(data[0]);
    AccumulateUnrolled(data, length);
    if length == 1 {
      OneByte(cp);
    } else if length == 2 {
      Bytes2(data[0], data[1], cp);
      assert data[..2] == [data[0], data[1]];
    } else if length == 3 {
      Bytes3(data[0], data[1], data[2], cp);
      assert data[..3] == [data[0], data[1], data[2]];
    } else {
      Bytes4(data[0], data[1], data[2], data[3], cp);
      assert data[..4] == [data[0], data[1], data[2], data[3]];
    }
  }

  lemma OneByte(cp: nat)
    requires cp < 0x80
    ensures Encode(cp) == [cp]
  {
  }

  // Whatever is accepted is exactly the encoding of a scalar value: no overlong form, no
  // surrogate, nothing above U+10FFFF.
  lemma DecodeIsSound(data: seq<byte>)
    requires Decode(data).Complete?
    ensures IsScalar(Decode(data).codepoint)
    ensures 1 <= Decode(data).length <= |data|
    ensures Encode(Decode(data).codepoint) == data[..Decode(data).length]
  {
    hide Encode, Accumulate, LeadBits, IsContinuation;
    PayloadEncodes(data, Decode(data).codepoint);
  }

  lemma ContinuationByte(digit: nat)
    requires digit < 0x40
    ensures IsContinuation(0x80 + digit) && (0x80 + digit) % 0x40 == digit
  {
  }

  lemma EncodedBytes(cp: nat)
    requires IsScalar(cp)
    ensures var e := Encode(cp);
            && LeadLength(e[0]) == |e|
            && (forall i :: 1 <= i < |e| ==> IsContinuation(e[i]))
            && Accumulate(e, |e|) == cp
            && Minimum(|e|) <= cp
  {
    var e := Encode(cp);
    Regroup(cp);
    ContinuationByte(cp % 0x40);
    ContinuationByte(cp / 0x40 % 0x40);
    ContinuationByte(cp / 0x1000 % 0x40);
    if cp >= 0x10000 {
      Four(cp);
    } else if cp >= 0x800 {
      Three(cp);
    } else if cp >= 0x80 {
      AccumulateUnrolled(e, 2);
    }
  }

  lemma Three(cp: nat)
    requires 0x800 <= cp < 0x10000
    ensures LeadLength(Encode(cp)[0]) == 3 && Accumulate(Encode(cp), 3) == cp
  {
    var e := Encode(cp);
    Regroup(cp);
    ContinuationByte(cp % 0x40);
    ContinuationByte(cp / 0x40 % 0x40);
    AccumulateUnrolled(e, 3);
    assert LeadBits(e[0]) == cp / 0x1000;
  }

  lemma Four(cp: nat)
    requires 0x10000 <= cp <= 0x10ffff
    ensures LeadLength(Encode(cp)[0]) == 4 && Accumulate(Encode(cp), 4) == cp
  {
    var e := Encode(cp);
    Regroup(cp);
    ContinuationByte(cp % 0x40);
    ContinuationByte(cp / 0x40 % 0x40);
    ContinuationByte(cp / 0x1000 % 0x40);
    AccumulateUnrolled(e, 4);
    assert LeadBits(e[0]) == cp / 0x40000;
  }

  // The folded payload only depends on the bytes folded.
  lemma AccumulatePrefix(data: seq<byte>, more: seq<byte>, n: nat)
    requires 1 <= n <= |data| && n <= |more| && data[..n] == more[..n] && LeadLength(data[0]) != 0
    ensures data[0] == more[0]
    ensures Accumulate(data, n) == Accumulate(more, n)
  {
    assert data[0] == data[..n][0] == more[..n][0] == more[0];
    if n > 1 {
      assert data[n - 1] == data[..n][n - 1] == more[..n][n - 1] == more[n - 1];
      assert data[..n - 1] == data[..n][..n - 1] == more[..n][..n - 1] == more[..n - 1];
      AccumulatePrefix(data, more, n - 1);
    }
  }

  // Every scalar value is read back from its encoding, whatever follows it.
  lemma DecodeIsComplete(cp: nat, rest: seq<byte>)
    requires IsScalar(cp)
    ensures Decode(Encode(cp) + rest) == Complete(cp, |Encode(cp)|)
  {
    var e := Encode(cp);
    var data := e + rest;
    EncodedBytes(cp);
    assert data[..|e|] == e == e[..|e|];
    AccumulatePrefix(e, data, |e|);
    assert forall i :: 1 <= i < |e| ==> data[i] == e[i] && IsContinuation(e[i]);
  }

  // Both directions at once.
  lemma DecodeCharacterized(data: seq<byte>, cp: nat, length: nat)
    ensures Decode(data) == Complete(cp, length) <==>
            IsScalar(cp) && length <= |data| && data[..length] == Encode(cp)
  {
    if Decode(data) == Complete(cp, length) {
      DecodeIsSound(data);
    }
    if IsScalar(cp) && length <= |data| && data[..length] == Encode(cp) {
      DecodeIsComplete(cp, data[length..]);
      assert Encode(cp) + data[length..] == data;
    }
  }

  // Incremental reading: a proper prefix of a character only asks for more bytes, and the
  // bytes after a character do not change how it is read.
  lemma DecodePrefix(data: seq<byte>, k: nat)
    requires Decode(data).Complete? && k <= |data|
    ensures k < Decode(data).length ==> Decode(data[..k]) == Incomplete
    ensures Decode(data).length <= k ==> Decode(data[..k]) == Decode(data)
  {
    var length := LeadLength(data[0]);
    if length <= k {
      AccumulatePrefix(data, data[..k], length);
    }
  }

  // Four bytes always decide, so a four-byte pending buffer is enough.
  lemma DecodeDecides(data: seq<byte>)
    requires |data| >= 4
    ensures Decode(data) != Incomplete
  {
  }

  lemma IncompleteIsShort(data: seq<byte>)
    ensures Decode(data) == Incomplete ==> |data| <= 3
  {
    hide Decode;
    if |data| > 3 {
      DecodeDecides(data);
    }
  }

  // Encodings are ordered byte by byte as their code points are.
  ghost predicate Before(a: seq<byte>, b: seq<byte>, k: nat) {
    k < |a| && k < |b| && a[..k] == b[..k] && a[k] < b[k]
  }

  lemma EncodeOrdered(a: nat, b: nat) returns (k: nat)
    requires a < b <= 0x10ffff
    ensures Before(Encode(a), Encode(b), k)
  {
    var e, f := Encode(a), Encode(b);
    if |e| < |f| || |e| == 1 || e[0] < f[0] {
      k := 0;
    } else {
      SameLength(a, b);
      k := if e[1] < f[1] then 1 else if e[2] < f[2] then 2 else 3;
    }
  }

  lemma SameLength(a: nat, b: nat)
    requires a < b <= 0x10ffff && |Encode(a)| >= |Encode(b)| > 1 && Encode(a)[0] >= Encode(b)[0]
    ensures var e, f := Encode(a), Encode(b);
            && |e| == |f| && e[0] == f[0] && e[1] <= f[1]
            && (e[1] == f[1] ==> |e| > 2 && e[2] <= f[2] && (e[2] == f[2] ==> |e| > 3 && e[3] < f[3]))
  {
    LastDigit(a, b);
    LastDigit(a / 0x40, b / 0x40);
    LastDigit(a / 0x40 / 0x40, b / 0x40 / 0x40);
    Regroup(a);
    Regroup(b);
  }

  lemma LastDigit(a: nat, b: nat)
    ensures a < b ==> a / 0x40 < b / 0x40 || (a / 0x40 == b / 0x40 && a % 0x40 < b % 0x40)
    ensures a == b ==> a / 0x40 == b / 0x40 && a % 0x40 == b % 0x40
  {
  }

  // ----- Whole texts

  predicate WellFormed(text: seq<byte>) {
    text == [] ||
    (Decode(text).Complete? && 1 <= Decode(text).length <= |text| && WellFormed(text[Decode(text).length..]))
  }

  // A sequence of characters written out.
  function EncodeAll(cps: seq<nat>): seq<byte>
    requires forall c :: c in cps ==> IsScalar(c)
  {
    if cps == [] then []
    else
      assert IsScalar(cps[0]);
      Encode(cps[0]) + EncodeAll(cps[1..])
  }

  lemma DecodeStable(text: seq<byte>, rest: seq<byte>)
    requires Decode(text).Complete?
    ensures Decode(text + rest) == Decode(text)
    ensures 1 <= Decode(text).length <= |text|
  {
    DecodeIsSound(text);
    var cp := Decode(text).codepoint;
    var n := Decode(text).length;
    assert text + rest == Encode(cp) + (text[n..] + rest);
    DecodeIsComplete(cp, text[n..] + rest);
    assert text == Encode(cp) + text[n..];
    DecodeIsComplete(cp, text[n..]);
  }

  // After a well-formed prefix, the whole is well formed exactly when the rest is.
  lemma {:induction false} WellFormedConcat(a: seq<byte>, b: seq<byte>)
    requires WellFormed(a)
    ensures WellFormed(a + b) <==> WellFormed(b)
  {
    if a == [] {
      assert a + b == b;
    } else {
      var n := Decode(a).length;
      DecodeStable(a, b);
      assert (a + b)[n..] == a[n..] + b;
      WellFormedConcat(a[n..], b);
    }
  }
}
