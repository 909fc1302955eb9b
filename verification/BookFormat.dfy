// The page-index file of services/book/book_format.cpp: a 48-byte header followed by one
// 64-bit page start per page.
module BookFormat {
  import opened Options
  import opened Utf8
  import opened Crc32
  import opened LittleEndian

  const HEADER_SIZE: nat := 48
  const OFFSET_WIDTH: nat := 8
  const FORMAT_VERSION: u32 := 1
  const PAGINATION_VERSION: u32 := 2
  // "SSBIDX01"
  const INDEX_MAGIC: seq<byte> := [0x53, 0x53, 0x42, 0x49, 0x44, 0x58, 0x30, 0x31]

  type u64 = x: int | 0 <= x < 0x1_0000_0000_0000_0000

  datatype Header = Header(pageCount: u32, fileSize: u64, offsetsCrc: u32)

  function Max(a: nat, b: nat): nat { if a < b then b else a }

  function IndexSize(pageCount: nat): nat { HEADER_SIZE + pageCount * OFFSET_WIDTH }

  lemma SliceOfSlice<T>(s: seq<T>, a: nat, b: nat, i: nat, j: nat)
    requires a <= b <= |s| && i <= j <= b - a
    ensures s[a..b][i..j] == s[a + i..a + j]
  {
    forall x | 0 <= x < j - i ensures s[a..b][i..j][x] == s[a + i..a + j][x] {
      assert s[a..b][i + x] == s[a + i + x];
    }
  }

  // ----- The header

  // The 36 bytes under the header checksum.
  function Front(h: Header): (s: seq<byte>)
    ensures |s| == 36
  {
    INDEX_MAGIC + Bytes(FORMAT_VERSION, 4) + Bytes(PAGINATION_VERSION, 4) + Bytes(OFFSET_WIDTH, 4)
    + Bytes(h.pageCount, 4) + Bytes(h.fileSize, 8) + Bytes(h.offsetsCrc, 4)
  }

  function HeaderBytes(h: Header): (s: seq<byte>)
    ensures |s| == HEADER_SIZE
  {
    Front(h) + Bytes(Crc(Front(h), 0), 4) + Bytes(0, 8)
  }

  function Field(bytes: seq<byte>, at: nat, n: nat): nat
    requires at + n <= |bytes|
  {
    Value(bytes[at..at + n])
  }

  // book_index_decode: the header of an index file of the given size, for a given text.
  function DecodeHeader(bytes: seq<byte>, indexSize: nat, textSize: nat): Option<Header> {
    if |bytes| < HEADER_SIZE || bytes[..8] != INDEX_MAGIC ||
       Field(bytes, 8, 4) != FORMAT_VERSION ||
       Field(bytes, 12, 4) != PAGINATION_VERSION ||
       Field(bytes, 16, 4) != OFFSET_WIDTH ||
       Field(bytes, 36, 4) != Crc(bytes[..36], 0) || Field(bytes, 40, 8) != 0 then None
    else
      FieldBounds(bytes);
      var h := Header(Field(bytes, 20, 4), Field(bytes, 24, 8), Field(bytes, 32, 4));
      if h.pageCount != 0 && h.fileSize == textSize && h.pageCount <= Max(1, textSize) &&
         indexSize == IndexSize(h.pageCount) then Some(h)
      else None
  }

  // What an accepted header promises.
  lemma DecodedHeader(bytes: seq<byte>, indexSize: nat, textSize: nat)
    requires DecodeHeader(bytes, indexSize, textSize).Some?
    ensures var h := DecodeHeader(bytes, indexSize, textSize).value;
            h.pageCount > 0 && h.fileSize == textSize && h.pageCount <= Max(1, textSize) &&
            indexSize == IndexSize(h.pageCount)
  {
    hide Crc, Value;
  }

  lemma FieldBounds(bytes: seq<byte>)
    requires |bytes| >= HEADER_SIZE
    ensures Field(bytes, 20, 4) < 0x1_0000_0000 && Field(bytes, 32, 4) < 0x1_0000_0000
    ensures Field(bytes, 24, 8) < 0x1_0000_0000_0000_0000
  {
    Widths();
    ValueBelow(bytes[20..24]);
    ValueBelow(bytes[32..36]);
    ValueBelow(bytes[24..32]);
  }

  // book_index_encode, in the caller's buffer.
  method EncodeHeader(h: Header, bytes: array<byte>)
    requires bytes.Length >= HEADER_SIZE
    modifies bytes
    ensures bytes[..HEADER_SIZE] == HeaderBytes(h)
    ensures bytes[HEADER_SIZE..] == old(bytes[HEADER_SIZE..])
  {
    hide Crc, Bytes;
    ghost var tail := bytes[HEADER_SIZE..];
    var i := 0;
    while i < HEADER_SIZE
      invariant 0 <= i <= HEADER_SIZE
      invariant bytes[HEADER_SIZE..] == tail
      invariant forall j :: 0 <= j < i ==> bytes[j] == 0
    {
      bytes[i] := 0;
      i := i + 1;
    }
    Zeros();
    assert bytes[40..48] == Bytes(0, 8);
    i := 0;
    while i < 8
      invariant 0 <= i <= 8
      invariant bytes[..i] == INDEX_MAGIC[..i]
      invariant bytes[40..48] == Bytes(0, 8) && bytes[HEADER_SIZE..] == tail
    {
      bytes[i] := INDEX_MAGIC[i];
      i := i + 1;
    }
    assert bytes[..8] == INDEX_MAGIC;
    ghost var rest := bytes[16..];
    assert rest[24..32] == bytes[40..48] && rest[32..] == bytes[HEADER_SIZE..];
    Store(bytes, 8, FORMAT_VERSION, 4);
    assert bytes[..12] == INDEX_MAGIC + Bytes(FORMAT_VERSION, 4);
    assert bytes[16..] == bytes[12..][4..] == rest;
    Store(bytes, 12, PAGINATION_VERSION, 4);
    assert bytes[..16] == INDEX_MAGIC + Bytes(FORMAT_VERSION, 4) + Bytes(PAGINATION_VERSION, 4);
    SliceOfSlice(bytes[..], 16, bytes.Length, 24, 32);
    SliceOfSlice(bytes[..], 16, bytes.Length, 32, bytes.Length - 16);
    assert bytes[40..48] == bytes[16..][24..32] && bytes[HEADER_SIZE..] == bytes[16..][32..];
    EncodeFields(h, bytes);
  }

  // The rest of book_index_encode.
  method EncodeFields(h: Header, bytes: array<byte>)
    requires bytes.Length >= HEADER_SIZE
    requires bytes[..16] == INDEX_MAGIC + Bytes(FORMAT_VERSION, 4) + Bytes(PAGINATION_VERSION, 4)
    requires bytes[40..48] == Bytes(0, 8)
    modifies bytes
    ensures bytes[..HEADER_SIZE] == HeaderBytes(h)
    ensures bytes[HEADER_SIZE..] == old(bytes[HEADER_SIZE..])
  {
    hide Crc, Bytes;
    ghost var tail := bytes[36..][4..];
    assert tail == bytes[40..];
    ghost var front := bytes[..16];
    Store(bytes, 16, OFFSET_WIDTH, 4);
    assert bytes[40..] == bytes[20..][20..] == tail;
    assert bytes[..20] == front + Bytes(OFFSET_WIDTH, 4);
    Store(bytes, 20, h.pageCount, 4);
    assert bytes[40..] == bytes[24..][16..] == tail;
    assert bytes[..24] == front + Bytes(OFFSET_WIDTH, 4) + Bytes(h.pageCount, 4);
    Store(bytes, 24, h.fileSize, 8);
    assert bytes[..32] == front + Bytes(OFFSET_WIDTH, 4) + Bytes(h.pageCount, 4) + Bytes(h.fileSize, 8);
    assert bytes[40..] == bytes[32..][8..] == tail;
    Store(bytes, 32, h.offsetsCrc, 4);
    assert bytes[40..] == bytes[36..][4..] == tail;
    assert bytes[..36] == Front(h);
    var crc := ChecksumBlock(bytes[..36], 0);
    Store(bytes, 36, crc, 4);
    assert bytes[..40] == Front(h) + Bytes(crc, 4);
    assert bytes[..48] == bytes[..40] + bytes[40..][..8];
    assert bytes[40..][8..] == bytes[HEADER_SIZE..];
  }

  lemma Zeros()
    ensures Bytes(0, 8) == [0, 0, 0, 0, 0, 0, 0, 0]
  {
    assert Bytes(0, 4) == [0, 0, 0, 0];
    assert Bytes(0, 8) == [0, 0, 0, 0] + Bytes(0, 4);
  }

  // The slices of an encoded header.
  lemma HeaderSlices(h: Header)
    ensures var s := HeaderBytes(h);
            && s[..8] == INDEX_MAGIC && s[8..12] == Bytes(FORMAT_VERSION, 4)
            && s[12..16] == Bytes(PAGINATION_VERSION, 4) && s[16..20] == Bytes(OFFSET_WIDTH, 4)
            && s[20..24] == Bytes(h.pageCount, 4) && s[24..32] == Bytes(h.fileSize, 8)
            && s[32..36] == Bytes(h.offsetsCrc, 4) && s[..36] == Front(h)
            && s[36..40] == Bytes(Crc(Front(h), 0), 4) && s[40..48] == Bytes(0, 8)
  {
    hide Crc, Bytes;
  }

  // Encoding then decoding gives the header back exactly when it describes the text and
  // the file it stands in.
  lemma HeaderRoundTrip(h: Header, indexSize: nat, textSize: nat)
    ensures DecodeHeader(HeaderBytes(h), indexSize, textSize) ==
            if h.pageCount != 0 && h.fileSize == textSize && h.pageCount <= Max(1, textSize) &&
               indexSize == IndexSize(h.pageCount) then Some(h) else None
  {
    hide Crc, Bytes, Value, HeaderBytes, Front;
    var s := HeaderBytes(h);
    HeaderSlices(h);
    Widths();
    ValueOfBytes(FORMAT_VERSION, 4);
    ValueOfBytes(PAGINATION_VERSION, 4);
    ValueOfBytes(OFFSET_WIDTH, 4);
    ValueOfBytes(h.pageCount, 4);
    ValueOfBytes(h.fileSize, 8);
    ValueOfBytes(h.offsetsCrc, 4);
    ValueOfBytes(Crc(Front(h), 0), 4);
    ValueOfBytes(0, 8);
  }

  // Only the encoding of a header decodes to it: every header byte is accounted for.
  lemma HeaderBytesUnique(bytes: seq<byte>, indexSize: nat, textSize: nat)
    requires DecodeHeader(bytes, indexSize, textSize).Some?
    ensures bytes[..HEADER_SIZE] == HeaderBytes(DecodeHeader(bytes, indexSize, textSize).value)
  {
    hide Crc, Bytes, Value;
    var h := DecodeHeader(bytes, indexSize, textSize).value;
    BytesOfValue(bytes[8..12]);
    BytesOfValue(bytes[12..16]);
    BytesOfValue(bytes[16..20]);
    BytesOfValue(bytes[20..24]);
    BytesOfValue(bytes[24..32]);
    BytesOfValue(bytes[32..36]);
    BytesOfValue(bytes[36..40]);
    BytesOfValue(bytes[40..48]);
    var front := bytes[..8] + bytes[8..12] + bytes[12..16] + bytes[16..20] + bytes[20..24] + bytes[24..32] +
                 bytes[32..36];
    assert bytes[..36] == front == Front(h);
    assert bytes[..HEADER_SIZE] == bytes[..36] + bytes[36..40] + bytes[40..48];
  }

  // ----- The offsets

  // The page starts as stored.
  function OffsetBytes(starts: seq<nat>): (s: seq<byte>)
    ensures |s| == OFFSET_WIDTH * |starts|
  {
    if starts == [] then [] else Bytes(starts[0], 8) + OffsetBytes(starts[1..])
  }

  // The page starts stored in n entries.
  function Offsets(payload: seq<byte>, n: nat): (starts: seq<nat>)
    requires |payload| >= OFFSET_WIDTH * n
    ensures |starts| == n
  {
    seq(n, i requires 0 <= i < n => Value(payload[OFFSET_WIDTH * i..OFFSET_WIDTH * i + OFFSET_WIDTH]))
  }

  lemma {:induction false} OffsetBytesConcat(a: seq<nat>, b: seq<nat>)
    ensures OffsetBytes(a + b) == OffsetBytes(a) + OffsetBytes(b)
    decreases |a|
  {
    hide Bytes;
    if a == [] {
      assert a + b == b;
    } else {
      assert (a + b)[1..] == a[1..] + b;
      OffsetBytesConcat(a[1..], b);
    }
  }

  // Entry i of the stored list.
  lemma {:induction false} OffsetBytesAt(starts: seq<nat>, i: nat)
    requires i < |starts|
    ensures OffsetBytes(starts)[OFFSET_WIDTH * i..OFFSET_WIDTH * i + OFFSET_WIDTH] == Bytes(starts[i], 8)
    decreases i
  {
    hide Bytes;
    var all := OffsetBytes(starts);
    var rest := OffsetBytes(starts[1..]);
    assert all[8..] == rest;
    if i > 0 {
      var at := OFFSET_WIDTH * (i - 1);
      OffsetBytesAt(starts[1..], i - 1);
      SliceOfSlice(all, 8, |all|, at, at + 8);
    }
  }

  lemma StoredOffset(starts: seq<nat>, i: nat)
    requires i < |starts| && starts[i] < 0x1_0000_0000_0000_0000
    ensures Value(OffsetBytes(starts)[OFFSET_WIDTH * i..OFFSET_WIDTH * i + OFFSET_WIDTH]) == starts[i]
  {
    hide Bytes, OffsetBytes;
    Widths();
    OffsetBytesAt(starts, i);
    ValueOfBytes(starts[i], 8);
  }

  lemma OffsetsRoundTrip(starts: seq<nat>)
    requires forall i :: 0 <= i < |starts| ==> starts[i] < 0x1_0000_0000_0000_0000
    ensures Offsets(OffsetBytes(starts), |starts|) == starts
  {
    hide Bytes, OffsetBytes, Value;
    forall i | 0 <= i < |starts| ensures Offsets(OffsetBytes(starts), |starts|)[i] == starts[i] {
      StoredOffset(starts, i);
    }
  }

  // book_index_offset_valid: entry number page, after the previous entry.
  predicate OffsetValid(offset: nat, previous: nat, page: nat, fileSize: nat) {
    if page == 0 then offset == 0 else previous < offset < fileSize
  }

  // What the entry-by-entry check establishes: the list starts at 0, strictly increases and
  // stays inside the text.
  ghost predicate IndexOf(starts: seq<nat>, fileSize: nat) {
    && starts != [] && starts[0] == 0
    && (forall i, j :: 0 <= i < j < |starts| ==> starts[i] < starts[j])
    && (forall i :: 0 < i < |starts| ==> starts[i] < fileSize)
  }

  lemma {:induction false} CheckedIsIndex(starts: seq<nat>, fileSize: nat)
    requires starts != []
    ensures IndexOf(starts, fileSize) <==>
            OffsetValid(starts[0], 0, 0, fileSize) &&
            forall i, j :: 0 <= i < j == i + 1 < |starts| ==> OffsetValid(starts[j], starts[i], j, fileSize)
    decreases |starts|
  {
    if OffsetValid(starts[0], 0, 0, fileSize) &&
       forall i, j :: 0 <= i < j == i + 1 < |starts| ==> OffsetValid(starts[j], starts[i], j, fileSize) {
      if |starts| > 1 {
        var n := |starts| - 1;
        CheckedIsIndex(starts[..n], fileSize);
        forall i, j | 0 <= i < j < |starts| ensures starts[i] < starts[j] {
          assert OffsetValid(starts[n], starts[n - 1], n, fileSize);
          assert i < n - 1 ==> starts[..n][i] < starts[..n][n - 1];
          assert j < n ==> starts[..n][i] < starts[..n][j];
        }
        forall i | 0 < i < |starts| ensures starts[i] < fileSize {
          assert OffsetValid(starts[i], starts[i - 1], i, fileSize);
        }
      }
    }
  }

  // ----- The whole file

  // The file published for a list of page starts.
  function IndexFile(starts: seq<nat>, fileSize: u64): seq<byte>
    requires |starts| < 0x1_0000_0000
  {
    HeaderBytes(Header(|starts|, fileSize, Crc(OffsetBytes(starts), 0))) + OffsetBytes(starts)
  }

  // The files that pass validation for a text of the given size.
  ghost predicate Accepted(file: seq<byte>, textSize: nat) {
    && DecodeHeader(file, |file|, textSize).Some?
    && var h := DecodeHeader(file, |file|, textSize).value;
    && |file| == IndexSize(h.pageCount)
    && Crc(file[HEADER_SIZE..], 0) == h.offsetsCrc
    && IndexOf(Offsets(file[HEADER_SIZE..], h.pageCount), textSize)
  }

  // What is published is accepted, and reads back as the same page starts.
  lemma PublishedIsAccepted(starts: seq<nat>, fileSize: u64)
    requires IndexOf(starts, fileSize) && |starts| < 0x1_0000_0000 && |starts| <= Max(1, fileSize)
    ensures Accepted(IndexFile(starts, fileSize), fileSize)
    ensures Offsets(IndexFile(starts, fileSize)[HEADER_SIZE..], |starts|) == starts
  {
    hide HeaderBytes, OffsetBytes, Crc, Offsets;
    var h := Header(|starts|, fileSize, Crc(OffsetBytes(starts), 0));
    var file := IndexFile(starts, fileSize);
    HeaderRoundTrip(h, |file|, fileSize);
    assert file[..HEADER_SIZE] == HeaderBytes(h);
    assert file[HEADER_SIZE..] == OffsetBytes(starts);
    OffsetsRoundTrip(starts);
    DecodeLooksAtHeader(file, HeaderBytes(h), |file|, fileSize);
  }

  lemma DecodeLooksAtHeader(a: seq<byte>, b: seq<byte>, indexSize: nat, textSize: nat)
    requires |a| >= HEADER_SIZE && |b| >= HEADER_SIZE && a[..HEADER_SIZE] == b[..HEADER_SIZE]
    ensures DecodeHeader(a, indexSize, textSize) == DecodeHeader(b, indexSize, textSize)
  {
    hide Crc, Value;
    SameSlice(a, b, 0, 8);
    SameSlice(a, b, 8, 12);
    SameSlice(a, b, 12, 16);
    SameSlice(a, b, 16, 20);
    SameSlice(a, b, 20, 24);
    SameSlice(a, b, 24, 32);
    SameSlice(a, b, 32, 36);
    SameSlice(a, b, 36, 40);
    SameSlice(a, b, 40, 48);
    SameSlice(a, b, 0, 36);
  }

  lemma SameSlice(a: seq<byte>, b: seq<byte>, i: nat, j: nat)
    requires |a| >= HEADER_SIZE && |b| >= HEADER_SIZE && a[..HEADER_SIZE] == b[..HEADER_SIZE]
    requires i <= j <= HEADER_SIZE
    ensures a[i..j] == b[i..j]
  {
    SliceOfSlice(a, 0, HEADER_SIZE, i, j);
    SliceOfSlice(b, 0, HEADER_SIZE, i, j);
  }

  // Changing any one byte of an accepted index file -- header, checksum, reserved bytes or
  // payload -- makes it rejected.
  lemma OneByteIsDetected(file: seq<byte>, other: seq<byte>, textSize: nat)
    requires Accepted(file, textSize) && OneByteChanged(file, other)
    ensures !Accepted(other, textSize)
  {
    hide Crc, HeaderBytes, Offsets, DecodeHeader;
    if Accepted(other, textSize) {
      var h := DecodeHeader(file, |file|, textSize).value;
      var g := DecodeHeader(other, |other|, textSize).value;
      HeaderBytesUnique(file, |file|, textSize);
      HeaderBytesUnique(other, |other|, textSize);
      var k :| 0 <= k < |file| && ChangedAt(file, other, k);
      if k < HEADER_SIZE {
        ChangedInPrefix(file, other, k, HEADER_SIZE);
        HeadersDifferMore(h, g);
      } else {
        FrontSlice(file, other, k, HEADER_SIZE);
        DecodeLooksAtHeader(file, other, |file|, textSize);
        ChangedInSuffix(file, other, k, HEADER_SIZE);
        CrcDetects(file[HEADER_SIZE..], other[HEADER_SIZE..], 0);
      }
      assert false;
    }
  }

  lemma ChangedInPrefix(a: seq<byte>, b: seq<byte>, k: nat, n: nat)
    requires k < n <= |a| == |b| && ChangedAt(a, b, k)
    ensures ChangedAt(a[..n], b[..n], k)
  {
    assert a[..n][..k] == a[..k] == b[..k] == b[..n][..k];
    assert a[..n][k + 1..] == a[k + 1..][..n - k - 1];
    assert b[..n][k + 1..] == b[k + 1..][..n - k - 1];
  }

  lemma ChangedInSuffix(a: seq<byte>, b: seq<byte>, k: nat, n: nat)
    requires n <= k < |a| == |b| && ChangedAt(a, b, k)
    ensures ChangedAt(a[n..], b[n..], k - n)
  {
    assert a[n..][..k - n] == a[..k][n..];
    assert b[n..][..k - n] == b[..k][n..];
    assert a[n..][k - n + 1..] == a[k + 1..];
    assert b[n..][k - n + 1..] == b[k + 1..];
  }

  // Two headers never differ in a single byte: the checksum of the front tells them apart.
  lemma HeadersDifferMore(h: Header, g: Header)
    ensures !OneByteChanged(HeaderBytes(h), HeaderBytes(g))
  {
    hide Crc, Bytes, Front;
    var a := HeaderBytes(h);
    var b := HeaderBytes(g);
    if OneByteChanged(a, b) {
      var k :| 0 <= k < |a| && ChangedAt(a, b, k);
      var crc, drc := Crc(Front(h), 0), Crc(Front(g), 0);
      HeaderSlices(h);
      HeaderSlices(g);
      Widths();
      ValueOfBytes(crc, 4);
      ValueOfBytes(drc, 4);
      if k < 36 {
        ChangedInPrefix(a, b, k, 36);
        TailSlice(a, b, k, 36, 40);
        CrcDetects(a[..36], b[..36], 0);
      } else {
        FrontSlice(a, b, k, 36);
      }
      assert false;
    }
  }

  lemma TailSlice(a: seq<byte>, b: seq<byte>, k: nat, i: nat, j: nat)
    requires k < i <= j <= |a| == |b| && a[k + 1..] == b[k + 1..]
    ensures a[i..j] == b[i..j]
  {
    SliceOfSlice(a, k + 1, |a|, i - (k + 1), j - (k + 1));
    SliceOfSlice(b, k + 1, |b|, i - (k + 1), j - (k + 1));
  }

  lemma FrontSlice(a: seq<byte>, b: seq<byte>, k: nat, n: nat)
    requires n <= k <= |a| == |b| && a[..k] == b[..k]
    ensures a[..n] == b[..n]
  {
    SliceOfSlice(a, 0, k, 0, n);
    SliceOfSlice(b, 0, k, 0, n);
  }
}
