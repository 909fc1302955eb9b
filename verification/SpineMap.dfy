// The chapter map of an EPUB cache: epub_spine_map_encode, epub_spine_map_decode and
// epub_position_from_linear of services/book/epub_format.cpp.
module SpineMap {
  import opened Options
  import opened Utf8
  import opened Crc32
  import opened LittleEndian
  import opened BookFormat
  import opened PageChain
  import opened IndexModel

  const MAP_HEADER_SIZE: nat := 40
  const SPINE_ITEM_LIMIT: nat := 512
  const MAP_VERSION: nat := 1
  // "SSBSPN01"
  const SPINE_MAGIC: seq<byte> := [0x53, 0x53, 0x42, 0x53, 0x50, 0x4e, 0x30, 0x31]

  function MapSize(count: nat): nat { MAP_HEADER_SIZE + OFFSET_WIDTH * count }

  // What chapter starts have to be for a content of the given size.
  ghost predicate SpineOf(starts: seq<nat>, size: nat) {
    && 1 <= |starts| <= SPINE_ITEM_LIMIT && starts[0] == 0
    && Increasing(starts)
    && forall i :: 0 <= i < |starts| ==> starts[i] < size
  }

  datatype MapHeader = MapHeader(count: u32, size: u64, payloadCrc: u32)

  // The 28 bytes under the header checksum.
  function MapFront(h: MapHeader): (s: seq<byte>)
    ensures |s| == 28
  {
    SPINE_MAGIC + Bytes(MAP_VERSION, 4) + Bytes(h.count, 4) + Bytes(h.size, 8) + Bytes(h.payloadCrc, 4)
  }

  function MapHeaderBytes(h: MapHeader): (s: seq<byte>)
    ensures |s| == MAP_HEADER_SIZE
  {
    MapFront(h) + Bytes(Crc(MapFront(h), 0), 4) + Bytes(0, 8)
  }

  function MapFile(starts: seq<nat>, size: u64): (s: seq<byte>)
    requires |starts| <= SPINE_ITEM_LIMIT
    ensures |s| == MapSize(|starts|)
  {
    MapHeaderBytes(MapHeader(|starts|, size, Crc(OffsetBytes(starts), 0))) + OffsetBytes(starts)
  }

  // ----- Decoding

  function DecodeMapHeader(bytes: seq<byte>, expected: nat): Option<MapHeader> {
    if |bytes| < MAP_HEADER_SIZE || bytes[..8] != SPINE_MAGIC || Field(bytes, 8, 4) != MAP_VERSION ||
       Field(bytes, 28, 4) != Crc(bytes[..28], 0) || Field(bytes, 32, 8) != 0 || Field(bytes, 16, 8) != expected
    then None
    else
      MapFieldBounds(bytes);
      Some(MapHeader(Field(bytes, 12, 4), Field(bytes, 16, 8), Field(bytes, 24, 4)))
  }

  lemma MapFieldBounds(bytes: seq<byte>)
    requires |bytes| >= MAP_HEADER_SIZE
    ensures Field(bytes, 12, 4) < 0x1_0000_0000 && Field(bytes, 24, 4) < 0x1_0000_0000
    ensures Field(bytes, 16, 8) < 0x1_0000_0000_0000_0000
  {
    Widths();
    ValueBelow(bytes[12..16]);
    ValueBelow(bytes[24..28]);
    ValueBelow(bytes[16..24]);
  }

  ghost function DecodeMap(bytes: seq<byte>, expected: nat): Option<seq<nat>> {
    match DecodeMapHeader(bytes, expected)
    case None => None
    case Some(h) =>
      if h.count == 0 || h.count > SPINE_ITEM_LIMIT || |bytes| != MapSize(h.count) ||
         h.payloadCrc != Crc(bytes[MAP_HEADER_SIZE..], 0) then None
      else
        var starts := Offsets(bytes[MAP_HEADER_SIZE..], h.count);
        if SpineOf(starts, expected) then Some(starts) else None
  }

  lemma MapHeaderSlices(h: MapHeader)
    ensures var s := MapHeaderBytes(h);
            && s[..8] == SPINE_MAGIC && s[8..12] == Bytes(MAP_VERSION, 4) && s[12..16] == Bytes(h.count, 4)
            && s[16..24] == Bytes(h.size, 8) && s[24..28] == Bytes(h.payloadCrc, 4) && s[..28] == MapFront(h)
            && s[28..32] == Bytes(Crc(MapFront(h), 0), 4) && s[32..40] == Bytes(0, 8)
  {
    hide Crc, Bytes;
  }

  lemma MapHeaderRoundTrip(h: MapHeader)
    ensures DecodeMapHeader(MapHeaderBytes(h), h.size) == Some(h)
  {
    hide Crc, Bytes, Value, MapHeaderBytes, MapFront;
    MapHeaderSlices(h);
    Widths();
    ValueOfBytes(MAP_VERSION, 4);
    ValueOfBytes(h.count, 4);
    ValueOfBytes(h.size, 8);
    ValueOfBytes(h.payloadCrc, 4);
    ValueOfBytes(Crc(MapFront(h), 0), 4);
    ValueOfBytes(0, 8);
  }

  lemma MapHeaderUnique(bytes: seq<byte>, expected: nat)
    requires DecodeMapHeader(bytes, expected).Some?
    ensures bytes[..MAP_HEADER_SIZE] == MapHeaderBytes(DecodeMapHeader(bytes, expected).value)
  {
    hide Crc, Bytes, Value;
    var h := DecodeMapHeader(bytes, expected).value;
    BytesOfValue(bytes[8..12]);
    BytesOfValue(bytes[12..16]);
    BytesOfValue(bytes[16..24]);
    BytesOfValue(bytes[24..28]);
    BytesOfValue(bytes[28..32]);
    BytesOfValue(bytes[32..40]);
    assert bytes[8..12] == Bytes(MAP_VERSION, 4) && bytes[12..16] == Bytes(h.count, 4);
    assert bytes[16..24] == Bytes(h.size, 8) && bytes[24..28] == Bytes(h.payloadCrc, 4);
    var front := bytes[..8] + bytes[8..12] + bytes[12..16] + bytes[16..24] + bytes[24..28];
    assert front == MapFront(h);
    assert bytes[..28] == front;
    assert bytes[..MAP_HEADER_SIZE] == bytes[..28] + bytes[28..32] + bytes[32..40];
  }

  lemma MapSlice(a: seq<byte>, b: seq<byte>, i: nat, j: nat)
    requires |a| >= MAP_HEADER_SIZE && |b| >= MAP_HEADER_SIZE && a[..MAP_HEADER_SIZE] == b[..MAP_HEADER_SIZE]
    requires i <= j <= MAP_HEADER_SIZE
    ensures a[i..j] == b[i..j]
  {
    SliceOfSlice(a, 0, MAP_HEADER_SIZE, i, j);
    SliceOfSlice(b, 0, MAP_HEADER_SIZE, i, j);
  }

  lemma DecodeLooksAtMapHeader(a: seq<byte>, b: seq<byte>, expected: nat)
    requires |a| >= MAP_HEADER_SIZE && |b| >= MAP_HEADER_SIZE && a[..MAP_HEADER_SIZE] == b[..MAP_HEADER_SIZE]
    ensures DecodeMapHeader(a, expected) == DecodeMapHeader(b, expected)
  {
    hide Crc, Value;
    MapSlice(a, b, 0, 8);
    MapSlice(a, b, 8, 12);
    MapSlice(a, b, 12, 16);
    MapSlice(a, b, 16, 24);
    MapSlice(a, b, 24, 28);
    MapSlice(a, b, 28, 32);
    MapSlice(a, b, 32, 40);
    MapSlice(a, b, 0, 28);
  }

  // ----- The results

  // A written map always decodes to the same chapter starts.
  lemma MapRoundTrip(starts: seq<nat>, size: u64)
    requires SpineOf(starts, size)
    ensures DecodeMap(MapFile(starts, size), size) == Some(starts)
  {
    hide Crc, MapHeaderBytes, OffsetBytes, Offsets, DecodeMapHeader;
    var h := MapHeader(|starts|, size, Crc(OffsetBytes(starts), 0));
    var file := MapFile(starts, size);
    assert file[..MAP_HEADER_SIZE] == MapHeaderBytes(h);
    assert file[MAP_HEADER_SIZE..] == OffsetBytes(starts);
    MapHeaderRoundTrip(h);
    DecodeLooksAtMapHeader(file, MapHeaderBytes(h), size);
    OffsetsRoundTrip(starts);
  }

  // And only a written map decodes: the bytes are determined by what they decode to.
  lemma MapIsUnique(file: seq<byte>, expected: nat)
    requires DecodeMap(file, expected).Some?
    ensures var starts := DecodeMap(file, expected).value;
            SpineOf(starts, expected) && expected < 0x1_0000_0000_0000_0000 && file == MapFile(starts, expected)
  {
    hide Crc, MapHeaderBytes, OffsetBytes, Offsets;
    var h := DecodeMapHeader(file, expected).value;
    var payload := file[MAP_HEADER_SIZE..];
    MapHeaderUnique(file, expected);
    OffsetBytesOfOffsets(payload, h.count);
    assert file == file[..MAP_HEADER_SIZE] + payload;
  }

  lemma {:induction false} OffsetBytesOfOffsets(payload: seq<byte>, n: nat)
    requires |payload| == OFFSET_WIDTH * n
    ensures OffsetBytes(Offsets(payload, n)) == payload
    decreases n
  {
    hide Value, Bytes;
    var starts := Offsets(payload, n);
    if n > 0 {
      BytesOfValue(payload[..8]);
      var rest := payload[OFFSET_WIDTH..];
      OffsetBytesOfOffsets(rest, n - 1);
      forall i | 0 <= i < n - 1 ensures starts[1..][i] == Offsets(rest, n - 1)[i] {
        SliceOfSlice(payload, OFFSET_WIDTH, |payload|, OFFSET_WIDTH * i, OFFSET_WIDTH * i + OFFSET_WIDTH);
        assert payload[OFFSET_WIDTH..|payload|] == rest;
      }
      assert starts[1..] == Offsets(rest, n - 1);
      assert payload[OFFSET_WIDTH * 0..OFFSET_WIDTH * 0 + OFFSET_WIDTH] == payload[..8];
      assert payload == payload[..8] + rest;
    }
  }

  // Changing any one byte of a map that decodes makes it rejected.
  lemma OneMapByteIsDetected(file: seq<byte>, other: seq<byte>, expected: nat)
    requires DecodeMap(file, expected).Some? && OneByteChanged(file, other)
    ensures DecodeMap(other, expected) == None
  {
    hide Crc, MapHeaderBytes, Offsets, DecodeMapHeader;
    if DecodeMap(other, expected).Some? {
      var h := DecodeMapHeader(file, expected).value;
      var g := DecodeMapHeader(other, expected).value;
      MapHeaderUnique(file, expected);
      MapHeaderUnique(other, expected);
      var k :| 0 <= k < |file| && ChangedAt(file, other, k);
      if k < MAP_HEADER_SIZE {
        ChangedInPrefix(file, other, k, MAP_HEADER_SIZE);
        MapHeadersDifferMore(h, g);
      } else {
        FrontSlice(file, other, k, MAP_HEADER_SIZE);
        DecodeLooksAtMapHeader(file, other, expected);
        ChangedInSuffix(file, other, k, MAP_HEADER_SIZE);
        CrcDetects(file[MAP_HEADER_SIZE..], other[MAP_HEADER_SIZE..], 0);
      }
      assert false;
    }
  }

  lemma MapHeadersDifferMore(h: MapHeader, g: MapHeader)
    ensures !OneByteChanged(MapHeaderBytes(h), MapHeaderBytes(g))
  {
    hide Crc, Bytes, MapFront;
    var a := MapHeaderBytes(h);
    var b := MapHeaderBytes(g);
    if OneByteChanged(a, b) {
      var k :| 0 <= k < |a| && ChangedAt(a, b, k);
      var crc, drc := Crc(MapFront(h), 0), Crc(MapFront(g), 0);
      MapHeaderSlices(h);
      MapHeaderSlices(g);
      Widths();
      ValueOfBytes(crc, 4);
      ValueOfBytes(drc, 4);
      if k < 28 {
        ChangedInPrefix(a, b, k, 28);
        TailSlice(a, b, k, 28, 32);
        CrcDetects(a[..28], b[..28], 0);
      } else {
        FrontSlice(a, b, k, 28);
      }
      assert false;
    }
  }

  // ----- The codec in its buffers

  // epub_spine_map_encode()
  method EncodeMap(starts: array<nat>, count: nat, size: u64, bytes: array<byte>) returns (length: nat)
    requires count <= starts.Length
    modifies bytes
    ensures length == if 0 < count <= SPINE_ITEM_LIMIT && size != 0 && MapSize(count) <= bytes.Length
                      then MapSize(count) else 0
    ensures length != 0 ==> bytes[..length] == MapFile(starts[..count], size)
  {
    hide Crc, Bytes, OffsetBytes, MapFile;
    length := 0;
    if count == 0 || count > SPINE_ITEM_LIMIT || size == 0 || bytes.Length < MapSize(count) {
      return;
    }
    FillFront(count, size, bytes);
    FillEntries(starts, count, bytes);
    FillSums(starts[..count], size, bytes);
    length := MapSize(count);
  }

  // The header up to the checksums, and zeros behind it.
  method FillFront(count: u32, size: u64, bytes: array<byte>)
    requires count <= SPINE_ITEM_LIMIT && MapSize(count) <= bytes.Length
    modifies bytes
    ensures bytes[..24] == SPINE_MAGIC + Bytes(MAP_VERSION, 4) + Bytes(count, 4) + Bytes(size, 8)
    ensures bytes[32..40] == Bytes(0, 8)
  {
    hide Bytes;
    var i := 0;
    while i < MapSize(count)
      invariant 0 <= i <= MapSize(count)
      invariant forall j :: 0 <= j < i ==> bytes[j] == 0
    {
      bytes[i] := 0;
      i := i + 1;
    }
    Zeros();
    assert bytes[32..40] == Bytes(0, 8);
    i := 0;
    while i < 8
      invariant 0 <= i <= 8
      invariant bytes[..i] == SPINE_MAGIC[..i] && bytes[32..40] == Bytes(0, 8)
    {
      bytes[i] := SPINE_MAGIC[i];
      i := i + 1;
    }
    assert bytes[..8] == SPINE_MAGIC;
    ghost var rest := bytes[24..];
    assert rest[8..16] == bytes[32..40];
    Store(bytes, 8, MAP_VERSION, 4);
    assert bytes[..12] == SPINE_MAGIC + Bytes(MAP_VERSION, 4);
    assert bytes[24..] == bytes[12..][12..] == rest;
    Store(bytes, 12, count, 4);
    assert bytes[..16] == SPINE_MAGIC + Bytes(MAP_VERSION, 4) + Bytes(count, 4);
    assert bytes[24..] == bytes[16..][8..] == rest;
    Store(bytes, 16, size, 8);
    assert bytes[..24] == SPINE_MAGIC + Bytes(MAP_VERSION, 4) + Bytes(count, 4) + Bytes(size, 8);
    SliceOfSlice(bytes[..], 24, bytes.Length, 8, 16);
    assert bytes[32..40] == bytes[24..][8..16];
  }

  method FillEntries(starts: array<nat>, count: nat, bytes: array<byte>)
    requires count <= starts.Length && MapSize(count) <= bytes.Length
    modifies bytes
    ensures bytes[..MAP_HEADER_SIZE] == old(bytes[..MAP_HEADER_SIZE])
    ensures bytes[MAP_HEADER_SIZE..MapSize(count)] == OffsetBytes(starts[..count])
  {
    hide Bytes, OffsetBytes;
    assert OffsetBytes(starts[..0]) == [] by { OffsetBytesNone(starts[..0]); }
    var i := 0;
    while i < count
      invariant 0 <= i <= count
      invariant bytes[..MAP_HEADER_SIZE] == old(bytes[..MAP_HEADER_SIZE])
      invariant bytes[MAP_HEADER_SIZE..MapSize(i)] == OffsetBytes(starts[..i])
    {
      ghost var before := bytes[..MapSize(i)];
      Store(bytes, MapSize(i), starts[i], 8);
      OffsetBytesMore(starts[..i], starts[i]);
      assert starts[..i + 1] == starts[..i] + [starts[i]];
      FrontKept(before, bytes[..], MapSize(i), MapSize(i + 1));
      i := i + 1;
    }
  }

  lemma OffsetBytesNone(starts: seq<nat>)
    requires starts == []
    ensures OffsetBytes(starts) == []
  {
  }

  lemma OffsetBytesMore(starts: seq<nat>, next: nat)
    ensures OffsetBytes(starts + [next]) == OffsetBytes(starts) + Bytes(next, 8)
  {
    hide Bytes, OffsetBytes;
    OffsetBytesConcat(starts, [next]);
    OffsetBytesOne(next);
  }

  lemma FrontKept(before: seq<byte>, bytes: seq<byte>, i: nat, j: nat)
    requires MAP_HEADER_SIZE <= i == |before| <= j <= |bytes| && bytes[..i] == before
    ensures bytes[..MAP_HEADER_SIZE] == before[..MAP_HEADER_SIZE]
    ensures bytes[MAP_HEADER_SIZE..j] == before[MAP_HEADER_SIZE..i] + bytes[i..j]
  {
    assert bytes[..i][..MAP_HEADER_SIZE] == bytes[..MAP_HEADER_SIZE];
    assert bytes[..i][MAP_HEADER_SIZE..i] == bytes[MAP_HEADER_SIZE..i];
  }

  // The checksums last.
  method FillSums(starts: seq<nat>, size: u64, bytes: array<byte>)
    requires |starts| <= SPINE_ITEM_LIMIT && MapSize(|starts|) <= bytes.Length
    requires bytes[..24] == SPINE_MAGIC + Bytes(MAP_VERSION, 4) + Bytes(|starts|, 4) + Bytes(size, 8)
    requires bytes[32..40] == Bytes(0, 8)
    requires bytes[MAP_HEADER_SIZE..MapSize(|starts|)] == OffsetBytes(starts)
    modifies bytes
    ensures bytes[..MapSize(|starts|)] == MapFile(starts, size)
  {
    hide Bytes, OffsetBytes, Crc;
    ghost var end := MapSize(|starts|);
    ghost var tail := bytes[32..end];
    assert tail == Bytes(0, 8) + OffsetBytes(starts) by {
      assert bytes[32..end] == bytes[32..40] + bytes[40..end];
    }
    var payload := ChecksumBlock(bytes[MAP_HEADER_SIZE..MapSize(|starts|)], 0);
    ghost var h := MapHeader(|starts|, size, payload);
    ghost var rest := bytes[28..];
    SliceOfSlice(bytes[..], 28, bytes.Length, 4, end - 28);
    assert rest[4..end - 28] == tail;
    Store(bytes, 24, payload, 4);
    assert bytes[..28] == MapFront(h);
    var sum := ChecksumBlock(bytes[..28], 0);
    assert bytes[28..][4..] == rest[4..];
    Store(bytes, 28, sum, 4);
    assert bytes[..32] == MapFront(h) + Bytes(sum, 4);
    assert bytes[32..][..end - 32] == rest[4..][..end - 32] == rest[4..end - 28];
    assert bytes[..end] == bytes[..32] + bytes[32..][..end - 32];
    assert MapFront(h) + Bytes(sum, 4) + (Bytes(0, 8) + OffsetBytes(starts)) ==
           MapFront(h) + Bytes(sum, 4) + Bytes(0, 8) + OffsetBytes(starts);
  }

  // The entries read so far.
  ghost predicate EntriesRead(payload: seq<byte>, starts: seq<nat>, expected: nat) {
    && OFFSET_WIDTH * |starts| <= |payload| && Offsets(payload, |starts|) == starts
    && (starts == [] || (starts[0] == 0 && Increasing(starts) && starts[|starts| - 1] < expected))
  }

  lemma EntryAccepted(payload: seq<byte>, starts: seq<nat>, expected: nat, value: nat)
    requires EntriesRead(payload, starts, expected) && OFFSET_WIDTH * (|starts| + 1) <= |payload|
    requires value == Value(payload[OFFSET_WIDTH * |starts|..OFFSET_WIDTH * |starts| + OFFSET_WIDTH])
    requires if starts == [] then value == 0 else value > starts[|starts| - 1]
    requires value < expected
    ensures EntriesRead(payload, starts + [value], expected)
  {
    hide Value;
    var more := starts + [value];
    assert Offsets(payload, |more|) == more by {
      forall i | 0 <= i < |more| ensures Offsets(payload, |more|)[i] == more[i] {
        assert i < |starts| ==> Offsets(payload, |starts|)[i] == starts[i];
      }
    }
  }

  lemma EntryRejected(payload: seq<byte>, starts: seq<nat>, expected: nat, count: nat)
    requires EntriesRead(payload, starts, expected) && |starts| < count && OFFSET_WIDTH * count <= |payload|
    ensures var value := Value(payload[OFFSET_WIDTH * |starts|..OFFSET_WIDTH * |starts| + OFFSET_WIDTH]);
            (if starts == [] then value != 0 else value <= starts[|starts| - 1]) || value >= expected ==>
              !SpineOf(Offsets(payload, count), expected)
  {
    hide Value;
    var all := Offsets(payload, count);
    var n := |starts|;
    assert all[n] == Value(payload[OFFSET_WIDTH * n..OFFSET_WIDTH * n + OFFSET_WIDTH]);
    if n > 0 && SpineOf(all, expected) {
      assert all[n - 1] == Offsets(payload, n)[n - 1] == starts[n - 1];
      assert all[n - 1] < all[n];
    }
  }

  lemma EntriesDone(payload: seq<byte>, starts: seq<nat>, expected: nat)
    requires EntriesRead(payload, starts, expected) && 0 < |starts| <= SPINE_ITEM_LIMIT
    ensures SpineOf(starts, expected)
  {
    forall i | 0 <= i < |starts| ensures starts[i] < expected {
      assert i < |starts| - 1 ==> starts[i] < starts[|starts| - 1];
    }
  }

  // epub_spine_map_decode(), into the caller's starts.
  method DecodeMapInto(bytes: seq<byte>, expected: nat, starts: array<nat>) returns (ok: bool, count: nat)
    requires starts.Length == SPINE_ITEM_LIMIT
    modifies starts
    ensures ok == DecodeMap(bytes, expected).Some?
    ensures count <= starts.Length && (ok ==> starts[..count] == DecodeMap(bytes, expected).value)
    ensures !ok ==> count == 0
  {
    hide Value, Crc, DecodeMapHeader, Offsets, SpineOf, EntriesRead;
    var header := DecodeMapHeader(bytes, expected);
    if header == None {
      return false, 0;
    }
    var h := header.value;
    if h.count == 0 || h.count > SPINE_ITEM_LIMIT || |bytes| != MapSize(h.count) {
      return false, 0;
    }
    ghost var payload := bytes[MAP_HEADER_SIZE..];
    var crc := ChecksumBlock(bytes[MAP_HEADER_SIZE..], 0);
    if crc != h.payloadCrc {
      return false, 0;
    }
    var i := 0;
    NoEntries(payload, expected);
    assert starts[..0] == [];
    while i < h.count
      invariant 0 <= i <= h.count
      invariant EntriesRead(payload, starts[..i], expected)
    {
      var value := Load(bytes[MapSize(i)..MapSize(i + 1)]);
      SliceOfSlice(bytes, MAP_HEADER_SIZE, |bytes|, OFFSET_WIDTH * i, OFFSET_WIDTH * i + OFFSET_WIDTH);
      assert bytes[MAP_HEADER_SIZE..|bytes|] == payload;
      EntryRejected(payload, starts[..i], expected, h.count);
      if (i == 0 && value != 0) || (i != 0 && value <= starts[i - 1]) || value >= expected {
        return false, 0;
      }
      EntryAccepted(payload, starts[..i], expected, value);
      ghost var before := starts[..i];
      starts[i] := value;
      assert starts[..i + 1] == before + [value];
      i := i + 1;
    }
    EntriesDone(payload, starts[..i], expected);
    AllRead(payload, starts[..i], expected);
    return true, i;
  }

  lemma NoEntries(payload: seq<byte>, expected: nat)
    ensures EntriesRead(payload, [], expected)
  {
  }

  lemma AllRead(payload: seq<byte>, starts: seq<nat>, expected: nat)
    requires EntriesRead(payload, starts, expected)
    ensures OFFSET_WIDTH * |starts| <= |payload| && Offsets(payload, |starts|) == starts
  {
  }

  // ----- Positions

  datatype EpubPosition = EpubPosition(spineIndex: nat, contentOffset: nat, linearOffset: nat)

  function PositionOf(starts: seq<nat>, linear: nat): EpubPosition
    requires starts != [] && starts[0] == 0
  {
    var i := PageOf(starts, linear);
    StartBelow(starts, linear);
    EpubPosition(i, linear - starts[i], linear)
  }

  lemma {:induction false} StartBelow(starts: seq<nat>, linear: nat)
    requires starts != [] && starts[0] == 0
    ensures starts[PageOf(starts, linear)] <= linear
    decreases |starts|
  {
    if |starts| > 1 && starts[|starts| - 1] > linear {
      StartBelow(starts[..|starts| - 1], linear);
    }
  }

  function ChapterEnd(starts: seq<nat>, size: nat, i: nat): nat
    requires i < |starts|
  {
    if i + 1 < |starts| then starts[i + 1] else size
  }

  // A linear offset maps to the one chapter that contains it.
  lemma PositionContains(starts: seq<nat>, size: nat, linear: nat)
    requires SpineOf(starts, size) && linear < size
    ensures var p := PositionOf(starts, linear);
            && p.spineIndex < |starts|
            && starts[p.spineIndex] <= linear < ChapterEnd(starts, size, p.spineIndex)
            && starts[p.spineIndex] + p.contentOffset == linear
    ensures forall i :: 0 <= i < |starts| && starts[i] <= linear < ChapterEnd(starts, size, i) ==>
              i == PositionOf(starts, linear).spineIndex
  {
    PageOfContains(starts, linear);
    forall i | 0 <= i < |starts| && starts[i] <= linear < ChapterEnd(starts, size, i)
      ensures i == PageOf(starts, linear)
    {
      forall j | i < j < |starts| ensures linear < starts[j] {
        assert j == i + 1 || starts[i + 1] < starts[j];
      }
      assert IsPageOf(starts, linear, i);
      PageOfUnique(starts, linear, i);
    }
  }

  // epub_position_from_linear(), with std::upper_bound as the binary search it is.
  method PositionFromLinear(starts: array<nat>, count: nat, linear: nat) returns (p: EpubPosition)
    requires count <= starts.Length
    requires count > 0 ==> starts[0] == 0 && Increasing(starts[..count])
    ensures p == if count == 0 then EpubPosition(0, linear, linear) else PositionOf(starts[..count], linear)
  {
    if count == 0 {
      return EpubPosition(0, linear, linear);
    }
    ghost var s := starts[..count];
    var low, high := 0, count;
    while low < high
      invariant 0 <= low <= high <= count
      invariant forall i :: 0 <= i < low ==> starts[i] <= linear
      invariant forall i :: high <= i < count ==> linear < starts[i]
    {
      var middle := low + (high - low) / 2;
      if starts[middle] <= linear {
        assert forall i :: 0 <= i < middle ==> s[i] < s[middle];
        low := middle + 1;
      } else {
        assert forall i :: middle < i < count ==> s[middle] < s[i];
        high := middle;
      }
    }
    assert low > 0 && s[low - 1] == starts[low - 1];
    assert IsPageOf(s, linear, low - 1);
    PageOfUnique(s, linear, low - 1);
    return EpubPosition(low - 1, linear - starts[low - 1], linear);
  }
}
