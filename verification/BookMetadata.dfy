// The metadata record beside a page index, and the decisions taken from it
// (services/book/book_format.cpp). Its JSON text is left abstract: see BookIndexEngine.
module BookMetadata {
  import opened Utf8
  import opened Options
  import opened Crc32
  import opened BookFormat
  import opened Paths
  import opened BookPath
  import opened IndexModel

  // Largest integer that JSON numbers carry exactly.
  const JSON_INTEGER_MAX: nat := 9007199254740991
  const SAMPLE: nat := 4096

  datatype Fingerprint = Fingerprint(head: u32, middle: u32, tail: u32)

  datatype Identity = Identity(fileSize: u64, modified: int, fingerprint: Fingerprint)

  datatype Metadata = Metadata(
    canonicalPath: seq<byte>,
    file: Identity,
    formatVersion: u32,
    paginationVersion: u32,
    pageCount: u32,
    offsetsCrc: u32,
    progress: Progress,
    indexComplete: bool)

  // metadata_valid: checked before a record is written and after one is read.
  predicate MetadataValid(m: Metadata) {
    && Canonical(m.canonicalPath, BOOK_PATH_CAPACITY) == Path(m.canonicalPath)
    && m.file.fileSize <= JSON_INTEGER_MAX
    && 0 <= m.file.modified <= JSON_INTEGER_MAX
    && m.formatVersion != 0 && m.paginationVersion != 0
    && (m.progress.byteOffset == 0 || m.progress.byteOffset < m.file.fileSize)
    && if m.indexComplete then
         m.pageCount > 0 && m.pageCount <= BookFormat.Max(1, m.file.fileSize) && m.progress.page < m.pageCount
       else m.pageCount == 0 && m.progress.page == 0
  }

  datatype CacheDecision = Rebuild | Reuse | Recheck

  // book_cache_check
  function CacheCheck(m: Metadata, path: seq<byte>, size: nat, modified: int): CacheDecision {
    if m.canonicalPath != path || !m.indexComplete || m.formatVersion != FORMAT_VERSION ||
       m.paginationVersion != PAGINATION_VERSION || m.file.fileSize != size then Rebuild
    else if m.file.modified == modified then Reuse
    else Recheck
  }

  // book_fingerprint_window: where sample 0 (head), 1 (middle) or 2 (tail) is taken.
  function Window(size: nat, sample: nat): (w: (nat, nat)) {
    var length := Min(size, SAMPLE);
    var center := if size / 2 > 2048 then size / 2 - 2048 else 0;
    (if sample == 0 then 0 else if sample == 1 then Min(center, size - length) else size - length, length)
  }

  // The windows lie inside the file, at its start, about its middle and at its end.
  lemma WindowsInside(size: nat, sample: nat)
    ensures Window(size, sample).0 + Window(size, sample).1 <= size
    ensures Window(size, sample).1 == Min(size, SAMPLE)
    ensures size <= SAMPLE ==> Window(size, sample) == (0, size)
    ensures Window(size, 0).0 <= Window(size, 1).0 <= Window(size, 2).0
    ensures Window(size, 0).0 == 0 && Window(size, 2).0 + Window(size, 2).1 == size
    ensures size >= SAMPLE ==> Window(size, 1).0 + SAMPLE / 2 == size / 2
  {
  }

  predicate InWindow(size: nat, sample: nat, at: nat) {
    Window(size, sample).0 <= at < Window(size, sample).0 + Window(size, sample).1
  }

  predicate Sampled(size: nat, at: nat) { InWindow(size, 0, at) || InWindow(size, 1, at) || InWindow(size, 2, at) }

  // The three windows see every byte of a file exactly up to 12 KiB; in a longer one a change
  // beside them goes unnoticed by the fingerprint.
  lemma WindowsCover(size: nat)
    ensures (forall at :: 0 <= at < size ==> Sampled(size, at)) <==> size <= 3 * SAMPLE
  {
    if size > 3 * SAMPLE {
      var gap := if size / 2 - 2048 > SAMPLE then SAMPLE else size - SAMPLE - 1;
      assert !Sampled(size, gap);
    }
  }

  // The three samples of a text.
  function Sample(text: seq<byte>, i: nat): seq<byte> {
    WindowsInside(|text|, i);
    text[Window(|text|, i).0..Window(|text|, i).0 + Window(|text|, i).1]
  }

  function FingerprintOf(text: seq<byte>): Fingerprint {
    Fingerprint(Crc(Sample(text, 0), 0), Crc(Sample(text, 1), 0), Crc(Sample(text, 2), 0))
  }

  // ----- A codec

  // The smallest codec that does what the engine relies on the JSON one for: the numbers of a
  // record in eight bytes each, and behind them its path.
  function Numbers(m: Metadata): seq<int> {
    [m.file.fileSize, m.file.modified, m.file.fingerprint.head, m.file.fingerprint.middle, m.file.fingerprint.tail,
     m.formatVersion, m.paginationVersion, m.pageCount, m.offsetsCrc, m.progress.page, m.progress.byteOffset,
     if m.indexComplete then 1 else 0]
  }

  predicate Word(x: int) { 0 <= x < 0x1_0000_0000 }

  function FromNumbers(path: seq<byte>, n: seq<u64>): Option<Metadata>
    requires |n| == 12
  {
    if Word(n[2]) && Word(n[3]) && Word(n[4]) && Word(n[5]) && Word(n[6]) && Word(n[7]) && Word(n[8]) && Word(n[9])
    then
      Some(Metadata(path, Identity(n[0], n[1], Fingerprint(n[2], n[3], n[4])), n[5], n[6], n[7], n[8],
                    Progress(n[9], n[10]), n[11] == 1))
    else None
  }

  function Pack(m: Metadata): Option<seq<byte>> {
    if MetadataValid(m) then Some(OffsetBytes(Numbers(m)) + m.canonicalPath) else None
  }

  function Unpack(text: seq<byte>): Option<Metadata> {
    if |text| < 96 then None
    else
      var n := Offsets(text[..96], 12);
      if exists i :: 0 <= i < 12 && n[i] >= 0x1_0000_0000_0000_0000 then None else FromNumbers(text[96..], n)
  }

  lemma PackRoundTrip(m: Metadata)
    requires MetadataValid(m)
    ensures Pack(m).Some? && |Pack(m).value| <= 4096 && Unpack(Pack(m).value) == Some(m)
  {
    hide OffsetBytes, Offsets, Canonical;
    OffsetsRoundTrip(Numbers(m));
    var text := Pack(m).value;
    CanonicalIsShort(m.canonicalPath, BOOK_PATH_CAPACITY);
    assert text[..96] == OffsetBytes(Numbers(m)) && text[96..] == m.canonicalPath;
  }

  lemma CanonicalIsShort(path: seq<byte>, capacity: nat)
    requires Canonical(path, capacity).Path?
    ensures |path| < BOOK_PATH_CAPACITY
  {
  }
}
