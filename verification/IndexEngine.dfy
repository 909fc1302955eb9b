// book_index_engine: builds, validates and queries a book's page index on the SD card, one
// resumable step at a time.
module IndexEngine {
  import opened Utf8
  import opened Options
  import opened Paginator
  import opened Pages
  import opened PageChain
  import opened Crc32
  import opened LittleEndian
  import opened BookFormat
  import opened IndexModel
  import opened Paths
  import opened BookPath
  import opened BookMetadata
  import opened Disk

  const SCAN_BUFFER_SIZE: nat := 4096
  const OFFSET_BUFFER_SIZE: nat := 512

  datatype Phase = Idle | Scanning | ValidatingCache | ValidatingNew | Ready | Failed

  datatype EventKind = OpenedEvent | ReadyEvent | PositionEvent | SavedEvent | ErrorEvent

  datatype Event = Event(
    kind: EventKind, session: nat, request: nat, progress: Progress, pageCount: nat, error: Error,
    indexValid: bool, persistent: bool)

  // The JSON codec, seen from outside: text to record and back.
  type Parser = seq<byte> -> Option<Metadata>
  type Printer = Metadata -> Option<seq<byte>>

  // Which book is open, laid out how, and where its cache files are.
  datatype Book = Book(
    path: FilePath, fileSize: u64, modified: int, layout: Layout,
    indexPath: FilePath, temporaryIndex: FilePath, metadataPath: FilePath)

  // ----- What the engine maintains, as facts about values

  // A book that an index can be built for: paginatable, with at most 2^32 - 1 pages.
  ghost predicate Indexable(source: seq<byte>, layout: Layout) {
    PageStarts(source, layout).Some? && |PageStarts(source, layout).value| <= MAX_PAGES
  }

  // The page starts logged so far are in the temporary file and the offset buffer, and the
  // header knows their checksum.
  ghost predicate LogState(file: seq<byte>, written: nat, buffered: seq<byte>, starts: seq<nat>, crc: u32) {
    Logged(file, written, buffered, starts) && crc == Crc(OffsetBytes(starts), 0)
  }

  // Scanning: the page starts found so far are counted, and the paginator is inside the
  // latest page.
  ghost predicate ScanState(source: seq<byte>, layout: Layout, starts: seq<nat>, header: Header, view: State) {
    && Found(source, layout, starts)
    && header.pageCount == |starts| && header.fileSize == |source|
    && Fed(view, source, layout, Latest(starts))
  }

  ghost predicate BufferState(source: seq<byte>, offset: nat, held: seq<byte>) {
    offset + |held| <= |source| && held == source[offset..offset + |held|]
  }

  // The file is the finished index of the book.
  ghost predicate IndexDone(file: seq<byte>, source: seq<byte>, layout: Layout, starts: seq<nat>, header: Header) {
    && PageStarts(source, layout) == Some(starts)
    && 1 <= |starts| <= MAX_PAGES && |source| < 0x1_0000_0000_0000_0000
    && IndexOf(starts, |source|)
    && |starts| <= BookFormat.Max(1, |source|)
    && file == IndexFile(starts, |source|)
    && header == Header(|starts|, |source|, Crc(OffsetBytes(starts), 0))
  }

  ghost predicate Usable(file: seq<byte>, header: Header) {
    && Accepted(file, header.fileSize)
    && DecodeHeader(file, |file|, header.fileSize) == Some(header)
    && |file| == IndexSize(header.pageCount)
  }

  function Contents(files: map<FilePath, File>, path: FilePath): seq<byte> {
    if path in files then files[path].bytes else []
  }

  lemma LogFlushed(before: seq<byte>, data: seq<byte>, starts: seq<nat>)
    requires |before| >= HEADER_SIZE && before[HEADER_SIZE..] + data == OffsetBytes(starts)
    ensures (before + data)[HEADER_SIZE..] + [] == OffsetBytes(starts)
  {
    hide OffsetBytes;
    assert (before + data)[HEADER_SIZE..] == before[HEADER_SIZE..] + data;
  }

  lemma EmptyLog(file: seq<byte>, buffered: seq<byte>)
    requires |file| == HEADER_SIZE && IsBlank(file) && buffered == []
    ensures LogState(file, 0, buffered, [], 0)
  {
    hide Crc;
    assert file[..HEADER_SIZE] == file;
    EmptyCrc();
  }

  // The scan starts with the page at 0.
  lemma FirstPage(source: seq<byte>, layout: Layout, starts: seq<nat>)
    requires starts == [] + [0]
    ensures Found(source, layout, starts)
  {
    hide PageAt;
  }

  lemma FoundInside(source: seq<byte>, layout: Layout, starts: seq<nat>)
    requires Found(source, layout, starts)
    ensures starts != [] && Latest(starts) <= |source|
  {
  }

  lemma BufferSlice(source: seq<byte>, offset: nat, held: seq<byte>, from: nat)
    requires BufferState(source, offset, held) && from <= |held|
    ensures held[from..] == source[offset + from..offset + |held|]
  {
    SliceOfSlice(source, offset, offset + |held|, from, |held|);
  }

  // Feeding the rest of a block that holds the read offset.
  lemma FedMeetsPage(view: State, source: seq<byte>, layout: Layout, start: nat, offset: nat, held: seq<byte>)
    requires Fed(view, source, layout, start) && BufferState(source, offset, held)
    requires offset <= view.inputOffset <= offset + |held|
    requires view.inputOffset < |source| ==> view.inputOffset < offset + |held|
    ensures view.status.NeedData? ==> Filling(view)
    ensures var data := held[view.inputOffset - offset..];
            var r := if view.status.NeedData? then Feed(view, data, offset + |held| == |source|) else view;
            if r.status.NeedData? then Fed(r, source, layout, start) && r.inputOffset > view.inputOffset
            else r == PageAt(source, layout, start)
  {
    hide FeedBytes, PageAt, Fed, BufferState;
    FedBounds(view, source, layout, start);
    HeldInside(source, offset, held);
    BufferSlice(source, offset, held, view.inputOffset - offset);
    FeedMeetsPage(view, source, layout, start, offset + |held|);
    FeedStopped(view, held[view.inputOffset - offset..], offset + |held| == |source|);
  }

  lemma HeldInside(source: seq<byte>, offset: nat, held: seq<byte>)
    requires BufferState(source, offset, held)
    ensures offset + |held| <= |source|
  {
  }

  lemma FedBounds(view: State, source: seq<byte>, layout: Layout, start: nat)
    requires Fed(view, source, layout, start)
    ensures start <= view.inputOffset <= |source|
    ensures view.status.NeedData? ==> Filling(view)
  {
    ResetFilling(start, layout);
  }

  lemma TurnedPage(view: State, source: seq<byte>, layout: Layout, start: nat)
    requires start <= |source| && view == PageAt(source, layout, start)
    requires view.status.PageReady? && !view.endOfFile
    ensures view.start == start < view.next < |source| && Turns(source, layout, start, view.next)
  {
    hide PageAt, Shaped, Covers;
    PageIsGood(source, layout, start);
    PageTurns(source, layout, start);
  }

  lemma TooManyPages(source: seq<byte>, layout: Layout, starts: seq<nat>)
    requires Found(source, layout, starts)
    requires PageAt(source, layout, Latest(starts)).status.PageReady?
    requires !PageAt(source, layout, Latest(starts)).endOfFile
    ensures |starts| == MAX_PAGES ==> !Indexable(source, layout)
  {
    hide PageAt, Chain;
    FoundTooMany(source, layout, starts);
  }

  lemma LogLength(file: seq<byte>, written: nat, buffered: seq<byte>, starts: seq<nat>, crc: u32)
    requires LogState(file, written, buffered, starts, crc)
    ensures |file| == HEADER_SIZE + written
  {
  }

  // The completed temporary file is the index of the book.
  lemma IndexWritten(before: seq<byte>, file: seq<byte>, source: seq<byte>, layout: Layout, starts: seq<nat>,
                     header: Header)
    requires PageStarts(source, layout) == Some(starts) && IndexOf(starts, |source|)
    requires |source| < 0x1_0000_0000_0000_0000
    requires |before| >= HEADER_SIZE
    requires LogState(before, |before| - HEADER_SIZE, [], starts, header.offsetsCrc)
    requires header.pageCount == |starts| && header.fileSize == |source|
    requires file == Overwritten(before, 0, HeaderBytes(header))
    ensures IndexDone(file, source, layout, starts, header)
    ensures Checked(file, header, 0, 0, 0)
  {
    hide Crc, HeaderBytes, OffsetBytes, Chain;
    IndexBound(starts, |source|);
    assert before[..0] + HeaderBytes(header) + before[HEADER_SIZE..] == HeaderBytes(header) + before[HEADER_SIZE..];
    assert before[HEADER_SIZE..] + [] == before[HEADER_SIZE..];
  }

  // Reading the first 48 bytes is enough to decode the header.
  lemma SameHeader(file: seq<byte>, front: seq<byte>, textSize: nat)
    requires front == file[..Min(HEADER_SIZE, |file|)]
    ensures DecodeHeader(front, |file|, textSize) == DecodeHeader(file, |file|, textSize)
  {
    if |file| >= HEADER_SIZE {
      DecodeLooksAtHeader(file, front, |file|, textSize);
    }
  }

  // Entry number from + i / 8 of the file is at byte i of a block read from entry from on.
  lemma EntryOfBlock(file: seq<byte>, from: nat, block: seq<byte>, i: nat)
    requires i % OFFSET_WIDTH == 0 && i + OFFSET_WIDTH <= |block|
    requires HEADER_SIZE + OFFSET_WIDTH * from + |block| <= |file|
    requires block == file[HEADER_SIZE + OFFSET_WIDTH * from..][..|block|]
    ensures Value(block[i..i + OFFSET_WIDTH]) == EntryAt(file, from + i / OFFSET_WIDTH)
    ensures HEADER_SIZE + OFFSET_WIDTH * (from + i / OFFSET_WIDTH + 1) <= |file|
  {
    hide Value;
    var at := HEADER_SIZE + OFFSET_WIDTH * from;
    assert file[at..][..|block|] == file[at..at + |block|];
    SliceOfSlice(file, at, at + |block|, i, i + OFFSET_WIDTH);
    assert OFFSET_WIDTH * (i / OFFSET_WIDTH) == i;
  }

  lemma NothingOverwritten(data: seq<byte>)
    ensures Overwritten([], 0, data) == data
  {
  }

  lemma DoneIsUsable(file: seq<byte>, source: seq<byte>, layout: Layout, starts: seq<nat>, header: Header)
    requires IndexDone(file, source, layout, starts, header)
    ensures Usable(file, header) && header.fileSize == |source|
  {
    hide Crc, OffsetBytes, IndexFile, DecodeHeader, Chain, Accepted;
    PublishedHeader(starts, |source|);
  }

  class BookIndexEngine {
    const io: Card
    const parse: Parser
    const print_: Printer
    const paginator: ReaderPaginator
    const buffer: array<byte>
    const offsets: array<byte>

    // The open book: its identity from metadata_, its book.layout, and the names of the files.
    var book: Book
    var fingerprint: Fingerprint
    var resume: Progress
    var position: Progress
    var header: Header
    var bufferedOffsets: nat
    var bufferLength: nat
    var bufferOffset: nat
    var writtenOffsets: nat
    var previousOffset: nat
    var checkedOffsets: nat
    var checkedCrc: u32
    var session: nat
    var generation: nat
    var phase: Phase
    var persistent: bool
    var metadataDirty: bool
    var resumeByPage: bool
    var events: seq<Event>

    // The page starts of the index being built or just built; only the proof needs them.
    ghost var starts: seq<nat>
    // Whether the ready index was built from the text by this object.
    ghost var built: bool

    // ----- Invariant

    ghost predicate Shape()
      reads paginator, paginator.text, paginator.lines, paginator.pending
    {
      && buffer.Length == SCAN_BUFFER_SIZE && offsets.Length == OFFSET_BUFFER_SIZE && buffer != offsets
      && buffer !in paginator.Repr() && offsets !in paginator.Repr()
      && paginator.Valid()
    }

    // The open book and the names of the engine's own files.
    ghost predicate Stored()
      reads this`book, io
    {
      && book.path in io.files
      && |io.files[book.path].bytes| == book.fileSize <= JSON_INTEGER_MAX
      && io.files[book.path].modified == book.modified
      && 0 <= book.modified <= JSON_INTEGER_MAX
      && Canonical(book.path, BOOK_PATH_CAPACITY) == Path(book.path)
      && OwnNames()
    }

    ghost predicate OwnNames()
      reads this`book
    {
      && book.path !in {book.indexPath, book.temporaryIndex, book.metadataPath, Temporary(book.metadataPath)}
      && book.indexPath !in {book.temporaryIndex, book.metadataPath, Temporary(book.metadataPath)}
      && book.temporaryIndex !in {book.metadataPath, Temporary(book.metadataPath)}
      && book.metadataPath != Temporary(book.metadataPath)
    }

    ghost function Text(): seq<byte>
      reads this`book, io
    {
      Contents(io.files, book.path)
    }

    ghost function IndexBytes(): seq<byte>
      reads this`book, io
    {
      Contents(io.files, book.indexPath)
    }

    ghost function TemporaryBytes(): seq<byte>
      reads this`book, io
    {
      Contents(io.files, book.temporaryIndex)
    }

    // Saved positions stay inside the book.
    ghost predicate Positions()
      reads this`position, this`resume, this`book
    {
      && (position.byteOffset == 0 || position.byteOffset < book.fileSize)
      && (resume.byteOffset == 0 || resume.byteOffset < book.fileSize)
    }

    ghost predicate Logging()
      reads this`bufferedOffsets, this`writtenOffsets, this`book, this`starts, this`header, io, offsets
    {
      && bufferedOffsets <= offsets.Length && bufferedOffsets % OFFSET_WIDTH == 0
      && book.temporaryIndex in io.files
      && LogState(TemporaryBytes(), writtenOffsets, offsets[..bufferedOffsets], starts, header.offsetsCrc)
    }

    ghost predicate Reading()
      reads this`bufferLength, this`bufferOffset, this`book, io, buffer
    {
      bufferLength <= buffer.Length && (bufferLength > 0 ==> BufferState(Text(), bufferOffset, buffer[..bufferLength]))
    }

    // While the text is being scanned.
    ghost predicate Scans()
      reads this`bufferedOffsets, this`writtenOffsets, this`book, this`starts, this`header
      reads this`bufferLength, this`bufferOffset, this`checkedOffsets, this`previousOffset, this`checkedCrc
      reads io, buffer, offsets, paginator, paginator.text, paginator.lines, paginator.pending
      requires Shape()
    {
      && Logging() && Reading() && ScanState(Text(), book.layout, starts, header, paginator.View())
      && Unchecked()
    }

    // Nothing has been read back yet.
    ghost predicate Unchecked()
      reads this`checkedOffsets, this`previousOffset, this`checkedCrc
    {
      checkedOffsets == 0 && previousOffset == 0 && checkedCrc == 0
    }

    // The paginator has completed the latest page, or failed on it.
    ghost predicate Paused()
      reads this`bufferedOffsets, this`writtenOffsets, this`book, this`starts, this`header
      reads this`bufferLength, this`bufferOffset, this`checkedOffsets, this`previousOffset, this`checkedCrc
      reads io, buffer, offsets, paginator, paginator.text, paginator.lines, paginator.pending
      requires Shape()
    {
      && Logging() && Reading() && Unchecked()
      && Found(Text(), book.layout, starts)
      && header.pageCount == |starts| && header.fileSize == book.fileSize
      && paginator.View() == PageAt(Text(), book.layout, Latest(starts))
    }

    // While a freshly built index is read back.
    ghost predicate ChecksNew()
      reads this`book, this`starts, this`header
      reads this`checkedOffsets, this`previousOffset, this`checkedCrc, io
    {
      && NewIsDone()
      && Checked(TemporaryBytes(), header, checkedOffsets, previousOffset, checkedCrc)
    }

    // While an index found on the card is checked: it may hold anything.
    ghost predicate ChecksCache()
      reads this`book, this`header, this`checkedOffsets, this`previousOffset, this`checkedCrc, io
    {
      && header.fileSize == book.fileSize
      && Checked(IndexBytes(), header, checkedOffsets, previousOffset, checkedCrc)
    }

    // The published index answers queries; built here, it is the index of the book.
    ghost predicate Published()
      reads this`book, this`starts, this`header, this`built, io
    {
      PublishedAs(built)
    }

    ghost predicate PublishedAs(builtHere: bool)
      reads this`book, this`starts, this`header, io
    {
      && book.indexPath in io.files && header.fileSize == book.fileSize && Usable(IndexBytes(), header)
      && (builtHere ==> IndexDone(IndexBytes(), Text(), book.layout, starts, header))
    }

    ghost predicate InPhase()
      reads this`book, this`phase, this`position, this`header, this`starts, this`built
      reads this`bufferedOffsets, this`writtenOffsets, this`bufferLength, this`bufferOffset
      reads this`checkedOffsets, this`previousOffset, this`checkedCrc
      reads io, buffer, offsets, paginator, paginator.text, paginator.lines, paginator.pending
      requires Shape()
    {
      match phase
      case Scanning => Scans()
      case ValidatingNew => ChecksNew()
      case ValidatingCache => ChecksCache()
      case Ready => Published() && position.page < header.pageCount
      case _ => true
    }

    ghost predicate Valid()
      reads this, io, buffer, offsets, paginator, paginator.text, paginator.lines, paginator.pending
    {
      Shape() && (phase == Idle || phase == Failed || (Stored() && Positions() && InPhase()))
    }

    predicate Working()
      reads this`phase
    {
      phase == Scanning || phase == ValidatingCache || phase == ValidatingNew
    }

    constructor (io: Card, parse: Parser, print_: Printer)
      ensures Valid() && phase == Idle && fresh(buffer) && fresh(offsets) && fresh(paginator) && fresh(paginator.Repr())
      ensures this.io == io && this.parse == parse && this.print_ == print_ && events == []
    {
      this.io, this.parse, this.print_ := io, parse, print_;
      paginator := new ReaderPaginator(0, Layout(0, 0, None));
      buffer := new byte[SCAN_BUFFER_SIZE](_ => 0);
      offsets := new byte[OFFSET_BUFFER_SIZE](_ => 0);
      book := Book([], 0, 0, Layout(0, 0, None), [], [], []);
      fingerprint := Fingerprint(0, 0, 0);
      resume, position := Progress(0, 0), Progress(0, 0);
      header := Header(0, 0, 0);
      bufferedOffsets, bufferLength, bufferOffset, writtenOffsets, previousOffset := 0, 0, 0, 0, 0;
      checkedOffsets, checkedCrc, session, generation := 0, 0, 0, 0;
      phase := Idle;
      persistent, metadataDirty, resumeByPage := false, false, false;
      events := [];
      starts, built := [], false;
    }

    // ----- Events and failures

    method Emit(kind: EventKind, progress: Progress, request: nat, error: Error)
      modifies this`events
      ensures |events| == |old(events)| + 1 && events[..|old(events)|] == old(events)
      ensures events[|old(events)|] ==
              Event(kind, session, request, progress, if phase == Ready then header.pageCount else 0, error,
                    phase == Ready, persistent)
    {
      events := events + [Event(kind, session, request, progress,
                                if phase == Ready then header.pageCount else 0, error, phase == Ready, persistent)];
    }

    // It is still the same book that is open, for the same session.
    twostate predicate SameBook()
      reads this`book, this`session, this`generation
    {
      book == old(book) && session == old(session) && generation == old(generation)
    }

    // Failed, and whoever opened the book has been told so last.
    ghost predicate GaveUp()
      reads this`phase, this`persistent, this`events, this`session, this`position
    {
      phase == Failed && !persistent && ErrorTold()
    }

    ghost predicate ErrorTold()
      reads this`events, this`session, this`position
    {
      && events != []
      && var told := events[|events| - 1];
         told == Event(ErrorEvent, session, 0, position, 0, told.error, false, false) && told.error != Ok
    }

    method FailWith(error: Error)
      requires error != Ok
      modifies this`phase, this`persistent, this`events
      ensures GaveUp() && events[|events| - 1].error == error
      ensures events[..|events| - 1] == old(events)
    {
      phase := Failed;
      persistent := false;
      Emit(ErrorEvent, position, 0, error);
    }

    // text_read: a read that also insists that the book is still the one opened.
    method TextRead(offset: nat, data: array<byte>, capacity: nat) returns (ok: bool, length: nat)
      requires capacity <= data.Length
      modifies this`phase, this`persistent, this`events, data
      ensures !ok ==> GaveUp()
      ensures ok ==> phase == old(phase) && persistent == old(persistent)
      ensures ok ==>
                && book.path in io.files && |Text()| == book.fileSize
                && io.files[book.path].modified == book.modified
                && offset <= book.fileSize && length == Min(capacity, book.fileSize - offset)
                && data[..length] == Text()[offset..offset + length]
      ensures io.faultFree && Stored() && offset <= book.fileSize && capacity != 0 ==> ok
    {
      var error, size, modified;
      error, length, size, modified := io.Read(book.path, offset, data, capacity);
      if error != Ok || size != book.fileSize || modified != book.modified ||
         offset > size || length > size - offset || (length == 0 && offset < size) {
        FailWith(if error == Ok then InvalidState else error);
        return false, length;
      }
      ok := true;
    }

    // ----- Writing page starts out

    method FlushOffsets() returns (ok: bool)
      requires OwnNames() && Logging()
      modifies this`phase, this`persistent, this`events, this`writtenOffsets, this`bufferedOffsets, io
      ensures !ok ==> GaveUp()
      ensures ok ==> phase == old(phase) && persistent == old(persistent) && Logging() && bufferedOffsets == 0
      ensures OnlyTemporary(old(io.files))
      ensures io.faultFree ==> ok
    {
      if bufferedOffsets == 0 {
        return true;
      }
      hide Crc, OffsetBytes;
      ghost var before := TemporaryBytes();
      var data := offsets[..bufferedOffsets];
      var error := io.Write(book.temporaryIndex, HEADER_SIZE + writtenOffsets, data, false);
      if error != Ok {
        FailWith(error);
        return false;
      }
      assert TemporaryBytes() == before + data;
      LogFlushed(before, data, starts);
      writtenOffsets := writtenOffsets + bufferedOffsets;
      bufferedOffsets := 0;
      assert offsets[..0] == [];
      return true;
    }

    // Only the temporary index has been touched.
    ghost predicate OnlyTemporary(before: map<FilePath, File>)
      reads this`book, io
    {
      forall p :: p != book.temporaryIndex ==>
        (p in io.files <==> p in before) && (p in io.files ==> io.files[p] == before[p])
    }

    method AppendOffset(offset: u64) returns (ok: bool)
      requires offsets.Length == OFFSET_BUFFER_SIZE && OwnNames() && Logging()
      modifies this`phase, this`persistent, this`events, this`writtenOffsets, this`bufferedOffsets
      modifies this`header, this`starts, io, offsets
      ensures !ok ==> GaveUp()
      ensures ok ==> phase == old(phase) && persistent == old(persistent) && Logging()
      ensures ok ==> starts == old(starts) + [offset]
      ensures header.pageCount == old(header).pageCount && header.fileSize == old(header).fileSize
      ensures OnlyTemporary(old(io.files))
      ensures io.faultFree ==> ok
    {
      hide ErrorTold, Crc, OffsetBytes, Bytes, Logged;
      if bufferedOffsets == offsets.Length {
        var flushed := FlushOffsets();
        if !flushed {
          return false;
        }
      }
      ghost var buffered := offsets[..bufferedOffsets];
      LoggedMore(TemporaryBytes(), writtenOffsets, buffered, starts, offset);
      Store(offsets, bufferedOffsets, offset, OFFSET_WIDTH);
      var crc := ChecksumBlock(offsets[bufferedOffsets..bufferedOffsets + OFFSET_WIDTH], header.offsetsCrc);
      header := header.(offsetsCrc := crc);
      bufferedOffsets := bufferedOffsets + OFFSET_WIDTH;
      starts := starts + [offset];
      assert offsets[..bufferedOffsets] == buffered + Bytes(offset, 8);
      return true;
    }

    // ----- Rebuilding

    method SampleText(i: nat) returns (ok: bool, crc: u32)
      requires Shape() && i < 3
      modifies this`phase, this`persistent, this`events, buffer
      ensures !ok ==> GaveUp()
      ensures ok ==> phase == old(phase) && persistent == old(persistent)
      ensures ok ==> |Text()| == book.fileSize && crc == Crc(Sample(Text(), i), 0)
      ensures io.faultFree && Stored() ==> ok
    {
      hide Crc;
      crc := 0;
      var window := Window(book.fileSize, i);
      WindowsInside(book.fileSize, i);
      ok := ReadWindow(window.0, window.1);
      if !ok {
        return;
      }
      crc := ChecksumBlock(buffer[..window.1], 0);
    }

    // Empty files still perform a checked read with a non-zero capacity.
    method ReadWindow(offset: nat, wanted: nat) returns (ok: bool)
      requires Shape() && wanted <= SCAN_BUFFER_SIZE
      modifies this`phase, this`persistent, this`events, buffer
      ensures !ok ==> GaveUp()
      ensures ok ==> phase == old(phase) && persistent == old(persistent)
      ensures ok ==> |Text()| == book.fileSize && offset + wanted <= book.fileSize
      ensures ok ==> buffer[..wanted] == Text()[offset..offset + wanted]
      ensures (io.faultFree && Stored() && offset + wanted <= book.fileSize
               && (wanted != 0 || offset == book.fileSize)) ==> ok
    {
      var length;
      ok, length := TextRead(offset, buffer, BookFormat.Max(1, wanted));
      if !ok {
        return;
      }
      if length != wanted {
        FailWith(InvalidSize);
        return false;
      }
    }

    // The fingerprint is that of the text.
    ghost predicate Stamped()
      reads this`book, this`fingerprint, io
    {
      fingerprint == FingerprintOf(Text())
    }

    method TakeFingerprint() returns (ok: bool)
      requires Shape()
      modifies this`phase, this`persistent, this`events, this`fingerprint, buffer
      ensures !ok ==> GaveUp()
      ensures ok ==> phase == old(phase) && persistent == old(persistent)
      ensures ok ==> Stamped()
      ensures io.faultFree && old(Stored()) ==> ok
    {
      hide ErrorTold, Crc, Sample;
      var head, middle, tail;
      ok, head := SampleText(0);
      if !ok {
        return;
      }
      ok, middle := SampleText(1);
      if !ok {
        return;
      }
      ok, tail := SampleText(2);
      if !ok {
        return;
      }
      fingerprint := Fingerprint(head, middle, tail);
    }

    method ResetProgress()
      modifies this`header, this`resumeByPage, this`resume, this`position, this`checkedOffsets, this`checkedCrc
      modifies this`previousOffset, this`writtenOffsets, this`bufferOffset, this`bufferLength, this`bufferedOffsets
      modifies this`starts, this`built
      ensures header == Header(1, book.fileSize, 0)
      ensures resume == old(resume).(page := 0) && position == old(position).(page := 0)
      ensures checkedOffsets == 0 && checkedCrc == 0 && previousOffset == 0 && writtenOffsets == 0
      ensures bufferLength == 0 && bufferedOffsets == 0 && starts == [] && !built && !resumeByPage
    {
      header := Header(1, book.fileSize, 0);
      resumeByPage := false;
      resume := resume.(page := 0);
      position := position.(page := 0);
      checkedOffsets, checkedCrc := 0, 0;
      previousOffset, writtenOffsets, bufferOffset := 0, 0, 0;
      bufferLength, bufferedOffsets := 0, 0;
      starts, built := [], false;
    }

    // A blank header, to be overwritten when the index is complete.
    method StartTemporary() returns (ok: bool)
      requires Shape() && Stored()
      requires writtenOffsets == 0 && bufferedOffsets == 0 && starts == [] && header.offsetsCrc == 0
      modifies this`phase, this`persistent, this`events, io, buffer
      ensures Stored() && Text() == old(Text())
      ensures if ok then phase == old(phase) && persistent == old(persistent) && Logging() else GaveUp()
      ensures io.faultFree ==> ok
    {
      hide LogState;
      forall i | 0 <= i < HEADER_SIZE {
        buffer[i] := 0;
      }
      var error := io.Write(book.temporaryIndex, 0, buffer[..HEADER_SIZE], true);
      if error != Ok {
        FailWith(error);
        return false;
      }
      EmptyLog(TemporaryBytes(), offsets[..0]);
      return true;
    }

    // Starts the paginator on the page logged last.
    method StartPage(offset: nat)
      requires Shape() && Stored() && Logging() && Reading() && starts != [] && offset == Latest(starts)
      requires Found(Text(), book.layout, starts) && header.pageCount == |starts| && header.fileSize == book.fileSize
      requires Unchecked()
      modifies paginator.Repr()
      ensures Shape() && Scans()
      ensures paginator.inputOffset == offset
    {
      hide LogState, BufferState, Found, Fed, FeedBytes;
      FoundInside(Text(), book.layout, starts);
      ResetFed(Text(), book.layout, offset);
      paginator.ResetTo(offset, book.layout);
    }

    method LogFirstPage() returns (ok: bool)
      requires Shape() && Stored() && Logging() && starts == []
      requires bufferLength == 0 && header.pageCount == 1 && header.fileSize == book.fileSize && Unchecked()
      modifies this`phase, this`persistent, this`events, this`writtenOffsets, this`bufferedOffsets
      modifies this`header, this`starts, io, offsets, paginator.Repr()
      ensures Shape() && Stored() && Text() == old(Text())
      ensures if ok then phase == old(phase) && persistent == old(persistent) && Scans() else GaveUp()
      ensures io.faultFree ==> ok
    {
      hide ErrorTold, LogState, Found, ReaderPaginator.Valid, ReaderPaginator.View, ScanState;
      ok := AppendOffset(0);
      if ok {
        FirstPage(Text(), book.layout, starts);
        StartPage(0);
      }
    }

    method StartScan() returns (ok: bool)
      requires Shape() && Stored() && header == Header(1, book.fileSize, 0) && bufferLength == 0
      requires writtenOffsets == 0 && bufferedOffsets == 0 && starts == [] && Unchecked()
      modifies this`phase, this`persistent, this`events, this`writtenOffsets, this`bufferedOffsets
      modifies this`header, this`starts, io, buffer, offsets, paginator.Repr()
      ensures Shape() && Stored() && Text() == old(Text())
      ensures if ok then phase == Scanning && persistent == old(persistent) && Scans() else GaveUp()
      ensures io.faultFree ==> ok
    {
      hide ErrorTold, LogState, ScanState, BufferState, ReaderPaginator.Valid, ReaderPaginator.View, Scans;
      ok := StartTemporary();
      if ok {
        phase := Scanning;
        ok := LogFirstPage();
      }
    }

    // Where reading is to resume, by offset only.
    twostate predicate StartsOver()
      reads this`resume, this`position, this`resumeByPage
    {
      resume == old(resume).(page := 0) && position == old(position).(page := 0) && !resumeByPage
    }

    method BeginRebuild(calculateFingerprint: bool) returns (ok: bool)
      requires Shape() && Stored() && Positions()
      modifies this, io, buffer, offsets, paginator.Repr()
      ensures Valid() && SameBook() && Text() == old(Text())
      ensures if ok then phase == Scanning && persistent == old(persistent) else GaveUp()
      ensures ok ==> StartsOver() && if calculateFingerprint then Stamped() else fingerprint == old(fingerprint)
      ensures io.faultFree ==> ok
    {
      hide ErrorTold, Stored, Scans, ChecksNew, ChecksCache, Published, ReaderPaginator.Valid, FingerprintOf;
      if calculateFingerprint {
        ok := TakeFingerprint();
        if !ok {
          return;
        }
      }
      ResetProgress();
      ok := StartScan();
    }

    // ----- Scanning

    // Reads the block that holds the paginator's read offset, unless the buffer has it.
    method FillBuffer() returns (ok: bool)
      requires Shape() && Stored() && Scans()
      modifies this`phase, this`persistent, this`events, this`bufferOffset, this`bufferLength, buffer
      ensures if ok then phase == old(phase) && persistent == old(persistent) else GaveUp()
      ensures ok ==>
                && bufferLength <= buffer.Length
                && BufferState(Text(), bufferOffset, buffer[..bufferLength])
                && bufferOffset <= paginator.inputOffset <= bufferOffset + bufferLength
                && (paginator.inputOffset < book.fileSize ==> paginator.inputOffset < bufferOffset + bufferLength)
      ensures io.faultFree ==> ok
    {
      hide ReaderPaginator.Valid, Found, FeedBytes, Crc, OffsetBytes;
      var offset := paginator.inputOffset;
      if bufferLength == 0 || offset < bufferOffset || offset >= bufferOffset + bufferLength {
        bufferOffset := offset;
        ok, bufferLength := TextRead(offset, buffer, SCAN_BUFFER_SIZE);
        return;
      }
      ok := true;
    }

    // Feeds the paginator what the buffer holds from its read offset on.
    method FeedHeld() returns (parsed: Status)
      requires Shape() && Stored() && Scans() && BufferState(Text(), bufferOffset, buffer[..bufferLength])
      requires bufferOffset <= paginator.inputOffset <= bufferOffset + bufferLength
      requires paginator.inputOffset < book.fileSize ==> paginator.inputOffset < bufferOffset + bufferLength
      modifies paginator.Repr()
      ensures Shape() && parsed == paginator.status
      ensures if parsed.NeedData? then Scans() else Paused()
      ensures parsed.NeedData? ==> paginator.inputOffset > old(paginator.inputOffset)
    {
      hide LogState, Found, Fed, FeedBytes, PageAt, Feed, BufferState, ReaderPaginator.Valid;
      FoundInside(Text(), book.layout, starts);
      var from := paginator.inputOffset - bufferOffset;
      assert buffer[from..bufferLength] == buffer[..bufferLength][from..];
      ViewOffset();
      FedMeetsPage(paginator.View(), Text(), book.layout, Latest(starts), bufferOffset, buffer[..bufferLength]);
      parsed := paginator.FeedData(buffer[from..bufferLength], bufferOffset + bufferLength == book.fileSize);
      ViewOffset();
    }

    method FeedBuffer() returns (ok: bool, parsed: Status)
      requires Shape() && Stored() && Scans()
      modifies this`phase, this`persistent, this`events, this`bufferOffset, this`bufferLength, buffer
      modifies paginator.Repr()
      ensures Shape() && starts != []
      ensures if ok then phase == old(phase) && persistent == old(persistent) else GaveUp()
      ensures ok ==> parsed == paginator.status && if parsed.NeedData? then Scans() else Paused()
      ensures ok && parsed.NeedData? ==> paginator.inputOffset > old(paginator.inputOffset)
      ensures io.faultFree ==> ok
    {
      hide ErrorTold, LogState, Found, Fed, BufferState, ReaderPaginator.Valid, ReaderPaginator.View;
      parsed := NeedData;
      FoundInside(Text(), book.layout, starts);
      ok := FillBuffer();
      if ok {
        parsed := FeedHeld();
      }
    }

    lemma ViewOffset()
      requires Shape()
      ensures paginator.textLength <= paginator.text.Length && paginator.lineCount <= paginator.lines.Length
      ensures paginator.pendingSize <= paginator.pending.Length
      ensures paginator.View().inputOffset == paginator.inputOffset
      ensures paginator.View().status == paginator.status
    {
    }

    // Logs the start of the next page and begins with it.
    method LogPage(next: nat) returns (ok: bool)
      requires Shape() && Stored() && Logging() && Reading() && Unchecked() && starts != []
      requires Found(Text(), book.layout, starts + [next]) && next < 0x1_0000_0000_0000_0000
      requires header.pageCount == |starts| < MAX_PAGES && header.fileSize == book.fileSize
      modifies this`phase, this`persistent, this`events, this`writtenOffsets, this`bufferedOffsets
      modifies this`header, this`starts, io, offsets, paginator.Repr()
      ensures Shape() && Stored() && Text() == old(Text())
      ensures if ok then phase == old(phase) && Scans() else GaveUp()
      ensures ok ==> starts == old(starts) + [next]
      ensures io.faultFree ==> ok
    {
      hide LogState, Found, BufferState, Scans, ReaderPaginator.Valid, ReaderPaginator.View;
      ok := AppendOffset(next);
      if ok {
        CountPage(next);
      }
    }

    // The page logged last is counted and becomes the current one.
    method CountPage(start: nat)
      requires Shape() && Stored() && Logging() && Reading() && Unchecked() && starts != [] && start == Latest(starts)
      requires Found(Text(), book.layout, starts) && header.fileSize == book.fileSize
      requires header.pageCount + 1 == |starts| <= MAX_PAGES
      modifies this`header, paginator.Repr()
      ensures Shape() && Scans() && header.pageCount == old(header).pageCount + 1
    {
      hide ErrorTold, LogState, Found, BufferState, Scans, ReaderPaginator.Valid, ReaderPaginator.View, Shape;
      header := header.(pageCount := header.pageCount + 1);
      StartPage(start);
    }

    // A page that is not the last: its successor becomes the current page.
    method TurnPage() returns (ok: bool)
      requires Shape() && Stored() && Paused() && phase == Scanning
      requires paginator.status.PageReady? && !paginator.endOfFile
      modifies this`phase, this`persistent, this`events, this`writtenOffsets, this`bufferedOffsets
      modifies this`header, this`starts, io, offsets, paginator.Repr()
      ensures Shape() && Stored() && Text() == old(Text())
      ensures if ok then phase == Scanning && Scans() else GaveUp()
      ensures ok ==> starts == old(starts) + [old(paginator.next)]
      ensures old(starts) != [] && old(paginator.next) > Latest(old(starts))
      ensures io.faultFree && !ok ==> !Indexable(Text(), book.layout)
    {
      hide ErrorTold, LogState, Found, BufferState, Scans, Turns, PageAt, Indexable, Chain;
      var next := paginator.next;
      NextPage();
      hide ReaderPaginator.Valid, ReaderPaginator.View;
      if header.pageCount == MAX_PAGES || next <= paginator.start || next >= book.fileSize {
        FailWith(InvalidSize);
        return false;
      }
      ok := LogPage(next);
    }

    // What the engine checks of a turned page holds, unless the page counter is exhausted.
    lemma NextPage()
      requires Shape() && Stored() && Paused() && paginator.status.PageReady? && !paginator.endOfFile
      ensures starts != [] && paginator.start == Latest(starts) < paginator.next < book.fileSize
      ensures Found(Text(), book.layout, starts + [paginator.next])
      ensures header.pageCount == MAX_PAGES ==> !Indexable(Text(), book.layout)
    {
      hide Found, Turns, PageAt, Indexable, Chain;
      FoundInside(Text(), book.layout, starts);
      TurnedPage(paginator.View(), Text(), book.layout, Latest(starts));
      TooManyPages(Text(), book.layout, starts);
      FoundMore(Text(), book.layout, starts, paginator.next);
    }

    // The page list is complete.
    lemma LastPage()
      requires Shape() && Stored() && Paused() && paginator.status.PageReady? && paginator.endOfFile
      ensures PageStarts(Text(), book.layout) == Some(starts) && IndexOf(starts, |Text()|)
      ensures header.pageCount == |starts| && header.fileSize == |Text()|
    {
      hide Found, PageAt, Chain;
      FoundAll(Text(), book.layout, starts);
      FoundIncreasing(Text(), book.layout, starts);
    }

    // Puts the final header over the blank one.
    method WriteHeader() returns (ok: bool)
      requires Stored() && Logging() && Unchecked() && bufferedOffsets == 0
      requires PageStarts(Text(), book.layout) == Some(starts) && IndexOf(starts, |Text()|)
      requires header.pageCount == |starts| && header.fileSize == |Text()|
      modifies this`phase, this`persistent, this`events, io
      ensures Stored() && Text() == old(Text())
      ensures if ok then phase == old(phase) && ChecksNew() else GaveUp()
      ensures io.faultFree ==> ok
    {
      hide PageStarts, IndexOf, LogState, Crc, HeaderBytes, IndexDone, Checked;
      var bytes := new byte[HEADER_SIZE](_ => 0);
      EncodeHeader(header, bytes);
      ghost var before := TemporaryBytes();
      assert bytes[..HEADER_SIZE] == bytes[..];
      assert offsets[..0] == [];
      LogLength(before, writtenOffsets, [], starts, header.offsetsCrc);
      var error := io.Write(book.temporaryIndex, 0, bytes[..], false);
      if error != Ok {
        FailWith(error);
        return false;
      }
      IndexWritten(before, TemporaryBytes(), Text(), book.layout, starts, header);
      return true;
    }

    // The last page: the log is flushed and the header completed.
    method FinishScan()
      requires Shape() && Stored() && Paused() && phase == Scanning
      requires paginator.status.PageReady? && paginator.endOfFile
      modifies this`phase, this`persistent, this`events, this`writtenOffsets, this`bufferedOffsets, io
      ensures Stored() && Text() == old(Text())
      ensures phase == ValidatingNew || GaveUp()
      ensures phase == ValidatingNew ==> ChecksNew()
      ensures io.faultFree ==> phase == ValidatingNew
    {
      hide ErrorTold;
      hide PageStarts, IndexOf, LogState, IndexDone, Checked, Found, ReaderPaginator.Valid, ReaderPaginator.View;
      LastPage();
      var ok := FlushOffsets();
      if ok {
        ok := WriteHeader();
        if ok {
          phase := ValidatingNew;
        }
      }
    }

    // Where reading is to resume has not changed, nor has the fingerprint.
    twostate predicate MarkKept()
      reads this`resume, this`position, this`resumeByPage, this`fingerprint
    {
      && resume == old(resume) && position == old(position) && resumeByPage == old(resumeByPage)
      && fingerprint == old(fingerprint)
    }

    method ScanStep()
      requires Valid() && phase == Scanning
      modifies this, io, buffer, offsets, paginator.Repr()
      ensures Valid() && SameBook() && Text() == old(Text())
      ensures phase == Scanning || phase == ValidatingNew || GaveUp()
      ensures phase == Scanning ==> Advanced()
      ensures MarkKept()
      ensures io.faultFree && phase == Failed ==> !Indexable(Text(), book.layout)
    {
      hide ErrorTold, Stored, Scans, Paused, ChecksNew, ChecksCache, Published, ReaderPaginator.Valid, Indexable;
      var ok, parsed := FeedBuffer();
      if !ok {
        return;
      }
      if parsed.InvalidUtf8? {
        BrokenPage();
        FailWith(InvalidArgument);
        return;
      }
      if !parsed.PageReady? {
        return;
      }
      if !paginator.endOfFile {
        var _ := TurnPage();
      } else {
        FinishScan();
      }
    }

    lemma BrokenPage()
      requires Shape() && Stored() && Paused() && !paginator.status.PageReady?
      ensures !Indexable(Text(), book.layout)
    {
      hide PageAt, Chain, Found;
      FoundBroken(Text(), book.layout, starts);
    }

    // The scan has moved on: to a later page, or further inside the page.
    twostate predicate Advanced()
      reads this`starts, paginator
    {
      starts != [] && old(starts) != [] &&
      (Latest(starts) > Latest(old(starts)) ||
       (Latest(starts) == Latest(old(starts)) && paginator.inputOffset > old(paginator.inputOffset)))
    }

    // ----- Validating

    ghost function BytesAt(path: FilePath): seq<byte>
      reads io
    {
      Contents(io.files, path)
    }

    // The header read back is the one expected.
    method CheckHeader(path: FilePath) returns (error: Error, good: bool)
      requires Shape() && header.fileSize == book.fileSize && header.pageCount > 0
      modifies buffer
      ensures good ==> error == Ok && path in io.files && CheckedEntries(BytesAt(path), header, 0, 0)
      ensures io.faultFree && path in io.files && HeaderIn(BytesAt(path), book.fileSize) == Some(header) ==> good
    {
      hide DecodeHeader, Crc;
      var length, size, modified;
      error, length, size, modified := io.Read(path, 0, buffer, HEADER_SIZE);
      good := false;
      if error == Ok {
        var actual := DecodeHeader(buffer[..length], size, book.fileSize);
        SameHeader(BytesAt(path), buffer[..length], book.fileSize);
        if actual.Some? {
          DecodedHeader(BytesAt(path), size, book.fileSize);
        }
        good := actual.Some? && actual.value.pageCount == header.pageCount
                && actual.value.offsetsCrc == header.offsetsCrc;
      }
    }

    // The next entries of the file, if the file has the size its header promises.
    method ReadEntries(path: FilePath) returns (error: Error, good: bool, length: nat)
      requires Shape() && checkedOffsets < header.pageCount
      modifies buffer
      ensures good ==>
                && error == Ok && path in io.files && |BytesAt(path)| == IndexSize(header.pageCount)
                && 0 < length <= buffer.Length && length % OFFSET_WIDTH == 0
                && checkedOffsets + length / OFFSET_WIDTH <= header.pageCount
                && HEADER_SIZE + OFFSET_WIDTH * checkedOffsets + length <= |BytesAt(path)|
                && buffer[..length] == BytesAt(path)[HEADER_SIZE + OFFSET_WIDTH * checkedOffsets..][..length]
      ensures io.faultFree && path in io.files && |BytesAt(path)| == IndexSize(header.pageCount) ==> good
    {
      var expected := IndexSize(header.pageCount);
      var offset := HEADER_SIZE + checkedOffsets * OFFSET_WIDTH;
      var capacity := Min(SCAN_BUFFER_SIZE, expected - offset);
      assert expected - offset == OFFSET_WIDTH * (header.pageCount - checkedOffsets);
      assert capacity % OFFSET_WIDTH == 0;
      var size, modified;
      error, length, size, modified := io.Read(path, offset, buffer, capacity);
      good := error == Ok && size == expected && length == capacity && length % OFFSET_WIDTH == 0;
      if good {
        assert BytesAt(path)[offset..][..length] == BytesAt(path)[offset..offset + length];
      }
    }

    // Entry by entry through the block just read.
    method CheckEntries(length: nat, ghost f: seq<byte>) returns (valid: bool)
      requires Shape() && CheckedEntries(f, header, checkedOffsets, previousOffset)
      requires 0 < length <= buffer.Length && length % OFFSET_WIDTH == 0
      requires checkedOffsets + length / OFFSET_WIDTH <= header.pageCount
      requires HEADER_SIZE + OFFSET_WIDTH * checkedOffsets + length <= |f|
      requires buffer[..length] == f[HEADER_SIZE + OFFSET_WIDTH * checkedOffsets..][..length]
      requires header.fileSize == book.fileSize
      modifies this`previousOffset, this`checkedOffsets
      ensures valid ==>
                && checkedOffsets == old(checkedOffsets) + length / OFFSET_WIDTH
                && CheckedEntries(f, header, checkedOffsets, previousOffset)
      ensures Accepted(f, header.fileSize) ==> valid
    {
      hide CheckedEntries, Accepted, ReaderPaginator.Valid, Value;
      ghost var from := checkedOffsets;
      var i := 0;
      while i < length
        invariant 0 <= i <= length && i % OFFSET_WIDTH == 0
        invariant checkedOffsets == from + i / OFFSET_WIDTH
        invariant CheckedEntries(f, header, checkedOffsets, previousOffset)
        decreases length - i
      {
        var value := Load(buffer[i..i + OFFSET_WIDTH]);
        EntryOfBlock(f, from, buffer[..length], i);
        assert buffer[i..i + OFFSET_WIDTH] == buffer[..length][i..i + OFFSET_WIDTH];
        CheckedMore(f, header, checkedOffsets, previousOffset);
        if !OffsetValid(value, previousOffset, checkedOffsets, book.fileSize) {
          if Accepted(f, header.fileSize) {
            AcceptedEntry(f, header, checkedOffsets, previousOffset);
          }
          return false;
        }
        previousOffset := value;
        checkedOffsets := checkedOffsets + 1;
        i := i + OFFSET_WIDTH;
      }
      return true;
    }

    // ----- Looking positions up

    // The page starts in the published index file.
    ghost function Starts(): seq<nat>
      reads this`book, this`header, io
      requires |IndexBytes()| == IndexSize(header.pageCount)
    {
      Offsets(IndexBytes()[HEADER_SIZE..], header.pageCount)
    }

    // The published index as a list: where the lookups search.
    ghost predicate Searchable()
      reads this`book, this`header, io
    {
      && book.indexPath in io.files && header.fileSize == book.fileSize && header.pageCount > 0
      && |IndexBytes()| == IndexSize(header.pageCount)
      && IndexOf(Starts(), book.fileSize)
    }

    lemma PublishedIsSearchable()
      requires Published()
      ensures Searchable()
    {
      hide DecodeHeader, Crc, Offsets, IndexDone;
      DecodedHeader(IndexBytes(), |IndexBytes()|, header.fileSize);
    }

    method ReadOffset(page: nat) returns (ok: bool, offset: nat)
      requires Searchable()
      ensures ok ==> page < header.pageCount && offset == Starts()[page]
      ensures io.faultFree && page < header.pageCount ==> ok
    {
      hide Value, Offsets;
      offset := 0;
      if page >= header.pageCount {
        return false, offset;
      }
      EntryInside(page, header.pageCount);
      OffsetsEntry(IndexBytes(), header.pageCount, page);
      var bytes := new byte[OFFSET_WIDTH](_ => 0);
      var at := HEADER_SIZE + page * OFFSET_WIDTH;
      var error, length, size, modified := io.Read(book.indexPath, at, bytes, OFFSET_WIDTH);
      if error != Ok || length != OFFSET_WIDTH || size != IndexSize(header.pageCount) {
        return false, offset;
      }
      assert bytes[..length] == bytes[..];
      offset := Load(bytes[..]);
      ok := if page == 0 then offset == 0 else offset > 0 && offset < book.fileSize;
    }

    method Locate(progress: Progress, preferPage: bool) returns (ok: bool, located: Progress)
      requires Searchable()
      ensures ok ==> (located.page, located.byteOffset) == Located(Starts(), book.fileSize, progress, preferPage)
      ensures io.faultFree ==> ok
    {
      hide Offsets, PageOf;
      located := progress;
      ghost var starts := Starts();
      IndexBound(starts, book.fileSize);
      if preferPage && progress.page < header.pageCount {
        var offset;
        ok, offset := ReadOffset(progress.page);
        if ok {
          located := Progress(progress.page, offset);
        }
        return;
      }
      // Otherwise the page that holds the offset: the last one that does not start behind it.
      var target := if book.fileSize == 0 then 0 else Min(progress.byteOffset, book.fileSize - 1);
      var low, high := 0, header.pageCount;
      while low < high
        invariant 0 <= low <= high <= header.pageCount
        invariant forall i :: 0 <= i < low ==> starts[i] <= target
        invariant forall i :: high <= i < |starts| ==> target < starts[i]
      {
        var middle := low + (high - low) / 2;
        var offset;
        ok, offset := ReadOffset(middle);
        if !ok {
          return;
        }
        if offset <= target {
          low := middle + 1;
        } else {
          high := middle;
        }
      }
      var page := if low == 0 then 0 else low - 1;
      assert starts[0] <= target;
      PageOfUnique(starts, target, page);
      var offset;
      ok, offset := ReadOffset(page);
      if ok {
        located := Progress(page, offset);
      }
    }

    // ----- Metadata

    // The abstract printer handles every valid record.
    ghost predicate Prints()
    {
      forall m :: MetadataValid(m) ==> print_(m).Some?
    }

    // What write_metadata saves for the current state.
    function Record(): Metadata
      reads this`book, this`fingerprint, this`position, this`phase, this`header
    {
      var complete := phase == Ready;
      Metadata(book.path, Identity(book.fileSize, book.modified, fingerprint), FORMAT_VERSION, PAGINATION_VERSION,
               if complete then header.pageCount else 0,
               if complete then header.offsetsCrc else 0,
               if complete then position else position.(page := 0),
               complete)
    }

    // Only the metadata files have been touched.
    ghost predicate OnlyMetadata(before: map<FilePath, File>)
      reads this`book, io
    {
      forall p :: p != book.metadataPath && p != Temporary(book.metadataPath) ==>
        (p in io.files <==> p in before) && (p in io.files ==> io.files[p] == before[p])
    }

    method WriteMetadata() returns (ok: bool)
      requires OwnNames()
      modifies this`phase, this`persistent, this`events, io
      ensures if ok then phase == old(phase) && persistent else GaveUp()
      ensures OnlyMetadata(old(io.files))
      ensures ok ==> print_(old(Record())).Some? && MetadataValid(old(Record()))
      ensures ok ==>
                && book.metadataPath in io.files
                && io.files[book.metadataPath].bytes == print_(old(Record())).value
      ensures io.faultFree && Prints() && old(MetadataValid(Record())) ==> ok
    {
      hide MetadataValid;
      var saved := Record();
      var json := if MetadataValid(saved) then print_(saved) else None;
      if json.None? {
        FailWith(NoMemory);
        return false;
      }
      var temporary := Temporary(book.metadataPath);
      var error := io.Write(temporary, 0, json.value, true);
      if error == Ok {
        NothingOverwritten(json.value);
        error := io.Replace(temporary, book.metadataPath);
      }
      if error != Ok {
        FailWith(error);
        return false;
      }
      persistent := true;
      return true;
    }

    // ----- Completing

    // The positions are those that lookups of these ones give.
    ghost predicate Positioned(resumeFrom: Progress, positionFrom: Progress, byPage: bool)
      reads this`book, this`header, this`resume, this`position, io
    {
      && Searchable()
      && (resume.page, resume.byteOffset) == Located(Starts(), book.fileSize, resumeFrom, byPage)
      && (position.page, position.byteOffset) == Located(Starts(), book.fileSize, positionFrom, false)
    }

    // The last event tells that the index is ready, and where reading resumes.
    ghost predicate Announced()
      reads this`events, this`session, this`resume, this`header
    {
      && events != []
      && events[|events| - 1] == Event(ReadyEvent, session, 0, resume, header.pageCount, Ok, true, true)
    }

    // And that is the start of a page.
    ghost predicate ResumesAtPage()
      reads this`events, this`session, this`resume, this`header, this`book, io
    {
      Announced() && Searchable() && resume.page < header.pageCount && resume.byteOffset == Starts()[resume.page]
    }

    // Both positions are moved to the starts of the pages that contain them.
    method LocateBoth() returns (ok: bool)
      requires Searchable()
      modifies this`resume, this`position
      ensures ok ==> Positions() && position.page < header.pageCount
      ensures ok ==> (resume.page, resume.byteOffset) == Located(Starts(), book.fileSize, old(resume), resumeByPage)
      ensures ok ==> (position.page, position.byteOffset) == Located(Starts(), book.fileSize, old(position), false)
      ensures io.faultFree ==> ok
    {
      hide Offsets, PageOf;
      ok, resume := Locate(resume, resumeByPage);
      if ok {
        ok, position := Locate(position, false);
      }
    }

    // The temporary file becomes the index of the book.
    method Publish() returns (ok: bool)
      requires Stored() && NewIsDone()
      modifies this`phase, this`persistent, this`events, io
      ensures Stored() && Text() == old(Text())
      ensures if ok then phase == old(phase) && book.indexPath in io.files else GaveUp()
      ensures ok ==> IndexDone(IndexBytes(), Text(), book.layout, starts, header)
      ensures io.faultFree ==> ok
    {
      hide IndexDone;
      var error := io.Replace(book.temporaryIndex, book.indexPath);
      if error != Ok {
        FailWith(error);
        return false;
      }
      return true;
    }

    method CompleteIndex(newlyBuilt: bool)
      requires Shape() && Stored() && Positions()
      requires newlyBuilt ==> NewIsDone()
      requires !newlyBuilt ==>
                 book.indexPath in io.files && header.fileSize == book.fileSize && Usable(IndexBytes(), header)
      requires phase == ValidatingNew || phase == ValidatingCache
      modifies this`phase, this`persistent, this`events, this`resume, this`position, this`metadataDirty, this`built, io
      ensures Valid() && Text() == old(Text())
      ensures phase == Ready || GaveUp()
      ensures phase == Ready ==> built == newlyBuilt && persistent
      ensures phase == Ready ==> Positioned(old(resume), old(position), resumeByPage)
      ensures phase == Ready && !newlyBuilt ==> IndexBytes() == old(IndexBytes())
      ensures phase == Ready && (newlyBuilt || old(metadataDirty)) ==> RecordSaved()
      ensures phase == Ready ==> ResumesAtPage()
      ensures io.faultFree && Prints() ==> phase == Ready
    {
      hide ErrorTold, IndexDone, Usable, ReaderPaginator.Valid, ResumesAtPage, RecordSaved, Positioned, Announced;
      var probe := new byte[1];
      var ok, length := TextRead(0, probe, 1);
      if !ok {
        return;
      }
      if newlyBuilt {
        ok := Publish();
        if !ok {
          return;
        }
        DoneIsUsable(IndexBytes(), Text(), book.layout, starts, header);
      }
      EnterReady(newlyBuilt);
      if phase == Ready {
        PositionedIsAtPage(old(resume), old(position));
      }
    }

    method EnterReady(newlyBuilt: bool)
      requires Shape() && Stored() && Positions() && PublishedAs(newlyBuilt)
      modifies this`phase, this`persistent, this`events, this`resume, this`position, this`metadataDirty, this`built, io
      ensures Valid() && Text() == old(Text())
      ensures phase == Ready || GaveUp()
      ensures phase == Ready ==> persistent && built == newlyBuilt
      ensures phase == Ready ==> Positioned(old(resume), old(position), resumeByPage)
      ensures phase == Ready ==> IndexBytes() == old(IndexBytes()) && Announced()
      ensures phase == Ready && (newlyBuilt || old(metadataDirty)) ==> RecordSaved()
      ensures io.faultFree && Prints() ==> phase == Ready
    {
      hide ErrorTold, ReaderPaginator.View, Stored, Shape;
      hide PublishedAs, ReaderPaginator.Valid, Located, Prints, RecordSaved, Offsets, IndexOf, Announced;
      built := newlyBuilt;
      phase := Ready;
      PublishedIsSearchable();
      var ok := LocateBoth();
      if !ok {
        FailWith(InvalidSize);
        return;
      }
      AnnounceReady(newlyBuilt);
    }

    lemma PositionedIsAtPage(resumeFrom: Progress, positionFrom: Progress)
      requires Announced() && Positioned(resumeFrom, positionFrom, resumeByPage)
      ensures ResumesAtPage()
    {
      hide Offsets;
    }

    method AnnounceReady(newlyBuilt: bool)
      requires Shape() && Stored() && Positions() && Published() && phase == Ready
      requires position.page < header.pageCount
      modifies this`phase, this`persistent, this`events, this`metadataDirty, io
      ensures Valid() && Text() == old(Text())
      ensures phase == Ready || GaveUp()
      ensures phase == Ready ==> persistent && book.indexPath in io.files && IndexBytes() == old(IndexBytes())
      ensures phase == Ready ==> !metadataDirty && Announced() && (newlyBuilt || old(metadataDirty) ==> RecordSaved())
      ensures io.faultFree && Prints() ==> phase == Ready
    {
      hide ErrorTold;
      hide Searchable, ReaderPaginator.Valid, MetadataValid, Prints, Stored, Positions, RecordSaved, Usable, IndexDone;
      hide Shape, Published, Announced;
      if newlyBuilt || metadataDirty {
        PublishedIsSearchable();
        RecordIsValid();
        var ok := SaveReady();
        if !ok {
          return;
        }
      }
      Announce();
    }

    method Announce()
      requires Shape() && Stored() && Positions() && Published() && phase == Ready
      requires position.page < header.pageCount
      modifies this`persistent, this`events, this`metadataDirty
      ensures Valid() && phase == Ready && persistent && !metadataDirty && Announced()
      ensures book.indexPath in io.files
    {
      hide ReaderPaginator.Valid, Stored, Positions, Usable, IndexDone;
      persistent := true;
      metadataDirty := false;
      Emit(ReadyEvent, resume, 0, Ok);
    }

    // Writing metadata leaves the text and the index as they are.
    method SaveReady() returns (ok: bool)
      requires Stored() && Published() && phase == Ready
      modifies this`phase, this`persistent, this`events, io
      ensures Stored() && Text() == old(Text())
      ensures if ok then phase == Ready && persistent && Published() else GaveUp()
      ensures ok ==> IndexBytes() == old(IndexBytes()) && RecordSaved()
      ensures io.faultFree && Prints() && old(MetadataValid(Record())) ==> ok
    {
      hide ErrorTold, IndexDone, Usable, MetadataValid;
      ok := WriteMetadata();
      if ok {
        assert IndexBytes() == old(IndexBytes());
      }
    }

    lemma RecordIsValid()
      requires Stored() && Positions() && Searchable() && phase == Ready && position.page < header.pageCount
      ensures MetadataValid(Record())
    {
      hide Offsets;
      IndexBound(Starts(), book.fileSize);
    }

    // ----- One step

    // A cached index that does not check out is rebuilt; a new one is an error.
    method RejectIndex(error: Error)
      requires Shape() && Stored() && Positions() && (phase == ValidatingNew || phase == ValidatingCache)
      modifies this, io, buffer, offsets, paginator.Repr()
      ensures Valid() && SameBook() && Text() == old(Text())
      ensures GaveUp() || (old(phase) == ValidatingCache && phase == Scanning && StartsOver() && Stamped())
      ensures io.faultFree && old(phase) == ValidatingCache ==> phase == Scanning
    {
      hide ErrorTold, Scans, ChecksNew, ChecksCache, Published, ReaderPaginator.Valid, Stamped;
      var valid := io.MediaValid();
      if phase == ValidatingCache && valid {
        // None of the entries read so far counts.
        var _ := BeginRebuild(true);
      } else {
        FailWith(if error == Ok then InvalidSize else error);
      }
    }

    // The file being validated.
    ghost function Candidate(): FilePath
      reads this`book, this`phase
    {
      if phase == ValidatingNew then book.temporaryIndex else book.indexPath
    }

    // What validation knows between two steps.
    ghost predicate Validates()
      reads this`book, this`phase, this`header, this`checkedOffsets, this`previousOffset, this`checkedCrc, io
    {
      && (phase == ValidatingNew || phase == ValidatingCache)
      && header.fileSize == book.fileSize
      && Checked(BytesAt(Candidate()), header, checkedOffsets, previousOffset, checkedCrc)
    }

    // The file is there and is an index with the expected header.
    ghost predicate Sound()
      reads this`book, this`phase, this`header, io
    {
      && Candidate() in io.files
      && Accepted(BytesAt(Candidate()), book.fileSize)
      && DecodeHeader(BytesAt(Candidate()), |BytesAt(Candidate())|, book.fileSize) == Some(header)
    }

    // Checks the block of entries just read, and the checksum once all entries are in.
    method CheckBlock(length: nat, ghost f: seq<byte>) returns (good: bool)
      requires Shape() && header.fileSize == book.fileSize
      requires CheckedEntries(f, header, checkedOffsets, previousOffset) && checkedOffsets < header.pageCount
      requires checkedCrc == Crc(f[HEADER_SIZE..HEADER_SIZE + OFFSET_WIDTH * checkedOffsets], 0)
      requires 0 < length <= buffer.Length && length % OFFSET_WIDTH == 0
      requires checkedOffsets + length / OFFSET_WIDTH <= header.pageCount
      requires HEADER_SIZE + OFFSET_WIDTH * checkedOffsets + length <= |f|
      requires buffer[..length] == f[HEADER_SIZE + OFFSET_WIDTH * checkedOffsets..][..length]
      modifies this`checkedOffsets, this`previousOffset, this`checkedCrc
      ensures good ==> checkedOffsets > old(checkedOffsets)
      ensures good && checkedOffsets < header.pageCount ==>
                Checked(f, header, checkedOffsets, previousOffset, checkedCrc)
      ensures good && checkedOffsets >= header.pageCount ==>
                checkedOffsets == header.pageCount && Accepted(f, book.fileSize)
      ensures Accepted(f, book.fileSize) ==> good
    {
      hide Crc, Accepted, DecodeHeader, IndexOf, Offsets, ReaderPaginator.Valid;
      ghost var n := checkedOffsets;
      ghost var m := n + length / OFFSET_WIDTH;
      ghost var at := HEADER_SIZE + OFFSET_WIDTH * n;
      assert f[at..][..length] == f[at..at + length] && at + length == HEADER_SIZE + OFFSET_WIDTH * m;
      CrcOfBlock(f, n, m);
      checkedCrc := ChecksumBlock(buffer[..length], checkedCrc);
      good := CheckEntries(length, f);
      if good && checkedOffsets == header.pageCount {
        CheckedAll(f, header, previousOffset, checkedCrc);
        good := checkedCrc == header.offsetsCrc;
      }
    }

    // Reads the header on the first step, then the next block, and checks both.
    method CheckNext(path: FilePath) returns (error: Error, good: bool)
      requires Shape() && Validates() && path == Candidate()
      modifies this`checkedOffsets, this`previousOffset, this`checkedCrc, buffer
      ensures good ==> checkedOffsets > old(checkedOffsets)
      ensures good && checkedOffsets != header.pageCount ==> Validates()
      ensures good && checkedOffsets == header.pageCount ==> Sound()
      ensures io.faultFree && Sound() ==> good
    {
      hide Crc, Accepted, DecodeHeader, IndexOf, Offsets, ReaderPaginator.Valid;
      ghost var f := BytesAt(path);
      if checkedOffsets == 0 {
        error, good := CheckHeader(path);
        if !good {
          return;
        }
        EmptyCrc();
        assert f[HEADER_SIZE..HEADER_SIZE + OFFSET_WIDTH * 0] == [];
      }
      if Sound() {
        DecodedHeader(f, |f|, book.fileSize);
      }
      var length;
      error, good, length := ReadEntries(path);
      if good {
        good := CheckBlock(length, f);
      }
    }

    method ValidateStep()
      requires Valid() && (phase == ValidatingNew || phase == ValidatingCache)
      modifies this, io, buffer, offsets, paginator.Repr()
      ensures Valid() && SameBook() && Text() == old(Text())
      ensures phase == old(phase) ==>
                checkedOffsets > old(checkedOffsets) && header == old(header) && io.files == old(io.files)
      ensures phase == old(phase) || phase == Ready || GaveUp() ||
              (phase == Scanning && old(phase) == ValidatingCache && StartsOver() && Stamped())
      ensures phase == old(phase) ==> CacheKept()
      ensures phase == Ready ==> built == (old(phase) == ValidatingNew) && fingerprint == old(fingerprint)
      ensures phase == Ready ==> Positioned(old(resume), old(position), old(resumeByPage))
      ensures phase == Ready ==> ResumesAtPage() && (built || old(metadataDirty) ==> RecordSaved())
      ensures phase == Ready && !built ==> old(Sound()) && IndexBytes() == old(IndexBytes()) && header == old(header)
      ensures io.faultFree && Prints() && old(phase) == ValidatingNew ==> phase != Failed
      ensures io.faultFree && Prints() && old(phase) == ValidatingCache ==>
                phase != Failed && (old(Sound()) ==> phase != Scanning)
    {
      hide ErrorTold;
      hide Scans, ChecksNew, ChecksCache, Published, Validates, Sound, NewIsDone, Usable, ReaderPaginator.Valid, Prints;
      hide ResumesAtPage, RecordSaved, Positioned, Stamped, Stored, Positions, Candidate;
      PhaseChecks();
      var path := if phase == ValidatingNew then book.temporaryIndex else book.indexPath;
      var error, good := CheckNext(path);
      if good {
        AcceptBlock();
      } else {
        RejectIndex(error);
      }
    }

    // The entries read so far are good: that is all of them, or there are more to check.
    method AcceptBlock()
      requires Shape() && Stored() && Positions() && header.fileSize == book.fileSize
      requires phase == ValidatingNew || phase == ValidatingCache
      requires phase == ValidatingNew ==> NewIsDone()
      requires if checkedOffsets == header.pageCount then Sound() else Validates()
      modifies this`phase, this`persistent, this`events, this`resume, this`position, this`metadataDirty, this`built, io
      ensures Valid() && Text() == old(Text())
      ensures phase == old(phase) || phase == Ready || GaveUp()
      ensures phase == old(phase) ==> io.files == old(io.files) && CacheKept()
      ensures phase == Ready ==> built == (old(phase) == ValidatingNew)
      ensures phase == Ready ==> Positioned(old(resume), old(position), resumeByPage)
      ensures phase == Ready ==> ResumesAtPage() && (built || old(metadataDirty) ==> RecordSaved())
      ensures phase == Ready && !built ==> old(Sound()) && IndexBytes() == old(IndexBytes())
      ensures io.faultFree && Prints() ==> phase != Failed
    {
      hide ErrorTold;
      hide Scans, ChecksNew, ChecksCache, Published, Validates, Sound, NewIsDone, Usable, ReaderPaginator.Valid, Prints;
      hide ResumesAtPage, RecordSaved, Positioned;
      if checkedOffsets == header.pageCount {
        SoundCompletes();
        CompleteIndex(phase == ValidatingNew);
      } else {
        ChecksPhase();
      }
    }

    // What opening a book found for its cache is still so.
    twostate predicate CacheKept()
      reads this, io
    {
      && (Sound() <==> old(Sound())) && IndexBytes() == old(IndexBytes()) && header == old(header)
      && resume == old(resume) && position == old(position) && resumeByPage == old(resumeByPage)
      && fingerprint == old(fingerprint) && metadataDirty == old(metadataDirty)
    }

    lemma PhaseChecks()
      requires Valid() && (phase == ValidatingNew || phase == ValidatingCache)
      ensures Validates() && Candidate() == (if phase == ValidatingNew then book.temporaryIndex else book.indexPath)
      ensures header.fileSize == book.fileSize
      ensures phase == ValidatingNew ==> Sound() && NewIsDone()
    {
      hide Crc, Accepted, DecodeHeader, Offsets, OffsetBytes, CheckedEntries, ReaderPaginator.Valid, Chain, IndexFile;
      if phase == ValidatingNew {
        PublishedHeader(starts, book.fileSize);
      }
    }

    lemma ChecksPhase()
      requires Validates() && (phase == ValidatingNew ==> NewIsDone())
      ensures if phase == ValidatingNew then ChecksNew() else ChecksCache()
    {
      hide Checked, IndexDone;
    }

    // The temporary file is the complete index of the book.
    ghost predicate NewIsDone()
      reads this`book, this`starts, this`header, io
    {
      book.temporaryIndex in io.files && IndexDone(TemporaryBytes(), Text(), book.layout, starts, header)
    }

    lemma SoundCompletes()
      requires Sound() && header.fileSize == book.fileSize
      ensures phase == ValidatingCache ==> book.indexPath in io.files && Usable(IndexBytes(), header)
    {
      hide Crc, Accepted, DecodeHeader;
      DecodedHeader(BytesAt(Candidate()), |BytesAt(Candidate())|, book.fileSize);
    }

    method Step()
      requires Valid()
      modifies this, io, buffer, offsets, paginator.Repr()
      ensures Valid() && SameBook() && Text() == old(Text())
      ensures old(Working()) ==> Progressed()
      ensures !old(Working()) ==> phase == old(phase) && events == old(events)
      ensures Outcome()
    {
      hide ErrorTold, Scans, ChecksNew, ChecksCache, Published, Sound, ReaderPaginator.Valid, Indexable, Prints;
      hide ResumesAtPage, RecordSaved, Positioned, Stamped;
      if !Working() {
        return;
      }
      WorkLeft();
      var media := io.MediaValid();
      if !media {
        FailWith(InvalidState);
      } else if phase == Scanning {
        ScanStep();
      } else {
        ValidateStep();
      }
      WorkLeft();
    }

    // How one step can end. An unsound cached index never becomes ready, a sound one does so as
    // it was; on a card without faults a scan fails only on a book that cannot be indexed, and a
    // sound cached index is never given up.
    twostate predicate Outcome()
      reads this, io, paginator
    {
      && (phase == Ready && old(phase) != Ready ==>
            old(phase) == if built then ValidatingNew else ValidatingCache)
      && (phase == Ready && old(phase) != Ready ==>
            ResumesAtPage() && (built || old(metadataDirty) ==> RecordSaved()) && fingerprint == old(fingerprint))
      && (phase == Ready && old(phase) == ValidatingCache ==>
            old(Sound()) && IndexBytes() == old(IndexBytes()) && header == old(header))
      && (phase == Ready && old(phase) != Ready ==> Positioned(old(resume), old(position), old(resumeByPage)))
      && (phase == Scanning || phase == ValidatingNew ==>
            if old(phase) == ValidatingCache then StartsOver() && Stamped() else MarkKept())
      && (phase == ValidatingCache ==> old(phase) == ValidatingCache && CacheKept())
      && (old(Working()) ==> Working() || phase == Ready || GaveUp())
      && (io.faultFree && Prints() && old(Working()) ==>
            && (phase == Failed ==> old(phase) == Scanning && !Indexable(Text(), book.layout))
            && (old(phase) == ValidatingCache && old(Sound()) ==>
                  phase == Ready || (phase == ValidatingCache && Sound())))
    }

    // The measure of the work left: what kind of step comes next, how far the latest page
    // start is from the end of the text, and how far the paginator has read.
    ghost function Rank(): nat
      reads this`phase
    {
      match phase
      case ValidatingCache => 3
      case Scanning => 2
      case ValidatingNew => 1
      case _ => 0
    }

    ghost function Far(): int
      reads this`phase, this`book, this`starts, this`header, this`checkedOffsets
    {
      if phase == Scanning then (if starts == [] then 0 else book.fileSize - Latest(starts))
      else header.pageCount - checkedOffsets
    }

    ghost function Near(): int
      reads this`phase, this`book, paginator
    {
      if phase == Scanning then book.fileSize - paginator.inputOffset else 0
    }

    lemma WorkLeft()
      requires Valid()
      ensures Working() ==> Far() >= 0 && Near() >= 0
    {
      hide Crc, Offsets, DecodeHeader, CheckedEntries, Found, FeedBytes, ReaderPaginator.Valid, Usable;
      if phase == Scanning {
        FoundInside(Text(), book.layout, starts);
      }
    }

    twostate predicate Progressed()
      reads this, paginator
    {
      Rank() < old(Rank()) ||
      (Rank() == old(Rank()) && (Far() < old(Far()) || (Far() == old(Far()) && Near() < old(Near()))))
    }

    // Reading resumes where it was to: at the recorded page of an index that is taken over, by
    // offset in one that has been rebuilt instead.
    twostate predicate Arrives()
      reads this, io
    {
      if built && old(phase) == ValidatingCache then
        Positioned(old(resume).(page := 0), old(position).(page := 0), false)
      else Positioned(old(resume), old(position), old(resumeByPage))
    }

    // The worker's loop: step until there is nothing left to do.
    method Run()
      requires Valid()
      modifies this, io, buffer, offsets, paginator.Repr()
      ensures Valid() && !Working() && SameBook() && Text() == old(Text())
      ensures if old(Working()) then phase == Ready || GaveUp() else phase == old(phase) && (old(GaveUp()) ==> GaveUp())
      ensures phase == Ready && old(Working()) && (old(phase) != ValidatingCache || !old(Sound())) ==> built
      ensures phase == Ready && old(Working()) ==> ResumesAtPage()
      ensures phase == Ready && old(Working()) && (built || old(metadataDirty)) ==> RecordSaved()
      ensures phase == Ready && old(Working()) ==>
                if built && old(phase) == ValidatingCache then Stamped() else fingerprint == old(fingerprint)
      ensures phase == Ready && old(Working()) && !built ==> IndexBytes() == old(IndexBytes()) && header == old(header)
      ensures phase == Ready && old(Working()) ==> Arrives()
      ensures io.faultFree && Prints() && old(Working()) ==>
                && (phase == Failed ==> !Indexable(Text(), book.layout))
                && (old(phase) == ValidatingCache && old(Sound()) ==> phase == Ready && !built)
    {
      hide ErrorTold;
      hide InPhase, Stored, Positions, Sound, ReaderPaginator.Valid, Indexable, Prints, Shape, Positioned, RecordSaved;
      hide ResumesAtPage, FingerprintOf;
      ghost var cached := phase == ValidatingCache && Sound();
      while Working()
        invariant Valid() && SameBook() && Text() == old(Text())
        invariant if old(Working()) then Working() || phase == Ready || GaveUp()
                  else phase == old(phase) && (old(GaveUp()) ==> GaveUp())
        invariant phase == ValidatingCache ==> old(phase) == ValidatingCache && CacheKept()
        invariant phase == Ready && old(Working()) && !cached ==> built
        invariant phase == Ready && old(Working()) ==> ResumesAtPage()
        invariant phase == Ready && old(Working()) && (built || old(metadataDirty)) ==> RecordSaved()
        invariant phase == Ready && old(Working()) ==>
                    if built && old(phase) == ValidatingCache then Stamped() else fingerprint == old(fingerprint)
        invariant phase == Ready && old(Working()) && !built ==>
                    IndexBytes() == old(IndexBytes()) && header == old(header)
        invariant phase == Ready && old(Working()) ==> Arrives()
        invariant phase == Scanning || phase == ValidatingNew ==>
                    if old(phase) == ValidatingCache then StartsOver() && Stamped() else MarkKept()
        invariant io.faultFree && Prints() && old(Working()) ==>
                    && (phase == Failed ==> !Indexable(Text(), book.layout))
                    && (cached ==> phase == ValidatingCache || (phase == Ready && !built))
        decreases Rank(), Far(), Near()
      {
        WorkLeft();
        Step();
      }
    }

    // ----- Requests

    method Cancel()
      requires Valid()
      modifies this`phase, this`persistent, this`metadataDirty
      ensures Valid() && phase == Idle && !persistent
    {
      phase := Idle;
      persistent, metadataDirty := false, false;
    }

    // A position on the published index becomes the current one.
    method MoveTo(progress: Progress, byPage: bool) returns (ok: bool, located: Progress)
      requires Shape() && Stored() && Published() && phase == Ready
      ensures Searchable()
      ensures ok ==> (located.page, located.byteOffset) == Located(Starts(), book.fileSize, progress, byPage)
      ensures ok ==> located.page < header.pageCount && (located.byteOffset == 0 || located.byteOffset < book.fileSize)
      ensures io.faultFree ==> ok
    {
      hide Published, Offsets, PageOf;
      PublishedIsSearchable();
      ok, located := Locate(progress, byPage);
    }

    // query(): answers with the page that holds a position, or the page asked for.
    method Query(session: nat, request: nat, byPage: bool, page: u32, offset: u64)
      requires Valid()
      modifies this`phase, this`persistent, this`events, this`position
      ensures Valid()
      ensures session != this.session ==> events == old(events) && phase == old(phase) && position == old(position)
      ensures phase == old(phase) || (old(phase) == Ready && GaveUp())
      ensures io.faultFree ==> phase == old(phase)
      ensures session == this.session && old(phase) == Ready && phase == Ready ==>
                && Searchable()
                && (position.page, position.byteOffset) ==
                   Located(Starts(), book.fileSize, Progress(page, offset), byPage)
                && events == old(events) +
                     [Event(PositionEvent, session, request, position, header.pageCount, Ok, true, persistent)]
      ensures session == this.session && old(phase) != Ready ==>
                var inside := offset == 0 || offset < book.fileSize;
                && position == (if inside then Progress(page, offset) else old(position))
                && events == old(events) + [Event(PositionEvent, session, request, position, 0,
                                                  if inside then Ok else InvalidArgument, false, persistent)]
    {
      hide ErrorTold, Published, Scans, ChecksNew, ChecksCache, ReaderPaginator.Valid, Located, Searchable;
      if session != this.session {
        return;
      }
      var progress := Progress(page, offset);
      if phase == Ready {
        var ok;
        ok, progress := MoveTo(progress, byPage);
        if !ok {
          FailWith(InvalidSize);
          return;
        }
      }
      Answer(progress, request);
    }

    // The end of query(): the position, if it lies inside the book, becomes the current one.
    method Answer(progress: Progress, request: nat)
      modifies this`events, this`position
      ensures var inside := progress.byteOffset == 0 || progress.byteOffset < book.fileSize;
              && position == (if inside then progress else old(position))
              && events == old(events) +
                   [Event(PositionEvent, session, request, position, if phase == Ready then header.pageCount else 0,
                          if inside then Ok else InvalidArgument, phase == Ready, persistent)]
    {
      if progress.byteOffset != 0 && progress.byteOffset >= book.fileSize {
        Emit(PositionEvent, position, request, InvalidArgument);
        return;
      }
      position := progress;
      Emit(PositionEvent, position, request, Ok);
    }

    // A position that save() takes.
    twostate predicate Saves(session: nat, offset: u64)
      reads this`session, this`book
    {
      && session == this.session && old(phase) != Idle && old(phase) != Failed
      && (offset == 0 || offset < book.fileSize)
    }

    // The last event tells what has been saved.
    ghost predicate SaveAnnounced()
      reads this`events, this`session, this`position, this`header, this`phase, this`persistent
    {
      && persistent && events != []
      && events[|events| - 1] ==
         Event(SavedEvent, session, 0, position, if phase == Ready then header.pageCount else 0, Ok, phase == Ready,
               true)
    }

    // save(): records where reading stopped.
    method Save(session: nat, offset: u64)
      requires Valid()
      modifies this`phase, this`persistent, this`events, this`position, this`metadataDirty, io
      ensures Valid()
      ensures !Saves(session, offset) ==>
                events == old(events) && phase == old(phase) && position == old(position) && io.files == old(io.files)
      ensures phase == old(phase) || GaveUp()
      ensures Saves(session, offset) && phase != Failed ==> SaveAnnounced()
      ensures old(phase) != Idle && old(phase) != Failed ==> Text() == old(Text())
      ensures io.faultFree && Prints() ==> phase == old(phase)
      ensures old(phase) == Ready ==> IndexBytes() == old(IndexBytes())
      ensures Saves(session, offset) && phase == Ready ==>
                && RecordSaved() && old(Searchable())
                && (position.page, position.byteOffset) ==
                   old(Located(Starts(), book.fileSize, Progress(0, offset), false))
      ensures Saves(session, offset) && old(phase) != Ready && phase != Failed ==>
                RecordSaved() && position == Progress(0, offset)
    {
      hide ErrorTold;
      hide Published, Scans, ChecksNew, ChecksCache, ReaderPaginator.Valid, Located, Searchable, MetadataValid, Prints;
      hide Stored, RecordSaved;
      if session != this.session || phase == Idle || phase == Failed {
        return;
      }
      if offset != 0 && offset >= book.fileSize {
        return;
      }
      var progress := Progress(0, offset);
      if phase == Ready {
        var ok;
        ok, progress := MoveTo(progress, false);
        if !ok {
          position := Progress(0, offset);
          FailWith(InvalidSize);
          return;
        }
      }
      SaveProgress(progress);
    }

    // The metadata file holds the record in memory.
    ghost predicate RecordSaved()
      reads this`book, this`phase, this`position, this`header, this`fingerprint, io
    {
      && book.metadataPath in io.files && print_(Record()).Some?
      && io.files[book.metadataPath].bytes == print_(Record()).value
    }

    // The end of save().
    method SaveProgress(progress: Progress)
      requires Valid() && phase != Idle && phase != Failed
      requires progress.byteOffset == 0 || progress.byteOffset < book.fileSize
      requires phase == Ready ==> progress.page < header.pageCount
      requires phase != Ready ==> progress.page == 0
      modifies this`phase, this`persistent, this`events, this`position, this`metadataDirty, io
      ensures Valid()
      ensures phase == old(phase) || GaveUp()
      ensures phase == old(phase) ==> position == progress && RecordSaved() && SaveAnnounced() && metadataDirty
      ensures Text() == old(Text()) && IndexBytes() == old(IndexBytes())
      ensures io.faultFree && Prints() ==> phase == old(phase)
    {
      hide ErrorTold;
      hide Published, Scans, ChecksNew, ChecksCache, ReaderPaginator.Valid, Located, Searchable, MetadataValid, Prints;
      hide Stored, RecordSaved;
      position := progress;
      metadataDirty := true;
      var ok := WriteProgress();
      if ok {
        Emit(SavedEvent, position, 0, Ok);
      }
    }

    // write_metadata() in any working phase: everything but the metadata stays as it is.
    method WriteProgress() returns (ok: bool)
      requires Valid() && phase != Idle && phase != Failed
      modifies this`phase, this`persistent, this`events, io
      ensures Valid() && Text() == old(Text()) && IndexBytes() == old(IndexBytes())
      ensures if ok then phase == old(phase) && persistent && RecordSaved() else GaveUp()
      ensures io.faultFree && Prints() ==> ok
    {
      hide ErrorTold, ReaderPaginator.Valid, MetadataValid, Prints, InPhase;
      AnyRecordIsValid();
      label Before:
      ok := WriteMetadata();
      MetadataIsApart@Before();
      if ok {
        MetadataKeepsPhase@Before();
      }
    }

    // Writing metadata leaves every file that the engine reasons about as it was.
    twostate lemma MetadataIsApart()
      requires old(Stored()) && book == old(book) && OnlyMetadata(old(io.files))
      ensures Stored() && SameFiles()
    {
    }

    twostate predicate SameFiles()
      reads this, io
    {
      && Text() == old(Text())
      && IndexBytes() == old(IndexBytes()) && (book.indexPath in io.files <==> book.indexPath in old(io.files))
      && TemporaryBytes() == old(TemporaryBytes())
      && (book.temporaryIndex in io.files <==> book.temporaryIndex in old(io.files))
    }

    twostate lemma MetadataKeepsPhase()
      requires Shape() && old(Shape()) && old(InPhase()) && SameFiles()
      requires unchanged(buffer) && unchanged(offsets) && unchanged(paginator)
      requires unchanged(paginator.text) && unchanged(paginator.lines) && unchanged(paginator.pending)
      requires unchanged(this`book, this`phase, this`header, this`starts, this`built, this`position)
      requires unchanged(this`bufferedOffsets, this`writtenOffsets, this`bufferLength, this`bufferOffset)
      requires unchanged(this`checkedOffsets, this`previousOffset, this`checkedCrc)
      ensures InPhase()
    {
      hide LogState, BufferState, ScanState, IndexDone, Checked, Usable;
      if phase == Scanning {
        assert paginator.View() == old(paginator.View());
        assert bufferedOffsets <= offsets.Length ==> offsets[..bufferedOffsets] == old(offsets[..bufferedOffsets]);
        assert bufferLength <= buffer.Length ==> buffer[..bufferLength] == old(buffer[..bufferLength]);
      } else if phase == ValidatingNew {
        assert NewIsDone();
      }
    }

    lemma AnyRecordIsValid()
      requires Valid() && phase != Idle && phase != Failed
      ensures MetadataValid(Record())
    {
      hide ReaderPaginator.Valid, Published, Scans, ChecksNew, ChecksCache, Searchable;
      if phase == Ready {
        PublishedIsSearchable();
        RecordIsValid();
      }
    }

    // ----- Opening a book

    // The book's text can be opened: it is there, with a size and a time that JSON can carry.
    ghost predicate Readable(path: FilePath)
      reads io
    {
      ReadableIn(io.files, path)
    }

    // Names the files and looks the text up.
    method Identify(path: FilePath, bookId: seq<byte>, layout: Layout) returns (ok: bool)
      requires Shape() && phase == Idle && IsBookName(io.files, path, bookId)
      modifies this`phase, this`persistent, this`events, this`book, buffer
      ensures if ok then phase == Idle && persistent == old(persistent) && Stored() && Readable(path) else GaveUp()
      ensures ok ==> Path(book.path) == Canonical(path, BOOK_PATH_CAPACITY)
      ensures ok ==> book.layout == layout && book.indexPath == IndexPath(bookId)
      ensures ok ==> book.metadataPath == MetadataPath(bookId) && book.temporaryIndex == Temporary(IndexPath(bookId))
      ensures io.faultFree && Readable(path) ==> ok
    {
      hide Canonical, ReaderPaginator.Valid;
      var canonical := new byte[BOOK_PATH_CAPACITY];
      var good, used := CanonicalPath(path, canonical);
      if !good {
        FailWith(InvalidArgument);
        return false;
      }
      CanonicalTwice(path, BOOK_PATH_CAPACITY);
      OwnFilesDistinct(bookId);
      var error, length, size, modified := io.Read(path, 0, buffer, 1);
      if error != Ok || size > JSON_INTEGER_MAX || modified < 0 || modified > JSON_INTEGER_MAX {
        FailWith(if error == Ok then InvalidSize else error);
        return false;
      }
      book := Book(canonical[..used], size, modified, layout,
                   IndexPath(bookId), Temporary(IndexPath(bookId)), MetadataPath(bookId));
      return true;
    }

    // The valid metadata record that the card holds for the book, if any.
    ghost function Recorded(): Option<Metadata>
      reads this`book, io
    {
      RecordIn(io.files, parse, book.metadataPath)
    }

    method ReadMetadata() returns (old_: Option<Metadata>)
      ensures old_.Some? ==> old_ == Recorded() && MetadataValid(old_.value)
      ensures io.faultFree ==> old_ == Recorded()
    {
      hide MetadataValid;
      var json := new byte[4096](_ => 0);
      var error, length, size, modified := io.Read(book.metadataPath, 0, json, json.Length);
      if error != Ok || length != size {
        return None;
      }
      assert json[..length] == io.files[book.metadataPath].bytes;
      var parsed := parse(json[..length]);
      if parsed.Some? && MetadataValid(parsed.value) {
        return parsed;
      }
      return None;
    }

    // Whether the index on the card carries the header that the record describes.
    method MatchHeader(old_: Metadata) returns (found: bool)
      requires Shape() && Stored()
      modifies this`header, buffer
      ensures found ==> header.fileSize == book.fileSize && header.pageCount > 0
      ensures found ==> book.indexPath in io.files && HeaderIn(IndexBytes(), book.fileSize) == Some(header)
      ensures found ==> Describes(old_, HeaderIn(IndexBytes(), book.fileSize))
      ensures io.faultFree && book.indexPath in io.files && Describes(old_, HeaderIn(IndexBytes(), book.fileSize)) ==>
                found
    {
      hide DecodeHeader, Crc;
      var error, length, size, modified := io.Read(book.indexPath, 0, buffer, HEADER_SIZE);
      if error != Ok {
        return false;
      }
      var decoded := DecodeHeader(buffer[..length], size, book.fileSize);
      SameHeader(IndexBytes(), buffer[..length], book.fileSize);
      if decoded.None? {
        return false;
      }
      DecodedHeader(buffer[..length], size, book.fileSize);
      header := decoded.value;
      found := header.pageCount == old_.pageCount && header.offsetsCrc == old_.offsetsCrc;
    }

    method PrepareDirectory() returns (ok: bool)
      modifies this`phase, this`persistent, this`events
      ensures if ok then phase == old(phase) && persistent == old(persistent) else GaveUp()
      ensures io.faultFree ==> ok
    {
      for level := 0 to 3
        invariant phase == old(phase) && persistent == old(persistent)
      {
        var error := io.MakeDirectory();
        if error != Ok {
          FailWith(error);
          return false;
        }
      }
      return true;
    }

    // The cache on the card belongs to the text as it is: its record is complete and of this
    // firmware's versions, the index file carries the header it describes, and the text has
    // the recorded time or else the recorded fingerprint.
    ghost predicate Candidates(record: Option<Metadata>)
      reads this`book, io
    {
      && record.Some?
      && CacheCheck(record.value, book.path, book.fileSize, book.modified) != Rebuild
      && book.indexPath in io.files && Describes(record.value, HeaderIn(IndexBytes(), book.fileSize))
      && SameText(record.value, Text(), book.modified)
    }

    // What the metadata record and the fingerprint allow to be reused. A changed pagination
    // version discards the saved position together with the index.
    method Reconcile(old_: Option<Metadata>, fallback: Option<Progress>) returns (ok: bool, candidate: bool)
      requires Shape() && Stored() && phase == Idle
      requires old_.Some? ==> MetadataValid(old_.value) && old_.value.canonicalPath == book.path
      modifies this`phase, this`persistent, this`events, this`header, this`fingerprint, this`resume, this`position
      modifies this`metadataDirty, buffer
      ensures if ok then phase == Idle && persistent == old(persistent) && Positions() else GaveUp()
      ensures ok && candidate ==> header.fileSize == book.fileSize && header.pageCount > 0
      ensures ok && candidate ==> Candidates(old_) && HeaderIn(IndexBytes(), book.fileSize) == Some(header)
      ensures ok && candidate ==> resume == position == old_.value.progress
      ensures ok ==> Identified(candidate, old_)
      ensures ok && (old_.None? || old_.value.paginationVersion != PAGINATION_VERSION) ==> !candidate
      ensures ok ==> position == resume && resume.(page := 0) == ResumeFrom(old_, Text(), book.modified, fallback)
      ensures io.faultFree ==> ok && (Candidates(old_) ==> candidate)
    {
      hide ErrorTold, MetadataValid, Canonical, ReaderPaginator.Valid, FingerprintOf, HeaderIn, Describes, ResumeFrom;
      candidate := old_.Some? && CacheCheck(old_.value, book.path, book.fileSize, book.modified) != Rebuild;
      if candidate {
        candidate := MatchHeader(old_.value);
      }
      var sameSize := old_.Some? && old_.value.file.fileSize == book.fileSize;
      var sameStat := sameSize && old_.value.file.modified == book.modified;
      ok := true;
      if candidate && sameStat {
        fingerprint := old_.value.file.fingerprint;
      } else {
        ok := TakeFingerprint();
        if !ok {
          return;
        }
      }
      var sameContent := sameSize && (sameStat || old_.value.file.fingerprint == fingerprint);
      candidate := candidate && sameContent;
      metadataDirty := candidate && !sameStat;
      SetResume(old_, sameContent, fallback);
    }

    // The text has its fingerprint: its own, or the recorded one where nothing else has changed;
    // the record is out of date where the time has.
    ghost predicate Identified(candidate: bool, record: Option<Metadata>)
      reads this`book, this`fingerprint, this`metadataDirty, io
    {
      if candidate then
        && record.Some? && fingerprint == record.value.file.fingerprint
        && (metadataDirty <==> record.value.file.modified != book.modified) && (metadataDirty ==> Stamped())
      else Stamped()
    }

    // Where reading resumes.
    method SetResume(old_: Option<Metadata>, sameContent: bool, fallback: Option<Progress>)
      requires Stored() && (old_.Some? ==> MetadataValid(old_.value))
      requires sameContent <==> old_.Some? && SameText(old_.value, Text(), book.modified)
      modifies this`resume, this`position
      ensures Positions() && position == resume
      ensures resume.(page := 0) == ResumeFrom(old_, Text(), book.modified, fallback)
      ensures sameContent && old_.value.paginationVersion == PAGINATION_VERSION ==> resume == old_.value.progress
    {
      hide MetadataValid, Canonical, FingerprintOf;
      RecordedPosition(old_);
      resume := Progress(0, 0);
      if sameContent && old_.value.paginationVersion == PAGINATION_VERSION {
        resume := old_.value.progress;
      } else if fallback.Some? && (fallback.value.byteOffset == 0 || fallback.value.byteOffset < book.fileSize) {
        resume := fallback.value.(page := 0);
      }
      position := resume;
    }

    lemma RecordedPosition(old_: Option<Metadata>)
      requires old_.Some? ==> MetadataValid(old_.value)
      ensures old_.Some? ==>
                old_.value.progress.byteOffset == 0 || old_.value.progress.byteOffset < old_.value.file.fileSize
    {
    }

    // The last event tells that the book is open, and where reading resumes.
    ghost predicate OpenAnnounced()
      reads this`events, this`session, this`resume, this`persistent
    {
      && events != []
      && events[|events| - 1] == Event(OpenedEvent, session, 0, resume, 0, Ok, false, persistent)
    }

    // A running build of the same book is joined, not restarted.
    method Rejoin(session: nat)
      requires Valid() && Working()
      modifies this`phase, this`persistent, this`events, this`session, this`resume
      ensures Valid() && (phase == old(phase) || GaveUp()) && this.session == session
      ensures phase != Failed ==> resume == position && OpenAnnounced()
      ensures io.faultFree ==> phase == old(phase)
    {
      hide ErrorTold, InPhase, ReaderPaginator.Valid, Stored;
      this.session := session;
      var probe := new byte[1];
      var ok, length := TextRead(0, probe, 1);
      if !ok {
        return;
      }
      resume := position;
      Emit(OpenedEvent, resume, 0, Ok);
    }

    method Open(path: FilePath, bookId: seq<byte>, layout: Layout, session: nat, generation: nat,
                fallback: Option<Progress>, discardCache: bool)
      requires Valid() && (Joins(path, generation) || IsBookName(io.files, path, bookId))
      modifies this, io, buffer, offsets, paginator.Repr()
      ensures Valid()
      ensures this.session == session && this.generation == generation
      ensures Working() || GaveUp()
      ensures phase != Failed ==> OpenAnnounced() && (!old(Joins(path, generation)) ==> !persistent)
      ensures old(Joins(path, generation)) && phase != Failed ==>
                phase == old(phase) && book == old(book) && resume == position == old(position)
      ensures !old(Joins(path, generation)) ==> Opened(path, bookId, layout, old(io.files), fallback, discardCache)
    {
      hide ErrorTold, Canonical, ReaderPaginator.Valid, InPhase, Stored, IsBookName, Arrived, OpenAnnounced;
      if phase != Idle && generation == this.generation && path == book.path && Working() {
        Rejoin(session);
        return;
      }
      phase := Idle;
      StartOpen(path, bookId, layout, session, generation, fallback, discardCache);
    }

    // What a fresh open arrives at, by what the card held before.
    ghost predicate Opened(path: FilePath, bookId: seq<byte>, layout: Layout, before: map<FilePath, File>,
                           fallback: Option<Progress>, discardCache: bool)
      reads this`book, this`phase, this`header, this`resume, this`position, this`resumeByPage, this`fingerprint
      reads this`metadataDirty, io
    {
      && (phase != Failed ==>
            && Path(book.path) == Canonical(path, BOOK_PATH_CAPACITY) && path in before
            && book.layout == layout && book.indexPath == IndexPath(bookId) && book.metadataPath == MetadataPath(bookId)
            && Text() == before[path].bytes && book.modified == before[path].modified)
      && Arrived(path, before, RecordUsed(before, parse, bookId, discardCache), IndexPath(bookId), fallback)
    }

    ghost predicate Arrived(path: FilePath, before: map<FilePath, File>, record: Option<Metadata>, index: FilePath,
                            fallback: Option<Progress>)
      reads this`book, this`phase, this`header, this`resume, this`position, this`resumeByPage, this`fingerprint
      reads this`metadataDirty, io
    {
      && (phase == ValidatingCache ==>
            && Belongs(before, path, record, index)
            && HeaderIn(before[index].bytes, |before[path].bytes|) == Some(header)
            && book.indexPath in io.files && IndexBytes() == before[index].bytes
            && resume == position == record.value.progress && resumeByPage)
      && (phase != Failed ==> Identified(phase == ValidatingCache, record))
      && (phase == ValidatingCache || phase == Scanning || phase == Failed)
      && (io.faultFree && ReadableIn(before, path) ==>
            if Foreign(record, path) then phase == Failed
            else phase == if Belongs(before, path, record, index) then ValidatingCache else Scanning)
      && (io.faultFree && path in before && phase == Scanning ==>
            && resume == position == ResumeFrom(record, before[path].bytes, before[path].modified, fallback)
            && !resumeByPage)
    }

    // Opening a book and working until there is nothing left to do, from whatever is on a card
    // without faults. A record of another book ends the attempt. A cache that belongs to the
    // text and is sound is taken over as it is, at its saved position. In all other cases an
    // index is published exactly for the books that can be indexed, it is the list of the
    // book's page starts, and reading resumes on the page that holds the recorded offset, if
    // the record is of this text, or else the fallback's.
    method OpenAndFinish(path: FilePath, bookId: seq<byte>, layout: Layout, session: nat, generation: nat,
                         fallback: Option<Progress>, discardCache: bool)
      requires Valid() && !Joins(path, generation) && IsBookName(io.files, path, bookId)
      modifies this, io, buffer, offsets, paginator.Repr()
      ensures Valid() && (phase == Ready || GaveUp())
      ensures this.session == session && this.generation == generation
      ensures phase == Ready ==>
                && Path(book.path) == Canonical(path, BOOK_PATH_CAPACITY)
                && Names(bookId) && book.layout == layout
                && path in old(io.files) && Text() == old(io.files)[path].bytes && ResumesAtPage()
                && book.modified == old(io.files)[path].modified
                && RecordRenewed(RecordUsed(old(io.files), parse, bookId, discardCache))
      ensures io.faultFree && Prints() && ReadableIn(old(io.files), path) ==>
                var before := old(io.files);
                var record := RecordUsed(before, parse, bookId, discardCache);
                var text := before[path].bytes;
                var from := ResumeFrom(record, text, before[path].modified, fallback);
                if Foreign(record, path) then GaveUp()
                else if CacheIsSound(before, path, record, IndexPath(bookId)) then
                  && phase == Ready && !built
                  && BytesAt(IndexPath(bookId)) == before[IndexPath(bookId)].bytes
                  && Positioned(record.value.progress, record.value.progress, true)
                else
                  && (phase == Ready <==> Indexable(text, layout))
                  && (phase == Ready ==>
                        && built && |text| < 0x1_0000_0000_0000_0000 && Positioned(from, from, false)
                        && IndexPath(bookId) in io.files
                        && io.files[IndexPath(bookId)].bytes == IndexFile(PageStarts(text, layout).value, |text|))
    {
      hide ErrorTold;
      hide Canonical, ReaderPaginator.Valid, InPhase, Stored, Positions, ReadableIn, IndexPath, Indexable, Prints;
      hide Shape;
      hide OwnFiles, IndexFile, PageStarts, IsBookName, Belongs, RecordUsed, MetadataPath, Accepted, DecodeHeader;
      hide Positioned, ResumeFrom, Names, FingerprintOf, RecordSaved;
      Open(path, bookId, layout, session, generation, fallback, discardCache);
      if phase == ValidatingCache {
        CacheIsSoundHere(path, old(io.files), RecordUsed(old(io.files), parse, bookId, discardCache), fallback);
      }
      Run();
      if phase == Ready {
        BookIsNamed(old(io.files), path, bookId);
      }
      BuiltIsIndex();
    }

    lemma CacheIsSoundHere(path: FilePath, before: map<FilePath, File>, record: Option<Metadata>,
                           fallback: Option<Progress>)
      requires phase == ValidatingCache && Arrived(path, before, record, book.indexPath, fallback) && Valid()
      requires path in before && Text() == before[path].bytes
      ensures Sound() <==> CacheIsSound(before, path, record, book.indexPath)
      ensures record.value.progress.(page := 0) ==
              ResumeFrom(record, before[path].bytes, before[path].modified, fallback)
    {
      hide Accepted, DecodeHeader, ReaderPaginator.Valid, ChecksCache, SameText, Canonical;
    }

    // The record on the card has the fingerprint of the text, and it is written again where it
    // said anything else: for a new index, and for a text whose time has changed.
    ghost predicate RecordRenewed(record: Option<Metadata>)
      reads this`book, this`phase, this`position, this`header, this`fingerprint, this`built, io
    {
      if built then Stamped() && RecordSaved()
      else
        && record.Some? && fingerprint == record.value.file.fingerprint
        && (record.value.file.modified != book.modified ==> Stamped() && RecordSaved())
    }

    // The text of a record parses back to it, and fits the engine's buffer.
    ghost predicate Codes() {
      forall m :: MetadataValid(m) && print_(m).Some? ==>
        |print_(m).value| <= 4096 && parse(print_(m).value) == Some(m)
    }

    // There is a codec like that.
    lemma CodecExists()
      requires print_ == Pack && parse == Unpack
      ensures Prints() && Codes()
    {
      hide Pack, Unpack, MetadataValid;
      forall m | MetadataValid(m)
        ensures print_(m).Some? && |print_(m).value| <= 4096 && parse(print_(m).value) == Some(m)
      {
        PackRoundTrip(m);
      }
    }

    // The engine's files have the names of this book.
    ghost predicate Names(bookId: seq<byte>)
      reads this`book
    {
      && book.path !in OwnFiles(bookId)
      && book.indexPath == IndexPath(bookId) && book.metadataPath == MetadataPath(bookId)
    }

    lemma BookIsNamed(files: map<FilePath, File>, path: FilePath, bookId: seq<byte>)
      requires IsBookName(files, path, bookId) && Path(book.path) == Canonical(path, BOOK_PATH_CAPACITY)
      requires book.indexPath == IndexPath(bookId) && book.metadataPath == MetadataPath(bookId)
      ensures Names(bookId)
    {
      hide Canonical, OwnFiles, IndexPath, MetadataPath;
    }

    // What save() leaves on the card is a sound cache of this book.
    lemma SavedIsSound(bookId: seq<byte>)
      requires Valid() && phase == Ready && RecordSaved() && Codes() && Names(bookId)
      ensures Canonical(book.path, BOOK_PATH_CAPACITY) == Path(book.path) && book.path in io.files
      ensures Text() == io.files[book.path].bytes
      ensures book.indexPath in io.files && IndexBytes() == io.files[IndexPath(bookId)].bytes
      ensures IsBookName(io.files, book.path, bookId) && ReadableIn(io.files, book.path)
      ensures Record().progress == position
      ensures RecordIn(io.files, parse, MetadataPath(bookId)) == Some(Record())
      ensures !Foreign(Some(Record()), book.path)
      ensures CacheIsSound(io.files, book.path, Some(Record()), IndexPath(bookId))
    {
      hide Canonical, DecodeHeader, Accepted, OwnFiles, IndexPath, MetadataPath, ReaderPaginator.Valid, IndexDone;
      hide MetadataValid, FingerprintOf;
      AnyRecordIsValid();
    }

    // The same index file read under the same book is the same list.
    twostate lemma SameStarts()
      requires old(Valid()) && old(phase) == Ready && Valid() && phase == Ready
      requires IndexBytes() == old(IndexBytes()) && Text() == old(Text())
      ensures book.fileSize == old(book.fileSize) && header == old(header)
      ensures old(Searchable()) && Searchable() && Starts() == old(Starts())
    {
      hide DecodeHeader, Accepted, IndexDone, Offsets, ReaderPaginator.Valid, Canonical;
      PublishedIsSearchable();
      DecodedHeader(IndexBytes(), |IndexBytes()|, header.fileSize);
    }

    // Closing a book whose record is on the card and opening it again takes its index over as
    // it is.
    method Reopen(bookId: seq<byte>, session: nat, generation: nat, fallback: Option<Progress>)
      requires Valid() && phase == Ready && Names(bookId) && Codes() && RecordSaved()
      modifies this, io, buffer, offsets, paginator.Repr()
      ensures Valid() && (phase == Ready || GaveUp())
      ensures this.session == session && this.generation == generation
      ensures io.faultFree && Prints() ==>
                && phase == Ready && !built && book.path == old(book.path) && Text() == old(Text())
                && IndexBytes() == old(IndexBytes()) && Positioned(old(position), old(position), true)
                && ResumesAtPage() && Names(bookId) && (old(Stamped()) ==> Stamped())
    {
      hide ErrorTold;
      hide Canonical, ReaderPaginator.Valid, OwnFiles, IndexPath, MetadataPath, Prints, Codes, RecordSaved, Located;
      hide IndexFile, PageStarts, Indexable, ReadableIn, IsBookName, RecordIn, CacheIsSound, Published, Positioned;
      hide Foreign, Stored, InPhase, ResumesAtPage;
      SavedIsSound(bookId);
      var path := book.path;
      Cancel();
      OpenAndFinish(path, bookId, book.layout, session, generation, fallback, false);
    }

    // So does opening it again after nothing but its time has changed: its samples tell that it
    // is the same text, and the record on the card is renewed.
    method ReopenTouched(bookId: seq<byte>, modified: int, session: nat, generation: nat, fallback: Option<Progress>)
      requires Valid() && phase == Ready && Names(bookId) && Codes() && RecordSaved() && Stamped()
      requires 0 <= modified <= JSON_INTEGER_MAX
      modifies this, io, buffer, offsets, paginator.Repr()
      ensures Valid() && (phase == Ready || GaveUp())
      ensures this.session == session && this.generation == generation
      ensures io.faultFree && Prints() ==>
                && phase == Ready && !built && book.path == old(book.path) && Text() == old(Text())
                && book.modified == modified
                && IndexBytes() == old(IndexBytes()) && Positioned(old(position), old(position), true)
                && ResumesAtPage() && Names(bookId) && Stamped() && (modified != old(book.modified) ==> RecordSaved())
    {
      hide ErrorTold;
      hide Canonical, ReaderPaginator.Valid, OwnFiles, IndexPath, MetadataPath, Prints, Codes, RecordSaved, Located;
      hide IndexFile, PageStarts, Indexable, IsBookName, RecordIn, CacheIsSound, Published, Positioned, FingerprintOf;
      hide Foreign, Stored, InPhase, ResumesAtPage;
      SavedIsSound(bookId);
      var path := book.path;
      ghost var before, record, text := io.files, Record(), Text();
      Cancel();
      io.Touch(path, modified);
      TouchedIsSound(before, path, record, bookId, modified);
      OpenAndFinish(path, bookId, book.layout, session, generation, fallback, false);
    }

    lemma TouchedIsSound(before: map<FilePath, File>, path: FilePath, record: Metadata, bookId: seq<byte>,
                         modified: int)
      requires Canonical(path, BOOK_PATH_CAPACITY) == Path(path) && path in before && 0 <= modified <= JSON_INTEGER_MAX
      requires path !in OwnFiles(bookId) && IsBookName(before, path, bookId) && ReadableIn(before, path)
      requires RecordIn(before, parse, MetadataPath(bookId)) == Some(record) && !Foreign(Some(record), path)
      requires CacheIsSound(before, path, Some(record), IndexPath(bookId))
      requires record.file.fingerprint == FingerprintOf(before[path].bytes)
      ensures var files := before[path := File(before[path].bytes, modified)];
              && IsBookName(files, path, bookId) && ReadableIn(files, path)
              && RecordIn(files, parse, MetadataPath(bookId)) == Some(record)
              && CacheIsSound(files, path, Some(record), IndexPath(bookId))
              && IndexPath(bookId) in before && files[IndexPath(bookId)] == before[IndexPath(bookId)]
    {
      hide Canonical, DecodeHeader, Accepted, IndexPath, MetadataPath, FingerprintOf, MetadataValid;
    }

    // A saved position survives closing the book and opening it again: on a card without
    // faults the index is taken over as it is, at the page that holds the position.
    method SaveAndReopen(bookId: seq<byte>, offset: u64, session: nat, generation: nat, fallback: Option<Progress>)
      requires Valid() && phase == Ready && Names(bookId) && Codes()
      requires offset == 0 || offset < book.fileSize
      modifies this, io, buffer, offsets, paginator.Repr()
      ensures Valid() && (phase == Ready || GaveUp())
      ensures phase == Ready ==> this.session == session && this.generation == generation
      ensures io.faultFree && Prints() ==>
                && phase == Ready && !built && book.path == old(book.path) && header == old(header)
                && IndexBytes() == old(IndexBytes()) && Text() == old(Text())
                && Searchable() && old(Searchable()) && Starts() == old(Starts()) && ResumesAtPage()
                && Names(bookId) && resume == position && (old(Stamped()) ==> Stamped())
                && (position.page, position.byteOffset) ==
                   old(Located(Starts(), book.fileSize, Progress(0, offset), false))
    {
      hide ErrorTold;
      hide ReaderPaginator.Valid, OwnFiles, IndexPath, MetadataPath, Prints, Codes, RecordSaved, Located, Valid;
      hide Published, Searchable, Offsets, Stored, InPhase, ResumesAtPage;
      Save(this.session, offset);
      if phase == Failed {
        return;
      }
      ghost var saved := position;
      Reopen(bookId, session, generation, fallback);
      if io.faultFree && Prints() {
        SameStarts();
        Reopened(offset, saved);
      }
    }

    // Both positions taken from a saved page are that page.
    lemma Reopened(offset: u64, saved: Progress)
      requires Positioned(saved, saved, true)
      requires (saved.page, saved.byteOffset) == Located(Starts(), book.fileSize, Progress(0, offset), false)
      ensures resume == position == saved
    {
      hide Offsets;
      IndexBound(Starts(), book.fileSize);
      LocatingTwice(Starts(), book.fileSize, Progress(0, offset), false, true);
      LocatingTwice(Starts(), book.fileSize, Progress(0, offset), false, false);
    }

    lemma BuiltIsIndex()
      requires Valid()
      ensures phase == Ready && built ==>
                && book.indexPath in io.files && Indexable(Text(), book.layout) && |Text()| < 0x1_0000_0000_0000_0000
                && IndexBytes() == IndexFile(PageStarts(Text(), book.layout).value, |Text()|)
    {
      hide ReaderPaginator.Valid, IndexFile, Chain, Usable, OffsetBytes, Crc;
    }

    // A build of this very book is under way.
    predicate Joins(path: FilePath, generation: nat)
      reads this`phase, this`generation, this`book
    {
      phase != Idle && generation == this.generation && path == book.path && Working()
    }

    method ResetOpen(session: nat, generation: nat)
      modifies this`header, this`checkedOffsets, this`checkedCrc, this`previousOffset, this`bufferedOffsets
      modifies this`bufferLength, this`bufferOffset, this`writtenOffsets, this`metadataDirty, this`persistent
      modifies this`resumeByPage, this`session, this`generation
      ensures checkedOffsets == 0 && checkedCrc == 0 && previousOffset == 0
      ensures this.session == session && this.generation == generation && !persistent
    {
      header := Header(0, 0, 0);
      checkedOffsets, checkedCrc, previousOffset := 0, 0, 0;
      bufferedOffsets, bufferLength, bufferOffset, writtenOffsets := 0, 0, 0, 0;
      metadataDirty, persistent, resumeByPage := false, false, false;
      this.session, this.generation := session, generation;
    }

    method StartOpen(path: FilePath, bookId: seq<byte>, layout: Layout, session: nat, generation: nat,
                     fallback: Option<Progress>, discardCache: bool)
      requires Shape() && phase == Idle && IsBookName(io.files, path, bookId)
      modifies this, io, buffer, offsets, paginator.Repr()
      ensures Valid() && (Working() || GaveUp()) && !persistent
      ensures this.session == session && this.generation == generation
      ensures Opened(path, bookId, layout, old(io.files), fallback, discardCache)
      ensures phase != Failed ==> OpenAnnounced()
    {
      hide ErrorTold, Canonical, ReaderPaginator.Valid, InPhase, OwnFiles, ReadableIn, IndexPath, MetadataPath;
      hide Temporary, RecordIn, HeaderIn, FingerprintOf, CacheCheck, ResumeFrom, OpenAnnounced;
      ResetOpen(session, generation);
      var ok := Identify(path, bookId, layout);
      if ok {
        Decide(fallback, discardCache);
      }
    }

    method Decide(fallback: Option<Progress>, discardCache: bool)
      requires Shape() && Stored() && phase == Idle
      requires checkedOffsets == 0 && checkedCrc == 0 && previousOffset == 0
      modifies this, io, buffer, offsets, paginator.Repr()
      ensures Valid() && SameBook() && (phase != Failed ==> Text() == old(Text()))
      ensures persistent ==> old(persistent)
      ensures phase == ValidatingCache || phase == Scanning || GaveUp()
      ensures var record := if discardCache then None else old(Recorded());
              && (phase == ValidatingCache ==>
                    && old(Candidates(record)) && HeaderIn(old(IndexBytes()), book.fileSize) == Some(header)
                    && book.indexPath in io.files && IndexBytes() == old(IndexBytes())
                    && resume == position == record.value.progress && resumeByPage)
              && (phase != Failed ==> Identified(phase == ValidatingCache, record))
              && (io.faultFree ==>
                    if record.Some? && record.value.canonicalPath != book.path then GaveUp()
                    else phase == if old(Candidates(record)) then ValidatingCache else Scanning)
              && (io.faultFree && phase == Scanning ==>
                    && resume == position == ResumeFrom(record, old(Text()), book.modified, fallback)
                    && !resumeByPage)
      ensures phase != Failed ==> OpenAnnounced()
    {
      hide ErrorTold, SameText, Describes, Names;
      hide Canonical, ReaderPaginator.Valid, InPhase, Stored, MetadataValid, Positions, RecordIn, HeaderIn, CacheCheck;
      hide ResumeFrom, OpenAnnounced, FingerprintOf;
      var old_ := ReadMetadata();
      if discardCache {
        old_ := None;
      }
      if old_.Some? && old_.value.canonicalPath != book.path {
        // Another book's record: the name of the directory proves nothing.
        FailWith(InvalidState);
        return;
      }
      var ok, candidate := Reconcile(old_, fallback);
      if !ok {
        return;
      }
      ok := PrepareDirectory();
      if ok {
        Begin(candidate);
      }
    }

    // Starts with the cached index, or from the text.
    method Begin(candidate: bool)
      requires Shape() && Stored() && Positions() && phase == Idle
      requires checkedOffsets == 0 && checkedCrc == 0 && previousOffset == 0
      requires candidate ==> header.fileSize == book.fileSize && header.pageCount > 0
      modifies this, io, buffer, offsets, paginator.Repr()
      ensures Valid() && SameBook() && Text() == old(Text())
      ensures GaveUp() || phase == if candidate then ValidatingCache else Scanning
      ensures persistent ==> old(persistent)
      ensures candidate && phase != Failed ==>
                && io.files == old(io.files) && header == old(header) && resumeByPage
                && resume == old(resume) && position == old(position) && metadataDirty == old(metadataDirty)
      ensures phase != Failed ==> fingerprint == old(fingerprint)
      ensures !candidate && phase != Failed ==> StartsOver()
      ensures phase != Failed ==> OpenAnnounced()
      ensures io.faultFree ==> phase != Failed
    {
      hide ErrorTold, Scans, ChecksNew, Published, ReaderPaginator.Valid;
      if candidate {
        phase := ValidatingCache;
        resumeByPage := true;
      } else {
        var ok := BeginRebuild(false);
        if !ok {
          return;
        }
      }
      Emit(OpenedEvent, resume, 0, Ok);
    }
  }

  // The text can be opened: it is there, with a size and a time that JSON can carry.
  ghost predicate ReadableIn(files: map<FilePath, File>, path: FilePath) {
    && Canonical(path, BOOK_PATH_CAPACITY).Path?
    && path in files
    && |files[path].bytes| <= JSON_INTEGER_MAX
    && 0 <= files[path].modified <= JSON_INTEGER_MAX
  }

  // A path and its canonical form name the same file, which is none of the engine's own.
  ghost predicate IsBookName(files: map<FilePath, File>, path: FilePath, bookId: seq<byte>) {
    match Canonical(path, BOOK_PATH_CAPACITY)
    case Rejected => true
    case Path(canonical) =>
      && canonical !in OwnFiles(bookId)
      && (path in files <==> canonical in files) && (path in files ==> files[path] == files[canonical])
  }

  // ----- What the card holds for a book

  // The valid metadata record, if any; the engine reads up to 4096 bytes of it.
  ghost function RecordIn(files: map<FilePath, File>, parse: Parser, metadataPath: FilePath): Option<Metadata> {
    if metadataPath in files && |files[metadataPath].bytes| <= 4096 then
      match parse(files[metadataPath].bytes)
      case Some(m) => if MetadataValid(m) then Some(m) else None
      case None => None
    else None
  }

  // The record that opening goes by.
  ghost function RecordUsed(files: map<FilePath, File>, parse: Parser, bookId: seq<byte>, discardCache: bool):
    Option<Metadata>
  {
    if discardCache then None else RecordIn(files, parse, MetadataPath(bookId))
  }

  // Where reading of a text resumes: at the recorded offset, if the record is of this text and
  // pagination, or else at the fallback's, if that lies inside.
  function ResumeFrom(record: Option<Metadata>, text: seq<byte>, modified: int, fallback: Option<Progress>): Progress {
    if record.Some? && SameText(record.value, text, modified) && record.value.paginationVersion == PAGINATION_VERSION
    then record.value.progress.(page := 0)
    else if fallback.Some? && (fallback.value.byteOffset == 0 || fallback.value.byteOffset < |text|) then
      fallback.value.(page := 0)
    else Progress(0, 0)
  }

  function HeaderIn(file: seq<byte>, textSize: nat): Option<Header> { DecodeHeader(file, |file|, textSize) }

  // The header is the one a record speaks of.
  predicate Describes(m: Metadata, header: Option<Header>) {
    header.Some? && header.value.pageCount == m.pageCount && header.value.offsetsCrc == m.offsetsCrc
  }

  // The text is the recorded one, as far as its size and its time or else its samples tell.
  predicate SameText(m: Metadata, text: seq<byte>, modified: int) {
    m.file.fileSize == |text| && (m.file.modified == modified || m.file.fingerprint == FingerprintOf(text))
  }

  // The record is that of another book.
  predicate Foreign(record: Option<Metadata>, path: FilePath) {
    record.Some? && Path(record.value.canonicalPath) != Canonical(path, BOOK_PATH_CAPACITY)
  }

  // The cache belongs to the text at this path: what may be looked at before reading the index.
  ghost predicate Belongs(files: map<FilePath, File>, path: FilePath, record: Option<Metadata>, index: FilePath) {
    && record.Some? && path in files && Canonical(path, BOOK_PATH_CAPACITY).Path?
    && CacheCheck(record.value, Canonical(path, BOOK_PATH_CAPACITY).bytes, |files[path].bytes|,
                  files[path].modified) != Rebuild
    && index in files && Describes(record.value, HeaderIn(files[index].bytes, |files[path].bytes|))
    && SameText(record.value, files[path].bytes, files[path].modified)
  }

  // And the index file is one.
  ghost predicate CacheIsSound(files: map<FilePath, File>, path: FilePath, record: Option<Metadata>, index: FilePath) {
    Belongs(files, path, record, index) && Accepted(files[index].bytes, |files[path].bytes|)
  }

  // The names of a book's cache files, under /.system/books/ and its id.
  function Directory(bookId: seq<byte>): FilePath {
    [0x2f, 0x2e, 0x73, 0x79, 0x73, 0x74, 0x65, 0x6d, 0x2f, 0x62, 0x6f, 0x6f, 0x6b, 0x73, 0x2f] + bookId
  }

  // ".../metadata.json"
  function MetadataPath(bookId: seq<byte>): FilePath {
    Directory(bookId) + [0x2f, 0x6d, 0x65, 0x74, 0x61, 0x64, 0x61, 0x74, 0x61, 0x2e, 0x6a, 0x73, 0x6f, 0x6e]
  }

  // ".../pages.idx"
  function IndexPath(bookId: seq<byte>): FilePath {
    Directory(bookId) + [0x2f, 0x70, 0x61, 0x67, 0x65, 0x73, 0x2e, 0x69, 0x64, 0x78]
  }

  function OwnFiles(bookId: seq<byte>): set<FilePath> {
    {IndexPath(bookId), Temporary(IndexPath(bookId)), MetadataPath(bookId), Temporary(MetadataPath(bookId))}
  }

  lemma OwnFilesDistinct(bookId: seq<byte>)
    ensures IndexPath(bookId) !in {Temporary(IndexPath(bookId)), MetadataPath(bookId), Temporary(MetadataPath(bookId))}
    ensures Temporary(IndexPath(bookId)) !in {MetadataPath(bookId), Temporary(MetadataPath(bookId))}
    ensures MetadataPath(bookId) != Temporary(MetadataPath(bookId))
  {
    var n := |Directory(bookId)|;
    assert MetadataPath(bookId)[n + 13] == 0x6e;
    assert Temporary(IndexPath(bookId))[n + 13] == 0x70;
  }

  // ".tmp" appended
  function Temporary(path: FilePath): FilePath { path + [0x2e, 0x74, 0x6d, 0x70] }
}
