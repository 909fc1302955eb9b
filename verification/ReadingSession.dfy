// The reader and the index engine together: what services/book/book_service.cpp delivers from
// one to the other, and that it is what the reader relies on.
module ReadingSession {
  import opened Utf8
  import opened Options
  import opened Paginator
  import opened PageChain
  import opened IndexModel
  import opened BookFormat
  import opened Disk
  import Pages
  import opened Crc32
  import Index = IndexEngine
  import Nav = ReaderNavigation

  // emit() of the service: a text's content is there as soon as it is open.
  function Delivered(e: Index.Event, file: Nav.FileStamp): Nav.BookEvent {
    Nav.BookEvent(
      match e.kind
      case OpenedEvent => Nav.Opened
      case ReadyEvent => Nav.IndexReady
      case PositionEvent => Nav.Position
      case _ => Nav.OtherEvent,
      e.request, e.progress, e.pageCount, file, e.indexValid, true, e.error != Ok)
  }

  // The file as the engine has found it.
  function FileOf(engine: Index.BookIndexEngine): Nav.FileStamp
    reads engine`book
  {
    Nav.FileStamp(engine.book.fileSize, engine.book.modified)
  }

  // The reader has been reading another version of that file.
  predicate Outdated(engine: Index.BookIndexEngine, reader: Nav.Reader)
    reads engine`book, reader`state
  {
    Nav.Changed(reader.state, reader.epub, FileOf(engine))
  }

  // The engine's published index is the page list of what the reader shows.
  ghost predicate Serves(engine: Index.BookIndexEngine, ed: Nav.Edition)
    reads engine`book, engine`header, engine.io
  {
    engine.Searchable() && engine.Starts() == ed.starts && engine.book.fileSize == |ed.source|
  }

  // An index built from the text is.
  lemma BuiltServes(engine: Index.BookIndexEngine, ed: Nav.Edition)
    requires engine.Valid() && engine.phase == Index.Ready && engine.built
    requires ed.Holds() && ed.source == engine.Text() && ed.layout == engine.book.layout
    ensures Serves(engine, ed)
  {
    hide ReaderPaginator.Valid, Pages.PageAt, IndexFile, Chain, Index.Usable, OffsetBytes, Crc, Offsets, Accepted;
    engine.PublishedIsSearchable();
    LinkedIsChain(ed.source, ed.layout, ed.starts);
    PublishedIsAccepted(engine.starts, engine.book.fileSize);
  }

  // The two share no memory.
  ghost predicate Apart(engine: Index.BookIndexEngine, reader: Nav.Reader) {
    && engine.paginator.Repr() !! reader.paginator.Repr()
    && engine.buffer !in reader.paginator.Repr() && engine.offsets !in reader.paginator.Repr()
    && reader.history.offsets !in engine.paginator.Repr()
  }

  // ----- What the engine says is what the reader assumes

  // An answer to a query is the answer to the reader's request.
  lemma QueryIsTruthful(ed: Nav.Edition, s: Nav.ReaderState, request: Progress, e: Index.Event, file: Nav.FileStamp)
    requires e.kind == Index.PositionEvent && ed.starts != [] && Nav.IsRequest(s, request)
    requires (e.progress.page, e.progress.byteOffset) ==
             Located(ed.starts, |ed.source|, request, s.book.indexLookup)
    ensures Nav.Truthful(ed, s, Delivered(e, file)) && e.progress.page < |ed.starts|
  {
    hide PageOf;
  }

  // So is the news that the index is ready.
  lemma ReadyIsTruthful(engine: Index.BookIndexEngine, ed: Nav.Edition, s: Nav.ReaderState)
    requires Serves(engine, ed) && engine.ResumesAtPage()
    ensures Nav.Truthful(ed, s, Delivered(engine.events[|engine.events| - 1], FileOf(engine)))
  {
    hide Offsets;
  }

  // ----- Asking the engine

  // The engine takes the query that the reader has sent, and the reader its answer. A lookup
  // starts the page asked for; a query for the page shown gives it its number. An engine that
  // fails reports an error, and a reader of an outdated file notices.
  method Ask(engine: Index.BookIndexEngine, reader: Nav.Reader, byPage: bool, page: u32, offset: u64)
    requires engine.Valid() && reader.Valid() && Apart(engine, reader) && Serves(engine, reader.ed)
    requires engine.phase == Index.Ready && reader.state.book.submitted && reader.state.book.waiting
    requires byPage == reader.state.book.indexLookup
    requires Nav.IsRequest(reader.state, Progress(page, offset))
    requires byPage ==> reader.state.page.totalCount == |reader.ed.starts|
    modifies engine`phase, engine`persistent, engine`events, engine`position
    modifies reader`state, reader`track, reader.paginator.Repr(), reader.history
    ensures engine.Valid() && reader.Valid() && (engine.io.faultFree ==> engine.phase == Index.Ready)
    ensures Nav.KeepsCourse(old(reader.state), old(reader.track), reader.state, reader.track)
    ensures reader.state.file == old(reader.state).file && engine.book == old(engine.book)
    ensures engine.phase == Index.Ready && byPage && !Outdated(engine, reader) ==>
              && reader.state.request.busy && !reader.state.request.waiting && !reader.state.book.indexLookup
              && reader.track == old(reader.track).(loading := old(reader.track).destination)
    ensures engine.phase == Index.Ready && !byPage && !Outdated(engine, reader) && old(reader.state).Showing() &&
            !old(reader.state).request.busy && offset == old(reader.state).page.currentOffset &&
            old(reader.state).page.totalCount == |reader.ed.starts| ==>
              Nav.Counted(reader.state, reader.track) && reader.track == old(reader.track) && reader.state.Showing()
    ensures engine.phase != Index.Ready && byPage ==> reader.state.page.status == Nav.ErrorView
    ensures engine.phase == Index.Ready && Outdated(engine, reader) ==>
              reader.state.page.status == Nav.ErrorView && !reader.state.request.busy
  {
    hide ReaderPaginator.Valid, Located, Nav.Reader.Valid, Index.BookIndexEngine.Valid, Offsets;
    hide Nav.KeepsCourse, Nav.Truthful;
    engine.Query(engine.session, reader.state.book.requestId, byPage, page, offset);
    if engine.phase != Index.Ready {
      reader.HandleFailure();
      return;
    }
    var e := engine.events[|engine.events| - 1];
    QueryIsTruthful(reader.ed, reader.state, Progress(page, offset), e, FileOf(engine));
    reader.HandleBookEvent(Delivered(e, FileOf(engine)));
  }

  // "Previous" with the engine behind the reader: whichever of the three routes it takes, it
  // ends on the page before the one shown, with the history running up to it. Only a failing
  // card or a changed file can end it in an error instead.
  method Previous(engine: Index.BookIndexEngine, reader: Nav.Reader, text: seq<byte>, chunk: nat, accepted: bool)
    requires engine.Valid() && reader.Valid() && Apart(engine, reader) && Serves(engine, reader.ed)
    requires engine.phase == Index.Ready && chunk > 0
    requires |text| == engine.book.fileSize && (!Outdated(engine, reader) ==> text == reader.ed.source)
    requires reader.state.page.status == Nav.ReadyView && reader.state.page.currentOffset > 0
    modifies engine`phase, engine`persistent, engine`events, engine`position
    modifies reader`state, reader`track, reader.paginator.Repr(), reader.history, reader.history.offsets
    ensures engine.Valid() && reader.Valid()
    ensures engine.io.faultFree ==> engine.phase == Index.Ready
    ensures if engine.phase == Index.Ready && !old(Outdated(engine, reader)) then
              && reader.state.Showing() && !reader.state.request.busy
              && reader.track.shown + 1 == old(reader.track.shown) && reader.track.shown < |reader.ed.starts|
              && reader.state.page.currentOffset == reader.ed.starts[reader.track.shown]
              && Nav.RunBefore(reader.history.Entries(), reader.ed.starts, reader.track.shown)
            else reader.state.page.status == Nav.ErrorView
  {
    hide ReaderPaginator.Valid, Located, Nav.Reader.Valid, Index.BookIndexEngine.Valid, Offsets;
    hide Nav.Truthful, Nav.RunBefore;
    reader.Previous(accepted);
    if reader.state.book.indexLookup {
      var page, offset := reader.state.page.currentNumber - 1, reader.state.book.queriedOffset;
      Ask(engine, reader, true, page, offset);
    }
    if engine.phase == Index.Ready && reader.state.request.busy {
      reader.LoadPages(text, engine.book.modified, chunk);
      if reader.state.Showing() {
        reader.ShowingAtEnd();
      }
    }
  }

  // A page that is shown without its number gets it from the engine.
  method NumberPage(engine: Index.BookIndexEngine, reader: Nav.Reader)
    requires engine.Valid() && reader.Valid() && Apart(engine, reader) && Serves(engine, reader.ed)
    requires engine.phase == Index.Ready && !Outdated(engine, reader)
    requires reader.state.Showing() && !reader.state.request.busy && reader.state.page.positionValid
    requires reader.state.book.submitted && reader.state.book.indexValid && !reader.state.book.waiting
    requires !reader.state.book.indexPositionValid && reader.state.page.totalCount == |reader.ed.starts|
    requires reader.state.page.currentOffset < 0x1_0000_0000_0000_0000
    modifies engine`phase, engine`persistent, engine`events, engine`position
    modifies reader`state, reader`track, reader.paginator.Repr(), reader.history
    ensures engine.Valid() && reader.Valid() && (engine.io.faultFree ==> engine.phase == Index.Ready)
    ensures engine.phase == Index.Ready ==>
              && reader.state.Showing() && reader.track == old(reader.track)
              && Nav.Counted(reader.state, reader.track)
  {
    hide ReaderPaginator.Valid, Located, Nav.Reader.Valid, Index.BookIndexEngine.Valid, Offsets;
    hide Nav.Truthful, Nav.RunBefore, Nav.KeepsCourse;
    reader.QueryOffset(true);
    reader.NothingLookedUp();
    Ask(engine, reader, false, 0, reader.state.book.queriedOffset);
  }

  // A reader that has not been used yet moves to the saved page once the index is ready, or
  // numbers it if it shows it already, unless the file has changed.
  method Resume(engine: Index.BookIndexEngine, reader: Nav.Reader)
    requires engine.Valid() && reader.Valid() && Apart(engine, reader) && Serves(engine, reader.ed)
    requires engine.ResumesAtPage() && reader.state.book.submitted && !reader.state.userNavigated
    modifies reader`state, reader`track, reader.paginator.Repr(), reader.history
    ensures engine.Valid() && reader.Valid() && Serves(engine, reader.ed)
    ensures old(Outdated(engine, reader)) ==> reader.state.page.status == Nav.ErrorView
    ensures !old(Outdated(engine, reader)) ==>
              reader.state.book.indexValid && reader.state.page.totalCount == |reader.ed.starts|
    ensures !old(Outdated(engine, reader)) ==>
            if reader.state.request.busy then
              && reader.track.destination == engine.resume.page && reader.history.Entries() == []
              && reader.state.page.operation == Nav.OpenPage
            else
              && reader.state.book.indexPositionValid
              && reader.state.page.currentNumber == engine.resume.page == reader.track.shown
  {
    hide ReaderPaginator.Valid, Located, Nav.Reader.Valid, Index.BookIndexEngine.Valid, Offsets;
    hide Nav.KeepsCourse, Nav.Truthful, Nav.RunBefore;
    ReadyIsTruthful(engine, reader.ed, reader.state);
    reader.HandleBookEvent(Delivered(engine.events[|engine.events| - 1], FileOf(engine)));
    reader.NumbersAreUnique();
  }

  // Closing a book and opening it again, on a card without faults: what served the reader
  // serves the next one, which `Resume` brings to the page that holds the saved offset and
  // `Previous` takes back from there.
  method CloseAndReopen(engine: Index.BookIndexEngine, ghost ed: Nav.Edition, bookId: seq<byte>, offset: u64,
                        session: nat, generation: nat, fallback: Option<Progress>)
    requires engine.Valid() && engine.phase == Index.Ready && Serves(engine, ed)
    requires engine.Names(bookId) && engine.Codes() && (offset == 0 || offset < engine.book.fileSize)
    modifies engine, engine.io, engine.buffer, engine.offsets, engine.paginator.Repr()
    ensures engine.Valid()
    ensures engine.io.faultFree && engine.Prints() ==>
              && engine.phase == Index.Ready && Serves(engine, ed) && engine.ResumesAtPage()
              && engine.Names(bookId) && engine.resume == engine.position
              && (engine.resume.page, engine.resume.byteOffset) ==
                 Located(ed.starts, |ed.source|, Progress(0, offset), false)
  {
    hide Index.BookIndexEngine.Valid, Located, Offsets, IndexOf;
    engine.SaveAndReopen(bookId, offset, session, generation, fallback);
  }

  // A book without a usable index, from its first opening to its second: the index built in
  // between is the reader's page list, and it is still when the book is opened again, at the
  // page of the offset that was saved.
  method ReadTwice(engine: Index.BookIndexEngine, ed: Nav.Edition, path: FilePath, bookId: seq<byte>,
                   offset: u64, fallback: Option<Progress>)
    requires engine.Valid() && engine.phase == Index.Idle && engine.Codes() && engine.Prints() && engine.io.faultFree
    requires Index.IsBookName(engine.io.files, path, bookId) && Index.ReadableIn(engine.io.files, path)
    requires ed.Holds() && |ed.starts| <= MAX_PAGES && ed.source == engine.io.files[path].bytes
    requires offset == 0 || offset < |ed.source|
    requires var record := Index.RecordUsed(engine.io.files, engine.parse, bookId, false);
             && !Index.Foreign(record, path)
             && !Index.CacheIsSound(engine.io.files, path, record, Index.IndexPath(bookId))
    modifies engine, engine.io, engine.buffer, engine.offsets, engine.paginator.Repr()
    ensures engine.Valid() && engine.phase == Index.Ready && Serves(engine, ed) && engine.ResumesAtPage()
    ensures (engine.resume.page, engine.resume.byteOffset) ==
            Located(ed.starts, |ed.source|, Progress(0, offset), false)
  {
    hide ReaderPaginator.Valid, Pages.PageAt, Index.BookIndexEngine.Valid, Located, Offsets, IndexOf, IndexFile;
    hide Index.IsBookName, Index.ReadableIn, Index.CacheIsSound, Index.Foreign, Index.RecordUsed, Chain;
    LinkedIsChain(ed.source, ed.layout, ed.starts);
    engine.OpenAndFinish(path, bookId, ed.layout, 1, 1, fallback, false);
    BuiltServes(engine, ed);
    CloseAndReopen(engine, ed, bookId, offset, 2, 1, fallback);
  }
}
