// Page navigation of app/reader/reader_app.cpp: the bounded history, the index lookup and
// the rebuild from the start as three ways back to the previous page.
module ReaderNavigation {
  import opened Utf8
  import opened Options
  import opened Paginator
  import Pages
  import opened PageChain
  import PageRows
  import opened IndexModel
  import opened BookFormat

  const HISTORY_CAPACITY: nat := 64

  // ----- Page history

  // reader_page_history::push, as a function of the stored offsets.
  function Pushed(h: seq<nat>, offset: nat): seq<nat> {
    if h != [] && h[|h| - 1] == offset then h
    else if |h| == HISTORY_CAPACITY then h[1..] + [offset]
    else h + [offset]
  }

  class PageHistory {
    const offsets: array<nat>
    var size: nat

    ghost predicate Valid()
      reads this
    {
      offsets.Length == HISTORY_CAPACITY && size <= HISTORY_CAPACITY
    }

    ghost function Entries(): seq<nat>
      reads this, offsets
      requires Valid()
    {
      offsets[..size]
    }

    constructor ()
      ensures Valid() && Entries() == [] && fresh(offsets)
    {
      offsets := new nat[HISTORY_CAPACITY](_ => 0);
      size := 0;
    }

    method Clear()
      requires Valid()
      modifies this
      ensures Valid() && Entries() == []
    {
      size := 0;
    }

    method Push(offset: nat)
      requires Valid()
      modifies this, offsets
      ensures Valid() && Entries() == Pushed(old(Entries()), offset)
    {
      if size != 0 && offsets[size - 1] == offset {
        return;
      }
      if size == HISTORY_CAPACITY {
        DropOldest();
      }
      Put(offset);
    }

    method Put(offset: nat)
      requires Valid() && size < HISTORY_CAPACITY
      modifies this`size, offsets
      ensures Valid() && Entries() == old(Entries()) + [offset]
    {
      ghost var kept := offsets[..size];
      offsets[size] := offset;
      size := size + 1;
      assert offsets[..size] == kept + [offset];
    }

    // Makes room by moving every entry one place forward.
    method DropOldest()
      requires Valid() && size == HISTORY_CAPACITY
      modifies this, offsets
      ensures Valid() && Entries() == old(Entries())[1..] && size == HISTORY_CAPACITY - 1
    {
      ghost var before := Entries();
      var i := 1;
      while i < size
        invariant 1 <= i <= size == HISTORY_CAPACITY
        invariant forall j :: 0 <= j < i - 1 ==> offsets[j] == before[j + 1]
        invariant forall j :: i <= j < HISTORY_CAPACITY ==> offsets[j] == before[j]
        modifies offsets
      {
        offsets[i - 1] := offsets[i];
        i := i + 1;
      }
      size := size - 1;
      assert offsets[..size] == before[1..];
    }

    method Previous() returns (found: bool, offset: nat)
      requires Valid()
      ensures found == (Entries() != [])
      ensures found ==> offset == Entries()[|Entries()| - 1]
    {
      if size == 0 {
        return false, 0;
      }
      return true, offsets[size - 1];
    }

    method Pop()
      requires Valid()
      modifies this
      ensures Valid()
      ensures Entries() == if old(Entries()) == [] then [] else old(Entries())[..|old(Entries())| - 1]
    {
      if size != 0 {
        size := size - 1;
      }
    }
  }

  // The history holds the page starts just before page k, as many as it has room for.
  ghost predicate RunBefore(h: seq<nat>, starts: seq<nat>, k: nat) {
    |h| <= k <= |starts| && |h| <= HISTORY_CAPACITY && h == starts[k - |h|..k]
  }

  lemma PushKeepsRun(h: seq<nat>, starts: seq<nat>, k: nat)
    requires RunBefore(h, starts, k) && k < |starts| && Increasing(starts)
    ensures RunBefore(Pushed(h, starts[k]), starts, k + 1)
    ensures Pushed(h, starts[k]) != []
  {
    var from := k - |h|;
    if h != [] {
      assert h[|h| - 1] == starts[from..k][|h| - 1] == starts[k - 1] < starts[k];
    }
    SliceMore(starts, from, k);
  }

  // One element more, with the first kept or dropped.
  lemma SliceMore(starts: seq<nat>, from: nat, k: nat)
    requires from <= k < |starts|
    ensures starts[from..k] + [starts[k]] == starts[from..k + 1]
    ensures from < k ==> starts[from..k][1..] + [starts[k]] == starts[from + 1..k + 1]
  {
  }

  lemma EmptyRun(starts: seq<nat>, k: nat)
    requires k <= |starts|
    ensures RunBefore([], starts, k)
  {
    assert starts[k..k] == [];
  }

  lemma PopKeepsRun(h: seq<nat>, starts: seq<nat>, k: nat)
    requires RunBefore(h, starts, k) && h != []
    ensures RunBefore(h[..|h| - 1], starts, k - 1) && h[|h| - 1] == starts[k - 1]
  {
  }

  // ----- Reader state

  datatype ViewStatus = Loading | ReadyView | EmptyFile | ErrorView

  datatype Operation = OpenPage | NextPage | PreviousPage | RebuildPrevious

  datatype PageState = PageState(
    currentOffset: nat, nextOffset: nat, rebuildTarget: nat, currentNumber: nat, totalCount: nat,
    status: ViewStatus, operation: Operation, positionValid: bool, endOfFile: bool)

  datatype BookState = BookState(
    submitted: bool, contentReady: bool, indexValid: bool, indexPositionValid: bool, waiting: bool,
    indexLookup: bool, indexedOperation: Operation, targetOffset: nat, targetPage: nat, targetValid: bool,
    queriedOffset: nat, requestId: nat)

  datatype ContentRequest = ContentRequest(id: nat, requestedOffset: nat, busy: bool, waiting: bool)

  // What tells one version of a file from another.
  datatype FileStamp = FileStamp(size: nat, modified: int)

  datatype ReaderState = ReaderState(
    page: PageState, book: BookState, request: ContentRequest, userNavigated: bool, file: Option<FileStamp>)
  {
    predicate Showing() { page.status == ReadyView || page.status == EmptyFile }

    // There is an index, and where the page is in it has not been asked yet.
    predicate LacksNumber() {
      && book.indexValid && !book.indexPositionValid && !book.waiting && book.submitted
      && page.positionValid && Showing()
    }
  }

  datatype EventKind = Opened | IndexReady | Position | OtherEvent

  datatype BookEvent = BookEvent(
    kind: EventKind, requestId: nat, progress: Progress, pageCount: nat, file: FileStamp, indexValid: bool,
    contentReady: bool, failed: bool)

  // ----- What holds of the reader, as facts about values

  // The text being read, how it is laid out, and the page starts this gives.
  datatype Edition = Edition(source: seq<byte>, layout: Layout, starts: seq<nat>) {
    ghost predicate Holds() {
      Linked(source, layout, starts) && starts[0] == 0
    }
  }

  // Where the reader is, for the proof: the page shown, the page being loaded, and the page
  // the operation is to end on.
  datatype Track = Track(shown: nat, loading: nat, destination: nat)

  // An index position, when the reader trusts one, is a true entry of the page list.
  ghost predicate Indexed(starts: seq<nat>, s: ReaderState) {
    && (s.book.indexValid ==> s.page.totalCount == |starts|)
    && (s.book.targetValid ==> s.book.targetPage < |starts| && s.book.targetOffset == starts[s.book.targetPage])
    && (s.book.indexPositionValid ==>
          s.page.currentNumber < |starts| && s.page.currentOffset == starts[s.page.currentNumber])
  }

  // There is nothing to read: no byte, or a byte order mark alone.
  predicate Blank(source: seq<byte>) { source == [] || source == [0xef, 0xbb, 0xbf] }

  // The page shown is page k of the list.
  ghost predicate Displays(starts: seq<nat>, page: PageState, k: nat) {
    && k < |starts| && page.currentOffset == starts[k]
    && (page.endOfFile <==> k == |starts| - 1)
    && (k + 1 < |starts| ==> page.nextOffset == starts[k + 1])
  }

  // A page is being loaded: page t.loading of the list, on the way to page t.destination.
  ghost predicate Underway(starts: seq<nat>, page: PageState, h: seq<nat>, t: Track) {
    && t.loading < |starts| && t.destination < |starts|
    && match page.operation
       case OpenPage => h == [] && t.loading == t.destination
       case NextPage => page.positionValid && RunBefore(h, starts, t.shown) && t.loading == t.destination == t.shown + 1
       case PreviousPage =>
         page.positionValid && 0 < t.shown < |starts| && RunBefore(h, starts, t.shown) &&
         t.loading == t.destination == t.shown - 1
       case RebuildPrevious =>
         page.positionValid && 0 < t.shown < |starts| && RunBefore(h, starts, t.loading) &&
         t.loading <= t.destination == t.shown - 1 && page.rebuildTarget == starts[t.shown]
  }

  // Waiting for the index to name the previous page; no page has been started.
  ghost predicate LookingUp(starts: seq<nat>, s: ReaderState, h: seq<nat>, t: Track) {
    && s.book.indexedOperation == PreviousPage && s.book.waiting && s.userNavigated
    && s.request.busy && !s.request.waiting
    && s.page.positionValid && 0 < t.shown < |starts| && h == [] && t.destination == t.shown - 1
    && s.page.currentNumber == t.shown
  }

  // The file has been found changed while its pages were being read.
  predicate Abandoned(s: ReaderState) {
    s.page.status == ErrorView && !s.page.positionValid && s.userNavigated
  }

  // The part of the invariant that concerns the page shown.
  ghost predicate Settled(ed: Edition, s: ReaderState, h: seq<nat>, t: Track) {
    && ed.Holds()
    && Indexed(ed.starts, s)
    && (s.page.positionValid ==> Displays(ed.starts, s.page, t.shown))
    && (s.Showing() ==>
          && !s.request.busy && s.page.positionValid && RunBefore(h, ed.starts, t.shown)
          && (s.page.status == EmptyFile <==> Blank(ed.source)))
    && (!s.page.positionValid || !s.userNavigated ==> h == [] || Abandoned(s))
  }

  // The part that concerns what is under way.
  ghost predicate Moving(ed: Edition, s: ReaderState, h: seq<nat>, t: Track) {
    && (s.book.indexLookup ==> LookingUp(ed.starts, s, h, t))
    && (s.request.busy && !s.book.indexLookup ==> Underway(ed.starts, s.page, h, t))
    && (s.request.busy && !s.userNavigated ==> s.page.operation == OpenPage)
    && (s.request.busy ==> s.page.status == Loading)
    && (s.request.waiting ==> s.request.busy && !s.book.indexLookup)
  }

  ghost predicate Consistent(ed: Edition, s: ReaderState, h: seq<nat>, t: Track) {
    Settled(ed, s, h, t) && Moving(ed, s, h, t)
  }

  // The operation under way is to the page that the index has named, by number and offset.
  ghost predicate Aims(starts: seq<nat>, s: ReaderState, t: Track) {
    && s.book.targetValid && s.book.targetPage == t.destination < |starts|
    && s.book.targetOffset == starts[t.destination]
  }

  // The page shown has its number.
  ghost predicate Counted(s: ReaderState, t: Track) {
    s.book.indexPositionValid && s.page.currentNumber == t.shown
  }

  // What steps other than the user's make of an operation the user started: it goes on
  // towards the same page, ends there, or ends in an error; and there it stays.
  ghost predicate KeepsCourse(s: ReaderState, t: Track, s': ReaderState, t': Track) {
    s.userNavigated && (s.request.busy || s.page.status != Loading) ==>
      s'.userNavigated &&
      if s'.request.busy then s.request.busy && t'.destination == t.destination && t'.shown == t.shown
      else
        || s'.page.status == ErrorView
        || (s'.Showing() && if s.request.busy then t'.shown == t.destination else s.Showing() && t'.shown == t.shown)
  }

  // ----- The steps, as functions

  // fail()
  function Failed(s: ReaderState): ReaderState {
    s.(page := s.page.(status := ErrorView),
       book := s.book.(indexLookup := false, waiting := false, indexPositionValid := false),
       request := s.request.(busy := false, waiting := false))
  }

  // The file seen is not the one that is being read. The size of an EPUB's text is all that
  // is compared.
  predicate Changed(s: ReaderState, epub: bool, file: FileStamp) {
    s.file.Some? && (file.size != s.file.value.size || (!epub && file.modified != s.file.value.modified))
  }

  // The file is noted when it is first seen.
  function Seen(s: ReaderState, file: FileStamp): ReaderState {
    if s.file.None? then s.(file := Some(file)) else s
  }

  // The file is given up with the page shown.
  function Lost(s: ReaderState): ReaderState {
    Failed(s.(page := s.page.(positionValid := false)))
  }

  // start_page()
  function Started(s: ReaderState, operation: Operation): ReaderState {
    s.(page := s.page.(operation := operation, status := Loading),
       request := s.request.(busy := true, waiting := false))
  }

  // start_indexed_page(), before it starts the page.
  function Aimed(s: ReaderState, offset: nat, number: nat): ReaderState {
    s.(book := s.book.(targetOffset := offset, targetPage := number, targetValid := true, indexPositionValid := false))
  }

  // query_index(true, …), once the request has been taken.
  function Asked(s: ReaderState): ReaderState {
    s.(page := s.page.(status := Loading),
       book := s.book.(waiting := true, queriedOffset := s.page.currentOffset, indexLookup := true),
       request := s.request.(busy := true, waiting := false))
  }

  // complete_page(), once the operation has reached its page.
  function Completed(s: ReaderState, start: nat, next: nat, last: bool, empty: bool): ReaderState {
    var known := s.book.indexValid && s.book.targetValid && start == s.book.targetOffset;
    s.(page := s.page.(currentOffset := start, nextOffset := next, endOfFile := last, positionValid := true,
                       status := if empty && last && start == 0 then EmptyFile else ReadyView,
                       currentNumber := if known then s.book.targetPage else s.page.currentNumber),
       book := s.book.(indexPositionValid := known, targetValid := false),
       request := s.request.(busy := false))
  }

  // The history after a page has been completed.
  function HistoryAfter(h: seq<nat>, operation: Operation, current: nat): seq<nat> {
    match operation
    case NextPage => Pushed(h, current)
    case PreviousPage => if h == [] then [] else h[..|h| - 1]
    case _ => h
  }

  // ----- The steps keep the invariant

  // Giving up on a load, whatever was under way.
  lemma FailedIsConsistent(ed: Edition, s: ReaderState, h: seq<nat>, t: Track)
    requires Settled(ed, s, h, t)
    ensures Consistent(ed, Failed(s), h, t)
  {
    hide Linked, RunBefore;
  }

  lemma LostIsConsistent(ed: Edition, s: ReaderState, h: seq<nat>, t: Track)
    requires Consistent(ed, s, h, t)
    ensures Consistent(ed, Lost(s), h, t)
  {
    hide Linked, RunBefore, Displays, Underway;
  }

  lemma SeenIsConsistent(ed: Edition, s: ReaderState, h: seq<nat>, t: Track, file: FileStamp)
    requires Consistent(ed, s, h, t)
    ensures Consistent(ed, Seen(s, file), h, t)
  {
    hide Linked, RunBefore, Displays;
  }

  // A page can be started on the way to page t.destination.
  ghost predicate CanStart(ed: Edition, s: ReaderState, h: seq<nat>, t: Track, operation: Operation) {
    && Settled(ed, s.(page := s.page.(status := Loading)), h, t) && !s.book.indexLookup
    && Underway(ed.starts, s.page.(operation := operation), h, t)
    && (!s.userNavigated ==> operation == OpenPage)
  }

  lemma StartedIsConsistent(ed: Edition, s: ReaderState, h: seq<nat>, t: Track, operation: Operation)
    requires CanStart(ed, s, h, t, operation)
    ensures Consistent(ed, Started(s, operation), h, t)
    ensures t.loading < |ed.starts| && ed.starts[t.loading] <= |ed.source|
  {
    hide RunBefore, Pages.PageAt, Follows;
  }

  // complete_page() goes on with the rebuild exactly when the page just read is not yet the
  // last one before the target.
  lemma RebuildGoesOn(ed: Edition, page: PageState, h: seq<nat>, t: Track, view: State)
    requires ed.Holds() && Underway(ed.starts, page, h, t)
    requires page.operation == RebuildPrevious && view == Pages.PageAt(ed.source, ed.layout, ed.starts[t.loading])
    ensures t.loading + 1 < |ed.starts| && !view.endOfFile && view.next == ed.starts[t.loading + 1]
    ensures view.next < page.rebuildTarget <==> t.loading < t.destination
    ensures t.loading < t.destination ==>
              Underway(ed.starts, page, Pushed(h, ed.starts[t.loading]), t.(loading := t.loading + 1))
  {
    hide Pages.PageAt, RunBefore, Pushed, Linked, Increasing, Follows;
    var m := t.loading;
    LinkedIncreasing(ed.source, ed.layout, ed.starts);
    assert m + 1 <= t.shown < |ed.starts|;
    PageFollows(ed, m);
    PushKeepsRun(h, ed.starts, m);
    StartsOrdered(ed.starts, m + 1, t.shown);
  }

  lemma StartsOrdered(starts: seq<nat>, i: nat, j: nat)
    requires Increasing(starts) && i <= j < |starts|
    ensures i < j <==> starts[i] < starts[j]
  {
  }

  lemma PageFollows(ed: Edition, m: nat)
    requires ed.Holds() && m + 1 < |ed.starts|
    ensures ed.starts[m] <= |ed.source|
    ensures var view := Pages.PageAt(ed.source, ed.layout, ed.starts[m]);
            view.status.PageReady? && !view.endOfFile && view.next == ed.starts[m + 1]
  {
    hide Pages.PageAt;
    StartInside(ed, m);
    assert Follows(ed.source, ed.layout, ed.starts[m], ed.starts[m + 1]);
  }

  // A completed operation ends on its destination, with the history just before it.
  lemma OperationLands(ed: Edition, page: PageState, h: seq<nat>, t: Track)
    requires ed.Holds() && Underway(ed.starts, page, h, t)
    requires page.positionValid ==> Displays(ed.starts, page, t.shown)
    requires page.operation == RebuildPrevious ==> t.loading == t.destination
    ensures t.loading == t.destination
    ensures RunBefore(HistoryAfter(h, page.operation, page.currentOffset), ed.starts, t.destination)
    ensures h == [] && page.operation == OpenPage ==> HistoryAfter(h, page.operation, page.currentOffset) == []
  {
    hide Pages.PageAt, RunBefore, Pushed, Linked, Increasing;
    LinkedIncreasing(ed.source, ed.layout, ed.starts);
    EmptyRun(ed.starts, t.destination);
    match page.operation {
      case NextPage => PushKeepsRun(h, ed.starts, t.shown);
      case PreviousPage => if h != [] { PopKeepsRun(h, ed.starts, t.shown); }
      case _ =>
    }
  }

  lemma PageShown(ed: Edition, m: nat, view: State, page: PageState)
    requires ed.Holds() && m < |ed.starts| && view == Pages.PageAt(ed.source, ed.layout, ed.starts[m])
    requires page.currentOffset == ed.starts[m] && page.nextOffset == view.next && page.endOfFile == view.endOfFile
    ensures view.status.PageReady? && Displays(ed.starts, page, m)
  {
    hide Pages.PageAt;
    if m + 1 < |ed.starts| {
      assert Follows(ed.source, ed.layout, ed.starts[m], ed.starts[m + 1]);
    }
  }

  // Only the page of a blank text is at once the first, the last and empty.
  lemma BlankPage(ed: Edition, m: nat)
    requires ed.Holds() && m < |ed.starts| && ed.starts[m] <= |ed.source|
    ensures var view := Pages.PageAt(ed.source, ed.layout, ed.starts[m]);
            view.empty && view.endOfFile && ed.starts[m] == 0 <==> Blank(ed.source)
  {
    hide Pages.PageAt, PageRows.Read, Pages.Visible, WellFormed, PageRows.Rows, PageRows.StopsAt;
    LinkedIncreasing(ed.source, ed.layout, ed.starts);
    PageRows.PageIsLaidOut(ed.source, ed.layout, 0);
    var first := Pages.PageAt(ed.source, ed.layout, 0);
    if first.endOfFile {
      assert ed.source[0..|ed.source|] == ed.source;
      PageRows.ReadBlank(ed.source);
    } else {
      PageRows.TurnedIsNotBlank(ed.source, ed.layout);
    }
  }

  lemma CompletedIsConsistent(ed: Edition, s: ReaderState, h: seq<nat>, t: Track, view: State)
    requires Consistent(ed, s, h, t) && s.request.busy && !s.request.waiting && !s.book.indexLookup
    requires s.page.operation == RebuildPrevious ==> t.loading == t.destination
    requires t.loading < |ed.starts| && ed.starts[t.loading] <= |ed.source|
    requires view == Pages.PageAt(ed.source, ed.layout, ed.starts[t.loading])
    ensures var s' := Completed(s, ed.starts[t.loading], view.next, view.endOfFile, view.empty);
            && t.loading == t.destination
            && Consistent(ed, s', HistoryAfter(h, s.page.operation, s.page.currentOffset),
                          t.(shown := t.destination))
  {
    hide RunBefore, Pages.PageAt, Linked, Displays, Pushed;
    OperationLands(ed, s.page, h, t);
    BlankPage(ed, t.loading);
    PageShown(ed, t.loading, view, Completed(s, ed.starts[t.loading], view.next, view.endOfFile, view.empty).page);
    if !s.userNavigated {
      assert s.page.operation == OpenPage;
    }
  }

  // What completing an operation leaves, apart from the page itself.
  lemma CompletedShows(starts: seq<nat>, s: ReaderState, t: Track, start: nat, next: nat, last: bool, empty: bool)
    requires t.destination < |starts| && start == starts[t.destination]
    ensures var s' := Completed(s, start, next, last, empty); var t' := t.(shown := t.destination);
            && s'.Showing() && !s'.request.busy && s'.request.waiting == s.request.waiting
            && s'.userNavigated == s.userNavigated && s'.file == s.file && s'.book.indexValid == s.book.indexValid
            && (Aims(starts, s, t) && s.book.indexValid ==> Counted(s', t'))
  {
  }

  // A page start belongs to one page only.
  lemma StartIsUnique(ed: Edition, i: nat, j: nat)
    requires ed.Holds() && i < |ed.starts| && j < |ed.starts| && ed.starts[i] == ed.starts[j]
    ensures i == j
  {
    hide Pages.PageAt;
    LinkedIncreasing(ed.source, ed.layout, ed.starts);
  }

  lemma StartInside(ed: Edition, i: nat)
    requires ed.Holds() && i < |ed.starts|
    ensures ed.starts[i] <= |ed.source|
  {
    hide Pages.PageAt;
    LinkedIncreasing(ed.source, ed.layout, ed.starts);
  }

  // What is known of the page shown when the user can leave it.
  lemma PageToLeave(ed: Edition, s: ReaderState, h: seq<nat>, t: Track)
    requires Consistent(ed, s, h, t) && s.page.status == ReadyView
    ensures !s.request.busy && s.page.positionValid && !s.book.indexLookup
    ensures t.shown < |ed.starts| && s.page.currentOffset == ed.starts[t.shown]
    ensures s.page.endOfFile <==> t.shown + 1 == |ed.starts|
    ensures !s.page.endOfFile ==> s.page.nextOffset == ed.starts[t.shown + 1]
    ensures s.page.currentOffset == 0 <==> t.shown == 0
    ensures RunBefore(h, ed.starts, t.shown)
    ensures s.book.indexPositionValid ==> s.page.currentNumber == t.shown
    ensures s.book.indexValid ==> s.page.totalCount == |ed.starts|
  {
    hide Underway, Pages.PageAt;
    LinkedIncreasing(ed.source, ed.layout, ed.starts);
    if s.book.indexPositionValid {
      StartIsUnique(ed, s.page.currentNumber, t.shown);
    }
  }

  // While something is under way there is nothing the user can leave.
  lemma BusyShowsNothing(ed: Edition, s: ReaderState, h: seq<nat>, t: Track)
    requires Consistent(ed, s, h, t)
    ensures s.request.busy ==> s.page.status == Loading
    ensures s.request.waiting ==> s.request.busy && !s.book.indexLookup
    ensures s.book.indexLookup ==> s.request.busy && s.userNavigated && s.book.waiting
    ensures !s.page.positionValid && !Abandoned(s) ==> h == []
    ensures s.Showing() ==> s.page.positionValid
  {
    hide Underway, Linked, Displays, RunBefore;
  }

  // Sending a request for content, or receiving its result.
  lemma RequestIsConsistent(ed: Edition, s: ReaderState, h: seq<nat>, t: Track, request: ContentRequest)
    requires Consistent(ed, s, h, t) && s.request.busy && request.busy && !s.book.indexLookup
    ensures Consistent(ed, s.(request := request), h, t)
  {
    hide Linked, RunBefore, Displays;
  }

  lemma HeldPage(ed: Edition, m: nat)
    requires ed.Holds() && m < |ed.starts| && ed.starts[m] <= |ed.source|
    ensures var view := Pages.PageAt(ed.source, ed.layout, ed.starts[m]);
            view.status.PageReady? && view.start == ed.starts[m] && (view.endOfFile || view.next > view.start)
  {
    hide Pages.PageAt;
    Pages.PageIsGood(ed.source, ed.layout, ed.starts[m]);
    if m + 1 < |ed.starts| {
      assert Follows(ed.source, ed.layout, ed.starts[m], ed.starts[m + 1]);
    }
  }

  // ----- Starting the user's operations

  // Marking the reader as used, and what query_index() notes before it sends anything.
  lemma NotedIsConsistent(ed: Edition, s: ReaderState, h: seq<nat>, t: Track, operation: Operation, requestId: nat)
    requires Consistent(ed, s, h, t) && s.page.status == ReadyView
    ensures Consistent(ed, Noted(s, operation, requestId), h, t)
  {
    hide Linked, RunBefore, Displays;
  }

  function Noted(s: ReaderState, operation: Operation, requestId: nat): ReaderState {
    s.(userNavigated := true, book := s.book.(indexedOperation := operation, requestId := requestId))
  }

  lemma NextCanStart(ed: Edition, s: ReaderState, h: seq<nat>, t: Track)
    requires Consistent(ed, s, h, t) && s.page.status == ReadyView && s.userNavigated && !s.page.endOfFile
    ensures CanStart(ed, s, h, t.(loading := t.shown + 1, destination := t.shown + 1), NextPage)
  {
    hide LookingUp, Linked;
    PageToLeave(ed, s, h, t);
  }

  lemma PreviousCanStart(ed: Edition, s: ReaderState, h: seq<nat>, t: Track)
    requires Consistent(ed, s, h, t) && s.page.status == ReadyView && s.userNavigated && s.page.currentOffset > 0
    ensures t.shown > 0
    ensures CanStart(ed, s, h, t.(loading := t.shown - 1, destination := t.shown - 1), PreviousPage)
    ensures h != [] ==> h[|h| - 1] == ed.starts[t.shown - 1]
  {
    hide LookingUp, Linked;
    PageToLeave(ed, s, h, t);
    if h != [] {
      PopKeepsRun(h, ed.starts, t.shown);
    }
  }

  lemma RebuildCanStart(ed: Edition, s: ReaderState, h: seq<nat>, t: Track)
    requires Consistent(ed, s, h, t) && s.page.status == ReadyView && s.userNavigated && s.page.currentOffset > 0
    requires h == []
    ensures t.shown > 0
    ensures CanStart(ed, s.(page := s.page.(rebuildTarget := s.page.currentOffset)), h,
                     t.(loading := 0, destination := t.shown - 1), RebuildPrevious)
  {
    hide LookingUp, Linked;
    PageToLeave(ed, s, h, t);
  }

  lemma AskedIsConsistent(ed: Edition, s: ReaderState, h: seq<nat>, t: Track)
    requires Consistent(ed, s, h, t) && s.page.status == ReadyView && s.userNavigated && s.page.currentOffset > 0
    requires h == [] && s.book.indexedOperation == PreviousPage && s.page.currentNumber == t.shown
    ensures t.shown > 0
    ensures Consistent(ed, Asked(s), h, t.(destination := t.shown - 1))
  {
    hide Linked;
    PageToLeave(ed, s, h, t);
  }

  lemma AimedCanStart(ed: Edition, s: ReaderState, h: seq<nat>, t: Track, operation: Operation, number: nat)
    requires CanStart(ed, s, h, t, operation) && number < |ed.starts|
    ensures CanStart(ed, Aimed(s, ed.starts[number], number), h, t, operation)
  {
    hide Underway, Linked, Displays, RunBefore;
  }

  lemma RebuildContinues(ed: Edition, s: ReaderState, h: seq<nat>, t: Track, view: State)
    requires Consistent(ed, s, h, t) && s.request.busy && !s.book.indexLookup
    requires s.page.operation == RebuildPrevious && t.loading < t.destination < |ed.starts|
    requires ed.starts[t.loading] <= |ed.source|
    requires view == Pages.PageAt(ed.source, ed.layout, ed.starts[t.loading])
    ensures t.loading + 1 < |ed.starts| && view.next == ed.starts[t.loading + 1] <= |ed.source|
    ensures Consistent(ed, s, Pushed(h, ed.starts[t.loading]), t.(loading := t.loading + 1))
  {
    hide RunBefore, Pages.PageAt, Pushed, Displays;
    RebuildGoesOn(ed, s.page, h, t, view);
  }

  // Where complete_page() stands when a rebuild's page has been read.
  lemma RebuildDecides(ed: Edition, s: ReaderState, h: seq<nat>, t: Track, view: State)
    requires Consistent(ed, s, h, t) && s.request.busy && !s.book.indexLookup
    requires s.page.operation == RebuildPrevious
    requires t.loading < |ed.starts| && ed.starts[t.loading] <= |ed.source|
    requires view == Pages.PageAt(ed.source, ed.layout, ed.starts[t.loading])
    ensures !view.endOfFile && t.loading <= t.destination < |ed.starts|
    ensures view.next < s.page.rebuildTarget <==> t.loading < t.destination
  {
    hide RunBefore, Pages.PageAt, Linked, Displays;
    RebuildGoesOn(ed, s.page, h, t, view);
  }

  // ----- Events from the book service

  // The service tells the truth about the page list: a resume offset is a page start, an
  // index announced as valid has the pages of the text, and a query is answered by looking
  // the request up in them, as the index engine does. A file given up is not opened again.
  ghost predicate Truthful(ed: Edition, s: ReaderState, e: BookEvent) {
    && (e.kind == Opened && e.contentReady ==> e.progress.byteOffset in ed.starts && !Abandoned(s))
    && (e.kind == IndexReady && e.indexValid ==>
          e.pageCount == |ed.starts| && e.progress.page < |ed.starts| &&
          e.progress.byteOffset == ed.starts[e.progress.page])
    && (e.kind == Position && e.indexValid && s.book.waiting && e.requestId == s.book.requestId ==>
          IsAnswer(ed, s, e.progress))
  }

  // What query_index() asked for: the number of the page before the one shown and the offset
  // shown, to be looked up by number if the page is to be loaded.
  predicate IsRequest(s: ReaderState, request: Progress) {
    request.byteOffset == s.book.queriedOffset && (s.book.indexLookup ==> request.page + 1 == s.page.currentNumber)
  }

  // What locate() finds for it in the page list.
  ghost predicate IsAnswer(ed: Edition, s: ReaderState, progress: Progress) {
    ed.starts != [] &&
    exists request :: IsRequest(s, request) &&
      (progress.page, progress.byteOffset) == Located(ed.starts, |ed.source|, request, s.book.indexLookup)
  }

  // The answer to a lookup is the page asked for; the answer for the page shown is that page.
  lemma AnswerNames(ed: Edition, s: ReaderState, t: Track, progress: Progress)
    requires IsAnswer(ed, s, progress)
    ensures progress.page < |ed.starts| && progress.byteOffset == ed.starts[progress.page]
    ensures s.book.indexLookup && s.page.currentNumber <= |ed.starts| ==> progress.page + 1 == s.page.currentNumber
    ensures (!s.book.indexLookup && ed.Holds() && s.page.positionValid && Displays(ed.starts, s.page, t.shown)
             && s.book.queriedOffset == s.page.currentOffset) ==> progress.page == t.shown
  {
    hide Pages.PageAt;
    if !s.book.indexLookup && ed.Holds() && s.page.positionValid && Displays(ed.starts, s.page, t.shown) &&
       s.book.queriedOffset == s.page.currentOffset
    {
      LinkedIncreasing(ed.source, ed.layout, ed.starts);
      assert IsPageOf(ed.starts, Target(s.book.queriedOffset, |ed.source|), t.shown);
      PageOfUnique(ed.starts, Target(s.book.queriedOffset, |ed.source|), t.shown);
    }
  }

  // What can come to the reader from the rest of the system: its turn to run, a stretch of
  // the file, and an event of the book service.
  datatype Turn =
    | Running(media: bool, bookLate: bool, late: bool, accepted: bool)
    | FileResult(id: nat, offset: nat, data: seq<byte>, endOfFile: bool, file: FileStamp, ok: bool)
    | BookNews(e: BookEvent)

  ghost predicate Honest(ed: Edition, epub: bool, s: ReaderState, turn: Turn) {
    match turn
    case Running(_, _, _, _) => true
    case FileResult(id, offset, data, endOfFile, file, ok) =>
      s.request.waiting && id == s.request.id && offset == s.request.requestedOffset && ok && !Changed(s, epub, file)
      ==> Serves(ed, offset, data, endOfFile)
    case BookNews(e) => (!e.failed && e.contentReady && Changed(s, epub, e.file)) || Truthful(ed, s, e)
  }

  // The event answers the lookup under way.
  predicate AnswersLookup(s: ReaderState, e: BookEvent) {
    && s.book.submitted && !e.failed && e.kind == Position && e.requestId == s.book.requestId
    && e.indexValid && e.pageCount == s.page.totalCount && e.progress.page < s.page.totalCount
  }

  // Notes about the index leave everything else alone.
  function IndexNoted(s: ReaderState, valid: bool, count: nat): ReaderState {
    s.(page := s.page.(totalCount := count), book := s.book.(indexValid := valid))
  }

  lemma IndexNotedIsConsistent(ed: Edition, s: ReaderState, h: seq<nat>, t: Track, valid: bool, count: nat)
    requires Consistent(ed, s, h, t) && (valid ==> count == |ed.starts|)
    ensures Consistent(ed, IndexNoted(s, valid, count), h, t)
  {
    hide Linked, RunBefore;
  }

  lemma ContentReadyIsConsistent(ed: Edition, s: ReaderState, h: seq<nat>, t: Track)
    requires Consistent(ed, s, h, t)
    ensures Consistent(ed, s.(book := s.book.(contentReady := true)), h, t)
  {
    hide Linked, RunBefore;
  }

  // The index names the page shown.
  function Numbered(s: ReaderState, number: nat): ReaderState {
    s.(page := s.page.(currentNumber := number),
       book := s.book.(indexPositionValid := true, targetValid := false))
  }

  lemma NumberedIsConsistent(ed: Edition, s: ReaderState, h: seq<nat>, t: Track, number: nat)
    requires Consistent(ed, s, h, t) && !s.book.indexLookup
    requires number < |ed.starts| && s.page.currentOffset == ed.starts[number]
    ensures Consistent(ed, Numbered(s, number), h, t)
  {
    hide Linked, RunBefore;
  }

  // The index names a page to go to.
  function Targeted(s: ReaderState, offset: nat, number: nat): ReaderState {
    s.(book := s.book.(targetOffset := offset, targetPage := number, targetValid := true))
  }

  lemma TargetedIsConsistent(ed: Edition, s: ReaderState, h: seq<nat>, t: Track, number: nat)
    requires Consistent(ed, s, h, t) && number < |ed.starts|
    ensures Consistent(ed, Targeted(s, ed.starts[number], number), h, t)
  {
    hide Linked, RunBefore, Displays;
  }

  lemma TargetedCanStart(ed: Edition, s: ReaderState, h: seq<nat>, t: Track, operation: Operation, number: nat)
    requires CanStart(ed, s, h, t, operation) && number < |ed.starts|
    ensures CanStart(ed, Targeted(s, ed.starts[number], number), h, t, operation)
  {
    hide Underway, Linked, Displays, RunBefore;
  }

  // An index query that concerned only the page shown is over.
  lemma AnsweredIsConsistent(ed: Edition, s: ReaderState, h: seq<nat>, t: Track)
    requires Consistent(ed, s, h, t)
    ensures Settled(ed, Answered(s), h, t)
    ensures !s.book.indexLookup ==> Consistent(ed, Answered(s), h, t)
  {
    hide Linked, RunBefore, Displays;
  }

  function Answered(s: ReaderState): ReaderState {
    s.(book := s.book.(waiting := false, indexLookup := false))
  }

  // query_index() by offset.
  function Queried(s: ReaderState, accepted: bool): ReaderState {
    s.(book := s.book.(requestId := s.book.requestId + 1, waiting := accepted || s.book.waiting,
                       queriedOffset := if accepted then s.page.currentOffset else s.book.queriedOffset))
  }

  lemma QueriedIsConsistent(ed: Edition, s: ReaderState, h: seq<nat>, t: Track, accepted: bool)
    requires Consistent(ed, s, h, t)
    ensures Consistent(ed, Queried(s, accepted), h, t)
  {
    hide Linked, RunBefore, Displays;
  }

  // The index is given up.
  function WithoutIndex(s: ReaderState): ReaderState {
    s.(book := s.book.(indexValid := false, indexPositionValid := false))
  }

  lemma WithoutIndexIsConsistent(ed: Edition, s: ReaderState, h: seq<nat>, t: Track)
    requires Settled(ed, s, h, t)
    ensures Settled(ed, WithoutIndex(s), h, t)
    ensures Moving(ed, s, h, t) ==> Moving(ed, WithoutIndex(s), h, t)
  {
    hide Linked, RunBefore, Displays;
  }

  // The page the index names can be started in place of the one shown.
  lemma FoundCanStart(ed: Edition, s: ReaderState, h: seq<nat>, t: Track)
    requires Consistent(ed, s, h, t) && s.book.indexLookup
    ensures t.destination < |ed.starts| && t.destination + 1 == s.page.currentNumber
    ensures CanStart(ed, Answered(s), h, t.(loading := t.destination), PreviousPage)
    ensures s.request.busy && s.userNavigated && s.book.indexedOperation == PreviousPage
  {
    hide Linked;
  }

  lemma OpenCanStart(ed: Edition, s: ReaderState, h: seq<nat>, t: Track, number: nat)
    requires Settled(ed, s, h, t) && !s.book.indexLookup && number < |ed.starts|
    ensures CanStart(ed, s, [], t.(loading := number, destination := number), OpenPage)
  {
    hide Linked, RunBefore;
  }

  // ----- The class

  class Reader {
    const paginator: ReaderPaginator
    const history: PageHistory
    const epub: bool
    const layout: Layout
    var state: ReaderState

    // The text being read and where the reader is in it: for the proof only.
    ghost const ed: Edition
    ghost var track: Track

    ghost predicate Shape()
      reads paginator, paginator.text, paginator.lines, paginator.pending, history
    {
      && paginator.Valid() && history.Valid()
      && history.offsets !in paginator.Repr()
      && ed.layout == layout && ed.Holds()
    }

    // The paginator has read the text from page m on, up to its read offset.
    ghost predicate ReadsPage(m: nat)
      reads paginator, paginator.text, paginator.lines, paginator.pending
      requires paginator.Valid()
    {
      && m < |ed.starts| && ed.starts[m] <= |ed.source|
      && Fed(paginator.View(), ed.source, ed.layout, ed.starts[m])
    }

    // The paginator holds page m.
    ghost predicate HoldsPage(m: nat)
      reads paginator, paginator.text, paginator.lines, paginator.pending
      requires paginator.Valid()
    {
      && m < |ed.starts| && ed.starts[m] <= |ed.source|
      && paginator.View() == Pages.PageAt(ed.source, ed.layout, ed.starts[m])
    }

    // The paginator reads the page being loaded, and an outstanding request asks for what it
    // needs next.
    ghost predicate Fetches()
      reads this`state, this`track
      reads paginator, paginator.text, paginator.lines, paginator.pending
      requires paginator.Valid()
    {
      && (state.request.busy && !state.book.indexLookup ==> ReadsPage(track.loading))
      && (state.request.waiting ==> state.request.requestedOffset == paginator.inputOffset)
    }

    ghost predicate Navigates()
      reads this`state, this`track, history, history.offsets
      requires history.Valid()
    {
      Consistent(ed, state, history.Entries(), track)
    }

    ghost predicate Valid()
      reads this, paginator, paginator.text, paginator.lines, paginator.pending, history, history.offsets
    {
      Shape() && Navigates() && Fetches()
    }

    // on_open(): a text starts with the page at 0, an EPUB waits until its text exists.
    constructor (epub: bool, layout: Layout, submitted: bool, ghost ed: Edition)
      requires ed.Holds() && ed.layout == layout
      ensures Valid() && state.request.busy == !epub && !state.userNavigated
      ensures this.ed == ed && this.epub == epub && this.layout == layout
    {
      hide Linked;
      paginator := new ReaderPaginator(0, layout);
      history := new PageHistory();
      this.epub, this.layout := epub, layout;
      state := ReaderState(
        PageState(0, 0, 0, 0, 0, Loading, OpenPage, false, false),
        BookState(submitted, false, false, false, false, false, OpenPage, 0, 0, false, 0, 0),
        ContentRequest(0, 0, !epub, false), false, None);
      this.ed, track := ed, Track(0, 0, 0);
      new;
      StartsWithPage(ed);
      ResetFed(ed.source, layout, 0);
    }

    // ----- The paginator

    method ResetPaginator(offset: nat, ghost m: nat)
      requires Shape() && m < |ed.starts| && offset == ed.starts[m] <= |ed.source|
      modifies paginator.Repr()
      ensures Shape() && ReadsPage(m) && paginator.inputOffset == offset
    {
      hide Fed, Linked;
      ResetFed(ed.source, layout, offset);
      paginator.ResetTo(offset, layout);
    }

    // feed() with the next stretch of the text.
    method FeedPaginator(data: seq<byte>, endOfFile: bool, ghost m: nat) returns (status: Status)
      requires Shape() && ReadsPage(m)
      requires Serves(ed, paginator.inputOffset, data, endOfFile)
      modifies paginator.Repr()
      ensures Shape()
      ensures status.NeedData? ==>
                !endOfFile && ReadsPage(m) && paginator.inputOffset == old(paginator.inputOffset) + |data|
      ensures !status.NeedData? ==> HoldsPage(m) && status == paginator.status
    {
      hide Fed, Linked, Pages.PageAt, Feed;
      FeedMeetsPage(paginator.View(), ed.source, ed.layout, ed.starts[m], paginator.inputOffset + |data|);
      FeedStopped(paginator.View(), data, endOfFile);
      status := paginator.FeedData(data, endOfFile);
    }

    // ----- Starting pages

    // fail()
    method Fail()
      requires Shape() && Settled(ed, state, history.Entries(), track)
      modifies this`state
      ensures Valid() && state == Failed(old(state))
      ensures state.page.status == ErrorView && !state.request.busy && !state.request.waiting
      ensures !state.book.indexLookup && !state.book.waiting && !state.book.indexPositionValid
    {
      hide Consistent, Settled, Moving, ReadsPage, Linked;
      FailedIsConsistent(ed, state, history.Entries(), track);
      state := Failed(state);
    }

    // start_page(), for page t.loading on the way to page t.destination.
    method StartPage(offset: nat, operation: Operation, ghost t: Track)
      requires Shape() && CanStart(ed, state, history.Entries(), t, operation)
      requires t.loading < |ed.starts| && offset == ed.starts[t.loading]
      modifies this`state, this`track, paginator.Repr()
      ensures Valid() && state == Started(old(state), operation) && track == t
    {
      hide Consistent, CanStart, ReaderPaginator.Valid;
      StartedIsConsistent(ed, state, history.Entries(), t, operation);
      state := Started(state, operation);
      track := t;
      ResetPaginator(offset, t.loading);
    }

    // start_indexed_page()
    method StartIndexedPage(offset: nat, operation: Operation, number: nat, ghost t: Track)
      requires Shape() && CanStart(ed, state, history.Entries(), t, operation)
      requires number == t.loading < |ed.starts| && offset == ed.starts[t.loading]
      modifies this`state, this`track, paginator.Repr()
      ensures Valid() && state == Started(Aimed(old(state), offset, number), operation) && track == t
    {
      hide Consistent, CanStart, Fetches, ReaderPaginator.Valid;
      AimedCanStart(ed, state, history.Entries(), t, operation, number);
      state := Aimed(state, offset, number);
      StartPage(offset, operation, t);
    }

    // ----- User actions

    // handle_action(), next zone: the page after the one shown.
    method Next()
      requires Valid()
      modifies this`state, this`track, paginator.Repr()
      ensures Valid()
      ensures if old(state).page.status == ReadyView && !old(state).page.endOfFile then
                && state.request.busy && state.userNavigated && state.page.operation == NextPage
                && !state.request.waiting && !state.book.indexLookup
                && track.shown == old(track).shown && track.destination == old(track).shown + 1
                && state.book.indexValid == old(state).book.indexValid
                && (old(state).book.indexValid && old(state).book.indexPositionValid && !old(state).book.waiting ==>
                      Aims(ed.starts, state, track))
              else state == old(state) && track == old(track)
      ensures state.file == old(state).file
    {
      hide Settled, Moving, CanStart, Fetches, ReaderPaginator.Valid, Linked;
      ghost var h := history.Entries();
      BusyShowsNothing(ed, state, h, track);
      if state.request.busy || state.page.status != ReadyView || state.page.endOfFile {
        return;
      }
      NotedIsConsistent(ed, state, h, track, state.book.indexedOperation, state.book.requestId);
      state := state.(userNavigated := true);
      PageToLeave(ed, state, h, track);
      NextCanStart(ed, state, h, track);
      ghost var t := track.(loading := track.shown + 1, destination := track.shown + 1);
      var page, book := state.page, state.book;
      if book.indexValid && book.indexPositionValid && !book.waiting && page.currentNumber + 1 < page.totalCount {
        StartIndexedPage(page.nextOffset, NextPage, page.currentNumber + 1, t);
      } else {
        StartPage(page.nextOffset, NextPage, t);
      }
    }

    // handle_action(), previous zone: the page before the one shown, from the history, by
    // asking the index, or by reading forward from the start. `accepted` is whether the book
    // service takes the request.
    method Previous(accepted: bool)
      requires Valid()
      modifies this`state, this`track, paginator.Repr()
      ensures Valid()
      ensures if old(state).page.status == ReadyView && old(state).page.currentOffset > 0 then
                && state.request.busy && !state.request.waiting && state.userNavigated
                && track.shown == old(track).shown && track.destination + 1 == old(track).shown
                && state.book.indexValid == old(state).book.indexValid
                && (state.book.indexLookup ==> LookupSent())
                && (old(state).book.indexValid && old(state).book.indexPositionValid ==>
                      if history.Entries() != [] then !state.book.indexLookup && Aims(ed.starts, state, track)
                      else accepted && old(state).book.submitted && !old(state).book.waiting ==>
                             state.book.indexLookup)
                && (state.book.indexLookup ||
                    state.page.operation == if history.Entries() != [] then PreviousPage else RebuildPrevious)
              else state == old(state) && track == old(track)
      ensures state.file == old(state).file
    {
      hide Settled, Moving, CanStart, Fetches, ReaderPaginator.Valid, Linked;
      ghost var h := history.Entries();
      BusyShowsNothing(ed, state, h, track);
      if state.request.busy || state.page.status != ReadyView || state.page.currentOffset == 0 {
        return;
      }
      NotedIsConsistent(ed, state, h, track, state.book.indexedOperation, state.book.requestId);
      state := state.(userNavigated := true);
      PageToLeave(ed, state, h, track);
      var found, previous := history.Previous();
      if found {
        PreviousCanStart(ed, state, h, track);
        ghost var t := track.(loading := track.shown - 1, destination := track.shown - 1);
        if state.book.indexValid && state.book.indexPositionValid && state.page.currentNumber > 0 {
          StartIndexedPage(previous, PreviousPage, state.page.currentNumber - 1, t);
        } else {
          StartPage(previous, PreviousPage, t);
        }
      } else {
        PreviousWithoutHistory(accepted);
      }
    }

    method PreviousWithoutHistory(accepted: bool)
      requires Shape() && Navigates() && history.Entries() == []
      requires state.page.status == ReadyView && state.page.currentOffset > 0 && state.userNavigated
      modifies this`state, this`track, paginator.Repr()
      ensures Valid() && state.request.busy && !state.request.waiting && state.userNavigated
      ensures track.shown == old(track).shown && track.destination + 1 == old(track).shown
      ensures state.book.indexLookup || state.page.operation == RebuildPrevious
      ensures state.book.indexLookup ==> LookupSent()
      ensures state.book.indexValid == old(state).book.indexValid
      ensures old(state).book.indexValid && old(state).book.indexPositionValid && accepted &&
              old(state).book.submitted && !old(state).book.waiting ==>
                state.book.indexLookup
      ensures state.file == old(state).file
    {
      hide Settled, Moving, CanStart, ReaderPaginator.Valid, Linked, ReadsPage;
      PageToLeave(ed, state, [], track);
      if state.book.indexValid && state.book.indexPositionValid && !state.book.waiting && state.page.currentNumber > 0 {
        NotedIsConsistent(ed, state, [], track, PreviousPage, state.book.requestId);
        state := state.(book := state.book.(indexedOperation := PreviousPage));
        var sent := QueryPage(state.page.currentNumber - 1, accepted);
        if sent {
          return;
        }
      }
      RebuildCanStart(ed, state, [], track);
      state := state.(page := state.page.(rebuildTarget := state.page.currentOffset));
      StartsWithPage(ed);
      StartPage(0, RebuildPrevious, track.(loading := 0, destination := track.shown - 1));
    }

    // A query for the previous page has gone to the index.
    ghost predicate LookupSent()
      reads this`state, this`track
    {
      && state.book.submitted && state.book.indexLookup && state.book.waiting && state.book.indexValid
      && state.page.totalCount == |ed.starts|
      && state.book.queriedOffset == state.page.currentOffset <= |ed.source|
      && track.destination + 1 == state.page.currentNumber <= |ed.starts|
    }

    // query_index() by page.
    method QueryPage(number: nat, accepted: bool) returns (sent: bool)
      requires Shape() && Navigates() && history.Entries() == []
      requires state.page.status == ReadyView && state.page.currentOffset > 0 && state.userNavigated
      requires state.book.indexedOperation == PreviousPage && number + 1 == track.shown
      modifies this`state, this`track
      ensures sent == (accepted && old(state).book.indexValid && !old(state).book.waiting && old(state).book.submitted)
      requires number + 1 == state.page.currentNumber
      ensures sent ==> Valid() && LookupSent() && state.request.busy && !state.request.waiting && state.userNavigated
      ensures sent ==> track == old(track).(destination := number) && state.file == old(state).file
      ensures sent ==> state.book.indexValid == old(state).book.indexValid
      ensures sent ==> state.book.requestId == old(state).book.requestId + 1 && state.book.waiting
      ensures !sent ==> Navigates() && track == old(track) &&
                        state == old(state).(book := old(state).book.(requestId := state.book.requestId))
    {
      hide Settled, Moving, ReaderPaginator.Valid, Linked, ReadsPage;
      if !state.book.indexValid || state.book.waiting || !state.book.submitted {
        return false;
      }
      NotedIsConsistent(ed, state, [], track, PreviousPage, state.book.requestId + 1);
      state := state.(book := state.book.(requestId := state.book.requestId + 1));
      if !accepted {
        return false;
      }
      PageToLeave(ed, state, [], track);
      StartInside(ed, track.shown);
      AskedIsConsistent(ed, state, [], track);
      state := Asked(state);
      track := track.(destination := number);
      return true;
    }

    // ----- Reading pages

    // on_running(): asks storage for what the paginator needs next.
    method RequestChunk(accepted: bool)
      requires Valid()
      modifies this`state
      ensures Valid() && KeepsCourse(old(state), track, state, track)
      ensures var s := old(state);
              var asked := s.(request := ContentRequest(s.request.id + 1, paginator.inputOffset, true, true));
              state == if !s.request.busy || s.book.indexLookup || s.request.waiting then s
                       else if accepted then asked else Failed(asked)
      ensures old(state).request.busy && !old(state).book.indexLookup && !old(state).request.waiting && !accepted ==>
                state.page.status == ErrorView
      ensures state.file == old(state).file
    {
      hide ReaderPaginator.Valid, Linked, ReadsPage, Settled;
      if !state.request.busy || state.book.indexLookup || state.request.waiting {
        return;
      }
      RequestIsConsistent(ed, state, history.Entries(), track,
                          ContentRequest(state.request.id + 1, paginator.inputOffset, true, true));
      state := state.(request := ContentRequest(state.request.id + 1, paginator.inputOffset, true, true));
      if !accepted {
        Fail();
      }
    }

    // handle_result(): feeds the page being loaded with the bytes of the file.
    method HandleResult(id: nat, offset: nat, data: seq<byte>, endOfFile: bool, file: FileStamp, ok: bool)
      requires Valid()
      requires Awaits(id, offset) && ok && !Changed(state, epub, file) ==> Serves(ed, offset, data, endOfFile)
      modifies this`state, this`track, paginator.Repr(), history, history.offsets
      ensures Valid() && KeepsCourse(old(state), old(track), state, track)
      ensures !old(Awaits(id, offset)) ==> state == old(state) && track == old(track)
      ensures old(Awaits(id, offset)) ==> !state.request.waiting
      ensures old(Awaits(id, offset)) && ok && Fits(offset, data, endOfFile, file) ==>
                if old(Changed(state, epub, file)) then state == Lost(old(state)) && track == old(track)
                else state.page.status != ErrorView && state.file == Seen(old(state), file).file
      ensures old(Awaits(id, offset)) && !(ok && Fits(offset, data, endOfFile, file)) ==>
                state == Failed(old(state)) && track == old(track)
      ensures state.page.status != ErrorView ==> state.book.indexValid == old(state).book.indexValid
      ensures old(Awaits(id, offset)) && state.request.busy ==> state.book == old(state).book
      ensures old(Awaits(id, offset)) && state.Showing() && old(Aims(ed.starts, state, track)) &&
              state.book.indexValid ==>
                Counted(state, track)
      ensures old(Awaits(id, offset)) && state.request.busy ==>
                && !state.book.indexLookup && track.destination == old(track).destination
                && (track.loading == old(track).loading + 1 ||
                    (track.loading == old(track).loading &&
                     paginator.inputOffset == old(paginator.inputOffset) + |data| && data != []))
    {
      hide ReaderPaginator.Valid, Linked, ReadsPage, Settled, Moving, Serves, Pages.PageAt;
      if !state.request.waiting || id != state.request.id || offset != state.request.requestedOffset {
        return;
      }
      BusyShowsNothing(ed, state, history.Entries(), track);
      RequestIsConsistent(ed, state, history.Entries(), track, state.request.(waiting := false));
      state := state.(request := state.request.(waiting := false));
      if !ok || offset > file.size || |data| > file.size - offset || (data == [] && !endOfFile) {
        Fail();
        return;
      }
      if Changed(state, epub, file) {
        LostIsConsistent(ed, state, history.Entries(), track);
        state := Lost(state);
        return;
      }
      SeenIsConsistent(ed, state, history.Entries(), track, file);
      state := Seen(state, file);
      var status := FeedPaginator(data, endOfFile, track.loading);
      if status.PageReady? {
        CompletePage();
      } else if status.InvalidUtf8? {
        HeldPage(ed, track.loading);
        assert false;
      }
    }

    // What storage says of a stretch of the file makes sense.
    predicate Fits(offset: nat, data: seq<byte>, endOfFile: bool, file: FileStamp) {
      offset <= file.size && |data| <= file.size - offset && (data != [] || endOfFile)
    }

    ghost predicate Awaits(id: nat, offset: nat)
      reads this`state
    {
      state.request.waiting && id == state.request.id && offset == state.request.requestedOffset
    }

    // page(): what the paginator holds.
    method CurrentPage(ghost m: nat) returns (start: nat, next: nat, last: bool, empty: bool)
      requires Shape() && HoldsPage(m)
      ensures var view := Pages.PageAt(ed.source, ed.layout, ed.starts[m]);
              start == view.start && next == view.next && last == view.endOfFile && empty == view.empty
    {
      hide Linked, Pages.PageAt;
      return paginator.start, paginator.next, paginator.endOfFile, paginator.empty;
    }

    // A rebuild's page is remembered and the one after it is started.
    method ContinueRebuild(start: nat, next: nat)
      requires Shape() && Navigates() && state.request.busy && !state.request.waiting && !state.book.indexLookup
      requires state.page.operation == RebuildPrevious && HoldsPage(track.loading)
      requires start == ed.starts[track.loading]
      requires next == Pages.PageAt(ed.source, ed.layout, start).next && track.loading < track.destination < |ed.starts|
      modifies this`track, paginator.Repr(), history, history.offsets
      ensures Valid() && track == old(track).(loading := old(track).loading + 1)
    {
      hide ReaderPaginator.Valid, Linked, ReadsPage, Consistent, Pages.PageAt;
      RebuildContinues(ed, state, history.Entries(), track, Pages.PageAt(ed.source, ed.layout, start));
      history.Push(start);
      track := track.(loading := track.loading + 1);
      ResetPaginator(next, track.loading);
    }

    // complete_page(): goes on with a rebuild, or shows the page the operation was for.
    method CompletePage()
      requires Shape() && Navigates() && state.request.busy && !state.request.waiting && !state.book.indexLookup
      requires HoldsPage(track.loading)
      modifies this`state, this`track, paginator.Repr(), history, history.offsets
      ensures Valid()
      ensures state.request.busy ==> state == old(state) && track == old(track).(loading := old(track).loading + 1)
      ensures !state.request.busy ==>
                && state.Showing() && !state.request.waiting && state.userNavigated == old(state).userNavigated
                && state.file == old(state).file && track == old(track).(shown := old(track).destination)
                && state.book.indexValid == old(state).book.indexValid
                && (old(Aims(ed.starts, state, track)) && state.book.indexValid ==> Counted(state, track))
    {
      hide ReaderPaginator.Valid, Linked, ReadsPage, Consistent, Pages.PageAt, Completed, Aims, Counted;
      var start, next, last, empty := CurrentPage(track.loading);
      HeldPage(ed, track.loading);
      ghost var view := Pages.PageAt(ed.source, ed.layout, ed.starts[track.loading]);
      if !last && next <= start {
        assert false;
      }
      ghost var h := history.Entries();
      if state.page.operation == RebuildPrevious {
        RebuildDecides(ed, state, h, track, view);
      }
      if state.page.operation == RebuildPrevious && next < state.page.rebuildTarget && !last {
        ContinueRebuild(start, next);
        return;
      }
      CompletedIsConsistent(ed, state, h, track, view);
      CompletedShows(ed.starts, state, track, start, next, last, empty);
      NoteHistory();
      state := Completed(state, start, next, last, empty);
      track := track.(shown := track.destination);
    }

    // What complete_page() does to the history.
    method NoteHistory()
      requires Shape()
      modifies history, history.offsets
      ensures Shape()
      ensures history.Entries() == HistoryAfter(old(history.Entries()), state.page.operation, state.page.currentOffset)
    {
      hide ReaderPaginator.Valid, Linked, Pushed;
      if state.page.operation == NextPage {
        history.Push(state.page.currentOffset);
      } else if state.page.operation == PreviousPage {
        history.Pop();
      }
    }

    // ----- Events

    // handle_book_event()
    method HandleBookEvent(e: BookEvent)
      requires Valid() && (Notices(e) || Truthful(ed, state, e))
      modifies this`state, this`track, paginator.Repr(), history
      ensures Valid() && KeepsCourse(old(state), old(track), state, track)
      ensures old(state).book.submitted && old(Notices(e)) ==>
                state == Lost(WithoutIndex(old(state))) && track == old(track)
      ensures state.file == if old(state).book.submitted && e.kind == Opened && e.contentReady && !e.failed
                            then Seen(old(state), e.file).file else old(state).file
      ensures old(state).book.submitted && !e.failed && !old(Notices(e)) && e.kind == IndexReady ==> IndexTaken(e)
      ensures old(state).book.indexLookup && !state.book.indexLookup && state.page.status != ErrorView ==>
                state.request.busy && !state.request.waiting && state.page.operation == PreviousPage &&
                track == old(track).(loading := old(track).destination) && Aims(ed.starts, state, track) &&
                state.book.indexValid == old(state).book.indexValid
      ensures old(NumbersPage(e)) ==> Counted(state, track) && track == old(track) && state.Showing()
      ensures old(state).book.submitted && (e.failed || old(Notices(e))) ==>
                !state.book.indexValid && !state.book.indexPositionValid && !state.book.waiting
      ensures old(state).book.indexLookup && AnswersLookup(old(state), e) && !old(Notices(e)) ==>
                !state.book.indexLookup && state.page.status != ErrorView
    {
      hide ReaderPaginator.Valid, Linked, ReadsPage, Settled, Moving;
      if !state.book.submitted {
        return;
      }
      BusyShowsNothing(ed, state, history.Entries(), track);
      if e.failed {
        HandleFailure();
      } else if e.contentReady && Changed(state, epub, e.file) {
        WithoutIndexIsConsistent(ed, state, history.Entries(), track);
        LostIsConsistent(ed, WithoutIndex(state), history.Entries(), track);
        state := Lost(WithoutIndex(state));
      } else if e.kind == Opened {
        HandleOpened(e);
      } else if e.kind == IndexReady {
        HandleReady(e);
      } else if e.kind == Position && state.book.waiting && e.requestId == state.book.requestId {
        HandlePosition(e);
      }
    }

    // The event answers the query for the number of the page shown.
    predicate NumbersPage(e: BookEvent)
      reads this`state
    {
      && state.book.submitted && !e.failed && !Notices(e) && e.kind == Position
      && state.book.waiting && e.requestId == state.book.requestId && !state.book.indexLookup
      && e.indexValid && e.pageCount == state.page.totalCount && e.progress.page < e.pageCount
      && state.Showing() && !state.request.busy && state.book.queriedOffset == state.page.currentOffset
    }

    // The event tells of a file that has changed.
    predicate Notices(e: BookEvent)
      reads this`state
    {
      !e.failed && e.contentReady && Changed(state, epub, e.file)
    }

    // The book service reports an error.
    method HandleFailure()
      requires Valid()
      modifies this`state
      ensures Valid() && KeepsCourse(old(state), track, state, track)
      ensures if old(state).book.indexLookup || (epub && !old(state).book.contentReady)
              then state.page.status == ErrorView
              else state.page == old(state).page && state.request == old(state).request
      ensures !state.book.indexValid && !state.book.indexPositionValid && !state.book.waiting
      ensures state.file == old(state).file
    {
      hide ReaderPaginator.Valid, Linked, ReadsPage, Settled, Moving;
      AnsweredIsConsistent(ed, state, history.Entries(), track);
      var lookup := state.book.indexLookup;
      state := Answered(state);
      WithoutIndexIsConsistent(ed, state, history.Entries(), track);
      state := WithoutIndex(state);
      if (epub && !state.book.contentReady) || lookup {
        Fail();
      }
    }

    method HandleOpened(e: BookEvent)
      requires Valid() && Truthful(ed, state, e) && e.kind == Opened
      modifies this`state, this`track, paginator.Repr(), history
      ensures Valid() && KeepsCourse(old(state), old(track), state, track)
      ensures old(state).book.indexLookup ==> state.book.indexLookup
      ensures !e.contentReady ==> state == old(state) && track == old(track)
      ensures e.contentReady ==>
                var ready := Seen(old(state).(book := old(state).book.(contentReady := true)), e.file);
                if old(Resumes(e)) then OpenedAt(ready, e.progress.byteOffset)
                else state == ready && track == old(track) && history.Entries() == old(history.Entries())
    {
      hide ReaderPaginator.Valid, Linked, ReadsPage, Settled, Moving;
      if !e.contentReady {
        return;
      }
      BusyShowsNothing(ed, state, history.Entries(), track);
      ContentReadyIsConsistent(ed, state, history.Entries(), track);
      state := state.(book := state.book.(contentReady := true));
      SeenIsConsistent(ed, state, history.Entries(), track, e.file);
      state := Seen(state, e.file);
      if !state.userNavigated && 0 < e.progress.byteOffset < e.file.size {
        OpenAt(e.progress.byteOffset, true);
      } else if epub && !state.page.positionValid && !state.request.busy {
        OpenAt(e.progress.byteOffset, false);
      }
    }

    // The saved position opens the reader, or, with the text of an EPUB there, its first page.
    predicate Resumes(e: BookEvent)
      reads this`state
    {
      || (!state.userNavigated && 0 < e.progress.byteOffset < e.file.size)
      || (epub && !state.page.positionValid && !state.request.busy)
    }

    // The page at this offset is being opened, with an empty history.
    ghost predicate OpenedAt(before: ReaderState, offset: nat)
      reads this`state, this`track, history, history.offsets
      requires history.Valid()
    {
      && state == Started(before, OpenPage) && history.Entries() == []
      && track.loading == track.destination < |ed.starts| && ed.starts[track.destination] == offset
    }

    // start_page() for a page the book service names, with an empty history.
    method OpenAt(offset: nat, clear: bool)
      requires Shape() && Navigates() && !state.book.indexLookup
      requires offset in ed.starts && (clear || history.Entries() == [])
      modifies this`state, this`track, paginator.Repr(), history
      ensures Valid() && state == Started(old(state), OpenPage)
      ensures history.Entries() == []
      ensures track.loading == track.destination < |ed.starts| && ed.starts[track.destination] == offset
    {
      hide ReaderPaginator.Valid, Linked, ReadsPage, Settled, Moving, CanStart;
      ghost var number :| 0 <= number < |ed.starts| && ed.starts[number] == offset;
      OpenCanStart(ed, state, history.Entries(), track, number);
      if clear {
        history.Clear();
      }
      StartPage(offset, OpenPage, track.(loading := number, destination := number));
    }

    // What a reader makes of the news that the index is ready: one that has not been used goes
    // to the page named, or numbers it if it is the page shown; any other notes the page count.
    twostate predicate IndexTaken(e: BookEvent)
      requires old(history.Valid()) && history.Valid()
      reads this`state, this`track, history, history.offsets
    {
      var valid := e.indexValid && e.pageCount > 0 && e.progress.page < e.pageCount;
      var noted := IndexNoted(old(state), valid, if valid then e.pageCount else 0);
      if !valid || old(state).userNavigated then
        && state == noted && track == old(track) && history.Entries() == old(history.Entries())
      else if old(state).page.positionValid && !old(state).request.busy
              && old(state).page.currentOffset == e.progress.byteOffset then
        && state == Numbered(Targeted(noted, e.progress.byteOffset, e.progress.page), e.progress.page)
        && track == old(track) && history.Entries() == old(history.Entries())
      else OpenedAt(Targeted(noted, e.progress.byteOffset, e.progress.page), e.progress.byteOffset)
    }

    method HandleReady(e: BookEvent)
      requires Valid() && Truthful(ed, state, e) && e.kind == IndexReady
      modifies this`state, this`track, paginator.Repr(), history
      ensures Valid() && KeepsCourse(old(state), old(track), state, track)
      ensures old(state).book.indexLookup ==> state.book.indexLookup
      ensures IndexTaken(e)
    {
      hide ReaderPaginator.Valid, Linked, ReadsPage, Settled, Moving;
      var valid := e.indexValid && e.pageCount > 0 && e.progress.page < e.pageCount;
      var count := if valid then e.pageCount else 0;
      BusyShowsNothing(ed, state, history.Entries(), track);
      IndexNotedIsConsistent(ed, state, history.Entries(), track, valid, count);
      state := IndexNoted(state, valid, count);
      if valid && !state.userNavigated {
        TargetedIsConsistent(ed, state, history.Entries(), track, e.progress.page);
        state := Targeted(state, e.progress.byteOffset, e.progress.page);
        if state.page.positionValid && !state.request.busy && state.page.currentOffset == e.progress.byteOffset {
          NumberedIsConsistent(ed, state, history.Entries(), track, e.progress.page);
          state := Numbered(state, e.progress.page);
        } else {
          OpenAt(e.progress.byteOffset, true);
        }
      }
    }

    // The index has named the page a lookup asked for.
    method StartNamedPage(progress: Progress)
      requires Shape() && CanStart(ed, state, history.Entries(), track.(loading := track.destination), PreviousPage)
      requires state.book.indexedOperation == PreviousPage
      requires progress.page == track.destination < |ed.starts| && progress.byteOffset == ed.starts[track.destination]
      modifies this`state, this`track, paginator.Repr()
      ensures Valid()
      ensures state.request.busy && !state.request.waiting
      ensures state.book == Targeted(old(state), progress.byteOffset, progress.page).book
      ensures state.page == Started(old(state), PreviousPage).page && state.userNavigated == old(state).userNavigated
      ensures track == old(track).(loading := track.destination) && state.file == old(state).file
    {
      hide ReaderPaginator.Valid, Linked, ReadsPage, Consistent, CanStart;
      ghost var t := track.(loading := track.destination);
      TargetedCanStart(ed, state, history.Entries(), t, PreviousPage, track.destination);
      state := Targeted(state, progress.byteOffset, progress.page);
      StartPage(progress.byteOffset, state.book.indexedOperation, t);
    }

    method HandlePosition(e: BookEvent)
      requires Valid() && Truthful(ed, state, e) && e.kind == Position
      requires state.book.waiting && e.requestId == state.book.requestId
      modifies this`state, this`track, paginator.Repr(), history
      ensures Valid() && KeepsCourse(old(state), old(track), state, track)
      ensures old(state).book.indexLookup ==>
                if e.indexValid && e.pageCount == old(state).page.totalCount && e.progress.page < e.pageCount then
                  && state.request.busy && !state.request.waiting && !state.book.indexLookup
                  && state.page.status == Loading && state.page.operation == PreviousPage
                  && track == old(track).(loading := old(track).destination)
                  && Aims(ed.starts, state, track) && state.book.indexValid == old(state).book.indexValid
                else state.page.status == ErrorView
      ensures !e.indexValid || e.pageCount != old(state).page.totalCount || e.progress.page >= e.pageCount ==>
                !state.book.indexValid && !state.book.indexPositionValid && !state.book.waiting
      ensures state.file == old(state).file
      ensures !old(state).book.indexLookup ==> track == old(track) && history.Entries() == old(history.Entries())
      ensures !old(state).book.indexLookup ==>
                if !e.indexValid || e.pageCount != old(state).page.totalCount || e.progress.page >= e.pageCount then
                  state == WithoutIndex(Answered(old(state)))
                else if !old(state).request.busy && old(state).book.queriedOffset == old(state).page.currentOffset
                        && old(state).Showing() then
                  state == Numbered(Targeted(Answered(old(state)), old(state).page.currentOffset, track.shown),
                                    track.shown)
                else state == Answered(old(state))
    {
      hide ReaderPaginator.Valid, Linked, ReadsPage, Settled, Moving, CanStart, IsAnswer;
      var load := state.book.indexLookup;
      ghost var before := state;
      AnsweredIsConsistent(ed, state, history.Entries(), track);
      state := Answered(state);
      if !e.indexValid || e.pageCount != state.page.totalCount || e.progress.page >= state.page.totalCount {
        GiveUpIndex(load);
        return;
      }
      AnswerNames(ed, before, track, e.progress);
      if load {
        FoundCanStart(ed, before, history.Entries(), track);
        StartNamedPage(e.progress);
      } else {
        ShownIsDisplayed();
        CheckNamedPage(e);
      }
    }

    // A reply that does not fit ends the use of the index, and with it a lookup.
    method GiveUpIndex(load: bool)
      requires Shape() && Settled(ed, state, history.Entries(), track) && (!load ==> Valid())
      modifies this`state
      ensures Valid()
      ensures state == if load then Failed(WithoutIndex(old(state))) else WithoutIndex(old(state))
    {
      hide ReaderPaginator.Valid, Linked, ReadsPage, Settled, Moving;
      WithoutIndexIsConsistent(ed, state, history.Entries(), track);
      state := WithoutIndex(state);
      if load {
        Fail();
      }
    }

    lemma ShownIsDisplayed()
      requires history.Valid() && Settled(ed, state, history.Entries(), track)
      ensures state.Showing() ==> state.page.positionValid && Displays(ed.starts, state.page, track.shown)
    {
      hide Linked, RunBefore, Displays;
    }

    // The index has named the page shown, if it is still the same.
    method CheckNamedPage(e: BookEvent)
      requires Valid() && !state.book.indexLookup
      requires e.progress.page < |ed.starts| && e.progress.byteOffset == ed.starts[e.progress.page]
      modifies this`state, this`track, paginator.Repr(), history
      ensures Valid()
      ensures var asked := !old(state).request.busy && old(state).book.queriedOffset == old(state).page.currentOffset
                           && old(state).Showing();
              if asked && old(state).page.currentOffset != e.progress.byteOffset then
                OpenedAt(Targeted(old(state), e.progress.byteOffset, e.progress.page), e.progress.byteOffset)
              else
                && track == old(track) && history.Entries() == old(history.Entries())
                && if asked then
                     state == Numbered(Targeted(old(state), e.progress.byteOffset, e.progress.page), e.progress.page)
                   else state == old(state)
    {
      hide ReaderPaginator.Valid, Linked, ReadsPage, Settled, Moving, CanStart;
      if !state.request.busy && state.book.queriedOffset == state.page.currentOffset && state.Showing() {
        TargetedIsConsistent(ed, state, history.Entries(), track, e.progress.page);
        state := Targeted(state, e.progress.byteOffset, e.progress.page);
        if state.page.currentOffset != e.progress.byteOffset {
          OpenAt(e.progress.byteOffset, true);
        } else {
          NumberedIsConsistent(ed, state, history.Entries(), track, e.progress.page);
          state := Numbered(state, e.progress.page);
        }
      }
    }

    // on_running(): asks the index which page is shown.
    method QueryOffset(accepted: bool)
      requires Valid()
      modifies this`state
      ensures Valid() && KeepsCourse(old(state), track, state, track)
      ensures var s := old(state);
              state == if !s.request.busy && s.LacksNumber() then Queried(s, accepted) else s
      ensures state != old(state) ==>
                && state.book.requestId == old(state).book.requestId + 1 && state.book.waiting == accepted
                && (accepted ==> state.book.queriedOffset == state.page.currentOffset && !state.book.indexLookup)
    {
      hide ReaderPaginator.Valid, Linked, ReadsPage, Settled, Moving;
      BusyShowsNothing(ed, state, history.Entries(), track);
      if state.book.indexValid && !state.book.indexPositionValid && !state.request.busy && !state.book.waiting &&
         state.page.positionValid && state.Showing() && state.book.submitted
      {
        QueriedIsConsistent(ed, state, history.Entries(), track, accepted);
        state := Queried(state, accepted);
      }
    }

    // on_running(): requests that have taken too long are given up, and what is needed next
    // is asked for. `media` is whether the card is still the one the book is on.
    method OnRunning(media: bool, bookLate: bool, late: bool, accepted: bool)
      requires Valid()
      modifies this`state
      ensures Valid() && KeepsCourse(old(state), track, state, track)
      ensures !media || (bookLate && old(state).book.indexLookup) || (late && old(state).request.waiting) ==>
                state.page.status == ErrorView && !state.request.busy
      ensures media && bookLate && old(state).book.waiting ==>
                !state.book.indexValid && !state.book.waiting && !state.book.indexLookup
      ensures media && !(bookLate && old(state).book.waiting) && !(late && old(state).request.waiting) ==>
                var s := old(state);
                if !s.request.busy then state == if s.LacksNumber() then Queried(s, accepted) else s
                else if s.book.indexLookup || s.request.waiting then state == s
                else if accepted then
                  state == s.(request := ContentRequest(s.request.id + 1, paginator.inputOffset, true, true))
                else state.page.status == ErrorView && !state.request.busy
      ensures state.file == old(state).file
    {
      hide ReaderPaginator.Valid, Linked, ReadsPage, Settled, Moving;
      BusyShowsNothing(ed, state, history.Entries(), track);
      if !media {
        Fail();
      }
      if state.book.waiting && bookLate {
        BookTimesOut();
      }
      if state.request.busy && !state.book.indexLookup {
        if state.request.waiting && late {
          Fail();
        } else if !state.request.waiting {
          RequestChunk(accepted);
        }
      }
      QueryOffset(accepted);
    }

    method BookTimesOut()
      requires Valid()
      modifies this`state
      ensures Valid() && KeepsCourse(old(state), track, state, track)
      ensures state == if old(state).book.indexLookup then Failed(WithoutIndex(Answered(old(state))))
                       else WithoutIndex(Answered(old(state)))
    {
      hide ReaderPaginator.Valid, Linked, ReadsPage, Settled, Moving;
      AnsweredIsConsistent(ed, state, history.Entries(), track);
      var lookup := state.book.indexLookup;
      state := Answered(state);
      GiveUpIndex(lookup);
    }

    // ----- Whole operations

    // handle_app_event() and on_running(), but for the user's actions.
    method Take(turn: Turn)
      requires Valid() && Honest(ed, epub, state, turn)
      modifies this`state, this`track, paginator.Repr(), history, history.offsets
      ensures Valid() && KeepsCourse(old(state), old(track), state, track)
    {
      hide ReaderPaginator.Valid, Linked, ReadsPage, Settled, Moving, Truthful, Serves, KeepsCourse;
      match turn {
        case Running(media, bookLate, late, accepted) => OnRunning(media, bookLate, late, accepted);
        case FileResult(id, offset, data, endOfFile, file, ok) => HandleResult(id, offset, data, endOfFile, file, ok);
        case BookNews(e) => HandleBookEvent(e);
      }
    }

    // Whatever the rest of the system does, and for however many turns, what the user has
    // started goes on towards its page until it ends there or in an error: results and events
    // may come in any order, late, more than once or not at all. The world may answer each
    // state of the reader as it likes, as long as the bytes it shows of this file and what it
    // says of its pages are true.
    method Carry(world: (nat, ReaderState) -> Turn, turns: nat)
      requires Valid() && forall i, s :: Honest(ed, epub, s, world(i, s))
      modifies this`state, this`track, paginator.Repr(), history, history.offsets
      ensures Valid() && KeepsCourse(old(state), old(track), state, track)
    {
      hide ReaderPaginator.Valid, Linked, ReadsPage, Settled, Moving, Honest;
      BusyShowsNothing(ed, state, history.Entries(), track);
      for i := 0 to turns
        invariant Valid() && KeepsCourse(old(state), old(track), state, track)
        modifies this`state, this`track, paginator.Repr(), history, history.offsets
      {
        Take(world(i, state));
      }
    }

    // Runs the operation under way to its end on storage that serves a file in chunks: the text
    // being read, unless the file has changed, as its stamp tells.
    method LoadPages(text: seq<byte>, modified: int, chunk: nat)
      requires Valid() && chunk > 0
      requires !Changed(state, epub, FileStamp(|text|, modified)) ==> text == ed.source
      requires state.request.busy && !state.request.waiting && !state.book.indexLookup && state.userNavigated
      modifies this`state, this`track, paginator.Repr(), history, history.offsets
      ensures Valid() && !state.request.busy
      ensures if old(Changed(state, epub, FileStamp(|text|, modified))) then state.page.status == ErrorView
              else
                && state.Showing() && track.shown == old(track).destination
                && state.book.indexValid == old(state).book.indexValid
                && (old(Aims(ed.starts, state, track)) && state.book.indexValid ==> Counted(state, track))
      ensures Changed(state, epub, FileStamp(|text|, modified)) <==>
              old(Changed(state, epub, FileStamp(|text|, modified)))
    {
      hide ReaderPaginator.Valid, Linked, ReadsPage, Settled, Moving;
      var file := FileStamp(|text|, modified);
      while state.request.busy
        invariant Valid()
        invariant state.request.busy ==>
                    !state.request.waiting && !state.book.indexLookup && state.userNavigated &&
                    track.destination == old(track).destination && state.book == old(state).book
        invariant Changed(state, epub, file) <==> old(Changed(state, epub, file))
        invariant !state.request.busy ==>
                    if Changed(state, epub, file) then state.page.status == ErrorView
                    else
                      && state.Showing() && track.shown == old(track).destination
                      && state.book.indexValid == old(state).book.indexValid
                      && (old(Aims(ed.starts, state, track)) && state.book.indexValid ==> Counted(state, track))
        decreases if state.request.busy then track.destination - track.loading + 1 else 0,
                  |ed.source| - paginator.inputOffset
        modifies this`state, this`track, paginator.Repr(), history, history.offsets
      {
        LoadingIsBounded();
        RequestChunk(true);
        var offset := state.request.requestedOffset;
        if offset <= |text| {
          var end := if |text| - offset < chunk then |text| else offset + chunk;
          HandleResult(state.request.id, offset, text[offset..end], end == |text|, file, true);
        } else {
          HandleResult(state.request.id, offset, [], true, file, true);
        }
      }
    }

    // The measure of a load.
    lemma LoadingIsBounded()
      requires Valid() && state.request.busy && !state.book.indexLookup
      ensures track.loading <= track.destination && paginator.inputOffset <= |ed.source|
      ensures state.page.status == Loading
    {
      hide Linked, RunBefore, Displays, Settled;
    }

    // "Previous" run to its end ends on the page before the one shown, by whichever route,
    // with the history running up to it. Only a changed file ends it in an error instead.
    method GoBack(edition: Edition, text: seq<byte>, modified: int, chunk: nat, accepted: bool)
      requires Valid() && edition == ed && chunk > 0
      requires !Changed(state, epub, FileStamp(|text|, modified)) ==> text == ed.source
      requires |ed.source| < 0x1_0000_0000_0000_0000 && |ed.starts| <= MAX_PAGES
      requires state.page.status == ReadyView && state.page.currentOffset > 0
      modifies this`state, this`track, paginator.Repr(), history, history.offsets
      ensures Valid() && !state.request.busy
      ensures if old(Changed(state, epub, FileStamp(|text|, modified))) then state.page.status == ErrorView
              else
                && state.page.status == ReadyView && track.shown + 1 == old(track).shown && track.shown < |ed.starts|
                && state.page.currentOffset == ed.starts[track.shown]
                && RunBefore(history.Entries(), ed.starts, track.shown)
                && (old(state.book.indexValid && Counted(state, track) && !state.book.waiting &&
                        (history.Entries() != [] || (accepted && state.book.submitted))) ==>
                      Counted(state, track))
      ensures Changed(state, epub, FileStamp(|text|, modified)) <==>
              old(Changed(state, epub, FileStamp(|text|, modified)))
    {
      hide ReaderPaginator.Valid, Linked, ReadsPage, Settled, Moving;
      var file := FileStamp(|text|, modified);
      ShowingWhat();
      Previous(accepted);
      if state.book.indexLookup {
        var number := state.page.currentNumber - 1;
        var progress := EntryOf(edition, number);
        AnswerIsEntry(state.book.queriedOffset, progress);
        HandleBookEvent(BookEvent(Position, state.book.requestId, progress, |edition.starts|, file, true, true, false));
      }
      if state.request.busy {
        LoadPages(text, modified, chunk);
      }
      if state.Showing() {
        ShowingAtEnd();
        ShowingWhat();
      }
    }

    // The entry of the page asked for answers the lookup.
    lemma AnswerIsEntry(offset: nat, progress: Progress)
      requires LookupSent() && offset == state.book.queriedOffset && |ed.source| < 0x1_0000_0000_0000_0000
      requires progress.page + 1 == state.page.currentNumber && progress.byteOffset == ed.starts[progress.page]
      ensures IsAnswer(ed, state, progress)
    {
      var request := Progress(progress.page, offset);
      assert IsRequest(state, request);
    }

    // "Next" run to its end shows the page after the one shown, as a page to read on from.
    method GoForward(text: seq<byte>, modified: int, chunk: nat)
      requires Valid() && chunk > 0
      requires !Changed(state, epub, FileStamp(|text|, modified)) ==> text == ed.source
      requires state.page.status == ReadyView && !state.page.endOfFile
      modifies this`state, this`track, paginator.Repr(), history, history.offsets
      ensures Valid() && !state.request.busy
      ensures Changed(state, epub, FileStamp(|text|, modified)) <==>
              old(Changed(state, epub, FileStamp(|text|, modified)))
      ensures if old(Changed(state, epub, FileStamp(|text|, modified))) then state.page.status == ErrorView
              else
                && state.page.status == ReadyView && track.shown == old(track).shown + 1 < |ed.starts|
                && state.page.currentOffset == ed.starts[track.shown]
                && (old(state.book.indexValid && Counted(state, track) && !state.book.waiting) ==>
                      Counted(state, track))
    {
      hide ReaderPaginator.Valid, Linked, ReadsPage, Settled, Moving;
      ShowingWhat();
      Next();
      LoadPages(text, modified, chunk);
      if state.Showing() {
        ShowingAtEnd();
        ShowingWhat();
      }
    }

    // Reading on from the page shown visits every page to the end of the book, one by one.
    method ReadOn(edition: Edition, modified: int, chunk: nat) returns (visited: seq<nat>)
      requires Valid() && edition == ed && chunk > 0 && state.Showing()
      requires !Changed(state, epub, FileStamp(|ed.source|, modified))
      modifies this`state, this`track, paginator.Repr(), history, history.offsets
      ensures Valid() && state.Showing() && track.shown + 1 == |ed.starts|
      ensures old(track).shown < |ed.starts| && visited == ed.starts[old(track).shown..]
    {
      hide ReaderPaginator.Valid, Linked, ReadsPage, Settled, Moving;
      ShowingAtEnd();
      ShowingWhat();
      ghost var first := track.shown;
      visited := [state.page.currentOffset];
      while state.page.status == ReadyView && !state.page.endOfFile
        invariant Valid() && state.Showing() && first <= track.shown < |ed.starts|
        invariant !Changed(state, epub, FileStamp(|ed.source|, modified))
        invariant visited == ed.starts[first..track.shown + 1]
        invariant state.page.endOfFile <==> track.shown + 1 == |ed.starts|
        invariant state.page.status == EmptyFile ==> |ed.starts| == 1
        decreases |ed.starts| - track.shown
        modifies this`state, this`track, paginator.Repr(), history, history.offsets
      {
        GoForward(edition.source, modified, chunk);
        visited := visited + [state.page.currentOffset];
        ShowingWhat();
      }
    }

    // Reading back visits every page to the start of the book, one by one, however the history,
    // the index and the rebuild take turns. `answers` is whether the service takes the requests.
    method ReadBack(edition: Edition, modified: int, chunk: nat, answers: nat -> bool) returns (visited: seq<nat>)
      requires Valid() && edition == ed && chunk > 0 && state.Showing()
      requires !Changed(state, epub, FileStamp(|ed.source|, modified))
      requires |ed.source| < 0x1_0000_0000_0000_0000 && |ed.starts| <= MAX_PAGES
      modifies this`state, this`track, paginator.Repr(), history, history.offsets
      ensures Valid() && state.Showing() && track.shown == 0
      ensures old(track).shown < |ed.starts| && |visited| == old(track).shown + 1
      ensures forall i :: 0 <= i < |visited| ==> visited[i] == ed.starts[old(track).shown - i]
    {
      hide ReaderPaginator.Valid, Linked, ReadsPage, Settled, Moving;
      ShowingAtEnd();
      ShowingWhat();
      FirstShown();
      ghost var first := track.shown;
      visited := [state.page.currentOffset];
      while state.page.status == ReadyView && state.page.currentOffset > 0
        invariant Valid() && state.Showing() && track.shown <= first < |ed.starts|
        invariant !Changed(state, epub, FileStamp(|ed.source|, modified))
        invariant |visited| == first - track.shown + 1
        invariant forall i :: 0 <= i < |visited| ==> visited[i] == ed.starts[first - i]
        invariant state.page.currentOffset == 0 <==> track.shown == 0
        invariant state.page.status == EmptyFile ==> |ed.starts| == 1
        decreases track.shown
        modifies this`state, this`track, paginator.Repr(), history, history.offsets
      {
        GoBack(edition, edition.source, modified, chunk, answers(|visited|));
        visited := visited + [state.page.currentOffset];
        ShowingWhat();
        FirstShown();
      }
    }

    lemma FirstShown()
      requires Valid() && state.Showing()
      ensures state.page.currentOffset == 0 <==> track.shown == 0
    {
      hide RunBefore, Moving, Pages.PageAt;
      LinkedIncreasing(ed.source, ed.layout, ed.starts);
    }

    // A page shown is one to read on from, unless the text is blank; then it is the only one.
    lemma ShowingWhat()
      requires Valid() && state.Showing()
      ensures state.page.status == EmptyFile <==> Blank(ed.source)
      ensures state.page.endOfFile <==> track.shown + 1 == |ed.starts|
      ensures Blank(ed.source) ==> |ed.starts| == 1
    {
      hide RunBefore, Moving, Pages.PageAt;
      BlankPage(ed, 0);
    }

    // A page has one number, and the page shown the one the index has given it.
    lemma NumbersAreUnique()
      requires Valid()
      ensures forall i, j :: 0 <= i < |ed.starts| && 0 <= j < |ed.starts| && ed.starts[i] == ed.starts[j] ==> i == j
      ensures state.page.positionValid && state.book.indexPositionValid ==> state.page.currentNumber == track.shown
    {
      hide Linked, RunBefore, Moving, ReaderPaginator.Valid;
      forall i, j | 0 <= i < |ed.starts| && 0 <= j < |ed.starts| && ed.starts[i] == ed.starts[j] ensures i == j {
        StartIsUnique(ed, i, j);
      }
    }

    // While a page is shown no page is looked up.
    lemma NothingLookedUp()
      requires Valid()
      ensures state.Showing() ==> !state.book.indexLookup && !state.request.busy
    {
      hide Linked, RunBefore, Displays, Underway;
    }

    lemma ShowingAtEnd()
      requires Valid() && state.Showing()
      ensures track.shown < |ed.starts| && state.page.currentOffset == ed.starts[track.shown]
      ensures RunBefore(history.Entries(), ed.starts, track.shown)
    {
      hide Linked, RunBefore, Moving;
    }
  }

  // The entry of a page, as an index position.
  function EntryOf(ed: Edition, number: nat): (progress: Progress)
    requires ed.Holds() && number < |ed.starts| <= MAX_PAGES && |ed.source| < 0x1_0000_0000_0000_0000
    ensures progress.page == number && progress.byteOffset == ed.starts[number]
  {
    Progress(number, ed.starts[number])
  }

  lemma StartsWithPage(ed: Edition)
    requires ed.Holds()
    ensures |ed.starts| > 0 && ed.starts[0] == 0
  {
  }

  // A stretch of the text as storage delivers it, flagged when it reaches the end.
  ghost predicate Serves(ed: Edition, offset: nat, data: seq<byte>, endOfFile: bool) {
    && offset + |data| <= |ed.source| && data == ed.source[offset..offset + |data|]
    && (endOfFile <==> offset + |data| == |ed.source|)
  }
}
