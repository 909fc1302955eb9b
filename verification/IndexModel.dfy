// Facts about page lists and index files that the index engine rests on, free of its state.
module IndexModel {
  import opened Options
  import opened Utf8
  import opened Paginator
  import opened Pages
  import opened PageChain
  import opened Crc32
  import opened LittleEndian
  import opened BookFormat

  const MAX_PAGES: nat := 0xffff_ffff

  // ----- Looking a position up

  datatype Progress = Progress(page: u32, byteOffset: u64)

  // The number of entries not above a target: what the binary search narrows down to.
  function PageOf(starts: seq<nat>, target: nat): (page: nat)
    requires starts != []
    ensures page < |starts|
  {
    if |starts| == 1 || starts[|starts| - 1] <= target then |starts| - 1
    else PageOf(starts[..|starts| - 1], target)
  }

  // The page that contains a position.
  ghost predicate IsPageOf(starts: seq<nat>, target: nat, page: nat) {
    && page < |starts| && starts[page] <= target
    && (forall i :: page < i < |starts| ==> target < starts[i])
  }

  lemma {:induction false} PageOfContains(starts: seq<nat>, target: nat)
    requires starts != [] && Increasing(starts) && starts[0] <= target
    ensures IsPageOf(starts, target, PageOf(starts, target))
    decreases |starts|
  {
    var n := |starts| - 1;
    if n > 0 && target < starts[n] {
      PageOfContains(starts[..n], target);
    }
  }

  lemma PageOfUnique(starts: seq<nat>, target: nat, page: nat)
    requires Increasing(starts) && IsPageOf(starts, target, page)
    ensures page == PageOf(starts, target)
  {
    if page > 0 {
      assert starts[0] < starts[page];
    }
    PageOfContains(starts, target);
  }

  // The clamped offset a lookup searches for.
  function Target(offset: nat, fileSize: nat): nat {
    if fileSize == 0 then 0 else Min(offset, fileSize - 1)
  }

  // locate(): by page number when asked to and possible, else by byte offset.
  function Located(starts: seq<nat>, fileSize: nat, progress: Progress, preferPage: bool): (r: (nat, nat))
    requires starts != []
  {
    var page := if preferPage && progress.page < |starts| then progress.page
                else PageOf(starts, Target(progress.byteOffset, fileSize));
    (page, starts[page])
  }

  // A lookup finds a page that exists: the one asked for by number, or else the last that starts
  // at or before the offset, or before the end of the text.
  lemma LocatedMeans(starts: seq<nat>, fileSize: u64, progress: Progress, preferPage: bool)
    requires IndexOf(starts, fileSize)
    ensures var (page, offset) := Located(starts, fileSize, progress, preferPage);
            && page < |starts| && offset == starts[page]
            && (preferPage && progress.page < |starts| ==> page == progress.page)
            && (!preferPage || progress.page >= |starts| ==>
                  && (offset <= progress.byteOffset)
                  && (page + 1 < |starts| ==> progress.byteOffset < starts[page + 1]))
  {
    PageOfContains(starts, Target(progress.byteOffset, fileSize));
  }

  // Locating what was located changes nothing, by offset or by page.
  lemma LocatingTwice(starts: seq<nat>, fileSize: u64, progress: Progress, preferPage: bool, again: bool)
    requires IndexOf(starts, fileSize) && |starts| <= MAX_PAGES && (fileSize > 0 || |starts| == 1)
    ensures var (page, offset) := Located(starts, fileSize, progress, preferPage);
            offset <= fileSize && Located(starts, fileSize, Progress(page, offset), again) == (page, offset)
  {
    var (page, offset) := Located(starts, fileSize, progress, preferPage);
    assert IsPageOf(starts, Target(offset, fileSize), page);
    PageOfUnique(starts, Target(offset, fileSize), page);
  }

  // ----- Building the list

  // The page at a is turned and the page at b follows it.
  ghost predicate Turns(source: seq<byte>, layout: Layout, a: nat, b: nat) {
    Follows(source, layout, a, b) &&
    PageAt(source, layout, a).status.PageReady? && !PageAt(source, layout, a).endOfFile
  }

  // The page starts found so far.
  ghost predicate Found(source: seq<byte>, layout: Layout, starts: seq<nat>) {
    && starts != [] && starts[0] == 0
    && (forall i :: 0 <= i < |starts| ==> starts[i] <= |source|)
    && (forall i, j :: 0 <= i < j == i + 1 < |starts| ==> Turns(source, layout, starts[i], starts[j]))
  }

  lemma FoundIncreasing(source: seq<byte>, layout: Layout, starts: seq<nat>)
    requires Found(source, layout, starts)
    ensures IndexOf(starts, |source|)
  {
    hide PageAt;
    StepwiseIncreasing(starts);
    forall i | 0 < i < |starts| ensures starts[i] < |source| {
      assert Turns(source, layout, starts[i - 1], starts[i]);
    }
  }

  // One more page.
  lemma FoundMore(source: seq<byte>, layout: Layout, starts: seq<nat>, next: nat)
    requires Found(source, layout, starts)
    requires Turns(source, layout, Latest(starts), next)
    ensures Found(source, layout, starts + [next])
  {
    hide PageAt;
    var more := starts + [next];
    forall i, j | 0 <= i < j == i + 1 < |more| ensures Turns(source, layout, more[i], more[j]) {
      if j < |starts| {
        assert Turns(source, layout, starts[i], starts[j]);
      }
    }
  }

  function Latest(starts: seq<nat>): nat
    requires starts != []
  {
    starts[|starts| - 1]
  }

  // The pages found are the beginning of the book's page list; what is missing is what
  // paginating from the latest one would give.
  lemma {:induction false} FoundIsPrefix(source: seq<byte>, layout: Layout, starts: seq<nat>, k: nat)
    requires Found(source, layout, starts) && k < |starts|
    ensures Chain(source, layout, starts[k]) ==
            (match Chain(source, layout, Latest(starts))
             case None => None
             case Some(rest) => Some(starts[k..|starts| - 1] + rest))
    decreases |starts| - k
  {
    hide PageAt;
    var last := Chain(source, layout, Latest(starts));
    if k == |starts| - 1 {
      assert starts[k..k] == [];
      if last.Some? {
        assert [] + last.value == last.value;
      }
    } else {
      assert Turns(source, layout, starts[k], starts[k + 1]);
      FoundIsPrefix(source, layout, starts, k + 1);
      var more := starts[k + 1..|starts| - 1];
      assert starts[k..|starts| - 1] == [starts[k]] + more;
      if last.Some? {
        assert [starts[k]] + (more + last.value) == ([starts[k]] + more) + last.value;
      }
    }
  }

  // At the last page the list found is the page list of the book.
  lemma FoundAll(source: seq<byte>, layout: Layout, starts: seq<nat>)
    requires Found(source, layout, starts)
    requires PageAt(source, layout, Latest(starts)).status.PageReady?
    requires PageAt(source, layout, Latest(starts)).endOfFile
    ensures PageStarts(source, layout) == Some(starts)
  {
    hide PageAt;
    FoundIsPrefix(source, layout, starts, 0);
    assert starts[0..|starts| - 1] + [Latest(starts)] == starts;
  }

  // A page that cannot be laid out leaves the book without a page list.
  lemma FoundBroken(source: seq<byte>, layout: Layout, starts: seq<nat>)
    requires Found(source, layout, starts)
    requires !PageAt(source, layout, Latest(starts)).status.PageReady?
    ensures PageStarts(source, layout) == None
  {
    hide PageAt;
    FoundIsPrefix(source, layout, starts, 0);
  }

  // A turned page always leads somewhere the engine accepts: forward and inside the text.
  lemma PageTurns(source: seq<byte>, layout: Layout, start: nat)
    requires start <= |source|
    requires PageAt(source, layout, start).status.PageReady? && !PageAt(source, layout, start).endOfFile
    ensures Turns(source, layout, start, PageAt(source, layout, start).next)
  {
    hide PageAt, Covers, Shaped;
    PageIsGood(source, layout, start);
  }

  // Past the 32-bit page counter the book has too many pages for an index.
  lemma FoundTooMany(source: seq<byte>, layout: Layout, starts: seq<nat>)
    requires Found(source, layout, starts)
    requires PageAt(source, layout, Latest(starts)).status.PageReady?
    requires !PageAt(source, layout, Latest(starts)).endOfFile
    ensures PageStarts(source, layout).Some? ==> |PageStarts(source, layout).value| > |starts|
  {
    hide PageAt;
    var next := PageAt(source, layout, Latest(starts)).next;
    PageTurns(source, layout, Latest(starts));
    FoundMore(source, layout, starts, next);
    FoundIsPrefix(source, layout, starts + [next], 0);
    var last := Chain(source, layout, next);
    if last.Some? {
      ChainLinked(source, layout, next);
    }
  }

  // ----- Paginating from a buffer

  // The paginator has read the source from a page start up to its read offset.
  ghost predicate Fed(view: State, source: seq<byte>, layout: Layout, start: nat) {
    && start <= view.inputOffset <= |source|
    && (Reset(start, layout).status.NeedData? ==> Filling(Reset(start, layout)))
    && view == FeedBytes(Reset(start, layout), source[start..view.inputOffset])
  }

  lemma ResetFed(source: seq<byte>, layout: Layout, start: nat)
    requires start <= |source|
    ensures Fed(Reset(start, layout), source, layout, start)
  {
    ResetFilling(start, layout);
  }

  // Feeding what the buffer holds either goes on or ends the page exactly as paginating the
  // whole remaining text would.
  lemma FeedMeetsPage(view: State, source: seq<byte>, layout: Layout, start: nat, end: nat)
    requires Fed(view, source, layout, start) && view.inputOffset <= end <= |source|
    requires view.status.NeedData? ==> Filling(view)
    ensures var r := Feed(view, source[view.inputOffset..end], end == |source|);
            if r.status.NeedData? then Fed(r, source, layout, start) && r.inputOffset == end < |source|
            else r == PageAt(source, layout, start)
  {
    hide Advance, Filling;
    var s := Reset(start, layout);
    var a := source[start..view.inputOffset];
    var b := source[view.inputOffset..end];
    var c := source[end..];
    FeedBytesSplit(s, a, b);
    assert a + b == source[start..end];
    FeedBytesSplit(s, a + b, c);
    assert source[start..] == a + b + c;
    var t := FeedBytes(view, b);
    FedOffset(view, b);
    if end == |source| {
      assert c == [];
    }
  }

  // A paginator that has stopped takes no more input.
  lemma FeedStopped(s: State, data: seq<byte>, endOfFile: bool)
    requires s.status.NeedData? ==> Filling(s)
    ensures !s.status.NeedData? ==> Feed(s, data, endOfFile) == s
  {
  }

  lemma {:induction false} FedOffset(s: State, data: seq<byte>)
    requires s.status.NeedData? ==> Filling(s)
    ensures FeedBytes(s, data).status.NeedData? ==> FeedBytes(s, data).inputOffset == s.inputOffset + |data|
    decreases |data|
  {
    hide Filling;
    if data != [] && s.status.NeedData? {
      FedOffset(Advance(s, data[0]), data[1..]);
    }
  }

  // ----- Writing the list out

  // The temporary file and the offset buffer hold the page starts between them.
  ghost predicate Logged(file: seq<byte>, written: nat, buffered: seq<byte>, starts: seq<nat>) {
    && |file| == HEADER_SIZE + written && IsBlank(file[..HEADER_SIZE])
    && file[HEADER_SIZE..] + buffered == OffsetBytes(starts)
  }

  predicate IsBlank(bytes: seq<byte>) {
    forall i :: 0 <= i < |bytes| ==> bytes[i] == 0
  }

  // A file that is still being written is no index of anything, so what a broken-off rebuild
  // leaves behind is never taken for one.
  lemma LoggedIsRefused(file: seq<byte>, written: nat, buffered: seq<byte>, starts: seq<nat>, indexSize: nat,
                        textSize: nat)
    requires Logged(file, written, buffered, starts)
    ensures DecodeHeader(file, indexSize, textSize) == None && !Accepted(file, textSize)
  {
    hide OffsetBytes, Crc, Value;
    assert file[0] == file[..HEADER_SIZE][0] == 0;
    assert file[..8][0] == 0;
  }

  lemma OffsetBytesOne(next: nat)
    ensures OffsetBytes([next]) == Bytes(next, 8)
  {
    assert OffsetBytes([next]) == Bytes(next, 8) + OffsetBytes([]);
  }

  lemma LoggedMore(file: seq<byte>, written: nat, buffered: seq<byte>, starts: seq<nat>, next: nat)
    requires Logged(file, written, buffered, starts)
    ensures Logged(file, written, buffered + Bytes(next, 8), starts + [next])
    ensures Crc(OffsetBytes(starts + [next]), 0) == Crc(Bytes(next, 8), Crc(OffsetBytes(starts), 0))
  {
    hide OffsetBytes, Bytes, Crc;
    OffsetBytesConcat(starts, [next]);
    OffsetBytesOne(next);
    CrcSplit(OffsetBytes(starts), Bytes(next, 8), 0);
    var tail := file[HEADER_SIZE..];
    assert tail + (buffered + Bytes(next, 8)) == (tail + buffered) + Bytes(next, 8);
  }

  // ----- Checking a file

  // The file has the header h, and its first n entries have passed the entry check.
  ghost predicate CheckedEntries(file: seq<byte>, h: Header, n: nat, previous: nat) {
    && n <= h.pageCount
    && |file| == IndexSize(h.pageCount)
    && DecodeHeader(file, |file|, h.fileSize) == Some(h)
    && (n == 0 ==> previous == 0)
    && (n > 0 ==>
          IndexOf(Offsets(file[HEADER_SIZE..], n), h.fileSize) &&
          previous == Latest(Offsets(file[HEADER_SIZE..], n)))
  }

  // Between two validation steps; before the first one nothing is known of the file.
  ghost predicate Checked(file: seq<byte>, h: Header, n: nat, previous: nat, crc: u32) {
    && n < h.pageCount
    && if n == 0 then previous == 0 && crc == 0
       else CheckedEntries(file, h, n, previous) && crc == Crc(file[HEADER_SIZE..HEADER_SIZE + OFFSET_WIDTH * n], 0)
  }

  lemma EmptyCrc()
    ensures Crc([], 0) == 0
  {
    hide Xor;
    XorCancels(0, ALL_ONES);
  }

  // All entries and the checksum are right: the file is an accepted index, and conversely.
  lemma CheckedAll(file: seq<byte>, h: Header, previous: nat, crc: u32)
    requires h.pageCount > 0 && CheckedEntries(file, h, h.pageCount, previous)
    requires crc == Crc(file[HEADER_SIZE..HEADER_SIZE + OFFSET_WIDTH * h.pageCount], 0)
    ensures Accepted(file, h.fileSize) <==> crc == h.offsetsCrc
  {
    hide DecodeHeader, Crc, Offsets;
    assert file[HEADER_SIZE..HEADER_SIZE + OFFSET_WIDTH * h.pageCount] == file[HEADER_SIZE..];
  }

  function EntryAt(file: seq<byte>, i: nat): nat
    requires HEADER_SIZE + OFFSET_WIDTH * (i + 1) <= |file|
  {
    Value(file[HEADER_SIZE + OFFSET_WIDTH * i..HEADER_SIZE + OFFSET_WIDTH * (i + 1)])
  }

  lemma OffsetsEntry(file: seq<byte>, n: nat, i: nat)
    requires i < n && HEADER_SIZE + OFFSET_WIDTH * n <= |file|
    ensures Offsets(file[HEADER_SIZE..], n)[i] == EntryAt(file, i)
  {
    hide Value;
    var at := OFFSET_WIDTH * i;
    assert file[HEADER_SIZE..|file|] == file[HEADER_SIZE..];
    SliceOfSlice(file, HEADER_SIZE, |file|, at, at + OFFSET_WIDTH);
  }

  // One entry more.
  lemma OffsetsMore(file: seq<byte>, n: nat)
    requires HEADER_SIZE + OFFSET_WIDTH * (n + 1) <= |file|
    ensures Offsets(file[HEADER_SIZE..], n + 1) == Offsets(file[HEADER_SIZE..], n) + [EntryAt(file, n)]
  {
    hide Value;
    OffsetsEntry(file, n + 1, n);
  }

  lemma IndexOfMore(starts: seq<nat>, next: nat, fileSize: nat)
    requires starts == [] || IndexOf(starts, fileSize)
    ensures IndexOf(starts + [next], fileSize) <==>
            OffsetValid(next, if starts == [] then 0 else Latest(starts), |starts|, fileSize)
  {
    if starts != [] && IndexOf(starts + [next], fileSize) {
      var more := starts + [next];
      assert more[|starts| - 1] < more[|starts|];
    }
  }

  // One entry more passes, exactly when the list is still an index.
  lemma CheckedMore(file: seq<byte>, h: Header, n: nat, previous: nat)
    requires CheckedEntries(file, h, n, previous) && n < h.pageCount
    ensures OffsetValid(EntryAt(file, n), previous, n, h.fileSize) <==>
            CheckedEntries(file, h, n + 1, EntryAt(file, n))
  {
    hide DecodeHeader, Offsets, EntryAt, IndexOf;
    EntryInside(n, h.pageCount);
    OffsetsMore(file, n);
    var starts := Offsets(file[HEADER_SIZE..], n);
    IndexOfMore(starts, EntryAt(file, n), h.fileSize);
  }

  lemma EntryInside(n: nat, pageCount: nat)
    requires n < pageCount
    ensures HEADER_SIZE + OFFSET_WIDTH * (n + 1) <= IndexSize(pageCount)
  {
  }

  // An accepted file never fails an entry check.
  lemma AcceptedEntry(file: seq<byte>, h: Header, n: nat, previous: nat)
    requires Accepted(file, h.fileSize) && CheckedEntries(file, h, n, previous) && n < h.pageCount
    ensures OffsetValid(EntryAt(file, n), previous, n, h.fileSize)
  {
    hide DecodeHeader, Crc, Offsets, EntryAt;
    EntryInside(n, h.pageCount);
    OffsetsEntry(file, h.pageCount, n);
    if n > 0 {
      OffsetsEntry(file, h.pageCount, n - 1);
      EntryInside(n - 1, h.pageCount);
      OffsetsEntry(file, n, n - 1);
    }
  }

  // The checksum continued over a block of entries.
  lemma CrcOfBlock(file: seq<byte>, n: nat, m: nat)
    requires n <= m && HEADER_SIZE + OFFSET_WIDTH * m <= |file|
    ensures Crc(file[HEADER_SIZE..HEADER_SIZE + OFFSET_WIDTH * m], 0) ==
            Crc(file[HEADER_SIZE + OFFSET_WIDTH * n..HEADER_SIZE + OFFSET_WIDTH * m],
                Crc(file[HEADER_SIZE..HEADER_SIZE + OFFSET_WIDTH * n], 0))
  {
    hide Crc;
    var i, j := HEADER_SIZE + OFFSET_WIDTH * n, HEADER_SIZE + OFFSET_WIDTH * m;
    assert file[HEADER_SIZE..j] == file[HEADER_SIZE..i] + file[i..j];
    CrcSplit(file[HEADER_SIZE..i], file[i..j], 0);
  }

  // ----- Published files

  // A published file is accepted with the header it was written with.
  lemma PublishedHeader(starts: seq<nat>, fileSize: u64)
    requires IndexOf(starts, fileSize) && |starts| <= MAX_PAGES
    ensures var file := IndexFile(starts, fileSize);
            && |file| == IndexSize(|starts|) && Accepted(file, fileSize)
            && DecodeHeader(file, |file|, fileSize) == Some(Header(|starts|, fileSize, Crc(OffsetBytes(starts), 0)))
            && Offsets(file[HEADER_SIZE..], |starts|) == starts
  {
    hide Crc, HeaderBytes, OffsetBytes, DecodeHeader, Offsets, Accepted;
    var h := Header(|starts|, fileSize, Crc(OffsetBytes(starts), 0));
    var file := IndexFile(starts, fileSize);
    IndexBound(starts, fileSize);
    PublishedIsAccepted(starts, fileSize);
    HeaderRoundTrip(h, |file|, fileSize);
    assert file[..HEADER_SIZE] == HeaderBytes(h);
    DecodeLooksAtHeader(file, HeaderBytes(h), |file|, fileSize);
  }

  // No more pages than bytes.
  lemma IndexBound(starts: seq<nat>, fileSize: nat)
    requires IndexOf(starts, fileSize)
    ensures |starts| <= BookFormat.Max(1, fileSize)
  {
    GrowthBound(starts, |starts| - 1);
  }
}
