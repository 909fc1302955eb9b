// services/book/epub_cache_engine.cpp: building an EPUB's text from its chapters, the map of
// chapter starts written beside it, and reopening what was built.
module EpubCache {
  import opened Options
  import opened Utf8
  import opened Disk
  import opened Crc32
  import opened LittleEndian
  import opened BookFormat
  import opened PageChain
  import Paths
  import opened BookPath
  import opened BookMetadata
  import opened XhtmlText
  import opened ContentSink
  import opened XhtmlFilter
  import opened SpineMap

  // ----- What the chapters make together

  // The text a chapter's XHTML leaves.
  function ChapterOf(xhtml: seq<byte>): State { Finish(Feed(START, xhtml, true)) }

  function ContentOf(inputs: seq<seq<byte>>): seq<byte> {
    if inputs == [] then [] else ContentOf(inputs[..|inputs| - 1]) + ChapterOf(inputs[|inputs| - 1]).output
  }

  function StartsOf(inputs: seq<seq<byte>>): (starts: seq<nat>)
    ensures |starts| == |inputs|
  {
    if inputs == [] then []
    else var front := inputs[..|inputs| - 1]; StartsOf(front) + [|ContentOf(front)|]
  }

  // Every chapter was accepted by the filter.
  ghost predicate AllTaken(inputs: seq<seq<byte>>) {
    forall i :: 0 <= i < |inputs| ==> !ChapterOf(inputs[i]).failed
  }

  // A finished chapter leaves at least one byte.
  lemma ChapterIsSome(xhtml: seq<byte>)
    requires !ChapterOf(xhtml).failed
    ensures IsChapter(ChapterOf(xhtml).output) && |ChapterOf(xhtml).output| >= 1
  {
    hide FeedBytes, Finish;
    assert xhtml + [] == xhtml;
    FeedSplit(START, xhtml, []);
    assert Joined([xhtml]) == xhtml by { JoinedOne(xhtml); }
    FeedInPieces(START, [xhtml]);
    FeedNothing(FeedBytes(START, xhtml));
    ChapterIsSpaced([xhtml]);
  }

  lemma JoinedOne(xhtml: seq<byte>)
    ensures Joined([xhtml]) == xhtml
  {
    assert Joined([xhtml]) == xhtml + Joined([]);
  }

  // One chapter more.
  lemma ChapterAdded(inputs: seq<seq<byte>>, xhtml: seq<byte>)
    requires AllTaken(inputs) && !ChapterOf(xhtml).failed
    ensures var more := inputs + [xhtml];
            && AllTaken(more)
            && ContentOf(more) == ContentOf(inputs) + ChapterOf(xhtml).output
            && StartsOf(more) == StartsOf(inputs) + [|ContentOf(inputs)|]
            && |ContentOf(more)| > |ContentOf(inputs)|
  {
    hide ChapterOf;
    assert (inputs + [xhtml])[..|inputs|] == inputs;
    ChapterIsSome(xhtml);
  }

  // Chapter starts begin at 0, strictly increase and stay below the content size.
  lemma {:induction false} StartsAreSpine(inputs: seq<seq<byte>>)
    requires AllTaken(inputs) && inputs != []
    ensures StartsOf(inputs)[0] == 0 && Increasing(StartsOf(inputs))
    ensures forall i :: 0 <= i < |inputs| ==> StartsOf(inputs)[i] < |ContentOf(inputs)|
    decreases |inputs|
  {
    hide ChapterOf;
    var front := inputs[..|inputs| - 1];
    var last := inputs[|inputs| - 1];
    assert front + [last] == inputs;
    ChapterAdded(front, last);
    if front != [] {
      StartsAreSpine(front);
    }
  }

  // Chapter i starts where the text of the chapters before it ends.
  lemma {:induction false} StartAt(inputs: seq<seq<byte>>, i: nat)
    requires i < |inputs|
    ensures StartsOf(inputs)[i] == |ContentOf(inputs[..i])|
    ensures ContentOf(inputs[..i + 1]) <= ContentOf(inputs)
    decreases |inputs|
  {
    hide ChapterOf;
    var front := inputs[..|inputs| - 1];
    if i < |front| {
      StartAt(front, i);
      assert front[..i] == inputs[..i] && front[..i + 1] == inputs[..i + 1];
    } else {
      assert inputs[..i + 1] == inputs && inputs[..i] == front;
    }
  }

  // The chapter map cuts the content back into the chapters' texts.
  lemma MapCutsContent(inputs: seq<seq<byte>>, i: nat)
    requires AllTaken(inputs) && i < |inputs|
    ensures var starts := StartsOf(inputs); var content := ContentOf(inputs);
            var end := ChapterEnd(starts, |content|, i);
            starts[i] <= end <= |content| && content[starts[i]..end] == ChapterOf(inputs[i]).output
  {
    hide ChapterOf;
    var content := ContentOf(inputs);
    StartAt(inputs, i);
    assert inputs[..i + 1][..i] == inputs[..i] && inputs[..i + 1][i] == inputs[i];
    var upTo := ContentOf(inputs[..i + 1]);
    assert upTo == ContentOf(inputs[..i]) + ChapterOf(inputs[i]).output;
    if i + 1 < |inputs| {
      StartAt(inputs, i + 1);
    } else {
      assert inputs[..i + 1] == inputs;
    }
    assert content[..|upTo|] == upTo;
    SliceOfSlice(content, 0, |upTo|, |ContentOf(inputs[..i])|, |upTo|);
  }

  lemma StartsAreSpineMap(inputs: seq<seq<byte>>)
    requires AllTaken(inputs) && 1 <= |inputs| <= SPINE_ITEM_LIMIT
    ensures SpineOf(StartsOf(inputs), |ContentOf(inputs)|)
  {
    StartsAreSpine(inputs);
  }

  // Content that the engine can build: enough chapters and not too many, each accepted by the
  // filter, and not too much text.
  ghost predicate Buildable(inputs: seq<seq<byte>>) {
    1 <= |inputs| <= SPINE_ITEM_LIMIT && AllTaken(inputs) && |ContentOf(inputs)| <= CONTENT_SIZE_LIMIT
  }

  // ----- The metadata record

  const PARSER_VERSION: nat := 1
  const COVER_SIZE_LIMIT: nat := 512 * 1024
  const SOURCE_SIZE_MIN: nat := 22
  const SOURCE_SIZE_MAX: nat := 0xffff_ffff

  datatype CoverKind = NoCover | Jpeg | Png

  datatype CacheMetadata = CacheMetadata(
    path: FilePath, source: Identity, contentSize: nat, coverSize: nat, spineCount: nat, cover: CoverKind,
    progress: EpubPosition, atCover: bool, parserVersion: nat, paginationVersion: nat)

  // The path is its own canonical form.
  predicate IsCanonical(path: FilePath) {
    Canonical(path, Paths.BOOK_PATH_CAPACITY) == Paths.Path(path)
  }

  // epub_cache_metadata_encode() writes such records only.
  predicate Encodes(m: CacheMetadata) {
    && 0 < m.spineCount <= SPINE_ITEM_LIMIT && 0 < m.contentSize <= CONTENT_SIZE_LIMIT
    && m.progress.spineIndex < m.spineCount && m.progress.linearOffset < m.contentSize
    && (m.atCover ==> m.progress.linearOffset == 0 && m.cover != NoCover)
  }

  // epub_cache_metadata_decode() reads such records only.
  predicate Decodes(m: CacheMetadata) {
    && Encodes(m)
    && IsCanonical(m.path)
    && m.source.fileSize <= JSON_INTEGER_MAX && 0 <= m.source.modified <= JSON_INTEGER_MAX
    && m.parserVersion != 0 && m.paginationVersion != 0
    && m.progress.contentOffset <= CONTENT_SIZE_LIMIT
    && CoverSizeGood(m)
  }

  predicate CoverSizeGood(m: CacheMetadata) {
    m.coverSize <= COVER_SIZE_LIMIT && (m.cover == NoCover <==> m.coverSize == 0)
  }

  // source_identity() of a file, and the files it takes.
  predicate IsSource(f: File) { SOURCE_SIZE_MIN <= |f.bytes| <= SOURCE_SIZE_MAX && 0 <= f.modified }

  function IdentityIn(f: File): Identity
    requires IsSource(f)
  {
    Identity(|f.bytes|, f.modified, FingerprintOf(f.bytes))
  }

  // The source is the recorded one, as far as its size and samples tell.
  predicate SameSource(m: CacheMetadata, f: File) {
    IsSource(f) && m.source.fileSize == |f.bytes| && m.source.fingerprint == FingerprintOf(f.bytes)
  }

  // What reopening makes of a record: a new time of the source is noted, and a new pagination
  // starts reading over.
  function Renewed(m: CacheMetadata, source: Identity): CacheMetadata {
    var n := if source.modified != m.source.modified then m.(source := source) else m;
    if m.paginationVersion == PAGINATION_VERSION then n
    else n.(paginationVersion := PAGINATION_VERSION, progress := EpubPosition(0, 0, 0), atCover := m.cover != NoCover)
  }

  // ----- The engine

  // The package: how many chapters the spine has, and what cover there is.
  datatype Package = Package(chapters: nat, cover: CoverKind)

  datatype Phase = Idle | InCover | InSpine | Finalizing | Ready | Failed

  class Engine {
    const io: Card
    const output: TextOutput
    const filter: Filter
    const contentPath: FilePath
    const mapPath: FilePath
    const temporaryMap: FilePath
    const coverPath: FilePath
    const temporaryCover: FilePath
    const mapBytes: array<byte>
    const starts: array<nat>
    var phase: Phase
    var spineCount: nat
    var spineIndex: nat
    var startsCount: nat
    var cover: CoverKind
    var coverWritten: nat
    var coverStarted: bool
    var rebuilt: bool
    var metadata: CacheMetadata
    // The metadata file, as it was last written.
    var stored: Option<CacheMetadata>

    // The XHTML of the finished chapters, what has arrived of the current one, and the cover.
    ghost var inputs: seq<seq<byte>>
    ghost var current: seq<byte>
    ghost var coverBytes: seq<byte>

    ghost predicate Wiring() {
      && filter.sink == output && output.io == io && filter.Buffers() && output.output.Length == OUTPUT_CAPACITY
      && OwnNames()
      && mapBytes.Length == MapSize(SPINE_ITEM_LIMIT) && starts.Length == SPINE_ITEM_LIMIT
      && mapBytes != output.output && mapBytes != filter.token && mapBytes != filter.utf8
      && starts !in filter.Footprint()
    }

    ghost predicate OwnNames() {
      && output.path !in {contentPath, mapPath, temporaryMap, coverPath, temporaryCover}
      && contentPath !in {mapPath, temporaryMap, coverPath, temporaryCover}
      && mapPath !in {temporaryMap, coverPath, temporaryCover}
      && temporaryMap !in {coverPath, temporaryCover}
      && coverPath != temporaryCover
    }

    ghost function OwnFiles(): set<FilePath> {
      {output.path, contentPath, mapPath, temporaryMap, coverPath, temporaryCover}
    }

    // The source of the cache being built or open.
    ghost predicate Sourced()
      reads this`metadata, io
    {
      SourcedBy(io.files)
    }

    ghost predicate SourcedBy(files: map<FilePath, File>)
      reads this`metadata
    {
      && metadata.path !in OwnFiles() && IsCanonical(metadata.path)
      && metadata.path in files && IsSource(files[metadata.path])
      && metadata.source == IdentityIn(files[metadata.path])
      && metadata.parserVersion == PARSER_VERSION && metadata.paginationVersion == PAGINATION_VERSION
    }

    // What has been written of the cover.
    ghost predicate CoverWritten()
      reads this`coverWritten, this`coverStarted, this`coverBytes, io
    {
      && coverWritten == |coverBytes| <= COVER_SIZE_LIMIT && (!coverStarted ==> coverBytes == [])
      && (coverStarted ==> temporaryCover in io.files && io.files[temporaryCover].bytes == coverBytes)
    }

    // The cover is complete, or there is none.
    ghost predicate Covered()
      reads this`cover, this`coverWritten, this`coverStarted, this`coverBytes, io
    {
      CoveredBy(io.files)
    }

    ghost predicate CoveredBy(files: map<FilePath, File>)
      reads this`cover, this`coverWritten, this`coverStarted, this`coverBytes
    {
      cover != NoCover ==>
        && 0 < coverWritten == |coverBytes| <= COVER_SIZE_LIMIT && coverStarted
        && temporaryCover in files && files[temporaryCover].bytes == coverBytes
    }

    // The chapters finished so far and their starts; `more` when the current one has its
    // start noted as well.
    ghost predicate Noted(more: bool)
      reads this`inputs, this`startsCount, starts
    {
      && AllTaken(inputs) && startsCount <= starts.Length
      && starts[..startsCount] == StartsOf(inputs) + (if more then [|ContentOf(inputs)|] else [])
    }

    ghost predicate Building()
      reads this`inputs, this`current, this`startsCount, this`spineIndex, this`spineCount, starts
      reads filter, filter.token, filter.utf8, filter.sink, filter.sink.output, filter.sink.io
    {
      && Noted(true) && spineIndex == |inputs| < spineCount
      && filter.Valid() && Tidy(filter.View())
      && filter.View() == FeedBytes(START, current) && filter.before == ContentOf(inputs)
    }

    ghost predicate Built()
      reads this`inputs, this`startsCount, this`spineIndex, this`spineCount, starts, output, output.output, output.io
    {
      && Noted(false) && spineIndex == |inputs| >= spineCount
      && output.Valid() && output.Text() == ContentOf(inputs)
    }

    // Nothing has been built but perhaps a cover.
    ghost predicate Unbuilt()
      reads this`inputs, this`current, this`startsCount, this`spineIndex, starts, output, output.output, output.io
    {
      && inputs == [] && current == [] && startsCount == spineIndex == 0
      && output.Valid() && output.Text() == [] && !output.started
    }

    // What reopening relies on: map, content and cover on the card, and a position in a chapter.
    ghost predicate Opened()
      reads this`startsCount, this`metadata, starts, io
    {
      && startsCount == metadata.spineCount <= starts.Length && Encodes(metadata)
      && SpineOf(starts[..startsCount], metadata.contentSize)
      && OnCard(io.files, starts[..startsCount], metadata)
      && metadata.progress == PositionOf(starts[..startsCount], metadata.progress.linearOffset)
    }

    ghost predicate OnCard(files: map<FilePath, File>, spine: seq<nat>, m: CacheMetadata) {
      && m.contentSize < 0x1_0000_0000_0000_0000 && |spine| <= SPINE_ITEM_LIMIT
      && mapPath in files && files[mapPath].bytes == MapFile(spine, m.contentSize)
      && contentPath in files && |files[contentPath].bytes| == m.contentSize
      && (m.cover != NoCover ==> coverPath in files && |files[coverPath].bytes| == m.coverSize)
    }

    ghost predicate Valid()
      reads this, starts, io, output, output.output, output.io
      reads filter, filter.token, filter.utf8, filter.sink, filter.sink.output, filter.sink.io
    {
      && Wiring()
      && (phase == InCover || phase == InSpine || phase == Finalizing ==> Sourced())
      && (phase == InCover ==> cover != NoCover && CoverWritten() && Unbuilt())
      && (phase == InSpine ==> Covered() && Building())
      && (phase == Finalizing ==> Covered() && Built())
      && (phase == Ready ==> Opened())
    }

    constructor (io: Card, temporaryContent: FilePath, contentPath: FilePath, temporaryMap: FilePath, mapPath: FilePath,
                 temporaryCover: FilePath, coverPath: FilePath, stored: Option<CacheMetadata>)
      requires temporaryContent !in {contentPath, mapPath, temporaryMap, coverPath, temporaryCover}
      requires contentPath !in {mapPath, temporaryMap, coverPath, temporaryCover}
      requires mapPath !in {temporaryMap, coverPath, temporaryCover}
      requires temporaryMap !in {coverPath, temporaryCover} && coverPath != temporaryCover
      ensures Valid() && phase == Idle && this.stored == stored && this.io == io
      ensures this.contentPath == contentPath && this.mapPath == mapPath && this.coverPath == coverPath
    {
      var sink := new TextOutput(io, temporaryContent);
      var text := new Filter(sink);
      this.io, output, filter := io, sink, text;
      this.contentPath, this.mapPath, this.temporaryMap := contentPath, mapPath, temporaryMap;
      this.coverPath, this.temporaryCover := coverPath, temporaryCover;
      mapBytes := new byte[MapSize(SPINE_ITEM_LIMIT)](_ => 0);
      starts := new nat[SPINE_ITEM_LIMIT](_ => 0);
      phase, spineCount, spineIndex, startsCount := Idle, 0, 0, 0;
      cover, coverWritten, coverStarted, rebuilt := NoCover, 0, false, false;
      metadata := CacheMetadata([], Identity(0, 0, Fingerprint(0, 0, 0)), 0, 0, 0, NoCover, EpubPosition(0, 0, 0),
                                false, 0, 0);
      this.stored := stored;
      inputs, current, coverBytes := [], [], [];
    }

    // ----- The source

    // One sample of the source, if it still has this size and time.
    method SampleSource(path: FilePath, i: nat, size: nat, modified: int) returns (ok: bool, crc: u32)
      requires i < 3 && size >= SOURCE_SIZE_MIN
      ensures ok ==>
                path in io.files && |io.files[path].bytes| == size && crc == Crc(Sample(io.files[path].bytes, i), 0)
      ensures (io.faultFree && path in io.files && |io.files[path].bytes| == size
               && io.files[path].modified == modified) ==> ok
    {
      hide Crc;
      crc := 0;
      WindowsInside(size, i);
      var window := Window(size, i);
      var bytes := new byte[Max(1, window.1)](_ => 0);
      var error, length, found, time := io.Read(path, window.0, bytes, window.1);
      if error != Ok || length != window.1 || found != size || time != modified {
        return false, crc;
      }
      crc := ChecksumBlock(bytes[..window.1], 0);
      ok := true;
    }

    // source_identity()
    method SourceIdentity(path: FilePath) returns (identity: Option<Identity>)
      ensures identity.Some? ==>
                path in io.files && IsSource(io.files[path]) && identity == Some(IdentityIn(io.files[path]))
      ensures io.faultFree && path in io.files && IsSource(io.files[path]) ==> identity.Some?
    {
      hide Crc, Sample;
      var probe := new byte[1];
      var error, length, size, modified := io.Read(path, 0, probe, 1);
      if error != Ok || size < SOURCE_SIZE_MIN || size > SOURCE_SIZE_MAX || modified < 0 {
        return None;
      }
      var ok, head := SampleSource(path, 0, size, modified);
      if !ok {
        return None;
      }
      var middle, tail;
      ok, middle := SampleSource(path, 1, size, modified);
      if !ok {
        return None;
      }
      ok, tail := SampleSource(path, 2, size, modified);
      if !ok {
        return None;
      }
      return Some(Identity(size, modified, Fingerprint(head, middle, tail)));
    }

    // ----- Building

    // begin_rebuild() for a canonical path, from the archive's identity on. `coverFound` and
    // `found` are whether the archive can deliver the cover and the first chapter.
    method BeginRebuild(path: FilePath, package: Option<Package>, coverFound: bool, found: bool) returns (ok: bool)
      requires Valid() && path !in OwnFiles() && IsCanonical(path)
      modifies this`phase, this`spineCount, this`spineIndex, this`startsCount, this`inputs, this`current
      modifies this`cover, this`coverWritten, this`coverStarted, this`coverBytes, this`metadata, this`rebuilt
      modifies filter, starts, output, io
      ensures Valid() && (if ok then phase == InCover || phase == InSpine || phase == Finalizing else phase == Failed)
      ensures ok ==> package.Some? && inputs == [] && current == [] && spineCount == package.value.chapters
      ensures ok ==> metadata.path == path && rebuilt
      ensures ok ==> phase == if package.value.cover != NoCover && coverFound then InCover
                              else if package.value.chapters > 0 then InSpine else Finalizing
      ensures ok ==> cover == if coverFound then package.value.cover else NoCover
      ensures ok ==> (phase == InCover ==> coverBytes == []) && (phase == InSpine ==> found)
      ensures (io.faultFree && old(path in io.files && IsSource(io.files[path])) && package.Some?
               && ((package.value.cover != NoCover && coverFound) || package.value.chapters == 0 || found)) ==> ok
    {
      hide SourcedBy, CoveredBy, Unbuilt, CoverWritten, Building, Built, Opened, Wiring, IsSource;
      phase := Failed;
      ok := NoteSource(path);
      if !ok || package == None {
        return false;
      }
      var prepared := io.MakeDirectory();
      if prepared != Ok {
        return false;
      }
      ok := StartBuild(package.value, coverFound, found);
    }

    // The new record, of the source as it is.
    method NoteSource(path: FilePath) returns (ok: bool)
      requires path !in OwnFiles() && IsCanonical(path)
      modifies this`metadata
      ensures ok ==> Sourced() && metadata.path == path
      ensures io.faultFree && path in io.files && IsSource(io.files[path]) ==> ok
    {
      hide IsSource, IdentityIn, IsCanonical;
      var identity := SourceIdentity(path);
      if identity == None {
        return false;
      }
      metadata := CacheMetadata(path, identity.value, 0, 0, 0, NoCover, EpubPosition(0, 0, 0), false,
                                PARSER_VERSION, PAGINATION_VERSION);
      ok := true;
    }

    // The end of begin_rebuild(): the cover first, if there is one.
    method StartBuild(package: Package, coverFound: bool, found: bool) returns (ok: bool)
      requires Wiring() && Sourced() && phase == Failed
      modifies this`phase, this`spineCount, this`spineIndex, this`startsCount, this`inputs, this`current
      modifies this`cover, this`coverWritten, this`coverStarted, this`coverBytes, this`rebuilt
      modifies filter, starts, output, io
      ensures Valid() && (!ok ==> phase == Failed)
      ensures ok ==> inputs == [] && current == [] && spineCount == package.chapters && rebuilt
      ensures ok ==> phase == if package.cover != NoCover && coverFound then InCover
                              else if package.chapters > 0 then InSpine else Finalizing
      ensures ok ==> cover == if coverFound then package.cover else NoCover
      ensures ok ==> (phase == InCover ==> coverBytes == []) && (phase == InSpine ==> found)
      ensures io.faultFree && ((package.cover != NoCover && coverFound) || package.chapters == 0 || found) ==> ok
    {
      hide SourcedBy, CoveredBy, Unbuilt, CoverWritten, Building, Built, Opened, Wiring;
      ResetBuild(package);
      if cover != NoCover {
        if coverFound {
          phase := InCover;
          return true;
        }
        DropCover();
      }
      NothingCovered();
      ok := BeginText(found);
    }

    lemma NothingCovered()
      requires cover == NoCover
      ensures Covered()
    {
    }

    // Nothing has been written yet.
    method ResetBuild(package: Package)
      requires Wiring()
      modifies this`spineCount, this`spineIndex, this`startsCount, this`inputs, this`current, this`rebuilt
      modifies this`cover, this`coverWritten, this`coverStarted, this`coverBytes, output
      ensures Wiring() && Unbuilt() && CoverWritten() && coverBytes == []
      ensures inputs == [] && current == []
      ensures cover == package.cover && spineCount == package.chapters && rebuilt
    {
      hide TextOutput.Valid;
      rebuilt := true;
      output.Restart();
      ResetText(package.chapters);
      cover, coverWritten, coverStarted := package.cover, 0, false;
      coverBytes := [];
    }

    method ResetText(chapters: nat)
      modifies this`spineCount, this`spineIndex, this`startsCount, this`inputs, this`current
      ensures spineCount == chapters && spineIndex == startsCount == 0 && inputs == [] && current == []
    {
      spineCount, spineIndex, startsCount := chapters, 0, 0;
      inputs, current := [], [];
    }

    // There will be no cover.
    method DropCover()
      modifies this`cover, this`coverWritten, this`coverStarted
      ensures cover == NoCover && coverWritten == 0 && !coverStarted
    {
      cover, coverWritten, coverStarted := NoCover, 0, false;
    }

    // The first begin_spine().
    method BeginText(found: bool) returns (ok: bool)
      requires Wiring() && Sourced() && Covered() && Unbuilt()
      modifies this`phase, this`startsCount, filter, starts, output, io
      ensures Valid()
      ensures phase == if !ok then Failed else if spineCount > 0 then InSpine else Finalizing
      ensures OnlyChanged(old(io.files), io.files, output.path)
      ensures ok && spineCount > 0 ==> found
      ensures io.faultFree && (found || spineCount == 0) ==> ok
    {
      hide SourcedBy, CoveredBy, TextOutput.Valid, Valid, OnlyChanged;
      assert starts[..0] == [];
      ok := BeginSpine(found);
    }

    // cover_write()
    method CoverWrite(data: seq<byte>) returns (ok: bool)
      requires Wiring() && CoverWritten() && Unbuilt()
      modifies this`coverWritten, this`coverStarted, this`coverBytes, io
      ensures Unbuilt()
      ensures !ok ==> coverBytes == old(coverBytes)
      ensures ok ==> CoverWritten() && coverStarted && coverBytes == old(coverBytes) + data
      ensures OnlyChanged(old(io.files), io.files, temporaryCover)
      ensures |old(coverBytes)| + |data| > COVER_SIZE_LIMIT ==> !ok
      ensures io.faultFree && |old(coverBytes)| + |data| <= COVER_SIZE_LIMIT ==> ok
    {
      if coverWritten > COVER_SIZE_LIMIT || |data| > COVER_SIZE_LIMIT - coverWritten {
        return false;
      }
      ghost var before := if coverStarted then io.files[temporaryCover].bytes else [];
      var error := io.Write(temporaryCover, coverWritten, data, !coverStarted);
      if error != Ok {
        return false;
      }
      AppendedEnd(before, data);
      coverBytes := coverBytes + data;
      coverStarted, coverWritten := true, coverWritten + |data|;
      return true;
    }

    // step() in the cover phase: a stretch of the cover, or the end of its stream. A cover that
    // cannot be had is given up, and the text begins.
    method StepCover(data: seq<byte>, done: bool, streamed: bool, found: bool) returns (ok: bool)
      requires Valid() && phase == InCover
      modifies this`phase, this`startsCount, this`cover, this`coverWritten, this`coverStarted, this`coverBytes
      modifies filter, starts, output, io
      ensures Valid() && (if ok then phase == InCover || phase == InSpine || phase == Finalizing else phase == Failed)
      ensures ok ==> if phase == InCover then !done && cover == old(cover) && coverBytes == old(coverBytes) + data
                     else cover == NoCover || (done && cover == old(cover) && coverBytes == old(coverBytes) + data)
      ensures ok ==> (!streamed ==> cover == NoCover) && (phase == InSpine ==> found)
      ensures ok && phase != InCover ==> phase == if spineCount > 0 then InSpine else Finalizing
      ensures io.faultFree && (found || spineCount == 0) && (done ==> old(coverBytes) + data != []) ==> ok
      ensures io.faultFree && streamed && ok && |old(coverBytes)| + |data| <= COVER_SIZE_LIMIT ==>
                cover == old(cover) && coverBytes == old(coverBytes) + data && (phase == InCover <==> !done)
    {
      hide SourcedBy, CoveredBy, Unbuilt, CoverWritten, Building, Built, Opened, Wiring, OnlyChanged;
      ghost var files := io.files;
      ghost var covered := coverBytes + data;
      var taken := CoverWrite(data);
      CoverAside(files, io.files);
      if !taken || !streamed {
        var media := io.MediaValid();
        if !media {
          phase := Failed;
          return false;
        }
        DropCover();
        NothingCovered();
        ok := BeginText(found);
      } else if !done {
        ok := true;
      } else if coverWritten == 0 {
        phase := Failed;
        ok := false;
        EmptyCover();
      } else {
        CompleteCover();
        ok := BeginText(found);
      }
    }

    // A change of the cover alone leaves the source as it is.
    lemma CoverAside(before: map<FilePath, File>, after: map<FilePath, File>)
      requires Wiring() && OnlyChanged(before, after, temporaryCover)
      ensures SourcedBy(before) ==> SourcedBy(after)
    {
      hide IsCanonical, IdentityIn;
    }

    lemma EmptyCover()
      requires CoverWritten()
      ensures coverWritten == |coverBytes|
    {
    }

    lemma CompleteCover()
      requires CoverWritten() && coverStarted && coverWritten != 0
      ensures Covered()
    {
    }

    // begin_spine(): notes where the next chapter starts, or ends the text. `found` is
    // whether the archive has the chapter.
    method BeginSpine(found: bool) returns (ok: bool)
      requires Wiring() && output.Valid() && output.Text() == ContentOf(inputs)
      requires Sourced() && Covered()
      requires Noted(false) && spineIndex == |inputs| && current == []
      modifies this`phase, this`startsCount, filter, starts, output, io
      ensures Valid()
      ensures phase == if !ok then Failed else if spineIndex < spineCount then InSpine else Finalizing
      ensures OnlyChanged(old(io.files), io.files, output.path)
      ensures if spineIndex >= spineCount then ok else ok ==> found
      ensures io.faultFree && found && |inputs| < SPINE_ITEM_LIMIT ==> ok
    {
      hide StartsOf, ContentOf, SourcedBy, CoveredBy, OnlyChanged, Unbuilt, Opened, CoverWritten, Building;
      hide TextOutput.Valid;
      hide AllTaken;
      ghost var files := io.files;
      OnlyChangedSame(files, output.path);
      if spineIndex >= spineCount {
        phase := Finalizing;
        return true;
      }
      ok := OpenChapter();
      KeepsAside(files, io.files);
      ok := ok && found;
      phase := if ok then InSpine else Failed;
    }

    // Another chapter starts, with a new filter.
    method OpenChapter() returns (ok: bool)
      requires Wiring() && output.Valid() && output.Text() == ContentOf(inputs)
      requires Noted(false) && spineIndex == |inputs| < spineCount && current == []
      modifies this`startsCount, filter, starts, output, io
      ensures ok ==> Building()
      ensures OnlyChanged(old(io.files), io.files, output.path)
      ensures io.faultFree && |inputs| < SPINE_ITEM_LIMIT ==> ok
    {
      hide FeedBytes, StartsOf, ContentOf, AllTaken, OnlyChanged, Tidy;
      var flushed := output.Flush();
      if !flushed || spineIndex >= SPINE_ITEM_LIMIT {
        return false;
      }
      NoteStart();
      filter.Emplace();
      FeedNothing(START);
      StartTidy();
      return true;
    }

    // The text so far is where the chapter starts.
    method NoteStart()
      requires Wiring() && Noted(false) && spineIndex == |inputs| < SPINE_ITEM_LIMIT
      requires output.written == |ContentOf(inputs)|
      modifies this`startsCount, starts
      ensures Noted(true)
    {
      hide StartsOf, ContentOf, AllTaken;
      ghost var before := starts[..startsCount];
      starts[spineIndex] := output.written;
      startsCount := spineIndex + 1;
      assert starts[..startsCount] == before + [|ContentOf(inputs)|];
    }

    // A chapter that has arrived so far keeps the text within its limit.
    ghost predicate Fits(text: State)
      reads this`inputs
    {
      !text.failed && |ContentOf(inputs)| + |text.output| <= CONTENT_SIZE_LIMIT
    }

    // One step of the archive's stream: spine_write() for a stretch of the chapter, then
    // finish_spine() when the stream is done.
    method StepChapter(data: seq<byte>, done: bool, streamed: bool, found: bool) returns (ok: bool)
      requires Valid() && phase == InSpine
      modifies this`phase, this`spineIndex, this`startsCount, this`inputs, this`current
      modifies filter, filter.token, filter.utf8, starts, output, output.output, io
      ensures Valid() && (!ok ==> phase == Failed)
      ensures ok ==> if done then inputs == old(inputs) + [old(current) + data] && current == []
                     else inputs == old(inputs) && current == old(current) + data && phase == InSpine
      ensures ok ==> streamed && (done && phase == InSpine ==> found)
      ensures ok && done ==> phase == if |inputs| < spineCount then InSpine else Finalizing
      ensures OnlyChanged(old(io.files), io.files, output.path)
      ensures io.faultFree && streamed && !done && old(Fits(FeedBytes(START, current + data))) ==> ok
      ensures (io.faultFree && streamed && done && old(Fits(ChapterOf(current + data)))
               && (|old(inputs)| + 1 >= spineCount || (found && |old(inputs)| + 1 < SPINE_ITEM_LIMIT))) ==> ok
    {
      hide FeedBytes, StartsOf, ContentOf, AllTaken, Tidy, Filter.Valid, CoveredBy, SourcedBy, Finish, OnlyChanged;
      ghost var files := io.files;
      FeedSplit(START, current, data);
      ChapterFits(current + data);
      var fed := filter.FeedBlock(data, false);
      if !fed || !streamed {
        phase := Failed;
        return false;
      }
      KeepsAside(files, io.files);
      current := current + data;
      if done {
        ghost var between := io.files;
        ok := FinishSpine(found);
        OnlyChangedTwice(files, between, io.files, output.path);
      } else {
        ok := true;
      }
    }

    // A change of the text alone leaves source and cover as they are.
    lemma KeepsAside(before: map<FilePath, File>, after: map<FilePath, File>)
      requires Wiring() && OnlyChanged(before, after, output.path)
      ensures SourcedBy(before) ==> SourcedBy(after)
      ensures CoveredBy(before) ==> CoveredBy(after)
    {
      hide IsCanonical, IdentityIn;
    }

    // finish_spine()
    method FinishSpine(found: bool) returns (ok: bool)
      requires Valid() && phase == InSpine
      modifies this`phase, this`spineIndex, this`startsCount, this`inputs, this`current
      modifies filter, filter.token, filter.utf8, starts, output, output.output, io
      ensures Valid()
      ensures phase == if !ok then Failed else if |inputs| < spineCount then InSpine else Finalizing
      ensures ok ==> inputs == old(inputs) + [old(current)] && current == [] && (phase == InSpine ==> found)
      ensures OnlyChanged(old(io.files), io.files, output.path)
      ensures (io.faultFree && old(Fits(ChapterOf(current)))
               && (|old(inputs)| + 1 >= spineCount || (found && |old(inputs)| + 1 < SPINE_ITEM_LIMIT))) ==> ok
    {
      hide FeedBytes, StartsOf, ContentOf, AllTaken, OnlyChanged, Tidy, Filter.Valid, ChapterOf, CoveredBy, SourcedBy;
      hide Opened, Unbuilt, CoverWritten;
      ghost var files := io.files;
      ok := CloseChapter();
      if !ok {
        phase := Failed;
        return false;
      }
      KeepsAside(files, io.files);
      AddChapter();
      ghost var between := io.files;
      ok := BeginSpine(found);
      OnlyChangedTwice(files, between, io.files, output.path);
    }

    // The chapter that has been closed is one of the book's.
    method AddChapter()
      requires Noted(true) && spineIndex == |inputs| && !ChapterOf(current).failed
      modifies this`spineIndex, this`inputs, this`current
      ensures Noted(false) && spineIndex == |inputs| && current == [] && inputs == old(inputs) + [old(current)]
      ensures ContentOf(inputs) == old(ContentOf(inputs)) + old(ChapterOf(current).output)
    {
      hide StartsOf, ContentOf, AllTaken, ChapterOf;
      ChapterAdded(inputs, current);
      inputs, current := inputs + [current], [];
      spineIndex := spineIndex + 1;
    }

    // The filter and the sink bring the chapter to its end.
    method CloseChapter() returns (ok: bool)
      requires Wiring() && Building()
      modifies filter, filter.token, filter.utf8, output, output.output, io
      ensures ok ==> output.Valid() && !ChapterOf(current).failed
      ensures ok ==> output.Text() == ContentOf(inputs) + ChapterOf(current).output
      ensures OnlyChanged(old(io.files), io.files, output.path)
      ensures io.faultFree && old(Fits(ChapterOf(current))) ==> ok
    {
      hide FeedBytes, StartsOf, ContentOf, AllTaken, OnlyChanged, Tidy, Finish;
      ghost var files := io.files;
      ok := filter.FeedBlock([], true);
      FeedNothing(FeedBytes(START, current));
      FinishGrows(Feed(FeedBytes(START, current), [], true));
      if !ok {
        return;
      }
      ghost var fed := io.files;
      ok := filter.FinishChapter();
      OnlyChangedTwice(files, fed, io.files, output.path);
      if !ok {
        return;
      }
      ghost var finished := io.files;
      ok := output.Flush();
      OnlyChangedTwice(files, finished, io.files, output.path);
    }

    // ----- Publishing

    method WriteMetadata() returns (ok: bool)
      modifies this`stored
      ensures ok ==> stored == Some(metadata) && Encodes(metadata)
      ensures io.faultFree && Encodes(metadata) ==> ok
    {
      if !Encodes(metadata) {
        return false;
      }
      var faulty := io.Faulty();
      if faulty {
        var lost: bool := *;
        if lost {
          stored := None;
        }
        return false;
      }
      stored := Some(metadata);
      return true;
    }

    // finalize(): the map is written, the new files take the old ones' places, and the
    // metadata makes them count.
    method Finalize() returns (ok: bool)
      requires Valid() && phase == Finalizing
      modifies this`phase, this`metadata, this`stored, mapBytes, output, io
      ensures Valid() && phase == if ok then Ready else Failed
      ensures ok ==> stored == Some(metadata) && Sourced() && metadata.path == old(metadata).path
      ensures ok ==>
                && metadata.cover == cover && metadata.atCover == (cover != NoCover)
                && metadata.progress == EpubPosition(0, 0, 0)
      ensures ok ==> starts[..startsCount] == StartsOf(inputs) && Published(io.files) && Buildable(inputs)
      ensures ok ==> CoverSizeGood(metadata)
      ensures io.faultFree && 1 <= |inputs| <= SPINE_ITEM_LIMIT ==> ok
    {
      hide StartsOf, ContentOf, AllTaken, SpineOf, MapFile, PositionOf, TextOutput.Valid, IsCanonical, IdentityIn;
      ok := WriteFiles();
      if !ok {
        phase := Failed;
        return;
      }
      metadata := metadata.(contentSize := output.written, coverSize := if cover == NoCover then 0 else coverWritten,
                            cover := cover, spineCount := startsCount, progress := EpubPosition(0, 0, 0),
                            atCover := cover != NoCover);
      PublishedOpens(starts[..startsCount]);
      ok := WriteMetadata();
      phase := if ok then Ready else Failed;
    }

    // The files hold the content, its map and the cover.
    ghost predicate Published(files: map<FilePath, File>)
      reads this`inputs, this`cover, this`coverBytes
    {
      && |ContentOf(inputs)| < 0x1_0000_0000_0000_0000 && |StartsOf(inputs)| <= SPINE_ITEM_LIMIT
      && mapPath in files && files[mapPath].bytes == MapFile(StartsOf(inputs), |ContentOf(inputs)|)
      && contentPath in files && files[contentPath].bytes == ContentOf(inputs)
      && (cover != NoCover ==> coverPath in files && files[coverPath].bytes == coverBytes)
    }

    method WriteFiles() returns (ok: bool)
      requires Wiring() && Built() && Covered() && Sourced()
      modifies mapBytes, output, io
      ensures ok ==> Published(io.files) && Buildable(inputs) && Sourced()
      ensures ok ==> output.written == |ContentOf(inputs)|
      ensures ok && cover != NoCover ==> 0 < coverWritten == |coverBytes| <= COVER_SIZE_LIMIT
      ensures io.faultFree && 1 <= |inputs| <= SPINE_ITEM_LIMIT ==> ok
    {
      hide StartsOf, ContentOf, AllTaken, SpineOf, MapFile, IsCanonical, IdentityIn;
      assert starts[..startsCount] == StartsOf(inputs);
      var flushed := output.Flush();
      if inputs != [] {
        ContentIsSome(inputs);
      }
      if !flushed || output.written == 0 || startsCount == 0 {
        return false;
      }
      ok := WriteMap(output.written);
      if !ok {
        return;
      }
      ok := PutInPlace();
    }

    // The map of this many bytes of content, in its temporary file.
    method WriteMap(size: u64) returns (ok: bool)
      requires Wiring() && startsCount <= starts.Length && size != 0 && output.path in io.files
      modifies mapBytes, io
      ensures ok ==> startsCount <= SPINE_ITEM_LIMIT && temporaryMap in io.files
      ensures ok ==> io.files[temporaryMap].bytes == MapFile(starts[..startsCount], size)
      ensures OnlyChanged(old(io.files), io.files, temporaryMap)
      ensures io.faultFree && 0 < startsCount <= SPINE_ITEM_LIMIT ==> ok
    {
      hide MapFile;
      var length := EncodeMap(starts, startsCount, size, mapBytes);
      if length == 0 {
        return false;
      }
      var error := io.Write(temporaryMap, 0, mapBytes[..length], true);
      return error == Ok;
    }

    // The renames.
    method PutInPlace() returns (ok: bool)
      requires Wiring() && temporaryMap in io.files && output.path in io.files
      requires cover != NoCover ==> temporaryCover in io.files
      modifies io
      ensures ok ==> mapPath in io.files && contentPath in io.files
      ensures ok ==> io.files[mapPath] == old(io.files)[temporaryMap]
      ensures ok ==> io.files[contentPath] == old(io.files)[output.path]
      ensures ok && cover != NoCover ==> coverPath in io.files && io.files[coverPath] == old(io.files)[temporaryCover]
      ensures forall p :: p !in OwnFiles() ==>
                (p in io.files <==> p in old(io.files)) && (p in io.files ==> io.files[p] == old(io.files)[p])
      ensures io.faultFree ==> ok
    {
      var error := io.Replace(output.path, contentPath);
      if error == Ok {
        error := io.Replace(temporaryMap, mapPath);
      }
      if error == Ok && cover != NoCover {
        error := io.Replace(temporaryCover, coverPath);
      }
      return error == Ok;
    }

    lemma PublishedOpens(spine: seq<nat>)
      requires AllTaken(inputs) && 1 <= |inputs| <= SPINE_ITEM_LIMIT && spine == StartsOf(inputs)
      ensures SpineOf(spine, |ContentOf(inputs)|)
      ensures PositionOf(spine, 0) == EpubPosition(0, 0, 0)
      ensures 0 < |ContentOf(inputs)|
    {
      hide ContentOf, StartsOf, AllTaken;
      StartsAreSpineMap(inputs);
      PositionContains(spine, |ContentOf(inputs)|, 0);
    }

    // A whole rebuild, however the archive delivers cover and chapters. On a card without
    // faults it ends ready exactly for the books that can be built; then the card holds the
    // chapters' texts in order, the map that cuts them apart again, the cover if it is not too
    // large, and metadata that reopening accepts if it can be read back.
    method Rebuild(path: FilePath, kind: CoverKind, coverPieces: seq<seq<byte>>, book: seq<seq<seq<byte>>>)
      returns (ok: bool)
      requires Valid() && path !in OwnFiles() && IsCanonical(path)
      requires kind != NoCover ==> Joined(coverPieces) != []
      modifies this, mapBytes, filter, filter.token, filter.utf8, starts, output, output.output, io
      ensures Valid() && (ok ==> phase == Ready && rebuilt)
      ensures ok ==> inputs == Chapters(book) && Buildable(inputs) && Published(io.files)
      ensures ok ==> starts[..startsCount] == StartsOf(inputs) && stored == Some(metadata) && metadata.path == path
      ensures ok ==> (Reopens(metadata) <==> metadata.source.modified <= JSON_INTEGER_MAX)
      ensures ok && cover != NoCover ==> cover == kind && coverBytes == Joined(coverPieces)
      ensures ok && io.faultFree && |Joined(coverPieces)| <= COVER_SIZE_LIMIT ==> cover == kind
      ensures io.faultFree && path in old(io.files) && IsSource(old(io.files)[path]) ==>
                (ok <==> Buildable(Chapters(book)))
    {
      hide Building, Built, StartsOf, ContentOf, ChapterOf, Published, Reopens, IsCanonical, Joined, SourcedBy;
      hide CoveredBy, Valid, OnCard;
      hide Opened, AllTaken, IsSource, IdentityIn, Wiring, CoverWritten, Unbuilt;
      ChaptersCount(book);
      ok := BeginRebuild(path, Some(Package(|book|, kind)), true, true);
      if !ok {
        return;
      }
      ok := DeliverCover(kind, coverPieces);
      if !ok {
        return;
      }
      ok := DeliverBook(book);
      if !ok || phase != Finalizing {
        return false;
      }
      ok := Finalize();
      if ok {
        PublishedReopens();
      }
    }

    // The cover, if one is expected.
    method DeliverCover(kind: CoverKind, pieces: seq<seq<byte>>) returns (ok: bool)
      requires Valid() && inputs == [] && current == []
      requires if kind != NoCover then phase == InCover && cover == kind && coverBytes == [] && Joined(pieces) != []
               else phase != InCover && cover == NoCover
      requires phase != InCover ==> phase == if spineCount > 0 then InSpine else Finalizing
      modifies this`phase, this`startsCount, this`cover, this`coverWritten, this`coverStarted, this`coverBytes
      modifies filter, starts, output, io
      ensures Valid()
      ensures ok ==> inputs == [] && current == [] && phase == if spineCount > 0 then InSpine else Finalizing
      ensures ok && cover != NoCover ==> cover == kind && coverBytes == Joined(pieces)
      ensures ok && io.faultFree && |Joined(pieces)| <= COVER_SIZE_LIMIT ==> cover == kind
      ensures io.faultFree ==> ok
    {
      hide Valid, Joined;
      JoinedNone(pieces[..0]);
      var j := 0;
      while phase == InCover && j < |pieces|
        invariant 0 <= j <= |pieces|
        invariant Valid() && inputs == [] && current == []
        invariant phase == InCover ==> cover == kind != NoCover && coverBytes == Joined(pieces[..j])
        invariant phase != InCover ==> cover == NoCover && phase == if spineCount > 0 then InSpine else Finalizing
        invariant phase != InCover && kind != NoCover && io.faultFree ==> |Joined(pieces)| > COVER_SIZE_LIMIT
      {
        assert pieces[..j + 1] == pieces[..j] + [pieces[j]];
        JoinedMore(pieces[..j], pieces[j]);
        JoinedPart(pieces, j + 1);
        ok := StepCover(pieces[j], false, true, true);
        if !ok {
          return;
        }
        j := j + 1;
      }
      if phase != InCover {
        return true;
      }
      assert pieces[..j] == pieces;
      assert coverBytes + [] == coverBytes;
      ok := StepCover([], true, true, true);
    }

    method DeliverBook(book: seq<seq<seq<byte>>>) returns (ok: bool)
      requires Valid() && inputs == [] && current == [] && spineCount == |book|
      requires phase == if spineCount > 0 then InSpine else Finalizing
      modifies this`phase, this`spineIndex, this`startsCount, this`inputs, this`current
      modifies filter, filter.token, filter.utf8, starts, output, output.output, io
      ensures Valid()
      ensures ok ==> phase == Finalizing && inputs == Chapters(book)
      ensures (io.faultFree && |book| <= SPINE_ITEM_LIMIT && AllTaken(Chapters(book))
               && |ContentOf(Chapters(book))| <= CONTENT_SIZE_LIMIT) ==> ok
    {
      hide Valid, ContentOf, AllTaken, ChapterOf;
      ghost var good := io.faultFree && |book| <= SPINE_ITEM_LIMIT && AllTaken(Chapters(book))
                        && |ContentOf(Chapters(book))| <= CONTENT_SIZE_LIMIT;
      var i := 0;
      ok := true;
      while i < |book|
        invariant 0 <= i <= |book|
        invariant Valid() && phase == if i < |book| then InSpine else Finalizing
        invariant inputs == Chapters(book[..i]) && |inputs| == i && current == []
        invariant good == (io.faultFree && |book| <= SPINE_ITEM_LIMIT && AllTaken(Chapters(book))
                           && |ContentOf(Chapters(book))| <= CONTENT_SIZE_LIMIT)
      {
        if good {
          ChapterOfBookFits(book, i);
        }
        ok := DeliverChapter(book[i]);
        if !ok {
          return;
        }
        assert book[..i + 1] == book[..i] + [book[i]];
        ChaptersMore(book[..i], book[i]);
        i := i + 1;
      }
      assert book[..i] == book;
      return true;
    }

    method DeliverChapter(pieces: seq<seq<byte>>) returns (ok: bool)
      requires Valid() && current == [] && phase == InSpine && |inputs| < spineCount
      modifies this`phase, this`spineIndex, this`startsCount, this`inputs, this`current
      modifies filter, filter.token, filter.utf8, starts, output, output.output, io
      ensures Valid()
      ensures ok ==> inputs == old(inputs) + [Joined(pieces)] && current == []
      ensures ok ==> phase == if |inputs| < spineCount then InSpine else Finalizing
      ensures io.faultFree && spineCount <= SPINE_ITEM_LIMIT && old(Fits(ChapterOf(Joined(pieces)))) ==> ok
    {
      hide Valid, Joined, ChapterOf, ContentOf, FeedBytes;
      JoinedNone(pieces[..0]);
      ghost var fits := Fits(ChapterOf(Joined(pieces)));
      var j := 0;
      while j < |pieces|
        invariant 0 <= j <= |pieces|
        invariant Valid() && phase == InSpine && inputs == old(inputs) && current == Joined(pieces[..j])
      {
        JoinedMore(pieces[..j], pieces[j]);
        assert pieces[..j + 1] == pieces[..j] + [pieces[j]];
        if fits {
          PartFits(pieces, j + 1);
        }
        ok := StepChapter(pieces[j], false, true, true);
        if !ok {
          return false;
        }
        j := j + 1;
      }
      assert pieces[..j] == pieces;
      assert current + [] == current;
      ok := StepChapter([], true, true, true);
    }

    // A chapter that fits when it is finished fits all along.
    lemma ChapterFits(xhtml: seq<byte>)
      ensures Fits(ChapterOf(xhtml)) ==> Fits(FeedBytes(START, xhtml))
    {
      hide FeedBytes, Finish, ContentOf;
      FinishGrows(Feed(START, xhtml, true));
    }

    lemma PartFits(pieces: seq<seq<byte>>, j: nat)
      requires j <= |pieces| && Fits(ChapterOf(Joined(pieces)))
      ensures Fits(FeedBytes(START, Joined(pieces[..j])))
    {
      hide FeedBytes, Finish, ContentOf, ChapterOf;
      ChapterFits(Joined(pieces));
      JoinedSplit(pieces, j);
      var part, rest := Joined(pieces[..j]), Joined(pieces[j..]);
      FeedSplit(START, part, rest);
      FeedGrows(FeedBytes(START, part), rest);
      FailedStays(FeedBytes(START, part), rest);
    }

    // Chapter i of a book that can be built fits behind the chapters before it.
    lemma ChapterOfBookFits(book: seq<seq<seq<byte>>>, i: nat)
      requires i < |book| && inputs == Chapters(book[..i]) && AllTaken(Chapters(book))
      requires |ContentOf(Chapters(book))| <= CONTENT_SIZE_LIMIT
      ensures Fits(ChapterOf(Joined(book[i])))
    {
      hide ChapterOf, Joined;
      ChaptersAt(book, i);
      var all := Chapters(book);
      StartAt(all, i);
      assert all[..i + 1][..i] == all[..i] && all[..i + 1][i] == all[i];
      assert ContentOf(all[..i + 1]) == ContentOf(all[..i]) + ChapterOf(all[i]).output;
    }

    // save()
    method Save(linear: nat, atCover: bool) returns (ok: bool)
      requires Valid()
      modifies this`metadata, this`stored
      ensures Valid()
      ensures ok ==> old(Saves(linear, atCover)) && stored == Some(metadata)
      ensures old(Saves(linear, atCover)) && io.faultFree ==> ok
      ensures !old(Saves(linear, atCover)) ==> metadata == old(metadata) && stored == old(stored)
      ensures old(Saves(linear, atCover)) ==>
                metadata == old(metadata).(progress := PositionOf(starts[..startsCount], linear), atCover := atCover)
    {
      hide SpineOf, MapFile, PositionOf, Building, Built, SourcedBy, CoveredBy, CoverWritten;
      if phase != Ready || linear >= metadata.contentSize || startsCount != metadata.spineCount {
        return false;
      }
      SpineIsSorted(starts[..startsCount], metadata.contentSize);
      if atCover && (linear != 0 || metadata.cover == NoCover) {
        return false;
      }
      var position := PositionFromLinear(starts, startsCount, linear);
      metadata := metadata.(progress := position, atCover := atCover);
      PositionKeepsLinear(starts[..startsCount], linear);
      PositionContains(starts[..startsCount], metadata.contentSize, linear);
      ok := WriteMetadata();
    }

    // A position that save() takes: in the text of an open book, or on its cover.
    ghost predicate Saves(linear: nat, atCover: bool)
      reads this`phase, this`metadata, this`startsCount, starts
    {
      && phase == Ready && linear < metadata.contentSize && startsCount <= starts.Length
      && (startsCount > 0 ==> starts[0] == 0) && startsCount > 0
      && (atCover ==> linear == 0 && metadata.cover != NoCover)
    }

    // ----- Reopening

    // load_map()
    method LoadMap() returns (ok: bool)
      requires Wiring()
      modifies this`startsCount, mapBytes, starts
      ensures startsCount <= starts.Length
      ensures ok ==> startsCount == metadata.spineCount && mapPath in io.files &&
                     DecodeMap(io.files[mapPath].bytes, metadata.contentSize) == Some(starts[..startsCount])
      ensures io.faultFree && mapPath in io.files && |io.files[mapPath].bytes| <= MapSize(SPINE_ITEM_LIMIT) ==>
                ok == (DecodeMap(io.files[mapPath].bytes, metadata.contentSize).Some? &&
                       |DecodeMap(io.files[mapPath].bytes, metadata.contentSize).value| == metadata.spineCount)
    {
      hide DecodeMap;
      startsCount := 0;
      var error, length, size, _ := io.Read(mapPath, 0, mapBytes, mapBytes.Length);
      if error != Ok || length != size {
        return false;
      }
      assert mapBytes[..length] == io.files[mapPath].bytes;
      var decoded, count := DecodeMapInto(mapBytes[..length], metadata.contentSize, starts);
      startsCount := count;
      return decoded && count == metadata.spineCount;
    }

    // validate_file()
    method ValidateFile(path: FilePath, expected: nat) returns (ok: bool)
      ensures ok ==> path in io.files && |io.files[path].bytes| == expected
      ensures io.faultFree && path in io.files && |io.files[path].bytes| == expected ==> ok
    {
      var probe := new byte[1];
      var error, length, size, _ := io.Read(path, 0, probe, 1);
      return error == Ok && size == expected && length == Min(1, expected);
    }

    // The files of a cache, and the position in its map.
    method ValidateFiles() returns (ok: bool)
      requires Wiring() && Encodes(metadata)
      modifies this`startsCount, mapBytes, starts
      ensures startsCount <= starts.Length
      ensures ok ==> Opened()
      ensures io.faultFree && FilesServe(metadata) ==> ok
    {
      hide DecodeMap, SpineOf, MapFile, PositionOf;
      startsCount := 0;
      ok := ValidateFile(contentPath, metadata.contentSize);
      if !ok {
        return;
      }
      ok := LoadMap();
      ServedMap();
      if !ok {
        return;
      }
      if metadata.cover != NoCover {
        ok := ValidateFile(coverPath, metadata.coverSize);
        if !ok {
          return;
        }
      }
      MapIsUnique(io.files[mapPath].bytes, metadata.contentSize);
      SpineIsSorted(starts[..startsCount], metadata.contentSize);
      var position := PositionFromLinear(starts, startsCount, metadata.progress.linearOffset);
      if position.spineIndex != metadata.progress.spineIndex ||
         position.contentOffset != metadata.progress.contentOffset
      {
        return false;
      }
      PositionKeepsLinear(starts[..startsCount], metadata.progress.linearOffset);
      return true;
    }

    // validate_cached(): whatever is on the card, what it accepts can be read and its
    // position lies in a chapter; what finalize() and save() left is accepted.
    method ValidateCached(path: FilePath) returns (ok: bool)
      requires Wiring()
      modifies this`metadata, this`startsCount, this`stored, this`rebuilt, mapBytes, starts
      ensures startsCount <= starts.Length
      ensures ok ==> Opened() && stored == Some(metadata) && old(stored).Some?
      ensures ok ==> metadata.path == path && path in io.files && SameSource(old(stored).value, io.files[path])
      ensures ok ==> metadata == Renewed(old(stored).value, IdentityIn(io.files[path]))
      ensures ok ==> rebuilt == (old(rebuilt) || old(stored).value.paginationVersion != PAGINATION_VERSION)
      ensures io.faultFree && old(stored).Some? && old(stored).value.path == path && old(Reopens(stored.value)) ==> ok
    {
      hide DecodeMap, SpineOf, MapFile, PositionOf, IsCanonical, FingerprintOf, Opened, FilesServe;
      startsCount := 0;
      if stored == None || !Decodes(stored.value) || stored.value.path != path ||
         stored.value.parserVersion != PARSER_VERSION
      {
        return false;
      }
      metadata := stored.value;
      var current := SourceIdentity(path);
      if current == None || current.value.fileSize != metadata.source.fileSize ||
         current.value.fingerprint != metadata.source.fingerprint {
        return false;
      }
      ok := ValidateFiles();
      if !ok {
        return;
      }
      ok := Renew(current.value);
    }

    // The end of validate_cached().
    method Renew(current: Identity) returns (ok: bool)
      requires Wiring() && Opened() && stored == Some(metadata)
      modifies this`metadata, this`stored, this`rebuilt
      ensures metadata == Renewed(old(metadata), current)
      ensures rebuilt == (old(rebuilt) || old(metadata).paginationVersion != PAGINATION_VERSION)
      ensures ok ==> Opened() && stored == Some(metadata)
      ensures io.faultFree ==> ok
    {
      hide SpineOf, MapFile, PositionOf;
      var dirty := current.modified != metadata.source.modified;
      if dirty {
        metadata := metadata.(source := current);
      }
      if metadata.paginationVersion != PAGINATION_VERSION {
        metadata := metadata.(paginationVersion := PAGINATION_VERSION, progress := EpubPosition(0, 0, 0),
                              atCover := metadata.cover != NoCover);
        StartOfSpine(starts[..startsCount], metadata.contentSize);
        rebuilt := true;
        dirty := true;
      }
      ok := true;
      if dirty {
        ok := WriteMetadata();
      }
    }

    // open(): what is cached is taken when it is accepted; otherwise the cache is built anew.
    method Open(path: FilePath, package: Option<Package>, coverFound: bool, found: bool) returns (ok: bool)
      requires Valid()
      requires Canonical(path, Paths.BOOK_PATH_CAPACITY).Path? ==>
                Canonical(path, Paths.BOOK_PATH_CAPACITY).bytes !in OwnFiles()
      modifies this, mapBytes, filter, starts, output, io
      ensures Valid()
      ensures ok ==> Canonical(path, Paths.BOOK_PATH_CAPACITY) == Paths.Path(metadata.path)
      ensures ok ==> phase == Ready || phase == InCover || phase == InSpine || phase == Finalizing
      ensures ok && phase == Ready ==> stored == Some(metadata) && !Canonical(path, Paths.BOOK_PATH_CAPACITY).Rejected?
      ensures ok && phase == Ready ==> io.files == old(io.files) && old(stored).Some?
      ensures ok ==> rebuilt == (phase != Ready || old(stored).value.paginationVersion != PAGINATION_VERSION)
      ensures !ok ==> phase == Failed || (phase == Idle && Canonical(path, Paths.BOOK_PATH_CAPACITY).Rejected?)
      ensures (io.faultFree && old(stored).Some? && old(Reopens(stored.value))
               && Canonical(path, Paths.BOOK_PATH_CAPACITY) == Paths.Path(old(stored).value.path)) ==>
                ok && phase == Ready && metadata.path in io.files && IsSource(io.files[metadata.path]) &&
                metadata == Renewed(old(stored).value, IdentityIn(io.files[metadata.path])) &&
                io.files == old(io.files)
    {
      hide Building, Built, Opened, FilesServe, Canonical, SourcedBy, CoveredBy, CoverWritten, Unbuilt, FingerprintOf;
      hide Decodes;
      phase := Idle;
      var canonical := new byte[Paths.BOOK_PATH_CAPACITY];
      var good, used := CanonicalPath(path, canonical);
      if !good {
        return false;
      }
      CanonicalTwice(path, Paths.BOOK_PATH_CAPACITY);
      rebuilt := false;
      var cached := ValidateCached(canonical[..used]);
      if cached {
        phase := Ready;
        return true;
      }
      ok := BeginRebuild(canonical[..used], package, coverFound, found);
    }

    // The card holds the map, the content and the cover that the metadata describes.
    ghost predicate FilesServe(m: CacheMetadata)
      reads io
    {
      ServedBy(io.files, m)
    }

    ghost predicate ServedBy(files: map<FilePath, File>, m: CacheMetadata) {
      exists spine ::
        && SpineOf(spine, m.contentSize) && |spine| == m.spineCount && OnCard(files, spine, m)
        && m.progress == PositionOf(spine, m.progress.linearOffset)
    }

    // What validate_cached() accepts: a record that can be read, of this parser, the source it
    // speaks of, and its files.
    ghost predicate Reopens(m: CacheMetadata)
      reads io
    {
      && Decodes(m) && m.parserVersion == PARSER_VERSION
      && m.path in io.files && SameSource(m, io.files[m.path])
      && FilesServe(m)
    }

    lemma ServedMap()
      ensures FilesServe(metadata) ==>
                mapPath in io.files && |io.files[mapPath].bytes| <= MapSize(SPINE_ITEM_LIMIT) &&
                DecodeMap(io.files[mapPath].bytes, metadata.contentSize).Some? &&
                var spine := DecodeMap(io.files[mapPath].bytes, metadata.contentSize).value;
                |spine| == metadata.spineCount && SpineOf(spine, metadata.contentSize) &&
                OnCard(io.files, spine, metadata) &&
                metadata.progress == PositionOf(spine, metadata.progress.linearOffset)
    {
      hide DecodeMap, MapFile, PositionOf, Increasing;
      if FilesServe(metadata) {
        var spine :| SpineOf(spine, metadata.contentSize) && |spine| == metadata.spineCount &&
                     OnCard(io.files, spine, metadata) &&
                     metadata.progress == PositionOf(spine, metadata.progress.linearOffset);
        MapRoundTrip(spine, metadata.contentSize);
      }
    }

    // The files of an open cache serve it, whatever position was saved last.
    lemma OpenedServes()
      requires Wiring() && Opened()
      ensures FilesServe(metadata)
    {
      hide SpineOf, MapFile, PositionOf;
    }

    // What is open would be accepted again, if its record can be read back.
    lemma OpenedReopens()
      requires Wiring() && Opened() && Decodes(metadata) && metadata.parserVersion == PARSER_VERSION
      requires metadata.path in io.files && SameSource(metadata, io.files[metadata.path])
      ensures Reopens(metadata)
    {
      hide Opened, FilesServe, Decodes, SameSource;
      OpenedServes();
    }

    // A cache just built: only a source time beyond what JSON carries keeps it from being
    // accepted again.
    lemma PublishedReopens()
      requires Valid() && phase == Ready && Sourced()
      requires CoverSizeGood(metadata)
      requires metadata.progress == EpubPosition(0, 0, 0)
      ensures Reopens(metadata) <==> metadata.source.modified <= JSON_INTEGER_MAX
    {
      hide Opened, FilesServe, IsCanonical, FingerprintOf;
      assert Encodes(metadata) by { OpenedEncodes(); }
      OpenedServes();
    }

    // cancel(), and the source is given this time.
    method CloseAndTouch(modified: int)
      requires Valid() && phase == Ready && Reopens(metadata) && metadata.path !in OwnFiles() && 0 <= modified
      modifies this`phase, io
      ensures Valid() && Reopens(metadata)
      ensures metadata.path in io.files && io.files[metadata.path].modified == modified
    {
      hide ServedBy, IsCanonical, FingerprintOf, Opened, Building, Built, Decodes;
      ghost var before := io.files;
      phase := Idle;
      io.Touch(metadata.path, modified);
      TouchedServes(before, metadata, metadata.path, io.files[metadata.path]);
    }

    // open() of what can be reopened.
    method OpenCached() returns (ok: bool)
      requires Valid() && Reopens(metadata) && stored == Some(metadata) && metadata.path !in OwnFiles()
      requires io.files[metadata.path].modified <= JSON_INTEGER_MAX
      modifies this, mapBytes, filter, starts, output, io
      ensures Valid()
      ensures io.faultFree ==>
                && ok && phase == Ready && stored == Some(metadata) && Reopens(metadata)
                && old(metadata).path in old(io.files) && IsSource(old(io.files)[old(metadata).path])
                && metadata == Renewed(old(metadata), IdentityIn(old(io.files)[old(metadata).path]))
    {
      hide Building, Built, Opened, FilesServe, SourcedBy, CoveredBy, CoverWritten, Unbuilt, FingerprintOf, PositionOf;
      hide Canonical, Decodes, SameSource, IsSource, Valid, Reopens;
      ReopensWhat(metadata);
      ok := Open(metadata.path, None, false, false);
      if io.faultFree {
        RenewedReopens(old(metadata));
      }
    }

    // Closing the book and opening it again, the source with another time or not: reading goes
    // on where the record says, and the record has the time of the source. A record of another
    // pagination is read from the start, or from the cover if there is one.
    method Reopen(modified: int) returns (ok: bool)
      requires Valid() && phase == Ready && Reopens(metadata) && stored == Some(metadata)
      requires metadata.path !in OwnFiles() && 0 <= modified <= JSON_INTEGER_MAX
      modifies this, mapBytes, filter, starts, output, io
      ensures Valid()
      ensures io.faultFree ==>
                && ok && phase == Ready && stored == Some(metadata) && Reopens(metadata)
                && metadata.source.modified == modified && metadata.paginationVersion == PAGINATION_VERSION
                && metadata.path == old(metadata.path) && metadata.contentSize == old(metadata.contentSize)
                && metadata.cover == old(metadata.cover)
                && if old(metadata.paginationVersion) == PAGINATION_VERSION then
                     metadata.progress == old(metadata.progress) && metadata.atCover == old(metadata.atCover)
                   else metadata.progress.linearOffset == 0 && (metadata.atCover <==> metadata.cover != NoCover)
    {
      hide FilesServe, FingerprintOf, Reopens, Valid, Decodes;
      CloseAndTouch(modified);
      ok := OpenCached();
    }

    // Saving a position, closing the book and opening it again: reading goes on at the same
    // byte, or on the cover. This can be repeated.
    method SaveAndReopen(linear: nat, atCover: bool, modified: int) returns (ok: bool)
      requires Valid() && phase == Ready && Saves(linear, atCover) && Reopens(metadata)
      requires metadata.paginationVersion == PAGINATION_VERSION && metadata.path !in OwnFiles()
      requires 0 <= modified <= JSON_INTEGER_MAX
      modifies this, mapBytes, filter, starts, output, io
      ensures Valid()
      ensures io.faultFree ==>
                && ok && phase == Ready && stored == Some(metadata) && Reopens(metadata)
                && metadata.progress.linearOffset == linear && metadata.atCover == atCover
                && metadata.source.modified == modified && metadata.path == old(metadata.path)
                && metadata.contentSize == old(metadata.contentSize) && metadata.cover == old(metadata.cover)
                && metadata.paginationVersion == PAGINATION_VERSION
    {
      hide Building, Built, Opened, FilesServe, SourcedBy, CoveredBy, CoverWritten, Unbuilt, FingerprintOf, PositionOf;
      hide Canonical, Decodes, SameSource, IsSource, Reopens;
      PositionKeepsLinear(starts[..startsCount], linear);
      ghost var before := metadata;
      ok := Save(linear, atCover);
      if ok {
        SavedReopens(before);
        ok := Reopen(modified);
      }
    }

    lemma ReopensWhat(m: CacheMetadata)
      requires Valid() && Reopens(m)
      ensures Wiring() && m.path in io.files && Canonical(m.path, Paths.BOOK_PATH_CAPACITY) == Paths.Path(m.path)
    {
      hide FilesServe, SameSource;
    }

    twostate lemma RenewedReopens(m: CacheMetadata)
      requires Valid() && phase == Ready && old(Reopens(m)) && io.files == old(io.files) && IsSource(io.files[m.path])
      requires metadata == Renewed(m, IdentityIn(io.files[m.path])) && io.files[m.path].modified <= JSON_INTEGER_MAX
      ensures Reopens(metadata)
    {
      hide FilesServe, IsCanonical, FingerprintOf, PositionOf, MapFile;
      OpenedServes();
      OffsetBelow(starts[..startsCount], metadata.progress.linearOffset);
    }

    lemma SavedReopens(before: CacheMetadata)
      requires Wiring() && Opened() && Reopens(before)
      requires metadata == before.(progress := metadata.progress, atCover := metadata.atCover)
      ensures Reopens(metadata)
    {
      hide FilesServe, IsCanonical, FingerprintOf, PositionOf, MapFile;
      OpenedServes();
      OffsetBelow(starts[..startsCount], metadata.progress.linearOffset);
    }

    lemma TouchedServes(before: map<FilePath, File>, m: CacheMetadata, path: FilePath, file: File)
      requires ServedBy(before, m) && path !in OwnFiles()
      ensures ServedBy(before[path := file], m)
    {
      hide PositionOf, MapFile;
      var spine :| SpineOf(spine, m.contentSize) && |spine| == m.spineCount && OnCard(before, spine, m) &&
                   m.progress == PositionOf(spine, m.progress.linearOffset);
      assert OnCard(before[path := file], spine, m);
    }

    lemma OpenedEncodes()
      requires Opened()
      ensures Encodes(metadata)
    {
    }
  }

  // The XHTML of each chapter, put together.
  function Chapters(book: seq<seq<seq<byte>>>): seq<seq<byte>> {
    if book == [] then [] else Chapters(book[..|book| - 1]) + [Joined(book[|book| - 1])]
  }

  lemma ChaptersMore(book: seq<seq<seq<byte>>>, chapter: seq<seq<byte>>)
    ensures Chapters(book + [chapter]) == Chapters(book) + [Joined(chapter)]
  {
    assert (book + [chapter])[..|book|] == book;
  }

  lemma JoinedNone(pieces: seq<seq<byte>>)
    requires pieces == []
    ensures Joined(pieces) == []
  {
  }

  lemma {:induction false} JoinedMore(pieces: seq<seq<byte>>, piece: seq<byte>)
    ensures Joined(pieces + [piece]) == Joined(pieces) + piece
    decreases |pieces|
  {
    if pieces == [] {
      assert pieces + [piece] == [piece];
      JoinedOne(piece);
    } else {
      assert (pieces + [piece])[1..] == pieces[1..] + [piece];
      JoinedMore(pieces[1..], piece);
    }
  }

  lemma ContentIsSome(inputs: seq<seq<byte>>)
    requires AllTaken(inputs) && inputs != []
    ensures |ContentOf(inputs)| > 0
  {
    hide ChapterOf;
    ChapterIsSome(inputs[|inputs| - 1]);
  }

  lemma SpineIsSorted(starts: seq<nat>, size: nat)
    requires SpineOf(starts, size)
    ensures starts != [] && starts[0] == 0 && Increasing(starts) && |starts| <= SPINE_ITEM_LIMIT
  {
  }

  lemma PositionKeepsLinear(starts: seq<nat>, linear: nat)
    requires starts != [] && starts[0] == 0
    ensures PositionOf(starts, linear).linearOffset == linear
  {
  }

  lemma OffsetBelow(starts: seq<nat>, linear: nat)
    requires starts != [] && starts[0] == 0
    ensures PositionOf(starts, linear).contentOffset <= linear
  {
  }

  lemma StartOfSpine(starts: seq<nat>, size: nat)
    requires SpineOf(starts, size)
    ensures starts != [] && starts[0] == 0 && PositionOf(starts, 0) == EpubPosition(0, 0, 0)
  {
    PositionContains(starts, size, 0);
  }

  lemma {:induction false} JoinedSplit(pieces: seq<seq<byte>>, j: nat)
    requires j <= |pieces|
    ensures Joined(pieces) == Joined(pieces[..j]) + Joined(pieces[j..])
    decreases |pieces|
  {
    if j > 0 {
      assert pieces[..j][1..] == pieces[1..][..j - 1] && pieces[1..][j - 1..] == pieces[j..];
      JoinedSplit(pieces[1..], j - 1);
    }
  }

  lemma JoinedPart(pieces: seq<seq<byte>>, j: nat)
    requires j <= |pieces|
    ensures |Joined(pieces[..j])| <= |Joined(pieces)|
  {
    hide Joined;
    JoinedSplit(pieces, j);
  }

  lemma {:induction false} ChaptersCount(book: seq<seq<seq<byte>>>)
    ensures |Chapters(book)| == |book|
    decreases |book|
  {
    if book != [] {
      ChaptersCount(book[..|book| - 1]);
    }
  }

  // Writing at the end of a file.
  lemma AppendedEnd(before: seq<byte>, data: seq<byte>)
    ensures Overwritten(before, |before|, data) == before + data
  {
  }

  lemma {:induction false} ChaptersAt(book: seq<seq<seq<byte>>>, i: nat)
    requires i < |book|
    ensures |Chapters(book)| == |book| && Chapters(book)[i] == Joined(book[i])
    ensures Chapters(book)[..i] == Chapters(book[..i])
    decreases |book|
  {
    var front := book[..|book| - 1];
    if i < |front| {
      ChaptersAt(front, i);
      assert front[..i] == book[..i];
    } else if i > 0 {
      ChaptersAt(front, i - 1);
    }
  }
}
