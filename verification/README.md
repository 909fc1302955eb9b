# Verification of the SeeSeeBook firmware's reading pipeline

A Dafny model of the parts of the firmware on which reading depends, and proofs about it.

* **Text to pages** (`Utf8`, `Paginator`, `Pages`, `PageRows`, `PageChain`). The streaming paginator
  with its in-place buffers, the shape of a page, its lines as the rows of the text's paragraphs, and
  the page list of a book: the reference for all that follows. Glyph widths are an arbitrary function, the text any byte sequence.
* **The page index** (`Crc32`, `LittleEndian`, `BookFormat`, `BookMetadata`, `Disk`, `IndexModel`,
  `IndexEngine`). The resumable engine that paginates through a 4 KiB buffer, logs page starts
  through a 512-byte one, validates and publishes the file, and answers queries by binary search
  on a card whose contents are arbitrary and whose operations may fail.
* **Reader navigation** (`ReaderNavigation`, `ReadingSession`). Next and previous page by history,
  by index query and by rebuilding from the start; and reader and index engine together.
* **EPUB text** (`Paths`, `Resolving`, `BookPath`, `XhtmlText`, `XhtmlDocument`, `XhtmlFilter`,
  `ContentSink`, `SpineMap`, `EpubCache`). The XHTML filter, the in-place path resolvers, the chapter
  map and the cache built from them. The filter and its sink are classes that work on their buffers;
  `XhtmlText` is what they compute, `XhtmlDocument` what it means for a document, `Resolving` what a
  relative reference means.
* **Ownership protocols** (`FramePool`, `FrameProtocol`, `ResultPool`, `CatalogHandshake`). Display
  frames, storage results and the catalog's pause, as atomic steps of any number of interleaved
  tasks; the frame pool also as the object it is.
* **Small machines** (`GhostDebt`, `Buttons`, `Calendar`, `ClockCache`). Refresh debt, the two
  buttons and the cached clock, over all runs.

An imperative part of the firmware is a class or a method with loops, proved against a function
of values; what the part is for is proved about that function.

## Assumptions

* A file that keeps its size and modification time keeps its bytes, and only the engine writes its
  own files. Index engine and reader check size and time on every read, as the code does.
* `IndexEngine.IsBookName`: a path and its canonical form name the same file, which is none of the
  engine's own.
* `IndexEngine.BookIndexEngine.Prints` and `Codes`: the JSON printer handles every valid record, and
  the text of a record parses back to it and fits the engine's buffer. `OpenAndFinish` needs the
  first, `SaveAndReopen` both; `CodecExists` gives a codec that meets them.
* `ReaderNavigation.Truthful`: the offset at which the service resumes is a page start, and a book
  whose file the reader has given up is not announced as opened in the same session. That queries
  and announcements come from the page list of the text shown is proved in `ReadingSession` for an
  index that the engine has built from it.
* One task reads the cached clock, as `system_event_dispatcher_update` is the only caller;
  `ClockCache.TwoReadersStayExact` says what a second one would do. One controller pauses the
  catalog, and a storage result is retained by its owners only.

## Model

| member | source | states |
|---|---|---|
| `Utf8.DecodeBytes` | core/include/core/utf8.hpp:9-46 | the decoding loop answers as the reference decoder does: complete with its code point, incomplete, or invalid |
| `Utf8.DecodeCharacterized` | core/include/core/utf8.hpp:9-46 | decoding answers `Complete(cp, n)` exactly when cp is a Unicode scalar value and the first n bytes are its encoding |
| `Utf8.DecodePrefix` | core/include/core/utf8.hpp:8-46 | a proper prefix of a character only asks for more bytes, and bytes after a character do not change how it is read |
| `Utf8.DecodeDecides` | core/include/core/utf8.hpp:9-46 | four bytes always decide, so a four-byte pending buffer suffices |
| `Utf8.EncodeBytes` | core/include/core/utf8.hpp:48-71 | the encoder writes the encoding table of RFC 3629, section 3 |
| `Utf8.EncodeOrdered` | core/include/core/utf8.hpp:48-71 | encodings are ordered byte by byte as their code points are |
| `Paginator.ReaderPaginator.ResetTo` | core/text_paginator.cpp:8-26 | reset() leaves the in-place paginator in the specified starting state, whatever it held |
| `Paginator.ReaderPaginator.AppendChar` | core/text_paginator.cpp:39-89 | append() on the buffers does what the specified step does: swallowed LF, full page, BOM, line ends, replacement characters, wrapping, capacities |
| `Paginator.ReaderPaginator.FeedData` | core/text_paginator.cpp:91-127 | feed() over the pending, text and line arrays equals the specified feeding of the value they stand for |
| `Paginator.FeedSplit` | core/text_paginator.cpp:91-127 | feeding two pieces equals feeding their concatenation: same page, status and read offset, wherever the cut is |
| `Paginator.FeedBlocksIsFeed` | core/text_paginator.cpp:91-127 | any sequence of blocks gives the same as one block |
| `Pages.AppendShaped` | core/text_paginator.cpp:28-89 | a character keeps the lines a partition of the page text within the byte and line capacities, each line within the width unless it is one character |
| `Pages.FeedBytesReads` | core/text_paginator.cpp:91-127 | while feeding, the page shows exactly the characters read since its start, none split |
| `Pages.PageIsGood` | core/text_paginator.cpp:8-127 | a finished page has that shape, shows exactly its source range, and is either the last page or one that moves forward; it fails only on an unusable layout or ill-formed text |
| `PageRows.PageIsLaidOut` | core/text_paginator.cpp:8-127 | the lines of a finished page are the rows of the stretch it stands for: cut into paragraphs at CR, LF and CR LF, each wrapped into rows of as many glyphs as fit but at least one; a page that is not the last ends before the character whose row would be one too many or which has no room; it is empty when nothing but a byte order mark was read |
| `PageRows.RowsSnoc` | core/text_paginator.cpp:28-89 | one character more in those rows: the LF of a CR LF changes nothing, any other line end starts an empty row, a visible character goes on the last row exactly if it fits there or the row is empty |
| `PageChain.ChainExists` | core/text_paginator.cpp:39-127 | following next-page offsets from a page start ends exactly for a usable layout and well-formed text |
| `PageChain.LinkedIncreasing` | core/text_paginator.cpp:39-127 | page starts strictly increase inside the file, so there are no more pages than bytes |
| `PageChain.LinkedIsChain` | core/text_paginator.cpp:39-127 | the list of pages from a start is determined by it |
| `PageChain.PagesShowTheBook` | core/text_paginator.cpp:39-89 | the page texts in order are the characters of the file without line ends and leading BOM, tabs as spaces, other controls as `?` |
| `PageChain.BreaksAreClean` | core/text_paginator.cpp:39-89 | no page break falls inside a character or between CR and LF, and every page advances |
| `PageChain.BookIsPaginated` | core/text_paginator.cpp:8-127 | the whole book has a page list from byte 0 exactly when the layout has a width, lines and a glyph width and the text is well-formed, and its pages show exactly its visible characters |
| `Crc32.ChecksumBlock` | services/book/book_format.cpp:230-239 | the bitwise loop computes the CRC of section 8 of RFC 1952, continued from a previous value |
| `Crc32.StepInjective` | services/book/book_format.cpp:230-239 | the register step is injective in the register and in the byte |
| `Crc32.CrcSplit` | services/book/book_format.cpp:230-239 | the checksum of a concatenation is the checksum continued over its second part |
| `Crc32.CrcDetects` | services/book/book_format.cpp:230-239 | changing any single byte changes the checksum |
| `LittleEndian.Store` | services/book/book_format.cpp:266-269 | the n bytes written are the low-order bytes, lowest first, and nothing else in the buffer changes |
| `LittleEndian.Load` | services/book/book_format.cpp:271-276 | the loop over shifted bytes reads that value back |
| `LittleEndian.ValueOfBytes` | services/book/book_format.cpp:266-276 | decoding inverts encoding on every value that fits |
| `BookFormat.EncodeHeader` | services/book/book_format.cpp:278-289 | the header is written into the buffer field by field with its checksum over the first 36 bytes, zeros reserved, the rest untouched |
| `BookFormat.HeaderSlices` | services/book/book_format.cpp:278-289 | which field of the header stands at which offset, each little-endian |
| `BookFormat.HeaderRoundTrip` | services/book/book_format.cpp:278-305 | an encoded header decodes to itself exactly when it describes the text and the size of the file it stands in |
| `BookFormat.HeaderBytesUnique` | services/book/book_format.cpp:291-305 | only the encoding of a header decodes to it: all 48 bytes are accounted for |
| `BookFormat.CheckedIsIndex` | services/book/book_format.cpp:307-311 | the entry-by-entry check accepts exactly the lists that start at 0, strictly increase and stay below the file size |
| `BookFormat.PublishedIsAccepted` | services/book/book_format.cpp:278-311 | a written index file is accepted and yields the same page starts |
| `BookFormat.OneByteIsDetected` | services/book/book_format.cpp:278-305 | changing any single byte of an accepted index file, header or payload, makes it rejected |
| `BookMetadata.WindowsInside` | services/book/book_format.cpp:241-248 | the three fingerprint windows lie inside the file, at its start, about its middle and at its end, and each is the whole of a file of up to 4 KiB |
| `BookMetadata.WindowsCover` | services/book/book_format.cpp:241-248 | together they see every byte of the file exactly up to 12 KiB |
| `BookMetadata.PackRoundTrip` | services/book/book_format.cpp:156-232 | a record of 32-bit and JSON-exact numbers and a canonical path fits its buffer and comes back from its text, for the reference codec |
| `IndexModel.PageOfContains` | services/book/book_index_engine.cpp:322-337 | the located page is the last one that does not start after the target |
| `IndexModel.PageOfUnique` | services/book/book_index_engine.cpp:322-337 | there is only one such page |
| `IndexModel.LocatedMeans` | services/book/book_index_engine.cpp:322-337 | a lookup gives the page asked for by number if it exists, and else the last page that starts at or before the offset, with its start |
| `IndexModel.LocatingTwice` | services/book/book_index_engine.cpp:322-337 | locating what was located, by offset or by page, changes nothing |
| `IndexModel.FoundAll` | services/book/book_index_engine.cpp:235-262 | page starts found one page at a time are the page list of the book once the last page is reached |
| `IndexModel.FeedMeetsPage` | services/book/book_index_engine.cpp:235-262 | feeding what a disk buffer holds either goes on or ends the page exactly as paginating all the remaining text would |
| `IndexModel.CheckedMore` | services/book/book_index_engine.cpp:264-304 | an entry passes exactly when the checked list with it is still an index |
| `IndexModel.LoggedIsRefused` | services/book/book_index_engine.cpp:191-212 | a temporary index still being written is no index of any text, so a rebuild broken off leaves nothing that would be taken for one |
| `IndexEngine.BookIndexEngine.TextRead` | services/book/book_index_engine.cpp:43-55 | text_read() yields the bytes of the book at the offset, only while the file has the size and the time it had on opening |
| `IndexEngine.BookIndexEngine.FlushOffsets` | services/book/book_index_engine.cpp:215-224 | the 512-byte buffer is emptied behind the entries already in the temporary file; no other file changes |
| `IndexEngine.BookIndexEngine.AppendOffset` | services/book/book_index_engine.cpp:226-233 | one page start is appended to the logged list across buffer and file, and the running checksum stays that of the whole list |
| `IndexEngine.BookIndexEngine.FillBuffer` | services/book/book_index_engine.cpp:235-262 | the 4 KiB buffer holds the text around the paginator's read offset, or the book ends there |
| `IndexEngine.BookIndexEngine.BeginRebuild` | services/book/book_index_engine.cpp:197-213 | a rebuild starts scanning with page 0 logged in a fresh temporary file |
| `IndexEngine.BookIndexEngine.ScanStep` | services/book/book_index_engine.cpp:235-262 | a scan step keeps the invariant, advances, and fails on a fault-free card only for a book that cannot be indexed |
| `IndexEngine.BookIndexEngine.ValidateStep` | services/book/book_index_engine.cpp:264-304 | a validation step checks further entries of arbitrary file bytes; on a fault-free card a sound cached file is never rejected, and an unsound one never becomes ready |
| `IndexEngine.BookIndexEngine.CompleteIndex` | services/book/book_index_engine.cpp:339-354 | the engine becomes ready only with a usable published index, with both positions looked up in it, the metadata written for a new one, and the ready event as its last |
| `IndexEngine.BookIndexEngine.ReadOffset` | services/book/book_index_engine.cpp:306-320 | an entry read from disk is the page start of that number |
| `IndexEngine.BookIndexEngine.Locate` | services/book/book_index_engine.cpp:322-337 | the binary search on disk finds the page the specification names, by page number or by clamped offset |
| `IndexEngine.BookIndexEngine.Query` | services/book/book_index_engine.cpp:356-367 | when ready, a query answers with that page and changes the position to it; before that, with the offset asked for if it lies inside the book; other sessions are ignored |
| `IndexEngine.BookIndexEngine.Save` | services/book/book_index_engine.cpp:369-377 | a saved offset becomes the position of its page, the metadata file holds it, the saved event tells it, and the index file stays as it is; an offset outside the book changes nothing |
| `IndexEngine.BookIndexEngine.Open` | services/book/book_index_engine.cpp:101-189 | from arbitrary card contents: a foreign record fails, a cache that belongs to the text is validated with its own header and position, everything else is scanned to resume at the recorded offset of the same text or else the fallback; the session is the new one, and the last event tells it where reading resumes, or the error |
| `IndexEngine.BookIndexEngine.Step` | services/book/book_index_engine.cpp:379-384 | every step of a working engine lowers the measure (phase, distance of the latest page start from the end, unread bytes); a step that fails has told so in an error event of the session |
| `IndexEngine.BookIndexEngine.Run` | services/book/book_index_engine.cpp:379-384 | stepping always ends, ready or failed with the error told; a sound cached index is taken over as it is, an unsound one is never; reading resumes where it was to, by page in an index taken over and by offset in a rebuilt one; on a fault-free card only books that cannot be indexed fail |
| `IndexEngine.BookIndexEngine.PublishedIsSearchable` | services/book/book_index_engine.cpp:264-337 | whenever the engine is ready its index starts at 0, strictly increases and stays below the file size |
| `IndexEngine.BookIndexEngine.BuiltIsIndex` | services/book/book_index_engine.cpp:235-354 | an index built here is byte for byte the file of the plain page list of the book |
| `IndexEngine.BookIndexEngine.OpenAndFinish` | services/book/book_index_engine.cpp:101-384 | opening and stepping to the end on a fault-free card, from whatever is on it: failed for a foreign record; the cached index as it was, at the saved page, exactly when it belongs to the text and is sound; otherwise ready exactly when the book can be indexed, with the header and the little-endian list of plain page starts as the published file, at the page that holds the recorded or fallback offset. With or without faults, an index built carries the fingerprint of the text, and a record is written again for it and for a text whose time has changed |
| `IndexEngine.BookIndexEngine.CodecExists` | services/book/book_format.cpp:145-232 | what is assumed of the JSON codec can be met: a printer and a parser that handle every valid record, within the buffer, and back |
| `IndexEngine.BookIndexEngine.Reopen` | services/book/book_index_engine.cpp:101-189 | an index whose record is on the card is taken over as it is when the book is opened again, given that records parse back from their text |
| `IndexEngine.BookIndexEngine.ReopenTouched` | services/book/book_index_engine.cpp:101-189 | after a change of nothing but the modification time the index is taken over at the saved page, and the record on the card is renewed |
| `IndexEngine.BookIndexEngine.SaveAndReopen` | services/book/book_index_engine.cpp:101-377 | a position that was saved is the one at which the reopened book resumes, in the same index of the same text |
| `Paths.ReducePath` | services/book/epub_format.cpp:233-337 | the in-place loop that pops `..` by truncating bytes equals reducing a stack of names in the same buffer size |
| `Paths.NormalizeArchivePath` | services/book/epub_format.cpp:298-337 | the archive path normalizer returns the specified result for every input and buffer |
| `Paths.ResolvePath` | services/book/epub_format.cpp:233-296 | the reference resolver returns the specified result: fragment cut, base directory, unescaping, reduction |
| `Paths.AcceptedStaysInside` | services/book/epub_format.cpp:233-337 | an accepted path never climbs above the root |
| `Paths.InsideIsAccepted` | services/book/epub_format.cpp:233-337 | a path that never climbs above the root is accepted when the buffer has room |
| `Paths.ReducedIsPlain` | services/book/epub_format.cpp:233-337 | no accepted path has an empty, `.` or `..` component |
| `Paths.ResolvedIsGood` | services/book/epub_format.cpp:233-296 | the same for every resolved reference, which also fits its buffer and is well-formed UTF-8 |
| `Paths.ResolvedIsNormal` | services/book/epub_format.cpp:233-337 | normalizing a resolved path again gives it back exactly when it is short enough and free of forbidden bytes |
| `Paths.ResolvedIsFixedPoint` | services/book/epub_format.cpp:233-337 | so with a clean base file and an archive path buffer every resolved path is a fixed point |
| `Paths.NormalizeTwice` | services/book/epub_format.cpp:298-337 | normalization is idempotent |
| `Resolving.ReferenceResolves` | services/book/epub_format.cpp:233-296 | a reference that climbs some directories and names a file, with any bytes escaped and any query or fragment, resolves to that file beside the directory reached from the base, exactly if it does not climb above the root, there is room for it and the path is well-formed UTF-8 |
| `Resolving.WrittenDecodes` | services/book/epub_format.cpp:246-268 | bytes written with any of them escaped, in large or small digits, decode to themselves |
| `Resolving.AcceptedIsWritten` | services/book/epub_format.cpp:246-268 | and nothing else decodes: an escape without two digits or a forbidden byte rejects the reference |
| `Resolving.DotsCancel` | services/book/epub_format.cpp:270-287 | a name followed by "..", or a ".", is as if it were not there |
| `BookPath.CanonicalPath` | services/book/book_format.cpp:93-123 | the catalog path canonicalizer returns the specified path in the caller's buffer |
| `BookPath.CanonicalMeans` | services/book/book_format.cpp:93-123 | the canonical form is the names, each behind one slash, exactly for a path that starts with a slash, is well-formed text without controls and backslashes, has names, none of them "." or "..", and fits |
| `BookPath.CanonicalTwice` | services/book/book_format.cpp:93-123 | a canonical path is its own canonical form and keeps the names of the path it came from |
| `ReaderNavigation.PageHistory.Push` | core/text_paginator.cpp:129-139 | push() ignores a repeated offset, drops the oldest of 64 by shifting in place, and appends |
| `ReaderNavigation.PushKeepsRun` | core/text_paginator.cpp:129-139 | pushing the page left keeps the history the run of page starts just before the new page |
| `ReaderNavigation.PopKeepsRun` | core/text_paginator.cpp:141-148 | popping keeps it the run before the previous page |
| `ReaderNavigation.RebuildGoesOn` | app/reader/reader_app.cpp:444-458 | a rebuild goes on to the next page exactly while that page still starts before the target's predecessor ends |
| `ReaderNavigation.OperationLands` | app/reader/reader_app.cpp:444-466 | a completed operation has reached its destination, with the history just before it |
| `ReaderNavigation.AnswerNames` | app/reader/reader_app.cpp:640-666 | what locate() finds for a query is the page asked for, or for the offset shown the page shown |
| `ReaderNavigation.Reader.constructor` | app/reader/reader_app.cpp:30-66 | a session starts without page, history or index position |
| `ReaderNavigation.Reader.Next` | app/reader/reader_app.cpp:215-226 | the next page is started, with or without index, on the way to the successor of the page shown |
| `ReaderNavigation.Reader.Previous` | app/reader/reader_app.cpp:243-267 | by history, index query or rebuild from 0, the operation is on its way to the predecessor of the page shown |
| `ReaderNavigation.Reader.RequestChunk` | app/reader/reader_app.cpp:99-147 | unless a request or a lookup is out, storage is asked under a new number for the bytes at the paginator\'s read offset, and a request not accepted is an error |
| `ReaderNavigation.Reader.HandleResult` | app/reader/reader_app.cpp:320-364 | a matching result of the file being read moves the page being loaded forward or ends it; a changed size or time gives file and page up; a failed or senseless one fails; other results change nothing; the operation keeps its destination |
| `ReaderNavigation.Reader.CompletePage` | app/reader/reader_app.cpp:444-476 | a finished page is shown at its destination, as an empty file exactly when the text is empty or a lone byte order mark, with its number if the index has named it; or the rebuild continues with the next one; its own error branch cannot be taken |
| `ReaderNavigation.Reader.HandleBookEvent` | app/reader/reader_app.cpp:564-668 | every event keeps the invariant and the course of an operation under way; an answered lookup starts the page it asked for; the index that became ready is taken; an event of a changed file gives page and index up |
| `ReaderNavigation.Reader.HandleOpened` | app/reader/reader_app.cpp:588-627 | the resume offset is opened with an empty history unless the user has moved on; an EPUB without page is opened; the file is noted; nothing else changes |
| `ReaderNavigation.Reader.HandleReady` | app/reader/reader_app.cpp:628-640 | a ready index numbers the page shown or opens the saved page with an empty history; for a user who has moved on it only sets the page count |
| `ReaderNavigation.Reader.HandlePosition` | app/reader/reader_app.cpp:640-666 | the reply to a lookup starts the page asked for, any other gives the page shown its number; a reply that does not fit gives the index up |
| `ReaderNavigation.Reader.QueryOffset` | app/reader/reader_app.cpp:141-146 | the number of the page shown is asked for exactly when there is an index, the page is shown without number, and nothing else is under way |
| `ReaderNavigation.Reader.OnRunning` | app/reader/reader_app.cpp:99-147 | a lost card, a lookup or a request that has taken too long end in an error and a late index is given up; otherwise exactly what is needed next is asked for: the next bytes while loading, the number of the page while showing; an operation keeps its course |
| `ReaderNavigation.Reader.Carry` | app/reader/reader_app.cpp:99-182 | for any number of turns of running, results and events in any order, late, repeated or missing: what the user started goes on towards its page, ends there or in an error, and the page shown stays |
| `ReaderNavigation.Reader.LoadPages` | app/reader/reader_app.cpp:300-476 | any operation under way ends on its destination, for any chunk size, with its number if the index has named the page, or in an error exactly when the file has changed |
| `ReaderNavigation.Reader.GoBack` | app/reader/reader_app.cpp:243-476 | "previous" run to its end shows the predecessor of the page shown, by whichever route, with the history running up to it and its number if the page had one; in an error exactly when the file has changed |
| `ReaderNavigation.BlankPage` | app/reader/reader_app.cpp:444-476 | a page is at once the first, the last and empty exactly when the text is empty or a lone byte order mark |
| `ReaderNavigation.Reader.GoForward` | app/reader/reader_app.cpp:215-476 | "next" run to its end shows the successor of the page shown, to be read on from, with its number if the page had one; in an error exactly when the file has changed |
| `ReaderNavigation.Reader.ReadOn` | app/reader/reader_app.cpp:215-476 | reading on from a page visits every page to the end of the book in order |
| `ReaderNavigation.Reader.ReadBack` | app/reader/reader_app.cpp:243-476 | reading back from a page visits every page to the start of the book in order, however history, index and rebuild take turns |
| `ReaderNavigation.Reader.ShowingAtEnd` | app/reader/reader_app.cpp:444-476 | whenever a page is shown, the history is a contiguous run of at most 64 page starts ending just before it |
| `ReadingSession.BuiltServes` | services/book/book_index_engine.cpp:339-354 | an index built from the text has exactly the page starts the reader shows the text by |
| `ReadingSession.QueryIsTruthful` | services/book/book_index_engine.cpp:356-367 | the event that answers a query is what the reader relies on |
| `ReadingSession.ReadyIsTruthful` | services/book/book_index_engine.cpp:339-354 | so is the event that announces the index |
| `ReadingSession.Ask` | services/book/book_service.cpp:266-281 | a query of the reader run through the engine: the page asked for is started, or the lookup ends in an error on a failing card or a changed file |
| `ReadingSession.NumberPage` | app/reader/reader_app.cpp:141-146 | a page shown without its number gets it from the engine |
| `ReadingSession.Previous` | app/reader/reader_app.cpp:243-267 | "previous" with the engine behind the reader ends on the predecessor of the page shown by all three routes, unless the card fails or the file has changed |
| `ReadingSession.Resume` | app/reader/reader_app.cpp:628-640 | a reader not used yet goes to the saved page of the index that became ready, or shows it already, unless the file has changed |
| `ReadingSession.CloseAndReopen` | services/book/book_index_engine.cpp:101-377 | an index that served the reader serves it again after saving, closing and reopening the book on a fault-free card, announced at the page of the saved offset |
| `ReadingSession.ReadTwice` | services/book/book_index_engine.cpp:101-377 | from an idle engine and a book without usable index: opened, indexed, saved, closed and reopened, the index is the page list of the reader and resumes at the page of the saved offset |
| `XhtmlText.FeedSplit` | services/book/epub_format.cpp:620-670 | splitting the input anywhere changes neither output nor state |
| `XhtmlText.FeedInPieces` | services/book/epub_format.cpp:620-670 | the same for any number of pieces |
| `XhtmlText.AdvanceTidy` | services/book/epub_format.cpp:517-670 | every accepted byte keeps the buffers in bounds, half-read characters to text mode, and the output free of leading and adjacent gaps |
| `XhtmlText.ChapterIsSpaced` | services/book/epub_format.cpp:620-678 | a finished chapter is one newline, or well-spaced text followed by exactly two newlines, whatever the markup and the pieces |
| `XhtmlText.ChapterRules` | services/book/epub_format.cpp:672-678 | spelt out: no leading or doubled space, no space next to a newline, a doubled newline only as the last two bytes |
| `XhtmlText.HiddenIsSilent` | services/book/epub_format.cpp:553-583 | nothing is written inside script and style elements |
| `XhtmlText.PlainTextIsCollapsed` | services/book/epub_format.cpp:528-563 | text without markup comes out as its visible characters in order with one space for each run of blanks between them |
| `XhtmlDocument.DocumentIsText` | services/book/epub_format.cpp:528-678 | a chapter spelt out as characters, named and numeric references, tags, comments, and nested scripts and style sheets becomes its characters in order, with one newline for any line breaks and block ends between them or else one space for any blanks, and nothing of tags, comments and hidden elements; then two newlines, or one if there is no text |
| `ContentSink.TextOutput.WriteText` | services/book/epub_cache_engine.cpp:275-288 | accepted text is appended to what buffer and file hold together; it is refused only beyond 64 MiB or on an I/O error |
| `ContentSink.TextOutput.Flush` | services/book/epub_cache_engine.cpp:290-297 | flushing moves the buffer to the end of the file and loses nothing |
| `XhtmlFilter.ParseNumber` | services/book/epub_format.cpp:599-611 | the digit loop with its overflow test accepts exactly the numerals up to U+10FFFF |
| `XhtmlFilter.ParseName` | services/book/epub_format.cpp:81-91 | the tag name loop finds the local name and whether the tag closes |
| `XhtmlFilter.Filter.EmitCharacter` | services/book/epub_format.cpp:528-542 | a character is written as specified, or refused by filter or sink, without faults only for its length |
| `XhtmlFilter.Filter.CloseTag` | services/book/epub_format.cpp:565-583 | a tag acts on hiding and line breaks as specified |
| `XhtmlFilter.Filter.CloseEntity` | services/book/epub_format.cpp:585-618 | an entity is decoded, written raw or refused as specified |
| `XhtmlFilter.Filter.FeedBlock` | services/book/epub_format.cpp:620-670 | feed() on the token and character buffers equals the specified feeding, or it is refused: by the filter as specified, or by the sink, without faults only for a text beyond 64 MiB; no other file changes |
| `XhtmlFilter.Filter.FinishChapter` | services/book/epub_format.cpp:672-678 | finish_chapter() equals the specified end of a chapter |
| `SpineMap.EncodeMap` | services/book/epub_format.cpp:795-812 | the map is written into the buffer, checksums last; nothing is written for an empty or oversized list |
| `SpineMap.MapHeaderSlices` | services/book/epub_format.cpp:789-812 | which field of the map header stands at which offset, each little-endian |
| `SpineMap.DecodeMapInto` | services/book/epub_format.cpp:814-836 | the decoder accepts exactly the maps the specification accepts and returns their starts |
| `SpineMap.MapRoundTrip` | services/book/epub_format.cpp:795-836 | a written map decodes to the same chapter starts |
| `SpineMap.MapIsUnique` | services/book/epub_format.cpp:814-836 | only written maps decode: the bytes are determined by the starts and the content size |
| `SpineMap.OneMapByteIsDetected` | services/book/epub_format.cpp:795-836 | changing any single byte of a map makes it rejected |
| `SpineMap.PositionFromLinear` | services/book/epub_format.cpp:838-848 | the upper-bound search finds the specified position |
| `SpineMap.PositionContains` | services/book/epub_format.cpp:838-848 | a linear offset maps to the one chapter that contains it, and back |
| `EpubCache.ChapterIsSome` | services/book/epub_format.cpp:672-678 | each finished chapter emits at least one byte |
| `EpubCache.StartsAreSpine` | services/book/epub_cache_engine.cpp:299-321 | chapter starts begin at 0, strictly increase and stay below the content size |
| `EpubCache.MapCutsContent` | services/book/epub_cache_engine.cpp:299-345 | cutting the content at the chapter starts gives back each chapter's text |
| `EpubCache.Engine.BeginSpine` | services/book/epub_cache_engine.cpp:299-312 | the next chapter's start is the size of the text so far, and its filter starts afresh; only a faulty card, a missing chapter or one too many stops it |
| `EpubCache.Engine.BeginRebuild` | services/book/epub_cache_engine.cpp:148-216 | a rebuild notes the identity of the source and starts with the cover if there is one, else with the text |
| `EpubCache.Engine.SourceIdentity` | services/book/epub_cache_engine.cpp:51-78 | size, time and three samples of the source as it is, refused outside 22 bytes to 4 GiB |
| `EpubCache.Engine.StepCover` | services/book/epub_cache_engine.cpp:241-264 | cover bytes are appended in order up to 512 KiB; a cover that cannot be had is given up and the text begins |
| `EpubCache.Engine.StepChapter` | services/book/epub_cache_engine.cpp:348-375 | a stretch of a chapter extends its text; its end adds exactly that chapter; a broken stream or a missing next chapter is refused; on a fault-free card a chapter that the filter accepts and that fits is taken |
| `EpubCache.Engine.Finalize` | services/book/epub_cache_engine.cpp:323-346 | content, map and cover are put in place together and the metadata describes them |
| `EpubCache.Engine.Rebuild` | services/book/epub_cache_engine.cpp:148-375 | on a fault-free card a rebuild ends ready exactly when there are 1 to 512 chapters, the filter accepts each and their text fits 64 MiB; then the card has the texts in order, the map that cuts them, the cover, and metadata that reopening accepts unless the source time is beyond what JSON carries |
| `EpubCache.Engine.Save` | services/book/epub_cache_engine.cpp:377-388 | a linear offset inside the text is stored as the position of its chapter, the cover mark only at offset 0 of a book with a cover; other positions are refused and change nothing |
| `EpubCache.Engine.LoadMap` | services/book/epub_cache_engine.cpp:80-89 | a loaded map is what the map file decodes to |
| `EpubCache.Engine.ValidateCached` | services/book/epub_cache_engine.cpp:101-131 | whatever is on the card, an accepted cache has the source's size and samples, a valid map for its content, its cover, and a position inside a chapter; a new source time is noted and a new pagination starts over; what was finalized and saved is accepted |
| `EpubCache.Engine.Open` | services/book/epub_cache_engine.cpp:218-239 | the path is canonicalized; a cache that can be accepted is taken with its renewed record and all files as they were, otherwise the cache is rebuilt; the text counts as new exactly when it is rebuilt or was paginated by another version |
| `EpubCache.Engine.OpenedReopens` | services/book/epub_cache_engine.cpp:101-131 | whatever position was saved last, the open cache would be accepted again while its source is there |
| `EpubCache.Engine.PublishedReopens` | services/book/epub_cache_engine.cpp:101-131 | what was just built is accepted on reopening exactly when its source time is one JSON carries |
| `EpubCache.Engine.Reopen` | services/book/epub_cache_engine.cpp:101-131 | closed and opened again, the source with another time or not, reading goes on where the record says and the record has that time; a record of another pagination starts over, at the cover if there is one |
| `EpubCache.Engine.SaveAndReopen` | services/book/epub_cache_engine.cpp:101-131 | a saved byte or cover is where reading goes on after reopening, again and again |
| `FramePool.Pool.Acquire` | ui/paper_mono/ui_frame_pool.cpp:64-101 | the first free slot is taken with a new generation and a cleared frame, and failure means that all four are in use; the pool's own assertions hold |
| `FramePool.Pool.PublishSlot` | ui/paper_mono/ui_frame_pool.cpp:103-124 | a building slot with this handle is published, any other handle refused |
| `FramePool.Pool.RetainSlot` | ui/paper_mono/ui_frame_pool.cpp:126-148 | a published slot gains a reference unless the 16-bit count is full |
| `FramePool.Pool.Resolve` | ui/paper_mono/ui_frame_pool.cpp:150-170 | only a published slot with this handle resolves |
| `FramePool.Pool.ReleaseSlot` | ui/paper_mono/ui_frame_pool.cpp:172-200 | a reference is dropped, the last one frees the slot, and the active count follows |
| `FrameProtocol.ProducerKeeps` | ui/paper_mono/ui_renderer.cpp:807-893 | each atomic step of acquiring, reclaiming, filling and submitting a frame keeps the ledger |
| `FrameProtocol.DrainingKeeps` | ui/paper_mono/ui_renderer.cpp:936-962 | so does each step of draining the queue and of a failed refresh |
| `FrameProtocol.CommittingKeeps` | ui/paper_mono/ui_renderer.cpp:1040-1068 | so does each step of committing a frame to the presentation and keeping it as the latest |
| `FrameProtocol.GuardKeeps` | ui/ui_presentation.cpp:29-125 | so does each step of opening and closing a read guard |
| `FrameProtocol.OwnersAreCounted` | ui/paper_mono/ui_frame_pool.cpp:64-200 | in every reachable interleaving a slot's count is the number of its owners, and it is free exactly when nobody owns it |
| `FrameProtocol.NothingIsRefused` | ui/paper_mono/ui_renderer.cpp:807-1068 | no task's pool call on a handle of its own is ever refused, the renderer's retain of the frame it presents included, because that frame has one owner until then |
| `FrameProtocol.GuardIsRefusedWhenFull` | ui/ui_presentation.cpp:29-66 | a guard's retain of the presented frame is refused exactly when its 16-bit count, which is the number of owners, is full |
| `FrameProtocol.GuardSeesOneFrame` | ui/ui_presentation.cpp:70-125 | while a guard lives its frame does not change and has the view it was opened for, whatever the other tasks do |
| `FrameProtocol.HeldFrameStays` | ui/paper_mono/ui_frame_pool.cpp:64-200 | for as long as anybody holds a published frame, queued, on its way to the display, presented, latest or read, it stays published and the same, whatever anyone does |
| `FrameProtocol.NewestIsDrawn` | ui/paper_mono/ui_renderer.cpp:936-962 | frames leave the queue in the order they were sent; the frame drawn is the newest that was sent and not reclaimed, and nothing is drawn while a newer one waits |
| `FrameProtocol.ShownIsPresented` | ui/paper_mono/ui_renderer.cpp:1040-1068 | what is presented is the frame refreshed last, or is about to be |
| `FrameProtocol.RendererPresents` | ui/paper_mono/ui_renderer.cpp:936-1068 | a renderer by itself whose refresh succeeds presents the frame sent last and keeps it as its latest |
| `FrameProtocol.ProducerAcquires` | ui/paper_mono/ui_renderer.cpp:825-860 | a producer by itself gets a frame if one is free, or else the oldest that waits |
| `FrameProtocol.ProducerDelivers` | ui/paper_mono/ui_renderer.cpp:862-893 | a producer that submits gets its frame into the queue behind the newest that waits, at the cost of the oldest only if the queue is full |
| `FrameProtocol.GuardOpens` | ui/ui_presentation.cpp:29-66 | a guard opened for the view shown reads the frame presented unless its count is full |
| `FrameProtocol.OnlyShownFramesRemain` | ui/ui_presentation.cpp:177-204 | with all tasks at rest and the queue empty, only presented and latest frames are in use: nothing leaks |
| `GhostDebt.RefreshDebt.Record` | ui/paper_mono/ui_renderer.cpp:213-245 | record_refresh() charges the account of the region, or clears all debt after quality |
| `GhostDebt.RefreshDebt.Commit` | ui/paper_mono/ui_renderer.cpp:247-277 | a request keeps its mode or is upgraded, press feedback never; a refresh of quality clears all debt, a failed one changes nothing, any other charges no account but its own |
| `GhostDebt.SharesDebt` | ui/paper_mono/ui_renderer.cpp:152-183 | page and menu of the reader, the regions of the bookshelf, the two extents of the clock editor, and controls with full views share a debt, and no others |
| `GhostDebt.DebtIsBounded` | ui/paper_mono/ui_renderer.cpp:185-245 | since the last quality refresh a region and what shares its debt have taken at most 45 fastest, 4 fast and 19 text refreshes, 68 in all |
| `GhostDebt.FullDebtForcesQuality` | ui/paper_mono/ui_renderer.cpp:185-211 | after 68 the next request is resolved to quality, whatever it asks for |
| `GhostDebt.StatusDebtForcesQuality` | ui/paper_mono/ui_renderer.cpp:213-232 | after 60 refreshes of the status bar the next frame resolves to quality; before that they make no difference to it |
| `GhostDebt.BoundIsReached` | ui/paper_mono/ui_renderer.cpp:185-245 | a run reaches the 68, and one of four fast requests their bound |
| `Buttons.ButtonStateMachine.Update` | services/input/button_state_machine.cpp:22-120 | update() on the fields does what the specified step does |
| `Buttons.EventComesFromOnePress` | services/input/button_state_machine.cpp:32-120 | every event comes from one key debounced for 20 ms with no sample of the other key since its press and no other event since; long after 800 ms, click after 20 ms of release |
| `Buttons.BounceKeepsLongPress` | services/input/button_state_machine.cpp:51-66 | a bounce does not restart the long-press timer: the event comes at 800 ms from the first sample of the press and not before |
| `Buttons.PressGivesOneClick` | services/input/button_state_machine.cpp:32-120 | a key held alone for at least 20 and less than 800 ms and then left released emits its click exactly once and nothing else, at the first sample 20 ms after the release |
| `Buttons.ContactIsIgnored` | services/input/button_state_machine.cpp:32-50 | a contact of less than 20 ms emits nothing and leaves the recogniser idle |
| `Buttons.HoldGivesOneLongPress` | services/input/button_state_machine.cpp:51-66 | a key held alone for 800 ms emits its long-press event exactly once, at the first sample from there on, and no click when it is released |
| `Buttons.IdleAfterRelease` | services/input/button_state_machine.cpp:32-120 | from whatever state the recogniser is idle after 20 ms without a key |
| `Buttons.NothingUntilClear` | services/input/button_state_machine.cpp:26-30 | after both keys were down nothing is emitted until no key has been down for 20 ms |
| `Calendar.AdvanceDateTime` | services/rtc/rtc_service.cpp:64-84 | the day loop in 32-bit arithmetic advances as specified |
| `Calendar.AdvancedTwice` | services/rtc/rtc_service.cpp:50-84 | advancing twice is advancing once by the sum, across days, leap years and the wrap from 2099 to 2000 |
| `Calendar.AdvancedCounts` | services/rtc/rtc_service.cpp:36-84 | advancing keeps dates valid and adds to the seconds of the hundred years, modulo their number |
| `Calendar.DayNumberInjective` | services/rtc/rtc_service.cpp:36-62 | different valid dates have different day numbers |
| `Calendar.DayNumberIsCivil` | services/rtc/rtc_service.cpp:33-64 | the day number is the distance from the first of January 2000 in the closed formula of the Gregorian calendar |
| `Calendar.MonthLengths` | services/rtc/rtc_service.cpp:33-45 | a day of a month is valid exactly up to the length the formula gives |
| `Calendar.TimesAreSeconds` | services/rtc/rtc_service.cpp:66-88 | each time of day is that of its second |
| `ClockCache.Clock.UpdateCache` | services/rtc/rtc_service.cpp:86-94 | a new reading replaces the cache, and no snapshot taken before it can be written back |
| `ClockCache.Clock.TakeSnapshot` | services/rtc/rtc_service.cpp:202-221 | a read answers the cached time advanced by the elapsed whole seconds, a valid date |
| `ClockCache.Clock.WriteBack` | services/rtc/rtc_service.cpp:222-231 | the advanced time is kept only while the generation is the reader's, and leaves less than a second between the cache and its reader |
| `ClockCache.ReadingIsIndependentOfPolling` | services/rtc/rtc_service.cpp:202-231 | however often the clock was read, a read is one advance of the last reading by the total elapsed whole seconds |
| `ClockCache.NewerReadingStays` | services/rtc/rtc_service.cpp:222-231 | a reader overtaken by a newer reading does not overwrite it |
| `ClockCache.TwoReadersStayExact` | services/rtc/rtc_service.cpp:202-231 | two readers that snapshot the same cache before either writes back leave all later reads exact if and only if one of them had no whole second to add |
| `ClockCache.RefreshBetweenReaders` | services/rtc/rtc_service.cpp:86-94 | a clock reading between two snapshots makes only the newer count, in either order of writing back, and reads stay exact |
| `ClockCache.RefreshAfterReaders` | services/rtc/rtc_service.cpp:86-94 | a clock reading after both snapshots leaves neither anything to write |
| `CatalogHandshake.StepInv` | services/book/book_catalog_service.cpp:489-499 | every load and store of worker and controller keeps the handshake invariant |
| `CatalogHandshake.IdleMeansParked` | services/book/book_catalog_service.cpp:656-677 | whenever idle() says yes, the worker is outside every pass and stays so until the next activation |
| `CatalogHandshake.PauseIsAcknowledged` | services/book/book_catalog_service.cpp:489-499 | once the worker has gone through its paused branch after a pause, every later call of idle() says yes, however its loads, earlier questions and the worker's steps interleave |
| `CatalogHandshake.WorkerReturns` | services/book/book_catalog_service.cpp:489-499 | from wherever it is the worker by itself comes round to the head of its loop |
| `CatalogHandshake.WorkerServes` | services/book/book_catalog_service.cpp:489-499 | there it starts a pass if it is wanted, and else clears the busy mark and acknowledges the pause |
| `CatalogHandshake.CallsReturn` | services/book/book_catalog_service.cpp:656-677 | each call of the controller comes to its end: the worker is wanted or not under a new serial, or the answer is whether it is idle |
| `ResultPool.ClientStepKeeps` | services/storage/storage_service.cpp:528-596 | each single load and compare-and-exchange of a reader's resolves, retains and releases keeps every count the number of owners |
| `ResultPool.WorkerStepKeeps` | services/storage/storage_service.cpp:130-188 | so does each single load and store of recycling, claiming, opening, filling and publishing a slot |
| `ResultPool.QueueHasRoom` | services/storage/storage_service.cpp:263-270 | the result queue is never full when a result is published |
| `ResultPool.OwnersAreCounted` | services/storage/storage_service.cpp:130-188 | in every reachable interleaving a count is the number of owners, and only slots without owner can be taken |
| `ResultPool.NothingIsRefused` | services/storage/storage_service.cpp:528-596 | no resolve, retain or release of an owned result is refused: a result is in one place until its reader retains it, so the count cannot be full |
| `ResultPool.HeldResultStays` | app/file/file_app.cpp:218-235 | for as long as a reader holds a result, as the event it handles, retains and releases or as the directory it keeps, the result neither changes nor is recycled, whatever anyone does |
| `ResultPool.EventSeesOneResult` | system/system_event_dispatcher.cpp:98-107 | from the dispatch of an event, for any turns of anybody until its reader is at rest again, the reader goes on dispatching it and its result neither changes nor is recycled |
| `ResultPool.QueueMoves` | services/storage/storage_service.cpp:263-270 | results leave the queue to their dispatch in the order they were published |
| `ResultPool.WorkerClaimsOne` | services/storage/storage_service.cpp:130-173 | if some slot may be taken, the worker by itself finds one, takes it with a blank result and comes to fill it |
| `ResultPool.WorkerDelivers` | services/storage/storage_service.cpp:175-304 | what it has filled in it puts into the queue behind all others, unchanged |
| `ResultPool.ClientDeals` | app/file/file_app.cpp:218-240 | a client by itself deals with an event as it chooses, keeps it as its directory, closes that, or neither, and comes to rest |

## Left out

- JSON text of metadata: printing and parsing are a pair of abstract functions for the page index, and for the EPUB cache the record itself.
- Font rendering and glyph metrics: an arbitrary width function.
- ZIP directories, inflate, container and package XML, cover images and SHA-256 book names: chapters arrive as arbitrary byte stretches, `found` says whether the archive has the next one.
- Codes of errors in the EPUB engine: an operation succeeds or fails.
- Reader covers, menus, loading banners and frame submission; clocks and the state of the card are inputs of `Reader.OnRunning`.
- Request and session numbers of the reader are natural numbers and do not wrap around; a session ends with its object.
- ReaderNavigation.Reader.HandleResult: one storage result for texts and EPUB contents alike; its length is not checked against the buffer it comes in.
- ReaderNavigation.Reader.HandleOpened: the branch that resumes at an EPUB cover, as covers are left out.
- Paths.NormalizeArchivePath: the code interleaves the forbidden-byte test with the reduction; the model tests all bytes first, with the same result.
- Power loss between the removal and the rename of a replaced file: a failed replacement leaves either name in any state, and an opened card may hold anything.
- XhtmlDocument.DocumentIsText: scripts nested deeper than the 16-bit counter, and unknown entities, which are copied raw, are not in the documents spoken of.
- UTF-8 well-formedness of the filter's whole output: an unknown entity is copied raw, and a space pending before it is written after it.
- XhtmlFilter.Filter.FeedBlock: after a refusal nothing is said of the filter's fields, as its owner then drops it.
- EpubCache.Engine.BeginRebuild: the archive and its package are a value; which chapters and cover it lists, and whether it has them, are inputs.
- EpubCache.Engine.Open: when it rebuilds, the archive is that value.
- EpubCache.Engine.StepChapter: a step taken while the card is away changes nothing and is left out.
- FrameProtocol.ProducerKeeps: acquiring may fail when the renderer drains the queue between a failed acquire and the reclaim; it is not claimed to succeed.
- FrameProtocol.GuardKeeps: the expected generation that decides whether input is taken is not modelled.
- Frame contents beyond their view, and the merging of quality requests of reclaimed frames.
- Taking a semaphore or a spin lock: the critical section is one atomic step. Task scheduling and notification: any task may take the next step.
- CatalogHandshake.StepInv: the 32-bit serial does not wrap around, and an active pass over the catalog is one state with arbitrary stores to the busy flag.
- ResultPool.WorkerStepKeeps: the worker's mutex has no other user, so having it or not is an input; what a result holds is one value.
- The storage service's media state, its book-access gate, its monitor task and directory scanning.
- GhostDebt.RefreshDebt.Commit: the display layer turns a refresh into one of quality or leaves it; drawing, rectangles and the panel session are not modelled.
- ClockCache.Clock.TakeSnapshot: the RTC chip is a source of valid dates; requests and events of the RTC task are not modelled.
- Buttons.BounceKeepsLongPress: a gap of 2^32 ms or more between the press and a sample is outside the statement about when the event comes.
- Buttons.PressGivesOneClick: the click is promised where a sample falls from 20 ms to 2^32 ms after the release.
- Buttons.HoldGivesOneLongPress: the event is promised where samples fall between 20 and 800 ms and from 800 ms to 2^32 ms after the press.
- App registry, launcher, menu, settings, file list, battery, touch, layout and drawing: no behaviour that reading depends on.
