// The streaming paginator of core/text_paginator.cpp: the value it computes, the class
// that computes it in place, and what every page satisfies.
module Paginator {
  import opened Options
  import opened Utf8

  const PAGE_TEXT_CAPACITY: nat := 2048
  const PAGE_LINE_CAPACITY: nat := 32

  type u16 = x: int | 0 <= x < 0x10000

  // Width of a glyph in layout units; the source leaves it to the display backend.
  type GlyphWidth = nat -> u16

  datatype Layout = Layout(lineWidth: u16, lineCount: u16, glyphWidth: Option<GlyphWidth>)
  {
    // The layouts that reset() does not reject at once.
    predicate Usable() { lineWidth != 0 && lineCount != 0 && glyphWidth.Some? }
  }

  datatype Status = NeedData | PageReady | InvalidUtf8

  // A byte range of the page text.
  datatype Line = Line(offset: u16, length: u16)

  // The fields of the source's paginator and of the page it fills.
  datatype State = State(
    layout: Layout,
    text: seq<byte>,
    lines: seq<Line>,
    start: nat,
    next: nat,
    endOfFile: bool,
    empty: bool,
    inputOffset: nat,
    lineWidth: nat,
    pending: seq<byte>,
    full: bool,
    swallowLf: bool,
    status: Status)

  function ClampLines(layout: Layout): Layout {
    layout.(lineCount := if layout.lineCount < PAGE_LINE_CAPACITY then layout.lineCount else PAGE_LINE_CAPACITY)
  }

  function Reset(start: nat, layout: Layout): State {
    State(ClampLines(layout), [], [Line(0, 0)], start, start, false, true, start, 0, [], false, false,
          if layout.Usable() then NeedData else InvalidUtf8)
  }

  // ----- One character

  function Last(lines: seq<Line>): Line
    requires lines != []
  {
    lines[|lines| - 1]
  }

  // What a printable or control character is shown as.
  function Shown(cp: nat): (shown: nat)
    ensures cp >= ' ' as int && cp != '\U{007f}' as int ==> shown == cp
    ensures cp == '\t' as int ==> shown == ' ' as int
    ensures cp == '\U{007f}' as int || (cp < ' ' as int && cp != '\t' as int) ==> shown == '?' as int
  {
    if cp == 0x09 then 0x20 else if cp < 0x20 || cp == 0x7f then 0x3f else cp
  }

  predicate Roomy(s: State) {
    && s.layout.glyphWidth.Some?
    && s.lines != []
    && |s.text| < PAGE_TEXT_CAPACITY
    && Last(s.lines).length <= |s.text|
  }

  // The fields that taking or refusing a character leaves alone.
  ghost predicate SameInput(s: State, t: State) {
    && t.layout == s.layout && t.start == s.start && t.endOfFile == s.endOfFile
    && t.inputOffset == s.inputOffset && t.pending == s.pending && t.status == s.status
  }

  function OpenLine(s: State): (r: State)
    requires Roomy(s)
    ensures Roomy(r) && SameInput(s, r) && r.text == s.text
  {
    if |s.lines| >= s.layout.lineCount then s.(full := true)
    else s.(lines := s.lines + [Line(|s.text|, 0)], lineWidth := 0)
  }

  function Put(s: State, e: seq<byte>, width: nat, to: nat): (r: State)
    requires Roomy(s) && |s.text| + |e| < PAGE_TEXT_CAPACITY
    ensures Roomy(r) && SameInput(s, r)
  {
    var last := Last(s.lines);
    s.(text := s.text + e,
       lines := s.lines[|s.lines| - 1 := Line(last.offset, last.length + |e|)],
       lineWidth := s.lineWidth + width,
       next := to)
  }

  // The tail of append(): a visible character, on this line or the next. The flag says
  // whether the page took it; a refused character becomes the first of the next page.
  function Place(s: State, shown: nat, from: nat, to: nat): (r: (State, bool))
    requires Roomy(s) && shown <= 0x10ffff
    ensures Roomy(r.0) && SameInput(s, r.0)
  {
    var width := s.layout.glyphWidth.value(shown);
    var wrap := s.lineWidth + width > s.layout.lineWidth && Last(s.lines).length != 0;
    var s := if wrap then OpenLine(s) else s;
    if wrap && s.full then (s.(next := from), false)
    else if |s.text| + |Encode(shown)| >= PAGE_TEXT_CAPACITY then (s.(next := from), false)
    else (Put(s, Encode(shown), width, to), true)
  }

  // append(): the character at source range [from, to).
  function Append(s: State, cp: nat, from: nat, to: nat): (r: (State, bool))
    requires Roomy(s) && cp <= 0x10ffff
    ensures Roomy(r.0) && SameInput(s, r.0)
  {
    if s.swallowLf && cp == 0x0a then (s.(swallowLf := false, next := to), true)
    else if s.full then (s.(swallowLf := false, next := from), false)
    else if from == 0 && cp == 0xfeff then (s.(swallowLf := false, next := to), true)
    else if cp == 0x0d || cp == 0x0a then (Break(s.(swallowLf := false), cp == 0x0d, to), true)
    else Place(s.(swallowLf := false, empty := false), Shown(cp), from, to)
  }

  function Break(s: State, cr: bool, to: nat): (r: State)
    requires Roomy(s)
    ensures Roomy(r) && SameInput(s, r)
  {
    OpenLine(s.(empty := false)).(swallowLf := cr, next := to)
  }

  // ----- One byte, and a block of bytes

  // What holds between two calls of feed() while a page is being filled.
  predicate Filling(s: State) {
    && Roomy(s)
    && |s.pending| <= 3
    && |s.pending| <= s.inputOffset
    && Decode(s.pending) == Incomplete
  }

  function Advance(s: State, b: byte): (r: State)
    requires s.status.NeedData? && Filling(s)
    ensures r.status.NeedData? ==> Filling(r)
    ensures r.inputOffset == s.inputOffset + 1
  {
    var pending := s.pending + [b];
    var offset := s.inputOffset + 1;
    match Decode(pending)
    case Invalid => s.(pending := pending, inputOffset := offset, status := InvalidUtf8)
    case Incomplete =>
      IncompleteIsShort(pending);
      s.(pending := pending, inputOffset := offset)
    case Complete(cp, _) =>
      DecodeIsSound(pending);
      NothingPending();
      Emit(s.(pending := pending, inputOffset := offset), cp)
  }

  // The pending bytes were a whole character: hand it to the page.
  function Emit(s: State, cp: nat): (r: State)
    requires Roomy(s) && |s.pending| <= s.inputOffset && cp <= 0x10ffff
    ensures Roomy(r) && r.pending == [] && r.inputOffset == s.inputOffset && r.start == s.start && r.layout == s.layout
  {
    var (t, taken) := Append(s.(pending := []), cp, s.inputOffset - |s.pending|, s.inputOffset);
    if taken then t else t.(status := PageReady)
  }

  lemma NothingPending()
    ensures Decode([]) == Incomplete
  {
  }

  function FeedBytes(s: State, data: seq<byte>): (r: State)
    requires s.status.NeedData? ==> Filling(s)
    ensures r.status.NeedData? ==> Filling(r)
    decreases |data|
  {
    if data == [] || !s.status.NeedData? then s else FeedBytes(Advance(s, data[0]), data[1..])
  }

  function Finish(s: State): State {
    if s.pending != [] then s.(status := InvalidUtf8)
    else s.(endOfFile := true, next := s.inputOffset, status := PageReady)
  }

  // feed(): a block of input, and whether it is the last one.
  function Feed(s: State, data: seq<byte>, endOfFile: bool): (r: State)
    requires s.status.NeedData? ==> Filling(s)
    ensures r.status.NeedData? ==> Filling(r)
  {
    var t := FeedBytes(s, data);
    if endOfFile && t.status.NeedData? then Finish(t) else t
  }

  lemma ResetFilling(start: nat, layout: Layout)
    ensures Reset(start, layout).status.NeedData? ==> Filling(Reset(start, layout))
  {
  }

  // ----- Splitting the input

  lemma {:induction false} FeedBytesSplit(s: State, a: seq<byte>, b: seq<byte>)
    requires s.status.NeedData? ==> Filling(s)
    ensures FeedBytes(s, a + b) == FeedBytes(FeedBytes(s, a), b)
    decreases |a|
  {
    if a == [] || !s.status.NeedData? {
      assert a == [] ==> a + b == b;
    } else {
      assert (a + b)[1..] == a[1..] + b;
      FeedBytesSplit(Advance(s, a[0]), a[1..], b);
    }
  }

  // Feeding a text whole or cut at any byte -- inside a character, between CR and LF --
  // gives the same page, status and read offset.
  lemma FeedSplit(s: State, a: seq<byte>, b: seq<byte>, endOfFile: bool)
    requires s.status.NeedData? ==> Filling(s)
    ensures Feed(s, a + b, endOfFile) == Feed(Feed(s, a, false), b, endOfFile)
  {
    FeedBytesSplit(s, a, b);
  }

  function FeedBlocks(s: State, blocks: seq<seq<byte>>): (r: State)
    requires s.status.NeedData? ==> Filling(s)
    ensures r.status.NeedData? ==> Filling(r)
    decreases |blocks|
  {
    if blocks == [] then s else FeedBlocks(Feed(s, blocks[0], false), blocks[1..])
  }

  function Concat(blocks: seq<seq<byte>>): seq<byte> {
    if blocks == [] then [] else blocks[0] + Concat(blocks[1..])
  }

  // Any number of cuts.
  lemma {:induction false} FeedBlocksIsFeed(s: State, blocks: seq<seq<byte>>)
    requires s.status.NeedData? ==> Filling(s)
    ensures FeedBlocks(s, blocks) == Feed(s, Concat(blocks), false)
    decreases |blocks|
  {
    if blocks == [] {
    } else {
      FeedSplit(s, blocks[0], Concat(blocks[1..]), false);
      FeedBlocksIsFeed(Feed(s, blocks[0], false), blocks[1..]);
    }
  }

  // ----- The class

  class ReaderPaginator {
    var layout: Layout
    const text: array<byte>
    const lines: array<Line>
    const pending: array<byte>
    var textLength: u16
    var lineCount: u16
    var start: nat
    var next: nat
    var endOfFile: bool
    var empty: bool
    var inputOffset: nat
    var lineWidth: u16
    var pendingSize: nat
    var full: bool
    var swallowLf: bool
    var status: Status

    ghost predicate Shape()
      reads this, text, lines, pending
    {
      && text.Length == PAGE_TEXT_CAPACITY && lines.Length == PAGE_LINE_CAPACITY && pending.Length == 4
      && text != pending
      && textLength < PAGE_TEXT_CAPACITY
      && 1 <= lineCount <= PAGE_LINE_CAPACITY && layout.lineCount <= PAGE_LINE_CAPACITY
      && pendingSize <= 4 && pendingSize <= inputOffset
      && (status.NeedData? ==> layout.Usable() && Roomy(View()) && Wrapped(View()))
    }

    ghost predicate Valid()
      reads this, text, lines, pending
    {
      Shape() && (status.NeedData? ==> Filling(View()))
    }

    ghost function Repr(): set<object> { {this, text, lines, pending} }

    // The value the object stands for.
    ghost function View(): State
      reads this, text, lines, pending
      requires textLength <= text.Length && lineCount <= lines.Length && pendingSize <= pending.Length
    {
      State(layout, text[..textLength], lines[..lineCount], start, next, endOfFile, empty, inputOffset,
            lineWidth, pending[..pendingSize], full, swallowLf, status)
    }

    constructor (start: nat, layout: Layout)
      ensures Valid() && fresh(Repr())
      ensures View() == Reset(start, layout)
    {
      text := new byte[PAGE_TEXT_CAPACITY](_ => 0);
      lines := new Line[PAGE_LINE_CAPACITY](_ => Line(0, 0));
      pending := new byte[4](_ => 0);
      textLength, lineCount, pendingSize := 0, 1, 0;
      this.layout := ClampLines(layout);
      this.start, next, inputOffset, lineWidth := start, start, start, 0;
      endOfFile, empty, full, swallowLf := false, true, false, false;
      status := if layout.Usable() then NeedData else InvalidUtf8;
      new;
      assert lines[..1] == [Line(0, 0)];
    }

    method ResetTo(start: nat, layout: Layout)
      requires Valid()
      modifies Repr()
      ensures Valid()
      ensures View() == Reset(start, layout)
    {
      hide Decode, Encode, WellFormed, Append;
      ResetFilling(start, layout);
      ResetFields(start, layout);
    }

    method ResetFields(start: nat, layout: Layout)
      requires text.Length == PAGE_TEXT_CAPACITY && lines.Length == PAGE_LINE_CAPACITY && pending.Length == 4
      modifies this, lines
      ensures textLength == 0 && lineCount == 1 && pendingSize == 0
      ensures View() == Reset(start, layout)
    {
      lines[0] := Line(0, 0);
      textLength, lineCount, pendingSize := 0, 1, 0;
      this.layout := ClampLines(layout);
      this.start, next, inputOffset, lineWidth := start, start, start, 0;
      endOfFile, empty, full, swallowLf := false, true, false, false;
      status := if layout.Usable() then NeedData else InvalidUtf8;
      assert lines[..1] == [Line(0, 0)];
    }

    method NextLine() returns (added: bool)
      requires Valid() && status.NeedData?
      modifies this, lines
      ensures Valid()
      ensures View() == OpenLine(old(View()))
      ensures added == (old(lineCount) < old(layout.lineCount))
    {
      if lineCount >= layout.lineCount {
        full := true;
        return false;
      }
      lines[lineCount] := Line(textLength, 0);
      lineCount := lineCount + 1;
      lineWidth := 0;
      assert lines[..lineCount] == old(lines[..lineCount]) + [Line(textLength, 0)];
      return true;
    }

    // A line end: CR, LF, or the CR of CRLF.
    method BreakLine(cr: bool, to: nat)
      requires Valid() && status.NeedData?
      modifies this, lines
      ensures Valid()
      ensures View() == Break(old(View()), cr, to)
    {
      hide Decode, Encode, OpenLine;
      empty := false;
      var _ := NextLine();
      swallowLf := cr;
      next := to;
    }

    method AppendChar(codepoint: nat, from: nat, to: nat) returns (taken: bool)
      requires Valid() && status.NeedData? && codepoint <= 0x10ffff
      modifies Repr()
      ensures Valid()
      ensures (View(), taken) == Append(old(View()), codepoint, from, to)
    {
      hide Encode, Decode, Break, Place, OpenLine, Put, View, Valid;
      ViewFields();
      if swallowLf {
        SetSwallow(false);
        if codepoint == 0x0a {
          SetNext(to);
          return true;
        }
      }
      ViewFields();
      if full {
        SetNext(from);
        return false;
      }
      if from == 0 && codepoint == 0xfeff {
        SetNext(to);
        return true;
      }
      if codepoint == 0x0d || codepoint == 0x0a {
        BreakLine(codepoint == 0x0d, to);
        return true;
      }
      SetShown();
      var shown := codepoint;
      if shown == 0x09 {
        shown := 0x20;
      } else if shown < 0x20 || shown == 0x7f {
        shown := 0x3f;
      }
      taken := PlaceChar(shown, from, to);
    }

    lemma ViewFields()
      requires Valid()
      ensures View().swallowLf == swallowLf && View().full == full && View().status == status
    {
    }

    method SetSwallow(swallow: bool)
      requires Valid()
      modifies this`swallowLf
      ensures Valid() && View() == old(View()).(swallowLf := swallow)
    {
      swallowLf := swallow;
    }

    method SetNext(offset: nat)
      requires Valid()
      modifies this`next
      ensures Valid() && View() == old(View()).(next := offset)
    {
      next := offset;
    }

    method SetShown()
      requires Valid()
      modifies this`empty
      ensures Valid() && View() == old(View()).(empty := false)
    {
      empty := false;
    }

    method PlaceChar(shown: nat, from: nat, to: nat) returns (taken: bool)
      requires Valid() && status.NeedData? && shown <= 0x10ffff && !full
      modifies this, text, lines
      ensures Valid()
      ensures (View(), taken) == Place(old(View()), shown, from, to)
    {
      hide Encode, Decode, Put;
      var width := layout.glyphWidth.value(shown);
      if lineWidth + width > layout.lineWidth && lines[lineCount - 1].length != 0 {
        var added := NextLine();
        if !added {
          next := from;
          return false;
        }
      }
      var encoded := EncodeBytes(shown);
      if textLength + |encoded| >= text.Length {
        next := from;
        return false;
      }
      PutBytes(encoded, width, to);
      return true;
    }

    // memcpy(): the bytes behind the text used so far.
    method CopyBytes(encoded: seq<byte>)
      requires textLength + |encoded| <= text.Length
      modifies text
      ensures text[..textLength + |encoded|] == old(text[..textLength]) + encoded
    {
      var i := 0;
      while i < |encoded|
        invariant 0 <= i <= |encoded|
        invariant text[..textLength + i] == old(text[..textLength]) + encoded[..i]
      {
        text[textLength + i] := encoded[i];
        i := i + 1;
      }
    }

    // The tail of append(): copy the encoding behind the text and account for it.
    method PutBytes(encoded: seq<byte>, width: u16, to: nat)
      requires Valid() && status.NeedData? && 1 <= |encoded| <= 4
      requires textLength + |encoded| < PAGE_TEXT_CAPACITY
      requires lineWidth + width <= layout.lineWidth || lines[lineCount - 1].length == 0
      modifies this, text, lines
      ensures Valid()
      ensures View() == Put(old(View()), encoded, width, to)
    {
      hide Decode;
      CopyBytes(encoded);
      textLength := textLength + |encoded|;
      text[textLength] := 0;
      var last := lines[lineCount - 1];
      lines[lineCount - 1] := Line(last.offset, last.length + |encoded|);
      lineWidth := lineWidth + width;
      next := to;
      assert lines[..lineCount] == old(lines[..lineCount])[lineCount - 1 := Line(last.offset, last.length + |encoded|)];
    }

    // The body of feed()'s loop. A refused character completes the page.
    method FeedByte(b: byte)
      requires Valid() && status.NeedData?
      modifies Repr()
      ensures Valid()
      ensures View() == Advance(old(View()), b)
    {
      hide Decode, Emit, Encode;
      ghost var s := View();
      pending[pendingSize] := b;
      pendingSize := pendingSize + 1;
      inputOffset := inputOffset + 1;
      assert pending[..pendingSize] == s.pending + [b];
      IncompleteIsShort(pending[..pendingSize]);
      var decoded := DecodeBytes(pending[..pendingSize]);
      if decoded.Invalid? {
        status := InvalidUtf8;
      } else if decoded.Complete? {
        DecodeIsSound(pending[..pendingSize]);
        TakePending(decoded.codepoint);
      }
    }

    // A whole character has arrived: hand it to the page.
    method TakePending(codepoint: nat)
      requires Shape() && status.NeedData? && codepoint <= 0x10ffff
      modifies Repr()
      ensures Valid()
      ensures View() == Emit(old(View()), codepoint)
    {
      hide Decode, Append, Encode;
      ghost var s := View();
      var from := inputOffset - pendingSize;
      pendingSize := 0;
      NothingPending();
      assert View() == s.(pending := []);
      var taken := AppendChar(codepoint, from, inputOffset);
      if !taken {
        status := PageReady;
      }
    }

    method FeedData(data: seq<byte>, endOfInput: bool) returns (result: Status)
      requires Valid()
      modifies Repr()
      ensures Valid()
      ensures View() == (if old(status).NeedData? then Feed(old(View()), data, endOfInput) else old(View()))
      ensures result == status
    {
      hide Encode, Decode, Append, Advance;
      if !status.NeedData? {
        return status;
      }
      ghost var before := View();
      var index := 0;
      while index < |data|
        invariant 0 <= index <= |data|
        invariant Valid() && status.NeedData?
        invariant FeedBytes(before, data) == FeedBytes(View(), data[index..])
      {
        ghost var s := View();
        assert data[index..][1..] == data[index + 1..];
        FeedByte(data[index]);
        if !status.NeedData? {
          return status;
        }
        index := index + 1;
      }
      assert data[index..] == [];
      if endOfInput {
        if pendingSize != 0 {
          status := InvalidUtf8;
        } else {
          endOfFile := true;
          next := inputOffset;
          status := PageReady;
        }
      }
      return status;
    }
  }

  // The width used so far never exceeds the line, except for a single wide glyph; hence it
  // fits the source's 16-bit counter.
  predicate Wrapped(s: State) {
    s.lines != [] && s.lineWidth < 0x10000 && (Last(s.lines).length == 0 ==> s.lineWidth == 0)
  }
}
