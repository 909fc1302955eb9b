// What a finished page is, as a function of the source text: properties of the value
// computed by Paginator, proved one character at a time.
module Pages {
  import opened Options
  import opened Utf8
  import opened Paginator

  // ----- The lines of a page

  function LineText(s: State, i: nat): seq<byte>
    requires i < |s.lines| && s.lines[i].offset + s.lines[i].length <= |s.text|
  {
    s.text[s.lines[i].offset..s.lines[i].offset + s.lines[i].length]
  }

  // Total glyph width of a well-formed run of text.
  function Width(glyph: GlyphWidth, text: seq<byte>): nat
    requires WellFormed(text)
  {
    if text == [] then 0
    else glyph(Decode(text).codepoint) + Width(glyph, text[Decode(text).length..])
  }

  function CharCount(text: seq<byte>): nat
    requires WellFormed(text)
  {
    if text == [] then 0 else 1 + CharCount(text[Decode(text).length..])
  }

  // A line never wider than the layout, except for one glyph that alone is too wide.
  ghost predicate Fits(layout: Layout, text: seq<byte>) {
    && layout.glyphWidth.Some?
    && WellFormed(text)
    && (Width(layout.glyphWidth.value, text) <= layout.lineWidth || CharCount(text) == 1)
  }

  // The lines are consecutive byte ranges that cover the page text.
  ghost predicate Partitioned(s: State) {
    && s.lines != []
    && s.lines[0].offset == 0
    && (forall i :: 0 <= i < |s.lines| - 1 ==> s.lines[i].offset + s.lines[i].length == s.lines[i + 1].offset)
    && Last(s.lines).offset + Last(s.lines).length == |s.text|
    && (forall i :: 0 <= i < |s.lines| ==> s.lines[i].offset + s.lines[i].length <= |s.text|)
  }

  ghost predicate Shaped(s: State) {
    && Roomy(s)
    && Partitioned(s)
    && 1 <= |s.lines| <= s.layout.lineCount <= PAGE_LINE_CAPACITY
    && (s.full ==> |s.lines| == s.layout.lineCount)
    && AllFit(s)
  }

  ghost predicate AllFit(s: State)
    requires Roomy(s) && Partitioned(s)
  {
    && (forall i :: 0 <= i < |s.lines| ==> Fits(s.layout, LineText(s, i)))
    && s.lineWidth == Width(s.layout.glyphWidth.value, LineText(s, |s.lines| - 1))
  }

  lemma ScalarShown(cp: nat)
    requires IsScalar(cp)
    ensures IsScalar(Shown(cp))
  {
  }

  lemma SingleChar(cp: nat)
    requires IsScalar(cp)
    ensures WellFormed(Encode(cp)) && CharCount(Encode(cp)) == 1
    ensures forall glyph: GlyphWidth :: Width(glyph, Encode(cp)) == glyph(cp)
  {
    DecodeIsComplete(cp, []);
    assert Encode(cp) + [] == Encode(cp);
  }

  // A character more at the end of a run.
  lemma {:induction false} WidthSnoc(glyph: GlyphWidth, text: seq<byte>, cp: nat)
    requires WellFormed(text) && IsScalar(cp)
    ensures WellFormed(text + Encode(cp))
    ensures Width(glyph, text + Encode(cp)) == Width(glyph, text) + glyph(cp)
    ensures CharCount(text + Encode(cp)) == CharCount(text) + 1
  {
    hide Encode;
    if text == [] {
      SingleChar(cp);
      assert text + Encode(cp) == Encode(cp);
    } else {
      var n := Decode(text).length;
      DecodeStable(text, Encode(cp));
      WidthSnoc(glyph, text[n..], cp);
      assert (text + Encode(cp))[n..] == text[n..] + Encode(cp);
    }
  }

  lemma NewLineFits(s: State, r: State)
    requires Roomy(s) && Partitioned(s) && AllFit(s)
    requires Roomy(r) && Partitioned(r) && r.layout == s.layout && r.text == s.text && r.lineWidth == 0
    requires r.lines == s.lines + [Line(|s.text|, 0)]
    ensures AllFit(r)
  {
    hide Decode;
    assert LineText(r, |r.lines| - 1) == [];
    forall i | 0 <= i < |r.lines| - 1 ensures Fits(r.layout, LineText(r, i)) {
      assert LineText(r, i) == LineText(s, i);
    }
  }

  lemma OpenLineShaped(s: State)
    requires Shaped(s)
    ensures Shaped(OpenLine(s))
  {
    hide Fits, AllFit;
    var r := OpenLine(s);
    if |s.lines| >= s.layout.lineCount {
      SameFit(s, r);
    } else {
      assert Partitioned(r);
      NewLineFits(s, r);
    }
  }

  lemma SameFit(s: State, t: State)
    requires Roomy(s) && Partitioned(s) && AllFit(s)
    requires Roomy(t) && Partitioned(t)
    requires t.layout == s.layout && t.text == s.text && t.lines == s.lines && t.lineWidth == s.lineWidth
    ensures AllFit(t)
  {
    forall i | 0 <= i < |t.lines| ensures Fits(t.layout, LineText(t, i)) {
      assert LineText(t, i) == LineText(s, i);
    }
  }

  lemma PutShaped(s: State, shown: nat, to: nat)
    requires Shaped(s) && IsScalar(shown)
    requires |s.text| + |Encode(shown)| < PAGE_TEXT_CAPACITY
    requires s.lineWidth + s.layout.glyphWidth.value(shown) <= s.layout.lineWidth || Last(s.lines).length == 0
    ensures Shaped(Put(s, Encode(shown), s.layout.glyphWidth.value(shown), to))
  {
    hide Decode, Encode;
    var glyph := s.layout.glyphWidth.value;
    var n := |s.lines| - 1;
    var r := Put(s, Encode(shown), glyph(shown), to);
    WidthSnoc(glyph, LineText(s, n), shown);
    assert LineText(r, n) == LineText(s, n) + Encode(shown);
    if Last(s.lines).length == 0 {
      assert LineText(s, n) == [];
    }
    forall i | 0 <= i < n ensures LineText(r, i) == LineText(s, i) {
    }
  }

  // Taking or refusing a character keeps the page well shaped.
  lemma PlaceShaped(s: State, shown: nat, from: nat, to: nat)
    requires Shaped(s) && !s.full && IsScalar(shown)
    ensures Shaped(Place(s, shown, from, to).0)
  {
    hide Decode, Encode, Width, CharCount, WellFormed;
    var width := s.layout.glyphWidth.value(shown);
    var wrap := s.lineWidth + width > s.layout.lineWidth && Last(s.lines).length != 0;
    OpenLineShaped(s);
    var t := if wrap then OpenLine(s) else s;
    if (wrap && t.full) || |t.text| + |Encode(shown)| >= PAGE_TEXT_CAPACITY {
      Reshaped(t, Place(s, shown, from, to).0);
    } else {
      PutShaped(t, shown, to);
    }
  }

  lemma Reshaped(s: State, t: State)
    requires Shaped(s)
    requires t.layout == s.layout && t.text == s.text && t.lines == s.lines
    requires t.full == s.full && t.lineWidth == s.lineWidth
    ensures Shaped(t)
  {
    hide AllFit;
    SameFit(s, t);
  }

  lemma AppendShaped(s: State, cp: nat, from: nat, to: nat)
    requires Shaped(s) && IsScalar(cp)
    ensures Shaped(Append(s, cp, from, to).0)
  {
    assert Roomy(s);
    hide Shaped, Place;
    var r := Append(s, cp, from, to).0;
    if (s.swallowLf && cp == 0x0a) || s.full || (from == 0 && cp == 0xfeff) {
      Reshaped(s, r);
    } else if cp == 0x0d || cp == 0x0a {
      var t := s.(swallowLf := false).(empty := false);
      Reshaped(s, t);
      OpenLineShaped(t);
      Reshaped(OpenLine(t), r);
    } else {
      var t := s.(swallowLf := false, empty := false);
      Reshaped(s, t);
      ScalarShown(cp);
      PlaceShaped(t, Shown(cp), from, to);
    }
  }

  // ----- The text of a page

  // What one character contributes to the page text.
  function Shows(cp: nat, atStart: bool): seq<byte>
    requires IsScalar(cp)
  {
    if (atStart && cp == 0xfeff) || cp == 0x0d || cp == 0x0a then [] else Encode(Shown(cp))
  }

  // The visible form of a well-formed stretch of the book: line ends removed, tabs as
  // spaces, other controls as '?', and a byte order mark dropped at the very start only.
  function Visible(raw: seq<byte>, atStart: bool): seq<byte>
    requires WellFormed(raw)
  {
    if raw == [] then []
    else
      DecodeIsSound(raw);
      Shows(Decode(raw).codepoint, atStart) + Visible(raw[Decode(raw).length..], false)
  }

  lemma {:induction false} VisibleConcat(a: seq<byte>, b: seq<byte>, atStart: bool)
    requires WellFormed(a) && WellFormed(b)
    ensures WellFormed(a + b)
    ensures Visible(a + b, atStart) == Visible(a, atStart) + Visible(b, atStart && a == [])
  {
    hide Encode, Shows, Decode;
    WellFormedConcat(a, b);
    if a == [] {
      assert a + b == b;
    } else {
      var n := Decode(a).length;
      DecodeStable(a, b);
      DecodeIsSound(a);
      assert (a + b)[n..] == a[n..] + b;
      VisibleConcat(a[n..], b, false);
      var head := Shows(Decode(a).codepoint, atStart);
      assert Visible(a + b, atStart) == head + (Visible(a[n..], false) + Visible(b, false));
    }
  }

  lemma VisibleChar(cp: nat, atStart: bool)
    requires IsScalar(cp)
    ensures WellFormed(Encode(cp)) && Visible(Encode(cp), atStart) == Shows(cp, atStart)
  {
    hide Encode, Shows;
    DecodeIsComplete(cp, []);
    assert Encode(cp) + [] == Encode(cp);
  }

  // The page holds exactly the visible form of the source range it claims.
  ghost predicate Covers(s: State, source: seq<byte>) {
    && s.start <= s.next <= |source|
    && WellFormed(source[s.start..s.next])
    && s.text == Visible(source[s.start..s.next], s.start == 0)
  }

  // Taking a character extends the range by it; refusing one leaves the range alone.
  lemma AppendText(s: State, cp: nat, to: nat)
    requires Roomy(s) && IsScalar(cp)
    ensures var (r, taken) := Append(s, cp, s.next, to);
            if taken then r.next == to && r.text == s.text + Shows(cp, s.next == 0)
            else r.next == s.next && r.text == s.text
  {
    hide Encode;
  }

  lemma AppendCovers(s: State, cp: nat, to: nat, source: seq<byte>)
    requires Roomy(s) && IsScalar(cp) && Covers(s, source)
    requires s.next <= to <= |source| && source[s.next..to] == Encode(cp)
    ensures Covers(Append(s, cp, s.next, to).0, source)
  {
    hide Encode, Shows, Append;
    AppendText(s, cp, to);
    var raw := source[s.start..s.next];
    VisibleChar(cp, s.start == 0 && raw == []);
    VisibleConcat(raw, Encode(cp), s.start == 0);
    assert source[s.start..to] == raw + Encode(cp);
  }

  // ----- One page, byte by byte

  // While a page is being filled: what was read but not yet placed is an unfinished
  // character, and the line-end flag records a carriage return just before it.
  ghost predicate Reading(s: State, source: seq<byte>) {
    && Filling(s)
    && Shaped(s)
    && Covers(s, source)
    && s.inputOffset == s.next + |s.pending| <= |source|
    && s.pending == source[s.next..s.inputOffset]
    && !s.endOfFile
    && (s.swallowLf <==> s.start < s.next && source[s.next - 1] == 0x0d)
    && (s.next == s.start ==> s.text == [] && !s.full)
  }

  // A page that ended because a character was refused. It ends on a character boundary,
  // never inside CRLF, has moved forward, and has used up its lines or its text room.
  ghost predicate Turned(s: State, source: seq<byte>) {
    && Shaped(s)
    && Covers(s, source)
    && !s.endOfFile
    && s.start < s.next < s.inputOffset <= |source|
    && (exists cp :: IsScalar(cp) && source[s.next..s.inputOffset] == Encode(cp))
    && !(source[s.next - 1] == 0x0d && source[s.next] == 0x0a)
    && (|s.lines| == s.layout.lineCount || |s.text| + 4 >= PAGE_TEXT_CAPACITY)
  }

  // The last page.
  ghost predicate Ended(s: State, source: seq<byte>) {
    && Shaped(s)
    && Covers(s, source)
    && s.endOfFile
    && s.next == |source|
  }

  lemma LastByte(cp: nat)
    requires IsScalar(cp)
    ensures Encode(cp)[|Encode(cp)| - 1] == 0x0d <==> cp == 0x0d
    ensures Encode(cp)[0] == 0x0a <==> cp == 0x0a
  {
  }

  // Flags after a character, independently of where its shape goes.
  lemma AppendFlags(s: State, cp: nat, to: nat)
    requires Roomy(s) && IsScalar(cp)
    ensures var (r, taken) := Append(s, cp, s.next, to);
            && (taken ==> r.swallowLf == (cp == 0x0d))
            && (!taken ==> !(s.swallowLf && cp == 0x0a))
            && (!taken && !s.full ==> r.full || |r.text| + 4 >= PAGE_TEXT_CAPACITY)
            && (s.full ==> r.full)
            && (s.text == [] && !s.full && Last(s.lines).length == 0 ==> taken)
  {
    hide Encode;
  }

  lemma ResetReads(start: nat, layout: Layout, source: seq<byte>)
    requires layout.Usable() && start <= |source|
    ensures Reset(start, layout).status.NeedData? && Reading(Reset(start, layout), source)
  {
    hide Decode;
    var s := Reset(start, layout);
    NothingPending();
    assert LineText(s, 0) == [];
    assert source[start..start] == [];
  }

  // A whole character has arrived and is handed to the page.
  lemma EmitReads(s: State, cp: nat, source: seq<byte>)
    requires Roomy(s) && Shaped(s) && Covers(s, source) && !s.endOfFile && s.status.NeedData?
    requires IsScalar(cp) && s.pending == Encode(cp)
    requires s.inputOffset == s.next + |s.pending| <= |source|
    requires s.pending == source[s.next..s.inputOffset]
    requires s.swallowLf <==> s.start < s.next && source[s.next - 1] == 0x0d
    requires s.next == s.start ==> s.text == [] && !s.full
    ensures Emit(s, cp).status.NeedData? ==> Reading(Emit(s, cp), source)
    ensures Emit(s, cp).status.PageReady? ==> Turned(Emit(s, cp), source)
    ensures !Emit(s, cp).status.InvalidUtf8?
  {
    hide Encode, Decode, Append, Visible, WellFormed, Fits, AllFit;
    var t := s.(pending := []);
    Reshaped(s, t);
    var (r, taken) := Append(t, cp, t.next, t.inputOffset);
    AppendShaped(t, cp, t.next, t.inputOffset);
    AppendText(t, cp, t.inputOffset);
    AppendCovers(t, cp, t.inputOffset, source);
    AppendFlags(t, cp, t.inputOffset);
    LastByte(cp);
    NothingPending();
    assert source[s.next] == s.pending[0];
    assert source[s.inputOffset - 1] == s.pending[|s.pending| - 1];
    var e := Emit(s, cp);
    Reshaped(r, e);
    if s.next == s.start {
      LineOfEmpty(t);
    }
  }

  lemma LineOfEmpty(s: State)
    requires Partitioned(s) && s.text == []
    ensures Last(s.lines).length == 0
  {
  }

  lemma AdvanceReads(s: State, source: seq<byte>)
    requires s.status.NeedData? && Reading(s, source) && s.inputOffset < |source|
    ensures var r := Advance(s, source[s.inputOffset]);
            && (r.status.NeedData? ==> Reading(r, source))
            && (r.status.PageReady? ==> Turned(r, source))
            && (r.status.InvalidUtf8? ==> !WellFormed(source[s.next..]))
            && r.start == s.start && r.layout == s.layout
  {
    hide Encode, Emit, Visible, Fits, AllFit, Decode, WellFormed, Turned;
    var b := source[s.inputOffset];
    var pending := s.pending + [b];
    var t := s.(pending := pending, inputOffset := s.inputOffset + 1);
    assert pending == source[s.next..s.inputOffset + 1];
    match Decode(pending) {
      case Invalid =>
        assert source[s.next..][..|pending|] == pending;
        InvalidPrefix(source[s.next..], |pending|);
      case Incomplete =>
        IncompleteIsShort(pending);
        Reshaped(s, t);
      case Complete(cp, n) =>
        DecodeIsSound(pending);
        WholeIsLast(s.pending, b);
        assert pending[..n] == pending;
        Reshaped(s, t);
        EmitReads(t, cp, source);
    }
  }

  lemma InvalidPrefix(text: seq<byte>, k: nat)
    requires 1 <= k <= |text| && Decode(text[..k]) == Invalid
    ensures !WellFormed(text)
  {
    hide Decode;
    if Decode(text).Complete? {
      DecodePrefix(text, k);
    }
  }

  // The byte that completes a character is its last byte.
  lemma WholeIsLast(pending: seq<byte>, b: byte)
    requires Decode(pending) == Incomplete && Decode(pending + [b]).Complete?
    ensures Decode(pending + [b]).length == |pending| + 1
  {
    hide Decode;
    DecodeIsSound(pending + [b]);
    DecodePrefix(pending + [b], |pending|);
    assert (pending + [b])[..|pending|] == pending;
  }

  lemma {:induction false} FeedBytesReads(s: State, source: seq<byte>, to: nat)
    requires s.status.NeedData? && Reading(s, source) && s.inputOffset <= to <= |source|
    ensures var r := FeedBytes(s, source[s.inputOffset..to]);
            && (r.status.NeedData? ==> Reading(r, source) && r.inputOffset == to)
            && (r.status.PageReady? ==> Turned(r, source) && r.inputOffset <= to)
            && (r.status.InvalidUtf8? ==> !WellFormed(source[s.start..]))
            && r.start == s.start && r.layout == s.layout
    decreases |source| - s.inputOffset
  {
    hide Advance, Turned, Decode, WellFormed, Covers, Shaped;
    var data := source[s.inputOffset..to];
    if data != [] {
      var r := Advance(s, data[0]);
      AdvanceReads(s, source);
      WellFormedRest(s, source);
      if r.status.NeedData? {
        assert data[1..] == source[r.inputOffset..to];
        FeedBytesReads(r, source, to);
      } else {
        assert FeedBytes(r, data[1..]) == r;
      }
    }
  }

  lemma WellFormedRest(s: State, source: seq<byte>)
    requires Covers(s, source)
    ensures WellFormed(source[s.start..]) <==> WellFormed(source[s.next..])
  {
    hide Decode;
    WellFormedConcat(source[s.start..s.next], source[s.next..]);
    assert source[s.start..] == source[s.start..s.next] + source[s.next..];
  }

  // Paginating from a start offset, with everything up to the end of the book as input.
  function PageAt(source: seq<byte>, layout: Layout, start: nat): State
    requires start <= |source|
  {
    ResetFilling(start, layout);
    Feed(Reset(start, layout), source[start..], true)
  }

  // A page that is ready is well shaped, shows exactly its source range, and is either the
  // last one or a turned one; an unusable layout or ill-formed text is the only way to fail.
  lemma PageIsGood(source: seq<byte>, layout: Layout, start: nat)
    requires start <= |source|
    ensures var p := PageAt(source, layout, start);
            && p.start == start && p.layout == ClampLines(layout)
            && (p.status.PageReady? ==> layout.Usable() && if p.endOfFile then Ended(p, source) else Turned(p, source))
            && (!p.status.PageReady? ==> p.status.InvalidUtf8? && !(layout.Usable() && WellFormed(source[start..])))
  {
    hide Reading, Turned, Decode;
    if layout.Usable() {
      var s := Reset(start, layout);
      ResetReads(start, layout, source);
      ResetFilling(start, layout);
      FeedBytesReads(s, source, |source|);
      assert source[start..|source|] == source[start..];
      var t := FeedBytes(s, source[start..]);
      if t.status.NeedData? {
        FinishEnds(t, source);
      } else if t.status.PageReady? {
        TurnedIsNotLast(t, source);
      }
    }
  }

  lemma TurnedIsNotLast(s: State, source: seq<byte>)
    requires Turned(s, source)
    ensures !s.endOfFile
  {
  }

  lemma FinishEnds(s: State, source: seq<byte>)
    requires s.status.NeedData? && Reading(s, source) && s.inputOffset == |source|
    ensures var p := Finish(s);
            && p.start == s.start && p.layout == s.layout
            && (p.status.PageReady? ==> Ended(p, source))
            && (!p.status.PageReady? ==> p.status.InvalidUtf8? && !WellFormed(source[s.start..]))
  {
    hide Decode, Visible, Fits, AllFit;
    WellFormedRest(s, source);
    assert source[s.next..|source|] == source[s.next..];
    if s.pending == [] {
      Reshaped(s, Finish(s));
    }
  }
}
