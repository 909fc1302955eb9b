// The lines of a page against the source: its paragraphs, each wrapped into rows that take
// as many glyphs as fit.
module PageRows {
  import opened Options
  import opened Utf8
  import opened Paginator
  import opened Pages

  const CR: nat := 0x0d
  const LF: nat := 0x0a

  // ----- The characters of a stretch

  function Chars(raw: seq<byte>): (cps: seq<nat>)
    requires WellFormed(raw)
    ensures forall i :: 0 <= i < |cps| ==> IsScalar(cps[i])
  {
    if raw == [] then []
    else
      DecodeIsSound(raw);
      [Decode(raw).codepoint] + Chars(raw[Decode(raw).length..])
  }

  // A byte order mark at the very start of the book is not read.
  function Read(raw: seq<byte>, atStart: bool): seq<nat>
    requires WellFormed(raw)
  {
    var cps := Chars(raw);
    if atStart && cps != [] && cps[0] == 0xfeff then cps[1..] else cps
  }

  // ----- Paragraphs: what lies between line ends, CR, LF or CR LF

  predicate IsEnd(cp: nat) { cp == CR || cp == LF }

  function FirstEnd(cps: seq<nat>): (k: nat)
    ensures k <= |cps| && (k < |cps| ==> IsEnd(cps[k]))
    ensures forall i :: 0 <= i < k ==> !IsEnd(cps[i])
  {
    if cps == [] || IsEnd(cps[0]) then 0 else 1 + FirstEnd(cps[1..])
  }

  // Where the paragraph after the line end at k starts.
  function AfterEnd(cps: seq<nat>, k: nat): (next: nat)
    requires k < |cps|
    ensures k < next <= |cps|
  {
    if cps[k] == CR && k + 1 < |cps| && cps[k + 1] == LF then k + 2 else k + 1
  }

  function Paragraphs(cps: seq<nat>): (ps: seq<seq<nat>>)
    ensures ps != []
    decreases |cps|
  {
    var k := FirstEnd(cps);
    if k == |cps| then [cps] else [cps[..k]] + Paragraphs(cps[AfterEnd(cps, k)..])
  }

  // ----- Rows: as many glyphs as fit, but at least one

  function Total(glyph: GlyphWidth, row: seq<nat>): nat {
    if row == [] then 0 else glyph(row[0]) + Total(glyph, row[1..])
  }

  // How many glyphs fit.
  function Fitting(glyph: GlyphWidth, row: seq<nat>, room: nat): (n: nat)
    ensures n <= |row|
  {
    if row == [] || glyph(row[0]) > room then 0 else 1 + Fitting(glyph, row[1..], room - glyph(row[0]))
  }

  function Wrap(glyph: GlyphWidth, width: nat, row: seq<nat>): (rows: seq<seq<nat>>)
    ensures rows != []
    decreases |row|
  {
    var fit := Fitting(glyph, row, width);
    var n := if fit == 0 then 1 else fit;
    if n >= |row| then [row] else [row[..n]] + Wrap(glyph, width, row[n..])
  }

  // The glyphs that characters are shown as.
  function Glyphs(cps: seq<nat>): seq<nat> { seq(|cps|, i requires 0 <= i < |cps| => Shown(cps[i])) }

  function WrapAll(glyph: GlyphWidth, width: nat, ps: seq<seq<nat>>): (rows: seq<seq<nat>>)
    ensures ps != [] ==> rows != []
  {
    if ps == [] then [] else Wrap(glyph, width, Glyphs(ps[0])) + WrapAll(glyph, width, ps[1..])
  }

  function Rows(layout: Layout, cps: seq<nat>): (rows: seq<seq<nat>>)
    requires layout.glyphWidth.Some?
    ensures rows != []
  {
    WrapAll(layout.glyphWidth.value, layout.lineWidth, Paragraphs(cps))
  }

  // ----- One character more

  function Front<T>(s: seq<T>): seq<T>
    requires s != []
  {
    s[..|s| - 1]
  }

  function Final<T>(s: seq<T>): T
    requires s != []
  {
    s[|s| - 1]
  }

  lemma {:induction false} FirstEndSnoc(cps: seq<nat>, cp: nat)
    ensures FirstEnd(cps + [cp]) == if FirstEnd(cps) < |cps| || IsEnd(cp) then FirstEnd(cps) else |cps| + 1
  {
    if cps == [] {
      assert (cps + [cp])[1..] == [];
    } else {
      FirstEndSnoc(cps[1..], cp);
      assert (cps + [cp])[1..] == cps[1..] + [cp];
    }
  }

  // The last paragraph with a character more, or the paragraphs with one more.
  function WithChar(ps: seq<seq<nat>>, cp: nat): seq<seq<nat>>
    requires ps != []
  {
    if IsEnd(cp) then ps + [[]] else Front(ps) + [Final(ps) + [cp]]
  }

  lemma WithCharBehind(p: seq<nat>, ps: seq<seq<nat>>, cp: nat)
    requires ps != []
    ensures WithChar([p] + ps, cp) == [p] + WithChar(ps, cp)
  {
  }

  lemma LastParagraph(cps: seq<nat>, cp: nat)
    requires FirstEnd(cps) == |cps|
    ensures Paragraphs(cps + [cp]) == WithChar(Paragraphs(cps), cp)
  {
    FirstEndSnoc(cps, cp);
    var more := cps + [cp];
    if IsEnd(cp) {
      assert more[..|cps|] == cps && more[|cps| + 1..] == [];
      assert Paragraphs([]) == [[]];
    }
  }

  lemma ParagraphsCut(cps: seq<nat>, k: nat, end: nat)
    requires k == FirstEnd(cps) < |cps| && end == AfterEnd(cps, k)
    ensures Paragraphs(cps) == [cps[..k]] + Paragraphs(cps[end..])
  {
  }

  // The first paragraph stays as it is, unless the character belongs to its line end.
  lemma FirstParagraph(cps: seq<nat>, cp: nat, k: nat, end: nat)
    requires k == FirstEnd(cps) < |cps| && end == AfterEnd(cps, k)
    ensures var more := cps + [cp];
            && k == FirstEnd(more) && more[..k] == cps[..k]
            && if cp == LF && k + 1 == |cps| && cps[k] == CR then
                 AfterEnd(more, k) == |more| && end == |cps|
               else AfterEnd(more, k) == end && more[end..] == cps[end..] + [cp]
  {
    FirstEndSnoc(cps, cp);
  }

  lemma {:induction false} ParagraphsSnoc(cps: seq<nat>, cp: nat)
    ensures Paragraphs(cps + [cp]) ==
            if cp == LF && cps != [] && Final(cps) == CR then Paragraphs(cps) else WithChar(Paragraphs(cps), cp)
    decreases |cps|
  {
    hide WithChar, Paragraphs, AfterEnd, FirstEnd;
    var k := FirstEnd(cps);
    if k == |cps| {
      LastParagraph(cps, cp);
    } else {
      var end := AfterEnd(cps, k);
      var more := cps + [cp];
      FirstParagraph(cps, cp, k, end);
      ParagraphsCut(cps, k, end);
      ParagraphsCut(more, k, AfterEnd(more, k));
      if cps[k] == CR && k + 1 == |cps| && cp == LF {
        assert more[|more|..] == [] && cps[|cps|..] == [];
      } else {
        ParagraphsSnoc(cps[end..], cp);
        WithCharBehind(cps[..k], Paragraphs(cps[end..]), cp);
        LastStays(cps, k, end);
      }
    }
  }

  lemma LastStays(cps: seq<nat>, k: nat, end: nat)
    requires k == FirstEnd(cps) < |cps| && end == AfterEnd(cps, k)
    ensures cps[end..] != [] ==> Final(cps[end..]) == Final(cps)
    ensures cps[end..] == [] && Final(cps) == CR ==> k + 1 == |cps| && cps[k] == CR
  {
  }

  lemma {:induction false} FittingSnoc(glyph: GlyphWidth, row: seq<nat>, x: nat, room: nat)
    ensures Fitting(glyph, row, room) == |row| ==> Total(glyph, row) <= room
    ensures Fitting(glyph, row + [x], room) ==
            if Fitting(glyph, row, room) < |row| || Total(glyph, row) + glyph(x) > room then Fitting(glyph, row, room)
            else |row| + 1
  {
    if row == [] {
      assert (row + [x])[1..] == [];
    } else {
      assert (row + [x])[1..] == row[1..] + [x];
      if glyph(row[0]) <= room {
        FittingSnoc(glyph, row[1..], x, room - glyph(row[0]));
      }
    }
  }

  // A glyph more goes on the last row if it fits there or the row is empty.
  function WithGlyph(glyph: GlyphWidth, width: nat, rows: seq<seq<nat>>, x: nat): seq<seq<nat>>
    requires rows != []
  {
    var last := Final(rows);
    if last != [] && Total(glyph, last) + glyph(x) > width then rows + [[x]] else Front(rows) + [last + [x]]
  }

  lemma WithGlyphBehind(glyph: GlyphWidth, width: nat, front: seq<seq<nat>>, rows: seq<seq<nat>>, x: nat)
    requires rows != []
    ensures WithGlyph(glyph, width, front + rows, x) == front + WithGlyph(glyph, width, rows, x)
  {
    if Final(rows) != [] && Total(glyph, Final(rows)) + glyph(x) > width {
      assert front + rows + [[x]] == front + (rows + [[x]]);
    } else {
      assert Front(front + rows) == front + Front(rows);
    }
  }

  lemma OneRow(glyph: GlyphWidth, width: nat, row: seq<nat>, x: nat)
    requires Fitting(glyph, row, width) == |row| || |row| == 1
    ensures Wrap(glyph, width, row + [x]) == WithGlyph(glyph, width, Wrap(glyph, width, row), x)
  {
    FittingSnoc(glyph, row, x, width);
    assert Wrap(glyph, width, row) == [row];
    if |row| == 1 {
      assert Total(glyph, row) == glyph(row[0]);
    }
    if row != [] {
      assert (row + [x])[..|row|] == row && (row + [x])[|row|..] == [x];
    }
    assert Wrap(glyph, width, [x]) == [[x]];
  }

  lemma {:induction false} WrapSnoc(glyph: GlyphWidth, width: nat, row: seq<nat>, x: nat)
    ensures Wrap(glyph, width, row + [x]) == WithGlyph(glyph, width, Wrap(glyph, width, row), x)
    decreases |row|
  {
    hide WithGlyph;
    FittingSnoc(glyph, row, x, width);
    var fit := Fitting(glyph, row, width);
    var n := if fit == 0 then 1 else fit;
    if n >= |row| {
      OneRow(glyph, width, row, x);
    } else {
      assert (row + [x])[..n] == row[..n] && (row + [x])[n..] == row[n..] + [x];
      WrapSnoc(glyph, width, row[n..], x);
      WithGlyphBehind(glyph, width, [row[..n]], Wrap(glyph, width, row[n..]), x);
    }
  }

  lemma {:induction false} WrapAllConcat(glyph: GlyphWidth, width: nat, a: seq<seq<nat>>, b: seq<seq<nat>>)
    ensures WrapAll(glyph, width, a + b) == WrapAll(glyph, width, a) + WrapAll(glyph, width, b)
  {
    hide Wrap;
    if a == [] {
      assert a + b == b;
    } else {
      assert (a + b)[1..] == a[1..] + b;
      WrapAllConcat(glyph, width, a[1..], b);
      var head := Wrap(glyph, width, Glyphs(a[0]));
      assert head + (WrapAll(glyph, width, a[1..]) + WrapAll(glyph, width, b)) ==
             head + WrapAll(glyph, width, a[1..]) + WrapAll(glyph, width, b);
    }
  }

  lemma WrapOne(glyph: GlyphWidth, width: nat, p: seq<nat>)
    ensures WrapAll(glyph, width, [p]) == Wrap(glyph, width, Glyphs(p))
  {
    hide Wrap;
    assert [p][1..] == [];
    assert WrapAll(glyph, width, []) == [];
  }

  // A character more: the LF of a CR LF changes nothing, any other line end starts an empty
  // row, and a visible character goes on the last row if it fits.
  lemma RowsSnoc(layout: Layout, cps: seq<nat>, cp: nat)
    requires layout.glyphWidth.Some?
    ensures Rows(layout, cps + [cp]) ==
            if cp == LF && cps != [] && Final(cps) == CR then Rows(layout, cps)
            else if IsEnd(cp) then Rows(layout, cps) + [[]]
            else WithGlyph(layout.glyphWidth.value, layout.lineWidth, Rows(layout, cps), Shown(cp))
  {
    hide Wrap, WrapAll, Paragraphs, WithGlyph;
    var glyph, width := layout.glyphWidth.value, layout.lineWidth;
    var ps := Paragraphs(cps);
    ParagraphsSnoc(cps, cp);
    if IsEnd(cp) {
      WrapAllConcat(glyph, width, ps, [[]]);
      WrapOne(glyph, width, []);
      EmptyRow(glyph, width);
    } else {
      var p := Final(ps);
      WrapAllConcat(glyph, width, Front(ps), [p + [cp]]);
      WrapAllConcat(glyph, width, Front(ps), [p]);
      assert ps == Front(ps) + [p];
      WrapOne(glyph, width, p + [cp]);
      WrapOne(glyph, width, p);
      assert Glyphs(p + [cp]) == Glyphs(p) + [Shown(cp)];
      WrapSnoc(glyph, width, Glyphs(p), Shown(cp));
      WithGlyphBehind(glyph, width, WrapAll(glyph, width, Front(ps)), Wrap(glyph, width, Glyphs(p)), Shown(cp));
    }
  }

  lemma EmptyRow(glyph: GlyphWidth, width: nat)
    ensures Wrap(glyph, width, Glyphs([])) == [[]]
  {
    assert Glyphs([]) == [];
  }

  // ----- The page being filled

  ghost predicate Scalars(row: seq<nat>) { forall c :: c in row ==> IsScalar(c) }

  lemma {:induction false} EncodeSnoc(row: seq<nat>, x: nat)
    requires Scalars(row) && IsScalar(x)
    ensures EncodeAll(row + [x]) == EncodeAll(row) + Encode(x)
    ensures EncodeAll(row) == [] <==> row == []
  {
    hide Encode;
    if row == [] {
      assert row + [x] == [x] && [x][1..] == [];
      assert Encode(x) + [] == Encode(x);
    } else {
      assert (row + [x])[1..] == row[1..] + [x];
      EncodeSnoc(row[1..], x);
    }
  }

  // The lines of the page are these rows, as far as both go.
  ghost predicate Agree(s: State, rows: seq<seq<nat>>) {
    && Partitioned(s)
    && forall i :: 0 <= i < |s.lines| && i < |rows| ==> IsRow(s, i, rows[i])
  }

  ghost predicate IsRow(s: State, i: nat, row: seq<nat>)
    requires Partitioned(s) && i < |s.lines|
  {
    Scalars(row) && LineText(s, i) == EncodeAll(row)
  }

  // The characters read so far stand on the page; once it is full, a line end has used up
  // its last line.
  ghost predicate Set(s: State, cps: seq<nat>)
    requires Roomy(s)
  {
    var rows := Rows(s.layout, cps);
    && |rows| == |s.lines| + (if s.full then 1 else 0)
    && (s.full ==> |s.lines| == s.layout.lineCount && Final(rows) == [])
    && Agree(s, rows)
    && s.lineWidth == Total(s.layout.glyphWidth.value, rows[|s.lines| - 1])
    && (s.swallowLf <==> cps != [] && Final(cps) == CR)
    && (s.empty <==> cps == [])
  }

  // A character has been refused: its row would be one too many, or there is no room for it.
  ghost predicate Refused(s: State, cps: seq<nat>, cp: nat)
    requires Roomy(s) && IsScalar(cp)
  {
    var rows := Rows(s.layout, cps);
    && Agree(s, rows)
    && (|rows| == |s.lines| || (|rows| == |s.lines| + 1 && Final(rows) == []) ||
        (|rows| + 1 == |s.lines| && Last(s.lines).length == 0))
    && (|Rows(s.layout, cps + [cp])| > s.layout.lineCount || |s.text| + |Encode(Shown(cp))| >= PAGE_TEXT_CAPACITY)
  }

  lemma SameRows(s: State, t: State, rows: seq<seq<nat>>)
    requires Agree(s, rows) && t.text == s.text && t.lines == s.lines
    ensures Agree(t, rows)
  {
    forall i | 0 <= i < |t.lines| && i < |rows| ensures IsRow(t, i, rows[i]) {
      assert IsRow(s, i, rows[i]);
    }
  }

  lemma OpenedRows(s: State, t: State, rows: seq<seq<nat>>)
    requires Agree(s, rows) && |rows| == |s.lines| && |s.text| < 0x10000
    requires t.text == s.text && t.lines == s.lines + [Line(|s.text|, 0)]
    ensures Agree(t, rows) && Agree(t, rows + [[]])
  {
    assert Partitioned(t);
    forall i | 0 <= i < |s.lines| ensures IsRow(t, i, rows[i]) {
      assert IsRow(s, i, rows[i]);
    }
    assert LineText(t, |s.lines|) == [];
  }

  lemma PutRows(s: State, rows: seq<seq<nat>>, x: nat, width: nat, to: nat)
    requires Roomy(s) && Agree(s, rows) && |rows| == |s.lines| && IsScalar(x)
    requires |s.text| + |Encode(x)| < PAGE_TEXT_CAPACITY
    ensures Agree(Put(s, Encode(x), width, to), Front(rows) + [Final(rows) + [x]])
  {
    hide Encode;
    var t := Put(s, Encode(x), width, to);
    var n := |rows| - 1;
    assert Partitioned(t);
    assert IsRow(s, n, rows[n]);
    EncodeSnoc(rows[n], x);
    assert LineText(t, n) == LineText(s, n) + Encode(x);
    forall i | 0 <= i < n ensures IsRow(t, i, rows[i]) {
      assert IsRow(s, i, rows[i]) && LineText(t, i) == LineText(s, i);
    }
  }

  lemma {:induction false} TotalSnoc(glyph: GlyphWidth, row: seq<nat>, x: nat)
    ensures Total(glyph, row + [x]) == Total(glyph, row) + glyph(x)
  {
    if row == [] {
      assert (row + [x])[1..] == [];
    } else {
      assert (row + [x])[1..] == row[1..] + [x];
      TotalSnoc(glyph, row[1..], x);
    }
  }

  lemma NoTotal(glyph: GlyphWidth)
    ensures Total(glyph, []) == 0
  {
  }

  lemma LastRow(s: State, rows: seq<seq<nat>>)
    requires Roomy(s) && Agree(s, rows) && |rows| == |s.lines|
    ensures Final(rows) == [] <==> Last(s.lines).length == 0
  {
    assert IsRow(s, |s.lines| - 1, Final(rows));
    EncodeSnoc(Final(rows), 0);
  }

  lemma PlaceSet(s: State, cps: seq<nat>, cp: nat, from: nat, to: nat)
    requires Shaped(s) && Set(s, cps) && !s.full && IsScalar(cp) && !IsEnd(cp)
    ensures var (r, taken) := Place(s.(swallowLf := false, empty := false), Shown(cp), from, to);
            if taken then Set(r, cps + [cp]) else Refused(r, cps, cp)
  {
    hide Encode, Rows, Agree, Partitioned, AllFit, Total;
    var rows := Rows(s.layout, cps);
    var x := Shown(cp);
    var glyph := s.layout.glyphWidth.value;
    ScalarShown(cp);
    RowsSnoc(s.layout, cps, cp);
    LastRow(s, rows);
    var wrap := s.lineWidth + glyph(x) > s.layout.lineWidth && Last(s.lines).length != 0;
    var marked := s.(swallowLf := false, empty := false);
    var t := if wrap then OpenLine(marked) else marked;
    var started := if wrap && !t.full then rows + [[]] else rows;
    if wrap && !t.full {
      OpenedRows(s, t, rows);
    } else {
      SameRows(s, t, rows);
    }
    var r := Place(marked, x, from, to).0;
    if (wrap && t.full) || |t.text| + |Encode(x)| >= PAGE_TEXT_CAPACITY {
      SameRows(t, r, rows);
    } else {
      PutRows(t, started, x, glyph(x), to);
      TotalSnoc(glyph, Final(started), x);
      NoTotal(glyph);
      assert Front(rows + [[]]) == rows && Final(rows + [[]]) == [] && [] + [x] == [x];
    }
  }

  lemma BreakSet(s: State, cps: seq<nat>, cp: nat, to: nat)
    requires Shaped(s) && Set(s, cps) && !s.full && IsEnd(cp) && !(s.swallowLf && cp == LF)
    ensures Set(Break(s.(swallowLf := false), cp == CR, to), cps + [cp])
  {
    hide Encode, Rows, Agree, AllFit, Total;
    var rows := Rows(s.layout, cps);
    RowsSnoc(s.layout, cps, cp);
    NoTotal(s.layout.glyphWidth.value);
    var r := Break(s.(swallowLf := false), cp == CR, to);
    if |s.lines| < s.layout.lineCount {
      OpenedRows(s, r, rows);
    } else {
      SameRows(s, r, rows);
      MoreRows(r, rows);
    }
  }

  lemma MoreRows(s: State, rows: seq<seq<nat>>)
    requires Agree(s, rows) && |rows| == |s.lines|
    ensures Agree(s, rows + [[]])
  {
  }

  // What append() does to the page is what one more character does to the rows.
  lemma AppendSet(s: State, cps: seq<nat>, cp: nat, from: nat, to: nat)
    requires Shaped(s) && Set(s, cps) && IsScalar(cp) && (from == 0 && cp == 0xfeff ==> cps == [])
    ensures var (r, taken) := Append(s, cp, from, to);
            if taken then Set(r, if from == 0 && cp == 0xfeff then cps else cps + [cp])
            else Refused(r, cps, cp)
  {
    hide Encode, Rows, Agree, AllFit, Total, Place, Break;
    var rows := Rows(s.layout, cps);
    var r := Append(s, cp, from, to).0;
    RowsSnoc(s.layout, cps, cp);
    if s.swallowLf && cp == LF {
      SameRows(s, r, rows);
    } else if s.full {
      SameRows(s, r, rows);
    } else if from == 0 && cp == 0xfeff {
      SameRows(s, r, rows);
    } else if IsEnd(cp) {
      BreakSet(s, cps, cp, to);
    } else {
      PlaceSet(s, cps, cp, from, to);
    }
  }

  // ----- One page, byte by byte

  lemma {:induction false} CharsSnoc(raw: seq<byte>, cp: nat)
    requires WellFormed(raw) && IsScalar(cp)
    ensures WellFormed(raw + Encode(cp)) && Chars(raw + Encode(cp)) == Chars(raw) + [cp]
    ensures Chars(raw) == [] <==> raw == []
  {
    hide Encode, Decode;
    DecodeIsComplete(cp, []);
    assert Encode(cp) + [] == Encode(cp);
    if raw == [] {
      assert raw + Encode(cp) == Encode(cp);
      assert Encode(cp)[|Encode(cp)|..] == [];
    } else {
      var n := Decode(raw).length;
      DecodeStable(raw, Encode(cp));
      assert (raw + Encode(cp))[n..] == raw[n..] + Encode(cp);
      CharsSnoc(raw[n..], cp);
    }
  }

  lemma ReadSnoc(raw: seq<byte>, cp: nat, atStart: bool)
    requires WellFormed(raw) && IsScalar(cp)
    ensures WellFormed(raw + Encode(cp))
    ensures Read(raw + Encode(cp), atStart) ==
            if atStart && raw == [] && cp == 0xfeff then Read(raw, atStart) else Read(raw, atStart) + [cp]
  {
    hide Encode, Decode, Chars, WellFormed;
    CharsSnoc(raw, cp);
  }

  // The characters between the start of the page and where it has got to.
  ghost function ReadBy(s: State, source: seq<byte>): seq<nat>
    requires Covers(s, source)
  {
    Read(source[s.start..s.next], s.start == 0)
  }

  lemma SameSet(s: State, t: State, cps: seq<nat>)
    requires Roomy(s) && Roomy(t) && Set(s, cps)
    requires t.layout == s.layout && t.text == s.text && t.lines == s.lines && t.full == s.full
    requires t.lineWidth == s.lineWidth && t.swallowLf == s.swallowLf && t.empty == s.empty
    ensures Set(t, cps)
  {
    hide Rows, Agree;
    SameRows(s, t, Rows(s.layout, cps));
  }

  // A page that ended because the character at its end was refused.
  ghost predicate StopsAt(s: State, source: seq<byte>, cp: nat) {
    && Covers(s, source) && Roomy(s) && IsScalar(cp)
    && s.next + |Encode(cp)| <= |source| && source[s.next..s.next + |Encode(cp)|] == Encode(cp)
    && Refused(s, ReadBy(s, source), cp)
  }

  lemma ResetRows(start: nat, layout: Layout, source: seq<byte>)
    requires layout.Usable() && start <= |source|
    ensures var s := Reset(start, layout); Reading(s, source) && Set(s, ReadBy(s, source))
  {
    hide Wrap;
    var s := Reset(start, layout);
    ResetReads(start, layout, source);
    assert source[start..start] == [];
    var glyph, width := s.layout.glyphWidth.value, s.layout.lineWidth;
    assert Paragraphs([]) == [[]];
    WrapOne(glyph, width, []);
    EmptyRow(glyph, width);
    assert Rows(s.layout, []) == [[]];
    assert LineText(s, 0) == [];
    assert IsRow(s, 0, []);
  }

  lemma EmitRows(s: State, cp: nat, source: seq<byte>)
    requires Roomy(s) && Shaped(s) && Covers(s, source) && s.status.NeedData?
    requires IsScalar(cp) && s.pending == Encode(cp)
    requires s.inputOffset == s.next + |s.pending| <= |source|
    requires s.pending == source[s.next..s.inputOffset]
    requires Set(s, ReadBy(s, source))
    ensures var e := Emit(s, cp);
            && Covers(e, source)
            && (e.status.NeedData? ==> Set(e, ReadBy(e, source)))
            && (e.status.PageReady? ==> StopsAt(e, source, cp)) && e.endOfFile == s.endOfFile
  {
    hide Encode, Decode, Append, Rows, Agree, AllFit, Visible, WellFormed, Read;
    var t := s.(pending := []);
    var raw := source[s.start..s.next];
    var cps := ReadBy(s, source);
    Reshaped(s, t);
    SameSet(s, t, cps);
    assert raw == [] ==> cps == [] by { NothingRead(s.start == 0); }
    AppendSet(t, cps, cp, t.next, t.inputOffset);
    AppendText(t, cp, t.inputOffset);
    AppendCovers(t, cp, t.inputOffset, source);
    ReadSnoc(raw, cp, s.start == 0);
    assert source[s.start..s.inputOffset] == raw + Encode(cp);
    var (r, taken) := Append(t, cp, t.next, t.inputOffset);
    if !taken {
      SameRows(r, Emit(s, cp), Rows(s.layout, cps));
    }
  }

  lemma NothingRead(atStart: bool)
    ensures WellFormed([]) && Read([], atStart) == []
  {
  }

  lemma AdvanceRows(s: State, source: seq<byte>)
    requires s.status.NeedData? && Reading(s, source) && s.inputOffset < |source| && Set(s, ReadBy(s, source))
    ensures var r := Advance(s, source[s.inputOffset]);
            && (r.status.NeedData? ==> Covers(r, source) && Set(r, ReadBy(r, source)))
            && (r.status.PageReady? ==> !r.endOfFile && exists cp :: StopsAt(r, source, cp))
  {
    hide Encode, Emit, Visible, Fits, AllFit, Decode, WellFormed, Set, Read, StopsAt;
    var b := source[s.inputOffset];
    var pending := s.pending + [b];
    var t := s.(pending := pending, inputOffset := s.inputOffset + 1);
    assert pending == source[s.next..s.inputOffset + 1];
    match Decode(pending) {
      case Invalid =>
      case Incomplete => SameSet(s, t, ReadBy(s, source));
      case Complete(cp, n) =>
        DecodeIsSound(pending);
        WholeIsLast(s.pending, b);
        assert pending[..n] == pending;
        Reshaped(s, t);
        SameSet(s, t, ReadBy(s, source));
        EmitRows(t, cp, source);
    }
  }

  lemma {:induction false} FeedBytesRows(s: State, source: seq<byte>)
    requires s.status.NeedData? && Reading(s, source) && Set(s, ReadBy(s, source))
    ensures var r := FeedBytes(s, source[s.inputOffset..]);
            && (r.status.NeedData? ==> Reading(r, source) && Set(r, ReadBy(r, source)) && r.inputOffset == |source|)
            && (r.status.PageReady? ==> !r.endOfFile && exists cp :: StopsAt(r, source, cp))
    decreases |source| - s.inputOffset
  {
    hide Advance, Decode, Set, StopsAt, Read;
    var data := source[s.inputOffset..];
    if data != [] {
      var r := Advance(s, data[0]);
      AdvanceReads(s, source);
      AdvanceRows(s, source);
      if r.status.NeedData? {
        assert data[1..] == source[r.inputOffset..];
        FeedBytesRows(r, source);
      } else {
        assert FeedBytes(r, data[1..]) == r;
      }
    }
  }

  lemma FinishRows(s: State, source: seq<byte>)
    requires s.status.NeedData? && Reading(s, source) && s.inputOffset == |source| && Set(s, ReadBy(s, source))
    ensures var p := Finish(s);
            p.status.PageReady? ==>
              && p.endOfFile && p.next == |source| && Covers(p, source) && Roomy(p)
              && var cps := ReadBy(p, source); var rows := Rows(p.layout, cps);
                 && Agree(p, rows) && (p.empty <==> cps == [])
                 && (|rows| == |p.lines| ||
                     (|rows| == |p.lines| + 1 == p.layout.lineCount + 1 && Final(rows) == []))
  {
    hide Decode, Visible, Rows, Agree, Read, Fits, AllFit, Partitioned;
    if s.pending == [] {
      SameSet(s, Finish(s), ReadBy(s, source));
    }
  }

  lemma StopsCovered(s: State, source: seq<byte>, cp: nat)
    requires StopsAt(s, source, cp)
    ensures Covers(s, source) && Roomy(s)
  {
    hide Covers, Refused;
  }

  // ----- The result

  // A finished page stands for a stretch of the book, cut into paragraphs and wrapped into
  // rows. Its lines are these rows, except that a line end behind the last line opens no line,
  // and that a line may have been opened for a character that then had no room. The last page
  // goes to the end of the book; any other ends before a character whose row would be one too
  // many, or which has no room. And a page is empty when nothing but a byte order mark was read.
  lemma PageIsLaidOut(source: seq<byte>, layout: Layout, start: nat)
    requires start <= |source| && PageAt(source, layout, start).status.PageReady?
    ensures var p := PageAt(source, layout, start);
            && layout.Usable() && Covers(p, source) && Roomy(p) && p.layout == ClampLines(layout) && p.start == start
            && if p.endOfFile then
                 var cps := ReadBy(p, source); var rows := Rows(p.layout, cps);
                 && p.next == |source| && Agree(p, rows) && (p.empty <==> cps == [])
                 && (|rows| == |p.lines| ||
                     (|rows| == |p.lines| + 1 == p.layout.lineCount + 1 && Final(rows) == []))
               else exists cp :: StopsAt(p, source, cp)
  {
    hide Reading, Turned, Decode, StopsAt, Read, Rows, Agree, FeedBytes;
    var s := Reset(start, layout);
    PageIsGood(source, layout, start);
    ResetRows(start, layout, source);
    ResetFilling(start, layout);
    FeedBytesRows(s, source);
    var t := FeedBytes(s, source[start..]);
    if t.status.NeedData? {
      FinishRows(t, source);
    } else {
      var cp :| StopsAt(t, source, cp);
      StopsCovered(t, source, cp);
    }
  }

  // ----- Blank texts

  lemma {:induction false} CharsAreAll(raw: seq<byte>)
    requires WellFormed(raw)
    ensures EncodeAll(Chars(raw)) == raw
  {
    hide Decode, Encode;
    if raw != [] {
      var n := Decode(raw).length;
      DecodeIsSound(raw);
      CharsAreAll(raw[n..]);
      var cps := Chars(raw);
      assert cps[1..] == Chars(raw[n..]);
      assert raw == raw[..n] + raw[n..];
    }
  }

  // Nothing is read of an empty text, or of a byte order mark.
  lemma ReadBlank(source: seq<byte>)
    requires WellFormed(source)
    ensures Read(source, true) == [] <==> source == [] || source == [0xef, 0xbb, 0xbf]
  {
    hide Decode, WellFormed, Chars;
    CharsAreAll(source);
    NoChars();
    CharsSnoc([], 0xfeff);
    MarkBytes();
    assert [] + Encode(0xfeff) == [0xef, 0xbb, 0xbf];
    if Read(source, true) == [] && source != [] {
      assert Chars(source) == [0xfeff];
      assert EncodeAll([0xfeff]) == Encode(0xfeff) + EncodeAll([]);
    }
  }

  lemma NoChars()
    ensures WellFormed([]) && Chars([]) == []
  {
  }

  lemma TurnedIsNotBlank(source: seq<byte>, layout: Layout)
    requires PageAt(source, layout, 0).status.PageReady? && !PageAt(source, layout, 0).endOfFile
    ensures source != [] && source != [0xef, 0xbb, 0xbf]
  {
    hide Decode, PageAt, Shaped, Visible, Encode, Chars;
    var p := PageAt(source, layout, 0);
    PageIsGood(source, layout, 0);
    if source == [0xef, 0xbb, 0xbf] {
      DecodeIsComplete(0xfeff, []);
      MarkBytes();
      assert Encode(0xfeff) + [] == source;
      assert source[0..p.next] == source[..p.next];
      DecodePrefix(source, p.next);
    }
  }

  lemma MarkBytes()
    ensures Encode(0xfeff) == [0xef, 0xbb, 0xbf]
  {
  }
}
