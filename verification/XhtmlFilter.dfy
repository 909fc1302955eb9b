// class epub_xhtml_filter of services/book/epub_format.cpp as it is: token and character
// buffers in place, a sink it writes to, and flags for what was last written.
module XhtmlFilter {
  import opened Options
  import opened Utf8
  import opened Disk
  import opened XhtmlText
  import opened ContentSink

  // ----- Reading tags and entities

  // equal_folded()
  method FoldedEqual(a: seq<byte>, b: seq<byte>) returns (equal: bool)
    ensures equal == EqualFolded(a, b)
  {
    if |a| != |b| {
      return false;
    }
    var i := 0;
    while i < |a|
      invariant 0 <= i <= |a|
      invariant forall j :: 0 <= j < i ==> Lower(a[j]) == Lower(b[j])
    {
      if Lower(a[i]) != Lower(b[i]) {
        return false;
      }
      i := i + 1;
    }
    return true;
  }

  // tag_name()
  method ParseName(tag: seq<byte>) returns (r: TagName)
    ensures r == NameOf(tag)
  {
    var cursor := 0;
    while cursor < |tag| && IsSpace(tag[cursor])
      invariant 0 <= cursor <= |tag|
      invariant SkipSpaces(tag, 0) == SkipSpaces(tag, cursor)
    {
      cursor := cursor + 1;
    }
    var closing := cursor < |tag| && tag[cursor] == 0x2f;
    if closing {
      cursor := cursor + 1;
    }
    var start := cursor;
    while cursor < |tag| && !EndsName(tag[cursor])
      invariant start <= cursor <= |tag|
      invariant NameEnd(tag, start) == NameEnd(tag, cursor)
    {
      cursor := cursor + 1;
    }
    return TagName(closing, LocalName(tag[start..cursor]));
  }

  lemma {:induction false} NumeralGrows(digits: seq<byte>, k: nat, hex: bool)
    requires k <= |digits|
    ensures Numeral(digits[..k], hex) == None ==> Numeral(digits, hex) == None
    ensures Numeral(digits[..k], hex).Some? && Numeral(digits, hex).Some? ==>
              Numeral(digits[..k], hex).value <= Numeral(digits, hex).value
    decreases |digits|
  {
    hide DigitValue, Base;
    if k == |digits| {
      assert digits[..k] == digits;
    } else {
      var front := digits[..|digits| - 1];
      assert front[..k] == digits[..k];
      NumeralGrows(front, k, hex);
      if Numeral(digits, hex).Some? {
        Appended(Numeral(front, hex).value, hex);
      }
    }
  }

  lemma Appended(n: nat, hex: bool)
    ensures n <= n * Base(hex)
  {
  }

  // The loop of finish_entity() over the digits of a numeric reference: the code point grows
  // until it would leave the range.
  method ParseNumber(value: seq<byte>) returns (r: Option<nat>)
    requires value != []
    ensures r == Numeric(value)
  {
    var hex := |value| > 1 && (value[1] == 0x78 || value[1] == 0x58);
    var start := if hex then 2 else 1;
    if start == |value| {
      return None;
    }
    ghost var digits := value[start..];
    var codepoint := 0;
    var i := start;
    while i < |value|
      invariant start <= i <= |value|
      invariant codepoint <= 0x10ffff
      invariant Numeral(value[start..][..i - start], hex) == Some(codepoint)
    {
      ghost var k := i - start;
      assert digits[..k + 1][..k] == digits[..k] && digits[..k + 1][k] == value[i];
      NumeralGrows(digits, k + 1, hex);
      var digit := DigitValue(value[i], hex);
      if digit == None || codepoint > (0x10ffff - digit.value) / Base(hex) {
        return None;
      }
      codepoint := codepoint * Base(hex) + digit.value;
      i := i + 1;
    }
    assert digits[..|digits|] == digits;
    return Some(codepoint);
  }

  // ----- The filter

  class Filter {
    const sink: TextOutput
    const token: array<byte>
    const utf8: array<byte>
    var mode: Mode
    var tokenLength: nat
    var overflow: bool
    var quote: byte
    var tail: nat
    var utf8Length: nat
    var depth: nat
    var pendingSpace: bool
    var wroteText: bool
    var lastOutput: byte
    var outputSize: nat

    // What this filter has written, after what the sink had before.
    ghost var before: seq<byte>
    ghost var emitted: seq<byte>

    // The buffers as they were made.
    ghost predicate Buffers() {
      token.Length == TOKEN_CAPACITY && utf8.Length == 4 && token != utf8 && token != sink.output && utf8 != sink.output
    }

    ghost predicate Shape()
      reads this`tokenLength, this`utf8Length
    {
      Buffers() && tokenLength <= token.Length && utf8Length <= utf8.Length
    }

    ghost predicate Wrote()
      reads this`before, this`emitted, this`wroteText, this`lastOutput, this`outputSize, sink, sink.output, sink.io
    {
      && sink.Valid() && sink.Text() == before + emitted
      && wroteText == (emitted != []) && outputSize == |emitted| <= CONTENT_SIZE_LIMIT
      && lastOutput == if emitted == [] then 0 else emitted[|emitted| - 1]
    }

    ghost predicate Valid()
      reads this, token, utf8, sink, sink.output, sink.io
    {
      Shape() && Wrote()
    }

    ghost function View(): State
      reads this, token, utf8
      requires Shape()
    {
      State(mode, token[..tokenLength], overflow, quote, tail, utf8[..utf8Length], depth, pendingSpace, emitted,
            false)
    }

    ghost function Footprint(): set<object> { {this, token, utf8, sink, sink.output, sink.io} }

    constructor (sink: TextOutput)
      requires sink.Valid()
      ensures Valid() && View() == START && before == sink.Text() && this.sink == sink
      ensures fresh(token) && fresh(utf8)
    {
      this.sink := sink;
      token := new byte[TOKEN_CAPACITY](_ => 0);
      utf8 := new byte[4](_ => 0);
      mode, tokenLength, overflow, quote, tail, utf8Length := InText, 0, false, 0, 0, 0;
      depth, pendingSpace, wroteText, lastOutput, outputSize := 0, false, false, 0, 0;
      before, emitted := sink.Text(), [];
    }

    // std::optional::emplace(): a new filter in the same place, for the next chapter.
    method Emplace()
      requires Buffers() && sink.Valid()
      modifies this
      ensures Valid() && View() == START && before == sink.Text()
    {
      before, emitted := sink.Text(), [];
      Clear();
      assert token[..0] == [] && utf8[..0] == [];
      assert before + [] == before;
    }

    // The initial values of the fields.
    method Clear()
      modifies this`mode, this`tokenLength, this`overflow, this`quote, this`tail, this`utf8Length, this`depth
      modifies this`pendingSpace, this`wroteText, this`lastOutput, this`outputSize
      ensures mode == InText && tokenLength == 0 && !overflow && quote == 0 && tail == 0 && utf8Length == 0
      ensures depth == 0 && !pendingSpace && !wroteText && lastOutput == 0 && outputSize == 0
    {
      mode, tokenLength, overflow, quote, tail, utf8Length := InText, 0, false, 0, 0, 0;
      depth, pendingSpace, wroteText, lastOutput, outputSize := 0, false, false, 0, 0;
    }

    // ----- Output

    // The result of a step: done as specified, or refused by the filter or by the sink; without
    // faults the sink refuses only what makes the text too long.
    ghost predicate Stepped(ok: bool, spec: State)
      reads this, token, utf8, sink, sink.output, sink.io
    {
      if ok then Valid() && !spec.failed && View() == spec else spec.failed || Refused(spec)
    }

    ghost predicate Refused(spec: State)
      reads this`before, sink
    {
      sink.refused && (sink.io.faultFree ==> |before| + |spec.output| > CONTENT_SIZE_LIMIT)
    }

    // emit()
    method EmitBytes(data: seq<byte>) returns (ok: bool)
      requires Valid() && data != []
      modifies this`emitted, this`wroteText, this`lastOutput, this`outputSize, sink, sink.output, sink.io
      ensures OnlyChanged(old(sink.io.files), sink.io.files, sink.path)
      ensures Stepped(ok, Emit(old(View()), data))
    {
      if |data| > CONTENT_SIZE_LIMIT - outputSize {
        return false;
      }
      var written := sink.WriteText(data);
      if !written {
        return false;
      }
      assert (before + emitted) + data == before + (emitted + data);
      NoteWritten(data);
      return true;
    }

    // What emit() remembers of what it has written.
    method NoteWritten(data: seq<byte>)
      requires data != []
      modifies this`emitted, this`wroteText, this`lastOutput, this`outputSize
      ensures emitted == old(emitted) + data && wroteText
      ensures outputSize == old(outputSize) + |data| && lastOutput == data[|data| - 1]
    {
      emitted := emitted + data;
      outputSize := outputSize + |data|;
      lastOutput := data[|data| - 1];
      wroteText := true;
    }

    // emit_codepoint()
    method EmitCharacter(codepoint: nat) returns (ok: bool)
      requires Valid()
      modifies this`pendingSpace, this`emitted, this`wroteText, this`lastOutput, this`outputSize
      modifies sink, sink.output, sink.io
      ensures OnlyChanged(old(sink.io.files), sink.io.files, sink.path)
      ensures Stepped(ok, EmitCodepoint(old(View()), codepoint))
    {
      hide Encode, Wrote;
      if codepoint == 0 || codepoint > 0x10ffff || 0xd800 <= codepoint <= 0xdfff {
        return false;
      }
      if codepoint == 0x0d || codepoint == 0x0a || codepoint == 0x09 || codepoint == 0x20 || codepoint == 0xa0 {
        LastWritten();
        pendingSpace := wroteText && lastOutput != NEWLINE;
        return true;
      }
      if codepoint < 0x20 || codepoint == 0x7f {
        return true;
      }
      if pendingSpace {
        pendingSpace := false;
        var spaced := EmitBytes([SPACE]);
        if !spaced {
          return false;
        }
      }
      var encoded := EncodeBytes(codepoint);
      ok := EmitBytes(encoded);
    }

    lemma LastWritten()
      requires Valid()
      ensures lastOutput == LastOutput(View()) && wroteText == (View().output != [])
    {
    }

    // emit_newline()
    method EmitBreak(paragraph: bool) returns (ok: bool)
      requires Valid()
      modifies this`pendingSpace, this`emitted, this`wroteText, this`lastOutput, this`outputSize
      modifies sink, sink.output, sink.io
      ensures OnlyChanged(old(sink.io.files), sink.io.files, sink.path)
      ensures Stepped(ok, EmitNewline(old(View()), paragraph))
    {
      hide Wrote;
      LastWritten();
      pendingSpace := false;
      if !wroteText {
        return true;
      }
      if lastOutput != NEWLINE {
        var broken := EmitBytes([NEWLINE]);
        if !broken {
          return false;
        }
        LastWritten();
      }
      if paragraph && lastOutput == NEWLINE {
        ok := EmitBytes([NEWLINE]);
        return;
      }
      return true;
    }

    // ----- Text, tags and entities

    // text_byte()
    method TakeTextByte(b: byte) returns (ok: bool)
      requires Valid() && mode == InText
      modifies this`utf8Length, this`pendingSpace, this`emitted, this`wroteText, this`lastOutput, this`outputSize
      modifies utf8, sink, sink.output, sink.io
      ensures OnlyChanged(old(sink.io.files), sink.io.files, sink.path)
      ensures Stepped(ok, TextByte(old(View()), b))
    {
      hide Encode, Decode, Wrote, EmitCodepoint;
      if utf8Length >= utf8.Length {
        return false;
      }
      ghost var s := View();
      utf8[utf8Length] := b;
      utf8Length := utf8Length + 1;
      assert utf8[..utf8Length] == s.utf8 + [b];
      var decoded := DecodeBytes(utf8[..utf8Length]);
      if decoded.Invalid? {
        return false;
      }
      if decoded.Incomplete? {
        return true;
      }
      utf8Length := 0;
      assert utf8[..0] == [];
      if depth != 0 {
        return true;
      }
      ok := EmitCharacter(decoded.codepoint);
    }

    // finish_tag()
    method CloseTag() returns (ok: bool)
      requires Valid()
      modifies this`depth, this`pendingSpace, this`emitted, this`wroteText, this`lastOutput, this`outputSize
      modifies sink, sink.output, sink.io
      ensures OnlyChanged(old(sink.io.files), sink.io.files, sink.path)
      ensures Stepped(ok, FinishTag(old(View())))
    {
      hide Wrote, NameOf, EqualFolded, EmitNewline;
      if overflow {
        return false;
      }
      var tag := ParseName(token[..tokenLength]);
      var script := FoldedEqual(tag.name, SCRIPT);
      var style := FoldedEqual(tag.name, STYLE);
      if script || style {
        if tag.closing {
          if depth != 0 {
            depth := depth - 1;
          }
        } else if depth != DEPTH_LIMIT {
          depth := depth + 1;
        }
        return true;
      }
      if depth != 0 {
        return true;
      }
      var br := FoldedEqual(tag.name, BR);
      if br {
        ok := EmitBreak(false);
        return;
      }
      var block := BlockName(tag.name);
      if !block || !tag.closing {
        return true;
      }
      ok := EmitBreak(false);
    }

    static method BlockName(name: seq<byte>) returns (block: bool)
      ensures block == IsBlock(name)
    {
      hide EqualFolded;
      var p := FoldedEqual(name, P);
      var div := FoldedEqual(name, DIV);
      var li := FoldedEqual(name, LI);
      var blockquote := FoldedEqual(name, BLOCKQUOTE);
      var section := FoldedEqual(name, SECTION);
      var article := FoldedEqual(name, ARTICLE);
      return p || div || li || blockquote || section || article ||
             (|name| == 2 && (name[0] == 0x68 || name[0] == 0x48) && 0x31 <= name[1] <= 0x36);
    }

    // finish_entity()
    method CloseEntity() returns (ok: bool)
      requires Valid()
      modifies this`pendingSpace, this`emitted, this`wroteText, this`lastOutput, this`outputSize
      modifies sink, sink.output, sink.io
      ensures OnlyChanged(old(sink.io.files), sink.io.files, sink.path)
      ensures Stepped(ok, FinishEntity(old(View())))
    {
      hide Wrote, Named, Numeric, EmitCodepoint, Emit;
      if overflow || tokenLength == 0 {
        return false;
      }
      var value := token[..tokenLength];
      var codepoint := Named(value);
      if codepoint == None && value[0] == 0x23 {
        codepoint := ParseNumber(value);
        if codepoint == None {
          return false;
        }
      }
      if codepoint == None {
        if depth != 0 {
          return true;
        }
        ok := EmitRaw();
        return;
      }
      if depth != 0 {
        return true;
      }
      ok := EmitCharacter(codepoint.value);
    }

    // An unknown entity, as it was written.
    method EmitRaw() returns (ok: bool)
      requires Valid() && tokenLength != 0
      modifies this`emitted, this`wroteText, this`lastOutput, this`outputSize, sink, sink.output, sink.io
      ensures OnlyChanged(old(sink.io.files), sink.io.files, sink.path)
      ensures var t := Emit(old(View()), [0x26]);
              var u := if t.failed then t else Emit(t, old(token[..tokenLength]));
              Stepped(ok, if u.failed then u else Emit(u, [0x3b]))
    {
      hide Wrote, Emit;
      ghost var t := Emit(View(), [0x26]);
      ghost var u := Emit(t, token[..tokenLength]);
      EmitGrows(t, token[..tokenLength]);
      EmitGrows(u, [0x3b]);
      ok := EmitBytes([0x26]);
      if !ok {
        return;
      }
      ok := EmitBytes(token[..tokenLength]);
      if !ok {
        return;
      }
      ok := EmitBytes([0x3b]);
    }

    // ----- Bytes

    method Collect(b: byte)
      requires Valid()
      modifies this`tokenLength, this`overflow, token
      ensures Valid() && View() == Collected(old(View()), b)
    {
      hide Wrote;
      if tokenLength < token.Length {
        token[tokenLength] := b;
        tokenLength := tokenLength + 1;
        assert token[..tokenLength] == old(token[..tokenLength]) + [b];
      } else {
        overflow := true;
      }
    }

    method TakeTagByte(b: byte) returns (ok: bool)
      requires Valid() && mode == InTag
      modifies this, token, sink, sink.output, sink.io
      ensures OnlyChanged(old(sink.io.files), sink.io.files, sink.path)
      ensures Stepped(ok, TagByte(old(View()), b)) && before == old(before)
    {
      hide Wrote, FinishTag, OpensComment;
      if quote != 0 {
        if b == quote {
          quote := 0;
        }
        Collect(b);
      } else if b == 0x27 || b == 0x22 {
        quote := b;
        Collect(b);
      } else if b == 0x3e && !OpensComment(token[..tokenLength]) {
        ok := CloseTag();
        if ok {
          mode := InText;
        }
        return;
      } else {
        var room := tokenLength < token.Length;
        Collect(b);
        if room && tokenLength == 3 && OpensComment(token[..tokenLength]) {
          mode, tail := InComment, 0;
        }
      }
      return true;
    }

    method TakeEntityByte(b: byte) returns (ok: bool)
      requires Valid() && mode == InEntity
      modifies this, token, sink, sink.output, sink.io
      ensures OnlyChanged(old(sink.io.files), sink.io.files, sink.path)
      ensures Stepped(ok, EntityByte(old(View()), b)) && before == old(before)
    {
      hide Wrote, FinishEntity;
      if b == 0x3b {
        ok := CloseEntity();
        if ok {
          mode := InText;
        }
        return;
      }
      if b == 0x3c || b == 0x26 || IsSpace(b) {
        return false;
      }
      Collect(b);
      return true;
    }

    // The body of feed()'s loop.
    method TakeByte(b: byte) returns (ok: bool)
      requires Valid()
      modifies Footprint()
      ensures OnlyChanged(old(sink.io.files), sink.io.files, sink.path)
      ensures Stepped(ok, Advance(old(View()), b)) && before == old(before)
    {
      hide Wrote, TextByte, TagByte, EntityByte;
      match mode {
        case InComment =>
          if tail == 0 {
            tail := if b == 0x2d then 1 else 0;
          } else if tail == 1 {
            tail := if b == 0x2d then 2 else 0;
          } else if b == 0x3e {
            mode, tail := InText, 0;
          } else {
            tail := if b == 0x2d then 2 else 0;
          }
          return true;
        case InText =>
          assert token[..0] == [] && (utf8Length == 0 <==> utf8[..utf8Length] == []);
          if utf8Length == 0 && b == 0x3c {
            mode, tokenLength, overflow, quote := InTag, 0, false, 0;
            return true;
          }
          if utf8Length == 0 && b == 0x26 {
            mode, tokenLength, overflow := InEntity, 0, false;
            return true;
          }
          ok := TakeTextByte(b);
        case InEntity => ok := TakeEntityByte(b);
        case InTag => ok := TakeTagByte(b);
      }
    }

    // feed(): the first byte refused ends the chapter. The characters half read are always
    // text, so the check at its head never refuses.
    method FeedBlock(data: seq<byte>, end: bool) returns (ok: bool)
      requires Valid() && Tidy(View())
      modifies Footprint()
      ensures OnlyChanged(old(sink.io.files), sink.io.files, sink.path)
      ensures Stepped(ok, Feed(old(View()), data, end)) && before == old(before)
      ensures ok ==> Tidy(View())
    {
      hide Wrote, Advance, Tidy;
      ghost var s := View();
      GuardHolds(s);
      assert mode == InText || utf8Length == 0;
      assert data[0..] == data;
      var i := 0;
      while i < |data|
        invariant 0 <= i <= |data|
        invariant Valid() && Tidy(View())
        invariant FeedBytes(s, data) == FeedBytes(View(), data[i..])
        invariant before == old(before)
        invariant OnlyChanged(old(sink.io.files), sink.io.files, sink.path)
      {
        ghost var t := View();
        assert data[i..][0] == data[i] && data[i..][1..] == data[i + 1..];
        var taken := TakeByte(data[i]);
        if !taken {
          FailedStays(Advance(t, data[i]), data[i + 1..]);
          FeedGrows(Advance(t, data[i]), data[i + 1..]);
          return false;
        }
        AdvanceTidy(t, data[i]);
        i := i + 1;
      }
      FeedNothing(View());
      assert data[i..] == [];
      return !end || (mode == InText && utf8Length == 0);
    }

    // finish_chapter()
    method FinishChapter() returns (ok: bool)
      requires Valid()
      modifies Footprint()
      ensures OnlyChanged(old(sink.io.files), sink.io.files, sink.path)
      ensures Stepped(ok, Finish(old(View()))) && before == old(before)
    {
      hide Wrote, EmitNewline, Emit;
      LastWritten();
      if mode != InText || utf8Length != 0 {
        return false;
      }
      if !wroteText {
        ok := EmitBytes([NEWLINE]);
        return;
      }
      ok := EmitBreak(true);
    }
  }

  lemma GuardHolds(s: State)
    requires Tidy(s)
    ensures s.mode == InText || s.utf8 == []
  {
  }

  lemma FailedStays(s: State, data: seq<byte>)
    ensures s.failed ==> FeedBytes(s, data) == s
  {
  }
}
