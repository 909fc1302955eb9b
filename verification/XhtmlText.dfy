// epub_xhtml_filter in services/book/epub_format.cpp, as functions of its state: how markup
// is turned into text byte by byte, and what the text looks like.
module XhtmlText {
  import opened Options
  import opened Utf8

  const CONTENT_SIZE_LIMIT: nat := 64 * 1024 * 1024
  const TOKEN_CAPACITY: nat := 256
  const DEPTH_LIMIT: nat := 0xffff

  const SPACE: byte := 0x20
  const NEWLINE: byte := 0x0a

  datatype Mode = InText | InTag | InEntity | InComment

  // `output` is what the sink has taken for this chapter; a failed filter is not used again.
  datatype State = State(
    mode: Mode, token: seq<byte>, overflow: bool, quote: byte, tail: nat, utf8: seq<byte>, depth: nat,
    pendingSpace: bool, output: seq<byte>, failed: bool)

  const START: State := State(InText, [], false, 0, 0, [], 0, false, [], false)

  function Fail(s: State): State { s.(failed := true) }

  // ----- Output

  function LastOutput(s: State): byte { if s.output == [] then 0 else s.output[|s.output| - 1] }

  function Emit(s: State, data: seq<byte>): State {
    if |s.output| + |data| > CONTENT_SIZE_LIMIT && data != [] then Fail(s) else s.(output := s.output + data)
  }

  predicate IsBlank(cp: nat) { cp == 0x0d || cp == 0x0a || cp == 0x09 || cp == 0x20 || cp == 0xa0 }

  predicate IsControl(cp: nat) { cp < 0x20 || cp == 0x7f }

  function EmitCodepoint(s: State, cp: nat): State {
    if cp == 0 || !IsScalar(cp) then Fail(s)
    else if IsBlank(cp) then s.(pendingSpace := s.output != [] && LastOutput(s) != NEWLINE)
    else if IsControl(cp) then s
    else
      var t := if s.pendingSpace then Emit(s.(pendingSpace := false), [SPACE]) else s;
      if t.failed then t else Emit(t, Encode(cp))
  }

  function EmitNewline(s: State, paragraph: bool): State {
    var t := s.(pendingSpace := false);
    if s.output == [] then t
    else
      var u := if LastOutput(t) != NEWLINE then Emit(t, [NEWLINE]) else t;
      if paragraph && !u.failed && LastOutput(u) == NEWLINE then Emit(u, [NEWLINE]) else u
  }

  function TextByte(s: State, b: byte): State {
    if |s.utf8| >= 4 then Fail(s)
    else
      match Decode(s.utf8 + [b])
      case Invalid => Fail(s)
      case Incomplete => s.(utf8 := s.utf8 + [b])
      case Complete(cp, _) =>
        var t := s.(utf8 := []);
        if s.depth != 0 then t else EmitCodepoint(t, cp)
  }

  // ----- Tags

  // isspace() in the C locale.
  predicate IsSpace(b: byte) { b == 0x20 || 0x09 <= b <= 0x0d }

  function Lower(b: byte): byte { if 0x41 <= b <= 0x5a then b + 0x20 else b }

  predicate EqualFolded(a: seq<byte>, b: seq<byte>) {
    |a| == |b| && forall i :: 0 <= i < |a| ==> Lower(a[i]) == Lower(b[i])
  }

  function SkipSpaces(token: seq<byte>, i: nat): (j: nat)
    requires i <= |token|
    ensures i <= j <= |token|
    decreases |token| - i
  {
    if i < |token| && IsSpace(token[i]) then SkipSpaces(token, i + 1) else i
  }

  predicate EndsName(b: byte) { IsSpace(b) || b == 0x2f || b == 0x3e }

  function NameEnd(token: seq<byte>, i: nat): (j: nat)
    requires i <= |token|
    ensures i <= j <= |token|
    decreases |token| - i
  {
    if i < |token| && !EndsName(token[i]) then NameEnd(token, i + 1) else i
  }

  // What follows the last colon.
  function LocalName(name: seq<byte>): (r: seq<byte>)
    ensures |r| <= |name|
    ensures 0x3a !in r
    ensures r == name[|name| - |r|..] && (|r| < |name| ==> name[|name| - |r| - 1] == 0x3a)
  {
    if name == [] then [] else
    if name[|name| - 1] == 0x3a then []
    else
      LocalName(name[..|name| - 1]) + [name[|name| - 1]]
  }

  datatype TagName = TagName(closing: bool, name: seq<byte>)

  function NameOf(token: seq<byte>): TagName {
    var i := SkipSpaces(token, 0);
    var closing := i < |token| && token[i] == 0x2f;
    var start := if closing then i + 1 else i;
    TagName(closing, LocalName(token[start..NameEnd(token, start)]))
  }

  const SCRIPT: seq<byte> := [0x73, 0x63, 0x72, 0x69, 0x70, 0x74]
  const STYLE: seq<byte> := [0x73, 0x74, 0x79, 0x6c, 0x65]
  const BR: seq<byte> := [0x62, 0x72]
  const P: seq<byte> := [0x70]
  const DIV: seq<byte> := [0x64, 0x69, 0x76]
  const LI: seq<byte> := [0x6c, 0x69]
  const BLOCKQUOTE: seq<byte> := [0x62, 0x6c, 0x6f, 0x63, 0x6b, 0x71, 0x75, 0x6f, 0x74, 0x65]
  const SECTION: seq<byte> := [0x73, 0x65, 0x63, 0x74, 0x69, 0x6f, 0x6e]
  const ARTICLE: seq<byte> := [0x61, 0x72, 0x74, 0x69, 0x63, 0x6c, 0x65]

  predicate IsHidden(name: seq<byte>) { EqualFolded(name, SCRIPT) || EqualFolded(name, STYLE) }

  predicate IsBlock(name: seq<byte>) {
    || EqualFolded(name, P) || EqualFolded(name, DIV) || EqualFolded(name, LI) || EqualFolded(name, BLOCKQUOTE)
    || EqualFolded(name, SECTION) || EqualFolded(name, ARTICLE)
    || (|name| == 2 && (name[0] == 0x68 || name[0] == 0x48) && 0x31 <= name[1] <= 0x36)
  }

  function FinishTag(s: State): State {
    if s.overflow then Fail(s)
    else
      var tag := NameOf(s.token);
      if IsHidden(tag.name) then
        if tag.closing then s.(depth := if s.depth != 0 then s.depth - 1 else 0)
        else s.(depth := if s.depth != DEPTH_LIMIT then s.depth + 1 else s.depth)
      else if s.depth != 0 then s
      else if EqualFolded(tag.name, BR) then EmitNewline(s, false)
      else if IsBlock(tag.name) && tag.closing then EmitNewline(s, false)
      else s
  }

  // ----- Entities

  const AMP: seq<byte> := [0x61, 0x6d, 0x70]
  const LT: seq<byte> := [0x6c, 0x74]
  const GT: seq<byte> := [0x67, 0x74]
  const QUOT: seq<byte> := [0x71, 0x75, 0x6f, 0x74]
  const APOS: seq<byte> := [0x61, 0x70, 0x6f, 0x73]
  const NBSP: seq<byte> := [0x6e, 0x62, 0x73, 0x70]
  const NDASH: seq<byte> := [0x6e, 0x64, 0x61, 0x73, 0x68]
  const MDASH: seq<byte> := [0x6d, 0x64, 0x61, 0x73, 0x68]
  const HELLIP: seq<byte> := [0x68, 0x65, 0x6c, 0x6c, 0x69, 0x70]

  function Named(value: seq<byte>): Option<nat> {
    if value == AMP then Some(0x26)
    else if value == LT then Some(0x3c)
    else if value == GT then Some(0x3e)
    else if value == QUOT then Some(0x22)
    else if value == APOS then Some(0x27)
    else if value == NBSP then Some(0xa0)
    else if value == NDASH then Some(0x2013)
    else if value == MDASH then Some(0x2014)
    else if value == HELLIP then Some(0x2026)
    else None
  }

  function DigitValue(b: byte, hex: bool): Option<nat> {
    if 0x30 <= b <= 0x39 then Some(b - 0x30)
    else if hex && 0x61 <= b <= 0x66 then Some(b - 0x61 + 10)
    else if hex && 0x41 <= b <= 0x46 then Some(b - 0x41 + 10)
    else None
  }

  function Base(hex: bool): nat { if hex then 16 else 10 }

  // The number the digits write, whatever its size.
  function Numeral(digits: seq<byte>, hex: bool): Option<nat> {
    if digits == [] then Some(0)
    else
      match (Numeral(digits[..|digits| - 1], hex), DigitValue(digits[|digits| - 1], hex))
      case (Some(n), Some(d)) => Some(n * Base(hex) + d)
      case _ => None
  }

  // A numeric reference, with its leading '#': a code point, or None when it is malformed or
  // beyond the code points.
  function Numeric(value: seq<byte>): Option<nat>
    requires value != []
  {
    var hex := |value| > 1 && (value[1] == 0x78 || value[1] == 0x58);
    var start := if hex then 2 else 1;
    if start == |value| then None
    else
      match Numeral(value[start..], hex)
      case Some(n) => if n <= 0x10ffff then Some(n) else None
      case None => None
  }

  function FinishEntity(s: State): State {
    if s.overflow || s.token == [] then Fail(s)
    else if Named(s.token).Some? then
      if s.depth != 0 then s else EmitCodepoint(s, Named(s.token).value)
    else if s.token[0] == 0x23 then
      match Numeric(s.token)
      case None => Fail(s)
      case Some(cp) => if s.depth != 0 then s else EmitCodepoint(s, cp)
    else if s.depth != 0 then s
    else
      // An unknown entity stays as it was written, and leaves a pending space pending.
      var t := Emit(s, [0x26]);
      if t.failed then t
      else
        var u := Emit(t, s.token);
        if u.failed then u else Emit(u, [0x3b])
  }

  // ----- Bytes

  function Collected(s: State, b: byte): State {
    if |s.token| < TOKEN_CAPACITY then s.(token := s.token + [b]) else s.(overflow := true)
  }

  const COMMENT: seq<byte> := [0x21, 0x2d, 0x2d]

  predicate OpensComment(token: seq<byte>) { |token| >= 3 && token[..3] == COMMENT }

  // A proper beginning of the comment mark.
  predicate MayOpenComment(token: seq<byte>) { |token| < 3 && token == COMMENT[..|token|] }

  function CommentByte(s: State, b: byte): State {
    if s.tail >= 2 && b == 0x3e then s.(mode := InText, tail := 0)
    else if s.tail == 0 then s.(tail := if b == 0x2d then 1 else 0)
    else s.(tail := if b == 0x2d then 2 else 0)
  }

  function TagByte(s: State, b: byte): State {
    if s.quote != 0 then Collected(s.(quote := if b == s.quote then 0 else s.quote), b)
    else if b == 0x27 || b == 0x22 then Collected(s.(quote := b), b)
    else if b == 0x3e && !OpensComment(s.token) then
      var t := FinishTag(s);
      if t.failed then t else t.(mode := InText)
    else
      var t := Collected(s, b);
      if |s.token| < TOKEN_CAPACITY && |t.token| == 3 && OpensComment(t.token) then t.(mode := InComment, tail := 0)
      else t
  }

  function EntityByte(s: State, b: byte): State {
    if b == 0x3b then
      var t := FinishEntity(s);
      if t.failed then t else t.(mode := InText)
    else if b == 0x3c || b == 0x26 || IsSpace(b) then Fail(s)
    else Collected(s, b)
  }

  // One byte of input.
  function Advance(s: State, b: byte): State {
    match s.mode
    case InComment => CommentByte(s, b)
    case InText =>
      if s.utf8 == [] && b == 0x3c then s.(mode := InTag, token := [], overflow := false, quote := 0)
      else if s.utf8 == [] && b == 0x26 then s.(mode := InEntity, token := [], overflow := false)
      else TextByte(s, b)
    case InEntity => EntityByte(s, b)
    case InTag => TagByte(s, b)
  }

  // feed() stops at the first byte it refuses, and is then not called again.
  function FeedBytes(s: State, data: seq<byte>): State
    decreases |data|
  {
    if s.failed || data == [] then s else FeedBytes(Advance(s, data[0]), data[1..])
  }

  // feed(data, end): at the end of the input nothing may be left open.
  function Feed(s: State, data: seq<byte>, end: bool): State {
    var t := FeedBytes(s, data);
    if end && !t.failed && !(t.mode == InText && t.utf8 == []) then Fail(t) else t
  }

  // finish_chapter()
  function Finish(s: State): State {
    if s.failed || s.mode != InText || s.utf8 != [] then Fail(s)
    else if s.output == [] then Emit(s, [NEWLINE])
    else EmitNewline(s, true)
  }

  // A chapter delivered in pieces.
  function FeedAll(s: State, pieces: seq<seq<byte>>): State
    decreases |pieces|
  {
    if pieces == [] then s else FeedAll(FeedBytes(s, pieces[0]), pieces[1..])
  }

  function Joined(pieces: seq<seq<byte>>): seq<byte> {
    if pieces == [] then [] else pieces[0] + Joined(pieces[1..])
  }

  // ----- Where the input is split does not matter

  lemma {:induction false} FeedSplit(s: State, a: seq<byte>, b: seq<byte>)
    ensures FeedBytes(s, a + b) == FeedBytes(FeedBytes(s, a), b)
    decreases |a|
  {
    hide Advance;
    if a == [] {
      assert a + b == b;
    } else if !s.failed {
      assert (a + b)[1..] == a[1..] + b;
      FeedSplit(Advance(s, a[0]), a[1..], b);
    }
  }

  lemma {:induction false} FeedInPieces(s: State, pieces: seq<seq<byte>>)
    ensures FeedAll(s, pieces) == FeedBytes(s, Joined(pieces))
    decreases |pieces|
  {
    hide Advance;
    if pieces != [] {
      FeedSplit(s, pieces[0], Joined(pieces[1..]));
      FeedInPieces(FeedBytes(s, pieces[0]), pieces[1..]);
    }
  }

  // ----- Output is only added

  lemma EmitGrows(s: State, data: seq<byte>)
    ensures s.output <= Emit(s, data).output
  {
  }

  lemma EmitCodepointGrows(s: State, cp: nat)
    ensures s.output <= EmitCodepoint(s, cp).output
  {
    hide Encode;
  }

  lemma EmitNewlineGrows(s: State, paragraph: bool)
    ensures s.output <= EmitNewline(s, paragraph).output
  {
  }

  lemma FinishEntityGrows(s: State)
    ensures s.output <= FinishEntity(s).output
  {
    hide Named, Numeric, EmitCodepoint;
    forall cp ensures s.output <= EmitCodepoint(s, cp).output {
      EmitCodepointGrows(s, cp);
    }
  }

  lemma FinishTagGrows(s: State)
    ensures s.output <= FinishTag(s).output
  {
    hide NameOf, EqualFolded, EmitNewline;
    EmitNewlineGrows(s, false);
  }

  lemma TextByteGrows(s: State, b: byte)
    ensures s.output <= TextByte(s, b).output
  {
    hide EmitCodepoint, Decode;
    forall cp ensures s.output <= EmitCodepoint(s.(utf8 := []), cp).output {
      EmitCodepointGrows(s.(utf8 := []), cp);
    }
  }

  lemma TagByteGrows(s: State, b: byte)
    ensures s.output <= TagByte(s, b).output
  {
    hide FinishTag, OpensComment;
    FinishTagGrows(s);
  }

  lemma AdvanceGrows(s: State, b: byte)
    ensures s.output <= Advance(s, b).output
  {
    hide FinishEntity, TagByte, TextByte;
    TextByteGrows(s, b);
    TagByteGrows(s, b);
    FinishEntityGrows(s);
  }

  lemma {:induction false} FeedGrows(s: State, data: seq<byte>)
    ensures s.output <= FeedBytes(s, data).output
    decreases |data|
  {
    hide Advance;
    if !s.failed && data != [] {
      AdvanceGrows(s, data[0]);
      FeedGrows(Advance(s, data[0]), data[1..]);
    }
  }

  lemma FinishGrows(s: State)
    ensures s.output <= Finish(s).output && (s.failed ==> Finish(s).failed)
  {
    hide EmitNewline;
    EmitNewlineGrows(s, true);
  }

  // ----- What holds between bytes

  predicate IsGap(b: byte) { b == SPACE || b == NEWLINE }

  // No gap at the front and no two gaps side by side.
  ghost predicate Spaced(out: seq<byte>) {
    && (out != [] ==> !IsGap(out[0]))
    && forall i, j :: 0 <= i < j == i + 1 < |out| ==> !(IsGap(out[i]) && IsGap(out[j]))
  }

  ghost predicate NoGap(data: seq<byte>) {
    forall i :: 0 <= i < |data| ==> !IsGap(data[i])
  }

  // The filter's own bookkeeping, and the shape of what it has written so far.
  ghost predicate Tidy(s: State) {
    && |s.token| <= TOKEN_CAPACITY && |s.utf8| <= 3 && s.depth <= DEPTH_LIMIT && s.tail <= 2
    && (s.mode != InText ==> s.utf8 == [])
    && (s.mode == InEntity ==> NoGap(s.token))
    && (s.mode == InTag ==> !OpensComment(s.token) && (s.quote != 0 ==> !MayOpenComment(s.token)))
    && |s.output| <= CONTENT_SIZE_LIMIT
    && Spaced(s.output) && LastOutput(s) != SPACE
    && (s.pendingSpace ==> s.output != [] && LastOutput(s) != NEWLINE)
  }

  lemma SpacedMore(out: seq<byte>, data: seq<byte>)
    requires Spaced(out) && NoGap(data)
    ensures Spaced(out + data)
  {
    var all := out + data;
    forall i, j | 0 <= i < j == i + 1 < |all| ensures !(IsGap(all[i]) && IsGap(all[j])) {
      if j >= |out| {
        assert all[j] == data[j - |out|];
      }
    }
    if out == [] && data != [] {
      assert all[0] == data[0];
    }
  }

  lemma SpacedGap(out: seq<byte>, gap: byte)
    requires Spaced(out) && out != [] && !IsGap(out[|out| - 1])
    ensures Spaced(out + [gap])
  {
  }

  lemma EncodedNoGap(cp: nat)
    requires IsScalar(cp) && !IsBlank(cp) && !IsControl(cp)
    ensures NoGap(Encode(cp))
  {
  }

  // The output after some visible bytes, with a space before them if one is pending.
  lemma VisibleIsTidy(s: State, data: seq<byte>)
    requires Tidy(s) && data != [] && NoGap(data)
    ensures !Emit(s, data).failed || s.failed ==> Tidy(Emit(s, data))
  {
    SpacedMore(s.output, data);
    var out := s.output + data;
    assert out[|out| - 1] == data[|data| - 1];
  }

  lemma EmitCodepointTidy(s: State, cp: nat)
    requires Tidy(s) && !s.failed && !EmitCodepoint(s, cp).failed
    ensures Tidy(EmitCodepoint(s, cp))
  {
    hide Encode;
    if !IsBlank(cp) && !IsControl(cp) {
      EncodedNoGap(cp);
      if s.pendingSpace {
        SpacedGap(s.output, SPACE);
        var out := s.output + [SPACE];
        SpacedMore(out, Encode(cp));
        var all := out + Encode(cp);
        assert all[|all| - 1] == Encode(cp)[|Encode(cp)| - 1];
      } else {
        VisibleIsTidy(s, Encode(cp));
      }
    }
  }

  lemma EmitNewlineTidy(s: State)
    requires Tidy(s) && !s.failed && !EmitNewline(s, false).failed
    ensures Tidy(EmitNewline(s, false))
  {
    if s.output != [] && LastOutput(s) != NEWLINE {
      SpacedGap(s.output, NEWLINE);
    }
  }

  lemma TextByteTidy(s: State, b: byte)
    requires Tidy(s) && !s.failed && s.mode == InText && !TextByte(s, b).failed
    ensures Tidy(TextByte(s, b))
  {
    hide Decode, EmitCodepoint, Spaced;
    IncompleteIsShort(s.utf8 + [b]);
    match Decode(s.utf8 + [b]) {
      case Complete(cp, _) => if s.depth == 0 { EmitCodepointTidy(s.(utf8 := []), cp); }
      case _ =>
    }
  }

  lemma FinishTagTidy(s: State)
    requires Tidy(s) && !s.failed && s.mode == InTag && !FinishTag(s).failed
    ensures Tidy(FinishTag(s).(mode := InText))
  {
    hide NameOf, IsHidden, IsBlock, EqualFolded, Spaced, NoGap, EmitNewline;
    if !EmitNewline(s, false).failed {
      EmitNewlineTidy(s);
      EmitNewlineKeeps(s);
    }
  }

  lemma EmitNewlineKeeps(s: State)
    ensures var t := EmitNewline(s, false); t.mode == s.mode && t.utf8 == s.utf8
  {
  }

  lemma RawEntityTidy(s: State)
    requires Tidy(s) && !s.failed && s.mode == InEntity && s.token != []
    ensures var t := Emit(s, [0x26]); var u := Emit(t, s.token); var v := Emit(u, [0x3b]);
            !t.failed && !u.failed && !v.failed ==> Tidy(v.(mode := InText))
  {
    hide Spaced;
    var t := Emit(s, [0x26]);
    if !t.failed {
      VisibleIsTidy(s, [0x26]);
      var u := Emit(t, s.token);
      if !u.failed {
        VisibleIsTidy(t, s.token);
        VisibleIsTidy(u, [0x3b]);
      }
    }
  }

  lemma EmitCodepointKeeps(s: State, cp: nat)
    ensures var t := EmitCodepoint(s, cp); t.mode == s.mode && t.utf8 == s.utf8
  {
    hide Encode;
  }

  lemma FinishEntityTidy(s: State)
    requires Tidy(s) && !s.failed && s.mode == InEntity && !FinishEntity(s).failed
    ensures Tidy(FinishEntity(s).(mode := InText))
  {
    hide Named, Numeric, Spaced, EmitCodepoint, Emit;
    if Named(s.token).Some? {
      EntityCodepointTidy(s, Named(s.token).value);
    } else if s.token[0] == 0x23 {
      EntityCodepointTidy(s, Numeric(s.token).value);
    } else if s.depth == 0 {
      RawEntityTidy(s);
    }
  }

  lemma EntityCodepointTidy(s: State, cp: nat)
    requires Tidy(s) && !s.failed
    ensures !EmitCodepoint(s, cp).failed ==> Tidy(EmitCodepoint(s, cp).(mode := InText))
    ensures Tidy(s.(mode := InText)) || s.mode == InText || s.utf8 == []
  {
    hide Spaced, EmitCodepoint;
    if !EmitCodepoint(s, cp).failed {
      EmitCodepointTidy(s, cp);
      EmitCodepointKeeps(s, cp);
    }
  }

  lemma TagByteTidy(s: State, b: byte)
    requires Tidy(s) && !s.failed && s.mode == InTag && !TagByte(s, b).failed
    ensures Tidy(TagByte(s, b))
  {
    hide Spaced, FinishTag;
    if s.quote == 0 && b == 0x3e && b != 0x27 && b != 0x22 && !OpensComment(s.token) {
      FinishTagTidy(s);
    } else {
      CommentOpening(s.token, b);
    }
  }

  lemma CommentOpening(token: seq<byte>, b: byte)
    ensures OpensComment(token) ==> OpensComment(token + [b])
    ensures OpensComment(token + [b]) ==> OpensComment(token) || (MayOpenComment(token) && b == 0x2d)
    ensures MayOpenComment(token + [b]) ==> MayOpenComment(token) && b != 0x22 && b != 0x27
  {
    var more := token + [b];
    if |token| >= 3 {
      assert more[..3] == token[..3];
    } else if OpensComment(more) || MayOpenComment(more) {
      assert more[..|token|] == token;
      assert b == more[|token|];
    }
  }

  // Every byte keeps the bookkeeping and the shape of the output.
  lemma AdvanceTidy(s: State, b: byte)
    requires Tidy(s) && !s.failed && !Advance(s, b).failed
    ensures Tidy(Advance(s, b))
  {
    hide Spaced, FinishTag, FinishEntity, TextByte, TagByte;
    match s.mode {
      case InText =>
        if s.utf8 != [] || (b != 0x3c && b != 0x26) { TextByteTidy(s, b); }
      case InTag => TagByteTidy(s, b);
      case InEntity => if b == 0x3b { FinishEntityTidy(s); }
      case InComment =>
    }
  }

  // ----- Whole chapters

  lemma {:induction false} FeedTidy(s: State, data: seq<byte>)
    requires Tidy(s) && !FeedBytes(s, data).failed
    ensures Tidy(FeedBytes(s, data))
    decreases |data|
  {
    hide Tidy, Advance;
    if !s.failed && data != [] {
      if !Advance(s, data[0]).failed {
        AdvanceTidy(s, data[0]);
      }
      FeedTidy(Advance(s, data[0]), data[1..]);
    }
  }

  // A chapter is one newline, or text without a gap at either end or two side by side,
  // followed by two newlines.
  ghost predicate IsChapter(out: seq<byte>) {
    out == [NEWLINE] ||
    (|out| >= 3 && Spaced(out[..|out| - 1]) && !IsGap(out[|out| - 3]) && out[|out| - 2..] == [NEWLINE, NEWLINE])
  }

  lemma EndsChapter(front: seq<byte>)
    requires Spaced(front) && |front| >= 2 && front[|front| - 1] == NEWLINE
    ensures IsChapter(front + [NEWLINE])
  {
    var out := front + [NEWLINE];
    assert out[..|out| - 1] == front;
    assert out[|out| - 2..] == [front[|front| - 1], NEWLINE];
    var i, j := |front| - 2, |front| - 1;
    assert !(IsGap(front[i]) && IsGap(front[j]));
  }

  lemma FinishIsChapter(s: State)
    requires Tidy(s) && !Finish(s).failed
    ensures IsChapter(Finish(s).output)
  {
    hide IsChapter, Spaced, Finish;
    FinishedOutput(s);
    if s.output == [] {
      OneNewline();
    } else if LastOutput(s) != NEWLINE {
      assert !IsGap(s.output[|s.output| - 1]);
      SpacedGap(s.output, NEWLINE);
      EndsChapter(s.output + [NEWLINE]);
    } else {
      LongerThanGap(s.output);
      EndsChapter(s.output);
    }
  }

  lemma FinishedOutput(s: State)
    requires !Finish(s).failed
    ensures Finish(s).output ==
            if s.output == [] then [NEWLINE]
            else if LastOutput(s) != NEWLINE then s.output + [NEWLINE] + [NEWLINE]
            else s.output + [NEWLINE]
  {
  }

  lemma LongerThanGap(out: seq<byte>)
    requires Spaced(out) && out != [] && IsGap(out[|out| - 1])
    ensures |out| >= 2
  {
  }

  lemma OneNewline()
    ensures IsChapter([] + [NEWLINE])
  {
    assert [] + [NEWLINE] == [NEWLINE];
  }

  // Whatever the markup and however it arrives, what a chapter leaves is well spaced.
  lemma ChapterIsSpaced(pieces: seq<seq<byte>>)
    requires !Finish(Feed(FeedAll(START, pieces), [], true)).failed
    ensures IsChapter(Finish(Feed(FeedAll(START, pieces), [], true)).output)
  {
    hide Tidy, FeedBytes, IsChapter;
    FeedInPieces(START, pieces);
    StartTidy();
    var t := FeedAll(START, pieces);
    FeedNothing(t);
    FeedTidy(START, Joined(pieces));
    FinishIsChapter(t);
  }

  lemma StartTidy()
    ensures Tidy(START)
  {
  }

  lemma FeedNothing(s: State)
    ensures FeedBytes(s, []) == s
  {
  }

  // The same, spelt out.
  lemma ChapterRules(out: seq<byte>, i: nat)
    requires IsChapter(out) && i < |out|
    ensures out[0] != SPACE && out[|out| - 1] == NEWLINE && (out[0] == NEWLINE ==> |out| == 1)
    ensures i + 1 < |out| ==> !(out[i] == SPACE && IsGap(out[i + 1])) && !(out[i] == NEWLINE && out[i + 1] == SPACE)
    ensures i + 1 < |out| && out[i] == NEWLINE == out[i + 1] <==> |out| > 1 && i + 2 == |out|
  {
    if |out| >= 3 {
      var front := out[..|out| - 1];
      assert out[|out| - 2] == out[|out| - 2..][0] && out[|out| - 1] == out[|out| - 2..][1];
      assert front[0] == out[0];
      if i + 2 < |out| {
        assert front[i] == out[i] && front[i + 1] == out[i + 1];
      }
    }
  }

  // Nothing is written inside a script or style element.
  lemma HiddenIsSilent(s: State, b: byte)
    requires s.depth > 0
    ensures Advance(s, b).output == s.output
  {
    hide TextByte, TagByte, EntityByte;
    HiddenText(s, b);
    HiddenTagByte(s, b);
    HiddenEntityByte(s, b);
  }

  lemma HiddenText(s: State, b: byte)
    requires s.depth > 0
    ensures TextByte(s, b).output == s.output
  {
    hide Decode, EmitCodepoint;
  }

  lemma HiddenTagByte(s: State, b: byte)
    requires s.depth > 0
    ensures TagByte(s, b).output == s.output
  {
    hide FinishTag, OpensComment;
    HiddenTag(s);
  }

  lemma HiddenEntityByte(s: State, b: byte)
    requires s.depth > 0
    ensures EntityByte(s, b).output == s.output
  {
    hide FinishEntity;
    HiddenEntity(s);
  }

  lemma HiddenTag(s: State)
    requires s.depth > 0
    ensures FinishTag(s).output == s.output
  {
    hide NameOf, IsHidden, IsBlock, EqualFolded, EmitNewline;
  }

  lemma HiddenEntity(s: State)
    requires s.depth > 0
    ensures FinishEntity(s).output == s.output
  {
    hide Named, Numeric, EmitCodepoint, Emit;
  }

  // ----- Plain text: what the filter makes of characters without markup

  predicate IsPlain(cp: nat) { IsScalar(cp) && cp != 0 && cp != 0x3c && cp != 0x26 }

  ghost predicate AllPlain(cps: seq<nat>)
    ensures AllPlain(cps) ==> forall c :: c in cps ==> IsScalar(c)
  {
    forall i :: 0 <= i < |cps| ==> IsPlain(cps[i])
  }

  predicate IsVisible(cp: nat) { !IsBlank(cp) && !IsControl(cp) }

  // How many characters come before the next visible one.
  function Leading(cps: seq<nat>): (n: nat)
    ensures n <= |cps|
    ensures n < |cps| ==> IsVisible(cps[n])
  {
    if cps == [] || IsVisible(cps[0]) then 0 else 1 + Leading(cps[1..])
  }

  // The separator before the next visible character: one space for any blanks.
  function Separator(cps: seq<nat>): seq<byte> {
    if cps == [] || IsVisible(cps[0]) then []
    else if IsBlank(cps[0]) && Leading(cps) < |cps| then [SPACE]
    else Separator(cps[1..])
  }

  // Visible characters in order, runs of blanks between them as one space, nothing else.
  function Collapsed(cps: seq<nat>): seq<byte>
    requires forall c :: c in cps ==> IsScalar(c)
    decreases |cps|
  {
    var n := Leading(cps);
    if n == |cps| then []
    else
      var rest := cps[n + 1..];
      assert IsScalar(cps[n]);
      Encode(cps[n]) + Separator(rest) + Collapsed(rest)
  }

  ghost predicate Between(s: State) {
    s.mode == InText && s.utf8 == [] && s.depth == 0 && !s.failed
  }

  // One byte of a character.
  lemma CharacterByte(s: State, cp: nat, k: nat)
    requires Between(s) && IsPlain(cp) && k < |Encode(cp)|
    ensures Advance(s.(utf8 := Encode(cp)[..k]), Encode(cp)[k]) ==
            if k + 1 < |Encode(cp)| then s.(utf8 := Encode(cp)[..k + 1]) else EmitCodepoint(s, cp)
  {
    hide Encode, Decode, EmitCodepoint;
    var e := Encode(cp);
    PartIncomplete(cp, k + 1);
    FirstByte(cp);
    assert e[..k] + [e[k]] == e[..k + 1];
    assert s.(utf8 := []) == s;
  }

  // The bytes of one character arrive one by one.
  lemma {:induction false} CharacterArrives(s: State, cp: nat, k: nat)
    requires Between(s) && IsPlain(cp) && k < |Encode(cp)|
    ensures FeedBytes(s, Encode(cp)[..k]) == s.(utf8 := Encode(cp)[..k])
    decreases k
  {
    hide Encode, Advance, IsPlain, FeedBytes;
    assert IsScalar(cp) by { PlainIsScalar(cp); }
    var e := Encode(cp);
    if k == 0 {
      assert e[..0] == [];
      FeedNothing(s);
    } else {
      CharacterArrives(s, cp, k - 1);
      FeedSplit(s, e[..k - 1], [e[k - 1]]);
      assert e[..k - 1] + [e[k - 1]] == e[..k];
      CharacterByte(s, cp, k - 1);
      FeedOne(s.(utf8 := e[..k - 1]), e[k - 1]);
    }
  }

  lemma PlainIsScalar(cp: nat)
    requires IsPlain(cp)
    ensures IsScalar(cp)
  {
  }

  lemma FeedOne(s: State, b: byte)
    requires !s.failed
    ensures FeedBytes(s, [b]) == Advance(s, b)
  {
    hide Advance;
    assert [b][1..] == [];
    assert FeedBytes(Advance(s, b), []) == Advance(s, b);
  }

  lemma PartIncomplete(cp: nat, k: nat)
    requires IsScalar(cp) && k <= |Encode(cp)|
    ensures k < |Encode(cp)| ==> Decode(Encode(cp)[..k]) == Incomplete
    ensures k == |Encode(cp)| ==> Decode(Encode(cp)[..k]) == Complete(cp, k)
  {
    hide Encode, Decode;
    var e := Encode(cp);
    DecodeIsComplete(cp, []);
    assert e + [] == e == e[..|e|];
    DecodePrefix(e, k);
  }

  lemma FirstByte(cp: nat)
    requires IsPlain(cp)
    ensures Encode(cp)[0] != 0x3c && Encode(cp)[0] != 0x26
  {
  }

  lemma CharacterFed(s: State, cp: nat)
    requires Between(s) && IsPlain(cp)
    ensures FeedBytes(s, Encode(cp)) == EmitCodepoint(s, cp)
  {
    hide Encode, Advance, FeedBytes, EmitCodepoint;
    var e := Encode(cp);
    var k := |e| - 1;
    CharacterArrives(s, cp, k);
    FeedSplit(s, e[..k], [e[k]]);
    assert e[..k] + [e[k]] == e;
    CharacterByte(s, cp, k);
    FeedOne(s.(utf8 := e[..k]), e[k]);
  }

  // What reading on adds to the output.
  function Added(s: State, cps: seq<nat>): seq<byte>
    requires forall c :: c in cps ==> IsScalar(c)
  {
    if Leading(cps) == |cps| then []
    else (if s.pendingSpace then [SPACE] else if s.output != [] then Separator(cps) else []) + Collapsed(cps)
  }

  lemma CollapsedTail(cps: seq<nat>)
    requires cps != [] && !IsVisible(cps[0]) && forall c :: c in cps ==> IsScalar(c)
    ensures Collapsed(cps) == Collapsed(cps[1..])
    ensures Leading(cps) == |cps| <==> Leading(cps[1..]) == |cps[1..]|
  {
    hide Encode;
    var n := Leading(cps);
    assert cps[1..][n - 1..] == cps[n..];
    if n < |cps| {
      assert cps[1..][n..] == cps[n + 1..];
    }
  }

  lemma {:induction false} PlainIsCollapsed(s: State, cps: seq<nat>)
    requires Between(s) && Tidy(s) && LastOutput(s) != NEWLINE && AllPlain(cps)
    requires |s.output| + |Added(s, cps)| <= CONTENT_SIZE_LIMIT
    ensures var t := FeedBytes(s, EncodeAll(cps));
            Between(t) && t.output == s.output + Added(s, cps)
    decreases |cps|
  {
    hide Tidy, Encode, FeedBytes, EmitCodepoint, Added, LastOutput;
    if cps == [] {
      FeedNothing(s);
      AddedNothing(s);
    } else {
      var cp, rest := cps[0], cps[1..];
      assert IsPlain(cp);
      assert cps == [cp] + rest;
      CharacterFed(s, cp);
      FeedSplit(s, Encode(cp), EncodeAll(rest));
      CharacterAdds(s, cp, rest);
      var t := EmitCodepoint(s, cp);
      EmitCodepointTidy(s, cp);
      PlainIsCollapsed(t, rest);
    }
  }

  lemma AddedNothing(s: State)
    ensures Added(s, []) == []
  {
  }

  // One character's share of what is added.
  lemma CharacterAdds(s: State, cp: nat, rest: seq<nat>)
    requires Between(s) && Tidy(s) && LastOutput(s) != NEWLINE && IsPlain(cp) && forall c :: c in rest ==> IsScalar(c)
    requires |s.output| + |Added(s, [cp] + rest)| <= CONTENT_SIZE_LIMIT
    ensures var t := EmitCodepoint(s, cp);
            && Between(t) && LastOutput(t) != NEWLINE
            && s.output + Added(s, [cp] + rest) == t.output + Added(t, rest)
  {
    hide Spaced, Encode, Added, EmitCodepoint;
    if IsVisible(cp) {
      EncodedNoGap(cp);
      VisibleAdds(s, cp, rest);
    } else {
      InvisibleAdds(s, cp, rest);
    }
  }

  lemma InvisibleAdds(s: State, cp: nat, rest: seq<nat>)
    requires Between(s) && LastOutput(s) != NEWLINE && IsPlain(cp) && !IsVisible(cp)
    requires s.pendingSpace ==> s.output != []
    requires forall c :: c in rest ==> IsScalar(c)
    ensures var t := EmitCodepoint(s, cp);
            && Between(t) && LastOutput(t) != NEWLINE
            && s.output + Added(s, [cp] + rest) == t.output + Added(t, rest)
  {
    hide Encode, Collapsed;
    var cps := [cp] + rest;
    assert cps[1..] == rest;
    CollapsedTail(cps);
  }

  lemma VisibleAdds(s: State, cp: nat, rest: seq<nat>)
    requires Between(s) && Tidy(s) && LastOutput(s) != NEWLINE && IsPlain(cp) && IsVisible(cp)
    requires NoGap(Encode(cp)) && forall c :: c in rest ==> IsScalar(c)
    requires |s.output| + |Added(s, [cp] + rest)| <= CONTENT_SIZE_LIMIT
    ensures var t := EmitCodepoint(s, cp);
            && Between(t) && LastOutput(t) != NEWLINE
            && s.output + Added(s, [cp] + rest) == t.output + Added(t, rest)
  {
    hide Tidy, Encode, Added, IsVisible, Collapsed, Separator, EmitCodepoint;
    var gap := if s.pendingSpace then [SPACE] else [];
    var e := Encode(cp);
    var t := EmitCodepoint(s, cp);
    AddedVisible(s, cp, rest);
    VisibleEmitted(s, cp);
    AddedAfterVisible(t, rest);
    var tail := Separator(rest) + Collapsed(rest);
    assert s.output + (gap + (e + tail)) == (s.output + gap + e) + tail;
  }

  lemma AddedVisible(s: State, cp: nat, rest: seq<nat>)
    requires IsScalar(cp) && IsVisible(cp) && forall c :: c in rest ==> IsScalar(c)
    ensures Added(s, [cp] + rest) ==
            (if s.pendingSpace then [SPACE] else []) + (Encode(cp) + (Separator(rest) + Collapsed(rest)))
  {
    hide Encode, IsVisible;
    var cps := [cp] + rest;
    assert cps[0 + 1..] == rest;
    assert Encode(cp) + Separator(rest) + Collapsed(rest) == Encode(cp) + (Separator(rest) + Collapsed(rest));
  }

  lemma VisibleEmitted(s: State, cp: nat)
    requires Between(s) && IsPlain(cp) && IsVisible(cp) && NoGap(Encode(cp))
    requires |s.output| + (if s.pendingSpace then 1 else 0) + |Encode(cp)| <= CONTENT_SIZE_LIMIT
    ensures var t := EmitCodepoint(s, cp);
            && Between(t) && LastOutput(t) != NEWLINE && t.output != [] && !t.pendingSpace
            && t.output == s.output + (if s.pendingSpace then [SPACE] else []) + Encode(cp)
  {
    hide Encode;
    var e := Encode(cp);
    var t := EmitCodepoint(s, cp);
    assert t.output == s.output + (if s.pendingSpace then [SPACE] else []) + e;
    assert t.output[|t.output| - 1] == e[|e| - 1];
  }

  lemma AddedAfterVisible(t: State, rest: seq<nat>)
    requires t.output != [] && !t.pendingSpace && forall c :: c in rest ==> IsScalar(c)
    ensures Added(t, rest) == Separator(rest) + Collapsed(rest)
  {
    hide Separator, Collapsed;
    if Leading(rest) == |rest| {
      SeparatorOnly(rest);
    }
  }

  lemma {:induction false} SeparatorOnly(cps: seq<nat>)
    requires Leading(cps) == |cps|
    requires forall c :: c in cps ==> IsScalar(c)
    ensures Separator(cps) == [] && Collapsed(cps) == []
    decreases |cps|
  {
    hide Encode;
    if cps != [] {
      SeparatorOnly(cps[1..]);
    }
  }

  // Text without markup comes out as its words: visible characters in order, one space
  // where there were blanks between them, then the end of the chapter.
  lemma PlainTextIsCollapsed(cps: seq<nat>)
    requires AllPlain(cps)
    requires |Collapsed(cps)| + 2 <= CONTENT_SIZE_LIMIT
    ensures var t := Finish(Feed(START, EncodeAll(cps), true));
            !t.failed && t.output == if Collapsed(cps) == [] then [NEWLINE] else Collapsed(cps) + [NEWLINE, NEWLINE]
  {
    hide Tidy, FeedBytes, Collapsed;
    StartTidy();
    StartAdds(cps);
    PlainIsCollapsed(START, cps);
    var t := FeedBytes(START, EncodeAll(cps));
    FeedTidy(START, EncodeAll(cps));
    if t.output != [] {
      CollapsedEnds(cps);
      assert t.output + [NEWLINE] + [NEWLINE] == t.output + [NEWLINE, NEWLINE];
    }
  }

  lemma StartAdds(cps: seq<nat>)
    requires forall c :: c in cps ==> IsScalar(c)
    ensures Added(START, cps) == Collapsed(cps)
  {
    hide Encode;
    if Leading(cps) == |cps| {
      SeparatorOnly(cps);
    }
  }

  lemma {:induction false} CollapsedEnds(cps: seq<nat>)
    requires AllPlain(cps) && Collapsed(cps) != []
    ensures Collapsed(cps)[|Collapsed(cps)| - 1] != NEWLINE
    decreases |cps|
  {
    hide Encode, Separator, IsBlank, IsControl, Collapsed;
    var n := Leading(cps);
    if n == |cps| {
      SeparatorOnly(cps);
    } else {
      var rest := cps[n + 1..];
      assert IsPlain(cps[n]);
      EncodedNoGap(cps[n]);
      var e := Encode(cps[n]);
      CollapsedStarts(cps);
      if Leading(rest) == |rest| {
        SeparatorOnly(rest);
        assert Collapsed(cps) == e;
        assert !IsGap(e[|e| - 1]);
      } else {
        CollapsedStarts(rest);
        CollapsedEnds(rest);
      }
    }
  }

  lemma CollapsedStarts(cps: seq<nat>)
    requires Leading(cps) < |cps| && forall c :: c in cps ==> IsScalar(c)
    ensures IsScalar(cps[Leading(cps)])
    ensures var rest := cps[Leading(cps) + 1..];
            Collapsed(cps) == Encode(cps[Leading(cps)]) + Separator(rest) + Collapsed(rest) && Collapsed(cps) != []
  {
    hide Encode, Separator, IsScalar;
    assert cps[Leading(cps)] in cps;
  }
}
