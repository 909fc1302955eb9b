// What the XHTML filter makes of a document: characters, references, tags, comments, scripts
// and style sheets, each spelt out in bytes, against the text a reader is to see.
module XhtmlDocument {
  import opened Options
  import opened Utf8
  import opened XhtmlText

  // ----- Documents

  // Of what follows a tag's name: a byte outside quotes, or a quoted stretch.
  datatype Piece = Bare(b: byte) | Quoted(mark: byte, body: seq<byte>)

  datatype Item =
    | Char(cp: nat)
    | Entity(word: string)
    | Number(cp: nat, hex: bool)
    | Tag(tag: Spelling)
    | Comment(body: seq<byte>)
    | Hidden(begin: Spelling, inner: seq<Item>, end: Spelling)

  // A tag between its angle brackets: "p", "/xhtml:div", "br /", "a href='x'".
  datatype Spelling = Spelling(closing: bool, prefix: seq<byte>, name: seq<byte>, rest: seq<Piece>)

  function Ascii(s: string): seq<byte> {
    seq(|s|, i requires 0 <= i < |s| => if s[i] < 0x80 as char then s[i] as int else 0)
  }

  function PiecesBytes(pieces: seq<Piece>): seq<byte> {
    if pieces == [] then []
    else
      (match pieces[0]
       case Bare(b) => [b]
       case Quoted(mark, body) => [mark] + body + [mark]) + PiecesBytes(pieces[1..])
  }

  function Token(t: Spelling): seq<byte> {
    (if t.closing then Ascii("/") else []) + t.prefix + t.name + PiecesBytes(t.rest)
  }

  function TagBytes(t: Spelling): seq<byte> { Ascii("<") + Token(t) + Ascii(">") }

  function Digit(d: nat): byte
    requires d < 16
  {
    Ascii("0123456789abcdef")[d]
  }

  // A number, highest digit first.
  function Digits(n: nat, base: nat): seq<byte>
    requires 2 <= base <= 16
  {
    if n < base then [Digit(n)] else Digits(n / base, base) + [Digit(n % base)]
  }

  function Reference(body: seq<byte>): seq<byte> { Ascii("&") + body + Ascii(";") }

  function NumberBody(cp: nat, hex: bool): seq<byte> {
    if hex then Ascii("#x") + Digits(cp, 16) else Ascii("#") + Digits(cp, 10)
  }

  function ItemBytes(item: Item): seq<byte>
    requires Made(item)
    decreases item
  {
    match item
    case Char(cp) => Encode(cp)
    case Entity(word) => Reference(Ascii(word))
    case Number(cp, hex) => Reference(NumberBody(cp, hex))
    case Tag(tag) => TagBytes(tag)
    case Comment(body) => Ascii("<!--") + body + Ascii("-->")
    case Hidden(begin, inner, end) => TagBytes(begin) + Bytes(inner) + TagBytes(end)
  }

  function Bytes(items: seq<Item>): seq<byte>
    requires AllMade(items)
    decreases items
  {
    if items == [] then [] else ItemBytes(items[0]) + Bytes(items[1..])
  }

  // ----- Which documents are meant

  // A word in letters of either case.
  predicate Spells(name: seq<byte>, word: string) {
    |name| == |word| && forall i :: 0 <= i < |word| ==>
      word[i] < 0x80 as char &&
      (name[i] == word[i] as int || ('a' <= word[i] <= 'z' && name[i] == word[i] as int - 0x20))
  }

  predicate IsScript(name: seq<byte>) { Spells(name, "script") || Spells(name, "style") }

  predicate EndsBlock(name: seq<byte>) {
    || Spells(name, "p") || Spells(name, "div") || Spells(name, "li") || Spells(name, "blockquote")
    || Spells(name, "section") || Spells(name, "article") || Spells(name, "h1") || Spells(name, "h2")
    || Spells(name, "h3") || Spells(name, "h4") || Spells(name, "h5") || Spells(name, "h6")
  }

  predicate IsMark(b: byte) { b == 0x22 || b == 0x27 }

  predicate PieceMade(p: Piece) {
    match p
    case Bare(b) => !IsMark(b) && b != 0x3e
    case Quoted(mark, body) => IsMark(mark) && mark !in body
  }

  // The name has no colon; what follows it starts with a space or a slash.
  predicate SpellingMade(t: Spelling) {
    && t.name != [] && 0x3a !in t.name
    && (t.prefix != [] ==> t.prefix[|t.prefix| - 1] == 0x3a)
    && (forall b :: b in t.prefix + t.name ==> !EndsName(b) && !IsMark(b))
    && (forall i :: 0 <= i < |t.rest| ==> PieceMade(t.rest[i]))
    && (t.rest != [] ==> t.rest[0].Bare? && (IsSpace(t.rest[0].b) || t.rest[0].b == 0x2f))
    && |Token(t)| <= TOKEN_CAPACITY && !(Ascii("!--") <= Token(t))
  }

  function CharOf(word: string): Option<nat> {
    if word == "amp" then Some('&' as int)
    else if word == "lt" then Some('<' as int)
    else if word == "gt" then Some('>' as int)
    else if word == "quot" then Some('\"' as int)
    else if word == "apos" then Some('\'' as int)
    else if word == "nbsp" then Some('\U{00a0}' as int)
    else if word == "ndash" then Some('\U{2013}' as int)
    else if word == "mdash" then Some('\U{2014}' as int)
    else if word == "hellip" then Some('\U{2026}' as int)
    else None
  }

  predicate ClosesAt(s: seq<byte>, i: nat) { i + 3 <= |s| && s[i..i + 3] == Ascii("-->") }

  // The mark that ends a comment comes first at its end.
  predicate CommentMade(body: seq<byte>) {
    forall i :: 0 <= i < |body| ==> !ClosesAt(body + Ascii("-->"), i)
  }

  predicate Made(item: Item)
    decreases item
  {
    match item
    case Char(cp) => IsPlain(cp)
    case Entity(word) => CharOf(word).Some?
    case Number(cp, _) => IsScalar(cp) && cp != 0
    case Tag(tag) => SpellingMade(tag) && !IsScript(tag.name)
    case Comment(body) => CommentMade(body)
    case Hidden(begin, inner, end) =>
      && SpellingMade(begin) && IsScript(begin.name) && !begin.closing
      && SpellingMade(end) && IsScript(end.name) && end.closing
      && AllMade(inner)
  }

  predicate AllMade(items: seq<Item>)
    decreases items
  {
    items != [] ==> Made(items[0]) && AllMade(items[1..])
  }

  function Nesting(item: Item): nat
    decreases item
  {
    match item
    case Hidden(_, inner, _) => 1 + Depth(inner)
    case _ => 0
  }

  // How deep scripts and style sheets are nested.
  function Depth(items: seq<Item>): nat
    decreases items
  {
    if items == [] then 0
    else
      var first, rest := Nesting(items[0]), Depth(items[1..]);
      if first < rest then rest else first
  }

  // ----- The text that is meant

  datatype Mark = Glyph(cp: nat) | Blank | Break

  predicate Separates(cp: nat) {
    cp == ' ' as int || cp == '\t' as int || cp == '\r' as int || cp == '\n' as int || cp == '\U{00a0}' as int
  }

  predicate Prints(cp: nat) { cp >= ' ' as int && cp != '\U{007f}' as int && !Separates(cp) }

  function CharMarks(cp: nat): seq<Mark> {
    if Separates(cp) then [Blank] else if Prints(cp) then [Glyph(cp)] else []
  }

  function ItemMarks(item: Item): seq<Mark>
    requires Made(item)
  {
    match item
    case Char(cp) => CharMarks(cp)
    case Entity(word) => CharMarks(CharOf(word).value)
    case Number(cp, _) => CharMarks(cp)
    case Tag(tag) => if Spells(tag.name, "br") || (tag.closing && EndsBlock(tag.name)) then [Break] else []
    case Comment(_) => []
    case Hidden(_, _, _) => []
  }

  function Marks(items: seq<Item>): seq<Mark>
    requires AllMade(items)
  {
    if items == [] then [] else ItemMarks(items[0]) + Marks(items[1..])
  }

  function FirstGlyph(marks: seq<Mark>): (n: nat)
    ensures n <= |marks| && (n < |marks| ==> marks[n].Glyph?)
    ensures forall i :: 0 <= i < n ==> !marks[i].Glyph?
  {
    if marks == [] || marks[0].Glyph? then 0 else 1 + FirstGlyph(marks[1..])
  }

  // What stands for the marks between two glyphs: one newline, one space, or nothing.
  function GapBytes(gap: seq<Mark>): seq<byte> {
    if Break in gap then [NEWLINE] else if Blank in gap then [SPACE] else []
  }

  // The glyphs in order, with their gaps between them.
  function Flow(marks: seq<Mark>): seq<byte>
    requires Visible(marks)
    decreases |marks|, 0
  {
    var n := FirstGlyph(marks);
    if n == |marks| then [] else Encode(marks[n].cp) + Behind(marks[n + 1..])
  }

  // What follows a glyph: the gap before the next one, if there is one, and so on.
  function Behind(rest: seq<Mark>): seq<byte>
    requires Visible(rest)
    decreases |rest|, 1
  {
    var n := FirstGlyph(rest);
    if n == |rest| then [] else GapBytes(rest[..n]) + Flow(rest)
  }

  // Glyphs are visible characters.
  ghost predicate Visible(marks: seq<Mark>) {
    forall i :: 0 <= i < |marks| && marks[i].Glyph? ==> IsScalar(marks[i].cp) && Prints(marks[i].cp)
  }

  // ----- Feeding one item

  ghost predicate Open(s: State) { s.mode == InText && s.utf8 == [] && !s.failed }

  // What matters of a state between items.
  function Core(s: State): State { s.(token := [], overflow := false, quote := 0, tail := 0) }

  lemma CharByte(s: State, cp: nat, k: nat)
    requires Open(s) && IsPlain(cp) && k < |Encode(cp)|
    ensures Advance(s.(utf8 := Encode(cp)[..k]), Encode(cp)[k]) ==
            if k + 1 < |Encode(cp)| then s.(utf8 := Encode(cp)[..k + 1])
            else if s.depth == 0 then EmitCodepoint(s, cp) else s
  {
    hide Encode, Decode, EmitCodepoint;
    var e := Encode(cp);
    PartIncomplete(cp, k + 1);
    FirstByte(cp);
    assert e[..k] + [e[k]] == e[..k + 1];
    assert s.(utf8 := []) == s;
  }

  lemma {:induction false} CharArrives(s: State, cp: nat, k: nat)
    requires Open(s) && IsPlain(cp) && k < |Encode(cp)|
    ensures FeedBytes(s, Encode(cp)[..k]) == s.(utf8 := Encode(cp)[..k])
    decreases k
  {
    hide Encode, Advance, IsPlain, FeedBytes;
    assert IsScalar(cp) by { PlainIsScalar(cp); }
    var e := Encode(cp);
    if k == 0 {
      assert e[..0] == [];
      FeedNothing(s);
    } else {
      CharArrives(s, cp, k - 1);
      FeedSplit(s, e[..k - 1], [e[k - 1]]);
      assert e[..k - 1] + [e[k - 1]] == e[..k];
      CharByte(s, cp, k - 1);
      FeedOne(s.(utf8 := e[..k - 1]), e[k - 1]);
    }
  }

  lemma CharFed(s: State, cp: nat)
    requires Open(s) && IsPlain(cp)
    ensures FeedBytes(s, Encode(cp)) == if s.depth == 0 then EmitCodepoint(s, cp) else s
  {
    hide Encode, Advance, FeedBytes, EmitCodepoint;
    var e := Encode(cp);
    var k := |e| - 1;
    CharArrives(s, cp, k);
    FeedSplit(s, e[..k], [e[k]]);
    assert e[..k] + [e[k]] == e;
    CharByte(s, cp, k);
    FeedOne(s.(utf8 := e[..k]), e[k]);
  }

  // Inside a tag, after these bytes of it.
  function Inside(s: State, token: seq<byte>): State {
    s.(mode := InTag, token := token, overflow := false, quote := 0)
  }

  lemma {:induction false} BareFed(s: State, token: seq<byte>, part: seq<byte>)
    requires !s.failed && |token + part| <= TOKEN_CAPACITY && !(Ascii("!--") <= token + part)
    requires forall b :: b in part ==> !IsMark(b) && b != 0x3e
    ensures FeedBytes(Inside(s, token), part) == Inside(s, token + part)
    decreases |part|
  {
    hide FinishTag;
    if part == [] {
      assert token + part == token;
    } else {
      var b := part[0];
      assert b in part;
      NoComment(token, b, token + part);
      assert token + [b] + part[1..] == token + part;
      assert Advance(Inside(s, token), b) == Inside(s, token + [b]);
      BareFed(s, token + [b], part[1..]);
    }
  }

  lemma NoComment(token: seq<byte>, b: byte, all: seq<byte>)
    requires token + [b] <= all && !(Ascii("!--") <= all)
    ensures !OpensComment(token) && !OpensComment(token + [b])
  {
    var mark := Ascii("!--");
    assert mark == COMMENT;
    assert OpensComment(token + [b]) ==> mark <= token + [b];
    assert |token| >= 3 ==> (token + [b])[..3] == token[..3];
  }

  // Inside quotes everything is taken as it is.
  lemma {:induction false} BodyFed(s: State, token: seq<byte>, mark: byte, body: seq<byte>)
    requires !s.failed && |token + body| <= TOKEN_CAPACITY && IsMark(mark) && mark !in body
    requires !(Ascii("!--") <= token + body)
    ensures FeedBytes(Inside(s, token).(quote := mark), body) == Inside(s, token + body).(quote := mark)
    decreases |body|
  {
    hide FinishTag;
    if body == [] {
      assert token + body == token;
    } else {
      assert token + [body[0]] + body[1..] == token + body;
      BodyFed(s, token + [body[0]], mark, body[1..]);
    }
  }

  lemma QuotedFed(s: State, token: seq<byte>, mark: byte, body: seq<byte>)
    requires !s.failed && |token + ([mark] + body + [mark])| <= TOKEN_CAPACITY && IsMark(mark) && mark !in body
    requires !(Ascii("!--") <= token + ([mark] + body + [mark]))
    ensures FeedBytes(Inside(s, token), [mark] + body + [mark]) == Inside(s, token + ([mark] + body + [mark]))
  {
    hide FinishTag, FeedBytes;
    var begun := token + [mark];
    assert begun + body + [mark] == token + ([mark] + body + [mark]);
    assert Ascii("!--") <= begun + body ==> Ascii("!--") <= begun + body + [mark];
    FeedSplit(Inside(s, token), [mark] + body, [mark]);
    FeedSplit(Inside(s, token), [mark], body);
    FeedOne(Inside(s, token), mark);
    BodyFed(s, begun, mark, body);
    FeedOne(Inside(s, begun + body).(quote := mark), mark);
  }

  lemma {:induction false} PiecesFed(s: State, token: seq<byte>, pieces: seq<Piece>)
    requires !s.failed && |token + PiecesBytes(pieces)| <= TOKEN_CAPACITY
    requires !(Ascii("!--") <= token + PiecesBytes(pieces))
    requires forall i :: 0 <= i < |pieces| ==> PieceMade(pieces[i])
    ensures FeedBytes(Inside(s, token), PiecesBytes(pieces)) == Inside(s, token + PiecesBytes(pieces))
    decreases |pieces|
  {
    hide FeedBytes;
    if pieces == [] {
      FeedNothing(Inside(s, token));
      assert token + [] == token;
    } else {
      var first := match pieces[0] case Bare(b) => [b] case Quoted(mark, body) => [mark] + body + [mark];
      var rest := PiecesBytes(pieces[1..]);
      assert token + first + rest == token + (first + rest);
      assert Ascii("!--") <= token + first ==> Ascii("!--") <= token + first + rest;
      FeedSplit(Inside(s, token), first, rest);
      match pieces[0] {
        case Bare(b) => BareFed(s, token, [b]);
        case Quoted(mark, body) => QuotedFed(s, token, mark, body);
      }
      PiecesFed(s, token + first, pieces[1..]);
    }
  }

  function Closed(s: State): State { if s.failed then s else s.(mode := InText) }

  function Head(t: Spelling): seq<byte> { (if t.closing then Ascii("/") else []) + t.prefix + t.name }

  lemma HeadFed(s: State, t: Spelling)
    requires !s.failed && SpellingMade(t)
    ensures FeedBytes(Inside(s, []), Head(t)) == Inside(s, Head(t))
  {
    hide FeedBytes, PiecesBytes, PieceMade, Head, Token;
    var head := Head(t);
    HeadFirst(t);
    HeadBytes(t);
    assert Ascii("!--") <= head ==> Ascii("!--") <= Token(t);
    assert [] + head == head;
    BareFed(s, [], head);
  }

  lemma HeadBytes(t: Spelling)
    requires forall b :: b in t.prefix + t.name ==> !EndsName(b) && !IsMark(b)
    ensures forall b :: b in Head(t) ==> !IsMark(b) && b != 0x3e
  {
    var tail := t.prefix + t.name;
    assert Head(t) == (if t.closing then Ascii("/") else []) + tail;
    assert Ascii("/") == [0x2f];
  }

  lemma TagFed(s: State, t: Spelling)
    requires Open(s) && SpellingMade(t)
    ensures FeedBytes(s, TagBytes(t)) == Closed(FinishTag(Inside(s, Token(t))))
  {
    hide FinishTag, FeedBytes, PiecesBytes, PieceMade, Head;
    var rest := PiecesBytes(t.rest);
    assert Token(t) == Head(t) + rest by { HeadFirst(t); }
    assert TagBytes(t) == [0x3c] + Token(t) + [0x3e];
    FeedSplit(s, [0x3c] + Token(t), [0x3e]);
    FeedSplit(s, [0x3c], Token(t));
    FeedOne(s, 0x3c);
    FeedSplit(Inside(s, []), Head(t), rest);
    HeadFed(s, t);
    PiecesFed(s, Head(t), t.rest);
    TagEnds(s, Token(t));
  }

  lemma HeadFirst(t: Spelling)
    ensures Token(t) == Head(t) + PiecesBytes(t.rest)
  {
  }

  lemma TagEnds(s: State, token: seq<byte>)
    requires !s.failed && !(Ascii("!--") <= token)
    ensures FeedBytes(Inside(s, token), [0x3e]) == Closed(FinishTag(Inside(s, token)))
  {
    hide FinishTag, FeedBytes;
    FeedOne(Inside(s, token), 0x3e);
    CommentMark(token);
  }

  lemma CommentMark(token: seq<byte>)
    ensures OpensComment(token) <==> Ascii("!--") <= token
  {
    assert Ascii("!--") == COMMENT;
  }

  // ----- What tags mean

  lemma {:induction false} NameEndAt(token: seq<byte>, i: nat, e: nat)
    requires i <= e <= |token| && (e < |token| ==> EndsName(token[e]))
    requires forall k :: i <= k < e ==> !EndsName(token[k])
    ensures NameEnd(token, i) == e
    decreases e - i
  {
    if i < e {
      NameEndAt(token, i + 1, e);
    }
  }

  lemma {:induction false} LocalNameOf(prefix: seq<byte>, name: seq<byte>)
    requires 0x3a !in name && (prefix != [] ==> prefix[|prefix| - 1] == 0x3a)
    ensures LocalName(prefix + name) == name
    decreases |name|
  {
    var all := prefix + name;
    if name == [] {
      assert all == prefix;
    } else {
      var front := name[..|name| - 1];
      assert all[..|all| - 1] == prefix + front;
      assert name[|name| - 1] in name;
      LocalNameOf(prefix, front);
    }
  }

  lemma NameOfToken(token: seq<byte>, start: nat, full: seq<byte>)
    requires start <= 1 && start < |token| && !EndsName(token[start]) && (start == 1 ==> token[0] == 0x2f)
    requires NameEnd(token, start) == start + |full| && token[start..start + |full|] == full
    ensures NameOf(token) == TagName(start == 1, LocalName(full))
  {
    hide EndsName, LocalName, IsSpace, NameEnd, SkipSpaces;
    FirstOfName(token[0]);
    NoSpaces(token);
  }

  lemma NamePart(token: seq<byte>, start: nat, full: seq<byte>)
    requires full != [] && start + |full| <= |token| && token[start..start + |full|] == full
    requires start + |full| < |token| ==> EndsName(token[start + |full|])
    requires forall k :: 0 <= k < |full| ==> !EndsName(full[k])
    ensures !EndsName(token[start]) && NameEnd(token, start) == start + |full|
  {
    hide EndsName, NameEnd;
    forall k | start <= k < start + |full| ensures !EndsName(token[k]) {
      assert token[start..start + |full|][k - start] == token[k];
    }
    NameEndAt(token, start, start + |full|);
  }

  lemma NoSpaces(token: seq<byte>)
    ensures token == [] || !IsSpace(token[0]) ==> SkipSpaces(token, 0) == 0
  {
  }

  lemma TokenName(t: Spelling)
    requires SpellingMade(t)
    ensures NameOf(Token(t)) == TagName(t.closing, t.name)
  {
    hide PiecesBytes, EndsName, IsMark, Token, NameOf, PieceMade, LocalName;
    var full := t.prefix + t.name;
    RestStarts(t);
    NameStands(t, if t.closing then 1 else 0);
    forall k | 0 <= k < |full| ensures !EndsName(full[k]) {
      assert full[k] in full;
    }
    RestAt(Token(t), (if t.closing then 1 else 0) + |full|, PiecesBytes(t.rest));
    NamePart(Token(t), if t.closing then 1 else 0, full);
    NameOfToken(Token(t), if t.closing then 1 else 0, full);
    LocalNameOf(t.prefix, t.name);
  }

  lemma RestAt(token: seq<byte>, at: nat, rest: seq<byte>)
    requires at <= |token| && token[at..] == rest
    ensures at < |token| <==> rest != []
    ensures at < |token| ==> token[at] == rest[0]
  {
  }

  lemma NameStands(t: Spelling, start: nat)
    requires start == if t.closing then 1 else 0
    ensures var token, full := Token(t), t.prefix + t.name;
            && start + |full| <= |token| && token[start..start + |full|] == full
            && (t.closing ==> token[0] == 0x2f)
            && token[start + |full|..] == PiecesBytes(t.rest)
  {
    hide PiecesBytes;
    var full := t.prefix + t.name;
    assert Ascii("/") == [0x2f];
    assert Token(t) == (if t.closing then [0x2f] else []) + full + PiecesBytes(t.rest);
  }

  lemma FirstOfName(b: byte)
    ensures !EndsName(b) ==> !IsSpace(b) && b != 0x2f
    ensures !IsSpace(0x2f)
  {
  }

  lemma RestStarts(t: Spelling)
    requires SpellingMade(t)
    ensures PiecesBytes(t.rest) != [] ==> EndsName(PiecesBytes(t.rest)[0])
  {
    hide Token;
  }

  // Comparing without regard to case is comparing with a word in small letters.
  lemma WordFolds(name: seq<byte>, word: string)
    requires forall i :: 0 <= i < |word| ==> 'a' <= word[i] <= 'z'
    ensures Spells(name, word) <==> EqualFolded(name, Ascii(word))
  {
    var w := Ascii(word);
    forall i | 0 <= i < |word| && i < |name|
      ensures Lower(name[i]) == Lower(w[i]) <==>
              name[i] == word[i] as int || name[i] == word[i] as int - 0x20
    {
    }
    if EqualFolded(name, w) {
      forall i | 0 <= i < |word| ensures name[i] == word[i] as int || name[i] == word[i] as int - 0x20 {
        assert Lower(name[i]) == Lower(w[i]);
      }
    }
  }

  lemma ScriptFolds(name: seq<byte>)
    ensures IsScript(name) <==> IsHidden(name)
    ensures Spells(name, "br") <==> EqualFolded(name, BR)
  {
    hide Spells, EqualFolded;
    WordFolds(name, "script");
    WordFolds(name, "style");
    WordFolds(name, "br");
    assert Ascii("script") == SCRIPT && Ascii("style") == STYLE && Ascii("br") == BR;
  }

  lemma BlockFolds(name: seq<byte>)
    ensures EndsBlock(name) <==> IsBlock(name)
  {
    hide Spells, EqualFolded;
    WordFolds(name, "p");
    WordFolds(name, "div");
    WordFolds(name, "li");
    WordFolds(name, "blockquote");
    WordFolds(name, "section");
    WordFolds(name, "article");
    assert Ascii("p") == P && Ascii("div") == DIV && Ascii("li") == LI && Ascii("blockquote") == BLOCKQUOTE;
    assert Ascii("section") == SECTION && Ascii("article") == ARTICLE;
    HeadingSpelt(name, "h1", 0x31);
    HeadingSpelt(name, "h2", 0x32);
    HeadingSpelt(name, "h3", 0x33);
    HeadingSpelt(name, "h4", 0x34);
    HeadingSpelt(name, "h5", 0x35);
    HeadingSpelt(name, "h6", 0x36);
  }

  lemma HeadingSpelt(name: seq<byte>, word: string, digit: byte)
    requires |word| == 2 && word[0] == 'h' && word[1] as int == digit && 0x31 <= digit <= 0x36
    ensures Spells(name, word) <==> |name| == 2 && (name[0] == 0x68 || name[0] == 0x48) && name[1] == digit
  {
  }

  // What a tag of this name does: scripts and style sheets hide what is inside them, line
  // breaks and the ends of blocks end the line, and all others mean nothing.
  function Tagged(s: State, closing: bool, name: seq<byte>): State {
    if IsScript(name) then
      if closing then s.(depth := if s.depth == 0 then 0 else s.depth - 1)
      else s.(depth := if s.depth < DEPTH_LIMIT then s.depth + 1 else s.depth)
    else if s.depth == 0 && (Spells(name, "br") || (closing && EndsBlock(name))) then EmitNewline(s, false)
    else s
  }

  lemma TagMeans(s: State, t: Spelling)
    requires SpellingMade(t) && s.depth <= DEPTH_LIMIT
    ensures FinishTag(Inside(s, Token(t))) == Tagged(Inside(s, Token(t)), t.closing, t.name)
  {
    hide Token, Spells, IsScript, EndsBlock, IsHidden, EqualFolded, IsBlock, EmitNewline, SpellingMade, NameOf;
    TokenName(t);
    ScriptFolds(t.name);
    BlockFolds(t.name);
  }

  // ----- What references mean

  lemma WordsNamed(word: string)
    requires CharOf(word).Some?
    ensures Named(Ascii(word)) == CharOf(word)
    ensures 0 < |Ascii(word)| <= TOKEN_CAPACITY && ReferenceMade(Ascii(word))
  {
    hide Ascii;
    WordBytes();
  }

  lemma WordBytes()
    ensures Ascii("amp") == AMP && Ascii("lt") == LT && Ascii("gt") == GT && Ascii("quot") == QUOT
    ensures Ascii("apos") == APOS && Ascii("nbsp") == NBSP && Ascii("ndash") == NDASH && Ascii("mdash") == MDASH
    ensures Ascii("hellip") == HELLIP
  {
  }

  // What may stand between the ampersand and the semicolon.
  predicate ReferenceMade(body: seq<byte>) {
    forall i :: 0 <= i < |body| ==> body[i] != 0x3b && body[i] != 0x3c && body[i] != 0x26 && !IsSpace(body[i])
  }

  predicate IsDigit(b: byte) { 0x30 <= b <= 0x39 || 0x61 <= b <= 0x66 }

  lemma DigitMeans(d: nat, hex: bool)
    requires d < if hex then 16 else 10
    ensures DigitValue(Digit(d), hex) == Some(d)
    ensures IsDigit(Digit(d))
  {
  }

  lemma NumeralSnoc(front: seq<byte>, d: nat, hex: bool, m: nat)
    requires d < Base(hex) && Numeral(front, hex) == Some(m)
    ensures Numeral(front + [Digit(d)], hex) == Some(m * Base(hex) + d)
  {
    hide Digit, DigitValue;
    DigitMeans(d, hex);
    assert (front + [Digit(d)])[..|front|] == front;
  }

  lemma {:induction false} DigitsMean(n: nat, hex: bool)
    ensures var digits := Digits(n, Base(hex));
            Numeral(digits, hex) == Some(n) && digits != [] &&
            forall i :: 0 <= i < |digits| ==> IsDigit(digits[i])
    decreases n
  {
    hide Digit, DigitValue, Numeral, IsDigit;
    var base := Base(hex);
    assert base == if hex then 16 else 10;
    DigitMeans(n % base, hex);
    if n < base {
      NoDigits(hex);
      NumeralSnoc([], n, hex, 0);
      assert [] + [Digit(n)] == [Digit(n)];
    } else {
      DigitsMean(n / base, hex);
      NumeralSnoc(Digits(n / base, base), n % base, hex, n / base);
      assert n == n / base * base + n % base;
    }
  }

  lemma NoDigits(hex: bool)
    ensures Numeral([], hex) == Some(0)
  {
  }

  function Power(base: nat, k: nat): nat { if k == 0 then 1 else base * Power(base, k - 1) }

  lemma {:induction false} DigitsFit(n: nat, base: nat, k: nat)
    requires 2 <= base <= 16 && k > 0 && n < Power(base, k)
    ensures |Digits(n, base)| <= k
    decreases k
  {
    if n >= base {
      assert k > 1;
      Quotient(n, base, Power(base, k - 1));
      DigitsFit(n / base, base, k - 1);
    }
  }

  lemma Quotient(n: nat, base: nat, power: nat)
    requires base > 0 && n < base * power
    ensures n / base < power
  {
    assert base * (n / base) <= n;
    Monotone(base, n / base, power);
  }

  lemma Monotone(base: nat, a: nat, b: nat)
    ensures a >= b ==> base * a >= base * b
  {
  }

  lemma Powers()
    ensures 0x10ffff < Power(10, 7) && 0x10ffff < Power(16, 6)
  {
    assert Power(10, 3) == 1000 && Power(16, 3) == 0x1000;
  }

  lemma NumberMeans(cp: nat, hex: bool)
    requires cp <= 0x10ffff
    ensures var body := NumberBody(cp, hex);
            && Named(body) == None && 1 < |body| <= TOKEN_CAPACITY && ReferenceMade(body)
            && body[0] == 0x23 && Numeric(body) == Some(cp)
  {
    hide Digits, Numeral, Ascii;
    var digits := Digits(cp, Base(hex));
    var body := NumberBody(cp, hex);
    DigitsMean(cp, hex);
    Powers();
    DigitsFit(cp, Base(hex), if hex then 6 else 7);
    Hashes();
    var start := if hex then 2 else 1;
    assert body[start..] == digits && body[0] == 0x23;
    assert body[1] == if hex then 0x78 else digits[0];
    forall i | start <= i < |body| ensures IsDigit(body[i]) {
      assert body[i] == digits[i - start];
    }
  }

  lemma Hashes()
    ensures Ascii("#x") == [0x23, 0x78] && Ascii("#") == [0x23]
  {
  }

  function Referring(s: State, token: seq<byte>): State { s.(mode := InEntity, token := token, overflow := false) }

  lemma {:induction false} BodyRead(s: State, token: seq<byte>, part: seq<byte>)
    requires !s.failed && |token + part| <= TOKEN_CAPACITY && ReferenceMade(part)
    ensures FeedBytes(Referring(s, token), part) == Referring(s, token + part)
    decreases |part|
  {
    hide FinishEntity;
    if part == [] {
      assert token + part == token;
    } else {
      assert token + [part[0]] + part[1..] == token + part;
      BodyRead(s, token + [part[0]], part[1..]);
    }
  }

  lemma ReferenceFed(s: State, body: seq<byte>)
    requires Open(s) && |body| <= TOKEN_CAPACITY && ReferenceMade(body)
    ensures FeedBytes(s, Reference(body)) == Closed(FinishEntity(Referring(s, body)))
  {
    hide FinishEntity, FeedBytes, IsSpace;
    assert Reference(body) == [0x26] + body + [0x3b];
    FeedSplit(s, [0x26] + body, [0x3b]);
    FeedSplit(s, [0x26], body);
    FeedOne(s, 0x26);
    assert [] + body == body;
    BodyRead(s, [], body);
    FeedOne(Referring(s, body), 0x3b);
  }

  // A named or numeric reference is its character.
  lemma ReferenceMeans(s: State, body: seq<byte>, cp: nat)
    requires body != []
    requires Named(body) == Some(cp) || (Named(body) == None && body[0] == 0x23 && Numeric(body) == Some(cp))
    ensures var u := Referring(s, body); FinishEntity(u) == if s.depth == 0 then EmitCodepoint(u, cp) else u
  {
    hide Named, Numeric, EmitCodepoint;
  }

  // ----- Comments

  // How many dashes have just been read, up to two.
  function Dashes(read: seq<byte>): nat {
    if read == [] || read[|read| - 1] != 0x2d then 0
    else if |read| >= 2 && read[|read| - 2] == 0x2d then 2 else 1
  }

  lemma {:induction false} CommentRead(s: State, all: seq<byte>, k: nat)
    requires s.mode == InComment && s.tail == 0 && !s.failed && k <= |all|
    requires forall i :: 0 <= i < |all| ==> i + 3 <= k ==> !ClosesAt(all, i)
    ensures FeedBytes(s, all[..k]) == s.(tail := Dashes(all[..k]))
    decreases k
  {
    hide FeedBytes;
    if k == 0 {
      assert all[..0] == [];
      FeedNothing(s);
    } else {
      var b := all[k - 1];
      CommentRead(s, all, k - 1);
      FeedSplit(s, all[..k - 1], [b]);
      assert all[..k - 1] + [b] == all[..k];
      FeedOne(s.(tail := Dashes(all[..k - 1])), b);
      if k >= 3 {
        CloseMark(all, k - 3);
      }
    }
  }

  lemma CloseMark(all: seq<byte>, i: nat)
    requires i + 3 <= |all|
    ensures all[i] == 0x2d && all[i + 1] == 0x2d && all[i + 2] == 0x3e ==> ClosesAt(all, i)
  {
    assert Ascii("-->") == [0x2d, 0x2d, 0x3e];
    assert all[i..i + 3] == [all[i], all[i + 1], all[i + 2]];
  }

  lemma CommentFed(s: State, body: seq<byte>)
    requires Open(s) && CommentMade(body)
    ensures Core(FeedBytes(s, Ascii("<!--") + body + Ascii("-->"))) == Core(s)
  {
    hide FeedBytes, FinishTag;
    var all := body + Ascii("-->");
    var front := body + [0x2d, 0x2d];
    assert Ascii("<!--") == [0x3c] + [0x21, 0x2d, 0x2d] && Ascii("-->") == [0x2d, 0x2d, 0x3e];
    assert Ascii("<!--") + body + Ascii("-->") == [0x3c] + [0x21, 0x2d, 0x2d] + (front + [0x3e]);
    FeedSplit(s, [0x3c] + [0x21, 0x2d, 0x2d], front + [0x3e]);
    FeedSplit(s, [0x3c], [0x21, 0x2d, 0x2d]);
    FeedOne(s, 0x3c);
    CommentOpens(s);
    var c := Inside(s, COMMENT).(mode := InComment, tail := 0);
    FeedSplit(c, front, [0x3e]);
    assert all[..|front|] == front;
    CommentRead(c, all, |front|);
    FeedOne(c.(tail := 2), 0x3e);
  }

  lemma CommentOpens(s: State)
    requires !s.failed
    ensures FeedBytes(Inside(s, []), [0x21, 0x2d, 0x2d]) == Inside(s, COMMENT).(mode := InComment, tail := 0)
  {
    hide FinishTag, FeedBytes;
    var a, b := Inside(s, [0x21]), Inside(s, [0x21, 0x2d]);
    assert [0x21, 0x2d, 0x2d] == [0x21] + [0x2d] + [0x2d];
    FeedSplit(Inside(s, []), [0x21] + [0x2d], [0x2d]);
    FeedSplit(Inside(s, []), [0x21], [0x2d]);
    FeedOne(Inside(s, []), 0x21);
    assert [] + [0x21] == [0x21] && [0x21] + [0x2d] == [0x21, 0x2d];
    FeedOne(a, 0x2d);
    FeedOne(b, 0x2d);
    assert [0x21, 0x2d] + [0x2d] == COMMENT;
  }

  // ----- Feeding a document

  function Marked(s: State, m: Mark): State {
    match m
    case Glyph(cp) => EmitCodepoint(s, cp)
    case Blank => EmitCodepoint(s, 0x20)
    case Break => EmitNewline(s, false)
  }

  function MarkedAll(s: State, marks: seq<Mark>): State
    decreases |marks|
  {
    if s.failed || marks == [] then s else MarkedAll(Marked(s, marks[0]), marks[1..])
  }

  lemma {:induction false} MarkedConcat(s: State, a: seq<Mark>, b: seq<Mark>)
    ensures MarkedAll(s, a + b) == MarkedAll(MarkedAll(s, a), b)
    decreases |a|
  {
    hide Marked;
    if a == [] {
      assert a + b == b;
    } else if !s.failed {
      assert (a + b)[1..] == a[1..] + b;
      MarkedConcat(Marked(s, a[0]), a[1..], b);
    }
  }

  lemma {:induction false} MarkedCore(s: State, marks: seq<Mark>)
    ensures Core(MarkedAll(s, marks)) == MarkedAll(Core(s), marks)
    decreases |marks|
  {
    hide EmitCodepoint, EmitNewline;
    if !s.failed && marks != [] {
      MarkCore(s, marks[0]);
      MarkedCore(Marked(s, marks[0]), marks[1..]);
    }
  }

  // The same state elsewhere in the markup.
  function Moved(s: State, u: State): State {
    s.(mode := u.mode, token := u.token, overflow := u.overflow, quote := u.quote, tail := u.tail)
  }

  // Emitting does not depend on where the filter is.
  lemma EmitElsewhere(s: State, u: State, data: seq<byte>)
    ensures Emit(Moved(s, u), data) == Moved(Emit(s, data), u)
    ensures Emit(Moved(s.(pendingSpace := false), u), data) == Moved(Emit(s.(pendingSpace := false), data), u)
  {
  }

  lemma CodepointElsewhere(s: State, u: State, cp: nat)
    ensures EmitCodepoint(Moved(s, u), cp) == Moved(EmitCodepoint(s, cp), u)
  {
    hide Encode, Emit;
    EmitElsewhere(s, u, [SPACE]);
    if IsScalar(cp) {
      EmitElsewhere(s, u, Encode(cp));
      EmitElsewhere(Emit(s.(pendingSpace := false), [SPACE]), u, Encode(cp));
    }
  }

  lemma NewlineElsewhere(s: State, u: State)
    ensures EmitNewline(Moved(s, u), false) == Moved(EmitNewline(s, false), u)
  {
  }

  lemma MarkCore(s: State, m: Mark)
    ensures Core(Marked(s, m)) == Marked(Core(s), m)
  {
    hide EmitCodepoint, EmitNewline;
    var u := s.(mode := s.mode, token := [], overflow := false, quote := 0, tail := 0);
    assert Core(s) == Moved(s, u);
    match m {
      case Glyph(cp) =>
        CodepointElsewhere(s, u, cp);
        CodepointStays(s, cp);
      case Blank =>
        CodepointElsewhere(s, u, 0x20);
        CodepointStays(s, 0x20);
      case Break =>
        NewlineElsewhere(s, u);
        NewlineStays(s);
    }
  }

  lemma CodepointStays(s: State, cp: nat)
    ensures EmitCodepoint(s, cp).mode == s.mode
  {
    hide Encode;
  }

  lemma NewlineStays(s: State)
    ensures EmitNewline(s, false).mode == s.mode
  {
  }

  lemma {:induction false} MarkedOpen(s: State, marks: seq<Mark>)
    requires Open(s) && !MarkedAll(s, marks).failed
    ensures Open(MarkedAll(s, marks)) && MarkedAll(s, marks).depth == s.depth
    decreases |marks|
  {
    hide EmitCodepoint, EmitNewline;
    if marks != [] {
      MarkOpen(s, marks[0]);
      assert MarkedAll(s, marks) == MarkedAll(Marked(s, marks[0]), marks[1..]);
      if Marked(s, marks[0]).failed {
        assert false;
      }
      MarkedOpen(Marked(s, marks[0]), marks[1..]);
    }
  }

  lemma MarkOpen(s: State, m: Mark)
    ensures var t := Marked(s, m); t.mode == s.mode && t.utf8 == s.utf8 && t.depth == s.depth
  {
    hide Encode;
  }

  lemma OneMark(s: State, m: Mark)
    requires !s.failed
    ensures MarkedAll(s, [m]) == Marked(s, m)
  {
    hide Marked;
    assert [m][1..] == [];
    assert MarkedAll(Marked(s, m), []) == Marked(s, m);
  }

  // A character that is read is its mark.
  lemma CharMeans(s: State, cp: nat)
    requires !s.failed && IsScalar(cp) && cp != 0
    ensures EmitCodepoint(s, cp) == MarkedAll(s, CharMarks(cp))
  {
    hide Encode;
    if CharMarks(cp) != [] {
      OneMark(s, CharMarks(cp)[0]);
    }
  }

  // What is left when an item has been read.
  ghost predicate Leaves(s: State, t: State, marks: seq<Mark>) {
    Open(t) && t.depth == s.depth && Core(t) == if s.depth == 0 then MarkedAll(Core(s), marks) else Core(s)
  }

  lemma CharLeaves(s: State, cp: nat)
    requires Open(s) && IsPlain(cp) && (s.depth == 0 ==> !MarkedAll(s, CharMarks(cp)).failed)
    ensures Leaves(s, FeedBytes(s, Encode(cp)), CharMarks(cp))
  {
    hide Encode, EmitCodepoint, FeedBytes, MarkedAll, CharMarks;
    CharFed(s, cp);
    CharMeans(s, cp);
    MarkedCore(s, CharMarks(cp));
    if s.depth == 0 {
      MarkedOpen(s, CharMarks(cp));
    }
  }

  lemma ReferenceLeaves(s: State, body: seq<byte>, cp: nat)
    requires Open(s) && IsScalar(cp) && cp != 0 && (s.depth == 0 ==> !MarkedAll(s, CharMarks(cp)).failed)
    requires 0 < |body| <= TOKEN_CAPACITY && ReferenceMade(body)
    requires Named(body) == Some(cp) || (Named(body) == None && body[0] == 0x23 && Numeric(body) == Some(cp))
    ensures Leaves(s, FeedBytes(s, Reference(body)), CharMarks(cp))
  {
    hide Encode, EmitCodepoint, FeedBytes, MarkedAll, CharMarks, Named, Numeric, FinishEntity, ReferenceMade;
    ReferenceFed(s, body);
    ReferenceMeans(s, body, cp);
    var u := Referring(s, body);
    if s.depth == 0 {
      CharMeans(u, cp);
      CharMeans(s, cp);
      CodepointElsewhere(s, u, cp);
      assert Moved(s, u) == u;
      MarkedCore(s, CharMarks(cp));
      MarkedOpen(s, CharMarks(cp));
    }
  }

  lemma TagLeaves(s: State, t: Spelling)
    requires Open(s) && SpellingMade(t) && !IsScript(t.name) && s.depth <= DEPTH_LIMIT
    requires s.depth == 0 ==> !MarkedAll(s, ItemMarks(Tag(t))).failed
    ensures Leaves(s, FeedBytes(s, TagBytes(t)), ItemMarks(Tag(t)))
  {
    hide EmitNewline, FeedBytes, MarkedAll, FinishTag, SpellingMade, Spells, EndsBlock, IsScript, Token, TagBytes;
    TagFed(s, t);
    TagMeans(s, t);
    var u := Inside(s, Token(t));
    var marks := ItemMarks(Tag(t));
    MarkedCore(s, marks);
    if s.depth == 0 {
      MarkedOpen(s, marks);
      NewlineElsewhere(s, u);
      assert Moved(s, u) == u;
      if marks == [] {
        NoMarks(s);
      } else {
        OneMark(s, Break);
      }
    }
  }

  lemma NoMarks(s: State)
    ensures MarkedAll(s, []) == s
  {
  }

  lemma ScriptFed(s: State, t: Spelling)
    requires Open(s) && SpellingMade(t) && IsScript(t.name)
    requires if t.closing then 0 < s.depth <= DEPTH_LIMIT else s.depth < DEPTH_LIMIT
    ensures var u := FeedBytes(s, TagBytes(t));
            Open(u) && Core(u) == Core(s.(depth := if t.closing then s.depth - 1 else s.depth + 1))
  {
    hide FeedBytes, FinishTag, SpellingMade, IsScript, Token, TagBytes;
    TagFed(s, t);
    TagMeans(s, t);
  }

  lemma ItemLeaves(s: State, item: Item)
    requires Open(s) && Made(item) && s.depth + Nesting(item) <= DEPTH_LIMIT
    requires s.depth == 0 ==> !MarkedAll(s, ItemMarks(item)).failed
    ensures Leaves(s, FeedBytes(s, ItemBytes(item)), ItemMarks(item))
    decreases item
  {
    hide FeedBytes, MarkedAll, CharMarks, SpellingMade, IsScript, TagBytes, Encode, Spells, EndsBlock;
    match item {
      case Char(cp) => CharLeaves(s, cp);
      case Entity(word) =>
        WordsNamed(word);
        EntityIsScalar(word);
        ReferenceLeaves(s, Ascii(word), CharOf(word).value);
      case Number(cp, hex) =>
        NumberMeans(cp, hex);
        ReferenceLeaves(s, NumberBody(cp, hex), cp);
      case Tag(t) => TagLeaves(s, t);
      case Comment(body) =>
        CommentFed(s, body);
        NoMarks(Core(s));
      case Hidden(begin, inner, end) =>
        HiddenLeaves(s, begin, inner, end);
        NoMarks(Core(s));
    }
  }

  lemma EntityIsScalar(word: string)
    requires CharOf(word).Some?
    ensures IsScalar(CharOf(word).value) && CharOf(word).value != 0
  {
  }

  lemma HiddenLeaves(s: State, begin: Spelling, inner: seq<Item>, end: Spelling)
    requires Open(s) && Made(Hidden(begin, inner, end)) && s.depth + 1 + Depth(inner) <= DEPTH_LIMIT
    ensures var t := FeedBytes(s, TagBytes(begin) + Bytes(inner) + TagBytes(end)); Open(t) && Core(t) == Core(s)
    decreases inner, 1
  {
    hide FeedBytes, SpellingMade, IsScript, TagBytes, MarkedAll;
    FeedSplit(s, TagBytes(begin) + Bytes(inner), TagBytes(end));
    FeedSplit(s, TagBytes(begin), Bytes(inner));
    ScriptFed(s, begin);
    var a := FeedBytes(s, TagBytes(begin));
    ItemsLeave(a, inner);
    ScriptFed(FeedBytes(a, Bytes(inner)), end);
  }

  lemma ItemsLeave(s: State, items: seq<Item>)
    requires Open(s) && AllMade(items) && s.depth + Depth(items) <= DEPTH_LIMIT
    requires s.depth == 0 ==> !MarkedAll(s, Marks(items)).failed
    ensures Leaves(s, FeedBytes(s, Bytes(items)), Marks(items))
    decreases items, 0
  {
    hide FeedBytes, ItemBytes, ItemMarks, Made, Nesting;
    if items == [] {
      FeedNothing(s);
    } else {
      var first, rest := items[0], items[1..];
      FeedSplit(s, ItemBytes(first), Bytes(rest));
      MarkedConcat(s, ItemMarks(first), Marks(rest));
      MarkedConcat(Core(s), ItemMarks(first), Marks(rest));
      StaysFailed(MarkedAll(s, ItemMarks(first)), Marks(rest));
      ItemLeaves(s, first);
      var t := FeedBytes(s, ItemBytes(first));
      MarkedCore(s, ItemMarks(first));
      MarkedCore(MarkedAll(s, ItemMarks(first)), Marks(rest));
      MarkedCore(t, Marks(rest));
      ItemsLeave(t, rest);
    }
  }

  lemma StaysFailed(s: State, marks: seq<Mark>)
    ensures s.failed ==> MarkedAll(s, marks) == s
  {
  }

  // ----- From marks to text

  function LastOf(out: seq<byte>): byte { if out == [] then 0 else out[|out| - 1] }

  // What comes before the next glyph, after this output and these marks.
  function Separation(out: seq<byte>, pending: bool, gap: seq<Mark>): seq<byte> {
    if out == [] || LastOf(out) == NEWLINE then []
    else if Break in gap then [NEWLINE]
    else if pending || Blank in gap then [SPACE]
    else []
  }

  // What reading on adds, up to the last glyph.
  function More(out: seq<byte>, pending: bool, marks: seq<Mark>): seq<byte>
    requires Visible(marks)
  {
    var n := FirstGlyph(marks);
    if n == |marks| then [] else Separation(out, pending, marks[..n]) + Flow(marks)
  }

  // The same, but for a line end that has been written already.
  ghost predicate Ends(out: seq<byte>, text: seq<byte>) {
    out == text || (text != [] && LastOf(text) != NEWLINE && out == text + [NEWLINE])
  }

  ghost predicate Ready(s: State) {
    Open(s) && (s.pendingSpace ==> s.output != [] && LastOf(s.output) != NEWLINE)
  }

  lemma FirstSkips(m: Mark, rest: seq<Mark>)
    ensures FirstGlyph([m] + rest) == if m.Glyph? then 0 else 1 + FirstGlyph(rest)
  {
    assert ([m] + rest)[1..] == rest;
  }

  lemma VisibleRest(m: Mark, rest: seq<Mark>)
    requires Visible([m] + rest)
    ensures Visible(rest) && (m.Glyph? ==> IsScalar(m.cp) && Prints(m.cp))
  {
    hide Prints;
    var marks := [m] + rest;
    assert marks[0] == m;
    assert forall i :: 0 <= i < |rest| ==> rest[i] == marks[1 + i];
  }

  lemma FlowSkips(m: Mark, rest: seq<Mark>)
    requires !m.Glyph? && Visible([m] + rest)
    ensures Visible(rest) && Flow([m] + rest) == Flow(rest)
    ensures FirstGlyph([m] + rest) == 1 + FirstGlyph(rest)
  {
    hide Encode, Visible, FirstGlyph, Behind;
    VisibleRest(m, rest);
    FirstSkips(m, rest);
    var n := FirstGlyph(rest);
    if n < |rest| {
      assert ([m] + rest)[n + 2..] == rest[n + 1..];
    }
  }

  lemma FlowTakes(cp: nat, rest: seq<Mark>)
    requires Visible([Glyph(cp)] + rest)
    ensures IsScalar(cp) && Prints(cp) && Visible(rest)
    ensures Flow([Glyph(cp)] + rest) == Encode(cp) + Behind(rest) && FirstGlyph([Glyph(cp)] + rest) == 0
  {
    hide Encode, Visible, FirstGlyph, Behind;
    VisibleRest(Glyph(cp), rest);
    FirstSkips(Glyph(cp), rest);
    assert ([Glyph(cp)] + rest)[0 + 1..] == rest;
  }

  lemma GapJoins(m: Mark, gap: seq<Mark>, x: Mark)
    ensures x in [m] + gap <==> x == m || x in gap
  {
  }

  function Text(s: State, marks: seq<Mark>): seq<byte>
    requires Visible(marks)
  {
    s.output + More(s.output, s.pendingSpace, marks)
  }

  // There is room for the text and a line end.
  ghost predicate Roomy(s: State, marks: seq<Mark>)
    requires Visible(marks)
  {
    || |Text(s, marks)| < CONTENT_SIZE_LIMIT
    || (FirstGlyph(marks) == |marks| && LastOf(s.output) == NEWLINE && |s.output| <= CONTENT_SIZE_LIMIT)
  }

  lemma BlankMark(s: State, rest: seq<Mark>)
    requires Ready(s) && Visible([Blank] + rest)
    ensures var t := Marked(s, Blank);
            && Visible(rest) && Ready(t) && t.output == s.output
            && Text(t, rest) == Text(s, [Blank] + rest) && (Roomy(s, [Blank] + rest) ==> Roomy(t, rest))
  {
    hide Flow, Encode;
    var n := FirstGlyph(rest);
    FlowSkips(Blank, rest);
    assert ([Blank] + rest)[..n + 1] == [Blank] + rest[..n];
    GapJoins(Blank, rest[..n], Break);
    GapJoins(Blank, rest[..n], Blank);
  }

  lemma NewlineWrites(s: State)
    requires Ready(s) && (|s.output| < CONTENT_SIZE_LIMIT || LastOf(s.output) == NEWLINE)
    ensures var t := EmitNewline(s, false);
            t == s.(pendingSpace := false,
                    output := if s.output == [] || LastOf(s.output) == NEWLINE then s.output else s.output + [NEWLINE])
  {
  }

  lemma BreakMark(s: State, rest: seq<Mark>)
    requires Ready(s) && Visible([Break] + rest) && Roomy(s, [Break] + rest)
    ensures var t := Marked(s, Break);
            && Visible(rest) && Ready(t) && Roomy(t, rest)
            && forall out :: Ends(out, Text(t, rest)) ==> Ends(out, Text(s, [Break] + rest))
  {
    hide Flow, Encode, EmitNewline, Visible, FirstGlyph;
    var t := Marked(s, Break);
    var n := FirstGlyph(rest);
    NewlineWrites(s);
    FlowSkips(Break, rest);
    assert ([Break] + rest)[..n + 1] == [Break] + rest[..n];
    GapJoins(Break, rest[..n], Break);
    if n < |rest| {
      assert Text(t, rest) == Text(s, [Break] + rest);
    }
  }

  lemma GlyphMark(s: State, cp: nat, rest: seq<Mark>)
    requires Ready(s) && Visible([Glyph(cp)] + rest)
    requires Roomy(s, [Glyph(cp)] + rest)
    ensures var t := EmitCodepoint(s, cp);
            Visible(rest) && Ready(t) && Text(t, rest) == Text(s, [Glyph(cp)] + rest) && Roomy(t, rest)
  {
    hide Flow, Encode, Visible, FirstGlyph, EmitCodepoint;
    FlowTakes(cp, rest);
    var e, t := Encode(cp), EmitCodepoint(s, cp);
    var before := if s.pendingSpace then [SPACE] else [];
    assert ([Glyph(cp)] + rest)[..0] == [];
    assert |s.output + before + e| <= |s.output + (before + (e + Behind(rest)))|;
    GlyphEmitted(s, cp);
    assert s.output + (before + (e + Behind(rest))) == (s.output + before + e) + Behind(rest);
    BehindIsMore(t.output, rest);
  }

  lemma BehindIsMore(out: seq<byte>, rest: seq<Mark>)
    requires Visible(rest) && out != [] && LastOf(out) != NEWLINE
    ensures More(out, false, rest) == Behind(rest)
  {
    hide Flow;
  }

  lemma NoFlow(marks: seq<Mark>)
    requires Visible(marks) && FirstGlyph(marks) == |marks|
    ensures Flow(marks) == []
  {
  }

  lemma GlyphEmitted(s: State, cp: nat)
    requires Open(s) && IsScalar(cp) && Prints(cp)
    requires |s.output| + (if s.pendingSpace then 1 else 0) + |Encode(cp)| <= CONTENT_SIZE_LIMIT
    ensures var t := EmitCodepoint(s, cp);
            && Open(t) && !t.pendingSpace
            && t.output == s.output + (if s.pendingSpace then [SPACE] else []) + Encode(cp)
            && t.output != [] && LastOf(t.output) != NEWLINE
  {
    hide Encode;
    EncodedNoGap(cp);
    var e, t := Encode(cp), EmitCodepoint(s, cp);
    assert t.output == s.output + (if s.pendingSpace then [SPACE] else []) + e;
    assert t.output[|t.output| - 1] == e[|e| - 1];
  }

  // Reading all marks writes the text, and perhaps a line end behind it.
  lemma {:induction false} MarksWrite(s: State, marks: seq<Mark>)
    requires Ready(s) && Visible(marks) && Roomy(s, marks)
    ensures var t := MarkedAll(s, marks); Ready(t) && Ends(t.output, Text(s, marks))
    decreases |marks|
  {
    hide Ready, Roomy, Ends, EmitCodepoint, EmitNewline, Text;
    if marks == [] {
      NothingMore(s);
    } else {
      var m, rest := marks[0], marks[1..];
      assert marks == [m] + rest;
      match m {
        case Glyph(cp) => GlyphMark(s, cp, rest);
        case Blank => BlankMark(s, rest);
        case Break => BreakMark(s, rest);
      }
      assert !s.failed by { ReadyOpen(s); }
      MarksWrite(Marked(s, m), rest);
    }
  }

  lemma ReadyOpen(s: State)
    ensures Ready(s) ==> !s.failed
  {
  }

  lemma NothingMore(s: State)
    ensures Visible([]) && Text(s, []) == s.output && Ends(s.output, Text(s, []))
  {
  }

  lemma {:induction false} MarksVisible(items: seq<Item>)
    requires AllMade(items)
    ensures Visible(Marks(items))
  {
    hide Spells, EndsBlock, Prints;
    if items != [] {
      MarksVisible(items[1..]);
      GlyphsPrint(items[0]);
    }
  }

  lemma GlyphsPrint(item: Item)
    requires Made(item)
    ensures Visible(ItemMarks(item))
  {
    hide Spells, EndsBlock;
  }

  lemma {:induction false} FlowEnds(marks: seq<Mark>)
    requires Visible(marks) && FirstGlyph(marks) < |marks|
    ensures Flow(marks) != [] && LastOf(Flow(marks)) != NEWLINE
    decreases |marks|
  {
    hide Encode, Prints;
    var m, rest := marks[0], marks[1..];
    assert marks == [m] + rest;
    match m {
      case Glyph(cp) =>
        FlowTakes(cp, rest);
        CharEnds(cp);
        if FirstGlyph(rest) == |rest| {
          NoFlow(rest);
        } else {
          FlowEnds(rest);
        }
      case _ =>
        FlowSkips(m, rest);
        FlowEnds(rest);
    }
  }

  lemma CharEnds(cp: nat)
    requires IsScalar(cp) && Prints(cp)
    ensures LastOf(Encode(cp)) != NEWLINE
  {
    EncodedNoGap(cp);
  }

  // ----- The result

  // A chapter's text is what its characters and references spell, in order, with one newline
  // for any line breaks and ends of blocks between them, or else one space for any blanks;
  // comments, other tags, and scripts and style sheets with all that is in them are as if they
  // were not there. At the end of the chapter come two newlines, or one if there is no text.
  lemma DocumentIsText(items: seq<Item>)
    requires AllMade(items) && Depth(items) <= DEPTH_LIMIT
    ensures Visible(Marks(items))
    ensures |Flow(Marks(items))| + 2 <= CONTENT_SIZE_LIMIT ==>
              var t := Finish(Feed(START, Bytes(items), true)); var text := Flow(Marks(items));
              !t.failed && t.output == if text == [] then [NEWLINE] else text + [NEWLINE, NEWLINE]
  {
    hide FeedBytes, Bytes, Marks, MarkedAll, Flow, AllMade, Depth;
    MarksVisible(items);
    var marks := Marks(items);
    var text := Flow(marks);
    if |text| + 2 <= CONTENT_SIZE_LIMIT {
      if FirstGlyph(marks) == |marks| {
        NoFlow(marks);
      } else {
        FlowEnds(marks);
      }
      assert Text(START, marks) == text;
      MarksWrite(START, marks);
      ItemsLeave(START, items);
      assert Core(START) == START;
      Finishes(FeedBytes(START, Bytes(items)), text);
    }
  }

  lemma Finishes(s: State, text: seq<byte>)
    requires Open(s) && Ends(s.output, text) && LastOf(text) != NEWLINE && |text| + 2 <= CONTENT_SIZE_LIMIT
    ensures var t := Finish(s);
            !t.failed && t.output == if text == [] then [NEWLINE] else text + [NEWLINE, NEWLINE]
  {
    assert text + [NEWLINE] + [NEWLINE] == text + [NEWLINE, NEWLINE];
  }
}
