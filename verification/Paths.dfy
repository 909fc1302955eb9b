// Path handling of the book services: the archive path resolvers of
// services/book/epub_format.cpp, which pop ".." by truncating the output buffer, and the
// catalog path canonicalizer of services/book/book_format.cpp.
module Paths {
  import opened Utf8

  const SLASH: byte := 0x2f
  const BACKSLASH: byte := 0x5c
  const DOT: byte := 0x2e
  const ARCHIVE_PATH_CAPACITY: nat := 257
  const BOOK_PATH_CAPACITY: nat := 513

  datatype PathResult = Rejected | Path(bytes: seq<byte>)

  // ----- Paths as lists of names

  type Name = seq<byte>

  function NameLength(s: seq<byte>): (n: nat)
    ensures n <= |s|
    ensures forall i :: 0 <= i < n ==> s[i] != SLASH
    ensures n < |s| ==> s[n] == SLASH
  {
    if s == [] || s[0] == SLASH then 0 else 1 + NameLength(s[1..])
  }

  // The names between slashes; repeated, leading and trailing slashes do not count.
  function Names(s: seq<byte>): seq<Name>
    decreases |s|
  {
    if s == [] then []
    else if s[0] == SLASH then Names(s[1..])
    else [s[..NameLength(s)]] + Names(s[NameLength(s)..])
  }

  function Join(names: seq<Name>): seq<byte> {
    if names == [] then []
    else if |names| == 1 then names[0]
    else Join(names[..|names| - 1]) + [SLASH] + names[|names| - 1]
  }

  predicate IsDot(name: Name) { name == [DOT] }

  predicate IsDotDot(name: Name) { name == [DOT, DOT] }

  // Names that a resolved path may contain.
  predicate PlainName(name: Name) {
    name != [] && SLASH !in name && !IsDot(name) && !IsDotDot(name)
  }

  ghost predicate Plain(names: seq<Name>) {
    forall i :: 0 <= i < |names| ==> PlainName(names[i])
  }

  lemma {:induction false} NamesSlashed(a: seq<byte>, b: seq<byte>)
    ensures Names(a + [SLASH] + b) == Names(a) + Names(b)
    decreases |a|
  {
    var s := a + [SLASH] + b;
    if a == [] {
      assert s == [SLASH] + b && s[1..] == b;
    } else if a[0] == SLASH {
      assert s[1..] == a[1..] + [SLASH] + b;
      NamesSlashed(a[1..], b);
    } else {
      var n := NameLength(a);
      NameLengthStable(a, [SLASH] + b);
      assert s == a + ([SLASH] + b);
      assert s[..n] == a[..n] && s[n..] == a[n..] + [SLASH] + b;
      NamesSlashed(a[n..], b);
      assert Names(s) == [a[..n]] + (Names(a[n..]) + Names(b));
    }
  }

  lemma {:induction false} NameLengthStable(a: seq<byte>, b: seq<byte>)
    requires b != [] && b[0] == SLASH
    ensures NameLength(a + b) == NameLength(a)
  {
    if a == [] {
      assert a + b == b;
    } else if a[0] != SLASH {
      assert (a + b)[1..] == a[1..] + b;
      NameLengthStable(a[1..], b);
    }
  }

  lemma {:induction false} SingleName(name: Name)
    requires name != [] && SLASH !in name
    ensures NameLength(name) == |name| && Names(name) == [name]
  {
    assert NameLength(name) == |name|;
    assert name[|name|..] == [] && name[..|name|] == name;
  }

  // Splitting a joined path gives its names back.
  lemma {:induction false} NamesOfJoin(names: seq<Name>)
    requires Plain(names)
    ensures Names(Join(names)) == names
    decreases |names|
  {
    if names == [] {
    } else if |names| == 1 {
      SingleName(names[0]);
      assert names == [names[0]];
    } else {
      var front := names[..|names| - 1];
      var last := names[|names| - 1];
      NamesOfJoin(front);
      NamesSlashed(Join(front), last);
      SingleName(last);
      assert names == front + [last];
    }
  }

  // ----- Reduction of "." and ".."

  datatype Stack = Fails | Holds(names: seq<Name>)

  // One name: "." is skipped, ".." drops the last name and fails at the root, any other
  // name is pushed if the path still fits the buffer.
  function Push(stack: seq<Name>, name: Name, capacity: nat): Stack {
    if IsDot(name) then Holds(stack)
    else if IsDotDot(name) then
      if stack == [] then Fails else Holds(stack[..|stack| - 1])
    else if |Join(stack + [name])| >= capacity then Fails
    else Holds(stack + [name])
  }

  function Reduce(stack: seq<Name>, names: seq<Name>, capacity: nat): Stack
    decreases |names|
  {
    if names == [] then Holds(stack)
    else
      match Push(stack, names[0], capacity)
      case Fails => Fails
      case Holds(next) => Reduce(next, names[1..], capacity)
  }

  ghost predicate Separated(names: seq<Name>) {
    forall i :: 0 <= i < |names| ==> names[i] != [] && SLASH !in names[i]
  }

  lemma {:induction false} NamesSeparated(s: seq<byte>)
    ensures Separated(Names(s))
    decreases |s|
  {
    if s != [] {
      if s[0] == SLASH {
        NamesSeparated(s[1..]);
      } else {
        var n := NameLength(s);
        assert n >= 1;
        NamesSeparated(s[n..]);
      }
    }
  }

  // What is left on the stack is plain: no empty, "." or ".." component survives, and the
  // path fits the buffer.
  lemma {:induction false} ReducedIsPlain(stack: seq<Name>, names: seq<Name>, capacity: nat)
    requires Plain(stack) && Separated(names) && |Join(stack)| < capacity
    requires Reduce(stack, names, capacity).Holds?
    ensures Plain(Reduce(stack, names, capacity).names)
    ensures |Join(Reduce(stack, names, capacity).names)| < capacity
    decreases |names|
  {
    if names != [] {
      var next := Push(stack, names[0], capacity).names;
      if IsDotDot(names[0]) {
        JoinShrinks(stack);
      }
      ReducedIsPlain(next, names[1..], capacity);
    }
  }

  lemma JoinShrinks(names: seq<Name>)
    requires names != []
    ensures |Join(names[..|names| - 1])| <= |Join(names)|
  {
  }

  // Plain names that fit are left alone.
  lemma {:induction false} PlainIsReduced(stack: seq<Name>, names: seq<Name>, capacity: nat)
    requires Plain(names) && |Join(stack + names)| < capacity
    ensures Reduce(stack, names, capacity) == Holds(stack + names)
    decreases |names|
  {
    if names == [] {
      assert stack + names == stack;
    } else {
      var more := stack + [names[0]];
      assert stack + names == more + names[1..];
      JoinPrefix(more, names[1..]);
      PlainIsReduced(more, names[1..], capacity);
    }
  }

  lemma {:induction false} JoinPrefix(a: seq<Name>, b: seq<Name>)
    ensures |Join(a)| <= |Join(a + b)|
    decreases |b|
  {
    if b == [] {
      assert a + b == a;
    } else {
      var ab := a + b;
      JoinShrinks(ab);
      assert ab[..|ab| - 1] == a + b[..|b| - 1];
      JoinPrefix(a, b[..|b| - 1]);
    }
  }

  // How far above or below the root a list of names leads.
  function Depth(names: seq<Name>): int {
    if names == [] then 0
    else Depth(names[..|names| - 1]) +
         (if IsDot(names[|names| - 1]) then 0 else if IsDotDot(names[|names| - 1]) then -1 else 1)
  }

  ghost predicate StaysInside(depth: int, names: seq<Name>) {
    forall k :: 0 <= k <= |names| ==> depth + Depth(names[..k]) >= 0
  }

  lemma {:induction false} DepthHead(names: seq<Name>)
    requires names != []
    ensures Depth(names) == Depth([names[0]]) + Depth(names[1..])
    decreases |names|
  {
    if |names| == 1 {
      assert names == [names[0]];
    } else {
      var front := names[..|names| - 1];
      DepthHead(front);
      assert names[1..][..|names[1..]| - 1] == front[1..];
    }
  }

  lemma DepthOne(name: Name)
    ensures Depth([name]) == if IsDot(name) then 0 else if IsDotDot(name) then -1 else 1
  {
    assert [name][..0] == [];
  }

  // An accepted path never climbs above the root, whatever the buffer.
  lemma {:induction false} AcceptedStaysInside(stack: seq<Name>, names: seq<Name>, capacity: nat)
    requires Reduce(stack, names, capacity).Holds?
    ensures StaysInside(|stack|, names)
    decreases |names|
  {
    if names == [] {
      assert names[..0] == [];
    } else {
      var next := Push(stack, names[0], capacity).names;
      DepthOne(names[0]);
      AcceptedStaysInside(next, names[1..], capacity);
      ShiftInside(|stack|, |next|, names);
    }
  }

  // A path that stays inside is accepted when the buffer has room for all its names.
  lemma {:induction false} InsideIsAccepted(stack: seq<Name>, names: seq<Name>, capacity: nat)
    requires StaysInside(|stack|, names)
    requires |Join(stack)| + TotalLength(names) < capacity
    ensures Reduce(stack, names, capacity).Holds?
    decreases |names|
  {
    if names != [] {
      var name, rest := names[0], names[1..];
      DepthOne(name);
      assert names[..1] == [name];
      assert |stack| + Depth(names[..1]) >= 0;
      JoinGrows(stack, name);
      if stack != [] {
        JoinShrinks(stack);
      }
      var next := Push(stack, name, capacity).names;
      ShiftInside(|stack|, |next|, names);
      InsideIsAccepted(next, rest, capacity);
    }
  }

  function TotalLength(names: seq<Name>): nat {
    if names == [] then 0 else |names[0]| + 1 + TotalLength(names[1..])
  }

  lemma JoinGrows(stack: seq<Name>, name: Name)
    ensures |Join(stack + [name])| <= |Join(stack)| + |name| + 1
  {
    assert (stack + [name])[..|stack|] == stack;
  }

  lemma ShiftInside(depth: int, next: int, names: seq<Name>)
    requires names != [] && depth >= 0 && next == depth + Depth([names[0]])
    ensures StaysInside(depth, names) <==> StaysInside(next, names[1..])
  {
    forall k | 1 <= k <= |names|
      ensures depth + Depth(names[..k]) == next + Depth(names[1..][..k - 1])
    {
      DepthHead(names[..k]);
      assert names[..k][1..] == names[1..][..k - 1];
    }
    if StaysInside(depth, names) {
      forall k | 0 <= k <= |names[1..]| ensures next + Depth(names[1..][..k]) >= 0 {
        assert depth + Depth(names[..k + 1]) >= 0;
      }
    }
    if StaysInside(next, names[1..]) {
      forall k | 0 <= k <= |names| ensures depth + Depth(names[..k]) >= 0 {
        if k == 0 {
          assert names[..0] == [];
        } else {
          assert next + Depth(names[1..][..k - 1]) >= 0;
        }
      }
    }
  }

  // ----- The reduction loop, in place

  // Where the last name of a joined path begins.
  function LastStart(names: seq<Name>): nat
    requires names != []
  {
    if |names| == 1 then 0 else |Join(names[..|names| - 1])| + 1
  }

  lemma JoinLast(names: seq<Name>)
    requires names != []
    ensures var s, cut, last := Join(names), LastStart(names), names[|names| - 1];
            && cut + |last| == |s| && s[cut..] == last
            && s[..if cut == 0 then 0 else cut - 1] == Join(names[..|names| - 1])
            && (cut > 0 ==> s[cut - 1] == SLASH)
  {
  }

  // ".." on the buffer: truncate at the last slash.
  method PopName(output: array<byte>, used: nat, ghost names: seq<Name>) returns (left: nat)
    requires used <= output.Length && names != [] && Plain(names) && output[..used] == Join(names)
    ensures left <= used && output[..left] == Join(names[..|names| - 1])
  {
    JoinLast(names);
    ghost var cut := LastStart(names);
    ghost var s := output[..used];
    assert forall i :: cut <= i < used ==> output[i] == s[cut..][i - cut];
    assert cut > 0 ==> output[cut - 1] == s[cut - 1];
    left := used;
    while left > 0 && output[left - 1] != SLASH
      invariant cut <= left <= used
    {
      left := left - 1;
    }
    assert left == cut;
    if left > 0 {
      left := left - 1;
    }
    assert output[..left] == s[..left];
  }

  method AppendName(output: array<byte>, used: nat, name: Name, ghost names: seq<Name>)
    returns (ok: bool, grown: nat)
    requires used < output.Length && output[..used] == Join(names) && (names != [] ==> used != 0)
    requires name != []
    modifies output
    ensures ok <==> |Join(names + [name])| < output.Length
    ensures ok ==> grown < output.Length && output[..grown] == Join(names + [name])
  {
    assert (names + [name])[..|names|] == names;
    grown := used;
    if used != 0 {
      if used + 1 >= output.Length {
        return false, used;
      }
      output[grown] := SLASH;
      grown := grown + 1;
      assert output[..grown] == Join(names) + [SLASH];
    }
    if grown + |name| >= output.Length {
      return false, grown;
    }
    ghost var before := output[..grown];
    var i := 0;
    while i < |name|
      invariant 0 <= i <= |name|
      invariant output[..grown + i] == before + name[..i]
    {
      output[grown + i] := name[i];
      i := i + 1;
    }
    assert name[..|name|] == name;
    grown := grown + |name|;
    ok := true;
  }

  // The next name from a cursor on; an empty one at the end of the path.
  method NextName(joined: seq<byte>, from: nat) returns (start: nat, cursor: nat)
    requires from <= |joined|
    ensures from <= start <= cursor <= |joined|
    ensures start == cursor ==> cursor == |joined| && Names(joined[from..]) == []
    ensures start < cursor ==>
              && Names(joined[from..]) == [joined[start..cursor]] + Names(joined[cursor..])
              && SLASH !in joined[start..cursor]
  {
    hide PlainName, Names, NameLength;
    start := SkipSlashes(joined, from);
    cursor := SkipName(joined, start);
    NameSplits(joined, start, cursor);
  }

  method SkipSlashes(joined: seq<byte>, from: nat) returns (start: nat)
    requires from <= |joined|
    ensures from <= start <= |joined| && (start < |joined| ==> joined[start] != SLASH)
    ensures Names(joined[from..]) == Names(joined[start..])
  {
    hide PlainName, NameLength;
    start := from;
    while start < |joined| && joined[start] == SLASH
      invariant from <= start <= |joined|
      invariant Names(joined[from..]) == Names(joined[start..])
    {
      assert joined[start..][1..] == joined[start + 1..];
      start := start + 1;
    }
  }

  method SkipName(joined: seq<byte>, start: nat) returns (cursor: nat)
    requires start <= |joined|
    ensures start <= cursor <= |joined| && NameLength(joined[start..]) == cursor - start
  {
    hide PlainName, Names;
    cursor := start;
    while cursor < |joined| && joined[cursor] != SLASH
      invariant start <= cursor <= |joined|
      invariant NameLength(joined[start..]) == cursor - start + NameLength(joined[cursor..])
    {
      assert joined[cursor..][1..] == joined[cursor + 1..];
      cursor := cursor + 1;
    }
  }

  lemma NameSplits(joined: seq<byte>, start: nat, cursor: nat)
    requires start <= cursor <= |joined| && NameLength(joined[start..]) == cursor - start
    requires start < |joined| ==> joined[start] != SLASH
    ensures start == cursor ==> cursor == |joined| && Names(joined[start..]) == []
    ensures start < cursor ==>
              && Names(joined[start..]) == [joined[start..cursor]] + Names(joined[cursor..])
              && SLASH !in joined[start..cursor]
  {
    hide PlainName;
    var rest := joined[start..];
    var n := cursor - start;
    assert rest[..n] == joined[start..cursor] && rest[n..] == joined[cursor..];
  }

  // One turn of the loop shared by epub_resolve_path and epub_normalize_archive_path: the
  // buffer holds the joined stack; the stack itself exists only in the proof.
  method PushName(output: array<byte>, used: nat, name: Name, ghost stack: seq<Name>)
    returns (ok: bool, left: nat)
    requires used < output.Length && Plain(stack) && output[..used] == Join(stack)
    requires name != [] && SLASH !in name
    modifies output
    ensures ok <==> Push(stack, name, output.Length).Holds?
    ensures ok ==>
              && left < output.Length && Plain(Push(stack, name, output.Length).names)
              && output[..left] == Join(Push(stack, name, output.Length).names)
  {
    JoinEmpty(stack);
    if name == [DOT] {
      return true, used;
    }
    if name == [DOT, DOT] {
      if used == 0 {
        return false, used;
      }
      left := PopName(output, used, stack);
      return true, left;
    }
    ok, left := AppendName(output, used, name, stack);
  }

  // The whole loop over the joined path.
  method ReducePath(joined: seq<byte>, output: array<byte>) returns (ok: bool, used: nat)
    requires output.Length >= 2
    modifies output
    ensures ok <==> Reduce([], Names(joined), output.Length).Holds?
    ensures ok ==> used < output.Length && output[..used] == Join(Reduce([], Names(joined), output.Length).names)
  {
    hide Push, Names, Join;
    used := 0;
    var cursor := 0;
    ghost var stack: seq<Name> := [];
    ghost var goal := Reduce([], Names(joined), output.Length);
    EmptyJoin();
    assert joined[0..] == joined;
    while cursor < |joined|
      invariant cursor <= |joined|
      invariant used < output.Length && output[..used] == Join(stack) && Plain(stack)
      invariant Reduce(stack, Names(joined[cursor..]), output.Length) == goal
    {
      ghost var from := cursor;
      var start;
      start, cursor := NextName(joined, cursor);
      if start == cursor {
        EmptyJoin();
        assert joined[cursor..] == [];
        continue;
      }
      var name := joined[start..cursor];
      assert Names(joined[from..])[1..] == Names(joined[cursor..]);
      var fits;
      fits, used := PushName(output, used, name, stack);
      if !fits {
        return false, used;
      }
      stack := Push(stack, name, output.Length).names;
    }
    EmptyJoin();
    assert joined[cursor..] == [];
    ok := true;
  }

  lemma EmptyJoin()
    ensures Join([]) == [] && Names([]) == []
  {
  }

  lemma JoinEmpty(names: seq<Name>)
    requires Plain(names)
    ensures Join(names) == [] <==> names == []
  {
  }

  // ----- Archive paths

  // Bytes that no archive path may contain.
  predicate Forbidden(b: byte) { b < 0x20 || b == 0x7f || b == BACKSLASH }

  ghost predicate Clean(s: seq<byte>) {
    forall i :: 0 <= i < |s| ==> !Forbidden(s[i])
  }

  // The common end of both resolvers: reduce, then require non-empty well-formed UTF-8.
  function Finished(joined: seq<byte>, capacity: nat): PathResult {
    match Reduce([], Names(joined), capacity)
    case Fails => Rejected
    case Holds(names) =>
      if WellFormed(Join(names)) && Join(names) != [] then Path(Join(names)) else Rejected
  }

  // epub_normalize_archive_path
  ghost function Normalized(source: seq<byte>, capacity: nat): PathResult {
    if source == [] || source[0] == SLASH || source[0] == BACKSLASH || capacity < 2 ||
       |source| >= ARCHIVE_PATH_CAPACITY || !Clean(source) then Rejected
    else Finished(source, capacity)
  }

  // The UTF-8 pass over the result.
  method CheckUtf8(text: seq<byte>) returns (ok: bool)
    ensures ok <==> WellFormed(text)
  {
    hide Decode;
    var cursor := 0;
    assert text[0..] == text;
    while cursor < |text|
      invariant cursor <= |text|
      invariant WellFormed(text) <==> WellFormed(text[cursor..])
    {
      var decoded := DecodeBytes(text[cursor..]);
      if !decoded.Complete? {
        return false;
      }
      DecodeIsSound(text[cursor..]);
      assert text[cursor..][decoded.length..] == text[cursor + decoded.length..];
      cursor := cursor + decoded.length;
    }
    assert text[cursor..] == [];
    return true;
  }

  method FinishPath(joined: seq<byte>, output: array<byte>) returns (ok: bool, used: nat)
    requires output.Length >= 2
    modifies output
    ensures ok <==> Finished(joined, output.Length).Path?
    ensures ok ==> used <= output.Length && output[..used] == Finished(joined, output.Length).bytes
  {
    hide Reduce, Names, Join, WellFormed;
    ok, used := ReducePath(joined, output);
    if ok {
      ok := CheckUtf8(output[..used]);
      ok := ok && used != 0;
    }
  }

  // The source looks for forbidden bytes while it walks the names; every byte of a path it
  // accepts has been looked at, so the check is one pass here.
  method NormalizeArchivePath(source: seq<byte>, output: array<byte>) returns (ok: bool, used: nat)
    modifies output
    ensures ok <==> Normalized(source, output.Length).Path?
    ensures ok ==> used <= output.Length && output[..used] == Normalized(source, output.Length).bytes
  {
    hide Finished;
    used := 0;
    if source == [] || source[0] == SLASH || source[0] == BACKSLASH || output.Length < 2 ||
       |source| >= ARCHIVE_PATH_CAPACITY {
      return false, used;
    }
    for i := 0 to |source|
      invariant Clean(source[..i])
    {
      if Forbidden(source[i]) {
        return false, used;
      }
    }
    assert source[..|source|] == source;
    ok, used := FinishPath(source, output);
  }

  function HexDigit(b: byte): int {
    if 0x30 <= b <= 0x39 then b - 0x30
    else if 0x61 <= b <= 0x66 then b - 0x61 + 10
    else if 0x41 <= b <= 0x46 then b - 0x41 + 10
    else -1
  }

  // Percent escapes of a reference decoded; an escaped or literal forbidden byte, or a
  // malformed escape, rejects the reference.
  function Unescaped(s: seq<byte>): PathResult
    decreases |s|
  {
    if s == [] then Path([])
    else if s[0] == 0x25 then
      if |s| < 3 || HexDigit(s[1]) < 0 || HexDigit(s[2]) < 0 then Rejected
      else Prepend(HexDigit(s[1]) * 16 + HexDigit(s[2]), Unescaped(s[3..]))
    else Prepend(s[0], Unescaped(s[1..]))
  }

  function Prepend(b: byte, rest: PathResult): PathResult {
    if Forbidden(b) || rest.Rejected? then Rejected else Path([b] + rest.bytes)
  }

  method Unescape(s: seq<byte>) returns (result: PathResult)
    ensures result == Unescaped(s)
  {
    var bytes: seq<byte> := [];
    var cursor := 0;
    assert s[0..] == s;
    while cursor < |s|
      invariant cursor <= |s|
      invariant Unescaped(s) == match Unescaped(s[cursor..])
                                case Rejected => Rejected
                                case Path(more) => Path(bytes + more)
    {
      ghost var rest := s[cursor..];
      var value: byte := s[cursor];
      cursor := cursor + 1;
      assert rest[1..] == s[cursor..];
      if value == 0x25 {
        if |s| - cursor < 2 {
          return Rejected;
        }
        var high, low := HexDigit(s[cursor]), HexDigit(s[cursor + 1]);
        if high < 0 || low < 0 {
          return Rejected;
        }
        value := high * 16 + low;
        cursor := cursor + 2;
        assert rest[3..] == s[cursor..];
      }
      assert Unescaped(rest) == Prepend(value, Unescaped(s[cursor..]));
      if Forbidden(value) {
        return Rejected;
      }
      ghost var after := Unescaped(s[cursor..]);
      assert after.Path? ==> bytes + ([value] + after.bytes) == (bytes + [value]) + after.bytes;
      bytes := bytes + [value];
    }
    assert s[cursor..] == [];
    return Path(bytes);
  }

  // The first place where one of the given bytes stands, or the end.
  function Find(s: seq<byte>, stops: set<byte>): (n: nat)
    ensures n <= |s|
    ensures forall i :: 0 <= i < n ==> s[i] !in stops
    ensures n < |s| ==> s[n] in stops
  {
    if s == [] || s[0] in stops then 0 else 1 + Find(s[1..], stops)
  }

  // Length of the directory part of a path, its last slash included.
  function DirectoryLength(s: seq<byte>): (n: nat)
    ensures n <= |s|
    ensures n > 0 ==> s[n - 1] == SLASH
    ensures forall i :: n <= i < |s| ==> s[i] != SLASH
  {
    if s == [] then 0
    else if s[|s| - 1] == SLASH then |s|
    else DirectoryLength(s[..|s| - 1])
  }

  // What a reference joins to before reduction: the directory of the base file followed by
  // the unescaped reference, without query and fragment.
  function Joined(base: seq<byte>, reference: seq<byte>): PathResult {
    var target := reference[..Find(reference, {0x23, 0x3f})];
    if target == [] || target[0] == SLASH || target[0] == BACKSLASH then Rejected
    else if Find(target, {0x3a}) < Find(target, {SLASH}) then Rejected
    else
      var prefix := DirectoryLength(base);
      if prefix + |target| >= ARCHIVE_PATH_CAPACITY * 2 then Rejected
      else
        match Unescaped(target)
        case Rejected => Rejected
        case Path(bytes) => Path(base[..prefix] + bytes)
  }

  // epub_resolve_path
  function Resolved(base: seq<byte>, reference: seq<byte>, capacity: nat): PathResult {
    if capacity < 2 then Rejected
    else
      match Joined(base, reference)
      case Rejected => Rejected
      case Path(joined) => Finished(joined, capacity)
  }

  method FindByte(s: seq<byte>, stops: set<byte>) returns (n: nat)
    ensures n == Find(s, stops)
  {
    n := 0;
    assert s[0..] == s;
    while n < |s| && s[n] !in stops
      invariant n <= |s|
      invariant Find(s, stops) == n + Find(s[n..], stops)
    {
      assert s[n..][1..] == s[n + 1..];
      n := n + 1;
    }
  }

  method ResolvePath(base: seq<byte>, reference: seq<byte>, output: array<byte>) returns (ok: bool, used: nat)
    modifies output
    ensures ok <==> Resolved(base, reference, output.Length).Path?
    ensures ok ==> used <= output.Length && output[..used] == Resolved(base, reference, output.Length).bytes
  {
    hide Finished, Unescaped, Find;
    used := 0;
    if output.Length < 2 {
      return false, used;
    }
    var end := FindByte(reference, {0x23, 0x3f});
    var target := reference[..end];
    if end == 0 || reference[0] == SLASH || reference[0] == BACKSLASH {
      return false, used;
    }
    var firstSlash := FindByte(target, {SLASH});
    var colon := FindByte(target, {0x3a});
    if colon != end && colon < firstSlash {
      return false, used;
    }
    var prefix := |base|;
    assert base[..|base|] == base;
    while prefix > 0 && base[prefix - 1] != SLASH
      invariant 0 <= prefix <= |base|
      invariant DirectoryLength(base) == DirectoryLength(base[..prefix])
    {
      assert base[..prefix][..prefix - 1] == base[..prefix - 1];
      prefix := prefix - 1;
    }
    if prefix + end >= ARCHIVE_PATH_CAPACITY * 2 {
      return false, used;
    }
    var unescaped := Unescape(target);
    if unescaped.Rejected? {
      return false, used;
    }
    ok, used := FinishPath(base[..prefix] + unescaped.bytes, output);
  }

  // ----- What an accepted path is

  // A non-empty list of plain names that fits the buffer, is well-formed UTF-8, and whose
  // reference never climbed above the archive root.
  ghost predicate Good(path: seq<byte>, names: seq<Name>, capacity: nat) {
    Plain(names) && names != [] && path == Join(names) && |path| < capacity && WellFormed(path)
  }

  lemma FinishedIsGood(joined: seq<byte>, capacity: nat) returns (names: seq<Name>)
    requires capacity >= 2 && Finished(joined, capacity).Path?
    ensures Good(Finished(joined, capacity).bytes, names, capacity)
    ensures StaysInside(0, Names(joined))
  {
    hide WellFormed;
    names := Reduce([], Names(joined), capacity).names;
    NamesSeparated(joined);
    ReducedIsPlain([], Names(joined), capacity);
    AcceptedStaysInside([], Names(joined), capacity);
  }

  // Resolving never yields an empty, "." or ".." component and never leaves the root.
  lemma ResolvedIsGood(base: seq<byte>, reference: seq<byte>, capacity: nat)
    requires Resolved(base, reference, capacity).Path?
    ensures exists names :: Good(Resolved(base, reference, capacity).bytes, names, capacity)
    ensures StaysInside(0, Names(Joined(base, reference).bytes))
  {
    hide Finished, Joined, Good, StaysInside, Names;
    var names := FinishedIsGood(Joined(base, reference).bytes, capacity);
  }

  // An accepted path is left as it is.
  lemma GoodIsFinished(path: seq<byte>, names: seq<Name>, capacity: nat)
    requires Good(path, names, capacity)
    ensures Finished(path, capacity) == Path(path)
  {
    hide WellFormed;
    NamesOfJoin(names);
    assert [] + names == names;
    PlainIsReduced([], names, capacity);
    JoinEmpty(names);
  }

  lemma FirstIsNoSlash(path: seq<byte>, names: seq<Name>)
    requires Plain(names) && names != [] && path == Join(names)
    ensures path != [] && path[0] != SLASH
    decreases |names|
  {
    assert PlainName(names[0]) && names[0][0] in names[0];
    if |names| > 1 {
      FirstIsNoSlash(Join(names[..|names| - 1]), names[..|names| - 1]);
    }
  }

  // Normalizing an accepted path again gives it back exactly when it is short enough for an
  // archive path and free of forbidden bytes.
  lemma GoodIsFixedPoint(path: seq<byte>, names: seq<Name>, capacity: nat)
    requires capacity >= 2 && Good(path, names, capacity)
    ensures Normalized(path, capacity) == Path(path) <==> |path| < ARCHIVE_PATH_CAPACITY && Clean(path)
  {
    hide Finished, WellFormed;
    GoodIsFinished(path, names, capacity);
    FirstIsNoSlash(path, names);
  }

  // Normalization is idempotent.
  lemma NormalizeTwice(source: seq<byte>, capacity: nat)
    requires Normalized(source, capacity).Path?
    ensures Normalized(Normalized(source, capacity).bytes, capacity) == Normalized(source, capacity)
  {
    hide Finished, WellFormed, Join, Reduce;
    var path := Normalized(source, capacity).bytes;
    var names := FinishedIsGood(source, capacity);
    GoodIsFixedPoint(path, names, capacity);
    FinishedFrom(source, capacity);
    assert Clean(path);
  }

  // Resolving is followed by nothing that normalization would still change, provided the
  // directory of the base file is clean and the buffer is an archive path buffer.
  lemma ResolvedIsNormal(base: seq<byte>, reference: seq<byte>, capacity: nat)
    requires Resolved(base, reference, capacity).Path?
    ensures var path := Resolved(base, reference, capacity).bytes;
            Normalized(path, capacity) == Path(path) <==> |path| < ARCHIVE_PATH_CAPACITY && Clean(path)
    ensures Clean(base) ==> Clean(Resolved(base, reference, capacity).bytes)
  {
    hide Finished, WellFormed, Join, Reduce, Joined, Names;
    var joined := Joined(base, reference).bytes;
    var names := FinishedIsGood(joined, capacity);
    GoodIsFixedPoint(Finished(joined, capacity).bytes, names, capacity);
    if Clean(base) {
      JoinedClean(base, reference);
      FinishedFrom(joined, capacity);
    }
  }

  // What a caller can check beforehand: a clean base file and an archive path buffer.
  lemma ResolvedIsFixedPoint(base: seq<byte>, reference: seq<byte>, capacity: nat)
    requires Clean(base) && capacity <= ARCHIVE_PATH_CAPACITY
    ensures var r := Resolved(base, reference, capacity); r.Path? ==> Normalized(r.bytes, capacity) == r
  {
    hide Finished, WellFormed, Join, Reduce, Joined, Names, Normalized, Clean;
    if Resolved(base, reference, capacity).Path? {
      ResolvedIsNormal(base, reference, capacity);
      ResolvedFits(base, reference, capacity);
    }
  }

  lemma ResolvedFits(base: seq<byte>, reference: seq<byte>, capacity: nat)
    requires Resolved(base, reference, capacity).Path?
    ensures |Resolved(base, reference, capacity).bytes| < capacity
  {
    hide Finished, WellFormed, Join, Reduce, Joined, Names;
    var names := FinishedIsGood(Joined(base, reference).bytes, capacity);
  }

  lemma JoinedClean(base: seq<byte>, reference: seq<byte>)
    requires Clean(base) && Joined(base, reference).Path?
    ensures Clean(Joined(base, reference).bytes)
  {
    hide Unescaped, Find;
    var target := reference[..Find(reference, {0x23, 0x3f})];
    UnescapedClean(target);
  }

  lemma {:induction false} UnescapedClean(s: seq<byte>)
    requires Unescaped(s).Path?
    ensures Clean(Unescaped(s).bytes)
    decreases |s|
  {
    if s != [] {
      UnescapedClean(if s[0] == 0x25 then s[3..] else s[1..]);
    }
  }

  // Every byte of an accepted path is a byte of the joined one, or a slash.
  ghost predicate MadeOf(path: seq<byte>, source: seq<byte>) {
    forall i :: 0 <= i < |path| ==> path[i] in source || path[i] == SLASH
  }

  lemma FinishedFrom(joined: seq<byte>, capacity: nat)
    requires Finished(joined, capacity).Path?
    ensures |Finished(joined, capacity).bytes| <= |joined|
    ensures MadeOf(Finished(joined, capacity).bytes, joined)
  {
    hide WellFormed;
    NamesFrom(joined);
    EmptyJoin();
    ReducedFrom([], Names(joined), capacity, joined);
  }

  ghost predicate AllMadeOf(names: seq<Name>, source: seq<byte>) {
    forall i, b :: 0 <= i < |names| && b in names[i] ==> b in source
  }

  lemma {:induction false} NamesFrom(s: seq<byte>)
    ensures TotalLength(Names(s)) <= |s| + 1
    ensures AllMadeOf(Names(s), s)
    decreases |s|
  {
    if s == [] {
    } else if s[0] == SLASH {
      NamesFrom(s[1..]);
      FromSuffix(Names(s), s, 1);
    } else {
      var n := NameLength(s);
      NamesFrom(s[n..]);
      FromSuffix(Names(s[n..]), s, n);
      if n < |s| {
        NamesFrom(s[n + 1..]);
        assert s[n..][1..] == s[n + 1..];
      } else {
        assert s[n..] == [];
      }
    }
  }

  lemma FromSuffix(names: seq<Name>, s: seq<byte>, n: nat)
    requires n <= |s| && AllMadeOf(names, s[n..])
    ensures AllMadeOf(names, s)
  {
    forall i, b | 0 <= i < |names| && b in names[i] ensures b in s {
      assert b in s[n..];
    }
  }

  lemma {:induction false} ReducedFrom(stack: seq<Name>, names: seq<Name>, capacity: nat, source: seq<byte>)
    requires Reduce(stack, names, capacity).Holds?
    requires AllMadeOf(stack, source) && AllMadeOf(names, source)
    ensures AllMadeOf(Reduce(stack, names, capacity).names, source)
    ensures MadeOf(Join(Reduce(stack, names, capacity).names), source)
    ensures SlashedLength(Reduce(stack, names, capacity).names) <= SlashedLength(stack) + TotalLength(names)
    decreases |names|
  {
    if names == [] {
      JoinMadeOf(stack, source);
    } else {
      var next := Push(stack, names[0], capacity).names;
      JoinGrows(stack, names[0]);
      if stack != [] {
        JoinShrinks(stack);
      }
      ReducedFrom(next, names[1..], capacity, source);
    }
  }

  // Length of a joined path with a slash after every name.
  function SlashedLength(names: seq<Name>): nat { if names == [] then 0 else |Join(names)| + 1 }

  lemma {:induction false} JoinMadeOf(names: seq<Name>, source: seq<byte>)
    requires AllMadeOf(names, source)
    ensures MadeOf(Join(names), source)
    decreases |names|
  {
    if |names| > 1 {
      JoinMadeOf(names[..|names| - 1], source);
    }
  }
}
