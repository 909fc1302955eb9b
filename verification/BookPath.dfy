// book_canonical_path of services/book/book_format.cpp: the one spelling under which a
// book's cache directory is found.
module BookPath {
  import opened Utf8
  import opened Paths

  // Characters the canonicalizer rejects, by code point.
  predicate BadChar(cp: nat) { cp < 0x20 || cp == 0x7f || cp == 0x5c }

  predicate GoodText(s: seq<byte>) {
    s == [] ||
    (Decode(s).Complete? && 1 <= Decode(s).length <= |s| && !BadChar(Decode(s).codepoint) &&
     GoodText(s[Decode(s).length..]))
  }

  function Canonical(source: seq<byte>, capacity: nat): PathResult {
    if source == [] || source[0] != SLASH || capacity < 2 || |source| >= BOOK_PATH_CAPACITY then Rejected
    else if !GoodText(source) then Rejected
    else
      var names := Names(source);
      if exists i :: 0 <= i < |names| && (IsDot(names[i]) || IsDotDot(names[i])) then Rejected
      else if names == [] || 1 + |Join(names)| >= capacity then Rejected
      else Path([SLASH] + Join(names))
  }

  // The names pushed so far fit, and none of them is a dot name.
  ghost predicate Walked(source: seq<byte>, cursor: nat, names: seq<Name>, capacity: nat)
    requires cursor <= |source|
  {
    && Names(source) == names + Names(source[cursor..])
    && Plain(names)
    && 1 + |Join(names)| < capacity
  }

  method CheckText(source: seq<byte>) returns (ok: bool)
    ensures ok <==> GoodText(source)
  {
    hide Decode;
    var i := 0;
    assert source[0..] == source;
    while i < |source|
      invariant 0 <= i <= |source|
      invariant GoodText(source) <==> GoodText(source[i..])
    {
      var decoded := DecodeBytes(source[i..]);
      if !decoded.Complete? || decoded.codepoint < 0x20 || decoded.codepoint == 0x7f || decoded.codepoint == 0x5c {
        return false;
      }
      DecodeIsSound(source[i..]);
      assert source[i..][decoded.length..] == source[i + decoded.length..];
      i := i + decoded.length;
    }
    assert source[i..] == [];
    return true;
  }

  // The output buffer behind its leading slash.
  method PushCanonical(output: array<byte>, used: nat, name: Name, ghost names: seq<Name>)
    returns (ok: bool, grown: nat)
    requires 1 <= used < output.Length && Plain(names) && PlainName(name)
    requires output[..used] == [SLASH] + Join(names)
    modifies output
    ensures ok <==> 1 + |Join(names + [name])| < output.Length
    ensures ok ==> used < grown < output.Length && output[..grown] == [SLASH] + Join(names + [name])
  {
    JoinEmpty(names);
    assert (names + [name])[..|names|] == names;
    var separator := if used > 1 then 1 else 0;
    grown := used;
    if used + separator + |name| >= output.Length {
      return false, used;
    }
    if separator != 0 {
      output[grown] := SLASH;
      grown := grown + 1;
      assert output[..grown] == [SLASH] + Join(names) + [SLASH];
    }
    ghost var before := output[..grown];
    var i := 0;
    while i < |name|
      invariant 0 <= i <= |name|
      invariant output[..grown + i] == before + name[..i]
    {
      output[grown + i] := name[i];
      i := i + 1;
    }
    assert name[..|name|] == name;
    grown := grown + |name|;
    ok := true;
  }

  method CanonicalPath(source: seq<byte>, output: array<byte>) returns (ok: bool, used: nat)
    modifies output
    ensures ok <==> Canonical(source, output.Length).Path?
    ensures ok ==> used <= output.Length && output[..used] == Canonical(source, output.Length).bytes
  {
    hide Join, Names, GoodText;
    used := 0;
    if source == [] || source[0] != SLASH || output.Length < 2 || |source| >= BOOK_PATH_CAPACITY {
      return false, used;
    }
    var good := CheckText(source);
    if !good {
      return false, used;
    }
    output[0] := SLASH;
    used := 1;
    ghost var names: seq<Name> := [];
    EmptyJoin();
    NamesAfterSlash(source);
    assert [] + Names(source[1..]) == Names(source[1..]);
    var i := 1;
    while i < |source|
      invariant 1 <= i <= |source|
      invariant 1 <= used < output.Length && output[..used] == [SLASH] + Join(names)
      invariant Walked(source, i, names, output.Length)
    {
      ghost var from := i;
      var start;
      start, i := NextName(source, i);
      if start == i {
        assert source[i..] == [];
        EmptyJoin();
        break;
      }
      var name := source[start..i];
      assert Names(source) == (names + [name]) + Names(source[i..]);
      assert Names(source)[|names|] == name;
      if name == [DOT] || name == [DOT, DOT] {
        return false, used;
      }
      var fits;
      fits, used := PushCanonical(output, used, name, names);
      names := names + [name];
      if !fits {
        JoinPrefix(names, Names(source[i..]));
        return false, used;
      }
    }
    EmptyJoin();
    assert source[i..] == [];
    assert names + [] == names;
    JoinEmpty(names);
    ok := used > 1;
  }

  lemma NamesAfterSlash(source: seq<byte>)
    requires source != [] && source[0] == SLASH
    ensures Names(source) == Names(source[1..])
  {
  }

  // ----- Idempotence

  // Text is good when it is well formed and none of its bytes is a rejected character.
  lemma {:induction false} GoodTextBytes(s: seq<byte>)
    ensures GoodText(s) <==> WellFormed(s) && Clean(s)
    decreases |s|
  {
    hide Decode, Encode;
    if s != [] && Decode(s).Complete? {
      var cp, n := Decode(s).codepoint, Decode(s).length;
      DecodeIsSound(s);
      GoodTextBytes(s[n..]);
      CharBytes(cp);
      assert forall i :: 0 <= i < n ==> s[i] == s[..n][i];
      assert s == s[..n] + s[n..];
      if Clean(s) {
        assert Clean(s[n..]) && !Forbidden(s[0]);
      }
      if Clean(s[n..]) && !BadChar(cp) {
        forall i | 0 <= i < |s| ensures !Forbidden(s[i]) {
          assert i >= n ==> s[i] == s[n..][i - n];
        }
      }
    }
  }

  // Only one-byte characters have bytes below 0x80.
  lemma CharBytes(cp: nat)
    requires IsScalar(cp)
    ensures forall i :: 0 <= i < |Encode(cp)| ==> Encode(cp)[i] >= 0x80 || cp == Encode(cp)[i]
    ensures cp < 0x80 ==> Encode(cp) == [cp]
    ensures cp >= 0x80 ==> Encode(cp)[0] >= 0x80
  {
  }

  // A slash is a character of its own, so cutting there keeps text well formed.
  lemma {:induction false} CutAtSlash(s: seq<byte>, k: nat)
    requires WellFormed(s) && k < |s| && s[k] == SLASH
    ensures WellFormed(s[..k]) && WellFormed(s[k + 1..])
    decreases |s|
  {
    hide Decode, Encode;
    var cp, n := Decode(s).codepoint, Decode(s).length;
    DecodeIsSound(s);
    CharBytes(cp);
    if k < n {
      assert s[..n][k] == SLASH;
      assert cp == SLASH && n == 1 && k == 0;
      assert s[..0] == [];
    } else {
      CutAtSlash(s[n..], k - n);
      assert s[n..][..k - n] == s[n..k];
      assert s[n..][k - n + 1..] == s[k + 1..];
      assert s[..k] == s[..n] + s[n..k];
      SingleWhole(s, n);
      WellFormedConcat(s[..n], s[n..k]);
    }
  }

  lemma SingleWhole(s: seq<byte>, n: nat)
    requires Decode(s).Complete? && n == Decode(s).length <= |s|
    ensures WellFormed(s[..n])
  {
    hide Decode, Encode;
    DecodeIsSound(s);
    DecodePrefix(s, n);
    assert s[..n][n..] == [];
  }

  lemma {:induction false} NamesWellFormed(s: seq<byte>)
    requires WellFormed(s)
    ensures forall i :: 0 <= i < |Names(s)| ==> WellFormed(Names(s)[i])
    decreases |s|
  {
    hide Decode, WellFormed;
    if s != [] {
      var n := NameLength(s);
      if n == |s| {
        assert s[n..] == [] && s[..n] == s;
      } else {
        CutAtSlash(s, n);
        NamesWellFormed(s[n + 1..]);
        if n == 0 {
          assert s[1..] == s[0 + 1..];
        } else {
          assert s[n..][0] == SLASH && s[n..][1..] == s[n + 1..];
          assert Names(s) == [s[..n]] + Names(s[n + 1..]);
        }
      }
    }
  }

  lemma {:induction false} JoinWellFormed(names: seq<Name>)
    requires forall i :: 0 <= i < |names| ==> WellFormed(names[i])
    ensures WellFormed(Join(names))
    decreases |names|
  {
    hide Decode;
    if |names| > 1 {
      var front, last := Join(names[..|names| - 1]), names[|names| - 1];
      JoinWellFormed(names[..|names| - 1]);
      SlashWellFormed();
      WellFormedConcat(front, [SLASH]);
      WellFormedConcat(front + [SLASH], last);
    }
  }

  lemma SlashWellFormed()
    ensures WellFormed([SLASH])
  {
    SingleChar(SLASH);
  }

  lemma SingleChar(cp: nat)
    requires cp < 0x80
    ensures WellFormed([cp])
  {
    DecodeIsComplete(cp, []);
    assert Encode(cp) + [] == [cp];
  }

  // The canonical form of a path that starts with a slash is its names, each behind one slash,
  // provided that it is well-formed text without control characters and backslashes, that it has
  // names and none of them is "." or "..", and that it fits.
  lemma CanonicalMeans(source: seq<byte>, capacity: nat)
    ensures var names := Names(source);
            Canonical(source, capacity) ==
            if && source != [] && source[0] == SLASH && |source| < BOOK_PATH_CAPACITY
               && WellFormed(source) && (forall b :: b in source ==> b >= ' ' as int && b != 0x7f && b != BACKSLASH)
               && names != [] && [DOT] !in names && [DOT, DOT] !in names && |Join(names)| + 1 < capacity
            then Path([SLASH] + Join(names)) else Rejected
  {
    hide WellFormed, GoodText, Names, Join;
    GoodTextBytes(source);
    CleanBytes(source);
  }

  lemma CleanBytes(s: seq<byte>)
    ensures Clean(s) <==> forall b :: b in s ==> b >= ' ' as int && b != 0x7f && b != BACKSLASH
  {
    if forall b :: b in s ==> b >= ' ' as int && b != 0x7f && b != BACKSLASH {
      forall i | 0 <= i < |s| ensures !Forbidden(s[i]) {
        assert s[i] in s;
      }
    }
  }

  // A canonical path is its own canonical form, and its names are exactly those of the
  // path it came from.
  lemma CanonicalTwice(source: seq<byte>, capacity: nat)
    requires Canonical(source, capacity).Path?
    ensures Canonical(Canonical(source, capacity).bytes, capacity) == Canonical(source, capacity)
    ensures Names(Canonical(source, capacity).bytes) == Names(source)
  {
    hide WellFormed, GoodText;
    var names := Names(source);
    var path := Canonical(source, capacity).bytes;
    NamesSeparated(source);
    NamesOfJoin(names);
    assert path[1..] == Join(names);
    NamesAfterSlash(path);
    CanonicalText(source, names);
  }

  // The canonical spelling is as good a text as the source, and no longer.
  lemma CanonicalText(source: seq<byte>, names: seq<Name>)
    requires source != [] && source[0] == SLASH && GoodText(source) && names == Names(source) && Plain(names)
    ensures GoodText([SLASH] + Join(names))
    ensures |[SLASH] + Join(names)| <= |source|
  {
    hide WellFormed, GoodText, Names, Join;
    var path := [SLASH] + Join(names);
    GoodTextBytes(source);
    GoodTextBytes(path);
    NamesWellFormed(source);
    JoinWellFormed(names);
    SlashWellFormed();
    WellFormedConcat([SLASH], Join(names));
    NamesAfterSlash(source);
    NamesFrom(source[1..]);
    FromSuffix(names, source, 1);
    JoinMadeOf(names, source);
    JoinBound(names);
    forall i | 0 <= i < |path| ensures !Forbidden(path[i]) {
      assert i > 0 ==> path[i] == Join(names)[i - 1];
    }
  }

  lemma {:induction false} JoinBound(names: seq<Name>)
    ensures |Join(names)| <= if names == [] then 0 else TotalLength(names) - 1
    decreases |names|
  {
    if |names| > 1 {
      var front := names[..|names| - 1];
      JoinBound(front);
      TotalSnoc(front, names[|names| - 1]);
      assert names == front + [names[|names| - 1]];
    }
  }

  lemma {:induction false} TotalSnoc(names: seq<Name>, name: Name)
    ensures TotalLength(names + [name]) == TotalLength(names) + |name| + 1
  {
    if names == [] {
      assert [] + [name] == [name];
      assert [name][1..] == [];
    } else {
      assert (names + [name])[1..] == names[1..] + [name];
      TotalSnoc(names[1..], name);
    }
  }
}
