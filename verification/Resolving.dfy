// What a relative reference in an EPUB package means, spelt out: the file it names beside the
// file it stands in.
module Resolving {
  import opened Utf8
  import opened Paths

  const DIGITS: string := "0123456789ABCDEF0123456789abcdef"

  // How a byte is written: as it is, or as a percent escape with each digit large or small.
  datatype Spelling = AsIs | Escaped(smallHigh: bool, smallLow: bool)

  function HexByte(d: nat, small: bool): byte
    requires d < 16
  {
    var c := DIGITS[if small then 16 + d else d];
    if c < 0x80 as char then c as int else 0
  }

  function WrittenByte(b: byte, how: Spelling): seq<byte> {
    match how
    case AsIs => [b]
    case Escaped(high, low) => ['%' as int, HexByte(b / 16, high), HexByte(b % 16, low)]
  }

  function Written(bytes: seq<byte>, how: seq<Spelling>): seq<byte>
    requires |how| == |bytes|
  {
    if bytes == [] then [] else WrittenByte(bytes[0], how[0]) + Written(bytes[1..], how[1..])
  }

  // What must be escaped: the percent sign, and what would end the path. A colon must be
  // behind a slash, and the first byte may not be a slash.
  ghost predicate Writable(bytes: seq<byte>, how: seq<Spelling>) {
    && |how| == |bytes|
    && (forall i :: 0 <= i < |bytes| && how[i] == AsIs ==>
          bytes[i] != '%' as int && bytes[i] != '#' as int && bytes[i] != '?' as int)
    && (forall i :: 0 <= i < |bytes| && how[i] == AsIs && bytes[i] == ':' as int ==> SlashBefore(bytes, how, i))
    && bytes != [] && bytes[0] != SLASH
  }

  ghost predicate SlashBefore(bytes: seq<byte>, how: seq<Spelling>, i: nat)
    requires |how| == |bytes|
  {
    exists j :: 0 <= j < i && j < |bytes| && how[j] == AsIs && bytes[j] == SLASH
  }

  // "../" so many times.
  function Climb(ups: nat): seq<byte> { if ups == 0 then [] else [DOT, DOT, SLASH] + Climb(ups - 1) }

  function Ups(n: nat): seq<Name> { seq(n, _ => [DOT, DOT]) }

  function DirectoryBytes(dir: seq<Name>): seq<byte> { if dir == [] then [] else Join(dir) + [SLASH] }

  // ----- Escapes decode to the bytes they spell

  lemma HexByteMeans(d: nat, small: bool)
    requires d < 16
    ensures HexDigit(HexByte(d, small)) == d
  {
  }

  lemma {:induction false} WrittenDecodes(bytes: seq<byte>, how: seq<Spelling>)
    requires |how| == |bytes| && Clean(bytes)
    requires forall i :: 0 <= i < |bytes| && how[i] == AsIs ==> bytes[i] != '%' as int
    ensures Unescaped(Written(bytes, how)) == Path(bytes)
    decreases |bytes|
  {
    hide HexDigit, HexByte;
    if bytes != [] {
      var b := bytes[0];
      var rest := Written(bytes[1..], how[1..]);
      WrittenDecodes(bytes[1..], how[1..]);
      assert bytes == [b] + bytes[1..];
      var s := WrittenByte(b, how[0]) + rest;
      if how[0] == AsIs {
        assert s[1..] == rest;
      } else {
        HexByteMeans(b / 16, how[0].smallHigh);
        HexByteMeans(b % 16, how[0].smallLow);
        assert s[3..] == rest;
      }
    }
  }

  // And nothing else is accepted: an escape without two digits, or a forbidden byte, escaped
  // or not, rejects the reference.
  lemma {:induction false} AcceptedIsWritten(s: seq<byte>) returns (how: seq<Spelling>)
    requires Unescaped(s).Path?
    ensures |how| == |Unescaped(s).bytes| && Clean(Unescaped(s).bytes) && Written(Unescaped(s).bytes, how) == s
    ensures forall i :: 0 <= i < |how| && how[i] == AsIs ==> Unescaped(s).bytes[i] != '%' as int
    decreases |s|
  {
    hide HexDigit, HexByte;
    if s == [] {
      how := [];
    } else if s[0] == 0x25 {
      var high := HexSpelt(s[1]);
      var low := HexSpelt(s[2]);
      var rest := AcceptedIsWritten(s[3..]);
      how := [Escaped(high, low)] + rest;
      var b := HexDigit(s[1]) * 16 + HexDigit(s[2]);
      HexBelow(s[1]);
      HexBelow(s[2]);
      assert b / 16 == HexDigit(s[1]) && b % 16 == HexDigit(s[2]);
      assert Unescaped(s).bytes == [b] + Unescaped(s[3..]).bytes;
      assert Unescaped(s).bytes[1..] == Unescaped(s[3..]).bytes && how[1..] == rest;
      assert s == [s[0], s[1], s[2]] + s[3..];
    } else {
      var rest := AcceptedIsWritten(s[1..]);
      how := [AsIs] + rest;
      assert Unescaped(s).bytes == [s[0]] + Unescaped(s[1..]).bytes;
      assert Unescaped(s).bytes[1..] == Unescaped(s[1..]).bytes && how[1..] == rest;
      assert s == [s[0]] + s[1..];
    }
  }

  lemma HexBelow(b: byte)
    ensures HexDigit(b) < 16
  {
  }

  lemma HexSpelt(b: byte) returns (small: bool)
    requires HexDigit(b) >= 0
    ensures HexDigit(b) < 16 && HexByte(HexDigit(b), small) == b
  {
    small := 0x61 <= b <= 0x66;
  }

  // ----- Where the target ends, and where its first segment does

  lemma {:induction false} FindBehind(s: seq<byte>, tail: seq<byte>, stops: set<byte>)
    requires forall b :: b in s ==> b !in stops
    requires tail == [] || tail[0] in stops
    ensures Find(s + tail, stops) == |s|
  {
    if s == [] {
      assert s + tail == tail;
    } else {
      assert s[0] in s && (s + tail)[0] == s[0];
      assert (s + tail)[1..] == s[1..] + tail;
      FindBehind(s[1..], tail, stops);
    }
  }

  lemma HexIsNoStop(d: nat, small: bool)
    requires d < 16
    ensures HexByte(d, small) !in {0x23, 0x3f, 0x3a, SLASH}
  {
  }

  lemma {:induction false} NoStopWritten(bytes: seq<byte>, how: seq<Spelling>)
    requires |how| == |bytes|
    requires forall i :: 0 <= i < |bytes| && how[i] == AsIs ==> bytes[i] != 0x23 && bytes[i] != 0x3f
    ensures forall b :: b in Written(bytes, how) ==> b !in {0x23, 0x3f}
    decreases |bytes|
  {
    hide HexByte;
    if bytes != [] {
      NoStopWritten(bytes[1..], how[1..]);
      if how[0] != AsIs {
        HexIsNoStop(bytes[0] / 16, how[0].smallHigh);
        HexIsNoStop(bytes[0] % 16, how[0].smallLow);
      }
    }
  }

  // A colon does not come before the first slash.
  lemma {:induction false} NoScheme(bytes: seq<byte>, how: seq<Spelling>)
    requires |how| == |bytes|
    requires forall i :: 0 <= i < |bytes| && how[i] == AsIs && bytes[i] == 0x3a ==> SlashBefore(bytes, how, i)
    ensures Find(Written(bytes, how), {SLASH}) <= Find(Written(bytes, how), {0x3a})
    decreases |bytes|
  {
    hide HexByte;
    if bytes != [] {
      var w, rest := WrittenByte(bytes[0], how[0]), Written(bytes[1..], how[1..]);
      if how[0] == AsIs {
        assert (w + rest)[1..] == rest;
        if bytes[0] != SLASH {
          assert bytes[0] != 0x3a by { assert !SlashBefore(bytes, how, 0); }
          ColonsBehind(bytes, how);
          NoScheme(bytes[1..], how[1..]);
        }
      } else {
        HexIsNoStop(bytes[0] / 16, how[0].smallHigh);
        HexIsNoStop(bytes[0] % 16, how[0].smallLow);
        SkipThree(w, rest, {SLASH});
        SkipThree(w, rest, {0x3a});
        ColonsBehind(bytes, how);
        NoScheme(bytes[1..], how[1..]);
      }
    }
  }

  lemma SkipThree(w: seq<byte>, rest: seq<byte>, stops: set<byte>)
    requires |w| == 3 && w[0] !in stops && w[1] !in stops && w[2] !in stops
    ensures Find(w + rest, stops) == 3 + Find(rest, stops)
  {
    var s := w + rest;
    assert s[1..][1..] == s[2..] && s[2..][1..] == rest;
  }

  lemma ColonsBehind(bytes: seq<byte>, how: seq<Spelling>)
    requires |how| == |bytes| && bytes != [] && (how[0] == AsIs ==> bytes[0] != SLASH)
    requires forall i :: 0 <= i < |bytes| && how[i] == AsIs && bytes[i] == 0x3a ==> SlashBefore(bytes, how, i)
    ensures forall i :: 0 <= i < |bytes[1..]| && how[1..][i] == AsIs && bytes[1..][i] == 0x3a ==>
              SlashBefore(bytes[1..], how[1..], i)
  {
    forall i | 0 <= i < |bytes[1..]| && how[1..][i] == AsIs && bytes[1..][i] == 0x3a
      ensures SlashBefore(bytes[1..], how[1..], i)
    {
      assert SlashBefore(bytes, how, i + 1);
      var j :| 0 <= j < i + 1 && j < |bytes| && how[j] == AsIs && bytes[j] == SLASH;
      assert how[1..][j - 1] == AsIs && bytes[1..][j - 1] == SLASH;
    }
  }

  lemma {:induction false} DirectoryEnds(dir: seq<byte>, file: seq<byte>)
    requires dir == [] || dir[|dir| - 1] == SLASH
    requires SLASH !in file
    ensures DirectoryLength(dir + file) == |dir|
    decreases |file|
  {
    var s := dir + file;
    if file == [] {
      assert s == dir;
    } else {
      assert s[|s| - 1] == file[|file| - 1] && file[|file| - 1] in file;
      assert s[..|s| - 1] == dir + file[..|file| - 1];
      DirectoryEnds(dir, file[..|file| - 1]);
    }
  }

  // ----- The names

  lemma {:induction false} NamesClimbing(ups: nat, rest: seq<byte>)
    ensures Names(Climb(ups) + rest) == Ups(ups) + Names(rest)
  {
    hide Names;
    if ups == 0 {
      assert Climb(0) + rest == rest && Ups(0) + Names(rest) == Names(rest);
    } else {
      var more := Climb(ups - 1) + rest;
      NamesClimbing(ups - 1, rest);
      assert Climb(ups) + rest == [DOT, DOT] + [SLASH] + more;
      NamesSlashed([DOT, DOT], more);
      SingleName([DOT, DOT]);
      assert Ups(ups) + Names(rest) == [[DOT, DOT]] + (Ups(ups - 1) + Names(rest));
    }
  }

  lemma NamesBelow(dir: seq<Name>, rest: seq<byte>)
    requires Plain(dir)
    ensures Names(DirectoryBytes(dir) + rest) == dir + Names(rest)
  {
    if dir == [] {
      assert [] + rest == rest;
    } else {
      NamesOfJoin(dir);
      NamesSlashed(Join(dir), rest);
    }
  }

  lemma {:induction false} ReduceConcat(stack: seq<Name>, a: seq<Name>, b: seq<Name>, capacity: nat)
    ensures Reduce(stack, a + b, capacity) ==
            match Reduce(stack, a, capacity)
            case Fails => Fails
            case Holds(names) => Reduce(names, b, capacity)
    decreases |a|
  {
    if a == [] {
      assert a + b == b;
    } else {
      assert (a + b)[1..] == a[1..] + b;
      match Push(stack, a[0], capacity) {
        case Fails =>
        case Holds(next) => ReduceConcat(next, a[1..], b, capacity);
      }
    }
  }

  lemma {:induction false} ReduceUps(stack: seq<Name>, ups: nat, capacity: nat)
    ensures Reduce(stack, Ups(ups), capacity) == if ups <= |stack| then Holds(stack[..|stack| - ups]) else Fails
    decreases ups
  {
    if ups > 0 {
      assert Ups(ups)[1..] == Ups(ups - 1);
      if stack != [] {
        ReduceUps(stack[..|stack| - 1], ups - 1, capacity);
      }
    } else {
      assert stack[..|stack|] == stack;
    }
  }

  // A name followed by ".." is as if neither were there, and so is ".".
  lemma DotsCancel(stack: seq<Name>, a: seq<Name>, name: Name, b: seq<Name>, capacity: nat)
    requires PlainName(name) && Reduce(stack, a, capacity).Holds?
    requires |Join(Reduce(stack, a, capacity).names + [name])| < capacity
    ensures Reduce(stack, a + [name, [DOT, DOT]] + b, capacity) == Reduce(stack, a + b, capacity)
    ensures Reduce(stack, a + [[DOT]] + b, capacity) == Reduce(stack, a + b, capacity)
  {
    hide Reduce, Join, PlainName;
    var held := Reduce(stack, a, capacity).names;
    ReduceConcat(stack, a, b, capacity);
    ReduceConcat(stack, a, [name, [DOT, DOT]] + b, capacity);
    ReduceConcat(stack, a, [[DOT]] + b, capacity);
    assert a + [name, [DOT, DOT]] + b == a + ([name, [DOT, DOT]] + b);
    assert a + [[DOT]] + b == a + ([[DOT]] + b);
    DotsSkipped(held, name, b, capacity);
  }

  lemma DotsSkipped(held: seq<Name>, name: Name, b: seq<Name>, capacity: nat)
    requires PlainName(name) && |Join(held + [name])| < capacity
    ensures Reduce(held, [name, [DOT, DOT]] + b, capacity) == Reduce(held, b, capacity)
    ensures Reduce(held, [[DOT]] + b, capacity) == Reduce(held, b, capacity)
  {
    hide Join;
    assert ([[DOT]] + b)[1..] == b;
    assert ([name, [DOT, DOT]] + b)[1..] == [[DOT, DOT]] + b && ([[DOT, DOT]] + b)[1..] == b;
    assert (held + [name])[..|held|] == held;
  }

  // ----- The result

  // There is room for it: the directory and the target in the joining buffer, and the names of
  // the directory and of the result in the output.
  predicate HasRoom(dir: seq<Name>, ups: nat, names: seq<Name>, target: seq<byte>, capacity: nat)
    requires ups <= |dir|
  {
    && |DirectoryBytes(dir)| + |target| < ARCHIVE_PATH_CAPACITY * 2
    && |Join(dir)| < capacity && |Join(dir[..|dir| - ups] + names)| < capacity
  }

  // A reference that climbs so many directories and then names a file, with whichever bytes
  // escaped and whatever query or fragment behind it: it resolves to that file in the directory
  // reached from the base's, exactly if it does not climb above the root, there is room for it
  // and the path is well-formed UTF-8.
  lemma ReferenceResolves(dir: seq<Name>, file: Name, ups: nat, names: seq<Name>, how: seq<Spelling>, tail: seq<byte>,
                          capacity: nat)
    requires Plain(dir) && SLASH !in file && Plain(names) && names != [] && capacity >= 2
    requires var bytes := Climb(ups) + Join(names); Writable(bytes, how) && Clean(bytes)
    requires tail == [] || tail[0] == 0x23 || tail[0] == 0x3f
    ensures var target := Written(Climb(ups) + Join(names), how);
            Resolved(DirectoryBytes(dir) + file, target + tail, capacity) ==
            if ups <= |dir| && HasRoom(dir, ups, names, target, capacity) &&
               WellFormed(Join(dir[..|dir| - ups] + names))
            then Path(Join(dir[..|dir| - ups] + names)) else Rejected
  {
    hide Written, Unescaped, Find, WellFormed, Join, DirectoryLength, Reduce, Names, Climb, Finished, DirectoryBytes;
    hide Writable;
    TargetJoins(dir, file, ups, names, how, tail);
    NamesBelow(dir, Climb(ups) + Join(names));
    NamesClimbing(ups, Join(names));
    NamesOfJoin(names);
    var joined := DirectoryBytes(dir) + (Climb(ups) + Join(names));
    assert Names(joined) == dir + (Ups(ups) + names);
    WalkEnds(dir, ups, names, capacity);
    FinishedWalk(joined, capacity);
    if ups <= |dir| {
      JoinIsSome(dir[..|dir| - ups] + names);
    }
  }

  lemma FinishedWalk(joined: seq<byte>, capacity: nat)
    ensures Finished(joined, capacity) ==
            match Reduce([], Names(joined), capacity)
            case Fails => Rejected
            case Holds(names) => if WellFormed(Join(names)) && Join(names) != [] then Path(Join(names)) else Rejected
  {
    hide WellFormed, Join, Reduce, Names;
  }

  lemma JoinIsSome(names: seq<Name>)
    requires Plain(names) && names != []
    ensures Join(names) != []
  {
    JoinEmpty(names);
  }

  lemma WalkEnds(dir: seq<Name>, ups: nat, names: seq<Name>, capacity: nat)
    requires Plain(dir) && Plain(names) && capacity > 0
    ensures Reduce([], dir + (Ups(ups) + names), capacity) ==
            if ups <= |dir| && |Join(dir)| < capacity && |Join(dir[..|dir| - ups] + names)| < capacity
            then Holds(dir[..|dir| - ups] + names) else Fails
  {
    hide Join, Reduce;
    assert [] + dir == dir;
    EmptyJoin();
    PlainReduces([], dir, capacity);
    ReduceConcat([], dir, Ups(ups) + names, capacity);
    if |Join(dir)| < capacity {
      ReduceUps(dir, ups, capacity);
      ReduceConcat(dir, Ups(ups), names, capacity);
      if ups <= |dir| {
        PrefixFits(dir, |dir| - ups);
        PlainReduces(dir[..|dir| - ups], names, capacity);
      }
    }
  }

  lemma PrefixFits(dir: seq<Name>, k: nat)
    requires k <= |dir|
    ensures |Join(dir[..k])| <= |Join(dir)|
  {
    hide Join;
    assert dir == dir[..k] + dir[k..];
    JoinPrefix(dir[..k], dir[k..]);
  }

  // Plain names are all held, or there is no room for them.
  lemma {:induction false} PlainReduces(stack: seq<Name>, names: seq<Name>, capacity: nat)
    requires Plain(names) && |Join(stack)| < capacity
    ensures Reduce(stack, names, capacity) == if |Join(stack + names)| < capacity then Holds(stack + names) else Fails
    decreases |names|
  {
    hide Join;
    if names == [] {
      assert stack + names == stack;
    } else {
      var more := stack + [names[0]];
      assert stack + names == more + names[1..];
      JoinPrefix(more, names[1..]);
      if |Join(more)| < capacity {
        PlainReduces(more, names[1..], capacity);
      }
    }
  }

  // The directory of the base and the bytes spelt out are joined.
  lemma TargetJoins(dir: seq<Name>, file: Name, ups: nat, names: seq<Name>, how: seq<Spelling>, tail: seq<byte>)
    requires Plain(dir) && SLASH !in file
    requires var bytes := Climb(ups) + Join(names); Writable(bytes, how) && Clean(bytes)
    requires tail == [] || tail[0] == 0x23 || tail[0] == 0x3f
    ensures var target := Written(Climb(ups) + Join(names), how);
            Joined(DirectoryBytes(dir) + file, target + tail) ==
            if |DirectoryBytes(dir)| + |target| < ARCHIVE_PATH_CAPACITY * 2 then
              Path(DirectoryBytes(dir) + (Climb(ups) + Join(names)))
            else Rejected
  {
    hide Unescaped, Find, Join, DirectoryLength, Climb, HexByte;
    var bytes := Climb(ups) + Join(names);
    var target := Written(bytes, how);
    NoStopWritten(bytes, how);
    FindBehind(target, tail, {0x23, 0x3f});
    assert (target + tail)[..|target|] == target;
    NoScheme(bytes, how);
    WrittenDecodes(bytes, how);
    DirectoryEnds(DirectoryBytes(dir), file);
    var prefix := DirectoryBytes(dir);
    assert (prefix + file)[..|prefix|] == prefix;
    assert target[0] == if how[0] == AsIs then bytes[0] else 0x25;
    assert !Forbidden(bytes[0]);
  }
}
