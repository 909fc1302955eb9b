// The pages of a whole book: what is reached from a page start by following next-page
// offsets. This is the reference that the page index and Reader navigation are held to.
module PageChain {
  import opened Options
  import opened Utf8
  import opened Paginator
  import opened Pages

  // The page starts from a given one on, or None when some page cannot be laid out.
  function Chain(source: seq<byte>, layout: Layout, start: nat): Option<seq<nat>>
    requires start <= |source|
    decreases |source| - start
  {
    var p := PageAt(source, layout, start);
    if !p.status.PageReady? then None
    else if p.endOfFile then Some([start])
    else if !(start < p.next < |source|) then None
    else
      match Chain(source, layout, p.next)
      case None => None
      case Some(rest) => Some([start] + rest)
  }

  // The page list of a book.
  function PageStarts(source: seq<byte>, layout: Layout): Option<seq<nat>> {
    Chain(source, layout, 0)
  }

  lemma TurnedMoves(p: State, source: seq<byte>)
    requires Turned(p, source)
    ensures p.start < p.next < |source|
    ensures WellFormed(source[p.start..]) <==> WellFormed(source[p.next..])
    ensures WellFormed(source[p.start..p.next])
    ensures p.text == Visible(source[p.start..p.next], p.start == 0)
    ensures !(source[p.next - 1] == 0x0d && source[p.next] == 0x0a)
  {
    hide Decode, Visible, Encode, WellFormed;
    WellFormedRest(p, source);
  }

  lemma EndedCloses(p: State, source: seq<byte>)
    requires Ended(p, source)
    ensures p.next == |source| && WellFormed(source[p.start..])
    ensures p.text == Visible(source[p.start..], p.start == 0)
  {
    hide Decode, Visible, Encode, WellFormed;
    assert source[p.start..|source|] == source[p.start..];
  }

  // A book can be paginated exactly when the layout is usable and the text well formed.
  lemma {:induction false} ChainExists(source: seq<byte>, layout: Layout, start: nat)
    requires start <= |source|
    ensures Chain(source, layout, start).Some? <==> layout.Usable() && WellFormed(source[start..])
    decreases |source| - start
  {
    hide Decode, WellFormed, Visible, PageAt, Turned, Ended;
    var p := PageAt(source, layout, start);
    PageIsGood(source, layout, start);
    if p.status.PageReady? {
      if p.endOfFile {
        EndedCloses(p, source);
      } else {
        TurnedMoves(p, source);
        ChainExists(source, layout, p.next);
      }
    }
  }

  // A list of page starts that pagination itself links together, up to the last page.
  ghost predicate Linked(source: seq<byte>, layout: Layout, starts: seq<nat>) {
    && starts != []
    && (forall i :: 0 <= i < |starts| ==> starts[i] <= |source|)
    && (forall i :: 0 <= i < |starts| ==> PageAt(source, layout, starts[i]).status.PageReady?)
    && (forall i :: 0 <= i < |starts| ==>
          (PageAt(source, layout, starts[i]).endOfFile <==> i == |starts| - 1))
    && (forall i, j :: 0 <= i < j == i + 1 < |starts| ==> Follows(source, layout, starts[i], starts[j]))
  }

  // The page at a is turned, and the next one starts at b.
  ghost predicate Follows(source: seq<byte>, layout: Layout, a: nat, b: nat) {
    a < b < |source| && PageAt(source, layout, a).next == b
  }

  lemma {:induction false} ChainLinked(source: seq<byte>, layout: Layout, start: nat)
    requires start <= |source| && Chain(source, layout, start).Some?
    ensures Linked(source, layout, Chain(source, layout, start).value)
    ensures Chain(source, layout, start).value[0] == start
    decreases |source| - start
  {
    hide PageAt;
    var p := PageAt(source, layout, start);
    if !p.endOfFile {
      ChainLinked(source, layout, p.next);
      var rest := Chain(source, layout, p.next).value;
      var starts := [start] + rest;
      forall i, j | 0 <= i < j == i + 1 < |starts|
        ensures Follows(source, layout, starts[i], starts[j])
      {
        assert starts[j] == rest[j - 1];
        if i > 0 {
          assert Follows(source, layout, rest[i - 1], rest[j - 1]);
        }
      }
    }
  }

  // Linked lists are unique: the pages after a start are determined by it.
  lemma {:induction false} LinkedIsChain(source: seq<byte>, layout: Layout, starts: seq<nat>)
    requires Linked(source, layout, starts)
    ensures Chain(source, layout, starts[0]) == Some(starts)
    decreases |starts|
  {
    hide PageAt;
    if |starts| > 1 {
      var rest := starts[1..];
      LinkedSuffix(source, layout, starts, 1);
      assert Follows(source, layout, starts[0], starts[1]);
      LinkedIsChain(source, layout, rest);
      assert starts == [starts[0]] + rest;
    } else {
      assert starts == [starts[0]];
    }
  }

  lemma LinkedSuffix(source: seq<byte>, layout: Layout, starts: seq<nat>, k: nat)
    requires Linked(source, layout, starts) && k < |starts|
    ensures Linked(source, layout, starts[k..])
  {
    hide PageAt;
    var rest := starts[k..];
    assert forall i :: 0 <= i < |rest| ==> rest[i] == starts[i + k];
    forall i, j | 0 <= i < j == i + 1 < |rest|
      ensures Follows(source, layout, rest[i], rest[j])
    {
      assert Follows(source, layout, starts[i + k], starts[j + k]);
    }
  }

  ghost predicate Increasing(starts: seq<nat>) {
    forall i, j :: 0 <= i < j < |starts| ==> starts[i] < starts[j]
  }

  lemma {:induction false} StepwiseIncreasing(starts: seq<nat>)
    requires forall i, j :: 0 <= i < j == i + 1 < |starts| ==> starts[i] < starts[j]
    ensures Increasing(starts)
    decreases |starts|
  {
    if |starts| > 0 {
      var front := starts[..|starts| - 1];
      StepwiseIncreasing(front);
      forall i, j | 0 <= i < j < |starts| ensures starts[i] < starts[j] {
        if j < |front| {
          assert front[i] < front[j];
        } else if i < j - 1 {
          assert front[i] < front[j - 1];
          assert starts[j - 1] < starts[j];
        } else {
          assert starts[j - 1] < starts[j];
        }
      }
    }
  }

  // Page starts strictly increase; past the first one they lie inside the book. Hence there
  // are no more pages than bytes (and one page for an empty book).
  lemma LinkedIncreasing(source: seq<byte>, layout: Layout, starts: seq<nat>)
    requires Linked(source, layout, starts)
    ensures Increasing(starts)
    ensures forall i :: 0 < i < |starts| ==> starts[i] < |source|
    ensures |starts| <= |source| - starts[0] + 1
    ensures |source| > starts[0] ==> |starts| <= |source| - starts[0]
  {
    hide PageAt;
    StepwiseIncreasing(starts);
    forall i | 0 < i < |starts| ensures starts[i] < |source| {
      assert Follows(source, layout, starts[i - 1], starts[i]);
    }
    GrowthBound(starts, |starts| - 1);
  }

  lemma {:induction false} GrowthBound(starts: seq<nat>, k: nat)
    requires k < |starts| && Increasing(starts)
    ensures starts[0] + k <= starts[k]
  {
    if k > 0 {
      GrowthBound(starts, k - 1);
    }
  }

  // ----- The text of the book

  // The page texts in order.
  function PagesText(source: seq<byte>, layout: Layout, starts: seq<nat>): seq<byte>
    requires forall i :: 0 <= i < |starts| ==> starts[i] <= |source|
  {
    if starts == [] then []
    else PageAt(source, layout, starts[0]).text + PagesText(source, layout, starts[1..])
  }

  // Reading the pages one after the other shows the whole book: its characters in order,
  // without line ends and a leading byte order mark, tabs as spaces, controls as '?'.
  lemma {:induction false} PagesShowTheBook(source: seq<byte>, layout: Layout, starts: seq<nat>)
    requires Linked(source, layout, starts)
    ensures WellFormed(source[starts[0]..])
    ensures PagesText(source, layout, starts) == Visible(source[starts[0]..], starts[0] == 0)
    decreases |starts|
  {
    hide PageAt, Visible, Decode, WellFormed, Turned, Ended;
    var start := starts[0];
    var p := PageAt(source, layout, start);
    PageIsGood(source, layout, start);
    if |starts| == 1 {
      EndedCloses(p, source);
      assert PagesText(source, layout, starts[1..]) == [];
    } else {
      TurnedMoves(p, source);
      assert Follows(source, layout, starts[0], starts[1]);
      LinkedSuffix(source, layout, starts, 1);
      PagesShowTheBook(source, layout, starts[1..]);
      assert source[start..] == source[start..p.next] + source[p.next..];
      VisibleConcat(source[start..p.next], source[p.next..], start == 0);
    }
  }

  // Page breaks: on a character boundary and never between CR and LF.
  lemma {:induction false} BreaksAreClean(source: seq<byte>, layout: Layout, starts: seq<nat>, k: nat)
    requires Linked(source, layout, starts) && 0 < k < |starts|
    ensures starts[0] < starts[k] < |source|
    ensures WellFormed(source[starts[0]..starts[k]]) && WellFormed(source[starts[k]..])
    ensures !(source[starts[k] - 1] == 0x0d && source[starts[k]] == 0x0a)
    decreases k
  {
    hide PageAt, Visible, Decode, WellFormed, Turned, Ended;
    var from := starts[k - 1];
    var p := PageAt(source, layout, from);
    PageIsGood(source, layout, from);
    assert Follows(source, layout, from, starts[k]);
    TurnedMoves(p, source);
    LinkedSuffix(source, layout, starts, k);
    PagesShowTheBook(source, layout, starts[k..]);
    LinkedIncreasing(source, layout, starts);
    if k > 1 {
      BreaksAreClean(source, layout, starts, k - 1);
      WellFormedConcat(source[starts[0]..from], source[from..p.next]);
      assert source[starts[0]..p.next] == source[starts[0]..from] + source[from..p.next];
    }
  }

  // The whole book, from its first byte.
  lemma BookIsPaginated(source: seq<byte>, layout: Layout)
    ensures PageStarts(source, layout).Some? <==>
            layout.lineWidth > 0 && layout.lineCount > 0 && layout.glyphWidth.Some? && WellFormed(source)
    ensures PageStarts(source, layout).Some? ==>
              var starts := PageStarts(source, layout).value;
              && Linked(source, layout, starts) && starts[0] == 0
              && PagesText(source, layout, starts) == Visible(source, true)
  {
    hide PageAt, Visible, Decode, WellFormed;
    assert source[0..] == source;
    ChainExists(source, layout, 0);
    if PageStarts(source, layout).Some? {
      ChainLinked(source, layout, 0);
      PagesShowTheBook(source, layout, PageStarts(source, layout).value);
    }
  }
}
