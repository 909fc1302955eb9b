// How often the panel may be refreshed partially before a cleaning full refresh:
// resolve_mode(), record_refresh() and commit_refresh() of ui/paper_mono/ui_renderer.cpp.
module GhostDebt {
  const FASTEST_BEFORE_FAST: nat := 10
  const FAST_BEFORE_QUALITY: nat := 5
  const TEXT_BEFORE_QUALITY: nat := 20
  const STATUS_BAR_LIMIT: nat := 60
  const U16_MAX: nat := 0xffff
  const U8_MAX: nat := 0xff

  datatype Mode = Fastest | Text | Fast | Quality

  datatype Region =
    | Full | Control | Focus | RtcEditor | RtcEditorAndKey | StatusBar | TestContent | BatteryContent | FileContent
    | BooksContent | BooksModal | BooksSettingTxt | BooksSettingEpub | ReaderContent | ReaderMenu

  // Regions that share a debt.
  datatype Account =
    | ControlDebt | FocusDebt | RtcDebt | TestDebt | BatteryDebt | FileDebt | BooksDebt | ReaderDebt

  datatype RegionDebt = RegionDebt(fastest: nat, fast: nat, text: nat)

  datatype Debt = Debt(
    control: RegionDebt, focus: RegionDebt, rtc: RegionDebt, test: RegionDebt, battery: RegionDebt,
    file: RegionDebt, books: RegionDebt, reader: RegionDebt, statusBar: nat, cleanupPending: bool)

  const NO_REGION_DEBT: RegionDebt := RegionDebt(0, 0, 0)

  const NO_DEBT: Debt :=
    Debt(NO_REGION_DEBT, NO_REGION_DEBT, NO_REGION_DEBT, NO_REGION_DEBT, NO_REGION_DEBT, NO_REGION_DEBT,
         NO_REGION_DEBT, NO_REGION_DEBT, 0, false)

  // debt_for_region()
  function AccountOf(region: Region): Account {
    match region
    case Focus => FocusDebt
    case RtcEditor => RtcDebt
    case RtcEditorAndKey => RtcDebt
    case TestContent => TestDebt
    case BatteryContent => BatteryDebt
    case FileContent => FileDebt
    case BooksContent => BooksDebt
    case BooksModal => BooksDebt
    case BooksSettingTxt => BooksDebt
    case BooksSettingEpub => BooksDebt
    case ReaderContent => ReaderDebt
    case ReaderMenu => ReaderDebt
    case _ => ControlDebt
  }

  function Owed(debt: Debt, a: Account): RegionDebt {
    match a
    case ControlDebt => debt.control
    case FocusDebt => debt.focus
    case RtcDebt => debt.rtc
    case TestDebt => debt.test
    case BatteryDebt => debt.battery
    case FileDebt => debt.file
    case BooksDebt => debt.books
    case ReaderDebt => debt.reader
  }

  function Owing(debt: Debt, a: Account, value: RegionDebt): (r: Debt)
    ensures Owed(r, a) == value && forall b :: b != a ==> Owed(r, b) == Owed(debt, b)
    ensures r.statusBar == debt.statusBar && r.cleanupPending == debt.cleanupPending
  {
    match a
    case ControlDebt => debt.(control := value)
    case FocusDebt => debt.(focus := value)
    case RtcDebt => debt.(rtc := value)
    case TestDebt => debt.(test := value)
    case BatteryDebt => debt.(battery := value)
    case FileDebt => debt.(file := value)
    case BooksDebt => debt.(books := value)
    case ReaderDebt => debt.(reader := value)
  }

  // resolve_mode()
  function Resolve(requested: Mode, region: Region, allowCleanup: bool, debt: Debt): Mode {
    if requested == Quality || region == StatusBar || !allowCleanup then requested
    else
      var value := Owed(debt, AccountOf(region));
      if requested == Fastest && value.fastest + 1 >= FASTEST_BEFORE_FAST then
        if value.fast + 1 >= FAST_BEFORE_QUALITY then Quality else Fast
      else if requested == Fast && value.fast + 1 >= FAST_BEFORE_QUALITY then Quality
      else if requested == Text && value.text + 1 >= TEXT_BEFORE_QUALITY then Quality
      else requested
  }

  function Charged(value: RegionDebt, mode: Mode): RegionDebt {
    match mode
    case Fastest => if value.fastest < FASTEST_BEFORE_FAST then value.(fastest := value.fastest + 1) else value
    case Fast => RegionDebt(0, if value.fast < FAST_BEFORE_QUALITY then value.fast + 1 else value.fast, value.text)
    case Text => if value.text < U8_MAX then value.(text := value.text + 1) else value
    case Quality => NO_REGION_DEBT
  }

  // record_refresh()
  function Recorded(debt: Debt, mode: Mode, region: Region): Debt {
    if mode == Quality then NO_DEBT
    else if region == StatusBar then
      var count := if debt.statusBar < U16_MAX then debt.statusBar + 1 else debt.statusBar;
      debt.(statusBar := count, cleanupPending := debt.cleanupPending || count >= STATUS_BAR_LIMIT)
    else
      var a := AccountOf(region);
      Owing(debt, a, Charged(Owed(debt, a), mode))
  }

  // ----- The debt as the renderer keeps it

  // Something to refresh. A frame is drawn with quality while the status bar's cleanup is
  // pending; the pressed look of a control may not be upgraded, and asks for the fastest.
  datatype Request = Request(requested: Mode, region: Region, allowCleanup: bool, frame: bool)

  predicate IsRequest(r: Request) { !r.allowCleanup ==> r.requested == Fastest && !r.frame }

  function ModeFor(debt: Debt, r: Request): Mode {
    Resolve(if r.frame && debt.cleanupPending then Quality else r.requested, r.region, r.allowCleanup, debt)
  }

  // What the panel makes of it: the display layer may turn any refresh into a full one, and
  // a refresh may fail.
  datatype Panel = Panel(success: bool, upgraded: bool)

  function Actual(mode: Mode, panel: Panel): Mode { if panel.upgraded then Quality else mode }

  class RefreshDebt {
    var debt: Debt

    constructor ()
      ensures debt == NO_DEBT
    {
      debt := NO_DEBT;
    }

    method Record(mode: Mode, region: Region)
      modifies this
      ensures debt == Recorded(old(debt), mode, region)
    {
      if mode == Quality {
        debt := NO_DEBT;
        return;
      }
      if region == StatusBar {
        if debt.statusBar < U16_MAX {
          debt := debt.(statusBar := debt.statusBar + 1);
        }
        if debt.statusBar >= STATUS_BAR_LIMIT {
          debt := debt.(cleanupPending := true);
        }
        return;
      }
      var a := AccountOf(region);
      var value := Owed(debt, a);
      if mode == Fastest {
        if value.fastest < FASTEST_BEFORE_FAST {
          value := value.(fastest := value.fastest + 1);
        }
      } else if mode == Fast {
        value := value.(fastest := 0);
        if value.fast < FAST_BEFORE_QUALITY {
          value := value.(fast := value.fast + 1);
        }
      } else if value.text < U8_MAX {
        value := value.(text := value.text + 1);
      }
      debt := Owing(debt, a, value);
    }

    // Resolving a request and commit_refresh().
    method Commit(r: Request, panel: Panel) returns (mode: Mode)
      modifies this
      ensures mode == ModeFor(old(debt), r)
      ensures debt == Refreshed(old(debt), r, panel)
      ensures mode == r.requested || mode == Quality || (r.requested == Fastest && mode == Fast)
      ensures !r.allowCleanup && !r.frame ==> mode == r.requested
      ensures panel.success && (mode == Quality || panel.upgraded) ==> debt == NO_DEBT
      ensures !panel.success ==> debt == old(debt)
      ensures panel.success && mode != Quality && !panel.upgraded ==>
                forall a :: r.region == StatusBar || a != AccountOf(r.region) ==> Owed(debt, a) == Owed(old(debt), a)
    {
      mode := Resolve(if r.frame && debt.cleanupPending then Quality else r.requested, r.region, r.allowCleanup, debt);
      if panel.success {
        Record(Actual(mode, panel), r.region);
      }
    }
  }

  // ----- Runs

  function Refreshed(debt: Debt, r: Request, panel: Panel): Debt {
    if panel.success then Recorded(debt, Actual(ModeFor(debt, r), panel), r.region) else debt
  }

  datatype Event = Event(request: Request, panel: Panel)

  // The regions that lie over one another: the page and the menu of the reader, what the
  // bookshelf shows, the two extents of the clock's editor, and controls within a full view.
  predicate Shares(x: Region, y: Region) {
    || x == y
    || (x in {ReaderContent, ReaderMenu} && y in {ReaderContent, ReaderMenu})
    || (x in {BooksContent, BooksModal, BooksSettingTxt, BooksSettingEpub} &&
        y in {BooksContent, BooksModal, BooksSettingTxt, BooksSettingEpub})
    || (x in {RtcEditor, RtcEditorAndKey} && y in {RtcEditor, RtcEditorAndKey})
    || (x in {Full, Control, StatusBar} && y in {Full, Control, StatusBar})
  }

  // They, and no others, share a debt.
  lemma SharesDebt(x: Region, y: Region)
    ensures Shares(x, y) <==> AccountOf(x) == AccountOf(y)
  {
  }

  // The refreshes that count for a region since the last quality refresh: of it or of what
  // shares it, successful, not of quality, and allowed to be upgraded; and those of the status
  // bar.
  datatype Tally = Tally(fastest: nat, fast: nat, text: nat, status: nat)

  function Total(t: Tally): nat { t.fastest + t.fast + t.text }

  function Counted(t: Tally, x: Region, r: Request, actual: Mode): Tally {
    if actual == Quality then Tally(0, 0, 0, 0)
    else if r.region == StatusBar then t.(status := t.status + 1)
    else if !Shares(r.region, x) || !r.allowCleanup then t
    else
      match actual
      case Fastest => t.(fastest := t.fastest + 1)
      case Fast => t.(fast := t.fast + 1)
      case Text => t.(text := t.text + 1)
  }

  datatype Book = Book(debt: Debt, tally: Tally)

  function Step(b: Book, x: Region, e: Event): Book {
    var mode := Actual(ModeFor(b.debt, e.request), e.panel);
    Book(Refreshed(b.debt, e.request, e.panel),
         if e.panel.success then Counted(b.tally, x, e.request, mode) else b.tally)
  }

  function Run(b: Book, x: Region, events: seq<Event>): Book
    decreases |events|
  {
    if events == [] then b else Run(Step(b, x, events[0]), x, events[1..])
  }

  const CLEAN: Book := Book(NO_DEBT, Tally(0, 0, 0, 0))

  // The debt remembers enough of the tally.
  ghost predicate Accounted(b: Book, x: Region) {
    var value := Owed(b.debt, AccountOf(x));
    && b.tally.fast == value.fast <= 4
    && b.tally.text == value.text <= 19
    && b.tally.fastest <= 9 * value.fast + value.fastest && b.tally.fastest <= 9 * (value.fast + 1)
    && b.debt.statusBar == (if b.tally.status < U16_MAX then b.tally.status else U16_MAX)
    && (b.debt.cleanupPending <==> b.debt.statusBar >= STATUS_BAR_LIMIT)
  }

  lemma StepAccounted(b: Book, x: Region, e: Event)
    requires Accounted(b, x) && IsRequest(e.request)
    ensures Accounted(Step(b, x, e), x)
  {
    hide Recorded, ModeFor, Counted, Accounted, Shares, IsRequest;
    var r := e.request;
    if e.panel.success {
      RefreshAccounted(b, x, r, Actual(ModeFor(b.debt, r), e.panel));
    }
  }

  lemma RefreshAccounted(b: Book, x: Region, r: Request, mode: Mode)
    requires Accounted(b, x) && IsRequest(r) && (mode == Quality || mode == ModeFor(b.debt, r))
    ensures Accounted(Book(Recorded(b.debt, mode, r.region), Counted(b.tally, x, r, mode)), x)
  {
    hide Accounted, Recorded, Counted, Shares, ModeFor, IsRequest;
    if mode == Quality {
      QualityAccounted(b, x, r);
    } else if r.region == StatusBar || !Shares(r.region, x) {
      OtherAccounted(b, x, r, mode);
    } else {
      OwnAccounted(b, x, r, mode);
    }
  }

  lemma QualityAccounted(b: Book, x: Region, r: Request)
    ensures Accounted(Book(Recorded(b.debt, Quality, r.region), Counted(b.tally, x, r, Quality)), x)
  {
    hide Owing, Owed, AccountOf;
    CleanIsAccounted(x);
  }

  lemma OtherAccounted(b: Book, x: Region, r: Request, mode: Mode)
    requires Accounted(b, x) && mode != Quality && (r.region == StatusBar || !Shares(r.region, x))
    ensures Accounted(Book(Recorded(b.debt, mode, r.region), Counted(b.tally, x, r, mode)), x)
  {
    hide Owing, Charged, Owed, AccountOf, Shares;
    OthersOwed(b.debt, mode, r.region, x);
  }

  lemma OwnAccounted(b: Book, x: Region, r: Request, mode: Mode)
    requires Accounted(b, x) && IsRequest(r) && mode == ModeFor(b.debt, r) != Quality
    requires r.region != StatusBar && Shares(r.region, x)
    ensures Accounted(Book(Recorded(b.debt, mode, r.region), Counted(b.tally, x, r, mode)), x)
  {
    hide Owing, Charged, Owed, AccountOf, Shares, ModeFor, IsRequest, Counted;
    SharesDebt(r.region, x);
    ChargeIsBounded(b, x, r, mode);
  }

  // A refresh of another region, or of the status bar, leaves the debt as it is.
  lemma OthersOwed(debt: Debt, mode: Mode, region: Region, x: Region)
    requires mode != Quality && (region == StatusBar || !Shares(region, x))
    ensures Owed(Recorded(debt, mode, region), AccountOf(x)) == Owed(debt, AccountOf(x))
  {
    hide Owing, Charged, Owed, AccountOf, Shares;
    SharesDebt(region, x);
    StatusKeepsRegions(debt, debt.statusBar + 1, true, x);
    StatusKeepsRegions(debt, debt.statusBar, true, x);
    StatusKeepsRegions(debt, debt.statusBar + 1, debt.cleanupPending, x);
    StatusKeepsRegions(debt, debt.statusBar, debt.cleanupPending, x);
  }

  lemma CleanIsAccounted(x: Region)
    ensures Owed(NO_DEBT, AccountOf(x)) == NO_REGION_DEBT
  {
  }

  lemma StatusKeepsRegions(debt: Debt, status: nat, pending: bool, x: Region)
    ensures Owed(debt.(statusBar := status, cleanupPending := pending), AccountOf(x)) == Owed(debt, AccountOf(x))
  {
  }

  // What a refresh that is not of quality adds to an account, against what it allowed.
  lemma ChargeIsBounded(b: Book, x: Region, r: Request, mode: Mode)
    requires Accounted(b, x) && IsRequest(r) && r.region != StatusBar && Shares(r.region, x)
    requires mode == ModeFor(b.debt, r) != Quality
    ensures var value := Charged(Owed(b.debt, AccountOf(x)), mode); var t := Counted(b.tally, x, r, mode);
            && t.fast == value.fast <= 4 && t.text == value.text <= 19 && t.status == b.tally.status
            && t.fastest <= 9 * value.fast + value.fastest && t.fastest <= 9 * (value.fast + 1)
  {
    hide Owed, AccountOf, Shares;
    SharesDebt(r.region, x);
  }

  lemma {:induction false} RunAccounted(b: Book, x: Region, events: seq<Event>)
    requires Accounted(b, x) && forall i :: 0 <= i < |events| ==> IsRequest(events[i].request)
    ensures Accounted(Run(b, x, events), x)
    decreases |events|
  {
    hide Step, Accounted, IsRequest;
    if events != [] {
      StepAccounted(b, x, events[0]);
      RunAccounted(Step(b, x, events[0]), x, events[1..]);
    }
  }

  // ----- The results

  // Since the last quality refresh a region and what shares it have taken at most 45 fastest, 4 fast and 19
  // text refreshes, whatever else was refreshed in between.
  lemma DebtIsBounded(x: Region, events: seq<Event>)
    requires forall i :: 0 <= i < |events| ==> IsRequest(events[i].request)
    ensures var t := Run(CLEAN, x, events).tally;
            t.fastest <= 45 && t.fast <= 4 && t.text <= 19 && Total(t) <= 68
  {
    hide Run;
    RunAccounted(CLEAN, x, events);
  }

  // After 68 of them the next request is resolved to quality, whatever it asks for.
  lemma FullDebtForcesQuality(x: Region, events: seq<Event>, r: Request)
    requires forall i :: 0 <= i < |events| ==> IsRequest(events[i].request)
    requires IsRequest(r) && r.allowCleanup && r.region != StatusBar && Shares(r.region, x)
    requires Total(Run(CLEAN, x, events).tally) >= 68
    ensures ModeFor(Run(CLEAN, x, events).debt, r) == Quality
  {
    hide Run;
    RunAccounted(CLEAN, x, events);
    DebtIsBounded(x, events);
  }

  // After 60 refreshes of the status bar the next frame is drawn with quality; before that the
  // status bar makes no difference to it.
  lemma StatusDebtForcesQuality(x: Region, events: seq<Event>, r: Request)
    requires forall i :: 0 <= i < |events| ==> IsRequest(events[i].request)
    requires r.frame
    ensures var b := Run(CLEAN, x, events);
            ModeFor(b.debt, r) ==
            if b.tally.status >= STATUS_BAR_LIMIT then Quality else ModeFor(b.debt, r.(frame := false))
  {
    hide Run;
    RunAccounted(CLEAN, x, events);
  }

  // ----- The bound is reached

  function Repeat(r: Request, n: nat): seq<Event> {
    if n == 0 then [] else Repeat(r, n - 1) + [Event(r, Panel(true, false))]
  }

  lemma {:induction false} RunSnoc(b: Book, x: Region, events: seq<Event>, e: Event)
    ensures Run(b, x, events + [e]) == Step(Run(b, x, events), x, e)
    decreases |events|
  {
    hide Step;
    if events == [] {
      assert events + [e] == [e];
      assert [e][1..] == [];
    } else {
      assert (events + [e])[1..] == events[1..] + [e];
      RunSnoc(Step(b, x, events[0]), x, events[1..], e);
    }
  }

  const ASK_FASTEST: Request := Request(Fastest, FileContent, true, true)
  const ASK_FAST: Request := Request(Fast, FileContent, true, true)
  const ASK_TEXT: Request := Request(Text, FileContent, true, true)

  lemma {:induction false} FastestRun(n: nat)
    requires n <= 49
    ensures Run(CLEAN, FileContent, Repeat(ASK_FASTEST, n)) ==
            Book(NO_DEBT.(file := RegionDebt(n % 10, n / 10, 0)), Tally(n - n / 10, n / 10, 0, 0))
    decreases n
  {
    if n > 0 {
      FastestRun(n - 1);
      RunSnoc(CLEAN, FileContent, Repeat(ASK_FASTEST, n - 1), Event(ASK_FASTEST, Panel(true, false)));
    }
  }

  lemma {:induction false} TextRun(b: Book, n: nat)
    requires b == Book(NO_DEBT.(file := RegionDebt(9, 4, 0)), Tally(45, 4, 0, 0)) && n <= 19
    ensures Run(b, FileContent, Repeat(ASK_TEXT, n)) ==
            Book(NO_DEBT.(file := RegionDebt(9, 4, n)), Tally(45, 4, n, 0))
    decreases n
  {
    if n > 0 {
      TextRun(b, n - 1);
      RunSnoc(b, FileContent, Repeat(ASK_TEXT, n - 1), Event(ASK_TEXT, Panel(true, false)));
    }
  }

  lemma {:induction false} RunSplit(b: Book, x: Region, first: seq<Event>, second: seq<Event>)
    ensures Run(b, x, first + second) == Run(Run(b, x, first), x, second)
    decreases |first|
  {
    hide Step;
    if first == [] {
      assert first + second == second;
    } else {
      assert (first + second)[1..] == first[1..] + second;
      RunSplit(Step(b, x, first[0]), x, first[1..], second);
    }
  }

  lemma {:induction false} FastRun(n: nat)
    requires n <= 4
    ensures Run(CLEAN, FileContent, Repeat(ASK_FAST, n)) ==
            Book(NO_DEBT.(file := RegionDebt(0, n, 0)), Tally(0, n, 0, 0))
    decreases n
  {
    if n > 0 {
      FastRun(n - 1);
      RunSnoc(CLEAN, FileContent, Repeat(ASK_FAST, n - 1), Event(ASK_FAST, Panel(true, false)));
    }
  }

  // 49 fastest and 19 text requests for the file list reach 68 refreshes, and four fast ones
  // are as many as there may be.
  lemma BoundIsReached()
    ensures Total(Run(CLEAN, FileContent, Repeat(ASK_FASTEST, 49) + Repeat(ASK_TEXT, 19)).tally) == 68
    ensures Run(CLEAN, FileContent, Repeat(ASK_FAST, 4)).tally == Tally(0, 4, 0, 0)
  {
    hide Run, Repeat;
    FastRun(4);
    FastestRun(49);
    TextRun(Run(CLEAN, FileContent, Repeat(ASK_FASTEST, 49)), 19);
    RunSplit(CLEAN, FileContent, Repeat(ASK_FASTEST, 49), Repeat(ASK_TEXT, 19));
  }
}
