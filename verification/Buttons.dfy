// The two-button recogniser services/input/button_state_machine.cpp.
module Buttons {
  import opened Options

  const DEBOUNCE_MS: nat := 20
  const LONG_PRESS_MS: nat := 800
  const WORD: nat := 0x1_0000_0000

  datatype Key = NoKey | Key1 | Key2

  datatype Phase =
    | Idle | DebouncePress | Pressed | DebounceRelease | LongEmitted | DebounceLongRelease | Blocked
    | DebounceBlockedRelease

  datatype Action = Confirm | Back | Previous | Next

  // A sample of both keys at a time in milliseconds; the machine sees 32 bits of the time.
  datatype Sample = Sample(key1: bool, key2: bool, at: nat) {
    predicate Both() { key1 && key2 }
    predicate Released() { !key1 && !key2 }
    function Only(): (k: Key)
      ensures k == Key1 <==> key1 && !key2
      ensures k == Key2 <==> key2 && !key1
    {
      if key1 == key2 then NoKey else if key1 then Key1 else Key2
    }
    function Tick(): nat { at % WORD }
  }

  datatype Machine = Machine(phase: Phase, active: Key, phaseStarted: nat, pressStarted: nat)

  const RESET: Machine := Machine(Idle, NoKey, 0, 0)

  // 32-bit subtraction.
  function Elapsed(now: nat, then_: nat): nat { (now + WORD - then_ % WORD) % WORD }

  function LongAction(k: Key): Action { if k == Key1 then Confirm else Back }

  function ShortAction(k: Key): Action { if k == Key1 then Previous else Next }

  datatype Outcome = Outcome(machine: Machine, event: Option<Action>)

  function Quiet(m: Machine): Outcome { Outcome(m, None) }

  function Block(m: Machine): Outcome { Quiet(m.(phase := Blocked, active := NoKey)) }

  // update()
  function Step(m: Machine, s: Sample): Outcome {
    if s.Both() then Block(m)
    else
      match m.phase
      case Idle =>
        if s.Only() != NoKey then Quiet(Machine(DebouncePress, s.Only(), s.Tick(), s.Tick())) else Quiet(m)
      case DebouncePress =>
        if s.Released() then Quiet(RESET)
        else if s.Only() != m.active then Block(m)
        else if Elapsed(s.Tick(), m.phaseStarted) >= DEBOUNCE_MS then Quiet(m.(phase := Pressed))
        else Quiet(m)
      case Pressed =>
        if s.Released() then Quiet(m.(phase := DebounceRelease, phaseStarted := s.Tick()))
        else if s.Only() != m.active then Block(m)
        else if Elapsed(s.Tick(), m.pressStarted) >= LONG_PRESS_MS then
          Outcome(m.(phase := LongEmitted), Some(LongAction(m.active)))
        else Quiet(m)
      case DebounceRelease =>
        if s.Only() == m.active then Quiet(m.(phase := Pressed))
        else if !s.Released() then Block(m)
        else if Elapsed(s.Tick(), m.phaseStarted) >= DEBOUNCE_MS then Outcome(RESET, Some(ShortAction(m.active)))
        else Quiet(m)
      case LongEmitted =>
        if s.Released() then Quiet(m.(phase := DebounceLongRelease, phaseStarted := s.Tick()))
        else if s.Only() != m.active then Block(m)
        else Quiet(m)
      case DebounceLongRelease =>
        if s.Only() == m.active then Quiet(m.(phase := LongEmitted))
        else if !s.Released() then Block(m)
        else if Elapsed(s.Tick(), m.phaseStarted) >= DEBOUNCE_MS then Quiet(RESET)
        else Quiet(m)
      case Blocked =>
        if s.Released() then Quiet(m.(phase := DebounceBlockedRelease, phaseStarted := s.Tick())) else Quiet(m)
      case DebounceBlockedRelease =>
        if !s.Released() then Quiet(m.(phase := Blocked))
        else if Elapsed(s.Tick(), m.phaseStarted) >= DEBOUNCE_MS then Quiet(RESET)
        else Quiet(m)
  }

  class ButtonStateMachine {
    var active: Key
    var phase: Phase
    var phaseStarted: nat
    var pressStarted: nat

    ghost function View(): Machine
      reads this
    {
      Machine(phase, active, phaseStarted, pressStarted)
    }

    constructor ()
      ensures View() == RESET
    {
      active, phase, phaseStarted, pressStarted := NoKey, Idle, 0, 0;
    }

    method Reset()
      modifies this
      ensures View() == RESET
    {
      active, phase, phaseStarted, pressStarted := NoKey, Idle, 0, 0;
    }

    method Update(s: Sample) returns (event: Option<Action>)
      modifies this
      ensures Outcome(View(), event) == Step(old(View()), s)
    {
      hide Elapsed;
      var now := s.Tick();
      var current := s.Only();
      event := None;
      if s.Both() {
        phase, active := Blocked, NoKey;
        return;
      }
      match phase {
        case Idle =>
          if current != NoKey {
            active, phase, phaseStarted, pressStarted := current, DebouncePress, now, now;
          }
        case DebouncePress =>
          if s.Released() {
            Reset();
          } else if current != active {
            phase, active := Blocked, NoKey;
          } else if Elapsed(now, phaseStarted) >= DEBOUNCE_MS {
            phase := Pressed;
          }
        case Pressed =>
          if s.Released() {
            phase, phaseStarted := DebounceRelease, now;
          } else if current != active {
            phase, active := Blocked, NoKey;
          } else if Elapsed(now, pressStarted) >= LONG_PRESS_MS {
            event := Some(LongAction(active));
            phase := LongEmitted;
          }
        case DebounceRelease =>
          if current == active {
            phase := Pressed;
          } else if !s.Released() {
            phase, active := Blocked, NoKey;
          } else if Elapsed(now, phaseStarted) >= DEBOUNCE_MS {
            event := Some(ShortAction(active));
            Reset();
          }
        case LongEmitted =>
          if s.Released() {
            phase, phaseStarted := DebounceLongRelease, now;
          } else if current != active {
            phase, active := Blocked, NoKey;
          }
        case DebounceLongRelease =>
          if current == active {
            phase := LongEmitted;
          } else if !s.Released() {
            phase, active := Blocked, NoKey;
          } else if Elapsed(now, phaseStarted) >= DEBOUNCE_MS {
            Reset();
          }
        case Blocked =>
          if s.Released() {
            phase, phaseStarted := DebounceBlockedRelease, now;
          }
        case DebounceBlockedRelease =>
          if !s.Released() {
            phase := Blocked;
          } else if Elapsed(now, phaseStarted) >= DEBOUNCE_MS {
            Reset();
          }
      }
    }
  }

  // ----- Runs

  function After(trace: seq<Sample>): Machine {
    if trace == [] then RESET else Step(After(trace[..|trace| - 1]), trace[|trace| - 1]).machine
  }

  // The event at sample n, if any.
  function EventAt(trace: seq<Sample>, n: nat): Option<Action>
    requires n < |trace|
  {
    Step(After(trace[..n]), trace[n]).event
  }

  // Samples a to b, both included.
  ghost predicate Held(trace: seq<Sample>, a: nat, b: nat, k: Key) {
    b < |trace| && forall i :: a <= i <= b ==> trace[i].Only() == k
  }

  ghost predicate AllReleased(trace: seq<Sample>, a: nat, b: nat) {
    b < |trace| && forall i :: a <= i <= b ==> trace[i].Released()
  }

  // Nothing but the key, or no key at all.
  ghost predicate NoOther(trace: seq<Sample>, a: nat, b: nat, k: Key) {
    b < |trace| && forall i :: a <= i <= b ==> trace[i].Only() == k || trace[i].Released()
  }

  ghost predicate Lasts(trace: seq<Sample>, a: nat, b: nat, ms: nat) {
    a <= b < |trace| && trace[b].at >= trace[a].at + ms
  }

  // Where the current press started and was debounced, where the current release started,
  // the sample of the last event plus one, and the last stretch that cleared a block.
  datatype Track = Track(press: nat, steady: nat, release: nat, events: nat, clearFrom: nat, clearTo: nat)

  function TrackOf(trace: seq<Sample>): Track {
    if trace == [] then Track(0, 0, 0, 0, 0, 0)
    else
      var n := |trace| - 1;
      var m, s, t := After(trace[..n]), trace[n], TrackOf(trace[..n]);
      var o := Step(m, s);
      var t1 := if o.event.Some? then t.(events := n + 1) else t;
      if m.phase == Idle && o.machine.phase == DebouncePress then t1.(press := n)
      else if m.phase == DebouncePress && o.machine.phase == Pressed then t1.(steady := n)
      else if o.machine.phase == DebounceRelease && m.phase == Pressed then t1.(release := n)
      else if o.machine.phase == DebounceLongRelease && m.phase == LongEmitted then t1.(release := n)
      else if o.machine.phase == DebounceBlockedRelease && m.phase == Blocked then t1.(release := n)
      else if m.phase == DebounceBlockedRelease && o.machine.phase == Idle then
        t1.(clearFrom := t.release, clearTo := n)
      else t1
  }

  ghost predicate Ordered(trace: seq<Sample>) {
    forall i, j :: 0 <= i <= j < |trace| ==> trace[i].at <= trace[j].at
  }

  // The press as far as it has come: key k alone from sample press on, steady for 20 ms, no
  // other key since.
  ghost predicate IsPress(trace: seq<Sample>, t: Track, k: Key, pressStarted: nat) {
    && t.press < t.steady < |trace| && k != NoKey
    && Held(trace, t.press, t.steady, k) && Lasts(trace, t.press, t.steady, DEBOUNCE_MS)
    && NoOther(trace, t.press, |trace| - 1, k)
    && pressStarted == trace[t.press].Tick()
  }

  ghost predicate IsRelease(trace: seq<Sample>, t: Track, phaseStarted: nat) {
    && t.release < |trace| && AllReleased(trace, t.release, |trace| - 1)
    && phaseStarted == trace[t.release].Tick()
  }

  ghost predicate Inv(trace: seq<Sample>, m: Machine, t: Track) {
    && t.events <= |trace|
    && match m.phase
       case Idle => true
       case DebouncePress =>
         && t.press < |trace| && m.active != NoKey && Held(trace, t.press, |trace| - 1, m.active)
         && m.pressStarted == m.phaseStarted == trace[t.press].Tick() && t.events <= t.press
       case Pressed => IsPress(trace, t, m.active, m.pressStarted) && t.events <= t.press
       case DebounceRelease =>
         && IsPress(trace, t, m.active, m.pressStarted) && t.events <= t.press
         && IsRelease(trace, t, m.phaseStarted) && t.steady < t.release
       case LongEmitted => m.active != NoKey
       case DebounceLongRelease => m.active != NoKey && IsRelease(trace, t, m.phaseStarted)
       case Blocked => true
       case DebounceBlockedRelease => IsRelease(trace, t, m.phaseStarted)
  }

  lemma ElapsedIsReal(trace: seq<Sample>, a: nat, b: nat)
    requires Ordered(trace) && a <= b < |trace|
    ensures trace[b].at >= trace[a].at + Elapsed(trace[b].Tick(), trace[a].Tick())
  {
    ElapsedBelow(trace[b].at, trace[a].at);
  }

  lemma ElapsedBelow(now: nat, then_: nat)
    requires then_ <= now
    ensures Elapsed(now % WORD, then_ % WORD) <= now - then_
  {
  }

  // ----- One sample more

  lemma SamplesStay(trace: seq<Sample>, a: nat, b: nat, k: Key)
    requires trace != []
    ensures var front := trace[..|trace| - 1];
            && (Held(front, a, b, k) ==> Held(trace, a, b, k))
            && (AllReleased(front, a, b) ==> AllReleased(trace, a, b))
            && (NoOther(front, a, b, k) ==> NoOther(trace, a, b, k))
  {
    var front := trace[..|trace| - 1];
    assert forall i :: 0 <= i < |front| ==> front[i] == trace[i];
  }

  lemma SampleJoins(trace: seq<Sample>, a: nat, k: Key)
    requires |trace| > 1 && a < |trace|
    ensures var front := trace[..|trace| - 1]; var s := trace[|trace| - 1];
            && (Held(front, a, |front| - 1, k) && s.Only() == k ==> Held(trace, a, |trace| - 1, k))
            && (AllReleased(front, a, |front| - 1) && s.Released() ==> AllReleased(trace, a, |trace| - 1))
            && (NoOther(front, a, |front| - 1, k) && (s.Only() == k || s.Released()) ==>
                  NoOther(trace, a, |trace| - 1, k))
  {
    var front := trace[..|trace| - 1];
    assert forall i :: 0 <= i < |front| ==> front[i] == trace[i];
  }

  lemma HeldIsNoOther(trace: seq<Sample>, a: nat, b: nat, k: Key)
    requires Held(trace, a, b, k)
    ensures NoOther(trace, a, b, k)
  {
  }

  lemma PressGoesOn(trace: seq<Sample>, t: Track, k: Key, pressStarted: nat)
    requires trace != [] && IsPress(trace[..|trace| - 1], t, k, pressStarted)
    requires var s := trace[|trace| - 1]; s.Only() == k || s.Released()
    ensures IsPress(trace, t, k, pressStarted)
  {
    hide NoOther, Held, AllReleased;
    SamplesStay(trace, t.press, t.steady, k);
    SampleJoins(trace, t.press, k);
  }

  lemma ReleaseGoesOn(trace: seq<Sample>, t: Track, phaseStarted: nat)
    requires trace != [] && IsRelease(trace[..|trace| - 1], t, phaseStarted) && trace[|trace| - 1].Released()
    ensures IsRelease(trace, t, phaseStarted)
  {
    hide NoOther, Held, AllReleased;
    SampleJoins(trace, t.release, NoKey);
  }

  // The press is steady: 20 ms of nothing but the key.
  lemma PressSteadies(trace: seq<Sample>, t: Track, k: Key)
    requires Ordered(trace) && |trace| > 1 && t.press < |trace| - 1 == t.steady && k != NoKey
    requires Held(trace[..|trace| - 1], t.press, |trace| - 2, k) && trace[|trace| - 1].Only() == k
    requires Elapsed(trace[|trace| - 1].Tick(), trace[t.press].Tick()) >= DEBOUNCE_MS
    ensures IsPress(trace, t, k, trace[t.press].Tick())
  {
    hide NoOther, Held, Elapsed;
    SampleJoins(trace, t.press, k);
    HeldIsNoOther(trace, t.press, |trace| - 1, k);
    ElapsedIsReal(trace, t.press, |trace| - 1);
  }

  lemma OneSample(trace: seq<Sample>, k: Key)
    requires trace != []
    ensures trace[|trace| - 1].Only() == k ==> Held(trace, |trace| - 1, |trace| - 1, k)
    ensures trace[|trace| - 1].Released() ==> AllReleased(trace, |trace| - 1, |trace| - 1)
  {
  }

  lemma InvStep(trace: seq<Sample>, m: Machine, t: Track, t': Track)
    requires trace != [] && Ordered(trace) && Inv(trace[..|trace| - 1], m, t)
    requires m == After(trace[..|trace| - 1]) && t == TrackOf(trace[..|trace| - 1]) && t' == TrackOf(trace)
    ensures Inv(trace, Step(m, trace[|trace| - 1]).machine, t')
  {
    hide Ordered, Held, NoOther, AllReleased, Elapsed, IsPress, IsRelease, Lasts, After;
    var s := trace[|trace| - 1];
    var front := trace[..|trace| - 1];
    ReleaseStarts(trace, t'.(release := |trace| - 1));
    OneSample(trace, s.Only());
    if !s.Both() {
      match m.phase {
        case DebouncePress =>
          SampleJoins(trace, t.press, m.active);
          assert front[t.press] == trace[t.press];
          if s.Only() == m.active && Elapsed(s.Tick(), m.phaseStarted) >= DEBOUNCE_MS {
            PressSteadies(trace, t', m.active);
          }
        case Pressed => if s.Released() || s.Only() == m.active { PressContinues(trace, m, t, t'); }
        case DebounceRelease =>
          if s.Released() || s.Only() == m.active { PressContinues(trace, m, t, t'); }
          if s.Released() { ReleaseGoesOn(trace, t, m.phaseStarted); }
        case DebounceLongRelease => if s.Released() { ReleaseGoesOn(trace, t, m.phaseStarted); }
        case DebounceBlockedRelease => if s.Released() { ReleaseGoesOn(trace, t, m.phaseStarted); }
        case _ =>
      }
    }
  }

  lemma ReleaseStarts(trace: seq<Sample>, t: Track)
    requires trace != [] && t.release == |trace| - 1
    ensures trace[|trace| - 1].Released() ==> IsRelease(trace, t, trace[|trace| - 1].Tick())
  {
  }

  // A press goes on, held or being released.
  lemma PressContinues(trace: seq<Sample>, m: Machine, t: Track, t': Track)
    requires trace != [] && IsPress(trace[..|trace| - 1], t, m.active, m.pressStarted)
    requires var s := trace[|trace| - 1]; s.Released() || s.Only() == m.active
    requires t'.press == t.press && t'.steady == t.steady
    ensures IsPress(trace, t', m.active, m.pressStarted) && t'.steady < |trace| - 1
  {
    hide Held, NoOther, Lasts;
    PressGoesOn(trace, t, m.active, m.pressStarted);
  }

  lemma {:induction false} InvHolds(trace: seq<Sample>)
    requires Ordered(trace)
    ensures Inv(trace, After(trace), TrackOf(trace))
    decreases |trace|
  {
    hide Inv, Step;
    if trace == [] {
      NothingYet();
    } else {
      var front := trace[..|trace| - 1];
      assert Ordered(front) by { OrderedFront(trace, |trace| - 1); }
      InvHolds(front);
      InvStep(trace, After(front), TrackOf(front), TrackOf(trace));
    }
  }

  lemma NothingYet()
    ensures Inv([], RESET, TrackOf([]))
  {
  }

  lemma OrderedFront(trace: seq<Sample>, n: nat)
    requires Ordered(trace) && n <= |trace|
    ensures Ordered(trace[..n])
  {
  }

  // ----- Events

  // Events are tracked: none came later than the last one.
  lemma {:induction false} EventsTracked(trace: seq<Sample>, j: nat)
    requires j < |trace|
    ensures EventAt(trace, j).Some? ==> j < TrackOf(trace).events
    decreases |trace|
  {
    hide Step;
    var n := |trace| - 1;
    if j < n {
      assert trace[..n][..j] == trace[..j];
      EventsTracked(trace[..n], j);
      EventsGrow(trace);
    }
  }

  lemma EventsGrow(trace: seq<Sample>)
    requires trace != []
    ensures TrackOf(trace).events >= TrackOf(trace[..|trace| - 1]).events || TrackOf(trace).events == |trace|
  {
    hide Step;
  }

  // The press behind an event.
  ghost predicate Presses(trace: seq<Sample>, n: nat, p: nat, q: nat, k: Key) {
    && p < q <= n < |trace| && k != NoKey
    && Held(trace, p, q, k) && Lasts(trace, p, q, DEBOUNCE_MS)
    && NoOther(trace, p, n, k)
    && forall j :: p <= j < n ==> EventAt(trace, j) == None
  }

  ghost predicate LongEvent(trace: seq<Sample>, n: nat, p: nat, k: Key, action: Action) {
    action == (if k == Key1 then Confirm else Back) && Held(trace, n, n, k) && Lasts(trace, p, n, LONG_PRESS_MS)
  }

  ghost predicate ShortEvent(trace: seq<Sample>, n: nat, q: nat, r: nat, k: Key, action: Action) {
    && action == (if k == Key1 then Previous else Next)
    && q < r && AllReleased(trace, r, n) && Lasts(trace, r, n, DEBOUNCE_MS)
  }

  // Every event comes from one key, pressed steadily for 20 ms at sample p, with no sample of
  // the other key and no other event since: the long-press event at 800 ms from the press,
  // bounces included, or the click after 20 ms of release.
  lemma EventComesFromOnePress(trace: seq<Sample>, n: nat) returns (p: nat, q: nat, r: nat, k: Key)
    requires Ordered(trace) && n < |trace| && EventAt(trace, n).Some?
    ensures Presses(trace, n, p, q, k)
    ensures LongEvent(trace, n, p, k, EventAt(trace, n).value) || ShortEvent(trace, n, q, r, k, EventAt(trace, n).value)
  {
    hide Ordered, Held, NoOther, AllReleased, Elapsed, Inv, After, Lasts;
    var upTo := trace[..n + 1];
    var front := trace[..n];
    var m, t := After(front), TrackOf(front);
    assert upTo[..n] == front && upTo[n] == trace[n];
    OrderedFront(trace, n);
    OrderedFront(trace, n + 1);
    InvHolds(front);
    p, q, r, k := t.press, t.steady, t.release, m.active;
    EventPhases(front, m, t, trace[n]);
    PressGoesOn(upTo, t, k, m.pressStarted);
    Prefixed(trace, n + 1, p, q, k);
    Prefixed(trace, n + 1, p, n, k);
    forall j | p <= j < n ensures EventAt(trace, j) == None {
      assert front[..j] == trace[..j] && front[j] == trace[j];
      EventsTracked(front, j);
    }
    OneSample(upTo, k);
    Prefixed(trace, n + 1, n, n, k);
    assert upTo[p] == trace[p] && upTo[q] == trace[q];
    assert Lasts(trace, p, q, DEBOUNCE_MS) by { LastsPrefixed(trace, n + 1, p, q, DEBOUNCE_MS); }
    if m.phase == Pressed {
      ElapsedIsReal(trace, p, n);
      LastsFrom(trace, p, n, LONG_PRESS_MS);
    } else {
      ReleaseGoesOn(upTo, t, m.phaseStarted);
      Prefixed(trace, n + 1, r, n, k);
      assert upTo[r] == trace[r];
      ElapsedIsReal(trace, r, n);
      LastsFrom(trace, r, n, DEBOUNCE_MS);
    }
  }

  // Where events come from.
  lemma EventPhases(front: seq<Sample>, m: Machine, t: Track, s: Sample)
    requires Inv(front, m, t) && Step(m, s).event.Some?
    ensures t.events <= t.press && IsPress(front, t, m.active, m.pressStarted)
    ensures m.phase == Pressed ||
            (m.phase == DebounceRelease && t.steady < t.release && IsRelease(front, t, m.phaseStarted))
    ensures m.phase == Pressed ==>
              s.Only() == m.active && Elapsed(s.Tick(), m.pressStarted) >= LONG_PRESS_MS &&
              Step(m, s).event.value == LongAction(m.active)
    ensures m.phase == DebounceRelease ==>
              s.Released() && Elapsed(s.Tick(), m.phaseStarted) >= DEBOUNCE_MS &&
              Step(m, s).event.value == ShortAction(m.active)
  {
    hide IsPress, IsRelease, Elapsed;
  }

  lemma Prefixed(trace: seq<Sample>, n: nat, a: nat, b: nat, k: Key)
    requires n <= |trace|
    ensures Held(trace[..n], a, b, k) ==> Held(trace, a, b, k)
    ensures AllReleased(trace[..n], a, b) ==> AllReleased(trace, a, b)
    ensures NoOther(trace[..n], a, b, k) ==> NoOther(trace, a, b, k)
  {
    assert forall i :: 0 <= i < n ==> trace[..n][i] == trace[i];
  }

  lemma LastsPrefixed(trace: seq<Sample>, n: nat, a: nat, b: nat, ms: nat)
    requires n <= |trace| && Lasts(trace[..n], a, b, ms)
    ensures Lasts(trace, a, b, ms)
  {
  }

  lemma LastsFrom(trace: seq<Sample>, a: nat, b: nat, ms: nat)
    requires a <= b < |trace| && trace[b].at >= trace[a].at + ms
    ensures Lasts(trace, a, b, ms)
  {
  }

  // The long-press timer runs from the first sample of the press: when the key is held again
  // after a bounce, the event comes as soon as 800 ms from there have passed.
  lemma BounceKeepsLongPress(trace: seq<Sample>, n: nat)
    requires Ordered(trace) && n < |trace|
    requires var m := After(trace[..n]); m.phase == Pressed && trace[n].Only() == m.active
    ensures var p := TrackOf(trace[..n]).press; var k := After(trace[..n]).active;
            && p < n && NoOther(trace, p, n, k)
            && (LONG_PRESS_MS <= trace[n].at - trace[p].at < WORD ==>
                  EventAt(trace, n) == Some(if k == Key1 then Confirm else Back))
            && (trace[n].at - trace[p].at < LONG_PRESS_MS ==> EventAt(trace, n) == None)
  {
    hide Ordered, Held, NoOther, AllReleased, Elapsed, After, Lasts, TrackOf;
    var front := trace[..n];
    var upTo := trace[..n + 1];
    assert upTo[..n] == front && upTo[n] == trace[n];
    OrderedFront(trace, n);
    InvHolds(front);
    var m, t := After(front), TrackOf(front);
    PressGoesOn(upTo, t, m.active, m.pressStarted);
    Prefixed(trace, n + 1, t.press, n, m.active);
    assert front[t.press] == trace[t.press];
    InOrder(trace, t.press, n);
    ElapsedExact(trace[n].at, trace[t.press].at);
  }

  lemma InOrder(trace: seq<Sample>, i: nat, j: nat)
    requires Ordered(trace) && i <= j < |trace|
    ensures trace[i].at <= trace[j].at
  {
  }

  lemma ElapsedExact(now: nat, then_: nat)
    requires then_ <= now
    ensures now - then_ < WORD ==> Elapsed(now % WORD, then_ % WORD) == now - then_
  {
  }

  // ----- From presses to events

  lemma AfterMore(trace: seq<Sample>, n: nat)
    requires n < |trace|
    ensures After(trace[..n + 1]) == Step(After(trace[..n]), trace[n]).machine
  {
    hide Step;
    assert trace[..n + 1][..n] == trace[..n];
  }

  // Nothing is emitted from sample a to sample b, sample b excluded.
  ghost predicate Silent(trace: seq<Sample>, a: nat, b: nat) {
    b <= |trace| && forall j :: a <= j < b ==> EventAt(trace, j) == None
  }

  // The first sample that long after sample a.
  lemma {:induction false} FirstLasting(trace: seq<Sample>, a: nat, q: nat, ms: nat) returns (c: nat)
    requires Ordered(trace) && Lasts(trace, a, q, ms)
    ensures a <= c <= q && Lasts(trace, a, c, ms)
    ensures forall j :: a <= j < c ==> trace[j].at < trace[a].at + ms
    decreases q
  {
    if a < q && trace[q - 1].at >= trace[a].at + ms {
      c := FirstLasting(trace, a, q - 1, ms);
    } else {
      c := q;
    }
  }

  // A key held alone from sample p on, short of a long press.
  lemma {:induction false} HeldGoesOn(trace: seq<Sample>, p: nat, n: nat, k: Key)
    requires Ordered(trace) && p < n && Held(trace, p, n - 1, k) && k != NoKey
    requires After(trace[..p]).phase == Idle && trace[n - 1].at < trace[p].at + LONG_PRESS_MS
    ensures var phase := if trace[n - 1].at - trace[p].at >= DEBOUNCE_MS then Pressed else DebouncePress;
            After(trace[..n]) == Machine(phase, k, trace[p].Tick(), trace[p].Tick())
    ensures Silent(trace, p, n)
    decreases n
  {
    hide After, Elapsed;
    AfterMore(trace, n - 1);
    if p + 1 < n {
      HeldGoesOn(trace, p, n - 1, k);
      ElapsedExact(trace[n - 1].at, trace[p].at);
    }
  }

  // The release of a key that was pressed, before it counts.
  lemma {:induction false} ReleasedGoesOn(trace: seq<Sample>, r: nat, n: nat, k: Key)
    requires Ordered(trace) && r < n && AllReleased(trace, r, n - 1) && k != NoKey
    requires var m := After(trace[..r]); m.phase == Pressed && m.active == k
    requires trace[n - 1].at < trace[r].at + DEBOUNCE_MS
    ensures var m := After(trace[..n]);
            m.phase == DebounceRelease && m.active == k && m.phaseStarted == trace[r].Tick()
    ensures Silent(trace, r, n)
    decreases n
  {
    hide After, Elapsed;
    AfterMore(trace, n - 1);
    if r + 1 < n {
      ReleasedGoesOn(trace, r, n - 1, k);
      ElapsedExact(trace[n - 1].at, trace[r].at);
    }
  }

  // Without a key nothing is emitted unless a click is due.
  lemma {:induction false} ReleasedIsSilent(trace: seq<Sample>, a: nat, n: nat)
    requires a <= n <= |trace| && (a < n ==> AllReleased(trace, a, n - 1))
    requires After(trace[..a]).phase != Pressed && After(trace[..a]).phase != DebounceRelease
    ensures After(trace[..n]).phase != Pressed && After(trace[..n]).phase != DebounceRelease
    ensures After(trace[..a]).phase == Idle ==> After(trace[..n]).phase == Idle
    ensures Silent(trace, a, n)
    decreases n
  {
    hide After, Elapsed;
    if a < n {
      AfterMore(trace, n - 1);
      ReleasedIsSilent(trace, a, n - 1);
    }
  }

  // After a long press the same key emits nothing more while it stays down.
  lemma {:induction false} LongIsSilent(trace: seq<Sample>, a: nat, n: nat, k: Key)
    requires a <= n <= |trace| && (a < n ==> Held(trace, a, n - 1, k)) && k != NoKey
    requires After(trace[..a]).phase == LongEmitted && After(trace[..a]).active == k
    ensures After(trace[..n]).phase == LongEmitted && After(trace[..n]).active == k
    ensures Silent(trace, a, n)
    decreases n
  {
    hide After, Elapsed;
    if a < n {
      AfterMore(trace, n - 1);
      LongIsSilent(trace, a, n - 1, k);
    }
  }

  // The only event of samples a to b.
  ghost predicate OnlyEvent(trace: seq<Sample>, a: nat, b: nat, c: nat, action: Action) {
    && a <= c <= b < |trace| && EventAt(trace, c) == Some(action)
    && forall j :: a <= j <= b && j != c ==> EventAt(trace, j) == None
  }

  // A key that is held alone, for 20 ms but not for 800, and then left released emits its
  // click once and nothing else: at the first sample 20 ms after the release.
  lemma PressGivesOneClick(trace: seq<Sample>, p: nat, r: nat, q: nat, n: nat, k: Key) returns (c: nat)
    requires Ordered(trace) && p < r < q <= n < |trace| && k != NoKey && After(trace[..p]).phase == Idle
    requires Held(trace, p, r - 1, k) && DEBOUNCE_MS <= trace[r - 1].at - trace[p].at < LONG_PRESS_MS
    requires AllReleased(trace, r, n) && DEBOUNCE_MS <= trace[q].at - trace[r].at < WORD
    ensures OnlyEvent(trace, p, n, c, if k == Key1 then Previous else Next)
    ensures r < c <= q && Lasts(trace, r, c, DEBOUNCE_MS)
    ensures forall j :: r <= j < c ==> trace[j].at < trace[r].at + DEBOUNCE_MS
  {
    hide After, Elapsed;
    c := FirstLasting(trace, r, q, DEBOUNCE_MS);
    HeldGoesOn(trace, p, r, k);
    ReleasedGoesOn(trace, r, c, k);
    InOrder(trace, c, q);
    ElapsedExact(trace[c].at, trace[r].at);
    AfterMore(trace, c);
    ReleasedIsSilent(trace, c + 1, n + 1);
  }

  // A shorter contact is ignored.
  lemma ContactIsIgnored(trace: seq<Sample>, p: nat, r: nat, n: nat, k: Key)
    requires Ordered(trace) && p < r <= n < |trace| && k != NoKey && After(trace[..p]).phase == Idle
    requires Held(trace, p, r - 1, k) && trace[r - 1].at - trace[p].at < DEBOUNCE_MS && AllReleased(trace, r, n)
    ensures Silent(trace, p, n + 1) && After(trace[..n + 1]).phase == Idle
  {
    hide After, Elapsed;
    HeldGoesOn(trace, p, r, k);
    AfterMore(trace, r);
    ReleasedIsSilent(trace, r + 1, n + 1);
  }

  // A key that is held alone for 800 ms, seen at least once after the first 20 of them, emits
  // its long-press event once, at the first sample from 800 ms on, and no click when it is
  // released from sample r on.
  lemma HoldGivesOneLongPress(trace: seq<Sample>, p: nat, s: nat, q: nat, r: nat, n: nat, k: Key) returns (c: nat)
    requires Ordered(trace) && p < s < q < r <= n + 1 <= |trace| && k != NoKey && After(trace[..p]).phase == Idle
    requires Held(trace, p, r - 1, k) && (r <= n ==> AllReleased(trace, r, n))
    requires DEBOUNCE_MS <= trace[s].at - trace[p].at < LONG_PRESS_MS
    requires LONG_PRESS_MS <= trace[q].at - trace[p].at < WORD
    ensures OnlyEvent(trace, p, n, c, if k == Key1 then Confirm else Back)
    ensures s < c <= q && Lasts(trace, p, c, LONG_PRESS_MS)
    ensures forall j :: p <= j < c ==> trace[j].at < trace[p].at + LONG_PRESS_MS
  {
    hide After, Elapsed;
    c := FirstLasting(trace, p, q, LONG_PRESS_MS);
    HeldGoesOn(trace, p, c, k);
    InOrder(trace, s, c - 1);
    InOrder(trace, c, q);
    ElapsedExact(trace[c].at, trace[p].at);
    AfterMore(trace, c);
    LongIsSilent(trace, c + 1, r, k);
    ReleasedIsSilent(trace, r, n + 1);
  }

  // From whatever state, the recogniser is idle once no key has been down for 20 ms, as the
  // samples tell.
  lemma IdleAfterRelease(trace: seq<Sample>, a: nat, q: nat, n: nat)
    requires Ordered(trace) && a < q < n <= |trace| && AllReleased(trace, a, n - 1)
    requires DEBOUNCE_MS <= trace[q].at - trace[a].at <= WORD - DEBOUNCE_MS
    ensures After(trace[..n]).phase == Idle
  {
    hide After, Elapsed;
    ReleaseSettles(trace, a, q);
    ReleasedIsSilent(trace, q + 1, n);
  }

  ghost predicate Releasing(m: Machine) {
    m.phase == DebounceRelease || m.phase == DebounceLongRelease || m.phase == DebounceBlockedRelease
  }

  // A sample without a key leaves the recogniser idle or waiting for the release to last.
  lemma ReleaseRuns(trace: seq<Sample>, a: nat)
    requires Ordered(trace) && a < |trace| && trace[a].Released()
    ensures var m := After(trace[..a + 1]);
            m.phase == Idle || (Releasing(m) && Elapsed(trace[a].Tick(), m.phaseStarted) < DEBOUNCE_MS)
  {
    hide After, Elapsed;
    AfterMore(trace, a);
    ElapsedExact(trace[a].at, trace[a].at);
    ReleaseHasKey(trace, a);
  }

  lemma ReleaseHasKey(trace: seq<Sample>, n: nat)
    requires Ordered(trace) && n <= |trace|
    ensures var m := After(trace[..n]);
            m.phase == DebounceRelease || m.phase == DebounceLongRelease ==> m.active != NoKey
  {
    hide After, Elapsed, TrackOf;
    OrderedFront(trace, n);
    InvHolds(trace[..n]);
  }

  // From there on without a key, it gets idle.
  lemma {:induction false} ReleaseSettles(trace: seq<Sample>, a: nat, q: nat)
    requires Ordered(trace) && a <= q && AllReleased(trace, a, q)
    requires trace[q].at - trace[a].at <= WORD - DEBOUNCE_MS
    ensures var m, from := After(trace[..q + 1]), After(trace[..a + 1]);
            m.phase == Idle ||
            (trace[q].at - trace[a].at < DEBOUNCE_MS && Releasing(m) && Releasing(from) &&
             m.phaseStarted == from.phaseStarted)
    decreases q
  {
    hide After, Elapsed;
    ReleaseRuns(trace, a);
    if a < q {
      AfterMore(trace, q);
      ReleaseSettles(trace, a, q - 1);
      ReleaseHasKey(trace, q);
      if After(trace[..q]).phase != Idle {
        ElapsedMore(trace[a].at, trace[q].at, After(trace[..a + 1]).phaseStarted);
      }
    }
  }

  lemma ElapsedMore(before: nat, now: nat, then_: nat)
    requires before <= now && Elapsed(before % WORD, then_) + (now - before) < WORD
    ensures Elapsed(now % WORD, then_) == Elapsed(before % WORD, then_) + (now - before)
  {
  }

  // ----- After an overlap

  // A block begun at sample o has been cleared by 20 ms without any key.
  ghost predicate Cleared(trace: seq<Sample>, o: nat, r: nat, q: nat) {
    o < r && AllReleased(trace, r, q) && Lasts(trace, r, q, DEBOUNCE_MS)
  }

  ghost predicate BlockInv(trace: seq<Sample>, m: Machine, t: Track, o: nat) {
    match m.phase
    case Blocked => true
    case DebounceBlockedRelease => o < t.release
    case _ => Cleared(trace, o, t.clearFrom, t.clearTo)
  }

  lemma {:induction false} BlockHolds(trace: seq<Sample>, o: nat)
    requires Ordered(trace) && o < |trace| && trace[o].Both()
    ensures BlockInv(trace, After(trace), TrackOf(trace), o)
    decreases |trace|
  {
    hide Inv, Cleared, Elapsed;
    var n := |trace| - 1;
    if o < n {
      var front := trace[..n];
      OrderedFront(trace, n);
      BlockHolds(front, o);
      BlockStep(trace, o);
    }
  }

  lemma BlockStep(trace: seq<Sample>, o: nat)
    requires Ordered(trace) && o < |trace| - 1
    requires var front := trace[..|trace| - 1]; BlockInv(front, After(front), TrackOf(front), o)
    ensures BlockInv(trace, After(trace), TrackOf(trace), o)
  {
    hide Ordered, Cleared, Elapsed, AllReleased, Inv;
    var n := |trace| - 1;
    var front := trace[..n];
    var m, t := After(front), TrackOf(front);
    if m.phase == DebounceBlockedRelease && Step(m, trace[n]).machine.phase == Idle {
      assert Ordered(front) by { OrderedFront(trace, n); }
      InvHolds(front);
      BlockClears(trace, m, t, o);
    } else if m.phase != Blocked && m.phase != DebounceBlockedRelease {
      ClearedStays(trace, o, t.clearFrom, t.clearTo);
    }
  }

  lemma BlockClears(trace: seq<Sample>, m: Machine, t: Track, o: nat)
    requires Ordered(trace) && trace != [] && o < t.release
    requires Inv(trace[..|trace| - 1], m, t) && m.phase == DebounceBlockedRelease
    requires Step(m, trace[|trace| - 1]).machine.phase == Idle
    ensures Cleared(trace, o, t.release, |trace| - 1)
  {
    hide Ordered, Elapsed, AllReleased;
    var n := |trace| - 1;
    ReleaseGoesOn(trace, t, m.phaseStarted);
    assert trace[..n][t.release] == trace[t.release];
    ElapsedIsReal(trace, t.release, n);
  }

  lemma ClearedStays(trace: seq<Sample>, o: nat, r: nat, q: nat)
    requires trace != [] && Cleared(trace[..|trace| - 1], o, r, q)
    ensures Cleared(trace, o, r, q)
  {
    SamplesStay(trace, r, q, NoKey);
  }

  // After a sample with both keys down nothing is emitted until no key has been down for
  // 20 ms.
  lemma NothingUntilClear(trace: seq<Sample>, o: nat, n: nat) returns (r: nat, q: nat)
    requires Ordered(trace) && o < n < |trace| && trace[o].Both() && EventAt(trace, n).Some?
    ensures o < r <= q < n && Cleared(trace, o, r, q)
  {
    hide Ordered, Inv, After, TrackOf, AllReleased, Elapsed;
    var front := trace[..n];
    OrderedFront(trace, n);
    BlockHolds(front, o);
    var t := TrackOf(front);
    r, q := t.clearFrom, t.clearTo;
    Prefixed(trace, n, r, q, NoKey);
    LastsPrefixed(trace, n, r, q, DEBOUNCE_MS);
  }
}
