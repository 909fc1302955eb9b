// The pause handshake of services/book/book_catalog_service.cpp: one controller that
// activates, pauses and asks whether the worker is idle, and the worker's loop, as atomic
// loads and stores in any interleaving. The 32-bit serial is taken not to wrap around.
module CatalogHandshake {
  // The atomics.
  datatype Shared = Shared(desiredActive: bool, serial: nat, busy: bool, acknowledged: nat)

  // The worker's loop: its head; the paused branch after its load; the pass over the catalog.
  datatype Worker =
    | Head
    | Cancelling
    | Clearing
    | LoadingSerial
    | Acknowledging(seen: nat)
    | Waiting
    | Active

  // What the controller is doing; idle() loads one atomic after the other.
  datatype Controller =
    | Resting
    | Activating          // the serial has been raised
    | Pausing             // desired_active has been cleared
    | AskedDesired
    | AskedBusy
    | AskedAcknowledged(acknowledged: nat)
    | Answered(idle: bool)

  datatype State = State(shared: Shared, worker: Worker, controller: Controller)

  datatype Call = Activate | Pause | AskIdle

  // A step of the worker, with what a step of an active pass does to worker_busy and whether
  // it ends the pass; or of the controller, with what it is called for next.
  datatype Turn = WorkerTurn(busy: bool, ends: bool) | ControllerTurn(call: Call)

  function WorkerStep(s: State, busy: bool, ends: bool): State {
    match s.worker
    case Head => s.(worker := if s.shared.desiredActive then Active else Cancelling)
    case Cancelling => s.(worker := Clearing)
    case Clearing => s.(shared := s.shared.(busy := false), worker := LoadingSerial)
    case LoadingSerial => s.(worker := Acknowledging(s.shared.serial))
    case Acknowledging(seen) => s.(shared := s.shared.(acknowledged := seen), worker := Waiting)
    case Waiting => s.(worker := Head)
    case Active => s.(shared := s.shared.(busy := busy), worker := if ends then Head else Active)
  }

  function ControllerStep(s: State, call: Call): State {
    match s.controller
    case Resting => Called(s, call)
    case Answered(_) => Called(s, call)
    case Activating => s.(shared := s.shared.(desiredActive := true), controller := Resting)
    case Pausing => s.(shared := s.shared.(serial := s.shared.serial + 1), controller := Resting)
    case AskedDesired => s.(controller := if s.shared.busy then Answered(false) else AskedBusy)
    case AskedBusy => s.(controller := AskedAcknowledged(s.shared.acknowledged))
    case AskedAcknowledged(a) => s.(controller := Answered(a == s.shared.serial))
  }

  // The first atomic step of a call.
  function Called(s: State, call: Call): State {
    match call
    case Activate => s.(shared := s.shared.(serial := s.shared.serial + 1), controller := Activating)
    case Pause => s.(shared := s.shared.(desiredActive := false), controller := Pausing)
    case AskIdle => s.(controller := if s.shared.desiredActive then Answered(false) else AskedDesired)
  }

  function Step(s: State, t: Turn): State {
    match t
    case WorkerTurn(busy, ends) => WorkerStep(s, busy, ends)
    case ControllerTurn(call) => ControllerStep(s, call)
  }

  function Run(s: State, turns: seq<Turn>): State
    decreases |turns|
  {
    if turns == [] then s else Run(Step(s, turns[0]), turns[1..])
  }

  const START: State := State(Shared(false, 0, false, 0), Head, Resting)

  // ----- The invariant

  // The current serial has been seen by the worker, in its paused branch.
  predicate Seen(s: State) {
    s.shared.acknowledged == s.shared.serial || s.worker == Acknowledging(s.shared.serial)
  }

  // idle() is under way or has just said yes.
  predicate Asking(c: Controller) {
    c.AskedDesired? || c.AskedBusy? || c.AskedAcknowledged? || (c.Answered? && c.idle)
  }

  ghost predicate Inv(s: State) {
    && s.shared.acknowledged <= s.shared.serial
    && (s.worker.Acknowledging? ==> s.shared.acknowledged <= s.worker.seen <= s.shared.serial)
    // A worker that has seen the serial of a pause is not in a pass.
    && (!s.shared.desiredActive && s.controller != Pausing && Seen(s) ==> s.worker != Active)
    && (Asking(s.controller) ==> !s.shared.desiredActive)
    && (s.controller.AskedAcknowledged? ==> s.controller.acknowledged <= s.shared.acknowledged)
    && (s.controller == Answered(true) ==> s.shared.acknowledged == s.shared.serial)
  }

  lemma StepInv(s: State, t: Turn)
    requires Inv(s)
    ensures Inv(Step(s, t))
  {
  }

  lemma {:induction false} RunInv(s: State, turns: seq<Turn>)
    requires Inv(s)
    ensures Inv(Run(s, turns))
    decreases |turns|
  {
    hide Step, Inv;
    if turns != [] {
      StepInv(s, turns[0]);
      RunInv(Step(s, turns[0]), turns[1..]);
    }
  }

  // No store of an activation is among the turns.
  predicate NoActivation(turns: seq<Turn>) {
    forall i :: 0 <= i < |turns| ==> !(turns[i].ControllerTurn? && turns[i].call == Activate)
  }

  // The worker is outside its passes and has no reason to start one.
  predicate Parked(s: State) {
    !s.shared.desiredActive && s.worker != Active && s.controller != Activating
  }

  lemma {:induction false} ParkedStays(s: State, turns: seq<Turn>)
    requires Parked(s) && NoActivation(turns)
    ensures Parked(Run(s, turns))
    decreases |turns|
  {
    if turns != [] {
      ParkedStays(Step(s, turns[0]), turns[1..]);
    }
  }

  // ----- The results

  // Whenever idle() has said yes, the worker is outside every pass, and stays so until the
  // next activation, whatever steps follow.
  lemma IdleMeansParked(turns: seq<Turn>, more: seq<Turn>)
    requires Run(START, turns).controller == Answered(true) && NoActivation(more)
    ensures var s := Run(START, turns);
            Parked(s) && Parked(Run(s, more)) && Run(s, more).worker != Active
  {
    hide Run, NoActivation;
    RunInv(START, turns);
    ParkedStays(Run(START, turns), more);
  }

  // ----- A pause is acknowledged

  // The controller does nothing but ask.
  predicate AsksOnly(turns: seq<Turn>) {
    forall i :: 0 <= i < |turns| && turns[i].ControllerTurn? ==> turns[i].call == AskIdle
  }

  function WorkerTurns(turns: seq<Turn>): nat {
    if turns == [] then 0 else WorkerTurns(turns[1..]) + if turns[0].WorkerTurn? then 1 else 0
  }

  function Asks(turns: seq<Turn>): nat {
    if turns == [] then 0 else Asks(turns[1..]) + if turns[0].ControllerTurn? then 1 else 0
  }

  // A pause is complete, and the worker has taken k steps since the head of its loop: those of
  // its paused branch, after which it has acknowledged the pause for good.
  predicate PausedFor(s: State, k: nat) {
    && !s.shared.desiredActive && s.controller != Activating && s.controller != Pausing
    && match k
       case 0 => s.worker == Head
       case 1 => s.worker == Cancelling
       case 2 => s.worker == Clearing
       case 3 => s.worker == LoadingSerial && !s.shared.busy
       case 4 => s.worker == Acknowledging(s.shared.serial) && !s.shared.busy
       case _ =>
         s.worker != Active && !s.shared.busy && s.shared.acknowledged == s.shared.serial &&
         (s.worker.Acknowledging? ==> s.worker.seen == s.shared.serial)
  }

  lemma {:induction false} PausedRun(s: State, k: nat, turns: seq<Turn>)
    requires PausedFor(s, k) && AsksOnly(turns)
    ensures PausedFor(Run(s, turns), k + WorkerTurns(turns))
    decreases |turns|
  {
    if turns != [] {
      PausedRun(Step(s, turns[0]), if turns[0].WorkerTurn? then k + 1 else k, turns[1..]);
    }
  }

  // Where n turns of the controller have brought a call of idle() whose loads all say yes.
  predicate AskedFor(s: State, n: nat) {
    if n == 0 then s.controller == Resting || s.controller.Answered?
    else if n % 4 == 1 then s.controller == AskedDesired
    else if n % 4 == 2 then s.controller == AskedBusy
    else if n % 4 == 3 then s.controller == AskedAcknowledged(s.shared.serial)
    else s.controller == Answered(true)
  }

  lemma {:induction false} AskedRun(s: State, n: nat, turns: seq<Turn>)
    requires PausedFor(s, 5) && AskedFor(s, n) && AsksOnly(turns)
    ensures AskedFor(Run(s, turns), n + Asks(turns))
    decreases |turns|
  {
    if turns != [] {
      var t := turns[0];
      assert PausedFor(Step(s, t), 5);
      AskedRun(Step(s, t), if t.ControllerTurn? then n + 1 else n, turns[1..]);
    }
  }

  // Once the worker has gone through its paused branch after a pause, whatever questions came
  // in between, every later call of idle() is answered yes, however its loads and the worker's
  // steps interleave.
  lemma PauseIsAcknowledged(s: State, turns: seq<Turn>, more: seq<Turn>)
    requires !s.shared.desiredActive && s.controller != Activating && s.controller != Pausing && s.worker == Head
    requires AsksOnly(turns) && WorkerTurns(turns) >= 5
    requires var t := Run(s, turns); t.controller == Resting || t.controller.Answered?
    requires AsksOnly(more) && Asks(more) >= 4 && Asks(more) % 4 == 0
    ensures Run(Run(s, turns), more).controller == Answered(true)
  {
    hide Run, AsksOnly;
    PausedRun(s, 0, turns);
    AskedRun(Run(s, turns), 0, more);
  }

  // ----- What the two do by themselves

  function Alone(t: Turn, n: nat): seq<Turn> { if n == 0 then [] else [t] + Alone(t, n - 1) }

  lemma AloneMore(s: State, t: Turn, n: nat)
    ensures Run(s, Alone(t, n + 1)) == Run(Step(s, t), Alone(t, n))
  {
    hide Step;
    assert Alone(t, n + 1)[1..] == Alone(t, n);
  }

  // How many steps the worker is from the head of its loop.
  function ToHead(w: Worker): nat {
    match w
    case Head => 0
    case Cancelling => 5
    case Clearing => 4
    case LoadingSerial => 3
    case Acknowledging(_) => 2
    case Waiting => 1
    case Active => 1
  }

  // The worker comes round to the head of its loop.
  lemma {:induction false} WorkerReturns(s: State, busy: bool)
    ensures var r := Run(s, Alone(WorkerTurn(busy, true), ToHead(s.worker)));
            r.worker == Head && r.controller == s.controller && r.shared.desiredActive == s.shared.desiredActive
    decreases ToHead(s.worker)
  {
    if s.worker != Head {
      AloneMore(s, WorkerTurn(busy, true), ToHead(s.worker) - 1);
      WorkerReturns(WorkerStep(s, busy, true), busy);
    }
  }

  // So a worker that is wanted starts a pass, and one that is not acknowledges the pause.
  lemma WorkerServes(s: State, busy: bool)
    requires s.worker == Head
    ensures s.shared.desiredActive ==> Step(s, WorkerTurn(busy, true)).worker == Active
    ensures !s.shared.desiredActive ==>
              var r := Run(s, Alone(WorkerTurn(busy, true), 5));
              !r.shared.busy && r.shared.acknowledged == s.shared.serial == r.shared.serial
  {
    var t := WorkerTurn(busy, true);
    if !s.shared.desiredActive {
      var a := Step(s, t);
      var b := Step(a, t);
      var c := Step(b, t);
      var d := Step(c, t);
      AloneMore(s, t, 4);
      AloneMore(a, t, 3);
      AloneMore(b, t, 2);
      AloneMore(c, t, 1);
      AloneMore(d, t, 0);
    }
  }

  // Each call of the controller comes to its end: it wants the worker, or not, under a new
  // serial, or has the answer.
  lemma CallsReturn(s: State, call: Call) returns (n: nat)
    requires s.controller == Resting || s.controller.Answered?
    ensures var r := Run(s, Alone(ControllerTurn(call), n));
            && r.worker == s.worker
            && match call
               case Activate =>
                 r.controller == Resting && r.shared.desiredActive && r.shared.serial == s.shared.serial + 1
               case Pause =>
                 r.controller == Resting && !r.shared.desiredActive && r.shared.serial == s.shared.serial + 1
               case AskIdle =>
                 r.shared == s.shared &&
                 r.controller == Answered(!s.shared.desiredActive && !s.shared.busy &&
                                          s.shared.acknowledged == s.shared.serial)
  {
    var t := ControllerTurn(call);
    var a := Step(s, t);
    var b := Step(a, t);
    var c := Step(b, t);
    var d := Step(c, t);
    n := if call != AskIdle then 2 else if s.shared.desiredActive then 1 else if s.shared.busy then 2 else 4;
    AloneMore(s, t, n - 1);
    if n > 1 {
      AloneMore(a, t, n - 2);
    }
    if n > 2 {
      AloneMore(b, t, n - 3);
      AloneMore(c, t, n - 4);
    }
    assert Alone(t, 0) == [];
  }
}
