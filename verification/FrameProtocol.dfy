// Who owns display frames: producers, the two-entry request queue, the renderer, the
// presented frame and read guards, as tasks whose atomic steps interleave.
// ui/paper_mono/ui_renderer.cpp, ui/ui_presentation.cpp over ui/paper_mono/ui_frame_pool.cpp.
module FrameProtocol {
  import opened FramePool

  const QUEUE_LENGTH: nat := 2

  datatype Frame = Frame(view: nat, viewGeneration: nat, payload: int)

  datatype Presented = Presented(view: nat, generation: nat, handle: Handle)

  datatype Shared = Shared(slots: seq<Slot<Frame>>, queue: seq<Handle>, presented: Presented)

  datatype State = State(shared: Shared, tasks: seq<Task>)

  // ----- Tasks: where each one is, and which handles it holds there

  datatype Task =
    // acquire_request() and submit_request()
    | Producing
    | PoolFull                                  // the first acquire failed
    | Discarding(taken: Handle)                   // took an entry from the queue
    | Retrying
    | Filling(own: Handle)
    | QueueFull(own: Handle)
    | Displacing(own: Handle, taken: Handle)      // took an entry from the queue
    | Publishing(own: Handle)
    | Abandoning(own: Handle)
    | Sending(sent: Handle)
    | Unsent(sent: Handle)
    // renderer_task() and ui_presentation_commit_frame()
    | Draining(next: Handle, latest: Handle)
    | Received(candidate: Handle, next: Handle, latest: Handle)
    | Superseding(candidate: Handle, next: Handle, latest: Handle)
    | Drawing(next: Handle, latest: Handle)
    | Failed(next: Handle, latest: Handle)
    | Refreshed(next: Handle, latest: Handle)
    | Committing(next: Handle, latest: Handle)  // resolved
    | Swapping(next: Handle, latest: Handle)    // retained for the presentation
    | Replacing(previous: Handle, next: Handle, latest: Handle)
    | Keeping(next: Handle, latest: Handle)
    // ui_presentation_read_guard
    | Closed
    | Checking(view: nat, held: Handle)
    | Resolving(view: nat, held: Handle)
    | Reading(view: nat, held: Handle)
    | Rejected(held: Handle)

  // One reference to h, if a is h.
  function Eq(a: Handle, h: Handle): nat { if a == h then 1 else 0 }

  // The same for a variable that may hold no handle.
  function Opt(a: Handle, h: Handle): nat { if IsValid(a) && a == h then 1 else 0 }

  // The references to h as a frame the task is still building: nobody else may hold them.
  function BuildingBy(t: Task, h: Handle): nat {
    match t
    case Filling(own) => Eq(own, h)
    case QueueFull(own) => Eq(own, h)
    case Displacing(own, _) => Eq(own, h)
    case Publishing(own) => Eq(own, h)
    case Abandoning(own) => Eq(own, h)
    case _ => 0
  }

  // The references to h as a published frame that the task holds.
  function HeldBy(t: Task, h: Handle): nat {
    match t
    case Discarding(taken) => Eq(taken, h)
    case Displacing(_, taken) => Eq(taken, h)
    case Sending(sent) => Eq(sent, h)
    case Unsent(sent) => Eq(sent, h)
    case Draining(next, latest) => Opt(next, h) + Opt(latest, h)
    case Received(candidate, next, latest) => Eq(candidate, h) + Opt(next, h) + Opt(latest, h)
    case Superseding(candidate, next, latest) => Eq(candidate, h) + Opt(next, h) + Opt(latest, h)
    case Drawing(next, latest) => Eq(next, h) + Opt(latest, h)
    case Failed(next, latest) => Eq(next, h) + Opt(latest, h)
    case Refreshed(next, latest) => Eq(next, h) + Opt(latest, h)
    case Committing(next, latest) => Eq(next, h) + Opt(latest, h)
    case Swapping(next, latest) => 2 * Eq(next, h) + Opt(latest, h)
    case Replacing(previous, next, latest) => Eq(previous, h) + Eq(next, h) + Opt(latest, h)
    case Keeping(next, latest) => Eq(next, h) + Opt(latest, h)
    case Checking(_, held) => Eq(held, h)
    case Resolving(_, held) => Eq(held, h)
    case Reading(_, held) => Eq(held, h)
    case Rejected(held) => Eq(held, h)
    case _ => 0
  }

  // ----- Steps

  // What a step may depend on besides the state: whether a producer goes on writing, gives
  // up or submits, what it writes, whether a refresh succeeds, which view a guard asks for.
  datatype Choice = Choice(write: bool, giveUp: bool, frame: Frame, success: bool, view: nat)

  // The state after a step, and whether a pool call on a handle the task owns was refused.
  datatype Outcome = Outcome(shared: Shared, task: Task, refused: bool)

  function Receive(s: Shared): Shared
    requires s.queue != []
  {
    s.(queue := s.queue[1..])
  }

  // Releases a handle and goes on.
  function Releasing(s: Shared, h: Handle, then_: Task): Outcome
    requires |s.slots| == CAPACITY
  {
    var (slots, released) := Release(s.slots, h);
    Outcome(s.(slots := slots), then_, !released)
  }

  // release_frame(): an invalid handle is no owner.
  function ReleasingIfAny(s: Shared, h: Handle, then_: Task): Outcome
    requires |s.slots| == CAPACITY
  {
    if IsValid(h) then Releasing(s, h, then_) else Outcome(s, then_, false)
  }

  function Going(s: Shared, t: Task): Outcome { Outcome(s, t, false) }

  function ProducerStep(s: Shared, t: Task, c: Choice): Outcome
    requires |s.slots| == CAPACITY
  {
    match t
    case Producing =>
      var (slots, h) := Acquired(s.slots);
      Going(s.(slots := slots), if IsValid(h) then Filling(h) else PoolFull)
    case PoolFull =>
      if s.queue == [] then Going(s, Producing) else Going(Receive(s), Discarding(s.queue[0]))
    case Discarding(taken) => Releasing(s, taken, Retrying)
    case Retrying =>
      var (slots, h) := Acquired(s.slots);
      Going(s.(slots := slots), if IsValid(h) then Filling(h) else Producing)
    case Filling(own) =>
      if c.write then Going(Written(s, own, c.frame), t)
      else if c.giveUp then Going(s, Abandoning(own))
      else if |s.queue| == QUEUE_LENGTH then Going(s, QueueFull(own))
      else Going(s, Publishing(own))
    case QueueFull(own) =>
      if s.queue == [] then Going(s, Abandoning(own)) else Going(Receive(s), Displacing(own, s.queue[0]))
    case Displacing(own, taken) => Releasing(s, taken, Publishing(own))
    case Publishing(own) =>
      if c.write then Going(Written(s, own, c.frame), t)
      else
        var (slots, published) := Publish(s.slots, own);
        if published then Going(s.(slots := slots), Sending(own)) else Outcome(s, Abandoning(own), true)
    case Abandoning(own) => Releasing(s, own, Producing)
    case Sending(sent) =>
      if |s.queue| < QUEUE_LENGTH then Going(s.(queue := s.queue + [sent]), Producing) else Going(s, Unsent(sent))
    case Unsent(sent) => Releasing(s, sent, Producing)
    case _ => Going(s, t)
  }

  // The producer writes through the pointer the pool gave it.
  function Written(s: Shared, own: Handle, frame: Frame): Shared
    requires |s.slots| == CAPACITY
  {
    if IsValid(own) then s.(slots := s.slots[own.index := s.slots[own.index].(frame := frame)]) else s
  }

  function RendererStep(s: Shared, t: Task, c: Choice): Outcome
    requires |s.slots| == CAPACITY
  {
    match t
    case Draining(next, latest) =>
      if s.queue != [] then Going(Receive(s), Received(s.queue[0], next, latest))
      else if IsValid(next) then Going(s, Drawing(next, latest))
      else Going(s, t)
    case Received(candidate, next, latest) =>
      if Resolves(s.slots, candidate) then Going(s, Superseding(candidate, next, latest))
      else Outcome(s, Draining(next, latest), true)
    case Superseding(candidate, next, latest) => ReleasingIfAny(s, next, Draining(candidate, latest))
    case Drawing(next, latest) => Going(s, if c.success then Refreshed(next, latest) else Failed(next, latest))
    case Failed(next, latest) => Releasing(s, next, Draining(INVALID, latest))
    case Refreshed(next, latest) =>
      if Resolves(s.slots, next) then Going(s, Committing(next, latest))
      else Outcome(s, Keeping(next, latest), true)
    case Committing(next, latest) =>
      var (slots, retained) := Retain(s.slots, next);
      if retained then Going(s.(slots := slots), Swapping(next, latest)) else Outcome(s, Keeping(next, latest), true)
    case Swapping(next, latest) =>
      var previous := s.presented.handle;
      var frame := if IsValid(next) then s.slots[next.index].frame else c.frame;
      Going(s.(presented := Presented(frame.view, frame.viewGeneration, next)),
            if IsValid(previous) then Replacing(previous, next, latest) else Keeping(next, latest))
    case Replacing(previous, next, latest) => Releasing(s, previous, Keeping(next, latest))
    case Keeping(next, latest) => ReleasingIfAny(s, latest, Draining(INVALID, next))
    case _ => Going(s, t)
  }

  predicate Shows(p: Presented, view: nat) {
    p.view == view && p.generation != 0
  }

  function GuardStep(s: Shared, t: Task, c: Choice): Outcome
    requires |s.slots| == CAPACITY
  {
    match t
    case Closed =>
      if Shows(s.presented, c.view) && IsValid(s.presented.handle) then
        var (slots, retained) := Retain(s.slots, s.presented.handle);
        Going(s.(slots := slots), if retained then Checking(c.view, s.presented.handle) else Closed)
      else Going(s, Closed)
    case Checking(view, held) =>
      if Shows(s.presented, view) && s.presented.handle == held then Going(s, Resolving(view, held))
      else Going(s, Rejected(held))
    case Resolving(view, held) =>
      if Resolves(s.slots, held) then Going(s, Reading(view, held)) else Outcome(s, Rejected(held), true)
    case Reading(view, held) => Releasing(s, held, Closed)
    case Rejected(held) => Releasing(s, held, Closed)
    case _ => Going(s, t)
  }

  function StepOf(s: Shared, t: Task, c: Choice): Outcome
    requires |s.slots| == CAPACITY
  {
    if t.Closed? || t.Checking? || t.Resolving? || t.Reading? || t.Rejected? then GuardStep(s, t, c)
    else if t.Draining? || t.Received? || t.Superseding? || t.Drawing? || t.Failed? || t.Refreshed? || t.Committing? ||
            t.Swapping? || t.Replacing? || t.Keeping? then RendererStep(s, t, c)
    else ProducerStep(s, t, c)
  }

  // Task i takes a step.
  function Stepped(s: State, i: nat, c: Choice): State
    requires i < |s.tasks| && |s.shared.slots| == CAPACITY
  {
    After(s, i, StepOf(s.shared, s.tasks[i], c))
  }

  function After(s: State, i: nat, r: Outcome): State
    requires i < |s.tasks|
  {
    State(r.shared, s.tasks[i := r.task])
  }

  // ----- The ledger: every reference is counted

  function AllBuilding(tasks: seq<Task>, h: Handle): nat {
    if tasks == [] then 0 else BuildingBy(tasks[0], h) + AllBuilding(tasks[1..], h)
  }

  function AllHeld(tasks: seq<Task>, h: Handle): nat {
    if tasks == [] then 0 else HeldBy(tasks[0], h) + AllHeld(tasks[1..], h)
  }

  function Queued(queue: seq<Handle>, h: Handle): nat {
    if queue == [] then 0 else Eq(queue[0], h) + Queued(queue[1..], h)
  }

  // All references to a frame being built.
  function Built(s: State, h: Handle): nat { AllBuilding(s.tasks, h) }

  // All references to a published frame: of the tasks, the queue and the presentation.
  function Held(s: State, h: Handle): nat {
    AllHeld(s.tasks, h) + Queued(s.shared.queue, h) + Opt(s.shared.presented.handle, h)
  }

  predicate Tagged(slots: seq<Slot<Frame>>, h: Handle)
    requires |slots| == CAPACITY
  {
    IsValid(h) && slots[h.index].generation == h.generation
  }

  ghost predicate SlotOwned(s: State, i: nat)
    requires i < CAPACITY == |s.shared.slots|
  {
    var slot := s.shared.slots[i];
    var h := Handle(slot.generation, i);
    match slot.state
    case Free => slot.count == 0
    case Building => slot.generation != 0 && slot.count == 1 == Built(s, h)
    case Published => slot.generation != 0 && slot.count == Held(s, h) > 0
  }

  ghost predicate Ledger(s: State) {
    && |s.shared.slots| == CAPACITY
    && (forall h :: Built(s, h) > 0 ==> Tagged(s.shared.slots, h) && s.shared.slots[h.index].state == Building)
    && (forall h :: Held(s, h) > 0 ==> Tagged(s.shared.slots, h) && s.shared.slots[h.index].state == Published)
    && (forall i :: 0 <= i < CAPACITY ==> SlotOwned(s, i))
  }

  // The published frames a task carries on their way from a producer to the presentation.
  predicate Carries(t: Task, h: Handle) {
    IsValid(h) &&
    match t
    case Discarding(taken) => taken == h
    case Displacing(_, taken) => taken == h
    case Sending(sent) => sent == h
    case Unsent(sent) => sent == h
    case Draining(next, _) => next == h
    case Received(candidate, next, _) => candidate == h || next == h
    case Superseding(candidate, next, _) => candidate == h || next == h
    case Drawing(next, _) => next == h
    case Failed(next, _) => next == h
    case Refreshed(next, _) => next == h
    case Committing(next, _) => next == h
    case _ => false
  }

  // A published frame has one owner, in one place, until it is presented.
  ghost predicate Sole(s: State) {
    && (forall h :: Queued(s.shared.queue, h) > 0 ==> Held(s, h) == 1)
    && (forall j, h :: 0 <= j < |s.tasks| && Carries(s.tasks[j], h) ==> Held(s, h) == 1)
  }

  // No published frame that somebody holds has changed.
  ghost predicate Untouched(s: State, s': State) {
    && |s.shared.slots| == |s'.shared.slots| == CAPACITY
    && forall h :: Held(s, h) > 0 && IsValid(h) ==>
         && s'.shared.slots[h.index].frame == s.shared.slots[h.index].frame
         && s'.shared.slots[h.index].generation == s.shared.slots[h.index].generation
  }

  // ----- Pool operations and the ledger

  lemma AcquireKeeps(s: State, s': State, h: Handle)
    requires Ledger(s) && (s'.shared.slots, h) == Acquired(s.shared.slots)
    requires forall x :: Held(s', x) == Held(s, x)
    requires forall x :: Built(s', x) == Built(s, x) + Opt(h, x)
    ensures Ledger(s') && Untouched(s, s')
  {
    hide Held, Built;
    if IsValid(h) {
      assert Built(s, h) == 0 && Held(s, h) == 0;
    }
    forall i | 0 <= i < CAPACITY ensures SlotOwned(s', i) {
      assert SlotOwned(s, i);
    }
  }

  lemma PublishKeeps(s: State, s': State, h: Handle)
    requires Ledger(s) && Built(s, h) > 0 && s'.shared.slots == Publish(s.shared.slots, h).0
    requires forall x :: Held(s', x) == Held(s, x) + Eq(h, x)
    requires forall x :: Built(s', x) == Built(s, x) - Eq(h, x)
    ensures Publish(s.shared.slots, h).1 && Ledger(s') && Untouched(s, s') && Held(s, h) == 0
  {
    hide Held, Built;
    assert SlotOwned(s, h.index);
    assert Held(s, h) == 0;
    forall i | 0 <= i < CAPACITY ensures SlotOwned(s', i) {
      assert SlotOwned(s, i);
    }
  }

  lemma RetainKeeps(s: State, s': State, h: Handle)
    requires Ledger(s) && Held(s, h) > 0 && s'.shared.slots == Retain(s.shared.slots, h).0
    requires forall x :: Held(s', x) == Held(s, x) + if Retain(s.shared.slots, h).1 then Eq(h, x) else 0
    requires forall x :: Built(s', x) == Built(s, x)
    ensures Ledger(s') && Untouched(s, s')
  {
    hide Held, Built;
    forall i | 0 <= i < CAPACITY ensures SlotOwned(s', i) {
      assert SlotOwned(s, i);
    }
  }

  lemma ReleaseKeeps(s: State, s': State, h: Handle)
    requires Ledger(s) && Held(s, h) > 0 && s'.shared.slots == Release(s.shared.slots, h).0
    requires forall x :: Held(s', x) == Held(s, x) - Eq(h, x)
    requires forall x :: Built(s', x) == Built(s, x)
    ensures Release(s.shared.slots, h).1 && Ledger(s') && Untouched(s, s')
  {
    hide Held, Built;
    assert SlotOwned(s, h.index);
    forall i | 0 <= i < CAPACITY ensures SlotOwned(s', i) {
      assert SlotOwned(s, i);
    }
  }

  lemma AbandonKeeps(s: State, s': State, h: Handle)
    requires Ledger(s) && Built(s, h) > 0 && s'.shared.slots == Release(s.shared.slots, h).0
    requires forall x :: Held(s', x) == Held(s, x)
    requires forall x :: Built(s', x) == Built(s, x) - Eq(h, x)
    ensures Release(s.shared.slots, h).1 && Ledger(s') && Untouched(s, s')
  {
    hide Held, Built;
    assert SlotOwned(s, h.index);
    forall i | 0 <= i < CAPACITY ensures SlotOwned(s', i) {
      assert SlotOwned(s, i);
    }
  }

  lemma WriteKeeps(s: State, s': State, h: Handle, frame: Frame)
    requires Ledger(s) && Built(s, h) > 0 && s'.shared.slots == Written(s.shared, h, frame).slots
    requires forall x :: Held(s', x) == Held(s, x)
    requires forall x :: Built(s', x) == Built(s, x)
    ensures Ledger(s') && Untouched(s, s')
  {
    hide Held, Built;
    forall i | 0 <= i < CAPACITY ensures SlotOwned(s', i) {
      assert SlotOwned(s, i);
    }
  }

  lemma MoveKeeps(s: State, s': State)
    requires Ledger(s) && s'.shared.slots == s.shared.slots
    requires forall x :: Held(s', x) == Held(s, x)
    requires forall x :: Built(s', x) == Built(s, x)
    ensures Ledger(s') && Untouched(s, s')
  {
    hide Held, Built;
    forall i | 0 <= i < CAPACITY ensures SlotOwned(s', i) {
      assert SlotOwned(s, i);
    }
  }

  // ----- Steps of one task

  lemma {:induction false} AllAfter(tasks: seq<Task>, i: nat, t: Task, h: Handle)
    requires i < |tasks|
    ensures AllHeld(tasks[i := t], h) == AllHeld(tasks, h) - HeldBy(tasks[i], h) + HeldBy(t, h)
    ensures AllBuilding(tasks[i := t], h) == AllBuilding(tasks, h) - BuildingBy(tasks[i], h) + BuildingBy(t, h)
    ensures HeldBy(tasks[i], h) <= AllHeld(tasks, h) && BuildingBy(tasks[i], h) <= AllBuilding(tasks, h)
    decreases i
  {
    hide HeldBy, BuildingBy;
    if i == 0 {
      assert tasks[0 := t][1..] == tasks[1..];
    } else {
      AllAfter(tasks[1..], i - 1, t, h);
      assert tasks[i := t][1..] == tasks[1..][i - 1 := t];
    }
  }

  // What a step of task i does to the references, from what it does to the task's own, the
  // queue's and the presentation's.
  lemma AfterCounts(s: State, i: nat, r: Outcome)
    requires i < |s.tasks|
    ensures var s' := After(s, i, r);
            && (forall h :: Built(s', h) == Built(s, h) - BuildingBy(s.tasks[i], h) + BuildingBy(r.task, h))
            && (forall h :: Held(s', h) == Held(s, h) - HeldBy(s.tasks[i], h) + HeldBy(r.task, h)
                                           - Queued(s.shared.queue, h) + Queued(r.shared.queue, h)
                                           - Opt(s.shared.presented.handle, h) + Opt(r.shared.presented.handle, h))
            && (forall h :: HeldBy(s.tasks[i], h) <= Held(s, h))
            && (forall h :: BuildingBy(s.tasks[i], h) <= Built(s, h))
  {
    hide HeldBy, BuildingBy, AllHeld, AllBuilding, Queued, Opt;
    forall h
      ensures AllHeld(s.tasks[i := r.task], h) ==
              AllHeld(s.tasks, h) - HeldBy(s.tasks[i], h) + HeldBy(r.task, h)
      ensures AllBuilding(s.tasks[i := r.task], h) ==
              AllBuilding(s.tasks, h) - BuildingBy(s.tasks[i], h) + BuildingBy(r.task, h)
      ensures HeldBy(s.tasks[i], h) <= AllHeld(s.tasks, h) && BuildingBy(s.tasks[i], h) <= AllBuilding(s.tasks, h)
    {
      AllAfter(s.tasks, i, r.task, h);
    }
  }

  // ----- Frames with one owner

  lemma {:induction false} BothHold(tasks: seq<Task>, i: nat, j: nat, h: Handle)
    requires i < |tasks| && j < |tasks| && i != j
    ensures HeldBy(tasks[i], h) + HeldBy(tasks[j], h) <= AllHeld(tasks, h)
    decreases i
  {
    hide HeldBy, BuildingBy;
    if j == 0 {
      AllAfter(tasks[1..], i - 1, tasks[i], h);
    } else if i == 0 {
      AllAfter(tasks[1..], j - 1, tasks[j], h);
    } else {
      BothHold(tasks[1..], i - 1, j - 1, h);
    }
  }

  // What is held in task i, the queue and the presentation.
  function PartHeld(s: State, i: nat, h: Handle): nat
    requires i < |s.tasks|
  {
    HeldBy(s.tasks[i], h) + Queued(s.shared.queue, h) + Opt(s.shared.presented.handle, h)
  }

  lemma PartsHold(s: State, i: nat)
    requires i < |s.tasks|
    ensures forall h :: PartHeld(s, i, h) <= Held(s, h)
    ensures forall j, h :: 0 <= j < |s.tasks| && j != i ==> PartHeld(s, i, h) + HeldBy(s.tasks[j], h) <= Held(s, h)
  {
    hide HeldBy, BuildingBy, Queued, Opt;
    forall h ensures HeldBy(s.tasks[i], h) <= AllHeld(s.tasks, h) {
      AllAfter(s.tasks, i, s.tasks[i], h);
    }
    forall j, h | 0 <= j < |s.tasks| && j != i
      ensures HeldBy(s.tasks[i], h) + HeldBy(s.tasks[j], h) <= AllHeld(s.tasks, h)
    {
      BothHold(s.tasks, i, j, h);
    }
  }

  lemma CarriedIsHeld(t: Task)
    ensures forall h :: Carries(t, h) ==> HeldBy(t, h) >= 1
  {
  }

  // A step leaves single owners single, unless it parts with the frame.
  lemma SoleStays(s: State, i: nat, r: Outcome)
    requires i < |s.tasks| && Sole(s)
    requires forall h :: Queued(r.shared.queue, h) > 0 ==> Queued(s.shared.queue, h) > 0 || Carries(s.tasks[i], h)
    requires forall h :: Carries(r.task, h) ==>
               Queued(s.shared.queue, h) > 0 || Carries(s.tasks[i], h) || Held(After(s, i, r), h) == 1
    requires forall h :: Held(s, h) == 1 ==>
               Held(After(s, i, r), h) == 1 ||
               (Queued(r.shared.queue, h) == 0 && !Carries(r.task, h) && PartHeld(s, i, h) > 0)
    ensures Sole(After(s, i, r))
  {
    hide Carries, Held, Queued, HeldBy, PartHeld;
    var s' := After(s, i, r);
    PartsHold(s, i);
    forall j, h | 0 <= j < |s'.tasks| && Carries(s'.tasks[j], h) ensures Held(s', h) == 1 {
      if j != i {
        CarriedIsHeld(s.tasks[j]);
      }
    }
  }

  // What every step keeps: no pool call is refused, the ledger balances, the queue has its
  // bound, what is not presented yet has one owner, and no published frame that somebody
  // holds has changed.
  ghost predicate Keeps(s: State, i: nat, r: Outcome)
    requires i < |s.tasks|
  {
    && !r.refused && |r.shared.queue| <= QUEUE_LENGTH
    && Ledger(After(s, i, r)) && Sole(After(s, i, r)) && Untouched(s, After(s, i, r))
  }

  // The ledger before a step of task i.
  ghost predicate Ready(s: State, i: nat) {
    i < |s.tasks| && |s.shared.queue| <= QUEUE_LENGTH && |s.shared.slots| == CAPACITY && Ledger(s) && Sole(s)
  }

  // A step that changes only where the task is.
  lemma Walked(s: State, i: nat, t': Task)
    requires Ready(s, i)
    requires forall h :: BuildingBy(t', h) == BuildingBy(s.tasks[i], h) && HeldBy(t', h) == HeldBy(s.tasks[i], h)
    requires forall h :: Carries(t', h) ==> Carries(s.tasks[i], h)
    ensures Keeps(s, i, Going(s.shared, t'))
  {
    hide Ledger, Untouched, BuildingBy, HeldBy, Built, Held, Sole, Carries;
    AfterCounts(s, i, Going(s.shared, t'));
    MoveKeeps(s, After(s, i, Going(s.shared, t')));
    SoleStays(s, i, Going(s.shared, t'));
  }

  lemma ReleaseStep(s: State, i: nat, h: Handle, t': Task)
    requires Ready(s, i)
    requires forall x :: BuildingBy(t', x) == BuildingBy(s.tasks[i], x)
    requires forall x :: HeldBy(s.tasks[i], x) == HeldBy(t', x) + Eq(h, x)
    requires forall x :: Carries(t', x) ==> Carries(s.tasks[i], x)
    ensures Keeps(s, i, Releasing(s.shared, h, t'))
  {
    hide Ledger, Untouched, BuildingBy, HeldBy, Built, Held, Release, Queued, Opt, Sole, Carries;
    var r := Releasing(s.shared, h, t');
    AfterCounts(s, i, r);
    assert HeldBy(s.tasks[i], h) > 0;
    ReleaseKeeps(s, After(s, i, r), h);
    PartsHold(s, i);
    CarriedIsHeld(t');
    assert PartHeld(s, i, h) > 0;
    SoleStays(s, i, r);
  }

  lemma ReleaseAnyStep(s: State, i: nat, h: Handle, t': Task)
    requires Ready(s, i)
    requires forall x :: BuildingBy(t', x) == BuildingBy(s.tasks[i], x)
    requires forall x :: HeldBy(s.tasks[i], x) == HeldBy(t', x) + Opt(h, x)
    requires forall x :: Carries(t', x) ==> Carries(s.tasks[i], x)
    ensures Keeps(s, i, ReleasingIfAny(s.shared, h, t'))
  {
    hide Keeps, BuildingBy, HeldBy, Ledger, Releasing, Sole, Carries;
    if IsValid(h) {
      ReleaseStep(s, i, h, t');
    } else {
      Walked(s, i, t');
    }
  }

  lemma ReceiveStep(s: State, i: nat, t': Task)
    requires Ready(s, i) && s.shared.queue != []
    requires forall x :: BuildingBy(t', x) == BuildingBy(s.tasks[i], x)
    requires forall x :: HeldBy(t', x) == HeldBy(s.tasks[i], x) + Eq(s.shared.queue[0], x)
    requires forall x :: Carries(t', x) ==> Carries(s.tasks[i], x) || x == s.shared.queue[0]
    ensures Keeps(s, i, Going(Receive(s.shared), t'))
  {
    hide Ledger, Untouched, BuildingBy, HeldBy, Built, Held, Opt, Sole, Carries;
    var r := Going(Receive(s.shared), t');
    AfterCounts(s, i, r);
    MoveKeeps(s, After(s, i, r));
    SoleStays(s, i, r);
  }

  lemma {:induction false} QueuedMore(queue: seq<Handle>, sent: Handle, h: Handle)
    ensures Queued(queue + [sent], h) == Queued(queue, h) + Eq(sent, h)
  {
    if queue == [] {
      assert [sent][1..] == [];
    } else {
      QueuedMore(queue[1..], sent, h);
      assert (queue + [sent])[1..] == queue[1..] + [sent];
    }
  }

  lemma SendStep(s: State, i: nat)
    requires Ready(s, i) && s.tasks[i].Sending? && |s.shared.queue| < QUEUE_LENGTH
    ensures Keeps(s, i, Going(s.shared.(queue := s.shared.queue + [s.tasks[i].sent]), Producing))
  {
    hide Ledger, Untouched, Built, Held, Opt, Queued, Sole;
    var r := Going(s.shared.(queue := s.shared.queue + [s.tasks[i].sent]), Producing);
    HeldResolves(s, i, s.tasks[i].sent);
    forall h ensures Queued(r.shared.queue, h) == Queued(s.shared.queue, h) + Eq(s.tasks[i].sent, h) {
      QueuedMore(s.shared.queue, s.tasks[i].sent, h);
    }
    AfterCounts(s, i, r);
    MoveKeeps(s, After(s, i, r));
    SoleStays(s, i, r);
  }

  // The renderer's extra reference becomes the presentation's, whose old one it takes over.
  lemma SwapStep(s: State, i: nat, presented: Presented)
    requires Ready(s, i) && s.tasks[i].Swapping? && presented.handle == s.tasks[i].next
    ensures var t, previous := s.tasks[i], s.shared.presented.handle;
            Keeps(s, i, Going(s.shared.(presented := presented),
                              if IsValid(previous) then Replacing(previous, t.next, t.latest)
                              else Keeping(t.next, t.latest)))
  {
    hide Ledger, Untouched, Built, Held, Queued, Sole;
    var t, previous := s.tasks[i], s.shared.presented.handle;
    HeldResolves(s, i, t.next);
    var t' := if IsValid(previous) then Replacing(previous, t.next, t.latest) else Keeping(t.next, t.latest);
    var r := Going(s.shared.(presented := presented), t');
    AfterCounts(s, i, r);
    MoveKeeps(s, After(s, i, r));
    SoleStays(s, i, r);
  }

  lemma AcquireStep(s: State, i: nat, without: Task)
    requires Ready(s, i) && (s.tasks[i] == Producing || s.tasks[i] == Retrying)
    requires without == PoolFull || without == Producing
    ensures var (slots, h) := Acquired(s.shared.slots);
            Keeps(s, i, Going(s.shared.(slots := slots), if IsValid(h) then Filling(h) else without))
  {
    hide Ledger, Acquired, Untouched, Built, Held, Queued, Sole;
    var (slots, h) := Acquired(s.shared.slots);
    var r := Going(s.shared.(slots := slots), if IsValid(h) then Filling(h) else without);
    AfterCounts(s, i, r);
    AcquireKeeps(s, After(s, i, r), h);
    SoleStays(s, i, r);
  }

  lemma WriteStep(s: State, i: nat, own: Handle, frame: Frame)
    requires Ready(s, i) && BuildingBy(s.tasks[i], own) > 0
    ensures Keeps(s, i, Going(Written(s.shared, own, frame), s.tasks[i]))
  {
    hide Ledger, Untouched, BuildingBy, HeldBy, Built, Held, Queued, Opt, Sole, Carries;
    var r := Going(Written(s.shared, own, frame), s.tasks[i]);
    AfterCounts(s, i, r);
    WriteKeeps(s, After(s, i, r), own, frame);
    SoleStays(s, i, r);
  }

  lemma PublishStep(s: State, i: nat)
    requires Ready(s, i) && s.tasks[i].Publishing?
    ensures var (slots, published) := Publish(s.shared.slots, s.tasks[i].own);
            published && Keeps(s, i, Going(s.shared.(slots := slots), Sending(s.tasks[i].own)))
  {
    hide Ledger, Untouched, Publish, Built, Held, Queued, Opt, Sole;
    var own := s.tasks[i].own;
    var (slots, published) := Publish(s.shared.slots, own);
    var r := Going(s.shared.(slots := slots), Sending(own));
    AfterCounts(s, i, r);
    assert BuildingBy(s.tasks[i], own) > 0;
    PublishKeeps(s, After(s, i, r), own);
    SoleStays(s, i, r);
  }

  lemma AbandonStep(s: State, i: nat)
    requires Ready(s, i) && s.tasks[i].Abandoning?
    ensures Keeps(s, i, Releasing(s.shared, s.tasks[i].own, Producing))
  {
    hide Ledger, Untouched, Release, Built, Held, Queued, Opt, Sole;
    var own := s.tasks[i].own;
    var r := Releasing(s.shared, own, Producing);
    AfterCounts(s, i, r);
    assert BuildingBy(s.tasks[i], own) > 0;
    AbandonKeeps(s, After(s, i, r), own);
    SoleStays(s, i, r);
  }

  // A handle somebody holds resolves.
  lemma HeldResolves(s: State, i: nat, h: Handle)
    requires Ready(s, i) && HeldBy(s.tasks[i], h) > 0
    ensures IsValid(h) && Resolves(s.shared.slots, h)
  {
    hide HeldBy, Held, Built, BuildingBy, After;
    AfterCounts(s, i, Going(s.shared, s.tasks[i]));
    assert Held(s, h) > 0;
    assert SlotOwned(s, h.index);
  }

  // Retaining succeeds exactly below the full count.
  lemma RetainStep(s: State, i: nat, h: Handle, t': Task)
    requires Ready(s, i) && (HeldBy(s.tasks[i], h) > 0 || (h == s.shared.presented.handle && IsValid(h)))
    requires forall x :: BuildingBy(t', x) == BuildingBy(s.tasks[i], x)
    requires forall x :: HeldBy(t', x) == HeldBy(s.tasks[i], x) + Eq(h, x)
    requires forall x :: !Carries(t', x)
    ensures var (slots, retained) := Retain(s.shared.slots, h);
            && IsValid(h) && s.shared.slots[h.index].count == Held(s, h)
            && (retained <==> s.shared.slots[h.index].count < COUNT_LIMIT)
            && (retained ==> Keeps(s, i, Going(s.shared.(slots := slots), t')))
  {
    hide Ledger, Untouched, BuildingBy, HeldBy, Built, Queued, Sole, Carries;
    var (slots, retained) := Retain(s.shared.slots, h);
    var r := Going(s.shared.(slots := slots), t');
    AfterCounts(s, i, r);
    assert Held(s, h) > 0;
    HeldCounts(s, h);
    if retained {
      RetainKeeps(s, After(s, i, r), h);
      PartsHold(s, i);
      assert PartHeld(s, i, h) > 0;
      SoleStays(s, i, r);
    }
  }

  lemma HeldCounts(s: State, h: Handle)
    requires Ledger(s) && Held(s, h) > 0
    ensures |s.shared.slots| == CAPACITY && Resolves(s.shared.slots, h) && s.shared.slots[h.index].count == Held(s, h)
  {
    hide Held, Built;
    assert SlotOwned(s, h.index);
  }

  // The frame to be presented has one owner, so it can be retained.
  lemma CommitStep(s: State, i: nat, c: Choice)
    requires Ready(s, i) && s.tasks[i].Committing?
    ensures Keeps(s, i, RendererStep(s.shared, s.tasks[i], c))
  {
    hide Ledger, Keeps, Retain, Held, Queued, BuildingBy, Built;
    var next, latest := s.tasks[i].next, s.tasks[i].latest;
    HeldResolves(s, i, next);
    assert Carries(s.tasks[i], next);
    assert Held(s, next) == 1;
    RetainSwapping(s, i);
  }

  lemma RetainSwapping(s: State, i: nat)
    requires Ready(s, i) && s.tasks[i].Committing? && Held(s, s.tasks[i].next) == 1
    ensures var (slots, retained) := Retain(s.shared.slots, s.tasks[i].next);
            retained && Keeps(s, i, Going(s.shared.(slots := slots), Swapping(s.tasks[i].next, s.tasks[i].latest)))
  {
    hide Ledger, Keeps, Retain, Held, Sole;
    RetainStep(s, i, s.tasks[i].next, Swapping(s.tasks[i].next, s.tasks[i].latest));
  }

  lemma ProducerKeeps(s: State, i: nat, c: Choice)
    requires Ready(s, i)
    ensures Keeps(s, i, ProducerStep(s.shared, s.tasks[i], c))
  {
    hide Ledger, Keeps, Acquired, Releasing, Publish, Receive, Written, Sole;
    var queue := s.shared.queue;
    match s.tasks[i] {
      case Producing => AcquireStep(s, i, PoolFull);
      case Retrying => AcquireStep(s, i, Producing);
      case PoolFull =>
        if queue == [] { Walked(s, i, Producing); } else { ReceiveStep(s, i, Discarding(queue[0])); }
      case Discarding(taken) => ReleaseStep(s, i, taken, Retrying);
      case Displacing(own, taken) => ReleaseStep(s, i, taken, Publishing(own));
      case QueueFull(own) =>
        if queue == [] { Walked(s, i, Abandoning(own)); } else { ReceiveStep(s, i, Displacing(own, queue[0])); }
      case Filling(own) =>
        if c.write { WriteStep(s, i, own, c.frame); } else { Walked(s, i, ProducerStep(s.shared, s.tasks[i], c).task); }
      case Publishing(own) => if c.write { WriteStep(s, i, own, c.frame); } else { PublishStep(s, i); }
      case Abandoning(own) => AbandonStep(s, i);
      case Sending(sent) => if |queue| < QUEUE_LENGTH { SendStep(s, i); } else { Walked(s, i, Unsent(sent)); }
      case Unsent(sent) => ReleaseStep(s, i, sent, Producing);
      case _ => Walked(s, i, s.tasks[i]);
    }
  }

  lemma DrainingKeeps(s: State, i: nat, c: Choice)
    requires Ready(s, i)
    requires var t := s.tasks[i]; t.Draining? || t.Received? || t.Superseding? || t.Drawing? || t.Failed?
    ensures Keeps(s, i, RendererStep(s.shared, s.tasks[i], c))
  {
    hide Ledger, Keeps, Releasing, Receive, Resolves, Sole;
    var queue := s.shared.queue;
    match s.tasks[i] {
      case Draining(next, latest) =>
        if queue != [] {
          ReceiveStep(s, i, Received(queue[0], next, latest));
        } else {
          Walked(s, i, RendererStep(s.shared, s.tasks[i], c).task);
        }
      case Received(candidate, next, latest) =>
        HeldResolves(s, i, candidate);
        Walked(s, i, Superseding(candidate, next, latest));
      case Superseding(candidate, next, latest) =>
        HeldResolves(s, i, candidate);
        ReleaseAnyStep(s, i, next, Draining(candidate, latest));
      case Drawing(next, latest) => Walked(s, i, RendererStep(s.shared, s.tasks[i], c).task);
      case Failed(next, latest) => ReleaseStep(s, i, next, Draining(INVALID, latest));
    }
  }

  lemma CommittingKeeps(s: State, i: nat, c: Choice)
    requires Ready(s, i)
    requires var t := s.tasks[i]; t.Refreshed? || t.Committing? || t.Swapping? || t.Replacing? || t.Keeping?
    ensures Keeps(s, i, RendererStep(s.shared, s.tasks[i], c))
  {
    hide Ledger, Keeps, Releasing, Retain, Resolves, Sole;
    match s.tasks[i] {
      case Refreshed(next, latest) =>
        HeldResolves(s, i, next);
        Walked(s, i, Committing(next, latest));
      case Committing(_, _) => CommitStep(s, i, c);
      case Swapping(next, latest) => SwapStep(s, i, RendererStep(s.shared, s.tasks[i], c).shared.presented);
      case Replacing(previous, next, latest) => ReleaseStep(s, i, previous, Keeping(next, latest));
      case Keeping(next, latest) =>
        HeldResolves(s, i, next);
        ReleaseAnyStep(s, i, latest, Draining(INVALID, next));
    }
  }

  lemma UnchangedByRefusal(slots: seq<Slot<Frame>>, h: Handle)
    requires |slots| == CAPACITY
    ensures !Retain(slots, h).1 ==> Retain(slots, h).0 == slots
  {
  }

  lemma GuardKeeps(s: State, i: nat, c: Choice)
    requires Ready(s, i)
    ensures Keeps(s, i, GuardStep(s.shared, s.tasks[i], c))
  {
    hide Ledger, Keeps, Releasing, Retain, Resolves, Sole;
    match s.tasks[i] {
      case Closed =>
        var h := s.shared.presented.handle;
        if Shows(s.shared.presented, c.view) && IsValid(h) {
          RetainStep(s, i, h, Checking(c.view, h));
          Walked(s, i, Closed);
          UnchangedByRefusal(s.shared.slots, h);
        } else {
          Walked(s, i, s.tasks[i]);
        }
      case Checking(_, _) => Walked(s, i, GuardStep(s.shared, s.tasks[i], c).task);
      case Resolving(view, held) =>
        HeldResolves(s, i, held);
        Walked(s, i, Reading(view, held));
      case Reading(_, held) => ReleaseStep(s, i, held, Closed);
      case Rejected(held) => ReleaseStep(s, i, held, Closed);
      case _ => Walked(s, i, s.tasks[i]);
    }
  }

  // Whatever task takes a step.
  lemma StepKeeps(s: State, i: nat, c: Choice)
    requires Ready(s, i)
    ensures Keeps(s, i, StepOf(s.shared, s.tasks[i], c))
  {
    hide Ledger, Keeps, ProducerStep, RendererStep, GuardStep, Sole;
    var t := s.tasks[i];
    if t.Draining? || t.Received? || t.Superseding? || t.Drawing? || t.Failed? {
      DrainingKeeps(s, i, c);
    } else if t.Refreshed? || t.Committing? || t.Swapping? || t.Replacing? || t.Keeping? {
      CommittingKeeps(s, i, c);
    }
    ProducerKeeps(s, i, c);
    GuardKeeps(s, i, c);
  }

  // ----- What is seen through a handle

  ghost predicate SeesView(s: State, h: Handle, view: nat)
    requires |s.shared.slots| == CAPACITY
  {
    IsValid(h) && s.shared.slots[h.index].frame.view == view
  }

  // The presentation names the view of its frame, and a guard reads a frame of the view it
  // was opened for.
  ghost predicate Sighted(s: State)
    requires |s.shared.slots| == CAPACITY
  {
    && (IsValid(s.shared.presented.handle) ==> SeesView(s, s.shared.presented.handle, s.shared.presented.view))
    && (forall j :: 0 <= j < |s.tasks| ==> TaskSighted(s, s.tasks[j]))
  }

  ghost predicate TaskSighted(s: State, t: Task)
    requires |s.shared.slots| == CAPACITY
  {
    t.Resolving? || t.Reading? ==> SeesView(s, t.held, t.view)
  }

  ghost predicate Inv(s: State) {
    |s.shared.slots| == CAPACITY && |s.shared.queue| <= QUEUE_LENGTH && Ledger(s) && Sole(s) && Sighted(s)
  }

  // What a task holds is held.
  lemma TaskHolds(s: State, j: nat, h: Handle)
    requires j < |s.tasks| && HeldBy(s.tasks[j], h) > 0
    ensures Held(s, h) > 0
  {
    hide HeldBy, Held, Built, BuildingBy, After;
    AfterCounts(s, j, Going(s.shared, s.tasks[j]));
  }

  lemma SightKept(s: State, i: nat, r: Outcome, h: Handle, view: nat)
    requires |s.shared.slots| == CAPACITY && i < |s.tasks| && Keeps(s, i, r) && SeesView(s, h, view) && Held(s, h) > 0
    ensures |r.shared.slots| == CAPACITY && SeesView(After(s, i, r), h, view)
  {
    hide Ledger, Held;
  }

  // The step itself shows nothing of the wrong view.
  lemma StepSights(s: State, i: nat, c: Choice)
    requires Ready(s, i) && Sighted(s)
    ensures var r := StepOf(s.shared, s.tasks[i], c);
            && |r.shared.slots| == CAPACITY
            && (r.shared.presented == s.shared.presented ||
                (IsValid(r.shared.presented.handle) ==>
                   SeesView(After(s, i, r), r.shared.presented.handle, r.shared.presented.view)))
            && (r.task.Resolving? || r.task.Reading? ==>
                  (TaskSighted(s, s.tasks[i]) && s.tasks[i].Resolving? && s.tasks[i].held == r.task.held &&
                   s.tasks[i].view == r.task.view && r.shared == s.shared) ||
                  SeesView(After(s, i, r), r.task.held, r.task.view))
  {
    hide Ledger, Acquired, Release, Retain, Publish;
    var t := s.tasks[i];
    if t.Checking? {
      assert StepOf(s.shared, t, c).shared == s.shared;
      CheckingHolds(s, i);
    } else if t.Swapping? {
      HeldResolves(s, i, t.next);
    }
  }

  lemma CheckingHolds(s: State, i: nat)
    requires Ready(s, i) && s.tasks[i].Checking?
    ensures IsValid(s.tasks[i].held)
  {
    hide Ledger;
    HeldResolves(s, i, s.tasks[i].held);
  }

  lemma StepKeepsInv(s: State, i: nat, c: Choice)
    requires Inv(s) && i < |s.tasks|
    ensures var r := StepOf(s.shared, s.tasks[i], c);
            !r.refused && Inv(Stepped(s, i, c)) && Untouched(s, Stepped(s, i, c))
  {
    hide Ledger, StepOf, Held, Untouched;
    StepKeeps(s, i, c);
    StepSights(s, i, c);
    var r := StepOf(s.shared, s.tasks[i], c);
    var s' := After(s, i, r);
    if r.shared.presented == s.shared.presented && IsValid(s.shared.presented.handle) {
      assert Held(s, s.shared.presented.handle) > 0 by { PresentedHolds(s); }
      SightKept(s, i, r, s.shared.presented.handle, s.shared.presented.view);
    }
    forall j | 0 <= j < |s'.tasks| ensures TaskSighted(s', s'.tasks[j]) {
      if j != i && (s.tasks[j].Resolving? || s.tasks[j].Reading?) {
        assert TaskSighted(s, s.tasks[j]);
        TaskHolds(s, j, s.tasks[j].held);
        SightKept(s, i, r, s.tasks[j].held, s.tasks[j].view);
      }
    }
  }

  lemma PresentedHolds(s: State)
    requires IsValid(s.shared.presented.handle)
    ensures Held(s, s.shared.presented.handle) > 0
  {
  }

  // ----- Whole runs

  datatype Turn = Turn(task: nat, choice: Choice)

  // Any interleaving of the tasks' steps.
  function Run(s: State, turns: seq<Turn>): (r: State)
    requires Inv(s)
    ensures Inv(r) && |r.tasks| == |s.tasks|
    decreases |turns|
  {
    if turns == [] then s
    else if turns[0].task >= |s.tasks| then Run(s, turns[1..])
    else
      StepKeepsInv(s, turns[0].task, turns[0].choice);
      Run(Stepped(s, turns[0].task, turns[0].choice), turns[1..])
  }

  ghost predicate AtRest(t: Task) {
    t == Producing || t == Closed || (t.Draining? && !IsValid(t.next))
  }

  // At start-up nothing is owned.
  ghost predicate Initial(s: State) {
    && |s.shared.slots| == CAPACITY
    && (forall i :: 0 <= i < CAPACITY ==> s.shared.slots[i].state == Free && s.shared.slots[i].count == 0)
    && s.shared.queue == [] && s.shared.presented.handle == INVALID
    && (forall j :: 0 <= j < |s.tasks| ==>
          s.tasks[j] == Producing || s.tasks[j] == Closed || s.tasks[j] == Draining(INVALID, INVALID))
  }

  lemma {:induction false} NoneHeld(tasks: seq<Task>, h: Handle)
    requires forall j :: 0 <= j < |tasks| ==> HeldBy(tasks[j], h) == 0
    ensures AllHeld(tasks, h) == 0
  {
    hide HeldBy;
    if tasks != [] {
      NoneHeld(tasks[1..], h);
    }
  }

  lemma {:induction false} NoneBuilding(tasks: seq<Task>, h: Handle)
    requires forall j :: 0 <= j < |tasks| ==> BuildingBy(tasks[j], h) == 0
    ensures AllBuilding(tasks, h) == 0
  {
    hide BuildingBy;
    if tasks != [] {
      NoneBuilding(tasks[1..], h);
    }
  }

  lemma InitialInv(s: State)
    requires Initial(s)
    ensures Inv(s)
  {
    forall h ensures AllHeld(s.tasks, h) == 0 && AllBuilding(s.tasks, h) == 0 {
      NoneHeld(s.tasks, h);
      NoneBuilding(s.tasks, h);
    }
  }

  // ----- The results

  // In every reachable state each slot's count is the number of its owners, and the slots
  // that are free are exactly those nobody owns: nothing is reused while held, nothing leaks.
  lemma OwnersAreCounted(start: State, turns: seq<Turn>, i: nat)
    requires Initial(start) && i < CAPACITY
    ensures Inv(start)
    ensures var s := Run(start, turns); var slot := s.shared.slots[i]; var h := Handle(slot.generation, i);
            && (slot.state != Free ==> slot.count == Held(s, h) + Built(s, h))
            && (slot.state == Free <==> forall x: Handle :: x.index == i ==> Held(s, x) == 0 && Built(s, x) == 0)
  {
    hide Held, Built;
    InitialInv(start);
    var s := Run(start, turns);
    var slot := s.shared.slots[i];
    var h := Handle(slot.generation, i);
    assert SlotOwned(s, i);
    if slot.state == Building {
      assert Held(s, h) == 0;
    } else if slot.state == Published {
      assert Built(s, h) == 0;
    }
  }

  // No pool call a task makes on a handle of its own is ever refused. The renderer's retain of
  // the frame it presents is one of them: until then that frame has no other owner.
  lemma NothingIsRefused(start: State, turns: seq<Turn>, i: nat, c: Choice)
    requires Initial(start) && i < |start.tasks|
    ensures Inv(start)
    ensures var s := Run(start, turns); !StepOf(s.shared, s.tasks[i], c).refused
  {
    hide StepOf, Ledger, Sole;
    InitialInv(start);
    StepKeepsInv(Run(start, turns), i, c);
  }

  // A guard does not own what is presented: its retain is refused exactly when the count, of
  // all owners of the presented frame, is full.
  lemma GuardIsRefusedWhenFull(start: State, turns: seq<Turn>, i: nat, c: Choice)
    requires Initial(start) && i < |start.tasks|
    ensures Inv(start)
    ensures var s := Run(start, turns); var h := s.shared.presented.handle;
            s.tasks[i] == Closed && Shows(s.shared.presented, c.view) && IsValid(h) ==>
              var t := StepOf(s.shared, s.tasks[i], c).task;
              && s.shared.slots[h.index].count == Held(s, h)
              && (t == Closed <==> s.shared.slots[h.index].count == COUNT_LIMIT)
              && (t != Closed ==> t == Checking(c.view, h))
  {
    hide Ledger, Sole, Held, Built, Retain, Keeps;
    InitialInv(start);
    var s := Run(start, turns);
    var h := s.shared.presented.handle;
    if s.tasks[i] == Closed && IsValid(h) {
      RetainStep(s, i, h, Checking(c.view, h));
    }
  }

  // Somebody holds the frame all along these turns: a task, the queue or the presentation.
  ghost predicate HeldOn(s: State, turns: seq<Turn>, h: Handle)
    requires Inv(s)
  {
    forall n :: 0 <= n <= |turns| ==> Held(Run(s, turns[..n]), h) > 0
  }

  // For as long as anybody holds a published frame, it stays the same and published, whatever
  // anyone does: no frame is overwritten while it is queued, drawn, presented or read.
  lemma {:induction false} HeldFrameStays(s: State, turns: seq<Turn>, h: Handle)
    requires Inv(s) && HeldOn(s, turns, h)
    ensures var r := Run(s, turns);
            && IsValid(h)
            && r.shared.slots[h.index].frame == s.shared.slots[h.index].frame
            && r.shared.slots[h.index].generation == h.generation && r.shared.slots[h.index].state == Published
    decreases |turns|
  {
    hide StepOf, Held, Built, Sole, Sighted;
    assert turns[..0] == [] && Run(s, turns[..0]) == s;
    assert Held(s, h) > 0;
    if turns != [] {
      var turn := turns[0];
      var next := if turn.task >= |s.tasks| then s else Stepped(s, turn.task, turn.choice);
      if turn.task < |s.tasks| {
        StepKeepsInv(s, turn.task, turn.choice);
      }
      forall n | 0 <= n < |turns| ensures Run(next, turns[1..][..n]) == Run(s, turns[..n + 1]) {
        assert turns[..n + 1][0] == turn && turns[..n + 1][1..] == turns[1..][..n];
      }
      HeldFrameStays(next, turns[1..], h);
    }
  }

  // A guard keeps reading the same frame, of the view it was opened for, whatever the other
  // tasks do.
  lemma {:induction false} GuardSeesOneFrame(s: State, turns: seq<Turn>, j: nat)
    requires Inv(s) && j < |s.tasks| && s.tasks[j].Reading?
    requires forall k :: 0 <= k < |turns| ==> turns[k].task != j
    ensures var r := Run(s, turns);
            var h := s.tasks[j].held;
            && r.tasks[j] == s.tasks[j] && IsValid(h)
            && r.shared.slots[h.index].frame == s.shared.slots[h.index].frame
            && r.shared.slots[h.index].frame.view == s.tasks[j].view
            && r.shared.slots[h.index].generation == h.generation && r.shared.slots[h.index].state == Published
    decreases |turns|
  {
    hide StepOf, Held, Built, HeldBy;
    var h := s.tasks[j].held;
    ReadingHolds(s, j);
    assert TaskSighted(s, s.tasks[j]);
    if turns != [] {
      var turn := turns[0];
      if turn.task >= |s.tasks| {
        GuardSeesOneFrame(s, turns[1..], j);
      } else {
        StepKeepsInv(s, turn.task, turn.choice);
        GuardSeesOneFrame(Stepped(s, turn.task, turn.choice), turns[1..], j);
      }
    }
  }

  lemma ReadingHolds(s: State, j: nat)
    requires j < |s.tasks| && s.tasks[j].Reading?
    ensures Held(s, s.tasks[j].held) > 0
  {
    hide Held;
    TaskHolds(s, j, s.tasks[j].held);
  }

  lemma {:induction false} SomeoneHolds(tasks: seq<Task>, h: Handle) returns (j: nat)
    requires AllHeld(tasks, h) + AllBuilding(tasks, h) > 0
    ensures j < |tasks| && HeldBy(tasks[j], h) + BuildingBy(tasks[j], h) > 0
  {
    hide HeldBy, BuildingBy;
    if HeldBy(tasks[0], h) + BuildingBy(tasks[0], h) > 0 {
      j := 0;
    } else {
      var k := SomeoneHolds(tasks[1..], h);
      j := k + 1;
    }
  }

  // Once every task is at rest and the queue is empty, the only frames left are the one
  // presented and the one a renderer has drawn last.
  lemma OnlyShownFramesRemain(s: State, i: nat)
    requires Inv(s) && i < CAPACITY && s.shared.slots[i].state != Free
    requires s.shared.queue == [] && forall j :: 0 <= j < |s.tasks| ==> AtRest(s.tasks[j])
    ensures var h := Handle(s.shared.slots[i].generation, i);
            h == s.shared.presented.handle ||
            exists j :: 0 <= j < |s.tasks| && s.tasks[j].Draining? && s.tasks[j].latest == h
  {
    hide AllHeld, AllBuilding;
    var h := Handle(s.shared.slots[i].generation, i);
    assert SlotOwned(s, i);
    if h != s.shared.presented.handle {
      var j := SomeoneHolds(s.tasks, h);
      assert AtRest(s.tasks[j]);
    }
  }

  // ----- Which frame is shown

  // What an onlooker notes of a run, from where the tasks go: a frame sent, reclaimed from the
  // queue by a producer or taken out by a renderer, a frame refreshed, and a renderer's return.
  datatype Note =
    | Sent(frame: Handle)
    | Reclaimed(frame: Handle)
    | Taken(frame: Handle)
    | Shown(frame: Handle)
    | Returned

  predicate Renders(t: Task) {
    t.Draining? || t.Received? || t.Superseding? || t.Drawing? || t.Failed? || t.Refreshed? || t.Committing? ||
    t.Swapping? || t.Replacing? || t.Keeping?
  }

  function Noted(t: Task, t': Task): seq<Note> {
    if t.Sending? && t' == Producing then [Sent(t.sent)]
    else if (t == PoolFull && t'.Discarding?) || (t.QueueFull? && t'.Displacing?) then [Reclaimed(t'.taken)]
    else if t.Draining? && t'.Received? then [Taken(t'.candidate)]
    else if t.Drawing? && t'.Refreshed? then [Shown(t.next)]
    else if (t.Failed? || t.Keeping?) && t'.Draining? then [Returned]
    else []
  }

  function Notes(s: State, turns: seq<Turn>): seq<Note>
    requires Inv(s)
    decreases |turns|
  {
    if turns == [] then []
    else if turns[0].task >= |s.tasks| then Notes(s, turns[1..])
    else
      StepKeepsInv(s, turns[0].task, turns[0].choice);
      var next := Stepped(s, turns[0].task, turns[0].choice);
      Noted(s.tasks[turns[0].task], next.tasks[turns[0].task]) + Notes(next, turns[1..])
  }

  // The frames sent, and what has left the queue, in order.
  function SentOf(notes: seq<Note>): seq<Handle> {
    if notes == [] then []
    else
      var n := notes[|notes| - 1];
      SentOf(notes[..|notes| - 1]) + if n.Sent? then [n.frame] else []
  }

  function Removals(notes: seq<Note>): seq<Note> {
    if notes == [] then []
    else
      var n := notes[|notes| - 1];
      Removals(notes[..|notes| - 1]) + if n.Reclaimed? || n.Taken? then [n] else []
  }

  function Frames(removals: seq<Note>): seq<Handle> {
    seq(|removals|, k requires 0 <= k < |removals| => if removals[k].Returned? then INVALID else removals[k].frame)
  }

  // What the renderer has taken last since it returned, and the last frame refreshed.
  function Pending(notes: seq<Note>): Handle {
    if notes == [] then INVALID
    else
      match notes[|notes| - 1]
      case Taken(h) => h
      case Returned => INVALID
      case _ => Pending(notes[..|notes| - 1])
  }

  function LastShown(notes: seq<Note>): Handle {
    if notes == [] then INVALID
    else if notes[|notes| - 1].Shown? then notes[|notes| - 1].frame
    else LastShown(notes[..|notes| - 1])
  }

  // Where the renderer is, against the notes: it works on the frame taken last, and what is
  // presented is the last frame refreshed, unless it is just about to be.
  ghost predicate Follows(presented: Handle, t: Task, notes: seq<Note>) {
    match t
    case Draining(next, latest) => next == Pending(notes) && latest == presented == LastShown(notes)
    case Received(candidate, _, latest) => candidate == Pending(notes) && latest == presented == LastShown(notes)
    case Superseding(candidate, _, latest) => candidate == Pending(notes) && latest == presented == LastShown(notes)
    case Drawing(next, latest) => next == Pending(notes) && latest == presented == LastShown(notes)
    case Failed(next, latest) => next == Pending(notes) && latest == presented == LastShown(notes)
    case Refreshed(next, latest) => next == Pending(notes) == LastShown(notes) && latest == presented
    case Committing(next, latest) => next == Pending(notes) == LastShown(notes) && latest == presented
    case Swapping(next, latest) => next == Pending(notes) == LastShown(notes) && latest == presented
    case Replacing(_, next, _) => next == Pending(notes) == LastShown(notes) == presented
    case Keeping(next, _) => next == Pending(notes) == LastShown(notes) == presented
    case _ => false
  }

  // Everything removed after the frame taken last has been reclaimed.
  ghost predicate RestReclaimed(notes: seq<Note>) {
    IsValid(Pending(notes)) ==>
      exists k :: 0 <= k < |Removals(notes)| && Removals(notes)[k] == Taken(Pending(notes)) &&
        forall m :: k < m < |Removals(notes)| ==> Removals(notes)[m].Reclaimed?
  }

  ghost predicate Story(s: State, i: nat, notes: seq<Note>) {
    && i < |s.tasks| && (forall j :: 0 <= j < |s.tasks| && j != i ==> !Renders(s.tasks[j]))
    && QueueStory(s.shared.queue, notes)
    && Follows(s.shared.presented.handle, s.tasks[i], notes)
  }

  lemma NoteMore(notes: seq<Note>, n: Note)
    ensures SentOf(notes + [n]) == SentOf(notes) + if n.Sent? then [n.frame] else []
    ensures Removals(notes + [n]) == Removals(notes) + if n.Reclaimed? || n.Taken? then [n] else []
    ensures Pending(notes + [n]) ==
            if n.Taken? then n.frame else if n.Returned? then INVALID else Pending(notes)
    ensures LastShown(notes + [n]) == if n.Shown? then n.frame else LastShown(notes)
  {
    assert (notes + [n])[..|notes|] == notes;
  }

  lemma FramesMore(removals: seq<Note>, n: Note)
    requires !n.Returned?
    ensures Frames(removals + [n]) == Frames(removals) + [n.frame]
  {
  }

  lemma RestMore(notes: seq<Note>, n: Note)
    requires RestReclaimed(notes)
    ensures RestReclaimed(notes + [n])
  {
    hide Pending, Removals;
    NoteMore(notes, n);
    var before, after := Removals(notes), Removals(notes + [n]);
    if n.Taken? {
      assert after[|before|] == n;
    } else if IsValid(Pending(notes + [n])) {
      var k :| 0 <= k < |before| && before[k] == Taken(Pending(notes)) &&
        forall m :: k < m < |before| ==> before[m].Reclaimed?;
      assert after[k] == before[k];
    }
  }

  // The queue against the notes.
  ghost predicate QueueStory(queue: seq<Handle>, notes: seq<Note>) {
    SentOf(notes) == Frames(Removals(notes)) + queue && RestReclaimed(notes)
  }

  // A frame enters the queue at its end and leaves it at its front.
  lemma QueueMoves(queue: seq<Handle>, notes: seq<Note>, n: Note, queue': seq<Handle>)
    requires QueueStory(queue, notes)
    requires match n
             case Sent(h) => queue' == queue + [h]
             case Reclaimed(h) => queue == [h] + queue'
             case Taken(h) => queue == [h] + queue'
             case _ => queue' == queue
    ensures QueueStory(queue', notes + [n])
  {
    hide SentOf, Removals, Frames, RestReclaimed;
    NoteMore(notes, n);
    assert SentOf(notes) + [] == SentOf(notes) && Removals(notes) + [] == Removals(notes);
    RestMore(notes, n);
    if n.Reclaimed? || n.Taken? {
      FramesMore(Removals(notes), n);
      assert Frames(Removals(notes)) + ([n.frame] + queue') == Frames(Removals(notes)) + [n.frame] + queue';
    } else if n.Sent? {
      assert Frames(Removals(notes)) + queue + [n.frame] == Frames(Removals(notes)) + (queue + [n.frame]);
    }
  }

  lemma QueueGoesOn(s: State, notes: seq<Note>, j: nat, c: Choice)
    requires Inv(s) && QueueStory(s.shared.queue, notes) && j < |s.tasks|
    ensures var r := StepOf(s.shared, s.tasks[j], c);
            QueueStory(r.shared.queue, notes + Noted(s.tasks[j], r.task))
  {
    hide Ledger, Sole, Sighted, Acquired, Release, Retain, Publish, QueueStory, Resolves;
    var r := StepOf(s.shared, s.tasks[j], c);
    var noted := Noted(s.tasks[j], r.task);
    if noted == [] {
      assert notes + noted == notes;
      assert r.shared.queue == s.shared.queue;
    } else {
      QueueMoves(s.shared.queue, notes, noted[0], r.shared.queue);
    }
  }

  // Where the renderer goes, given that nothing is refused.
  lemma RendererMoves(s: Shared, t: Task, c: Choice)
    requires |s.slots| == CAPACITY && Renders(t) && !RendererStep(s, t, c).refused
    ensures var r := RendererStep(s, t, c);
            && r.shared.presented.handle == (if t.Swapping? then t.next else s.presented.handle)
            && r.shared.queue == (if t.Draining? && s.queue != [] then s.queue[1..] else s.queue)
            && match t
               case Draining(next, latest) =>
                 if s.queue != [] then r.task == Received(s.queue[0], next, latest)
                 else r.task == if IsValid(next) then Drawing(next, latest) else t
               case Received(candidate, next, latest) => r.task == Superseding(candidate, next, latest)
               case Superseding(candidate, _, latest) => r.task == Draining(candidate, latest)
               case Drawing(next, latest) =>
                 r.task == if c.success then Refreshed(next, latest) else Failed(next, latest)
               case Failed(_, latest) => r.task == Draining(INVALID, latest)
               case Refreshed(next, latest) => r.task == Committing(next, latest)
               case Committing(next, latest) => r.task == Swapping(next, latest)
               case Swapping(next, latest) =>
                 r.task == Keeping(next, latest) || r.task == Replacing(s.presented.handle, next, latest)
               case Replacing(_, next, latest) => r.task == Keeping(next, latest)
               case Keeping(next, _) => r.task == Draining(INVALID, next)
               case _ => true
  {
    hide Release, Retain, Resolves;
  }

  lemma RendererGoesOn(s: State, i: nat, notes: seq<Note>, c: Choice)
    requires Inv(s) && i < |s.tasks| && Follows(s.shared.presented.handle, s.tasks[i], notes)
    ensures var r := StepOf(s.shared, s.tasks[i], c);
            Renders(r.task) && Follows(r.shared.presented.handle, r.task, notes + Noted(s.tasks[i], r.task))
  {
    hide Ledger, Sole, Sighted, RendererStep, Pending, LastShown, Inv, Noted;
    StepKeepsInv(s, i, c);
    RendererMoves(s.shared, s.tasks[i], c);
    NotedMore(notes, s.tasks[i], RendererStep(s.shared, s.tasks[i], c).task);
  }

  // What a renderer's move adds to the notes.
  lemma NotedMore(notes: seq<Note>, t: Task, t': Task)
    requires Renders(t)
    ensures var more := notes + Noted(t, t');
            && Pending(more) == (if t.Draining? && t'.Received? then t'.candidate
                                 else if (t.Failed? || t.Keeping?) && t'.Draining? then INVALID else Pending(notes))
            && LastShown(more) == if t.Drawing? && t'.Refreshed? then t.next else LastShown(notes)
  {
    hide Pending, LastShown;
    var noted := Noted(t, t');
    if noted == [] {
      assert notes + noted == notes;
    } else {
      NoteMore(notes, noted[0]);
    }
  }

  // The other tasks leave the renderer and the presentation alone.
  lemma OthersGoOn(s: State, notes: seq<Note>, j: nat, c: Choice)
    requires Inv(s) && j < |s.tasks| && !Renders(s.tasks[j])
    ensures var r := StepOf(s.shared, s.tasks[j], c);
            && !Renders(r.task) && r.shared.presented == s.shared.presented
            && var noted := Noted(s.tasks[j], r.task);
               Pending(notes + noted) == Pending(notes) && LastShown(notes + noted) == LastShown(notes)
  {
    hide Ledger, Sole, Sighted, Acquired, Release, Retain, Publish, Resolves, Pending, LastShown;
    var r := StepOf(s.shared, s.tasks[j], c);
    var noted := Noted(s.tasks[j], r.task);
    if noted == [] {
      assert notes + noted == notes;
    } else {
      NoteMore(notes, noted[0]);
    }
  }

  // A step goes with its note.
  lemma StoryGoesOn(s: State, i: nat, notes: seq<Note>, j: nat, c: Choice)
    requires Inv(s) && Story(s, i, notes) && j < |s.tasks|
    ensures var r := StepOf(s.shared, s.tasks[j], c); Story(After(s, j, r), i, notes + Noted(s.tasks[j], r.task))
  {
    hide Inv, StepOf, QueueStory, Renders, Noted, Pending, LastShown;
    QueueGoesOn(s, notes, j, c);
    if j == i {
      RendererGoesOn(s, i, notes, c);
    } else {
      OthersGoOn(s, notes, j, c);
    }
  }

  lemma {:induction false} StoryHolds(s: State, i: nat, notes: seq<Note>, turns: seq<Turn>)
    requires Inv(s) && Story(s, i, notes)
    ensures Story(Run(s, turns), i, notes + Notes(s, turns))
    decreases |turns|
  {
    hide Inv, Story, StepOf, Noted;
    if turns == [] {
      assert notes + [] == notes;
    } else if turns[0].task >= |s.tasks| {
      StoryHolds(s, i, notes, turns[1..]);
    } else {
      StepKeepsInv(s, turns[0].task, turns[0].choice);
      StoryGoesOn(s, i, notes, turns[0].task, turns[0].choice);
      var next := Stepped(s, turns[0].task, turns[0].choice);
      var noted := Noted(s.tasks[turns[0].task], next.tasks[turns[0].task]);
      StoryHolds(next, i, notes + noted, turns[1..]);
      assert notes + noted + Notes(next, turns[1..]) == notes + (noted + Notes(next, turns[1..]));
    }
  }

  // The only renderer of a start-up state.
  ghost predicate Renderer(start: State, i: nat) {
    && Initial(start) && i < |start.tasks| && Renders(start.tasks[i])
    && forall j :: 0 <= j < |start.tasks| && j != i ==> !Renders(start.tasks[j])
  }

  lemma StoryOfRun(start: State, turns: seq<Turn>, i: nat)
    requires Renderer(start, i)
    ensures Inv(start) && Story(Run(start, turns), i, Notes(start, turns))
  {
    hide Inv;
    InitialInv(start);
    StoryHolds(start, i, [], turns);
    assert [] + Notes(start, turns) == Notes(start, turns);
  }

  // Frames leave the queue in the order they were sent. The frame on its way to the display is
  // the newest of those that have left it and were not reclaimed, and it is drawn only when
  // the queue is empty: no stale frame is drawn while a newer one waits.
  lemma NewestIsDrawn(start: State, turns: seq<Turn>, i: nat, c: Choice)
    requires Renderer(start, i)
    ensures Inv(start)
    ensures var s, notes := Run(start, turns), Notes(start, turns);
            && SentOf(notes) == Frames(Removals(notes)) + s.shared.queue
            && var t := StepOf(s.shared, s.tasks[i], c).task;
               t.Drawing? ==>
                 && s.shared.queue == []
                 && exists k :: 0 <= k < |Removals(notes)| && Removals(notes)[k] == Taken(t.next) &&
                      forall m :: k < m < |Removals(notes)| ==> Removals(notes)[m].Reclaimed?
  {
    hide Inv, Ledger, Sole, Sighted, SentOf, Removals, Frames, Pending, LastShown, Resolves, Release, Retain;
    StoryOfRun(start, turns, i);
  }

  // What is presented is the frame refreshed last, or is about to be.
  lemma ShownIsPresented(start: State, turns: seq<Turn>, i: nat)
    requires Renderer(start, i)
    ensures Inv(start)
    ensures var s, notes := Run(start, turns), Notes(start, turns);
            if s.tasks[i].Refreshed? || s.tasks[i].Committing? || s.tasks[i].Swapping? then
              LastShown(notes) == s.tasks[i].next
            else s.shared.presented.handle == LastShown(notes)
  {
    hide Inv, QueueStory, Pending, LastShown;
    StoryOfRun(start, turns, i);
  }

  // ----- What a task does by itself

  function Alone(i: nat, c: Choice, n: nat): seq<Turn> {
    if n == 0 then [] else [Turn(i, c)] + Alone(i, c, n - 1)
  }

  lemma AloneMore(s: State, i: nat, c: Choice, n: nat)
    requires Inv(s) && i < |s.tasks|
    ensures Inv(Stepped(s, i, c)) && !StepOf(s.shared, s.tasks[i], c).refused
    ensures Run(s, Alone(i, c, n + 1)) == Run(Stepped(s, i, c), Alone(i, c, n))
  {
    hide Ledger, Sole, Sighted, StepOf;
    StepKeepsInv(s, i, c);
    assert Alone(i, c, n + 1)[1..] == Alone(i, c, n);
  }

  // The frame that will be presented.
  function Goal(t: Task, queue: seq<Handle>): Handle {
    match t
    case Draining(next, _) => if queue != [] then queue[|queue| - 1] else next
    case Received(candidate, _, _) => if queue != [] then queue[|queue| - 1] else candidate
    case Superseding(candidate, _, _) => if queue != [] then queue[|queue| - 1] else candidate
    case Drawing(next, _) => next
    case Refreshed(next, _) => next
    case Committing(next, _) => next
    case Swapping(next, _) => next
    case Replacing(_, next, _) => next
    case Keeping(next, _) => next
    case _ => INVALID
  }

  function Stage(t: Task): nat {
    match t
    case Received(_, _, _) => 8
    case Superseding(_, _, _) => 7
    case Draining(_, _) => 6
    case Drawing(_, _) => 5
    case Refreshed(_, _) => 4
    case Committing(_, _) => 3
    case Swapping(_, _) => 2
    case Replacing(_, _, _) => 1
    case _ => 0
  }

  // A renderer whose refresh succeeds presents the frame sent last, and keeps it as its latest.
  lemma {:induction false} RendererPresents(s: State, i: nat, c: Choice) returns (n: nat)
    requires Inv(s) && i < |s.tasks| && c.success && IsValid(Goal(s.tasks[i], s.shared.queue))
    requires var t := s.tasks[i]; t.Replacing? || t.Keeping? ==> s.shared.presented.handle == t.next
    ensures var r := Run(s, Alone(i, c, n)); var goal := Goal(s.tasks[i], s.shared.queue);
            r.tasks[i] == Draining(INVALID, goal) && r.shared.presented.handle == goal
    decreases |s.shared.queue|, Stage(s.tasks[i])
  {
    hide Ledger, Sole, Sighted, StepOf, RendererStep;
    AloneMore(s, i, c, 0);
    var next := Stepped(s, i, c);
    RendererAlone(s, i, c);
    if s.tasks[i].Keeping? {
      n := 1;
      assert Alone(i, c, 0) == [];
    } else {
      n := RendererPresents(next, i, c);
      AloneMore(s, i, c, n);
      n := n + 1;
    }
  }

  lemma RendererAlone(s: State, i: nat, c: Choice)
    requires Inv(s) && i < |s.tasks| && c.success && IsValid(Goal(s.tasks[i], s.shared.queue))
    requires !StepOf(s.shared, s.tasks[i], c).refused
    requires var t := s.tasks[i]; t.Replacing? || t.Keeping? ==> s.shared.presented.handle == t.next
    ensures var t, s' := s.tasks[i], Stepped(s, i, c); var t' := s'.tasks[i];
            if t.Keeping? then t' == Draining(INVALID, t.next) && s'.shared.presented.handle == t.next
            else
              && Goal(t', s'.shared.queue) == Goal(t, s.shared.queue)
              && (t'.Replacing? || t'.Keeping? ==> s'.shared.presented.handle == t'.next)
              && (|s'.shared.queue| < |s.shared.queue| || (s'.shared.queue == s.shared.queue && Stage(t') < Stage(t)))
  {
    hide Ledger, Sole, Sighted, RendererStep;
    RendererMoves(s.shared, s.tasks[i], c);
  }

  // A producer that submits its frame gets it into the queue behind the newest of those that
  // wait there.
  lemma ProducerDelivers(s: State, i: nat, c: Choice) returns (n: nat)
    requires Inv(s) && i < |s.tasks| && s.tasks[i].Filling? && !c.write && !c.giveUp
    ensures var r := Run(s, Alone(i, c, n)); var own := s.tasks[i].own;
            && r.tasks[i] == Producing
            && r.shared.queue ==
               (if |s.shared.queue| < QUEUE_LENGTH then s.shared.queue else s.shared.queue[1..]) + [own]
            && IsValid(own) && r.shared.slots[own.index].state == Published
            && r.shared.slots[own.index].frame == s.shared.slots[own.index].frame
  {
    hide Ledger, Sole, Sighted, StepOf;
    var own := s.tasks[i].own;
    n := if |s.shared.queue| < QUEUE_LENGTH then 3 else 5;
    var a := Stepped(s, i, c);
    AloneMore(s, i, c, n - 1);
    FillingMoves(s, i, c);
    var b := a;
    if n == 5 {
      AloneMore(a, i, c, 3);
      AloneMore(Stepped(a, i, c), i, c, 2);
      b := Stepped(Stepped(a, i, c), i, c);
      DisplacingMoves(a, i, c);
    }
    AloneMore(b, i, c, 1);
    AloneMore(Stepped(b, i, c), i, c, 0);
    assert Alone(i, c, 0) == [];
    PublishingMoves(b, i, c);
  }

  lemma FillingMoves(s: State, i: nat, c: Choice)
    requires Inv(s) && i < |s.tasks| && s.tasks[i].Filling? && !c.write && !c.giveUp
    ensures var s' := Stepped(s, i, c); var own := s.tasks[i].own;
            && s'.shared == s.shared && IsValid(own)
            && s'.tasks[i] == if |s.shared.queue| == QUEUE_LENGTH then QueueFull(own) else Publishing(own)
  {
    hide Sole, Sighted;
    BuildingBuilt(s, i, s.tasks[i].own);
  }

  lemma BuildingBuilt(s: State, i: nat, h: Handle)
    requires i < |s.tasks| && Ledger(s) && BuildingBy(s.tasks[i], h) > 0
    ensures Built(s, h) > 0 && IsValid(h)
  {
    hide Built, Held, BuildingBy, HeldBy, After;
    AfterCounts(s, i, Going(s.shared, s.tasks[i]));
  }

  lemma DisplacingMoves(s: State, i: nat, c: Choice)
    requires Inv(s) && i < |s.tasks| && s.tasks[i].QueueFull? && s.shared.queue != []
    requires IsValid(s.tasks[i].own) && !c.write && !c.giveUp
    ensures Inv(Stepped(s, i, c))
    ensures var r, own := Stepped(Stepped(s, i, c), i, c), s.tasks[i].own;
            && r.tasks[i] == Publishing(own) && r.shared.queue == s.shared.queue[1..]
            && r.shared.slots[own.index].frame == s.shared.slots[own.index].frame
  {
    hide Ledger, Sole, Sighted;
    AloneMore(s, i, c, 0);
    AloneMore(Stepped(s, i, c), i, c, 0);
  }

  lemma PublishingMoves(s: State, i: nat, c: Choice)
    requires Inv(s) && i < |s.tasks| && s.tasks[i].Publishing? && !c.write && IsValid(s.tasks[i].own)
    requires |s.shared.queue| < QUEUE_LENGTH
    ensures Inv(Stepped(s, i, c))
    ensures var r, own := Stepped(Stepped(s, i, c), i, c), s.tasks[i].own;
            && r.tasks[i] == Producing && r.shared.queue == s.shared.queue + [own]
            && r.shared.slots[own.index].state == Published
            && r.shared.slots[own.index].frame == s.shared.slots[own.index].frame
  {
    hide Ledger, Sole, Sighted;
    AloneMore(s, i, c, 0);
    AloneMore(Stepped(s, i, c), i, c, 0);
  }

  // A producer gets a frame if one is free, or else the oldest that waits in the queue.
  lemma ProducerAcquires(s: State, i: nat, c: Choice) returns (n: nat)
    requires Inv(s) && i < |s.tasks| && s.tasks[i] == Producing
    requires s.shared.queue != [] || FirstFree(s.shared.slots) < CAPACITY
    ensures var r := Run(s, Alone(i, c, n));
            && r.tasks[i].Filling? && IsValid(r.tasks[i].own)
            && r.shared.queue == if FirstFree(s.shared.slots) < CAPACITY then s.shared.queue else s.shared.queue[1..]
  {
    hide Ledger, Sole, Sighted, StepOf, Stepped, FirstFree, IsValid;
    assert Alone(i, c, 0) == [];
    hide Alone;
    if FirstFree(s.shared.slots) < CAPACITY {
      n := 1;
      AloneMore(s, i, c, 0);
      AcquireMoves(s, i, c);
    } else {
      n := 4;
      AloneMore(s, i, c, 3);
      AcquireMoves(s, i, c);
      var a := Stepped(s, i, c);
      AloneMore(a, i, c, 2);
      ReclaimMoves(a, i, c);
      var b := Stepped(a, i, c);
      AloneMore(b, i, c, 1);
      DiscardMoves(b, i, c);
      AloneMore(Stepped(b, i, c), i, c, 0);
      AcquireMoves(Stepped(b, i, c), i, c);
    }
  }

  lemma AcquireMoves(s: State, i: nat, c: Choice)
    requires i < |s.tasks| && |s.shared.slots| == CAPACITY && (s.tasks[i] == Producing || s.tasks[i] == Retrying)
    ensures var s' := Stepped(s, i, c);
            && s'.shared.queue == s.shared.queue
            && if FirstFree(s.shared.slots) < CAPACITY then s'.tasks[i].Filling? && IsValid(s'.tasks[i].own)
               else s'.tasks[i] == (if s.tasks[i] == Producing then PoolFull else Producing) && s'.shared == s.shared
  {
  }

  // The frame taken out of the queue has no other owner.
  lemma ReclaimMoves(s: State, i: nat, c: Choice)
    requires Inv(s) && i < |s.tasks| && s.tasks[i] == PoolFull && s.shared.queue != []
    ensures var s', h := Stepped(s, i, c), s.shared.queue[0];
            && s'.tasks[i] == Discarding(h) && s'.shared.queue == s.shared.queue[1..]
            && s'.shared.slots == s.shared.slots && Resolves(s.shared.slots, h) && s.shared.slots[h.index].count == 1
  {
    hide Ledger, Sighted, Held;
    var h := s.shared.queue[0];
    assert Queued(s.shared.queue, h) > 0;
    assert Held(s, h) == 1;
    HeldCounts(s, h);
  }

  lemma DiscardMoves(s: State, i: nat, c: Choice)
    requires Inv(s) && i < |s.tasks| && s.tasks[i].Discarding? && Resolves(s.shared.slots, s.tasks[i].taken)
    requires s.shared.slots[s.tasks[i].taken.index].count == 1
    ensures var s' := Stepped(s, i, c);
            s'.tasks[i] == Retrying && s'.shared.queue == s.shared.queue && FirstFree(s'.shared.slots) < CAPACITY
  {
    hide Ledger, Sole, Sighted;
    var s' := Stepped(s, i, c);
    assert s'.shared.slots[s.tasks[i].taken.index].state == Free;
  }

  // A guard opened for the view shown reads the frame presented, unless its count is full.
  lemma GuardOpens(s: State, i: nat, c: Choice)
    requires Inv(s) && i < |s.tasks| && s.tasks[i] == Closed && IsValid(s.shared.presented.handle)
    ensures var h := s.shared.presented.handle; var r := Run(s, Alone(i, c, 3));
            Shows(s.shared.presented, c.view) && s.shared.slots[h.index].count < COUNT_LIMIT ==>
              r.tasks[i] == Reading(c.view, h)
  {
    hide Ledger, Sole, Sighted, StepOf;
    assert Alone(i, c, 0) == [];
    AloneMore(s, i, c, 2);
    var h := s.shared.presented.handle;
    if Shows(s.shared.presented, c.view) && s.shared.slots[h.index].count < COUNT_LIMIT {
      GuardMoves(s, i, c);
      var a := Stepped(s, i, c);
      AloneMore(a, i, c, 1);
      CheckMoves(a, i, c);
      AloneMore(Stepped(a, i, c), i, c, 0);
      ResolveMoves(Stepped(a, i, c), i, c);
    }
  }

  lemma GuardMoves(s: State, i: nat, c: Choice)
    requires Inv(s) && i < |s.tasks| && s.tasks[i] == Closed && IsValid(s.shared.presented.handle)
    requires Shows(s.shared.presented, c.view)
    requires s.shared.slots[s.shared.presented.handle.index].count < COUNT_LIMIT
    ensures Stepped(s, i, c).tasks[i] == Checking(c.view, s.shared.presented.handle)
    ensures Stepped(s, i, c).shared.presented == s.shared.presented
  {
    hide Ledger, Sole, Sighted, Held;
    PresentedHolds(s);
    HeldCounts(s, s.shared.presented.handle);
  }

  lemma CheckMoves(s: State, i: nat, c: Choice)
    requires Inv(s) && i < |s.tasks| && s.tasks[i].Checking?
    requires Shows(s.shared.presented, s.tasks[i].view) && s.shared.presented.handle == s.tasks[i].held
    ensures Stepped(s, i, c).tasks[i] == Resolving(s.tasks[i].view, s.tasks[i].held)
  {
    hide Ledger, Sole, Sighted;
  }

  lemma ResolveMoves(s: State, i: nat, c: Choice)
    requires Inv(s) && i < |s.tasks| && s.tasks[i].Resolving? && !StepOf(s.shared, s.tasks[i], c).refused
    ensures Stepped(s, i, c).tasks[i] == Reading(s.tasks[i].view, s.tasks[i].held)
  {
    hide Ledger, Sole, Sighted;
  }
}
