// The storage results shared between the storage worker, its result queue and the tasks that
// read them (services/storage/storage_service.cpp, system/system_event_dispatcher.cpp,
// app/file/file_app.cpp): reference counts in atomics, changed by compare-and-exchange loops,
// as atomic steps in any interleaving.
module ResultPool {
  const POOL_SIZE: nat := 4
  const QUEUE_LENGTH: nat := 4
  const MASK: nat := 0xffff
  const CLEANUP: nat := 0x1_0000
  const GENERATIONS: nat := 0x1_0000_0000

  datatype Slot = Slot(generation: nat, state: nat, filling: bool, result: int)

  datatype Handle = Handle(index: nat, generation: nat)

  const INVALID: Handle := Handle(0xffff, 0)

  predicate IsValid(h: Handle) { h.index != 0xffff && h.generation != 0 }

  function References(state: nat): nat { state % CLEANUP }

  predicate Flagged(state: nat) { state / CLEANUP % 2 == 1 }

  // The handles of a slot's successive uses differ.
  function NextGeneration(g: nat): (next: nat)
    ensures next != 0 && next < GENERATIONS && next != g
  {
    if g + 1 >= GENERATIONS then 1 else g + 1
  }

  // What a release writes in place of a count.
  function Dropped(state: nat): nat { if References(state) == 1 then CLEANUP else if state > 0 then state - 1 else 0 }

  datatype Shared = Shared(slots: seq<Slot>, queue: seq<Handle>)

  // Where a call on a slot stands: it loads the generation, the filling mark or the count, or
  // it has loaded a count and tries to exchange it.
  datatype Call = Generation | FillMark | Count | Swap(state: nat)

  datatype CallResult = Going(call: Call) | Returned(ok: bool)

  datatype CallOutcome = CallOutcome(shared: Shared, result: CallResult)

  // storage_worker_task(): the scan of acquire_result_slot() under the pool's mutex, store by
  // store; mutable_result_slot(); filling the result; finish_result() and publish_result().
  datatype Worker =
    | Ready
    | Scanning(i: nat)
    | Emptying(i: nat)
    | Unmarking(i: nat)
    | Clearing(i: nat)
    | Testing(i: nat)
    | Numbering(i: nat)
    | Naming(i: nat, generation: nat)
    | Renewing(i: nat, generation: nat)
    | Marking(i: nat, generation: nat)
    | Counting(i: nat, generation: nat)
    | Opening(h: Handle, call: Call)
    | Filling(h: Handle)
    | Finishing(h: Handle, call: Call)
    | Ending(h: Handle)
    | Finished(h: Handle)
    | Giving(h: Handle, call: Call)

  // A task that takes results off the queue: the dispatcher with the app it calls. `directory`
  // is the result the app keeps, `event` the one being dispatched. The app resolves the event,
  // looks at the result, and either retains it and releases the directory it had, or releases
  // that directory, or does nothing; then the dispatcher releases the event. At rest the app
  // may release its directory.
  datatype Client =
    | Resting(directory: Handle)
    | Handling(event: Handle, directory: Handle, call: Call)
    | Deciding(event: Handle, directory: Handle)
    | Retaining(event: Handle, directory: Handle, call: Call)
    | Replacing(event: Handle, directory: Handle, call: Call)
    | Closing(event: Handle, directory: Handle, call: Call)
    | Releasing(event: Handle, directory: Handle, call: Call)
    | Leaving(directory: Handle, call: Call)

  datatype State = State(shared: Shared, worker: Worker, clients: seq<Client>)

  // What a step may depend on: what the worker writes or whether it is done, what the app
  // wants of an event, whether a weak exchange fails for no reason, whether the mutex is had.
  datatype Choice = Choice(write: bool, result: int, keep: bool, drop: bool, spurious: bool, locked: bool)

  datatype WorkerOutcome = WorkerOutcome(shared: Shared, worker: Worker, refused: bool)

  datatype ClientOutcome = ClientOutcome(shared: Shared, client: Client, refused: bool)

  function WithSlot(s: Shared, i: nat, slot: Slot): Shared {
    if i < |s.slots| then s.(slots := s.slots[i := slot]) else s
  }

  // The load a retain or release starts from.
  function StateOf(s: Shared, h: Handle): nat {
    if h.index < |s.slots| then s.slots[h.index].state else 0
  }

  predicate Matches(s: Shared, h: Handle) {
    IsValid(h) && h.index < |s.slots| && s.slots[h.index].generation == h.generation
  }

  predicate IsMarked(s: Shared, h: Handle) { h.index < |s.slots| && s.slots[h.index].filling }

  predicate Releasable(state: nat) { !Flagged(state) && References(state) != 0 }

  predicate Retainable(state: nat) { Releasable(state) && References(state) < MASK }

  function Exchange(s: Shared, h: Handle, state: nat): Shared {
    if h.index < |s.slots| then s.(slots := s.slots[h.index := s.slots[h.index].(state := state)]) else s
  }

  // ----- The calls, one atomic operation at a time

  // A check that is passed or ends the call.
  function Check(s: Shared, passed: bool, next: CallResult): CallOutcome {
    CallOutcome(s, if passed then next else Returned(false))
  }

  // storage_service_resolve_result(), and mutable_result_slot() without its last load.
  function ResolveStep(s: Shared, h: Handle, call: Call): CallOutcome {
    match call
    case Generation => Check(s, Matches(s, h), Going(Count))
    case Count => Check(s, References(StateOf(s, h)) > 0, Going(FillMark))
    case FillMark => Check(s, !IsMarked(s, h), Returned(true))
    case Swap(_) => CallOutcome(s, Returned(false))
  }

  // finish_result() up to its store.
  function FinishStep(s: Shared, h: Handle, call: Call): CallOutcome {
    match call
    case Generation => Check(s, Matches(s, h), Going(Count))
    case Count => Check(s, References(StateOf(s, h)) > 0, Going(FillMark))
    case FillMark => Check(s, IsMarked(s, h), Returned(true))
    case Swap(_) => CallOutcome(s, Returned(false))
  }

  // storage_service_retain_result(); a failed exchange loads the count again.
  function RetainStep(s: Shared, h: Handle, call: Call, spurious: bool): CallOutcome {
    match call
    case Generation => Check(s, Matches(s, h), Going(FillMark))
    case FillMark => Check(s, !IsMarked(s, h), Going(Count))
    case Count => Check(s, Retainable(StateOf(s, h)), Going(Swap(StateOf(s, h))))
    case Swap(state) =>
      if !spurious && StateOf(s, h) == state then CallOutcome(Exchange(s, h, state + 1), Returned(true))
      else Check(s, Retainable(StateOf(s, h)), Going(Swap(StateOf(s, h))))
  }

  // storage_service_release_result(); it does nothing to the invalid handle.
  function ReleaseStep(s: Shared, h: Handle, call: Call, spurious: bool): CallOutcome {
    match call
    case Generation => if !IsValid(h) then CallOutcome(s, Returned(true)) else Check(s, Matches(s, h), Going(Count))
    case Count => Check(s, Releasable(StateOf(s, h)), Going(Swap(StateOf(s, h))))
    case Swap(state) =>
      if !spurious && StateOf(s, h) == state then CallOutcome(Exchange(s, h, Dropped(state)), Returned(true))
      else Check(s, Releasable(StateOf(s, h)), Going(Swap(StateOf(s, h))))
    case FillMark => CallOutcome(s, Returned(false))
  }

  // ----- The worker's steps

  function WorkerStep(s: Shared, w: Worker, c: Choice): WorkerOutcome
    requires |s.slots| == POOL_SIZE
  {
    match w
    case Ready => WorkerOutcome(s, if c.locked then Scanning(0) else Ready, false)
    case Scanning(i) =>
      if i >= POOL_SIZE then WorkerOutcome(s, Ready, false)
      else if s.slots[i].state == CLEANUP then WorkerOutcome(s, Emptying(i), false)
      else if s.slots[i].state == 0 then WorkerOutcome(s, Testing(i), false)
      else WorkerOutcome(s, Scanning(i + 1), false)
    case Filling(h) =>
      if !c.write then WorkerOutcome(s, Finishing(h, Generation), false)
      else if h.index < POOL_SIZE then
        WorkerOutcome(WithSlot(s, h.index, s.slots[h.index].(result := c.result)), w, false)
      else WorkerOutcome(s, Ready, true)
    case Opening(h, Count) =>
      if References(StateOf(s, h)) > 0 then WorkerOutcome(s, Filling(h), false) else WorkerOutcome(s, Ready, true)
    case Opening(h, call) =>
      var r := ResolveStep(s, h, call);
      if r.result.Going? then WorkerOutcome(s, Opening(h, r.result.call), false) else WorkerOutcome(s, Ready, true)
    case Finishing(h, call) =>
      var r := FinishStep(s, h, call);
      if r.result.Going? then WorkerOutcome(s, Finishing(h, r.result.call), false)
      else if r.result.ok then WorkerOutcome(s, Ending(h), false)
      else WorkerOutcome(s, Giving(h, Generation), true)
    case Ending(h) =>
      if h.index < POOL_SIZE then
        WorkerOutcome(WithSlot(s, h.index, s.slots[h.index].(filling := false)), Finished(h), false)
      else WorkerOutcome(s, Ready, true)
    case Finished(h) =>
      if |s.queue| < QUEUE_LENGTH then WorkerOutcome(s.(queue := s.queue + [h]), Ready, false)
      else WorkerOutcome(s, Giving(h, Generation), true)
    case Giving(h, call) =>
      var r := ReleaseStep(s, h, call, c.spurious);
      if r.result.Going? then WorkerOutcome(r.shared, Giving(h, r.result.call), false)
      else WorkerOutcome(r.shared, Ready, !r.result.ok)
    case _ => if w.i < POOL_SIZE then ClaimStep(s, w) else WorkerOutcome(s, Ready, true)
  }

  predicate Claims(w: Worker) {
    || w.Emptying? || w.Unmarking? || w.Clearing? || w.Testing? || w.Numbering? || w.Naming? || w.Renewing?
    || w.Marking? || w.Counting?
  }

  // Recycling and claiming slot i, a store or load at a time.
  function ClaimStep(s: Shared, w: Worker): WorkerOutcome
    requires |s.slots| == POOL_SIZE && Claims(w) && w.i < POOL_SIZE
  {
    var slot := s.slots[w.i];
    match w
    case Emptying(i) => WorkerOutcome(WithSlot(s, i, slot.(result := 0)), Unmarking(i), false)
    case Unmarking(i) => WorkerOutcome(WithSlot(s, i, slot.(filling := false)), Clearing(i), false)
    case Clearing(i) => WorkerOutcome(WithSlot(s, i, slot.(state := 0)), Testing(i), false)
    case Testing(i) => WorkerOutcome(s, if slot.filling then Scanning(i + 1) else Numbering(i), false)
    case Numbering(i) => WorkerOutcome(s, Naming(i, NextGeneration(slot.generation)), false)
    case Naming(i, g) => WorkerOutcome(WithSlot(s, i, slot.(generation := g)), Renewing(i, g), false)
    case Renewing(i, g) => WorkerOutcome(WithSlot(s, i, slot.(result := 0)), Marking(i, g), false)
    case Marking(i, g) => WorkerOutcome(WithSlot(s, i, slot.(filling := true)), Counting(i, g), false)
    case Counting(i, g) => WorkerOutcome(WithSlot(s, i, slot.(state := 1)), Opening(Handle(i, g), Generation), false)
  }

  // ----- The clients' steps

  function ClientStep(s: Shared, k: Client, c: Choice): ClientOutcome {
    match k
    case Resting(directory) =>
      if s.queue != [] && c.keep then
        ClientOutcome(s.(queue := s.queue[1..]), Handling(s.queue[0], directory, Generation), false)
      else if c.drop then ClientOutcome(s, Leaving(directory, Generation), false)
      else ClientOutcome(s, k, false)
    case Handling(event, directory, call) =>
      var r := ResolveStep(s, event, call);
      After(r, k, Deciding(event, directory), Releasing(event, directory, Generation))
    case Deciding(event, directory) =>
      if c.keep then ClientOutcome(s, Retaining(event, directory, Generation), false)
      else if c.drop then ClientOutcome(s, Closing(event, directory, Generation), false)
      else ClientOutcome(s, Releasing(event, directory, Generation), false)
    case Retaining(event, directory, call) =>
      After(RetainStep(s, event, call, c.spurious), k, Replacing(event, directory, Generation),
            Releasing(event, directory, Generation))
    case Replacing(event, directory, call) =>
      After(ReleaseStep(s, directory, call, c.spurious), k, Releasing(event, event, Generation),
            Releasing(event, event, Generation))
    case Closing(event, directory, call) =>
      After(ReleaseStep(s, directory, call, c.spurious), k, Releasing(event, INVALID, Generation),
            Releasing(event, INVALID, Generation))
    case Releasing(event, directory, call) =>
      After(ReleaseStep(s, event, call, c.spurious), k, Resting(directory), Resting(directory))
    case Leaving(directory, call) =>
      After(ReleaseStep(s, directory, call, c.spurious), k, Resting(INVALID), Resting(INVALID))
  }

  // The client with the call it is in at another point.
  function At(k: Client, call: Call): Client {
    match k
    case Handling(event, directory, _) => Handling(event, directory, call)
    case Retaining(event, directory, _) => Retaining(event, directory, call)
    case Replacing(event, directory, _) => Replacing(event, directory, call)
    case Closing(event, directory, _) => Closing(event, directory, call)
    case Releasing(event, directory, _) => Releasing(event, directory, call)
    case Leaving(directory, _) => Leaving(directory, call)
    case _ => k
  }

  // What becomes of a client after a step of the call it is in.
  function After(r: CallOutcome, k: Client, done: Client, failed: Client): ClientOutcome {
    match r.result
    case Going(call) => ClientOutcome(r.shared, At(k, call), false)
    case Returned(ok) => ClientOutcome(r.shared, if ok then done else failed, !ok)
  }

  // ----- Who owns what

  function Eq(a: Handle, h: Handle): nat { if a == h then 1 else 0 }

  function Opt(a: Handle, h: Handle): nat { if IsValid(a) && a == h then 1 else 0 }

  function ClientHolds(k: Client, h: Handle): nat {
    match k
    case Resting(directory) => Opt(directory, h)
    case Replacing(event, directory, _) => 2 * Eq(event, h) + Opt(directory, h)
    case Leaving(directory, _) => Opt(directory, h)
    case _ => Eq(k.event, h) + Opt(k.directory, h)
  }

  function WorkerHolds(w: Worker, h: Handle): nat {
    if w.Opening? || w.Filling? || w.Finishing? || w.Ending? || w.Finished? || w.Giving? then Eq(w.h, h) else 0
  }

  function AllHold(clients: seq<Client>, h: Handle): nat {
    if clients == [] then 0 else ClientHolds(clients[0], h) + AllHold(clients[1..], h)
  }

  function Queued(queue: seq<Handle>, h: Handle): nat {
    if queue == [] then 0 else Eq(queue[0], h) + Queued(queue[1..], h)
  }

  function Owners(s: State, h: Handle): nat {
    AllHold(s.clients, h) + Queued(s.shared.queue, h) + WorkerHolds(s.worker, h)
  }

  // The worker has this slot marked as being filled.
  predicate Writes(w: Worker, h: Handle) {
    if w.Counting? then h == Handle(w.i, w.generation)
    else (w.Opening? || w.Filling? || w.Finishing? || w.Ending?) && w.h == h
  }

  ghost predicate SlotCounted(s: State, i: nat)
    requires i < |s.shared.slots|
  {
    var slot := s.shared.slots[i];
    var n := Owners(s, Handle(i, slot.generation));
    && (if n == 0 then slot.state == 0 || slot.state == CLEANUP else slot.state == n <= MASK)
    && (slot.filling <==> Writes(s.worker, Handle(i, slot.generation)))
  }

  ghost predicate Unowned(s: State, i: nat) {
    forall h: Handle :: h.index == i ==> Owners(s, h) == 0
  }

  ghost predicate WorkerGood(s: State)
    requires |s.shared.slots| == POOL_SIZE
  {
    var w := s.worker;
    && (Claims(w) ==> w.i < POOL_SIZE && Unowned(s, w.i) && ClaimGood(s.shared.slots[w.i], w))
    && (w.Opening? || w.Filling? || w.Finishing? || w.Ending? || w.Finished? ==> Owners(s, w.h) == 1)
    && (w.Opening? || w.Finishing? ==> !w.call.Swap?)
    && (w.Opening? ==> !w.call.FillMark?)
    && (w.Giving? ==> ReleaseGood(w.call))
  }

  predicate ClaimGood(slot: Slot, w: Worker)
    requires Claims(w)
  {
    && slot.state == (if w.Emptying? || w.Unmarking? || w.Clearing? then CLEANUP else 0)
    && (w.Naming? ==> w.generation != 0)
    && (w.Renewing? || w.Marking? || w.Counting? ==> slot.generation == w.generation != 0)
  }

  ghost predicate Ledger(s: State) {
    && |s.shared.slots| == POOL_SIZE
    && (forall h :: Owners(s, h) > 0 ==> Matches(s.shared, h))
    && (forall i :: 0 <= i < POOL_SIZE ==> SlotCounted(s, i))
    && WorkerGood(s)
  }

  // Loaded counts are counts.
  predicate ReleaseGood(call: Call) { !call.FillMark? && (call.Swap? ==> 1 <= call.state <= MASK) }

  predicate ClientGood(k: Client) {
    && (k.Handling? ==> !k.call.Swap?)
    && (k.Retaining? && k.call.Swap? ==> 1 <= k.call.state < MASK)
    && (k.Replacing? || k.Closing? || k.Releasing? || k.Leaving? ==>
          ReleaseGood(k.call) && (!k.Releasing? && !k.call.Generation? ==> IsValid(k.directory)))
  }

  // The client has taken its event off the queue and not retained it.
  predicate Unshared(k: Client) { k.Handling? || k.Deciding? || k.Retaining? }

  // A published result has one owner, in one place, until the client that took it off the
  // queue retains it.
  ghost predicate Sole(s: State) {
    && (forall h :: Queued(s.shared.queue, h) > 0 ==> Owners(s, h) == 1)
    && (forall j :: 0 <= j < |s.clients| && Unshared(s.clients[j]) ==> Owners(s, s.clients[j].event) == 1)
  }

  ghost predicate Inv(s: State) {
    Ledger(s) && Sole(s) && (forall j :: 0 <= j < |s.clients| ==> ClientGood(s.clients[j]))
  }

  // No result that somebody other than its writer owns has changed.
  ghost predicate Untouched(s: State, s': State) {
    && |s.shared.slots| == |s'.shared.slots| == POOL_SIZE
    && forall h :: Owners(s, h) > 0 && Matches(s.shared, h) && !Writes(s.worker, h) ==>
         && s'.shared.slots[h.index].result == s.shared.slots[h.index].result
         && s'.shared.slots[h.index].generation == s.shared.slots[h.index].generation
  }

  // ----- Counting

  lemma {:induction false} AllAfter(clients: seq<Client>, j: nat, k: Client, h: Handle)
    requires j < |clients|
    ensures AllHold(clients[j := k], h) == AllHold(clients, h) - ClientHolds(clients[j], h) + ClientHolds(k, h)
    ensures ClientHolds(clients[j], h) <= AllHold(clients, h)
    decreases j
  {
    hide ClientHolds;
    if j == 0 {
      assert clients[0 := k][1..] == clients[1..];
    } else {
      AllAfter(clients[1..], j - 1, k, h);
      assert clients[j := k][1..] == clients[1..][j - 1 := k];
    }
  }

  function ClientAfter(s: State, j: nat, r: ClientOutcome): State
    requires j < |s.clients|
  {
    State(r.shared, s.worker, s.clients[j := r.client])
  }

  lemma AfterCounts(s: State, j: nat, r: ClientOutcome)
    requires j < |s.clients|
    ensures var s' := ClientAfter(s, j, r);
            forall h :: Owners(s', h) == Owners(s, h) - ClientHolds(s.clients[j], h) + ClientHolds(r.client, h)
                                         - Queued(s.shared.queue, h) + Queued(r.shared.queue, h)
    ensures forall h ::
              ClientHolds(s.clients[j], h) + WorkerHolds(s.worker, h) + Queued(s.shared.queue, h) <= Owners(s, h)
  {
    hide ClientHolds, AllHold, Queued, WorkerHolds;
    forall h
      ensures AllHold(s.clients[j := r.client], h) ==
              AllHold(s.clients, h) - ClientHolds(s.clients[j], h) + ClientHolds(r.client, h)
      ensures ClientHolds(s.clients[j], h) <= AllHold(s.clients, h)
    {
      AllAfter(s.clients, j, r.client, h);
    }
  }

  // ----- What a client's step does to the ledger

  lemma MoveKeeps(s: State, s': State)
    requires Ledger(s) && s'.shared.slots == s.shared.slots && s'.worker == s.worker
    requires forall h :: Owners(s', h) == Owners(s, h)
    ensures Ledger(s') && Untouched(s, s')
  {
    hide Owners, Queued;
    forall i | 0 <= i < POOL_SIZE ensures SlotCounted(s', i) {
      assert SlotCounted(s, i);
    }
  }

  lemma RetainKeeps(s: State, s': State, h: Handle, state: nat)
    requires Ledger(s) && StateOf(s.shared, h) == state && 1 <= state < MASK
    requires s'.shared == Exchange(s.shared, h, state + 1) && s'.worker == s.worker
    requires WorkerHolds(s.worker, h) + 1 <= Owners(s, h)
    requires forall x :: Owners(s', x) == Owners(s, x) + Eq(h, x)
    ensures Ledger(s') && Untouched(s, s')
  {
    hide Owners, Queued;
    assert SlotCounted(s, h.index);
    forall i | 0 <= i < POOL_SIZE ensures SlotCounted(s', i) {
      assert SlotCounted(s, i);
    }
  }

  lemma ReleaseKeeps(s: State, s': State, h: Handle, state: nat)
    requires Ledger(s) && StateOf(s.shared, h) == state && 1 <= state <= MASK
    requires s'.shared == Exchange(s.shared, h, Dropped(state)) && s'.worker == s.worker
    requires WorkerHolds(s.worker, h) + 1 <= Owners(s, h)
    requires forall x :: Owners(s', x) == Owners(s, x) - Eq(h, x)
    ensures Ledger(s') && Untouched(s, s')
  {
    hide Owners, Queued;
    assert SlotCounted(s, h.index);
    assert References(state) == state;
    forall i | 0 <= i < POOL_SIZE ensures SlotCounted(s', i) {
      assert SlotCounted(s, i);
    }
  }

  // A client's own handle passes every check: it matches, counts, and is not being filled.
  lemma OwnedPasses(s: State, j: nat, h: Handle)
    requires Ledger(s) && j < |s.clients| && ClientHolds(s.clients[j], h) + Queued(s.shared.queue, h) > 0
    ensures Matches(s.shared, h) && !IsMarked(s.shared, h) && !Writes(s.worker, h)
    ensures 1 <= StateOf(s.shared, h) == Owners(s, h) <= MASK && Releasable(StateOf(s.shared, h))
    ensures References(StateOf(s.shared, h)) == StateOf(s.shared, h)
  {
    hide Owners, Queued, ClientHolds, AllHold;
    AfterCounts(s, j, ClientOutcome(s.shared, s.clients[j], false));
    assert Owners(s, h) > 0;
    assert SlotCounted(s, h.index);
  }

  // ----- Handles with one owner

  lemma {:induction false} BothHold(clients: seq<Client>, i: nat, j: nat, h: Handle)
    requires i < |clients| && j < |clients| && i != j
    ensures ClientHolds(clients[i], h) + ClientHolds(clients[j], h) <= AllHold(clients, h)
    decreases i
  {
    hide ClientHolds;
    if j == 0 {
      AllAfter(clients[1..], i - 1, clients[i], h);
    } else if i == 0 {
      AllAfter(clients[1..], j - 1, clients[j], h);
    } else {
      BothHold(clients[1..], i - 1, j - 1, h);
    }
  }

  // A step that gives nobody a handle of somebody else's leaves single owners single.
  lemma SoleStays(s: State, s': State, j: nat)
    requires Sole(s) && j < |s.clients| && |s'.clients| == |s.clients| && s'.worker == s.worker
    requires forall i :: 0 <= i < |s.clients| && i != j ==> s'.clients[i] == s.clients[i]
    requires forall h :: Queued(s'.shared.queue, h) <= Queued(s.shared.queue, h)
    requires forall h :: ClientHolds(s.clients[j], h) + Queued(s.shared.queue, h) <= Owners(s, h)
    requires forall h :: ClientHolds(s.clients[j], h) == 0 ==> Owners(s', h) == Owners(s, h)
    requires forall h :: Queued(s'.shared.queue, h) < Queued(s.shared.queue, h) ==> Owners(s', h) == Owners(s, h)
    requires Unshared(s'.clients[j]) ==> Owners(s', s'.clients[j].event) == 1
    ensures Sole(s')
  {
    hide Queued, ClientHolds, AllHold;
    forall h | Queued(s'.shared.queue, h) > 0 ensures Owners(s', h) == 1 {
      assert Queued(s.shared.queue, h) > 0;
    }
    forall i | 0 <= i < |s'.clients| && Unshared(s'.clients[i]) && i != j ensures Owners(s', s'.clients[i].event) == 1 {
      var event := s.clients[i].event;
      BothHold(s.clients, i, j, event);
      UnsharedHolds(s.clients[i]);
    }
  }

  lemma UnsharedHolds(k: Client)
    requires Unshared(k)
    ensures ClientHolds(k, k.event) >= 1
  {
  }

  ghost predicate ClientKeeps(s: State, j: nat, r: ClientOutcome)
    requires j < |s.clients|
  {
    var s' := ClientAfter(s, j, r);
    !r.refused && ClientGood(r.client) && Ledger(s') && Sole(s') && Untouched(s, s')
  }

  ghost predicate ClientReady(s: State, j: nat) {
    j < |s.clients| && Ledger(s) && Sole(s) && ClientGood(s.clients[j])
  }

  lemma ClientMoves(s: State, j: nat, k: Client)
    requires ClientReady(s, j) && ClientGood(k)
    requires forall h :: ClientHolds(k, h) == ClientHolds(s.clients[j], h)
    requires Unshared(k) ==> Unshared(s.clients[j]) && k.event == s.clients[j].event
    ensures ClientKeeps(s, j, ClientOutcome(s.shared, k, false))
  {
    hide Ledger, Untouched, ClientHolds, Owners, Queued, ClientGood, AllHold, Sole;
    var r := ClientOutcome(s.shared, k, false);
    AfterCounts(s, j, r);
    MoveKeeps(s, ClientAfter(s, j, r));
    if Unshared(k) {
      EventIsSole(s, j);
      assert Owners(ClientAfter(s, j, r), k.event) == Owners(s, k.event) == 1;
    }
    SoleStays(s, ClientAfter(s, j, r), j);
  }

  lemma ClientReceives(s: State, j: nat)
    requires ClientReady(s, j) && s.clients[j].Resting? && s.shared.queue != []
    ensures ClientKeeps(s, j, ClientOutcome(s.shared.(queue := s.shared.queue[1..]),
                                            Handling(s.shared.queue[0], s.clients[j].directory, Generation), false))
  {
    hide Ledger, Untouched, Owners, AllHold, Sole;
    var r := ClientOutcome(s.shared.(queue := s.shared.queue[1..]),
                           Handling(s.shared.queue[0], s.clients[j].directory, Generation), false);
    AfterCounts(s, j, r);
    MoveKeeps(s, ClientAfter(s, j, r));
    QueuedIsSole(s, s.shared.queue[0]);
    SoleStays(s, ClientAfter(s, j, r), j);
  }

  lemma QueuedIsSole(s: State, h: Handle)
    requires Sole(s) && Queued(s.shared.queue, h) > 0
    ensures Owners(s, h) == 1
  {
    hide Owners, Queued;
  }

  // A release by a client on a handle that it holds beside its unretained event, if any.
  lemma ClientReleases(s: State, j: nat, h: Handle, call: Call, c: Choice, done: Client, failed: Client)
    requires ClientReady(s, j) && ReleaseGood(call) && ClientGood(done) && (!call.Generation? ==> IsValid(h))
    requires var k := s.clients[j]; !k.Resting? && !k.Deciding? && !Unshared(k)
    requires forall x :: ClientHolds(s.clients[j], x) >= Opt(h, x)
    requires forall x :: ClientHolds(done, x) == ClientHolds(s.clients[j], x) - Opt(h, x)
    requires forall again :: ReleaseGood(again) && (!again.Generation? ==> IsValid(h)) ==>
               ClientGood(At(s.clients[j], again)) &&
               forall x :: ClientHolds(At(s.clients[j], again), x) == ClientHolds(s.clients[j], x)
    requires !Unshared(done)
    ensures ClientKeeps(s, j, After(ReleaseStep(s.shared, h, call, c.spurious), s.clients[j], done, failed))
  {
    hide Ledger, Untouched, ClientHolds, Owners, Queued, ClientGood, Releasable, Dropped, AllHold, Sole;
    var k := s.clients[j];
    if !IsValid(h) {
      ClientMoves(s, j, done);
    } else {
      assert ClientHolds(k, h) >= Opt(h, h);
      OwnedPasses(s, j, h);
      if call.Swap? && !c.spurious && StateOf(s.shared, h) == call.state {
        var r := ClientOutcome(Exchange(s.shared, h, Dropped(call.state)), done, false);
        AfterCounts(s, j, r);
        ReleaseKeeps(s, ClientAfter(s, j, r), h, call.state);
        SoleStays(s, ClientAfter(s, j, r), j);
      } else {
        var again := if call.Generation? then Count else Swap(StateOf(s.shared, h));
        assert ReleaseGood(again);
        ClientMoves(s, j, At(k, again));
      }
    }
  }

  // The event has one owner, so its count is far from full.
  lemma ClientRetains(s: State, j: nat, c: Choice)
    requires ClientReady(s, j) && s.clients[j].Retaining?
    ensures ClientKeeps(s, j, ClientStep(s.shared, s.clients[j], c))
  {
    hide Ledger, Untouched, Owners, Queued, AllHold, Sole;
    var k := s.clients[j];
    OwnedPasses(s, j, k.event);
    EventIsSole(s, j);
    assert Retainable(StateOf(s.shared, k.event));
    if k.call.Swap? && !c.spurious && StateOf(s.shared, k.event) == k.call.state {
      var retained := Exchange(s.shared, k.event, k.call.state + 1);
      var r := ClientOutcome(retained, Replacing(k.event, k.directory, Generation), false);
      AfterCounts(s, j, r);
      RetainKeeps(s, ClientAfter(s, j, r), k.event, k.call.state);
      SoleStays(s, ClientAfter(s, j, r), j);
    } else {
      var again := if k.call.Generation? then FillMark
                   else if k.call.FillMark? then Count
                   else Swap(StateOf(s.shared, k.event));
      ClientMoves(s, j, At(k, again));
    }
  }

  lemma EventIsSole(s: State, j: nat)
    requires Sole(s) && j < |s.clients| && Unshared(s.clients[j])
    ensures Owners(s, s.clients[j].event) == 1
  {
    hide Owners, Queued;
  }

  lemma ClientResolves(s: State, j: nat, c: Choice)
    requires ClientReady(s, j) && s.clients[j].Handling?
    ensures ClientKeeps(s, j, ClientStep(s.shared, s.clients[j], c))
  {
    hide Ledger, Untouched, Owners, Queued, AllHold, Sole, ClientKeeps;
    var k := s.clients[j];
    OwnedPasses(s, j, k.event);
    ClientMoves(s, j, ClientStep(s.shared, k, c).client);
  }

  lemma ClientStepKeeps(s: State, j: nat, c: Choice)
    requires ClientReady(s, j)
    ensures ClientKeeps(s, j, ClientStep(s.shared, s.clients[j], c))
  {
    hide Ledger, Sole, ClientKeeps, Owners, Queued, ReleaseStep, RetainStep, ResolveStep;
    var k := s.clients[j];
    match k {
      case Resting(directory) =>
        if s.shared.queue != [] && c.keep {
          ClientReceives(s, j);
        } else {
          ClientMoves(s, j, if c.drop then Leaving(directory, Generation) else k);
        }
      case Handling(_, _, _) => ClientResolves(s, j, c);
      case Deciding(event, directory) => ClientMoves(s, j, ClientStep(s.shared, k, c).client);
      case Retaining(_, _, _) => ClientRetains(s, j, c);
      case Replacing(event, directory, call) =>
        OwnedPasses(s, j, event);
        var done := Releasing(event, event, Generation);
        ClientReleases(s, j, directory, call, c, done, done);
      case Closing(event, directory, call) =>
        var done := Releasing(event, INVALID, Generation);
        ClientReleases(s, j, directory, call, c, done, done);
      case Releasing(event, directory, call) =>
        OwnedPasses(s, j, event);
        ClientReleases(s, j, event, call, c, Resting(directory), Resting(directory));
      case Leaving(directory, call) =>
        ClientReleases(s, j, directory, call, c, Resting(INVALID), Resting(INVALID));
    }
  }

  // ----- What the worker's step does to the ledger

  function WorkerAfter(s: State, r: WorkerOutcome): State { State(r.shared, r.worker, s.clients) }

  ghost predicate WorkerKeeps(s: State, r: WorkerOutcome) {
    var s' := WorkerAfter(s, r);
    !r.refused && Ledger(s') && Untouched(s, s') && Sole(s')
  }

  // A slot without a count has no owner.
  lemma NoCountNoOwner(s: State, i: nat)
    requires Ledger(s) && i < POOL_SIZE && (s.shared.slots[i].state == 0 || s.shared.slots[i].state == CLEANUP)
    ensures Unowned(s, i)
  {
    hide Owners;
    assert SlotCounted(s, i);
  }

  // The worker holds what it held before and the queue is as it was: single owners stay.
  lemma SameHolds(s: State, s': State)
    requires s'.clients == s.clients && s'.shared.queue == s.shared.queue
    requires forall h :: WorkerHolds(s'.worker, h) == WorkerHolds(s.worker, h)
    ensures forall h :: Owners(s', h) == Owners(s, h)
    ensures Sole(s) ==> Sole(s')
  {
    hide AllHold, Queued, WorkerHolds;
  }

  // The worker only looks around.
  lemma WorkerLooks(s: State, w: Worker)
    requires Ledger(s) && Sole(s) && !s.worker.Finished?
    requires forall h :: WorkerHolds(w, h) == WorkerHolds(s.worker, h)
    requires forall h :: Writes(w, h) <==> Writes(s.worker, h)
    requires WorkerGood(State(s.shared, w, s.clients))
    ensures WorkerKeeps(s, WorkerOutcome(s.shared, w, false))
  {
    hide AllHold, Queued, Owners, Sole, WorkerHolds, Writes;
    var s' := State(s.shared, w, s.clients);
    SameHolds(s, s');
    forall i | 0 <= i < POOL_SIZE ensures SlotCounted(s', i) {
      assert SlotCounted(s, i);
    }
  }

  lemma WorkerScans(s: State, c: Choice)
    requires Ledger(s) && Sole(s) && (s.worker.Ready? || s.worker.Scanning?)
    ensures WorkerKeeps(s, WorkerStep(s.shared, s.worker, c))
  {
    hide AllHold, Queued, Owners, Sole, WorkerKeeps;
    var w := WorkerStep(s.shared, s.worker, c).worker;
    if Claims(w) {
      NoCountNoOwner(s, w.i);
    }
    SameHolds(s, State(s.shared, w, s.clients));
    WorkerLooks(s, w);
  }

  // The worker changes a slot nobody owns, and may come to own it.
  lemma UnownedChanges(s: State, s': State, i: nat, slot: Slot)
    requires Ledger(s) && i < POOL_SIZE && Unowned(s, i) && Claims(s.worker) && s.worker.i == i
    requires s'.shared == s.shared.(slots := s.shared.slots[i := slot])
    requires forall h :: Owners(s', h) == Owners(s, h) + WorkerHolds(s'.worker, h)
    requires forall h :: WorkerHolds(s'.worker, h) > 0 ==>
              slot.state == 1 && h == Handle(i, slot.generation) && IsValid(h)
    requires WorkerHolds(s'.worker, Handle(i, slot.generation)) == 0 ==> slot.state == 0 || slot.state == CLEANUP
    requires forall h :: Writes(s'.worker, h) ==> h.index == i
    requires slot.filling <==> Writes(s'.worker, Handle(i, slot.generation))
    requires WorkerGood(s')
    ensures Ledger(s') && Untouched(s, s')
  {
    hide Owners, WorkerGood, Queued;
    forall k | 0 <= k < POOL_SIZE ensures SlotCounted(s', k) {
      assert SlotCounted(s, k);
    }
  }

  lemma WorkerClaims(s: State, c: Choice)
    requires Ledger(s) && Sole(s) && Claims(s.worker)
    ensures WorkerKeeps(s, WorkerStep(s.shared, s.worker, c))
  {
    hide AllHold, Queued, Sole, SlotCounted;
    var s' := WorkerAfter(s, WorkerStep(s.shared, s.worker, c));
    var i := s.worker.i;
    assert SlotCounted(s, i);
    ClaimMarks(s, i);
    assert forall h :: Owners(s', h) == Owners(s, h) + WorkerHolds(s'.worker, h);
    UnownedChanges(s, s', i, s'.shared.slots[i]);
    ClaimSole(s, s');
  }

  lemma ClaimMarks(s: State, i: nat)
    requires i < |s.shared.slots| && SlotCounted(s, i) && Claims(s.worker)
    ensures var slot, w := s.shared.slots[i], s.worker;
            slot.filling <==> w.Counting? && w.i == i && w.generation == slot.generation
  {
    hide Owners;
  }

  lemma ClaimSole(s: State, s': State)
    requires Ledger(s) && Sole(s) && Claims(s.worker) && s'.clients == s.clients && s'.shared.queue == s.shared.queue
    requires forall h :: Owners(s', h) == Owners(s, h) + WorkerHolds(s'.worker, h)
    requires forall h :: WorkerHolds(s'.worker, h) > 0 ==> Owners(s, h) == 0
    ensures Sole(s')
  {
    hide Owners, Queued, WorkerHolds, Ledger;
  }

  // The worker writes to its own slot, or opens it to others.
  lemma WorkerFills(s: State, c: Choice)
    requires Ledger(s) && Sole(s) && (s.worker.Filling? || s.worker.Ending?)
    ensures WorkerKeeps(s, WorkerStep(s.shared, s.worker, c))
  {
    hide AllHold, Sole, Queued;
    var h := s.worker.h;
    var s' := WorkerAfter(s, WorkerStep(s.shared, s.worker, c));
    assert Owners(s, h) > 0;
    assert SlotCounted(s, h.index);
    SameHolds(s, s');
    forall k | 0 <= k < POOL_SIZE ensures SlotCounted(s', k) {
      assert SlotCounted(s, k);
    }
  }

  // Its own handle passes the worker's checks.
  lemma WorkerChecks(s: State, c: Choice)
    requires Ledger(s) && Sole(s) && (s.worker.Opening? || s.worker.Finishing?)
    ensures WorkerKeeps(s, WorkerStep(s.shared, s.worker, c))
  {
    hide AllHold, Sole, Owners, Queued;
    var h := s.worker.h;
    assert Owners(s, h) == 1;
    assert SlotCounted(s, h.index);
    var w := WorkerStep(s.shared, s.worker, c).worker;
    SameHolds(s, State(s.shared, w, s.clients));
    WorkerLooks(s, w);
  }

  lemma {:induction false} QueuedMore(queue: seq<Handle>, sent: Handle, h: Handle)
    ensures Queued(queue + [sent], h) == Queued(queue, h) + Eq(sent, h)
  {
    if queue == [] {
      assert [sent][1..] == [];
    } else {
      QueuedMore(queue[1..], sent, h);
      assert (queue + [sent])[1..] == queue[1..] + [sent];
    }
  }

  lemma {:induction false} QueuedAt(queue: seq<Handle>, i: nat)
    requires i < |queue|
    ensures Queued(queue, queue[i]) >= 1
    ensures forall j :: i < j < |queue| && queue[j] == queue[i] ==> Queued(queue, queue[i]) >= 2
    decreases |queue|
  {
    if i > 0 {
      assert queue[1..][i - 1] == queue[i];
      QueuedAt(queue[1..], i - 1);
      forall j | i < j < |queue| && queue[j] == queue[i] ensures Queued(queue, queue[i]) >= 2 {
        assert queue[1..][j - 1] == queue[i];
      }
    } else {
      forall j | 0 < j < |queue| && queue[j] == queue[0] ensures Queued(queue, queue[0]) >= 2 {
        assert queue[1..][j - 1] == queue[0];
        QueuedAt(queue[1..], j - 1);
      }
    }
  }

  // Distinct slots: no more entries than slots.
  lemma DistinctBound(indices: seq<nat>, spare: nat)
    requires forall i :: 0 <= i < |indices| ==> indices[i] < POOL_SIZE && indices[i] != spare
    requires forall i, j :: 0 <= i < j < |indices| ==> indices[i] != indices[j]
    requires spare < POOL_SIZE
    ensures |indices| < POOL_SIZE
  {
    var all: set<nat> := {0, 1, 2, 3};
    var used := set i | 0 <= i < |indices| :: indices[i];
    ElementCount(indices);
    assert used <= all - {spare};
    Subset(used, all - {spare});
    assert |all - {spare}| == |all| - 1;
  }

  lemma Subset(a: set<nat>, b: set<nat>)
    requires a <= b
    ensures |a| <= |b|
  {
    assert b == a + (b - a);
  }

  lemma {:induction false} ElementCount(indices: seq<nat>)
    requires forall i, j :: 0 <= i < j < |indices| ==> indices[i] != indices[j]
    ensures |set i | 0 <= i < |indices| :: indices[i]| == |indices|
  {
    if indices != [] {
      var n := |indices| - 1;
      var front := indices[..n];
      ElementCount(front);
      var used := set i | 0 <= i < |front| :: front[i];
      assert indices[n] !in used;
      assert (set i | 0 <= i < |indices| :: indices[i]) == used + {indices[n]} by {
        forall x | x in used ensures x in (set i | 0 <= i < |indices| :: indices[i]) {
          var i :| 0 <= i < |front| && front[i] == x;
          assert indices[i] == x;
        }
        assert indices[n] in (set i | 0 <= i < |indices| :: indices[i]);
        forall x | x in (set i | 0 <= i < |indices| :: indices[i]) ensures x in used + {indices[n]} {
          var i :| 0 <= i < |indices| && indices[i] == x;
          if i < n {
            assert front[i] == x;
          }
        }
      }
    }
  }

  // When the worker comes to publish, the queue has room.
  lemma QueueHasRoom(s: State)
    requires Inv(s) && s.worker.Finished?
    ensures |s.shared.queue| < QUEUE_LENGTH
  {
    hide AllHold, Queued, SlotCounted;
    var queue := s.shared.queue;
    var own := s.worker.h;
    assert Owners(s, own) == 1;
    var indices := seq(|queue|, i requires 0 <= i < |queue| => queue[i].index);
    forall i | 0 <= i < |queue| ensures indices[i] < POOL_SIZE && indices[i] != own.index {
      QueuedAt(queue, i);
      assert Owners(s, queue[i]) == 1;
    }
    forall i, j | 0 <= i < j < |queue| ensures indices[i] != indices[j] {
      QueuedAt(queue, i);
      assert Owners(s, queue[i]) == 1;
      QueuedAt(queue, j);
      assert Owners(s, queue[j]) == 1;
    }
    DistinctBound(indices, own.index);
  }

  lemma WorkerPublishes(s: State, c: Choice)
    requires Inv(s) && s.worker.Finished?
    ensures WorkerKeeps(s, WorkerStep(s.shared, s.worker, c))
  {
    hide AllHold, Queued, Sole;
    QueueHasRoom(s);
    var s' := WorkerAfter(s, WorkerStep(s.shared, s.worker, c));
    forall h ensures Queued(s'.shared.queue, h) == Queued(s.shared.queue, h) + Eq(s.worker.h, h) {
      QueuedMore(s.shared.queue, s.worker.h, h);
    }
    assert forall h :: Owners(s', h) == Owners(s, h);
    PublishKeeps(s, s');
  }

  lemma PublishKeeps(s: State, s': State)
    requires Ledger(s) && Sole(s) && s.worker.Finished? && s'.worker.Ready? && s'.shared.slots == s.shared.slots
    requires s'.clients == s.clients && forall h :: Owners(s', h) == Owners(s, h)
    requires forall h :: Queued(s'.shared.queue, h) == Queued(s.shared.queue, h) + Eq(s.worker.h, h)
    ensures Ledger(s') && Untouched(s, s') && Sole(s')
  {
    hide Owners, Queued;
    forall i | 0 <= i < POOL_SIZE ensures SlotCounted(s', i) {
      assert SlotCounted(s, i);
    }
  }

  // The worker lets go of a result it could not publish.
  lemma WorkerGives(s: State, c: Choice)
    requires Ledger(s) && Sole(s) && s.worker.Giving?
    ensures WorkerKeeps(s, WorkerStep(s.shared, s.worker, c))
  {
    hide AllHold, Queued, Sole, Unshared;
    var h := s.worker.h;
    var s' := WorkerAfter(s, WorkerStep(s.shared, s.worker, c));
    assert Owners(s, h) > 0;
    assert SlotCounted(s, h.index);
    assert forall x :: Owners(s', x) == Owners(s, x) - Eq(h, x) + WorkerHolds(s'.worker, x);
    forall k | 0 <= k < POOL_SIZE ensures SlotCounted(s', k) {
      assert SlotCounted(s, k);
    }
    GiveSole(s, s');
  }

  lemma GiveSole(s: State, s': State)
    requires Sole(s) && s.worker.Giving? && s'.clients == s.clients && s'.shared.queue == s.shared.queue
    requires forall h :: WorkerHolds(s'.worker, h) <= WorkerHolds(s.worker, h)
    ensures Sole(s')
  {
    hide AllHold, Queued, WorkerHolds;
    forall h | Queued(s'.shared.queue, h) > 0 ensures Owners(s', h) == 1 {
      assert Owners(s, h) == 1;
    }
    forall j | 0 <= j < |s.clients| && Unshared(s.clients[j]) ensures Owners(s', s.clients[j].event) == 1 {
      AfterCounts(s, j, ClientOutcome(s.shared, s.clients[j], false));
      UnsharedHolds(s.clients[j]);
    }
  }

  lemma WorkerStepKeeps(s: State, c: Choice)
    requires Inv(s)
    ensures WorkerKeeps(s, WorkerStep(s.shared, s.worker, c))
  {
    hide WorkerKeeps, Owners, Queued, SlotCounted, WorkerGood, WorkerStep, Sole;
    var w := s.worker;
    if w.Ready? || w.Scanning? {
      WorkerScans(s, c);
    } else if Claims(w) {
      WorkerClaims(s, c);
    } else if w.Opening? || w.Finishing? {
      WorkerChecks(s, c);
    } else if w.Filling? || w.Ending? {
      WorkerFills(s, c);
    } else if w.Finished? {
      WorkerPublishes(s, c);
    } else {
      WorkerGives(s, c);
    }
  }

  // ----- Whole runs

  datatype Turn = WorkerTurn(choice: Choice) | ClientTurn(client: nat, choice: Choice)

  function Step(s: State, t: Turn): State
    requires |s.shared.slots| == POOL_SIZE
  {
    match t
    case WorkerTurn(c) => WorkerAfter(s, WorkerStep(s.shared, s.worker, c))
    case ClientTurn(j, c) => if j < |s.clients| then ClientAfter(s, j, ClientStep(s.shared, s.clients[j], c)) else s
  }

  // The turn ends a call with a refusal: of a resolve, retain or release by a reader, of a
  // check or the sending of its own result by the worker.
  predicate Refuses(s: State, t: Turn)
    requires |s.shared.slots| == POOL_SIZE
  {
    match t
    case WorkerTurn(c) => WorkerStep(s.shared, s.worker, c).refused
    case ClientTurn(j, c) => j < |s.clients| && ClientStep(s.shared, s.clients[j], c).refused
  }

  lemma StepInv(s: State, t: Turn)
    requires Inv(s)
    ensures Inv(Step(s, t)) && Untouched(s, Step(s, t)) && !Refuses(s, t)
  {
    hide Ledger, Untouched, WorkerStep, ClientStep, ClientGood, Sole;
    SlotsThere(s);
    match t {
      case WorkerTurn(c) => WorkerStepKeeps(s, c);
      case ClientTurn(j, c) =>
        if j < |s.clients| {
          ClientStepKeeps(s, j, c);
        } else {
          NothingChanges(s);
        }
    }
  }

  lemma SlotsThere(s: State)
    requires Ledger(s)
    ensures |s.shared.slots| == POOL_SIZE
  {
  }

  lemma NothingChanges(s: State)
    requires Ledger(s)
    ensures Untouched(s, s)
  {
    hide Owners, SlotCounted;
  }

  function Run(s: State, turns: seq<Turn>): (r: State)
    requires Inv(s)
    ensures Inv(r) && |r.clients| == |s.clients|
    decreases |turns|
  {
    if turns == [] then s
    else
      StepInv(s, turns[0]);
      Run(Step(s, turns[0]), turns[1..])
  }

  ghost predicate Initial(s: State) {
    && |s.shared.slots| == POOL_SIZE && s.shared.queue == [] && s.worker == Ready
    && (forall i :: 0 <= i < POOL_SIZE ==> s.shared.slots[i] == Slot(0, 0, false, 0))
    && (forall j :: 0 <= j < |s.clients| ==> s.clients[j] == Resting(INVALID))
  }

  lemma {:induction false} NoneHold(clients: seq<Client>, h: Handle)
    requires forall j :: 0 <= j < |clients| ==> clients[j] == Resting(INVALID)
    ensures AllHold(clients, h) == 0
  {
    if clients != [] {
      NoneHold(clients[1..], h);
    }
  }

  lemma InitialInv(s: State)
    requires Initial(s)
    ensures Inv(s)
  {
    forall h ensures AllHold(s.clients, h) == 0 && Queued(s.shared.queue, h) == 0 {
      NoneHold(s.clients, h);
    }
  }

  // ----- The results

  // A slot's count is the number of its owners: the worker, the queue, and what the clients
  // hold; a slot that acquire_result_slot() may take has none.
  lemma OwnersAreCounted(start: State, turns: seq<Turn>, i: nat)
    requires Initial(start) && i < POOL_SIZE
    ensures Inv(start)
    ensures var s := Run(start, turns); var slot := s.shared.slots[i]; var n := Owners(s, Handle(i, slot.generation));
            && (n > 0 ==> slot.state == n)
            && (slot.state == 0 || slot.state == CLEANUP <==> Unowned(s, i))
  {
    hide Owners, Run;
    InitialInv(start);
    var s := Run(start, turns);
    var slot := s.shared.slots[i];
    assert SlotCounted(s, i);
    if slot.state == 0 || slot.state == CLEANUP {
      NoCountNoOwner(s, i);
    } else {
      assert Owners(s, Handle(i, slot.generation)) > 0;
    }
  }

  // The result queue is never full when a result is published, and no call on a result of
  // one's own is refused: what a reader retains is its alone, so the count cannot be full.
  lemma NothingIsRefused(start: State, turns: seq<Turn>, t: Turn)
    requires Initial(start)
    ensures Inv(start)
    ensures var s := Run(start, turns);
            !Refuses(s, t) && (s.worker.Finished? ==> |s.shared.queue| < QUEUE_LENGTH)
  {
    hide Run, Refuses, Ledger, Sole;
    InitialInv(start);
    var s := Run(start, turns);
    StepInv(s, t);
    if s.worker.Finished? {
      QueueHasRoom(s);
    }
  }

  // A client holds the result all along these turns.
  ghost predicate HoldsOn(s: State, turns: seq<Turn>, j: nat, h: Handle)
    requires Inv(s)
    decreases |turns|
  {
    && j < |s.clients| && ClientHolds(s.clients[j], h) > 0
    && (turns == [] || (assert Inv(Step(s, turns[0])) by { StepInv(s, turns[0]); }
                        HoldsOn(Step(s, turns[0]), turns[1..], j, h)))
  }

  // For as long as a client holds a result, as the event it handles, retains and releases or
  // as the directory it keeps, the result stays the same, whatever anyone does in between.
  lemma {:induction false} HeldResultStays(s: State, turns: seq<Turn>, j: nat, h: Handle)
    requires Inv(s) && HoldsOn(s, turns, j, h)
    ensures |s.shared.slots| == POOL_SIZE
    ensures var r := Run(s, turns);
            && IsValid(h) && h.index < POOL_SIZE
            && r.shared.slots[h.index].result == s.shared.slots[h.index].result
            && r.shared.slots[h.index].generation == h.generation && !r.shared.slots[h.index].filling
    decreases |turns|
  {
    hide WorkerStep, ClientStep, Owners, Ledger, Queued, ClientHolds, Sole;
    HeldIsUntouched(s, j, h);
    if turns != [] {
      StepInv(s, turns[0]);
      HeldResultStays(Step(s, turns[0]), turns[1..], j, h);
    }
  }

  lemma HeldIsUntouched(s: State, j: nat, h: Handle)
    requires Ledger(s) && j < |s.clients| && ClientHolds(s.clients[j], h) > 0
    ensures |s.shared.slots| == POOL_SIZE && Owners(s, h) > 0 && Matches(s.shared, h) && !Writes(s.worker, h)
    ensures !s.shared.slots[h.index].filling
  {
    hide Owners, Queued, AllHold, Ledger;
    SlotsThere(s);
    OwnedPasses(s, j, h);
    AfterCounts(s, j, ClientOutcome(s.shared, s.clients[j], false));
  }

  // The client is dispatching this event.
  predicate Dispatches(k: Client, event: Handle) { !k.Resting? && !k.Leaving? && k.event == event }

  // A client holds the event it dispatches until the exchange of the dispatcher's release
  // brings it to rest.
  lemma DispatchGoesOn(s: Shared, k: Client, c: Choice, event: Handle)
    requires Dispatches(k, event)
    ensures ClientHolds(k, event) > 0
    ensures var k' := ClientStep(s, k, c).client; Dispatches(k', event) || (k.Releasing? && k'.Resting?)
  {
  }

  // From a state where a client dispatches an event, for any turns of anybody until that
  // client is at rest again, it goes on dispatching the event, its own retain and the release
  // of its old directory included, and the event's result stays the same.
  lemma {:induction false} EventSeesOneResult(s: State, turns: seq<Turn>, j: nat, event: Handle)
    requires Inv(s) && j < |s.clients| && Dispatches(s.clients[j], event)
    requires forall n :: 0 <= n <= |turns| ==> !Run(s, turns[..n]).clients[j].Resting?
    ensures |s.shared.slots| == POOL_SIZE
    ensures var r := Run(s, turns);
            && Dispatches(r.clients[j], event) && IsValid(event) && event.index < POOL_SIZE
            && r.shared.slots[event.index].result == s.shared.slots[event.index].result
            && r.shared.slots[event.index].generation == event.generation && !r.shared.slots[event.index].filling
    decreases |turns|
  {
    hide WorkerStep, ClientStep, Owners, Ledger, Queued, ClientHolds, Sole, Dispatches;
    DispatchGoesOn(s.shared, s.clients[j], Choice(false, 0, false, false, false, false), event);
    HeldIsUntouched(s, j, event);
    if turns != [] {
      var next := Step(s, turns[0]);
      StepInv(s, turns[0]);
      forall n | 0 <= n < |turns| ensures Run(next, turns[1..][..n]) == Run(s, turns[..n + 1]) {
        assert turns[..n + 1][0] == turns[0] && turns[..n + 1][1..] == turns[1..][..n];
      }
      assert Run(next, turns[1..][..0]) == next;
      StepDispatches(s, turns[0], j, event);
      EventSeesOneResult(next, turns[1..], j, event);
    }
  }

  lemma StepDispatches(s: State, t: Turn, j: nat, event: Handle)
    requires Inv(s) && j < |s.clients| && Dispatches(s.clients[j], event)
    ensures |s.shared.slots| == POOL_SIZE && |Step(s, t).clients| == |s.clients|
    ensures Dispatches(Step(s, t).clients[j], event) || Step(s, t).clients[j].Resting?
  {
    hide WorkerStep, ClientStep, Owners, Ledger, Queued, ClientHolds, Sole, Dispatches;
    SlotsThere(s);
    if t.ClientTurn? && t.client == j {
      DispatchGoesOn(s.shared, s.clients[j], t.choice, event);
    }
  }

  // ----- Results pass through in order

  // Whatever step is taken, the queue loses its oldest result to a client that starts to
  // dispatch it, or gains behind its newest the one the worker has finished, or stays.
  lemma QueueMoves(s: State, t: Turn)
    requires Inv(s)
    ensures |s.shared.slots| == POOL_SIZE
    ensures var queue, s' := s.shared.queue, Step(s, t);
            || s'.shared.queue == queue
            || (s.worker.Finished? && t.WorkerTurn? && s'.worker.Ready? && s'.shared.queue == queue + [s.worker.h])
            || (t.ClientTurn? && t.client < |s.clients| && queue != [] && s'.shared.queue == queue[1..] &&
                s.clients[t.client].Resting? && s'.clients[t.client].Handling? &&
                s'.clients[t.client].event == queue[0])
  {
    hide Ledger, Sole;
    SlotsThere(s);
  }

  // ----- What the worker and a client do by themselves

  function Alone(t: Turn, n: nat): seq<Turn> { if n == 0 then [] else [t] + Alone(t, n - 1) }

  lemma AloneMore(s: State, t: Turn, n: nat)
    requires Inv(s)
    ensures |s.shared.slots| == POOL_SIZE && Inv(Step(s, t)) && !Refuses(s, t)
    ensures Run(s, Alone(t, n + 1)) == Run(Step(s, t), Alone(t, n))
  {
    hide Inv, Step, Refuses;
    StepInv(s, t);
    SlotsOfInv(s);
    assert Alone(t, n + 1)[1..] == Alone(t, n);
  }

  lemma SlotsOfInv(s: State)
    requires Inv(s)
    ensures |s.shared.slots| == POOL_SIZE
  {
    hide Sole;
    SlotsThere(s);
  }

  // A slot that may be taken, from where the worker looks on.
  ghost predicate FreeAhead(s: Shared, w: Worker)
    requires |s.slots| == POOL_SIZE
  {
    match w
    case Ready => exists k :: 0 <= k < POOL_SIZE && MayTake(s.slots[k])
    case Scanning(i) => exists k :: i <= k < POOL_SIZE && MayTake(s.slots[k])
    case Finishing(_, _) => false
    case Ending(_) => false
    case Finished(_) => false
    case Giving(_, _) => false
    case _ => true
  }

  predicate MayTake(slot: Slot) { slot.state == 0 || slot.state == CLEANUP }

  // How far the worker is from filling a slot.
  function Left(w: Worker): nat {
    match w
    case Ready => 100
    case Scanning(i) => 20 + (if i < POOL_SIZE then 10 * (POOL_SIZE - i) else 0)
    case Emptying(_) => 16
    case Unmarking(_) => 15
    case Clearing(_) => 14
    case Testing(_) => 13
    case Numbering(_) => 12
    case Naming(_, _) => 11
    case Renewing(_, _) => 10
    case Marking(_, _) => 9
    case Counting(_, _) => 8
    case Opening(_, call) => if call.Generation? then 2 else 1
    case _ => 0
  }

  // A slot that has been renewed is blank.
  predicate Blank(s: Shared, w: Worker)
    requires |s.slots| == POOL_SIZE
  {
    match w
    case Marking(i, _) => i < POOL_SIZE && s.slots[i].result == 0
    case Counting(i, _) => i < POOL_SIZE && s.slots[i].result == 0
    case Opening(h, _) => h.index < POOL_SIZE && s.slots[h.index].result == 0
    case Filling(h) => h.index < POOL_SIZE && s.slots[h.index].result == 0
    case _ => true
  }

  lemma WorkerAdvances(s: State, c: Choice)
    requires Inv(s) && |s.shared.slots| == POOL_SIZE && c.locked && FreeAhead(s.shared, s.worker) && !s.worker.Filling?
    requires Blank(s.shared, s.worker)
    requires !WorkerStep(s.shared, s.worker, c).refused
    ensures var r := WorkerStep(s.shared, s.worker, c);
            && |r.shared.slots| == POOL_SIZE && FreeAhead(r.shared, r.worker) && Left(r.worker) < Left(s.worker)
            && r.shared.queue == s.shared.queue && Blank(r.shared, r.worker)
  {
    hide Sole, AllHold, Queued, Owners;
    if s.worker.Testing? {
      assert SlotCounted(s, s.worker.i);
    }
  }

  // If some slot may be taken, the worker finds one and comes to fill it, blank.
  lemma {:induction false} WorkerClaimsOne(s: State, c: Choice) returns (n: nat)
    requires Inv(s) && c.locked
    requires |s.shared.slots| == POOL_SIZE && FreeAhead(s.shared, s.worker) && Blank(s.shared, s.worker)
    ensures var r := Run(s, Alone(WorkerTurn(c), n));
            && r.worker.Filling? && r.shared.queue == s.shared.queue
            && r.worker.h.index < POOL_SIZE == |r.shared.slots| && r.shared.slots[r.worker.h.index].result == 0
    decreases Left(s.worker)
  {
    hide Inv, WorkerStep, FreeAhead, Blank;
    if s.worker.Filling? {
      BlankFilled(s.shared, s.worker);
      n := 0;
    } else {
      AloneMore(s, WorkerTurn(c), 0);
      WorkerAdvances(s, c);
      n := WorkerClaimsOne(Step(s, WorkerTurn(c)), c);
      AloneMore(s, WorkerTurn(c), n);
      n := n + 1;
    }
  }

  lemma BlankFilled(s: Shared, w: Worker)
    requires |s.slots| == POOL_SIZE && w.Filling? && Blank(s, w)
    ensures w.h.index < POOL_SIZE && s.slots[w.h.index].result == 0
  {
  }

  predicate Delivers(w: Worker) { w.Filling? || w.Finishing? || w.Ending? || w.Finished? }

  function LeftToDeliver(w: Worker): nat {
    match w
    case Filling(_) => 9
    case Finishing(_, Generation) => 8
    case Finishing(_, Count) => 7
    case Finishing(_, _) => 6
    case Ending(_) => 5
    case Finished(_) => 4
    case _ => 0
  }

  lemma WorkerFinishes(s: State, c: Choice)
    requires Inv(s) && |s.shared.slots| == POOL_SIZE && !c.write && Delivers(s.worker)
    requires !WorkerStep(s.shared, s.worker, c).refused
    ensures var r, h := WorkerStep(s.shared, s.worker, c), s.worker.h;
            && h.index < POOL_SIZE == |r.shared.slots|
            && r.shared.slots[h.index].result == s.shared.slots[h.index].result
            && if s.worker.Finished? then r.worker == Ready && r.shared.queue == s.shared.queue + [h]
               else Delivers(r.worker) && r.worker.h == h && r.shared.queue == s.shared.queue &&
                    LeftToDeliver(r.worker) < LeftToDeliver(s.worker)
  {
    hide Sole, AllHold, Queued, SlotCounted;
    assert Owners(s, s.worker.h) > 0;
  }

  // What it has filled in, it then puts into the queue behind all others.
  lemma {:induction false} WorkerDelivers(s: State, c: Choice) returns (n: nat)
    requires Inv(s) && !c.write && Delivers(s.worker)
    ensures |s.shared.slots| == POOL_SIZE
    ensures var r, h := Run(s, Alone(WorkerTurn(c), n)), s.worker.h;
            && h.index < POOL_SIZE == |r.shared.slots| && r.worker == Ready && r.shared.queue == s.shared.queue + [h]
            && r.shared.slots[h.index].result == s.shared.slots[h.index].result
    decreases LeftToDeliver(s.worker)
  {
    hide Inv, WorkerStep;
    AloneMore(s, WorkerTurn(c), 0);
    WorkerFinishes(s, c);
    if s.worker.Finished? {
      n := 1;
      assert Alone(WorkerTurn(c), 0) == [];
    } else {
      n := WorkerDelivers(Step(s, WorkerTurn(c)), c);
      AloneMore(s, WorkerTurn(c), n);
      n := n + 1;
    }
  }

  // The directory a client has once it has dealt with an event.
  function KeptBy(k: Client, c: Choice): Handle {
    match k
    case Handling(event, directory, _) => if c.keep then event else if c.drop then INVALID else directory
    case Deciding(event, directory) => if c.keep then event else if c.drop then INVALID else directory
    case Retaining(event, _, _) => event
    case Replacing(event, _, _) => event
    case Closing(_, _, _) => INVALID
    case Releasing(_, directory, _) => directory
    case Resting(directory) => directory
    case Leaving(_, _) => INVALID
  }

  function CallLeft(call: Call): nat {
    match call
    case Generation => 4
    case FillMark => 3
    case Count => 3
    case Swap(_) => 1
  }

  function ClientLeft(k: Client): nat {
    match k
    case Handling(_, _, call) => 60 + (if call.FillMark? then 2 else CallLeft(call))
    case Deciding(_, _) => 50
    case Retaining(_, _, call) => 40 + (if call.Count? then 2 else CallLeft(call))
    case Replacing(_, _, call) => 30 + CallLeft(call)
    case Closing(_, _, call) => 30 + CallLeft(call)
    case Releasing(_, _, call) => 10 + CallLeft(call)
    case Leaving(_, call) => 10 + CallLeft(call)
    case Resting(_) => 0
  }

  // The count a client has loaded is still the count.
  predicate Fresh(s: Shared, k: Client) {
    match k
    case Retaining(event, _, Swap(state)) => StateOf(s, event) == state
    case Replacing(_, directory, Swap(state)) => StateOf(s, directory) == state
    case Closing(_, directory, Swap(state)) => StateOf(s, directory) == state
    case Releasing(event, _, Swap(state)) => StateOf(s, event) == state
    case Leaving(directory, Swap(state)) => StateOf(s, directory) == state
    case _ => true
  }

  lemma ClientAdvances(s: Shared, k: Client, c: Choice)
    requires !c.spurious && !k.Resting? && ClientGood(k) && Fresh(s, k) && !ClientStep(s, k, c).refused
    ensures var r := ClientStep(s, k, c);
            && ClientLeft(r.client) < ClientLeft(k) && KeptBy(r.client, c) == KeptBy(k, c) && Fresh(r.shared, r.client)
            && r.shared.queue == s.queue
  {
  }

  // A client that dispatches an event deals with it as it chooses, to keep the result as its
  // directory, to close the one it has, or neither, and comes to rest.
  lemma {:induction false} ClientDeals(s: State, j: nat, c: Choice) returns (n: nat)
    requires Inv(s) && j < |s.clients| && !c.spurious && Fresh(s.shared, s.clients[j])
    ensures var r := Run(s, Alone(ClientTurn(j, c), n));
            r.clients[j] == Resting(KeptBy(s.clients[j], c)) && r.shared.queue == s.shared.queue
    decreases ClientLeft(s.clients[j])
  {
    hide Ledger, Sole, ClientStep, ClientGood, Fresh;
    if s.clients[j].Resting? {
      n := 0;
    } else {
      AloneMore(s, ClientTurn(j, c), 0);
      ClientAdvances(s.shared, s.clients[j], c);
      n := ClientDeals(Step(s, ClientTurn(j, c)), j, c);
      AloneMore(s, ClientTurn(j, c), n);
      n := n + 1;
    }
  }
}
