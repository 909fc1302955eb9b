// ui/paper_mono/ui_frame_pool.cpp: the fixed pool of display frames, whose slots are counted
// references tagged with a generation.
module FramePool {
  const CAPACITY: nat := 4
  const COUNT_LIMIT: nat := 0xffff
  const GENERATIONS: nat := 0x1_0000_0000

  type u32 = x: nat | x < GENERATIONS
  type u16 = x: nat | x <= COUNT_LIMIT

  datatype SlotState = Free | Building | Published

  // The frame's payload is an arbitrary value; the generation survives the slot's reuse.
  datatype Slot<Frame> = Slot(frame: Frame, generation: u32, count: u16, state: SlotState)

  datatype Handle = Handle(generation: u32, index: nat)

  const INVALID: Handle := Handle(0, 0xff)

  predicate IsValid(h: Handle) { h.generation != 0 && h.index < CAPACITY }

  // handle_matches_locked()
  predicate Matches<F>(slots: seq<Slot<F>>, h: Handle)
    requires |slots| == CAPACITY
  {
    IsValid(h) && var s := slots[h.index];
    s.state != Free && s.generation == h.generation && s.count > 0
  }

  // What validate_pool_locked() asserts of each slot.
  predicate SlotSound<F>(s: Slot<F>) {
    if s.state == Free then s.count == 0 else s.count > 0 && s.generation != 0
  }

  predicate Sound<F>(slots: seq<Slot<F>>) {
    |slots| == CAPACITY && forall i :: 0 <= i < |slots| ==> SlotSound(slots[i])
  }

  function FirstFree<F>(slots: seq<Slot<F>>): (i: nat)
    ensures i <= |slots|
    ensures i < |slots| ==> slots[i].state == Free
    ensures forall j :: 0 <= j < i ==> slots[j].state != Free
  {
    if slots == [] then 0
    else if slots[0].state == Free then 0
    else
      var rest := FirstFree(slots[1..]);
      assert forall j :: 0 < j <= rest ==> slots[j] == slots[1..][j - 1] || j == rest;
      1 + rest
  }

  // The next generation, skipping 0.
  function NextGeneration(g: u32): (r: u32)
    ensures r != 0 && r != g
  {
    if g + 1 == GENERATIONS then 1 else g + 1
  }

  function ActiveCount<F>(slots: seq<Slot<F>>): (n: nat)
    ensures n <= |slots|
  {
    if slots == [] then 0 else ActiveCount(slots[1..]) + if slots[0].state == Free then 0 else 1
  }

  // ----- The operations, as functions of the slots

  function Acquired<F>(slots: seq<Slot<F>>): (r: (seq<Slot<F>>, Handle))
    requires |slots| == CAPACITY
    ensures |r.0| == CAPACITY
  {
    var i := FirstFree(slots);
    if i == |slots| then (slots, INVALID)
    else
      var g := NextGeneration(slots[i].generation);
      (slots[i := Slot(slots[i].frame, g, 1, Building)], Handle(g, i))
  }

  // The producer's new frame is blank: it is cleared after the lock has been left, when nobody
  // else may look at it.
  function Cleared<F>(slots: seq<Slot<F>>, h: Handle, blank: F): (r: seq<Slot<F>>)
    requires |slots| == CAPACITY
    ensures |r| == CAPACITY
  {
    if IsValid(h) then slots[h.index := slots[h.index].(frame := blank)] else slots
  }

  function Publish<F>(slots: seq<Slot<F>>, h: Handle): (r: (seq<Slot<F>>, bool))
    requires |slots| == CAPACITY
    ensures |r.0| == CAPACITY
  {
    if Matches(slots, h) && slots[h.index].state == Building
    then (slots[h.index := slots[h.index].(state := Published)], true)
    else (slots, false)
  }

  function Retain<F>(slots: seq<Slot<F>>, h: Handle): (r: (seq<Slot<F>>, bool))
    requires |slots| == CAPACITY
    ensures |r.0| == CAPACITY
  {
    if Matches(slots, h) && slots[h.index].state == Published && slots[h.index].count < COUNT_LIMIT
    then (slots[h.index := slots[h.index].(count := slots[h.index].count + 1)], true)
    else (slots, false)
  }

  predicate Resolves<F>(slots: seq<Slot<F>>, h: Handle)
    requires |slots| == CAPACITY
  {
    Matches(slots, h) && slots[h.index].state == Published
  }

  function Release<F>(slots: seq<Slot<F>>, h: Handle): (r: (seq<Slot<F>>, bool))
    requires |slots| == CAPACITY
    ensures |r.0| == CAPACITY
  {
    if Matches(slots, h) then
      var s := slots[h.index];
      (slots[h.index := if s.count == 1 then s.(count := 0, state := Free) else s.(count := s.count - 1)], true)
    else (slots, false)
  }

  lemma {:induction false} ActiveAfter<F>(slots: seq<Slot<F>>, i: nat, s: Slot<F>)
    requires i < |slots|
    ensures ActiveCount(slots[i := s]) ==
            ActiveCount(slots) + (if s.state == Free then 0 else 1) - (if slots[i].state == Free then 0 else 1)
    decreases i
  {
    if i == 0 {
      assert slots[0 := s][1..] == slots[1..];
    } else {
      ActiveAfter(slots[1..], i - 1, s);
      assert slots[i := s][1..] == slots[1..][i - 1 := s];
    }
  }

  // ----- The pool as it is, with its counters

  class Pool<Frame> {
    const slots: array<Slot<Frame>>
    const blank: Frame
    var activeCount: nat
    var peakActiveCount: nat

    // The pool's own assertions.
    ghost predicate Valid()
      reads this, slots
    {
      && slots.Length == CAPACITY
      && Sound(slots[..])
      && activeCount == ActiveCount(slots[..])
      && activeCount <= peakActiveCount <= CAPACITY
    }

    constructor (blank: Frame)
      ensures Valid() && fresh(slots)
      ensures forall i :: 0 <= i < CAPACITY ==> slots[i] == Slot(blank, 0, 0, Free)
      ensures this.blank == blank
    {
      this.blank := blank;
      slots := new Slot<Frame>[CAPACITY](_ => Slot(blank, 0, 0, Free));
      activeCount, peakActiveCount := 0, 0;
      new;
      AllFree(slots[..]);
    }

    method Acquire() returns (h: Handle)
      requires Valid()
      modifies this, slots
      ensures Valid()
      ensures h == Acquired(old(slots[..])).1
      ensures slots[..] == Cleared(Acquired(old(slots[..])).0, h, blank)
      ensures !IsValid(h) ==> old(activeCount) == CAPACITY
    {
      hide ActiveCount, Acquired;
      h := Take();
      if IsValid(h) {
        TakenIsBuilding(old(slots[..]));
        Replace(h.index, slots[h.index].(frame := blank));
      }
    }

    // Under the lock.
    method Take() returns (h: Handle)
      requires Valid()
      modifies this, slots
      ensures Valid()
      ensures (slots[..], h) == Acquired(old(slots[..]))
      ensures !IsValid(h) ==> old(activeCount) == CAPACITY
    {
      hide ActiveCount;
      var index := 0;
      while index < CAPACITY && slots[index].state != Free
        invariant index <= CAPACITY
        invariant forall j :: 0 <= j < index ==> slots[j].state != Free
      {
        index := index + 1;
      }
      assert index == FirstFree(slots[..]);
      if index == CAPACITY {
        AllTaken(slots[..]);
        return INVALID;
      }
      var g := NextGeneration(slots[index].generation);
      ActiveAfter(slots[..], index, Slot(slots[index].frame, g, 1, Building));
      slots[index] := Slot(slots[index].frame, g, 1, Building);
      assert slots[..] == old(slots[..])[index := Slot(old(slots[..])[index].frame, g, 1, Building)];
      activeCount := activeCount + 1;
      if activeCount > peakActiveCount {
        peakActiveCount := activeCount;
      }
      h := Handle(g, index);
    }

    method PublishSlot(h: Handle) returns (published: bool)
      requires Valid()
      modifies slots
      ensures Valid()
      ensures (slots[..], published) == Publish(old(slots[..]), h)
    {
      hide ActiveCount;
      if !IsValid(h) || slots[h.index].state != Building || slots[h.index].generation != h.generation {
        return false;
      }
      Replace(h.index, slots[h.index].(state := Published));
      return true;
    }

    method RetainSlot(h: Handle) returns (retained: bool)
      requires Valid()
      modifies slots
      ensures Valid()
      ensures (slots[..], retained) == Retain(old(slots[..]), h)
    {
      hide ActiveCount;
      if !IsValid(h) || slots[h.index].state != Published || slots[h.index].generation != h.generation ||
         slots[h.index].count == COUNT_LIMIT
      {
        return false;
      }
      Replace(h.index, slots[h.index].(count := slots[h.index].count + 1));
      return true;
    }

    method Resolve(h: Handle) returns (found: bool, frame: Frame)
      requires Valid()
      ensures found == Resolves(slots[..], h)
      ensures found ==> frame == slots[h.index].frame
    {
      if IsValid(h) && slots[h.index].state == Published && slots[h.index].generation == h.generation {
        return true, slots[h.index].frame;
      }
      return false, slots[0].frame;
    }

    method ReleaseSlot(h: Handle) returns (released: bool)
      requires Valid()
      modifies this`activeCount, slots
      ensures Valid()
      ensures (slots[..], released) == Release(old(slots[..]), h)
    {
      hide ActiveCount;
      if !IsValid(h) || slots[h.index].state == Free || slots[h.index].generation != h.generation {
        return false;
      }
      var s := slots[h.index];
      if s.count == 1 {
        ActiveAfter(slots[..], h.index, s.(count := 0, state := Free));
        slots[h.index] := s.(count := 0, state := Free);
        assert slots[..] == old(slots[..])[h.index := s.(count := 0, state := Free)];
        activeCount := activeCount - 1;
      } else {
        Replace(h.index, s.(count := s.count - 1));
      }
      return true;
    }

    // A slot changes without becoming free or ceasing to be.
    method Replace(i: nat, s: Slot<Frame>)
      requires Valid() && i < CAPACITY && SlotSound(s) && (s.state == Free <==> slots[i].state == Free)
      modifies slots
      ensures Valid() && slots[..] == old(slots[..])[i := s]
    {
      hide ActiveCount, SlotSound;
      ActiveAfter(slots[..], i, s);
      slots[i] := s;
      assert slots[..] == old(slots[..])[i := s];
    }
  }

  lemma TakenIsBuilding<F>(slots: seq<Slot<F>>)
    requires |slots| == CAPACITY
    ensures var (taken, h) := Acquired(slots);
            IsValid(h) ==> SlotSound(taken[h.index]) && taken[h.index].state == Building
  {
  }

  lemma {:induction false} AllFree<F>(slots: seq<Slot<F>>)
    requires forall i :: 0 <= i < |slots| ==> slots[i].state == Free
    ensures ActiveCount(slots) == 0
  {
    if slots != [] {
      AllFree(slots[1..]);
    }
  }

  lemma {:induction false} AllTaken<F>(slots: seq<Slot<F>>)
    requires forall i :: 0 <= i < |slots| ==> slots[i].state != Free
    ensures ActiveCount(slots) == |slots|
  {
    if slots != [] {
      AllTaken(slots[1..]);
    }
  }
}
