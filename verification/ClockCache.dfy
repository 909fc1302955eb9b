// The cached clock of services/rtc/rtc_service.cpp: the last RTC reading, advanced by the
// millisecond tick each time it is read.
module ClockCache {
  import opened Options
  import opened Calendar

  datatype Cache = Cache(datetime: DateTime, tick: nat, generation: nat, valid: bool)

  // What a reader carries from one critical section to the next.
  datatype Snapshot = Snapshot(base: DateTime, elapsed: nat, generation: nat)

  const EMPTY: Cache := Cache(DateTime(Date(0, 0, 0), Time(0, 0, 0)), 0, 0, false)

  // 32-bit subtraction.
  function Since(now: nat, then_: nat): (r: nat)
    requires now < WORD && then_ < WORD
    ensures r < WORD
  {
    if now >= then_ then now - then_ else now + WORD - then_
  }

  // update_cache()
  function Updated(c: Cache, dt: DateTime, tick: nat): Cache {
    Cache(dt, tick, (c.generation + 1) % WORD, true)
  }

  // rtc_service_get_cached_datetime(), up to its second critical section; base is the answer.
  function Taken(c: Cache, tick: nat): Snapshot
    requires c.tick < WORD && tick < WORD
  {
    var elapsed := Since(tick, c.tick) / 1000;
    Snapshot(Advanced(c.datetime, elapsed), elapsed, c.generation)
  }

  // The second critical section.
  function WrittenBack(c: Cache, s: Snapshot): Cache {
    if s.elapsed > 0 && c.valid && s.generation == c.generation then
      c.(datetime := s.base, tick := (c.tick + s.elapsed * 1000) % WORD)
    else c
  }

  // The cache in memory; only valid dates come from the clock chip.
  class Clock {
    var cache: Cache

    ghost predicate Valid()
      reads this
    {
      cache.tick < WORD && cache.generation < WORD && (cache.valid ==> IsDateTime(cache.datetime))
    }

    constructor ()
      ensures Valid() && cache == EMPTY
    {
      cache := EMPTY;
    }

    method UpdateCache(dt: DateTime, tick: nat)
      requires Valid() && IsDateTime(dt) && tick < WORD
      modifies this
      ensures Valid() && cache == Updated(old(cache), dt, tick)
      ensures forall s: Snapshot :: s.generation == old(cache.generation) ==> WrittenBack(cache, s) == cache
    {
      cache := Cache(dt, tick, (cache.generation + 1) % WORD, true);
    }

    method TakeSnapshot(tick: nat) returns (s: Option<Snapshot>)
      requires Valid() && tick < WORD
      ensures s == if cache.valid then Some(Taken(cache, tick)) else None
      ensures s.Some? ==> IsDateTime(s.value.base) && s.value.elapsed < WORD / 1000 + 1
    {
      hide Advanced, IsDateTime;
      if !cache.valid {
        return None;
      }
      var elapsed := Since(tick, cache.tick) / 1000;
      SecondsFit(cache.datetime);
      AdvancedIsDateTime(cache.datetime, elapsed);
      var base := AdvanceDateTime(cache.datetime, elapsed);
      return Some(Snapshot(base, elapsed, cache.generation));
    }

    method WriteBack(s: Snapshot)
      requires Valid() && IsDateTime(s.base)
      modifies this
      ensures Valid() && cache == WrittenBack(old(cache), s)
      ensures forall now: nat :: now < WORD && old(cache.valid) && s == Taken(old(cache), now) ==>
                Since(now, cache.tick) < 1000
    {
      hide Advanced, IsDateTime, Since;
      forall now: nat | now < WORD && cache.valid && s == Taken(cache, now)
        ensures Since(now, WrittenBack(cache, s).tick) < 1000
      {
        WriteBackCatchesUp(cache, now);
      }
      if s.elapsed > 0 && cache.valid && s.generation == cache.generation {
        cache := cache.(datetime := s.base, tick := (cache.tick + s.elapsed * 1000) % WORD);
      }
    }
  }

  // A write-back leaves less than a second between the cache and its reader.
  lemma WriteBackCatchesUp(c: Cache, now: nat)
    requires c.valid && c.tick < WORD && now < WORD
    ensures Since(now, WrittenBack(c, Taken(c, now)).tick) < 1000
  {
    hide Advanced;
    var gap := Since(now, c.tick);
    var rest := gap % 1000;
    assert gap == gap / 1000 * 1000 + rest;
    assert (c.tick + gap) % WORD == now;
  }

  lemma SecondsFit(dt: DateTime)
    requires IsDateTime(dt)
    ensures SecondOfDay(dt.time) < DAY_SECONDS
  {
  }

  // ----- The clock over time, with one reader and the RTC task interleaved

  // The cache and the reader; the true time in milliseconds; and for the proof what the RTC
  // last said and when, how many of the seconds since are already in the cache, when the
  // cache was last read, and how often the RTC has spoken since the reader's snapshot.
  datatype World = World(cache: Cache, reader: Option<Snapshot>, now: nat, setTo: DateTime, setAt: nat,
                         counted: nat, polled: nat, since: nat)

  datatype Event = Wait(ms: nat) | SetClock(dt: DateTime) | BeginRead | EndRead

  // The reader is one task; it reads at least every 2^32 - 1000 ms, and not 2^32 clock
  // readings arrive while it is between its two critical sections.
  predicate Allowed(w: World, e: Event) {
    match e
    case Wait(_) => true
    case SetClock(dt) => IsDateTime(dt) && w.since + 1 < WORD
    case BeginRead => w.reader == None && w.now - w.polled <= WORD - 1000
    case EndRead => w.reader.Some?
  }

  function Next(w: World, e: Event): World
    requires w.cache.tick < WORD
  {
    match e
    case Wait(ms) => w.(now := w.now + ms)
    case SetClock(dt) =>
      w.(cache := Updated(w.cache, dt, w.now % WORD), setTo := dt, setAt := w.now, counted := 0, polled := w.now,
         since := if w.reader.Some? then w.since + 1 else 0)
    case BeginRead =>
      if w.cache.valid then w.(reader := Some(Taken(w.cache, w.now % WORD)), polled := w.now, since := 0)
      else w.(polled := w.now)
    case EndRead =>
      if w.reader == None then w
      else
        w.(cache := WrittenBack(w.cache, w.reader.value), reader := None, since := 0,
           counted := if w.since == 0 then w.counted + w.reader.value.elapsed else w.counted)
  }

  // The seconds the cache already counts, as a time.
  function Base(w: World): nat { w.setAt + 1000 * w.counted }

  // The cache holds the RTC's last word, advanced; a reader under way holds it advanced
  // further, or knows an older generation.
  ghost predicate Good(w: World) {
    && w.cache.tick < WORD && w.cache.generation < WORD && w.polled <= w.now
    && (w.reader.Some? ==> w.cache.valid)
    && (w.cache.valid ==>
          && IsDateTime(w.setTo)
          && w.cache.datetime == Advanced(w.setTo, w.counted)
          && w.cache.tick == Base(w) % WORD
          && Base(w) <= w.polled
          && (w.reader == None || w.since > 0 ==> w.polled - Base(w) <= 999))
    && (w.reader.Some? ==> ReaderGood(w, w.reader.value))
    && w.since < WORD
  }

  ghost predicate ReaderGood(w: World, s: Snapshot) {
    && s.generation < WORD && w.cache.generation == (s.generation + w.since) % WORD
    && (w.since == 0 ==>
          && s.base == Advanced(w.setTo, w.counted + s.elapsed)
          && Base(w) + 1000 * s.elapsed <= w.polled <= Base(w) + 1000 * s.elapsed + 999)
  }

  // ----- 32-bit time

  lemma TickDistance(base: nat, now: nat)
    requires base <= now < base + WORD
    ensures Since(now % WORD, base % WORD) == now - base
  {
  }

  lemma TickAdvance(base: nat, ms: nat)
    ensures (base % WORD + ms) % WORD == (base + ms) % WORD
  {
  }

  lemma GenerationDiffers(g: nat, n: nat)
    requires g < WORD && 0 < n < WORD
    ensures (g + n) % WORD != g
  {
  }

  lemma GenerationCounts(g: nat, n: nat)
    ensures ((g + n) % WORD + 1) % WORD == (g + (n + 1)) % WORD
  {
  }

  // ----- Steps

  // What a read answers is the RTC's last word plus the whole seconds since.
  lemma ReadIsExact(w: World)
    requires Good(w) && Allowed(w, BeginRead) && w.cache.valid
    ensures var s := Taken(w.cache, w.now % WORD);
            && s.base == Advanced(w.setTo, (w.now - w.setAt) / 1000) && IsDateTime(s.base)
            && w.counted + s.elapsed == (w.now - w.setAt) / 1000
  {
    hide Advanced, IsDateTime;
    var distance := w.now - Base(w);
    TickDistance(Base(w), w.now);
    AdvancedTwice(w.setTo, w.counted, distance / 1000);
    WholeSeconds(w.counted, distance);
    AdvancedIsDateTime(w.setTo, (w.now - w.setAt) / 1000);
  }

  lemma WholeSeconds(counted: nat, distance: nat)
    ensures (1000 * counted + distance) / 1000 == counted + distance / 1000
    ensures 1000 * (distance / 1000) <= distance <= 1000 * (distance / 1000) + 999
  {
  }

  lemma NextGood(w: World, e: Event)
    requires Good(w) && Allowed(w, e)
    ensures Good(Next(w, e))
  {
    hide Advanced, IsDateTime, Taken, WrittenBack, Updated;
    match e {
      case Wait(_) =>
      case SetClock(dt) => SetGood(w, dt);
      case BeginRead => if w.cache.valid { BeginGood(w); }
      case EndRead => EndGood(w);
    }
  }

  lemma SetGood(w: World, dt: DateTime)
    requires Good(w) && Allowed(w, SetClock(dt))
    ensures Good(Next(w, SetClock(dt)))
  {
    hide Advanced, IsDateTime;
    AdvancedNone(dt);
    if w.reader.Some? {
      GenerationCounts(w.reader.value.generation, w.since);
    }
  }

  lemma AdvancedNone(dt: DateTime)
    requires IsDateTime(dt)
    ensures Advanced(dt, 0) == dt
  {
    TimeAgain(dt.time);
  }

  lemma TimeAgain(t: Time)
    requires IsTime(t)
    ensures WholeDays(SecondOfDay(t)) == 0 && TimeOf(WithinDay(SecondOfDay(t))) == t
  {
  }

  lemma BeginGood(w: World)
    requires Good(w) && Allowed(w, BeginRead) && w.cache.valid
    ensures Good(Next(w, BeginRead))
  {
    hide Advanced, IsDateTime;
    ReadIsExact(w);
    TickDistance(Base(w), w.now);
    WholeSeconds(w.counted, w.now - Base(w));
  }

  lemma EndGood(w: World)
    requires Good(w) && Allowed(w, EndRead)
    ensures Good(Next(w, EndRead))
  {
    hide Advanced, IsDateTime;
    var s := w.reader.value;
    if w.since == 0 {
      TickAdvance(Base(w), s.elapsed * 1000);
    } else {
      GenerationDiffers(s.generation, w.since);
    }
  }

  // ----- Runs

  const START: World := World(EMPTY, None, 0, EMPTY.datetime, 0, 0, 0, 0)

  ghost predicate AllowedRun(w: World, events: seq<Event>)
    decreases |events|
  {
    w.cache.tick < WORD && (events == [] || (Allowed(w, events[0]) && AllowedRun(Next(w, events[0]), events[1..])))
  }

  function Run(w: World, events: seq<Event>): World
    requires AllowedRun(w, events)
    decreases |events|
  {
    if events == [] then w else Run(Next(w, events[0]), events[1..])
  }

  lemma {:induction false} RunGood(w: World, events: seq<Event>)
    requires Good(w) && AllowedRun(w, events)
    ensures Good(Run(w, events))
    decreases |events|
  {
    hide Next, Good, Allowed;
    if events != [] {
      NextGood(w, events[0]);
      RunGood(Next(w, events[0]), events[1..]);
    }
  }

  // However often and whenever the clock was read before, a read answers the RTC's last word
  // advanced once by the whole seconds elapsed since, and that is a valid date.
  lemma ReadingIsIndependentOfPolling(events: seq<Event>)
    requires AllowedRun(START, events)
    requires var w := Run(START, events); w.cache.valid && Allowed(w, BeginRead)
    ensures var w := Run(START, events);
            && w.cache.tick < WORD && w.setAt <= w.now
            && Taken(w.cache, w.now % WORD).base == Advanced(w.setTo, (w.now - w.setAt) / 1000)
            && IsDateTime(Taken(w.cache, w.now % WORD).base)
  {
    hide Run, Advanced, Taken, IsDateTime;
    RunGood(START, events);
    ReadIsExact(Run(START, events));
  }

  // A reader that was overtaken by the RTC leaves the newer reading alone.
  lemma NewerReadingStays(events: seq<Event>)
    requires AllowedRun(START, events)
    requires var w := Run(START, events); w.reader.Some? && w.since > 0
    ensures var w := Run(START, events); WrittenBack(w.cache, w.reader.value) == w.cache
  {
    hide Run;
    RunGood(START, events);
    var w := Run(START, events);
    GenerationDiffers(w.reader.value.generation, w.since);
  }

  // ----- Two readers

  // A cache that counts from a true time: what it holds is exact there.
  ghost predicate CountsFrom(c: Cache, dt: DateTime, base: nat, counted: nat) {
    && c.valid && c.tick == (base + 1000 * counted) % WORD && c.datetime == Advanced(dt, counted)
  }

  // A read at this true time answers dt, as it was at the time base, advanced once by the
  // whole seconds since.
  ghost predicate ReadsExactly(c: Cache, dt: DateTime, base: nat, now: nat)
    requires base <= now
  {
    c.valid && c.tick < WORD && Taken(c, now % WORD).base == Advanced(dt, (now - base) / 1000)
  }

  // The same for every read in the time that a poll may take to come.
  ghost predicate StaysExact(c: Cache, dt: DateTime, base: nat, last: nat)
    requires base <= last
  {
    forall now :: last <= now <= last + WORD - 1000 ==> ReadsExactly(c, dt, base, now)
  }

  function Later(a: nat, b: nat): nat { if a >= b then a else b }

  lemma CountingReadsExactly(c: Cache, dt: DateTime, base: nat, counted: nat, now: nat)
    requires CountsFrom(c, dt, base, counted) && base + 1000 * counted <= now < base + 1000 * counted + WORD
    ensures ReadsExactly(c, dt, base, now)
  {
    hide Advanced;
    var distance := now - (base + 1000 * counted);
    TickDistance(base + 1000 * counted, now);
    AdvancedTwice(dt, counted, distance / 1000);
    WholeSeconds(counted, distance);
  }

  lemma CountingStaysExact(c: Cache, dt: DateTime, base: nat, counted: nat, last: nat)
    requires CountsFrom(c, dt, base, counted) && base + 1000 * counted <= last <= base + 1000 * counted + 999
    ensures StaysExact(c, dt, base, last)
  {
    hide ReadsExactly, CountsFrom;
    forall now | last <= now <= last + WORD - 1000
      ensures ReadsExactly(c, dt, base, now)
    {
      CountingReadsExactly(c, dt, base, counted, now);
    }
  }

  // Advancing by different numbers of seconds within the hundred years gives different times.
  lemma AdvancedApart(dt: DateTime, a: nat, b: nat)
    requires IsDateTime(dt) && a < b < a + CYCLE_DAYS * DAY_SECONDS
    ensures Advanced(dt, a) != Advanced(dt, b)
  {
    hide Advanced, IsDateTime, SecondNumber;
    AdvancedCounts(dt, a);
    AdvancedCounts(dt, b);
    ResiduesApart(SecondNumber(dt) + a, SecondNumber(dt) + b);
  }

  lemma ResiduesApart(a: nat, b: nat)
    requires a < b < a + CYCLE_DAYS * DAY_SECONDS
    ensures a % (CYCLE_DAYS * DAY_SECONDS) != b % (CYCLE_DAYS * DAY_SECONDS)
  {
    assert CYCLE_DAYS * DAY_SECONDS == 3155760000;
    var p, q := a / 3155760000, b / 3155760000;
    assert b - a == (q - p) * 3155760000 + (b % 3155760000 - a % 3155760000);
  }

  // What the second of two write-backs leaves when both had seconds to add: the time of its
  // own reader at a tick that the other has already moved.
  lemma BothAdd(c: Cache, base: nat, first: nat, second: nat)
    requires c.valid && c.tick == base % WORD && base <= first < base + WORD && base <= second < base + WORD
    ensures var s, t := Taken(c, first % WORD), Taken(c, second % WORD);
            var after := WrittenBack(WrittenBack(c, s), t);
            && s.elapsed == (first - base) / 1000 && t.elapsed == (second - base) / 1000
            && after.valid && after.datetime == (if t.elapsed > 0 then Advanced(c.datetime, t.elapsed)
                                                 else if s.elapsed > 0 then Advanced(c.datetime, s.elapsed)
                                                 else c.datetime)
            && after.tick == (base + 1000 * (s.elapsed + t.elapsed)) % WORD
  {
    hide Advanced;
    TickDistance(base, first);
    TickDistance(base, second);
    var s, t := Taken(c, first % WORD), Taken(c, second % WORD);
    TickAdvance(base, 1000 * s.elapsed);
    TickAdvance(base + 1000 * s.elapsed, 1000 * t.elapsed);
  }

  // Two readers that take their snapshots of the same cache, before either writes back, leave
  // a cache from which reads are exact if and only if one of them had no whole second to add.
  lemma TwoReadersStayExact(c: Cache, base: nat, first: nat, second: nat)
    requires c.valid && IsDateTime(c.datetime) && c.tick == base % WORD
    requires base <= first < base + WORD && base <= second < base + WORD
    ensures var s, t := Taken(c, first % WORD), Taken(c, second % WORD);
            StaysExact(WrittenBack(WrittenBack(c, s), t), c.datetime, base, Later(first, second)) <==>
            s.elapsed == 0 || t.elapsed == 0
  {
    hide Advanced, IsDateTime, ReadsExactly, WrittenBack, StaysExact, Taken;
    var s, t := Taken(c, first % WORD), Taken(c, second % WORD);
    var after := WrittenBack(WrittenBack(c, s), t);
    BothAdd(c, base, first, second);
    if s.elapsed == 0 || t.elapsed == 0 {
      AdvancedNone(c.datetime);
      CountingStaysExact(after, c.datetime, base, s.elapsed + t.elapsed, Later(first, second));
    } else {
      TwiceIsInexact(c, base, first, second);
    }
  }

  // The read at the end of the second in which the later snapshot was taken tells: the tick
  // is ahead of it, and the answer weeks.
  lemma TwiceIsInexact(c: Cache, base: nat, first: nat, second: nat)
    requires c.valid && IsDateTime(c.datetime) && c.tick == base % WORD
    requires base + 1000 <= first < base + WORD && base + 1000 <= second < base + WORD
    ensures var after := WrittenBack(WrittenBack(c, Taken(c, first % WORD)), Taken(c, second % WORD));
            !StaysExact(after, c.datetime, base, Later(first, second))
  {
    hide Advanced, IsDateTime, Taken, WrittenBack, Later, ReadsExactly;
    var s, t := Taken(c, first % WORD), Taken(c, second % WORD);
    var after := WrittenBack(WrittenBack(c, s), t);
    BothAdd(c, base, first, second);
    var seconds := (Later(first, second) - base) / 1000;
    SecondsCounted(base, first, second);
    LateReadIsWrong(after, c.datetime, base, seconds, s.elapsed, t.elapsed);
    assert !ReadsExactly(after, c.datetime, base, base + 1000 * seconds + 999);
  }

  lemma SecondsCounted(base: nat, first: nat, second: nat)
    requires base + 1000 <= first < base + WORD && base + 1000 <= second < base + WORD
    ensures var s, t, last := (first - base) / 1000, (second - base) / 1000, (Later(first, second) - base) / 1000;
            && 1 <= s <= last <= 4294967 && 1 <= t <= last && (last == s || last == t)
            && Later(first, second) <= base + 1000 * last + 999 <= Later(first, second) + 999
  {
  }

  lemma LateReadIsWrong(c: Cache, dt: DateTime, base: nat, seconds: nat, other: nat, own: nat)
    requires IsDateTime(dt) && c.datetime == Advanced(dt, own) && c.tick == (base + 1000 * (other + own)) % WORD
    requires 1 <= other <= seconds <= 4294967 && 1 <= own <= seconds && (seconds == other || seconds == own)
    ensures !ReadsExactly(c, dt, base, base + 1000 * seconds + 999)
  {
    hide Advanced, IsDateTime, Taken;
    var ahead := seconds + 4294968 - (other + own);
    LateRead(c, base, seconds, other + own);
    AdvancedTwice(dt, own, ahead);
    AdvancedApart(dt, seconds, own + ahead);
  }

  // A read at the end of a second, from a tick that lies ahead of it, finds nearly the whole
  // range of the tick elapsed.
  lemma LateRead(c: Cache, base: nat, seconds: nat, counted: nat)
    requires c.tick == (base + 1000 * counted) % WORD && seconds < counted <= seconds + 4294967
    ensures c.tick < WORD
    ensures Taken(c, (base + 1000 * seconds + 999) % WORD).base == Advanced(c.datetime, seconds + 4294968 - counted)
  {
    hide Advanced;
    var now := base + 1000 * seconds + 999;
    TickAdvance(now, WORD);
    TickDistance(base + 1000 * counted, now + WORD);
  }

  // A reading of the clock between two snapshots makes only the newer one count, in either
  // order of writing back, and reads are exact from then on.
  lemma RefreshBetweenReaders(c: Cache, s: Snapshot, dt: DateTime, setAt: nat, second: nat)
    requires c.generation < WORD && s.generation == c.generation
    requires IsDateTime(dt) && setAt <= second < setAt + WORD
    ensures var newer := Updated(c, dt, setAt % WORD); var t := Taken(newer, second % WORD);
            && WrittenBack(WrittenBack(newer, s), t) == WrittenBack(WrittenBack(newer, t), s)
            && StaysExact(WrittenBack(WrittenBack(newer, s), t), dt, setAt, second)
  {
    hide Advanced, IsDateTime, StaysExact;
    GenerationDiffers(c.generation, 1);
    var newer := Updated(c, dt, setAt % WORD);
    var t := Taken(newer, second % WORD);
    var after := WrittenBack(newer, t);
    AdvancedNone(dt);
    TickDistance(setAt, second);
    TickAdvance(setAt, 1000 * t.elapsed);
    WholeSeconds(0, second - setAt);
    CountingStaysExact(after, dt, setAt, t.elapsed, second);
  }

  // A reading of the clock after both snapshots leaves neither anything to write, before or
  // after it.
  lemma RefreshAfterReaders(c: Cache, s: Snapshot, t: Snapshot, dt: DateTime, setAt: nat)
    requires c.generation < WORD && s.generation == t.generation == c.generation && IsDateTime(dt)
    ensures var newer := Updated(c, dt, setAt % WORD);
            && WrittenBack(WrittenBack(newer, s), t) == newer
            && WrittenBack(Updated(WrittenBack(c, s), dt, setAt % WORD), t) == newer
            && StaysExact(newer, dt, setAt, setAt)
  {
    hide Advanced, IsDateTime, StaysExact;
    GenerationDiffers(c.generation, 1);
    AdvancedNone(dt);
    CountingStaysExact(Updated(c, dt, setAt % WORD), dt, setAt, 0, setAt);
  }
}
