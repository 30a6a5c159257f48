/** Timer callbacks (timer.c) and the tick counter of the BIOS data area (main.c). */
module Timer {
  import opened Types

  const MAX_TIMERS: nat := 8

  /** A callback: what its `n`th call returns, from 0 on, given its argument, and whether it is the
      one of main that adds its argument to the tick counter. */
  datatype Callback = Callback(answer: (nat, u32) -> u32, addsTicks: bool)

  /** The callback of main returns its argument. */
  const INC_TICKS := Callback((_, interval) => interval, true)

  datatype Slot = Free | Live(callback: Callback, interval: u32, counter: u32, calls: nat) {
    /** The counter is below the interval, which counts as 1 when it is 0. */
    predicate Valid() {
      Live? ==> counter < AtLeastOne(interval)
    }

    predicate Fires() {
      Live? && counter + 1 >= interval
    }

    function Ticked(): Slot {
      if Free? then Free
      else if !Fires() then this.(counter := (counter + 1) % U32)
      else
        var next := callback.answer(calls, interval);
        if next == 0 then Free else Live(callback, next, 0, calls + 1)
    }

    function After(n: nat): Slot {
      if n == 0 then this else After(n - 1).Ticked()
    }

    /** What a tick adds to the tick counter. */
    function Adds(): nat {
      if Fires() && callback.addsTicks then interval else 0
    }

    // ----- the schedule -----

    /** The interval in force before the `k`th call from now: the answer to the one before. */
    function Interval(k: nat): u32
      requires Live?
    {
      if k == 0 then interval else callback.answer(calls + k - 1, Interval(k - 1))
    }

    /** No call before the `k`th from now returns 0. */
    ghost predicate Lasts(k: nat)
      requires Live?
    {
      forall j | 1 <= j <= k :: Interval(j) != 0
    }

    /** The tick of the `k`th call from now: what is left of the interval, and all the answers
        since. */
    function Due(k: nat): int
      requires Live?
    {
      if k == 0 then AtLeastOne(interval) - counter else Due(k - 1) + Interval(k)
    }

    /** The slot after `k` more calls, at `waited` ticks since the last. */
    function Called(k: nat, waited: u32): Slot
      requires Live?
    {
      Live(callback, Interval(k), waited, calls + k)
    }
  }

  function AtLeastOne(x: u32): u32 {
    if x == 0 then 1 else x
  }

  lemma {:induction false} DueRises(s: Slot, j: nat, k: nat)
    requires s.Live? && s.Valid() && s.Lasts(k) && j <= k
    ensures 1 <= s.Due(j) && (j < k ==> s.Due(j) < s.Due(k))
  {
    if k > 0 {
      assert s.Lasts(k - 1) && s.Interval(k) != 0;
      DueRises(s, if j < k then j else k - 1, k - 1);
    }
  }

  /** The tick at which the slot has waited so long after the `k`th call. */
  function TickOf(s: Slot, k: nat, waited: nat): int
    requires s.Live?
  {
    if k == 0 then waited - s.counter else s.Due(k - 1) + waited
  }

  predicate Waits(s: Slot, k: nat, waited: nat)
    requires s.Live?
  {
    if k == 0 then s.counter <= waited < AtLeastOne(s.interval) else waited < s.Interval(k)
  }

  /** Between the `k`th call and the next the slot has the last answer as its interval. */
  lemma {:induction false} BetweenCalls(s: Slot, k: nat, waited: nat)
    requires s.Live? && s.Valid() && s.Lasts(k) && Waits(s, k, waited)
    ensures s.Called(k, waited).Valid()
    ensures TickOf(s, k, waited) >= 0 && s.After(TickOf(s, k, waited)) == s.Called(k, waited)
    decreases k, waited
  {
    if k > 0 && waited == 0 {
      assert s.Lasts(k - 1);
      DueRises(s, k - 1, k - 1);
      LastTick(s, k - 1);
    } else if k > 0 || waited > s.counter {
      BetweenCalls(s, k, waited - 1);
      StillWaiting(s, k, waited);
    }
  }

  lemma StillWaiting(s: Slot, k: nat, waited: nat)
    requires s.Live? && s.Valid() && Waits(s, k, waited) && waited > 0
    ensures s.Called(k, waited - 1).Ticked() == s.Called(k, waited)
  {
  }

  /** At its due tick the callback is called; the slot then starts over, or is free. */
  lemma {:induction false} LastTick(s: Slot, k: nat)
    requires s.Live? && s.Valid() && s.Lasts(k)
    ensures s.Due(k) >= 1 && s.After(s.Due(k) - 1).Fires()
    ensures s.After(s.Due(k)) == if s.Interval(k + 1) == 0 then Free else s.Called(k + 1, 0)
    decreases k, U32
  {
    DueRises(s, k, k);
    var waited := if k == 0 then AtLeastOne(s.interval) - 1 else s.Interval(k) - 1;
    BetweenCalls(s, k, waited);
    assert s.After(s.Due(k) - 1) == s.Called(k, waited);
  }

  lemma {:induction false} StaysFree(s: Slot, m: nat, n: nat)
    requires s.After(m) == Free && m <= n
    ensures s.After(n) == Free
    decreases n
  {
    if m < n {
      StaysFree(s, m, n - 1);
    }
  }

  /** The schedule is exact: the callback is called for the `k`th time from now on the tick that
      is due for it, if no answer before was 0 ... */
  lemma CallsWhenDue(s: Slot, k: nat)
    requires s.Live? && s.Valid() && s.Lasts(k)
    ensures s.Due(k) >= 1 && s.After(s.Due(k) - 1).Fires()
  {
    LastTick(s, k);
  }

  /** ... and on no other tick: tick `n` is due for some call, unless the slot does not fire. */
  lemma {:induction false} CalledOnlyWhenDue(s: Slot, n: nat, k: nat)
    requires s.Live? && s.Valid() && n >= 1 && s.Lasts(k) && (k > 0 ==> n > s.Due(k - 1))
    requires s.After(n - 1).Fires()
    ensures exists j | j >= k :: s.Lasts(j) && n == s.Due(j)
    decreases n - (if k == 0 then 0 else s.Due(k - 1))
  {
    DueRises(s, k, k);
    if n < s.Due(k) {
      var waited := if k == 0 then n - 1 + s.counter else n - 1 - s.Due(k - 1);
      BetweenCalls(s, k, waited);
      assert false;
    } else if n > s.Due(k) {
      LastTick(s, k);
      if s.Interval(k + 1) == 0 {
        StaysFree(s, s.Due(k), n - 1);
        assert false;
      } else {
        assert s.Lasts(k + 1);
        if k > 0 {
          DueRises(s, k - 1, k);
        }
        CalledOnlyWhenDue(s, n, k + 1);
      }
    }
  }

  /** After an answer of 0 there is no call any more. */
  lemma DeadAfterZero(s: Slot, k: nat, n: nat)
    requires s.Live? && s.Valid() && s.Lasts(k) && s.Interval(k + 1) == 0 && n >= s.Due(k)
    ensures n >= 0 && !s.After(n).Fires()
  {
    LastTick(s, k);
    StaysFree(s, s.Due(k), n);
  }

  // ----- eight slots -----

  datatype Event = Tick | Register(callback: Callback, interval: u32) | Unregister(id: int)

  /** The first free slot, or the number of slots. */
  function FirstFree(slots: seq<Slot>): (r: nat)
    ensures r <= |slots| && (r < |slots| ==> slots[r].Free?) && forall i | 0 <= i < r :: slots[i].Live?
  {
    if slots == [] then 0 else if slots[0].Free? then 0 else 1 + FirstFree(slots[1..])
  }

  lemma FirstFreeIs(slots: seq<Slot>, i: nat)
    requires i < |slots| && slots[i].Free? && forall j | 0 <= j < i :: slots[j].Live?
    ensures FirstFree(slots) == i
  {
    if FirstFree(slots) < |slots| {
      assert slots[FirstFree(slots)].Free?;
    }
  }

  function Step(slots: seq<Slot>, e: Event): (r: seq<Slot>)
    ensures |r| == |slots|
  {
    match e
    case Tick => seq(|slots|, i requires 0 <= i < |slots| => slots[i].Ticked())
    case Register(callback, interval) =>
      var i := FirstFree(slots);
      if i < |slots| then slots[i := Live(callback, interval, 0, 0)] else slots
    case Unregister(id) => if 0 <= id < |slots| then slots[id := Free] else slots
  }

  function Run(slots: seq<Slot>, events: seq<Event>): (r: seq<Slot>)
    ensures |r| == |slots|
  {
    if events == [] then slots else Step(Run(slots, events[..|events| - 1]), events[|events| - 1])
  }

  function Ticks(events: seq<Event>): nat {
    if events == [] then 0
    else Ticks(events[..|events| - 1]) + if events[|events| - 1].Tick? then 1 else 0
  }

  /** Slots do not disturb each other: whatever is called, registered or unregistered elsewhere, a
      slot goes through its own ticks for as long as it lives. */
  lemma {:induction false} Independent(slots: seq<Slot>, events: seq<Event>, i: nat)
    requires i < |slots| && slots[i].Live? && Unregister(i) !in events
    requires slots[i].After(Ticks(events)).Live?
    ensures Run(slots, events)[i] == slots[i].After(Ticks(events))
  {
    if events != [] {
      var front := events[..|events| - 1];
      if slots[i].After(Ticks(front)).Free? {
        StaysFree(slots[i], Ticks(front), Ticks(events));
      }
      Independent(slots, front, i);
    }
  }

  /** A callback whose first call comes after a whole interval. */
  ghost predicate Starts(s: Slot, callback: Callback, interval: u32) {
    && s.Live? && s.callback == callback && s.calls == 0
    && s.Interval(0) == interval && s.Due(0) == AtLeastOne(interval)
  }

  /** From its registration on, whatever happens in other slots: the callback is called on the tick that
      is the interval, or 1, plus the answers since, if none of these is 0 ... */
  lemma RegisteredRuns(slots: seq<Slot>, events: seq<Event>, i: nat, callback: Callback, interval: u32, k: nat)
    requires i < |slots| && Starts(slots[i], callback, interval) && slots[i].Valid() && Unregister(i) !in events
    requires slots[i].Lasts(k) && Ticks(events) + 1 == AtLeastOne(interval) + Answers(slots[i], k)
    ensures Run(slots, events)[i].Fires()
  {
    DueIsSum(slots[i], k);
    CallsWhenDue(slots[i], k);
    Independent(slots, events, i);
  }

  /** ... and on no other, for as long as it stays registered. */
  lemma RegisteredOnlyThen(slots: seq<Slot>, events: seq<Event>, i: nat, callback: Callback, interval: u32) returns (k: nat)
    requires i < |slots| && Starts(slots[i], callback, interval) && slots[i].Valid() && Unregister(i) !in events
    requires slots[i].After(Ticks(events)).Live? && Run(slots, events)[i].Fires()
    ensures slots[i].Lasts(k) && Ticks(events) + 1 == AtLeastOne(interval) + Answers(slots[i], k)
  {
    Independent(slots, events, i);
    CalledOnlyWhenDue(slots[i], Ticks(events) + 1, 0);
    k :| slots[i].Lasts(k) && Ticks(events) + 1 == slots[i].Due(k);
    DueIsSum(slots[i], k);
  }

  /** The sum of the first `k` answers. */
  function Answers(s: Slot, k: nat): nat
    requires s.Live?
  {
    if k == 0 then 0 else Answers(s, k - 1) + s.callback.answer(s.calls + k - 1, s.Interval(k - 1))
  }

  lemma {:induction false} DueIsSum(s: Slot, k: nat)
    requires s.Live?
    ensures s.Due(k) == s.Due(0) + Answers(s, k)
  {
    if k > 0 {
      DueIsSum(s, k - 1);
    }
  }

  /** A callback that answers with its own interval. */
  ghost predicate Repeats(callback: Callback, interval: u32) {
    interval > 0 && forall n :: callback.answer(n, interval) == interval
  }

  lemma {:induction false} SameInterval(s: Slot, interval: u32, k: nat)
    requires s.Live? && Repeats(s.callback, interval) && s.Interval(0) == interval
    ensures s.Interval(k) == interval && Answers(s, k) == k * interval && s.Lasts(k)
  {
    if k > 0 {
      SameInterval(s, interval, k - 1);
      assert k * interval == (k - 1) * interval + interval;
      forall j | 1 <= j <= k
        ensures s.Interval(j) != 0
      {
        if j < k {
          assert s.Lasts(k - 1);
        }
      }
    }
  }

  lemma {:induction false} NeverFree(s: Slot, interval: u32, n: nat)
    requires s.Live? && s.Valid() && Repeats(s.callback, interval) && s.interval == interval
    ensures s.After(n).Live? && s.After(n).callback == s.callback && s.After(n).interval == interval
  {
    if n > 0 {
      NeverFree(s, interval, n - 1);
    }
  }

  /** It is called on every tick that is a multiple of the interval, and on no other. */
  lemma Periodic(slots: seq<Slot>, events: seq<Event>, i: nat, callback: Callback, interval: u32)
    requires i < |slots| && Starts(slots[i], callback, interval) && slots[i].Valid() && Unregister(i) !in events
    requires Repeats(callback, interval)
    ensures Run(slots, events)[i].Live?
    ensures Run(slots, events)[i].Fires() <==> (Ticks(events) + 1) % interval == 0
  {
    NeverFree(slots[i], interval, Ticks(events));
    Independent(slots, events, i);
    if Run(slots, events)[i].Fires() {
      var k := RegisteredOnlyThen(slots, events, i, callback, interval);
      SameInterval(slots[i], interval, k);
      AfterMultiple(Ticks(events) + 1, interval, k);
    }
    if (Ticks(events) + 1) % interval == 0 {
      var k := Multiple(Ticks(events) + 1, interval);
      SameInterval(slots[i], interval, k);
      RegisteredRuns(slots, events, i, callback, interval, k);
    }
  }

  lemma AfterMultiple(n: nat, interval: nat, k: nat)
    requires interval > 0 && n == interval + k * interval
    ensures n % interval == 0
  {
    MulMod(n, k + 1, interval, 0);
  }

  lemma Multiple(n: nat, interval: nat) returns (k: nat)
    requires n > 0 && interval > 0 && n % interval == 0
    ensures n == interval + k * interval
  {
    var q := n / interval;
    assert n == q * interval;
    assert q > 0;
    k := q - 1;
    assert q * interval == k * interval + interval;
  }

  /** A slot that is free stays so until something is registered. */
  lemma {:induction false} FreeUntilRegistered(slots: seq<Slot>, events: seq<Event>, i: nat)
    requires i < |slots| && slots[i].Free? && forall e | e in events :: !e.Register?
    ensures Run(slots, events)[i].Free?
  {
    if events != [] {
      FreeUntilRegistered(slots, events[..|events| - 1], i);
    }
  }

  function Added(slots: seq<Slot>): nat {
    if slots == [] then 0 else Added(slots[..|slots| - 1]) + slots[|slots| - 1].Adds()
  }

  lemma AddedSoFar(slots: seq<Slot>, i: nat)
    requires i < |slots|
    ensures Added(slots[..i + 1]) == Added(slots[..i]) + slots[i].Adds()
  {
    assert slots[..i + 1][..i] == slots[..i];
  }

  lemma ModAdd(a: nat, b: nat)
    ensures (a % U32 + b) % U32 == (a + b) % U32
  {
  }

  /** One slot holds the tick counter's callback, and no other adds anything. */
  ghost predicate OneClock(slots: seq<Slot>, clock: nat) {
    && clock < |slots| && slots[clock].Live? && slots[clock].callback == INC_TICKS
    && slots[clock].interval == 1 && slots[clock].counter == 0
    && forall i | 0 <= i < |slots| && i != clock :: slots[i].Live? ==> !slots[i].callback.addsTicks
  }

  lemma {:induction false} ClockAddsOne(slots: seq<Slot>, clock: nat)
    requires forall i | 0 <= i < |slots| && i != clock :: slots[i].Adds() == 0
    requires clock < |slots| ==> slots[clock].Adds() == 1
    ensures Added(slots) == if clock < |slots| then 1 else 0
  {
    if slots != [] {
      ClockAddsOne(slots[..|slots| - 1], clock);
    }
  }

  /** Registering other callbacks and unregistering other slots leaves the clock running. */
  lemma ClockRuns(slots: seq<Slot>, clock: nat, e: Event)
    requires OneClock(slots, clock) && Spares(e, clock)
    ensures OneClock(Step(slots, e), clock) && Added(slots) == 1
  {
    ClockAddsOne(slots, clock);
  }

  class Device {
    const callbacks: array<Option<Callback>>
    const intervals: array<u32>
    const counters: array<u32>
    /** How often the callback in a slot has been called: the callbacks' own state. */
    const calls: array<nat>
    var ticks: u32
    var irq0Counter: u32

    constructor ()
      ensures Valid() && Slots() == seq(MAX_TIMERS, _ => Free) && ticks == 0 && irq0Counter == 0
      ensures fresh(callbacks) && fresh(intervals) && fresh(counters) && fresh(calls)
    {
      callbacks := new Option<Callback>[MAX_TIMERS](_ => None);
      intervals := new u32[MAX_TIMERS];
      counters := new u32[MAX_TIMERS];
      calls := new nat[MAX_TIMERS];
      ticks, irq0Counter := 0, 0;
    }

    ghost predicate Wired() {
      && callbacks.Length == intervals.Length == counters.Length == calls.Length == MAX_TIMERS
      && intervals != counters && calls as object !in {intervals as object, counters as object}
      && callbacks as object !in {intervals as object, counters as object, calls as object}
    }

    function SlotAt(i: nat): Slot
      requires Wired() && i < MAX_TIMERS
      reads callbacks, intervals, counters, calls
    {
      match callbacks[i]
      case None => Free
      case Some(callback) => Live(callback, intervals[i], counters[i], calls[i])
    }

    function Slots(): (r: seq<Slot>)
      requires Wired()
      reads callbacks, intervals, counters, calls
      ensures |r| == MAX_TIMERS && forall i | 0 <= i < MAX_TIMERS :: r[i] == SlotAt(i)
    {
      seq(MAX_TIMERS, i requires 0 <= i < MAX_TIMERS reads callbacks, intervals, counters, calls => SlotAt(i))
    }

    ghost predicate Valid()
      reads callbacks, intervals, counters, calls
    {
      Wired() && forall i | 0 <= i < MAX_TIMERS :: SlotAt(i).Valid()
    }

    method RegisterCallback(callback: Callback, interval: u32) returns (id: int)
      requires Valid()
      modifies callbacks, intervals, counters, calls
      ensures Valid() && Slots() == Step(old(Slots()), Register(callback, interval))
      ensures id == -1 <==> forall i | 0 <= i < MAX_TIMERS :: old(SlotAt(i)).Live?
      ensures id != -1 ==> id == FirstFree(old(Slots())) < MAX_TIMERS
      ensures id != -1 ==>
        && old(SlotAt(id)).Free? && (forall i | 0 <= i < id :: old(SlotAt(i)).Live?)
        && Starts(SlotAt(id), callback, interval)
      ensures forall i | 0 <= i < MAX_TIMERS && i != id :: SlotAt(i) == old(SlotAt(i))
    {
      for i := 0 to MAX_TIMERS
        invariant forall j | 0 <= j < i :: SlotAt(j).Live?
      {
        if callbacks[i] == None {
          ghost var was := Slots();
          FirstFreeIs(was, i);
          callbacks[i], intervals[i], counters[i], calls[i] := Some(callback), interval, 0, 0;
          assert SlotAt(i).Valid() && forall j | 0 <= j < MAX_TIMERS && j != i :: SlotAt(j) == old(SlotAt(j));
          return i;
        }
      }
      return -1;
    }

    /** Ids from 8 to 255 pass the source's range check, but name no slot. */
    method UnregisterCallback(id: int) returns (ok: bool)
      requires Valid() && !(MAX_TIMERS <= id < 256)
      modifies callbacks
      ensures Valid() && Slots() == Step(old(Slots()), Unregister(id)) && ok == (0 <= id < MAX_TIMERS)
      ensures forall i | 0 <= i < MAX_TIMERS :: SlotAt(i) == if i == id then Free else old(SlotAt(i))
    {
      if id < 0 || id >= 256 {
        return false;
      }
      callbacks[id] := None;
      assert SlotAt(id).Valid() && forall j | 0 <= j < MAX_TIMERS && j != id :: SlotAt(j) == old(SlotAt(j));
      return true;
    }

    /** One slot of check_timer_callbacks. */
    method CheckSlot(i: nat)
      requires Valid() && i < MAX_TIMERS
      modifies callbacks, intervals, counters, calls, this`irq0Counter
      ensures Valid() && SlotAt(i) == old(SlotAt(i)).Ticked()
      ensures forall j | 0 <= j < MAX_TIMERS && j != i :: SlotAt(j) == old(SlotAt(j))
      ensures irq0Counter == (old(irq0Counter) + old(SlotAt(i)).Adds()) % U32
      ensures var s := old(SlotAt(i));
        irq0Counter == (old(irq0Counter) +
          if s.Live? && s.callback.addsTicks && s.counter + 1 >= s.interval then s.interval else 0) % U32
    {
      if callbacks[i] != None {
        counters[i] := (counters[i] + 1) % U32;
        if counters[i] >= intervals[i] {
          var callback := callbacks[i].value;
          var next := callback.answer(calls[i], intervals[i]);
          if callback.addsTicks {
            irq0Counter := (irq0Counter + intervals[i]) % U32;
          }
          calls[i] := calls[i] + 1;
          if next == 0 {
            callbacks[i] := None;
          } else {
            intervals[i], counters[i] := next, 0;
          }
        }
      }
      assert SlotAt(i) == old(SlotAt(i)).Ticked() && SlotAt(i).Valid();
      forall j | 0 <= j < MAX_TIMERS && j != i
        ensures SlotAt(j) == old(SlotAt(j)) && SlotAt(j).Valid()
      {
        assert old(SlotAt(j)).Valid();
      }
    }

    /** The first `i` slots have had their tick. */
    ghost predicate TickedTo(was: seq<Slot>, start: u32, i: nat)
      requires Valid() && |was| == MAX_TIMERS && i <= MAX_TIMERS
      reads this, callbacks, intervals, counters, calls
    {
      && (forall j | 0 <= j < MAX_TIMERS :: SlotAt(j) == if j < i then was[j].Ticked() else was[j])
      && irq0Counter == (start + Added(was[..i])) % U32
    }

    method CheckNext(i: nat, ghost was: seq<Slot>, ghost start: u32)
      requires Valid() && |was| == MAX_TIMERS && i < MAX_TIMERS && TickedTo(was, start, i)
      modifies callbacks, intervals, counters, calls, this`irq0Counter
      ensures Valid() && TickedTo(was, start, i + 1)
    {
      AddedSoFar(was, i);
      ModAdd(start + Added(was[..i]), was[i].Adds());
      CheckSlot(i);
    }

    method HandleTimer()
      requires Valid()
      modifies this, callbacks, intervals, counters, calls
      ensures Valid() && Slots() == Step(old(Slots()), Tick)
      ensures ticks == (old(ticks) + 1) % U32
      ensures irq0Counter == (old(irq0Counter) + Added(old(Slots()))) % U32
    {
      ghost var was, start := Slots(), irq0Counter;
      ticks := (ticks + 1) % U32;
      for i := 0 to MAX_TIMERS
        invariant Valid() && ticks == (old(ticks) + 1) % U32 && TickedTo(was, start, i)
      {
        CheckNext(i, was, start);
      }
      assert was[..MAX_TIMERS] == was;
    }

    method Perform(e: Event)
      requires Valid() && (e.Unregister? ==> !(MAX_TIMERS <= e.id < 256))
      modifies this, callbacks, intervals, counters, calls
      ensures Valid() && Slots() == Step(old(Slots()), e)
      ensures if e.Tick? then
          ticks == (old(ticks) + 1) % U32 && irq0Counter == (old(irq0Counter) + Added(old(Slots()))) % U32
        else
          ticks == old(ticks) && irq0Counter == old(irq0Counter)
    {
      match e
      case Tick => HandleTimer();
      case Register(callback, interval) => var _ := RegisterCallback(callback, interval);
      case Unregister(id) => var _ := UnregisterCallback(id);
    }

    method PerformAll(events: seq<Event>)
      requires Valid() && forall e | e in events && e.Unregister? :: !(MAX_TIMERS <= e.id < 256)
      modifies this, callbacks, intervals, counters, calls
      ensures Valid() && Slots() == Run(old(Slots()), events)
    {
      for n := 0 to |events|
        invariant Valid() && Slots() == Run(old(Slots()), events[..n])
      {
        assert events[..n + 1][..n] == events[..n];
        Perform(events[n]);
      }
      assert events[..|events|] == events;
    }

    /** A callback that answers with its interval is called on each multiple of it, counted in ticks
        from the registration on, whatever else happens before it is unregistered. */
    method RegisterThenRun(callback: Callback, interval: u32, events: seq<Event>) returns (id: int)
      requires Valid() && forall e | e in events && e.Unregister? :: !(MAX_TIMERS <= e.id < 256)
      modifies this, callbacks, intervals, counters, calls
      ensures Valid() && -1 <= id < MAX_TIMERS && (id == -1 <==> forall i | 0 <= i < MAX_TIMERS :: old(SlotAt(i)).Live?)
      ensures id != -1 && Unregister(id) !in events && Repeats(callback, interval) ==>
        SlotAt(id).Live? && (SlotAt(id).Fires() <==> (Ticks(events) + 1) % interval == 0)
    {
      id := RegisterCallback(callback, interval);
      ghost var slots := Slots();
      PerformAll(events);
      if id != -1 && Unregister(id) !in events && Repeats(callback, interval) {
        Periodic(slots, events, id, callback, interval);
      }
    }

    /** ... beside the clock. */
    method PerformBeside(e: Event, ghost clock: nat)
      requires Valid() && OneClock(Slots(), clock) && Spares(e, clock)
      modifies this, callbacks, intervals, counters, calls
      ensures Valid() && OneClock(Slots(), clock) && Slots() == Step(old(Slots()), e)
      ensures (irq0Counter - ticks) % U32 == old((irq0Counter - ticks) % U32)
    {
      ClockRuns(Slots(), clock, e);
      SameDistance(irq0Counter, ticks);
      Perform(e);
    }

    /** Once the callback of main is registered with interval 1, the tick counter of the BIOS data
        area keeps its distance from the timer's own, whatever else happens. */
    method Execute(events: seq<Event>, ghost clock: nat)
      requires Valid() && OneClock(Slots(), clock)
      requires forall e | e in events :: Spares(e, clock)
      modifies this, callbacks, intervals, counters, calls
      ensures Valid() && Slots() == Run(old(Slots()), events)
      ensures (irq0Counter - ticks) % U32 == old((irq0Counter - ticks) % U32)
    {
      for n := 0 to |events|
        invariant Valid() && OneClock(Slots(), clock) && Slots() == Run(old(Slots()), events[..n])
        invariant (irq0Counter - ticks) % U32 == old((irq0Counter - ticks) % U32)
      {
        assert events[..n + 1][..n] == events[..n];
        PerformBeside(events[n], clock);
      }
      assert events[..|events|] == events;
    }
  }

  /** The start-up of main: the tick counter's callback is registered on a new timer. */
  method StartClock() returns (timer: Device)
    ensures fresh(timer) && fresh(timer.callbacks) && fresh(timer.intervals)
    ensures fresh(timer.counters) && fresh(timer.calls)
    ensures timer.Valid() && OneClock(timer.Slots(), 0) && timer.ticks == 0 && timer.irq0Counter == 0
  {
    timer := new Device();
    FirstFreeIs(timer.Slots(), 0);
    var id := timer.RegisterCallback(INC_TICKS, 1);
  }

  /** From start-up on the two counters are equal, whatever other callbacks come and go. */
  method RunFromStart(events: seq<Event>) returns (timer: Device)
    requires forall e | e in events :: Spares(e, 0)
    ensures timer.Wired() && timer.irq0Counter == timer.ticks
  {
    timer := StartClock();
    timer.Execute(events, 0);
    SameCounters(timer.irq0Counter, timer.ticks);
  }

  lemma SameCounters(a: u32, b: u32)
    requires (a - b) % U32 == 0
    ensures a == b
  {
  }

  /** The event neither removes the clock nor adds a second one. */
  predicate Spares(e: Event, clock: nat) {
    match e
    case Tick => true
    case Register(callback, _) => !callback.addsTicks
    case Unregister(id) => id != clock && !(MAX_TIMERS <= id < 256)
  }

  lemma SameDistance(a: u32, b: u32)
    ensures ((a + 1) % U32 - (b + 1) % U32) % U32 == (a - b) % U32
  {
  }
}
