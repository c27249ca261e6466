/** What users of the timing wheel rely on: whole runs, repeating timers, idle connections, and
    the wall clock. */
module Timers {
  import opened DueTrace
  import opened Wheel
  import Coupling
  import opened Book
  import opened TimingWheel

  // ----- whole runs

  datatype Step = Call(now: int) | Request(command: Command)

  predicate SensibleStep(step: Step) {
    step.Request? ==> Sensible(step.command)
  }

  /** The deadline map run on its own: timer calls and requests, with the order in which each call
      destroyed the entries of its slot. */
  function RunOf(b: Book, c: Clock, steps: seq<Step>, orders: seq<seq<nat>>, script: nat -> seq<Command>)
    : (Book, Clock)
    requires |orders| == |steps|
  {
    if steps == [] then (b, c)
    else
      var n := |steps| - 1;
      var (b', c') := RunOf(b, c, steps[..n], orders[..n], script);
      StepOf(b', c', steps[n], orders[n], script)
  }

  /** The deadline map after one more step. */
  function StepOf(b: Book, c: Clock, step: Step, order: seq<nat>, script: nat -> seq<Command>): (Book, Clock) {
    match step
    case Call(now) => (Drained(b, order, script, Advanced(c, now).tick, true), Advanced(c, now))
    case Request(command) => (Performed(b, command, c.tick, false), c)
  }

  lemma {:induction false} RunNext(b: Book, c: Clock, steps: seq<Step>, i: nat, orders: seq<seq<nat>>, order: seq<nat>,
      script: nat -> seq<Command>)
    requires |orders| == i < |steps|
    ensures var (b', c') := RunOf(b, c, steps[..i], orders, script);
            RunOf(b, c, steps[..i + 1], orders + [order], script) == StepOf(b', c', steps[i], order, script)
  {
    assert steps[..i + 1][..i] == steps[..i] && (orders + [order])[..i] == orders;
  }

  /** Any run of the wheel is a run of the deadline map. */
  method Run(wheel: TimingWheel, steps: seq<Step>) returns (ghost orders: seq<seq<nat>>)
    requires wheel.Quiescent() && forall i :: 0 <= i < |steps| ==> SensibleStep(steps[i])
    modifies wheel
    ensures wheel.Quiescent() && NothingOverdue(wheel.book.history, wheel.tick)
    ensures |orders| == |steps|
    ensures (wheel.book, Clock(wheel.lastTs, wheel.tick)) ==
            RunOf(old(wheel.book), Clock(old(wheel.lastTs), old(wheel.tick)), steps, orders, wheel.script)
  {
    orders := [];
    ghost var b, c := wheel.book, Clock(wheel.lastTs, wheel.tick);
    for i := 0 to |steps|
      invariant wheel.Quiescent() && |orders| == i
      invariant (wheel.book, Clock(wheel.lastTs, wheel.tick)) == RunOf(b, c, steps[..i], orders, wheel.script)
    {
      ghost var order := Take(wheel, steps[i]);
      RunNext(b, c, steps, i, orders, order, wheel.script);
      orders := orders + [order];
    }
    Coupling.QuiescentNothingOverdue(wheel.Now(), wheel.book.history);
    assert steps[..|steps|] == steps;
  }

  method Take(wheel: TimingWheel, step: Step) returns (ghost order: seq<nat>)
    requires wheel.Quiescent() && SensibleStep(step)
    modifies wheel
    ensures wheel.Quiescent()
    ensures (wheel.book, Clock(wheel.lastTs, wheel.tick)) ==
            StepOf(old(wheel.book), Clock(old(wheel.lastTs), old(wheel.tick)), step, order, wheel.script)
  {
    order := [];
    match step {
      case Call(now) => order := wheel.OnTimer(now);
      case Request(command) => Request(wheel, command);
    }
  }

  method Request(wheel: TimingWheel, c: Command)
    requires wheel.Quiescent() && Sensible(c)
    modifies wheel`wheels, wheel`nextSerial, wheel`book
    ensures wheel.Quiescent() && wheel.book == Performed(old(wheel.book), c, wheel.tick, false)
  {
    wheel.Perform(c);
  }

  /** Between ticks, whatever happened before, an entry has been released exactly when the latest
      due tick of its insertions has passed; and it is still held by the wheel otherwise. */
  lemma WheelKeepsItsPromise(s: Snapshot, b: Book, id: nat)
    requires Consistent(s, b) && s.dropping == {}
    requires exists k :: 0 <= k < |b.history| && Inserts(b.history[k], id)
    ensures (exists k :: 0 <= k < |b.history| && Releases(b.history[k], id)) <==>
            (forall k :: 0 <= k < |b.history| && Inserts(b.history[k], id) ==>
               Past(EventDue(b.history[k]), s.tick))
    ensures Held(s, id) <==> !exists k :: 0 <= k < |b.history| && Releases(b.history[k], id)
  {
    Coupling.QuiescentNothingOverdue(s, b.history);
    TicksAscend(b.history, |b.history|);
    GoneExactlyWhenPast(b.history, s.tick, id);
    Coupling.HeldIffLive(s, b.history, id);
    GoneMeansReleased(b.history, id);
    UnknownMeansUnseen(b.history, id);
  }

  lemma {:induction false} TicksAscend(h: seq<Event>, n: nat)
    requires Faithful(h) && n <= |h|
    ensures forall j, k :: 0 <= j <= k < n ==> h[j].tick <= h[k].tick
  {
    if n > 0 {
      TicksAscend(h, n - 1);
      FaithfulPrefix(h, n - 1);
      assert n > 1 ==> h[..n - 1][n - 2] == h[n - 2];
    }
  }

  // ----- slots

  /** Every slot index is in range exactly for delays that are not zero and, below an hour, not
      whole minutes. */
  lemma SlotsInRangeIff(delay: nat)
    ensures (forall i :: 0 <= i < |SlotsReached(delay)| ==> InRange(SlotsReached(delay)[i]))
            <==> Admissible(delay) || delay / DAY > 30
  {
    var slots := SlotsReached(delay);
    if delay == 0 {
      assert slots[0].1 == -1;
    } else if MINUTE <= delay < HOUR && delay % MINUTE == 0 {
      assert slots[1].1 == -1;
    }
  }

  // ----- repeating timers

  /** Between ticks a repeating timer has fired at exactly those of its rounds that have come. */
  lemma TimerFiredAtItsRounds(s: Snapshot, b: Book, j: nat, k: nat)
    requires Consistent(s, b) && s.dropping == {} && b.rearming == -1 && j < |b.timers|
    ensures var t := b.timers[j];
            (k < |t.fired| <==> t.interval < HOUR && t.first + k * Period(t.interval) <= s.tick) &&
            (k < |t.fired| ==> t.fired[k] == t.first + k * Period(t.interval))
  {
    var t := b.timers[j];
    assert Armed(b, j) && OnSchedule(t, s.tick);
    Coupling.QuiescentNothingOverdue(s, b.history);
    assert !Past(RoundDue(t, |t.fired|), s.tick);
    RoundClosedForm(t.first, t.interval, k);
    if k < |t.fired| {
      RoundsGrow(t.first, t.interval, k, |t.fired| - 1);
    } else {
      RoundsGrow(t.first, t.interval, |t.fired|, k);
    }
  }

  lemma {:induction false} RoundClosedForm(first: nat, interval: nat, k: nat)
    ensures Round(first, interval, k) == first + k * Period(interval)
  {
    if k > 0 {
      RoundClosedForm(first, interval, k - 1);
    }
  }

  lemma {:induction false} RoundsGrow(first: nat, interval: nat, a: nat, b: nat)
    requires a <= b
    ensures Round(first, interval, a) <= Round(first, interval, b)
  {
    if a < b {
      RoundsGrow(first, interval, a, b - 1);
    }
  }

  // ----- idle connections

  ghost predicate IdleLimited(h: seq<Event>, id: nat, limit: nat) {
    forall k :: 0 <= k < |h| && Inserts(h[k], id) ==> h[k].delay == limit
  }

  /** A connection whose idle limit is below a minute is timed out exactly that many ticks after
      its last activity, and never while it was active within the limit. */
  lemma TimedOutAfterLastActivity(h: seq<Event>, id: nat, limit: nat, r: nat)
    requires Faithful(h) && 0 < limit < MINUTE && IdleLimited(h, id, limit)
    requires r < |h| && Releases(h[r], id)
    ensures exists k :: 0 <= k < r && Inserts(h[k], id) && h[r].tick == h[k].tick + limit
    ensures forall k :: 0 <= k < |h| && Inserts(h[k], id) ==> h[k].tick + limit <= h[r].tick
  {
    ReleasedOnceAtTheMaximum(h, r);
    var k :| 0 <= k < r && Inserts(h[k], id) && EventDue(h[k]) == At(h[r].tick);
    assert EventDue(h[k]) == At(h[k].tick + limit);
    forall j | 0 <= j < |h| && Inserts(h[j], id)
      ensures h[j].tick + limit <= h[r].tick
    {
      assert j != r && h[j].id == h[r].id;
      assert NoLater(EventDue(h[j]), At(h[r].tick));
    }
  }

  /** Between ticks it has been timed out exactly when the limit has passed since every activity, as the
      wheel rounds limits of a minute or more. */
  lemma TimedOutIffIdle(h: seq<Event>, now: nat, id: nat, limit: nat)
    requires Faithful(h) && NothingOverdue(h, now) && IdleLimited(h, id, limit)
    requires forall k :: 0 <= k < |h| ==> h[k].tick <= now
    requires exists k :: 0 <= k < |h| && Inserts(h[k], id)
    ensures (exists r :: 0 <= r < |h| && Releases(h[r], id)) <==>
            (forall k :: 0 <= k < |h| && Inserts(h[k], id) ==> Past(DueOf(limit, h[k].tick, h[k].popping), now))
  {
    GoneExactlyWhenPast(h, now, id);
    assert forall k :: 0 <= k < |h| && Inserts(h[k], id) ==> EventDue(h[k]) == DueOf(limit, h[k].tick, h[k].popping);
  }

  /** The connection's side: the entry is held weakly and inserted again on every activity. */
  class IdleConnection {
    const wheel: TimingWheel
    var maxIdleTime: nat
    var timeoutEntry: nat

    ghost predicate Valid()
      reads this, wheel
    {
      wheel.Sound() && Admissible(maxIdleTime) && Known(wheel.book, timeoutEntry)
    }

    constructor EnableCheckIdleTimeout(wheel: TimingWheel, maxTime: nat)
      requires wheel.Sound() && Admissible(maxTime)
      modifies wheel`wheels, wheel`nextSerial, wheel`book
      ensures this.wheel == wheel && Valid() && maxIdleTime == maxTime
      ensures timeoutEntry == old(wheel.book.nextId)
      ensures wheel.book == Performed(old(wheel.book), After(maxTime), wheel.tick, wheel.popping)
    {
      this.wheel := wheel;
      maxIdleTime := maxTime;
      timeoutEntry := wheel.book.nextId;
      new;
      NotedStatus(wheel.book, Inserted(wheel.book.nextId, maxTime, wheel.tick, wheel.popping));
      wheel.RunAfter(maxTime);
    }

    /** Activity counts until the connection has been timed out, and not afterwards. */
    method ExtendLife()
      requires Valid()
      modifies wheel`wheels, wheel`nextSerial, wheel`book
      ensures Valid()
      ensures wheel.book ==
              if exists r :: 0 <= r < |old(wheel.book).history| && Releases(old(wheel.book).history[r], timeoutEntry)
              then old(wheel.book)
              else Noted(old(wheel.book), timeoutEntry, maxIdleTime, wheel.tick, wheel.popping)
    {
      GoneMeansReleased(wheel.book.history, timeoutEntry);
      NotedStatus(wheel.book, Inserted(timeoutEntry, maxIdleTime, wheel.tick, wheel.popping));
      wheel.ExtendLife(timeoutEntry, maxIdleTime);
    }
  }

  ghost predicate Known(b: Book, id: nat) {
    id in b.callbacks && b.callbacks[id].Plain? && !Status(b.history, id).Unknown?
  }

  // ----- the wall clock

  function Clocked(c: Clock, calls: seq<int>): Clock {
    if calls == [] then c else Advanced(Clocked(c, calls[..|calls| - 1]), calls[|calls| - 1])
  }

  predicate Ascending(from: int, calls: seq<int>) {
    (forall i :: 0 <= i < |calls| ==> from <= calls[i]) &&
    forall i, j :: 0 <= i <= j < |calls| ==> calls[i] <= calls[j]
  }

  function Gap(previous: int, calls: seq<int>, i: nat): int
    requires i < |calls|
  {
    calls[i] - if i == 0 then previous else calls[i - 1]
  }

  predicate GapsAtMost(gap: nat, previous: int, calls: seq<int>) {
    forall i :: 0 <= i < |calls| ==> Gap(previous, calls, i) <= gap
  }

  /** The n-th tick after time `x` comes no earlier than n - 1 seconds later. */
  lemma {:induction false} TicksNotEarly(c: Clock, x: int, calls: seq<int>)
    requires 0 < c.lastTs <= x && Ascending(x, calls)
    ensures var c' := Clocked(c, calls);
            c.tick <= c'.tick && c.lastTs <= c'.lastTs &&
            (c'.tick == c.tick ==> c'.lastTs == c.lastTs) &&
            (c.tick < c'.tick ==> x + 1000 * (c'.tick - c.tick - 1) <= c'.lastTs)
    ensures calls != [] ==> Clocked(c, calls).lastTs <= calls[|calls| - 1]
  {
    if calls != [] {
      var before := calls[..|calls| - 1];
      TicksNotEarly(c, x, before);
    }
  }

  lemma GapsBefore(gap: nat, previous: int, calls: seq<int>)
    requires calls != [] && GapsAtMost(gap, previous, calls)
    ensures GapsAtMost(gap, previous, calls[..|calls| - 1])
  {
    var before := calls[..|calls| - 1];
    forall i | 0 <= i < |before|
      ensures Gap(previous, before, i) <= gap
    {
      assert Gap(previous, before, i) == Gap(previous, calls, i);
    }
  }

  /** The n-th tick comes at most n times a second plus one gap after the tick before. */
  lemma {:induction false} TicksNotLate(c: Clock, previous: int, gap: nat, calls: seq<int>)
    requires 0 < c.lastTs <= previous < c.lastTs + 1000
    requires Ascending(previous, calls) && GapsAtMost(gap, previous, calls)
    ensures var c' := Clocked(c, calls); var last := if calls == [] then previous else calls[|calls| - 1];
            c.tick <= c'.tick && 0 < c'.lastTs <= last < c'.lastTs + 1000 &&
            c'.lastTs <= c.lastTs + (c'.tick - c.tick) * (1000 + gap)
  {
    if calls != [] {
      var before := calls[..|calls| - 1];
      GapsBefore(gap, previous, calls);
      TicksNotLate(c, previous, gap, before);
      assert Gap(previous, calls, |calls| - 1) <= gap;
      var b := Clocked(c, before);
      assert (b.tick + 1 - c.tick) * (1000 + gap) == (b.tick - c.tick) * (1000 + gap) + (1000 + gap);
    }
  }

  /** A timer of `delay` ticks set at time `x` does not fire before `delay - 1` seconds have gone by. */
  lemma FiresNotEarly(c: Clock, x: int, calls: seq<int>, delay: nat)
    requires 0 < c.lastTs <= x && 0 < delay < MINUTE && calls != [] && Ascending(x, calls)
    requires Past(DueOf(delay, c.tick, false), Clocked(c, calls).tick)
    ensures x + 1000 * (delay - 1) <= calls[|calls| - 1]
  {
    TicksNotEarly(c, x, calls);
  }

  /** With calls at most `gap` apart it has fired `delay` times a second and a gap later. */
  lemma FiresNotLate(c: Clock, previous: int, x: int, gap: nat, calls: seq<int>, delay: nat)
    requires 0 < c.lastTs <= previous < c.lastTs + 1000 && previous <= x && 0 < delay < MINUTE && calls != []
    requires Ascending(x, calls) && GapsAtMost(gap, previous, calls)
    requires x + delay * (1000 + gap) <= calls[|calls| - 1]
    ensures Past(DueOf(delay, c.tick, false), Clocked(c, calls).tick)
  {
    TicksNotLate(c, previous, gap, calls);
    var n := Clocked(c, calls).tick - c.tick;
    if n < delay {
      FewTicks(n, delay, 1000 + gap);
    }
  }

  // ----- before the first call, which only starts the clock

  /** The n-th tick comes no earlier than n seconds after the first call. */
  lemma {:induction false} TicksFromStart(c: Clock, calls: seq<int>)
    requires c.lastTs == 0 && calls != [] && Ascending(1, calls)
    ensures var c' := Clocked(c, calls);
            c.tick <= c'.tick && calls[0] + 1000 * (c'.tick - c.tick) <= c'.lastTs <= calls[|calls| - 1]
  {
    if |calls| > 1 {
      TicksFromStart(c, calls[..|calls| - 1]);
    } else {
      assert Clocked(c, calls[..0]) == c;
    }
  }

  /** And at most n times a second plus one gap after it. */
  lemma {:induction false} TicksFromStartNotLate(c: Clock, gap: nat, calls: seq<int>)
    requires c.lastTs == 0 && calls != [] && Ascending(1, calls) && GapsAtMost(gap, calls[0], calls)
    ensures var c' := Clocked(c, calls);
            c.tick <= c'.tick && calls[|calls| - 1] < c'.lastTs + 1000 &&
            c'.lastTs <= calls[0] + (c'.tick - c.tick) * (1000 + gap)
  {
    TicksFromStart(c, calls);
    var before := calls[..|calls| - 1];
    if before == [] {
      assert Clocked(c, before) == c;
    } else {
      GapsBefore(gap, calls[0], calls);
      TicksFromStart(c, before);
      TicksFromStartNotLate(c, gap, before);
      assert Gap(calls[0], calls, |calls| - 1) <= gap;
      var b := Clocked(c, before);
      assert (b.tick + 1 - c.tick) * (1000 + gap) == (b.tick - c.tick) * (1000 + gap) + (1000 + gap);
    }
  }

  /** A timer of `delay` ticks set before the first call does not fire before `delay` seconds have gone by from
      that call on. */
  lemma FiresNotEarlyFromStart(c: Clock, calls: seq<int>, delay: nat)
    requires c.lastTs == 0 && 0 < delay < MINUTE && calls != [] && Ascending(1, calls)
    requires Past(DueOf(delay, c.tick, false), Clocked(c, calls).tick)
    ensures calls[0] + 1000 * delay <= calls[|calls| - 1]
  {
    TicksFromStart(c, calls);
  }

  lemma FiresNotLateFromStart(c: Clock, gap: nat, calls: seq<int>, delay: nat)
    requires c.lastTs == 0 && 0 < delay < MINUTE && calls != [] && Ascending(1, calls)
    requires GapsAtMost(gap, calls[0], calls) && calls[0] + delay * (1000 + gap) <= calls[|calls| - 1]
    ensures Past(DueOf(delay, c.tick, false), Clocked(c, calls).tick)
  {
    TicksFromStartNotLate(c, gap, calls);
    var n := Clocked(c, calls).tick - c.tick;
    if n < delay {
      FewTicks(n, delay, 1000 + gap);
    }
  }

  lemma {:induction false} FewTicks(n: nat, delay: nat, longest: nat)
    requires n < delay
    ensures n * longest + longest <= delay * longest
    decreases delay
  {
    assert delay * longest == (delay - 1) * longest + longest;
    if n < delay - 1 {
      FewTicks(n, delay - 1, longest);
    }
  }
}
