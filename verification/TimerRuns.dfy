/** What a timer, a repeating timer and an idle connection do over whole runs of the wheel. */
module TimerRuns {
  import opened DueTrace
  import Wheel
  import opened Book
  import opened TimingWheel
  import opened Timers

  // ----- what a run keeps

  /** The timer calls of a run. */
  function CallsOf(steps: seq<Step>): seq<int> {
    if steps == [] then []
    else
      var before := CallsOf(steps[..|steps| - 1]);
      var last := steps[|steps| - 1];
      if last.Call? then before + [last.now] else before
  }

  /** Only the calls move the clock. */
  lemma {:induction false} RunClock(b: Book, c: Clock, steps: seq<Step>, orders: seq<seq<nat>>,
      script: nat -> seq<Command>)
    requires |orders| == |steps|
    ensures RunOf(b, c, steps, orders, script).1 == Clocked(c, CallsOf(steps))
  {
    if steps != [] {
      var n := |steps| - 1;
      RunClock(b, c, steps[..n], orders[..n], script);
      if steps[n].Call? {
        var calls := CallsOf(steps);
        assert calls[..|calls| - 1] == CallsOf(steps[..n]);
      }
    }
  }

  /** No run takes back what is on record, or changes the schedule of a timer. */
  ghost predicate Kept(b: Book, b': Book) {
    b'.rearming == -1 && Onward(b, b')
  }

  lemma PerformedKept(b: Book, c: Command, now: nat, popping: bool)
    requires b.rearming == -1
    ensures Kept(b, Performed(b, c, now, popping))
  {
  }

  lemma {:induction false} RunKeeps(b: Book, c: Clock, steps: seq<Step>, orders: seq<seq<nat>>,
      script: nat -> seq<Command>)
    requires |orders| == |steps| && b.rearming == -1
    ensures Kept(b, RunOf(b, c, steps, orders, script).0)
  {
    if steps != [] {
      var n := |steps| - 1;
      var (b1, c1) := RunOf(b, c, steps[..n], orders[..n], script);
      RunKeeps(b, c, steps[..n], orders[..n], script);
      match steps[n] {
        case Call(now) => DrainedKeeps(b1, orders[n], script, Advanced(c1, now).tick, true);
        case Request(command) => PerformedKept(b1, command, c1.tick, false);
      }
      OnwardThrough(b, b1, RunOf(b, c, steps, orders, script).0);
    }
  }

  /** A state that a run has led to. */
  ghost predicate Reachable(b: Book, c: Clock, steps: seq<Step>, orders: seq<seq<nat>>, script: nat -> seq<Command>,
                            s: Wheel.Snapshot, b': Book) {
    |orders| == |steps| && RunOf(b, c, steps, orders, script).0 == b' &&
    RunOf(b, c, steps, orders, script).1.tick == s.tick && Consistent(s, b') && s.dropping == {}
  }

  ghost predicate HasFired(h: seq<Event>, id: nat) {
    exists r :: 0 <= r < |h| && Releases(h[r], id)
  }

  // ----- one-shot timers

  /** The `k`-th event was an insertion of the entry at this tick. */
  ghost predicate SetAt(b: Book, k: nat, id: nat, delay: nat, tick: nat, popping: bool) {
    k < |b.history| && b.history[k] == Inserted(id, delay, tick, popping)
  }

  /** Set at time `x`, between ticks or by a callback, it has not fired in any run that ends sooner than
      `delay - 1` seconds later, however often it is extended. */
  lemma {:induction false} TimerNotEarly(b: Book, c: Clock, steps: seq<Step>, orders: seq<seq<nat>>,
      script: nat -> seq<Command>, s: Wheel.Snapshot, b': Book, k: nat, id: nat, delay: nat, popping: bool, x: int)
    requires Reachable(b, c, steps, orders, script, s, b') && b.rearming == -1
    requires SetAt(b, k, id, delay, c.tick, popping) && 0 < delay < MINUTE
    requires 0 < c.lastTs <= x && Ascending(x, CallsOf(steps))
    requires HasFired(b'.history, id)
    ensures CallsOf(steps) != [] && x + 1000 * (delay - 1) <= CallsOf(steps)[|CallsOf(steps)| - 1]
  {
    var calls := CallsOf(steps);
    RunKeeps(b, c, steps, orders, script);
    RunClock(b, c, steps, orders, script);
    assert b'.history[k] == b.history[k] && Inserts(b'.history[k], id);
    WheelKeepsItsPromise(s, b', id);
    assert Past(EventDue(b'.history[k]), s.tick);
    if calls != [] {
      FiresNotEarly(c, x, calls, delay);
    }
  }

  /** Set at time `x` and not extended, it has fired in every run that reaches `delay` times a second and a
      gap later, when consecutive calls are at most `gap` apart. */
  lemma {:induction false} TimerNotLate(b: Book, c: Clock, steps: seq<Step>, orders: seq<seq<nat>>,
      script: nat -> seq<Command>, s: Wheel.Snapshot, b': Book, k: nat, id: nat, delay: nat, popping: bool,
      previous: int, x: int, gap: nat)
    requires Reachable(b, c, steps, orders, script, s, b') && b.rearming == -1
    requires SetAt(b, k, id, delay, c.tick, popping) && 0 < delay < MINUTE && OnlyInsertion(b'.history, id, k)
    requires 0 < c.lastTs <= previous < c.lastTs + 1000 && previous <= x
    requires var calls := CallsOf(steps);
             calls != [] && Ascending(x, calls) && GapsAtMost(gap, previous, calls) &&
             x + delay * (1000 + gap) <= calls[|calls| - 1]
    ensures HasFired(b'.history, id)
  {
    RunKeeps(b, c, steps, orders, script);
    RunClock(b, c, steps, orders, script);
    assert b'.history[k] == b.history[k] && Inserts(b'.history[k], id);
    WheelKeepsItsPromise(s, b', id);
    FiresNotLate(c, previous, x, gap, CallsOf(steps), delay);
  }

  /** Set before the timer is called for the first time, it has fired only if the last call came `delay` seconds
      after the first one or later; and, not extended, it has fired in every run that reaches `delay` times a second
      and a gap after it. */
  lemma {:induction false} TimerFromStart(b: Book, c: Clock, steps: seq<Step>, orders: seq<seq<nat>>,
      script: nat -> seq<Command>, s: Wheel.Snapshot, b': Book, k: nat, id: nat, delay: nat, popping: bool, gap: nat)
    requires Reachable(b, c, steps, orders, script, s, b') && b.rearming == -1
    requires SetAt(b, k, id, delay, c.tick, popping) && 0 < delay < MINUTE
    requires c.lastTs == 0 && Ascending(1, CallsOf(steps))
    ensures var calls := CallsOf(steps);
            (HasFired(b'.history, id) ==> calls != [] && calls[0] + 1000 * delay <= calls[|calls| - 1]) &&
            (calls != [] && GapsAtMost(gap, calls[0], calls) && OnlyInsertion(b'.history, id, k) &&
             calls[0] + delay * (1000 + gap) <= calls[|calls| - 1] ==>
               HasFired(b'.history, id))
  {
    var calls := CallsOf(steps);
    RunKeeps(b, c, steps, orders, script);
    RunClock(b, c, steps, orders, script);
    assert b'.history[k] == b.history[k] && Inserts(b'.history[k], id);
    WheelKeepsItsPromise(s, b', id);
    if HasFired(b'.history, id) {
      assert Past(EventDue(b'.history[k]), s.tick);
      if calls != [] {
        FiresNotEarlyFromStart(c, calls, delay);
      }
    } else if calls != [] && GapsAtMost(gap, calls[0], calls) && OnlyInsertion(b'.history, id, k) &&
              calls[0] + delay * (1000 + gap) <= calls[|calls| - 1] {
      FiresNotLateFromStart(c, gap, calls, delay);
    }
  }

  predicate OnlyInsertion(h: seq<Event>, id: nat, k: nat) {
    forall i :: 0 <= i < |h| && Inserts(h[i], id) ==> i == k
  }

  /** A timer that a callback sets in the middle of a tick, at time `x`, over the rest of that tick and any
      run after it: neither early nor, unless it is extended, late. */
  lemma {:induction false} CallbackTimerOnTime(b: Book, order: seq<nat>, m: nat, n: nat, script: nat -> seq<Command>,
      c: Clock, steps: seq<Step>, orders: seq<seq<nat>>, s: Wheel.Snapshot, b': Book, previous: int, x: int, gap: nat)
    requires b.rearming == -1 && m < |order| && n < |script(order[m])|
    requires Status(Drained(b, order[..m], script, c.tick, true).history, order[m]) == Live(At(c.tick))
    requires script(order[m])[n].After? && 0 < script(order[m])[n].delay < MINUTE
    requires Reachable(Drained(b, order, script, c.tick, true), c, steps, orders, script, s, b')
    requires 0 < c.lastTs <= previous < c.lastTs + 1000 && previous <= x && Ascending(x, CallsOf(steps))
    ensures var midway := Midway(b, order, m, n, script, c.tick, true);
            var delay := script(order[m])[n].delay;
            var calls := CallsOf(steps);
            (HasFired(b'.history, midway.nextId) ==>
               calls != [] && x + 1000 * (delay - 1) <= calls[|calls| - 1]) &&
            (calls != [] && GapsAtMost(gap, previous, calls) && x + delay * (1000 + gap) <= calls[|calls| - 1] &&
             OnlyInsertion(b'.history, midway.nextId, |midway.history|) ==>
               HasFired(b'.history, midway.nextId))
  {
    var midway := Midway(b, order, m, n, script, c.tick, true);
    var after := Drained(b, order, script, c.tick, true);
    var delay, calls := script(order[m])[n].delay, CallsOf(steps);
    var id, k := midway.nextId, |midway.history|;
    CallbackRequestKept(b, order, m, n, script, c.tick, true);
    DrainedKeeps(b, order, script, c.tick, true);
    SetByCallback(midway, delay, c.tick, after);
    if HasFired(b'.history, id) {
      TimerNotEarly(after, c, steps, orders, script, s, b', k, id, delay, true, x);
    } else if calls != [] && GapsAtMost(gap, previous, calls) && x + delay * (1000 + gap) <= calls[|calls| - 1] &&
              OnlyInsertion(b'.history, id, k) {
      TimerNotLate(after, c, steps, orders, script, s, b', k, id, delay, true, previous, x, gap);
    }
  }

  lemma SetByCallback(midway: Book, delay: nat, tick: nat, after: Book)
    requires Onward(Performed(midway, After(delay), tick, true), after)
    ensures SetAt(after, |midway.history|, midway.nextId, delay, tick, true)
  {
  }

  // ----- repeating timers

  /** The ticks at which a repeating timer fires. Of a minute or more it is first due on its cascaded tick, a
      minute sooner if a callback sets it on a full minute, and then every full number of minutes. */
  function ScheduledAt(interval: nat, now: nat, popping: bool, k: nat): int {
    if interval < MINUTE then now + (k + 1) * interval
    else
      now - now % MINUTE + interval - (if popping && now % MINUTE == 0 then MINUTE else 0) +
      k * (MINUTE * (interval / MINUTE))
  }

  lemma {:induction false} NewTimerSchedule(b: Book, interval: nat, now: nat, popping: bool, k: nat)
    requires Sensible(Repeat(interval)) && interval < HOUR
    ensures var t := NewTimer(b, interval, now, popping);
            t.first + k * Period(interval) == ScheduledAt(interval, now, popping, k)
  {
    if interval < MINUTE {
      assert (k + 1) * interval == k * interval + interval;
    } else {
      assert Period(interval) == MINUTE * (interval / MINUTE);
    }
  }

  /** Whenever it was set, between ticks a repeating timer has fired exactly at those scheduled ticks that
      have come, and with an interval of an hour or more at none. */
  lemma {:induction false} RepeatFires(b: Book, interval: nat, now: nat, popping: bool, s: Wheel.Snapshot,
      b': Book, k: nat)
    requires Sensible(Repeat(interval))
    requires Consistent(s, b') && s.dropping == {} && b'.rearming == -1
    requires SameTimers(Performed(b, Repeat(interval), now, popping).timers, b'.timers)
    ensures var t := b'.timers[|b.timers|];
            (k < |t.fired| <==> interval < HOUR && ScheduledAt(interval, now, popping, k) <= s.tick) &&
            (k < |t.fired| ==> t.fired[k] == ScheduledAt(interval, now, popping, k))
  {
    var j := |b.timers|;
    var was := Performed(b, Repeat(interval), now, popping).timers;
    assert was[j] == NewTimer(b, interval, now, popping);
    TimerFiredAtItsRounds(s, b', j, k);
    if interval < HOUR {
      NewTimerSchedule(b, interval, now, popping, k);
    }
  }

  /** A timer set by a callback in the middle of a tick, followed over the rest of that tick and any run. */
  lemma {:induction false} CallbackTimerFires(b: Book, order: seq<nat>, m: nat, n: nat, script: nat -> seq<Command>,
      c: Clock, steps: seq<Step>, orders: seq<seq<nat>>, s: Wheel.Snapshot, b': Book, k: nat)
    requires b.rearming == -1 && m < |order| && n < |script(order[m])|
    requires Status(Drained(b, order[..m], script, c.tick, true).history, order[m]) == Live(At(c.tick))
    requires script(order[m])[n].Repeat? && Sensible(script(order[m])[n])
    requires Reachable(Drained(b, order, script, c.tick, true), c, steps, orders, script, s, b')
    ensures var interval := script(order[m])[n].interval;
            var midway := Midway(b, order, m, n, script, c.tick, true);
            |midway.timers| < |b'.timers| &&
            var t := b'.timers[|midway.timers|];
            (k < |t.fired| <==> interval < HOUR && ScheduledAt(interval, c.tick, true, k) <= s.tick) &&
            (k < |t.fired| ==> t.fired[k] == ScheduledAt(interval, c.tick, true, k))
  {
    var midway := Midway(b, order, m, n, script, c.tick, true);
    var after := Drained(b, order, script, c.tick, true);
    var placed := Performed(midway, script(order[m])[n], c.tick, true);
    CallbackRequestKept(b, order, m, n, script, c.tick, true);
    DrainedKeeps(b, order, script, c.tick, true);
    RunKeeps(after, c, steps, orders, script);
    SameTimersThrough(placed.timers, after.timers, b'.timers);
    RepeatFires(midway, script(order[m])[n].interval, c.tick, true, s, b', k);
  }

  // ----- idle limits

  /** Code that extends entry `id` only by `limit`. */
  predicate Limited(c: Command, id: nat, limit: nat) {
    c.Extend? && c.id == id ==> c.delay == limit
  }

  predicate AllLimited(cs: seq<Command>, id: nat, limit: nat) {
    forall i :: 0 <= i < |cs| ==> Limited(cs[i], id, limit)
  }

  /** The entry has been named, and all its insertions so far carry the limit. */
  ghost predicate Limits(b: Book, id: nat, limit: nat) {
    id < b.nextId && IdleLimited(b.history, id, limit)
  }

  lemma LimitsNoted(b: Book, ev: Event, id: nat, limit: nat)
    requires IdleLimited(b.history, id, limit) && (Inserts(ev, id) ==> ev.delay == limit)
    ensures IdleLimited(b.history + [ev], id, limit)
  {
    var h := b.history + [ev];
    forall k | 0 <= k < |h| && Inserts(h[k], id)
      ensures h[k].delay == limit
    {
      assert k < |b.history| ==> h[k] == b.history[k];
    }
  }

  lemma {:induction false} SetLimits(b: Book, t: Timer, j: nat, now: nat, popping: bool, id: nat, limit: nat)
    requires Limits(b, id, limit)
    ensures Limits(Set(b, t, j, now, popping), id, limit)
  {
    LimitsNoted(b, Inserted(b.nextId, t.interval, now, popping), id, limit);
  }

  lemma {:induction false} PerformedLimits(b: Book, c: Command, now: nat, popping: bool, id: nat, limit: nat)
    requires Limits(b, id, limit) && Limited(c, id, limit)
    ensures Limits(Performed(b, c, now, popping), id, limit)
  {
    match c {
      case After(delay) => LimitsNoted(b, Inserted(b.nextId, delay, now, popping), id, limit);
      case Extend(other, delay) => LimitsNoted(b, Inserted(other, delay, now, popping), id, limit);
      case Repeat(interval) => SetLimits(b, NewTimer(b, interval, now, popping), |b.timers|, now, popping, id, limit);
    }
  }

  lemma {:induction false} PerformedAllLimits(b: Book, cs: seq<Command>, now: nat, popping: bool, id: nat, limit: nat)
    requires Limits(b, id, limit) && AllLimited(cs, id, limit)
    ensures Limits(PerformedAll(b, cs, now, popping), id, limit)
  {
    if cs != [] {
      var before := cs[..|cs| - 1];
      PerformedAllLimits(b, before, now, popping, id, limit);
      PerformedLimits(PerformedAll(b, before, now, popping), cs[|cs| - 1], now, popping, id, limit);
    }
  }

  lemma {:induction false} AfterReleaseLimits(b: Book, e: nat, cs: seq<Command>, now: nat, popping: bool, id: nat,
      limit: nat)
    requires Limits(b, id, limit) && AllLimited(cs, id, limit)
    ensures Limits(AfterRelease(b, e, cs, now, popping), id, limit)
  {
    LimitsNoted(b, Released(e, now), id, limit);
    PerformedAllLimits(Departed(b, e, now), cs, now, popping, id, limit);
    var all := PerformedAll(Departed(b, e, now), cs, now, popping);
    if 0 <= all.rearming < |all.timers| {
      SetLimits(all, all.timers[all.rearming].(current := all.nextId), all.rearming, now, popping, id, limit);
    }
  }

  lemma {:induction false} DrainedLimits(b: Book, order: seq<nat>, script: nat -> seq<Command>, now: nat, popping: bool,
      id: nat, limit: nat)
    requires Limits(b, id, limit) && forall e: nat :: AllLimited(script(e), id, limit)
    ensures Limits(Drained(b, order, script, now, popping), id, limit)
  {
    if order != [] {
      var before := order[..|order| - 1];
      DrainedLimits(b, before, script, now, popping, id, limit);
      var e := order[|order| - 1];
      AfterReleaseLimits(Drained(b, before, script, now, popping), e, script(e), now, popping, id, limit);
    }
  }

  /** A run in which nothing extends the entry by anything else keeps its limit. */
  lemma {:induction false} RunLimits(b: Book, c: Clock, steps: seq<Step>, orders: seq<seq<nat>>,
      script: nat -> seq<Command>, id: nat, limit: nat)
    requires |orders| == |steps| && Limits(b, id, limit) && forall e: nat :: AllLimited(script(e), id, limit)
    requires forall i :: 0 <= i < |steps| && steps[i].Request? ==> Limited(steps[i].command, id, limit)
    ensures Limits(RunOf(b, c, steps, orders, script).0, id, limit)
  {
    if steps != [] {
      var n := |steps| - 1;
      var (b1, c1) := RunOf(b, c, steps[..n], orders[..n], script);
      RunLimits(b, c, steps[..n], orders[..n], script, id, limit);
      match steps[n] {
        case Call(now) => DrainedLimits(b1, orders[n], script, Advanced(c1, now).tick, true, id, limit);
        case Request(command) => PerformedLimits(b1, command, c1.tick, false, id, limit);
      }
    }
  }

  // ----- the wheel itself

  /** A timer set on the wheel, and any run after it. */
  method RunTimer(wheel: TimingWheel, delay: nat, steps: seq<Step>, ghost previous: int, ghost x: int, ghost gap: nat)
      returns (ghost id: nat)
    requires wheel.Quiescent() && 0 < delay < MINUTE && forall i :: 0 <= i < |steps| ==> SensibleStep(steps[i])
    requires 0 < wheel.lastTs <= previous < wheel.lastTs + 1000 && previous <= x && Ascending(x, CallsOf(steps))
    modifies wheel
    ensures wheel.Quiescent() && id == old(wheel.book.nextId)
    ensures HasFired(wheel.book.history, id) ==>
              CallsOf(steps) != [] && x + 1000 * (delay - 1) <= CallsOf(steps)[|CallsOf(steps)| - 1]
    ensures var calls := CallsOf(steps);
            calls != [] && GapsAtMost(gap, previous, calls) && x + delay * (1000 + gap) <= calls[|calls| - 1] &&
            OnlyInsertion(wheel.book.history, id, |old(wheel.book.history)|) ==>
            HasFired(wheel.book.history, id)
  {
    id := wheel.book.nextId;
    ghost var k := |wheel.book.history|;
    wheel.RunAfter(delay);
    ghost var b, c := wheel.book, Clock(wheel.lastTs, wheel.tick);
    ghost var orders := Run(wheel, steps);
    ghost var calls := CallsOf(steps);
    assert Reachable(b, c, steps, orders, wheel.script, wheel.Now(), wheel.book);
    if HasFired(wheel.book.history, id) {
      TimerNotEarly(b, c, steps, orders, wheel.script, wheel.Now(), wheel.book, k, id, delay, false, x);
    } else if calls != [] && GapsAtMost(gap, previous, calls) && x + delay * (1000 + gap) <= calls[|calls| - 1] &&
              OnlyInsertion(wheel.book.history, id, k) {
      TimerNotLate(b, c, steps, orders, wheel.script, wheel.Now(), wheel.book, k, id, delay, false, previous, x, gap);
    }
  }

  /** A timer set on a wheel whose clock has not started, and any run after it. */
  method RunTimerFromStart(wheel: TimingWheel, delay: nat, steps: seq<Step>, ghost gap: nat) returns (ghost id: nat)
    requires wheel.Quiescent() && 0 < delay < MINUTE && forall i :: 0 <= i < |steps| ==> SensibleStep(steps[i])
    requires wheel.lastTs == 0 && Ascending(1, CallsOf(steps))
    modifies wheel
    ensures wheel.Quiescent() && id == old(wheel.book.nextId)
    ensures var calls := CallsOf(steps);
            (HasFired(wheel.book.history, id) ==> calls != [] && calls[0] + 1000 * delay <= calls[|calls| - 1]) &&
            (calls != [] && GapsAtMost(gap, calls[0], calls) &&
             OnlyInsertion(wheel.book.history, id, |old(wheel.book.history)|) &&
             calls[0] + delay * (1000 + gap) <= calls[|calls| - 1] ==>
               HasFired(wheel.book.history, id))
  {
    id := wheel.book.nextId;
    ghost var k := |wheel.book.history|;
    wheel.RunAfter(delay);
    ghost var b, c := wheel.book, Clock(wheel.lastTs, wheel.tick);
    ghost var orders := Run(wheel, steps);
    TimerFromStart(b, c, steps, orders, wheel.script, wheel.Now(), wheel.book, k, id, delay, false, gap);
  }

  /** A repeating timer set on the wheel between ticks, and any run after it. */
  method RunRepeating(wheel: TimingWheel, interval: nat, steps: seq<Step>) returns (ghost j: nat)
    requires wheel.Quiescent() && Admissible(interval) && forall i :: 0 <= i < |steps| ==> SensibleStep(steps[i])
    modifies wheel
    ensures wheel.Quiescent() && j == |old(wheel.book.timers)| < |wheel.book.timers|
    ensures forall k: nat :: var t := wheel.book.timers[j];
              (k < |t.fired| <==>
                 interval < HOUR && ScheduledAt(interval, old(wheel.tick), false, k) <= wheel.tick) &&
              (k < |t.fired| ==> t.fired[k] == ScheduledAt(interval, old(wheel.tick), false, k))
  {
    ghost var b0, now := wheel.book, wheel.tick;
    j := |b0.timers|;
    wheel.RunEvery(interval);
    ghost var b, c := wheel.book, Clock(wheel.lastTs, wheel.tick);
    ghost var orders := Run(wheel, steps);
    RunKeeps(b, c, steps, orders, wheel.script);
    forall k: nat
      ensures var t := wheel.book.timers[j];
              (k < |t.fired| <==> interval < HOUR && ScheduledAt(interval, now, false, k) <= wheel.tick) &&
              (k < |t.fired| ==> t.fired[k] == ScheduledAt(interval, now, false, k))
    {
      RepeatFires(b0, interval, now, false, wheel.Now(), wheel.book, k);
    }
  }

  /** An idle connection and any run after it in which nothing else extends its entry: it has been timed out
      if and only if its limit has passed since every activity. */
  method RunIdle(wheel: TimingWheel, limit: nat, steps: seq<Step>) returns (con: IdleConnection)
    requires wheel.Quiescent() && Admissible(limit) && forall i :: 0 <= i < |steps| ==> SensibleStep(steps[i])
    requires forall e: nat :: AllLimited(wheel.script(e), wheel.book.nextId, limit)
    requires forall i :: 0 <= i < |steps| && steps[i].Request? ==>
               Limited(steps[i].command, wheel.book.nextId, limit)
    modifies wheel
    ensures wheel.Quiescent() && con.timeoutEntry == old(wheel.book.nextId)
    ensures var h := wheel.book.history; var id := con.timeoutEntry;
            (HasFired(h, id) <==>
               forall k :: 0 <= k < |h| && Inserts(h[k], id) ==>
                 Past(DueOf(limit, h[k].tick, h[k].popping), wheel.tick)) &&
            |old(wheel.book.history)| < |h| && Inserts(h[|old(wheel.book.history)|], id)
  {
    ghost var b0 := wheel.book;
    NewIsUnseen(b0, wheel.tick, limit);
    con := new IdleConnection.EnableCheckIdleTimeout(wheel, limit);
    ghost var b, c, id := wheel.book, Clock(wheel.lastTs, wheel.tick), b0.nextId;
    LimitsNoted(b0, Inserted(id, limit, wheel.tick, false), id, limit);
    ghost var orders := Run(wheel, steps);
    RunLimits(b, c, steps, orders, wheel.script, id, limit);
    RunKeeps(b, c, steps, orders, wheel.script);
    ghost var h := wheel.book.history;
    assert h[|b0.history|] == b.history[|b0.history|] && Inserts(h[|b0.history|], id);
    TicksAscend(h, |h|);
    TimedOutIffIdle(h, wheel.tick, id, limit);
  }

  lemma {:induction false} NewIsUnseen(b: Book, now: nat, limit: nat)
    requires BookSound(b, now)
    ensures IdleLimited(b.history, b.nextId, limit)
  {
    UnknownMeansUnseen(b.history, b.nextId);
  }
}
