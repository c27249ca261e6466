/** The deadline map as a machine: entries, repeating timers and the trace, with no wheel in sight.
    The timing wheel is shown to refine it. */
module Book {
  import opened DueTrace

  /** What the destructor of an entry does beyond running its callback. */
  datatype Callback = Plain | Every(timer: nat, interval: nat)

  /** What code running in the loop may ask of the wheel: a one-shot timer, another insertion of an
      entry it holds weakly, or a repeating timer. */
  datatype Command = After(delay: nat) | Extend(id: nat, delay: nat) | Repeat(interval: nat)

  /** A repeating timer: when it was first due, the ticks at which it has fired, its next entry. */
  datatype Timer = Timer(first: nat, interval: nat, fired: seq<nat>, current: nat)

  /** `rearming` names the timer, if any, whose callback is running and is not yet set again. */
  datatype Book = Book(nextId: nat, callbacks: map<nat, Callback>, timers: seq<Timer>, history: seq<Event>,
                       rearming: int)

  const EMPTY_BOOK := Book(0, map[], [], [], -1)

  predicate Sensible(c: Command) {
    match c
    case After(delay) => Admissible(delay)
    case Extend(_, delay) => Admissible(delay)
    case Repeat(interval) => Admissible(interval)
  }

  ghost predicate SensibleScript(script: nat -> seq<Command>) {
    forall id: nat, k :: 0 <= k < |script(id)| ==> Sensible(script(id)[k])
  }

  // ----- the steps of the machine

  function Noted(b: Book, id: nat, delay: nat, now: nat, popping: bool): Book {
    b.(history := b.history + [Inserted(id, delay, now, popping)])
  }

  function Named(b: Book, cb: Callback): Book {
    b.(nextId := b.nextId + 1, callbacks := b.callbacks[b.nextId := cb])
  }

  predicate Extendable(b: Book, id: nat) {
    Status(b.history, id).Live? && id in b.callbacks && b.callbacks[id].Plain?
  }

  function Placed(timers: seq<Timer>, j: nat, t: Timer): seq<Timer> {
    if j < |timers| then timers[j := t] else timers + [t]
  }

  /** Timer `j` becomes `t` and its entry, named next, is inserted. */
  function Set(b: Book, t: Timer, j: nat, now: nat, popping: bool): Book {
    Noted(Named(b, Every(j, t.interval)), b.nextId, t.interval, now, popping)
    .(timers := Placed(b.timers, j, t), rearming := if j == b.rearming then -1 else b.rearming)
  }

  function NewTimer(b: Book, interval: nat, now: nat, popping: bool): Timer {
    var due := DueOf(interval, now, popping);
    Timer(if due.At? then due.tick else 0, interval, [], b.nextId)
  }

  function Performed(b: Book, c: Command, now: nat, popping: bool): Book {
    match c
    case After(delay) => Noted(Named(b, Plain), b.nextId, delay, now, popping)
    case Extend(id, delay) => if Extendable(b, id) then Noted(b, id, delay, now, popping) else b
    case Repeat(interval) => Set(b, NewTimer(b, interval, now, popping), |b.timers|, now, popping)
  }

  function PerformedAll(b: Book, cs: seq<Command>, now: nat, popping: bool): Book {
    if cs == [] then b
    else Performed(PerformedAll(b, cs[..|cs| - 1], now, popping), cs[|cs| - 1], now, popping)
  }

  lemma {:induction false} PerformedNext(b: Book, cs: seq<Command>, i: nat, now: nat, popping: bool)
    requires i < |cs|
    ensures PerformedAll(b, cs[..i + 1], now, popping) ==
            Performed(PerformedAll(b, cs[..i], now, popping), cs[i], now, popping)
  {
    assert cs[..i + 1][..i] == cs[..i];
  }

  function Fired(t: Timer, now: nat): Timer {
    t.(fired := t.fired + [now])
  }

  predicate Repeating(b: Book, id: nat) {
    id in b.callbacks && b.callbacks[id].Every? && b.callbacks[id].timer < |b.timers|
  }

  /** The release itself: the trace records it, and a repeating timer the firing. */
  function Departed(b: Book, id: nat, now: nat): Book {
    var b' := b.(history := b.history + [Released(id, now)]);
    if Repeating(b, id) then
      var j := b.callbacks[id].timer;
      b'.(timers := b.timers[j := Fired(b.timers[j], now)], rearming := j)
    else b'
  }

  function Rearmed(b: Book, now: nat, popping: bool): Book {
    if 0 <= b.rearming < |b.timers| then
      Set(b, b.timers[b.rearming].(current := b.nextId), b.rearming, now, popping)
    else b
  }

  /** An entry is released, its callback runs, and a repeating timer is then set again. */
  function AfterRelease(b: Book, id: nat, cs: seq<Command>, now: nat, popping: bool): Book {
    Rearmed(PerformedAll(Departed(b, id, now), cs, now, popping), now, popping)
  }

  /** Entries are dropped one after the other; only those at their deadline are released. */
  function Drained(b: Book, order: seq<nat>, script: nat -> seq<Command>, now: nat, popping: bool): Book {
    if order == [] then b
    else
      var b' := Drained(b, order[..|order| - 1], script, now, popping);
      var id := order[|order| - 1];
      if Status(b'.history, id) == Live(At(now)) then AfterRelease(b', id, script(id), now, popping) else b'
  }

  // ----- what every state of the machine satisfies

  function Period(interval: nat): nat {
    if interval < MINUTE then interval else interval - interval % MINUTE
  }

  function Round(first: nat, interval: nat, k: nat): nat {
    if k == 0 then first else Round(first, interval, k - 1) + Period(interval)
  }

  function RoundOf(t: Timer, k: nat): nat {
    Round(t.first, t.interval, k)
  }

  /** When a round comes due: with an interval of an hour or more none ever does. */
  function RoundDue(t: Timer, k: nat): Due {
    if t.interval < HOUR then At(RoundOf(t, k)) else Never
  }

  /** A timer has fired exactly at its rounds so far. */
  ghost predicate OnSchedule(t: Timer, now: nat) {
    Admissible(t.interval) && (HOUR <= t.interval ==> t.fired == []) &&
    (MINUTE <= t.interval < HOUR ==> t.first % MINUTE == t.interval % MINUTE) &&
    (forall k :: 0 <= k < |t.fired| ==> t.fired[k] == RoundOf(t, k)) &&
    (t.fired != [] ==> t.fired[|t.fired| - 1] <= now)
  }

  /** The next entry of timer `j` is live and falls due at its next round. */
  ghost predicate Armed(b: Book, j: nat)
    requires j < |b.timers|
  {
    var t := b.timers[j];
    t.current in b.callbacks && b.callbacks[t.current] == Every(j, t.interval) &&
    Status(b.history, t.current) == Live(RoundDue(t, |t.fired|))
  }

  ghost predicate TimersSound(b: Book, now: nat) {
    -1 <= b.rearming < |b.timers| &&
    (forall j :: 0 <= j < |b.timers| ==> OnSchedule(b.timers[j], now)) &&
    (forall j :: 0 <= j < |b.timers| && j != b.rearming ==> Armed(b, j)) &&
    (forall id :: id in b.callbacks && b.callbacks[id].Every? && Status(b.history, id).Live? ==>
      b.callbacks[id].timer != b.rearming && b.callbacks[id].timer < |b.timers| &&
      b.timers[b.callbacks[id].timer].current == id)
  }

  ghost predicate NamesSound(b: Book, now: nat) {
    (forall id: nat :: id in b.callbacks <==> id < b.nextId) &&
    (forall id: nat :: b.nextId <= id ==> Status(b.history, id).Unknown?) &&
    (b.history != [] ==> b.history[|b.history| - 1].tick <= now)
  }

  ghost predicate BookSound(b: Book, now: nat) {
    Faithful(b.history) && NamesSound(b, now) && TimersSound(b, now)
  }

  lemma NotedStatus(b: Book, ev: Event)
    ensures forall id :: Status(b.history + [ev], id) == Advance(Status(b.history, id), ev, id)
  {
    forall id
      ensures Status(b.history + [ev], id) == Advance(Status(b.history, id), ev, id)
    {
      StatusAppend(b.history, ev, id);
    }
  }

  lemma NamedPlainSound(b: Book, now: nat)
    requires BookSound(b, now)
    ensures BookSound(Named(b, Plain), now)
  {
    forall j | 0 <= j < |b.timers| && j != b.rearming
      ensures Armed(Named(b, Plain), j)
    {
      assert Armed(b, j);
    }
  }

  /** Inserting an entry that belongs to no timer. */
  lemma NotedSound(b: Book, id: nat, delay: nat, now: nat, popping: bool)
    requires BookSound(b, now) && id < b.nextId && b.callbacks[id].Plain? && !Status(b.history, id).Gone?
    ensures BookSound(Noted(b, id, delay, now, popping), now)
  {
    var ev := Inserted(id, delay, now, popping);
    NotedStatus(b, ev);
    FaithfulAppend(b.history, ev);
    forall j | 0 <= j < |b.timers| && j != b.rearming
      ensures Armed(Noted(b, id, delay, now, popping), j)
    {
      assert Armed(b, j);
    }
  }

  ghost predicate Settable(b: Book, t: Timer, j: nat, now: nat, popping: bool) {
    t.current == b.nextId && OnSchedule(t, now) &&
    (if j < |b.timers| then j == b.rearming else j == |b.timers|) &&
    DueOf(t.interval, now, popping) == RoundDue(t, |t.fired|)
  }

  /** Setting a new timer, or the one whose callback runs. */
  lemma SetSound(b: Book, t: Timer, j: nat, now: nat, popping: bool)
    requires BookSound(b, now) && Settable(b, t, j, now, popping)
    ensures BookSound(Set(b, t, j, now, popping), now)
  {
    var b', ev := Set(b, t, j, now, popping), Inserted(b.nextId, t.interval, now, popping);
    NotedStatus(b, ev);
    FaithfulAppend(b.history, ev);
    forall i | 0 <= i < |b'.timers| && i != b'.rearming
      ensures Armed(b', i)
    {
      if i != j {
        assert Armed(b, i);
      }
    }
  }

  lemma NewTimerSettable(b: Book, interval: nat, now: nat, popping: bool)
    requires BookSound(b, now) && Sensible(Repeat(interval))
    ensures Settable(b, NewTimer(b, interval, now, popping), |b.timers|, now, popping)
  {
  }

  /** Setting a timer again when its round comes due makes the next round come due a period on. */
  lemma NextRound(first: nat, interval: nat, k: nat, popping: bool)
    requires Sensible(Repeat(interval)) && interval < HOUR
    requires MINUTE <= interval ==> first % MINUTE == interval % MINUTE
    ensures DueOf(interval, Round(first, interval, k), popping) == At(Round(first, interval, k + 1))
  {
    if MINUTE <= interval {
      RoundModMinute(first, interval, k);
    }
  }

  lemma FullMinutes(a: nat, m: nat)
    ensures (a + MINUTE * m) % MINUTE == a % MINUTE
  {
  }

  lemma {:induction false} RoundModMinute(first: nat, interval: nat, k: nat)
    requires MINUTE <= interval
    ensures Round(first, interval, k) % MINUTE == first % MINUTE
  {
    if k > 0 {
      RoundModMinute(first, interval, k - 1);
      FullMinutes(Round(first, interval, k - 1), interval / MINUTE);
    }
  }

  /** The callback of timer `rearming` is running, at the tick of the round just fired. */
  ghost predicate Ringing(b: Book, now: nat) {
    0 <= b.rearming < |b.timers| && b.timers[b.rearming].fired != [] &&
    now == RoundOf(b.timers[b.rearming], |b.timers[b.rearming].fired| - 1)
  }

  lemma RearmSettable(b: Book, now: nat, popping: bool)
    requires BookSound(b, now) && Ringing(b, now)
    ensures Settable(b, b.timers[b.rearming].(current := b.nextId), b.rearming, now, popping)
  {
    var t := b.timers[b.rearming];
    assert OnSchedule(t, now);
    NextRound(t.first, t.interval, |t.fired| - 1, popping);
  }

  /** A release happens only at the deadline; a repeating timer then stands at its next round. */
  lemma DepartedSound(b: Book, id: nat, now: nat)
    requires BookSound(b, now) && b.rearming == -1 && Status(b.history, id) == Live(At(now))
    ensures BookSound(Departed(b, id, now), now)
    ensures if Repeating(b, id) then Ringing(Departed(b, id, now), now) else Departed(b, id, now).rearming == -1
  {
    var b', ev := Departed(b, id, now), Released(id, now);
    NotedStatus(b, ev);
    FaithfulAppend(b.history, ev);
    assert id in b.callbacks;
    if Repeating(b, id) {
      assert Armed(b, b.callbacks[id].timer);
    }
    forall i | 0 <= i < |b'.timers| && i != b'.rearming
      ensures Armed(b', i)
    {
      assert Armed(b, i);
    }
  }

  /** A timer whose callback runs goes on ringing while the callback makes requests. */
  lemma {:induction false} RingsOn(b: Book, cs: seq<Command>, now: nat, popping: bool)
    requires b.rearming == -1 || Ringing(b, now)
    ensures var b' := PerformedAll(b, cs, now, popping); b'.rearming == -1 || Ringing(b', now)
  {
    PerformedAllGrown(b, cs, now, popping);
  }

  // ----- what a callback leaves behind

  /** Only insertions made at this tick have been added to the trace, and timers only added. */
  ghost predicate Grown(b: Book, b': Book, now: nat) {
    b.timers <= b'.timers && b'.rearming == b.rearming && b.history <= b'.history &&
    forall k :: |b.history| <= k < |b'.history| ==> b'.history[k].Inserted? && b'.history[k].tick == now
  }

  lemma {:induction false} PerformedAllGrown(b: Book, cs: seq<Command>, now: nat, popping: bool)
    requires b.rearming < |b.timers|
    ensures Grown(b, PerformedAll(b, cs, now, popping), now)
  {
    if cs != [] {
      PerformedAllGrown(b, cs[..|cs| - 1], now, popping);
    }
  }

  /** Timers keep their schedule, and what they have fired stays on record. */
  ghost predicate SameTimers(timers: seq<Timer>, timers': seq<Timer>) {
    |timers| <= |timers'| &&
    forall j :: 0 <= j < |timers| ==>
      timers'[j].first == timers[j].first && timers'[j].interval == timers[j].interval &&
      timers[j].fired <= timers'[j].fired
  }

  /** Only events of this tick have been added to the trace. */
  ghost predicate Extended(h: seq<Event>, h': seq<Event>, now: nat) {
    h <= h' && forall k :: |h| <= k < |h'| ==> h'[k].tick == now
  }

  lemma ReleaseKeeps(b: Book, id: nat, cs: seq<Command>, now: nat, popping: bool)
    requires b.rearming == -1
    ensures var b' := AfterRelease(b, id, cs, now, popping);
            b'.rearming == -1 && Extended(b.history, b'.history, now) && SameTimers(b.timers, b'.timers)
  {
    PerformedAllGrown(Departed(b, id, now), cs, now, popping);
  }

  lemma {:induction false} SameTimersThrough(a: seq<Timer>, b: seq<Timer>, c: seq<Timer>)
    requires SameTimers(a, b) && SameTimers(b, c)
    ensures SameTimers(a, c)
  {
  }

  /** Nothing on record is taken back, and no timer leaves its schedule. */
  ghost predicate Onward(b: Book, b': Book) {
    b.history <= b'.history && SameTimers(b.timers, b'.timers)
  }

  lemma {:induction false} OnwardThrough(a: Book, b: Book, c: Book)
    requires Onward(a, b) && Onward(b, c)
    ensures Onward(a, c)
  {
    SameTimersThrough(a.timers, b.timers, c.timers);
  }

  /** What a callback has asked for stays while it asks for more. */
  lemma {:induction false} PerformedKeeps(b: Book, cs: seq<Command>, more: seq<Command>, now: nat, popping: bool)
    ensures Onward(PerformedAll(b, cs, now, popping), PerformedAll(b, cs + more, now, popping))
    decreases |more|
  {
    if more == [] {
      assert cs + more == cs;
    } else {
      var before, last := more[..|more| - 1], more[|more| - 1];
      PerformedKeeps(b, cs, before, now, popping);
      PerformedLast(b, cs + before, last, now, popping);
      assert cs + more == cs + before + [last];
      OnwardThrough(PerformedAll(b, cs, now, popping), PerformedAll(b, cs + before, now, popping),
                    PerformedAll(b, cs + more, now, popping));
    }
  }

  lemma {:induction false} PerformedLast(b: Book, cs: seq<Command>, c: Command, now: nat, popping: bool)
    ensures PerformedAll(b, cs + [c], now, popping) == Performed(PerformedAll(b, cs, now, popping), c, now, popping)
    ensures Onward(PerformedAll(b, cs, now, popping), PerformedAll(b, cs + [c], now, popping))
  {
    assert (cs + [c])[..|cs|] == cs;
    PerformedOnward(PerformedAll(b, cs, now, popping), c, now, popping);
  }

  lemma PerformedOnward(b: Book, c: Command, now: nat, popping: bool)
    ensures Onward(b, Performed(b, c, now, popping))
  {
  }

  lemma RearmedOnward(b: Book, now: nat, popping: bool)
    ensures Onward(b, Rearmed(b, now, popping))
  {
  }

  lemma {:induction false} DrainedOn(b: Book, order: seq<nat>, m: nat, script: nat -> seq<Command>, now: nat,
      popping: bool)
    requires b.rearming == -1 && m <= |order|
    ensures Onward(Drained(b, order[..m], script, now, popping), Drained(b, order, script, now, popping))
  {
    if m == |order| {
      assert order[..m] == order;
    } else {
      var before, id := order[..|order| - 1], order[|order| - 1];
      DrainedOn(b, before, m, script, now, popping);
      assert before[..m] == order[..m];
      DrainedKeeps(b, before, script, now, popping);
      ReleaseKeeps(Drained(b, before, script, now, popping), id, script(id), now, popping);
      OnwardThrough(Drained(b, order[..m], script, now, popping), Drained(b, before, script, now, popping),
                    Drained(b, order, script, now, popping));
    }
  }

  /** The book in the middle of a tick, when the callback of the `m`-th entry dropped has made its first
      `n` requests. */
  function Midway(b: Book, order: seq<nat>, m: nat, n: nat, script: nat -> seq<Command>, now: nat,
                  popping: bool): Book
    requires m < |order| && n <= |script(order[m])|
  {
    PerformedAll(Departed(Drained(b, order[..m], script, now, popping), order[m], now), script(order[m])[..n], now,
                 popping)
  }

  /** What a callback has asked for is still on record, and its timers on their schedules, when the tick is
      over. */
  lemma {:induction false} CallbackRequestKept(b: Book, order: seq<nat>, m: nat, n: nat, script: nat -> seq<Command>,
      now: nat, popping: bool)
    requires b.rearming == -1 && m < |order| && n < |script(order[m])|
    requires Status(Drained(b, order[..m], script, now, popping).history, order[m]) == Live(At(now))
    ensures Onward(Performed(Midway(b, order, m, n, script, now, popping), script(order[m])[n], now, popping),
                   Drained(b, order, script, now, popping))
  {
    var id := order[m];
    var b0, cs := Departed(Drained(b, order[..m], script, now, popping), id, now), script(id);
    PerformedNext(b0, cs, n, now, popping);
    PerformedKeeps(b0, cs[..n + 1], cs[n + 1..], now, popping);
    assert cs[..n + 1] + cs[n + 1..] == cs;
    var asked, all := PerformedAll(b0, cs[..n + 1], now, popping), PerformedAll(b0, cs, now, popping);
    RearmedOnward(all, now, popping);
    assert order[..m + 1][..m] == order[..m];
    DrainedOn(b, order, m + 1, script, now, popping);
    OnwardThrough(asked, all, Rearmed(all, now, popping));
    OnwardThrough(asked, Rearmed(all, now, popping), Drained(b, order, script, now, popping));
  }

  /** A tick keeps every timer on its schedule and adds to the trace only events of that tick. */
  lemma {:induction false} DrainedKeeps(b: Book, order: seq<nat>, script: nat -> seq<Command>, now: nat, popping: bool)
    requires b.rearming == -1
    ensures var b' := Drained(b, order, script, now, popping);
            b'.rearming == -1 && Extended(b.history, b'.history, now) && SameTimers(b.timers, b'.timers)
  {
    if order != [] {
      var b1 := Drained(b, order[..|order| - 1], script, now, popping);
      DrainedKeeps(b, order[..|order| - 1], script, now, popping);
      var id := order[|order| - 1];
      ReleaseKeeps(b1, id, script(id), now, popping);
    }
  }
}
