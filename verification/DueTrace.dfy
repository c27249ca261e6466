/** What a caller of the timing wheel is promised, stated without the wheel: a trace of
    insertions and releases, and the tick at which each live entry falls due. */
module DueTrace {

  const MINUTE: nat := 60
  const HOUR: nat := 60 * 60
  const DAY: nat := 60 * 60 * 24

  /** The tick at which an entry is dropped; the hour and day wheels are never turned, so
      an entry there is never dropped. */
  datatype Due = At(tick: nat) | Never

  predicate NoLater(a: Due, b: Due) {
    b.Never? || (a.At? && a.tick <= b.tick)
  }

  predicate Past(a: Due, now: nat) {
    a.At? && a.tick <= now
  }

  function Later(a: Due, b: Due): Due {
    if NoLater(a, b) then b else a
  }

  /** The delays for which every slot index the wheel computes is in range and the entry is
      accepted at all. */
  predicate Admissible(delay: nat) {
    0 < delay && (delay < HOUR ==> delay % MINUTE != 0) && delay / DAY <= 30
  }

  /** When a single insertion expires. `popping` says that it is made by a callback that runs
      while the dropped slot of the second wheel is being destroyed, hence before the minute
      wheel of the same tick has turned. */
  function DueOf(delay: nat, tick: nat, popping: bool): (r: Due)
    ensures r.Never? <==> HOUR <= delay
    ensures r.At? ==> r.tick <= tick + delay
    ensures Admissible(delay) ==> !Past(r, tick)
  {
    if delay < MINUTE then At(tick + delay)
    else if delay < HOUR then
      At(tick - tick % MINUTE + delay - (if popping && tick % MINUTE == 0 then MINUTE else 0))
    else Never
  }

  datatype Event =
    | Inserted(id: nat, delay: nat, tick: nat, popping: bool)
    | Released(id: nat, tick: nat)

  /** The life of one entry: the deadline map, one entry at a time. */
  datatype Life = Unknown | Live(due: Due) | Gone(tick: nat)

  function Advance(l: Life, ev: Event, id: nat): Life {
    if ev.id != id then l else
    match ev
    case Released(_, tick) => Gone(tick)
    case Inserted(_, delay, tick, popping) =>
      match l
      case Unknown => Live(DueOf(delay, tick, popping))
      case Live(due) => Live(Later(due, DueOf(delay, tick, popping)))
      case Gone(_) => l
  }

  function Status(h: seq<Event>, id: nat): Life {
    if h == [] then Unknown else Advance(Status(h[..|h| - 1], id), h[|h| - 1], id)
  }

  /** The events the deadline map allows next: only entries not yet gone are inserted, and an
      entry is released only while live and exactly when it falls due. Ticks never go back. */
  predicate Allowed(h: seq<Event>, ev: Event) {
    (h != [] ==> h[|h| - 1].tick <= ev.tick) &&
    match ev
    case Inserted(id, _, _, _) => !Status(h, id).Gone?
    case Released(id, tick) => Status(h, id) == Live(At(tick))
  }

  predicate Faithful(h: seq<Event>) {
    h == [] || (Faithful(h[..|h| - 1]) && Allowed(h[..|h| - 1], h[|h| - 1]))
  }

  /** Between ticks nothing that has fallen due is still held. */
  ghost predicate NothingOverdue(h: seq<Event>, now: nat) {
    forall id :: Status(h, id).Live? ==> !Past(Status(h, id).due, now)
  }

  lemma StatusAppend(h: seq<Event>, ev: Event, id: nat)
    ensures Status(h + [ev], id) == Advance(Status(h, id), ev, id)
  {
    assert (h + [ev])[..|h|] == h;
  }

  lemma FaithfulAppend(h: seq<Event>, ev: Event)
    ensures Faithful(h + [ev]) <==> Faithful(h) && Allowed(h, ev)
  {
    assert (h + [ev])[..|h|] == h;
  }

  lemma {:induction false} FaithfulPrefix(h: seq<Event>, k: nat)
    requires Faithful(h) && k <= |h|
    ensures Faithful(h[..k])
    ensures k < |h| ==> Allowed(h[..k], h[k])
  {
    if k == |h| {
      assert h[..k] == h;
    } else if k == |h| - 1 {
    } else {
      var g := h[..|h| - 1];
      FaithfulPrefix(g, k);
      assert g[..k] == h[..k];
    }
  }

  predicate Inserts(ev: Event, id: nat) {
    ev.Inserted? && ev.id == id
  }

  predicate Releases(ev: Event, id: nat) {
    ev.Released? && ev.id == id
  }

  function EventDue(ev: Event): Due
    requires ev.Inserted?
  {
    DueOf(ev.delay, ev.tick, ev.popping)
  }

  /** The deadline is the latest of the due ticks of all insertions made so far: it is
      reached by one of them and by none exceeded. */
  lemma {:induction false} DeadlineIsMaximum(h: seq<Event>, id: nat)
    requires Status(h, id).Live?
    ensures exists k :: 0 <= k < |h| && Inserts(h[k], id) && EventDue(h[k]) == Status(h, id).due
    ensures forall k :: 0 <= k < |h| && Inserts(h[k], id) ==> NoLater(EventDue(h[k]), Status(h, id).due)
  {
    var g, last := h[..|h| - 1], h[|h| - 1];
    if last.id == id && Status(g, id).Unknown? {
      UnknownMeansUnseen(g, id);
      assert Inserts(h[|h| - 1], id);
    } else {
      DeadlineIsMaximum(g, id);
      var k :| 0 <= k < |g| && Inserts(g[k], id) && EventDue(g[k]) == Status(g, id).due;
      assert h[k] == g[k];
      assert last.id == id ==> Inserts(h[|h| - 1], id);
    }
  }

  lemma {:induction false} UnknownMeansUnseen(h: seq<Event>, id: nat)
    ensures Status(h, id).Unknown? <==> forall k :: 0 <= k < |h| ==> h[k].id != id
  {
    if h != [] {
      var g := h[..|h| - 1];
      UnknownMeansUnseen(g, id);
      assert forall k :: 0 <= k < |g| ==> h[k] == g[k];
    }
  }

  lemma {:induction false} GoneMeansReleased(h: seq<Event>, id: nat)
    ensures Status(h, id).Gone? <==> exists k :: 0 <= k < |h| && Releases(h[k], id)
  {
    if h != [] {
      var g := h[..|h| - 1];
      GoneMeansReleased(g, id);
      if Status(g, id).Gone? {
        var k :| 0 <= k < |g| && Releases(g[k], id);
        assert Releases(h[k], id);
      }
      if k :| 0 <= k < |h| && Releases(h[k], id) {
        assert k < |g| ==> Releases(g[k], id);
      }
      assert Releases(h[|h| - 1], id) <==> h[|h| - 1].Released? && h[|h| - 1].id == id;
    }
  }

  /** No entry is released twice, none is inserted after its release, and every release
      happens at the latest due tick of the insertions made before it. */
  lemma ReleasedOnceAtTheMaximum(h: seq<Event>, k: nat)
    requires Faithful(h) && k < |h| && h[k].Released?
    ensures forall j :: 0 <= j < |h| && j != k && h[j].id == h[k].id ==> j < k && h[j].Inserted?
    ensures exists j :: 0 <= j < k && Inserts(h[j], h[k].id) && EventDue(h[j]) == At(h[k].tick)
    ensures forall j :: 0 <= j < k && Inserts(h[j], h[k].id) ==> NoLater(EventDue(h[j]), At(h[k].tick))
  {
    var id := h[k].id;
    FaithfulPrefix(h, k);
    DeadlineIsMaximum(h[..k], id);
    var w :| 0 <= w < k && Inserts(h[..k][w], id) && EventDue(h[..k][w]) == At(h[k].tick);
    assert Inserts(h[w], id) && EventDue(h[w]) == At(h[k].tick);
    forall j | 0 <= j < k && Inserts(h[j], id)
      ensures NoLater(EventDue(h[j]), At(h[k].tick))
    {
      assert h[..k][j] == h[j];
    }
    forall j | 0 <= j < |h| && j != k && h[j].id == id
      ensures j < k && h[j].Inserted?
    {
      var lo, hi := if j < k then j else k, if j < k then k else j;
      if h[lo].Released? {
        FaithfulPrefix(h, hi);
        GoneMeansReleased(h[..hi], id);
        assert Releases(h[..hi][lo], id);
        assert false;
      }
    }
  }

  /** With nothing overdue, an entry that was ever inserted is gone exactly when the latest
      due tick of its insertions has passed: none is lost and none is kept. */
  lemma GoneExactlyWhenPast(h: seq<Event>, now: nat, id: nat)
    requires Faithful(h) && NothingOverdue(h, now)
    requires forall k :: 0 <= k < |h| ==> h[k].tick <= now
    requires exists k :: 0 <= k < |h| && Inserts(h[k], id)
    ensures (exists k :: 0 <= k < |h| && Releases(h[k], id)) <==>
            (forall k :: 0 <= k < |h| && Inserts(h[k], id) ==> Past(EventDue(h[k]), now))
  {
    UnknownMeansUnseen(h, id);
    GoneMeansReleased(h, id);
    if r :| 0 <= r < |h| && Releases(h[r], id) {
      ReleasedOnceAtTheMaximum(h, r);
    } else {
      DeadlineIsMaximum(h, id);
      var k :| 0 <= k < |h| && Inserts(h[k], id) && EventDue(h[k]) == Status(h, id).due;
      assert !Past(EventDue(h[k]), now);
    }
  }

  /** An entry inserted once, with a delay from a minute to an hour, is released on its cascaded tick. Made
      between ticks, the insertion is never late and less than a minute early; made by a callback on a full
      minute, before the minute wheel turns, it is exactly a minute early. */
  lemma CascadedRelease(h: seq<Event>, k: nat, r: nat)
    requires Faithful(h) && k < |h| && r < |h| && h[k].Inserted? && Releases(h[r], h[k].id)
    requires MINUTE <= h[k].delay < HOUR
    requires forall j :: 0 <= j < |h| && Inserts(h[j], h[k].id) ==> j == k
    ensures !h[k].popping ==>
              h[r].tick == h[k].tick - h[k].tick % MINUTE + h[k].delay &&
              h[k].tick < h[r].tick <= h[k].tick + h[k].delay < h[r].tick + MINUTE
    ensures h[k].popping && h[k].tick % MINUTE == 0 ==> h[r].tick == h[k].tick + h[k].delay - MINUTE
  {
    ReleasedOnceAtTheMaximum(h, r);
    var j :| 0 <= j < r && Inserts(h[j], h[r].id) && EventDue(h[j]) == At(h[r].tick);
  }
}
