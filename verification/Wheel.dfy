/** The contents of the four wheels as a value, the references they hold, and the coupling of
    those references with a trace. */
module Wheel {
  import opened DueTrace

  /** What a slot may hold: a caller's entry, or the wrapper that puts one back later. */
  datatype Entry =
    | User(id: nat)
    | Cascade(serial: nat, rest: nat, inner: nat)

  type Slot = set<Entry>

  const SECOND_WHEEL: nat := 0
  const MINUTE_WHEEL: nat := 1
  const HOUR_WHEEL: nat := 2
  const DAY_WHEEL: nat := 3

  /** `dropping` is the slot being destroyed; its members not yet reached are still referenced. */
  datatype Snapshot = Snapshot(wheels: seq<seq<Slot>>, tick: nat, popping: bool, dropping: Slot)

  function Name(e: Entry): nat {
    if e.User? then e.id else e.inner
  }

  predicate HeldBy(slot: Slot, id: nat) {
    exists e :: e in slot && Name(e) == id
  }

  predicate Shape(ws: seq<seq<Slot>>) {
    |ws| == 4 && |ws[0]| == 60 && |ws[1]| == 60 && |ws[2]| == 24 && |ws[3]| == 30
  }

  /** The reference count of an entry is positive: some slot or some wrapper holds it. */
  predicate Held(s: Snapshot, id: nat)
    requires Shape(s.wheels)
  {
    HeldBy(s.dropping, id) ||
    exists w, i :: 0 <= w < 4 && 0 <= i < |s.wheels[w]| && HeldBy(s.wheels[w][i], id)
  }

  function Put(ws: seq<seq<Slot>>, w: nat, i: nat, e: Entry): seq<seq<Slot>>
    requires w < |ws| && i < |ws[w]|
  {
    ws[w := ws[w][i := ws[w][i] + {e}]]
  }

  /** The slots an insertion reaches, the one its wrapper reaches later included. */
  function SlotsReached(delay: nat): seq<(nat, int)> {
    if delay < MINUTE then [(SECOND_WHEEL, delay - 1)]
    else if delay < HOUR then
      [(MINUTE_WHEEL, delay / MINUTE - 1), (SECOND_WHEEL, delay % MINUTE - 1)]
    else if delay < DAY then [(HOUR_WHEEL, delay / HOUR - 1)]
    else if delay / DAY > 30 then []
    else [(DAY_WHEEL, delay / DAY - 1)]
  }

  function WheelSize(w: nat): nat {
    if w <= MINUTE_WHEEL then 60 else if w == HOUR_WHEEL then 24 else 30
  }

  predicate InRange(slot: (nat, int)) {
    0 <= slot.1 < WheelSize(slot.0)
  }

  /** `e` has been added to the first of these slots and nothing else has changed. */
  predicate PutFirst(ws: seq<seq<Slot>>, ws': seq<seq<Slot>>, slots: seq<(nat, int)>, e: Entry)
    requires Shape(ws)
  {
    if slots == [] then ws' == ws
    else slots[0].0 < 4 && InRange(slots[0]) && ws' == Put(ws, slots[0].0, slots[0].1, e)
  }

  function Turned(wheel: seq<Slot>): seq<Slot>
    requires wheel != []
  {
    wheel[1..] + [{}]
  }

  /** The state right after a wheel has turned, with its old front slot about to be destroyed. */
  function Rotated(s: Snapshot, w: nat): Snapshot
    requires Shape(s.wheels) && w < 4
  {
    s.(wheels := s.wheels[w := Turned(s.wheels[w])], dropping := s.wheels[w][0], popping := w == SECOND_WHEEL)
  }

  ghost predicate Typed(s: Snapshot) {
    Shape(s.wheels) &&
    (forall i, e :: 0 <= i < 60 && e in s.wheels[0][i] ==> e.User?) &&
    (forall i, e :: 0 <= i < 60 && e in s.wheels[1][i] ==> e.Cascade? && 0 < e.rest < MINUTE) &&
    (forall i, e :: 0 <= i < 24 && e in s.wheels[2][i] ==> e.Cascade?) &&
    (forall i, e :: 0 <= i < 30 && e in s.wheels[3][i] ==> e.Cascade?) &&
    (forall e :: e in s.dropping && e.Cascade? ==> 0 < e.rest < MINUTE && s.tick % MINUTE == 0 && !s.popping)
  }

  /** Slot contents addressed by the absolute tick at which they are dropped. */
  function SecondAt(s: Snapshot, t: int): Slot
    requires Shape(s.wheels)
  {
    if s.tick < t <= s.tick + 60 then s.wheels[0][t - s.tick - 1] else {}
  }

  function NextMinute(s: Snapshot): nat {
    if s.popping && s.tick % MINUTE == 0 then s.tick / MINUTE else s.tick / MINUTE + 1
  }

  function MinuteAt(s: Snapshot, m: int): Slot
    requires Shape(s.wheels)
  {
    if NextMinute(s) <= m < NextMinute(s) + 60 then s.wheels[1][m - NextMinute(s)] else {}
  }

  ghost predicate InFar(s: Snapshot, e: Entry)
    requires Shape(s.wheels)
  {
    (exists i :: 0 <= i < 24 && e in s.wheels[2][i]) || (exists i :: 0 <= i < 30 && e in s.wheels[3][i])
  }

  /** `e` is referenced somewhere from where it, or the entry it wraps, will be dropped when due. */
  ghost predicate Holds(s: Snapshot, e: Entry, due: Due)
    requires Shape(s.wheels)
  {
    match due
    case Never => InFar(s, e)
    case At(t) =>
      if e.User? then e in SecondAt(s, t) || (e in s.dropping && t == s.tick)
      else t % MINUTE == e.rest &&
           (e in MinuteAt(s, t / MINUTE) || (e in s.dropping && t / MINUTE == s.tick / MINUTE))
  }

  ghost function Holders(s: Snapshot): iset<(Entry, Due)>
    requires Shape(s.wheels)
  {
    iset e: Entry, due: Due | Holds(s, e, due) :: (e, due)
  }

  // ----- how each step changes the set of references

  lemma PutSecond(s: Snapshot, delay: nat, id: nat)
    requires Typed(s) && 0 < delay < MINUTE
    ensures var s' := s.(wheels := Put(s.wheels, 0, delay - 1, User(id)));
            Typed(s') && Holders(s') == Holders(s) + iset{(User(id), DueOf(delay, s.tick, s.popping))}
  {
    var s' := s.(wheels := Put(s.wheels, 0, delay - 1, User(id)));
    forall k: int
      ensures SecondAt(s', k) == if k == s.tick + delay then SecondAt(s, k) + {User(id)} else SecondAt(s, k)
      ensures MinuteAt(s', k) == MinuteAt(s, k)
    {
    }
    forall e, due
      ensures Holds(s', e, due) <==> Holds(s, e, due) || (e == User(id) && due == At(s.tick + delay))
    {
      SameFar(s, s', e);
    }
  }

  lemma PutMinute(s: Snapshot, delay: nat, c: Entry)
    requires Typed(s) && MINUTE <= delay < HOUR && delay % MINUTE != 0
    requires c.Cascade? && c.rest == delay % MINUTE
    ensures var s' := s.(wheels := Put(s.wheels, 1, delay / MINUTE - 1, c));
            Typed(s') && Holders(s') == Holders(s) + iset{(c, DueOf(delay, s.tick, s.popping))}
  {
    var s' := s.(wheels := Put(s.wheels, 1, delay / MINUTE - 1, c));
    var m := NextMinute(s) + delay / MINUTE - 1;
    forall k: int
      ensures MinuteAt(s', k) == if k == m then MinuteAt(s, k) + {c} else MinuteAt(s, k)
    {
    }
    assert DueOf(delay, s.tick, s.popping) == At(m * MINUTE + c.rest);
    forall e, due
      ensures Holds(s', e, due) <==> Holds(s, e, due) || (e == c && due == At(m * MINUTE + c.rest))
    {
      SameFar(s, s', e);
      if due.At? {
        MinuteSplit(due.tick, m, c.rest);
        assert SecondAt(s', due.tick) == SecondAt(s, due.tick);
        assert MinuteAt(s', due.tick / MINUTE) ==
               if due.tick / MINUTE == m then MinuteAt(s, m) + {c} else MinuteAt(s, due.tick / MINUTE);
      }
    }
  }

  lemma SameFar(s: Snapshot, s': Snapshot, e: Entry)
    requires Shape(s.wheels) && Shape(s'.wheels) && s'.wheels[2] == s.wheels[2] && s'.wheels[3] == s.wheels[3]
    ensures InFar(s', e) <==> InFar(s, e)
  {
  }

  lemma MinuteSplit(t: nat, m: nat, rest: nat)
    requires rest < MINUTE
    ensures t == m * MINUTE + rest <==> t / MINUTE == m && t % MINUTE == rest
  {
  }

  lemma PutFar(s: Snapshot, w: nat, i: nat, c: Entry)
    requires Typed(s) && 2 <= w < 4 && i < |s.wheels[w]| && c.Cascade?
    ensures var s' := s.(wheels := Put(s.wheels, w, i, c));
            Typed(s') && Holders(s') == Holders(s) + iset{(c, Never)}
  {
    var s' := s.(wheels := Put(s.wheels, w, i, c));
    assert c in s'.wheels[w][i];
    forall e
      ensures InFar(s', e) <==> InFar(s, e) || e == c
    {
      if InFar(s, e) {
        if j :| 0 <= j < 24 && e in s.wheels[2][j] { assert e in s'.wheels[2][j]; }
        if j :| 0 <= j < 30 && e in s.wheels[3][j] { assert e in s'.wheels[3][j]; }
      }
    }
    forall e, due
      ensures Holds(s', e, due) <==> Holds(s, e, due) || (e == c && due == Never)
    {
    }
  }

  /** A new tick turns the second wheel and moves no due tick. */
  lemma TurnSecond(s: Snapshot)
    requires Typed(s) && s.dropping == {} && !s.popping
    ensures var s' := Rotated(s.(tick := s.tick + 1), SECOND_WHEEL);
            Typed(s') && Holders(s') == Holders(s) && forall e :: e in s'.dropping ==> e.User?
  {
    var s' := Rotated(s.(tick := s.tick + 1), SECOND_WHEEL);
    assert NextMinute(s') == NextMinute(s);
    forall e | e in s'.dropping
      ensures e.User?
    {
      assert e in s.wheels[0][0];
    }
    forall k: int
      ensures SecondAt(s', k) == if k == s.tick + 1 then {} else SecondAt(s, k)
    {
      if s'.tick < k < s'.tick + 60 {
        assert s'.wheels[0][k - s'.tick - 1] == s.wheels[0][k - s.tick - 1];
      }
    }
    forall e, due
      ensures Holds(s', e, due) <==> Holds(s, e, due)
    {
      if due.At? && e.User? {
        assert SecondAt(s', due.tick) == if due.tick == s.tick + 1 then {} else SecondAt(s, due.tick);
        assert s'.dropping == SecondAt(s, s.tick + 1);
      } else if due.At? {
        assert MinuteAt(s', due.tick / MINUTE) == MinuteAt(s, due.tick / MINUTE);
      } else {
        assert s'.wheels[2] == s.wheels[2] && s'.wheels[3] == s.wheels[3];
      }
    }
  }

  /** On a full minute the minute wheel turns, again without moving any due tick. */
  lemma TurnMinute(s: Snapshot)
    requires Typed(s) && s.dropping == {} && s.popping && s.tick % MINUTE == 0
    ensures var s' := Rotated(s, MINUTE_WHEEL);
            Typed(s') && Holders(s') == Holders(s) && forall e :: e in s'.dropping ==> e.Cascade?
  {
    var s' := Rotated(s, MINUTE_WHEEL);
    assert NextMinute(s') == NextMinute(s) + 1;
    assert s'.dropping == MinuteAt(s, s.tick / MINUTE);
    forall e | e in s'.dropping
      ensures e.Cascade?
    {
      assert e in s.wheels[1][0];
    }
    forall k: int
      ensures MinuteAt(s', k) == if k == s.tick / MINUTE then {} else MinuteAt(s, k)
    {
      if NextMinute(s') <= k < NextMinute(s') + 59 {
        assert s'.wheels[1][k - NextMinute(s')] == s.wheels[1][k - NextMinute(s)];
      }
    }
    forall e, due
      ensures Holds(s', e, due) <==> Holds(s, e, due)
    {
      SameFar(s, s', e);
      if due.At? {
        assert SecondAt(s', due.tick) == SecondAt(s, due.tick);
        if e.Cascade? {
          var m := due.tick / MINUTE;
          assert MinuteAt(s', m) == if m == s.tick / MINUTE then {} else MinuteAt(s, m);
        }
      }
    }
  }

  lemma StopPopping(s: Snapshot)
    requires Typed(s) && s.dropping == {} && (s.tick % MINUTE == 0 ==> !s.popping)
    ensures var s' := s.(popping := false); Typed(s') && Holders(s') == Holders(s)
  {
    var s' := s.(popping := false);
    assert NextMinute(s') == NextMinute(s);
    forall e, due
      ensures Holds(s', e, due) <==> Holds(s, e, due)
    {
    }
  }

  /** Destroying one member of the dropped slot takes away exactly one reference. */
  lemma DropOne(s: Snapshot, e: Entry)
    requires Typed(s) && e in s.dropping
    ensures var s' := s.(dropping := s.dropping - {e});
            var due := At(if e.User? then s.tick else s.tick + e.rest);
            Typed(s') && (e, due) in Holders(s) && Holders(s') == Holders(s) - iset{(e, due)}
  {
    var s' := s.(dropping := s.dropping - {e});
    var due := At(if e.User? then s.tick else s.tick + e.rest);
    forall f, d
      ensures Holds(s', f, d) <==> Holds(s, f, d) && !(f == e && d == due)
    {
      SameFar(s, s', f);
      if d.At? {
        assert SecondAt(s', d.tick) == SecondAt(s, d.tick);
        assert MinuteAt(s', d.tick / MINUTE) == MinuteAt(s, d.tick / MINUTE);
        if e.Cascade? {
          MinuteSplit(d.tick, s.tick / MINUTE, e.rest);
        }
      }
    }
  }

  lemma HeldIffHolder(s: Snapshot, id: nat)
    requires Typed(s)
    ensures Held(s, id) <==> exists p :: p in Holders(s) && Name(p.0) == id
  {
    if HeldBy(s.dropping, id) {
      var e :| e in s.dropping && Name(e) == id;
      DropOne(s, e);
    }
    if w, i :| 0 <= w < 4 && 0 <= i < |s.wheels[w]| && HeldBy(s.wheels[w][i], id) {
      var e :| e in s.wheels[w][i] && Name(e) == id;
      SlotMember(s, w, i, e);
    }
    if p :| p in Holders(s) && Name(p.0) == id {
      HolderIsHeld(s, p.0, p.1);
    }
  }

  function SlotDue(s: Snapshot, w: nat, i: nat, e: Entry): Due {
    if w == 0 then At(s.tick + i + 1)
    else if w == 1 then At((NextMinute(s) + i) * MINUTE + if e.Cascade? then e.rest else 0)
    else Never
  }

  lemma SlotMember(s: Snapshot, w: nat, i: nat, e: Entry)
    requires Typed(s) && w < 4 && i < |s.wheels[w]| && e in s.wheels[w][i]
    ensures (e, SlotDue(s, w, i, e)) in Holders(s)
  {
    if w == 0 {
      assert e in SecondAt(s, s.tick + i + 1);
    } else if w == 1 {
      MinuteSplit((NextMinute(s) + i) * MINUTE + e.rest, NextMinute(s) + i, e.rest);
      assert e in MinuteAt(s, NextMinute(s) + i);
    } else {
      assert e in s.wheels[w][i];
    }
  }

  lemma HolderIsHeld(s: Snapshot, e: Entry, due: Due)
    requires Typed(s) && Holds(s, e, due)
    ensures Held(s, Name(e))
  {
    if due.At? && e in s.dropping {
      assert HeldBy(s.dropping, Name(e));
    } else {
      var w, i :| 0 <= w < 4 && 0 <= i < |s.wheels[w]| && e in s.wheels[w][i];
      assert HeldBy(s.wheels[w][i], Name(e));
    }
  }
}
