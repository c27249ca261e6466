/** The hierarchical timing wheel, whose entries run callbacks when they are destroyed. Its methods
    refine the steps of the deadline map kept in `book`. */
module TimingWheel {
  import opened DueTrace
  import opened Wheel
  import opened Coupling
  import opened Book

  /** The wheels refine the deadline map. */
  ghost predicate Consistent(s: Snapshot, b: Book) {
    Typed(s) && Coupled(Holders(s), b.history) && BookSound(b, s.tick)
  }

  datatype Clock = Clock(lastTs: int, tick: nat)

  /** The first call only starts the clock; later ones tick once a second has gone by. */
  function Advanced(c: Clock, now: int): Clock {
    if c.lastTs == 0 then Clock(now, c.tick)
    else if now - c.lastTs < 1000 then c
    else Clock(now, c.tick + 1)
  }

  // ----- the effect of each step of the class on the refinement

  lemma InsertConsistent(s: Snapshot, s': Snapshot, b: Book, id: nat, delay: nat, e: Entry)
    requires Consistent(s, b) && s'.tick == s.tick && s'.popping == s.popping
    requires Typed(s') && Holders(s') == Holders(s) + iset{(e, DueOf(delay, s.tick, s.popping))}
    requires Name(e) == id < b.nextId && b.callbacks[id].Plain? && !Status(b.history, id).Gone?
    ensures Consistent(s', Noted(b, id, delay, s.tick, s.popping))
  {
    CoupledInsert(Holders(s), b.history, Inserted(id, delay, s.tick, s.popping), e);
    NotedSound(b, id, delay, s.tick, s.popping);
  }

  lemma SetConsistent(s: Snapshot, s': Snapshot, b: Book, t: Timer, j: nat, e: Entry)
    requires Consistent(s, b) && s'.tick == s.tick && s'.popping == s.popping
    requires Typed(s') && Holders(s') == Holders(s) + iset{(e, DueOf(t.interval, s.tick, s.popping))}
    requires Name(e) == b.nextId && Settable(b, t, j, s.tick, s.popping)
    ensures Consistent(s', Set(b, t, j, s.tick, s.popping))
  {
    CoupledInsert(Holders(s), b.history, Inserted(b.nextId, t.interval, s.tick, s.popping), e);
    SetSound(b, t, j, s.tick, s.popping);
  }

  /** Dropping a reference releases the entry exactly when the deadline map says so. */
  lemma DropConsistent(s: Snapshot, b: Book, id: nat)
    requires Consistent(s, b) && b.rearming == -1 && User(id) in s.dropping
    requires forall e :: e in s.dropping ==> e.User?
    ensures var s' := s.(dropping := s.dropping - {User(id)});
            Typed(s') && (Held(s', id) <==> Status(b.history, id) != Live(At(s.tick))) &&
            (Held(s', id) ==> Consistent(s', b)) &&
            (!Held(s', id) ==>
               Consistent(s', Departed(b, id, s.tick)) &&
               if Repeating(b, id) then Ringing(Departed(b, id, s.tick), s.tick)
               else Departed(b, id, s.tick).rearming == -1)
  {
    var s' := s.(dropping := s.dropping - {User(id)});
    DropUserCoupled(s, b.history, id);
    if Held(s', id) {
      HeldMeansLater(s', b.history, id);
    } else {
      DepartedSound(b, id, s.tick);
    }
  }

  lemma HeldMeansLater(s: Snapshot, h: seq<Event>, id: nat)
    requires Typed(s) && Coupled(Holders(s), h) && Held(s, id) && User(id) !in s.dropping
    requires forall e :: e in s.dropping ==> e.User?
    ensures Status(h, id) != Live(At(s.tick))
  {
    HeldIffHolder(s, id);
    var p :| p in Holders(s) && Name(p.0) == id;
    HoldersAreAhead(s, p.0, p.1);
  }

  lemma FullHours(tick: nat)
    ensures tick % HOUR == 0 || tick % DAY == 0 ==> tick % MINUTE == 0
  {
    FullMinutes(tick % HOUR, 60 * (tick / HOUR));
    FullMinutes(tick % DAY, 1440 * (tick / DAY));
  }

  class TimingWheel {
    var wheels: seq<seq<Slot>>
    var lastTs: int
    var tick: nat
    /** The members, not yet destroyed, of the slot that was popped. */
    var dropping: Slot
    /** Callbacks of the second wheel are running: the minute wheel has yet to turn. */
    var popping: bool
    /** Wrappers are told apart by serial numbers. */
    var nextSerial: nat
    /** The names and callbacks of the caller's entries, and the trace. */
    var book: Book
    /** What the callback of each entry will ask of the wheel when it runs. */
    const script: nat -> seq<Command>

    function Now(): Snapshot
      reads this`wheels, this`tick, this`popping, this`dropping
    {
      Snapshot(wheels, tick, popping, dropping)
    }

    ghost predicate Sound()
      reads this
    {
      Consistent(Now(), book) && SensibleScript(script)
    }

    /** Between calls from the event loop no slot is being destroyed. */
    ghost predicate Quiescent()
      reads this
    {
      Sound() && dropping == {} && !popping && book.rearming == -1
    }

    constructor (script: nat -> seq<Command>)
      requires SensibleScript(script)
      ensures Quiescent() && book == EMPTY_BOOK && tick == 0 && lastTs == 0 && this.script == script
    {
      wheels := [seq(60, _ => {}), seq(60, _ => {}), seq(24, _ => {}), seq(30, _ => {})];
      lastTs, tick, nextSerial, book := 0, 0, 0, EMPTY_BOOK;
      dropping, popping := {}, false;
      this.script := script;
      new;
      assert Holders(Now()) == iset{};
    }

    method InsertSecondEntry(delay: nat, id: nat)
      requires Typed(Now()) && 0 < delay < MINUTE
      modifies this`wheels
      ensures PutFirst(old(wheels), wheels, SlotsReached(delay), User(id))
      ensures Typed(Now()) && Holders(Now()) == old(Holders(Now())) + iset{(User(id), DueOf(delay, tick, popping))}
    {
      PutSecond(Now(), delay, id);
      wheels := Put(wheels, SECOND_WHEEL, delay - 1, User(id));
    }

    method InsertMinuteEntry(delay: nat, id: nat) returns (ghost e: Entry)
      requires Typed(Now()) && MINUTE <= delay < HOUR && delay % MINUTE != 0
      modifies this`wheels, this`nextSerial
      ensures Name(e) == id && PutFirst(old(wheels), wheels, SlotsReached(delay), e)
      ensures e.Cascade? && SlotsReached(delay)[1..] == SlotsReached(e.rest)
      ensures Typed(Now()) && Holders(Now()) == old(Holders(Now())) + iset{(e, DueOf(delay, tick, popping))}
    {
      var minute, second := delay / MINUTE, delay % MINUTE;
      var newEntry := Cascade(nextSerial, second, id);
      PutMinute(Now(), delay, newEntry);
      nextSerial := nextSerial + 1;
      wheels := Put(wheels, MINUTE_WHEEL, minute - 1, newEntry);
      e := newEntry;
    }

    method InsertHourEntry(delay: nat, id: nat) returns (ghost e: Entry)
      requires Typed(Now()) && HOUR <= delay < DAY
      modifies this`wheels, this`nextSerial
      ensures Name(e) == id && PutFirst(old(wheels), wheels, SlotsReached(delay), e)
      ensures Typed(Now()) && Holders(Now()) == old(Holders(Now())) + iset{(e, Never)}
    {
      var hour, second := delay / HOUR, delay % HOUR;
      var newEntry := Cascade(nextSerial, second, id);
      PutFar(Now(), HOUR_WHEEL, hour - 1, newEntry);
      nextSerial := nextSerial + 1;
      wheels := Put(wheels, HOUR_WHEEL, hour - 1, newEntry);
      e := newEntry;
    }

    method InsertDayEntry(delay: nat, id: nat) returns (ghost e: Entry)
      requires Typed(Now()) && DAY <= delay && delay / DAY <= 30
      modifies this`wheels, this`nextSerial
      ensures Name(e) == id && PutFirst(old(wheels), wheels, SlotsReached(delay), e)
      ensures Typed(Now()) && Holders(Now()) == old(Holders(Now())) + iset{(e, Never)}
    {
      var day, second := delay / DAY, delay % DAY;
      var newEntry := Cascade(nextSerial, second, id);
      PutFar(Now(), DAY_WHEEL, day - 1, newEntry);
      nextSerial := nextSerial + 1;
      wheels := Put(wheels, DAY_WHEEL, day - 1, newEntry);
      e := newEntry;
    }

    /** Inserting an entry adds one reference to it, dropped at its due tick; an entry of more
        than thirty days is refused and nothing changes. */
    method InsertEntry(delay: nat, id: nat) returns (ghost e: Entry)
      requires Typed(Now()) && (Admissible(delay) || delay / DAY > 30)
      modifies this`wheels, this`nextSerial
      ensures Name(e) == id && (delay < MINUTE ==> e == User(id))
      ensures PutFirst(old(wheels), wheels, SlotsReached(delay), e)
      ensures MINUTE <= delay < HOUR ==> e.Cascade? && SlotsReached(delay)[1..] == SlotsReached(e.rest)
      ensures Typed(Now())
      ensures Admissible(delay) ==>
                Holders(Now()) == old(Holders(Now())) + iset{(e, DueOf(delay, tick, popping))}
    {
      e := User(id);
      if delay < MINUTE {
        InsertSecondEntry(delay, id);
      } else if delay < HOUR {
        e := InsertMinuteEntry(delay, id);
      } else if delay < DAY {
        e := InsertHourEntry(delay, id);
      } else {
        if delay / DAY > 30 {
          return;
        }
        e := InsertDayEntry(delay, id);
      }
    }

    /** Inserts an entry of the caller and notes it in the book. */
    method Insert(delay: nat, id: nat)
      requires Sound() && Admissible(delay)
      requires id < book.nextId && book.callbacks[id].Plain? && !Status(book.history, id).Gone?
      modifies this`wheels, this`nextSerial, this`book
      ensures Sound() && book == Noted(old(book), id, delay, tick, popping)
    {
      InsertKnown(delay, id);
      Adopt(Noted(book, id, delay, tick, popping));
    }

    method InsertKnown(delay: nat, id: nat)
      requires Sound() && Admissible(delay)
      requires id < book.nextId && book.callbacks[id].Plain? && !Status(book.history, id).Gone?
      modifies this`wheels, this`nextSerial
      ensures Consistent(Now(), Noted(book, id, delay, tick, popping))
    {
      ghost var s := Now();
      ghost var e := InsertEntry(delay, id);
      InsertConsistent(s, Now(), book, id, delay, e);
    }

    /** A new entry whose callback runs once. */
    method RunAfter(delay: nat)
      requires Sound() && Admissible(delay)
      modifies this`wheels, this`nextSerial, this`book
      ensures Sound() && book == Performed(old(book), After(delay), tick, popping)
    {
      NamedPlainSound(book, tick);
      var id := book.nextId;
      book := Named(book, Plain);
      Insert(delay, id);
    }

    /** Another insertion of an entry that the caller holds only weakly: nothing happens once the
        entry is gone. */
    method ExtendLife(id: nat, delay: nat)
      requires Sound() && Admissible(delay)
      modifies this`wheels, this`nextSerial, this`book
      ensures Sound() && book == Performed(old(book), Extend(id, delay), tick, popping)
    {
      HeldIffLive(Now(), book.history, id);
      if Held(Now(), id) && book.callbacks[id].Plain? {
        Insert(delay, id);
      }
    }

    method SetTimer(t: Timer, j: nat)
      requires Sound() && Settable(book, t, j, tick, popping)
      modifies this`wheels, this`nextSerial, this`book
      ensures Sound() && book == Set(old(book), t, j, tick, popping)
    {
      InsertTimer(t, j);
      Adopt(Set(book, t, j, tick, popping));
    }

    /** The book that the wheels refine by now. */
    method Adopt(b: Book)
      requires Consistent(Now(), b) && SensibleScript(script)
      modifies this`book
      ensures Sound() && book == b
    {
      book := b;
    }

    method InsertTimer(t: Timer, j: nat)
      requires Sound() && Settable(book, t, j, tick, popping)
      modifies this`wheels, this`nextSerial
      ensures Consistent(Now(), Set(book, t, j, tick, popping))
    {
      ghost var s := Now();
      ghost var e := InsertEntry(t.interval, book.nextId);
      SetConsistent(s, Now(), book, t, j, e);
    }

    method RunEvery(interval: nat)
      requires Sound() && Sensible(Repeat(interval))
      modifies this`wheels, this`nextSerial, this`book
      ensures Sound() && book == Performed(old(book), Repeat(interval), tick, popping)
    {
      NewTimerSettable(book, interval, tick, popping);
      SetTimer(NewTimer(book, interval, tick, popping), |book.timers|);
    }

    /** Runs one request of a callback, or of other code in the loop. */
    method Perform(c: Command)
      requires Sound() && Sensible(c)
      modifies this`wheels, this`nextSerial, this`book
      ensures Sound() && book == Performed(old(book), c, tick, popping)
    {
      match c
      case After(delay) => RunAfter(delay);
      case Extend(id, delay) => ExtendLife(id, delay);
      case Repeat(interval) => RunEvery(interval);
    }

    method RunCallback(id: nat)
      requires Sound()
      modifies this`wheels, this`nextSerial, this`book
      ensures Sound() && book == PerformedAll(old(book), script(id), tick, popping)
    {
      var cs := script(id);
      for i := 0 to |cs|
        invariant Sound() && book == PerformedAll(old(book), cs[..i], tick, popping)
      {
        PerformedNext(old(book), cs, i, tick, popping);
        Perform(cs[i]);
      }
      assert cs[..|cs|] == cs;
    }

    /** Sets a timer again from its own callback. */
    method Rearm()
      requires Sound() && (book.rearming == -1 || Ringing(book, tick))
      modifies this`wheels, this`nextSerial, this`book
      ensures Sound() && book == Rearmed(old(book), tick, popping)
    {
      if book.rearming != -1 {
        RearmSettable(book, tick, popping);
        SetTimer(book.timers[book.rearming].(current := book.nextId), book.rearming);
      }
    }

    /** The destructor of an entry runs its callback; a repeating timer then sets itself again. */
    method Release(id: nat)
      requires SensibleScript(script) && book.rearming == -1 && Consistent(Now(), Departed(book, id, tick))
      requires if Repeating(book, id) then Ringing(Departed(book, id, tick), tick)
               else Departed(book, id, tick).rearming == -1
      modifies this`wheels, this`nextSerial, this`book
      ensures Sound() && book == AfterRelease(old(book), id, script(id), tick, popping) && book.rearming == -1
    {
      ReleaseKeeps(book, id, script(id), tick, popping);
      Adopt(Departed(book, id, tick));
      RingsOn(book, script(id), tick, popping);
      RunCallback(id);
      Rearm();
    }

    /** Destroys a reference to a caller's entry, and the entry if it was the last one. */
    method DropUser(id: nat)
      requires Sound() && book.rearming == -1 && User(id) in dropping && forall e :: e in dropping ==> e.User?
      modifies this`wheels, this`nextSerial, this`book, this`dropping
      ensures Sound() && book.rearming == -1 && dropping == old(dropping) - {User(id)}
      ensures book == if Status(old(book).history, id) == Live(At(tick))
                      then AfterRelease(old(book), id, script(id), tick, popping) else old(book)
    {
      DropConsistent(Now(), book, id);
      dropping := dropping - {User(id)};
      if !Held(Now(), id) {
        Release(id);
      }
    }

    /** The destructor of a wrapper puts its entry back into the second wheel. */
    method DropCascade(c: Entry)
      requires Sound() && c in dropping && c.Cascade?
      modifies this`wheels, this`nextSerial, this`dropping
      ensures Sound() && dropping == old(dropping) - {c}
    {
      ghost var s := Now();
      ghost var e := InsertEntry(c.rest, c.inner);
      DropCascadeCoupled(s, Now(), book.history, c);
      dropping := dropping - {c};
    }

    /** Turns one wheel and destroys its old front slot, member by member in any order. */
    method PopUp(w: nat) returns (ghost order: seq<nat>)
      requires w <= MINUTE_WHEEL && Shape(wheels) && book.rearming == -1 && SensibleScript(script)
      requires Consistent(Rotated(Now(), w), book)
      requires forall e :: e in wheels[w][0] ==> (e.User? <==> w == SECOND_WHEEL)
      modifies this`wheels, this`nextSerial, this`book, this`dropping, this`popping
      ensures Sound() && book.rearming == -1 && dropping == {} && popping == (w == SECOND_WHEEL)
      ensures book == Drained(old(book), order, script, tick, true)
      ensures w == MINUTE_WHEEL ==> order == []
    {
      dropping, order := wheels[w][0], [];
      wheels, popping := wheels[w := Turned(wheels[w])], w == SECOND_WHEEL;
      while dropping != {}
        invariant Sound() && book.rearming == -1 && popping == (w == SECOND_WHEEL)
        invariant forall e :: e in dropping ==> (e.User? <==> w == SECOND_WHEEL)
        invariant book == Drained(old(book), order, script, tick, true)
        invariant w == MINUTE_WHEEL ==> order == []
      {
        var e :| e in dropping;
        if e.User? {
          DropUser(e.id);
          assert (order + [e.id])[..|order|] == order;
          order := order + [e.id];
        } else {
          DropCascade(e);
        }
      }
    }

    /** A second passes: the second wheel turns. */
    method Tick() returns (ghost order: seq<nat>)
      requires Quiescent()
      modifies this`wheels, this`nextSerial, this`book, this`dropping, this`popping, this`tick
      ensures Sound() && book.rearming == -1 && dropping == {} && popping && tick == old(tick) + 1
      ensures book == Drained(old(book), order, script, tick, true)
    {
      TurnSecond(Now());
      tick := tick + 1;
      order := PopUp(SECOND_WHEEL);
    }

    /** On a full minute the minute wheel turns as well. No tick reaches the hour and day wheels. */
    method TickLarger()
      requires Sound() && book.rearming == -1 && dropping == {} && popping
      modifies this`wheels, this`nextSerial, this`book, this`dropping, this`popping
      ensures Quiescent() && book == old(book)
    {
      FullHours(tick);
      if tick % MINUTE == 0 {
        TurnMinute(Now());
        ghost var order := PopUp(MINUTE_WHEEL);
      } else if tick % HOUR == 0 {
        assert false;
      } else if tick % DAY == 0 {
        assert false;
      } else {
        StopPopping(Now());
        popping := false;
      }
    }

    /** One call from the event loop: at most one tick passes. The deadline map drops the entries of
        one slot, in some order, and releases those whose deadline has come; none is overdue then. */
    method OnTimer(now: int) returns (ghost order: seq<nat>)
      requires Quiescent()
      modifies this
      ensures Quiescent() && NothingOverdue(book.history, tick)
      ensures Clock(lastTs, tick) == Advanced(old(Clock(lastTs, tick)), now)
      ensures book == Drained(old(book), order, script, tick, true)
      ensures tick == old(tick) ==> order == [] && wheels == old(wheels)
    {
      order := [];
      QuiescentNothingOverdue(Now(), book.history);
      if lastTs == 0 {
        lastTs := now;
      }
      if now - lastTs < 1000 {
        return;
      }
      lastTs := now;
      order := Tick();
      TickLarger();
      QuiescentNothingOverdue(Now(), book.history);
    }
  }
}
