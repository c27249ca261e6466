/** The refinement relation between the references the wheels hold and the deadline map. */
module Coupling {
  import opened DueTrace
  import opened Wheel

  type Holding = (Entry, Due)

  /** Every reference belongs to a live entry and falls due no later than its deadline, and one
      reference falls due exactly then. */
  ghost predicate Coupled(held: iset<Holding>, h: seq<Event>) {
    (forall p :: p in held ==>
      Status(h, Name(p.0)).Live? && NoLater(p.1, Status(h, Name(p.0)).due)) &&
    (forall id :: Status(h, id).Live? ==> Reached(held, id, Status(h, id).due))
  }

  ghost predicate Reached(held: iset<Holding>, id: nat, due: Due) {
    exists e: Entry :: Name(e) == id && (e, due) in held
  }

  /** A caller's insertion adds one reference, and the deadline becomes the later one. */
  lemma CoupledInsert(held: iset<Holding>, h: seq<Event>, ev: Event, e: Entry)
    requires Coupled(held, h) && ev.Inserted? && Name(e) == ev.id && !Status(h, ev.id).Gone?
    ensures Coupled(held + iset{(e, EventDue(ev))}, h + [ev])
  {
    var held', h' := held + iset{(e, EventDue(ev))}, h + [ev];
    forall id
      ensures Status(h', id) == Advance(Status(h, id), ev, id)
      ensures Status(h', id).Live? ==> Reached(held', id, Status(h', id).due)
    {
      StatusAppend(h, ev, id);
      if Status(h', id).Live? {
        if id == ev.id && Status(h', id).due == EventDue(ev) {
          assert (e, Status(h', id).due) in held';
        } else {
          var f: Entry :| Name(f) == id && (f, Status(h', id).due) in held;
          assert (f, Status(h', id).due) in held';
        }
      }
    }
  }

  /** A wrapper that puts its entry back adds a reference that is due when the wrapper was. */
  lemma CoupledPutBack(held: iset<Holding>, h: seq<Event>, p: Holding, q: Holding)
    requires Coupled(held, h) && p in held && Name(q.0) == Name(p.0) && q.1 == p.1
    ensures Coupled(held + iset{q}, h)
  {
    var held' := held + iset{q};
    forall id | Status(h, id).Live?
      ensures Reached(held', id, Status(h, id).due)
    {
      var f: Entry :| Name(f) == id && (f, Status(h, id).due) in held;
      assert (f, Status(h, id).due) in held';
    }
  }

  /** Losing a reference is harmless while another one is due no earlier. */
  lemma CoupledDrop(held: iset<Holding>, h: seq<Event>, p: Holding, q: Holding)
    requires Coupled(held, h) && p in held && q in held && p != q
    requires Name(q.0) == Name(p.0) && NoLater(p.1, q.1)
    ensures Coupled(held - iset{p}, h)
  {
    var held' := held - iset{p};
    forall id | Status(h, id).Live?
      ensures Reached(held', id, Status(h, id).due)
    {
      var f: Entry :| Name(f) == id && (f, Status(h, id).due) in held;
      if (f, Status(h, id).due) == p {
        assert q.1 == p.1;
        assert (q.0, Status(h, id).due) in held';
      } else {
        assert (f, Status(h, id).due) in held';
      }
    }
  }

  /** Losing the last reference happens exactly at the deadline, and releases the entry. */
  lemma CoupledRelease(held: iset<Holding>, h: seq<Event>, p: Holding)
    requires Coupled(held, h) && p in held && p.1.At?
    requires forall q :: q in held && Name(q.0) == Name(p.0) ==> q == p
    ensures Status(h, Name(p.0)) == Live(p.1)
    ensures Coupled(held - iset{p}, h + [Released(Name(p.0), p.1.tick)])
  {
    var ev := Released(Name(p.0), p.1.tick);
    var held', h' := held - iset{p}, h + [ev];
    forall id
      ensures Status(h', id) == Advance(Status(h, id), ev, id)
      ensures Status(h', id).Live? ==> Reached(held', id, Status(h', id).due)
    {
      StatusAppend(h, ev, id);
      if Status(h', id).Live? {
        var f: Entry :| Name(f) == id && (f, Status(h, id).due) in held;
        assert (f, Status(h', id).due) in held';
      }
    }
    var f: Entry :| Name(f) == Name(p.0) && (f, Status(h, Name(p.0)).due) in held;
    assert (f, Status(h, Name(p.0)).due) == p;
  }

  /** Every reference outside the slot being destroyed is due in the future. */
  lemma HoldersAreAhead(s: Snapshot, e: Entry, due: Due)
    requires Typed(s) && Holds(s, e, due) && e !in s.dropping
    ensures !Past(due, s.tick)
  {
    if due.At? && e.Cascade? {
      assert NextMinute(s) * MINUTE <= due.tick - e.rest;
      var i := due.tick / MINUTE - NextMinute(s);
      assert e in s.wheels[1][i];
    }
  }

  lemma QuiescentNothingOverdue(s: Snapshot, h: seq<Event>)
    requires Typed(s) && s.dropping == {} && Coupled(Holders(s), h)
    ensures NothingOverdue(h, s.tick)
  {
    forall id | Status(h, id).Live?
      ensures !Past(Status(h, id).due, s.tick)
    {
      var e: Entry :| Name(e) == id && (e, Status(h, id).due) in Holders(s);
      HoldersAreAhead(s, e, Status(h, id).due);
    }
  }

  /** Being referenced and being live in the deadline map are the same thing. */
  lemma HeldIffLive(s: Snapshot, h: seq<Event>, id: nat)
    requires Typed(s) && Coupled(Holders(s), h)
    ensures Held(s, id) <==> Status(h, id).Live?
  {
    HeldIffHolder(s, id);
    if Status(h, id).Live? {
      var e: Entry :| Name(e) == id && (e, Status(h, id).due) in Holders(s);
      assert (e, Status(h, id).due) in Holders(s) && Name((e, Status(h, id).due).0) == id;
    }
  }

  /** Dropping a caller's entry: with another reference left nothing happens; otherwise the
      entry is at its deadline and is released. */
  lemma DropUserCoupled(s: Snapshot, h: seq<Event>, id: nat)
    requires Typed(s) && Coupled(Holders(s), h) && User(id) in s.dropping
    requires forall e :: e in s.dropping ==> e.User?
    ensures var s' := s.(dropping := s.dropping - {User(id)});
            Typed(s') &&
            if Held(s', id) then Coupled(Holders(s'), h)
            else Status(h, id) == Live(At(s.tick)) && Coupled(Holders(s'), h + [Released(id, s.tick)])
  {
    var s' := s.(dropping := s.dropping - {User(id)});
    var p := (User(id), At(s.tick));
    DropOne(s, User(id));
    HeldIffHolder(s', id);
    if Held(s', id) {
      var q :| q in Holders(s') && Name(q.0) == id;
      assert q.0 !in s'.dropping;
      HoldersAreAhead(s', q.0, q.1);
      CoupledDrop(Holders(s), h, p, q);
    } else {
      assert forall q :: q in Holders(s) && q != p ==> q in Holders(s');
      CoupledRelease(Holders(s), h, p);
    }
  }

  /** Dropping a wrapper on a full minute, after its entry has gone back into the second wheel. */
  lemma DropCascadeCoupled(s: Snapshot, s1: Snapshot, h: seq<Event>, c: Entry)
    requires Typed(s) && Coupled(Holders(s), h) && c in s.dropping && c.Cascade?
    requires Typed(s1) && s1.dropping == s.dropping && s1.tick == s.tick
    requires Holders(s1) == Holders(s) + iset{(User(c.inner), At(s.tick + c.rest))}
    ensures var s' := s1.(dropping := s1.dropping - {c});
            Typed(s') && Coupled(Holders(s'), h)
  {
    var p, q := (c, At(s.tick + c.rest)), (User(c.inner), At(s.tick + c.rest));
    DropOne(s, c);
    CoupledPutBack(Holders(s), h, p, q);
    DropOne(s1, c);
    CoupledDrop(Holders(s1), h, p, q);
  }
}
