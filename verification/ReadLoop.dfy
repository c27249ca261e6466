/** A loop that hands unread bytes to a reader until it consumes no more, and what it takes for such
    a loop not to care how the bytes are cut into pieces. */
module ReadLoop {
  import opened Bytes

  /** One call of the reader: no defined behaviour, nothing consumed, or progress. */
  datatype Reading<+S, +D> = Undefined | Stopped(state: S) | Went(state: S, rest: bytes, out: seq<D>)

  type Reader<!S, +D> = (S, bytes) -> Reading<S, D>

  /** `defined` is false when a call without defined behaviour was reached. */
  datatype Progress<+S, +D> = Progress(state: S, rest: bytes, out: seq<D>, defined: bool)

  function Prefixed<S, D>(out: seq<D>, r: Progress<S, D>): Progress<S, D> {
    r.(out := out + r.out)
  }

  ghost function Driven<S, D>(f: Reader<S, D>, s: S, buf: bytes): (r: Progress<S, D>)
    ensures |r.rest| <= |buf|
    decreases |buf|
  {
    match f(s, buf)
    case Undefined => Progress(s, buf, [], false)
    case Stopped(s') => Progress(s', buf, [], true)
    case Went(s', rest, out) =>
      if |rest| < |buf| then Prefixed(out, Driven(f, s', rest)) else Progress(s', buf, [], true)
  }

  /** More bytes arrive after the loop has stopped. */
  ghost function Resumed<S, D>(f: Reader<S, D>, r: Progress<S, D>, more: bytes): Progress<S, D> {
    if r.defined then Prefixed(r.out, Driven(f, r.state, r.rest + more)) else r.(rest := r.rest + more)
  }

  ghost predicate Agrees<S, D>(f: Reader<S, D>, s: S, buf: bytes, a: bytes, b: bytes) {
    a + b == buf ==> Driven(f, s, buf) == Resumed(f, Driven(f, s, a), b)
  }

  /** A call on `a` and a call on `a + b` fit together: the bytes behind make no difference, or they
      continue what the first call began. */
  ghost predicate Cuts<S, D>(f: Reader<S, D>, s: S, a: bytes, b: bytes) {
    match f(s, a)
    case Undefined => f(s, a + b).Undefined?
    case Stopped(s') => s' == s || (f(s, a + b) == f(s', a + b) == Stopped(s'))
    case Went(s', rest, out) =>
      |rest| < |a| &&
      (f(s, a + b) == Went(s', rest + b, out) ||
       (rest == [] && out == [] && f(s', []) == Stopped(s') &&
        f(s', b) == f(s, a + b) && f(s', b).Went? && |f(s', b).rest| < |b|))
  }

  /** `inv` holds of a state and the bytes to come, is kept by every call, and makes calls cuttable. */
  ghost predicate Closed<S(!new), D>(f: Reader<S, D>, inv: (S, bytes) -> bool) {
    forall s, a, b :: inv(s, a + b) ==> Cuts(f, s, a, b) && Keeps(f, inv, s, a, b)
  }

  ghost predicate Keeps<S, D>(f: Reader<S, D>, inv: (S, bytes) -> bool, s: S, a: bytes, b: bytes) {
    match f(s, a)
    case Undefined => true
    case Stopped(s') => inv(s', a + b)
    case Went(s', rest, _) => inv(s', rest + b)
  }

  lemma PrefixedTwice<S, D>(x: seq<D>, y: seq<D>, r: Progress<S, D>)
    ensures Prefixed(x, Prefixed(y, r)) == Prefixed(x + y, r)
  {
  }

  lemma PrefixedInjective<S, D>(out: seq<D>, x: Progress<S, D>, y: Progress<S, D>)
    ensures Prefixed(out, x) == Prefixed(out, y) ==> x == y
  {
    assert (out + x.out)[|out|..] == x.out && (out + y.out)[|out|..] == y.out;
  }

  lemma {:induction false} ResumedPrefixed<S, D>(f: Reader<S, D>, out: seq<D>, r: Progress<S, D>, more: bytes)
    ensures Resumed(f, Prefixed(out, r), more) == Prefixed(out, Resumed(f, r, more))
  {
    if r.defined {
      PrefixedTwice(out, r.out, Driven(f, r.state, r.rest + more));
    }
  }

  /** Running the loop on what has arrived and again when the rest arrives is running it once. */
  lemma {:induction false} Fragmented<S(!new), D>(f: Reader<S, D>, inv: (S, bytes) -> bool, s: S, a: bytes, b: bytes)
    requires Closed(f, inv) && inv(s, a + b)
    ensures Driven(f, s, a + b) == Resumed(f, Driven(f, s, a), b)
    ensures Driven(f, s, a).defined ==> inv(Driven(f, s, a).state, Driven(f, s, a).rest + b)
    decreases |a|
  {
    assert Cuts(f, s, a, b) && Keeps(f, inv, s, a, b);
    match f(s, a)
    case Undefined =>
    case Stopped(s') =>
    case Went(s', rest, out) =>
      if f(s, a + b) == Went(s', rest + b, out) {
        Fragmented(f, inv, s', rest, b);
        ResumedPrefixed(f, out, Driven(f, s', rest), b);
      } else {
        assert [] + b == b;
        assert Driven(f, s, a) == Progress(s', [], [], true);
      }
  }

  lemma {:induction false} DrivenWent<S, D>(f: Reader<S, D>, s: S, buf: bytes, s': S, rest: bytes, out: seq<D>)
    requires f(s, buf) == Went(s', rest, out) && |rest| < |buf|
    ensures Driven(f, s, buf) == Prefixed(out, Driven(f, s', rest))
  {
  }

  lemma {:induction false} DrivenStopped<S, D>(f: Reader<S, D>, s: S, buf: bytes, s': S)
    requires f(s, buf) == Stopped(s')
    ensures Driven(f, s, buf) == Progress(s', buf, [], true)
  {
  }

  /** A message read first is handed on before what the rest of the bytes give. */
  lemma {:induction false} ReadFirst<S, D>(f: Reader<S, D>, s: S, buf: bytes, out: D, next: S, rest: bytes,
                                           r: Progress<S, D>)
    requires Driven(f, s, buf) == Prefixed([out], Driven(f, next, rest)) && r == Driven(f, next, rest)
    ensures Driven(f, s, buf) == r.(out := [out] + r.out)
  {
  }

  // ----- any number of reads

  function Concat(parts: seq<bytes>): bytes {
    if parts == [] then [] else parts[0] + Concat(parts[1..])
  }

  /** The loop is run after every read. */
  ghost function Fed<S, D>(f: Reader<S, D>, s: S, rest: bytes, fragments: seq<bytes>): Progress<S, D>
    decreases |fragments|
  {
    if fragments == [] then Progress(s, rest, [], true)
    else
      var r := Driven(f, s, rest + fragments[0]);
      if r.defined then Prefixed(r.out, Fed(f, r.state, r.rest, fragments[1..]))
      else r.(rest := r.rest + Concat(fragments[1..]))
  }

  /** Whatever the reads, they give what one read of all the bytes gives. */
  lemma {:induction false} FedIsDriven<S(!new), D>(f: Reader<S, D>, inv: (S, bytes) -> bool, s: S, rest: bytes,
                                                   fragments: seq<bytes>)
    requires Closed(f, inv) && inv(s, rest + Concat(fragments)) && fragments != []
    ensures Fed(f, s, rest, fragments) == Driven(f, s, rest + Concat(fragments))
    decreases |fragments|
  {
    var first, others := rest + fragments[0], Concat(fragments[1..]);
    assert rest + Concat(fragments) == first + others;
    Fragmented(f, inv, s, first, others);
    var r := Driven(f, s, first);
    if r.defined {
      if |fragments| == 1 {
        assert first + others == first;
        assert r.out + [] == r.out;
      } else {
        FedIsDriven(f, inv, r.state, r.rest, fragments[1..]);
      }
    }
  }

  // ----- disagreement

  /** A disagreement after a call is one before it, if the call is the same on fewer bytes. */
  lemma {:induction false} DisagreesBefore<S, D>(f: Reader<S, D>, s: S, c: bytes, a: bytes, b: bytes)
    requires f(s, c + (a + b)).Went? && f(s, c + (a + b)).rest == a + b && |a + b| < |c + (a + b)|
    requires f(s, c + a) == f(s, c + (a + b)).(rest := a) && !Agrees(f, f(s, c + a).state, a + b, a, b)
    ensures !Agrees(f, s, c + (a + b), c + a, b)
  {
    var Went(s', _, out) := f(s, c + a);
    ResumedPrefixed(f, out, Driven(f, s', a), b);
    PrefixedInjective(out, Driven(f, s', a + b), Resumed(f, Driven(f, s', a), b));
    assert c + (a + b) == (c + a) + b;
  }
}
