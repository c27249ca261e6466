/** How the bytes are cut into reads makes no difference to what is parsed. */
module Framing {
  import opened Bytes
  import StringUtils
  import opened Parsing
  import opened ReadLoop

  lemma SlicesOfSum(a: bytes, b: bytes, n: nat)
    requires n <= |a|
    ensures (a + b)[..n] == a[..n] && (a + b)[n..] == a[n..] + b
  {
  }

  ghost predicate Alone(p: Parser, a: bytes, b: bytes) {
    match ParserCall(p, a)
    case Undefined => ParserCall(p, a + b).Undefined?
    case Went(next, rest, out) => |rest| < |a| && ParserCall(p, a + b) == Went(next, rest + b, out)
    case Stopped(_) => false
  }

  /** A header section that is complete is read the same whatever follows. */
  lemma HeaderSectionAlone(p: Parser, a: bytes, b: bytes)
    requires p.state.ExpectHeaders? && |a| > 4 && Find(a, CRLFCRLF).Some?
    ensures Alone(p, a, b)
  {
    var n := Find(a, CRLFCRLF).value;
    FindInPrefix(a, b, CRLFCRLF);
    SlicesOfSum(a, b, n);
    SlicesOfSum(a, b, n + 4);
  }

  /** The room left in the packet of a body state. */
  function Room(p: Parser): int {
    if p.chunk.Some? then p.chunk.value.Space() else if p.state.ExpectNormalBody? then p.contentLength else MAX_BODY
  }

  predicate Filling(p: Parser) {
    p.state.ExpectStreamBody? || (p.state.ExpectNormalBody? && (p.chunk.Some? || 0 <= p.contentLength))
  }

  /** So is a packet that gets full. */
  lemma BodyAlone(p: Parser, a: bytes, b: bytes)
    requires Sane(p) && Filling(p) && a != [] && Room(p) <= |a|
    ensures Alone(p, a, b)
  {
    SlicesOfSum(a, b, Room(p));
  }

  lemma SplitFilling(data: bytes, a: bytes, b: bytes, n: nat)
    requires n <= |b|
    ensures data + (a + b)[..|a| + n] == (data + a) + b[..n] && (a + b)[|a| + n..] == b[n..]
    ensures a[..|a|] == a && a[|a|..] == []
  {
    assert (a + b)[..|a| + n] == a + b[..n];
  }

  ghost predicate Merges(p: Parser, a: bytes, b: bytes) {
    var r := ParserCall(p, a);
    r.Went? && r.rest == [] && r.out == [] && Sane(r.state) && ParserCall(r.state, []) == Stopped(r.state) &&
    (b != [] ==> ParserCall(r.state, b) == ParserCall(p, a + b) && ParserCall(r.state, b).Went? &&
                 |ParserCall(r.state, b).rest| < |b|)
  }

  /** A packet that takes all of `a` and then from `b` holds what it would take from both at once. */
  lemma FilledTwice(packet: PacketValue, a: bytes, b: bytes)
    requires |packet.data| <= packet.capacity && |a| < packet.Space()
    ensures var once := packet.(data := packet.data + a);
            var n := Taken(once, b);
            Taken(packet, a) == |a| && Taken(packet, a + b) == |a| + n && once.Space() == packet.Space() - |a| &&
            once.(data := once.data + b[..n]) == packet.(data := packet.data + (a + b)[..|a| + n])
  {
    SplitFilling(packet.data, a, b, Taken(packet.(data := packet.data + a), b));
  }

  /** Taking all of `a` and then from `b` is taking from both at once. */
  lemma NormalBodyTwice(p: Parser, a: bytes, b: bytes)
    requires Sane(p) && Filling(p) && p.state.ExpectNormalBody? && a != [] && |a| < Room(p)
    ensures var o := NormalBodyRead(p, a);
            o.Done? && o.rest == [] && o.answer == o.parser.state == p.state && Sane(o.parser) &&
            Room(o.parser) == Room(p) - |a| && Filling(o.parser) &&
            NormalBodyRead(o.parser, b) == NormalBodyRead(p, a + b)
  {
    var packet := PacketFor(p, Room(p));
    FilledTwice(packet, a, b);
    SplitFilling(packet.data, a, b, Taken(packet.(data := packet.data + a), b));
  }

  lemma StreamTwice(p: Parser, a: bytes, b: bytes)
    requires Sane(p) && p.state.ExpectStreamBody? && a != [] && |a| < Room(p)
    ensures var o := StreamRead(p, a);
            o.Done? && o.rest == [] && o.answer == o.parser.state == p.state && Sane(o.parser) &&
            Room(o.parser) == Room(p) - |a| && Filling(o.parser) &&
            StreamRead(o.parser, b) == StreamRead(p, a + b)
  {
    var packet := PacketFor(p, Room(p));
    FilledTwice(packet, a, b);
    SplitFilling(packet.data, a, b, Taken(packet.(data := packet.data + a), b));
  }

  /** A packet filled in two calls is the packet filled in one. */
  lemma BodyMerges(p: Parser, a: bytes, b: bytes)
    requires Sane(p) && Filling(p) && a != [] && |a| < Room(p)
    ensures Merges(p, a, b)
  {
    if p.state.ExpectNormalBody? {
      NormalBodyTwice(p, a, b);
    } else {
      StreamTwice(p, a, b);
    }
    if b != [] {
      BodyConsumes(Parsed(p, a).parser, b);
    }
  }

  lemma BodyConsumes(p: Parser, b: bytes)
    requires Sane(p) && Filling(p) && b != [] && 0 < Room(p)
    ensures Parsed(p, b).Done? && |Parsed(p, b).rest| < |b|
  {
  }

  ghost predicate Fitting(p: Parser, buf: bytes) {
    Sane(p) && Fits(p, buf)
  }

  lemma SaneAfter(p: Parser, buf: bytes)
    requires Sane(p)
    ensures var r := ParserCall(p, buf);
            (r.Went? ==> Sane(r.state) && |r.rest| < |buf|) &&
            (r.Stopped? ==> Sane(r.state) && (r.state == p || r.state == Failed(p)))
  {
    ParsedSound(p, buf);
  }

  lemma {:induction false} AloneCuts(p: Parser, a: bytes, b: bytes)
    requires Fitting(p, a + b) && Alone(p, a, b)
    ensures Cuts(ParserCall, p, a, b) && Keeps(ParserCall, Fitting, p, a, b)
  {
    SaneAfter(p, a);
  }

  lemma {:induction false} MergeCuts(p: Parser, a: bytes, b: bytes)
    requires Fitting(p, a + b) && Filling(p) && a != [] && Merges(p, a, b)
    ensures Cuts(ParserCall, p, a, b) && Keeps(ParserCall, Fitting, p, a, b)
  {
    assert [] + b == b;
    if b == [] {
      assert a + b == a;
    }
    var p' := ParserCall(p, a).state;
    StillFilling(p, a);
    assert HeaderFits(p', b);
  }

  lemma StillFilling(p: Parser, a: bytes)
    requires Filling(p) && a != [] && ParserCall(p, a).Went? && ParserCall(p, a).out == []
    ensures !ParserCall(p, a).state.state.ExpectHeaders?
  {
  }

  /** An incomplete header section is left alone, or refused as it would be with what follows. */
  lemma {:induction false} HeaderSectionCuts(p: Parser, a: bytes, b: bytes)
    requires Fitting(p, a + b) && p.state.ExpectHeaders? && (|a| <= 4 || Find(a, CRLFCRLF).None?)
    ensures Cuts(ParserCall, p, a, b) && Keeps(ParserCall, Fitting, p, a, b)
  {
    if |a| > MAX_BODY {
      if Find(a + b, CRLFCRLF).Some? {
        FindReachesOver(a, b, CRLFCRLF);
      }
      assert ParserCall(p, a) == Stopped(Failed(p));
      assert ParserCall(Failed(p), a + b) == Stopped(Failed(p));
    } else {
      assert ParserCall(p, a) == Stopped(p);
    }
  }

  lemma {:induction false} CallsCut(p: Parser, a: bytes, b: bytes)
    requires Fitting(p, a + b)
    ensures Cuts(ParserCall, p, a, b) && Keeps(ParserCall, Fitting, p, a, b)
  {
    if a == [] {
      assert ParserCall(p, a) == Stopped(p);
    } else if p.state.ExpectHeaders? {
      if |a| > 4 && Find(a, CRLFCRLF).Some? {
        HeaderSectionAlone(p, a, b);
        AloneCuts(p, a, b);
      } else {
        HeaderSectionCuts(p, a, b);
      }
    } else if Filling(p) {
      if Room(p) <= |a| {
        BodyAlone(p, a, b);
        AloneCuts(p, a, b);
      } else {
        BodyMerges(p, a, b);
        MergeCuts(p, a, b);
      }
    } else {
      OtherCuts(p, a, b);
    }
  }

  lemma {:induction false} OtherCuts(p: Parser, a: bytes, b: bytes)
    requires Fitting(p, a + b) && a != [] && !p.state.ExpectHeaders? && !Filling(p)
    ensures Cuts(ParserCall, p, a, b) && Keeps(ParserCall, Fitting, p, a, b)
  {
    if p.state.ExpectNormalBody? {
      assert ParserCall(p, a) == ParserCall(p, a + b) == Undefined;
    }
  }

  lemma ParserIsCuttable()
    ensures Closed(ParserCall, Fitting)
  {
    forall p, a, b | Fitting(p, a + b)
      ensures Cuts(ParserCall, p, a, b) && Keeps(ParserCall, Fitting, p, a, b)
    {
      CallsCut(p, a, b);
    }
  }

  /** With header sections that are short enough, the loop run after every read ends where one run on
      all the bytes ends: same parser, same unread bytes, same messages handed on. */
  lemma ReadsDoNotMatter(p: Parser, rest: bytes, fragments: seq<bytes>)
    requires Sane(p) && Fits(p, rest + Concat(fragments)) && fragments != []
    ensures Fed(ParserCall, p, rest, fragments) == Driven(ParserCall, p, rest + Concat(fragments))
  {
    ParserIsCuttable();
    FedIsDriven(ParserCall, Fitting, p, rest, fragments);
  }

  // ----- the bound is exact

  /** A header section refused in pieces but accepted in one: cut just before its last byte. */
  lemma {:induction false} HeaderCut(p: Parser, s: bytes)
    requires Sane(p) && !HeaderFits(p, s)
    ensures var n := Find(s, CRLFCRLF).value; !Agrees(ParserCall, p, s, s[..n + 3], s[n + 3..])
  {
    var n := Find(s, CRLFCRLF).value;
    var a, b := s[..n + 3], s[n + 3..];
    assert a + b == s;
    if Find(a, CRLFCRLF).Some? {
      FindInPrefix(a, b, CRLFCRLF);
    }
    assert ParserCall(p, a) == Stopped(Failed(p));
    assert ParserCall(Failed(p), s) == Stopped(Failed(p));
    assert Resumed(ParserCall, Driven(ParserCall, p, a), b).rest == s;
    SaneAfter(p, s);
  }

  /** What a call consumed, it consumes whatever follows. */
  lemma {:induction false} ConsumedAlone(p: Parser, s: bytes, t: bytes) returns (c: bytes)
    requires Sane(p) && ParserCall(p, s).Went? && ParserCall(p, s).rest != []
    requires !ParserCall(p, s).state.state.ExpectError?
    ensures s == c + ParserCall(p, s).rest
    ensures ParserCall(p, c + t) == ParserCall(p, s).(rest := t)
  {
    if p.state.ExpectHeaders? {
      c := HeaderConsumed(p, s);
    } else {
      c := BodyConsumed(p, s);
    }
    AloneTwice(p, c, ParserCall(p, s).rest, t);
  }

  lemma {:induction false} HeaderConsumed(p: Parser, s: bytes) returns (c: bytes)
    requires p.state.ExpectHeaders? && ParserCall(p, s).Went? && !ParserCall(p, s).state.state.ExpectError?
    ensures s == c + ParserCall(p, s).rest && forall t :: Alone(p, c, t)
  {
    var n := Find(s, CRLFCRLF).value;
    c := s[..n + 4];
    assert s == c + s[n + 4..];
    FindEndsAt(s, CRLFCRLF, n);
    NonEmptyHeader(p, s);
    forall t
      ensures Alone(p, c, t)
    {
      HeaderSectionAlone(p, c, t);
    }
  }

  lemma {:induction false} BodyConsumed(p: Parser, s: bytes) returns (c: bytes)
    requires Sane(p) && !p.state.ExpectHeaders? && ParserCall(p, s).Went? && ParserCall(p, s).rest != []
    ensures s == c + ParserCall(p, s).rest && forall t :: Alone(p, c, t)
  {
    c := s[..Room(p)];
    assert s == c + s[Room(p)..];
    forall t
      ensures Alone(p, c, t)
    {
      BodyAlone(p, c, t);
    }
  }

  lemma {:induction false} AloneTwice(p: Parser, c: bytes, rest: bytes, t: bytes)
    requires Alone(p, c, rest) && Alone(p, c, t)
    requires ParserCall(p, c + rest).Went? && ParserCall(p, c + rest).rest == rest
    ensures ParserCall(p, c + t) == ParserCall(p, c + rest).(rest := t)
  {
    var r := ParserCall(p, c).rest;
    assert r + rest == rest ==> r == [];
    assert [] + t == t;
  }

  lemma NonEmptyHeader(p: Parser, s: bytes)
    requires p.state.ExpectHeaders? && |s| > 4 && Find(s, CRLFCRLF).Some?
    requires ParserCall(p, s).Went? && !ParserCall(p, s).state.state.ExpectError?
    ensures Find(s, CRLFCRLF).value > 0
  {
    assert StringUtils.Split(s[..0], CRLF) == [];
  }

  /** Where the header section read first is short enough, it is a later one that is not. */
  lemma {:induction false} NotFitsLater(p: Parser, s: bytes)
    requires Sane(p) && !Fits(p, s) && HeaderFits(p, s)
    ensures var r := ParserCall(p, s);
            r.Went? && |r.rest| < |s| && r.rest != [] && !r.state.state.ExpectError? &&
            Sane(r.state) && !Fits(r.state, r.rest)
  {
    SaneAfter(p, s);
  }

  lemma {:induction false} NotFitsDisagrees(p: Parser, s: bytes) returns (a: bytes, b: bytes)
    requires Sane(p) && !Fits(p, s)
    ensures a + b == s && !Agrees(ParserCall, p, s, a, b)
    decreases |s|
  {
    if !HeaderFits(p, s) {
      HeaderCut(p, s);
      var n := Find(s, CRLFCRLF).value;
      a, b := s[..n + 3], s[n + 3..];
    } else {
      NotFitsLater(p, s);
      var r := ParserCall(p, s);
      a, b := NotFitsDisagrees(r.state, r.rest);
      var c := ConsumedAlone(p, s, a);
      DisagreesBefore(ParserCall, p, c, a, b);
      assert c + a + b == c + (a + b);
      a := c + a;
    }
  }

  /** Every way of cutting the bytes in two agrees exactly if every complete header section is short
      enough. */
  lemma FragmentationIff(p: Parser, s: bytes)
    requires Sane(p)
    ensures Fits(p, s) <==> forall a, b :: Agrees(ParserCall, p, s, a, b)
  {
    if Fits(p, s) {
      ParserIsCuttable();
      forall a, b | a + b == s
        ensures Agrees(ParserCall, p, s, a, b)
      {
        Fragmented(ParserCall, Fitting, p, a, b);
      }
    } else {
      var a, b := NotFitsDisagrees(p, s);
    }
  }
}
