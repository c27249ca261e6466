/** A body without a length is handed on in full packets, however it arrives. */
module Streaming {
  import opened Bytes
  import opened ReadLoop
  import opened Parsing
  import Framing

  /** The bytes of the packet being filled. */
  function Held(p: Parser): bytes {
    if p.chunk.Some? then p.chunk.value.data else []
  }

  predicate StreamingBody(p: Parser) {
    p.state.ExpectStreamBody? && Sane(p)
  }

  predicate FullPacket(p: Parser, d: Delivery) {
    d.req == p.req && d.packet.Some? && |d.packet.value.data| == MAX_BODY
  }

  function Contents(out: seq<Delivery>): bytes
    requires forall i :: 0 <= i < |out| ==> out[i].packet.Some?
  {
    if out == [] then [] else out[0].packet.value.data + Contents(out[1..])
  }

  /** One call either keeps filling the packet or hands on a full one. */
  lemma StreamCall(p: Parser, s: bytes)
    requires StreamingBody(p) && s != []
    ensures var r := ParserCall(p, s);
            r.Went? && |r.rest| < |s| && StreamingBody(r.state) && r.state.req == p.req &&
            if |Held(p)| + |s| < MAX_BODY then
              r.rest == [] && r.out == [] && Held(r.state) == Held(p) + s
            else
              |r.out| == 1 && FullPacket(p, r.out[0]) && Held(r.state) == [] &&
              Held(p) + s == r.out[0].packet.value.data + r.rest
  {
    var n := Taken(PacketFor(p, MAX_BODY), s);
    assert s == s[..n] + s[n..];
    assert Held(p) + s[..n] + s[n..] == Held(p) + (s[..n] + s[n..]);
    if n == |s| {
      assert s[..n] == s;
    }
  }

  ghost predicate Rechunked(p: Parser, s: bytes, r: Progress<Parser, Delivery>) {
    r.defined && r.rest == [] && StreamingBody(r.state) && |Held(r.state)| < MAX_BODY &&
    (forall i :: 0 <= i < |r.out| ==> FullPacket(p, r.out[i])) &&
    Held(p) + s == Contents(r.out) + Held(r.state)
  }

  /** Every packet handed on is full, and the packets together with the one being filled are all the
      bytes so far. */
  lemma {:induction false} StreamRechunked(p: Parser, s: bytes)
    requires StreamingBody(p)
    ensures Rechunked(p, s, Driven(ParserCall, p, s))
    ensures Fits(p, s)
    decreases |s|
  {
    if s == [] {
      assert ParserCall(p, s) == Stopped(p);
      assert Held(p) + s == [] + Held(p);
    } else {
      StreamCall(p, s);
      var r := ParserCall(p, s);
      StreamRechunked(r.state, r.rest);
      RechunkedStep(p, s, r, Driven(ParserCall, r.state, r.rest));
    }
  }

  lemma RechunkedStep(p: Parser, s: bytes, r: Reading<Parser, Delivery>, later: Progress<Parser, Delivery>)
    requires r.Went? && r.state.req == p.req && Rechunked(r.state, r.rest, later)
    requires if r.out == [] then Held(r.state) + r.rest == Held(p) + s
             else |r.out| == 1 && FullPacket(p, r.out[0]) && Held(r.state) == [] &&
                  Held(p) + s == r.out[0].packet.value.data + r.rest
    ensures Rechunked(p, s, Prefixed(r.out, later))
  {
    var all := Prefixed(r.out, later);
    if r.out == [] {
      assert all.out == later.out;
    } else {
      assert all.out[1..] == later.out;
      assert [] + r.rest == r.rest;
      var data := r.out[0].packet.value.data;
      assert data + (Contents(later.out) + Held(later.state)) == data + Contents(later.out) + Held(later.state);
    }
  }

  /** The packets do not depend on how the bytes were read. */
  lemma StreamReadsDoNotMatter(p: Parser, fragments: seq<bytes>)
    requires StreamingBody(p) && fragments != []
    ensures Rechunked(p, Concat(fragments), Fed(ParserCall, p, [], fragments))
    ensures Fed(ParserCall, p, [], fragments) == Driven(ParserCall, p, Concat(fragments))
  {
    StreamRechunked(p, Concat(fragments));
    assert [] + Concat(fragments) == Concat(fragments);
    Framing.ReadsDoNotMatter(p, [], fragments);
  }
}
