/** How a body is framed by the headers, and bodies that no header frames. */
module Bodies {
  import opened Bytes
  import opened HttpUtils
  import opened HttpRequest
  import opened ReadLoop
  import opened Parsing
  import opened RoundTrip
  import opened Streaming
  import Framing

  lemma {:induction false} FieldNames(h: map<bytes, bytes>)
    ensures HeaderOf(h, "Content-Length") == HeaderOf(h, CONTENT_LENGTH)
    ensures HeaderOf(h, "Transfer-Encoding") == HeaderOf(h, TRANSFER_ENCODING)
  {
    LengthSpelling();
    EncodingSpelling();
  }

  lemma LengthSpelling()
    ensures Lower("Content-Length") == Lower(CONTENT_LENGTH)
  {
    LowerIff("Content-Length", CONTENT_LENGTH);
  }

  lemma EncodingSpelling()
    ensures Lower("Transfer-Encoding") == Lower(TRANSFER_ENCODING)
  {
    LowerIff("Transfer-Encoding", TRANSFER_ENCODING);
  }

  /** Neither a length nor a chunked body is announced. */
  predicate Unframed(m: Message) {
    HeaderOf(m.headers, "Content-Length") == [] && HeaderOf(m.headers, "Transfer-Encoding") != "chunked"
  }

  /** Which kind of body each message has. Without a length, requests that are not GET, HEAD or OPTIONS and
      responses with code 200 stream theirs, and all others are complete; a length counts before a chunked body, modulo
      2^32; and a value with the usual space before it, " chunked", does not announce one. */
  lemma {:induction false} FramedIff(p: Parser, m: Message)
    ensures var p', length := Framed(p, m), Stoull(HeaderOf(m.headers, "Content-Length"));
            var announced := HeaderOf(m.headers, "Content-Length") != [];
            (p'.state.ExpectStreamBody? <==>
              Unframed(m) && if p.isRequest then m.method_ !in {Get, Head, Options} else m.code == 200) &&
            (p'.state.ExpectChunkLen? <==> !announced && HeaderOf(m.headers, "Transfer-Encoding") == "chunked") &&
            (p'.state.ExpectError? <==> announced && length.None?) &&
            (p'.state.ExpectNormalBody? <==> announced && length.Some? && length.value % 0x1_0000_0000 != 0) &&
            (p'.state.ExpectHttpComplete? <==>
              (announced && length.Some? && length.value % 0x1_0000_0000 == 0) ||
              (Unframed(m) && if p.isRequest then m.method_ in {Get, Head, Options} else m.code != 200))
    ensures var p' := Framed(p, m); var streams, chunked := p'.state.ExpectStreamBody?, p'.state.ExpectChunkLen?;
            p'.isStream == (p.isStream || streams) && p'.isChunked == (p.isChunked || chunked) &&
            p'.req == Some(m.(isStream := m.isStream || streams, isChunked := m.isChunked || chunked))
  {
    FieldNames(m.headers);
  }

  /** A printed message whose body no header frames. */
  predicate StreamsBody(m: Message) {
    !HasLength(m.headers) && if m.isRequest then m.method_ in {Post, Put, Delete, Invalid} else m.code == 200
  }

  /** The message as it comes with each packet. */
  function StreamedAs(m: Message, style: Style): Message
    requires forall k :: k in style.headers ==> k in m.headers
    requires m.isRequest ==> forall k :: k in style.parameters ==> k in m.parameters
  {
    ReadBack(m, style).(isStream := true)
  }

  lemma {:induction false} StreamBegins(p: Parser, m: Message, style: Style)
    requires CleanHead(m, style) && StreamsBody(m) && Ready(p) && p.isRequest == m.isRequest
    ensures var p' := Framed(p, ReadBack(m, style));
            StreamingBody(p') && p'.req == Some(StreamedAs(m, style)) && Held(p') == []
  {
    var k := LengthFound(m.headers, style.headers);
    NotChunked(m.headers, style.headers);
    FieldNames(ReadBack(m, style).headers);
    FramedIff(p, ReadBack(m, style));
  }

  /** These bytes have come as packets of 65536 bytes, each with the message, and the packet being filled. */
  ghost predicate Streamed(r: Progress<Parser, Delivery>, m: Message, s: bytes) {
    r.defined && r.rest == [] && r.state.state.ExpectStreamBody? && |Held(r.state)| < 65536 &&
    (forall i :: 0 <= i < |r.out| ==>
      r.out[i].req == Some(m) && r.out[i].packet.Some? && |r.out[i].packet.value.data| == 65536) &&
    Contents(r.out) + Held(r.state) == s
  }

  /** After the header section the loop goes on with the body. */
  lemma {:induction false} HeadDriven(p: Parser, m: Message, style: Style, body: bytes) returns (p': Parser)
    requires Fresh(p) && CleanHead(m, style) && StreamsBody(m)
    ensures StreamingBody(p') && p'.req == Some(StreamedAs(m, style)) && Held(p') == []
    ensures var s := HeaderText(m, style) + body;
            ParserCall(p, s) == Went(p', body, []) && |body| < |s| &&
            Find(s, CRLFCRLF) == Some(|HeaderText(m, style)| - 4)
  {
    var section := HeadCall(p, m, style, body);
    p' := Framed(Begun(p, section, m, style), ReadBack(m, style));
    StreamBegins(Begun(p, section, m, style), m, style);
    CallOf(p, HeaderText(m, style) + body, p', body);
  }

  /** A printed message with a body that no header frames, and anything after it: all of it is its body. */
  lemma {:induction false} StreamedMessage(p: Parser, m: Message, style: Style, more: bytes)
    requires Fresh(p) && CleanHead(m, style) && StreamsBody(m)
    ensures Streamed(Driven(ParserCall, p, Printed(m, style) + more), StreamedAs(m, style), m.body + more)
    ensures Short(m, style) ==> Fits(p, Printed(m, style) + more)
  {
    var body := m.body + more;
    BodyBehind(HeaderText(m, style), m.body, more);
    var p' := HeadDriven(p, m, style, body);
    DrivenWent(ParserCall, p, HeaderText(m, style) + body, p', body, []);
    StreamRechunked(p', body);
    NothingBefore(Driven(ParserCall, p', body));
    AllStreamed(p', body, Driven(ParserCall, p', body), StreamedAs(m, style));
  }

  lemma BodyBehind(head: bytes, body: bytes, more: bytes)
    ensures head + body + more == head + (body + more)
  {
  }

  lemma AllStreamed(p: Parser, s: bytes, r: Progress<Parser, Delivery>, m: Message)
    requires Rechunked(p, s, r) && p.req == Some(m) && Held(p) == []
    ensures Streamed(r, m, s)
  {
    assert Held(p) + s == s;
    assert forall i :: 0 <= i < |r.out| ==> FullPacket(p, r.out[i]);
  }

  lemma NothingBefore(r: Progress<Parser, Delivery>)
    ensures Prefixed([], r) == r
  {
  }

  /** However it is read. */
  lemma {:induction false} StreamedReads(p: Parser, m: Message, style: Style, more: bytes, fragments: seq<bytes>)
    requires Fresh(p) && CleanHead(m, style) && StreamsBody(m) && Short(m, style)
    requires fragments != [] && Concat(fragments) == Printed(m, style) + more
    ensures Streamed(Fed(ParserCall, p, [], fragments), StreamedAs(m, style), m.body + more)
  {
    StreamedMessage(p, m, style, more);
    assert [] + Concat(fragments) == Printed(m, style) + more;
    Framing.ReadsDoNotMatter(p, [], fragments);
  }
}
