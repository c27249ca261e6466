/** The loop around the parser object: bytes are appended to the buffer as they arrive, and every
    completed message is handed on. */
module ParserLoop {
  import opened Bytes
  import opened HttpRequest
  import opened MsgBuffer
  import opened HttpParser
  import opened Parsing
  import opened ReadLoop
  import opened RoundTrip
  import opened Streaming
  import opened Bodies

  /** What the handler is given. */
  method Hand(parser: HttpParser) returns (d: Delivery)
    requires parser.Valid()
    ensures d == Delivery(parser.View().req, parser.View().chunk)
  {
    var req, packet := None, None;
    if parser.req_ != null {
      req := Some(parser.req_.View());
    }
    if parser.chunk_ != null {
      var data := parser.chunk_.Bytes();
      packet := Some(PacketValue(parser.chunk_.capacity, data));
    }
    d := Delivery(req, packet);
  }

  /** A completion is handed on, and the parser cleared for what follows. */
  method Complete(parser: HttpParser, answer: ParserState) returns (out: seq<Delivery>)
    requires parser.Valid()
    modifies parser
    ensures parser.Valid() && (parser.View(), out) == Handed(old(parser.View()), answer)
    ensures parser.chunk_ in {null, old(parser.chunk_)} && parser.req_ in {null, old(parser.req_)}
  {
    out := [];
    if answer == ExpectHttpComplete {
      var d := Hand(parser);
      out := [d];
      parser.ClearForNextHttp();
    } else if answer == ExpectChunkComplete {
      var d := Hand(parser);
      out := [d];
      parser.ClearForNextChunk();
    }
  }

  lemma StoppedKeeps(p: Parser, s: bytes)
    ensures var o := Parsed(p, s); o.Done? ==> |o.rest| <= |s| && (|o.rest| == |s| ==> o.rest == s)
  {
  }

  /** One call of the parser, with what follows a completion. */
  method Step(parser: HttpParser, buf: MsgBuffer) returns (went: bool, out: seq<Delivery>)
    requires parser.Valid() && buf.Valid() && buf.buffer !in parser.Storage() && buf.ReadableBytes() < 0x8000_0000
    requires !ParserCall(parser.View(), buf.Contents()).Undefined?
    modifies parser, parser.chunk_, parser.Storage(), parser.req_, buf`head, buf`tail
    ensures parser.Valid() && buf.Valid() && Renewed(parser)
    ensures ParserCall(old(parser.View()), old(buf.Contents())) ==
            if went then Went(parser.View(), buf.Contents(), out) else Stopped(parser.View())
    ensures if went then |buf.Contents()| < |old(buf.Contents())|
            else out == [] && buf.Contents() == old(buf.Contents())
  {
    var before := buf.ReadableBytes();
    StoppedKeeps(parser.View(), buf.Contents());
    var answer := parser.Parse(buf);
    went, out := buf.ReadableBytes() < before, [];
    if went {
      out := Complete(parser, answer);
    }
  }

  /** The parser's packet and message are those of before, or new, or gone. */
  twostate predicate Renewed(parser: HttpParser)
    reads parser
  {
    (parser.chunk_ == null || parser.chunk_ == old(parser.chunk_) ||
     (fresh(parser.chunk_) && fresh(parser.chunk_.data))) &&
    (parser.req_ == null || parser.req_ == old(parser.req_) || fresh(parser.req_))
  }

  /** Calls the parser until it consumes nothing more. */
  method Drain(parser: HttpParser, buf: MsgBuffer) returns (out: seq<Delivery>)
    requires parser.Valid() && buf.Valid() && buf.buffer !in parser.Storage() && buf.ReadableBytes() < 0x8000_0000
    requires Driven(ParserCall, parser.View(), buf.Contents()).defined
    modifies parser, parser.chunk_, parser.Storage(), parser.req_, buf`head, buf`tail
    ensures parser.Valid() && buf.Valid() && Renewed(parser)
    ensures Progress(parser.View(), buf.Contents(), out, true) ==
            Driven(ParserCall, old(parser.View()), old(buf.Contents()))
    decreases buf.ReadableBytes()
  {
    ghost var p, s := parser.View(), buf.Contents();
    var went;
    went, out := Step(parser, buf);
    if went {
      ghost var p', s' := parser.View(), buf.Contents();
      DrivenWent(ParserCall, p, s, p', s', out);
      var more := Drain(parser, buf);
      out := out + more;
    } else {
      DrivenStopped(ParserCall, p, s, parser.View());
    }
  }

  /** More bytes arrive. */
  method Receive(parser: HttpParser, buf: MsgBuffer, fragment: bytes) returns (out: seq<Delivery>)
    requires parser.Valid() && buf.Valid() && buf.buffer !in parser.Storage()
    requires |buf.Contents()| + |fragment| < 0x8000_0000
    requires Driven(ParserCall, parser.View(), buf.Contents() + fragment).defined
    modifies parser, parser.chunk_, parser.Storage(), parser.req_, buf, buf.buffer
    ensures parser.Valid() && buf.Valid() && Renewed(parser) && buf.buffer !in parser.Storage()
    ensures buf.buffer == old(buf.buffer) || fresh(buf.buffer)
    ensures Progress(parser.View(), buf.Contents(), out, true) ==
            Driven(ParserCall, old(parser.View()), old(buf.Contents()) + fragment)
  {
    buf.Append(fragment);
    out := Drain(parser, buf);
  }

  /** Bytes arriving in any pieces. */
  method ReceiveAll(parser: HttpParser, buf: MsgBuffer, fragments: seq<bytes>) returns (out: seq<Delivery>)
    requires parser.Valid() && buf.Valid() && buf.buffer !in parser.Storage()
    requires |buf.Contents() + Concat(fragments)| < 0x8000_0000
    requires Fed(ParserCall, parser.View(), buf.Contents(), fragments).defined
    modifies parser, parser.chunk_, parser.Storage(), parser.req_, buf, buf.buffer
    ensures parser.Valid() && buf.Valid()
    ensures Progress(parser.View(), buf.Contents(), out, true) ==
            Fed(ParserCall, old(parser.View()), old(buf.Contents()), fragments)
    decreases |fragments|
  {
    out := [];
    if fragments != [] {
      ghost var p, rest := parser.View(), buf.Contents();
      var first := Receive(parser, buf, fragments[0]);
      var more := ReceiveAll(parser, buf, fragments[1..]);
      out := first + more;
    }
  }

  /** The object end to end: messages printed, sent in sequence and read in any pieces are handed on
      one by one as they were. */
  method ReceiveMessages(parser: HttpParser, buf: MsgBuffer, ghost sent: seq<Sending>, fragments: seq<bytes>)
    returns (out: seq<Delivery>)
    requires parser.Valid() && buf.Valid() && buf.buffer !in parser.Storage()
    requires Fresh(parser.View()) && buf.Contents() == [] && AllClean(sent) && AllShort(sent)
    requires fragments != [] && Concat(fragments) == Stream(sent) && |Concat(fragments)| < 0x8000_0000
    modifies parser, parser.chunk_, parser.Storage(), parser.req_, buf, buf.buffer
    ensures parser.Valid() && buf.Valid()
    ensures out == Deliveries(sent) && Fresh(parser.View()) && buf.Contents() == []
    ensures sent != [] ==> Cleared(parser.View())
  {
    ghost var last := EndToEnd(parser.View(), sent, fragments);
    out := ReceiveAll(parser, buf, fragments);
  }

  /** A printed message whose body no header frames, and anything after it, read in any pieces. */
  method ReceiveStream(parser: HttpParser, buf: MsgBuffer, ghost m: Message, ghost style: Style, ghost more: bytes,
                       fragments: seq<bytes>)
    returns (out: seq<Delivery>)
    requires parser.Valid() && buf.Valid() && buf.buffer !in parser.Storage()
    requires Fresh(parser.View()) && buf.Contents() == [] && CleanHead(m, style) && Short(m, style) && StreamsBody(m)
    requires fragments != [] && Concat(fragments) == Printed(m, style) + more && |Concat(fragments)| < 0x8000_0000
    modifies parser, parser.chunk_, parser.Storage(), parser.req_, buf, buf.buffer
    ensures parser.Valid() && buf.Valid()
    ensures Streamed(Progress(parser.View(), buf.Contents(), out, true), StreamedAs(m, style), m.body + more)
  {
    StreamedReads(parser.View(), m, style, more, fragments);
    out := ReceiveAll(parser, buf, fragments);
  }

  ghost predicate AllSendable(messages: seq<HttpRequest>, values: seq<Message>, reasons: seq<bytes>)
    reads messages
  {
    |messages| == |values| == |reasons| &&
    forall i :: 0 <= i < |messages| ==> messages[i].View() == values[i] && Sendable(values[i], reasons[i])
  }

  function MessagesOf(sent: seq<Sending>): (r: seq<Message>)
    ensures |r| == |sent| && forall i :: 0 <= i < |r| ==> r[i] == sent[i].0
  {
    seq(|sent|, i requires 0 <= i < |sent| => sent[i].0)
  }

  function ReasonsOf(sent: seq<Sending>): (r: seq<bytes>)
    ensures |r| == |sent| && forall i :: 0 <= i < |r| ==> r[i] == sent[i].1.reason
  {
    seq(|sent|, i requires 0 <= i < |sent| => sent[i].1.reason)
  }

  /** Exactly these messages, with these reasons, and all of them clean and short. */
  ghost predicate Sends(sent: seq<Sending>, values: seq<Message>, reasons: seq<bytes>) {
    AllClean(sent) && AllShort(sent) && MessagesOf(sent) == values && ReasonsOf(sent) == reasons
  }

  /** Prints messages, from the k-th on, one right after the other. */
  method PrintAll(messages: seq<HttpRequest>, reasons: seq<bytes>, ghost values: seq<Message>, k: nat)
      returns (wire: bytes, ghost sent: seq<Sending>)
    requires AllSendable(messages, values, reasons) && k <= |messages|
    ensures Sends(sent, values[k..], reasons[k..]) && wire == Stream(sent)
    decreases |messages| - k
  {
    if k == |messages| {
      return [], [];
    }
    var first;
    ghost var style;
    first, style := Print(messages[k], reasons[k], values[k]);
    var rest;
    ghost var others;
    rest, others := PrintAll(messages, reasons, values, k + 1);
    wire, sent := first + rest, [(values[k], style)] + others;
    SendsFrom((values[k], style), others, values, reasons, k);
  }

  lemma {:induction false} SendsFrom(x: Sending, others: seq<Sending>, values: seq<Message>, reasons: seq<bytes>,
      k: nat)
    requires k < |values| == |reasons| && Carries(x, values[k], reasons[k])
    requires Sends(others, values[k + 1..], reasons[k + 1..])
    ensures Sends([x] + others, values[k..], reasons[k..])
    ensures Stream([x] + others) == Printed(x.0, x.1) + Stream(others)
  {
    SendsCons(x, others, values[k + 1..], reasons[k + 1..]);
    FromOn(values, k);
    FromOn(reasons, k);
  }

  lemma FromOn<T>(s: seq<T>, k: nat)
    requires k < |s|
    ensures s[k..] == [s[k]] + s[k + 1..]
  {
  }

  lemma {:induction false} SendsCons(x: Sending, others: seq<Sending>, values: seq<Message>, reasons: seq<bytes>)
    requires Sends(others, values, reasons) && Clean(x.0, x.1) && Short(x.0, x.1)
    ensures Sends([x] + others, [x.0] + values, [x.1.reason] + reasons)
    ensures Stream([x] + others) == Printed(x.0, x.1) + Stream(others)
  {
    StreamCons(x, others);
    ListedCons(x, others);
  }

  lemma ListedCons(x: Sending, others: seq<Sending>)
    ensures MessagesOf([x] + others) == [x.0] + MessagesOf(others)
    ensures ReasonsOf([x] + others) == [x.1.reason] + ReasonsOf(others)
  {
  }

  /** One of them. */
  ghost predicate Carries(x: Sending, m: Message, reason: bytes) {
    Clean(x.0, x.1) && Short(x.0, x.1) && x.0 == m && x.1.reason == reason
  }

  method Print(message: HttpRequest, reason: bytes, ghost m: Message) returns (text: bytes, ghost style: Style)
    requires message.View() == m && Sendable(m, reason)
    ensures Carries((m, style), m, reason) && text == Printed(m, style)
  {
    text := message.AppendToBuffer(reason);
    style :| Suits(style, m) && style.reason == reason && text == Printed(m, style);
    SendableIsClean(m, style);
  }

  /** The network may deliver the bytes in any pieces. */
  method Cut(wire: bytes) returns (fragments: seq<bytes>)
    ensures fragments != [] && Concat(fragments) == wire
    decreases |wire|
  {
    var n: int := *;
    if n <= 0 || n >= |wire| {
      assert wire + [] == wire;
      return [wire];
    }
    var rest := Cut(wire[n..]);
    assert wire == wire[..n] + wire[n..];
    fragments := [wire[..n]] + rest;
  }

  /** What is handed on for `m`: the query is what was printed for the parameters, in some order. */
  ghost predicate DeliveredAs(d: Delivery, m: Message, reason: bytes) {
    exists style :: Suits(style, m) && style.reason == reason && d == DeliveryOf(m, style)
  }

  /** From object to object: messages printed, sent in sequence, delivered in pieces and parsed are handed
      on one by one, each as it was up to what printing cannot carry. */
  method Exchange(messages: seq<HttpRequest>, reasons: seq<bytes>, ghost values: seq<Message>, parser: HttpParser,
                  buf: MsgBuffer)
      returns (wire: bytes, out: seq<Delivery>)
    requires AllSendable(messages, values, reasons)
    requires parser.Valid() && buf.Valid() && buf.buffer !in parser.Storage()
    requires Fresh(parser.View()) && parser.req_ == null && buf.Contents() == []
    modifies parser, parser.chunk_, parser.Storage(), buf, buf.buffer
    ensures |wire| < 0x8000_0000 ==>
              |out| == |values| && forall i :: 0 <= i < |out| ==> DeliveredAs(out[i], values[i], reasons[i])
  {
    ghost var sent;
    wire, sent := PrintAll(messages, reasons, values, 0);
    if |wire| >= 0x8000_0000 {
      return wire, [];
    }
    var fragments := Cut(wire);
    out := ReceiveMessages(parser, buf, sent, fragments);
    forall i | 0 <= i < |out|
      ensures DeliveredAs(out[i], values[i], reasons[i])
    {
      assert MessagesOf(sent)[i] == values[i] && ReasonsOf(sent)[i] == reasons[i];
      assert Suits(sent[i].1, values[i]) && out[i] == DeliveryOf(values[i], sent[i].1);
    }
  }
}
