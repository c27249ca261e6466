/** The parser as a step function on its state and the unread bytes, and the loop that drives it. */
module Parsing {
  import opened Bytes
  import StringUtils
  import opened HttpUtils
  import opened HttpRequest
  import opened ReadLoop

  const MAX_BODY: nat := 64 * 1024
  const BAD_REQUEST: nat := 400

  datatype ParserState =
    | ExpectHeaders | ExpectNormalBody | ExpectStreamBody | ExpectHttpComplete
    | ExpectChunkLen | ExpectChunkBody | ExpectChunkComplete | ExpectLastEmptyChunk
    | ExpectContinue | ExpectError

  datatype PacketValue = PacketValue(capacity: nat, data: bytes) {
    function Space(): int {
      capacity - |data|
    }
  }

  datatype Parser = Parser(state: ParserState, chunkLength: int, contentLength: int, isStream: bool, isChunked: bool,
                           isRequest: bool, reason: nat, header: bytes, chunk: Option<PacketValue>,
                           req: Option<Message>)

  const NEW_PARSER := Parser(ExpectHeaders, 0, 0, false, false, true, 0, [], None, None)

  // ----- the header section

  function Failed(p: Parser): Parser {
    p.(reason := BAD_REQUEST, state := ExpectError)
  }

  function StartsWithHttp(token: bytes): bool {
    |token| >= 4 && Lower(token)[..4] == "http"
  }

  /** A response is told by its first four letters, in any mix of cases. */
  lemma {:induction false} StartsWithHttpIff(token: bytes)
    ensures StartsWithHttp(token) <==> |token| >= 4 && SameLetters(token[..4], "HTTP")
  {
    if |token| >= 4 {
      LowerIff(token[..4], "HTTP");
      assert Lower(token)[..4] == Lower(token[..4]);
      assert Lower("HTTP") == "http";
    }
  }

  ghost function FirstLineRead(isRequest: bool, tokens: seq<bytes>): Message
    requires |tokens| == 3
  {
    var m := NewMessage(isRequest);
    if isRequest then
      WithTarget(m.(method_ := ParseMethod(tokens[0])), tokens[1]).(version := VersionOf(tokens[2]))
    else
      m.(version := VersionOf(tokens[0]), code := Atoi(tokens[1]))
  }

  ghost function MethodLineRead(p: Parser, line: bytes): Parser {
    var tokens := StringUtils.Split(line, [' ']);
    if |tokens| != 3 then Failed(p)
    else
      var isRequest := !StartsWithHttp(tokens[0]);
      p.(isRequest := isRequest, req := Some(FirstLineRead(isRequest, tokens)))
  }

  predicate Bodiless(p: Parser, m: Message) {
    if p.isRequest then m.method_ in {Get, Head, Options} else m.code != 200
  }

  const CONTENT_LENGTH: bytes := "content-length"
  const TRANSFER_ENCODING: bytes := "transfer-encoding"
  const CHUNKED: bytes := "chunked"

  function FramedByLength(p: Parser, length: bytes): Parser {
    match Stoull(length)
    case None => Failed(p)
    case Some(n) =>
      p.(contentLength := ToInt32(n), state := if ToInt32(n) == 0 then ExpectHttpComplete else ExpectNormalBody)
  }

  function FramedByKind(p: Parser, m: Message): Parser {
    if HeaderOf(m.headers, TRANSFER_ENCODING) == CHUNKED then
      p.(req := Some(m.(isChunked := true)), isChunked := true, state := ExpectChunkLen)
    else if Bodiless(p, m) then
      p.(req := Some(m), chunkLength := 0, state := ExpectHttpComplete)
    else
      p.(req := Some(m.(isStream := true)), contentLength := -1, isStream := true, state := ExpectStreamBody)
  }

  /** What the headers say about the body. */
  function Framed(p: Parser, m: Message): Parser {
    var length := HeaderOf(m.headers, CONTENT_LENGTH);
    if length != [] then FramedByLength(p.(req := Some(m)), length) else FramedByKind(p, m)
  }

  /** None where the program dereferences a null message: the first line is not made of three words
      and no earlier message is left. */
  ghost function HeadersAdded(p: Parser, lines: seq<bytes>): Option<Parser> {
    match p.req
    case None => None
    case Some(m) => Some(Framed(p, m.(headers := WithHeaders(m.headers, lines))))
  }

  ghost function HeadersRead(p: Parser): Option<Parser> {
    var lines := StringUtils.Split(p.header, CRLF);
    if lines == [] then Some(Failed(p)) else HeadersAdded(MethodLineRead(p, lines[0]), lines)
  }

  // ----- one call of the parser

  /** Broken where the program's behaviour is undefined: a null message, a packet of negative capacity, or a
      chunked body, which this model leaves out. */
  datatype Outcome = Broken | Done(parser: Parser, rest: bytes, answer: ParserState)

  function PacketFor(p: Parser, capacity: nat): PacketValue {
    if p.chunk.Some? then p.chunk.value else PacketValue(capacity, [])
  }

  /** As many bytes as there are and fit go into the packet. */
  function Taken(packet: PacketValue, buf: bytes): nat {
    if |buf| < packet.Space() then |buf| else if 0 < packet.Space() then packet.Space() else 0
  }

  /** The parser after its packet, opened if need be, has taken what it can. */
  function Filled(p: Parser, capacity: nat, buf: bytes): Parser {
    var packet := PacketFor(p, capacity);
    p.(chunk := Some(packet.(data := packet.data + buf[..Taken(packet, buf)])))
  }

  function NormalBodyRead(p: Parser, buf: bytes): Outcome {
    if p.chunk.None? && p.contentLength < 0 then Broken
    else
      var capacity := if p.contentLength < 0 then 0 else p.contentLength;
      var n := Taken(PacketFor(p, capacity), buf);
      var p' := CountedDown(Filled(p, capacity, buf), n);
      Done(p', buf[n..], p'.state)
  }

  function CountedDown(p: Parser, n: nat): Parser {
    p.(contentLength := p.contentLength - n,
       state := if p.contentLength - n == 0 then ExpectHttpComplete else p.state)
  }

  function StreamRead(p: Parser, buf: bytes): Outcome {
    var n := Taken(PacketFor(p, MAX_BODY), buf);
    var p' := Filled(p, MAX_BODY, buf);
    var p'' := p'.(state := if p'.chunk.value.Space() == 0 then ExpectChunkComplete else p.state);
    Done(p'', buf[n..], p''.state)
  }

  ghost function HeaderSectionRead(p: Parser, buf: bytes): Outcome {
    if |buf| <= 4 then Done(p, buf, ExpectContinue)
    else match Find(buf, CRLFCRLF)
    case Some(n) =>
      (match HeadersRead(p.(header := buf[..n]))
       case None => Broken
       case Some(p') => Done(p', buf[n + 4..], p'.state))
    case None =>
      if |buf| > MAX_BODY then Done(Failed(p), buf, ExpectError) else Done(p, buf, ExpectContinue)
  }

  ghost function Parsed(p: Parser, buf: bytes): Outcome {
    if buf == [] then Done(p, buf, p.state)
    else match p.state
    case ExpectHeaders => HeaderSectionRead(p, buf)
    case ExpectNormalBody => NormalBodyRead(p, buf)
    case ExpectStreamBody => StreamRead(p, buf)
    case ExpectChunkLen => Broken
    case ExpectChunkBody => Broken
    case ExpectLastEmptyChunk => Broken
    case _ => Done(p, buf, p.state)
  }

  /** Between messages the parser waits exactly as long as there is no blank line and no more than 65536 bytes; with
      more than that it refuses them. Four bytes are never looked at. */
  lemma {:induction false} WaitsIff(p: Parser, buf: bytes)
    requires p.state.ExpectHeaders? && buf != []
    ensures var blank := exists n: nat :: MatchesAt(buf, "\r\n\r\n", n);
            (Parsed(p, buf) == Done(p, buf, ExpectContinue) <==> |buf| <= 4 || (!blank && |buf| <= 65536)) &&
            (!blank && |buf| > 65536 ==>
               Parsed(p, buf) == Done(p.(state := ExpectError, reason := 400), buf, ExpectError))
  {
    FoundFirst(buf, CRLFCRLF, Find(buf, CRLFCRLF));
    assert CRLFCRLF == "\r\n\r\n";
  }

  function ClearedForNextHttp(p: Parser): Parser {
    p.(state := ExpectHeaders, header := [], req := None, contentLength := -1, chunk := None)
  }

  function ClearedForNextChunk(p: Parser): Parser {
    if p.isChunked then p.(state := ExpectChunkLen, chunkLength := -1, chunk := None)
    else if p.isStream then p.(state := ExpectStreamBody, chunk := None)
    else p.(state := ExpectHeaders, chunkLength := -1, chunk := None)
  }

  // ----- the loop

  /** What the handler is given. */
  datatype Delivery = Delivery(req: Option<Message>, packet: Option<PacketValue>)

  function Handed(p: Parser, answer: ParserState): (Parser, seq<Delivery>) {
    if answer == ExpectHttpComplete then (ClearedForNextHttp(p), [Delivery(p.req, p.chunk)])
    else if answer == ExpectChunkComplete then (ClearedForNextChunk(p), [Delivery(p.req, p.chunk)])
    else (p, [])
  }

  /** A call of the parser as the loop sees it: completions are handed on and cleared. */
  ghost function ParserCall(p: Parser, buf: bytes): Reading<Parser, Delivery> {
    match Parsed(p, buf)
    case Broken => Undefined
    case Done(p', rest, answer) =>
      if |rest| < |buf| then
        var (next, out) := Handed(p', answer);
        Went(next, rest, out)
      else Stopped(p')
  }

  /** The states between calls: a packet is being filled only in a body state, and holds what the
      announced length leaves to come. */
  predicate Sane(p: Parser) {
    (p.chunk.Some? ==> |p.chunk.value.data| <= p.chunk.value.capacity) &&
    (p.isChunked ==> p.state in {ExpectChunkLen, ExpectChunkBody, ExpectLastEmptyChunk}) &&
    (p.state.ExpectHeaders? ==> p.chunk.None?) &&
    (p.state.ExpectNormalBody? ==>
      p.contentLength != 0 && (p.chunk.Some? ==> p.chunk.value.Space() == p.contentLength)) &&
    (p.state.ExpectStreamBody? ==>
      p.isStream && (p.chunk.Some? ==> 0 < p.chunk.value.Space() && p.chunk.value.capacity == MAX_BODY)) &&
    (p.state.ExpectChunkComplete? ==> p.isStream && p.chunk.Some?)
  }

  predicate Ready(p: Parser) {
    p.chunk.None? && !p.isChunked
  }

  /** After the headers either the message is complete, or a body of a known kind follows. */
  lemma FramedSound(p: Parser, m: Message)
    requires Ready(p)
    ensures var p' := Framed(p, m);
            p'.chunk.None? && Sane(Handed(p', p'.state).0) && !p'.state.ExpectHeaders? && !p'.state.ExpectContinue?
  {
  }

  lemma HeadersReadSound(p: Parser)
    requires Ready(p)
    ensures HeadersRead(p).Some? ==>
              var p' := HeadersRead(p).value;
              Sane(Handed(p', p'.state).0) && !p'.state.ExpectContinue?
  {
    var lines := StringUtils.Split(p.header, CRLF);
    if lines != [] {
      var p' := MethodLineRead(p, lines[0]);
      if p'.req.Some? {
        FramedSound(p', p'.req.value.(headers := WithHeaders(p'.req.value.headers, lines)));
      }
    }
  }

  lemma HeaderSectionSound(p: Parser, buf: bytes)
    requires Ready(p) && p.state.ExpectHeaders?
    ensures CallSound(p, buf, HeaderSectionRead(p, buf))
  {
    if |buf| > 4 && Find(buf, CRLFCRLF).Some? {
      HeadersReadSound(p.(header := buf[..Find(buf, CRLFCRLF).value]));
    }
  }

  /** A call keeps the parser sane; one that consumes nothing leaves it alone or in error. */
  predicate CallSound(p: Parser, buf: bytes, o: Outcome) {
    o.Done? ==>
      |o.rest| <= |buf| && Sane(Handed(o.parser, o.answer).0) &&
      (|o.rest| == |buf| ==> Sane(o.parser) && (o.parser == p || o.parser == Failed(p)))
  }

  lemma NormalBodySound(p: Parser, buf: bytes)
    requires Sane(p) && p.state.ExpectNormalBody? && buf != []
    ensures CallSound(p, buf, NormalBodyRead(p, buf))
  {
  }

  lemma StreamSound(p: Parser, buf: bytes)
    requires Sane(p) && p.state.ExpectStreamBody? && buf != []
    ensures CallSound(p, buf, StreamRead(p, buf))
  {
  }

  lemma ParsedSound(p: Parser, buf: bytes)
    requires Sane(p)
    ensures CallSound(p, buf, Parsed(p, buf))
  {
    if buf != [] {
      match p.state {
        case ExpectHeaders => HeaderSectionSound(p, buf);
        case ExpectNormalBody => NormalBodySound(p, buf);
        case ExpectStreamBody => StreamSound(p, buf);
        case _ =>
      }
    }
  }

  /** A complete header section is short enough never to be refused while it is incomplete. */
  ghost predicate HeaderFits(p: Parser, buf: bytes) {
    p.state.ExpectHeaders? && |buf| > 4 && Find(buf, CRLFCRLF).Some? ==> Find(buf, CRLFCRLF).value + 3 <= MAX_BODY
  }

  /** So is every one met on the way. */
  ghost predicate Fits(p: Parser, buf: bytes)
    decreases |buf|
  {
    HeaderFits(p, buf) &&
    match ParserCall(p, buf)
    case Went(next, rest, _) => |rest| < |buf| ==> Fits(next, rest)
    case _ => true
  }
}
