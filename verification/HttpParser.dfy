/** The parser object: its fields, the packet it fills and the message it builds. */
module HttpParser {
  import opened Bytes
  import StringUtils
  import opened HttpUtils
  import opened HttpRequest
  import opened MsgBuffer
  import opened Parsing

  /** A packet is allocated with its capacity and filled from the front. */
  class Packet {
    const capacity: nat
    const data: array<byte>
    var size: nat

    ghost predicate Valid()
      reads this
    {
      data.Length == capacity && size <= capacity
    }

    ghost function View(): PacketValue
      requires Valid()
      reads this, data
    {
      PacketValue(capacity, data[..size])
    }

    constructor NewPacket(capacity: nat)
      ensures Valid() && fresh(data) && View() == PacketValue(capacity, [])
    {
      this.capacity, size := capacity, 0;
      data := new byte[capacity](_ => '\0');
    }

    function PacketSize(): nat
      reads this
    {
      size
    }

    function Space(): int
      reads this
    {
      capacity - size
    }

    /** Any length is added; the packet stays sound if and only if there was room for it. */
    method UpdatePacketSize(len: nat)
      modifies this`size
      ensures size == old(size) + len && Space() == old(Space()) - len
      ensures old(Valid()) ==> (Valid() <==> len <= old(Space()))
    {
      size := size + len;
    }

    /** Bytes go behind those already there. */
    method Put(bytes: bytes)
      requires Valid() && |bytes| <= Space()
      modifies this, data
      ensures Valid() && View() == old(View()).(data := old(View()).data + bytes)
    {
      ghost var was := data[..size];
      CopyIn(data, PacketSize(), bytes);
      UpdatePacketSize(|bytes|);
      assert data[..size] == was + bytes;
    }

    method Bytes() returns (r: bytes)
      requires Valid()
      ensures r == View().data
    {
      r := data[..size];
    }
  }

  class HttpParser {
    var state_: ParserState
    var curChunkLength_: int
    var curContentLength_: int
    var isStream_: bool
    var isChunked_: bool
    var isRequest_: bool
    var reason_: nat
    var header_: bytes
    var chunk_: Packet?
    var req_: HttpRequest?

    ghost predicate Valid()
      reads this`chunk_, chunk_
    {
      chunk_ != null ==> chunk_.Valid()
    }

    /** The array of the packet being filled. */
    ghost function Storage(): set<object>
      reads this`chunk_
    {
      if chunk_ == null then {} else {chunk_.data}
    }

    /** The packet and the message are those of before, or new. */
    twostate predicate PartsKept()
      reads this`chunk_, this`req_
    {
      (chunk_ == old(chunk_) || (chunk_ != null && fresh(chunk_) && fresh(chunk_.data))) &&
      (req_ == old(req_) || (req_ != null && fresh(req_)))
    }

    ghost function PacketView(): Option<PacketValue>
      requires Valid()
      reads this`chunk_, chunk_, Storage()
    {
      if chunk_ == null then None else Some(chunk_.View())
    }

    ghost function MessageView(): Option<Message>
      reads this`req_, req_
    {
      if req_ == null then None else Some(req_.View())
    }

    ghost function View(): Parser
      requires Valid()
      reads this, chunk_, Storage(), req_
    {
      Parser(state_, curChunkLength_, curContentLength_, isStream_, isChunked_, isRequest_, reason_, header_,
             PacketView(), MessageView())
    }

    constructor ()
      ensures Valid() && chunk_ == null && req_ == null && View() == NEW_PARSER
    {
      state_, curChunkLength_, curContentLength_, isStream_, isChunked_, isRequest_ :=
        ExpectHeaders, 0, 0, false, false, true;
      reason_, header_, chunk_, req_ := 0, [], null, null;
    }

    method ClearForNextHttp()
      requires Valid()
      modifies this
      ensures Valid() && chunk_ == null && req_ == null && View() == ClearedForNextHttp(old(View()))
    {
      state_ := ExpectHeaders;
      header_ := [];
      req_ := null;
      curContentLength_ := -1;
      chunk_ := null;
    }

    method ClearForNextChunk()
      requires Valid()
      modifies this
      ensures Valid() && chunk_ == null && req_ == old(req_) && View() == ClearedForNextChunk(old(View()))
    {
      if isChunked_ {
        state_ := ExpectChunkLen;
        curChunkLength_ := -1;
      } else {
        if isStream_ {
          state_ := ExpectStreamBody;
        } else {
          state_ := ExpectHeaders;
          curChunkLength_ := -1;
        }
      }
      chunk_ := null;
    }

    /** Makes sure there is a packet. */
    method OpenPacket(capacity: nat) returns (packet: Packet)
      requires Valid()
      modifies this`chunk_
      ensures Valid() && packet == chunk_ && packet.View() == PacketFor(old(View()), capacity)
      ensures if old(chunk_) == null then fresh(packet) && fresh(packet.data) else packet == old(chunk_)
    {
      if chunk_ == null {
        chunk_ := new Packet.NewPacket(capacity);
      }
      packet := chunk_;
    }

    /** Moves as many bytes as fit from the buffer into the packet. */
    static method Move(packet: Packet, buf: MsgBuffer) returns (size: nat)
      requires packet.Valid() && buf.Valid() && buf.buffer != packet.data
      modifies packet, packet.data, buf`head, buf`tail
      ensures packet.Valid() && buf.Valid() && size == Taken(old(packet.View()), old(buf.Contents()))
      ensures packet.View() == old(packet.View()).(data := old(packet.View().data) + old(buf.Contents())[..size])
      ensures buf.Contents() == old(buf.Contents())[size..]
    {
      size := if buf.ReadableBytes() < packet.Space() then buf.ReadableBytes() else packet.Space();
      var bytes := buf.Peek(size);
      packet.Put(bytes);
      buf.Retrieve(size);
    }

    /** Opens a packet if need be and fills it. */
    method Fill(capacity: nat, buf: MsgBuffer) returns (size: nat)
      requires Valid() && buf.Valid() && buf.buffer !in Storage()
      modifies this`chunk_, chunk_, Storage(), buf`head, buf`tail
      ensures Valid() && buf.Valid() && PartsKept() && chunk_ != null
      ensures View() == Filled(old(View()), capacity, old(buf.Contents()))
      ensures size == Taken(PacketFor(old(View()), capacity), old(buf.Contents()))
      ensures buf.Contents() == old(buf.Contents())[size..]
    {
      var packet := OpenPacket(capacity);
      size := Move(packet, buf);
    }

    method ParseStream(buf: MsgBuffer)
      requires Valid() && buf.Valid() && buf.buffer !in Storage()
      modifies this, chunk_, Storage(), buf`head, buf`tail
      ensures Valid() && buf.Valid() && PartsKept()
      ensures Done(View(), buf.Contents(), state_) == StreamRead(old(View()), old(buf.Contents()))
    {
      var size := Fill(MAX_BODY, buf);
      if chunk_.Space() == 0 {
        state_ := ExpectChunkComplete;
      }
    }

    method ParseNormalBody(buf: MsgBuffer)
      requires Valid() && buf.Valid() && buf.buffer !in Storage()
      requires chunk_ == null ==> 0 <= curContentLength_
      modifies this, chunk_, Storage(), buf`head, buf`tail
      ensures Valid() && buf.Valid() && PartsKept()
      ensures Done(View(), buf.Contents(), state_) == NormalBodyRead(old(View()), old(buf.Contents()))
    {
      var size := Fill(if curContentLength_ < 0 then 0 else curContentLength_, buf);
      CountDown(size);
    }

    method CountDown(size: nat)
      requires Valid()
      modifies this`curContentLength_, this`state_
      ensures Valid() && View() == CountedDown(old(View()), size)
    {
      curContentLength_ := curContentLength_ - size;
      if curContentLength_ == 0 {
        state_ := ExpectHttpComplete;
      }
    }

    method ProcessMethodLine(line: bytes)
      requires Valid()
      modifies this
      ensures Valid() && chunk_ == old(chunk_) && (req_ == old(req_) || (req_ != null && fresh(req_)))
      ensures View() == MethodLineRead(old(View()), line)
    {
      var list := StringUtils.SplitString(line, [' ']);
      if |list| != 3 {
        reason_ := BAD_REQUEST;
        state_ := ExpectError;
        return;
      }
      isRequest_ := !StartsWithHttp(list[0]);
      req_ := ReadFirstLine(isRequest_, list);
    }

    static method ReadFirstLine(isRequest: bool, list: seq<bytes>) returns (req: HttpRequest)
      requires |list| == 3
      ensures fresh(req) && req.View() == FirstLineRead(isRequest, list)
    {
      req := new HttpRequest(isRequest);
      if isRequest {
        req.SetMethod(list[0]);
        SetTarget(req, list[1]);
        req.SetVersion(list[2]);
      } else {
        req.SetVersion(list[0]);
        req.SetStatusCode(Atoi(list[1]));
      }
    }

    static method SetTarget(req: HttpRequest, path: bytes)
      modifies req
      ensures req.View() == WithTarget(old(req.View()), path)
    {
      assert path[0..] == path;
      var pos := Seek(path, ['?'], 0);
      TargetAt(req.View(), path, pos);
      if pos.Some? {
        SetPathAndQuery(req, path[..pos.value], path[pos.value + 1..]);
      } else {
        req.SetPath(path);
      }
    }

    static method SetPathAndQuery(req: HttpRequest, path: bytes, query: bytes)
      modifies req
      ensures req.View() ==
              old(req.View()).(path := PathOf(path), query := query,
                               parameters := WithParameters(old(req.View().parameters),
                                                            StringUtils.Split(query, ['&'])))
    {
      req.SetPath(path);
      req.SetQuery(query);
    }

    static lemma TargetAt(m: Message, path: bytes, pos: Option<nat>)
      requires pos == Find(path, ['?'])
      ensures WithTarget(m, path) ==
              match pos
              case None => m.(path := PathOf(path))
              case Some(n) =>
                m.(path := PathOf(path[..n]), query := path[n + 1..],
                   parameters := WithParameters(m.parameters, StringUtils.Split(path[n + 1..], ['&'])))
    {
    }

    /** Adds the header of every line that has a colon. */
    static method AddHeaders(req: HttpRequest, lines: seq<bytes>)
      modifies req
      ensures req.View() == old(req.View()).(headers := WithHeaders(old(req.View().headers), lines))
    {
      for i := 0 to |lines|
        invariant req.View() == old(req.View()).(headers := WithHeaders(old(req.View().headers), lines[..i]))
      {
        assert lines[..i + 1][..i] == lines[..i];
        var l := lines[i];
        assert l[0..] == l;
        var pos := Seek(l, [':'], 0);
        if pos.Some? {
          req.AddHeader(l[..pos.value], l[pos.value + 1..]);
        }
      }
      assert lines[..|lines|] == lines;
    }

    /** What the headers say about the body. */
    method ReadFraming(req: HttpRequest)
      requires Valid() && req == req_
      modifies this, req
      ensures Valid() && chunk_ == old(chunk_) && req_ == old(req_)
      ensures View() == Framed(old(View()), old(req.View()))
    {
      var len := req.GetHeader(CONTENT_LENGTH);
      if len != [] {
        ReadLength(len);
      } else {
        ReadKind(req);
      }
    }

    method ReadLength(len: bytes)
      requires Valid()
      modifies this`reason_, this`state_, this`curContentLength_
      ensures Valid() && View() == FramedByLength(old(View()), len)
    {
      var n := Stoull(len);
      if n.None? {
        reason_ := BAD_REQUEST;
        state_ := ExpectError;
        return;
      }
      curContentLength_ := ToInt32(n.value);
      if curContentLength_ == 0 {
        state_ := ExpectHttpComplete;
      } else {
        state_ := ExpectNormalBody;
      }
    }

    method ReadKind(req: HttpRequest)
      requires Valid() && req == req_
      modifies this, req
      ensures Valid() && chunk_ == old(chunk_) && req_ == old(req_)
      ensures View() == FramedByKind(old(View()), old(req.View()))
    {
      var chunk := req.GetHeader(TRANSFER_ENCODING);
      if chunk != [] && chunk == CHUNKED {
        isChunked_ := true;
        req.isChunked_ := true;
        state_ := ExpectChunkLen;
      } else {
        if (!isRequest_ && req.code_ != 200) || (isRequest_ && req.method_ in {Get, Head, Options}) {
          curChunkLength_ := 0;
          state_ := ExpectHttpComplete;
        } else {
          ExpectStream(req);
        }
      }
    }

    method ExpectStream(req: HttpRequest)
      requires Valid() && req == req_
      modifies this`curContentLength_, this`isStream_, this`state_, req`isStream_
      ensures Valid()
      ensures View() == old(View()).(req := Some(old(req.View()).(isStream := true)), contentLength := -1,
                                     isStream := true, state := ExpectStreamBody)
    {
      curContentLength_ := -1;
      isStream_ := true;
      req.isStream_ := true;
      state_ := ExpectStreamBody;
    }

    method FinishHeaders(lines: seq<bytes>)
      requires Valid() && req_ != null
      modifies this, req_
      ensures Valid() && chunk_ == old(chunk_) && req_ == old(req_)
      ensures Some(View()) == HeadersAdded(old(View()), lines)
    {
      AddHeaders(req_, lines);
      ReadFraming(req_);
    }

    method ParseHeaders()
      requires Valid() && HeadersRead(View()).Some?
      modifies this, req_
      ensures Valid() && chunk_ == old(chunk_) && (req_ == old(req_) || (req_ != null && fresh(req_)))
      ensures View() == HeadersRead(old(View())).value
    {
      var list := StringUtils.SplitString(header_, CRLF);
      if |list| < 1 {
        reason_ := BAD_REQUEST;
        state_ := ExpectError;
        return;
      }
      ProcessMethodLine(list[0]);
      FinishHeaders(list);
    }

    /** One call with the bytes that have arrived, where it has a defined behaviour. */
    method Parse(buf: MsgBuffer) returns (answer: ParserState)
      requires Valid() && buf.Valid() && buf.buffer !in Storage() && buf.ReadableBytes() < 0x8000_0000
      requires Parsed(View(), buf.Contents()).Done?
      modifies this, chunk_, Storage(), req_, buf`head, buf`tail
      ensures Valid() && buf.Valid() && PartsKept()
      ensures Done(View(), buf.Contents(), answer) == Parsed(old(View()), old(buf.Contents()))
    {
      if buf.ReadableBytes() == 0 {
        return state_;
      }
      match state_ {
        case ExpectHeaders =>
          answer := ParseHeaderSection(buf);
        case ExpectNormalBody =>
          ParseNormalBody(buf);
          answer := state_;
        case ExpectStreamBody =>
          ParseStream(buf);
          answer := state_;
        case _ =>
          answer := state_;
      }
    }

    method ParseHeaderSection(buf: MsgBuffer) returns (answer: ParserState)
      requires Valid() && buf.Valid() && buf.buffer !in Storage()
      requires HeaderSectionRead(View(), buf.Contents()).Done?
      modifies this, chunk_, Storage(), req_, buf`head, buf`tail
      ensures Valid() && buf.Valid() && PartsKept()
      ensures Done(View(), buf.Contents(), answer) == HeaderSectionRead(old(View()), old(buf.Contents()))
    {
      if buf.ReadableBytes() <= 4 {
        return ExpectContinue;
      }
      var space := FindEnd(buf);
      if space.Some? {
        TakeSection(buf, space.value);
        answer := state_;
      } else {
        if buf.ReadableBytes() > MAX_BODY {
          reason_ := BAD_REQUEST;
          state_ := ExpectError;
          return state_;
        }
        return ExpectContinue;
      }
    }

    /** Where the blank line starts. */
    static method FindEnd(buf: MsgBuffer) returns (space: Option<nat>)
      requires buf.Valid()
      ensures space == Find(buf.Contents(), CRLFCRLF)
    {
      var bytes := buf.Peek(buf.ReadableBytes());
      assert bytes == buf.Contents() && bytes[0..] == bytes;
      space := Seek(bytes, CRLFCRLF, 0);
    }

    /** A complete header section is taken from the buffer and read. */
    method TakeSection(buf: MsgBuffer, n: nat)
      requires Valid() && buf.Valid() && buf.buffer !in Storage()
      requires buf.ReadableBytes() > 4 && Find(buf.Contents(), CRLFCRLF) == Some(n)
      requires HeaderSectionRead(View(), buf.Contents()).Done?
      modifies this, req_, buf`head, buf`tail
      ensures Valid() && buf.Valid() && chunk_ == old(chunk_) && PartsKept()
      ensures Done(View(), buf.Contents(), state_) == HeaderSectionRead(old(View()), old(buf.Contents()))
    {
      var section := buf.Peek(n);
      ReadSection(buf, section);
    }

    method ReadSection(buf: MsgBuffer, section: bytes)
      requires Valid() && buf.Valid() && |section| + 4 <= buf.ReadableBytes()
      requires HeadersRead(View().(header := section)).Some?
      modifies this, req_, buf`head, buf`tail
      ensures Valid() && buf.Valid() && chunk_ == old(chunk_) && PartsKept()
      ensures Some(View()) == HeadersRead(old(View()).(header := section))
      ensures buf.Contents() == old(buf.Contents())[|section| + 4..]
    {
      header_ := section;
      buf.Retrieve(|section| + 4);
      ParseHeaders();
    }
  }
}
