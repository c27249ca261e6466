# HttpNest, modelled and proved

HttpNest is a small HTTP server on top of epoll. This project models the parts of it that carry
state and proves what they promise:

- **Timers.** `Wheel`, `Coupling`, `Book`, `TimingWheel`, `Timers`, `TimerRuns` over the specification in `DueTrace`.
  Four rotating wheels of slots hold reference-counted entries; an entry fires when its last
  reference is destroyed, and longer delays sit in wrappers that put the entry back later. The class
  `TimingWheel` is proved to refine a map from entries to deadlines (`Book`): over any run each entry
  is released once, at the latest due tick of its insertions.
- **Messages.** `HttpRequest` prints, `HttpParser` reads, with `StringUtils`, `HttpUtils`, `Bytes` and
  `MsgBuffer` below. `Parsing` gives the parser as a step function, `ReadLoop` the loop that drives any
  such function, `Framing` shows that the cut of the bytes into reads does not matter, `Streaming` that
  bodies without a length are handed on in full packets, `Bodies` which messages have such a body,
  `RoundTrip` that printed messages come out as they went in, whatever case their header names are spelled in; `ParserLoop` runs the classes themselves against that specification.
- **The buffer.** `MsgBuffer` is an array with head room that refines a byte string; `ByteOrder` gives the
  network form of its integers.
- **Sending.** `SendPath`: the post states of `HttpContext`, the queue of pointers in `TcpConnection`, a
  kernel that writes as little as it likes, and completion callbacks that post again from within.
- **Connections.** `Lifecycle`: `TcpServer`, `Epoller`, `Acceptor` and `TcpConnection` over a kernel that
  gives the numbers of closed descriptors out again, with callbacks that close connections from within.

Each class that the program updates in place is a class here, its methods proved against functions of
the old state; properties of those functions are the lemmas. Where the program calls back into
application code, that code is arbitrary: a script or a plan (`TimingWheel.script`, `Handler.plan`), or a
free choice (`TcpServer.Callback`).

Where the program falls short of what it is for, a lemma says exactly when it does not:
`Timers.SlotsInRangeIff`, `Framing.FragmentationIff`, `Bodies.FramedIff`, `RoundTrip.StatusLineReadIff`,
`RoundTrip.RequestLineReadIff` with `RoundTrip.PathReadBackIff` and `Queries.ParametersReadBackIff`,
`RoundTrip.HeaderLinesReadIff`, `HttpUtils.MethodReadBack`, `StringUtils.JoinSplitByte`,
`MsgBuffer.EmptyingSafeIff`, `MsgBuffer.ForwardCopyIff`, `SendPath.HttpContext.PostSafeIff`,
`SendPath.DirectWriteIff`.

`dafny verify dfyconfig.toml` checks everything.

## Model

| member | source | states |
|---|---|---|
| `DueTrace.DueOf` | src/network/net/TimingWheel.cpp:54-95 | one insertion never expires late; for an admissible delay it expires after its tick, below an hour, and never from an hour on, since no tick turns the hour and day wheels |
| `DueTrace.DeadlineIsMaximum` | src/network/net/TimingWheel.h:28-41 | the deadline of a live entry is reached by one of its insertions and exceeded by none |
| `DueTrace.ReleasedOnceAtTheMaximum` | src/network/net/TimingWheel.h:28-41 | in a faithful trace no entry is released twice or inserted after its release, and each release comes at the latest due tick of the insertions before it |
| `DueTrace.GoneExactlyWhenPast` | src/network/net/TimingWheel.cpp:97-103 | between ticks an inserted entry has been released if and only if the due ticks of all its insertions have passed |
| `DueTrace.CascadedRelease` | src/network/net/TimingWheel.cpp:24-32 | an entry inserted once at t with a delay d from a minute to an hour is released at t - t % 60 + d, never late and less than a minute early; inserted by a callback on a full minute, at t + d - 60 |
| `Wheel.TurnSecond` | src/network/net/TimingWheel.cpp:86-87 | a tick that turns the second wheel moves no reference's due tick, and the slot it drops holds callers' entries only |
| `Wheel.TurnMinute` | src/network/net/TimingWheel.cpp:88-90 | turning the minute wheel on a full minute, after the second wheel, moves no due tick either, and drops wrappers only |
| `Wheel.HeldIffHolder` | src/network/net/TimingWheel.h:14-17 | an entry's reference count is positive if and only if some slot or wrapper will drop it at some due tick |
| `Coupling.CoupledInsert` | src/network/net/TimingWheel.cpp:54-75 | inserting again adds one reference and makes the deadline the later of the two |
| `Coupling.CoupledRelease` | src/network/net/TimingWheel.h:33-38 | the last reference goes exactly at the deadline |
| `Coupling.DropUserCoupled` | src/network/net/TimingWheel.cpp:97-103 | destroying a slot's reference to an entry releases it if no other is left, and then its deadline is this tick; otherwise nothing is released |
| `Coupling.DropCascadeCoupled` | src/network/net/TimingWheel.cpp:28-30 | a wrapper that puts its entry back and goes leaves all deadlines as they were |
| `Coupling.HeldIffLive` | src/network/net/TimingWheel.h:14-17 | an entry is referenced if and only if the deadline map has it live |
| `Coupling.QuiescentNothingOverdue` | src/network/net/TimingWheel.cpp:77-95 | between ticks nothing that is due is still held |
| `Book.ReleaseKeeps` | src/network/net/TimingWheel.cpp:121-128 | a release, with everything its callback asks for and the setting again of a repeating timer, adds events of this tick only and leaves other timers' schedules alone |
| `TimingWheel.InsertConsistent` | src/network/net/TimingWheel.cpp:54-75 | an insertion keeps the wheels a refinement of the deadline map |
| `TimingWheel.DropConsistent` | src/network/net/TimingWheel.cpp:97-103 | dropping a reference releases the entry if and only if the deadline map has it due now, and keeps the refinement |
| `TimingWheel.TimingWheel.constructor` | src/network/net/TimingWheel.cpp:7-14 | a new wheel has 60, 60, 24 and 30 slots and refines the empty deadline map |
| `TimingWheel.TimingWheel.InsertEntry` | src/network/net/TimingWheel.cpp:19-75 | for admissible delays one entry is put into the first of the slots that `Wheel.SlotsReached` names and the wheels are otherwise as they were, exactly one reference with the stated due tick is added, and a wrapper carries the delay that leads to the second slot; beyond thirty days nothing changes |
| `TimingWheel.TimingWheel.PopUp` | src/network/net/TimingWheel.cpp:97-103 | the wheel turns, and destroying the old slot member by member, callbacks included, is a run of releases of the deadline map |
| `TimingWheel.TimingWheel.TickLarger` | src/network/net/TimingWheel.cpp:88-94 | only the minute wheel is ever turned here, the branches of the hour and day wheels being unreachable, and no entry is released by it |
| `TimingWheel.TimingWheel.OnTimer` | src/network/net/TimingWheel.cpp:77-95 | the first call only starts the clock; later ones let at most one tick pass, in which the deadline map releases what is due and nothing else, and nothing is overdue after |
| `TimingWheel.TimingWheel.RunEvery` | src/network/net/TimingWheel.cpp:121-137 | a repeating timer enters the deadline map with its first round |
| `Timers.Run` | src/network/net/TimingWheel.cpp:77-137 | any run of timer calls and requests on the wheel is a run of the deadline map |
| `Timers.WheelKeepsItsPromise` | src/network/net/TimingWheel.cpp:54-103 | between ticks of any run an entry has been released if and only if the latest due tick of its insertions has passed, and is held if and only if it has not been released |
| `Timers.SlotsInRangeIff` | src/network/net/TimingWheel.cpp:19-75 | every slot index an insertion leads to, the one its wrapper computes later included, is in range if and only if the delay is not zero and, below an hour, not a whole minute |
| `Timers.TimerFiredAtItsRounds` | src/network/net/TimingWheel.cpp:121-137 | between ticks a repeating timer has fired at exactly those of its rounds that have come, counted from the first tick it was given |
| `TimerRuns.RunClock` | src/network/net/TimingWheel.cpp:77-86 | in any run the clock is moved by the timer calls alone |
| `TimerRuns.RunKeeps` | src/network/net/TimingWheel.cpp:121-137 | no run takes back what is on record or changes the schedule a timer was set with |
| `TimerRuns.RepeatFires` | src/network/net/TimingWheel.cpp:121-137 | a timer set at t, between ticks or by a callback, has fired at exactly those scheduled ticks that have come: t + k * i below a minute; from a minute on first t - t % 60 + i, or a minute sooner when a callback sets it on a full minute, then every 60 * (i / 60) ticks; from an hour on never |
| `TimerRuns.RunRepeating` | src/network/net/TimingWheel.cpp:121-137 | the same of the wheel: a timer set between ticks, and any run after it |
| `Book.CallbackRequestKept` | src/network/net/TimingWheel.cpp:97-103 | what a callback asks for in the middle of a tick stays on record, its insertions and the schedules of its timers, while the rest of the slot is destroyed |
| `TimerRuns.CallbackTimerFires` | src/network/net/TimingWheel.cpp:86-137 | a timer set by a callback follows its schedule through the rest of that tick and any run |
| `Timers.TimedOutAfterLastActivity` | src/network/net/TcpConnection.cpp:235-249 | an entry always inserted with a limit below a minute is released exactly that many ticks after its last insertion |
| `Timers.TimedOutIffIdle` | src/network/net/TcpConnection.cpp:228-249 | between ticks an entry always inserted with one limit has been released if and only if the limit has passed since every insertion, to the tick for limits below a minute |
| `TimerRuns.RunLimits` | src/network/net/TcpConnection.cpp:243-249 | a run whose callbacks and requests extend an entry only by its limit keeps all its insertions at that limit |
| `TimerRuns.RunIdle` | src/network/net/TcpConnection.cpp:228-249 | a connection set up with an idle limit has, after any run, been timed out if and only if the limit, as the wheel rounds it, has passed since every activity |
| `Timers.IdleConnection.EnableCheckIdleTimeout` | src/network/net/TcpConnection.cpp:235-241 | the connection's entry is new and is inserted with the idle limit |
| `Timers.IdleConnection.ExtendLife` | src/network/net/TcpConnection.cpp:243-249 | activity inserts the entry again if it has not been released, and does nothing if it has |
| `TimerRuns.TimerNotEarly` | src/network/net/TimingWheel.cpp:77-111 | with a clock that does not go back, a timer of d ticks set at time x, between ticks or by a callback, and however often extended, has in any run been released only if the last call came at x + 1000 * (d - 1) or later |
| `TimerRuns.TimerNotLate` | src/network/net/TimingWheel.cpp:77-111 | with timer calls at most g apart, a timer set between ticks or by a callback, and not extended, has been released in any run that reaches x + d * (1000 + g) |
| `TimerRuns.CallbackTimerOnTime` | src/network/net/TimingWheel.cpp:77-119 | both bounds of a timer that a callback sets in the middle of a tick, over the rest of that tick and any run |
| `TimerRuns.RunTimer` | src/network/net/TimingWheel.cpp:77-119 | both bounds of the wheel: a timer set between ticks, and any run after it |
| `TimerRuns.TimerFromStart` | src/network/net/TimingWheel.cpp:77-111 | a timer of d ticks set before the timer is called for the first time, at time x, has been released only if the last call came at x + 1000 * d or later, and, not extended, in any run that reaches x + d * (1000 + g) |
| `TimerRuns.RunTimerFromStart` | src/network/net/TimingWheel.cpp:77-119 | both bounds of a wheel whose clock has not started, over any run |
| `Timers.TicksFromStart` | src/network/net/TimingWheel.cpp:77-86 | n ticks have passed only if the last call that ticked came n seconds after the first call or later |
| `StringUtils.SplitString` | src/base/StringUtils.cpp:80-100 | the loop gives the pieces between occurrences of the delimiter, an empty last one left out, and none for an empty delimiter |
| `StringUtils.SplitStringWithFSM` | src/base/StringUtils.cpp:102-134 | the two-state machine gives the same pieces as the search for the one-byte delimiter, for every string |
| `StringUtils.JoinSplit` | src/base/StringUtils.cpp:80-100 | joining the pieces gives the string or the string without one delimiter at its end |
| `StringUtils.JoinSplitByte` | src/base/StringUtils.cpp:102-134 | for a one-byte delimiter it is lost exactly when the string ends with it |
| `StringUtils.PiecesFreeOfDelimiter` | src/base/StringUtils.cpp:80-100 | no piece contains the delimiter |
| `StringUtils.SplitTerminated` | src/base/StringUtils.cpp:80-100 | splitting undoes terminating each piece with the delimiter |
| `Bytes.LowerSpells` | src/http/HttpRequest.cpp:30-34 | lower-casing changes the case of letters only and leaves no capital letter |
| `Bytes.LowerIff` | src/http/HttpRequest.cpp:30-34 | two names have the same lower-case form if and only if they are spellings of one, letter by letter |
| `HttpUtils.UrlEncode` | src/http/HttpUtils.cpp:493-592 | the loop computes the encoding |
| `HttpUtils.UrlDecode` | src/http/HttpUtils.cpp:604-648 | the loop computes the decoding, malformed escapes included |
| `HttpUtils.EncodedByteIs` | src/http/HttpUtils.cpp:477-592 | a space is printed as a plus sign, letters, digits and fourteen marks as they are, any other byte as a percent sign and two digits in upper case |
| `HttpUtils.EscapeDecoded` | src/http/HttpUtils.cpp:613-638 | an escape stands for its byte whichever case its digits have |
| `HttpUtils.OtherDecoded` | src/http/HttpUtils.cpp:610-645 | what is not an escape stands for itself, a percent sign without two digits behind it included, and a plus sign for a space |
| `HttpUtils.HexRoundTrip` | src/http/HttpUtils.cpp:477-491 | the two digits of a byte are hexadecimal and give the byte back |
| `HttpUtils.DecodeEncode` | src/http/HttpUtils.cpp:493-648 | decoding undoes encoding, for every byte string |
| `HttpUtils.EncodedHasNoSeparator` | src/http/HttpUtils.cpp:493-592 | an encoded string holds no space, colon, CR or LF |
| `HttpUtils.DecodingNotNeeded` | src/http/HttpUtils.cpp:594-602 | where the test finds nothing to decode, decoding changes nothing |
| `HttpUtils.MethodReadBack` | src/http/HttpUtils.cpp:137-153 | a printed method is read back if and only if it is not PATCH |
| `HttpUtils.MethodWords` | src/http/HttpUtils.cpp:137-153 | exactly six words are read as the six methods |
| `HttpUtils.StoullReads` | src/http/HttpParser.cpp:205-214 | a header value of one space and digits below 2^64 is read as its number |
| `HttpUtils.StoullIs` | src/http/HttpParser.cpp:205-214 | white space, a sign and what follows the digits do not count; a value is refused if and only if it has no digits there or reaches 2^64, and a negative one is taken from 2^64 |
| `HttpUtils.AnyNumberParts` | src/http/HttpParser.cpp:205-214 | every value has such parts |
| `HttpUtils.AtoiIs` | src/http/HttpParser.cpp:282 | a status code is kept modulo 2^32, one too large for 64 bits as the nearest that fits |
| `HttpRequest.HttpRequest.SetVersion` | src/http/HttpRequest.cpp:125-137 | the version is 1.1 if and only if the word is any seven bytes followed by '1', and 1.0 if and only if followed by '0': the comparison with "HTTP/1." in the code has no effect |
| `RoundTrip.VersionToken` | src/http/HttpRequest.cpp:278-282 | a printed version is one word that marks a response when it comes first, and is read back, an unknown one as 1.1 |
| `HttpRequest.HttpRequest.ParseParameters` | src/http/HttpRequest.cpp:299-312 | the loop adds a trimmed pair for every piece of the query with an equals sign |
| `HttpRequest.ParametersReadIff` | src/http/HttpRequest.cpp:299-312 | of pieces with the same name the last one counts, and pieces without an equals sign do not |
| `HttpRequest.HeadersReadIff` | src/http/HttpParser.cpp:195-204 | of header lines with the same name, in whatever case, the last one counts, and lines without a colon do not |
| `HttpRequest.KeyValueIff` | src/http/HttpParser.cpp:196-199 | name and value are what stands before and behind the first separator |
| `HttpRequest.TrimIs` | src/http/HttpUtils.h:30-48 | the white space at both ends is taken away, and nothing else |
| `HttpRequest.HttpRequest.MakeHeaders` | src/http/HttpRequest.cpp:54-72 | the text is the header text of the message for some order in which each header and parameter is listed once |
| `HttpRequest.HttpRequest.AppendToBuffer` | src/http/HttpRequest.cpp:188-197 | the text is a header text of the message followed by its body, which is what the round trip reads back |
| `Parsing.ParsedSound` | src/http/HttpParser.cpp:16-103 | every call of the parser keeps its state sane, and one that consumes nothing leaves it as it was or in error |
| `Parsing.WaitsIff` | src/http/HttpParser.cpp:23-45 | between messages the parser waits if and only if it has four bytes or fewer, or no blank line and no more than 65536; with more it answers 400 |
| `Parsing.StartsWithHttpIff` | src/http/HttpParser.cpp:254-260 | a response is told by "http" in any case at the start of its first word |
| `HttpParser.HttpParser.Parse` | src/http/HttpParser.cpp:16-103 | the object, its packet, its message and the buffer end where the step function ends, with its answer |
| `HttpParser.HttpParser.ParseHeaders` | src/http/HttpParser.cpp:185-243 | the header section gives the message and framing that the specification reads from its lines |
| `HttpParser.HttpParser.ProcessMethodLine` | src/http/HttpParser.cpp:245-286 | three words make a new message, anything else an error with the old message left in place |
| `HttpParser.HttpParser.ParseNormalBody` | src/http/HttpParser.cpp:155-168 | the packet takes what is there and fits, and the length still to come is counted down |
| `HttpParser.HttpParser.ParseStream` | src/http/HttpParser.cpp:140-153 | a packet of 64 KiB is filled, and complete exactly when it is full |
| `HttpParser.HttpParser.ClearForNextHttp` | src/http/HttpParser.cpp:115-122 | the state expected between messages |
| `HttpParser.HttpParser.ClearForNextChunk` | src/http/HttpParser.cpp:124-138 | the state expected between packets |
| `HttpParser.Packet.UpdatePacketSize` | src/http/base/Packet.h:57-72 | the size grows and the space shrinks by the length, and the packet stays within its capacity if and only if there was room |
| `ReadLoop.FedIsDriven` | src/http/HttpParser.cpp:16-103 | for any reader that consumes alone or merges, running the loop after every fragment ends where one run on all the bytes ends |
| `Framing.HeaderSectionAlone` | src/http/HttpParser.cpp:23-33 | a complete header section is read the same whatever follows it |
| `Framing.BodyMerges` | src/http/HttpParser.cpp:140-168 | a packet filled in two calls is the packet filled in one |
| `Framing.ReadsDoNotMatter` | src/http/HttpParser.cpp:16-103 | with header sections within the limit, state, unread bytes and messages handed on do not depend on how the bytes were cut into reads; the loop terminates |
| `Framing.FragmentationIff` | src/http/HttpParser.cpp:22-45 | every cut of the bytes in two agrees if and only if every complete header section met ends within 65536 bytes, its last byte not counted |
| `Streaming.StreamRechunked` | src/http/HttpParser.cpp:124-153 | every packet handed on from a stream holds exactly 65536 bytes, and those packets with the one being filled are all the bytes so far |
| `Streaming.StreamReadsDoNotMatter` | src/http/HttpParser.cpp:124-153 | the packets do not depend on how the bytes were read |
| `Bodies.FramedIff` | src/http/HttpParser.cpp:205-242 | what body each message has, state by state: without a length and not chunked, a request streams it if and only if it is not GET, HEAD or OPTIONS, a response if and only if its code is 200; a length counts before chunked, modulo 2^32, and refuses if it is no number; only "chunked" without the usual space before it announces a chunked body |
| `Bodies.StreamedMessage` | src/http/HttpParser.cpp:185-243 | a printed POST, PUT or DELETE, or 200 response, without content-length, and any bytes behind it: packets of 65536 bytes with that message, which with the one being filled are the body and all those bytes |
| `Bodies.StreamedReads` | src/http/HttpParser.cpp:140-153 | the same however the bytes are read |
| `ParserLoop.ReceiveStream` | src/http/HttpParser.cpp:16-103 | the same of the parser and buffer objects |
| `RoundTrip.BlankLineFound` | src/http/HttpParser.cpp:24-29 | the first blank line of a printed header text is its end |
| `RoundTrip.HeadersReadBack` | src/http/HttpParser.cpp:195-204 | printed header lines, names without colon in any mix of cases, give a header map with names in lower case and one space before each value; of spellings of one name the last counts |
| `RoundTrip.SpelledHeaders` | src/http/HttpRequest.cpp:43-52 | where no two names are spellings of one, each header is found under every spelling of its name, and nothing else is |
| `RoundTrip.HeaderLinesReadIff` | src/http/HttpParser.cpp:195-204 | header lines in any order give the headers back, one space before each value, if and only if the names are in lower case and hold no colon |
| `Queries.QuerySplit` | src/http/HttpRequest.cpp:299-312 | a printed query is split into exactly what was printed for each parameter |
| `Queries.ParametersReadBack` | src/http/HttpRequest.cpp:267-276 | parameters of pass-through bytes without separators, printed in any order, are read back as the same map |
| `Queries.ParametersReadBackIff` | src/http/HttpRequest.cpp:267-312 | any parameters, printed in any order, encoded and read again, are the same map if and only if no name or value needs an escape, no name holds '&' or '=' and no value '&' |
| `RoundTrip.TargetReadBackIff` | src/http/HttpRequest.cpp:259-312 | path and parameters are read back together if and only if the path is not empty and without question mark and the parameters are clean |
| `RoundTrip.RequestLineReadIff` | src/http/HttpParser.cpp:245-286 | the first line printed of any request is read as a request, and gives method, path and parameters back if and only if the method is not PATCH, the path is not empty and without question mark, and the parameters are clean |
| `RoundTrip.TargetReadBack` | src/http/HttpParser.cpp:266-274 | an encoded path without a question mark and the parameters behind it are read back, decoded or not |
| `RoundTrip.PathReadBackIff` | src/http/HttpRequest.cpp:259-276 | of what is printed for a request, whatever its parameters and their order, the path is read back if and only if it is not empty and holds no question mark; an empty one is read as "/" |
| `RoundTrip.StatusLineReadIff` | src/http/HttpParser.cpp:245-253 | a printed status line is read if and only if its reason phrase is one word |
| `RoundTrip.FirstLineReadBack` | src/http/HttpParser.cpp:245-286 | a clean printed first line gives method, path, parameters, version and code back, an unknown version as 1.1 |
| `RoundTrip.FirstLineWords` | src/http/HttpRequest.cpp:224-294 | a request line is method, encoded target and "HTTP/1.0" or "HTTP/1.1", each with a space behind it; a status line is version and code, each with a space behind it, and the reason |
| `RoundTrip.MessageRead` | src/http/HttpParser.cpp:16-54 | a printed message that is clean (no PATCH, a path that is not empty and without question mark, parameters without escapes, a reason of one word), its header names in any mix of cases, followed by anything is handed on as it was, but for names in lower case, one space before each header value and an unknown version that has become 1.1, and leaves the parser clear for what follows; so a length is found however its name is spelled |
| `RoundTrip.EndToEnd` | src/http/HttpRequest.cpp:188-197 | any clean messages printed one after the other and read in any pieces are handed on in order, with nothing left over: each as it was, but for header names in lower case, one space before each header value, an unknown version that has become 1.1, and the text of the query, which is kept beside the parameters |
| `ParserLoop.Drain` | src/http/HttpParser.cpp:16-54 | the loop over the object ends where the loop over the step function ends |
| `ParserLoop.ReceiveMessages` | src/http/HttpParser.cpp:16-54 | the end-to-end round trip, with the same differences, for the parser and buffer objects |
| `ParserLoop.Exchange` | src/http/HttpRequest.cpp:54-72 | clean message objects printed, sent one after the other, delivered in any pieces and parsed by the parser object come out one by one: each with the method, path, parameters and body it had, its headers with one space before each value, and its version, an unknown one as 1.1 |
| `ByteOrder.HostRoundTrip` | src/network/base/MsgBuffer.h:351-364 | the host's bytes of a value read from bytes are those bytes |
| `ByteOrder.SwappedIsNetwork` | src/network/base/MsgBuffer.h:351-364 | reversing the bytes of an integer gives its network form in memory |
| `ByteOrder.NetworkByteAt` | src/network/base/MsgBuffer.cpp:61-75 | byte by byte, the most significant one first |
| `ByteOrder.NetworkRoundTrip` | src/network/base/MsgBuffer.cpp:61-110 | the network form of an integer that fits is read back as it |
| `MsgBuffer.MsgBuffer.constructor` | src/network/base/MsgBuffer.cpp:15-18 | an empty byte string, sound if and only if built with at least eight bytes |
| `MsgBuffer.MsgBuffer.EnsureWritableBytes` | src/network/base/MsgBuffer.cpp:20-41 | room is made without changing the contents, moving bytes down only or growing; the size stays within max(first size, 2 * demand + 24) and all copying by growth within what was gained |
| `MsgBuffer.MsgBuffer.AppendBuffer` | src/network/base/MsgBuffer.cpp:49-54 | the other buffer's contents are added behind; its recursion with growing ends |
| `MsgBuffer.MsgBuffer.Append` | src/network/base/MsgBuffer.cpp:55-60 | the bytes are added behind |
| `MsgBuffer.MsgBuffer.AddInFront` | src/network/base/MsgBuffer.cpp:189-213 | the bytes are added in front, by each of the three ways |
| `MsgBuffer.ForwardCopyIff` | src/network/base/MsgBuffer.cpp:197-203 | copied byte by byte from the front, contents moved up by n bytes stay as they were if and only if they repeat after n bytes, as they do when they are no longer than that |
| `MsgBuffer.MsgBuffer.Retrieve` | src/network/base/MsgBuffer.cpp:112-120 | bytes are dropped from the front, all of them if too many are asked for |
| `MsgBuffer.MsgBuffer.RetrieveAll` | src/network/base/MsgBuffer.cpp:121-128 | for any buffer both marks return to the offset and the array has the size that `MsgBuffer.Emptied` gives; a sound buffer is sound and empty after |
| `MsgBuffer.MsgBuffer.ReadFd` | src/network/base/MsgBuffer.cpp:129-154 | what the kernel delivered into the array and the extra buffer is added behind; an error changes nothing |
| `MsgBuffer.MsgBuffer.Read` | src/network/base/MsgBuffer.cpp:156-163 | what is returned and what is left make up the contents before |
| `MsgBuffer.MsgBuffer.Unwrite` | src/network/base/MsgBuffer.h:309-313 | bytes are taken back from the end |
| `MsgBuffer.MsgBuffer.HasWritten` | src/network/base/MsgBuffer.h:297-301 | bytes written behind become readable |
| `MsgBuffer.MsgBuffer.FindCRLF` | src/network/base/MsgBuffer.h:278-282 | the first line end of the contents |
| `MsgBuffer.MsgBuffer.AppendInt` | src/network/base/MsgBuffer.cpp:61-75 | the network form is added behind |
| `MsgBuffer.MsgBuffer.AddInFrontInt` | src/network/base/MsgBuffer.cpp:77-91 | the network form is added in front |
| `MsgBuffer.MsgBuffer.ReadInt` | src/network/base/MsgBuffer.cpp:164-187 | the integer whose network form is at the front, which is dropped |
| `MsgBuffer.EmptyingSafeIff` | src/network/base/MsgBuffer.cpp:121-128 | emptying keeps head and tail within the array if and only if the capacity is at least eight bytes or the array is at most twice as large; of a freshly built buffer, if and only if it was built with at least eight bytes |
| `MsgBuffer.Run` | src/network/base/MsgBuffer.cpp:15-213 | any sequence of operations on the array is that sequence on the byte string; size and copying stay within their bounds |
| `SendPath.FlatElsewhere` | src/network/net/TcpConnection.cpp:200-206 | what the pending pointers point at changes only with the buffers they point into |
| `SendPath.OverwriteSafeIff` | src/http/HttpContext.cpp:53-63 | what a queue points at survives every overwriting of a buffer if and only if nothing pending points into that buffer |
| `SendPath.OverwriteBalancedIff` | src/http/HttpContext.cpp:42-63 | when a text is sent from a buffer that pending pointers point into, and it is written in place, no byte is lost or changed if and only if they show what they showed before |
| `SendPath.PartlyWrittenHeader` | src/http/HttpContext.cpp:42-63 | it can fail: a stream header "ab" of which one byte is written, then a post of "cd", puts "adcd" on the wire |
| `SendPath.HttpContext.PostSafeIff` | src/http/HttpContext.cpp:42-63 | between posts on an open connection the header string may be overwritten with anything if and only if nothing is pending |
| `SendPath.DirectWriteIff` | src/network/net/TcpConnection.cpp:181-206 | what is queued after a direct write lies within the buffer if and only if the write did not fail; after a failure it starts one byte before it and is one byte too long |
| `SendPath.TrimmedFlat` | src/network/net/TcpConnection.cpp:128-137 | trimming removes exactly the written bytes from the front of what the queue points at |
| `SendPath.GatherBalanced` | src/network/net/TcpConnection.cpp:124-137 | a partial gathering write moves bytes from the queue to the wire and loses none |
| `SendPath.TcpConnection.SendInLoop` | src/network/net/TcpConnection.cpp:175-208 | with nothing waiting a write is asked of the kernel; whatever part is written directly, wire, queue and what is to come make up what was accepted; what a stream header leaves queued is the rest as the 64-bit arithmetic gives it; write interest is on exactly while the queue is not empty; with bytes waiting, the buffer is queued behind them; on a closed connection nothing happens |
| `SendPath.TcpConnection.OnWrite` | src/network/net/TcpConnection.cpp:117-160 | for a readiness event on an open connection, what was queued is on the wire after, unless the kernel refused a gathering write or failed one; wire, queue and what is to come make up what was accepted, and the write-complete callback runs only when every byte given to the connection is on the wire; on a closed one nothing happens |
| `SendPath.TcpConnection.Drain` | src/network/net/TcpConnection.cpp:124-153 | the loop of gathering writes ends only with an empty queue, with the kernel taking no more, or with the connection closed by a failed write |
| `SendPath.TcpConnection.Trim` | src/network/net/TcpConnection.cpp:128-137 | the loop trims the queue as specified |
| `SendPath.HttpContext.WriteComplete` | src/http/HttpContext.cpp:129-181 | a completed request is reported once as sent and a stream packet once as such, a packet follows its header, and whatever the handler does from the callback the chain ends with the balance kept |
| `SendPath.HttpContext.PostRequest` | src/http/HttpContext.cpp:42-51 | accepted exactly in the initial state, and otherwise nothing changes; with no stream header pending the text as it was is added to what the wire must show; with one pending it is queued behind it, and, as long as the header string is not moved, the balance is kept if and only if the overwritten string still shows the pending bytes |
| `SendPath.HttpContext.PostParted` | src/http/HttpContext.cpp:77-88 | the same for a header and a packet, under the same assumption |
| `SendPath.HttpContext.PostStreamHeader` | src/http/HttpContext.cpp:53-63 | the same for a stream header, which becomes the header string while the state stays initial, so that nothing guards the string; with nothing pending, some part of it is written and exactly the rest is queued |
| `SendPath.HttpContext.PostStreamChunk` | src/http/HttpContext.cpp:112-127 | the packet is accepted once a header has been sent; before, only the header string is |
| `SendPath.Handler.React` | src/http/HttpContext.cpp:129-149 | posts and closings made from within a completion keep the balance, and the recursion ends |
| `SendPath.Run` | src/http/HttpContext.cpp:42-181 | over any run of posts of every kind (those that overwrite the header string made only while nothing waits behind a stream header), readiness events and closings, from any sound state, the wire is a prefix of what was accepted, and with nothing pending it is all of it and every request and every stream packet has been reported exactly once; a run that begins with a post has accepted its bytes, and one that begins with a readiness event has written what was queued, unless the kernel refused or failed a gathering write |
| `SendPath.StreamHeaderThenPost` | src/http/HttpContext.cpp:42-63 | made without that guard, right behind a stream header of which a part is written, a post keeps the balance if and only if its text holds the unwritten part at the same place |
| `Lifecycle.Epoller.AddChannel` | src/network/net/Epoller.cpp:54-70 | a descriptor already in the table is left alone and nothing is registered; otherwise table and kernel stay in step |
| `Lifecycle.Epoller.RemoveChannel` | src/network/net/Epoller.cpp:72-88 | table and kernel stay in step, and the kernel's request cannot fail |
| `Lifecycle.Epoller.UpdateChannel` | src/network/net/Epoller.cpp:90-106 | only registered descriptors are changed, and the kernel's request cannot fail |
| `Lifecycle.Epoller.Poll` | src/network/net/Epoller.cpp:23-52 | the channels registered under the reported descriptors, in order |
| `Lifecycle.ResolvedRegistered` | src/network/net/Epoller.cpp:33-46 | every channel that is handled was registered when it was reported |
| `Lifecycle.ResolvedInOrder` | src/network/net/Epoller.cpp:33-46 | each registered descriptor gives one event, in the order of the report, and no other gives any |
| `Lifecycle.TcpConnection.OnClose` | src/network/net/TcpConnection.cpp:65-75 | closing, from wherever and with whatever the callbacks close in turn, keeps the tables sound, takes the connection out for good and closes its descriptor |
| `Lifecycle.TcpConnection.OnRead` | src/network/net/TcpConnection.cpp:84-109 | an open connection counts as active and is read, the application called for each read, until there is nothing more or the end; reading on after the message callback has closed it never reaches a descriptor of another; it ends with nothing left to read or closed, and if no data came, closed exactly if the read did not just have to wait |
| `Lifecycle.TcpConnection.OnWrite` | src/network/net/TcpConnection.cpp:117-160 | an open connection counts as active and is written until all that waited is taken or a write takes nothing; when all is taken writability is given up and the application told; a failed write closes it |
| `Lifecycle.Acceptor.OnRead` | src/network/net/Acceptor.cpp:68-88 | everything that had arrived is accepted, each as a connection of its own of which the application is told, until nothing is left |
| `Lifecycle.Acceptor.OnClose` | src/network/net/Acceptor.cpp:96-100 | the listening socket is closed and one new one opened and registered, without an entry left behind |
| `Lifecycle.TcpServer.OnAccet` | src/network/TcpServer.cpp:66-83 | a new connection is registered: the early return of the poller is not taken, although descriptor numbers come again |
| `Lifecycle.TcpServer.OnConnectionClose` | src/network/TcpServer.cpp:85-94 | the connection leaves the server and the poller, and is reported once, before its descriptor is closed |
| `Lifecycle.TcpServer.HandleEvent` | src/network/net/Channel.cpp:55-70 | an error, or a hang-up without input, closes; input, even with a hang-up, is read out; output alone is written out; for the listener, errors replace it and input is accepted |
| `Lifecycle.TcpServer.HandleAll` | src/network/net/EventLoop.cpp:33-36 | what was reported of registered descriptors is handled, all of it and in order; every readable or writable connection still open has been read or written out, every broken one is closed, and a readable listener has accepted all |
| `Lifecycle.TcpServer.Turn` | src/network/net/EventLoop.cpp:28-41 | the same, and after it idle connections are closed; the tables are sound, and none that was closed is open again |
| `Lifecycle.TcpServer.Loop` | src/network/net/EventLoop.cpp:28-41 | the tables are sound after any number of turns, and each has handled what was registered by then of what was reported to it |
| `Lifecycle.TcpServer.BetweenEvents` | src/network/TcpServer.cpp:66-94 | a connection is in the server's set if and only if it is registered under its descriptor, if and only if it is not closed; it has been reported closed exactly once or not yet; no two share a descriptor |

## Left out

- `TimingWheel.TimingWheel.InsertEntry`: requires a delay that is not zero and, below an hour, not a whole minute, since the program then indexes slot -1 and has no defined behaviour; `Timers.SlotsInRangeIff` is the exact extent. The same delays are excluded for one-shot and repeating timers.
- `TimingWheel.TimingWheel.RunEvery`: the same intervals are excluded, and those over thirty days, for which the program drops the new entry at once and so runs its callback at once, without end.
- `Timers.IdleConnection.EnableCheckIdleTimeout`: the same limits are excluded.
- `TimerRuns.RunIdle`: the same limits are excluded.
- The wrap-around of the tick counter, and the conversion of delays from `double`; user-held strong references to entries.
- `HttpParser.HttpParser.Parse`: calls in the states of a chunked body are excluded, because the parser does not consume the line end after chunk data and the sender does not write it, so section 7.1 of RFC 9112 does not hold; so are first lines that are not three words with no earlier message, after which the program dereferences null, and negative content lengths. All are `Broken` in `Parsing`. Buffers hold fewer than 2^31 bytes, since the program narrows sizes to `int`.
- `HttpContext::Parse`, which neither clears the parser nor stops when it asks for more; the loop here clears after each completion and runs until nothing is consumed.
- `RoundTrip.EndToEnd`: PATCH, an empty path (printed as "/"), paths with a question mark, parameters that need escapes (queries are kept as received, undecoded) or hold separators, and reasons that are not one word do not come back (`RoundTrip.RequestLineReadIff`, `RoundTrip.StatusLineReadIff`), nor do header names with a colon or a capital letter (`RoundTrip.HeaderLinesReadIff`; the latter come back in lower case); headers that hold a CR are excluded, and messages whose body neither a length nor their kind frames, which are streamed (`Bodies.StreamedMessage`).
- `RoundTrip.MessageRead`: the same messages are excluded.
- Reason phrases and content types come from tables that are not modelled; the phrase is a parameter, and the printed order of headers and parameters is any order.
- `MsgBuffer.MsgBuffer.AddInFront`: the overlapping copy to a higher address is modelled as a copy from the back, as a library that moves memory does it; `MsgBuffer.ForwardCopyIff` says when a copy from the front comes to the same.
- `MsgBuffer.MsgBuffer.AppendBuffer`: a buffer appended to itself is not modelled.
- `MsgBuffer.MsgBuffer.AppendInt`: one method with a width stands for the 8-, 16-, 32- and 64-bit ones, on a little-endian host.
- `SendPath.OverwriteBalancedIff`: takes the assignment to the string to happen in place. `std::string` moves its bytes when the new text exceeds its capacity, and pending pointers then dangle even if the bytes are equal; a kept balance then promises nothing. `SendPath.HttpContext.PostSafeIff` and `SendPath.Run` do not depend on it.
- `SendPath.HttpContext.PostRequest`: the same assumption, for a post made while a stream header is pending.
- `SendPath.HttpContext.PostParted`: the same.
- `SendPath.HttpContext.PostStreamHeader`: the same.
- `SendPath.StreamHeaderThenPost`: the same.
- `SendPath.TcpConnection.SendInLoop`: a failing direct write is taken as one that writes some part, because the program cannot see the failure; `SendPath.DirectWriteIff` says what it queues then. Failures of the gathering write are modelled.
- `SendPath.HttpContext.WriteComplete`: the states of chunk posts are not modelled, for the reason given for chunked bodies.
- `SendPath.Handler.React`: a handler's reactions are a finite plan; one that posts from every completion for ever would keep the program in its callbacks while the kernel takes everything.
- The list form of sending and posts from other threads; `headerSent_` starts as false, although the program does not initialise it.
- `Lifecycle.TcpConnection.OnWrite`: how many bytes wait is modelled there, which ones and the posts behind them in `SendPath`; a completion that runs from within a send is in `SendPath` alone.
- Starting the acceptor twice without stopping it, which leaves a stale table entry; destruction of the server.
- Sockets, epoll itself, name resolution, UDP, files, logging, configuration and threads.
