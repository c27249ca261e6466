/** The life of connections across the server, the poller and the kernel, which gives the numbers of closed
    descriptors out again. */
module Lifecycle {

  /** The kernel's side: the descriptors in use, and those whose readiness is reported, with whether
      writability is. */
  class Kernel {
    var open: set<int>
    var interest: map<int, bool>
    /** Reads and accepts that can still succeed before more arrives. */
    var pending: nat
    /** What has been asked of the kernel and of the application, and the sockets opened to listen. */
    ghost var trace: seq<Happening>
    ghost var sockets: nat

    ghost predicate Valid()
      reads this
    {
      interest.Keys <= open && forall fd :: fd in open ==> 0 <= fd
    }

    /** The lowest descriptor that is not in use. */
    method Unused() returns (fd: int)
      ensures 0 <= fd && fd !in open
      ensures forall k :: 0 <= k < fd ==> k in open
    {
      fd := 0;
      ghost var higher := open;
      while fd in open
        invariant 0 <= fd && forall k :: 0 <= k < fd ==> k in open
        invariant forall k :: k in open && fd <= k ==> k in higher
        decreases higher
      {
        higher := higher - {fd};
        fd := fd + 1;
      }
    }

    method Socket() returns (fd: int)
      requires Valid()
      modifies this`open, this`sockets
      ensures Valid() && 0 <= fd && fd !in old(open) && open == old(open) + {fd} && sockets == old(sockets) + 1
    {
      fd := Unused();
      open, sockets := open + {fd}, sockets + 1;
    }

    /** A connection that has arrived, or -1. */
    method Accept() returns (fd: int)
      requires Valid()
      modifies this`open, this`pending, this`trace
      ensures Valid() && trace == old(trace) + [Happening.Accept(fd)] && -1 <= fd
      ensures if fd < 0 then open == old(open) && pending == old(pending)
              else fd !in old(open) && open == old(open) + {fd} && pending < old(pending)
    {
      fd := -1;
      var arrived: bool := *;
      if arrived && pending > 0 {
        pending := pending - 1;
        fd := Unused();
        open := open + {fd};
      }
      trace := trace + [Happening.Accept(fd)];
    }

    /** Reads the descriptor of a connection, or fails if that is closed. A descriptor that meanwhile belongs to
        something else must not be passed. */
    method Read(fd: int, ghost con: TcpConnection) returns (r: ReadResult)
      requires Valid() && (fd == -1 || (fd == con.own && fd in open))
      modifies this`pending, this`trace
      ensures trace == old(trace) + [Happening.Read(con, r)] && (fd == -1 ==> r.Broken?)
      ensures if r.Data? then pending < old(pending) else pending == old(pending)
    {
      r := *;
      if fd !in open || (r.Data? && pending == 0) {
        r := Broken;
      }
      if r.Data? {
        pending := pending - 1;
      }
      trace := trace + [Happening.Read(con, r)];
    }

    /** Writes of `waiting` bytes as many as are taken, at least one, or none for now, or fails. */
    method Write(fd: int, ghost con: TcpConnection, waiting: nat) returns (r: WriteResult)
      requires Valid() && fd == con.own && fd in open && 0 < waiting
      modifies this`trace
      ensures trace == old(trace) + [Happening.Write(con, r)] && (r.Took? ==> 0 < r.n <= waiting)
    {
      r := *;
      if r.Took? && !(0 < r.n <= waiting) {
        r := Full;
      }
      trace := trace + [Happening.Write(con, r)];
    }

    /** Closing a descriptor also ends the reports about it. */
    method Close(fd: int)
      requires Valid() && fd in open
      modifies this`open, this`interest
      ensures Valid() && open == old(open) - {fd} && interest == old(interest) - {fd}
    {
      open := open - {fd};
      interest := interest - {fd};
    }

    /** The three requests to the poller fail, and end the program, outside their preconditions. */
    method CtlAdd(fd: int, writing: bool)
      requires Valid() && fd in open && fd !in interest
      modifies this`interest
      ensures Valid() && interest == old(interest)[fd := writing]
    {
      interest := interest[fd := writing];
    }

    method CtlDel(fd: int)
      requires Valid() && fd in interest
      modifies this`interest
      ensures Valid() && interest == old(interest) - {fd}
    {
      interest := interest - {fd};
    }

    method CtlMod(fd: int, writing: bool)
      requires Valid() && fd in interest
      modifies this`interest
      ensures Valid() && interest == old(interest)[fd := writing]
    {
      interest := interest[fd := writing];
    }
  }

  datatype ReadResult = Data | Eof | Retry | Broken
  datatype WriteResult = Took(n: nat) | Full | Failed

  /** A request to the kernel with its outcome, or a call of the application. */
  datatype Happening =
    | Accept(fd: int)
    | Read(con: TcpConnection, r: ReadResult)
    | Write(con: TcpConnection, w: WriteResult)
    | Active(con: TcpConnection)
    | Connected(con: TcpConnection)
    | Message(con: TcpConnection)
    | WriteComplete(con: TcpConnection, asking: bool)

  /** Data is read a number of times, and the application called each time. */
  ghost function Rounds(con: TcpConnection, n: nat): seq<Happening> {
    if n == 0 then [] else Rounds(con, n - 1) + [Read(con, Data), Message(con)]
  }

  /** What was written, write by write. */
  ghost function Writes(con: TcpConnection, ws: seq<WriteResult>): seq<Happening> {
    seq(|ws|, i requires 0 <= i < |ws| => Write(con, ws[i]))
  }

  function Taken(ws: seq<WriteResult>): nat {
    if ws == [] then 0
    else Taken(ws[..|ws| - 1]) + (if ws[|ws| - 1].Took? then ws[|ws| - 1].n else 0)
  }

  ghost predicate AllTook(ws: seq<WriteResult>) {
    forall i :: 0 <= i < |ws| ==> ws[i].Took? && 0 < ws[i].n
  }

  lemma WritesSnoc(con: TcpConnection, ws: seq<WriteResult>, r: WriteResult)
    ensures Writes(con, ws + [r]) == Writes(con, ws) + [Write(con, r)]
    ensures Taken(ws + [r]) == Taken(ws) + if r.Took? then r.n else 0
    ensures (ws + [r])[..|ws|] == ws
  {
    assert (ws + [r])[..|ws + [r]| - 1] == ws;
  }

  /** Writing went on exactly until everything was taken or nothing was. */
  ghost predicate WroteOut(waiting: nat, ws: seq<WriteResult>) {
    if ws == [] then waiting == 0
    else
      AllTook(ws[..|ws| - 1]) && Taken(ws[..|ws| - 1]) < waiting &&
      (ws[|ws| - 1].Took? ==> Taken(ws) == waiting)
  }

  /** Connections accepted one after the other, and the application told of each. */
  ghost function Arrivals(cons: seq<TcpConnection>): seq<Happening> {
    if cons == [] then []
    else Arrivals(cons[..|cons| - 1]) + Arrival(cons[|cons| - 1])
  }

  ghost function Arrival(con: TcpConnection): seq<Happening> {
    [Accept(con.own), Connected(con)]
  }

  lemma ArrivalsGrow(was: seq<TcpConnection>, now: seq<TcpConnection>, k: nat)
    requires k <= |was| <= |now| <= |was| + 1 && was <= now
    ensures Arrivals(now[k..]) == Arrivals(was[k..]) + if was == now then [] else Arrival(now[|was|])
  {
    if |was| < |now| {
      assert now[k..][..|now[k..]| - 1] == was[k..];
    }
  }

  datatype Channel = Listener | Conn(con: TcpConnection)

  class Epoller {
    const kernel: Kernel
    var channels_: map<int, Channel>

    constructor (kernel: Kernel)
      ensures this.kernel == kernel && channels_ == map[]
    {
      this.kernel := kernel;
      channels_ := map[];
    }

    /** The table and the kernel's interest set list the same descriptors. */
    ghost predicate InStep()
      reads this, kernel
    {
      kernel.Valid() && channels_.Keys == kernel.interest.Keys
    }

    /** An entry that is already there is left alone, and the new channel is not registered. */
    method AddChannel(fd: int, ch: Channel, writing: bool) returns (added: bool)
      requires InStep() && fd in kernel.open
      modifies this, kernel`interest
      ensures InStep() && added == (fd !in old(channels_))
      ensures channels_ == if added then old(channels_)[fd := ch] else old(channels_)
      ensures kernel.interest == if added then old(kernel.interest)[fd := writing] else old(kernel.interest)
    {
      if fd in channels_ {
        return false;
      }
      channels_ := channels_[fd := ch];
      kernel.CtlAdd(fd, writing);
      return true;
    }

    method RemoveChannel(fd: int)
      requires InStep()
      modifies this, kernel`interest
      ensures InStep() && channels_ == old(channels_) - {fd} && kernel.interest == old(kernel.interest) - {fd}
    {
      if fd !in channels_ {
        return;
      }
      channels_ := channels_ - {fd};
      kernel.CtlDel(fd);
    }

    method UpdateChannel(fd: int, writing: bool)
      requires InStep()
      modifies kernel`interest
      ensures InStep()
      ensures kernel.interest == if fd in channels_ then old(kernel.interest)[fd := writing] else old(kernel.interest)
    {
      if fd !in channels_ {
        return;
      }
      kernel.CtlMod(fd, writing);
    }

    /** Reported descriptors are looked up once: what is handled later is the channel that was registered
        when it was reported, not the one that has its number by then. */
    method Poll(reported: seq<(int, Revents)>) returns (channels: seq<(Channel, Revents)>)
      ensures channels == Resolved(reported, channels_)
    {
      channels := [];
      assert reported[..0] == [];
      for i := 0 to |reported|
        invariant channels == Resolved(reported[..i], channels_)
      {
        assert reported[..i + 1][..i] == reported[..i];
        if reported[i].0 in channels_ {
          channels := channels + [(channels_[reported[i].0], reported[i].1)];
        }
      }
      assert reported[..|reported|] == reported;
    }
  }

  /** What is reported about a descriptor: error, hang-up, input, priority input, output. */
  datatype Revents = Revents(err: bool, hup: bool, input: bool, pri: bool, output: bool) {
    predicate Breaks() {
      err || (hup && !input)
    }

    predicate Reads() {
      !err && (input || (pri && !hup))
    }

    predicate Writes() {
      output && !err && !hup && !input && !pri
    }
  }

  /** The channels registered under reported descriptors, in order. */
  function Resolved(reported: seq<(int, Revents)>, channels: map<int, Channel>): seq<(Channel, Revents)> {
    if reported == [] then []
    else
      var before := Resolved(reported[..|reported| - 1], channels);
      var (fd, r) := reported[|reported| - 1];
      if fd in channels then before + [(channels[fd], r)] else before
  }

  lemma {:induction false} ResolvedRegistered(reported: seq<(int, Revents)>, channels: map<int, Channel>, i: nat)
      returns (fd: int)
    requires i < |Resolved(reported, channels)|
    ensures fd in channels && Resolved(reported, channels)[i].0 == channels[fd]
  {
    var before := reported[..|reported| - 1];
    if i < |Resolved(before, channels)| {
      fd := ResolvedRegistered(before, channels, i);
    } else {
      fd := reported[|reported| - 1].0;
    }
  }

  lemma {:induction false} ResolvedAfter(a: seq<(int, Revents)>, b: seq<(int, Revents)>, channels: map<int, Channel>)
    ensures Resolved(a + b, channels) == Resolved(a, channels) + Resolved(b, channels)
    decreases |b|
  {
    if b == [] {
      assert a + b == a;
    } else {
      var n := |b| - 1;
      ResolvedAfter(a, b[..n], channels);
      assert (a + b)[..|a + b| - 1] == a + b[..n];
    }
  }

  /** What was reported of a registered descriptor is handled behind all that was reported before it, and what was
      reported of any other is not handled. */
  lemma {:induction false} ResolvedInOrder(a: seq<(int, Revents)>, fd: int, r: Revents, b: seq<(int, Revents)>,
      channels: map<int, Channel>)
    ensures Resolved(a + [(fd, r)] + b, channels) ==
            Resolved(a, channels) + (if fd in channels then [(channels[fd], r)] else []) + Resolved(b, channels)
  {
    ResolvedAfter(a + [(fd, r)], b, channels);
    ResolvedAfter(a, [(fd, r)], channels);
    assert [(fd, r)][..0] == [];
  }

  class TcpConnection {
    var fd_: int
    /** Bytes that wait to be written. */
    var waiting_: nat
    var isClosed_: bool
    /** Whether writability is asked for. */
    var writing_: bool
    /** The descriptor it was accepted with, and how often its close callback has run. */
    ghost const own: int
    ghost var closeCalls: nat

    constructor (fd: int)
      ensures fd_ == fd == own && !isClosed_ && !writing_ && waiting_ == 0 && closeCalls == 0
    {
      fd_, isClosed_, writing_, waiting_, own, closeCalls := fd, false, false, 0, fd, 0;
    }

    method OnClose(server: TcpServer)
      requires server.Sound() && this in server.accepted
      modifies server`connections_, server`closing, server.poller, server.kernel`open, server.kernel`interest
      modifies server.accepted
      ensures server.Sound() && server.closing == old(server.closing) && isClosed_
      ensures server.connections_ <= old(server.connections_) - {this}
      ensures server.kernel.open <= old(server.kernel.open) - if old(isClosed_) || own == 0 then {} else {own}
      decreases server.connections_, 2
    {
      if !isClosed_ {
        isClosed_ := true;
        server.OnConnectionClose(this);
        FinishClose(server);
      }
    }

    method FinishClose(server: TcpServer)
      requires server.Sound() && this in server.closing
      modifies this`fd_, server`closing, server.kernel`open, server.kernel`interest
      ensures server.Sound() && server.closing == old(server.closing) - {this}
      ensures server.kernel.open == old(server.kernel.open) - if own > 0 then {own} else {}
    {
      assert server.Proper(this);
      Close(server.kernel);
      server.closing := server.closing - {this};
      assert forall c :: c in server.accepted && c != this ==> old(server.Proper(c)) && server.Proper(c);
    }

    /** Descriptor 0 is taken for none. */
    method Close(kernel: Kernel)
      requires kernel.Valid() && (0 < fd_ ==> fd_ in kernel.open)
      modifies this`fd_, kernel`open, kernel`interest
      ensures kernel.Valid() && fd_ == if old(fd_) > 0 then -1 else old(fd_)
      ensures kernel.open == if old(fd_) > 0 then old(kernel.open) - {old(fd_)} else old(kernel.open)
      ensures kernel.interest == if old(fd_) > 0 then old(kernel.interest) - {old(fd_)} else old(kernel.interest)
    {
      if fd_ > 0 {
        kernel.Close(fd_);
        fd_ := -1;
      }
    }

    method EnableWriting(enable: bool, server: TcpServer)
      requires server.Sound() && this in server.accepted
      modifies this`writing_, server.kernel`interest
      ensures server.Sound() && writing_ == enable
    {
      writing_ := enable;
      server.poller.UpdateChannel(fd_, enable);
    }

    /** Of what is sent these bytes have to wait. */
    method SendRest(rest: nat, server: TcpServer)
      requires server.Sound() && this in server.accepted
      modifies this`waiting_, this`writing_, server.kernel`interest
      ensures server.Sound() && waiting_ == old(waiting_) + if isClosed_ then 0 else rest
      ensures writing_ == (old(writing_) || (!isClosed_ && rest > 0))
    {
      if !isClosed_ && rest > 0 {
        waiting_ := waiting_ + rest;
        EnableWriting(true, server);
      }
    }

    /** Activity that the idle limit counts. */
    method ExtendLife(kernel: Kernel)
      modifies kernel`trace
      ensures kernel.trace == old(kernel.trace) + [Active(this)]
    {
      kernel.trace := kernel.trace + [Active(this)];
    }

    /** Writes what waits until it is written or the kernel takes no more. Which bytes they are is part of the send
        path. */
    method OnWrite(server: TcpServer) returns (ghost ws: seq<WriteResult>)
      requires server.Sound() && server.closing == {} && this in server.accepted
      modifies server`connections_, server`closing, server.poller, server.kernel, server.accepted
      ensures server.Sound() && server.closing == {} && server.connections_ <= old(server.connections_)
      ensures old(isClosed_) ==> server.kernel.trace == old(server.kernel.trace)
      ensures !old(isClosed_) ==>
                WroteOut(old(waiting_), ws) && (ws != [] && ws[|ws| - 1].Failed? ==> isClosed_) &&
                server.kernel.trace ==
                old(server.kernel.trace) + [Active(this)] + Writes(this, ws) +
                if Taken(ws) == old(waiting_) then [WriteComplete(this, false)] else []
    {
      ws := [];
      if isClosed_ {
        return;
      }
      ExtendLife(server.kernel);
      var written;
      written, ws := WriteOn(server);
      if written {
        Complete(server);
      }
    }

    /** Everything is written: writability is no longer asked for, and the application is told. */
    method Complete(server: TcpServer)
      requires server.Sound() && server.closing == {} && this in server.accepted
      modifies server`connections_, server`closing, server.poller, server.kernel, server.accepted
      ensures server.Sound() && server.closing == {} && server.connections_ <= old(server.connections_)
      ensures server.kernel.trace == old(server.kernel.trace) + [WriteComplete(this, false)]
    {
      EnableWriting(false, server);
      server.kernel.trace := server.kernel.trace + [WriteComplete(this, writing_)];
      server.Callback();
    }

    method WriteOn(server: TcpServer) returns (written: bool, ghost ws: seq<WriteResult>)
      requires server.Sound() && server.closing == {} && this in server.accepted && !isClosed_
      modifies server`connections_, server`closing, server.poller, server.kernel, server.accepted
      ensures server.Sound() && server.closing == {} && server.connections_ <= old(server.connections_)
      ensures WroteOut(old(waiting_), ws) && (ws != [] && ws[|ws| - 1].Failed? ==> isClosed_)
      ensures written == (Taken(ws) == old(waiting_))
      ensures server.kernel.trace == old(server.kernel.trace) + Writes(this, ws)
    {
      written, ws := true, [];
      while written && waiting_ > 0
        invariant server.Sound() && server.closing == {} && server.connections_ <= old(server.connections_)
        invariant written ==> !isClosed_ && Taken(ws) + waiting_ == old(waiting_) && AllTook(ws)
        invariant !written ==>
                    ws != [] && AllTook(ws[..|ws| - 1]) && Taken(ws) < old(waiting_) && !ws[|ws| - 1].Took? &&
                    (ws[|ws| - 1].Failed? ==> isClosed_)
        invariant server.kernel.trace == old(server.kernel.trace) + Writes(this, ws)
        decreases written, waiting_
      {
        var r := WriteOnce(server);
        WritesSnoc(this, ws, r);
        ws, written := ws + [r], r.Took?;
      }
      if ws != [] {
        assert Taken(ws[..|ws| - 1]) <= Taken(ws);
      }
    }

    /** One write, and what a failed one leads to. */
    method WriteOnce(server: TcpServer) returns (r: WriteResult)
      requires server.Sound() && server.closing == {} && this in server.accepted && !isClosed_ && waiting_ > 0
      modifies server`connections_, server`closing, server.poller, server.kernel, server.accepted
      ensures server.Sound() && server.closing == {} && server.connections_ <= old(server.connections_)
      ensures r.Took? ==> 0 < r.n <= old(waiting_) && waiting_ == old(waiting_) - r.n && !isClosed_
      ensures r.Failed? ==> isClosed_
      ensures server.kernel.trace == old(server.kernel.trace) + [Write(this, r)]
    {
      OwnDescriptor(server);
      assert server.Proper(this);
      r := server.kernel.Write(fd_, this, waiting_);
      match r {
        case Took(n) => waiting_ := waiting_ - n;
        case Full =>
        case Failed => OnClose(server);
      }
    }

    /** Reads until there is nothing more, also after the message callback has closed the connection: the
        read then fails, it does not reach another connection. */
    method OnRead(server: TcpServer) returns (ghost n: nat, ghost last: ReadResult)
      requires server.Sound() && server.closing == {} && this in server.accepted
      modifies server`connections_, server`closing, server.poller, server.kernel, server.accepted
      ensures server.Sound() && server.closing == {} && server.connections_ <= old(server.connections_)
      ensures old(isClosed_) ==> server.kernel.trace == old(server.kernel.trace)
      ensures !old(isClosed_) ==>
                !last.Data? && (isClosed_ || last.Retry?) && (n == 0 ==> isClosed_ == !last.Retry?) &&
                server.kernel.trace ==
                old(server.kernel.trace) + [Active(this)] + Rounds(this, n) + [Read(this, last)]
    {
      n, last := 0, Retry;
      if isClosed_ {
        return;
      }
      ExtendLife(server.kernel);
      ghost var before := server.kernel.trace;
      while true
        invariant server.Sound() && server.closing == {} && server.connections_ <= old(server.connections_)
        invariant server.kernel.trace == before + Rounds(this, n) && (n == 0 ==> !isClosed_)
        decreases server.kernel.pending
      {
        var r := ReadOnce(server);
        if !r.Data? {
          last := r;
          return;
        }
        n := n + 1;
      }
    }

    /** One read, and what it leads to. */
    method ReadOnce(server: TcpServer) returns (r: ReadResult)
      requires server.Sound() && server.closing == {} && this in server.accepted
      modifies server`connections_, server`closing, server.poller, server.kernel, server.accepted
      ensures server.Sound() && server.closing == {} && server.connections_ <= old(server.connections_)
      ensures r.Data? ==> server.kernel.pending < old(server.kernel.pending)
      ensures !r.Data? ==> if r.Retry? then isClosed_ == old(isClosed_) else isClosed_
      ensures server.kernel.trace ==
              old(server.kernel.trace) + if r.Data? then [Read(this, Data), Message(this)] else [Read(this, r)]
    {
      OwnDescriptor(server);
      r := server.kernel.Read(fd_, this);
      match r {
        case Data =>
          server.kernel.trace := server.kernel.trace + [Message(this)];
          server.Callback();
        case Retry =>
        case _ => OnClose(server);
      }
    }

    /** Open or closed, the descriptor is its own or none. */
    lemma OwnDescriptor(server: TcpServer)
      requires server.Sound() && server.closing == {} && this in server.accepted
      ensures server.kernel.Valid() && (fd_ == -1 || (fd_ == own && fd_ in server.kernel.open))
    {
      assert server.Proper(this);
    }
  }

  class Acceptor {
    var fd_: int

    constructor ()
      ensures fd_ == -1
    {
      fd_ := -1;
    }

    /** Accepts whatever has arrived. */
    method OnRead(server: TcpServer)
      requires server.Sound() && server.closing == {} && server.acceptor == this
      modifies server`connections_, server`accepted, server`closing, server.poller, server.kernel, server.accepted, this
      ensures server.Sound() && server.closing == {} && old(server.accepted) <= server.accepted
      ensures forall c :: c in old(server.accepted) && c in server.connections_ ==> c in old(server.connections_)
      ensures forall i :: |old(server.accepted)| <= i < |server.accepted| ==> fresh(server.accepted[i])
      ensures server.kernel.trace ==
              old(server.kernel.trace) + Arrivals(server.accepted[|old(server.accepted)|..]) + [Accept(-1)]
    {
      ghost var k := |server.accepted|;
      var more := true;
      while more
        invariant server.Sound() && server.closing == {} && old(server.accepted) <= server.accepted
        invariant forall c :: c in old(server.accepted) && c in server.connections_ ==> c in old(server.connections_)
        invariant forall i :: |old(server.accepted)| <= i < |server.accepted| ==> fresh(server.accepted[i])
        invariant server.kernel.trace ==
                  old(server.kernel.trace) + Arrivals(server.accepted[k..]) + if more then [] else [Accept(-1)]
        decreases more, server.kernel.pending
      {
        ghost var was := server.accepted;
        more := AcceptOne(server);
        ArrivalsGrow(was, server.accepted, k);
      }
    }

    /** Accepts one connection, or none is left. */
    method AcceptOne(server: TcpServer) returns (more: bool)
      requires server.Sound() && server.closing == {} && server.acceptor == this
      modifies server`connections_, server`accepted, server`closing, server.poller, server.kernel, server.accepted, this
      ensures server.Sound() && server.closing == {} && old(server.accepted) <= server.accepted
      ensures forall c :: c in old(server.accepted) && c in server.connections_ ==> c in old(server.connections_)
      ensures if more then
                server.kernel.pending < old(server.kernel.pending) &&
                |server.accepted| == |old(server.accepted)| + 1 && fresh(server.accepted[|old(server.accepted)|]) &&
                server.kernel.trace == old(server.kernel.trace) + Arrival(server.accepted[|old(server.accepted)|])
              else
                server.accepted == old(server.accepted) &&
                server.kernel.trace == old(server.kernel.trace) + [Accept(-1)]
    {
      var sock := server.kernel.Accept();
      if sock >= 0 {
        server.OnAccet(sock);
        return true;
      }
      var failed: bool := *;
      if failed {
        OnClose(server);
      }
      return false;
    }

    /** The listening socket is closed, and a new one opened that may get its number. */
    method OnClose(server: TcpServer)
      requires server.Sound() && server.acceptor == this
      modifies this, server.poller, server.kernel`open, server.kernel`interest, server.kernel`sockets
      ensures server.Sound() && server.kernel.sockets == old(server.kernel.sockets) + 1
      ensures server.kernel.open == old(server.kernel.open) - (if old(fd_) > 0 then {old(fd_)} else {}) + {fd_}
    {
      Stop(server.poller);
      Open(server);
    }

    method Stop(poller: Epoller)
      requires poller.InStep()
      modifies poller, poller.kernel`interest
      ensures poller.InStep() && poller.channels_ == old(poller.channels_) - {fd_}
      ensures poller.kernel.interest == old(poller.kernel.interest) - {fd_}
    {
      poller.RemoveChannel(fd_);
    }

    /** Opens a listening socket, once the one before is no longer registered. */
    method Open(server: TcpServer)
      requires server.acceptor == this && server.ConnectionsSound() && fd_ !in server.poller.channels_
      requires 0 < fd_ ==> fd_ in server.kernel.open && forall c :: c in server.accepted ==> c.fd_ != fd_
      modifies this, server.poller, server.kernel`open, server.kernel`interest, server.kernel`sockets
      ensures server.Sound() && server.kernel.sockets == old(server.kernel.sockets) + 1
      ensures server.kernel.open == old(server.kernel.open) - (if old(fd_) > 0 then {old(fd_)} else {}) + {fd_}
    {
      CloseOld(server);
      fd_ := server.kernel.Socket();
      var _ := server.poller.AddChannel(fd_, Listener, false);
    }

    method CloseOld(server: TcpServer)
      requires server.acceptor == this && server.ConnectionsSound() && fd_ !in server.poller.channels_
      requires 0 < fd_ ==> fd_ in server.kernel.open && forall c :: c in server.accepted ==> c.fd_ != fd_
      modifies this, server.kernel`open, server.kernel`interest
      ensures server.ConnectionsSound() && fd_ !in server.poller.channels_
      ensures server.kernel.open == old(server.kernel.open) - if old(fd_) > 0 then {old(fd_)} else {}
    {
      if fd_ > 0 {
        server.kernel.Close(fd_);
        fd_ := -1;
      }
    }
  }

  // ----- what is done about what was reported

  ghost predicate Since(t: seq<Happening>, from: nat, h: Happening) {
    exists k :: from <= k < |t| && t[k] == h
  }

  /** Read until there was nothing more, or to the end. */
  ghost predicate ReadOut(c: TcpConnection, t: seq<Happening>, from: nat, open: set<TcpConnection>) {
    Since(t, from, Active(c)) &&
    (Since(t, from, Read(c, Retry)) ||
     (c !in open && (Since(t, from, Read(c, Eof)) || Since(t, from, Read(c, Broken)))))
  }

  /** Written until everything was, or no more was taken, or a write failed. */
  ghost predicate WrittenOut(c: TcpConnection, t: seq<Happening>, from: nat, open: set<TcpConnection>) {
    Since(t, from, Active(c)) &&
    (Since(t, from, Write(c, Full)) || Since(t, from, WriteComplete(c, false)) ||
     (c !in open && Since(t, from, Write(c, Failed))))
  }

  /** What has been done about what was reported of a channel, if it was still open: a broken connection is closed, a
      readable one read, a writable one written, and a readable listener has accepted all that had arrived. */
  ghost predicate Served(ch: Channel, r: Revents, t: seq<Happening>, from: nat, open: set<TcpConnection>,
                         wasOpen: bool) {
    match ch
    case Listener => r.Reads() ==> Since(t, from, Accept(-1))
    case Conn(c) =>
      (r.Breaks() ==> c !in open) && (r.Reads() && wasOpen ==> ReadOut(c, t, from, open)) &&
      (r.Writes() && wasOpen ==> WrittenOut(c, t, from, open))
  }

  /** Of every channel handled the connection is closed, or it has been served since then. */
  ghost predicate AllServed(channels: seq<(Channel, Revents)>, t: seq<Happening>, from: nat,
                            open: set<TcpConnection>) {
    forall i :: 0 <= i < |channels| ==>
      Served(channels[i].0, channels[i].1, t, from, open, channels[i].0.Conn? ==> channels[i].0.con in open)
  }

  /** It stays so while more happens and connections close. */
  lemma ServedStill(channels: seq<(Channel, Revents)>, t: seq<Happening>, t': seq<Happening>, from: nat,
      open: set<TcpConnection>, open': set<TcpConnection>)
    requires AllServed(channels, t, from, open) && t <= t'
    requires forall i :: 0 <= i < |channels| && channels[i].0.Conn? && channels[i].0.con in open' ==>
               channels[i].0.con in open
    ensures AllServed(channels, t', from, open')
  {
    forall i | 0 <= i < |channels|
      ensures Served(channels[i].0, channels[i].1, t', from, open', channels[i].0.Conn? ==> channels[i].0.con in open')
    {
      assert Served(channels[i].0, channels[i].1, t, from, open, channels[i].0.Conn? ==> channels[i].0.con in open);
      forall h: Happening | Since(t, from, h)
        ensures Since(t', from, h)
      {
        var k :| from <= k < |t| && t[k] == h;
        assert t'[k] == h;
      }
    }
  }

  lemma ServedNext(channels: seq<(Channel, Revents)>, i: nat, t: seq<Happening>, from: nat, later: nat,
      open: set<TcpConnection>)
    requires i < |channels| && AllServed(channels[..i], t, from, open) && from <= later
    requires Served(channels[i].0, channels[i].1, t, later, open, channels[i].0.Conn? ==> channels[i].0.con in open)
    ensures AllServed(channels[..i + 1], t, from, open)
  {
    forall j | 0 <= j < i + 1
      ensures Served(channels[j].0, channels[j].1, t, from, open, channels[j].0.Conn? ==> channels[j].0.con in open)
    {
      if j < i {
        assert channels[..i][j] == channels[j];
      } else {
        forall h: Happening | Since(t, later, h)
          ensures Since(t, from, h)
        {
        }
      }
    }
  }

  /** The events that are handled over a number of turns, given the table at the start of each. */
  function Reported(turns: seq<(seq<(int, Revents)>, seq<int>)>, tables: seq<map<int, Channel>>)
    : seq<(Channel, Revents)>
    requires |turns| == |tables|
  {
    if turns == [] then []
    else
      var n := |turns| - 1;
      Reported(turns[..n], tables[..n]) + Resolved(turns[n].0, tables[n])
  }

  lemma ReportedNext(turns: seq<(seq<(int, Revents)>, seq<int>)>, i: nat, tables: seq<map<int, Channel>>,
      table: map<int, Channel>)
    requires |tables| == i < |turns|
    ensures Reported(turns[..i + 1], tables + [table]) == Reported(turns[..i], tables) + Resolved(turns[i].0, table)
  {
    assert turns[..i + 1][..i] == turns[..i] && (tables + [table])[..i] == tables;
  }

  /** What the application may do with a connection when it is called. */
  datatype Wish = CloseIt(index: int) | AskWriting(index: int, enable: bool) | Send(index: int, rest: nat)

  class TcpServer {
    const kernel: Kernel
    const poller: Epoller
    const acceptor: Acceptor
    var connections_: set<TcpConnection>
    /** All connections there have been, in order. */
    var accepted: seq<TcpConnection>
    /** Closed, but with the descriptor still open while callbacks run. */
    ghost var closing: set<TcpConnection>
    /** The events handled so far. */
    ghost var handled: seq<(Channel, Revents)>

    constructor (kernel: Kernel)
      requires kernel.Valid() && kernel.interest == map[]
      ensures this.kernel == kernel && fresh(poller) && fresh(acceptor) && acceptor.fd_ == -1
      ensures ConnectionsSound() && closing == {} && accepted == []
    {
      this.kernel, connections_, accepted, closing, handled := kernel, {}, [], {}, [];
      poller := new Epoller(kernel);
      acceptor := new Acceptor();
    }

    method Start()
      requires ConnectionsSound() && acceptor.fd_ == -1
      modifies acceptor, poller, kernel`open, kernel`interest, kernel`sockets
      ensures Sound() && kernel.sockets == old(kernel.sockets) + 1
    {
      acceptor.Open(this);
    }

    /** Registered as itself under the descriptor it was accepted with. */
    ghost predicate Registered(c: TcpConnection)
      reads poller, kernel, c
    {
      c.fd_ == c.own && c.fd_ in poller.channels_ && poller.channels_[c.fd_] == Conn(c) &&
      c.fd_ in kernel.interest && kernel.interest[c.fd_] == c.writing_
    }

    /** Closed: its descriptor is about to be closed, or is gone, or was 0 and has never been closed. */
    ghost predicate Gone(c: TcpConnection)
      reads this`closing, poller, kernel, c
    {
      c.fd_ !in poller.channels_ &&
      if c in closing then c.fd_ == c.own && c.fd_ in kernel.open
      else c.fd_ == -1 || (c.fd_ == 0 == c.own && 0 in kernel.open)
    }

    /** In the server's set exactly while it is not closed, and exactly then registered; reported closed
        once when it is closed. */
    ghost predicate Proper(c: TcpConnection)
      reads this`connections_, this`closing, poller, kernel, c
    {
      (c in connections_ <==> !c.isClosed_) && (if c.isClosed_ then Gone(c) else Registered(c)) &&
      c.closeCalls == if c.isClosed_ then 1 else 0
    }

    ghost predicate TablesSound()
      reads this, poller, kernel, acceptor, set c | c in accepted
    {
      poller.kernel == kernel && poller.InStep() &&
      (forall c :: c in connections_ ==> c in accepted) &&
      (forall c :: c in closing ==> c in accepted && c.isClosed_) &&
      (forall c, d :: c in closing && d in closing && c != d ==> c.fd_ != d.fd_) &&
      forall fd :: fd in poller.channels_ ==>
        match poller.channels_[fd]
        case Listener => fd == acceptor.fd_
        case Conn(c) => c in connections_ && c.fd_ == fd
    }

    ghost predicate ConnectionsSound()
      reads this, poller, kernel, acceptor, set c | c in accepted
    {
      TablesSound() && forall c :: c in accepted ==> Proper(c)
    }

    /** What holds at every moment when application code runs. */
    ghost predicate Sound()
      reads this, poller, kernel, acceptor, set c | c in accepted
    {
      ConnectionsSound() && acceptor.fd_ in poller.channels_ && poller.channels_[acceptor.fd_] == Listener
    }

    method OnAccet(fd: int)
      requires Sound() && closing == {} && fd in kernel.open && fd !in poller.channels_
      requires forall c :: c in accepted ==> c.fd_ != fd
      modifies this`connections_, this`accepted, this`closing, poller, accepted
      modifies kernel`open, kernel`interest, kernel`trace
      ensures Sound() && closing == {}
      ensures |accepted| == |old(accepted)| + 1 && old(accepted) < accepted && fresh(accepted[|accepted| - 1])
      ensures kernel.trace == old(kernel.trace) + [Connected(accepted[|accepted| - 1])]
      ensures accepted[|accepted| - 1].own == fd
      ensures forall c :: c in old(accepted) && c in connections_ ==> c in old(connections_)
    {
      var added := Join(fd);
      assert added;
      kernel.trace := kernel.trace + [Connected(accepted[|accepted| - 1])];
      Callback();
    }

    /** The new connection is entered in the server's set and in the poller. */
    method Join(fd: int) returns (added: bool)
      requires Sound() && closing == {} && fd in kernel.open && fd !in poller.channels_
      requires forall c :: c in accepted ==> c.fd_ != fd
      modifies this`connections_, this`accepted, poller, kernel`interest
      ensures added && Sound() && closing == {}
      ensures |accepted| == |old(accepted)| + 1 && old(accepted) < accepted && fresh(accepted[|accepted| - 1])
      ensures accepted[|accepted| - 1].own == fd && connections_ == old(connections_) + {accepted[|accepted| - 1]}
    {
      var con := new TcpConnection(fd);
      connections_ := connections_ + {con};
      accepted := accepted + [con];
      added := poller.AddChannel(con.fd_, Conn(con), con.writing_);
    }

    method OnConnectionClose(con: TcpConnection)
      requires TablesSound() && con in connections_ && con !in closing && con.isClosed_ && con.closeCalls == 0
      requires Registered(con) && forall c :: c in accepted && c != con ==> Proper(c)
      requires acceptor.fd_ in poller.channels_ && poller.channels_[acceptor.fd_] == Listener
      modifies this`connections_, this`closing, poller, kernel`open, kernel`interest, accepted
      ensures Sound() && closing == old(closing) + {con} && connections_ <= old(connections_) - {con} && con.isClosed_
      ensures kernel.open <= old(kernel.open)
      decreases connections_, 1
    {
      Forget(con);
      Callback();
    }

    method Forget(con: TcpConnection)
      requires TablesSound() && con in connections_ && con !in closing && con.isClosed_ && con.closeCalls == 0
      requires Registered(con) && forall c :: c in accepted && c != con ==> Proper(c)
      modifies this`connections_, this`closing, poller, kernel`interest, con`closeCalls
      ensures ConnectionsSound() && closing == old(closing) + {con} && connections_ == old(connections_) - {con}
      ensures poller.channels_ == old(poller.channels_) - {con.fd_}
    {
      connections_ := connections_ - {con};
      poller.RemoveChannel(con.fd_);
      con.closeCalls := con.closeCalls + 1;
      closing := closing + {con};
    }

    /** Application code: it may close any connections, this one again or others, from within. */
    method Callback()
      requires Sound()
      modifies this`connections_, this`closing, poller, kernel`open, kernel`interest, accepted
      ensures Sound() && closing == old(closing) && connections_ <= old(connections_)
      ensures kernel.open <= old(kernel.open)
      decreases connections_, 3
    {
      var wishes: seq<Wish> := *;
      for i := 0 to |wishes|
        invariant Sound() && closing == old(closing) && connections_ <= old(connections_)
        invariant kernel.open <= old(kernel.open)
      {
        if 0 <= wishes[i].index < |accepted| {
          var c := accepted[wishes[i].index];
          match wishes[i] {
            case CloseIt(_) => c.OnClose(this);
            case AskWriting(_, enable) => c.EnableWriting(enable, this);
            case Send(_, rest) => c.SendRest(rest, this);
          }
        }
      }
    }

    predicate IsOpen(ch: Channel)
      reads this`connections_
    {
      ch.Conn? ==> ch.con in connections_
    }

    /** What a channel does with what was reported about it. */
    method HandleEvent(ch: Channel, r: Revents)
      requires Sound() && closing == {} && (ch.Conn? ==> ch.con in accepted)
      modifies this, poller, kernel, acceptor, accepted
      ensures Sound() && closing == {} && old(accepted) <= accepted
      ensures forall c :: c in old(accepted) && c in connections_ ==> c in old(connections_)
      ensures forall i :: |old(accepted)| <= i < |accepted| ==> fresh(accepted[i])
      ensures handled == old(handled) + [(ch, r)] && old(kernel.trace) <= kernel.trace
      ensures Served(ch, r, kernel.trace, |old(kernel.trace)|, connections_, old(IsOpen(ch)))
      ensures ch.Listener? && r.Breaks() ==> old(kernel.sockets) < kernel.sockets
    {
      handled := handled + [(ch, r)];
      if r.err {
        CloseChannel(ch);
      } else if r.hup && !r.input {
        CloseChannel(ch);
      } else if r.input || r.pri {
        ReadChannel(ch);
      } else if r.output {
        WriteChannel(ch);
      }
    }

    method CloseChannel(ch: Channel)
      requires Sound() && closing == {} && (ch.Conn? ==> ch.con in accepted)
      modifies this`connections_, this`closing, poller, kernel`open, kernel`interest, kernel`sockets, acceptor, accepted
      ensures Sound() && closing == {} && connections_ <= old(connections_)
      ensures if ch.Conn? then ch.con !in connections_ else old(kernel.sockets) < kernel.sockets
    {
      match ch {
        case Listener => acceptor.OnClose(this);
        case Conn(c) => c.OnClose(this);
      }
    }

    method ReadChannel(ch: Channel)
      requires Sound() && closing == {} && (ch.Conn? ==> ch.con in accepted)
      modifies this`connections_, this`accepted, this`closing, poller, kernel, acceptor, accepted
      ensures Sound() && closing == {} && old(accepted) <= accepted
      ensures forall c :: c in old(accepted) && c in connections_ ==> c in old(connections_)
      ensures forall i :: |old(accepted)| <= i < |accepted| ==> fresh(accepted[i])
      ensures old(kernel.trace) <= kernel.trace
      ensures if ch.Listener? then Since(kernel.trace, |old(kernel.trace)|, Accept(-1))
              else old(IsOpen(ch)) ==> ReadOut(ch.con, kernel.trace, |old(kernel.trace)|, connections_)
    {
      ghost var before := kernel.trace;
      match ch {
        case Listener =>
          acceptor.OnRead(this);
          assert kernel.trace[|kernel.trace| - 1] == Accept(-1);
        case Conn(c) =>
          assert Proper(c);
          ghost var n, last := c.OnRead(this);
          assert Proper(c);
          if before != kernel.trace {
            assert kernel.trace[|kernel.trace| - 1] == Read(c, last) && kernel.trace[|before|] == Active(c);
          }
      }
    }

    method WriteChannel(ch: Channel)
      requires Sound() && closing == {} && (ch.Conn? ==> ch.con in accepted)
      modifies this`connections_, this`closing, poller, kernel, accepted
      ensures Sound() && closing == {} && connections_ <= old(connections_) && old(kernel.trace) <= kernel.trace
      ensures ch.Conn? && old(IsOpen(ch)) ==> WrittenOut(ch.con, kernel.trace, |old(kernel.trace)|, connections_)
    {
      ghost var before := kernel.trace;
      match ch {
        case Listener =>
        case Conn(c) =>
          assert Proper(c);
          ghost var waiting := c.waiting_;
          ghost var ws := c.OnWrite(this);
          assert Proper(c);
          if before != kernel.trace {
            assert kernel.trace[|before|] == Active(c);
            if Taken(ws) == waiting {
              assert kernel.trace[|kernel.trace| - 1] == WriteComplete(c, false);
            } else {
              assert kernel.trace[|kernel.trace| - 1] == Write(c, ws[|ws| - 1]);
            }
          }
      }
    }

    /** One turn of the event loop: what was reported is handled, then idle connections time out. None that
        was closed before is open again, and those that were idle are closed. */
    method Turn(reported: seq<(int, Revents)>, idle: seq<int>)
      requires Sound() && closing == {}
      modifies this, poller, kernel, acceptor, accepted
      ensures Sound() && closing == {} && old(accepted) <= accepted
      ensures forall c :: c in old(accepted) && c in connections_ ==> c in old(connections_)
      ensures forall i :: |old(accepted)| <= i < |accepted| ==> fresh(accepted[i])
      ensures forall i :: 0 <= i < |idle| && 0 <= idle[i] < |old(accepted)| ==> accepted[idle[i]] !in connections_
      ensures handled == old(handled) + Resolved(reported, old(poller.channels_))
      ensures AllServed(Resolved(reported, old(poller.channels_)), kernel.trace, |old(kernel.trace)|, connections_)
    {
      HandleAll(reported);
      ghost var channels, from := Resolved(reported, old(poller.channels_)), |old(kernel.trace)|;
      ghost var trace, open := kernel.trace, connections_;
      CloseIdle(idle);
      ServedStill(channels, trace, kernel.trace, from, open, connections_);
    }

    /** Idle connections time out. */
    method CloseIdle(idle: seq<int>)
      requires Sound() && closing == {}
      modifies this`connections_, this`closing, poller, kernel`open, kernel`interest, accepted
      ensures Sound() && closing == {} && connections_ <= old(connections_)
      ensures forall i :: 0 <= i < |idle| && 0 <= idle[i] < |accepted| ==> accepted[idle[i]] !in connections_
    {
      for i := 0 to |idle|
        invariant Sound() && closing == {} && connections_ <= old(connections_)
        invariant forall j :: 0 <= j < i && 0 <= idle[j] < |accepted| ==> accepted[idle[j]] !in connections_
      {
        if 0 <= idle[i] < |accepted| {
          accepted[idle[i]].OnClose(this);
        }
      }
    }

    /** Handles what was reported, all of it and in order. */
    method HandleAll(reported: seq<(int, Revents)>)
      requires Sound() && closing == {}
      modifies this, poller, kernel, acceptor, accepted
      ensures Sound() && closing == {} && old(accepted) <= accepted
      ensures forall c :: c in old(accepted) && c in connections_ ==> c in old(connections_)
      ensures forall i :: |old(accepted)| <= i < |accepted| ==> fresh(accepted[i])
      ensures handled == old(handled) + Resolved(reported, old(poller.channels_))
      ensures AllServed(Resolved(reported, old(poller.channels_)), kernel.trace, |old(kernel.trace)|, connections_)
      ensures old(kernel.trace) <= kernel.trace
    {
      var channels := poller.Poll(reported);
      forall i | 0 <= i < |channels| && channels[i].0.Conn?
        ensures channels[i].0.con in accepted
      {
        var fd := ResolvedRegistered(reported, poller.channels_, i);
      }
      for i := 0 to |channels|
        invariant Sound() && closing == {} && old(accepted) <= accepted
        invariant forall c :: c in old(accepted) && c in connections_ ==> c in old(connections_)
        invariant forall j :: |old(accepted)| <= j < |accepted| ==> fresh(accepted[j])
        invariant handled == old(handled) + channels[..i] && old(kernel.trace) <= kernel.trace
        invariant AllServed(channels[..i], kernel.trace, |old(kernel.trace)|, connections_)
      {
        HandleNext(channels, i, |old(kernel.trace)|);
      }
      assert channels[..|channels|] == channels;
    }

    /** Handles one more. */
    method HandleNext(channels: seq<(Channel, Revents)>, i: nat, ghost from: nat)
      requires Sound() && closing == {} && i < |channels| && from <= |kernel.trace|
      requires AllServed(channels[..i], kernel.trace, from, connections_)
      requires forall j :: 0 <= j < |channels| && channels[j].0.Conn? ==> channels[j].0.con in accepted
      modifies this, poller, kernel, acceptor, accepted
      ensures Sound() && closing == {} && old(accepted) <= accepted
      ensures forall c :: c in old(accepted) && c in connections_ ==> c in old(connections_)
      ensures forall j :: |old(accepted)| <= j < |accepted| ==> fresh(accepted[j])
      ensures handled == old(handled) + [channels[i]] && old(kernel.trace) <= kernel.trace
      ensures AllServed(channels[..i + 1], kernel.trace, from, connections_)
    {
      ghost var t, open := kernel.trace, connections_;
      HandleEvent(channels[i].0, channels[i].1);
      ServedStill(channels[..i], t, kernel.trace, from, open, connections_);
      ServedNext(channels, i, kernel.trace, from, |t|, connections_);
    }

    /** Any number of turns. Each handles what is registered by then of what is reported to it. */
    method Loop(turns: seq<(seq<(int, Revents)>, seq<int>)>) returns (ghost tables: seq<map<int, Channel>>)
      requires Sound() && closing == {}
      modifies this, poller, kernel, acceptor, accepted
      ensures Sound() && closing == {} && old(accepted) <= accepted
      ensures forall c :: c in old(accepted) && c in connections_ ==> c in old(connections_)
      ensures |tables| == |turns| && (turns != [] ==> tables[0] == old(poller.channels_))
      ensures handled == old(handled) + Reported(turns, tables)
    {
      tables := [];
      for i := 0 to |turns|
        invariant Sound() && closing == {} && old(accepted) <= accepted
        invariant forall c :: c in old(accepted) && c in connections_ ==> c in old(connections_)
        invariant forall j :: |old(accepted)| <= j < |accepted| ==> fresh(accepted[j])
        invariant |tables| == i && (if i > 0 then tables[0] else poller.channels_) == old(poller.channels_)
        invariant handled == old(handled) + Reported(turns[..i], tables)
      {
        ghost var table := poller.channels_;
        Turn(turns[i].0, turns[i].1);
        ReportedNext(turns, i, tables, table);
        tables := tables + [table];
      }
      assert turns[..|turns|] == turns;
    }

    /** Between events a connection is in the server's set if and only if it is registered, under its own
        descriptor and as itself, if and only if it is not closed; it has been reported closed exactly once
        or not yet; and no two open connections share a descriptor. */
    lemma BetweenEvents(c: TcpConnection, d: TcpConnection)
      requires Sound() && closing == {} && c in accepted && d in accepted
      ensures c in connections_ <==> !c.isClosed_
      ensures c in connections_ <==> exists fd :: fd in poller.channels_ && poller.channels_[fd] == Conn(c)
      ensures c in connections_ <==> c.fd_ in poller.channels_ && poller.channels_[c.fd_] == Conn(c)
      ensures c.closeCalls == if c in connections_ then 0 else 1
      ensures c.fd_ == d.fd_ && c.fd_ in poller.channels_ ==> c == d
    {
      assert Proper(c) && Proper(d);
    }
  }
}
