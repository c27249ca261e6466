/** A byte queue in one array with room in front of it. */
module MsgBuffer {
  import opened Bytes
  import opened ByteOrder

  const BUFFER_OFFSET: nat := 8
  const EXTRA_BUFFER: nat := 8192

  function Max(a: nat, b: nat): nat {
    if a < b then b else a
  }

  lemma Patched(now: bytes, was: bytes, at: nat, data: bytes)
    requires |now| == |was| && at + |data| <= |was|
    requires forall k :: at <= k < at + |data| ==> now[k] == data[k - at]
    requires forall k :: 0 <= k < |was| && !(at <= k < at + |data|) ==> now[k] == was[k]
    ensures now == was[..at] + data + was[at + |data|..]
  {
  }

  /** Copies upwards from the first byte on, as is right when the bytes move down. */
  method CopyDown(a: array<byte>, src: nat, dst: nat, n: nat)
    requires dst <= src && src + n <= a.Length
    modifies a
    ensures a[..] == old(a[..dst]) + old(a[src..src + n]) + old(a[dst + n..])
  {
    ghost var was := a[..];
    for i := 0 to n
      invariant forall k :: dst <= k < dst + i ==> a[k] == was[k + (src - dst)]
      invariant forall k :: 0 <= k < a.Length && !(dst <= k < dst + i) ==> a[k] == was[k]
    {
      a[dst + i] := a[src + i];
    }
    Patched(a[..], was, dst, was[src..src + n]);
  }

  /** Copies downwards from the last byte on, as is right when the bytes move up. */
  method CopyUp(a: array<byte>, src: nat, dst: nat, n: nat)
    requires src <= dst && dst + n <= a.Length
    modifies a
    ensures a[..] == old(a[..dst]) + old(a[src..src + n]) + old(a[dst + n..])
  {
    ghost var was := a[..];
    for i := n downto 0
      invariant forall k :: dst + i <= k < dst + n ==> a[k] == was[k - (dst - src)]
      invariant forall k :: 0 <= k < a.Length && !(dst + i <= k < dst + n) ==> a[k] == was[k]
    {
      a[dst + i] := a[src + i];
    }
    Patched(a[..], was, dst, was[src..src + n]);
  }

  /** What copying a region up byte by byte from its front on leaves: bytes already copied may be copied again. */
  function CopiedForward(s: bytes, src: nat, dst: nat, n: nat): (r: bytes)
    requires src < dst && dst + n <= |s|
    ensures |r| == |s|
  {
    if n == 0 then s
    else
      var r := CopiedForward(s, src, dst, n - 1);
      r[dst + n - 1 := r[src + n - 1]]
  }

  lemma {:induction false} CopiedForwardAt(s: bytes, src: nat, dst: nat, n: nat, j: nat)
    requires src < dst && dst + n <= |s| && j < dst + n
    ensures var r := CopiedForward(s, src, dst, n); r[j] == if j < dst then s[j] else r[j - (dst - src)]
  {
    if n > 0 && j < dst + n - 1 {
      CopiedForwardAt(s, src, dst, n - 1, j);
    }
  }

  /** What is copied first is the region itself as long as it repeats itself. */
  lemma {:induction false} RepeatedAt(s: bytes, src: nat, dst: nat, n: nat, k: nat)
    requires src < dst && dst + n <= |s| && k < n && Repeats(s[src..src + n], dst - src)
    ensures CopiedForward(s, src, dst, n)[dst + k] == s[src + k]
  {
    CopiedForwardAt(s, src, dst, n, dst + k);
    if src + k < dst {
      CopiedForwardAt(s, src, dst, n, src + k);
    } else {
      RepeatedAt(s, src, dst, n, k - (dst - src));
      assert s[src..src + n][k] == s[src..src + n][k - (dst - src)];
    }
  }

  predicate Repeats(s: bytes, d: nat) {
    forall k :: d <= k < |s| ==> s[k] == s[k - d]
  }

  /** Such a copy gives the region again exactly if it repeats itself after as many bytes as it is moved by; one
      that is not longer than that always does. */
  lemma {:induction false} ForwardCopyIff(s: bytes, src: nat, dst: nat, n: nat)
    requires src < dst && dst + n <= |s|
    ensures CopiedForward(s, src, dst, n)[dst..dst + n] == s[src..src + n] <==> Repeats(s[src..src + n], dst - src)
  {
    var r, was, d := CopiedForward(s, src, dst, n), s[src..src + n], dst - src;
    if r[dst..dst + n] == was {
      forall k | d <= k < |was|
        ensures was[k] == was[k - d]
      {
        CopiedForwardAt(s, src, dst, n, dst + k);
        assert was[k] == r[dst..dst + n][k] && was[k - d] == r[dst..dst + n][k - d];
      }
    }
    if Repeats(was, d) {
      forall k | 0 <= k < n
        ensures r[dst..dst + n][k] == was[k]
      {
        RepeatedAt(s, src, dst, n, k);
      }
    }
  }

  method CopyIn(a: array<byte>, dst: nat, data: bytes)
    requires dst + |data| <= a.Length
    modifies a
    ensures a[..] == old(a[..dst]) + data + old(a[dst + |data|..])
  {
    ghost var was := a[..];
    for i := 0 to |data|
      invariant forall k :: dst <= k < dst + i ==> a[k] == data[k - dst]
      invariant forall k :: 0 <= k < a.Length && !(dst <= k < dst + i) ==> a[k] == was[k]
    {
      a[dst + i] := data[i];
    }
    Patched(a[..], was, dst, data);
  }

  lemma PushedUp(was: bytes, mid: bytes, now: bytes, head: nat, tail: nat, data: bytes)
    requires head <= tail <= tail + |data| <= |was| == |mid| == |now|
    requires mid == was[..head + |data|] + was[head..tail] + was[tail + |data|..]
    requires now == mid[..head] + data + mid[head + |data|..]
    ensures now[head..tail + |data|] == data + was[head..tail]
  {
    var moved, rest := was[head..tail], was[tail + |data|..];
    assert mid[..head] == was[..head] && mid[head + |data|..] == moved + rest;
    Middle(was[..head], data, moved, rest);
  }

  lemma Middle(a: bytes, b: bytes, c: bytes, d: bytes)
    ensures (a + b + (c + d))[|a|..|a| + |b| + |c|] == b + c
  {
  }

  /** Moves a region up and puts other bytes where it was. */
  method PutUnder(a: array<byte>, head: nat, tail: nat, data: bytes)
    requires head <= tail <= tail + |data| <= a.Length
    modifies a
    ensures a[head..tail + |data|] == data + old(a[head..tail])
  {
    ghost var was := a[..];
    CopyUp(a, head, head + |data|, tail - head);
    ghost var mid := a[..];
    assert mid == was[..head + |data|] + was[head..tail] + was[tail + |data|..];
    CopyIn(a, head, data);
    assert a[..] == mid[..head] + data + mid[head + |data|..];
    PushedUp(was, mid, a[..], head, tail, data);
    assert a[head..tail + |data|] == a[..][head..tail + |data|] && was[head..tail] == old(a[head..tail]);
  }

  /** Puts bytes right in front of a region. */
  method PutAhead(a: array<byte>, head: nat, tail: nat, data: bytes)
    requires |data| <= head <= tail <= a.Length
    modifies a
    ensures a[head - |data|..tail] == data + old(a[head..tail])
  {
    ghost var was := a[..];
    CopyIn(a, head - |data|, data);
    PutAheadOf(was, a[..], head, tail, data);
    assert a[head - |data|..tail] == a[..][head - |data|..tail] && was[head..tail] == old(a[head..tail]);
  }

  lemma PutAheadOf(was: bytes, now: bytes, head: nat, tail: nat, data: bytes)
    requires |data| <= head <= tail <= |was|
    requires now == was[..head - |data|] + data + was[head..]
    ensures |now| == |was| && now[head - |data|..tail] == data + was[head..tail]
  {
    Middle(was[..head - |data|], data, was[head..tail], was[tail..]);
    assert was[head..] == was[head..tail] + was[tail..];
    assert now == was[..head - |data|] + data + (was[head..tail] + was[tail..]);
  }

  class MsgBuffer {
    var head: nat
    var initCap: nat
    var buffer: array<byte>
    var tail: nat
    /** The size first allocated, the bytes copied by growing, and the most bytes ever demanded. */
    ghost const initialSize: nat
    ghost var copied: nat
    ghost var demand: nat

    ghost predicate Valid()
      reads this
    {
      head <= tail <= buffer.Length && buffer.Length == initCap + BUFFER_OFFSET && BUFFER_OFFSET <= initCap &&
      initialSize + copied <= buffer.Length <= Max(initialSize, 2 * demand + 24)
    }

    ghost function Contents(): bytes
      requires Valid()
      reads this, buffer
    {
      buffer[head..tail]
    }

    /** Nothing but this object and its array, which may be replaced by a new one, has changed. */
    twostate predicate Kept()
      reads this
    {
      (buffer == old(buffer) || fresh(buffer)) && old(copied) <= copied && old(demand) <= demand
    }

    constructor (len: nat)
      ensures fresh(buffer) && buffer.Length == len + BUFFER_OFFSET == initialSize && initCap == len
      ensures copied == 0 && demand == 0 && head == tail == BUFFER_OFFSET
      ensures (Valid() <==> BUFFER_OFFSET <= len) && (Valid() ==> Contents() == [])
    {
      head, initCap, tail := BUFFER_OFFSET, len, BUFFER_OFFSET;
      buffer := new byte[len + BUFFER_OFFSET](_ => '\0');
      initialSize, copied, demand := len + BUFFER_OFFSET, 0, 0;
    }

    function ReadableBytes(): nat
      requires Valid()
      reads this
    {
      tail - head
    }

    function WritableBytes(): nat
      requires Valid()
      reads this
    {
      buffer.Length - tail
    }

    method Peek(n: nat) returns (r: bytes)
      requires Valid() && n <= ReadableBytes()
      ensures r == Contents()[..n]
    {
      r := buffer[head..head + n];
    }

    /** Moves the readable bytes back to the usual offset, within the same array. */
    method Compact()
      requires Valid() && BUFFER_OFFSET <= head
      modifies this`head, this`tail, buffer
      ensures Valid() && Contents() == old(Contents()) && head == BUFFER_OFFSET
    {
      ghost var was := Contents();
      CopyDown(buffer, head, BUFFER_OFFSET, tail - head);
      tail := BUFFER_OFFSET + (tail - head);
      head := BUFFER_OFFSET;
      assert Contents() == was;
    }

    /** Moves to an array of twice the size, or of as much as is needed if that is more. */
    method Grow(len: nat)
      requires Valid() && buffer.Length < len + BUFFER_OFFSET + ReadableBytes() <= demand + BUFFER_OFFSET
      modifies this
      ensures Valid() && fresh(buffer) && Contents() == old(Contents()) && len <= WritableBytes()
      ensures copied == old(copied) + old(ReadableBytes()) && demand == old(demand)
      decreases 1, 0, 0
    {
      var newLen;
      if buffer.Length * 2 > BUFFER_OFFSET + ReadableBytes() + len {
        newLen := buffer.Length * 2;
      } else {
        newLen := BUFFER_OFFSET + ReadableBytes() + len;
      }
      var newbuffer := new MsgBuffer(newLen);
      newbuffer.AppendBuffer(this);
      copied := copied + ReadableBytes();
      Swap(newbuffer);
    }

    method EnsureWritableBytes(len: nat)
      requires Valid()
      modifies this, buffer
      ensures Valid() && Kept() && Contents() == old(Contents()) && len <= WritableBytes()
      ensures demand == Max(old(demand), old(ReadableBytes()) + len)
      ensures old(WritableBytes()) >= len ==> buffer == old(buffer) && head == old(head) && tail == old(tail)
      decreases if WritableBytes() >= len then 0 else 1, 1, 0
    {
      demand := Max(demand, ReadableBytes() + len);
      if WritableBytes() >= len {
        return;
      }
      if head + WritableBytes() >= len + BUFFER_OFFSET {
        Compact();
        return;
      }
      Grow(len);
    }

    /** The other buffer's array, bounds and capacity. */
    method Swap(buf: MsgBuffer)
      modifies this, buf
      ensures buffer == old(buf.buffer) && buf.buffer == old(buffer)
      ensures head == old(buf.head) && tail == old(buf.tail) && initCap == old(buf.initCap)
      ensures buf.head == old(head) && buf.tail == old(tail) && buf.initCap == old(initCap)
      ensures copied == old(copied) && demand == old(demand)
    {
      buffer, buf.buffer := buf.buffer, buffer;
      head, buf.head := buf.head, head;
      tail, buf.tail := buf.tail, tail;
      initCap, buf.initCap := buf.initCap, initCap;
    }

    method AppendBuffer(buf: MsgBuffer)
      requires Valid() && buf.Valid() && buf != this && buf.buffer != buffer
      modifies this, buffer
      ensures Valid() && Kept() && Contents() == old(Contents()) + old(buf.Contents())
      ensures old(WritableBytes()) >= buf.ReadableBytes() ==>
                buffer == old(buffer) && head == old(head) && tail == old(tail) + buf.ReadableBytes()
      decreases if WritableBytes() >= buf.ReadableBytes() then 0 else 1, 1, 1
    {
      ghost var was := Contents();
      EnsureWritableBytes(buf.ReadableBytes());
      ghost var data := buf.Contents();
      CopyIn(buffer, tail, buf.buffer[buf.head..buf.tail]);
      tail := tail + buf.ReadableBytes();
      assert Contents() == was + data;
    }

    method Append(data: bytes)
      requires Valid()
      modifies this, buffer
      ensures Valid() && Kept() && Contents() == old(Contents()) + data
      ensures demand == Max(old(demand), old(ReadableBytes()) + |data|)
      ensures old(WritableBytes()) >= |data| ==>
                buffer == old(buffer) && head == old(head) && tail == old(tail) + |data|
    {
      ghost var was := Contents();
      EnsureWritableBytes(|data|);
      CopyIn(buffer, tail, data);
      tail := tail + |data|;
      assert Contents() == was + data;
    }

    /** Drops bytes from the front; asking for too many empties the buffer. */
    method Retrieve(len: nat)
      requires Valid()
      modifies this`head, this`tail
      ensures Valid()
      ensures Contents() == if len >= |old(Contents())| then [] else old(Contents())[len..]
    {
      if len >= ReadableBytes() {
        RetrieveAll();
        return;
      }
      head := head + len;
    }

    /** Whatever the buffer was built with; an array that is sound is never large enough to be cut back. */
    method RetrieveAll()
      modifies this`head, this`tail, if buffer.Length > initCap * 2 then {this} else {}
      ensures head == tail == BUFFER_OFFSET && buffer.Length == Emptied(old(buffer.Length), initCap)
      ensures initCap == old(initCap) && copied == old(copied) && demand == old(demand)
      ensures old(Valid()) ==> Valid() && Contents() == []
    {
      if buffer.Length > initCap * 2 {
        var rest := new byte[initCap];
        forall i | 0 <= i < initCap {
          rest[i] := buffer[i];
        }
        buffer := rest;
      }
      tail, head := BUFFER_OFFSET, BUFFER_OFFSET;
    }

    /** `got` is what the kernel delivers into the array and the extra buffer, or an error. */
    method ReadFd(got: Option<bytes>) returns (n: int)
      requires Valid()
      requires got.Some? ==>
                 |got.value| <= WritableBytes() + (if WritableBytes() < EXTRA_BUFFER then EXTRA_BUFFER else 0)
      modifies this, buffer
      ensures Valid() && Kept()
      ensures n == (if got.Some? then |got.value| else -1)
      ensures Contents() == old(Contents()) + (if got.Some? then got.value else [])
      ensures demand <= Max(old(demand), |Contents()|)
    {
      if got.None? {
        return -1;
      }
      var data, writable := got.value, WritableBytes();
      n := |data|;
      if n <= writable {
        Fill(data);
      } else {
        Fill(data[..writable]);
        Append(data[writable..]);
        assert data[..writable] + data[writable..] == data;
      }
    }

    /** Bytes written behind the readable ones become readable. */
    method Fill(data: bytes)
      requires Valid() && |data| <= WritableBytes()
      modifies this`tail, buffer
      ensures Valid() && Contents() == old(Contents()) + data && tail == old(tail) + |data|
    {
      ghost var was := Contents();
      CopyIn(buffer, tail, data);
      HasWritten(|data|);
      assert Contents() == was + data;
    }

    method HasWritten(len: nat)
      requires Valid() && len <= WritableBytes()
      modifies this`tail
      ensures Valid() && tail == old(tail) + len
      ensures Contents() == old(Contents()) + old(buffer[tail..tail + len])
    {
      tail := tail + len;
    }

    /** Takes back the bytes written last. */
    method Unwrite(offset: nat)
      requires Valid() && offset <= ReadableBytes()
      modifies this`tail
      ensures Valid() && Contents() == old(Contents())[..old(ReadableBytes()) - offset]
    {
      tail := tail - offset;
    }

    method Read(len: nat) returns (r: bytes)
      requires Valid()
      modifies this`head, this`tail
      ensures Valid() && r + Contents() == old(Contents())
      ensures |r| == if len > |old(Contents())| then |old(Contents())| else len
    {
      var n := if len > ReadableBytes() then ReadableBytes() else len;
      r := Peek(n);
      Retrieve(n);
    }

    method FindCRLF() returns (r: Option<nat>)
      requires Valid()
      ensures r == Find(Contents(), CRLF)
    {
      var s := Peek(ReadableBytes());
      assert s[0..] == s == Contents();
      r := Seek(s, CRLF, 0);
    }

    /** Puts bytes before the readable ones: into the room in front, by moving the readable bytes up,
        or into a new array. */
    method AddInFront(data: bytes)
      requires Valid()
      modifies this, buffer
      ensures Valid() && Kept() && Contents() == data + old(Contents())
      ensures demand <= Max(old(demand), |Contents()|)
    {
      if head >= |data| {
        PutBefore(data);
        return;
      }
      if |data| <= WritableBytes() {
        PushUp(data);
        return;
      }
      Rebuild(data);
    }

    method PutBefore(data: bytes)
      requires Valid() && |data| <= head
      modifies this`head, buffer
      ensures Valid() && Contents() == data + old(Contents())
    {
      PutAhead(buffer, head, tail, data);
      head := head - |data|;
    }

    method PushUp(data: bytes)
      requires Valid() && |data| <= WritableBytes()
      modifies this`tail, buffer
      ensures Valid() && Contents() == data + old(Contents())
    {
      PutUnder(buffer, head, tail, data);
      tail := tail + |data|;
    }

    method Rebuild(data: bytes)
      requires Valid()
      modifies this
      ensures Valid() && Kept() && fresh(buffer) && Contents() == data + old(Contents())
      ensures demand == Max(old(demand), |data| + old(ReadableBytes()))
    {
      demand := Max(demand, |data| + ReadableBytes());
      var newLen := if |data| + ReadableBytes() < initCap then initCap else |data| + ReadableBytes();
      var newBuf := new MsgBuffer(newLen);
      newBuf.Append(data);
      assert newBuf.Contents() == data;
      assert newBuf.WritableBytes() >= ReadableBytes();
      newBuf.AppendBuffer(this);
      Swap(newBuf);
    }

    // ----- integers

    method AppendInt(n: nat, w: nat)
      requires Valid() && n < Power256(w)
      modifies this, buffer
      ensures Valid() && Kept() && Contents() == old(Contents()) + NetworkBytes(n, w)
    {
      SwappedIsNetwork(n, w);
      Append(HostBytes(Swapped(n, w), w));
    }

    method AddInFrontInt(n: nat, w: nat)
      requires Valid() && n < Power256(w)
      modifies this, buffer
      ensures Valid() && Kept() && Contents() == NetworkBytes(n, w) + old(Contents())
    {
      SwappedIsNetwork(n, w);
      AddInFront(HostBytes(Swapped(n, w), w));
    }

    method PeekInt(w: nat) returns (n: nat)
      requires Valid() && w <= ReadableBytes()
      ensures n == NetworkValue(Contents()[..w])
    {
      var image := Peek(w);
      ReadsNetwork(image);
      n := Swapped(HostValue(image), w);
    }

    /** Reading back an integer that was written there gives that integer. */
    method ReadInt(w: nat) returns (n: nat)
      requires Valid() && w <= ReadableBytes()
      modifies this`head, this`tail
      ensures Valid() && Contents() == old(Contents())[w..]
      ensures forall m: nat :: m < Power256(w) && NetworkBytes(m, w) <= old(Contents()) ==> n == m
    {
      n := PeekInt(w);
      ghost var was := Contents();
      Retrieve(w);
      forall m: nat | m < Power256(w) && NetworkBytes(m, w) <= was
        ensures n == m
      {
        assert was[..w] == NetworkBytes(m, w);
        NetworkRoundTrip(m, w);
      }
    }
  }

  /** The size of the array once the buffer has been emptied. */
  function Emptied(size: nat, initCap: nat): nat {
    if size > initCap * 2 then initCap else size
  }

  /** Emptying leaves head and tail within the array exactly if eight bytes are left of it; of a buffer freshly
      built, exactly if it was built with eight bytes or more. */
  lemma EmptyingSafeIff(size: nat, initCap: nat)
    requires BUFFER_OFFSET <= size
    ensures BUFFER_OFFSET <= Emptied(size, initCap) <==> BUFFER_OFFSET <= initCap || size <= initCap * 2
    ensures size == initCap + BUFFER_OFFSET ==> (BUFFER_OFFSET <= Emptied(size, initCap) <==> BUFFER_OFFSET <= initCap)
  {
  }

  // ----- whole runs

  datatype Op =
    | DoAppend(data: bytes)
    | DoAddInFront(data: bytes)
    | DoRetrieve(len: nat)
    | DoUnwrite(len: nat)
    | DoReadFd(data: bytes)

  /** The byte queue the buffer stands for. */
  function Applied(q: bytes, op: Op): bytes {
    match op
    case DoAppend(data) => q + data
    case DoAddInFront(data) => data + q
    case DoRetrieve(len) => if len >= |q| then [] else q[len..]
    case DoUnwrite(len) => if len > |q| then q else q[..|q| - len]
    case DoReadFd(data) => q + data
  }

  function AppliedAll(q: bytes, ops: seq<Op>): bytes {
    if ops == [] then q else Applied(AppliedAll(q, ops[..|ops| - 1]), ops[|ops| - 1])
  }

  /** The most bytes the queue ever holds. */
  function Peak(q: bytes, ops: seq<Op>): nat {
    if ops == [] then |q| else Max(Peak(q, ops[..|ops| - 1]), |AppliedAll(q, ops)|)
  }

  lemma RunStep(q: bytes, done: seq<Op>, op: Op)
    ensures AppliedAll(q, done + [op]) == Applied(AppliedAll(q, done), op)
    ensures Peak(q, done + [op]) == Max(Peak(q, done), |AppliedAll(q, done + [op])|)
  {
    assert (done + [op])[..|done|] == done;
  }

  /** What a read delivers is what there is room for. */
  predicate Delivered(op: Op, done: Op) {
    if op.DoReadFd? then done.DoReadFd? && done.data <= op.data else done == op
  }

  /** Any run of operations on the buffer is the same run on the queue, and neither the array nor the
      work of growing it exceeds its bound. */
  method Run(buf: MsgBuffer, ops: seq<Op>) returns (ghost done: seq<Op>)
    requires buf.Valid()
    modifies buf, buf.buffer
    ensures |done| == |ops| && forall i :: 0 <= i < |ops| ==> Delivered(ops[i], done[i])
    ensures buf.Valid() && buf.Contents() == AppliedAll(old(buf.Contents()), done)
    ensures buf.buffer.Length <= Max(buf.initialSize, 2 * Max(old(buf.demand), Peak(old(buf.Contents()), done)) + 24)
    ensures buf.copied <= buf.buffer.Length - buf.initialSize
  {
    ghost var q := buf.Contents();
    done := [];
    for i := 0 to |ops|
      invariant buf.Valid() && (buf.buffer == old(buf.buffer) || fresh(buf.buffer))
      invariant |done| == i && forall k :: 0 <= k < i ==> Delivered(ops[k], done[k])
      invariant buf.Contents() == AppliedAll(q, done)
      invariant buf.demand <= Max(old(buf.demand), Peak(q, done))
    {
      ghost var op := Apply(buf, ops[i]);
      RunStep(q, done, op);
      done := done + [op];
    }
  }

  method Apply(buf: MsgBuffer, op: Op) returns (ghost done: Op)
    requires buf.Valid()
    modifies buf, buf.buffer
    ensures Delivered(op, done)
    ensures buf.Valid() && buf.Contents() == Applied(old(buf.Contents()), done)
    ensures buf.buffer == old(buf.buffer) || fresh(buf.buffer)
    ensures buf.demand <= Max(old(buf.demand), |buf.Contents()|)
  {
    done := op;
    match op
    case DoAppend(data) => buf.Append(data);
    case DoAddInFront(data) => buf.AddInFront(data);
    case DoRetrieve(len) => buf.Retrieve(len);
    case DoUnwrite(len) => if len <= buf.ReadableBytes() { buf.Unwrite(len); }
    case DoReadFd(data) =>
      var room := buf.WritableBytes() + (if buf.WritableBytes() < EXTRA_BUFFER then EXTRA_BUFFER else 0);
      var n := if |data| <= room then |data| else room;
      done := DoReadFd(data[..n]);
      var _ := buf.ReadFd(Some(data[..n]));
  }
}
