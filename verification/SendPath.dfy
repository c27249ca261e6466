/** The send path: posts of an HTTP context, the queue of a connection, and a kernel that may take
    only part of what it is given. */
module SendPath {
  import opened Bytes

  /** Memory that is pointed into: the string `header_`, or the payload of a packet. */
  class Buffer {
    var data: bytes

    constructor (data: bytes)
      ensures this.data == data
    {
      this.data := data;
    }
  }

  /** A pointer into a buffer and a length, not a copy. */
  datatype Iovec = Iovec(buffer: Buffer, off: nat, len: nat)

  /** The contents of the buffers that may be pointed into. */
  type Memory = map<Buffer, bytes>

  ghost function With(m: Memory, b: Buffer, data: bytes): Memory {
    m[b := data]
  }

  ghost predicate Reflects(m: Memory)
    reads m.Keys
  {
    forall b :: b in m ==> m[b] == b.data
  }

  ghost predicate InBounds(v: Iovec, m: Memory) {
    v.buffer in m && 0 < v.len && v.off + v.len <= |m[v.buffer]|
  }

  ghost function Pointed(v: Iovec, m: Memory): bytes {
    if InBounds(v, m) then m[v.buffer][v.off..v.off + v.len] else []
  }

  ghost predicate AllInBounds(q: seq<Iovec>, m: Memory) {
    forall i :: 0 <= i < |q| ==> InBounds(q[i], m)
  }

  /** What the queue points at. */
  ghost function Flat(q: seq<Iovec>, m: Memory): bytes {
    if q == [] then [] else Pointed(q[0], m) + Flat(q[1..], m)
  }

  ghost predicate Within(q: seq<Iovec>, bufs: set<Buffer>) {
    forall i :: 0 <= i < |q| ==> q[i].buffer in bufs
  }

  lemma {:induction false} FlatSnoc(q: seq<Iovec>, v: Iovec, m: Memory)
    ensures Flat(q + [v], m) == Flat(q, m) + Pointed(v, m)
  {
    if q == [] {
      assert q + [v] == [v] && [v][1..] == [];
    } else {
      FlatSnoc(q[1..], v, m);
      SnocParts(q, v);
      FlatUnfolds(q + [v], m);
      assert Pointed(q[0], m) + (Flat(q[1..], m) + Pointed(v, m)) == Pointed(q[0], m) + Flat(q[1..], m) + Pointed(v, m);
    }
  }

  lemma SnocParts(q: seq<Iovec>, v: Iovec)
    requires q != []
    ensures (q + [v])[0] == q[0] && (q + [v])[1..] == q[1..] + [v]
  {
  }

  /** Buffers that are not pointed into do not matter. */
  lemma {:induction false} FlatElsewhere(q: seq<Iovec>, m: Memory, m': Memory, bufs: set<Buffer>)
    requires Within(q, bufs) && AllInBounds(q, m) && forall b :: b in bufs && b in m ==> b in m' && m'[b] == m[b]
    ensures AllInBounds(q, m') && Flat(q, m') == Flat(q, m)
  {
    if q != [] {
      assert InBounds(q[0], m) && q[0].buffer in bufs;
      FlatElsewhere(q[1..], m, m', bufs);
      forall i | 0 <= i < |q|
        ensures InBounds(q[i], m')
      {
        assert InBounds(q[i], m) && q[i].buffer in bufs;
      }
    }
  }

  lemma {:induction false} FlatFront(q: seq<Iovec>, i: nat, data: bytes, m: Memory)
    requires AllInBounds(q, m) && i < |q|
    ensures data + Flat(q[i..], m) == (data + Pointed(q[i], m)) + Flat(q[i + 1..], m)
  {
    assert q[i..][1..] == q[i + 1..] && q[i..][0] == q[i];
  }

  function Total(q: seq<Iovec>): nat {
    if q == [] then 0 else q[0].len + Total(q[1..])
  }

  lemma {:induction false} FlatLength(q: seq<Iovec>, m: Memory)
    requires AllInBounds(q, m)
    ensures |Flat(q, m)| == Total(q) && (q != [] ==> 0 < Total(q))
  {
    if q != [] {
      assert InBounds(q[0], m);
      FlatLength(q[1..], m);
    }
  }

  function Shortened(v: Iovec, ret: nat): Iovec
    requires ret <= v.len
  {
    Iovec(v.buffer, v.off + ret, v.len - ret)
  }

  /** The queue after `ret` bytes of it have been written. */
  function Trimmed(q: seq<Iovec>, ret: nat): seq<Iovec> {
    if ret == 0 || q == [] then q
    else if q[0].len > ret then [Shortened(q[0], ret)] + q[1..]
    else Trimmed(q[1..], ret - q[0].len)
  }

  /** Exactly those bytes are gone from the front. */
  lemma {:induction false} TrimmedFlat(q: seq<Iovec>, ret: nat, m: Memory)
    requires AllInBounds(q, m) && ret <= |Flat(q, m)|
    ensures AllInBounds(Trimmed(q, ret), m) && Flat(Trimmed(q, ret), m) == Flat(q, m)[ret..]
  {
    if ret == 0 || q == [] {
      assert Trimmed(q, ret) == q;
    } else if q[0].len > ret {
      BoundsRest(q, m);
      BoundsKept(q, ret, m);
      KeepFirst(q, ret, m);
    } else {
      DropFirst(q, ret, m);
      TrimmedFlat(q[1..], ret - q[0].len, m);
    }
  }

  lemma {:induction false} KeepFirst(q: seq<Iovec>, ret: nat, m: Memory)
    requires q != [] && InBounds(q[0], m) && 0 < ret < q[0].len && ret <= |Flat(q, m)|
    ensures Flat([Shortened(q[0], ret)] + q[1..], m) == Flat(q, m)[ret..]
  {
    FirstUnfolds(q, m);
    TrimmedFront(q[0], q[1..], ret, m);
  }

  lemma {:induction false} FirstUnfolds(q: seq<Iovec>, m: Memory)
    requires q != []
    ensures Flat([q[0]] + q[1..], m) == Flat(q, m)
  {
    assert [q[0]] + q[1..] == q;
  }

  lemma BoundsKept(q: seq<Iovec>, ret: nat, m: Memory)
    requires AllInBounds(q, m) && q != [] && 0 < ret < q[0].len
    ensures AllInBounds([Shortened(q[0], ret)] + q[1..], m)
  {
    assert InBounds(q[0], m);
  }

  lemma {:induction false} FlatUnfolds(q: seq<Iovec>, m: Memory)
    requires q != []
    ensures Flat(q, m) == Pointed(q[0], m) + Flat(q[1..], m)
  {
  }

  lemma {:induction false} DropFirst(q: seq<Iovec>, ret: nat, m: Memory)
    requires AllInBounds(q, m) && q != [] && q[0].len <= ret <= |Flat(q, m)|
    ensures AllInBounds(q[1..], m) && ret - q[0].len <= |Flat(q[1..], m)|
    ensures Flat(q, m)[ret..] == Flat(q[1..], m)[ret - q[0].len..]
  {
    FlatRest(q, m);
    DropAll(Pointed(q[0], m), Flat(q[1..], m), ret);
  }

  lemma BoundsRest(q: seq<Iovec>, m: Memory)
    requires AllInBounds(q, m) && q != []
    ensures InBounds(q[0], m) && AllInBounds(q[1..], m)
  {
  }

  lemma {:induction false} FlatRest(q: seq<Iovec>, m: Memory)
    requires AllInBounds(q, m) && q != []
    ensures InBounds(q[0], m) && AllInBounds(q[1..], m) && |Pointed(q[0], m)| == q[0].len
    ensures Flat(q, m) == Pointed(q[0], m) + Flat(q[1..], m)
  {
    assert InBounds(q[0], m);
  }

  lemma {:induction false} TrimmedFront(v: Iovec, rest: seq<Iovec>, ret: nat, m: Memory)
    requires InBounds(v, m) && 0 < ret < v.len
    ensures ret <= |Flat([v] + rest, m)| && Flat([Shortened(v, ret)] + rest, m) == Flat([v] + rest, m)[ret..]
  {
    PointedRest(v, ret, m);
    FlatCons(v, rest, m);
    FlatCons(Shortened(v, ret), rest, m);
    DropLeft(Pointed(v, m), Flat(rest, m), ret);
  }

  lemma {:induction false} TrimmedWithin(q: seq<Iovec>, ret: nat, bufs: set<Buffer>)
    requires Within(q, bufs)
    ensures Within(Trimmed(q, ret), bufs)
  {
    if ret != 0 && q != [] && q[0].len <= ret {
      TrimmedWithin(q[1..], ret - q[0].len, bufs);
    }
  }

  lemma {:induction false} FlatCons(v: Iovec, q: seq<Iovec>, m: Memory)
    ensures Flat([v] + q, m) == Pointed(v, m) + Flat(q, m)
  {
    assert ([v] + q)[1..] == q;
  }

  lemma DropLeft(a: bytes, b: bytes, n: nat)
    requires n <= |a|
    ensures (a + b)[n..] == a[n..] + b
  {
  }

  lemma DropAll(a: bytes, b: bytes, n: nat)
    requires |a| <= n <= |a| + |b|
    ensures (a + b)[n..] == b[n - |a|..]
  {
  }

  lemma PointedRest(v: Iovec, ret: nat, m: Memory)
    requires InBounds(v, m) && 0 < ret < v.len
    ensures var w := Shortened(v, ret);
            InBounds(w, m) && Pointed(w, m) == Pointed(v, m)[ret..] && |Pointed(v, m)| == v.len
  {
  }

  // ----- the balance of accepted bytes

  /** The wire, the queue, what is being sent and what is still to be sent make up what was accepted;
      and the queue points only into `bufs`. */
  ghost predicate Balanced(wire: bytes, q: seq<Iovec>, m: Memory, bufs: set<Buffer>, data: bytes, unissued: bytes,
                           accepted: bytes) {
    Within(q, bufs) && AllInBounds(q, m) && wire + Flat(q, m) + data + unissued == accepted
  }

  lemma Regroup(a: bytes, b: bytes, c: bytes, d: bytes, n: nat)
    requires n <= |b|
    ensures a + b + c + d == (a + b[..n]) + b[n..] + c + d
    ensures a + b + c + d == a + (b + c) + [] + d
    ensures a + [] + b + c == (a + b[..n]) + [] + b[n..] + c
  {
    assert b == b[..n] + b[n..];
  }

  lemma {:induction false} PushBalanced(wire: bytes, q: seq<Iovec>, m: Memory, bufs: set<Buffer>, v: Iovec,
      unissued: bytes, accepted: bytes)
    requires Balanced(wire, q, m, bufs, Pointed(v, m), unissued, accepted) && v.buffer in bufs && InBounds(v, m)
    ensures Balanced(wire, q + [v], m, bufs, [], unissued, accepted)
  {
    FlatSnoc(q, v, m);
    Regroup(wire, Flat(q, m), Pointed(v, m), unissued, 0);
  }

  lemma {:induction false} WriteBalanced(wire: bytes, m: Memory, bufs: set<Buffer>, data: bytes, n: nat,
      unissued: bytes, accepted: bytes)
    requires Balanced(wire, [], m, bufs, data, unissued, accepted) && n <= |data|
    ensures Balanced(wire + data[..n], [], m, bufs, data[n..], unissued, accepted)
  {
    Regroup(wire, data, unissued, [], n);
  }

  lemma {:induction false} GatherBalanced(wire: bytes, q: seq<Iovec>, m: Memory, bufs: set<Buffer>, n: nat,
      unissued: bytes, accepted: bytes)
    requires Balanced(wire, q, m, bufs, [], unissued, accepted) && n <= |Flat(q, m)|
    ensures Balanced(wire + Flat(q, m)[..n], Trimmed(q, n), m, bufs, [], unissued, accepted)
    ensures Total(Trimmed(q, n)) == Total(q) - n
  {
    TrimmedFlat(q, n, m);
    TrimmedWithin(q, n, bufs);
    FlatLength(q, m);
    FlatLength(Trimmed(q, n), m);
    Regroup(wire, Flat(q, m), [], unissued, n);
  }

  /** Accepting more keeps the balance, as long as what is pointed into stays as it was. */
  lemma {:induction false} AdmitBalanced(wire: bytes, q: seq<Iovec>, m: Memory, m': Memory, bufs: set<Buffer>,
      bufs': set<Buffer>, data: bytes, unissued: bytes, accepted: bytes)
    requires Balanced(wire, q, m, bufs, [], [], accepted)
    requires q != [] ==> bufs <= bufs' && forall b :: b in bufs && b in m ==> b in m' && m'[b] == m[b]
    ensures Balanced(wire, q, m', bufs', data, unissued, accepted + data + unissued)
  {
    if q != [] {
      FlatElsewhere(q, m, m', bufs);
    }
    assert Flat(q, m') == Flat(q, m);
    assert wire + Flat(q, m) + data + unissued == (wire + Flat(q, m) + [] + []) + data + unissued;
  }

  /** With nothing left in the queue, what was in it has been written, and whatever is written later goes behind. */
  lemma AllWritten(wire: bytes, flat: bytes, unissued: bytes, accepted: bytes, wire': bytes, later: bytes,
      accepted': bytes)
    requires wire + flat + [] + unissued == accepted && wire' + [] + [] + unissued == accepted <= accepted'
    requires later <= accepted' && |wire'| <= |later|
    ensures wire + flat <= later
  {
    assert |wire + flat| == |wire'|;
    assert (wire + flat + [] + unissued)[..|wire'|] == wire + flat;
    assert accepted'[..|wire'|] == accepted[..|wire'|] && later[..|wire'|] == accepted'[..|wire'|];
  }

  lemma {:induction false} WirePrefix(wire: bytes, q: seq<Iovec>, m: Memory, bufs: set<Buffer>, unissued: bytes,
      accepted: bytes)
    requires Balanced(wire, q, m, bufs, [], unissued, accepted)
    ensures wire <= accepted
  {
    assert wire + Flat(q, m) + [] + unissued == wire + (Flat(q, m) + [] + unissued);
  }

  /** A buffer may be overwritten with anything exactly when nothing pending points into it. */
  lemma {:induction false} OverwriteSafeIff(q: seq<Iovec>, m: Memory, b: Buffer)
    requires AllInBounds(q, m) && b in m
    ensures (forall text: bytes :: Flat(q, With(m, b, text)) == Flat(q, m)) <==>
            (forall i :: 0 <= i < |q| ==> q[i].buffer != b)
  {
    if i :| 0 <= i < |q| && q[i].buffer == b {
      OverwriteShows(q, m, b, i);
    } else {
      forall text: bytes
        ensures Flat(q, With(m, b, text)) == Flat(q, m)
      {
        FlatElsewhere(q, m, With(m, b, text), set v | v in q :: v.buffer);
      }
    }
  }

  /** Every byte changed. */
  function Inverted(s: bytes): bytes {
    seq(|s|, i requires 0 <= i < |s| => if s[i] == 'a' then 'b' else 'a')
  }

  lemma {:induction false} OverwriteShows(q: seq<Iovec>, m: Memory, b: Buffer, i: nat)
    requires AllInBounds(q, m) && b in m && i < |q| && q[i].buffer == b
    ensures Flat(q, With(m, b, Inverted(m[b]))) != Flat(q, m)
    decreases i
  {
    var m', v := With(m, b, Inverted(m[b])), q[0];
    assert InBounds(v, m) && InBounds(v, m');
    if v.buffer == b {
      assert Pointed(v, m')[0] != Pointed(v, m)[0];
      assert Flat(q, m')[0] != Flat(q, m)[0];
    } else {
      OverwriteShows(q[1..], m, b, i - 1);
      assert Flat(q, m')[v.len..] == Flat(q[1..], m') && Flat(q, m)[v.len..] == Flat(q[1..], m);
    }
  }

  /** What is queued of a text that is sent while others wait. */
  function Tail(b: Buffer, text: bytes): seq<Iovec> {
    if text == [] then [] else [Iovec(b, 0, |text|)]
  }

  /** Pointers that show as many bytes as they should are in bounds. */
  lemma {:induction false} FullLength(q: seq<Iovec>, m: Memory)
    requires forall i :: 0 <= i < |q| ==> 0 < q[i].len
    ensures |Flat(q, m)| <= Total(q) && (|Flat(q, m)| == Total(q) ==> AllInBounds(q, m))
  {
    if q != [] {
      FullLength(q[1..], m);
      if |Flat(q, m)| == Total(q) {
        assert q[0].len > 0 && InBounds(q[0], m);
      }
    }
  }

  lemma Cancel(a: bytes, x: bytes, y: bytes, c: bytes)
    ensures a + x + c == a + y + c <==> x == y
  {
    if a + x + c == a + y + c {
      assert x == (a + x + c)[|a|..|a| + |x|] && y == (a + y + c)[|a|..|a| + |y|];
    }
  }

  lemma {:induction false} TailShows(q: seq<Iovec>, m: Memory, b: Buffer, text: bytes)
    requires b in m && m[b] == text
    ensures Flat(q + Tail(b, text), m) == Flat(q, m) + text
    ensures AllInBounds(q + Tail(b, text), m) <==> AllInBounds(q, m)
  {
    if text == [] {
      assert q + Tail(b, text) == q;
    } else {
      FlatSnoc(q, Iovec(b, 0, |text|), m);
      assert forall i :: 0 <= i < |q| ==> (q + Tail(b, text))[i] == q[i];
    }
  }

  /** When a text is sent from a buffer that pending pointers point into, the balance is kept exactly if
      they show what they showed before. */
  lemma {:induction false} OverwriteBalancedIff(wire: bytes, q: seq<Iovec>, m: Memory, m': Memory, b: Buffer,
      text: bytes, later: bytes, accepted: bytes)
    requires Balanced(wire, q, m, {b}, [], [], accepted) && b in m' && m'[b] == text
    ensures Balanced(wire, q + Tail(b, text), m', {b}, [], later, accepted + text + later) <==>
            Flat(q, m') == Flat(q, m)
  {
    TailShows(q, m', b, text);
    forall i | 0 <= i < |q|
      ensures 0 < q[i].len
    {
      assert InBounds(q[i], m);
    }
    FlatLength(q, m);
    FullLength(q, m');
    SumsEqual(wire, Flat(q, m'), Flat(q, m), text, later);
  }

  lemma SumsEqual(a: bytes, x: bytes, y: bytes, c: bytes, d: bytes)
    ensures a + y + [] + [] == a + y
    ensures a + (x + c) + [] + d == a + y + c + d <==> x == y
  {
    Cancel(a, x, y, c + d);
    assert a + (x + c) + [] + d == a + x + (c + d);
    assert a + y + c + d == a + y + (c + d);
  }

  /** A case in point: of the stream header "ab" one byte has been written when "cd" is posted. The pending
      pointer then shows "d", and "b" is lost. */
  lemma PartlyWrittenHeader(header: Buffer)
    ensures var none: Memory := map[]; var was, now := With(none, header, "ab"), With(none, header, "cd");
            var q := [Iovec(header, 1, 1)];
            Balanced("a", q, was, {header}, [], [], "ab") && Flat(q, now) == "d" &&
            !Balanced("a", q + Tail(header, "cd"), now, {header}, [], [], "ab" + "cd") &&
            "a" + Flat(q + Tail(header, "cd"), now) == "adcd"
  {
    var none: Memory := map[];
    var was, now := With(none, header, "ab"), With(none, header, "cd");
    var q := [Iovec(header, 1, 1)];
    var ab: bytes, cd: bytes := "ab", "cd";
    FlatUnfolds(q, was);
    FlatUnfolds(q, now);
    assert q[1..] == [] && was[header] == ab && now[header] == cd;
    assert InBounds(q[0], was) && Pointed(q[0], was) == ab[1..2] == ['b'];
    assert InBounds(q[0], now) && Pointed(q[0], now) == cd[1..2] == ['d'];
    assert Flat(q, was) == "b" && Flat(q, now) == "d";
    OverwriteBalancedIff("a", q, was, now, header, "cd", [], "ab");
    TailShows(q, now, header, "cd");
  }

  datatype WriteResult = Wrote(n: nat) | Again | Failed

  /** What only grows: the bytes on the wire, the writes asked for, and the gathering writes that took nothing;
      and whether one has failed. */
  datatype Tally = Tally(written: nat, asked: nat, refused: nat, broken: bool) {
    predicate UpTo(t: Tally) {
      written <= t.written && asked <= t.asked && refused <= t.refused && (broken ==> t.broken)
    }
  }

  class Kernel {
    var wire: bytes
    /** Whether a gathering write has failed. */
    var broken: bool
    /** The writes asked for, and the gathering writes that took nothing. */
    ghost var asked: nat
    ghost var refused: nat

    ghost function Count(): Tally
      reads this
    {
      Tally(|wire|, asked, refused, broken)
    }

    /** A direct write, taken to succeed: it transfers any part of the data. */
    method Write(data: bytes) returns (n: nat)
      modifies this`wire, this`asked
      ensures n <= |data| && wire == old(wire) + data[..n] && asked == old(asked) + 1
    {
      n :| 0 <= n <= |data|;
      wire, asked := wire + data[..n], asked + 1;
    }

    /** A gathering write of at least one byte transfers at least one, or none for now, or fails. */
    method Writev(data: bytes) returns (r: WriteResult)
      requires data != []
      modifies this
      ensures r.Wrote? ==> 0 < r.n <= |data| && wire == old(wire) + data[..r.n]
      ensures !r.Wrote? ==> wire == old(wire)
      ensures asked == old(asked) + 1 && refused == old(refused) + if r.Again? then 1 else 0
      ensures broken == (old(broken) || r.Failed?)
    {
      var n: nat :| n <= |data| + 1;
      asked := asked + 1;
      if n == 0 {
        refused := refused + 1;
        return Again;
      } else if n == |data| + 1 {
        broken := true;
        return Failed;
      }
      wire := wire + data[..n];
      return Wrote(n);
    }
  }

  const SIZE_RANGE: int := 0x1_0000_0000_0000_0000

  /** Offset and length of what is queued after a direct write of `size` bytes: its result, -1 for a failure,
      is kept in an unsigned variable, and the arithmetic is that of 64 bits. */
  function Remaining(size: nat, ret: int): (int, int) {
    var len := ret % SIZE_RANGE;
    (if len < SIZE_RANGE / 2 then len else len - SIZE_RANGE, (size - len) % SIZE_RANGE)
  }

  /** What is queued lies within the buffer if and only if the direct write did not fail. After a failure one
      byte too many is queued, from one byte before the buffer on. */
  lemma DirectWriteIff(size: nat, ret: int)
    requires -1 <= ret <= size < SIZE_RANGE / 2
    ensures var (off, len) := Remaining(size, ret);
            (0 <= off && 0 <= len && off + len <= size <==> ret != -1) &&
            (ret != -1 ==> off == ret && len == size - ret) && (ret == -1 ==> off == -1 && len == size + 1)
  {
  }

  /** What waits in the queue after a direct write of `size` bytes that wrote `ret` of them. */
  function Waiting(buf: Buffer, size: nat, ret: nat): seq<Iovec>
    requires ret <= size < SIZE_RANGE / 2
  {
    var (off, len) := Remaining(size, ret);
    if len == 0 then [] else [Iovec(buf, off, len)]
  }

  lemma WaitingRest(buf: Buffer, size: nat, ret: nat)
    requires ret <= size < SIZE_RANGE / 2
    ensures Waiting(buf, size, ret) == if ret == size then [] else [Iovec(buf, ret, size - ret)]
  {
    DirectWriteIff(size, ret);
  }

  datatype PostState = Init | Http | HttpHeader | HttpBody | HttpStreamHeader | HttpStreamChunk

  /** Bounds the completions that can still follow one another synchronously. */
  function Rank(s: PostState): nat {
    match s
    case Init => 0
    case HttpHeader => 2
    case _ => 1
  }

  /** What a caller may post. */
  datatype Post = Whole(text: bytes) | Parted(header: bytes, packet: Buffer) | StreamChunk(packet: Buffer)

  /** What a handler may do when it hears of a completion. */
  datatype Action = Make(post: Post) | Close

  /** The handler reacts to each completion as planned: with any posts, or by closing the connection. */
  class Handler {
    var plan: seq<seq<Action>>
    var sent: nat
    var sentChunks: nat

    constructor (plan: seq<seq<Action>>)
      ensures this.plan == plan && sent == 0 && sentChunks == 0
    {
      this.plan, sent, sentChunks := plan, 0, 0;
    }

    method OnSent(ctx: HttpContext)
      requires ctx.handler_ == this && ctx.Completed(true)
      modifies this, ctx, ctx.header_, ctx.connection_, ctx.connection_.kernel
      ensures ctx.Quiet() && ctx.Followed(old(ctx.Now()))
      decreases |plan|, 0, 1
    {
      sent := sent + 1;
      React(ctx);
    }

    method OnSentNextChunk(ctx: HttpContext)
      requires ctx.handler_ == this && ctx.Completed(false)
      modifies this, ctx, ctx.header_, ctx.connection_, ctx.connection_.kernel
      ensures ctx.Quiet() && ctx.Followed(old(ctx.Now()))
      decreases |plan|, 0, 1
    {
      sentChunks := sentChunks + 1;
      React(ctx);
    }

    method React(ctx: HttpContext)
      requires ctx.handler_ == this && ctx.Quiet()
      modifies this, ctx, ctx.header_, ctx.connection_, ctx.connection_.kernel
      ensures ctx.Quiet() && ctx.Followed(old(ctx.Now()))
      decreases |plan|, 0, 0
    {
      if plan == [] {
        return;
      }
      var next := plan[0];
      plan := plan[1..];
      for i := 0 to |next|
        invariant ctx.Quiet() && |plan| < |old(plan)| && ctx.Later(old(ctx.Now()))
      {
        ctx.Take(next[i]);
      }
    }
  }

  class TcpConnection {
    const kernel: Kernel
    var iovecList_: seq<Iovec>
    /** Whether write readiness is being waited for. */
    var writing_: bool
    var isClosed_: bool

    constructor (kernel: Kernel)
      ensures this.kernel == kernel && iovecList_ == [] && !writing_ && !isClosed_
    {
      this.kernel := kernel;
      iovecList_, writing_, isClosed_ := [], false, false;
    }

    method EnableWriting(enable: bool)
      modifies this`writing_
      ensures writing_ == enable
    {
      writing_ := enable;
    }

    method OnClose()
      modifies this`isClosed_
      ensures isClosed_
    {
      if !isClosed_ {
        isClosed_ := true;
      }
    }

    /** Some of the buffer has been written directly, and the rest of it waits. */
    twostate predicate WroteSome(buf: Buffer)
      requires |buf.data| < SIZE_RANGE / 2
      reads this, kernel, buf
    {
      var n := |kernel.wire| - |old(kernel.wire)|;
      0 <= n <= |buf.data| && kernel.wire == old(kernel.wire) + buf.data[..n] &&
      iovecList_ == Waiting(buf, |buf.data|, n)
    }

    /** Sends a buffer; `ctx` is what the write-complete callback leads to. With bytes waiting the buffer is
        queued behind them, whatever they are. */
    method SendInLoop(buf: Buffer, ctx: HttpContext)
      requires ctx.connection_ == this
      requires isClosed_ || iovecList_ == [] ==> ctx.Sending(buf.data) && buf in ctx.Pinned()
      modifies this, kernel, ctx, ctx.header_, ctx.handler_
      ensures old(ctx.Sending(buf.data) && buf in ctx.Pinned()) ==>
                ctx.Valid() && ctx.Followed(old(ctx.Now())) && (!old(ctx.postState_).Init? ==> ctx.HeaderFree())
      ensures !old(isClosed_) && old(iovecList_) != [] ==>
                iovecList_ == old(iovecList_) + Tail(buf, old(buf.data)) && !isClosed_ &&
                writing_ == (old(writing_) || buf.data != []) &&
                unchanged(kernel, ctx, ctx.header_, ctx.handler_)
      ensures old(ctx.postState_).Init? ==> unchanged(ctx, ctx.header_, ctx.handler_) && isClosed_ == old(isClosed_)
      ensures !old(isClosed_) && old(iovecList_) == [] ==> old(kernel.asked) < kernel.asked
      ensures old(isClosed_) ==> unchanged(this, kernel, ctx, ctx.header_, ctx.handler_)
      ensures !old(isClosed_) && old(iovecList_) == [] && old(ctx.postState_).Init? && |buf.data| < SIZE_RANGE / 2 ==>
                WroteSome(buf)
      decreases |ctx.handler_.plan|, Rank(ctx.postState_), 2
    {
      if isClosed_ {
        return;
      }
      if iovecList_ == [] {
        ghost var len := SendFirst(buf, ctx);
        if old(ctx.postState_).Init? && |buf.data| < SIZE_RANGE / 2 {
          WaitingRest(buf, |buf.data|, len);
        }
      } else {
        QueueRest(buf, 0, |buf.data|, ctx);
      }
    }

    /** With nothing waiting the buffer is written directly, and what is left of it is queued. */
    method SendFirst(buf: Buffer, ctx: HttpContext) returns (ghost written: nat)
      requires ctx.connection_ == this && !isClosed_ && iovecList_ == []
      requires ctx.Sending(buf.data) && buf in ctx.Pinned()
      modifies this, kernel, ctx, ctx.header_, ctx.handler_
      ensures ctx.Valid() && ctx.Followed(old(ctx.Now())) && (!old(ctx.postState_).Init? ==> ctx.HeaderFree())
      ensures old(ctx.postState_).Init? ==> unchanged(ctx, ctx.header_, ctx.handler_) && !isClosed_
      ensures old(kernel.asked) < kernel.asked
      ensures old(ctx.postState_).Init? ==>
                written <= |buf.data| && kernel.wire == old(kernel.wire) + buf.data[..written] &&
                iovecList_ == if written == |buf.data| then [] else [Iovec(buf, written, |buf.data| - written)]
      decreases |ctx.handler_.plan|, Rank(ctx.postState_), 1
    {
      var len := WriteDirectly(buf, ctx);
      var size := |buf.data| - len;
      written := len;
      if size == 0 {
        ctx.WriteComplete();
      } else {
        QueueRest(buf, len, size, ctx);
      }
    }

    method QueueRest(buf: Buffer, len: nat, size: nat, ctx: HttpContext)
      requires ctx.connection_ == this && !isClosed_ && len + size == |buf.data|
      requires iovecList_ == [] ==> size > 0
      modifies this`iovecList_, this`writing_
      ensures iovecList_ == old(iovecList_) + if size > 0 then [Iovec(buf, len, size)] else []
      ensures writing_ == (old(writing_) || size > 0)
      ensures old(ctx.Sending(buf.data[len..]) && buf in ctx.Pinned()) ==> ctx.Valid()
    {
      if size > 0 {
        assert ctx.Sending(buf.data[len..]) && buf in ctx.Pinned() ==>
                 Pointed(Iovec(buf, len, size), ctx.Memory()) == buf.data[len..];
        Push(Iovec(buf, len, size), ctx);
      }
    }

    method WriteDirectly(buf: Buffer, ctx: HttpContext) returns (len: nat)
      requires ctx.connection_ == this && !isClosed_ && iovecList_ == [] && ctx.Sending(buf.data)
      modifies kernel`wire, kernel`asked
      ensures len <= |buf.data| && ctx.Sending(buf.data[len..]) && kernel.wire == old(kernel.wire) + buf.data[..len]
      ensures kernel.asked == old(kernel.asked) + 1
    {
      ghost var wire := kernel.wire;
      len := kernel.Write(buf.data);
      WriteBalanced(wire, ctx.Memory(), ctx.Pinned(), buf.data, len, ctx.Unissued(), ctx.accepted);
    }

    method Push(v: Iovec, ctx: HttpContext)
      requires ctx.connection_ == this && !isClosed_
      modifies this`iovecList_, this`writing_
      ensures iovecList_ == old(iovecList_) + [v] && writing_
      ensures old(ctx.Sending(Pointed(v, ctx.Memory())) && v.buffer in ctx.Pinned() && InBounds(v, ctx.Memory())) ==>
                ctx.Valid()
    {
      if ctx.Sending(Pointed(v, ctx.Memory())) && v.buffer in ctx.Pinned() && InBounds(v, ctx.Memory()) {
        PushBalanced(kernel.wire, iovecList_, ctx.Memory(), ctx.Pinned(), v, ctx.Unissued(), ctx.accepted);
      }
      iovecList_ := iovecList_ + [v];
      EnableWriting(true);
    }

    /** The kernel is ready for more: writes until the queue is empty or the kernel takes no more. What was queued
        is then on the wire, unless the kernel refused a write or failed one. */
    method OnWrite(ctx: HttpContext)
      requires ctx.connection_ == this && ctx.Valid()
      modifies this, kernel, ctx, ctx.header_, ctx.handler_
      ensures !old(isClosed_) ==>
                old(kernel.wire) + old(Flat(iovecList_, ctx.Memory())) <= kernel.wire ||
                old(kernel.refused) < kernel.refused || kernel.broken
      ensures old(isClosed_) ==> unchanged(this, kernel, ctx, ctx.header_, ctx.handler_)
      ensures ctx.Valid() && ctx.Later(old(ctx.Now())) && (ctx.Followed(old(ctx.Now())) || kernel.broken)
      ensures old(ctx.HeaderFree()) ==> ctx.HeaderFree()
    {
      if isClosed_ {
        return;
      }
      ghost var wire, flat := kernel.wire, Flat(iovecList_, ctx.Memory());
      var empty := WriteQueue(ctx);
      if empty {
        Finish(ctx, wire, flat);
      }
    }

    /** Asks for writability no longer once the queue is empty. */
    method WriteQueue(ctx: HttpContext) returns (empty: bool)
      requires ctx.connection_ == this && ctx.Valid() && !isClosed_
      modifies this, kernel
      ensures ctx.Later(old(ctx.Now())) && (ctx.Followed(old(ctx.Now())) || kernel.broken)
      ensures if empty then ctx.Sending([]) && !isClosed_ && iovecList_ == []
              else ctx.Valid() && (old(kernel.refused) < kernel.refused || kernel.broken)
      ensures old(ctx.HeaderFree()) ==> ctx.HeaderFree()
    {
      empty := true;
      if iovecList_ != [] {
        empty := Drain(ctx);
      }
      if empty {
        EnableWriting(false);
      }
    }

    /** Everything given to the connection is on the wire. */
    method Finish(ctx: HttpContext, ghost wire: bytes, ghost flat: bytes)
      requires ctx.connection_ == this && ctx.Sending([]) && !isClosed_ && iovecList_ == []
      requires wire + flat + [] + ctx.Unissued() == ctx.accepted
      modifies this, kernel, ctx, ctx.header_, ctx.handler_
      ensures ctx.Quiet() && ctx.Followed(old(ctx.Now())) && wire + flat <= kernel.wire
    {
      ghost var wire', unissued, accepted := kernel.wire, ctx.Unissued(), ctx.accepted;
      ctx.WriteComplete();
      if !isClosed_ {
        WirePrefix(kernel.wire, iovecList_, ctx.Memory(), ctx.Pinned(), ctx.Unissued(), ctx.accepted);
      }
      AllWritten(wire, flat, unissued, accepted, wire', kernel.wire, ctx.accepted);
    }

    /** Open and with bytes waiting. */
    ghost predicate Draining(ctx: HttpContext)
      reads this, kernel, ctx, ctx.header_, ctx.outPakcet_, ctx.connection_, ctx.connection_.kernel
    {
      ctx.connection_ == this && !isClosed_ && writing_ && iovecList_ != [] && ctx.Accounted([]) && !kernel.broken
    }

    /** The loop of gathering writes, which goes on until the queue is empty or the kernel takes no more. */
    method Drain(ctx: HttpContext) returns (empty: bool)
      requires Draining(ctx)
      modifies this, kernel
      ensures empty ==> !isClosed_ && !kernel.broken && iovecList_ == [] && writing_ && ctx.Accounted([])
      ensures !empty ==> if kernel.broken then isClosed_ else old(kernel.refused) < kernel.refused && Draining(ctx)
      ensures old(kernel.Count()).UpTo(kernel.Count())
      ensures isClosed_ ==> kernel.broken && kernel.wire <= ctx.accepted
    {
      while true
        invariant Draining(ctx) && old(kernel.Count()).UpTo(kernel.Count())
        decreases Total(iovecList_)
      {
        var r := WriteOnce(ctx);
        if r.Wrote? {
          if iovecList_ == [] {
            return true;
          }
        } else {
          if r.Failed? {
            OnClose();
          }
          return false;
        }
      }
    }

    /** One gathering write of everything the queue points at, and the removal of what was written. */
    method WriteOnce(ctx: HttpContext) returns (r: WriteResult)
      requires Draining(ctx)
      modifies this`iovecList_, kernel
      ensures ctx.Accounted([]) && kernel.wire <= ctx.accepted
      ensures if r.Wrote? then Total(iovecList_) < Total(old(iovecList_)) else iovecList_ == old(iovecList_)
      ensures kernel.refused == old(kernel.refused) + (if r.Again? then 1 else 0) && kernel.broken == r.Failed?
      ensures old(kernel.Count()).UpTo(kernel.Count())
    {
      ghost var wire, q, m := kernel.wire, iovecList_, ctx.Memory();
      FlatLength(q, m);
      var data := Copied(m);
      r := kernel.Writev(data);
      if r.Wrote? {
        GatherBalanced(wire, q, m, ctx.Pinned(), r.n, ctx.Unissued(), ctx.accepted);
        Trim(r.n);
      }
      WirePrefix(kernel.wire, iovecList_, m, ctx.Pinned(), ctx.Unissued(), ctx.accepted);
    }

    /** What a gathering write reads. */
    method Copied(ghost m: Memory) returns (data: bytes)
      requires AllInBounds(iovecList_, m) && Reflects(m)
      ensures data == Flat(iovecList_, m)
    {
      data := [];
      assert iovecList_[0..] == iovecList_;
      for i := 0 to |iovecList_|
        invariant data + Flat(iovecList_[i..], m) == Flat(iovecList_, m)
      {
        FlatFront(iovecList_, i, data, m);
        var v := iovecList_[i];
        assert InBounds(v, m);
        var piece := v.buffer.data[v.off..v.off + v.len];
        assert piece == Pointed(v, m);
        data := data + piece;
      }
    }

    /** Removes what was written from the front of the queue. */
    method Trim(ret: nat)
      requires ret <= Total(iovecList_)
      modifies this`iovecList_
      ensures iovecList_ == Trimmed(old(iovecList_), ret)
    {
      var left: nat := ret;
      while left > 0
        invariant left <= Total(iovecList_) && Trimmed(iovecList_, left) == Trimmed(old(iovecList_), ret)
        decreases left, |iovecList_|
      {
        var front := iovecList_[0];
        if front.len > left {
          iovecList_ := [Iovec(front.buffer, front.off + left, front.len - left)] + iovecList_[1..];
          left := 0;
        } else {
          left := left - front.len;
          iovecList_ := iovecList_[1..];
        }
      }
    }
  }

  /** What can be seen of a context from outside. */
  datatype Mark = Mark(accepted: bytes, posts: nat, chunks: nat, headerSent: bool, plan: seq<seq<Action>>,
                       isClosed: bool, tally: Tally)

  class HttpContext {
    const connection_: TcpConnection
    const header_: Buffer
    const handler_: Handler
    var outPakcet_: Buffer?
    var postState_: PostState
    var headerSent_: bool
    /** The bytes accepted so far, as they were when they were accepted. */
    ghost var accepted: bytes
    /** Accepted requests, and accepted stream packets. */
    ghost var posts: nat
    ghost var chunks: nat

    constructor (connection: TcpConnection, handler: Handler)
      requires !connection.isClosed_ && connection.iovecList_ == [] && !connection.writing_
      requires connection.kernel.wire == [] && !connection.kernel.broken && handler.sent == handler.sentChunks == 0
      ensures connection_ == connection && handler_ == handler && fresh(header_)
      ensures (PlanSound() ==> Quiet()) && accepted == [] && posts == chunks == 0 && postState_.Init? && !headerSent_
    {
      connection_, handler_, outPakcet_, postState_, headerSent_ := connection, handler, null, Init, false;
      accepted, posts, chunks := [], 0, 0;
      header_ := new Buffer([]);
    }

    ghost function Queue(): seq<Iovec>
      reads connection_
    {
      connection_.iovecList_
    }

    ghost function Memory(): Memory
      reads this`outPakcet_, header_, outPakcet_
    {
      var m := With(map[], header_, header_.data);
      if outPakcet_ == null then m
      else var packet: Buffer := outPakcet_; With(m, packet, packet.data)
    }

    ghost function Packet(): set<Buffer>
      reads this`outPakcet_
    {
      if outPakcet_ == null then {} else {outPakcet_}
    }

    /** The buffers that pending pointers may point into. */
    ghost function Pinned(): set<Buffer>
      reads this`outPakcet_, this`postState_
    {
      match postState_
      case HttpBody => Packet()
      case HttpStreamChunk => {header_} + Packet()
      case _ => {header_}
    }

    /** Accepted, but not yet given to the connection. */
    ghost function Unissued(): bytes
      reads this`postState_, this`outPakcet_, outPakcet_
    {
      if postState_.HttpHeader? && outPakcet_ != null then outPakcet_.data else []
    }

    ghost predicate Accounted(data: bytes)
      reads this`accepted, this`postState_, this`outPakcet_, header_, outPakcet_, connection_, connection_.kernel
    {
      Balanced(connection_.kernel.wire, Queue(), Memory(), Pinned(), data, Unissued(), accepted)
    }

    /** What holds whether or not more is about to be sent: pending pointers stay within pinned buffers,
        and the wire, the queue, what is being sent and what is still to be sent make up what was
        accepted. A closed connection sends nothing more, and a failed write closes it. Every accepted
        request and stream packet has been reported exactly once, except the one in progress. */
    ghost predicate Sending(data: bytes)
      reads this`accepted, this`posts, this`chunks, this`postState_, this`outPakcet_, header_, outPakcet_, handler_
      reads connection_, connection_.kernel
    {
      PlanSound() && outPakcet_ != header_ && (postState_ in {HttpHeader, HttpBody} ==> outPakcet_ != null) &&
      posts == handler_.sent + (if postState_ in {Http, HttpHeader, HttpBody} then 1 else 0) &&
      chunks == handler_.sentChunks + (if postState_ in {HttpStreamHeader, HttpStreamChunk} then 1 else 0) &&
      (connection_.kernel.broken ==> connection_.isClosed_) &&
      if connection_.isClosed_ then connection_.kernel.wire <= accepted
      else Accounted(data) && connection_.writing_ == (Queue() != [])
    }

    /** Between events: nothing is being sent, and a post in progress has bytes waiting. */
    ghost predicate Valid()
      reads this`accepted, this`posts, this`chunks, this`postState_, this`outPakcet_, header_, outPakcet_, handler_
      reads connection_, connection_.kernel
    {
      Sending([]) && (!connection_.isClosed_ && !postState_.Init? ==> Queue() != [])
    }

    /** A post that is accepted now finds no pointer into the header string: before a post, pending
        pointers can only point there. */
    predicate HeaderFree()
      reads this`postState_, connection_
    {
      connection_.isClosed_ || !postState_.Init? || connection_.iovecList_ == []
    }

    ghost predicate Quiet()
      reads this`accepted, this`posts, this`chunks, this`postState_, this`outPakcet_, header_, outPakcet_, handler_
      reads connection_, connection_.kernel
    {
      Valid() && HeaderFree()
    }

    /** A post has been written out completely, and its completion is about to be reported. */
    ghost predicate Completed(request: bool)
      reads this`accepted, this`posts, this`chunks, this`postState_, this`outPakcet_, header_, outPakcet_, handler_
      reads connection_, connection_.kernel
    {
      !connection_.isClosed_ && Queue() == [] && !connection_.writing_ && postState_.Init? && outPakcet_ != header_ &&
      PlanSound() && !connection_.kernel.broken && connection_.kernel.wire == accepted &&
      posts == handler_.sent + (if request then 1 else 0) && chunks == handler_.sentChunks + (if request then 0 else 1)
    }

    ghost predicate PlanSound()
      reads handler_
    {
      forall i, j :: 0 <= i < |handler_.plan| && 0 <= j < |handler_.plan[i]| ==> ActionSound(handler_.plan[i][j])
    }

    predicate ActionSound(a: Action) {
      a.Make? ==> PostSound(a.post)
    }

    /** Packets are the caller's memory, not the context's. */
    predicate PostSound(p: Post) {
      match p
      case Whole(_) => true
      case Parted(_, packet) => packet != header_
      case StreamChunk(packet) => packet != header_
    }

    ghost function Now(): Mark
      reads this, handler_, connection_, connection_.kernel
    {
      Mark(accepted, posts, chunks, headerSent_, handler_.plan, connection_.isClosed_, connection_.kernel.Count())
    }

    /** What may have happened meanwhile: more was accepted, or the connection closed. */
    ghost predicate Later(m: Mark)
      reads this, handler_, connection_, connection_.kernel
    {
      m.tally.UpTo(connection_.kernel.Count()) &&
      m.accepted <= accepted && m.posts <= posts && m.chunks <= chunks && (m.headerSent ==> headerSent_) &&
      |handler_.plan| <= |m.plan| && (m.isClosed ==> connection_.isClosed_)
    }

    /** The same, but nothing of the kind if the handler had nothing planned. */
    ghost predicate Followed(m: Mark)
      reads this, handler_, connection_, connection_.kernel
    {
      Later(m) &&
      (m.plan == [] ==> accepted == m.accepted && posts == m.posts && chunks == m.chunks &&
                        connection_.isClosed_ == m.isClosed)
    }

    /** The connection has written everything it was given. */
    method WriteComplete()
      requires Sending([]) && !connection_.isClosed_ && Queue() == []
      modifies this, header_, handler_, connection_, connection_.kernel
      ensures Quiet() && Followed(old(Now()))
      ensures old(postState_).Init? ==> unchanged(this, header_, handler_, connection_, connection_.kernel)
      decreases |handler_.plan|, Rank(postState_), 0
    {
      match postState_ {
        case Init =>
        case Http =>
          postState_ := Init;
          handler_.OnSent(this);
        case HttpHeader =>
          postState_ := HttpBody;
          connection_.SendInLoop(outPakcet_, this);
        case HttpBody =>
          postState_ := Init;
          handler_.OnSent(this);
        case HttpStreamHeader =>
          postState_ := Init;
          handler_.OnSentNextChunk(this);
        case HttpStreamChunk =>
          postState_ := Init;
          handler_.OnSentNextChunk(this);
      }
    }

    /** The text has gone behind bytes of the header string that were still waiting, and has overwritten
        them. */
    twostate predicate Overwrote(text: bytes)
      reads this, header_, outPakcet_, handler_, connection_, connection_.kernel
    {
      header_.data == text && Queue() == old(Queue()) + Tail(header_, text) && connection_.writing_ &&
      unchanged(connection_.kernel) && unchanged(handler_) && !connection_.isClosed_ &&
      (Accounted([]) <==> Flat(old(Queue()), Memory()) == old(Flat(Queue(), Memory())))
    }

    /** Nothing guards the header string of a stream that is still being sent. */
    method PostRequest(text: bytes) returns (ok: bool)
      requires Valid()
      modifies this, header_, handler_, connection_, connection_.kernel
      ensures ok == old(postState_).Init?
      ensures !ok ==> unchanged(this, header_, handler_, connection_, connection_.kernel)
      ensures ok && !old(connection_.isClosed_) && old(Queue()) == [] ==>
                old(connection_.kernel.asked) < connection_.kernel.asked
      ensures old(HeaderFree()) ==>
                Quiet() &&
                (ok ==> Followed(old(Now()).(accepted := old(accepted) + text, posts := old(posts) + 1)))
      ensures !old(HeaderFree()) ==>
                Overwrote(text) && accepted == old(accepted) + text && posts == old(posts) + 1 && postState_.Http?
      decreases |handler_.plan|, 3, 0
    {
      if postState_ != Init {
        return false;
      }
      AcceptRequest(text);
      connection_.SendInLoop(header_, this);
      return true;
    }

    /** The request is in progress, and its text to be sent from the header string. */
    method AcceptRequest(text: bytes)
      requires Valid() && postState_.Init?
      modifies this`postState_, this`accepted, this`posts, this`chunks, header_
      ensures header_.data == text && postState_.Http? && accepted == old(accepted) + text
      ensures posts == old(posts) + 1 && chunks == old(chunks)
      ensures old(HeaderFree()) ==> Sending(text) && header_ in Pinned()
      ensures !old(HeaderFree()) ==>
                (Balanced(connection_.kernel.wire, Queue() + Tail(header_, text), Memory(), {header_}, [], [],
                          accepted) <==>
                 Flat(Queue(), Memory()) == old(Flat(Queue(), Memory())))
    {
      ghost var m, bufs, free := Memory(), Pinned(), HeaderFree();
      header_.data := text;
      postState_ := Http;
      if free {
        Admit(m, bufs, text, []);
      } else {
        OverwriteBalancedIff(connection_.kernel.wire, Queue(), m, Memory(), header_, text, [], accepted);
        accepted, posts := accepted + text + [], posts + 1;
      }
    }

    method PostParted(header: bytes, packet: Buffer) returns (ok: bool)
      requires Valid() && packet != header_
      modifies this, header_, handler_, connection_, connection_.kernel
      ensures ok == old(postState_).Init?
      ensures !ok ==> unchanged(this, header_, handler_, connection_, connection_.kernel)
      ensures ok && !old(connection_.isClosed_) && old(Queue()) == [] ==>
                old(connection_.kernel.asked) < connection_.kernel.asked
      ensures old(HeaderFree()) ==>
                Quiet() &&
                (ok ==>
                  Followed(old(Now()).(accepted := old(accepted) + header + packet.data, posts := old(posts) + 1)))
      ensures !old(HeaderFree()) ==>
                Overwrote(header) && accepted == old(accepted) + header + packet.data && posts == old(posts) + 1 &&
                postState_.HttpHeader? && outPakcet_ == packet
      decreases |handler_.plan|, 3, 0
    {
      if postState_ != Init {
        return false;
      }
      ghost var m, bufs, free := Memory(), Pinned(), HeaderFree();
      header_.data := header;
      outPakcet_ := packet;
      postState_ := HttpHeader;
      if free {
        Admit(m, bufs, header, packet.data);
      } else {
        OverwriteBalancedIff(connection_.kernel.wire, Queue(), m, Memory(), header_, header, packet.data, accepted);
        accepted, posts := accepted + header + packet.data, posts + 1;
      }
      connection_.SendInLoop(header_, this);
      return true;
    }

    /** The state stays Init: nothing guards the header string while it is being sent. */
    method PostStreamHeader(header: bytes) returns (ok: bool)
      requires Valid()
      modifies this, header_, handler_, connection_, connection_.kernel
      ensures ok == old(postState_).Init?
      ensures !ok ==> unchanged(this, header_, handler_, connection_, connection_.kernel)
      ensures ok && !old(connection_.isClosed_) && old(Queue()) == [] ==>
                old(connection_.kernel.asked) < connection_.kernel.asked
      ensures ok ==> headerSent_ && header_.data == header && postState_.Init? && accepted == old(accepted) + header
      ensures ok ==> posts == old(posts) && chunks == old(chunks)
      ensures ok && old(HeaderFree()) && !old(connection_.isClosed_) && |header| < SIZE_RANGE / 2 ==>
                !connection_.isClosed_ && connection_.WroteSome(header_)
      ensures old(HeaderFree()) ==>
                Valid() && (ok ==> Followed(old(Now()).(accepted := old(accepted) + header)))
      ensures !old(HeaderFree()) ==> Overwrote(header)
    {
      if postState_ != Init {
        return false;
      }
      SendUnguarded(header);
      headerSent_ := true;
      return true;
    }

    method SendUnguarded(header: bytes)
      requires Valid() && postState_.Init?
      modifies this, header_, handler_, connection_, connection_.kernel
      ensures !old(connection_.isClosed_) && old(Queue()) == [] ==>
                old(connection_.kernel.asked) < connection_.kernel.asked
      ensures header_.data == header && postState_.Init? && accepted == old(accepted) + header
      ensures posts == old(posts) && chunks == old(chunks)
      ensures old(HeaderFree()) && !old(connection_.isClosed_) && |header| < SIZE_RANGE / 2 ==>
                !connection_.isClosed_ && connection_.WroteSome(header_)
      ensures old(HeaderFree()) ==> Valid() && Followed(old(Now()).(accepted := old(accepted) + header))
      ensures !old(HeaderFree()) ==>
                Overwrote(header)
    {
      Overwrite(header);
      connection_.SendInLoop(header_, this);
    }

    /** The header string is to be sent as it is now. */
    method Overwrite(header: bytes)
      requires Valid() && postState_.Init?
      modifies this`postState_, this`accepted, header_
      ensures header_.data == header && postState_.Init? && accepted == old(accepted) + header
      ensures old(HeaderFree()) ==> Sending(header) && header_ in Pinned()
      ensures !old(HeaderFree()) ==>
                (Balanced(connection_.kernel.wire, Queue() + Tail(header_, header), Memory(), {header_}, [], [],
                          accepted) <==>
                 Flat(Queue(), Memory()) == old(Flat(Queue(), Memory())))
    {
      ghost var m, bufs := Memory(), Pinned();
      ghost var free := HeaderFree();
      header_.data := header;
      postState_ := Init;
      if !free {
        OverwriteBalancedIff(connection_.kernel.wire, Queue(), m, Memory(), header_, header, [], accepted);
        assert accepted + header + [] == accepted + header;
      } else if !connection_.isClosed_ {
        AdmitBalanced(connection_.kernel.wire, Queue(), m, Memory(), bufs, Pinned(), header, [], accepted);
      }
      accepted := accepted + header + [];
    }

    /** Between posts on an open connection, the header string may be overwritten with anything, as every post
        but a stream packet does, if and only if nothing is pending. */
    lemma PostSafeIff()
      requires Valid() && postState_.Init? && !connection_.isClosed_
      ensures (forall text: bytes :: Flat(Queue(), With(Memory(), header_, text)) == Flat(Queue(), Memory())) <==>
              HeaderFree()
    {
      OverwriteSafeIff(Queue(), Memory(), header_);
      assert Queue() != [] ==> Queue()[0].buffer in Pinned();
    }

    /** With the header sent, the packet is sent; without it, only the header string is. */
    method PostStreamChunk(packet: Buffer) returns (ok: bool)
      requires Valid() && packet != header_
      modifies this, header_, handler_, connection_, connection_.kernel
      ensures Quiet() && ok == old(postState_).Init?
      ensures !ok ==> unchanged(this, header_, handler_, connection_, connection_.kernel)
      ensures ok && !old(connection_.isClosed_) && old(Queue()) == [] ==>
                old(connection_.kernel.asked) < connection_.kernel.asked
      ensures ok ==>
                var text := if old(headerSent_) then packet.data else old(header_.data);
                Followed(old(Now()).(accepted := old(accepted) + text, chunks := old(chunks) + 1)) && headerSent_
      decreases |handler_.plan|, 3, 0
    {
      if postState_ == Init {
        if !headerSent_ {
          SendStreamHeader(packet);
        } else {
          SendStreamPacket(packet);
        }
        return true;
      }
      return false;
    }

    method SendStreamHeader(packet: Buffer)
      requires Valid() && packet != header_ && postState_.Init?
      modifies this, header_, handler_, connection_, connection_.kernel
      ensures !old(connection_.isClosed_) && old(Queue()) == [] ==>
                old(connection_.kernel.asked) < connection_.kernel.asked
      ensures Quiet() && headerSent_
      ensures Followed(old(Now()).(accepted := old(accepted) + old(header_.data), chunks := old(chunks) + 1))
      decreases |handler_.plan|, 2, 3
    {
      SendHeaderAgain(packet);
      headerSent_ := true;
    }

    method SendHeaderAgain(packet: Buffer)
      requires Valid() && packet != header_ && postState_.Init?
      modifies this, header_, handler_, connection_, connection_.kernel
      ensures !old(connection_.isClosed_) && old(Queue()) == [] ==>
                old(connection_.kernel.asked) < connection_.kernel.asked
      ensures Quiet()
      ensures Followed(old(Now()).(accepted := old(accepted) + old(header_.data), chunks := old(chunks) + 1))
      decreases |handler_.plan|, 2, 2
    {
      ghost var m, bufs := Memory(), Pinned();
      outPakcet_ := packet;
      postState_ := HttpStreamHeader;
      Admit(m, bufs, header_.data, []);
      connection_.SendInLoop(header_, this);
    }

    method SendStreamPacket(packet: Buffer)
      requires Valid() && packet != header_ && postState_.Init?
      modifies this, header_, handler_, connection_, connection_.kernel
      ensures !old(connection_.isClosed_) && old(Queue()) == [] ==>
                old(connection_.kernel.asked) < connection_.kernel.asked
      ensures Quiet() && Followed(old(Now()).(accepted := old(accepted) + packet.data, chunks := old(chunks) + 1))
      decreases |handler_.plan|, 2, 2
    {
      ghost var m, bufs := Memory(), Pinned();
      outPakcet_ := packet;
      postState_ := HttpStreamChunk;
      Admit(m, bufs, packet.data, []);
      connection_.SendInLoop(packet, this);
    }

    /** Counts a post as accepted. */
    ghost method Admit(m: Memory, bufs: set<Buffer>, data: bytes, later: bytes)
      requires PlanSound() && outPakcet_ != header_ && !postState_.Init? && !postState_.HttpBody?
      requires posts == handler_.sent && chunks == handler_.sentChunks
      requires connection_.kernel.broken ==> connection_.isClosed_
      requires Unissued() == later && (postState_.HttpHeader? ==> outPakcet_ != null)
      requires if connection_.isClosed_ then connection_.kernel.wire <= accepted
               else Balanced(connection_.kernel.wire, Queue(), m, bufs, [], [], accepted) &&
                    connection_.writing_ == (Queue() != [])
      requires !connection_.isClosed_ && Queue() != [] ==>
                 bufs == {header_} <= Pinned() && header_ in m && m[header_] == header_.data
      modifies this`accepted, this`posts, this`chunks
      ensures Sending(data) && accepted == old(accepted) + data + later
      ensures posts == old(posts) + (if postState_ in {Http, HttpHeader} then 1 else 0)
      ensures chunks == old(chunks) + (if postState_ in {Http, HttpHeader} then 0 else 1)
    {
      if !connection_.isClosed_ {
        AdmitBalanced(connection_.kernel.wire, Queue(), m, Memory(), bufs, Pinned(), data, later, accepted);
      }
      accepted := accepted + data + later;
      if postState_ in {Http, HttpHeader} {
        posts := posts + 1;
      } else {
        chunks := chunks + 1;
      }
    }

    /** Posts that overwrite the header string. */
    predicate Guarded(a: Action) {
      a.Make? && !a.post.StreamChunk?
    }

    /** What a post adds to what the wire must show, when it is accepted. */
    function Offered(p: Post): bytes
      reads this`headerSent_, header_, if p.Whole? then {} else {p.packet}
    {
      match p
      case Whole(text) => text
      case Parted(header, packet) => header + packet.data
      case StreamChunk(packet) => if headerSent_ then packet.data else header_.data
    }

    /** What a handler does from a completion. */
    method Take(a: Action)
      requires Valid() && ActionSound(a) && (Guarded(a) ==> HeaderFree())
      modifies this, header_, handler_, connection_, connection_.kernel
      ensures Quiet() && Later(old(Now()))
      ensures a.Close? ==> connection_.isClosed_
      ensures a.Make? && old(postState_).Init? ==> old(accepted) + old(Offered(a.post)) <= accepted
      decreases |handler_.plan|, 3, 1
    {
      match a {
        case Make(Whole(text)) => var _ := PostRequest(text);
        case Make(Parted(header, packet)) => var _ := PostParted(header, packet);
        case Make(StreamChunk(packet)) => var _ := PostStreamChunk(packet);
        case Close => Hangup();
      }
    }

    method Hangup()
      requires Valid()
      modifies connection_`isClosed_
      ensures Quiet() && connection_.isClosed_
    {
      if !connection_.isClosed_ {
        WirePrefix(connection_.kernel.wire, Queue(), Memory(), Pinned(), Unissued(), accepted);
      }
      connection_.OnClose();
    }
  }

  /** What may happen to a context from outside. */
  datatype Event = Act(action: Action) | StreamHeader(header: bytes) | Writable

  /** Any run of posts of every kind, write-readiness events and closings, over a kernel that may write as
      little as it likes. Posts that overwrite the header string are made only while nothing waits behind a
      stream header, which the application can see. What is on the wire is then always a prefix of what was
      accepted; and when nothing is pending it is all of it, and every accepted request and stream packet has
      completed exactly once. A run that begins with a post that is made has accepted its bytes, and one that begins
      with a readiness event has written what was queued, unless a gathering write was refused or failed. */
  method Run(ctx: HttpContext, events: seq<Event>)
    requires ctx.Valid() && forall i :: 0 <= i < |events| && events[i].Act? ==> ctx.ActionSound(events[i].action)
    modifies ctx, ctx.header_, ctx.handler_, ctx.connection_, ctx.connection_.kernel
    ensures ctx.Valid() && old(ctx.accepted) <= ctx.accepted && ctx.connection_.kernel.wire <= ctx.accepted
    ensures !ctx.connection_.isClosed_ && ctx.Queue() == [] ==>
              ctx.connection_.kernel.wire == ctx.accepted && ctx.postState_.Init? && !ctx.connection_.writing_ &&
              ctx.posts == ctx.handler_.sent && ctx.chunks == ctx.handler_.sentChunks
    ensures events != [] && old(Welcome(ctx, events[0])) ==>
              old(ctx.accepted) + old(Offer(ctx, events[0])) <= ctx.accepted
    ensures events != [] && events[0].Writable? && !old(ctx.connection_.isClosed_) ==>
              old(ctx.connection_.kernel.wire) + old(Flat(ctx.Queue(), ctx.Memory())) <= ctx.connection_.kernel.wire ||
              old(ctx.connection_.kernel.refused) < ctx.connection_.kernel.refused || ctx.connection_.kernel.broken
  {
    ghost var due: bytes := [];
    if !ctx.connection_.isClosed_ {
      due := ctx.connection_.kernel.wire + Flat(ctx.Queue(), ctx.Memory());
      Prefixes(due, ctx.Unissued(), ctx.accepted);
    }
    if events != [] {
      Step(ctx, events[0]);
      Steps(ctx, events[1..]);
    }
    WireAccepted(ctx);
    if |due| <= |ctx.connection_.kernel.wire| {
      SamePrefix(due, ctx.connection_.kernel.wire, ctx.accepted);
    }
  }

  lemma Prefixes(due: bytes, unissued: bytes, accepted: bytes)
    requires due + [] + unissued == accepted
    ensures due <= accepted
  {
  }

  lemma SamePrefix(a: bytes, b: bytes, whole: bytes)
    requires a <= whole && b <= whole && |a| <= |b|
    ensures a <= b
  {
  }

  lemma WireAccepted(ctx: HttpContext)
    requires ctx.Valid()
    ensures ctx.connection_.kernel.wire <= ctx.accepted
    ensures !ctx.connection_.isClosed_ && ctx.Queue() == [] ==> ctx.connection_.kernel.wire == ctx.accepted
  {
    if !ctx.connection_.isClosed_ {
      WirePrefix(ctx.connection_.kernel.wire, ctx.Queue(), ctx.Memory(), ctx.Pinned(), ctx.Unissued(), ctx.accepted);
    }
  }

  method Steps(ctx: HttpContext, events: seq<Event>)
    requires ctx.Valid() && forall i :: 0 <= i < |events| && events[i].Act? ==> ctx.ActionSound(events[i].action)
    modifies ctx, ctx.header_, ctx.handler_, ctx.connection_, ctx.connection_.kernel
    ensures ctx.Valid() && ctx.Later(old(ctx.Now()))
  {
    for i := 0 to |events|
      invariant ctx.Valid() && ctx.Later(old(ctx.Now()))
    {
      Step(ctx, events[i]);
    }
  }

  /** A post that is made and accepted. */
  predicate Welcome(ctx: HttpContext, e: Event)
    reads ctx, ctx.connection_
  {
    match e
    case Act(Make(post)) => ctx.postState_.Init? && (post.StreamChunk? || ctx.HeaderFree())
    case StreamHeader(_) => ctx.postState_.Init? && ctx.HeaderFree()
    case _ => false
  }

  function Offer(ctx: HttpContext, e: Event): bytes
    reads ctx, ctx.header_, if e.Act? && e.action.Make? && !e.action.post.Whole? then {e.action.post.packet} else {}
  {
    match e
    case Act(Make(post)) => ctx.Offered(post)
    case StreamHeader(header) => header
    case _ => []
  }

  /** One event of a run. */
  method Step(ctx: HttpContext, e: Event)
    requires ctx.Valid() && (e.Act? ==> ctx.ActionSound(e.action))
    modifies ctx, ctx.header_, ctx.handler_, ctx.connection_, ctx.connection_.kernel
    ensures ctx.Valid() && ctx.Later(old(ctx.Now()))
    ensures old(Welcome(ctx, e)) ==> old(ctx.accepted) + old(Offer(ctx, e)) <= ctx.accepted
    ensures e == Act(Close) ==> ctx.connection_.isClosed_
    ensures e.Writable? && !old(ctx.connection_.isClosed_) ==>
              old(ctx.connection_.kernel.wire) + old(Flat(ctx.Queue(), ctx.Memory())) <= ctx.connection_.kernel.wire ||
              old(ctx.connection_.kernel.refused) < ctx.connection_.kernel.refused || ctx.connection_.kernel.broken
  {
    match e {
      case Act(a) =>
        if !ctx.Guarded(a) || ctx.HeaderFree() {
          ctx.Take(a);
        }
      case StreamHeader(header) =>
        if ctx.HeaderFree() {
          var _ := ctx.PostStreamHeader(header);
        }
      case Writable => ctx.connection_.OnWrite(ctx);
    }
  }

  lemma {:induction false} OnePending(v: Iovec, m: Memory, m': Memory)
    requires InBounds(v, m) && v.buffer in m'
    ensures var end := v.off + v.len;
            Flat([v], m') == Flat([v], m) <==>
            end <= |m'[v.buffer]| && m'[v.buffer][v.off..end] == m[v.buffer][v.off..end]
  {
    assert [v] == [v] + [] && Pointed(v, m) + [] == Pointed(v, m) && Pointed(v, m') + [] == Pointed(v, m');
    FlatCons(v, [], m);
    FlatCons(v, [], m');
    assert |Pointed(v, m)| == v.len;
    assert InBounds(v, m') <==> v.off + v.len <= |m'[v.buffer]|;
  }

  /** A stream header followed at once by a post, without the guard. If only `written` bytes of the header could
      be written, the rest of it still reaches the wire if and only if the text happens to hold the same bytes
      at the same place: of "ab" with one byte written and then "cd", the "b" is lost. */
  method StreamHeaderThenPost(ctx: HttpContext, header: bytes, text: bytes) returns (ghost written: nat)
    requires ctx.Quiet() && ctx.postState_.Init? && !ctx.connection_.isClosed_ && |header| < SIZE_RANGE / 2
    modifies ctx, ctx.header_, ctx.handler_, ctx.connection_, ctx.connection_.kernel
    ensures written <= |header|
    ensures written < |header| ==>
              ctx.connection_.kernel.wire == old(ctx.connection_.kernel.wire) + header[..written] &&
              ctx.Queue() == [Iovec(ctx.header_, written, |header| - written)] + Tail(ctx.header_, text) &&
              ctx.header_.data == text && ctx.accepted == old(ctx.accepted) + header + text &&
              (ctx.Accounted([]) <==> |header| <= |text| && text[written..|header|] == header[written..|header|])
  {
    written := PostedHeader(ctx, header);
    ghost var m, v := ctx.Memory(), Iovec(ctx.header_, written, |header| - written);
    var _ := ctx.PostRequest(text);
    if written < |header| {
      OnePending(v, m, ctx.Memory());
    }
  }

  method PostedHeader(ctx: HttpContext, header: bytes) returns (ghost written: nat)
    requires ctx.Quiet() && ctx.postState_.Init? && !ctx.connection_.isClosed_ && |header| < SIZE_RANGE / 2
    modifies ctx, ctx.header_, ctx.handler_, ctx.connection_, ctx.connection_.kernel
    ensures ctx.Valid() && ctx.postState_.Init? && !ctx.connection_.isClosed_ && written <= |header|
    ensures ctx.header_.data == header && ctx.accepted == old(ctx.accepted) + header
    ensures ctx.connection_.kernel.wire == old(ctx.connection_.kernel.wire) + header[..written]
    ensures written < |header| ==>
              !ctx.HeaderFree() && ctx.Queue() == [Iovec(ctx.header_, written, |header| - written)] &&
              InBounds(ctx.Queue()[0], ctx.Memory()) && ctx.Memory()[ctx.header_] == header
  {
    ghost var wire := ctx.connection_.kernel.wire;
    var _ := ctx.PostStreamHeader(header);
    written := |ctx.connection_.kernel.wire| - |wire|;
    WaitingRest(ctx.header_, |header|, written);
  }
}
