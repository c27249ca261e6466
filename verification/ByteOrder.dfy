/** Integers on a little-endian host and in network order. */
module ByteOrder {
  import opened Bytes

  function Power256(w: nat): (r: nat)
    ensures r > 0
  {
    if w == 0 then 1 else 256 * Power256(w - 1)
  }

  /** How the host keeps an integer of `w` bytes in memory. */
  function HostBytes(n: nat, w: nat): (r: bytes)
    ensures |r| == w
  {
    if w == 0 then [] else [(n % 256) as char] + HostBytes(n / 256, w - 1)
  }

  function HostValue(s: bytes): nat {
    if s == [] then 0 else s[0] as int + 256 * HostValue(s[1..])
  }

  function Reversed(s: bytes): (r: bytes)
    ensures |r| == |s|
  {
    if s == [] then [] else Reversed(s[1..]) + [s[0]]
  }

  /** Converting to or from network order reverses the bytes in memory. */
  function Swapped(n: nat, w: nat): nat {
    HostValue(Reversed(HostBytes(n, w)))
  }

  /** The bytes of an integer in network order, most significant first. */
  function NetworkBytes(n: nat, w: nat): (r: bytes)
    ensures |r| == w
  {
    if w == 0 then [] else NetworkBytes(n / 256, w - 1) + [(n % 256) as char]
  }

  /** In network order the most significant byte comes first. */
  lemma {:induction false} NetworkByteAt(n: nat, w: nat, i: nat)
    requires i < w
    ensures NetworkBytes(n, w)[i] as int == n / Power256(w - 1 - i) % 256
  {
    if i < w - 1 {
      NetworkByteAt(n / 256, w - 1, i);
      DivideTwice(n, Power256(w - 2 - i));
    }
  }

  lemma DivideTwice(n: nat, d: nat)
    requires d > 0
    ensures n / 256 / d == n / (256 * d)
  {
    var h, b := n / 256, n % 256;
    var q, r := h / d, h % d;
    Associates(d, q);
    assert n == 256 * (d * q + r) + b;
    Quotient(256 * d, q, 256 * r + b);
  }

  lemma Associates(d: nat, q: nat)
    ensures 256 * (d * q) == 256 * d * q
  {
  }

  lemma Quotient(d: nat, q: nat, r: nat)
    requires r < d
    ensures (d * q + r) / d == q
  {
    var p := (d * q + r) / d;
    assert d * p <= d * q + r < d * p + d;
    if p < q {
      Multiples(d, p, q);
    } else if q < p {
      Multiples(d, q, p);
    }
  }

  lemma {:induction false} Multiples(d: nat, p: nat, q: nat)
    requires p < q
    ensures d * p + d <= d * q
  {
    if p < q - 1 {
      Multiples(d, p, q - 1);
    }
    assert d * q == d * (q - 1) + d;
  }

  function NetworkValue(s: bytes): nat {
    if s == [] then 0 else NetworkValue(s[..|s| - 1]) * 256 + s[|s| - 1] as int
  }

  lemma {:induction false} HostRoundTrip(s: bytes)
    ensures HostBytes(HostValue(s), |s|) == s
  {
    if s != [] {
      HostRoundTrip(s[1..]);
      LowByte(s[0] as int, HostValue(s[1..]));
    }
  }

  lemma LowByte(b: nat, v: nat)
    requires b < 256
    ensures (b + 256 * v) % 256 == b && (b + 256 * v) / 256 == v
  {
  }

  lemma {:induction false} ReversedHostBytes(n: nat, w: nat)
    ensures Reversed(HostBytes(n, w)) == NetworkBytes(n, w)
  {
    if w > 0 {
      ReversedHostBytes(n / 256, w - 1);
      assert HostBytes(n, w)[1..] == HostBytes(n / 256, w - 1);
    }
  }

  /** What the program writes, the memory image of the swapped integer, is its network form. */
  lemma SwappedIsNetwork(n: nat, w: nat)
    ensures HostBytes(Swapped(n, w), w) == NetworkBytes(n, w)
  {
    HostRoundTrip(Reversed(HostBytes(n, w)));
    ReversedHostBytes(n, w);
  }

  lemma {:induction false} HostOfReversed(s: bytes)
    ensures HostValue(Reversed(s)) == NetworkValue(s)
  {
    if s != [] {
      var t := s[..|s| - 1];
      HostOfReversed(t);
      ReversedLast(s);
    }
  }

  lemma {:induction false} ReversedLast(s: bytes)
    requires s != []
    ensures Reversed(s) == [s[|s| - 1]] + Reversed(s[..|s| - 1])
  {
    if |s| > 1 {
      ReversedLast(s[1..]);
      assert s[1..][..|s| - 2] == s[..|s| - 1][1..];
      assert s[1..][|s| - 2] == s[|s| - 1];
    }
  }

  /** What the program reads, the swapped value of the memory image, is the network value. */
  lemma ReadsNetwork(s: bytes)
    ensures Swapped(HostValue(s), |s|) == NetworkValue(s)
  {
    HostRoundTrip(s);
    HostOfReversed(s);
  }

  /** An integer that fits is read back as it was written. */
  lemma {:induction false} NetworkRoundTrip(n: nat, w: nat)
    requires n < Power256(w)
    ensures NetworkValue(NetworkBytes(n, w)) == n
  {
    if w > 0 {
      NetworkRoundTrip(n / 256, w - 1);
      var s := NetworkBytes(n, w);
      assert s[..|s| - 1] == NetworkBytes(n / 256, w - 1);
    }
  }
}
