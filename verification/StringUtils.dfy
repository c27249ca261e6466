/** The two string splitters: one searches for the delimiter, the other runs a two-state machine. */
module StringUtils {
  import opened Bytes

  /** The pieces of `s` between occurrences of `d`; what follows the last one counts only when it
      is not empty. */
  ghost function Split(s: bytes, d: bytes): seq<bytes> {
    if d == [] then []
    else match Find(s, d)
    case None => if s == [] then [] else [s]
    case Some(n) => [s[..n]] + Split(s[n + |d|..], d)
  }

  function Join(pieces: seq<bytes>, d: bytes): bytes {
    if pieces == [] then [] else if |pieces| == 1 then pieces[0]
    else pieces[0] + d + Join(pieces[1..], d)
  }

  /** Each piece followed by the delimiter. */
  function Terminated(pieces: seq<bytes>, d: bytes): bytes {
    if pieces == [] then [] else pieces[0] + d + Terminated(pieces[1..], d)
  }

  lemma {:induction false} TerminatedSnoc(pieces: seq<bytes>, last: bytes, d: bytes)
    ensures Terminated(pieces + [last], d) == Terminated(pieces, d) + last + d
  {
    if pieces != [] {
      TerminatedSnoc(pieces[1..], last, d);
      assert (pieces + [last])[1..] == pieces[1..] + [last];
    }
  }

  lemma SplitFound(t: bytes, d: bytes, n: nat)
    requires d != [] && Find(t, d) == Some(n)
    ensures Split(t, d) == [t[..n]] + Split(t[n + |d|..], d)
  {
  }

  /** One more delimiter found splits off one more piece. */
  lemma SplitPiece(s: bytes, d: bytes, last: nat, n: nat, t: bytes, rest: bytes)
    requires last <= n <= n + |d| <= |s| && d != [] && t == s[last..] && rest == s[n + |d|..]
    requires Find(t, d) == Some(n - last)
    ensures Split(t, d) == [s[last..n]] + Split(rest, d)
  {
    Slices(s, last, n, n + |d|);
    SplitFound(t, d, n - last);
  }

  lemma Slices(s: bytes, last: nat, n: nat, m: nat)
    requires last <= n <= m <= |s|
    ensures s[last..][..n - last] == s[last..n]
    ensures s[last..][m - last..] == s[m..]
  {
  }

  lemma SplitRest(s: bytes, d: bytes, last: nat)
    requires last <= |s| && d != [] && Find(s[last..], d).None?
    ensures Split(s[last..], d) == if last < |s| then [s[last..]] else []
  {
  }

  lemma Shift<T>(a: seq<T>, x: T, b: seq<T>)
    ensures a + ([x] + b) == (a + [x]) + b
  {
  }

  lemma SplitStep(s: bytes, d: bytes, last: nat, n: nat, result: seq<bytes>)
    requires last <= |s| && d != [] && Shifted(Find(s[last..], d), last) == Some(n)
    ensures result + Split(s[last..], d) == result + [s[last..n]] + Split(s[n + |d|..], d)
  {
    SplitPiece(s, d, last, n, s[last..], s[n + |d|..]);
    Shift(result, s[last..n], Split(s[n + |d|..], d));
  }

  method Emplace(result: seq<bytes>, s: bytes, last: nat, next: nat) returns (r: seq<bytes>)
    requires last <= next <= |s|
    ensures r == result + [s[last..next]]
  {
    if next > last {
      r := result + [s[last..next]];
    } else {
      assert s[last..next] == [];
      r := result + [[]];
    }
  }

  method SplitString(s: bytes, delimiter: bytes) returns (result: seq<bytes>)
    ensures result == Split(s, delimiter)
  {
    if delimiter == [] {
      return [];
    }
    result := [];
    var last := 0;
    var next := Seek(s, delimiter, last);
    assert s[0..] == s;
    while next.Some?
      invariant last <= |s| && next == Shifted(Find(s[last..], delimiter), last)
      invariant result + Split(s[last..], delimiter) == Split(s, delimiter)
      decreases |s| - last
    {
      SplitStep(s, delimiter, last, next.value, result);
      result := Emplace(result, s, last, next.value);
      last := next.value + |delimiter|;
      next := Seek(s, delimiter, last);
    }
    SplitRest(s, delimiter, last);
    if last < |s| {
      result := result + [s[last..]];
    } else {
      assert result + [] == result;
    }
  }

  datatype FsmState = Normal | Delimiter

  method SplitStringWithFSM(s: bytes, delimiter: byte) returns (result: seq<bytes>)
    ensures result == Split(s, [delimiter])
  {
    result := [];
    var state, tmp: bytes, pos := Normal, [], 0;
    assert tmp + s[0..] == s;
    while pos < |s|
      invariant pos <= |s| && delimiter !in tmp
      invariant state.Delimiter? ==> pos < |s| && s[pos] == delimiter
      invariant result + Split(tmp + s[pos..], [delimiter]) == Split(s, [delimiter])
      decreases |s| - pos, if state.Normal? then 1 else 0
    {
      if state.Normal? {
        if s[pos] == delimiter {
          state := Delimiter;
          continue;
        }
        Step(tmp, s, pos);
        tmp := tmp + [s[pos]];
        pos := pos + 1;
      } else {
        FsmPiece(s, pos, tmp);
        Shift(result, tmp, Split([] + s[pos + 1..], [delimiter]));
        result := result + [tmp];
        tmp := [];
        state := Normal;
        pos := pos + 1;
      }
    }
    assert tmp + s[pos..] == tmp;
    NotFoundWithout(tmp, [delimiter]);
    if tmp != [] {
      result := result + [tmp];
    }
  }

  lemma Step(tmp: bytes, s: bytes, pos: nat)
    requires pos < |s|
    ensures tmp + s[pos..] == tmp + [s[pos]] + s[pos + 1..]
  {
  }

  lemma MatchHead(s: bytes, d: bytes, k: nat)
    requires d != [] && MatchesAt(s, d, k)
    ensures k < |s| && s[k] == d[0]
  {
    assert s[k..k + |d|][0] == s[k];
  }

  lemma NotFoundWithout(p: bytes, d: bytes)
    requires d != [] && d[0] !in p
    ensures Find(p, d).None?
  {
    FoundFirst(p, d, None);
    forall k: nat
      ensures !MatchesAt(p, d, k)
    {
      if MatchesAt(p, d, k) {
        MatchHead(p, d, k);
      }
    }
  }

  /** A piece without the first byte of the delimiter ends at the delimiter that follows it. */
  lemma FoundAtEnd(p: bytes, d: bytes, rest: bytes)
    requires d != [] && d[0] !in p
    ensures Find(p + d + rest, d) == Some(|p|)
  {
    var s := p + d + rest;
    assert s[|p|..|p| + |d|] == d && forall k :: 0 <= k < |p| ==> s[k] == p[k];
    forall k: nat | k < |p|
      ensures !MatchesAt(s, d, k)
    {
      if MatchesAt(s, d, k) {
        MatchHead(s, d, k);
      }
    }
    FoundFirst(s, d, Some(|p|));
  }

  lemma SplitFirst(p: bytes, d: bytes, rest: bytes)
    requires d != [] && d[0] !in p
    ensures Split(p + d + rest, d) == [p] + Split(rest, d)
  {
    FoundAtEnd(p, d, rest);
    var s := p + d + rest;
    assert s[..|p|] == p && s[|p| + |d|..] == rest;
  }

  lemma FsmPiece(s: bytes, pos: nat, tmp: bytes)
    requires pos < |s| && s[pos] !in tmp
    ensures Split(tmp + s[pos..], [s[pos]]) == [tmp] + Split([] + s[pos + 1..], [s[pos]])
  {
    Step(tmp, s, pos);
    assert [] + s[pos + 1..] == s[pos + 1..];
    SplitFirst(tmp, [s[pos]], s[pos + 1..]);
  }

  /** Splitting undoes terminating, with or without a last piece that is not terminated. */
  lemma {:induction false} SplitTerminated(pieces: seq<bytes>, d: bytes, last: bytes)
    requires d != [] && d[0] !in last && forall i :: 0 <= i < |pieces| ==> d[0] !in pieces[i]
    ensures Split(Terminated(pieces, d) + last, d) == pieces + (if last == [] then [] else [last])
  {
    if pieces == [] {
      NothingTerminated(pieces, d, last);
    } else {
      SplitTerminated(pieces[1..], d, last);
      Concat3(pieces[0], d, Terminated(pieces[1..], d), last);
      SplitFirst(pieces[0], d, Terminated(pieces[1..], d) + last);
      Uncons(pieces, if last == [] then [] else [last]);
    }
  }

  lemma {:induction false} NothingTerminated(pieces: seq<bytes>, d: bytes, last: bytes)
    requires pieces == [] && d != [] && d[0] !in last
    ensures Split(Terminated(pieces, d) + last, d) == if last == [] then [] else [last]
  {
    assert Terminated(pieces, d) + last == last;
    NotFoundWithout(last, d);
  }

  lemma Uncons<T>(s: seq<T>, end: seq<T>)
    requires s != []
    ensures [s[0]] + (s[1..] + end) == s + end
  {
  }

  lemma Concat3(a: bytes, b: bytes, c: bytes, d: bytes)
    ensures a + b + c + d == a + b + (c + d)
  {
  }

  /** Joining the pieces gives the string back, but for a delimiter at its very end. */
  lemma {:induction false} JoinSplit(s: bytes, d: bytes)
    requires d != []
    ensures s == Join(Split(s, d), d) || s == Join(Split(s, d), d) + d
    ensures s != [] ==> Split(s, d) != []
    decreases |s|
  {
    if Find(s, d).Some? {
      var n := Find(s, d).value;
      var rest, p := s[n + |d|..], s[..n];
      JoinSplit(rest, d);
      FoundFirst(s, d, Some(n));
      CutAt(s, d, n);
      JoinCons(p, Split(rest, d), d);
      Concat3(p, d, Join(Split(rest, d), d), d);
    }
  }

  lemma CutAt(s: bytes, d: bytes, n: nat)
    requires MatchesAt(s, d, n)
    ensures s == s[..n] + d + s[n + |d|..]
  {
  }

  lemma JoinCons(p: bytes, pieces: seq<bytes>, d: bytes)
    ensures Join([p] + pieces, d) == if pieces == [] then p else p + d + Join(pieces, d)
  {
    assert ([p] + pieces)[1..] == pieces;
  }

  lemma {:induction false} PiecesFreeOfDelimiter(s: bytes, d: bytes)
    requires d != []
    ensures forall i :: 0 <= i < |Split(s, d)| ==> Find(Split(s, d)[i], d).None?
    decreases |s|
  {
    if Find(s, d).Some? {
      var n := Find(s, d).value;
      PiecesFreeOfDelimiter(s[n + |d|..], d);
      FoundFirst(s, d, Some(n));
      FoundFirst(s[..n], d, None);
      forall k: nat
        ensures !MatchesAt(s[..n], d, k)
      {
        if MatchesAt(s[..n], d, k) {
          assert s[..n][k..k + |d|] == s[k..k + |d|];
          assert MatchesAt(s, d, k);
        }
      }
      assert Find(s[..n], d).None?;
    }
  }

  /** For a one-byte delimiter the trailing one is lost exactly when the string ends with it. */
  lemma JoinSplitByte(s: bytes, c: byte)
    ensures s == Join(Split(s, [c]), [c]) + (if s != [] && s[|s| - 1] == c then [c] else [])
  {
    LastPiece(s, c);
  }

  /** The join ends with the last piece, which is free of the delimiter. */
  lemma {:induction false} LastPiece(s: bytes, c: byte)
    ensures var pieces := Split(s, [c]);
            s != [] && s[|s| - 1] != c ==> s == Join(pieces, [c])
    ensures var pieces := Split(s, [c]);
            s != [] && s[|s| - 1] == c ==> s == Join(pieces, [c]) + [c]
    decreases |s|
  {
    if Find(s, [c]).None? {
      FoundFirst(s, [c], None);
      if s != [] && s[|s| - 1] == c {
        assert MatchesAt(s, [c], |s| - 1);
      }
    } else {
      var n := Find(s, [c]).value;
      var rest, p := s[n + 1..], s[..n];
      FoundFirst(s, [c], Some(n));
      assert s[n..n + 1] == [c] && s == p + [c] + rest;
      JoinCons(p, Split(rest, [c]), [c]);
      LastPiece(rest, c);
      JoinSplit(rest, [c]);
      if rest != [] {
        assert s[|s| - 1] == rest[|rest| - 1];
        Concat3(p, [c], Join(Split(rest, [c]), [c]), [c]);
      }
    }
  }
}
