/** The parameters of a request: how they are printed behind the path, and that they are read back. */
module Queries {
  import opened Bytes
  import opened StringUtils
  import opened HttpUtils
  import opened HttpRequest

  predicate AllPass(s: bytes) {
    forall i :: 0 <= i < |s| ==> PassesThrough(s[i])
  }

  /** Names and values that need no escape, which queries are read without, and that cannot be mistaken for
      the separators. */
  predicate CleanParameters(parameters: map<bytes, bytes>) {
    forall k :: k in parameters ==>
      AllPass(k) && '=' !in k && '&' !in k && AllPass(parameters[k]) && '&' !in parameters[k]
  }

  function Piece(k: bytes, v: bytes): bytes {
    k + ['='] + v
  }

  function Pieces(parameters: map<bytes, bytes>, order: seq<bytes>): (r: seq<bytes>)
    requires forall k :: k in order ==> k in parameters
    ensures |r| == |order| && forall i :: 0 <= i < |r| ==> r[i] == Piece(order[i], parameters[order[i]])
  {
    seq(|order|, i requires 0 <= i < |order| => Piece(order[i], parameters[order[i]]))
  }

  /** What is printed behind the question mark. */
  function QueryOf(parameters: map<bytes, bytes>, order: seq<bytes>): bytes
    requires forall k :: k in order ==> k in parameters
  {
    if order == [] then []
    else
      var pieces := Pieces(parameters, order);
      Terminated(pieces[..|pieces| - 1], ['&']) + pieces[|pieces| - 1]
  }

  lemma {:induction false} TextOfQuery(parameters: map<bytes, bytes>, order: seq<bytes>)
    requires forall k :: k in order ==> k in parameters
    ensures ParameterText(parameters, order) == if order == [] then [] else ['?'] + QueryOf(parameters, order)
  {
    if order != [] {
      var before, k := order[..|order| - 1], order[|order| - 1];
      TextOfQuery(parameters, before);
      assert Pieces(parameters, order)[..|before|] == Pieces(parameters, before);
      if before == [] {
        FirstParameter(k, parameters[k]);
      } else {
        LaterParameter(parameters, before, k);
      }
    }
  }

  lemma FirstParameter(k: bytes, v: bytes)
    ensures [] + ['?'] + k + ['='] + v == ['?'] + ([] + Piece(k, v))
  {
  }

  lemma {:induction false} LaterParameter(parameters: map<bytes, bytes>, before: seq<bytes>, k: bytes)
    requires before != [] && k in parameters && forall x :: x in before ==> x in parameters
    ensures ['?'] + QueryOf(parameters, before) + ['&'] + k + ['='] + parameters[k] ==
            ['?'] + (Terminated(Pieces(parameters, before), ['&']) + Piece(k, parameters[k]))
  {
    var pieces := Pieces(parameters, before);
    TerminatedSnoc(pieces[..|pieces| - 1], pieces[|pieces| - 1], ['&']);
    assert pieces[..|pieces| - 1] + [pieces[|pieces| - 1]] == pieces;
    Grouped(['?'], QueryOf(parameters, before), ['&'], k, ['='], parameters[k]);
  }

  lemma Grouped(a: bytes, b: bytes, c: bytes, d: bytes, e: bytes, f: bytes)
    ensures a + b + c + d + e + f == a + (b + c + (d + e + f))
  {
  }

  /** The query is split into what was printed for each parameter. */
  lemma {:induction false} QuerySplit(parameters: map<bytes, bytes>, order: seq<bytes>)
    requires CleanParameters(parameters) && forall k :: k in order ==> k in parameters
    ensures Split(QueryOf(parameters, order), ['&']) == Pieces(parameters, order)
  {
    if order == [] {
      NotFoundWithout([], ['&']);
    } else {
      var pieces := Pieces(parameters, order);
      forall i | 0 <= i < |pieces|
        ensures '&' !in pieces[i]
      {
        assert order[i] in parameters;
      }
      SplitTerminated(pieces[..|pieces| - 1], ['&'], pieces[|pieces| - 1]);
      assert pieces == pieces[..|pieces| - 1] + [pieces[|pieces| - 1]];
    }
  }

  lemma {:induction false} TrimKeeps(s: bytes)
    requires AllPass(s)
    ensures Trim(s) == s
  {
    assert s != [] ==> PassesThrough(s[0]) && PassesThrough(s[|s| - 1]);
  }

  lemma PieceRead(k: bytes, v: bytes)
    requires '=' !in k
    ensures KeyValue(Piece(k, v), '=') == Some((k, v))
  {
    FoundAtEnd(k, ['='], v);
    assert Piece(k, v)[..|k|] == k && Piece(k, v)[|k| + 1..] == v;
  }

  function Listed(parameters: map<bytes, bytes>, order: seq<bytes>): map<bytes, bytes>
    requires forall k :: k in order ==> k in parameters
  {
    map k | k in order :: parameters[k]
  }

  /** Each piece adds its parameter. */
  lemma {:induction false} PiecesRead(parameters: map<bytes, bytes>, order: seq<bytes>)
    requires CleanParameters(parameters) && forall k :: k in order ==> k in parameters
    ensures WithParameters(map[], Pieces(parameters, order)) == Listed(parameters, order)
  {
    if order != [] {
      var before, k := order[..|order| - 1], order[|order| - 1];
      assert order == before + [k];
      PiecesRead(parameters, before);
      ParameterAdded(Pieces(parameters, before), k, parameters[k]);
      OneMore(parameters, before, k);
    }
  }

  lemma {:induction false} ParameterAdded(pieces: seq<bytes>, k: bytes, v: bytes)
    requires AllPass(k) && AllPass(v) && '=' !in k
    ensures WithParameters(map[], pieces + [Piece(k, v)]) == WithParameters(map[], pieces)[k := v]
  {
    PieceRead(k, v);
    TrimKeeps(k);
    TrimKeeps(v);
    assert (pieces + [Piece(k, v)])[..|pieces|] == pieces;
  }

  lemma OneMore(parameters: map<bytes, bytes>, before: seq<bytes>, k: bytes)
    requires k in parameters && forall x :: x in before ==> x in parameters
    ensures Listed(parameters, before)[k := parameters[k]] == Listed(parameters, before + [k])
    ensures Pieces(parameters, before + [k]) == Pieces(parameters, before) + [Piece(k, parameters[k])]
  {
  }

  lemma {:induction false} PassEncoded(s: bytes)
    requires AllPass(s)
    ensures Encoded(s) == s
  {
    if s != [] {
      PassEncoded(s[1..]);
    }
  }

  lemma {:induction false} TerminatedPasses(pieces: seq<bytes>)
    requires forall i :: 0 <= i < |pieces| ==> AllPass(pieces[i])
    ensures AllPass(Terminated(pieces, ['&']))
  {
    if pieces != [] {
      TerminatedPasses(pieces[1..]);
      SumPasses(pieces[0], ['&']);
      SumPasses(pieces[0] + ['&'], Terminated(pieces[1..], ['&']));
    }
  }

  lemma {:induction false} PiecesPass(parameters: map<bytes, bytes>, order: seq<bytes>)
    requires CleanParameters(parameters) && forall k :: k in order ==> k in parameters
    ensures forall i :: 0 <= i < |order| ==> AllPass(Pieces(parameters, order)[i])
  {
    forall i | 0 <= i < |order|
      ensures AllPass(Pieces(parameters, order)[i])
    {
      assert order[i] in parameters;
      SumPasses(order[i] + ['='], parameters[order[i]]);
    }
  }

  lemma SumPasses(a: bytes, b: bytes)
    requires AllPass(a) && AllPass(b)
    ensures AllPass(a + b)
  {
  }

  lemma {:induction false} QueryPasses(parameters: map<bytes, bytes>, order: seq<bytes>)
    requires CleanParameters(parameters) && forall k :: k in order ==> k in parameters
    ensures AllPass(QueryOf(parameters, order))
  {
    if order != [] {
      var pieces := Pieces(parameters, order);
      PiecesPass(parameters, order);
      TerminatedPasses(pieces[..|pieces| - 1]);
      SumPasses(Terminated(pieces[..|pieces| - 1], ['&']), pieces[|pieces| - 1]);
    }
  }

  // ----- parameters that do not come back

  /** A name as it can be read from an encoded query. */
  predicate PlainName(k: bytes) {
    Safe(k) && '=' !in k && '&' !in k
  }

  predicate PlainValue(v: bytes) {
    Safe(v) && '&' !in v
  }

  /** All that can be read from an encoded query. */
  predicate PlainParameters(parameters: map<bytes, bytes>) {
    forall k :: k in parameters ==> PlainName(k) && PlainValue(parameters[k])
  }

  lemma {:induction false} TrimKeepsSafe(s: bytes)
    requires Safe(s)
    ensures Trim(s) == s
  {
    assert s != [] ==> SafeByte(s[0]) && SafeByte(s[|s| - 1]);
  }

  lemma {:induction false} PlainPieceRead(piece: bytes)
    requires PlainValue(piece) && KeyValue(piece, '=').Some?
    ensures var (k, v) := KeyValue(piece, '=').value;
            PlainName(Trim(k)) && PlainValue(Trim(v))
  {
    var n := Find(piece, ['=']).value;
    NotBefore(piece, '=', n);
    PartsPlain(piece, n);
    TrimKeepsSafe(piece[..n]);
    TrimKeepsSafe(piece[n + 1..]);
  }

  lemma NotBefore(s: bytes, c: byte, n: nat)
    requires Find(s, [c]) == Some(n)
    ensures c !in s[..n]
  {
    FoundFirst(s, [c], Some(n));
    forall i | 0 <= i < n
      ensures s[i] != c
    {
      assert !MatchesAt(s, [c], i) && s[i..i + 1] == [s[i]];
    }
  }

  lemma PartsPlain(s: bytes, n: nat)
    requires PlainValue(s) && n < |s|
    ensures PlainValue(s[..n]) && PlainValue(s[n + 1..])
  {
  }

  lemma {:induction false} OnlyPlainRead(pieces: seq<bytes>)
    requires forall i :: 0 <= i < |pieces| ==> PlainValue(pieces[i])
    ensures PlainParameters(WithParameters(map[], pieces))
  {
    if pieces != [] {
      OnlyPlainRead(pieces[..|pieces| - 1]);
      if KeyValue(pieces[|pieces| - 1], '=').Some? {
        PlainPieceRead(pieces[|pieces| - 1]);
      }
    }
  }

  lemma NotIn(s: bytes, c: byte)
    requires Find(s, [c]).None?
    ensures c !in s
  {
    FoundFirst(s, [c], None);
    forall i | 0 <= i < |s|
      ensures s[i] != c
    {
      assert !MatchesAt(s, [c], i) && s[i..i + 1] == [s[i]];
    }
  }

  lemma {:induction false} PiecesPlain(s: bytes)
    requires Safe(s)
    ensures forall i :: 0 <= i < |Split(s, ['&'])| ==> PlainValue(Split(s, ['&'])[i])
    decreases |s|
  {
    if Find(s, ['&']).Some? {
      var n := Find(s, ['&']).value;
      FirstPiecePlain(s, n);
      PiecesPlain(s[n + 1..]);
      SplitFound(s, ['&'], n);
    } else {
      NotIn(s, '&');
    }
  }

  lemma FirstPiecePlain(s: bytes, n: nat)
    requires Safe(s) && Find(s, ['&']) == Some(n)
    ensures PlainValue(s[..n]) && Safe(s[n + 1..])
  {
    NotBefore(s, '&', n);
  }

  // ----- encoded pieces

  lemma {:induction false} EncodedKeepsSeparator(s: bytes, c: byte)
    requires c == '&' || c == '='
    ensures c in Encoded(s) <==> c in s
  {
    if s != [] {
      EncodedKeepsSeparator(s[1..], c);
      EncodedByteSeparator(s[0], c);
      assert s == [s[0]] + s[1..];
    }
  }

  lemma EncodedByteSeparator(b: byte, c: byte)
    requires c == '&' || c == '='
    ensures c in EncodedByte(b) <==> b == c
  {
    if b != ' ' && !PassesThrough(b) {
      assert EncodedByte(b) == ['%', HexDigit(b as int / 16), HexDigit(b as int % 16)];
    }
  }

  lemma {:induction false} EncodedPiece(k: bytes, v: bytes)
    ensures Encoded(Piece(k, v)) == Piece(Encoded(k), Encoded(v))
  {
    EncodedConcat(k + ['='], v);
    EncodedConcat(k, ['=']);
    EncodedCons('=', []);
    assert ['='] + [] == ['='];
  }

  function EncodedAll(pieces: seq<bytes>): (r: seq<bytes>)
    ensures |r| == |pieces| && forall i :: 0 <= i < |r| ==> r[i] == Encoded(pieces[i])
  {
    seq(|pieces|, i requires 0 <= i < |pieces| => Encoded(pieces[i]))
  }

  lemma {:induction false} EncodedTerminated(pieces: seq<bytes>)
    ensures Encoded(Terminated(pieces, ['&'])) == Terminated(EncodedAll(pieces), ['&'])
  {
    if pieces != [] {
      EncodedTerminated(pieces[1..]);
      assert EncodedAll(pieces)[1..] == EncodedAll(pieces[1..]);
      EncodedConcat(pieces[0] + ['&'], Terminated(pieces[1..], ['&']));
      EncodedConcat(pieces[0], ['&']);
      EncodedCons('&', []);
      assert ['&'] + [] == ['&'];
    }
  }

  /** The encoded query is split into the encoded pieces. */
  lemma {:induction false} EncodedQuerySplit(parameters: map<bytes, bytes>, order: seq<bytes>)
    requires PlainParameters(parameters) && order != [] && forall k :: k in order ==> k in parameters
    ensures Split(Encoded(QueryOf(parameters, order)), ['&']) == EncodedAll(Pieces(parameters, order))
  {
    var all := EncodedAll(Pieces(parameters, order));
    EncodedQuery(Pieces(parameters, order));
    NoSeparatorInPieces(parameters, order);
    SplitWhole(all);
  }

  lemma {:induction false} SplitWhole(pieces: seq<bytes>)
    requires pieces != [] && forall i :: 0 <= i < |pieces| ==> '&' !in pieces[i] && pieces[i] != []
    ensures Split(Terminated(pieces[..|pieces| - 1], ['&']) + pieces[|pieces| - 1], ['&']) == pieces
  {
    SplitTerminated(pieces[..|pieces| - 1], ['&'], pieces[|pieces| - 1]);
    assert pieces == pieces[..|pieces| - 1] + [pieces[|pieces| - 1]];
  }

  lemma {:induction false} EncodedQuery(pieces: seq<bytes>)
    requires pieces != []
    ensures var all := EncodedAll(pieces); var n := |pieces| - 1;
            Encoded(Terminated(pieces[..n], ['&']) + pieces[n]) == Terminated(all[..n], ['&']) + all[n]
  {
    var n := |pieces| - 1;
    EncodedConcat(Terminated(pieces[..n], ['&']), pieces[n]);
    EncodedTerminated(pieces[..n]);
    assert EncodedAll(pieces[..n]) == EncodedAll(pieces)[..n];
  }

  lemma {:induction false} NoSeparatorInPieces(parameters: map<bytes, bytes>, order: seq<bytes>)
    requires PlainParameters(parameters) && forall k :: k in order ==> k in parameters
    ensures var all := EncodedAll(Pieces(parameters, order));
            forall i :: 0 <= i < |all| ==> '&' !in all[i] && all[i] != []
  {
    var all := EncodedAll(Pieces(parameters, order));
    forall i | 0 <= i < |all|
      ensures '&' !in all[i] && all[i] != []
    {
      NoSeparatorInPiece(order[i], parameters[order[i]]);
    }
  }

  lemma {:induction false} NoSeparatorInPiece(k: bytes, v: bytes)
    requires PlainName(k) && PlainValue(v)
    ensures '&' !in Encoded(Piece(k, v)) && Encoded(Piece(k, v)) != []
  {
    EncodedPiece(k, v);
    EncodedKeepsSeparator(Piece(k, v), '&');
  }

  /** `read` maps the encoded names to the encoded values. */
  ghost predicate ReadsEncoded(read: map<bytes, bytes>, parameters: map<bytes, bytes>, order: seq<bytes>) {
    (forall k :: k in order ==> k in parameters) &&
    (forall k :: k in order ==> Encoded(k) in read && read[Encoded(k)] == Encoded(parameters[k])) &&
    forall x :: x in read ==> exists k :: k in order && x == Encoded(k)
  }

  lemma {:induction false} EncodedInjective(a: bytes, b: bytes)
    requires Encoded(a) == Encoded(b)
    ensures a == b
  {
    DecodeEncode(a);
    DecodeEncode(b);
  }

  lemma {:induction false} EncodedPieceAdded(pieces: seq<bytes>, k: bytes, v: bytes)
    requires PlainName(k)
    ensures WithParameters(map[], pieces + [Encoded(Piece(k, v))]) ==
            WithParameters(map[], pieces)[Encoded(k) := Encoded(v)]
  {
    EncodedPiece(k, v);
    EncodedKeepsSeparator(k, '=');
    PieceRead(Encoded(k), Encoded(v));
    EncodedIsSafe(k);
    EncodedIsSafe(v);
    TrimKeepsSafe(Encoded(k));
    TrimKeepsSafe(Encoded(v));
    assert (pieces + [Encoded(Piece(k, v))])[..|pieces|] == pieces;
  }

  lemma {:induction false} EncodedPiecesRead(parameters: map<bytes, bytes>, order: seq<bytes>)
    requires PlainParameters(parameters) && (forall k :: k in order ==> k in parameters)
    requires forall i, j :: 0 <= i < j < |order| ==> order[i] != order[j]
    ensures ReadsEncoded(WithParameters(map[], EncodedAll(Pieces(parameters, order))), parameters, order)
    decreases |order|
  {
    if order == [] {
      NothingRead(parameters, order);
    } else {
      var before, k := LastParameter(parameters, order);
      EncodedPiecesRead(parameters, before);
      NextPieceRead(parameters, order, before, k);
    }
  }

  lemma LastParameter(parameters: map<bytes, bytes>, order: seq<bytes>) returns (before: seq<bytes>, k: bytes)
    requires PlainParameters(parameters) && order != [] && (forall x :: x in order ==> x in parameters)
    requires forall i, j :: 0 <= i < j < |order| ==> order[i] != order[j]
    ensures order == before + [k] && |before| < |order| && k in parameters && PlainName(k) && k !in before
    ensures forall x :: x in before ==> x in parameters
    ensures forall i, j :: 0 <= i < j < |before| ==> before[i] != before[j]
  {
    before, k := order[..|order| - 1], order[|order| - 1];
    assert k in order;
  }

  lemma {:induction false} NothingRead(parameters: map<bytes, bytes>, order: seq<bytes>)
    requires order == []
    ensures ReadsEncoded(WithParameters(map[], EncodedAll(Pieces(parameters, order))), parameters, order)
  {
  }

  lemma {:induction false} NextPieceRead(parameters: map<bytes, bytes>, order: seq<bytes>, before: seq<bytes>,
      k: bytes)
    requires k in parameters && PlainName(k) && k !in before && forall x :: x in before ==> x in parameters
    requires ReadsEncoded(WithParameters(map[], EncodedAll(Pieces(parameters, before))), parameters, before)
    requires order == before + [k]
    ensures ReadsEncoded(WithParameters(map[], EncodedAll(Pieces(parameters, order))), parameters, order)
  {
    OneMoreEncoded(parameters, before, k);
    var pieces := EncodedAll(Pieces(parameters, before));
    EncodedPieceAdded(pieces, k, parameters[k]);
    ReadsOneMore(WithParameters(map[], pieces), parameters, before, k);
  }

  lemma OneMoreEncoded(parameters: map<bytes, bytes>, before: seq<bytes>, k: bytes)
    requires k in parameters && forall x :: x in before ==> x in parameters
    ensures EncodedAll(Pieces(parameters, before + [k])) ==
            EncodedAll(Pieces(parameters, before)) + [Encoded(Piece(k, parameters[k]))]
  {
    OneMore(parameters, before, k);
  }

  lemma {:induction false} ReadsOneMore(read: map<bytes, bytes>, parameters: map<bytes, bytes>, before: seq<bytes>,
      k: bytes)
    requires ReadsEncoded(read, parameters, before) && k in parameters && k !in before
    ensures ReadsEncoded(read[Encoded(k) := Encoded(parameters[k])], parameters, before + [k])
  {
    forall x | x in before
      ensures Encoded(x) != Encoded(k)
    {
      if Encoded(x) == Encoded(k) {
        EncodedInjective(x, k);
      }
    }
    var read' := read[Encoded(k) := Encoded(parameters[k])];
    forall x | x in read'
      ensures exists y :: y in before + [k] && x == Encoded(y)
    {
      if x == Encoded(k) {
        assert k in before + [k];
      } else {
        var y :| y in before && x == Encoded(y);
        assert y in before + [k];
      }
    }
  }

  /** Encoding never shortens; a text without spaces keeps its length exactly if nothing needs an escape, and
      what needs one still does when it is encoded. */
  lemma {:induction false} EncodedGrows(s: bytes)
    requires Safe(s)
    ensures |s| <= |Encoded(s)| && (|Encoded(s)| == |s| <==> AllPass(s)) && (AllPass(Encoded(s)) ==> AllPass(s))
  {
    if s != [] {
      assert SafeByte(s[0]) && Safe(s[1..]);
      EncodedGrows(s[1..]);
      FirstEncoded(s);
    }
  }

  lemma {:induction false} FirstEncoded(s: bytes)
    requires s != [] && SafeByte(s[0])
    ensures |Encoded(s)| == (if PassesThrough(s[0]) then 1 else 3) + |Encoded(s[1..])|
    ensures AllPass(s) <==> PassesThrough(s[0]) && AllPass(s[1..])
    ensures AllPass(Encoded(s)) ==> PassesThrough(s[0]) && AllPass(Encoded(s[1..]))
  {
    assert s == [s[0]] + s[1..];
    var first, rest := EncodedByte(s[0]), Encoded(s[1..]);
    assert Encoded(s) == first + rest;
    assert !PassesThrough(s[0]) ==> (first + rest)[0] == '%';
    assert forall i :: 0 <= i < |rest| ==> (first + rest)[|first| + i] == rest[i];
  }

  predicate Follows(names: set<bytes>, x: bytes) {
    Safe(x) && Encoded(x) in names
  }

  function Longer(names: set<bytes>, n: nat): set<bytes> {
    set x | x in names && |x| > n
  }

  /** Names that need an escape cannot all be among those of which they are the encoding: each would be
      followed by a longer one. */
  lemma {:induction false} NoEndlessNames(names: set<bytes>, k: bytes)
    requires k in names && !AllPass(k) && forall x {:trigger Follows(names, x)} :: x in names ==> Follows(names, x)
    ensures false
    decreases Longer(names, |k|)
  {
    assert Follows(names, k);
    EncodedGrows(k);
    var next := Encoded(k);
    assert next in Longer(names, |k|) && next !in Longer(names, |next|);
    assert Longer(names, |next|) <= Longer(names, |k|);
    NoEndlessNames(names, next);
  }

  /** A parameter that comes back under its encoded name, with its encoded value. */
  predicate Kept(parameters: map<bytes, bytes>, k: bytes)
    requires k in parameters
  {
    Safe(k) && Safe(parameters[k]) && Encoded(k) in parameters && parameters[Encoded(k)] == Encoded(parameters[k])
  }

  lemma {:induction false} AllKept(parameters: map<bytes, bytes>, order: seq<bytes>)
    requires PlainParameters(parameters) && ReadsEncoded(parameters, parameters, order)
    requires Lists(order, parameters.Keys)
    ensures forall k {:trigger Kept(parameters, k)} :: k in parameters ==> Kept(parameters, k)
  {
  }

  lemma {:induction false} KeptIsClean(parameters: map<bytes, bytes>)
    requires PlainParameters(parameters)
    requires forall k {:trigger Kept(parameters, k)} :: k in parameters ==> Kept(parameters, k)
    ensures CleanParameters(parameters)
  {
    forall k | k in parameters
      ensures AllPass(k) && AllPass(parameters[k])
    {
      NamePasses(parameters, k);
      assert Kept(parameters, k);
      ValuePasses(parameters, k);
    }
  }

  lemma {:induction false} NamePasses(parameters: map<bytes, bytes>, k: bytes)
    requires k in parameters
    requires forall x {:trigger Kept(parameters, x)} :: x in parameters ==> Kept(parameters, x)
    ensures AllPass(k)
  {
    forall x | x in parameters.Keys
      ensures Follows(parameters.Keys, x)
    {
      assert Kept(parameters, x);
    }
    if !AllPass(k) {
      NoEndlessNames(parameters.Keys, k);
    }
  }

  lemma {:induction false} ValuePasses(parameters: map<bytes, bytes>, k: bytes)
    requires k in parameters && Kept(parameters, k) && AllPass(k)
    ensures AllPass(parameters[k])
  {
    PassEncoded(k);
    EncodedGrows(parameters[k]);
  }

  /** The parameters are read back from the encoded query, printed in any order, exactly if no name or value
      needs an escape and none holds a separator. */
  lemma {:induction false} ParametersReadBackIff(parameters: map<bytes, bytes>, order: seq<bytes>)
    requires Lists(order, parameters.Keys)
    ensures WithParameters(map[], Split(Encoded(QueryOf(parameters, order)), ['&'])) == parameters <==>
            CleanParameters(parameters)
  {
    var query := QueryOf(parameters, order);
    if CleanParameters(parameters) {
      QueryPasses(parameters, order);
      PassEncoded(query);
      ParametersReadBack(parameters, order);
    } else if WithParameters(map[], Split(Encoded(query), ['&'])) == parameters {
      EncodedIsSafe(query);
      PiecesPlain(Encoded(query));
      OnlyPlainRead(Split(Encoded(query), ['&']));
      EncodedQuerySplit(parameters, order);
      EncodedPiecesRead(parameters, order);
      AllKept(parameters, order);
      KeptIsClean(parameters);
    }
  }

  lemma {:induction false} ParametersReadBack(parameters: map<bytes, bytes>, order: seq<bytes>)
    requires CleanParameters(parameters) && Lists(order, parameters.Keys)
    ensures WithParameters(map[], Split(QueryOf(parameters, order), ['&'])) == parameters
  {
    QuerySplit(parameters, order);
    PiecesRead(parameters, order);
    assert Listed(parameters, order) == parameters;
  }
}
