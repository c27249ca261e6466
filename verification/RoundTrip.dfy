/** Messages that are printed, sent one after the other and read in any pieces come out as they went
    in. */
module RoundTrip {
  import opened Bytes
  import opened StringUtils
  import opened HttpUtils
  import opened HttpRequest
  import opened Queries
  import opened ReadLoop
  import opened Parsing
  import Framing

  // ----- finding the end of the header section

  /** Where nothing is found before it, searching goes on in what follows. */
  lemma FindSkip(c: bytes, t: bytes, pat: bytes)
    requires forall k: nat :: k < |c| ==> !MatchesAt(c + t, pat, k)
    ensures Find(c + t, pat) == Shifted(Find(t, pat), |c|)
  {
    var s := c + t;
    forall k: nat
      ensures MatchesAt(t, pat, k) <==> MatchesAt(s, pat, |c| + k)
    {
      if |c| + k + |pat| <= |s| {
        assert s[|c| + k..|c| + k + |pat|] == t[k..k + |pat|];
      }
    }
    var r := Find(t, pat);
    assert forall k: nat :: |c| <= k ==> (MatchesAt(s, pat, k) <==> MatchesAt(t, pat, k - |c|));
    FoundFirst(s, pat, Shifted(r, |c|));
  }

  predicate Plain(line: bytes) {
    line != [] && '\r' !in line
  }

  lemma NoEndInside(line: bytes, t: bytes, k: nat)
    requires Plain(line) && t != [] && t[0] != '\r' && k < |line| + 2
    ensures !MatchesAt(line + CRLF + t, CRLFCRLF, k)
  {
    if MatchesAt(line + CRLF + t, CRLFCRLF, k) {
      MatchReturns(line + CRLF + t, k);
    }
  }

  lemma MatchReturns(s: bytes, k: nat)
    requires MatchesAt(s, CRLFCRLF, k)
    ensures k + 4 <= |s| && s[k] == '\r' && s[k + 2] == '\r'
  {
    assert s[k..k + 4][0] == s[k] && s[k..k + 4][2] == s[k + 2];
  }

  /** The blank line is the first place where two line ends meet. */
  lemma {:induction false} BlankLineFound(lines: seq<bytes>, more: bytes)
    requires lines != [] && forall i :: 0 <= i < |lines| ==> Plain(lines[i])
    ensures Find(Terminated(lines, CRLF) + CRLF + more, CRLFCRLF) == Some(|Terminated(lines, CRLF)| - 2)
  {
    var line, others := lines[0], lines[1..];
    var t := Terminated(others, CRLF) + CRLF + more;
    assert Terminated(lines, CRLF) + CRLF + more == line + CRLF + t;
    if others == [] {
      assert t == CRLF + more;
      assert line + CRLF + t == line + CRLFCRLF + more;
      FoundAtEnd(line, CRLFCRLF, more);
    } else {
      BlankLineFound(others, more);
      assert t[0] == others[0][0];
      forall k: nat | k < |line + CRLF|
        ensures !MatchesAt(line + CRLF + t, CRLFCRLF, k)
      {
        NoEndInside(line, t, k);
      }
      FindSkip(line + CRLF, t, CRLFCRLF);
    }
  }

  // ----- the header lines

  function LinesOf(headers: map<bytes, bytes>, order: seq<bytes>): (r: seq<bytes>)
    requires forall k :: k in order ==> k in headers
    ensures |r| == |order| && forall i :: 0 <= i < |r| ==> r[i] == HeaderLine(order[i], headers[order[i]])
  {
    seq(|order|, i requires 0 <= i < |order| => HeaderLine(order[i], headers[order[i]]))
  }

  lemma {:induction false} HeaderLinesTerminated(headers: map<bytes, bytes>, order: seq<bytes>)
    requires forall k :: k in order ==> k in headers
    ensures HeaderLines(headers, order) == Terminated(LinesOf(headers, order), CRLF)
  {
    if order != [] {
      var before, k := order[..|order| - 1], order[|order| - 1];
      HeaderLinesTerminated(headers, before);
      TerminatedSnoc(LinesOf(headers, before), HeaderLine(k, headers[k]), CRLF);
      assert LinesOf(headers, order) == LinesOf(headers, before) + [HeaderLine(k, headers[k])];
    }
  }

  /** Names in lower case, as the program keeps them, that end where they are printed to end. */
  predicate PlainNames(names: set<bytes>) {
    forall k :: k in names ==> Lower(k) == k && ':' !in k
  }

  /** Names may be spelled in any mix of cases; neither they nor values can be mistaken for the syntax around
      them. */
  predicate CleanHeaders(headers: map<bytes, bytes>) {
    forall k :: k in headers ==> ':' !in k && '\r' !in k && '\r' !in headers[k]
  }

  /** Each value comes back with the space that was printed before it. */
  function Spaced(headers: map<bytes, bytes>): map<bytes, bytes> {
    map k | k in headers :: [' '] + headers[k]
  }

  lemma HeaderLineRead(k: bytes, v: bytes)
    requires ':' !in k
    ensures KeyValue(HeaderLine(k, v), ':') == Some((k, [' '] + v))
  {
    var line := HeaderLine(k, v);
    assert line == k + [':'] + ([' '] + v);
    FoundAtEnd(k, [':'], [' '] + v);
    assert line[..|k|] == k && line[|k| + 1..] == [' '] + v;
  }

  /** The headers as they are read: under names in lower case, each value with its space. Of names that differ
      only in case the one listed last counts. */
  function SpacedAs(headers: map<bytes, bytes>, order: seq<bytes>): map<bytes, bytes>
    requires forall k :: k in order ==> k in headers
  {
    if order == [] then map[]
    else
      var k := order[|order| - 1];
      SpacedAs(headers, order[..|order| - 1])[Lower(k) := [' '] + headers[k]]
  }

  lemma {:induction false} SpacedFrom(headers: map<bytes, bytes>, order: seq<bytes>, n: bytes)
    requires forall k :: k in order ==> k in headers
    ensures n in SpacedAs(headers, order) <==> exists k :: k in order && Lower(k) == n
    ensures n in SpacedAs(headers, order) ==>
              exists k :: k in order && Lower(k) == n && SpacedAs(headers, order)[n] == [' '] + headers[k]
  {
    if order != [] {
      SpacedFrom(headers, order[..|order| - 1], n);
    }
  }

  /** Where no two names are spellings of one, every header is found again under any spelling of its name, and
      nothing else is. */
  lemma {:induction false} SpelledHeaders(headers: map<bytes, bytes>, order: seq<bytes>, field: bytes)
    requires Lists(order, headers.Keys)
    requires forall j, k :: j in headers && k in headers && SameLetters(j, k) ==> j == k
    ensures forall k :: k in headers && SameLetters(k, field) ==>
              HeaderOf(SpacedAs(headers, order), field) == [' '] + headers[k]
    ensures (forall k :: k in headers ==> !SameLetters(k, field)) ==> HeaderOf(SpacedAs(headers, order), field) == []
  {
    SpacedFrom(headers, order, Lower(field));
    forall k | k in headers
      ensures SameLetters(k, field) <==> Lower(k) == Lower(field)
    {
      LowerIff(k, field);
    }
    forall j, k | j in headers && k in headers && Lower(j) == Lower(k)
      ensures j == k
    {
      LowerIff(j, k);
    }
  }

  lemma {:induction false} SpacedPlain(headers: map<bytes, bytes>, order: seq<bytes>)
    requires Lists(order, headers.Keys) && PlainNames(headers.Keys)
    ensures SpacedAs(headers, order) == Spaced(headers)
  {
    forall n
      ensures n in SpacedAs(headers, order) <==> n in headers
      ensures n in headers ==> SpacedAs(headers, order)[n] == [' '] + headers[n]
    {
      SpacedFrom(headers, order, n);
    }
  }

  lemma {:induction false} HeadersReadBack(first: bytes, headers: map<bytes, bytes>, order: seq<bytes>)
    requires ':' !in first && forall k :: k in order ==> k in headers && ':' !in k
    ensures WithHeaders(map[], [first] + LinesOf(headers, order)) == SpacedAs(headers, order)
  {
    if order == [] {
      NoHeader(first);
      assert [first] + LinesOf(headers, order) == [first];
    } else {
      var before, k := order[..|order| - 1], order[|order| - 1];
      HeadersReadBack(first, headers, before);
      HeaderAdded([first] + LinesOf(headers, before), k, headers[k]);
      LinesGrow(first, headers, before, k);
      assert order == before + [k];
    }
  }

  /** Header lines, in any order, give the same headers back, one space before each value, exactly if the names
      are plain. */
  lemma {:induction false} HeaderLinesReadIff(first: bytes, headers: map<bytes, bytes>, order: seq<bytes>)
    requires ':' !in first && Lists(order, headers.Keys)
    ensures WithHeaders(map[], [first] + LinesOf(headers, order)) == Spaced(headers) <==> PlainNames(headers.Keys)
  {
    if PlainNames(headers.Keys) {
      HeadersReadBack(first, headers, order);
      SpacedPlain(headers, order);
    } else {
      NamesReadPlain([first] + LinesOf(headers, order));
      assert Spaced(headers).Keys == headers.Keys;
    }
  }

  lemma {:induction false} NamesReadPlain(lines: seq<bytes>)
    ensures PlainNames(WithHeaders(map[], lines).Keys)
  {
    if lines != [] {
      NamesReadPlain(lines[..|lines| - 1]);
      var kv := KeyValue(lines[|lines| - 1], ':');
      if kv.Some? {
        LowerIsPlain(lines[|lines| - 1], kv.value.0);
      }
    }
  }

  lemma LowerIsPlain(line: bytes, k: bytes)
    requires Find(line, [':']).Some? && k == line[..Find(line, [':']).value]
    ensures Lower(Lower(k)) == Lower(k) && ':' !in Lower(k)
  {
    NotBefore(line, ':', |k|);
  }

  lemma {:induction false} NoHeader(first: bytes)
    requires ':' !in first
    ensures WithHeaders(map[], [first]) == map[]
  {
    assert [first][..0] == [];
    NotFoundWithout(first, [':']);
  }

  lemma {:induction false} HeaderAdded(lines: seq<bytes>, k: bytes, v: bytes)
    requires ':' !in k
    ensures WithHeaders(map[], lines + [HeaderLine(k, v)]) == WithHeaders(map[], lines)[Lower(k) := [' '] + v]
  {
    HeaderLineRead(k, v);
    var more := lines + [HeaderLine(k, v)];
    assert more[..|more| - 1] == lines;
  }

  lemma LinesGrow(first: bytes, headers: map<bytes, bytes>, before: seq<bytes>, k: bytes)
    requires k in headers && forall x :: x in before ==> x in headers
    ensures [first] + LinesOf(headers, before + [k]) == [first] + LinesOf(headers, before) + [HeaderLine(k, headers[k])]
  {
  }

  // ----- the first line

  /** A token of the first line, which is also searched for a header. */
  predicate Token(t: bytes) {
    t != [] && ' ' !in t && ':' !in t && '\r' !in t
  }

  lemma ThreeTokens(x: bytes, y: bytes, z: bytes)
    requires Token(x) && Token(y) && Token(z)
    ensures Split(x + [' '] + y + [' '] + z + [' '], [' ']) == [x, y, z]
    ensures Split(x + [' '] + y + [' '] + z, [' ']) == [x, y, z]
  {
    LastToken(z);
    TwoTokens(x, y, z);
    TwoTokens(x, y, z + [' ']);
    assert x + [' '] + y + [' '] + (z + [' ']) == x + [' '] + y + [' '] + z + [' '];
  }

  lemma LastToken(z: bytes)
    requires Token(z)
    ensures Split(z, [' ']) == [z] && Split(z + [' '], [' ']) == [z]
  {
    NotFoundWithout(z, [' ']);
    SplitFirst(z, [' '], []);
    assert z + [' '] + [] == z + [' '];
  }

  lemma TwoTokens(x: bytes, y: bytes, rest: bytes)
    requires Token(x) && Token(y)
    ensures Split(x + [' '] + y + [' '] + rest, [' ']) == [x, y] + Split(rest, [' '])
  {
    SplitFirst(y, [' '], rest);
    SplitFirst(x, [' '], y + [' '] + rest);
    Regroup(x + [' '], y, [' '], rest);
    Pair(x, y, Split(rest, [' ']));
  }

  lemma Regroup(a: bytes, b: bytes, c: bytes, d: bytes)
    ensures a + b + c + d == a + (b + c + d)
  {
  }

  lemma Pair<T>(x: T, y: T, rest: seq<T>)
    ensures [x] + ([y] + rest) == [x, y] + rest
  {
  }

  lemma MethodToken(m: HttpMethod)
    ensures Token(MethodName(m)) && !StartsWithHttp(MethodName(m))
  {
    var t := MethodName(m);
    if |t| >= 4 {
      assert Lower(t)[..4][0] == ToLower(t[0]);
      assert Lower(t)[..4][1] == ToLower(t[1]);
    }
  }

  lemma VersionToken(v: Version)
    ensures Token(VersionName(v)) && StartsWithHttp(VersionName(v))
    ensures VersionOf(VersionName(v)) == if v.Http10? then Http10 else Http11
    ensures VersionName(v) == if v.Http10? then "HTTP/1.0" else "HTTP/1.1"
  {
    assert Lower(VersionName(v))[..4] == "http";
  }

  lemma {:induction false} DecimalReadBack(n: nat)
    ensures AllDigits(Decimal(n)) && Value(Decimal(n)) == n && (Decimal(n)[0] == '0' ==> n == 0 && |Decimal(n)| == 1)
  {
    var before: bytes := if n < 10 then [] else Decimal(n / 10);
    if 10 <= n {
      DecimalReadBack(n / 10);
    }
    DigitAppended(before, n % 10);
    Digits10(n);
  }

  lemma Digits10(n: nat)
    ensures n == n / 10 * 10 + n % 10 && (n < 10 ==> n / 10 == 0)
  {
  }

  lemma {:induction false} DigitAppended(before: bytes, d: nat)
    requires d < 10 && (before == [] || AllDigits(before))
    ensures var s := before + ['0' + d as char]; AllDigits(s) && Value(s) == Value(before) * 10 + d
  {
    var s := before + ['0' + d as char];
    assert s[..|s| - 1] == before;
  }

  lemma DigitsAreToken(d: bytes)
    requires AllDigits(d)
    ensures Token(d)
  {
  }

  lemma {:induction false} CodeReadBack(n: nat)
    requires n < 0x1_0000_0000
    ensures Token(Decimal(n)) && Atoi(Decimal(n)) == n
  {
    DecimalReadBack(n);
    DigitsAreToken(Decimal(n));
    AtoiReads(Decimal(n));
  }

  lemma {:induction false} AtoiReads(d: bytes)
    requires AllDigits(d) && Value(d) < 0x1_0000_0000
    ensures Atoi(d) == Value(d)
  {
    DigitsOfDigits(d);
    assert IsDigit(d[0]);
    assert SkipSpaces(d) == d && Unsigned(d) == d;
  }

  /** The encoded path is read back as it was, whether or not it needed encoding. */
  lemma PathReadBack(path: bytes)
    ensures PathOf(Encoded(path)) == path
  {
    DecodeEncode(path);
    if !NeedUrlDecoding(Encoded(path)) {
      DecodingNotNeeded(Encoded(path));
    }
  }

  /** What is read of a path without a question mark and the parameters printed behind it. */
  lemma {:induction false} TargetTaken(n: Message, path: bytes, parameters: map<bytes, bytes>, order: seq<bytes>)
    requires '?' !in path && forall k :: k in order ==> k in parameters
    ensures var query := Encoded(QueryOf(parameters, order));
            WithTarget(n, Encoded(path + ParameterText(parameters, order))) ==
            if order == [] then n.(path := path)
            else n.(path := path, query := query, parameters := WithParameters(n.parameters, Split(query, ['&'])))
  {
    TextOfQuery(parameters, order);
    if order == [] {
      assert path + ParameterText(parameters, order) == path;
      NoQuery(n, path);
    } else {
      QueryBehind(path, QueryOf(parameters, order));
      QueryTaken(n, path, QueryOf(parameters, order));
    }
  }

  lemma QueryBehind(path: bytes, query: bytes)
    ensures path + (['?'] + query) == path + ['?'] + query
  {
  }

  lemma {:induction false} NoQuery(n: Message, path: bytes)
    requires '?' !in path
    ensures WithTarget(n, Encoded(path)) == n.(path := path)
  {
    EncodedKeepsQuestionMarks(path);
    NotFoundWithout(Encoded(path), ['?']);
    PathReadBack(path);
  }

  lemma {:induction false} QueryTaken(n: Message, path: bytes, query: bytes)
    requires '?' !in path
    ensures WithTarget(n, Encoded(path + ['?'] + query)) ==
            n.(path := path, query := Encoded(query),
               parameters := WithParameters(n.parameters, Split(Encoded(query), ['&'])))
  {
    EncodedAround(path, query);
    EncodedKeepsQuestionMarks(path);
    QueryRead(Encoded(path), Encoded(query));
    PathReadBack(path);
  }

  /** A path without a question mark and the clean parameters behind it are read back. */
  lemma {:induction false} TargetReadBack(m: Message, path: bytes, parameters: map<bytes, bytes>, order: seq<bytes>)
    requires path != [] && '?' !in path && m.query == [] && m.parameters == map[]
    requires CleanParameters(parameters) && Lists(order, parameters.Keys)
    ensures var target := path + ParameterText(parameters, order);
            Token(Encoded(target)) &&
            WithTarget(m, Encoded(target)) ==
            m.(path := path, query := QueryOf(parameters, order), parameters := parameters)
  {
    EncodedToken(path + ParameterText(parameters, order));
    TargetTaken(m, path, parameters, order);
    if order == [] {
      NoParameters(parameters);
    } else {
      QueryPasses(parameters, order);
      PassEncoded(QueryOf(parameters, order));
      ParametersReadBack(parameters, order);
    }
  }

  lemma EncodedToken(s: bytes)
    requires s != []
    ensures Token(Encoded(s))
  {
    EncodedHasNoSeparator(s);
  }

  lemma NoParameters(parameters: map<bytes, bytes>)
    requires Lists([], parameters.Keys)
    ensures parameters == map[]
  {
  }

  lemma QueryRead(path: bytes, query: bytes)
    requires '?' !in path
    ensures KeyValue(path + ['?'] + query, '?') == Some((path, query))
  {
    FoundAtEnd(path, ['?'], query);
    var s := path + ['?'] + query;
    assert s[..|path|] == path && s[|path| + 1..] == query;
  }

  lemma {:induction false} CutAtFirst(s: bytes, c: byte) returns (a: bytes, b: bytes)
    requires c in s
    ensures s == a + [c] + b && c !in a
  {
    if s[0] == c {
      a, b := [], s[1..];
    } else {
      assert s == [s[0]] + s[1..];
      a, b := CutAtFirst(s[1..], c);
      a := [s[0]] + a;
    }
  }

  /** Of what is printed before the parameters the part before a question mark comes back as the path. */
  lemma {:induction false} PathOfTarget(n: Message, base: bytes, parameters: map<bytes, bytes>, order: seq<bytes>)
      returns (a: bytes)
    requires forall k :: k in order ==> k in parameters
    ensures WithTarget(n, Encoded(base + ParameterText(parameters, order))).path == a
    ensures '?' !in a && (a == base <==> '?' !in base)
  {
    if '?' in base {
      var b;
      a, b := CutAtFirst(base, '?');
      CutInside(a, b, ParameterText(parameters, order));
      QueryTaken(n, a, b + ParameterText(parameters, order));
    } else {
      a := base;
      TargetTaken(n, base, parameters, order);
    }
  }

  lemma CutInside(a: bytes, b: bytes, text: bytes)
    ensures a + ['?'] + b + text == a + ['?'] + (b + text)
  {
  }

  /** The path comes back as it was, whatever the parameters and their order, exactly if it is not empty and
      holds no question mark: an empty one is printed as "/", the encoder leaves question marks alone, and the
      reader takes what follows the first one for a query. */
  lemma {:induction false} PathReadBackIff(n: Message, m: Message, order: seq<bytes>)
    requires Lists(order, m.parameters.Keys)
    ensures WithTarget(n, Encoded(Target(m, order))).path == m.path <==> m.path != [] && '?' !in m.path
    ensures m.path == [] ==> WithTarget(n, Encoded(Target(m, order))).path == "/"
  {
    var a := PathOfTarget(n, if m.path == [] then ['/'] else m.path, m.parameters, order);
  }

  /** Path and parameters come back together exactly if both are clean. */
  lemma {:induction false} TargetReadBackIff(n: Message, m: Message, order: seq<bytes>)
    requires Lists(order, m.parameters.Keys) && n.parameters == map[]
    ensures var read := WithTarget(n, Encoded(Target(m, order)));
            read.path == m.path && read.parameters == m.parameters <==>
            m.path != [] && '?' !in m.path && CleanParameters(m.parameters)
  {
    PathReadBackIff(n, m, order);
    if m.path != [] && '?' !in m.path {
      ParametersOfTarget(n, m.path, m.parameters, order);
    }
  }

  lemma {:induction false} ParametersOfTarget(n: Message, path: bytes, parameters: map<bytes, bytes>,
      order: seq<bytes>)
    requires Lists(order, parameters.Keys) && n.parameters == map[] && '?' !in path
    ensures WithTarget(n, Encoded(path + ParameterText(parameters, order))).parameters == parameters <==>
            CleanParameters(parameters)
  {
    TargetTaken(n, path, parameters, order);
    if order == [] {
      NoParameters(parameters);
    } else {
      ParametersReadBackIff(parameters, order);
    }
  }

  /** A text is one word exactly if it has no space before its last byte. */
  lemma {:induction false} OneWord(t: bytes)
    ensures |Split(t, [' '])| == 1 <==> t != [] && ' ' !in t[..|t| - 1]
  {
    var found := Find(t, [' ']);
    FoundFirst(t, [' '], found);
    if found.None? {
      forall i | 0 <= i < |t|
        ensures t[i] != ' '
      {
        assert !MatchesAt(t, [' '], i) && t[i..i + 1] == [t[i]];
      }
    } else {
      var n := found.value;
      assert t[n..n + 1] == [t[n]];
      SplitFound(t, [' '], n);
      forall i | 0 <= i < n
        ensures t[i] != ' '
      {
        assert !MatchesAt(t, [' '], i) && t[i..i + 1] == [t[i]];
      }
      assert n + 1 < |t| ==> t[..|t| - 1][n] == ' ';
    }
  }

  /** The parser reads a status line that the program prints exactly if the reason phrase is one word:
      "OK" is, but "Not Found" and every other phrase of two words is refused. */
  lemma {:induction false} StatusLineReadIff(p: Parser, m: Message, reason: bytes)
    requires p.req.None? && m.code < 0x1_0000_0000
    ensures MethodLineRead(p, StatusLine(m, reason)).req.Some? <==> reason != [] && ' ' !in reason[..|reason| - 1]
  {
    VersionToken(m.version);
    CodeReadBack(m.code);
    TwoTokens(VersionName(m.version), Decimal(m.code), reason);
    OneWord(reason);
  }

  // ----- messages that survive printing and parsing

  /** A request with a method other than PATCH, a plain path and clean parameters, or a response with a one-word
      reason. */
  predicate CleanFirstLine(m: Message, reason: bytes) {
    if m.isRequest then
      !m.method_.Patch? && m.path != [] && '?' !in m.path && CleanParameters(m.parameters)
    else
      Token(reason) && m.code < 0x1_0000_0000
  }

  predicate IsLength(name: bytes) {
    SameLetters(name, "Content-Length")
  }

  predicate HasLength(headers: map<bytes, bytes>) {
    exists k :: k in headers && IsLength(k)
  }

  /** The body is as long as the headers say, or there is none and none is expected. */
  predicate CleanBody(m: Message) {
    if HasLength(m.headers) then
      forall k :: k in m.headers && IsLength(k) ==>
        AllDigits(m.headers[k]) && Value(m.headers[k]) == |m.body| < 0x8000_0000
    else
      m.body == [] && if m.isRequest then m.method_ in {Get, Head, Options} else m.code != 200
  }

  ghost predicate Clean(m: Message, style: Style) {
    CleanHead(m, style) && CleanBody(m)
  }

  ghost predicate CleanHead(m: Message, style: Style) {
    Suits(style, m) && CleanFirstLine(m, style.reason) && CleanHeaders(m.headers)
  }

  /** A message that is clean however its maps are listed when it is printed, and short enough. */
  ghost predicate Sendable(m: Message, reason: bytes) {
    CleanFirstLine(m, reason) && CleanHeaders(m.headers) && CleanBody(m) &&
    forall style :: Suits(style, m) && style.reason == reason ==> |HeaderText(m, style)| <= MAX_BODY + 1
  }

  lemma SendableIsClean(m: Message, style: Style)
    requires Sendable(m, style.reason) && Suits(style, m)
    ensures Clean(m, style) && Short(m, style)
  {
  }

  /** The message as the parser builds it: with the query as well as the parameters read from it. */
  function ReadBack(m: Message, style: Style): Message
    requires forall k :: k in style.headers ==> k in m.headers
    requires m.isRequest ==> forall k :: k in style.parameters ==> k in m.parameters
  {
    Message(if m.isRequest then m.method_ else Invalid, if m.version.Http10? then Http10 else Http11,
            if m.isRequest then m.path else [], if m.isRequest then QueryOf(m.parameters, style.parameters) else [],
            SpacedAs(m.headers, style.headers), if m.isRequest then m.parameters else map[], [],
            if m.isRequest then 0 else m.code,
            m.isRequest, false, false)
  }

  function DeliveryOf(m: Message, style: Style): Delivery
    requires forall k :: k in style.headers ==> k in m.headers
    requires m.isRequest ==> forall k :: k in style.parameters ==> k in m.parameters
  {
    Delivery(Some(ReadBack(m, style)), if m.body == [] then None else Some(PacketValue(|m.body|, m.body)))
  }

  lemma {:induction false} FirstLineReadBack(p: Parser, m: Message, style: Style)
    requires CleanHead(m, style)
    ensures var line := FirstLine(m, style);
            Plain(line) && ':' !in line &&
            MethodLineRead(p, line) == p.(isRequest := m.isRequest, req := Some(ReadBack(m, style).(headers := map[])))
  {
    VersionToken(m.version);
    if m.isRequest {
      RequestLineReadBack(p, m, style);
    } else {
      CodeReadBack(m.code);
      ThreeTokens(VersionName(m.version), Decimal(m.code), style.reason);
    }
  }

  lemma {:induction false} RequestLineReadBack(p: Parser, m: Message, style: Style)
    requires CleanHead(m, style) && m.isRequest
    ensures var line := RequestLine(m, style.parameters);
            Plain(line) && ':' !in line &&
            MethodLineRead(p, line) == p.(isRequest := true, req := Some(ReadBack(m, style).(headers := map[])))
  {
    VersionToken(m.version);
    MethodToken(m.method_);
    RequestTokensReadBack(m, style);
    TokensInLine(MethodName(m.method_), Encoded(Target(m, style.parameters)), VersionName(m.version));
  }

  lemma {:induction false} TokensInLine(x: bytes, y: bytes, z: bytes)
    requires Token(x) && Token(y) && Token(z)
    ensures var line := x + [' '] + y + [' '] + z + [' '];
            Plain(line) && ':' !in line && Split(line, [' ']) == [x, y, z]
  {
    ThreeTokens(x, y, z);
  }

  lemma {:induction false} RequestTokensReadBack(m: Message, style: Style)
    requires CleanHead(m, style) && m.isRequest
    ensures var target := Encoded(Target(m, style.parameters));
            Token(target) &&
            FirstLineRead(true, [MethodName(m.method_), target, VersionName(m.version)]) ==
            ReadBack(m, style).(headers := map[])
  {
    VersionToken(m.version);
    MethodReadBack(m.method_);
    TargetReadBack(NewMessage(true).(method_ := m.method_), m.path, m.parameters, style.parameters);
  }

  /** A first line is its words: three of a request, each with a space behind it, and two of a response before the
      reason. */
  lemma {:induction false} FirstLineWords(m: Message, style: Style)
    requires Suits(style, m)
    ensures var version := if m.version.Http10? then "HTTP/1.0" else "HTTP/1.1";
            FirstLine(m, style) ==
            if m.isRequest then
              Terminated([MethodName(m.method_), Encoded(Target(m, style.parameters)), version], [' '])
            else Terminated([version, Decimal(m.code)], [' ']) + style.reason
  {
    VersionToken(m.version);
    if m.isRequest {
      ThreeTerminated(MethodName(m.method_), Encoded(Target(m, style.parameters)), VersionName(m.version));
    } else {
      TwoTerminated(VersionName(m.version), Decimal(m.code));
    }
  }

  lemma ThreeTerminated(x: bytes, y: bytes, z: bytes)
    ensures Terminated([x, y, z], [' ']) == x + [' '] + y + [' '] + z + [' ']
  {
    TwoTerminated(y, z);
    assert [x, y, z][1..] == [y, z];
    assert x + [' '] + (y + [' '] + z + [' ']) == x + [' '] + y + [' '] + z + [' '];
  }

  lemma TwoTerminated(x: bytes, y: bytes)
    ensures Terminated([x, y], [' ']) == x + [' '] + y + [' ']
  {
    assert [x, y][1..] == [y] && [y][1..] == [];
    assert Terminated([y], [' ']) == y + [' '];
    assert x + [' '] + (y + [' ']) == x + [' '] + y + [' '];
  }

  /** Of any request, whatever the order of its parameters, the line printed is read as a request, and gives its
      method, path and parameters back exactly if the method is not PATCH, the path is not empty and has no
      question mark, and the parameters are clean. */
  lemma {:induction false} RequestLineReadIff(p: Parser, m: Message, order: seq<bytes>)
    requires Lists(order, m.parameters.Keys)
    ensures var read := MethodLineRead(p, RequestLine(m, order)).req;
            read.Some? && read.value.isRequest &&
            (read.value.method_ == m.method_ && read.value.path == m.path && read.value.parameters == m.parameters <==>
             !m.method_.Patch? && m.path != [] && '?' !in m.path && CleanParameters(m.parameters))
  {
    RequestLineRead(p, m, order);
    MethodReadBack(m.method_);
    TargetReadBackIff(NewMessage(true).(method_ := ParseMethod(MethodName(m.method_))), m, order);
  }

  lemma {:induction false} RequestLineRead(p: Parser, m: Message, order: seq<bytes>)
    requires forall k :: k in order ==> k in m.parameters
    ensures var n := NewMessage(true).(method_ := ParseMethod(MethodName(m.method_)));
            MethodLineRead(p, RequestLine(m, order)).req ==
            Some(WithTarget(n, Encoded(Target(m, order))).(version := VersionOf(VersionName(m.version))))
  {
    VersionToken(m.version);
    MethodToken(m.method_);
    EncodedToken(Target(m, order));
    TokensInLine(MethodName(m.method_), Encoded(Target(m, order)), VersionName(m.version));
  }

  // ----- the header section

  ghost function AllLines(m: Message, style: Style): seq<bytes>
    requires Suits(style, m)
  {
    [FirstLine(m, style)] + LinesOf(m.headers, style.headers)
  }

  lemma HeaderTextTerminated(m: Message, style: Style)
    requires Suits(style, m)
    ensures HeaderText(m, style) == Terminated(AllLines(m, style), CRLF) + CRLF
  {
    HeaderLinesTerminated(m.headers, style.headers);
    assert AllLines(m, style)[1..] == LinesOf(m.headers, style.headers);
  }

  lemma LinesArePlain(p: Parser, m: Message, style: Style)
    requires CleanHead(m, style)
    ensures forall i :: 0 <= i < |AllLines(m, style)| ==> Plain(AllLines(m, style)[i])
  {
    FirstLineReadBack(p, m, style);
    var lines := LinesOf(m.headers, style.headers);
    forall i | 0 <= i < |lines|
      ensures Plain(lines[i])
    {
      assert style.headers[i] in m.headers;
    }
  }

  /** The text before the blank line. */
  ghost function Section(lines: seq<bytes>): bytes
    requires lines != []
  {
    Terminated(lines[..|lines| - 1], CRLF) + lines[|lines| - 1]
  }

  lemma {:induction false} SectionFound(lines: seq<bytes>, more: bytes)
    requires lines != [] && forall i :: 0 <= i < |lines| ==> Plain(lines[i])
    ensures var s := Terminated(lines, CRLF) + CRLF + more;
            s == Section(lines) + CRLFCRLF + more && Find(s, CRLFCRLF) == Some(|Section(lines)|)
    ensures Split(Section(lines), CRLF) == lines
  {
    BlankLineFound(lines, more);
    SectionEnds(lines, more);
    SplitTerminated(lines[..|lines| - 1], CRLF, lines[|lines| - 1]);
    LastBehind(lines);
  }

  lemma LastBehind(lines: seq<bytes>)
    requires lines != []
    ensures lines[..|lines| - 1] + [lines[|lines| - 1]] == lines
  {
  }

  lemma {:induction false} SectionEnds(lines: seq<bytes>, more: bytes)
    requires lines != []
    ensures Terminated(lines, CRLF) == Section(lines) + CRLF
    ensures Terminated(lines, CRLF) + CRLF + more == Section(lines) + CRLFCRLF + more
  {
    var before, last := lines[..|lines| - 1], lines[|lines| - 1];
    assert lines == before + [last];
    TerminatedSnoc(before, last, CRLF);
    assert CRLF + CRLF == CRLFCRLF;
  }

  /** The parser between messages. */
  predicate Fresh(p: Parser) {
    p.state.ExpectHeaders? && Ready(p)
  }

  /** And with nothing left of the last one. */
  predicate Cleared(p: Parser) {
    Fresh(p) && p.req.None? && p.header == [] && p.contentLength == -1
  }

  lemma LowerCaseName(s: bytes)
    requires forall i :: 0 <= i < |s| ==> ToLower(s[i]) == s[i]
    ensures Lower(s) == s
  {
  }

  lemma KnownNames()
    ensures Lower(CONTENT_LENGTH) == CONTENT_LENGTH && Lower(TRANSFER_ENCODING) == TRANSFER_ENCODING
  {
    LowerCaseName(CONTENT_LENGTH);
    LowerCaseName(TRANSFER_ENCODING);
  }

  lemma {:induction false} LengthNames(name: bytes)
    ensures IsLength(name) <==> Lower(name) == CONTENT_LENGTH
  {
    KnownNames();
    LowerIff(CONTENT_LENGTH, "Content-Length");
    LowerIff(name, "Content-Length");
  }

  lemma KnownHeaders(h: map<bytes, bytes>)
    ensures HeaderOf(h, CONTENT_LENGTH) == if CONTENT_LENGTH in h then h[CONTENT_LENGTH] else []
    ensures HeaderOf(h, TRANSFER_ENCODING) == if TRANSFER_ENCODING in h then h[TRANSFER_ENCODING] else []
  {
    KnownNames();
  }

  /** Some header that announces a length is what is found, if there is one. */
  lemma {:induction false} LengthFound(headers: map<bytes, bytes>, order: seq<bytes>) returns (k: bytes)
    requires Lists(order, headers.Keys)
    ensures var v := HeaderOf(SpacedAs(headers, order), CONTENT_LENGTH);
            if HasLength(headers) then k in headers && IsLength(k) && v == [' '] + headers[k] else v == []
  {
    KnownHeaders(SpacedAs(headers, order));
    SpacedFrom(headers, order, CONTENT_LENGTH);
    forall n
      ensures IsLength(n) <==> Lower(n) == CONTENT_LENGTH
    {
      LengthNames(n);
    }
    if HasLength(headers) {
      k :| k in order && Lower(k) == CONTENT_LENGTH &&
           SpacedAs(headers, order)[CONTENT_LENGTH] == [' '] + headers[k];
    } else {
      k := [];
    }
  }

  lemma {:induction false} LengthReadBack(m: Message, order: seq<bytes>)
    requires CleanBody(m) && Lists(order, m.headers.Keys)
    ensures var v := HeaderOf(SpacedAs(m.headers, order), CONTENT_LENGTH);
            if HasLength(m.headers) then v != [] && Stoull(v) == Some(|m.body|) && ToInt32(|m.body|) == |m.body|
            else v == []
  {
    var k := LengthFound(m.headers, order);
    if HasLength(m.headers) {
      LengthRead(m.headers[k], |m.body|);
    }
  }

  lemma LengthRead(digits: bytes, n: nat)
    requires AllDigits(digits) && Value(digits) == n < 0x8000_0000
    ensures [' '] + digits != [] && Stoull([' '] + digits) == Some(n) && ToInt32(n) == n
  {
    StoullReads(digits);
  }

  lemma {:induction false} NotChunked(headers: map<bytes, bytes>, order: seq<bytes>)
    requires forall k :: k in order ==> k in headers
    ensures HeaderOf(SpacedAs(headers, order), TRANSFER_ENCODING) != CHUNKED
  {
    SpacedFrom(headers, order, Lower(TRANSFER_ENCODING));
    var v := HeaderOf(SpacedAs(headers, order), TRANSFER_ENCODING);
    if v != [] {
      assert v[0] == ' ';
    }
  }

  /** After the headers the message is complete, or its body is expected. */
  lemma {:induction false} FramedReadBack(p: Parser, m: Message, style: Style)
    requires Suits(style, m) && CleanBody(m) && p.isRequest == m.isRequest
    ensures var p' := Framed(p, ReadBack(m, style));
            p'.req == Some(ReadBack(m, style)) && p'.isChunked == p.isChunked && p'.chunk == p.chunk &&
            if m.body == [] then p'.state.ExpectHttpComplete?
            else p'.state.ExpectNormalBody? && p'.contentLength == |m.body|
  {
    LengthReadBack(m, style.headers);
    NotChunked(m.headers, style.headers);
  }

  lemma HeaderTextShape(p: Parser, m: Message, style: Style, more: bytes) returns (section: bytes)
    requires CleanHead(m, style)
    ensures section != [] && |HeaderText(m, style)| == |section| + 4
    ensures HeaderText(m, style) + more == section + CRLFCRLF + more
    ensures Find(section + CRLFCRLF + more, CRLFCRLF) == Some(|section|)
    ensures Split(section, CRLF) == AllLines(m, style)
  {
    var lines := AllLines(m, style);
    HeaderTextTerminated(m, style);
    LinesArePlain(p, m, style);
    SectionFound(lines, more);
    section := Section(lines);
  }

  /** The parser with the first line of a printed message read. */
  function Begun(p: Parser, section: bytes, m: Message, style: Style): Parser
    requires forall k :: k in style.headers ==> k in m.headers
    requires m.isRequest ==> forall k :: k in style.parameters ==> k in m.parameters
  {
    p.(header := section, isRequest := m.isRequest, req := Some(ReadBack(m, style).(headers := map[])))
  }

  /** The call that reads the header section of a printed message. */
  lemma HeadCall(p: Parser, m: Message, style: Style, more: bytes) returns (section: bytes)
    requires Fresh(p) && CleanHead(m, style)
    ensures var p' := Framed(Begun(p, section, m, style), ReadBack(m, style));
            Parsed(p, HeaderText(m, style) + more) == Done(p', more, p'.state)
    ensures Find(HeaderText(m, style) + more, CRLFCRLF) == Some(|HeaderText(m, style)| - 4)
    ensures |HeaderText(m, style)| > 4
  {
    section := HeaderTextShape(p, m, style, more);
    HeadersReadOf(p.(header := section), m, style);
    SectionCall(p, section, more, Framed(Begun(p, section, m, style), ReadBack(m, style)));
  }

  lemma HeaderCall(p: Parser, m: Message, style: Style, more: bytes) returns (p': Parser)
    requires Fresh(p) && Clean(m, style)
    ensures Parsed(p, HeaderText(m, style) + more) == Done(p', more, p'.state)
    ensures p'.req == Some(ReadBack(m, style)) && Ready(p')
    ensures if m.body == [] then p'.state.ExpectHttpComplete?
            else p'.state.ExpectNormalBody? && p'.contentLength == |m.body|
    ensures Find(HeaderText(m, style) + more, CRLFCRLF) == Some(|HeaderText(m, style)| - 4)
    ensures |HeaderText(m, style)| > 4
  {
    var section := HeadCall(p, m, style, more);
    FramedReadBack(Begun(p, section, m, style), m, style);
    p' := Framed(Begun(p, section, m, style), ReadBack(m, style));
  }

  lemma SectionCall(p: Parser, section: bytes, more: bytes, p': Parser)
    requires p.state.ExpectHeaders? && section != [] && HeadersRead(p.(header := section)) == Some(p')
    requires Find(section + CRLFCRLF + more, CRLFCRLF) == Some(|section|)
    ensures Parsed(p, section + CRLFCRLF + more) == Done(p', more, p'.state)
  {
    SectionSlices(section, more);
  }

  lemma SectionSlices(section: bytes, more: bytes)
    ensures var s := section + CRLFCRLF + more;
            s[..|section|] == section && s[|section| + 4..] == more
  {
  }

  lemma {:induction false} HeaderMapRead(m: Message, style: Style)
    requires Suits(style, m) && CleanHeaders(m.headers) && ':' !in FirstLine(m, style)
    ensures WithHeaders(map[], AllLines(m, style)) == SpacedAs(m.headers, style.headers)
  {
    HeadersReadBack(FirstLine(m, style), m.headers, style.headers);
  }

  lemma {:induction false} HeadersReadOf(p: Parser, m: Message, style: Style)
    requires CleanHead(m, style) && Split(p.header, CRLF) == AllLines(m, style)
    ensures HeadersRead(p) == Some(Framed(Begun(p, p.header, m, style), ReadBack(m, style)))
  {
    FirstLineReadBack(p, m, style);
    HeaderMapRead(m, style);
  }

  // ----- whole messages

  /** A message without a body is read in one call. */
  lemma {:induction false} BodilessMessage(p: Parser, m: Message, style: Style, more: bytes) returns (next: Parser)
    requires Fresh(p) && Clean(m, style) && m.body == []
    ensures Cleared(next) && |more| < |Printed(m, style) + more|
    ensures ParserCall(p, Printed(m, style) + more) == Went(next, more, [DeliveryOf(m, style)])
    ensures Find(Printed(m, style) + more, CRLFCRLF) == Some(|HeaderText(m, style)| - 4)
  {
    BodilessText(m, style);
    var p' := HeaderCall(p, m, style, more);
    CompleteCall(p, Printed(m, style) + more, p', more);
    next := ClearedForNextHttp(p');
  }

  lemma BodilessText(m: Message, style: Style)
    requires Suits(style, m) && m.body == []
    ensures Printed(m, style) == HeaderText(m, style)
  {
  }

  lemma {:induction false} CompleteCall(p: Parser, s: bytes, p': Parser, rest: bytes)
    requires Parsed(p, s) == Done(p', rest, p'.state) && |rest| < |s| && p'.state.ExpectHttpComplete?
    ensures ParserCall(p, s) == Went(ClearedForNextHttp(p'), rest, [Delivery(p'.req, p'.chunk)])
  {
    CallOf(p, s, p', rest);
  }

  /** A message with a body is read in two. */
  lemma {:induction false} BodyMessage(p: Parser, m: Message, style: Style, more: bytes)
      returns (p': Parser, next: Parser)
    requires Fresh(p) && Clean(m, style) && m.body != []
    ensures Cleared(next) && |more| < |m.body + more| < |Printed(m, style) + more|
    ensures ParserCall(p, Printed(m, style) + more) == Went(p', m.body + more, []) && !p'.state.ExpectHeaders?
    ensures ParserCall(p', m.body + more) == Went(next, more, [DeliveryOf(m, style)])
    ensures Find(Printed(m, style) + more, CRLFCRLF) == Some(|HeaderText(m, style)| - 4)
  {
    var rest := m.body + more;
    assert Printed(m, style) + more == HeaderText(m, style) + rest;
    p' := HeaderCall(p, m, style, rest);
    CallOf(p, HeaderText(m, style) + rest, p', rest);
    next := BodyCall(p', m, style, more);
  }

  lemma {:induction false} CallOf(p: Parser, s: bytes, p': Parser, rest: bytes)
    requires Parsed(p, s) == Done(p', rest, p'.state) && |rest| < |s|
    ensures var (next, out) := Handed(p', p'.state); ParserCall(p, s) == Went(next, rest, out)
  {
  }

  lemma {:induction false} BodyCall(p: Parser, m: Message, style: Style, more: bytes) returns (next: Parser)
    requires Suits(style, m) && Ready(p) && p.state.ExpectNormalBody? && p.contentLength == |m.body| > 0
    requires p.req == Some(ReadBack(m, style))
    ensures Cleared(next) && ParserCall(p, m.body + more) == Went(next, more, [DeliveryOf(m, style)])
  {
    var s := m.body + more;
    assert s[..|m.body|] == m.body && s[|m.body|..] == more && [] + m.body == m.body;
    next := ClearedForNextHttp(NormalBodyRead(p, s).parser);
  }

  /** A header section within the limit, its blank line not counted but for one byte. */
  ghost predicate Short(m: Message, style: Style)
    requires Suits(style, m)
  {
    |HeaderText(m, style)| <= MAX_BODY + 1
  }

  /** A printed message, read from a fresh parser, is handed on as it was and leaves the parser fresh. */
  lemma {:induction false} MessageRead(p: Parser, m: Message, style: Style, more: bytes) returns (next: Parser)
    requires Fresh(p) && Clean(m, style)
    ensures Cleared(next)
    ensures Driven(ParserCall, p, Printed(m, style) + more) ==
            Prefixed([DeliveryOf(m, style)], Driven(ParserCall, next, more))
    ensures Short(m, style) && Fits(next, more) ==> Fits(p, Printed(m, style) + more)
  {
    var s := Printed(m, style) + more;
    if m.body == [] {
      next := BodilessMessage(p, m, style, more);
      DrivenWent(ParserCall, p, s, next, more, [DeliveryOf(m, style)]);
    } else {
      var p';
      p', next := BodyMessage(p, m, style, more);
      DrivenWent(ParserCall, p, s, p', m.body + more, []);
      DrivenWent(ParserCall, p', m.body + more, next, more, [DeliveryOf(m, style)]);
      PrefixedTwice([], [DeliveryOf(m, style)], Driven(ParserCall, next, more));
      assert [] + [DeliveryOf(m, style)] == [DeliveryOf(m, style)];
    }
  }

  type Sending = (Message, Style)

  ghost predicate AllClean(sent: seq<Sending>) {
    forall i :: 0 <= i < |sent| ==> Clean(sent[i].0, sent[i].1)
  }

  ghost predicate AllShort(sent: seq<Sending>)
    requires AllClean(sent)
  {
    forall i :: 0 <= i < |sent| ==> Short(sent[i].0, sent[i].1)
  }

  /** The messages on the wire, one right after the other. */
  ghost function Stream(sent: seq<Sending>): bytes
    requires AllClean(sent)
  {
    if sent == [] then [] else Printed(sent[0].0, sent[0].1) + Stream(sent[1..])
  }

  lemma {:induction false} StreamCons(x: Sending, others: seq<Sending>)
    requires Clean(x.0, x.1) && Short(x.0, x.1) && AllClean(others) && AllShort(others)
    ensures AllClean([x] + others) && AllShort([x] + others)
    ensures Stream([x] + others) == Printed(x.0, x.1) + Stream(others)
  {
    assert ([x] + others)[1..] == others;
  }

  ghost function Deliveries(sent: seq<Sending>): (r: seq<Delivery>)
    requires AllClean(sent)
    ensures |r| == |sent| && forall i :: 0 <= i < |r| ==> r[i] == DeliveryOf(sent[i].0, sent[i].1)
  {
    seq(|sent|, i requires 0 <= i < |sent| => DeliveryOf(sent[i].0, sent[i].1))
  }

  lemma {:induction false} StreamDelivered(p: Parser, sent: seq<Sending>) returns (last: Parser)
    requires Fresh(p) && AllClean(sent)
    ensures Fresh(last) && Driven(ParserCall, p, Stream(sent)) == Progress(last, [], Deliveries(sent), true)
    ensures sent != [] ==> Cleared(last)
    ensures AllShort(sent) ==> Fits(p, Stream(sent))
    decreases |sent|
  {
    if sent == [] {
      last := p;
      NothingToRead(p);
    } else {
      var first, others := Printed(sent[0].0, sent[0].1), Stream(sent[1..]);
      var next := MessageRead(p, sent[0].0, sent[0].1, others);
      last := StreamDelivered(next, sent[1..]);
      ReadFirst(ParserCall, p, first + others, DeliveryOf(sent[0].0, sent[0].1), next, others,
                Progress(last, [], Deliveries(sent[1..]), true));
      DeliveriesSplit(sent);
    }
  }

  lemma DeliveriesSplit(sent: seq<Sending>)
    requires sent != [] && AllClean(sent)
    ensures Deliveries(sent) == [DeliveryOf(sent[0].0, sent[0].1)] + Deliveries(sent[1..])
  {
  }

  lemma NothingToRead(p: Parser)
    ensures Driven(ParserCall, p, []) == Progress(p, [], [], true) && Fits(p, [])
  {
    assert ParserCall(p, []) == Stopped(p);
  }

  /** End to end: any messages, printed and sent in sequence, read in any pieces, are handed on one by
      one as they were, with nothing left over and the parser ready for more. */
  lemma EndToEnd(p: Parser, sent: seq<Sending>, fragments: seq<bytes>) returns (last: Parser)
    requires Fresh(p) && AllClean(sent) && AllShort(sent)
    requires fragments != [] && Concat(fragments) == Stream(sent)
    ensures Fresh(last) && (sent != [] ==> Cleared(last))
    ensures Fed(ParserCall, p, [], fragments) == Progress(last, [], Deliveries(sent), true)
  {
    last := StreamDelivered(p, sent);
    assert [] + Concat(fragments) == Stream(sent);
    Framing.ReadsDoNotMatter(p, [], fragments);
  }
}
