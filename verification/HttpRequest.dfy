/** A request or response: its fields, how it is printed, and how its parts are read back. */
module HttpRequest {
  import opened Bytes
  import StringUtils
  import opened HttpUtils

  datatype Version = Unknown | Http10 | Http11

  /** The value of a message object. */
  datatype Message = Message(method_: HttpMethod, version: Version, path: bytes, query: bytes,
                             headers: map<bytes, bytes>, parameters: map<bytes, bytes>, body: bytes, code: nat,
                             isRequest: bool, isStream: bool, isChunked: bool)

  function NewMessage(isRequest: bool): Message {
    Message(Invalid, Version.Unknown, [], [], map[], map[], [], 0, isRequest, false, false)
  }

  // ----- printing

  /** A map is printed in the order of its buckets; `order` is any order of its keys. */
  ghost predicate Lists(order: seq<bytes>, keys: set<bytes>) {
    (forall k :: k in keys <==> k in order) && forall i, j :: 0 <= i < j < |order| ==> order[i] != order[j]
  }

  function HeaderLine(k: bytes, v: bytes): bytes {
    k + [':', ' '] + v
  }

  function HeaderLines(headers: map<bytes, bytes>, order: seq<bytes>): bytes
    requires forall k :: k in order ==> k in headers
  {
    if order == [] then []
    else
      var k := order[|order| - 1];
      HeaderLines(headers, order[..|order| - 1]) + HeaderLine(k, headers[k]) + CRLF
  }

  function ParameterText(parameters: map<bytes, bytes>, order: seq<bytes>): bytes
    requires forall k :: k in order ==> k in parameters
  {
    if order == [] then []
    else
      var k := order[|order| - 1];
      ParameterText(parameters, order[..|order| - 1]) + (if |order| == 1 then ['?'] else ['&']) +
      k + ['='] + parameters[k]
  }

  function VersionName(v: Version): bytes {
    if v.Http10? then ['H', 'T', 'T', 'P', '/', '1', '.', '0'] else ['H', 'T', 'T', 'P', '/', '1', '.', '1']
  }

  function Target(m: Message, order: seq<bytes>): bytes
    requires forall k :: k in order ==> k in m.parameters
  {
    (if m.path == [] then ['/'] else m.path) + ParameterText(m.parameters, order)
  }

  function RequestLine(m: Message, order: seq<bytes>): bytes
    requires forall k :: k in order ==> k in m.parameters
  {
    MethodName(m.method_) + [' '] + Encoded(Target(m, order)) + [' '] + VersionName(m.version) + [' ']
  }

  function Decimal(n: nat): (r: bytes)
    ensures |r| > 0
  {
    (if n < 10 then [] else Decimal(n / 10)) + ['0' + (n % 10) as char]
  }

  function StatusLine(m: Message, reason: bytes): bytes {
    VersionName(m.version) + [' '] + Decimal(m.code) + [' '] + reason
  }

  /** How a message is printed: the reason phrase comes from a table of its own, and the two maps
      are listed in some order. */
  datatype Style = Style(reason: bytes, parameters: seq<bytes>, headers: seq<bytes>)

  ghost predicate Suits(style: Style, m: Message) {
    Lists(style.headers, m.headers.Keys) && (m.isRequest ==> Lists(style.parameters, m.parameters.Keys))
  }

  function FirstLine(m: Message, style: Style): bytes
    requires m.isRequest ==> forall k :: k in style.parameters ==> k in m.parameters
  {
    if m.isRequest then RequestLine(m, style.parameters) else StatusLine(m, style.reason)
  }

  ghost function HeaderText(m: Message, style: Style): bytes
    requires Suits(style, m)
  {
    FirstLine(m, style) + CRLF + HeaderLines(m.headers, style.headers) + CRLF
  }

  ghost function Printed(m: Message, style: Style): bytes
    requires Suits(style, m)
  {
    HeaderText(m, style) + m.body
  }

  /** `text` is a header text of `m`, with the maps in some order. */
  ghost predicate PrintsHeaders(text: bytes, m: Message, reason: bytes) {
    exists style :: Suits(style, m) && style.reason == reason && text == HeaderText(m, style)
  }

  ghost predicate Prints(text: bytes, m: Message, reason: bytes) {
    exists style :: Suits(style, m) && style.reason == reason && text == Printed(m, style)
  }

  // ----- reading

  /** Of a version of eight bytes the last one decides, whatever stands before it. */
  function VersionOf(v: bytes): Version {
    if |v| != 8 then Version.Unknown
    else if v[7] == '1' then Http11 else if v[7] == '0' then Http10 else Version.Unknown
  }

  function PathOf(path: bytes): bytes {
    if NeedUrlDecoding(path) then Decoded(path) else path
  }

  function TrimLeft(s: bytes): bytes {
    if s != [] && IsSpace(s[0]) then TrimLeft(s[1..]) else s
  }

  function TrimRight(s: bytes): bytes {
    if s != [] && IsSpace(s[|s| - 1]) then TrimRight(s[..|s| - 1]) else s
  }

  function Trim(s: bytes): bytes {
    TrimLeft(TrimRight(s))
  }

  /** Trimming takes away the white space at both ends and nothing else. */
  lemma {:induction false} TrimIs(before: bytes, s: bytes, behind: bytes)
    requires AllBlank(before) && AllBlank(behind) && (s == [] || (!Blank(s[0]) && !Blank(s[|s| - 1])))
    ensures Trim(before + (s + behind)) == s
  {
    if s == [] {
      TrimBlank(before + behind);
      assert before + (s + behind) == before + behind;
    } else {
      TrimRightIs(before + s, behind);
      TrimLeftIs(before, s);
      assert before + (s + behind) == before + s + behind;
    }
  }

  lemma {:induction false} TrimLeftIs(before: bytes, s: bytes)
    requires AllBlank(before) && (s == [] || !Blank(s[0]))
    ensures TrimLeft(before + s) == s
  {
    if before == [] {
      assert before + s == s;
    } else {
      assert (before + s)[1..] == before[1..] + s;
      TrimLeftIs(before[1..], s);
    }
  }

  lemma {:induction false} TrimRightIs(s: bytes, behind: bytes)
    requires AllBlank(behind) && (s == [] || !Blank(s[|s| - 1]))
    ensures TrimRight(s + behind) == s
  {
    if behind == [] {
      assert s + behind == s;
    } else {
      assert (s + behind)[..|s + behind| - 1] == s + behind[..|behind| - 1];
      TrimRightIs(s, behind[..|behind| - 1]);
    }
  }

  lemma {:induction false} TrimBlank(s: bytes)
    requires AllBlank(s)
    ensures Trim(s) == []
  {
    TrimRightIs([], s);
    assert [] + s == s;
  }

  /** The key and value around the first `sep`, if there is one. */
  ghost function KeyValue(s: bytes, sep: byte): Option<(bytes, bytes)> {
    match Find(s, [sep])
    case None => None
    case Some(n) => Some((s[..n], s[n + 1..]))
  }

  ghost function WithParameters(parameters: map<bytes, bytes>, pieces: seq<bytes>): map<bytes, bytes> {
    if pieces == [] then parameters
    else
      var before := WithParameters(parameters, pieces[..|pieces| - 1]);
      match KeyValue(pieces[|pieces| - 1], '=')
      case None => before
      case Some((k, v)) => before[Trim(k) := Trim(v)]
  }

  /** Every line with a colon, the first one included, adds a header under its lower-case name. */
  ghost function WithHeaders(headers: map<bytes, bytes>, lines: seq<bytes>): map<bytes, bytes> {
    if lines == [] then headers
    else
      var before := WithHeaders(headers, lines[..|lines| - 1]);
      match KeyValue(lines[|lines| - 1], ':')
      case None => before
      case Some((k, v)) => before[Lower(k) := v]
  }

  lemma {:induction false} KeyValueIff(s: bytes, sep: byte, k: bytes, v: bytes)
    ensures KeyValue(s, sep) == Some((k, v)) <==> s == k + [sep] + v && sep !in k
    ensures KeyValue(s, sep).None? <==> sep !in s
  {
    var found := Find(s, [sep]);
    FoundFirst(s, [sep], found);
    forall i: nat
      ensures MatchesAt(s, [sep], i) <==> i < |s| && s[i] == sep
    {
      assert i < |s| ==> s[i..i + 1] == [s[i]];
    }
    if s == k + [sep] + v && sep !in k {
      assert s[|k|] == sep && forall i :: 0 <= i < |k| ==> s[i] == k[i];
      assert found == Some(|k|) && s[..|k|] == k && s[|k| + 1..] == v;
    }
    if found.Some? {
      var n := found.value;
      assert s == s[..n] + [sep] + s[n + 1..];
    }
  }

  /** Of the fields read one after the other, the `i`-th is the last one of its name. */
  ghost predicate LastNamed(fields: seq<Option<(bytes, bytes)>>, i: nat, k: bytes, v: bytes) {
    i < |fields| && fields[i] == Some((k, v)) &&
    forall j :: i < j < |fields| && fields[j].Some? ==> fields[j].value.0 != k
  }

  ghost function HeaderField(line: bytes): Option<(bytes, bytes)> {
    match KeyValue(line, ':')
    case None => None
    case Some((k, v)) => Some((Lower(k), v))
  }

  ghost function HeaderFields(lines: seq<bytes>): (r: seq<Option<(bytes, bytes)>>)
    ensures |r| == |lines| && forall i :: 0 <= i < |r| ==> r[i] == HeaderField(lines[i])
  {
    seq(|lines|, i requires 0 <= i < |lines| => HeaderField(lines[i]))
  }

  /** The headers read: of lines with the same name, in whatever case, the last one counts; lines without a colon
      do not. */
  lemma {:induction false} HeadersReadIff(lines: seq<bytes>, k: bytes, v: bytes)
    ensures var h := WithHeaders(map[], lines);
            k in h && h[k] == v <==> exists i: nat :: LastNamed(HeaderFields(lines), i, k, v)
  {
    if lines != [] {
      var n := |lines| - 1;
      HeadersReadIff(lines[..n], k, v);
      assert HeaderFields(lines)[..n] == HeaderFields(lines[..n]);
      LastNamedStep(HeaderFields(lines), k, v);
    }
  }

  lemma LastNamedStep(fields: seq<Option<(bytes, bytes)>>, k: bytes, v: bytes)
    requires fields != []
    ensures var n := |fields| - 1;
            (exists i: nat :: LastNamed(fields, i, k, v)) <==>
            if fields[n].Some? && fields[n].value.0 == k then fields[n].value.1 == v
            else exists i: nat :: LastNamed(fields[..n], i, k, v)
  {
    var n := |fields| - 1;
    if i: nat :| LastNamed(fields, i, k, v) {
      assert i < n ==> LastNamed(fields[..n], i, k, v);
    }
    if i: nat :| LastNamed(fields[..n], i, k, v) {
      assert !(fields[n].Some? && fields[n].value.0 == k) ==> LastNamed(fields, i, k, v);
    }
    assert fields[n] == Some((k, v)) ==> LastNamed(fields, n, k, v);
  }

  ghost function ParameterField(piece: bytes): Option<(bytes, bytes)> {
    match KeyValue(piece, '=')
    case None => None
    case Some((k, v)) => Some((Trim(k), Trim(v)))
  }

  ghost function ParameterFields(pieces: seq<bytes>): (r: seq<Option<(bytes, bytes)>>)
    ensures |r| == |pieces| && forall i :: 0 <= i < |r| ==> r[i] == ParameterField(pieces[i])
  {
    seq(|pieces|, i requires 0 <= i < |pieces| => ParameterField(pieces[i]))
  }

  /** The parameters read: of pieces with the same name the last one counts; pieces without an equals sign do not. */
  lemma {:induction false} ParametersReadIff(pieces: seq<bytes>, k: bytes, v: bytes)
    ensures var p := WithParameters(map[], pieces);
            k in p && p[k] == v <==> exists i: nat :: LastNamed(ParameterFields(pieces), i, k, v)
  {
    if pieces != [] {
      var n := |pieces| - 1;
      ParametersReadIff(pieces[..n], k, v);
      assert ParameterFields(pieces)[..n] == ParameterFields(pieces[..n]);
      LastNamedStep(ParameterFields(pieces), k, v);
    }
  }

  function HeaderOf(headers: map<bytes, bytes>, field: bytes): bytes {
    if Lower(field) in headers then headers[Lower(field)] else []
  }

  ghost function WithTarget(m: Message, target: bytes): Message {
    match KeyValue(target, '?')
    case None => m.(path := PathOf(target))
    case Some((path, query)) =>
      m.(path := PathOf(path), query := query,
         parameters := WithParameters(m.parameters, StringUtils.Split(query, ['&'])))
  }

  // ----- the object

  class HttpRequest {
    var method_: HttpMethod
    var version_: Version
    var path_: bytes
    var query_: bytes
    var headers_: map<bytes, bytes>
    var parameters_: map<bytes, bytes>
    var body_: bytes
    var code_: nat
    var isRequest_: bool
    var isStream_: bool
    var isChunked_: bool

    function View(): Message
      reads this
    {
      Message(method_, version_, path_, query_, headers_, parameters_, body_, code_, isRequest_, isStream_, isChunked_)
    }

    constructor (isRequest: bool)
      ensures View() == NewMessage(isRequest)
    {
      method_, version_, path_, query_ := Invalid, Version.Unknown, [], [];
      headers_, parameters_, body_ := map[], map[], [];
      code_, isRequest_, isStream_, isChunked_ := 0, isRequest, false, false;
    }

    method AddHeader(field: bytes, value: bytes)
      modifies this`headers_
      ensures headers_ == old(headers_)[Lower(field) := value]
    {
      headers_ := headers_[Lower(field) := value];
    }

    method GetHeader(field: bytes) returns (value: bytes)
      ensures value == HeaderOf(headers_, field)
    {
      var k := Lower(field);
      value := if k in headers_ then headers_[k] else [];
    }

    method SetMethod(name: bytes)
      modifies this`method_
      ensures method_ == ParseMethod(name)
    {
      method_ := ParseMethod(name);
    }

    /** The comparison of six bytes with the seven of "HTTP/1." never finds them equal, so the word before
        the last byte is not looked at. */
    method SetVersion(v: bytes)
      modifies this`version_
      ensures version_ == VersionOf(v)
      ensures version_.Http11? <==> exists word: bytes :: |word| == 7 && v == word + ['1']
      ensures version_.Http10? <==> exists word: bytes :: |word| == 7 && v == word + ['0']
    {
      assert |v| == 8 ==> v == v[..7] + [v[7]];
      version_ := Version.Unknown;
      if |v| == 8 {
        if v[..6] != "HTTP/1." {
          if v[7] == '1' {
            version_ := Http11;
          } else if v[7] == '0' {
            version_ := Http10;
          }
        }
      }
    }

    method SetPath(path: bytes)
      modifies this`path_
      ensures path_ == PathOf(path)
    {
      if NeedUrlDecoding(path) {
        path_ := UrlDecode(path);
      } else {
        path_ := path;
      }
    }

    method SetQuery(query: bytes)
      modifies this`query_, this`parameters_
      ensures query_ == query
      ensures parameters_ == WithParameters(old(parameters_), StringUtils.Split(query, ['&']))
    {
      query_ := query;
      ParseParameters();
    }

    method ParseParameters()
      modifies this`parameters_
      ensures parameters_ == WithParameters(old(parameters_), StringUtils.Split(query_, ['&']))
    {
      var list := StringUtils.SplitString(query_, ['&']);
      for i := 0 to |list|
        invariant parameters_ == WithParameters(old(parameters_), list[..i])
      {
        assert list[..i + 1][..i] == list[..i];
        var l := list[i];
        assert l[0..] == l;
        var pos := Seek(l, ['='], 0);
        if pos.Some? {
          parameters_ := parameters_[Trim(l[..pos.value]) := Trim(l[pos.value + 1..])];
        }
      }
      assert list[..|list|] == list;
    }

    method SetStatusCode(code: nat)
      modifies this`code_
      ensures code_ == code
    {
      code_ := code;
    }

    /** Prints the parameters in the order in which the map yields them. */
    method AppendParameters() returns (text: bytes, ghost order: seq<bytes>)
      ensures Lists(order, parameters_.Keys) && text == ParameterText(parameters_, order)
    {
      text, order := [], [];
      var rest, first := parameters_.Keys, true;
      while rest != {}
        invariant rest <= parameters_.Keys && Lists(order, parameters_.Keys - rest)
        invariant first <==> order == []
        invariant text == ParameterText(parameters_, order)
      {
        var k :| k in rest;
        assert (order + [k])[..|order|] == order;
        if first {
          text := text + ['?'] + k + ['='] + parameters_[k];
        } else {
          text := text + ['&'] + k + ['='] + parameters_[k];
        }
        order, rest, first := order + [k], rest - {k}, false;
      }
    }

    method AppendRequestFirstLine() returns (text: bytes, ghost order: seq<bytes>)
      ensures Lists(order, parameters_.Keys) && text == RequestLine(View(), order) + CRLF
    {
      var parameters;
      parameters, order := AppendParameters();
      var target := (if path_ != [] then path_ else ['/']) + parameters;
      var encoded := UrlEncode(target);
      text := MethodName(method_) + [' '] + encoded + [' '] + VersionName(version_) + [' '] + CRLF;
    }

    method AppendResponseFirstLine(reason: bytes) returns (text: bytes)
      ensures text == StatusLine(View(), reason) + CRLF
    {
      text := VersionName(version_) + [' '] + Decimal(code_) + [' '] + reason + CRLF;
    }

    method AppendHeaders() returns (text: bytes, ghost order: seq<bytes>)
      ensures Lists(order, headers_.Keys) && text == HeaderLines(headers_, order)
    {
      text, order := [], [];
      var rest := headers_.Keys;
      while rest != {}
        invariant rest <= headers_.Keys && Lists(order, headers_.Keys - rest)
        invariant text == HeaderLines(headers_, order)
      {
        var k :| k in rest;
        assert (order + [k])[..|order|] == order;
        text := text + (k + [':', ' '] + headers_[k]) + CRLF;
        order, rest := order + [k], rest - {k};
      }
    }

    method MakeHeaders(reason: bytes) returns (text: bytes)
      ensures PrintsHeaders(text, View(), reason)
    {
      ghost var parameters := [];
      if isRequest_ {
        text, parameters := AppendRequestFirstLine();
      } else {
        text := AppendResponseFirstLine(reason);
      }
      var headers;
      ghost var order;
      headers, order := AppendHeaders();
      text := text + headers + CRLF;
      ghost var style := Style(reason, parameters, order);
      assert Suits(style, View()) && text == HeaderText(View(), style);
    }

    method AppendToBuffer(reason: bytes) returns (text: bytes)
      ensures Prints(text, View(), reason)
    {
      text := MakeHeaders(reason);
      ghost var style :| Suits(style, View()) && style.reason == reason && text == HeaderText(View(), style);
      if body_ != [] {
        text := text + body_;
      }
      assert text == Printed(View(), style);
    }
  }
}
