/** URL encoding, request methods, and the numbers found in header values. */
module HttpUtils {
  import opened Bytes

  // ----- URL encoding

  predicate IsAlnum(c: byte) {
    'A' <= c <= 'Z' || 'a' <= c <= 'z' || IsDigit(c)
  }

  predicate PassesThrough(c: byte) {
    IsAlnum(c) || c in ['-', '_', '.', '!', '~', '*', '\'', '(', ')', '&', '=', '/', '\\', '?']
  }

  function HexDigit(n: nat): byte
    requires n < 16
  {
    if n > 9 then 'A' + (n - 10) as char else '0' + n as char
  }

  function CharToHex(c: byte): bytes {
    [HexDigit(c as int / 16), HexDigit(c as int % 16)]
  }

  function EncodedByte(c: byte): bytes {
    if c == ' ' then ['+'] else if PassesThrough(c) then [c] else ['%'] + CharToHex(c)
  }

  function Encoded(s: bytes): bytes {
    if s == [] then [] else EncodedByte(s[0]) + Encoded(s[1..])
  }

  predicate IsXDigit(c: byte) {
    IsDigit(c) || 'a' <= c <= 'f' || 'A' <= c <= 'F'
  }

  function HexValue(c: byte): nat
    requires IsXDigit(c)
    ensures HexValue(c) < 16
  {
    if IsDigit(c) then c as int - '0' as int
    else if c >= 'a' then c as int - 'a' as int + 10
    else c as int - 'A' as int + 10
  }

  predicate Escaped(s: bytes) {
    |s| > 2 && s[0] == '%' && IsXDigit(s[1]) && IsXDigit(s[2])
  }

  function Decoded(s: bytes): bytes {
    if s == [] then []
    else if s[0] == '+' then [' '] + Decoded(s[1..])
    else if Escaped(s) then [(HexValue(s[1]) * 16 + HexValue(s[2])) as char] + Decoded(s[3..])
    else [s[0]] + Decoded(s[1..])
  }

  predicate NeedUrlDecoding(s: bytes) {
    '+' in s || '%' in s
  }

  method UrlEncode(src: bytes) returns (result: bytes)
    ensures result == Encoded(src)
  {
    result := [];
    assert src[0..] == src;
    for i := 0 to |src|
      invariant result + Encoded(src[i..]) == Encoded(src)
    {
      EncodedStep(result, src, i);
      if src[i] == ' ' {
        result := result + ['+'];
      } else if PassesThrough(src[i]) {
        result := result + [src[i]];
      } else {
        result := result + ['%'];
        result := result + CharToHex(src[i]);
      }
    }
  }

  lemma {:induction false} EncodedStep(result: bytes, s: bytes, i: nat)
    requires i < |s|
    ensures result + Encoded(s[i..]) == result + EncodedByte(s[i]) + Encoded(s[i + 1..])
    ensures !(s[i] == ' ') && !PassesThrough(s[i]) ==>
              result + EncodedByte(s[i]) == result + ['%'] + CharToHex(s[i])
  {
    assert s[i..][1..] == s[i + 1..];
  }

  method UrlDecode(url: bytes) returns (result: bytes)
    ensures result == Decoded(url)
  {
    result := [];
    var i := 0;
    assert url[0..] == url;
    while i < |url|
      invariant i <= |url| && result + Decoded(url[i..]) == Decoded(url)
    {
      DecodedStep(result, url, i);
      var (c, n) := Unit(url, i);
      result := result + [c];
      i := i + n;
    }
  }

  /** The next byte decoded, and how many bytes stand for it. */
  function Unit(url: bytes, i: nat): (r: (byte, nat))
    requires i < |url|
    ensures 0 < r.1 <= |url| - i
  {
    if url[i] == '+' then (' ', 1)
    else if url[i] == '%' && i + 2 < |url| && IsXDigit(url[i + 1]) && IsXDigit(url[i + 2]) then
      ((HexValue(url[i + 1]) * 16 + HexValue(url[i + 2])) as char, 3)
    else (url[i], 1)
  }

  lemma {:induction false} DecodedStep(result: bytes, s: bytes, i: nat)
    requires i < |s|
    ensures result + Decoded(s[i..]) == result + [Unit(s, i).0] + Decoded(s[i + Unit(s, i).1..])
  {
    var t := s[i..];
    assert t[1..] == s[i + 1..];
    if Escaped(t) {
      assert t[3..] == s[i + 3..];
    }
    assert Decoded(t) == [Unit(s, i).0] + Decoded(s[i + Unit(s, i).1..]);
  }

  lemma HexRoundTrip(c: byte)
    ensures var h := CharToHex(c);
            IsXDigit(h[0]) && IsXDigit(h[1]) && HexValue(h[0]) * 16 + HexValue(h[1]) == c as int
  {
    var n := c as int;
    assert n == n / 16 * 16 + n % 16;
  }

  lemma {:induction false} DecodeOne(c: byte, t: bytes)
    ensures Decoded(EncodedByte(c) + t) == [c] + Decoded(t)
  {
    var s := EncodedByte(c) + t;
    if c != ' ' && !PassesThrough(c) {
      HexRoundTrip(c);
      assert s[3..] == t;
    } else {
      assert s[1..] == t;
    }
  }

  lemma {:induction false} DecodeEncode(s: bytes)
    ensures Decoded(Encoded(s)) == s
  {
    if s != [] {
      DecodeOne(s[0], Encoded(s[1..]));
      DecodeEncode(s[1..]);
    }
  }

  /** What may stand in an encoded string. */
  predicate SafeByte(c: byte) {
    PassesThrough(c) || c == '+' || c == '%'
  }

  predicate Safe(s: bytes) {
    forall i :: 0 <= i < |s| ==> SafeByte(s[i])
  }

  lemma EncodedByteIsSafe(c: byte)
    ensures Safe(EncodedByte(c))
  {
    if c != ' ' && !PassesThrough(c) {
      assert SafeByte(HexDigit(c as int / 16)) && SafeByte(HexDigit(c as int % 16));
    }
  }

  lemma {:induction false} EncodedIsSafe(s: bytes)
    ensures Safe(Encoded(s))
  {
    if s != [] {
      EncodedByteIsSafe(s[0]);
      EncodedIsSafe(s[1..]);
    }
  }

  /** An encoded string can stand in a request line: it holds no separator of the message syntax. */
  lemma {:induction false} EncodedHasNoSeparator(s: bytes)
    ensures ' ' !in Encoded(s) && ':' !in Encoded(s) && '\r' !in Encoded(s) && '\n' !in Encoded(s)
  {
    EncodedIsSafe(s);
    OnlySafe(Encoded(s), ' ');
    OnlySafe(Encoded(s), ':');
    OnlySafe(Encoded(s), '\r');
    OnlySafe(Encoded(s), '\n');
  }

  lemma OnlySafe(s: bytes, c: byte)
    requires Safe(s) && !SafeByte(c)
    ensures c !in s
  {
  }

  lemma {:induction false} EncodedKeepsQuestionMarks(s: bytes)
    ensures '?' in Encoded(s) <==> '?' in s
    ensures s != [] ==> Encoded(s) != []
  {
    if s != [] {
      EncodedKeepsQuestionMarks(s[1..]);
      assert s == [s[0]] + s[1..];
      assert '?' in EncodedByte(s[0]) <==> s[0] == '?';
    }
  }

  lemma {:induction false} EncodedConcat(a: bytes, b: bytes)
    ensures Encoded(a + b) == Encoded(a) + Encoded(b)
  {
    if a == [] {
      assert a + b == b;
    } else {
      var c, t := a[0], a[1..];
      EncodedConcat(t, b);
      EncodedCons(c, t + b);
      Assoc([c], t, b);
      assert a == [c] + t;
      Assoc(EncodedByte(c), Encoded(t), Encoded(b));
    }
  }

  lemma Assoc(a: bytes, b: bytes, c: bytes)
    ensures a + (b + c) == a + b + c
  {
  }

  lemma {:induction false} EncodedCons(c: byte, t: bytes)
    ensures Encoded([c] + t) == EncodedByte(c) + Encoded(t)
  {
    assert ([c] + t)[1..] == t;
  }

  /** A question mark stays where it is between the encoded parts. */
  lemma {:induction false} EncodedAround(a: bytes, b: bytes)
    ensures Encoded(a + ['?'] + b) == Encoded(a) + ['?'] + Encoded(b)
  {
    EncodedConcat(a + ['?'], b);
    EncodedConcat(a, ['?']);
    EncodedCons('?', []);
    assert ['?'] + [] == ['?'];
  }

  /** Skipping the decoder when there is nothing to decode changes nothing. */
  lemma {:induction false} DecodingNotNeeded(s: bytes)
    requires !NeedUrlDecoding(s)
    ensures Decoded(s) == s
  {
    if s != [] {
      DecodingNotNeeded(s[1..]);
    }
  }

  // ----- what is encoded, and what else is decoded

  const UPPER_HEX: bytes := "0123456789ABCDEF"
  const LOWER_HEX: bytes := "0123456789abcdef"

  /** The bytes that are printed as they are: capital and small letters, digits and fourteen marks. */
  predicate IsPlain(c: byte) {
    IsUpper(c) || 97 <= c as int <= 122 || 48 <= c as int <= 57 || c in "-_.!~*'()&=/\\?"
  }

  lemma PlainPasses(c: byte)
    ensures PassesThrough(c) <==> IsPlain(c)
  {
    var marks := "-_.!~*'()&=/\\?";
    assert marks == ['-', '_', '.', '!', '~', '*', '\'', '(', ')', '&', '=', '/', '\\', '?'];
  }

  /** A space becomes a plus sign, plain bytes stay, and every other byte becomes a percent sign and its two
      hexadecimal digits in upper case. */
  lemma EncodedByteIs(c: byte)
    ensures EncodedByte(c) ==
            if c == ' ' then ['+']
            else if IsPlain(c) then [c]
            else ['%', UPPER_HEX[c as int / 16], UPPER_HEX[c as int % 16]]
  {
    PlainPasses(c);
  }

  lemma HexDigits(n: nat)
    requires n < 16
    ensures IsXDigit(UPPER_HEX[n]) && HexValue(UPPER_HEX[n]) == n
    ensures IsXDigit(LOWER_HEX[n]) && HexValue(LOWER_HEX[n]) == n
  {
  }

  /** An escape stands for its byte, whichever case its digits have. */
  lemma {:induction false} EscapeDecoded(c: byte, x: byte, y: byte, t: bytes)
    requires x in [UPPER_HEX[c as int / 16], LOWER_HEX[c as int / 16]]
    requires y in [UPPER_HEX[c as int % 16], LOWER_HEX[c as int % 16]]
    ensures Decoded(['%', x, y] + t) == [c] + Decoded(t)
  {
    HexDigits(c as int / 16);
    HexDigits(c as int % 16);
    var s := ['%', x, y] + t;
    assert s[3..] == t && c as int == c as int / 16 * 16 + c as int % 16;
  }

  predicate IsHex(c: byte) {
    c in UPPER_HEX || c in LOWER_HEX
  }

  lemma HexIs(c: byte)
    ensures IsXDigit(c) <==> IsHex(c)
  {
    if IsDigit(c) {
      assert UPPER_HEX[c as int - '0' as int] == c;
    } else if 'a' <= c <= 'f' {
      assert LOWER_HEX[c as int - 'a' as int + 10] == c;
    } else if 'A' <= c <= 'F' {
      assert UPPER_HEX[c as int - 'A' as int + 10] == c;
    }
  }

  /** Of what is not an escape, a plus sign stands for a space and every other byte for itself, a percent sign
      that two hexadecimal digits do not follow included. */
  lemma {:induction false} OtherDecoded(c: byte, t: bytes)
    requires c != '%' || |t| < 2 || !IsHex(t[0]) || !IsHex(t[1])
    ensures Decoded([c] + t) == [if c == '+' then ' ' else c] + Decoded(t)
  {
    var s := [c] + t;
    assert s[1..] == t;
    if |t| >= 2 {
      HexIs(t[0]);
      HexIs(t[1]);
    }
  }

  // ----- request methods

  datatype HttpMethod = Get | Post | Head | Put | Delete | Options | Patch | Invalid

  function ParseMethod(s: bytes): HttpMethod {
    if s == "GET" then Get
    else if s == "PUT" then Put
    else if s == "POST" then Post
    else if s == "HEAD" then Head
    else if s == "DELETE" then Delete
    else if s == "OPTIONS" then Options
    else Invalid
  }

  function MethodName(m: HttpMethod): bytes {
    match m
    case Get => ['G', 'E', 'T']
    case Post => ['P', 'O', 'S', 'T']
    case Head => ['H', 'E', 'A', 'D']
    case Put => ['P', 'U', 'T']
    case Delete => ['D', 'E', 'L', 'E', 'T', 'E']
    case Options => ['O', 'P', 'T', 'I', 'O', 'N', 'S']
    case Patch => ['P', 'A', 'T', 'C', 'H']
    case Invalid => ['U', 'N', 'K', 'N', 'O', 'W']
  }

  /** A printed method is read back, except PATCH, for which the table has no entry. */
  lemma MethodReadBack(m: HttpMethod)
    ensures ParseMethod(MethodName(m)) == m <==> !m.Patch?
  {
  }

  /** The words that are read as methods. */
  lemma MethodWords(s: bytes, m: HttpMethod)
    requires m !in {Patch, Invalid}
    ensures ParseMethod(s) == m <==>
            (s, m) in {("GET", Get), ("PUT", Put), ("POST", Post), ("HEAD", Head), ("DELETE", Delete),
                       ("OPTIONS", Options)}
    ensures ParseMethod(s) != Patch
  {
  }

  // ----- numbers

  const ULLONG_RANGE: nat := 0x1_0000_0000_0000_0000

  function SkipSpaces(s: bytes): bytes {
    if s != [] && IsSpace(s[0]) then SkipSpaces(s[1..]) else s
  }

  function Digits(s: bytes): bytes {
    if s != [] && IsDigit(s[0]) then [s[0]] + Digits(s[1..]) else []
  }

  function Value(digits: bytes): nat {
    if digits == [] then 0
    else
      var last := digits[|digits| - 1];
      Value(digits[..|digits| - 1]) * 10 + (if IsDigit(last) then last as int - '0' as int else 0)
  }

  function Unsigned(s: bytes): bytes {
    if s != [] && s[0] in ['+', '-'] then s[1..] else s
  }

  /** std::stoull: leading spaces and one sign are skipped, what follows the digits is ignored, and
      a negative number wraps around; no digits or too large a number is an exception. */
  function Stoull(s: bytes): Option<nat> {
    var t := SkipSpaces(s);
    var digits := Digits(Unsigned(t));
    var n := Value(digits);
    if digits == [] || n >= ULLONG_RANGE then None
    else if t[0] == '-' then Some((ULLONG_RANGE - n) % ULLONG_RANGE)
    else Some(n)
  }

  /** What is left of a number in 32 bits, the upper half of them taken for negative. */
  function ToInt32(n: nat): (r: int)
    ensures -0x8000_0000 <= r < 0x8000_0000 && (n - r) % 0x1_0000_0000 == 0
  {
    var low := n % 0x1_0000_0000;
    if low < 0x8000_0000 then low else low - 0x1_0000_0000
  }

  /** std::atoi stored in an unsigned 32-bit field: the long in between saturates. */
  function Atoi(s: bytes): nat {
    var t := SkipSpaces(s);
    Narrowed(t != [] && t[0] == '-', Value(Digits(Unsigned(t))))
  }

  function Narrowed(negative: bool, n: nat): (r: nat)
    ensures r < 0x1_0000_0000
    ensures negative ==> (r + if n <= 0x8000_0000_0000_0000 then n else 0) % 0x1_0000_0000 == 0
    ensures !negative ==> (r - if n < 0x8000_0000_0000_0000 then n else -1) % 0x1_0000_0000 == 0
  {
    if negative then
      var low := (if n > 0x8000_0000_0000_0000 then 0 else n % 0x1_0000_0000);
      (0x1_0000_0000 - low) % 0x1_0000_0000
    else (if n > 0x7FFF_FFFF_FFFF_FFFF then 0xFFFF_FFFF else n % 0x1_0000_0000)
  }

  predicate AllDigits(s: bytes) {
    s != [] && forall i :: 0 <= i < |s| ==> IsDigit(s[i])
  }

  lemma {:induction false} DigitsOfDigits(s: bytes)
    requires forall i :: 0 <= i < |s| ==> IsDigit(s[i])
    ensures Digits(s) == s
  {
    if s != [] {
      DigitsOfDigits(s[1..]);
    }
  }

  // ----- any text read as a number

  predicate NoDigitFirst(s: bytes) {
    s == [] || !IsDigit(s[0])
  }

  lemma {:induction false} SpacesSkipped(spaces: bytes, t: bytes)
    requires AllBlank(spaces) && (t == [] || !Blank(t[0]))
    ensures SkipSpaces(spaces + t) == t
  {
    if spaces == [] {
      assert spaces + t == t;
    } else {
      assert (spaces + t)[1..] == spaces[1..] + t;
      SpacesSkipped(spaces[1..], t);
    }
  }

  lemma {:induction false} DigitsTaken(digits: bytes, rest: bytes)
    requires AllDigits(digits) || digits == []
    requires NoDigitFirst(rest)
    ensures Digits(digits + rest) == digits
  {
    if digits == [] {
      assert digits + rest == rest;
    } else {
      assert (digits + rest)[1..] == digits[1..] + rest;
      DigitsTaken(digits[1..], rest);
    }
  }

  /** A number as the library reads it: spaces, a sign or none, digits and anything after them. */
  lemma {:induction false} NumberParts(spaces: bytes, sign: bytes, digits: bytes, rest: bytes)
    requires AllBlank(spaces) && sign in {[], ['+'], ['-']} && (AllDigits(digits) || digits == []) && NoDigitFirst(rest)
    requires sign + digits == [] ==> rest == [] || (rest[0] !in ['+', '-'] && !Blank(rest[0]))
    ensures var t := SkipSpaces(spaces + (sign + (digits + rest)));
            t == sign + (digits + rest) && Unsigned(t) == digits + rest && Digits(Unsigned(t)) == digits
  {
    var t := sign + (digits + rest);
    SpacesSkipped(spaces, t);
    DigitsTaken(digits, rest);
    if sign == [] {
      assert t == digits + rest;
    } else {
      assert t[1..] == digits + rest;
    }
  }

  /** Any text without digits where they are looked for is refused, and so is a number of 2^64 or more; any other
      is read as the number, a negative one as its complement. */
  lemma {:induction false} StoullIs(spaces: bytes, sign: bytes, digits: bytes, rest: bytes)
    requires AllBlank(spaces) && sign in {[], ['+'], ['-']} && (AllDigits(digits) || digits == []) && NoDigitFirst(rest)
    requires sign + digits == [] ==> rest == [] || (rest[0] !in ['+', '-'] && !Blank(rest[0]))
    ensures var r := Stoull(spaces + (sign + (digits + rest))); var n := Value(digits);
            (r.None? <==> digits == [] || 0x1_0000_0000_0000_0000 <= n) &&
            (r.Some? ==> r.value == if sign != ['-'] || n == 0 then n else 0x1_0000_0000_0000_0000 - n)
  {
    NumberParts(spaces, sign, digits, rest);
  }

  /** A status code is read into 32 bits, and a number too large for 64 as the nearest of those. */
  lemma {:induction false} AtoiIs(spaces: bytes, sign: bytes, digits: bytes, rest: bytes)
    requires AllBlank(spaces) && sign in {[], ['+'], ['-']} && (AllDigits(digits) || digits == []) && NoDigitFirst(rest)
    requires sign + digits == [] ==> rest == [] || (rest[0] !in ['+', '-'] && !Blank(rest[0]))
    ensures var r, n := Atoi(spaces + (sign + (digits + rest))), Value(digits);
            r < 0x1_0000_0000 &&
            if sign == ['-'] then (r + if n <= 0x8000_0000_0000_0000 then n else 0) % 0x1_0000_0000 == 0
            else (r - if n < 0x8000_0000_0000_0000 then n else -1) % 0x1_0000_0000 == 0
  {
    NumberParts(spaces, sign, digits, rest);
  }

  /** Every text has such parts. */
  lemma {:induction false} AnyNumberParts(s: bytes) returns (spaces: bytes, sign: bytes, digits: bytes, rest: bytes)
    ensures s == spaces + (sign + (digits + rest))
    ensures AllBlank(spaces) && sign in {[], ['+'], ['-']} && (AllDigits(digits) || digits == []) && NoDigitFirst(rest)
    ensures sign + digits == [] ==> rest == [] || (rest[0] !in ['+', '-'] && !Blank(rest[0]))
    decreases |s|
  {
    if s != [] && IsSpace(s[0]) {
      spaces, sign, digits, rest := AnyNumberParts(s[1..]);
      spaces := [s[0]] + spaces;
      assert s == [s[0]] + s[1..];
    } else {
      spaces, sign := [], [];
      var t := s;
      if s != [] && s[0] in ['+', '-'] {
        sign, t := [s[0]], s[1..];
      }
      digits := Digits(t);
      rest := DigitsFirst(t);
    }
  }

  lemma {:induction false} DigitsFirst(t: bytes) returns (rest: bytes)
    ensures t == Digits(t) + rest && NoDigitFirst(rest) && (AllDigits(Digits(t)) || Digits(t) == [])
  {
    DigitsAre(t);
    rest := t[|Digits(t)|..];
  }

  lemma {:induction false} DigitsAre(t: bytes)
    ensures Digits(t) <= t && NoDigitFirst(t[|Digits(t)|..])
    ensures forall i :: 0 <= i < |Digits(t)| ==> IsDigit(Digits(t)[i])
  {
    if t != [] && IsDigit(t[0]) {
      DigitsAre(t[1..]);
      assert Digits(t)[1..] == Digits(t[1..]);
    }
  }

  /** A plain decimal number after one space is read as its value. */
  lemma {:induction false} StoullReads(digits: bytes)
    requires AllDigits(digits) && Value(digits) < ULLONG_RANGE
    ensures Stoull([' '] + digits) == Some(Value(digits))
  {
    var s := [' '] + digits;
    assert s[1..] == digits;
    assert SkipSpaces(s) == digits;
    assert Unsigned(digits) == digits;
    DigitsOfDigits(digits);
  }
}
