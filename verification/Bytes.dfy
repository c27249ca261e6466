/** Byte strings and searching in them. */
module Bytes {
  type byte = c: char | c as int < 256 witness ' '
  type bytes = seq<byte>

  datatype Option<+T> = None | Some(value: T)

  const CRLF: bytes := ['\r', '\n']
  const CRLFCRLF: bytes := ['\r', '\n', '\r', '\n']

  predicate MatchesAt(s: bytes, pat: bytes, i: nat) {
    i + |pat| <= |s| && s[i..i + |pat|] == pat
  }

  /** `r` is the first position from `i` on at which `pat` occurs, if it does. */
  ghost predicate FirstFrom(s: bytes, pat: bytes, i: nat, r: Option<nat>) {
    match r
    case None => forall k: nat :: i <= k ==> !MatchesAt(s, pat, k)
    case Some(n) => i <= n && MatchesAt(s, pat, n) && forall k: nat :: i <= k < n ==> !MatchesAt(s, pat, k)
  }

  /** The search the program runs. */
  function Search(s: bytes, pat: bytes, i: nat): (r: Option<nat>)
    ensures FirstFrom(s, pat, i, r)
    decreases |s| - i
  {
    if i + |pat| > |s| then None
    else if MatchesAt(s, pat, i) then Some(i)
    else Search(s, pat, i + 1)
  }

  /** The first occurrence. */
  ghost function Find(s: bytes, pat: bytes): (r: Option<nat>)
    ensures r.Some? ==> r.value + |pat| <= |s|
  {
    var found := Search(s, pat, 0);
    assert FirstFrom(s, pat, 0, found);
    var r :| FirstFrom(s, pat, 0, r);
    r
  }

  lemma FoundFirst(s: bytes, pat: bytes, r: Option<nat>)
    ensures Find(s, pat) == r <==> FirstFrom(s, pat, 0, r)
  {
  }

  lemma MatchesInPrefix(a: bytes, b: bytes, pat: bytes, k: nat)
    requires k + |pat| <= |a|
    ensures MatchesAt(a + b, pat, k) <==> MatchesAt(a, pat, k)
  {
    assert (a + b)[k..k + |pat|] == a[k..k + |pat|];
  }

  /** What has been found is found at the same place when more bytes follow. */
  lemma FindInPrefix(a: bytes, b: bytes, pat: bytes)
    requires Find(a, pat).Some?
    ensures Find(a + b, pat) == Find(a, pat)
  {
    forall k: nat | k + |pat| <= |a|
      ensures MatchesAt(a + b, pat, k) <==> MatchesAt(a, pat, k)
    {
      MatchesInPrefix(a, b, pat, k);
    }
    FoundFirst(a + b, pat, Find(a, pat));
  }

  /** Where more bytes complete an occurrence, it reaches into them. */
  lemma FindReachesOver(a: bytes, b: bytes, pat: bytes)
    requires Find(a, pat).None? && Find(a + b, pat).Some?
    ensures Find(a + b, pat).value + |pat| > |a|
  {
    forall k: nat | k + |pat| <= |a|
      ensures !MatchesAt(a + b, pat, k)
    {
      MatchesInPrefix(a, b, pat, k);
      assert !MatchesAt(a, pat, k);
    }
  }

  /** An occurrence is found without looking beyond its end. */
  lemma FindEndsAt(s: bytes, pat: bytes, n: nat)
    requires Find(s, pat) == Some(n)
    ensures Find(s[..n + |pat|], pat) == Some(n)
  {
    var c := s[..n + |pat|];
    forall k: nat | k <= n
      ensures MatchesAt(c, pat, k) <==> MatchesAt(s, pat, k)
    {
      assert c[k..k + |pat|] == s[k..k + |pat|];
    }
    FoundFirst(c, pat, Some(n));
  }

  lemma SliceOfSuffix<T>(s: seq<T>, last: nat, i: nat, j: nat)
    requires i <= j && last + j <= |s|
    ensures s[last..][i..j] == s[last + i..last + j]
  {
    assert forall k :: 0 <= k < j - i ==> s[last..][i..j][k] == s[last + i..last + j][k];
  }

  function Shifted(r: Option<nat>, offset: nat): Option<nat> {
    if r.Some? then Some(offset + r.value) else None
  }

  lemma MatchesShifted(s: bytes, pat: bytes, last: nat, i: nat)
    requires last <= |s|
    ensures MatchesAt(s, pat, last + i) <==> MatchesAt(s[last..], pat, i)
  {
    if last + i + |pat| <= |s| {
      SliceOfSuffix(s, last, i, i + |pat|);
    }
  }

  lemma {:induction false} SearchShifted(s: bytes, pat: bytes, last: nat, i: nat)
    requires last <= |s|
    ensures Search(s, pat, last + i) == Shifted(Search(s[last..], pat, i), last)
    decreases |s| - i
  {
    if last + i + |pat| <= |s| {
      MatchesShifted(s, pat, last, i);
      SearchShifted(s, pat, last, i + 1);
    }
  }

  /** Searching from a position on is searching in what follows it. */
  lemma SearchSuffix(s: bytes, pat: bytes, last: nat)
    requires last <= |s|
    ensures Search(s, pat, last) == Shifted(Find(s[last..], pat), last)
  {
    SearchShifted(s, pat, last, 0);
    FoundFirst(s[last..], pat, Search(s[last..], pat, 0));
  }

  method Seek(s: bytes, pat: bytes, last: nat) returns (r: Option<nat>)
    requires last <= |s|
    ensures r == Shifted(Find(s[last..], pat), last)
  {
    SearchSuffix(s, pat, last);
    r := Search(s, pat, last);
  }

  predicate IsDigit(c: byte) {
    '0' <= c <= '9'
  }

  predicate IsSpace(c: byte) {
    c == ' ' || '\t' <= c <= '\r'
  }

  /** White space by its codes: a space, or from a tab to a carriage return. */
  predicate Blank(c: byte) {
    c as int == 32 || 9 <= c as int <= 13
  }

  predicate AllBlank(s: bytes) {
    forall i :: 0 <= i < |s| ==> Blank(s[i])
  }

  function ToLower(c: byte): byte {
    if 'A' <= c <= 'Z' then c + 32 as char else c
  }

  function Lower(s: bytes): (r: bytes)
    ensures |r| == |s|
  {
    seq(|s|, i requires 0 <= i < |s| => ToLower(s[i]))
  }

  /** The capital letters by their codes. */
  predicate IsUpper(c: byte) {
    65 <= c as int <= 90
  }

  /** The same byte, or the two forms of one letter, which are 32 apart. */
  predicate SameLetter(c: byte, d: byte) {
    c == d || (IsUpper(c) && d as int == c as int + 32) || (IsUpper(d) && c as int == d as int + 32)
  }

  predicate SameLetters(a: bytes, b: bytes) {
    |a| == |b| && forall i :: 0 <= i < |a| ==> SameLetter(a[i], b[i])
  }

  /** Lower case is another spelling of the same word, with no capital letter. */
  lemma {:induction false} LowerSpells(s: bytes)
    ensures SameLetters(s, Lower(s)) && forall i :: 0 <= i < |s| ==> !IsUpper(Lower(s)[i])
  {
  }

  /** Two words have the same lower-case form if and only if they are spellings of one word. */
  lemma {:induction false} LowerIff(a: bytes, b: bytes)
    ensures Lower(a) == Lower(b) <==> SameLetters(a, b)
  {
    forall i | 0 <= i < |a| && i < |b|
      ensures Lower(a)[i] == Lower(b)[i] <==> SameLetter(a[i], b[i])
    {
    }
  }
}
