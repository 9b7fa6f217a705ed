/** Numbers and letters in the texts of the HTTP layer; a byte is a character below 256. */
module HttpText {
  import opened Strings

  const CRLF := "\r\n"

  datatype Header = Header(name: string, value: string)

  datatype Parameter = Parameter(name: string, value: string)

  // ---------- Letters ----------

  function LowerChar(c: char): char {
    if 'A' <= c <= 'Z' then c - 'A' + 'a' else c
  }

  function Lower(s: string): (r: string)
    ensures |r| == |s| && forall i :: 0 <= i < |s| ==> r[i] == LowerChar(s[i])
  {
    seq(|s|, i requires 0 <= i < |s| => LowerChar(s[i]))
  }

  predicate SameIgnoringCase(a: string, b: string) {
    Lower(a) == Lower(b)
  }

  predicate SameLetter(a: char, b: char) {
    a == b || ('A' <= a <= 'Z' && b as int == a as int + 32) || ('A' <= b <= 'Z' && a as int == b as int + 32)
  }

  /** Ignoring case, texts are the same that differ only in letters, upper case in one and lower case in the other. */
  lemma SameLetters(a: string, b: string)
    ensures SameIgnoringCase(a, b) <==> |a| == |b| && forall i :: 0 <= i < |a| ==> SameLetter(a[i], b[i])
  {
    if SameIgnoringCase(a, b) {
      forall i | 0 <= i < |a|
        ensures SameLetter(a[i], b[i])
      {
        assert Lower(a)[i] == Lower(b)[i];
      }
    } else if |a| == |b| {
      assert exists i :: 0 <= i < |a| && Lower(a)[i] != Lower(b)[i];
    }
  }

  // ---------- Numbers ----------

  /** Lower-case digits, as the library prints them. */
  function HexDigit(d: nat): (c: char)
    requires d < 16
  {
    if d < 10 then d as char + '0' else (d - 10) as char + 'a'
  }

  function HexValue(c: char): (d: int)
    ensures -1 <= d < 16
  {
    if '0' <= c <= '9' then c as int - '0' as int
    else if 'a' <= c <= 'f' then c as int - 'a' as int + 10
    else if 'A' <= c <= 'F' then c as int - 'A' as int + 10
    else -1
  }

  function HexNumber(n: nat): (s: string)
    ensures s != ""
  {
    if n < 16 then [HexDigit(n)] else HexNumber(n / 16) + [HexDigit(n % 16)]
  }

  predicate AllHex(s: string) {
    forall i :: 0 <= i < |s| ==> HexValue(s[i]) >= 0
  }

  function ParseHex(s: string): nat
    requires AllHex(s)
  {
    if s == "" then 0 else ParseHex(s[..|s| - 1]) * 16 + HexValue(s[|s| - 1])
  }

  lemma HexDigitValue(d: nat)
    requires d < 16
    ensures HexValue(HexDigit(d)) == d
  {
  }

  lemma {:induction false} HexRoundTrip(n: nat)
    ensures AllHex(HexNumber(n)) && ParseHex(HexNumber(n)) == n
  {
    if n < 16 {
      HexDigitValue(n);
      assert HexNumber(n)[..0] == "";
    } else {
      HexRoundTrip(n / 16);
      HexDigitValue(n % 16);
      var s := HexNumber(n);
      assert s[..|s| - 1] == HexNumber(n / 16);
    }
  }

  predicate AllDigits(s: string) {
    forall i :: 0 <= i < |s| ==> IsDigit(s[i])
  }

  function ParseNat(s: string): nat
    requires AllDigits(s)
  {
    if s == "" then 0 else ParseNat(s[..|s| - 1]) * 10 + (s[|s| - 1] as int - '0' as int)
  }

  lemma {:induction false} NumberRoundTrip(n: nat)
    ensures AllDigits(Number(n)) && ParseNat(Number(n)) == n
  {
    if n < 10 {
      assert Number(n)[..0] == "";
    } else {
      NumberRoundTrip(n / 10);
      var s := Number(n);
      assert s[..|s| - 1] == Number(n / 10);
    }
  }

  /** The base of the two number systems, the order of their digits, and small letters. */
  lemma DigitsInOrder(n: nat)
    ensures n >= 10 ==> Number(n) == Number(n / 10) + [(n % 10) as char + '0']
    ensures n >= 16 ==>
      HexNumber(n) == HexNumber(n / 16) + [if n % 16 < 10 then (n % 16) as char + '0' else (n % 16 - 10) as char + 'a']
    ensures Number(7) == "7" && HexNumber(7) == "7" && HexNumber(10) == "a" && HexNumber(26) == "1a"
  {
    assert HexNumber(1) == "1";
  }

  // ---------- White space, lines and searching ----------

  predicate IsSpace(c: char) {
    c == ' ' || ('\t' <= c <= '\r')
  }

  function TrimLeft(s: string): (r: string)
    ensures |r| <= |s|
  {
    if s != "" && IsSpace(s[0]) then TrimLeft(s[1..]) else s
  }

  function TrimRight(s: string): (r: string)
    ensures |r| <= |s|
  {
    if s != "" && IsSpace(s[|s| - 1]) then TrimRight(s[..|s| - 1]) else s
  }

  function Trim(s: string): (r: string)
    ensures |r| <= |s|
  {
    TrimRight(TrimLeft(s))
  }

  predicate Trimmed(s: string) {
    s == "" || (!IsSpace(s[0]) && !IsSpace(s[|s| - 1]))
  }

  lemma TrimTrimmed(s: string)
    requires Trimmed(s)
    ensures Trim(s) == s
  {
  }

  lemma TrimSpaceBehind(s: string, c: char)
    requires IsSpace(c) && s != "" && !IsSpace(s[0])
    ensures Trim(s + [c]) == Trim(s)
  {
    assert (s + [c])[0] == s[0] && (s + [c])[..|s|] == s;
  }

  /** Trimming removes the line break behind a trimmed text. */
  lemma TrimLine(s: string)
    requires Trimmed(s)
    ensures Trim(s + CRLF) == s
  {
    if s == "" {
      assert s + CRLF == CRLF && CRLF[1..][1..] == "";
    } else {
      assert s + CRLF == s + ['\r'] + ['\n'];
      TrimSpaceBehind(s + ['\r'], '\n');
      TrimSpaceBehind(s, '\r');
    }
  }

  predicate NoLineEnd(s: string) {
    '\r' !in s && '\n' !in s
  }

  predicate StartsWith(s: string, prefix: string) {
    prefix <= s
  }

  predicate ContainsText(s: string, part: string) {
    IndexOf(s, part, 0) >= 0
  }

  /** What `readLine` returns when `s` can be read: up to a line feed, and at most `max` bytes. */
  function ReadLine(s: string, max: nat): (line: string)
    requires max > 0
    ensures |line| <= |s| && |line| <= max && line == s[..|line|]
    ensures s != "" ==> line != ""
  {
    var eol := IndexOf(s, "\n", 0);
    var n := if eol == -1 then |s| else eol + 1;
    s[..if n <= max then n else max]
  }

  /** No line feed before the end: the line ends with the first one. */
  lemma ReadLineWithin(s: string, rest: string, max: nat)
    requires max > 0 && s != "" && s[|s| - 1] == '\n'
    ensures |ReadLine(s + rest, max)| <= |s|
  {
    var t := s + rest;
    assert t[|s| - 1..|s|] == "\n";
    assert MatchesAt(t, "\n", |s| - 1);
  }

  lemma ReadWholeLine(s: string, rest: string, max: nat)
    requires '\n' !in s && |s| < max
    ensures ReadLine(s + "\n" + rest, max) == s + "\n"
  {
    var t := s + "\n" + rest;
    assert t[|s|..|s| + 1] == "\n";
    forall i | 0 <= i < |s|
      ensures !MatchesAt(t, "\n", i)
    {
      assert t[i..i + 1][0] == s[i];
    }
    IndexOfIs(t, "\n", 0, |s|);
  }
}
