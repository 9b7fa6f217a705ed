/** Form parameters in the URL and in the body (section 2.1 of RFC 3986, with '+' for a space). */
module HttpForm {
  import opened Strings
  import opened HttpText

  // ---------- Decoding percent escapes ----------

  /** The result of the library's reading of up to two characters as a base 16 number. */
  datatype Parsed = NotANumber | Parsed(value: int)

  /** All that is assumed of it: two hexadecimal digits are read as their value. */
  ghost predicate ReadsHexPairs(toInt: string -> Parsed) {
    forall a, b :: HexValue(a) >= 0 && HexValue(b) >= 0 ==> toInt([a, b]) == Parsed(16 * HexValue(a) + HexValue(b))
  }

  /** A C++ char made from an int. */
  function ToByte(value: int): char {
    (value % 256) as char
  }

  function Min(a: nat, b: nat): nat {
    if a <= b then a else b
  }

  function Space(c: char): char {
    if c == '+' then ' ' else c
  }

  function Spaced(s: string): (r: string)
    ensures |r| == |s|
  {
    seq(|s|, i requires 0 <= i < |s| => Space(s[i]))
  }

  /** One pass from left to right: each escape is read from the source, never from decoded text. */
  function Decoded(toInt: string -> Parsed, s: string): string
    decreases |s|, 0
  {
    if s == "" then ""
    else if s[0] == '%' then DecodedEscape(toInt, s[1..])
    else [Space(s[0])] + Decoded(toInt, s[1..])
  }

  /** The text behind a '%': two characters, or what there is of them, may be a number. */
  function DecodedEscape(toInt: string -> Parsed, tail: string): string
    decreases |tail|, 1
  {
    var n := Min(2, |tail|);
    match toInt(Spaced(tail[..n]))
    case Parsed(value) => [ToByte(value)] + Decoded(toInt, tail[n..])
    case NotANumber => "%" + Decoded(toInt, tail)
  }

  lemma SpacedParts(a: string, b: string)
    ensures Spaced(a + b) == Spaced(a) + Spaced(b)
  {
  }

  lemma SpacedTail(tail: string, n: nat)
    requires n <= |tail|
    ensures Spaced(tail)[..n] == Spaced(tail[..n]) && Spaced(tail)[n..] == Spaced(tail[n..])
  {
  }

  lemma {:induction false} DecodedCopies(toInt: string -> Parsed, a: string, b: string)
    requires '%' !in a
    ensures Decoded(toInt, a + b) == Spaced(a) + Decoded(toInt, b)
    decreases |a|
  {
    if a == "" {
      assert a + b == b && Spaced(a) + Decoded(toInt, b) == Decoded(toInt, b);
    } else {
      assert (a + b)[1..] == a[1..] + b && (a + b)[0] == a[0];
      DecodedCopies(toInt, a[1..], b);
      assert Spaced(a) == [Space(a[0])] + Spaced(a[1..]);
    }
  }

  /** The loop edits the buffer it searches, and yet decodes every escape once. */
  method UrlDecode(toInt: string -> Parsed, source: string) returns (buffer: string)
    ensures buffer == Decoded(toInt, source)
  {
    hide MatchesAt, IndexOf, Decoded, Spaced;
    buffer := Spaced(source);
    var percentChar := IndexOf(buffer, "%", 0);
    ghost var done, rest := "", source;
    NothingDone(toInt, source);
    while percentChar >= 0
      invariant buffer == done + Spaced(rest) && Decoded(toInt, source) == done + Decoded(toInt, rest)
      invariant percentChar == IndexOf(buffer, "%", |done|)
      decreases |rest|
    {
      ghost var a, tail := EscapeFound(done, rest);
      ghost var pre, n := done + Spaced(a), Min(2, |tail|);
      Around(pre, Spaced(tail), n);
      SpacedTail(tail, n);
      EscapeDecoded(toInt, done, a, tail);
      var last := Min(percentChar + 3, |buffer|);
      match toInt(buffer[percentChar + 1..last]) {
        case Parsed(value) =>
          buffer := buffer[..percentChar] + [ToByte(value)] + buffer[last..];
          done, rest := pre + [ToByte(value)], tail[n..];
        case NotANumber =>
          done, rest := pre + "%", tail;
      }
      percentChar := IndexOf(buffer, "%", percentChar + 1);
    }
    NoEscapeLeft(toInt, done, rest);
  }

  lemma NothingDone(toInt: string -> Parsed, source: string)
    ensures Spaced(source) == "" + Spaced(source) && Decoded(toInt, source) == "" + Decoded(toInt, source)
  {
  }

  /** The slices around a '%'. */
  lemma Around(pre: string, tail: string, n: nat)
    requires n <= |tail|
    ensures var s, p := pre + "%" + tail, |pre|;
      s[..p] == pre && s[p + 1..p + 1 + n] == tail[..n] && s[p + 1 + n..] == tail[n..]
  {
  }

  /** The next '%' of the buffer is the next one of the source. */
  lemma EscapeFound(done: string, rest: string) returns (a: string, tail: string)
    requires IndexOf(done + Spaced(rest), "%", |done|) >= 0
    ensures rest == a + "%" + tail && '%' !in a
    ensures IndexOf(done + Spaced(rest), "%", |done|) == |done| + |a|
    ensures done + Spaced(rest) == done + Spaced(a) + "%" + Spaced(tail)
  {
    hide MatchesAt, IndexOf;
    var spaced := Spaced(rest);
    var p := IndexOf(done + spaced, "%", |done|);
    CharSearch(done + spaced, '%', |done|);
    var k := p - |done|;
    a, tail := rest[..k], rest[k + 1..];
    assert (done + spaced)[p] == spaced[k];
    assert (done + spaced)[|done|..p] == Spaced(a);
    SpacedKeepsPercent(a);
    assert rest == a + "%" + tail;
    SpacedParts(a + "%", tail);
    SpacedParts(a, "%");
    assert Spaced("%") == "%";
  }

  lemma EscapeDecoded(toInt: string -> Parsed, done: string, a: string, tail: string)
    requires '%' !in a
    ensures var n := Min(2, |tail|);
      done + Decoded(toInt, a + "%" + tail) == match toInt(Spaced(tail[..n]))
        case Parsed(value) => done + Spaced(a) + [ToByte(value)] + Decoded(toInt, tail[n..])
        case NotANumber => done + Spaced(a) + "%" + Decoded(toInt, tail)
  {
    hide Spaced, Decoded, DecodedEscape, ToByte;
    assert a + "%" + tail == a + ("%" + tail);
    DecodedCopies(toInt, a, "%" + tail);
    PercentDecoded(toInt, tail);
    var n := Min(2, |tail|);
    match toInt(Spaced(tail[..n])) {
      case Parsed(value) =>
        NumberEscape(toInt, tail, n, value);
        Regroup(done, Spaced(a), [ToByte(value)], Decoded(toInt, tail[n..]));
      case NotANumber =>
        OtherEscape(toInt, tail, n);
        Regroup(done, Spaced(a), "%", Decoded(toInt, tail));
    }
  }

  lemma PercentDecoded(toInt: string -> Parsed, tail: string)
    ensures Decoded(toInt, "%" + tail) == DecodedEscape(toInt, tail)
  {
    hide DecodedEscape;
    assert ("%" + tail)[1..] == tail;
  }

  lemma NumberEscape(toInt: string -> Parsed, tail: string, n: nat, value: int)
    requires n == Min(2, |tail|) && toInt(Spaced(tail[..n])) == Parsed(value)
    ensures DecodedEscape(toInt, tail) == [ToByte(value)] + Decoded(toInt, tail[n..])
  {
    hide Decoded, Spaced, ToByte;
  }

  lemma OtherEscape(toInt: string -> Parsed, tail: string, n: nat)
    requires n == Min(2, |tail|) && toInt(Spaced(tail[..n])) == NotANumber
    ensures DecodedEscape(toInt, tail) == "%" + Decoded(toInt, tail)
  {
    hide Decoded, Spaced, ToByte;
  }

  lemma Regroup(a: string, b: string, c: string, d: string)
    ensures a + (b + (c + d)) == a + b + c + d
  {
  }

  lemma NoEscapeLeft(toInt: string -> Parsed, done: string, rest: string)
    requires IndexOf(done + Spaced(rest), "%", |done|) == -1
    ensures Decoded(toInt, rest) == Spaced(rest)
  {
    CharSearch(done + Spaced(rest), '%', |done|);
    assert (done + Spaced(rest))[|done|..] == Spaced(rest);
    SpacedKeepsPercent(rest);
    DecodedCopies(toInt, rest, "");
    assert rest + "" == rest && Spaced(rest) + "" == Spaced(rest);
  }

  lemma SpacedKeepsPercent(s: string)
    ensures '%' in Spaced(s) <==> '%' in s
  {
    if '%' in s {
      var i :| 0 <= i < |s| && s[i] == '%';
      assert Spaced(s)[i] == '%';
    }
  }

  /** Without an escape, a plus sign stands for a space and every other character for itself. */
  lemma PlusIsSpace(toInt: string -> Parsed, s: string, i: nat)
    requires '%' !in s && i < |s|
    ensures |Decoded(toInt, s)| == |s| && Decoded(toInt, s)[i] == if s[i] == '+' then ' ' else s[i]
  {
    DecodedCopies(toInt, s, "");
    assert s + "" == s && Spaced(s) + "" == Spaced(s);
  }

  /** A percent sign that no number follows stands for itself, and what follows it is decoded on its own. */
  lemma {:induction false} PercentStays(toInt: string -> Parsed, rest: string)
    requires toInt(Spaced(if |rest| <= 2 then rest else rest[..2])) == NotANumber
    ensures Decoded(toInt, "%" + rest) == "%" + Decoded(toInt, rest)
  {
    hide Spaced, Decoded, DecodedEscape;
    var n := Min(2, |rest|);
    assert (if |rest| <= 2 then rest else rest[..2]) == rest[..n];
    PercentDecoded(toInt, rest);
    OtherEscape(toInt, rest, n);
  }

  /** A percent sign and two hexadecimal digits, small or capital, stand for one byte; the high digit comes first. */
  lemma PercentIsByte(toInt: string -> Parsed, a: char, b: char, rest: string)
    requires ReadsHexPairs(toInt) && HexValue(a) >= 0 && HexValue(b) >= 0
    ensures Decoded(toInt, ['%', a, b] + rest)
         == [(16 * HexValue(a) + HexValue(b)) as char] + Decoded(toInt, rest)
  {
    var r := ['%', a, b] + rest;
    assert r[1..][..2] == [a, b] && r[1..][2..] == rest;
    assert Spaced([a, b]) == [a, b];
    assert toInt([a, b]) == Parsed(16 * HexValue(a) + HexValue(b));
  }

  // ---------- Encoding ----------

  predicate IsByte(c: char) {
    c as int < 256
  }

  predicate AllBytes(s: string) {
    forall c :: c in s ==> IsByte(c)
  }

  /** The characters an encoder may leave as they are. */
  ghost predicate Harmless(keep: char -> bool) {
    forall c :: keep(c) ==> c !in "%+&=" && !IsSpace(c)
  }

  function UpperHex(d: nat): (c: char)
    requires d < 16
    ensures HexValue(c) == d && c !in "%+&=" && !IsSpace(c)
  {
    if d < 10 then d as char + '0' else (d - 10) as char + 'A'
  }

  function EncodedChar(keep: char -> bool, c: char): (r: string)
    requires IsByte(c)
    ensures r != ""
  {
    if c == ' ' then "+"
    else if keep(c) then [c]
    else ['%', UpperHex(c as int / 16), UpperHex(c as int % 16)]
  }

  function Encoded(keep: char -> bool, s: string): string
    requires AllBytes(s)
  {
    if s == "" then "" else EncodedChar(keep, s[0]) + Encoded(keep, s[1..])
  }

  lemma EscapeBack(toInt: string -> Parsed, c: char, rest: string)
    requires ReadsHexPairs(toInt) && IsByte(c)
    ensures var r := ['%', UpperHex(c as int / 16), UpperHex(c as int % 16)] + rest;
      Decoded(toInt, r) == [c] + Decoded(toInt, rest)
  {
    var a, b := UpperHex(c as int / 16), UpperHex(c as int % 16);
    var r := ['%', a, b] + rest;
    assert r[1..][..2] == [a, b] && r[1..][2..] == rest;
    assert Spaced([a, b]) == [a, b];
    assert toInt([a, b]) == Parsed(16 * HexValue(a) + HexValue(b));
    assert ToByte(c as int) == c;
  }

  /** Decoding takes back percent-encoding, for all bytes and whatever the encoder leaves unescaped. */
  lemma {:induction false} DecodedEncoded(toInt: string -> Parsed, keep: char -> bool, s: string)
    requires ReadsHexPairs(toInt) && Harmless(keep) && AllBytes(s)
    ensures Decoded(toInt, Encoded(keep, s)) == s
    decreases |s|
  {
    hide ReadsHexPairs, Spaced;
    if s != "" {
      var rest := Encoded(keep, s[1..]);
      DecodedEncoded(toInt, keep, s[1..]);
      var head := EncodedChar(keep, s[0]);
      if s[0] == ' ' || keep(s[0]) {
        assert (head + rest)[1..] == rest;
      } else {
        EscapeBack(toInt, s[0], rest);
      }
    }
  }

  // ---------- Lists of parameters ----------

  /** The library's `split`: one part more than there are separators. */
  function Split(s: string, separator: char): (parts: seq<string>)
    ensures parts != []
    decreases |s|
  {
    var i := IndexOf(s, [separator], 0);
    if i < 0 then [s] else [s[..i]] + Split(s[i + 1..], separator)
  }

  /** The parameter of one part; nothing for an empty part. */
  function ParameterOf(toInt: string -> Parsed, part: string): (r: seq<Parameter>)
    ensures |r| <= 1
  {
    var equalsChar := IndexOf(part, "=", 0);
    if equalsChar >= 0 then
      [Parameter(Decoded(toInt, Trim(part[..equalsChar])), Decoded(toInt, Trim(part[equalsChar + 1..])))]
    else if part != "" then [Parameter(Decoded(toInt, part), "")]
    else []
  }

  function ParametersOf(toInt: string -> Parsed, parts: seq<string>): (r: seq<Parameter>)
  {
    if parts == [] then [] else ParameterOf(toInt, parts[0]) + ParametersOf(toInt, parts[1..])
  }

  lemma {:induction false} ParametersOfAppended(toInt: string -> Parsed, parts: seq<string>, part: string)
    ensures ParametersOf(toInt, parts + [part]) == ParametersOf(toInt, parts) + ParameterOf(toInt, part)
    decreases |parts|
  {
    hide ParameterOf;
    if parts == [] {
      assert [part][1..] == [];
    } else {
      assert (parts + [part])[1..] == parts[1..] + [part];
      ParametersOfAppended(toInt, parts[1..], part);
    }
  }

  lemma NoParts(toInt: string -> Parsed)
    ensures ParametersOf(toInt, []) == []
  {
  }

  predicate AcceptsForm(contentType: string) {
    contentType == "" || StartsWith(contentType, "application/x-www-form-urlencoded")
  }

  /** The raw parameters of a path and a body. */
  function RawParameters(path: string, contentType: string, body: string): string {
    var questionMark := IndexOf(path, "?", 0);
    var fromUrl := if questionMark >= 0 then path[questionMark + 1..] else "";
    if body == "" || !AcceptsForm(contentType) then fromUrl
    else if fromUrl == "" then body
    else fromUrl + "&" + body
  }

  function PathOnly(path: string): string {
    var questionMark := IndexOf(path, "?", 0);
    if questionMark >= 0 then path[..questionMark] else path
  }

  function DecodeParameters(toInt: string -> Parsed, path: string, contentType: string, body: string): seq<Parameter> {
    ParametersOf(toInt, Split(RawParameters(path, contentType, body), '&'))
  }

  // ---------- The round trip ----------

  predicate AllPairsBytes(pairs: seq<Parameter>) {
    forall p :: p in pairs ==> AllBytes(p.name) && AllBytes(p.value)
  }

  function EncodedPair(keep: char -> bool, p: Parameter): string
    requires AllBytes(p.name) && AllBytes(p.value)
  {
    Encoded(keep, p.name) + "=" + Encoded(keep, p.value)
  }

  function EncodedForm(keep: char -> bool, pairs: seq<Parameter>): string
    requires AllPairsBytes(pairs)
  {
    if pairs == [] then ""
    else
      var head := EncodedPair(keep, pairs[0]);
      if |pairs| == 1 then head else head + "&" + EncodedForm(keep, pairs[1..])
  }

  predicate Plain(s: string) {
    forall c :: c in s ==> c != '&' && c != '=' && !IsSpace(c)
  }

  lemma {:induction false} EncodedIsPlain(keep: char -> bool, s: string)
    requires Harmless(keep) && AllBytes(s)
    ensures Plain(Encoded(keep, s))
    decreases |s|
  {
    if s != "" {
      EncodedIsPlain(keep, s[1..]);
      var c := s[0];
      assert Plain(EncodedChar(keep, c));
    }
  }

  lemma PairRoundTrip(toInt: string -> Parsed, keep: char -> bool, p: Parameter)
    requires ReadsHexPairs(toInt) && Harmless(keep) && AllBytes(p.name) && AllBytes(p.value)
    ensures ParameterOf(toInt, EncodedPair(keep, p)) == [p]
    ensures '&' !in EncodedPair(keep, p)
  {
    hide ReadsHexPairs, Harmless, Encoded, Decoded;
    var name, value := Encoded(keep, p.name), Encoded(keep, p.value);
    EncodedIsPlain(keep, p.name);
    EncodedIsPlain(keep, p.value);
    FirstOf(name, '=', value);
    var part := name + "=" + value;
    assert part[..|name|] == name && part[|name| + 1..] == value;
    TrimTrimmed(name);
    TrimTrimmed(value);
    DecodedEncoded(toInt, keep, p.name);
    DecodedEncoded(toInt, keep, p.value);
  }

  lemma SplitPart(part: string, rest: string)
    requires '&' !in part
    ensures Split(part + "&" + rest, '&') == [part] + Split(rest, '&')
  {
    FirstOf(part, '&', rest);
    var t := part + "&" + rest;
    assert t[..|part|] == part && t[|part| + 1..] == rest;
  }

  /** A form on its own. */
  lemma {:induction false} FormAlone(toInt: string -> Parsed, keep: char -> bool, pairs: seq<Parameter>)
    requires ReadsHexPairs(toInt) && Harmless(keep) && AllPairsBytes(pairs) && pairs != []
    ensures ParametersOf(toInt, Split(EncodedForm(keep, pairs), '&')) == pairs
    ensures EncodedForm(keep, pairs) != ""
    decreases |pairs|
  {
    hide ReadsHexPairs, Harmless, Encoded, Decoded, ParameterOf, EncodedPair, Split, ParametersOf;
    var p := pairs[0];
    assert p in pairs;
    var head := EncodedPair(keep, p);
    EncodedPairNotEmpty(keep, p);
    PairRoundTrip(toInt, keep, p);
    if |pairs| == 1 {
      OnePart(toInt, head);
      assert pairs == [p];
    } else {
      var later := EncodedForm(keep, pairs[1..]);
      FormAlone(toInt, keep, pairs[1..]);
      SplitPart(head, later);
      ParametersOfHead(toInt, head, Split(later, '&'));
      assert pairs == [p] + pairs[1..];
    }
  }

  /** A form in front of other raw parameters. */
  lemma {:induction false} FormInFront(toInt: string -> Parsed, keep: char -> bool, pairs: seq<Parameter>, rest: string)
    requires ReadsHexPairs(toInt) && Harmless(keep) && AllPairsBytes(pairs) && pairs != []
    ensures ParametersOf(toInt, Split(EncodedForm(keep, pairs) + "&" + rest, '&'))
         == pairs + ParametersOf(toInt, Split(rest, '&'))
    decreases |pairs|
  {
    hide ReadsHexPairs, Harmless, Encoded, Decoded, ParameterOf, EncodedPair, Split, ParametersOf;
    var p := pairs[0];
    assert p in pairs;
    var head := EncodedPair(keep, p);
    PairRoundTrip(toInt, keep, p);
    if |pairs| == 1 {
      assert pairs == [p];
      SplitPart(head, rest);
      ParametersOfHead(toInt, head, Split(rest, '&'));
    } else {
      var later := EncodedForm(keep, pairs[1..]);
      FormInFront(toInt, keep, pairs[1..], rest);
      Ampersands(head, later, rest);
      SplitPart(head, later + "&" + rest);
      ParametersOfHead(toInt, head, Split(later + "&" + rest, '&'));
      Prefixed(p, pairs, ParametersOf(toInt, Split(rest, '&')));
    }
  }

  lemma Ampersands(a: string, b: string, c: string)
    ensures a + "&" + b + "&" + c == a + "&" + (b + "&" + c)
  {
  }

  lemma Prefixed(p: Parameter, pairs: seq<Parameter>, more: seq<Parameter>)
    requires pairs != [] && pairs[0] == p
    ensures [p] + (pairs[1..] + more) == pairs + more
  {
  }

  lemma EncodedPairNotEmpty(keep: char -> bool, p: Parameter)
    requires AllBytes(p.name) && AllBytes(p.value)
    ensures EncodedPair(keep, p) != ""
  {
  }

  lemma OnePart(toInt: string -> Parsed, part: string)
    requires '&' !in part
    ensures Split(part, '&') == [part] && ParametersOf(toInt, [part]) == ParameterOf(toInt, part)
  {
    NotFound(part, '&');
    assert [part][1..] == [];
  }

  lemma ParametersOfHead(toInt: string -> Parsed, part: string, parts: seq<string>)
    ensures ParametersOf(toInt, [part] + parts) == ParameterOf(toInt, part) + ParametersOf(toInt, parts)
  {
    assert ([part] + parts)[1..] == parts;
  }

  /** The URL of a request whose form parameters, if any, are in its query. */
  function FormUrl(base: string, keep: char -> bool, pairs: seq<Parameter>): string
    requires AllPairsBytes(pairs)
  {
    base + "?" + EncodedForm(keep, pairs)
  }

  /**
   Parameters encoded in the URL and in the body come back unchanged and in order; those of the body exactly when
   the content type is one of a form or missing.
   */
  lemma FormRoundTrip(toInt: string -> Parsed, keep: char -> bool, base: string, contentType: string,
                      inUrl: seq<Parameter>, inBody: seq<Parameter>)
    requires ReadsHexPairs(toInt) && Harmless(keep) && '?' !in base
    requires AllPairsBytes(inUrl) && AllPairsBytes(inBody)
    ensures var path := FormUrl(base, keep, inUrl);
      && PathOnly(path) == base
      && DecodeParameters(toInt, path, contentType, EncodedForm(keep, inBody))
           == inUrl + (if AcceptsForm(contentType) then inBody else [])
    ensures PathOnly(base) == base
    ensures DecodeParameters(toInt, base, contentType, EncodedForm(keep, inBody))
         == if AcceptsForm(contentType) then inBody else []
  {
    hide ReadsHexPairs, Harmless, ParametersOf, Split, AcceptsForm, AllPairsBytes;
    var url, body := EncodedForm(keep, inUrl), EncodedForm(keep, inBody);
    FirstOf(base, '?', url);
    var path := FormUrl(base, keep, inUrl);
    assert path[..|base|] == base && path[|base| + 1..] == url;
    NotFound(base, '?');
    NoParameters(toInt);
    if inBody != [] {
      FormAlone(toInt, keep, inBody);
    }
    if inUrl != [] {
      FormAlone(toInt, keep, inUrl);
      FormInFront(toInt, keep, inUrl, body);
    }
  }

  lemma NoParameters(toInt: string -> Parsed)
    ensures ParametersOf(toInt, Split("", '&')) == []
  {
    NotFound("", '&');
    OnePart(toInt, "");
    NotFound("", '=');
  }

  // ---------- The separators ----------

  lemma OneAssignment(toInt: string -> Parsed, name: string, value: string)
    requires '=' !in name
    ensures ParameterOf(toInt, name + "=" + value)
         == [Parameter(Decoded(toInt, Trim(name)), Decoded(toInt, Trim(value)))]
  {
    hide Decoded, Trim;
    FirstOf(name, '=', value);
    var part := name + "=" + value;
    assert part[..|name|] == name && part[|name| + 1..] == value;
  }

  /** The characters that separate the path, two parameters and their values, and the content type of a form. */
  lemma Separators(toInt: string -> Parsed, base: string, n1: string, v1: string, n2: string, v2: string,
                   charset: string)
    requires '?' !in base && '=' !in n1 && '=' !in n2 && '&' !in n1 && '&' !in v1 && '&' !in n2 && '&' !in v2
    ensures var path, query := base + "?" + n1 + "=" + v1, n2 + "=" + v2;
      var form := "application/x-www-form-urlencoded" + charset;
      var first := Parameter(Decoded(toInt, Trim(n1)), Decoded(toInt, Trim(v1)));
      var second := Parameter(Decoded(toInt, Trim(n2)), Decoded(toInt, Trim(v2)));
      && PathOnly(path + "&" + query) == base
      && DecodeParameters(toInt, path + "&" + query, "", "") == [first, second]
      && DecodeParameters(toInt, path, form, query) == [first, second]
      && DecodeParameters(toInt, path, "text/plain", query) == [first]
  {
    hide Decoded, Trim, ParameterOf, ParametersOf, Split, IndexOf;
    var p1, p2 := n1 + "=" + v1, n2 + "=" + v2;
    var both := p1 + "&" + p2;
    assert base + "?" + n1 + "=" + v1 + "&" + p2 == base + "?" + both;
    assert base + "?" + n1 + "=" + v1 == base + "?" + p1;
    FirstOf(base, '?', both);
    FirstOf(base, '?', p1);
    assert (base + "?" + both)[|base| + 1..] == both && (base + "?" + both)[..|base|] == base;
    assert (base + "?" + p1)[|base| + 1..] == p1;
    OneAssignment(toInt, n1, v1);
    OneAssignment(toInt, n2, v2);
    SplitPart(p1, p2);
    OnePart(toInt, p1);
    OnePart(toInt, p2);
    ParametersOfHead(toInt, p1, [p2]);
    PlainTextIsNoForm();
  }

  lemma PlainTextIsNoForm()
    ensures !AcceptsForm("text/plain")
  {
    assert "text/plain"[0] != "application/x-www-form-urlencoded"[0];
  }
}
