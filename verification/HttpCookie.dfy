/** Cookies: printing, and parsing with quotes and separators (section 4.2.2 of RFC 2109). */
module HttpCookies {
  import opened Strings
  import opened HttpText

  // ---------- Splitting at semicolons outside quotes ----------

  function Prepend(text: string, parts: seq<string>): (r: seq<string>)
    requires parts != []
    ensures r != []
  {
    [text + parts[0]] + parts[1..]
  }

  /** The text between the separators, without the quotes; `quoted` when a quote is open in front of it. */
  function Parts(source: string, quoted: bool): (parts: seq<string>)
    ensures parts != []
  {
    if source == "" then [""]
    else if source[0] == '"' then Parts(source[1..], !quoted)
    else if source[0] == ';' && !quoted then [""] + Parts(source[1..], quoted)
    else Prepend([source[0]], Parts(source[1..], quoted))
  }

  /** The parts without surrounding white space, except empty ones. */
  function Kept(parts: seq<string>): seq<string> {
    if parts == [] then []
    else (if Trim(parts[0]) == "" then [] else [Trim(parts[0])]) + Kept(parts[1..])
  }

  lemma PrependTwice(a: string, b: string, parts: seq<string>)
    requires parts != []
    ensures Prepend(a, Prepend(b, parts)) == Prepend(a + b, parts)
    ensures Prepend("", parts) == parts
  {
    assert a + (b + parts[0]) == a + b + parts[0];
    assert "" + parts[0] == parts[0];
  }

  /** A part that a separator ends. */
  lemma KeptBeforeSeparator(buffer: string, parts: seq<string>)
    ensures Kept(Prepend(buffer, [""] + parts)) == (if Trim(buffer) == "" then [] else [Trim(buffer)]) + Kept(parts)
  {
    assert buffer + "" == buffer && Prepend(buffer, [""] + parts)[1..] == parts;
  }

  method SplitCSV(source: string) returns (list: seq<string>)
    ensures list == Kept(Parts(source, false))
  {
    hide Parts, Prepend, Kept, Trim;
    list := [];
    var inString, buffer := false, "";
    var i := 0;
    assert source[0..] == source;
    PrependTwice("", "", Parts(source, false));
    while i < |source|
      invariant 0 <= i <= |source|
      invariant Kept(Parts(source, false)) == list + Kept(Prepend(buffer, Parts(source[i..], inString)))
    {
      var c := source[i];
      ghost var rest := Parts(source[i + 1..], if c == '"' then !inString else inString);
      NextChar(source, i, inString);
      if !inString {
        if c == '"' {
          inString := true;
        } else if c == ';' {
          KeptBeforeSeparator(buffer, rest);
          var trimmed := Trim(buffer);
          if trimmed != "" {
            list := list + [trimmed];
          }
          buffer := "";
          PrependTwice("", "", rest);
        } else {
          PrependTwice(buffer, [c], rest);
          buffer := buffer + [c];
        }
      } else {
        if c == '"' {
          inString := false;
        } else {
          PrependTwice(buffer, [c], rest);
          buffer := buffer + [c];
        }
      }
      i := i + 1;
    }
    KeptAtEnd(buffer, source[i..], inString);
    var trimmed := Trim(buffer);
    if trimmed != "" {
      list := list + [trimmed];
    }
  }

  lemma NextChar(source: string, i: nat, quoted: bool)
    requires i < |source|
    ensures var c, rest := source[i], source[i + 1..];
      Parts(source[i..], quoted) == if c == '"' then Parts(rest, !quoted)
                                    else if c == ';' && !quoted then [""] + Parts(rest, quoted)
                                    else Prepend([c], Parts(rest, quoted))
  {
    assert source[i..][1..] == source[i + 1..];
  }

  lemma KeptAtEnd(buffer: string, rest: string, quoted: bool)
    requires rest == ""
    ensures Kept(Prepend(buffer, Parts(rest, quoted))) == if Trim(buffer) == "" then [] else [Trim(buffer)]
  {
    KeptBeforeSeparator(buffer, []);
    assert [""] + [] == Parts(rest, quoted);
  }

  lemma {:induction false} QuotedCopy(a: string, b: string)
    requires '"' !in a
    ensures Parts(a + b, true) == Prepend(a, Parts(b, true))
    decreases |a|
  {
    PrependTwice("", "", Parts(b, true));
    if a == "" {
      assert a + b == b;
    } else {
      assert (a + b)[0] == a[0] && (a + b)[1..] == a[1..] + b && a[0] in a;
      QuotedCopy(a[1..], b);
      PrependTwice([a[0]], a[1..], Parts(b, true));
      assert [a[0]] + a[1..] == a;
    }
  }

  /** Between quotes a semicolon is no separator; a text in quotes stands for itself, and the quotes are dropped. */
  lemma QuotedText(text: string, rest: string)
    requires '"' !in text
    ensures Parts("\"" + text + "\"" + rest, false) == Prepend(text, Parts(rest, false))
    ensures Parts(";" + rest, false) == [""] + Parts(rest, false)
  {
    var s := "\"" + text + "\"" + rest;
    assert s[1..] == text + ("\"" + rest);
    QuotedCopy(text, "\"" + rest);
    assert ("\"" + rest)[1..] == rest && (";" + rest)[1..] == rest;
  }

  // ---------- Cookies ----------

  datatype Cookie = Cookie(
    name: string, value: string, comment: string, domain: string, maxAge: int, path: string,
    secure: bool, httpOnly: bool, version: int)

  const COMMENT := "Comment"
  const DOMAIN := "Domain"
  const MAX_AGE := "Max-Age"
  const PATH := "Path"
  const SECURE := "Secure"
  const HTTP_ONLY := "HttpOnly"
  const VERSION := "Version"

  const KEYWORDS := {COMMENT, DOMAIN, MAX_AGE, PATH, SECURE, HTTP_ONLY, VERSION}

  /**
   What the parser takes from the library: how a number is read, and whether the part of a text in front of a
   negative position is the whole text or nothing.
   */
  datatype Library = Library(toInt: string -> int, leftOfNegativeIsAll: bool)

  function Left(lib: Library, s: string, n: int): string
    requires -1 <= n <= |s|
  {
    if n >= 0 then s[..n] else if lib.leftOfNegativeIsAll then s else ""
  }

  /** The name and value of one part; a part without '=' is no special case here, only one that starts with it. */
  function NameOf(lib: Library, part: string): string {
    var posi := IndexOf(part, "=", 0);
    if posi != 0 then Trim(Left(lib, part, posi)) else Trim(part)
  }

  function ValueOf(part: string): string {
    var posi := IndexOf(part, "=", 0);
    if posi != 0 then Trim(part[posi + 1..]) else ""
  }

  function SetField(lib: Library, c: Cookie, name: string, value: string): Cookie {
    if name == COMMENT then c.(comment := value)
    else if name == DOMAIN then c.(domain := value)
    else if name == MAX_AGE then c.(maxAge := lib.toInt(value))
    else if name == PATH then c.(path := value)
    else if name == SECURE then c.(secure := true)
    else if name == HTTP_ONLY then c.(httpOnly := true)
    else if name == VERSION then c.(version := lib.toInt(value))
    else if c.name == "" then c.(name := name, value := value)
    else c
  }

  function SetFields(lib: Library, c: Cookie, parts: seq<string>): Cookie
    decreases |parts|
  {
    if parts == [] then c
    else SetFields(lib, SetField(lib, c, NameOf(lib, parts[0]), ValueOf(parts[0])), parts[1..])
  }

  /** The flag for script access has no initial value. */
  function Blank(httpOnly: bool): Cookie {
    Cookie("", "", "", "", 0, "", false, httpOnly, 1)
  }

  function Parsed(lib: Library, source: string, httpOnly: bool): Cookie {
    SetFields(lib, Blank(httpOnly), Kept(Parts(source, false)))
  }

  function Attribute(key: string, value: string): seq<string> {
    if value == "" then [] else [key + "=" + value]
  }

  function Flag(key: string, on: bool): seq<string> {
    if on then [key] else []
  }

  function Attributes(c: Cookie): seq<string> {
    Attribute(COMMENT, c.comment) + Attribute(DOMAIN, c.domain)
    + Attribute(MAX_AGE, if c.maxAge == 0 then "" else SignedNumber(c.maxAge))
    + Attribute(PATH, c.path) + Flag(SECURE, c.secure) + Flag(HTTP_ONLY, c.httpOnly)
    + Attribute(VERSION, SignedNumber(c.version))
  }

  function Joined(parts: seq<string>): string {
    if parts == [] then "" else "; " + parts[0] + Joined(parts[1..])
  }

  function Printed(c: Cookie): string {
    c.name + "=" + c.value + Joined(Attributes(c))
  }

  lemma {:induction false} JoinedAppended(parts: seq<string>, more: seq<string>)
    ensures Joined(parts + more) == Joined(parts) + Joined(more)
  {
    if parts == [] {
      assert parts + more == more && "" + Joined(more) == Joined(more);
    } else {
      assert (parts + more)[1..] == parts[1..] + more;
      JoinedAppended(parts[1..], more);
      assert "; " + parts[0] + (Joined(parts[1..]) + Joined(more))
          == "; " + parts[0] + Joined(parts[1..]) + Joined(more);
    }
  }

  /** Appending a part, if there is one, to a buffer that starts with `head`. */
  lemma Added(head: string, buffer: string, parts: seq<string>, more: seq<string>)
    requires buffer == head + Joined(parts) && |more| <= 1
    ensures head + Joined(parts + more) == if more == [] then buffer else buffer + "; " + more[0]
  {
    JoinedAppended(parts, more);
    if more == [] {
      assert Joined(parts) + "" == Joined(parts);
    } else {
      assert Joined(more) == "; " + more[0] + "" == "; " + more[0];
      assert head + (Joined(parts) + ("; " + more[0])) == head + Joined(parts) + "; " + more[0];
    }
  }

  lemma AddedAttribute(head: string, buffer: string, parts: seq<string>, key: string, value: string)
    requires buffer == head + Joined(parts)
    ensures head + Joined(parts + Attribute(key, value))
         == if value == "" then buffer else buffer + ("; " + key + "=") + value
  {
    Added(head, buffer, parts, Attribute(key, value));
    assert buffer + "; " + (key + "=" + value) == buffer + ("; " + key + "=") + value;
  }

  lemma AddedFlag(head: string, buffer: string, parts: seq<string>, key: string, on: bool)
    requires buffer == head + Joined(parts)
    ensures head + Joined(parts + Flag(key, on)) == if on then buffer + ("; " + key) else buffer
  {
    Added(head, buffer, parts, Flag(key, on));
    assert buffer + "; " + key == buffer + ("; " + key);
  }

  lemma NothingJoined(head: string)
    ensures head + Joined([]) == head
  {
  }

  class HttpCookie {
    var name: string
    var value: string
    var comment: string
    var domain: string
    var maxAge: int
    var path: string
    var secure: bool
    var httpOnly: bool
    var version: int

    function Snapshot(): Cookie
      reads this
    {
      Cookie(name, value, comment, domain, maxAge, path, secure, httpOnly, version)
    }

    constructor (lib: Library, source: string)
      ensures exists httpOnly :: Snapshot() == Parsed(lib, source, httpOnly)
    {
      name, value, comment, domain, path := "", "", "", "", "";
      version, maxAge, secure := 1, 0, false;
      new;
      hide SetField, NameOf, ValueOf, Kept, Parts;
      ghost var garbage := httpOnly;
      assert Snapshot() == Blank(garbage);
      var list := SplitCSV(source);
      assert list[0..] == list;
      for i := 0 to |list|
        invariant SetFields(lib, Snapshot(), list[i..]) == SetFields(lib, Blank(garbage), list)
      {
        assert list[i..][1..] == list[i + 1..];
        SetPart(lib, list[i]);
      }
      assert Snapshot() == Parsed(lib, source, garbage);
    }

    method SetPart(lib: Library, part: string)
      modifies this
      ensures Snapshot() == SetField(lib, old(Snapshot()), NameOf(lib, part), ValueOf(part))
    {
      hide Trim, Left;
      var posi := IndexOf(part, "=", 0);
      var name, value;
      if posi != 0 {
        name, value := Trim(Left(lib, part, posi)), Trim(part[posi + 1..]);
      } else {
        name, value := Trim(part), "";
      }
      if name == COMMENT {
        comment := value;
      } else if name == DOMAIN {
        domain := value;
      } else if name == MAX_AGE {
        maxAge := lib.toInt(value);
      } else if name == PATH {
        path := value;
      } else if name == SECURE {
        secure := true;
      } else if name == HTTP_ONLY {
        httpOnly := true;
      } else if name == VERSION {
        version := lib.toInt(value);
      } else if this.name == "" {
        this.name, this.value := name, value;
      }
    }

    method ToByteArray() returns (buffer: string)
      ensures buffer == Printed(Snapshot())
    {
      hide Joined, Attribute, Flag, COMMENT, DOMAIN, MAX_AGE, PATH, SECURE, HTTP_ONLY, VERSION;
      buffer := name + "=" + value;
      ghost var head, parts := buffer, Attribute(COMMENT, comment);
      NothingJoined(head);
      AddedAttribute(head, buffer, [], COMMENT, comment);
      assert [] + parts == parts;
      if comment != "" {
        buffer := buffer + ("; " + COMMENT + "=") + comment;
      }
      AddedAttribute(head, buffer, parts, DOMAIN, domain);
      parts := parts + Attribute(DOMAIN, domain);
      if domain != "" {
        buffer := buffer + ("; " + DOMAIN + "=") + domain;
      }
      ghost var age := if maxAge == 0 then "" else SignedNumber(maxAge);
      AddedAttribute(head, buffer, parts, MAX_AGE, age);
      parts := parts + Attribute(MAX_AGE, age);
      if maxAge != 0 {
        buffer := buffer + ("; " + MAX_AGE + "=") + SignedNumber(maxAge);
      }
      AddedAttribute(head, buffer, parts, PATH, path);
      parts := parts + Attribute(PATH, path);
      if path != "" {
        buffer := buffer + ("; " + PATH + "=") + path;
      }
      AddedFlag(head, buffer, parts, SECURE, secure);
      parts := parts + Flag(SECURE, secure);
      if secure {
        buffer := buffer + ("; " + SECURE);
      }
      AddedFlag(head, buffer, parts, HTTP_ONLY, httpOnly);
      parts := parts + Flag(HTTP_ONLY, httpOnly);
      if httpOnly {
        buffer := buffer + ("; " + HTTP_ONLY);
      }
      AddedAttribute(head, buffer, parts, VERSION, SignedNumber(version));
      buffer := buffer + ("; " + VERSION + "=") + SignedNumber(version);
    }
  }

  /** An attribute in words, if it is set. */
  function Word(words: string, on: bool, value: string): string {
    if on then words + value else ""
  }

  /** The printed form in its words: each attribute that is set, in this order, behind a semicolon and a space. */
  lemma PrintedWords(c: Cookie)
    ensures Printed(c) == c.name + "=" + c.value
      + Word("; Comment=", c.comment != "", c.comment) + Word("; Domain=", c.domain != "", c.domain)
      + Word("; Max-Age=", c.maxAge != 0, SignedNumber(c.maxAge)) + Word("; Path=", c.path != "", c.path)
      + Word("; Secure", c.secure, "") + Word("; HttpOnly", c.httpOnly, "")
      + Word("; Version=", true, SignedNumber(c.version))
  {
    hide Joined, Attribute, Flag, COMMENT, DOMAIN, MAX_AGE, PATH, SECURE, HTTP_ONLY, VERSION, SignedNumber, Word;
    var head := c.name + "=" + c.value;
    NothingJoined(head);
    AttributeWords();
    var buffer, parts := WithAttribute(head, head, [], COMMENT, c.comment, "; Comment=");
    assert parts == Attribute(COMMENT, c.comment);
    buffer, parts := WithAttribute(head, buffer, parts, DOMAIN, c.domain, "; Domain=");
    var age := if c.maxAge == 0 then "" else SignedNumber(c.maxAge);
    NoWord("; Max-Age=", age, SignedNumber(c.maxAge));
    buffer, parts := WithAttribute(head, buffer, parts, MAX_AGE, age, "; Max-Age=");
    buffer, parts := WithAttribute(head, buffer, parts, PATH, c.path, "; Path=");
    buffer, parts := WithFlag(head, buffer, parts, SECURE, c.secure, "; Secure");
    buffer, parts := WithFlag(head, buffer, parts, HTTP_ONLY, c.httpOnly, "; HttpOnly");
    buffer, parts := WithAttribute(head, buffer, parts, VERSION, SignedNumber(c.version), "; Version=");
    assert parts == Attributes(c);
  }

  lemma NoWord(words: string, a: string, b: string)
    ensures Word(words, false, a) == Word(words, false, b)
  {
  }

  lemma AttributeWords()
    ensures "; " + COMMENT + "=" == "; Comment=" && "; " + DOMAIN + "=" == "; Domain="
    ensures "; " + MAX_AGE + "=" == "; Max-Age=" && "; " + PATH + "=" == "; Path="
    ensures "; " + SECURE == "; Secure" && "; " + HTTP_ONLY == "; HttpOnly" && "; " + VERSION + "=" == "; Version="
  {
  }

  lemma WithAttribute(head: string, before: string, parts: seq<string>, key: string, value: string, words: string)
    returns (buffer: string, more: seq<string>)
    requires before == head + Joined(parts) && words == "; " + key + "="
    ensures more == parts + Attribute(key, value) && buffer == head + Joined(more)
    ensures buffer == before + Word(words, value != "", value)
  {
    more := parts + Attribute(key, value);
    buffer := head + Joined(more);
    AddedAttribute(head, before, parts, key, value);
    assert before + "" == before && before + words + value == before + (words + value);
  }

  lemma WithFlag(head: string, before: string, parts: seq<string>, key: string, on: bool, words: string)
    returns (buffer: string, more: seq<string>)
    requires before == head + Joined(parts) && words == "; " + key
    ensures more == parts + Flag(key, on) && buffer == head + Joined(more)
    ensures buffer == before + Word(words, on, "")
  {
    more := parts + Flag(key, on);
    buffer := head + Joined(more);
    AddedFlag(head, before, parts, key, on);
    assert before + "" == before && words + "" == words;
  }

  // ---------- The round trip ----------

  predicate IsCookieText(s: string) {
    Trimmed(s) && ';' !in s && '"' !in s
  }

  /** What a caller checks before printing; the name may still be that of an attribute. */
  predicate Printable(c: Cookie) {
    && IsCookieText(c.name) && c.name != "" && '=' !in c.name
    && IsCookieText(c.value) && IsCookieText(c.comment) && IsCookieText(c.domain) && IsCookieText(c.path)
    && IsInt(c.maxAge) && IsInt(c.version)
  }

  lemma {:induction false} PartsCopy(a: string, b: string)
    requires ';' !in a && '"' !in a
    ensures Parts(a + b, false) == Prepend(a, Parts(b, false))
    decreases |a|
  {
    PrependTwice("", "", Parts(b, false));
    if a == "" {
      assert a + b == b;
    } else {
      assert (a + b)[0] == a[0] && (a + b)[1..] == a[1..] + b && a[0] in a;
      PartsCopy(a[1..], b);
      PrependTwice([a[0]], a[1..], Parts(b, false));
      assert [a[0]] + a[1..] == a;
    }
  }

  function Indented(parts: seq<string>): (r: seq<string>)
    ensures |r| == |parts|
  {
    if parts == [] then [] else [" " + parts[0]] + Indented(parts[1..])
  }

  predicate AllPlain(parts: seq<string>) {
    forall part :: part in parts ==> IsCookieText(part) && part != ""
  }

  lemma {:induction false} PartsOfJoined(parts: seq<string>)
    requires AllPlain(parts)
    ensures Parts(Joined(parts), false) == [""] + Indented(parts)
    decreases |parts|
  {
    hide Trimmed;
    if parts == [] {
      assert Parts("", false) == [""] + [];
    } else {
      var part, later := parts[0], Joined(parts[1..]);
      assert part in parts;
      PartsOfJoined(parts[1..]);
      PartsCopy(" " + part, later);
      assert Joined(parts) == ";" + (" " + part + later);
      assert (";" + (" " + part + later))[1..] == " " + part + later;
      assert " " + part + "" == " " + part;
      assert Prepend(" " + part, [""] + Indented(parts[1..])) == [" " + part] + Indented(parts[1..]);
    }
  }

  lemma {:induction false} KeptIndented(parts: seq<string>)
    requires AllPlain(parts)
    ensures Kept(Indented(parts)) == parts
    decreases |parts|
  {
    if parts != [] {
      var part := parts[0];
      assert part in parts;
      assert (" " + part)[1..] == part;
      TrimTrimmed(part);
      KeptIndented(parts[1..]);
      assert parts == [part] + parts[1..];
    }
  }

  /** Splitting takes back joining. */
  lemma SplitJoined(head: string, parts: seq<string>)
    requires IsCookieText(head) && head != "" && AllPlain(parts)
    ensures Kept(Parts(head + Joined(parts), false)) == [head] + parts
  {
    PartsCopy(head, Joined(parts));
    PartsOfJoined(parts);
    KeptBeforeSeparator(head, Indented(parts));
    KeptIndented(parts);
    TrimTrimmed(head);
  }

  lemma AssignmentIsPlain(key: string, value: string)
    requires IsCookieText(key) && key != "" && IsCookieText(value)
    ensures IsCookieText(key + "=" + value)
  {
    var s := key + "=" + value;
    assert s[0] == key[0] && s[|s| - 1] == if value == "" then '=' else value[|value| - 1];
  }

  lemma AssignmentParts(lib: Library, key: string, value: string)
    requires IsCookieText(key) && key != "" && '=' !in key && IsCookieText(value)
    ensures NameOf(lib, key + "=" + value) == key && ValueOf(key + "=" + value) == value
  {
    FirstOf(key, '=', value);
    var s := key + "=" + value;
    assert s[..|key|] == key && s[|key| + 1..] == value;
    TrimTrimmed(key);
    TrimTrimmed(value);
  }

  lemma FlagParts(lib: Library, key: string)
    requires IsCookieText(key) && '=' !in key
    ensures NameOf(lib, key) == if lib.leftOfNegativeIsAll then key else ""
  {
    NotFound(key, '=');
    TrimTrimmed(key);
  }

  lemma NumberIsPlain(i: int)
    ensures IsCookieText(SignedNumber(i))
  {
    var s := SignedNumber(i);
    forall k | 0 <= k < |s|
      ensures !IsSpace(s[k]) && s[k] != ';' && s[k] != '"'
    {
      assert IsDigit(s[k]) || s[k] == '-';
    }
  }

  lemma KeysArePlain()
    ensures forall key :: key in KEYWORDS ==> IsCookieText(key) && key != "" && '=' !in key
  {
  }

  lemma AttributesArePlain(c: Cookie)
    requires Printable(c)
    ensures AllPlain(Attributes(c))
  {
    hide IsCookieText, COMMENT, DOMAIN, MAX_AGE, PATH, SECURE, HTTP_ONLY, VERSION;
    KeysArePlain();
    NumberIsPlain(c.maxAge);
    NumberIsPlain(c.version);
    AttributeIsPlain(COMMENT, c.comment);
    AttributeIsPlain(DOMAIN, c.domain);
    AttributeIsPlain(MAX_AGE, SignedNumber(c.maxAge));
    AttributeIsPlain(PATH, c.path);
    AttributeIsPlain(VERSION, SignedNumber(c.version));
  }

  lemma AttributeIsPlain(key: string, value: string)
    requires IsCookieText(key) && key != "" && IsCookieText(value)
    ensures AllPlain(Attribute(key, value))
  {
    if value != "" {
      AssignmentIsPlain(key, value);
    }
  }

  lemma {:induction false} SetMore(lib: Library, c: Cookie, a: seq<string>, b: seq<string>)
    ensures SetFields(lib, c, a + b) == SetFields(lib, SetFields(lib, c, a), b)
    decreases |a|
  {
    if a == [] {
      assert a + b == b;
    } else {
      assert (a + b)[1..] == a[1..] + b;
      SetMore(lib, SetField(lib, c, NameOf(lib, a[0]), ValueOf(a[0])), a[1..], b);
    }
  }

  lemma SetAttribute(lib: Library, c: Cookie, key: string, value: string)
    requires IsCookieText(key) && key != "" && '=' !in key && IsCookieText(value)
    ensures SetFields(lib, c, Attribute(key, value)) == if value == "" then c else SetField(lib, c, key, value)
  {
    hide SetField;
    if value != "" {
      AssignmentParts(lib, key, value);
      assert [key + "=" + value][1..] == [];
    }
  }

  /** A flag is found only by a library that returns the whole text in front of a negative position. */
  lemma SetFlag(lib: Library, c: Cookie, key: string, on: bool)
    requires IsCookieText(key) && '=' !in key && c.name != ""
    ensures SetFields(lib, c, Flag(key, on))
        == if on && lib.leftOfNegativeIsAll then SetField(lib, c, key, ValueOf(key)) else c
  {
    if on {
      FlagParts(lib, key);
      assert [key][1..] == [];
    }
  }

  /** The attributes in front of the flags. */
  lemma TextsSet(lib: Library, c: Cookie, start: Cookie) returns (parts: seq<string>)
    requires Printable(c) && ReadsInts(lib.toInt)
    requires start.comment == "" && start.domain == "" && start.maxAge == 0 && start.path == ""
    ensures parts == Attribute(COMMENT, c.comment) + Attribute(DOMAIN, c.domain)
                     + Attribute(MAX_AGE, if c.maxAge == 0 then "" else SignedNumber(c.maxAge))
                     + Attribute(PATH, c.path)
    ensures SetFields(lib, start, parts)
         == start.(comment := c.comment, domain := c.domain, maxAge := c.maxAge, path := c.path)
  {
    hide SetFields, Attribute, ReadsInts, IsCookieText, SetField, COMMENT, DOMAIN, MAX_AGE, PATH, SECURE, HTTP_ONLY,
        VERSION;
    FieldsOfKeys(lib);
    KeysArePlain();
    NumberIsPlain(c.maxAge);
    TextMayBeEmpty();
    IntsRead(lib.toInt, c.maxAge);
    var age := if c.maxAge == 0 then "" else SignedNumber(c.maxAge);
    parts := Attribute(COMMENT, c.comment);
    var next := start.(comment := c.comment);
    SetAttribute(lib, start, COMMENT, c.comment);
    SetMore(lib, start, parts, Attribute(DOMAIN, c.domain));
    SetAttribute(lib, next, DOMAIN, c.domain);
    parts, next := parts + Attribute(DOMAIN, c.domain), next.(domain := c.domain);
    SetMore(lib, start, parts, Attribute(MAX_AGE, age));
    SetAttribute(lib, next, MAX_AGE, age);
    parts, next := parts + Attribute(MAX_AGE, age), next.(maxAge := c.maxAge);
    SetMore(lib, start, parts, Attribute(PATH, c.path));
    SetAttribute(lib, next, PATH, c.path);
    parts := parts + Attribute(PATH, c.path);
  }

  lemma AttributesSet(lib: Library, c: Cookie, start: Cookie)
    requires Printable(c) && ReadsInts(lib.toInt) && c.name != ""
    requires start == Blank(start.httpOnly).(name := c.name, value := c.value)
    ensures SetFields(lib, start, Attributes(c))
         == c.(secure := c.secure && lib.leftOfNegativeIsAll,
               httpOnly := start.httpOnly || (c.httpOnly && lib.leftOfNegativeIsAll))
  {
    hide SetFields, Attribute, Flag, ReadsInts, IsCookieText, SetField, COMMENT, DOMAIN, MAX_AGE, PATH, SECURE,
        HTTP_ONLY, VERSION;
    FieldsOfKeys(lib);
    KeysArePlain();
    NumberIsPlain(c.version);
    IntsRead(lib.toInt, c.version);
    var parts := TextsSet(lib, c, start);
    var next := SetFields(lib, start, parts);
    SetMore(lib, start, parts, Flag(SECURE, c.secure));
    SetFlag(lib, next, SECURE, c.secure);
    parts, next := parts + Flag(SECURE, c.secure), next.(secure := c.secure && lib.leftOfNegativeIsAll);
    SetMore(lib, start, parts, Flag(HTTP_ONLY, c.httpOnly));
    SetFlag(lib, next, HTTP_ONLY, c.httpOnly);
    parts := parts + Flag(HTTP_ONLY, c.httpOnly);
    next := next.(httpOnly := start.httpOnly || (c.httpOnly && lib.leftOfNegativeIsAll));
    SetMore(lib, start, parts, Attribute(VERSION, SignedNumber(c.version)));
    SetAttribute(lib, next, VERSION, SignedNumber(c.version));
  }

  lemma FieldsOfKeys(lib: Library)
    ensures forall c, v :: SetField(lib, c, COMMENT, v) == c.(comment := v)
    ensures forall c, v :: SetField(lib, c, DOMAIN, v) == c.(domain := v)
    ensures forall c, v :: SetField(lib, c, MAX_AGE, v) == c.(maxAge := lib.toInt(v))
    ensures forall c, v :: SetField(lib, c, PATH, v) == c.(path := v)
    ensures forall c, v :: SetField(lib, c, SECURE, v) == c.(secure := true)
    ensures forall c, v :: SetField(lib, c, HTTP_ONLY, v) == c.(httpOnly := true)
    ensures forall c, v :: SetField(lib, c, VERSION, v) == c.(version := lib.toInt(v))
  {
  }

  lemma TextMayBeEmpty()
    ensures IsCookieText("")
  {
  }

  lemma IntsRead(toInt: string -> int, i: int)
    requires ReadsInts(toInt) && IsInt(i)
    ensures toInt(SignedNumber(i)) == i
  {
  }

  /** A cookie whose name is no attribute comes back with all but its flags, whatever its maximum age. */
  lemma CookieComesBack(lib: Library, c: Cookie, garbage: bool)
    requires Printable(c) && ReadsInts(lib.toInt) && c.name !in KEYWORDS
    ensures Parsed(lib, Printed(c), garbage)
         == c.(secure := c.secure && lib.leftOfNegativeIsAll,
               httpOnly := garbage || (c.httpOnly && lib.leftOfNegativeIsAll))
  {
    hide Attributes, Joined, IsCookieText, ReadsInts, SetFields, Parts, Kept, NameOf, ValueOf;
    var head := c.name + "=" + c.value;
    AttributesArePlain(c);
    AssignmentIsPlain(c.name, c.value);
    SplitJoined(head, Attributes(c));
    AssignmentParts(lib, c.name, c.value);
    var start := SetField(lib, Blank(garbage), c.name, c.value);
    SetFirst(lib, Blank(garbage), head, Attributes(c));
    AttributesSet(lib, c, start);
  }

  lemma SetFirst(lib: Library, c: Cookie, part: string, parts: seq<string>)
    ensures SetFields(lib, c, [part] + parts)
         == SetFields(lib, SetField(lib, c, NameOf(lib, part), ValueOf(part)), parts)
  {
    assert ([part] + parts)[1..] == parts;
  }

  /** Parts that are attributes, or nameless, never set the name. */
  predicate LeaveName(lib: Library, parts: seq<string>) {
    forall part :: part in parts ==> NameOf(lib, part) in KEYWORDS || NameOf(lib, part) == ""
  }

  lemma {:induction false} NameIsLeft(lib: Library, c: Cookie, parts: seq<string>)
    requires LeaveName(lib, parts)
    ensures SetFields(lib, c, parts).name == c.name
    decreases |parts|
  {
    hide NameOf, ValueOf;
    if parts != [] {
      assert parts[0] in parts;
      NameIsLeft(lib, SetField(lib, c, NameOf(lib, parts[0]), ValueOf(parts[0])), parts[1..]);
    }
  }

  /** Once a name is set no later part changes it or its value: the first part that is no attribute names the cookie. */
  lemma {:induction false} FirstNameStays(lib: Library, c: Cookie, parts: seq<string>)
    requires c.name != ""
    ensures SetFields(lib, c, parts).name == c.name && SetFields(lib, c, parts).value == c.value
    decreases |parts|
  {
    hide NameOf, ValueOf;
    if parts != [] {
      FirstNameStays(lib, SetField(lib, c, NameOf(lib, parts[0]), ValueOf(parts[0])), parts[1..]);
    }
  }

  lemma AttributeLeavesName(lib: Library, key: string, value: string)
    requires IsCookieText(key) && key != "" && '=' !in key && IsCookieText(value) && key in KEYWORDS
    ensures LeaveName(lib, Attribute(key, value))
  {
    hide NameOf, KEYWORDS;
    AssignmentParts(lib, key, value);
  }

  lemma FlagLeavesName(lib: Library, key: string, on: bool)
    requires IsCookieText(key) && '=' !in key && key in KEYWORDS
    ensures LeaveName(lib, Flag(key, on))
  {
    hide NameOf, KEYWORDS;
    FlagParts(lib, key);
  }

  lemma AttributesLeaveName(lib: Library, c: Cookie)
    requires Printable(c)
    ensures LeaveName(lib, Attributes(c))
  {
    hide IsCookieText, NameOf, Attribute, Flag, COMMENT, DOMAIN, MAX_AGE, PATH, SECURE, HTTP_ONLY, VERSION;
    KeysArePlain();
    NumberIsPlain(c.maxAge);
    NumberIsPlain(c.version);
    TextMayBeEmpty();
    AttributeLeavesName(lib, COMMENT, c.comment);
    AttributeLeavesName(lib, DOMAIN, c.domain);
    AttributeLeavesName(lib, MAX_AGE, if c.maxAge == 0 then "" else SignedNumber(c.maxAge));
    AttributeLeavesName(lib, PATH, c.path);
    FlagLeavesName(lib, SECURE, c.secure);
    FlagLeavesName(lib, HTTP_ONLY, c.httpOnly);
    AttributeLeavesName(lib, VERSION, SignedNumber(c.version));
  }

  lemma KeywordIsNoName(lib: Library, c: Cookie, key: string, value: string)
    requires key in KEYWORDS
    ensures SetField(lib, c, key, value).name == c.name
  {
  }

  /** A cookie named like an attribute loses its name. */
  lemma KeywordNameIsLost(lib: Library, c: Cookie, garbage: bool)
    requires Printable(c) && c.name in KEYWORDS
    ensures Parsed(lib, Printed(c), garbage).name == ""
  {
    hide Attributes, Joined, IsCookieText, SetFields, SetField, KEYWORDS, LeaveName, Parts, Kept, NameOf, ValueOf;
    var head := c.name + "=" + c.value;
    AttributesArePlain(c);
    AssignmentIsPlain(c.name, c.value);
    SplitJoined(head, Attributes(c));
    AssignmentParts(lib, c.name, c.value);
    AttributesLeaveName(lib, c);
    SetFirst(lib, Blank(garbage), head, Attributes(c));
    KeywordIsNoName(lib, Blank(garbage), c.name, c.value);
    NameIsLeft(lib, SetField(lib, Blank(garbage), c.name, c.value), Attributes(c));
  }

  /** Exactly which cookies survive printing and parsing. */
  lemma CookieRoundTrip(lib: Library, c: Cookie, garbage: bool)
    requires Printable(c) && ReadsInts(lib.toInt)
    ensures Parsed(lib, Printed(c), garbage) == c
       <==> c.name !in KEYWORDS
            && (c.secure ==> lib.leftOfNegativeIsAll)
            && (if c.httpOnly then garbage || lib.leftOfNegativeIsAll else !garbage)
  {
    hide Parsed, Printed;
    if c.name in KEYWORDS {
      KeywordNameIsLost(lib, c, garbage);
    } else {
      CookieComesBack(lib, c, garbage);
    }
  }

  /** With a library that returns nothing in front of a negative position, a secure cookie comes back insecure. */
  lemma SecureIsLost(toInt: string -> int)
    requires ReadsInts(toInt)
    ensures var c := Cookie("id", "1", "", "", 0, "", true, false, 1);
      Parsed(Library(toInt, false), Printed(c), false) == c.(secure := false)
  {
    hide Parsed, Printed, ReadsInts;
    var c := Cookie("id", "1", "", "", 0, "", true, false, 1);
    assert |c.name| == 2 && forall key :: key in KEYWORDS ==> |key| > 2;
    CookieComesBack(Library(toInt, false), c, false);
  }
}
