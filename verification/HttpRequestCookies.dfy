/** The cookies a client sends back, in one header. */
module HttpRequestCookies {
  import opened Strings
  import opened HttpText
  import opened HttpCookies
  import opened HttpRequests

  predicate IsPair(p: Parameter) {
    IsCookieText(p.name) && p.name != "" && '=' !in p.name && IsCookieText(p.value)
  }

  predicate ArePairs(pairs: seq<Parameter>) {
    forall p :: p in pairs ==> IsPair(p)
  }

  function Texts(pairs: seq<Parameter>): (r: seq<string>)
    ensures |r| == |pairs|
  {
    if pairs == [] then [] else [pairs[0].name + "=" + pairs[0].value] + Texts(pairs[1..])
  }

  /** The value of a Cookie header (section 4.3.4 of RFC 2109, with the separator that clients use). */
  function CookieText(pairs: seq<Parameter>): string
    requires pairs != []
  {
    Texts(pairs)[0] + Joined(Texts(pairs)[1..])
  }

  predicate Names(pairs: seq<Parameter>, name: string) {
    exists i :: 0 <= i < |pairs| && pairs[i].name == name
  }

  predicate Has(cookies: map<string, string>, p: Parameter) {
    p.name in cookies && cookies[p.name] == p.value
  }

  predicate Same(before: map<string, string>, after: map<string, string>, name: string) {
    if name in before then name in after && after[name] == before[name] else name !in after
  }

  /** Each name has the value it is given last, and no other name is touched. */
  ghost predicate Given(before: map<string, string>, after: map<string, string>, pairs: seq<Parameter>) {
    && (forall i :: 0 <= i < |pairs| && !Names(pairs[i + 1..], pairs[i].name) ==> Has(after, pairs[i]))
    && (forall name :: !Names(pairs, name) ==> Same(before, after, name))
  }

  lemma NamesOfMore(p: Parameter, rest: seq<Parameter>, name: string)
    ensures Names([p] + rest, name) <==> p.name == name || Names(rest, name)
  {
    var pairs := [p] + rest;
    assert forall j :: 0 <= j < |rest| ==> pairs[j + 1] == rest[j];
    assert pairs[0] == p;
  }

  lemma GivenMore(before: map<string, string>, after: map<string, string>, p: Parameter, rest: seq<Parameter>)
    requires Given(before[p.name := p.value], after, rest)
    ensures Given(before, after, [p] + rest)
  {
    hide Names;
    var pairs, next := [p] + rest, before[p.name := p.value];
    forall i | 0 <= i < |pairs| && !Names(pairs[i + 1..], pairs[i].name)
      ensures Has(after, pairs[i])
    {
      if i == 0 {
        assert pairs[1..] == rest;
        assert Same(next, after, p.name);
      } else {
        assert pairs[i + 1..] == rest[i..] && pairs[i] == rest[i - 1];
      }
    }
    forall name | !Names(pairs, name)
      ensures Same(before, after, name)
    {
      NamesOfMore(p, rest, name);
      assert Same(next, after, name);
    }
  }

  lemma {:induction false} TextsArePlain(pairs: seq<Parameter>)
    requires ArePairs(pairs)
    ensures AllPlain(Texts(pairs))
    decreases |pairs|
  {
    hide IsCookieText;
    if pairs != [] {
      assert pairs[0] in pairs;
      TextsArePlain(pairs[1..]);
      AssignmentIsPlain(pairs[0].name, pairs[0].value);
    }
  }

  lemma {:induction false} AddedPairs(lib: Library, cookies: map<string, string>, pairs: seq<Parameter>)
    requires ArePairs(pairs)
    ensures Given(cookies, AddCookies(lib, cookies, Texts(pairs)), pairs)
    decreases |pairs|
  {
    hide IsCookieText, NameOf, ValueOf, Given;
    if pairs == [] {
      assert Given(cookies, cookies, []) by { GivenNothing(cookies); }
    } else {
      var p, rest := pairs[0], pairs[1..];
      assert p in pairs && pairs == [p] + rest;
      AssignmentParts(lib, p.name, p.value);
      AddedPairs(lib, cookies[p.name := p.value], rest);
      assert Texts(pairs)[1..] == Texts(rest);
      GivenMore(cookies, AddCookies(lib, cookies, Texts(pairs)), p, rest);
    }
  }

  lemma GivenNothing(cookies: map<string, string>)
    ensures Given(cookies, cookies, [])
  {
  }

  /** Every name of a cookie header gets its value, and no other name is touched. */
  lemma CookieHeaderRoundTrip(cfg: Config, cookies: map<string, string>, pairs: seq<Parameter>)
    requires ArePairs(pairs) && pairs != []
    ensures Given(cookies, AddCookieHeaders(cfg.lib, cookies, [CookieText(pairs)]), pairs)
  {
    hide IsCookieText, Given, Parts, Kept, Joined;
    var texts := Texts(pairs);
    TextsArePlain(pairs);
    assert texts[0] in texts && forall t :: t in texts[1..] ==> t in texts;
    SplitJoined(texts[0], texts[1..]);
    assert texts == [texts[0]] + texts[1..];
    AddedPairs(cfg.lib, cookies, pairs);
    assert [CookieText(pairs)][1..] == [];
  }

  // ---------- More than one header ----------

  lemma {:induction false} TextsConcat(a: seq<Parameter>, b: seq<Parameter>)
    ensures Texts(a + b) == Texts(a) + Texts(b)
  {
    if a == [] {
      assert a + b == b;
    } else {
      assert (a + b)[1..] == a[1..] + b;
      TextsConcat(a[1..], b);
    }
  }

  lemma {:induction false} AddMore(lib: Library, cookies: map<string, string>, a: seq<string>, b: seq<string>)
    ensures AddCookies(lib, cookies, a + b) == AddCookies(lib, AddCookies(lib, cookies, a), b)
    decreases |a|
  {
    hide NameOf, ValueOf;
    if a == [] {
      assert a + b == b;
    } else {
      assert (a + b)[1..] == a[1..] + b;
      AddMore(lib, cookies[NameOf(lib, a[0]) := ValueOf(a[0])], a[1..], b);
    }
  }

  lemma TextIsSplit(pairs: seq<Parameter>)
    requires ArePairs(pairs) && pairs != []
    ensures Kept(Parts(CookieText(pairs), false)) == Texts(pairs)
  {
    hide IsCookieText, Parts, Kept, Joined;
    var texts := Texts(pairs);
    TextsArePlain(pairs);
    assert texts[0] in texts && forall t :: t in texts[1..] ==> t in texts;
    SplitJoined(texts[0], texts[1..]);
    assert texts == [texts[0]] + texts[1..];
  }

  lemma ValuesOfTwo(first: string, second: string)
    ensures ValuesOf([Header("cookie", first), Header("cookie", second)], "cookie") == [second, first]
  {
    var a, b := Header("cookie", first), Header("cookie", second);
    assert [a, b][..1] == [a] && [a][..0] == [];
    assert ValuesOf([a], "cookie") == [first] + [] == [first];
  }

  /** Of two cookie headers the first one has the last word: its pairs are given behind those of the second one. */
  lemma FirstHeaderWins(cfg: Config, cookies: map<string, string>, first: seq<Parameter>, second: seq<Parameter>)
    requires ArePairs(first) && first != [] && ArePairs(second) && second != []
    ensures var hs := [Header("cookie", CookieText(first)), Header("cookie", CookieText(second))];
      Given(cookies, AddCookieHeaders(cfg.lib, cookies, ValuesOf(hs, "cookie")), second + first)
  {
    hide IsCookieText, Given, Parts, Kept, CookieText, ValuesOf;
    ValuesOfTwo(CookieText(first), CookieText(second));
    TextIsSplit(first);
    TextIsSplit(second);
    TextsConcat(second, first);
    AddMore(cfg.lib, cookies, Texts(second), Texts(first));
    AddedPairs(cfg.lib, cookies, second + first);
    var one, values := [CookieText(first)], [CookieText(second), CookieText(first)];
    assert values[1..] == one && one[1..] == [];
    var next := AddCookies(cfg.lib, cookies, Texts(second));
    assert AddCookieHeaders(cfg.lib, next, one) == AddCookies(cfg.lib, next, Texts(first));
    assert AddCookieHeaders(cfg.lib, cookies, values) == AddCookieHeaders(cfg.lib, next, one);
  }
}
