/** The string operations of the library that the modelled code calls. */
module Strings {

  predicate MatchesAt(s: string, pattern: string, i: int) {
    0 <= i && i + |pattern| <= |s| && s[i..i + |pattern|] == pattern
  }

  /** The first occurrence at or behind `from`, or -1. */
  function IndexOf(s: string, pattern: string, from: nat): (r: int)
    ensures r == -1 || (from <= r && MatchesAt(s, pattern, r))
    ensures forall i :: from <= i && (r == -1 || i < r) ==> !MatchesAt(s, pattern, i)
    decreases |s| - from
  {
    if from + |pattern| > |s| then -1
    else if MatchesAt(s, pattern, from) then from
    else IndexOf(s, pattern, from + 1)
  }

  lemma IndexOfIs(s: string, pattern: string, from: nat, r: int)
    requires from <= r && MatchesAt(s, pattern, r)
    requires forall i :: from <= i < r ==> !MatchesAt(s, pattern, i)
    ensures IndexOf(s, pattern, from) == r
  {
  }

  lemma MatchInSuffix(a: string, b: string, pattern: string, i: nat)
    ensures MatchesAt(a + b, pattern, |a| + i) <==> MatchesAt(b, pattern, i)
  {
    if i + |pattern| <= |b| {
      assert (a + b)[|a| + i..|a| + i + |pattern|] == b[i..i + |pattern|];
    }
  }

  /** Searching behind a prefix is searching the rest. */
  lemma IndexOfInSuffix(a: string, b: string, pattern: string, from: nat)
    ensures IndexOf(a + b, pattern, |a| + from)
         == if IndexOf(b, pattern, from) == -1 then -1 else |a| + IndexOf(b, pattern, from)
    decreases |b| - from
  {
    if from + |pattern| <= |b| {
      MatchInSuffix(a, b, pattern, from);
      if !MatchesAt(b, pattern, from) {
        IndexOfInSuffix(a, b, pattern, from + 1);
      }
    }
  }

  /** Positions without a match can be skipped. */
  lemma IndexOfSkips(s: string, pattern: string, from: nat, end: nat)
    requires from <= end && forall i :: from <= i < end ==> !MatchesAt(s, pattern, i)
    ensures IndexOf(s, pattern, from) == IndexOf(s, pattern, end)
    decreases end - from
  {
    if from < end {
      assert !MatchesAt(s, pattern, from);
      IndexOfSkips(s, pattern, from + 1, end);
    }
  }

  lemma MatchesChar(s: string, c: char, i: nat)
    ensures MatchesAt(s, [c], i) <==> i < |s| && s[i] == c
  {
    if i < |s| {
      assert s[i..i + 1] == [s[i]];
    }
  }

  /** Searching for one character. */
  lemma CharSearch(s: string, c: char, from: nat)
    requires from <= |s|
    ensures var r := IndexOf(s, [c], from);
      if r == -1 then c !in s[from..] else from <= r < |s| && s[r] == c && c !in s[from..r]
  {
    forall i: nat
      ensures MatchesAt(s, [c], i) <==> i < |s| && s[i] == c
    {
      MatchesChar(s, c, i);
    }
  }

  lemma FirstOf(a: string, c: char, b: string)
    requires c !in a
    ensures IndexOf(a + [c] + b, [c], 0) == |a|
  {
    var t := a + [c] + b;
    CharSearch(t, c, 0);
    assert t[|a|] == c && t[0..] == t;
    assert forall i :: 0 <= i < |a| ==> t[i] == a[i];
    forall j | |a| < j <= |t|
      ensures c in t[0..j]
    {
      assert t[0..j][|a|] == c;
    }
  }

  lemma NotFound(a: string, c: char)
    requires c !in a
    ensures IndexOf(a, [c], 0) == -1
  {
    CharSearch(a, c, 0);
  }

  /** Replaces every occurrence from left to right; what was inserted is not searched again. */
  function ReplaceAll(s: string, before: string, after: string): string
    requires before != ""
    decreases |s|
  {
    if s == "" then ""
    else if before <= s then after + ReplaceAll(s[|before|..], before, after)
    else [s[0]] + ReplaceAll(s[1..], before, after)
  }

  // ---------- Decimal numbers ----------

  predicate IsDigit(c: char) {
    '0' <= c <= '9'
  }

  function Digit(d: nat): (c: char)
    requires d < 10
    ensures IsDigit(c)
  {
    d as char + '0'
  }

  function Number(n: nat): (s: string)
    ensures s != "" && forall i :: 0 <= i < |s| ==> IsDigit(s[i])
  {
    if n < 10 then [Digit(n)] else Number(n / 10) + [Digit(n % 10)]
  }

  function SignedNumber(i: int): (s: string)
    ensures s != "" && forall k :: 0 <= k < |s| ==> IsDigit(s[k]) || s[k] == '-'
  {
    if i < 0 then "-" + Number(-i) else Number(i)
  }

  predicate IsInt(i: int) {
    -0x8000_0000 <= i < 0x8000_0000
  }

  /** All that is assumed of the library's reading of numbers: it reads what it prints. */
  ghost predicate ReadsInts(toInt: string -> int) {
    forall i :: IsInt(i) ==> toInt(SignedNumber(i)) == i
  }
}
