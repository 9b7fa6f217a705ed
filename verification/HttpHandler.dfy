/** What a handler has asked for when its first write begins, told from its operations alone. */
module HttpHandlers {
  import opened Strings
  import opened HttpText
  import opened HttpResponses

  /** The last value that a handler gives to a header before its first write; names are compared letter by letter. */
  function LastSet(ops: seq<Op>, name: string): Found {
    if ops == [] || ops[0].Write? then NotFound
    else
      match LastSet(ops[1..], name)
      case Found(value) => Found(value)
      case NotFound => if ops[0].SetHeader? && ops[0].name == name then Found(ops[0].value) else NotFound
  }

  datatype Status = Status(code: nat, text: string)

  /** The last status set before the first write. */
  function LastStatus(ops: seq<Op>, default: Status): Status {
    if ops == [] || ops[0].Write? then default
    else LastStatus(ops[1..], if ops[0].SetStatus? then Status(ops[0].code, ops[0].text) else default)
  }

  /** The last text of a cookie set before the first write. */
  function LastCookie(ops: seq<Op>, name: string): Found {
    if ops == [] || ops[0].Write? then NotFound
    else
      match LastCookie(ops[1..], name)
      case Found(text) => Found(text)
      case NotFound => if ops[0].SetCookie? && ops[0].name == name then Found(ops[0].text) else NotFound
  }

  predicate Names(found: Found, value: string) {
    found.Found? && SameIgnoringCase(found.value, value)
  }

  function Or(found: Found, default: string): string {
    if found.Found? then found.value else default
  }

  // ---------- The response in front of the first write ----------

  lemma {:induction false} ContainsInserted(hs: seq<Header>, name: string, value: string, other: string)
    ensures Contains(Insert(hs, name, value), other) <==> other == name || Contains(hs, other)
  {
    InsertedNames(hs, name, value);
    var inserted := Insert(hs, name, value);
    if Contains(inserted, other) {
      var i :| 0 <= i < |inserted| && inserted[i].name == other;
      assert inserted[i] in inserted;
    }
    if other == name {
      var i :| 0 <= i < |inserted| && inserted[i] == Header(name, value);
    } else if Contains(hs, other) {
      var i :| 0 <= i < |hs| && hs[i].name == other;
      assert hs[i] in hs && hs[i] in inserted;
    }
  }

  /** Every header, cookie and the status as the operations set them last. */
  lemma {:induction false} SetBeforeWrite(r: Response, ops: seq<Op>, name: string, default: string)
    ensures var b := BeforeWrite(r, ops);
      && Value(b.headers, name, default) == Or(LastSet(ops, name), Value(r.headers, name, default))
      && (Contains(b.headers, name) <==> LastSet(ops, name).Found? || Contains(r.headers, name))
      && Status(b.statusCode, b.statusText) == LastStatus(ops, Status(r.statusCode, r.statusText))
      && (name != "" ==>
            Value(b.cookies, name, default) == Or(LastCookie(ops, name), Value(r.cookies, name, default)))
    decreases |ops|
  {
    hide Insert, WriteSpec, Contains;
    if ops != [] && !ops[0].Write? {
      match ops[0] {
        case SetHeader(other, value) =>
          InsertedValue(r.headers, other, value, name, default);
          ContainsInserted(r.headers, other, value, name);
        case SetCookie(other, text) =>
          InsertedValue(r.cookies, other, text, name, default);
        case SetStatus(_, _) =>
      }
      SetBeforeWrite(Do(r, ops[0]).response, ops[1..], name, default);
    }
  }

  /** Writing an end behind all operations changes nothing of what was set before the first write. */
  lemma {:induction false} OneMoreAtEnd(r: Response, ops: seq<Op>)
    ensures var all := ops + [Write("", true)];
      && BeforeWrite(r, all) == BeforeWrite(r, ops) && BeginsWithPart(all) == BeginsWithPart(ops)
      && FirstData(all) == FirstData(ops)
    decreases |ops|
  {
    hide Do;
    var all := ops + [Write("", true)];
    if ops != [] && !ops[0].Write? {
      assert all[1..] == ops[1..] + [Write("", true)];
      OneMoreAtEnd(Do(r, ops[0]).response, ops[1..]);
    }
  }

  // ---------- The headers that the first write settles ----------

  /** What a complete run has sent in its header block. */
  lemma {:induction false} SettledByFirstWrite(r: Response, ops: seq<Op>)
    requires !r.sentHeaders && !r.sentLastPart && Legal(r, ops) && DoAll(r, ops).response.sentLastPart
    ensures DoAll(r, ops).response.headers
         == Framing(BeforeWrite(r, ops), FirstData(ops), !BeginsWithPart(ops)).headers
    decreases |ops|
  {
    hide Insert, WriteSpec, Framing, Legal, DoAll;
    if ops == [] {
      NothingDone(r);
    } else if ops[0].Write? {
      FirstIsWrite(r, ops);
      AfterFirst(r, ops);
      Settled(r, ops[0].data, ops[0].last);
      BodyBytes(Do(r, ops[0]).response, ops[1..], "");
    } else {
      SkipOp(r, ops);
      SettledByFirstWrite(Do(r, ops[0]).response, ops[1..]);
    }
  }

  lemma NothingDone(r: Response)
    ensures DoAll(r, []).response == r
  {
  }

  lemma AfterFirst(r: Response, ops: seq<Op>)
    requires ops != [] && Legal(r, ops)
    ensures var next := Do(r, ops[0]).response;
      DoAll(r, ops).response == DoAll(next, ops[1..]).response && Legal(next, ops[1..])
  {
    hide Do;
  }

  lemma Settled(r: Response, data: string, last: bool)
    requires !r.sentHeaders
    ensures WriteSpec(r, data, last).response.headers == Framing(r, data, last).headers
    ensures WriteSpec(r, data, last).response.sentHeaders
  {
    hide Insert, HeaderBlock, BodyPart;
  }

  /** The framing header that the first write inserts, in terms of the headers in front of it. */
  lemma FramingHeaders(r: Response, data: string, last: bool)
    ensures var hs := Framing(r, data, last).headers;
      var connection := Value(r.headers, "Connection", Value(r.headers, "connection", ""));
      var chunked := !last && !SameIgnoringCase(connection, "close");
      && (Contains(hs, "Content-Length") <==> last || Contains(r.headers, "Content-Length"))
      && Value(hs, "Transfer-Encoding", "")
           == (if chunked then "chunked" else Value(r.headers, "Transfer-Encoding", ""))
      && Value(hs, "Connection", "") == Value(r.headers, "Connection", "")
  {
    hide Insert, Contains, Lower, Value;
    ContainsInserted(r.headers, "Content-Length", Number(|data|), "Content-Length");
    ContainsInserted(r.headers, "Transfer-Encoding", "chunked", "Content-Length");
    InsertedValue(r.headers, "Content-Length", Number(|data|), "Transfer-Encoding", "");
    InsertedValue(r.headers, "Transfer-Encoding", "chunked", "Transfer-Encoding", "");
    InsertedValue(r.headers, "Content-Length", Number(|data|), "Connection", "");
    InsertedValue(r.headers, "Transfer-Encoding", "chunked", "Connection", "");
    NamesDiffer();
  }

  lemma NamesDiffer()
    ensures "Content-Length" != "Transfer-Encoding" && "Connection" != "Transfer-Encoding"
    ensures "Connection" != "Content-Length"
  {
    assert |"Content-Length"| == 14 && |"Transfer-Encoding"| == 17 && |"Connection"| == 10;
  }
}
