/** Requests whose body is multipart or chunked: what is dispatched. */
module HttpBodies {
  import opened Strings
  import opened HttpText
  import opened HttpSockets
  import opened HttpForm
  import HttpMultiPart
  import opened HttpRequests
  import opened HttpLimits
  import opened HttpMessages
  import HttpPipelining
  import HttpPipelineRuns
  import HttpResponses
  import opened HttpSplitLines

  // ---------- A whole head ----------

  /** The request behind a head, of which nothing has been said about the body. */
  function BehindLastLine(cfg: Config, m: Message, size: int): Request {
    Checked(cfg, EndOfHeaders(cfg, StateAt(m, Count(m) - 1).(currentSize := size)))
  }

  lemma LastLine(cfg: Config, m: Message, size: nat, more: string)
    requires size + 2 <= cfg.maxSize
    ensures ReadStep(cfg, StateAt(m, Count(m) - 1).(currentSize := size), CRLF + more)
         == Step(BehindLastLine(cfg, m, size + 2), more)
  {
    hide LineUpTo, LineDone, Checked, EndOfHeaders, ReadStep, Keys, Lower;
    var r := StateAt(m, Count(m) - 1).(currentSize := size);
    LineBreakEnds("", more, LineLimit(cfg, r));
    assert "" + CRLF == CRLF && CRLF[0] == '\r';
    BufferedLine(cfg, r, CRLF, more);
    EmptyLine(cfg, r.(currentSize := size + 2), CRLF);
  }

  lemma {:induction false} HeadCollected(cfg: Config, m: Message, j: nat, size: nat, more: string)
    requires WellFormedHead(m) && j < Count(m) && size + |LinesFrom(m, j)| <= cfg.maxSize
    ensures PendingOrFinal(StateAt(m, j).(currentSize := size))
    ensures var r := BehindLastLine(cfg, m, size + |LinesFrom(m, j)|);
      && PendingOrFinal(r)
      && Collect(cfg, StateAt(m, j).(currentSize := size), LinesFrom(m, j) + more) == Collect(cfg, r, more)
    decreases Count(m) - j
  {
    hide WellFormedHead, Text, StateAt, Collect, ReadStep, Pending, BehindLastLine, CRLF;
    var r, s := StateAt(m, j).(currentSize := size), LinesFrom(m, j) + more;
    WaitingStays(cfg, m, j, size);
    if j + 1 < Count(m) {
      var later := LinesFrom(m, j + 1);
      assert s == Text(m, j) + CRLF + (later + more);
      assert |CRLF| == 2 by { BreakLength(); }
      WholeLine(cfg, m, j, size, later + more);
      HeadCollected(cfg, m, j + 1, size + |Text(m, j)| + 2, more);
    } else {
      LastTextIsEmpty(m, j);
      assert LinesFrom(m, j) == "" + CRLF + "";
      BreakLength();
      assert s == CRLF + more;
      LastLine(cfg, m, size, more);
      StepKeepsPending(cfg, r, s);
    }
    CollectStep(cfg, r, s);
  }

  lemma BreakLength()
    ensures |CRLF| == 2
  {
  }

  // ---------- Multipart requests ----------

  /** A request with these form fields and files, and the length of its body. */
  predicate IsUpload(m: Message, boundary: string, fields: seq<HttpMultiPart.Item>, epilogue: string) {
    && WellFormedHead(m)
    && boundary != "" && HttpMultiPart.LineBoundary(boundary) && !HttpMultiPart.MadeOfDashes(boundary)
    && HttpMultiPart.GoodFields(boundary, fields) && (fields != [] || epilogue == "")
    && m.body == HttpMultiPart.Encode(boundary, fields) + epilogue && IsInt(|m.body|)
    && BoundaryOf(LastValue(Keys(m.headers), "content-type"), "") == boundary
    && LastValue(Keys(m.headers), "content-length") == SignedNumber(|m.body|)
  }

  const CONTENT_TYPE := "multipart/form-data; boundary="

  /** Two forms of the content type in which the boundary is found. */
  lemma BoundaryIsFound(boundary: string)
    requires '"' !in boundary
    ensures BoundaryOf("multipart/form-data; boundary=" + boundary, "") == boundary
    ensures BoundaryOf("multipart/form-data; boundary=" + ("\"" + boundary + "\""), "") == boundary
  {
    hide IndexOf, MatchesAt;
    KeyIsFound(boundary);
    KeyIsFound("\"" + boundary + "\"");
    assert boundary != "" ==> boundary[0] in boundary;
    assert (CONTENT_TYPE + boundary)[30..] == boundary;
    var quoted := "\"" + boundary + "\"";
    assert (CONTENT_TYPE + quoted)[30..] == quoted && quoted[1..|quoted| - 1] == boundary;
  }

  lemma KeyIsFound(b: string)
    ensures IndexOf(CONTENT_TYPE + b, "boundary=", 0) == 21 && StartsWith(CONTENT_TYPE + b, "multipart/form-data")
  {
    var s := CONTENT_TYPE + b;
    assert s[21..30] == "boundary=";
    forall i | 0 <= i < 21
      ensures !MatchesAt(s, "boundary=", i)
    {
      assert s[i] == CONTENT_TYPE[i] != 'b';
      if i + 9 <= |s| {
        assert s[i..i + 9][0] == s[i];
      }
    }
    IndexOfIs(s, "boundary=", 0, 21);
    assert s[..19] == "multipart/form-data";
  }

  /** The request that waits for its multipart body, with what has arrived of it. */
  function Uploading(m: Message, boundary: string, size: int, arrived: string): Request {
    StateAt(m, Count(m) - 1).(status := WaitForBody, boundary := boundary, expectedBodySize := |m.body|,
                              currentSize := size, tempFile := arrived)
  }

  /** The request that is dispatched. */
  function Uploaded(cfg: Config, m: Message, boundary: string, fields: seq<HttpMultiPart.Item>, size: int): Request {
    TakeCookies(cfg, AddParameters(cfg, Uploading(m, boundary, size + HttpMultiPart.FieldBytes(fields), m.body).(
      status := Complete, parameters := HttpMultiPart.Parameters(fields), uploads := HttpMultiPart.Uploads(fields))))
  }

  /** The limits: the announced size must be below the maximum, although it may equal it at first. */
  predicate UploadFits(cfg: Config, m: Message, fields: seq<HttpMultiPart.Item>) {
    |m.body| < cfg.maxMultiPartSize && |Head(m)| + HttpMultiPart.FieldBytes(fields) <= cfg.maxMultiPartSize
  }

  lemma UploadStarts(cfg: Config, m: Message, boundary: string, fields: seq<HttpMultiPart.Item>, epilogue: string,
                     size: nat)
    requires IsUpload(m, boundary, fields, epilogue) && ReadsInts(cfg.lib.toInt)
    ensures var r := BehindLastLine(cfg, m, size);
      if |m.body| <= cfg.maxMultiPartSize && size <= cfg.maxMultiPartSize then r == Uploading(m, boundary, size, "")
      else r.status == Abort
  {
    hide BoundaryOf, LastValue, IsWord, IsField, WellFormedHead, HttpMultiPart.LineBoundary, HttpMultiPart.GoodFields,
         HttpMultiPart.Encode, HttpMultiPart.MadeOfDashes, ReadsInts, Keys, AddParameters, TakeCookies;
    var hs := Keys(m.headers);
    assert hs[..|m.headers|] == hs;
    NumberIsRead(cfg, |m.body|);
    EncodingIsNotEmpty(boundary, fields);
  }

  lemma EncodingIsNotEmpty(boundary: string, fields: seq<HttpMultiPart.Item>)
    ensures HttpMultiPart.Encode(boundary, fields) != ""
  {
  }

  /** A block that does not complete the body. */
  lemma BlockArrives(cfg: Config, m: Message, boundary: string, size: nat, arrived: string, s: string)
    requires boundary != "" && s != "" && size <= cfg.maxMultiPartSize && |m.body| <= cfg.maxMultiPartSize
    requires |arrived| < |m.body|
    ensures var missing := |m.body| - |arrived|;
      var n := if missing > BLOCK_SIZE then BLOCK_SIZE else missing;
      var data := s[..if n <= |s| then n else |s|];
      |arrived + data| < |m.body| ==>
        ReadStep(cfg, Uploading(m, boundary, size, arrived), s)
          == Step(Uploading(m, boundary, size, arrived + data), s[|data|..])
  {
    hide HttpMultiPart.ParseParts, TakeCookies, AddParameters, Keys, Lower, AddMultiPart;
  }

  /** The request when the whole body has arrived, before its size is checked. */
  function AllArrived(cfg: Config, m: Message, boundary: string, size: int): Request {
    var r := Uploading(m, boundary, size, m.body);
    if |m.body| >= cfg.maxMultiPartSize then r.(status := Abort) else AddMultiPart(r).(status := Complete)
  }

  /** The block that completes the body. */
  lemma LastBlockArrives(cfg: Config, m: Message, boundary: string, size: nat, arrived: string, s: string, tail: string)
    requires boundary != "" && |arrived| < |m.body| <= |arrived| + |s| && arrived + s == m.body + tail
    requires |m.body| - |arrived| <= BLOCK_SIZE
    ensures ReadStep(cfg, Uploading(m, boundary, size, arrived), s)
         == Step(Checked(cfg, AllArrived(cfg, m, boundary, size)), tail)
  {
    hide Checked, AddMultiPart, Keys, Lower;
    var n := |m.body| - |arrived|;
    assert s[..n] == (arrived + s)[|arrived|..|m.body|] == m.body[|arrived|..];
    assert arrived + s[..n] == (arrived + s)[..|m.body|] == m.body;
    assert s[n..] == (arrived + s)[|m.body|..] == tail;
    assert BytesUpTo(s, n) == s[..n];
  }

  lemma AllIsChecked(cfg: Config, m: Message, boundary: string, fields: seq<HttpMultiPart.Item>, epilogue: string,
                     size: nat)
    requires IsUpload(m, boundary, fields, epilogue) && |m.body| <= cfg.maxMultiPartSize
    ensures var r := Checked(cfg, AllArrived(cfg, m, boundary, size));
      if |m.body| < cfg.maxMultiPartSize && size + HttpMultiPart.FieldBytes(fields) <= cfg.maxMultiPartSize then
        r == Uploaded(cfg, m, boundary, fields, size)
      else r.status == Abort
  {
    hide HttpMultiPart.ParseParts, TakeCookies, AddParameters, Keys, Lower, HttpMultiPart.Encode, StateAt,
         HttpMultiPart.GoodFields, HttpMultiPart.LineBoundary, HttpMultiPart.MadeOfDashes, WellFormedHead;
    HttpMultiPart.MultiPartRoundTrip(boundary, fields, epilogue);
    var ps, us := HttpMultiPart.Parameters(fields), HttpMultiPart.Uploads(fields);
    assert [] + ps == ps && [] + us == us;
    NothingAdded(m, boundary, size);
  }

  lemma NothingAdded(m: Message, boundary: string, size: int)
    ensures var r := Uploading(m, boundary, size, m.body);
      r.parameters == [] && r.uploads == [] && r.currentSize == size
  {
  }

  lemma AllArrivedIsFinal(cfg: Config, m: Message, boundary: string, size: int)
    ensures var r := Checked(cfg, AllArrived(cfg, m, boundary, size)); r.status == Complete || r.status == Abort
  {
    hide TakeCookies, AddParameters, AddMultiPart, StateAt;
    CheckedHeaders(cfg, AllArrived(cfg, m, boundary, size));
  }

  lemma UploadingIsPending(m: Message, boundary: string, size: int, arrived: string)
    ensures Pending(Uploading(m, boundary, size, arrived).(boundary := "")) || boundary != ""
    ensures Uploading(m, boundary, size, arrived).status == WaitForBody
  {
  }

  /** Blocks that do not complete the body are collected. */
  lemma {:induction false} BlocksCollected(cfg: Config, m: Message, boundary: string, size: nat, arrived: string,
                                           s: string)
    requires boundary != "" && size <= cfg.maxMultiPartSize && |m.body| <= cfg.maxMultiPartSize
    requires |arrived + s| < |m.body|
    ensures Collect(cfg, Uploading(m, boundary, size, arrived), s)
         == Step(Uploading(m, boundary, size, arrived + s), "")
    decreases |s|
  {
    hide ReadStep, Keys, Lower;
    var r := Uploading(m, boundary, size, arrived);
    if s == "" {
      assert arrived + s == arrived;
    } else {
      BlockArrives(cfg, m, boundary, size, arrived, s);
      var n := if |s| > BLOCK_SIZE then BLOCK_SIZE else |s|;
      assert arrived + s[..n] + s[n..] == arrived + s;
      CollectStep(cfg, r, s);
      BlocksCollected(cfg, m, boundary, size, arrived + s[..n], s[n..]);
    }
  }

  /** Blocks up to the end of the body, and the bytes behind it are left. */
  lemma {:induction false} BodyCollected(cfg: Config, m: Message, boundary: string, size: nat, arrived: string,
                                         s: string, tail: string)
    requires boundary != "" && size <= cfg.maxMultiPartSize && |m.body| <= cfg.maxMultiPartSize
    requires |arrived| < |m.body| && arrived + s == m.body + tail
    ensures Collect(cfg, Uploading(m, boundary, size, arrived), s)
         == Step(Checked(cfg, AllArrived(cfg, m, boundary, size)), tail)
    decreases |s|
  {
    hide ReadStep, Keys, Lower, Checked, AllArrived;
    var r := Uploading(m, boundary, size, arrived);
    AllArrivedIsFinal(cfg, m, boundary, size);
    assert |arrived| + |s| == |m.body| + |tail|;
    if |m.body| - |arrived| <= BLOCK_SIZE {
      LastBlockArrives(cfg, m, boundary, size, arrived, s, tail);
      CollectStep(cfg, r, s);
      FinalStays(cfg, Checked(cfg, AllArrived(cfg, m, boundary, size)), tail);
    } else {
      BlockArrives(cfg, m, boundary, size, arrived, s);
      var n := BLOCK_SIZE;
      assert arrived + s[..n] + s[n..] == arrived + s;
      CollectStep(cfg, r, s);
      BodyCollected(cfg, m, boundary, size, arrived + s[..n], s[n..], tail);
    }
  }

  lemma {:induction false} BodyPieces(cfg: Config, m: Message, boundary: string, size: nat, arrived: string,
                                      pieces: seq<string>)
    requires boundary != "" && size <= cfg.maxMultiPartSize && |m.body| <= cfg.maxMultiPartSize
    requires |arrived| < |m.body| && arrived + HttpPipelineRuns.Concat(pieces) == m.body
    ensures CollectPieces(cfg, Uploading(m, boundary, size, arrived), pieces).request
         == Checked(cfg, AllArrived(cfg, m, boundary, size))
    decreases |pieces|
  {
    hide Collect, Keys, Lower, Checked, AllArrived;
    var r := Uploading(m, boundary, size, arrived);
    assert arrived + "" == arrived;
    if pieces != [] {
      var piece, later := pieces[0], HttpPipelineRuns.Concat(pieces[1..]);
      assert arrived + (piece + later) == arrived + piece + later;
      if |arrived + piece| < |m.body| {
        BlocksCollected(cfg, m, boundary, size, arrived, piece);
        BodyPieces(cfg, m, boundary, size, arrived + piece, pieces[1..]);
      } else {
        assert |later| == 0;
        assert arrived + piece == m.body + "";
        BodyCollected(cfg, m, boundary, size, arrived, piece, "");
        AllArrivedIsFinal(cfg, m, boundary, size);
        FinalPieces(cfg, Checked(cfg, AllArrived(cfg, m, boundary, size)), pieces[1..]);
      }
    }
  }

  lemma {:induction false} FinalPieces(cfg: Config, r: Request, pieces: seq<string>)
    requires r.status == Complete || r.status == Abort
    ensures CollectPieces(cfg, r, pieces).request == r
    decreases |pieces|
  {
    if pieces != [] {
      FinalPieces(cfg, r, pieces[1..]);
    }
  }

  /** What `UploadDelivered` says of the request. */
  predicate IsRead(cfg: Config, m: Message, boundary: string, fields: seq<HttpMultiPart.Item>, r: Request) {
    if UploadFits(cfg, m, fields) then r == Uploaded(cfg, m, boundary, fields, |Head(m)|) else r.status == Abort
  }

  /**
   A multipart request whose head arrives with the first of any pieces of its body: the right parameters and files are
   dispatched if and only if the body is smaller than the maximum and the head and the form fields are within it;
   otherwise the request is refused. A body of exactly the maximum passes the check of the announced size and is refused
   when it has arrived.
   */
  lemma UploadDelivered(cfg: Config, m: Message, boundary: string, fields: seq<HttpMultiPart.Item>, epilogue: string,
                        first: string, pieces: seq<string>)
    requires IsUpload(m, boundary, fields, epilogue) && ReadsInts(cfg.lib.toInt) && |Head(m)| <= cfg.maxSize
    requires first + HttpPipelineRuns.Concat(pieces) == m.body
    ensures IsRead(cfg, m, boundary, fields,
                   CollectPieces(cfg, NEW_REQUEST, [Head(m) + first] + pieces).request)
  {
    hide Collect, CollectPieces, BehindLastLine, AllArrived, Checked, LinesFrom, IsUpload, ReadsInts, Uploading,
         Uploaded, HttpPipelineRuns.Concat, StateAt;
    var size, all := |Head(m)|, [Head(m) + first] + pieces;
    UploadIsWellFormed(m, boundary, fields, epilogue);
    assert StateAt(m, 0).(currentSize := 0) == NEW_REQUEST by { StartOfMessage(m); }
    HeadCollected(cfg, m, 0, 0, first);
    UploadStarts(cfg, m, boundary, fields, epilogue, size);
    var r := BehindLastLine(cfg, m, size);
    FirstPiece(cfg, NEW_REQUEST, r, Head(m) + first, first, pieces);
    if |m.body| <= cfg.maxMultiPartSize && size <= cfg.maxMultiPartSize {
      UploadingIsPending(m, boundary, size, "");
      assert "" + HttpPipelineRuns.Concat([first] + pieces) == m.body by { ConcatFirst(first, pieces); }
      BodyPieces(cfg, m, boundary, size, "", [first] + pieces);
      AllIsChecked(cfg, m, boundary, fields, epilogue, size);
    } else {
      FinalPieces(cfg, r, [first] + pieces);
    }
  }

  lemma ConcatFirst(first: string, pieces: seq<string>)
    ensures "" + HttpPipelineRuns.Concat([first] + pieces) == first + HttpPipelineRuns.Concat(pieces)
  {
    assert ([first] + pieces)[1..] == pieces;
  }

  lemma StartOfMessage(m: Message)
    ensures StateAt(m, 0).(currentSize := 0) == NEW_REQUEST
  {
  }

  lemma UploadIsWellFormed(m: Message, boundary: string, fields: seq<HttpMultiPart.Item>, epilogue: string)
    requires IsUpload(m, boundary, fields, epilogue)
    ensures WellFormedHead(m) && boundary != "" && m.body != ""
  {
    EncodingIsNotEmpty(boundary, fields);
  }

  /** The first of the pieces can be replaced by what is left of it. */
  lemma FirstPiece(cfg: Config, r: Request, r': Request, s: string, s': string, pieces: seq<string>)
    requires PendingOrFinal(r) && PendingOrFinal(r') && Collect(cfg, r, s) == Collect(cfg, r', s')
    ensures CollectPieces(cfg, r, [s] + pieces).request == CollectPieces(cfg, r', [s'] + pieces).request
  {
    hide Collect, CollectPieces, PendingOrFinal;
    PiecesStep(cfg, r, s, pieces);
    PiecesStep(cfg, r', s', pieces);
  }

  lemma PiecesStep(cfg: Config, r: Request, s: string, pieces: seq<string>)
    requires PendingOrFinal(r)
    ensures CollectPieces(cfg, r, [s] + pieces).request
         == CollectPieces(cfg, Collect(cfg, r, s).request, pieces).request
  {
    hide Collect, PendingOrFinal;
    assert ([s] + pieces)[1..] == pieces && ([s] + pieces)[0] == s;
  }

  /** What is dispatched for an upload that fits. */
  lemma UploadedFields(cfg: Config, m: Message, boundary: string, fields: seq<HttpMultiPart.Item>, size: int)
    ensures var r := Uploaded(cfg, m, boundary, fields, size);
      && r.status == Complete && r.verb == m.verb && r.path == PathOnly(m.path)
      && r.uploads == HttpMultiPart.Uploads(fields)
      && r.parameters == HttpMultiPart.Parameters(fields)
           + DecodeParameters(cfg.hexToInt, m.path, LastValue(Keys(m.headers), "content-type"), "")
  {
    hide AddCookieHeaders, LastValue, ValuesOf, HttpRequests.Without, DecodeParameters, PathOnly, Keys;
    assert Keys(m.headers)[..|m.headers|] == Keys(m.headers);
  }

  // ---------- Chunked requests ----------

  /** A request that announces chunks and no length. */
  predicate IsChunked(m: Message) {
    WellFormed(m) && m.body == "" && Header("transfer-encoding", "chunked") in Keys(m.headers)
  }

  /**
   The coding of a request body is ignored: the request is dispatched with an empty body, and its first chunk is read as
   the next request and refused.
   */
  lemma ChunksAreNextRequest(cfg: Config, m: Message, data: string, more: string)
    requires IsChunked(m) && ReadsInts(cfg.lib.toInt) && |Head(m)| <= cfg.maxSize
    requires data != "" && |HexNumber(|data|)| + 2 <= cfg.maxSize
    ensures var chunks := HttpResponses.Chunk(data) + more;
      && Collect(cfg, NEW_REQUEST, Head(m) + chunks) == Step(HttpPipelining.RequestOf(cfg, m, |Head(m)|), chunks)
      && ReadStep(cfg, NEW_REQUEST, chunks).request.status == Abort
  {
    hide Collect, ReadStep, StateAt, HexNumber, HttpResponses.Chunk, HttpPipelining.RequestOf, WellFormedHead,
         ReadsInts, Finished, NextState, BehindLastLine, LinesFrom, Keys;
    var size, chunks := |Head(m)|, HttpResponses.Chunk(data) + more;
    StartOfMessage(m);
    HeadCollected(cfg, m, 0, 0, chunks);
    LastLineOfEmpty(cfg, m, size);
    NoBodyBehindHead(cfg, m, size);
    FinishedIsComplete(cfg, m, "", size);
    FinalStays(cfg, Finished(cfg, m, "", size), chunks);
    assert Finished(cfg, m, "", size) == HttpPipelining.RequestOf(cfg, m, size) by { FinishedIsRight(cfg, m, size); }
    ChunkIsNoRequest(cfg, data, more);
  }

  lemma LastLineOfEmpty(cfg: Config, m: Message, size: int)
    requires WellFormed(m) && ReadsInts(cfg.lib.toInt)
    ensures BehindLastLine(cfg, m, size) == Checked(cfg, NextState(cfg, m, Count(m) - 1, size))
  {
    hide WellFormed, ReadsInts, Checked, NextState, EndOfHeaders, StateAt;
    EndOfAllHeaders(cfg, m, size);
  }

  lemma FinishedIsRight(cfg: Config, m: Message, size: int)
    requires m.body == ""
    ensures Finished(cfg, m, "", size) == HttpPipelining.RequestOf(cfg, m, size)
  {
    hide TakeCookies, AddParameters, Keys;
  }

  lemma ChunkIsNoRequest(cfg: Config, data: string, more: string)
    requires |HexNumber(|data|)| + 2 <= cfg.maxSize
    ensures ReadStep(cfg, NEW_REQUEST, HttpResponses.Chunk(data) + more).request.status == Abort
  {
    hide LineUpTo, LineDone, Checked, ReadStep, HexNumber, RequestLine;
    var word := HexNumber(|data|);
    var line, rest := word + CRLF, data + CRLF + more;
    HexIsWord(|data|);
    assert HttpResponses.Chunk(data) + more == line + rest;
    LineBreakEnds(word, rest, LineLimit(cfg, NEW_REQUEST));
    assert line[|word|] == '\r';
    BufferedLine(cfg, NEW_REQUEST, line, rest);
    WordIsNoRequestLine(cfg, word, |line|);
    CheckedHeaders(cfg, LineDone(cfg, NEW_REQUEST.(lineBuffer := line, currentSize := |line|)));
  }

  lemma HexIsWord(n: nat)
    ensures IsWord(HexNumber(n)) && NoLineEnd(HexNumber(n)) && Trimmed(HexNumber(n)) && ' ' !in HexNumber(n)
  {
    HexRoundTrip(n);
    assert forall i :: 0 <= i < |HexNumber(n)| ==> !IsSpace(HexNumber(n)[i]) && HexNumber(n)[i] != ' ';
  }

  lemma WordIsNoRequestLine(cfg: Config, word: string, size: int)
    requires Trimmed(word) && word != "" && ' ' !in word
    ensures LineDone(cfg, NEW_REQUEST.(lineBuffer := word + CRLF, currentSize := size)).status == Abort
  {
    hide Trim, Split, ContainsText;
    TrimLine(word);
    OneWord(word);
  }
}
