/** The streaming request parser. */
module HttpRequests {
  import opened Strings
  import opened HttpText
  import opened HttpSockets
  import opened HttpForm
  import HttpCookies
  import HttpMultiPart

  datatype Status = WaitForRequest | WaitForHeader | WaitForBody | Complete | Abort

  /** The settings, and the library's reading of numbers. */
  datatype Config = Config(maxSize: int, maxMultiPartSize: int, hexToInt: string -> Parsed, lib: HttpCookies.Library)

  /** The fields of a request; header and parameter maps are the lists of what was inserted. */
  datatype Request = Request(
    status: Status, currentSize: int, expectedBodySize: int, lineBuffer: string,
    verb: string, path: string, version: string, headers: seq<Header>, currentHeader: string,
    boundary: string, body: string, tempFile: string,
    parameters: seq<Parameter>, uploads: seq<Parameter>, cookies: map<string, string>)

  const NEW_REQUEST :=
    Request(WaitForRequest, 0, 0, "", "", "", "", [], "", "", "", "", [], [], map[])

  const BLOCK_SIZE := 65536

  // ---------- Header maps ----------

  /** The value inserted last. */
  function LastValue(hs: seq<Header>, name: string): string
    decreases |hs|
  {
    if hs == [] then ""
    else if hs[|hs| - 1].name == name then hs[|hs| - 1].value
    else LastValue(hs[..|hs| - 1], name)
  }

  /** All values of a name, the last one first. */
  function ValuesOf(hs: seq<Header>, name: string): seq<string>
    decreases |hs|
  {
    if hs == [] then []
    else (if hs[|hs| - 1].name == name then [hs[|hs| - 1].value] else []) + ValuesOf(hs[..|hs| - 1], name)
  }

  predicate HasHeader(hs: seq<Header>, name: string) {
    exists i :: 0 <= i < |hs| && hs[i].name == name
  }

  function Without(hs: seq<Header>, name: string): seq<Header> {
    if hs == [] then [] else (if hs[0].name == name then [] else [hs[0]]) + Without(hs[1..], name)
  }

  // ---------- One step of the parser ----------

  /** What a step leaves: the request, and the bytes not yet read. */
  datatype Step = Step(request: Request, rest: string)

  predicate HasLineEnd(s: string) {
    '\r' in s || '\n' in s
  }

  /** The request line; an empty line in front of it is skipped. */
  function RequestLine(r: Request, line: string): Request {
    if line == "" then r
    else
      var list := Split(line, ' ');
      if |list| != 3 || !ContainsText(list[2], "HTTP") then r.(status := Abort)
      else r.(verb := Trim(list[0]), path := list[1], version := list[2], status := WaitForHeader)
  }

  function BoundaryOf(contentType: string, before: string): string {
    var posi := IndexOf(contentType, "boundary=", 0);
    if !StartsWith(contentType, "multipart/form-data") || posi < 0 then before
    else
      var b := contentType[posi + 9..];
      if b == "" || b[0] != '"' || b[|b| - 1] != '"' then b else if |b| == 1 then "" else b[1..|b| - 1]
  }

  function EndOfHeaders(cfg: Config, r: Request): Request {
    var boundary := BoundaryOf(LastValue(r.headers, "content-type"), r.boundary);
    var contentLength := LastValue(r.headers, "content-length");
    var size := if contentLength == "" then r.expectedBodySize else cfg.lib.toInt(contentLength);
    var status := if size == 0 then Complete
                  else if boundary == "" && size + r.currentSize > cfg.maxSize then Abort
                  else if boundary != "" && size > cfg.maxMultiPartSize then Abort
                  else WaitForBody;
    r.(boundary := boundary, expectedBodySize := size, status := status)
  }

  /** A header, a further line of the header before it, or the end of the headers. */
  function HeaderLine(cfg: Config, r: Request, line: string): Request {
    var colon := IndexOf(line, ":", 0);
    if colon > 0 then
      var name := Lower(line[..colon]);
      r.(currentHeader := name, headers := r.headers + [Header(name, Trim(line[colon + 1..]))])
    else if line != "" then
      if HasHeader(r.headers, r.currentHeader) then
        var value := LastValue(r.headers, r.currentHeader) + " " + line;
        r.(headers := r.headers + [Header(r.currentHeader, value)])
      else r
    else EndOfHeaders(cfg, r)
  }

  /** The limit of the next line: one byte more than allowed, to be able to detect an overflow. */
  function LineLimit(cfg: Config, r: Request): int {
    cfg.maxSize - r.currentSize + 1
  }

  /** The line buffer grows; its whole size is added to the size of the request each time. */
  function LineGrows(r: Request, line: string): Request {
    r.(lineBuffer := r.lineBuffer + line, currentSize := r.currentSize + |r.lineBuffer| + |line|)
  }

  function LineDone(cfg: Config, r: Request): Request {
    var r', line := r.(lineBuffer := ""), Trim(r.lineBuffer);
    if r.status == WaitForRequest then RequestLine(r', line) else HeaderLine(cfg, r', line)
  }

  function HeadStep(cfg: Config, r: Request, s: string): Step {
    var line := LineUpTo(s, LineLimit(cfg, r));
    var r' := LineGrows(r, line);
    Step(if HasLineEnd(r'.lineBuffer) then LineDone(cfg, r') else r', s[|line|..])
  }

  function AddMultiPart(r: Request): Request {
    var p := HttpMultiPart.ParseParts(r.boundary, HttpMultiPart.Parsed([], [], 0), r.tempFile);
    r.(parameters := r.parameters + p.parameters, uploads := r.uploads + p.uploads,
       currentSize := r.currentSize + p.fieldBytes)
  }

  function PlainBody(r: Request, s: string): Step {
    var data := BytesUpTo(s, r.expectedBodySize - |r.body|);
    var r' := r.(body := r.body + data, currentSize := r.currentSize + |data|);
    Step(if |r'.body| >= r.expectedBodySize then r'.(status := Complete) else r', s[|data|..])
  }

  function MultiPartBody(cfg: Config, r: Request, s: string): Step {
    var missing := r.expectedBodySize - |r.tempFile|;
    var data := BytesUpTo(s, if missing > BLOCK_SIZE then BLOCK_SIZE else missing);
    var r' := r.(tempFile := r.tempFile + data);
    Step(if |r'.tempFile| >= cfg.maxMultiPartSize then r'.(status := Abort)
         else if |r'.tempFile| >= r.expectedBodySize then AddMultiPart(r').(status := Complete)
         else r', s[|data|..])
  }

  function BodyStep(cfg: Config, r: Request, s: string): Step {
    if r.boundary == "" then PlainBody(r, s) else MultiPartBody(cfg, r, s)
  }

  predicate TooLarge(cfg: Config, r: Request) {
    r.currentSize > if r.boundary == "" then cfg.maxSize else cfg.maxMultiPartSize
  }

  function AddParameters(cfg: Config, r: Request): Request {
    r.(path := PathOnly(r.path), parameters :=
         r.parameters + DecodeParameters(cfg.hexToInt, r.path, LastValue(r.headers, "content-type"), r.body))
  }

  function AddCookies(lib: HttpCookies.Library, cookies: map<string, string>, parts: seq<string>): map<string, string>
    decreases |parts|
  {
    if parts == [] then cookies
    else AddCookies(lib, cookies[HttpCookies.NameOf(lib, parts[0]) := HttpCookies.ValueOf(parts[0])], parts[1..])
  }

  function AddCookieHeaders(lib: HttpCookies.Library, cookies: map<string, string>, values: seq<string>)
    : map<string, string>
    decreases |values|
  {
    if values == [] then cookies
    else
      var parts := HttpCookies.Kept(HttpCookies.Parts(values[0], false));
      AddCookieHeaders(lib, AddCookies(lib, cookies, parts), values[1..])
  }

  function TakeCookies(cfg: Config, r: Request): Request {
    r.(cookies := AddCookieHeaders(cfg.lib, r.cookies, ValuesOf(r.headers, "cookie")),
       headers := Without(r.headers, "cookie"))
  }

  /** The size check and the parameters of a complete request. */
  function Checked(cfg: Config, r: Request): Request {
    if TooLarge(cfg, r) then r.(status := Abort)
    else if r.status == Complete then TakeCookies(cfg, AddParameters(cfg, r))
    else r
  }

  function ReadStep(cfg: Config, r: Request, s: string): Step {
    var step := match r.status
      case WaitForRequest => HeadStep(cfg, r, s)
      case WaitForHeader => HeadStep(cfg, r, s)
      case WaitForBody => BodyStep(cfg, r, s)
      case _ => Step(r, s);
    Step(Checked(cfg, step.request), step.rest)
  }

  // ---------- The parser ----------

  class HttpRequest {
    const cfg: Config
    var status: Status
    var currentSize: int
    var expectedBodySize: int
    var lineBuffer: string
    var verb: string
    var path: string
    var version: string
    var headers: seq<Header>
    var currentHeader: string
    var boundary: string
    var body: string
    var tempFile: string
    var parameters: seq<Parameter>
    var uploads: seq<Parameter>
    var cookies: map<string, string>

    function Snapshot(): Request
      reads this
    {
      Request(status, currentSize, expectedBodySize, lineBuffer, verb, path, version, headers, currentHeader,
              boundary, body, tempFile, parameters, uploads, cookies)
    }

    constructor (cfg: Config)
      ensures this.cfg == cfg && Snapshot() == NEW_REQUEST
    {
      this.cfg := cfg;
      status, currentSize, expectedBodySize, lineBuffer := WaitForRequest, 0, 0, "";
      verb, path, version, headers, currentHeader := "", "", "", [], "";
      boundary, body, tempFile := "", "", "";
      parameters, uploads, cookies := [], [], map[];
    }

    method ReadRequest(socket: Socket)
      requires status == WaitForRequest
      modifies this, socket`available
      ensures Step(Snapshot(), socket.available) == HeadStep(cfg, old(Snapshot()), old(socket.available))
    {
      hide RequestLine, Trim, Split, ContainsText, LineUpTo;
      var toRead := cfg.maxSize - currentSize + 1;
      var line := socket.ReadLine(toRead);
      lineBuffer := lineBuffer + line;
      currentSize := currentSize + |lineBuffer|;
      assert Snapshot() == LineGrows(old(Snapshot()), line);
      if '\r' !in lineBuffer && '\n' !in lineBuffer {
        return;
      }
      var newData := Trim(lineBuffer);
      lineBuffer := "";
      FirstLine(newData);
    }

    method FirstLine(newData: string)
      requires status == WaitForRequest
      modifies this
      ensures Snapshot() == RequestLine(old(Snapshot()), newData)
    {
      hide Trim, Split, ContainsText;
      if newData != "" {
        var list := Split(newData, ' ');
        if |list| != 3 || !ContainsText(list[2], "HTTP") {
          status := Abort;
        } else {
          verb, path, version := Trim(list[0]), list[1], list[2];
          status := WaitForHeader;
        }
      }
    }

    method ReadHeader(socket: Socket)
      requires status == WaitForHeader
      modifies this, socket`available
      ensures Step(Snapshot(), socket.available) == HeadStep(cfg, old(Snapshot()), old(socket.available))
    {
      hide HeaderLine, Trim, LineUpTo;
      var toRead := cfg.maxSize - currentSize + 1;
      var line := socket.ReadLine(toRead);
      lineBuffer := lineBuffer + line;
      currentSize := currentSize + |lineBuffer|;
      assert Snapshot() == LineGrows(old(Snapshot()), line);
      if '\r' !in lineBuffer && '\n' !in lineBuffer {
        return;
      }
      var newData := Trim(lineBuffer);
      lineBuffer := "";
      NextLine(newData);
    }

    method NextLine(newData: string)
      modifies this
      ensures Snapshot() == HeaderLine(cfg, old(Snapshot()), newData)
    {
      hide EndOfHeaders, Lower, Trim, LastValue, HasHeader;
      var colon := IndexOf(newData, ":", 0);
      if colon > 0 {
        currentHeader := Lower(newData[..colon]);
        var value := Trim(newData[colon + 1..]);
        headers := headers + [Header(currentHeader, value)];
      } else if newData != "" {
        if HasHeader(headers, currentHeader) {
          headers := headers + [Header(currentHeader, LastValue(headers, currentHeader) + " " + newData)];
        }
      } else {
        HeadersCompleted();
      }
    }

    method FindBoundary(contentType: string)
      modifies this`boundary
      ensures boundary == BoundaryOf(contentType, old(boundary))
    {
      if StartsWith(contentType, "multipart/form-data") {
        var posi := IndexOf(contentType, "boundary=", 0);
        if posi >= 0 {
          boundary := contentType[posi + 9..];
          if boundary != "" && boundary[0] == '"' && boundary[|boundary| - 1] == '"' {
            boundary := if |boundary| == 1 then "" else boundary[1..|boundary| - 1];
          }
        }
      }
    }

    method HeadersCompleted()
      modifies this
      ensures Snapshot() == EndOfHeaders(cfg, old(Snapshot()))
    {
      hide LastValue, BoundaryOf;
      FindBoundary(LastValue(headers, "content-type"));
      var contentLength := LastValue(headers, "content-length");
      if contentLength != "" {
        expectedBodySize := cfg.lib.toInt(contentLength);
      }
      if expectedBodySize == 0 {
        status := Complete;
      } else if boundary == "" && expectedBodySize + currentSize > cfg.maxSize {
        status := Abort;
      } else if boundary != "" && expectedBodySize > cfg.maxMultiPartSize {
        status := Abort;
      } else {
        status := WaitForBody;
      }
    }

    method ReadBody(socket: Socket)
      modifies this, socket`available
      ensures Step(Snapshot(), socket.available) == BodyStep(cfg, old(Snapshot()), old(socket.available))
    {
      hide PlainBody, MultiPartBody;
      if boundary == "" {
        ReceiveBody(socket);
      } else {
        ReceiveMultiPart(socket);
      }
    }

    method ReceiveBody(socket: Socket)
      modifies this, socket`available
      ensures Step(Snapshot(), socket.available) == PlainBody(old(Snapshot()), old(socket.available))
    {
      var newData := socket.Read(expectedBodySize - |body|);
      currentSize := currentSize + |newData|;
      body := body + newData;
      if |body| >= expectedBodySize {
        status := Complete;
      }
    }

    method ReceiveMultiPart(socket: Socket)
      modifies this, socket`available
      ensures Step(Snapshot(), socket.available) == MultiPartBody(cfg, old(Snapshot()), old(socket.available))
    {
      hide BytesUpTo, AddMultiPart;
      var toRead := expectedBodySize - |tempFile|;
      if toRead > BLOCK_SIZE {
        toRead := BLOCK_SIZE;
      }
      var newData := socket.Read(toRead);
      tempFile := tempFile + newData;
      if |tempFile| >= cfg.maxMultiPartSize {
        status := Abort;
      } else if |tempFile| >= expectedBodySize {
        ParseMultiPartFile();
        status := Complete;
      }
    }

    method ParseMultiPartFile()
      modifies this
      ensures Snapshot() == AddMultiPart(old(Snapshot()))
    {
      hide HttpMultiPart.ParseParts;
      var p := HttpMultiPart.ParseMultiPartFile(tempFile, boundary);
      parameters, uploads := parameters + p.parameters, uploads + p.uploads;
      currentSize := currentSize + p.fieldBytes;
    }

    method TakeRawParameters() returns (rawParameters: string)
      modifies this`path
      ensures path == PathOnly(old(path))
      ensures rawParameters == RawParameters(old(path), LastValue(headers, "content-type"), body)
    {
      hide LastValue;
      rawParameters := "";
      var questionMark := IndexOf(path, "?", 0);
      if questionMark >= 0 {
        rawParameters := path[questionMark + 1..];
        path := path[..questionMark];
      }
      var contentType := LastValue(headers, "content-type");
      if body != "" && AcceptsForm(contentType) {
        if rawParameters != "" {
          rawParameters := rawParameters + "&" + body;
        } else {
          rawParameters := body;
        }
      }
    }

    method DecodeRequestParams()
      modifies this`path, this`parameters
      ensures Snapshot() == AddParameters(cfg, old(Snapshot()))
    {
      hide LastValue, Split, ParametersOf, ParameterOf, RawParameters, PathOnly;
      var rawParameters := TakeRawParameters();
      var list := Split(rawParameters, '&');
      ghost var before := parameters;
      NoParts(cfg.hexToInt);
      assert list[..0] == [] && before + [] == before;
      for i := 0 to |list|
        invariant path == PathOnly(old(path))
        invariant parameters == before + ParametersOf(cfg.hexToInt, list[..i])
      {
        ParametersOfAppended(cfg.hexToInt, list[..i], list[i]);
        assert list[..i] + [list[i]] == list[..i + 1];
        var more := OneParameter(list[i]);
        parameters := parameters + more;
      }
      assert list[..|list|] == list;
    }

    method OneParameter(part: string) returns (more: seq<Parameter>)
      ensures more == ParameterOf(cfg.hexToInt, part)
    {
      hide Decoded, Trim, MatchesAt, IndexOf;
      var equalsChar := IndexOf(part, "=", 0);
      if equalsChar >= 0 {
        CharSearch(part, '=', 0);
        var name := UrlDecode(cfg.hexToInt, Trim(part[..equalsChar]));
        var value := UrlDecode(cfg.hexToInt, Trim(part[equalsChar + 1..]));
        more := [Parameter(name, value)];
      } else if part != "" {
        var name := UrlDecode(cfg.hexToInt, part);
        more := [Parameter(name, "")];
      } else {
        more := [];
      }
    }

    method ExtractCookies()
      modifies this`cookies, this`headers
      ensures Snapshot() == TakeCookies(cfg, old(Snapshot()))
    {
      hide ValuesOf, Without, HttpCookies.NameOf, HttpCookies.ValueOf, HttpCookies.Kept, HttpCookies.Parts;
      var values := ValuesOf(headers, "cookie");
      ghost var goal := AddCookieHeaders(cfg.lib, cookies, values);
      assert values[0..] == values;
      for i := 0 to |values|
        invariant headers == old(headers)
        invariant AddCookieHeaders(cfg.lib, cookies, values[i..]) == goal
      {
        assert values[i..][1..] == values[i + 1..];
        var list := HttpCookies.SplitCSV(values[i]);
        ghost var next := AddCookies(cfg.lib, cookies, list);
        assert list[0..] == list;
        for j := 0 to |list|
          invariant headers == old(headers)
          invariant AddCookies(cfg.lib, cookies, list[j..]) == next
        {
          assert list[j..][1..] == list[j + 1..];
          cookies := cookies[HttpCookies.NameOf(cfg.lib, list[j]) := HttpCookies.ValueOf(list[j])];
        }
      }
      headers := Without(headers, "cookie");
    }

    method ReadFromSocket(socket: Socket)
      requires status != Complete && status != Abort
      modifies this, socket`available
      ensures Step(Snapshot(), socket.available) == ReadStep(cfg, old(Snapshot()), old(socket.available))
    {
      hide HeadStep, BodyStep, AddParameters, TakeCookies;
      if status == WaitForRequest {
        ReadRequest(socket);
      } else if status == WaitForHeader {
        ReadHeader(socket);
      } else {
        ReadBody(socket);
      }
      ghost var read := Snapshot();
      if (boundary == "" && currentSize > cfg.maxSize) || (boundary != "" && currentSize > cfg.maxMultiPartSize) {
        status := Abort;
      }
      if status == Complete {
        DecodeRequestParams();
        ExtractCookies();
      }
    }
  }
}
