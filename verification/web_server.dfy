/** The pure part of the firmware's HTTP server: splitting a request into
    method, path and body, routing by exact path match, the configuration
    updates behind `POST /api/target`, `POST /api/config` and
    `POST /api/wifi/save`, and the text of a response. Sockets, chunked
    sending, static file reads, the sensor and Wi-Fi calls and the JSON
    codec are not part of this model: a decoded request body enters as a
    parameter, `None` when `json.loads` raises. */
module WebServer {
  import opened Wrappers
  import opened Json
  import Strings
  import Config
  import Bindings

  const Crlf := "\r\n"

  /** The empty line that ends the header block. */
  const BlankLine := "\r\n\r\n"

  /** Lines of text, each ended by CRLF. */
  function Lines(ls: seq<string>): string
  {
    if |ls| == 0 then "" else ls[0] + Crlf + Lines(ls[1..])
  }

  /** Text of one or more lines ends with a line break. */
  lemma {:induction false} LinesEndWithBreak(ls: seq<string>)
    requires |ls| >= 1
    ensures |Lines(ls)| >= 2 && Lines(ls)[|Lines(ls)| - 2..] == Crlf
  {
    if |ls| > 1 {
      LinesEndWithBreak(ls[1..]);
      var t := Lines(ls[1..]);
      assert Lines(ls) == (ls[0] + Crlf) + t;
      assert Lines(ls)[|Lines(ls)| - 2..] == t[|t| - 2..];
    }
  }

  /** Header lines hold no carriage return, and none is empty. */
  predicate PlainLines(ls: seq<string>)
  {
    forall i :: 0 <= i < |ls| ==> |ls[i]| > 0 && '\r' !in ls[i]
  }

  // ---------------------------------------------------------------------
  // Searching past plain text
  // ---------------------------------------------------------------------

  /** A pattern starting with a character `a` does not contain is first
      found in `a + b` where it is first found in `b`. */
  lemma FindAfterPlain(a: string, b: string, pat: string)
    requires |pat| > 0 && pat[0] !in a
    ensures Strings.Find(a + b, pat) == Strings.Shift(Strings.Find(b, pat), |a|)
  {
    forall i | 0 <= i < |a| ensures !Strings.OccursAt(a + b, pat, i) {
      assert (a + b)[i] == a[i];
    }
    Strings.FindSkipsPrefix(a + b, pat, |a|);
    assert (a + b)[|a|..] == b;
  }

  /** A line break followed by something other than a carriage return
      does not start an empty line. */
  lemma SkipLineBreak(rest: string)
    requires |rest| > 0 && rest[0] != '\r'
    ensures Strings.Find(Crlf + rest, BlankLine) == Strings.Shift(Strings.Find(rest, BlankLine), 2)
  {
    var s := Crlf + rest;
    assert s[1] == '\n' && s[2] == rest[0];
    forall i | 0 <= i < 2 ensures !Strings.OccursAt(s, BlankLine, i) {
      if i + 4 <= |s| {
        assert s[i..i + 4][2 - i] == s[2];
        assert s[i..i + 4][1 - i] == s[1];
      }
    }
    Strings.FindSkipsPrefix(s, BlankLine, 2);
    assert s[2..] == rest;
  }

  /** Dropping the first line keeps the lines plain. */
  lemma PlainTail(ls: seq<string>)
    requires |ls| >= 1 && PlainLines(ls)
    ensures PlainLines(ls[1..])
  {
    forall i | 0 <= i < |ls[1..]| ensures |ls[1..][i]| > 0 && '\r' !in ls[1..][i] {
      assert ls[1..][i] == ls[i + 1];
    }
  }

  /** Two line breaks in a row are an empty line found at once. */
  lemma BlankLineFirst(body: string)
    ensures Strings.Find(Crlf + ("" + Crlf + body), BlankLine) == Some(0)
  {
    var s := Crlf + ("" + Crlf + body);
    assert s[..4] == BlankLine;
    assert Strings.OccursAt(s, BlankLine, 0);
  }

  /** The first empty line after a block of plain lines is the one right
      after the block. */
  lemma {:induction false} BlankLineEndsBlock(ls: seq<string>, body: string)
    requires |ls| >= 1 && PlainLines(ls)
    ensures |Lines(ls)| >= 2
    ensures Strings.Find(Lines(ls) + Crlf + body, BlankLine) == Some(|Lines(ls)| - 2)
  {
    var rest := Lines(ls[1..]) + Crlf + body;
    assert Lines(ls) == ls[0] + Crlf + Lines(ls[1..]);
    FirstLineApart(ls, body);
    if |ls| == 1 {
      assert Lines(ls[1..]) == "";
      BlankAfterLastLine(ls[0], body);
    } else {
      PlainTail(ls);
      BlankLineEndsBlock(ls[1..], body);
      assert rest[0] == ls[1][0];
      BlankAfterBreak(rest, |Lines(ls[1..])| - 2);
      BlankAfterPlain(ls[0], Crlf + rest, |Lines(ls[1..])|);
    }
  }

  /** After the last plain line the empty line comes at once. */
  lemma BlankAfterLastLine(line: string, body: string)
    requires '\r' !in line
    ensures Strings.Find(line + (Crlf + ("" + Crlf + body)), BlankLine) == Some(|line|)
  {
    FindAfterPlain(line, Crlf + ("" + Crlf + body), BlankLine);
    BlankLineFirst(body);
  }

  /** A line break in front moves the first empty line two places on. */
  lemma BlankAfterBreak(rest: string, n: nat)
    requires |rest| > 0 && rest[0] != '\r'
    requires Strings.Find(rest, BlankLine) == Some(n)
    ensures Strings.Find(Crlf + rest, BlankLine) == Some(n + 2)
  {
    SkipLineBreak(rest);
    Strings.ShiftSome(n, 2);
  }

  /** Plain text in front moves the first empty line by its length. */
  lemma BlankAfterPlain(a: string, b: string, k: nat)
    requires '\r' !in a
    requires Strings.Find(b, BlankLine) == Some(k)
    ensures Strings.Find(a + b, BlankLine) == Some(|a| + k)
  {
    FindAfterPlain(a, b, BlankLine);
    Strings.ShiftSome(k, |a|);
  }

  // ---------------------------------------------------------------------
  // Requests
  // ---------------------------------------------------------------------

  /** A parsed request: the first two words of the request line and, for
      a POST, the text after the first empty line. */
  datatype Request = Request(verb: string, path: string, body: Option<string>)

  /** `request.split('\r\n')[0]`: the text before the first line break. */
  function FirstLine(request: string): (line: string)
    ensures line <= request
    ensures |line| == |request| || Strings.OccursAt(request, Crlf, |line|)
    ensures forall i :: !Strings.OccursAt(line, Crlf, i)
  {
    match Strings.Find(request, Crlf)
    case None => request
    case Some(k) =>
      assert forall i :: !Strings.OccursAt(request[..k], Crlf, i) by {
        forall i ensures !Strings.OccursAt(request[..k], Crlf, i) {
          if 0 <= i && i + 2 <= k {
            assert request[..k][i..i + 2] == request[i..i + 2];
            assert !Strings.OccursAt(request, Crlf, i);
          }
        }
      }
      request[..k]
  }

  /** The body of a POST: everything after the first empty line, `None`
      when there is none. */
  function PostBody(request: string): (body: Option<string>)
    ensures body.None? <==> forall i :: !Strings.OccursAt(request, BlankLine, i)
    ensures body.Some? ==> exists k :: Strings.OccursAt(request, BlankLine, k) &&
                                      (forall i :: 0 <= i < k ==> !Strings.OccursAt(request, BlankLine, i)) &&
                                      body.value == request[k + 4..]
  {
    match Strings.Find(request, BlankLine)
    case None => None
    case Some(k) => Some(request[k + 4..])
  }

  /** The parsing part of `_handle_client`: `None` when the connection is
      closed without an answer, i.e. for an empty request or a request
      line with fewer than two space-separated words. */
  function ParseRequest(request: string): (r: Option<Request>)
    ensures r.None? <==> ' ' !in FirstLine(request)
    ensures r.Some? ==> ' ' !in r.value.verb && ' ' !in r.value.path
    ensures r.Some? ==> r.value.verb + " " + r.value.path <= FirstLine(request)
    ensures r.Some? && r.value.verb != "POST" ==> r.value.body.None?
    ensures r.Some? && r.value.verb == "POST" ==> r.value.body == PostBody(request)
  {
    if |request| == 0 then None
    else
      var words := Strings.Split(FirstLine(request), ' ');
      Strings.SplitHasSeveralPieces(FirstLine(request), ' ');
      if |words| < 2 then None
      else
        RequestLineStartsWithWords(FirstLine(request));
        var verb := words[0];
        Some(Request(verb, words[1], if verb == "POST" then PostBody(request) else None))
  }

  /** The first two words of a line, joined by their space, begin the
      line. */
  lemma RequestLineStartsWithWords(line: string)
    requires |Strings.Split(line, ' ')| >= 2
    ensures var words := Strings.Split(line, ' ');
            words[0] + " " + words[1] <= line
  {
    var words := Strings.Split(line, ' ');
    Strings.JoinOfSplit(line, ' ');
    var rest := words[1..];
    assert Strings.Join(words, ' ') == words[0] + [' '] + Strings.Join(rest, ' ');
    if |rest| > 1 {
      assert Strings.Join(rest, ' ') == rest[0] + [' '] + Strings.Join(rest[1..], ' ');
    }
  }

  /** A POST whose request line reads `POST <path> <version>`, followed by
      plain header lines, an empty line and a body, parses into its method,
      path and body. */
  lemma PostRoundTrip(ls: seq<string>, path: string, version: string, body: string)
    requires |ls| >= 1 && PlainLines(ls)
    requires ls[0] == "POST " + path + " " + version
    requires ' ' !in path
    ensures ParseRequest(Lines(ls) + Crlf + body) == Some(Request("POST", path, Some(body)))
  {
    var request := Lines(ls) + Crlf + body;
    FirstLineOfBlock(ls, body);
    PostLineWords(path, version);
    BodyAfterBlock(ls, body);
    assert PostBody(request) == Some(body);
  }

  /** The words of a POST request line. */
  lemma PostLineWords(path: string, version: string)
    requires ' ' !in path
    ensures var words := Strings.Split("POST " + path + " " + version, ' ');
            |words| >= 2 && words[0] == "POST" && words[1] == path
  {
    assert "POST " + path + " " + version == "POST" + [' '] + (path + [' '] + version);
    Strings.SplitAtFirstSeparator("POST", path + [' '] + version, ' ');
    Strings.SplitAtFirstSeparator(path, version, ' ');
  }

  /** A block of lines followed by more text is its first line, then the
      line break and everything after it. */
  lemma FirstLineApart(ls: seq<string>, body: string)
    requires |ls| >= 1
    ensures Lines(ls) + Crlf + body == ls[0] + (Crlf + (Lines(ls[1..]) + Crlf + body))
  {
  }

  /** Text made of plain lines, an empty line and a body starts with its
      first line. */
  lemma FirstLineOfBlock(ls: seq<string>, body: string)
    requires |ls| >= 1 && PlainLines(ls)
    ensures FirstLine(Lines(ls) + Crlf + body) == ls[0]
  {
    var tail := Crlf + (Lines(ls[1..]) + Crlf + body);
    var r := Lines(ls) + Crlf + body;
    FirstLineApart(ls, body);
    LineBreakAfterPlain(ls[0], tail);
    FirstLineEndsAt(r, |ls[0]|);
  }

  /** A plain line followed by a line break: the first line break comes
      right after the line. */
  lemma LineBreakAfterPlain(line: string, tail: string)
    requires '\r' !in line && |tail| >= 2 && tail[..2] == Crlf
    ensures Strings.Find(line + tail, Crlf) == Some(|line|)
  {
    FindAfterPlain(line, tail, Crlf);
    assert Strings.OccursAt(tail, Crlf, 0);
  }

  /** The first line ends where the first line break is found. */
  lemma FirstLineEndsAt(r: string, k: nat)
    requires Strings.Find(r, Crlf) == Some(k)
    ensures k <= |r| && FirstLine(r) == r[..k]
  {
  }

  /** Text made of plain lines, an empty line and a body has the body
      right after its first empty line. */
  lemma BodyAfterBlock(ls: seq<string>, body: string)
    requires |ls| >= 1 && PlainLines(ls)
    ensures var r := Lines(ls) + Crlf + body;
            var k := Strings.Find(r, BlankLine);
            k.Some? && k.value + 4 <= |r| && r[k.value + 4..] == body
  {
    BlankLineEndsBlock(ls, body);
    var r := Lines(ls) + Crlf + body;
    assert r[|Lines(ls)| - 2 + 4..] == body;
  }

  // ---------------------------------------------------------------------
  // Routing
  // ---------------------------------------------------------------------

  /** The handler a request is routed to. */
  datatype Handler =
    | ObjectTemperature | AmbientTemperature
    | GetTarget | SetTarget | GetConfig | SetConfig
    | ScanNetworks | TestNetwork | SaveNetwork | Status
    | StaticFile(file: string, contentType: string)
    | NotFound

  /** `_route_request`: the first path test that matches decides; on a
      path that distinguishes methods, any other method falls through to
      the final 404. */
  function Route(verb: string, path: string): (h: Handler)
    ensures h.NotFound? <==> path !in Endpoints || !Accepts(Endpoints[path], verb)
    ensures h.StaticFile? <==> path in {"/", "/index.html", "/style.css", "/app.js"}
  {
    if path == "/api/temp" then ObjectTemperature
    else if path == "/api/ambient" then AmbientTemperature
    else if path == "/api/target" then
      (if verb == "GET" then GetTarget else if verb == "POST" then SetTarget else NotFound)
    else if path == "/api/config" then
      (if verb == "GET" then GetConfig else if verb == "POST" then SetConfig else NotFound)
    else if path == "/api/wifi/scan" then ScanNetworks
    else if path == "/api/wifi/test" then (if verb == "POST" then TestNetwork else NotFound)
    else if path == "/api/wifi/save" then (if verb == "POST" then SaveNetwork else NotFound)
    else if path == "/api/status" then Status
    else if path == "/" || path == "/index.html" then StaticFile("index.html", "text/html")
    else if path == "/style.css" then StaticFile("style.css", "text/css")
    else if path == "/app.js" then StaticFile("app.js", "application/javascript")
    else NotFound
  }

  /** Which methods an endpoint answers. */
  datatype Methods = AnyMethod | GetOrPost | PostOnly

  predicate Accepts(ms: Methods, verb: string)
  {
    match ms
    case AnyMethod => true
    case GetOrPost => verb == "GET" || verb == "POST"
    case PostOnly => verb == "POST"
  }

  /** The server's endpoints, as a table. */
  const Endpoints: map<string, Methods> := map[
    "/api/temp" := AnyMethod, "/api/ambient" := AnyMethod,
    "/api/target" := GetOrPost, "/api/config" := GetOrPost,
    "/api/wifi/scan" := AnyMethod, "/api/wifi/test" := PostOnly,
    "/api/wifi/save" := PostOnly, "/api/status" := AnyMethod,
    "/" := AnyMethod, "/index.html" := AnyMethod,
    "/style.css" := AnyMethod, "/app.js" := AnyMethod]

  /** A request is answered 404 exactly when its path is not an endpoint,
      or the endpoint does not answer its method: routing is by exact
      path, and a method a path does not handle falls through. */
  lemma NotFoundIffUnlisted(verb: string, path: string)
    ensures Route(verb, path).NotFound? <==>
            path !in Endpoints || !Accepts(Endpoints[path], verb)
  {
  }

  /** `PUT /api/target` and `GET /api/wifi/save` are not found. */
  lemma UnsupportedMethodsFallThrough()
    ensures Route("PUT", "/api/target") == NotFound
    ensures Route("GET", "/api/wifi/save") == NotFound
  {
  }

  // ---------------------------------------------------------------------
  // Responses
  // ---------------------------------------------------------------------

  /** The reason phrase of a status code; codes other than the four the
      server uses read "Unknown". */
  function StatusText(status: int): (text: string)
    ensures text == "Unknown" <==> status !in {200, 400, 404, 500}
    ensures |text| > 0 && '\r' !in text
  {
    if status == 200 then "OK"
    else if status == 400 then "Bad Request"
    else if status == 404 then "Not Found"
    else if status == 500 then "Internal Server Error"
    else "Unknown"
  }

  /** The header lines of a response, before the empty line. */
  function HeaderLines(status: int, contentType: string, body: string): seq<string>
  {
    [ "HTTP/1.1 " + Strings.IntToString(status) + " " + StatusText(status),
      "Content-Type: " + contentType,
      "Content-Length: " + Strings.IntToString(Strings.Utf8Length(body)),
      "Connection: close",
      "Access-Control-Allow-Origin: *" ]
  }

  /** `_response(status, content_type, body)`: the status line, four
      headers, an empty line and the body. */
  function FormatResponse(status: int, contentType: string, body: string): (r: string)
    ensures |r| > |body| + 4 && r[|r| - |body|..] == body
    ensures r[|r| - |body| - 4..|r| - |body|] == BlankLine
  {
    var head := Lines(HeaderLines(status, contentType, body));
    LinesEndWithBreak(HeaderLines(status, contentType, body));
    var r := head + Crlf + body;
    assert r[|r| - |body| - 4..|r| - |body|] == head[|head| - 2..] + Crlf;
    r
  }

  /** The answer to an unrouted request. */
  function NotFoundResponse(): string
  {
    FormatResponse(404, "text/plain", "Not Found")
  }

  /** Numbers are written without a carriage return. */
  lemma NumberIsPlain(n: int)
    ensures '\r' !in Strings.IntToString(n)
  {
    var s := Strings.IntToString(n);
    assert forall i :: 0 <= i < |s| ==> s[i] != '\r';
  }

  /** The header lines of a response are plain, given a content type
      without a line break. */
  lemma HeaderLinesArePlain(status: int, contentType: string, body: string)
    requires '\r' !in contentType
    ensures PlainLines(HeaderLines(status, contentType, body))
  {
    var ls := HeaderLines(status, contentType, body);
    NumberIsPlain(status);
    NumberIsPlain(Strings.Utf8Length(body));
    assert PlainLines(ls[..3]) by {
      assert '\r' !in "HTTP/1.1 " && '\r' !in " " && '\r' !in "Content-Type: " && '\r' !in "Content-Length: ";
    }
    assert PlainLines(ls[3..]) by {
      assert ls[3..] == ["Connection: close", "Access-Control-Allow-Origin: *"];
    }
    forall i | 0 <= i < 5 ensures |ls[i]| > 0 && '\r' !in ls[i] {
      if i < 3 {
        assert ls[i] == ls[..3][i];
      } else {
        assert ls[i] == ls[3..][i - 3];
      }
    }
  }

  /** A client reading the response back: the status line's second word
      is the status code, the body is exactly what follows the first
      empty line, and the declared Content-Length is the UTF-8 size of that
      body. */
  lemma ReadResponse(status: int, contentType: string, body: string)
    requires '\r' !in contentType
    ensures var r := FormatResponse(status, contentType, body);
            var words := Strings.Split(FirstLine(r), ' ');
            |words| >= 3 && words[0] == "HTTP/1.1" && Strings.ParseInt(words[1]) == Some(status)
    ensures var r := FormatResponse(status, contentType, body);
            var k := Strings.Find(r, BlankLine);
            k.Some? && k.value + 4 <= |r| && r[k.value + 4..] == body &&
            HeaderLines(status, contentType, body)[2] ==
              "Content-Length: " + Strings.IntToString(Strings.Utf8Length(r[k.value + 4..]))
  {
    var ls := HeaderLines(status, contentType, body);
    HeaderLinesArePlain(status, contentType, body);
    FirstLineOfBlock(ls, body);
    StatusLineWords(status);
    BodyAfterBlock(ls, body);
  }

  /** The words of a status line: the protocol, the code, and the reason
      phrase's words. */
  lemma StatusLineWords(status: int)
    ensures var words := Strings.Split("HTTP/1.1 " + Strings.IntToString(status) + " " + StatusText(status), ' ');
            |words| >= 3 && words[0] == "HTTP/1.1" && Strings.ParseInt(words[1]) == Some(status)
  {
    var code := Strings.IntToString(status);
    var text := StatusText(status);
    assert ' ' !in code;
    assert "HTTP/1.1 " + code + " " + text == "HTTP/1.1" + [' '] + (code + [' '] + text);
    Strings.SplitAtFirstSeparator("HTTP/1.1", code + [' '] + text, ' ');
    Strings.SplitAtFirstSeparator(code, text, ' ');
    Strings.ParseOfIntToString(status);
  }

  // ---------------------------------------------------------------------
  // Endpoints that change the configuration
  // ---------------------------------------------------------------------

  /** The configuration after a request, and the status answered. */
  datatype Outcome = Outcome(config: Value, status: int)

  /** `'key' in data` on a decoded JSON document, `None` when it raises. */
  function Contains(data: Value, key: string): (r: Option<bool>)
    ensures data.Dict? ==> r == Some(key in data.fields)
    ensures r.Some? <==> data.Dict? || data.List? || data.Str?
  {
    match data
    case Dict(m) => Some(key in m)
    case List(items) => Some(Str(key) in items)
    case Str(s) => Some(Strings.Find(s, key).Some?)
    case _ => None
  }

  /** `_api_set_target`: `target` and `active`, each written only when the
      document has it; anything that raises answers 400. Subscripting a
      list or a string by a key raises, so a list or string that contains
      either name fails, and one that contains neither changes nothing. */
  function SetTargetFrom(cfg: Value, data: Option<Value>): (r: Outcome)
    ensures r.status == 200 || r.status == 400
    ensures r.status == 400 ==> r.config == cfg
    ensures r.status == 200 <==>
              (data.Some? && (data.value.Dict? ||
               (Contains(data.value, "target") == Some(false) && Contains(data.value, "active") == Some(false))))
  {
    match data
    case None => Outcome(cfg, 400)
    case Some(Dict(m)) => Outcome(WriteTarget(cfg, m), 200)
    case Some(doc) =>
      match (Contains(doc, "target"), Contains(doc, "active"))
      case (Some(hasTarget), Some(hasActive)) =>
        if hasTarget || hasActive then Outcome(cfg, 400) else Outcome(cfg, 200)
      case _ => Outcome(cfg, 400)
  }

  /** The writes `_api_set_target` makes for an object: `target`, then
      `active`, each when present. */
  function WriteTarget(cfg: Value, m: map<string, Value>): Value
  {
    var withTarget := WriteIfPresent(cfg, m, "target", Config.ThermostatTarget);
    WriteIfPresent(withTarget, m, "active", Config.ThermostatActive)
  }

  /** `if key in data: config.set(path, data[key])`. */
  function WriteIfPresent(cfg: Value, m: map<string, Value>, key: string, s: Config.Setting): Value
  {
    if key in m then Config.Store(cfg, s, m[key]).0 else cfg
  }

  /** A conditional write of one setting leaves every other setting, and
      the setting itself when the key is absent, as it was. */
  lemma WriteIfPresentIsolated(cfg: Value, m: map<string, Value>, key: string, s: Config.Setting, t: Config.Setting)
    requires key !in m || s != t
    ensures Config.Read(WriteIfPresent(cfg, m, key, s), t) == Config.Read(cfg, t)
  {
    if key in m {
      Config.StoreIsolated(cfg, s, m[key], t);
    }
  }

  /** A conditional write of a present key in a writable section reads
      back the document's value, and keeps the section writable. */
  lemma WriteIfPresentStores(cfg: Value, m: map<string, Value>, key: string, s: Config.Setting)
    requires Config.WritableSection(cfg, Config.SectionOf(s))
    ensures key in m ==> Config.Read(WriteIfPresent(cfg, m, key, s), s) == m[key]
    ensures Config.WritableSection(WriteIfPresent(cfg, m, key, s), Config.SectionOf(s))
  {
    if key in m {
      Config.StoreThenRead(cfg, s, m[key]);
    }
  }

  /** `_api_get_target`: the document answered to `GET /api/target`. */
  function TargetDocument(cfg: Value): (doc: Value)
    ensures doc.Dict? && doc.fields.Keys == {"target", "active"}
    ensures !cfg.Dict? ==> doc.fields["target"] == Config.DefaultOf(Config.ThermostatTarget) &&
                           doc.fields["active"] == Config.DefaultOf(Config.ThermostatActive)
  {
    Dict(map["target" := Config.Read(cfg, Config.ThermostatTarget),
             "active" := Config.Read(cfg, Config.ThermostatActive)])
  }

  /** Setting the target writes only the names the document has: an
      absent name keeps its setting, and no other setting moves. */
  lemma SetTargetWritesPresentKeys(cfg: Value, m: map<string, Value>, t: Config.Setting)
    ensures var after := SetTargetFrom(cfg, Some(Dict(m))).config;
            ("target" !in m ==> Config.Read(after, Config.ThermostatTarget) == Config.Read(cfg, Config.ThermostatTarget)) &&
            ("active" !in m ==> Config.Read(after, Config.ThermostatActive) == Config.Read(cfg, Config.ThermostatActive)) &&
            (t != Config.ThermostatTarget && t != Config.ThermostatActive ==> Config.Read(after, t) == Config.Read(cfg, t))
  {
    var target := Config.ThermostatTarget;
    var active := Config.ThermostatActive;
    assert SetTargetFrom(cfg, Some(Dict(m))).config == WriteTarget(cfg, m);
    if "target" !in m {
      TwoWritesIsolated(cfg, m, "target", target, "active", active, target);
    }
    if "active" !in m {
      TwoWritesIsolated(cfg, m, "target", target, "active", active, active);
    }
    if t != target && t != active {
      TwoWritesIsolated(cfg, m, "target", target, "active", active, t);
    }
  }

  /** Two conditional writes leave alone every setting neither of them
      writes. */
  lemma TwoWritesIsolated(cfg: Value, m: map<string, Value>, k1: string, s1: Config.Setting,
                          k2: string, s2: Config.Setting, t: Config.Setting)
    requires k1 !in m || s1 != t
    requires k2 !in m || s2 != t
    ensures Config.Read(WriteIfPresent(WriteIfPresent(cfg, m, k1, s1), m, k2, s2), t) == Config.Read(cfg, t)
  {
    WriteIfPresentIsolated(cfg, m, k1, s1, t);
    WriteIfPresentIsolated(WriteIfPresent(cfg, m, k1, s1), m, k2, s2, t);
  }

  /** Posting a target and reading it back: `GET /api/target` then shows
      every value the document carried, and the earlier value of a name it
      did not carry, provided the thermostat section can be written. */
  lemma SetThenGetTarget(cfg: Value, m: map<string, Value>)
    requires Config.WritableSection(cfg, Config.Thermostat)
    ensures var shown := TargetDocument(SetTargetFrom(cfg, Some(Dict(m))).config).fields;
            var before := TargetDocument(cfg).fields;
            ("target" in m ==> shown["target"] == m["target"]) &&
            ("active" in m ==> shown["active"] == m["active"]) &&
            ("target" !in m ==> shown["target"] == before["target"]) &&
            ("active" !in m ==> shown["active"] == before["active"])
  {
    SetTargetWritesPresentKeys(cfg, m, Config.ThermostatTarget);
    var target := Config.ThermostatTarget;
    var active := Config.ThermostatActive;
    var withTarget := WriteIfPresent(cfg, m, "target", target);
    WriteIfPresentStores(cfg, m, "target", target);
    WriteIfPresentStores(withTarget, m, "active", active);
    WriteIfPresentIsolated(withTarget, m, "active", active, target);
  }

  /** `_api_set_config`: any decoded document replaces the whole tree;
      a body that does not decode answers 400. */
  function SetConfigFrom(cfg: Value, data: Option<Value>): (r: Outcome)
    ensures r.status == 200 <==> data.Some?
    ensures r.status != 200 ==> r.status == 400 && r.config == cfg
    ensures r.status == 200 ==> r.config == data.value
  {
    match data
    case None => Outcome(cfg, 400)
    case Some(doc) => Outcome(doc, 200)
  }

  // ---------------------------------------------------------------------
  // Saving a network
  // ---------------------------------------------------------------------

  const PasswordKey := "password"

  /** The known list after a save, and the index to select. */
  datatype Upserted = Upserted(nets: seq<Value>, selected: nat)

  /** A new known-network entry. */
  function NewNetwork(ssid: Value, password: Value): Value
  {
    Dict(map[Bindings.SsidKey := ssid, PasswordKey := password])
  }

  /** The loop of `_api_wifi_save`: the first entry named `ssid` gets the
      new password in place; when there is none, an entry is appended.
      An entry without a name met before the match raises. */
  function Upsert(nets: seq<Value>, ssid: Value, password: Value): (r: Option<Upserted>)
    ensures r.None? <==> Bindings.FindSsid(nets, ssid).Raised?
    ensures r.Some? ==> r.value.selected < |r.value.nets|
    ensures r.Some? ==> Bindings.Subscript(r.value.nets[r.value.selected], Bindings.SsidKey) == Some(ssid)
    ensures r.Some? ==> Bindings.Subscript(r.value.nets[r.value.selected], PasswordKey) == Some(password)
    ensures r.Some? && |r.value.nets| == |nets| ==>
              Bindings.PassedBefore(nets, ssid, r.value.selected) &&
              Bindings.Subscript(nets[r.value.selected], Bindings.SsidKey) == Some(ssid) &&
              forall k :: 0 <= k < |nets| && k != r.value.selected ==> r.value.nets[k] == nets[k]
    ensures r.Some? && |r.value.nets| != |nets| ==>
              Bindings.PassedBefore(nets, ssid, |nets|) &&
              |r.value.nets| == |nets| + 1 && r.value.selected == |nets| && r.value.nets[..|nets|] == nets
  {
    match Bindings.FindSsid(nets, ssid)
    case Raised => None
    case At(i) =>
      var updated := Dict(nets[i].fields[PasswordKey := password]);
      Some(Upserted(nets[i := updated], i))
    case Absent =>
      assert (nets + [NewNetwork(ssid, password)])[..|nets|] == nets;
      Some(Upserted(nets + [NewNetwork(ssid, password)], |nets|))
  }

  /** A network already known is updated at its first occurrence. */
  lemma UpsertUpdatesFirstMatch(nets: seq<Value>, ssid: Value, password: Value, i: nat)
    requires i < |nets| && Bindings.PassedBefore(nets, ssid, i)
    requires Bindings.Subscript(nets[i], Bindings.SsidKey) == Some(ssid)
    ensures Upsert(nets, ssid, password).Some?
    ensures Upsert(nets, ssid, password).value.selected == i
    ensures |Upsert(nets, ssid, password).value.nets| == |nets|
  {
    Bindings.FindSsidIsFirst(nets, ssid, i);
  }

  /** Every entry has a name and no two entries share one. */
  predicate UniqueSsids(nets: seq<Value>)
  {
    (forall i :: 0 <= i < |nets| ==> Bindings.Subscript(nets[i], Bindings.SsidKey).Some?) &&
    (forall i, j :: 0 <= i < j < |nets| ==>
       Bindings.Subscript(nets[i], Bindings.SsidKey) != Bindings.Subscript(nets[j], Bindings.SsidKey))
  }

  /** A save never introduces a second entry with the same name. */
  lemma UpsertKeepsSsidsUnique(nets: seq<Value>, ssid: Value, password: Value)
    requires UniqueSsids(nets)
    ensures Upsert(nets, ssid, password).Some?
    ensures UniqueSsids(Upsert(nets, ssid, password).value.nets)
  {
    var r := Upsert(nets, ssid, password).value;
    if |r.nets| == |nets| {
      forall k | 0 <= k < |nets|
        ensures Bindings.Subscript(r.nets[k], Bindings.SsidKey) == Bindings.Subscript(nets[k], Bindings.SsidKey)
      {
      }
    } else {
      forall k | 0 <= k < |nets|
        ensures Bindings.Subscript(r.nets[k], Bindings.SsidKey) == Bindings.Subscript(nets[k], Bindings.SsidKey)
      {
        assert r.nets[k] == r.nets[..|nets|][k];
      }
    }
  }

  /** `data.get(key)`: `None` (Python's) when the key is absent. */
  function Field(m: map<string, Value>, key: string): Value
  {
    if key in m then m[key] else Null
  }

  /** `_api_wifi_save`. A document that is not an object raises; a falsy
      `ssid` answers 400; a known list that is not a list, or an entry
      without a name met before the match, raises; every exception answers
      500 and leaves the configuration alone. Otherwise the list and the
      selected index are written back. */
  function SaveNetworkFrom(cfg: Value, data: Option<Value>): (r: Outcome)
    ensures r.status in {200, 400, 500}
    ensures r.status != 200 ==> r.config == cfg
    ensures r.status == 400 <==> data.Some? && data.value.Dict? && !Truthy(Field(data.value.fields, Bindings.SsidKey))
  {
    match data
    case Some(Dict(m)) =>
      var ssid := Field(m, Bindings.SsidKey);
      if !Truthy(ssid) then Outcome(cfg, 400)
      else
        (match UpsertKnown(cfg, ssid, Field(m, PasswordKey))
         case None => Outcome(cfg, 500)
         case Some(u) => Outcome(StoreNetworks(cfg, u), 200))
    case _ => Outcome(cfg, 500)
  }

  /** The save loop over `config.get('wifi.known', [])`; anything but a
      list raises, in the loop or at `append`. */
  function UpsertKnown(cfg: Value, ssid: Value, password: Value): (r: Option<Upserted>)
    ensures r.Some? ==> Config.Read(cfg, Config.WifiKnown).List?
  {
    match Config.Read(cfg, Config.WifiKnown)
    case List(nets) => Upsert(nets, ssid, password)
    case _ => None
  }

  /** `config.set('wifi.known', ...)` then `config.set('wifi.selected', ...)`. */
  function StoreNetworks(cfg: Value, u: Upserted): Value
  {
    var withKnown := Config.Store(cfg, Config.WifiKnown, List(u.nets)).0;
    Config.Store(withKnown, Config.WifiSelected, Int(u.selected)).0
  }

  /** Storing the networks into a writable Wi-Fi section: both settings
      read back what was stored. */
  lemma StoreNetworksReadsBack(cfg: Value, u: Upserted)
    requires Config.WritableSection(cfg, Config.Wifi)
    ensures Config.Read(StoreNetworks(cfg, u), Config.WifiKnown) == List(u.nets)
    ensures Config.Read(StoreNetworks(cfg, u), Config.WifiSelected) == Int(u.selected)
  {
    Config.StoreTwoInSection(cfg, Config.WifiKnown, List(u.nets), Config.WifiSelected, Int(u.selected));
  }

  /** A stored index inside the stored list selects the name of that
      entry. */
  lemma SelectedEntry(cfg: Value, nets: seq<Value>, selected: nat, ssid: Value)
    requires Config.Read(cfg, Config.WifiKnown) == List(nets)
    requires Config.Read(cfg, Config.WifiSelected) == Int(selected)
    requires selected < |nets| && Bindings.Subscript(nets[selected], Bindings.SsidKey) == Some(ssid)
    ensures Bindings.SelectedSsid(cfg) == Some(ssid)
  {
  }

  /** After a successful save into a writable Wi-Fi section, the setup
      screen shows the saved network as the selected one. */
  lemma SaveThenSelected(cfg: Value, m: map<string, Value>)
    requires Config.WritableSection(cfg, Config.Wifi)
    requires SaveNetworkFrom(cfg, Some(Dict(m))).status == 200
    ensures Bindings.SelectedSsid(SaveNetworkFrom(cfg, Some(Dict(m))).config) == Some(Field(m, Bindings.SsidKey))
  {
    var ssid := Field(m, Bindings.SsidKey);
    var u := UpsertKnown(cfg, ssid, Field(m, PasswordKey)).value;
    assert SaveNetworkFrom(cfg, Some(Dict(m))).config == StoreNetworks(cfg, u);
    StoreNetworksReadsBack(cfg, u);
    SelectedEntry(StoreNetworks(cfg, u), u.nets, u.selected, ssid);
  }

  /** A save into a writable Wi-Fi section keeps the known names unique. */
  lemma SaveKeepsSsidsUnique(cfg: Value, m: map<string, Value>)
    requires Config.WritableSection(cfg, Config.Wifi)
    requires SaveNetworkFrom(cfg, Some(Dict(m))).status == 200
    requires Config.Read(cfg, Config.WifiKnown).List? && UniqueSsids(Config.Read(cfg, Config.WifiKnown).items)
    ensures var known := Config.Read(SaveNetworkFrom(cfg, Some(Dict(m))).config, Config.WifiKnown);
            known.List? && UniqueSsids(known.items)
  {
    var ssid := Field(m, Bindings.SsidKey);
    var password := Field(m, PasswordKey);
    var u := UpsertKnown(cfg, ssid, password).value;
    assert SaveNetworkFrom(cfg, Some(Dict(m))).config == StoreNetworks(cfg, u);
    StoreNetworksReadsBack(cfg, u);
    UpsertKeepsSsidsUnique(Config.Read(cfg, Config.WifiKnown).items, ssid, password);
  }
}
