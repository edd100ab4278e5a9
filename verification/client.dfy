/** The lab 1 client: turn a URL into a GET request, read the server's
    whole answer, split it into header and body, read the status code, and
    optionally save the body's raw bytes to a file.  The connection, the
    printing and `urlparse` itself are not modelled: the URL arrives already
    parsed, and the answer is the bytes the server sent before closing. */
module Client {
  import opened Text
  import opened Utf8
  import opened Http
  import opened Paths
  import opened Router
  import Pages
  import Lab1

  /** What `urlparse` reports: scheme (`""` when absent), host name, port,
      and path (`""` when absent). */
  datatype Url = Url(scheme: string, hostname: Option<string>, port: Option<int>, path: string)

  /** Where the request goes, once the defaults are filled in. */
  datatype Endpoint = Endpoint(host: string, port: int, path: string)

  /** What `fetch` raises: the `ValueError`s for no host, a scheme other
      than `http` and a status code `int` cannot read, and, as written, the
      error of creating the directories of a bare file name. */
  datatype Error = NoHost | NotHttp | BadStatus | SaveFailed

  datatype Result<T> = Ok(value: T) | Fail(error: Error)

  /** The defaults and the two checks at the top of `fetch`: the scheme
      defaults to `http`, the port to 80 (also for port 0, which is falsy),
      the path to `/`; a missing host is refused before a foreign scheme. */
  function Target(url: Url): (r: Result<Endpoint>)
    ensures r == Fail(NoHost) <==> url.hostname.None? || url.hostname.value == ""
    ensures r == Fail(NotHttp)
            <==> (url.hostname.Some? && url.hostname.value != "" && url.scheme != "" && url.scheme != "http")
    ensures r.Ok? ==> r.value.host == url.hostname.value
    ensures r.Ok? ==> r.value.port != 0
    ensures r.Ok? && url.port.Some? && url.port.value != 0 ==> r.value.port == url.port.value
    ensures r.Ok? ==> r.value.path != "" && (url.path != "" ==> r.value.path == url.path)
    ensures r.Ok? && (url.port.None? || url.port.value == 0) ==> r.value.port == 80
    ensures r.Ok? && url.path == "" ==> r.value.path == "/"
  {
    var scheme := if url.scheme == "" then "http" else url.scheme;
    var port := if url.port.None? || url.port.value == 0 then 80 else url.port.value;
    var path := if url.path == "" then "/" else url.path;
    if url.hostname.None? || url.hostname.value == "" then Fail(NoHost)
    else if scheme != "http" then Fail(NotHttp)
    else Ok(Endpoint(url.hostname.value, port, path))
  }

  const UserAgentLine: string := "User-Agent: Python-HTTP-Client/1.0\r\n"
  const ConnectionLine: string := "Connection: close\r\n"

  /** The header lines after the request line, and the blank line. */
  function RequestHeaders(host: string): string {
    "Host: " + host + "\r\n" + UserAgentLine + ConnectionLine + "\r\n"
  }

  /** The request `fetch` sends, as text. */
  function RequestText(e: Endpoint): string {
    GetRequest(e.path, RequestHeaders(e.host))
  }

  /** The request `fetch` sends, as bytes. */
  function RequestBytes(e: Endpoint): seq<byte> {
    Encode(RequestText(e))
  }

  // ---------------------------------------------------------------------
  // Reading the answer
  // ---------------------------------------------------------------------

  const Blank: string := "\r\n\r\n"

  /** `response_str.split("\r\n\r\n", 1)` when the blank line occurs, and
      the whole text with an empty body otherwise. */
  function SplitHead(text: string): (r: (string, string))
    ensures Contains(text, Blank) ==> text == r.0 + Blank + r.1
    ensures Contains(text, Blank) ==> forall i :: 0 <= i < |r.0| ==> !OccursAt(text, Blank, i)
    ensures !Contains(text, Blank) ==> r == (text, "")
  {
    var k := Find(text, Blank);
    if k < 0 then (text, "")
    else
      assert text[..k] + Blank + text[k + 4..] == text by {
        assert text[k..k + 4] == Blank;
      }
      (text[..k], text[k + 4..])
  }

  /** `int(status_line.split()[1])`, or 0 for a status line of fewer than
      two words; `None` where `int` raises. */
  function StatusCode(headers: string): (r: Option<int>)
    ensures |SplitWs(FirstLine(headers))| < 2 ==> r == Some(0)
    ensures |SplitWs(FirstLine(headers))| >= 2 ==> r == ParseInt(SplitWs(FirstLine(headers))[1])
  {
    var parts := SplitWs(FirstLine(headers));
    if |parts| > 1 then ParseInt(parts[1]) else Some(0)
  }

  /** What `fetch` returns: the status code, the header text and the body
      text. */
  datatype Fetched = Fetched(code: int, headers: string, body: string)

  /** The parse of the whole answer, decoded leniently. */
  function ParseResponse(data: seq<byte>): (r: Result<Fetched>)
    ensures r.Fail? ==> r.error == BadStatus
    ensures r.Ok? ==> (r.value.headers, r.value.body) == SplitHead(DecodeIgnore(data))
    ensures r.Fail? <==> StatusCode(SplitHead(DecodeIgnore(data)).0).None?
    ensures r.Ok? ==> Some(r.value.code) == StatusCode(r.value.headers)
  {
    var (headers, body) := SplitHead(DecodeIgnore(data));
    match StatusCode(headers)
    case None => Fail(BadStatus)
    case Some(code) => Ok(Fetched(code, headers, body))
  }

  /** The raw body as the client cuts it: the bytes from four past the first
      blank line on.  Without a blank line the search reports -1, so the cut
      starts at byte 3. */
  function RawBody(data: seq<byte>): (body: seq<byte>)
    ensures Find(data, [13, 10, 13, 10]) >= 0 ==> body == data[Find(data, [13, 10, 13, 10]) + 4..]
    ensures Find(data, [13, 10, 13, 10]) < 0 ==> body == (if |data| >= 3 then data[3..] else [])
  {
    var start := Find(data, [13, 10, 13, 10]) + 4;
    if start <= |data| then data[start..] else []
  }

  /** The raw body as evidently intended: what follows the first blank
      line, and nothing when there is none, as for the body text. */
  function RawBodyFixed(data: seq<byte>): (body: seq<byte>)
    ensures Find(data, [13, 10, 13, 10]) >= 0 ==> body == data[Find(data, [13, 10, 13, 10]) + 4..]
    ensures Find(data, [13, 10, 13, 10]) < 0 ==> body == []
  {
    var k := Find(data, [13, 10, 13, 10]);
    if k < 0 then [] else data[k + 4..]
  }

  // ---------------------------------------------------------------------
  // Saving the body
  // ---------------------------------------------------------------------

  /** The index of the last `c` in `s`, or -1 (`s.rfind(c)`). */
  function RFind(s: string, c: char): (r: int)
    ensures -1 <= r < |s|
    ensures r >= 0 ==> s[r] == c
    ensures forall i :: r < i < |s| ==> s[i] != c
  {
    if |s| == 0 then -1
    else if s[|s| - 1] == c then |s| - 1
    else RFind(s[..|s| - 1], c)
  }

  /** `os.path.basename(p)`: what follows the last `/`. */
  function Basename(p: string): (b: string)
    ensures '/' !in b
    ensures EndsWith(p, b)
    ensures |b| == |p| || p[|p| - |b| - 1] == '/'
  {
    var i := RFind(p, '/') + 1;
    assert forall j :: 0 <= j < |p[i..]| ==> p[i..][j] == p[i + j];
    p[i..]
  }

  /** `os.path.dirname(p)`: up to the last `/`, with trailing slashes
      removed unless it is all slashes. */
  function Dirname(p: string): (d: string)
    ensures d == "" <==> '/' !in p
  {
    var i := RFind(p, '/') + 1;
    var head := p[..i];
    if head != "" && head != Repeat('/', |head|) then
      assert head[|head| - 1] == '/';
      RStrip(head, '/')
    else
      assert head == "" ==> '/' !in p;
      assert i > 0 ==> p[i - 1] == '/' && head != "";
      head
  }

  /** The file a body is saved to: the given path, or, when it names a
      directory, the URL path's last component inside it (`output.bin`
      when that is empty). */
  function SavePath(output: string, outputIsDir: bool, urlPath: string): (p: string)
    ensures !outputIsDir ==> p == output
  {
    if outputIsDir then
      var name := Basename(urlPath);
      PathJoin(output, if name == "" then "output.bin" else name)
    else output
  }

  /** Files by path. */
  type Files = map<string, seq<byte>>

  /** The two saving blocks of `fetch` as written: create the file's parent
      directories, write the body, then write it again.  Creating the
      directories of a bare file name (`os.makedirs("")`) raises. */
  function SaveAsWritten(files: Files, target: string, body: seq<byte>): (r: Option<Files>)
    ensures r.None? <==> '/' !in target
    ensures r.Some? ==> r.value == files[target := body]
  {
    if Dirname(target) == "" then None
    else Some(files[target := body][target := body])
  }

  /** Saving as evidently intended: a bare file name is saved in the
      current directory, and the body is written once. */
  function SaveFixed(files: Files, target: string, body: seq<byte>): (r: Files)
    ensures r.Keys == files.Keys + {target}
    ensures r[target] == body
    ensures forall other :: other in files && other != target ==> r[other] == files[other]
  {
    files[target := body]
  }

  /** Where the body of a fetch is saved, if anywhere: the output path and
      whether it names an existing directory (`os.path.isdir`). */
  datatype Output = Output(path: string, isDir: bool)

  /** `if output_file:` — an absent or empty output path saves nothing. */
  predicate Saves(output: Option<Output>) {
    output.Some? && output.value.path != ""
  }

  /** `fetch(url, output_file)` once the server has answered with `data`:
      the result and the files afterwards.  The body saved is the raw bytes
      after the blank line, using the corrected slice and save. */
  function Fetch(url: Url, data: seq<byte>, output: Option<Output>, files: Files): (r: Result<(Fetched, Files)>)
    ensures r.Ok? <==> Target(url).Ok? && ParseResponse(data).Ok?
    ensures Target(url).Fail? ==> r == Fail(Target(url).error)
    ensures Target(url).Ok? && ParseResponse(data).Fail? ==> r == Fail(BadStatus)
    ensures r.Ok? ==> r.value.0 == ParseResponse(data).value
    ensures r.Ok? && !Saves(output) ==> r.value.1 == files
    ensures r.Ok? && Saves(output)
            ==> var target := SavePath(output.value.path, output.value.isDir, Target(url).value.path);
                && r.value.1.Keys == files.Keys + {target}
                && r.value.1[target] == RawBodyFixed(data)
                && forall other :: other in files && other != target ==> r.value.1[other] == files[other]
  {
    match Target(url)
    case Fail(e) => Fail(e)
    case Ok(endpoint) =>
      match ParseResponse(data)
      case Fail(e) => Fail(e)
      case Ok(fetched) =>
        if !Saves(output) then Ok((fetched, files))
        else
          var target := SavePath(output.value.path, output.value.isDir, endpoint.path);
          Ok((fetched, SaveFixed(files, target, RawBodyFixed(data))))
  }

  /** `fetch(url, output_file)` as written: the raw body is cut with the
      as-written slice and saved with the as-written save, so a bare output
      file name fails with `SaveFailed` after the answer was read. */
  function FetchAsWritten(url: Url, data: seq<byte>, output: Option<Output>, files: Files): (r: Result<(Fetched, Files)>)
    ensures Target(url).Fail? ==> r == Fail(Target(url).error)
    ensures Target(url).Ok? && ParseResponse(data).Fail? ==> r == Fail(BadStatus)
    ensures r.Ok? ==> r.value.0 == ParseResponse(data).value
    ensures Target(url).Ok? && ParseResponse(data).Ok? && !Saves(output) ==> r == Ok((ParseResponse(data).value, files))
    ensures Target(url).Ok? && ParseResponse(data).Ok? && Saves(output)
            ==> var target := SavePath(output.value.path, output.value.isDir, Target(url).value.path);
                && (r == Fail(SaveFailed) <==> '/' !in target)
                && (r.Ok? ==> r.value.1 == files[target := RawBody(data)])
  {
    match Target(url)
    case Fail(e) => Fail(e)
    case Ok(endpoint) =>
      match ParseResponse(data)
      case Fail(e) => Fail(e)
      case Ok(fetched) =>
        if !Saves(output) then Ok((fetched, files))
        else
          var target := SavePath(output.value.path, output.value.isDir, endpoint.path);
          match SaveAsWritten(files, target, RawBody(data))
          case None => Fail(SaveFailed)
          case Some(saved) => Ok((fetched, saved))
  }

  // ---------------------------------------------------------------------
  // Lemmas
  // ---------------------------------------------------------------------

  /** The server reads the client's request line back as a GET of the
      URL's path, whichever decoder it uses, as long as the path holds no
      whitespace. */
  lemma ServerReadsRequest(e: Endpoint)
    requires |e.path| > 0 && NoSpace(e.path)
    ensures DecodeStrict(RequestBytes(e)) == Some(RequestText(e))
    ensures DecodeIgnore(RequestBytes(e)) == RequestText(e)
    ensures ParseRequestLine(RequestText(e)) == Some(RequestLine("GET", e.path))
  {
    DecodeOfEncode(RequestText(e));
    ParseGet(e.path, RequestHeaders(e.host));
  }

  lemma DigitsNoSpace(s: string)
    requires AllDigits(s)
    ensures NoSpace(s)
  {
    forall i | 0 <= i < |s| ensures !IsSpace(s[i]) {
      assert IsDigit(s[i]);
    }
  }

  lemma SkipSpace(x: string)
    ensures SplitWs(" " + x) == SplitWs(x)
  {
    assert (" " + x)[1..] == x;
  }

  /** The words of a status line: the version, the code's digits, then the
      words of the reason. */
  lemma StatusLineWords(code: nat, reason: string)
    ensures |SplitWs(StatusLine(code, reason))| >= 2
    ensures SplitWs(StatusLine(code, reason))[1] == NatToString(code)
  {
    StatusLineShape(code, reason);
    VersionWord();
    DigitsNoSpace(NatToString(code));
    SecondWord(Version, NatToString(code), reason);
  }

  /** `v d reason`, with `v` and `d` single words: `d` is the second word. */
  lemma SecondWord(v: string, d: string, reason: string)
    requires |v| > 0 && NoSpace(v) && |d| > 0 && NoSpace(d)
    ensures |SplitWs(v + (" " + (d + " " + reason)))| >= 2
    ensures SplitWs(v + (" " + (d + " " + reason)))[1] == d
  {
    var rest := " " + reason;
    var x := d + rest;
    assert d + " " + reason == x;
    var y := " " + x;
    SplitWsToken(v, y);
    SkipSpace(x);
    SplitWsToken(d, rest);
    var words := SplitWs(v + y);
    assert words == [v] + ([d] + SplitWs(rest));
  }

  lemma VersionWord()
    ensures |Version| > 0 && NoSpace(Version)
  {
  }

  lemma StatusLineShape(code: nat, reason: string)
    ensures StatusLine(code, reason) == Version + (" " + (NatToString(code) + " " + reason))
  {
    var d := NatToString(code);
    assert StatusLine(code, reason) == Version + " " + (d + " " + reason);
  }

  /** The status code the client reads from a header whose first line is a
      server's status line is the code the server sent. */
  lemma StatusCodeRead(code: nat, reason: string, rest: string)
    requires FieldText(reason)
    requires '\r' !in StatusLine(code, reason)
    ensures StatusCode(StatusLine(code, reason) + "\r\n" + rest) == Some(code)
  {
    FirstLineOf(StatusLine(code, reason), rest);
    StatusLineWords(code, reason);
    ParseIntNatToString(code);
  }

  /** The header text of a response, and the body text, split apart. */
  lemma HeadSplit(r: Response)
    requires FieldText(r.reason) && FieldText(r.contentType)
    ensures var fields := HeaderFields(r.code, r.reason, r.contentType, |r.body|);
            && DecodeIgnore(Wire(r)) == Join(fields, "\r\n") + Blank + DecodeIgnore(r.body)
            && SplitHead(DecodeIgnore(Wire(r))) == (Join(fields, "\r\n"), DecodeIgnore(r.body))
  {
    var fields := HeaderFields(r.code, r.reason, r.contentType, |r.body|);
    var tail := DecodeIgnore(r.body);
    FieldsAreText(r.code, r.reason, r.contentType, |r.body|);
    DecodeIgnoreEncode(HeaderText(r.code, r.reason, r.contentType, |r.body|), r.body);
    var j := Join(fields, "\r\n");
    assert DecodeIgnore(Wire(r)) == j + Blank + tail;
    assert "\r\n" == ['\r', '\n'] && Blank == ['\r', '\n', '\r', '\n'];
    FindBlankLine(fields, '\r', '\n', tail);
    ContainsMiddle(j, Blank, tail);
  }

  /** What the client reads from any response a server builds: the status
      code, the header text without the blank line, and the body decoded
      leniently. */
  lemma ResponseRead(r: Response)
    requires FieldText(r.reason) && FieldText(r.contentType)
    ensures ParseResponse(Wire(r))
         == Ok(Fetched(r.code, Join(HeaderFields(r.code, r.reason, r.contentType, |r.body|), "\r\n"), DecodeIgnore(r.body)))
  {
    var fields := HeaderFields(r.code, r.reason, r.contentType, |r.body|);
    HeadSplit(r);
    FieldsAreText(r.code, r.reason, r.contentType, |r.body|);
    assert '\r' !in fields[0];
    assert fields[1..][1..] == fields[2..];
    assert Join(fields, "\r\n") == fields[0] + "\r\n" + Join(fields[1..], "\r\n");
    StatusCodeRead(r.code, r.reason, Join(fields[1..], "\r\n"));
  }

  /** The raw bytes saved from any response a server builds are exactly
      the body it sent, under both slices. */
  lemma BodySaved(r: Response)
    requires FieldText(r.reason) && FieldText(r.contentType)
    ensures RawBodyFixed(Wire(r)) == r.body
    ensures RawBody(Wire(r)) == r.body
  {
    WireHeaderEnd(r);
  }

  /** Fetching from a server and saving to a file stores exactly the bytes
      the server sent as the body, and leaves every other file alone. */
  lemma FetchSaves(url: Url, r: Response, out: Output, files: Files)
    requires Target(url).Ok? && out.path != ""
    requires FieldText(r.reason) && FieldText(r.contentType)
    ensures var target := SavePath(out.path, out.isDir, Target(url).value.path);
            var f := Fetch(url, Wire(r), Some(out), files);
            && f.Ok?
            && f.value.0 == Fetched(r.code, Join(HeaderFields(r.code, r.reason, r.contentType, |r.body|), "\r\n"), DecodeIgnore(r.body))
            && f.value.1 == files[target := r.body]
  {
    ResponseRead(r);
    BodySaved(r);
    FetchSaving(url, Wire(r), out, files);
  }

  /** A fetch with an output path, of an answer that parses, returns the
      parse and saves the raw body. */
  lemma FetchSaving(url: Url, data: seq<byte>, out: Output, files: Files)
    requires Target(url).Ok? && out.path != "" && ParseResponse(data).Ok?
    ensures Fetch(url, data, Some(out), files)
         == Ok((ParseResponse(data).value,
                files[SavePath(out.path, out.isDir, Target(url).value.path) := RawBodyFixed(data)]))
  {
  }

  /** End to end: the client fetching a readable file below the lab 1
      server's root, with an output path, is answered with the file (sent
      as `FileResponse`, see `Pages.ContentSent`) and saves exactly its
      bytes, reading status 200. */
  lemma FileDownloaded(cfg: Lab1.Config, fs: FileSystem, below: seq<string>, decode: string -> string,
                       guessType: string -> Option<string>, url: Url, out: Output, files: Files)
    requires Lab1.ValidConfig(cfg) && AllNames(below)
    requires NoSpace(Join(below, "/"))
    requires decode("/" + Join(below, "/")) == "/" + Join(below, "/")
    requires Readable(fs, Render(cfg.root + below))
    requires guessType(Render(cfg.root + below)).Some? ==> FieldText(guessType(Render(cfg.root + below)).value)
    requires Target(url).Ok? && Target(url).value.path == "/" + Join(below, "/")
    requires out.path != ""
    ensures var full := Render(cfg.root + below);
            var bytes := fs[full].content.value;
            && Lab1.HandleRequest(cfg, fs, RequestBytes(Target(url).value), Some(decode), guessType)
               == Pages.Reply(Pages.Content(bytes, guessType(full)))
            && var f := Fetch(url, Wire(FileResponse(bytes, guessType(full))), Some(out), files);
            && f.Ok? && f.value.0.code == 200
            && f.value.1 == files[SavePath(out.path, out.isDir, Target(url).value.path) := bytes]
  {
    var full := Render(cfg.root + below);
    RequestServed(cfg, fs, below, Target(url).value, decode, guessType);
    FileSaved(url, fs[full].content.value, guessType(full), out, files);
  }

  /** The client's request for a readable file below the root is answered
      with the file. */
  lemma RequestServed(cfg: Lab1.Config, fs: FileSystem, below: seq<string>, e: Endpoint,
                      decode: string -> string, guessType: string -> Option<string>)
    requires Lab1.ValidConfig(cfg) && AllNames(below)
    requires NoSpace(Join(below, "/"))
    requires decode("/" + Join(below, "/")) == "/" + Join(below, "/")
    requires Readable(fs, Render(cfg.root + below))
    requires e.path == "/" + Join(below, "/")
    ensures Lab1.HandleRequest(cfg, fs, RequestBytes(e), Some(decode), guessType)
         == Pages.Reply(Pages.Content(fs[Render(cfg.root + below)].content.value, guessType(Render(cfg.root + below))))
  {
    Lab1.FileFetched(cfg, fs, below, RequestHeaders(e.host), decode, guessType);
  }

  /** A file answer, once on the wire, is read by the client with status
      200 and its bytes saved. */
  lemma FileSaved(url: Url, content: seq<byte>, guessed: Option<string>, out: Output, files: Files)
    requires guessed.Some? ==> FieldText(guessed.value)
    requires Target(url).Ok? && out.path != ""
    ensures var f := Fetch(url, Wire(FileResponse(content, guessed)), Some(out), files);
            && f.Ok? && f.value.0.code == 200
            && f.value.1 == files[SavePath(out.path, out.isDir, Target(url).value.path) := content]
  {
    var r := FileResponse(content, guessed);
    OctetStreamIsText();
    FetchSaves(url, r, out, files);
  }

  /** Fetching from a server and saving to a file, as written: an output
      path with a directory part stores exactly the body bytes the server
      sent, and a bare file name fails without saving. */
  lemma FetchSavesAsWritten(url: Url, r: Response, out: Output, files: Files)
    requires Target(url).Ok? && out.path != ""
    requires FieldText(r.reason) && FieldText(r.contentType)
    ensures var target := SavePath(out.path, out.isDir, Target(url).value.path);
            var f := FetchAsWritten(url, Wire(r), Some(out), files);
            && ('/' in target ==>
                  && f.Ok?
                  && f.value.0 == Fetched(r.code, Join(HeaderFields(r.code, r.reason, r.contentType, |r.body|), "\r\n"), DecodeIgnore(r.body))
                  && f.value.1 == files[target := r.body])
            && ('/' !in target ==> f == Fail(SaveFailed))
  {
    ResponseRead(r);
    BodySaved(r);
  }

  /** End to end with lab 1, as written: the download of a readable file
      below the root reads status 200 and saves exactly the file's bytes
      when the output path has a directory part, and fails otherwise. */
  lemma FileDownloadedAsWritten(cfg: Lab1.Config, fs: FileSystem, below: seq<string>, decode: string -> string,
                                guessType: string -> Option<string>, url: Url, out: Output, files: Files)
    requires Lab1.ValidConfig(cfg) && AllNames(below)
    requires NoSpace(Join(below, "/"))
    requires decode("/" + Join(below, "/")) == "/" + Join(below, "/")
    requires Readable(fs, Render(cfg.root + below))
    requires guessType(Render(cfg.root + below)).Some? ==> FieldText(guessType(Render(cfg.root + below)).value)
    requires Target(url).Ok? && Target(url).value.path == "/" + Join(below, "/")
    requires out.path != ""
    ensures var full := Render(cfg.root + below);
            var bytes := fs[full].content.value;
            var target := SavePath(out.path, out.isDir, Target(url).value.path);
            && Lab1.HandleRequest(cfg, fs, RequestBytes(Target(url).value), Some(decode), guessType)
               == Pages.Reply(Pages.Content(bytes, guessType(full)))
            && var f := FetchAsWritten(url, Wire(FileResponse(bytes, guessType(full))), Some(out), files);
            && ('/' in target ==> f.Ok? && f.value.0.code == 200 && f.value.1 == files[target := bytes])
            && ('/' !in target ==> f == Fail(SaveFailed))
  {
    var full := Render(cfg.root + below);
    RequestServed(cfg, fs, below, Target(url).value, decode, guessType);
    OctetStreamIsText();
    FetchSavesAsWritten(url, FileResponse(fs[full].content.value, guessType(full)), out, files);
  }

  /** The header values a file response carries by default. */
  lemma OctetStreamIsText()
    ensures FieldText("application/octet-stream") && FieldText("OK")
  {
  }

  /** Without a blank line in the answer, the bytes saved as written are
      all but the first three, although the body text is empty: for an
      answer that is a single word of four or more characters, such as
      `HTTP`, the client reads code 0 and an empty body but saves a
      non-empty file. */
  lemma RawBodyWithoutBlankLine(w: string)
    requires |w| >= 4 && NoSpace(w)
    ensures ParseResponse(Encode(w)) == Ok(Fetched(0, w, ""))
    ensures RawBody(Encode(w)) == Encode(w)[3..] && |RawBody(Encode(w))| > 0
    ensures RawBodyFixed(Encode(w)) == []
  {
    OneWordParsed(w);
    EncodeKeepsCr(w);
    NoBlankLineBytes(Encode(w));
  }

  /** Bytes without a carriage return hold no blank line: the slice as
      written keeps all but the first three, the corrected one nothing. */
  lemma NoBlankLineBytes(data: seq<byte>)
    requires 13 !in data
    ensures RawBody(data) == (if |data| >= 3 then data[3..] else [])
    ensures RawBodyFixed(data) == []
  {
    FindAbsent(data, [13, 10, 13, 10]);
  }

  /** A single word, encoded, parses with code 0, itself as the header
      and an empty body. */
  lemma OneWordParsed(w: string)
    requires |w| > 0 && NoSpace(w)
    ensures ParseResponse(Encode(w)) == Ok(Fetched(0, w, ""))
    ensures '\r' !in w
  {
    DecodeOfEncode(w);
    OneWordResponse(w);
    var text := DecodeIgnore(Encode(w));
    assert text == w;
    assert SplitHead(text) == (w, "");
    assert StatusCode(SplitHead(text).0) == Some(0);
  }

  /** A single word with no line break and no blank line is a whole
      header with an empty body and no code. */
  lemma OneWordResponse(w: string)
    requires |w| > 0 && NoSpace(w)
    ensures !Contains(w, Blank)
    ensures SplitHead(w) == (w, "")
    ensures StatusCode(w) == Some(0)
    ensures '\r' !in w
  {
    forall i | 0 <= i < |w| ensures w[i] != '\r' {
      assert !IsSpace(w[i]);
    }
    forall i | 0 <= i <= |w| ensures !OccursAt(w, Blank, i) && !OccursAt(w, "\r\n", i) {
      if i + 2 <= |w| {
        assert w[i..i + 2][0] == w[i];
      }
      if i + 4 <= |w| {
        assert w[i..i + 4][0] == w[i];
      }
    }
    assert FirstLine(w) == w;
    SplitWsToken(w, "");
    assert w + "" == w;
  }

  /** A bare file name as the output path: saving as written raises, while
      the corrected save writes the file in the current directory. */
  lemma BareNameNotSaved(files: Files, body: seq<byte>)
    ensures SaveAsWritten(files, "out.bin", body).None?
    ensures SaveFixed(files, "out.bin", body)["out.bin"] == body
  {
    assert '/' !in "out.bin";
  }
}
