/** The request handling both servers share, up to the point where they
    answer: parse the request line, decode the target, refuse other methods,
    apply the traversal guard, and decide between 404, a directory listing
    and a file.  The file system is a map from absolute paths to what
    `os.path.exists`, `os.path.isdir`, `open(...).read()` and `os.listdir`
    report about them; reading or listing may fail, which the servers answer
    with 500.

    The guard is a parameter: `StringPrefix` is the test the servers
    perform, `Containment` the corrected one. */
module Router {
  import opened Text
  import opened Paths
  import opened Http

  /** What the file system holds at a path.  `None` contents or entries:
      opening or listing the path raises. */
  datatype Node = File(content: Option<seq<byte>>) | Directory(entries: Option<seq<string>>)

  type FileSystem = map<string, Node>

  /** `os.path.isdir(path)`. */
  predicate IsDir(fs: FileSystem, path: string) {
    path in fs && fs[path].Directory?
  }

  /** `open(path, "rb").read()` succeeds. */
  predicate Readable(fs: FileSystem, path: string) {
    path in fs && fs[path].File? && fs[path].content.Some?
  }

  /** `os.listdir(path)` succeeds. */
  predicate Listable(fs: FileSystem, path: string) {
    IsDir(fs, path) && fs[path].entries.Some?
  }

  datatype Guard = StringPrefix | Containment

  /** The traversal guard in force. */
  function Check(guard: Guard, root: seq<string>, path: string): (r: Resolution)
    requires AllNames(root)
    ensures path == "" ==> r == Allowed(Render(root))
    ensures r.Allowed? ==> StartsWith(r.full, "/")
  {
    match guard
    case StringPrefix => Resolve(root, path)
    case Containment => ResolveContained(root, path)
  }

  /** The first two whitespace-separated words of the request line. */
  datatype RequestLine = RequestLine(verb: string, target: string)

  /** `request.split("\r\n")[0].split()`, failing (400) with fewer than two
      words. */
  function ParseRequestLine(request: string): (r: Option<RequestLine>)
    ensures r.Some? <==> |SplitWs(FirstLine(request))| >= 2
    ensures r.Some? ==> |r.value.verb| > 0 && NoSpace(r.value.verb)
    ensures r.Some? ==> |r.value.target| > 0 && NoSpace(r.value.target)
  {
    var parts := SplitWs(FirstLine(request));
    if |parts| < 2 then None else Some(RequestLine(parts[0], parts[1]))
  }

  /** How a request is answered.  `Crash` is an exception escaping to the
      handler's catch-all (500). */
  datatype Route =
    | Silent
    | BadRequest
    | Crash
    | BadMethod
    | Denied
    | Missing(path: string)
    | ServeDir(full: string, urlPath: string)
    | ServeFile(full: string)

  predicate Served(r: Route) {
    r.ServeDir? || r.ServeFile?
  }

  /** The shared part of `handle_request` / `_handle_client`.  `unquote` is
      `urllib.parse.unquote`; it is absent in a handler that uses it without
      importing it, where calling it raises `NameError`. */
  function Classify(guard: Guard, root: seq<string>, request: string,
                    unquote: Option<string -> string>, fs: FileSystem): (r: Route)
    requires AllNames(root)
    ensures r == Silent <==> request == ""
    ensures r == BadRequest <==> request != "" && ParseRequestLine(request).None?
    ensures r == Crash <==> request != "" && ParseRequestLine(request).Some? && unquote.None?
    ensures r == BadMethod <==> request != "" && ParseRequestLine(request).Some? && unquote.Some?
                                && ParseRequestLine(request).value.verb != "GET"
    ensures request != "" && ParseRequestLine(request).Some? && unquote.Some?
            && ParseRequestLine(request).value.verb == "GET"
            ==> r == Dispatch(guard, root, StripSlash(unquote.value(ParseRequestLine(request).value.target)), fs)
    ensures Served(r) ==> StartsWith(r.full, "/")
  {
    if request == "" then Silent
    else match ParseRequestLine(request)
      case None => BadRequest
      case Some(line) =>
        match unquote
        case None => Crash
        case Some(decode) =>
          if line.verb != "GET" then BadMethod
          else Dispatch(guard, root, StripSlash(decode(line.target)), fs)
  }

  /** The route of a GET for the stripped, decoded `path`: 403 unless the
      guard admits it, 404 unless it exists, and otherwise a listing or the
      file according to what it is. */
  function Dispatch(guard: Guard, root: seq<string>, path: string, fs: FileSystem): (r: Route)
    requires AllNames(root)
    ensures r == Denied <==> Check(guard, root, path).Forbidden?
    ensures r.Missing? <==> Check(guard, root, path).Allowed? && Check(guard, root, path).full !in fs
    ensures r.Missing? ==> r.path == path
    ensures Served(r) <==> Check(guard, root, path).Allowed? && Check(guard, root, path).full in fs
    ensures Served(r) ==> r.full == Check(guard, root, path).full && (r.ServeDir? <==> fs[r.full].Directory?)
    ensures Served(r) ==> StartsWith(r.full, "/")
    ensures r.ServeDir? ==> r.urlPath == path
    ensures Served(r) && guard == StringPrefix ==> StartsWith(r.full, Render(root))
    ensures Served(r) && guard == Containment ==> exists rest :: AllNames(rest) && r.full == Render(root + rest)
  {
    match Check(guard, root, path)
    case Forbidden => Denied
    case Allowed(full) =>
      if full !in fs then Missing(path)
      else if fs[full].Directory? then ServeDir(full, path)
      else ServeFile(full)
  }

  // ---------------------------------------------------------------------
  // Lemmas
  // ---------------------------------------------------------------------

  /** A GET request as a client writes it: the request line, then the header
      lines and the blank line in `rest`. */
  function GetRequest(target: string, rest: string): string {
    "GET " + target + " " + Version + "\r\n" + rest
  }

  /** Three words joined by single spaces hold no carriage return. */
  lemma WordsHaveNoCr(a: string, b: string, c: string)
    requires NoSpace(a) && NoSpace(b) && NoSpace(c)
    ensures Join([a, b, c], " ") == a + " " + b + " " + c
    ensures '\r' !in a + " " + b + " " + c
  {
    assert [a, b, c][1..] == [b, c];
    assert [b, c][1..] == [c];
    assert Join([b, c], " ") == b + " " + c;
    assert Join([a, b, c], " ") == a + " " + (b + " " + c);
    var line := a + " " + b + " " + c;
    forall i | 0 <= i < |line| ensures line[i] != '\r' {
      if i < |a| {
        assert line[i] == a[i];
      } else if |a| < i < |a| + 1 + |b| {
        assert line[i] == b[i - |a| - 1];
      } else if |a| + 1 + |b| < i {
        assert line[i] == c[i - |a| - |b| - 2];
      }
    }
  }

  /** The request line `GET <target> HTTP/1.1` parses back to its method and
      target, whatever follows it. */
  lemma ParseGet(target: string, rest: string)
    requires |target| > 0 && NoSpace(target)
    ensures ParseRequestLine(GetRequest(target, rest)) == Some(RequestLine("GET", target))
  {
    var words := ["GET", target, Version];
    var line := "GET " + target + " " + Version;
    WordsHaveNoCr("GET", target, Version);
    assert "GET" + " " == "GET ";
    SplitWsJoin(words);
    assert SplitWs(line) == words;
    FirstLineOf(line, rest);
    assert GetRequest(target, rest) == line + "\r\n" + rest;
    assert FirstLine(GetRequest(target, rest)) == line;
  }

  /** A well-formed GET whose target the decoder leaves alone is routed by
      its stripped target alone. */
  lemma GetRoute(guard: Guard, root: seq<string>, target: string, rest: string,
                 decode: string -> string, fs: FileSystem)
    requires AllNames(root)
    requires |target| > 0 && NoSpace(target) && decode(target) == target
    ensures Classify(guard, root, GetRequest(target, rest), Some(decode), fs)
         == Dispatch(guard, root, StripSlash(target), fs)
  {
    ParseGet(target, rest);
  }

  /** A GET for a path below the root that exists is served from that path,
      under either guard: a listing for a directory, the file otherwise. */
  lemma DescendantServed(guard: Guard, root: seq<string>, below: seq<string>,
                         rest: string, decode: string -> string, fs: FileSystem)
    requires AllNames(root) && AllNames(below)
    requires NoSpace(Join(below, "/"))
    requires decode("/" + Join(below, "/")) == "/" + Join(below, "/")
    requires Render(root + below) in fs
    ensures var r := Classify(guard, root, GetRequest("/" + Join(below, "/"), rest), Some(decode), fs);
            && Served(r)
            && r.full == Render(root + below)
            && (r.ServeDir? <==> fs[Render(root + below)].Directory?)
            && (r.ServeDir? ==> r.urlPath == Join(below, "/"))
  {
    var path := Join(below, "/");
    NoSpaceAppend("/", path);
    GetRoute(guard, root, "/" + path, rest, decode, fs);
    assert StripSlash("/" + path) == path;
    if |below| == 0 {
      assert root + below == root;
    } else {
      WalkNames(root, below);
      DescendantAdmitted(root, path);
      ContainedAgrees(root, path);
    }
  }

  /** A GET whose decoded target climbs above the root is refused with 403,
      under either guard. */
  lemma EscapeDenied(guard: Guard, root: seq<string>, request: string, decode: string -> string, fs: FileSystem)
    requires AllNames(root)
    requires request != "" && ParseRequestLine(request).Some?
    requires ParseRequestLine(request).value.verb == "GET"
    requires !StartsWith(StripSlash(decode(ParseRequestLine(request).value.target)), "/")
    requires |Walk(root, StripSlash(decode(ParseRequestLine(request).value.target)))| < |root|
    ensures Classify(guard, root, request, Some(decode), fs) == Denied
  {
    var path := StripSlash(decode(ParseRequestLine(request).value.target));
    EscapeAboveRootForbidden(root, path);
    ContainedAgrees(root, path);
  }

  /** For every request whose decoded target stays at or below the root the
      two guards route identically; the correction only changes requests
      that leave the root. */
  lemma GuardsAgree(root: seq<string>, request: string, decode: string -> string, fs: FileSystem)
    requires AllNames(root)
    requires request != "" && ParseRequestLine(request).Some?
    requires !StartsWith(StripSlash(decode(ParseRequestLine(request).value.target)), "/")
    requires IsPrefix(root, Walk(root, StripSlash(decode(ParseRequestLine(request).value.target))))
    ensures Classify(StringPrefix, root, request, Some(decode), fs)
         == Classify(Containment, root, request, Some(decode), fs)
  {
    ContainedAgrees(root, StripSlash(decode(ParseRequestLine(request).value.target)));
  }

  /** End to end, the flaw in the servers' guard: with the root `/.../b`, a
      GET for `/../<name>` where `name` extends `b` is served from the
      sibling whenever it exists; the corrected guard refuses it. */
  lemma SiblingRoute(root: seq<string>, name: string, rest: string, decode: string -> string, fs: FileSystem)
    requires AllNames(root) && |root| > 0
    requires IsName(name) && NoSpace(name)
    requires StartsWith(name, root[|root| - 1]) && name != root[|root| - 1]
    requires decode("/../" + name) == "/../" + name
    requires Render(root[..|root| - 1] + [name]) in fs
    ensures Served(Classify(StringPrefix, root, GetRequest("/../" + name, rest), Some(decode), fs))
    ensures Classify(StringPrefix, root, GetRequest("/../" + name, rest), Some(decode), fs).full
         == Render(root[..|root| - 1] + [name])
    ensures Classify(Containment, root, GetRequest("/../" + name, rest), Some(decode), fs) == Denied
  {
    var path := "../" + name;
    NoSpaceAppend("/../", name);
    assert "/../" + name == "/" + path;
    GetRoute(StringPrefix, root, "/" + path, rest, decode, fs);
    GetRoute(Containment, root, "/" + path, rest, decode, fs);
    assert StripSlash("/" + path) == path;
    SiblingGuard(root, name);
    SiblingContained(root, name);
  }
}
