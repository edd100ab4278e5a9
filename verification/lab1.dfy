/** The lab 1 server: one request per connection, decoded as strict UTF-8,
    answered with a status page, the 404 page, a directory listing without
    request counts, or a file.  The connection, the threads and the
    printing are not modelled; a handler's result is the one response it
    sends, if any. */
module Lab1 {
  import opened Text
  import opened Utf8
  import opened Http
  import opened Listing
  import opened Sorting
  import opened Paths
  import opened Router
  import opened Pages

  /** The served root (`os.path.abspath(directory)`, as its names), the
      port shown in the pages, and the traversal guard; the server as
      written uses `StringPrefix`. */
  datatype Config = Config(root: seq<string>, port: nat, guard: Guard)

  predicate ValidConfig(cfg: Config) {
    AllNames(cfg.root)
  }

  /** The listing items of lab 1: name and kind, no count. */
  function Items(fs: FileSystem, dir: string, names: seq<string>): (items: seq<Item>)
    ensures |items| == |names|
    ensures forall i :: 0 <= i < |names| ==>
              items[i] == Item(names[i], IsDir(fs, PathJoin(dir, names[i])), None)
  {
    if |names| == 0 then []
    else [Item(names[0], IsDir(fs, PathJoin(dir, names[0])), None)] + Items(fs, dir, names[1..])
  }

  /** `serve_directory`: list the directory, sort the names and send the
      listing; a failure to list is answered with 500. */
  function ServeDirectory(fs: FileSystem, full: string, urlPath: string): (p: Page)
    ensures Listable(fs, full) ==> p == DirListing(urlPath, Items(fs, full, Sort(fs[full].entries.value)))
    ensures !Listable(fs, full) ==> p == InternalError
  {
    if Listable(fs, full) then
      DirListing(urlPath, Items(fs, full, Sort(fs[full].entries.value)))
    else InternalError
  }

  /** The answer a route calls for. */
  function Answer(fs: FileSystem, route: Route, guessType: string -> Option<string>): (o: Outcome)
    ensures o.NoResponse? <==> route == Silent
    ensures o.Reply? ==> Code(o.page) in {200, 400, 403, 404, 405, 500}
    ensures o.Reply? && Code(o.page) == 200 ==> Served(route) && (o.page.DirListing? || o.page.Content?)
    ensures o.Reply? && Code(o.page) == 405 ==> route == BadMethod
    ensures route in {BadRequest, Crash} ==> o.Reply? && Code(o.page) in {400, 500}
    ensures route == BadRequest ==> o == Reply(Status(400, "Bad Request"))
    ensures route == Crash ==> o == Reply(InternalError)
    ensures route == Denied ==> o == Reply(Status(403, "Forbidden"))
    ensures route.Missing? ==> o == Reply(NotFound(route.path))
  {
    match route
    case ServeDir(full, urlPath) => Reply(ServeDirectory(fs, full, urlPath))
    case ServeFile(full) => Reply(FileAnswer(fs, full, guessType))
    case _ => Unserved(route)
  }

  /** `handle_request` on the bytes one `recv` returned.  Bytes that are not
      UTF-8 make the decode raise, which the catch-all answers with 500.
      `unquote` is `None` for the standalone copy of the handler, which
      calls `unquote` without importing it. */
  function HandleRequest(cfg: Config, fs: FileSystem, raw: seq<byte>,
                         unquote: Option<string -> string>, guessType: string -> Option<string>): (o: Outcome)
    requires ValidConfig(cfg)
    ensures DecodeStrict(raw).None? ==> o == Reply(InternalError)
    ensures o.NoResponse? <==> DecodeStrict(raw) == Some("")
    ensures o.Reply? ==> Code(o.page) in {200, 400, 403, 404, 405, 500}
    ensures o.Reply? && Code(o.page) == 200 ==> o.page.DirListing? || o.page.Content?
    ensures DecodeStrict(raw).Some? && unquote.None? && o.Reply? ==> Code(o.page) in {400, 500}
    ensures DecodeStrict(raw).Some? && DecodeStrict(raw).value != "" && ParseRequestLine(DecodeStrict(raw).value).None?
            ==> o == Reply(Status(400, "Bad Request"))
    ensures o.Reply? && Code(o.page) == 405
            ==> && DecodeStrict(raw).Some? && unquote.Some?
                && ParseRequestLine(DecodeStrict(raw).value).Some?
                && ParseRequestLine(DecodeStrict(raw).value).value.verb != "GET"
  {
    match DecodeStrict(raw)
    case None => Reply(InternalError)
    case Some(request) => Answer(fs, Classify(cfg.guard, cfg.root, request, unquote, fs), guessType)
  }

  // ---------------------------------------------------------------------
  // Lemmas
  // ---------------------------------------------------------------------

  /** Any method but GET is refused with 405, whatever the target and
      whatever the file system holds. */
  lemma OnlyGet(cfg: Config, fs: FileSystem, request: string, decode: string -> string,
                guessType: string -> Option<string>)
    requires ValidConfig(cfg)
    requires ParseRequestLine(request).Some? && ParseRequestLine(request).value.verb != "GET"
    ensures HandleRequest(cfg, fs, Encode(request), Some(decode), guessType)
         == Reply(Status(405, "Method Not Allowed"))
  {
    DecodeOfEncode(request);
  }

  /** A request whose first line holds fewer than two words is answered
      with 400, whichever decoder the handler has. */
  lemma ShortLine400(cfg: Config, fs: FileSystem, request: string, unquote: Option<string -> string>,
                     guessType: string -> Option<string>)
    requires ValidConfig(cfg)
    requires request != "" && ParseRequestLine(request).None?
    ensures HandleRequest(cfg, fs, Encode(request), unquote, guessType) == Reply(Status(400, "Bad Request"))
  {
    DecodeOfEncode(request);
  }

  /** A GET whose decoded path the guard refuses is answered with 403,
      whatever the file system holds. */
  lemma Refused403(cfg: Config, fs: FileSystem, request: string, decode: string -> string,
                   guessType: string -> Option<string>)
    requires ValidConfig(cfg)
    requires ParseRequestLine(request).Some? && ParseRequestLine(request).value.verb == "GET"
    requires Check(cfg.guard, cfg.root, StripSlash(decode(ParseRequestLine(request).value.target))).Forbidden?
    ensures HandleRequest(cfg, fs, Encode(request), Some(decode), guessType) == Reply(Status(403, "Forbidden"))
  {
    DecodeOfEncode(request);
  }

  /** A GET whose decoded path the guard admits but which does not exist is
      answered with the 404 page naming that path, without its leading
      slash. */
  lemma Missing404(cfg: Config, fs: FileSystem, request: string, decode: string -> string,
                   guessType: string -> Option<string>)
    requires ValidConfig(cfg)
    requires ParseRequestLine(request).Some? && ParseRequestLine(request).value.verb == "GET"
    requires var path := StripSlash(decode(ParseRequestLine(request).value.target));
             Check(cfg.guard, cfg.root, path).Allowed? && Check(cfg.guard, cfg.root, path).full !in fs
    ensures HandleRequest(cfg, fs, Encode(request), Some(decode), guessType)
         == Reply(NotFound(StripSlash(decode(ParseRequestLine(request).value.target))))
  {
    DecodeOfEncode(request);
  }

  /** The standalone handler answers every well-formed request line with
      500, a non-GET included: the missing `unquote` raises before the
      method is looked at. */
  lemma StandaloneCrashes(cfg: Config, fs: FileSystem, request: string, guessType: string -> Option<string>)
    requires ValidConfig(cfg)
    requires ParseRequestLine(request).Some?
    ensures HandleRequest(cfg, fs, Encode(request), None, guessType) == Reply(InternalError)
  {
    DecodeOfEncode(request);
  }

  /** A client's GET for a readable file below the root receives exactly
      the file's bytes, typed by the guess. */
  lemma FileFetched(cfg: Config, fs: FileSystem, below: seq<string>, rest: string,
                    decode: string -> string, guessType: string -> Option<string>)
    requires ValidConfig(cfg) && AllNames(below)
    requires NoSpace(Join(below, "/"))
    requires decode("/" + Join(below, "/")) == "/" + Join(below, "/")
    requires Readable(fs, Render(cfg.root + below))
    ensures var o := HandleRequest(cfg, fs, Encode(GetRequest("/" + Join(below, "/"), rest)), Some(decode), guessType);
            o == Reply(Content(fs[Render(cfg.root + below)].content.value, guessType(Render(cfg.root + below))))
  {
    var request := GetRequest("/" + Join(below, "/"), rest);
    DecodeOfEncode(request);
    DescendantServed(cfg.guard, cfg.root, below, rest, decode, fs);
    assert Classify(cfg.guard, cfg.root, request, Some(decode), fs) == ServeFile(Render(cfg.root + below));
  }

  /** A client's GET for a listable directory below the root receives the
      listing of its entries in sorted order, titled with the path below
      the root. */
  lemma DirectoryFetched(cfg: Config, fs: FileSystem, below: seq<string>, rest: string,
                         decode: string -> string, guessType: string -> Option<string>)
    requires ValidConfig(cfg) && AllNames(below)
    requires NoSpace(Join(below, "/"))
    requires decode("/" + Join(below, "/")) == "/" + Join(below, "/")
    requires Listable(fs, Render(cfg.root + below))
    ensures var full := Render(cfg.root + below);
            var o := HandleRequest(cfg, fs, Encode(GetRequest("/" + Join(below, "/"), rest)), Some(decode), guessType);
            o == Reply(DirListing(Join(below, "/"), Items(fs, full, Sort(fs[full].entries.value))))
  {
    var request := GetRequest("/" + Join(below, "/"), rest);
    DecodeOfEncode(request);
    DescendantServed(cfg.guard, cfg.root, below, rest, decode, fs);
    var full := Render(cfg.root + below);
    assert Classify(cfg.guard, cfg.root, request, Some(decode), fs) == ServeDir(full, Join(below, "/"));
  }
}
