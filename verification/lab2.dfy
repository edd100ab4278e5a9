/** The lab 2 server: the lab 1 handler behind a per-address rate limiter,
    decoding requests leniently (undecodable bytes are dropped), and
    counting the requests that reach each file and directory.  Directory
    listings show, for every entry, the count of requests that reached it.
    The worker pool, the artificial delay and the connection are not
    modelled; a call is one request handled on its own, with the server's
    shared state passed in and returned. */
module Lab2 {
  import opened Text
  import opened Utf8
  import opened Listing
  import opened Sorting
  import opened Paths
  import opened Router
  import opened Pages
  import opened RateLimiter
  import opened HitCounter
  import Lab1

  /** The served root (as its names), the port shown in the pages, the
      counter mode, the limiter's `rate_limit` and `rate_window`, and the
      traversal guard; the server as written uses `StringPrefix`. */
  datatype Config = Config(root: seq<string>, port: nat, mode: Mode, rateLimit: int, rateWindow: int, guard: Guard)

  predicate ValidConfig(cfg: Config) {
    AllNames(cfg.root)
  }

  /** The state the handlers share: the limiter's queues and the counts. */
  datatype State = State(windows: Windows, counts: Counts)

  /** The counter key of a served path: its path relative to the root, with
      the root directory itself counted under the empty key. */
  function CountKey(root: seq<string>, full: string, isDir: bool): string
    requires StartsWith(full, "/")
  {
    RootIsAbsolute(root);
    var rel := RelPath(full, Render(root));
    if isDir && rel == "." then "" else rel
  }

  /** The key `serve_directory` reads for an entry of `dir`: the entry's
      path relative to the root. */
  function EntryKey(root: seq<string>, dir: string, name: string): string
    requires StartsWith(dir, "/")
  {
    RootIsAbsolute(root);
    RelPath(PathJoin(dir, name), Render(root))
  }

  lemma RootIsAbsolute(root: seq<string>)
    ensures StartsWith(Render(root), "/")
  {
  }

  /** The listing items of lab 2: name, kind, and the count read for the
      entry's path relative to the root. */
  function Items(fs: FileSystem, counts: Counts, root: seq<string>, dir: string, names: seq<string>): (items: seq<Item>)
    requires StartsWith(dir, "/")
    ensures |items| == |names|
    ensures forall i :: 0 <= i < |names| ==>
              items[i] == Item(names[i], IsDir(fs, PathJoin(dir, names[i])), Some(Get(counts, EntryKey(root, dir, names[i]))))
  {
    seq(|names|, i requires 0 <= i < |names| =>
      Item(names[i], IsDir(fs, PathJoin(dir, names[i])), Some(Get(counts, EntryKey(root, dir, names[i])))))
  }

  /** For a directory below the root, each listed entry shows the count kept
      under the entry's names below the root, joined by `/`, and is marked a
      directory exactly when the file system holds a directory at its path. */
  lemma ItemsBelow(fs: FileSystem, counts: Counts, root: seq<string>, below: seq<string>, names: seq<string>)
    requires AllNames(root + below) && AllNames(names)
    ensures StartsWith(Render(root + below), "/")
    ensures var items := Items(fs, counts, root, Render(root + below), names);
            && |items| == |names|
            && forall i :: 0 <= i < |names| ==>
                 && items[i].name == names[i]
                 && items[i].isDir == IsDir(fs, Render(root + below + [names[i]]))
                 && items[i].count == Some(Get(counts, Join(below + [names[i]], "/")))
  {
    var items := Items(fs, counts, root, Render(root + below), names);
    forall i | 0 <= i < |names|
      ensures items[i].isDir == IsDir(fs, Render(root + below + [names[i]]))
      ensures items[i].count == Some(Get(counts, Join(below + [names[i]], "/")))
    {
      PathJoinRender(root + below, names[i]);
      EntryKeyAgrees(root, below, names[i], false);
    }
  }

  /** `serve_directory` of lab 2, with the counts as they stand after this
      request's own increment. */
  function ServeDirectory(cfg: Config, fs: FileSystem, counts: Counts, full: string, urlPath: string): (p: Page)
    requires StartsWith(full, "/")
    ensures Listable(fs, full) ==> p == DirListing(urlPath, Items(fs, counts, cfg.root, full, Sort(fs[full].entries.value)))
    ensures !Listable(fs, full) ==> p == InternalError
  {
    if Listable(fs, full) then
      DirListing(urlPath, Items(fs, counts, cfg.root, full, Sort(fs[full].entries.value)))
    else InternalError
  }

  /** The limiter's verdict and queues for a request from `ip` at `now`. */
  function Admit(cfg: Config, st: State, ip: string, now: int): (Windows, bool) {
    Allow(st.windows, ip, now, cfg.rateWindow, cfg.rateLimit)
  }

  /** The route of the request that `raw` decodes to, ignoring bad bytes. */
  function RouteOf(cfg: Config, fs: FileSystem, raw: seq<byte>, unquote: string -> string): Route
    requires ValidConfig(cfg)
  {
    Classify(cfg.guard, cfg.root, DecodeIgnore(raw), Some(unquote), fs)
  }

  /** The counts after an admitted request took `route`: one more under
      the key of a file or directory about to be served, and no change for
      any other route.  The increment comes before the file is read or the
      directory listed, so a read that fails is still counted. */
  function Counted(mode: Mode, root: seq<string>, counts: Counts, route: Route): (c: Counts)
    requires Served(route) ==> StartsWith(route.full, "/")
    ensures !Served(route) ==> c == counts
    ensures Served(route) ==> Get(c, CountKey(root, route.full, route.ServeDir?))
                              == Get(counts, CountKey(root, route.full, route.ServeDir?)) + 1
    ensures forall k :: Get(counts, k) <= Get(c, k) <= Get(counts, k) + 1
    ensures forall k, k' :: Get(c, k) != Get(counts, k) && Get(c, k') != Get(counts, k') ==> k == k'
  {
    if Served(route) then
      var key := CountKey(root, route.full, route.ServeDir?);
      IncrementEffect(mode, counts, key);
      Increment(mode, counts, key)
    else counts
  }

  /** The answer to an admitted request that took `route`, with `counts`
      the counts after its own increment. */
  function Respond(cfg: Config, fs: FileSystem, counts: Counts, route: Route,
                   guessType: string -> Option<string>): (o: Outcome)
    requires Served(route) ==> StartsWith(route.full, "/")
    ensures o.NoResponse? <==> route == Silent
    ensures o.Reply? ==> Code(o.page) in {200, 400, 403, 404, 405, 500}
    ensures o.Reply? && Code(o.page) == 200 ==> Served(route)
    ensures route == BadRequest ==> o == Reply(Status(400, "Bad Request"))
    ensures route == Crash ==> o == Reply(InternalError)
    ensures route == Denied ==> o == Reply(Status(403, "Forbidden"))
    ensures route.Missing? ==> o == Reply(NotFound(route.path))
  {
    match route
    case ServeDir(full, urlPath) => Reply(ServeDirectory(cfg, fs, counts, full, urlPath))
    case ServeFile(full) => Reply(FileAnswer(fs, full, guessType))
    case _ => Unserved(route)
  }

  /** `_handle_client` for one request from `ip` at instant `now`: the
      limiter runs first and a rejected request is answered with the plain
      429; otherwise the request is decoded, routed as in lab 1, counted
      and answered. */
  function HandleClient(cfg: Config, st: State, fs: FileSystem, ip: string, now: int, raw: seq<byte>,
                        unquote: string -> string, guessType: string -> Option<string>): (r: (State, Outcome))
    requires ValidConfig(cfg)
    ensures r.0.windows == Admit(cfg, st, ip, now).0
    ensures !Admit(cfg, st, ip, now).1 ==> r.1 == Reply(RateLimited) && r.0.counts == st.counts
    ensures r.1.Reply? && Code(r.1.page) == 429 <==> !Admit(cfg, st, ip, now).1
    ensures Admit(cfg, st, ip, now).1 ==> (r.1.NoResponse? <==> DecodeIgnore(raw) == "")
    ensures r.1.Reply? ==> Code(r.1.page) in {200, 400, 403, 404, 405, 429, 500}
    ensures Admit(cfg, st, ip, now).1 && DecodeIgnore(raw) != "" && ParseRequestLine(DecodeIgnore(raw)).None?
            ==> r.1 == Reply(Status(400, "Bad Request"))
  {
    var (windows, admitted) := Admit(cfg, st, ip, now);
    if !admitted then (State(windows, st.counts), Reply(RateLimited))
    else
      var route := RouteOf(cfg, fs, raw, unquote);
      var counts := Counted(cfg.mode, cfg.root, st.counts, route);
      (State(windows, counts), Respond(cfg, fs, counts, route, guessType))
  }

  // ---------------------------------------------------------------------
  // Lemmas
  // ---------------------------------------------------------------------

  /** The counts after `_handle_client`: a rejected request, and an
      admitted one that serves nothing, change no count; a served one adds
      one under its key; and no other key changes. */
  lemma ClientCounts(cfg: Config, st: State, fs: FileSystem, ip: string, now: int, raw: seq<byte>,
                     unquote: string -> string, guessType: string -> Option<string>)
    requires ValidConfig(cfg)
    ensures var after := HandleClient(cfg, st, fs, ip, now, raw, unquote, guessType).0.counts;
            var route := RouteOf(cfg, fs, raw, unquote);
            && (!(Admit(cfg, st, ip, now).1 && Served(route)) ==> after == st.counts)
            && (Admit(cfg, st, ip, now).1 && Served(route)
                ==> Get(after, CountKey(cfg.root, route.full, route.ServeDir?))
                    == Get(st.counts, CountKey(cfg.root, route.full, route.ServeDir?)) + 1)
            && (forall k :: Get(st.counts, k) <= Get(after, k) <= Get(st.counts, k) + 1)
            && (forall k, k' :: Get(after, k) != Get(st.counts, k) && Get(after, k') != Get(st.counts, k') ==> k == k')
  {
  }

  /** An admitted request that serves nothing is answered as its route
      calls for (400, 403, the 404 page naming the path, 405 or 500, or
      silence) and changes no count. */
  lemma AdmittedUnserved(cfg: Config, st: State, fs: FileSystem, ip: string, now: int, raw: seq<byte>,
                         unquote: string -> string, guessType: string -> Option<string>)
    requires ValidConfig(cfg)
    requires Admit(cfg, st, ip, now).1 && !Served(RouteOf(cfg, fs, raw, unquote))
    ensures var r := HandleClient(cfg, st, fs, ip, now, raw, unquote, guessType);
            r.1 == Unserved(RouteOf(cfg, fs, raw, unquote)) && r.0.counts == st.counts
  {
  }

  /** Sorting keeps the entries' names. */
  lemma SortNames(names: seq<string>)
    requires AllNames(names)
    ensures AllNames(Sort(names))
  {
    var s := Sort(names);
    forall i | 0 <= i < |s| ensures IsName(s[i]) {
      assert s[i] in multiset(s);
      var j :| 0 <= j < |names| && names[j] == s[i];
    }
  }

  /** The key a listing reads for an entry is the key a GET of that entry
      counts under: the entry's names below the root, joined by `/`. */
  lemma EntryKeyAgrees(root: seq<string>, below: seq<string>, name: string, isDir: bool)
    requires AllNames(root + below) && IsName(name)
    ensures EntryKey(root, Render(root + below), name) == Join(below + [name], "/")
    ensures CountKey(root, Render(root + below + [name]), isDir) == Join(below + [name], "/")
  {
    PathJoinRender(root + below, name);
    assert root + below + [name] == root + (below + [name]);
    RelPathBelow(root, below + [name]);
  }

  /** A served directory below the root is counted under its names below
      the root, and the root itself under the empty key. */
  lemma DirectoryKey(root: seq<string>, below: seq<string>)
    requires AllNames(root + below)
    ensures CountKey(root, Render(root + below), true) == (if |below| == 0 then "" else Join(below, "/"))
  {
    RelPathBelow(root, below);
    if |below| > 0 {
      AllNamesPrefixFree(root, below);
      JoinNotDot(below);
    }
  }

  lemma AllNamesPrefixFree(root: seq<string>, below: seq<string>)
    requires AllNames(root + below)
    ensures AllNames(below)
  {
    forall i | 0 <= i < |below| ensures IsName(below[i]) {
      assert below[i] == (root + below)[|root| + i];
    }
  }

  /** Names joined by `/` never spell `.`, so only the root is renamed. */
  lemma JoinNotDot(below: seq<string>)
    requires AllNames(below) && |below| > 0
    ensures Join(below, "/") != "."
  {
    if |below| > 1 {
      assert |Join(below, "/")| >= |below[0]| + 1;
    }
  }

  /** A served file below the root is counted under its names below the
      root; a root that is a file would be counted under `.`. */
  lemma FileKey(root: seq<string>, below: seq<string>)
    requires AllNames(root + below)
    ensures CountKey(root, Render(root + below), false) == (if |below| == 0 then "." else Join(below, "/"))
  {
    RelPathBelow(root, below);
  }

  /** The GET a client sends for a path below the root, as bytes. */
  function FetchBytes(below: seq<string>, rest: string): seq<byte> {
    Encode(GetRequest("/" + Join(below, "/"), rest))
  }

  /** An admitted GET for a path below the root routes to that path. */
  lemma FetchRoute(cfg: Config, fs: FileSystem, below: seq<string>, rest: string, decode: string -> string)
    requires ValidConfig(cfg) && AllNames(below)
    requires NoSpace(Join(below, "/"))
    requires decode("/" + Join(below, "/")) == "/" + Join(below, "/")
    requires Render(cfg.root + below) in fs
    ensures var route := RouteOf(cfg, fs, FetchBytes(below, rest), decode);
            && Served(route)
            && route.full == Render(cfg.root + below)
            && (route.ServeDir? <==> fs[Render(cfg.root + below)].Directory?)
            && (route.ServeDir? ==> route.urlPath == Join(below, "/"))
            && AllNames(cfg.root + below)
  {
    DecodeOfEncode(GetRequest("/" + Join(below, "/"), rest));
    DescendantServed(cfg.guard, cfg.root, below, rest, decode, fs);
    if |below| == 0 {
      assert cfg.root + below == cfg.root;
    } else {
      WalkNames(cfg.root, below);
    }
  }

  /** An admitted GET for a readable file below the root counts one request
      for the file and answers with its bytes. */
  lemma FileCounted(cfg: Config, st: State, fs: FileSystem, ip: string, now: int, below: seq<string>, rest: string,
                    decode: string -> string, guessType: string -> Option<string>)
    requires ValidConfig(cfg) && AllNames(below)
    requires NoSpace(Join(below, "/"))
    requires decode("/" + Join(below, "/")) == "/" + Join(below, "/")
    requires Readable(fs, Render(cfg.root + below))
    requires Admit(cfg, st, ip, now).1
    ensures var full := Render(cfg.root + below);
            var key := if |below| == 0 then "." else Join(below, "/");
            var r := HandleClient(cfg, st, fs, ip, now, FetchBytes(below, rest), decode, guessType);
            && r.0.counts == Increment(cfg.mode, st.counts, key)
            && r.1 == Reply(Content(fs[full].content.value, guessType(full)))
  {
    FetchRoute(cfg, fs, below, rest, decode);
    FileKey(cfg.root, below);
  }

  /** An admitted GET for a listable directory below the root counts one
      request for the directory and lists its entries in sorted order, each
      with the count a GET of that entry is counted under, read after this
      request's own increment. */
  lemma DirectoryCounted(cfg: Config, st: State, fs: FileSystem, ip: string, now: int, below: seq<string>, rest: string,
                         decode: string -> string, guessType: string -> Option<string>)
    requires ValidConfig(cfg) && AllNames(below)
    requires NoSpace(Join(below, "/"))
    requires decode("/" + Join(below, "/")) == "/" + Join(below, "/")
    requires Listable(fs, Render(cfg.root + below))
    requires AllNames(fs[Render(cfg.root + below)].entries.value)
    requires Admit(cfg, st, ip, now).1
    ensures var full := Render(cfg.root + below);
            var key := if |below| == 0 then "" else Join(below, "/");
            var names := Sort(fs[full].entries.value);
            var r := HandleClient(cfg, st, fs, ip, now, FetchBytes(below, rest), decode, guessType);
            && r.0.counts == Increment(cfg.mode, st.counts, key)
            && r.1.Reply? && r.1.page.DirListing?
            && r.1.page.urlPath == Join(below, "/")
            && |r.1.page.items| == |names|
            && forall i :: 0 <= i < |names| ==>
                 r.1.page.items[i] == Item(names[i], IsDir(fs, Render(cfg.root + below + [names[i]])),
                                           Some(Get(r.0.counts, Join(below + [names[i]], "/"))))
  {
    var full := Render(cfg.root + below);
    var names := Sort(fs[full].entries.value);
    FetchRoute(cfg, fs, below, rest, decode);
    DirectoryKey(cfg.root, below);
    SortNames(fs[full].entries.value);
    forall i | 0 <= i < |names|
      ensures PathJoin(full, names[i]) == Render(cfg.root + below + [names[i]])
      ensures EntryKey(cfg.root, full, names[i]) == Join(below + [names[i]], "/")
    {
      PathJoinRender(cfg.root + below, names[i]);
      EntryKeyAgrees(cfg.root, below, names[i], false);
    }
  }

  /** A listing with the counts taken out, as lab 1 shows it. */
  function Uncounted(o: Outcome): (u: Outcome)
    ensures u.NoResponse? <==> o.NoResponse?
    ensures u.Reply? ==> Code(u.page) == Code(o.page)
  {
    match o
    case Reply(DirListing(urlPath, items)) => Reply(DirListing(urlPath, Uncount(items)))
    case _ => o
  }

  function Uncount(items: seq<Item>): (r: seq<Item>)
    ensures |r| == |items|
    ensures forall i :: 0 <= i < |items| ==> r[i] == items[i].(count := None)
  {
    if |items| == 0 then [] else [items[0].(count := None)] + Uncount(items[1..])
  }

  /** Apart from the counts, lab 2 lists a directory as lab 1 does. */
  lemma ItemsUncounted(fs: FileSystem, counts: Counts, root: seq<string>, dir: string, names: seq<string>)
    requires StartsWith(dir, "/")
    ensures Uncount(Items(fs, counts, root, dir, names)) == Lab1.Items(fs, dir, names)
  {
  }

  /** For a request the limiter admits and whose bytes are valid UTF-8,
      lab 2 answers exactly as lab 1 does, but for the counts its listings
      show: the two decodings agree on such bytes, and the routing, the
      pages and the guard are shared. */
  lemma SameAsLab1(cfg: Config, st: State, fs: FileSystem, ip: string, now: int, raw: seq<byte>,
                   unquote: string -> string, guessType: string -> Option<string>)
    requires ValidConfig(cfg)
    requires Admit(cfg, st, ip, now).1
    requires DecodeStrict(raw).Some?
    ensures Uncounted(HandleClient(cfg, st, fs, ip, now, raw, unquote, guessType).1)
         == Lab1.HandleRequest(Lab1.Config(cfg.root, cfg.port, cfg.guard), fs, raw, Some(unquote), guessType)
  {
    EncodeOfDecode(raw);
    var route := RouteOf(cfg, fs, raw, unquote);
    assert route == Classify(cfg.guard, cfg.root, DecodeStrict(raw).value, Some(unquote), fs);
    var counts := Counted(cfg.mode, cfg.root, st.counts, route);
    assert HandleClient(cfg, st, fs, ip, now, raw, unquote, guessType).1 == Respond(cfg, fs, counts, route, guessType);
    RespondUncounted(cfg, fs, counts, route, guessType);
  }

  /** Route by route, lab 2's answer without its counts is lab 1's. */
  lemma RespondUncounted(cfg: Config, fs: FileSystem, counts: Counts, route: Route,
                         guessType: string -> Option<string>)
    requires Served(route) ==> StartsWith(route.full, "/")
    ensures Uncounted(Respond(cfg, fs, counts, route, guessType)) == Lab1.Answer(fs, route, guessType)
  {
    if route.ServeDir? && Listable(fs, route.full) {
      ItemsUncounted(fs, counts, cfg.root, route.full, Sort(fs[route.full].entries.value));
    }
  }
}
