/** The answers a handler chooses between, named before they are rendered:
    a status page from `send_response`, the 404 page, a directory listing,
    a file's bytes, or lab 2's plain-text 429.  `ToResponse` renders each
    to the response the server hands to `sendall`. */
module Pages {
  import opened Text
  import opened Utf8
  import opened Http
  import opened Listing
  import opened Router

  datatype Page =
    | Status(code: nat, reason: string)
    | NotFound(path: string)
    | DirListing(urlPath: string, items: seq<Item>)
    | Content(bytes: seq<byte>, guessed: Option<string>)
    | RateLimited

  /** The status code each answer carries. */
  function Code(p: Page): nat {
    match p
    case Status(code, _) => code
    case NotFound(_) => 404
    case DirListing(_, _) => 200
    case Content(_, _) => 200
    case RateLimited => 429
  }

  /** `send_response(500, "Internal Server Error", "text/html")`, the answer
      to every exception the handlers catch. */
  const InternalError: Page := Status(500, "Internal Server Error")

  /** The response sent for an answer; `port` is the one the 404 page and
      the listing name.  Each case is the response function of `Http` or
      `Listing` whose contract states its status, type and body. */
  function ToResponse(p: Page, port: nat): (r: Response)
  {
    match p
    case Status(code, reason) => StatusPage(code, reason, "text/html")
    case NotFound(path) => NotFoundPage(path, port)
    case DirListing(urlPath, items) => ListingResponse(urlPath, items, port)
    case Content(bytes, guessed) => FileResponse(bytes, guessed)
    case RateLimited => TooManyRequests()
  }

  /** A file answer is sent as the file's bytes, typed by the guess. */
  lemma ContentSent(bytes: seq<byte>, guessed: Option<string>, port: nat)
    ensures ToResponse(Content(bytes, guessed), port) == FileResponse(bytes, guessed)
  {
  }

  /** What a handler sends on the connection: nothing, or one answer. */
  datatype Outcome = NoResponse | Reply(page: Page)

  /** The answer to a route that serves nothing, the same in both servers:
      silence for an empty request, 400 for a short request line, 500 for
      an exception, 405 for another method, 403 for a refused path and the
      404 page for a missing one. */
  function Unserved(route: Route): (o: Outcome)
    requires !Served(route)
    ensures o.NoResponse? <==> route == Silent
    ensures o.Reply? ==> Code(o.page) in {400, 403, 404, 405, 500}
    ensures o.Reply? && Code(o.page) == 405 <==> route == BadMethod
    ensures o.Reply? && Code(o.page) in {400, 500} <==> route in {BadRequest, Crash}
    ensures route == BadRequest ==> o == Reply(Status(400, "Bad Request"))
    ensures route == Crash ==> o == Reply(InternalError)
    ensures route == BadMethod ==> o == Reply(Status(405, "Method Not Allowed"))
    ensures route == Denied ==> o == Reply(Status(403, "Forbidden"))
    ensures route.Missing? ==> o == Reply(NotFound(route.path))
  {
    match route
    case Silent => NoResponse
    case BadRequest => Reply(Status(400, "Bad Request"))
    case Crash => Reply(InternalError)
    case BadMethod => Reply(Status(405, "Method Not Allowed"))
    case Denied => Reply(Status(403, "Forbidden"))
    case Missing(path) => Reply(NotFound(path))
  }

  /** `serve_file`, the same in both servers: read the file and send it
      typed by `guess_type`; any failure to read is answered with 500. */
  function FileAnswer(fs: FileSystem, full: string, guessType: string -> Option<string>): (p: Page)
    ensures Readable(fs, full) ==> p == Content(fs[full].content.value, guessType(full))
    ensures !Readable(fs, full) ==> p == InternalError
  {
    if Readable(fs, full) then Content(fs[full].content.value, guessType(full))
    else InternalError
  }
}
