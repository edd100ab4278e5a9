# A model of the lab HTTP file servers and their client

This project models two small HTTP/1.1 file servers and the client that
fetches from them.

- **Lab 1 server.** One request per connection. The request must be UTF-8.
  The answer is a status page, the 404 page, a directory listing or the
  file's bytes. The handler methods also exist as standalone files; they are
  modelled as well.
- **Lab 2 server.** The same handler with three changes:
  - a sliding-window rate limiter keyed by client address, answering 429;
  - lenient decoding of the request, dropping undecodable bytes;
  - a hit counter that counts the requests reaching each file and directory,
    in a locked or a "naive" update mode. Listings show the counts.
- **Client.** It parses a URL, sends one GET and splits the answer into
  status, headers and body. It can save the raw body to a file.

**How the model is built.**
- The file system is a map from absolute paths to files and directories.
  A read or a listing that raises has no contents.
- Each handler is a pure function. Its inputs are the configuration, the
  file system and the bytes one `recv` returned. Lab 2 also takes the shared
  state: the limiter's queues and the counts. The result is the one answer
  the handler sends, if any.
- Python's string helpers are modelled exactly: `split`, `split()`,
  `rstrip` and `rfind`. `int()` is modelled for ASCII digits: surrounding
  whitespace, an optional sign, and digits with single underscores between
  them.
- The `posixpath` functions are modelled exactly: `join`, `normpath`,
  `relpath`, `basename` and `dirname`.
- UTF-8 encoding and decoding are modelled exactly, both strict and with
  `errors="ignore"`.

**The traversal guard is a parameter.**
- `Router.StringPrefix` is the test both servers perform: a string prefix
  check of the normalised path against the root.
- `Router.Containment` admits only the root and the paths below it.
- The end-to-end lemmas hold under both guards.

**Behaviour of the code worth noting.**
- The 429 answer is the plain text `Rate limit exceeded\n`, not an HTML
  status page.
- A rejected request still leaves a trace in the limiter: its stale
  timestamps are purged, and a first-time address gets an empty queue.
- The guard admits a sibling of the root whose name extends the root's last
  name. See Findings.
- A served directory is counted under the key `""` when it is the root,
  and under its relative path otherwise. A served file is counted under its
  relative path.
- Counting happens before the file is read or the directory is listed, so a
  request whose read fails (500) is still counted.

Modules: `Text`, `Utf8`, `Sorting`, `Paths`, `Http`, `Listing`, `Router`,
`Pages`, `Lab1`, `RateLimiter`, `HitCounter`, `Lab2` and `Client`, one file
each.

## Model

| member | source | states |
|---|---|---|
| Lab1.HandleRequest | lab1/server.py:83-139 | Bytes that are not UTF-8 get 500. Only an empty request goes unanswered. Every answer is 200, 400, 403, 404, 405 or 500. A 200 is a listing or a file. A 405 means a well-formed request line whose method is not GET. A non-empty request whose first line has fewer than two words gets exactly the 400 page. |
| Lab1.Answer | lab1/server.py:99-137 | Only the silent route sends nothing. A short request line gets the 400 page, a crash the 500 page, a refused path the 403 page, and a missing path the 404 page naming that path. A 200 comes only from a served route. |
| Lab1.ServeDirectory | lab1/server.py:170-248 | A listable directory is answered with its entries in sorted order. A directory whose listing raises gets 500. |
| Lab1.Items | lab1/server.py:211-218 | There is one item per name, in order, marked as a directory exactly when the joined path is one, with no count. |
| Lab1.OnlyGet | lab1/server.py:98-108 | Any method but GET gets 405, whatever the target and the file system. |
| Lab1.ShortLine400 | lab1/server.py:98-101 | A non-empty request whose first line has fewer than two words gets `400 Bad Request`, whichever decoder the handler has. |
| Lab1.Refused403 | lab1/server.py:103-118 | A GET whose unquoted, slash-stripped path the guard refuses gets `403 Forbidden`, whatever the file system holds. |
| Lab1.Missing404 | lab1/server.py:103-127 | A GET whose unquoted, slash-stripped path the guard admits but which does not exist gets the 404 page naming that path. |
| Lab1.StandaloneCrashes | lab1/handle_request.py:24-29 | The standalone handler calls `unquote` without importing it. So every well-formed request line gets 500, a non-GET included. |
| Lab1.FileFetched | lab1/server.py:83-133 | A GET for a readable file below the root is answered with exactly that file's bytes, typed by the guess. |
| Lab1.DirectoryFetched | lab1/server.py:83-131 | A GET for a listable directory below the root is answered with its sorted listing, titled with the path below the root. |
| Router.ParseRequestLine | lab1/handle_request.py:13-22 | It fails exactly when the first line has fewer than two words. The method and the target it returns are non-empty words without whitespace. |
| Router.Classify | lab1/handle_request.py:6-54 | Empty requests are silent. A short request line is 400. A missing `unquote` crashes. A non-GET is 405. These hold both ways. A GET is dispatched on the stripped, decoded target. |
| Router.Dispatch | lab1/handle_request.py:35-54 | 403 exactly when the guard refuses. 404 exactly when the admitted path is absent, naming the path. Otherwise the route serves the admitted path, as a listing exactly when it is a directory. Under `Containment` the served path is below the root. |
| Router.ParseGet | lab1/client.py:35-39 | The request line a client writes, `GET <target> HTTP/1.1`, parses back to GET and that target, whatever follows it. |
| Router.DescendantServed | lab1/server.py:110-133 | Under either guard, an existing path below the root is served from exactly that path: a listing for a directory, the file otherwise. |
| Router.EscapeDenied | lab1/server.py:114-118 | Under either guard, a GET whose target climbs above the root is refused with 403. |
| Router.GuardsAgree | lab2/server.py:187-193 | The two guards route identically every request whose target stays at or below the root. |
| Router.SiblingRoute | lab2/server.py:187-193 | As written, `GET /../<name>` with `name` extending the root's last name is served from the sibling directory. The corrected guard refuses it. |
| Paths.Resolve | lab2/server.py:190-196 | An admitted path string-starts with the root. An empty path resolves to the root itself. |
| Paths.ResolveRelative | lab1/server.py:115-116 | For a relative target, refusal is exactly the string-prefix test on the normalised names failing. An admitted path is the rendering of the walked names. |
| Paths.JoinPrefix | lab1/server.py:116 | The prefix test on joined path strings is equivalent to a test on names: the root's names are a prefix, except that the last may be extended. |
| Paths.DescendantAdmitted | lab1/server.py:114-118 | A target whose walk stays below the root is admitted as the walked path. |
| Paths.EscapeAboveRootForbidden | lab1/server.py:114-118 | A target whose walk ends above the root is refused. |
| Paths.ResolveContained | lab2/server.py:190-193 | Corrected guard: an admitted path is the root followed by names. The empty path resolves to the root. |
| Paths.ContainedAgrees | lab2/server.py:190-193 | The corrected guard refuses exactly the targets that leave the root. On the others it agrees with the guard as written. |
| Paths.SiblingGuard | lab2/server.py:190-193 | As written, `../<name>` is admitted exactly when `name` string-extends the root's last name, and then it names the sibling. It stays inside the root only when `name` is that last name. |
| Paths.SiblingContained | lab2/server.py:190-193 | The corrected guard admits `../<name>` only when `name` is the root's own last name. |
| Paths.WalkSibling | lab2/server.py:190 | Walking `../<name>` from the root ends at the sibling `name`. |
| Paths.JoinRelative | lab2/server.py:190 | `normpath(join(root, path))` for a relative path is the rendering of the names walked from the root. |
| Paths.NormPathRender | lab2/server.py:190 | `normpath` leaves a rendered absolute path unchanged and splits it back into its names. |
| Paths.StripSlash | lab2/server.py:187-188 | Exactly one leading `/` is removed, and only when present. |
| Paths.RelPathBelow | lab2/server.py:204 | `relpath` of a path below the root is its names joined by `/`, or `.` for the root itself. |
| Paths.PathJoinRender | lab2/server.py:280 | Joining a directory and an entry name gives the path one level further down. |
| Lab2.HandleClient | lab2/server.py:156-223 | The limiter decides first, and a 429 is sent exactly when it rejects. An admitted request is silent exactly when its decoded text is empty. Every answer is 200, 400, 403, 404, 405, 429 or 500. An admitted non-empty request whose first line has fewer than two words gets exactly the 400 page. |
| Lab2.ClientCounts | lab2/server.py:156-213 | A rejected request, and an admitted one that serves nothing, change no count. A served one adds one under its key. At most one key changes, by at most one. |
| Lab2.Counted | lab2/server.py:202-213 | A served route adds one under its key, whether or not the later read succeeds. Nothing else changes. |
| Lab2.Respond | lab2/server.py:195-217 | Only the silent route sends nothing. Codes are 200, 400, 403, 404, 405 or 500, and 200 only for a served route. A short request line gets the 400 page, a crash the 500 page, a refused path the 403 page, and a missing path the 404 page naming that path. |
| Lab2.AdmittedUnserved | lab2/server.py:168-200 | An admitted request that serves nothing gets the answer its route calls for, as stated for `Pages.Unserved`, and changes no count. |
| Lab2.ItemsBelow | lab2/server.py:279-288 | For a directory below the root, there is one item per name, in order. An item is marked as a directory exactly when the file system holds a directory at its path. Its count is the one kept under the entry's names below the root, joined by `/`. |
| Lab2.ServeDirectory | lab2/server.py:242-306 | A listable directory is answered with its sorted entries and their counts. A listing that raises gets 500. |
| Lab2.EntryKeyAgrees | lab2/server.py:279-284 | The key a listing reads for an entry is the key under which a GET of that entry is counted. |
| Lab2.DirectoryKey | lab2/server.py:202-207 | A directory below the root is counted under its names joined by `/`. The root itself is counted under `""`. |
| Lab2.FileKey | lab2/server.py:209-212 | A file below the root is counted under its names joined by `/`. |
| Lab2.FileCounted | lab2/server.py:209-213 | An admitted GET for a readable file is answered with its bytes and adds exactly one under its relative path. |
| Lab2.DirectoryCounted | lab2/server.py:202-208 | An admitted GET for a listable directory adds one under its key. It lists the sorted entries, each showing the count a GET of that entry is counted under. |
| Lab2.ItemsUncounted | lab2/server.py:279-288 | Without the counts, lab 2's listing items are lab 1's. |
| Lab2.SameAsLab1 | lab2/server.py:167-217 | For an admitted request in valid UTF-8, lab 2's answer without its counts is lab 1's answer. |
| Lab2.RespondUncounted | lab2/server.py:195-217 | Route by route, lab 2's answer without its counts is lab 1's. |
| RateLimiter.Allow | lab2/server.py:65-78 | It admits exactly when fewer than `rate_limit` timestamps remain after purging. On admission it appends `now`; on rejection it records nothing. Other addresses' queues are unchanged. |
| RateLimiter.Dropped | lab2/server.py:72-74 | The purge drops exactly the leading timestamps older than the cutoff. |
| RateLimiter.PurgeIsRecent | lab2/server.py:72-74 | On an ascending queue, purging the front equals keeping exactly the timestamps at or after the cutoff. |
| RateLimiter.RecentMembers | lab2/server.py:72-74 | The kept timestamps are exactly the queued ones at or after the cutoff. |
| RateLimiter.AllowQueueValid | lab2/server.py:72-78 | A purged queue, and a purged queue with `now` appended when admitted, stays ascending, bounded by `now` and no longer than the limit. |
| RateLimiter.AllowPreservesValid | lab2/server.py:65-78 | The limiter's table stays valid across a call: every queue is ascending and within the limit. The caller's queue holds only timestamps within the window. |
| RateLimiter.Burst | lab2/server.py:75-78 | Within one window, starting empty, the first `rate_limit` requests are admitted and every later one is rejected. |
| RateLimiter.Recovery | lab2/server.py:72-78 | Once all of an address's timestamps are older than the window, its next request is admitted and its queue becomes just that request. |
| HitCounter.Get | lab2/server.py:98-100 | An absent key reads 0. A present key reads its stored count. |
| HitCounter.IncrementLocked | lab2/server.py:81-83 | It adds one under the key, creating the key if needed. Every other count is unchanged. |
| HitCounter.IncrementNaive | lab2/server.py:85-90 | Run alone, it adds one under the key, creating the key if needed. Every other count is unchanged. |
| HitCounter.NaiveIsLocked | lab2/server.py:81-90 | Without interleaving, the naive update has the same effect as the locked one. |
| HitCounter.IncrementEffect | lab2/server.py:92-96 | In either mode, one more under the key and nothing else changes. |
| HitCounter.CountAllOccurrences | lab2/server.py:92-96 | After a sequence of increments, every key's count has grown by the number of times it occurs in the sequence. |
| HitCounter.ModeOf | lab2/server.py:36 | The mode is naive exactly when the lower-cased name is `naive`. |
| HitCounter.ModeIgnoresCase | lab2/server.py:36 | The mode does not depend on the case of the name. |
| Sorting.Sort | lab1/server.py:173-174 | The result is ordered by code points and is a permutation of the entries. |
| Sorting.SortedUnique | lab1/serve_directory.py:7-8 | Two ordered permutations of the same entries are equal, so the listing order is determined. |
| Sorting.SortedPermutationIsSort | lab1/serve_directory.py:7-8 | Any ordered permutation of the entries is what sorting returns. |
| Listing.ListingResponse | lab1/serve_directory.py:70-83 | 200 OK, typed `text/html; charset=utf-8`, with a body that decodes to the listing page. |
| Listing.ListingShape | lab1/serve_directory.py:11-68 | The page is the fixed head, then one parent line exactly when the path is not the root, then the entries' lines in the given order, then the footer naming the port. |
| Listing.EntryLines | lab1/serve_directory.py:47-56 | Within the page, the line at offset `i` after the head and parent link shows entry `i`. |
| Listing.ItemLineShows | lab1/serve_directory.py:47-56 | An entry's line is tagged `dir` exactly when it is a directory. A directory links to `<entry>/` and shows the name with `/`. A file links to its path and shows its name. The line ends with the count, if any. |
| Listing.ListItemShows | lab2/server.py:283-288 | A list item starts with its own class and no other, contains its link and text, and ends with its suffix. |
| Listing.ParentOfChild | lab1/serve_directory.py:40-44 | The parent link of an entry's listing, with or without a trailing slash, leads back to the listing it came from. |
| Http.StatusPage | lab1/send_response.py:1-24 | The given code and reason, the given type with `; charset=utf-8`, and a body that decodes to the page naming the status. |
| Http.StatusPageNamesStatus | lab1/send_response.py:3-11 | Both the title and the heading of a status page show `<code> <reason>`. |
| Http.NotFoundPage | lab1/send_404.py:1-39 | 404 Not Found, `text/html; charset=utf-8`, with a body that decodes to the 404 page for the path and port. |
| Http.NotFoundShowsPath | lab1/send_404.py:20 | The 404 page shows the requested path, and different paths give different pages. |
| Http.TooManyRequests | lab2/server.py:159-160 | 429 Too Many Requests, typed `text/plain`, with the body `Rate limit exceeded\n`. |
| Http.FileResponse | lab1/serve_file.py:11-27 | 200 OK with the file's bytes unchanged, typed by the guess or as `application/octet-stream` when there is none. |
| Http.ContentLengthField | lab2/server.py:355-364 | The `Content-Length` field holds a decimal that `int` reads back as exactly the body's length. |
| Http.WireHeaderEnd | lab2/server.py:351-364 | When the reason and type cannot break a line, the first blank line in the bytes sent ends the header, and what follows it is exactly the body. |
| Pages.Unserved | lab2/server.py:168-200 | Only an empty request sends nothing. A short request line gets `400 Bad Request`, a crash `500 Internal Server Error`, another method `405 Method Not Allowed`, a refused path `403 Forbidden`, and a missing path the 404 page naming that path. 405 means exactly the wrong method, and 400/500 exactly a short line or a crash. |
| Pages.FileAnswer | lab1/serve_file.py:5-32 | A readable file is answered with its bytes and the guessed type. A read that raises gets 500. |
| Pages.ContentSent | lab1/serve_file.py:17-27 | A file answer is sent as the file response for its bytes and guess. |
| Client.Target | lab1/client.py:14-26 | No host fails with the host error, and only a non-empty scheme other than `http` fails with the scheme error; both hold both ways. An absent or zero port becomes 80. An empty path becomes `/`. |
| Client.ServerReadsRequest | lab1/client.py:35-44 | The request the client sends decodes on the server, strictly and leniently, to GET for exactly the client's path. |
| Client.SplitHead | lab1/client.py:59-64 | With a blank line, the text is the header, the first blank line, then the body. Without one, the header is everything and the body is empty. |
| Client.ParseResponse | lab1/client.py:56-78 | It fails exactly when the status code of the header part cannot be read. Otherwise its code is that status code, and its header and body are the split of the leniently decoded answer. |
| Client.StatusCode | lab1/client.py:66-78 | A status line of fewer than two words reads as code 0. Otherwise the code is `int()` of the second word, and there is no code when `int()` rejects it. |
| Client.StatusCodeRead | lab1/client.py:66-78 | The status code read from a status line is the code the server wrote. |
| Client.HeadSplit | lab1/client.py:59-64 | A server's answer splits into exactly its header fields and its decoded body. |
| Client.ResponseRead | lab1/client.py:56-78 | Reading a server's answer yields its code, its header text and its decoded body. |
| Client.OneWordResponse | lab1/client.py:60-78 | An answer of one word has no blank line. It is all header, with an empty body and status code 0. |
| Client.RawBody | lab1/client.py:94-95 | As written: the bytes after the first blank line, and from offset 3 when there is none. |
| Client.RawBodyFixed | lab1/client.py:107-108 | Corrected: the bytes after the first blank line, and nothing when there is none. |
| Client.BodySaved | lab1/client.py:94-95 | For a server's answer, the raw body, as written and corrected, is exactly the bytes the server sent as the body. |
| Client.RawBodyWithoutBlankLine | lab1/client.py:94-95 | A one-word answer of four or more characters parses with code 0 and an empty body. Yet the raw body as written is its bytes from offset 3, non-empty, and the corrected one is empty. |
| Client.NoBlankLineBytes | lab1/client.py:107-108 | Bytes without a carriage return have no raw body under the correction, and the as-written slice starts at offset 3. |
| Client.Basename | lab1/client.py:88 | The name is the longest `/`-free suffix of the path: it has no `/`, ends the path, and is either the whole path or preceded by a `/`. |
| Client.Dirname | lab1/client.py:98 | The directory part is empty exactly when the path has no `/`. |
| Client.SaveAsWritten | lab1/client.py:97-111 | Saving fails exactly when the output path has no `/` (`makedirs("")` raises). Otherwise the file holds the body. |
| Client.SaveFixed | lab1/client.py:100-101 | Corrected: the output file holds exactly the body, and every other file is unchanged. |
| Client.BareNameNotSaved | lab1/client.py:98 | As written, saving to `out.bin` fails, where the correction stores the body. |
| Client.Fetch | lab1/client.py:11-125 | It succeeds exactly when the URL has a host and an http scheme and the status parses. It returns the parsed answer. Without an output path no file changes. With one, only the target file changes, and it holds the raw body. |
| Client.FetchSaves | lab1/client.py:93-112 | Fetching a server's answer to a file returns its code and stores exactly the body bytes the server sent. |
| Client.FileDownloaded | lab1/client.py:85-112 | End to end, with lab 1: a client's GET for a readable file below the root is answered with that file. The download succeeds with code 200 and saves exactly the file's bytes. |
| Client.FetchAsWritten | lab1/client.py:11-125 | As written: host and scheme failures come first, then an unreadable status. Without an output path the parse is returned and no file changes. With one, the fetch fails exactly when the target file has no directory part; otherwise only the target changes, holding the as-written raw body. |
| Client.FetchSavesAsWritten | lab1/client.py:93-112 | As written, fetching a server's answer to a target with a directory part returns its code and stores exactly the body bytes the server sent. A bare target file name fails. |
| Client.FileDownloadedAsWritten | lab1/client.py:85-112 | End to end with lab 1, as written: the download of a readable file below the root reads code 200 and saves exactly the file's bytes when the target has a directory part, and fails when it is a bare file name. |
| Text.FirstLine | lab1/server.py:93-94 | The line is a prefix of the request without CRLF, and is followed by CRLF unless it is the whole text. |
| Text.FirstLineOf | lab1/server.py:93-94 | The first line of `line + CRLF + rest` is `line` when `line` holds no CR. |
| Text.SplitWs | lab1/server.py:98 | `split()` yields non-empty words without whitespace. |
| Text.SplitWsWoven | lab1/server.py:98 | Every text is its `split()` words laid out with whitespace: whitespace before, between and after them, with at least one whitespace character between two words. So the words are the text's maximal runs of non-whitespace, in order, and only whitespace is dropped. |
| Text.SplitWsOfWeave | lab1/server.py:98 | Conversely, any text laid out that way from non-empty, whitespace-free words splits into exactly those words. |
| Text.SplitWsJoin | lab1/server.py:98 | `split()` of words joined by spaces gives back the words. |
| Text.SplitJoin | lab2/server.py:190 | `split(sep)` of parts joined by `sep` gives back the parts. |
| Text.JoinSplit | lab1/serve_directory.py:41 | Joining the parts of `split(sep)` with `sep` gives back the text. |
| Text.Find | lab1/client.py:94 | `find` returns the first occurrence, or -1 exactly when there is none. |
| Text.FindBlankLine | lab1/client.py:60-61 | In header lines joined by CRLF and followed by a blank line, the first blank line is the one after the header. |
| Text.ParseIntNatToString | lab1/client.py:78 | `int()` reads a decimal rendering back to its number. |
| Text.NatToString | lab1/send_response.py:17 | A number renders as digits without a leading zero, denoting the number. |
| Text.RStrip | lab1/serve_directory.py:41 | The result is the longest prefix not ending in the character. Only that character is removed. |
| Utf8.DecodeOfEncode | lab1/server.py:87 | Strict and lenient decoding both invert encoding. |
| Utf8.EncodeOfDecode | lab1/server.py:87 | Bytes that decode strictly are the encoding of their decoding, and lenient decoding agrees with strict decoding on them. |
| Utf8.DecodeIgnoreEncode | lab2/server.py:167 | Lenient decoding reads an encoded prefix as itself and then goes on with the rest. |
| Utf8.DecodeStrictEncode | lab1/server.py:87 | Strict decoding reads an encoded prefix as itself, and fails exactly when the rest fails. |
| Utf8.EncodeKeepsCr | lab1/client.py:94 | The encoding holds a CR byte exactly when the text holds a CR. |

## Left out

- Sockets, `accept`, `recv`, `sendall`, `shutdown` and `close` are not modelled. A request is the bytes one `recv` returned, and the client's answer is all bytes received until the peer closed.
- Threads, the worker pool, per-connection threads and locks are not modelled. Calls are sequential, so the lost updates of the naive counter's race cannot be expressed; `HitCounter.NaiveIsLocked` states only the sequential agreement.
- The artificial delay (`time.sleep`) and the clock are not modelled. `time.monotonic()` is an integer instant passed in, and the window is an integer too.
- The port search (`find_available_port`), `start`, `main`, argument parsing and all printing and logging are not modelled.
- `lab1/HTTPServer.py`, `lab2/performance.py` and `lab2/concurrent.py` (the benchmark and comparison scripts) are not part of this model.
- `urllib.parse.urlparse` is not modelled: the client takes the already parsed URL. `unquote` and `mimetypes.guess_type` are function parameters.
- `str.lower()` is modelled only for ASCII letters.
- Text.ParseInt: accepts ASCII digits only. Python's `int()` also reads the other Unicode decimal digits, such as Arabic-Indic or full-width ones; for a status word holding them the model fails where the client would read a code.
- The client's `os.path.isdir(output_file)` is a flag on the output. A directory creation is assumed to succeed whenever `dirname` is non-empty.
- The client's connection errors and `socket.connect` are not modelled. A status word that `int()` rejects is the one failure after the request.
- Pages.ToResponse: carries no contract of its own. Each case is the response function whose contract states it, and `Pages.ContentSent` states the file case.
- RateLimiter.AllowPreservesValid: requires `rate_window >= 0`. With a negative window the code would keep timestamps newer than `now`.
- Client.Fetch: stores the corrected raw body with the corrected save. The as-written slice and save are `Client.RawBody` and `Client.SaveAsWritten`.
- Client.Fetch: records the file written once, although the code writes it twice with the same contents.
- Client.FetchSaves: is stated for the corrected fetch, which also saves to a bare file name. As written, such a save fails; `Client.FetchSavesAsWritten` states the as-written behaviour.
- Client.FileDownloaded: is stated for the corrected fetch, which also saves to a bare file name. As written, such a download fails after the answer was read; `Client.FileDownloadedAsWritten` states the as-written behaviour.

## Findings

| source | as written | input that shows it | evidently intended | confidence | as-written member | corrected member |
|---|---|---|---|---|---|---|
| lab2/server.py:190-193 | the guard tests whether the normalised path string starts with the root string (also lab1/server.py:115-118 and lab1/handle_request.py:36-39) | root `/srv/www` with a directory `/srv/wwwdata`; `GET /../wwwdata HTTP/1.1` is served from `/srv/wwwdata` | only the root and the paths below it are served; the sibling gets 403 | high; not executed | Router.SiblingRoute | Paths.SiblingContained |
| lab1/client.py:94-95 | the body starts at `find(b"\r\n\r\n") + 4` even when `find` returns -1 | the server's answer is the four bytes `HTTP`; the saved file holds `P` although the parsed body is empty | save an empty body when there is no blank line | high; not executed | Client.RawBodyWithoutBlankLine | Client.RawBodyFixed |
| lab1/client.py:98 | `os.makedirs(os.path.dirname(output_file))` runs even when the directory part is empty | output file `out.bin`; `makedirs("")` raises and nothing is saved | save into the current directory | high; not executed | Client.BareNameNotSaved | Client.SaveFixed |
