/** Response framing shared by both servers: a status line in the form of
    section 4 of RFC 9112 (`HTTP/1.1 <code> <reason>`), then `Content-Type`,
    `Content-Length` and `Connection: close`, each line ended by CRLF, an
    empty line, and the body bytes.  Also the fixed pages the servers send:
    the simple status page, the 404 page and the plain-text 429 answer. */
module Http {
  import opened Text
  import opened Utf8

  /** What a handler hands to `sendall`: the header is built from these
      fields, with `Content-Length` taken from the body. */
  datatype Response = Response(code: nat, reason: string, contentType: string, body: seq<byte>)

  /** `<code> <reason>`, as on the status line and on the status page. */
  function StatusText(code: nat, reason: string): string {
    NatToString(code) + " " + reason
  }

  /** The protocol version both servers answer with and the client asks for. */
  const Version: string := "HTTP/1.1"

  function StatusLine(code: nat, reason: string): string {
    Version + " " + StatusText(code, reason)
  }

  /** The four header fields, status line first. */
  function HeaderFields(code: nat, reason: string, contentType: string, length: nat): (fields: seq<string>)
    ensures |fields| == 4
  {
    [ StatusLine(code, reason),
      "Content-Type: " + contentType,
      "Content-Length: " + NatToString(length),
      "Connection: close" ]
  }

  /** `"\r\n".join([...fields, "", ""])`, the text `_build_headers` encodes. */
  function HeaderText(code: nat, reason: string, contentType: string, length: nat): (h: string)
    ensures h == Join(HeaderFields(code, reason, contentType, length), "\r\n") + "\r\n\r\n"
  {
    var fields := HeaderFields(code, reason, contentType, length);
    var lines := fields + ["", ""];
    JoinAppend(fields, "", "\r\n");
    JoinAppend(fields + [""], "", "\r\n");
    assert fields + [""] + [""] == lines;
    Join(lines, "\r\n")
  }

  /** `_build_headers(code, text, content_type, content_length)`. */
  function BuildHeaders(code: nat, reason: string, contentType: string, length: nat): seq<byte> {
    Encode(HeaderText(code, reason, contentType, length))
  }

  /** The bytes sent for a response: the header, whose `Content-Length`
      is the body's byte count, immediately followed by the body. */
  function Wire(r: Response): (bs: seq<byte>)
    ensures bs == BuildHeaders(r.code, r.reason, r.contentType, |r.body|) + r.body
    ensures bs[|bs| - |r.body|..] == r.body
  {
    BuildHeaders(r.code, r.reason, r.contentType, |r.body|) + r.body
  }

  // ---------------------------------------------------------------------
  // Pages
  // ---------------------------------------------------------------------

  /** The body of `send_response`: a minimal page naming the status in its
      title and its heading. */
  function StatusHtml(code: nat, reason: string): string {
    var status := StatusText(code, reason);
    StatusOpen + ("<title>" + status + "</title>") + StatusMiddle + ("<h1>" + status + "</h1>") + StatusClose
  }

  /** The fixed text around the title and the heading of a status page. */
  const StatusOpen: string := "<!DOCTYPE html>\n<html>\n<head>\n    "
  const StatusMiddle: string := "\n</head>\n<body>\n    "
  const StatusClose: string := "\n</body>\n</html>"

  /** `send_response(code, text, content_type)`: the status page, with
      `; charset=utf-8` appended to the given content type. */
  function StatusPage(code: nat, reason: string, contentType: string): (r: Response)
    ensures r.code == code && r.reason == reason
    ensures r.contentType == contentType + "; charset=utf-8"
    ensures DecodeStrict(r.body) == Some(StatusHtml(code, reason))
  {
    DecodeOfEncode(StatusHtml(code, reason));
    Response(code, reason, contentType + "; charset=utf-8", Encode(StatusHtml(code, reason)))
  }

  const NotFoundHead: string :=
    "<!DOCTYPE html>\n<html>\n<head>\n    <title>404 Not Found</title>\n    <style>\n"
    + "        body { font-family: Arial, sans-serif; margin: 40px; text-align: center; background: #f5f5f5; }\n"
    + "        .container { background: white; padding: 40px; border-radius: 8px; box-shadow: 0 2px 4px rgba(0,0,0,0.1); max-width: 600px; margin: 0 auto; }\n"
    + "        h1 { color: #d9534f; font-size: 72px; margin: 0; }\n"
    + "        h2 { color: #333; }\n"
    + "        .path { background: #f8f8f8; padding: 10px; border-radius: 4px; font-family: monospace; word-break: break-all; }\n"
    + "    </style>\n</head>\n<body>\n    <div class=\"container\">\n        <h1>404</h1>\n        <h2>Not Found</h2>\n"
    + "        <p>The requested file was not found on this server.</p>\n        "

  const NotFoundMiddle: string := "\n        <hr>\n        <p><em>Python HTTP File Server - Port "

  const NotFoundTail: string := "</em></p>\n    </div>\n</body>\n</html>"

  /** The paragraph of the 404 page that shows the requested path. */
  function PathParagraph(path: string): string {
    "<p class=\"path\">/" + path + "</p>"
  }

  /** The body of `send_404`: the requested path, with a `/` in front, and
      the server's port. */
  function NotFoundHtml(path: string, port: nat): string {
    NotFoundHead + PathParagraph(path) + NotFoundFoot(port)
  }

  /** The end of the 404 page, naming the server's port. */
  function NotFoundFoot(port: nat): string {
    NotFoundMiddle + NatToString(port) + NotFoundTail
  }

  /** `send_404(path)`. */
  function NotFoundPage(path: string, port: nat): (r: Response)
    ensures r.code == 404 && r.reason == "Not Found"
    ensures r.contentType == "text/html; charset=utf-8"
    ensures DecodeStrict(r.body) == Some(NotFoundHtml(path, port))
  {
    DecodeOfEncode(NotFoundHtml(path, port));
    Response(404, "Not Found", "text/html; charset=utf-8", Encode(NotFoundHtml(path, port)))
  }

  /** The text of the lab 2 answer to a client over its rate. */
  const RateLimitText: string := "Rate limit exceeded\n"

  /** The lab 2 answer to a client over its rate: plain text, not a page. */
  function TooManyRequests(): (r: Response)
    ensures r.code == 429 && r.reason == "Too Many Requests" && r.contentType == "text/plain"
    ensures DecodeStrict(r.body) == Some(RateLimitText)
  {
    DecodeOfEncode(RateLimitText);
    Response(429, "Too Many Requests", "text/plain", Encode(RateLimitText))
  }

  /** `serve_file`'s answer for readable content: the bytes unchanged, typed
      by the guess or as `application/octet-stream` when there is none. */
  function FileResponse(content: seq<byte>, guessed: Option<string>): (r: Response)
    ensures r.code == 200 && r.reason == "OK" && r.body == content
    ensures guessed.None? ==> r.contentType == "application/octet-stream"
    ensures guessed.Some? ==> r.contentType == guessed.value
  {
    Response(200, "OK", if guessed.Some? then guessed.value else "application/octet-stream", content)
  }

  // ---------------------------------------------------------------------
  // Lemmas
  // ---------------------------------------------------------------------

  /** Both the title and the heading of a status page name the status as
      `<code> <reason>`. */
  lemma StatusPageNamesStatus(code: nat, reason: string)
    ensures Contains(StatusHtml(code, reason), "<title>" + StatusText(code, reason) + "</title>")
    ensures Contains(StatusHtml(code, reason), "<h1>" + StatusText(code, reason) + "</h1>")
  {
    var status := StatusText(code, reason);
    var title := "<title>" + status + "</title>";
    var h1 := "<h1>" + status + "</h1>";
    Regroup5(StatusOpen, title, StatusMiddle, h1, StatusClose);
    ContainsMiddle(StatusOpen, title, StatusMiddle + h1 + StatusClose);
    ContainsMiddle(StatusOpen + title + StatusMiddle, h1, StatusClose);
  }

  /** Between a fixed head and tail, the path paragraph can be read back. */
  lemma {:induction false} ParagraphInjective(head: string, path: string, other: string, rest: string)
    requires head + PathParagraph(path) + rest == head + PathParagraph(other) + rest
    ensures path == other
  {
    var s := head + PathParagraph(path) + rest;
    var t := head + PathParagraph(other) + rest;
    var start := |head| + 17;
    assert |other| == |path|;
    assert s[start..start + |path|] == path;
    assert t[start..start + |other|] == other;
  }

  /** The 404 page shows `/` followed by the requested path, and the path
      can be read back from the page: distinct paths give distinct pages. */
  lemma NotFoundShowsPath(path: string, other: string, port: nat)
    ensures Contains(NotFoundHtml(path, port), PathParagraph(path))
    ensures NotFoundHtml(path, port) == NotFoundHtml(other, port) ==> path == other
  {
    ContainsMiddle(NotFoundHead, PathParagraph(path), NotFoundFoot(port));
    if NotFoundHtml(path, port) == NotFoundHtml(other, port) {
      ParagraphInjective(NotFoundHead, path, other, NotFoundFoot(port));
    }
  }

  /** A header field that cannot break a line: no CR, no LF. */
  predicate FieldText(s: string) {
    NoneOf(s, '\r', '\n')
  }

  lemma {:induction false} EncodeFieldText(s: string)
    requires FieldText(s)
    ensures NoneOf(Encode(s), 13, 10)
    decreases |s|
  {
    if |s| > 0 {
      EncodeFieldText(s[1..]);
      var e := EncodeChar(s[0]);
      assert Encode(s) == e + Encode(s[1..]);
      forall i | 0 <= i < |Encode(s)| ensures Encode(s)[i] != 13 && Encode(s)[i] != 10 {
        if i >= |e| {
          assert Encode(s)[i] == Encode(s[1..])[i - |e|];
        } else if |e| > 1 && i > 0 {
          assert IsCont(e[i]);
        }
      }
    }
  }

  function EncodeAll(lines: seq<string>): (r: seq<seq<byte>>)
    ensures |r| == |lines|
    ensures forall i :: 0 <= i < |lines| ==> r[i] == Encode(lines[i])
  {
    if |lines| == 0 then [] else [Encode(lines[0])] + EncodeAll(lines[1..])
  }

  lemma {:induction false} EncodeJoin(lines: seq<string>)
    ensures Encode(Join(lines, "\r\n")) == Join(EncodeAll(lines), [13, 10])
    decreases |lines|
  {
    if |lines| > 1 {
      EncodeJoin(lines[1..]);
      EncodeAppend(lines[0] + "\r\n", Join(lines[1..], "\r\n"));
      EncodeAppend(lines[0], "\r\n");
      assert Encode("\r\n") == [13, 10];
      assert EncodeAll(lines)[1..] == EncodeAll(lines[1..]);
    }
  }

  lemma FieldsAreText(code: nat, reason: string, contentType: string, length: nat)
    requires FieldText(reason) && FieldText(contentType)
    ensures forall k :: 0 <= k < 4 ==>
      |HeaderFields(code, reason, contentType, length)[k]| > 0
      && FieldText(HeaderFields(code, reason, contentType, length)[k])
  {
    var digits := NatToString(code);
    assert forall i :: 0 <= i < |digits| ==> IsDigit(digits[i]);
    var line := StatusLine(code, reason);
    assert FieldText(line) by {
      forall i | 0 <= i < |line| ensures line[i] != '\r' && line[i] != '\n' {
        if 9 <= i < 9 + |digits| {
          assert line[i] == digits[i - 9];
        } else if i >= 10 + |digits| {
          assert line[i] == reason[i - 10 - |digits|];
        }
      }
    }
    var ct := "Content-Type: " + contentType;
    assert FieldText(ct) by {
      forall i | 14 <= i < |ct| ensures ct[i] != '\r' && ct[i] != '\n' {
        assert ct[i] == contentType[i - 14];
      }
    }
    var len := NatToString(length);
    assert forall i :: 0 <= i < |len| ==> IsDigit(len[i]);
    var cl := "Content-Length: " + len;
    assert FieldText(cl) by {
      forall i | 16 <= i < |cl| ensures cl[i] != '\r' && cl[i] != '\n' {
        assert cl[i] == len[i - 16];
      }
    }
  }

  /** The `Content-Length` field on the wire holds a decimal that `int`
      reads back as exactly the number of body bytes that follow. */
  lemma ContentLengthField(r: Response)
    ensures exists v :: && HeaderFields(r.code, r.reason, r.contentType, |r.body|)[2] == "Content-Length: " + v
                        && ParseInt(v) == Some(|r.body|)
  {
    var v := NatToString(|r.body|);
    ParseIntNatToString(|r.body|);
    assert HeaderFields(r.code, r.reason, r.contentType, |r.body|)[2] == "Content-Length: " + v;
  }

  /** The first empty line on the wire is the one that ends the header:
      when the reason and content type cannot break a line, the first
      CRLFCRLF in the bytes sent is the header's own terminator, so the
      body is exactly what follows it. */
  lemma WireHeaderEnd(r: Response)
    requires FieldText(r.reason) && FieldText(r.contentType)
    ensures Find(Wire(r), [13, 10, 13, 10]) == |BuildHeaders(r.code, r.reason, r.contentType, |r.body|)| - 4
    ensures Wire(r)[|BuildHeaders(r.code, r.reason, r.contentType, |r.body|)|..] == r.body
  {
    var fields := HeaderFields(r.code, r.reason, r.contentType, |r.body|);
    FieldsAreText(r.code, r.reason, r.contentType, |r.body|);
    var enc := EncodeAll(fields);
    forall k | 0 <= k < |enc| ensures |enc[k]| > 0 && NoneOf(enc[k], 13, 10) {
      EncodeFieldText(fields[k]);
    }
    EncodeJoin(fields);
    EncodeAppend(Join(fields, "\r\n"), "\r\n\r\n");
    assert Encode("\r\n\r\n") == [13, 10, 13, 10];
    FindBlankLine(enc, 13, 10, r.body);
  }
}
