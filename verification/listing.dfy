/** The directory listing page both servers build in `serve_directory`: a
    fixed head naming `/<url_path>`, a link to the parent directory unless
    the listing is of the root, one list item per entry in sorted order,
    and a footer naming the port.  Lab 2 appends `(requests: n)` to every
    entry; lab 1 does not, so an item's count is optional. */
module Listing {
  import opened Text
  import opened Utf8
  import opened Http

  /** One directory entry as the page shows it. */
  datatype Item = Item(name: string, isDir: bool, count: Option<nat>)

  /** The URL path of the parent directory: trailing slashes dropped, then
      the last slash-separated component and the slash before it. */
  function ParentOf(urlPath: string): string {
    var parts := Split(RStrip(urlPath, '/'), '/');
    Join(parts[..|parts| - 1], "/")
  }

  /** The URL path of an entry of the directory at `urlPath`: the entry's
      name after a slash, or the bare name when the listing is of the root. */
  function UrlEntry(urlPath: string, entry: string): string {
    if urlPath != "" then urlPath + "/" + entry else entry
  }

  /** Lab 2's ` (requests: n)` suffix; nothing for lab 1. */
  function CountSuffix(count: Option<nat>): string {
    match count
    case None => ""
    case Some(n) => RequestsOpen + NatToString(n) + ")"
  }

  const RequestsOpen: string := " (requests: "

  /** `<li class="cls"><a href="/href">text</a>suffix</li>`: one list item
      holding one link. */
  function ListItem(cls: string, href: string, text: string, suffix: string): string {
    ItemOpen + cls + AnchorOpen + href + TagEnd + text + AnchorClose + suffix + ItemClose
  }

  const ItemOpen: string := "<li class=\""
  const AnchorOpen: string := "\"><a href=\"/"
  const TagEnd: string := "\">"
  const AnchorClose: string := "</a>"
  const ItemClose: string := "</li>"

  /** The list item of one entry: a directory links with a trailing `/` and
      shows its name with one; a file links to itself. */
  function ItemLine(urlPath: string, item: Item): string {
    var url := UrlEntry(urlPath, item.name);
    if item.isDir then ListItem("dir", url + "/", item.name + "/", CountSuffix(item.count))
    else ListItem("file", url, item.name, CountSuffix(item.count))
  }

  const HeadCount: nat := 25
  const FootCount: nat := 7

  /** The fixed lines before the title. */
  const Preamble: seq<string> := [ "<!DOCTYPE html>", "<html>", "<head>", "<meta charset=\"utf-8\">" ]

  /** The style sheet: one rule per line. */
  const StyleRules: seq<string> := [
    "body { font-family: Arial, sans-serif; margin: 40px; background: #f5f5f5; }",
    ".container { background: white; padding: 30px; border-radius: 8px; box-shadow: 0 2px 4px rgba(0,0,0,0.1); }",
    "h1 { color: #333; margin-top: 0; }",
    "ul { list-style: none; padding: 0; }",
    "li { padding: 12px; border-bottom: 1px solid #eee; transition: background 0.2s; }",
    "li:hover { background: #f9f9f9; }",
    "a { text-decoration: none; color: #0066cc; }",
    "a:hover { text-decoration: underline; }",
    ".dir { font-weight: bold; color: #d97706; }",
    ".dir:before { content: \"\U{1F4C1} \"; }",
    ".file:before { content: \"\U{1F4C4} \"; }",
    ".parent:before { content: \"\U{2B06}\U{FE0F} \"; }",
    "footer { margin-top: 20px; padding-top: 20px; border-top: 1px solid #eee; color: #666; font-size: 14px; }" ]

  /** The fixed lines between the style sheet and the heading. */
  const BodyStart: seq<string> := [ "</style>", "</head>", "<body>", "<div class=\"container\">" ]

  /** The lines before the first list item: the title and the heading both
      name `/<url_path>`. */
  function Head(urlPath: string): (lines: seq<string>)
    ensures |lines| == HeadCount
  {
    Preamble
    + ["<title>Directory listing for /" + urlPath + "</title>", "<style>"]
    + StyleRules
    + BodyStart
    + ["<h1>\U{1F4C2} Directory listing for /" + urlPath + "</h1>", "<ul>"]
  }

  /** The parent link, present exactly when the listing is not the root's. */
  function ParentLines(urlPath: string): (lines: seq<string>)
    ensures |lines| == (if urlPath != "" then 1 else 0)
  {
    if urlPath != "" then [ListItem("parent", ParentOf(urlPath), "Parent Directory", "")]
    else []
  }

  function ItemLines(urlPath: string, items: seq<Item>): (lines: seq<string>)
    ensures |lines| == |items|
    ensures forall i :: 0 <= i < |items| ==> lines[i] == ItemLine(urlPath, items[i])
  {
    if |items| == 0 then [] else [ItemLine(urlPath, items[0])] + ItemLines(urlPath, items[1..])
  }

  /** The lines after the last list item. */
  function Foot(port: nat): (lines: seq<string>)
    ensures |lines| == FootCount
  {
    [ "</ul>",
      "<footer>",
      "<em>Python HTTP File Server - Port " + NatToString(port) + "</em>",
      "</footer>",
      "</div>",
      "</body>",
      "</html>" ]
  }

  function ListingLines(urlPath: string, items: seq<Item>, port: nat): seq<string> {
    Head(urlPath) + ParentLines(urlPath) + ItemLines(urlPath, items) + Foot(port)
  }

  /** `"\n".join(html)`. */
  function ListingHtml(urlPath: string, items: seq<Item>, port: nat): string {
    Join(ListingLines(urlPath, items, port), "\n")
  }

  /** The 200 answer carrying the listing. */
  function ListingResponse(urlPath: string, items: seq<Item>, port: nat): (r: Response)
    ensures r.code == 200 && r.reason == "OK" && r.contentType == "text/html; charset=utf-8"
    ensures DecodeStrict(r.body) == Some(ListingHtml(urlPath, items, port))
  {
    DecodeOfEncode(ListingHtml(urlPath, items, port));
    Response(200, "OK", "text/html; charset=utf-8", Encode(ListingHtml(urlPath, items, port)))
  }

  // ---------------------------------------------------------------------
  // Lemmas
  // ---------------------------------------------------------------------

  /** Where the parts of a four-part concatenation sit, given their
      lengths. */
  lemma FourParts<T>(s: seq<T>, h: seq<T>, p: seq<T>, m: seq<T>, f: seq<T>, first: nat)
    requires s == h + p + m + f
    requires first == |h| + |p|
    ensures |s| == first + |m| + |f|
    ensures s[..|h|] == h
    ensures |p| > 0 ==> s[|h|] == p[0]
    ensures s[first..first + |m|] == m
    ensures s[first + |m|..] == f
  {
    assert s[first..first + |m|] == m;
  }

  /** The page is the fixed head, the parent link unless the listing is of
      the root, the entries' lines in the given order, and the footer
      naming the port. */
  lemma ListingShape(urlPath: string, items: seq<Item>, port: nat)
    ensures var lines := ListingLines(urlPath, items, port);
            var first := HeadCount + (if urlPath != "" then 1 else 0);
            && |lines| == first + |items| + FootCount
            && lines[..HeadCount] == Head(urlPath)
            && (urlPath != "" ==> lines[HeadCount] == ListItem("parent", ParentOf(urlPath), "Parent Directory", ""))
            && lines[first..first + |items|] == ItemLines(urlPath, items)
            && lines[first + |items|..] == Foot(port)
  {
    var h, p, m, f := Head(urlPath), ParentLines(urlPath), ItemLines(urlPath, items), Foot(port);
    FourParts(ListingLines(urlPath, items, port), h, p, m, f, HeadCount + (if urlPath != "" then 1 else 0));
  }

  /** The entry lines of a page: line `first + i` shows entry `i`. */
  lemma EntryLines(lines: seq<string>, first: nat, urlPath: string, items: seq<Item>)
    requires first + |items| <= |lines|
    requires lines[first..first + |items|] == ItemLines(urlPath, items)
    ensures forall i :: 0 <= i < |items| ==> lines[first + i] == ItemLine(urlPath, items[i])
  {
    forall i | 0 <= i < |items| ensures lines[first + i] == ItemLine(urlPath, items[i]) {
      assert lines[first + i] == lines[first..first + |items|][i];
    }
  }

  /** A list item shows its class, its link and its text, and ends with the
      suffix; items of different classes differ from their first
      characters on. */
  lemma ListItemShows(cls: string, href: string, text: string, suffix: string, other: string)
    requires |cls| > 0 && |other| > 0 && cls[0] != other[0]
    ensures StartsWith(ListItem(cls, href, text, suffix), ItemOpen + cls + AnchorOpen)
    ensures !StartsWith(ListItem(cls, href, text, suffix), ItemOpen + other + AnchorOpen)
    ensures Contains(ListItem(cls, href, text, suffix), AnchorOpen + href + TagEnd + text + AnchorClose)
    ensures EndsWith(ListItem(cls, href, text, suffix), suffix + ItemClose)
  {
    var line := ListItem(cls, href, text, suffix);
    assert line[|ItemOpen|] == cls[0];
    assert (ItemOpen + other + AnchorOpen)[|ItemOpen|] == other[0];
    var link := AnchorOpen + href + TagEnd + text + AnchorClose;
    assert line == (ItemOpen + cls) + link + (suffix + ItemClose);
    ContainsMiddle(ItemOpen + cls, link, suffix + ItemClose);
    assert line[|line| - |suffix + ItemClose|..] == suffix + ItemClose;
  }

  /** A directory item is marked and linked as a directory, a file item as a
      file, and each shows its name and (in lab 2) its count. */
  lemma ItemLineShows(urlPath: string, item: Item)
    ensures item.isDir <==> StartsWith(ItemLine(urlPath, item), ItemOpen + "dir" + AnchorOpen)
    ensures item.isDir ==> Contains(ItemLine(urlPath, item), AnchorOpen + (UrlEntry(urlPath, item.name) + "/") + TagEnd + (item.name + "/") + AnchorClose)
    ensures !item.isDir ==> Contains(ItemLine(urlPath, item), AnchorOpen + UrlEntry(urlPath, item.name) + TagEnd + item.name + AnchorClose)
    ensures EndsWith(ItemLine(urlPath, item), CountSuffix(item.count) + ItemClose)
  {
    var url := UrlEntry(urlPath, item.name);
    if item.isDir {
      ListItemShows("dir", url + "/", item.name + "/", CountSuffix(item.count), "file");
    } else {
      ListItemShows("file", url, item.name, CountSuffix(item.count), "dir");
    }
  }

  /** Following a directory's link and then that listing's parent link leads
      back: the parent of `<url_path>/<entry>/` (or of `<entry>/` from the
      root) is `url_path`, whenever `url_path` has no trailing `/`. */
  lemma ParentOfChild(urlPath: string, entry: string)
    requires |entry| > 0 && '/' !in entry
    requires urlPath == "" || urlPath[|urlPath| - 1] != '/'
    ensures ParentOf(UrlEntry(urlPath, entry) + "/") == urlPath
    ensures ParentOf(UrlEntry(urlPath, entry)) == urlPath
  {
    var child := UrlEntry(urlPath, entry);
    assert RStrip(child + "/", '/') == child by {
      assert (child + "/")[..|child|] == child;
      assert RStrip(child, '/') == child;
    }
    assert RStrip(child, '/') == child;
    SplitNoSep(entry, '/');
    if urlPath == "" {
      assert Split(child, '/') == [entry];
    } else {
      SplitAround(urlPath, '/', entry);
      var parts := Split(child, '/');
      assert parts == Split(urlPath, '/') + [entry];
      assert parts[..|parts| - 1] == Split(urlPath, '/');
      JoinSplit(urlPath, '/');
    }
  }
}
