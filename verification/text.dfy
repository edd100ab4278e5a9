/** The Python `str` and `bytes` operations the server and client rely on,
    written over Dafny sequences: prefix tests, `find`, `split`/`join` on one
    separator, whitespace `split()`, `str(n)` for naturals, `int(s)`,
    `rstrip` and ASCII lower-casing. */
module Text {

  datatype Option<+T> = None | Some(value: T)

  /** An octet on the wire. */
  type byte = x: int | 0 <= x < 256

  predicate StartsWith<T(==)>(s: seq<T>, prefix: seq<T>) {
    |prefix| <= |s| && s[..|prefix|] == prefix
  }

  predicate EndsWith<T(==)>(s: seq<T>, suffix: seq<T>) {
    |suffix| <= |s| && s[|s| - |suffix|..] == suffix
  }

  /** `pat` occurs in `s` at offset `i`. */
  predicate OccursAt<T(==)>(s: seq<T>, pat: seq<T>, i: int) {
    0 <= i && i + |pat| <= |s| && s[i..i + |pat|] == pat
  }

  /** Python's `s.find(pat)`: the first offset where `pat` occurs, or -1. */
  function Find<T(==)>(s: seq<T>, pat: seq<T>): (r: int)
    ensures -1 <= r <= |s|
    ensures r >= 0 ==> OccursAt(s, pat, r)
    ensures r < 0 ==> forall i :: 0 <= i <= |s| ==> !OccursAt(s, pat, i)
    ensures forall i :: 0 <= i < r ==> !OccursAt(s, pat, i)
  {
    FindFrom(s, pat, 0)
  }

  function FindFrom<T(==)>(s: seq<T>, pat: seq<T>, from: nat): (r: int)
    requires from <= |s|
    ensures r == -1 || from <= r <= |s|
    ensures r >= 0 ==> OccursAt(s, pat, r)
    ensures r < 0 ==> forall i :: from <= i <= |s| ==> !OccursAt(s, pat, i)
    ensures forall i :: from <= i < r ==> !OccursAt(s, pat, i)
    decreases |s| - from
  {
    if OccursAt(s, pat, from) then from
    else if from == |s| then -1
    else FindFrom(s, pat, from + 1)
  }

  /** Python's `sep.join(parts)` (written with the glue as a sequence). */
  function Join<T>(parts: seq<seq<T>>, glue: seq<T>): seq<T> {
    if |parts| == 0 then []
    else if |parts| == 1 then parts[0]
    else parts[0] + glue + Join(parts[1..], glue)
  }

  /** Re-association facts, kept apart so that proofs about recursive
      functions need not rebuild them by extensionality. */
  lemma EmptyAppend<T>(s: seq<T>, r: seq<T>)
    requires |s| == 0
    ensures s + r == r
  {
  }

  lemma ConsAppend<T>(s: seq<T>, r: seq<T>)
    requires |s| > 0
    ensures [s[0]] + (s[1..] + r) == s + r
  {
  }

  lemma Regroup5<T>(a: seq<T>, b: seq<T>, c: seq<T>, d: seq<T>, e: seq<T>)
    ensures a + b + c + d + e == a + b + (c + d + e)
    ensures a + b + c + d + e == (a + b + c) + d + e
  {
  }

  /** Python's `s.split(sep)` for a one-element separator: never empty, and
      no part contains the separator. */
  function Split<T(==)>(s: seq<T>, sep: T): (parts: seq<seq<T>>)
    ensures |parts| >= 1
    ensures forall i :: 0 <= i < |parts| ==> sep !in parts[i]
    decreases |s|
  {
    if |s| == 0 then [[]]
    else
      var rest := Split(s[1..], sep);
      if s[0] == sep then [[]] + rest
      else [[s[0]] + rest[0]] + rest[1..]
  }

  /** `sep.join(s.split(sep)) == s`. */
  lemma {:induction false} JoinSplit<T>(s: seq<T>, sep: T)
    ensures Join(Split(s, sep), [sep]) == s
    decreases |s|
  {
    if |s| > 0 {
      var rest := Split(s[1..], sep);
      JoinSplit(s[1..], sep);
      var parts := Split(s, sep);
      if s[0] == sep {
        assert parts[1..] == rest;
      } else {
        assert parts[1..] == rest[1..];
        assert s == [s[0]] + s[1..];
      }
    }
  }

  lemma {:induction false} SplitNoSep<T>(s: seq<T>, sep: T)
    requires sep !in s
    ensures Split(s, sep) == [s]
    decreases |s|
  {
    if |s| > 0 {
      SplitNoSep(s[1..], sep);
      assert s == [s[0]] + s[1..];
    }
  }

  /** One step of `Split`, stated on its own. */
  lemma SplitCons<T>(s: seq<T>, sep: T)
    requires |s| > 0
    ensures s[0] == sep ==> Split(s, sep) == [[]] + Split(s[1..], sep)
    ensures s[0] != sep ==> Split(s, sep) == [[s[0]] + Split(s[1..], sep)[0]] + Split(s[1..], sep)[1..]
  {
  }

  lemma GlueFirst<T>(x: T, l: seq<seq<T>>, r: seq<seq<T>>)
    requires |l| > 0
    ensures [[x] + (l + r)[0]] + (l + r)[1..] == ([[x] + l[0]] + l[1..]) + r
  {
    assert (l + r)[0] == l[0];
    assert (l + r)[1..] == l[1..] + r;
  }

  /** Splitting distributes over a separator occurrence. */
  lemma {:induction false} SplitAround<T>(a: seq<T>, sep: T, b: seq<T>)
    ensures Split(a + [sep] + b, sep) == Split(a, sep) + Split(b, sep)
    decreases |a|
  {
    var s := a + [sep] + b;
    if |a| == 0 {
      assert s == [sep] + b;
      SplitCons(s, sep);
      assert s[1..] == b;
    } else {
      assert s[0] == a[0];
      assert s[1..] == a[1..] + [sep] + b;
      SplitCons(s, sep);
      SplitCons(a, sep);
      SplitAround(a[1..], sep, b);
      var left := Split(a[1..], sep);
      if a[0] == sep {
        assert [[]] + (left + Split(b, sep)) == ([[]] + left) + Split(b, sep);
      } else {
        GlueFirst(a[0], left, Split(b, sep));
      }
    }
  }

  /** `split` undoes `join` when no part holds the separator. */
  lemma {:induction false} SplitJoin<T>(parts: seq<seq<T>>, sep: T)
    requires |parts| >= 1
    requires forall i :: 0 <= i < |parts| ==> sep !in parts[i]
    ensures Split(Join(parts, [sep]), sep) == parts
    decreases |parts|
  {
    if |parts| == 1 {
      SplitNoSep(parts[0], sep);
    } else {
      SplitJoin(parts[1..], sep);
      SplitNoSep(parts[0], sep);
      SplitAround(parts[0], sep, Join(parts[1..], [sep]));
    }
  }

  lemma {:induction false} JoinAppend<T>(parts: seq<seq<T>>, last: seq<T>, glue: seq<T>)
    requires |parts| >= 1
    ensures Join(parts + [last], glue) == Join(parts, glue) + glue + last
    decreases |parts|
  {
    if |parts| == 1 {
      assert (parts + [last])[1..] == [last];
    } else {
      assert (parts + [last])[1..] == parts[1..] + [last];
      JoinAppend(parts[1..], last, glue);
    }
  }

  // ---------------------------------------------------------------------
  // Lines separated by a two-element terminator
  // ---------------------------------------------------------------------

  /** `pat` occurs somewhere in `s` (Python's `pat in s`). */
  predicate Contains<T(==)>(s: seq<T>, pat: seq<T>) {
    exists i :: 0 <= i <= |s| && OccursAt(s, pat, i)
  }

  /** A sequence contains each of its middle pieces. */
  lemma ContainsMiddle<T>(a: seq<T>, pat: seq<T>, b: seq<T>)
    ensures OccursAt(a + pat + b, pat, |a|)
    ensures Contains(a + pat + b, pat)
  {
    assert (a + pat + b)[|a|..|a| + |pat|] == pat;
    assert OccursAt(a + pat + b, pat, |a|);
  }

  /** A pattern whose first element never occurs is not found. */
  lemma FindAbsent<T>(s: seq<T>, pat: seq<T>)
    requires |pat| > 0 && pat[0] !in s
    ensures Find(s, pat) == -1
  {
    forall i | 0 <= i <= |s| ensures !OccursAt(s, pat, i) {
      if i + |pat| <= |s| {
        assert s[i..i + |pat|][0] == s[i];
      }
    }
  }

  /** `find` is the first occurrence: any occurrence with none before it. */
  lemma FindIs<T>(s: seq<T>, pat: seq<T>, k: int)
    requires OccursAt(s, pat, k)
    requires forall i :: 0 <= i < k ==> !OccursAt(s, pat, i)
    ensures Find(s, pat) == k
  {
  }

  /** `s.split("\r\n")[0]`: everything before the first line break. */
  function FirstLine(s: string): (line: string)
    ensures StartsWith(s, line)
    ensures !Contains(line, "\r\n")
    ensures line == s || StartsWith(s, line + "\r\n")
  {
    var k := Find(s, "\r\n");
    if k < 0 then s
    else
      assert !Contains(s[..k], "\r\n") by {
        forall i | 0 <= i <= k && OccursAt(s[..k], "\r\n", i) ensures false {
          assert s[..k][i..i + 2] == s[i..i + 2];
          assert OccursAt(s, "\r\n", i);
        }
      }
      assert s[..k + 2] == s[..k] + "\r\n";
      s[..k]
  }

  /** A line free of carriage returns, followed by a line break, is the
      first line of the text. */
  lemma FirstLineOf(line: string, rest: string)
    requires '\r' !in line
    ensures FirstLine(line + "\r\n" + rest) == line
  {
    var s := line + "\r\n" + rest;
    ContainsMiddle(line, "\r\n", rest);
    forall i | 0 <= i < |line| ensures !OccursAt(s, "\r\n", i) {
      assert s[i] == line[i];
    }
    FindIs(s, "\r\n", |line|);
    assert s[..|line|] == line;
  }

  /** Neither of the two terminator elements occurs in `s`. */
  predicate NoneOf<T(==)>(s: seq<T>, cr: T, lf: T) {
    forall i :: 0 <= i < |s| ==> s[i] != cr && s[i] != lf
  }

  /** Non-empty lines joined by `cr lf` hold no blank line: the sequence
      `cr lf cr lf` does not start anywhere inside them, whatever follows. */
  lemma {:induction false} NoBlankLineWithin<T>(lines: seq<seq<T>>, cr: T, lf: T, tail: seq<T>, i: int)
    requires cr != lf
    requires forall k :: 0 <= k < |lines| ==> |lines[k]| > 0 && NoneOf(lines[k], cr, lf)
    requires 0 <= i < |Join(lines, [cr, lf])|
    ensures !OccursAt(Join(lines, [cr, lf]) + tail, [cr, lf, cr, lf], i)
    decreases |lines|
  {
    var l0 := lines[0];
    var s := Join(lines, [cr, lf]) + tail;
    if |lines| == 1 {
      assert s[i] == l0[i];
    } else {
      var rest := Join(lines[1..], [cr, lf]);
      assert s == l0 + [cr, lf] + (rest + tail);
      if i < |l0| {
        assert s[i] == l0[i];
      } else if i == |l0| {
        assert |rest| > 0 && rest[0] == lines[1][0];
        assert s[i + 2] == lines[1][0];
      } else if i == |l0| + 1 {
        assert s[i] == lf;
      } else {
        var j := i - |l0| - 2;
        NoBlankLineWithin(lines[1..], cr, lf, tail, j);
        assert i + 4 <= |s| ==> s[i..i + 4] == (rest + tail)[j..j + 4];
      }
    }
  }

  /** The first blank line after non-empty lines is the one that ends them. */
  lemma FindBlankLine<T>(lines: seq<seq<T>>, cr: T, lf: T, tail: seq<T>)
    requires cr != lf && |lines| >= 1
    requires forall k :: 0 <= k < |lines| ==> |lines[k]| > 0 && NoneOf(lines[k], cr, lf)
    ensures Find(Join(lines, [cr, lf]) + [cr, lf, cr, lf] + tail, [cr, lf, cr, lf]) == |Join(lines, [cr, lf])|
  {
    var j := Join(lines, [cr, lf]);
    var s := j + [cr, lf, cr, lf] + tail;
    assert s == j + ([cr, lf, cr, lf] + tail);
    forall i | 0 <= i < |j| ensures !OccursAt(s, [cr, lf, cr, lf], i) {
      NoBlankLineWithin(lines, cr, lf, [cr, lf, cr, lf] + tail, i);
    }
    assert s[|j|..|j| + 4] == [cr, lf, cr, lf];
    FindIs(s, [cr, lf, cr, lf], |j|);
  }

  // ---------------------------------------------------------------------
  // Whitespace splitting (`str.split()` with no argument)
  // ---------------------------------------------------------------------

  /** The characters Python's `str.split()` treats as whitespace. */
  predicate IsSpace(c: char) {
    || ('\t' <= c <= '\r')
    || ('\U{1C}' <= c <= '\U{1F}')
    || c == ' ' || c == '\U{85}' || c == '\U{A0}' || c == '\U{1680}'
    || ('\U{2000}' <= c <= '\U{200A}')
    || c == '\U{2028}' || c == '\U{2029}' || c == '\U{202F}'
    || c == '\U{205F}' || c == '\U{3000}'
  }

  predicate NoSpace(s: string) {
    forall i :: 0 <= i < |s| ==> !IsSpace(s[i])
  }

  lemma NoSpaceAppend(a: string, b: string)
    requires NoSpace(a) && NoSpace(b)
    ensures NoSpace(a + b)
  {
    forall i | 0 <= i < |a + b| ensures !IsSpace((a + b)[i]) {
      if i >= |a| {
        assert (a + b)[i] == b[i - |a|];
      }
    }
  }

  /** Length of the run of non-whitespace characters `s` starts with. */
  function TokenLength(s: string): (n: nat)
    ensures n <= |s|
    ensures NoSpace(s[..n])
    ensures n < |s| ==> IsSpace(s[n])
    decreases |s|
  {
    if |s| == 0 || IsSpace(s[0]) then 0
    else
      var k := TokenLength(s[1..]);
      assert s[..1 + k] == [s[0]] + s[1..][..k];
      1 + k
  }

  /** Python's `s.split()`: the maximal runs of non-whitespace, in order. */
  function SplitWs(s: string): (tokens: seq<string>)
    ensures forall i :: 0 <= i < |tokens| ==> |tokens[i]| > 0 && NoSpace(tokens[i])
    decreases |s|
  {
    if |s| == 0 then []
    else if IsSpace(s[0]) then SplitWs(s[1..])
    else
      var n := TokenLength(s);
      [s[..n]] + SplitWs(s[n..])
  }

  lemma {:induction false} TokenLengthOfToken(a: string, rest: string)
    requires NoSpace(a)
    requires |rest| == 0 || IsSpace(rest[0])
    ensures TokenLength(a + rest) == |a|
    decreases |a|
  {
    if |a| > 0 {
      assert (a + rest)[1..] == a[1..] + rest;
      TokenLengthOfToken(a[1..], rest);
    } else {
      assert a + rest == rest;
    }
  }

  /** A leading token followed by whitespace splits off as the first token. */
  lemma SplitWsToken(a: string, rest: string)
    requires |a| > 0 && NoSpace(a)
    requires |rest| == 0 || IsSpace(rest[0])
    ensures SplitWs(a + rest) == [a] + SplitWs(rest)
  {
    TokenLengthOfToken(a, rest);
    assert (a + rest)[..|a|] == a;
    assert (a + rest)[|a|..] == rest;
  }

  /** Whitespace splitting undoes joining non-empty tokens with one space. */
  lemma {:induction false} SplitWsJoin(tokens: seq<string>)
    requires forall i :: 0 <= i < |tokens| ==> |tokens[i]| > 0 && NoSpace(tokens[i])
    ensures SplitWs(Join(tokens, " ")) == tokens
    decreases |tokens|
  {
    if |tokens| == 1 {
      SplitWsToken(tokens[0], "");
      assert tokens[0] + "" == tokens[0];
    } else if |tokens| > 1 {
      var rest := Join(tokens[1..], " ");
      SplitWsJoin(tokens[1..]);
      assert Join(tokens, " ") == tokens[0] + (" " + rest);
      SplitWsToken(tokens[0], " " + rest);
      assert (" " + rest)[1..] == rest;
    }
  }

  predicate AllSpace(s: string) {
    forall i :: 0 <= i < |s| ==> IsSpace(s[i])
  }

  /** `gaps[0] + tokens[0] + gaps[1] + ... + tokens[n - 1] + gaps[n]`. */
  function Weave(gaps: seq<string>, tokens: seq<string>): string
    requires |gaps| == |tokens| + 1
    decreases |tokens|
  {
    if |tokens| == 0 then gaps[0] else gaps[0] + tokens[0] + Weave(gaps[1..], tokens[1..])
  }

  /** `gaps` lay out `tokens` as whitespace-separated words: every gap is
      whitespace, a gap between two tokens is not empty, and every token is
      a non-empty run without whitespace.  The text `Weave(gaps, tokens)`
      then has `tokens` as its maximal runs of non-whitespace: each token is
      preceded and followed by whitespace or by an end of the text. */
  predicate Separates(gaps: seq<string>, tokens: seq<string>) {
    && |gaps| == |tokens| + 1
    && (forall i :: 0 <= i < |gaps| ==> AllSpace(gaps[i]))
    && (forall i :: 0 < i < |tokens| ==> |gaps[i]| > 0)
    && (forall i :: 0 <= i < |tokens| ==> |tokens[i]| > 0 && NoSpace(tokens[i]))
  }

  /** Leading whitespace does not change the words. */
  lemma {:induction false} SplitWsSpaces(g: string, x: string)
    requires AllSpace(g)
    ensures SplitWs(g + x) == SplitWs(x)
    decreases |g|
  {
    if |g| > 0 {
      assert (g + x)[1..] == g[1..] + x;
      SplitWsSpaces(g[1..], x);
    } else {
      assert g + x == x;
    }
  }

  /** Any text laid out as whitespace-separated tokens splits into exactly
      those tokens. */
  lemma {:induction false} SplitWsOfWeave(gaps: seq<string>, tokens: seq<string>)
    requires Separates(gaps, tokens)
    ensures SplitWs(Weave(gaps, tokens)) == tokens
    decreases |tokens|
  {
    if |tokens| == 0 {
      SplitWsSpaces(gaps[0], "");
      assert gaps[0] + "" == gaps[0];
    } else {
      var rest := Weave(gaps[1..], tokens[1..]);
      SeparatesRest(gaps, tokens);
      WeaveRest(gaps, tokens);
      SplitWsOfWeave(gaps[1..], tokens[1..]);
      SplitWsSpaces(gaps[0], tokens[0] + rest);
      SplitWsToken(tokens[0], rest);
    }
  }

  /** Past the first gap and token, a layout is again a layout. */
  lemma SeparatesRest(gaps: seq<string>, tokens: seq<string>)
    requires Separates(gaps, tokens) && |tokens| > 0
    ensures Separates(gaps[1..], tokens[1..])
  {
    var gaps', tokens' := gaps[1..], tokens[1..];
    assert forall i :: 0 <= i < |gaps'| ==> gaps'[i] == gaps[i + 1];
    assert forall i :: 0 <= i < |tokens'| ==> tokens'[i] == tokens[i + 1];
  }

  /** The rest of a layout past its first gap and token starts with
      whitespace unless it is empty. */
  lemma WeaveRest(gaps: seq<string>, tokens: seq<string>)
    requires Separates(gaps, tokens) && |tokens| > 0
    ensures Weave(gaps, tokens) == gaps[0] + (tokens[0] + Weave(gaps[1..], tokens[1..]))
    ensures var rest := Weave(gaps[1..], tokens[1..]); |rest| == 0 || IsSpace(rest[0])
  {
    var g1 := gaps[1];
    assert AllSpace(g1);
    if |tokens| > 1 {
      assert |g1| > 0 && |tokens[1]| > 0;
      WeaveFirst(gaps[1..], tokens[1..]);
    } else {
      assert Weave(gaps[1..], tokens[1..]) == g1;
    }
  }

  /** Extra whitespace in front of the first gap lands in the first gap. */
  lemma WeaveLead(c: string, gaps: seq<string>, tokens: seq<string>)
    requires |gaps| == |tokens| + 1
    ensures Weave([c + gaps[0]] + gaps[1..], tokens) == c + Weave(gaps, tokens)
  {
    var g := [c + gaps[0]] + gaps[1..];
    if |tokens| > 0 {
      assert g[1..] == gaps[1..];
    }
  }

  /** The first character of a layout with at least one token. */
  lemma WeaveFirst(gaps: seq<string>, tokens: seq<string>)
    requires |gaps| == |tokens| + 1 && |tokens| > 0 && |tokens[0]| > 0
    ensures |Weave(gaps, tokens)| > 0
    ensures Weave(gaps, tokens)[0] == if |gaps[0]| > 0 then gaps[0][0] else tokens[0][0]
  {
    assert Weave(gaps, tokens) == gaps[0] + (tokens[0] + Weave(gaps[1..], tokens[1..]));
  }

  /** A leading whitespace character joins the first gap. */
  lemma WovenSpace(c: char, rest: string, g: seq<string>, tokens: seq<string>, text: string)
    requires IsSpace(c) && Separates(g, tokens) && Weave(g, tokens) == rest
    requires text == [c] + rest
    ensures Separates([[c] + g[0]] + g[1..], tokens)
    ensures Weave([[c] + g[0]] + g[1..], tokens) == text
  {
    var g' := [[c] + g[0]] + g[1..];
    WeaveLead([c], g, tokens);
    assert forall i :: 0 < i < |g'| ==> g'[i] == g[i];
    assert forall i :: 0 < i < |g'[0]| ==> g'[0][i] == g[0][i - 1];
  }

  /** A leading word followed by whitespace or nothing becomes the first
      token, after an empty first gap. */
  lemma WovenToken(w: string, rest: string, g: seq<string>, tokens: seq<string>, all: seq<string>, text: string)
    requires |w| > 0 && NoSpace(w) && (|rest| == 0 || IsSpace(rest[0]))
    requires Separates(g, tokens) && Weave(g, tokens) == rest
    requires all == [w] + tokens && text == w + rest
    ensures Separates([""] + g, all)
    ensures Weave([""] + g, all) == text
  {
    var g' := [""] + g;
    assert g'[1..] == g && all[1..] == tokens;
    assert forall i :: 0 < i < |g'| ==> g'[i] == g[i - 1];
    assert forall i :: 0 < i < |all| ==> all[i] == tokens[i - 1];
    if |tokens| > 0 {
      WeaveFirst(g, tokens);
    }
  }

  /** Every text is its words laid out with whitespace between them: the
      words `SplitWs` returns are the text's maximal runs of non-whitespace,
      in order, and nothing else is dropped but whitespace. */
  lemma {:induction false} SplitWsWoven(s: string)
    ensures exists gaps :: Separates(gaps, SplitWs(s)) && Weave(gaps, SplitWs(s)) == s
    decreases |s|
  {
    if |s| == 0 {
      assert Separates([""], SplitWs(s)) && Weave([""], SplitWs(s)) == s;
    } else if IsSpace(s[0]) {
      SplitWsWoven(s[1..]);
      var g :| Separates(g, SplitWs(s[1..])) && Weave(g, SplitWs(s[1..])) == s[1..];
      WovenSpaceStep(s, g);
    } else {
      var rest := s[TokenLength(s)..];
      SplitWsWoven(rest);
      var g :| Separates(g, SplitWs(rest)) && Weave(g, SplitWs(rest)) == rest;
      WovenTokenStep(s, g);
    }
  }

  lemma WovenSpaceStep(s: string, g: seq<string>)
    requires |s| > 0 && IsSpace(s[0])
    requires Separates(g, SplitWs(s[1..])) && Weave(g, SplitWs(s[1..])) == s[1..]
    ensures Separates([[s[0]] + g[0]] + g[1..], SplitWs(s))
    ensures Weave([[s[0]] + g[0]] + g[1..], SplitWs(s)) == s
  {
    var rest := s[1..];
    assert SplitWs(s) == SplitWs(rest);
    assert [s[0]] + rest == s;
    WovenSpace(s[0], rest, g, SplitWs(s), s);
  }

  lemma WovenTokenStep(s: string, g: seq<string>)
    requires |s| > 0 && !IsSpace(s[0])
    requires Separates(g, SplitWs(s[TokenLength(s)..]))
    requires Weave(g, SplitWs(s[TokenLength(s)..])) == s[TokenLength(s)..]
    ensures Separates([""] + g, SplitWs(s))
    ensures Weave([""] + g, SplitWs(s)) == s
  {
    var n := TokenLength(s);
    var rest := s[n..];
    SplitWsWord(s);
    WovenToken(s[..n], rest, g, SplitWs(rest), SplitWs(s), s);
  }

  /** A text that starts with a word splits into that word and the rest. */
  lemma SplitWsWord(s: string)
    requires |s| > 0 && !IsSpace(s[0])
    ensures 0 < TokenLength(s) <= |s|
    ensures TokenLength(s) < |s| ==> IsSpace(s[TokenLength(s)])
    ensures SplitWs(s) == [s[..TokenLength(s)]] + SplitWs(s[TokenLength(s)..])
    ensures s[..TokenLength(s)] + s[TokenLength(s)..] == s
  {
  }

  // ---------------------------------------------------------------------
  // Decimal numerals: `str(n)` and `int(s)`
  // ---------------------------------------------------------------------

  predicate IsDigit(c: char) {
    '0' <= c <= '9'
  }

  predicate AllDigits(s: string) {
    forall i :: 0 <= i < |s| ==> IsDigit(s[i])
  }

  function DigitChar(d: nat): (c: char)
    requires d < 10
    ensures IsDigit(c) && c as int - '0' as int == d
  {
    ('0' as int + d) as char
  }

  /** The value of a string of decimal digits, most significant first. */
  function DigitsValue(s: string): nat
    requires AllDigits(s)
  {
    if |s| == 0 then 0
    else DigitsValue(s[..|s| - 1]) * 10 + (s[|s| - 1] as int - '0' as int)
  }

  /** Python's `str(n)` for a non-negative integer: digits only, no leading
      zero, and reading the digits back gives `n`. */
  function NatToString(n: nat): (s: string)
    ensures |s| >= 1 && AllDigits(s)
    ensures |s| > 1 ==> s[0] != '0'
    ensures DigitsValue(s) == n
  {
    if n < 10 then [DigitChar(n)]
    else
      var hi := NatToString(n / 10);
      var s := hi + [DigitChar(n % 10)];
      assert s[..|s| - 1] == hi;
      s
  }

  /** Characters `int()` accepts in its digit body. */
  predicate IsDigitOrUnderscore(c: char) {
    IsDigit(c) || c == '_'
  }

  /** The digit body `int()` accepts: digits with single underscores between
      them. */
  predicate WellFormedDigits(s: string) {
    && |s| >= 1
    && IsDigit(s[0]) && IsDigit(s[|s| - 1])
    && (forall i :: 0 <= i < |s| ==> IsDigitOrUnderscore(s[i]))
    && (forall i :: 0 <= i < |s| - 1 ==> !(s[i] == '_' && s[i + 1] == '_'))
  }

  function DropUnderscores(s: string): (r: string)
    requires forall i :: 0 <= i < |s| ==> IsDigitOrUnderscore(s[i])
    ensures AllDigits(r)
    ensures AllDigits(s) ==> r == s
  {
    if |s| == 0 then []
    else if s[0] == '_' then DropUnderscores(s[1..])
    else
      assert IsDigitOrUnderscore(s[0]);
      [s[0]] + DropUnderscores(s[1..])
  }

  function LStripWs(s: string): (r: string)
    ensures |r| == 0 || !IsSpace(r[0])
    ensures |r| <= |s| && r == s[|s| - |r|..]
  {
    if |s| > 0 && IsSpace(s[0]) then LStripWs(s[1..]) else s
  }

  function RStripWs(s: string): (r: string)
    ensures |r| == 0 || !IsSpace(r[|r| - 1])
    ensures |r| <= |s| && r == s[..|r|]
  {
    if |s| > 0 && IsSpace(s[|s| - 1]) then RStripWs(s[..|s| - 1]) else s
  }

  /** Python's `int(s)` in base 10 on ASCII digits: surrounding whitespace,
      an optional sign, and digits with single underscores between them;
      `None` where Python raises `ValueError`. */
  function ParseInt(s: string): (r: Option<int>)
    ensures r.Some? ==> exists i :: 0 <= i < |s| && IsDigit(s[i])
  {
    var t := RStripWs(LStripWs(s));
    var r := ParseSigned(t);
    if r.Some? then
      ghost var k := |s| - |LStripWs(s)| + |t| - 1;
      assert s[k] == t[|t| - 1];
      r
    else r
  }

  /** `int()` once the whitespace is gone: the sign, then the digit body. */
  function ParseSigned(t: string): (r: Option<int>)
    ensures r.Some? ==> |t| >= 1 && IsDigit(t[|t| - 1])
  {
    var body := if |t| > 0 && (t[0] == '-' || t[0] == '+') then t[1..] else t;
    if WellFormedDigits(body) then
      var v := DigitsValue(DropUnderscores(body));
      Some(if |t| > 0 && t[0] == '-' then -(v as int) else v)
    else None
  }

  /** `int(str(n)) == n`. */
  lemma ParseIntNatToString(n: nat)
    ensures ParseInt(NatToString(n)) == Some(n)
  {
    ParseIntDigits(NatToString(n));
  }

  /** A non-empty run of digits parses to its value. */
  lemma ParseIntDigits(s: string)
    requires |s| >= 1 && AllDigits(s)
    ensures ParseInt(s) == Some(DigitsValue(s))
  {
    DigitsUnstripped(s);
    ParseSignedDigits(s);
  }

  lemma ParseSignedDigits(s: string)
    requires |s| >= 1 && AllDigits(s)
    ensures ParseSigned(s) == Some(DigitsValue(s))
  {
    assert !(s[0] == '-' || s[0] == '+');
    DigitsWellFormed(s);
    assert DropUnderscores(s) == s;
  }

  lemma DigitsUnstripped(s: string)
    requires |s| >= 1 && AllDigits(s)
    ensures RStripWs(LStripWs(s)) == s
  {
    assert !IsSpace(s[0]);
    assert LStripWs(s) == s;
    assert !IsSpace(s[|s| - 1]);
  }

  lemma DigitsWellFormed(s: string)
    requires |s| >= 1 && AllDigits(s)
    ensures WellFormedDigits(s)
  {
    forall i | 0 <= i < |s|
      ensures IsDigitOrUnderscore(s[i])
    {
      assert IsDigit(s[i]);
    }
  }

  // ---------------------------------------------------------------------
  // rstrip and lower
  // ---------------------------------------------------------------------

  /** `n` copies of `c`. */
  function Repeat<T>(c: T, n: nat): (r: seq<T>)
    ensures |r| == n && forall i :: 0 <= i < n ==> r[i] == c
  {
    if n == 0 then [] else [c] + Repeat(c, n - 1)
  }

  /** Python's `s.rstrip(c)` for one character. */
  function RStrip<T(==)>(s: seq<T>, c: T): (r: seq<T>)
    ensures |r| <= |s| && r == s[..|r|]
    ensures |r| == 0 || r[|r| - 1] != c
    ensures forall i :: |r| <= i < |s| ==> s[i] == c
  {
    if |s| > 0 && s[|s| - 1] == c then RStrip(s[..|s| - 1], c) else s
  }

  function AsciiLowerChar(c: char): char {
    if 'A' <= c <= 'Z' then (c as int + 32) as char else c
  }

  /** `str.lower()` restricted to the ASCII letters. */
  function AsciiLower(s: string): (r: string)
    ensures |r| == |s|
    ensures forall i :: 0 <= i < |s| ==> r[i] == AsciiLowerChar(s[i])
  {
    if |s| == 0 then [] else [AsciiLowerChar(s[0])] + AsciiLower(s[1..])
  }
}
