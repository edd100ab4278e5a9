/** POSIX path handling as both servers use it: `os.path.join`,
    `os.path.normpath` and `os.path.relpath` on strings, and the traversal
    guard that maps a request target to a path under the served root.

    The root is `os.path.abspath(directory)`: an absolute, normalised path,
    modelled as the list of its names.  The guard as the servers write it
    compares STRINGS (`full_path.startswith(self.directory)`), which admits a
    sibling of the root whose name extends the root's last name; `Resolve`
    models that guard and `GuardAdmits` characterises exactly what it lets
    through, while `ResolveContained` is the containment check the guard is
    evidently meant to be. */
module Paths {
  import opened Text

  /** A component that names a child entry: non-empty, no separator, and
      neither `.` nor `..`. */
  predicate IsName(c: string) {
    |c| > 0 && '/' !in c && c != "." && c != ".."
  }

  predicate AllNames(segs: seq<string>) {
    forall i :: 0 <= i < |segs| ==> IsName(segs[i])
  }

  /** The absolute path that names `segs` below `/`. */
  function Render(segs: seq<string>): string {
    "/" + Join(segs, "/")
  }

  /** `segs` starts with `root`: the path is the root or lies below it. */
  predicate IsPrefix(root: seq<string>, segs: seq<string>) {
    |root| <= |segs| && segs[..|root|] == root
  }

  /** `os.path.join(a, b)` on POSIX. */
  function PathJoin(a: string, b: string): (r: string)
    ensures StartsWith(a, "/") ==> StartsWith(r, "/")
    ensures StartsWith(b, "/") ==> r == b
  {
    if StartsWith(b, "/") then b
    else if a == "" || EndsWith(a, "/") then a + b
    else a + "/" + b
  }

  /** The component loop of `normpath`: skip empty and `.` components, let
      `..` remove the previous name (or vanish at the top of an absolute
      path), keep everything else. */
  function Collapse(comps: seq<string>, absolute: bool, acc: seq<string>): (r: seq<string>)
    ensures absolute && AllNames(acc) && (forall i :: 0 <= i < |comps| ==> '/' !in comps[i])
            ==> AllNames(r)
    decreases |comps|
  {
    if |comps| == 0 then acc
    else
      var c := comps[0];
      var next :=
        if c == "" || c == "." then acc
        else if c != ".." || (!absolute && |acc| == 0) || (|acc| > 0 && acc[|acc| - 1] == "..") then acc + [c]
        else if |acc| > 0 then acc[..|acc| - 1]
        else acc;
      Collapse(comps[1..], absolute, next)
  }

  /** POSIX keeps exactly two leading slashes and folds three or more to one. */
  function LeadingSlashes(p: string): nat {
    if StartsWith(p, "//") && !StartsWith(p, "///") then 2
    else if StartsWith(p, "/") then 1
    else 0
  }

  /** `os.path.normpath(p)` on POSIX. */
  function NormPath(p: string): (r: string)
    ensures |r| > 0
    ensures StartsWith(p, "/") ==> StartsWith(r, "/")
  {
    if p == "" then "."
    else
      var n := LeadingSlashes(p);
      var prefix := if n == 2 then "//" else if n == 1 then "/" else "";
      var r := prefix + Join(Collapse(Split(p, '/'), n > 0, []), "/");
      if r == "" then "." else r
  }

  /** The names of an absolute path after normalisation. */
  function Segments(p: string): (segs: seq<string>)
    ensures AllNames(segs)
  {
    Collapse(Split(p, '/'), true, [])
  }

  /** Walking `path`'s components from `root`: the names a relative target
      denotes once joined to the root and normalised. */
  function Walk(root: seq<string>, path: string): (w: seq<string>)
    requires AllNames(root)
    ensures AllNames(w)
  {
    Collapse(Split(path, '/'), true, root)
  }

  /** `[x for x in parts if x]`. */
  function NonEmpty(parts: seq<string>): (r: seq<string>)
    ensures forall i :: 0 <= i < |r| ==> |r[i]| > 0
    ensures |r| <= |parts|
  {
    if |parts| == 0 then []
    else if parts[0] == "" then NonEmpty(parts[1..])
    else [parts[0]] + NonEmpty(parts[1..])
  }

  /** Length of the longest common prefix (`os.path.commonprefix` on lists). */
  function CommonPrefixLength(a: seq<string>, b: seq<string>): (n: nat)
    ensures n <= |a| && n <= |b| && a[..n] == b[..n]
    ensures n < |a| && n < |b| ==> a[n] != b[n]
  {
    if |a| == 0 || |b| == 0 || a[0] != b[0] then 0
    else
      var k := CommonPrefixLength(a[1..], b[1..]);
      assert a[..k + 1] == [a[0]] + a[1..][..k];
      assert b[..k + 1] == [b[0]] + b[1..][..k];
      k + 1
  }

  /** The names leading from the directory `s` to the path `p`: climb out of
      what they do not share, then descend. */
  function RelNames(s: seq<string>, p: seq<string>): seq<string> {
    var i := CommonPrefixLength(s, p);
    Repeat("..", |s| - i) + p[i..]
  }

  /** `os.path.relpath(path, start)` for absolute arguments (both callers
      pass absolute paths, so `abspath` is `normpath` here). */
  function RelPath(path: string, start: string): string
    requires StartsWith(path, "/") && StartsWith(start, "/")
  {
    var rel := RelNames(NonEmpty(Split(NormPath(start), '/')), NonEmpty(Split(NormPath(path), '/')));
    if |rel| == 0 then "." else Join(rel, "/")
  }

  /** The handlers strip at most one leading `/` from the decoded target. */
  function StripSlash(path: string): (p: string)
    ensures StartsWith(path, "/") ==> "/" + p == path
    ensures !StartsWith(path, "/") ==> p == path
  {
    if StartsWith(path, "/") then path[1..] else path
  }

  datatype Resolution = Forbidden | Allowed(full: string)

  /** The guard as both servers write it: join the stripped target to the
      root, normalise, answer 403 unless the result starts with the root
      STRING, and serve the root itself for an empty target. */
  function Resolve(root: seq<string>, path: string): (r: Resolution)
    requires AllNames(root)
    ensures r.Allowed? ==> StartsWith(r.full, Render(root))
    ensures path == "" ==> r == Allowed(Render(root))
  {
    var rootPath := Render(root);
    var full := NormPath(PathJoin(rootPath, path));
    assert path == "" ==> full == rootPath by {
      if path == "" {
        ResolveEmpty(root);
      }
    }
    if !StartsWith(full, rootPath) then Forbidden
    else if path == "" then Allowed(rootPath)
    else Allowed(full)
  }

  /** What the string guard accepts, stated on names: everything up to the
      root's last name agrees, and the next name merely STARTS WITH the
      root's last name. */
  predicate GuardAdmits(root: seq<string>, segs: seq<string>) {
    |root| == 0
    || (&& |segs| >= |root|
        && segs[..|root| - 1] == root[..|root| - 1]
        && StartsWith(segs[|root| - 1], root[|root| - 1]))
  }

  /** The containment check the guard is meant to perform: admit the root
      and what lies below it, nothing else. */
  function ResolveContained(root: seq<string>, path: string): (r: Resolution)
    requires AllNames(root)
    ensures r.Allowed? ==> exists rest :: AllNames(rest) && r.full == Render(root + rest)
    ensures path == "" ==> r == Allowed(Render(root))
  {
    var segs := Segments(PathJoin(Render(root), path));
    assert path == "" ==> IsPrefix(root, segs) by {
      if path == "" {
        ResolveEmptyContained(root, path);
      }
    }
    if !IsPrefix(root, segs) then Forbidden
    else
      assert root + [] == root;
      PrefixIsBelow(root, segs);
      if path == "" then Allowed(Render(root)) else Allowed(Render(segs))
  }

  // ---------------------------------------------------------------------
  // Lemmas
  // ---------------------------------------------------------------------

  /** Names that extend the root render as a path below the root. */
  lemma PrefixIsBelow(root: seq<string>, segs: seq<string>)
    requires IsPrefix(root, segs) && AllNames(segs)
    ensures exists rest :: AllNames(rest) && Render(segs) == Render(root + rest)
  {
    var rest := segs[|root|..];
    assert segs == root + rest;
    assert AllNames(rest) by {
      forall i | 0 <= i < |rest| ensures IsName(rest[i]) {
        assert rest[i] == segs[|root| + i];
      }
    }
  }

  /** Splitting a rendered path gives an empty head and then the names. */
  lemma SplitRender(segs: seq<string>)
    requires AllNames(segs)
    ensures Split(Render(segs), '/') == [""] + (if |segs| == 0 then [""] else segs)
  {
    assert Render(segs) == [] + ['/'] + Join(segs, "/");
    SplitAround([], '/', Join(segs, "/"));
    if |segs| > 0 {
      SplitJoin(segs, '/');
    }
  }

  /** Names pass through the component loop unchanged. */
  lemma {:induction false} CollapseNames(names: seq<string>, rest: seq<string>, acc: seq<string>)
    requires AllNames(names)
    ensures Collapse(names + rest, true, acc) == Collapse(rest, true, acc + names)
    decreases |names|
  {
    if |names| == 0 {
      EmptyAppend(names, rest);
      assert acc + names == acc;
    } else {
      var x, tail := names[0], names[1..];
      var all := names + rest;
      HeadOfAppend(names, rest);
      CollapseName(all, acc);
      assert AllNames(tail) by {
        assert forall i :: 0 <= i < |tail| ==> tail[i] == names[i + 1];
      }
      CollapseNames(tail, rest, acc + [x]);
      assert acc + [x] + tail == acc + names by {
        assert names == [x] + tail;
      }
    }
  }

  lemma HeadOfAppend(a: seq<string>, b: seq<string>)
    requires |a| > 0
    ensures (a + b)[0] == a[0] && (a + b)[1..] == a[1..] + b
  {
  }

  /** A name is kept as it is. */
  lemma CollapseName(comps: seq<string>, acc: seq<string>)
    requires |comps| > 0 && IsName(comps[0])
    ensures Collapse(comps, true, acc) == Collapse(comps[1..], true, acc + [comps[0]])
  {
  }

  /** `normpath` of a path with one leading slash renders its names. */
  lemma NormPathAbsolute(p: string)
    requires LeadingSlashes(p) == 1
    ensures NormPath(p) == Render(Segments(p))
  {
  }

  lemma LeadingSlashesRender(segs: seq<string>)
    requires AllNames(segs)
    ensures LeadingSlashes(Render(segs)) == 1
  {
    var p := Render(segs);
    if |segs| > 0 {
      assert p[1] == segs[0][0];
    } else {
      assert p == "/";
    }
  }

  lemma SegmentsRender(segs: seq<string>)
    requires AllNames(segs)
    ensures Segments(Render(segs)) == segs
  {
    SplitRender(segs);
    var comps := Split(Render(segs), '/');
    assert comps[1..] == (if |segs| == 0 then [""] else segs);
    assert Collapse(comps, true, []) == Collapse(comps[1..], true, []);
    if |segs| > 0 {
      CollapseNames(segs, [], []);
      assert segs + [] == segs;
    } else {
      assert Collapse([""], true, []) == Collapse([], true, []);
    }
  }

  /** A rendered list of names is already normal. */
  lemma NormPathRender(segs: seq<string>)
    requires AllNames(segs)
    ensures NormPath(Render(segs)) == Render(segs)
    ensures Segments(Render(segs)) == segs
  {
    LeadingSlashesRender(segs);
    NormPathAbsolute(Render(segs));
    SegmentsRender(segs);
  }

  /** The last character of a non-root rendered path is not `/`. */
  lemma RenderNoTrailingSlash(root: seq<string>)
    requires AllNames(root) && |root| > 0
    ensures !EndsWith(Render(root), "/")
  {
    var last := root[|root| - 1];
    if |root| > 1 {
      JoinAppend(root[..|root| - 1], last, "/");
      assert root[..|root| - 1] + [last] == root;
    }
    assert Render(root)[|Render(root)| - 1] == last[|last| - 1];
  }

  /** `os.path.join(root, path)` for a relative `path`, split on `/`. */
  lemma SplitJoinedRelative(root: seq<string>, path: string)
    requires AllNames(root)
    requires !StartsWith(path, "/")
    ensures Split(PathJoin(Render(root), path), '/') == [""] + root + Split(path, '/')
    ensures LeadingSlashes(PathJoin(Render(root), path)) == 1
  {
    var joined := PathJoin(Render(root), path);
    if |root| == 0 {
      assert Render(root) == "/";
      assert joined == [] + ['/'] + path;
      SplitAround([], '/', path);
      assert Split([], '/') == [[]];
    } else {
      RenderNoTrailingSlash(root);
      assert joined == Render(root) + ['/'] + path;
      SplitAround(Render(root), '/', path);
      SplitRender(root);
      assert joined[1] == root[0][0];
    }
  }

  /** The joined and normalised path of a relative target is the walk from
      the root. */
  lemma JoinRelative(root: seq<string>, path: string)
    requires AllNames(root)
    requires !StartsWith(path, "/")
    ensures LeadingSlashes(PathJoin(Render(root), path)) == 1
    ensures Segments(PathJoin(Render(root), path)) == Walk(root, path)
    ensures NormPath(PathJoin(Render(root), path)) == Render(Walk(root, path))
  {
    var joined := PathJoin(Render(root), path);
    SplitJoinedRelative(root, path);
    var comps := [""] + root + Split(path, '/');
    assert comps[1..] == root + Split(path, '/');
    assert Collapse(comps, true, []) == Collapse(comps[1..], true, []);
    CollapseNames(root, Split(path, '/'), []);
    assert [] + root == root;
    NormPathAbsolute(joined);
  }

  lemma WalkEmpty(root: seq<string>)
    requires AllNames(root)
    ensures Walk(root, "") == root
  {
    assert Split("", '/') == [""];
    assert Collapse([""], true, root) == Collapse([], true, root);
  }

  lemma ResolveEmpty(root: seq<string>)
    requires AllNames(root)
    ensures NormPath(PathJoin(Render(root), "")) == Render(root)
  {
    JoinRelative(root, "");
    WalkEmpty(root);
  }

  lemma ResolveEmptyContained(root: seq<string>, path: string)
    requires AllNames(root)
    requires path == ""
    ensures IsPrefix(root, Segments(PathJoin(Render(root), path)))
  {
    JoinRelative(root, "");
    WalkEmpty(root);
  }

  /** How a joined path begins: its first name, then a `/` when more
      follow. */
  lemma JoinHead(parts: seq<string>)
    requires |parts| > 0
    ensures |parts| == 1 ==> Join(parts, "/") == parts[0]
    ensures |parts| > 1 ==> Join(parts, "/") == parts[0] + "/" + Join(parts[1..], "/")
    ensures StartsWith(Join(parts, "/"), parts[0])
    ensures |parts| > 1 ==> Join(parts, "/")[|parts[0]|] == '/'
  {
  }

  /** Joining one or more names gives a non-empty string. */
  lemma JoinNamesNonEmpty(parts: seq<string>)
    requires AllNames(parts) && |parts| > 0
    ensures |Join(parts, "/")| > 0
  {
    JoinHead(parts);
  }

  /** With a one-name root, the string test compares the first names. */
  lemma JoinPrefixSingle(root: seq<string>, segs: seq<string>)
    requires AllNames(root) && AllNames(segs) && |root| == 1 && |segs| > 0
    ensures StartsWith(Join(segs, "/"), Join(root, "/")) <==> GuardAdmits(root, segs)
  {
    var r0, s0 := root[0], segs[0];
    var js := Join(segs, "/");
    JoinHead(root);
    JoinHead(segs);
    assert |s0| > |r0| ==> js[|r0|] == s0[|r0|];
    if StartsWith(s0, r0) {
      assert js[..|r0|] == s0[..|r0|];
    }
    if StartsWith(js, r0) && |segs| > 1 {
      assert |s0| >= |r0|;
    }
  }

  /** Two `name/rest` strings, one a prefix of the other: the names are
      equal and the rests are prefixes too. */
  lemma PrefixThroughSlash(a: string, x: string, b: string, y: string)
    requires IsName(a) && IsName(b)
    requires StartsWith(a + "/" + x, b + "/" + y)
    ensures a == b && StartsWith(x, y)
  {
    var l, r := a + "/" + x, b + "/" + y;
    var m := if |a| <= |b| then |a| else |b|;
    SlashAt(a, x, m);
    SlashAt(b, y, m);
    assert l[..|r|] == r;
    assert l[m] == r[m];
    assert |a| == |b|;
    assert a == l[..|a|] == r[..|b|] == b;
    assert x[..|y|] == l[|a| + 1..|a| + 1 + |y|];
  }

  /** Up to the end of a name, the only separator after it is the one that
      follows it. */
  lemma SlashAt(a: string, x: string, i: nat)
    requires '/' !in a && i <= |a|
    ensures (a + "/" + x)[i] == '/' <==> i == |a|
  {
    if i < |a| {
      assert (a + "/" + x)[i] == a[i];
      assert a[i] in a;
    }
  }

  /** A name cannot start with a path of two or more names. */
  lemma NameNotPrefixed(a: string, b: string, y: string)
    requires IsName(a) && IsName(b)
    ensures !StartsWith(a, b + "/" + y)
  {
    if |b| < |a| {
      SlashAt(a, "", |b|);
      assert (a + "/")[|b|] == a[|b|];
    }
    assert (b + "/" + y)[|b|] == '/';
  }

  /** The string test on longer roots: the first names must be equal, and
      the rest is the same test one name down. */
  lemma JoinPrefixForward(root: seq<string>, segs: seq<string>)
    requires AllNames(root) && AllNames(segs) && |root| > 1 && |segs| > 0
    requires StartsWith(Join(segs, "/"), Join(root, "/"))
    ensures |segs| > 1 && segs[0] == root[0]
    ensures StartsWith(Join(segs[1..], "/"), Join(root[1..], "/"))
  {
    JoinHead(root);
    JoinHead(segs);
    if |segs| == 1 {
      NameNotPrefixed(segs[0], root[0], Join(root[1..], "/"));
    } else {
      PrefixThroughSlash(segs[0], Join(segs[1..], "/"), root[0], Join(root[1..], "/"));
    }
  }

  lemma JoinPrefixBackward(root: seq<string>, segs: seq<string>)
    requires AllNames(root) && AllNames(segs) && |root| > 1 && |segs| > 1
    requires segs[0] == root[0]
    requires StartsWith(Join(segs[1..], "/"), Join(root[1..], "/"))
    ensures StartsWith(Join(segs, "/"), Join(root, "/"))
  {
    var jst, jrt := Join(segs[1..], "/"), Join(root[1..], "/");
    JoinHead(root);
    JoinHead(segs);
    assert Join(segs, "/")[..|Join(root, "/")|] == segs[0] + "/" + jst[..|jrt|];
  }

  /** `GuardAdmits` one name down. */
  lemma GuardAdmitsCons(root: seq<string>, segs: seq<string>)
    requires |root| > 1 && |segs| > 0
    ensures GuardAdmits(root, segs) <==> segs[0] == root[0] && GuardAdmits(root[1..], segs[1..])
  {
    if GuardAdmits(root, segs) {
      assert segs[0] == segs[..|root| - 1][0] == root[..|root| - 1][0] == root[0];
      assert segs[1..][..|root| - 2] == segs[..|root| - 1][1..];
      assert root[1..][..|root| - 2] == root[..|root| - 1][1..];
    }
    if segs[0] == root[0] && GuardAdmits(root[1..], segs[1..]) {
      assert segs[..|root| - 1] == [segs[0]] + segs[1..][..|root| - 2];
      assert root[..|root| - 1] == [root[0]] + root[1..][..|root| - 2];
    }
  }

  /** The string prefix test on rendered names is exactly `GuardAdmits`. */
  lemma {:induction false} JoinPrefix(root: seq<string>, segs: seq<string>)
    requires AllNames(root) && AllNames(segs)
    ensures StartsWith(Join(segs, "/"), Join(root, "/")) <==> GuardAdmits(root, segs)
    decreases |root|
  {
    if |root| == 0 {
    } else if |segs| == 0 {
      JoinNamesNonEmpty(root);
    } else if |root| == 1 {
      JoinPrefixSingle(root, segs);
    } else {
      JoinPrefix(root[1..], segs[1..]);
      GuardAdmitsCons(root, segs);
      if StartsWith(Join(segs, "/"), Join(root, "/")) {
        JoinPrefixForward(root, segs);
      }
      if GuardAdmits(root, segs) {
        assert |segs| > 1;
        JoinPrefixBackward(root, segs);
      }
    }
  }

  /** The servers' guard on a relative target: 403 exactly when the walked
      names fail `GuardAdmits`; otherwise the target is served from the
      rendered walk (the root itself for an empty target). */
  lemma ResolveRelative(root: seq<string>, path: string)
    requires AllNames(root)
    requires !StartsWith(path, "/")
    ensures Resolve(root, path).Forbidden? <==> !GuardAdmits(root, Walk(root, path))
    ensures Resolve(root, path).Allowed? ==> Resolve(root, path).full == Render(Walk(root, path))
  {
    JoinRelative(root, path);
    JoinPrefix(root, Walk(root, path));
    if path == "" {
      WalkEmpty(root);
    }
  }

  /** Every true descendant of the root passes the servers' guard. */
  lemma DescendantAdmitted(root: seq<string>, path: string)
    requires AllNames(root)
    requires !StartsWith(path, "/")
    requires IsPrefix(root, Walk(root, path))
    ensures Resolve(root, path) == Allowed(Render(Walk(root, path)))
  {
    ResolveRelative(root, path);
    var w := Walk(root, path);
    if |root| > 0 {
      assert w[..|root| - 1] == w[..|root|][..|root| - 1];
      assert w[|root| - 1] == root[|root| - 1];
    }
  }

  /** A target made of names walks down from the root through exactly
      those names. */
  lemma WalkNames(root: seq<string>, below: seq<string>)
    requires AllNames(root) && AllNames(below) && |below| > 0
    ensures !StartsWith(Join(below, "/"), "/")
    ensures Walk(root, Join(below, "/")) == root + below
    ensures AllNames(root + below)
  {
    JoinHead(below);
    assert Join(below, "/")[0] == below[0][0];
    SplitJoin(below, '/');
    CollapseNames(below, [], root);
    assert below + [] == below;
  }

  /** `os.path.join` of a rendered directory and an entry name renders the
      entry's path. */
  lemma PathJoinRender(segs: seq<string>, name: string)
    requires AllNames(segs) && IsName(name)
    ensures PathJoin(Render(segs), name) == Render(segs + [name])
    ensures AllNames(segs + [name])
  {
    assert name[0] in name;
    assert !StartsWith(name, "/");
    if |segs| == 0 {
      PathJoinRenderTop(segs, name);
    } else {
      RenderNoTrailingSlash(segs);
      PathJoinRenderBelow(segs, name);
    }
    AllNamesAppend(segs, name);
  }

  lemma PathJoinRenderTop(segs: seq<string>, name: string)
    requires |segs| == 0
    ensures Render(segs) + name == Render(segs + [name])
  {
    assert Join(segs, "/") == [];
    assert segs + [name] == [name];
  }

  lemma PathJoinRenderBelow(segs: seq<string>, name: string)
    requires |segs| > 0
    ensures Render(segs) + "/" + name == Render(segs + [name])
  {
    var j := Join(segs, "/");
    JoinAppend(segs, name, "/");
    assert Render(segs + [name]) == "/" + (j + "/" + name);
    assert "/" + (j + "/" + name) == "/" + j + "/" + name;
  }

  lemma AllNamesAppend(segs: seq<string>, name: string)
    requires AllNames(segs) && IsName(name)
    ensures AllNames(segs + [name])
  {
    forall i | 0 <= i < |segs| + 1 ensures IsName((segs + [name])[i]) {
      if i < |segs| {
        assert (segs + [name])[i] == segs[i];
      }
    }
  }

  /** A target that climbs above the root is refused. */
  lemma EscapeAboveRootForbidden(root: seq<string>, path: string)
    requires AllNames(root)
    requires !StartsWith(path, "/")
    requires |Walk(root, path)| < |root|
    ensures Resolve(root, path) == Forbidden
  {
    ResolveRelative(root, path);
  }

  /** The corrected guard admits a relative target exactly when its walk
      stays at or below the root, and then agrees with the servers' guard. */
  lemma ContainedAgrees(root: seq<string>, path: string)
    requires AllNames(root)
    requires !StartsWith(path, "/")
    ensures ResolveContained(root, path).Forbidden? <==> !IsPrefix(root, Walk(root, path))
    ensures IsPrefix(root, Walk(root, path)) ==> ResolveContained(root, path) == Resolve(root, path)
  {
    JoinRelative(root, path);
    if IsPrefix(root, Walk(root, path)) {
      DescendantAdmitted(root, path);
    }
  }

  /** `../name` from a non-empty root replaces the root's last name. */
  lemma WalkSibling(root: seq<string>, name: string)
    requires AllNames(root) && |root| > 0
    requires IsName(name)
    ensures Walk(root, "../" + name) == root[..|root| - 1] + [name]
  {
    var path := "../" + name;
    assert path == ".." + ['/'] + name;
    SplitAround("..", '/', name);
    SplitNoSep("..", '/');
    SplitNoSep(name, '/');
    var comps := [".."] + [name];
    assert Split(path, '/') == comps;
    var up := root[..|root| - 1];
    assert Collapse(comps, true, root) == Collapse([name], true, up);
    assert Collapse([name], true, up) == Collapse([], true, up + [name]);
  }

  /** The flaw in the servers' guard: from a root `/.../b`, the target
      `../name` is admitted exactly when `name` starts with `b`, although it
      lies inside the root only when `name` IS `b`.  With root `/a/b` the
      sibling `/a/bc` is served. */
  lemma SiblingGuard(root: seq<string>, name: string)
    requires AllNames(root) && |root| > 0
    requires IsName(name)
    ensures Resolve(root, "../" + name).Allowed? <==> StartsWith(name, root[|root| - 1])
    ensures Resolve(root, "../" + name).Allowed?
            ==> Resolve(root, "../" + name).full == Render(root[..|root| - 1] + [name])
    ensures IsPrefix(root, Walk(root, "../" + name)) <==> name == root[|root| - 1]
  {
    WalkSibling(root, name);
    SiblingNames(root, name);
    ResolveRelative(root, "../" + name);
  }

  /** The names of a sibling: the string guard's test and the containment
      test on them. */
  lemma SiblingNames(root: seq<string>, name: string)
    requires |root| > 0
    ensures GuardAdmits(root, root[..|root| - 1] + [name]) <==> StartsWith(name, root[|root| - 1])
    ensures IsPrefix(root, root[..|root| - 1] + [name]) <==> name == root[|root| - 1]
  {
    var w := root[..|root| - 1] + [name];
    assert w[..|root| - 1] == root[..|root| - 1];
    assert w[|root| - 1] == name;
    if IsPrefix(root, w) {
      assert w[..|root|][|root| - 1] == root[|root| - 1];
    }
    if name == root[|root| - 1] {
      assert w == root;
    }
  }

  /** The corrected guard admits `../name` only when it names the root
      itself. */
  lemma SiblingContained(root: seq<string>, name: string)
    requires AllNames(root) && |root| > 0
    requires IsName(name)
    ensures ResolveContained(root, "../" + name).Allowed? <==> name == root[|root| - 1]
  {
    SiblingGuard(root, name);
    ContainedAgrees(root, "../" + name);
  }

  lemma {:induction false} CommonPrefixOfExtension(a: seq<string>, b: seq<string>)
    ensures CommonPrefixLength(a, a + b) == |a|
    decreases |a|
  {
    if |a| > 0 {
      assert (a + b)[0] == a[0];
      assert (a + b)[1..] == a[1..] + b;
      CommonPrefixOfExtension(a[1..], b);
    }
  }

  lemma RelNamesBelow(root: seq<string>, below: seq<string>)
    ensures RelNames(root, root + below) == below
  {
    CommonPrefixOfExtension(root, below);
    assert (root + below)[|root|..] == below;
  }

  lemma AllNamesPrefix(root: seq<string>, below: seq<string>)
    requires AllNames(root + below)
    ensures AllNames(root)
  {
    forall i | 0 <= i < |root| ensures IsName(root[i]) {
      assert root[i] == (root + below)[i];
    }
  }

  /** The hit-counter key of a path below the root is its names below the
      root joined by `/`, and `.` for the root itself. */
  lemma RelPathBelow(root: seq<string>, below: seq<string>)
    requires AllNames(root + below)
    ensures RelPath(Render(root + below), Render(root))
         == (if |below| == 0 then "." else Join(below, "/"))
  {
    AllNamesPrefix(root, below);
    NormPathRender(root);
    NormPathRender(root + below);
    NonEmptyRender(root);
    NonEmptyRender(root + below);
    RelNamesBelow(root, below);
  }

  lemma NonEmptyRender(segs: seq<string>)
    requires AllNames(segs)
    ensures NonEmpty(Split(Render(segs), '/')) == segs
  {
    SplitRender(segs);
    if |segs| > 0 {
      NonEmptyNames(segs);
    }
  }

  lemma {:induction false} NonEmptyNames(segs: seq<string>)
    requires AllNames(segs)
    ensures NonEmpty(segs) == segs
    decreases |segs|
  {
    if |segs| > 0 {
      NonEmptyNames(segs[1..]);
    }
  }
}
