/**
 Workspace member and exclude patterns, segment by segment (xtask/src/audit_scope.rs).
 */
module WorkspacePatterns {
  import opened Wrappers
  import opened Glob
  import opened Text

  predicate SegmentsMatch(patterns: seq<string>, names: seq<string>)
    requires |patterns| <= |names|
  {
    forall i | 0 <= i < |patterns| :: MatchesGlobSegment(patterns[i], names[i])
  }

  /** An exclude pattern also covers everything below what it matches. */
  predicate MatchesWorkspacePattern(pattern: string, path: string) {
    var patterns, names := Split(pattern, '/'), Split(path, '/');
    |patterns| <= |names| && SegmentsMatch(patterns, names)
  }

  /** A member pattern matches whole paths only. */
  predicate MatchesMemberPattern(pattern: string, path: string) {
    var patterns, names := Split(pattern, '/'), Split(path, '/');
    |patterns| == |names| && SegmentsMatch(patterns, names)
  }

  predicate ExcludedBy(pattern: string, path: string) {
    if ContainsGlob(pattern) then MatchesWorkspacePattern(pattern, path)
    else path == pattern || StartsWith(path, pattern + "/")
  }

  predicate Excluded(path: string, patterns: seq<string>) {
    exists i | 0 <= i < |patterns| :: ExcludedBy(patterns[i], path)
  }

  function NormalizeSegments(segments: seq<string>, kept: seq<string>): seq<string> {
    if segments == [] then kept
    else if segments[0] == "" || segments[0] == "." then NormalizeSegments(segments[1..], kept)
    else if segments[0] == ".." then
      NormalizeSegments(segments[1..], if kept == [] then [] else kept[..|kept| - 1])
    else NormalizeSegments(segments[1..], kept + [segments[0]])
  }

  function NormalizedSegments(pattern: string): seq<string> {
    NormalizeSegments(Split(pattern, '/'), [])
  }

  function NormalizePattern(pattern: string): string {
    Join(NormalizedSegments(pattern), "/")
  }

  predicate PlainSegment(s: string) { s != "" && s != "." && s != ".." && '/' !in s }

  lemma {:induction false} NormalizedArePlain(segments: seq<string>, kept: seq<string>)
    requires forall s | s in segments :: '/' !in s
    requires forall s | s in kept :: PlainSegment(s)
    ensures forall s | s in NormalizeSegments(segments, kept) :: PlainSegment(s)
  {
    if segments != [] {
      assert segments[0] in segments;
      if segments[0] == "" || segments[0] == "." {
        NormalizedArePlain(segments[1..], kept);
      } else if segments[0] == ".." {
        NormalizedArePlain(segments[1..], if kept == [] then [] else kept[..|kept| - 1]);
      } else {
        NormalizedArePlain(segments[1..], kept + [segments[0]]);
      }
    }
  }

  /** What normalising keeps can be split back out of the joined pattern. */
  lemma NormalizedSplit(pattern: string)
    ensures forall s | s in NormalizedSegments(pattern) :: PlainSegment(s)
    ensures NormalizedSegments(pattern) != [] ==> Split(NormalizePattern(pattern), '/') == NormalizedSegments(pattern)
    ensures NormalizedSegments(pattern) == [] ==> Split(NormalizePattern(pattern), '/') == [""]
  {
    JoinSplit(pattern, '/');
    NormalizedArePlain(Split(pattern, '/'), []);
    if NormalizedSegments(pattern) != [] { SplitJoin(NormalizedSegments(pattern), '/'); }
  }

  // ---------- paths below the workspace root ----------

  /** A path as it is reported: every backslash is replaced by a slash. */
  function Slashed(path: string): (r: string)
    ensures |r| == |path| && '\\' !in r
    ensures r == path <==> '\\' !in path
  {
    if path == "" then ""
    else
      assert path == [path[0]] + path[1..];
      [if path[0] == '\\' then '/' else path[0]] + Slashed(path[1..])
  }

  lemma {:induction false} SlashedIs(path: string, i: nat)
    requires i < |path|
    ensures Slashed(path)[i] == if path[i] == '\\' then '/' else path[i]
  {
    if i > 0 { SlashedIs(path[1..], i - 1); }
  }

  /** The segments a path leads to from a directory given by its own. */
  function Located(base: seq<string>, path: string): seq<string> {
    NormalizeSegments(Split(path, '/'), if StartsWith(path, "/") then [] else base)
  }

  /** A path below the workspace root, read from a base directory. */
  function WorkspacePath(root: seq<string>, base: seq<string>, path: string): Result<string> {
    var joined := Located(base, path);
    if !(root <= joined) || joined == root then Err else Ok(Slashed(Join(joined[|root|..], "/")))
  }

  ghost predicate PlainSegments(segments: seq<string>) { forall s | s in segments :: PlainSegment(s) }

  lemma LocatedIsPlain(base: seq<string>, path: string)
    requires PlainSegments(base)
    ensures PlainSegments(Located(base, path))
  {
    JoinSplit(path, '/');
    NormalizedArePlain(Split(path, '/'), if StartsWith(path, "/") then [] else base);
  }

  /** A workspace path is never empty and holds no backslash. */
  lemma WorkspacePathIsClean(root: seq<string>, base: seq<string>, path: string)
    requires PlainSegments(base) && WorkspacePath(root, base, path).Ok?
    ensures WorkspacePath(root, base, path).value != ""
    ensures '\\' !in WorkspacePath(root, base, path).value
  {
    LocatedIsPlain(base, path);
    var below := Located(base, path)[|root|..];
    assert below[0] in Located(base, path);
    assert Join(below, "/") != "";
  }

  // ---------- what normalising does ----------

  lemma {:induction false} NormalizeConcat(a: seq<string>, b: seq<string>, kept: seq<string>)
    ensures NormalizeSegments(a + b, kept) == NormalizeSegments(b, NormalizeSegments(a, kept))
  {
    if a == [] {
      assert a + b == b;
    } else {
      assert (a + b)[1..] == a[1..] + b;
      if a[0] == "" || a[0] == "." {
        NormalizeConcat(a[1..], b, kept);
      } else if a[0] == ".." {
        NormalizeConcat(a[1..], b, if kept == [] then [] else kept[..|kept| - 1]);
      } else {
        NormalizeConcat(a[1..], b, kept + [a[0]]);
      }
    }
  }

  /** Plain segments are all kept, in order. */
  lemma {:induction false} PlainAreKept(segments: seq<string>, kept: seq<string>)
    requires PlainSegments(segments)
    ensures NormalizeSegments(segments, kept) == kept + segments
  {
    if segments == [] {
      assert kept + segments == kept;
    } else {
      assert segments[0] in segments && forall s | s in segments[1..] :: s in segments;
      PlainAreKept(segments[1..], kept + [segments[0]]);
      assert kept + [segments[0]] + segments[1..] == kept + segments;
    }
  }

  /** A dot and an empty segment change nothing, two dots at the start go nowhere, and two dots behind a
      plain segment take it back. */
  lemma SegmentLaws(a: seq<string>, b: seq<string>, d: string, kept: seq<string>)
    requires PlainSegment(d)
    ensures NormalizeSegments(a + ["."] + b, kept) == NormalizeSegments(a + b, kept)
    ensures NormalizeSegments(a + [""] + b, kept) == NormalizeSegments(a + b, kept)
    ensures NormalizeSegments([".."] + b, []) == NormalizeSegments(b, [])
    ensures NormalizeSegments(a + [d, ".."] + b, kept) == NormalizeSegments(a + b, kept)
  {
    var k := NormalizeSegments(a, kept);
    NormalizeConcat(a + ["."], b, kept);
    NormalizeConcat(a, ["."], kept);
    NormalizeConcat(a + [""], b, kept);
    NormalizeConcat(a, [""], kept);
    NormalizeConcat([".."], b, []);
    NormalizeConcat(a + [d, ".."], b, kept);
    NormalizeConcat(a, [d, ".."], kept);
    NormalizeConcat(a, b, kept);
    OneSegment(".", k);
    OneSegment("", k);
    OneSegment("..", []);
    NormalizeConcat([d], [".."], k);
    OneSegment(d, k);
    OneSegment("..", k + [d]);
    assert [d] + [".."] == [d, ".."] && (k + [d])[..|k + [d]| - 1] == k;
  }

  lemma OneSegment(s: string, kept: seq<string>)
    ensures NormalizeSegments([s], kept)
         == if s == "" || s == "." then kept
            else if s == ".." then if kept == [] then [] else kept[..|kept| - 1]
            else kept + [s]
  {
    assert [s][1..] == [];
  }

  /** In a pattern, `d/../` and `./` at the start of a segment change nothing. */
  lemma PatternStepsUp(front: string, d: string, rest: string)
    requires PlainSegment(d)
    ensures NormalizePattern(front + "/" + (d + "/../" + rest)) == NormalizePattern(front + "/" + rest)
    ensures NormalizePattern(front + "/" + ("./" + rest)) == NormalizePattern(front + "/" + rest)
    ensures NormalizePattern(d + "/../" + rest) == NormalizePattern(rest)
    ensures NormalizePattern("./" + rest) == NormalizePattern(rest)
    ensures NormalizePattern("../" + rest) == NormalizePattern(rest)
  {
    hide Split, NormalizeSegments, Join;
    var a, b := Split(front, '/'), Split(rest, '/');
    SplitSlash(front, rest);
    SplitSlash(front, d + "/../" + rest);
    SplitSlash(front, "./" + rest);
    SplitStepsUp(d, rest);
    SplitDots(rest);
    SegmentLaws(a, b, d, []);
    SegmentLaws([], b, d, []);
    assert a + ([d, ".."] + b) == a + [d, ".."] + b && a + (["."] + b) == a + ["."] + b;
    assert [] + [d, ".."] + b == [d, ".."] + b && [] + ["."] + b == ["."] + b && [] + b == b;
  }

  lemma SplitSlash(front: string, rest: string)
    ensures Split(front + "/" + rest, '/') == Split(front, '/') + Split(rest, '/')
  {
    assert front + "/" + rest == front + ['/'] + rest;
    SplitAt(front, '/', rest);
  }

  lemma SplitOneMore(name: string, rest: string)
    requires '/' !in name
    ensures Split(name + "/" + rest, '/') == [name] + Split(rest, '/')
  {
    hide Split;
    SplitSlash(name, rest);
    SplitWhole(name, '/');
  }

  lemma SplitDots(rest: string)
    ensures Split("../" + rest, '/') == [".."] + Split(rest, '/')
    ensures Split("./" + rest, '/') == ["."] + Split(rest, '/')
    ensures Split("/" + rest, '/') == [""] + Split(rest, '/')
  {
    hide Split;
    SplitOneMore(".", rest);
    SplitOneMore("..", rest);
    SplitOneMore("", rest);
    assert "" + "/" + rest == "/" + rest;
    assert "./" + rest == "." + "/" + rest && "../" + rest == ".." + "/" + rest;
  }

  lemma SplitStepsUp(d: string, rest: string)
    requires '/' !in d
    ensures Split(d + "/../" + rest, '/') == [d, ".."] + Split(rest, '/')
  {
    hide Split;
    SplitDots(rest);
    SplitOneMore(d, "../" + rest);
    assert d + "/../" + rest == d + "/" + ("../" + rest);
    assert [d] + ([".."] + Split(rest, '/')) == [d, ".."] + Split(rest, '/');
  }

  /** A path that steps up from a directory is the path read from the directory above it. */
  lemma PathStepsUp(root: seq<string>, base: seq<string>, d: string, path: string)
    requires !StartsWith(path, "/") && '/' !in d
    ensures WorkspacePath(root, base + [d], "../" + path) == WorkspacePath(root, base, path)
    ensures WorkspacePath(root, base, "./" + path) == WorkspacePath(root, base, path)
  {
    hide Split, NormalizeSegments, Join, Slashed;
    var b := Split(path, '/');
    SplitDots(path);
    NormalizeConcat([".."], b, base + [d]);
    NormalizeConcat(["."], b, base);
    OneSegment("..", base + [d]);
    OneSegment(".", base);
    assert (base + [d])[..|base + [d]| - 1] == base;
    assert ("../" + path)[0] == '.' && ("./" + path)[0] == '.';
  }

  lemma JoinedStart(names: seq<string>)
    requires PlainSegments(names) && names != []
    ensures Split(Join(names, "/"), '/') == names && !StartsWith(Join(names, "/"), "/")
  {
    assert names[0] in names && Join(names, "/") != "" && Join(names, "/")[0] == names[0][0];
    assert names[0][0] in names[0];
    SplitJoin(names, '/');
  }

  /** A plain path leads below the base, and an absolute one to where it says. */
  lemma PathGoesDown(root: seq<string>, base: seq<string>, below: seq<string>, names: seq<string>)
    requires PlainSegments(root) && PlainSegments(names) && names != []
    ensures WorkspacePath(root, root + below, Join(names, "/")) == Ok(Slashed(Join(below + names, "/")))
    ensures WorkspacePath(root, base, "/" + Join(root + names, "/")) == Ok(Slashed(Join(names, "/")))
  {
    hide Split, Join, Slashed;
    JoinedStart(names);
    PlainAreKept(names, root + below);
    assert (root + below + names)[|root|..] == below + names;
    JoinedStart(root + names);
    SplitDots(Join(root + names, "/"));
    NormalizeConcat([""], root + names, []);
    OneSegment("", []);
    PlainAreKept(root + names, []);
    assert [] + (root + names) == root + names && (root + names)[|root|..] == names;
    assert ("/" + Join(root + names, "/"))[0] == '/';
  }

  /** A path that leaves the root, or names it, is refused. */
  lemma PathLeaves(root: seq<string>, top: string, names: seq<string>)
    requires PlainSegments(names) && names != [] && names[0] != top
    ensures WorkspacePath(root + [top], root + [top], "../" + Join(names, "/")) == Err
    ensures WorkspacePath(root, root, ".") == Err
  {
    hide Split, Join, Slashed;
    JoinedStart(names);
    SplitDots(Join(names, "/"));
    NormalizeConcat([".."], names, root + [top]);
    OneSegment("..", root + [top]);
    assert (root + [top])[..|root + [top]| - 1] == root;
    PlainAreKept(names, root);
    assert (root + names)[|root|] == names[0] && (root + [top])[|root|] == top;
    assert ("../" + Join(names, "/"))[0] == '.';
    SplitWhole(".", '/');
    OneSegment(".", root);
  }

  // ---------- exclusion is one rule over segments ----------

  lemma {:induction false} GlobInPiece(s: string, piece: string, sep: char)
    requires piece in Split(s, sep)
    ensures forall c | c in piece :: c in s
  {
    if s != [] {
      var rest := Split(s[1..], sep);
      assert s == [s[0]] + s[1..];
      if piece in rest {
        GlobInPiece(s[1..], piece, sep);
      } else if s[0] != sep {
        assert piece == [s[0]] + rest[0];
        GlobInPiece(s[1..], rest[0], sep);
      }
    }
  }

  /** A path extends a prefix past a slash exactly when its segments do. */
  lemma PrefixBySegments(prefix: string, path: string)
    ensures path == prefix || StartsWith(path, prefix + "/") <==> Split(prefix, '/') <= Split(path, '/')
  {
    hide Split;
    if StartsWith(path, prefix + "/") {
      var rest := path[|prefix| + 1..];
      assert path == prefix + ['/'] + rest;
      SplitAt(prefix, '/', rest);
    }
    if Split(prefix, '/') <= Split(path, '/') { SegmentsArePrefix(prefix, path); }
  }

  lemma SegmentsArePrefix(prefix: string, path: string)
    requires Split(prefix, '/') <= Split(path, '/')
    ensures path == prefix || StartsWith(path, prefix + "/")
  {
    hide Split, Join;
    var ps, ns := Split(prefix, '/'), Split(path, '/');
    JoinSplit(prefix, '/');
    JoinSplit(path, '/');
    assert ns == ps + ns[|ps|..];
    if ns[|ps|..] == [] {
      assert ns == ps;
    } else {
      JoinConcat(ps, ns[|ps|..], "/");
      assert path == prefix + "/" + Join(ns[|ps|..], "/");
    }
  }

  /** Literal and wildcard excludes obey the same rule: the leading segments match. */
  lemma ExclusionBySegments(pattern: string, path: string)
    ensures ExcludedBy(pattern, path) <==> MatchesWorkspacePattern(pattern, path)
  {
    if !ContainsGlob(pattern) {
      PrefixBySegments(pattern, path);
      var patterns, names := Split(pattern, '/'), Split(path, '/');
      forall p, n | p in patterns ensures MatchesGlobSegment(p, n) <==> p == n {
        GlobInPiece(pattern, p, '/');
        LiteralSegment(p, n);
      }
    }
  }

  /** Whatever lies below an excluded path is excluded too. */
  lemma ExclusionReachesDown(path: string, below: string, patterns: seq<string>)
    requires Excluded(path, patterns)
    ensures Excluded(path + "/" + below, patterns)
  {
    var i :| 0 <= i < |patterns| && ExcludedBy(patterns[i], path);
    ExclusionBySegments(patterns[i], path);
    ExclusionBySegments(patterns[i], path + "/" + below);
    SplitAt(path, '/', below);
    assert path + ['/'] + below == path + "/" + below;
  }
}
