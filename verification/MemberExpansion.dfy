/**
 The two expansions of a workspace member pattern (xtask/src/audit_scope.rs): a recursive walk of
 the directory tree, and a filter over the flat list of file paths a revision's tree holds. It is
 determined exactly when they return the same list.
 */
module MemberExpansion {
  import opened Wrappers
  import opened Ordering
  import opened Glob
  import opened Text
  import opened WorkspacePatterns

  const MANIFEST := "Cargo.toml"

  datatype Node = File | Dir(entries: Entries)
  datatype Entries = Nothing | Entry(name: string, node: Node, rest: Entries)

  ghost function Names(entries: Entries): set<string> {
    match entries
    case Nothing => {}
    case Entry(name, _, rest) => {name} + Names(rest)
  }

  /** Names are plain path segments and no directory holds one twice. */
  ghost predicate ValidEntries(entries: Entries) {
    match entries
    case Nothing => true
    case Entry(name, node, rest) =>
      && PlainSegment(name) && name !in Names(rest)
      && (node.Dir? ==> ValidEntries(node.entries))
      && ValidEntries(rest)
  }

  function Find(entries: Entries, name: string): Option<Node> {
    match entries
    case Nothing => None
    case Entry(n, node, rest) => if n == name then Some(node) else Find(rest, name)
  }

  /** The node a list of segments leads to. */
  function Lookup(node: Node, path: seq<string>): Option<Node>
    decreases |path|
  {
    if path == [] then Some(node)
    else if node.File? then None
    else
      var child := Find(node.entries, path[0]);
      if child.None? then None else Lookup(child.value, path[1..])
  }

  predicate IsFile(root: Node, path: seq<string>) { Lookup(root, path) == Some(File) }

  // ---------- the recursive expansion ----------

  function MatchingDirs(entries: Entries, segment: string): seq<string> {
    match entries
    case Nothing => []
    case Entry(name, node, rest) =>
      (if node.Dir? && MatchesGlobSegment(segment, name) then [name] else []) + MatchingDirs(rest, segment)
  }

  function Expand(root: Node, prefix: seq<string>, segments: seq<string>): seq<string>
    decreases |segments|, 0
  {
    if segments == [] then
      if IsFile(root, prefix + [MANIFEST]) then [Slashed(Join(prefix, "/"))] else []
    else if ContainsGlob(segments[0]) then
      match Lookup(root, prefix)
      case Some(Dir(entries)) =>
        ExpandAll(root, prefix, Sort(LexLeq, MatchingDirs(entries, segments[0])), segments[1..])
      case _ => []
    else
      Expand(root, prefix + [segments[0]], segments[1..])
  }

  function ExpandAll(root: Node, prefix: seq<string>, children: seq<string>, rest: seq<string>): seq<string>
    decreases |rest|, 1, |children|
  {
    if children == [] then []
    else Expand(root, prefix + [children[0]], rest) + ExpandAll(root, prefix, children[1..], rest)
  }

  lemma {:induction false} ExpandAllAppend(root: Node, prefix: seq<string>, children: seq<string>, last: string,
                                           rest: seq<string>)
    ensures ExpandAll(root, prefix, children + [last], rest)
         == ExpandAll(root, prefix, children, rest) + Expand(root, prefix + [last], rest)
  {
    if children == [] {
      assert ExpandAll(root, prefix, [last][1..], rest) == [];
    } else {
      assert (children + [last])[1..] == children[1..] + [last];
      ExpandAllAppend(root, prefix, children[1..], last, rest);
    }
  }

  method ReadMatchingDirs(entries: Entries, segment: string) returns (children: seq<string>)
    ensures children == MatchingDirs(entries, segment)
  {
    hide MatchesGlobSegment, InLanguage;
    children := [];
    var left := entries;
    while left.Entry?
      invariant children + MatchingDirs(left, segment) == MatchingDirs(entries, segment)
      decreases left
    {
      var matched := MatchGlobSegment(segment, left.name);
      ghost var more := MatchingDirs(left.rest, segment);
      assert children + ([left.name] + more) == (children + [left.name]) + more && [] + more == more;
      if left.node.Dir? && matched { children := children + [left.name]; }
      left := left.rest;
    }
  }

  /** The recursive walk as written, pushing onto the paths it is given. */
  method ExpandInto(root: Node, prefix: seq<string>, segments: seq<string>, paths: seq<string>)
    returns (out: seq<string>)
    ensures out == paths + Expand(root, prefix, segments)
    decreases |segments|, 0
  {
    out := paths;
    if segments == [] {
      if IsFile(root, prefix + [MANIFEST]) { out := out + [Slashed(Join(prefix, "/"))]; }
      return;
    }
    if ContainsGlob(segments[0]) {
      var dir := Lookup(root, prefix);
      if dir.None? || dir.value.File? { return; }
      var children := ReadMatchingDirs(dir.value.entries, segments[0]);
      children := Sort(LexLeq, children);
      out := ExpandChildren(root, prefix, children, segments[1..], out);
      return;
    }
    out := ExpandInto(root, prefix + [segments[0]], segments[1..], out);
  }

  method ExpandChildren(root: Node, prefix: seq<string>, children: seq<string>, rest: seq<string>, paths: seq<string>)
    returns (out: seq<string>)
    ensures out == paths + ExpandAll(root, prefix, children, rest)
    decreases |rest|, 1
  {
    out := paths;
    for i := 0 to |children|
      invariant out == paths + ExpandAll(root, prefix, children[..i], rest)
    {
      assert children[..i + 1] == children[..i] + [children[i]];
      ExpandAllAppend(root, prefix, children[..i], children[i], rest);
      out := ExpandInto(root, prefix + [children[i]], rest, out);
    }
    assert children[..|children|] == children;
  }

  /** The walk's list for a wildcard pattern. */
  function WalkedPaths(tree: Node, pattern: string): seq<string> {
    Dedup(Sort(LexLeq, Expand(tree, [], NormalizedSegments(pattern))))
  }

  function LiteralPaths(root: seq<string>, pattern: string): Result<seq<string>> {
    var path := WorkspacePath(root, root, pattern);
    if path.Err? then Err else Ok([path.value])
  }

  method MemberPaths(root: seq<string>, tree: Node, pattern: string) returns (paths: Result<seq<string>>)
    ensures paths == OnDisk(root, tree, pattern)
  {
    if !ContainsGlob(pattern) { return LiteralPaths(root, pattern); }
    var found := ExpandInto(tree, [], NormalizedSegments(pattern), []);
    assert [] + Expand(tree, [], NormalizedSegments(pattern)) == Expand(tree, [], NormalizedSegments(pattern));
    return Ok(Dedup(Sort(LexLeq, found)));
  }

  function OnDisk(root: seq<string>, tree: Node, pattern: string): Result<seq<string>> {
    if !ContainsGlob(pattern) then LiteralPaths(root, pattern) else Ok(WalkedPaths(tree, pattern))
  }

  // ---------- the flat filter ----------

  /** Every file path of the tree, as a revision's recursive listing prints it. */
  function Listing(entries: Entries, prefix: string): seq<string> {
    match entries
    case Nothing => []
    case Entry(name, node, rest) =>
      (match node
       case File => [prefix + name]
       case Dir(inner) => Listing(inner, prefix + name + "/")) + Listing(rest, prefix)
  }

  function StripSuffix(s: string, suffix: string): Option<string> {
    if |suffix| <= |s| && s[|s| - |suffix|..] == suffix then Some(s[..|s| - |suffix|]) else None
  }

  function FilterListing(pattern: string, treePaths: seq<string>): seq<string> {
    if treePaths == [] then []
    else
      var member := StripSuffix(treePaths[0], "/" + MANIFEST);
      (if member.Some? && MatchesMemberPattern(pattern, member.value) then [member.value] else [])
      + FilterListing(pattern, treePaths[1..])
  }

  /** The filter's list for a wildcard pattern. */
  function FilteredPaths(pattern: string, treePaths: seq<string>): seq<string> {
    Dedup(Sort(LexLeq, FilterListing(NormalizePattern(pattern), treePaths)))
  }

  function AtRevision(root: seq<string>, pattern: string, treePaths: seq<string>): Result<seq<string>> {
    if !ContainsGlob(pattern) then LiteralPaths(root, pattern) else Ok(FilteredPaths(pattern, treePaths))
  }

  lemma {:induction false} FilterAppend(pattern: string, treePaths: seq<string>, last: string)
    ensures FilterListing(pattern, treePaths + [last])
         == FilterListing(pattern, treePaths) + FilterListing(pattern, [last])
  {
    hide StripSuffix, MatchesMemberPattern;
    if treePaths == [] {
      assert treePaths + [last] == [last];
    } else {
      assert (treePaths + [last])[1..] == treePaths[1..] + [last];
      FilterAppend(pattern, treePaths[1..], last);
    }
  }

  method MemberPathsAtRevision(root: seq<string>, pattern: string, treePaths: seq<string>)
    returns (r: Result<seq<string>>)
    ensures r == AtRevision(root, pattern, treePaths)
  {
    if !ContainsGlob(pattern) { return LiteralPaths(root, pattern); }
    var normalized, paths := NormalizePattern(pattern), [];
    for i := 0 to |treePaths|
      invariant paths == FilterListing(normalized, treePaths[..i])
    {
      assert treePaths[..i + 1] == treePaths[..i] + [treePaths[i]];
      FilterAppend(normalized, treePaths[..i], treePaths[i]);
      var member := StripSuffix(treePaths[i], "/" + MANIFEST);
      if member.None? { continue; }
      if MatchesMemberPattern(normalized, member.value) { paths := paths + [member.value]; }
    }
    assert treePaths[..|treePaths|] == treePaths;
    return Ok(Dedup(Sort(LexLeq, paths)));
  }

  // ---------- what the walk finds ----------

  /** Segment names that match the pattern and lead to a package manifest. */
  ghost predicate Leads(root: Node, prefix: seq<string>, segments: seq<string>, names: seq<string>) {
    && |names| == |segments| && SegmentsMatch(segments, names)
    && IsFile(root, prefix + names + [MANIFEST])
  }

  lemma {:induction false} LookupConcat(node: Node, a: seq<string>, b: seq<string>)
    ensures Lookup(node, a + b)
         == if Lookup(node, a).Some? then Lookup(Lookup(node, a).value, b) else None
    decreases |a|
  {
    if a == [] {
      assert a + b == b;
    } else {
      assert (a + b)[1..] == a[1..] + b;
      if node.Dir? && Find(node.entries, a[0]).Some? {
        LookupConcat(Find(node.entries, a[0]).value, a[1..], b);
      }
    }
  }

  lemma {:induction false} FindNames(entries: Entries, name: string)
    ensures Find(entries, name).Some? ==> name in Names(entries)
  {
    if entries.Entry? { FindNames(entries.rest, name); }
  }

  lemma {:induction false} MatchingDirsFound(entries: Entries, segment: string, name: string)
    requires ValidEntries(entries)
    ensures name in MatchingDirs(entries, segment)
       <==> Find(entries, name).Some? && Find(entries, name).value.Dir? && MatchesGlobSegment(segment, name)
    ensures name in MatchingDirs(entries, segment) ==> name in Names(entries)
  {
    if entries.Entry? {
      MatchingDirsFound(entries.rest, segment, name);
      FindNames(entries.rest, name);
    }
  }

  lemma {:induction false} FindValid(entries: Entries, name: string)
    requires ValidEntries(entries) && Find(entries, name).Some?
    ensures PlainSegment(name)
    ensures Find(entries, name).value.Dir? ==> ValidEntries(Find(entries, name).value.entries)
  {
    if entries.name != name { FindValid(entries.rest, name); }
  }

  lemma {:induction false} LookupValid(node: Node, path: seq<string>)
    requires node.Dir? ==> ValidEntries(node.entries)
    requires Lookup(node, path).Some?
    ensures forall s | s in path :: PlainSegment(s)
    ensures Lookup(node, path).value.Dir? ==> ValidEntries(Lookup(node, path).value.entries)
    decreases |path|
  {
    if path != [] {
      FindValid(node.entries, path[0]);
      LookupValid(Find(node.entries, path[0]).value, path[1..]);
    }
  }

  lemma {:induction false} ExpandAllElements(root: Node, prefix: seq<string>, children: seq<string>, rest: seq<string>,
                                             x: string)
    ensures x in ExpandAll(root, prefix, children, rest)
       <==> exists i | 0 <= i < |children| :: x in Expand(root, prefix + [children[i]], rest)
  {
    if children != [] {
      ExpandAllElements(root, prefix, children[1..], rest, x);
      if x in ExpandAll(root, prefix, children[1..], rest) {
        var i :| 0 <= i < |children[1..]| && x in Expand(root, prefix + [children[1..][i]], rest);
        assert children[i + 1] == children[1..][i];
      }
      if i :| 0 <= i < |children| && x in Expand(root, prefix + [children[i]], rest) {
        if i > 0 { assert children[1..][i - 1] == children[i]; }
      }
    }
  }

  /** The first step of a walk that finds x: a name that matches the first segment. */
  lemma WalkSteps(root: Node, prefix: seq<string>, segments: seq<string>, x: string) returns (first: string)
    requires root.Dir? && ValidEntries(root.entries) && segments != []
    requires x in Expand(root, prefix, segments)
    ensures MatchesGlobSegment(segments[0], first) && x in Expand(root, prefix + [first], segments[1..])
  {
    hide MatchesGlobSegment;
    if ContainsGlob(segments[0]) {
      LookupValid(root, prefix);
      var entries := Lookup(root, prefix).value.entries;
      var children := Sort(LexLeq, MatchingDirs(entries, segments[0]));
      assert x in ExpandAll(root, prefix, children, segments[1..]);
      hide Expand, ExpandAll, Lookup;
      ExpandAllElements(root, prefix, children, segments[1..], x);
      var i :| 0 <= i < |children| && x in Expand(root, prefix + [children[i]], segments[1..]);
      first := children[i];
      SameElements(children, MatchingDirs(entries, segments[0]), first);
      MatchingDirsFound(entries, segments[0], first);
    } else {
      first := segments[0];
      LiteralSegment(segments[0], first);
    }
  }

  /** A found path comes from names that match the pattern and lead to a manifest. */
  lemma {:induction false} ExpandFinds(root: Node, prefix: seq<string>, segments: seq<string>, x: string)
    returns (names: seq<string>)
    requires root.Dir? && ValidEntries(root.entries)
    requires x in Expand(root, prefix, segments)
    ensures Leads(root, prefix, segments, names) && x == Slashed(Join(prefix + names, "/"))
    decreases |segments|
  {
    if segments == [] {
      names := [];
      assert prefix + names == prefix;
    } else {
      hide Expand, Slashed, ValidEntries, MatchesGlobSegment;
      var first := WalkSteps(root, prefix, segments, x);
      var more := ExpandFinds(root, prefix + [first], segments[1..], x);
      names := [first] + more;
      assert prefix + [first] + more == prefix + names;
      forall i | 0 <= i < |segments| ensures MatchesGlobSegment(segments[i], names[i]) {
        if i > 0 { assert segments[i] == segments[1..][i - 1] && names[i] == more[i - 1]; }
      }
    }
  }

  /** Every matching way to a manifest is found. */
  lemma {:induction false} ExpandFindsAll(root: Node, prefix: seq<string>, segments: seq<string>, names: seq<string>)
    requires root.Dir? && ValidEntries(root.entries)
    requires Leads(root, prefix, segments, names)
    ensures Slashed(Join(prefix + names, "/")) in Expand(root, prefix, segments)
    decreases |segments|
  {
    if segments == [] {
      assert prefix + names == prefix;
    } else {
      var more := names[1..];
      assert prefix + names == prefix + [names[0]] + more;
      assert Leads(root, prefix + [names[0]], segments[1..], more);
      ExpandFindsAll(root, prefix + [names[0]], segments[1..], more);
      if ContainsGlob(segments[0]) {
        var below := more + [MANIFEST];
        assert prefix + names + [MANIFEST] == prefix + ([names[0]] + below);
        LookupConcat(root, prefix, [names[0]] + below);
        LookupValid(root, prefix);
        var entries := Lookup(root, prefix).value.entries;
        assert ([names[0]] + below)[1..] == below;
        assert Find(entries, names[0]).Some? && Find(entries, names[0]).value.Dir?;
        MatchingDirsFound(entries, segments[0], names[0]);
        var children := Sort(LexLeq, MatchingDirs(entries, segments[0]));
        SameElements(children, MatchingDirs(entries, segments[0]), names[0]);
        ExpandAllElements(root, prefix, children, segments[1..], Slashed(Join(prefix + names, "/")));
      } else {
        LiteralSegment(segments[0], names[0]);
      }
    }
  }

  // ---------- what the listing holds ----------

  lemma DirLeads(entries: Entries, inner: Entries, prefix: string, more: seq<string>)
    requires entries.Entry? && entries.node == Dir(inner) && more != []
    ensures IsFile(Dir(inner), more) ==> IsFile(Dir(entries), [entries.name] + more)
    ensures prefix + Join([entries.name] + more, "/") == prefix + entries.name + "/" + Join(more, "/")
  {
    var path := [entries.name] + more;
    assert path[1..] == more;
    assert Join(path, "/") == entries.name + "/" + Join(more, "/");
    assert prefix + (entries.name + "/" + Join(more, "/")) == prefix + entries.name + "/" + Join(more, "/");
  }

  lemma {:induction false} ListingFinds(entries: Entries, prefix: string, p: string) returns (path: seq<string>)
    requires ValidEntries(entries) && p in Listing(entries, prefix)
    ensures path != [] && IsFile(Dir(entries), path) && p == prefix + Join(path, "/")
    ensures path[0] in Names(entries)
  {
    if p in Listing(entries.rest, prefix) {
      path := ListingFinds(entries.rest, prefix, p);
      assert path[0] != entries.name;
    } else {
      match entries.node
      case File =>
        path := [entries.name];
      case Dir(inner) =>
        var more := ListingFinds(inner, prefix + entries.name + "/", p);
        path := [entries.name] + more;
        DirLeads(entries, inner, prefix, more);
    }
  }

  lemma {:induction false} ListingFindsAll(entries: Entries, prefix: string, path: seq<string>)
    requires path != [] && IsFile(Dir(entries), path)
    ensures prefix + Join(path, "/") in Listing(entries, prefix)
    decreases entries
  {
    if entries.name == path[0] {
      assert Lookup(entries.node, path[1..]) == Some(File);
      match entries.node
      case File =>
        assert path[1..] == [];
        assert Join(path, "/") == entries.name;
      case Dir(inner) =>
        assert path[1..] != [];
        ListingFindsAll(inner, prefix + entries.name + "/", path[1..]);
        assert prefix + Join(path, "/") == prefix + entries.name + "/" + Join(path[1..], "/");
    } else {
      ListingFindsAll(entries.rest, prefix, path);
    }
  }

  lemma {:induction false} FilterElements(pattern: string, treePaths: seq<string>, m: string)
    ensures m in FilterListing(pattern, treePaths)
       <==> MatchesMemberPattern(pattern, m) && m + "/" + MANIFEST in treePaths
  {
    if treePaths != [] {
      FilterElements(pattern, treePaths[1..], m);
      var suffix := "/" + MANIFEST;
      assert m + "/" + MANIFEST == m + suffix;
      var member := StripSuffix(treePaths[0], suffix);
      if member.Some? { assert treePaths[0] == member.value + suffix; }
      if treePaths[0] == m + suffix { assert member == Some(m); }
    }
  }

  // ---------- the two agree ----------

  /** A file the segments lead to is listed under their joined path. */
  lemma FileIsListed(entries: Entries, names: seq<string>, leaf: string)
    requires ValidEntries(entries) && names != [] && IsFile(Dir(entries), names + [leaf])
    ensures Join(names, "/") + "/" + leaf in Listing(entries, "")
    ensures Split(Join(names, "/"), '/') == names
  {
    ListingFindsAll(entries, "", names + [leaf]);
    JoinConcat(names, [leaf], "/");
    assert "" + Join(names + [leaf], "/") == Join(names, "/") + "/" + leaf;
    LookupValid(Dir(entries), names + [leaf]);
    forall s | s in names ensures '/' !in s { assert s in names + [leaf]; }
    SplitJoin(names, '/');
  }

  /** The segments of a listed file's directory lead to that file. */
  lemma ListedIsFile(entries: Entries, m: string, leaf: string)
    requires ValidEntries(entries) && '/' !in leaf && m + "/" + leaf in Listing(entries, "")
    ensures IsFile(Dir(entries), Split(m, '/') + [leaf])
    ensures m != ""
  {
    var path := ListingFinds(entries, "", m + "/" + leaf);
    LookupValid(Dir(entries), path);
    SplitJoin(path, '/');
    SplitAt(m, '/', leaf);
    SplitWhole(leaf, '/');
    assert m + ['/'] + leaf == m + "/" + leaf;
    assert "" + Join(path, "/") == Join(path, "/");
    assert path == Split(m, '/') + [leaf];
    assert path[0] in path && path[0] == Split(m, '/')[0];
  }

  lemma WalkedIsFiltered(entries: Entries, pattern: string, m: string) returns (listed: string)
    requires ValidEntries(entries) && NormalizedSegments(pattern) != []
    requires m in Expand(Dir(entries), [], NormalizedSegments(pattern))
    ensures listed in FilterListing(NormalizePattern(pattern), Listing(entries, "")) && m == Slashed(listed)
  {
    NormalizedSplit(pattern);
    var names := ExpandFinds(Dir(entries), [], NormalizedSegments(pattern), m);
    assert [] + names == names;
    listed := Join(names, "/");
    FilterElements(NormalizePattern(pattern), Listing(entries, ""), listed);
    FileIsListed(entries, names, MANIFEST);
  }

  lemma FilteredIsWalked(entries: Entries, pattern: string, m: string)
    requires ValidEntries(entries) && NormalizedSegments(pattern) != []
    requires m in FilterListing(NormalizePattern(pattern), Listing(entries, ""))
    ensures Slashed(m) in Expand(Dir(entries), [], NormalizedSegments(pattern))
  {
    NormalizedSplit(pattern);
    FilterElements(NormalizePattern(pattern), Listing(entries, ""), m);
    ListedIsFile(entries, m, MANIFEST);
    var names := Split(m, '/');
    assert [] + names == names;
    assert Leads(Dir(entries), [], NormalizedSegments(pattern), names);
    ExpandFindsAll(Dir(entries), [], NormalizedSegments(pattern), names);
    JoinSplit(m, '/');
  }

  /** The empty pattern matches only the empty path, which no listing holds. */
  lemma EmptyPatternDrops(entries: Entries, pattern: string, m: string)
    requires ValidEntries(entries) && Split(pattern, '/') == [""]
    ensures m !in FilterListing(pattern, Listing(entries, ""))
  {
    FilterElements(pattern, Listing(entries, ""), m);
    LiteralSegment("", Split(m, '/')[0]);
    JoinSplit(m, '/');
    if m + "/" + MANIFEST in Listing(entries, "") { ListedIsFile(entries, m, MANIFEST); }
  }

  lemma NothingFiltered(entries: Entries, pattern: string)
    requires ValidEntries(entries) && NormalizedSegments(pattern) == []
    ensures FilteredPaths(pattern, Listing(entries, "")) == []
  {
    NormalizedSplit(pattern);
    var normalized, listing := NormalizePattern(pattern), Listing(entries, "");
    forall m ensures m !in FilterListing(normalized, listing) { EmptyPatternDrops(entries, normalized, m); }
    NoElements(FilterListing(normalized, listing));
  }

  ghost predicate NoBackslash(paths: seq<string>) { forall m | m in paths :: '\\' !in m }

  /** Two lists hold the same paths. */
  ghost predicate SamePaths(a: seq<string>, b: seq<string>) { forall m :: m in a <==> m in b }

  lemma SegmentsAgree(entries: Entries, pattern: string)
    requires ValidEntries(entries) && NormalizedSegments(pattern) != []
    ensures var filtered := FilterListing(NormalizePattern(pattern), Listing(entries, ""));
      SamePaths(Expand(Dir(entries), [], NormalizedSegments(pattern)), filtered) <==> NoBackslash(filtered)
  {
    hide Expand, FilterListing;
    var walked := Expand(Dir(entries), [], NormalizedSegments(pattern));
    var filtered := FilterListing(NormalizePattern(pattern), Listing(entries, ""));
    forall m | m in walked ensures exists listed :: listed in filtered && m == Slashed(listed) {
      var listed := WalkedIsFiltered(entries, pattern, m);
    }
    forall m | m in filtered ensures Slashed(m) in walked { FilteredIsWalked(entries, pattern, m); }
    if NoBackslash(filtered) {
      forall m ensures m in walked <==> m in filtered {
        if m in filtered { assert Slashed(m) == m; }
      }
    }
  }

  /**
   For every tree and every pattern the two expansions return the same result exactly when the pattern
   has no wildcard, or it normalises to a segment and no path it matches holds a backslash, or it
   normalises to nothing and the tree's root holds no manifest. A wildcard's list is sorted and free
   of repeats.
   */
  lemma ExpansionsAgree(root: seq<string>, entries: Entries, pattern: string)
    requires ValidEntries(entries)
    ensures OnDisk(root, Dir(entries), pattern) == AtRevision(root, pattern, Listing(entries, ""))
       <==> || !ContainsGlob(pattern)
            || (NormalizedSegments(pattern) != [] && NoBackslash(FilteredPaths(pattern, Listing(entries, ""))))
            || (NormalizedSegments(pattern) == [] && !IsFile(Dir(entries), [MANIFEST]))
    ensures SortedBy(LexLeq, WalkedPaths(Dir(entries), pattern)) && NoRepeats(WalkedPaths(Dir(entries), pattern))
  {
    LexIsTotalOrder();
    var tree := Dir(entries);
    if NormalizedSegments(pattern) == [] { EmptyWalk(tree); }
    hide Expand, FilterListing, Sort, Dedup, NormalizedSegments, ValidEntries, LiteralPaths, ContainsGlob;
    var walked := Expand(tree, [], NormalizedSegments(pattern));
    SortDedupIsCanonical(LexLeq, walked);
    if NormalizedSegments(pattern) != [] {
      var filtered := FilterListing(NormalizePattern(pattern), Listing(entries, ""));
      SortDedupIsCanonical(LexLeq, filtered);
      SegmentsAgree(entries, pattern);
      if SamePaths(walked, filtered) { SortDedupDependsOnSet(LexLeq, walked, filtered); }
    } else {
      NothingFiltered(entries, pattern);
      if walked != [] { assert walked[0] in Dedup(Sort(LexLeq, walked)); }
      NoElements(walked);
      NoElements(Dedup(Sort(LexLeq, walked)));
    }
  }

  /** The walk reports the filtered paths with their backslashes replaced. */
  lemma WalkedAreSlashed(entries: Entries, pattern: string, m: string)
    requires ValidEntries(entries) && NormalizedSegments(pattern) != []
    ensures m in WalkedPaths(Dir(entries), pattern)
       <==> exists p :: p in FilteredPaths(pattern, Listing(entries, "")) && m == Slashed(p)
  {
    hide Expand, FilterListing, Sort, Dedup, Slashed;
    LexIsTotalOrder();
    var walked := Expand(Dir(entries), [], NormalizedSegments(pattern));
    var filtered := FilterListing(NormalizePattern(pattern), Listing(entries, ""));
    SortDedupIsCanonical(LexLeq, walked);
    SortDedupIsCanonical(LexLeq, filtered);
    if m in walked { var p := WalkedIsFiltered(entries, pattern, m); }
    forall p | p in filtered ensures Slashed(p) in walked { FilteredIsWalked(entries, pattern, p); }
  }

  lemma FilteredAreNotEmpty(entries: Entries, pattern: string)
    requires ValidEntries(entries)
    ensures "" !in FilteredPaths(pattern, Listing(entries, ""))
  {
    hide Sort, Dedup, ValidEntries, Listing;
    LexIsTotalOrder();
    var filtered := FilterListing(NormalizePattern(pattern), Listing(entries, ""));
    SortDedupIsCanonical(LexLeq, filtered);
    if "" in filtered {
      FilterElements(NormalizePattern(pattern), Listing(entries, ""), "");
      ListedIsFile(entries, "", MANIFEST);
    }
  }

  lemma EmptyPatternWalks(tree: Node, pattern: string)
    requires NormalizedSegments(pattern) == []
    ensures forall m :: m in WalkedPaths(tree, pattern) <==> m == "" && IsFile(tree, [MANIFEST])
  {
    EmptyWalk(tree);
    LexIsTotalOrder();
    SortDedupIsCanonical(LexLeq, Expand(tree, [], NormalizedSegments(pattern)));
  }

  lemma EmptyWalk(tree: Node)
    ensures Expand(tree, [], []) == if IsFile(tree, [MANIFEST]) then [""] else []
  {
    assert [] + [MANIFEST] == [MANIFEST];
  }
}
