/**
 Discovery from one workspace manifest over the two views of a tree: the directories on disk, and the
 file list of a revision (xtask/src/audit_scope.rs). It is determined exactly when both give one result.
 */
module WorkspaceViews {
  import opened Wrappers
  import opened Ordering
  import opened Text
  import opened Glob
  import opened WorkspacePatterns
  import opened MemberExpansion
  import opened Discovery

  /** The workspace manifest as written, and the package manifests of the tree. */
  datatype Config = Config(
    root: seq<string>,
    members: seq<string>,
    excludes: seq<string>,
    dependencies: seq<(string, string)>,
    manifests: map<string, Manifest>)

  // ---------- reading the workspace manifest ----------

  /** Everything the patterns stand for, in order, or a failure when one cannot be read. */
  function Gather(read: string -> Result<seq<string>>, patterns: seq<string>): Result<seq<string>> {
    if patterns == [] then Ok([])
    else if read(patterns[0]).Err? then Err
    else Before(read(patterns[0]).value, Gather(read, patterns[1..]))
  }

  function Before(paths: seq<string>, rest: Result<seq<string>>): Result<seq<string>> {
    if rest.Err? then Err else Ok(paths + rest.value)
  }

  function ExcludeRead(root: seq<string>): string -> Result<seq<string>> {
    pattern => if ContainsGlob(pattern) then Ok([NormalizePattern(pattern)]) else LiteralPaths(root, pattern)
  }

  function DiskRead(root: seq<string>, tree: Node): string -> Result<seq<string>> {
    pattern => OnDisk(root, tree, pattern)
  }

  function RevisionRead(root: seq<string>, treePaths: seq<string>): string -> Result<seq<string>> {
    pattern => AtRevision(root, pattern, treePaths)
  }

  /** The workspace's dependencies that lead inside it. */
  function DependencyPaths(root: seq<string>, dependencies: seq<(string, string)>): seq<(string, string)> {
    if dependencies == [] then []
    else
      var path := WorkspacePath(root, root, dependencies[0].1);
      (if path.Ok? then [(dependencies[0].0, path.value)] else []) + DependencyPaths(root, dependencies[1..])
  }

  /** What discovery starts from in a view that reads member patterns this way. */
  function View(c: Config, read: string -> Result<seq<string>>): Result<Workspace> {
    var excludes, members := Gather(ExcludeRead(c.root), c.excludes), Gather(read, c.members);
    if excludes.Err? || members.Err? then Err
    else Ok(Workspace(c.root, members.value, excludes.value, DependencyPaths(c.root, c.dependencies), c.manifests))
  }

  lemma BeforeBefore(a: seq<string>, b: seq<string>, r: Result<seq<string>>)
    ensures Before(a, Before(b, r)) == Before(a + b, r)
  {
    if r.Ok? { assert a + (b + r.value) == a + b + r.value; }
  }

  lemma BeforeEnds(paths: seq<string>, r: Result<seq<string>>)
    ensures Before([], r) == r && Before(paths, Ok([])) == Ok(paths)
  {
    if r.Ok? { assert [] + r.value == r.value; }
    assert paths + [] == paths;
  }

  method ReadExcludes(root: seq<string>, excludes: seq<string>) returns (r: Result<seq<string>>)
    ensures r == Gather(ExcludeRead(root), excludes)
  {
    var out := [];
    assert excludes[0..] == excludes;
    BeforeEnds([], Gather(ExcludeRead(root), excludes));
    for i := 0 to |excludes|
      invariant Gather(ExcludeRead(root), excludes) == Before(out, Gather(ExcludeRead(root), excludes[i..]))
    {
      var pattern := excludes[i];
      ghost var rest := Gather(ExcludeRead(root), excludes[i + 1..]);
      assert excludes[i..][1..] == excludes[i + 1..];
      if ContainsGlob(pattern) {
        BeforeBefore(out, [NormalizePattern(pattern)], rest);
        out := out + [NormalizePattern(pattern)];
      } else {
        var path := WorkspacePath(root, root, pattern);
        if path.Err? { return Err; }
        BeforeBefore(out, [path.value], rest);
        out := out + [path.value];
      }
    }
    BeforeEnds(out, Ok([]));
    return Ok(out);
  }

  method ReadDependencies(root: seq<string>, dependencies: seq<(string, string)>) returns (out: seq<(string, string)>)
    ensures out == DependencyPaths(root, dependencies)
  {
    hide WorkspacePath;
    out := [];
    for i := 0 to |dependencies|
      invariant out + DependencyPaths(root, dependencies[i..]) == DependencyPaths(root, dependencies)
    {
      assert dependencies[i..][1..] == dependencies[i + 1..];
      var path := WorkspacePath(root, root, dependencies[i].1);
      if path.Ok? { out := out + [(dependencies[i].0, path.value)]; }
    }
  }

  method MembersOnDisk(root: seq<string>, tree: Node, patterns: seq<string>) returns (r: Result<seq<string>>)
    ensures r == Gather(DiskRead(root, tree), patterns)
  {
    hide OnDisk;
    var out := [];
    assert patterns[0..] == patterns;
    BeforeEnds([], Gather(DiskRead(root, tree), patterns));
    for i := 0 to |patterns|
      invariant Gather(DiskRead(root, tree), patterns) == Before(out, Gather(DiskRead(root, tree), patterns[i..]))
    {
      assert patterns[i..][1..] == patterns[i + 1..];
      var paths := MemberPaths(root, tree, patterns[i]);
      if paths.Err? { return Err; }
      BeforeBefore(out, paths.value, Gather(DiskRead(root, tree), patterns[i + 1..]));
      out := out + paths.value;
    }
    BeforeEnds(out, Ok([]));
    return Ok(out);
  }

  method MembersAtRevision(root: seq<string>, treePaths: seq<string>, patterns: seq<string>)
    returns (r: Result<seq<string>>)
    ensures r == Gather(RevisionRead(root, treePaths), patterns)
  {
    hide AtRevision;
    var out := [];
    assert patterns[0..] == patterns;
    BeforeEnds([], Gather(RevisionRead(root, treePaths), patterns));
    for i := 0 to |patterns|
      invariant Gather(RevisionRead(root, treePaths), patterns)
             == Before(out, Gather(RevisionRead(root, treePaths), patterns[i..]))
    {
      assert patterns[i..][1..] == patterns[i + 1..];
      var paths := MemberPathsAtRevision(root, patterns[i], treePaths);
      if paths.Err? { return Err; }
      BeforeBefore(out, paths.value, Gather(RevisionRead(root, treePaths), patterns[i + 1..]));
      out := out + paths.value;
    }
    BeforeEnds(out, Ok([]));
    return Ok(out);
  }

  // ---------- discovery over a view ----------

  /** What discovery returns for a view: the reachable members, or a failure when reading one fails. */
  ghost predicate Yields(view: Result<Workspace>, r: Result<seq<Member>>) {
    if view.Err? then r.Err?
    else (r.Err? <==> Blocked(view.value)) && (r.Ok? ==> Discovered(view.value, r.value))
  }

  /** The source inserts each pattern's paths before expanding the next; the outcome is the same. */
  method DiscoverOnDisk(c: Config, tree: Node) returns (r: Result<seq<Member>>)
    ensures Yields(View(c, DiskRead(c.root, tree)), r)
  {
    hide Blocked, Discovered, DiskRead;
    var excludes := ReadExcludes(c.root, c.excludes);
    if excludes.Err? { return Err; }
    var dependencies := ReadDependencies(c.root, c.dependencies);
    var members := MembersOnDisk(c.root, tree, c.members);
    if members.Err? { return Err; }
    r := DiscoverMembers(Workspace(c.root, members.value, excludes.value, dependencies, c.manifests));
  }

  method DiscoverAtRevision(c: Config, treePaths: seq<string>) returns (r: Result<seq<Member>>)
    ensures Yields(View(c, RevisionRead(c.root, treePaths)), r)
  {
    hide Blocked, Discovered, RevisionRead;
    var excludes := ReadExcludes(c.root, c.excludes);
    if excludes.Err? { return Err; }
    var dependencies := ReadDependencies(c.root, c.dependencies);
    var members := MembersAtRevision(c.root, treePaths, c.members);
    if members.Err? { return Err; }
    r := DiscoverMembers(Workspace(c.root, members.value, excludes.value, dependencies, c.manifests));
  }

  // ---------- what the views share ----------

  predicate Clean(path: string) { path != "" && '\\' !in path }

  /** Dependencies never lead to an empty path or to one with a backslash. */
  ghost predicate CleanDependencies(w: Workspace) {
    PlainSegments(w.root) && forall i | 0 <= i < |w.dependencies| :: Clean(w.dependencies[i].1)
  }

  lemma {:induction false} DependencyPathsAreClean(root: seq<string>, dependencies: seq<(string, string)>)
    requires PlainSegments(root)
    ensures forall i | 0 <= i < |DependencyPaths(root, dependencies)| :: Clean(DependencyPaths(root, dependencies)[i].1)
  {
    hide WorkspacePath;
    if dependencies != [] {
      DependencyPathsAreClean(root, dependencies[1..]);
      if WorkspacePath(root, root, dependencies[0].1).Ok? { WorkspacePathIsClean(root, root, dependencies[0].1); }
    }
  }

  lemma {:induction false} DependencyPathIsListed(dependencies: seq<(string, string)>, name: string)
    ensures var path := DependencyPath(dependencies, name);
      path.Some? ==> exists i | 0 <= i < |dependencies| :: dependencies[i].1 == path.value
  {
    if dependencies != [] && dependencies[0].0 != name {
      DependencyPathIsListed(dependencies[1..], name);
      var path := DependencyPath(dependencies[1..], name);
      if path.Some? {
        var i :| 0 <= i < |dependencies[1..]| && dependencies[1..][i].1 == path.value;
        assert dependencies[i + 1].1 == path.value;
      }
    }
  }

  lemma TargetIsClean(w: Workspace, package: string, d: Dependency)
    requires CleanDependencies(w) && Target(w, package, d).Some?
    ensures Clean(Target(w, package, d).value)
  {
    match d
    case ByPath(path) =>
      LocatedIsPlain(w.root, package);
      WorkspacePathIsClean(w.root, Located(w.root, package), path);
    case ByWorkspace(name) => DependencyPathIsListed(w.dependencies, name);
    case Elsewhere =>
  }

  lemma ReachableIsClean(w: Workspace, path: string)
    requires CleanDependencies(w) && Reachable(w, path)
    ensures Clean(path) || path in w.members
  {
    hide Target, Clean;
    var chain :| Chain(w, chain) && chain[|chain| - 1] == path;
    if |chain| > 1 {
      var package := chain[|chain| - 2];
      assert DependsOn(w, package, chain[|chain| - 2 + 1]);
      var d :| Mentions(w.manifests[package].tables, d) && Target(w, package, d) == Some(path);
      TargetIsClean(w, package, d);
    }
  }

  // ---------- workspaces that differ in their members ----------

  ghost predicate Twins(a: Workspace, b: Workspace) { a.(members := b.members) == b }

  ghost predicate MembersReach(a: Workspace, b: Workspace) {
    forall p | p in a.members && !Excluded(p, a.excludes) :: Reachable(b, p)
  }

  lemma TwinDepends(a: Workspace, b: Workspace, p: string, q: string)
    requires Twins(a, b)
    ensures DependsOn(a, p, q) ==> DependsOn(b, p, q)
  {
    forall d ensures Target(a, p, d) == Target(b, p, d) {}
  }

  lemma {:induction false} ChainCarries(a: Workspace, b: Workspace, chain: seq<string>)
    requires Twins(a, b) && MembersReach(a, b) && Chain(a, chain)
    ensures Reachable(b, chain[|chain| - 1])
  {
    hide Reachable, DependsOn, Excluded;
    if |chain| == 1 {
      if chain[0] !in a.members { ReachableStart(b, chain[0]); }
    } else {
      var shorter := chain[..|chain| - 1];
      assert Chain(a, shorter);
      ChainCarries(a, b, shorter);
      var p, q := chain[|chain| - 2], chain[|chain| - 2 + 1];
      assert DependsOn(a, p, q);
      TwinDepends(a, b, p, q);
      ReachableStep(b, p, q);
    }
  }

  lemma ReachCarries(a: Workspace, b: Workspace)
    requires Twins(a, b) && MembersReach(a, b)
    ensures forall p | Reachable(a, p) :: Reachable(b, p)
  {
    forall p | Reachable(a, p) ensures Reachable(b, p) {
      var chain :| Chain(a, chain) && chain[|chain| - 1] == p;
      ChainCarries(a, b, chain);
    }
  }

  /** Two workspaces that differ in their members give one result exactly when both fail or each one's
      members are reached in the other. */
  lemma TwinsAgreeExactly(a: Workspace, b: Workspace, r: Result<seq<Member>>, s: Result<seq<Member>>)
    requires Twins(a, b) && Yields(Ok(a), r) && Yields(Ok(b), s)
    ensures r == s <==> (r.Err? && s.Err?) || (MembersReach(a, b) && MembersReach(b, a))
  {
    hide PackageName;
    if MembersReach(a, b) && MembersReach(b, a) {
      ReachCarries(a, b);
      ReachCarries(b, a);
      SameReachSameResult(a, b, r, s);
    }
    if r == s && r.Ok? {
      SameResultSameReach(a, b, r.value);
      SameResultSameReach(b, a, r.value);
    }
  }

  lemma SameResultSameReach(a: Workspace, b: Workspace, members: seq<Member>)
    requires Discovered(a, members) && Discovered(b, members)
    ensures MembersReach(a, b)
  {
    hide Excluded;
    forall p | p in a.members && !Excluded(p, a.excludes) ensures Reachable(b, p) {
      ReachableStart(a, p);
      assert p in Paths(members);
    }
  }

  lemma SameReachSameResult(a: Workspace, b: Workspace, r: Result<seq<Member>>, s: Result<seq<Member>>)
    requires Twins(a, b) && Yields(Ok(a), r) && Yields(Ok(b), s)
    requires forall p :: Reachable(a, p) <==> Reachable(b, p)
    ensures r == s
  {
    hide Reachable, Paths, DistinctBy, SortedBy;
    forall p ensures PackageName(a, p) == PackageName(b, p) {}
    hide PackageName;
    assert Blocked(a) <==> Blocked(b);
    if r.Ok? {
      assert Discovered(b, r.value);
      DiscoveryIsUnique(b, r.value, s.value);
    }
  }

  // ---------- the two views of a tree ----------

  predicate Gives(read: string -> Result<seq<string>>, pattern: string, m: string) {
    read(pattern).Ok? && m in read(pattern).value
  }

  lemma {:induction false} GatherHolds(read: string -> Result<seq<string>>, patterns: seq<string>)
    ensures Gather(read, patterns).Err? <==> exists pattern | pattern in patterns :: read(pattern).Err?
    ensures Gather(read, patterns).Ok? ==> forall m ::
              m in Gather(read, patterns).value <==> exists pattern | pattern in patterns :: Gives(read, pattern, m)
  {
    if patterns != [] {
      GatherHolds(read, patterns[1..]);
      assert patterns == [patterns[0]] + patterns[1..];
      if Gather(read, patterns).Ok? {
        var first, rest := read(patterns[0]).value, Gather(read, patterns[1..]).value;
        assert Gather(read, patterns).value == first + rest;
        forall m ensures m in first + rest <==> exists pattern | pattern in patterns :: Gives(read, pattern, m) {
          assert m in first <==> Gives(read, patterns[0], m);
        }
      }
    }
  }

  /** Whatever a wildcard pattern matches under a path with a backslash is excluded, and so is the
      slashed path unless it is a member anyway; and the root is not found as a member. */
  ghost predicate Survives(w: Workspace, entries: Entries, pattern: string) {
    if NormalizedSegments(pattern) == [] then
      IsFile(Dir(entries), [MANIFEST]) ==> Excluded("", w.excludes)
    else
      forall m | m in FilteredPaths(pattern, Listing(entries, "")) && '\\' in m ::
        && Excluded(m, w.excludes)
        && (Excluded(Slashed(m), w.excludes) || Reachable(w, Slashed(m)))
  }

  ghost predicate AllSurvive(c: Config, w: Workspace, entries: Entries) {
    forall pattern | pattern in c.members && ContainsGlob(pattern) :: Survives(w, entries, pattern)
  }

  /** Both views of one tree could be read. */
  ghost predicate BothViews(c: Config, entries: Entries, a: Workspace, b: Workspace) {
    && ValidEntries(entries) && PlainSegments(c.root)
    && View(c, DiskRead(c.root, Dir(entries))) == Ok(a)
    && View(c, RevisionRead(c.root, Listing(entries, ""))) == Ok(b)
  }

  lemma ViewsAreTwins(c: Config, entries: Entries, a: Workspace, b: Workspace)
    requires BothViews(c, entries, a, b)
    ensures Twins(a, b) && CleanDependencies(a) && CleanDependencies(b)
  {
    DependencyPathsAreClean(c.root, c.dependencies);
  }

  /** The members of the view on disk hold no backslash. */
  lemma DiskMembersAreSlashed(c: Config, entries: Entries, a: Workspace, b: Workspace)
    requires BothViews(c, entries, a, b)
    ensures forall m | m in a.members :: '\\' !in m
  {
    hide FilterListing, Listing, Expand, ValidEntries;
    var tree := Dir(entries);
    GatherHolds(DiskRead(c.root, tree), c.members);
    forall m | m in a.members ensures '\\' !in m {
      var pattern :| pattern in c.members && Gives(DiskRead(c.root, tree), pattern, m);
      DiskGivesSlashed(c.root, entries, pattern, m);
    }
  }

  lemma DiskGivesSlashed(root: seq<string>, entries: Entries, pattern: string, m: string)
    requires ValidEntries(entries) && PlainSegments(root) && Gives(DiskRead(root, Dir(entries)), pattern, m)
    ensures '\\' !in m
  {
    hide FilteredPaths, Listing, WalkedPaths, ValidEntries;
    if !ContainsGlob(pattern) {
      WorkspacePathIsClean(root, root, pattern);
    } else if NormalizedSegments(pattern) == [] {
      EmptyPatternWalks(Dir(entries), pattern);
    } else {
      WalkedAreSlashed(entries, pattern, m);
    }
  }

  /** The members of a revision's view are not empty. */
  lemma RevisionMembersAreNotEmpty(c: Config, entries: Entries, a: Workspace, b: Workspace)
    requires BothViews(c, entries, a, b)
    ensures "" !in b.members
  {
    hide FilterListing, Listing, Expand, ValidEntries;
    var read := RevisionRead(c.root, Listing(entries, ""));
    GatherHolds(read, c.members);
    if "" in b.members {
      var pattern :| pattern in c.members && Gives(read, pattern, "");
      if ContainsGlob(pattern) { FilteredAreNotEmpty(entries, pattern); } else {
        WorkspacePathIsClean(c.root, c.root, pattern);
      }
    }
  }

  /** A pattern's paths on disk that are not excluded are reached in the revision when all survive. */
  lemma DiskIsReached(c: Config, entries: Entries, a: Workspace, b: Workspace, pattern: string, m: string)
    requires BothViews(c, entries, a, b) && AllSurvive(c, b, entries)
    requires pattern in c.members && Gives(DiskRead(c.root, Dir(entries)), pattern, m) && !Excluded(m, b.excludes)
    ensures Reachable(b, m)
  {
    hide FilteredPaths, Listing, WalkedPaths, ValidEntries, Excluded, Reachable;
    var read := RevisionRead(c.root, Listing(entries, ""));
    GatherHolds(read, c.members);
    if !ContainsGlob(pattern) {
      assert Gives(read, pattern, m);
      ReachableStart(b, m);
    } else {
      assert Survives(b, entries, pattern);
      if NormalizedSegments(pattern) == [] {
        EmptyPatternWalks(Dir(entries), pattern);
      } else {
        WalkedAreSlashed(entries, pattern, m);
        var p :| p in FilteredPaths(pattern, Listing(entries, "")) && m == Slashed(p);
        if '\\' !in p {
          assert Gives(read, pattern, m);
          ReachableStart(b, m);
        }
      }
    }
  }

  lemma RevisionIsReached(c: Config, entries: Entries, a: Workspace, b: Workspace, pattern: string, m: string)
    requires BothViews(c, entries, a, b) && AllSurvive(c, b, entries)
    requires pattern in c.members && !Excluded(m, b.excludes)
    requires Gives(RevisionRead(c.root, Listing(entries, "")), pattern, m)
    ensures Reachable(a, m)
  {
    hide FilteredPaths, Listing, WalkedPaths, ValidEntries, Excluded, Reachable;
    var read := DiskRead(c.root, Dir(entries));
    GatherHolds(read, c.members);
    if ContainsGlob(pattern) {
      assert Survives(b, entries, pattern);
      if NormalizedSegments(pattern) == [] {
        NothingFiltered(entries, pattern);
      } else {
        assert Slashed(m) == m;
        WalkedAreSlashed(entries, pattern, m);
      }
    }
    assert Gives(read, pattern, m);
    ReachableStart(a, m);
  }

  lemma SurvivorsReach(c: Config, entries: Entries, a: Workspace, b: Workspace)
    requires BothViews(c, entries, a, b) && AllSurvive(c, b, entries)
    ensures MembersReach(a, b) && MembersReach(b, a)
  {
    hide FilteredPaths, Listing, WalkedPaths, ValidEntries, Excluded, Reachable, AllSurvive;
    var disk, revision := DiskRead(c.root, Dir(entries)), RevisionRead(c.root, Listing(entries, ""));
    GatherHolds(disk, c.members);
    GatherHolds(revision, c.members);
    forall m | m in a.members && !Excluded(m, a.excludes) ensures Reachable(b, m) {
      var pattern :| pattern in c.members && Gives(disk, pattern, m);
      DiskIsReached(c, entries, a, b, pattern, m);
    }
    forall m | m in b.members && !Excluded(m, b.excludes) ensures Reachable(a, m) {
      var pattern :| pattern in c.members && Gives(revision, pattern, m);
      RevisionIsReached(c, entries, a, b, pattern, m);
    }
  }

  lemma ReachedSurvive(c: Config, entries: Entries, a: Workspace, b: Workspace, pattern: string)
    requires BothViews(c, entries, a, b) && MembersReach(a, b) && MembersReach(b, a)
    requires pattern in c.members && ContainsGlob(pattern)
    ensures Survives(b, entries, pattern)
  {
    hide FilteredPaths, Listing, WalkedPaths, ValidEntries, Excluded, Reachable;
    var disk, revision := DiskRead(c.root, Dir(entries)), RevisionRead(c.root, Listing(entries, ""));
    GatherHolds(disk, c.members);
    GatherHolds(revision, c.members);
    ViewsAreTwins(c, entries, a, b);
    if NormalizedSegments(pattern) == [] {
      EmptyPatternWalks(Dir(entries), pattern);
      if IsFile(Dir(entries), [MANIFEST]) && !Excluded("", b.excludes) {
        assert Gives(disk, pattern, "");
        ReachableIsClean(b, "");
        RevisionMembersAreNotEmpty(c, entries, a, b);
      }
    } else {
      forall m | m in FilteredPaths(pattern, Listing(entries, "")) && '\\' in m
        ensures Excluded(m, b.excludes) && (Excluded(Slashed(m), b.excludes) || Reachable(b, Slashed(m)))
      {
        assert Gives(revision, pattern, m);
        if !Excluded(m, b.excludes) {
          ReachableIsClean(a, m);
          DiskMembersAreSlashed(c, entries, a, b);
        }
        WalkedAreSlashed(entries, pattern, Slashed(m));
        assert Gives(disk, pattern, Slashed(m));
      }
    }
  }

  lemma ViewsFailTogether(c: Config, entries: Entries)
    ensures View(c, DiskRead(c.root, Dir(entries))).Err? <==> View(c, RevisionRead(c.root, Listing(entries, ""))).Err?
  {
    GatherHolds(DiskRead(c.root, Dir(entries)), c.members);
    GatherHolds(RevisionRead(c.root, Listing(entries, "")), c.members);
  }

  /**
   For one tree, the members found on disk and those found in a revision that lists it are the same
   exactly when both discoveries fail or every wildcard pattern survives.
   */
  lemma DiscoveriesAgreeExactly(c: Config, entries: Entries, disk: Result<seq<Member>>, revision: Result<seq<Member>>)
    requires ValidEntries(entries) && PlainSegments(c.root)
    requires Yields(View(c, DiskRead(c.root, Dir(entries))), disk)
    requires Yields(View(c, RevisionRead(c.root, Listing(entries, ""))), revision)
    ensures disk == revision
       <==> || (disk.Err? && revision.Err?)
            || var view := View(c, RevisionRead(c.root, Listing(entries, "")));
               view.Ok? && AllSurvive(c, view.value, entries)
  {
    hide Yields, View, Survives, MembersReach;
    ViewsFailTogether(c, entries);
    var a, b := View(c, DiskRead(c.root, Dir(entries))), View(c, RevisionRead(c.root, Listing(entries, "")));
    if a.Err? {
      FailedYields(a, disk);
      FailedYields(b, revision);
    } else {
      ViewsAreTwins(c, entries, a.value, b.value);
      TwinsAgreeExactly(a.value, b.value, disk, revision);
      if AllSurvive(c, b.value, entries) { SurvivorsReach(c, entries, a.value, b.value); }
      if MembersReach(a.value, b.value) && MembersReach(b.value, a.value) {
        forall pattern | pattern in c.members && ContainsGlob(pattern) {
          ReachedSurvive(c, entries, a.value, b.value, pattern);
        }
      }
    }
  }

  lemma FailedYields(view: Result<Workspace>, r: Result<seq<Member>>)
    requires view.Err? && Yields(view, r)
    ensures r.Err?
  {
  }

  /** Where the two expansions of every member pattern agree, so do the two discoveries. */
  lemma DiscoveriesAgree(c: Config, entries: Entries, disk: Result<seq<Member>>, revision: Result<seq<Member>>)
    requires ValidEntries(entries) && PlainSegments(c.root)
    requires Yields(View(c, DiskRead(c.root, Dir(entries))), disk)
    requires Yields(View(c, RevisionRead(c.root, Listing(entries, ""))), revision)
    requires forall pattern | pattern in c.members ::
        OnDisk(c.root, Dir(entries), pattern) == AtRevision(c.root, pattern, Listing(entries, ""))
    ensures disk == revision
  {
    hide Yields, OnDisk, AtRevision, IsFile, FilteredPaths;
    DiscoveriesAgreeExactly(c, entries, disk, revision);
    ViewsFailTogether(c, entries);
    var view := View(c, RevisionRead(c.root, Listing(entries, "")));
    if view.Err? {
      FailedYields(view, revision);
      FailedYields(View(c, DiskRead(c.root, Dir(entries))), disk);
    } else {
      forall pattern | pattern in c.members && ContainsGlob(pattern) ensures Survives(view.value, entries, pattern) {
        ExpansionsAgree(c.root, entries, pattern);
      }
    }
  }
}
