/**
 Workspace member discovery (xtask/src/audit_scope.rs): a worklist that starts from the member
 patterns and the workspace dependencies and follows path dependencies, skipping excluded paths.
 */
module Discovery {
  import opened Wrappers
  import opened Ordering
  import opened Text
  import opened WorkspacePatterns

  /** One entry of a dependency table. */
  datatype Dependency = ByPath(path: string) | ByWorkspace(name: string) | Elsewhere

  /** The dependency tables of a manifest, or of one of its targets, which nest. */
  datatype Tables = Tables(normal: seq<Dependency>, dev: seq<Dependency>, build: seq<Dependency>,
                           targets: seq<Tables>)

  /** A manifest file: unreadable as TOML, or its package name and its dependency tables. */
  datatype Manifest = Malformed | Parsed(package: Option<string>, tables: Tables)

  datatype Member = Member(package: string, path: string)

  /** What discovery reads: the root, expanded member patterns, excludes, the workspace's own dependency
      paths by name, and the manifest of every package directory that holds one. */
  datatype Workspace = Workspace(
    root: seq<string>,
    members: seq<string>,
    excludes: seq<string>,
    dependencies: seq<(string, string)>,
    manifests: map<string, Manifest>)

  function DependencyPath(dependencies: seq<(string, string)>, name: string): Option<string> {
    if dependencies == [] then None
    else if dependencies[0].0 == name then Some(dependencies[0].1)
    else DependencyPath(dependencies[1..], name)
  }

  function PathTarget(w: Workspace, package: string, path: string): Option<string> {
    match WorkspacePath(w.root, Located(w.root, package), path)
    case Ok(target) => Some(target)
    case Err => None
  }

  /** Where a package's dependency leads, when that is inside the workspace. */
  function Target(w: Workspace, package: string, d: Dependency): Option<string> {
    match d
    case ByPath(path) => PathTarget(w, package, path)
    case ByWorkspace(name) => DependencyPath(w.dependencies, name)
    case Elsewhere => None
  }

  function Targets(w: Workspace, package: string, ds: seq<Dependency>): seq<string> {
    if ds == [] then []
    else
      (if Target(w, package, ds[0]).Some? then [Target(w, package, ds[0]).value] else [])
      + Targets(w, package, ds[1..])
  }

  ghost predicate Mentions(t: Tables, d: Dependency) {
    d in t.normal || d in t.dev || d in t.build || exists i | 0 <= i < |t.targets| :: Mentions(t.targets[i], d)
  }

  /** All entries of nested tables, in the order they are visited. */
  function AllEntries(t: Tables): seq<Dependency>
    decreases t, |t.targets| + 1
  {
    t.normal + t.dev + t.build + TargetEntries(t, |t.targets|)
  }

  function TargetEntries(t: Tables, n: nat): seq<Dependency>
    requires n <= |t.targets|
    decreases t, n
  {
    if n == 0 then [] else TargetEntries(t, n - 1) + AllEntries(t.targets[n - 1])
  }

  lemma {:induction false} EntriesAreMentioned(t: Tables, d: Dependency)
    ensures d in AllEntries(t) <==> Mentions(t, d)
    decreases t, |t.targets| + 1
  {
    TargetEntriesAreMentioned(t, |t.targets|, d);
  }

  lemma {:induction false} TargetEntriesAreMentioned(t: Tables, n: nat, d: Dependency)
    requires n <= |t.targets|
    ensures d in TargetEntries(t, n) <==> exists i | 0 <= i < n :: Mentions(t.targets[i], d)
    decreases t, n
  {
    if n > 0 {
      TargetEntriesAreMentioned(t, n - 1, d);
      EntriesAreMentioned(t.targets[n - 1], d);
    }
  }

  /** The path dependencies of a package, sorted and without repeats; none without a manifest. */
  function PackageDependencies(w: Workspace, path: string): Result<seq<string>> {
    if path !in w.manifests then Ok([])
    else match w.manifests[path]
      case Malformed => Err
      case Parsed(_, tables) => Ok(Dedup(Sort(LexLeq, Targets(w, path, AllEntries(tables)))))
  }

  function LastSegment(path: string): string {
    var names := Split(path, '/');
    names[|names| - 1]
  }

  function PackageName(w: Workspace, path: string): Result<string> {
    if path !in w.manifests then Ok(LastSegment(path))
    else match w.manifests[path]
      case Malformed => Err
      case Parsed(Some(name), _) => Ok(name)
      case Parsed(None, _) => Ok(LastSegment(path))
  }

  predicate MemberLeq(a: Member, b: Member) {
    if a.package == b.package then LexLeq(a.path, b.path) else LexLeq(a.package, b.package)
  }

  function PathOf(m: Member): string { m.path }

  function Paths(members: seq<Member>): (r: seq<string>)
    ensures |r| == |members| && forall i | 0 <= i < |r| :: r[i] == members[i].path
  {
    seq(|members|, i requires 0 <= i < |members| => members[i].path)
  }

  // ---------- the declarative meaning ----------

  ghost predicate Start(w: Workspace, path: string) {
    path in w.members || exists i | 0 <= i < |w.dependencies| :: w.dependencies[i].1 == path
  }

  ghost predicate DependsOn(w: Workspace, path: string, dependency: string) {
    && path in w.manifests && w.manifests[path].Parsed?
    && exists d :: Mentions(w.manifests[path].tables, d) && Target(w, path, d) == Some(dependency)
  }

  /** A chain of path dependencies from a starting path, no link of it excluded. */
  ghost predicate Chain(w: Workspace, chain: seq<string>) {
    && chain != [] && Start(w, chain[0])
    && (forall i | 0 <= i < |chain| :: !Excluded(chain[i], w.excludes))
    && (forall i | 0 <= i < |chain| - 1 :: DependsOn(w, chain[i], chain[i + 1]))
  }

  ghost predicate Reachable(w: Workspace, path: string) {
    exists chain :: Chain(w, chain) && chain[|chain| - 1] == path
  }

  lemma ReachableStart(w: Workspace, path: string)
    requires Start(w, path) && !Excluded(path, w.excludes)
    ensures Reachable(w, path)
  {
    assert Chain(w, [path]);
  }

  lemma ReachableStep(w: Workspace, path: string, dependency: string)
    requires Reachable(w, path) && DependsOn(w, path, dependency) && !Excluded(dependency, w.excludes)
    ensures Reachable(w, dependency)
  {
    var chain :| Chain(w, chain) && chain[|chain| - 1] == path;
    assert Chain(w, chain + [dependency]);
  }

  /** A set that holds the starts and is closed under dependencies holds every reachable path. */
  lemma {:induction false} ClosedHoldsChain(w: Workspace, closed: set<string>, chain: seq<string>)
    requires Chain(w, chain)
    requires forall p | Start(w, p) && !Excluded(p, w.excludes) :: p in closed
    requires forall p, q | p in closed && DependsOn(w, p, q) && !Excluded(q, w.excludes) :: q in closed
    ensures chain[|chain| - 1] in closed
  {
    if |chain| > 1 {
      var shorter := chain[..|chain| - 1];
      assert Chain(w, shorter);
      ClosedHoldsChain(w, closed, shorter);
      assert DependsOn(w, chain[|chain| - 2], chain[|chain| - 1]);
    }
  }

  lemma {:induction false} TargetsAreDependencies(w: Workspace, package: string, ds: seq<Dependency>, q: string)
    ensures q in Targets(w, package, ds) <==> exists d | d in ds :: Target(w, package, d) == Some(q)
  {
    if ds != [] {
      TargetsAreDependencies(w, package, ds[1..], q);
      assert ds == [ds[0]] + ds[1..];
    }
  }

  lemma PackageDependenciesAre(w: Workspace, path: string, q: string)
    requires PackageDependencies(w, path).Ok?
    ensures q in PackageDependencies(w, path).value <==> DependsOn(w, path, q)
  {
    if path in w.manifests {
      var tables := w.manifests[path].tables;
      LexIsTotalOrder();
      SortDedupIsCanonical(LexLeq, Targets(w, path, AllEntries(tables)));
      TargetsAreDependencies(w, path, AllEntries(tables), q);
      forall d { EntriesAreMentioned(tables, d); }
    }
  }

  // ---------- collecting dependency paths ----------

  method CollectTablePaths(w: Workspace, package: string, table: seq<Dependency>, paths: seq<string>)
    returns (out: seq<string>)
    ensures forall q :: q in out <==> q in paths || exists d | d in table :: Target(w, package, d) == Some(q)
  {
    hide Target;
    out := paths;
    for i := 0 to |table|
      invariant forall q ::
          q in out <==> q in paths || exists j | 0 <= j < i :: Target(w, package, table[j]) == Some(q)
    {
      var target := Target(w, package, table[i]);
      if target.Some? && target.value !in out { out := out + [target.value]; }
    }
  }

  /** The recursive collection as written, adding to the paths it is given. */
  method CollectPackagePaths(w: Workspace, package: string, tables: Tables, paths: seq<string>)
    returns (out: seq<string>)
    ensures forall q ::
        q in out <==> q in paths || exists d :: Mentions(tables, d) && Target(w, package, d) == Some(q)
    decreases tables
  {
    hide Target;
    out := CollectTablePaths(w, package, tables.normal, paths);
    out := CollectTablePaths(w, package, tables.dev, out);
    out := CollectTablePaths(w, package, tables.build, out);
    ghost var own := out;
    for i := 0 to |tables.targets|
      invariant forall q :: q in out <==>
                  q in own || exists j, d ::
                    0 <= j < i && Mentions(tables.targets[j], d) && Target(w, package, d) == Some(q)
    {
      out := CollectPackagePaths(w, package, tables.targets[i], out);
    }
  }

  method ReadPackageDependencies(w: Workspace, path: string) returns (r: Result<seq<string>>)
    ensures r == PackageDependencies(w, path)
  {
    if path !in w.manifests { return Ok([]); }
    if w.manifests[path].Malformed? { return Err; }
    var tables := w.manifests[path].tables;
    var out := CollectPackagePaths(w, path, tables, []);
    CollectedAreTargets(w, path, tables, out);
    return Ok(Dedup(Sort(LexLeq, out)));
  }

  lemma CollectedAreTargets(w: Workspace, path: string, tables: Tables, out: seq<string>)
    requires forall q :: q in out <==> exists d :: Mentions(tables, d) && Target(w, path, d) == Some(q)
    ensures Dedup(Sort(LexLeq, out)) == Dedup(Sort(LexLeq, Targets(w, path, AllEntries(tables))))
  {
    hide Target;
    LexIsTotalOrder();
    forall q ensures q in out <==> q in Targets(w, path, AllEntries(tables)) {
      TargetsAreDependencies(w, path, AllEntries(tables), q);
      forall d { EntriesAreMentioned(tables, d); }
    }
    SortDedupDependsOnSet(LexLeq, out, Targets(w, path, AllEntries(tables)));
  }

  // ---------- where dependencies lead ----------

  lemma PackageDirectory(root: seq<string>, segments: seq<string>)
    requires PlainSegments(segments) && segments != []
    ensures Located(root, Join(segments, "/")) == root + segments
  {
    hide Join, Split;
    JoinedStart(segments);
    PlainAreKept(segments, root);
  }

  /** A path dependency is read from the package's own directory: it leads below it, and after two dots to
      a neighbour. A workspace reference leads where the workspace says. */
  lemma DependencyLeads(w: Workspace, above: seq<string>, d: string, names: seq<string>)
    requires PlainSegments(w.root) && PlainSegments(above + [d]) && PlainSegments(names) && names != []
    ensures var package, path := Join(above + [d], "/"), Join(names, "/");
      && Target(w, package, ByPath(path)) == Some(Slashed(Join(above + [d] + names, "/")))
      && Target(w, package, ByPath("../" + path)) == Some(Slashed(Join(above + names, "/")))
  {
    hide Join, Split, Slashed, Located, WorkspacePath;
    PackageDirectory(w.root, above + [d]);
    assert d in above + [d] && w.root + above + [d] == w.root + (above + [d]);
    JoinedStart(names);
    PathGoesDown(w.root, [], above + [d], names);
    PathStepsUp(w.root, w.root + above, d, Join(names, "/"));
    PathGoesDown(w.root, [], above, names);
  }

  lemma {:induction false} NameIsFound(before: seq<(string, string)>, after: seq<(string, string)>, name: string,
                                       path: string)
    requires forall e | e in before :: e.0 != name
    ensures DependencyPath(before + [(name, path)] + after, name) == Some(path)
  {
    var all := before + [(name, path)] + after;
    if before != [] {
      assert all[0] == before[0] && before[0] in before;
      assert all[1..] == before[1..] + [(name, path)] + after;
      NameIsFound(before[1..], after, name, path);
    }
  }

  lemma {:induction false} NameIsMissing(dependencies: seq<(string, string)>, name: string)
    requires forall e | e in dependencies :: e.0 != name
    ensures DependencyPath(dependencies, name) == None
  {
    if dependencies != [] {
      assert dependencies[0] in dependencies;
      NameIsMissing(dependencies[1..], name);
    }
  }

  /** A workspace reference leads where the first workspace dependency of its name does, and else nowhere. */
  lemma WorkspaceReference(w: Workspace, package: string, before: seq<(string, string)>, after: seq<(string, string)>,
                           name: string, path: string)
    requires forall e | e in before :: e.0 != name
    ensures w.dependencies == before + [(name, path)] + after ==>
              Target(w, package, ByWorkspace(name)) == Some(path)
    ensures w.dependencies == before ==> Target(w, package, ByWorkspace(name)) == None
  {
    NameIsFound(before, after, name, path);
    NameIsMissing(before, name);
  }

  /** A package is called by its manifest, or without a name there by the last segment of its path. */
  lemma PackageIsNamed(w: Workspace, above: seq<string>, d: string)
    requires PlainSegments(above + [d])
    ensures var path := Join(above + [d], "/");
      && (path !in w.manifests ==> PackageName(w, path) == Ok(d))
      && (path in w.manifests ==> (PackageName(w, path).Err? <==> w.manifests[path].Malformed?))
      && (path in w.manifests && w.manifests[path].Parsed? ==>
            PackageName(w, path).value
            == if w.manifests[path].package.Some? then w.manifests[path].package.value else d)
  {
    hide Join, Split;
    JoinedStart(above + [d]);
  }

  // ---------- the worklist ----------

  function TargetsOf(w: Workspace, path: string): seq<string>
    requires path in w.manifests
  {
    if w.manifests[path].Parsed? then Targets(w, path, AllEntries(w.manifests[path].tables)) else []
  }

  /** Every path the inputs mention; the worklist never leaves it. */
  ghost function Universe(w: Workspace): set<string> {
    (set p | p in w.members) + (set e | e in w.dependencies :: e.1)
    + (set p, q | p in w.manifests && q in TargetsOf(w, p) :: q)
  }

  lemma StartsInUniverse(w: Workspace, path: string)
    requires Start(w, path)
    ensures path in Universe(w)
  {
    if path !in w.members {
      var i :| 0 <= i < |w.dependencies| && w.dependencies[i].1 == path;
      assert w.dependencies[i] in w.dependencies;
    }
  }

  lemma DependencyInUniverse(w: Workspace, path: string, q: string)
    requires DependsOn(w, path, q)
    ensures q in Universe(w)
  {
    var tables := w.manifests[path].tables;
    TargetsAreDependencies(w, path, AllEntries(tables), q);
    forall d { EntriesAreMentioned(tables, d); }
    assert q in TargetsOf(w, path);
  }

  /** The invariant of discovery: what was seen is what was listed, and all of it belongs. */
  ghost predicate Sound(w: Workspace, seen: set<string>, out: seq<Member>) {
    && seen <= Universe(w)
    && DistinctBy(PathOf, out)
    && (forall p :: p in seen <==> p in Paths(out))
    && (forall m | m in out :: PackageName(w, m.path) == Ok(m.package))
    && (forall p | p in seen :: Reachable(w, p))
  }

  /** Failure is reported only for a reachable path whose manifest cannot be read. */
  ghost predicate Blocked(w: Workspace) {
    exists p :: Reachable(w, p) && PackageName(w, p).Err?
  }

  lemma SoundInsert(w: Workspace, seen: set<string>, out: seq<Member>, m: Member)
    requires Sound(w, seen, out) && m.path !in seen && m.path in Universe(w) && Reachable(w, m.path)
    requires PackageName(w, m.path) == Ok(m.package)
    ensures Sound(w, seen + {m.path}, out + [m])
  {
    hide Reachable, PackageName, Universe;
    assert Paths(out + [m]) == Paths(out) + [m.path];
    forall i | 0 <= i < |out| ensures PathOf(out[i]) in seen { assert Paths(out)[i] == PathOf(out[i]); }
  }

  method InsertMember(w: Workspace, path: string, seen: set<string>, out: seq<Member>)
    returns (inserted: Result<bool>, seen': set<string>, out': seq<Member>)
    requires Sound(w, seen, out) && path in Universe(w)
    requires !Excluded(path, w.excludes) ==> Reachable(w, path)
    ensures inserted.Err? ==> Blocked(w)
    ensures inserted.Ok? ==> Sound(w, seen', out')
    ensures inserted.Ok? ==> seen' == if Excluded(path, w.excludes) then seen else seen + {path}
    ensures inserted == Ok(true) <==> seen' != seen && inserted.Ok?
  {
    hide Sound, Excluded, Reachable, PackageName, Universe;
    seen', out' := seen, out;
    if Excluded(path, w.excludes) { return Ok(false), seen, out; }
    if path in seen { return Ok(false), seen, out; }
    seen' := seen + {path};
    var package := PackageName(w, path);
    if package.Err? { return Err, seen', out; }
    out' := out + [Member(package.value, path)];
    SoundInsert(w, seen, out, Member(package.value, path));
    return Ok(true), seen', out';
  }

  method InsertAll(w: Workspace, paths: seq<string>, seen: set<string>, out: seq<Member>, pending: seq<string>)
    returns (result: Result<()>, seen': set<string>, out': seq<Member>, pending': seq<string>)
    requires Sound(w, seen, out)
    requires forall p | p in paths :: p in Universe(w) && (!Excluded(p, w.excludes) ==> Reachable(w, p))
    ensures result.Err? ==> Blocked(w)
    ensures result.Ok? ==> Sound(w, seen', out') && seen <= seen'
    ensures result.Ok? ==> forall p | p in paths && !Excluded(p, w.excludes) :: p in seen'
    ensures result.Ok? ==> forall p :: p in pending' <==> p in pending || p in seen' - seen
    ensures result.Ok? && seen' == seen ==> pending' == pending
  {
    hide Sound, Reachable, Universe, Blocked, Excluded;
    seen', out', pending' := seen, out, pending;
    for i := 0 to |paths|
      invariant Sound(w, seen', out') && seen <= seen'
      invariant forall j | 0 <= j < i && !Excluded(paths[j], w.excludes) :: paths[j] in seen'
      invariant forall p :: p in pending' <==> p in pending || p in seen' - seen
      invariant seen' == seen ==> pending' == pending
    {
      var inserted;
      inserted, seen', out' := InsertMember(w, paths[i], seen', out');
      if inserted.Err? { return Err, seen', out', pending'; }
      if inserted.value { pending' := pending' + [paths[i]]; }
    }
    return Ok(()), seen', out', pending';
  }

  /** The package directories found: sorted, each path once, exactly the reachable ones. */
  ghost predicate Discovered(w: Workspace, members: seq<Member>) {
    && SortedBy(MemberLeq, members)
    && DistinctBy(PathOf, members)
    && (forall p :: p in Paths(members) <==> Reachable(w, p))
    && (forall m | m in members :: PackageName(w, m.path) == Ok(m.package))
  }

  ghost predicate HoldsStarts(w: Workspace, seen: set<string>) {
    forall p | Start(w, p) && !Excluded(p, w.excludes) :: p in seen
  }

  /** Paths already popped have had their dependencies inserted. */
  ghost predicate Expanded(w: Workspace, seen: set<string>, pending: seq<string>) {
    forall p, q | p in seen && p !in pending && DependsOn(w, p, q) && !Excluded(q, w.excludes) :: q in seen
  }

  lemma StartsBelong(w: Workspace, p: string)
    requires Start(w, p)
    ensures p in Universe(w) && (!Excluded(p, w.excludes) ==> Reachable(w, p))
  {
    StartsInUniverse(w, p);
    if !Excluded(p, w.excludes) { ReachableStart(w, p); }
  }

  method InsertStarts(w: Workspace)
    returns (result: Result<()>, seen: set<string>, out: seq<Member>, pending: seq<string>)
    ensures result.Err? ==> Blocked(w)
    ensures result.Ok? ==> Sound(w, seen, out) && HoldsStarts(w, seen)
    ensures result.Ok? ==> forall p :: p in pending <==> p in seen
  {
    seen, out, pending := {}, [], [];
    forall p | p in w.members ensures p in Universe(w) && (!Excluded(p, w.excludes) ==> Reachable(w, p)) {
      StartsBelong(w, p);
    }
    result, seen, out, pending := InsertAll(w, w.members, seen, out, []);
    if result.Err? { return; }
    pending := Sort(LexLeq, Paths(out));
    forall p ensures p in pending <==> p in seen { SameElements(pending, Paths(out), p); }
    var values := seq(|w.dependencies|, i requires 0 <= i < |w.dependencies| => w.dependencies[i].1);
    forall p | p in values ensures p in Universe(w) && (!Excluded(p, w.excludes) ==> Reachable(w, p)) {
      StartsBelong(w, p);
    }
    result, seen, out, pending := InsertAll(w, values, seen, out, pending);
    if result.Err? { return; }
    forall p | Start(w, p) && !Excluded(p, w.excludes) ensures p in seen {
      if p !in w.members {
        var i :| 0 <= i < |w.dependencies| && w.dependencies[i].1 == p;
        assert values[i] in values;
      }
    }
  }

  /** One turn of the worklist: expand the popped path. */
  method ExpandPath(w: Workspace, path: string, seen: set<string>, out: seq<Member>, rest: seq<string>)
    returns (result: Result<()>, seen': set<string>, out': seq<Member>, pending: seq<string>)
    requires Sound(w, seen, out) && path in seen && Expanded(w, seen, rest + [path])
    ensures result.Err? ==> Blocked(w)
    ensures result.Ok? ==> Sound(w, seen', out') && seen <= seen' && Expanded(w, seen', pending)
    ensures result.Ok? ==> forall p :: p in pending <==> p in rest || p in seen' - seen
    ensures result.Ok? && seen' == seen ==> pending == rest
  {
    var dependencies := ReadPackageDependencies(w, path);
    if dependencies.Err? { return Err, seen, out, rest; }
    forall q | q in dependencies.value ensures q in Universe(w) && (!Excluded(q, w.excludes) ==> Reachable(w, q)) {
      PackageDependenciesAre(w, path, q);
      DependencyInUniverse(w, path, q);
      if !Excluded(q, w.excludes) { ReachableStep(w, path, q); }
    }
    result, seen', out', pending := InsertAll(w, dependencies.value, seen, out, rest);
    if result.Err? { return; }
    forall p, q | p in seen' && p !in pending && DependsOn(w, p, q) && !Excluded(q, w.excludes) ensures q in seen' {
      if p == path { PackageDependenciesAre(w, path, q); }
    }
  }

  lemma ExhaustedHoldsReachable(w: Workspace, seen: set<string>)
    requires HoldsStarts(w, seen) && Expanded(w, seen, [])
    ensures forall p | Reachable(w, p) :: p in seen
  {
    forall p | Reachable(w, p) ensures p in seen {
      var chain :| Chain(w, chain) && chain[|chain| - 1] == p;
      ClosedHoldsChain(w, seen, chain);
    }
  }

  lemma NothingBlocked(w: Workspace, seen: set<string>, out: seq<Member>)
    requires Sound(w, seen, out) && forall p | Reachable(w, p) :: p in seen
    ensures !Blocked(w)
  {
    forall p | Reachable(w, p) ensures PackageName(w, p).Ok? {
      PathsHold(out, p);
    }
  }

  method DiscoverMembers(w: Workspace) returns (result: Result<seq<Member>>)
    ensures result.Ok? ==> Discovered(w, result.value)
    ensures result.Err? <==> Blocked(w)
  {
    hide DependsOn, Start, Reachable, PackageName, DistinctBy, Paths, Universe, Blocked, Discovered, Excluded;
    var r, seen, out, pending := InsertStarts(w);
    if r.Err? { return Err; }
    assert Expanded(w, seen, pending);
    hide Expanded;
    while pending != []
      invariant Sound(w, seen, out) && HoldsStarts(w, seen) && Expanded(w, seen, pending)
      invariant forall p | p in pending :: p in seen
      decreases Universe(w) - seen, |pending|
    {
      var path, rest := pending[|pending| - 1], pending[..|pending| - 1];
      assert pending == rest + [path];
      ghost var before := seen;
      r, seen, out, pending := ExpandPath(w, path, seen, out, rest);
      if r.Err? { return Err; }
      if seen != before { assert exists p :: p in seen - before; }
    }
    ExhaustedHoldsReachable(w, seen);
    NothingBlocked(w, seen, out);
    SortedDiscovery(w, seen, out);
    return Ok(Sort(MemberLeq, out));
  }

  lemma MemberLeqIsTotalOrder()
    ensures TotalPreorder(MemberLeq) && Antisymmetric(MemberLeq)
  {
    LexIsTotalOrder();
    forall x, y, z | MemberLeq(x, y) && MemberLeq(y, z) ensures MemberLeq(x, z) {
      assert LexLeq(x.package, y.package) || x.package == y.package;
    }
  }

  lemma PathsHold(ms: seq<Member>, p: string)
    ensures p in Paths(ms) <==> exists m | m in ms :: m.path == p
  {
    if p in Paths(ms) {
      var i :| 0 <= i < |ms| && Paths(ms)[i] == p;
      assert ms[i] in ms;
    }
    if m :| m in ms && m.path == p {
      var i :| 0 <= i < |ms| && ms[i] == m;
      assert Paths(ms)[i] == p;
    }
  }

  lemma SortedDiscovery(w: Workspace, seen: set<string>, out: seq<Member>)
    requires Sound(w, seen, out)
    requires forall p | Reachable(w, p) :: p in seen
    ensures Discovered(w, Sort(MemberLeq, out))
  {
    var sorted := Sort(MemberLeq, out);
    MemberLeqIsTotalOrder();
    SortSorts(MemberLeq, out);
    SortKeepsDistinct(MemberLeq, PathOf, out);
    forall m ensures m in sorted <==> m in out { SameElements(sorted, out, m); }
    forall p ensures p in Paths(sorted) <==> p in Paths(out) {
      PathsHold(sorted, p);
      PathsHold(out, p);
    }
  }

  /** The result is fixed by the inputs alone: no order of the worklist can change it. */
  lemma DiscoveryIsUnique(w: Workspace, a: seq<Member>, b: seq<Member>)
    requires Discovered(w, a) && Discovered(w, b)
    ensures a == b
  {
    MemberLeqIsTotalOrder();
    forall m ensures m in a <==> m in b {
      SameMember(w, a, b, m);
      SameMember(w, b, a, m);
    }
    forall i, j | 0 <= i < j < |a| ensures a[i] != a[j] { assert PathOf(a[i]) != PathOf(a[j]); }
    forall i, j | 0 <= i < j < |b| ensures b[i] != b[j] { assert PathOf(b[i]) != PathOf(b[j]); }
    SortedSetIsUnique(MemberLeq, a, b);
  }

  /** The members come by package name, and those of one name by path. */
  lemma DiscoveredInOrder(w: Workspace, members: seq<Member>)
    requires Discovered(w, members)
    ensures forall i, j | 0 <= i < j < |members| ::
              && LexLeq(members[i].package, members[j].package)
              && (members[i].package == members[j].package ==>
                    LexLeq(members[i].path, members[j].path) && members[i].path != members[j].path)
  {
    LexIsTotalOrder();
    forall i, j | 0 <= i < j < |members|
      ensures LexLeq(members[i].package, members[j].package)
      ensures members[i].package == members[j].package ==>
        LexLeq(members[i].path, members[j].path) && members[i].path != members[j].path
    {
      assert MemberLeq(members[i], members[j]) && PathOf(members[i]) != PathOf(members[j]);
    }
  }

  lemma SameMember(w: Workspace, a: seq<Member>, b: seq<Member>, m: Member)
    requires Discovered(w, a) && Discovered(w, b)
    ensures m in a ==> m in b
  {
    if m in a {
      var i :| 0 <= i < |a| && a[i] == m;
      assert Paths(a)[i] == m.path;
      assert m.path in Paths(b);
      var j :| 0 <= j < |b| && Paths(b)[j] == m.path;
      assert b[j] in b;
    }
  }
}
