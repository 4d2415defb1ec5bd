/**
 How an audit classifies paths and compares them with a ledger (xtask/src/audit_scope.rs), told by path
 segments and by what stands in the ledger.
 */
module AuditKinds {
  import opened Wrappers
  import opened Ordering
  import opened Text
  import opened WorkspacePatterns
  import opened AuditLedger

  // ---------- workspace members ----------

  /** The path is the member's directory or lies in it. */
  predicate Inside(path: string, member: WorkspaceMember) { Split(member.path, '/') <= Split(path, '/') }

  predicate NoneHolds(path: string, members: seq<WorkspaceMember>) {
    forall i | 0 <= i < |members| :: !Inside(path, members[i])
  }

  /** The first member whose directory holds the path gives it its kind; a directory whose name only begins
      like a member's does not. */
  lemma {:induction false} FirstMemberDecides(path: string, before: seq<WorkspaceMember>, m: WorkspaceMember,
                                              after: seq<WorkspaceMember>)
    requires NoneHolds(path, before) && Inside(path, m)
    ensures MemberKind(path, before + [m] + after) == Some("workspace:" + m.package)
  {
    var all := before + [m] + after;
    PrefixBySegments(all[0].path, path);
    if before != [] {
      assert all[0] == before[0] && all[1..] == before[1..] + [m] + after;
      assert !Inside(path, before[0]);
      forall i | 0 <= i < |before[1..]| ensures !Inside(path, before[1..][i]) { assert !Inside(path, before[i + 1]); }
      FirstMemberDecides(path, before[1..], m, after);
    }
  }

  lemma {:induction false} NoMemberDecides(path: string, members: seq<WorkspaceMember>)
    requires NoneHolds(path, members)
    ensures MemberKind(path, members) == None
  {
    if members != [] {
      PrefixBySegments(members[0].path, path);
      assert !Inside(path, members[0]);
      forall i | 0 <= i < |members[1..]| ensures !Inside(path, members[1..][i]) {
        assert !Inside(path, members[i + 1]);
      }
      NoMemberDecides(path, members[1..]);
    }
  }

  // ---------- the rest of the repository ----------

  const SPEC_DIR := "docs/spec/av2/"

  predicate IsIntegrityFile(path: string) {
    exists i | 0 <= i <= |path| :: path[i..] == "/CHECKSUMS" || path[i..] == "/provenance.toml"
  }

  lemma EndsThere(path: string, suffix: string)
    ensures EndsWith(path, suffix) <==> exists i | 0 <= i <= |path| :: path[i..] == suffix
  {
    if i :| 0 <= i <= |path| && path[i..] == suffix { assert i == |path| - |suffix|; }
  }

  /** Of the specification mirror only the two integrity files of each directory are reviewed, as such; the
      ledger itself never is. */
  lemma MirrorIsIntegrity(path: string, members: seq<WorkspaceMember>)
    ensures StartsWith(path, SPEC_DIR) ==>
              ScopeKind(path, members) == if IsIntegrityFile(path) then Some("spec-mirror-integrity") else None
    ensures path == DEFAULT_LEDGER_PATH ==> ScopeKind(path, members) == None
  {
    EndsThere(path, "/CHECKSUMS");
    EndsThere(path, "/provenance.toml");
    if path == DEFAULT_LEDGER_PATH { LedgerIsNoMirror(); }
  }

  lemma LedgerIsNoMirror()
    ensures !StartsWith(DEFAULT_LEDGER_PATH, SPEC_DIR)
  {
    assert DEFAULT_LEDGER_PATH[5] == 'a' && SPEC_DIR[5] == 's';
  }

  predicate Elsewhere(path: string) { !StartsWith(path, SPEC_DIR) && path != DEFAULT_LEDGER_PATH }

  /** Everywhere else members come first, whatever directory they lie in. */
  lemma MembersComeFirst(path: string, members: seq<WorkspaceMember>)
    requires Elsewhere(path)
    ensures NoneHolds(path, members) ==> ScopeKind(path, members) == ScopeKind(path, [])
    ensures forall before, m, after | members == before + [m] + after && NoneHolds(path, before) && Inside(path, m) ::
              ScopeKind(path, members) == Some("workspace:" + m.package)
  {
    if NoneHolds(path, members) { NoMemberDecides(path, members); }
    forall before, m, after | members == before + [m] + after && NoneHolds(path, before) && Inside(path, m)
      ensures ScopeKind(path, members) == Some("workspace:" + m.package)
    {
      FirstMemberDecides(path, before, m, after);
    }
  }

  /** The directories of the repository, by their first segments. */
  datatype Area = Docs | Conformance | Fuzz | Scripts | Workflows

  function Segments(a: Area): seq<string> {
    match a
    case Docs => ["docs"]
    case Conformance => ["tests", "conformance"]
    case Fuzz => ["fuzz"]
    case Scripts => ["scripts"]
    case Workflows => [".github", "workflows"]
  }

  function AreaKind(a: Area): string {
    match a
    case Docs => "docs"
    case Conformance => "conformance-corpus"
    case Fuzz => "fuzz"
    case Scripts => "automation"
    case Workflows => "automation"
  }

  /** The directory as it is written. */
  function AreaText(a: Area): string {
    match a
    case Docs => "docs/"
    case Conformance => "tests/conformance/"
    case Fuzz => "fuzz/"
    case Scripts => "scripts/"
    case Workflows => ".github/workflows/"
  }

  lemma TwoSegments(x: string, y: string)
    ensures Join([x, y], "/") + "/" == x + "/" + (y + "/")
  {
    assert [x, y][1..] == [y] && Join([y], "/") == y;
  }

  lemma ConformanceText()
    ensures Join(["tests", "conformance"], "/") + "/" == "tests/conformance/"
  {
    hide Join;
    TwoSegments("tests", "conformance");
    assert "conformance" + "/" == "conformance/" && "tests" + "/" == "tests/";
    assert "tests/" + "conformance/" == "tests/conformance/";
  }

  lemma WorkflowsText()
    ensures Join([".github", "workflows"], "/") + "/" == ".github/workflows/"
  {
    hide Join;
    TwoSegments(".github", "workflows");
    assert "workflows" + "/" == "workflows/" && ".github" + "/" == ".github/";
    assert ".github/" + "workflows/" == ".github/workflows/";
  }

  lemma OneSegmentText(x: string)
    ensures Join([x], "/") + "/" == x + "/"
  {}

  lemma AreaTextIs(a: Area)
    ensures Join(Segments(a), "/") + "/" == AreaText(a)
  {
    hide Join;
    match a
    case Conformance => ConformanceText();
    case Workflows => WorkflowsText();
    case Docs => OneSegmentText("docs");
    case Fuzz => OneSegmentText("fuzz");
    case Scripts => OneSegmentText("scripts");
  }

  lemma AreaPath(a: Area, names: seq<string>)
    requires names != []
    ensures StartsWith(Join(Segments(a) + names, "/"), AreaText(a))
  {
    hide Join, Segments, AreaText;
    AreaTextIs(a);
    SegmentsAreSome(a);
    JoinConcat(Segments(a), names, "/");
    var front := Join(Segments(a), "/") + "/";
    assert front + Join(names, "/") == Join(Segments(a), "/") + "/" + Join(names, "/");
    assert (front + Join(names, "/"))[..|front|] == front;
  }

  lemma SegmentsAreSome(a: Area)
    ensures Segments(a) != []
  {}

  lemma DocsKind(path: string)
    requires StartsWith(path, "docs/")
    ensures ProcessKind(path) == Some("docs")
  {
    assert path[0] == "docs/"[0] && path[1] == "docs/"[1];
  }

  lemma ConformanceKind(path: string)
    requires StartsWith(path, "tests/conformance/")
    ensures ProcessKind(path) == Some("conformance-corpus")
  {
    assert path[0] == "tests/conformance/"[0];
  }

  lemma FuzzKind(path: string)
    requires StartsWith(path, "fuzz/")
    ensures ProcessKind(path) == Some("fuzz")
  {
    assert path[0] == "fuzz/"[0];
  }

  lemma ScriptsKind(path: string)
    requires StartsWith(path, "scripts/")
    ensures ProcessKind(path) == Some("automation")
  {
    assert path[0] == "scripts/"[0];
  }

  lemma WorkflowsKind(path: string)
    requires StartsWith(path, ".github/workflows/")
    ensures ProcessKind(path) == Some("automation")
  {
    assert path[0] == ".github/workflows/"[0] && path[8] == ".github/workflows/"[8];
  }

  lemma AreaDecides(a: Area, path: string)
    requires StartsWith(path, AreaText(a))
    ensures ProcessKind(path) == Some(AreaKind(a))
  {
    hide StartsWith, ProcessKind;
    match a
    case Docs => DocsKind(path);
    case Conformance => ConformanceKind(path);
    case Fuzz => FuzzKind(path);
    case Scripts => ScriptsKind(path);
    case Workflows => WorkflowsKind(path);
  }

  /** A file in one of them, outside every member, has that directory's kind. */
  lemma AreasAreClassified(a: Area, names: seq<string>, members: seq<WorkspaceMember>)
    requires names != [] && NoneHolds(Join(Segments(a) + names, "/"), members)
    requires Elsewhere(Join(Segments(a) + names, "/"))
    ensures ScopeKind(Join(Segments(a) + names, "/"), members) == Some(AreaKind(a))
  {
    hide Join, Split, StartsWith, Segments, AreaText, AreaKind, ProcessKind;
    var path := Join(Segments(a) + names, "/");
    AreaPath(a, names);
    NoMemberDecides(path, members);
    AreaDecides(a, path);
  }

  // ---------- deleted entries and wide reviews ----------

  /** An entry without a kind, below no member that is left, belongs to the crate it was in. */
  lemma DeletedCrateFile(entry: LedgerFile, crate: string, names: seq<string>, members: seq<WorkspaceMember>)
    requires entry.scopeKind == "" && NoneHolds(entry.path, members)
    requires '/' !in crate && (forall n | n in names :: '/' !in n)
    requires entry.path == Join(["crates", crate] + names, "/")
    ensures DeletedEntryKind(entry, members) == Some("workspace:" + crate)
  {
    hide Join, StartsWith, EndsWith;
    var segments := ["crates", crate] + names;
    SplitJoin(segments, '/');
    NoMemberDecides(entry.path, members);
    JoinConcat(["crates"], [crate] + names, "/");
    assert ["crates"] + ([crate] + names) == segments;
    CratesAreNoArea(entry.path, Join([crate] + names, "/"));
  }

  lemma CratesAreNoArea(path: string, rest: string)
    requires path == Join(["crates"], "/") + "/" + rest
    ensures ProcessKind(path) == None && Elsewhere(path)
  {
    assert path[0] == 'c';
  }

  /** An entry keeps the kind it was entered with. */
  lemma EntryKeepsKind(entry: LedgerFile, members: seq<WorkspaceMember>)
    requires entry.scopeKind != ""
    ensures DeletedEntryKind(entry, members) == Some(entry.scopeKind)
  {}

  /** The single files that force a wide review. */
  predicate IsWideName(path: string) {
    path in {"AGENTS.md", "CLAUDE.md", ".github/copilot-instructions.md", "Cargo.toml",
             "docs/IMPLEMENTATION-MATRIX.toml", "xtask/src/audit_scope.rs", "xtask/src/git_util.rs",
             "xtask/src/main.rs"}
  }

  /** Neither in the mirror nor the ledger, by two characters. */
  predicate StartsElse(path: string) { |path| > 5 && (path[0] != 'd' || path[5] == 'I') }

  lemma WideNamesStartElse(path: string)
    requires IsWideName(path)
    ensures StartsElse(path)
  {}

  lemma MirrorChars(path: string)
    ensures StartsWith(path, SPEC_DIR) ==> |path| > 5 && path[0] == 'd' && path[5] == 's'
  {
    assert SPEC_DIR[0] == 'd' && SPEC_DIR[5] == 's';
  }

  lemma ElseIsElsewhere(path: string)
    requires StartsElse(path)
    ensures Elsewhere(path)
  {
    assert DEFAULT_LEDGER_PATH[0] == 'd' && DEFAULT_LEDGER_PATH[5] == 'a';
    MirrorChars(path);
  }

  lemma WideIs(path: string)
    ensures ForcesWideReview(path) <==> IsWideName(path) || (StartsWith(path, SPEC_DIR) && IsIntegrityFile(path))
  {
    EndsThere(path, "/CHECKSUMS");
    EndsThere(path, "/provenance.toml");
  }

  /** Of the mirror exactly the files that are reviewed force a wide review. */
  lemma MirrorForcesWide(path: string, members: seq<WorkspaceMember>)
    requires StartsWith(path, SPEC_DIR)
    ensures ForcesWideReview(path) <==> ScopeKind(path, members).Some?
  {
    hide IsWideName, IsIntegrityFile, ForcesWideReview, StartsWith, StartsElse, ScopeKind;
    WideIs(path);
    MirrorIsIntegrity(path, members);
    if IsWideName(path) {
      WideNamesStartElse(path);
      ElseIsElsewhere(path);
    }
  }

  lemma WideNameIsReviewed(path: string, members: seq<WorkspaceMember>)
    requires IsWideName(path)
    ensures StartsWith(path, "xtask/") || ProcessKind(path).Some?
  {
    if path in {"xtask/src/audit_scope.rs", "xtask/src/git_util.rs", "xtask/src/main.rs"} {
      assert path[..6] == "xtask/";
    } else if path == "docs/IMPLEMENTATION-MATRIX.toml" {
      assert path[..5] == "docs/";
    }
  }

  /** Elsewhere a path that forces one is reviewed itself wherever it lies, the tool's own sources as a member's. */
  lemma WideIsReviewed(path: string, members: seq<WorkspaceMember>, tool: WorkspaceMember)
    requires ForcesWideReview(path) && tool in members && tool.path == "xtask"
    ensures ScopeKind(path, members).Some?
  {
    if StartsWith(path, SPEC_DIR) {
      hide ScopeKind, ForcesWideReview;
      MirrorForcesWide(path, members);
    } else {
      hide ForcesWideReview, IsWideName, ProcessKind, StartsElse;
      WideIs(path);
      WideNamesStartElse(path);
      ElseIsElsewhere(path);
      WideNameIsReviewed(path, members);
      if StartsWith(path, "xtask/") {
        assert "xtask" + "/" == "xtask/";
        HeldIsKind(path, members, tool);
      }
    }
  }

  lemma {:induction false} HeldIsKind(path: string, members: seq<WorkspaceMember>, tool: WorkspaceMember)
    requires tool in members && Under(path, tool.path)
    ensures MemberKind(path, members).Some?
  {
    if members[0] != tool {
      assert tool in members[1..];
      HeldIsKind(path, members[1..], tool);
    }
  }

  // ---------- the entry of a path and the reason it leaves ----------

  /** A path's entry is the last one of its path. */
  lemma {:induction false} LastEntryDecides(before: seq<LedgerFile>, e: LedgerFile, after: seq<LedgerFile>)
    requires forall f | f in after :: f.path != e.path
    ensures EntryFor(before + [e] + after, e.path) == Some(e)
    decreases |after|
  {
    var all := before + [e] + after;
    if after == [] {
      assert all[|all| - 1] == e;
    } else {
      var last := after[|after| - 1];
      assert last in after && all[|all| - 1] == last;
      assert all[..|all| - 1] == before + [e] + after[..|after| - 1];
      LastEntryDecides(before, e, after[..|after| - 1]);
    }
  }

  lemma {:induction false} NoEntry(files: seq<LedgerFile>, path: string)
    requires forall f | f in files :: f.path != path
    ensures EntryFor(files, path) == None
  {
    if files != [] {
      assert files[|files| - 1] in files;
      NoEntry(files[..|files| - 1], path);
    }
  }

  /** A file needs no review exactly when the ledger is of this protocol and of success, and the last entry of
      its path holds its hash and was a success. */
  lemma SettledExactly(ledger: Ledger, f: TrackedFile)
    ensures LedgerReason(Some(ledger), f) == None
       <==> && ledger.protocolVersion == PROTOCOL_VERSION && ledger.outcome == SUCCESS
            && exists before, e, after ::
                 Settles(ledger.files, before, e, after, f)
  {
    var entry := EntryFor(ledger.files, f.path);
    if entry.Some? {
      var before, after := EntryStands(ledger.files, f.path);
      if entry.value.sha256 == f.sha256 && entry.value.outcome == SUCCESS {
        assert Settles(ledger.files, before, entry.value, after, f);
      }
    }
    forall before, e, after | Settles(ledger.files, before, e, after, f) ensures entry == Some(e) {
      LastEntryDecides(before, e, after);
    }
  }

  ghost predicate Settles(files: seq<LedgerFile>, before: seq<LedgerFile>, e: LedgerFile, after: seq<LedgerFile>,
                          f: TrackedFile) {
    && files == before + [e] + after && e.path == f.path && (forall x | x in after :: x.path != f.path)
    && e.sha256 == f.sha256 && e.outcome == SUCCESS
  }

  lemma {:induction false} EntryStands(files: seq<LedgerFile>, path: string)
    returns (before: seq<LedgerFile>, after: seq<LedgerFile>)
    requires EntryFor(files, path).Some?
    ensures files == before + [EntryFor(files, path).value] + after && EntryFor(files, path).value.path == path
    ensures forall f | f in after :: f.path != path
  {
    var last := files[|files| - 1];
    if last.path == path {
      before, after := files[..|files| - 1], [];
    } else {
      before, after := EntryStands(files[..|files| - 1], path);
      after := after + [last];
    }
  }
}
