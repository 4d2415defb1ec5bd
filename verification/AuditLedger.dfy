/**
 Selecting the files an audit must look at again (xtask/src/audit_scope.rs): from the difference
 with a base revision, or from the ledger the last audit wrote.
 */
module AuditLedger {
  import opened Wrappers
  import opened Ordering
  import opened Text

  const PROTOCOL_VERSION: nat := 1
  const SUCCESS := "success"
  const DELETED_FILE_SHA256 := "<deleted>"
  const DEFAULT_LEDGER_PATH := "docs/audits/av2-conformance-ledger.json"

  datatype WorkspaceMember = WorkspaceMember(package: string, path: string)
  datatype TrackedFile = TrackedFile(path: string, sha256: string, scopeKind: string)
  datatype LedgerFile = LedgerFile(path: string, sha256: string, scopeKind: string, outcome: string)
  datatype Ledger = Ledger(protocolVersion: nat, commit: string, outcome: string, files: seq<LedgerFile>)

  datatype Reason =
    | All | ChangedInDiff | DeletedInDiff | DeletedSinceLedger
    | LedgerMissing | ContentHashChanged | ProtocolMismatch | LedgerNotSuccess | FileNotSuccess
    | WideReview

  datatype Candidate = Candidate(path: string, sha256: string, scopeKind: string, reasons: set<Reason>)

  function FilePath(f: TrackedFile): string { f.path }
  function CandidatePath(c: Candidate): string { c.path }
  predicate CandidateLeq(a: Candidate, b: Candidate) { LexLeq(a.path, b.path) }

  function PathSet(files: seq<TrackedFile>): set<string> { set f | f in files :: f.path }

  // ---------- classification by path ----------

  predicate EndsWith(s: string, suffix: string) { |suffix| <= |s| && s[|s| - |suffix|..] == suffix }

  predicate Under(path: string, dir: string) { StartsWith(path, dir + "/") }

  function MemberKind(path: string, members: seq<WorkspaceMember>): Option<string> {
    if members == [] then None
    else if path == members[0].path || Under(path, members[0].path) then Some("workspace:" + members[0].package)
    else MemberKind(path, members[1..])
  }

  function ProcessKind(path: string): Option<string> {
    if path in {"AGENTS.md", "CLAUDE.md", "Cargo.toml", "Cargo.lock", "_typos.toml", "deny.toml"} then
      Some("repository-process")
    else if path in {".github/copilot-instructions.md", ".github/PULL_REQUEST_TEMPLATE.md"} then
      Some("agent-guidance")
    else if StartsWith(path, "docs/") then Some("docs")
    else if StartsWith(path, "tests/conformance/") then Some("conformance-corpus")
    else if StartsWith(path, "fuzz/") then Some("fuzz")
    else if StartsWith(path, "scripts/") || StartsWith(path, ".github/workflows/") then Some("automation")
    else None
  }

  function ScopeKind(path: string, members: seq<WorkspaceMember>): Option<string> {
    if StartsWith(path, "docs/spec/av2/") then
      if EndsWith(path, "/CHECKSUMS") || EndsWith(path, "/provenance.toml") then Some("spec-mirror-integrity") else None
    else if path == DEFAULT_LEDGER_PATH then None
    else
      var kind := MemberKind(path, members);
      if kind.Some? then kind else ProcessKind(path)
  }

  /** No tracked file has an empty scope kind. */
  lemma {:induction false} KindsAreNamed(path: string, members: seq<WorkspaceMember>)
    ensures ScopeKind(path, members) != Some("") && MemberKind(path, members) != Some("")
  {
    if members != [] { KindsAreNamed(path, members[1..]); }
  }

  /** Files as an audit tracks them: each has the scope kind its path has among some members. */
  ghost predicate Tracked(files: seq<TrackedFile>) {
    && DistinctBy(FilePath, files)
    && exists members :: Classified(files, members)
  }

  ghost predicate Classified(files: seq<TrackedFile>, members: seq<WorkspaceMember>) {
    forall f | f in files :: ScopeKind(f.path, members) == Some(f.scopeKind)
  }

  lemma TrackedAreNamed(files: seq<TrackedFile>)
    requires Tracked(files)
    ensures forall f | f in files :: f.scopeKind != ""
  {
    var members :| Classified(files, members);
    forall f | f in files ensures f.scopeKind != "" { KindsAreNamed(f.path, members); }
  }

  function DeletedEntryKind(entry: LedgerFile, members: seq<WorkspaceMember>): Option<string> {
    if entry.scopeKind != "" then Some(entry.scopeKind)
    else
      var kind := ScopeKind(entry.path, members);
      var segments := Split(entry.path, '/');
      if kind.Some? then kind
      else if segments[0] == "crates" && |segments| > 1 then Some("workspace:" + segments[1])
      else None
  }

  predicate ForcesWideReview(path: string) {
    || path in {"AGENTS.md", "CLAUDE.md", ".github/copilot-instructions.md", "Cargo.toml",
                "docs/IMPLEMENTATION-MATRIX.toml", "xtask/src/audit_scope.rs", "xtask/src/git_util.rs",
                "xtask/src/main.rs"}
    || (StartsWith(path, "docs/spec/av2/") && (EndsWith(path, "/CHECKSUMS") || EndsWith(path, "/provenance.toml")))
  }

  // ---------- the ledger ----------

  function LedgerFileOf(f: TrackedFile, outcome: string): LedgerFile {
    LedgerFile(f.path, f.sha256, f.scopeKind, outcome)
  }

  function BuildLedger(commit: string, outcome: string, files: seq<TrackedFile>): Ledger {
    Ledger(PROTOCOL_VERSION, commit, outcome,
           seq(|files|, i requires 0 <= i < |files| => LedgerFileOf(files[i], outcome)))
  }

  /** The entry of a path; a later entry replaces an earlier one. */
  function EntryFor(files: seq<LedgerFile>, path: string): Option<LedgerFile> {
    if files == [] then None
    else if files[|files| - 1].path == path then Some(files[|files| - 1])
    else EntryFor(files[..|files| - 1], path)
  }

  // ---------- selection ----------

  function LedgerReason(ledger: Option<Ledger>, f: TrackedFile): Option<Reason> {
    var entry := if ledger.Some? then EntryFor(ledger.value.files, f.path) else None;
    if entry.None? then Some(LedgerMissing)
    else if entry.value.sha256 != f.sha256 then Some(ContentHashChanged)
    else if ledger.value.protocolVersion != PROTOCOL_VERSION then Some(ProtocolMismatch)
    else if ledger.value.outcome != SUCCESS then Some(LedgerNotSuccess)
    else if entry.value.outcome != SUCCESS then Some(FileNotSuccess)
    else None
  }

  function Reasons(f: TrackedFile, changed: Option<set<string>>, ledger: Option<Ledger>, all: bool,
                   wide: bool): set<Reason> {
    (if all then {All} else {})
    + (if changed.Some? && f.path in changed.value then {ChangedInDiff} else {})
    + (if changed.None? && !all && LedgerReason(ledger, f).Some? then {LedgerReason(ledger, f).value} else {})
    + (if wide then {WideReview} else {})
  }

  /** The candidate a tracked file becomes, when it has a reason to be one. */
  predicate Picks(f: TrackedFile, reasons: set<Reason>, c: Candidate) {
    reasons != {} && c == Candidate(f.path, f.sha256, f.scopeKind, reasons)
  }

  method SelectCandidates(files: seq<TrackedFile>, changed: Option<set<string>>, ledger: Option<Ledger>, all: bool,
                          wide: bool)
    returns (out: seq<Candidate>)
    ensures forall c :: c in out <==> exists f | f in files :: Picks(f, Reasons(f, changed, ledger, all, wide), c)
    ensures DistinctBy(FilePath, files) ==> DistinctBy(CandidatePath, out)
  {
    out := [];
    for i := 0 to |files|
      invariant forall c :: c in out <==>
                  exists f | f in files[..i] :: Picks(f, Reasons(f, changed, ledger, all, wide), c)
      invariant DistinctBy(FilePath, files) ==> DistinctBy(CandidatePath, out)
    {
      var f := files[i];
      var reasons := {};
      if all { reasons := reasons + {All}; }
      if changed.Some? && f.path in changed.value { reasons := reasons + {ChangedInDiff}; }
      if changed.None? && !all {
        var reason := LedgerReason(ledger, f);
        if reason.Some? { reasons := reasons + {reason.value}; }
      }
      if wide { reasons := reasons + {WideReview}; }
      assert reasons == Reasons(f, changed, ledger, all, wide);
      assert files[..i + 1] == files[..i] + [f];
      if DistinctBy(FilePath, files) {
        forall g | g in files[..i] ensures g.path != f.path {
          var j :| 0 <= j < i && files[j] == g;
          assert FilePath(files[j]) != FilePath(files[i]);
        }
        assert forall c | c in out :: CandidatePath(c) != f.path;
      }
      if reasons != {} { out := out + [Candidate(f.path, f.sha256, f.scopeKind, reasons)]; }
    }
    assert files[..|files|] == files;
  }

  function DeletedCandidate(path: string, scopeKind: string, reason: Reason, wide: bool): Candidate {
    Candidate(path, DELETED_FILE_SHA256, scopeKind, {reason} + if wide then {WideReview} else {})
  }

  /** An entry whose file is gone, the first of its path that can be classified. */
  ghost predicate Gone(entries: seq<LedgerFile>, i: int, current: set<string>, members: seq<WorkspaceMember>)
    requires 0 <= i < |entries|
  {
    && entries[i].path !in current
    && DeletedEntryKind(entries[i], members).Some?
    && forall j | 0 <= j < i && DeletedEntryKind(entries[j], members).Some? :: entries[j].path != entries[i].path
  }

  ghost predicate GoneCandidate(entries: seq<LedgerFile>, i: int, current: set<string>, members: seq<WorkspaceMember>,
                                wide: bool, c: Candidate)
    requires 0 <= i < |entries|
  {
    && Gone(entries, i, current, members)
    && c == DeletedCandidate(entries[i].path, DeletedEntryKind(entries[i], members).value, DeletedSinceLedger, wide)
  }

  ghost predicate AnyGone(entries: seq<LedgerFile>, current: set<string>, members: seq<WorkspaceMember>, wide: bool,
                          c: Candidate) {
    exists i | 0 <= i < |entries| :: GoneCandidate(entries, i, current, members, wide, c)
  }

  method AppendDeletedEntries(candidates: seq<Candidate>, entries: seq<LedgerFile>, files: seq<TrackedFile>,
                              members: seq<WorkspaceMember>, wide: bool)
    returns (out: seq<Candidate>)
    requires forall c | c in candidates :: c.path in PathSet(files)
    ensures forall c :: c in out <==>
              c in candidates || AnyGone(entries, PathSet(files), members, wide, c)
    ensures DistinctBy(CandidatePath, candidates) ==> DistinctBy(CandidatePath, out)
  {
    hide DeletedEntryKind, PathSet;
    var current := PathSet(files);
    var taken := set c | c in candidates :: c.path;
    out := candidates;
    for i := 0 to |entries|
      invariant forall p :: p in taken <==> exists c | c in out :: c.path == p
      invariant forall p | p !in current :: p in taken <==>
                  exists j | 0 <= j < i :: DeletedEntryKind(entries[j], members).Some? && entries[j].path == p
      invariant forall c :: c in out <==>
                  c in candidates || exists j | 0 <= j < i :: GoneCandidate(entries, j, current, members, wide, c)
      invariant DistinctBy(CandidatePath, candidates) ==> DistinctBy(CandidatePath, out)
    {
      var e := entries[i];
      if e.path in current || e.path in taken { continue; }
      var kind := DeletedEntryKind(e, members);
      if kind.None? { continue; }
      assert Gone(entries, i, current, members);
      var c := DeletedCandidate(e.path, kind.value, DeletedSinceLedger, wide);
      assert GoneCandidate(entries, i, current, members, wide, c);
      out := out + [c];
      taken := taken + {e.path};
    }
  }

  /** Diff mode: appends changed paths that no longer exist. */
  method AppendDeletedChanges(candidates: seq<Candidate>, changed: set<string>, files: seq<TrackedFile>,
                              members: seq<WorkspaceMember>, wide: bool)
    returns (out: seq<Candidate>)
    requires forall c | c in candidates :: c.path in PathSet(files)
    ensures forall c :: c in out <==>
              c in candidates || exists p | p in changed :: DeletedChange(p, PathSet(files), members, wide, c)
    ensures DistinctBy(CandidatePath, candidates) ==> DistinctBy(CandidatePath, out)
  {
    var current := PathSet(files);
    var paths := ListingOf(changed);
    out := candidates;
    for i := 0 to |paths|
      invariant forall c | c in out :: c.path in current || c.path in paths[..i]
      invariant forall c :: c in out <==>
                  c in candidates || exists p | p in paths[..i] :: DeletedChange(p, current, members, wide, c)
      invariant DistinctBy(CandidatePath, candidates) ==> DistinctBy(CandidatePath, out)
    {
      assert paths[..i + 1] == paths[..i] + [paths[i]];
      if paths[i] in current { continue; }
      var kind := ScopeKind(paths[i], members);
      if kind.None? { continue; }
      var c := DeletedCandidate(paths[i], kind.value, DeletedInDiff, wide);
      assert DeletedChange(paths[i], current, members, wide, c);
      out := out + [c];
    }
    assert paths[..|paths|] == paths;
  }

  ghost predicate DeletedChange(p: string, current: set<string>, members: seq<WorkspaceMember>, wide: bool,
                                c: Candidate) {
    p !in current && ScopeKind(p, members).Some?
    && c == DeletedCandidate(p, ScopeKind(p, members).value, DeletedInDiff, wide)
  }

  // ---------- wide-review triggers ----------

  /** What counts as changed when a ledger is the only reference. */
  ghost predicate ChangedSinceLedger(ledger: Ledger, files: seq<TrackedFile>, p: string) {
    || (exists f | f in files ::
          f.path == p && LedgerReason(Some(ledger.(protocolVersion := PROTOCOL_VERSION)), f).Some?)
    || (p !in PathSet(files) && exists e | e in ledger.files :: e.path == p)
  }

  ghost predicate ChangedPath(changed: Option<set<string>>, ledger: Option<Ledger>, files: seq<TrackedFile>,
                              p: string) {
    if changed.Some? then p in changed.value
    else ledger.Some? && ChangedSinceLedger(ledger.value, files, p)
  }

  method PathsSinceLedger(ledger: Ledger, files: seq<TrackedFile>) returns (paths: set<string>)
    ensures forall p :: p in paths <==> ChangedSinceLedger(ledger, files, p)
  {
    hide EntryFor;
    var entries := ledger.files;
    paths := {};
    var current := {};
    for i := 0 to |files|
      invariant current == PathSet(files[..i])
      invariant forall p :: p in paths <==> exists j | 0 <= j < i ::
                  && files[j].path == p
                  && LedgerReason(Some(ledger.(protocolVersion := PROTOCOL_VERSION)), files[j]).Some?
    {
      var f := files[i];
      assert files[..i + 1] == files[..i] + [f];
      current := current + {f.path};
      var entry := EntryFor(entries, f.path);
      if entry.None? {
        paths := paths + {f.path};
      } else if entry.value.sha256 != f.sha256 || ledger.outcome != SUCCESS || entry.value.outcome != SUCCESS {
        paths := paths + {f.path};
      }
    }
    assert files[..|files|] == files;
    ghost var fromFiles := paths;
    for i := 0 to |entries|
      invariant forall p :: p in paths <==>
                  p in fromFiles || exists j | 0 <= j < i :: entries[j].path == p && p !in current
    {
      if entries[i].path !in current { paths := paths + {entries[i].path}; }
    }
    forall p ensures p in paths <==> ChangedSinceLedger(ledger, files, p) {
      if p in fromFiles {
        var j :| 0 <= j < |files| && files[j].path == p
          && LedgerReason(Some(ledger.(protocolVersion := PROTOCOL_VERSION)), files[j]).Some?;
        assert files[j] in files;
      }
    }
  }

  method ForceWideTriggers(changed: Option<set<string>>, ledger: Option<Ledger>, files: seq<TrackedFile>)
    returns (triggers: seq<string>)
    ensures forall p :: p in triggers <==> ChangedPath(changed, ledger, files, p) && ForcesWideReview(p)
    ensures NoRepeats(triggers)
  {
    hide ForcesWideReview, ChangedSinceLedger;
    var paths := {};
    if changed.Some? {
      paths := changed.value;
    } else if ledger.Some? {
      paths := PathsSinceLedger(ledger.value, files);
    }
    triggers := [];
    var listing := ListingOf(paths);
    for i := 0 to |listing|
      invariant forall p :: p in triggers <==> p in listing[..i] && ForcesWideReview(p)
      invariant NoRepeats(triggers)
    {
      assert listing[..i + 1] == listing[..i] + [listing[i]];
      if ForcesWideReview(listing[i]) { triggers := triggers + [listing[i]]; }
    }
    assert listing[..|listing|] == listing;
  }

  // ---------- the reports ----------

  ghost predicate Wide(changed: Option<set<string>>, ledger: Option<Ledger>, files: seq<TrackedFile>) {
    exists p :: ChangedPath(changed, ledger, files, p) && ForcesWideReview(p)
  }

  /** Exactly one candidate for each file with a reason and for each file gone since the ledger. */
  ghost predicate LedgerReport(files: seq<TrackedFile>, ledger: Option<Ledger>, members: seq<WorkspaceMember>,
                               report: seq<Candidate>) {
    var wide := Wide(None, ledger, files);
    && SortedBy(CandidateLeq, report)
    && DistinctBy(CandidatePath, report)
    && forall c :: c in report <==>
         || (exists f | f in files :: Picks(f, Reasons(f, None, ledger, false, wide), c))
         || (ledger.Some? && AnyGone(ledger.value.files, PathSet(files), members, wide, c))
  }

  ghost predicate DiffReport(files: seq<TrackedFile>, changed: set<string>, members: seq<WorkspaceMember>,
                             report: seq<Candidate>) {
    var wide := Wide(Some(changed), None, files);
    && SortedBy(CandidateLeq, report)
    && DistinctBy(CandidatePath, report)
    && forall c :: c in report <==>
         || (exists f | f in files :: Picks(f, Reasons(f, Some(changed), None, false, wide), c))
         || (exists p | p in changed :: DeletedChange(p, PathSet(files), members, wide, c))
  }

  lemma SortedCandidates(candidates: seq<Candidate>)
    requires DistinctBy(CandidatePath, candidates)
    ensures SortedBy(CandidateLeq, Sort(CandidateLeq, candidates))
    ensures DistinctBy(CandidatePath, Sort(CandidateLeq, candidates))
    ensures forall c :: c in Sort(CandidateLeq, candidates) <==> c in candidates
  {
    LexIsTotalOrder();
    SortSorts(CandidateLeq, candidates);
    SortKeepsDistinct(CandidateLeq, CandidatePath, candidates);
    forall c ensures c in Sort(CandidateLeq, candidates) <==> c in candidates {
      SameElements(Sort(CandidateLeq, candidates), candidates, c);
    }
  }

  method BuildLedgerReport(files: seq<TrackedFile>, ledger: Option<Ledger>, members: seq<WorkspaceMember>)
    returns (report: seq<Candidate>)
    requires DistinctBy(FilePath, files)
    ensures LedgerReport(files, ledger, members, report)
  {
    var triggers := ForceWideTriggers(None, ledger, files);
    NoElements(triggers);
    assert triggers != [] <==> Wide(None, ledger, files);
    report := SelectCandidates(files, None, ledger, false, triggers != []);
    if ledger.Some? {
      report := AppendDeletedEntries(report, ledger.value.files, files, members, triggers != []);
    }
    SortedCandidates(report);
    report := Sort(CandidateLeq, report);
  }

  method BuildDiffReport(files: seq<TrackedFile>, changed: set<string>, members: seq<WorkspaceMember>)
    returns (report: seq<Candidate>)
    requires DistinctBy(FilePath, files)
    ensures DiffReport(files, changed, members, report)
  {
    var triggers := ForceWideTriggers(Some(changed), None, files);
    NoElements(triggers);
    assert triggers != [] <==> Wide(Some(changed), None, files);
    report := SelectCandidates(files, Some(changed), None, false, triggers != []);
    report := AppendDeletedChanges(report, changed, files, members, triggers != []);
    SortedCandidates(report);
    report := Sort(CandidateLeq, report);
  }

  // ---------- what an incremental audit reviews ----------

  /** Added, modified or deleted between two file sets. */
  ghost predicate Differs(before: seq<TrackedFile>, after: seq<TrackedFile>, p: string) {
    || (p in PathSet(after) && p !in PathSet(before))
    || (p in PathSet(before) && p !in PathSet(after))
    || (exists f, g | f in before && g in after :: f.path == g.path == p && f.sha256 != g.sha256)
  }

  lemma {:induction false} EntryOfFile(files: seq<TrackedFile>, outcome: string, f: TrackedFile, commit: string)
    requires DistinctBy(FilePath, files) && f in files
    ensures EntryFor(BuildLedger(commit, outcome, files).files, f.path) == Some(LedgerFileOf(f, outcome))
  {
    var last := |files| - 1;
    var entries := BuildLedger(commit, outcome, files).files;
    if files[last] != f {
      var i :| 0 <= i < |files| && files[i] == f;
      assert FilePath(files[i]) != FilePath(files[last]);
      assert f in files[..last];
      EntryOfFile(files[..last], outcome, f, commit);
      assert entries[..last] == BuildLedger(commit, outcome, files[..last]).files;
    }
  }

  lemma {:induction false} NoEntryWithoutFile(files: seq<TrackedFile>, outcome: string, path: string, commit: string)
    requires path !in PathSet(files)
    ensures EntryFor(BuildLedger(commit, outcome, files).files, path) == None
  {
    var entries := BuildLedger(commit, outcome, files).files;
    if files != [] {
      var last := |files| - 1;
      assert files[last] in files;
      NoEntryWithoutFile(files[..last], outcome, path, commit);
      assert entries[..last] == BuildLedger(commit, outcome, files[..last]).files;
    }
  }

  /** Why a file is reviewed after a successful audit of other contents. */
  lemma ReasonAfterSuccess(before: seq<TrackedFile>, commit: string, g: TrackedFile)
    requires DistinctBy(FilePath, before)
    ensures LedgerReason(Some(BuildLedger(commit, SUCCESS, before)), g)
         == if g.path !in PathSet(before) then Some(LedgerMissing)
            else if exists f | f in before :: f.path == g.path && f.sha256 == g.sha256 then None
            else Some(ContentHashChanged)
  {
    if g.path in PathSet(before) {
      var f :| f in before && f.path == g.path;
      EntryOfFile(before, SUCCESS, f, commit);
      forall h | h in before && h.path == g.path ensures h == f {
        EntryOfFile(before, SUCCESS, h, commit);
      }
    } else {
      NoEntryWithoutFile(before, SUCCESS, g.path, commit);
    }
  }

  ghost predicate Lists(report: seq<Candidate>, p: string) {
    exists c | c in report :: c.path == p
  }

  ghost predicate WideDifference(before: seq<TrackedFile>, after: seq<TrackedFile>) {
    exists p :: Differs(before, after, p) && ForcesWideReview(p)
  }

  lemma ChangedIsDifference(before: seq<TrackedFile>, after: seq<TrackedFile>, commit: string, p: string)
    requires DistinctBy(FilePath, before) && DistinctBy(FilePath, after)
    ensures ChangedPath(None, Some(BuildLedger(commit, SUCCESS, before)), after, p) <==> Differs(before, after, p)
  {
    var ledger := BuildLedger(commit, SUCCESS, before);
    assert ledger.(protocolVersion := PROTOCOL_VERSION) == ledger;
    assert (exists e | e in ledger.files :: e.path == p) <==> p in PathSet(before) by {
      forall e { EntriesAreFiles(before, SUCCESS, commit, e); }
      if f :| f in before && f.path == p { assert LedgerFileOf(f, SUCCESS) in ledger.files; }
    }
    if p in PathSet(after) {
      var g :| g in after && g.path == p;
      forall h | h in after && h.path == p ensures h == g { OneFileForPath(after, h, g); }
      forall f, h | f in before && h in before && f.path == h.path == p ensures f == h { OneFileForPath(before, f, h); }
      ReasonAfterSuccess(before, commit, g);
    }
  }

  lemma OneFileForPath(files: seq<TrackedFile>, f: TrackedFile, g: TrackedFile)
    requires DistinctBy(FilePath, files) && f in files && g in files && f.path == g.path
    ensures f == g
  {
    var i :| 0 <= i < |files| && files[i] == f;
    var j :| 0 <= j < |files| && files[j] == g;
    assert FilePath(files[i]) == FilePath(files[j]);
  }

  lemma EntriesAreFiles(files: seq<TrackedFile>, outcome: string, commit: string, e: LedgerFile)
    ensures e in BuildLedger(commit, outcome, files).files <==> exists f | f in files :: e == LedgerFileOf(f, outcome)
  {
    var entries := BuildLedger(commit, outcome, files).files;
    if e in entries {
      var i :| 0 <= i < |entries| && entries[i] == e;
      assert files[i] in files;
    }
    if f :| f in files && e == LedgerFileOf(f, outcome) {
      var i :| 0 <= i < |files| && files[i] == f;
      assert entries[i] == e;
    }
  }

  ghost predicate DeletedFile(before: seq<TrackedFile>, current: set<string>, wide: bool, c: Candidate) {
    exists f | f in before :: f.path !in current && c == DeletedCandidate(f.path, f.scopeKind, DeletedSinceLedger, wide)
  }

  /** The entries gone from a built ledger are the files gone from the workspace, one each. */
  lemma GoneAreDeleted(before: seq<TrackedFile>, current: set<string>, commit: string, outcome: string,
                       members: seq<WorkspaceMember>, wide: bool, c: Candidate)
    requires DistinctBy(FilePath, before) && forall f | f in before :: f.scopeKind != ""
    ensures AnyGone(BuildLedger(commit, outcome, before).files, current, members, wide, c)
       <==> DeletedFile(before, current, wide, c)
  {
    var entries := BuildLedger(commit, outcome, before).files;
    if i :| 0 <= i < |entries| && GoneCandidate(entries, i, current, members, wide, c) {
      assert before[i] in before;
    }
    if f :| f in before && f.path !in current && c == DeletedCandidate(f.path, f.scopeKind, DeletedSinceLedger, wide) {
      var i :| 0 <= i < |before| && before[i] == f;
      forall j | 0 <= j < i ensures entries[j].path != entries[i].path {
        assert FilePath(before[j]) != FilePath(before[i]);
      }
      assert Gone(entries, i, current, members);
      assert GoneCandidate(entries, i, current, members, wide, c);
    }
  }

  ghost function ExpectedReasons(before: seq<TrackedFile>, after: seq<TrackedFile>, p: string): set<Reason> {
    (if p !in PathSet(after) then {DeletedSinceLedger}
     else if p !in PathSet(before) then {LedgerMissing}
     else if Differs(before, after, p) then {ContentHashChanged}
     else {})
    + (if WideDifference(before, after) then {WideReview} else {})
  }

  /** A file's reasons after a successful audit are those its difference gives. */
  lemma ReasonsAreExpected(before: seq<TrackedFile>, after: seq<TrackedFile>, commit: string, wide: bool,
                           g: TrackedFile)
    requires DistinctBy(FilePath, before) && DistinctBy(FilePath, after) && g in after
    requires wide == WideDifference(before, after)
    ensures Reasons(g, None, Some(BuildLedger(commit, SUCCESS, before)), false, wide)
         == ExpectedReasons(before, after, g.path)
  {
    hide WideDifference, BuildLedger, LedgerReason, DistinctBy;
    ReasonAfterSuccess(before, commit, g);
    forall h | h in after && h.path == g.path ensures h == g { OneFileForPath(after, h, g); }
    forall f, h | f in before && h in before && f.path == h.path ensures f == h { OneFileForPath(before, f, h); }
  }

  lemma WideIsDifference(before: seq<TrackedFile>, after: seq<TrackedFile>, commit: string)
    requires DistinctBy(FilePath, before) && DistinctBy(FilePath, after)
    ensures Wide(None, Some(BuildLedger(commit, SUCCESS, before)), after) == WideDifference(before, after)
  {
    hide ChangedPath, Differs, ForcesWideReview, BuildLedger, DistinctBy;
    forall p { ChangedIsDifference(before, after, commit, p); }
  }

  /**
   After a successful audit the next report lists, once each, exactly the paths added, modified
   or deleted since; when one of them forces a wide review it lists every current file as well.
   Each candidate says why it is there.
   */
  lemma IncrementalReport(before: seq<TrackedFile>, after: seq<TrackedFile>, commit: string,
                          members: seq<WorkspaceMember>, report: seq<Candidate>)
    requires Tracked(before) && DistinctBy(FilePath, after)
    requires LedgerReport(after, Some(BuildLedger(commit, SUCCESS, before)), members, report)
    ensures forall p :: Lists(report, p)
              <==> Differs(before, after, p) || (WideDifference(before, after) && p in PathSet(after))
    ensures forall c | c in report :: c.reasons == ExpectedReasons(before, after, c.path)
  {
    hide Wide, WideDifference, Reasons, ExpectedReasons, Differs, BuildLedger, DistinctBy, Classified, AnyGone, Lists,
         SortedBy, DeletedCandidate;
    var ledger := Some(BuildLedger(commit, SUCCESS, before));
    var wide := Wide(None, ledger, after);
    WideIsDifference(before, after, commit);
    TrackedAreNamed(before);
    forall g | g in after { ReasonsAreExpected(before, after, commit, wide, g); }
    forall c { GoneAreDeleted(before, PathSet(after), commit, SUCCESS, members, wide, c); }
    assert ReportHolds(before, after, report, wide);
    forall p { ListedExactly(before, after, report, wide, p); }
    forall c | c in report { ReasonedAsExpected(before, after, report, wide, c); }
  }

  ghost predicate ReportHolds(before: seq<TrackedFile>, after: seq<TrackedFile>, report: seq<Candidate>, wide: bool) {
    forall c :: c in report <==>
      || (exists g | g in after :: Picks(g, ExpectedReasons(before, after, g.path), c))
      || DeletedFile(before, PathSet(after), wide, c)
  }

  lemma ReasonedAsExpected(before: seq<TrackedFile>, after: seq<TrackedFile>, report: seq<Candidate>, wide: bool,
                           c: Candidate)
    requires wide == WideDifference(before, after) && ReportHolds(before, after, report, wide) && c in report
    ensures c.reasons == ExpectedReasons(before, after, c.path)
  {
    hide WideDifference, Differs;
  }

  lemma ListedExactly(before: seq<TrackedFile>, after: seq<TrackedFile>, report: seq<Candidate>, wide: bool, p: string)
    requires wide == WideDifference(before, after) && ReportHolds(before, after, report, wide)
    ensures Lists(report, p) <==> Differs(before, after, p) || (wide && p in PathSet(after))
  {
    if p in PathSet(after) {
      var g :| g in after && g.path == p;
      var reasons := ExpectedReasons(before, after, p);
      assert reasons != {} <==> Differs(before, after, p) || wide by {
        if wide { assert WideReview in reasons; }
        if Differs(before, after, p) { assert LedgerMissing in reasons || ContentHashChanged in reasons; }
      }
      if reasons != {} {
        var c := Candidate(g.path, g.sha256, g.scopeKind, reasons);
        assert Picks(g, reasons, c);
        assert c in report;
      }
    } else if p in PathSet(before) {
      var f :| f in before && f.path == p;
      var c := DeletedCandidate(f.path, f.scopeKind, DeletedSinceLedger, wide);
      assert DeletedFile(before, PathSet(after), wide, c);
      assert c in report;
    }
  }

  /** Nothing is reviewed again when nothing changed. */
  lemma UnchangedReportIsEmpty(files: seq<TrackedFile>, commit: string, members: seq<WorkspaceMember>,
                               report: seq<Candidate>)
    requires Tracked(files)
    requires LedgerReport(files, Some(BuildLedger(commit, SUCCESS, files)), members, report)
    ensures report == []
  {
    IncrementalReport(files, files, commit, members, report);
    forall p ensures !Differs(files, files, p) {
      forall f, g | f in files && g in files && f.path == g.path ensures f == g { OneFileForPath(files, f, g); }
    }
    forall c ensures c !in report { assert c in report ==> Lists(report, c.path); }
    NoElements(report);
  }

  /** An audit that did not succeed leaves every current and every deleted file to be reviewed. */
  lemma UnsuccessfulAuditReviewsAll(before: seq<TrackedFile>, after: seq<TrackedFile>, commit: string, outcome: string,
                                    members: seq<WorkspaceMember>, report: seq<Candidate>)
    requires outcome != SUCCESS
    requires Tracked(before) && DistinctBy(FilePath, after)
    requires LedgerReport(after, Some(BuildLedger(commit, outcome, before)), members, report)
    ensures forall p :: Lists(report, p) <==> p in PathSet(before) || p in PathSet(after)
  {
    var ledger := Some(BuildLedger(commit, outcome, before));
    var wide := Wide(None, ledger, after);
    TrackedAreNamed(before);
    forall c { GoneAreDeleted(before, PathSet(after), commit, outcome, members, wide, c); }
    forall p ensures Lists(report, p) <==> p in PathSet(before) || p in PathSet(after) {
      if p in PathSet(after) {
        var g :| g in after && g.path == p;
        var reasons := Reasons(g, None, ledger, false, wide);
        assert LedgerReason(ledger, g).Some?;
        assert LedgerReason(ledger, g).value in reasons;
        var c := Candidate(g.path, g.sha256, g.scopeKind, reasons);
        assert Picks(g, reasons, c);
        assert c in report;
      } else if p in PathSet(before) {
        var f :| f in before && f.path == p;
        var c := DeletedCandidate(f.path, f.scopeKind, DeletedSinceLedger, wide);
        assert DeletedFile(before, PathSet(after), wide, c);
        assert c in report;
      }
    }
  }

  /** Diff mode lists, once each, the changed paths that exist or can be classified, and every
      current file when a changed path forces a wide review. */
  lemma DiffReportLists(files: seq<TrackedFile>, changed: set<string>, members: seq<WorkspaceMember>,
                        report: seq<Candidate>, p: string)
    requires DiffReport(files, changed, members, report)
    ensures Lists(report, p) <==>
      || (p in PathSet(files) && (p in changed || exists q | q in changed :: ForcesWideReview(q)))
      || (p !in PathSet(files) && p in changed && ScopeKind(p, members).Some?)
  {
    var wide := Wide(Some(changed), None, files);
    assert wide <==> exists q | q in changed :: ForcesWideReview(q) by {
      if q :| q in changed && ForcesWideReview(q) { assert ChangedPath(Some(changed), None, files, q); }
    }
    if p in PathSet(files) {
      var g :| g in files && g.path == p;
      var reasons := Reasons(g, Some(changed), None, false, wide);
      assert reasons != {} <==> p in changed || wide by {
        if wide { assert WideReview in reasons; }
        if p in changed { assert ChangedInDiff in reasons; }
      }
      if reasons != {} {
        var c := Candidate(g.path, g.sha256, g.scopeKind, reasons);
        assert Picks(g, reasons, c);
        assert c in report;
      }
    } else if p in changed && ScopeKind(p, members).Some? {
      var c := DeletedCandidate(p, ScopeKind(p, members).value, DeletedInDiff, wide);
      assert DeletedChange(p, PathSet(files), members, wide, c);
      assert c in report;
    }
  }
}
