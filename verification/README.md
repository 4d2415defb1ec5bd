# Verified model of the splot tooling

A Dafny model of the algorithms in splot's `xtask` commands, its specification-mirror builder, the
frame model of one fuzz target and the picture writer of its C example, with proofs of what they are
for. `dafny verify dfyconfig.toml` checks everything. Loops and in-place updates of the original stay
loops and updates here; each such method is tied to a function or predicate over values, and the theorems
are about that.

| modules | component |
|---|---|
| `Glob`, `WorkspacePatterns`, `MemberExpansion`, `Discovery`, `WorkspaceViews` | wildcard matching, excludes, member globs, the worklist that finds workspace members, on disk and at a revision |
| `AuditLedger`, `AuditKinds` | what an audit reviews again after an earlier one, and how it classifies paths |
| `CubicFit`, `LeastSquares`, `PivotTest`, `BdRate`, `MeanRate` | the BD-rate fit by elimination on normal equations, over exact reals |
| `CommentScan`, `CommentPieces`, `StringLiterals`, `BannedPhrases`, `InstallRegions` | the scanners of Rust source behind the comment, registry, wording and concurrency gates |
| `TableTokens`, `TableLiterals`, `TableComments`, `TableDecls` | the compiler of specification tables into Rust arrays |
| `SpecMirror`, `MirrorHeadings` | the Markdown mirror of the specification and its round-trip assertion |
| `DiagnosticTable`, `DiagnosticGrammar` | the Markdown registry of diagnostics |
| `Rasters`, `Utf8`, `Y4m`, `ClipMotion`, `FrameBytes`, `FrameSamples` | synthetic Y4M clips and their reader; strided planes and the writer of visible samples |
| `Wrappers`, `Ordering`, `Text`, `Numerals` | options and results, sorting, splitting and trimming, decimals |

Text is a sequence of characters, one per byte; blanks, digits and letters are the ASCII ones. Only a Y4M
header is decoded from UTF-8, with the white space of Unicode.

## Where the code differs from its promise

Each of these is kept as the code has it, shown on inputs, and bounded by an exact condition.

- **Glob stars.** A candidate segment that holds a `*` byte can be refused by a pattern it belongs to,
  because a literal match is tried before the star. The matcher decides the wildcard language exactly on
  candidates without that byte (`Glob.DecidedExactlyWithoutStar`).
- **Member expansion.** The walk on disk reports paths with `\` replaced by `/`, the filter over a revision's
  file list does not; and a pattern that normalises to no segment finds a manifest in the root on disk only.
  For every tree and pattern the two agree if and only if the pattern has no wildcard, or it has a segment and
  no path it matches holds a backslash, or it has none and the root no manifest
  (`MemberExpansion.ExpansionsAgree`). Whole discoveries differ in the same cases, unless the excludes or
  other members hide the difference (`WorkspaceViews.DiscoveriesAgreeExactly`).
- **Nested comments over lines.** When a line begins and ends inside one block comment, the new nesting
  depth is not stored (xtask/src/comment_density.rs:187-195). The scanner equals the one-pass automaton exactly on
  texts in which no such line changes the depth (`CommentScan.AgreesExactlyWhenSteady`); otherwise two
  more lines make the spans differ (`CommentScan.DriftIsVisible`).
- **Escaped apostrophes.** After the char literal `'\''` the literal scanner takes the closing apostrophe
  for the start of another literal (`StringLiterals.EscapedApostropheMisleads`). Before two characters `a` and
  `b` it goes on as if nothing had happened, whatever follows them, if and only if `a` is no backslash and `b`
  no apostrophe (`StringLiterals.RecoversExactly`); code in which each such literal is followed so is read
  exactly (`StringLiterals.FindsExactlyTheLiterals`).
- **Mirror order, fences and file names.** The output paths are distinct if and only if the subsections of
  chapter 9 differ in number or slug and none is named as the overview before them
  (`SpecMirror.PathsAreDistinctExactly`). Then the round-trip assertion holds if and only if all chapter
  headings precede all annex headings and no raw line is a bare closing fence (`SpecMirror.RoundTripExactly`).
- **Odd clip sizes.** The generator writes `2 * (w/2) * (h/2)` chroma bytes, the reader steps by
  `w*h*3/2`. For every frame count and limit of at least one, the frames asked for come back if and only if
  that is one frame or the shortfall is at most the five bytes of a frame header's text
  (`Y4m.ReadsBackExactly`).
- **Stripped line count.** One line break is lost when the text ends with it inside an open block comment
  (`TableComments.LineCountKeptExactly`).

## Model

| member | source | states |
|---|---|---|
| `Glob.MatchGlobSegment` | xtask/src/audit_scope.rs:1227-1260 | the backtracking matcher, index by index: whatever it accepts is in the wildcard language, and without a `*` byte in the candidate it accepts exactly that language; it ends although the candidate index moves back |
| `Glob.MatcherIsSound` | xtask/src/audit_scope.rs:1227-1260 | no match is ever reported outside the wildcard language |
| `Glob.MatcherIsComplete` | xtask/src/audit_scope.rs:1233-1252 | remembering only the last star loses no match when the candidate has no `*` byte |
| `Glob.StarInCandidateDefeats` | xtask/src/audit_scope.rs:1237-1239 | every candidate with a `*` byte is refused by some pattern of whose language it is |
| `Glob.DecidedExactlyWithoutStar` | xtask/src/audit_scope.rs:1227-1260 | the matcher decides the language of every pattern if and only if the candidate holds no `*` byte |
| `Glob.LiteralSegment` | xtask/src/audit_scope.rs:1223-1225 | a segment without wildcards matches itself alone |
| `WorkspacePatterns.NormalizedSplit` | xtask/src/audit_scope.rs:1262-1274 | a normalised pattern splits back into the segments normalising kept, all of them plain |
| `WorkspacePatterns.SegmentLaws` | xtask/src/audit_scope.rs:1262-1274 | an empty or single-dot segment changes nothing, two dots take back the plain segment before them, and at the very start go nowhere; with plain segments kept in order these laws fix the function |
| `WorkspacePatterns.PlainAreKept` | xtask/src/audit_scope.rs:1262-1274 | plain segments are all kept, in order |
| `WorkspacePatterns.PatternStepsUp` | xtask/src/audit_scope.rs:1262-1274 | in a pattern `d/../` and `./` change nothing, and leading `../` is dropped |
| `WorkspacePatterns.PrefixBySegments` | xtask/src/audit_scope.rs:1193-1201 | a path equals a prefix or continues it past a slash exactly when its segments begin with the prefix's |
| `WorkspacePatterns.ExclusionBySegments` | xtask/src/audit_scope.rs:1193-1221 | literal and wildcard excludes obey one rule: the path's leading segments match the pattern's |
| `WorkspacePatterns.ExclusionReachesDown` | xtask/src/audit_scope.rs:1193-1211 | whatever lies below an excluded path is excluded |
| `MemberExpansion.ExpandInto` | xtask/src/audit_scope.rs:1149-1191 | the recursive walk appends, to the paths it is given, exactly those of its specification, backslashes replaced |
| `MemberExpansion.MemberPaths` | xtask/src/audit_scope.rs:960-975 | one pattern on disk: a path without wildcards is normalised unchecked or fails, a wildcard pattern gives the walk's sorted list |
| `MemberExpansion.MemberPathsAtRevision` | xtask/src/audit_scope.rs:977-999 | one pattern at a revision: the same for a path without wildcards, and else the flat file list filtered, sorted and without repeats |
| `MemberExpansion.ExpandFinds` | xtask/src/audit_scope.rs:1149-1191 | a found path is the slashed join of names that match the pattern's segments and lead to a manifest |
| `MemberExpansion.ExpandFindsAll` | xtask/src/audit_scope.rs:1149-1191 | every matching way to a manifest is found, under its slashed join |
| `MemberExpansion.FileIsListed` | xtask/src/audit_scope.rs:977-999 | a file the tree's segments lead to stands in the flat list under their joined path |
| `MemberExpansion.ListedIsFile` | xtask/src/audit_scope.rs:977-999 | the segments of a listed path lead to that file in the tree |
| `MemberExpansion.ExpansionsAgree` | xtask/src/audit_scope.rs:960-999 | for every tree and pattern the two expansions return one result if and only if the pattern has no wildcard, or normalises to a segment and matches no listed path with a backslash, or normalises to nothing and the root holds no manifest; a wildcard's list is sorted and free of repeats |
| `WorkspacePatterns.WorkspacePathIsClean` | xtask/src/audit_scope.rs:1276-1299 | a path normalised against a base inside the workspace is never empty and holds no backslash |
| `WorkspacePatterns.PathStepsUp` | xtask/src/audit_scope.rs:1276-1334 | from a directory, `../p` is `p` read from the directory above |
| `WorkspacePatterns.PathGoesDown` | xtask/src/audit_scope.rs:1276-1334 | a plain path leads below its base, and an absolute one to where it says |
| `WorkspacePatterns.PathLeaves` | xtask/src/audit_scope.rs:1276-1299 | a path to a neighbour of the root, or to the root itself, is refused |
| `Discovery.CollectPackagePaths` | xtask/src/audit_scope.rs:1095-1147 | the recursion over the three tables and all nested target tables adds exactly the paths the entries lead to, workspace references resolved |
| `Discovery.ReadPackageDependencies` | xtask/src/audit_scope.rs:1049-1093 | a package's sorted dependency list, empty without a manifest, failing on an unreadable one |
| `Discovery.PackageDependenciesAre` | xtask/src/audit_scope.rs:1049-1147 | that list holds exactly the paths the package's dependency tables mention, at any depth of target tables |
| `Discovery.DependencyLeads` | xtask/src/audit_scope.rs:1126-1147 | a path dependency is read from its package: `p` leads below it and `../p` to its neighbour |
| `Discovery.WorkspaceReference` | xtask/src/audit_scope.rs:1126-1147 | a workspace reference leads where the workspace dependency of its name does, and else nowhere |
| `Discovery.PackageIsNamed` | xtask/src/audit_scope.rs:1336-1352 | a package has its manifest's name, or else the last segment of its path |
| `Discovery.InsertMember` | xtask/src/audit_scope.rs:917-936 | inserting keeps: each path once, all reachable, package names read; an excluded or seen path changes nothing |
| `Discovery.InsertAll` | xtask/src/audit_scope.rs:799-828 | all non-excluded paths end up seen, and exactly the new ones are queued |
| `Discovery.ExpandPath` | xtask/src/audit_scope.rs:830-842 | one turn of the worklist keeps every popped path's dependencies seen or excluded |
| `Discovery.DiscoverMembers` | xtask/src/audit_scope.rs:792-847 | the worklist ends; it returns each non-excluded reachable path once, sorted, and fails if and only if a reachable manifest cannot be read |
| `Discovery.DiscoveryIsUnique` | xtask/src/audit_scope.rs:792-847 | the inputs alone fix the result, whatever the order of the worklist |
| `Discovery.DiscoveredInOrder` | xtask/src/audit_scope.rs:845-846 | the members come by package name, and those of one name by path |
| `WorkspaceViews.DiscoverOnDisk` | xtask/src/audit_scope.rs:792-847 | discovery from the raw workspace manifest over a directory tree: it returns the reachable members, or fails when a path leaves the workspace or a reachable manifest cannot be read |
| `WorkspaceViews.DiscoverAtRevision` | xtask/src/audit_scope.rs:849-915 | the same over a revision's file list |
| `WorkspaceViews.TwinsAgreeExactly` | xtask/src/audit_scope.rs:792-915 | two discoveries that differ in their expanded members alone give one result if and only if both fail or each one's members are reached or excluded in the other |
| `WorkspaceViews.DiscoveriesAgreeExactly` | xtask/src/audit_scope.rs:792-915 | for one tree both discoveries give one result if and only if both fail, or every listed path with a backslash is excluded with its slashed form excluded or reached anyway, and the root is not found as a member |
| `WorkspaceViews.DiscoveriesAgree` | xtask/src/audit_scope.rs:792-999 | where the two expansions of every member pattern agree, both discoveries find the same members |
| `AuditLedger.SelectCandidates` | xtask/src/audit_scope.rs:320-380 | a file is picked exactly when a reason applies, with those reasons, and no path twice |
| `AuditLedger.AppendDeletedChanges` | xtask/src/audit_scope.rs:382-416 | exactly the changed paths that are gone and can be classified are added, once each |
| `AuditLedger.AppendDeletedEntries` | xtask/src/audit_scope.rs:418-448 | exactly the ledger entries whose file is gone are added, once for each path |
| `AuditLedger.ForceWideTriggers` | xtask/src/audit_scope.rs:492-535 | the triggers are exactly the changed, added, modified or deleted paths that force a wide review, once each |
| `AuditLedger.BuildLedgerReport` | xtask/src/audit_scope.rs:142-245 | the report of a ledger run is sorted, names each path once, and holds exactly the files with a reason and the gone entries |
| `AuditLedger.BuildDiffReport` | xtask/src/audit_scope.rs:142-245 | the report of a run against a base revision is sorted, names each path once, and holds exactly the files with a reason and the gone changes |
| `AuditLedger.ReasonAfterSuccess` | xtask/src/audit_scope.rs:301-380 | after a successful audit a file is reviewed exactly when its path or its contents are new, and says which |
| `AuditLedger.IncrementalReport` | xtask/src/audit_scope.rs:301-535 | from a ledger built with success, over any later files, the report lists exactly the added, modified and deleted paths, or every current file too when one of those forces a wide review, each with its reasons |
| `AuditLedger.KindsAreNamed` | xtask/src/audit_scope.rs:598-627 | a scope kind given to a path is never the empty text that a ledger entry without a kind holds |
| `AuditLedger.UnchangedReportIsEmpty` | xtask/src/audit_scope.rs:301-448 | re-selecting over unchanged files yields nothing |
| `AuditLedger.UnsuccessfulAuditReviewsAll` | xtask/src/audit_scope.rs:320-448 | a ledger of an audit that did not succeed leaves every current and every deleted file to review |
| `AuditLedger.DiffReportLists` | xtask/src/audit_scope.rs:320-416 | a diff run lists a path exactly when it changed and exists or can be classified, or exists while a changed path forces a wide review |
| `AuditKinds.MembersComeFirst` | xtask/src/audit_scope.rs:598-615 | outside the mirror and the ledger the first member whose directory holds a path, segment by segment, gives its kind, before every other rule |
| `AuditKinds.MirrorIsIntegrity` | xtask/src/audit_scope.rs:598-607 | of the specification mirror exactly the two integrity files of each directory are reviewed, and the ledger never is |
| `AuditKinds.AreasAreClassified` | xtask/src/audit_scope.rs:616-626 | files of the documentation, corpus, fuzz, script and workflow directories have their directory's kind |
| `AuditKinds.DeletedCrateFile` | xtask/src/audit_scope.rs:482-490 | a deleted entry without a kind belongs to the crate its path lies in |
| `AuditKinds.MirrorForcesWide` | xtask/src/audit_scope.rs:537-559 | of the mirror exactly the reviewed files force a wide review |
| `AuditKinds.WideIsReviewed` | xtask/src/audit_scope.rs:537-626 | every path that forces a wide review is reviewed itself, the tool's sources as a member's |
| `AuditKinds.SettledExactly` | xtask/src/audit_scope.rs:328-362 | a file needs no review if and only if the ledger has this protocol and succeeded, and the last entry of its path holds its hash and succeeded |
| `CubicFit.BuildEquations` | xtask/src/bd_rate.rs:258-267 | accumulating into the 4 by 5 array gives the normal equations of the points |
| `CubicFit.FindPivot` | xtask/src/bd_rate.rs:269-271 | the pivot row is the last one of largest absolute entry, as the original's maximum search returns it |
| `CubicFit.ReduceInPlace` | xtask/src/bd_rate.rs:268-283 | pivoting, swapping, testing and clearing a column in place is one reduction step, and fails in the same cases |
| `CubicFit.FitCubic` | xtask/src/bd_rate.rs:257-285 | the whole fit, in place, returns what the specification of the fit does |
| `CubicFit.ReduceKeepsSolutions` | xtask/src/bd_rate.rs:268-283 | every swap and subtraction keeps the solution set |
| `CubicFit.ReduceClears` | xtask/src/bd_rate.rs:268-283 | a completed elimination leaves a diagonal system with nonzero pivots |
| `LeastSquares.FitSolvesUniquely` | xtask/src/bd_rate.rs:257-285 | the returned coefficients are the only solution of the normal equations |
| `LeastSquares.NormalRowIsMoment` | xtask/src/bd_rate.rs:258-267 | row k of the equations at a cubic is the k-th moment of that cubic's errors |
| `LeastSquares.FitIsLeastSquares` | xtask/src/bd_rate.rs:257-285 | the fit has the least sum of squared errors of all cubics, and no other cubic reaches it |
| `LeastSquares.FewQualitiesAreRejected` | xtask/src/bd_rate.rs:257-285 | points of at most three distinct qualities are never fitted |
| `PivotTest.PivotsAreNonzero` | xtask/src/bd_rate.rs:268-283 | with four or more distinct qualities elimination never meets a pivot that is exactly zero |
| `PivotTest.OnlySmallPivotsReject` | xtask/src/bd_rate.rs:257-285 | such points are rejected if and only if some pivot is nonzero but below the threshold |
| `BdRate.SwapInverts` | xtask/src/bd_rate.rs:230-254 | swapping anchor and test is defined in the same cases, and the two factors multiply to one |
| `BdRate.SameOutcome` | xtask/src/bd_rate.rs:268-283 | whether elimination succeeds depends on the qualities, never on the rates |
| `BdRate.ScaledFit` | xtask/src/bd_rate.rs:257-285 | multiplying all rates by s raises the fitted constant by ln s and changes nothing else |
| `BdRate.ScaledCurveRate` | xtask/src/bd_rate.rs:230-254 | a curve whose rates are all multiplied by s differs from the original by exactly (s-1)*100 whenever that is defined |
| `MeanRate.OverlapIsShared` | xtask/src/bd_rate.rs:231-242 | the range integrated over is exactly the set of qualities that lie between two qualities of each curve; there is none unless two are shared |
| `MeanRate.IntegralIsMean` | xtask/src/bd_rate.rs:243-252 | the integral of a fitted cubic over a range is its width times the cubic's mean, taken at both ends and the middle |
| `MeanRate.RateIsMeanDifference` | xtask/src/bd_rate.rs:230-254 | the rate is the percentage of the mean difference of the two fits over the shared qualities, and missing exactly when a fit is |
| `MeanRate.NoRateWithoutRange` | xtask/src/bd_rate.rs:240-242 | curves that share no two qualities have no rate |
| `CommentScan.ConsumeBlock` | xtask/src/comment_density.rs:240-260 | the body scan stops where nesting returns to zero, or at the end with the depth left |
| `CommentScan.BlockCommentWalk` | xtask/src/comment_density.rs:240-260 | the automaton's walk through a block comment ends where that scan does |
| `CommentScan.FirstComment` | xtask/src/comment_density.rs:262-315 | the search skips strings, raw strings and char literals as the automaton does and stops at its first opener with no string open |
| `CommentScan.RawStringStartMeans` | xtask/src/comment_density.rs:317-345 | a raw string starts exactly at r, br or cr, hashes and a quote that continue no identifier |
| `CommentScan.ScanLine` | xtask/src/comment_density.rs:177-214 | one line's spans and carried state; a string and a block comment are never open together |
| `CommentScan.ScanCommentLines` | xtask/src/comment_density.rs:156-171 | the whole file, blank lines skipped and state carried |
| `CommentScan.AgreesExactlyWhenSteady` | xtask/src/comment_density.rs:156-315 | the line scanner emits the spans of the one-pass automaton, with its state, if and only if no line that stays inside a block comment changes the depth |
| `CommentScan.DriftIsVisible` | xtask/src/comment_density.rs:187-195 | once a line breaks that condition, two more lines give different spans |
| `CommentScan.ReopenedCommentIsLeftEarly` | xtask/src/comment_density.rs:187-195 | four lines on which a comment is left one closer early |
| `CommentScan.SpansAreOrdered` | xtask/src/comment_density.rs:156-214 | on every text the spans lie within their lines, are disjoint and increase |
| `CommentPieces.ApostropheWalks` | xtask/src/comment_density.rs:353-395 | at an apostrophe the scan goes on behind the char literal that stands there, one char, escaped, hex or braced, and one column later where none does |
| `CommentPieces.PieceWalks` | xtask/src/comment_density.rs:262-395 | strings with escapes, raw strings, char literals and other characters are passed over whole, without a span |
| `CommentPieces.LineOfCode` | xtask/src/comment_density.rs:177-214 | a line of such pieces has no span, and a line comment behind them is its only one, of the kind its first characters tell |
| `CommentPieces.BlockInCode` | xtask/src/comment_density.rs:196-212 | a block comment in code, nested ones inside it included, is one span, and the code goes on behind it |
| `CommentPieces.KindIsTold` | xtask/src/comment_density.rs:216-238 | a comment that leads its line has the kind of its first characters, and every other one is a trailing comment |
| `CommentPieces.LinesReadBack` | xtask/src/comment_density.rs:163-171 | lines are what line breaks end or separate |
| `StringLiterals.StringLiteralsSkippingComments` | xtask/src/diagnostic_registry.rs:290-360 | the scanner as written, its four inner loops included |
| `StringLiterals.PieceIsFirst` | xtask/src/diagnostic_registry.rs:295-355 | whatever follows, a comment, char literal, string or other plain character is taken whole and only a string gives a literal |
| `StringLiterals.FindsExactlyTheLiterals` | xtask/src/diagnostic_registry.rs:290-360 | of code assembled from plain characters, strings with escapes, line comments, nested block comments, char literals, slashes that open no comment, and apostrophes and escaped apostrophes before which the scanner recovers (lifetimes), exactly the string contents are returned, in order |
| `StringLiterals.RecoversExactly` | xtask/src/diagnostic_registry.rs:320-336 | for all characters a and b: after an escaped apostrophe the scan of every text that begins with a and b is the scan of that text alone, if and only if a is no backslash and b no apostrophe |
| `StringLiterals.EscapedApostropheMisleads` | xtask/src/diagnostic_registry.rs:320-336 | after an escaped apostrophe a quote in a char literal opens a string that runs to the next quote |
| `BannedPhrases.ExactForNeedles` | xtask/src/ai_slop.rs:114-126 | visiting only non-overlapping matches finds an accepted occurrence whenever there is one, for all texts and tail tests, if and only if every overlapping copy of the phrase begins inside a word |
| `BannedPhrases.LostOccurrence` | xtask/src/ai_slop.rs:114-126 | for any other phrase, a text whose only accepted occurrence is lost |
| `BannedPhrases.PhrasesAreExact` | xtask/src/ai_slop.rs:22-39 | every phrase in use meets that condition |
| `BannedPhrases.BannedMarker` | xtask/src/ai_slop.rs:83-102 | the first phrase that stands anywhere with its boundaries is returned, or none stands |
| `BannedPhrases.StandsExactly` | xtask/src/ai_slop.rs:114-126 | a phrase stands in a text that is something no word of which runs into it, the phrase, and an accepted tail |
| `BannedPhrases.PullRequestExactly` | xtask/src/ai_slop.rs:133-138 | a pull request is named by blanks, a number sign, blanks and a digit, and nothing else |
| `InstallRegions.UnwindStack` | xtask/src/concurrency_policy.rs:459-465 | popping ends with the entries below the depth |
| `InstallRegions.PassLine` | xtask/src/concurrency_policy.rs:436-465 | the update after one line, as written |
| `InstallRegions.EvaluateParallelRule` | xtask/src/concurrency_policy.rs:410-471 | the rule over all lines, state renewed when the path changes, sorted and without repeats |
| `InstallRegions.EntryStep` | xtask/src/concurrency_policy.rs:436-465 | the closures open after a line are the one begun on it and those open before that are still deeper |
| `InstallRegions.TrackerTracks` | xtask/src/concurrency_policy.rs:410-466 | after every line: the stack strictly increases below the depth, holds exactly the depths of the closures still open, and pending holds exactly when a call waits, with its positive parenthesis count |
| `InstallRegions.InsideIsRegion` | xtask/src/concurrency_policy.rs:423-424 | the tracker finds a line inside an install call if and only if a call stands on it, waits, or has an open closure |
| `InstallRegions.ViolationsAreOutside` | xtask/src/concurrency_policy.rs:410-471 | over all files, exactly the suspect lines outside install regions are reported, sorted, each once |
| `InstallRegions.FileOrderIsIrrelevant` | xtask/src/concurrency_policy.rs:416-422 | the report is the same for every order of the files |
| `InstallRegions.DepthIsBalance` | xtask/src/concurrency_policy.rs:436-465 | depth and open parentheses are the balance of the brackets in the text since |
| `InstallRegions.ClosureHoldsLines` | xtask/src/concurrency_policy.rs:436-465 | while the text since an install call keeps a brace open, the lines lie in its region |
| `InstallRegions.SuspectExactly` | xtask/src/concurrency_policy.rs:424-435 | a line is suspect if and only if it is no test's, lies outside the pool's crate and holds a token, the first of which is named |
| `InstallRegions.MessagesTell` | xtask/src/concurrency_policy.rs:424-435 | a message tells its path, line number and token |
| `TableTokens.TokenizeBody` | xtask/src/gen_tables.rs:687-725 | the tokenizer as written, failing in the same cases |
| `TableTokens.TokenizeIsSpelling` | xtask/src/gen_tables.rs:687-725 | tokenizing succeeds with exactly the tokens the body spells under a declarative grammar |
| `TableLiterals.ParsedIsWritten` | xtask/src/gen_tables.rs:729-763 | what is parsed from tokens writes back to the tokens used |
| `TableLiterals.WrittenIsParsed` | xtask/src/gen_tables.rs:729-763 | the tokens of any tree parse to that tree, leaving the rest |
| `TableLiterals.RenderNode` | xtask/src/gen_tables.rs:729-763 | the recursive renderer with its cursor gives the literal of the tree at the cursor and stops behind it, or fails when there is none or an integer does not fit |
| `TableLiterals.RenderValue` | xtask/src/gen_tables.rs:670-678 | a literal is returned exactly for bodies that spell one tree of fitting integers |
| `TableLiterals.ShapeNode` | xtask/src/gen_tables.rs:784-823 | the shape walk with its cursor finds the common shape of the tree at the cursor or fails |
| `TableLiterals.ArrayType` | xtask/src/gen_tables.rs:768-780 | a type is returned exactly for bodies that spell one rectangular tree |
| `TableLiterals.ShapeIsRectangle` | xtask/src/gen_tables.rs:784-823 | a shape is found if and only if the tree is rectangular with those dimensions |
| `TableLiterals.LiteralReadsBack` | xtask/src/gen_tables.rs:729-763 | reading a printed literal gives back its tree |
| `TableLiterals.RectanglesAreTyped` | xtask/src/gen_tables.rs:768-780 | a rectangular tree of fitting integers has the printed nested-array type |
| `TableLiterals.ElementIsNamed` | xtask/src/gen_tables.rs:729-745 | an element type holds exactly the integers its name tells by sign and number of bits |
| `TableLiterals.TypesPrintApart` | xtask/src/gen_tables.rs:768-780 | two nested-array types that print alike are one type |
| `TableLiterals.LeavesFillShape` | xtask/src/gen_tables.rs:784-823 | the number of integers is the product of the dimensions |
| `TableLiterals.GeneratedTableIsSound` | xtask/src/gen_tables.rs:670-823 | when value and type are both generated, the literal reads back as the tree the body spells, has exactly the printed type, and fills its dimensions |
| `TableLiterals.GeneratedExactly` | xtask/src/gen_tables.rs:670-823 | both are generated if and only if the body spells one rectangular tree of fitting integers |
| `TableComments.StripComments` | xtask/src/gen_tables.rs:518-545 | the stripping loop as written |
| `TableComments.StrippedHasNoOpener` | xtask/src/gen_tables.rs:518-545 | no comment opener is left |
| `TableComments.StripIsIdempotent` | xtask/src/gen_tables.rs:518-545 | stripping twice is stripping once |
| `TableComments.StripKeepsBreaks` | xtask/src/gen_tables.rs:518-545 | all line breaks are kept but a final one inside an open block comment |
| `TableComments.LineCountKeptExactly` | xtask/src/gen_tables.rs:518-545 | the line count is kept if and only if the text does not end with a break inside an open block comment |
| `TableDecls.ParseStep` | xtask/src/gen_tables.rs:426-495 | one turn of the parser yields a declaration or steps past text that is none, and always advances |
| `TableDecls.ParseDecls` | xtask/src/gen_tables.rs:419-504 | the parser as written, with its failures |
| `TableDecls.PrintedDeclsParse` | xtask/src/gen_tables.rs:419-545 | any printed list of `Name[dims] = {balanced body}` with comments and blanks between parses to that list, in order, each numeric exactly when its parts are numbers |
| `TableDecls.ClassifyBody` | xtask/src/gen_tables.rs:559-576 | the classifying loop as written |
| `TableDecls.NumericExactly` | xtask/src/gen_tables.rs:559-576 | a body is numeric if and only if none of its parts is a name and every minus sign stands before a numeral |
| `TableDecls.BodyHasParts` | xtask/src/gen_tables.rs:559-576 | every body is made of such parts |
| `TableDecls.ReadableIsNumeric` | xtask/src/gen_tables.rs:559-576 | every body the tokenizer reads is classified as numeric |
| `SpecMirror.PlanSegments` | scripts/spec/build_av2_mirror.py:179-238 | planning as written: tops checked, chapter nine split, headings sorted and attached by binary search |
| `SpecMirror.BisectLeft` | scripts/spec/build_av2_mirror.py:228-238 | the binary search finds how many headings lie before a line |
| `SpecMirror.AttachedAreInside` | scripts/spec/build_av2_mirror.py:228-238 | a segment gets exactly the headings of its stretch, in order |
| `SpecMirror.RenderSegment` | scripts/spec/build_av2_mirror.py:275-316 | rendering as written, the provenance line with its links from the depth of the file's path included |
| `SpecMirror.NoticeIsGood` | scripts/spec/build_av2_mirror.py:277-289 | at every depth the provenance comment is one line that opens no fence |
| `SpecMirror.ExtractLines` | scripts/spec/build_av2_mirror.py:319-332 | reading fenced lines back, as written |
| `SpecMirror.AssertRoundtrip` | scripts/spec/build_av2_mirror.py:335-351 | the run-time assertion passes exactly when the fenced text of all files is the raw text |
| `SpecMirror.RenderedReadsBack` | scripts/spec/build_av2_mirror.py:275-332 | reading a rendered file back gives exactly its stretch of the raw lines, whatever headings and fences were added |
| `SpecMirror.OrderedPlan` | scripts/spec/build_av2_mirror.py:179-272 | with chapters before annexes the segments partition the lines in order and every heading lies in exactly one |
| `SpecMirror.DisorderedPlanOverflows` | scripts/spec/build_av2_mirror.py:179-238 | otherwise the planned stretches hold more lines than there are |
| `SpecMirror.PathsAreDistinctExactly` | scripts/spec/build_av2_mirror.py:179-272 | all planned files have paths of their own if and only if no two subsections of chapter 9 share number and slug and none has number 0 and the slug of the overview that precedes it |
| `SpecMirror.RoundTripExactly` | scripts/spec/build_av2_mirror.py:179-351 | when those subsections are kept apart, the assertion holds if and only if no raw line is a bare closing fence and all chapters precede all annexes |
| `MirrorHeadings.SlugOfWords` | scripts/spec/build_av2_mirror.py:130-133 | a slug is made of the words of a title, whatever stands between them |
| `MirrorHeadings.NumbersHaveTheirAnchor` | scripts/spec/build_av2_mirror.py:86-93 | numbered headings and annexes share an anchor exactly when kind and number are equal |
| `MirrorHeadings.AnchorsMeet` | scripts/spec/build_av2_mirror.py:86-93 | headings of any kinds share an anchor exactly when the parts of their numbers or the words of their titles are the same list |
| `MirrorHeadings.HeadingLinesTell` | scripts/spec/build_av2_mirror.py:95-110 | a heading line gives back its level, and among headings of one kind number and title; numbered headings and annexes never share one |
| `MirrorHeadings.HeadingStandsAbove` | scripts/spec/build_av2_mirror.py:275-316 | every heading stands with its anchor right above the fence that begins with its line, and the file begins with its title |
| `MirrorHeadings.FileTitles` | scripts/spec/build_av2_mirror.py:210-227 | a chapter's or annex's file has the text of the heading it begins with as its title |
| `MirrorHeadings.FileNames` | scripts/spec/build_av2_mirror.py:210-227 | files of one place have one name exactly when their titles have one slug |
| `MirrorHeadings.SubsectionExactly` | scripts/spec/build_av2_mirror.py:246-254 | a heading makes a file of chapter 9 exactly when its number is 9 and one part more |
| `MirrorHeadings.PlanExactly` | scripts/spec/build_av2_mirror.py:187-203 | a plan is made when the headings without a dot are chapters 1 to 9 and annexes A to G in order, and only then |
| `DiagnosticTable.ParseEntries` | xtask/src/explain_registry.rs:90-153 | all lines as written, then sorting and the search for neighbours with one id |
| `DiagnosticTable.AcceptedExactly` | xtask/src/explain_registry.rs:90-153 | a region is accepted if and only if no row is malformed, there is a row, and no id comes twice; the result is the rows' entries in strict order of id |
| `DiagnosticTable.OrderIsUnique` | xtask/src/explain_registry.rs:143-152 | entries with distinct ids have only one order by id |
| `DiagnosticTable.RowReadsBack` | xtask/src/explain_registry.rs:93-137 | a printed four-column row gives back its entry, pipes in the condition and dual severities included |
| `DiagnosticTable.LineReadsBack` | xtask/src/explain_registry.rs:94-114 | prose, three-column rows and rows whose first cell is not quoted give no entry |
| `DiagnosticTable.PrintedTableParses` | xtask/src/explain_registry.rs:90-153 | a printed region parses if and only if it has a row and no repeated id, to its rows' entries sorted by id |
| `DiagnosticTable.LineOrderIsIrrelevant` | xtask/src/explain_registry.rs:90-153 | regions with the same rows in any order and any other lines between give the same registry |
| `DiagnosticGrammar.RuleIdExactly` | xtask/src/explain_registry.rs:167-180 | a rule id is two words of lowercase letters, digits and dashes with one slash between |
| `DiagnosticGrammar.SeverityCellExactly` | xtask/src/explain_registry.rs:50-57 | a severity cell is error, warning or info with slashes between and blanks around, and nothing else |
| `DiagnosticGrammar.SectionExactly` | xtask/src/explain_registry.rs:156-165 | an empty cell, an em dash and a hyphen are no section, any other text is |
| `DiagnosticGrammar.MalformedExactly` | xtask/src/explain_registry.rs:117-133 | a row with a quoted rule id is malformed if and only if its severity cell holds anything else or its condition is blank |
| `Y4m.SyntheticY4m` | xtask/src/encode_perf.rs:194-222 | the nested loops write header, frame headers and planes whose samples are the formula's, position by position |
| `Y4m.Sample` | xtask/src/encode_perf.rs:195-217 | every generated sample lies from 16 to 235, so nothing saturates and no sample is a newline byte |
| `Utf8.DecodesExactlyEncodings` | xtask/src/bd_rate.rs:172 | a header is accepted as UTF-8 exactly when it encodes a text, and then read as that text |
| `Y4m.Y4mLuma` | xtask/src/bd_rate.rs:167-202 | the reader as written, with its failures |
| `Y4m.ReadPlanes` | xtask/src/bd_rate.rs:183-198 | the frame loop with its advancing position |
| `Y4m.HeaderReadsBack` | xtask/src/bd_rate.rs:168-182 | the generated header parses to its width and height and passes the format check |
| `Y4m.FramesReadBack` | xtask/src/bd_rate.rs:183-198 | frames up to five bytes shorter than the reader's step are still found one by one |
| `Y4m.SyntheticReadsBack` | xtask/src/encode_perf.rs:194-222 | for every frame count and limit of at least one, a clip of even size, or short by at most five bytes, gives back its sizes and the first luma planes, sample by sample the formula's |
| `Y4m.FrameIsLost` | xtask/src/bd_rate.rs:183-198 | a longer shortfall loses at least one frame |
| `Y4m.OneFrameReadsBack` | xtask/src/bd_rate.rs:167-202 | a clip of one frame, or one read with limit one, gives back its first luma plane at every size |
| `Y4m.ThirdComesSecond` | xtask/src/bd_rate.rs:183-198 | with a longer shortfall the second plane read is the third frame's |
| `Y4m.ReadsBackExactly` | xtask/src/bd_rate.rs:167-202 | for every frame count and limit of at least one, the sizes and the planes asked for come back if and only if that is one plane, or half the width (odd height) plus half the height (odd width) is at most five |
| `ClipMotion.TriIsWave` | xtask/src/encode_perf.rs:195-198 | the gradient climbs from 0 to 255 in steps of at most one, comes back the same way and repeats |
| `ClipMotion.LumaMoves` | xtask/src/encode_perf.rs:204-209 | from frame to frame the luma picture moves by (2, 1) samples |
| `ClipMotion.ChromaMoves` | xtask/src/encode_perf.rs:210-216 | chroma moves too, its planes are one gradient 64 rows apart, and neighbours differ by at most one |
| `ClipMotion.SizeExactly` | xtask/src/bd_rate.rs:178-179 | a size is read exactly from digits of a value that fits, after a plus sign or none |
| `ClipMotion.FormatExactly` | xtask/src/bd_rate.rs:180-182 | a header of sizes and a colour format is accepted exactly when that is 4:2:0 of eight bits and both sizes are read |
| `ClipMotion.BrokenFrameIsRefused` | xtask/src/bd_rate.rs:186-194 | a frame whose luma is cut short, or whose header has no end, makes the clip unreadable |
| `FrameBytes.SampleReader.Take` | fuzz/fuzz_targets/recon_frame_hash_bytes.rs:390-411 | samples are taken from the input in order, zero past its end |
| `FrameBytes.NewFrame` | fuzz/fuzz_targets/recon_frame_hash_bytes.rs:144-220 | every fuzz input describes a frame whose planes fit storage, stride and chroma format and whose crop lies on the chroma grid; its samples are the input's in plane order |
| `FrameBytes.BuildPlane` | fuzz/fuzz_targets/recon_frame_hash_bytes.rs:301-329 | the plane holds each visible sample at its cropped position and padding elsewhere, every visible sample is used once, and building fails exactly when a sample does not fit the sample type |
| `FrameBytes.StoredFits` | fuzz/fuzz_targets/recon_frame_hash_bytes.rs:301-329 | a sample type that holds the bit depth holds every stored sample, padding included |
| `FrameBytes.ManualVisibleBytes` | fuzz/fuzz_targets/recon_frame_hash_bytes.rs:248-258 | the expected bytes are those of all visible samples, plane after plane |
| `FrameBytes.PushVisibleBytes` | fuzz/fuzz_targets/recon_frame_hash_bytes.rs:331-335 | one plane's samples appended as bytes, ten-bit ones low byte first |
| `FrameBytes.BytesOfSlice` | fuzz/fuzz_targets/recon_frame_hash_bytes.rs:421-426 | the bytes of a stretch of samples are the matching stretch of bytes |
| `FrameBytes.WriteRows` | crates/splot-capi/examples/decode.c:29-31 | the row pointer advances by the stride and stays in memory |
| `FrameBytes.WritePicture` | crates/splot-capi/examples/decode.c:16-34 | all planes present are written in order, every access inside its memory |
| `FrameBytes.VisibleRow` | fuzz/fuzz_targets/recon_frame_hash_bytes.rs:301-329 | a visible row stands in the storage at crop and stride |
| `FrameBytes.VisibleRows` | crates/splot-capi/examples/decode.c:26-31 | walking a built plane by crop and stride gives exactly its visible samples' bytes, row after row |
| `FrameBytes.WriterGivesVisibleBytes` | crates/splot-capi/examples/decode.c:16-34 | for every frame and padding variant the C writer stays inside the picture and writes exactly the bytes the fuzz target expects |
| `FrameSamples.BytesAreValue` | fuzz/fuzz_targets/recon_frame_hash_bytes.rs:421-426 | a sample's bytes are its value, the low byte first |
| `FrameSamples.SampleIsRead` | fuzz/fuzz_targets/recon_frame_hash_bytes.rs:398-411 | a ten-bit sample is a byte and two bits of the next, and every sample has an input |
| `FrameSamples.PaddingMovesByVariant` | fuzz/fuzz_targets/recon_frame_hash_bytes.rs:428-434 | from one padding variant to the next every padding sample differs |
| `FrameSamples.ChromaCovers` | fuzz/fuzz_targets/recon_frame_hash_bytes.rs:165-200 | the chroma rectangle is the smallest that covers the luma one in its format |

## Left out

- FrameBytes.WriterGivesVisibleBytes: `fwrite` always writes all it is given and the host is little-endian; a failing output, and a frame whose 8-bit samples are stored as 16-bit ones, are not part of the model.
- FrameBytes.NewFrame: `DecodedFrame::try_new`, hashing and the failing writer are not part of this model; the flag bits for 16-bit storage and for the failing writer are not read.
- Y4m.Y4mLuma: machine-width overflow of `width * height * 3 / 2` is not modelled.
- Y4m.SyntheticY4m: sizes and positions are unbounded, so overflow of `usize` is not modelled; the 32-bit wrap-around of the texture hash is.
- CubicFit.FitCubic: exact reals, with the logarithm as a parameter; floating-point rounding is not modelled.
- BdRate.ScaledCurveRate: `ln` and `exp` are parameters with their functional laws; curve ends and means are exact.
- AuditLedger.BuildLedgerReport: feature ids, lanes and commit fields of a candidate are not modelled; files, hashes and the previous ledger are inputs.
- Discovery.DiscoverMembers: manifests are parsed values, one for each package path.
- WorkspaceViews.DiscoveriesAgreeExactly: both views read the same manifest for a path; that a path with an empty segment, made from a backslash at the edge of a name, opens a file on disk only is not modelled.
- MemberExpansion.MemberPathsAtRevision: the file list holds names as they are; the quoting of unusual names by `git ls-tree` is not modelled.
- MemberExpansion.ExpandInto: the directory tree is a value whose entries come in the order read; symbolic links and read errors are not modelled.
- InstallRegions.EvaluateParallelRule: only the parallel-iteration rule of the policy; the empty allow-list, the other rules and the `cfg(test)` region finder that sets a line's test flag are not modelled, and neither is 32-bit overflow of the counters.
- DiagnosticTable.ParseEntries: the region between the two markers is the input; finding the markers and rendering the generated Rust are not modelled.
- SpecMirror.PlanSegments: headings are given with their lines; detecting them, page numbers, the index, the readme and provenance files are not modelled.
- SpecMirror.RoundTripExactly: two files of one path, the later of which replaces the earlier, are not part of this statement.
- BannedPhrases.BannedMarker: the phrases with their tails; walking the sources is not modelled.
- TableDecls.ParseDecls: choosing which declarations are generated and the layout of the generated modules are not modelled.
- The codec crates (range coder, prediction, reference frames, bitstream parsing): outside the scope of this model.
- Subprocesses, downloads, the file system, JSON, TOML and hashing: inputs or left out.
- Error messages: failures carry no text.
- Unicode blanks and letters: only the ASCII ones count.
- Budget checks, report rendering and command dispatch: one-branch code with nothing to prove.
