/**
 The parallel-iteration rule of the concurrency policy (xtask/src/concurrency_policy.rs): a tracker
 of brace depth, open install closures and a pending call's parentheses. It is proved to flag exactly
 the lines that lie in no install region.
 */
module InstallRegions {
  import opened Wrappers
  import opened Ordering
  import opened Text
  import opened Numerals

  const INSTALL_CALL := ".install("
  const PARALLEL_CRATE_PREFIX := "crates/splot-parallel/"
  const TOKENS: seq<string> := ["par_iter", "par_chunks", "par_rchunks", "par_windows", "par_chunk_by",
                                "par_split", "par_sort", "par_bridge"]

  datatype SourceLine = SourceLine(path: string, lineNo: nat, text: string, inTest: bool)

  predicate Contains(text: string, part: string) { exists i | 0 <= i <= |text| :: OccursAt(text, part, i) }

  function BraceDelta(line: SourceLine): int { Count(line.text, '{') - Count(line.text, '}') }
  function ParenDelta(line: SourceLine): int { Count(line.text, '(') - Count(line.text, ')') }
  predicate Opens(line: SourceLine) { Contains(line.text, INSTALL_CALL) }

  function FirstToken(text: string, i: nat): Option<string>
    requires i <= |TOKENS|
    decreases |TOKENS| - i
  {
    if i == |TOKENS| then None else if Contains(text, TOKENS[i]) then Some(TOKENS[i]) else FirstToken(text, i + 1)
  }

  /** The token the line would be flagged for outside any install region. */
  function Suspect(line: SourceLine): Option<string> {
    if line.inTest || StartsWith(line.path, PARALLEL_CRATE_PREFIX) then None else FirstToken(line.text, 0)
  }

  const BEFORE_TOKEN := " parallel iteration (`"
  const AFTER_TOKEN :=
    ") must run inside `WorkerPool::install` so it uses the configured worker pool, not Rayon's global pool"

  function Message(line: SourceLine, token: string): string {
    line.path + ":" + NatText(line.lineNo) + ":" + BEFORE_TOKEN + token + "`" + AFTER_TOKEN
  }

  // ---------- the tracker ----------

  datatype Tracker = Tracker(depth: int, stack: seq<int>, pending: bool, parens: int)

  const FRESH := Tracker(0, [], false, 0)

  predicate InsideInstall(t: Tracker, line: SourceLine) { t.stack != [] || Opens(line) || t.pending }

  /** Drops the entries the depth has come back to. */
  function Unwind(stack: seq<int>, depth: int): seq<int> {
    if stack != [] && depth <= stack[|stack| - 1] then Unwind(stack[..|stack| - 1], depth) else stack
  }

  function Step(t: Tracker, line: SourceLine): Tracker {
    var depth, parens := t.depth + BraceDelta(line), ParenDelta(line);
    var next :=
      if (Opens(line) || t.pending) && depth > t.depth then
        Tracker(depth, t.stack + [t.depth], false, 0)
      else if Opens(line) then
        Tracker(depth, t.stack, parens > 0, if parens > 0 then parens else 0)
      else if t.pending && t.parens + parens > 0 then
        Tracker(depth, t.stack, true, t.parens + parens)
      else if t.pending then
        Tracker(depth, t.stack, false, 0)
      else
        t.(depth := depth);
    next.(stack := Unwind(next.stack, depth))
  }

  function Run(lines: seq<SourceLine>, k: nat): Tracker
    requires k <= |lines|
  {
    if k == 0 then FRESH else Step(Run(lines, k - 1), lines[k - 1])
  }

  /** What a line adds to the violations when the tracker meets it. */
  function Flag(t: Tracker, line: SourceLine): seq<string> {
    if !InsideInstall(t, line) && Suspect(line).Some? then [Message(line, Suspect(line).value)] else []
  }

  /** The lines in order, starting afresh whenever the path changes. */
  function Flags(sources: seq<SourceLine>, path: string, t: Tracker): seq<string> {
    if sources == [] then []
    else
      var line := sources[0];
      var now := if line.path != path then FRESH else t;
      Flag(now, line) + Flags(sources[1..], line.path, Step(now, line))
  }

  function Violations(sources: seq<SourceLine>): seq<string> {
    Dedup(Sort(LexLeq, Flags(sources, "", FRESH)))
  }

  lemma NextFlag(sources: seq<SourceLine>, i: nat, path: string, t: Tracker)
    requires i < |sources|
    ensures var now := if sources[i].path != path then FRESH else t;
      Flags(sources[i..], path, t)
      == Flag(now, sources[i]) + Flags(sources[i + 1..], sources[i].path, Step(now, sources[i]))
  {
    hide Step, Flag;
    assert sources[i..][0] == sources[i] && sources[i..][1..] == sources[i + 1..];
  }

  /** What is collected before line i, and what the tracker has still to add. */
  ghost predicate SoFar(sources: seq<SourceLine>, i: nat, path: string, t: Tracker, violations: seq<string>)
    requires i <= |sources|
  {
    Flags(sources, "", FRESH) == violations + Flags(sources[i..], path, t)
  }

  lemma SoFarStep(sources: seq<SourceLine>, i: nat, path: string, t: Tracker, violations: seq<string>)
    requires i < |sources| && SoFar(sources, i, path, t, violations)
    ensures var now := if sources[i].path != path then FRESH else t;
      SoFar(sources, i + 1, sources[i].path, Step(now, sources[i]), violations + Flag(now, sources[i]))
  {
    hide Step, Flag;
    NextFlag(sources, i, path, t);
  }

  lemma NothingLeft(sources: seq<SourceLine>, path: string, t: Tracker, violations: seq<string>)
    requires SoFar(sources, |sources|, path, t, violations)
    ensures violations == Flags(sources, "", FRESH)
  {
    hide Step, Flag, FRESH;
    assert sources[|sources|..] == [];
  }

  method EvaluateParallelRule(sources: seq<SourceLine>) returns (violations: seq<string>)
    ensures violations == Violations(sources)
  {
    hide Step, Opens, Suspect, Message, Flags, Dedup, Sort;
    var currentPath, depth: int, stack: seq<int>, pending, parens: int := "", 0, [], false, 0;
    violations := [];
    assert sources[0..] == sources && [] + Flags(sources, "", FRESH) == Flags(sources, "", FRESH);
    assert SoFar(sources, 0, "", FRESH, []);
    hide SoFar;
    for i := 0 to |sources|
      invariant SoFar(sources, i, currentPath, Tracker(depth, stack, pending, parens), violations)
    {
      var line := sources[i];
      SoFarStep(sources, i, currentPath, Tracker(depth, stack, pending, parens), violations);
      if line.path != currentPath {
        currentPath, depth, stack, pending, parens := line.path, 0, [], false, 0;
      }
      ghost var met := Tracker(depth, stack, pending, parens);
      var opens, suspect := Opens(line), Suspect(line);
      ghost var flagged := violations + Flag(met, line);
      if !(stack != [] || opens || pending) && suspect.Some? {
        violations := violations + [Message(line, suspect.value)];
      }
      assert violations == flagged;
      depth, stack, pending, parens := PassLine(depth, stack, pending, parens, opens, line);
    }
    NothingLeft(sources, currentPath, Tracker(depth, stack, pending, parens), violations);
    violations := Dedup(Sort(LexLeq, violations));
  }

  /** The tracker's update after a line was judged. */
  method PassLine(pre: int, entries: seq<int>, waiting: bool, open: int, opens: bool, line: SourceLine)
    returns (depth: int, stack: seq<int>, pending: bool, parens: int)
    requires opens == Opens(line)
    ensures Tracker(depth, stack, pending, parens) == Step(Tracker(pre, entries, waiting, open), line)
  {
    hide Unwind, Opens, BraceDelta, ParenDelta;
    stack, pending, parens := entries, waiting, open;
    depth := pre + BraceDelta(line);
    var change := ParenDelta(line);
    if opens {
      if depth > pre {
        stack, pending, parens := stack + [pre], false, 0;
      } else {
        parens := if change > 0 then change else 0;
        pending := parens > 0;
      }
    } else if pending {
      parens := parens + change;
      if depth > pre {
        stack, pending, parens := stack + [pre], false, 0;
      } else if parens <= 0 {
        pending, parens := false, 0;
      }
    }
    stack := UnwindStack(stack, depth);
  }

  method UnwindStack(entries: seq<int>, depth: int) returns (stack: seq<int>)
    ensures stack == Unwind(entries, depth)
  {
    stack := entries;
    while stack != [] && depth <= stack[|stack| - 1]
      invariant Unwind(stack, depth) == Unwind(entries, depth)
    {
      stack := stack[..|stack| - 1];
    }
  }

  // ---------- install regions ----------

  /** The brace depth before line k. */
  function Depth(lines: seq<SourceLine>, k: nat): int
    requires k <= |lines|
  {
    if k == 0 then 0 else Depth(lines, k - 1) + BraceDelta(lines[k - 1])
  }

  /** The parentheses opened and not closed from line i up to line k. */
  function OpenParens(lines: seq<SourceLine>, i: nat, k: nat): int
    requires i <= k <= |lines|
  {
    if i == k then 0 else OpenParens(lines, i, k - 1) + ParenDelta(lines[k - 1])
  }

  /** The call on line i still waits for its closure before line k. */
  predicate WaitsSince(lines: seq<SourceLine>, i: nat, k: nat)
    requires i <= k <= |lines|
  {
    && i < k && Opens(lines[i])
    && (forall j | i < j < k :: !Opens(lines[j]))
    && (forall j | i < j <= k :: Depth(lines, j) <= Depth(lines, j - 1) && OpenParens(lines, i, j) > 0)
  }

  ghost predicate Waits(lines: seq<SourceLine>, k: nat)
    requires k <= |lines|
  {
    exists i | 0 <= i <= k :: WaitsSince(lines, i, k)
  }

  /** A closure of an install call begins on line j. */
  ghost predicate ClosureBegins(lines: seq<SourceLine>, j: nat)
    requires j < |lines|
  {
    Depth(lines, j + 1) > Depth(lines, j) && (Opens(lines[j]) || Waits(lines, j))
  }

  /** The closure begun on line j is still open before line k: every line since ended deeper. */
  ghost predicate Live(lines: seq<SourceLine>, j: nat, k: nat)
    requires j <= k <= |lines|
  {
    j < k && ClosureBegins(lines, j) && forall m | j < m <= k :: Depth(lines, m) > Depth(lines, j)
  }

  /** A closure entered at depth e is still open before line k. */
  ghost predicate LiveEntry(lines: seq<SourceLine>, k: nat, e: int)
    requires k <= |lines|
  {
    exists j | 0 <= j <= k :: Live(lines, j, k) && Depth(lines, j) == e
  }

  /** Line k lies in an install region: a call on it, one waiting, or an open closure. */
  ghost predicate InRegion(lines: seq<SourceLine>, k: nat)
    requires k < |lines|
  {
    Opens(lines[k]) || Waits(lines, k) || exists j | 0 <= j <= k :: Live(lines, j, k)
  }

  // ---------- the tracker finds the regions ----------

  ghost predicate Rising(stack: seq<int>) { forall i, j | 0 <= i < j < |stack| :: stack[i] < stack[j] }

  lemma {:induction false} UnwindKeeps(stack: seq<int>, depth: int)
    requires Rising(stack)
    ensures Rising(Unwind(stack, depth))
    ensures forall e :: e in Unwind(stack, depth) <==> e in stack && e < depth
  {
    if stack != [] && depth <= stack[|stack| - 1] {
      UnwindKeeps(stack[..|stack| - 1], depth);
      assert stack == stack[..|stack| - 1] + [stack[|stack| - 1]];
    } else {
      forall e | e in stack ensures e < depth {
        var i :| 0 <= i < |stack| && stack[i] == e;
        assert e <= stack[|stack| - 1];
      }
    }
  }

  /** The pending state before line k: a call waits exactly when its open parentheses are positive. */
  ghost predicate TracksWait(lines: seq<SourceLine>, k: nat, pending: bool, parens: int)
    requires k <= |lines|
  {
    && (pending <==> parens > 0) && parens >= 0
    && (pending <==> Waits(lines, k))
    && (forall i | 0 <= i <= k && WaitsSince(lines, i, k) :: parens == OpenParens(lines, i, k))
  }

  /** The stack before line k: strictly increasing, below the depth, one entry per open closure. */
  ghost predicate TracksStack(lines: seq<SourceLine>, k: nat, depth: int, stack: seq<int>)
    requires k <= |lines|
  {
    && depth == Depth(lines, k)
    && Rising(stack) && (forall e | e in stack :: e < depth)
    && (forall e :: e in stack <==> LiveEntry(lines, k, e))
  }

  ghost predicate Tracks(lines: seq<SourceLine>, k: nat, t: Tracker)
    requires k <= |lines|
  {
    TracksStack(lines, k, t.depth, t.stack) && TracksWait(lines, k, t.pending, t.parens)
  }

  /** A call still waiting after line k either waited before it or stands on it. */
  lemma WaitStep(lines: seq<SourceLine>, i: nat, k: nat)
    requires i <= k < |lines|
    ensures WaitsSince(lines, i, k + 1) <==>
      && Depth(lines, k + 1) <= Depth(lines, k) && OpenParens(lines, i, k + 1) > 0
      && if i == k then Opens(lines[k]) else WaitsSince(lines, i, k) && !Opens(lines[k])
  {}

  lemma PendingStep(lines: seq<SourceLine>, k: nat, t: Tracker)
    requires k < |lines| && Tracks(lines, k, t)
    ensures TracksWait(lines, k + 1, Step(t, lines[k]).pending, Step(t, lines[k]).parens)
  {
    assert t.depth == Depth(lines, k);
    hide Unwind, Opens, TracksStack;
    var line, after, next := lines[k], Step(t, lines[k]), k + 1;
    assert OpenParens(lines, k, k) == 0 && OpenParens(lines, k, next) == ParenDelta(line);
    if i :| 0 <= i <= next && WaitsSince(lines, i, next) {
      WaitStep(lines, i, k);
      assert Waits(lines, next);
    }
    forall i | 0 <= i <= next && WaitsSince(lines, i, next)
      ensures after.pending && after.parens == OpenParens(lines, i, next)
    {
      WaitStep(lines, i, k);
    }
    if after.pending {
      if Opens(line) {
        WaitStep(lines, k, k);
        assert WaitsSince(lines, k, next);
      } else {
        var i :| 0 <= i <= k && WaitsSince(lines, i, k);
        WaitStep(lines, i, k);
        assert WaitsSince(lines, i, next);
      }
    }
  }

  /** The closures open after line k are the one beginning on it and those open before it and still deeper. */
  lemma EntryStep(lines: seq<SourceLine>, k: nat, e: int)
    requires k < |lines|
    ensures LiveEntry(lines, k + 1, e) <==>
      && e < Depth(lines, k + 1)
      && (LiveEntry(lines, k, e) || (ClosureBegins(lines, k) && e == Depth(lines, k)))
  {
    hide Depth, ClosureBegins;
    var next := k + 1;
    if LiveEntry(lines, next, e) {
      var j :| 0 <= j <= next && Live(lines, j, next) && Depth(lines, j) == e;
      if j < k { assert Live(lines, j, k); }
    }
    if e < Depth(lines, next) {
      if LiveEntry(lines, k, e) {
        var j :| 0 <= j <= k && Live(lines, j, k) && Depth(lines, j) == e;
        assert Live(lines, j, next);
      }
      if ClosureBegins(lines, k) && e == Depth(lines, k) { assert Live(lines, k, next); }
    }
  }

  lemma PushKeepsRising(stack: seq<int>, depth: int)
    requires Rising(stack) && forall e | e in stack :: e < depth
    ensures Rising(stack + [depth])
  {
    forall i, j | 0 <= i < j <= |stack| ensures (stack + [depth])[i] < (stack + [depth])[j] {
      assert stack[i] in stack;
    }
  }

  /** The stack once a closure beginning on the line is pushed. */
  function Pushed(t: Tracker, line: SourceLine): seq<int> {
    if (Opens(line) || t.pending) && t.depth + BraceDelta(line) > t.depth then t.stack + [t.depth] else t.stack
  }

  lemma StepUnwinds(t: Tracker, line: SourceLine)
    ensures Step(t, line).depth == t.depth + BraceDelta(line)
    ensures Step(t, line).stack == Unwind(Pushed(t, line), t.depth + BraceDelta(line))
  {
    hide Opens, Unwind, BraceDelta, ParenDelta;
  }

  /** The stack with the closure begun on the line, if one is. */
  lemma PushedEntries(lines: seq<SourceLine>, k: nat, t: Tracker)
    requires k < |lines| && Tracks(lines, k, t)
    ensures Rising(Pushed(t, lines[k]))
    ensures forall e :: e in Pushed(t, lines[k]) <==>
              LiveEntry(lines, k, e) || (ClosureBegins(lines, k) && e == Depth(lines, k))
  {
    hide Opens, Waits, LiveEntry, BraceDelta, Rising;
    PushKeepsRising(t.stack, t.depth);
  }

  lemma StackStep(lines: seq<SourceLine>, k: nat, t: Tracker)
    requires k < |lines| && Tracks(lines, k, t)
    ensures TracksStack(lines, k + 1, Step(t, lines[k]).depth, Step(t, lines[k]).stack)
  {
    hide Opens, TracksWait, Unwind, LiveEntry, BraceDelta, Rising, Step, Pushed, ClosureBegins;
    var depth, pushed := Depth(lines, k + 1), Pushed(t, lines[k]);
    StepUnwinds(t, lines[k]);
    PushedEntries(lines, k, t);
    UnwindKeeps(pushed, depth);
    forall e ensures e in Unwind(pushed, depth) <==> LiveEntry(lines, k + 1, e) { EntryStep(lines, k, e); }
  }

  /** After every line the tracker's state is the declarative one. */
  lemma {:induction false} TrackerTracks(lines: seq<SourceLine>, k: nat)
    requires k <= |lines|
    ensures Tracks(lines, k, Run(lines, k))
  {
    hide Step;
    if k > 0 {
      TrackerTracks(lines, k - 1);
      PendingStep(lines, k - 1, Run(lines, k - 1));
      StackStep(lines, k - 1, Run(lines, k - 1));
    }
  }

  /** The tracker finds a line inside an install call exactly when it lies in an install region. */
  lemma InsideIsRegion(lines: seq<SourceLine>, k: nat)
    requires k < |lines|
    ensures InsideInstall(Run(lines, k), lines[k]) <==> InRegion(lines, k)
  {
    hide Run, Depth, Live, Waits;
    TrackerTracks(lines, k);
    var stack := Run(lines, k).stack;
    if stack != [] {
      var e := stack[0];
      assert e in stack && LiveEntry(lines, k, e);
      var j :| 0 <= j <= k && Live(lines, j, k) && Depth(lines, j) == e;
    }
    if InRegion(lines, k) && !Opens(lines[k]) && !Waits(lines, k) {
      var j :| 0 <= j <= k && Live(lines, j, k);
      assert LiveEntry(lines, k, Depth(lines, j));
      assert Depth(lines, j) in stack;
    }
  }

  // ---------- many files ----------

  function PathOf(file: seq<SourceLine>): string { if file == [] then "" else file[0].path }

  /** The lines of one file: at least one, all under its path. */
  ghost predicate IsFile(file: seq<SourceLine>) {
    file != [] && forall line | line in file :: line.path == PathOf(file)
  }

  ghost predicate AreFiles(files: seq<seq<SourceLine>>) {
    && (forall file | file in files :: IsFile(file))
    && (forall i, j | 0 <= i < j < |files| :: PathOf(files[i]) != PathOf(files[j]))
  }

  function Lines(files: seq<seq<SourceLine>>): seq<SourceLine> {
    if files == [] then [] else files[0] + Lines(files[1..])
  }

  /** A file's own flags, from line k on. */
  function FileFlags(file: seq<SourceLine>, k: nat): seq<string>
    requires k <= |file|
    decreases |file| - k
  {
    if k == |file| then [] else Flag(Run(file, k), file[k]) + FileFlags(file, k + 1)
  }

  lemma {:induction false} FlagsOfFile(file: seq<SourceLine>, k: nat, rest: seq<SourceLine>, path: string, t: Tracker)
    requires IsFile(file) && k <= |file|
    requires if k == 0 then path != PathOf(file) || t == FRESH else path == PathOf(file) && t == Run(file, k)
    ensures Flags(file[k..] + rest, path, t) == FileFlags(file, k) + Flags(rest, PathOf(file), Run(file, |file|))
    decreases |file| - k
  {
    hide Step, Flag;
    var sources := file[k..] + rest;
    if k == |file| {
      assert sources == rest;
    } else {
      assert file[k] in file && Run(file, 0) == FRESH;
      NextFlag(sources, 0, path, t);
      assert sources[0..] == sources && sources[1..] == file[k + 1..] + rest;
      FlagsOfFile(file, k + 1, rest, PathOf(file), Run(file, k + 1));
    }
  }

  /** A violation of one line of one of the files. */
  ghost predicate Broken(file: seq<SourceLine>, k: nat, message: string) {
    k < |file| && !InRegion(file, k) && Suspect(file[k]).Some? && message == Message(file[k], Suspect(file[k]).value)
  }

  ghost predicate BrokenFrom(file: seq<SourceLine>, k: nat, message: string) {
    exists m: nat :: k <= m && Broken(file, m, message)
  }

  lemma {:induction false} FileFlagsAre(file: seq<SourceLine>, k: nat, message: string)
    requires k <= |file|
    ensures message in FileFlags(file, k) <==> BrokenFrom(file, k, message)
    decreases |file| - k
  {
    hide Run, InRegion, InsideInstall, Message, Suspect;
    if k < |file| {
      FileFlagsAre(file, k + 1, message);
      InsideIsRegion(file, k);
      assert message in Flag(Run(file, k), file[k]) <==> Broken(file, k, message);
      if BrokenFrom(file, k + 1, message) {
        var m: nat :| k + 1 <= m && Broken(file, m, message);
        assert k <= m;
      }
      if BrokenFrom(file, k, message) {
        var m: nat :| k <= m && Broken(file, m, message);
        assert m == k || BrokenFrom(file, k + 1, message);
      }
    }
  }

  ghost predicate BrokenIn(files: seq<seq<SourceLine>>, message: string) {
    exists file :: file in files && BrokenFrom(file, 0, message)
  }

  lemma BrokenFirst(files: seq<seq<SourceLine>>, message: string)
    requires files != []
    ensures BrokenIn(files, message) <==> BrokenFrom(files[0], 0, message) || BrokenIn(files[1..], message)
  {
    hide BrokenFrom;
    assert files == [files[0]] + files[1..];
  }

  lemma NoFlags(path: string, t: Tracker)
    ensures Flags([], path, t) == []
  {}

  lemma {:induction false} FlagsOfFiles(files: seq<seq<SourceLine>>, path: string, t: Tracker, message: string)
    requires AreFiles(files)
    requires t == FRESH || forall i | 0 <= i < |files| :: PathOf(files[i]) != path
    ensures message in Flags(Lines(files), path, t) <==> BrokenIn(files, message)
  {
    hide Step, Flag, BrokenFrom, Flags, FileFlags, Run, PathOf;
    if files == [] {
      NoFlags(path, t);
    } else {
      var file, rest := files[0], files[1..];
      assert file in files && forall f | f in rest :: f in files;
      FlagsOfFile(file, 0, Lines(rest), path, t);
      assert file[0..] == file;
      FileFlagsAre(file, 0, message);
      FlagsOfFiles(rest, PathOf(file), Run(file, |file|), message);
      BrokenFirst(files, message);
    }
  }

  /** The rule reports exactly the suspect lines outside install regions, sorted and each once. */
  lemma ViolationsAreOutside(files: seq<seq<SourceLine>>)
    requires AreFiles(files)
    ensures SortedBy(LexLeq, Violations(Lines(files))) && NoRepeats(Violations(Lines(files)))
    ensures forall message :: message in Violations(Lines(files)) <==> BrokenIn(files, message)
  {
    hide Flags, BrokenIn;
    LexIsTotalOrder();
    SortDedupIsCanonical(LexLeq, Flags(Lines(files), "", FRESH));
    forall message { FlagsOfFiles(files, "", FRESH, message); }
  }

  /** The report does not depend on the order of the files. */
  lemma FileOrderIsIrrelevant(files: seq<seq<SourceLine>>, others: seq<seq<SourceLine>>)
    requires AreFiles(files) && AreFiles(others) && multiset(files) == multiset(others)
    ensures Violations(Lines(files)) == Violations(Lines(others))
  {
    hide Violations, BrokenFrom;
    LexIsTotalOrder();
    ViolationsAreOutside(files);
    ViolationsAreOutside(others);
    forall file ensures file in files <==> file in others { SameElements(files, others, file); }
    forall message ensures BrokenIn(files, message) <==> BrokenIn(others, message) {}
    SortedSetIsUnique(LexLeq, Violations(Lines(files)), Violations(Lines(others)));
  }

  // ---------- what is counted and what is reported ----------

  /** The text from line i up to line k. */
  function TextOf(lines: seq<SourceLine>, i: nat, k: nat): string
    requires i <= k <= |lines|
  {
    if i == k then "" else TextOf(lines, i, k - 1) + lines[k - 1].text
  }

  /** The depth is how many braces of the text before are open, and a call's parentheses how many of those
      since it are. */
  lemma {:induction false} DepthIsBalance(lines: seq<SourceLine>, i: nat, k: nat)
    requires i <= k <= |lines|
    ensures Depth(lines, k) - Depth(lines, i) == Count(TextOf(lines, i, k), '{') - Count(TextOf(lines, i, k), '}')
    ensures OpenParens(lines, i, k) == Count(TextOf(lines, i, k), '(') - Count(TextOf(lines, i, k), ')')
    decreases k - i
  {
    if i < k {
      DepthIsBalance(lines, i, k - 1);
      var before, last := TextOf(lines, i, k - 1), lines[k - 1].text;
      CountJoins(before, last, '{');
      CountJoins(before, last, '}');
      CountJoins(before, last, '(');
      CountJoins(before, last, ')');
    }
  }

  /** A line with an install call holds a method call of that name. */
  lemma OpensExactly(line: SourceLine)
    ensures Opens(line) <==> exists front, back :: line.text == front + ".install(" + back
  {
    var call := ".install(";
    if i :| 0 <= i <= |line.text| && OccursAt(line.text, call, i) {
      assert line.text == line.text[..i] + call + line.text[i + |call|..];
    }
    if front, back :| line.text == front + call + back {
      assert line.text[|front|..|front| + |call|] == call;
      assert OccursAt(line.text, call, |front|);
    }
  }

  /** While the text since a line with an install call keeps more braces open than it closes, the following
      lines lie inside the call's closure. */
  lemma ClosureHoldsLines(lines: seq<SourceLine>, j: nat, k: nat)
    requires j < k < |lines| && Opens(lines[j])
    requires forall m | j < m <= k :: Count(TextOf(lines, j, m), '{') > Count(TextOf(lines, j, m), '}')
    ensures InRegion(lines, k)
  {
    hide Opens;
    forall m | j < m <= k ensures Depth(lines, m) > Depth(lines, j) { DepthIsBalance(lines, j, m); }
    assert Live(lines, j, k);
  }

  /** A line is suspect exactly when it is no test's, lies outside the pool's own crate, and holds a token. */
  lemma SuspectExactly(line: SourceLine)
    ensures Suspect(line).Some? <==>
      && !line.inTest && !(PARALLEL_CRATE_PREFIX <= line.path)
      && exists i, j | 0 <= i < |TOKENS| && 0 <= j <= |line.text| :: OccursAt(line.text, TOKENS[i], j)
    ensures Suspect(line).Some? ==> exists i | 0 <= i < |TOKENS| ::
              && Suspect(line).value == TOKENS[i] && Contains(line.text, TOKENS[i])
              && forall k | 0 <= k < i :: !Contains(line.text, TOKENS[k])
  {
    hide TOKENS, Contains;
    FirstTokenIs(line.text, 0);
    forall i, j | 0 <= i < |TOKENS| && 0 <= j <= |line.text| && OccursAt(line.text, TOKENS[i], j)
      ensures Contains(line.text, TOKENS[i])
    {
      Occurs(line.text, TOKENS[i], j);
    }
    forall i | 0 <= i < |TOKENS| && Contains(line.text, TOKENS[i])
      ensures exists j | 0 <= j <= |line.text| :: OccursAt(line.text, TOKENS[i], j)
    {
      OccursSomewhere(line.text, TOKENS[i]);
    }
  }

  lemma Occurs(text: string, part: string, j: nat)
    requires j <= |text| && OccursAt(text, part, j)
    ensures Contains(text, part)
  {}

  lemma OccursSomewhere(text: string, part: string)
    requires Contains(text, part)
    ensures exists j | 0 <= j <= |text| :: OccursAt(text, part, j)
  {}

  lemma {:induction false} FirstTokenIs(text: string, from: nat)
    requires from <= |TOKENS|
    ensures FirstToken(text, from).None? <==> forall i | from <= i < |TOKENS| :: !Contains(text, TOKENS[i])
    ensures FirstToken(text, from).Some? ==> exists i | from <= i < |TOKENS| ::
              && FirstToken(text, from).value == TOKENS[i] && Contains(text, TOKENS[i])
              && forall k | from <= k < i :: !Contains(text, TOKENS[k])
    decreases |TOKENS| - from
  {
    hide TOKENS, Contains;
    if from < |TOKENS| && !Contains(text, TOKENS[from]) { FirstTokenIs(text, from + 1); }
  }

  /** A message tells the path, the line number and the token. */
  lemma MessagesTell(a: SourceLine, s: string, b: SourceLine, t: string)
    requires ':' !in a.path && ':' !in b.path && '`' !in s && '`' !in t
    requires Message(a, s) == Message(b, t)
    ensures a.path == b.path && a.lineNo == b.lineNo && s == t
  {
    hide NatText;
    var x, y := MessageTail(a.lineNo, s), MessageTail(b.lineNo, t);
    MessageCut(a, s);
    MessageCut(b, t);
    CutIsUnique(a.path, x, b.path, y, ':');
    NumeralHasNo(a.lineNo, ':');
    NumeralHasNo(b.lineNo, ':');
    TailCut(a.lineNo, s);
    TailCut(b.lineNo, t);
    CutIsUnique(NatText(a.lineNo), TokenTail(s), NatText(b.lineNo), TokenTail(t), ':');
    NatRoundTrip(a.lineNo);
    NatRoundTrip(b.lineNo);
    TokenCut(s, t);
  }

  function TokenTail(token: string): string { BEFORE_TOKEN + (token + (['`'] + AFTER_TOKEN)) }

  function MessageTail(lineNo: nat, token: string): string { NatText(lineNo) + ([':'] + TokenTail(token)) }

  lemma MessageCut(line: SourceLine, token: string)
    ensures Message(line, token) == line.path + [':'] + MessageTail(line.lineNo, token)
  {
    hide NatText, BEFORE_TOKEN, AFTER_TOKEN;
    var n := NatText(line.lineNo);
    assert n + ":" + BEFORE_TOKEN + token + "`" + AFTER_TOKEN
        == n + ([':'] + (BEFORE_TOKEN + (token + (['`'] + AFTER_TOKEN))));
    assert line.path + ":" + n + ":" + BEFORE_TOKEN + token + "`" + AFTER_TOKEN
        == line.path + [':'] + (n + ":" + BEFORE_TOKEN + token + "`" + AFTER_TOKEN);
  }

  lemma TailCut(lineNo: nat, token: string)
    ensures MessageTail(lineNo, token) == NatText(lineNo) + [':'] + TokenTail(token)
  {
    hide NatText, TokenTail;
  }

  lemma TokenCut(s: string, t: string)
    requires '`' !in s && '`' !in t && TokenTail(s) == TokenTail(t)
    ensures s == t
  {
    hide BEFORE_TOKEN, AFTER_TOKEN;
    var x, y := s + (['`'] + AFTER_TOKEN), t + (['`'] + AFTER_TOKEN);
    assert x == (BEFORE_TOKEN + x)[|BEFORE_TOKEN|..] && y == (BEFORE_TOKEN + y)[|BEFORE_TOKEN|..];
    assert x == s + ['`'] + AFTER_TOKEN && y == t + ['`'] + AFTER_TOKEN;
    CutIsUnique(s, AFTER_TOKEN, t, AFTER_TOKEN, '`');
  }
}
