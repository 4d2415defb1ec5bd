/**
 The comment scanner of the comment-density and banned-phrase gates (xtask/src/comment_density.rs).
 The scanner works line by line, carrying string and block-comment state; it is proved to emit the
 spans of one automaton that reads the whole text from left to right.
 */
module CommentScan {
  import opened Wrappers
  import opened Text

  datatype Kind = Spdx | Doc | Implementation | TrailingImplementation
  datatype StringState = NoString | Normal | Raw(hashes: nat)
  type Depth = n: nat | n >= 1 witness 1
  datatype BlockState = BlockState(kind: Kind, depth: Depth)

  /** A stretch of comment text on one trimmed line; lines are numbered from 1. */
  datatype Span = Span(kind: Kind, lineNo: nat, start: nat, end: nat)

  /** The lines of a text: a final line break opens no further line. */
  function Lines(text: string): seq<string> {
    var pieces := Split(text, '\n');
    if pieces[|pieces| - 1] == "" then pieces[..|pieces| - 1] else pieces
  }

  function TrimmedLines(text: string): (r: seq<string>)
    ensures |r| == |Lines(text)|
  {
    seq(|Lines(text)|, i requires 0 <= i < |Lines(text)| => Trim(Lines(text)[i]))
  }

  // ---------- look-ahead within a line ----------

  predicate At(line: string, i: nat, c: char) { i < |line| && line[i] == c }

  predicate Pair(line: string, i: nat, a: char, b: char) { At(line, i, a) && At(line, i + 1, b) }

  predicate IsHex(c: char) { IsDigit(c) || 'a' <= c <= 'f' || 'A' <= c <= 'F' }

  function HashRun(line: string, from: nat): (r: nat)
    requires from <= |line|
    ensures from + r <= |line|
    ensures forall k | from <= k < from + r :: line[k] == '#'
    ensures !At(line, from + r, '#')
    decreases |line| - from
  {
    if At(line, from, '#') then 1 + HashRun(line, from + 1) else 0
  }

  /** Where the opening quote of a raw string that starts here is, and how many hashes it has. */
  function RawStringStart(line: string, start: nat): Option<(nat, nat)>
    requires start < |line|
  {
    if start > 0 && IsIdentByte(line[start - 1]) then None
    else
      var body := RawBody(line, start);
      if body == 0 then None
      else
        var hashes := HashRun(line, body);
        if At(line, body + hashes, '"') then Some((body + hashes, hashes)) else None
  }

  /** Where the hashes of a raw string would begin; 0 without its prefix. */
  function RawBody(line: string, start: nat): (body: nat)
    requires start < |line|
    ensures body <= |line|
  {
    if line[start] == 'r' then start + 1
    else if (line[start] == 'b' || line[start] == 'c') && At(line, start + 1, 'r') then start + 2
    else 0
  }

  predicate RawStringCloses(line: string, quote: nat, hashes: nat) {
    quote + 1 + hashes <= |line| && forall k | quote < k < quote + 1 + hashes :: line[k] == '#'
  }

  function FindChar(line: string, from: nat, c: char): (r: Option<nat>)
    requires from <= |line|
    ensures r.Some? ==> from <= r.value < |line| && line[r.value] == c && c !in line[from..r.value]
    ensures r.None? ==> c !in line[from..]
    decreases |line| - from
  {
    if from == |line| then None
    else if line[from] == c then Some(from)
    else
      assert line[from..] == [line[from]] + line[from + 1..];
      var r := FindChar(line, from + 1, c);
      assert r.Some? ==> line[from..r.value] == [line[from]] + line[from + 1..r.value];
      r
  }

  /** The closing quote of a character literal that opens here. */
  function CharLiteralEnd(line: string, start: nat): Option<nat>
    requires start < |line|
  {
    if start + 1 == |line| || line[start + 1] == '\'' then None
    else
      var contentEnd :=
        if line[start + 1] != '\\' then Some(start + 2)
        else if start + 2 == |line| then None
        else if line[start + 2] == 'x' then
          if start + 4 < |line| && IsHex(line[start + 3]) && IsHex(line[start + 4]) then Some(start + 5) else None
        else if line[start + 2] == 'u' then
          if !At(line, start + 3, '{') then None
          else
            var close := FindChar(line, start + 4, '}');
            if close.None? then None else Some(close.value + 1)
        else Some(start + 3);
      if contentEnd.Some? && At(line, contentEnd.value, '\'') then contentEnd else None
  }

  function SpanKind(line: string, at: nat, leading: bool): Kind
    requires at <= |line|
  {
    if !(leading && at == 0) then TrailingImplementation
    else if StartsWith(line[at..], "// SPDX-") then Spdx
    else if StartsWith(line[at..], "///") || StartsWith(line[at..], "//!")
         || StartsWith(line[at..], "/**") || StartsWith(line[at..], "/*!") then Doc
    else Implementation
  }

  // ---------- the automaton ----------

  /** What the automaton is inside of; comments remember where they start on the current line. */
  datatype Mode =
    | Code
    | InString(escaped: bool)
    | InRaw(hashes: nat)
    | InLine(kind: Kind, start: nat)
    | InBlock(kind: Kind, depth: Depth, start: nat)

  function OpenSpan(mode: Mode, lineNo: nat, length: nat): seq<Span> {
    match mode
    case InLine(kind, start) => [Span(kind, lineNo, start, length)]
    case InBlock(kind, _, start) => if start < length then [Span(kind, lineNo, start, length)] else []
    case _ => []
  }

  /** Crossing a line break: line comments end, everything else stays open. */
  function NextLine(mode: Mode): Mode {
    match mode
    case InLine(_, _) => Code
    case InBlock(kind, depth, _) => InBlock(kind, depth, 0)
    case InString(_) => InString(false)
    case _ => mode
  }

  /** A step from code: where it lands, in which mode, and whether the line still leads. */
  function CodeStep(line: string, col: nat, leading: bool): (r: (nat, Mode, bool))
    requires col < |line|
    ensures col < r.0 <= |line|
  {
    var raw := RawStringStart(line, col);
    var literal := CharLiteralEnd(line, col);
    if Pair(line, col, '/', '/') then (col + 1, InLine(SpanKind(line, col, leading), col), false)
    else if Pair(line, col, '/', '*') then (col + 2, InBlock(SpanKind(line, col, leading), 1, col), false)
    else if raw.Some? then (raw.value.0 + 1, InRaw(raw.value.1), leading)
    else if line[col] == '"' then (col + 1, InString(false), leading)
    else if line[col] == '\'' && literal.Some? then (literal.value + 1, Code, leading)
    else (col + 1, Code, leading)
  }

  function LiteralStep(line: string, col: nat, mode: Mode): Mode
    requires col < |line| && (mode.InString? || mode.InRaw?)
  {
    match mode
    case InString(escaped) =>
      if escaped then InString(false) else if line[col] == '\\' then InString(true)
      else if line[col] == '"' then Code else mode
    case InRaw(hashes) => if line[col] == '"' && RawStringCloses(line, col, hashes) then Code else mode
  }

  /** A step inside a block comment: how far it goes and the depth it leaves. */
  function BlockStep(line: string, col: nat, depth: Depth): (nat, nat)
    requires col < |line|
  {
    if Pair(line, col, '/', '*') then (2, depth + 1)
    else if Pair(line, col, '*', '/') then (2, depth - 1)
    else (1, depth)
  }

  /**
   The automaton on one line from a position on: the spans it emits and the mode it takes into the
   next line. `leading` is false once a comment was seen on the line.
   */
  function Walk(line: string, row: nat, col: nat, mode: Mode, leading: bool): (seq<Span>, Mode)
    requires col <= |line|
    decreases |line| - col
  {
    if col == |line| then
      (OpenSpan(mode, row + 1, |line|), NextLine(mode))
    else
      match mode
      case Code =>
        var (next, mode', leading') := CodeStep(line, col, leading);
        Walk(line, row, next, mode', leading')
      case InString(_) => Walk(line, row, col + 1, LiteralStep(line, col, mode), leading)
      case InRaw(_) => Walk(line, row, col + 1, LiteralStep(line, col, mode), leading)
      case InLine(_, _) => Walk(line, row, col + 1, mode, leading)
      case InBlock(kind, depth, start) =>
        var (width, depth') := BlockStep(line, col, depth);
        if depth' == 0 then Emit(Span(kind, row + 1, start, col + width), Walk(line, row, col + width, Code, false))
        else Walk(line, row, col + width, InBlock(kind, depth', start), leading)
  }

  function Emit(span: Span, rest: (seq<Span>, Mode)): (seq<Span>, Mode) { ([span] + rest.0, rest.1) }

  /** The automaton over the first `row` lines of a text. */
  function Automaton(lines: seq<string>, row: nat): (seq<Span>, Mode)
    requires row <= |lines|
  {
    if row == 0 then ([], Code)
    else
      var (spans, mode) := Automaton(lines, row - 1);
      var (more, next) := Walk(lines[row - 1], row - 1, 0, mode, true);
      (spans + more, next)
  }

  // ---------- the scanner ----------

  /** Scans a comment body for nested openers and closers; depth 0 once the outermost closes. */
  method ConsumeBlock(tail: string, entry: nat) returns (consumed: nat, depth: nat)
    requires entry >= 1
    ensures (consumed, depth) == BlockEnd(tail, 0, entry)
  {
    var i := 0;
    depth := entry;
    while i + 1 < |tail|
      invariant i <= |tail| && depth >= 1
      invariant BlockEnd(tail, i, depth) == BlockEnd(tail, 0, entry)
    {
      if tail[i] == '/' && tail[i + 1] == '*' {
        depth, i := depth + 1, i + 2;
      } else if tail[i] == '*' && tail[i + 1] == '/' {
        depth, i := depth - 1, i + 2;
        if depth == 0 { return i, 0; }
      } else {
        i := i + 1;
      }
    }
    return |tail|, depth;
  }

  function BlockEnd(line: string, i: nat, depth: nat): (r: (nat, nat))
    requires i <= |line| && depth >= 1
    ensures i <= r.0 <= |line|
    ensures r.1 > 0 ==> r.0 == |line|
    ensures r.1 == 0 ==> i + 2 <= r.0 && Pair(line, r.0 - 2, '*', '/')
    decreases |line| - i
  {
    if |line| <= i + 1 then (|line|, depth)
    else if line[i] == '/' && line[i + 1] == '*' then BlockEnd(line, i + 2, depth + 1)
    else if line[i] == '*' && line[i + 1] == '/' then
      if depth == 1 then (i + 2, 0) else BlockEnd(line, i + 2, depth - 1)
    else BlockEnd(line, i + 1, depth)
  }

  lemma BlockEndStep(line: string, i: nat, depth: Depth)
    requires i <= |line|
    ensures i + 1 >= |line| ==> BlockEnd(line, i, depth) == (|line|, depth)
    ensures i + 1 < |line| ==> var (width, depth') := BlockStep(line, i, depth);
              BlockEnd(line, i, depth) == if depth' == 0 then (i + width, 0) else BlockEnd(line, i + width, depth')
  {}

  lemma {:induction false} BlockEndOfTail(line: string, tail: string, from: nat, i: nat, depth: nat)
    requires from <= |line| && tail == line[from..] && i <= |tail| && depth >= 1
    ensures BlockEnd(tail, i, depth)
         == (BlockEnd(line, from + i, depth).0 - from, BlockEnd(line, from + i, depth).1)
    decreases |line| - i
  {
    hide BlockEnd;
    BlockEndStep(tail, i, depth);
    BlockEndStep(line, from + i, depth);
    if i + 1 < |tail| {
      assert tail[i] == line[from + i] && tail[i + 1] == line[from + i + 1];
      var (width, depth') := BlockStep(tail, i, depth);
      if depth' > 0 { BlockEndOfTail(line, tail, from, i + width, depth'); }
    }
  }

  function StringMode(state: StringState, escaped: bool): Mode {
    match state
    case NoString => Code
    case Normal => InString(escaped)
    case Raw(hashes) => InRaw(hashes)
  }

  lemma WalkEnds(line: string, row: nat, mode: Mode, leading: bool)
    ensures Walk(line, row, |line|, mode, leading) == (OpenSpan(mode, row + 1, |line|), NextLine(mode))
  {}

  lemma WalkSteps(line: string, row: nat, col: nat, mode: Mode, leading: bool)
    requires col < |line|
    ensures mode == Code ==> var (next, mode', leading') := CodeStep(line, col, leading);
              Walk(line, row, col, mode, leading) == Walk(line, row, next, mode', leading')
    ensures mode.InString? || mode.InRaw? ==>
      Walk(line, row, col, mode, leading) == Walk(line, row, col + 1, LiteralStep(line, col, mode), leading)
    ensures mode.InLine? ==> Walk(line, row, col, mode, leading) == Walk(line, row, col + 1, mode, leading)
  {}

  lemma WalkStepsInBlock(line: string, row: nat, col: nat, kind: Kind, depth: Depth, start: nat, leading: bool)
    requires col < |line|
    ensures var (width, depth') := BlockStep(line, col, depth);
      Walk(line, row, col, InBlock(kind, depth, start), leading)
      == if depth' == 0 then Emit(Span(kind, row + 1, start, col + width), Walk(line, row, col + width, Code, false))
         else Walk(line, row, col + width, InBlock(kind, depth', start), leading)
  {}

  /** The first comment opener outside literals, with the string state where the search stopped. */
  method FirstComment(line: string, ghost row: nat, start: nat, entry: StringState, ghost leading: bool)
    returns (found: Option<(nat, bool)>, state: StringState)
    requires start <= |line|
    ensures found.None? ==> Walk(line, row, start, StringMode(entry, false), leading) == ([], StringMode(state, false))
    ensures found.Some? ==> state == NoString && start <= found.value.0
    ensures found.Some? ==> Pair(line, found.value.0, '/', if found.value.1 then '*' else '/')
    ensures found.Some? ==>
      Walk(line, row, start, StringMode(entry, false), leading) == Walk(line, row, found.value.0, Code, leading)
  {
    hide Walk, RawStringStart, CharLiteralEnd, RawStringCloses, SpanKind;
    state := entry;
    var escaped := false;
    var i := start;
    while i < |line|
      invariant start <= i <= |line|
      invariant escaped ==> state == Normal
      invariant Walk(line, row, start, StringMode(entry, false), leading)
             == Walk(line, row, i, StringMode(state, escaped), leading)
      decreases |line| - i
    {
      WalkSteps(line, row, i, StringMode(state, escaped), leading);
      var c := line[i];
      match state
      case NoString =>
        if Pair(line, i, '/', '/') { return Some((i, false)), state; }
        if Pair(line, i, '/', '*') { return Some((i, true)), state; }
        var raw := RawStringStart(line, i);
        var literal := CharLiteralEnd(line, i);
        if raw.Some? {
          state := Raw(raw.value.1);
          i := raw.value.0 + 1;
        } else if c == '"' {
          state := Normal;
          i := i + 1;
        } else if c == '\'' && literal.Some? {
          i := literal.value + 1;
        } else {
          i := i + 1;
        }
      case Normal =>
        if escaped {
          escaped := false;
        } else if c == '\\' {
          escaped := true;
        } else if c == '"' {
          state := NoString;
        }
        i := i + 1;
      case Raw(hashes) =>
        if c == '"' && RawStringCloses(line, i, hashes) { state := NoString; }
        i := i + 1;
    }
    WalkEnds(line, row, StringMode(state, escaped), leading);
    return None, state;
  }

  function StartMode(state: StringState, block: Option<BlockState>): Mode {
    if block.Some? then InBlock(block.value.kind, block.value.depth, 0) else StringMode(state, false)
  }

  /** A string and a block comment are never open together. */
  predicate Carried(state: StringState, block: Option<BlockState>) {
    block.Some? ==> state == NoString
  }

  lemma {:induction false} LineCommentWalk(line: string, row: nat, col: nat, kind: Kind, start: nat, leading: bool)
    requires col <= |line|
    ensures Walk(line, row, col, InLine(kind, start), leading) == ([Span(kind, row + 1, start, |line|)], Code)
    decreases |line| - col
  {
    if col < |line| { LineCommentWalk(line, row, col + 1, kind, start, leading); }
  }

  lemma EmitLast(span: Span, mode: Mode)
    ensures Emit(span, ([], mode)) == ([span], mode)
  {
    assert [span] + [] == [span];
  }

  lemma {:induction false} BlockCommentWalk(line: string, row: nat, col: nat, kind: Kind, depth: nat, start: nat,
                                            leading: bool)
    requires col <= |line| && depth >= 1 && start < |line|
    ensures Walk(line, row, col, InBlock(kind, depth, start), leading)
         == Emit(Span(kind, row + 1, start, BlockEnd(line, col, depth).0),
                 if BlockEnd(line, col, depth).1 == 0 then Walk(line, row, BlockEnd(line, col, depth).0, Code, false)
                 else ([], InBlock(kind, BlockEnd(line, col, depth).1, 0)))
    decreases |line| - col
  {
    hide Walk, BlockEnd;
    BlockEndStep(line, col, depth);
    if col < |line| {
      WalkStepsInBlock(line, row, col, kind, depth, start, leading);
      var (width, depth') := BlockStep(line, col, depth);
      if depth' > 0 {
        BlockCommentWalk(line, row, col + width, kind, depth', start, leading);
        BlockEndStep(line, col + width, depth');
      }
    } else {
      WalkEnds(line, row, InBlock(kind, depth, start), leading);
      EmitLast(Span(kind, row + 1, start, |line|), InBlock(kind, depth, 0));
    }
  }

  /** The line begins and ends inside one block comment. */
  predicate StaysInBlock(line: string, mode: Mode) {
    mode.InBlock? && BlockEnd(line, 0, mode.depth).1 > 0
  }

  /**
   What the scanner makes of one line: the automaton's spans and mode, except that a line which
   stays inside its block comment leaves the carried depth as it was.
   */
  function Scan(line: string, row: nat, mode: Mode): (seq<Span>, Mode) {
    var (spans, next) := Walk(line, row, 0, mode, true);
    (spans, if StaysInBlock(line, mode) then mode else next)
  }

  function Scanner(lines: seq<string>, row: nat): (seq<Span>, Mode)
    requires row <= |lines|
  {
    if row == 0 then ([], Code)
    else
      var (spans, mode) := Scanner(lines, row - 1);
      var (more, next) := Scan(lines[row - 1], row - 1, mode);
      (spans + more, next)
  }

  /** A walk's spans behind those already emitted. */
  function After(spans: seq<Span>, walk: (seq<Span>, Mode)): (seq<Span>, Mode) { (spans + walk.0, walk.1) }

  lemma AfterIs(spans: seq<Span>, walk: (seq<Span>, Mode))
    ensures After(spans, walk).0 == spans + walk.0 && After(spans, walk).1 == walk.1
  {}

  lemma PairInside(line: string, i: nat, a: char, b: char)
    requires Pair(line, i, a, b)
    ensures i + 2 <= |line|
  {}

  lemma AfterNothing(spans: seq<Span>, mode: Mode)
    ensures After(spans, ([], mode)) == (spans, mode)
  {
    assert spans + [] == spans;
  }

  lemma AfterEmit(spans: seq<Span>, span: Span, rest: (seq<Span>, Mode))
    ensures After(spans, Emit(span, rest)) == After(spans + [span], rest)
  {
    assert spans + ([span] + rest.0) == spans + [span] + rest.0;
  }

  lemma LineCommentOpens(line: string, row: nat, at: nat, leading: bool)
    requires Pair(line, at, '/', '/')
    ensures Walk(line, row, at, Code, leading) == ([Span(SpanKind(line, at, leading), row + 1, at, |line|)], Code)
  {
    LineCommentWalk(line, row, at + 1, SpanKind(line, at, leading), at, false);
  }

  lemma BlockCommentOpens(line: string, row: nat, at: nat, leading: bool)
    requires Pair(line, at, '/', '*')
    ensures Walk(line, row, at, Code, leading)
         == Emit(Span(SpanKind(line, at, leading), row + 1, at, BlockEnd(line, at + 2, 1).0),
                 if BlockEnd(line, at + 2, 1).1 == 0 then Walk(line, row, BlockEnd(line, at + 2, 1).0, Code, false)
                 else ([], InBlock(SpanKind(line, at, leading), BlockEnd(line, at + 2, 1).1, 0)))
  {
    BlockCommentWalk(line, row, at + 2, SpanKind(line, at, leading), 1, at, false);
  }

  lemma LineCommentAfter(spans: seq<Span>, line: string, row: nat, at: nat, leading: bool)
    requires Pair(line, at, '/', '/')
    ensures After(spans, Walk(line, row, at, Code, leading))
         == (spans + [Span(SpanKind(line, at, leading), row + 1, at, |line|)], Code)
  {
    hide Walk, SpanKind, After;
    var span := Span(SpanKind(line, at, leading), row + 1, at, |line|);
    LineCommentOpens(line, row, at, leading);
    EmitLast(span, Code);
    AfterEmit(spans, span, ([], Code));
    AfterNothing(spans + [span], Code);
  }

  lemma BlockCommentAfter(spans: seq<Span>, line: string, row: nat, at: nat, leading: bool)
    requires Pair(line, at, '/', '*')
    ensures var (consumed, depth) := BlockEnd(line[at + 2..], 0, 1);
      var emitted := spans + [Span(SpanKind(line, at, leading), row + 1, at, at + 2 + consumed)];
      After(spans, Walk(line, row, at, Code, leading))
      == if depth > 0 then (emitted, InBlock(SpanKind(line, at, leading), depth, 0))
         else After(emitted, Walk(line, row, at + 2 + consumed, Code, false))
  {
    hide Walk, SpanKind, BlockEnd, After, Emit;
    var (consumed, depth) := BlockEnd(line[at + 2..], 0, 1);
    var end, kind := at + 2 + consumed, SpanKind(line, at, leading);
    BlockEndOfTail(line, line[at + 2..], at + 2, 0, 1);
    BlockCommentOpens(line, row, at, leading);
    AfterEmit(spans, Span(kind, row + 1, at, end),
              if depth > 0 then ([], InBlock(kind, depth, 0)) else Walk(line, row, end, Code, false));
    if depth > 0 { AfterNothing(spans + [Span(kind, row + 1, at, end)], InBlock(kind, depth, 0)); }
  }

  /** The rest of a line that is not inside a block comment, appending its spans. */
  method ScanFrom(line: string, row: nat, from: nat, state: StringState, first: bool, spans: seq<Span>)
    returns (state': StringState, block': Option<BlockState>, spans': seq<Span>)
    requires from <= |line|
    ensures Carried(state', block')
    ensures spans' == spans + Walk(line, row, from, StringMode(state, false), first).0
    ensures StartMode(state', block') == Walk(line, row, from, StringMode(state, false), first).1
  {
    hide Walk, BlockEnd, SpanKind, After, Pair;
    var cursor, leading := from, first;
    state', block', spans' := state, None, spans;
    ghost var whole := After(spans, Walk(line, row, from, StringMode(state, false), first));
    AfterIs(spans, Walk(line, row, from, StringMode(state, false), first));
    while true
      invariant from <= cursor <= |line| && block' == None
      invariant After(spans', Walk(line, row, cursor, StringMode(state', false), leading)) == whole
      decreases |line| - cursor
    {
      var found;
      found, state' := FirstComment(line, row, cursor, state', leading);
      if found.None? {
        AfterNothing(spans', StringMode(state', false));
        return;
      }
      var (at, isBlock) := found.value;
      PairInside(line, at, '/', if isBlock then '*' else '/');
      var kind := SpanKind(line, at, leading);
      if !isBlock {
        LineCommentAfter(spans', line, row, at, leading);
        spans' := spans' + [Span(kind, row + 1, at, |line|)];
        return;
      }
      BlockCommentAfter(spans', line, row, at, leading);
      var consumed, depth := ConsumeBlock(line[at + 2..], 1);
      var end := at + 2 + consumed;
      spans' := spans' + [Span(kind, row + 1, at, end)];
      if depth > 0 {
        block' := Some(BlockState(kind, depth));
        return;
      }
      cursor, leading := end, false;
    }
  }

  /** One trimmed line as written, appending its spans. */
  method ScanLine(line: string, row: nat, state: StringState, block: Option<BlockState>, spans: seq<Span>)
    returns (state': StringState, block': Option<BlockState>, spans': seq<Span>)
    requires line != "" && Carried(state, block)
    ensures Carried(state', block')
    ensures spans' == spans + Scan(line, row, StartMode(state, block)).0
    ensures StartMode(state', block') == Scan(line, row, StartMode(state, block)).1
  {
    hide Walk, BlockEnd;
    state', block', spans' := state, block, spans;
    var cursor, leading := 0, true;
    if block.Some? {
      var end, depth := ConsumeBlock(line, block.value.depth);
      BlockCommentWalk(line, row, 0, block.value.kind, block.value.depth, 0, true);
      spans' := spans' + [Span(block.value.kind, row + 1, 0, end)];
      if depth > 0 { return; }
      cursor, leading := end, false;
    }
    state', block', spans' := ScanFrom(line, row, cursor, state', leading, spans');
  }

  lemma BlankLine(row: nat, state: StringState, block: Option<BlockState>)
    requires Carried(state, block)
    ensures Scan("", row, StartMode(state, block)) == ([], StartMode(state, block))
  {}

  /** A whole file: blank lines are skipped, the state is carried from line to line. */
  method ScanCommentLines(text: string) returns (spans: seq<Span>)
    ensures spans == Scanner(TrimmedLines(text), |TrimmedLines(text)|).0
  {
    var state, block: Option<BlockState> := NoString, None;
    spans := [];
    var lines := Lines(text);
    for row := 0 to |lines|
      invariant Carried(state, block)
      invariant spans == Scanner(TrimmedLines(text), row).0
      invariant StartMode(state, block) == Scanner(TrimmedLines(text), row).1
    {
      var stripped := Trim(lines[row]);
      if stripped == "" {
        BlankLine(row, state, block);
        assert spans + [] == spans;
        continue;
      }
      state, block, spans := ScanLine(stripped, row, state, block, spans);
    }
  }

  // ---------- when the scanner is the automaton ----------

  /** The modes a line can begin in. */
  predicate LineStart(mode: Mode) {
    match mode
    case InLine(_, _) => false
    case InBlock(_, _, start) => start == 0
    case InString(escaped) => !escaped
    case _ => true
  }

  lemma {:induction false} WalkEndsAtLineStart(line: string, row: nat, col: nat, mode: Mode, leading: bool)
    requires col <= |line|
    ensures LineStart(Walk(line, row, col, mode, leading).1)
    decreases |line| - col
  {
    hide CodeStep, LiteralStep;
    if col < |line| {
      match mode
      case Code =>
        var (next, mode', leading') := CodeStep(line, col, leading);
        WalkEndsAtLineStart(line, row, next, mode', leading');
      case InString(_) => WalkEndsAtLineStart(line, row, col + 1, LiteralStep(line, col, mode), leading);
      case InRaw(_) => WalkEndsAtLineStart(line, row, col + 1, LiteralStep(line, col, mode), leading);
      case InLine(_, _) => WalkEndsAtLineStart(line, row, col + 1, mode, leading);
      case InBlock(kind, depth, start) =>
        var (width, depth') := BlockStep(line, col, depth);
        WalkEndsAtLineStart(line, row, col + width, if depth' == 0 then Code else InBlock(kind, depth', start),
                            if depth' == 0 then false else leading);
    }
  }

  lemma {:induction false} AutomatonAtLineStart(lines: seq<string>, row: nat)
    requires row <= |lines|
    ensures LineStart(Automaton(lines, row).1)
  {
    if row > 0 {
      AutomatonAtLineStart(lines, row - 1);
      WalkEndsAtLineStart(lines[row - 1], row - 1, 0, Automaton(lines, row - 1).1, true);
    }
  }

  /** The line stays inside its block comment and leaves it at another nesting depth. */
  predicate Drifts(line: string, mode: Mode) {
    StaysInBlock(line, mode) && BlockEnd(line, 0, mode.depth).1 != mode.depth
  }

  predicate Agrees(lines: seq<string>, row: nat)
    requires row <= |lines|
  {
    Scanner(lines, row) == Automaton(lines, row)
  }

  /** After every line the scanner has the automaton's state and has emitted its spans. */
  predicate AgreesThroughout(lines: seq<string>) {
    forall row | 0 <= row <= |lines| :: Agrees(lines, row)
  }

  /** No line of the text drifts. */
  predicate Steady(lines: seq<string>) {
    forall row | 0 <= row < |lines| :: !Drifts(lines[row], Automaton(lines, row).1)
  }

  /** What each makes of a line that stays inside its block comment. */
  lemma StayingLine(line: string, row: nat, mode: Mode)
    requires LineStart(mode) && StaysInBlock(line, mode)
    ensures Walk(line, row, 0, mode, true).1 == mode.(depth := BlockEnd(line, 0, mode.depth).1)
    ensures Scan(line, row, mode).1 == mode
  {
    if line != "" { BlockCommentWalk(line, row, 0, mode.kind, mode.depth, 0, true); }
  }

  /** Agreement survives a line exactly when the line does not drift. */
  lemma AgreementSurvives(lines: seq<string>, row: nat)
    requires row < |lines| && Scanner(lines, row) == Automaton(lines, row)
    ensures Scanner(lines, row + 1) == Automaton(lines, row + 1) <==> !Drifts(lines[row], Automaton(lines, row).1)
  {
    hide Walk, BlockEnd;
    var mode := Automaton(lines, row).1;
    AutomatonAtLineStart(lines, row);
    if StaysInBlock(lines[row], mode) { StayingLine(lines[row], row, mode); }
  }

  lemma {:induction false} SteadyAgrees(lines: seq<string>, row: nat)
    requires row <= |lines| && forall r | 0 <= r < row :: !Drifts(lines[r], Automaton(lines, r).1)
    ensures Scanner(lines, row) == Automaton(lines, row)
  {
    hide Walk, BlockEnd, Drifts;
    if row > 0 {
      SteadyAgrees(lines, row - 1);
      AgreementSurvives(lines, row - 1);
    }
  }

  /**
   The scanner is the automaton exactly on the texts in which no line that begins and ends inside
   one block comment changes the nesting depth.
   */
  lemma AgreesExactlyWhenSteady(lines: seq<string>)
    ensures AgreesThroughout(lines) <==> Steady(lines)
  {
    hide Walk, BlockEnd, Drifts;
    if Steady(lines) {
      forall row | 0 <= row <= |lines| ensures Agrees(lines, row) { SteadyAgrees(lines, row); }
    }
    if AgreesThroughout(lines) {
      forall row | 0 <= row < |lines| ensures !Drifts(lines[row], Automaton(lines, row).1) {
        assert Agrees(lines, row) && Agrees(lines, row + 1);
        AgreementSurvives(lines, row);
      }
    }
  }

  // ---------- drifting shows in the spans ----------

  function Closers(n: nat): (r: string)
    ensures |r| == 2 * n
  {
    if n == 0 then "" else Closers(n - 1) + "*/"
  }

  lemma {:induction false} ClosersAt(n: nat, k: nat)
    requires k < n
    ensures Closers(n)[2 * k] == '*' && Closers(n)[2 * k + 1] == '/'
  {
    if k < n - 1 { ClosersAt(n - 1, k); }
  }

  lemma {:induction false} ClosersClose(n: nat, k: nat, depth: nat)
    requires k < n && n - k <= depth
    ensures BlockEnd(Closers(n), 2 * k, depth) == (2 * n, depth - (n - k))
    decreases n - k
  {
    ClosersAt(n, k);
    if k + 1 < n { ClosersClose(n, k + 1, depth - 1); }
  }

  lemma {:induction false} PrefixRuns(lines: seq<string>, more: seq<string>, row: nat)
    requires row <= |lines|
    ensures Automaton(lines + more, row) == Automaton(lines, row)
    ensures Scanner(lines + more, row) == Scanner(lines, row)
  {
    if row > 0 { PrefixRuns(lines, more, row - 1); }
  }

  lemma CodeLineSilent(row: nat)
    ensures Walk("x", row, 0, Code, true) == ([], Code) && Scan("x", row, Code) == ([], Code)
  {
    assert Walk("x", row, 1, Code, true) == ([], Code);
    assert RawStringStart("x", 0) == None;
  }

  lemma BlockLineSpeaks(row: nat, mode: Mode)
    requires LineStart(mode) && mode.InBlock?
    ensures Walk("x", row, 0, mode, true).0 == [Span(mode.kind, row + 1, 0, 1)]
  {
    BlockCommentWalk("x", row, 0, mode.kind, mode.depth, 0, true);
    assert BlockEnd("x", 0, mode.depth) == (1, mode.depth);
    assert [Span(mode.kind, row + 1, 0, 1)] + [] == [Span(mode.kind, row + 1, 0, 1)];
  }

  /** Two more lines after depths went apart: one side is still inside the comment, the other is not. */
  lemma DepthsTell(row: nat, kind: Kind, a: nat, b: nat)
    requires 1 <= a < b
    ensures var closers := Closers(a);
      && Scan(closers, row, InBlock(kind, a, 0)) == ([Span(kind, row + 1, 0, 2 * a)], Code)
      && Scan(closers, row, InBlock(kind, b, 0)).0 == [Span(kind, row + 1, 0, 2 * a)]
      && Walk(closers, row, 0, InBlock(kind, a, 0), true) == ([Span(kind, row + 1, 0, 2 * a)], Code)
      && Walk(closers, row, 0, InBlock(kind, b, 0), true).0 == [Span(kind, row + 1, 0, 2 * a)]
      && Scan(closers, row, InBlock(kind, b, 0)).1 == InBlock(kind, b, 0)
      && Walk(closers, row, 0, InBlock(kind, b, 0), true).1 == InBlock(kind, b - a, 0)
  {
    var closers, span := Closers(a), Span(kind, row + 1, 0, 2 * a);
    ClosersClose(a, 0, a);
    ClosersClose(a, 0, b);
    BlockCommentWalk(closers, row, 0, kind, a, 0, true);
    BlockCommentWalk(closers, row, 0, kind, b, 0, true);
    assert Walk(closers, row, 2 * a, Code, false) == ([], Code);
    assert [span] + [] == [span];
  }

  /** Once a line drifts, two more lines make the scanner's spans differ from the automaton's. */
  /** After a drifting line the two sides hold the same spans and are in one comment at two depths. */
  lemma DriftParts(lines: seq<string>) returns (mode: Mode, b: nat)
    requires lines != [] && Steady(lines[..|lines| - 1])
    requires Drifts(lines[|lines| - 1], Automaton(lines, |lines| - 1).1)
    ensures mode.InBlock? && mode.start == 0 && b >= 1 && b != mode.depth
    ensures Scanner(lines, |lines|).0 == Automaton(lines, |lines|).0
    ensures Scanner(lines, |lines|).1 == mode && Automaton(lines, |lines|).1 == InBlock(mode.kind, b, 0)
  {
    hide Walk, BlockEnd;
    var n := |lines|;
    var before := lines[..n - 1];
    assert lines == before + [lines[n - 1]];
    forall r | 0 <= r < n - 1 ensures !Drifts(lines[r], Automaton(lines, r).1) {
      PrefixRuns(before, [lines[n - 1]], r);
      assert !Drifts(before[r], Automaton(before, r).1);
    }
    SteadyAgrees(lines, n - 1);
    mode := Automaton(lines, n - 1).1;
    AutomatonAtLineStart(lines, n - 1);
    StayingLine(lines[n - 1], n - 1, mode);
    b := BlockEnd(lines[n - 1], 0, mode.depth).1;
  }

  lemma TwoMoreLines(lines: seq<string>, one: string, two: string)
    ensures var n, all := |lines|, lines + [one, two];
      && Automaton(all, n + 2).0 == Automaton(all, n).0 + Walk(one, n, 0, Automaton(all, n).1, true).0
                                    + Walk(two, n + 1, 0, Walk(one, n, 0, Automaton(all, n).1, true).1, true).0
      && Scanner(all, n + 2).0 == Scanner(all, n).0 + Scan(one, n, Scanner(all, n).1).0
                                  + Scan(two, n + 1, Scan(one, n, Scanner(all, n).1).1).0
  {
    hide Walk, Scan, Automaton, Scanner;
    var n, all := |lines|, lines + [one, two];
    RunStep(all, n);
    RunStep(all, n + 1);
  }

  /** From two depths the lines that close the smaller one and a char emit different numbers of spans. */
  lemma DepthsAreSeen(row: nat, kind: Kind, a: nat, b: nat)
    requires a >= 1 && b >= 1 && a != b
    ensures var closers := Closers(if a < b then a else b);
      var one, other := Scan(closers, row, InBlock(kind, a, 0)), Walk(closers, row, 0, InBlock(kind, b, 0), true);
      |one.0| + |Scan("x", row + 1, one.1).0| != |other.0| + |Walk("x", row + 1, 0, other.1, true).0|
  {
    hide Walk, BlockEnd, Closers;
    DepthsTell(row, kind, if a < b then a else b, if a < b then b else a);
    CodeLineSilent(row + 1);
    BlockLineSpeaks(row + 1, InBlock(kind, if a < b then b - a else a, 0));
  }

  lemma DriftIsVisible(lines: seq<string>) returns (more: seq<string>)
    requires lines != [] && Steady(lines[..|lines| - 1])
    requires Drifts(lines[|lines| - 1], Automaton(lines, |lines| - 1).1)
    ensures |more| == 2
    ensures Scanner(lines + more, |lines| + 2).0 != Automaton(lines + more, |lines| + 2).0
  {
    hide Automaton, Scanner, Steady, Drifts, Closers;
    var n := |lines|;
    var mode, b := DriftParts(lines);
    var a := mode.depth;
    more := [Closers(if a < b then a else b), "x"];
    PrefixRuns(lines, more, n);
    TwoMoreLines(lines, more[0], more[1]);
    DepthsAreSeen(n, mode.kind, a, b);
    assert lines + more == lines + [more[0], more[1]];
  }

  /** An opener in code and one inside a comment of depth one. */
  lemma OpenersWalk(first: nat, second: nat)
    ensures Scan("/*", first, Code) == ([Span(Implementation, first + 1, 0, 2)], InBlock(Implementation, 1, 0))
    ensures Walk("/*", first, 0, Code, true) == Scan("/*", first, Code)
    ensures Walk("/*", second, 0, InBlock(Implementation, 1, 0), true)
         == ([Span(Implementation, second + 1, 0, 2)], InBlock(Implementation, 2, 0))
    ensures Scan("/*", second, InBlock(Implementation, 1, 0))
         == ([Span(Implementation, second + 1, 0, 2)], InBlock(Implementation, 1, 0))
  {
    hide Walk;
    var line := "/*";
    assert SpanKind(line, 0, true) == Implementation by { assert line[0..] == line; }
    assert BlockEnd(line, 2, 1) == (2, 1) && BlockEnd(line, 0, 1) == (2, 2);
    BlockCommentOpens(line, first, 0, true);
    EmitLast(Span(Implementation, first + 1, 0, 2), InBlock(Implementation, 1, 0));
    BlockCommentWalk(line, second, 0, Implementation, 1, 0, true);
    EmitLast(Span(Implementation, second + 1, 0, 2), InBlock(Implementation, 2, 0));
  }

  /** A closer at depth one and at depth two. */
  lemma CloserWalks(row: nat)
    ensures Scan("*/", row, InBlock(Implementation, 1, 0)) == ([Span(Implementation, row + 1, 0, 2)], Code)
    ensures Walk("*/", row, 0, InBlock(Implementation, 2, 0), true)
         == ([Span(Implementation, row + 1, 0, 2)], InBlock(Implementation, 1, 0))
  {
    hide Walk, Scan;
    assert Closers(0) + "*/" == "*/";
    DepthsTell(row, Implementation, 1, 2);
  }

  /** The smallest shape of the miscount: a comment reopened on its second line is left one closer early. */
  lemma ReopenedCommentIsLeftEarly()
    ensures var lines := ["/*", "/*", "*/", "x"];
      && Automaton(lines, 4).0 == [Span(Implementation, 1, 0, 2), Span(Implementation, 2, 0, 2),
                                   Span(Implementation, 3, 0, 2), Span(Implementation, 4, 0, 1)]
      && Scanner(lines, 4).0 == [Span(Implementation, 1, 0, 2), Span(Implementation, 2, 0, 2),
                                 Span(Implementation, 3, 0, 2)]
  {
    hide Walk, Scan, Automaton, Scanner;
    var lines := ["/*", "/*", "*/", "x"];
    var one, two := InBlock(Implementation, 1, 0), InBlock(Implementation, 2, 0);
    var s1, s2, s3 := Span(Implementation, 1, 0, 2), Span(Implementation, 2, 0, 2), Span(Implementation, 3, 0, 2);
    OpenersWalk(0, 1);
    CloserWalks(2);
    CodeLineSilent(3);
    BlockLineSpeaks(3, one);
    RunStep(lines, 0);
    assert [] + [s1] == [s1];
    assert Automaton(lines, 1) == ([s1], one) && Scanner(lines, 1) == ([s1], one);
    RunStep(lines, 1);
    assert [s1] + [s2] == [s1, s2];
    assert Automaton(lines, 2) == ([s1, s2], two) && Scanner(lines, 2) == ([s1, s2], one);
    RunStep(lines, 2);
    assert [s1, s2] + [s3] == [s1, s2, s3];
    assert Automaton(lines, 3) == ([s1, s2, s3], one) && Scanner(lines, 3) == ([s1, s2, s3], Code);
    RunStep(lines, 3);
    assert [s1, s2, s3] + [] == [s1, s2, s3];
  }

  lemma RunStep(lines: seq<string>, row: nat)
    requires row < |lines|
    ensures Automaton(lines, 0) == ([], Code) && Scanner(lines, 0) == ([], Code)
    ensures Automaton(lines, row + 1).0
         == Automaton(lines, row).0 + Walk(lines[row], row, 0, Automaton(lines, row).1, true).0
    ensures Automaton(lines, row + 1).1 == Walk(lines[row], row, 0, Automaton(lines, row).1, true).1
    ensures Scanner(lines, row + 1).0 == Scanner(lines, row).0 + Scan(lines[row], row, Scanner(lines, row).1).0
    ensures Scanner(lines, row + 1).1 == Scan(lines[row], row, Scanner(lines, row).1).1
  {}

  // ---------- shape of the spans ----------

  /** Spans of one row: within the line from `from` on, in order, apart, each opened or carried in. */
  ghost predicate InRow(spans: seq<Span>, line: string, row: nat, from: nat) {
    && (forall s | s in spans :: s.lineNo == row + 1 && from <= s.start < s.end <= |line|)
    && (forall s | s in spans :: Pair(line, s.start, '/', '/') || Pair(line, s.start, '/', '*') || s.start == 0)
    && (forall i, j | 0 <= i < j < |spans| :: spans[i].end <= spans[j].start)
  }

  function Begun(mode: Mode, col: nat): nat {
    match mode
    case InLine(_, start) => start
    case InBlock(_, _, start) => start
    case _ => col
  }

  /** The start a comment mode remembers lies behind and is an opener or a line start. */
  predicate Remembers(line: string, col: nat, mode: Mode) {
    match mode
    case InLine(_, start) => start < col && Pair(line, start, '/', '/')
    case InBlock(_, _, start) => start <= col && (start == 0 || Pair(line, start, '/', '*'))
    case _ => true
  }

  lemma InRowFrom(spans: seq<Span>, line: string, row: nat, from: nat, lower: nat)
    requires InRow(spans, line, row, from) && lower <= from
    ensures InRow(spans, line, row, lower)
  {}

  lemma InRowEmit(span: Span, rest: (seq<Span>, Mode), line: string, row: nat)
    requires span.lineNo == row + 1 && span.start < span.end <= |line|
    requires Pair(line, span.start, '/', '/') || Pair(line, span.start, '/', '*') || span.start == 0
    requires InRow(rest.0, line, row, span.end)
    ensures InRow(Emit(span, rest).0, line, row, span.start)
  {}

  lemma OpenSpanInRow(line: string, row: nat, mode: Mode)
    requires Remembers(line, |line|, mode)
    ensures InRow(OpenSpan(mode, row + 1, |line|), line, row, Begun(mode, |line|))
  {}

  lemma CodeStepRemembers(line: string, col: nat, leading: bool)
    requires col < |line|
    ensures var (next, mode, _) := CodeStep(line, col, leading);
      col < next <= |line| && Remembers(line, next, mode) && col <= Begun(mode, next)
  {}

  lemma {:induction false} WalkInRow(line: string, row: nat, col: nat, mode: Mode, leading: bool)
    requires col <= |line| && Remembers(line, col, mode)
    ensures InRow(Walk(line, row, col, mode, leading).0, line, row, Begun(mode, col))
    decreases |line| - col
  {
    hide CodeStep, SpanKind, Walk, InRow, RawStringCloses, Emit;
    if col == |line| {
      WalkEnds(line, row, mode, leading);
      OpenSpanInRow(line, row, mode);
    } else {
      if !mode.InBlock? { WalkSteps(line, row, col, mode, leading); }
      match mode
      case Code =>
        CodeStepRemembers(line, col, leading);
        var (next, mode', leading') := CodeStep(line, col, leading);
        WalkInRow(line, row, next, mode', leading');
        InRowFrom(Walk(line, row, next, mode', leading').0, line, row, Begun(mode', next), col);
      case InString(_) =>
        var mode' := LiteralStep(line, col, mode);
        WalkInRow(line, row, col + 1, mode', leading);
        InRowFrom(Walk(line, row, col + 1, mode', leading).0, line, row, col + 1, col);
      case InRaw(_) =>
        var mode' := LiteralStep(line, col, mode);
        WalkInRow(line, row, col + 1, mode', leading);
        InRowFrom(Walk(line, row, col + 1, mode', leading).0, line, row, col + 1, col);
      case InLine(_, _) =>
        WalkInRow(line, row, col + 1, mode, leading);
      case InBlock(kind, depth, start) =>
        WalkStepsInBlock(line, row, col, kind, depth, start, leading);
        var (width, depth') := BlockStep(line, col, depth);
        if depth' == 0 {
          WalkInRow(line, row, col + width, Code, false);
          InRowEmit(Span(kind, row + 1, start, col + width), Walk(line, row, col + width, Code, false), line, row);
        } else {
          WalkInRow(line, row, col + width, InBlock(kind, depth', start), leading);
        }
    }
  }

  predicate Precedes(s: Span, t: Span) { s.lineNo < t.lineNo || (s.lineNo == t.lineNo && s.end <= t.start) }

  /** Every span is a nonempty stretch of its line and begins at an opener or at the line's start. */
  predicate WithinText(lines: seq<string>, s: Span) {
    && 1 <= s.lineNo <= |lines| && s.start < s.end <= |lines[s.lineNo - 1]|
    && (|| s.start == 0 || Pair(lines[s.lineNo - 1], s.start, '/', '/') || Pair(lines[s.lineNo - 1], s.start, '/', '*'))
  }

  lemma {:induction false} ScannerAtLineStart(lines: seq<string>, row: nat)
    requires row <= |lines|
    ensures LineStart(Scanner(lines, row).1)
  {
    if row > 0 {
      ScannerAtLineStart(lines, row - 1);
      WalkEndsAtLineStart(lines[row - 1], row - 1, 0, Scanner(lines, row - 1).1, true);
    }
  }

  /** The scanner's spans are disjoint and in text order, on every text, steady or not. */
  lemma {:induction false} SpansAreOrdered(lines: seq<string>, row: nat)
    requires row <= |lines|
    ensures var spans := Scanner(lines, row).0;
      && (forall s | s in spans :: WithinText(lines, s) && s.lineNo <= row)
      && (forall i, j | 0 <= i < j < |spans| :: Precedes(spans[i], spans[j]))
  {
    hide Walk;
    if row > 0 {
      SpansAreOrdered(lines, row - 1);
      ScannerAtLineStart(lines, row - 1);
      var mode := Scanner(lines, row - 1).1;
      WalkInRow(lines[row - 1], row - 1, 0, mode, true);
      var spans, more := Scanner(lines, row - 1).0, Walk(lines[row - 1], row - 1, 0, mode, true).0;
      assert Scanner(lines, row).0 == spans + more;
      forall i, j | 0 <= i < j < |spans + more| ensures Precedes((spans + more)[i], (spans + more)[j]) {
        if i < |spans| { assert spans[i] in spans; }
        if j >= |spans| { assert more[j - |spans|] in more; }
        if i >= |spans| { assert more[i - |spans|] in more; }
      }
    }
  }

  // ---------- what the look-ahead recognises ----------

  /** A raw string starts exactly at `r`, `br` or `cr`, any hashes and a quote, not continuing an identifier. */
  lemma RawStringStartMeans(line: string, start: nat, quote: nat, hashes: nat)
    requires start < |line|
    ensures RawStringStart(line, start) == Some((quote, hashes)) <==>
      && (start == 0 || !IsIdentByte(line[start - 1]))
      && exists prefix | prefix in {"r", "br", "cr"} ::
           start + |prefix| + hashes == quote && StartsWith(line[start..], Opening(prefix, hashes))
  {
    hide RawStringStart, StartsWith, Opening;
    if RawStringStart(line, start) == Some((quote, hashes)) {
      var prefix := OpenedRawString(line, start, quote, hashes);
    }
    forall prefix | prefix in {"r", "br", "cr"} && start + |prefix| + hashes == quote
                    && StartsWith(line[start..], Opening(prefix, hashes))
                    && (start == 0 || !IsIdentByte(line[start - 1]))
      ensures RawStringStart(line, start) == Some((quote, hashes))
    {
      OpensRawString(line, start, prefix, hashes);
    }
  }

  /** The text that opens a raw string. */
  function Opening(prefix: string, hashes: nat): string { prefix + Hashes(hashes) + "\"" }

  lemma OpenedRawString(line: string, start: nat, quote: nat, hashes: nat) returns (prefix: string)
    requires start < |line| && RawStringStart(line, start) == Some((quote, hashes))
    ensures start == 0 || !IsIdentByte(line[start - 1])
    ensures prefix in {"r", "br", "cr"} && start + |prefix| + hashes == quote
    ensures StartsWith(line[start..], Opening(prefix, hashes))
  {
    hide IsIdentByte;
    prefix := if line[start] == 'r' then "r" else if line[start] == 'b' then "br" else "cr";
    var tail, text := line[start..], Opening(prefix, hashes);
    assert |text| <= |tail|;
    forall k | 0 <= k < |text| ensures text[k] == tail[k] { assert tail[k] == line[start + k]; }
    assert text == tail[..|text|];
  }

  lemma OpensRawString(line: string, start: nat, prefix: string, hashes: nat)
    requires start < |line| && (start == 0 || !IsIdentByte(line[start - 1])) && prefix in {"r", "br", "cr"}
    requires StartsWith(line[start..], Opening(prefix, hashes))
    ensures RawStringStart(line, start) == Some((start + |prefix| + hashes, hashes))
  {
    hide IsIdentByte, HashRun, RawBody, Opening, StartsWith;
    OpeningChars(line, start, prefix, hashes);
    HashRunIs(line, start + |prefix|, hashes);
  }

  lemma OpeningChars(line: string, start: nat, prefix: string, hashes: nat)
    requires start < |line| && prefix in {"r", "br", "cr"} && StartsWith(line[start..], Opening(prefix, hashes))
    ensures start + |prefix| + hashes < |line| && RawBody(line, start) == start + |prefix|
    ensures forall k | start + |prefix| <= k < start + |prefix| + hashes :: line[k] == '#'
    ensures At(line, start + |prefix| + hashes, '"')
  {
    var tail, text, n := line[start..], Opening(prefix, hashes), |prefix|;
    forall k | 0 <= k < |text| ensures line[start + k] == text[k] { assert tail[k] == text[k]; }
    assert text[0] == prefix[0] && (n == 2 ==> text[1] == 'r') && text[n + hashes] == '"';
    forall k | start + n <= k < start + n + hashes ensures line[k] == '#' {
      assert text[k - start] == Hashes(hashes)[k - start - n] && line[start + (k - start)] == line[k];
    }
  }

  lemma {:induction false} HashRunIs(line: string, from: nat, n: nat)
    requires from + n <= |line| && (forall k | from <= k < from + n :: line[k] == '#') && !At(line, from + n, '#')
    ensures HashRun(line, from) == n
    decreases n
  {
    if n > 0 { HashRunIs(line, from + 1, n - 1); }
  }
}
