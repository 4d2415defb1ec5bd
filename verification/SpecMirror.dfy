/**
 The specification mirror builder (scripts/spec/build_av2_mirror.py): the raw lines are planned into
 files, rendered with headings around fenced text, and read back. Where every file has its own path, which
 is determined exactly, the run-time round-trip assertion is proved to hold exactly when the chapters precede
 the annexes and no raw line closes a fence.
 */
module SpecMirror {
  import opened Wrappers
  import opened Ordering
  import opened Text
  import opened Numerals

  const FENCE_OPEN := "```text"
  const FENCE_CLOSE := "```"
  const SECTION_MARK := "§ "
  const CHAPTER_9_DIR := "09-additional-tables"

  datatype HeadingKind = Num | Annex | Other

  datatype Heading = Heading(line: nat, kind: HeadingKind, number: string, title: string)

  datatype Segment = Segment(relPath: string, title: string, start: nat, end: nat, headings: seq<Heading>)

  // ---------- headings ----------

  function Components(h: Heading): nat {
    if h.number == "" then 1 else |Split(h.number, '.')|
  }

  /** The runs of lowercase letters and digits. */
  function Words(s: string): seq<string> {
    if s == "" then []
    else
      var rest := Words(s[1..]);
      if !(IsLower(s[0]) || IsDigit(s[0])) then rest
      else if |s| > 1 && (IsLower(s[1]) || IsDigit(s[1])) && rest != [] then [[s[0]] + rest[0]] + rest[1..]
      else [[s[0]]] + rest
  }

  function Slugify(s: string): string { Join(Words(Lower(s)), "-") }

  function Dashed(number: string): string { Join(Split(number, '.'), "-") }

  function Anchor(h: Heading): string {
    match h.kind
    case Annex => "s-annex-" + Dashed(Lower(h.number))
    case Other => "s-" + Slugify(h.title)
    case Num => "s-" + Dashed(h.number)
  }

  function HeadingText(h: Heading): string {
    match h.kind
    case Annex => "Annex " + h.number + (if '.' in h.number then " " else ": ") + h.title
    case Other => h.title
    case Num => SECTION_MARK + h.number + " " + h.title
  }

  function HeadingLine(h: Heading): string {
    Hashes(if Components(h) + 1 <= 6 then Components(h) + 1 else 6) + " " + HeadingText(h)
  }

  function IntOf(s: string): nat { if AllDigits(s) then NatValue(s) else 0 }

  function TwoDigits(n: nat): string { if n < 10 then "0" + NatText(n) else NatText(n) }

  /** Headings as detected: one per line, in line order, their texts free of line breaks. */
  ghost predicate Detected(headings: seq<Heading>, n: nat) {
    && (forall i | 0 <= i < |headings| :: headings[i].line < n)
    && (forall i, j | 0 <= i < j < |headings| :: headings[i].line < headings[j].line)
    && (forall h | h in headings :: '\n' !in h.number && '\n' !in h.title)
  }

  // ---------- planning ----------

  predicate IsChapter(h: Heading) { h.kind == Num && Components(h) == 1 }
  predicate IsTopAnnex(h: Heading) { h.kind == Annex && Components(h) == 1 }

  function Select(headings: seq<Heading>, keep: Heading -> bool): seq<Heading> {
    if headings == [] then []
    else (if keep(headings[0]) then [headings[0]] else []) + Select(headings[1..], keep)
  }

  predicate IsSubsectionOf9(h: Heading, start: nat, end: nat) {
    h.kind == Num && Components(h) == 2 && StartsWith(h.number, "9.") && start <= h.line < end
  }

  /** The chapters are 1 to 9 and the annexes A to G, each in order. */
  predicate ExpectedTops(chapters: seq<Heading>, annexes: seq<Heading>) {
    && |chapters| == 9 && (forall i | 0 <= i < 9 :: IntOf(chapters[i].number) == i + 1)
    && |annexes| == 7 && (forall i | 0 <= i < 7 :: annexes[i].number == ["ABCDEFG"[i]])
  }

  function Subsections(headings: seq<Heading>, start: nat, end: nat): seq<Heading> {
    if headings == [] then []
    else
      (if IsSubsectionOf9(headings[0], start, end) then [headings[0]] else [])
      + Subsections(headings[1..], start, end)
  }

  /** The number of a chapter 9 subsection, behind the first dot. */
  function Minor(sub: Heading): nat {
    var minor := Split(sub.number, '.');
    IntOf(if |minor| > 1 then minor[1] else "")
  }

  function SubPath(minor: nat, slug: string): string {
    CHAPTER_9_DIR + "/09-" + TwoDigits(minor) + "-" + slug + ".md"
  }

  function SubSegments(subs: seq<Heading>, end: nat): seq<Segment> {
    if subs == [] then []
    else
      [Segment(SubPath(Minor(subs[0]), Slugify(subs[0].title)),
               SECTION_MARK + subs[0].number + " " + subs[0].title,
               subs[0].line, if |subs| > 1 then subs[1].line else end, [])]
      + SubSegments(subs[1..], end)
  }

  function SplitChapter9(top: Heading, start: nat, end: nat, headings: seq<Heading>): seq<Segment> {
    var subs := Subsections(headings, start, end);
    var firstSub := if subs != [] then subs[0].line else end;
    (if firstSub > start
     then
       [Segment(CHAPTER_9_DIR + "/09-00-overview.md", SECTION_MARK + "9. " + top.title, start, firstSub, [])]
     else [])
    + SubSegments(subs, end)
  }

  function TopSegments(top: Heading, end: nat, headings: seq<Heading>): seq<Segment> {
    if top.kind == Num && IntOf(top.number) == 9 then SplitChapter9(top, top.line, end, headings)
    else if top.kind == Num then
      [Segment(TwoDigits(IntOf(top.number)) + "-" + Slugify(top.title) + ".md",
               SECTION_MARK + NatText(IntOf(top.number)) + ". " + top.title, top.line, end, [])]
    else
      [Segment("annex-" + Lower(top.number) + "-" + Slugify(top.title) + ".md",
               "Annex " + top.number + ": " + top.title, top.line, end, [])]
  }

  function SegmentsOf(tops: seq<Heading>, n: nat, headings: seq<Heading>): seq<Segment> {
    if tops == [] then []
    else TopSegments(tops[0], if |tops| > 1 then tops[1].line else n, headings) + SegmentsOf(tops[1..], n, headings)
  }

  predicate LineLeq(a: Heading, b: Heading) { a.line <= b.line }

  /** How many headings lie before a line. */
  function Before(headings: seq<Heading>, line: nat): (r: nat)
    ensures r <= |headings|
  {
    if headings == [] || headings[0].line >= line then 0 else 1 + Before(headings[1..], line)
  }

  function Attach(seg: Segment, headings: seq<Heading>): Segment {
    var lo, hi := Before(headings, seg.start), Before(headings, seg.end);
    seg.(headings := if lo <= hi then headings[lo..hi] else [])
  }

  function AttachAll(segs: seq<Segment>, headings: seq<Heading>): (r: seq<Segment>)
    ensures |r| == |segs|
  {
    if segs == [] then [] else [Attach(segs[0], headings)] + AttachAll(segs[1..], headings)
  }

  function Unattached(n: nat, headings: seq<Heading>): Result<seq<Segment>> {
    var chapters, annexes := Select(headings, IsChapter), Select(headings, IsTopAnnex);
    if !ExpectedTops(chapters, annexes) then Err
    else
      var tops := chapters + annexes;
      Ok((if tops[0].line > 0 then [Segment("00-front-matter.md", "Front matter", 0, tops[0].line, [])] else [])
         + SegmentsOf(tops, n, headings))
  }

  function Plan(n: nat, headings: seq<Heading>): Result<seq<Segment>> {
    var segs := Unattached(n, headings);
    if segs.Err? then Err else Ok(AttachAll(segs.value, Sort(LineLeq, headings)))
  }

  // ---------- rendering ----------

  /** Python's slice: empty when the bounds are crossed. */
  function Slice(lines: seq<string>, a: nat, b: nat): seq<string>
    requires b <= |lines|
  {
    if a <= b then lines[a..b] else []
  }

  function Fence(lines: seq<string>, a: nat, b: nat): seq<string>
    requires b <= |lines|
  {
    [FENCE_OPEN] + Slice(lines, a, b) + [FENCE_CLOSE, ""]
  }

  function Sections(hs: seq<Heading>, end: nat, lines: seq<string>): seq<string>
    requires end <= |lines| && forall h | h in hs :: h.line <= |lines|
  {
    if hs == [] then []
    else
      ["<a id=\"" + Anchor(hs[0]) + "\"></a>", "", HeadingLine(hs[0]), ""]
      + Fence(lines, hs[0].line, if |hs| > 1 then hs[1].line else end)
      + Sections(hs[1..], end, lines)
  }

  predicate Renderable(seg: Segment, lines: seq<string>) {
    seg.end <= |lines| && forall h | h in seg.headings :: h.line <= |lines|
  }

  // The text of the notice, in pieces, between the links it holds.
  const MIRROR_OF := "<!-- Verbatim mirror of the "
  const MIRRORED := "AOM AV2 v1.0.0 specification "
  const OWNER := "(© Alliance for Open Media). "
  const NORMATIVE := "The PDF is normative; "
  const FAITHFUL := "this is a faithful "
  const LAYOUT_COPY := "`pdftotext -layout` copy. "
  const README_LINK := "README.md]("
  const INDEX_LINK := "index.md]("
  const NO_EDIT := "index.md). Do not hand-edit: "
  const VIA := "regenerate via scripts/spec/"
  const SCRIPT := "regenerate-av2-spec.sh. -->"

  function Ups(depth: nat): string { if depth == 0 then "" else "../" + Ups(depth - 1) }

  /** The way back to the root from a file as deep as this. */
  function RelativeRoot(depth: nat): string { if depth == 0 then "./" else Ups(depth) }

  function Notice(depth: nat): string {
    var root := RelativeRoot(depth);
    MIRROR_OF + MIRRORED + OWNER + NORMATIVE + FAITHFUL + LAYOUT_COPY + "See [" + root + README_LINK + root
    + "README.md) and [" + root + INDEX_LINK + root + NO_EDIT + VIA + SCRIPT
  }

  function NoticeOf(seg: Segment): string { Notice(Count(seg.relPath, '/')) }

  /** The lines of one output file; the notice is the provenance comment below the title. */
  function RenderLines(seg: Segment, lines: seq<string>, notice: string): seq<string>
    requires Renderable(seg, lines)
  {
    var first := if seg.headings != [] then seg.headings[0].line else seg.end;
    ["# AV2 v1.0.0 — " + seg.title, "", notice, ""]
    + (if first > seg.start then Fence(lines, seg.start, first) else [])
    + Sections(seg.headings, seg.end, lines)
  }

  function Render(seg: Segment, lines: seq<string>): string
    requires Renderable(seg, lines)
  {
    var text := Join(RenderLines(seg, lines, NoticeOf(seg)), "\n");
    if text != "" && text[|text| - 1] == '\n' then text else text + "\n"
  }

  // ---------- reading back ----------

  function Extract(lines: seq<string>, inFence: bool): seq<string> {
    if lines == [] then []
    else if !inFence && lines[0] == FENCE_OPEN then Extract(lines[1..], true)
    else if inFence && lines[0] == FENCE_CLOSE then Extract(lines[1..], false)
    else (if inFence then [lines[0]] else []) + Extract(lines[1..], inFence)
  }

  function ExtractFenced(text: string): seq<string> { Extract(Split(text, '\n'), false) }

  /** The files by path; a later segment with the same path replaces an earlier one. */
  function Files(segs: seq<Segment>, lines: seq<string>): map<string, string>
    requires forall s | s in segs :: Renderable(s, lines)
  {
    if segs == [] then map[]
    else
      var last := segs[|segs| - 1];
      Files(segs[..|segs| - 1], lines)[last.relPath := Render(last, lines)]
  }

  function Recover(segs: seq<Segment>, files: map<string, string>): seq<string>
    requires forall s | s in segs :: s.relPath in files
  {
    if segs == [] then [] else ExtractFenced(files[segs[0].relPath]) + Recover(segs[1..], files)
  }

  // ---------- the builder as written ----------

  method PlanTops(tops: seq<Heading>, n: nat, headings: seq<Heading>, front: seq<Segment>)
    returns (segments: seq<Segment>)
    ensures segments == front + SegmentsOf(tops, n, headings)
  {
    hide TopSegments;
    segments := front;
    assert tops[0..] == tops;
    for i := 0 to |tops|
      invariant front + SegmentsOf(tops, n, headings) == segments + SegmentsOf(tops[i..], n, headings)
    {
      assert tops[i..][1..] == tops[i + 1..];
      var end := if i + 1 < |tops| then tops[i + 1].line else n;
      var more := TopSegments(tops[i], end, headings);
      assert segments + (more + SegmentsOf(tops[i + 1..], n, headings))
          == (segments + more) + SegmentsOf(tops[i + 1..], n, headings);
      segments := segments + more;
    }
    assert tops[|tops|..] == [] && segments + [] == segments;
  }

  lemma {:induction false} BeforeIs(headings: seq<Heading>, line: nat, at: nat)
    requires at <= |headings| && (forall i | 0 <= i < at :: headings[i].line < line)
    requires at < |headings| ==> headings[at].line >= line
    ensures Before(headings, line) == at
  {
    if at > 0 {
      assert headings[0].line < line;
      BeforeIs(headings[1..], line, at - 1);
    }
  }

  /** Binary search for the first heading at or after a line. */
  method BisectLeft(headings: seq<Heading>, line: nat) returns (lo: nat)
    requires SortedBy(LineLeq, headings)
    ensures lo == Before(headings, line)
  {
    lo := 0;
    var hi := |headings|;
    while lo < hi
      invariant lo <= hi <= |headings|
      invariant forall i | 0 <= i < lo :: headings[i].line < line
      invariant hi < |headings| ==> headings[hi].line >= line
    {
      var mid := (lo + hi) / 2;
      if headings[mid].line < line {
        forall i | 0 <= i < mid ensures headings[i].line < line { assert LineLeq(headings[i], headings[mid]); }
        lo := mid + 1;
      } else {
        hi := mid;
      }
    }
    BeforeIs(headings, line, lo);
  }

  method AttachTo(seg: Segment, headings: seq<Heading>) returns (attached: Segment)
    requires SortedBy(LineLeq, headings)
    ensures attached == Attach(seg, headings)
  {
    hide SortedBy, Before;
    var lo := BisectLeft(headings, seg.start);
    var hi := BisectLeft(headings, seg.end);
    return seg.(headings := if lo <= hi then headings[lo..hi] else []);
  }

  method AttachHeadings(planned: seq<Segment>, headings: seq<Heading>) returns (segments: seq<Segment>)
    requires SortedBy(LineLeq, headings)
    ensures segments == AttachAll(planned, headings)
  {
    hide SortedBy, Attach;
    segments := planned;
    assert planned[0..] == planned;
    for i := 0 to |planned|
      invariant |segments| == |planned| && segments[i..] == planned[i..]
      invariant AttachAll(planned, headings) == segments[..i] + AttachAll(planned[i..], headings)
    {
      assert planned[i..][1..] == planned[i + 1..] && segments[i] == segments[i..][0] == planned[i];
      ghost var done, left := segments[..i], AttachAll(planned[i + 1..], headings);
      var seg := AttachTo(segments[i], headings);
      segments := segments[i := seg];
      assert segments[..i + 1] == done + [seg];
      assert done + ([seg] + left) == segments[..i + 1] + left;
      assert segments[i + 1..] == planned[i + 1..];
    }
    assert planned[|planned|..] == [] && segments[..|segments|] == segments && segments + [] == segments;
  }

  method PlanSegments(n: nat, headings: seq<Heading>) returns (r: Result<seq<Segment>>)
    ensures r == Plan(n, headings)
  {
    hide SegmentsOf, AttachAll, Select;
    var chapters, annexes := Select(headings, IsChapter), Select(headings, IsTopAnnex);
    if !ExpectedTops(chapters, annexes) { return Err; }
    var tops, segments := chapters + annexes, [];
    if tops[0].line > 0 { segments := [Segment("00-front-matter.md", "Front matter", 0, tops[0].line, [])]; }
    segments := PlanTops(tops, n, headings, segments);
    assert TotalPreorder(LineLeq);
    SortSorts(LineLeq, headings);
    segments := AttachHeadings(segments, Sort(LineLeq, headings));
    return Ok(segments);
  }

  method ExtractLines(text: string) returns (result: seq<string>)
    ensures result == ExtractFenced(text)
  {
    var lines, inFence := Split(text, '\n'), false;
    result := [];
    assert lines[0..] == lines;
    for i := 0 to |lines|
      invariant ExtractFenced(text) == result + Extract(lines[i..], inFence)
    {
      assert lines[i..][1..] == lines[i + 1..];
      if !inFence && lines[i] == FENCE_OPEN {
        inFence := true;
      } else if inFence && lines[i] == FENCE_CLOSE {
        inFence := false;
      } else if inFence {
        result := result + [lines[i]];
      }
    }
  }

  method RenderSegment(seg: Segment, lines: seq<string>) returns (text: string)
    requires Renderable(seg, lines)
    ensures text == Render(seg, lines)
  {
    hide Sections, RenderLines, Fence, Anchor, HeadingLine, Notice;
    var notice := Notice(Count(seg.relPath, '/'));
    var out := ["# AV2 v1.0.0 — " + seg.title, "", notice, ""];
    var hs := seg.headings;
    var first := if hs != [] then hs[0].line else seg.end;
    ghost var opening := out;
    if first > seg.start { out := out + Fence(lines, seg.start, first); }
    ghost var head := out;
    OpeningThenSections(seg, lines, notice, opening, head);
    NoSections(seg.end, lines);
    assert hs[0..] == hs;
    for i := 0 to |hs|
      invariant head + Sections(hs, seg.end, lines) == out + Sections(hs[i..], seg.end, lines)
    {
      NextSection(hs, i, seg.end, lines);
      var next := if i + 1 < |hs| then hs[i + 1].line else seg.end;
      var section := ["<a id=\"" + Anchor(hs[i]) + "\"></a>", "", HeadingLine(hs[i]), ""]
          + Fence(lines, hs[i].line, next);
      AppendSection(out, section, Sections(hs[i + 1..], seg.end, lines));
      out := out + section;
    }
    assert hs[|hs|..] == [] && out + [] == out;
    text := Join(out, "\n");
    if !(text != "" && text[|text| - 1] == '\n') { text := text + "\n"; }
  }

  lemma OpeningThenSections(seg: Segment, lines: seq<string>, notice: string, opening: seq<string>, head: seq<string>)
    requires Renderable(seg, lines) && opening == ["# AV2 v1.0.0 — " + seg.title, "", notice, ""]
    requires var first := if seg.headings != [] then seg.headings[0].line else seg.end;
      head == if first > seg.start then opening + Fence(lines, seg.start, first) else opening
    ensures RenderLines(seg, lines, notice) == head + Sections(seg.headings, seg.end, lines)
  {
    hide Sections, Fence;
    assert opening + [] == opening;
  }

  lemma NextSection(hs: seq<Heading>, i: nat, end: nat, lines: seq<string>)
    requires end <= |lines| && (forall h | h in hs :: h.line <= |lines|) && i < |hs|
    ensures Sections(hs[i..], end, lines)
         == ["<a id=\"" + Anchor(hs[i]) + "\"></a>", "", HeadingLine(hs[i]), ""]
            + Fence(lines, hs[i].line, if i + 1 < |hs| then hs[i + 1].line else end)
            + Sections(hs[i + 1..], end, lines)
  {
    hide Fence, Anchor, HeadingLine;
    assert hs[i..][1..] == hs[i + 1..];
  }

  lemma AppendSection(out: seq<string>, section: seq<string>, rest: seq<string>)
    ensures out + (section + rest) == (out + section) + rest
  {}

  /** The run-time assertion: does the fenced text of all files give back the raw lines? */
  method AssertRoundtrip(segments: seq<Segment>, files: map<string, string>, rawLines: seq<string>) returns (ok: bool)
    requires forall s | s in segments :: s.relPath in files
    ensures ok <==> Recover(segments, files) == rawLines
  {
    var recovered := [];
    assert segments[0..] == segments;
    for i := 0 to |segments|
      invariant Recover(segments, files) == recovered + Recover(segments[i..], files)
    {
      assert segments[i..][1..] == segments[i + 1..];
      var fenced := ExtractLines(files[segments[i].relPath]);
      AppendSection(recovered, fenced, Recover(segments[i + 1..], files));
      recovered := recovered + fenced;
    }
    assert segments[|segments|..] == [] && recovered + [] == recovered;
    return recovered == rawLines;
  }

  // ---------- a rendered file reads back as its lines ----------

  predicate NoFenceClose(lines: seq<string>) { FENCE_CLOSE !in lines }

  lemma {:induction false} ExtractContent(content: seq<string>, rest: seq<string>)
    requires NoFenceClose(content)
    ensures Extract(content + [FENCE_CLOSE] + rest, true) == content + Extract(rest, false)
  {
    var all := content + [FENCE_CLOSE] + rest;
    if content == [] {
      assert all[1..] == rest && all[0] == FENCE_CLOSE;
      assert [] + Extract(rest, false) == Extract(rest, false);
    } else {
      assert all[1..] == content[1..] + [FENCE_CLOSE] + rest && all[0] == content[0];
      ExtractContent(content[1..], rest);
      assert [content[0]] + (content[1..] + Extract(rest, false)) == content + Extract(rest, false);
    }
  }

  lemma ExtractOutside(line: string, rest: seq<string>)
    requires line != FENCE_OPEN
    ensures Extract([line] + rest, false) == Extract(rest, false)
  {
    assert ([line] + rest)[1..] == rest;
    assert [] + Extract(rest, false) == Extract(rest, false);
  }

  lemma ExtractFence(lines: seq<string>, a: nat, b: nat, rest: seq<string>)
    requires b <= |lines| && NoFenceClose(lines)
    ensures Extract(Fence(lines, a, b) + rest, false) == Slice(lines, a, b) + Extract(rest, false)
  {
    var content := Slice(lines, a, b);
    var all := Fence(lines, a, b) + rest;
    assert all[1..] == content + [FENCE_CLOSE] + ([""] + rest) && all[0] == FENCE_OPEN;
    assert NoFenceClose(content);
    ExtractContent(content, [""] + rest);
    ExtractOutside("", rest);
  }

  lemma FourOutside(a: string, b: string, c: string, d: string, rest: seq<string>)
    requires a != FENCE_OPEN && b != FENCE_OPEN && c != FENCE_OPEN && d != FENCE_OPEN
    ensures Extract([a, b, c, d] + rest, false) == Extract(rest, false)
  {
    assert [a, b, c, d] + rest == [a] + ([b] + ([c] + ([d] + rest)));
    ExtractOutside(a, [b] + ([c] + ([d] + rest)));
    ExtractOutside(b, [c] + ([d] + rest));
    ExtractOutside(c, [d] + rest);
    ExtractOutside(d, rest);
  }

  /** The headings lie in the segment, in line order. */
  predicate Inside(hs: seq<Heading>, start: nat, end: nat) {
    && (forall h | h in hs :: start <= h.line < end)
    && (forall i, j | 0 <= i < j < |hs| :: hs[i].line < hs[j].line)
  }

  lemma HeadingLineOpens(h: Heading)
    ensures HeadingLine(h)[0] == '#'
  {}

  lemma ExtractSection(h: Heading, next: nat, lines: seq<string>, rest: seq<string>)
    requires h.line <= next <= |lines| && NoFenceClose(lines)
    ensures Extract(["<a id=\"" + Anchor(h) + "\"></a>", "", HeadingLine(h), ""] + Fence(lines, h.line, next)
        + rest, false)
         == lines[h.line..next] + Extract(rest, false)
  {
    hide Extract, HeadingLine, Anchor, Fence;
    var opening := ["<a id=\"" + Anchor(h) + "\"></a>", "", HeadingLine(h), ""];
    var fenced := Fence(lines, h.line, next);
    AppendSection(opening, fenced, rest);
    HeadingLineOpens(h);
    FourOutside(opening[0], "", opening[2], "", fenced + rest);
    ExtractFence(lines, h.line, next, rest);
  }

  lemma {:induction false} ExtractSections(hs: seq<Heading>, start: nat, end: nat, lines: seq<string>)
    requires end <= |lines| && NoFenceClose(lines) && hs != [] && Inside(hs, start, end)
    ensures Extract(Sections(hs, end, lines), false) == lines[hs[0].line..end]
  {
    hide Extract, HeadingLine, Anchor, Fence;
    var next := if |hs| > 1 then hs[1].line else end;
    assert hs[0] in hs && hs[0].line <= next <= end;
    ExtractSection(hs[0], next, lines, Sections(hs[1..], end, lines));
    if |hs| > 1 {
      assert hs[1] in hs;
      ExtractSections(hs[1..], start, end, lines);
      assert lines[hs[0].line..next] + lines[next..end] == lines[hs[0].line..end];
    } else {
      NoSections(end, lines);
      ExtractNothing();
      assert lines[hs[0].line..end] + [] == lines[hs[0].line..end];
    }
  }

  lemma ExtractNothing()
    ensures Extract([], false) == []
  {}

  lemma ExtractRendered(seg: Segment, lines: seq<string>, notice: string)
    requires Renderable(seg, lines) && NoFenceClose(lines) && notice != FENCE_OPEN
    requires Inside(seg.headings, seg.start, seg.end)
    ensures Extract(RenderLines(seg, lines, notice), false) == Slice(lines, seg.start, seg.end)
  {
    hide Extract, Fence, Sections;
    var hs := seg.headings;
    var first := if hs != [] then hs[0].line else seg.end;
    var front := if first > seg.start then Fence(lines, seg.start, first) else [];
    var sections := Sections(hs, seg.end, lines);
    var title := "# AV2 v1.0.0 — " + seg.title;
    assert RenderLines(seg, lines, notice) == [title, "", notice, ""] + (front + sections);
    assert title[0] == '#';
    FourOutside(title, "", notice, "", front + sections);
    if hs != [] { assert hs[0] in hs; }
    if first > seg.start {
      ExtractFence(lines, seg.start, first, sections);
    } else {
      assert front + sections == sections;
    }
    if hs != [] {
      ExtractSections(hs, seg.start, seg.end, lines);
      assert lines[seg.start..first] + lines[first..seg.end] == lines[seg.start..seg.end];
    } else {
      NoSections(seg.end, lines);
      ExtractNothing();
      assert Slice(lines, seg.start, seg.end) + [] == Slice(lines, seg.start, seg.end);
    }
  }

  lemma NoSections(end: nat, lines: seq<string>)
    requires end <= |lines|
    ensures Sections([], end, lines) == []
  {}

  // ---------- rendered lines survive the joined text ----------

  predicate Unbroken(s: string) { '\n' !in s }

  lemma {:induction false} LowerUnbroken(s: string)
    requires Unbroken(s)
    ensures Unbroken(Lower(s))
  {
    if s != "" { LowerUnbroken(s[1..]); }
  }

  lemma {:induction false} WordsUnbroken(s: string)
    ensures forall w | w in Words(s) :: Unbroken(w)
  {
    if s != "" {
      WordsUnbroken(s[1..]);
      var rest := Words(s[1..]);
      if rest != [] { assert rest[0] in rest; }
    }
  }

  lemma {:induction false} JoinUnbroken(parts: seq<string>, glue: string)
    requires Unbroken(glue) && forall p | p in parts :: Unbroken(p)
    ensures Unbroken(Join(parts, glue))
  {
    if |parts| > 1 {
      assert parts[0] in parts;
      JoinUnbroken(parts[1..], glue);
    }
  }

  lemma DashedUnbroken(number: string)
    requires Unbroken(number)
    ensures Unbroken(Dashed(number))
  {
    forall p | p in Split(number, '.') ensures Unbroken(p) { PieceUnbroken(number, p); }
    JoinUnbroken(Split(number, '.'), "-");
  }

  lemma {:induction false} PieceUnbroken(s: string, piece: string)
    requires Unbroken(s) && piece in Split(s, '.')
    ensures Unbroken(piece)
  {
    if s != "" {
      var rest := Split(s[1..], '.');
      if piece in rest {
        PieceUnbroken(s[1..], piece);
      } else if s[0] != '.' {
        PieceUnbroken(s[1..], rest[0]);
      }
    }
  }

  lemma HeadingUnbroken(h: Heading)
    requires Unbroken(h.number) && Unbroken(h.title)
    ensures Unbroken(HeadingLine(h)) && Unbroken("<a id=\"" + Anchor(h) + "\"></a>")
  {
    hide Lower, Words, Join, Split, Components;
    LowerUnbroken(h.number);
    DashedUnbroken(h.number);
    DashedUnbroken(Lower(h.number));
    WordsUnbroken(Lower(h.title));
    JoinUnbroken(Words(Lower(h.title)), "-");
  }

  predicate UnbrokenAll(lines: seq<string>) { forall l | l in lines :: Unbroken(l) }

  lemma {:induction false} SectionsUnbroken(hs: seq<Heading>, end: nat, lines: seq<string>)
    requires end <= |lines| && (forall h | h in hs :: h.line <= |lines|) && UnbrokenAll(lines)
    requires forall h | h in hs :: Unbroken(h.number) && Unbroken(h.title)
    ensures UnbrokenAll(Sections(hs, end, lines))
    ensures hs != [] ==> var out := Sections(hs, end, lines); |out| >= 2 && out[|out| - 1] == ""
  {
    hide Anchor, HeadingLine;
    if hs != [] {
      HeadingUnbroken(hs[0]);
      SectionsUnbroken(hs[1..], end, lines);
    }
  }

  lemma OpeningUnbroken(title: string, notice: string)
    requires Unbroken(title) && Unbroken(notice)
    ensures UnbrokenAll(["# AV2 v1.0.0 — " + title, "", notice, ""])
  {
    assert Unbroken("# AV2 v1.0.0 — " + title) && Unbroken("");
  }

  lemma FenceUnbroken(lines: seq<string>, a: nat, b: nat)
    requires b <= |lines| && UnbrokenAll(lines)
    ensures UnbrokenAll(Fence(lines, a, b)) && Fence(lines, a, b)[|Fence(lines, a, b)| - 1] == ""
  {}

  lemma RenderedUnbroken(seg: Segment, lines: seq<string>, notice: string)
    requires Renderable(seg, lines) && UnbrokenAll(lines) && Unbroken(seg.title) && Unbroken(notice)
    requires forall h | h in seg.headings :: Unbroken(h.number) && Unbroken(h.title)
    ensures UnbrokenAll(RenderLines(seg, lines, notice))
    ensures var out := RenderLines(seg, lines, notice); |out| >= 2 && out[|out| - 1] == ""
  {
    hide Sections, Fence, Unbroken;
    var first := if seg.headings != [] then seg.headings[0].line else seg.end;
    OpeningUnbroken(seg.title, notice);
    FenceUnbroken(lines, seg.start, first);
    SectionsUnbroken(seg.headings, seg.end, lines);
    NoSections(seg.end, lines);
  }

  lemma {:induction false} JoinEndsWithBreak(parts: seq<string>)
    requires |parts| >= 2 && parts[|parts| - 1] == ""
    ensures var text := Join(parts, "\n"); text != "" && text[|text| - 1] == '\n'
  {
    if |parts| > 2 {
      JoinEndsWithBreak(parts[1..]);
    } else {
      assert parts[1..] == [""];
    }
  }

  predicate GoodNotice(notice: string) { Unbroken(notice) && notice != FENCE_OPEN }

  lemma UpsUnbroken(depth: nat)
    ensures Unbroken(Ups(depth)) && Unbroken(RelativeRoot(depth))
  {}

  lemma NoticeStartUnbroken()
    ensures Unbroken(MIRROR_OF) && MIRROR_OF != "" && MIRROR_OF[0] == '<'
    ensures Unbroken(MIRRORED) && Unbroken(OWNER)
  {}

  lemma NoticeMiddleUnbroken()
    ensures Unbroken(NORMATIVE) && Unbroken(FAITHFUL) && Unbroken(LAYOUT_COPY) && Unbroken(README_LINK)
  {}

  lemma NoticeEndUnbroken()
    ensures Unbroken(INDEX_LINK) && Unbroken(NO_EDIT) && Unbroken(VIA) && Unbroken(SCRIPT)
  {}

  /** At every depth the notice is one line that opens no fence. */
  lemma NoticeIsGood(depth: nat)
    ensures GoodNotice(Notice(depth))
  {
    hide MIRROR_OF, MIRRORED, OWNER, NORMATIVE, FAITHFUL, LAYOUT_COPY, README_LINK, INDEX_LINK, NO_EDIT, VIA, SCRIPT,
         RelativeRoot;
    UpsUnbroken(depth);
    NoticeStartUnbroken();
    NoticeMiddleUnbroken();
    NoticeEndUnbroken();
    assert Unbroken("See [") && Unbroken("README.md) and [");
    assert Notice(depth)[0] == MIRROR_OF[0];
  }

  /** What is read back from a rendered file is its stretch of the raw lines. */
  lemma RenderedReadsBack(seg: Segment, lines: seq<string>)
    requires Renderable(seg, lines) && NoFenceClose(lines) && UnbrokenAll(lines)
    requires Unbroken(seg.title)
    requires Inside(seg.headings, seg.start, seg.end)
    requires forall h | h in seg.headings :: Unbroken(h.number) && Unbroken(h.title)
    ensures ExtractFenced(Render(seg, lines)) == Slice(lines, seg.start, seg.end)
  {
    hide RenderLines, Extract;
    var notice := NoticeOf(seg);
    NoticeIsGood(Count(seg.relPath, '/'));
    var out := RenderLines(seg, lines, notice);
    RenderedUnbroken(seg, lines, notice);
    JoinEndsWithBreak(out);
    SplitJoin(out, '\n');
    ExtractRendered(seg, lines, notice);
  }

  // ---------- the planned segments ----------

  /** The segments are consecutive stretches from one line to another. */
  predicate Partition(segs: seq<Segment>, from: nat, to: nat) {
    if segs == [] then from == to
    else segs[0].start == from <= segs[0].end && Partition(segs[1..], segs[0].end, to)
  }

  function Contents(segs: seq<Segment>, lines: seq<string>): seq<string>
    requires forall s | s in segs :: s.end <= |lines|
  {
    if segs == [] then [] else Slice(lines, segs[0].start, segs[0].end) + Contents(segs[1..], lines)
  }

  lemma {:induction false} PartitionBounds(segs: seq<Segment>, from: nat, to: nat)
    requires Partition(segs, from, to)
    ensures from <= to && forall s | s in segs :: from <= s.start <= s.end <= to
  {
    if segs != [] { PartitionBounds(segs[1..], segs[0].end, to); }
  }

  lemma {:induction false} PartitionContents(segs: seq<Segment>, from: nat, to: nat, lines: seq<string>)
    requires Partition(segs, from, to) && to <= |lines|
    ensures from <= to && (forall s | s in segs :: s.end <= |lines|) && Contents(segs, lines) == lines[from..to]
  {
    PartitionBounds(segs, from, to);
    if segs != [] {
      PartitionContents(segs[1..], segs[0].end, to, lines);
      assert lines[from..segs[0].end] + lines[segs[0].end..to] == lines[from..to];
    }
  }

  lemma {:induction false} PartitionConcat(a: seq<Segment>, b: seq<Segment>, from: nat, mid: nat, to: nat)
    requires Partition(a, from, mid) && Partition(b, mid, to)
    ensures Partition(a + b, from, to)
  {
    if a == [] {
      assert a + b == b;
    } else {
      assert (a + b)[1..] == a[1..] + b;
      PartitionConcat(a[1..], b, a[0].end, mid, to);
    }
  }

  lemma {:induction false} ContentsConcat(a: seq<Segment>, b: seq<Segment>, lines: seq<string>)
    requires forall s | s in a + b :: s.end <= |lines|
    ensures (forall s | s in a :: s.end <= |lines|) && (forall s | s in b :: s.end <= |lines|)
    ensures Contents(a + b, lines) == Contents(a, lines) + Contents(b, lines)
  {
    hide Slice;
    assert forall s | s in a :: s in a + b;
    assert forall s | s in b :: s in a + b;
    if a == [] {
      assert a + b == b;
    } else {
      assert (a + b)[1..] == a[1..] + b && (a + b)[0] == a[0];
      ContentsConcat(a[1..], b, lines);
      assert Slice(lines, a[0].start, a[0].end) + (Contents(a[1..], lines) + Contents(b, lines))
          == (Slice(lines, a[0].start, a[0].end) + Contents(a[1..], lines)) + Contents(b, lines);
    }
  }

  predicate Rising(hs: seq<Heading>) {
    forall i, j | 0 <= i < j < |hs| :: hs[i].line < hs[j].line
  }

  lemma {:induction false} SelectedFrom(headings: seq<Heading>, keep: Heading -> bool, h: Heading)
    requires h in Select(headings, keep)
    ensures h in headings
  {
    if h !in Select(headings[1..], keep) {
      assert h == headings[0];
    } else {
      SelectedFrom(headings[1..], keep, h);
    }
  }

  lemma {:induction false} SelectRises(headings: seq<Heading>, keep: Heading -> bool)
    requires Rising(headings)
    ensures Rising(Select(headings, keep))
  {
    if headings != [] {
      var rest := Select(headings[1..], keep);
      SelectRises(headings[1..], keep);
      forall h | h in rest ensures headings[0].line < h.line {
        SelectedFrom(headings[1..], keep, h);
        var k :| 0 <= k < |headings[1..]| && headings[1..][k] == h;
        assert headings[k + 1] == h;
      }
    }
  }

  lemma SelectKeepsOrder(headings: seq<Heading>, keep: Heading -> bool)
    requires Rising(headings)
    ensures Rising(Select(headings, keep))
    ensures forall h | h in Select(headings, keep) :: h in headings
  {
    SelectRises(headings, keep);
    forall h | h in Select(headings, keep) ensures h in headings { SelectedFrom(headings, keep, h); }
  }

  lemma {:induction false} SubSegmentsPartition(subs: seq<Heading>, end: nat)
    requires subs != [] && Rising(subs) && forall h | h in subs :: h.line <= end
    ensures Partition(SubSegments(subs, end), subs[0].line, end)
  {
    hide Slugify;
    if |subs| > 1 {
      assert subs[0].line < subs[1].line;
      SubSegmentsPartition(subs[1..], end);
    } else {
      assert subs[0] in subs;
      assert SubSegments(subs[1..], end) == [];
    }
  }

  lemma {:induction false} SubsectionsAre(headings: seq<Heading>, start: nat, end: nat, h: Heading)
    requires h in Subsections(headings, start, end)
    ensures h in headings && start <= h.line < end
  {
    hide StartsWith, Components;
    if h in Subsections(headings[1..], start, end) { SubsectionsAre(headings[1..], start, end, h); }
  }

  lemma {:induction false} SubsectionsKeepOrder(headings: seq<Heading>, start: nat, end: nat)
    requires Rising(headings)
    ensures Rising(Subsections(headings, start, end))
    ensures forall h :: h in Subsections(headings, start, end) ==> h in headings && start <= h.line < end
  {
    hide IsSubsectionOf9;
    forall h | h in Subsections(headings, start, end) ensures h in headings && start <= h.line < end {
      SubsectionsAre(headings, start, end, h);
    }
    if headings != [] {
      SubsectionsKeepOrder(headings[1..], start, end);
      forall h | h in headings[1..] ensures headings[0].line < h.line {
        var i :| 0 <= i < |headings[1..]| && headings[1..][i] == h;
        assert headings[i + 1] == h;
      }
    }
  }

  /** A top's segments cover its stretch of the lines. */
  lemma TopPartition(top: Heading, end: nat, headings: seq<Heading>)
    requires Rising(headings) && top.line <= end
    ensures Partition(TopSegments(top, end, headings), top.line, end)
  {
    hide Slugify, SubSegments, Subsections, IntOf, NatText, TwoDigits, Lower;
    var subs := Subsections(headings, top.line, end);
    SubsectionsKeepOrder(headings, top.line, end);
    if subs == [] {
      NoSubSegments(end);
    } else {
      assert subs[0] in subs;
      SubSegmentsPartition(subs, end);
    }
    if top.kind == Num && IntOf(top.number) == 9 {
      var rest := SubSegments(subs, end);
      var firstSub := if subs != [] then subs[0].line else end;
      if firstSub > top.line {
        var overview :=
          Segment(CHAPTER_9_DIR + "/09-00-overview.md", SECTION_MARK + "9. " + top.title, top.line, firstSub, []);
        assert SplitChapter9(top, top.line, end, headings) == [overview] + rest;
        assert ([overview] + rest)[1..] == rest;
      } else {
        assert SplitChapter9(top, top.line, end, headings) == [] + rest == rest;
      }
    }
  }

  lemma NoSubSegments(end: nat)
    ensures SubSegments([], end) == []
  {}

  /** A reversed stretch leaves no contents at all. */
  lemma ReversedTopIsEmpty(top: Heading, end: nat, headings: seq<Heading>, lines: seq<string>)
    requires Rising(headings) && end < top.line && end <= |lines|
    ensures forall s | s in TopSegments(top, end, headings) :: s.end <= |lines|
    ensures Contents(TopSegments(top, end, headings), lines) == []
  {
    hide Slugify, SubSegments;
    var subs := Subsections(headings, top.line, end);
    SubsectionsKeepOrder(headings, top.line, end);
    NoElements(subs);
    NoSubSegments(end);
    var segs := TopSegments(top, end, headings);
    if top.kind == Num && IntOf(top.number) == 9 {
      assert segs == [];
    } else {
      ReversedIsEmpty(segs[0], lines);
      assert segs == [segs[0]];
    }
  }

  lemma ReversedIsEmpty(seg: Segment, lines: seq<string>)
    requires seg.end < seg.start && seg.end <= |lines|
    ensures Contents([seg], lines) == []
  {
    assert [seg][1..] == [] && Contents([], lines) == [];
  }

  lemma {:induction false} RisingTopsPartition(tops: seq<Heading>, n: nat, headings: seq<Heading>)
    requires Rising(headings) && tops != [] && Rising(tops) && tops[|tops| - 1].line <= n
    ensures Partition(SegmentsOf(tops, n, headings), tops[0].line, n)
  {
    hide TopSegments;
    if |tops| > 1 {
      RisingTopsPartition(tops[1..], n, headings);
      TopPartition(tops[0], tops[1].line, headings);
      PartitionConcat(TopSegments(tops[0], tops[1].line, headings), SegmentsOf(tops[1..], n, headings),
                      tops[0].line, tops[1].line, n);
    } else {
      TopPartition(tops[0], n, headings);
      var segs := TopSegments(tops[0], n, headings);
      assert SegmentsOf(tops[1..], n, headings) == [] && segs + [] == segs;
    }
  }

  lemma {:induction false} SegmentsOfConcat(a: seq<Heading>, b: seq<Heading>, n: nat, headings: seq<Heading>)
    requires b != []
    ensures SegmentsOf(a + b, n, headings) == SegmentsOf(a, b[0].line, headings) + SegmentsOf(b, n, headings)
  {
    hide TopSegments;
    if a == [] {
      assert a + b == b && [] + SegmentsOf(b, n, headings) == SegmentsOf(b, n, headings);
    } else {
      assert (a + b)[1..] == a[1..] + b;
      SegmentsOfConcat(a[1..], b, n, headings);
      var end := if |a| > 1 then a[1].line else b[0].line;
      AppendSegments(TopSegments(a[0], end, headings), SegmentsOf(a[1..], b[0].line, headings),
                     SegmentsOf(b, n, headings));
    }
  }

  lemma AppendSegments(x: seq<Segment>, y: seq<Segment>, z: seq<Segment>)
    ensures x + (y + z) == (x + y) + z
  {}

  // ---------- the round trip ----------

  /** The last chapter heading comes before the first annex heading. */
  predicate ChaptersFirst(chapters: seq<Heading>, annexes: seq<Heading>)
    requires chapters != [] && annexes != []
  {
    chapters[|chapters| - 1].line < annexes[0].line
  }

  function Front(top: Heading): seq<Segment> {
    if top.line > 0 then [Segment("00-front-matter.md", "Front matter", 0, top.line, [])] else []
  }

  lemma OrderedPlanPartitions(chapters: seq<Heading>, annexes: seq<Heading>, n: nat, headings: seq<Heading>)
    requires Detected(headings, n) && chapters == Select(headings, IsChapter) && annexes == Select(headings, IsTopAnnex)
    requires chapters != [] && annexes != [] && ChaptersFirst(chapters, annexes)
    ensures Partition(Front(chapters[0]) + SegmentsOf(chapters + annexes, n, headings), 0, n)
  {
    hide SegmentsOf, Select, Partition;
    SelectKeepsOrder(headings, IsChapter);
    SelectKeepsOrder(headings, IsTopAnnex);
    var tops := chapters + annexes;
    RisingConcat(chapters, annexes);
    assert tops[|tops| - 1] == annexes[|annexes| - 1] && annexes[|annexes| - 1] in annexes;
    RisingTopsPartition(tops, n, headings);
    FrontPartition(chapters[0]);
    PartitionConcat(Front(chapters[0]), SegmentsOf(tops, n, headings), 0, chapters[0].line, n);
  }

  lemma FrontPartition(top: Heading)
    ensures Partition(Front(top), 0, top.line)
  {}

  lemma RisingConcat(a: seq<Heading>, b: seq<Heading>)
    requires Rising(a) && Rising(b) && a != [] && b != [] && a[|a| - 1].line < b[0].line
    ensures Rising(a + b)
  {
    var all := a + b;
    forall i, j | 0 <= i < j < |all| ensures all[i].line < all[j].line {
      if i < |a| <= j {
        assert all[i] == a[i] && all[j] == b[j - |a|];
        assert a[i].line <= a[|a| - 1].line && b[0].line <= b[j - |a|].line;
      }
    }
  }

  /** Around a reversed last chapter, the segments before it and those of the annexes. */
  lemma DisorderedSegments(chapters: seq<Heading>, annexes: seq<Heading>, n: nat, headings: seq<Heading>)
    requires Detected(headings, n) && chapters == Select(headings, IsChapter) && annexes == Select(headings, IsTopAnnex)
    requires |chapters| > 1 && annexes != []
    ensures var last, early := chapters[|chapters| - 1], chapters[..|chapters| - 1];
      && SegmentsOf(chapters + annexes, n, headings)
         == SegmentsOf(early, last.line, headings)
            + (TopSegments(last, annexes[0].line, headings) + SegmentsOf(annexes, n, headings))
      && Partition(SegmentsOf(early, last.line, headings), chapters[0].line, last.line)
      && Partition(SegmentsOf(annexes, n, headings), annexes[0].line, n)
      && last.line < n && annexes[0].line < n
  {
    hide SegmentsOf, TopSegments, Select, Detected, Partition, Rising;
    var last, early := chapters[|chapters| - 1], chapters[..|chapters| - 1];
    TopsRise(chapters, n, headings, IsChapter);
    TopsRise(annexes, n, headings, IsTopAnnex);
    EarlyRise(chapters);
    DetectedRises(headings, n);
    RisingTopsPartition(early, last.line, headings);
    RisingTopsPartition(annexes, n, headings);
    SplitAtLast(early, last, annexes, n, headings);
    assert chapters + annexes == early + ([last] + annexes);
  }

  lemma DetectedRises(headings: seq<Heading>, n: nat)
    requires Detected(headings, n)
    ensures Rising(headings)
  {}

  lemma TopsRise(tops: seq<Heading>, n: nat, headings: seq<Heading>, keep: Heading -> bool)
    requires Detected(headings, n) && tops == Select(headings, keep) && tops != []
    ensures Rising(tops) && tops[0].line < n && tops[|tops| - 1].line < n
  {
    SelectKeepsOrder(headings, keep);
    assert tops[0] in tops && tops[|tops| - 1] in tops;
  }

  lemma EarlyRise(tops: seq<Heading>)
    requires Rising(tops) && |tops| > 1
    ensures var early := tops[..|tops| - 1]; Rising(early) && early[|early| - 1].line <= tops[|tops| - 1].line
  {}

  lemma SplitAtLast(early: seq<Heading>, last: Heading, annexes: seq<Heading>, n: nat, headings: seq<Heading>)
    requires early != [] && annexes != []
    ensures SegmentsOf(early + ([last] + annexes), n, headings)
         == SegmentsOf(early, last.line, headings)
            + (TopSegments(last, annexes[0].line, headings) + SegmentsOf(annexes, n, headings))
  {
    hide SegmentsOf, TopSegments;
    SegmentsOfConcat(early, [last] + annexes, n, headings);
    SegmentsOfConcat([last], annexes, n, headings);
    OneTop(last, annexes[0].line, headings);
  }

  /** With an annex before the last chapter the planned stretches hold too many lines. */
  lemma DisorderedPlanOverflows(chapters: seq<Heading>, annexes: seq<Heading>, n: nat, headings: seq<Heading>,
                                lines: seq<string>)
    requires Detected(headings, n) && chapters == Select(headings, IsChapter) && annexes == Select(headings, IsTopAnnex)
    requires |chapters| > 1 && annexes != [] && annexes[0].line < chapters[|chapters| - 1].line && |lines| == n
    ensures var segs := Front(chapters[0]) + SegmentsOf(chapters + annexes, n, headings);
      (forall s | s in segs :: s.end <= n) && |Contents(segs, lines)| > n
  {
    hide SegmentsOf, TopSegments, Contents;
    DisorderedSegments(chapters, annexes, n, headings);
    var last, early := chapters[|chapters| - 1], chapters[..|chapters| - 1];
    var a := Front(chapters[0]) + SegmentsOf(early, last.line, headings);
    var b := TopSegments(last, annexes[0].line, headings);
    var c := SegmentsOf(annexes, n, headings);
    FrontPartition(chapters[0]);
    PartitionConcat(Front(chapters[0]), SegmentsOf(early, last.line, headings), 0, chapters[0].line, last.line);
    PartitionContents(a, 0, last.line, lines);
    ReversedTopIsEmpty(last, annexes[0].line, headings, lines);
    PartitionContents(c, annexes[0].line, n, lines);
    ContentsConcat(b, c, lines);
    ContentsConcat(a, b + c, lines);
    AppendSegments(Front(chapters[0]), SegmentsOf(early, last.line, headings), b + c);
  }

  lemma OneTop(top: Heading, end: nat, headings: seq<Heading>)
    ensures SegmentsOf([top], end, headings) == TopSegments(top, end, headings)
  {
    assert [top][1..] == [] && SegmentsOf([], end, headings) == [];
    assert TopSegments(top, end, headings) + [] == TopSegments(top, end, headings);
  }

  // ---------- attaching headings ----------

  lemma {:induction false} BeforeCounts(headings: seq<Heading>, line: nat)
    requires Rising(headings)
    ensures forall i | 0 <= i < |headings| :: headings[i].line < line <==> i < Before(headings, line)
  {
    if headings != [] && headings[0].line < line {
      BeforeCounts(headings[1..], line);
      forall i | 0 <= i < |headings| ensures headings[i].line < line <==> i < Before(headings, line) {
        if i > 0 { assert headings[i] == headings[1..][i - 1]; }
      }
    }
  }

  /** A segment gets exactly the headings of its stretch, in order. */
  lemma AttachedAreInside(seg: Segment, headings: seq<Heading>)
    requires Rising(headings)
    ensures Inside(Attach(seg, headings).headings, seg.start, seg.end)
    ensures forall h | h in headings :: h in Attach(seg, headings).headings <==> seg.start <= h.line < seg.end
    ensures forall h | h in Attach(seg, headings).headings :: h in headings
  {
    BeforeCounts(headings, seg.start);
    BeforeCounts(headings, seg.end);
    var lo, hi := Before(headings, seg.start), Before(headings, seg.end);
    var hs := Attach(seg, headings).headings;
    if lo <= hi { assert forall k | 0 <= k < |hs| :: hs[k] == headings[lo + k]; }
    forall h | h in headings && seg.start <= h.line < seg.end ensures h in hs {
      var i :| 0 <= i < |headings| && headings[i] == h;
      assert hs[i - lo] == h;
    }
  }

  lemma {:induction false} AttachAllKeepsStretches(segs: seq<Segment>, headings: seq<Heading>)
    ensures forall i | 0 <= i < |segs| :: AttachAll(segs, headings)[i] == Attach(segs[i], headings)
  {
    hide Attach;
    if segs != [] {
      AttachAllKeepsStretches(segs[1..], headings);
      forall i | 0 <= i < |segs| ensures AttachAll(segs, headings)[i] == Attach(segs[i], headings) {
        if i > 0 {
          assert AttachAll(segs, headings)[i] == AttachAll(segs[1..], headings)[i - 1];
          assert segs[i] == segs[1..][i - 1];
        }
      }
    }
  }

  lemma {:induction false} AttachAllKeepsContents(segs: seq<Segment>, headings: seq<Heading>, lines: seq<string>)
    requires forall s | s in segs :: s.end <= |lines|
    ensures forall s | s in AttachAll(segs, headings) :: s.end <= |lines|
    ensures Contents(AttachAll(segs, headings), lines) == Contents(segs, lines)
  {
    if segs != [] {
      AttachAllKeepsContents(segs[1..], headings, lines);
      assert AttachAll(segs, headings)[1..] == AttachAll(segs[1..], headings);
    }
  }

  lemma {:induction false} AttachAllKeepsPartition(segs: seq<Segment>, headings: seq<Heading>, from: nat, to: nat)
    requires Partition(segs, from, to)
    ensures Partition(AttachAll(segs, headings), from, to)
  {
    if segs != [] {
      AttachAllKeepsPartition(segs[1..], headings, segs[0].end, to);
      assert AttachAll(segs, headings)[1..] == AttachAll(segs[1..], headings);
    }
  }

  // ---------- the theorem ----------

  function PathOf(s: Segment): string { s.relPath }

  /** A planned segment that renders and reads back faithfully. */
  ghost predicate Faithful(seg: Segment, lines: seq<string>) {
    && Renderable(seg, lines) && Unbroken(seg.title) && Inside(seg.headings, seg.start, seg.end)
    && forall h | h in seg.headings :: Unbroken(h.number) && Unbroken(h.title)
  }

  lemma {:induction false} FilesHoldRenderings(segs: seq<Segment>, lines: seq<string>)
    requires (forall s | s in segs :: Renderable(s, lines)) && DistinctBy(PathOf, segs)
    ensures forall s | s in segs ::
              && s.relPath in Files(segs, lines)
              && Files(segs, lines)[s.relPath] == Render(s, lines)
  {
    hide Render;
    if segs != [] {
      var last := |segs| - 1;
      FilesHoldRenderings(segs[..last], lines);
      forall s | s in segs
        ensures s.relPath in Files(segs, lines)
        ensures Files(segs, lines)[s.relPath] == Render(s, lines)
      {
        var i :| 0 <= i < |segs| && segs[i] == s;
        if i < last {
          assert segs[..last][i] == s;
          assert PathOf(segs[i]) != PathOf(segs[last]);
        }
      }
    }
  }

  lemma {:induction false} RecoverIsContents(segs: seq<Segment>, files: map<string, string>, lines: seq<string>)
    requires NoFenceClose(lines) && UnbrokenAll(lines)
    requires forall s | s in segs :: Faithful(s, lines)
    requires forall s | s in segs :: s.end <= |lines|
    requires forall s | s in segs ::
               Renderable(s, lines) && s.relPath in files && files[s.relPath] == Render(s, lines)
    ensures Recover(segs, files) == Contents(segs, lines)
  {
    hide Render, ExtractFenced;
    if segs != [] {
      assert segs[0] in segs && Faithful(segs[0], lines);
      RenderedReadsBack(segs[0], lines);
      RecoverIsContents(segs[1..], files, lines);
    }
  }

  lemma TitlesUnbroken(top: Heading, end: nat, headings: seq<Heading>)
    requires Unbroken(top.number) && Unbroken(top.title)
    requires Rising(headings) && forall h | h in headings :: Unbroken(h.number) && Unbroken(h.title)
    ensures forall s | s in TopSegments(top, end, headings) :: Unbroken(s.title)
  {
    hide Slugify, SubSegments;
    SubsectionsKeepOrder(headings, top.line, end);
    var subs := Subsections(headings, top.line, end);
    forall h | h in subs ensures Unbroken(h.number) && Unbroken(h.title) { assert h in headings; }
    SubTitlesUnbroken(subs, end);
    assert AllDigits(NatText(IntOf(top.number)));
  }

  lemma {:induction false} SubTitlesUnbroken(subs: seq<Heading>, end: nat)
    requires forall h | h in subs :: Unbroken(h.number) && Unbroken(h.title)
    ensures forall s | s in SubSegments(subs, end) :: Unbroken(s.title)
  {
    hide Slugify, TwoDigits;
    if subs != [] { SubTitlesUnbroken(subs[1..], end); }
  }

  lemma {:induction false} AllTitlesUnbroken(tops: seq<Heading>, n: nat, headings: seq<Heading>)
    requires forall h | h in tops :: Unbroken(h.number) && Unbroken(h.title)
    requires Rising(headings) && forall h | h in headings :: Unbroken(h.number) && Unbroken(h.title)
    ensures forall s | s in SegmentsOf(tops, n, headings) :: Unbroken(s.title)
  {
    hide TopSegments;
    if tops != [] {
      TitlesUnbroken(tops[0], if |tops| > 1 then tops[1].line else n, headings);
      AllTitlesUnbroken(tops[1..], n, headings);
    }
  }

  /** The headings and the raw text as the builder meets them. */
  ghost predicate Input(headings: seq<Heading>, rawLines: seq<string>) {
    && Detected(headings, |rawLines|)
    && UnbrokenAll(rawLines)
   
  }

  predicate Ordered(headings: seq<Heading>) {
    var chapters, annexes := Select(headings, IsChapter), Select(headings, IsTopAnnex);
    chapters != [] && annexes != [] && ChaptersFirst(chapters, annexes)
  }

  lemma UnattachedShape(n: nat, headings: seq<Heading>)
    requires Unattached(n, headings).Ok?
    ensures var chapters, annexes := Select(headings, IsChapter), Select(headings, IsTopAnnex);
      && |chapters| == 9 && |annexes| == 7
      && Unattached(n, headings).value == Front(chapters[0]) + SegmentsOf(chapters + annexes, n, headings)
  {
    hide SegmentsOf, Select;
  }

  lemma UnattachedTitles(n: nat, headings: seq<Heading>)
    requires Detected(headings, n) && Unattached(n, headings).Ok?
    ensures forall s | s in Unattached(n, headings).value :: Unbroken(s.title)
  {
    hide SegmentsOf, Select, Unattached;
    UnattachedShape(n, headings);
    SelectKeepsOrder(headings, IsChapter);
    SelectKeepsOrder(headings, IsTopAnnex);
    AllTitlesUnbroken(Select(headings, IsChapter) + Select(headings, IsTopAnnex), n, headings);
  }

  lemma OrderedContents(headings: seq<Heading>, lines: seq<string>)
    requires Detected(headings, |lines|) && Unattached(|lines|, headings).Ok? && Ordered(headings)
    ensures forall s | s in Unattached(|lines|, headings).value :: s.end <= |lines|
    ensures Contents(Unattached(|lines|, headings).value, lines) == lines
  {
    hide SegmentsOf, Unattached, Contents, Partition, Select;
    UnattachedShape(|lines|, headings);
    OrderedPlanPartitions(Select(headings, IsChapter), Select(headings, IsTopAnnex), |lines|, headings);
    PartitionContents(Unattached(|lines|, headings).value, 0, |lines|, lines);
    assert lines[0..|lines|] == lines;
  }

  lemma DisorderedContents(headings: seq<Heading>, lines: seq<string>)
    requires Detected(headings, |lines|) && Unattached(|lines|, headings).Ok? && !Ordered(headings)
    ensures forall s | s in Unattached(|lines|, headings).value :: s.end <= |lines|
    ensures |Contents(Unattached(|lines|, headings).value, lines)| > |lines|
  {
    hide SegmentsOf, Unattached, Contents, Select;
    UnattachedShape(|lines|, headings);
    var chapters, annexes := Select(headings, IsChapter), Select(headings, IsTopAnnex);
    ChapterIsNoAnnex(headings);
    assert chapters[|chapters| - 1] in chapters && annexes[0] in annexes;
    DisorderedPlanOverflows(chapters, annexes, |lines|, headings, lines);
  }

  /** The lines the unattached plan covers: all of them in order, or too many. */
  lemma UnattachedContents(headings: seq<Heading>, lines: seq<string>)
    requires Detected(headings, |lines|) && Unattached(|lines|, headings).Ok?
    ensures forall s | s in Unattached(|lines|, headings).value :: s.end <= |lines|
    ensures Contents(Unattached(|lines|, headings).value, lines) == lines <==> Ordered(headings)
  {
    hide Unattached, Contents, Ordered;
    if Ordered(headings) { OrderedContents(headings, lines); } else { DisorderedContents(headings, lines); }
  }

  /** A chapter and an annex never share a line. */
  lemma ChapterIsNoAnnex(headings: seq<Heading>)
    requires Rising(headings)
    ensures forall c, a | c in Select(headings, IsChapter) && a in Select(headings, IsTopAnnex) :: c.line != a.line
  {
    forall c, a | c in Select(headings, IsChapter) && a in Select(headings, IsTopAnnex) ensures c.line != a.line {
      SelectedKept(headings, IsChapter, c);
      SelectedKept(headings, IsTopAnnex, a);
      var i :| 0 <= i < |headings| && headings[i] == c;
      var j :| 0 <= j < |headings| && headings[j] == a;
      assert i != j;
    }
  }

  lemma {:induction false} SelectedKept(headings: seq<Heading>, keep: Heading -> bool, h: Heading)
    requires h in Select(headings, keep)
    ensures h in headings && keep(h)
  {
    SelectedFrom(headings, keep, h);
    if h in Select(headings[1..], keep) { SelectedKept(headings[1..], keep, h); }
  }

  /** Headings as detected are already in the order of their lines. */
  lemma {:induction false} RisingIsSorted(headings: seq<Heading>)
    requires Rising(headings)
    ensures Sort(LineLeq, headings) == headings
  {
    if headings != [] {
      RisingIsSorted(headings[1..]);
      assert headings == [headings[0]] + headings[1..];
    }
  }

  lemma PlanIsFaithful(headings: seq<Heading>, rawLines: seq<string>)
    requires Input(headings, rawLines) && Plan(|rawLines|, headings).Ok?
    ensures forall s | s in Plan(|rawLines|, headings).value :: Faithful(s, rawLines)
  {
    hide Unattached, Attach, AttachAll, Faithful;
    var n := |rawLines|;
    RisingIsSorted(headings);
    var segs := Unattached(n, headings).value;
    var plan := AttachAll(segs, headings);
    hide Sort;
    AttachAllKeepsStretches(segs, headings);
    forall s | s in plan ensures Faithful(s, rawLines) {
      var i :| 0 <= i < |plan| && plan[i] == s;
      assert segs[i] in segs;
      AttachedIsFaithful(headings, rawLines, segs[i]);
    }
  }

  lemma AttachedIsFaithful(headings: seq<Heading>, rawLines: seq<string>, seg: Segment)
    requires Input(headings, rawLines) && Unattached(|rawLines|, headings).Ok?
    requires seg in Unattached(|rawLines|, headings).value
    ensures Faithful(Attach(seg, headings), rawLines)
  {
    hide Unattached, Attach;
    UnattachedTitles(|rawLines|, headings);
    UnattachedContents(headings, rawLines);
    AttachedAreInside(seg, headings);
    AttachKeeps(seg, headings);
    forall h | h in Attach(seg, headings).headings ensures h.line <= |rawLines| {
      var k :| 0 <= k < |headings| && headings[k] == h;
    }
  }

  lemma AttachKeeps(seg: Segment, headings: seq<Heading>)
    ensures var s := Attach(seg, headings);
      s.relPath == seg.relPath && s.title == seg.title && s.start == seg.start && s.end == seg.end
  {}

  lemma {:induction false} ExtractedHasNoClose(lines: seq<string>, inFence: bool)
    ensures FENCE_CLOSE !in Extract(lines, inFence)
  {
    if lines != [] {
      ExtractedHasNoClose(lines[1..], true);
      ExtractedHasNoClose(lines[1..], false);
    }
  }

  /** Reading back never yields a bare closing fence. */
  lemma {:induction false} RecoveredHasNoClose(segs: seq<Segment>, files: map<string, string>)
    requires forall s | s in segs :: s.relPath in files
    ensures NoFenceClose(Recover(segs, files))
  {
    hide Extract;
    if segs != [] {
      ExtractedHasNoClose(Split(files[segs[0].relPath], '\n'), false);
      RecoveredHasNoClose(segs[1..], files);
    }
  }

  // ---------- when the output paths are distinct ----------

  predicate SameFile(a: Heading, b: Heading) { Minor(a) == Minor(b) && Slugify(a.title) == Slugify(b.title) }

  predicate IsOverview(sub: Heading) { Minor(sub) == 0 && Slugify(sub.title) == "overview" }

  /** No two subsections share number and slug, and none is named as the overview that comes before them. */
  ghost predicate SubsectionsApart(subs: seq<Heading>, overview: bool) {
    && (forall i, j | 0 <= i < j < |subs| :: !SameFile(subs[i], subs[j]))
    && (overview ==> forall i | 0 <= i < |subs| :: !IsOverview(subs[i]))
  }

  /** The subsections of chapter 9, as planned, are kept apart. */
  ghost predicate FilesApart(headings: seq<Heading>) {
    var chapters, annexes := Select(headings, IsChapter), Select(headings, IsTopAnnex);
    && |chapters| == 9 && annexes != []
    && var start, end := chapters[8].line, annexes[0].line;
       var subs := Subsections(headings, start, end);
       SubsectionsApart(subs, (if subs != [] then subs[0].line else end) > start)
  }

  lemma TwoDigitsApart(m: nat, n: nat)
    requires TwoDigits(m) == TwoDigits(n)
    ensures m == n
  {
    TwoDigitsRead(m);
    TwoDigitsRead(n);
  }

  lemma TwoDigitsRead(n: nat)
    ensures '-' !in TwoDigits(n) && AllDigits(TwoDigits(n)) && NatValue(TwoDigits(n)) == n
  {
    NatRoundTrip(n);
    NumeralHasNo(n, '-');
    if n < 10 {
      var s := TwoDigits(n);
      assert s[..1] == "0" && "0"[..0] == "" && NatValue("0") == 0;
    }
  }

  lemma SubPathsApart(m: nat, a: string, n: nat, b: string)
    ensures SubPath(m, a) == SubPath(n, b) <==> m == n && a == b
  {
    hide TwoDigits;
    var front := CHAPTER_9_DIR + "/09-";
    var x, y := TwoDigits(m) + ['-'] + (a + ".md"), TwoDigits(n) + ['-'] + (b + ".md");
    assert SubPath(m, a) == front + x && SubPath(n, b) == front + y;
    if SubPath(m, a) == SubPath(n, b) {
      assert x == (front + x)[|front|..] && y == (front + y)[|front|..];
      TwoDigitsRead(m);
      TwoDigitsRead(n);
      CutIsUnique(TwoDigits(m), a + ".md", TwoDigits(n), b + ".md", '-');
      TwoDigitsApart(m, n);
      assert a == (a + ".md")[..|a + ".md"| - 3] && b == (b + ".md")[..|b + ".md"| - 3];
    }
  }

  lemma {:induction false} SubSegmentsPaths(subs: seq<Heading>, end: nat)
    ensures |SubSegments(subs, end)| == |subs|
    ensures forall i | 0 <= i < |subs| ::
              SubSegments(subs, end)[i].relPath == SubPath(Minor(subs[i]), Slugify(subs[i].title))
  {
    hide TwoDigits, Slugify;
    if subs != [] {
      SubSegmentsPaths(subs[1..], end);
      forall i | 0 < i < |subs|
        ensures SubSegments(subs, end)[i].relPath == SubPath(Minor(subs[i]), Slugify(subs[i].title))
      {
        assert subs[i] == subs[1..][i - 1] && SubSegments(subs, end)[i] == SubSegments(subs[1..], end)[i - 1];
      }
    }
  }

  lemma SubSegmentsApart(subs: seq<Heading>, end: nat)
    ensures DistinctBy(PathOf, SubSegments(subs, end))
       <==> forall i, j | 0 <= i < j < |subs| :: !SameFile(subs[i], subs[j])
  {
    hide SubSegments, Minor, Slugify, SubPath;
    var segs := SubSegments(subs, end);
    SubSegmentsPaths(subs, end);
    forall i, j | 0 <= i < j < |subs| ensures PathOf(segs[i]) == PathOf(segs[j]) <==> SameFile(subs[i], subs[j]) {
      SubPathsApart(Minor(subs[i]), Slugify(subs[i].title), Minor(subs[j]), Slugify(subs[j].title));
    }
  }

  lemma DistinctConcat(a: seq<Segment>, b: seq<Segment>)
    ensures DistinctBy(PathOf, a + b)
       <==> DistinctBy(PathOf, a) && DistinctBy(PathOf, b) && forall s, t | s in a && t in b :: PathOf(s) != PathOf(t)
  {
    var whole := a + b;
    assert forall i | 0 <= i < |a| :: whole[i] == a[i];
    assert forall i | 0 <= i < |b| :: whole[|a| + i] == b[i];
    if DistinctBy(PathOf, whole) {
      forall i, j | 0 <= i < j < |b| ensures PathOf(b[i]) != PathOf(b[j]) {
        assert PathOf(whole[|a| + i]) != PathOf(whole[|a| + j]);
      }
      forall s, t | s in a && t in b ensures PathOf(s) != PathOf(t) {
        var i :| 0 <= i < |a| && a[i] == s;
        var j :| 0 <= j < |b| && b[j] == t;
        assert PathOf(whole[i]) != PathOf(whole[|a| + j]);
      }
    }
  }

  /** Where a path stands among the planned files: the front matter, a chapter, or an annex. */
  function Place(path: string): int {
    if |path| > 1 && path[0] == '0' then path[1] as int - '0' as int
    else if |path| > 6 && path[0] == 'a' then path[6] as int - 'a' as int + 10
    else -1
  }

  lemma ChapterPlace(n: nat, rest: string)
    requires n < 10
    ensures Place(TwoDigits(n) + rest) == n
  {
    var path := TwoDigits(n) + rest;
    assert path[0] == '0' && path[1] == DigitChar(n);
  }

  lemma AnnexPlace(letter: char, rest: string)
    requires 'A' <= letter <= 'G'
    ensures Place("annex-" + Lower([letter]) + rest) == letter as int - 'A' as int + 10
  {
    var path := "annex-" + Lower([letter]) + rest;
    assert path[0] == 'a' && path[6] == Lower([letter])[0];
  }

  lemma SubPlace(minor: nat, slug: string)
    ensures Place(SubPath(minor, slug)) == 9
  {
    assert SubPath(minor, slug)[0] == '0' && SubPath(minor, slug)[1] == '9';
  }

  /** The expected heading of a place. */
  predicate StandsAt(top: Heading, place: int) {
    if place < 10 then top.kind == Num && 0 < place && IntOf(top.number) == place
    else top.kind == Annex && place < 17 && top.number == ["ABCDEFG"[place - 10]]
  }

  lemma LetterOf(place: int)
    requires 10 <= place < 17
    ensures 'A' <= "ABCDEFG"[place - 10] <= 'G' && "ABCDEFG"[place - 10] as int == 'A' as int + place - 10
  {}

  lemma TopPlace(top: Heading, place: int, end: nat, headings: seq<Heading>)
    requires StandsAt(top, place)
    ensures forall s | s in TopSegments(top, end, headings) :: Place(PathOf(s)) == place
    ensures place != 9 ==> DistinctBy(PathOf, TopSegments(top, end, headings))
  {
    hide TwoDigits, Lower, Slugify, Place, SplitChapter9;
    if place == 9 {
      SplitPlaces(top, top.line, end, headings);
    } else if place < 9 {
      ChapterPlace(place, "-" + Slugify(top.title) + ".md");
      assert TwoDigits(place) + "-" + Slugify(top.title) + ".md"
          == TwoDigits(place) + ("-" + Slugify(top.title) + ".md");
    } else {
      LetterOf(place);
      AnnexPlace("ABCDEFG"[place - 10], "-" + Slugify(top.title) + ".md");
      assert "annex-" + Lower(top.number) + "-" + Slugify(top.title) + ".md"
          == "annex-" + Lower(top.number) + ("-" + Slugify(top.title) + ".md");
    }
  }

  lemma SplitPlaces(top: Heading, start: nat, end: nat, headings: seq<Heading>)
    ensures forall s | s in SplitChapter9(top, start, end, headings) :: Place(PathOf(s)) == 9
  {
    hide SubSegments, Subsections, Slugify, TwoDigits, Place, Minor;
    var subs := Subsections(headings, start, end);
    OverviewIsSub();
    SubPlace(0, "overview");
    SubSegmentsPaths(subs, end);
    forall s | s in SubSegments(subs, end) ensures Place(PathOf(s)) == 9 {
      var i :| 0 <= i < |subs| && SubSegments(subs, end)[i] == s;
      SubPlace(Minor(subs[i]), Slugify(subs[i].title));
    }
  }

  lemma OverviewIsSub()
    ensures CHAPTER_9_DIR + "/09-00-overview.md" == SubPath(0, "overview")
  {
    assert TwoDigits(0) == "00";
    assert "/09-00-overview.md" == "/09-" + "00" + "-" + "overview" + ".md";
  }

  lemma OverviewApart(subs: seq<Heading>, end: nat)
    ensures (forall s | s in SubSegments(subs, end) :: PathOf(s) != CHAPTER_9_DIR + "/09-00-overview.md")
       <==> forall i | 0 <= i < |subs| :: !IsOverview(subs[i])
  {
    hide SubSegments, Slugify, Minor, SubPath;
    var segs := SubSegments(subs, end);
    SubSegmentsPaths(subs, end);
    OverviewIsSub();
    forall i | 0 <= i < |subs| ensures PathOf(segs[i]) == SubPath(0, "overview") <==> IsOverview(subs[i]) {
      SubPathsApart(Minor(subs[i]), Slugify(subs[i].title), 0, "overview");
    }
    assert forall i | 0 <= i < |subs| :: segs[i] in segs;
  }

  lemma OneIsDistinct(seg: Segment)
    ensures DistinctBy(PathOf, [seg])
  {}

  lemma SplitApart(top: Heading, start: nat, end: nat, headings: seq<Heading>)
    ensures var subs := Subsections(headings, start, end);
      DistinctBy(PathOf, SplitChapter9(top, start, end, headings))
      <==> SubsectionsApart(subs, (if subs != [] then subs[0].line else end) > start)
  {
    hide SubSegments, Subsections, DistinctBy, IsOverview, SameFile;
    var subs := Subsections(headings, start, end);
    var firstSub, segs := if subs != [] then subs[0].line else end, SubSegments(subs, end);
    SubSegmentsApart(subs, end);
    OverviewApart(subs, end);
    if firstSub > start {
      var overview :=
        Segment(CHAPTER_9_DIR + "/09-00-overview.md", SECTION_MARK + "9. " + top.title, start, firstSub, []);
      assert SplitChapter9(top, start, end, headings) == [overview] + segs;
      DistinctConcat([overview], segs);
      assert overview in [overview] && PathOf(overview) == overview.relPath;
      OneIsDistinct(overview);
    } else {
      assert SplitChapter9(top, start, end, headings) == segs;
    }
  }

  /** From a place on, the files are distinct exactly when those of chapter 9 are. */
  lemma {:induction false} SegmentsApart(tops: seq<Heading>, place: int, n: nat, headings: seq<Heading>)
    requires |tops| == 17 - place && place > 0 && forall i | 0 <= i < |tops| :: StandsAt(tops[i], place + i)
    ensures forall s | s in SegmentsOf(tops, n, headings) :: Place(PathOf(s)) >= place
    ensures DistinctBy(PathOf, SegmentsOf(tops, n, headings))
       <==> (place <= 9 ==> DistinctBy(PathOf, TopSegments(tops[9 - place], tops[10 - place].line, headings)))
  {
    hide TopSegments, Place, StandsAt;
    if tops != [] {
      var end := if |tops| > 1 then tops[1].line else n;
      var first, rest := TopSegments(tops[0], end, headings), SegmentsOf(tops[1..], n, headings);
      assert StandsAt(tops[0], place + 0);
      TopPlace(tops[0], place, end, headings);
      forall i | 0 <= i < |tops[1..]| ensures StandsAt(tops[1..][i], place + 1 + i) {
        assert StandsAt(tops[i + 1], place + (i + 1));
      }
      SegmentsApart(tops[1..], place + 1, n, headings);
      DistinctConcat(first, rest);
    }
  }

  lemma AttachedPaths(segs: seq<Segment>, headings: seq<Heading>)
    ensures DistinctBy(PathOf, AttachAll(segs, headings)) <==> DistinctBy(PathOf, segs)
  {
    hide Attach;
    AttachAllKeepsStretches(segs, headings);
    forall i | 0 <= i < |segs| ensures PathOf(AttachAll(segs, headings)[i]) == PathOf(segs[i]) {
      AttachKeeps(segs[i], headings);
    }
  }

  lemma PlannedTops(n: nat, headings: seq<Heading>)
    requires Unattached(n, headings).Ok?
    ensures var tops := Select(headings, IsChapter) + Select(headings, IsTopAnnex);
      && |Select(headings, IsChapter)| == 9 && |Select(headings, IsTopAnnex)| == 7
      && forall i | 0 <= i < |tops| :: StandsAt(tops[i], 1 + i)
  {
    hide IntOf, SegmentsOf;
    var chapters, annexes := Select(headings, IsChapter), Select(headings, IsTopAnnex);
    forall i | 0 <= i < 16 ensures StandsAt((chapters + annexes)[i], 1 + i) {
      if i < 9 {
        assert chapters[i] in chapters;
        SelectedKept(headings, IsChapter, chapters[i]);
      } else {
        assert annexes[i - 9] in annexes;
        SelectedKept(headings, IsTopAnnex, annexes[i - 9]);
      }
    }
  }

  /** The planned files are distinct exactly when those of chapter 9 are kept apart by number and slug. */
  lemma PathsAreDistinctExactly(n: nat, headings: seq<Heading>)
    requires Plan(n, headings).Ok?
    ensures DistinctBy(PathOf, Plan(n, headings).value) <==> FilesApart(headings)
  {
    hide SegmentsOf, TopSegments, AttachAll, Subsections, StandsAt, SubsectionsApart, Place, Select, SplitChapter9;
    UnattachedShape(n, headings);
    PlannedTops(n, headings);
    var chapters, annexes := Select(headings, IsChapter), Select(headings, IsTopAnnex);
    var tops := chapters + annexes;
    AttachedPaths(Unattached(n, headings).value, Sort(LineLeq, headings));
    SegmentsApart(tops, 1, n, headings);
    DistinctConcat(Front(chapters[0]), SegmentsOf(tops, n, headings));
    FrontPlace(chapters[0]);
    assert StandsAt(tops[8], 1 + 8);
    NinthIsSplit(tops[8], annexes[0].line, headings);
    SplitApart(tops[8], tops[8].line, annexes[0].line, headings);
  }

  lemma FrontPlace(first: Heading)
    ensures DistinctBy(PathOf, Front(first)) && forall s | s in Front(first) :: Place(PathOf(s)) == 0
  {}

  lemma NinthIsSplit(top: Heading, end: nat, headings: seq<Heading>)
    requires StandsAt(top, 9)
    ensures TopSegments(top, end, headings) == SplitChapter9(top, top.line, end, headings)
  {}

  /**
   When the subsections of chapter 9 are kept apart, so that every file has its own path, the fenced text of
   all files gives back the raw lines exactly when these hold no bare closing fence and the chapters come
   before the annexes: then the run-time assertion cannot fail, and otherwise it always does.
   */
  lemma RoundTripExactly(headings: seq<Heading>, rawLines: seq<string>)
    requires Input(headings, rawLines) && Plan(|rawLines|, headings).Ok?
    requires FilesApart(headings)
    ensures var plan := Plan(|rawLines|, headings).value;
      && (forall s | s in plan :: Renderable(s, rawLines))
      && (forall s | s in plan :: s.relPath in Files(plan, rawLines))
      && (Recover(plan, Files(plan, rawLines)) == rawLines <==> NoFenceClose(rawLines) && Ordered(headings))
  {
    hide Unattached, Attach, Render, Files, Recover, Contents, FilesApart;
    var n := |rawLines|;
    PathsAreDistinctExactly(n, headings);
    RisingIsSorted(headings);
    var plan := Plan(n, headings).value;
    PlanIsFaithful(headings, rawLines);
    FilesHoldRenderings(plan, rawLines);
    RecoveredHasNoClose(plan, Files(plan, rawLines));
    if NoFenceClose(rawLines) {
      RecoverIsContents(plan, Files(plan, rawLines), rawLines);
      UnattachedContents(headings, rawLines);
      AttachAllKeepsContents(Unattached(n, headings).value, headings, rawLines);
    }
  }

  /** In order, the planned segments partition the lines and every heading lies in exactly one of them. */
  lemma OrderedPlan(headings: seq<Heading>, n: nat, h: Heading) returns (i: nat)
    requires Detected(headings, n) && Plan(n, headings).Ok? && Ordered(headings) && h in headings
    ensures var plan := Plan(n, headings).value;
      && Partition(plan, 0, n)
      && i < |plan| && h in plan[i].headings
      && forall j | 0 <= j < |plan| && j != i :: h !in plan[j].headings
  {
    hide Unattached, Attach, Partition;
    var segs := Unattached(n, headings).value;
    RisingIsSorted(headings);
    var plan := Plan(n, headings).value;
    UnattachedShape(n, headings);
    OrderedPlanPartitions(Select(headings, IsChapter), Select(headings, IsTopAnnex), n, headings);
    AttachAllKeepsPartition(segs, headings, 0, n);
    AttachAllKeepsStretches(segs, headings);
    var k :| 0 <= k < |headings| && headings[k] == h;
    i := Holder(plan, 0, n, h.line);
    forall j | 0 <= j < |plan| ensures h in plan[j].headings <==> plan[j].start <= h.line < plan[j].end {
      AttachedAreInside(segs[j], headings);
      AttachKeeps(segs[j], headings);
    }
  }

  lemma {:induction false} Holder(segs: seq<Segment>, from: nat, to: nat, line: nat) returns (i: nat)
    requires Partition(segs, from, to) && from <= line < to
    ensures i < |segs| && segs[i].start <= line < segs[i].end
    ensures forall j | 0 <= j < |segs| && j != i :: !(segs[j].start <= line < segs[j].end)
  {
    PartitionBounds(segs[1..], segs[0].end, to);
    if line < segs[0].end {
      i := 0;
      forall j | 0 < j < |segs| ensures line < segs[j].start { assert segs[j] in segs[1..]; }
    } else {
      var k := Holder(segs[1..], segs[0].end, to, line);
      i := k + 1;
      forall j | 0 <= j < |segs| && j != i ensures !(segs[j].start <= line < segs[j].end) {
        if j > 0 { assert segs[j] == segs[1..][j - 1]; }
      }
    }
  }
}
