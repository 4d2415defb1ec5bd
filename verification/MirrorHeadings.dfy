/**
 What stands around the fenced text of the specification mirror (scripts/spec/build_av2_mirror.py): the
 anchors that section links point to, the heading lines, and the titles and names of the files.
 */
module MirrorHeadings {
  import opened Wrappers
  import opened Ordering
  import opened Text
  import opened Numerals
  import opened SpecMirror

  // ---------- slugs ----------

  predicate IsWordChar(c: char) { IsLower(c) || IsDigit(c) }

  predicate IsWord(w: string) { w != "" && forall c | c in w :: IsWordChar(c) }

  /** A char between words is skipped, and a word that ends is taken whole. */
  lemma GapIsSkipped(c: char, rest: string)
    requires !IsWordChar(c)
    ensures Words([c] + rest) == Words(rest)
  {
    assert ([c] + rest)[1..] == rest;
  }

  lemma {:induction false} WordIsTaken(w: string, rest: string)
    requires IsWord(w) && (rest == "" || !IsWordChar(rest[0]))
    ensures Words(w + rest) == [w] + Words(rest)
  {
    var s := w + rest;
    assert w[0] in w && s[1..] == w[1..] + rest;
    if |w| == 1 {
      assert w == [w[0]] && w[1..] + rest == rest;
    } else {
      assert forall c | c in w[1..] :: c in w;
      WordIsTaken(w[1..], rest);
      assert s[1] == w[1] && w[1] in w;
      assert ([w[1..]] + Words(rest))[1..] == Words(rest) && [w[0]] + w[1..] == w;
    }
  }

  lemma {:induction false} WordsAreWords(s: string)
    ensures forall w | w in Words(s) :: IsWord(w)
  {
    if s != "" {
      WordsAreWords(s[1..]);
      var rest := Words(s[1..]);
      if rest != [] { assert rest[0] in rest; }
    }
  }

  /** The words of a title between any gaps are its slug, joined by dashes. */
  lemma {:induction false} SlugOfWords(front: string, parts: seq<(string, string)>)
    requires forall c | c in front :: !IsWordChar(c)
    requires forall p | p in parts :: IsWord(p.0) && forall c | c in p.1 :: !IsWordChar(c)
    requires forall i | 0 <= i < |parts| - 1 :: parts[i].1 != ""
    ensures Words(front + Spaced(parts)) == WordsOf(parts)
    decreases |parts|, |front|
  {
    if front != "" {
      assert front[0] in front && forall c | c in front[1..] :: c in front;
      GapIsSkipped(front[0], front[1..] + Spaced(parts));
      assert front + Spaced(parts) == [front[0]] + (front[1..] + Spaced(parts));
      SlugOfWords(front[1..], parts);
    } else if parts != [] {
      var (w, gap) := parts[0];
      var rest := gap + Spaced(parts[1..]);
      assert parts[0] in parts && forall p | p in parts[1..] :: p in parts;
      assert gap == "" ==> parts[1..] == [];
      assert gap != "" ==> rest[0] == gap[0] && gap[0] in gap;
      WordIsTaken(w, rest);
      assert front + Spaced(parts) == w + rest;
      SlugOfWords(gap, parts[1..]);
    } else {
      assert front + Spaced(parts) == "";
    }
  }

  /** Words, each with the gap behind it. */
  function Spaced(parts: seq<(string, string)>): string {
    if parts == [] then "" else parts[0].0 + (parts[0].1 + Spaced(parts[1..]))
  }

  function WordsOf(parts: seq<(string, string)>): seq<string> {
    if parts == [] then [] else [parts[0].0] + WordsOf(parts[1..])
  }

  lemma {:induction false} LowerIs(s: string)
    ensures |Lower(s)| == |s|
    ensures forall i | 0 <= i < |s| :: 'A' <= s[i] <= 'Z' ==> Lower(s)[i] as int == s[i] as int + 32
    ensures forall i | 0 <= i < |s| :: !('A' <= s[i] <= 'Z') ==> Lower(s)[i] == s[i]
  {
    if s != "" { LowerIs(s[1..]); }
  }

  // ---------- anchors ----------

  predicate IsDotted(s: string) { forall c | c in s :: IsDigit(c) || c == '.' }

  /** Headings as the source's patterns find them: digits and dots, or a letter before them. */
  predicate WellNumbered(h: Heading) {
    match h.kind
    case Num => h.number != "" && IsDigit(h.number[0]) && IsDotted(h.number)
    case Annex =>
      && h.number != "" && 'A' <= h.number[0] <= 'Z' && IsDotted(h.number[1..])
      && (|h.number| == 1 || h.number[1] == '.')
    case Other => h.number == ""
  }

  lemma {:induction false} PieceHas(s: string, piece: string, c: char)
    requires piece in Split(s, '.') && c in piece
    ensures c in s
  {
    if s != "" {
      var rest := Split(s[1..], '.');
      if piece in rest { PieceHas(s[1..], piece, c); } else if s[0] != '.' && c in rest[0] {
        PieceHas(s[1..], rest[0], c);
      }
    }
  }

  lemma LowerTells(a: string, b: string)
    requires a != "" && b != "" && 'A' <= a[0] <= 'Z' && 'A' <= b[0] <= 'Z' && IsDotted(a[1..]) && IsDotted(b[1..])
    requires Lower(a) == Lower(b)
    ensures a == b
  {
    LowerIs(a);
    LowerIs(b);
    forall i | 0 <= i < |a| ensures a[i] == b[i] {
      if i > 0 {
        assert a[i] == a[1..][i - 1] && a[1..][i - 1] in a[1..];
        assert b[i] == b[1..][i - 1] && b[1..][i - 1] in b[1..];
      }
    }
  }

  /** The parts an anchor is made of. */
  function AnchorParts(h: Heading): seq<string> {
    match h.kind
    case Num => Split(h.number, '.')
    case Annex => ["annex"] + Split(Lower(h.number), '.')
    case Other => Words(Lower(h.title))
  }

  lemma NoDash(h: Heading)
    requires WellNumbered(h)
    ensures '-' !in h.number && '-' !in Lower(h.number)
  {
    LowerIs(h.number);
    forall i | 0 <= i < |h.number| ensures h.number[i] != '-' && Lower(h.number)[i] != '-' {
      if i > 0 && h.kind.Annex? { assert h.number[i] == h.number[1..][i - 1] && h.number[1..][i - 1] in h.number[1..]; }
      assert h.number[i] in h.number;
    }
  }

  lemma AnchorIsJoined(h: Heading)
    requires WellNumbered(h)
    ensures Anchor(h) == "s-" + Join(AnchorParts(h), "-")
    ensures forall p | p in AnchorParts(h) :: '-' !in p
  {
    NoDash(h);
    match h.kind
    case Num => forall p | p in Split(h.number, '.') ensures '-' !in p { if '-' in p { PieceHas(h.number, p, '-'); } }
    case Annex =>
      var parts := Split(Lower(h.number), '.');
      forall p | p in parts ensures '-' !in p { if '-' in p { PieceHas(Lower(h.number), p, '-'); } }
      JoinConcat(["annex"], parts, "-");
      assert "s-annex-" + Join(parts, "-") == "s-" + ("annex" + "-" + Join(parts, "-"));
    case Other =>
      WordsAreWords(Lower(h.title));
      forall w | w in AnchorParts(h) ensures '-' !in w { assert IsWord(w) && !IsWordChar('-'); }
  }

  /** Two anchors are equal exactly when their parts are, but for a title without a word. */
  lemma AnchorsMeet(a: Heading, b: Heading)
    requires WellNumbered(a) && WellNumbered(b)
    ensures Anchor(a) == Anchor(b) <==> AnchorParts(a) == AnchorParts(b)
  {
    hide Anchor, AnchorParts;
    AnchorIsJoined(a);
    AnchorIsJoined(b);
    var p, q := AnchorParts(a), AnchorParts(b);
    if Anchor(a) == Anchor(b) {
      assert Join(p, "-") == ("s-" + Join(p, "-"))[2..] && Join(q, "-") == ("s-" + Join(q, "-"))[2..];
      PartsTell(a);
      PartsTell(b);
      if p != [] { SplitJoin(p, '-'); }
      if q != [] { SplitJoin(q, '-'); }
    }
  }

  lemma PartsTell(h: Heading)
    requires WellNumbered(h)
    ensures AnchorParts(h) == [] <==> Join(AnchorParts(h), "-") == ""
  {
    if h.kind.Other? {
      WordsAreWords(Lower(h.title));
      var parts := AnchorParts(h);
      if parts != [] { assert parts[0] in parts; }
    } else if h.kind.Num? {
      JoinSplit(h.number, '.');
      DashedFull(h.number);
    }
  }

  lemma DashedFull(number: string)
    requires number != ""
    ensures Dashed(number) != ""
  {
    var parts := Split(number, '.');
    JoinSplit(number, '.');
    if |parts| == 1 { assert Join(parts, ".") == parts[0]; }
  }

  lemma AnnexParts(h: Heading)
    requires WellNumbered(h) && h.kind.Annex?
    ensures AnchorParts(h)[0] == "annex" && AnchorParts(h)[1..] == Split(Lower(h.number), '.')
    ensures Join(AnchorParts(h)[1..], ".") == Lower(h.number)
  {
    JoinSplit(Lower(h.number), '.');
  }

  lemma FirstPart(h: Heading)
    requires WellNumbered(h) && h.kind.Num?
    ensures AnchorParts(h)[0] != "" && AnchorParts(h)[0][0] == h.number[0]
  {}

  /** Numbered headings and annexes share an anchor only with themselves. */
  lemma NumbersHaveTheirAnchor(a: Heading, b: Heading)
    requires WellNumbered(a) && WellNumbered(b) && !a.kind.Other? && !b.kind.Other?
    ensures Anchor(a) == Anchor(b) <==> a.kind == b.kind && a.number == b.number
  {
    AnchorsMeet(a, b);
    if Anchor(a) == Anchor(b) {
      if a.kind.Num? { FirstPart(a); }
      if b.kind.Num? { FirstPart(b); }
      hide Anchor, Lower;
      if a.kind.Num? {
        JoinSplit(a.number, '.');
        JoinSplit(b.number, '.');
      } else {
        AnnexParts(a);
        AnnexParts(b);
        LowerTells(a.number, b.number);
      }
    }
  }

  // ---------- heading lines ----------

  /** A heading's level is one more than the parts of its number, and at most six. */
  function Level(h: Heading): nat { if Components(h) + 1 <= 6 then Components(h) + 1 else 6 }

  lemma ComponentsAre(h: Heading, parts: seq<string>)
    requires parts != [] && h.number == Join(parts, ".") && forall p | p in parts :: p != "" && '.' !in p
    ensures Components(h) == |parts|
  {
    SplitJoin(parts, '.');
    assert parts[0] in parts;
  }

  /** The number sign ends at the first blank: it tells the level, and the text stands behind it. */
  lemma LinesTell(m: nat, s: string, n: nat, t: string)
    requires Hashes(m) + " " + s == Hashes(n) + " " + t
    ensures m == n && s == t
  {
    assert Hashes(m) + [' '] + s == Hashes(m) + " " + s && Hashes(n) + [' '] + t == Hashes(n) + " " + t;
    CutIsUnique(Hashes(m), s, Hashes(n), t, ' ');
  }

  lemma HeadingLineIs(h: Heading)
    ensures HeadingLine(h) == Hashes(Level(h)) + " " + HeadingText(h)
  {
    hide HeadingText, Components;
  }

  /** A heading line gives back its level, and among headings of one kind its number and title. */
  lemma HeadingLinesTell(a: Heading, b: Heading)
    requires WellNumbered(a) && WellNumbered(b) && HeadingLine(a) == HeadingLine(b)
    ensures Level(a) == Level(b) && HeadingText(a) == HeadingText(b)
    ensures a.kind == b.kind ==> a.number == b.number && a.title == b.title
    ensures !a.kind.Other? && !b.kind.Other? ==> a.kind == b.kind
  {
    hide HeadingText, HeadingLine, Level;
    HeadingLineIs(a);
    HeadingLineIs(b);
    LinesTell(Level(a), HeadingText(a), Level(b), HeadingText(b));
    TextsTell(a, b);
  }

  lemma TextsTell(a: Heading, b: Heading)
    requires WellNumbered(a) && WellNumbered(b) && HeadingText(a) == HeadingText(b)
    ensures a.kind == b.kind ==> a.number == b.number && a.title == b.title
    ensures !a.kind.Other? && !b.kind.Other? ==> a.kind == b.kind
  {
    var s, t := HeadingText(a), HeadingText(b);
    if !a.kind.Other? && !b.kind.Other? {
      assert s[0] == if a.kind.Num? then '§' else 'A';
      assert t[0] == if b.kind.Num? then '§' else 'A';
      NumberHasNo(a);
      NumberHasNo(b);
      if a.kind.Num? {
        assert s[2..] == a.number + [' '] + a.title && t[2..] == b.number + [' '] + b.title;
        CutIsUnique(a.number, a.title, b.number, b.title, ' ');
      } else {
        AnnexTextsTell(a, b);
      }
    }
  }

  lemma NumberHasNo(h: Heading)
    requires WellNumbered(h)
    ensures ' ' !in h.number && ':' !in h.number
  {
    forall i | 0 <= i < |h.number| ensures h.number[i] != ' ' && h.number[i] != ':' {
      if i > 0 && h.kind.Annex? { assert h.number[i] == h.number[1..][i - 1] && h.number[1..][i - 1] in h.number[1..]; }
      assert h.number[i] in h.number;
    }
  }

  /** Behind the word `Annex`: the number, up to a blank when it has a dot and up to a colon when it has none. */
  function AnnexTail(h: Heading): string { h.number + (if '.' in h.number then " " else ": ") + h.title }

  lemma AnnexTextsTell(a: Heading, b: Heading)
    requires a.kind.Annex? && b.kind.Annex? && WellNumbered(a) && WellNumbered(b) && HeadingText(a) == HeadingText(b)
    ensures a.number == b.number && a.title == b.title
  {
    var s, t := AnnexTail(a), AnnexTail(b);
    assert HeadingText(a) == "Annex " + s && HeadingText(b) == "Annex " + t;
    assert s == ("Annex " + s)[6..] && t == ("Annex " + t)[6..];
    NumberHasNo(a);
    NumberHasNo(b);
    AnnexCut(a);
    AnnexCut(b);
    if '.' in a.number && '.' in b.number {
      CutIsUnique(a.number, a.title, b.number, b.title, ' ');
    } else if '.' !in a.number && '.' !in b.number {
      CutIsUnique(a.number, " " + a.title, b.number, " " + b.title, ':');
      assert a.title == (" " + a.title)[1..] && b.title == (" " + b.title)[1..];
    }
  }

  lemma AnnexCut(h: Heading)
    requires h.kind.Annex? && WellNumbered(h)
    ensures '.' in h.number ==> AnnexTail(h) == h.number + [' '] + h.title && AnnexTail(h)[1] != ':'
    ensures '.' !in h.number ==>
              AnnexTail(h) == h.number + [':'] + (" " + h.title) && |h.number| == 1 && AnnexTail(h)[1] == ':'
  {
    NumberHasNo(h);
    if '.' in h.number {
      assert |h.number| > 1 && AnnexTail(h)[1] == h.number[1] && h.number[1] in h.number;
    } else {
      AnnexLetter(h);
    }
  }

  lemma AnnexLetter(h: Heading)
    requires h.kind.Annex? && WellNumbered(h) && '.' !in h.number
    ensures |h.number| == 1
  {
  }

  // ---------- where the headings stand ----------

  /** The five lines before a heading's text: its anchor, its heading line, and the opening fence. */
  function Above(h: Heading): seq<string> {
    ["<a id=\"" + Anchor(h) + "\"></a>", "", HeadingLine(h), "", FENCE_OPEN]
  }

  lemma BehindHead(head: seq<string>, a: seq<string>, b: seq<string>, c: seq<string>, d: seq<string>, e: seq<string>)
    ensures head + (a + b + c + d + e) == head + a + b + c + d + e
  {}

  lemma FirstSection(hs: seq<Heading>, end: nat, lines: seq<string>)
    requires end <= |lines| && (forall h | h in hs :: h.line <= |lines|) && hs != []
    ensures Sections(hs, end, lines)
         == [] + Above(hs[0]) + Slice(lines, hs[0].line, if |hs| > 1 then hs[1].line else end)
            + [FENCE_CLOSE, ""] + Sections(hs[1..], end, lines)
  {
    hide Anchor, HeadingLine, Slice;
  }

  lemma {:induction false} SectionStands(hs: seq<Heading>, end: nat, lines: seq<string>, i: nat)
    returns (before: seq<string>, after: seq<string>)
    requires end <= |lines| && (forall h | h in hs :: h.line <= |lines|) && i < |hs|
    ensures Sections(hs, end, lines)
         == before + Above(hs[i]) + Slice(lines, hs[i].line, if i + 1 < |hs| then hs[i + 1].line else end)
            + [FENCE_CLOSE, ""] + after
  {
    hide Anchor, HeadingLine, Slice, Fence;
    if i == 0 {
      before, after := [], Sections(hs[1..], end, lines);
      FirstSection(hs, end, lines);
    } else {
      var front;
      front, after := SectionStands(hs[1..], end, lines, i - 1);
      assert hs[1..][i - 1] == hs[i] && (i + 1 < |hs| ==> hs[1..][i] == hs[i + 1]);
      var head := ["<a id=\"" + Anchor(hs[0]) + "\"></a>", "", HeadingLine(hs[0]), ""]
        + Fence(lines, hs[0].line, hs[1].line);
      before := head + front;
      BehindHead(head, front, Above(hs[i]),
                 Slice(lines, hs[i].line, if i + 1 < |hs| then hs[i + 1].line else end), [FENCE_CLOSE, ""], after);
    }
  }

  /** In a rendered file every heading stands, with its anchor, right above the fence that holds its lines up
      to the next heading, and the file begins with its title and the notice. */
  lemma HeadingStandsAbove(seg: Segment, lines: seq<string>, notice: string, i: nat)
    returns (before: seq<string>, after: seq<string>)
    requires Renderable(seg, lines) && i < |seg.headings|
    ensures var hs := seg.headings;
      RenderLines(seg, lines, notice)
      == before + Above(hs[i]) + Slice(lines, hs[i].line, if i + 1 < |hs| then hs[i + 1].line else seg.end)
         + [FENCE_CLOSE, ""] + after
    ensures |before| >= 4 && before[..4] == ["# AV2 v1.0.0 — " + seg.title, "", notice, ""]
  {
    hide Sections, Above, Slice;
    var front;
    front, after := SectionStands(seg.headings, seg.end, lines, i);
    var hs := seg.headings;
    var first := if hs != [] then hs[0].line else seg.end;
    before := ["# AV2 v1.0.0 — " + seg.title, "", notice, ""]
      + (if first > seg.start then Fence(lines, seg.start, first) else []) + front;
  }

  // ---------- titles and names of the files ----------

  lemma {:induction false} SubTitles(subs: seq<Heading>, end: nat)
    ensures |SubSegments(subs, end)| == |subs|
    ensures forall i | 0 <= i < |subs| && subs[i].kind.Num? :: SubSegments(subs, end)[i].title == HeadingText(subs[i])
  {
    hide Slugify, TwoDigits;
    if subs != [] {
      SubTitles(subs[1..], end);
      forall i | 0 < i < |subs| && subs[i].kind.Num?
        ensures SubSegments(subs, end)[i].title == HeadingText(subs[i])
      {
        assert subs[i] == subs[1..][i - 1] && SubSegments(subs, end)[i] == SubSegments(subs[1..], end)[i - 1];
      }
    }
  }

  /** A file's title is the text of the heading it begins with, a chapter's number with a dot. */
  lemma FileTitles(top: Heading, place: int, end: nat, headings: seq<Heading>)
    requires StandsAt(top, place) && place != 9
    ensures |TopSegments(top, end, headings)| == 1
    ensures TopSegments(top, end, headings)[0].title
         == HeadingText(if top.kind.Num? then top.(number := NatText(IntOf(top.number)) + ".") else top)
    ensures TopSegments(top, end, headings)[0].start == top.line
  {
    hide Slugify, Lower, NatText, IntOf;
  }

  /** The beginning of a file's name at a place. */
  function NameFront(place: int): string
    requires 0 < place < 17
  {
    if place < 10 then TwoDigits(place) + "-" else "annex-" + Lower(["ABCDEFG"[place - 10]]) + "-"
  }

  lemma NameIs(top: Heading, place: int, end: nat, headings: seq<Heading>)
    requires StandsAt(top, place) && place != 9
    ensures |TopSegments(top, end, headings)| == 1
    ensures TopSegments(top, end, headings)[0].relPath == NameFront(place) + (Slugify(top.title) + ".md")
  {
    hide Slugify, Lower, TwoDigits, NatText;
  }

  lemma NamesTell(front: string, a: string, b: string)
    ensures front + (a + ".md") == front + (b + ".md") <==> a == b
  {
    var x, y := front + (a + ".md"), front + (b + ".md");
    if x == y {
      assert x[|front|..] == a + ".md" && y[|front|..] == b + ".md";
      assert (a + ".md")[..|a + ".md"| - 3] == a && (b + ".md")[..|b + ".md"| - 3] == b;
    }
  }

  /** A file's name is told by its place and its title's slug. */
  lemma FileNames(a: Heading, b: Heading, place: int, end: nat, headings: seq<Heading>)
    requires StandsAt(a, place) && StandsAt(b, place) && place != 9
    ensures |TopSegments(a, end, headings)| == 1 && |TopSegments(b, end, headings)| == 1
    ensures TopSegments(a, end, headings)[0].relPath == TopSegments(b, end, headings)[0].relPath
       <==> Slugify(a.title) == Slugify(b.title)
  {
    hide Slugify, TopSegments, NameFront;
    NameIs(a, place, end, headings);
    NameIs(b, place, end, headings);
    NamesTell(NameFront(place), Slugify(a.title), Slugify(b.title));
  }

  // ---------- which headings make files ----------

  /** A chapter or an annex of its own has no dot in its number. */
  lemma TopsHaveNoDot(h: Heading)
    ensures IsChapter(h) <==> h.kind == Num && '.' !in h.number
    ensures IsTopAnnex(h) <==> h.kind == Annex && '.' !in h.number
  {
    var parts := Split(h.number, '.');
    JoinSplit(h.number, '.');
    if '.' !in h.number { SplitWhole(h.number, '.'); }
    if |parts| == 1 { assert Join(parts, ".") == parts[0] && parts[0] in parts; }
  }

  lemma NineStands(a: string, b: string)
    requires '.' !in a
    ensures StartsWith(a + ['.'] + b, "9.") <==> a == "9"
  {
    var s := a + ['.'] + b;
    if StartsWith(s, "9.") {
      assert s == "9" + ['.'] + s[2..];
      CutIsUnique(a, b, "9", s[2..], '.');
    }
    if a == "9" { assert s[..2] == "9."; }
  }

  /** A subsection of chapter 9 has a file of its own exactly when its number is 9 and one part more. */
  lemma SubsectionExactly(h: Heading, start: nat, end: nat, parts: seq<string>)
    requires h.kind == Num && parts != [] && h.number == Join(parts, ".")
    requires forall p | p in parts :: p != "" && '.' !in p
    ensures IsSubsectionOf9(h, start, end) <==> |parts| == 2 && parts[0] == "9" && start <= h.line < end
  {
    hide Components, StartsWith;
    ComponentsAre(h, parts);
    if |parts| == 2 {
      assert parts[0] in parts && h.number == parts[0] + ['.'] + parts[1];
      NineStands(parts[0], parts[1]);
    }
  }

  /** Chapters 1 to 9 and annexes A to G in order, whatever other headings there are, make a plan; without
      them there is none. */
  lemma PlanExactly(n: nat, headings: seq<Heading>)
    ensures var chapters, annexes := Select(headings, IsChapter), Select(headings, IsTopAnnex);
      && (&& |chapters| == 9 && |annexes| == 7
          && (forall i | 0 <= i < 9 :: chapters[i].number == NatText(i + 1))
          && (forall i | 0 <= i < 7 :: annexes[i].number == [(65 + i) as char])
          ==> Plan(n, headings).Ok?)
      && (Plan(n, headings).Ok? ==>
            && |chapters| == 9 && |annexes| == 7
            && (forall i | 0 <= i < 9 && AllDigits(chapters[i].number) :: NatValue(chapters[i].number) == i + 1)
            && (forall i | 0 <= i < 7 :: annexes[i].number == [(65 + i) as char]))
  {
    hide Select, NatText, NatValue, SegmentsOf, AttachAll;
    forall i: nat ensures IntOf(NatText(i)) == i { NumberIsRead(i); }
    forall i | 0 <= i < 7 ensures ["ABCDEFG"[i]] == [(65 + i) as char] { LetterOf(10 + i); }
  }

  /** A number is read from its digits. */
  lemma NumberIsRead(n: nat)
    ensures IntOf(NatText(n)) == n
  {
    NatRoundTrip(n);
  }

  /** The number of a subsection's file is read behind the dot. */
  lemma MinorIsRead(sub: Heading, k: nat)
    requires sub.number == "9" + ['.'] + NatText(k)
    ensures Minor(sub) == k
  {
    hide NatText;
    NumeralHasNo(k, '.');
    SplitWhole("9", '.');
    SplitWhole(NatText(k), '.');
    SplitAt("9", '.', NatText(k));
    NumberIsRead(k);
  }

  /** The way back to the root goes up once for each directory, and says so when there is none. */
  lemma {:induction false} RootIsUp(depth: nat)
    ensures RelativeRoot(0) == "./" && |RelativeRoot(depth + 1)| == 3 * (depth + 1)
    ensures forall i | 0 <= i <= depth :: RelativeRoot(depth + 1)[3 * i..3 * i + 3] == "../"
  {
    var s := RelativeRoot(depth + 1);
    if depth > 0 {
      RootIsUp(depth - 1);
      var t := RelativeRoot(depth);
      assert s == "../" + t;
      forall i | 0 <= i <= depth ensures s[3 * i..3 * i + 3] == "../" {
        if i > 0 { assert s[3 * i..3 * i + 3] == t[3 * (i - 1)..3 * (i - 1) + 3]; }
      }
    } else {
      assert Ups(0) == "" && s == "../";
    }
  }
}
