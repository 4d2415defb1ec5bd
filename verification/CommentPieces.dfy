/**
 What the comment scanner passes over and what it reports (xtask/src/comment_density.rs), told by the texts
 themselves: literals are skipped whole, and a comment has the kind its first characters give it.
 */
module CommentPieces {
  import opened Wrappers
  import opened Text
  import opened CommentScan
  import StringLiterals

  type StringPart = StringLiterals.StringPart

  // ---------- char literals ----------

  /** The inside of a char literal: one char, a simple escape, two hex digits or a braced code point. */
  datatype CharText = One(c: char) | Simple(c: char) | Hex(a: char, b: char) | Braced(body: string)

  predicate ValidChar(t: CharText) {
    match t
    case One(c) => c != '\'' && c != '\\'
    case Simple(c) => c != 'x' && c != 'u'
    case Hex(a, b) => IsHex(a) && IsHex(b)
    case Braced(body) => '}' !in body
  }

  function Quoted(t: CharText): string {
    match t
    case One(c) => ['\'', c, '\'']
    case Simple(c) => ['\'', '\\', c, '\'']
    case Hex(a, b) => ['\'', '\\', 'x', a, b, '\'']
    case Braced(body) => "'\\u{" + body + "}'"
  }

  /** The text stands in the line from a column on. */
  predicate StandsAt(line: string, col: nat, text: string) { col <= |line| && StartsWith(line[col..], text) }

  lemma StandsChars(line: string, col: nat, text: string)
    requires StandsAt(line, col, text)
    ensures col + |text| <= |line| && forall k | 0 <= k < |text| :: line[col + k] == text[k]
  {
    forall k | 0 <= k < |text| ensures line[col + k] == text[k] { assert line[col..][k] == text[k]; }
  }

  lemma CharsStand(line: string, col: nat, text: string)
    requires col + |text| <= |line| && forall k | 0 <= k < |text| :: line[col + k] == text[k]
    ensures StandsAt(line, col, text)
  {
    assert line[col..][..|text|] == text;
  }

  /** A text stands where its parts do, one behind the other. */
  lemma PartsStand(line: string, col: nat, a: string, b: string)
    ensures StandsAt(line, col, a + b) <==> StandsAt(line, col, a) && StandsAt(line, col + |a|, b)
  {
    var text := a + b;
    if StandsAt(line, col, text) {
      StandsChars(line, col, text);
      forall k | 0 <= k < |a| ensures line[col + k] == a[k] { assert text[k] == a[k]; }
      CharsStand(line, col, a);
      forall k | 0 <= k < |b| ensures line[col + |a| + k] == b[k] { assert line[col + (|a| + k)] == text[|a| + k]; }
      CharsStand(line, col + |a|, b);
    }
    if StandsAt(line, col, a) && StandsAt(line, col + |a|, b) {
      StandsChars(line, col, a);
      StandsChars(line, col + |a|, b);
      forall k | 0 <= k < |text| ensures line[col + k] == text[k] {
        if k >= |a| { assert line[col + |a| + (k - |a|)] == b[k - |a|]; }
      }
      CharsStand(line, col, text);
    }
  }

  lemma FirstStands(line: string, col: nat, text: string)
    requires StandsAt(line, col, text) && text != ""
    ensures col + |text| <= |line| && line[col] == text[0]
  {
    StandsChars(line, col, text);
    assert line[col + 0] == text[0];
  }

  ghost predicate IsCharLiteral(line: string, col: nat, t: CharText) {
    ValidChar(t) && StandsAt(line, col, Quoted(t))
  }

  lemma {:induction false} FindCharIs(line: string, from: nat, c: char, at: nat)
    requires from <= at < |line| && line[at] == c && forall k | from <= k < at :: line[k] != c
    ensures FindChar(line, from, c) == Some(at)
    decreases at - from
  {
    if from < at { FindCharIs(line, from + 1, c, at); }
  }

  /** A char literal ends at its last apostrophe. */
  lemma CharLiteralEnds(line: string, col: nat, t: CharText)
    requires IsCharLiteral(line, col, t)
    ensures col < |line| && CharLiteralEnd(line, col) == Some(col + |Quoted(t)| - 1)
  {
    var text := Quoted(t);
    StandsChars(line, col, text);
    match t
    case One(c) => assert line[col + 1] == text[1] && line[col + 2] == text[2];
    case Simple(c) => assert line[col + 1] == text[1] && line[col + 2] == text[2] && line[col + 3] == text[3];
    case Hex(a, b) =>
      assert line[col + 1] == text[1] && line[col + 2] == text[2] && line[col + 3] == text[3];
      assert line[col + 4] == text[4] && line[col + 5] == text[5];
    case Braced(body) =>
      assert line[col + 1] == text[1] && line[col + 2] == text[2] && line[col + 3] == text[3];
      var at := col + 4 + |body|;
      assert line[at] == text[4 + |body|] && line[at + 1] == text[5 + |body|];
      forall k | col + 4 <= k < at ensures line[k] != '}' { assert line[k] == text[k - col] == body[k - col - 4]; }
      FindCharIs(line, col + 4, '}', at);
  }

  lemma EndedUnescaped(line: string, col: nat)
    requires col < |line| && line[col] == '\'' && CharLiteralEnd(line, col).Some? && line[col + 1] != '\\'
    ensures IsCharLiteral(line, col, One(line[col + 1]))
  {
    CharsStand(line, col, Quoted(One(line[col + 1])));
  }

  lemma EndedHex(line: string, col: nat)
    requires col < |line| && line[col] == '\'' && CharLiteralEnd(line, col).Some?
    requires line[col + 1] == '\\' && At(line, col + 2, 'x')
    ensures col + 4 < |line| && IsCharLiteral(line, col, Hex(line[col + 3], line[col + 4]))
  {
    CharsStand(line, col, Quoted(Hex(line[col + 3], line[col + 4])));
  }

  lemma EndedSimple(line: string, col: nat)
    requires col < |line| && line[col] == '\'' && CharLiteralEnd(line, col).Some?
    requires line[col + 1] == '\\' && !At(line, col + 2, 'x') && !At(line, col + 2, 'u')
    ensures col + 2 < |line| && IsCharLiteral(line, col, Simple(line[col + 2]))
  {
    CharsStand(line, col, Quoted(Simple(line[col + 2])));
  }

  lemma EndedBraced(line: string, col: nat) returns (body: string)
    requires col < |line| && line[col] == '\'' && CharLiteralEnd(line, col).Some?
    requires line[col + 1] == '\\' && At(line, col + 2, 'u')
    ensures IsCharLiteral(line, col, Braced(body))
  {
    var at := FindChar(line, col + 4, '}').value;
    body := line[col + 4..at];
    var front := "'\\u{";
    CharsStand(line, col, front);
    CharsStand(line, col + 4, body);
    CharsStand(line, at, "}'");
    hide StandsAt, CharLiteralEnd;
    PartsStand(line, col, front, body);
    PartsStand(line, col, front + body, "}'");
  }

  /** Where the look-ahead finds an end, a char literal stands. */
  lemma EndedCharLiteral(line: string, col: nat) returns (t: CharText)
    requires col < |line| && line[col] == '\'' && CharLiteralEnd(line, col).Some?
    ensures IsCharLiteral(line, col, t)
  {
    hide IsCharLiteral;
    if line[col + 1] != '\\' {
      EndedUnescaped(line, col);
      t := One(line[col + 1]);
    } else if At(line, col + 2, 'x') {
      EndedHex(line, col);
      t := Hex(line[col + 3], line[col + 4]);
    } else if At(line, col + 2, 'u') {
      var body := EndedBraced(line, col);
      t := Braced(body);
    } else {
      EndedSimple(line, col);
      t := Simple(line[col + 2]);
    }
  }

  /** At an apostrophe the scan goes on behind the char literal that stands there, and one column later where
      none does, as at a lifetime. */
  lemma ApostropheWalks(line: string, row: nat, col: nat, leading: bool)
    requires At(line, col, '\'')
    ensures forall t | IsCharLiteral(line, col, t) :: col + |Quoted(t)| <= |line|
              && Walk(line, row, col, Code, leading) == Walk(line, row, col + |Quoted(t)|, Code, leading)
    ensures (forall t :: !IsCharLiteral(line, col, t)) ==>
              Walk(line, row, col, Code, leading) == Walk(line, row, col + 1, Code, leading)
  {
    hide Walk, CharLiteralEnd, IsCharLiteral;
    WalkSteps(line, row, col, Code, leading);
    forall t | IsCharLiteral(line, col, t)
      ensures CharLiteralEnd(line, col) == Some(col + |Quoted(t)| - 1) && col + |Quoted(t)| <= |line|
    {
      CharLiteralEnds(line, col, t);
      LiteralFits(line, col, t);
    }
    if CharLiteralEnd(line, col).Some? { var t := EndedCharLiteral(line, col); }
    NoRawThere(line, col);
  }

  lemma LiteralFits(line: string, col: nat, t: CharText)
    requires IsCharLiteral(line, col, t)
    ensures col + |Quoted(t)| <= |line|
  {}

  lemma NoRawThere(line: string, col: nat)
    requires col < |line| && line[col] !in {'r', 'b', 'c'}
    ensures RawStringStart(line, col) == None
  {}

  // ---------- strings and raw strings ----------

  predicate ValidParts(parts: seq<StringPart>) { forall p | p in parts :: p.Plain? ==> p.c != '"' && p.c != '\\' }

  /** Behind its opening quote a string is passed over to behind its closing one. */
  lemma PartWalks(line: string, row: nat, col: nat, p: StringPart, leading: bool)
    requires ValidParts([p]) && StandsAt(line, col, StringLiterals.PartText(p))
    ensures col + |StringLiterals.PartText(p)| <= |line|
    ensures Walk(line, row, col, InString(false), leading)
         == Walk(line, row, col + |StringLiterals.PartText(p)|, InString(false), leading)
  {
    hide Walk;
    var text := StringLiterals.PartText(p);
    StandsChars(line, col, text);
    assert p in [p] && line[col + 0] == text[0];
    WalkSteps(line, row, col, InString(false), leading);
    if p.Escape? {
      assert line[col + 1] == text[1];
      WalkSteps(line, row, col + 1, InString(true), leading);
    }
  }

  lemma {:induction false} StringWalks(line: string, row: nat, col: nat, parts: seq<StringPart>, leading: bool)
    requires ValidParts(parts) && StandsAt(line, col, StringLiterals.PartsText(parts) + "\"")
    ensures col + |StringLiterals.PartsText(parts)| + 1 <= |line|
    ensures Walk(line, row, col, InString(false), leading)
         == Walk(line, row, col + |StringLiterals.PartsText(parts)| + 1, Code, leading)
    decreases |parts|
  {
    hide Walk, StandsAt, StringLiterals.PartText;
    if parts == [] {
      assert StringLiterals.PartsText(parts) + "\"" == "\"";
      FirstStands(line, col, "\"");
      WalkSteps(line, row, col, InString(false), leading);
    } else {
      var first, rest := StringLiterals.PartText(parts[0]), StringLiterals.PartsText(parts[1..]) + "\"";
      assert StringLiterals.PartsText(parts) + "\"" == first + rest;
      PartsStand(line, col, first, rest);
      assert parts[0] in parts;
      PartWalks(line, row, col, parts[0], leading);
      StringWalks(line, row, col + |first|, parts[1..], leading);
    }
  }

  /** What closes a raw string of so many hashes. */
  function Closing(hashes: nat): string { "\"" + Hashes(hashes) }

  lemma ClosesThere(line: string, at: nat, hashes: nat)
    requires at < |line|
    ensures line[at] == '"' && RawStringCloses(line, at, hashes) <==> StandsAt(line, at, Closing(hashes))
  {
    var text := Closing(hashes);
    if StandsAt(line, at, text) {
      StandsChars(line, at, text);
      assert line[at] == text[0];
      forall k | at < k < at + 1 + hashes ensures line[k] == '#' { assert line[at + (k - at)] == text[k - at]; }
    }
    if line[at] == '"' && RawStringCloses(line, at, hashes) {
      forall k | 0 <= k < |text| ensures line[at + k] == text[k] {}
      CharsStand(line, at, text);
    }
  }

  /** Inside a raw string everything is passed over up to the first closing. */
  lemma {:induction false} RawWalks(line: string, row: nat, col: nat, at: nat, hashes: nat, leading: bool)
    requires col <= at < |line| && StandsAt(line, at, Closing(hashes))
    requires forall k | col <= k < at :: !StandsAt(line, k, Closing(hashes))
    ensures Walk(line, row, col, InRaw(hashes), leading) == Walk(line, row, at + 1, Code, leading)
    decreases at - col
  {
    hide Walk, RawStringCloses, StandsAt, Closing;
    ClosesThere(line, col, hashes);
    WalkSteps(line, row, col, InRaw(hashes), leading);
    if col < at { RawWalks(line, row, col + 1, at, hashes, leading); }
  }

  lemma HashesStop(line: string, col: nat)
    requires StandsAt(line, col, Hashes(0))
    ensures col <= |line|
  {}

  lemma {:induction false} HashesWalk(line: string, row: nat, col: nat, hashes: nat, leading: bool)
    requires StandsAt(line, col, Hashes(hashes))
    ensures col + hashes <= |line|
    ensures Walk(line, row, col, Code, leading) == Walk(line, row, col + hashes, Code, leading)
    decreases hashes
  {
    hide Walk, RawStringStart, CharLiteralEnd, StandsAt;
    if hashes == 0 {
      HashesStop(line, col);
    } else {
      var fewer := Hashes(hashes - 1);
      assert Hashes(hashes) == "#" + fewer;
      PartsStand(line, col, "#", fewer);
      FirstStands(line, col, "#");
      NoRawThere(line, col);
      WalkSteps(line, row, col, Code, leading);
      HashesWalk(line, row, col + 1, hashes - 1, leading);
    }
  }

  // ---------- the pieces of a line of code ----------

  datatype CodePiece =
    | Other(c: char)
    | Text(parts: seq<StringPart>)
    | RawText(prefix: string, hashes: nat, body: string)
    | Char(t: CharText)

  function PieceText(p: CodePiece): string {
    match p
    case Other(c) => [c]
    case Text(parts) => "\"" + (StringLiterals.PartsText(parts) + "\"")
    case RawText(prefix, hashes, body) => Opening(prefix, hashes) + body + Closing(hashes)
    case Char(t) => Quoted(t)
  }

  predicate ContinuesName(line: string, col: nat) { 0 < col <= |line| && IsIdentByte(line[col - 1]) }

  /** A raw string begins here. */
  ghost predicate OpensRaw(line: string, col: nat) {
    && !ContinuesName(line, col)
    && exists prefix, hashes: nat :: prefix in {"r", "br", "cr"} && StandsAt(line, col, Opening(prefix, hashes))
  }

  /** The piece stands here and is what its text says: no other piece or comment begins where a plain char
      stands, and a raw string's body holds no closing. */
  ghost predicate Stands(line: string, col: nat, p: CodePiece) {
    && StandsAt(line, col, PieceText(p))
    && match p
       case Other(c) =>
         && c != '"' && !StandsAt(line, col, "//") && !StandsAt(line, col, "/*") && !OpensRaw(line, col)
         && forall t :: !IsCharLiteral(line, col, t)
       case Text(parts) => ValidParts(parts)
       case RawText(prefix, hashes, body) =>
         && prefix in {"r", "br", "cr"} && !ContinuesName(line, col)
         && var from := col + |Opening(prefix, hashes)|;
            forall k | from <= k < from + |body| :: !StandsAt(line, k, Closing(hashes))
       case Char(t) => ValidChar(t)
  }

  lemma RawStarts(line: string, col: nat)
    requires col < |line|
    ensures RawStringStart(line, col).Some? <==> OpensRaw(line, col)
  {
    hide RawStringStart, StartsWith, Opening;
    var r := RawStringStart(line, col);
    if r.Some? { var prefix := OpenedRawString(line, col, r.value.0, r.value.1); }
    if OpensRaw(line, col) {
      var prefix, hashes: nat :| prefix in {"r", "br", "cr"} && StandsAt(line, col, Opening(prefix, hashes));
      OpensRawString(line, col, prefix, hashes);
    }
  }

  lemma PairStands(line: string, col: nat, b: char)
    ensures Pair(line, col, '/', b) <==> StandsAt(line, col, ['/', b])
  {
    if StandsAt(line, col, ['/', b]) { StandsChars(line, col, ['/', b]); }
    if Pair(line, col, '/', b) { CharsStand(line, col, ['/', b]); }
  }

  lemma OtherWalks(line: string, row: nat, col: nat, c: char, leading: bool)
    requires Stands(line, col, Other(c))
    ensures col < |line| && Walk(line, row, col, Code, leading) == Walk(line, row, col + 1, Code, leading)
  {
    hide Walk, RawStringStart, CharLiteralEnd, OpensRaw, IsCharLiteral;
    StandsChars(line, col, [c]);
    assert line[col] == [c][0];
    RawStarts(line, col);
    PairStands(line, col, '/');
    PairStands(line, col, '*');
    assert "//" == ['/', '/'] && "/*" == ['/', '*'];
    WalkSteps(line, row, col, Code, leading);
    if c == '\'' { ApostropheWalks(line, row, col, leading); }
  }

  lemma TextWalks(line: string, row: nat, col: nat, parts: seq<StringPart>, leading: bool)
    requires Stands(line, col, Text(parts))
    ensures col + |PieceText(Text(parts))| <= |line|
    ensures Walk(line, row, col, Code, leading) == Walk(line, row, col + |PieceText(Text(parts))|, Code, leading)
  {
    hide Walk, RawStringStart, CharLiteralEnd, StandsAt, StringLiterals.PartsText;
    var rest := StringLiterals.PartsText(parts) + "\"";
    PartsStand(line, col, "\"", rest);
    FirstStands(line, col, "\"");
    NoRawThere(line, col);
    WalkSteps(line, row, col, Code, leading);
    StringWalks(line, row, col + 1, parts, leading);
  }

  lemma RawTextWalks(line: string, row: nat, col: nat, p: CodePiece, leading: bool)
    requires p.RawText? && Stands(line, col, p)
    ensures col + |PieceText(p)| <= |line|
    ensures Walk(line, row, col, Code, leading) == Walk(line, row, col + |PieceText(p)|, Code, leading)
  {
    hide Walk, RawStringStart, CharLiteralEnd, Opening, StandsAt, ContinuesName;
    var opening, closing, hashes := Opening(p.prefix, p.hashes), Closing(p.hashes), Hashes(p.hashes);
    PartsStand(line, col, opening + p.body, closing);
    PartsStand(line, col, opening, p.body);
    var at := col + |opening + p.body|;
    PartsStand(line, at, "\"", hashes);
    FirstStands(line, at, "\"");
    hide Closing;
    RawTextSteps(line, row, col, p, at, leading);
    HashesWalk(line, row, at + 1, p.hashes, leading);
  }

  lemma OpeningStarts(prefix: string, hashes: nat)
    requires prefix in {"r", "br", "cr"}
    ensures Opening(prefix, hashes) != "" && Opening(prefix, hashes)[0] in {'r', 'b', 'c'}
    ensures |Opening(prefix, hashes)| == |prefix| + hashes + 1
  {}

  lemma OpensThere(line: string, col: nat, prefix: string, hashes: nat)
    requires col < |line| && prefix in {"r", "br", "cr"} && !ContinuesName(line, col)
    requires StandsAt(line, col, Opening(prefix, hashes))
    ensures RawStringStart(line, col) == Some((col + |prefix| + hashes, hashes))
  {
    hide RawStringStart, Opening;
    OpensRawString(line, col, prefix, hashes);
  }

  lemma RawTextSteps(line: string, row: nat, col: nat, p: CodePiece, at: nat, leading: bool)
    requires p.RawText? && Stands(line, col, p) && at < |line| && StandsAt(line, at, Closing(p.hashes))
    requires StandsAt(line, col, Opening(p.prefix, p.hashes)) && at == col + |Opening(p.prefix, p.hashes)| + |p.body|
    ensures Walk(line, row, col, Code, leading) == Walk(line, row, at + 1, Code, leading)
  {
    hide Walk, RawStringStart, CharLiteralEnd, Closing, StandsAt, IsIdentByte;
    var opening := Opening(p.prefix, p.hashes);
    OpeningStarts(p.prefix, p.hashes);
    FirstStands(line, col, opening);
    OpensThere(line, col, p.prefix, p.hashes);
    WalkSteps(line, row, col, Code, leading);
    RawWalks(line, row, col + |opening|, at, p.hashes, leading);
  }

  /** Every piece of code is passed over whole, without a span and with the same lead. */
  lemma OtherPieceWalks(line: string, row: nat, col: nat, p: CodePiece, leading: bool)
    requires p.Other? && Stands(line, col, p)
    ensures col + |PieceText(p)| <= |line|
    ensures Walk(line, row, col, Code, leading) == Walk(line, row, col + |PieceText(p)|, Code, leading)
  {
    hide Walk, Stands;
    OtherWalks(line, row, col, p.c, leading);
  }

  lemma CharWalks(line: string, row: nat, col: nat, t: CharText, leading: bool)
    requires Stands(line, col, Char(t))
    ensures col + |PieceText(Char(t))| <= |line|
    ensures Walk(line, row, col, Code, leading) == Walk(line, row, col + |PieceText(Char(t))|, Code, leading)
  {
    hide Walk, OpensRaw;
    assert IsCharLiteral(line, col, t);
    FirstStands(line, col, Quoted(t));
    hide Stands, IsCharLiteral, Quoted;
    ApostropheWalks(line, row, col, leading);
  }

  lemma PieceWalks(line: string, row: nat, col: nat, p: CodePiece, leading: bool)
    requires Stands(line, col, p)
    ensures col + |PieceText(p)| <= |line|
    ensures Walk(line, row, col, Code, leading) == Walk(line, row, col + |PieceText(p)|, Code, leading)
  {
    hide Walk, PieceText, Stands;
    match p
    case Other(c) => OtherPieceWalks(line, row, col, p, leading);
    case Text(parts) => TextWalks(line, row, col, parts, leading);
    case RawText(_, _, _) => RawTextWalks(line, row, col, p, leading);
    case Char(t) => CharWalks(line, row, col, t, leading);
  }

  // ---------- the comments of a line ----------

  function CodeLength(pieces: seq<CodePiece>): nat {
    if pieces == [] then 0 else |PieceText(pieces[0])| + CodeLength(pieces[1..])
  }

  ghost predicate AllStand(line: string, col: nat, pieces: seq<CodePiece>)
    decreases |pieces|
  {
    pieces == [] || (Stands(line, col, pieces[0]) && AllStand(line, col + |PieceText(pieces[0])|, pieces[1..]))
  }

  lemma {:induction false} CodeWalks(line: string, row: nat, col: nat, pieces: seq<CodePiece>, leading: bool)
    requires col <= |line| && AllStand(line, col, pieces)
    ensures col + CodeLength(pieces) <= |line|
    ensures Walk(line, row, col, Code, leading) == Walk(line, row, col + CodeLength(pieces), Code, leading)
    decreases |pieces|
  {
    hide Walk, Stands, PieceText;
    if pieces != [] {
      PieceWalks(line, row, col, pieces[0], leading);
      CodeWalks(line, row, col + |PieceText(pieces[0])|, pieces[1..], leading);
    }
  }

  /** A comment by its first characters. */
  datatype Opener = SpdxLine | DocMark(text: string) | PlainLine | PlainBlock

  predicate StartsComment(line: string, at: nat, o: Opener) {
    match o
    case SpdxLine => StandsAt(line, at, "// SPDX-")
    case DocMark(text) => text in {"///", "//!", "/**", "/*!"} && StandsAt(line, at, text)
    case PlainLine =>
      && StandsAt(line, at, "//")
      && !StandsAt(line, at, "// SPDX-") && !StandsAt(line, at, "///") && !StandsAt(line, at, "//!")
    case PlainBlock => StandsAt(line, at, "/*") && !StandsAt(line, at, "/**") && !StandsAt(line, at, "/*!")
  }

  /** The kind of a comment at the head of a line; behind anything else every comment is a trailing one. */
  function HeadKind(o: Opener): Kind {
    match o
    case SpdxLine => Spdx
    case DocMark(_) => Doc
    case _ => Implementation
  }

  lemma NthStands(line: string, at: nat, text: string, k: nat)
    requires k < |text|
    ensures StandsAt(line, at, text) ==> at + k < |line| && line[at + k] == text[k]
  {
    if StandsAt(line, at, text) { StandsChars(line, at, text); }
  }

  /** Two texts that differ at a place do not stand at one column. */
  lemma OnlyOneStands(line: string, at: nat, text: string, other: string, k: nat)
    requires k < |text| && k < |other| && text[k] != other[k] && StandsAt(line, at, text)
    ensures !StandsAt(line, at, other)
  {
    hide StandsAt;
    NthStands(line, at, text, k);
    NthStands(line, at, other, k);
  }

  /** A comment's kind is told by its first characters when it leads its line, and else it is a trailing one. */
  lemma KindIsTold(line: string, at: nat, leading: bool, o: Opener)
    requires StartsComment(line, at, o)
    ensures at <= |line|
    ensures SpanKind(line, at, leading) == if leading && at == 0 then HeadKind(o) else TrailingImplementation
  {
    hide StartsWith;
    match o
    case SpdxLine =>
    case DocMark(text) => OnlyOneStands(line, at, text, "// SPDX-", 2);
    case PlainLine =>
      OnlyOneStands(line, at, "//", "/**", 1);
      OnlyOneStands(line, at, "//", "/*!", 1);
    case PlainBlock =>
      OnlyOneStands(line, at, "/*", "///", 1);
      OnlyOneStands(line, at, "/*", "//!", 1);
      OnlyOneStands(line, at, "/*", "// SPDX-", 1);
  }

  predicate OpensBlock(o: Opener) { o.PlainBlock? || (o.DocMark? && o.text in {"/**", "/*!"}) }

  /** The kind of a comment behind these pieces. */
  function KindBehind(pieces: seq<CodePiece>, o: Opener): Kind {
    if pieces == [] then HeadKind(o) else TrailingImplementation
  }

  /** A line of code pieces has no span; a line comment behind them is the line's only span. */
  lemma LineOfCode(line: string, row: nat, pieces: seq<CodePiece>)
    requires AllStand(line, 0, pieces)
    ensures CodeLength(pieces) <= |line|
    ensures CodeLength(pieces) == |line| ==> Walk(line, row, 0, Code, true) == ([], Code)
    ensures forall o | StartsComment(line, CodeLength(pieces), o) && !OpensBlock(o) ::
              Walk(line, row, 0, Code, true)
              == ([Span(KindBehind(pieces, o), row + 1, CodeLength(pieces), |line|)], Code)
  {
    hide Walk, StartsComment, SpanKind;
    CodeWalks(line, row, 0, pieces, true);
    CodeHasLength(pieces);
    var at := CodeLength(pieces);
    WalkEnds(line, row, Code, true);
    forall o | StartsComment(line, at, o) && !OpensBlock(o)
      ensures Walk(line, row, 0, Code, true) == ([Span(KindBehind(pieces, o), row + 1, at, |line|)], Code)
    {
      KindIsTold(line, at, true, o);
      LineOpens(line, at, o);
      LineCommentOpens(line, row, at, true);
    }
  }

  lemma {:induction false} CodeHasLength(pieces: seq<CodePiece>)
    ensures CodeLength(pieces) == 0 <==> pieces == []
  {}

  lemma LineOpens(line: string, at: nat, o: Opener)
    requires StartsComment(line, at, o) && !OpensBlock(o)
    ensures Pair(line, at, '/', '/')
  {
    var text := match o case SpdxLine => "// SPDX-" case DocMark(t) => t case _ => "//";
    StandsChars(line, at, text);
    assert line[at] == text[0] && line[at + 1] == text[1];
  }

  // ---------- block comments ----------

  /** A nested comment ends where its text closes it. */
  lemma {:induction false} BlockEndsWithText(line: string, col: nat, text: string, depth: Depth)
    requires StandsAt(line, col, text) && StringLiterals.BlockCloses(text, depth)
    ensures col + |text| <= |line| && BlockEnd(line, col, depth) == (col + |text|, 0)
    decreases |text|
  {
    hide BlockEnd, StandsAt;
    assert |text| > 1;
    StandsPair(line, col, text);
    BlockEndStep(line, col, depth);
    var width := if Begins(text, '/', '*') || Begins(text, '*', '/') then 2 else 1;
    var deeper := if Begins(text, '/', '*') then depth + 1 else if Begins(text, '*', '/') then depth - 1 else depth;
    assert text == text[..width] + text[width..];
    PartsStand(line, col, text[..width], text[width..]);
    if deeper > 0 {
      BlockEndsWithText(line, col + width, text[width..], deeper);
    } else {
      assert text[width..] == "";
    }
  }

  lemma StandsPair(line: string, col: nat, text: string)
    requires StandsAt(line, col, text) && |text| > 1
    ensures col + 1 < |line| && line[col] == text[0] && line[col + 1] == text[1] && col + |text| <= |line|
  {
    StandsChars(line, col, text);
    assert line[col + 0] == text[0];
  }

  /** A block comment in code is one span, nested comments inside it included, and code goes on behind it;
      whatever follows on the line no longer leads it. */
  lemma BlockInCode(line: string, row: nat, col: nat, leading: bool, o: Opener, text: string)
    requires StartsComment(line, col, o) && OpensBlock(o)
    requires StandsAt(line, col, "/*" + text) && StringLiterals.BlockCloses(text, 1)
    ensures col + 2 + |text| <= |line|
    ensures Walk(line, row, col, Code, leading)
         == Emit(Span(if leading && col == 0 then HeadKind(o) else TrailingImplementation, row + 1, col,
                      col + 2 + |text|),
                 Walk(line, row, col + 2 + |text|, Code, false))
  {
    hide Walk, BlockEnd, SpanKind, StartsComment, StandsAt;
    PartsStand(line, col, "/*", text);
    PairStands(line, col, '*');
    assert "/*" == ['/', '*'];
    KindIsTold(line, col, leading, o);
    BlockEndsWithText(line, col + 2, text, 1);
    BlockCommentOpens(line, row, col, leading);
  }

  // ---------- the lines of a text ----------

  /** Lines are what line breaks end or separate; an empty last one needs its break. */
  lemma LinesReadBack(lines: seq<string>)
    requires lines != [] && forall l | l in lines :: '\n' !in l
    ensures Lines(Join(lines, "\n") + "\n") == lines
    ensures lines[|lines| - 1] != "" ==> Lines(Join(lines, "\n")) == lines
  {
    hide Split, Join;
    SplitJoin(lines, '\n');
    SplitAt(Join(lines, "\n"), '\n', "");
    SplitWhole("", '\n');
    assert Join(lines, "\n") + ['\n'] + "" == Join(lines, "\n") + "\n";
    assert (lines + [""])[..|lines|] == lines;
  }

  /** Hex digits by their codes. */
  lemma HexByCode(c: char)
    ensures IsHex(c) <==> 48 <= c as int <= 57 || 65 <= c as int <= 70 || 97 <= c as int <= 102
  {}
}
