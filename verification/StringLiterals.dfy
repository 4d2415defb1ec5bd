/**
 The string literals of Rust code (xtask/src/diagnostic_registry.rs): a scanner that steps over
 comments and char literals, proved to find exactly the literals of assembled code.
 */
module StringLiterals {
  import opened Text

  // ---------- the scanner on a suffix ----------

  /** Up to the newline, which stays. */
  function LineLength(s: string): (n: nat)
    ensures n <= |s|
  {
    if s == "" || s[0] == '\n' then 0 else 1 + LineLength(s[1..])
  }

  /** To where all the nested block comments have closed. */
  function BlockLength(s: string, depth: nat): (n: nat)
    ensures n <= |s|
    decreases |s|
  {
    if s == "" || depth == 0 then 0
    else if Begins(s, '/', '*') then 2 + BlockLength(s[2..], depth + 1)
    else if Begins(s, '*', '/') then 2 + BlockLength(s[2..], depth - 1)
    else 1 + BlockLength(s[1..], depth)
  }

  function QuoteLength(s: string): (n: nat)
    ensures n <= |s| && (n < |s| ==> s[n] == '\'')
  {
    if s == "" || s[0] == '\'' then 0 else 1 + QuoteLength(s[1..])
  }

  /** A char literal, or the apostrophe of anything else. */
  function CharLength(s: string): (n: nat)
    requires s != ""
    ensures 0 < n <= |s|
  {
    if |s| > 1 && s[1] == '\\' then
      var quote := 2 + QuoteLength(s[2..]);
      if quote < |s| then quote + 1 else quote
    else if |s| > 2 && s[2] == '\'' then 3
    else 1
  }

  datatype Literal = Literal(content: string, length: nat)

  /** After the opening quote; an escape is dropped with the char it escapes. */
  function ReadString(s: string): (r: Literal)
    ensures r.length <= |s|
    decreases |s|
  {
    if s == "" then Literal("", 0)
    else if s[0] == '\\' then
      if |s| == 1 then Literal("", 1)
      else
        var rest := ReadString(s[2..]);
        Literal(rest.content, 2 + rest.length)
    else if s[0] == '"' then Literal("", 1)
    else
      var rest := ReadString(s[1..]);
      Literal([s[0]] + rest.content, 1 + rest.length)
  }

  datatype Head = Head(found: seq<string>, length: nat)

  /** The comment, literal or char at the front. */
  function FirstOf(s: string): (h: Head)
    requires s != ""
    ensures 0 < h.length <= |s|
  {
    if Begins(s, '/', '/') then Head([], 2 + LineLength(s[2..]))
    else if Begins(s, '/', '*') then Head([], 2 + BlockLength(s[2..], 1))
    else if s[0] == '\'' then Head([], CharLength(s))
    else if s[0] == '"' then Head([ReadString(s[1..]).content], 1 + ReadString(s[1..]).length)
    else Head([], 1)
  }

  function Scan(s: string): seq<string>
    decreases |s|
  {
    if s == "" then [] else FirstOf(s).found + Scan(s[FirstOf(s).length..])
  }

  // ---------- the scanner as written ----------

  method SkipLine(code: string, from: nat) returns (i: nat)
    requires from <= |code|
    ensures i == from + LineLength(code[from..]) && i <= |code|
  {
    i := from;
    while i < |code| && code[i] != '\n'
      invariant from <= i <= |code| && i + LineLength(code[i..]) == from + LineLength(code[from..])
    {
      assert code[i..][1..] == code[i + 1..];
      i := i + 1;
    }
  }

  lemma BlockStep(code: string, i: nat, depth: nat)
    requires i < |code| && depth > 0
    ensures BlockLength(code[i..], depth)
         == (if Begins(code[i..], '/', '*') then 2 + BlockLength(code[i + 2..], depth + 1)
             else if Begins(code[i..], '*', '/') then 2 + BlockLength(code[i + 2..], depth - 1)
             else 1 + BlockLength(code[i + 1..], depth))
  {
    assert code[i..][1..] == code[i + 1..] && (i + 1 < |code| ==> code[i..][2..] == code[i + 2..]);
  }

  method SkipBlock(code: string, from: nat) returns (i: nat)
    requires from <= |code|
    ensures i == from + BlockLength(code[from..], 1) && i <= |code|
  {
    hide BlockLength;
    i := from;
    var depth: nat := 1;
    while i < |code| && depth > 0
      invariant from <= i <= |code|
      invariant i + BlockLength(code[i..], depth) == from + BlockLength(code[from..], 1)
    {
      BlockStep(code, i, depth);
      if code[i] == '/' && i + 1 < |code| && code[i + 1] == '*' {
        depth, i := depth + 1, i + 2;
      } else if code[i] == '*' && i + 1 < |code| && code[i + 1] == '/' {
        depth, i := depth - 1, i + 2;
      } else {
        i := i + 1;
      }
    }
    BlockStops(code[i..], depth);
  }

  lemma BlockStops(s: string, depth: nat)
    requires s == "" || depth == 0
    ensures BlockLength(s, depth) == 0
  {}

  method SkipChar(code: string, from: nat) returns (i: nat)
    requires from < |code| && code[from] == '\''
    ensures i == from + CharLength(code[from..]) && i <= |code|
  {
    ghost var left := code[from..];
    if from + 1 < |code| && code[from + 1] == '\\' {
      assert left[2..] == code[from + 2..];
      i := from + 2;
      while i < |code| && code[i] != '\''
        invariant from + 2 <= i <= |code| && i + QuoteLength(code[i..]) == from + 2 + QuoteLength(code[from + 2..])
      {
        assert code[i..][1..] == code[i + 1..];
        i := i + 1;
      }
      if i < |code| { i := i + 1; }
      return;
    }
    if from + 2 < |code| && code[from + 2] == '\'' { return from + 3; }
    return from + 1;
  }

  function Drop(code: string, i: nat): string { if i <= |code| then code[i..] else "" }

  /** What is read so far of the literal that leaves `rest`, when `left` is still to read. */
  predicate Reading(all: Literal, rest: string, content: string, left: string) {
    all.content == content + ReadString(left).content && rest == left[ReadString(left).length..]
  }

  lemma ReadingStep(all: Literal, rest: string, content: string, left: string)
    requires Reading(all, rest, content, left)
    ensures left == "" ==> all.content == content && rest == ""
    ensures left != "" && left[0] == '\\' ==> Reading(all, rest, content, Drop(left, 2))
    ensures left != "" && left[0] == '"' ==> all.content == content && rest == left[1..]
    ensures left != "" && left[0] != '\\' && left[0] != '"' ==> Reading(all, rest, content + [left[0]], left[1..])
  {}

  lemma DropSteps(code: string, i: nat)
    requires i < |code|
    ensures var left := Drop(code, i);
      && left != "" && left[0] == code[i] && left[1..] == Drop(code, i + 1) && Drop(left, 2) == Drop(code, i + 2)
  {}

  lemma NothingLeft(code: string, i: nat)
    requires i >= |code|
    ensures Drop(code, i) == ""
  {}

  lemma ReadingStarts(code: string, from: nat)
    requires from <= |code|
    ensures var all := ReadString(code[from..]);
      Reading(all, code[from + all.length..], "", Drop(code, from))
  {
    hide ReadString;
    var left := code[from..];
    assert "" + ReadString(left).content == ReadString(left).content;
    assert left[ReadString(left).length..] == code[from + ReadString(left).length..];
  }

  method ReadLiteral(code: string, from: nat) returns (content: string, next: nat)
    requires from <= |code|
    ensures content == ReadString(code[from..]).content && next >= from
    ensures Drop(code, next) == code[from + ReadString(code[from..]).length..]
  {
    hide Reading, ReadString, Drop;
    content := "";
    next := from;
    ghost var all := ReadString(code[from..]);
    ghost var rest := code[from + all.length..];
    ReadingStarts(code, from);
    while next < |code|
      invariant from <= next && Reading(all, rest, content, Drop(code, next))
    {
      ghost var left := Drop(code, next);
      ReadingStep(all, rest, content, left);
      DropSteps(code, next);
      if code[next] == '\\' {
        next := next + 2;
      } else if code[next] == '"' {
        next := next + 1;
        return;
      } else {
        content, next := content + [code[next]], next + 1;
      }
    }
    NothingLeft(code, next);
    ReadingStep(all, rest, content, Drop(code, next));
  }

  /** One turn of the scanner: what it pushes and where it goes on. */
  method ScanOne(code: string, i: nat) returns (found: seq<string>, next: nat)
    requires i < |code|
    ensures next > i && found == FirstOf(code[i..]).found
    ensures Drop(code, next) == code[i..][FirstOf(code[i..]).length..]
  {
    hide LineLength, BlockLength, CharLength, ReadString, QuoteLength;
    ghost var left := code[i..];
    assert left[1..] == code[i + 1..] && (i + 1 < |code| ==> left[2..] == code[i + 2..]);
    var c := code[i];
    if c == '/' && i + 1 < |code| && code[i + 1] == '/' {
      next := SkipLine(code, i + 2);
      return [], next;
    }
    if c == '/' && i + 1 < |code| && code[i + 1] == '*' {
      next := SkipBlock(code, i + 2);
      return [], next;
    }
    if c == '\'' {
      next := SkipChar(code, i);
      return [], next;
    }
    if c == '"' {
      var content;
      content, next := ReadLiteral(code, i + 1);
      return [content], next;
    }
    return [], i + 1;
  }

  method StringLiteralsSkippingComments(code: string) returns (out: seq<string>)
    ensures out == Scan(code)
  {
    hide FirstOf;
    out := [];
    var i := 0;
    assert code[0..] == code;
    while i < |code|
      invariant Scan(code) == out + Scan(Drop(code, i))
      decreases |code| - i
    {
      var found, next := ScanOne(code, i);
      assert out + (found + Scan(Drop(code, next))) == (out + found) + Scan(Drop(code, next));
      out, i := out + found, next;
    }
    assert out + [] == out;
  }

  // ---------- assembled code ----------

  datatype StringPart = Plain(c: char) | Escape(c: char)

  datatype Piece =
    | Other(c: char)
    | Slash
    | Apostrophe
    | LineComment(text: string)
    | BlockComment(text: string)
    | CharLiteral(c: char)
    | EscapedChar(c: char, more: string)
    | EscapedApostrophe
    | StringLiteral(parts: seq<StringPart>)

  predicate ValidPart(p: StringPart) { p.Plain? ==> p.c != '"' && p.c != '\\' }

  /** A block comment's nested scan closes exactly at its end. A slash is plain code where it opens no
      comment, and an apostrophe where it opens no char literal, as that of a lifetime. */
  predicate ValidPiece(p: Piece) {
    match p
    case Other(c) => c != '/' && c != '"' && c != '\''
    case Slash => true
    case Apostrophe => true
    case LineComment(text) => '\n' !in text
    case BlockComment(text) => BlockCloses(text, 1)
    case CharLiteral(c) => c != '\\'
    case EscapedChar(c, more) => c != '\'' && '\'' !in more
    case EscapedApostrophe => true
    case StringLiteral(parts) => forall p | p in parts :: ValidPart(p)
  }

  /** Scanned from a depth, the comments close at the very end and not before. */
  predicate BlockCloses(s: string, depth: nat)
    decreases |s|
  {
    if depth == 0 then s == ""
    else if s == "" then false
    else if Begins(s, '/', '*') then BlockCloses(s[2..], depth + 1)
    else if Begins(s, '*', '/') then BlockCloses(s[2..], depth - 1)
    else BlockCloses(s[1..], depth)
  }

  function PartText(p: StringPart): string { if p.Plain? then [p.c] else ['\\', p.c] }

  function PartsText(parts: seq<StringPart>): string {
    if parts == [] then ""
    else PartText(parts[0]) + PartsText(parts[1..])
  }

  /** The content the validator compares: every char but the escapes. */
  function PartsContent(parts: seq<StringPart>): string {
    if parts == [] then ""
    else (match parts[0] case Plain(c) => [c] case Escape(_) => "") + PartsContent(parts[1..])
  }

  function PieceText(p: Piece): string {
    match p
    case Other(c) => [c]
    case Slash => "/"
    case Apostrophe => "'"
    case LineComment(text) => "//" + text + "\n"
    case BlockComment(text) => "/*" + text
    case CharLiteral(c) => ['\'', c, '\'']
    case EscapedChar(c, more) => "'\\" + [c] + more + "'"
    case EscapedApostrophe => "'\\''"
    case StringLiteral(parts) => "\"" + PartsText(parts) + "\""
  }

  function CodeText(pieces: seq<Piece>): string {
    if pieces == [] then "" else PieceText(pieces[0]) + CodeText(pieces[1..])
  }

  /** The scanner can go on after an apostrophe it takes for an opening one. */
  predicate Recovers(rest: string) {
    !(rest != "" && rest[0] == '\\') && !(|rest| > 1 && rest[1] == '\'')
  }

  /** What may follow a piece. */
  predicate MayPrecede(p: Piece, rest: string) {
    match p
    case Slash => rest == "" || (rest[0] != '/' && rest[0] != '*')
    case Apostrophe => Recovers(rest)
    case EscapedApostrophe => Recovers(rest)
    case _ => true
  }

  predicate IsWhole(p: Piece) { !p.Slash? && !p.Apostrophe? && !p.EscapedApostrophe? }

  /** Valid pieces, each followed by what may follow it. */
  predicate ValidCode(pieces: seq<Piece>) {
    pieces == []
    || (ValidPiece(pieces[0]) && ValidCode(pieces[1..]) && MayPrecede(pieces[0], CodeText(pieces[1..])))
  }

  function LiteralsOf(pieces: seq<Piece>): seq<string> {
    if pieces == [] then []
    else (if pieces[0].StringLiteral? then [PartsContent(pieces[0].parts)] else []) + LiteralsOf(pieces[1..])
  }

  lemma {:induction false} LineLengthIs(text: string, rest: string)
    requires '\n' !in text
    ensures LineLength(text + "\n" + rest) == |text|
  {
    var s := text + "\n" + rest;
    if text == "" {
      assert s[0] == '\n';
    } else {
      assert text[0] in text && s[0] == text[0] && s[1..] == text[1..] + "\n" + rest;
      LineLengthIs(text[1..], rest);
    }
  }

  lemma {:induction false} BlockLengthIs(text: string, depth: nat, rest: string)
    requires BlockCloses(text, depth)
    ensures BlockLength(text + rest, depth) == |text|
    decreases |text|
  {
    var s := text + rest;
    if depth > 0 {
      assert s[0] == text[0] && s[1..] == text[1..] + rest;
      if |text| > 1 {
        assert s[1] == text[1] && s[2..] == text[2..] + rest;
        if Begins(text, '/', '*') {
          BlockLengthIs(text[2..], depth + 1, rest);
        } else if Begins(text, '*', '/') {
          BlockLengthIs(text[2..], depth - 1, rest);
        } else {
          BlockLengthIs(text[1..], depth, rest);
        }
      }
    }
  }

  lemma {:induction false} QuoteLengthIs(more: string, rest: string)
    requires '\'' !in more
    ensures QuoteLength(more + "'" + rest) == |more|
  {
    var s := more + "'" + rest;
    if more == "" {
      assert s[0] == '\'';
    } else {
      assert more[0] in more && s[0] == more[0] && s[1..] == more[1..] + "'" + rest;
      QuoteLengthIs(more[1..], rest);
    }
  }

  lemma ReadPart(p: StringPart, left: string)
    requires ValidPart(p)
    ensures var r := ReadString(left);
      && (p.Plain? ==> ReadString([p.c] + left) == Literal([p.c] + r.content, 1 + r.length))
      && (p.Escape? ==> ReadString(['\\', p.c] + left) == Literal(r.content, 2 + r.length))
  {
    match p
    case Plain(c) => assert ([c] + left)[1..] == left;
    case Escape(c) => assert (['\\', c] + left)[2..] == left;
  }

  lemma Regrouped(front: string, text: string, rest: string)
    ensures front + text + "\"" + rest == front + (text + "\"" + rest)
  {}

  lemma {:induction false} ReadStringIs(parts: seq<StringPart>, rest: string)
    requires forall p | p in parts :: ValidPart(p)
    ensures ReadString(PartsText(parts) + "\"" + rest) == Literal(PartsContent(parts), |PartsText(parts)| + 1)
  {
    if parts == [] {
      assert "" + "\"" + rest == "\"" + rest;
    } else {
      assert ValidPart(parts[0]);
      hide ReadString, ValidPart;
      ReadStringIs(parts[1..], rest);
      Regrouped(PartText(parts[0]), PartsText(parts[1..]), rest);
      ReadPart(parts[0], PartsText(parts[1..]) + "\"" + rest);
    }
  }

  lemma CharIsFirst(p: Piece, rest: string)
    requires ValidPiece(p) && (p.CharLiteral? || p.EscapedChar?)
    ensures FirstOf(PieceText(p) + rest) == Head([], |PieceText(p)|)
  {
    hide QuoteLength;
    var s := PieceText(p) + rest;
    match p
    case CharLiteral(c) => assert s[1] == c && s[2] == '\'';
    case EscapedChar(c, more) =>
      assert s[2..] == ([c] + more) + "'" + rest;
      QuoteLengthIs([c] + more, rest);
  }

  lemma OtherIsFirst(c: char, rest: string)
    requires c != '/' && c != '"' && c != '\''
    ensures FirstOf(PieceText(Other(c)) + rest) == Head([], |PieceText(Other(c))|)
  {
    assert (PieceText(Other(c)) + rest)[0] == c;
  }

  lemma CommentIsFirst(p: Piece, rest: string)
    requires ValidPiece(p) && (p.LineComment? || p.BlockComment?)
    ensures FirstOf(PieceText(p) + rest) == Head([], if p.LineComment? then |PieceText(p)| - 1 else |PieceText(p)|)
  {
    hide LineLength, BlockLength, BlockCloses;
    var s := PieceText(p) + rest;
    match p
    case LineComment(text) =>
      assert s[2..] == text + "\n" + rest;
      LineLengthIs(text, rest);
    case BlockComment(text) =>
      assert s[2..] == text + rest;
      BlockLengthIs(text, 1, rest);
  }

  lemma StringIsFirst(parts: seq<StringPart>, rest: string)
    requires ValidPiece(StringLiteral(parts))
    ensures FirstOf(PieceText(StringLiteral(parts)) + rest)
         == Head([PartsContent(parts)], |PieceText(StringLiteral(parts))|)
  {
    hide ReadString, PartsText, PartsContent;
    var s := PieceText(StringLiteral(parts)) + rest;
    assert s[0] == '"' && s[1..] == PartsText(parts) + "\"" + rest;
    ReadStringIs(parts, rest);
  }

  /** The scanner takes one piece whole and finds its literal; the newline after a line comment stays. */
  lemma PieceIsFirst(p: Piece, rest: string)
    requires ValidPiece(p) && IsWhole(p)
    ensures FirstOf(PieceText(p) + rest)
         == Head(if p.StringLiteral? then [PartsContent(p.parts)] else [],
                 if p.LineComment? then |PieceText(p)| - 1 else |PieceText(p)|)
  {
    hide FirstOf, PieceText, BlockCloses, PartsContent;
    match p
    case Other(c) => OtherIsFirst(c, rest);
    case LineComment(_) => CommentIsFirst(p, rest);
    case BlockComment(_) => CommentIsFirst(p, rest);
    case CharLiteral(_) => CharIsFirst(p, rest);
    case EscapedChar(_, _) => CharIsFirst(p, rest);
    case StringLiteral(parts) => StringIsFirst(parts, rest);
  }

  lemma ScanStep(s: string, h: Head, rest: string)
    requires s != "" && FirstOf(s) == h && s[h.length..] == rest
    ensures Scan(s) == h.found + Scan(rest)
  {}

  lemma BreakIsSkipped(rest: string)
    ensures Scan("\n" + rest) == Scan(rest)
  {
    var s := "\n" + rest;
    assert s[0] == '\n' && s[1..] == rest;
    ScanStep(s, Head([], 1), rest);
  }

  lemma PieceIsTaken(p: Piece, rest: string)
    requires ValidPiece(p) && IsWhole(p)
    ensures Scan(PieceText(p) + rest)
         == (if p.StringLiteral? then [PartsContent(p.parts)] else []) + Scan(rest)
  {
    hide Scan, FirstOf, PartsText, PartsContent, ValidPiece;
    var s := PieceText(p) + rest;
    PieceIsFirst(p, rest);
    if p.LineComment? {
      var n := |PieceText(p)|;
      assert s[n - 1..] == "\n" + rest;
      ScanStep(s, Head([], n - 1), "\n" + rest);
      BreakIsSkipped(rest);
    } else {
      assert s[|PieceText(p)|..] == rest;
      ScanStep(s, FirstOf(s), rest);
    }
  }

  // ---------- the char literal of an escaped apostrophe ----------

  /** Its closing apostrophe is left, and read as the opening one of another literal. */
  lemma ApostropheIsLeft(rest: string)
    ensures Scan(PieceText(EscapedApostrophe) + rest) == Scan("'" + rest)
  {
    hide Scan;
    var s := PieceText(EscapedApostrophe) + rest;
    assert s[2..] == "''" + rest && s[2..][0] == '\'' && s[3..] == "'" + rest;
    ScanStep(s, Head([], 3), "'" + rest);
  }

  lemma ApostropheIsSkipped(rest: string)
    requires Recovers(rest)
    ensures Scan("'" + rest) == Scan(rest)
  {
    hide Scan;
    var s := "'" + rest;
    assert s[1..] == rest && s[0] == '\'';
    assert |s| > 1 ==> s[1] == rest[0];
    assert |s| > 2 ==> s[2] == rest[1];
    ScanStep(s, Head([], 1), rest);
  }

  /** Whatever the two chars after the literal come before, the scanner goes on as if it had ended with it. */
  ghost predicate AlwaysRecovers(a: char, b: char) {
    forall tail: string :: RecoversBefore(a, b, tail)
  }

  predicate RecoversBefore(a: char, b: char, tail: string) {
    Scan(PieceText(EscapedApostrophe) + ([a, b] + tail)) == Scan([a, b] + tail)
  }

  /** A quote opens a string; what of it is read depends on what follows alone. */
  lemma QuoteOpens(rest: string, content: string)
    requires ReadString(rest) == Literal(content, |rest|)
    ensures Scan("\"" + rest) == [content]
  {
    hide ReadString, Scan;
    var s := "\"" + rest;
    assert s[1..] == rest && s[|s|..] == "";
    NothingScanned();
    ScanStep(s, Head([content], |s|), "");
  }

  lemma QuoteLiteralIsSkipped()
    ensures Scan("'\"'") == []
  {
    hide Scan;
    NothingScanned();
    PieceIsTaken(CharLiteral('"'), "");
    assert ['\'', '"', '\''] + "" == "'\"'";
  }

  lemma LastQuotes()
    ensures Scan("\"") == [""] && Scan("\"\"") == [""] && Scan("\"'") == ["'"]
  {
    hide Scan;
    assert ReadString("") == Literal("", 0) && ReadString("\"") == Literal("", 1);
    assert "'"[1..] == "" && ReadString("'") == Literal("'", 1);
    hide ReadString;
    QuoteOpens("", "");
    QuoteOpens("\"", "");
    QuoteOpens("'", "'");
    assert "\"" + "" == "\"" && "\"" + "\"" == "\"\"" && "\"" + "'" == "\"'";
  }

  lemma NothingScanned()
    ensures Scan("") == []
  {}

  /** Before `a'` the apostrophe that is left makes a char literal. */
  lemma ApostropheTakesChar(a: char, tail: string)
    ensures Scan(PieceText(EscapedApostrophe) + ([a, '\''] + tail)) == Scan(tail)
  {
    hide Scan;
    var rest := [a, '\''] + tail;
    var s := "'" + rest;
    ApostropheIsLeft(rest);
    assert s[0] == '\'' && s[1] == a && s[2] == '\'' && s[3..] == tail;
    if a == '\\' { assert s[2..][0] == '\''; }
    ScanStep(s, Head([], 3), tail);
  }

  /** So after a comma the quote in a char literal opens a string. */
  lemma EscapedApostropheMisleads(rest: string)
    ensures Scan("'\\''" + (",'" + ("\"" + rest)))
         == [ReadString(rest).content] + Scan(rest[ReadString(rest).length..])
  {
    hide Scan, ReadString;
    var quoted := "\"" + rest;
    ApostropheTakesChar(',', quoted);
    assert [',', '\''] + quoted == ",'" + quoted;
    assert quoted[0] == '"' && quoted[1..] == rest;
    ScanStep(quoted, Head([ReadString(rest).content], 1 + ReadString(rest).length), rest[ReadString(rest).length..]);
  }

  lemma FailsBeforeApostrophe(a: char)
    ensures !RecoversBefore(a, '\'', if a == '"' then "" else "\"'")
  {
    hide Scan, PieceText;
    NothingScanned();
    QuoteLiteralIsSkipped();
    LastQuotes();
    if a == '"' {
      ApostropheTakesChar(a, "");
      assert [a, '\''] + "" == "\"'";
    } else {
      ApostropheTakesChar(a, "\"'");
      var rest := [a, '\''] + "\"'";
      assert rest[1..] == "'\"'" && rest[0] == a && rest[1] == '\'' && rest[2] == '"';
      ScanStep(rest, Head([], 1), "'\"'");
    }
  }

  /** Before a backslash it makes an escape that runs to the next apostrophe. */
  lemma ApostropheTakesAll(b: char, tail: string)
    requires b != '\'' && '\'' !in tail
    ensures Scan(PieceText(EscapedApostrophe) + (['\\', b] + tail)) == []
  {
    hide Scan;
    var rest := ['\\', b] + tail;
    var s := "'" + rest;
    ApostropheIsLeft(rest);
    assert s[2..] == [b] + tail;
    NoQuote([b] + tail);
    assert s[1] == '\\' && CharLength(s) == |s| && s[|s|..] == "";
    NothingScanned();
    ScanStep(s, Head([], |s|), "");
  }

  lemma FailsBeforeBackslash(b: char)
    requires b != '\''
    ensures !RecoversBefore('\\', b, if b == '"' then "" else "\"\"")
  {
    hide Scan, PieceText;
    var tail := if b == '"' then "" else "\"\"";
    var rest := ['\\', b] + tail;
    ApostropheTakesAll(b, tail);
    assert rest[0] == '\\' && rest[1..] == [b] + tail;
    ScanStep(rest, Head([], 1), [b] + tail);
    LastQuotes();
    if b == '"' {
      assert [b] + tail == "\"";
    } else {
      assert ([b] + tail)[0] == b && ([b] + tail)[1] == '"' && ([b] + tail)[1..] == tail;
      ScanStep([b] + tail, Head([], 1), tail);
    }
  }

  lemma {:induction false} NoQuote(s: string)
    requires '\'' !in s
    ensures QuoteLength(s) == |s|
  {
    if s != "" {
      assert s[0] in s;
      NoQuote(s[1..]);
    }
  }

  /** It does so exactly when the first of them is no backslash and the second no apostrophe. */
  lemma RecoversExactly(a: char, b: char)
    ensures AlwaysRecovers(a, b) <==> a != '\\' && b != '\''
  {
    hide RecoversBefore;
    if a != '\\' && b != '\'' {
      forall tail ensures RecoversBefore(a, b, tail) { RecoversThere(a, b, tail); }
    } else if b == '\'' {
      FailsBeforeApostrophe(a);
    } else {
      FailsBeforeBackslash(b);
    }
  }

  lemma RecoversThere(a: char, b: char, tail: string)
    requires a != '\\' && b != '\''
    ensures RecoversBefore(a, b, tail)
  {
    hide Scan;
    var rest := [a, b] + tail;
    assert rest[0] == a && rest[1] == b;
    ApostropheIsLeft(rest);
    ApostropheIsSkipped(rest);
  }

  // ---------- the whole code ----------

  lemma SlashIsSkipped(rest: string)
    requires MayPrecede(Slash, rest)
    ensures Scan("/" + rest) == Scan(rest)
  {
    hide Scan;
    var s := "/" + rest;
    assert s[1..] == rest && s[0] == '/';
    assert |s| > 1 ==> s[1] == rest[0];
    ScanStep(s, Head([], 1), rest);
  }

  lemma PieceThenRest(p: Piece, rest: string)
    requires ValidPiece(p) && MayPrecede(p, rest)
    ensures Scan(PieceText(p) + rest) == (if p.StringLiteral? then [PartsContent(p.parts)] else []) + Scan(rest)
  {
    hide Scan, ValidPiece, Recovers, PartsContent, PartsText;
    match p
    case Slash => SlashIsSkipped(rest);
    case Apostrophe => ApostropheIsSkipped(rest);
    case EscapedApostrophe =>
      ApostropheIsLeft(rest);
      ApostropheIsSkipped(rest);
    case _ => PieceIsTaken(p, rest);
  }

  /** Of code assembled from pieces, exactly the string literals are found, in order. */
  lemma {:induction false} FindsExactlyTheLiterals(pieces: seq<Piece>)
    requires ValidCode(pieces)
    ensures Scan(CodeText(pieces)) == LiteralsOf(pieces)
  {
    hide Scan, PieceText, ValidPiece, MayPrecede, PartsContent;
    if pieces == [] {
      NothingScanned();
    } else {
      FindsExactlyTheLiterals(pieces[1..]);
      PieceThenRest(pieces[0], CodeText(pieces[1..]));
    }
  }
}
