/**
 The table compiler's declaration parser (xtask/src/gen_tables.rs): every `Name[dims] = { body }` of
 the attachment, after its comments are stripped.
 */
module TableDecls {
  import opened Wrappers
  import opened Text
  import opened TableTokens
  import opened TableComments

  datatype Decl = Decl(name: string, dims: string, numeric: bool, body: string)

  predicate IsNameStart(c: char) { IsIdentByte(c) && !IsDigit(c) }

  /** No letters, and every minus sign stands before a digit, blanks aside. */
  predicate IsNumericBody(body: string) {
    forall k | 0 <= k < |body| :: NumericAt(body, k)
  }

  predicate NumericAt(body: string, k: nat)
    requires k < |body|
  {
    && !IsNameStart(body[k])
    && (body[k] == '-' ==>
          var j := k + 1 + SpaceRun(body[k + 1..]);
          j < |body| && IsDigit(body[j]))
  }

  function IdentRun(s: string): (n: nat)
    ensures n <= |s| && (n < |s| ==> !IsIdentByte(s[n]))
    ensures forall k | 0 <= k < n :: IsIdentByte(s[k])
  {
    if s == "" || !IsIdentByte(s[0]) then 0 else 1 + IdentRun(s[1..])
  }

  /** A bracket group's length, closing bracket included. */
  function BracketRun(s: string): (n: nat)
    ensures n <= |s| && (s != "" ==> n > 0)
  {
    if s == "" then 0 else if s[0] == ']' then 1 else 1 + BracketRun(s[1..])
  }

  /** The length of bracket groups with blanks around them. */
  function DimsRun(s: string): (n: nat)
    ensures SpaceRun(s) <= n <= |s|
    decreases |s|, 1
  {
    var p := SpaceRun(s);
    if p < |s| && s[p] == '[' then DimsAfter(s, p + BracketRun(s[p..])) else p
  }

  function DimsAfter(s: string, q: nat): (n: nat)
    requires 0 < q <= |s|
    ensures q <= n <= |s|
    decreases |s|, 0
  {
    q + DimsRun(s[q..])
  }

  /** The length up to the brace that closes the outermost one; `depth` braces are open. */
  function BraceRun(s: string, depth: nat): (n: Option<nat>)
    ensures n.Some? ==> 0 < n.value <= |s|
  {
    if s == "" then None
    else if s[0] == '}' && depth <= 1 then Some(1)
    else
      var rest := BraceRun(s[1..], if s[0] == '{' then depth + 1 else if s[0] == '}' then depth - 1 else depth);
      if rest.None? then None else Some(1 + rest.value)
  }

  datatype Step = NotADecl | Unbalanced | Found(dims: string, body: string, length: nat)

  /** What follows a name. */
  function AfterName(s: string): (r: Step)
    ensures r.Found? ==> 0 < r.length <= |s|
  {
    AfterDims(s, SpaceRun(s), DimsRun(s))
  }

  function AfterDims(s: string, p: nat, e: nat): (r: Step)
    requires p <= e <= |s|
    ensures r.Found? ==> 0 < r.length <= |s|
  {
    if e == |s| || s[e] != '=' then NotADecl else AfterEquals(s, p, e, e + 1 + SpaceRun(s[e + 1..]))
  }

  function AfterEquals(s: string, p: nat, e: nat, b: nat): (r: Step)
    requires p <= e <= b <= |s|
    ensures r.Found? ==> 0 < r.length <= |s|
  {
    if b == |s| || s[b] != '{' then NotADecl
    else
      var length := BraceRun(s[b..], 0);
      if length.None? then Unbalanced
      else Found(Trim(s[p..e]), s[b..b + length.value], b + length.value)
  }

  function Scan(afterIdent: bool, s: string): Result<seq<Decl>>
    decreases |s|
  {
    if s == "" then Ok([])
    else if !afterIdent && IsNameStart(s[0]) then
      var n := IdentRun(s);
      match AfterName(s[n..])
      case NotADecl => Scan(true, s[n..])
      case Unbalanced => Err
      case Found(dims, body, length) =>
        AddDecls([Decl(s[..n], dims, IsNumericBody(body), body)], Scan(false, s[n + length..]))
    else Scan(IsIdentByte(s[0]), s[1..])
  }

  function AddDecls(decls: seq<Decl>, rest: Result<seq<Decl>>): Result<seq<Decl>> {
    if rest.Err? then Err else Ok(decls + rest.value)
  }

  lemma AddDeclsAppend(decls: seq<Decl>, d: Decl, rest: Result<seq<Decl>>)
    ensures AddDecls(decls, AddDecls([d], rest)) == AddDecls(decls + [d], rest)
    ensures AddDecls([], rest) == rest
  {
    if rest.Ok? { assert decls + ([d] + rest.value) == (decls + [d]) + rest.value && [] + rest.value == rest.value; }
  }

  function Declarations(raw: string): Result<seq<Decl>> {
    var decls := Scan(false, Strip(raw));
    if decls.Err? || decls.value == [] then Err else decls
  }

  // ---------- the parser as written ----------

  method SkipIdent(text: string, from: nat) returns (i: nat)
    requires from <= |text|
    ensures i == from + IdentRun(text[from..]) && i <= |text|
  {
    i := from;
    while i < |text| && IsIdentByte(text[i])
      invariant from <= i <= |text| && i + IdentRun(text[i..]) == from + IdentRun(text[from..])
    {
      assert text[i..][1..] == text[i + 1..];
      i := i + 1;
    }
  }

  method SkipBracket(text: string, from: nat) returns (j: nat)
    requires from < |text|
    ensures j == from + BracketRun(text[from..]) && j <= |text|
  {
    j := from;
    while j < |text| && text[j] != ']'
      invariant from <= j <= |text| && j + BracketRun(text[j..]) == from + BracketRun(text[from..])
    {
      assert text[j..][1..] == text[j + 1..];
      j := j + 1;
    }
    if j < |text| { j := j + 1; }
  }

  lemma DimsStop(text: string, j: nat, p: nat)
    requires j <= |text| && p == j + SpaceRun(text[j..]) && (p == |text| || text[p] != '[')
    ensures j + DimsRun(text[j..]) == p
  {
    hide SpaceRun;
    assert p < |text| ==> text[j..][p - j] == text[p];
  }

  lemma DimsStep(text: string, j: nat, p: nat, q: nat)
    requires j <= |text| && p == j + SpaceRun(text[j..]) && p < |text| && text[p] == '['
    requires q == p + BracketRun(text[p..])
    ensures j + DimsRun(text[j..]) == q + DimsRun(text[q..])
  {
    hide SpaceRun, BracketRun;
    var left := text[j..];
    assert left[p - j] == text[p] && left[p - j..] == text[p..] && left[q - j..] == text[q..];
    assert DimsRun(left) == DimsAfter(left, q - j);
  }

  method SkipDims(text: string, from: nat) returns (j: nat)
    requires from <= |text|
    ensures j == from + DimsRun(text[from..]) && j <= |text|
  {
    hide BracketRun, SpaceRun, DimsRun;
    j := from;
    while true
      invariant from <= j <= |text| && j + DimsRun(text[j..]) == from + DimsRun(text[from..])
      decreases |text| - j
    {
      var p := SkipSpaces(text, j);
      if p == |text| || text[p] != '[' {
        DimsStop(text, j, p);
        return p;
      }
      var q := SkipBracket(text, p);
      DimsStep(text, j, p, q);
      j := q;
    }
  }

  /** The end of the braces that open at `from`, and whether they close. */
  method SkipBraces(text: string, from: nat) returns (j: nat, closed: bool)
    requires from < |text| && text[from] == '{'
    ensures closed <==> BraceRun(text[from..], 0).Some?
    ensures closed ==> j <= |text| && j == from + BraceRun(text[from..], 0).value
  {
    j := from;
    var depth := 0;
    ghost var whole := BraceRun(text[from..], 0);
    while j < |text|
      invariant from <= j <= |text| && depth >= 0 && (j > from ==> depth > 0)
      invariant whole.Some? <==> BraceRun(text[j..], depth).Some?
      invariant whole.Some? ==> from + whole.value == j + BraceRun(text[j..], depth).value
    {
      assert text[j..][1..] == text[j + 1..];
      if text[j] == '{' {
        depth := depth + 1;
      } else if text[j] == '}' {
        depth := depth - 1;
        if depth == 0 { return j + 1, true; }
      }
      j := j + 1;
    }
    return j, false;
  }

  method ReadAfterName(text: string, from: nat) returns (step: Step)
    requires from <= |text|
    ensures step == AfterName(text[from..])
  {
    hide DimsRun, BraceRun, SpaceRun, Trim, AfterEquals;
    ghost var left := text[from..];
    var p := SkipSpaces(text, from);
    var e := SkipDims(text, from);
    if e == |text| || text[e] != '=' { return NotADecl; }
    assert left[e + 1 - from..] == text[e + 1..];
    var b := SkipSpaces(text, e + 1);
    step := ReadBody(text, from, p, e, b);
  }

  method ReadBody(text: string, from: nat, p: nat, e: nat, b: nat) returns (step: Step)
    requires from <= p <= e <= b <= |text|
    ensures step == AfterEquals(text[from..], p - from, e - from, b - from)
  {
    hide DimsRun, BraceRun, SpaceRun, Trim;
    ghost var left := text[from..];
    if b == |text| || text[b] != '{' { return NotADecl; }
    assert left[b - from..] == text[b..];
    var j, closed := SkipBraces(text, b);
    if !closed { return Unbalanced; }
    assert left[p - from..e - from] == text[p..e] && left[b - from..j - from] == text[b..j];
    step := Found(Trim(text[p..e]), text[b..j], j - from);
  }

  predicate AfterIdent(text: string, i: nat)
    requires i <= |text|
  {
    i > 0 && IsIdentByte(text[i - 1])
  }

  function ScanAt(text: string, i: nat): Result<seq<Decl>>
    requires i <= |text|
  {
    Scan(AfterIdent(text, i), text[i..])
  }

  method ClassifyBody(body: string) returns (numeric: bool)
    ensures numeric == IsNumericBody(body)
  {
    for k := 0 to |body|
      invariant forall i | 0 <= i < k :: NumericAt(body, i)
    {
      if IsNameStart(body[k]) {
        assert !NumericAt(body, k);
        return false;
      }
      if body[k] == '-' {
        var j := SkipSpaces(body, k + 1);
        if j == |body| || !IsDigit(body[j]) {
          assert !NumericAt(body, k);
          return false;
        }
      }
    }
    return true;
  }

  /** One turn of the parser: a declaration, or a step past what is none. */
  method ParseStep(text: string, i: nat) returns (found: Result<Option<Decl>>, next: nat)
    requires i < |text|
    ensures found.Err? ==> ScanAt(text, i).Err?
    ensures found.Ok? ==> i < next <= |text|
    ensures found.Ok? ==>
      ScanAt(text, i)
      == if found.value.None? then ScanAt(text, next) else AddDecls([found.value.value], ScanAt(text, next))
  {
    hide AfterName, IsNumericBody, Scan;
    if AfterIdent(text, i) || !IsNameStart(text[i]) {
      PlainStep(text, i);
      return Ok(None), i + 1;
    }
    var n := SkipIdent(text, i);
    NameStep(text, i, n);
    var step := ReadAfterName(text, n);
    match step
    case Unbalanced => return Err, n;
    case NotADecl => return Ok(None), n;
    case Found(dims, body, length) =>
      var numeric := ClassifyBody(body);
      return Ok(Some(Decl(text[i..n], dims, numeric, body))), n + length;
  }

  lemma PlainStep(text: string, i: nat)
    requires i < |text| && (AfterIdent(text, i) || !IsNameStart(text[i]))
    ensures ScanAt(text, i) == ScanAt(text, i + 1)
  {
    assert text[i..][1..] == text[i + 1..];
  }

  /** Scanning from a name, and what that is in the terms of the text it stands in. */
  function ScanFrom(name: string, step: Step, s: string): Result<seq<Decl>>
    requires step.Found? ==> step.length <= |s|
  {
    match step
    case NotADecl => Scan(true, s)
    case Unbalanced => Err
    case Found(dims, body, length) =>
      AddDecls([Decl(name, dims, IsNumericBody(body), body)], Scan(false, s[length..]))
  }

  lemma NameRuns(s: string)
    requires s != "" && IsNameStart(s[0])
    ensures IdentRun(s) > 0
  {}

  lemma NamedScan(s: string, n: nat)
    requires s != "" && IsNameStart(s[0]) && n == IdentRun(s)
    ensures n > 0 && Scan(false, s) == ScanFrom(s[..n], AfterName(s[n..]), s[n..])
  {
    hide AfterName, IsNumericBody, AddDecls, IdentRun, IsNameStart, IsIdentByte;
    NameRuns(s);
    if AfterName(s[n..]).Found? {
      assert s[n..][AfterName(s[n..]).length..] == s[n + AfterName(s[n..]).length..];
    }
  }

  lemma NameStep(text: string, i: nat, n: nat)
    requires i < |text| && !AfterIdent(text, i) && IsNameStart(text[i])
    requires n == i + IdentRun(text[i..])
    ensures i < n <= |text|
    ensures match AfterName(text[n..])
            case Unbalanced => ScanAt(text, i).Err?
            case NotADecl => ScanAt(text, i) == ScanAt(text, n)
            case Found(dims, body, length) =>
              ScanAt(text, i)
              == AddDecls([Decl(text[i..n], dims, IsNumericBody(body), body)], ScanAt(text, n + length))
  {
    hide AfterName, IsNumericBody, AddDecls, Scan, IdentRun;
    var left := text[i..];
    NamedScan(left, n - i);
    assert left[n - i..] == text[n..] && left[..n - i] == text[i..n];
    assert left[n - i - 1] == text[n - 1] && AfterIdent(text, n);
    if AfterName(text[n..]).Found? { FoundStep(text, n, AfterName(text[n..]).length); }
  }

  lemma FoundStep(text: string, n: nat, length: nat)
    requires n <= |text| && AfterName(text[n..]).Found? && AfterName(text[n..]).length == length
    ensures text[n..][length..] == text[n + length..] && !AfterIdent(text, n + length)
  {
    hide AfterName;
    FoundEndsWithBrace(text[n..]);
    assert text[n..][length - 1] == text[n + length - 1];
  }

  method ParseDecls(raw: string) returns (r: Result<seq<Decl>>)
    ensures r == Declarations(raw)
  {
    var text := StripComments(raw);
    var decls, i := [], 0;
    assert text[0..] == text;
    AddDeclsAppend([], Decl("", "", true, ""), ScanAt(text, 0));
    while i < |text|
      invariant 0 <= i <= |text|
      invariant Scan(false, text) == AddDecls(decls, ScanAt(text, i))
      decreases |text| - i
    {
      var found, next := ParseStep(text, i);
      if found.Err? { return Err; }
      if found.value.Some? {
        AddDeclsAppend(decls, found.value.value, ScanAt(text, next));
        decls := decls + [found.value.value];
      }
      i := next;
    }
    assert text[i..] == "" && decls + [] == decls;
    if decls == [] { return Err; }
    return Ok(decls);
  }

  lemma {:induction false} BraceRunEnds(s: string, depth: nat)
    ensures BraceRun(s, depth).Some? ==> s[BraceRun(s, depth).value - 1] == '}'
  {
    if s != "" && !(s[0] == '}' && depth <= 1) {
      BraceRunEnds(s[1..], if s[0] == '{' then depth + 1 else if s[0] == '}' then depth - 1 else depth);
    }
  }

  lemma FoundEndsWithBrace(s: string)
    ensures AfterName(s).Found? ==> s[AfterName(s).length - 1] == '}'
  {
    hide AfterEquals, SpaceRun, DimsRun;
    if AfterName(s).Found? {
      var e := DimsRun(s);
      BodyEndsWithBrace(s, SpaceRun(s), e, e + 1 + SpaceRun(s[e + 1..]));
    }
  }

  lemma BodyEndsWithBrace(s: string, p: nat, e: nat, b: nat)
    requires p <= e <= b <= |s| && AfterEquals(s, p, e, b).Found?
    ensures s[AfterEquals(s, p, e, b).length - 1] == '}'
  {
    hide BraceRun, Trim;
    BraceRunEnds(s[b..], 0);
  }

  // ---------- printed declarations ----------

  /** What may stand between declarations. */
  datatype Piece = Blank(c: char) | BlockComment(text: string) | LineComment(text: string)

  predicate NoCloser(text: string) {
    forall k | 0 <= k < |text| - 1 :: !(text[k] == '*' && text[k + 1] == '/')
  }

  predicate ValidPiece(p: Piece) {
    match p
    case Blank(c) => IsAsciiSpace(c)
    case BlockComment(text) => NoCloser(text)
    case LineComment(text) => '\n' !in text
  }

  function PieceText(p: Piece): string {
    match p
    case Blank(c) => [c]
    case BlockComment(text) => "/*" + text + "*/"
    case LineComment(text) => "//" + text + "\n"
  }

  function GapText(gap: seq<Piece>): string {
    if gap == [] then "" else PieceText(gap[0]) + GapText(gap[1..])
  }

  function BreaksOf(text: string): string {
    if text == "" then "" else Break(text[0]) + BreaksOf(text[1..])
  }

  function StrippedPiece(p: Piece): string {
    match p
    case Blank(c) => [c]
    case BlockComment(text) => BreaksOf(text) + " "
    case LineComment(text) => "\n"
  }

  function StrippedGap(gap: seq<Piece>): string {
    if gap == [] then "" else StrippedPiece(gap[0]) + StrippedGap(gap[1..])
  }

  /** What a body is made of: marks and blanks, numerals, names, and minus signs with the blanks behind them. */
  datatype BodyPart = Mark(c: char) | Numeral(digits: string) | Name(text: string) | Minus(blanks: string)

  predicate ValidPart(p: BodyPart) {
    match p
    case Mark(c) => !IsIdentByte(c) && c != '-'
    case Numeral(digits) => digits != "" && forall c | c in digits :: IsDigit(c)
    case Name(text) => (forall c | c in text :: IsIdentByte(c)) && exists i | 0 <= i < |text| :: !IsDigit(text[i])
    case Minus(blanks) => forall c | c in blanks :: IsAsciiSpace(c)
  }

  /** Valid parts; a minus sign has taken all the blanks behind it. */
  predicate ValidParts(parts: seq<BodyPart>) {
    && (forall p | p in parts :: ValidPart(p))
    && forall i | 0 < i < |parts| && parts[i - 1].Minus? && parts[i].Mark? :: !IsAsciiSpace(parts[i].c)
  }

  function PartText(p: BodyPart): string {
    match p
    case Mark(c) => [c]
    case Numeral(digits) => digits
    case Name(text) => text
    case Minus(blanks) => "-" + blanks
  }

  function PartsText(parts: seq<BodyPart>): string {
    if parts == [] then "" else PartText(parts[0]) + PartsText(parts[1..])
  }

  /** No part is a name, and every minus sign stands before a numeral. */
  predicate OnlyNumbers(parts: seq<BodyPart>) { forall i | 0 <= i < |parts| :: IsNumberPart(parts, i) }

  predicate IsNumberPart(parts: seq<BodyPart>, i: nat)
    requires i < |parts|
  {
    !parts[i].Name? && (parts[i].Minus? ==> i + 1 < |parts| && parts[i + 1].Numeral?)
  }

  datatype Entry = Entry(name: string, dims: seq<string>, parts: seq<BodyPart>)

  function BodyText(e: Entry): string { PartsText(e.parts) }

  function DimsText(dims: seq<string>): string {
    if dims == [] then "" else "[" + dims[0] + "]" + DimsText(dims[1..])
  }

  function EntryText(e: Entry): string { e.name + DimsText(e.dims) + " = " + BodyText(e) }

  /** Braces balance, and the first one closes only at the very end. */
  predicate Balanced(body: string) {
    && body != "" && body[0] == '{' && body[|body| - 1] == '}'
    && Count(body, '{') == Count(body, '}')
    && forall k | 0 < k < |body| :: Count(body[..k], '{') > Count(body[..k], '}')
  }

  predicate ValidEntry(e: Entry) {
    && e.name != "" && IsNameStart(e.name[0]) && (forall c | c in e.name :: IsIdentByte(c))
    && (forall d | d in e.dims :: ']' !in d)
    && ValidParts(e.parts) && Balanced(BodyText(e))
    && !HasOpener(EntryText(e))
  }

  function DeclOf(e: Entry): Decl { Decl(e.name, DimsText(e.dims), OnlyNumbers(e.parts), BodyText(e)) }

  /** Entries, each after a gap, and a last gap. */
  function FileText(entries: seq<(seq<Piece>, Entry)>, tail: seq<Piece>): string {
    if entries == [] then GapText(tail)
    else GapText(entries[0].0) + EntryText(entries[0].1) + FileText(entries[1..], tail)
  }

  function StrippedFile(entries: seq<(seq<Piece>, Entry)>, tail: seq<Piece>): string {
    if entries == [] then StrippedGap(tail)
    else StrippedGap(entries[0].0) + EntryText(entries[0].1) + StrippedFile(entries[1..], tail)
  }

  predicate ValidFile(entries: seq<(seq<Piece>, Entry)>, tail: seq<Piece>) {
    && (forall p | p in tail :: ValidPiece(p))
    && forall e | e in entries :: ValidEntry(e.1) && forall p | p in e.0 :: ValidPiece(p)
  }

  function DeclsOf(entries: seq<(seq<Piece>, Entry)>): (r: seq<Decl>)
    ensures |r| == |entries|
  {
    if entries == [] then [] else [DeclOf(entries[0].1)] + DeclsOf(entries[1..])
  }

  // ---------- when a body is numeric ----------

  lemma NumericSplit(a: string, b: string)
    ensures IsNumericBody(a + b) <==> (forall k | 0 <= k < |a| :: NumericAt(a + b, k)) && IsNumericBody(b)
  {
    hide NumericAt;
    var s := a + b;
    assert s[|a|..] == b;
    forall k | |a| <= k < |s| ensures NumericAt(s, k) <==> NumericAt(b, k - |a|) { NumericAtSuffix(s, |a|, k); }
    if IsNumericBody(s) {
      forall k | 0 <= k < |b| ensures NumericAt(b, k) { assert NumericAt(s, |a| + k); }
    }
  }

  lemma MinusIsNumeric(blanks: string, rest: string)
    requires (forall c | c in blanks :: IsAsciiSpace(c)) && (rest != "" ==> !IsAsciiSpace(rest[0]))
    ensures var s := PartText(Minus(blanks)) + rest;
      && (NumericAt(s, 0) <==> rest != "" && IsDigit(rest[0]))
      && forall k | 0 < k < |PartText(Minus(blanks))| :: NumericAt(s, k)
  {
    var s, tail := PartText(Minus(blanks)) + rest, blanks + rest;
    assert s == "-" + tail && s[0 + 1..] == tail;
    assert forall k | 0 <= k < |blanks| :: tail[k] in blanks;
    assert |blanks| < |tail| ==> tail[|blanks|] == rest[0] && s[1 + |blanks|] == rest[0];
    SpaceRunIs(tail, |blanks|);
    forall k | 0 < k < |PartText(Minus(blanks))| ensures NumericAt(s, k) {
      assert s[k] == blanks[k - 1] && blanks[k - 1] in blanks;
    }
  }

  /** The chars of one part are numeric, before what follows it. */
  lemma PartIsNumeric(p: BodyPart, rest: string)
    requires ValidPart(p) && (p.Minus? && rest != "" ==> !IsAsciiSpace(rest[0]))
    ensures (forall k | 0 <= k < |PartText(p)| :: NumericAt(PartText(p) + rest, k))
       <==> !p.Name? && (p.Minus? ==> rest != "" && IsDigit(rest[0]))
  {
    var s := PartText(p) + rest;
    match p
    case Mark(c) => assert s[0] == c;
    case Numeral(digits) =>
      forall k | 0 <= k < |digits| ensures NumericAt(s, k) { assert s[k] == digits[k] && digits[k] in digits; }
    case Name(text) =>
      var i :| 0 <= i < |text| && !IsDigit(text[i]);
      assert s[i] == text[i] && text[i] in text && !NumericAt(s, i);
    case Minus(blanks) => MinusIsNumeric(blanks, rest);
  }

  lemma {:induction false} FirstOfParts(parts: seq<BodyPart>)
    requires (forall p | p in parts :: ValidPart(p)) && parts != []
    ensures PartsText(parts) != ""
    ensures IsDigit(PartsText(parts)[0]) ==> parts[0].Numeral? || parts[0].Name?
    ensures parts[0].Numeral? ==> IsDigit(PartsText(parts)[0])
    ensures IsAsciiSpace(PartsText(parts)[0]) ==> parts[0].Mark? && IsAsciiSpace(parts[0].c)
  {
    var p := parts[0];
    assert p in parts;
    if p.Numeral? { assert p.digits[0] in p.digits; }
    if p.Name? { assert p.text[0] in p.text; }
    assert PartText(p) != "" && PartsText(parts)[0] == PartText(p)[0];
  }

  /** The classifier says numeric exactly when the body holds numbers and no names. */
  lemma {:induction false} NumericExactly(parts: seq<BodyPart>)
    requires ValidParts(parts)
    ensures IsNumericBody(PartsText(parts)) <==> OnlyNumbers(parts)
    decreases |parts|
  {
    hide IsNumericBody, NumericAt;
    if parts == [] {
      NothingIsNumeric();
    } else {
      var rest := parts[1..];
      assert parts[0] in parts && forall p | p in rest :: p in parts;
      forall i | 0 < i < |rest| && rest[i - 1].Minus? && rest[i].Mark? ensures !IsAsciiSpace(rest[i].c) {
        assert parts[i].Minus? && parts[i + 1].Mark?;
      }
      NumericExactly(rest);
      if rest != [] { FirstOfParts(rest); }
      if rest != [] && rest[0].Name? { assert !IsNumberPart(rest, 0); }
      if parts[0].Minus? && rest != [] { assert parts[1] == rest[0]; }
      PartIsNumeric(parts[0], PartsText(rest));
      NumericSplit(PartText(parts[0]), PartsText(rest));
      NumbersSplit(parts);
    }
  }

  lemma NothingIsNumeric()
    ensures IsNumericBody("") && PartsText([]) == ""
  {}

  lemma NumbersSplit(parts: seq<BodyPart>)
    requires parts != []
    ensures OnlyNumbers(parts)
       <==> && !parts[0].Name? && (parts[0].Minus? ==> |parts| > 1 && parts[1].Numeral?)
            && OnlyNumbers(parts[1..])
  {
    var rest := parts[1..];
    forall i: nat | 0 < i < |parts| ensures IsNumberPart(parts, i) <==> IsNumberPart(rest, i - 1) {}
    if OnlyNumbers(parts) {
      assert IsNumberPart(parts, 0);
      forall i: nat | i < |rest| ensures IsNumberPart(rest, i) { assert IsNumberPart(parts, i + 1); }
    }
    if OnlyNumbers(rest) && IsNumberPart(parts, 0) {
      forall i: nat | i < |parts| ensures IsNumberPart(parts, i) { if i > 0 { assert IsNumberPart(rest, i - 1); } }
    }
  }

  /** Every body is made of such parts. */
  lemma {:induction false} BodyHasParts(body: string) returns (parts: seq<BodyPart>)
    ensures ValidParts(parts) && PartsText(parts) == body
    decreases |body|
  {
    if body == "" {
      parts := [];
    } else {
      var first := FirstPart(body);
      var n := |PartText(first)|;
      var rest := BodyHasParts(body[n..]);
      if rest != [] { FirstOfParts(rest); }
      parts := [first] + rest;
      assert parts[1..] == rest && body == body[..n] + body[n..];
    }
  }

  lemma FirstPart(body: string) returns (p: BodyPart)
    requires body != ""
    ensures ValidPart(p) && PartText(p) != "" && |PartText(p)| <= |body| && body[..|PartText(p)|] == PartText(p)
    ensures p.Minus? && |PartText(p)| < |body| ==> !IsAsciiSpace(body[|PartText(p)|])
  {
    if IsIdentByte(body[0]) {
      var text := body[..IdentRun(body)];
      assert forall c | c in text :: IsIdentByte(c);
      p := if exists i | 0 <= i < |text| :: !IsDigit(text[i]) then Name(text) else Numeral(text);
      assert IdentRun(body) > 0;
    } else if body[0] == '-' {
      var n := SpaceRun(body[1..]);
      p := Minus(body[1..1 + n]);
      assert forall k | 0 <= k < n :: body[1 + k] == body[1..][k];
      assert 1 + n < |body| ==> body[1 + n] == body[1..][n];
    } else {
      p := Mark(body[0]);
    }
  }

  // ---------- stripping a printed file ----------

  lemma NoCloserTail(text: string)
    requires text != "" && NoCloser(text)
    ensures NoCloser(text[1..]) && !Begins(text, '*', '/')
  {
    forall k | 0 <= k < |text| - 2 ensures !(text[1..][k] == '*' && text[1..][k + 1] == '/') {
      assert text[1..][k] == text[k + 1] && text[1..][k + 1] == text[k + 1 + 1];
    }
    if |text| > 1 { assert text[1] == text[0 + 1]; }
  }

  lemma StripBlockTail(s: string)
    requires |s| > 1 && !Begins(s, '*', '/')
    ensures StripBlock(s) == Break(s[0]) + StripBlock(s[1..])
  {
    hide Strip, Break;
  }

  lemma BlockTextStep(text: string, rest: string)
    requires text != "" && !Begins(text, '*', '/')
    ensures StripBlock(text + "*/" + rest) == Break(text[0]) + StripBlock(text[1..] + "*/" + rest)
  {
    hide StripBlock, Break;
    var s := text + "*/" + rest;
    assert s[0] == text[0] && s[1] == if |text| > 1 then text[1] else '*';
    StripBlockTail(s);
    assert s[1..] == text[1..] + "*/" + rest;
  }

  lemma BlockTextEnds(rest: string)
    ensures StripBlock("" + "*/" + rest) == " " + Strip(rest) && BreaksOf("") == ""
  {
    hide Strip;
    var s := "" + "*/" + rest;
    assert s[0] == '*' && s[1] == '/' && s[2..] == rest;
  }

  lemma {:induction false} StripBlockText(text: string, rest: string)
    requires NoCloser(text)
    ensures StripBlock(text + "*/" + rest) == BreaksOf(text) + " " + Strip(rest)
  {
    hide Strip, StripBlock, NoCloser, Break;
    if text == "" {
      BlockTextEnds(rest);
      assert BreaksOf(text) + " " + Strip(rest) == " " + Strip(rest);
    } else {
      NoCloserTail(text);
      BlockTextStep(text, rest);
      StripBlockText(text[1..], rest);
    }
  }

  lemma {:induction false} StripLineText(text: string, rest: string)
    requires '\n' !in text
    ensures StripLine(text + "\n" + rest) == "\n" + Strip(rest)
  {
    var s := text + "\n" + rest;
    if text == "" {
      assert s == "\n" + rest && s[1..] == rest;
    } else {
      assert s[1..] == text[1..] + "\n" + rest;
      StripLineText(text[1..], rest);
    }
  }

  lemma StripPiece(p: Piece, rest: string)
    requires ValidPiece(p)
    ensures Strip(PieceText(p) + rest) == StrippedPiece(p) + Strip(rest)
  {
    hide StripBlock, StripLine, BreaksOf, NoCloser;
    var s := PieceText(p) + rest;
    match p
    case Blank(c) =>
      assert s[1..] == rest;
    case BlockComment(text) =>
      assert s[2..] == text + "*/" + rest;
      StripBlockText(text, rest);
    case LineComment(text) =>
      assert s[2..] == text + "\n" + rest;
      StripLineText(text, rest);
  }

  lemma {:induction false} StripGap(gap: seq<Piece>, rest: string)
    requires forall p | p in gap :: ValidPiece(p)
    ensures Strip(GapText(gap) + rest) == StrippedGap(gap) + Strip(rest)
  {
    hide Strip, PieceText, StrippedPiece, ValidPiece;
    if gap == [] {
      assert "" + rest == rest && "" + Strip(rest) == Strip(rest);
    } else {
      StripGap(gap[1..], rest);
      StripPiece(gap[0], GapText(gap[1..]) + rest);
      Regroup(PieceText(gap[0]), GapText(gap[1..]), rest);
      Regroup(StrippedPiece(gap[0]), StrippedGap(gap[1..]), Strip(rest));
    }
  }

  lemma {:induction false} StripPlain(a: string, rest: string)
    requires !HasOpener(a) && (a != "" ==> a[|a| - 1] != '/')
    ensures Strip(a + rest) == a + Strip(rest)
  {
    if a == "" {
      assert a + rest == rest && "" + Strip(rest) == Strip(rest);
    } else {
      var s := a + rest;
      assert s[1..] == a[1..] + rest;
      if |a| > 1 {
        assert !(a[0] == '/' && (a[0 + 1] == '/' || a[0 + 1] == '*'));
        assert s[1] == a[1];
      }
      forall k | 0 <= k < |a[1..]| - 1 ensures !(a[1..][k] == '/' && (a[1..][k + 1] == '/' || a[1..][k + 1] == '*')) {
        assert a[1..][k] == a[k + 1] && a[1..][k + 1] == a[k + 1 + 1];
      }
      StripPlain(a[1..], rest);
      assert [a[0]] + (a[1..] + Strip(rest)) == a + Strip(rest);
    }
  }

  lemma EntryEnds(e: Entry)
    requires ValidEntry(e)
    ensures EntryText(e)[|EntryText(e)| - 1] == '}'
  {
    assert EntryText(e)[|EntryText(e)| - 1] == BodyText(e)[|BodyText(e)| - 1];
  }

  lemma {:induction false} StripFile(entries: seq<(seq<Piece>, Entry)>, tail: seq<Piece>)
    requires ValidFile(entries, tail)
    ensures Strip(FileText(entries, tail)) == StrippedFile(entries, tail)
  {
    hide Strip, EntryText, ValidEntry;
    if entries == [] {
      StripGap(tail, "");
      WithoutOpenerUnchanged("");
      assert GapText(tail) + "" == GapText(tail) && StrippedGap(tail) + "" == StrippedGap(tail);
    } else {
      assert ValidEntry(entries[0].1);
      StripFile(entries[1..], tail);
      StripEntry(entries[0].0, entries[0].1, FileText(entries[1..], tail));
    }
  }

  lemma StripEntry(gap: seq<Piece>, e: Entry, rest: string)
    requires ValidEntry(e) && forall p | p in gap :: ValidPiece(p)
    ensures Strip(GapText(gap) + EntryText(e) + rest) == StrippedGap(gap) + EntryText(e) + Strip(rest)
  {
    hide EntryText, Strip, GapText, StrippedGap;
    var text := EntryText(e);
    StripGap(gap, text + rest);
    EntryEnds(e);
    StripPlain(text, rest);
    Regroup(GapText(gap), text, rest);
    Regroup(StrippedGap(gap), text, Strip(rest));
  }

  lemma Regroup(a: string, b: string, c: string)
    ensures a + b + c == a + (b + c)
  {}

  // ---------- scanning a stripped file ----------

  predicate AllBlank(s: string) { forall c | c in s :: IsAsciiSpace(c) }

  lemma {:induction false} StrippedGapIsBlank(gap: seq<Piece>)
    requires forall p | p in gap :: ValidPiece(p)
    ensures AllBlank(StrippedGap(gap))
  {
    if gap != [] {
      StrippedGapIsBlank(gap[1..]);
      assert ValidPiece(gap[0]);
      if gap[0].BlockComment? { BreaksAreBlank(gap[0].text); }
    }
  }

  lemma {:induction false} BreaksAreBlank(text: string)
    ensures AllBlank(BreaksOf(text))
  {
    if text != "" { BreaksAreBlank(text[1..]); }
  }

  lemma {:induction false} ScanBlank(blank: string, rest: string)
    requires AllBlank(blank)
    ensures Scan(false, blank + rest) == Scan(false, rest)
  {
    hide AfterName, IdentRun, IsNumericBody;
    if blank == "" {
      assert blank + rest == rest;
    } else {
      assert (blank + rest)[1..] == blank[1..] + rest;
      assert blank[0] in blank;
      ScanBlank(blank[1..], rest);
    }
  }

  lemma {:induction false} IdentRunIs(name: string, rest: string)
    requires (forall c | c in name :: IsIdentByte(c)) && (rest == "" || !IsIdentByte(rest[0]))
    ensures IdentRun(name + rest) == |name|
  {
    if name == "" {
      assert name + rest == rest;
    } else {
      assert (name + rest)[1..] == name[1..] + rest;
      assert name[0] in name;
      IdentRunIs(name[1..], rest);
    }
  }

  lemma {:induction false} BracketRunIs(inner: string, rest: string)
    requires ']' !in inner
    ensures BracketRun(inner + "]" + rest) == |inner| + 1
  {
    var s := inner + "]" + rest;
    if inner == "" {
      assert s == "]" + rest;
    } else {
      assert s[1..] == inner[1..] + "]" + rest;
      assert inner[0] in inner;
      BracketRunIs(inner[1..], rest);
    }
  }

  lemma DimsGroup(s: string)
    requires s != "" && s[0] == '['
    ensures DimsRun(s) == BracketRun(s) + DimsRun(s[BracketRun(s)..])
  {
    hide BracketRun;
    SpaceRunIs(s, 0);
    assert s[0..] == s;
  }

  lemma OneDim(d: string, others: string)
    requires ']' !in d
    ensures DimsRun("[" + d + "]" + others) == |d| + 2 + DimsRun(others)
  {
    hide DimsRun, BracketRun;
    var inner := "[" + d;
    var s := inner + "]" + others;
    assert ']' !in inner && s[0] == '[';
    BracketRunIs(inner, others);
    DimsGroup(s);
    assert s[|d| + 2..] == others;
  }

  lemma NoDims(rest: string)
    requires rest != "" && rest[0] == '='
    ensures DimsRun(" " + rest) == 1
  {
    hide BracketRun, SpaceRun;
    var s := " " + rest;
    assert s[1] == '=';
    SpaceRunIs(s, 1);
  }

  /** The bracket groups and the blank before the equals sign are read as dimensions. */
  lemma {:induction false} DimsRunIs(dims: seq<string>, rest: string)
    requires (forall d | d in dims :: ']' !in d) && rest != "" && rest[0] == '='
    ensures DimsRun(DimsText(dims) + " " + rest) == |DimsText(dims)| + 1
  {
    hide DimsRun;
    if dims == [] {
      assert DimsText(dims) + " " + rest == " " + rest;
      NoDims(rest);
    } else {
      assert dims[0] in dims;
      var others := DimsText(dims[1..]) + " " + rest;
      assert DimsText(dims) + " " + rest == "[" + dims[0] + "]" + others;
      OneDim(dims[0], others);
      DimsRunIs(dims[1..], rest);
    }
  }

  lemma DimsTrimmed(dims: seq<string>)
    ensures var s := DimsText(dims) + " "; SpaceRun(s) <= |s| && Trim(s[SpaceRun(s)..]) == DimsText(dims)
  {
    var text := DimsText(dims);
    var s := text + " ";
    if dims == [] {
      assert s == " ";
      SpaceRunIs(s, 1);
      assert s[1..] == "" && Trim("") == "";
    } else {
      DimsEnds(dims);
      SpaceRunIs(s, 0);
      assert s[0..] == "" + text + " ";
      TrimPadded("", text, " ");
    }
  }

  lemma {:induction false} DimsEnds(dims: seq<string>)
    requires dims != []
    ensures DimsText(dims) != "" && DimsText(dims)[0] == '[' && DimsText(dims)[|DimsText(dims)| - 1] == ']'
  {
    if |dims| > 1 { DimsEnds(dims[1..]); }
  }

  lemma CountAppend(s: string, d: char, c: char)
    ensures Count(s + [d], c) == Count(s, c) + if d == c then 1 else 0
  {
    CountJoins(s, [d], c);
    CountOne(d, c);
  }

  /** Reading from position k of a balanced body with its open braces counted stops at the body's end. */
  lemma {:induction false} BraceRunIs(body: string, rest: string, k: nat, depth: nat)
    requires Balanced(body) && k < |body| && depth + Count(body[..k], '}') == Count(body[..k], '{')
    ensures BraceRun(body[k..] + rest, depth) == Some(|body| - k)
    decreases |body| - k
  {
    var s := body[k..] + rest;
    assert s[0] == body[k] && s[1..] == body[k + 1..] + rest;
    assert body[..k + 1] == body[..k] + [body[k]];
    CountAppend(body[..k], body[k], '{');
    CountAppend(body[..k], body[k], '}');
    if k + 1 == |body| {
      assert body[..k + 1] == body;
    } else {
      assert Count(body[..k + 1], '{') > Count(body[..k + 1], '}');
      BraceRunIs(body, rest, k + 1, Count(body[..k + 1], '{') - Count(body[..k + 1], '}'));
    }
  }

  lemma EqualsThenBody(after: string, body: string, rest: string)
    requires after == "= " + body + rest && Balanced(body)
    ensures SpaceRun(after[1..]) == 1 && |after| > 2 && after[2] == '{'
    ensures BraceRun(after[2..], 0) == Some(|body|) && after[2..2 + |body|] == body
  {
    assert after[1..] == " " + (body + rest);
    SpaceRunIs(after[1..], 1);
    assert after[2..] == body + rest && after[2] == body[0];
    assert body[..0] == "" && body[0..] == body;
    BraceRunIs(body, rest, 0, 0);
  }

  lemma AfterNameIs(dims: seq<string>, body: string, rest: string)
    requires (forall d | d in dims :: ']' !in d) && Balanced(body)
    ensures AfterName(DimsText(dims) + " = " + body + rest)
         == Found(DimsText(dims), body, |DimsText(dims)| + 3 + |body|)
  {
    hide AfterEquals, BraceRun, Trim, DimsText, DimsRun, Balanced, SpaceRun;
    var front, after := DimsText(dims) + " ", "= " + body + rest;
    var s := DimsText(dims) + " = " + body + rest;
    var e := |front|;
    assert s == front + after;
    DimsRunIs(dims, after);
    DimsTrimmed(dims);
    SpaceRunPrefix(front, after);
    EqualsThenBody(after, body, rest);
    assert s[e] == '=' && s[e + 1..] == after[1..];
    BodyIs(dims, front, after, body);
    assert DimsRun(s) == e && SpaceRun(s) == SpaceRun(front);
    assert AfterName(s) == AfterDims(s, SpaceRun(front), e) == AfterEquals(s, SpaceRun(front), e, e + 2);
  }

  lemma BodyIs(dims: seq<string>, front: string, after: string, body: string)
    requires SpaceRun(front) <= |front| && Trim(front[SpaceRun(front)..]) == DimsText(dims)
    requires |after| > 2 && after[2] == '{' && BraceRun(after[2..], 0) == Some(|body|) && after[2..2 + |body|] == body
    ensures AfterEquals(front + after, SpaceRun(front), |front|, |front| + 2)
         == Found(DimsText(dims), body, |front| + 2 + |body|)
  {
    hide BraceRun, Trim, DimsText, SpaceRun;
    var s, p, b := front + after, SpaceRun(front), |front| + 2;
    assert s[p..|front|] == front[p..];
    assert s[b..] == after[2..] && s[b] == after[2];
    assert s[b..b + |body|] == after[2..2 + |body|];
  }

  lemma SpaceRunPrefix(a: string, b: string)
    requires b != "" && !IsAsciiSpace(b[0])
    ensures SpaceRun(a + b) == SpaceRun(a)
  {
    var n := SpaceRun(a);
    assert forall k | 0 <= k < n :: (a + b)[k] == a[k];
    assert (a + b)[n] == if n < |a| then a[n] else b[0];
    SpaceRunIs(a + b, n);
  }

  /** The name of a printed entry is read whole. */
  lemma EntryStarts(e: Entry, rest: string)
    requires ValidEntry(e)
    ensures var s, n := EntryText(e) + rest, |e.name|;
      && s != "" && IsNameStart(s[0]) && n == IdentRun(s)
      && s[..n] == e.name && s[n..] == DimsText(e.dims) + " = " + BodyText(e) + rest
  {
    hide Balanced, HasOpener, IsNameStart;
    var s, after := EntryText(e) + rest, DimsText(e.dims) + " = " + BodyText(e) + rest;
    assert s == e.name + after;
    if e.dims != [] { DimsEnds(e.dims); }
    hide DimsText;
    IdentRunIs(e.name, after);
    assert s[0] == e.name[0];
  }

  lemma EntryContinues(e: Entry, rest: string)
    requires ValidEntry(e)
    ensures AfterName(DimsText(e.dims) + " = " + BodyText(e) + rest)
         == Found(DimsText(e.dims), BodyText(e), |DimsText(e.dims)| + 3 + |BodyText(e)|)
  {
    hide AfterName, DimsText, Balanced, HasOpener;
    AfterNameIs(e.dims, BodyText(e), rest);
  }

  lemma EntryIsClassified(e: Entry)
    requires ValidEntry(e)
    ensures IsNumericBody(BodyText(e)) == OnlyNumbers(e.parts)
  {
    hide HasOpener, Balanced;
    NumericExactly(e.parts);
  }

  lemma ScanEntry(e: Entry, rest: string)
    requires ValidEntry(e)
    ensures Scan(false, EntryText(e) + rest) == AddDecls([DeclOf(e)], Scan(false, rest))
  {
    hide AfterName, IsNumericBody, Scan, AddDecls, IdentRun, DimsText, ValidEntry, IsNameStart;
    var s, after := EntryText(e) + rest, DimsText(e.dims) + " = " + BodyText(e) + rest;
    EntryStarts(e, rest);
    NamedScan(s, |e.name|);
    EntryContinues(e, rest);
    EntryIsClassified(e);
    assert after[|DimsText(e.dims)| + 3 + |BodyText(e)|..] == rest;
  }

  lemma ScanNothing()
    ensures Scan(false, "") == Ok([])
  {}

  lemma {:induction false} ScanFile(entries: seq<(seq<Piece>, Entry)>, tail: seq<Piece>)
    requires ValidFile(entries, tail)
    ensures Scan(false, StrippedFile(entries, tail)) == Ok(DeclsOf(entries))
  {
    hide Scan, EntryText, ValidEntry, DeclOf;
    ScanNothing();
    if entries == [] {
      StrippedGapIsBlank(tail);
      ScanBlank(StrippedGap(tail), "");
      assert StrippedGap(tail) + "" == StrippedGap(tail);
    } else {
      assert ValidEntry(entries[0].1);
      var (gap, e) := entries[0];
      var rest := StrippedFile(entries[1..], tail);
      StrippedGapIsBlank(gap);
      assert StrippedFile(entries, tail) == StrippedGap(gap) + (EntryText(e) + rest);
      ScanBlank(StrippedGap(gap), EntryText(e) + rest);
      ScanEntry(e, rest);
      ScanFile(entries[1..], tail);
    }
  }

  /** A printed list of declarations, with comments and blanks between them, parses to that list. */
  lemma PrintedDeclsParse(entries: seq<(seq<Piece>, Entry)>, tail: seq<Piece>)
    requires ValidFile(entries, tail) && entries != []
    ensures Declarations(FileText(entries, tail)) == Ok(DeclsOf(entries))
  {
    StripFile(entries, tail);
    ScanFile(entries, tail);
  }

  /** A body that can be read is always classified as numeric. */
  lemma {:induction false} ReadableIsNumeric(body: string)
    requires Tokenize(body).Ok?
    ensures IsNumericBody(body)
    decreases |body|
  {
    if body != "" {
      var n := if IsSeparator(body[0]) then 1 else FirstTok(body).value.0;
      ReadableIsNumeric(body[n..]);
      forall k | 0 <= k < |body| ensures NumericAt(body, k) {
        if k >= n { NumericAtSuffix(body, n, k); } else { FirstTokShape(body, n, k); }
      }
    }
  }

  lemma NumericAtSuffix(body: string, n: nat, k: nat)
    requires n <= k < |body|
    ensures NumericAt(body[n..], k - n) <==> NumericAt(body, k)
  {
    hide SpaceRun;
    var rest := body[n..];
    assert rest[k - n] == body[k] && rest[k - n + 1..] == body[k + 1..];
    var skip := SpaceRun(body[k + 1..]);
    assert k + 1 + skip < |body| ==> rest[k - n + 1 + skip] == body[k + 1 + skip];
  }

  lemma FirstTokShape(body: string, n: nat, k: nat)
    requires body != "" && k < n && n <= |body|
    requires if IsSeparator(body[0]) then n == 1 else FirstTok(body).Ok? && FirstTok(body).value.0 == n
    ensures NumericAt(body, k)
  {
    if !IsSeparator(body[0]) && FirstTok(body).value.1.Int? {
      var sign := SignLength(body);
      if k >= sign {
        assert body[k] == body[sign..][..n - sign][k - sign];
        assert body[k] in body[sign..][..n - sign];
      } else if k > 0 {
        assert body[k] == body[1..][k - 1];
      } else {
        assert body[sign] == body[sign..][..n - sign][0];
      }
    }
  }
}
