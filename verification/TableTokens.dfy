/**
 The table compiler's body reader (xtask/src/gen_tables.rs): a brace body is read into braces and
 integers. Reading is proved to be the inverse of writing.
 */
module TableTokens {
  import opened Wrappers
  import opened Text
  import opened Numerals

  const I64_MAX: nat := 0x7fff_ffff_ffff_ffff

  datatype Tok = Open | Close | Int(v: int)

  // ---------- reading tokens ----------

  predicate IsSeparator(c: char) { IsAsciiSpace(c) || c == ',' }

  function SpaceRun(s: string): (n: nat)
    ensures n <= |s| && (forall k | 0 <= k < n :: IsAsciiSpace(s[k])) && (n < |s| ==> !IsAsciiSpace(s[n]))
  {
    if s == "" || !IsAsciiSpace(s[0]) then 0 else 1 + SpaceRun(s[1..])
  }

  function Signed(negative: bool, mag: nat): int { if negative then 0 - mag else mag }

  /** The first token's length and value; an integer takes all the digits there are. */
  function FirstTok(body: string): (r: Result<(nat, Tok)>)
    requires body != "" && !IsSeparator(body[0])
    ensures r.Ok? ==> 0 < r.value.0 <= |body|
  {
    if body[0] == '{' then Ok((1, Open))
    else if body[0] == '}' then Ok((1, Close))
    else if body[0] == '-' || IsDigit(body[0]) then
      var number := FirstInt(body);
      if number.Err? then Err else Ok((number.value.0, Int(number.value.1)))
    else Err
  }

  function SignLength(body: string): (n: nat)
    requires body != ""
    ensures n <= |body|
  {
    if body[0] == '-' then 1 + SpaceRun(body[1..]) else 0
  }

  function FirstInt(body: string): (r: Result<(nat, int)>)
    requires body != ""
    ensures r.Ok? ==> 0 < r.value.0 <= |body|
  {
    IntAt(body, SignLength(body), DigitRun(body[SignLength(body)..]))
  }

  function IntAt(body: string, sign: nat, digits: nat): Result<(nat, int)>
    requires body != "" && sign + digits <= |body| && AllDigits(body[sign..][..digits])
  {
    var mag := NatValue(body[sign..][..digits]);
    if digits == 0 || mag > I64_MAX then Err else Ok((sign + digits, Signed(body[0] == '-', mag)))
  }

  function Tokenize(body: string): Result<seq<Tok>>
    decreases |body|
  {
    if body == "" then Ok([])
    else if IsSeparator(body[0]) then Tokenize(body[1..])
    else
      var first := FirstTok(body);
      if first.Err? then Err
      else
        Prepend([first.value.1], Tokenize(body[first.value.0..]))
  }

  function Prepend(toks: seq<Tok>, rest: Result<seq<Tok>>): Result<seq<Tok>> {
    if rest.Err? then Err else Ok(toks + rest.value)
  }

  lemma PrependAppend(out: seq<Tok>, tok: Tok, rest: Result<seq<Tok>>)
    ensures Prepend(out, Prepend([tok], rest)) == Prepend(out + [tok], rest)
    ensures Prepend([], rest) == rest
    ensures Prepend(out, Err) == Err && Prepend(out, Ok([])) == Ok(out)
  {
    assert out + [] == out;
    if rest.Ok? { assert out + ([tok] + rest.value) == (out + [tok]) + rest.value && [] + rest.value == rest.value; }
  }

  /** One step of tokenizing, in the terms of the whole body. */
  lemma TokenizeStep(body: string, i: nat)
    requires i < |body|
    ensures IsSeparator(body[i]) ==> Tokenize(body[i..]) == Tokenize(body[i + 1..])
    ensures !IsSeparator(body[i]) ==>
              var first := FirstTok(body[i..]);
              Tokenize(body[i..])
              == if first.Err? then Err else Prepend([first.value.1], Tokenize(body[i + first.value.0..]))
  {
    hide FirstTok;
    var left := body[i..];
    assert left[1..] == body[i + 1..];
    if !IsSeparator(body[i]) && FirstTok(left).Ok? {
      assert left[FirstTok(left).value.0..] == body[i + FirstTok(left).value.0..];
    }
  }

  method TokenizeBody(body: string) returns (toks: Result<seq<Tok>>)
    ensures toks == Tokenize(body)
  {
    hide Tokenize, Prepend, FirstInt;
    var out, i := [], 0;
    assert body[0..] == body;
    PrependAppend([], Open, Tokenize(body));
    while i < |body|
      invariant 0 <= i <= |body|
      invariant Tokenize(body) == Prepend(out, Tokenize(body[i..]))
    {
      var b := body[i];
      TokenizeStep(body, i);
      if IsSeparator(b) {
        i := i + 1;
      } else if b == '{' || b == '}' {
        PrependAppend(out, if b == '{' then Open else Close, Tokenize(body[i + 1..]));
        out, i := out + [if b == '{' then Open else Close], i + 1;
      } else if b == '-' || IsDigit(b) {
        var number := ReadInt(body, i);
        if number.Err? {
          PrependAppend(out, Open, Err);
          return Err;
        }
        var (stop, v) := number.value;
        PrependAppend(out, Int(v), Tokenize(body[stop..]));
        out, i := out + [Int(v)], stop;
      } else {
        PrependAppend(out, Open, Err);
        return Err;
      }
    }
    TokenizeNothing(body[i..]);
    PrependAppend(out, Open, Ok([]));
    return Ok(out);
  }

  lemma TokenizeNothing(body: string)
    requires body == ""
    ensures Tokenize(body) == Ok([])
  {}

  /** The integer literal at `i`, and where it stops. */
  method ReadInt(body: string, i: nat) returns (r: Result<(nat, int)>)
    requires i < |body| && (body[i] == '-' || IsDigit(body[i]))
    ensures r.Err? <==> FirstInt(body[i..]).Err?
    ensures r.Ok? ==> i < r.value.0 <= |body| && FirstInt(body[i..]) == Ok((r.value.0 - i, r.value.1))
  {
    hide NatValue, DigitRun, SpaceRun;
    ghost var left := body[i..];
    var at := i;
    if body[i] == '-' {
      assert left[1..] == body[i + 1..];
      at := SkipSpaces(body, i + 1);
    }
    assert body[at..] == left[at - i..];
    assert at - i == SignLength(left);
    var stop := SkipDigits(body, at);
    assert body[at..stop] == left[at - i..][..stop - at];
    assert FirstInt(left) == IntAt(left, at - i, stop - at);
    if stop == at || NatValue(body[at..stop]) > I64_MAX { return Err; }
    return Ok((stop, Signed(body[i] == '-', NatValue(body[at..stop]))));
  }

  method SkipSpaces(body: string, from: nat) returns (to: nat)
    requires from <= |body|
    ensures to == from + SpaceRun(body[from..]) && to <= |body|
  {
    to := from;
    while to < |body| && IsAsciiSpace(body[to])
      invariant from <= to <= |body|
      invariant to + SpaceRun(body[to..]) == from + SpaceRun(body[from..])
    {
      assert body[to..][1..] == body[to + 1..];
      to := to + 1;
    }
  }

  method SkipDigits(body: string, from: nat) returns (to: nat)
    requires from <= |body|
    ensures to == from + DigitRun(body[from..]) && to <= |body|
    ensures AllDigits(body[from..to])
  {
    to := from;
    while to < |body| && IsDigit(body[to])
      invariant from <= to <= |body|
      invariant to + DigitRun(body[to..]) == from + DigitRun(body[from..])
    {
      assert body[to..][1..] == body[to + 1..];
      to := to + 1;
    }
    assert body[from..to] == body[from..][..DigitRun(body[from..])];
  }

  // ---------- what a body spells ----------

  /** The texts one token may be written as. */
  ghost predicate Writes(piece: string, tok: Tok) {
    match tok
    case Open => piece == "{"
    case Close => piece == "}"
    case Int(v) => exists sign: nat :: WritesInt(piece, sign, v)
  }

  /** An optional minus sign, with blanks after it, then digits within range. */
  ghost predicate WritesInt(piece: string, sign: nat, v: int) {
    && sign <= |piece| && piece[sign..] != "" && AllDigits(piece[sign..])
    && (sign > 0 ==> piece[0] == '-' && forall k | 1 <= k < sign :: IsAsciiSpace(piece[k]))
    && NatValue(piece[sign..]) <= I64_MAX
    && v == Signed(sign > 0, NatValue(piece[sign..]))
  }

  /** The first n characters write the token, and no digit of it is left behind. */
  ghost predicate Token(body: string, n: nat, tok: Tok) {
    n <= |body| && Writes(body[..n], tok) && (tok.Int? && n < |body| ==> !IsDigit(body[n]))
  }

  /** The grammar of bodies: nothing, a separator before a body, or a token before a body. */
  ghost predicate Spells(body: string, toks: seq<Tok>)
    decreases |body|
  {
    || (body == "" && toks == [])
    || (body != "" && IsSeparator(body[0]) && Spells(body[1..], toks))
    || (toks != [] && exists n | 0 < n <= |body| :: Token(body, n, toks[0]) && Spells(body[n..], toks[1..]))
  }

  lemma SpaceRunIs(s: string, n: nat)
    requires n <= |s| && (forall k | 0 <= k < n :: IsAsciiSpace(s[k])) && (n < |s| ==> !IsAsciiSpace(s[n]))
    ensures SpaceRun(s) == n
  {
    var m := SpaceRun(s);
    assert m < |s| ==> !IsAsciiSpace(s[m]);
  }

  lemma FirstTokWrites(body: string, n: nat, tok: Tok)
    requires body != "" && !IsSeparator(body[0]) && FirstTok(body) == Ok((n, tok))
    ensures Token(body, n, tok)
  {
    if tok.Int? {
      var sign := if body[0] == '-' then 1 + SpaceRun(body[1..]) else 0;
      var piece := body[..n];
      assert sign == SignLength(body) && n - sign == DigitRun(body[sign..]);
      assert piece[sign..] == body[sign..n] == body[sign..][..n - sign];
      forall k | 1 <= k < sign ensures IsAsciiSpace(piece[k]) { assert piece[k] == body[1..][k - 1]; }
      assert WritesInt(piece, sign, tok.v);
      if n < |body| { assert body[n] == body[sign..][n - sign]; }
    }
  }

  /** Where the sign of a written integer ends is where the reader looks for digits. */
  lemma SignRun(body: string, n: nat, sign: nat, v: int)
    requires n <= |body| && WritesInt(body[..n], sign, v)
    ensures sign < n && IsDigit(body[sign]) && body[..n][sign..] == body[sign..n]
    ensures body[0] == '-' <==> sign > 0
    ensures sign > 0 ==> SpaceRun(body[1..]) == sign - 1
  {
    var digits := body[..n][sign..];
    assert digits == body[sign..n] && digits[0] in digits;
    assert body[sign] == digits[0];
    assert body[0] == body[..n][0];
    if sign > 0 {
      forall k | 0 <= k < sign - 1 ensures IsAsciiSpace(body[1..][k]) { assert body[1..][k] == body[..n][k + 1]; }
      assert !IsAsciiSpace(body[1..][sign - 1]);
      SpaceRunIs(body[1..], sign - 1);
    }
  }

  lemma WrittenIntIsFirst(body: string, n: nat, sign: nat, v: int)
    requires n <= |body| && WritesInt(body[..n], sign, v) && (n < |body| ==> !IsDigit(body[n]))
    ensures body != "" && !IsSeparator(body[0]) && FirstTok(body) == Ok((n, Int(v)))
  {
    hide NatValue, DigitRun, SpaceRun;
    SignRun(body, n, sign, v);
    var digits := body[sign..n];
    assert body[sign..] == digits + body[n..];
    DigitRunIs(digits, body[n..]);
    assert SignLength(body) == sign;
    assert body[sign..][..|digits|] == digits;
    assert FirstInt(body) == IntAt(body, sign, |digits|) == Ok((n, v));
  }

  /** No other token can be read at the front. */
  lemma WrittenIsFirst(body: string, n: nat, tok: Tok)
    requires Token(body, n, tok)
    ensures body != "" && !IsSeparator(body[0]) && FirstTok(body) == Ok((n, tok))
  {
    match tok
    case Int(v) =>
      var sign: nat :| WritesInt(body[..n], sign, v);
      WrittenIntIsFirst(body, n, sign, v);
    case _ =>
      assert body[..n][0] == body[0];
  }

  /** Reading a body succeeds with exactly the tokens the body spells. */
  lemma {:induction false} TokenizeIsSpelling(body: string, toks: seq<Tok>)
    ensures Tokenize(body) == Ok(toks) <==> Spells(body, toks)
    decreases |body|
  {
    if body != "" {
      TokenizeIsSpelling(body[1..], toks);
      if !IsSeparator(body[0]) && Tokenize(body) == Ok(toks) {
        var (n, tok) := FirstTok(body).value;
        FirstTokWrites(body, n, tok);
        TokenizeIsSpelling(body[n..], toks[1..]);
        assert Token(body, n, toks[0]);
      }
      if toks != [] {
        if n :| 0 < n <= |body| && Token(body, n, toks[0]) && Spells(body[n..], toks[1..]) {
          WrittenIsFirst(body, n, toks[0]);
          TokenizeIsSpelling(body[n..], toks[1..]);
          assert toks == [toks[0]] + toks[1..];
        }
      }
    }
  }

  /** Commas and blanks separate numerals, by their codes. */
  lemma SeparatorByCode(c: char)
    ensures IsSeparator(c) <==> c as int in {9, 10, 12, 13, 32, 44}
  {}
}
