/**
 Comment stripping in the table compiler (xtask/src/gen_tables.rs): block comments become a blank
 and their line breaks, line comments vanish up to their line break.
 */
module TableComments {
  import opened Text

  function Strip(s: string): string
    decreases |s|, 0
  {
    if s == "" then ""
    else if Begins(s, '/', '*') then StripBlock(s[2..])
    else if Begins(s, '/', '/') then StripLine(s[2..])
    else [s[0]] + Strip(s[1..])
  }

  /** Inside a block comment; one that never closes swallows the last character unseen. */
  function StripBlock(s: string): string
    decreases |s|, 1
  {
    if |s| <= 1 then " "
    else if Begins(s, '*', '/') then " " + Strip(s[2..])
    else Break(s[0]) + StripBlock(s[1..])
  }

  /** What a block comment keeps of a character. */
  function Break(c: char): string { if c == '\n' then "\n" else "" }

  function StripLine(s: string): string
    decreases |s|, 1
  {
    if s == "" then "" else if s[0] == '\n' then Strip(s) else StripLine(s[1..])
  }

  /** What is still to be stripped from position i on; a skip may overshoot the end. */
  function Rest(raw: string, i: nat): string { if i <= |raw| then Strip(raw[i..]) else "" }

  lemma StripBlockStep(raw: string, i: nat, out: string)
    requires i + 1 < |raw| && !(raw[i] == '*' && raw[i + 1] == '/')
    ensures out + StripBlock(raw[i..]) == (if raw[i] == '\n' then out + ['\n'] else out) + StripBlock(raw[i + 1..])
  {
    hide Strip;
    assert raw[i..][1..] == raw[i + 1..];
  }

  lemma StripBlockEnds(raw: string, i: nat, out: string)
    requires i <= |raw| && (i + 1 >= |raw| || (raw[i] == '*' && raw[i + 1] == '/'))
    ensures out + StripBlock(raw[i..]) == out + [' '] + Rest(raw, i + 2)
  {
    hide Strip;
    if i + 1 < |raw| {
      assert raw[i..][2..] == raw[i + 2..];
    }
  }

  method SkipBlock(raw: string, from: nat, kept: string) returns (i: nat, out: string)
    requires from <= |raw|
    ensures from < i && out + Rest(raw, i) == kept + StripBlock(raw[from..])
  {
    hide StripBlock, Rest;
    i, out := from, kept;
    while i + 1 < |raw| && !(raw[i] == '*' && raw[i + 1] == '/')
      invariant from <= i <= |raw| && out + StripBlock(raw[i..]) == kept + StripBlock(raw[from..])
    {
      StripBlockStep(raw, i, out);
      if raw[i] == '\n' { out := out + ['\n']; }
      i := i + 1;
    }
    StripBlockEnds(raw, i, out);
    i, out := i + 2, out + [' '];
  }

  method SkipLine(raw: string, from: nat) returns (i: nat)
    requires from <= |raw|
    ensures from <= i <= |raw| && Rest(raw, i) == StripLine(raw[from..])
  {
    i := from;
    while i < |raw| && raw[i] != '\n'
      invariant from <= i <= |raw| && StripLine(raw[i..]) == StripLine(raw[from..])
    {
      assert raw[i..][1..] == raw[i + 1..];
      i := i + 1;
    }
  }

  lemma StripStarts(raw: string)
    ensures "" + Rest(raw, 0) == Strip(raw)
  {
    hide Strip;
    assert raw[0..] == raw;
  }

  lemma StripEnds(raw: string, i: nat)
    requires i >= |raw|
    ensures Rest(raw, i) == ""
  {}

  /** One turn of the stripper, in the terms of the whole text. */
  lemma StripStep(raw: string, i: nat)
    requires i < |raw|
    ensures if i + 1 < |raw| && raw[i] == '/' && raw[i + 1] == '*' then Rest(raw, i) == StripBlock(raw[i + 2..])
            else if i + 1 < |raw| && raw[i] == '/' && raw[i + 1] == '/' then Rest(raw, i) == StripLine(raw[i + 2..])
            else Rest(raw, i) == [raw[i]] + Rest(raw, i + 1)
  {
    hide StripBlock, StripLine;
    var left := raw[i..];
    assert left[1..] == raw[i + 1..];
    if i + 1 < |raw| { assert left[2..] == raw[i + 2..]; }
  }

  method StripComments(raw: string) returns (out: string)
    ensures out == Strip(raw)
  {
    hide Strip, StripBlock, StripLine, Rest;
    var i := 0;
    out := "";
    StripStarts(raw);
    while i < |raw|
      invariant out + Rest(raw, i) == Strip(raw)
      decreases |raw| - i
    {
      StripStep(raw, i);
      if i + 1 < |raw| && raw[i] == '/' && raw[i + 1] == '*' {
        i, out := SkipBlock(raw, i + 2, out);
      } else if i + 1 < |raw| && raw[i] == '/' && raw[i + 1] == '/' {
        i := SkipLine(raw, i + 2);
      } else {
        assert out + ([raw[i]] + Rest(raw, i + 1)) == (out + [raw[i]]) + Rest(raw, i + 1);
        i, out := i + 1, out + [raw[i]];
      }
    }
    StripEnds(raw, i);
  }

  // ---------- nothing is left to strip ----------

  predicate HasOpener(s: string) {
    exists k | 0 <= k < |s| - 1 :: s[k] == '/' && (s[k + 1] == '/' || s[k + 1] == '*')
  }

  lemma {:induction false} StrippedHasNoOpener(s: string)
    ensures !HasOpener(Strip(s))
    decreases |s|, 0
  {
    if s != "" {
      if Begins(s, '/', '*') {
        BlockHasNoOpener(s[2..]);
      } else if Begins(s, '/', '/') {
        LineHasNoOpener(s[2..]);
      } else {
        StrippedHasNoOpener(s[1..]);
        if |s| > 1 && s[0] == '/' { assert s[1] != '/' && Strip(s[1..])[0] == s[1]; }
      }
    }
  }

  lemma {:induction false} BlockHasNoOpener(s: string)
    ensures !HasOpener(StripBlock(s))
    decreases |s|, 1
  {
    if |s| > 1 {
      if Begins(s, '*', '/') {
        StrippedHasNoOpener(s[2..]);
      } else {
        BlockHasNoOpener(s[1..]);
        assert "" + StripBlock(s[1..]) == StripBlock(s[1..]);
      }
    }
  }

  lemma {:induction false} LineHasNoOpener(s: string)
    ensures !HasOpener(StripLine(s))
    decreases |s|, 1
  {
    if s != "" {
      if s[0] == '\n' { StrippedHasNoOpener(s); } else { LineHasNoOpener(s[1..]); }
    }
  }

  lemma {:induction false} WithoutOpenerUnchanged(s: string)
    requires !HasOpener(s)
    ensures Strip(s) == s
  {
    if s != "" {
      if |s| > 1 { assert !(s[0] == '/' && (s[0 + 1] == '/' || s[0 + 1] == '*')); }
      forall k | 0 <= k < |s[1..]| - 1 ensures !(s[1..][k] == '/' && (s[1..][k + 1] == '/' || s[1..][k + 1] == '*')) {
        assert s[1..][k] == s[k + 1] && s[1..][k + 1] == s[k + 1 + 1];
      }
      WithoutOpenerUnchanged(s[1..]);
    }
  }

  /** Stripping leaves no comment opener, so stripping again changes nothing. */
  lemma StripIsIdempotent(s: string)
    ensures !HasOpener(Strip(s)) && Strip(Strip(s)) == Strip(s)
  {
    StrippedHasNoOpener(s);
    WithoutOpenerUnchanged(Strip(s));
  }

  // ---------- line breaks ----------

  /** The text ends inside a block comment that never closes. */
  predicate EndsOpen(s: string)
    decreases |s|, 0
  {
    if s == "" then false
    else if Begins(s, '/', '*') then BlockEndsOpen(s[2..])
    else if Begins(s, '/', '/') then LineEndsOpen(s[2..])
    else EndsOpen(s[1..])
  }

  predicate BlockEndsOpen(s: string)
    decreases |s|, 1
  {
    if |s| <= 1 then true else if Begins(s, '*', '/') then EndsOpen(s[2..]) else BlockEndsOpen(s[1..])
  }

  predicate LineEndsOpen(s: string)
    decreases |s|, 1
  {
    if s == "" then false else if s[0] == '\n' then EndsOpen(s) else LineEndsOpen(s[1..])
  }

  predicate EndsWithBreak(s: string) { s != "" && s[|s| - 1] == '\n' }

  /** One line break is lost exactly when the text ends with it inside an open block comment. */
  lemma {:induction false} StripKeepsBreaks(s: string)
    ensures Count(Strip(s), '\n') + (if EndsOpen(s) && EndsWithBreak(s) then 1 else 0) == Count(s, '\n')
    decreases |s|, 0
  {
    if s != "" {
      if Begins(s, '/', '*') {
        BlockKeepsBreaks(s[2..]);
        TwoFewer(s);
      } else if Begins(s, '/', '/') {
        LineKeepsBreaks(s[2..]);
        TwoFewer(s);
      } else {
        StripKeepsBreaks(s[1..]);
        CountJoins([s[0]], Strip(s[1..]), '\n');
        assert [s[0]][1..] == "";
      }
    }
  }

  lemma TwoFewer(s: string)
    requires |s| >= 2 && s[0] != '\n' && s[1] != '\n'
    ensures Count(s, '\n') == Count(s[2..], '\n') && (EndsWithBreak(s) <==> EndsWithBreak(s[2..]))
  {
    assert s[1..][1..] == s[2..];
  }

  lemma {:induction false} BlockKeepsBreaks(s: string)
    ensures Count(StripBlock(s), '\n') + (if BlockEndsOpen(s) && EndsWithBreak(s) then 1 else 0) == Count(s, '\n')
    decreases |s|, 1
  {
    assert Count(" ", '\n') == 0 by { assert " "[1..] == ""; }
    if |s| <= 1 {
      if |s| == 1 { assert s[1..] == ""; }
    } else if Begins(s, '*', '/') {
      StripKeepsBreaks(s[2..]);
      CountJoins(" ", Strip(s[2..]), '\n');
      TwoFewer(s);
    } else {
      BlockKeepsBreaks(s[1..]);
      var kept := if s[0] == '\n' then "\n" else "";
      CountJoins(kept, StripBlock(s[1..]), '\n');
      assert "\n"[1..] == "";
    }
  }

  lemma {:induction false} LineKeepsBreaks(s: string)
    ensures Count(StripLine(s), '\n') + (if LineEndsOpen(s) && EndsWithBreak(s) then 1 else 0) == Count(s, '\n')
    decreases |s|, 1
  {
    if s != "" {
      if s[0] == '\n' { StripKeepsBreaks(s); } else { LineKeepsBreaks(s[1..]); }
    }
  }

  /** The line count survives stripping exactly when no final break lies in an unclosed comment. */
  lemma LineCountKeptExactly(s: string)
    ensures Count(Strip(s), '\n') == Count(s, '\n') <==> !(EndsOpen(s) && EndsWithBreak(s))
  {
    StripKeepsBreaks(s);
  }
}
