/**
 The banned-phrase search of the comment gate (xtask/src/ai_slop.rs). The search visits only
 non-overlapping matches of a phrase; it is determined exactly for which phrases that loses nothing.
 */
module BannedPhrases {
  import opened Wrappers
  import opened Text

  /** A leading word boundary and an accepted tail. */
  predicate Accepted(haystack: string, needle: string, tailOk: string -> bool, at: nat)
    requires at + |needle| <= |haystack|
  {
    !(at > 0 && IsIdentByte(haystack[at - 1])) && tailOk(haystack[at + |needle|..])
  }

  /** The first occurrence from a position on. */
  function Find(haystack: string, needle: string, from: nat): (r: Option<nat>)
    ensures r.Some? ==> from <= r.value && OccursAt(haystack, needle, r.value)
    ensures forall at: nat | from <= at && (r.Some? ==> at < r.value) :: !OccursAt(haystack, needle, at)
    decreases |haystack| - from
  {
    if from + |needle| > |haystack| then None
    else if OccursAt(haystack, needle, from) then Some(from)
    else Find(haystack, needle, from + 1)
  }

  /** Visits the matches from left to right, each search starting after the last match. */
  predicate AnyVisited(haystack: string, needle: string, tailOk: string -> bool, from: nat)
    requires needle != ""
    decreases |haystack| - from
  {
    var at := Find(haystack, needle, from);
    at.Some? && (Accepted(haystack, needle, tailOk, at.value)
                 || AnyVisited(haystack, needle, tailOk, at.value + |needle|))
  }

  predicate ContainsAtWordBoundary(haystack: string, needle: string, tailOk: string -> bool)
    requires needle != ""
  {
    AnyVisited(haystack, needle, tailOk, 0)
  }

  /** Some occurrence, overlapping others or not, is accepted. */
  ghost predicate SomeAccepted(haystack: string, needle: string, tailOk: string -> bool) {
    exists at: nat :: OccursAt(haystack, needle, at) && Accepted(haystack, needle, tailOk, at)
  }

  /** The needle matches itself shifted by d. */
  predicate Overlaps(needle: string, d: nat) {
    0 < d < |needle| && needle[d..] == needle[..|needle| - d]
  }

  /** Wherever the needle overlaps itself, the overlapping copy begins inside a word. */
  predicate LosesNothing(needle: string) {
    forall d | 0 < d < |needle| :: Overlaps(needle, d) ==> IsIdentByte(needle[d - 1])
  }

  /** An occurrence hidden behind a visited match is an overlap. */
  lemma HiddenOverlaps(haystack: string, needle: string, visited: nat, at: nat)
    requires OccursAt(haystack, needle, visited) && OccursAt(haystack, needle, at)
    requires visited < at < visited + |needle|
    ensures Overlaps(needle, at - visited) && haystack[at - 1] == needle[at - visited - 1]
  {
    var d := at - visited;
    forall k | 0 <= k < |needle| - d ensures needle[d + k] == needle[k] {
      assert haystack[visited..visited + |needle|][d + k] == haystack[at..at + |needle|][k];
    }
    assert needle[d..] == needle[..|needle| - d];
    assert haystack[visited..visited + |needle|][d - 1] == haystack[at - 1];
  }

  lemma {:induction false} VisitsEnough(haystack: string, needle: string, tailOk: string -> bool, from: nat, at: nat)
    requires needle != "" && LosesNothing(needle)
    requires from <= at && OccursAt(haystack, needle, at) && Accepted(haystack, needle, tailOk, at)
    ensures AnyVisited(haystack, needle, tailOk, from)
    decreases |haystack| - from
  {
    var visited := Find(haystack, needle, from).value;
    if visited + |needle| <= at {
      VisitsEnough(haystack, needle, tailOk, visited + |needle|, at);
    } else if visited < at {
      HiddenOverlaps(haystack, needle, visited, at);
    }
  }

  lemma {:induction false} VisitedIsOccurrence(haystack: string, needle: string, tailOk: string -> bool, from: nat)
    requires needle != "" && AnyVisited(haystack, needle, tailOk, from)
    ensures SomeAccepted(haystack, needle, tailOk)
    decreases |haystack| - from
  {
    var at := Find(haystack, needle, from).value;
    if !Accepted(haystack, needle, tailOk, at) {
      VisitedIsOccurrence(haystack, needle, tailOk, at + |needle|);
    }
  }

  /** A text and a tail test on which a needle that can lose something does. */
  lemma LostOccurrence(needle: string, d: nat) returns (haystack: string, tailOk: string -> bool)
    requires Overlaps(needle, d) && !IsIdentByte(needle[d - 1])
    ensures SomeAccepted(haystack, needle, tailOk) && !ContainsAtWordBoundary(haystack, needle, tailOk)
  {
    haystack := needle[..d] + needle;
    tailOk := (tail: string) => tail == "";
    assert haystack[..|needle|] == needle by {
      assert haystack[..|needle|] == needle[..d] + needle[..|needle| - d];
      assert needle == needle[..d] + needle[d..];
    }
    assert haystack[0..|needle|] == haystack[..|needle|];
    assert haystack[d..d + |needle|] == needle;
    assert OccursAt(haystack, needle, d) && haystack[d + |needle|..] == "";
    assert Accepted(haystack, needle, tailOk, d);
    assert Find(haystack, needle, 0) == Some(0);
    assert |haystack[0 + |needle|..]| == d;
    assert !tailOk(haystack[0 + |needle|..]) && !Accepted(haystack, needle, tailOk, 0);
    assert Find(haystack, needle, |needle|) == None && !AnyVisited(haystack, needle, tailOk, 0 + |needle|);
  }

  ghost predicate SearchIsExact(needle: string)
    requires needle != ""
  {
    forall haystack: string, tailOk: string -> bool ::
      ContainsAtWordBoundary(haystack, needle, tailOk) <==> SomeAccepted(haystack, needle, tailOk)
  }

  /**
   The search finds an acceptable occurrence whenever there is one, for every text and tail test,
   exactly for the needles whose overlapping copies all begin inside a word.
   */
  lemma ExactForNeedles(needle: string)
    requires needle != ""
    ensures SearchIsExact(needle) <==> LosesNothing(needle)
  {
    if LosesNothing(needle) {
      forall haystack: string, tailOk: string -> bool
        ensures ContainsAtWordBoundary(haystack, needle, tailOk) <==> SomeAccepted(haystack, needle, tailOk)
      {
        if ContainsAtWordBoundary(haystack, needle, tailOk) { VisitedIsOccurrence(haystack, needle, tailOk, 0); }
        if SomeAccepted(haystack, needle, tailOk) {
          var at: nat :| OccursAt(haystack, needle, at) && Accepted(haystack, needle, tailOk, at);
          VisitsEnough(haystack, needle, tailOk, 0, at);
        }
      }
    } else {
      var d :| 0 < d < |needle| && Overlaps(needle, d) && !IsIdentByte(needle[d - 1]);
      var haystack, tailOk := LostOccurrence(needle, d);
      assert !(ContainsAtWordBoundary(haystack, needle, tailOk) <==> SomeAccepted(haystack, needle, tailOk));
    }
  }

  // ---------- the banned phrases ----------

  datatype Tail = WordEnd | Anything | Digit | PullRequest

  datatype Phrase = Phrase(text: string, tail: Tail)

  predicate StartsWithDigit(s: string) { s != "" && IsDigit(s[0]) }

  function DropBlanks(s: string): string {
    if s != "" && s[0] == ' ' then DropBlanks(s[1..]) else s
  }

  predicate TailAccepts(tail: Tail, rest: string) {
    match tail
    case WordEnd => rest == "" || !IsIdentByte(rest[0])
    case Anything => true
    case Digit => StartsWithDigit(rest)
    case PullRequest =>
      var after := DropBlanks(rest);
      after != "" && after[0] == '#' && StartsWithDigit(DropBlanks(after[1..]))
  }

  function TailTest(tail: Tail): string -> bool { rest => TailAccepts(tail, rest) }

  /** In the order they are tried. */
  const PHRASES: seq<Phrase> := [
    Phrase("formerly", WordEnd), Phrase("this refactor", WordEnd), Phrase("this used to", WordEnd),
    Phrase("used to be", WordEnd), Phrase("old behavior", WordEnd), Phrase("old behaviour", WordEnd),
    Phrase("not yet fixtured", WordEnd), Phrase("oracle fixture", Anything), Phrase("verified fixture", Anything),
    Phrase("pinned by fixture", Anything), Phrase("round-", Digit), Phrase("pr", PullRequest)]

  predicate Hit(lower: string, p: Phrase)
    requires p.text != ""
  {
    ContainsAtWordBoundary(lower, p.text, TailTest(p.tail))
  }

  /** The first phrase that hits. */
  method BannedMarker(comment: string) returns (r: Option<Phrase>)
    ensures r.None? ==> forall p | p in PHRASES :: !Banned(Lower(comment), p)
    ensures r.Some? ==> exists i | 0 <= i < |PHRASES| ::
              PHRASES[i] == r.value && Banned(Lower(comment), PHRASES[i])
              && forall j | 0 <= j < i :: !Banned(Lower(comment), PHRASES[j])
  {
    var lower := Lower(comment);
    for i := 0 to |PHRASES|
      invariant forall j | 0 <= j < i :: !Banned(lower, PHRASES[j])
    {
      PhrasesAreExact(i);
      HitIsBanned(lower, PHRASES[i]);
      if Hit(lower, PHRASES[i]) { return Some(PHRASES[i]); }
    }
    return None;
  }

  /** The phrase stands somewhere after a word boundary and before a tail it allows. */
  ghost predicate Banned(lower: string, p: Phrase) {
    SomeAccepted(lower, p.text, TailTest(p.tail))
  }

  lemma HitIsBanned(lower: string, p: Phrase)
    requires p.text != "" && LosesNothing(p.text)
    ensures Hit(lower, p) <==> Banned(lower, p)
  {
    ExactForNeedles(p.text);
  }

  /** Two leading characters that never come again in sequence rule out every overlap. */
  lemma NoOverlap(u: string)
    requires |u| >= 2 && u[|u| - 1] != u[0]
    requires forall d | 0 < d < |u| - 1 :: u[d] != u[0] || u[d + 1] != u[1]
    ensures LosesNothing(u)
  {
    forall d | 0 < d < |u| ensures !Overlaps(u, d) {
      assert u[d..][0] == u[d] && u[..|u| - d][0] == u[0];
      if d < |u| - 1 { assert u[d..][1] == u[d + 1] && u[..|u| - d][1] == u[1]; }
    }
  }

  lemma LaterPhrasesAreExact(i: nat)
    requires 5 <= i < 9
    ensures PHRASES[i].text != "" && LosesNothing(PHRASES[i].text)
  {
    hide LosesNothing;
    NoOverlap(PHRASES[i].text);
  }

  lemma LastPhrasesAreExact(i: nat)
    requires 9 <= i < |PHRASES|
    ensures PHRASES[i].text != "" && LosesNothing(PHRASES[i].text)
  {
    hide LosesNothing;
    NoOverlap(PHRASES[i].text);
  }

  lemma PhrasesAreExact(i: nat)
    requires i < |PHRASES|
    ensures PHRASES[i].text != "" && LosesNothing(PHRASES[i].text)
  {
    hide LosesNothing;
    if i < 5 {
      NoOverlap(PHRASES[i].text);
    } else if i < 9 {
      LaterPhrasesAreExact(i);
    } else {
      LastPhrasesAreExact(i);
    }
  }

  // ---------- where a phrase stands ----------

  /** A phrase stands somewhere when the text is what comes before it, the phrase, and what follows it, when no
      word runs into it and what follows is accepted. */
  lemma StandsExactly(haystack: string, needle: string, tailOk: string -> bool)
    ensures SomeAccepted(haystack, needle, tailOk) <==>
      exists front, tail :: StandsBetween(haystack, front, needle, tail) && tailOk(tail)
  {
    if at: nat :| OccursAt(haystack, needle, at) && Accepted(haystack, needle, tailOk, at) {
      var front, tail := haystack[..at], haystack[at + |needle|..];
      assert haystack == front + needle + tail;
      assert StandsBetween(haystack, front, needle, tail);
    }
    if front, tail :| StandsBetween(haystack, front, needle, tail) && tailOk(tail) {
      var at := |front|;
      assert haystack[at..at + |needle|] == needle && haystack[at + |needle|..] == tail;
      assert at > 0 ==> haystack[at - 1] == front[at - 1];
      assert OccursAt(haystack, needle, at) && Accepted(haystack, needle, tailOk, at);
    }
  }

  predicate StandsBetween(haystack: string, front: string, needle: string, tail: string) {
    haystack == front + needle + tail && (front == "" || !IsIdentByte(front[|front| - 1]))
  }

  function Blanks(n: nat): string { seq(n, _ => ' ') }

  lemma {:induction false} DropsBlanks(n: nat, rest: string)
    requires rest == "" || rest[0] != ' '
    ensures DropBlanks(Blanks(n) + rest) == rest
  {
    if n == 0 {
      assert Blanks(n) + rest == rest;
    } else {
      assert (Blanks(n) + rest)[1..] == Blanks(n - 1) + rest;
      DropsBlanks(n - 1, rest);
    }
  }

  lemma {:induction false} BlanksDropped(s: string) returns (n: nat)
    ensures s == Blanks(n) + DropBlanks(s) && (DropBlanks(s) == "" || DropBlanks(s)[0] != ' ')
  {
    if s != "" && s[0] == ' ' {
      n := BlanksDropped(s[1..]);
      n := n + 1;
      assert s == [s[0]] + s[1..] && Blanks(n) == [' '] + Blanks(n - 1);
    } else {
      n := 0;
    }
  }

  /** A pull request is named by a number sign and a digit, each behind any number of blanks. */
  lemma PullRequestExactly(rest: string)
    ensures TailAccepts(PullRequest, rest) <==>
      exists m: nat, n: nat, more :: NamesNumber(rest, m, n, more)
  {
    hide DropBlanks, Blanks;
    if TailAccepts(PullRequest, rest) {
      var m := BlanksDropped(rest);
      var after := DropBlanks(rest);
      var n := BlanksDropped(after[1..]);
      assert after == ['#'] + after[1..];
      assert NamesNumber(rest, m, n, DropBlanks(after[1..]));
    }
    if m: nat, n: nat, more :| NamesNumber(rest, m, n, more) { NamedNumber(rest, m, n, more); }
  }

  lemma NamedNumber(rest: string, m: nat, n: nat, more: string)
    requires NamesNumber(rest, m, n, more)
    ensures TailAccepts(PullRequest, rest)
  {
    hide DropBlanks, Blanks;
    var after := ['#'] + (Blanks(n) + more);
    DropsBlanks(n, more);
    DropsBlanks(m, after);
    assert rest == Blanks(m) + after && after[1..] == Blanks(n) + more;
  }

  predicate NamesNumber(rest: string, m: nat, n: nat, more: string) {
    more != "" && 48 <= more[0] as int <= 57 && rest == Blanks(m) + ['#'] + (Blanks(n) + more)
  }

  predicate IsWordCode(code: int) { 48 <= code <= 57 || 65 <= code <= 90 || code == 95 || 97 <= code <= 122 }

  /** The other tails: the end of the word, anything, and a digit. */
  lemma TailsExactly(rest: string)
    ensures TailAccepts(WordEnd, rest) <==> rest == "" || !IsWordCode(rest[0] as int)
    ensures TailAccepts(Digit, rest) <==> rest != "" && 48 <= rest[0] as int <= 57
    ensures TailAccepts(Anything, rest)
  {}
}
