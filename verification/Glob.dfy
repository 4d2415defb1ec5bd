/**
 Matching one path segment against a wildcard pattern
 (xtask/src/audit_scope.rs). A string stands for its bytes, one char per byte.

 The matcher is greedy: it remembers only the last star and restarts from
 there. It is proved equal to the declarative wildcard language.
 */
module Glob {
  const STAR := '*'
  const ANY := '?'

  /** The wildcard language: a star stands for any bytes, a question mark for one. */
  predicate InLanguage(pattern: string, candidate: string)
    decreases |pattern|
  {
    if pattern == [] then
      candidate == []
    else if pattern[0] == STAR then
      exists k | 0 <= k <= |candidate| :: InLanguage(pattern[1..], candidate[k..])
    else
      && candidate != []
      && (pattern[0] == ANY || pattern[0] == candidate[0])
      && InLanguage(pattern[1..], candidate[1..])
  }

  predicate ContainsGlob(pattern: string) {
    STAR in pattern || ANY in pattern
  }

  function SkipStars(pattern: string, from: nat): (r: nat)
    requires from <= |pattern|
    ensures from <= r <= |pattern|
    decreases |pattern| - from
  {
    if from < |pattern| && pattern[from] == STAR then SkipStars(pattern, from + 1) else from
  }

  /** The matcher's run from a given state; star is -1 before the first star. */
  predicate Run(pattern: string, candidate: string, pi: nat, ci: nat, star: int, starMatch: nat)
    requires pi <= |pattern| && ci <= |candidate| && -1 <= star < pi + (if star == -1 then 1 else 0)
    requires starMatch <= ci
    decreases |pattern| - star, |candidate| - starMatch, |candidate| - ci
  {
    if ci == |candidate| then
      SkipStars(pattern, pi) == |pattern|
    else if pi < |pattern| && (pattern[pi] == ANY || pattern[pi] == candidate[ci]) then
      Run(pattern, candidate, pi + 1, ci + 1, star, starMatch)
    else if pi < |pattern| && pattern[pi] == STAR then
      Run(pattern, candidate, pi + 1, ci, pi, ci)
    else if star != -1 then
      Run(pattern, candidate, star + 1, starMatch + 1, star, starMatch + 1)
    else
      false
  }

  /** What matching a segment returns. */
  predicate MatchesGlobSegment(pattern: string, candidate: string) {
    Run(pattern, candidate, 0, 0, -1, 0)
  }

  /** The matcher as written, index by index. */
  method MatchGlobSegment(pattern: string, candidate: string) returns (matched: bool)
    ensures matched == MatchesGlobSegment(pattern, candidate)
    ensures matched ==> InLanguage(pattern, candidate)
    ensures STAR !in candidate ==> (matched <==> InLanguage(pattern, candidate))
  {
    MatcherIsSound(pattern, candidate);
    if STAR !in candidate { MatcherIsComplete(pattern, candidate); }
    var patternIndex, candidateIndex := 0, 0;
    var starIndex, starMatchIndex := -1, 0;
    while candidateIndex < |candidate|
      invariant 0 <= patternIndex <= |pattern| && 0 <= candidateIndex <= |candidate|
      invariant -1 <= starIndex < patternIndex || (starIndex == -1 && patternIndex == 0)
      invariant 0 <= starMatchIndex <= candidateIndex
      invariant Run(pattern, candidate, patternIndex, candidateIndex, starIndex, starMatchIndex)
             == Run(pattern, candidate, 0, 0, -1, 0)
      decreases |pattern| - starIndex, |candidate| - starMatchIndex, |candidate| - candidateIndex
    {
      if patternIndex < |pattern|
         && (pattern[patternIndex] == ANY || pattern[patternIndex] == candidate[candidateIndex]) {
        patternIndex, candidateIndex := patternIndex + 1, candidateIndex + 1;
      } else if patternIndex < |pattern| && pattern[patternIndex] == STAR {
        starIndex, starMatchIndex := patternIndex, candidateIndex;
        patternIndex := patternIndex + 1;
      } else if starIndex != -1 {
        patternIndex := starIndex + 1;
        starMatchIndex := starMatchIndex + 1;
        candidateIndex := starMatchIndex;
      } else {
        return false;
      }
    }
    while patternIndex < |pattern| && pattern[patternIndex] == STAR
      invariant 0 <= patternIndex <= |pattern|
      invariant (SkipStars(pattern, patternIndex) == |pattern|) == Run(pattern, candidate, 0, 0, -1, 0)
    {
      patternIndex := patternIndex + 1;
    }
    return patternIndex == |pattern|;
  }

  // ---------- soundness, for every candidate ----------

  lemma {:induction false} StarsMatchNothing(pattern: string, from: nat)
    requires from <= |pattern|
    ensures SkipStars(pattern, from) == |pattern| <==> InLanguage(pattern[from..], [])
    decreases |pattern| - from
  {
    var rest := pattern[from..];
    if from < |pattern| && pattern[from] == STAR {
      StarsMatchNothing(pattern, from + 1);
      assert rest[1..] == pattern[from + 1..];
      var empty: string := [];
      assert empty[0..] == empty;
    }
  }

  /** A star may swallow any prefix of what is left. */
  lemma StarSwallows(pattern: string, candidate: string, pi: nat, ci: nat, k: nat)
    requires pi < |pattern| && pattern[pi] == STAR && ci <= k <= |candidate|
    requires InLanguage(pattern[pi + 1..], candidate[k..])
    ensures InLanguage(pattern[pi..], candidate[ci..])
  {
    var p, c := pattern[pi..], candidate[ci..];
    assert p[1..] == pattern[pi + 1..];
    assert c[k - ci..] == candidate[k..];
    assert InLanguage(p[1..], c[k - ci..]);
  }

  lemma {:induction false} RunIsSound(pattern: string, candidate: string, pi: nat, ci: nat, star: int, starMatch: nat)
    requires pi <= |pattern| && ci <= |candidate| && -1 <= star < pi + (if star == -1 then 1 else 0)
    requires starMatch <= ci
    requires star != -1 ==> pattern[star] == STAR
    requires Run(pattern, candidate, pi, ci, star, starMatch)
    ensures || InLanguage(pattern[pi..], candidate[ci..])
            || (star != -1 && InLanguage(pattern[star..], candidate[starMatch..]))
    decreases |pattern| - star, |candidate| - starMatch, |candidate| - ci
  {
    var p, c := pattern[pi..], candidate[ci..];
    if ci == |candidate| {
      StarsMatchNothing(pattern, pi);
      assert c == [];
    } else if pi < |pattern| && (pattern[pi] == ANY || pattern[pi] == candidate[ci]) {
      RunIsSound(pattern, candidate, pi + 1, ci + 1, star, starMatch);
      assert p[1..] == pattern[pi + 1..] && c[1..] == candidate[ci + 1..];
      if InLanguage(pattern[pi + 1..], candidate[ci + 1..]) && pattern[pi] == STAR {
        StarSwallows(pattern, candidate, pi, ci, ci + 1);
      }
    } else if pi < |pattern| && pattern[pi] == STAR {
      RunIsSound(pattern, candidate, pi + 1, ci, pi, ci);
      if InLanguage(pattern[pi + 1..], candidate[ci..]) {
        StarSwallows(pattern, candidate, pi, ci, ci);
      }
    } else {
      RunIsSound(pattern, candidate, star + 1, starMatch + 1, star, starMatch + 1);
      if InLanguage(pattern[star + 1..], candidate[starMatch + 1..]) {
        StarSwallows(pattern, candidate, star, starMatch, starMatch + 1);
      } else {
        assert InLanguage(pattern[star..], candidate[starMatch + 1..]);
        StarWidens(pattern, candidate, star, starMatch, starMatch + 1);
      }
    }
  }

  lemma StarWidens(pattern: string, candidate: string, star: nat, from: nat, to: nat)
    requires star < |pattern| && pattern[star] == STAR && from <= to <= |candidate|
    requires InLanguage(pattern[star..], candidate[to..])
    ensures InLanguage(pattern[star..], candidate[from..])
  {
    var p, c := pattern[star..], candidate[to..];
    var k :| 0 <= k <= |c| && InLanguage(p[1..], c[k..]);
    hide InLanguage;
    assert p[1..] == pattern[star + 1..] && c[k..] == candidate[to + k..];
    StarSwallows(pattern, candidate, star, from, to + k);
  }

  /** A match is never reported outside the language. */
  lemma MatcherIsSound(pattern: string, candidate: string)
    ensures MatchesGlobSegment(pattern, candidate) ==> InLanguage(pattern, candidate)
  {
    if MatchesGlobSegment(pattern, candidate) {
      RunIsSound(pattern, candidate, 0, 0, -1, 0);
      assert pattern[0..] == pattern && candidate[0..] == candidate;
    }
  }

  // ---------- completeness, for candidates without a star byte ----------

  /** The bytes between the last star and pi fit the candidate from starMatch up to ci. */
  ghost predicate FitsSince(pattern: string, candidate: string, pi: nat, ci: nat, star: nat, starMatch: nat) {
    && star < pi <= |pattern| && starMatch <= ci <= |candidate|
    && pi - (star + 1) == ci - starMatch
    && (forall k | star < k < pi :: pattern[k] != STAR)
  }

  /** A star-free stretch consumes exactly its own length. */
  lemma {:induction false} StretchConsumes(pattern: string, candidate: string, a: nat, b: nat, j: nat)
    requires a <= b <= |pattern| && j <= |candidate|
    requires forall k | a <= k < b :: pattern[k] != STAR
    requires InLanguage(pattern[a..], candidate[j..])
    ensures j + (b - a) <= |candidate|
    ensures InLanguage(pattern[b..], candidate[j + (b - a)..])
    decreases b - a
  {
    if a < b {
      assert pattern[a..][1..] == pattern[a + 1..];
      assert candidate[j..] != [];
      assert candidate[j..][1..] == candidate[j + 1..];
      StretchConsumes(pattern, candidate, a + 1, b, j + 1);
    }
  }

  lemma RunStep(pattern: string, candidate: string, pi: nat, ci: nat, star: int, starMatch: nat)
    requires pi <= |pattern| && ci <= |candidate| && -1 <= star < pi + (if star == -1 then 1 else 0)
    requires starMatch <= ci
    ensures Run(pattern, candidate, pi, ci, star, starMatch)
         == if ci == |candidate| then SkipStars(pattern, pi) == |pattern|
            else if pi < |pattern| && (pattern[pi] == ANY || pattern[pi] == candidate[ci]) then
              Run(pattern, candidate, pi + 1, ci + 1, star, starMatch)
            else if pi < |pattern| && pattern[pi] == STAR then Run(pattern, candidate, pi + 1, ci, pi, ci)
            else star != -1 && Run(pattern, candidate, star + 1, starMatch + 1, star, starMatch + 1)
  {}

  /** How the language takes the next pattern character, in the terms of the whole strings. */
  lemma LanguageStep(pattern: string, candidate: string, pi: nat, ci: nat)
    requires pi <= |pattern| && ci <= |candidate| && InLanguage(pattern[pi..], candidate[ci..])
    ensures pi == |pattern| ==> ci == |candidate|
    ensures pi < |pattern| && pattern[pi] != STAR ==>
      && ci < |candidate| && (pattern[pi] == ANY || pattern[pi] == candidate[ci])
      && InLanguage(pattern[pi + 1..], candidate[ci + 1..])
    ensures pi < |pattern| && pattern[pi] == STAR ==>
      exists k | ci <= k <= |candidate| :: InLanguage(pattern[pi + 1..], candidate[k..])
  {
    var p, c := pattern[pi..], candidate[ci..];
    if pi < |pattern| {
      assert p[1..] == pattern[pi + 1..];
      if pattern[pi] == STAR {
        var k :| 0 <= k <= |c| && InLanguage(p[1..], c[k..]);
        assert c[k..] == candidate[ci + k..];
      } else {
        assert c[1..] == candidate[ci + 1..];
      }
    }
  }

  /**
   The run loses nothing: whatever a later restart of the last star could still match,
   or the current position could match, the run reports.
   */
  lemma {:induction false} RunIsComplete(pattern: string, candidate: string, pi: nat, ci: nat, star: int,
                                         starMatch: nat, j: nat)
    requires STAR !in candidate
    requires pi <= |pattern| && ci <= |candidate| && -1 <= star < pi + (if star == -1 then 1 else 0)
    requires starMatch <= ci && j <= |candidate|
    requires star != -1 ==> FitsSince(pattern, candidate, pi, ci, star, starMatch)
    requires if star == -1
             then InLanguage(pattern[pi..], candidate[ci..])
             else starMatch <= j && InLanguage(pattern[star + 1..], candidate[j..])
    ensures Run(pattern, candidate, pi, ci, star, starMatch)
    decreases |pattern| - star, |candidate| - starMatch, |candidate| - ci
  {
    hide Run, InLanguage;
    RunStep(pattern, candidate, pi, ci, star, starMatch);
    // The stretch since the last star, replayed from j, reaches position pi.
    var reach := if star == -1 then ci else j + (pi - (star + 1));
    if star != -1 { StretchConsumes(pattern, candidate, star + 1, pi, j); }
    assert ci <= reach <= |candidate| && InLanguage(pattern[pi..], candidate[reach..]);
    if ci == |candidate| {
      assert candidate[reach..] == [];
      StarsMatchNothing(pattern, pi);
    } else {
      LanguageStep(pattern, candidate, pi, reach);
      if pi < |pattern| && (pattern[pi] == ANY || pattern[pi] == candidate[ci]) {
        assert pattern[pi] != STAR by { assert candidate[ci] in candidate; }
        RunIsComplete(pattern, candidate, pi + 1, ci + 1, star, starMatch, j);
      } else if pi < |pattern| && pattern[pi] == STAR {
        var k :| reach <= k <= |candidate| && InLanguage(pattern[pi + 1..], candidate[k..]);
        RunIsComplete(pattern, candidate, pi + 1, ci, pi, ci, k);
      } else {
        assert star != -1 && j != starMatch;
        RunIsComplete(pattern, candidate, star + 1, starMatch + 1, star, starMatch + 1, j);
      }
    }
  }

  lemma MatcherIsComplete(pattern: string, candidate: string)
    requires STAR !in candidate
    ensures InLanguage(pattern, candidate) ==> MatchesGlobSegment(pattern, candidate)
  {
    if InLanguage(pattern, candidate) {
      assert pattern[0..] == pattern && candidate[0..] == candidate;
      RunIsComplete(pattern, candidate, 0, 0, -1, 0, 0);
    }
  }

  // ---------- exactly which candidates are decided correctly ----------

  /** Everything up to the first star is matched literally, star included. */
  lemma {:induction false} LiteralRun(pattern: string, candidate: string, at: nat, from: nat)
    requires from <= at < |candidate| && at < |pattern|
    requires pattern[..at + 1] == candidate[..at + 1]
    ensures Run(pattern, candidate, from, from, -1, 0) == Run(pattern, candidate, at + 1, at + 1, -1, 0)
    decreases at - from
  {
    assert pattern[from] == pattern[..at + 1][from] == candidate[..at + 1][from] == candidate[from];
    if from < at { LiteralRun(pattern, candidate, at, from + 1); }
  }

  lemma LiteralFirst(c: char, pattern: string, candidate: string)
    requires c != STAR && InLanguage(pattern, candidate)
    ensures InLanguage([c] + pattern, [c] + candidate)
  {
    assert ([c] + pattern)[1..] == pattern && ([c] + candidate)[1..] == candidate;
  }

  lemma {:induction false} PrefixInLanguage(prefix: string, rest: string, tail: string)
    requires STAR !in prefix && InLanguage(rest, tail)
    ensures InLanguage(prefix + rest, prefix + tail)
  {
    hide InLanguage;
    if prefix == [] {
      assert prefix + rest == rest && prefix + tail == tail;
    } else {
      assert prefix[0] in prefix;
      PrefixInLanguage(prefix[1..], rest, tail);
      LiteralFirst(prefix[0], prefix[1..] + rest, prefix[1..] + tail);
      assert prefix + rest == [prefix[0]] + (prefix[1..] + rest);
      assert prefix + tail == [prefix[0]] + (prefix[1..] + tail);
    }
  }

  /** A candidate with a star byte defeats the matcher: some pattern of its language is refused. */
  lemma StarInCandidateDefeats(candidate: string) returns (pattern: string)
    requires STAR in candidate
    ensures InLanguage(pattern, candidate) && !MatchesGlobSegment(pattern, candidate)
  {
    var at := FirstStar(candidate);
    var rest: string := if at == |candidate| - 1 then [STAR, ANY] else [STAR];
    pattern := candidate[..at] + rest;
    assert candidate == candidate[..at] + candidate[at..];
    TailInLanguage(candidate[at..]);
    PrefixInLanguage(candidate[..at], rest, candidate[at..]);
    TailRefused(candidate, at, pattern);
  }

  lemma TailRefused(candidate: string, at: nat, pattern: string)
    requires at < |candidate| && candidate[at] == STAR
    requires pattern == candidate[..at] + if at == |candidate| - 1 then [STAR, ANY] else [STAR]
    ensures !MatchesGlobSegment(pattern, candidate)
  {
    assert pattern[..at + 1] == candidate[..at + 1];
    LiteralRun(pattern, candidate, at, 0);
    if at == |candidate| - 1 { assert pattern[at + 1] == ANY; }
  }

  lemma TailInLanguage(tail: string)
    requires tail != [] && tail[0] == STAR
    ensures InLanguage(if |tail| == 1 then [STAR, ANY] else [STAR], tail)
  {
    if |tail| == 1 {
      var pattern := [STAR, ANY];
      assert pattern[1..] == [ANY] && tail[0..] == tail == [STAR];
      assert InLanguage([ANY], [STAR]);
      assert InLanguage(pattern[1..], tail[0..]);
    } else {
      var pattern, none: string := [STAR], [];
      assert pattern[1..] == none && tail[|tail|..] == none;
      assert InLanguage(pattern[1..], tail[|tail|..]);
    }
  }

  /**
   The matcher decides the wildcard language for all patterns exactly on the candidates
   that hold no star byte.
   */
  lemma DecidedExactlyWithoutStar(candidate: string)
    ensures (forall pattern :: MatchesGlobSegment(pattern, candidate) == InLanguage(pattern, candidate))
       <==> STAR !in candidate
  {
    if STAR !in candidate {
      forall pattern ensures MatchesGlobSegment(pattern, candidate) == InLanguage(pattern, candidate) {
        MatcherIsSound(pattern, candidate);
        MatcherIsComplete(pattern, candidate);
      }
    } else {
      var pattern := StarInCandidateDefeats(candidate);
    }
  }

  /** A segment without wildcards matches itself alone, even beside names that hold star bytes. */
  lemma LiteralSegment(pattern: string, candidate: string)
    requires !ContainsGlob(pattern)
    ensures MatchesGlobSegment(pattern, candidate) <==> pattern == candidate
  {
    LiteralRunDecides(pattern, candidate, 0);
  }

  lemma {:induction false} LiteralRunDecides(pattern: string, candidate: string, i: nat)
    requires !ContainsGlob(pattern) && i <= |pattern| && i <= |candidate|
    requires pattern[..i] == candidate[..i]
    ensures Run(pattern, candidate, i, i, -1, 0) <==> pattern == candidate
    decreases |candidate| - i
  {
    if i < |pattern| { assert pattern[i] in pattern; }
    if i < |pattern| && i < |candidate| && pattern[i] == candidate[i] {
      assert pattern[..i + 1] == pattern[..i] + [pattern[i]];
      assert candidate[..i + 1] == candidate[..i] + [candidate[i]];
      LiteralRunDecides(pattern, candidate, i + 1);
    } else if i == |candidate| {
      assert candidate[..i] == candidate;
      if i == |pattern| { assert pattern[..i] == pattern; }
    }
  }

  function FirstStar(s: string): (at: nat)
    requires STAR in s
    ensures at < |s| && s[at] == STAR && STAR !in s[..at]
  {
    if s[0] == STAR then 0
    else
      assert s == [s[0]] + s[1..];
      var at := 1 + FirstStar(s[1..]);
      assert s[..at] == [s[0]] + s[1..][..at - 1];
      at
  }
}
