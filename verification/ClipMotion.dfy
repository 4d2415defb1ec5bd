/**
 What a synthetic clip shows and what its reader accepts (xtask/src/encode_perf.rs, xtask/src/bd_rate.rs): a
 picture that moves over fixed waves, and a header of sizes in decimal and an 8-bit 4:2:0 format.
 */
module ClipMotion {
  import opened Wrappers
  import opened Text
  import opened Numerals
  import opened Rasters
  import opened Y4m
  import Utf8

  // ---------- the picture moves ----------

  /** The triangle wave is the one that climbs from 0 to 255 in steps of at most one, comes back the same way,
      and repeats. */
  lemma TriIsWave(v: nat)
    ensures Tri(0) == 0 && Tri(255) == 255
    ensures -1 <= Tri(v + 1) - Tri(v) <= 1
    ensures v <= 511 ==> Tri(511 - v) == Tri(v)
    ensures Tri(v + 512) == Tri(v)
  {
    hide Tri;
    TriSteps(v, v % 512, (v + 1) % 512);
    TriTurns(v);
  }

  lemma TriSteps(v: nat, m: nat, n: nat)
    requires m == v % 512 && n == (v + 1) % 512
    ensures -1 <= Tri(v + 1) - Tri(v) <= 1
  {
    assert n == if m == 511 then 0 else m + 1;
  }

  lemma TriTurns(v: nat)
    ensures Tri(0) == 0 && Tri(255) == 255 && Tri(v + 512) == Tri(v)
    ensures v <= 511 ==> Tri(511 - v) == Tri(v)
  {
    assert (v + 512) % 512 == v % 512;
  }

  /** From frame to frame the luma picture moves by two samples to the left and one up. */
  lemma LumaMoves(t: nat, x: nat, y: nat)
    ensures Sample(Luma(t + 1), x, y) == Sample(Luma(t), x + 2, y + 1)
  {
    hide Tri, Texture;
    assert x + 2 * (t + 1) == (x + 2) + 2 * t && y + (t + 1) == (y + 1) + t;
  }

  /** Chroma moves by one each way, the second plane is the first 64 rows further down, and neighbours in a
      row differ by at most one. */
  lemma ChromaMoves(t: nat, index: nat, x: nat, y: nat)
    ensures Sample(Chroma(t + 1, index), x, y) == Sample(Chroma(t, index), x + 1, y + 1)
    ensures Sample(Chroma(t, index + 1), x, y) == Sample(Chroma(t, index), x, y + 64)
    ensures -1 <= Sample(Chroma(t, index), x + 1, y) - Sample(Chroma(t, index), x, y) <= 1
    ensures Sample(Chroma(0, 0), 0, 0) == 64 && Sample(Chroma(0, 0), 127, 1) == 191
  {
    var v := 2 * x + y + 64 * index + 3 * t;
    TriIsWave(v);
    TriIsWave(v + 1);
    assert Sample(Chroma(t, index), x + 1, y) == Tri(v + 2) / 2 + 64;
  }

  // ---------- sizes ----------

  /** A size is digits, after a plus sign or none, of a value that fits; nothing else is read. */
  lemma SizeExactly(s: string)
    ensures ParseUsize(s).Ok? <==> exists d :: IsSize(d) && (s == d || s == "+" + d)
    ensures forall d | IsSize(d) && (s == d || s == "+" + d) :: ParseUsize(s) == Ok(NatValue(d))
  {
    hide NatValue;
    if ParseUsize(s).Ok? {
      var d := if s[0] == '+' then s[1..] else s;
      assert IsSize(d) && (s == d || s == "+" + d);
    }
    forall d | IsSize(d) && (s == d || s == "+" + d) ensures ParseUsize(s) == Ok(NatValue(d)) {
      assert d[0] in d && ("+" + d)[1..] == d;
    }
  }

  predicate IsSize(d: string) { d != "" && AllDigits(d) && NatValue(d) <= 0xFFFF_FFFF_FFFF_FFFF }

  // ---------- formats ----------

  function ClipWords(w: string, h: string, c: string): seq<string> { ["YUV4MPEG2", "W" + w, "H" + h, "C" + c] }

  /** A clip of any other colour format is refused, and of 4:2:0 only the formats of more bits are. */
  lemma FormatExactly(w: string, h: string, c: string)
    requires AllDigits(w) && AllDigits(h) && forall x | x in c :: !IsWhite(x)
    ensures var header := Utf8.Encode(Join(ClipWords(w, h, c), " "));
      ParseHeader(header)
      == if ParseUsize(w).Err? || ParseUsize(h).Err? || !("420" <= c) || "420p1" <= c then Err
         else Ok((ParseUsize(w).value, ParseUsize(h).value))
  {
    hide Words, Join, ParseUsize, Field, Utf8.Decode, Utf8.Encode;
    var words := ClipWords(w, h, c);
    var text := Join(words, " ");
    Utf8.DecodeEncode(text);
    WordsAreText(w, h, c);
    WordsOfJoin(words);
    ClipFields(w, h, c);
  }

  lemma WordsAreText(w: string, h: string, c: string)
    requires AllDigits(w) && AllDigits(h) && forall x | x in c :: !IsWhite(x)
    ensures forall word | word in ClipWords(w, h, c) :: IsWordText(word)
  {
    TaggedIsWord('W', w);
    TaggedIsWord('H', h);
    assert IsWordText("YUV4MPEG2") && IsWordText("C" + c);
  }

  lemma ClipFields(w: string, h: string, c: string)
    ensures var words := ClipWords(w, h, c);
      Field(words, 'W') == Some(w) && Field(words, 'H') == Some(h) && Field(words, 'C') == Some(c)
  {
    var words := ClipWords(w, h, c);
    FieldSkips(words, 'W');
    FieldSkips(words, 'H');
    FieldSkips(words[1..], 'H');
    FieldSkips(words, 'C');
    FieldSkips(words[1..], 'C');
    FieldSkips(words[2..], 'C');
  }

  /** The first word with a tag gives its field, and without one there is none. */
  lemma {:induction false} FieldIs(before: seq<string>, tag: char, text: string, after: seq<string>)
    requires forall word | word in before :: !([tag] <= word)
    ensures Field(before + [[tag] + text] + after, tag) == Some(text)
    ensures Field(before, tag) == None
  {
    var all := before + [[tag] + text] + after;
    if before == [] {
      assert all[0] == [tag] + text && ([tag] + text)[1..] == text;
    } else {
      assert all[0] == before[0] && before[0] in before && all[1..] == before[1..] + [[tag] + text] + after;
      assert !([tag] <= before[0]) && forall word | word in before[1..] :: word in before;
      FieldIs(before[1..], tag, text, after);
    }
  }

  /** The code points of Unicode's white space. */
  const WHITE_CODES := {9, 10, 11, 12, 13, 32, 133, 160, 5760, 8192, 8193, 8194, 8195, 8196, 8197, 8198, 8199,
                        8200, 8201, 8202, 8232, 8233, 8239, 8287, 12288}

  lemma WhiteByCode(c: char)
    ensures IsWhite(c) <==> c as int in WHITE_CODES
  {}

  // ---------- broken clips ----------

  /** A frame whose luma is cut short, or whose header has no end, makes the clip unreadable. */
  lemma BrokenFrameIsRefused(front: seq<Byte>, payload: seq<Byte>, area: nat, frame: nat, limit: nat)
    requires limit > 0
    ensures |payload| < area ==> ReadFrames(front + FRAME + payload, |front|, area, frame, limit).Err?
    ensures payload != [] && NoNewline(payload) ==> ReadFrames(front + payload, |front|, area, frame, limit).Err?
  {
    hide NextLine;
    if |payload| < area {
      var data := front + FRAME + payload;
      assert data[|front|..|front| + 6] == FRAME;
      HeaderLineIs(data, |front|, 0);
    }
    if payload != [] && NoNewline(payload) { NoLineThere(front, payload); }
  }

  lemma NoLineThere(front: seq<Byte>, payload: seq<Byte>)
    requires NoNewline(payload)
    ensures NextLine(front + payload, |front|) == None
  {
    var data := front + payload;
    forall k | |front| <= k < |data| ensures data[k] != NEWLINE {
      assert data[k] == payload[k - |front|] && payload[k - |front|] in payload;
    }
  }

  /** So does a later one. */
  lemma LaterFrameIsRefused(data: seq<Byte>, pos: nat, line: nat, area: nat, frame: nat, limit: nat)
    requires limit > 1 && pos < |data| && NextLine(data, pos) == Some(line) && line + 1 + area <= |data|
    requires ReadFrames(data, line + 1 + frame, area, frame, limit - 1).Err?
    ensures ReadFrames(data, pos, area, frame, limit).Err?
  {
    hide NextLine;
  }
}
