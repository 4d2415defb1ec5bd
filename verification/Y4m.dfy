/**
 Raw video clips: the generator of synthetic Y4M clips (xtask/src/encode_perf.rs) and the reader of
 their luma planes (xtask/src/bd_rate.rs), proved inverse exactly when a frame's chroma is short by
 fewer bytes than a frame header has.
 */
module Y4m {
  import opened Wrappers
  import opened Text
  import opened Numerals
  import opened Rasters
  import Utf8

  const NEWLINE: Byte := 10
  const USIZE_MAX: nat := 0xFFFF_FFFF_FFFF_FFFF
  const U32: nat := 0x1_0000_0000

  predicate IsAscii(s: string) { forall c | c in s :: c < 128 as char }

  function AsByte(c: char): Byte
    requires c < 128 as char
  {
    c as int
  }

  function Bytes(s: string): (r: seq<Byte>)
    requires IsAscii(s)
    ensures Chars(r) == s && forall b | b in r :: b < 128
  {
    if s == "" then []
    else
      assert s[0] in s && forall c | c in s[1..] :: c in s;
      [AsByte(s[0])] + Bytes(s[1..])
  }

  function Chars(bytes: seq<Byte>): string { seq(|bytes|, i requires 0 <= i < |bytes| => bytes[i] as char) }

  // ---------- reading ----------

  /** The white space of Unicode. */
  predicate IsWhite(c: char) {
    var n := c as int;
    9 <= n <= 13 || n == 32 || n == 0x85 || n == 0xA0 || n == 0x1680 || 0x2000 <= n <= 0x200A || n == 0x2028
    || n == 0x2029 || n == 0x202F || n == 0x205F || n == 0x3000
  }

  /** The blank-separated words of a text. */
  function Words(s: string): seq<string>
    decreases |s|
  {
    if s == "" then []
    else if IsWhite(s[0]) then Words(s[1..])
    else
      var n := WordLength(s);
      [s[..n]] + Words(s[n..])
  }

  function WordLength(s: string): (n: nat)
    ensures n <= |s| && (s != "" && !IsWhite(s[0]) ==> n > 0)
  {
    if s == "" || IsWhite(s[0]) then 0 else 1 + WordLength(s[1..])
  }

  /** What follows the tag in the first word that begins with it. */
  function Field(words: seq<string>, tag: char): Option<string> {
    if words == [] then None
    else if words[0] != "" && words[0][0] == tag then Some(words[0][1..])
    else Field(words[1..], tag)
  }

  function ParseUsize(s: string): Result<nat> {
    var digits := if s != "" && s[0] == '+' then s[1..] else s;
    if digits == "" || !AllDigits(digits) || NatValue(digits) > USIZE_MAX then Err else Ok(NatValue(digits))
  }

  /** Width and height of an 8-bit 4:2:0 clip. */
  function ParseHeader(header: seq<Byte>): Result<(nat, nat)> {
    var text := Utf8.Decode(header);
    if text.Err? then Err
    else
      var words := Words(text.value);
      var w, h, c := Field(words, 'W'), Field(words, 'H'), Field(words, 'C');
      if w.None? || h.None? || ParseUsize(w.value).Err? || ParseUsize(h.value).Err? then Err
      else if c.Some? && !(StartsWith(c.value, "420") && !StartsWith(c.value, "420p1")) then Err
      else Ok((ParseUsize(w.value).value, ParseUsize(h.value).value))
  }

  /** The first newline from a position on. */
  function NextLine(data: seq<Byte>, pos: nat): (r: Option<nat>)
    ensures r.Some? ==> pos <= r.value < |data| && data[r.value] == NEWLINE
    ensures forall k | pos <= k < |data| && (r.Some? ==> k < r.value) :: data[k] != NEWLINE
    decreases |data| - pos
  {
    if pos >= |data| then None else if data[pos] == NEWLINE then Some(pos) else NextLine(data, pos + 1)
  }

  /** The luma of at most `limit` frames; a frame header is any text up to a newline. */
  function ReadFrames(data: seq<Byte>, pos: nat, area: nat, frame: nat, limit: nat): Result<seq<seq<Byte>>>
    decreases |data| - pos
  {
    if limit == 0 || pos >= |data| then Ok([])
    else
      var line := NextLine(data, pos);
      if line.None? || line.value + 1 + area > |data| then Err
      else
        var start := line.value + 1;
        AddPlanes([data[start..start + area]], ReadFrames(data, start + frame, area, frame, limit - 1))
  }

  function AddPlanes(planes: seq<seq<Byte>>, rest: Result<seq<seq<Byte>>>): Result<seq<seq<Byte>>> {
    if rest.Err? then Err else Ok(planes + rest.value)
  }

  lemma AddPlanesAppend(planes: seq<seq<Byte>>, plane: seq<Byte>, rest: Result<seq<seq<Byte>>>)
    ensures AddPlanes(planes, AddPlanes([plane], rest)) == AddPlanes(planes + [plane], rest)
    ensures AddPlanes([], rest) == rest
  {
    if rest.Ok? {
      assert planes + ([plane] + rest.value) == (planes + [plane]) + rest.value && [] + rest.value == rest.value;
    }
  }

  datatype Clip = Clip(width: nat, height: nat, planes: seq<seq<Byte>>)

  function FrameSize(width: nat, height: nat): nat { width * height * 3 / 2 }

  function ReadLuma(data: seq<Byte>, limit: nat): Result<Clip> {
    var end := NextLine(data, 0);
    if end.None? then Err
    else
      var sizes := ParseHeader(data[..end.value]);
      if sizes.Err? then Err else ReadClip(data, end.value + 1, sizes.value.0, sizes.value.1, limit)
  }

  function ReadClip(data: seq<Byte>, pos: nat, width: nat, height: nat, limit: nat): Result<Clip> {
    var planes := ReadFrames(data, pos, width * height, FrameSize(width, height), limit);
    if planes.Err? || planes.value == [] then Err else Ok(Clip(width, height, planes.value))
  }

  method Y4mLuma(data: seq<Byte>, limit: nat) returns (clip: Result<Clip>)
    ensures clip == ReadLuma(data, limit)
  {
    hide ParseHeader, ReadFrames;
    var end := NextLine(data, 0);
    if end.None? { return Err; }
    var header := ParseHeader(data[..end.value]);
    if header.Err? { return Err; }
    var (width, height) := header.value;
    var planes := ReadPlanes(data, end.value + 1, width * height, FrameSize(width, height), limit);
    if planes.Err? || planes.value == [] { return Err; }
    return Ok(Clip(width, height, planes.value));
  }

  method ReadPlanes(data: seq<Byte>, from: nat, area: nat, frame: nat, limit: nat)
    returns (r: Result<seq<seq<Byte>>>)
    ensures r == ReadFrames(data, from, area, frame, limit)
  {
    hide AddPlanes;
    var pos, planes := from, [];
    ghost var all := ReadFrames(data, pos, area, frame, limit);
    AddPlanesAppend([], [], all);
    while |planes| < limit && pos < |data|
      invariant |planes| <= limit
      invariant all == AddPlanes(planes, ReadFrames(data, pos, area, frame, limit - |planes|))
      decreases |data| - pos
    {
      ghost var left := limit - |planes|;
      var line := NextLine(data, pos);
      if line.None? || line.value + 1 + area > |data| {
        FailsAfter(planes);
        return Err;
      }
      var start := line.value + 1;
      var luma := data[start..start + area];
      AddPlanesAppend(planes, luma, ReadFrames(data, start + frame, area, frame, left - 1));
      planes, pos := planes + [luma], start + frame;
    }
    EndsAfter(planes);
    return Ok(planes);
  }

  lemma FailsAfter(planes: seq<seq<Byte>>)
    ensures AddPlanes(planes, Err).Err?
  {}

  lemma EndsAfter(planes: seq<seq<Byte>>)
    ensures AddPlanes(planes, Ok([])) == Ok(planes)
  {
    assert planes + [] == planes;
  }

  // ---------- generating ----------

  function Tri(v: nat): (r: Byte) {
    if v % 512 < 256 then v % 512 else 511 - v % 512
  }

  function Xor(a: nat, b: nat): nat
    requires a < U32 && b < U32
  {
    ((a as bv32) ^ (b as bv32)) as int
  }

  function Texture(x: nat, y: nat): nat {
    Xor(x % U32 * 7919 % U32, y % U32 * 104729 % U32) * 2654435761 % U32 / 8192 % 32
  }

  /** One of a frame's three planes. */
  datatype Plane = Luma(t: nat) | Chroma(t: nat, index: nat)

  /** A generated sample; all its arithmetic stays in a byte, and it is never a newline. */
  function Sample(p: Plane, x: nat, y: nat): (r: Byte)
    ensures 16 <= r <= 235
  {
    match p
    case Luma(t) =>
      var mx, my := x + 2 * t, y + t;
      var v := Tri((3 * mx + 2 * my) / 2 + Texture(mx, my));
      if v < 16 then 16 else if v > 235 then 235 else v
    case Chroma(t, index) =>
      Tri(2 * x + y + 64 * index + 3 * t) / 2 + 64
  }

  /** The first n samples of a plane, row by row. */
  function Raster(p: Plane, width: nat, n: nat): (r: seq<Byte>)
    requires n > 0 ==> width > 0
    ensures |r| == n && forall b | b in r :: b != NEWLINE
  {
    seq(n, i requires 0 <= i < n => Sample(p, i % width, i / width))
  }

  lemma RasterNext(p: Plane, width: nat, x: nat, y: nat, row: nat)
    requires x < width && row == y * width
    ensures Raster(p, width, row + x + 1) == Raster(p, width, row + x) + [Sample(p, x, y)]
  {
    hide Sample;
    var i := row + x;
    assert i / width == y && i % width == x by { QuotientAndRemainder(i, width, y, x); }
  }

  function HeaderText(width: nat, height: nat): string {
    "YUV4MPEG2 W" + NatText(width) + " H" + NatText(height) + " F30:1 Ip A1:1 C420jpeg"
  }

  const FRAME: seq<Byte> := [70, 82, 65, 77, 69, 10]

  /** The luma plane and the two chroma planes of half its width and height. */
  function Payload(width: nat, height: nat, t: nat): seq<Byte>
  {
    HasWidth(width, height);
    HasWidth(width / 2, height / 2);
    Raster(Luma(t), width, width * height)
    + Raster(Chroma(t, 0), width / 2, (width / 2) * (height / 2))
    + Raster(Chroma(t, 1), width / 2, (width / 2) * (height / 2))
  }

  lemma HasWidth(width: nat, height: nat)
    ensures width * height > 0 ==> width > 0
  {}

  /** A frame before whatever follows it. */
  function Framed(payload: seq<Byte>, tail: seq<Byte>): seq<Byte> { FRAME + payload + tail }

  function Frames(payloads: seq<seq<Byte>>): seq<Byte> {
    if payloads == [] then [] else Framed(payloads[0], Frames(payloads[1..]))
  }

  function Payloads(width: nat, height: nat, t: nat, frames: nat): (r: seq<seq<Byte>>)
    requires t <= frames
    ensures |r| == frames - t && forall k | 0 <= k < |r| :: r[k] == Payload(width, height, t + k)
    decreases frames - t
  {
    if t == frames then [] else [Payload(width, height, t)] + Payloads(width, height, t + 1, frames)
  }

  function Synthetic(width: nat, height: nat, frames: nat): seq<Byte> {
    HeaderIsAscii(width, height);
    Bytes(HeaderText(width, height)) + [NEWLINE] + Frames(Payloads(width, height, 0, frames))
  }

  predicate IsHeaderChar(c: char) { c < 128 as char && c != '\n' }

  lemma HeaderIsAscii(width: nat, height: nat)
    ensures IsAscii(HeaderText(width, height)) && '\n' !in HeaderText(width, height)
  {
    forall c | c in NatText(width) || c in NatText(height) ensures IsHeaderChar(c) { assert IsDigit(c); }
    hide NatText;
    LiteralsAreAscii();
    assert forall c | c in HeaderText(width, height) :: IsHeaderChar(c);
  }

  lemma LiteralsAreAscii()
    ensures forall c | c in "YUV4MPEG2 W" || c in " H" || c in " F30:1 Ip A1:1 C420jpeg" :: IsHeaderChar(c)
  {}

  method PushRaster(out: seq<Byte>, p: Plane, width: nat, height: nat) returns (r: seq<Byte>)
    requires width * height > 0 ==> width > 0
    ensures r == out + Raster(p, width, width * height)
  {
    hide Raster, Sample;
    r := out;
    NoSamples(p, width);
    ghost var row := 0;
    for y := 0 to height
      invariant row == y * width && (row > 0 ==> width > 0)
      invariant r == out + Raster(p, width, row)
    {
      for x := 0 to width
        invariant row + x > 0 ==> width > 0
        invariant r == out + Raster(p, width, row + x)
      {
        RasterNext(p, width, x, y, row);
        r := r + [Sample(p, x, y)];
      }
      row := NextRow(y, width, row);
    }
  }

  /** Where the row after y begins. */
  ghost function NextRow(y: nat, width: nat, row: nat): (next: nat)
    requires row == y * width
    ensures next == (y + 1) * width && next == row + width
  {
    row + width
  }

  lemma NoSamples(p: Plane, width: nat)
    ensures Raster(p, width, 0) == []
  {}

  method SyntheticY4m(width: nat, height: nat, frames: nat) returns (out: seq<Byte>)
    ensures out == Synthetic(width, height, frames)
  {
    hide Raster, HeaderText, Payload, Payloads, Frames;
    HeaderIsAscii(width, height);
    out := Bytes(HeaderText(width, height)) + [NEWLINE];
    ghost var all := Synthetic(width, height, frames);
    for t := 0 to frames
      invariant all == out + Frames(Payloads(width, height, t, frames))
    {
      NextFrame(width, height, t, frames);
      ghost var before := out;
      out := PushFrame(out, width, height, t);
      assert all == out + Frames(Payloads(width, height, t + 1, frames));
    }
    LastFrame(width, height, frames);
    assert out + [] == out;
  }

  method PushFrame(before: seq<Byte>, width: nat, height: nat, t: nat) returns (out: seq<Byte>)
    ensures out == before + (FRAME + Payload(width, height, t))
  {
    hide Raster;
    HasWidth(width, height);
    HasWidth(width / 2, height / 2);
    out := before + FRAME;
    out := PushRaster(out, Luma(t), width, height);
    for plane := 0 to 2
      invariant plane == 0 ==> out == before + FRAME + Raster(Luma(t), width, width * height)
      invariant plane == 1 ==> out == before + FRAME + Raster(Luma(t), width, width * height)
                                   + Raster(Chroma(t, 0), width / 2, (width / 2) * (height / 2))
      invariant plane == 2 ==> out == before + (FRAME + Payload(width, height, t))
    {
      out := PushRaster(out, Chroma(t, plane), width / 2, height / 2);
    }
  }

  lemma NextFrame(width: nat, height: nat, t: nat, frames: nat)
    requires t < frames
    ensures Frames(Payloads(width, height, t, frames))
         == FRAME + Payload(width, height, t) + Frames(Payloads(width, height, t + 1, frames))
  {
    hide Payload;
    var payloads := Payloads(width, height, t, frames);
    assert payloads[0] == Payload(width, height, t) && payloads[1..] == Payloads(width, height, t + 1, frames);
  }

  lemma LastFrame(width: nat, height: nat, frames: nat)
    ensures Frames(Payloads(width, height, frames, frames)) == []
  {}

  // ---------- reading what was generated ----------

  /** How many bytes a generated frame is short of the size the reader steps by. */
  function Slack(width: nat, height: nat): int {
    FrameSize(width, height) - (width * height + 2 * ((width / 2) * (height / 2)))
  }

  predicate NoNewline(bytes: seq<Byte>) { forall b | b in bytes :: b != NEWLINE }

  /** The frames after a front part; each payload has one size and holds no newline. */
  ghost predicate AreFrames(payloads: seq<seq<Byte>>, size: nat) {
    forall p | p in payloads :: |p| == size && NoNewline(p)
  }

  lemma HeaderLineIs(data: seq<Byte>, pos: nat, skip: nat)
    requires skip <= 5 && pos + 6 <= |data| && data[pos..pos + 6] == FRAME
    ensures NextLine(data, pos + skip) == Some(pos + 5)
  {
    forall k | 0 <= k < 6 ensures data[pos + k] == FRAME[k] { assert data[pos..pos + 6][k] == data[pos + k]; }
    var line := NextLine(data, pos + skip);
    assert data[pos + 5] == NEWLINE;
    assert line.Some? && line.value <= pos + 5;
    assert data[pos + (line.value - pos)] == FRAME[line.value - pos];
  }

  lemma FrameSlices(front: seq<Byte>, payload: seq<Byte>, tail: seq<Byte>, area: nat)
    requires area <= |payload|
    ensures var data := front + Framed(payload, tail); var start := |front| + 6;
      && data == (front + FRAME + payload) + tail
      && data[|front|..start] == FRAME
      && data[start..start + area] == payload[..area]
  {
    var data, start := front + Framed(payload, tail), |front| + 6;
    assert data[|front|..] == FRAME + payload + tail;
    assert data[start..start + |payload|] == payload;
    assert data[start..start + area] == data[start..start + |payload|][..area];
  }

  /** One frame is read, from its header or a few bytes into it. */
  lemma FrameRead(front: seq<Byte>, payload: seq<Byte>, tail: seq<Byte>, skip: nat, area: nat, slack: nat, limit: nat)
    requires area <= |payload| && skip <= 5 && limit > 0
    ensures var next, frame := front + FRAME + payload, |payload| + slack;
      ReadFrames(front + Framed(payload, tail), |front| + skip, area, frame, limit)
      == AddPlanes([payload[..area]], ReadFrames(next + tail, |next| + slack, area, frame, limit - 1))
  {
    hide NextLine, ReadFrames, AddPlanes, Framed;
    var data := front + Framed(payload, tail);
    FrameSlices(front, payload, tail, area);
    HeaderLineIs(data, |front|, skip);
    ReadStep(data, |front| + skip, area, |payload| + slack, limit, |front| + 5);
    assert |front| + 5 + 1 + (|payload| + slack) == |front + FRAME + payload| + slack;
  }

  /** Frames short by at most the header's text are still read one by one. */
  lemma {:induction false} FramesReadBack(front: seq<Byte>, payloads: seq<seq<Byte>>, skip: nat, area: nat, size: nat,
                                          slack: nat, limit: nat)
    requires AreFrames(payloads, size) && area <= size && slack <= 5 && skip <= 5
    ensures ReadFrames(front + Frames(payloads), |front| + skip, area, size + slack, limit)
         == Ok(Lumas(payloads, area, limit))
    decreases |payloads|
  {
    hide NextLine, NoNewline, ReadFrames, AddPlanes, Framed;
    if payloads == [] || limit == 0 {
      var data := front + Frames(payloads);
      assert payloads == [] ==> data == front;
      NothingRead(data, |front| + skip, area, size + slack, limit);
    } else {
      var payload, rest := payloads[0], payloads[1..];
      assert payload in payloads && forall p | p in rest :: p in payloads;
      FrameRead(front, payload, Frames(rest), skip, area, slack, limit);
      FramesReadBack(front + FRAME + payload, rest, slack, area, size, slack, limit - 1);
      AddPlane(payload[..area], Lumas(rest, area, limit - 1));
    }
  }

  lemma NothingRead(data: seq<Byte>, pos: nat, area: nat, frame: nat, limit: nat)
    requires limit == 0 || pos >= |data|
    ensures ReadFrames(data, pos, area, frame, limit) == Ok([])
  {}

  lemma AddPlane(plane: seq<Byte>, planes: seq<seq<Byte>>)
    ensures AddPlanes([plane], Ok(planes)) == Ok([plane] + planes)
  {}

  lemma ReadStep(data: seq<Byte>, pos: nat, area: nat, frame: nat, limit: nat, line: nat)
    requires limit > 0 && pos < |data| && NextLine(data, pos) == Some(line) && line + 1 + area <= |data|
    ensures ReadFrames(data, pos, area, frame, limit)
         == AddPlanes([data[line + 1..line + 1 + area]], ReadFrames(data, line + 1 + frame, area, frame, limit - 1))
  {
    hide NextLine, AddPlanes;
  }

  /** The luma of the first `limit` payloads. */
  function Lumas(payloads: seq<seq<Byte>>, area: nat, limit: nat): (r: seq<seq<Byte>>)
    requires forall p | p in payloads :: area <= |p|
  {
    if payloads == [] || limit == 0 then [] else [payloads[0][..area]] + Lumas(payloads[1..], area, limit - 1)
  }

  lemma {:induction false} LumasAre(payloads: seq<seq<Byte>>, area: nat, limit: nat)
    requires forall p | p in payloads :: area <= |p|
    ensures var r := Lumas(payloads, area, limit);
      |r| == (if |payloads| < limit then |payloads| else limit)
      && forall k | 0 <= k < |r| :: r[k] == payloads[k][..area]
  {
    if payloads != [] && limit != 0 { LumasAre(payloads[1..], area, limit - 1); }
  }

  /** A dimension that is odd leaves out half of the other one's chroma. */
  lemma ProductOfHalves(a: nat, b: nat, r: nat, q: nat, width: nat, height: nat)
    requires r <= 1 && q <= 1 && width == 2 * a + r && height == 2 * b + q
    ensures width * height
         == 4 * (a * b) + (if q == 1 then 2 * a else 0) + (if r == 1 then 2 * b else 0) + (if r == q == 1 then 1 else 0)
  {
    if r == 0 && q == 0 {
      assert (2 * a) * (2 * b) == 4 * (a * b);
    } else if r == 0 {
      assert (2 * a) * (2 * b + 1) == 4 * (a * b) + 2 * a;
    } else if q == 0 {
      assert (2 * a + 1) * (2 * b) == 4 * (a * b) + 2 * b;
    } else {
      assert (2 * a + 1) * (2 * b + 1) == 4 * (a * b) + 2 * a + 2 * b + 1;
    }
  }

  lemma SlackIs(width: nat, height: nat)
    ensures Slack(width, height)
         == (if height % 2 == 1 then width / 2 else 0) + (if width % 2 == 1 then height / 2 else 0)
  {
    var a, b, r, q := width / 2, height / 2, width % 2, height % 2;
    assert width == 2 * a + r && height == 2 * b + q;
    ProductOfHalves(a, b, r, q, width, height);
  }

  lemma PayloadsAreFrames(width: nat, height: nat, frames: nat)
    ensures AreFrames(Payloads(width, height, 0, frames), FrameSize(width, height) - Slack(width, height))
    ensures width * height <= FrameSize(width, height) - Slack(width, height)
  {
    var payloads, area, half := Payloads(width, height, 0, frames), width * height, (width / 2) * (height / 2);
    HasWidth(width, height);
    HasWidth(width / 2, height / 2);
    assert FrameSize(width, height) - Slack(width, height) == area + 2 * half;
    assert half >= 0;
    forall p | p in payloads ensures |p| == area + 2 * half && NoNewline(p) {
      var t :| 0 <= t < |payloads| && payloads[t] == p;
      assert p == Payload(width, height, t);
    }
  }

  // ---------- the header ----------

  predicate IsWordText(s: string) { s != "" && forall c | c in s :: !IsWhite(c) }

  lemma {:induction false} WordLengthIs(word: string, rest: string)
    requires (forall c | c in word :: !IsWhite(c)) && (rest == "" || IsWhite(rest[0]))
    ensures WordLength(word + rest) == |word|
  {
    if word == "" {
      assert word + rest == rest;
    } else {
      assert word[0] in word && (word + rest)[1..] == word[1..] + rest;
      WordLengthIs(word[1..], rest);
    }
  }

  lemma FirstWord(word: string, tail: string)
    requires IsWordText(word) && (tail == "" || IsWhite(tail[0]))
    ensures Words(word + tail) == [word] + Words(tail)
  {
    hide WordLength;
    assert word[0] in word;
    WordLengthIs(word, tail);
    assert (word + tail)[..|word|] == word && (word + tail)[|word|..] == tail;
  }

  lemma BlankIsSkipped(s: string)
    ensures Words(" " + s) == Words(s)
  {
    assert (" " + s)[1..] == s;
  }

  lemma OneMoreWord(word: string, more: seq<string>)
    requires IsWordText(word) && more != [] && Words(Join(more, " ")) == more
    ensures Words(Join([word] + more, " ")) == [word] + more
  {
    hide IsWordText, Words, Join;
    var rest := Join(more, " ");
    JoinStep(word, more);
    BlankIsSkipped(rest);
    FirstWord(word, " " + rest);
    assert word + " " + rest == word + (" " + rest);
  }

  lemma {:induction false} WordsOfJoin(words: seq<string>)
    requires forall w | w in words :: IsWordText(w)
    ensures Words(Join(words, " ")) == words
  {
    NoWords();
    if words != [] {
      assert words[0] in words;
      WordsOfJoin(words[1..]);
      if |words| == 1 {
        FirstWord(words[0], "");
        assert words[0] + "" == words[0];
      } else {
        hide Words, Join, IsWordText;
        OneMoreWord(words[0], words[1..]);
        assert words == [words[0]] + words[1..];
      }
    }
  }

  lemma NoWords()
    ensures Words("") == []
  {}

  function HeaderWords(width: nat, height: nat): seq<string> {
    ["YUV4MPEG2", "W" + NatText(width), "H" + NatText(height), "F30:1", "Ip", "A1:1", "C420jpeg"]
  }

  lemma JoinStep(first: string, rest: seq<string>)
    requires rest != []
    ensures Join([first] + rest, " ") == first + " " + Join(rest, " ")
  {
    assert ([first] + rest)[1..] == rest;
  }

  lemma Regrouped(w: string, h: string, z: string)
    ensures "YUV4MPEG2 W" + w + " H" + h + (" " + z)
         == "YUV4MPEG2" + " " + (("W" + w) + " " + (("H" + h) + " " + z))
  {
    assert "YUV4MPEG2 W" == "YUV4MPEG2" + " " + "W" && " H" == " " + "H";
  }

  lemma TaggedIsWord(tag: char, digits: string)
    requires !IsWhite(tag) && AllDigits(digits)
    ensures IsWordText([tag] + digits)
  {
    forall c | IsDigit(c) ensures !IsWhite(c) {}
  }

  lemma HeaderIsWords(width: nat, height: nat)
    ensures HeaderText(width, height) == Join(HeaderWords(width, height), " ")
    ensures forall w | w in HeaderWords(width, height) :: IsWordText(w)
  {
    TaggedIsWord('W', NatText(width));
    TaggedIsWord('H', NatText(height));
    hide Join, NatText;
    OtherWords();
    hide IsWordText;
    Regrouped(NatText(width), NatText(height), "F30:1 Ip A1:1 C420jpeg");
    assert " F30:1 Ip A1:1 C420jpeg" == " " + "F30:1 Ip A1:1 C420jpeg";
    WordsRegrouped("W" + NatText(width), "H" + NatText(height), "F30:1 Ip A1:1 C420jpeg");
  }

  lemma OtherWords()
    ensures IsWordText("YUV4MPEG2") && IsWordText("F30:1") && IsWordText("Ip") && IsWordText("A1:1")
        && IsWordText("C420jpeg")
  {}

  lemma WordsRegrouped(w: string, h: string, z: string)
    requires z == "F30:1 Ip A1:1 C420jpeg"
    ensures Join(["YUV4MPEG2", w, h, "F30:1", "Ip", "A1:1", "C420jpeg"], " ")
         == "YUV4MPEG2" + " " + (w + " " + (h + " " + z))
  {
    hide Join;
    var last := ["F30:1", "Ip", "A1:1", "C420jpeg"];
    FixedWords();
    JoinStep(h, last);
    JoinStep(w, [h] + last);
    JoinStep("YUV4MPEG2", [w] + ([h] + last));
    assert ["YUV4MPEG2", w, h, "F30:1", "Ip", "A1:1", "C420jpeg"] == ["YUV4MPEG2"] + ([w] + ([h] + last));
  }

  lemma JoinFour(a: string, b: string, c: string, d: string)
    ensures Join([a, b, c, d], " ") == a + " " + (b + " " + (c + " " + d))
  {
    hide Join;
    assert Join([d], " ") == d by { JoinOne(d); }
    JoinStep(c, [d]);
    JoinStep(b, [c, d]);
    JoinStep(a, [b, c, d]);
    assert [c] + [d] == [c, d] && [b] + [c, d] == [b, c, d] && [a] + [b, c, d] == [a, b, c, d];
  }

  lemma JoinOne(d: string)
    ensures Join([d], " ") == d
  {}

  lemma FixedWords()
    ensures Join(["F30:1", "Ip", "A1:1", "C420jpeg"], " ") == "F30:1 Ip A1:1 C420jpeg"
  {
    hide Join;
    JoinFour("F30:1", "Ip", "A1:1", "C420jpeg");
    assert "Ip" + " " + ("A1:1" + " " + "C420jpeg") == "Ip A1:1 C420jpeg";
    assert "F30:1" + " " + "Ip A1:1 C420jpeg" == "F30:1 Ip A1:1 C420jpeg";
  }

  lemma AsciiTail(s: string)
    requires IsAscii(s) && s != ""
    ensures s[0] < 128 as char && IsAscii(s[1..]) && Bytes(s) == [AsByte(s[0])] + Bytes(s[1..])
    ensures AsByte(s[0]) < 0x80 && AsByte(s[0]) as char == s[0]
  {
    assert s[0] in s && forall c | c in s[1..] :: c in s;
  }

  lemma NoBytes(s: string)
    requires IsAscii(s) && s == ""
    ensures Bytes(s) == [] && Utf8.Decode([]) == Ok("")
  {}

  lemma {:induction false} AsciiIsUtf8(s: string)
    requires IsAscii(s)
    ensures Utf8.Decode(Bytes(s)) == Ok(s)
  {
    hide IsAscii, Bytes, Utf8.Decode, AsByte;
    if s == "" {
      NoBytes(s);
    } else {
      AsciiTail(s);
      AsciiIsUtf8(s[1..]);
      Utf8.AsciiFirst(AsByte(s[0]), Bytes(s[1..]));
      assert [s[0]] + s[1..] == s;
    }
  }

  lemma FormatPasses()
    ensures StartsWith("420jpeg", "420") && !StartsWith("420jpeg", "420p1")
  {
    assert "420jpeg"[..3] == "420" && "420jpeg"[3] != "420p1"[3];
  }

  /** The generated header reads back as its sizes. */
  lemma HeaderReadsBack(width: nat, height: nat)
    requires width <= USIZE_MAX && height <= USIZE_MAX
    ensures IsAscii(HeaderText(width, height))
    ensures ParseHeader(Bytes(HeaderText(width, height))) == Ok((width, height))
  {
    hide IsAscii, HeaderText, Bytes, Words, Join, ParseUsize, Field, StartsWith, NatText, Utf8.Decode;
    var w, h := NatText(width), NatText(height);
    HeaderIsAscii(width, height);
    HeaderIsWords(width, height);
    WordsOfJoin(HeaderWords(width, height));
    SizeReadsBack(width);
    SizeReadsBack(height);
    AsciiIsUtf8(HeaderText(width, height));
    FieldsAre(w, h);
    assert HeaderWords(width, height) == ["YUV4MPEG2", "W" + w, "H" + h, "F30:1", "Ip", "A1:1", "C420jpeg"];
    FormatPasses();
  }

  lemma SizeReadsBack(n: nat)
    requires n <= USIZE_MAX
    ensures ParseUsize(NatText(n)) == Ok(n)
  {
    NatRoundTrip(n);
    assert NatText(n)[0] in NatText(n);
  }

  lemma FieldsAre(w: string, h: string)
    ensures var words := ["YUV4MPEG2", "W" + w, "H" + h, "F30:1", "Ip", "A1:1", "C420jpeg"];
      && Field(words, 'W') == Some(w) && Field(words, 'H') == Some(h) && Field(words, 'C') == Some("420jpeg")
  {
    var words := ["YUV4MPEG2", "W" + w, "H" + h, "F30:1", "Ip", "A1:1", "C420jpeg"];
    FieldSkips(words, 'W');
    FieldSkips(words, 'H');
    FieldSkips(words[1..], 'H');
    FieldSkips(words, 'C');
    FieldSkips(words[1..], 'C');
    FieldSkips(words[2..], 'C');
    FieldSkips(words[3..], 'C');
    FieldSkips(words[4..], 'C');
    FieldSkips(words[5..], 'C');
  }

  lemma FieldSkips(words: seq<string>, tag: char)
    requires words != [] && (words[0] == "" || words[0][0] != tag)
    ensures Field(words, tag) == Field(words[1..], tag)
  {}

  // ---------- the round trip ----------

  function Front(width: nat, height: nat): seq<Byte> {
    HeaderIsAscii(width, height);
    Bytes(HeaderText(width, height)) + [NEWLINE]
  }

  /** Reading a generated clip is reading its frames at the printed sizes. */
  lemma ReadsFrames(width: nat, height: nat, frames: nat, limit: nat)
    requires width <= USIZE_MAX && height <= USIZE_MAX
    ensures var planes := ReadFrames(Synthetic(width, height, frames), |Front(width, height)|,
                                     width * height, FrameSize(width, height), limit);
      ReadLuma(Synthetic(width, height, frames), limit)
      == if planes.Err? || planes.value == [] then Err else Ok(Clip(width, height, planes.value))
  {
    hide ParseHeader, ReadFrames, HeaderText, Payloads, Frames;
    HeaderReadsBack(width, height);
    HeaderIsAscii(width, height);
    var header, data := Bytes(HeaderText(width, height)), Synthetic(width, height, frames);
    HeaderEnds(header, Frames(Payloads(width, height, 0, frames)), HeaderText(width, height));
    assert data[..|header|] == header;
  }

  lemma HeaderEnds(header: seq<Byte>, rest: seq<Byte>, text: string)
    requires IsAscii(text) && '\n' !in text && header == Bytes(text)
    ensures NextLine(header + [NEWLINE] + rest, 0) == Some(|header|)
  {
    var data := header + [NEWLINE] + rest;
    assert Chars(header) == text;
    forall k | 0 <= k < |header| ensures data[k] != NEWLINE {
      assert text[k] == header[k] as char && text[k] in text;
    }
    assert data[|header|] == NEWLINE;
  }

  /** The generator's formula, sample by sample. */
  ghost predicate IsLumaOf(plane: seq<Byte>, width: nat, height: nat, t: nat) {
    |plane| == width * height
    && forall x, y :: 0 <= x < width && 0 <= y < height ==> SampleAt(plane, width, x, y) == Some(Sample(Luma(t), x, y))
  }

  function SampleAt(plane: seq<Byte>, width: nat, x: nat, y: nat): Option<Byte> {
    if y * width + x < |plane| then Some(plane[y * width + x]) else None
  }

  lemma RasterIsFormula(width: nat, height: nat, t: nat)
    requires width * height > 0 ==> width > 0
    ensures IsLumaOf(Raster(Luma(t), width, width * height), width, height, t)
  {
    var plane := Raster(Luma(t), width, width * height);
    forall x: nat, y: nat | x < width && y < height
      ensures SampleAt(plane, width, x, y) == Some(Sample(Luma(t), x, y))
    {
      var i := y * width + x;
      RowInside(width, height, x, y);
      QuotientAndRemainder(i, width, y, x);
    }
  }

  /** The reader gives back the printed sizes and the first luma planes. */
  ghost predicate GivesBack(clip: Result<Clip>, width: nat, height: nat, count: nat) {
    && clip.Ok? && clip.value.width == width && clip.value.height == height
    && |clip.value.planes| == count
    && forall t | 0 <= t < count :: IsLumaOf(clip.value.planes[t], width, height, t)
  }

  lemma ReadsLumas(width: nat, height: nat, frames: nat, limit: nat)
    requires Slack(width, height) <= 5
    ensures forall p | p in Payloads(width, height, 0, frames) :: width * height <= |p|
    ensures ReadFrames(Synthetic(width, height, frames), |Front(width, height)|,
                       width * height, FrameSize(width, height), limit)
         == Ok(Lumas(Payloads(width, height, 0, frames), width * height, limit))
  {
    hide ReadFrames, NoNewline, Raster, HeaderText, Payloads, Payload, Lumas, Frames, FrameSize;
    SlackIs(width, height);
    PayloadsAreFrames(width, height, frames);
    var payloads, area := Payloads(width, height, 0, frames), width * height;
    var slack: nat, size: nat := Slack(width, height), FrameSize(width, height) - Slack(width, height);
    hide Slack;
    PayloadsReadBack(Front(width, height), payloads, area, size, slack, limit);
    assert size + slack == FrameSize(width, height);
  }

  lemma PayloadsReadBack(front: seq<Byte>, payloads: seq<seq<Byte>>, area: nat, size: nat, slack: nat, limit: nat)
    requires AreFrames(payloads, size) && area <= size && slack <= 5
    ensures ReadFrames(front + Frames(payloads), |front|, area, size + slack, limit)
         == Ok(Lumas(payloads, area, limit))
  {
    hide ReadFrames, NoNewline, Lumas, Frames;
    FramesReadBack(front, payloads, 0, area, size, slack, limit);
    assert |front| + 0 == |front|;
  }

  /** Every even size, and every odd one whose chroma is short by at most five bytes, reads back. */
  lemma SyntheticReadsBack(width: nat, height: nat, frames: nat, limit: nat)
    requires width <= USIZE_MAX && height <= USIZE_MAX && frames > 0 && limit > 0
    requires Slack(width, height) <= 5
    ensures GivesBack(ReadLuma(Synthetic(width, height, frames), limit), width, height,
                      if frames < limit then frames else limit)
  {
    hide ReadFrames, Frames, ReadLuma, Raster, IsLumaOf, HeaderText, Slack, FrameSize, Payload, Synthetic, Front;
    var payloads, area := Payloads(width, height, 0, frames), width * height;
    ReadsFrames(width, height, frames, limit);
    ReadsLumas(width, height, frames, limit);
    LumasAre(payloads, area, limit);
    hide Payloads, Lumas;
    var planes := Lumas(payloads, area, limit);
    forall t | 0 <= t < |planes| ensures IsLumaOf(planes[t], width, height, t) {
      LumaOfPayload(width, height, t);
      assert planes[t] == Payload(width, height, t)[..area];
    }
  }

  lemma LumaOfPayload(width: nat, height: nat, t: nat)
    ensures |Payload(width, height, t)| >= width * height
    ensures IsLumaOf(Payload(width, height, t)[..width * height], width, height, t)
  {
    hide IsLumaOf, Sample;
    HasWidth(width, height);
    HasWidth(width / 2, height / 2);
    RasterIsFormula(width, height, t);
    assert Payload(width, height, t)[..width * height] == Raster(Luma(t), width, width * height);
  }

  // ---------- sizes that do not read back ----------

  function Newlines(data: seq<Byte>, pos: nat): nat
    decreases |data| - pos
  {
    if pos >= |data| then 0 else (if data[pos] == NEWLINE then 1 else 0) + Newlines(data, pos + 1)
  }

  lemma {:induction false} NewlinesLater(data: seq<Byte>, pos: nat, later: nat)
    requires pos <= later
    ensures Newlines(data, later) <= Newlines(data, pos)
    ensures pos < later && pos < |data| && data[pos] == NEWLINE ==> Newlines(data, later) < Newlines(data, pos)
    decreases later - pos
  {
    if pos < later { NewlinesLater(data, pos + 1, later); }
  }

  /** Every plane read takes a newline. */
  lemma {:induction false} PlanesTakeNewlines(data: seq<Byte>, pos: nat, area: nat, frame: nat, limit: nat)
    requires frame >= area
    ensures ReadFrames(data, pos, area, frame, limit).Ok? ==>
      |ReadFrames(data, pos, area, frame, limit).value| <= Newlines(data, pos)
    decreases |data| - pos
  {
    hide Newlines;
    if limit > 0 && pos < |data| && NextLine(data, pos).Some? {
      var line := NextLine(data, pos).value;
      NewlinesLater(data, pos, line);
      NewlinesLater(data, line, line + 1 + frame);
      PlanesTakeNewlines(data, line + 1 + frame, area, frame, limit - 1);
    }
  }

  lemma {:induction false} NoNewlines(data: seq<Byte>, pos: nat, end: nat)
    requires pos <= end <= |data| && forall k | pos <= k < end :: data[k] != NEWLINE
    ensures Newlines(data, pos) == Newlines(data, end)
    decreases end - pos
  {
    if pos < end { NoNewlines(data, pos + 1, end); }
  }

  lemma OneFrameNewline(front: seq<Byte>, payload: seq<Byte>, tail: seq<Byte>)
    requires NoNewline(payload)
    ensures var data, next := front + Framed(payload, tail), front + FRAME + payload;
      Newlines(data, |front|) == 1 + Newlines(data, |next|)
  {
    var data, next, at := front + Framed(payload, tail), front + FRAME + payload, |front|;
    FrameSlices(front, payload, tail, |payload|);
    forall k | 0 <= k < 6 ensures data[at + k] == FRAME[k] { assert data[at..at + 6][k] == data[at + k]; }
    forall k | at + 6 <= k < |next| ensures data[k] != NEWLINE {
      assert data[k] == data[at + 6..at + 6 + |payload|][k - at - 6];
      assert payload[k - at - 6] in payload;
    }
    forall k | at <= k < at + 5 ensures data[k] != NEWLINE { assert data[at + (k - at)] == FRAME[k - at]; }
    NoNewlines(data, at + 6, |next|);
    NoNewlines(data, at, at + 5);
    assert data[at + 5] == FRAME[5];
  }

  lemma {:induction false} FrameNewlines(front: seq<Byte>, payloads: seq<seq<Byte>>, size: nat)
    requires AreFrames(payloads, size)
    ensures Newlines(front + Frames(payloads), |front|) == |payloads|
    decreases |payloads|
  {
    hide Framed;
    if payloads == [] {
      assert front + Frames(payloads) == front;
    } else {
      var payload, rest := payloads[0], payloads[1..];
      assert payload in payloads && forall p | p in rest :: p in payloads;
      hide NoNewline, Newlines;
      OneFrameNewline(front, payload, Frames(rest));
      FrameSlices(front, payload, Frames(rest), 0);
      FrameNewlines(front + FRAME + payload, rest, size);
    }
  }

  lemma LaterNewlines(front: seq<Byte>, payloads: seq<seq<Byte>>, size: nat, skip: nat)
    requires AreFrames(payloads, size) && payloads != [] && skip > 5
    ensures Newlines(front + Frames(payloads), |front| + skip) < |payloads|
  {
    var data := front + Frames(payloads);
    FrameNewlines(front, payloads, size);
    FrameSlices(front, payloads[0], Frames(payloads[1..]), 0);
    assert data[|front|..|front| + 6][5] == FRAME[5];
    NewlinesLater(data, |front|, |front| + 5);
    NewlinesLater(data, |front| + 5, |front| + skip);
  }

  /** A longer shortfall makes the reader step over the next frame header, and a frame is lost. */
  lemma FrameIsLost(front: seq<Byte>, payloads: seq<seq<Byte>>, area: nat, size: nat, slack: nat, limit: nat)
    requires AreFrames(payloads, size) && area <= size && slack > 5 && |payloads| >= 2
    ensures var r := ReadFrames(front + Frames(payloads), |front|, area, size + slack, limit);
      r.Ok? ==> |r.value| < |payloads|
  {
    hide NextLine, Newlines, ReadFrames, NoNewline, Framed;
    if limit == 0 {
      NothingRead(front + Frames(payloads), |front|, area, size + slack, limit);
    } else {
      var payload, rest := payloads[0], payloads[1..];
      assert payload in payloads && forall p | p in rest :: p in payloads;
      FrameRead(front, payload, Frames(rest), 0, area, slack, limit);
      var next := front + FRAME + payload;
      LaterNewlines(next, rest, size, slack);
      PlanesTakeNewlines(next + Frames(rest), |next| + slack, area, size + slack, limit - 1);
    }
  }

  lemma {:induction false} NextLineSkips(data: seq<Byte>, pos: nat, end: nat)
    requires pos <= end <= |data| && forall k | pos <= k < end :: data[k] != NEWLINE
    ensures NextLine(data, pos) == NextLine(data, end)
    decreases end - pos
  {
    if pos < end { NextLineSkips(data, pos + 1, end); }
  }

  lemma PayloadHoldsNoNewline(front: seq<Byte>, inner: seq<Byte>, tail: seq<Byte>, pos: nat)
    requires NoNewline(inner) && |front| + 6 <= pos <= |front| + 6 + |inner|
    ensures var data, next := front + Framed(inner, tail), front + FRAME + inner;
      |next| <= |data| && NextLine(data, pos) == NextLine(data, |next|)
  {
    hide NextLine;
    FrameSlices(front, inner, tail, |inner|);
    var data, start := front + Framed(inner, tail), |front| + 6;
    assert |data| == start + |inner| + |tail|;
    hide Framed;
    var there := data[start..start + |inner|];
    assert there == inner;
    forall k | pos <= k < start + |inner| ensures data[k] != NEWLINE {
      assert data[k] == there[k - start] && there[k - start] in inner;
    }
    NextLineSkips(data, pos, start + |inner|);
  }

  /** From inside a frame's payload the next frame's luma is read. */
  /** A read that finds its first line break in the next frame's header takes that frame's plane. */
  lemma ReadFromInside(next: seq<Byte>, payload: seq<Byte>, tail: seq<Byte>, pos: nat, area: nat, frame: nat,
                       limit: nat)
    requires area <= |payload| && limit > 0 && pos <= |next|
    requires NextLine(next + Framed(payload, tail), pos) == NextLine(next + Framed(payload, tail), |next|)
    ensures var r := ReadFrames(next + Framed(payload, tail), pos, area, frame, limit);
      r.Ok? ==> r.value != [] && r.value[0] == payload[..area]
  {
    hide NextLine, ReadFrames;
    var data := next + Framed(payload, tail);
    FrameSlices(next, payload, tail, area);
    assert |data| == |next| + 6 + |payload| + |tail|;
    hide Framed;
    HeaderLineIs(data, |next|, 0);
    ReadStep(data, pos, area, frame, limit, |next| + 5);
  }

  lemma NextFrameIsRead(front: seq<Byte>, inner: seq<Byte>, payload: seq<Byte>, tail: seq<Byte>, skip: nat,
                        area: nat, frame: nat, limit: nat)
    requires NoNewline(inner) && 5 < skip <= 6 + |inner| && area <= |payload| && limit > 0
    ensures var data := front + Framed(inner, Framed(payload, tail));
      var r := ReadFrames(data, |front| + skip, area, frame, limit);
      r.Ok? ==> r.value != [] && r.value[0] == payload[..area]
  {
    hide NextLine, NoNewline, ReadFrames, Framed;
    var next, more := front + FRAME + inner, Framed(payload, tail);
    FrameSlices(front, inner, more, |inner|);
    PayloadHoldsNoNewline(front, inner, more, |front| + skip);
    ReadFromInside(next, payload, tail, |front| + skip, area, frame, limit);
  }

  lemma ThreeFrames(payloads: seq<seq<Byte>>)
    requires |payloads| >= 3
    ensures Frames(payloads) == Framed(payloads[0], Framed(payloads[1], Framed(payloads[2], Frames(payloads[3..]))))
  {
    hide Framed;
    assert payloads[1..][1..][1..] == payloads[3..];
    assert Frames(payloads[1..][1..]) == Framed(payloads[2], Frames(payloads[3..]));
    assert Frames(payloads[1..]) == Framed(payloads[1], Frames(payloads[1..][1..]));
  }

  lemma LaterPlanes(plane: seq<Byte>, rest: Result<seq<seq<Byte>>>)
    ensures AddPlanes([plane], rest).Ok? ==> rest.Ok? && |AddPlanes([plane], rest).value| == 1 + |rest.value|
    ensures AddPlanes([plane], rest).Ok? && rest.value != [] ==> AddPlanes([plane], rest).value[1] == rest.value[0]
  {}

  lemma ThirdOf(front: seq<Byte>, framed: seq<Byte>, first: seq<Byte>, second: seq<Byte>, third: seq<Byte>,
                tail: seq<Byte>, area: nat, frame: nat, slack: nat, limit: nat)
    requires framed == Framed(first, Framed(second, Framed(third, tail))) && frame == |first| + slack
    requires |first| == |second| == |third| >= area && NoNewline(second) && 5 < slack <= |first| && limit >= 2
    ensures var r := ReadFrames(front + framed, |front|, area, frame, limit);
      r.Ok? ==> |r.value| >= 2 && r.value[1] == third[..area]
  {
    hide ReadFrames, NoNewline, AddPlanes, Framed;
    var rest, next := Framed(second, Framed(third, tail)), front + FRAME + first;
    FrameRead(front, first, rest, 0, area, slack, limit);
    NextFrameIsRead(next, second, third, tail, slack, area, frame, limit - 1);
    LaterPlanes(first[..area], ReadFrames(next + rest, |next| + slack, area, frame, limit - 1));
    assert |front| + 0 == |front|;
  }

  /** Then the second plane read is the third frame's. */
  lemma ThirdComesSecond(front: seq<Byte>, payloads: seq<seq<Byte>>, area: nat, size: nat, slack: nat, limit: nat)
    requires AreFrames(payloads, size) && area <= size && 5 < slack <= size && |payloads| >= 3 && limit >= 2
    ensures var r := ReadFrames(front + Frames(payloads), |front|, area, size + slack, limit);
      r.Ok? ==> |r.value| >= 2 && r.value[1] == payloads[2][..area]
  {
    hide Framed;
    var first, second, third := payloads[0], payloads[1], payloads[2];
    assert first in payloads && second in payloads && third in payloads;
    ThreeFrames(payloads);
    hide ReadFrames, NoNewline, Frames;
    ThirdOf(front, Frames(payloads), first, second, third, Frames(payloads[3..]), area, size + slack, slack, limit);
  }

  /** One plane is read whatever the shortfall. */
  lemma OnePlane(front: seq<Byte>, payloads: seq<seq<Byte>>, area: nat, size: nat, slack: nat, limit: nat)
    requires AreFrames(payloads, size) && area <= size && payloads != [] && limit > 0
    requires |payloads| == 1 || limit == 1
    ensures ReadFrames(front + Frames(payloads), |front|, area, size + slack, limit) == Ok([payloads[0][..area]])
  {
    hide Framed;
    var payload, rest := payloads[0], Frames(payloads[1..]);
    assert payload in payloads && |payload| == size;
    assert |payloads| == 1 ==> rest == [];
    hide ReadFrames, NoNewline, Frames, AreFrames, AddPlanes;
    FirstFrame(payloads);
    var next := front + FRAME + payload;
    FrameRead(front, payload, rest, 0, area, slack, limit);
    NothingRead(next + rest, |next| + slack, area, size + slack, limit - 1);
    AddPlane(payload[..area], []);
    assert [payload[..area]] + [] == [payload[..area]] && |front| + 0 == |front|;
  }

  lemma FirstFrame(payloads: seq<seq<Byte>>)
    requires payloads != []
    ensures Frames(payloads) == Framed(payloads[0], Frames(payloads[1..]))
  {}

  lemma FirstXors()
    ensures Xor(15838, 104729) == 107719 && Xor(31676, 209458) == 215438
  {
    assert ((15838 as bv32) ^ (104729 as bv32)) == 107719 as bv32;
    assert ((31676 as bv32) ^ (209458 as bv32)) == 215438 as bv32;
  }

  lemma FirstTexture()
    ensures Texture(2, 1) == 15
  {
    FirstXors();
    hide Xor;
    assert 2 % U32 * 7919 % U32 == 15838;
    assert 1 % U32 * 104729 % U32 == 104729;
    var product := 107719 * 2654435761;
    assert product % U32 == 12975255;
  }

  lemma SecondTexture()
    ensures Texture(4, 2) == 31
  {
    FirstXors();
    hide Xor;
    assert 4 % U32 * 7919 % U32 == 31676;
    assert 2 % U32 * 104729 % U32 == 209458;
    var product := 215438 * 2654435761;
    assert product % U32 == 25950510;
  }

  lemma FramesDiffer()
    ensures Sample(Luma(1), 0, 0) == 19 && Sample(Luma(2), 0, 0) == 39
  {
    FirstTexture();
    SecondTexture();
    hide Texture;
    assert Tri(19) == 19 && Tri(39) == 39;
  }

  lemma AreaIsLarge(width: nat, height: nat, area: nat)
    requires height > 0 && width > 0 && area == width * height
    ensures width / 2 + height / 2 <= area
  {
    Scaled(height, width);
    Scaled(width, height);
  }

  lemma SlackIsSmall(width: nat, height: nat)
    ensures Slack(width, height) <= width * height
  {
    SlackIs(width, height);
    hide Slack;
    if height > 0 && width > 0 {
      AreaIsLarge(width, height, width * height);
    }
  }

  function ClipOf(width: nat, height: nat, planes: Result<seq<seq<Byte>>>): Result<Clip> {
    if planes.Err? || planes.value == [] then Err else Ok(Clip(width, height, planes.value))
  }

  /** A generated clip, as frames of one size behind a front part. */
  lemma ClipFrames(width: nat, height: nat, frames: nat, limit: nat, area: nat) returns (size: nat, slack: nat)
    requires width <= USIZE_MAX && height <= USIZE_MAX && area == width * height
    ensures slack == Slack(width, height) && area <= size && slack <= size
    ensures AreFrames(Payloads(width, height, 0, frames), size)
    ensures ReadLuma(Synthetic(width, height, frames), limit)
         == ClipOf(width, height, ReadFrames(Front(width, height) + Frames(Payloads(width, height, 0, frames)),
                                             |Front(width, height)|, area, size + slack, limit))
  {
    SlackIs(width, height);
    SlackIsSmall(width, height);
    PayloadsAreFrames(width, height, frames);
    hide ReadFrames, Frames, ReadLuma, HeaderText, AreFrames, FrameSize, Payload, Payloads;
    ReadsFrames(width, height, frames, limit);
    slack, size := Slack(width, height), FrameSize(width, height) - Slack(width, height);
    assert size + slack == FrameSize(width, height);
  }

  lemma LosesAFrame(width: nat, height: nat, frames: nat, limit: nat)
    requires width <= USIZE_MAX && height <= USIZE_MAX && frames >= 2 && limit >= 2 && Slack(width, height) > 5
    ensures !GivesBack(ReadLuma(Synthetic(width, height, frames), limit), width, height,
                       if frames < limit then frames else limit)
  {
    var payloads, area := Payloads(width, height, 0, frames), width * height;
    if limit < frames { assert payloads[2] == Payload(width, height, 2); }
    SlackNeedsSamples(width, height);
    hide ReadFrames, Frames, ReadLuma, IsLumaOf, AreFrames, Slack, Payload, Payloads, Synthetic, Front;
    var size, slack := ClipFrames(width, height, frames, limit, area);
    if limit < frames {
      ThirdComesSecond(Front(width, height), payloads, area, size, slack, limit);
      ThirdIsNoSecond(width, height);
    } else {
      FrameIsLost(Front(width, height), payloads, area, size, slack, limit);
    }
  }

  lemma SlackNeedsSamples(width: nat, height: nat)
    requires Slack(width, height) > 0
    ensures width > 0 && height > 0
  {
    SlackIs(width, height);
  }

  lemma ThirdIsNoSecond(width: nat, height: nat)
    requires width > 0 && height > 0
    ensures |Payload(width, height, 2)| >= width * height
    ensures !IsLumaOf(Payload(width, height, 2)[..width * height], width, height, 1)
  {
    LumaOfPayload(width, height, 2);
    FramesDiffer();
    hide Payload, Sample;
    var plane := Payload(width, height, 2)[..width * height];
    assert SampleAt(plane, width, 0, 0) == Some(Sample(Luma(2), 0, 0));
  }

  lemma OneFrameReadsBack(width: nat, height: nat, frames: nat, limit: nat)
    requires width <= USIZE_MAX && height <= USIZE_MAX && frames > 0 && limit > 0 && (frames == 1 || limit == 1)
    ensures GivesBack(ReadLuma(Synthetic(width, height, frames), limit), width, height, 1)
  {
    var payloads, area := Payloads(width, height, 0, frames), width * height;
    assert payloads[0] == Payload(width, height, 0);
    hide ReadFrames, Frames, ReadLuma, GivesBack, AreFrames, Slack, Payload, Payloads, Synthetic, Front, ClipOf;
    var size, slack := ClipFrames(width, height, frames, limit, area);
    OnePlane(Front(width, height), payloads, area, size, slack, limit);
    FirstIsBack(width, height, area);
  }

  lemma FirstIsBack(width: nat, height: nat, area: nat)
    requires area == width * height
    ensures |Payload(width, height, 0)| >= area
    ensures GivesBack(ClipOf(width, height, Ok([Payload(width, height, 0)[..area]])), width, height, 1)
  {
    hide IsLumaOf, Payload;
    LumaOfPayload(width, height, 0);
  }

  /**
   A clip gives back its sizes and the luma of every frame asked for exactly when that is one frame or the
   chroma is short by at most five bytes.
   */
  lemma ReadsBackExactly(width: nat, height: nat, frames: nat, limit: nat)
    requires width <= USIZE_MAX && height <= USIZE_MAX && frames > 0 && limit > 0
    ensures var count := if frames < limit then frames else limit;
      GivesBack(ReadLuma(Synthetic(width, height, frames), limit), width, height, count)
      <==> count == 1
           || (if height % 2 == 1 then width / 2 else 0) + (if width % 2 == 1 then height / 2 else 0) <= 5
  {
    hide ReadLuma, GivesBack, Synthetic;
    SlackIs(width, height);
    hide Slack;
    if frames == 1 || limit == 1 {
      OneFrameReadsBack(width, height, frames, limit);
    } else if Slack(width, height) <= 5 {
      SyntheticReadsBack(width, height, frames, limit);
    } else {
      LosesAFrame(width, height, frames, limit);
    }
  }
}
