/**
 Frames of strided planes: the fuzz target's frame model (fuzz/fuzz_targets/recon_frame_hash_bytes.rs),
 the picture the C interface shows of a frame (crates/splot-capi/src/lib.rs) and the writer of its
 visible bytes (crates/splot-capi/examples/decode.c).
 */
module FrameBytes {
  import opened Wrappers
  import opened Rasters

  datatype Depth = Eight | Ten {
    function MaxSample(): nat { if Eight? then 255 else 1023 }
    function SampleSize(): nat { if Eight? then 1 else 2 }
  }

  datatype Format = Monochrome | Yuv420 | Yuv422 | Yuv444 {
    function SubX(): nat { if Yuv420? || Yuv422? then 1 else 0 }
    function SubY(): nat { if Yuv420? then 1 else 0 }
  }

  function Shift(v: nat, sub: nat): nat
    requires sub <= 1
  {
    if sub == 1 then v / 2 else v
  }

  datatype Rect = Rect(x: nat, y: nat, width: nat, height: nat)

  datatype PlaneModel = PlaneModel(storageWidth: nat, storageHeight: nat, visible: Rect, stride: nat,
                                   samples: seq<nat>, seed: nat)

  predicate IsWithin(visible: Rect, width: nat, height: nat) {
    visible.x + visible.width <= width && visible.y + visible.height <= height
  }

  predicate ValidPlane(m: PlaneModel, depth: Depth) {
    && m.visible.width > 0 && m.visible.height > 0
    && IsWithin(m.visible, m.storageWidth, m.storageHeight) && m.storageWidth <= m.stride
    && |m.samples| == m.visible.width * m.visible.height
    && forall v | v in m.samples :: v <= depth.MaxSample()
  }

  // ---------- reading samples from the fuzz input ----------

  function ByteAt(bytes: seq<Byte>, i: nat): Byte { if i < |bytes| then bytes[i] else 0 }

  function Rest(bytes: seq<Byte>, n: nat): seq<Byte> { if n <= |bytes| then bytes[n..] else [] }

  /** The i-th sample of an input; past its end everything reads as zero. */
  function SampleIn(depth: Depth, bytes: seq<Byte>, i: nat): (v: nat)
    ensures v <= depth.MaxSample()
  {
    match depth
    case Eight => ByteAt(bytes, i)
    case Ten => 4 * ByteAt(bytes, 2 * i) + ByteAt(bytes, 2 * i + 1) % 4
  }

  function SamplesIn(depth: Depth, bytes: seq<Byte>, count: nat): (s: seq<nat>)
    ensures |s| == count
  {
    seq(count, i requires i >= 0 => SampleIn(depth, bytes, i))
  }

  class SampleReader {
    var bytes: seq<Byte>
    const depth: Depth

    constructor (bytes: seq<Byte>, depth: Depth)
      ensures this.bytes == bytes && this.depth == depth
    {
      this.bytes := bytes;
      this.depth := depth;
    }

    method NextByte() returns (b: Byte)
      modifies this
      ensures b == ByteAt(old(bytes), 0) && bytes == Rest(old(bytes), 1)
    {
      if bytes == [] { return 0; }
      b := bytes[0];
      bytes := bytes[1..];
    }

    method Sample() returns (v: nat)
      modifies this
      ensures v == SampleIn(depth, old(bytes), 0) && bytes == Rest(old(bytes), depth.SampleSize())
    {
      match depth
      case Eight =>
        v := NextByte();
      case Ten =>
        var high: int := NextByte();
        var low: int := NextByte();
        v := (high * 4 + low % 4) % 1024;
    }

    method Take(count: nat) returns (samples: seq<nat>)
      modifies this
      ensures samples == SamplesIn(depth, old(bytes), count)
      ensures bytes == Rest(old(bytes), count * depth.SampleSize())
    {
      samples := [];
      for i := 0 to count
        invariant samples == SamplesIn(depth, old(bytes), i)
        invariant bytes == Rest(old(bytes), i * depth.SampleSize())
      {
        RestSample(depth, old(bytes), i);
        var v := Sample();
        samples := samples + [v];
      }
    }
  }

  lemma RestOfRest(bytes: seq<Byte>, a: nat, b: nat)
    ensures Rest(Rest(bytes, a), b) == Rest(bytes, a + b)
    ensures ByteAt(Rest(bytes, a), b) == ByteAt(bytes, a + b)
  {}

  lemma RestSample(depth: Depth, bytes: seq<Byte>, i: nat)
    ensures SampleIn(depth, Rest(bytes, i * depth.SampleSize()), 0) == SampleIn(depth, bytes, i)
    ensures Rest(Rest(bytes, i * depth.SampleSize()), depth.SampleSize()) == Rest(bytes, (i + 1) * depth.SampleSize())
  {
    RestSamples(depth, bytes, i, 0);
    RestOfRest(bytes, i * depth.SampleSize(), depth.SampleSize());
    assert (i + 1) * depth.SampleSize() == i * depth.SampleSize() + depth.SampleSize();
  }

  lemma RestSamples(depth: Depth, bytes: seq<Byte>, a: nat, i: nat)
    ensures SampleIn(depth, Rest(bytes, a * depth.SampleSize()), i) == SampleIn(depth, bytes, a + i)
  {
    hide Rest, ByteAt;
    match depth
    case Eight =>
      RestOfRest(bytes, a, i);
    case Ten =>
      RestOfRest(bytes, 2 * a, 2 * i);
      RestOfRest(bytes, 2 * a, 2 * i + 1);
  }

  // ---------- building a plane ----------

  function PaddingSample(depth: Depth, seed: nat, variant: nat, x: nat, y: nat): (v: nat)
    ensures v <= depth.MaxSample()
  {
    (seed + variant * 37 + x * 13 + y * 17) % 0x1_0000 % (depth.MaxSample() + 1)
  }

  predicate Inside(r: Rect, x: nat, y: nat) { r.x <= x < r.x + r.width && r.y <= y < r.y + r.height }

  /** What a plane holds at column x of row y: its visible sample there, or padding. */
  function StoredAt(m: PlaneModel, depth: Depth, variant: nat, x: nat, y: nat): nat
    requires ValidPlane(m, depth)
  {
    if Inside(m.visible, x, y) then
      RowInside(m.visible.width, m.visible.height, x - m.visible.x, y - m.visible.y);
      m.samples[(y - m.visible.y) * m.visible.width + (x - m.visible.x)]
    else PaddingSample(depth, m.seed, variant, x, y)
  }

  /** The first n stored samples, row by row. */
  function Stored(m: PlaneModel, depth: Depth, variant: nat, n: nat): (s: seq<nat>)
    requires ValidPlane(m, depth)
    ensures |s| == n
  {
    seq(n, i requires 0 <= i < n => StoredAt(m, depth, variant, i % m.stride, i / m.stride))
  }

  datatype Plane = Plane(stride: nat, visible: Rect, samples: seq<nat>)

  function PlaneOf(m: PlaneModel, depth: Depth, variant: nat): Plane
    requires ValidPlane(m, depth)
  {
    Plane(m.stride, m.visible, Stored(m, depth, variant, m.storageHeight * m.stride))
  }

  function PlaneFromVec(width: nat, height: nat, stride: nat, visible: Rect, samples: seq<nat>): Option<Plane> {
    if stride < width || !IsWithin(visible, width, height) || |samples| != stride * height then None
    else Some(Plane(stride, visible, samples))
  }

  function Clamp(v: int, high: nat): nat { if v < 0 then 0 else if v > high then high else v }

  /** How many visible samples lie before column x of row y. */
  function Before(r: Rect, x: nat, y: nat): nat {
    if y < r.y then 0
    else if y < r.y + r.height then (y - r.y) * r.width + Clamp(x - r.x, r.width)
    else r.height * r.width
  }

  lemma NextRow(r: Rect, stride: nat, y: nat)
    requires r.x + r.width <= stride
    ensures Before(r, stride, y) == Before(r, 0, y + 1)
  {
    if r.y <= y < r.y + r.height {
      assert (y - r.y) * r.width + r.width == (y + 1 - r.y) * r.width;
    }
  }

  lemma StoredNext(m: PlaneModel, depth: Depth, variant: nat, x: nat, y: nat)
    requires ValidPlane(m, depth) && x < m.stride
    ensures Stored(m, depth, variant, y * m.stride + x + 1)
         == Stored(m, depth, variant, y * m.stride + x) + [StoredAt(m, depth, variant, x, y)]
  {
    hide ValidPlane, StoredAt;
    QuotientAndRemainder(y * m.stride + x, m.stride, y, x);
  }

  /** Fails exactly when a sample does not fit the sample type, and uses each visible sample once. */
  method BuildPlane(m: PlaneModel, depth: Depth, variant: nat, limit: nat) returns (r: Option<Plane>, ghost used: nat)
    requires ValidPlane(m, depth)
    ensures r.Some? <==> forall v | v in PlaneOf(m, depth, variant).samples :: v <= limit
    ensures r.Some? ==> r.value == PlaneOf(m, depth, variant) && used == |m.samples|
  {
    var samples: seq<nat>, visibleIndex: nat := [], 0;
    ghost var all := PlaneOf(m, depth, variant).samples;
    for y := 0 to m.storageHeight
      invariant visibleIndex == Before(m.visible, 0, y)
      invariant samples == Stored(m, depth, variant, y * m.stride)
      invariant forall v | v in samples :: v <= limit
    {
      for x := 0 to m.stride
        invariant visibleIndex == Before(m.visible, x, y)
        invariant samples == Stored(m, depth, variant, y * m.stride + x)
        invariant forall v | v in samples :: v <= limit
      {
        StoredNext(m, depth, variant, x, y);
        var value: nat;
        value, visibleIndex := NextValue(m, depth, variant, x, y, visibleIndex);
        if value > limit {
          StoredAppears(m, depth, variant, x, y);
          return None, visibleIndex;
        }
        samples := samples + [value];
      }
      NextRow(m.visible, m.stride, y);
      assert (y + 1) * m.stride == y * m.stride + m.stride;
    }
    assert samples == all;
    r := PlaneFromVec(m.storageWidth, m.storageHeight, m.stride, m.visible, samples);
    used := visibleIndex;
  }

  method NextValue(m: PlaneModel, depth: Depth, variant: nat, x: nat, y: nat, at: nat) returns (value: nat, next: nat)
    requires ValidPlane(m, depth) && x < m.stride && y < m.storageHeight && at == Before(m.visible, x, y)
    ensures value == StoredAt(m, depth, variant, x, y) && next == Before(m.visible, x + 1, y)
  {
    if Inside(m.visible, x, y) {
      RowInside(m.visible.width, m.visible.height, x - m.visible.x, y - m.visible.y);
      return m.samples[at], at + 1;
    }
    return PaddingSample(depth, m.seed, variant, x, y), at;
  }

  lemma StoredAppears(m: PlaneModel, depth: Depth, variant: nat, x: nat, y: nat)
    requires ValidPlane(m, depth) && x < m.stride && y < m.storageHeight
    ensures StoredAt(m, depth, variant, x, y) in PlaneOf(m, depth, variant).samples
  {
    hide ValidPlane, StoredAt;
    var i, all := y * m.stride + x, PlaneOf(m, depth, variant).samples;
    RowInside(m.stride, m.storageHeight, x, y);
    QuotientAndRemainder(i, m.stride, y, x);
    assert all[i] == StoredAt(m, depth, variant, x, y);
  }

  lemma StoredAtFits(m: PlaneModel, depth: Depth, variant: nat, x: nat, y: nat)
    requires ValidPlane(m, depth)
    ensures StoredAt(m, depth, variant, x, y) <= depth.MaxSample()
  {
    if Inside(m.visible, x, y) {
      RowInside(m.visible.width, m.visible.height, x - m.visible.x, y - m.visible.y);
      assert StoredAt(m, depth, variant, x, y) in m.samples;
    }
  }

  /** A sample type that holds the depth's largest sample holds every stored one, padding included. */
  lemma StoredFits(m: PlaneModel, depth: Depth, variant: nat)
    requires ValidPlane(m, depth)
    ensures forall v | v in PlaneOf(m, depth, variant).samples :: v <= depth.MaxSample()
  {
    assert m.stride > 0;
    hide StoredAt, ValidPlane;
    var all := PlaneOf(m, depth, variant).samples;
    forall i | 0 <= i < |all| ensures all[i] <= depth.MaxSample() {
      StoredAtFits(m, depth, variant, i % m.stride, i / m.stride);
    }
  }

  // ---------- a frame model ----------

  datatype FrameModel = FrameModel(depth: Depth, format: Format, y: PlaneModel, u: Option<PlaneModel>,
                                   v: Option<PlaneModel>)

  /** A chroma plane's visible rectangle is the luma one, subsampled: the size rounded up, the origin down. */
  predicate IsChromaOf(c: Rect, luma: Rect, format: Format) {
    && c.x == Shift(luma.x, format.SubX()) && c.y == Shift(luma.y, format.SubY())
    && c.width == Shift(luma.width + format.SubX(), format.SubX())
    && c.height == Shift(luma.height + format.SubY(), format.SubY())
  }

  predicate ValidChroma(p: Option<PlaneModel>, f: FrameModel) {
    if f.format.Monochrome? then p.None?
    else p.Some? && ValidPlane(p.value, f.depth) && IsChromaOf(p.value.visible, f.y.visible, f.format)
  }

  predicate ValidFrame(f: FrameModel) { ValidPlane(f.y, f.depth) && ValidChroma(f.u, f) && ValidChroma(f.v, f) }

  function PlaneSamples(p: Option<PlaneModel>): seq<nat> { if p.None? then [] else p.value.samples }

  /** The visible samples of all planes in order. */
  function VisibleSamples(f: FrameModel): seq<nat> { f.y.samples + PlaneSamples(f.u) + PlaneSamples(f.v) }

  function CropOrigin(format: Format, enabled: bool, seed: Byte, sub: nat): nat {
    if !enabled then 0 else if format.Monochrome? || sub == 0 then 1 + seed % 2 else 2
  }

  method NewPlane(reader: SampleReader, storageWidth: nat, storageHeight: nat, visible: Rect, stridePad: nat, seed: nat)
    returns (m: PlaneModel)
    requires visible.width > 0 && visible.height > 0 && IsWithin(visible, storageWidth, storageHeight)
    modifies reader
    ensures ValidPlane(m, reader.depth) && m.visible == visible
    ensures m.storageWidth == storageWidth && m.storageHeight == storageHeight && m.stride == storageWidth + stridePad
    ensures m.samples == SamplesIn(reader.depth, old(reader.bytes), visible.width * visible.height)
    ensures reader.bytes == Rest(old(reader.bytes), visible.width * visible.height * reader.depth.SampleSize())
  {
    assert visible.width * visible.height >= 0;
    var samples := reader.Take(visible.width * visible.height);
    m := PlaneModel(storageWidth, storageHeight, visible, storageWidth + stridePad, samples, seed);
  }

  lemma SamplesJoin(depth: Depth, bytes: seq<Byte>, a: nat, b: nat)
    ensures SamplesIn(depth, bytes, a) + SamplesIn(depth, Rest(bytes, a * depth.SampleSize()), b)
         == SamplesIn(depth, bytes, a + b)
    ensures Rest(Rest(bytes, a * depth.SampleSize()), b * depth.SampleSize())
        == Rest(bytes, (a + b) * depth.SampleSize())
  {
    hide Rest, SampleIn;
    var first, rest := SamplesIn(depth, bytes, a), SamplesIn(depth, Rest(bytes, a * depth.SampleSize()), b);
    forall i | 0 <= i < a + b ensures (first + rest)[i] == SampleIn(depth, bytes, i) {
      if i >= a { RestSamples(depth, bytes, a, i - a); }
    }
    assert first + rest == SamplesIn(depth, bytes, a + b);
    RestOfRest(bytes, a * depth.SampleSize(), b * depth.SampleSize());
    assert (a + b) * depth.SampleSize() == a * depth.SampleSize() + b * depth.SampleSize();
  }

  lemma CropFits(format: Format, enabled: bool, seed: Byte)
    ensures var x := CropOrigin(format, enabled, seed, format.SubX());
      var y := CropOrigin(format, enabled, seed, format.SubY());
      && x <= 2 && x % (1 + format.SubX()) == 0 && (x > 0 <==> enabled)
      && y <= 2 && y % (1 + format.SubY()) == 0 && (y > 0 <==> enabled)
  {}

  /** Every fuzz input describes a frame whose planes fit each other; its samples are the input's, in order. */
  method NewFrame(data: seq<Byte>) returns (f: FrameModel)
    ensures ValidFrame(f)
    ensures f.y.visible.width == 1 + ByteAt(data, 1) % 16 && f.y.visible.height == 1 + ByteAt(data, 2) % 16
    ensures f.y.visible.x <= 2 && f.y.visible.x % (1 + f.format.SubX()) == 0
    ensures f.y.visible.y <= 2 && f.y.visible.y % (1 + f.format.SubY()) == 0
    ensures f.y.storageWidth <= f.y.stride <= f.y.storageWidth + 2
    ensures f.depth == (if ByteAt(data, 0) % 2 == 1 then Ten else Eight)
    ensures f.format == [Monochrome, Yuv420, Yuv422, Yuv444][ByteAt(data, 0) / 2 % 4]
    ensures f.y.visible.x > 0 <==> ByteAt(data, 0) / 16 % 2 == 1
    ensures f.y.visible.y > 0 <==> ByteAt(data, 0) / 16 % 2 == 1
    ensures VisibleSamples(f) == SamplesIn(f.depth, Rest(data, 8), |VisibleSamples(f)|)
  {
    hide ValidPlane, SamplesIn, Rest, CropOrigin;
    var flags := ByteAt(data, 0);
    var depth := if flags % 2 == 0 then Eight else Ten;
    var format :=
      match flags / 2 % 4
      case 0 => Monochrome
      case 1 => Yuv420
      case 2 => Yuv422
      case _ => Yuv444;
    var cropped := flags / 16 % 2 != 0;
    var xSeed, ySeed, storagePad := ByteAt(data, 4), ByteAt(data, 5), ByteAt(data, 6);
    var stridePad: nat := ByteAt(data, 7) % 3;
    var width: nat, height: nat := 1 + ByteAt(data, 1) % 16, 1 + ByteAt(data, 2) % 16;
    var x, y := CropOrigin(format, cropped, xSeed, format.SubX()), CropOrigin(format, cropped, ySeed, format.SubY());
    CropFits(format, cropped, xSeed);
    CropFits(format, cropped, ySeed);
    var visible := Rect(x, y, width, height);
    var reader := new SampleReader(Rest(data, 8), depth);
    var luma :=
      NewPlane(reader, x + width + storagePad / 16 % 3, y + height + storagePad % 3, visible, stridePad, xSeed);
    if format.Monochrome? { return FrameModel(depth, format, luma, None, None); }
    var u, v := NewChroma(reader, format, visible, stridePad, xSeed, ySeed, storagePad);
    f := FrameModel(depth, format, luma, Some(u), Some(v));
    SamplesJoin(depth, Rest(data, 8), |luma.samples|, |u.samples + v.samples|);
    assert VisibleSamples(f) == luma.samples + (u.samples + v.samples);
  }

  method NewChroma(reader: SampleReader, format: Format, luma: Rect, stridePad: nat, xSeed: Byte, ySeed: Byte,
                   vSeed: Byte)
    returns (u: PlaneModel, v: PlaneModel)
    requires luma.width > 0 && luma.height > 0
    modifies reader
    ensures ValidPlane(u, reader.depth) && ValidPlane(v, reader.depth)
    ensures IsChromaOf(u.visible, luma, format) && IsChromaOf(v.visible, luma, format)
    ensures u.samples + v.samples == SamplesIn(reader.depth, old(reader.bytes), |u.samples + v.samples|)
  {
    var subX, subY := format.SubX(), format.SubY();
    var chroma := Rect(Shift(luma.x, subX), Shift(luma.y, subY), Shift(luma.width + subX, subX),
                       Shift(luma.height + subY, subY));
    hide ValidPlane, SamplesIn, Rest;
    var width, height := chroma.x + chroma.width + xSeed / 16 % 3, chroma.y + chroma.height + ySeed / 16 % 3;
    ghost var count: nat := chroma.width * chroma.height;
    SamplesJoin(reader.depth, reader.bytes, count, count);
    u := NewPlane(reader, width, height, chroma, stridePad, ySeed);
    v := NewPlane(reader, width, height, chroma, stridePad, vSeed);
  }

  // ---------- bytes of samples ----------

  function SampleBytes(depth: Depth, v: nat): seq<Byte> {
    if depth.Eight? then [v % 256] else [v % 256, v / 256 % 256]
  }

  function BytesOf(depth: Depth, samples: seq<nat>): seq<Byte> {
    if samples == [] then [] else SampleBytes(depth, samples[0]) + BytesOf(depth, samples[1..])
  }

  lemma {:induction false} BytesLength(depth: Depth, samples: seq<nat>)
    ensures |BytesOf(depth, samples)| == |samples| * depth.SampleSize()
  {
    if samples != [] { BytesLength(depth, samples[1..]); }
  }

  lemma {:induction false} BytesJoin(depth: Depth, a: seq<nat>, b: seq<nat>)
    ensures BytesOf(depth, a + b) == BytesOf(depth, a) + BytesOf(depth, b)
  {
    hide SampleBytes;
    if a == [] {
      assert a + b == b;
    } else {
      BytesJoin(depth, a[1..], b);
      assert (a + b)[1..] == a[1..] + b && (a + b)[0] == a[0];
    }
  }

  lemma BytesOfMiddle(depth: Depth, a: seq<nat>, b: seq<nat>, c: seq<nat>)
    ensures var whole, from := BytesOf(depth, a + (b + c)), |BytesOf(depth, a)|;
      var to := from + |BytesOf(depth, b)|;
      to <= |whole| && whole[from..to] == BytesOf(depth, b)
  {
    hide BytesOf;
    BytesJoin(depth, a, b + c);
    BytesJoin(depth, b, c);
  }

  /** The bytes of a stretch of samples are the stretch of bytes. */
  lemma BytesOfSlice(depth: Depth, s: seq<nat>, from: nat, to: nat)
    requires from <= to <= |s|
    ensures from * depth.SampleSize() <= to * depth.SampleSize() <= |BytesOf(depth, s)|
    ensures BytesOf(depth, s)[from * depth.SampleSize()..to * depth.SampleSize()] == BytesOf(depth, s[from..to])
  {
    hide BytesOf;
    assert s == s[..from] + (s[from..to] + s[to..]);
    BytesOfMiddle(depth, s[..from], s[from..to], s[to..]);
    BytesLength(depth, s[..from]);
    BytesLength(depth, s[from..to]);
    assert to * depth.SampleSize() == from * depth.SampleSize() + (to - from) * depth.SampleSize();
  }

  method PushVisibleBytes(depth: Depth, p: PlaneModel, before: seq<Byte>) returns (bytes: seq<Byte>)
    ensures bytes == before + BytesOf(depth, p.samples)
  {
    hide SampleBytes;
    bytes := before;
    assert BytesOf(depth, []) == [];
    for i := 0 to |p.samples|
      invariant bytes == before + BytesOf(depth, p.samples[..i])
    {
      assert p.samples[..i + 1] == p.samples[..i] + [p.samples[i]];
      BytesJoin(depth, p.samples[..i], [p.samples[i]]);
      bytes := bytes + SampleBytes(depth, p.samples[i]);
    }
    assert p.samples[..|p.samples|] == p.samples;
  }

  method ManualVisibleBytes(f: FrameModel) returns (bytes: seq<Byte>)
    ensures bytes == BytesOf(f.depth, VisibleSamples(f))
  {
    assert BytesOf(f.depth, []) == [];
    hide BytesOf;
    bytes := PushVisibleBytes(f.depth, f.y, []);
    if f.u.Some? { bytes := PushVisibleBytes(f.depth, f.u.value, bytes); }
    assert bytes == BytesOf(f.depth, f.y.samples) + BytesOf(f.depth, PlaneSamples(f.u));
    BytesJoin(f.depth, f.y.samples, PlaneSamples(f.u));
    ghost var two := bytes;
    if f.v.Some? { bytes := PushVisibleBytes(f.depth, f.v.value, bytes); }
    assert bytes == two + BytesOf(f.depth, PlaneSamples(f.v));
    BytesJoin(f.depth, f.y.samples + PlaneSamples(f.u), PlaneSamples(f.v));
  }

  // ---------- the picture and its writer ----------

  /** A picture as C sees it: per plane the stored bytes and the bytes from row to row. */
  datatype Picture = Picture(data: seq<Option<seq<Byte>>>, stride: seq<nat>, width: nat, height: nat,
                             cropLeft: nat, cropTop: nat, bitDepth: nat, layout: Format)

  function PlaneBytes(m: Option<PlaneModel>, depth: Depth, variant: nat): Option<seq<Byte>>
    requires m.Some? ==> ValidPlane(m.value, depth)
  {
    if m.None? then None else Some(BytesOf(depth, PlaneOf(m.value, depth, variant).samples))
  }

  function StrideBytes(m: Option<PlaneModel>, depth: Depth): nat {
    if m.None? then 0 else m.value.stride * depth.SampleSize()
  }

  /** The picture of a frame built from a model, each sample in the type of its depth. */
  function PictureOf(f: FrameModel, variant: nat): Picture
    requires ValidFrame(f)
  {
    Picture([PlaneBytes(Some(f.y), f.depth, variant), PlaneBytes(f.u, f.depth, variant),
             PlaneBytes(f.v, f.depth, variant)],
            [StrideBytes(Some(f.y), f.depth), StrideBytes(f.u, f.depth), StrideBytes(f.v, f.depth)],
            f.y.visible.width, f.y.visible.height, f.y.visible.x, f.y.visible.y,
            if f.depth.Eight? then 8 else 10, f.format)
  }

  /** Rows of `length` bytes, one every `stride` bytes from an offset, all inside the memory. */
  predicate RowsInside(memory: seq<Byte>, row: nat, stride: nat, length: nat, height: nat) {
    forall y | 0 <= y < height :: row + y * stride + length <= |memory|
  }

  function Rows(memory: seq<Byte>, row: nat, stride: nat, length: nat, height: nat): seq<Byte>
    requires RowsInside(memory, row, stride, length, height)
  {
    if height == 0 then []
    else
      Rows(memory, row, stride, length, height - 1)
      + memory[row + (height - 1) * stride..row + (height - 1) * stride + length]
  }

  lemma NoRows(memory: seq<Byte>, row: nat, stride: nat, length: nat)
    ensures RowsInside(memory, row, stride, length, 0) && Rows(memory, row, stride, length, 0) == []
  {}

  lemma RowsNext(memory: seq<Byte>, row: nat, stride: nat, length: nat, y: nat, at: nat)
    requires RowsInside(memory, row, stride, length, y) && at == row + y * stride && at + length <= |memory|
    ensures RowsInside(memory, row, stride, length, y + 1)
    ensures Rows(memory, row, stride, length, y + 1)
         == Rows(memory, row, stride, length, y) + memory[at..at + length]
  {}

  lemma RowFits(memory: seq<Byte>, first: nat, stride: nat, length: nat, height: nat, y: nat, row: nat)
    requires RowsInside(memory, first, stride, length, height) && y < height && row == first + y * stride
    ensures row + length <= |memory| && row + stride == first + (y + 1) * stride
  {
    assert first + y * stride + length <= |memory|;
    assert (y + 1) * stride == y * stride + stride;
  }

  lemma EmptyBytes(depth: Depth, samples: seq<nat>)
    requires samples == []
    ensures BytesOf(depth, samples) == []
  {}

  method WriteRows(out: seq<Byte>, memory: seq<Byte>, first: nat, stride: nat, length: nat, height: nat)
    returns (written: seq<Byte>)
    requires RowsInside(memory, first, stride, length, height)
    ensures written == out + Rows(memory, first, stride, length, height)
  {
    hide RowsInside, Rows;
    NoRows(memory, first, stride, length);
    written := out;
    var row := first;
    for y := 0 to height
      invariant row == first + y * stride
      invariant RowsInside(memory, first, stride, length, y)
      invariant written == out + Rows(memory, first, stride, length, y)
    {
      RowFits(memory, first, stride, length, height, y, row);
      RowsNext(memory, first, stride, length, y, row);
      written := written + memory[row..row + length];
      row := row + stride;
    }
  }

  function PlaneSubX(p: Picture, k: nat): nat { if k == 0 then 0 else p.layout.SubX() }

  function PlaneSubY(p: Picture, k: nat): nat { if k == 0 then 0 else p.layout.SubY() }

  function BytesPerSample(p: Picture): nat { if p.bitDepth > 8 then 2 else 1 }

  function FirstRow(p: Picture, k: nat): nat
    requires k < |p.stride|
  {
    Shift(p.cropTop, PlaneSubY(p, k)) * p.stride[k] + Shift(p.cropLeft, PlaneSubX(p, k)) * BytesPerSample(p)
  }

  function RowLength(p: Picture, k: nat): nat {
    Shift(p.width + PlaneSubX(p, k), PlaneSubX(p, k)) * BytesPerSample(p)
  }

  function RowCount(p: Picture, k: nat): nat { Shift(p.height + PlaneSubY(p, k), PlaneSubY(p, k)) }

  /** The walk over plane k stays in its memory. */
  predicate PlaneInside(p: Picture, k: nat)
    requires k < |p.data| == |p.stride|
  {
    p.data[k].Some? ==> RowsInside(p.data[k].value, FirstRow(p, k), p.stride[k], RowLength(p, k), RowCount(p, k))
  }

  predicate ValidPicture(p: Picture) { |p.data| == |p.stride| == 3 && forall k | 0 <= k < 3 :: PlaneInside(p, k) }

  function PlaneWritten(p: Picture, k: nat): seq<Byte>
    requires k < |p.data| == |p.stride| && PlaneInside(p, k)
  {
    if p.data[k].None? then []
    else Rows(p.data[k].value, FirstRow(p, k), p.stride[k], RowLength(p, k), RowCount(p, k))
  }

  method WritePicture(out: seq<Byte>, p: Picture) returns (written: seq<Byte>)
    requires ValidPicture(p)
    ensures written == out + PlaneWritten(p, 0) + PlaneWritten(p, 1) + PlaneWritten(p, 2)
  {
    hide Rows, RowsInside;
    written := out;
    for plane := 0 to 3
      invariant plane == 0 ==> written == out
      invariant plane == 1 ==> written == out + PlaneWritten(p, 0)
      invariant plane == 2 ==> written == out + PlaneWritten(p, 0) + PlaneWritten(p, 1)
      invariant plane == 3 ==> written == out + PlaneWritten(p, 0) + PlaneWritten(p, 1) + PlaneWritten(p, 2)
    {
      assert PlaneInside(p, plane);
      if p.data[plane].Some? {
        var subX, subY := if plane == 0 then 0 else p.layout.SubX(), if plane == 0 then 0 else p.layout.SubY();
        var width, height := Shift(p.width + subX, subX), Shift(p.height + subY, subY);
        var bytes := if p.bitDepth > 8 then 2 else 1;
        var row := Shift(p.cropTop, subY) * p.stride[plane] + Shift(p.cropLeft, subX) * bytes;
        written := WriteRows(written, p.data[plane].value, row, p.stride[plane], width * bytes, height);
      }
    }
  }

  // ---------- the visible bytes come out ----------

  lemma VisibleStored(m: PlaneModel, depth: Depth, variant: nat, x: nat, y: nat, at: nat, i: nat)
    requires ValidPlane(m, depth) && x < m.visible.width && y < m.visible.height
    requires at == (m.visible.y + y) * m.stride + (m.visible.x + x) && i == y * m.visible.width + x
    ensures at < |PlaneOf(m, depth, variant).samples| && i < |m.samples|
    ensures PlaneOf(m, depth, variant).samples[at] == m.samples[i]
  {
    var r := m.visible;
    RowInside(r.width, r.height, x, y);
    RowInside(m.stride, m.storageHeight, r.x + x, r.y + y);
    QuotientAndRemainder(at, m.stride, r.y + y, r.x + x);
    assert Inside(r, r.x + x, r.y + y);
  }

  /** One visible row of the storage, in samples. */
  lemma VisibleRow(m: PlaneModel, depth: Depth, variant: nat, y: nat, from: nat, at: nat)
    requires ValidPlane(m, depth) && y < m.visible.height
    requires from == (m.visible.y + y) * m.stride + m.visible.x && at == y * m.visible.width
    ensures var all := PlaneOf(m, depth, variant).samples;
      && at + m.visible.width <= |m.samples| && from + m.visible.width <= |all|
      && all[from..from + m.visible.width] == m.samples[at..at + m.visible.width]
  {
    hide PlaneOf;
    var all, width := PlaneOf(m, depth, variant).samples, m.visible.width;
    VisibleStored(m, depth, variant, width - 1, y, from + (width - 1), at + (width - 1));
    var stored, visible := all[from..from + width], m.samples[at..at + width];
    forall k | 0 <= k < |stored| ensures stored[k] == visible[k] {
      VisibleStored(m, depth, variant, k, y, from + k, at + k);
    }
  }

  lemma RowStart(first: nat, y: nat, stride: nat, x: nat, b: nat, strideBytes: nat, start: nat, from: nat)
    requires strideBytes == stride * b && start == first * strideBytes + x * b && from == (first + y) * stride + x
    ensures from * b == start + y * strideBytes
  {}

  lemma OneFewer(y: nat, width: nat, at: nat)
    requires y > 0 && at == y * width
    ensures at >= width && at - width == (y - 1) * width
  {}

  /** The first rows of the visible rectangle, walked in memory, give the bytes of the first samples. */
  ghost predicate RowsGive(memory: seq<Byte>, start: nat, stride: nat, length: nat, y: nat, bytes: seq<Byte>) {
    RowsInside(memory, start, stride, length, y) && Rows(memory, start, stride, length, y) == bytes
  }

  lemma RowsGiveNext(memory: seq<Byte>, start: nat, stride: nat, length: nat, y: nat, bytes: seq<Byte>, row: nat)
    requires RowsGive(memory, start, stride, length, y, bytes)
    requires row == start + y * stride && row + length <= |memory|
    ensures RowsGive(memory, start, stride, length, y + 1, bytes + memory[row..row + length])
  {
    hide RowsInside, Rows;
    RowsNext(memory, start, stride, length, y, row);
  }

  /** Walking the stored bytes of a plane by crop and stride gives the bytes of its visible samples. */
  lemma {:induction false} VisibleRows(m: PlaneModel, depth: Depth, variant: nat, b: nat, y: nat, at: nat,
                                       start: nat, stride: nat, length: nat)
    requires ValidPlane(m, depth) && b == depth.SampleSize() && y <= m.visible.height && at == y * m.visible.width
    requires stride == m.stride * b && length == m.visible.width * b
    requires start == m.visible.y * stride + m.visible.x * b
    ensures at <= |m.samples|
    ensures RowsGive(BytesOf(depth, PlaneOf(m, depth, variant).samples), start, stride, length, y,
                     BytesOf(depth, m.samples[..at]))
  {
    hide ValidPlane, PlaneOf, BytesOf, RowsInside, Rows;
    var memory := BytesOf(depth, PlaneOf(m, depth, variant).samples);
    if y == 0 {
      NoRows(memory, start, stride, length);
      EmptyBytes(depth, m.samples[..0]);
    } else {
      hide RowsGive;
      OneFewer(y, m.visible.width, at);
      var before, from := at - m.visible.width, (m.visible.y + (y - 1)) * m.stride + m.visible.x;
      VisibleRows(m, depth, variant, b, y - 1, before, start, stride, length);
      NextVisibleRow(m, depth, variant, b, y - 1, before, start, stride, length, from);
    }
  }

  lemma NextVisibleRow(m: PlaneModel, depth: Depth, variant: nat, b: nat, y: nat, at: nat,
                       start: nat, stride: nat, length: nat, from: nat)
    requires ValidPlane(m, depth) && b == depth.SampleSize() && y < m.visible.height && at == y * m.visible.width
    requires stride == m.stride * b && length == m.visible.width * b
    requires start == m.visible.y * stride + m.visible.x * b
    requires from == (m.visible.y + y) * m.stride + m.visible.x && at <= |m.samples|
    requires RowsGive(BytesOf(depth, PlaneOf(m, depth, variant).samples), start, stride, length, y,
                      BytesOf(depth, m.samples[..at]))
    ensures at + m.visible.width <= |m.samples|
    ensures RowsGive(BytesOf(depth, PlaneOf(m, depth, variant).samples), start, stride, length, y + 1,
                     BytesOf(depth, m.samples[..at + m.visible.width]))
  {
    hide ValidPlane, PlaneOf, BytesOf, RowsGive;
    var row := start + y * stride;
    RowStart(m.visible.y, y, m.stride, m.visible.x, b, stride, start, from);
    VisibleRow(m, depth, variant, y, from, at);
    RowBytes(m, depth, variant, from, at, row, length);
    RowsGiveNext(BytesOf(depth, PlaneOf(m, depth, variant).samples), start, stride, length, y,
                 BytesOf(depth, m.samples[..at]), row);
  }

  lemma RowBytes(m: PlaneModel, depth: Depth, variant: nat, from: nat, at: nat, start: nat, length: nat)
    requires ValidPlane(m, depth)
    requires at + m.visible.width <= |m.samples| && from + m.visible.width <= |PlaneOf(m, depth, variant).samples|
    requires PlaneOf(m, depth, variant).samples[from..from + m.visible.width] == m.samples[at..at + m.visible.width]
    requires start == from * depth.SampleSize() && length == m.visible.width * depth.SampleSize()
    ensures var memory := BytesOf(depth, PlaneOf(m, depth, variant).samples);
      && start + length <= |memory|
      && BytesOf(depth, m.samples[..at + m.visible.width])
         == BytesOf(depth, m.samples[..at]) + memory[start..start + length]
  {
    hide ValidPlane, PlaneOf, BytesOf;
    var width, b := m.visible.width, depth.SampleSize();
    BytesOfSlice(depth, PlaneOf(m, depth, variant).samples, from, from + width);
    assert (from + width) * b == start + length;
    assert m.samples[..at + width] == m.samples[..at] + m.samples[at..at + width];
    BytesJoin(depth, m.samples[..at], m.samples[at..at + width]);
  }

  /** What a picture holds for one plane, and how the walk goes over it. */
  lemma PicturePart(f: FrameModel, variant: nat, k: nat, m: Option<PlaneModel>)
    requires ValidFrame(f) && k < 3 && m == [Some(f.y), f.u, f.v][k]
    ensures var p := PictureOf(f, variant);
      && |p.data| == |p.stride| == 3 && m.Some? == p.data[k].Some?
      && (m.Some? ==>
            var plane, b := m.value, f.depth.SampleSize();
            && ValidPlane(plane, f.depth) && |plane.samples| == plane.visible.height * plane.visible.width
            && p.data[k] == Some(BytesOf(f.depth, PlaneOf(plane, f.depth, variant).samples))
            && p.stride[k] == plane.stride * b && RowLength(p, k) == plane.visible.width * b
            && FirstRow(p, k) == plane.visible.y * p.stride[k] + plane.visible.x * b
            && RowCount(p, k) == plane.visible.height)
  {
    hide BytesOf, PlaneOf;
  }

  lemma PlaneComesOut(f: FrameModel, variant: nat, k: nat, m: Option<PlaneModel>)
    requires ValidFrame(f) && k < 3 && m == [Some(f.y), f.u, f.v][k]
    ensures PlaneInside(PictureOf(f, variant), k)
    ensures PlaneWritten(PictureOf(f, variant), k) == BytesOf(f.depth, PlaneSamples(m))
  {
    hide BytesOf, RowsInside, Rows, PlaneOf, PictureOf, FirstRow, RowLength, RowCount;
    EmptyBytes(f.depth, []);
    PicturePart(f, variant, k, m);
    if m.Some? {
      var plane, p := m.value, PictureOf(f, variant);
      var all := plane.visible.height * plane.visible.width;
      assert plane.samples[..all] == plane.samples;
      VisibleRows(plane, f.depth, variant, f.depth.SampleSize(), plane.visible.height, all, FirstRow(p, k),
                  p.stride[k], RowLength(p, k));
    }
  }

  /**
   Whatever the padding variant, the C writer stays inside the picture of a frame and writes exactly
   the visible bytes the frame model expects.
   */
  lemma WriterGivesVisibleBytes(f: FrameModel, variant: nat)
    requires ValidFrame(f)
    ensures ValidPicture(PictureOf(f, variant))
    ensures var p := PictureOf(f, variant);
      PlaneWritten(p, 0) + PlaneWritten(p, 1) + PlaneWritten(p, 2) == BytesOf(f.depth, VisibleSamples(f))
  {
    hide BytesOf, PlaneOf, PlaneInside, PlaneWritten, ValidPlane;
    PlaneComesOut(f, variant, 0, Some(f.y));
    PlaneComesOut(f, variant, 1, f.u);
    PlaneComesOut(f, variant, 2, f.v);
    BytesJoin(f.depth, f.y.samples, PlaneSamples(f.u));
    BytesJoin(f.depth, f.y.samples + PlaneSamples(f.u), PlaneSamples(f.v));
  }
}
