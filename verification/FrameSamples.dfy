/**
 What the frame model's samples are made of (fuzz/fuzz_targets/recon_frame_hash_bytes.rs): how bytes give
 samples and samples bytes, how padding differs between variants, and how chroma covers luma.
 */
module FrameSamples {
  import opened Wrappers
  import opened Rasters
  import opened FrameBytes

  // ---------- samples and bytes ----------

  /** The value of bytes, the low one first. */
  function Value(bytes: seq<Byte>): nat {
    if bytes == [] then 0 else bytes[0] + 256 * Value(bytes[1..])
  }

  /** A sample's bytes are its value, the low byte first. */
  lemma BytesAreValue(depth: Depth, v: nat)
    requires v <= depth.MaxSample()
    ensures |SampleBytes(depth, v)| == depth.SampleSize() && Value(SampleBytes(depth, v)) == v
  {
    var bytes := SampleBytes(depth, v);
    assert Value(bytes[|bytes|..]) == 0;
    if depth.Ten? { assert bytes[1..][1..] == [] && Value(bytes[1..]) == bytes[1]; }
  }

  /** A ten-bit sample is its first byte with two bits of the second behind it; every sample has an input. */
  lemma SampleIsRead(high: Byte, low: Byte, v: nat)
    ensures SampleIn(Eight, [high], 0) == high && SampleIn(Ten, [high, low], 0) == 4 * high + low % 4
    ensures v <= Eight.MaxSample() ==> SampleIn(Eight, [v], 0) == v
    ensures v <= Ten.MaxSample() ==> SampleIn(Ten, [v / 4, v % 4], 0) == v
    ensures SampleIn(Eight, [], 0) == SampleIn(Ten, [], 0) == 0
  {}

  // ---------- padding ----------

  /** Padding moves by a step of its own in the range of the samples, and so never stays. */
  predicate MovesBy(depth: Depth, before: nat, after: nat, step: nat) {
    after == (before + step) % (depth.MaxSample() + 1) != before
  }

  lemma PaddingOf(depth: Depth, seed: nat, variant: nat, x: nat, y: nat, w: nat)
    requires w == seed + variant * 37 + x * 13 + y * 17
    ensures PaddingSample(depth, seed, variant, x, y) == w % 0x1_0000 % (depth.MaxSample() + 1)
  {}

  lemma PaddingStep(depth: Depth, w: nat, step: nat)
    requires 0 < step < 256
    ensures var n := depth.MaxSample() + 1;
      MovesBy(depth, w % 0x1_0000 % n, (w + step) % 0x1_0000 % n, step)
  {
    PaddingIs(depth, w, step);
  }

  /** From one variant to the next padding differs everywhere. */
  lemma PaddingMovesByVariant(depth: Depth, seed: nat, variant: nat, x: nat, y: nat)
    ensures MovesBy(depth, PaddingSample(depth, seed, variant, x, y), PaddingSample(depth, seed, variant + 1, x, y), 37)
  {
    hide MovesBy, PaddingSample;
    var w := seed + variant * 37 + x * 13 + y * 17;
    PaddingOf(depth, seed, variant, x, y, w);
    PaddingOf(depth, seed, variant + 1, x, y, w + 37);
    PaddingStep(depth, w, 37);
  }

  /** Neighbours in a row, and in a column, differ. */
  lemma PaddingMovesByColumn(depth: Depth, seed: nat, variant: nat, x: nat, y: nat)
    ensures MovesBy(depth, PaddingSample(depth, seed, variant, x, y), PaddingSample(depth, seed, variant, x + 1, y), 13)
  {
    hide MovesBy, PaddingSample;
    var w := seed + variant * 37 + x * 13 + y * 17;
    PaddingOf(depth, seed, variant, x, y, w);
    PaddingOf(depth, seed, variant, x + 1, y, w + 13);
    PaddingStep(depth, w, 13);
  }

  lemma PaddingMovesByRow(depth: Depth, seed: nat, variant: nat, x: nat, y: nat)
    ensures MovesBy(depth, PaddingSample(depth, seed, variant, x, y), PaddingSample(depth, seed, variant, x, y + 1), 17)
  {
    hide MovesBy, PaddingSample;
    var w := seed + variant * 37 + x * 13 + y * 17;
    PaddingOf(depth, seed, variant, x, y, w);
    PaddingOf(depth, seed, variant, x, y + 1, w + 17);
    PaddingStep(depth, w, 17);
  }

  lemma PaddingMovesBySeed(depth: Depth, seed: nat, variant: nat, x: nat, y: nat)
    ensures MovesBy(depth, PaddingSample(depth, seed, variant, x, y), PaddingSample(depth, seed + 1, variant, x, y), 1)
  {
    hide MovesBy, PaddingSample;
    var w := seed + variant * 37 + x * 13 + y * 17;
    PaddingOf(depth, seed, variant, x, y, w);
    PaddingOf(depth, seed + 1, variant, x, y, w + 1);
    PaddingStep(depth, w, 1);
  }

  lemma PaddingStarts(depth: Depth)
    ensures PaddingSample(depth, 0, 0, 0, 0) == 0
  {}

  lemma PaddingIs(depth: Depth, w: nat, step: nat)
    requires 0 < step < 256
    ensures var n := depth.MaxSample() + 1; var v := w % 0x1_0000 % n;
      (w + step) % 0x1_0000 % n == (v + step) % n != v
  {
    if depth.Eight? {
      ByteRemainder(w);
      ByteRemainder(w + step);
      ByteStep(w, step);
    } else {
      TenBitRemainder(w);
      TenBitRemainder(w + step);
      TenBitStep(w, step);
    }
  }

  lemma ByteRemainder(w: nat)
    ensures w % 0x1_0000 % 256 == w % 256
  {
    var q, r := w / 0x1_0000, w % 0x1_0000;
    QuotientAndRemainder(w, 256, 256 * q + r / 256, r % 256);
  }

  lemma TenBitRemainder(w: nat)
    ensures w % 0x1_0000 % 1024 == w % 1024
  {
    var q, r := w / 0x1_0000, w % 0x1_0000;
    QuotientAndRemainder(w, 1024, 64 * q + r / 1024, r % 1024);
  }

  lemma ByteStep(w: nat, step: nat)
    requires 0 < step < 256
    ensures (w + step) % 256 == (w % 256 + step) % 256 != w % 256
  {
    assert w + step == 256 * (w / 256) + (w % 256 + step);
  }

  lemma TenBitStep(w: nat, step: nat)
    requires 0 < step < 256
    ensures (w + step) % 1024 == (w % 1024 + step) % 1024 != w % 1024
  {
    assert w + step == 1024 * (w / 1024) + (w % 1024 + step);
  }

  // ---------- chroma ----------

  /** How many luma columns and rows one chroma sample stands for. */
  function Columns(f: Format): nat { match f case Monochrome => 1 case Yuv420 => 2 case Yuv422 => 2 case Yuv444 => 1 }
  function RowsFor(f: Format): nat { match f case Monochrome => 1 case Yuv420 => 2 case Yuv422 => 1 case Yuv444 => 1 }

  /** The chroma rectangle is the smallest that covers the luma one, and begins at the luma's first sample. */
  lemma ChromaCovers(c: Rect, luma: Rect, format: Format)
    requires IsChromaOf(c, luma, format)
    ensures Columns(format) * (c.width - 1) < luma.width <= Columns(format) * c.width || luma.width == c.width == 0
    ensures RowsFor(format) * (c.height - 1) < luma.height <= RowsFor(format) * c.height || luma.height == c.height == 0
    ensures Columns(format) * c.x <= luma.x < Columns(format) * (c.x + 1)
    ensures RowsFor(format) * c.y <= luma.y < RowsFor(format) * (c.y + 1)
  {}
}
