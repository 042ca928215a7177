/** The samples of PNG pixels (models/image_decode.c, `sample` and `sample16`): 1, 2, 4, 8 or 16 bits
    each, the most significant bit first, packed without gaps in a scanline (section 2.3 of
    RFC 2083). */
module PngSamples {
  import opened BitStreams
  import opened Interlacing
  import opened JpegBits

  predicate DepthValid(depth: nat) { depth == 1 || depth == 2 || depth == 4 || depth == 8 || depth == 16 }

  /** Where in a line sample `index` begins, in bits. */
  function Place(index: nat, depth: nat): nat { index * depth }

  // ----- the decoder

  /** `sample`, of sample `index` of a line; of 16 bits it takes the upper eight. */
  function Sample(line: seq<Byte>, index: nat, depth: nat): nat
    requires DepthValid(depth) && Place(index, depth) + depth <= 8 * |line|
  {
    if depth == 8 then line[index]
    else if depth == 16 then line[2 * index]
    else
      WithinByte(index, depth);
      var bit := Place(index, depth);
      Mask(Shr(line[bit / 8], 8 - depth - bit % 8), depth)
  }

  /** `sample16`. */
  function Sample16(line: seq<Byte>, index: nat): nat
    requires 2 * (index + 1) <= |line|
  {
    256 * (line[2 * index] as nat) + line[2 * index + 1]
  }

  /** A whole sample. */
  function SampleOf(line: seq<Byte>, index: nat, depth: nat): nat
    requires DepthValid(depth) && Place(index, depth) + depth <= 8 * |line|
  {
    if depth == 16 then Sample16(line, index) else Sample(line, index, depth)
  }

  // ----- samples are bits of the line

  lemma {:induction false} LowBits(v: nat, n: nat)
    ensures MsbValue(High(v, n)) == Mask(v, n)
  {
    if n > 0 {
      LowBits(v / 2, n - 1);
      var h := High(v, n);
      assert h[..n - 1] == High(v / 2, n - 1);
    }
  }

  lemma {:induction false} UpperBits(v: nat, n: nat, m: nat)
    requires m <= n
    ensures High(v, n)[..m] == High(Shr(v, n - m), m)
  {
    if m < n {
      UpperBits(v / 2, n - 1, m);
      assert High(v, n)[..m] == High(v / 2, n - 1)[..m];
    }
  }

  lemma {:induction false} LowerBits(v: nat, n: nat, m: nat)
    requires m <= n
    ensures High(v, n)[n - m..] == High(v, m)
  {
    if m > 0 {
      LowerBits(v / 2, n - 1, m - 1);
      assert High(v, n)[n - m..] == High(v / 2, n - 1)[n - m..] + [v % 2 == 1];
    }
  }

  /** The `depth` bits of a byte from bit `r` on. */
  lemma BitsOfByte(b: Byte, r: nat, depth: nat)
    requires r + depth <= 8
    ensures MsbValue(High(b, 8)[r..r + depth]) == Mask(Shr(b, 8 - depth - r), depth)
  {
    hide High, Mask, Shr, MsbValue;
    UpperBits(b, 8, r + depth);
    var v := Shr(b, 8 - (r + depth));
    assert High(b, 8)[r..r + depth] == High(b, 8)[..r + depth][r..];
    LowerBits(v, r + depth, depth);
    LowBits(v, depth);
  }

  lemma {:induction false} ByteAt(line: seq<Byte>, k: nat)
    requires k < |line|
    ensures |MsbBits(line)| == 8 * |line| && MsbBits(line)[8 * k..8 * k + 8] == High(line[k], 8)
  {
    hide High;
    if k > 0 {
      ByteAt(line[1..], k - 1);
      assert MsbBits(line) == High(line[0], 8) + MsbBits(line[1..]);
      assert MsbBits(line)[8 * k..8 * k + 8] == MsbBits(line[1..])[8 * (k - 1)..8 * (k - 1) + 8];
    } else {
      assert MsbBits(line) == High(line[0], 8) + MsbBits(line[1..]);
    }
  }

  lemma SliceOfByte(bits: BitSeq, k: nat, r: nat, depth: nat)
    requires r + depth <= 8 && 8 * k + 8 <= |bits|
    ensures bits[8 * k + r..8 * k + r + depth] == bits[8 * k..8 * k + 8][r..r + depth]
  {
    var slice := bits[8 * k..8 * k + 8];
    var left, right := bits[8 * k + r..8 * k + r + depth], slice[r..r + depth];
    forall i | 0 <= i < depth
      ensures left[i] == right[i]
    {
      assert right[i] == slice[r + i];
    }
  }

  /** A sample of up to eight bits lies within a byte. */
  lemma WithinByte(index: nat, depth: nat)
    requires depth == 1 || depth == 2 || depth == 4 || depth == 8
    ensures Place(index, depth) % 8 + depth <= 8
    ensures depth == 8 ==> Place(index, depth) == 8 * index
  {
    if depth == 1 {
      assert Place(index, 1) == index;
    } else if depth == 2 {
      assert Place(index, 2) == index * 2 && index * 2 % 2 == 0;
    } else if depth == 4 {
      assert Place(index, 4) == index * 4 && index * 4 % 4 == 0;
    } else {
      assert Place(index, 8) == index * 8 && index * 8 % 8 == 0;
    }
  }

  /** A sample is its bits in the line. */
  lemma SampleIs(line: seq<Byte>, index: nat, depth: nat)
    requires DepthValid(depth) && Place(index, depth) + depth <= 8 * |line|
    ensures SampleOf(line, index, depth)
         == MsbValue(MsbBits(line)[index * depth..index * depth + depth])
  {
    if depth == 16 {
      LongSampleIs(line, index);
    } else {
      ShortSampleIs(line, index, depth);
    }
  }

  lemma ShortSampleIs(line: seq<Byte>, index: nat, depth: nat)
    requires DepthValid(depth) && depth != 16 && Place(index, depth) + depth <= 8 * |line|
    ensures Sample(line, index, depth) == MsbValue(MsbBits(line)[Place(index, depth)..Place(index, depth) + depth])
  {
    hide High, MsbBits, Mask, Shr, MsbValue, Place;
    var bit := Place(index, depth);
    var k, r := bit / 8, bit % 8;
    WithinByte(index, depth);
    ByteAt(line, k);
    SliceOfByte(MsbBits(line), k, r, depth);
    BitsOfByte(line[k], r, depth);
    if depth == 8 {
      assert k == index && r == 0;
      WholeByte(line[k]);
    }
  }

  lemma LongSampleIs(line: seq<Byte>, index: nat)
    requires 2 * (index + 1) <= |line|
    ensures Sample16(line, index) == MsbValue(MsbBits(line)[16 * index..16 * index + 16])
  {
    hide High, MsbBits, MsbValue;
    var k := 2 * index;
    ByteAt(line, k);
    ByteAt(line, k + 1);
    var bits := MsbBits(line);
    assert bits[8 * k..8 * k + 16] == bits[8 * k..8 * k + 8] + bits[8 * (k + 1)..8 * (k + 1) + 8];
    TwoByteValue(line[k], line[k + 1]);
  }

  lemma WholeByte(b: Byte)
    ensures Mask(Shr(b, 0), 8) == b
  {
    assert Pow2(8) == 256;
    LowBits(b, 8);
    MsbValueOfHigh(b, 8);
  }

  lemma TwoByteValue(a: Byte, b: Byte)
    ensures MsbValue(High(a, 8) + High(b, 8)) == 256 * (a as nat) + b
  {
    assert Pow2(8) == 256;
    MsbValueOfHigh(a, 8);
    MsbValueOfHigh(b, 8);
    hide High, MsbValue;
    MsbValueConcat(High(a, 8), High(b, 8));
  }

  lemma {:induction false} MsbValueConcat(s: BitSeq, t: BitSeq)
    ensures MsbValue(s + t) == Pow2(|t|) * MsbValue(s) + MsbValue(t)
  {
    if t == [] {
      assert s + t == s;
    } else {
      var n := |t| - 1;
      MsbValueConcat(s, t[..n]);
      assert s + t == s + t[..n] + [t[n]];
      MsbValueAppend(s + t[..n], t[n]);
      Doubled(Pow2(n), MsbValue(s), MsbValue(t[..n]));
    }
  }

  lemma Doubled(p: nat, v: nat, w: nat)
    ensures 2 * (p * v + w) == 2 * p * v + 2 * w
  {
  }

  /** Of a sample of 16 bits, what is shown is its upper half. */
  lemma UpperHalfShown(line: seq<Byte>, index: nat)
    requires 2 * (index + 1) <= |line|
    ensures Sample(line, index, 16) == Sample16(line, index) / 256
  {
  }

  // ----- an encoder of lines

  /** Samples as bits, one after another. */
  ghost function SampleBits(samples: seq<nat>, depth: nat): BitSeq
  {
    if samples == [] then []
    else SampleBits(samples[..|samples| - 1], depth) + High(samples[|samples| - 1], depth)
  }

  /** The first eight of some bits, filled up with zeros. */
  function FirstEight(bits: BitSeq): (first: BitSeq)
    ensures |first| == 8
  {
    if |bits| < 8 then bits + seq(8 - |bits|, _ => false) else bits[..8]
  }

  function ByteOf(bits: BitSeq): Byte
    requires |bits| == 8
  {
    HighOfMsbValue(bits);
    assert Pow2(8) == 256;
    MsbValue(bits)
  }

  /** Bits as bytes, the last filled up with zeros. */
  function Packed(bits: BitSeq): (bytes: seq<Byte>)
    ensures |bytes| == (|bits| + 7) / 8
    decreases |bits|
  {
    if bits == [] then []
    else if |bits| < 8 then [ByteOf(FirstEight(bits))]
    else [ByteOf(FirstEight(bits))] + Packed(bits[8..])
  }

  lemma {:induction false} PackedBits(bits: BitSeq)
    ensures |bits| <= |MsbBits(Packed(bits))| && MsbBits(Packed(bits))[..|bits|] == bits
    decreases |bits|
  {
    hide High, MsbValue;
    if bits != [] {
      var bytes := Packed(bits);
      HighOfMsbValue(FirstEight(bits));
      assert MsbBits(bytes) == FirstEight(bits) + MsbBits(bytes[1..]);
      if |bits| >= 8 {
        PackedBits(bits[8..]);
        assert bytes[1..] == Packed(bits[8..]);
        assert bits == bits[..8] + bits[8..];
      }
    }
  }

  lemma {:induction false} SampleBitsAt(samples: seq<nat>, depth: nat, i: nat)
    requires i < |samples|
    ensures Place(i, depth) + depth <= |SampleBits(samples, depth)|
    ensures SampleBits(samples, depth)[Place(i, depth)..Place(i, depth) + depth] == High(samples[i], depth)
  {
    hide High, Place, SampleBits;
    var n := |samples| - 1;
    var front, last := SampleBits(samples[..n], depth), High(samples[n], depth);
    SampleBitsStep(samples, depth);
    if i < n {
      SampleBitsAt(samples[..n], depth, i);
      SliceOfFront(front, last, Place(i, depth), depth);
    } else {
      BitsLength(samples[..n], depth);
      PlaceIs(n, depth);
      Parts(front, last);
    }
  }

  lemma SampleBitsStep(samples: seq<nat>, depth: nat)
    requires samples != []
    ensures SampleBits(samples, depth)
         == SampleBits(samples[..|samples| - 1], depth) + High(samples[|samples| - 1], depth)
  {
  }

  lemma SliceOfFront(front: BitSeq, last: BitSeq, at: nat, n: nat)
    requires at + n <= |front|
    ensures (front + last)[at..at + n] == front[at..at + n]
  {
  }

  lemma {:induction false} BitsLength(samples: seq<nat>, depth: nat)
    ensures |SampleBits(samples, depth)| == |samples| * depth
  {
    if samples != [] {
      BitsLength(samples[..|samples| - 1], depth);
      OneMoreTime(|samples| - 1, depth);
    }
  }

  lemma PlaceIs(n: nat, depth: nat)
    ensures Place(n, depth) == n * depth
  {
  }

  lemma OneMoreTime(n: nat, k: nat)
    ensures (n + 1) * k == n * k + k
  {
  }

  // ----- pixels

  type Pixel = seq<nat>

  ghost predicate Fitting(pixel: Pixel, depth: nat, channels: nat)
  {
    |pixel| == channels && forall c :: 0 <= c < channels ==> pixel[c] < Pow2(depth)
  }

  ghost function PixelFits(depth: nat, channels: nat): Pixel -> bool { (pixel: Pixel) => Fitting(pixel, depth, channels) }

  /** A line of pixels as bytes. */
  ghost function PackLine(depth: nat): seq<Pixel> -> seq<Byte> { (row: seq<Pixel>) => Packed(SampleBits(Flat(row), depth)) }

  function SampleAt(line: seq<Byte>, x: nat, c: nat, depth: nat, channels: nat): nat
    requires DepthValid(depth)
  {
    var index := x * channels + c;
    if Place(index, depth) + depth <= 8 * |line| then SampleOf(line, index, depth) else 0
  }

  /** The samples of a pixel of a line, as the decoder finds them. */
  function PixelOf(line: seq<Byte>, x: nat, depth: nat, channels: nat): Pixel
    requires DepthValid(depth)
  {
    seq(channels, c requires 0 <= c => SampleAt(line, x, c, depth, channels))
  }

  function PixelReader(depth: nat, channels: nat): (seq<Byte>, nat) -> Pixel
    requires DepthValid(depth)
  {
    (line: seq<Byte>, x: nat) => PixelOf(line, x, depth, channels)
  }

  /** A pixel's samples stand one after another behind those of the pixels before it. */
  lemma PixelSamples(line: seq<Byte>, x: nat, c: nat, depth: nat, channels: nat)
    requires DepthValid(depth) && c < channels && (x * channels + c) * depth + depth <= 8 * |line|
    ensures var at := (x * channels + c) * depth;
      PixelOf(line, x, depth, channels)[c] == MsbValue(MsbBits(line)[at..at + depth])
  {
    hide SampleOf, MsbValue, MsbBits;
    SampleIs(line, x * channels + c, depth);
  }

  lemma {:induction false} FlatAt(row: seq<Pixel>, depth: nat, channels: nat, x: nat, c: nat)
    requires AllFit(row, PixelFits(depth, channels)) && x < |row| && c < channels
    ensures |Flat(row)| == |row| * channels && x * channels + c < |row| * channels
    ensures Flat(row)[x * channels + c] == row[x][c]
  {
    FlatLength(row, depth, channels);
    var n := |row| - 1;
    OneMoreTime(n, channels);
    assert Fitting(row[0], depth, channels);
    if x > 0 {
      forall k | 0 <= k < n
        ensures PixelFits(depth, channels)(row[1..][k])
      {
        assert PixelFits(depth, channels)(row[k + 1]);
      }
      FlatAt(row[1..], depth, channels, x - 1, c);
      OneMoreTime(x - 1, channels);
      assert Flat(row)[x * channels + c] == Flat(row[1..])[(x - 1) * channels + c];
    } else {
      FlatLength(row[1..], depth, channels);
      assert Flat(row) == row[0] + Flat(row[1..]);
    }
  }

  lemma {:induction false} FlatLength(row: seq<Pixel>, depth: nat, channels: nat)
    ensures AllFit(row, PixelFits(depth, channels)) ==> |Flat(row)| == |row| * channels
  {
    if row != [] {
      FlatLength(row[1..], depth, channels);
      OneMoreTime(|row| - 1, channels);
      if AllFit(row, PixelFits(depth, channels)) {
        assert PixelFits(depth, channels)(row[0]);
        forall k | 0 <= k < |row| - 1
          ensures PixelFits(depth, channels)(row[1..][k])
        {
          assert PixelFits(depth, channels)(row[k + 1]);
        }
      }
    }
  }

  /** One sample of a packed line. */
  lemma SampleRead(row: seq<Pixel>, depth: nat, channels: nat, x: nat, c: nat)
    requires DepthValid(depth) && AllFit(row, PixelFits(depth, channels)) && x < |row| && c < channels
    ensures |row[x]| == channels && SampleAt(PackLine(depth)(row), x, c, depth, channels) == row[x][c]
  {
    hide SampleBits, Packed, High, MsbBits, MsbValue, Flat, SampleOf, Place;
    assert PixelFits(depth, channels)(row[x]);
    FlatAt(row, depth, channels, x, c);
    IndexRead(Flat(row), depth, x * channels + c);
  }

  lemma IndexRead(samples: seq<nat>, depth: nat, i: nat)
    requires DepthValid(depth) && i < |samples| && samples[i] < Pow2(depth)
    ensures var line := Packed(SampleBits(samples, depth));
      Place(i, depth) + depth <= 8 * |line| && SampleOf(line, i, depth) == samples[i]
  {
    hide SampleBits, Packed, High, MsbBits, MsbValue, SampleOf;
    var bits := SampleBits(samples, depth);
    SampleBitsAt(samples, depth, i);
    PackedBits(bits);
    var line, at := Packed(bits), Place(i, depth);
    SampleIs(line, i, depth);
    assert MsbBits(line)[at..at + depth] == MsbBits(line)[..|bits|][at..at + depth];
    MsbValueOfHigh(samples[i], depth);
  }

  /** The decoder's samples of every depth undo the packing of a line. */
  lemma SamplesPack(l: Layout, depth: nat, channels: nat)
    requires DepthValid(depth) && l.bits == depth * channels
    ensures Packs(l, PackLine(depth), PixelReader(depth, channels), PixelFits(depth, channels))
  {
    hide SampleBits, Packed, Flat, SampleOf, AllFit;
    forall row: seq<Pixel> | AllFit(row, PixelFits(depth, channels))
      ensures |PackLine(depth)(row)| == (|row| * l.bits + 7) / 8
      ensures forall x: nat :: x < |row| ==> PixelReader(depth, channels)(PackLine(depth)(row), x) == row[x]
    {
      FlatLength(row, depth, channels);
      BitsLength(Flat(row), depth);
      Reordered(|row|, channels, depth);
      forall x: nat | x < |row|
        ensures PixelReader(depth, channels)(PackLine(depth)(row), x) == row[x]
      {
        PixelRead(row, depth, channels, x);
      }
    }
  }

  lemma PixelRead(row: seq<Pixel>, depth: nat, channels: nat, x: nat)
    requires DepthValid(depth) && AllFit(row, PixelFits(depth, channels)) && x < |row|
    ensures PixelOf(PackLine(depth)(row), x, depth, channels) == row[x]
  {
    hide SampleBits, Packed, Flat, SampleOf;
    assert PixelFits(depth, channels)(row[x]);
    forall c: nat | c < channels
      ensures PixelOf(PackLine(depth)(row), x, depth, channels)[c] == row[x][c]
    {
      SampleRead(row, depth, channels, x, c);
    }
  }

  lemma Reordered(n: nat, channels: nat, depth: nat)
    ensures n * channels * depth == n * (depth * channels)
  {
  }

  /** So for every depth and number of channels every sample of an encoded image comes back. */
  lemma SamplesRoundTrip(l: Layout, filters: seq<seq<Byte>>, original: (nat, nat) -> Pixel, depth: nat, channels: nat)
    requires DepthValid(depth) && 0 < channels && l.bits == depth * channels && Filters(l, filters)
    requires ImageFits(l, original, PixelFits(depth, channels))
    ensures 0 < l.bits && Packs(l, PackLine(depth), PixelReader(depth, channels), PixelFits(depth, channels))
    ensures var raw := EncodedFrom(l, 0, filters, original, PackLine(depth), PixelReader(depth, channels), PixelFits(depth, channels));
      && |raw| == l.Offset(l.Passes()) && AllPasses(l, raw, l.Passes())
      && forall ix: nat, iy: nat :: ix < l.width && iy < l.height ==>
           Shown(l, raw, PixelReader(depth, channels), ix, iy) == original(ix, iy)
  {
    hide Packs, PackLine, PixelReader, PixelFits;
    Positive(depth, channels);
    SamplesPack(l, depth, channels);
    ImageRoundTrip(l, filters, original, PackLine(depth), PixelReader(depth, channels), PixelFits(depth, channels));
  }

  lemma Positive(a: nat, b: nat)
    requires 0 < a && 0 < b
    ensures 0 < a * b
  {
  }
}
