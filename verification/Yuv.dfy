/** Conversion of the four YUV420 layouts to RGB. */
module Yuv {
  import opened Bytes

  /** Elements in n rows of this width. */
  function Area(n: nat, width: nat): nat { n * width }

  datatype Layout = I420 | YU12 | NV12 | NV21 | Other

  /** Pairs of pixels in a row or column; the last pair of an odd number has one pixel. */
  function Pairs(n: nat): nat { (n + 1) / 2 }

  /** A picture: one luma byte a pixel, one byte of either chroma for two by two pixels. */
  datatype Picture = Picture(width: nat, height: nat, y: seq<byte>, u: seq<byte>, v: seq<byte>)

  predicate IsPicture(p: Picture) {
    |p.y| == Area(p.height, p.width) && |p.u| == |p.v| == Area(Pairs(p.height), Pairs(p.width))
  }

  predicate EvenSized(p: Picture) { p.width % 2 == 0 && p.height % 2 == 0 }

  // Layouts

  function Interleave(a: seq<byte>, b: seq<byte>): (s: seq<byte>)
    requires |a| == |b|
    ensures |s| == 2 * |a|
    ensures forall k :: 0 <= k < |a| ==> s[2 * k] == a[k] && s[2 * k + 1] == b[k]
  {
    seq(2 * |a|, k requires 0 <= k < 2 * |a| => if k % 2 == 0 then a[k / 2] else b[k / 2])
  }

  /** The bytes of a picture in a layout. */
  function Arrange(layout: Layout, p: Picture): seq<byte>
    requires IsPicture(p) && EvenSized(p)
  {
    match layout
    case I420 => p.y + p.u + p.v
    case YU12 => p.y + p.v + p.u
    case NV12 => p.y + Interleave(p.u, p.v)
    case NV21 => p.y + Interleave(p.v, p.u)
    case Other => []
  }

  predicate Interleaved(layout: Layout) { layout.NV12? || layout.NV21? }

  /** Where the conversion looks for chroma sample q of row r, behind a frame of luma bytes. */
  function SampleStart(layout: Layout, width: nat, frame: nat, r: nat, q: nat): nat {
    if Interleaved(layout) then frame + Area(r, width) + 2 * q else frame + Area(r, width / 2) + q
  }

  /** The second byte of a sample stands behind the first, or at the same place of the other plane. */
  function SecondByte(layout: Layout, frame: nat): nat { if Interleaved(layout) then 1 else frame / 4 }

  /** The two bytes of a sample by their colours. */
  function UFrom(layout: Layout, frame: nat, start: nat): nat {
    if layout.I420? || layout.NV12? then start else start + SecondByte(layout, frame)
  }

  function VFrom(layout: Layout, frame: nat, start: nat): nat {
    if layout.I420? || layout.NV12? then start + SecondByte(layout, frame) else start
  }

  /** The last byte the loop reads for a pixel. */
  function LastRead(layout: Layout, width: nat, height: nat, j: nat, i: nat): nat {
    SampleStart(layout, width, Area(height, width), j / 2, i / 2) + SecondByte(layout, Area(height, width))
  }

  /** Every read of the conversion is inside a buffer of this size. */
  predicate Fits(layout: Layout, width: nat, height: nat, size: nat) {
    && Area(height, width) <= size
    && forall j: nat, i: nat :: j < height && i < width ==> LastRead(layout, width, height, j, i) < size
  }

  /** Row and column of sample k, and a pixel that uses it. */
  lemma SampleInside(layout: Layout, width: nat, height: nat, size: nat, k: nat)
    requires Fits(layout, width, height, size) && k < Area(Pairs(height), Pairs(width))
    ensures Pairs(width) > 0
    ensures var start := SampleStart(layout, width, Area(height, width), k / Pairs(width), k % Pairs(width));
            start + SecondByte(layout, Area(height, width)) < size
  {
    var c := Pairs(width);
    NoRows(Pairs(height), c);
    var r, q := k / c, k % c;
    Quotient(k, c, r, q);
    if r >= Pairs(height) {
      AreaMonotone(c, Pairs(height), r);
    }
    hide Area, SampleStart;
    assert 2 * r < height && 2 * q < width && 2 * r / 2 == r && 2 * q / 2 == q;
    assert LastRead(layout, width, height, 2 * r, 2 * q) < size;
  }

  lemma NoRows(n: nat, c: nat)
    requires Area(n, c) > 0
    ensures c > 0
  {}

  /** Division by the width of a row. */
  lemma Quotient(k: nat, c: nat, r: nat, q: nat)
    requires 0 < c
    ensures k == Area(k / c, c) + k % c
    ensures q < c && k == Area(r, c) + q ==> k / c == r && k % c == q
  {
    var d := k / c;
    assert k == d * c + k % c;
    hide Area;
    assert Area(d, c) == d * c by {
      AreaIs(d, c);
    }
    if q < c && k == Area(r, c) + q {
      if d < r {
        RowInside(c, r, d);
      } else if r < d {
        RowInside(c, d, r);
      }
    }
  }

  lemma AreaIs(n: nat, c: nat)
    ensures Area(n, c) == n * c
  {}

  function StartOf(layout: Layout, width: nat, height: nat, size: nat, k: nat): (start: nat)
    requires Fits(layout, width, height, size) && k < Area(Pairs(height), Pairs(width))
    ensures start + SecondByte(layout, Area(height, width)) < size
  {
    SampleInside(layout, width, height, size, k);
    SampleStart(layout, width, Area(height, width), k / Pairs(width), k % Pairs(width))
  }

  function USample(layout: Layout, width: nat, height: nat, s: seq<byte>, k: nat): byte
    requires Fits(layout, width, height, |s|) && k < Area(Pairs(height), Pairs(width))
  {
    s[UFrom(layout, Area(height, width), StartOf(layout, width, height, |s|, k))]
  }

  function VSample(layout: Layout, width: nat, height: nat, s: seq<byte>, k: nat): byte
    requires Fits(layout, width, height, |s|) && k < Area(Pairs(height), Pairs(width))
  {
    s[VFrom(layout, Area(height, width), StartOf(layout, width, height, |s|, k))]
  }

  /** The picture that stands in a buffer. With an odd width the rows of a planar layout share a byte. */
  function Planes(layout: Layout, width: nat, height: nat, s: seq<byte>): (p: Picture)
    requires Fits(layout, width, height, |s|)
    ensures IsPicture(p)
  {
    var n := Area(Pairs(height), Pairs(width));
    Picture(width, height, s[..Area(height, width)],
            seq(n, k requires 0 <= k < n => USample(layout, width, height, s, k)),
            seq(n, k requires 0 <= k < n => VSample(layout, width, height, s, k)))
  }

  lemma Quarter(width: nat, height: nat)
    requires width % 2 == 0 && height % 2 == 0
    ensures Area(height, width) == 4 * Area(height / 2, width / 2)
  {
    var w, h := width / 2, height / 2;
    assert height * width == (2 * h) * (2 * w);
  }

  lemma NextRow(width: nat, n: nat)
    ensures Area(0, width) == 0 && Area(n + 1, width) == Area(n, width) + width
  {}

  /** The bytes of an arranged picture stand where the conversion looks for them. */
  lemma ArrangedAt(layout: Layout, p: Picture, k: nat)
    requires IsPicture(p) && EvenSized(p) && layout != Other && k < |p.u|
    ensures var s, frame := Arrange(layout, p), Area(p.height, p.width);
            var start := InOrder(layout, frame, k);
            && UFrom(layout, frame, start) < |s| && VFrom(layout, frame, start) < |s|
            && s[UFrom(layout, frame, start)] == p.u[k] && s[VFrom(layout, frame, start)] == p.v[k]
  {
    hide Area, Interleave, IsPicture;
    ArrangedSize(layout, p);
    var frame := Area(p.height, p.width);
    match layout
    case I420 => PlanarAt(p.y, p.u, p.v, frame, k);
    case YU12 => PlanarAt(p.y, p.v, p.u, frame, k);
    case NV12 => InterleavedAt(p.y, p.u, p.v, frame, k);
    case NV21 => InterleavedAt(p.y, p.v, p.u, frame, k);
  }

  /** The first byte of the k-th sample behind the luma bytes. */
  function InOrder(layout: Layout, frame: nat, k: nat): nat { frame + if Interleaved(layout) then 2 * k else k }

  /** With even sizes sample k is the k-th of its plane. */
  lemma SampleInOrder(layout: Layout, width: nat, frame: nat, k: nat)
    requires 0 < width && width % 2 == 0
    ensures SampleStart(layout, width, frame, k / Pairs(width), k % Pairs(width)) == InOrder(layout, frame, k)
  {
    var c := Pairs(width);
    Quotient(k, c, 0, 0);
    assert Area(k / c, 2 * c) == 2 * Area(k / c, c);
  }

  lemma PlanarAt(y: seq<byte>, a: seq<byte>, b: seq<byte>, frame: nat, k: nat)
    requires k < |a| == |b| == frame / 4 && |y| == frame
    ensures var s, n := y + a + b, frame + k;
            n + frame / 4 < |s| && s[n] == a[k] && s[n + frame / 4] == b[k]
  {}

  lemma InterleavedAt(y: seq<byte>, a: seq<byte>, b: seq<byte>, frame: nat, k: nat)
    requires k < |a| == |b| && |y| == frame
    ensures var s, n := y + Interleave(a, b), frame + 2 * k;
            n + 1 < |s| && s[n] == a[k] && s[n + 1] == b[k]
  {
    hide Interleave;
  }

  lemma ArrangedSize(layout: Layout, p: Picture)
    requires IsPicture(p) && EvenSized(p) && layout != Other
    ensures var s, frame := Arrange(layout, p), Area(p.height, p.width);
            && |p.y| == frame && |p.u| == |p.v| == frame / 4
            && |s| == frame * 3 / 2 && frame <= |s| && s[..frame] == p.y
  {
    Quarter(p.width, p.height);
    hide Area;
  }

  lemma ArrangedSample(layout: Layout, p: Picture, k: nat)
    requires IsPicture(p) && EvenSized(p) && layout != Other && k < |p.u|
    requires Fits(layout, p.width, p.height, |Arrange(layout, p)|)
    ensures USample(layout, p.width, p.height, Arrange(layout, p), k) == p.u[k]
    ensures VSample(layout, p.width, p.height, Arrange(layout, p), k) == p.v[k]
  {
    hide Area, Arrange, UFrom, VFrom, Interleave, Fits, SampleStart;
    ArrangedAt(layout, p, k);
    NoRows(Pairs(p.height), Pairs(p.width));
    SampleInOrder(layout, p.width, Area(p.height, p.width), k);
  }

  /** Arranging a picture loses nothing, in any of the four layouts. */
  lemma PlanesOfArrange(layout: Layout, p: Picture)
    requires IsPicture(p) && EvenSized(p) && layout != Other
    ensures |Arrange(layout, p)| == Area(p.height, p.width) * 3 / 2
    ensures Fits(layout, p.width, p.height, |Arrange(layout, p)|)
    ensures Planes(layout, p.width, p.height, Arrange(layout, p)) == p
  {
    hide Area, Arrange, Fits, USample, VSample;
    ArrangedSize(layout, p);
    ReadsInside(layout, p.width, p.height);
    var q := Planes(layout, p.width, p.height, Arrange(layout, p));
    forall k | 0 <= k < |p.u|
      ensures q.u[k] == p.u[k] && q.v[k] == p.v[k]
    {
      ArrangedSample(layout, p, k);
    }
    assert q.u == p.u && q.v == p.v;
  }

  // Colours

  const CHANNEL_MAX: int := 262143

  /** A channel sum, held within 18 bits and divided by 1024. */
  function Channel(sum: int): byte {
    if sum < 0 then 0 else if sum > CHANNEL_MAX then 255 else sum / 1024
  }

  function Luma(y: byte): nat { if y < 16 then 0 else y - 16 }

  function Centred(c: byte): int { c as int - 128 }

  /** Red, green and blue of one pixel. */
  function Pixel(y: byte, u: byte, v: byte): (rgb: seq<byte>)
    ensures |rgb| == 3
  {
    [Channel(1192 * Luma(y) + 1634 * Centred(v)),
     Channel(1192 * Luma(y) - 833 * Centred(v) - 400 * Centred(u)),
     Channel(1192 * Luma(y) + 2066 * Centred(u))]
  }

  /** The chroma sample of a pixel. */
  function ChromaAt(width: nat, j: nat, i: nat): nat { Area(j / 2, Pairs(width)) + i / 2 }

  lemma {:induction false} RowInside(w: nat, h: nat, j: nat)
    requires j < h
    ensures Area(j, w) + w <= Area(h, w)
  {
    hide Area;
    NextRow(w, h - 1);
    if j < h - 1 {
      RowInside(w, h - 1, j);
    }
  }

  lemma PixelInside(p: Picture, j: nat, i: nat)
    requires IsPicture(p) && j < p.height && i < p.width
    ensures Area(j, p.width) + i < |p.y| && ChromaAt(p.width, j, i) < |p.u|
  {
    RowInside(p.width, p.height, j);
    RowInside(Pairs(p.width), Pairs(p.height), j / 2);
  }

  function PixelOf(p: Picture, j: nat, i: nat): (rgb: seq<byte>)
    requires IsPicture(p) && j < p.height && i < p.width
    ensures |rgb| == 3
  {
    PixelInside(p, j, i);
    var k := ChromaAt(p.width, j, i);
    Pixel(p.y[Area(j, p.width) + i], p.u[k], p.v[k])
  }

  /** The first pixels of a row. */
  function Row(p: Picture, j: nat, n: nat): (rgb: seq<byte>)
    requires IsPicture(p) && j < p.height && n <= p.width
    ensures |rgb| == 3 * n
  {
    if n == 0 then [] else Row(p, j, n - 1) + PixelOf(p, j, n - 1)
  }

  /** The first rows of a picture. */
  function Rows(p: Picture, n: nat): (rgb: seq<byte>)
    requires IsPicture(p) && n <= p.height
    ensures |rgb| == 3 * Area(n, p.width)
  {
    NextRow(p.width, if n == 0 then 0 else n - 1);
    if n == 0 then [] else Rows(p, n - 1) + Row(p, n - 1, p.width)
  }

  lemma {:induction false} RowAt(p: Picture, j: nat, n: nat, i: nat)
    requires IsPicture(p) && j < p.height && i < n <= p.width
    ensures Row(p, j, n)[3 * i..3 * i + 3] == PixelOf(p, j, i)
  {
    var before, last := Row(p, j, n - 1), PixelOf(p, j, n - 1);
    if i < n - 1 {
      RowAt(p, j, n - 1, i);
      assert (before + last)[3 * i..3 * i + 3] == before[3 * i..3 * i + 3];
    }
  }

  /** Where the result holds channel c of pixel (j, i). */
  function OutAt(width: nat, j: nat, i: nat, c: nat): nat { 3 * (Area(j, width) + i) + c }

  /** Every byte of the result: red, green and blue are held between 0 and 255, and in between each is its sum over
      the pixel's luma byte and the two chroma bytes it shares with its neighbours, divided by 1024. */
  lemma RowsAt(p: Picture, n: nat, j: nat, i: nat, c: nat)
    requires IsPicture(p) && j < n <= p.height && i < p.width && c < 3
    ensures OutAt(p.width, j, i, c) < |Rows(p, n)|
    ensures Area(j, p.width) + i < |p.y| && Area(j / 2, (p.width + 1) / 2) + i / 2 < |p.u|
    ensures var y := if p.y[Area(j, p.width) + i] < 16 then 0 else p.y[Area(j, p.width) + i] as int - 16;
            var u := p.u[Area(j / 2, (p.width + 1) / 2) + i / 2] as int - 128;
            var v := p.v[Area(j / 2, (p.width + 1) / 2) + i / 2] as int - 128;
            var sum := if c == 0 then 1192 * y + 1634 * v
                       else if c == 1 then 1192 * y - 833 * v - 400 * u
                       else 1192 * y + 2066 * u;
            var x := Rows(p, n)[OutAt(p.width, j, i, c)];
            && (sum < 0 ==> x == 0) && (sum > 262143 ==> x == 255)
            && (0 <= sum <= 262143 ==> 1024 * x <= sum < 1024 * x + 1024)
  {
    hide Area, Channel, Rows;
    PixelInside(p, j, i);
    PixelsAt(p, n, j, i);
    var at := 3 * (Area(j, p.width) + i);
    assert Rows(p, n)[at + c] == Rows(p, n)[at..at + 3][c];
    var y, k := p.y[Area(j, p.width) + i], ChromaAt(p.width, j, i);
    ByteOfSum(if c == 0 then 1192 * Luma(y) + 1634 * Centred(p.v[k])
              else if c == 1 then 1192 * Luma(y) - 833 * Centred(p.v[k]) - 400 * Centred(p.u[k])
              else 1192 * Luma(y) + 2066 * Centred(p.u[k]));
  }

  lemma ByteOfSum(sum: int)
    ensures sum < 0 ==> Channel(sum) == 0
    ensures sum > 262143 ==> Channel(sum) == 255
    ensures 0 <= sum <= 262143 ==> 1024 * Channel(sum) <= sum < 1024 * Channel(sum) + 1024
  {}

  lemma {:induction false} PixelsAt(p: Picture, n: nat, j: nat, i: nat)
    requires IsPicture(p) && j < n <= p.height && i < p.width
    ensures 3 * (Area(j, p.width) + i) + 3 <= |Rows(p, n)|
    ensures Rows(p, n)[3 * (Area(j, p.width) + i)..3 * (Area(j, p.width) + i) + 3] == PixelOf(p, j, i)
  {
    hide Row, PixelOf, IsPicture;
    var before, last := Rows(p, n - 1), Row(p, n - 1, p.width);
    if j < n - 1 {
      PixelsAt(p, n - 1, j, i);
      SliceOfFront(before, last, 3 * (Area(j, p.width) + i));
    } else {
      RowAt(p, j, p.width, i);
      SliceOfBack(before, last, 3 * i);
    }
  }

  lemma SliceOfFront(a: seq<byte>, b: seq<byte>, q: nat)
    requires q + 3 <= |a|
    ensures (a + b)[q..q + 3] == a[q..q + 3]
  {}

  lemma SliceOfBack(a: seq<byte>, b: seq<byte>, q: nat)
    requires q + 3 <= |b|
    ensures (a + b)[|a| + q..|a| + q + 3] == b[q..q + 3]
  {}

  /** The shifts and masks of the conversion, on a channel of 18 bits: each divides by 1024. */
  lemma MasksPickByte(x: bv24)
    requires x <= 262143
    ensures (((x << 6) & 0xff0000) >> 16) as int == x as int / 1024
    ensures (((x >> 2) & 0xff00) >> 8) as int == x as int / 1024
    ensures ((x >> 10) & 0xff) as int == x as int / 1024
  {
    SameByte(x);
    SplitChannel(x);
    Divide1024(x as int, (x >> 10) as int, (x & 0x3FF) as int);
  }

  lemma SameByte(x: bv24)
    requires x <= 262143
    ensures ((x << 6) & 0xff0000) >> 16 == x >> 10 && ((x >> 2) & 0xff00) >> 8 == x >> 10
    ensures (x >> 10) & 0xff == x >> 10
  {}

  lemma SplitChannel(x: bv24)
    requires x <= 262143
    ensures x as int == (x >> 10) as int * 1024 + (x & 0x3FF) as int && (x & 0x3FF) as int < 1024
  {}

  lemma Divide1024(x: int, q: int, r: int)
    requires 0 <= r < 1024 && x == q * 1024 + r
    ensures x / 1024 == q
  {}

  // The conversion

  /** The chroma sample at uvp, less 128, and where the next one begins. */
  method ReadChroma(layout: Layout, src: array<byte>, uvp: nat, frameSize: nat) returns (u: int, v: int, next: nat)
    requires layout != Other && uvp + SecondByte(layout, frameSize) < src.Length
    ensures u == Centred(src[UFrom(layout, frameSize, uvp)]) && v == Centred(src[VFrom(layout, frameSize, uvp)])
    ensures next == uvp + if Interleaved(layout) then 2 else 1
  {
    var uvSize := frameSize / 4;
    match layout {
      case I420 => u, v, next := Centred(src[uvp]), Centred(src[uvp + uvSize]), uvp + 1;
      case YU12 => v, u, next := Centred(src[uvp]), Centred(src[uvp + uvSize]), uvp + 1;
      case NV12 => u, v, next := Centred(src[uvp]), Centred(src[uvp + 1]), uvp + 2;
      case NV21 => v, u, next := Centred(src[uvp]), Centred(src[uvp + 1]), uvp + 2;
    }
  }

  /** One channel: clamped, and its upper eight bits written. */
  method WriteChannel(dst: array<byte>, at: nat, sum: int)
    requires at < dst.Length
    modifies dst
    ensures dst[..] == old(dst[..])[at := Channel(sum)]
  {
    var c := sum;
    if c < 0 {
      c := 0;
    } else if c > CHANNEL_MAX {
      c := CHANNEL_MAX;
    }
    dst[at] := c / 1024;
  }

  /** The three bytes of pixel yp. */
  method WritePixel(dst: array<byte>, yp: nat, r: int, g: int, b: int)
    requires 3 * yp + 3 <= dst.Length
    modifies dst
    ensures dst[..3 * yp + 3] == old(dst[..3 * yp]) + [Channel(r), Channel(g), Channel(b)]
    ensures forall k :: 3 * yp + 3 <= k < dst.Length ==> dst[k] == old(dst[k])
  {
    hide Channel;
    ghost var before := dst[..];
    WriteChannel(dst, yp * 3, r);
    WriteChannel(dst, yp * 3 + 1, g);
    WriteChannel(dst, yp * 3 + 2, b);
    assert dst[..] == before[3 * yp := Channel(r)][3 * yp + 1 := Channel(g)][3 * yp + 2 := Channel(b)];
    assert forall k :: 3 * yp + 3 <= k < dst.Length ==> dst[..][k] == before[k];
    assert dst[..3 * yp + 3] == dst[..][..3 * yp + 3];
  }

  /** What the loop reads is the picture. */
  lemma SamplesOf(layout: Layout, width: nat, height: nat, s: seq<byte>, j: nat, i: nat)
    requires Fits(layout, width, height, |s|) && j < height && i < width
    ensures var p, frame, k := Planes(layout, width, height, s), Area(height, width), ChromaAt(width, j, i);
            var start := SampleStart(layout, width, frame, j / 2, i / 2);
            && p.width == width && p.height == height && |p.y| == frame && k < |p.u| == |p.v|
            && start + SecondByte(layout, frame) < |s| && Area(j, width) + i < frame <= |s|
            && UFrom(layout, frame, start) < |s| && VFrom(layout, frame, start) < |s|
            && p.y[Area(j, width) + i] == s[Area(j, width) + i]
            && p.u[k] == s[UFrom(layout, frame, start)] && p.v[k] == s[VFrom(layout, frame, start)]
  {
    var c := Pairs(width);
    assert LastRead(layout, width, height, j, i) < |s|;
    Quotient(ChromaAt(width, j, i), c, j / 2, i / 2);
    hide Fits, SampleStart;
    PixelInside(Planes(layout, width, height, s), j, i);
    hide Area;
  }

  lemma SizeOf(layout: Layout, width: nat, height: nat, s: seq<byte>)
    requires Fits(layout, width, height, |s|)
    ensures var p := Planes(layout, width, height, s); IsPicture(p) && p.width == width && p.height == height
    ensures var p := Planes(layout, width, height, s); Rows(p, 0) == []
  {}

  /** What the loop carries from an even pixel to the odd one beside it. */
  datatype Terms = Terms(r: int, g: int, b: int)

  function TermsOf(u: byte, v: byte): Terms {
    Terms(1634 * Centred(v), 833 * Centred(v) + 400 * Centred(u), 2066 * Centred(u))
  }

  /** The terms of the chroma sample of a pixel. */
  function TermsAt(p: Picture, j: nat, i: nat): Terms
    requires IsPicture(p) && j < p.height && i < p.width
  {
    PixelInside(p, j, i);
    TermsOf(p.u[ChromaAt(p.width, j, i)], p.v[ChromaAt(p.width, j, i)])
  }

  /** A pixel from the values the loop holds. */
  lemma PixelFromTerms(p: Picture, j: nat, i: nat, y: int, t: Terms)
    requires IsPicture(p) && j < p.height && i < p.width && t == TermsAt(p, j, i)
    requires Area(j, p.width) + i < |p.y| && y == Luma(p.y[Area(j, p.width) + i])
    ensures PixelOf(p, j, i) == [Channel(1192 * y + t.r), Channel(1192 * y - t.g), Channel(1192 * y + t.b)]
  {
    hide Channel, ChromaAt, Luma, Centred, IsPicture, Area;
    PixelInside(p, j, i);
  }

  /** The odd pixel shares its sample with the even one in front of it. */
  lemma SharedSample(p: Picture, j: nat, i: nat)
    requires IsPicture(p) && j < p.height && i + 1 < p.width && i % 2 == 0
    ensures TermsAt(p, j, i + 1) == TermsAt(p, j, i)
  {
    assert ChromaAt(p.width, j, i + 1) == ChromaAt(p.width, j, i);
  }

  /** The terms of an even pixel, from the bytes of its sample at uvp, and where the next sample begins. */
  method ReadTerms(layout: Layout, width: nat, height: nat, src: array<byte>, j: nat, i: nat, uvp: nat)
      returns (terms: Terms, next: nat)
    requires layout != Other && Fits(layout, width, height, src.Length) && j < height && i < width
    requires uvp == SampleStart(layout, width, Area(height, width), j / 2, i / 2)
    ensures IsPicture(Planes(layout, width, height, src[..]))
    ensures terms == TermsAt(Planes(layout, width, height, src[..]), j, i)
    ensures next == SampleStart(layout, width, Area(height, width), j / 2, i / 2 + 1)
  {
    hide Planes, IsPicture, UFrom, VFrom, ChromaAt, Centred, Area, Fits, SecondByte;
    SamplesOf(layout, width, height, src[..], j, i);
    SizeOf(layout, width, height, src[..]);
    var u, v;
    u, v, next := ReadChroma(layout, src, uvp, Area(height, width));
    terms := Terms(1634 * v, 833 * v + 400 * u, 2066 * u);
    ghost var frame := Area(height, width);
    assert terms == TermsOf(src[UFrom(layout, frame, uvp)], src[VFrom(layout, frame, uvp)]);
  }

  /** The luma byte of a pixel, less 16. */
  method ReadLuma(layout: Layout, width: nat, height: nat, src: array<byte>, j: nat, i: nat, yp: nat) returns (y: int)
    requires Fits(layout, width, height, src.Length) && j < height && i < width && yp == Area(j, width) + i
    ensures var p := Planes(layout, width, height, src[..]); IsPicture(p) && yp < |p.y| && y == Luma(p.y[yp])
  {
    hide Planes, IsPicture, UFrom, VFrom, ChromaAt, Area, Luma, Fits, SampleStart, SecondByte;
    SamplesOf(layout, width, height, src[..], j, i);
    SizeOf(layout, width, height, src[..]);
    y := src[yp] as int - 16;
    if y < 0 {
      y := 0;
    }
    LumaIs(src[yp], y);
  }

  /** The inner loop of `yuv420_to_rgb`: one row, from its first pixel yp and its first chroma sample at uvp. */
  method ConvertRow(layout: Layout, width: nat, height: nat, src: array<byte>, dst: array<byte>, j: nat, yp: nat,
                    uvp: nat)
    requires layout != Other && Fits(layout, width, height, src.Length) && j < height
    requires src != dst && 3 * Area(height, width) <= dst.Length && yp == Area(j, width)
    requires uvp == SampleStart(layout, width, Area(height, width), j / 2, 0)
    requires 3 * (yp + width) <= dst.Length
    modifies dst
    ensures dst[..3 * (yp + width)] == old(dst[..3 * yp]) + Row(Planes(layout, width, height, src[..]), j, width)
    ensures forall k :: 3 * (yp + width) <= k < dst.Length ==> dst[k] == old(dst[k])
  {
    hide Row, Rows, Planes, IsPicture, Channel, SampleStart, ChromaAt, PixelOf, Pixel, Luma, Area, TermsAt, TermsOf,
         Fits;
    ghost var s, rows, frame := src[..], dst[..3 * yp], Area(height, width);
    ghost var p := Planes(layout, width, height, s);
    SizeOf(layout, width, height, s);
    var terms := Terms(0, 0, 0);
    var yp, uvp := yp, uvp;
    RowNone(p, j, rows);
    for i := 0 to width
      invariant yp == Area(j, width) + i && src[..] == s
      invariant uvp == SampleStart(layout, width, frame, j / 2, Pairs(i))
      invariant i % 2 == 1 ==> terms == TermsAt(p, j, i - 1)
      invariant dst[..3 * yp] == rows + Row(p, j, i)
      invariant forall k :: 3 * yp <= k < dst.Length ==> dst[k] == old(dst[k])
    {
      var y := ReadLuma(layout, width, height, src, j, i, yp);
      NextSample(i);
      if i % 2 == 0 {
        terms, uvp := ReadTerms(layout, width, height, src, j, i, uvp);
      } else {
        SharedSample(p, j, i - 1);
      }
      PixelFromTerms(p, j, i, y, terms);
      WritePixel(dst, yp, 1192 * y + terms.r, 1192 * y - terms.g, 1192 * y + terms.b);
      RowMore(p, j, i, rows, dst[..3 * yp]);
      yp := yp + 1;
    }
  }

  lemma NextSample(i: nat)
    ensures i % 2 == 0 ==> Pairs(i) == i / 2 && Pairs(i + 1) == i / 2 + 1 && (i + 1) % 2 == 1
    ensures i % 2 == 1 ==> Pairs(i + 1) == Pairs(i) && (i + 1) % 2 == 0
  {}

  lemma LumaIs(c: byte, y: int)
    requires y == if c < 16 then 0 else c as int - 16
    ensures y == Luma(c)
  {}

  lemma RowNone(p: Picture, j: nat, rows: seq<byte>)
    requires IsPicture(p) && j < p.height
    ensures rows == rows + Row(p, j, 0)
  {}

  lemma RowMore(p: Picture, j: nat, i: nat, rows: seq<byte>, done: seq<byte>)
    requires IsPicture(p) && j < p.height && i < p.width && done == rows + Row(p, j, i)
    ensures done + PixelOf(p, j, i) == rows + Row(p, j, i + 1)
  {
    hide PixelOf, IsPicture;
  }

  lemma RowsMore(p: Picture, j: nat)
    requires IsPicture(p) && j < p.height
    ensures Rows(p, j + 1) == Rows(p, j) + Row(p, j, p.width)
  {
    hide Row, IsPicture;
  }

  /** One byte of the output: channel c of pixel (j, i), by the luma byte and the two chroma bytes of the buffer that
      belong to the pixel. It is the channel's sum divided by 1024, held between 0 and 255. */
  predicate Coloured(layout: Layout, width: nat, height: nat, s: seq<byte>, out: seq<byte>, j: nat, i: nat, c: nat) {
    var frame := Area(height, width);
    var start := frame + if layout.NV12? || layout.NV21? then Area(j / 2, width) + 2 * (i / 2)
                         else Area(j / 2, width / 2) + i / 2;
    var other := start + if layout.NV12? || layout.NV21? then 1 else frame / 4;
    && Area(j, width) + i < |s| && start < |s| && other < |s| && OutAt(width, j, i, c) < |out|
    && var y := if s[Area(j, width) + i] < 16 then 0 else s[Area(j, width) + i] as int - 16;
    var u := (if layout.I420? || layout.NV12? then s[start] else s[other]) as int - 128;
    var v := (if layout.I420? || layout.NV12? then s[other] else s[start]) as int - 128;
    var sum := if c == 0 then 1192 * y + 1634 * v
               else if c == 1 then 1192 * y - 833 * v - 400 * u
               else 1192 * y + 2066 * u;
    var x := out[OutAt(width, j, i, c)];
    && (sum < 0 ==> x == 0) && (sum > 262143 ==> x == 255)
    && (0 <= sum <= 262143 ==> 1024 * x <= sum < 1024 * x + 1024)
  }

  lemma ColoursOf(layout: Layout, width: nat, height: nat, s: seq<byte>, out: seq<byte>, j: nat, i: nat, c: nat)
    requires layout != Other && Fits(layout, width, height, |s|) && j < height && i < width && c < 3
    requires Rows(Planes(layout, width, height, s), height) <= out
    ensures Coloured(layout, width, height, s, out, j, i, c)
  {
    hide Area, Planes, Rows, OutAt, Fits, IsPicture;
    SamplesOf(layout, width, height, s, j, i);
    SizeOf(layout, width, height, s);
    RowsAt(Planes(layout, width, height, s), height, j, i, c);
  }

  /** `yuv420_to_rgb`: the result is that of the picture in the buffer, for each of the four layouts and every size at
      which the reads stay inside the buffer. */
  method Yuv420ToRgb(layout: Layout, width: nat, height: nat, src: array<byte>, dst: array<byte>)
    requires layout != Other ==> Fits(layout, width, height, src.Length)
    requires src != dst && 3 * Area(height, width) <= dst.Length < 0x1_0000_0000
    modifies dst
    ensures layout == Other ==> dst[..] == old(dst[..])
    ensures layout != Other ==>
              var p := Planes(layout, width, height, src[..]);
              dst[..3 * Area(height, width)] == Rows(p, height)
    ensures layout != Other ==>
              forall j: nat, i: nat, c: nat :: j < height && i < width && c < 3 ==>
                Coloured(layout, width, height, src[..], dst[..], j, i, c)
    ensures forall k :: 3 * Area(height, width) <= k < dst.Length ==> dst[k] == old(dst[k])
  {
    hide Row, Rows, Planes, IsPicture, UFrom, VFrom, ChromaAt, Area, Fits, Coloured;
    var frameSize, yp := Area(height, width), 0;
    NextRow(width, 0);
    if layout != Other {
      SizeOf(layout, width, height, src[..]);
    }
    for j := 0 to height
      invariant yp == Area(j, width) && (j > 0 ==> layout != Other)
      invariant 3 * yp <= dst.Length
      invariant layout != Other ==> dst[..3 * yp] == Rows(Planes(layout, width, height, src[..]), j)
      invariant forall k :: 3 * yp <= k < dst.Length ==> dst[k] == old(dst[k])
    {
      var uvp: nat;
      NextRow(width, j);
      RowInside(width, height, j);
      if layout == I420 || layout == YU12 {
        uvp := frameSize + Area(j / 2, width / 2);
      } else if layout == NV12 || layout == NV21 {
        uvp := frameSize + Area(j / 2, width);
      } else {
        return;
      }
      RowsMore(Planes(layout, width, height, src[..]), j);
      ConvertRow(layout, width, height, src, dst, j, yp, uvp);
      yp := yp + width;
    }
    if layout != Other {
      ghost var s, out := src[..], dst[..];
      assert Rows(Planes(layout, width, height, s), height) == out[..3 * yp] <= out;
      forall j: nat, i: nat, c: nat | j < height && i < width && c < 3
        ensures Coloured(layout, width, height, s, out, j, i, c)
      {
        ColoursOf(layout, width, height, s, out, j, i, c);
      }
    }
  }

  // The sizes at which the reads stay inside a buffer of the checked length

  lemma AreaMonotone(w: nat, j: nat, h: nat)
    requires j <= h
    ensures Area(j, w) <= Area(h, w)
  {
    if j < h {
      RowInside(w, h, j);
    }
  }

  /** The last pixel reads farthest. */
  lemma LastIsFarthest(layout: Layout, width: nat, height: nat, j: nat, i: nat)
    requires j < height && i < width
    ensures LastRead(layout, width, height, j, i) <= LastRead(layout, width, height, height - 1, width - 1)
  {
    AreaMonotone(width, j / 2, (height - 1) / 2);
    AreaMonotone(width / 2, j / 2, (height - 1) / 2);
    hide Area;
  }

  lemma LastDecides(layout: Layout, width: nat, height: nat)
    requires 0 < width && 0 < height
    ensures Fits(layout, width, height, Area(height, width) * 3 / 2)
       <==> LastRead(layout, width, height, height - 1, width - 1) < Area(height, width) * 3 / 2
  {
    hide Area, LastRead;
    forall j: nat, i: nat | j < height && i < width
      ensures LastRead(layout, width, height, j, i) <= LastRead(layout, width, height, height - 1, width - 1)
    {
      LastIsFarthest(layout, width, height, j, i);
    }
  }

  /** At even sizes they do, in every layout. */
  lemma ReadsInside(layout: Layout, width: nat, height: nat)
    requires layout != Other && width % 2 == 0 && height % 2 == 0
    ensures Fits(layout, width, height, Area(height, width) * 3 / 2)
  {
    if width > 0 && height > 0 {
      if Interleaved(layout) {
        InterleavedReadsInsideIff(layout, width, height);
      } else {
        PlanarReadsInsideIff(layout, width, height);
      }
    }
  }

  lemma AreaOfDouble(n: nat, w: nat)
    ensures Area(2 * n, w) == 2 * Area(n, w) && Area(2 * n + 1, w) == 2 * Area(n, w) + w
  {}

  /** The interleaved layouts read inside a buffer of the checked length exactly when width and height are even. */
  lemma InterleavedReadsInsideIff(layout: Layout, width: nat, height: nat)
    requires Interleaved(layout) && 0 < width && 0 < height
    ensures Fits(layout, width, height, Area(height, width) * 3 / 2) <==> width % 2 == 0 && height % 2 == 0
  {
    LastDecides(layout, width, height);
    LastInterleaved(layout, width, height);
  }

  lemma LastInterleaved(layout: Layout, width: nat, height: nat)
    requires Interleaved(layout) && 0 < width && 0 < height
    ensures LastRead(layout, width, height, height - 1, width - 1) < Area(height, width) * 3 / 2
       <==> width % 2 == 0 && height % 2 == 0
  {
    hide Area;
    var a := (height - 1) / 2;
    AreaOfDouble(a, width);
    NextRow(width, 2 * a + 1);
    assert height == if height % 2 == 0 then 2 * a + 2 else 2 * a + 1;
    InterleavedArithmetic(width, Area(a, width), height % 2 == 0);
  }

  /** m bytes lie in front of the last row of chroma pairs. */
  lemma InterleavedArithmetic(width: nat, m: nat, even: bool)
    requires 0 < width
    ensures var area := 2 * m + if even then 2 * width else width;
            area + m + 2 * ((width - 1) / 2) + 1 < area * 3 / 2 <==> width % 2 == 0 && even
  {}

  /** The planar ones do so also for some odd sizes. */
  lemma PlanarReadsInsideIff(layout: Layout, width: nat, height: nat)
    requires (layout.I420? || layout.YU12?) && 0 < width && 0 < height
    ensures Fits(layout, width, height, Area(height, width) * 3 / 2)
       <==> height % 2 == 0 || width == 2 || (width % 2 == 1 && width < height)
  {
    LastDecides(layout, width, height);
    LastPlanar(layout, width, height);
  }

  lemma LastPlanar(layout: Layout, width: nat, height: nat)
    requires (layout.I420? || layout.YU12?) && 0 < width && 0 < height
    ensures LastRead(layout, width, height, height - 1, width - 1) < Area(height, width) * 3 / 2
       <==> height % 2 == 0 || width == 2 || (width % 2 == 1 && width < height)
  {
    PlanarEnd(layout, width, height);
    hide Area, LastRead;
    var a, b := height / 2, width / 2;
    AreaOfSize(width, height);
    if height % 2 == 0 {
      NextRow(b, a - 1);
      assert (height - 1) / 2 == a - 1;
      PlanarEven(a, b, Area(a - 1, b), width % 2 == 1);
    } else {
      PlanarOdd(a, b, Area(a, b), width % 2 == 1);
    }
  }

  lemma PlanarEnd(layout: Layout, width: nat, height: nat)
    requires (layout.I420? || layout.YU12?) && 0 < width && 0 < height
    ensures LastRead(layout, width, height, height - 1, width - 1)
         == Area(height, width) + Area((height - 1) / 2, width / 2) + (width - 1) / 2 + Area(height, width) / 4
  {}

  lemma PlanarEven(a: nat, b: nat, m: nat, odd: bool)
    requires 0 < a && (odd || 0 < b)
    ensures var area, last := 4 * (m + b) + (if odd then 2 * a else 0), if odd then b else b - 1;
            area + m + last + area / 4 < area * 3 / 2
  {
    var rest := if odd then 2 * a else 0;
    QuarterAndHalf(m + b, rest);
  }

  lemma QuarterAndHalf(n: nat, rest: nat)
    ensures (4 * n + rest) / 4 == n + rest / 4
    ensures (4 * n + rest) * 3 / 2 == 4 * n + rest + 2 * n + rest / 2
  {}

  lemma PlanarOdd(a: nat, b: nat, m: nat, odd: bool)
    requires odd || 0 < b
    ensures var width, last := (if odd then 2 * b + 1 else 2 * b), if odd then b else b - 1;
            var area := 4 * m + (if odd then 2 * a else 0) + width;
            area + m + last + area / 4 < area * 3 / 2 <==> width == 2 || (odd && width < 2 * a + 1)
  {
    QuarterAndHalf(m, (if odd then 2 * a + 1 else 0) + 2 * b);
  }

  lemma AreaOfSize(width: nat, height: nat)
    ensures var a, b := height / 2, width / 2;
            Area(height, width) == 4 * Area(a, b) + (if width % 2 == 1 then 2 * a else 0)
                                   + (if height % 2 == 1 then width else 0)
  {
    var a, b := height / 2, width / 2;
    AreaOfDouble(a, width);
    assert a * (2 * b) == 2 * (a * b);
    assert a * (2 * b + 1) == 2 * (a * b) + a;
  }

  /** An NV12 picture of three by two pixels passes the length check and byte 9 of its nine bytes is read. */
  lemma OddWidthReadsBehind()
    ensures LengthCheck(NV12, 9, 3, 2) && LastRead(NV12, 3, 2, 0, 2) == 9 && !Fits(NV12, 3, 2, 9)
  {}

  // The length check

  /** `yuv_lenght_check`, in unsigned 32-bit arithmetic. */
  function LengthCheck(layout: Layout, len: nat, width: nat, height: nat): bool {
    layout != Other && len == Area(height, width) * 3 % 0x1_0000_0000 / 2
  }

  /** The check accepts the length the conversion needs, and no other, exactly while the product fits 32 bits. */
  lemma LengthCheckExactIff(layout: Layout, width: nat, height: nat)
    requires layout != Other
    ensures (forall len: nat :: LengthCheck(layout, len, width, height) <==> len == Area(height, width) * 3 / 2)
       <==> Area(height, width) * 3 < 0x1_0000_0000
  {
    hide Area;
    var full := Area(height, width) * 3;
    if full >= 0x1_0000_0000 {
      assert full % 0x1_0000_0000 <= full - 0x1_0000_0000;
      assert full % 0x1_0000_0000 / 2 < full / 2;
      assert !LengthCheck(layout, full / 2, width, height);
    }
  }

  /** Two buffers that hold the same picture in any two layouts give the same colours. */
  lemma LayoutsAgree(a: Layout, b: Layout, p: Picture)
    requires IsPicture(p) && EvenSized(p) && a != Other && b != Other
    ensures |Arrange(a, p)| == |Arrange(b, p)| == Area(p.height, p.width) * 3 / 2
    ensures Fits(a, p.width, p.height, |Arrange(a, p)|) && Fits(b, p.width, p.height, |Arrange(b, p)|)
    ensures Rows(Planes(a, p.width, p.height, Arrange(a, p)), p.height)
         == Rows(Planes(b, p.width, p.height, Arrange(b, p)), p.height)
  {
    hide Planes, Arrange, Rows;
    PlanesOfArrange(a, p);
    PlanesOfArrange(b, p);
  }
}
