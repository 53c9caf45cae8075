/** Histogram-based colour correction (NAPS2.Images/Bitwise/CorrectionOp.cs).

    The constructor turns a 256-bin brightness histogram into 64 segments, scans
    them for a black and a white segment and decides whether the correction is
    usable. PerformCore then rewrites the red, green and blue bytes of the pixels
    in a band of rows of a pixel buffer, either clamping and stretching each
    channel ("Document" mode) or stretching between the pixel's own extremes and
    the fixed points ("Photo" mode). All arithmetic is on integers. */
module Correction {
  import opened Wrappers

  newtype Byte = x: int | 0 <= x < 256

  datatype CorrectionMode = Document | Photo | OtherMode(code: int)

  /** What the pre-processing pass hands to the constructor: the mode, the total
      pixel count and the 256-bin histogram. */
  datatype PreProcessing = PreProcessing(mode: CorrectionMode, totalCount: int, counts: seq<int>)

  /** The pixel buffer the source reaches through a raw pointer: the bytes, the
      image size, the row stride, the bytes per pixel and the offsets of the red,
      green and blue bytes inside one pixel. */
  datatype BitwiseImageData = BitwiseImageData(
    buffer: array<Byte>, w: int, h: int, stride: int, bytesPerPixel: int, rOff: int, gOff: int, bOff: int)

  /** What a correction pass needs to know about the operation. */
  datatype Levels = Levels(valid: bool, mode: CorrectionMode, black: int, white: int)

  const WhitePoint := 236
  const BlackPoint := 72

  // ---------------------------------------------------------------------------
  // Histogram segments

  /** C# integer division, which truncates toward zero. */
  function TruncDiv(a: int, b: int): int
    requires b > 0
  {
    if a >= 0 then a / b else -((-a) / b)
  }

  function Sum(s: seq<int>): int
  {
    if s == [] then 0 else Sum(s[..|s| - 1]) + s[|s| - 1]
  }

  /** Segment k's running total after the binning loop has seen bins 0 .. n-1. */
  function BinsSeen(counts: seq<int>, k: int, n: int): int
    requires |counts| == 256 && 0 <= k < 64
  {
    (if 4 * k < n then counts[4 * k] else 0) + (if 4 * k + 1 < n then counts[4 * k + 1] else 0)
    + (if 4 * k + 2 < n then counts[4 * k + 2] else 0) + (if 4 * k + 3 < n then counts[4 * k + 3] else 0)
  }

  /** The binning loop of the constructor: segment k collects bins 4k .. 4k+3. */
  method BinSegments(counts: seq<int>) returns (segments: seq<int>)
    requires |counts| == 256
    ensures |segments| == 64
    ensures forall k :: 0 <= k < 64 ==>
              segments[k] == counts[4 * k] + counts[4 * k + 1] + counts[4 * k + 2] + counts[4 * k + 3]
  {
    var a := new int[64](_ => 0);
    var i := 0;
    while i < 256
      invariant 0 <= i <= 256
      invariant forall k :: 0 <= k < 64 ==> a[k] == BinsSeen(counts, k, i)
    {
      a[i / 4] := a[i / 4] + counts[i];
      i := i + 1;
    }
    segments := a[..];
  }

  lemma SumSnoc(s: seq<int>, n: nat)
    requires n < |s|
    ensures Sum(s[..n + 1]) == Sum(s[..n]) + s[n]
  {
    assert s[..n + 1][..n] == s[..n];
  }

  lemma {:induction false} SegmentPrefixSum(counts: seq<int>, segments: seq<int>, k: nat)
    requires |counts| == 256 && |segments| == 64 && k <= 64
    requires forall m :: 0 <= m < 64 ==>
               segments[m] == counts[4 * m] + counts[4 * m + 1] + counts[4 * m + 2] + counts[4 * m + 3]
    ensures Sum(segments[..k]) == Sum(counts[..4 * k])
  {
    if k > 0 {
      SegmentPrefixSum(counts, segments, k - 1);
      SumSnoc(segments, k - 1);
      var b := 4 * (k - 1);
      SumSnoc(counts, b);
      SumSnoc(counts, b + 1);
      SumSnoc(counts, b + 2);
      SumSnoc(counts, b + 3);
    }
  }

  /** Binning loses nothing: the segments add up to the histogram's total. */
  lemma SegmentsPreserveTotal(counts: seq<int>, segments: seq<int>)
    requires |counts| == 256 && |segments| == 64
    requires forall m :: 0 <= m < 64 ==>
               segments[m] == counts[4 * m] + counts[4 * m + 1] + counts[4 * m + 2] + counts[4 * m + 3]
    ensures Sum(segments) == Sum(counts)
  {
    SegmentPrefixSum(counts, segments, 64);
    assert segments[..64] == segments;
    assert counts[..256] == counts;
  }

  // ---------------------------------------------------------------------------
  // Black and white segment scans

  /** The black scan moves past segment bs while it is rising or nearly empty. */
  predicate BlackScanContinues(segments: seq<int>, total: int, bs: int)
    requires |segments| == 64 && 0 <= bs < 63
  {
    segments[bs] < segments[bs + 1] || segments[bs] < TruncDiv(total, 2000)
  }

  /** The white scan moves below segment ws while it is falling toward ws or sparse. */
  predicate WhiteScanContinues(segments: seq<int>, total: int, ws: int)
    requires |segments| == 64 && 1 <= ws < 64
  {
    segments[ws] < segments[ws - 1] || segments[ws] < TruncDiv(total, 64)
  }

  /** Where the black scan stops when it starts at bs. */
  function BlackSegmentFrom(segments: seq<int>, total: int, bs: int): int
    requires |segments| == 64 && 0 <= bs <= 62
    decreases 62 - bs
  {
    if bs < 62 && BlackScanContinues(segments, total, bs) then BlackSegmentFrom(segments, total, bs + 1) else bs
  }

  /** Where the white scan stops when it starts at ws. */
  function WhiteSegmentFrom(segments: seq<int>, total: int, ws: int): int
    requires |segments| == 64 && 1 <= ws <= 63
  {
    if ws > 1 && WhiteScanContinues(segments, total, ws) then WhiteSegmentFrom(segments, total, ws - 1) else ws
  }

  lemma {:induction false} BlackSegmentFromIsFirstStop(segments: seq<int>, total: int, start: int)
    requires |segments| == 64 && 0 <= start <= 62
    ensures var bs := BlackSegmentFrom(segments, total, start);
            start <= bs <= 62
            && (forall k :: start <= k < bs ==> BlackScanContinues(segments, total, k))
            && (bs < 62 ==> !BlackScanContinues(segments, total, bs))
    decreases 62 - start
  {
    if start < 62 && BlackScanContinues(segments, total, start) {
      BlackSegmentFromIsFirstStop(segments, total, start + 1);
    }
  }

  lemma {:induction false} WhiteSegmentFromIsFirstStop(segments: seq<int>, total: int, start: int)
    requires |segments| == 64 && 1 <= start <= 63
    ensures var ws := WhiteSegmentFrom(segments, total, start);
            1 <= ws <= start
            && (forall k :: ws < k <= start ==> WhiteScanContinues(segments, total, k))
            && (ws > 1 ==> !WhiteScanContinues(segments, total, ws))
  {
    if start > 1 && WhiteScanContinues(segments, total, start) {
      WhiteSegmentFromIsFirstStop(segments, total, start - 1);
    }
  }

  /** The black segment is the first segment below 62 where the scan stops
      (62 if it never does), so 0 <= bs <= 62; the white segment is the last
      segment above 1 where the scan stops (1 if it never does), so 1 <= ws <= 63. */
  lemma ScanBounds(segments: seq<int>, total: int)
    requires |segments| == 64
    ensures var bs := BlackSegmentFrom(segments, total, 0);
            0 <= bs <= 62
            && (forall k :: 0 <= k < bs ==> BlackScanContinues(segments, total, k))
            && (bs < 62 ==> !BlackScanContinues(segments, total, bs))
    ensures var ws := WhiteSegmentFrom(segments, total, 63);
            1 <= ws <= 63
            && (forall k :: ws < k <= 63 ==> WhiteScanContinues(segments, total, k))
            && (ws > 1 ==> !WhiteScanContinues(segments, total, ws))
  {
    BlackSegmentFromIsFirstStop(segments, total, 0);
    WhiteSegmentFromIsFirstStop(segments, total, 63);
  }

  /** The constructor's black scan loop. */
  method ScanBlack(segments: seq<int>, total: int) returns (bs: int)
    requires |segments| == 64
    ensures bs == BlackSegmentFrom(segments, total, 0)
  {
    bs := 0;
    while bs < 62 && (segments[bs] < segments[bs + 1] || segments[bs] < TruncDiv(total, 2000))
      invariant 0 <= bs <= 62
      invariant BlackSegmentFrom(segments, total, bs) == BlackSegmentFrom(segments, total, 0)
    {
      bs := bs + 1;
    }
  }

  /** The constructor's white scan loop. */
  method ScanWhite(segments: seq<int>, total: int) returns (ws: int)
    requires |segments| == 64
    ensures ws == WhiteSegmentFrom(segments, total, 63)
  {
    ws := 63;
    while ws > 1 && (segments[ws] < segments[ws - 1] || segments[ws] < TruncDiv(total, 64))
      invariant 1 <= ws <= 63
      invariant WhiteSegmentFrom(segments, total, ws) == WhiteSegmentFrom(segments, total, 63)
    {
      ws := ws - 1;
    }
  }

  /** The histogram is usable unless the black segment is above 38, the white
      segment below 24, or the black segment not below the white one. */
  predicate SegmentsUsable(bs: int, ws: int)
  {
    !(bs > 38 || ws < 24 || bs >= ws)
  }

  // ---------------------------------------------------------------------------
  // Per-channel arithmetic

  lemma ScaleBound(x: int, d: int)
    requires 0 <= x <= d && d > 0
    ensures 0 <= x * 255 / d <= 255
  {
    assert x * 255 <= d * 255;
    assert (d * 255) / d == 255;
    DivMonotone(x * 255, d * 255, d);
  }

  lemma DivMonotone(a: int, b: int, d: int)
    requires 0 <= a <= b && d > 0
    ensures a / d <= b / d
  {
    if a / d > b / d {
      MulAtLeast(d, a / d - b / d);
      assert false;
    }
  }

  /** Photo mode: stretch the band [black, white] onto 0 .. 255. */
  function Stretch(v: int, black: int, white: int): int
    requires black < white
  {
    (v - black) * 255 / (white - black)
  }

  /** Document mode: clamp the value into [black, white], then stretch that band onto 0 .. 255. */
  function Flatten(v: int, black: int, white: int): int
    requires 0 <= black < white
  {
    var lifted := if v < black then black else v;
    var clamped := if lifted > white then white else lifted;
    Stretch(clamped, black, white)
  }

  function Min3(r: int, g: int, b: int): int { if r <= g && r <= b then r else if g <= b then g else b }
  function Max3(r: int, g: int, b: int): int { if r >= g && r >= b then r else if g >= b then g else b }

  /** The Photo-mode band of one pixel: its own darkest and brightest channel,
      widened to at least the fixed black and white points. */
  function PhotoBlack(r: int, g: int, b: int, black: int): int { var m := Min3(r, g, b); if m < black then m else black }
  function PhotoWhite(r: int, g: int, b: int, white: int): int { var m := Max3(r, g, b); if m > white then m else white }

  predicate LevelsOk(lv: Levels)
  {
    0 <= lv.black < lv.white <= 255
  }

  /** The channel values one pixel gets. Only Document and Photo change anything. */
  function CorrectPixel(lv: Levels, r: Byte, g: Byte, b: Byte): (Byte, Byte, Byte)
    requires LevelsOk(lv)
  {
    match lv.mode
    case Document =>
      ScaleFlatten(r as int, lv.black, lv.white);
      ScaleFlatten(g as int, lv.black, lv.white);
      ScaleFlatten(b as int, lv.black, lv.white);
      (Flatten(r as int, lv.black, lv.white) as Byte,
       Flatten(g as int, lv.black, lv.white) as Byte,
       Flatten(b as int, lv.black, lv.white) as Byte)
    case Photo =>
      var lo := PhotoBlack(r as int, g as int, b as int, lv.black);
      var hi := PhotoWhite(r as int, g as int, b as int, lv.white);
      ScaleBound(r as int - lo, hi - lo);
      ScaleBound(g as int - lo, hi - lo);
      ScaleBound(b as int - lo, hi - lo);
      (Stretch(r as int, lo, hi) as Byte, Stretch(g as int, lo, hi) as Byte, Stretch(b as int, lo, hi) as Byte)
    case OtherMode(_) => (r, g, b)
  }

  lemma ScaleFlatten(v: int, black: int, white: int)
    requires 0 <= black < white
    ensures 0 <= Flatten(v, black, white) <= 255
  {
    var lifted := if v < black then black else v;
    var clamped := if lifted > white then white else lifted;
    ScaleBound(clamped - black, white - black);
  }

  /** Document mode at the operation's fixed points: every result is a byte,
      values at or below the black point become 0, values at or above the white
      point become 255, and the mapping never decreases. */
  lemma DocumentMapping(v: int, u: int)
    ensures 0 <= Flatten(v, BlackPoint, WhitePoint) <= 255
    ensures v <= BlackPoint ==> Flatten(v, BlackPoint, WhitePoint) == 0
    ensures v >= WhitePoint ==> Flatten(v, BlackPoint, WhitePoint) == 255
    ensures v <= u ==> Flatten(v, BlackPoint, WhitePoint) <= Flatten(u, BlackPoint, WhitePoint)
  {
    ScaleFlatten(v, BlackPoint, WhitePoint);
    if v <= u {
      var cv := if v < BlackPoint then BlackPoint else if v > WhitePoint then WhitePoint else v;
      var cu := if u < BlackPoint then BlackPoint else if u > WhitePoint then WhitePoint else u;
      assert (cv - BlackPoint) * 255 <= (cu - BlackPoint) * 255;
      DivMonotone((cv - BlackPoint) * 255, (cu - BlackPoint) * 255, WhitePoint - BlackPoint);
    }
  }

  /** Photo mode at the operation's fixed points: the divisor is at least
      236 - 72 = 164, so never zero, and every channel lands in 0 .. 255. */
  lemma PhotoMapping(r: Byte, g: Byte, b: Byte)
    ensures var lo := PhotoBlack(r as int, g as int, b as int, BlackPoint);
            var hi := PhotoWhite(r as int, g as int, b as int, WhitePoint);
            hi - lo >= 164
            && 0 <= Stretch(r as int, lo, hi) <= 255
            && 0 <= Stretch(g as int, lo, hi) <= 255
            && 0 <= Stretch(b as int, lo, hi) <= 255
  {
    var lo := PhotoBlack(r as int, g as int, b as int, BlackPoint);
    var hi := PhotoWhite(r as int, g as int, b as int, WhitePoint);
    ScaleBound(r as int - lo, hi - lo);
    ScaleBound(g as int - lo, hi - lo);
    ScaleBound(b as int - lo, hi - lo);
  }

  // ---------------------------------------------------------------------------
  // The pixel buffer

  /** The buffer layout the source relies on: every pixel of every row lies
      inside its row, every row inside the buffer. */
  predicate LayoutOk(d: BitwiseImageData, n: int)
  {
    d.w >= 0 && d.h >= 0 && d.bytesPerPixel >= 1 && d.stride >= 0
    && 0 <= d.rOff < d.bytesPerPixel && 0 <= d.gOff < d.bytesPerPixel && 0 <= d.bOff < d.bytesPerPixel
    && d.w * d.bytesPerPixel <= d.stride
    && d.h * d.stride <= n
  }

  /** A band of rows [partStart, partEnd) of a well laid out buffer; the band is
      empty when partStart >= partEnd. */
  predicate RegionFits(d: BitwiseImageData, partStart: int, partEnd: int)
  {
    LayoutOk(d, d.buffer.Length) && 0 <= partStart && partEnd <= d.h
  }

  function PixelBase(d: BitwiseImageData, i: int, j: int): int
  {
    d.stride * i + j * d.bytesPerPixel
  }

  lemma PixelInBounds(d: BitwiseImageData, n: int, i: int, j: int)
    requires LayoutOk(d, n) && 0 <= i < d.h && 0 <= j < d.w
    ensures 0 <= PixelBase(d, i, j) && PixelBase(d, i, j) + d.bytesPerPixel <= d.stride * i + d.stride
    ensures d.stride * i + d.stride <= n
  {
    MulMono(j + 1, d.w, d.bytesPerPixel);
    MulSucc(j, d.bytesPerPixel);
    MulMono(i + 1, d.h, d.stride);
    MulSucc(i, d.stride);
    MulNonneg(d.stride, i);
    MulNonneg(j, d.bytesPerPixel);
  }

  lemma MulSucc(a: int, c: int)
    ensures (a + 1) * c == a * c + c && c * a == a * c
  {
  }

  lemma MulNonneg(a: int, b: int)
    requires a >= 0 && b >= 0
    ensures a * b >= 0
  {
  }

  /** A rule for one pixel: the new red, green and blue values from the old ones. */
  type PixelRule = (Byte, Byte, Byte) -> (Byte, Byte, Byte)

  /** The buffer after pixel (row i, column j) has been rewritten in place by f:
      the three channels are read first, then written red, green, blue. */
  function ApplyAt(s: seq<Byte>, d: BitwiseImageData, f: PixelRule, i: int, j: int): (t: seq<Byte>)
    requires LayoutOk(d, |s|) && 0 <= i < d.h && 0 <= j < d.w
    ensures |t| == |s|
  {
    PixelInBounds(d, |s|, i, j);
    var p := PixelBase(d, i, j);
    var px := f(s[p + d.rOff], s[p + d.gOff], s[p + d.bOff]);
    s[p + d.rOff := px.0][p + d.gOff := px.1][p + d.bOff := px.2]
  }

  /** The buffer after columns 0 .. j-1 of row i have been rewritten by f. */
  function RowDone(s: seq<Byte>, d: BitwiseImageData, f: PixelRule, i: int, j: int): (t: seq<Byte>)
    requires LayoutOk(d, |s|) && 0 <= i < d.h && 0 <= j <= d.w
    ensures |t| == |s|
  {
    if j == 0 then s else ApplyAt(RowDone(s, d, f, i, j - 1), d, f, i, j - 1)
  }

  /** The buffer after rows lo .. i-1 have been rewritten by f. */
  function RowsDone(s: seq<Byte>, d: BitwiseImageData, f: PixelRule, lo: int, i: int): (t: seq<Byte>)
    requires LayoutOk(d, |s|) && 0 <= lo <= i <= d.h
    ensures |t| == |s|
    decreases i - lo
  {
    if i == lo then s else RowDone(RowsDone(s, d, f, lo, i - 1), d, f, i - 1, d.w)
  }

  /** The pixel rule of a usable operation. */
  function RuleFor(lv: Levels): PixelRule
    requires LevelsOk(lv)
  {
    (r, g, b) => CorrectPixel(lv, r, g, b)
  }

  /** What PerformRgba leaves in the buffer: nothing changes when the operation is
      not usable or the band is empty, otherwise every pixel of rows lo .. hi-1 is
      corrected. */
  function Corrected(s: seq<Byte>, d: BitwiseImageData, lv: Levels, lo: int, hi: int): (t: seq<Byte>)
    requires LayoutOk(d, |s|) && 0 <= lo && hi <= d.h && (lv.valid ==> LevelsOk(lv))
    ensures |t| == |s|
  {
    if !lv.valid || hi <= lo then s else RowsDone(s, d, RuleFor(lv), lo, hi)
  }

  // ---------------------------------------------------------------------------
  // Which bytes a pass may write

  /** Byte k is one of the three channel bytes of pixel (i, j). */
  predicate ChannelAt(d: BitwiseImageData, i: int, j: int, k: int)
  {
    var p := PixelBase(d, i, j);
    k == p + d.rOff || k == p + d.gOff || k == p + d.bOff
  }

  /** Byte k is a channel byte of some pixel in rows lo .. hi-1, columns 0 .. w-1. */
  ghost predicate Written(d: BitwiseImageData, lo: int, hi: int, k: int)
  {
    exists i, j :: lo <= i < hi && 0 <= j < d.w && ChannelAt(d, i, j, k)
  }

  lemma ApplyAtFrame(s: seq<Byte>, d: BitwiseImageData, f: PixelRule, i: int, j: int, k: int)
    requires LayoutOk(d, |s|) && 0 <= i < d.h && 0 <= j < d.w && 0 <= k < |s|
    requires !ChannelAt(d, i, j, k)
    ensures ApplyAt(s, d, f, i, j)[k] == s[k]
  {
    var p := PixelBase(d, i, j);
    PixelInBounds(d, |s|, i, j);
    var px := f(s[p + d.rOff], s[p + d.gOff], s[p + d.bOff]);
    assert k != p + d.rOff && k != p + d.gOff && k != p + d.bOff;
    UpdateFrame(s, p + d.rOff, px.0, p + d.gOff, px.1, p + d.bOff, px.2, k);
  }

  /** Three updates of a sequence leave every other index alone. */
  lemma UpdateFrame(s: seq<Byte>, a: int, x: Byte, b: int, y: Byte, c: int, z: Byte, k: int)
    requires 0 <= a < |s| && 0 <= b < |s| && 0 <= c < |s| && 0 <= k < |s|
    requires k != a && k != b && k != c
    ensures s[a := x][b := y][c := z][k] == s[k]
  {
  }

  lemma {:induction false} RowDoneFrame(s: seq<Byte>, d: BitwiseImageData, f: PixelRule, i: int, j: int, k: int)
    requires LayoutOk(d, |s|) && 0 <= i < d.h && 0 <= j <= d.w && 0 <= k < |s|
    requires forall c :: 0 <= c < j ==> !ChannelAt(d, i, c, k)
    ensures RowDone(s, d, f, i, j)[k] == s[k]
  {
    if j > 0 {
      RowDoneFrame(s, d, f, i, j - 1, k);
      ApplyAtFrame(RowDone(s, d, f, i, j - 1), d, f, i, j - 1, k);
    }
  }

  lemma {:induction false} RowsDoneFrame(s: seq<Byte>, d: BitwiseImageData, f: PixelRule, lo: int, i: int, k: int)
    requires LayoutOk(d, |s|) && 0 <= lo <= i <= d.h && 0 <= k < |s|
    requires !Written(d, lo, i, k)
    ensures RowsDone(s, d, f, lo, i)[k] == s[k]
    decreases i - lo
  {
    if i > lo {
      var last := i - 1;
      assert !Written(d, lo, last, k);
      RowsDoneFrame(s, d, f, lo, last, k);
      forall c | 0 <= c < d.w ensures !ChannelAt(d, last, c, k) {
        assert lo <= last < i;
      }
      RowDoneFrame(RowsDone(s, d, f, lo, last), d, f, last, d.w, k);
    }
  }

  /** Where a channel byte lies: byte k of pixel (i, j) is in row i, at column
      byte j * bytesPerPixel + offset, and its offset within the pixel is one of
      the three channel offsets. */
  lemma ChannelAtDecode(d: BitwiseImageData, n: int, i: int, j: int, k: int)
    requires LayoutOk(d, n) && 0 <= i < d.h && 0 <= j < d.w && ChannelAt(d, i, j, k)
    ensures d.stride > 0
    ensures k / d.stride == i
    ensures (k % d.stride) < d.w * d.bytesPerPixel
    ensures (k % d.stride) / d.bytesPerPixel == j
    ensures (k % d.stride) % d.bytesPerPixel in {d.rOff, d.gOff, d.bOff}
  {
    PixelInBounds(d, n, i, j);
    var p := PixelBase(d, i, j);
    var off := k - p;
    assert off == d.rOff || off == d.gOff || off == d.bOff;
    var col := j * d.bytesPerPixel;
    var q := col + off;
    assert k == d.stride * i + q;
    assert 0 <= q < d.stride;
    DivModUnique(k, d.stride, i, q);
    assert q == d.bytesPerPixel * j + off;
    DivModUnique(q, d.bytesPerPixel, j, off);
    MulMono(j + 1, d.w, d.bytesPerPixel);
  }

  lemma MulMono(a: int, b: int, c: int)
    requires a <= b && c >= 0
    ensures a * c <= b * c
  {
  }

  lemma DivModUnique(k: int, m: int, i: int, q: int)
    requires m > 0 && 0 <= q < m && k == m * i + q
    ensures k / m == i && k % m == q
  {
    var a := k / m;
    if a > i {
      MulAtLeast(m, a - i);
      assert false;
    } else if a < i {
      MulAtLeast(m, i - a);
      assert false;
    }
  }

  lemma MulAtLeast(m: int, c: int)
    requires m > 0 && c >= 1
    ensures m * c >= m
  {
  }

  /** Only channel bytes change: a byte in a row outside [lo, hi), in a row's
      padding past w pixels, or at an offset that is not the red, green or blue
      offset (an alpha byte, say) keeps its value. */
  lemma OnlyChannelBytesChange(s: seq<Byte>, d: BitwiseImageData, lv: Levels, lo: int, hi: int, k: int)
    requires LayoutOk(d, |s|) && 0 <= lo && hi <= d.h && (lv.valid ==> LevelsOk(lv))
    requires d.stride > 0 && 0 <= k < |s|
    requires k / d.stride < lo || k / d.stride >= hi
             || k % d.stride >= d.w * d.bytesPerPixel
             || (k % d.stride) % d.bytesPerPixel !in {d.rOff, d.gOff, d.bOff}
    ensures Corrected(s, d, lv, lo, hi)[k] == s[k]
  {
    if lv.valid && lo < hi {
      if Written(d, lo, hi, k) {
        var i, j :| lo <= i < hi && 0 <= j < d.w && ChannelAt(d, i, j, k);
        ChannelAtDecode(d, |s|, i, j, k);
        assert false;
      }
      RowsDoneFrame(s, d, RuleFor(lv), lo, hi, k);
    }
  }

  /** Pixels do not overlap: a channel byte belongs to one pixel only. */
  lemma {:induction false} PixelOwns(d: BitwiseImageData, n: int, i: int, j: int, i2: int, j2: int, k: int)
    requires LayoutOk(d, n) && 0 <= i < d.h && 0 <= j < d.w && 0 <= i2 < d.h && 0 <= j2 < d.w
    requires ChannelAt(d, i, j, k) && ChannelAt(d, i2, j2, k)
    ensures i2 == i && j2 == j
  {
    ChannelAtDecode(d, n, i, j, k);
    ChannelAtDecode(d, n, i2, j2, k);
  }

  /** No other column of row i owns a channel byte of pixel (i, j). */
  lemma {:induction false} OwnedInRow(d: BitwiseImageData, n: int, i: int, j: int, m: int, e: int, k: int)
    requires LayoutOk(d, n) && 0 <= i < d.h && 0 <= j < d.w && ChannelAt(d, i, j, k)
    requires 0 <= m <= e <= d.w && (j < m || e <= j)
    ensures forall c :: m <= c < e ==> !ChannelAt(d, i, c, k)
  {
    forall c | m <= c < e ensures !ChannelAt(d, i, c, k) {
      if ChannelAt(d, i, c, k) {
        PixelOwns(d, n, i, j, i, c, k);
      }
    }
  }

  /** No pixel of another row owns a channel byte of pixel (i, j). */
  lemma {:induction false} OwnedInBand(d: BitwiseImageData, n: int, i: int, j: int, m: int, e: int, k: int)
    requires LayoutOk(d, n) && 0 <= i < d.h && 0 <= j < d.w && ChannelAt(d, i, j, k)
    requires 0 <= m <= e <= d.h && (i < m || e <= i)
    ensures !Written(d, m, e, k)
  {
    if Written(d, m, e, k) {
      var i2, j2 :| m <= i2 < e && 0 <= j2 < d.w && ChannelAt(d, i2, j2, k);
      PixelOwns(d, n, i, j, i2, j2, k);
    }
  }

  /** Columns m .. j-1 of row i leave a byte none of them owns as columns 0 .. m-1 left it. */
  lemma {:induction false} RowDoneTail(s: seq<Byte>, d: BitwiseImageData, f: PixelRule, i: int, m: int, j: int, k: int)
    requires LayoutOk(d, |s|) && 0 <= i < d.h && 0 <= m <= j <= d.w && 0 <= k < |s|
    requires forall c :: m <= c < j ==> !ChannelAt(d, i, c, k)
    ensures RowDone(s, d, f, i, j)[k] == RowDone(s, d, f, i, m)[k]
    decreases j - m
  {
    if j > m {
      RowDoneTail(s, d, f, i, m, j - 1, k);
      ApplyAtFrame(RowDone(s, d, f, i, j - 1), d, f, i, j - 1, k);
    }
  }

  /** Rows m .. hi-1 leave a byte none of them owns as rows lo .. m-1 left it. */
  lemma {:induction false} RowsDoneTail(s: seq<Byte>, d: BitwiseImageData, f: PixelRule, lo: int, m: int, hi: int, k: int)
    requires LayoutOk(d, |s|) && 0 <= lo <= m <= hi <= d.h && 0 <= k < |s|
    requires !Written(d, m, hi, k)
    ensures RowsDone(s, d, f, lo, hi)[k] == RowsDone(s, d, f, lo, m)[k]
    decreases hi - m
  {
    if hi > m {
      var last := hi - 1;
      assert !Written(d, m, last, k);
      RowsDoneTail(s, d, f, lo, m, last, k);
      forall c | 0 <= c < d.w ensures !ChannelAt(d, last, c, k) {
        assert m <= last < hi;
      }
      RowDoneFrame(RowsDone(s, d, f, lo, last), d, f, last, d.w, k);
    }
  }

  /** Before pixel (i, j) of the band is rewritten, its channel bytes still hold
      their original values. */
  lemma {:induction false} ChannelByteBefore(s: seq<Byte>, d: BitwiseImageData, f: PixelRule, lo: int, i: int, j: int, k: int)
    requires LayoutOk(d, |s|) && 0 <= lo <= i < d.h && 0 <= j < d.w
    requires ChannelAt(d, i, j, k)
    ensures 0 <= k < |s|
    ensures RowDone(RowsDone(s, d, f, lo, i), d, f, i, j)[k] == s[k]
  {
    PixelInBounds(d, |s|, i, j);
    OwnedInRow(d, |s|, i, j, 0, j, k);
    RowDoneFrame(RowsDone(s, d, f, lo, i), d, f, i, j, k);
    OwnedInBand(d, |s|, i, j, lo, i, k);
    RowsDoneFrame(s, d, f, lo, i, k);
  }

  /** After pixel (i, j) is rewritten, the rest of row i leaves its channel bytes alone. */
  lemma {:induction false} ChannelByteAfterInRow(t: seq<Byte>, d: BitwiseImageData, f: PixelRule, i: int, j: int, k: int)
    requires LayoutOk(d, |t|) && 0 <= i < d.h && 0 <= j < d.w
    requires ChannelAt(d, i, j, k) && 0 <= k < |t|
    ensures RowDone(t, d, f, i, d.w)[k] == RowDone(t, d, f, i, j + 1)[k]
  {
    OwnedInRow(d, |t|, i, j, j + 1, d.w, k);
    RowDoneTail(t, d, f, i, j + 1, d.w, k);
  }

  lemma {:induction false} RowDoneStep(t: seq<Byte>, d: BitwiseImageData, f: PixelRule, i: int, j: int)
    requires LayoutOk(d, |t|) && 0 <= i < d.h && 0 <= j < d.w
    ensures RowDone(t, d, f, i, j + 1) == ApplyAt(RowDone(t, d, f, i, j), d, f, i, j)
  {
  }

  /** After row i is rewritten, the later rows of the band leave its channel bytes alone. */
  lemma {:induction false} ChannelByteAfterRow(s: seq<Byte>, d: BitwiseImageData, f: PixelRule, lo: int, hi: int, i: int, j: int, k: int)
    requires LayoutOk(d, |s|) && 0 <= lo <= i < hi <= d.h && 0 <= j < d.w
    requires ChannelAt(d, i, j, k)
    ensures 0 <= k < |s|
    ensures RowsDone(s, d, f, lo, hi)[k] == RowDone(RowsDone(s, d, f, lo, i), d, f, i, d.w)[k]
  {
    PixelInBounds(d, |s|, i, j);
    OwnedInBand(d, |s|, i, j, i + 1, hi, k);
    RowsDoneTail(s, d, f, lo, i + 1, hi, k);
  }

  /** A channel byte of pixel (i, j) in the band ends as the rewrite of that
      pixel leaves it, and that rewrite reads the byte's original value. */
  lemma {:induction false} ChannelByteOfBand(s: seq<Byte>, d: BitwiseImageData, f: PixelRule, lo: int, hi: int, i: int, j: int, k: int)
    requires LayoutOk(d, |s|) && 0 <= lo <= i < hi <= d.h && 0 <= j < d.w
    requires ChannelAt(d, i, j, k)
    ensures 0 <= k < |s|
    ensures var u := RowDone(RowsDone(s, d, f, lo, i), d, f, i, j);
            u[k] == s[k] && RowsDone(s, d, f, lo, hi)[k] == ApplyAt(u, d, f, i, j)[k]
  {
    ChannelByteBefore(s, d, f, lo, i, j, k);
    ChannelByteAfterRow(s, d, f, lo, hi, i, j, k);
    ChannelByteAfterInRow(RowsDone(s, d, f, lo, i), d, f, i, j, k);
    RowDoneStep(RowsDone(s, d, f, lo, i), d, f, i, j);
  }

  /** What rewriting one pixel writes: blue last, so blue always holds its new
      value, green unless blue shares its offset, red unless either does. */
  lemma {:induction false} ApplyAtValues(u: seq<Byte>, d: BitwiseImageData, f: PixelRule, i: int, j: int)
    requires LayoutOk(d, |u|) && 0 <= i < d.h && 0 <= j < d.w
    ensures 0 <= PixelBase(d, i, j) && PixelBase(d, i, j) + d.bytesPerPixel <= |u|
    ensures var p := PixelBase(d, i, j);
            var px := f(u[p + d.rOff], u[p + d.gOff], u[p + d.bOff]);
            var t := ApplyAt(u, d, f, i, j);
            t[p + d.bOff] == px.2
            && (d.gOff != d.bOff ==> t[p + d.gOff] == px.1)
            && (d.rOff != d.gOff && d.rOff != d.bOff ==> t[p + d.rOff] == px.0)
  {
    PixelInBounds(d, |u|, i, j);
  }

  /** The value of every corrected byte: in a usable operation, pixel (i, j) of
      the band ends holding CorrectPixel of its original red, green and blue.
      The blue write comes last, so blue always holds; green holds unless it
      shares its offset with blue, red unless it shares an offset with either
      (with one byte per pixel the three coincide and the blue result stays). */
  lemma {:induction false} CorrectedAt(s: seq<Byte>, d: BitwiseImageData, lv: Levels, lo: int, hi: int, i: int, j: int)
    requires LayoutOk(d, |s|) && 0 <= lo && hi <= d.h && lv.valid && LevelsOk(lv)
    requires lo <= i < hi && 0 <= j < d.w
    ensures 0 <= PixelBase(d, i, j) && PixelBase(d, i, j) + d.bytesPerPixel <= |s|
    ensures var p := PixelBase(d, i, j);
            var px := CorrectPixel(lv, s[p + d.rOff], s[p + d.gOff], s[p + d.bOff]);
            var t := Corrected(s, d, lv, lo, hi);
            t[p + d.bOff] == px.2
            && (d.gOff != d.bOff ==> t[p + d.gOff] == px.1)
            && (d.rOff != d.gOff && d.rOff != d.bOff ==> t[p + d.rOff] == px.0)
  {
    PixelInBounds(d, |s|, i, j);
    var f := RuleFor(lv);
    var p := PixelBase(d, i, j);
    ChannelByteOfBand(s, d, f, lo, hi, i, j, p + d.rOff);
    ChannelByteOfBand(s, d, f, lo, hi, i, j, p + d.gOff);
    ChannelByteOfBand(s, d, f, lo, hi, i, j, p + d.bOff);
    var u := RowDone(RowsDone(s, d, f, lo, i), d, f, i, j);
    ApplyAtValues(u, d, f, i, j);
    assert f(u[p + d.rOff], u[p + d.gOff], u[p + d.bOff]) == CorrectPixel(lv, s[p + d.rOff], s[p + d.gOff], s[p + d.bOff]);
  }

  lemma ApplyAtIdentity(s: seq<Byte>, d: BitwiseImageData, f: PixelRule, i: int, j: int)
    requires LayoutOk(d, |s|) && 0 <= i < d.h && 0 <= j < d.w
    requires forall r, g, b :: f(r, g, b) == (r, g, b)
    ensures ApplyAt(s, d, f, i, j) == s
  {
    PixelInBounds(d, |s|, i, j);
    var p := PixelBase(d, i, j);
    var px := f(s[p + d.rOff], s[p + d.gOff], s[p + d.bOff]);
    assert px == (s[p + d.rOff], s[p + d.gOff], s[p + d.bOff]);
  }

  lemma {:induction false} RowDoneIdentity(s: seq<Byte>, d: BitwiseImageData, f: PixelRule, i: int, j: int)
    requires LayoutOk(d, |s|) && 0 <= i < d.h && 0 <= j <= d.w
    requires forall r, g, b :: f(r, g, b) == (r, g, b)
    ensures RowDone(s, d, f, i, j) == s
  {
    if j > 0 {
      RowDoneIdentity(s, d, f, i, j - 1);
      ApplyAtIdentity(s, d, f, i, j - 1);
    }
  }

  lemma {:induction false} RowsDoneIdentity(s: seq<Byte>, d: BitwiseImageData, f: PixelRule, lo: int, i: int)
    requires LayoutOk(d, |s|) && 0 <= lo <= i <= d.h
    requires forall r, g, b :: f(r, g, b) == (r, g, b)
    ensures RowsDone(s, d, f, lo, i) == s
    decreases i - lo
  {
    if i > lo {
      RowsDoneIdentity(s, d, f, lo, i - 1);
      RowDoneIdentity(s, d, f, i - 1, d.w);
    }
  }

  /** A mode other than Document and Photo rewrites every channel byte with the
      value it already had, so the buffer is unchanged. */
  lemma OtherModeKeepsBuffer(s: seq<Byte>, d: BitwiseImageData, lv: Levels, lo: int, hi: int)
    requires LayoutOk(d, |s|) && 0 <= lo && hi <= d.h && (lv.valid ==> LevelsOk(lv))
    requires lv.mode.OtherMode?
    ensures Corrected(s, d, lv, lo, hi) == s
  {
    if lv.valid && lo < hi {
      RowsDoneIdentity(s, d, RuleFor(lv), lo, hi);
    }
  }

  // ---------------------------------------------------------------------------
  // The operation

  class CorrectionOp {
    const mode: CorrectionMode
    const valid: bool
    const whitePoint: int
    const blackPoint: int
    /** The constructor's local segment array and scan results, kept for the specification. */
    ghost const segments: seq<int>
    ghost const blackSegment: int
    ghost const whiteSegment: int

    function Params(): Levels
    {
      Levels(valid, mode, blackPoint, whitePoint)
    }

    constructor (pre: PreProcessing)
      requires |pre.counts| == 256
      ensures mode == pre.mode
      ensures |segments| == 64
      ensures forall k :: 0 <= k < 64 ==>
                segments[k] == pre.counts[4 * k] + pre.counts[4 * k + 1] + pre.counts[4 * k + 2] + pre.counts[4 * k + 3]
      ensures blackSegment == BlackSegmentFrom(segments, pre.totalCount, 0)
      ensures whiteSegment == WhiteSegmentFrom(segments, pre.totalCount, 63)
      ensures valid == SegmentsUsable(blackSegment, whiteSegment)
      ensures valid ==> whitePoint == WhitePoint && blackPoint == BlackPoint
      ensures !valid ==> whitePoint == 0 && blackPoint == 0
    {
      mode := pre.mode;
      var total := pre.totalCount;
      var segs := BinSegments(pre.counts);
      segments := segs;
      var bs := ScanBlack(segs, total);
      var ws := ScanWhite(segs, total);
      blackSegment, whiteSegment := bs, ws;
      if bs > 38 || ws < 24 || bs >= ws {
        valid := false;
        whitePoint, blackPoint := 0, 0;
      } else {
        valid := true;
        whitePoint := WhitePoint;
        blackPoint := BlackPoint;
      }
    }

    /** Correct rows [partStart, partEnd) of a 1-, 3- or 4-byte-per-pixel buffer;
        any other pixel size is refused and the buffer left alone. */
    method PerformCore(data: BitwiseImageData, partStart: int, partEnd: int) returns (r: Outcome)
      requires valid ==> whitePoint == WhitePoint && blackPoint == BlackPoint
      requires data.bytesPerPixel in {1, 3, 4} ==> RegionFits(data, partStart, partEnd)
      modifies data.buffer
      ensures data.bytesPerPixel !in {1, 3, 4} ==> r == Fail("Unsupported pixel format") && unchanged(data.buffer)
      ensures data.bytesPerPixel in {1, 3, 4} ==>
                r == Pass && data.buffer[..] == Corrected(old(data.buffer[..]), data, Params(), partStart, partEnd)
    {
      if data.bytesPerPixel in {1, 3, 4} {
        PerformRgba(data, partStart, partEnd);
        r := Pass;
      } else {
        r := Fail("Unsupported pixel format");
      }
    }

    /** The per-pixel arithmetic of PerformRgba: Document mode clamps each channel
        into [black, white] and stretches it; Photo mode stretches between the
        pixel's own extremes widened to the fixed points. */
    method CorrectChannels(r0: Byte, g0: Byte, b0: Byte) returns (r: int, g: int, b: int)
      requires valid && whitePoint == WhitePoint && blackPoint == BlackPoint
      ensures 0 <= r <= 255 && 0 <= g <= 255 && 0 <= b <= 255
      ensures (r as Byte, g as Byte, b as Byte) == CorrectPixel(Params(), r0, g0, b0)
    {
      var flatten := mode == Document;
      var retainColor := mode == Photo;
      r, g, b := r0 as int, g0 as int, b0 as int;
      if flatten {
        var white := whitePoint;
        var black := blackPoint;
        if r < black { r := black; }
        if g < black { g := black; }
        if b < black { b := black; }
        if r > white { r := white; }
        if g > white { g := white; }
        if b > white { b := white; }
        r := Stretch(r, black, white);
        g := Stretch(g, black, white);
        b := Stretch(b, black, white);
        ScaleFlatten(r0 as int, black, white);
        ScaleFlatten(g0 as int, black, white);
        ScaleFlatten(b0 as int, black, white);
      }
      if retainColor {
        var min := Min3(r, g, b);
        var max := Max3(r, g, b);
        var black := if min < blackPoint then min else blackPoint;
        var white := if max > whitePoint then max else whitePoint;
        PhotoMapping(r0, g0, b0);
        r := Stretch(r, black, white);
        g := Stretch(g, black, white);
        b := Stretch(b, black, white);
      }
    }

    /** The body of PerformRgba's inner loop: correct one pixel in place. */
    method CorrectPixelAt(data: BitwiseImageData, i: int, j: int)
      requires valid && whitePoint == WhitePoint && blackPoint == BlackPoint
      requires LayoutOk(data, data.buffer.Length) && 0 <= i < data.h && 0 <= j < data.w
      modifies data.buffer
      ensures data.buffer[..] == ApplyAt(old(data.buffer[..]), data, RuleFor(Params()), i, j)
    {
      PixelInBounds(data, data.buffer.Length, i, j);
      ghost var s0 := data.buffer[..];
      var pixel := PixelBase(data, i, j);
      var r, g, b := CorrectChannels(data.buffer[pixel + data.rOff], data.buffer[pixel + data.gOff],
                                     data.buffer[pixel + data.bOff]);
      data.buffer[pixel + data.rOff] := r as Byte;
      data.buffer[pixel + data.gOff] := g as Byte;
      data.buffer[pixel + data.bOff] := b as Byte;
      assert data.buffer[..] == s0[pixel + data.rOff := r as Byte][pixel + data.gOff := g as Byte][pixel + data.bOff := b as Byte];
    }

    method PerformRgba(data: BitwiseImageData, partStart: int, partEnd: int)
      requires valid ==> whitePoint == WhitePoint && blackPoint == BlackPoint
      requires RegionFits(data, partStart, partEnd)
      modifies data.buffer
      ensures data.buffer[..] == Corrected(old(data.buffer[..]), data, Params(), partStart, partEnd)
    {
      if !valid {
        return;
      }
      ghost var s0 := data.buffer[..];
      ghost var f: PixelRule := RuleFor(Params());
      var i := partStart;
      while i < partEnd
        invariant i == partStart || partStart < i <= partEnd
        invariant data.buffer[..] == if i == partStart then s0 else RowsDone(s0, data, f, partStart, i)
      {
        CorrectRow(data, i);
        i := i + 1;
      }
    }

    /** The inner loop of PerformRgba: correct every pixel of row i, left to right. */
    method CorrectRow(data: BitwiseImageData, i: int)
      requires valid && whitePoint == WhitePoint && blackPoint == BlackPoint
      requires LayoutOk(data, data.buffer.Length) && 0 <= i < data.h
      modifies data.buffer
      ensures data.buffer[..] == RowDone(old(data.buffer[..]), data, RuleFor(Params()), i, data.w)
    {
      ghost var s0 := data.buffer[..];
      var j := 0;
      while j < data.w
        invariant 0 <= j <= data.w
        invariant data.buffer[..] == RowDone(s0, data, RuleFor(Params()), i, j)
      {
        CorrectPixelAt(data, i, j);
        j := j + 1;
      }
    }
  }
}
