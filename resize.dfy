/** `process_image` and `crop_or_pad_image`: the aspect-preserving size rule
    and the centred crop-or-pad that writes a 24-bit bitmap. */
module Resize {
  import opened Bytes
  import opened Failures
  import opened Bmp

  // ---------------------------------------------------------------- arithmetic

  function Abs(a: int): nat { if a < 0 then -a else a }

  /** Python's `int(a / b)` on exact rationals: the quotient rounded toward
      zero (Dafny's own `/` is Euclidean). */
  function TruncDiv(a: int, b: int): (q: int)
    requires b != 0
    ensures 0 <= a && 0 < b ==> q == a / b
    ensures a <= 0 && 0 < b ==> q == -((-a) / b)
  {
    var m := Abs(a) / Abs(b);
    if (a < 0) == (b < 0) then m else -m
  }

  /** For every non-zero divisor, the truncated quotient is the largest
      magnitude that fits into the dividend, with the sign of the exact
      quotient: it rounds toward zero. */
  lemma TruncDivTowardZero(a: int, b: int)
    requires b != 0
    ensures Abs(TruncDiv(a, b)) * Abs(b) <= Abs(a) < (Abs(TruncDiv(a, b)) + 1) * Abs(b)
    ensures (a < 0) == (b < 0) ==> 0 <= TruncDiv(a, b)
    ensures (a < 0) != (b < 0) ==> TruncDiv(a, b) <= 0
  {
    var m := Abs(a) / Abs(b);
    DivBounds(Abs(a), Abs(b));
    assert Abs(TruncDiv(a, b)) == m;
  }

  /** The floor quotient of naturals brackets the dividend. */
  lemma DivBounds(a: nat, b: nat)
    requires 0 < b
    ensures (a / b) * b <= a < (a / b + 1) * b
  {
    assert a == (a / b) * b + a % b;
  }

  lemma MulLeMono(a: int, b: int, c: int, d: int)
    requires 0 <= a <= c && 0 <= b <= d
    ensures a * b <= c * d
  {
    assert a * b <= c * b;
    assert c * b <= c * d;
  }

  /** a / b is the floor of a over b for a positive divisor, and lies between
      0 and a / b's bound when a is below k * b. */
  lemma FloorDiv(a: int, b: int, k: int)
    requires 0 <= a && 0 < b && 0 <= k && a <= k * b
    ensures (a / b) * b <= a < (a / b + 1) * b
    ensures 0 <= a / b <= k
  {
    var q := a / b;
    assert a == q * b + a % b;
    if q > k {
      MulLeMono(k + 1, b, q, b);
      assert false;
    }
  }

  // ---------------------------------------------------------------- size rule

  /** `width / height > 1`, decided on exact rationals: the source is wider
      than tall exactly when w - h has the sign of h. */
  predicate WiderThanTall(w: int, h: int)
    requires h != 0
    ensures WiderThanTall(w, h) <==> (w - h) * h > 0
  {
    (h > 0 && w > h) || (h < 0 && w < h)
  }

  /** The new dimensions inside the bound (tw, th): the width is pinned to tw
      for a landscape source, otherwise the height is pinned to th, and the
      other side is scaled by the source's aspect ratio and truncated. */
  function TargetSize(w: int, h: int, tw: int, th: int): (size: (int, int))
    requires h != 0
    ensures WiderThanTall(w, h) ==>
      && size.0 == tw
      && Abs(size.1) * Abs(w) <= Abs(tw * h) < (Abs(size.1) + 1) * Abs(w)
    ensures !WiderThanTall(w, h) ==>
      && size.1 == th
      && Abs(size.0) * Abs(h) <= Abs(th * w) < (Abs(size.0) + 1) * Abs(h)
  {
    if WiderThanTall(w, h) then
      TruncDivTowardZero(tw * h, w);
      (tw, TruncDiv(tw * h, w))
    else
      TruncDivTowardZero(th * w, h);
      (TruncDiv(th * w, h), th)
  }

  /** Landscape source: width tw, height the floor of tw * h / w, at most tw. */
  lemma TargetSizeWide(w: int, h: int, tw: int, th: int)
    requires 0 < h < w && 0 <= tw
    ensures var (nw, nh) := TargetSize(w, h, tw, th);
      && nw == tw
      && nh * w <= tw * h < (nh + 1) * w
      && 0 <= nh <= tw
  {
    MulLeMono(tw, h, tw, w);
    FloorDiv(tw * h, w, tw);
  }

  /** Portrait or square source: height th, width the floor of th * w / h, at
      most th. */
  lemma TargetSizeTall(w: int, h: int, tw: int, th: int)
    requires 0 < w <= h && 0 <= th
    ensures var (nw, nh) := TargetSize(w, h, tw, th);
      && nh == th
      && nw * h <= th * w < (nw + 1) * h
      && 0 <= nw <= th
  {
    MulLeMono(th, w, th, h);
    FloorDiv(th * w, h, th);
  }

  /** A square source fills the bound's height in both directions. */
  lemma TargetSizeSquare(w: int, tw: int, th: int)
    requires 0 < w && 0 <= th
    ensures TargetSize(w, w, tw, th) == (th, th)
  {
    assert (th * w) / w == th by {
      FloorDiv(th * w, w, th);
      if (th * w) / w < th {
        MulLeMono((th * w) / w + 1, w, th, w);
      }
    }
  }

  /** q * b <= k * c with k <= b forces q <= c. */
  lemma QuotientBound(q: int, b: int, k: int, c: int)
    requires 0 < b && 0 <= c && 0 <= k <= b && q * b <= k * c
    ensures q <= c
  {
    if q > c {
      MulLeMono(c + 1, b, q, b);
      MulLeMono(k, c, b, c);
      assert false;
    }
  }

  /** When the pinned side does not exceed the source, the target fits inside
      the source, so crop-or-pad only crops. */
  lemma TargetFitsSource(w: int, h: int, tw: int, th: int)
    requires 0 < w && 0 < h && 0 <= tw && 0 <= th
    requires w > h ==> tw <= w
    requires w <= h ==> th <= h
    ensures var (nw, nh) := TargetSize(w, h, tw, th);
      0 <= nw <= w && 0 <= nh <= h
  {
    if w > h {
      TargetSizeWide(w, h, tw, th);
      var nh := TargetSize(w, h, tw, th).1;
      assert tw * h == h * tw;
      QuotientBound(nh, w, tw, h);
    } else {
      TargetSizeTall(w, h, tw, th);
      var nw := TargetSize(w, h, tw, th).0;
      assert th * w == w * th;
      QuotientBound(nw, h, th, w);
    }
  }

  // ---------------------------------------------------------------- crop or pad

  /** How an ow by oh source is laid over an nw by nh output: output pixel
      (x, y) looks at source pixel (x + Left(), y + Top()).  Both offsets use
      Python's floor division `//`, which Dafny's `/` agrees with for the
      divisor 2. */
  datatype Geometry = Geometry(ow: int, oh: int, nw: int, nh: int)
  {
    function Left(): int { (ow - nw) / 2 }
    function Top(): int { (oh - nh) / 2 }

    /** The only bounds test the loop makes: upper bounds, no lower bounds. */
    predicate Copies(x: int, y: int) { x + Left() < ow && y + Top() < oh }

    /** Where the copy branch starts reading in the input buffer. */
    function SourceOffset(x: int, y: int): int { PixelOffset(ow, x + Left(), y + Top()) }
  }

  /** Offset of pixel (x, y) in a buffer of rows `width` pixels wide that
      starts with the 54-byte header. */
  function PixelOffset(width: int, x: int, y: int): int
  {
    HeaderSize + 3 * (y * width + x)
  }

  const White: seq<Byte> := [0xFF, 0xFF, 0xFF]

  /** Number of iterations of `range(n)`. */
  function Count(n: int): nat { if n > 0 then n else 0 }

  /** The bytes written for output pixel (x, y): a 3-byte Python slice of the
      input when the bounds test passes, white otherwise. */
  function Pixel(data: seq<Byte>, g: Geometry, x: int, y: int): seq<Byte>
  {
    if g.Copies(x, y) then PySlice(data, g.SourceOffset(x, y), g.SourceOffset(x, y) + 3)
    else White
  }

  /** The bytes written for the first n pixels of output row y. */
  function Row(data: seq<Byte>, g: Geometry, y: int, n: nat): seq<Byte>
  {
    if n == 0 then [] else Row(data, g, y, n - 1) + Pixel(data, g, n - 1, y)
  }

  /** The bytes written for the first m output rows. */
  function Rows(data: seq<Byte>, g: Geometry, m: nat): seq<Byte>
  {
    if m == 0 then [] else Rows(data, g, m - 1) + Row(data, g, m - 1, Count(g.nw))
  }

  /** What `crop_or_pad_image` returns: the header, then every output row. */
  function CroppedOrPadded(data: seq<Byte>, g: Geometry): (r: Result<seq<Byte>>)
    ensures r.Ok? <==> HeaderFits(g.nw, g.nh)
    ensures r.Err? ==> r.error == PackOutOfRange
    ensures r.Ok? ==> HeaderSize <= |r.value|
  {
    match Header(g.nw, g.nh)
    case Err(e) => Err(e)
    case Ok(h) => Ok(h + Rows(data, g, Count(g.nh)))
  }

  /** `crop_or_pad_image`: the header, then a nested loop that appends one
      3-byte pixel per output position, row by row. */
  method CropOrPad(data: seq<Byte>, g: Geometry) returns (r: Result<seq<Byte>>)
    ensures r == CroppedOrPadded(data, g)
  {
    var header := Header(g.nw, g.nh);
    if header.Err? {
      return Err(header.error);
    }
    ghost var h := header.value;
    var output := header.value;
    var y := 0;
    while y < g.nh
      invariant 0 <= y <= Count(g.nh)
      invariant output == h + Rows(data, g, y)
    {
      var row := WriteRow(data, g, y);
      AppendAssoc(h, Rows(data, g, y), row);
      output := output + row;
      y := y + 1;
    }
    r := Ok(output);
  }

  /** The inner loop of `crop_or_pad_image`: the pixels of output row y, left
      to right. */
  method WriteRow(data: seq<Byte>, g: Geometry, y: int) returns (row: seq<Byte>)
    ensures row == Row(data, g, y, Count(g.nw))
  {
    var left, top := g.Left(), g.Top();
    row := [];
    var x := 0;
    while x < g.nw
      invariant 0 <= x <= Count(g.nw)
      invariant row == Row(data, g, y, x)
    {
      var pixel: seq<Byte>;
      if x + left < g.ow && y + top < g.oh {
        var start := PixelOffset(g.ow, x + left, y + top);
        assert g.Copies(x, y) && start == g.SourceOffset(x, y);
        pixel := PySlice(data, start, start + 3);
      } else {
        pixel := White;
      }
      assert Row(data, g, y, x + 1) == row + pixel;
      row := row + pixel;
      x := x + 1;
    }
  }

  /** Whatever the pixels, a written output begins with the 54-byte header
      for the target size. */
  lemma OutputStartsWithHeader(data: seq<Byte>, g: Geometry)
    requires HeaderFits(g.nw, g.nh)
    ensures CroppedOrPadded(data, g).Ok?
    ensures CroppedOrPadded(data, g).value[..HeaderSize] == Header(g.nw, g.nh).value
  {
    SliceOfConcat(Header(g.nw, g.nh).value, Rows(data, g, Count(g.nh)), 0, HeaderSize);
  }

  // ---------------------------------------------------------------- output layout

  /** Every pixel the loop writes is 3 bytes long: the copy branch never
      reads past the end of the input or across a negative-index wrap that
      Python's slicing would shorten. */
  predicate AllPixelsFull(data: seq<Byte>, g: Geometry)
  {
    forall x, y :: 0 <= x < g.nw && 0 <= y < g.nh ==> |Pixel(data, g, x, y)| == 3
  }

  lemma {:induction false} RowLength(data: seq<Byte>, g: Geometry, y: int, n: nat)
    requires AllPixelsFull(data, g) && 0 <= y < g.nh && n <= Count(g.nw)
    ensures |Row(data, g, y, n)| == 3 * n
  {
    if n > 0 {
      RowLength(data, g, y, n - 1);
    }
  }

  lemma {:induction false} PixelInRow(data: seq<Byte>, g: Geometry, y: int, n: nat, x: int)
    requires AllPixelsFull(data, g) && 0 <= y < g.nh && n <= Count(g.nw)
    requires 0 <= x < n
    ensures 3 * x + 3 <= |Row(data, g, y, n)|
    ensures Row(data, g, y, n)[3 * x..3 * x + 3] == Pixel(data, g, x, y)
  {
    var prev, p := Row(data, g, y, n - 1), Pixel(data, g, n - 1, y);
    RowLength(data, g, y, n - 1);
    if x < n - 1 {
      PixelInRow(data, g, y, n - 1, x);
    }
    SliceOfConcat(prev, p, 3 * x, 3 * x + 3);
  }

  /** Offset of row y among the pixel bytes when every row holds n 3-byte
      pixels. */
  function RowStart(n: nat, y: nat): nat
  {
    if y == 0 then 0 else RowStart(n, y - 1) + 3 * n
  }

  lemma {:induction false} RowStartIsProduct(n: nat, y: nat)
    ensures RowStart(n, y) == 3 * (y * n)
  {
    if y > 0 {
      RowStartIsProduct(n, y - 1);
      assert (y - 1) * n + n == y * n;
    }
  }

  lemma {:induction false} RowStartGrows(n: nat, y: nat, z: nat)
    requires y < z
    ensures RowStart(n, y) + 3 * n <= RowStart(n, z)
  {
    if y < z - 1 {
      RowStartGrows(n, y, z - 1);
    }
  }

  lemma {:induction false} RowsLength(data: seq<Byte>, g: Geometry, m: nat)
    requires AllPixelsFull(data, g) && m <= Count(g.nh)
    ensures |Rows(data, g, m)| == RowStart(Count(g.nw), m)
  {
    if m > 0 {
      RowsLength(data, g, m - 1);
      RowLength(data, g, m - 1, Count(g.nw));
    }
  }

  lemma {:induction false} RowInRows(data: seq<Byte>, g: Geometry, m: nat, y: int)
    requires AllPixelsFull(data, g) && m <= Count(g.nh)
    requires 0 <= y < m
    ensures RowStart(Count(g.nw), y) + 3 * Count(g.nw) <= |Rows(data, g, m)|
    ensures Rows(data, g, m)[RowStart(Count(g.nw), y)..RowStart(Count(g.nw), y) + 3 * Count(g.nw)]
            == Row(data, g, y, Count(g.nw))
  {
    var n := Count(g.nw);
    var prev, row := Rows(data, g, m - 1), Row(data, g, m - 1, n);
    RowsLength(data, g, m - 1);
    RowLength(data, g, m - 1, n);
    if y < m - 1 {
      RowInRows(data, g, m - 1, y);
      RowStartGrows(n, y, m - 1);
    }
    SliceOfConcat(prev, row, RowStart(n, y), RowStart(n, y) + 3 * n);
  }

  /** Pixel (x, y) of the pixel bytes, when every written pixel is 3 bytes. */
  lemma PixelInRows(data: seq<Byte>, g: Geometry, x: int, y: int)
    requires AllPixelsFull(data, g)
    requires 0 <= x < g.nw && 0 <= y < g.nh
    ensures 3 * (y * g.nw + x) + 3 <= |Rows(data, g, Count(g.nh))|
    ensures Rows(data, g, Count(g.nh))[3 * (y * g.nw + x)..3 * (y * g.nw + x) + 3] == Pixel(data, g, x, y)
  {
    var n := Count(g.nw);
    var rows, start := Rows(data, g, Count(g.nh)), RowStart(n, y);
    RowInRows(data, g, Count(g.nh), y);
    RowLength(data, g, y, n);
    PixelInRow(data, g, y, n, x);
    assert 3 * (y * g.nw + x) == start + 3 * x by {
      assert n == g.nw;
      RowStartIsProduct(n, y);
    }
    SliceOfSlice(rows, start, start + 3 * n, 3 * x, 3 * x + 3);
  }

  lemma RowsLengthIsPixelBytes(data: seq<Byte>, g: Geometry)
    requires 0 <= g.nw && 0 <= g.nh && AllPixelsFull(data, g)
    ensures |Rows(data, g, Count(g.nh))| == PixelBytes(g.nw, g.nh)
  {
    RowsLength(data, g, Count(g.nh));
    RowStartIsProduct(Count(g.nw), Count(g.nh));
    assert 3 * (g.nh * g.nw) == PixelBytes(g.nw, g.nh);
  }

  lemma PixelAfterHeader(data: seq<Byte>, g: Geometry, h: seq<Byte>, x: int, y: int)
    requires |h| == HeaderSize && AllPixelsFull(data, g)
    requires 0 <= x < g.nw && 0 <= y < g.nh
    ensures PixelOffset(g.nw, x, y) + 3 <= |h + Rows(data, g, Count(g.nh))|
    ensures (h + Rows(data, g, Count(g.nh)))[PixelOffset(g.nw, x, y)..PixelOffset(g.nw, x, y) + 3]
            == Pixel(data, g, x, y)
  {
    var i := 3 * (y * g.nw + x);
    PixelInRows(data, g, x, y);
    SliceOfConcat(h, Rows(data, g, Count(g.nh)), HeaderSize + i, HeaderSize + i + 3);
  }

  /** The pixel bytes after any 54-byte header, when every written pixel is
      3 bytes: nw * nh pixels in row-major order. */
  lemma PixelsAfterHeader(data: seq<Byte>, g: Geometry, h: seq<Byte>)
    requires 0 <= g.nw && 0 <= g.nh && |h| == HeaderSize
    requires AllPixelsFull(data, g)
    ensures |h + Rows(data, g, Count(g.nh))| == HeaderSize + PixelBytes(g.nw, g.nh)
    ensures forall x, y :: 0 <= x < g.nw && 0 <= y < g.nh ==>
      && PixelOffset(g.nw, x, y) + 3 <= |h + Rows(data, g, Count(g.nh))|
      && (h + Rows(data, g, Count(g.nh)))[PixelOffset(g.nw, x, y)..PixelOffset(g.nw, x, y) + 3]
         == Pixel(data, g, x, y)
  {
    RowsLengthIsPixelBytes(data, g);
    forall x, y | 0 <= x < g.nw && 0 <= y < g.nh
      ensures PixelOffset(g.nw, x, y) + 3 <= |h + Rows(data, g, Count(g.nh))|
      ensures (h + Rows(data, g, Count(g.nh)))[PixelOffset(g.nw, x, y)..PixelOffset(g.nw, x, y) + 3]
              == Pixel(data, g, x, y)
    {
      PixelAfterHeader(data, g, h, x, y);
    }
  }

  /** When every written pixel is 3 bytes, the output is the header followed
      by exactly nw * nh pixels in row-major order, and pixel (x, y) is white
      exactly when the upper-bounds test fails, a slice of the input at the
      source offset otherwise. */
  lemma OutputLayout(data: seq<Byte>, g: Geometry)
    requires 0 <= g.nw && 0 <= g.nh
    requires AllPixelsFull(data, g) && HeaderFits(g.nw, g.nh)
    ensures CroppedOrPadded(data, g).Ok?
    ensures var out := CroppedOrPadded(data, g).value;
      && |out| == HeaderSize + PixelBytes(g.nw, g.nh)
      && out[..HeaderSize] == Header(g.nw, g.nh).value
      && forall x, y :: 0 <= x < g.nw && 0 <= y < g.nh ==>
           && PixelOffset(g.nw, x, y) + 3 <= |out|
           && (g.Copies(x, y) ==>
                 out[PixelOffset(g.nw, x, y)..PixelOffset(g.nw, x, y) + 3]
                 == PySlice(data, g.SourceOffset(x, y), g.SourceOffset(x, y) + 3))
           && (!g.Copies(x, y) ==> out[PixelOffset(g.nw, x, y)..PixelOffset(g.nw, x, y) + 3] == White)
  {
    var h := Header(g.nw, g.nh).value;
    PixelsAfterHeader(data, g, h);
    SliceOfConcat(h, Rows(data, g, Count(g.nh)), 0, HeaderSize);
  }

  // ---------------------------------------------------------------- short pixels

  /** No written pixel is longer than 3 bytes. */
  lemma PixelAtMostThree(data: seq<Byte>, g: Geometry, x: int, y: int)
    ensures |Pixel(data, g, x, y)| <= 3
  {
    if g.Copies(x, y) {
      var start := g.SourceOffset(x, y);
      assert |PySlice(data, start, start + 3)| <= 3;
    }
  }

  /** A row of n pixels is at most 3 * n bytes. */
  lemma {:induction false} RowAtMost(data: seq<Byte>, g: Geometry, y: int, n: nat)
    ensures |Row(data, g, y, n)| <= 3 * n
  {
    if n > 0 {
      assert Row(data, g, y, n) == Row(data, g, y, n - 1) + Pixel(data, g, n - 1, y);
      RowAtMost(data, g, y, n - 1);
      PixelAtMostThree(data, g, n - 1, y);
    }
  }

  /** A row of n pixels falls short of 3 * n bytes when one of its pixels is
      shorter than 3 bytes. */
  lemma {:induction false} RowShort(data: seq<Byte>, g: Geometry, y: int, n: nat, x: int)
    requires 0 <= x < n && |Pixel(data, g, x, y)| < 3
    ensures |Row(data, g, y, n)| < 3 * n
  {
    assert Row(data, g, y, n) == Row(data, g, y, n - 1) + Pixel(data, g, n - 1, y);
    if x == n - 1 {
      RowAtMost(data, g, y, n - 1);
    } else {
      RowShort(data, g, y, n - 1, x);
      PixelAtMostThree(data, g, n - 1, y);
    }
  }

  /** The first m rows are at most m row widths long. */
  lemma {:induction false} RowsAtMost(data: seq<Byte>, g: Geometry, m: nat)
    ensures |Rows(data, g, m)| <= RowStart(Count(g.nw), m)
  {
    if m > 0 {
      var n := Count(g.nw);
      assert Rows(data, g, m) == Rows(data, g, m - 1) + Row(data, g, m - 1, n);
      RowsAtMost(data, g, m - 1);
      RowAtMost(data, g, m - 1, n);
    }
  }

  /** The first m rows fall short of m row widths when one of their pixels is
      shorter than 3 bytes. */
  lemma {:induction false} RowsShort(data: seq<Byte>, g: Geometry, m: nat, x: int, y: int)
    requires 0 <= y < m && 0 <= x < Count(g.nw) && |Pixel(data, g, x, y)| < 3
    ensures |Rows(data, g, m)| < RowStart(Count(g.nw), m)
  {
    var n := Count(g.nw);
    assert Rows(data, g, m) == Rows(data, g, m - 1) + Row(data, g, m - 1, n);
    assert RowStart(n, m) == RowStart(n, m - 1) + 3 * n;
    if y == m - 1 {
      RowsAtMost(data, g, m - 1);
      RowShort(data, g, m - 1, n, x);
    } else {
      RowsShort(data, g, m - 1, x, y);
      RowAtMost(data, g, m - 1, n);
    }
  }

  /** The output is never longer than the file size its header announces,
      and falls short of it as soon as one written pixel is shorter than 3
      bytes. */
  lemma OutputShortfall(data: seq<Byte>, g: Geometry, x: int, y: int)
    requires HeaderFits(g.nw, g.nh)
    ensures CroppedOrPadded(data, g).Ok?
    ensures |CroppedOrPadded(data, g).value| <= HeaderSize + PixelBytes(g.nw, g.nh)
    ensures 0 <= x < g.nw && 0 <= y < g.nh && |Pixel(data, g, x, y)| < 3 ==>
      |CroppedOrPadded(data, g).value| < HeaderSize + PixelBytes(g.nw, g.nh)
  {
    var n, m := Count(g.nw), Count(g.nh);
    var h, rows := Header(g.nw, g.nh).value, Rows(data, g, m);
    assert CroppedOrPadded(data, g).value == h + rows;
    RowsAtMost(data, g, m);
    if 0 <= x < g.nw && 0 <= y < g.nh && |Pixel(data, g, x, y)| < 3 {
      RowsShort(data, g, m, x, y);
    }
    assert RowStart(n, m) <= PixelBytes(g.nw, g.nh) by {
      RowStartIsProduct(n, m);
      if 0 <= g.nw && 0 <= g.nh {
        assert m * n == g.nh * g.nw;
      } else {
        assert m == 0 || n == 0;
      }
    }
  }

  // ---------------------------------------------------------------- the crop case

  /** The target fits inside the source and the input holds all of its
      pixels. */
  predicate IsCrop(data: seq<Byte>, g: Geometry)
  {
    0 <= g.nw <= g.ow && 0 <= g.nh <= g.oh && HeaderSize + 3 * (g.ow * g.oh) <= |data|
  }

  /** In the crop case every output pixel lies inside the source image, takes
      the copy branch, and is the 3 source bytes at its centred position. */
  lemma CropPixel(data: seq<Byte>, g: Geometry, x: int, y: int)
    requires IsCrop(data, g)
    requires 0 <= x < g.nw && 0 <= y < g.nh
    ensures 0 <= x + g.Left() < g.ow && 0 <= y + g.Top() < g.oh
    ensures g.Copies(x, y)
    ensures HeaderSize <= g.SourceOffset(x, y) && g.SourceOffset(x, y) + 3 <= |data|
    ensures Pixel(data, g, x, y) == data[g.SourceOffset(x, y)..g.SourceOffset(x, y) + 3]
  {
    var sx, sy := x + g.Left(), y + g.Top();
    MulLeMono(0, 0, sy, g.ow);
    MulLeMono(sy, g.ow, g.oh - 1, g.ow);
    assert (g.oh - 1) * g.ow + g.ow == g.ow * g.oh;
  }

  /** In the crop case the output is exactly the header followed by nw * nh
      pixels, each copied from the centred window of the source; no pixel is
      white-filled. */
  lemma CropOutput(data: seq<Byte>, g: Geometry)
    requires IsCrop(data, g) && HeaderFits(g.nw, g.nh)
    ensures CroppedOrPadded(data, g).Ok?
    ensures var out := CroppedOrPadded(data, g).value;
      && |out| == HeaderSize + PixelBytes(g.nw, g.nh)
      && out[..HeaderSize] == Header(g.nw, g.nh).value
      && forall x, y :: 0 <= x < g.nw && 0 <= y < g.nh ==>
           && g.Copies(x, y)
           && PixelOffset(g.nw, x, y) + 3 <= |out|
           && HeaderSize <= g.SourceOffset(x, y) && g.SourceOffset(x, y) + 3 <= |data|
           && out[PixelOffset(g.nw, x, y)..PixelOffset(g.nw, x, y) + 3]
              == data[g.SourceOffset(x, y)..g.SourceOffset(x, y) + 3]
  {
    forall x, y | 0 <= x < g.nw && 0 <= y < g.nh
      ensures |Pixel(data, g, x, y)| == 3
    {
      CropPixel(data, g, x, y);
    }
    OutputLayout(data, g);
    forall x, y | 0 <= x < g.nw && 0 <= y < g.nh
      ensures g.Copies(x, y)
      ensures HeaderSize <= g.SourceOffset(x, y) && g.SourceOffset(x, y) + 3 <= |data|
      ensures PySlice(data, g.SourceOffset(x, y), g.SourceOffset(x, y) + 3)
              == data[g.SourceOffset(x, y)..g.SourceOffset(x, y) + 3]
    {
      CropPixel(data, g, x, y);
    }
  }

  // ---------------------------------------------------------------- process_image

  /** What `process_image` returns for a bound of (tw, th): the dimensions
      read from the input, the scaled target size, then crop-or-pad.  Too
      short an input fails the read, a zero height fails the aspect-ratio
      division, and a target size whose header fields do not fit their
      formats fails the header write. */
  function Resized(data: seq<Byte>, tw: int, th: int): (r: Result<seq<Byte>>)
    ensures |data| < 24 <==> r == Err(ShortHeader)
    ensures r == Err(ZeroDivision) <==> 24 <= |data| && ReadDims(data).value.height == 0
    ensures 24 <= |data| && ReadDims(data).value.height != 0 ==>
      var d := ReadDims(data).value;
      var size := TargetSize(d.width, d.height, tw, th);
      && (r.Ok? <==> HeaderFits(size.0, size.1))
      && (r.Err? ==> r.error == PackOutOfRange)
    ensures r.Ok? ==> HeaderSize <= |r.value|
  {
    match ReadDims(data)
    case Err(e) => Err(e)
    case Ok(d) =>
      if d.height == 0 then Err(ZeroDivision)
      else
        var (nw, nh) := TargetSize(d.width, d.height, tw, th);
        CroppedOrPadded(data, Geometry(d.width, d.height, nw, nh))
  }

  /** `process_image(image_data, (tw, th))`: read the dimensions, apply the
      size rule, and run the crop-or-pad loop. */
  method ProcessImage(data: seq<Byte>, tw: int, th: int) returns (r: Result<seq<Byte>>)
    ensures r == Resized(data, tw, th)
  {
    var dims := ReadDims(data);
    if dims.Err? {
      return Err(dims.error);
    }
    var d := dims.value;
    if d.height == 0 {
      return Err(ZeroDivision);
    }
    var size := TargetSize(d.width, d.height, tw, th);
    r := CropOrPad(data, Geometry(d.width, d.height, size.0, size.1));
  }

  /** A resized image got past the dimension read and the division, its
      target size fits the header, and it begins with the header for that
      size. */
  lemma ResizedStartsWithHeader(data: seq<Byte>, tw: int, th: int)
    ensures Resized(data, tw, th).Ok? ==> 24 <= |data| && ReadDims(data).value.height != 0
    ensures Resized(data, tw, th).Ok? ==>
      var d := ReadDims(data).value;
      var size := TargetSize(d.width, d.height, tw, th);
      && HeaderFits(size.0, size.1)
      && Resized(data, tw, th).value[..HeaderSize] == Header(size.0, size.1).value
  {
    if Resized(data, tw, th).Ok? {
      var d := ReadDims(data).value;
      var size := TargetSize(d.width, d.height, tw, th);
      OutputStartsWithHeader(data, Geometry(d.width, d.height, size.0, size.1));
    }
  }

  /** A well-formed input whose pinned side does not exceed the source, and
      whose pixels are all present, is resized by pure cropping: the target
      size fits inside the source and the output is the crop-or-pad of that
      geometry, so `CropOutput` describes every output byte. */
  lemma ResizedCrops(data: seq<Byte>, tw: int, th: int)
    requires 24 <= |data|
    requires var d := ReadDims(data).value;
      && 0 < d.width && 0 < d.height && 0 <= tw && 0 <= th
      && (d.width > d.height ==> tw <= d.width)
      && (d.width <= d.height ==> th <= d.height)
      && HeaderSize + 3 * (d.width * d.height) <= |data|
      && HeaderSize + 3 * (d.width * d.height) < Two31
    ensures var d := ReadDims(data).value;
      var size := TargetSize(d.width, d.height, tw, th);
      var g := Geometry(d.width, d.height, size.0, size.1);
      && IsCrop(data, g)
      && HeaderFits(size.0, size.1)
      && Resized(data, tw, th) == CroppedOrPadded(data, g)
      && Resized(data, tw, th).Ok?
  {
    var d := ReadDims(data).value;
    var size := TargetSize(d.width, d.height, tw, th);
    var nw, nh := size.0, size.1;
    var g := Geometry(d.width, d.height, nw, nh);
    TargetFitsSource(d.width, d.height, tw, th);
    assert IsCrop(data, g);
    assert HeaderFits(nw, nh) by {
      var p := nw * nh;
      MulLeMono(0, 0, nw, nh);
      MulLeMono(nw, nh, d.width, d.height);
      assert 0 <= p <= d.width * d.height;
      assert PixelBytes(nw, nh) == 3 * p;
      assert IsInt32(d.width) && IsInt32(d.height);
    }
    assert Resized(data, tw, th) == CroppedOrPadded(data, g);
  }

  // ---------------------------------------------------------------- worked cases

  /** A 200 by 100 source bounded by 100 by 100 becomes 100 by 50, taken from
      the centre: 50 columns are dropped on the left and 25 rows on top. */
  lemma LandscapeExample()
    ensures TargetSize(200, 100, 100, 100) == (100, 50)
    ensures Geometry(200, 100, 100, 50).Left() == 50
    ensures Geometry(200, 100, 100, 50).Top() == 25
  {
  }

  /** An all-black 200 by 100 source whose dimensions are stored big-endian at
      offsets 16..24 resizes to a 100 by 50 image, all of whose pixels are
      black. */
  lemma BlackImageExample(data: seq<Byte>)
    requires |data| == HeaderSize + 3 * 200 * 100
    requires data[16..24] == [0, 0, 0, 200, 0, 0, 0, 100]
    requires forall i :: HeaderSize <= i < |data| ==> data[i] == 0
    ensures Resized(data, 100, 100).Ok?
    ensures var out := Resized(data, 100, 100).value;
      && |out| == HeaderSize + 3 * 100 * 50
      && forall x, y :: 0 <= x < 100 && 0 <= y < 50 ==>
           out[PixelOffset(100, x, y)..PixelOffset(100, x, y) + 3] == [0, 0, 0]
  {
    assert ReadDims(data) == Ok(Dims(200, 100)) by {
      SliceOfSlice(data, 16, 24, 0, 4);
      SliceOfSlice(data, 16, 24, 4, 8);
      assert data[16..20] == [0, 0, 0, 200] && data[20..24] == [0, 0, 0, 100];
      UnpackBE4(0, 0, 0, 200);
      UnpackBE4(0, 0, 0, 100);
    }
    var g := Geometry(200, 100, 100, 50);
    assert Resized(data, 100, 100) == CroppedOrPadded(data, g) && IsCrop(data, g)
        && HeaderFits(100, 50) by {
      ResizedCrops(data, 100, 100);
    }
    CropOutput(data, g);
    var out := CroppedOrPadded(data, g).value;
    forall x, y | 0 <= x < 100 && 0 <= y < 50
      ensures out[PixelOffset(100, x, y)..PixelOffset(100, x, y) + 3] == [0, 0, 0]
    {
      CropPixel(data, g, x, y);
      assert data[g.SourceOffset(x, y)..g.SourceOffset(x, y) + 3] == [0, 0, 0];
    }
  }

  /** Enlarging reads outside the source: the loop tests only upper bounds, so
      for a 1 by 1 source padded to 3 by 3 output pixel (x, y) looks at source
      position (x - 1, y - 1).  The four pixels with x < 2 and y < 2 take the
      copy branch; the top-left one copies bytes 48..51, which lie in the
      input's header, and only (1, 1) copies the source pixel.  The right
      column and the bottom row are white. */
  lemma UpscaleReadsHeader(data: seq<Byte>)
    requires HeaderSize + 3 <= |data|
    ensures var g := Geometry(1, 1, 3, 3);
      && g.Left() == -1 && g.Top() == -1
      && CroppedOrPadded(data, g).Ok?
      && var out := CroppedOrPadded(data, g).value;
      && |out| == HeaderSize + 27
      && (forall x, y :: 0 <= x < 3 && 0 <= y < 3 ==>
            out[PixelOffset(3, x, y)..PixelOffset(3, x, y) + 3]
            == if x < 2 && y < 2 then data[HeaderSize + 3 * (x + y - 2)..HeaderSize + 3 * (x + y - 2) + 3]
               else White)
      && out[HeaderSize..HeaderSize + 3] == data[48..51]
      && out[PixelOffset(3, 1, 1)..PixelOffset(3, 1, 1) + 3] == data[HeaderSize..HeaderSize + 3]
  {
    var g := Geometry(1, 1, 3, 3);
    forall x, y | 0 <= x < 3 && 0 <= y < 3
      ensures g.Copies(x, y) <==> x < 2 && y < 2
      ensures g.Copies(x, y) ==> Pixel(data, g, x, y) == data[HeaderSize + 3 * (x + y - 2)..HeaderSize + 3 * (x + y - 2) + 3]
      ensures |Pixel(data, g, x, y)| == 3
    {
      if g.Copies(x, y) {
        assert g.SourceOffset(x, y) == HeaderSize + 3 * (x + y - 2);
      }
    }
    OutputLayout(data, g);
    assert PixelOffset(3, 0, 0) == HeaderSize && PixelOffset(3, 1, 1) == HeaderSize + 12;
  }

  /** Enlarging a small image into the bound takes the copy branch at negative
      buffer offsets, where Python's slicing counts from the end of the input
      or comes back empty.  A complete 2 by 1 image becomes 100 by 50 with
      left -49 and top -25; in the only source row, output pixel (29, 25)
      reads 6 bytes before the end of the input (its first pixel) and pixel
      (30, 25) writes nothing, so the output falls short of the size its
      header announces. */
  lemma EnlargeWrapsNegativeOffsets(data: seq<Byte>)
    requires |data| == HeaderSize + 3 * 2 * 1
    requires data[16..24] == [0, 0, 0, 2, 0, 0, 0, 1]
    ensures var g := Geometry(2, 1, 100, 50);
      && TargetSize(2, 1, 100, 100) == (100, 50)
      && Resized(data, 100, 100) == CroppedOrPadded(data, g)
      && g.Left() == -49 && g.Top() == -25
      && g.Copies(29, 25) && g.SourceOffset(29, 25) == -6
      && Pixel(data, g, 29, 25) == data[|data| - 6..|data| - 3]
      && g.Copies(30, 25) && g.SourceOffset(30, 25) == -3
      && Pixel(data, g, 30, 25) == []
      && !AllPixelsFull(data, g)
      && Resized(data, 100, 100).Ok?
      && |Resized(data, 100, 100).value| < HeaderSize + PixelBytes(100, 50)
  {
    assert ReadDims(data) == Ok(Dims(2, 1)) by {
      SliceOfSlice(data, 16, 24, 0, 4);
      SliceOfSlice(data, 16, 24, 4, 8);
      assert data[16..20] == [0, 0, 0, 2] && data[20..24] == [0, 0, 0, 1];
      UnpackBE4(0, 0, 0, 2);
      UnpackBE4(0, 0, 0, 1);
    }
    var g := Geometry(2, 1, 100, 50);
    assert TargetSize(2, 1, 100, 100) == (100, 50);
    assert g.SourceOffset(30, 25) == -3;
    assert Pixel(data, g, 30, 25) == [];
    OutputShortfall(data, g, 30, 25);
  }

  /** A truncated input is not rejected: a 1 by 1 image with no pixel bytes
      after its header yields just a header, which still announces 3 bytes of
      pixel data. */
  lemma TruncatedInputExample(data: seq<Byte>)
    requires |data| == HeaderSize
    ensures var g := Geometry(1, 1, 1, 1);
      && CroppedOrPadded(data, g).Ok?
      && |CroppedOrPadded(data, g).value| == HeaderSize
      && UnpackLE(CroppedOrPadded(data, g).value[34..38]) == 3
  {
    var g := Geometry(1, 1, 1, 1);
    var h := Header(1, 1).value;
    assert CroppedOrPadded(data, g) == Ok(h) by {
      assert Pixel(data, g, 0, 0) == [];
      assert Row(data, g, 0, 1) == Row(data, g, 0, 0) + Pixel(data, g, 0, 0);
      assert Rows(data, g, 1) == Rows(data, g, 0) + Row(data, g, 0, 1);
      assert Rows(data, g, 1) == [];
      assert h + [] == h;
    }
    assert UnpackLE(h[34..38]) == 3 by {
      HeaderLayout(1, 1);
    }
  }
}
