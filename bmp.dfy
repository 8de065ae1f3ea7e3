/** The 54-byte Windows bitmap header the resizer writes (a 14-byte
    BITMAPFILEHEADER followed by a 40-byte BITMAPINFOHEADER), and the way the
    resizer reads an image's dimensions back from its input. */
module Bmp {
  import opened Bytes
  import opened Failures

  /** Size of the two headers together; pixel data starts here. */
  const HeaderSize: int := 14 + 40
  const InfoHeaderSize: int := 40
  const BitsPerPixel: int := 24

  /** The 14-byte BITMAPFILEHEADER: signature 'B' 'M', the file size, two
      reserved words and the offset of the pixel data. */
  function FileHeader(fileSize: int): (r: seq<Byte>)
    requires IsInt32(fileSize)
    ensures |r| == 14
  {
    [0x42, 0x4D] + PackI32LE(fileSize) + PackU16LE(0) + PackU16LE(0) + PackU32LE(HeaderSize)
  }

  /** The 40-byte BITMAPINFOHEADER of an uncompressed 24-bit image: its own
      size and the image's dimensions, then its format, then resolution and
      palette fields, all zero. */
  function InfoHeader(nw: int, nh: int, imageSize: int): (r: seq<Byte>)
    requires IsInt32(nw) && IsInt32(nh) && IsUint32(imageSize)
    ensures |r| == 40
  {
    InfoDims(nw, nh) + InfoFormat(imageSize) + InfoTail()
  }

  function InfoDims(nw: int, nh: int): (r: seq<Byte>)
    requires IsInt32(nw) && IsInt32(nh)
    ensures |r| == 12
  {
    PackU32LE(InfoHeaderSize) + PackI32LE(nw) + PackI32LE(nh)
  }

  function InfoFormat(imageSize: int): (r: seq<Byte>)
    requires IsUint32(imageSize)
    ensures |r| == 12
  {
    PackU16LE(1)                        // planes
    + PackU16LE(BitsPerPixel)
    + PackU32LE(0)                      // no compression
    + PackU32LE(imageSize)
  }

  function InfoTail(): (r: seq<Byte>)
    ensures |r| == 16
  {
    PackI32LE(0) + PackI32LE(0)         // resolution
    + PackU32LE(0) + PackU32LE(0)       // palette size, important colours
  }

  /** Number of pixel bytes in an nw by nh image of 3-byte pixels. */
  function PixelBytes(nw: int, nh: int): int { nw * nh * 3 }

  /** Every header field of an nw by nh image fits its packed format. */
  predicate HeaderFits(nw: int, nh: int)
  {
    IsInt32(HeaderSize + PixelBytes(nw, nh)) && IsInt32(nw) && IsInt32(nh) && 0 <= PixelBytes(nw, nh)
  }

  /** The header for an image of nw by nh 3-byte pixels, written field by
      field as `struct.pack` would.  A field outside the range of its format
      makes `struct.pack` raise. */
  function Header(nw: int, nh: int): (r: Result<seq<Byte>>)
    ensures r.Ok? <==> HeaderFits(nw, nh)
    ensures r.Err? ==> r.error == PackOutOfRange
    ensures r.Ok? ==> |r.value| == HeaderSize
  {
    var fileSize := HeaderSize + PixelBytes(nw, nh);
    var imageSize := PixelBytes(nw, nh);
    if IsInt32(fileSize) && IsInt32(nw) && IsInt32(nh) && IsUint32(imageSize) then
      Ok(FileHeader(fileSize) + InfoHeader(nw, nh, imageSize))
    else
      Err(PackOutOfRange)
  }

  lemma FileHeaderLayout(fileSize: int)
    requires IsInt32(fileSize)
    ensures var h := FileHeader(fileSize);
      && h[0] == 0x42 && h[1] == 0x4D
      && UnpackI32LE(h[2..6]) == fileSize
      && UnpackLE(h[6..8]) == 0 && UnpackLE(h[8..10]) == 0
      && UnpackLE(h[10..14]) == HeaderSize
  {
    var s1 := [0x42, 0x4D] + PackI32LE(fileSize);
    var s2 := s1 + PackU16LE(0);
    var s3 := s2 + PackU16LE(0);
    var h := s3 + PackU32LE(HeaderSize);
    SliceOfConcat(s3, PackU32LE(HeaderSize), 10, 14);
    assert PackU32LE(HeaderSize)[0..4] == PackU32LE(HeaderSize);
    SliceOfConcat(s3, PackU32LE(HeaderSize), 8, 10);
    SliceOfConcat(s2, PackU16LE(0), 8, 10);
    SliceOfConcat(s3, PackU32LE(HeaderSize), 6, 8);
    SliceOfConcat(s2, PackU16LE(0), 6, 8);
    SliceOfConcat(s1, PackU16LE(0), 6, 8);
    SliceOfConcat(s3, PackU32LE(HeaderSize), 2, 6);
    SliceOfConcat(s2, PackU16LE(0), 2, 6);
    SliceOfConcat(s1, PackU16LE(0), 2, 6);
    SliceOfConcat([0x42, 0x4D], PackI32LE(fileSize), 2, 6);
    I32LERoundTrip(fileSize);
    U16LERoundTrip(0);
    U32LERoundTrip(HeaderSize);
  }

  lemma InfoDimsLayout(nw: int, nh: int)
    requires IsInt32(nw) && IsInt32(nh)
    ensures var d := InfoDims(nw, nh);
      && UnpackLE(d[0..4]) == InfoHeaderSize
      && UnpackI32LE(d[4..8]) == nw
      && UnpackI32LE(d[8..12]) == nh
  {
    var a, b, c := PackU32LE(InfoHeaderSize), PackI32LE(nw), PackI32LE(nh);
    SliceOfConcat(a + b, c, 0, 4);
    SliceOfConcat(a + b, c, 4, 8);
    SliceOfConcat(a + b, c, 8, 12);
    SliceOfConcat(a, b, 0, 4);
    SliceOfConcat(a, b, 4, 8);
    assert a[0..4] == a && b[0..4] == b && c[0..4] == c;
    U32LERoundTrip(InfoHeaderSize);
    I32LERoundTrip(nw);
    I32LERoundTrip(nh);
  }

  lemma InfoFormatLayout(imageSize: int)
    requires IsUint32(imageSize)
    ensures var f := InfoFormat(imageSize);
      && UnpackLE(f[0..2]) == 1
      && UnpackLE(f[2..4]) == BitsPerPixel
      && UnpackLE(f[4..8]) == 0
      && UnpackLE(f[8..12]) == imageSize
  {
    var a, b, c, d := PackU16LE(1), PackU16LE(BitsPerPixel), PackU32LE(0), PackU32LE(imageSize);
    assert InfoFormat(imageSize) == (a + b) + (c + d);
    SliceOfConcat(a + b, c + d, 0, 2);
    SliceOfConcat(a + b, c + d, 2, 4);
    SliceOfConcat(a + b, c + d, 4, 8);
    SliceOfConcat(a + b, c + d, 8, 12);
    SliceOfConcat(a, b, 0, 2);
    SliceOfConcat(a, b, 2, 4);
    SliceOfConcat(c, d, 0, 4);
    SliceOfConcat(c, d, 4, 8);
    assert a[0..2] == a && b[0..2] == b && c[0..4] == c && d[0..4] == d;
    U16LERoundTrip(1);
    U16LERoundTrip(BitsPerPixel);
    U32LERoundTrip(0);
    U32LERoundTrip(imageSize);
  }

  lemma InfoTailIsZero()
    ensures forall i :: 0 <= i < 16 ==> InfoTail()[i] == 0
  {
    assert PackI32LE(0) == [0, 0, 0, 0];
    assert PackU32LE(0) == [0, 0, 0, 0];
  }

  lemma InfoHeaderLayout(nw: int, nh: int, imageSize: int)
    requires IsInt32(nw) && IsInt32(nh) && IsUint32(imageSize)
    ensures var h := InfoHeader(nw, nh, imageSize);
      && UnpackLE(h[0..4]) == InfoHeaderSize
      && UnpackI32LE(h[4..8]) == nw
      && UnpackI32LE(h[8..12]) == nh
      && UnpackLE(h[12..14]) == 1
      && UnpackLE(h[14..16]) == BitsPerPixel
      && UnpackLE(h[16..20]) == 0
      && UnpackLE(h[20..24]) == imageSize
      && (forall i :: 24 <= i < 40 ==> h[i] == 0)
  {
    var d, f, t := InfoDims(nw, nh), InfoFormat(imageSize), InfoTail();
    var df := d + f;
    InfoDimsLayout(nw, nh);
    InfoFormatLayout(imageSize);
    InfoTailIsZero();
    forall i, j | 0 <= i <= j <= 24
      ensures (df + t)[i..j] == df[i..j]
    {
      SliceOfConcat(df, t, i, j);
    }
    forall i, j | 0 <= i <= j <= 12
      ensures df[i..j] == d[i..j]
    {
      SliceOfConcat(d, f, i, j);
    }
    forall i, j | 12 <= i <= j <= 24
      ensures df[i..j] == f[i - 12..j - 12]
    {
      SliceOfConcat(d, f, i, j);
    }
  }

  lemma HeadersLayout(fileSize: int, nw: int, nh: int, imageSize: int)
    requires IsInt32(fileSize) && IsInt32(nw) && IsInt32(nh) && IsUint32(imageSize)
    ensures var h := FileHeader(fileSize) + InfoHeader(nw, nh, imageSize);
      && |h| == HeaderSize
      && h[0] == 0x42 && h[1] == 0x4D
      && UnpackI32LE(h[2..6]) == fileSize
      && UnpackLE(h[6..8]) == 0 && UnpackLE(h[8..10]) == 0
      && UnpackLE(h[10..14]) == HeaderSize
      && UnpackLE(h[14..18]) == InfoHeaderSize
      && UnpackI32LE(h[18..22]) == nw
      && UnpackI32LE(h[22..26]) == nh
      && UnpackLE(h[26..28]) == 1
      && UnpackLE(h[28..30]) == BitsPerPixel
      && UnpackLE(h[30..34]) == 0
      && UnpackLE(h[34..38]) == imageSize
      && (forall i :: 38 <= i < HeaderSize ==> h[i] == 0)
  {
    var a, b := FileHeader(fileSize), InfoHeader(nw, nh, imageSize);
    var h := a + b;
    FileHeaderLayout(fileSize);
    InfoHeaderLayout(nw, nh, imageSize);
    forall i, j | 0 <= i <= j <= 14
      ensures h[i..j] == a[i..j]
    {
      SliceOfConcat(a, b, i, j);
    }
    forall i, j | 14 <= i <= j <= HeaderSize
      ensures h[i..j] == b[i - 14..j - 14]
    {
      SliceOfConcat(a, b, i, j);
    }
  }

  /** Reading every field of a written header back, little-endian, gives the
      values the writer was asked for. */
  lemma HeaderLayout(nw: int, nh: int)
    requires HeaderFits(nw, nh)
    ensures var h := Header(nw, nh).value;
      && |h| == HeaderSize
      && h[0] == 0x42 && h[1] == 0x4D
      && UnpackI32LE(h[2..6]) == HeaderSize + PixelBytes(nw, nh)
      && UnpackLE(h[6..8]) == 0 && UnpackLE(h[8..10]) == 0
      && UnpackLE(h[10..14]) == HeaderSize
      && UnpackLE(h[14..18]) == InfoHeaderSize
      && UnpackI32LE(h[18..22]) == nw
      && UnpackI32LE(h[22..26]) == nh
      && UnpackLE(h[26..28]) == 1
      && UnpackLE(h[28..30]) == BitsPerPixel
      && UnpackLE(h[30..34]) == 0
      && UnpackLE(h[34..38]) == PixelBytes(nw, nh)
      && (forall i :: 38 <= i < HeaderSize ==> h[i] == 0)
  {
    HeadersLayout(HeaderSize + PixelBytes(nw, nh), nw, nh, PixelBytes(nw, nh));
  }

  datatype Dims = Dims(width: int, height: int)

  /** `unpack('>ii', image_data[16:24])`: two big-endian signed 32-bit
      integers.  A buffer of fewer than 24 bytes yields a short slice, on
      which `unpack` raises. */
  function ReadDims(data: seq<Byte>): (r: Result<Dims>)
    ensures r.Err? <==> |data| < 24
    ensures r.Err? ==> r.error == ShortHeader
  {
    if |data| < 24 then Err(ShortHeader)
    else Ok(Dims(UnpackI32BE(data[16..20]), UnpackI32BE(data[20..24])))
  }

  /** The dimensions are the big-endian two's-complement readings of bytes
      16..20 and 20..24. */
  lemma ReadDimsBigEndian(data: seq<Byte>)
    requires 24 <= |data|
    ensures var u := (data[16] as int) * 0x100_0000 + (data[17] as int) * 0x1_0000
                     + (data[18] as int) * 0x100 + data[19];
      ReadDims(data).value.width == (if u < Two31 then u else u - Two32)
    ensures var u := (data[20] as int) * 0x100_0000 + (data[21] as int) * 0x1_0000
                     + (data[22] as int) * 0x100 + data[23];
      ReadDims(data).value.height == (if u < Two31 then u else u - Two32)
  {
    assert data[16..20] == [data[16], data[17], data[18], data[19]];
    assert data[20..24] == [data[20], data[21], data[22], data[23]];
    UnpackBE4(data[16], data[17], data[18], data[19]);
    UnpackBE4(data[20], data[21], data[22], data[23]);
  }

  /** A 16-bit value with its two bytes exchanged. */
  function Swap16(v: int): (r: int)
    requires 0 <= v < 0x1_0000
    ensures 0 <= r < 0x1_0000
    ensures r == v <==> v % 256 == v / 256
  {
    (v % 256) * 256 + v / 256
  }

  lemma PackSmallI32(v: int)
    requires 0 <= v < 0x1_0000
    ensures PackI32LE(v) == [(v % 256), (v / 256), 0, 0]
  {
    var s := PackLE(v, 4);
    assert s == [(v % 256)] + PackLE(v / 256, 3);
    assert PackLE(v / 256, 3) == [(v / 256 % 256)] + PackLE(v / 256 / 256, 2);
    assert v / 256 / 256 == 0;
    assert PackLE(0, 2) == [0, 0];
  }

  lemma UnpackBE4(a: Byte, b: Byte, c: Byte, d: Byte)
    ensures UnpackBE([a, b, c, d]) == a * 0x100_0000 + b * 0x1_0000 + c * 0x100 + d
  {
    assert [a, b, c, d][..3] == [a, b, c];
    assert [a, b, c][..2] == [a, b];
    assert [a, b][..1] == [a];
    assert [a][..0] == [];
    assert UnpackBE([a]) == a;
    assert UnpackBE([a, b]) == 256 * (a) + b;
    assert UnpackBE([a, b, c]) == 256 * UnpackBE([a, b]) + c;
  }

  /** Bytes 14..26 of a header are the info header's size and dimension
      fields. */
  lemma HeaderDims(nw: int, nh: int)
    requires HeaderFits(nw, nh)
    ensures |Header(nw, nh).value| == HeaderSize
    ensures Header(nw, nh).value[14..26] == InfoDims(nw, nh)
  {
    var fileSize, imageSize := HeaderSize + PixelBytes(nw, nh), PixelBytes(nw, nh);
    var d, f, t := InfoDims(nw, nh), InfoFormat(imageSize), InfoTail();
    SliceOfConcat(FileHeader(fileSize), InfoHeader(nw, nh, imageSize), 14, 26);
    SliceOfConcat(d + f, t, 0, 12);
    SliceOfConcat(d, f, 0, 12);
    assert d[0..12] == d;
  }

  /** Reading dimensions back from a header this module wrote does not give
      the written dimensions: the reader looks at offsets 16..24 big-endian,
      while the writer put width and height little-endian at 18..26.  For
      dimensions below 65536 the reader sees each one with its two low bytes
      swapped. */
  lemma ReadBackSwapsBytes(nw: int, nh: int)
    requires 0 <= nw < 0x1_0000 && 0 <= nh < 0x1_0000
    requires HeaderFits(nw, nh)
    ensures ReadDims(Header(nw, nh).value) == Ok(Dims(Swap16(nw), Swap16(nh)))
  {
    var h := Header(nw, nh).value;
    var a, b, c, d := nw % 256, nw / 256, nh % 256, nh / 256;
    assert h[16..20] == [0, 0, a, b] && h[20..24] == [0, 0, c, d] by {
      SmallInfoDims(nw, nh);
      HeaderDims(nw, nh);
      SliceOfSlice(h, 14, 26, 2, 6);
      SliceOfSlice(h, 14, 26, 6, 10);
    }
    UnpackBE4(0, 0, a, b);
    UnpackBE4(0, 0, c, d);
  }

  lemma SmallInfoDims(nw: int, nh: int)
    requires 0 <= nw < 0x1_0000 && 0 <= nh < 0x1_0000
    ensures InfoDims(nw, nh) == [40, 0, 0, 0, nw % 256, nw / 256, 0, 0, nh % 256, nh / 256, 0, 0]
  {
    assert PackU32LE(InfoHeaderSize) == PackLE(40, 4);
    assert PackLE(40, 4) == [40] + PackLE(0, 3);
    assert PackLE(0, 3) == [0, 0, 0];
    PackSmallI32(nw);
    PackSmallI32(nh);
  }

  /** The concrete case: a header written for 200 by 100 reads back as
      51200 by 25600. */
  lemma ReadBackExample()
    ensures Header(200, 100).Ok?
    ensures ReadDims(Header(200, 100).value) == Ok(Dims(51200, 25600))
    ensures ReadDims(Header(200, 100).value) != Ok(Dims(200, 100))
  {
    ReadBackSwapsBytes(200, 100);
  }
}
