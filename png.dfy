/**
 * The PNG encoder of the icon generator: chunk framing (section 5.3 of the PNG
 * specification), the IHDR header (section 11.2.2), the signature (section
 * 5.2) and the raw scanline buffer that is handed to the compressor, every
 * scanline starting with filter type 0 (section 9.2).
 *
 * The compressor (zlib's deflateSync) is foreign code: it is a parameter of
 * CreatePng, and the IDAT payload is treated as opaque bytes.
 */
module Png {
  import opened Wrappers
  import opened Bytes
  import opened Crc

  /** The eight-byte PNG signature. */
  const Signature: seq<byte> := [0x89, 0x50, 0x4E, 0x47, 0x0D, 0x0A, 0x1A, 0x0A]

  /** Chunk type codes, the ASCII bytes Buffer.from writes for "IHDR", "IDAT", "IEND". */
  const IHDR: seq<byte> := [0x49, 0x48, 0x44, 0x52]
  const IDAT: seq<byte> := [0x49, 0x44, 0x41, 0x54]
  const IEND: seq<byte> := [0x49, 0x45, 0x4E, 0x44]

  /** The fixed tail of the IHDR data: bit depth 8, colour type 6 (RGBA), compression, filter and interlace 0. */
  const IhdrTail: seq<byte> := [8, 6, 0, 0, 0]

  /** The complete IEND chunk: zero length, the type, and the CRC of the type. */
  const IendChunk: seq<byte> := [0, 0, 0, 0, 0x49, 0x45, 0x4E, 0x44, 0xAE, 0x42, 0x60, 0x82]

  // ---------------------------------------------------------------------------
  // Chunk framing

  /** chunk(type, data): the data length, the type, the data, and the CRC of type and data. */
  function Chunk(kind: seq<byte>, data: seq<byte>): (r: seq<byte>)
    requires |data| < TwoTo32
    ensures |r| == 8 + |kind| + |data|
  {
    BE32(|data|) + kind + data + BE32(Crc32(kind + data))
  }

  /** Where each field of a chunk with a four-byte type sits. */
  lemma ChunkLayout(kind: seq<byte>, data: seq<byte>)
    requires |kind| == 4 && |data| < TwoTo32
    ensures var r := Chunk(kind, data);
      && |r| == 12 + |data|
      && ReadBE32(r[..4]) == |data|
      && r[4..8] == kind
      && r[8..8 + |data|] == data
      && ReadBE32(r[8 + |data|..]) == Crc32(r[4..8 + |data|])
  {
    var r := Chunk(kind, data);
    assert r[..4] == BE32(|data|);
    assert r[4..8 + |data|] == kind + data;
    assert r[8 + |data|..] == BE32(Crc32(kind + data));
    ReadWriteBE32(|data|);
    ReadWriteBE32(Crc32(kind + data));
  }

  /** What a reader takes out of the front of a byte stream: one chunk and what follows it. */
  datatype ChunkView = ChunkView(kind: seq<byte>, data: seq<byte>, rest: seq<byte>)

  /**
   * A chunk reader: it takes the length field, the four type bytes and the
   * data, and accepts the chunk only when the stored CRC matches.
   */
  function ParseChunk(b: seq<byte>): Option<ChunkView>
  {
    if |b| < 12 then None
    else
      var len: nat := ReadBE32(b[..4]);
      if |b| - 12 < len then None
      else if ReadBE32(b[8 + len..12 + len]) != Crc32(b[4..8 + len]) then None
      else Some(ChunkView(b[4..8], b[8..8 + len], b[12 + len..]))
  }

  /** A stream cut at four points is the concatenation of the five pieces. */
  lemma CutFour(b: seq<byte>, i: nat, j: nat, k: nat, l: nat)
    requires i <= j <= k <= l <= |b|
    ensures b == b[..i] + b[i..j] + b[j..k] + b[k..l] + b[l..]
  {
  }

  /** Whatever the reader accepts is exactly a chunk that Chunk writes, followed by the rest. */
  lemma ParseChunkSound(b: seq<byte>)
    requires ParseChunk(b).Some?
    ensures var v := ParseChunk(b).value;
      && |v.kind| == 4
      && |v.data| < TwoTo32
      && b == Chunk(v.kind, v.data) + v.rest
  {
    var len: nat := ReadBE32(b[..4]);
    var v := ParseChunk(b).value;
    assert v == ChunkView(b[4..8], b[8..8 + len], b[12 + len..]);
    assert b[..4] == BE32(|v.data|) by { WriteReadBE32(b[..4]); }
    assert b[8 + len..12 + len] == BE32(Crc32(v.kind + v.data)) by {
      assert b[4..8 + len] == v.kind + v.data;
      WriteReadBE32(b[8 + len..12 + len]);
    }
    CutFour(b, 4, 8, 8 + len, 12 + len);
  }

  /** The reader recovers the type and data of every chunk written, and the CRC check passes. */
  lemma ParseChunkOfChunk(kind: seq<byte>, data: seq<byte>, rest: seq<byte>)
    requires |kind| == 4 && |data| < TwoTo32
    ensures ParseChunk(Chunk(kind, data) + rest) == Some(ChunkView(kind, data, rest))
  {
    var c := Chunk(kind, data);
    var b := c + rest;
    var len := |data|;
    ChunkLayout(kind, data);
    assert b[..4] == c[..4];
    assert ReadBE32(b[..4]) == len;
    assert b[4..8] == kind;
    assert b[8..8 + len] == data;
    assert b[4..8 + len] == c[4..8 + len];
    assert b[8 + len..12 + len] == c[8 + len..];
    assert ReadBE32(b[8 + len..12 + len]) == Crc32(b[4..8 + len]);
    assert b[12 + len..] == rest;
  }

  // ---------------------------------------------------------------------------
  // IHDR

  /** The thirteen IHDR data bytes createPng writes: width, height, then 8, 6, 0, 0, 0. */
  function IhdrData(width: uint32, height: uint32): (r: seq<byte>)
    ensures |r| == 13
  {
    BE32(width) + BE32(height) + IhdrTail
  }

  /** Field by field, the IHDR data reads back as the image size, RGBA at eight bits, no interlace. */
  lemma IhdrLayout(width: uint32, height: uint32)
    ensures var r := IhdrData(width, height);
      && ReadBE32(r[0..4]) == width
      && ReadBE32(r[4..8]) == height
      && r[8] == 8 && r[9] == 6 && r[10] == 0 && r[11] == 0 && r[12] == 0
  {
    var r := IhdrData(width, height);
    assert r[0..4] == BE32(width);
    assert r[4..8] == BE32(height);
    ReadWriteBE32(width);
    ReadWriteBE32(height);
  }

  /** Buffer.writeUInt32BE(value, offset): four bytes at offset, most significant first; nothing else changes. */
  method WriteUInt32BE(buf: array<byte>, value: uint32, offset: nat)
    requires offset + 4 <= buf.Length
    modifies buf
    ensures buf[..] == old(buf[..offset]) + BE32(value) + old(buf[offset + 4..])
  {
    buf[offset] := value / 0x100_0000;
    buf[offset + 1] := value / 0x1_0000 % 0x100;
    buf[offset + 2] := value / 0x100 % 0x100;
    buf[offset + 3] := value % 0x100;
    assert buf[..] == old(buf[..offset]) + BE32(value) + old(buf[offset + 4..]);
  }

  /** The ihdr buffer of createPng: Buffer.alloc(13), then the sequence of write calls. */
  method BuildIhdr(width: uint32, height: uint32) returns (ihdr: array<byte>)
    ensures fresh(ihdr)
    ensures ihdr[..] == IhdrData(width, height)
  {
    ihdr := new byte[13](_ => 0);
    WriteUInt32BE(ihdr, width, 0);
    WriteUInt32BE(ihdr, height, 4);
    ihdr[8] := 8;   // bit depth
    ihdr[9] := 6;   // colour type RGBA
    ihdr[10] := 0;  // compression
    ihdr[11] := 0;  // filter
    ihdr[12] := 0;  // interlace
    assert ihdr[..] == BE32(width) + BE32(height) + IhdrTail;
  }

  // ---------------------------------------------------------------------------
  // The raw scanline buffer

  /** One pixel as createPng receives it from pixelFn: red, green, blue, alpha. */
  datatype Rgba = Rgba(r: byte, g: byte, b: byte, a: byte)

  function Channels(p: Rgba): (r: seq<byte>)
    ensures |r| == 4
  {
    [p.r, p.g, p.b, p.a]
  }

  /** The bytes of the first `count` pixels of row y. */
  function RowPixels(count: nat, y: nat, pixel: (nat, nat) -> Rgba): (r: seq<byte>)
    ensures |r| == 4 * count
  {
    if count == 0 then [] else RowPixels(count - 1, y, pixel) + Channels(pixel(count - 1, y))
  }

  /** Row y of the raw buffer: filter type 0, then the row's pixels. */
  function Scanline(width: nat, y: nat, pixel: (nat, nat) -> Rgba): (r: seq<byte>)
    ensures |r| == 4 * width + 1
  {
    [0] + RowPixels(width, y, pixel)
  }

  /** The size of n rows of s bytes, counted row by row. */
  function Rows(n: nat, s: nat): nat
  {
    if n == 0 then 0 else Rows(n - 1, s) + s
  }

  lemma {:induction false} RowsIsProduct(n: nat, s: nat)
    ensures Rows(n, s) == n * s
  {
    if n > 0 {
      RowsIsProduct(n - 1, s);
    }
  }

  /** The raw buffer for the first `rows` rows, as createPng fills it. */
  function RawImage(width: nat, rows: nat, pixel: (nat, nat) -> Rgba): (r: seq<byte>)
    ensures |r| == Rows(rows, 4 * width + 1)
  {
    if rows == 0 then [] else RawImage(width, rows - 1, pixel) + Scanline(width, rows - 1, pixel)
  }

  /** The raw buffer holds (stride + 1) * rows bytes, the size Buffer.alloc is given. */
  lemma RawImageLength(width: nat, rows: nat, pixel: (nat, nat) -> Rgba)
    ensures |RawImage(width, rows, pixel)| == (4 * width + 1) * rows
  {
    RowsIsProduct(rows, 4 * width + 1);
  }

  /** The offset createPng writes channel c of pixel (x, y) to: `y * (stride + 1) + 1 + x * 4 + c`. */
  function PixelOffset(width: nat, x: nat, y: nat, c: nat): nat
  {
    y * (4 * width + 1) + 1 + 4 * x + c
  }

  lemma {:induction false} RowPixelsAt(count: nat, y: nat, pixel: (nat, nat) -> Rgba, x: nat, c: nat)
    requires x < count && c < 4
    ensures RowPixels(count, y, pixel)[4 * x + c] == Channels(pixel(x, y))[c]
  {
    if x < count - 1 {
      RowPixelsAt(count - 1, y, pixel, x, c);
    }
  }

  /** Byte k of row y of the raw buffer is byte k of that row's scanline. */
  lemma {:induction false} RawImageAt(width: nat, rows: nat, pixel: (nat, nat) -> Rgba, y: nat, k: nat)
    requires y < rows && k < 4 * width + 1
    ensures y * (4 * width + 1) + k < |RawImage(width, rows, pixel)|
    ensures RawImage(width, rows, pixel)[y * (4 * width + 1) + k] == Scanline(width, y, pixel)[k]
  {
    var stride1 := 4 * width + 1;
    RowsIsProduct(rows - 1, stride1);
    if y < rows - 1 {
      RawImageAt(width, rows - 1, pixel, y, k);
      MulMonotone(y + 1, rows - 1, stride1);
    }
  }

  /** Every row of the raw buffer starts with filter byte 0. */
  lemma FilterBytes(width: nat, height: nat, pixel: (nat, nat) -> Rgba, y: nat)
    requires y < height
    ensures y * (4 * width + 1) < |RawImage(width, height, pixel)|
    ensures RawImage(width, height, pixel)[y * (4 * width + 1)] == 0
  {
    RawImageAt(width, height, pixel, y, 0);
  }

  /** Channel c of pixel (x, y) is at PixelOffset(width, x, y, c) of the raw buffer. */
  lemma PixelBytes(width: nat, height: nat, pixel: (nat, nat) -> Rgba, x: nat, y: nat, c: nat)
    requires x < width && y < height && c < 4
    ensures PixelOffset(width, x, y, c) < |RawImage(width, height, pixel)|
    ensures RawImage(width, height, pixel)[PixelOffset(width, x, y, c)] == Channels(pixel(x, y))[c]
  {
    RawImageAt(width, height, pixel, y, 1 + 4 * x + c);
    RowPixelsAt(width, y, pixel, x, c);
  }

  lemma MulMonotone(a: nat, b: nat, c: nat)
    requires a <= b
    ensures a * c <= b * c
  {
  }

  /** A row-major offset determines its row and its column. */
  lemma {:induction false} RowColumnUnique(s: nat, y: nat, k: nat, y': nat, k': nat)
    requires k < s && k' < s
    requires y * s + k == y' * s + k'
    ensures y == y' && k == k'
  {
    if y < y' {
      MulMonotone(y + 1, y', s);
      assert false;
    } else if y' < y {
      MulMonotone(y' + 1, y, s);
      assert false;
    }
  }

  /** A pixel and channel determine the column 4 * x + c, and the column determines them. */
  lemma ColumnUnique(x: nat, c: nat, x': nat, c': nat)
    requires c < 4 && c' < 4 && 4 * x + c == 4 * x' + c'
    ensures x == x' && c == c'
  {
  }

  /**
   * The writes of createPng do not disturb each other: every pixel offset is
   * inside the buffer, two different (pixel, channel) pairs never share an
   * offset, and no pixel offset is the filter byte of any row.
   */
  lemma PixelOffsetsDisjoint(width: nat, height: nat, x: nat, y: nat, c: nat, x': nat, y': nat, c': nat)
    requires x < width && y < height && c < 4
    requires x' < width && y' < height && c' < 4
    ensures PixelOffset(width, x, y, c) < (4 * width + 1) * height
    ensures (x, y, c) != (x', y', c') ==> PixelOffset(width, x, y, c) != PixelOffset(width, x', y', c')
    ensures PixelOffset(width, x, y, c) != y' * (4 * width + 1)
  {
    var s := 4 * width + 1;
    var k, k' := 1 + 4 * x + c, 1 + 4 * x' + c';
    assert PixelOffset(width, x, y, c) == y * s + k;
    assert PixelOffset(width, x', y', c') == y' * s + k';
    assert k < s && k' < s;
    RowFits(y, height, s);
    if y * s + k == y' * s + k' {
      RowColumnUnique(s, y, k, y', k');
      ColumnUnique(x, c, x', c');
    }
    if y * s + k == y' * s + 0 {
      RowColumnUnique(s, y, k, y', 0);
    }
  }

  /** The four channel writes `raw[idx] = r; ... raw[idx + 3] = a;`; nothing else changes. */
  method WritePixel(raw: array<byte>, idx: nat, p: Rgba)
    requires idx + 4 <= raw.Length
    modifies raw
    ensures raw[..] == old(raw[..idx]) + Channels(p) + old(raw[idx + 4..])
  {
    raw[idx] := p.r;
    raw[idx + 1] := p.g;
    raw[idx + 2] := p.b;
    raw[idx + 3] := p.a;
    assert raw[..] == old(raw[..idx]) + Channels(p) + old(raw[idx + 4..]);
  }

  /** One step of the inner loop: writing pixel x after the first x pixels of row y extends the row by its channels. */
  lemma FillStep(prev: seq<byte>, now: seq<byte>, before: seq<byte>, orig: seq<byte>,
                 start: nat, x: nat, y: nat, pixel: (nat, nat) -> Rgba, p: Rgba)
    requires |before| == start && start + 4 * (x + 1) <= |orig|
    requires p == pixel(x, y)
    requires prev == before + RowPixels(x, y, pixel) + orig[start + 4 * x..]
    requires now == prev[..start + 4 * x] + Channels(p) + prev[start + 4 * x + 4..]
    ensures now == before + RowPixels(x + 1, y, pixel) + orig[start + 4 * (x + 1)..]
  {
    assert prev[..start + 4 * x] == before + RowPixels(x, y, pixel);
    assert prev[start + 4 * x + 4..] == orig[start + 4 * (x + 1)..];
  }

  /** The inner loop of createPng: the pixels of row y, written from offset start on. */
  method FillPixels(raw: array<byte>, start: nat, width: nat, y: nat, pixel: (nat, nat) -> Rgba)
    requires start + 4 * width <= raw.Length
    modifies raw
    ensures raw[..] == old(raw[..start]) + RowPixels(width, y, pixel) + old(raw[start + 4 * width..])
  {
    ghost var before := raw[..start];
    ghost var orig := raw[..];
    for x := 0 to width
      invariant raw[..] == before + RowPixels(x, y, pixel) + orig[start + 4 * x..]
    {
      var p := pixel(x, y);
      ghost var prev := raw[..];
      WritePixel(raw, start + 4 * x, p);
      assert raw[..] == before + RowPixels(x + 1, y, pixel) + orig[start + 4 * (x + 1)..] by {
        FillStep(prev, raw[..], before, orig, start, x, y, pixel, p);
      }
    }
  }

  /** Row y of createPng's outer loop: the filter byte, then the inner loop over the pixels. */
  method FillRow(raw: array<byte>, rowStart: nat, width: nat, y: nat, pixel: (nat, nat) -> Rgba)
    requires rowStart + 1 + 4 * width <= raw.Length
    modifies raw
    ensures raw[..] == old(raw[..rowStart]) + Scanline(width, y, pixel) + old(raw[rowStart + 1 + 4 * width..])
  {
    ghost var before := raw[..rowStart];
    ghost var rest := raw[rowStart + 1 + 4 * width..];
    raw[rowStart] := 0;  // filter type 0
    ghost var mid := raw[..];
    assert mid[..rowStart + 1] == before + [0];
    assert mid[rowStart + 1 + 4 * width..] == rest;
    FillPixels(raw, rowStart + 1, width, y, pixel);
  }

  /** Row y of a buffer of `height` rows of s bytes ends at (y + 1) * s, inside the buffer. */
  lemma RowFits(y: nat, height: nat, s: nat)
    requires y < height
    ensures y * s + s == (y + 1) * s <= s * height
  {
    MulMonotone(y + 1, height, s);
  }

  /** One step of the outer loop: the first y rows followed by row y are the first y + 1 rows. */
  lemma NextRow(now: seq<byte>, done: seq<byte>, rest: seq<byte>, width: nat, y: nat, s: nat, pixel: (nat, nat) -> Rgba)
    requires s == 4 * width + 1
    requires done == RawImage(width, y, pixel)
    requires now == done + Scanline(width, y, pixel) + rest
    ensures Rows(y + 1, s) <= |now|
    ensures now[..Rows(y + 1, s)] == RawImage(width, y + 1, pixel)
  {
  }

  /**
   * The outer loop of createPng over Buffer.alloc((stride + 1) * height); the
   * products (stride + 1) * height and y * (stride + 1) are written Rows(height,
   * stride + 1) and Rows(y, stride + 1), which RowsIsProduct shows equal.
   */
  method BuildRaw(width: nat, height: nat, pixel: (nat, nat) -> Rgba) returns (raw: array<byte>)
    ensures fresh(raw)
    ensures raw[..] == RawImage(width, height, pixel)
  {
    var stride := width * 4;
    raw := new byte[Rows(height, stride + 1)](_ => 0);
    for y := 0 to height
      invariant Rows(y, stride + 1) + Rows(height - y, stride + 1) == raw.Length
      invariant raw[..Rows(y, stride + 1)] == RawImage(width, y, pixel)
    {
      var rowStart := Rows(y, stride + 1);
      ghost var done := raw[..rowStart];
      ghost var rest := raw[rowStart + 1 + 4 * width..];
      FillRow(raw, rowStart, width, y, pixel);
      assert raw[..Rows(y + 1, stride + 1)] == RawImage(width, y + 1, pixel) by {
        NextRow(raw[..], done, rest, width, y, stride + 1, pixel);
      }
    }
  }

  // ---------------------------------------------------------------------------
  // The file

  /** createPng's output for a given IDAT payload: signature, IHDR, IDAT, IEND. */
  function PngFile(width: uint32, height: uint32, idat: seq<byte>): (r: seq<byte>)
    requires |idat| < TwoTo32
  {
    Signature + Chunk(IHDR, IhdrData(width, height)) + Chunk(IDAT, idat) + Chunk(IEND, [])
  }

  /** The image a reader recovers from a PNG file of this shape. */
  datatype Image = Image(width: uint32, height: uint32, idat: seq<byte>)

  /**
   * A reader for exactly the files createPng writes: the signature, an IHDR
   * chunk of 13 bytes describing 8-bit RGBA without interlace, one IDAT chunk
   * and an empty IEND chunk that ends the file.
   */
  function ParsePng(b: seq<byte>): (r: Option<Image>)
  {
    if |b| < 8 || b[..8] != Signature then None
    else match ParseChunk(b[8..])
      case None => None
      case Some(h) =>
        if h.kind != IHDR || |h.data| != 13 || h.data[8..] != IhdrTail then None
        else match ParseChunk(h.rest)
          case None => None
          case Some(d) =>
            if d.kind != IDAT then None
            else match ParseChunk(d.rest)
              case None => None
              case Some(e) =>
                if e.kind != IEND || e.data != [] || e.rest != [] then None
                else Some(Image(ReadBE32(h.data[..4]), ReadBE32(h.data[4..8]), d.data))
  }

  lemma Regroup(s: seq<byte>, p: seq<byte>, q: seq<byte>, r: seq<byte>)
    ensures (s + p + q + r)[..|s|] == s
    ensures (s + p + q + r)[|s|..] == p + (q + r)
  {
    assert s + p + q + r == s + (p + (q + r));
  }

  /** ParsePng in terms of the three chunks it reads. */
  lemma ParsePngOfViews(b: seq<byte>, h: ChunkView, d: ChunkView, e: ChunkView)
    requires |b| >= 8 && b[..8] == Signature
    requires ParseChunk(b[8..]) == Some(h) && ParseChunk(h.rest) == Some(d) && ParseChunk(d.rest) == Some(e)
    requires h.kind == IHDR && |h.data| == 13 && h.data[8..] == IhdrTail
    requires d.kind == IDAT && e.kind == IEND && e.data == [] && e.rest == []
    ensures ParsePng(b) == Some(Image(ReadBE32(h.data[..4]), ReadBE32(h.data[4..8]), d.data))
  {
  }

  /** Reading a file createPng writes gives back its width, height and IDAT payload. */
  lemma ParsePngOfPngFile(width: uint32, height: uint32, idat: seq<byte>)
    requires |idat| < TwoTo32
    ensures ParsePng(PngFile(width, height, idat)) == Some(Image(width, height, idat))
  {
    var ihdr := IhdrData(width, height);
    var iend := Chunk(IEND, []);
    var tail := Chunk(IDAT, idat) + iend;
    var b := PngFile(width, height, idat);
    assert b[..8] == Signature && b[8..] == Chunk(IHDR, ihdr) + tail by {
      Regroup(Signature, Chunk(IHDR, ihdr), Chunk(IDAT, idat), iend);
    }
    assert ParseChunk(b[8..]) == Some(ChunkView(IHDR, ihdr, tail)) by {
      ParseChunkOfChunk(IHDR, ihdr, tail);
    }
    assert ParseChunk(tail) == Some(ChunkView(IDAT, idat, iend)) by {
      ParseChunkOfChunk(IDAT, idat, iend);
    }
    assert ParseChunk(iend) == Some(ChunkView(IEND, [], [])) by {
      assert iend + [] == iend;
      ParseChunkOfChunk(IEND, [], []);
    }
    assert ihdr[8..] == IhdrTail && ReadBE32(ihdr[..4]) == width && ReadBE32(ihdr[4..8]) == height by {
      IhdrLayout(width, height);
    }
    ParsePngOfViews(b, ChunkView(IHDR, ihdr, tail), ChunkView(IDAT, idat, iend), ChunkView(IEND, [], []));
  }

  /** The IHDR data the reader accepts is the one IhdrData writes for the size it reads. */
  lemma IhdrDataOfRead(data: seq<byte>)
    requires |data| == 13 && data[8..] == IhdrTail
    ensures data == IhdrData(ReadBE32(data[..4]), ReadBE32(data[4..8]))
  {
    WriteReadBE32(data[..4]);
    WriteReadBE32(data[4..8]);
    assert data == data[..4] + data[4..8] + data[8..];
  }

  lemma SplitFour(b: seq<byte>, s: seq<byte>, p: seq<byte>, q: seq<byte>, r: seq<byte>, rest1: seq<byte>, rest2: seq<byte>)
    requires |b| >= |s| && b[..|s|] == s
    requires b[|s|..] == p + rest1 && rest1 == q + rest2 && rest2 == r
    ensures b == s + p + q + r
  {
    assert b == b[..|s|] + b[|s|..];
  }

  /** Conversely, every file the reader accepts is the one createPng writes for what it read. */
  lemma PngFileOfParsePng(b: seq<byte>)
    requires ParsePng(b).Some?
    ensures |ParsePng(b).value.idat| < TwoTo32
    ensures b == PngFile(ParsePng(b).value.width, ParsePng(b).value.height, ParsePng(b).value.idat)
  {
    var h := ParseChunk(b[8..]).value;
    var d := ParseChunk(h.rest).value;
    var e := ParseChunk(d.rest).value;
    var img := ParsePng(b).value;
    assert |b| >= 8 && b[..8] == Signature;
    assert h.kind == IHDR && |h.data| == 13 && h.data[8..] == IhdrTail;
    assert d.kind == IDAT && e.kind == IEND && e.data == [] && e.rest == [];
    assert img == Image(ReadBE32(h.data[..4]), ReadBE32(h.data[4..8]), d.data);
    assert b[8..] == Chunk(h.kind, h.data) + h.rest by { ParseChunkSound(b[8..]); }
    assert h.rest == Chunk(d.kind, d.data) + d.rest by { ParseChunkSound(h.rest); }
    assert |d.data| < TwoTo32 && d.rest == Chunk(e.kind, e.data) + e.rest by { ParseChunkSound(d.rest); }
    assert h.data == IhdrData(img.width, img.height) by { IhdrDataOfRead(h.data); }
    assert Chunk(e.kind, e.data) + e.rest == Chunk(IEND, []);
    SplitFour(b, Signature, Chunk(IHDR, h.data), Chunk(IDAT, d.data), Chunk(IEND, []), h.rest, d.rest);
  }

  /** The IEND chunk createPng writes, byte for byte. */
  lemma IendChunkBytes()
    ensures Chunk(IEND, []) == IendChunk
  {
    assert IEND + [] == IEND;
    assert Crc32(IEND) == 0xAE42_6082 by { IendCrc(); }
    assert BE32(0xAE42_6082) == [0xAE, 0x42, 0x60, 0x82] by {
      assert ReadBE32([0xAE, 0x42, 0x60, 0x82]) == 0xAE42_6082;
      WriteReadBE32([0xAE, 0x42, 0x60, 0x82]);
    }
    assert BE32(0) == [0, 0, 0, 0] by {
      assert ReadBE32([0, 0, 0, 0]) == 0;
      WriteReadBE32([0, 0, 0, 0]);
    }
  }

  lemma SliceFour(s: seq<byte>, p: seq<byte>, q: seq<byte>, r: seq<byte>)
    ensures var b := s + p + q + r;
      && (s + p + q + r)[..|s|] == s
      && b[|s|..|s| + |p|] == p
      && b[|s| + |p|..|s| + |p| + |q|] == q
      && b[|s| + |p| + |q|..] == r
  {
  }

  /**
   * The file layout: the 8-byte signature, the 25-byte IHDR chunk, the IDAT
   * chunk, and the 12-byte IEND chunk 00 00 00 00 "IEND" AE 42 60 82 at the end.
   */
  lemma PngLayout(width: uint32, height: uint32, idat: seq<byte>)
    requires |idat| < TwoTo32
    ensures var r := PngFile(width, height, idat);
      && |r| == 8 + 25 + (12 + |idat|) + 12
      && r[..8] == Signature
      && r[8..33] == Chunk(IHDR, IhdrData(width, height))
      && r[33..45 + |idat|] == Chunk(IDAT, idat)
      && r[45 + |idat|..] == IendChunk
  {
    IendChunkBytes();
    SliceFour(Signature, Chunk(IHDR, IhdrData(width, height)), Chunk(IDAT, idat), Chunk(IEND, []));
  }

  /** chunk(type, data), computing the CRC with the nested loop of crc32. */
  method MakeChunk(kind: seq<byte>, data: seq<byte>) returns (r: seq<byte>)
    requires |data| < TwoTo32
    ensures r == Chunk(kind, data)
  {
    var lenBuf := new byte[4](_ => 0);
    WriteUInt32BE(lenBuf, |data|, 0);
    var len := lenBuf[..];
    assert len == BE32(|data|);
    var crcBuf := new byte[4](_ => 0);
    var crc := ComputeCrc32(kind + data);
    WriteUInt32BE(crcBuf, crc, 0);
    assert crcBuf[..] == BE32(crc);
    r := len + kind + data + crcBuf[..];
  }

  /** createPng(width, height, pixelFn), with the compressor supplied by the caller. */
  method CreatePng(width: uint32, height: uint32, pixel: (nat, nat) -> Rgba, deflate: seq<byte> -> seq<byte>)
    returns (png: seq<byte>)
    requires |deflate(RawImage(width, height, pixel))| < TwoTo32
    ensures png == PngFile(width, height, deflate(RawImage(width, height, pixel)))
  {
    var raw := BuildRaw(width, height, pixel);
    var ihdr := BuildIhdr(width, height);
    var idat := deflate(raw[..]);
    var ihdrChunk := MakeChunk(IHDR, ihdr[..]);
    var idatChunk := MakeChunk(IDAT, idat);
    var iendChunk := MakeChunk(IEND, []);
    png := Signature + ihdrChunk + idatChunk + iendChunk;
  }
}
