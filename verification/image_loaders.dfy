/** The pixel-repacking parts of the decoders: the TIFF raster unpack, the HEIF/AVIF
    stride copy, the JPEG scanline layout, the WebP copy and the SPNG success contract.
    The codec libraries are not modelled: what a library call reports (a file that opens, a
    decode that succeeds, the pixels it produces) arrives as a field of a `...Source` record,
    and each allocation that can fail as an `...AllocOk` flag. A `null` result is the C `NULL`. */
module ImageLoaders {
  import opened ViewerTypes

  // ---------------------------------------------------------------------------------
  // Row concatenation: every loader lays rows of equal length one after the other.

  /** The rows, concatenated in order. */
  function Concat(rows: seq<seq<bv8>>): seq<bv8>
    decreases |rows|
  {
    if rows == [] then [] else Concat(rows[..|rows| - 1]) + rows[|rows| - 1]
  }

  predicate RowsOfLength(rows: seq<seq<bv8>>, w: nat)
  {
    forall j :: 0 <= j < |rows| ==> |rows[j]| == w
  }

  lemma {:induction false} ConcatLength(rows: seq<seq<bv8>>, w: nat)
    requires RowsOfLength(rows, w)
    ensures |Concat(rows)| == |rows| * w
    decreases |rows|
  {
    if rows != [] {
      var n := |rows|;
      ConcatLength(rows[..n - 1], w);
      assert (n - 1) * w + w == n * w;
    }
  }

  lemma MulMono(a: nat, b: nat, w: nat)
    requires a <= b
    ensures a * w <= b * w
  {
  }

  /** Byte `x` of row `k` sits at offset `k * w + x`. */
  lemma {:induction false} ConcatAt(rows: seq<seq<bv8>>, w: nat, k: nat, x: nat)
    requires RowsOfLength(rows, w) && k < |rows| && x < w
    ensures k * w + x < |Concat(rows)| && Concat(rows)[k * w + x] == rows[k][x]
    decreases |rows|
  {
    var n := |rows|;
    var init := rows[..n - 1];
    ConcatLength(init, w);
    ConcatLength(rows, w);
    if k == n - 1 {
      assert Concat(rows) == Concat(init) + rows[n - 1];
    } else {
      ConcatAt(init, w, k, x);
      MulMono(k + 1, n - 1, w);
      assert k * w + x < (k + 1) * w;
    }
  }

  /** Appending a row appends its bytes. */
  lemma ConcatSnoc(rows: seq<seq<bv8>>, row: seq<bv8>)
    ensures Concat(rows + [row]) == Concat(rows) + row
  {
    assert (rows + [row])[..|rows|] == rows;
  }

  /** `memcpy(dst + at, src, |src|)`. */
  method CopyInto(dst: array<bv8>, at: nat, src: seq<bv8>)
    requires at + |src| <= dst.Length
    modifies dst
    ensures dst[..at] == old(dst[..at])
    ensures dst[at..at + |src|] == src
    ensures dst[at + |src|..] == old(dst[at + |src|..])
  {
    for j := 0 to |src|
      invariant forall k :: 0 <= k < dst.Length ==> dst[k] == (if at <= k < at + j then src[k - at] else old(dst[k]))
    {
      dst[at + j] := src[j];
    }
  }

  // ---------------------------------------------------------------------------------
  // TIFF: `TIFFReadRGBAImage` fills a raster of 32-bit ABGR words; the loader splits
  // each word into four bytes, lowest byte first.

  /** Bits `8k .. 8k+7` of `p`: `(p >> 8k) & 0xFF`. */
  function ByteOf(p: bv32, k: nat): bv8
    requires k < 4
  {
    ((if k == 0 then p else if k == 1 then p >> 8 else if k == 2 then p >> 16 else p >> 24) & 0xFF) as bv8
  }

  function PixelBytes(p: bv32): (b: seq<bv8>)
    ensures |b| == 4 && forall k :: 0 <= k < 4 ==> b[k] == ByteOf(p, k)
  {
    [ByteOf(p, 0), ByteOf(p, 1), ByteOf(p, 2), ByteOf(p, 3)]
  }

  /** The output of the unpack loop for a raster. */
  function Unpacked(raster: seq<bv32>): seq<bv8>
  {
    Concat(seq(|raster|, i requires 0 <= i < |raster| => PixelBytes(raster[i])))
  }

  lemma UnpackedSnoc(raster: seq<bv32>, p: bv32)
    ensures Unpacked(raster + [p]) == Unpacked(raster) + PixelBytes(p)
  {
    var rows := seq(|raster|, i requires 0 <= i < |raster| => PixelBytes(raster[i]));
    var rows' := seq(|raster| + 1, i requires 0 <= i < |raster| + 1 => PixelBytes((raster + [p])[i]));
    assert rows' == rows + [PixelBytes(p)];
    ConcatSnoc(rows, PixelBytes(p));
  }

  /** For every pixel `i`, output bytes `4i .. 4i+3` are bits 0-7, 8-15, 16-23 and 24-31 of
      `raster[i]`, and the output has exactly four bytes per pixel. */
  lemma UnpackedAt(raster: seq<bv32>, i: nat, k: nat)
    requires i < |raster| && k < 4
    ensures |Unpacked(raster)| == 4 * |raster|
    ensures Unpacked(raster)[4 * i + k] == ByteOf(raster[i], k)
  {
    var rows := seq(|raster|, j requires 0 <= j < |raster| => PixelBytes(raster[j]));
    ConcatLength(rows, 4);
    ConcatAt(rows, 4, i, k);
  }

  /** The inverse of the unpack: reassemble each group of four bytes, lowest first. */
  function Word(b0: bv8, b1: bv8, b2: bv8, b3: bv8): bv32
  {
    (b0 as bv32) | ((b1 as bv32) << 8) | ((b2 as bv32) << 16) | ((b3 as bv32) << 24)
  }

  function Packed(bytes: seq<bv8>): (r: seq<bv32>)
    requires |bytes| % 4 == 0
    ensures |r| == |bytes| / 4
  {
    seq(|bytes| / 4, i requires 0 <= i < |bytes| / 4 => Word(bytes[4 * i], bytes[4 * i + 1], bytes[4 * i + 2], bytes[4 * i + 3]))
  }

  lemma WordOfBytes(p: bv32)
    ensures Word(ByteOf(p, 0), ByteOf(p, 1), ByteOf(p, 2), ByteOf(p, 3)) == p
  {
  }

  /** No information is lost: packing the unpacked bytes gives back the raster. */
  lemma PackUnpack(raster: seq<bv32>)
    ensures |Unpacked(raster)| % 4 == 0
    ensures Packed(Unpacked(raster)) == raster
  {
    if raster == [] {
      assert Unpacked(raster) == [];
    } else {
      UnpackedAt(raster, 0, 0);
      var u := Unpacked(raster);
      forall i | 0 <= i < |raster|
        ensures Packed(u)[i] == raster[i]
      {
        UnpackedAt(raster, i, 0);
        UnpackedAt(raster, i, 1);
        UnpackedAt(raster, i, 2);
        UnpackedAt(raster, i, 3);
        WordOfBytes(raster[i]);
      }
    }
  }

  /** The unpack loop, writing through an output pointer four bytes per pixel. */
  method UnpackRaster(raster: array<bv32>, out: array<bv8>)
    requires out.Length == 4 * raster.Length
    modifies out
    ensures out[..] == Unpacked(raster[..])
  {
    var o := 0;
    for i := 0 to raster.Length
      invariant o == 4 * i
      invariant out[..o] == Unpacked(raster[..i])
    {
      var p := raster[i];
      out[o] := ByteOf(p, 0);
      out[o + 1] := ByteOf(p, 1);
      out[o + 2] := ByteOf(p, 2);
      out[o + 3] := ByteOf(p, 3);
      assert out[..o + 4] == out[..o] + PixelBytes(p);
      assert raster[..i + 1] == raster[..i] + [p];
      UnpackedSnoc(raster[..i], p);
      o := o + 4;
    }
    assert raster[..raster.Length] == raster[..];
  }

  /** `npixels = width * height`, stored in a `uint32_t`. */
  function TiffPixelCount(width: nat, height: nat): U32
  {
    (width * height) % U32_LIMIT
  }

  /** The output allocation as written, `malloc(npixels * 4)`: the product of a `uint32_t`
      and an `int` is computed in 32-bit unsigned arithmetic and wraps. */
  function TiffOutputBytesAsWritten(npixels: U32): U32
  {
    (npixels * 4) % U32_LIMIT
  }

  /** The allocation matches the four bytes per pixel the loop writes exactly when
      `npixels < 2^30`. */
  lemma TiffOutputBytesExactIff(npixels: U32)
    ensures TiffOutputBytesAsWritten(npixels) == 4 * npixels <==> npixels < 0x4000_0000
  {
  }

  /** 2^30 pixels (a 32768 x 32768 image): the buffer gets 0 bytes and the loop writes 4 GiB. */
  lemma TiffOutputOverflowWitness()
    ensures TiffPixelCount(32768, 32768) == 0x4000_0000
    ensures TiffOutputBytesAsWritten(TiffPixelCount(32768, 32768)) == 0
    ensures |Unpacked(seq(0x4000_0000, _ => 0 as bv32))| == 0x1_0000_0000
  {
    var raster: seq<bv32> := seq(0x4000_0000, _ => 0 as bv32);
    UnpackedAt(raster, 0, 0);
  }

  /** What libtiff reports for a file: whether `TIFFOpen` succeeds, the width and length
      tags, whether `TIFFReadRGBAImage` succeeds, and the raster it fills. */
  datatype TiffSource = TiffSource(opens: bool, width: nat, height: nat, readOk: bool, pixels: seq<bv32>)

  /** `loadImage_Tiff`, with the output allocated at `4 * npixels` bytes without wrap-around.
      `width0`/`height0` are the caller's values behind the `width`/`height` pointers. */
  method LoadTiff(src: TiffSource, rasterAllocOk: bool, outAllocOk: bool, width0: int, height0: int)
    returns (out: array?<bv8>, width: int, height: int, rasterFreed: bool, closed: bool)
    requires src.readOk ==> |src.pixels| == TiffPixelCount(src.width, src.height)
    ensures out != null <==> src.opens && rasterAllocOk && src.readOk && outAllocOk
    ensures out != null ==> fresh(out) && out.Length == 4 * |src.pixels| && out[..] == Unpacked(src.pixels)
    ensures rasterFreed <==> src.opens && rasterAllocOk
    ensures closed <==> src.opens
    ensures (width, height) == if src.opens then (src.width, src.height) else (width0, height0)
  {
    out, width, height, rasterFreed, closed := null, width0, height0, false, false;
    if !src.opens {
      return;
    }
    width, height := src.width, src.height;
    var npixels := TiffPixelCount(src.width, src.height);
    if !rasterAllocOk {
      closed := true;
      return;
    }
    var raster := new bv32[npixels];
    if src.readOk {
      forall k | 0 <= k < npixels {
        raster[k] := src.pixels[k];
      }
      assert raster[..] == src.pixels;
      if outAllocOk {
        out := new bv8[4 * npixels];
        UnpackRaster(raster, out);
      }
    }
    rasterFreed := true;
    closed := true;
  }

  // ---------------------------------------------------------------------------------
  // HEIF/AVIF: the decoded plane has `stride` bytes per row, of which the first
  // `width * 4` are pixels; the loader packs the rows tightly.

  /** Row `y` of a plane with `stride` bytes per row lies inside a plane of `len` bytes. */
  predicate RowFits(len: nat, rowBytes: nat, stride: nat, y: int)
  {
    0 <= y && y * stride + rowBytes <= len
  }

  lemma RowsFit(len: nat, rowBytes: nat, height: nat, stride: nat)
    requires rowBytes <= stride && height * stride <= len
    ensures forall y :: 0 <= y < height ==> RowFits(len, rowBytes, stride, y)
  {
    forall y | 0 <= y < height
      ensures RowFits(len, rowBytes, stride, y)
    {
      MulMono(y + 1, height, stride);
    }
  }

  /** The `rowBytes` pixel bytes of row `y`, which start at `y * stride`. */
  function Row(plane: seq<bv8>, rowBytes: nat, stride: nat, y: nat): (row: seq<bv8>)
    requires RowFits(|plane|, rowBytes, stride, y)
    ensures |row| == rowBytes
  {
    plane[y * stride .. y * stride + rowBytes]
  }

  /** The pixel bytes of each of the first `height` rows of the plane. */
  function PlaneRows(plane: seq<bv8>, rowBytes: nat, height: nat, stride: nat): (rows: seq<seq<bv8>>)
    requires rowBytes <= stride && height * stride <= |plane|
    ensures |rows| == height && RowsOfLength(rows, rowBytes)
  {
    RowsFit(|plane|, rowBytes, height, stride);
    seq(height, y requires 0 <= y < height && RowFits(|plane|, rowBytes, stride, y) => Row(plane, rowBytes, stride, y))
  }

  lemma PlaneRowsAt(plane: seq<bv8>, rowBytes: nat, height: nat, stride: nat, y: nat)
    requires rowBytes <= stride && height * stride <= |plane| && y < height
    ensures y * stride + rowBytes <= |plane|
    ensures PlaneRows(plane, rowBytes, height, stride)[y] == plane[y * stride .. y * stride + rowBytes]
  {
    RowsFit(|plane|, rowBytes, height, stride);
    assert RowFits(|plane|, rowBytes, stride, y);
  }

  /** The next row of the plane follows the rows before it. */
  lemma PlaneRowsSnoc(plane: seq<bv8>, rowBytes: nat, height: nat, stride: nat, y: nat)
    requires rowBytes <= stride && height * stride <= |plane| && y < height
    ensures y * stride <= |plane| && (y + 1) * stride <= |plane| && RowFits(|plane|, rowBytes, stride, y)
    ensures PlaneRows(plane, rowBytes, y + 1, stride) == PlaneRows(plane, rowBytes, y, stride) + [Row(plane, rowBytes, stride, y)]
  {
    MulMono(y + 1, height, stride);
    MulMono(y, y + 1, stride);
    RowsFit(|plane|, rowBytes, y + 1, stride);
    var longer := PlaneRows(plane, rowBytes, y + 1, stride);
    var shorter := PlaneRows(plane, rowBytes, y, stride);
    assert forall j :: 0 <= j < y ==> longer[j] == shorter[j];
  }

  /** Output row `y` starts at `y * rowBytes` and holds the plane's bytes from `y * stride`. */
  lemma PackedRowAt(plane: seq<bv8>, rowBytes: nat, height: nat, stride: nat, y: nat, x: nat)
    requires rowBytes <= stride && height * stride <= |plane|
    requires y < height && x < rowBytes
    ensures |Concat(PlaneRows(plane, rowBytes, height, stride))| == height * rowBytes
    ensures y * rowBytes + x < height * rowBytes && y * stride + x < |plane|
    ensures Concat(PlaneRows(plane, rowBytes, height, stride))[y * rowBytes + x] == plane[y * stride + x]
  {
    var rows := PlaneRows(plane, rowBytes, height, stride);
    var out := Concat(rows);
    var at, from := y * rowBytes + x, y * stride;
    assert |out| == height * rowBytes by {
      ConcatLength(rows, rowBytes);
    }
    assert at < |out| && out[at] == rows[y][x] by {
      ConcatAt(rows, rowBytes, y, x);
    }
    assert from + rowBytes <= |plane| && rows[y] == plane[from .. from + rowBytes] by {
      PlaneRowsAt(plane, rowBytes, height, stride, y);
    }
  }

  lemma MulStep(y: nat, s: nat)
    ensures (y + 1) * s == y * s + s
  {
  }

  /** The row loop of `loadImage_HeifAvif`: copy `width * 4` bytes per row, advancing the
      source by `stride` and the destination by `width * 4`. */
  method CopyPlaneRows(plane: seq<bv8>, width: nat, height: nat, stride: nat, out: array<bv8>)
    requires width * 4 <= stride && height * stride <= |plane|
    requires out.Length == width * height * 4
    modifies out
    ensures out[..] == Concat(PlaneRows(plane, width * 4, height, stride))
  {
    var rowBytes := width * 4;
    assert out.Length == height * rowBytes;
    var srcAt, destAt := 0, 0;
    for y := 0 to height
      invariant srcAt == y * stride && destAt == y * rowBytes
      invariant destAt <= out.Length
      invariant out[..destAt] == Concat(PlaneRows(plane, rowBytes, y, stride))
    {
      PlaneRowsSnoc(plane, rowBytes, height, stride, y);
      MulMono(y + 1, height, rowBytes);
      var row := plane[srcAt .. srcAt + rowBytes];
      assert row == Row(plane, rowBytes, stride, y);
      CopyInto(out, destAt, row);
      assert out[..destAt + rowBytes] == out[..destAt] + row;
      ConcatSnoc(PlaneRows(plane, rowBytes, y, stride), row);
      assert srcAt + stride == (y + 1) * stride && destAt + rowBytes == (y + 1) * rowBytes by {
        MulStep(y, stride);
        MulStep(y, rowBytes);
      }
      srcAt, destAt := srcAt + stride, destAt + rowBytes;
    }
    assert out[..destAt] == out[..];
  }

  /** What libheif reports: the context allocation, the read, the primary handle, the decode,
      the image's width, height and stride, and the plane (absent when the library returns NULL). */
  datatype HeifSource = HeifSource(
    contextOk: bool, readOk: bool, handleOk: bool, decodeOk: bool,
    width: nat, height: nat, stride: nat, plane: Option<seq<bv8>>)

  predicate HeifDecoded(src: HeifSource)
  {
    src.contextOk && src.readOk && src.handleOk && src.decodeOk
  }

  /** `loadImage_HeifAvif`. */
  method LoadHeif(src: HeifSource, outAllocOk: bool, width0: int, height0: int)
    returns (out: array?<bv8>, width: int, height: int)
    requires src.plane.Some? ==> src.width * 4 <= src.stride && src.height * src.stride <= |src.plane.value|
    ensures out != null <==> HeifDecoded(src) && src.plane.Some? && outAllocOk
    ensures out != null ==> fresh(out) && out.Length == src.width * src.height * 4
    ensures out != null ==> out[..] == Concat(PlaneRows(src.plane.value, src.width * 4, src.height, src.stride))
    ensures (width, height) == if HeifDecoded(src) then (src.width, src.height) else (width0, height0)
  {
    out, width, height := null, width0, height0;
    if !src.contextOk || !src.readOk || !src.handleOk || !src.decodeOk {
      return;
    }
    width, height := src.width, src.height;
    if src.plane.Some? && outAllocOk {
      out := new bv8[src.width * src.height * 4];
      CopyPlaneRows(src.plane.value, src.width, src.height, src.stride, out);
    }
  }

  // ---------------------------------------------------------------------------------
  // JPEG: scanline `k` of `row_stride = width * output_components` bytes is read into the
  // buffer at offset `k * row_stride`.

  /** What libjpeg-turbo reports: the file opens and reads fully, whether decoding signals an
      error (the `longjmp` back to the `setjmp`), the output size and components, and the
      scanlines it delivers. */
  datatype JpegSource = JpegSource(
    opens: bool, readOk: bool, decodeError: bool,
    width: nat, height: nat, components: nat, scanlines: seq<seq<bv8>>)

  /** The scanline loop: scanline `k` lands at `k * rowStride`. */
  method ReadScanlines(scanlines: seq<seq<bv8>>, rowStride: nat, out: array<bv8>)
    requires RowsOfLength(scanlines, rowStride) && out.Length == |scanlines| * rowStride
    modifies out
    ensures out[..] == Concat(scanlines)
  {
    var k := 0;
    while k < |scanlines|
      invariant k <= |scanlines|
      invariant out[..k * rowStride] == Concat(scanlines[..k])
    {
      MulMono(k + 1, |scanlines|, rowStride);
      var at := k * rowStride;
      CopyInto(out, at, scanlines[k]);
      assert out[..at + rowStride] == out[..at] + scanlines[k];
      assert scanlines[..k + 1] == scanlines[..k] + [scanlines[k]];
      ConcatSnoc(scanlines[..k], scanlines[k]);
      assert at + rowStride == (k + 1) * rowStride;
      k := k + 1;
    }
    assert scanlines[..k] == scanlines;
    assert out[..k * rowStride] == out[..];
  }

  /** `loadImage_JpegTurbo`. */
  method LoadJpeg(src: JpegSource, fileAllocOk: bool, outAllocOk: bool, width0: int, height0: int)
    returns (out: array?<bv8>, width: int, height: int)
    requires !src.decodeError ==> |src.scanlines| == src.height && RowsOfLength(src.scanlines, src.width * src.components)
    ensures out != null <==> src.opens && fileAllocOk && src.readOk && !src.decodeError && outAllocOk
    ensures out != null ==> fresh(out) && out.Length == src.height * (src.width * src.components)
    ensures out != null ==> out[..] == Concat(src.scanlines) && (width, height) == (src.width, src.height)
    ensures (width, height) == if src.opens && fileAllocOk && src.readOk && !src.decodeError then (src.width, src.height) else (width0, height0)
  {
    out, width, height := null, width0, height0;
    if !src.opens || !fileAllocOk || !src.readOk || src.decodeError {
      return;
    }
    width, height := src.width, src.height;
    var rowStride := src.width * src.components;
    if !outAllocOk {
      return;
    }
    out := new bv8[src.height * rowStride];
    ReadScanlines(src.scanlines, rowStride, out);
  }

  /** Scanline `k` of the JPEG output starts at `k * row_stride`. */
  lemma JpegScanlineAt(scanlines: seq<seq<bv8>>, rowStride: nat, k: nat, x: nat)
    requires RowsOfLength(scanlines, rowStride) && k < |scanlines| && x < rowStride
    ensures |Concat(scanlines)| == |scanlines| * rowStride
    ensures k * rowStride + x < |scanlines| * rowStride
    ensures Concat(scanlines)[k * rowStride + x] == scanlines[k][x]
  {
    ConcatLength(scanlines, rowStride);
    ConcatAt(scanlines, rowStride, k, x);
  }

  // ---------------------------------------------------------------------------------
  // WebP and SPNG.

  /** What libwebp reports: the file opens, the read buffer is allocated and filled, and
      `WebPDecodeRGBA` returns a buffer (or NULL) and writes the dimensions it reports. */
  datatype WebPSource = WebPSource(opens: bool, fileAllocOk: bool, readOk: bool, rgba: Option<seq<bv8>>, width: nat, height: nat)

  /** `loadImage_WebP`: copy the `width * height * 4` decoded bytes into a buffer of that size.
      `width0`/`height0` are the caller's values behind the `width`/`height` pointers, which
      only the decode call writes. */
  method LoadWebP(src: WebPSource, outAllocOk: bool, width0: int, height0: int)
    returns (out: array?<bv8>, width: int, height: int)
    requires src.rgba.Some? ==> |src.rgba.value| == src.width * src.height * 4
    ensures out != null <==> src.opens && src.fileAllocOk && src.readOk && src.rgba.Some? && outAllocOk
    ensures out != null ==> fresh(out) && out.Length == src.width * src.height * 4 && out[..] == src.rgba.value
    ensures (width, height) == if src.opens && src.fileAllocOk && src.readOk then (src.width, src.height) else (width0, height0)
  {
    out, width, height := null, width0, height0;
    if !src.opens || !src.fileAllocOk || !src.readOk {
      return;
    }
    width, height := src.width, src.height;
    if src.rgba.Some? {
      var imageSize := src.width * src.height * 4;
      if outAllocOk {
        out := new bv8[imageSize];
        CopyInto(out, 0, src.rgba.value);
        assert out[..] == out[0..imageSize];
      }
    }
  }

  /** What libspng reports: the file opens, the context is created, the header (with its
      dimensions) is read, the decoded size is known, and the decode succeeds with the pixels. */
  datatype SpngSource = SpngSource(
    opens: bool, ctxOk: bool, ihdrOk: bool, width: int, height: int,
    sizeOk: bool, imageSize: nat, decodeOk: bool, pixels: seq<bv8>)

  /** `loadImage_SPNG`: the dimensions are written only after a successful decode; a failed
      decode frees the buffer (`freedOnFailure`) and returns NULL. */
  method LoadSpng(src: SpngSource, outAllocOk: bool, width0: int, height0: int)
    returns (out: array?<bv8>, width: int, height: int, freedOnFailure: bool)
    requires src.decodeOk ==> |src.pixels| == src.imageSize
    ensures out != null <==> src.opens && src.ctxOk && src.ihdrOk && src.sizeOk && outAllocOk && src.decodeOk
    ensures out != null ==> fresh(out) && out[..] == src.pixels && (width, height) == (src.width, src.height)
    ensures out == null ==> (width, height) == (width0, height0)
    ensures freedOnFailure <==> src.opens && src.ctxOk && src.ihdrOk && src.sizeOk && outAllocOk && !src.decodeOk
  {
    out, width, height, freedOnFailure := null, width0, height0, false;
    if !src.opens || !src.ctxOk || !src.ihdrOk || !src.sizeOk || !outAllocOk {
      return;
    }
    var buffer := new bv8[src.imageSize];
    if !src.decodeOk {
      freedOnFailure := true;
      return;
    }
    CopyInto(buffer, 0, src.pixels);
    assert buffer[..] == buffer[0..src.imageSize];
    out := buffer;
    width, height := src.width, src.height;
  }
}
