/** The platform bitmap, replaced by an abstract pixel buffer that carries its
    dimensions and an opaque description of its pixels. Every bitmap of the
    core is ARGB_8888: the renderer creates them so and BitmapFactory decodes
    JPEG files so by default. */
module Bitmaps {

  /** Where a bitmap's pixels came from. The rasterizer is a black box, so its
      output is an opaque `Raster`, drawn over a white-filled buffer; a JPEG round trip is lossy, so decoding a
      cached file yields `Jpeg(source, quality)` rather than `source`. */
  datatype Pixels = White | Raster(id: int) | Jpeg(source: Pixels, quality: int)

  datatype Bitmap = Bitmap(width: nat, height: nat, pixels: Pixels)

  /** ARGB_8888 stores four bytes per pixel. */
  const BytesPerPixel: nat := 4

  function ByteCount(b: Bitmap): nat {
    b.width * b.height * BytesPerPixel
  }

  /** The largest pixel buffer the platform allocates: its byte size must fit
      a signed 32-bit integer, or `Bitmap.createBitmap` throws
      `OutOfMemoryError`. */
  const MaxByteCount: nat := 0x7FFF_FFFF

  /** Whether `Bitmap.createBitmap(width, height, ARGB_8888)` can succeed:
      both sides positive (otherwise it throws `IllegalArgumentException`) and
      the buffer within `MaxByteCount`. */
  predicate Allocatable(width: int, height: int) {
    width > 0 && height > 0 && width * height * BytesPerPixel <= MaxByteCount
  }

  /** The memory tier's cost of one entry: whole KiB, rounded down
      (`value.byteCount / 1024`). */
  function SizeOf(b: Bitmap): (kib: nat)
    ensures kib * 1024 <= ByteCount(b) < (kib + 1) * 1024
  {
    ByteCount(b) / 1024
  }
}
