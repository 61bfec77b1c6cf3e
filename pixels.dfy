/** Shared vocabulary of the steganography tools: 8-bit channels, four-channel
    pixels, row-major rasters, and Java's 32-bit `int` arithmetic. */
module Pixels {

  /** One 8-bit channel or payload byte, as the unsigned value Java's
      Color accessors return. */
  type Byte = b: int | 0 <= b < 0x100

  /** A pixel as four independent 8-bit channels (the java.awt.Color view). */
  datatype Pixel = Pixel(a: Byte, r: Byte, g: Byte, b: Byte)

  /** A `width x height` raster, stored row-major: pixel (x, y) sits at
      index `y * width + x`, the order in which every tool visits pixels. */
  datatype Image<P> = Image(width: nat, height: nat, pixels: seq<P>) {
    predicate Valid() {
      |pixels| == width * height
    }
  }

  datatype Option<T> = None | Some(value: T)

  const INT_MIN: int := -0x8000_0000
  const INT_MAX: int := 0x7FFF_FFFF

  /** The value a Java `int` expression takes when its mathematical value is x:
      two's-complement wrap-around into [INT_MIN, INT_MAX]. */
  function JavaInt(x: int): (r: int)
    ensures INT_MIN <= r <= INT_MAX
    ensures INT_MIN <= x <= INT_MAX ==> r == x
    ensures (x - r) % 0x1_0000_0000 == 0
  {
    (x + 0x8000_0000) % 0x1_0000_0000 - 0x8000_0000
  }

  /** Wrapping a multiple of 8 gives a multiple of 8, since 2^32 is one. */
  lemma JavaIntKeepsMultipleOf8(m: int)
    ensures JavaInt(m * 8) % 8 == 0
  {
    var q := (m * 8 + 0x8000_0000) / 0x1_0000_0000;
    assert JavaInt(m * 8) == m * 8 - q * 0x1_0000_0000;
    assert JavaInt(m * 8) == 8 * (m - q * 0x2000_0000);
  }

  /** The row-major index of an in-range (x, y) lies inside the pixel sequence. */
  lemma RowMajorInRange(x: nat, y: nat, width: nat, height: nat)
    requires x < width && y < height
    ensures y * width + x < width * height
  {
    var rest := height - 1 - y;
    assert height == y + 1 + rest;
    assert width * height == width * y + width + width * rest;
    assert y * width == width * y;
  }

  /** The first y rows of a raster fit inside it. */
  lemma RowsFit(y: nat, width: nat, height: nat)
    requires y <= height
    ensures y * width <= width * height
  {
    var rest := height - y;
    assert width * height == width * y + width * rest;
    assert y * width == width * y;
  }

  /** Row y of a raster ends inside it. */
  lemma RowFits(y: nat, width: nat, height: nat)
    requires y < height
    ensures y * width + width <= width * height
  {
    var rest := height - 1 - y;
    assert height == y + 1 + rest;
    assert width * height == width * y + width + width * rest;
    assert y * width == width * y;
  }

  /** Pixel (x, y) of a valid image. */
  function At<P>(image: Image<P>, x: nat, y: nat): P
    requires image.Valid() && x < image.width && y < image.height
  {
    RowMajorInRange(x, y, image.width, image.height);
    image.pixels[y * image.width + x]
  }
}
