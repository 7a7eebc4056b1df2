/** The placeholder camera picture: a gradient whose red and green grow from
    left to right and whose blue grows from top to bottom, handed on as 3
    bytes per pixel, row by row. */
module Camera {
  import opened Text

  /** The value of colour channel `c` (0 red, 1 green, 2 blue) at pixel (x, y). */
  function Channel(x: nat, y: nat, c: nat, width: nat, height: nat): int
    requires width > 0 && height > 0
  {
    if c < 2 then x * 255 / width else y * 255 / height
  }

  /** The byte at offset `i` of the picture: pixel i / 3 in row-major order,
      channel i % 3. */
  function ImageByte(i: nat, width: nat, height: nat): int
  {
    if width == 0 || height == 0 then 0
    else
      var p := i / 3;
      Channel(p % width, p / width, i % 3, width, height)
  }

  /** Quotient and remainder are determined by any decomposition with a
      remainder in range. */
  lemma DivModOf(n: nat, d: nat, q: nat, r: nat)
    requires 0 <= r < d && n == q * d + r
    ensures n / d == q && n % d == r
  {
    var q', r' := n / d, n % d;
    assert q' * d + r' == q * d + r;
    assert q' > q ==> q' * d >= (q + 1) * d;
    assert q' < q ==> q * d >= (q' + 1) * d;
  }

  /** Row-major offsets of the pixels stay below width * height. */
  lemma RowMajorBound(x: nat, y: nat, width: nat, height: nat)
    requires x < width && y < height
    ensures y * width + x < width * height
  {
    assert y * width <= (height - 1) * width;
    assert (height - 1) * width + width == width * height;
  }

  /** The rows up to and including row y fit in the picture. */
  lemma RowsFit(y: nat, width: nat, height: nat)
    requires y < height
    ensures 3 * ((y + 1) * width) <= 3 * width * height
  {
    assert (y + 1) * width <= height * width;
  }

  /** Every byte of the picture is one channel of one pixel, and each pixel's
      channel sits at offset 3 * (y * width + x) + c. */
  lemma PixelByte(x: nat, y: nat, c: nat, width: nat, height: nat)
    requires x < width && y < height && c < 3
    ensures ImageByte(3 * (y * width + x) + c, width, height) == Channel(x, y, c, width, height)
    ensures 3 * (y * width + x) + c < 3 * width * height
  {
    var p := y * width + x;
    var n := width * height;
    DivModOf(3 * p + c, 3, p, c);
    DivModOf(p, width, y, x);
    RowMajorBound(x, y, width, height);
    assert 3 * width * height == 3 * n;
  }

  /** Every offset of the picture belongs to exactly one pixel and channel. */
  lemma ByteOwner(i: nat, width: nat, height: nat)
    requires i < 3 * width * height
    ensures width > 0 && height > 0
    ensures var p := i / 3; var x, y, c := p % width, p / width, i % 3;
      y < height && i == 3 * (y * width + x) + c
  {
    var p := i / 3;
    assert p < width * height;
    assert p == (p / width) * width + p % width;
  }

  /** A channel value lies in 0..254: x < width keeps x * 255 / width below 255. */
  lemma ChannelBound(v: nat, n: nat)
    requires v < n
    ensures 0 <= v * 255 / n <= 254
  {
  }

  /** A channel value never passes its bound. */
  lemma ChannelRange(x: nat, y: nat, c: nat, width: nat, height: nat)
    requires x < width && y < height
    ensures 0 <= Channel(x, y, c, width, height) <= 254
  {
    ChannelBound(x, width);
    ChannelBound(y, height);
  }

  /** Every byte of the picture is a channel value in 0..254. */
  lemma ImageByteRange(i: nat, width: nat, height: nat)
    requires i < 3 * width * height
    ensures 0 <= ImageByte(i, width, height) <= 254
  {
    ByteOwner(i, width, height);
    var p := i / 3;
    ChannelRange(p % width, p / width, i % 3, width, height);
  }

  /** The inner loop: the pixels of row `y`, whose first pixel is number `row`. */
  method FillRow(rgb: array<byte>, y: nat, row: nat, width: nat, height: nat)
    requires y < height && row == y * width && 3 * (row + width) <= rgb.Length
    requires forall i :: 0 <= i < 3 * row ==> rgb[i] as int == ImageByte(i, width, height)
    modifies rgb
    ensures forall i :: 0 <= i < 3 * (row + width) ==> rgb[i] as int == ImageByte(i, width, height)
  {
    var x := 0;
    while x < width
      invariant 0 <= x <= width
      invariant forall i :: 0 <= i < 3 * (row + x) ==> rgb[i] as int == ImageByte(i, width, height)
    {
      var base := 3 * (row + x);
      PixelByte(x, y, 0, width, height);
      PixelByte(x, y, 1, width, height);
      PixelByte(x, y, 2, width, height);
      ChannelBound(x, width);
      ChannelBound(y, height);
      rgb[base + 0] := (x * 255 / width) as byte;
      rgb[base + 1] := (x * 255 / width) as byte;
      rgb[base + 2] := (y * 255 / height) as byte;
      x := x + 1;
    }
  }

  /** Builds the placeholder picture for a width x height camera. When the
      picture buffer cannot be allocated (`allocates` false) the output is
      null and the length is not set. Otherwise the picture is filled and the
      output length is two bytes per pixel. */
  method DummyImage(width: nat, height: nat, allocates: bool) returns (rgb: array?<byte>, outLen: Option<int>)
    ensures !allocates ==> rgb == null && outLen == None
    ensures allocates ==> rgb != null && fresh(rgb) && rgb.Length == 3 * width * height
    ensures allocates ==> outLen == Some(width * height * 2)
    ensures allocates ==> forall i :: 0 <= i < rgb.Length ==> rgb[i] as int == ImageByte(i, width, height)
  {
    if !allocates {
      return null, None;
    }
    rgb := new byte[3 * width * height];
    var y, row := 0, 0;
    while y < height
      invariant 0 <= y <= height && row == y * width
      invariant forall i :: 0 <= i < 3 * row ==> rgb[i] as int == ImageByte(i, width, height)
    {
      assert (y + 1) * width == row + width;
      RowsFit(y, width, height);
      FillRow(rgb, y, row, width, height);
      y, row := y + 1, row + width;
    }
    assert 3 * row == rgb.Length;
    outLen := Some(width * height * 2);
  }
}
