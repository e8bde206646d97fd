/** Pixel access and the brightness filter of src/recolorize.ts. A pixel
    buffer is packed RGBA, four bytes per pixel, row-major; pixel n occupies
    bytes 4n (R), 4n+1 (G), 4n+2 (B) and 4n+3 (A). */
module Pixels {
  import opened ColorSpace

  /** `colorAt(i, rgba)`: the RGB of pixel i (alpha is not read). */
  function ColorAt(s: seq<Byte>, i: nat): Rgb
    requires 4 * i + 3 <= |s|
  {
    Rgb(s[4 * i], s[4 * i + 1], s[4 * i + 2])
  }

  /** The buffer after `setColorAt(i, rgba, c)`. */
  function WithColorAt(s: seq<Byte>, i: nat, c: Rgb): seq<Byte>
    requires 4 * i + 3 <= |s|
  {
    s[4 * i := c.r][4 * i + 1 := c.g][4 * i + 2 := c.b]
  }

  /** `setColorAt(i, rgba, c)`: writes the three colour bytes of pixel i in place. */
  method SetColorAt(i: nat, a: array<Byte>, c: Rgb)
    requires 4 * i + 3 <= a.Length
    modifies a
    ensures a[..] == WithColorAt(old(a[..]), i, c)
  {
    var offset := i * 4;
    a[offset] := c.r;
    a[offset + 1] := c.g;
    a[offset + 2] := c.b;
  }

  /** Writing a colour and reading it back gives that colour; the length,
      the alpha byte of the pixel and every other pixel's bytes are unchanged. */
  lemma ColorAtWithColorAt(s: seq<Byte>, i: nat, c: Rgb)
    requires 4 * i + 3 <= |s|
    ensures |WithColorAt(s, i, c)| == |s|
    ensures ColorAt(WithColorAt(s, i, c), i) == c
    ensures forall k :: 0 <= k < |s| && (k < 4 * i || k >= 4 * i + 3) ==> WithColorAt(s, i, c)[k] == s[k]
  {
  }

  /** `brightness(pixel)`: Rec. 601 luma weights, except that the green
      weight is applied to the blue byte, so green is never read. */
  function Brightness(p: Rgb): real
  {
    (0.299 * p.r as real + 0.587 * p.b as real + 0.114 * p.b as real) / 255.0
  }

  /** The skip test shared by recolorize and dominantColor: a pixel takes
      part unless `ignoreBlacks` holds and its brightness is below 0.075, or
      `ignoreWhites` holds and its brightness is above 0.925. Both thresholds
      are stated here in exact integer form; IncludedIff ties this to the
      brightness tests as the source writes them. */
  predicate Included(p: Rgb, ignoreWhites: bool, ignoreBlacks: bool)
  {
    var v := 299 * p.r + 701 * p.b;
    !(ignoreBlacks && v < 19125) && !(ignoreWhites && v > 235875)
  }

  /** The black threshold as an exact integer test on red and blue. */
  lemma DarkIff(p: Rgb)
    ensures Brightness(p) < 0.075 <==> 299 * p.r + 701 * p.b < 19125
  {
  }

  /** The white threshold as an exact integer test on red and blue. */
  lemma LightIff(p: Rgb)
    ensures Brightness(p) > 0.925 <==> 299 * p.r + 701 * p.b > 235875
  {
  }

  /** A pixel is included exactly when neither brightness test skips it. */
  lemma IncludedIff(p: Rgb, ignoreWhites: bool, ignoreBlacks: bool)
    ensures Included(p, ignoreWhites, ignoreBlacks) <==>
      !(ignoreBlacks && Brightness(p) < 0.075) && !(ignoreWhites && Brightness(p) > 0.925)
  {
    DarkIff(p);
    LightIff(p);
  }

  /** Two pixels that differ only in green get the same brightness and
      therefore the same skip decision. */
  lemma FilterIgnoresGreen(p: Rgb, g: Byte, ignoreWhites: bool, ignoreBlacks: bool)
    ensures Brightness(p.(g := g)) == Brightness(p)
    ensures Included(p.(g := g), ignoreWhites, ignoreBlacks) == Included(p, ignoreWhites, ignoreBlacks)
  {
  }

  /** The index of the first pixel of row y in a row-major image `width`
      pixels wide (`y * width`), built up one row at a time. */
  function RowStart(y: nat, width: nat): nat
  {
    if y == 0 then 0 else RowStart(y - 1, width) + width
  }

  /** Row y < height ends where row y + 1 starts, inside the image. */
  lemma {:induction false} RowStartNext(y: nat, width: nat, height: nat)
    requires y < height
    ensures RowStart(y + 1, width) == RowStart(y, width) + width <= RowStart(height, width)
    decreases height - y
  {
    if y + 1 < height {
      RowStartNext(y + 1, width, height);
    }
  }

  /** `height` rows of `width` pixels are `width * height` pixels. */
  lemma {:induction false} RowStartIsProduct(y: nat, width: nat)
    ensures RowStart(y, width) == width * y
  {
    if y > 0 {
      RowStartIsProduct(y - 1, width);
    }
  }
}
