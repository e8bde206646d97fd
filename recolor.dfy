/** The recolouring pass of src/recolorize.ts: one correction vector,
    applied in place to every pixel that passes the brightness filter. */
module Recolor {
  import opened ColorSpace
  import opened Pixels

  /** The buffer after the pass has visited pixels 0 .. count - 1 in order:
      each visited pixel that passes the filter gets the correction of its
      original colour written over its three colour bytes. */
  function Recolored(s: seq<Byte>, count: nat, correct: Rgb -> Rgb,
                     ignoreWhites: bool, ignoreBlacks: bool): (r: seq<Byte>)
    requires 4 * count <= |s|
    ensures |r| == |s|
    decreases count
  {
    if count == 0 then s
    else
      var prev := Recolored(s, count - 1, correct, ignoreWhites, ignoreBlacks);
      var pixel := ColorAt(s, count - 1);
      if Included(pixel, ignoreWhites, ignoreBlacks)
      then WithColorAt(prev, count - 1, correct(pixel))
      else prev
  }

  /** Byte i of the recoloured buffer, stated directly: a colour byte of an
      included pixel below `count` takes the matching channel of the
      corrected original colour; any other byte keeps its value. */
  function RecoloredByte(s: seq<Byte>, count: nat, correct: Rgb -> Rgb,
                         ignoreWhites: bool, ignoreBlacks: bool, i: nat): Byte
    requires 4 * count <= |s| && i < |s|
  {
    if i < 4 * count && i % 4 < 3 && Included(ColorAt(s, i / 4), ignoreWhites, ignoreBlacks)
    then Channel(correct(ColorAt(s, i / 4)), i % 4)
    else s[i]
  }

  function Channel(c: Rgb, k: nat): Byte
    requires k < 3
  {
    if k == 0 then c.r else if k == 1 then c.g else c.b
  }

  /** The pixel-by-pixel pass and the byte-wise description agree on every byte. */
  lemma {:induction false} RecoloredBytes(s: seq<Byte>, count: nat, correct: Rgb -> Rgb,
                                          ignoreWhites: bool, ignoreBlacks: bool, i: nat)
    requires 4 * count <= |s| && i < |s|
    ensures Recolored(s, count, correct, ignoreWhites, ignoreBlacks)[i]
         == RecoloredByte(s, count, correct, ignoreWhites, ignoreBlacks, i)
  {
    if count > 0 {
      var n := count - 1;
      RecoloredBytes(s, n, correct, ignoreWhites, ignoreBlacks, i);
      if 4 * n <= i < 4 * n + 4 {
        assert i / 4 == n;
      } else {
        assert i < 4 * n ==> i / 4 < n;
      }
    }
  }

  /** Visiting the first n pixels leaves pixel n as it was. */
  lemma RecoloredUnvisited(s: seq<Byte>, n: nat, correct: Rgb -> Rgb, ignoreWhites: bool, ignoreBlacks: bool)
    requires 4 * (n + 1) <= |s|
    ensures ColorAt(Recolored(s, n, correct, ignoreWhites, ignoreBlacks), n) == ColorAt(s, n)
  {
    RecoloredBytes(s, n, correct, ignoreWhites, ignoreBlacks, 4 * n);
    RecoloredBytes(s, n, correct, ignoreWhites, ignoreBlacks, 4 * n + 1);
    RecoloredBytes(s, n, correct, ignoreWhites, ignoreBlacks, 4 * n + 2);
  }

  /** Visiting a pixel that the filter skips writes nothing. */
  lemma RecoloredSkipStep(s: seq<Byte>, n: nat, correct: Rgb -> Rgb, ignoreWhites: bool, ignoreBlacks: bool)
    requires 4 * (n + 1) <= |s|
    requires !Included(ColorAt(s, n), ignoreWhites, ignoreBlacks)
    ensures Recolored(s, n + 1, correct, ignoreWhites, ignoreBlacks) == Recolored(s, n, correct, ignoreWhites, ignoreBlacks)
  {
  }

  /** Visiting a pixel that passes the filter writes its corrected original colour. */
  lemma RecoloredWriteStep(s: seq<Byte>, n: nat, correct: Rgb -> Rgb, ignoreWhites: bool, ignoreBlacks: bool)
    requires 4 * (n + 1) <= |s|
    requires Included(ColorAt(s, n), ignoreWhites, ignoreBlacks)
    ensures Recolored(s, n + 1, correct, ignoreWhites, ignoreBlacks)
         == WithColorAt(Recolored(s, n, correct, ignoreWhites, ignoreBlacks), n, correct(ColorAt(s, n)))
  {
  }

  /** `p => applyCorrection(p, correction)` */
  function Applier(pow: Pow, correction: Lab): Rgb -> Rgb
  {
    p => ApplyCorrection(pow, p, correction)
  }

  /** The per-pixel map of one pass: the correction vector is that of
      `colorCorrection(srcColor, targetColor)`, the same for every pixel. */
  function Corrector(pow: Pow, srcColor: Rgb, targetColor: Rgb): Rgb -> Rgb
  {
    Applier(pow, ColorCorrection(pow, srcColor, targetColor))
  }

  /** `recolorize(buffer, width, height, srcColor, targetColor, ignoreWhites, ignoreBlacks)`:
      computes the correction once, then visits the `width * height` pixels
      row by row; the buffer ends as Recolored describes. */
  method Recolorize(pow: Pow, rgba: array<Byte>, width: nat, height: nat, srcColor: Rgb, targetColor: Rgb,
                    ignoreWhites: bool, ignoreBlacks: bool)
    requires 4 * (width * height) <= rgba.Length
    modifies rgba
    ensures rgba[..] == Recolored(old(rgba[..]), width * height, Corrector(pow, srcColor, targetColor),
                                  ignoreWhites, ignoreBlacks)
  {
    var correction := ColorCorrection(pow, srcColor, targetColor);
    RowStartIsProduct(height, width);
    RecolorRows(pow, rgba, width, height, correction, ignoreWhites, ignoreBlacks);
  }

  /** The row loop of `recolorize`; `rowStart` is the index `y * width` of
      the first pixel of row y. */
  method RecolorRows(pow: Pow, rgba: array<Byte>, width: nat, height: nat, correction: Lab,
                     ignoreWhites: bool, ignoreBlacks: bool)
    requires 4 * RowStart(height, width) <= rgba.Length
    modifies rgba
    ensures rgba[..] == Recolored(old(rgba[..]), RowStart(height, width), Applier(pow, correction),
                                  ignoreWhites, ignoreBlacks)
  {
    ghost var original := rgba[..];
    var rowStart := 0;
    for y := 0 to height
      invariant rowStart == RowStart(y, width) <= RowStart(height, width)
      invariant rgba[..] == Recolored(original, rowStart, Applier(pow, correction), ignoreWhites, ignoreBlacks)
    {
      RowStartNext(y, width, height);
      var rowEnd := rowStart + width;
      RecolorRow(pow, rgba, rowStart, rowEnd, correction, ignoreWhites, ignoreBlacks, original);
      rowStart := rowEnd;
    }
  }

  /** The column loop of `recolorize` over one row: pixels
      `rowStart .. rowEnd - 1`, that is `y * width + x` for x from 0 to width - 1. */
  method RecolorRow(pow: Pow, rgba: array<Byte>, rowStart: nat, rowEnd: nat, correction: Lab,
                    ignoreWhites: bool, ignoreBlacks: bool, ghost original: seq<Byte>)
    requires rowStart <= rowEnd && 4 * rowEnd <= |original| == rgba.Length
    requires rgba[..] == Recolored(original, rowStart, Applier(pow, correction), ignoreWhites, ignoreBlacks)
    modifies rgba
    ensures rgba[..] == Recolored(original, rowEnd, Applier(pow, correction), ignoreWhites, ignoreBlacks)
  {
    for n := rowStart to rowEnd
      invariant rgba[..] == Recolored(original, n, Applier(pow, correction), ignoreWhites, ignoreBlacks)
    {
      RecolorPixel(pow, rgba, n, correction, ignoreWhites, ignoreBlacks, original);
    }
  }

  /** The body of the pixel loop of `recolorize`, for pixel n: read it, skip
      it when it is too dark or too light, otherwise write its correction. */
  method RecolorPixel(pow: Pow, rgba: array<Byte>, n: nat, correction: Lab,
                      ignoreWhites: bool, ignoreBlacks: bool, ghost original: seq<Byte>)
    requires 4 * (n + 1) <= |original| == rgba.Length
    requires rgba[..] == Recolored(original, n, Applier(pow, correction), ignoreWhites, ignoreBlacks)
    modifies rgba
    ensures rgba[..] == Recolored(original, n + 1, Applier(pow, correction), ignoreWhites, ignoreBlacks)
  {
    ghost var correct := Applier(pow, correction);
    RecoloredUnvisited(original, n, correct, ignoreWhites, ignoreBlacks);
    var pixel := ColorAt(rgba[..], n);
    IncludedIff(pixel, ignoreWhites, ignoreBlacks);

    // near-black and near-white pixels are probably background: left as they are
    var gray := Brightness(pixel);
    if ignoreBlacks && gray < 0.075 {
      RecoloredSkipStep(original, n, correct, ignoreWhites, ignoreBlacks);
      return;
    }
    if ignoreWhites && gray > 0.925 {
      RecoloredSkipStep(original, n, correct, ignoreWhites, ignoreBlacks);
      return;
    }

    var corrected := ApplyCorrection(pow, pixel, correction);
    RecoloredWriteStep(original, n, correct, ignoreWhites, ignoreBlacks);
    SetColorAt(n, rgba, corrected);
  }

  /** Each pixel n below `count` ends as the correction of its original
      colour if it passes the filter and as its original colour otherwise;
      its alpha byte is kept either way. */
  lemma RecoloredPixel(s: seq<Byte>, count: nat, correct: Rgb -> Rgb,
                       ignoreWhites: bool, ignoreBlacks: bool, n: nat)
    requires 4 * count <= |s| && n < count
    ensures var r := Recolored(s, count, correct, ignoreWhites, ignoreBlacks);
      && ColorAt(r, n) == (if Included(ColorAt(s, n), ignoreWhites, ignoreBlacks)
                           then correct(ColorAt(s, n))
                           else ColorAt(s, n))
      && r[4 * n + 3] == s[4 * n + 3]
  {
    RecoloredChannel(s, count, correct, ignoreWhites, ignoreBlacks, n, 0);
    RecoloredChannel(s, count, correct, ignoreWhites, ignoreBlacks, n, 1);
    RecoloredChannel(s, count, correct, ignoreWhites, ignoreBlacks, n, 2);
    RecoloredChannel(s, count, correct, ignoreWhites, ignoreBlacks, n, 3);
  }

  /** Byte k of a visited pixel n: a colour channel of the correction when
      the pixel is included, the original byte otherwise. */
  lemma RecoloredChannel(s: seq<Byte>, count: nat, correct: Rgb -> Rgb,
                         ignoreWhites: bool, ignoreBlacks: bool, n: nat, k: nat)
    requires 4 * count <= |s| && n < count && k < 4
    ensures Recolored(s, count, correct, ignoreWhites, ignoreBlacks)[4 * n + k]
         == if k < 3 && Included(ColorAt(s, n), ignoreWhites, ignoreBlacks)
            then Channel(correct(ColorAt(s, n)), k) else s[4 * n + k]
  {
    RecoloredBytes(s, count, correct, ignoreWhites, ignoreBlacks, 4 * n + k);
    assert (4 * n + k) / 4 == n && (4 * n + k) % 4 == k;
  }

  /** A pixel skipped as black or as white keeps all four of its bytes. */
  lemma RecoloredSkipsFiltered(s: seq<Byte>, count: nat, correct: Rgb -> Rgb,
                               ignoreWhites: bool, ignoreBlacks: bool, n: nat)
    requires 4 * count <= |s| && n < count
    requires (ignoreBlacks && Brightness(ColorAt(s, n)) < 0.075) || (ignoreWhites && Brightness(ColorAt(s, n)) > 0.925)
    ensures Recolored(s, count, correct, ignoreWhites, ignoreBlacks)[4 * n .. 4 * n + 4] == s[4 * n .. 4 * n + 4]
  {
    IncludedIff(ColorAt(s, n), ignoreWhites, ignoreBlacks);
    RecoloredPixel(s, count, correct, ignoreWhites, ignoreBlacks, n);
  }

  /** Alpha bytes, and every byte of pixels at or past `count`, are never written. */
  lemma RecoloredFrame(s: seq<Byte>, count: nat, correct: Rgb -> Rgb,
                       ignoreWhites: bool, ignoreBlacks: bool, i: nat)
    requires 4 * count <= |s| && i < |s|
    requires i % 4 == 3 || i >= 4 * count
    ensures Recolored(s, count, correct, ignoreWhites, ignoreBlacks)[i] == s[i]
  {
  }

  /** Pixels are independent: two pixels of the same colour end with the
      same colour (a uniform image is recoloured uniformly). */
  lemma RecoloredUniform(s: seq<Byte>, count: nat, correct: Rgb -> Rgb,
                         ignoreWhites: bool, ignoreBlacks: bool, n: nat, m: nat)
    requires 4 * count <= |s| && n < count && m < count
    requires ColorAt(s, n) == ColorAt(s, m)
    ensures var r := Recolored(s, count, correct, ignoreWhites, ignoreBlacks);
      ColorAt(r, n) == ColorAt(r, m)
  {
    RecoloredPixel(s, count, correct, ignoreWhites, ignoreBlacks, n);
    RecoloredPixel(s, count, correct, ignoreWhites, ignoreBlacks, m);
  }
}
