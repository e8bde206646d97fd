/** The colour maths of src/recolorize.ts: sRGB <-> CIE L*a*b* (D65), the
    correction vector between two colours and its application to a pixel.

    JavaScript doubles are modelled as exact reals. The one transcendental
    operation, `Math.pow`, is a parameter `pow`: every other step (the
    piecewise transfer functions, the matrices, the clamp and the rounding)
    is written out with the source's own constants. */
module ColorSpace {

  /** One channel of a Uint8ClampedArray. */
  type Byte = x: int | 0 <= x < 256

  /** An RGB colour as read from or written to the pixel buffer. */
  datatype Rgb = Rgb(r: Byte, g: Byte, b: Byte)

  /** A colour in L*a*b*, also used for the correction vector. */
  datatype Lab = Lab(l: real, a: real, b: real)

  /** `Math.pow(base, exponent)`, left uninterpreted. */
  type Pow = (real, real) -> real

  const White := Rgb(255, 255, 255)

  /** Inverse sRGB transfer function of one channel in [0,1]. */
  function Linearize(pow: Pow, c: real): real
  {
    if c > 0.04045 then pow((c + 0.055) / 1.055, 2.4) else c / 12.92
  }

  /** The L*a*b* non-linearity. */
  function LabCurve(pow: Pow, t: real): real
  {
    if t > 0.008856 then pow(t, 1.0 / 3.0) else 7.787 * t + 16.0 / 116.0
  }

  function RgbToLab(pow: Pow, color: Rgb): Lab
  {
    var r := Linearize(pow, color.r as real / 255.0);
    var g := Linearize(pow, color.g as real / 255.0);
    var b := Linearize(pow, color.b as real / 255.0);
    var x := LabCurve(pow, (r * 0.4124 + g * 0.3576 + b * 0.1805) / 0.95047);
    var y := LabCurve(pow, (r * 0.2126 + g * 0.7152 + b * 0.0722) / 1.00000);
    var z := LabCurve(pow, (r * 0.0193 + g * 0.1192 + b * 0.9505) / 1.08883);
    Lab(116.0 * y - 16.0, 500.0 * (x - y), 200.0 * (y - z))
  }

  /** Inverse of LabCurve (the cube is computed by multiplication in the source). */
  function LabCurveInverse(t: real): real
  {
    if t * t * t > 0.008856 then t * t * t else (t - 16.0 / 116.0) / 7.787
  }

  /** Forward sRGB transfer function. */
  function Delinearize(pow: Pow, c: real): real
  {
    if c > 0.0031308 then 1.055 * pow(c, 1.0 / 2.4) - 0.055 else 12.92 * c
  }

  /** `Math.max(0, Math.min(1, v))` */
  function Clamp01(v: real): (c: real)
    ensures 0.0 <= c <= 1.0
    ensures 0.0 <= v <= 1.0 ==> c == v
    ensures v < 0.0 ==> c == 0.0
    ensures v > 1.0 ==> c == 1.0
  {
    var m := if 1.0 < v then 1.0 else v;
    if 0.0 > m then 0.0 else m
  }

  /** `Math.round(Math.max(0, Math.min(1, v)) * 255)`: the nearest integer to
      the clamped, scaled value, halves rounded up; always a byte. */
  function ToByte(v: real): (b: Byte)
    ensures b as real - 0.5 <= Clamp01(v) * 255.0 < b as real + 0.5
    ensures v <= 0.0 ==> b == 0
    ensures v >= 1.0 ==> b == 255
  {
    (Clamp01(v) * 255.0 + 0.5).Floor
  }

  function LabToRgb(pow: Pow, color: Lab): Rgb
  {
    var y0 := (color.l + 16.0) / 116.0;
    var x0 := color.a / 500.0 + y0;
    var z0 := y0 - color.b / 200.0;
    var x := 0.95047 * LabCurveInverse(x0);
    var y := 1.00000 * LabCurveInverse(y0);
    var z := 1.08883 * LabCurveInverse(z0);
    var r := x * 3.2406 + y * -1.5372 + z * -0.4986;
    var g := x * -0.9689 + y * 1.8758 + z * 0.0415;
    var b := x * 0.0557 + y * -0.2040 + z * 1.0570;
    Rgb(ToByte(Delinearize(pow, r)), ToByte(Delinearize(pow, g)), ToByte(Delinearize(pow, b)))
  }

  function AddLab(c: Lab, d: Lab): Lab
  {
    Lab(c.l + d.l, c.a + d.a, c.b + d.b)
  }

  /** The Lab-space vector that carries `selected` onto `target`. */
  function ColorCorrection(pow: Pow, selected: Rgb, target: Rgb): (d: Lab)
    ensures AddLab(RgbToLab(pow, selected), d) == RgbToLab(pow, target)
    ensures selected == target ==> d == Lab(0.0, 0.0, 0.0)
  {
    var start := RgbToLab(pow, selected);
    var end := RgbToLab(pow, target);
    Lab(end.l - start.l, end.a - start.a, end.b - start.b)
  }

  function ApplyCorrection(pow: Pow, rgb: Rgb, correction: Lab): Rgb
  {
    LabToRgb(pow, AddLab(RgbToLab(pow, rgb), correction))
  }

  /** Correcting the selected colour itself gives the target colour, as far
      as the Lab round trip of the target reproduces it. */
  lemma CorrectionMapsSelectedToTarget(pow: Pow, selected: Rgb, target: Rgb)
    ensures ApplyCorrection(pow, selected, ColorCorrection(pow, selected, target))
         == LabToRgb(pow, RgbToLab(pow, target))
  {
  }

  /** Correcting by the zero vector (selected == target) is the Lab round trip. */
  lemma ZeroCorrection(pow: Pow, c: Rgb, p: Rgb)
    ensures ApplyCorrection(pow, p, ColorCorrection(pow, c, c)) == LabToRgb(pow, RgbToLab(pow, p))
  {
    var z := ColorCorrection(pow, c, c);
    assert AddLab(RgbToLab(pow, p), z) == RgbToLab(pow, p);
  }
}
