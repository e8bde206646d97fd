/** `dominantColor` of src/recolorize.ts: the most frequent colour among the
    pixels that pass the brightness filter, white when none does. */
module Dominant {
  import opened ColorSpace
  import opened Pixels

  /** The colours of the pixels among the first `count` that pass the
      filter, in visiting order. */
  function IncludedPixels(s: seq<Byte>, count: nat, ignoreWhites: bool, ignoreBlacks: bool): (xs: seq<Rgb>)
    requires 4 * count <= |s|
    ensures |xs| <= count
    decreases count
  {
    if count == 0 then []
    else
      var prev := IncludedPixels(s, count - 1, ignoreWhites, ignoreBlacks);
      var pixel := ColorAt(s, count - 1);
      if Included(pixel, ignoreWhites, ignoreBlacks) then prev + [pixel] else prev
  }

  /** How often colour c occurs in xs. */
  function Count(xs: seq<Rgb>, c: Rgb): nat
  {
    multiset(xs)[c]
  }

  /** `(map.get(key) || 0)`: a colour never seen counts zero. */
  function Lookup(hist: map<Rgb, nat>, c: Rgb): nat
  {
    if c in hist then hist[c] else 0
  }

  /** The histogram the loop has built after seeing xs. */
  function Histogram(xs: seq<Rgb>): map<Rgb, nat>
  {
    if xs == [] then map[]
    else
      var hist := Histogram(xs[..|xs| - 1]);
      var c := xs[|xs| - 1];
      hist[c := Lookup(hist, c) + 1]
  }

  /** The pair (maxColor, maxCount) of the loop. */
  datatype Tally = Tally(color: Rgb, count: nat)

  /** (maxColor, maxCount) after the loop has seen xs: starts at white and
      zero, and a colour takes the lead only when its running count goes
      strictly above the current maximum. */
  function Scan(xs: seq<Rgb>): (t: Tally)
    ensures xs == [] ==> t == Tally(White, 0)
    ensures xs != [] ==> t.color in xs && Count(xs, t.color) == t.count
    ensures forall c :: Count(xs, c) <= t.count
  {
    if xs == [] then Tally(White, 0)
    else
      var prev := xs[..|xs| - 1];
      var c := xs[|xs| - 1];
      assert xs == prev + [c];
      assert multiset(xs) == multiset(prev) + multiset{c};
      assert forall d :: Count(xs, d) == Count(prev, d) + (if d == c then 1 else 0);
      var t := Scan(prev);
      var value := Count(xs, c);
      if value > t.count then Tally(c, value) else t
  }

  /** The result of `dominantColor` on the first `count` pixels of s. */
  function DominantColorOf(s: seq<Byte>, count: nat, ignoreWhites: bool, ignoreBlacks: bool): Rgb
    requires 4 * count <= |s|
  {
    Scan(IncludedPixels(s, count, ignoreWhites, ignoreBlacks)).color
  }

  /** The histogram holds the number of occurrences of every colour. */
  lemma {:induction false} HistogramCounts(xs: seq<Rgb>, c: Rgb)
    ensures Lookup(Histogram(xs), c) == Count(xs, c)
  {
    if xs != [] {
      var prev := xs[..|xs| - 1];
      assert xs == prev + [xs[|xs| - 1]];
      HistogramCounts(prev, c);
    }
  }

  /** Ties go to the colour that reached the top count first: in every
      prefix where some colour already has the final maximum, the chosen
      colour has it too. */
  lemma {:induction false} ScanFirstToReach(xs: seq<Rgb>, k: nat, d: Rgb)
    requires k <= |xs|
    requires Count(xs[..k], d) == Scan(xs).count
    ensures Count(xs[..k], Scan(xs).color) == Scan(xs).count
  {
    if xs == [] {
      return;
    }
    var prev := xs[..|xs| - 1];
    var c := xs[|xs| - 1];
    assert xs == prev + [c];
    var t := Scan(prev);
    var t' := Scan(xs);
    if k == |xs| {
      assert xs[..k] == xs;
      if Count(xs, c) <= t.count && c != t.color && prev != [] {
        assert Count(xs, t.color) == Count(prev, t.color);
      }
      return;
    }
    assert xs[..k] == prev[..k];
    if Count(xs, c) > t.count {
      PrefixCount(prev, k, d);
      assert false;
    } else {
      ScanFirstToReach(prev, k, d);
    }
  }

  /** A prefix holds no more occurrences than the whole sequence. */
  lemma PrefixCount(xs: seq<Rgb>, k: nat, c: Rgb)
    requires k <= |xs|
    ensures Count(xs[..k], c) <= Count(xs, c)
  {
    assert xs == xs[..k] + xs[k..];
  }

  /** The colours in IncludedPixels are exactly the included pixels' colours. */
  lemma {:induction false} IncludedPixelsMembers(s: seq<Byte>, count: nat, ignoreWhites: bool, ignoreBlacks: bool, c: Rgb)
    requires 4 * count <= |s|
    ensures c in IncludedPixels(s, count, ignoreWhites, ignoreBlacks) <==>
            exists n :: 0 <= n < count && ColorAt(s, n) == c && Included(ColorAt(s, n), ignoreWhites, ignoreBlacks)
  {
    if count > 0 {
      IncludedPixelsMembers(s, count - 1, ignoreWhites, ignoreBlacks, c);
      if Included(ColorAt(s, count - 1), ignoreWhites, ignoreBlacks) && ColorAt(s, count - 1) == c {
        assert c in IncludedPixels(s, count, ignoreWhites, ignoreBlacks);
      }
    }
  }

  /** The indices below `count` of the pixels of colour c that pass the filter. */
  function PixelsOfColor(s: seq<Byte>, count: nat, ignoreWhites: bool, ignoreBlacks: bool, c: Rgb): set<nat>
    requires 4 * count <= |s|
  {
    set n: nat | n < count && ColorAt(s, n) == c && Included(ColorAt(s, n), ignoreWhites, ignoreBlacks)
  }

  /** The count a colour has among the included pixels is its number of
      pixels that pass the filter. */
  lemma {:induction false} IncludedPixelsCount(s: seq<Byte>, count: nat, ignoreWhites: bool, ignoreBlacks: bool, c: Rgb)
    requires 4 * count <= |s|
    ensures Count(IncludedPixels(s, count, ignoreWhites, ignoreBlacks), c)
            == |PixelsOfColor(s, count, ignoreWhites, ignoreBlacks, c)|
  {
    if count == 0 {
      assert PixelsOfColor(s, 0, ignoreWhites, ignoreBlacks, c) == {};
    } else {
      var n := count - 1;
      IncludedPixelsCount(s, n, ignoreWhites, ignoreBlacks, c);
      IncludedCountStep(s, n, ignoreWhites, ignoreBlacks, c);
      PixelsOfColorStep(s, n, ignoreWhites, ignoreBlacks, c);
      var before := PixelsOfColor(s, n, ignoreWhites, ignoreBlacks, c);
      if ColorAt(s, n) == c && Included(ColorAt(s, n), ignoreWhites, ignoreBlacks) {
        assert |before + {n}| == |before| + 1;
      }
    }
  }

  /** One more pixel adds one to its colour's count when it is included. */
  lemma IncludedCountStep(s: seq<Byte>, n: nat, ignoreWhites: bool, ignoreBlacks: bool, c: Rgb)
    requires 4 * (n + 1) <= |s|
    ensures var hit := ColorAt(s, n) == c && Included(ColorAt(s, n), ignoreWhites, ignoreBlacks);
            Count(IncludedPixels(s, n + 1, ignoreWhites, ignoreBlacks), c)
            == Count(IncludedPixels(s, n, ignoreWhites, ignoreBlacks), c) + (if hit then 1 else 0)
  {
    var prev := IncludedPixels(s, n, ignoreWhites, ignoreBlacks);
    var pixel := ColorAt(s, n);
    assert multiset(prev + [pixel]) == multiset(prev) + multiset{pixel};
  }

  /** One more pixel joins its colour's index set when it is included. */
  lemma PixelsOfColorStep(s: seq<Byte>, n: nat, ignoreWhites: bool, ignoreBlacks: bool, c: Rgb)
    requires 4 * (n + 1) <= |s|
    ensures var hit := ColorAt(s, n) == c && Included(ColorAt(s, n), ignoreWhites, ignoreBlacks);
            var before := PixelsOfColor(s, n, ignoreWhites, ignoreBlacks, c);
            n !in before
            && PixelsOfColor(s, n + 1, ignoreWhites, ignoreBlacks, c) == before + (if hit then {n} else {})
  {
  }

  /** With no included pixel (in particular when width or height is 0) the
      result is white. */
  lemma DominantDefaultsToWhite(s: seq<Byte>, count: nat, ignoreWhites: bool, ignoreBlacks: bool)
    requires 4 * count <= |s|
    requires forall n :: 0 <= n < count ==> !Included(ColorAt(s, n), ignoreWhites, ignoreBlacks)
    ensures DominantColorOf(s, count, ignoreWhites, ignoreBlacks) == White
  {
    var xs := IncludedPixels(s, count, ignoreWhites, ignoreBlacks);
    if xs != [] {
      IncludedPixelsMembers(s, count, ignoreWhites, ignoreBlacks, xs[0]);
    }
  }

  /** Otherwise the result is the colour of an included pixel, and no
      colour occurs among the included pixels more often. */
  lemma DominantIsMostFrequent(s: seq<Byte>, count: nat, ignoreWhites: bool, ignoreBlacks: bool, n: nat)
    requires 4 * count <= |s| && n < count
    requires Included(ColorAt(s, n), ignoreWhites, ignoreBlacks)
    ensures var xs := IncludedPixels(s, count, ignoreWhites, ignoreBlacks);
            var c := DominantColorOf(s, count, ignoreWhites, ignoreBlacks);
            (exists m :: 0 <= m < count && ColorAt(s, m) == c && Included(ColorAt(s, m), ignoreWhites, ignoreBlacks))
            && forall d :: Count(xs, d) <= Count(xs, c)
  {
    var xs := IncludedPixels(s, count, ignoreWhites, ignoreBlacks);
    IncludedPixelsMembers(s, count, ignoreWhites, ignoreBlacks, ColorAt(s, n));
    IncludedPixelsMembers(s, count, ignoreWhites, ignoreBlacks, Scan(xs).color);
  }

  /** The included pixels among the first m are a prefix of those among
      the first count, for m <= count. */
  lemma {:induction false} IncludedPixelsPrefix(s: seq<Byte>, m: nat, count: nat, ignoreWhites: bool, ignoreBlacks: bool)
    requires m <= count && 4 * count <= |s|
    ensures var ys := IncludedPixels(s, m, ignoreWhites, ignoreBlacks);
            var xs := IncludedPixels(s, count, ignoreWhites, ignoreBlacks);
            |ys| <= |xs| && ys == xs[..|ys|]
    decreases count
  {
    if m < count {
      IncludedPixelsPrefix(s, m, count - 1, ignoreWhites, ignoreBlacks);
      var ys := IncludedPixels(s, m, ignoreWhites, ignoreBlacks);
      var prev := IncludedPixels(s, count - 1, ignoreWhites, ignoreBlacks);
      var pixel := ColorAt(s, count - 1);
      if Included(pixel, ignoreWhites, ignoreBlacks) {
        assert (prev + [pixel])[..|ys|] == prev[..|ys|];
      }
    }
  }

  /** Ties are broken in visiting order: if, after the first m pixels, some
      colour d already has the final top count, the dominant colour has it
      too at that point (it reached the top first). */
  lemma DominantFirstToReach(s: seq<Byte>, count: nat, ignoreWhites: bool, ignoreBlacks: bool, m: nat, d: Rgb)
    requires m <= count && 4 * count <= |s|
    requires var xs := IncludedPixels(s, count, ignoreWhites, ignoreBlacks);
             Count(IncludedPixels(s, m, ignoreWhites, ignoreBlacks), d) == Scan(xs).count
    ensures var xs := IncludedPixels(s, count, ignoreWhites, ignoreBlacks);
            Count(IncludedPixels(s, m, ignoreWhites, ignoreBlacks), DominantColorOf(s, count, ignoreWhites, ignoreBlacks))
            == Scan(xs).count
  {
    var xs := IncludedPixels(s, count, ignoreWhites, ignoreBlacks);
    var ys := IncludedPixels(s, m, ignoreWhites, ignoreBlacks);
    IncludedPixelsPrefix(s, m, count, ignoreWhites, ignoreBlacks);
    ScanFirstToReach(xs, |ys|, d);
  }

  /** Seeing one more colour c bumps its entry in the histogram. */
  lemma HistogramStep(xs: seq<Rgb>, c: Rgb)
    ensures Histogram(xs + [c]) == Histogram(xs)[c := Lookup(Histogram(xs), c) + 1]
  {
    assert (xs + [c])[..|xs|] == xs;
  }

  /** Seeing one more colour c: its running count is one more than before,
      and it takes the lead exactly when that count exceeds the maximum. */
  lemma ScanStep(xs: seq<Rgb>, c: Rgb)
    ensures var value := Count(xs, c) + 1;
            Scan(xs + [c]) == if value > Scan(xs).count then Tally(c, value) else Scan(xs)
  {
    assert (xs + [c])[..|xs|] == xs;
    assert multiset(xs + [c]) == multiset(xs) + multiset{c};
  }

  /** The loop state of `dominantColor`: the histogram `map`, `maxColor`
      and `maxCount`. */
  datatype Scanner = Scanner(hist: map<Rgb, nat>, maxColor: Rgb, maxCount: nat)

  /** Counting one included pixel: bump its entry, and let it take the lead
      when the new count is strictly above the maximum. */
  function Count1(st: Scanner, pixel: Rgb): Scanner
  {
    var value := Lookup(st.hist, pixel) + 1;
    var hist := st.hist[pixel := value];
    if value > st.maxCount then Scanner(hist, pixel, value) else Scanner(hist, st.maxColor, st.maxCount)
  }

  /** The loop state after visiting pixels 0 .. count - 1. */
  function ScanPixels(s: seq<Byte>, count: nat, ignoreWhites: bool, ignoreBlacks: bool): Scanner
    requires 4 * count <= |s|
    decreases count
  {
    if count == 0 then Scanner(map[], White, 0)
    else
      var prev := ScanPixels(s, count - 1, ignoreWhites, ignoreBlacks);
      var pixel := ColorAt(s, count - 1);
      if Included(pixel, ignoreWhites, ignoreBlacks) then Count1(prev, pixel) else prev
  }

  /** The loop state agrees with the histogram and Scan of the colours
      seen so far (the invariant of the pixel loop). */
  predicate Agrees(st: Scanner, xs: seq<Rgb>)
  {
    st.hist == Histogram(xs) && Tally(st.maxColor, st.maxCount) == Scan(xs)
  }

  /** Counting one more pixel keeps the loop state in agreement. */
  lemma Count1Agrees(st: Scanner, xs: seq<Rgb>, pixel: Rgb)
    requires Agrees(st, xs)
    ensures Agrees(Count1(st, pixel), xs + [pixel])
  {
    HistogramStep(xs, pixel);
    ScanStep(xs, pixel);
    HistogramCounts(xs, pixel);
  }

  /** After any number of pixels the loop state is the histogram of the
      included pixels and the (maxColor, maxCount) pair Scan gives them. */
  lemma {:induction false} ScanPixelsAgrees(s: seq<Byte>, count: nat, ignoreWhites: bool, ignoreBlacks: bool)
    requires 4 * count <= |s|
    ensures Agrees(ScanPixels(s, count, ignoreWhites, ignoreBlacks), IncludedPixels(s, count, ignoreWhites, ignoreBlacks))
  {
    if count > 0 {
      ScanPixelsAgrees(s, count - 1, ignoreWhites, ignoreBlacks);
      var pixel := ColorAt(s, count - 1);
      if Included(pixel, ignoreWhites, ignoreBlacks) {
        Count1Agrees(ScanPixels(s, count - 1, ignoreWhites, ignoreBlacks),
                     IncludedPixels(s, count - 1, ignoreWhites, ignoreBlacks), pixel);
      }
    }
  }

  /** `dominantColor(buffer, width, height, ignoreWhites, ignoreBlacks)`. */
  method DominantColor(rgba: array<Byte>, width: nat, height: nat, ignoreWhites: bool, ignoreBlacks: bool)
    returns (maxColor: Rgb)
    requires 4 * (width * height) <= rgba.Length
    ensures maxColor == DominantColorOf(rgba[..], width * height, ignoreWhites, ignoreBlacks)
  {
    RowStartIsProduct(height, width);
    var st := DominantRows(rgba, width, height, ignoreWhites, ignoreBlacks);
    ScanPixelsAgrees(rgba[..], width * height, ignoreWhites, ignoreBlacks);
    maxColor := st.maxColor;
  }

  /** The row loop of `dominantColor`; `rowStart` is `y * width`. */
  method DominantRows(rgba: array<Byte>, width: nat, height: nat, ignoreWhites: bool, ignoreBlacks: bool)
    returns (st: Scanner)
    requires 4 * RowStart(height, width) <= rgba.Length
    ensures st == ScanPixels(rgba[..], RowStart(height, width), ignoreWhites, ignoreBlacks)
  {
    var hist: map<Rgb, nat> := map[];
    var maxCount := 0;
    var maxColor := White;
    var rowStart := 0;
    for y := 0 to height
      invariant rowStart == RowStart(y, width) <= RowStart(height, width)
      invariant Scanner(hist, maxColor, maxCount) == ScanPixels(rgba[..], rowStart, ignoreWhites, ignoreBlacks)
    {
      RowStartNext(y, width, height);
      var rowEnd := rowStart + width;
      hist, maxColor, maxCount := DominantRow(rgba, rowStart, rowEnd, ignoreWhites, ignoreBlacks, hist, maxColor, maxCount);
      rowStart := rowEnd;
    }
    st := Scanner(hist, maxColor, maxCount);
  }

  /** The column loop of `dominantColor` over pixels `rowStart .. rowEnd - 1`. */
  method DominantRow(rgba: array<Byte>, rowStart: nat, rowEnd: nat, ignoreWhites: bool, ignoreBlacks: bool,
                     hist0: map<Rgb, nat>, maxColor0: Rgb, maxCount0: nat)
    returns (hist: map<Rgb, nat>, maxColor: Rgb, maxCount: nat)
    requires rowStart <= rowEnd && 4 * rowEnd <= rgba.Length
    requires Scanner(hist0, maxColor0, maxCount0) == ScanPixels(rgba[..], rowStart, ignoreWhites, ignoreBlacks)
    ensures Scanner(hist, maxColor, maxCount) == ScanPixels(rgba[..], rowEnd, ignoreWhites, ignoreBlacks)
  {
    hist, maxColor, maxCount := hist0, maxColor0, maxCount0;
    for n := rowStart to rowEnd
      invariant Scanner(hist, maxColor, maxCount) == ScanPixels(rgba[..], n, ignoreWhites, ignoreBlacks)
    {
      hist, maxColor, maxCount := DominantPixel(rgba, n, ignoreWhites, ignoreBlacks, hist, maxColor, maxCount);
    }
  }

  /** The body of the pixel loop of `dominantColor`, for pixel n: skip it
      when too dark or too light, otherwise bump its count and take the
      lead when the count goes above the maximum. */
  method DominantPixel(rgba: array<Byte>, n: nat, ignoreWhites: bool, ignoreBlacks: bool,
                       hist0: map<Rgb, nat>, maxColor0: Rgb, maxCount0: nat)
    returns (hist: map<Rgb, nat>, maxColor: Rgb, maxCount: nat)
    requires 4 * (n + 1) <= rgba.Length
    requires Scanner(hist0, maxColor0, maxCount0) == ScanPixels(rgba[..], n, ignoreWhites, ignoreBlacks)
    ensures Scanner(hist, maxColor, maxCount) == ScanPixels(rgba[..], n + 1, ignoreWhites, ignoreBlacks)
  {
    hist, maxColor, maxCount := hist0, maxColor0, maxCount0;
    var pixel := ColorAt(rgba[..], n);
    IncludedIff(pixel, ignoreWhites, ignoreBlacks);

    var gray := Brightness(pixel);
    if ignoreBlacks && gray < 0.075 {
      return;
    }
    if ignoreWhites && gray > 0.925 {
      return;
    }

    var value := Lookup(hist, pixel) + 1;
    hist := hist[pixel := value];
    if value > maxCount {
      maxColor := pixel;
      maxCount := value;
    }
  }
}
