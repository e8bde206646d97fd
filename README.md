# recolored-image, modelled in Dafny

`recolored-image` is a web component that recolours an image. The user
names a source colour and a target colour. Every pixel is shifted in CIE
Lab space by the difference between the two colours. Pixels that are
nearly black or nearly white can be left alone. The component can also
report an image's dominant colour. The pixel work runs in a web worker.

This project models that core:

- `ColorSpace` (`color_space.dfy`): the colour maths of `src/recolorize.ts`.
  It covers sRGB to Lab (`RgbToLab`), Lab to sRGB with clamping and
  rounding (`LabToRgb`, `Clamp01`, `ToByte`), the Lab correction between
  two colours (`ColorCorrection`) and its application to a pixel
  (`ApplyCorrection`).
- `Pixels` (`pixels.dfy`): the RGBA layout of the pixel buffer
  (`ColorAt`, `SetColorAt`). It also holds the brightness value and the
  near-black / near-white filter shared by both image operations
  (`Brightness`, `Included`), and the row offsets of the nested pixel loops
  (`RowStart`).
- `Recolor` (`recolor.dfy`): `recolorize`. It is an imperative method over
  `array<Byte>` with the source's row loop, pixel loop and `continue`
  tests. It is proved against the fold `Recolored`, whose per-pixel
  meaning is proved in lemmas.
- `Dominant` (`dominant.dfy`): `dominantColor`. It is an imperative
  method that keeps the source's histogram map, running maximum colour and
  running maximum count. It is proved equal to
  `Scan(IncludedPixels(..)).color`: the included pixel colours in raster
  order, scanned for the first colour whose count reaches the final
  maximum.
- `HexColor` (`hex_color.dfy`): `hexToRgb` of `src/recolored-image.ts`.
  This includes the JavaScript conversion of the string `"0x" + c0 + c1`
  to a number. `None` stands for `NaN`.
- `Worker` (`worker.dfy`): the worker's `onmessage` handler. It maps a
  request to the response it posts, or to `None` when nothing is posted.

`Math.pow` is the only transcendental function the colour maths needs. It
is a parameter `pow: Pow` of every operation that uses it, so each result
holds for any `pow`. JavaScript doubles are modelled as exact reals.

## Model

| member | source | states |
|---|---|---|
| ColorSpace.Clamp01 | src/recolorize.ts:48-50 | `Math.max(0, Math.min(1, v))` lies in [0, 1], is the identity on [0, 1], gives 0 below 0 and gives 1 above 1 |
| ColorSpace.ToByte | src/recolorize.ts:47-51 | each channel labToRgb returns is an integer in [0, 255] within one half of 255 times the clamped value; non-positive values give 0 and values of at least 1 give 255 |
| ColorSpace.ColorCorrection | src/recolorize.ts:54-62 | the correction is the Lab difference from the selected colour to the target: added to the selected colour's Lab it gives the target's Lab, and equal colours give the zero correction |
| ColorSpace.CorrectionMapsSelectedToTarget | src/recolorize.ts:54-72 | applying the correction computed from (selected, target) to the selected colour gives labToRgb(rgbToLab(target)) |
| ColorSpace.ZeroCorrection | src/recolorize.ts:54-72 | when source and target colour are equal, applyCorrection reduces to the Lab round trip labToRgb(rgbToLab(p)) |
| ColorSpace.RgbToLab | src/recolorize.ts:3-26 | definition; stated by ColorSpace.ColorCorrection and ColorSpace.CorrectionMapsSelectedToTarget |
| ColorSpace.LabToRgb | src/recolorize.ts:28-52 | definition; its channels are `Byte`s by type, and ColorSpace.Clamp01 and ColorSpace.ToByte state the clamping and rounding |
| ColorSpace.ApplyCorrection | src/recolorize.ts:64-72 | definition; stated by ColorSpace.CorrectionMapsSelectedToTarget and ColorSpace.ZeroCorrection |
| Pixels.ColorAt | src/recolorize.ts:74-77 | definition; stated by Pixels.ColorAtWithColorAt |
| Pixels.Brightness | src/recolorize.ts:86-88 | definition; stated by Pixels.DarkIff, Pixels.LightIff and Pixels.FilterIgnoresGreen |
| Pixels.Included | src/recolorize.ts:98-105 | definition; stated by Pixels.IncludedIff |
| Pixels.SetColorAt | src/recolorize.ts:79-84 | setColorAt writes bytes 4i, 4i+1 and 4i+2 of the buffer and nothing else |
| Pixels.ColorAtWithColorAt | src/recolorize.ts:74-84 | colorAt of pixel i after setColorAt(i, c) is c; the length, the alpha byte and every other byte stay as they were |
| Pixels.DarkIff | src/recolorize.ts:86-100 | brightness(p) < 0.075 holds exactly when 299·r + 701·b < 19125 |
| Pixels.LightIff | src/recolorize.ts:86-103 | brightness(p) > 0.925 holds exactly when 299·r + 701·b > 235875 |
| Pixels.IncludedIff | src/recolorize.ts:99-105 | a pixel passes the filter exactly when neither `continue` test fires: not (ignoreBlacks and brightness < 0.075), and not (ignoreWhites and brightness > 0.925) |
| Pixels.FilterIgnoresGreen | src/recolorize.ts:86-88 | brightness, and so the filter, does not depend on the green channel |
| Pixels.RowStartNext | src/recolorize.ts:93-95 | each row starts `width` pixels after the previous one and no later than the end of the last row |
| Pixels.RowStartIsProduct | src/recolorize.ts:93-95 | row y starts at pixel y·width, the index n of x = 0 |
| Recolor.Recolored | src/recolorize.ts:90-111 | the recoloured buffer has the length of the original |
| Recolor.RecoloredBytes | src/recolorize.ts:93-110 | every byte of the result is given by one closed form: the corrected channel for an included pixel inside the image, the original byte otherwise |
| Recolor.RecoloredUnvisited | src/recolorize.ts:95-96 | when the loop reaches pixel n, colorAt(n) still reads the original colour: earlier pixels never write it |
| Recolor.RecoloredSkipStep | src/recolorize.ts:99-105 | a pixel that hits a `continue` leaves the buffer as it was |
| Recolor.RecoloredWriteStep | src/recolorize.ts:107-108 | an included pixel is overwritten by the corrected colour of its original value |
| Recolor.Recolorize | src/recolorize.ts:90-111 | recolorize leaves the buffer equal to `Recolored` of the old buffer over width·height pixels, with one correction computed from (srcColor, targetColor) for all pixels |
| Recolor.RecolorRows | src/recolorize.ts:93-110 | the row loop, after `height` rows, has recoloured the first height·width pixels |
| Recolor.RecolorRow | src/recolorize.ts:94-109 | the pixel loop over one row extends the recoloured prefix to the end of that row |
| Recolor.RecolorPixel | src/recolorize.ts:95-108 | one iteration of the loop body extends the recoloured prefix by pixel n |
| Recolor.RecoloredPixel | src/recolorize.ts:95-108 | pixel n of the result is applyCorrection(original pixel n, correction) when it passes the filter and the original colour otherwise; its alpha byte is unchanged |
| Recolor.RecoloredChannel | src/recolorize.ts:95-108 | byte k of pixel n is the corrected channel k when k < 3 and the pixel is included, otherwise the original byte |
| Recolor.RecoloredSkipsFiltered | src/recolorize.ts:98-105 | a pixel whose brightness trips an enabled black or white test keeps all four bytes |
| Recolor.RecoloredFrame | src/recolorize.ts:90-111 | alpha bytes and every byte past width·height·4 are left untouched |
| Recolor.RecoloredUniform | src/recolorize.ts:95-108 | pixels are treated independently: two pixels with the same original colour end with the same colour |
| Dominant.IncludedPixels | src/recolorize.ts:118-129 | the included pixels, in raster order, are at most as many as the pixels scanned |
| Dominant.Scan | src/recolorize.ts:131-137 | no colours give (white, 0); otherwise the result is a scanned colour with its exact count, and no colour occurs more often |
| Dominant.HistogramCounts | src/recolorize.ts:131-133 | the histogram holds, for each colour, the number of included pixels of that colour (0 when absent) |
| Dominant.ScanFirstToReach | src/recolorize.ts:134-137 | the colour kept is the first to reach the final maximum count: whenever some colour has reached that count in a prefix, the kept colour has too |
| Dominant.IncludedPixelsMembers | src/recolorize.ts:118-129 | a colour is among the included pixels exactly when some pixel n < width·height has that colour and passes the filter |
| Dominant.PixelsOfColor | src/recolorize.ts:118-129 | definition; stated by Dominant.IncludedPixelsCount |
| Dominant.IncludedPixelsCount | src/recolorize.ts:118-133 | a colour's count among the included pixels equals the number of pixels n < width·height of that colour that pass the filter |
| Dominant.IncludedCountStep | src/recolorize.ts:120-133 | scanning one more pixel adds one to its colour's count exactly when it passes the filter |
| Dominant.PixelsOfColorStep | src/recolorize.ts:120-129 | scanning one more pixel adds its index to its colour's index set exactly when it passes the filter |
| Dominant.DominantDefaultsToWhite | src/recolorize.ts:115-140 | when no pixel passes the filter the result is white (255, 255, 255) |
| Dominant.DominantIsMostFrequent | src/recolorize.ts:118-140 | when some pixel passes the filter, the result is the colour of an included pixel and no colour is included more often |
| Dominant.IncludedPixelsPrefix | src/recolorize.ts:118-129 | the included pixels among the first m pixels are a prefix of those among the first count pixels |
| Dominant.DominantFirstToReach | src/recolorize.ts:134-137 | ties are broken first to reach: if a colour reaches the maximum count within the first m pixels, so does the returned colour |
| Dominant.HistogramStep | src/recolorize.ts:131-133 | counting a colour sets its entry to `(map.get(key) or 0) + 1` and leaves the other entries alone |
| Dominant.ScanStep | src/recolorize.ts:132-137 | the running maximum moves to a colour exactly when its new count is strictly greater than the old maximum |
| Dominant.Count1Agrees | src/recolorize.ts:131-137 | one loop body keeps the state in step: the map is the histogram and (maxColor, maxCount) is the scan result of the included pixels so far |
| Dominant.ScanPixelsAgrees | src/recolorize.ts:114-139 | after any number of pixels, the loop state agrees with the histogram and scan of the included pixels so far |
| Dominant.Histogram | src/recolorize.ts:131-133 | definition; stated by Dominant.HistogramCounts and Dominant.HistogramStep |
| Dominant.ScanPixels | src/recolorize.ts:114-139 | definition; stated by Dominant.ScanPixelsAgrees |
| Dominant.DominantColorOf | src/recolorize.ts:113-141 | definition; stated by Dominant.DominantDefaultsToWhite, Dominant.DominantIsMostFrequent and Dominant.DominantFirstToReach |
| Dominant.DominantColor | src/recolorize.ts:113-141 | dominantColor returns the colour of `Scan` over the included pixels of the first width·height pixels |
| Dominant.DominantRows | src/recolorize.ts:118-139 | the row loop, after `height` rows, holds the loop state for the first height·width pixels |
| Dominant.DominantRow | src/recolorize.ts:119-138 | the pixel loop over one row brings the loop state to the end of the row |
| Dominant.DominantPixel | src/recolorize.ts:120-137 | one iteration of the loop body brings the loop state from pixel n to pixel n + 1 |
| HexColor.HexLiteralValue | src/recolored-image.ts:11-19 | definition; stated by HexColor.HexLiteralTwoDigits, HexColor.HexLiteralDigitSpace and HexColor.HexLiteralNaN |
| HexColor.Pair | src/recolored-image.ts:11-19 | definition; stated by HexColor.PairIsHexLiteral and HexColor.PairRange |
| HexColor.HexToRgb | src/recolored-image.ts:4-23 | definition; stated by HexColor.HexToRgbRange, ShortForm, LongForm, LongFormIgnoresTail, OtherLengthsBlack, HashOptional, FirstCharIgnored, LongInvalidIsNaN and ShortInvalidIsNaN |
| HexColor.PairIsHexLiteral | src/recolored-image.ts:11-19 | the unary `+` of `"0x" + c0 + c1` is two-digit hex when both are hex digits, the first digit alone when the second is white space, and NaN otherwise |
| HexColor.HexLiteralTwoDigits | src/recolored-image.ts:17-19 | `"0x"` followed by two hex digits converts to 16·d0 + d1 |
| HexColor.HexLiteralDigitSpace | src/recolored-image.ts:17-19 | `"0x"` followed by a hex digit and white space converts to that digit (the space is trimmed) |
| HexColor.HexLiteralNaN | src/recolored-image.ts:11-19 | every other pair converts to NaN |
| HexColor.FirstCharIgnored | src/recolored-image.ts:6-8 | at every length where hexToRgb strips a character (4, or more than 6), the first character is ignored whatever it is |
| HexColor.PairRange | src/recolored-image.ts:11-19 | a channel that is not NaN is below 256 |
| HexColor.HexToRgbRange | src/recolored-image.ts:4-23 | every channel of hexToRgb is NaN or in [0, 255] |
| HexColor.ShortForm | src/recolored-image.ts:9-14 | three hex digits, with or without a leading character, give 17 times each digit |
| HexColor.LongForm | src/recolored-image.ts:15-20 | six or more characters whose first six (after the stripped one) are hex digits give the three two-digit pairs |
| HexColor.LongFormIgnoresTail | src/recolored-image.ts:6-20 | characters after the seventh never change the result |
| HexColor.OtherLengthsBlack | src/recolored-image.ts:5-21 | lengths 0, 1, 2 and 5 give [0, 0, 0] |
| HexColor.HashOptional | src/recolored-image.ts:6-20 | the leading "#" is optional: one extra leading character before 3 or 6 digits does not change the result |
| HexColor.LongInvalidIsNaN | src/recolored-image.ts:15-20 | in the long form a character that is not a hex digit makes its channel NaN, unless it is white space second in its pair |
| HexColor.ShortInvalidIsNaN | src/recolored-image.ts:9-14 | in the short form a character that is not a hex digit makes its channel NaN |
| Worker.Reply | src/worker.ts:4-29 | definition; stated by Worker.ReplyWhen, Worker.ColorizeReply and Worker.DominantReply |
| Worker.OnMessage | src/worker.ts:4-29 | the handler posts `Reply(msg)`, a function of the request alone: it keeps no state between messages |
| Worker.ReplyWhen | src/worker.ts:6-29 | a response is posted exactly for `dominantColor`, and for `colorize` when both colours are present; it echoes the request's id and type |
| Worker.ColorizeReply | src/worker.ts:7-18 | every colorize request with both colours, including an image with no pixels, is answered with its id, type, width and height, no colour, and a buffer of the request's length |
| Worker.ColorizeReplyPixel | src/worker.ts:7-18 | in a colorize response, pixel n below width·height keeps its alpha byte and carries applyCorrection of its original colour when it passes the filter, its original colour otherwise |
| Worker.DominantReply | src/worker.ts:19-28 | for every dominantColor request the response echoes id and type, carries dominantColor of the request's buffer as its colour, and has no buffer, width or height; the colour is white when no pixel passes the filter |

## Left out

- JavaScript doubles are exact reals. Rounding error in the Lab conversion is not modelled.
- `Math.pow` is an uninterpreted parameter, so only facts that hold for every `pow` are proved. In particular, the Lab round trip `labToRgb(rgbToLab(c)) == c` is not proved.
- ColorSpace.LabToRgb: its range [0, 255] is proved through `ToByte` and the `Byte` result type. Nothing else about its value is stated.
- Pixels.Included: the brightness tests use exact arithmetic. Double rounding of a brightness value close to a threshold, which could tip the comparison the other way, is not modelled.
- Pixels.Brightness keeps the source's formula as written: it weighs `pixel[2]` (blue) twice and ignores green. The lemmas state that behaviour.
- Pixel indices: the loops keep a running row start (`RowStart`) and do not recompute `y * width + x`. `RowStartIsProduct` proves the two agree.
- Loop bodies: each loop body is a method of its own (`RecolorPixel`, `DominantPixel`). `continue` becomes an early `return`.
- Dominant.DominantColor: the histogram is keyed by the colour itself, not by the string `pixel.join(',')`. Joining three bytes with commas is injective, so the counts are the same.
- The `Uint8ClampedArray` view: every value written is already a byte, so clamping on store never applies. The byte array is the buffer itself.
- Short buffers and odd sizes: every operation requires `4 * width * height` bytes, as an `ImageData` buffer always has. Reads past the end (`undefined` in JavaScript) are not modelled. Width and height are `nat`. The source accepts any number: a negative size makes the loops do nothing, which is the same as a size of 0, and a fractional size is not modelled.
- NaN colours: `hexToRgb` may return NaN channels, and `recolorize` may be fed them. The colour operations take byte colours, so that combination is not modelled.
- HexColor.HexLiteralValue models JavaScript's string-to-number conversion only for strings that begin with `"0x"`, the only form `hexToRgb` builds.
- Strings: `string` is a sequence of `char`. JavaScript's UTF-16 length, which counts an astral character twice, is not modelled.
- Worker.OnMessage: a colorize request without a source or target colour throws in the source, and the model posts nothing. The exception itself is not modelled.
- Worker.OnMessage: transferring the buffer with `postMessage` is not modelled. Neither is the `async` scheduling of the handler.
- The rest of `src/recolored-image.ts` is not part of this model: the custom element, image loading, canvas drawing and attribute handling. Neither are `src/service.ts` (the `RemoteWorker` request/response plumbing) and `src/worker-api.ts`, whose message types appear here as the `Request` and `Response` datatypes.
