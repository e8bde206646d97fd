/** `hexToRgb` of src/recolored-image.ts: a CSS-style hex colour string
    ("#rgb", "#rrggbb", with or without the "#") to three channel values.
    Each channel is computed in the source as the unary `+` of the string
    "0x" followed by two characters; that conversion is modelled by
    HexLiteralValue, with None standing for NaN. */
module HexColor {
  import opened Wrappers

  /** The three channels; None is NaN. */
  datatype Channels = Channels(r: Option<nat>, g: Option<nat>, b: Option<nat>)

  predicate IsHexDigit(c: char)
  {
    '0' <= c <= '9' || 'a' <= c <= 'f' || 'A' <= c <= 'F'
  }

  function HexDigitValue(c: char): (v: nat)
    requires IsHexDigit(c)
    ensures v < 16
  {
    if '0' <= c <= '9' then c as int - '0' as int
    else if 'a' <= c <= 'f' then c as int - 'a' as int + 10
    else c as int - 'A' as int + 10
  }

  /** The characters that string-to-number conversion in JavaScript strips
      from both ends: white space and line terminators. */
  predicate IsJsWhitespace(c: char)
  {
    c == '\t' || c == '\n' || c == '\U{000B}' || c == '\U{000C}' || c == '\r' || c == ' '
    || c == '\U{00A0}' || c == '\U{1680}' || ('\U{2000}' <= c <= '\U{200A}')
    || c == '\U{2028}' || c == '\U{2029}' || c == '\U{202F}' || c == '\U{205F}'
    || c == '\U{3000}' || c == '\U{FEFF}'
  }

  function TrimStart(s: string): (t: string)
    ensures |t| <= |s| && t == s[|s| - |t|..]
    ensures t == [] || !IsJsWhitespace(t[0])
  {
    if s != [] && IsJsWhitespace(s[0]) then TrimStart(s[1..]) else s
  }

  function TrimEnd(s: string): (t: string)
    ensures |t| <= |s| && t == s[..|t|]
    ensures t == [] || !IsJsWhitespace(t[|t| - 1])
  {
    if s != [] && IsJsWhitespace(s[|s| - 1]) then TrimEnd(s[..|s| - 1]) else s
  }

  predicate AllHex(s: string)
  {
    forall i :: 0 <= i < |s| ==> IsHexDigit(s[i])
  }

  /** The value of a sequence of hex digits, most significant first. */
  function HexValue(s: string): nat
    requires AllHex(s)
  {
    if s == [] then 0 else 16 * HexValue(s[..|s| - 1]) + HexDigitValue(s[|s| - 1])
  }

  /** Unary `+` on a string that starts with "0x": the string is trimmed of
      white space at both ends, and what remains must be "0x" followed by
      one or more hex digits; anything else is NaN. */
  function HexLiteralValue(str: string): Option<nat>
  {
    var t := TrimEnd(TrimStart(str));
    if |t| >= 3 && t[0] == '0' && t[1] == 'x' && AllHex(t[2..]) then Some(HexValue(t[2..])) else None
  }

  /** `+\`0x${c0}${c1}\``, tabulated: two hex digits give their value, a
      hex digit followed by white space gives the digit alone (the space is
      trimmed), and every other pair is NaN. PairIsHexLiteral proves the
      table equal to the conversion. */
  function Pair(c0: char, c1: char): Option<nat>
  {
    if IsHexDigit(c0) && IsHexDigit(c1) then Some(16 * HexDigitValue(c0) + HexDigitValue(c1))
    else if IsHexDigit(c0) && IsJsWhitespace(c1) then Some(HexDigitValue(c0))
    else None
  }

  /** A string that starts with '0' has nothing to trim at its start. */
  lemma TrimStartZero(s: string)
    requires |s| > 0 && s[0] == '0'
    ensures TrimStart(s) == s
  {
  }

  /** Nothing to trim at the end when the last character is not white space. */
  lemma TrimEndKeeps(s: string)
    requires s != [] && !IsJsWhitespace(s[|s| - 1])
    ensures TrimEnd(s) == s
  {
  }

  /** A white-space last character is trimmed. */
  lemma TrimEndDrops(s: string)
    requires s != [] && IsJsWhitespace(s[|s| - 1])
    ensures TrimEnd(s) == TrimEnd(s[..|s| - 1])
  {
  }

  lemma HexValueOne(c0: char)
    requires IsHexDigit(c0)
    ensures AllHex([c0]) && HexValue([c0]) == HexDigitValue(c0)
  {
    assert [c0][..0] == [];
  }

  lemma HexValueTwo(c0: char, c1: char)
    requires IsHexDigit(c0) && IsHexDigit(c1)
    ensures AllHex([c0, c1]) && HexValue([c0, c1]) == 16 * HexDigitValue(c0) + HexDigitValue(c1)
  {
    assert [c0, c1][..1] == [c0];
    HexValueOne(c0);
  }

  lemma HexLiteralTwoDigits(c0: char, c1: char)
    requires IsHexDigit(c0) && IsHexDigit(c1)
    ensures HexLiteralValue(['0', 'x', c0, c1]) == Some(16 * HexDigitValue(c0) + HexDigitValue(c1))
  {
    var s := ['0', 'x', c0, c1];
    TrimStartZero(s);
    TrimEndKeeps(s);
    assert s[2..] == [c0, c1];
    HexValueTwo(c0, c1);
  }

  lemma HexLiteralDigitSpace(c0: char, c1: char)
    requires IsHexDigit(c0) && IsJsWhitespace(c1)
    ensures HexLiteralValue(['0', 'x', c0, c1]) == Some(HexDigitValue(c0))
  {
    var s := ['0', 'x', c0, c1];
    TrimStartZero(s);
    TrimEndDrops(s);
    assert s[..3] == ['0', 'x', c0];
    TrimEndKeeps(['0', 'x', c0]);
    assert TrimEnd(s) == ['0', 'x', c0];
    assert TrimEnd(TrimStart(s)) == ['0', 'x', c0];
    assert ['0', 'x', c0][2..] == [c0];
    HexValueOne(c0);
    assert AllHex([c0]);
  }

  lemma HexLiteralNaN(c0: char, c1: char)
    requires !(IsHexDigit(c0) && (IsHexDigit(c1) || IsJsWhitespace(c1)))
    ensures HexLiteralValue(['0', 'x', c0, c1]) == None
  {
    var s := ['0', 'x', c0, c1];
    TrimStartZero(s);
    if IsJsWhitespace(c1) {
      TrimEndDrops(s);
      assert s[..3] == ['0', 'x', c0];
      if IsJsWhitespace(c0) {
        TrimEndDrops(['0', 'x', c0]);
        assert ['0', 'x', c0][..2] == ['0', 'x'];
        TrimEndKeeps(['0', 'x']);
      } else {
        TrimEndKeeps(['0', 'x', c0]);
        assert ['0', 'x', c0][2..][0] == c0;
      }
    } else {
      TrimEndKeeps(s);
      assert s[2..][0] == c0 && s[2..][1] == c1;
    }
  }

  /** The table agrees with the string-to-number conversion on every pair. */
  lemma PairIsHexLiteral(c0: char, c1: char)
    ensures Pair(c0, c1) == HexLiteralValue(['0', 'x', c0, c1])
  {
    if IsHexDigit(c0) && IsHexDigit(c1) {
      HexLiteralTwoDigits(c0, c1);
    } else if IsHexDigit(c0) && IsJsWhitespace(c1) {
      HexLiteralDigitSpace(c0, c1);
    } else {
      HexLiteralNaN(c0, c1);
    }
  }

  /** The string after the first step of hexToRgb: the first character is
      dropped exactly when the length is 4 or more than 6. */
  function Stripped(hex: string): string
  {
    if |hex| == 4 || |hex| > 6 then hex[1..] else hex
  }

  /** `hexToRgb(hex)` */
  function HexToRgb(hex: string): Channels
  {
    var h := Stripped(hex);
    if |h| == 3 then Channels(Pair(h[0], h[0]), Pair(h[1], h[1]), Pair(h[2], h[2]))
    else if |h| >= 6 then Channels(Pair(h[0], h[1]), Pair(h[2], h[3]), Pair(h[4], h[5]))
    else Channels(Some(0), Some(0), Some(0))
  }

  /** Every channel that is not NaN is a byte value. */
  lemma PairRange(c0: char, c1: char)
    ensures Pair(c0, c1).Some? ==> Pair(c0, c1).value < 256
  {
  }

  /** Every channel hexToRgb returns is NaN or in 0 .. 255. */
  lemma HexToRgbRange(hex: string)
    ensures var c := HexToRgb(hex);
            (c.r.Some? ==> c.r.value < 256) && (c.g.Some? ==> c.g.value < 256) && (c.b.Some? ==> c.b.value < 256)
  {
    var h := Stripped(hex);
    if |h| == 3 {
      PairRange(h[0], h[0]);
      PairRange(h[1], h[1]);
      PairRange(h[2], h[2]);
    } else if |h| >= 6 {
      PairRange(h[0], h[1]);
      PairRange(h[2], h[3]);
      PairRange(h[4], h[5]);
    }
  }

  /** The short form: three hex digits, each channel 17 times its digit
      ("#f80" is 255, 136, 0). */
  lemma ShortForm(hex: string)
    requires |hex| == 3 || |hex| == 4
    requires var h := Stripped(hex); |h| == 3 && IsHexDigit(h[0]) && IsHexDigit(h[1]) && IsHexDigit(h[2])
    ensures var h := Stripped(hex);
            HexToRgb(hex) == Channels(Some(17 * HexDigitValue(h[0])), Some(17 * HexDigitValue(h[1])),
                                      Some(17 * HexDigitValue(h[2])))
  {
  }

  /** The long form: the first six characters after the stripped one are
      read as three pairs and anything after them is ignored
      ("#aabbccdd" reads as "#aabbcc"). */
  lemma LongForm(hex: string)
    requires |hex| >= 6
    requires var h := Stripped(hex); forall i :: 0 <= i < 6 ==> IsHexDigit(h[i])
    ensures var h := Stripped(hex);
            HexToRgb(hex) == Channels(Some(16 * HexDigitValue(h[0]) + HexDigitValue(h[1])),
                                      Some(16 * HexDigitValue(h[2]) + HexDigitValue(h[3])),
                                      Some(16 * HexDigitValue(h[4]) + HexDigitValue(h[5])))
  {
    var h := Stripped(hex);
    assert IsHexDigit(h[0]) && IsHexDigit(h[1]) && IsHexDigit(h[2]);
    assert IsHexDigit(h[3]) && IsHexDigit(h[4]) && IsHexDigit(h[5]);
  }

  /** Trailing characters past the sixth never matter. */
  lemma LongFormIgnoresTail(hex: string, tail: string)
    requires |hex| == 7
    ensures HexToRgb(hex + tail) == HexToRgb(hex)
  {
    assert (hex + tail)[1..][..6] == hex[1..][..6];
    assert forall i :: 0 <= i < 6 ==> (hex + tail)[1..][i] == hex[1..][i];
  }

  /** Lengths 0, 1, 2 and 5 give black. */
  lemma OtherLengthsBlack(hex: string)
    requires |hex| <= 2 || |hex| == 5
    ensures HexToRgb(hex) == Channels(Some(0), Some(0), Some(0))
  {
  }

  /** The leading "#" is optional: "#rgb" reads as "rgb" and "#rrggbb" as
      "rrggbb" (the first character is dropped whatever it is). */
  lemma HashOptional(digits: string, first: char)
    requires |digits| == 3 || |digits| == 6
    ensures HexToRgb([first] + digits) == HexToRgb(digits)
  {
    assert ([first] + digits)[1..] == digits;
  }

  /** Whenever hexToRgb strips the first character, that character is
      ignored whatever it is. */
  lemma FirstCharIgnored(hex: string, c: char)
    requires |hex| == 4 || |hex| > 6
    ensures HexToRgb([c] + hex[1..]) == HexToRgb(hex)
  {
    assert ([c] + hex[1..])[1..] == hex[1..];
  }

  /** In the long form a character that is not a hex digit makes its
      channel NaN, except white space in the second place of a pair, which
      is trimmed away ("#a bbcc" has red 10). */
  lemma LongInvalidIsNaN(hex: string, k: nat)
    requires var h := Stripped(hex); |h| >= 6 && k < 6 && !IsHexDigit(h[k])
    requires var h := Stripped(hex); k % 2 == 0 || !IsJsWhitespace(h[k])
    ensures var c := HexToRgb(hex); (if k < 2 then c.r else if k < 4 then c.g else c.b) == None
  {
  }

  /** In the short form a character that is not a hex digit makes its
      channel NaN, white space included (the pair is all white space). */
  lemma ShortInvalidIsNaN(hex: string, k: nat)
    requires var h := Stripped(hex); |h| == 3 && k < 3 && !IsHexDigit(h[k])
    ensures var c := HexToRgb(hex); (if k == 0 then c.r else if k == 1 then c.g else c.b) == None
  {
  }
}
