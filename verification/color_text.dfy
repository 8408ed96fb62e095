/** The colour text codec of the palette view (ColorPaletteView.xaml.cs):
    the hex box (`UpdateColorFromHex`, `UpdateHexFromColor`) and the three
    decimal RGB boxes (`UpdateColorFromRGB`, `UpdateRGBFromColor`). The
    text-to-number steps follow .NET's `string.Trim`, `uint.TryParse` with
    `NumberStyles.HexNumber`, and `byte.TryParse`. */
module ColorText {
  import opened Basics
  import opened PixelCanvas

  /** `char.IsWhiteSpace`, the set `string.Trim` removes. */
  predicate IsWhiteSpace(ch: char) {
    || ('\t' <= ch <= '\r') || ch == ' ' || ch == '\U{85}' || ch == '\U{A0}' || ch == '\U{1680}'
    || ('\U{2000}' <= ch <= '\U{200A}') || ch == '\U{2028}' || ch == '\U{2029}'
    || ch == '\U{202F}' || ch == '\U{205F}' || ch == '\U{3000}'
  }

  /** The white space `NumberStyles.AllowLeadingWhite`/`AllowTrailingWhite`
      accept: U+0009 to U+000D and U+0020. */
  predicate IsNumberWhite(ch: char) {
    ('\t' <= ch <= '\r') || ch == ' '
  }

  /** The `n` characters of `s` from `i` on have only characters satisfying
      `white` before and after them. */
  ghost predicate WhiteAround(s: string, white: char -> bool, i: nat, n: nat) {
    && i + n <= |s|
    && (forall j | 0 <= j < i :: WhiteAt(s, white, j))
    && (forall j | i + n <= j < |s| :: WhiteAt(s, white, j))
  }

  /** Character `j` of `s` satisfies `white`. */
  ghost predicate WhiteAt(s: string, white: char -> bool, j: nat)
    requires j < |s|
  {
    white(s[j])
  }

  /** `s` with every leading and trailing character satisfying `white`
      removed. `TrimBySlice` and `TrimByUnique` show the result is the one
      slice of `s` with only white characters around it and none at its
      ends. */
  function TrimBy(s: string, white: char -> bool): (r: string)
    ensures |r| <= |s|
    ensures |r| > 0 ==> !white(r[0]) && !white(r[|r| - 1])
    ensures forall i | 0 <= i < |s| && !white(s[i]) :: |r| > 0
    ensures (|s| == 0 || (!white(s[0]) && !white(s[|s| - 1]))) ==> r == s
  {
    var a := TrimStart(s, white);
    var r := TrimEnd(a, white);
    var i := |s| - |a|;
    assert a == s[i..];
    assert r == a[..|r|];
    assert r == s[i..i + |r|];
    r
  }

  /** Where the trimmed text starts in `s`: after the leading white run. */
  ghost function TrimOffset(s: string, white: char -> bool): nat {
    |s| - |TrimStart(s, white)|
  }

  /** The trimmed text is a slice of `s` with only white characters before
      and after it. */
  lemma TrimBySlice(s: string, white: char -> bool)
    ensures WhiteAround(s, white, TrimOffset(s, white), |TrimBy(s, white)|)
    ensures TrimBy(s, white) == s[TrimOffset(s, white)..TrimOffset(s, white) + |TrimBy(s, white)|]
  {
    var a := TrimStart(s, white);
    var r := TrimEnd(a, white);
    var i := |s| - |a|;
    assert a == s[i..] && r == a[..|r|];
    assert TrimBy(s, white) == r;
    WhitePrefix(s, white, a);
    WhiteSuffix(s, white, a, |r|);
  }

  /** The characters `TrimStart` drops are white. */
  lemma WhitePrefix(s: string, white: char -> bool, a: string)
    requires a == TrimStart(s, white)
    ensures forall j | 0 <= j < |s| - |a| :: WhiteAt(s, white, j)
  {
    forall j | 0 <= j < |s| - |a| ensures WhiteAt(s, white, j) {
    }
  }

  /** White characters at the end of the suffix `a` of `s` are white
      characters at the end of `s`. */
  lemma WhiteSuffix(s: string, white: char -> bool, a: string, m: nat)
    requires |a| <= |s| && a == s[|s| - |a|..] && m <= |a|
    requires forall k | m <= k < |a| :: white(a[k])
    ensures forall j | |s| - |a| + m <= j < |s| :: WhiteAt(s, white, j)
  {
    var i := |s| - |a|;
    forall j | i + m <= j < |s| ensures WhiteAt(s, white, j) {
      assert s[j] == a[j - i];
    }
  }

  /** The trimmed text is determined: any slice with only white characters
      around it and none at its ends is the trim. */
  lemma TrimByUnique(s: string, white: char -> bool, i: nat, n: nat)
    requires WhiteAround(s, white, i, n)
    requires n > 0 ==> !white(s[i]) && !white(s[i + n - 1])
    ensures TrimBy(s, white) == s[i..i + n]
  {
    var r := TrimBy(s, white);
    TrimBySlice(s, white);
    var k := TrimOffset(s, white);
    assert |r| > 0 ==> r[0] == s[k] && r[|r| - 1] == s[k + |r| - 1];
    SliceDetermined(s, white, i, n, k, r);
  }

  /** A slice `r` at `k` with white around it and non-white ends, which is
      non-empty whenever `s` has a non-white character, is any other such
      slice. */
  lemma SliceDetermined(s: string, white: char -> bool, i: nat, n: nat, k: nat, r: string)
    requires WhiteAround(s, white, i, n) && (n > 0 ==> !white(s[i]) && !white(s[i + n - 1]))
    requires WhiteAround(s, white, k, |r|) && r == s[k..k + |r|]
    requires |r| > 0 ==> !WhiteAt(s, white, k) && !WhiteAt(s, white, k + |r| - 1)
    requires forall j | 0 <= j < |s| && !white(s[j]) :: |r| > 0
    ensures r == s[i..i + n]
  {
    if n == 0 {
      AllWhite(s, white, i);
    } else {
      assert |r| > 0 by {
        assert !white(s[i]);
      }
      SameSlice(s, white, i, n, k, |r|);
    }
  }

  /** With nothing left between the white prefix and suffix, every
      character is white. */
  lemma AllWhite(s: string, white: char -> bool, i: nat)
    requires WhiteAround(s, white, i, 0)
    ensures forall j | 0 <= j < |s| :: white(s[j])
  {
    forall j | 0 <= j < |s| ensures white(s[j]) {
      assert WhiteAt(s, white, j);
    }
  }

  /** Two non-empty slices with white around them and non-white ends
      coincide. */
  lemma SameSlice(s: string, white: char -> bool, i: nat, n: nat, k: nat, m: nat)
    requires WhiteAround(s, white, i, n) && WhiteAround(s, white, k, m)
    requires n > 0 && !white(s[i]) && !white(s[i + n - 1])
    requires m > 0 && !WhiteAt(s, white, k) && !WhiteAt(s, white, k + m - 1)
    ensures i == k && n == m
  {
    assert !WhiteAt(s, white, i) && !WhiteAt(s, white, i + n - 1);
  }

  function TrimStart(s: string, white: char -> bool): (r: string)
    ensures |r| <= |s| && r == s[|s| - |r|..]
    ensures |r| > 0 ==> !white(r[0])
    ensures forall i | 0 <= i < |s| - |r| :: white(s[i])
    ensures (|s| == 0 || !white(s[0])) ==> r == s
  {
    if |s| > 0 && white(s[0]) then
      var r := TrimStart(s[1..], white);
      assert s[1..][|s[1..]| - |r|..] == s[|s| - |r|..];
      r
    else s
  }

  function TrimEnd(s: string, white: char -> bool): (r: string)
    ensures |r| <= |s| && r == s[..|r|]
    ensures |r| > 0 ==> !white(r[|r| - 1])
    ensures forall i | |r| <= i < |s| :: white(s[i])
    ensures (|s| == 0 || !white(s[|s| - 1])) ==> r == s
  {
    if |s| > 0 && white(s[|s| - 1]) then
      var r := TrimEnd(s[..|s| - 1], white);
      assert s[..|s| - 1][..|r|] == s[..|r|];
      r
    else s
  }

  // ---------------------------------------------------------------- hex

  predicate IsHexDigit(ch: char) {
    ('0' <= ch <= '9') || ('a' <= ch <= 'f') || ('A' <= ch <= 'F')
  }

  function HexDigitValue(ch: char): (v: nat)
    requires IsHexDigit(ch)
    ensures v < 16
  {
    if '0' <= ch <= '9' then ch as int - '0' as int
    else if 'a' <= ch <= 'f' then ch as int - 'a' as int + 10
    else ch as int - 'A' as int + 10
  }

  /** The upper-case digit of a value below 16, as the `X` format writes it. */
  function HexChar(v: nat): (ch: char)
    requires v < 16
    ensures IsHexDigit(ch) && HexDigitValue(ch) == v
    ensures !('a' <= ch <= 'f')
  {
    if v < 10 then ('0' as int + v) as char else ('A' as int + v - 10) as char
  }

  /** Each hex digit is the upper-case digit of its value, up to case. */
  function ToUpper(ch: char): char {
    if 'a' <= ch <= 'f' then (ch as int - 'a' as int + 'A' as int) as char else ch
  }

  lemma HexCharOfValue(ch: char)
    requires IsHexDigit(ch)
    ensures HexChar(HexDigitValue(ch)) == ToUpper(ch)
  {
  }

  predicate AllHex(s: string) {
    forall i | 0 <= i < |s| :: IsHexDigit(s[i])
  }

  /** The value of a string of hex digits, most significant first. */
  function HexValue(s: string): nat
    requires AllHex(s)
  {
    if |s| == 0 then 0 else HexValue(s[..|s| - 1]) * 16 + HexDigitValue(s[|s| - 1])
  }

  /** Six hex digits are three two-digit bytes. */
  lemma HexValueSix(s: string)
    requires |s| == 6 && AllHex(s)
    ensures HexValue(s) == PairValue(s, 0) as int * 65536 + PairValue(s, 2) as int * 256 + PairValue(s, 4) as int
  {
    var d := seq(6, i requires 0 <= i < 6 => HexDigitValue(s[i]));
    assert s[..1][..0] == [] && s[..2][..1] == s[..1] && s[..3][..2] == s[..2];
    assert s[..4][..3] == s[..3] && s[..5][..4] == s[..4] && s[..5] == s[..6][..5] && s[..6] == s;
    assert HexValue(s[..1]) == d[0];
    assert HexValue(s[..2]) == d[0] * 16 + d[1];
    assert HexValue(s[..3]) == (d[0] * 16 + d[1]) * 16 + d[2];
    assert HexValue(s[..4]) == (d[0] * 16 + d[1]) * 256 + d[2] * 16 + d[3];
    assert HexValue(s[..5]) == (d[0] * 16 + d[1]) * 4096 + (d[2] * 16 + d[3]) * 16 + d[4];
  }

  /** `(value >> 16) & 0xFF`, `(value >> 8) & 0xFF` and `value & 0xFF` for a
      natural value. */
  function RedOf(value: nat): Byte { (value / 0x1_0000) % 0x100 }
  function GreenOf(value: nat): Byte { (value / 0x100) % 0x100 }
  function BlueOf(value: nat): Byte { value % 0x100 }

  /** Splitting three bytes packed as `r * 65536 + g * 256 + b` back apart. */
  lemma Unpack(r: Byte, g: Byte, b: Byte)
    ensures RedOf(r * 65536 + g * 256 + b) == r
    ensures GreenOf(r * 65536 + g * 256 + b) == g
    ensures BlueOf(r * 65536 + g * 256 + b) == b
  {
  }

  /** `UpdateColorFromHex`'s parse: the trimmed text must be exactly six hex
      digits (so it fits a `uint`); red, green and blue are bits 16-23, 8-15
      and 0-7 of its value, and alpha is 255. */
  function ParseHex(text: string): (r: Option<Color>)
    ensures r.Some? <==> |TrimBy(text, IsWhiteSpace)| == 6 && AllHex(TrimBy(text, IsWhiteSpace))
    ensures r.Some? ==> r.value.alpha == 255
  {
    var hex := TrimBy(text, IsWhiteSpace);
    if |hex| == 6 && AllHex(hex) then
      var value := HexValue(hex);
      Some(Opaque(RedOf(value), GreenOf(value), BlueOf(value)))
    else None
  }

  /** The `X2` format of a byte: two upper-case hex digits. */
  function X2(b: Byte): (s: string)
    ensures |s| == 2 && AllHex(s) && HexDigitValue(s[0]) * 16 + HexDigitValue(s[1]) == b
  {
    [HexChar(b / 16), HexChar(b % 16)]
  }

  /** `UpdateHexFromColor`: red, green and blue as `X2`, in that order. */
  function FormatHex(c: Color): (s: string)
    ensures |s| == 6 && AllHex(s)
    ensures forall i | 0 <= i < 6 :: !('a' <= s[i] <= 'f')
  {
    X2(c.red) + X2(c.green) + X2(c.blue)
  }

  /** The formatted hex has nothing to trim. */
  lemma FormatHexUntrimmed(c: Color)
    ensures TrimBy(FormatHex(c), IsWhiteSpace) == FormatHex(c)
  {
    var s := FormatHex(c);
    var xr, xb := X2(c.red), X2(c.blue);
    assert s[0] == xr[0] && s[5] == xb[1];
    assert !IsWhiteSpace(s[0]) && !IsWhiteSpace(s[5]);
  }

  /** The formatted hex packs the three bytes. */
  lemma FormatHexPacked(c: Color)
    ensures HexValue(FormatHex(c)) == c.red * 65536 + c.green * 256 + c.blue
  {
    var s := FormatHex(c);
    var xr, xg, xb := X2(c.red), X2(c.green), X2(c.blue);
    assert s[0] == xr[0] && s[1] == xr[1] && s[2] == xg[0] && s[3] == xg[1] && s[4] == xb[0] && s[5] == xb[1];
    HexValueSix(s);
  }

  /** The formatted hex parses to the bytes its value packs. */
  lemma ParseFormatHex(c: Color)
    ensures ParseHex(FormatHex(c))
            == Some(Opaque(RedOf(HexValue(FormatHex(c))), GreenOf(HexValue(FormatHex(c))), BlueOf(HexValue(FormatHex(c)))))
  {
    FormatHexUntrimmed(c);
  }

  /** Parsing the formatted hex of a colour gives back its red, green and
      blue, with alpha 255. */
  lemma HexRoundTrip(c: Color)
    ensures ParseHex(FormatHex(c)) == Some(Opaque(c.red, c.green, c.blue))
  {
    ParseFormatHex(c);
    FormatHexPacked(c);
    Unpack(c.red, c.green, c.blue);
  }

  /** The six characters `FormatHex` writes. */
  lemma FormatHexChars(c: Color)
    ensures FormatHex(c) == [HexChar(c.red / 16), HexChar(c.red % 16), HexChar(c.green / 16),
                             HexChar(c.green % 16), HexChar(c.blue / 16), HexChar(c.blue % 16)]
  {
  }

  /** The colour `ParseHex` reads from six hex digits. */
  lemma ParseHexDigits(text: string)
    requires ParseHex(text).Some?
    ensures var hex := TrimBy(text, IsWhiteSpace);
            ParseHex(text).value == Opaque(PairValue(hex, 0), PairValue(hex, 2), PairValue(hex, 4))
  {
    var hex := TrimBy(text, IsWhiteSpace);
    var v := HexValue(hex);
    assert ParseHex(text) == Some(Opaque(RedOf(v), GreenOf(v), BlueOf(v)));
    HexValueSix(hex);
    Unpack(PairValue(hex, 0), PairValue(hex, 2), PairValue(hex, 4));
  }

  /** The byte written by the two hex digits at `i` and `i + 1`. */
  function PairValue(hex: string, i: nat): (v: Byte)
    requires i + 1 < |hex| && IsHexDigit(hex[i]) && IsHexDigit(hex[i + 1])
    ensures v == HexDigitValue(hex[i]) * 16 + HexDigitValue(hex[i + 1])
  {
    SplitByte(HexDigitValue(hex[i]), HexDigitValue(hex[i + 1]));
    HexDigitValue(hex[i]) * 16 + HexDigitValue(hex[i + 1])
  }

  /** In the other direction, the colour parsed from an accepted text formats
      back to that text, trimmed and in upper case. */
  lemma HexFormatOfParsed(text: string)
    requires ParseHex(text).Some?
    ensures var hex := TrimBy(text, IsWhiteSpace);
            FormatHex(ParseHex(text).value) == seq(6, i requires 0 <= i < 6 => ToUpper(hex[i]))
  {
    ParseHexDigits(text);
    FormatOfDigits(TrimBy(text, IsWhiteSpace), ParseHex(text).value);
  }

  /** A colour whose bytes are the digit pairs of `hex` formats as `hex` in
      upper case. */
  lemma FormatOfDigits(hex: string, c: Color)
    requires |hex| == 6 && AllHex(hex)
    requires c.red == PairValue(hex, 0) && c.green == PairValue(hex, 2) && c.blue == PairValue(hex, 4)
    ensures FormatHex(c) == seq(6, i requires 0 <= i < 6 => ToUpper(hex[i]))
  {
    FormatHexChars(c);
    PairFormats(hex, 0, c.red);
    PairFormats(hex, 2, c.green);
    PairFormats(hex, 4, c.blue);
    var u := seq(6, i requires 0 <= i < 6 => ToUpper(hex[i]));
    assert FormatHex(c) == [u[0], u[1], u[2], u[3], u[4], u[5]];
  }

  /** The byte written by two hex digits formats back as those digits in
      upper case. */
  lemma PairFormats(hex: string, i: nat, v: Byte)
    requires i + 1 < |hex| && IsHexDigit(hex[i]) && IsHexDigit(hex[i + 1])
    requires v == HexDigitValue(hex[i]) * 16 + HexDigitValue(hex[i + 1])
    ensures HexChar(v / 16) == ToUpper(hex[i]) && HexChar(v % 16) == ToUpper(hex[i + 1])
  {
    SplitByte(HexDigitValue(hex[i]), HexDigitValue(hex[i + 1]));
    HexCharOfValue(hex[i]);
    HexCharOfValue(hex[i + 1]);
  }

  lemma SplitByte(hi: nat, lo: nat)
    requires hi < 16 && lo < 16
    ensures hi * 16 + lo < 256
    ensures (hi * 16 + lo) / 16 == hi && (hi * 16 + lo) % 16 == lo
  {
  }

  /** Applying the hex box: an accepted text replaces the selected colour,
      any other text leaves it as it was. */
  function ApplyHex(selected: Color, text: string): (r: Color)
    ensures ParseHex(text).None? ==> r == selected
    ensures ParseHex(text).Some? ==> r == ParseHex(text).value && r.alpha == 255
  {
    match ParseHex(text)
    case None => selected
    case Some(c) => c
  }

  // ------------------------------------------------------------ decimal

  predicate IsDigit(ch: char) {
    '0' <= ch <= '9'
  }

  predicate AllDigits(s: string) {
    forall i | 0 <= i < |s| :: IsDigit(s[i])
  }

  /** The value of a string of decimal digits, most significant first. */
  function DecimalValue(s: string): nat
    requires AllDigits(s)
  {
    if |s| == 0 then 0 else DecimalValue(s[..|s| - 1]) * 10 + (s[|s| - 1] as int - '0' as int)
  }

  /** `ToString()` of a natural: its decimal digits, no sign, no leading
      zero (except "0" itself). */
  function FormatDecimal(n: nat): (s: string)
    ensures |s| >= 1 && AllDigits(s)
    ensures |s| > 1 ==> s[0] != '0'
    decreases n
  {
    var last := [('0' as int + n % 10) as char];
    if n < 10 then last else FormatDecimal(n / 10) + last
  }

  /** Reading back a formatted natural gives the natural. */
  lemma {:induction false} DecimalRoundTrip(n: nat)
    ensures DecimalValue(FormatDecimal(n)) == n
    decreases n
  {
    var s := FormatDecimal(n);
    if n >= 10 {
      DecimalRoundTrip(n / 10);
      assert s[..|s| - 1] == FormatDecimal(n / 10);
    }
  }

  /** A leading zero does not change the value. */
  lemma {:induction false} DecimalLeadingZero(s: string)
    requires AllDigits(s)
    ensures AllDigits("0" + s) && DecimalValue("0" + s) == DecimalValue(s)
    decreases |s|
  {
    if |s| > 0 {
      DecimalLeadingZero(s[..|s| - 1]);
      assert ("0" + s)[..|s|] == "0" + s[..|s| - 1];
    }
  }

  /** `byte.TryParse(text, out b)` with the integer number style: optional
      white space around an optional sign and at least one decimal digit.
      The value must fit a byte; a negative sign is accepted only for zero.
      .NET also accepts trailing NUL characters after the number; this
      model rejects them. */
  function ParseByte(text: string): (r: Option<Byte>)
    ensures r.Some? ==> |TrimBy(text, IsNumberWhite)| >= 1
  {
    ParseTrimmed(TrimBy(text, IsNumberWhite))
  }

  /** The parse of the text once the white space around it is gone. */
  function ParseTrimmed(t: string): (r: Option<Byte>)
    ensures r.Some? ==> |t| >= 1
  {
    if |t| == 0 then None
    else
      var digits := if t[0] == '-' || t[0] == '+' then t[1..] else t;
      if |digits| == 0 || !AllDigits(digits) then None
      else
        var v := DecimalValue(digits);
        if t[0] == '-' then (if v == 0 then Some(0) else None)
        else if v <= 255 then Some(v) else None
  }

  /** `UpdateRGBFromColor` followed by `byte.TryParse` gives each channel
      back. */
  lemma ByteRoundTrip(b: Byte)
    ensures ParseByte(FormatDecimal(b)) == Some(b)
  {
    var s := FormatDecimal(b);
    DecimalRoundTrip(b);
    FormattedUntrimmed(b);
  }

  /** A formatted natural has nothing to trim and starts with a digit. */
  lemma FormattedUntrimmed(n: nat)
    ensures var s := FormatDecimal(n);
            TrimBy(s, IsNumberWhite) == s && IsDigit(s[0])
  {
    var s := FormatDecimal(n);
    assert IsDigit(s[0]) && IsDigit(s[|s| - 1]);
  }

  /** One space on each side of untrimmable text is trimmed away. */
  lemma TrimPadded(s: string)
    requires |s| > 0 && !IsNumberWhite(s[0]) && !IsNumberWhite(s[|s| - 1])
    ensures TrimBy(" " + s + " ", IsNumberWhite) == s
  {
    var padded := " " + s + " ";
    assert padded[1..] == s + " ";
    assert TrimStart(padded, IsNumberWhite) == TrimStart(s + " ", IsNumberWhite);
    assert (s + " ")[..|s|] == s;
    assert TrimEnd(s + " ", IsNumberWhite) == TrimEnd(s, IsNumberWhite);
  }

  /** Spaces around the digits are skipped. */
  lemma ParseBytePadded(b: Byte)
    ensures ParseByte(" " + FormatDecimal(b) + " ") == Some(b)
  {
    var s := FormatDecimal(b);
    FormattedUntrimmed(b);
    TrimPadded(s);
    ByteRoundTrip(b);
  }

  /** A leading plus sign is accepted. */
  lemma ParseBytePlus(b: Byte)
    ensures ParseByte("+" + FormatDecimal(b)) == Some(b)
  {
    var s := FormatDecimal(b);
    DecimalRoundTrip(b);
    var plus := "+" + s;
    assert !IsNumberWhite(plus[0]) && plus[|plus| - 1] == s[|s| - 1];
    assert TrimBy(plus, IsNumberWhite) == plus;
    assert plus[1..] == s;
  }

  /** A leading zero is accepted. */
  lemma ParseByteLeadingZero(b: Byte)
    ensures ParseByte("0" + FormatDecimal(b)) == Some(b)
  {
    var s := FormatDecimal(b);
    DecimalRoundTrip(b);
    DecimalLeadingZero(s);
    var z := "0" + s;
    assert !IsNumberWhite(z[0]) && z[|z| - 1] == s[|s| - 1];
    assert TrimBy(z, IsNumberWhite) == z;
  }

  /** A negative sign is accepted on zero, and rejected on anything else. */
  lemma ParseByteNegative(n: nat)
    ensures ParseByte("-" + FormatDecimal(n)) == if n == 0 then Some(0) else None
  {
    var s := FormatDecimal(n);
    DecimalRoundTrip(n);
    var minus := "-" + s;
    assert !IsNumberWhite(minus[0]) && minus[|minus| - 1] == s[|s| - 1];
    assert TrimBy(minus, IsNumberWhite) == minus;
    assert minus[1..] == s;
  }

  /** Values above 255 do not fit a byte and are rejected. */
  lemma ParseByteTooLarge(n: nat)
    requires n > 255
    ensures ParseByte(FormatDecimal(n)) == None
  {
    var s := FormatDecimal(n);
    DecimalRoundTrip(n);
    FormattedUntrimmed(n);
  }

  /** `UpdateColorFromRGB`: each box that parses as a byte gives its channel,
      any other box gives 0; alpha is 255. */
  function ColorFromRgb(redText: string, greenText: string, blueText: string): (c: Color)
    ensures c.alpha == 255
    ensures ParseByte(redText).None? ==> c.red == 0
    ensures ParseByte(greenText).None? ==> c.green == 0
    ensures ParseByte(blueText).None? ==> c.blue == 0
    ensures ParseByte(redText).Some? ==> c.red == ParseByte(redText).value
    ensures ParseByte(greenText).Some? ==> c.green == ParseByte(greenText).value
    ensures ParseByte(blueText).Some? ==> c.blue == ParseByte(blueText).value
  {
    var r := match ParseByte(redText) case Some(v) => v case None => 0;
    var g := match ParseByte(greenText) case Some(v) => v case None => 0;
    var b := match ParseByte(blueText) case Some(v) => v case None => 0;
    Opaque(r, g, b)
  }

  /** Writing a colour into the RGB boxes and reading them back gives the
      colour, made opaque. */
  lemma RgbRoundTrip(c: Color)
    ensures ColorFromRgb(FormatDecimal(c.red), FormatDecimal(c.green), FormatDecimal(c.blue))
         == Opaque(c.red, c.green, c.blue)
  {
    ByteRoundTrip(c.red);
    ByteRoundTrip(c.green);
    ByteRoundTrip(c.blue);
  }
}
