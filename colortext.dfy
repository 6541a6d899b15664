/** The text forms of a colour: `formatColor` (hex, rgb, hsl and the default
    arm) and the `r,g,b` key the palette extractor deduplicates on. Numbers
    are written as `Number.prototype.toString` writes non-negative integers. */
module ColorText {
  import opened Pixels
  import Hsl

  // ---- Digits ----

  /** The value of a lowercase digit character, or -1 for any other character. */
  function DigitValue(ch: char): int {
    if '0' <= ch <= '9' then ch as int - '0' as int
    else if 'a' <= ch <= 'f' then ch as int - 'a' as int + 10
    else -1
  }

  /** The lowercase digit character for `d`. */
  function Digit(d: nat): (ch: char)
    requires d < 16
    ensures DigitValue(ch) == d
  {
    if d < 10 then ('0' as int + d) as char else ('a' as int + d - 10) as char
  }

  predicate IsDigit(ch: char, base: nat) {
    0 <= DigitValue(ch) < base
  }

  predicate AllDigits(s: string, base: nat) {
    forall i :: 0 <= i < |s| ==> IsDigit(s[i], base)
  }

  lemma AllDigitsSlice(s: string, base: nat, i: int, j: int)
    requires AllDigits(s, base) && 0 <= i <= j <= |s|
    ensures AllDigits(s[i..j], base)
  {
  }

  lemma AllDigitsConcat(a: string, b: string, base: nat)
    ensures AllDigits(a + b, base) <==> AllDigits(a, base) && AllDigits(b, base)
  {
    if AllDigits(a, base) && AllDigits(b, base) {
      forall i | 0 <= i < |a + b|
        ensures IsDigit((a + b)[i], base)
      {
        if i >= |a| {
          assert (a + b)[i] == b[i - |a|];
        }
      }
    }
    if AllDigits(a + b, base) {
      assert a == (a + b)[..|a|] && b == (a + b)[|a|..];
      AllDigitsSlice(a + b, base, 0, |a|);
      AllDigitsSlice(a + b, base, |a|, |a + b|);
    }
  }

  /** Every lowercase digit character is written by `Digit`. */
  lemma DigitOfValue(ch: char)
    requires 0 <= DigitValue(ch) < 16
    ensures Digit(DigitValue(ch)) == ch
  {
  }

  // ---- Writing and reading numbers ----

  /** `n.toString(base)`: the digits of `n`, most significant first, lowercase,
      with no leading zero. */
  function ToBase(n: nat, base: nat): (s: string)
    requires 2 <= base <= 16
    ensures 1 <= |s| && AllDigits(s, base)
    ensures |s| > 1 ==> s[0] != '0'
    ensures n < base <==> |s| == 1
    decreases n
  {
    if n < base then [Digit(n)]
    else
      DivMod(n, base);
      var high := ToBase(n / base, base);
      AllDigitsConcat(high, [Digit(n % base)], base);
      high + [Digit(n % base)]
  }

  /** Division with remainder by a base, for a non-negative dividend. */
  lemma DivMod(n: nat, base: nat)
    requires 2 <= base
    ensures 0 <= n % base < base && n == n / base * base + n % base
    ensures n >= base ==> 1 <= n / base < n
  {
  }

  /** `n` in decimal, as a template literal writes it. */
  function Dec(n: nat): string {
    ToBase(n, 10)
  }

  /** The value of a string of digits in `base`. */
  function FromBase(s: string, base: nat): nat
    requires AllDigits(s, base)
  {
    if s == [] then 0 else FromBase(s[..|s| - 1], base) * base + DigitValue(s[|s| - 1])
  }

  /** Reading back what `ToBase` wrote gives the number. */
  lemma {:induction false} ToBaseRoundTrip(n: nat, base: nat)
    requires 2 <= base <= 16
    ensures FromBase(ToBase(n, base), base) == n
    decreases n
  {
    if n >= base {
      var s := ToBase(n, base);
      DivMod(n, base);
      assert s[..|s| - 1] == ToBase(n / base, base);
      ToBaseRoundTrip(n / base, base);
    }
  }

  /** Two numbers with the same digits are equal. */
  lemma ToBaseInjective(m: nat, n: nat, base: nat)
    requires 2 <= base <= 16
    ensures ToBase(m, base) == ToBase(n, base) <==> m == n
  {
    if ToBase(m, base) == ToBase(n, base) {
      ToBaseRoundTrip(m, base);
      ToBaseRoundTrip(n, base);
    }
  }

  /** `s.padStart(width, fill)`: `s` preceded by as many `fill` as make it `width` long. */
  function PadStart(s: string, width: nat, fill: char): (p: string)
    ensures |p| == if |s| < width then width else |s|
    ensures p[|p| - |s|..] == s
    ensures forall i :: 0 <= i < |p| - |s| ==> p[i] == fill
  {
    if |s| < width then seq(width - |s|, _ => fill) + s else s
  }

  // ---- The hex form ----

  /** `v.toString(16).padStart(2, '0')`. */
  function HexByte(v: Byte): string {
    PadStart(ToBase(v, 16), 2, '0')
  }

  /** A byte is always two lowercase hex digits, the sixteens and then the
      units; below 16 the first is the padding `0`. */
  lemma HexByteShape(v: Byte)
    ensures HexByte(v) == [Digit(v / 16), Digit(v % 16)]
    ensures v < 16 <==> HexByte(v)[0] == '0'
  {
    var t := ToBase(v, 16);
    if v >= 16 {
      assert v / 16 < 16;
      assert ToBase(v / 16, 16) == [Digit(v / 16)];
    } else {
      assert HexByte(v) == ['0'] + t;
    }
  }

  /** The byte two hex digits denote. */
  function HexPair(hi: char, lo: char): Byte
    requires IsDigit(hi, 16) && IsDigit(lo, 16)
  {
    DigitValue(hi) * 16 + DigitValue(lo)
  }

  /** The `hex` arm: `#rrggbb`. */
  function FormatHex(c: Color): string {
    "#" + HexByte(c.r) + HexByte(c.g) + HexByte(c.b)
  }

  /** `#` followed by six lowercase hex digits. */
  predicate IsHexForm(s: string) {
    |s| == 7 && s[0] == '#' && forall i :: 1 <= i < 7 ==> IsDigit(s[i], 16)
  }

  /** Reads `#rrggbb` with lowercase digits, two per channel. */
  function ParseHex(s: string): Option<Color> {
    if IsHexForm(s) then
      Some(Color(HexPair(s[1], s[2]), HexPair(s[3], s[4]), HexPair(s[5], s[6])))
    else
      None
  }

  /** The hex form is `#` and six lowercase hex digits, two per channel. */
  lemma FormatHexShape(c: Color)
    ensures IsHexForm(FormatHex(c))
    ensures FormatHex(c)[1..3] == HexByte(c.r)
    ensures FormatHex(c)[3..5] == HexByte(c.g)
    ensures FormatHex(c)[5..7] == HexByte(c.b)
  {
    HexByteShape(c.r);
    HexByteShape(c.g);
    HexByteShape(c.b);
    var x, y, z := HexByte(c.r), HexByte(c.g), HexByte(c.b);
    HashAndPairs(x, y, z);
  }

  /** `#` followed by three pairs of digits, and where each pair sits. */
  lemma HashAndPairs(x: string, y: string, z: string)
    requires |x| == 2 && |y| == 2 && |z| == 2
    requires IsDigit(x[0], 16) && IsDigit(x[1], 16) && IsDigit(y[0], 16)
    requires IsDigit(y[1], 16) && IsDigit(z[0], 16) && IsDigit(z[1], 16)
    ensures IsHexForm("#" + x + y + z)
    ensures ("#" + x + y + z)[1..3] == x && ("#" + x + y + z)[3..5] == y && ("#" + x + y + z)[5..7] == z
  {
    var s := "#" + x + y + z;
    assert s == ['#', x[0], x[1], y[0], y[1], z[0], z[1]];
  }

  /** Reading the hex form gives the colour back. */
  lemma HexRoundTrip(c: Color)
    ensures ParseHex(FormatHex(c)) == Some(c)
  {
    FormatHexShape(c);
    HexByteShape(c.r);
    HexByteShape(c.g);
    HexByteShape(c.b);
  }

  /** Two lowercase hex digits are the hex form of the byte they denote. */
  lemma HexPairIsHexByte(hi: char, lo: char)
    requires IsDigit(hi, 16) && IsDigit(lo, 16)
    ensures HexByte(HexPair(hi, lo)) == [hi, lo]
  {
    var v := HexPair(hi, lo);
    HexByteShape(v);
    assert v / 16 == DigitValue(hi) && v % 16 == DigitValue(lo);
    DigitOfValue(hi);
    DigitOfValue(lo);
  }

  /** Every string `ParseHex` accepts is the hex form of the colour it reads. */
  lemma ParseHexFormats(s: string)
    requires ParseHex(s).Some?
    ensures FormatHex(ParseHex(s).value) == s
  {
    assert IsDigit(s[1], 16) && IsDigit(s[2], 16) && IsDigit(s[3], 16);
    assert IsDigit(s[4], 16) && IsDigit(s[5], 16) && IsDigit(s[6], 16);
    var c := ParseHex(s).value;
    HexPairIsHexByte(s[1], s[2]);
    HexPairIsHexByte(s[3], s[4]);
    HexPairIsHexByte(s[5], s[6]);
    assert HexByte(c.r) == [s[1], s[2]] && HexByte(c.g) == [s[3], s[4]] && HexByte(c.b) == [s[5], s[6]];
    HashAndPairsParts(s);
  }

  lemma HashAndPairsParts(s: string)
    requires |s| == 7 && s[0] == '#'
    ensures s == "#" + [s[1], s[2]] + [s[3], s[4]] + [s[5], s[6]]
  {
    assert s == [s[0], s[1], s[2], s[3], s[4], s[5], s[6]];
  }

  // ---- Fields separated by one character ----

  /** The first position of `sep` in `s`. */
  function IndexOf(s: string, sep: char): (i: nat)
    requires sep in s
    ensures i < |s| && s[i] == sep && sep !in s[..i]
  {
    if s[0] == sep then 0 else assert s == [s[0]] + s[1..]; 1 + IndexOf(s[1..], sep)
  }

  /** `s.split(sep)` for a one-character separator. */
  function Split(s: string, sep: char): (parts: seq<string>)
    ensures |parts| >= 1
    decreases |s|
  {
    if sep in s then
      var i := IndexOf(s, sep);
      [s[..i]] + Split(s[i + 1..], sep)
    else
      [s]
  }

  /** A field without the separator is split off at the first separator. */
  lemma SplitField(a: string, sep: char, b: string)
    requires sep !in a
    ensures Split(a + [sep] + b, sep) == [a] + Split(b, sep)
  {
    var s := a + [sep] + b;
    assert s[|a|] == sep;
    var i := IndexOf(s, sep);
    assert s[..i] == a && s[i + 1..] == b;
  }

  /** Digits are never a separator. */
  lemma DigitsHaveNo(s: string, base: nat, sep: char)
    requires AllDigits(s, base) && DigitValue(sep) < 0
    ensures sep !in s
  {
  }

  /** A non-empty string of decimal digits, read as a number. */
  function ParseDec(s: string): Option<nat> {
    if |s| >= 1 && AllDigits(s, 10) then Some(FromBase(s, 10)) else None
  }

  /** Three parsed numbers that are all bytes. */
  function BytesToColor(r: Option<nat>, g: Option<nat>, b: Option<nat>): Option<Color> {
    if r.Some? && g.Some? && b.Some? && r.value < 256 && g.value < 256 && b.value < 256
    then Some(Color(r.value, g.value, b.value))
    else None
  }

  lemma DecRoundTrip(n: nat)
    ensures ParseDec(Dec(n)) == Some(n)
    ensures ',' !in Dec(n) && ' ' !in Dec(n)
  {
    ToBaseRoundTrip(n, 10);
    DigitsHaveNo(Dec(n), 10, ',');
    DigitsHaveNo(Dec(n), 10, ' ');
  }

  // ---- The rgb form ----

  /** The `rgb` arm: `rgb(r, g, b)` in decimal. */
  function FormatRgb(c: Color): string {
    "rgb(" + Dec(c.r) + ", " + Dec(c.g) + ", " + Dec(c.b) + ")"
  }

  /** Reads `rgb(r, g, b)` with decimal channels, one space after each comma. */
  function ParseRgb(s: string): Option<Color> {
    if |s| >= 5 && s[..4] == "rgb(" && s[|s| - 1] == ')' then
      var parts := Split(s[4..|s| - 1], ',');
      if |parts| == 3 && |parts[1]| >= 1 && parts[1][0] == ' ' && |parts[2]| >= 1 && parts[2][0] == ' ' then
        BytesToColor(ParseDec(parts[0]), ParseDec(parts[1][1..]), ParseDec(parts[2][1..]))
      else
        None
    else
      None
  }

  /** Reading the rgb form gives the colour back. */
  lemma RgbRoundTrip(c: Color)
    ensures ParseRgb(FormatRgb(c)) == Some(c)
  {
    DecRoundTrip(c.r);
    DecRoundTrip(c.g);
    DecRoundTrip(c.b);
    ParseRgbFields(Dec(c.r), Dec(c.g), Dec(c.b));
  }

  /** `ParseRgb` reads each of three comma-free fields written in the rgb form. */
  lemma ParseRgbFields(r: string, g: string, b: string)
    requires ',' !in r && ',' !in g && ',' !in b
    ensures ParseRgb("rgb(" + r + ", " + g + ", " + b + ")") == BytesToColor(ParseDec(r), ParseDec(g), ParseDec(b))
  {
    var g', b' := " " + g, " " + b;
    RgbWrapped(r, g, b);
    assert ',' !in g' && ',' !in b';
    ThreeFields(r, g', b');
    assert g'[1..] == g && b'[1..] == b;
  }

  /** Where the three channels sit in the rgb form. */
  lemma RgbWrapped(r: string, g: string, b: string)
    ensures var s := "rgb(" + r + ", " + g + ", " + b + ")";
      |s| >= 5 && s[..4] == "rgb(" && s[|s| - 1] == ')' && s[4..|s| - 1] == r + "," + (" " + g) + "," + (" " + b)
  {
    var s := "rgb(" + r + ", " + g + ", " + b + ")";
    assert s == "rgb(" + (r + "," + (" " + g) + "," + (" " + b)) + ")";
  }

  /** Three fields without commas, joined by commas, split back into the three. */
  lemma ThreeFields(x: string, y: string, z: string)
    requires ',' !in x && ',' !in y && ',' !in z
    ensures Split(x + "," + y + "," + z, ',') == [x, y, z]
  {
    assert x + "," + y + "," + z == x + [','] + (y + [','] + z);
    SplitField(x, ',', y + [','] + z);
    SplitField(y, ',', z);
  }

  // ---- The palette key ----

  /** The key `${r},${g},${b}` the palette extractor stores in its set. */
  function ColorKey(c: Color): string {
    Dec(c.r) + "," + Dec(c.g) + "," + Dec(c.b)
  }

  /** `key.split(',').map(Number)`, back to a colour, on the keys the extractor builds. */
  function ParseKey(s: string): Option<Color> {
    var parts := Split(s, ',');
    if |parts| == 3 then BytesToColor(ParseDec(parts[0]), ParseDec(parts[1]), ParseDec(parts[2])) else None
  }

  /** Reading a key gives the colour back. */
  lemma KeyRoundTrip(c: Color)
    ensures ParseKey(ColorKey(c)) == Some(c)
  {
    DecRoundTrip(c.r);
    DecRoundTrip(c.g);
    DecRoundTrip(c.b);
    ThreeFields(Dec(c.r), Dec(c.g), Dec(c.b));
  }

  /** Two colours have the same key exactly when they are the same colour, so
      deduplicating keys deduplicates colours. */
  lemma ColorKeyInjective(c: Color, d: Color)
    ensures ColorKey(c) == ColorKey(d) <==> c == d
  {
    if ColorKey(c) == ColorKey(d) {
      KeyRoundTrip(c);
      KeyRoundTrip(d);
    }
  }

  // ---- formatColor ----

  /** `Math.round` on an exact real: halves round up. */
  function Round(x: real): int {
    (x + 0.5).Floor
  }

  /** An integer in decimal, with a minus sign when negative. */
  function DecInt(i: int): string {
    if i < 0 then "-" + Dec(-i) else Dec(i)
  }

  /** The `hsl` arm: `hsl(h, s%, l%)` with each value rounded. */
  function FormatHsl(c: Color): string {
    HslText(Hsl.RgbToHsl(c.r, c.g, c.b))
  }

  function HslText(v: Hsl.HslColor): string {
    "hsl(" + DecInt(Round(v.h)) + ", " + DecInt(Round(v.s)) + "%, " + DecInt(Round(v.l)) + "%)"
  }

  /** `formatColor(color, format)`: any format but `hex`, `rgb` and `hsl` takes the default arm. */
  function FormatColor(c: Color, format: string): string {
    if format == "hex" then FormatHex(c)
    else if format == "rgb" then FormatRgb(c)
    else if format == "hsl" then FormatHsl(c)
    else FormatHex(c)
  }

  /** The hex and rgb arms write text their parsers read back, and the default arm is the hex arm. */
  lemma FormatColorRoundTrips(c: Color, format: string)
    ensures ParseHex(FormatColor(c, "hex")) == Some(c)
    ensures ParseRgb(FormatColor(c, "rgb")) == Some(c)
    ensures format !in {"hex", "rgb", "hsl"} ==> FormatColor(c, format) == FormatColor(c, "hex")
  {
    HexRoundTrip(c);
    RgbRoundTrip(c);
  }

  /** A grey is written with hue and saturation 0 and its rounded lightness,
      `100 * v / 255` percent. */
  lemma FormatHslGrey(v: Byte)
    ensures FormatColor(Color(v, v, v), "hsl") == "hsl(0, 0%, " + DecInt(Round(v as real * 100.0 / 255.0)) + "%)"
  {
    var c := Hsl.RgbToHsl(v, v, v);
    Hsl.RgbToHslGrey(v, v, v);
    Hsl.RgbToHslRanges(v, v, v);
    assert c.l == v as real * 100.0 / 255.0;
    DecSamples();
    assert Round(0.0) == 0;
  }

  /** The three rounded numbers of the hsl arm are never negative, so no minus
      sign is written: the hue is at most 360, saturation and lightness at most 100. */
  lemma FormatHslNumbers(c: Color)
    ensures var v := Hsl.RgbToHsl(c.r, c.g, c.b);
      && 0 <= Round(v.h) <= 360
      && 0 <= Round(v.s) <= 100
      && 0 <= Round(v.l) <= 100
  {
    Hsl.RgbToHslRanges(c.r, c.g, c.b);
  }

  /** Pure red is `hsl(0, 100%, 50%)`. */
  lemma FormatHslRed()
    ensures FormatColor(Color(255, 0, 0), "hsl") == "hsl(0, 100%, 50%)"
  {
    Hsl.RgbToHslSamples();
    DecSamples();
    assert Round(0.0) == 0 && Round(50.0) == 50 && Round(100.0) == 100;
  }

  lemma DecSamples()
    ensures DecInt(0) == "0" && DecInt(50) == "50" && DecInt(100) == "100"
  {
    assert ToBase(1, 10) == "1";
    assert ToBase(10, 10) == "10";
    assert ToBase(5, 10) == "5";
  }
}
