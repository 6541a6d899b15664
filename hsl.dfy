/** `rgbToHsl`: the RGB to HSL conversion of CSS Color Module Level 4, computed
    over exact reals. Hue is in degrees, saturation and lightness in percent. */
module Hsl {
  import opened Pixels

  datatype HslColor = HslColor(h: real, s: real, l: real)

  function Max(x: real, y: real): real { if x < y then y else x }

  function Min(x: real, y: real): real { if x < y then x else y }

  /** `rgbToHsl(r, g, b)`: the channels are first divided by 255. */
  function RgbToHsl(r: Byte, g: Byte, b: Byte): HslColor {
    UnitRgbToHsl(r as real / 255.0, g as real / 255.0, b as real / 255.0)
  }

  /** The rest of `rgbToHsl`, on channels in 0..1. The `switch (max)` takes the
      first channel equal to the maximum, in the order red, green, blue; its
      `default` arm cannot be reached, since the maximum is one of the three. */
  function UnitRgbToHsl(R: real, G: real, B: real): HslColor
    requires 0.0 <= R <= 1.0 && 0.0 <= G <= 1.0 && 0.0 <= B <= 1.0
  {
    var mx, mn := Max(Max(R, G), B), Min(Min(R, G), B);
    var l := (mx + mn) / 2.0;
    if mx == mn then
      HslColor(0.0, 0.0, l * 100.0)
    else
      var d := mx - mn;
      var s := if l > 0.5 then d / (2.0 - mx - mn) else d / (mx + mn);
      var h :=
        if mx == R then (G - B) / d + (if G < B then 6.0 else 0.0)
        else if mx == G then (B - R) / d + 2.0
        else (R - G) / d + 4.0;
      HslColor(h / 6.0 * 360.0, s * 100.0, l * 100.0)
  }

  // ---- The inverse: HSL to RGB as CSS Color Module Level 4 defines it ----

  /** `x % 12` for `x >= 0`. */
  function Mod12(x: real): real {
    x - 12.0 * (x / 12.0).Floor as real
  }

  /** The piecewise-linear profile shared by the three channels. */
  function Profile(k: real): real {
    Max(-1.0, Min(Min(k - 3.0, 9.0 - k), 1.0))
  }

  /** Channel `n` (0 for red, 8 for green, 4 for blue) of `hslToRgb`, in 0..1. */
  function HslChannel(n: real, c: HslColor): real {
    var sat, light := c.s / 100.0, c.l / 100.0;
    var k := Mod12(n + c.h / 30.0);
    var a := sat * Min(light, 1.0 - light);
    light - a * Profile(k)
  }

  function HslToRgb(c: HslColor): (real, real, real) {
    (HslChannel(0.0, c), HslChannel(8.0, c), HslChannel(4.0, c))
  }

  // ---- Properties ----

  /** The ranges `rgbToHsl` promises: hue in [0, 360), saturation and lightness
      in [0, 100], lightness half the sum of the extreme channels on the 0..100 scale. */
  lemma RgbToHslRanges(r: Byte, g: Byte, b: Byte)
    ensures var c := RgbToHsl(r, g, b);
      && 0.0 <= c.h < 360.0
      && 0.0 <= c.s <= 100.0
      && 0.0 <= c.l <= 100.0
      && c.l == 50.0 * (MaxByte(r, g, b) + MinByte(r, g, b)) as real / 255.0
  {
    var R, G, B := r as real / 255.0, g as real / 255.0, b as real / 255.0;
    UnitRanges(R, G, B);
    ScaledExtremes(r, g, b);
  }

  lemma UnitRanges(R: real, G: real, B: real)
    requires 0.0 <= R <= 1.0 && 0.0 <= G <= 1.0 && 0.0 <= B <= 1.0
    ensures var c := UnitRgbToHsl(R, G, B);
      && 0.0 <= c.h < 360.0
      && 0.0 <= c.s <= 100.0
      && c.l == 50.0 * (Max(Max(R, G), B) + Min(Min(R, G), B))
  {
    var mx, mn := Max(Max(R, G), B), Min(Min(R, G), B);
    if mx != mn {
      var d := mx - mn;
      var l := (mx + mn) / 2.0;
      if l > 0.5 {
        FractionAtMostOne(d, 2.0 - mx - mn);
      } else {
        FractionAtMostOne(d, mx + mn);
      }
      HueRange(R, G, B, mx, mn);
    }
  }

  /** The hue sextant of a chromatic colour lies in [0, 6). */
  lemma HueRange(R: real, G: real, B: real, mx: real, mn: real)
    requires mx == Max(Max(R, G), B) && mn == Min(Min(R, G), B) && mx != mn
    ensures var d := mx - mn;
      var t := if mx == R then (G - B) / d + (if G < B then 6.0 else 0.0)
               else if mx == G then (B - R) / d + 2.0
               else (R - G) / d + 4.0;
      0.0 <= t < 6.0
  {
    var d := mx - mn;
    if mx == R {
      FractionWithinOne(G - B, d);
    } else if mx == G {
      FractionWithinOne(B - R, d);
    } else {
      FractionWithinOne(R - G, d);
    }
  }

  /** Dividing by 255 keeps the largest and the smallest channel. */
  lemma ScaledExtremes(r: Byte, g: Byte, b: Byte)
    ensures Max(Max(r as real / 255.0, g as real / 255.0), b as real / 255.0) == MaxByte(r, g, b) as real / 255.0
    ensures Min(Min(r as real / 255.0, g as real / 255.0), b as real / 255.0) == MinByte(r, g, b) as real / 255.0
  {
  }

  /** A colour is grey (saturation 0) exactly when its three channels are equal,
      and a grey has hue 0. */
  lemma RgbToHslGrey(r: Byte, g: Byte, b: Byte)
    ensures RgbToHsl(r, g, b).s == 0.0 <==> r == g == b
    ensures r == g == b ==> RgbToHsl(r, g, b).h == 0.0
  {
    var R, G, B := r as real / 255.0, g as real / 255.0, b as real / 255.0;
    var mx, mn := Max(Max(R, G), B), Min(Min(R, G), B);
    if mx != mn {
      var d := mx - mn;
      var l := (mx + mn) / 2.0;
      var den := if l > 0.5 then 2.0 - mx - mn else mx + mn;
      assert den > 0.0;
      assert d / den > 0.0;
    }
  }

  /** Black, white and pure red. */
  lemma RgbToHslSamples()
    ensures RgbToHsl(0, 0, 0) == HslColor(0.0, 0.0, 0.0)
    ensures RgbToHsl(255, 255, 255) == HslColor(0.0, 0.0, 100.0)
    ensures RgbToHsl(255, 0, 0) == HslColor(0.0, 100.0, 50.0)
  {
  }

  /** Converting back with the CSS HSL to RGB conversion gives the channels
      `rgbToHsl` started from, on the 0..1 scale. */
  lemma RgbToHslRoundTrip(r: Byte, g: Byte, b: Byte)
    ensures HslToRgb(RgbToHsl(r, g, b)) == (r as real / 255.0, g as real / 255.0, b as real / 255.0)
  {
    UnitRoundTrip(r as real / 255.0, g as real / 255.0, b as real / 255.0);
  }

  lemma UnitRoundTrip(R: real, G: real, B: real)
    requires 0.0 <= R <= 1.0 && 0.0 <= G <= 1.0 && 0.0 <= B <= 1.0
    ensures HslToRgb(UnitRgbToHsl(R, G, B)) == (R, G, B)
  {
    var c := UnitRgbToHsl(R, G, B);
    var mx, mn := Max(Max(R, G), B), Min(Min(R, G), B);
    var L := (mx + mn) / 2.0;
    if mx == mn {
      assert c == HslColor(0.0, 0.0, L * 100.0);
      assert R == G == B == L;
      GreyChannel(0.0, L);
      GreyChannel(8.0, L);
      GreyChannel(4.0, L);
    } else {
      ChromaticRoundTrip(R, G, B, mx, mn, L);
    }
  }

  lemma ChromaticRoundTrip(R: real, G: real, B: real, mx: real, mn: real, L: real)
    requires 0.0 <= R <= 1.0 && 0.0 <= G <= 1.0 && 0.0 <= B <= 1.0
    requires mx == Max(Max(R, G), B) && mn == Min(Min(R, G), B) && mx != mn && L == (mx + mn) / 2.0
    ensures HslToRgb(UnitRgbToHsl(R, G, B)) == (R, G, B)
  {
    var c := UnitRgbToHsl(R, G, B);
    var d := mx - mn;
    var s := if L > 0.5 then d / (2.0 - mx - mn) else d / (mx + mn);
    var t :=
      if mx == R then (G - B) / d + (if G < B then 6.0 else 0.0)
      else if mx == G then (B - R) / d + 2.0
      else (R - G) / d + 4.0;
    assert c == HslColor(t / 6.0 * 360.0, s * 100.0, L * 100.0);
    assert c.s / 100.0 == s;
    HalfChroma(mx, mn, L, s);
    ChannelByHalfChroma(0.0, c, L, d / 2.0, t);
    ChannelByHalfChroma(8.0, c, L, d / 2.0, t);
    ChannelByHalfChroma(4.0, c, L, d / 2.0, t);
    SextantsRoundTrip(R, G, B, mx, mn, L, d, t);
  }

  /** The three channels rebuilt from the lightness, the half chroma and the hue sextant. */
  lemma SextantsRoundTrip(R: real, G: real, B: real, mx: real, mn: real, L: real, d: real, t: real)
    requires mx == Max(Max(R, G), B) && mn == Min(Min(R, G), B) && mx != mn
    requires d == mx - mn && L == (mx + mn) / 2.0
    requires t == if mx == R then (G - B) / d + (if G < B then 6.0 else 0.0)
                  else if mx == G then (B - R) / d + 2.0
                  else (R - G) / d + 4.0
    ensures Rebuilt(0.0, L, d / 2.0, t) == R
    ensures Rebuilt(8.0, L, d / 2.0, t) == G
    ensures Rebuilt(4.0, L, d / 2.0, t) == B
  {
    if mx == R {
      DivMul(G - B, d);
      if G < B {
        RedSextantHigh(R, G, B, L, d, t);
      } else {
        RedSextantLow(R, G, B, L, d, t);
      }
    } else if mx == G {
      DivMul(B - R, d);
      GreenSextants(R, G, B, L, d, t);
    } else {
      DivMul(R - G, d);
      if G <= R {
        BlueSextantLow(R, G, B, L, d, t);
      } else {
        BlueSextantHigh(R, G, B, L, d, t);
      }
    }
  }

  // ---- Helpers for the proofs ----

  function MaxByte(r: Byte, g: Byte, b: Byte): Byte {
    if r >= g && r >= b then r else if g >= b then g else b
  }

  function MinByte(r: Byte, g: Byte, b: Byte): Byte {
    if r <= g && r <= b then r else if g <= b then g else b
  }

  lemma FractionAtMostOne(x: real, y: real)
    requires 0.0 < x <= y
    ensures 0.0 < x / y <= 1.0
  {
  }

  lemma FractionWithinOne(x: real, y: real)
    requires 0.0 < y && -y <= x <= y
    ensures -1.0 <= x / y <= 1.0
    ensures x < 0.0 ==> x / y < 0.0
  {
  }

  /** The `a` of `hslToRgb` is half the chroma: `s * min(l, 1 - l) == (max - min) / 2`. */
  lemma HalfChroma(mx: real, mn: real, L: real, s: real)
    requires 0.0 <= mn < mx <= 1.0 && L == (mx + mn) / 2.0
    requires s == if L > 0.5 then (mx - mn) / (2.0 - mx - mn) else (mx - mn) / (mx + mn)
    ensures s * Min(L, 1.0 - L) == (mx - mn) / 2.0
  {
    if L > 0.5 {
      assert Min(L, 1.0 - L) == (2.0 - mx - mn) / 2.0;
    } else {
      assert Min(L, 1.0 - L) == (mx + mn) / 2.0;
    }
  }

  lemma Mod12Small(x: real)
    requires 0.0 <= x < 24.0
    ensures Mod12(x) == if x < 12.0 then x else x - 12.0
  {
    if x < 12.0 {
      assert (x / 12.0).Floor == 0;
    } else {
      assert (x / 12.0).Floor == 1;
    }
  }

  lemma DivMul(x: real, d: real)
    requires d != 0.0
    ensures d * (x / d) == x
  {
  }

  /** `hslToRgb` channel `n` from the lightness `L`, the `a` of the CSS algorithm and the hue sextant `t`. */
  function Rebuilt(n: real, L: real, a: real, t: real): real {
    L - a * Profile(Mod12(n + 2.0 * t))
  }

  /** With saturation 0 every channel is the lightness. */
  lemma GreyChannel(n: real, L: real)
    ensures HslChannel(n, HslColor(0.0, 0.0, L * 100.0)) == L
  {
  }

  /** `hslToRgb` channel `n` in terms of the lightness `L`, the half chroma `a`
      and the hue sextant `t`. */
  lemma ChannelByHalfChroma(n: real, c: HslColor, L: real, a: real, t: real)
    requires c.l == L * 100.0 && c.h == t / 6.0 * 360.0
    requires c.s / 100.0 * Min(L, 1.0 - L) == a
    ensures HslChannel(n, c) == Rebuilt(n, L, a, t)
  {
  }

  /** From `d * u == x` and `lo * d <= x <= hi * d`, `u` lies in `[lo, hi]`. */
  lemma QuotientBounds(d: real, u: real, x: real, lo: real, hi: real)
    requires d > 0.0 && d * u == x && lo * d <= x <= hi * d
    ensures lo <= u <= hi
  {
  }

  /** The values of the profile on each part of [0, 12). */
  lemma ProfileAt(k: real)
    requires 0.0 <= k < 12.0
    ensures (k <= 2.0 || 10.0 <= k) ==> Profile(k) == -1.0
    ensures 2.0 <= k <= 4.0 ==> Profile(k) == k - 3.0
    ensures 4.0 <= k <= 8.0 ==> Profile(k) == 1.0
    ensures 8.0 <= k <= 10.0 ==> Profile(k) == 9.0 - k
  {
  }

  /** `L - a * Profile(k)` at the profile's four shapes. */
  lemma ChannelShapes(L: real, d: real, k: real)
    ensures L - d / 2.0 * -1.0 == L + d / 2.0
    ensures L - d / 2.0 * 1.0 == L - d / 2.0
    ensures L - d / 2.0 * (k - 3.0) == L - d * (k / 2.0) + 3.0 * d / 2.0
    ensures L - d / 2.0 * (9.0 - k) == L - 9.0 * d / 2.0 + d * (k / 2.0)
  {
  }

  /** Red is the largest channel and green at least blue: hue sextant 0. */
  lemma RedSextantLow(R: real, G: real, B: real, L: real, d: real, t: real)
    requires d > 0.0 && R - B == d && B <= G <= R && L == (R + B) / 2.0
    requires d * (t - 0.0) == G - B
    ensures Rebuilt(0.0, L, d / 2.0, t) == R
    ensures Rebuilt(8.0, L, d / 2.0, t) == G
    ensures Rebuilt(4.0, L, d / 2.0, t) == B
  {
    var u := t - 0.0;
    QuotientBounds(d, u, G - B, 0.0, 1.0);
    var k0, k8, k4 := 0.0 + 2.0 * t, 8.0 + 2.0 * t, 4.0 + 2.0 * t;
    Mod12Small(k0); Mod12Small(k8); Mod12Small(k4);
    ProfileAt(k0); ProfileAt(k8); ProfileAt(k4);
    ChannelShapes(L, d, k8);
    assert d * (k8 / 2.0) == 4.0 * d + d * u;
  }

  /** Red is the largest channel and green below blue: hue sextant 5. */
  lemma RedSextantHigh(R: real, G: real, B: real, L: real, d: real, t: real)
    requires d > 0.0 && R - G == d && G < B <= R && L == (R + G) / 2.0
    requires d * (t - 6.0) == G - B
    ensures Rebuilt(0.0, L, d / 2.0, t) == R
    ensures Rebuilt(8.0, L, d / 2.0, t) == G
    ensures Rebuilt(4.0, L, d / 2.0, t) == B
  {
    var u := t - 6.0;
    QuotientBounds(d, u, G - B, -1.0, 0.0);
    assert u != 0.0;
    var k0, k8, k4 := 0.0 + 2.0 * t, 8.0 + 2.0 * t, 4.0 + 2.0 * t;
    Mod12Small(k0); Mod12Small(k8); Mod12Small(k4);
    ProfileAt(k0); ProfileAt(k8 - 12.0); ProfileAt(k4 - 12.0);
    ChannelShapes(L, d, k4 - 12.0);
    assert d * ((k4 - 12.0) / 2.0) == 2.0 * d + d * u;
  }

  /** Green is the largest channel (and red is not): hue sextants 1 and 2. */
  lemma GreenSextants(R: real, G: real, B: real, L: real, d: real, t: real)
    requires d > 0.0 && R < G && B <= G
    requires (R <= B && G - R == d && L == (G + R) / 2.0) || (B < R && G - B == d && L == (G + B) / 2.0)
    requires d * (t - 2.0) == B - R
    ensures Rebuilt(0.0, L, d / 2.0, t) == R
    ensures Rebuilt(8.0, L, d / 2.0, t) == G
    ensures Rebuilt(4.0, L, d / 2.0, t) == B
  {
    var u := t - 2.0;
    if R <= B {
      QuotientBounds(d, u, B - R, 0.0, 1.0);
    } else {
      QuotientBounds(d, u, B - R, -1.0, 0.0);
      assert u != 0.0;
    }
    var k0, k8, k4 := 0.0 + 2.0 * t, 8.0 + 2.0 * t, 4.0 + 2.0 * t;
    Mod12Small(k0); Mod12Small(k8); Mod12Small(k4);
    ProfileAt(k0); ProfileAt(Mod12(k8)); ProfileAt(k4);
    ChannelShapes(L, d, k0);
    ChannelShapes(L, d, k4);
    assert d * (k0 / 2.0) == 2.0 * d + d * u;
    assert d * (k4 / 2.0) == 4.0 * d + d * u;
  }

  /** Blue is the largest channel and red at least green: hue sextant 3. */
  lemma BlueSextantLow(R: real, G: real, B: real, L: real, d: real, t: real)
    requires d > 0.0 && G <= R < B && B - G == d && L == (B + G) / 2.0
    requires d * (t - 4.0) == R - G
    ensures Rebuilt(0.0, L, d / 2.0, t) == R
    ensures Rebuilt(8.0, L, d / 2.0, t) == G
    ensures Rebuilt(4.0, L, d / 2.0, t) == B
  {
    var u := t - 4.0;
    QuotientBounds(d, u, R - G, 0.0, 1.0);
    var k0, k8, k4 := 0.0 + 2.0 * t, 8.0 + 2.0 * t, 4.0 + 2.0 * t;
    Mod12Small(k0); Mod12Small(k8); Mod12Small(k4);
    ProfileAt(k0); ProfileAt(k8 - 12.0); ProfileAt(k4 - 12.0);
    ChannelShapes(L, d, k0);
    assert d * (k0 / 2.0) == 4.0 * d + d * u;
  }

  /** Blue is the largest channel and red below green: hue sextant 4. */
  lemma BlueSextantHigh(R: real, G: real, B: real, L: real, d: real, t: real)
    requires d > 0.0 && R < G < B && B - R == d && L == (B + R) / 2.0
    requires d * (t - 4.0) == R - G
    ensures Rebuilt(0.0, L, d / 2.0, t) == R
    ensures Rebuilt(8.0, L, d / 2.0, t) == G
    ensures Rebuilt(4.0, L, d / 2.0, t) == B
  {
    var u := t - 4.0;
    QuotientBounds(d, u, R - G, -1.0, 0.0);
    assert u != 0.0;
    var k0, k8, k4 := 0.0 + 2.0 * t, 8.0 + 2.0 * t, 4.0 + 2.0 * t;
    Mod12Small(k0); Mod12Small(k8); Mod12Small(k4);
    ProfileAt(k0); ProfileAt(k8 - 12.0); ProfileAt(k4);
    ChannelShapes(L, d, k8 - 12.0);
    assert d * ((k8 - 12.0) / 2.0) == 2.0 * d + d * u;
  }
}
