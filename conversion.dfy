/** Steps 2 and 3 of `processPixelConversion`: quantise the RGBA buffer of the
    shrunken image, then extract the palette from the quantised buffer. Step 1,
    drawing the image onto a `size` by `size` canvas and reading its bytes, is
    browser I/O: its result is the input buffer here. */
module Conversion {
  import opened Pixels
  import opened Quantize
  import opened Palette

  method ProcessPixelConversion(imageData: array<Byte>) returns (pixelData: array<Byte>, extractedColors: seq<Color>)
    ensures fresh(pixelData)
    ensures pixelData[..] == QuantizeBuffer(imageData[..])
    ensures extractedColors == ExtractedPalette(QuantizeBuffer(imageData[..]))
  {
    pixelData := QuantizePixelData(imageData);
    extractedColors := ExtractColorsFromPixelData(pixelData);
  }

  /** The palette of a quantised buffer is made of level colours only: each
      channel is one of 0, 36, ..., 252. */
  lemma PaletteOnLevels(s: seq<Byte>, c: Color)
    requires c in ExtractedPalette(QuantizeBuffer(s))
    ensures IsLevelColor(c)
  {
    var q := QuantizeBuffer(s);
    PaletteMembers(q, c);
    var k :| 0 <= k < |q| / 4 && IsOpaque(q, k) && PixelColor(q, k) == c;
    QuantizedPixelColorLevels(s, k);
  }

  /** However large the image, the palette of a quantised buffer has at most
      8 * 8 * 8 = 512 colours. */
  lemma PaletteAtMost512(s: seq<Byte>)
    ensures |ExtractedPalette(QuantizeBuffer(s))| <= 512
  {
    var p := ExtractedPalette(QuantizeBuffer(s));
    PaletteNoDuplicates(QuantizeBuffer(s));
    var codes := seq(|p|, i requires 0 <= i < |p| => LevelCode(p[i]));
    forall i | 0 <= i < |p|
      ensures IsLevelColor(p[i])
    {
      PaletteOnLevels(s, p[i]);
    }
    forall i, j | 0 <= i < j < |p|
      ensures codes[i] != codes[j]
    {
      LevelCodeInjective(p[i], p[j]);
    }
    DistinctBelow(codes, 512);
  }

  /** Converting the converted buffer again changes neither the buffer nor the palette. */
  lemma ConversionIdempotent(s: seq<Byte>)
    ensures QuantizeBuffer(QuantizeBuffer(s)) == QuantizeBuffer(s)
    ensures ExtractedPalette(QuantizeBuffer(QuantizeBuffer(s))) == ExtractedPalette(QuantizeBuffer(s))
  {
    QuantizeBufferIdempotent(s);
  }

  // ---- Counting level colours ----

  predicate IsLevelColor(c: Color) {
    c.r in Levels && c.g in Levels && c.b in Levels
  }

  /** A level colour numbered from 0 to 511 by its three level indices. */
  function LevelCode(c: Color): int {
    c.r / 36 * 64 + c.g / 36 * 8 + c.b / 36
  }

  lemma LevelCodeInjective(c: Color, d: Color)
    requires IsLevelColor(c) && IsLevelColor(d)
    ensures 0 <= LevelCode(c) < 512
    ensures LevelCode(c) == LevelCode(d) <==> c == d
  {
    LevelIndex(c.r); LevelIndex(c.g); LevelIndex(c.b);
    LevelIndex(d.r); LevelIndex(d.g); LevelIndex(d.b);
    Base8Digits(c.r / 36, c.g / 36, c.b / 36, d.r / 36, d.g / 36, d.b / 36);
  }

  lemma LevelIndex(v: int)
    requires v in Levels
    ensures 0 <= v / 36 < 8 && v == v / 36 * 36
  {
  }

  lemma Base8Digits(a: int, b: int, c: int, a': int, b': int, c': int)
    requires 0 <= a < 8 && 0 <= b < 8 && 0 <= c < 8
    requires 0 <= a' < 8 && 0 <= b' < 8 && 0 <= c' < 8
    ensures 0 <= a * 64 + b * 8 + c < 512
    ensures a * 64 + b * 8 + c == a' * 64 + b' * 8 + c' ==> a == a' && b == b' && c == c'
  {
  }

  /** Distinct numbers below `n` are at most `n` many. */
  lemma DistinctBelow(xs: seq<int>, n: nat)
    requires forall i :: 0 <= i < |xs| ==> 0 <= xs[i] < n
    requires forall i, j :: 0 <= i < j < |xs| ==> xs[i] != xs[j]
    ensures |xs| <= n
  {
    DistinctCard(xs);
    BelowCard(set i | 0 <= i < |xs| :: xs[i], n);
  }

  /** A set of numbers below `n` has at most `n` elements. */
  lemma {:induction false} BelowCard(a: set<int>, n: nat)
    requires forall x :: x in a ==> 0 <= x < n
    ensures |a| <= n
  {
    if n > 0 {
      var rest := a - {n - 1};
      BelowCard(rest, n - 1);
      if n - 1 in a {
        assert a == rest + {n - 1};
      } else {
        assert a == rest;
      }
    } else {
      assert forall x :: x !in a;
      assert a == {};
    }
  }

  lemma {:induction false} DistinctCard(xs: seq<int>)
    requires forall i, j :: 0 <= i < j < |xs| ==> xs[i] != xs[j]
    ensures |set i | 0 <= i < |xs| :: xs[i]| == |xs|
  {
    if xs != [] {
      var m := |xs| - 1;
      var init := xs[..m];
      DistinctCard(init);
      assert (set i | 0 <= i < |xs| :: xs[i]) == (set i | 0 <= i < m :: init[i]) + {xs[m]};
      assert xs[m] !in (set i | 0 <= i < m :: init[i]);
    }
  }
}
