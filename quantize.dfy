/** `quantizePixelData`: every colour channel of an RGBA buffer is snapped to
    the nearest multiple of 36, alpha is copied, into a freshly allocated buffer. */
module Quantize {
  import opened Pixels

  /** The values a quantised colour channel can take: eight levels, the top one 252. */
  const Levels: set<int> := {0, 36, 72, 108, 144, 180, 216, 252}

  /** `Math.round(v / 36) * 36` on a byte. `v / 36` ends in .5 only for
      `v = 36k + 18`, where the double is exact and `Math.round` rounds up; for
      every other byte it is at least 1/36 away from a half. Either way
      `Math.round(v / 36)` is `(v + 18) / 36`. The result is the only multiple
      of 36 in the window `v - 17 .. v + 18`. */
  function QuantizeChannel(v: Byte): (q: Byte)
    ensures q % 36 == 0
    ensures v - 17 <= q <= v + 18
  {
    (v + 18) / 36 * 36
  }

  /** The buffer `quantizePixelData` returns, byte by byte: the same length, each
      colour byte quantised, each alpha byte copied. Bytes of a trailing partial
      pixel are colour bytes, since writes past the end of the output are dropped. */
  function QuantizeBuffer(s: seq<Byte>): seq<Byte> {
    seq(|s|, j requires 0 <= j < |s| => if IsAlphaIndex(j) then s[j] else QuantizeChannel(s[j]))
  }

  /** The loop of `quantizePixelData`: four bytes per step into a new array;
      the input is only read. */
  method QuantizePixelData(data: array<Byte>) returns (quantized: array<Byte>)
    ensures fresh(quantized)
    ensures quantized[..] == QuantizeBuffer(data[..])
  {
    var n := data.Length;
    quantized := new Byte[n];
    var i := 0;
    while i < n
      invariant 0 <= i <= n + 3 && i % 4 == 0
      invariant forall j :: 0 <= j < i && j < n ==>
                  quantized[j] == if IsAlphaIndex(j) then data[j] else QuantizeChannel(data[j])
    {
      quantized[i] := QuantizeChannel(data[i]);
      if i + 1 < n { quantized[i + 1] := QuantizeChannel(data[i + 1]); }
      if i + 2 < n { quantized[i + 2] := QuantizeChannel(data[i + 2]); }
      if i + 3 < n { quantized[i + 3] := data[i + 3]; }
      i := i + 4;
    }
  }

  // ---- One channel ----

  /** Every quantised channel is one of the eight levels, so no clamping is needed. */
  lemma QuantizeChannelLevels(v: Byte)
    ensures QuantizeChannel(v) in Levels
    ensures QuantizeChannel(255) == 252
  {
    var q := QuantizeChannel(v);
    assert q / 36 < 8;
    assert q == 36 * (q / 36);
  }

  /** The quantised channel is a nearest multiple of 36 to `v`; of two equally
      near ones it is the upper (halves round up). */
  lemma QuantizeChannelNearest(v: Byte, m: int)
    requires m % 36 == 0
    ensures Abs(QuantizeChannel(v) as int - v) <= Abs(m - v as int)
    ensures Abs(QuantizeChannel(v) as int - v) == Abs(m - v as int) ==> m <= QuantizeChannel(v)
  {
    var q := QuantizeChannel(v);
    if m < q {
      assert m <= q as int - 36 by { DistinctMultiples(m, q); }
    } else if m > q {
      assert m >= q as int + 36 by { DistinctMultiples(q, m); }
    }
  }

  /** A brighter channel never quantises to a darker level. */
  lemma QuantizeChannelMonotone(v: Byte, w: Byte)
    requires v <= w
    ensures QuantizeChannel(v) <= QuantizeChannel(w)
  {
    var q, p := QuantizeChannel(v), QuantizeChannel(w);
    if q > p {
      DistinctMultiples(p, q);
    }
  }

  /** A level is left where it is. */
  lemma QuantizeChannelIdempotent(v: Byte)
    ensures QuantizeChannel(QuantizeChannel(v)) == QuantizeChannel(v)
  {
    var q := QuantizeChannel(v);
    var p := QuantizeChannel(q);
    if p != q {
      if p < q { DistinctMultiples(p, q); } else { DistinctMultiples(q, p); }
    }
  }

  // ---- The whole buffer ----

  /** The output has the input's length, its alpha bytes are the input's, and
      each colour byte is a level within 18 of the input byte. */
  lemma QuantizeBufferShape(s: seq<Byte>, j: int)
    requires 0 <= j < |s|
    ensures |QuantizeBuffer(s)| == |s|
    ensures IsAlphaIndex(j) ==> QuantizeBuffer(s)[j] == s[j]
    ensures !IsAlphaIndex(j) ==> QuantizeBuffer(s)[j] in Levels && Abs(QuantizeBuffer(s)[j] as int - s[j]) <= 18
  {
    if !IsAlphaIndex(j) {
      QuantizeChannelLevels(s[j]);
    }
  }

  /** Quantising a quantised buffer changes nothing. */
  lemma QuantizeBufferIdempotent(s: seq<Byte>)
    ensures QuantizeBuffer(QuantizeBuffer(s)) == QuantizeBuffer(s)
  {
    var t := QuantizeBuffer(s);
    forall j | 0 <= j < |s|
      ensures QuantizeBuffer(t)[j] == t[j]
    {
      QuantizeChannelIdempotent(s[j]);
    }
  }

  /** Every colour of a complete pixel of a quantised buffer has its three channels on the levels. */
  lemma QuantizedPixelColorLevels(s: seq<Byte>, k: nat)
    requires IsFullPixel(QuantizeBuffer(s), k)
    ensures var c := PixelColor(QuantizeBuffer(s), k); c.r in Levels && c.g in Levels && c.b in Levels
  {
    QuantizeChannelLevels(s[4 * k]);
    QuantizeChannelLevels(s[4 * k + 1]);
    QuantizeChannelLevels(s[4 * k + 2]);
  }

  // ---- Helpers ----

  function Abs(x: int): nat {
    if x < 0 then -x else x
  }

  /** Two different multiples of 36 are at least 36 apart. */
  lemma DistinctMultiples(a: int, b: int)
    requires a % 36 == 0 && b % 36 == 0 && a < b
    ensures a + 36 <= b
  {
    assert a == 36 * (a / 36) && b == 36 * (b / 36);
    assert a / 36 < b / 36;
  }
}
