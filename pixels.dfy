/** Values shared by the whole pipeline: the bytes of an RGBA pixel buffer,
    the colours the palette is made of, and an optional result. */
module Pixels {

  /** One entry of a `Uint8ClampedArray`. */
  type Byte = x: int | 0 <= x < 256

  /** A palette colour: the (r, g, b) of a pixel, without its alpha. */
  datatype Color = Color(r: Byte, g: Byte, b: Byte)

  datatype Option<T> = None | Some(value: T)

  /** Byte `j` of an RGBA buffer is an alpha byte when it is the fourth of its pixel. */
  predicate IsAlphaIndex(j: int) {
    j % 4 == 3
  }

  /** Pixel `k` is complete when all four of its bytes lie inside the buffer. */
  predicate IsFullPixel(s: seq<Byte>, k: nat) {
    4 * k + 3 < |s|
  }

  /** The (r, g, b) of pixel `k`. */
  function PixelColor(s: seq<Byte>, k: nat): Color
    requires IsFullPixel(s, k)
  {
    Color(s[4 * k], s[4 * k + 1], s[4 * k + 2])
  }

  /** Pixel `k` is complete and not fully transparent. */
  predicate IsOpaque(s: seq<Byte>, k: nat) {
    IsFullPixel(s, k) && s[4 * k + 3] > 0
  }

  /** The perceived brightness of a colour, scaled by 1000: the luma weights 0.299, 0.587, 0.114. */
  function Brightness(c: Color): int {
    299 * c.r + 587 * c.g + 114 * c.b
  }

  predicate NoDuplicates<T(==)>(s: seq<T>) {
    forall i, j :: 0 <= i < j < |s| ==> s[i] != s[j]
  }
}
