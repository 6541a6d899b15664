/** The square grid of cells laid over the pixel buffer: cell `(x, y)` of a
    `size` by `size` image starts at byte `(y * size + x) * 4`. The click
    handler reads one cell through this index; the drawing and download loops
    read every cell, row by row. */
module Grid {
  import opened Pixels

  /** The colours of the complete pixels of a buffer, in buffer order. */
  function BufferColors(s: seq<Byte>): seq<Color> {
    seq(|s| / 4, k requires 0 <= k < |s| / 4 => PixelColor(s, k))
  }

  /** `(y * size + x) * 4`: the byte where the red of cell `(x, y)` sits. */
  function CellIndex(size: nat, x: int, y: int): int {
    (y * size + x) * 4
  }

  /** The guard of the click handler: the cell lies on the grid. */
  predicate InGrid(size: nat, x: int, y: int) {
    0 <= x < size && 0 <= y < size
  }

  /** A cell on the grid starts a whole pixel of a `size` by `size` buffer, so
      its red, green, blue and alpha reads all lie inside the buffer. */
  lemma CellIndexBounds(size: nat, x: int, y: int)
    requires InGrid(size, x, y)
    ensures 0 <= CellIndex(size, x, y) && CellIndex(size, x, y) % 4 == 0
    ensures CellIndex(size, x, y) + 3 < size * size * 4
    ensures CellIndex(size, x, y) / 4 == y * size + x < size * size
  {
    RowMajorBelow(size, x, y);
  }

  /** The pixel number of a cell gives the cell back: its column is the
      remainder and its row the quotient by `size`. */
  lemma CellIndexInverse(size: nat, x: int, y: int)
    requires InGrid(size, x, y)
    ensures (CellIndex(size, x, y) / 4) % size == x
    ensures (CellIndex(size, x, y) / 4) / size == y
  {
    CellIndexBounds(size, x, y);
    QuotientOfRowMajor(size, x, y);
  }

  /** Every pixel of the buffer is the start of exactly one cell. */
  lemma CellIndexCovers(size: nat, k: int)
    requires 0 <= k < size * size
    ensures InGrid(size, k % size, k / size)
    ensures CellIndex(size, k % size, k / size) == 4 * k
  {
    assert size > 0;
    var q, r := k / size, k % size;
    assert k == q * size + r && 0 <= r < size;
    assert q < size by {
      if q >= size {
        MulMono(size, q, size);
      }
    }
  }

  /** Two cells on the grid with the same index are the same cell. */
  lemma CellIndexInjective(size: nat, x: int, y: int, x': int, y': int)
    requires InGrid(size, x, y) && InGrid(size, x', y')
    ensures CellIndex(size, x, y) == CellIndex(size, x', y') <==> x == x' && y == y'
  {
    CellIndexInverse(size, x, y);
    CellIndexInverse(size, x', y');
  }

  /** The click handler's lookup: the colour of cell `(x, y)`, or nothing
      when the click falls outside the grid. The handler uses the size chosen
      now, which can be smaller than the size the buffer was converted at, so
      the buffer may be longer than `size * size * 4` bytes. */
  function CellColor(pixelData: seq<Byte>, size: nat, x: int, y: int): (r: Option<Color>)
    requires |pixelData| >= size * size * 4
    ensures r.Some? <==> InGrid(size, x, y)
    ensures r.Some? ==> IsFullPixel(pixelData, y * size + x) && r.value == PixelColor(pixelData, y * size + x)
  {
    if InGrid(size, x, y) then
      CellIndexBounds(size, x, y);
      var index := CellIndex(size, x, y);
      Some(Color(pixelData[index], pixelData[index + 1], pixelData[index + 2]))
    else
      None
  }

  /** The drawing and download loops: for each row, for each column, the
      colour of the cell read through its index. The cells come out in the
      buffer's own order, one per pixel; of a longer buffer, converted at a
      larger size, the first `size * size` pixels are read. */
  method PaintedColors(pixelData: array<Byte>, size: nat) returns (colors: seq<Color>)
    requires pixelData.Length >= size * size * 4
    ensures colors == BufferColors(pixelData[..])[..size * size]
  {
    ghost var all := BufferColors(pixelData[..]);
    colors := [];
    var y := 0;
    while y < size
      invariant 0 <= y <= size
      invariant y * size <= size * size
      invariant colors == all[..y * size]
    {
      var x := 0;
      while x < size
        invariant 0 <= x <= size
        invariant y * size + x <= size * size
        invariant colors == all[..y * size + x]
      {
        CellIndexBounds(size, x, y);
        var index := (y * size + x) * 4;
        colors := colors + [Color(pixelData[index], pixelData[index + 1], pixelData[index + 2])];
        assert all[..y * size + x + 1] == all[..y * size + x] + [all[y * size + x]];
        x := x + 1;
      }
      NextRow(size, y);
      y := y + 1;
    }
  }

  // ---- A conversion kept with its size ----

  /** A converted buffer together with the size it was converted at. */
  datatype Picture = Picture(pixelData: seq<Byte>, size: nat)

  predicate WholePicture(p: Picture) {
    |p.pixelData| == p.size * p.size * 4
  }

  /** The click lookup indexed at the size the buffer was converted at. */
  function PictureCell(p: Picture, x: int, y: int): (r: Option<Color>)
    requires WholePicture(p)
    ensures r.Some? <==> InGrid(p.size, x, y)
  {
    CellColor(p.pixelData, p.size, x, y)
  }

  /** Indexed at its own size, the grid shows at column `x` of row `y` the
      pixel of the converted image whose column is `x` and whose row is `y`;
      with `CellIndexInjective` each pixel is shown exactly once. */
  lemma PictureShowsEachPixel(p: Picture, x: int, y: int)
    requires WholePicture(p) && InGrid(p.size, x, y)
    ensures var k := y * p.size + x;
      0 <= k < p.size * p.size && PictureCell(p, x, y) == Some(PixelColor(p.pixelData, k))
    ensures (y * p.size + x) % p.size == x && (y * p.size + x) / p.size == y
  {
    RowMajorBelow(p.size, x, y);
    QuotientOfRowMajor(p.size, x, y);
  }

  /** The page keeps the buffer when another size is chosen. Converted at 16
      and shown at 8, the click at column 0 of row 1 reads pixel 8, which the
      converted image has at column 8 of row 0; its own cell at column 0 of
      row 1 is pixel 16. */
  lemma StaleSizeCell(pixelData: seq<Byte>)
    requires |pixelData| == 16 * 16 * 4
    ensures CellColor(pixelData, 8, 0, 1) == PictureCell(Picture(pixelData, 16), 8, 0)
    ensures IsFullPixel(pixelData, 16) && PictureCell(Picture(pixelData, 16), 0, 1) == Some(PixelColor(pixelData, 16))
    ensures IsFullPixel(pixelData, 8) && PixelColor(pixelData, 8) != PixelColor(pixelData, 16) ==>
              CellColor(pixelData, 8, 0, 1) != PictureCell(Picture(pixelData, 16), 0, 1)
  {
    PictureShowsEachPixel(Picture(pixelData, 16), 8, 0);
    PictureShowsEachPixel(Picture(pixelData, 16), 0, 1);
  }

  /** A buffer converted at 16 whose pixel 8 is red and every other pixel black. */
  lemma StaleSizeExample()
    ensures var s := seq(16 * 16 * 4, i => if i == 32 then 252 as Byte else 0);
      CellColor(s, 8, 0, 1) == Some(Color(252, 0, 0)) &&
      PictureCell(Picture(s, 16), 0, 1) == Some(Color(0, 0, 0))
  {
    var s := seq(16 * 16 * 4, i => if i == 32 then 252 as Byte else 0);
    StaleSizeCell(s);
  }

  // ---- Arithmetic helpers ----

  /** The row-major position of a cell on the grid is below `size * size`. */
  lemma RowMajorBelow(size: nat, x: int, y: int)
    requires InGrid(size, x, y)
    ensures y * size + x < size * size
  {
    assert y * size + size == (y + 1) * size;
    MulMono(y + 1, size, size);
  }

  lemma QuotientOfRowMajor(size: nat, x: int, y: int)
    requires InGrid(size, x, y)
    ensures (y * size + x) % size == x && (y * size + x) / size == y
  {
    DivModUnique(y * size + x, size, y, x);
  }

  /** Division with remainder has one answer. */
  lemma DivModUnique(n: int, d: int, q: int, r: int)
    requires d > 0 && n == q * d + r && 0 <= r < d
    ensures n / d == q && n % d == r
  {
    var q', r' := n / d, n % d;
    assert n == q' * d + r' && 0 <= r' < d;
    assert (q - q') * d == r' - r;
    if q > q' {
      MulMono(1, q - q', d);
    } else if q < q' {
      MulMono(1, q' - q, d);
    }
  }

  lemma MulMono(a: int, b: int, c: nat)
    requires a <= b
    ensures a * c <= b * c
  {
    assert b * c - a * c == (b - a) * c;
  }

  lemma NextRow(size: nat, y: int)
    requires 0 <= y < size
    ensures (y + 1) * size == y * size + size <= size * size
  {
    MulMono(y + 1, size, size);
  }
}
