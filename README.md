# image2dot colour pipeline in Dafny

image2dot turns an uploaded picture into pixel art. The picture is drawn onto a
`size` by `size` canvas, and its RGBA bytes are read back. `PixelArtConverter`
then does two things with those bytes:

- it quantises every colour channel to a multiple of 36;
- it extracts the palette: the distinct colours of the non-transparent pixels,
  brightest first.

The page component draws the cells, shows the colour of a clicked cell, and
writes palette colours as `#rrggbb`, `rgb(r, g, b)` or `hsl(h, s%, l%)`.

This project models that pipeline and proves what it guarantees.

- `pixels.dfy` (module `Pixels`) holds the shared values:
  - bytes (`Byte`, 0..255) and colours (`Color`);
  - which byte of a buffer is an alpha byte, and which pixels are complete;
  - the brightness `299r + 587g + 114b`.
- `quantize.dfy` (module `Quantize`) models `quantizePixelData`.
  - It is a loop over a fresh array, proved equal to a byte-by-byte
    specification (`QuantizeBuffer`).
  - `Math.round(v / 36) * 36` on a byte is exactly `(v + 18) / 36 * 36`.
  - There are eight levels, 0, 36, …, 252. The top level is 252, not the 255
    that the source comment names.
- `palette.dfy` (module `Palette`) models `extractColorsFromPixelData`.
  - The scan keeps each colour the first time an opaque pixel shows it, which
    is the insertion-ordered `Set`.
  - `Array.prototype.sort` with the brightness comparator becomes an in-place
    stable insertion sort on an array.
  - Both are proved against functional specifications (`FirstSeen` and
    `SortByBrightness`). Their properties are proved as lemmas: no duplicates,
    membership exactly when a pixel is opaque, non-increasing brightness,
    ties in first-seen order, and a permutation.
- `hsl.dfy` (module `Hsl`) models `rgbToHsl` over exact reals.
  - It is inverted by the HSL to RGB conversion of CSS Color Module Level 4,
    section 7.
  - The round trip is proved for every byte triple.
- `colortext.dfy` (module `ColorText`) models `formatColor` and the palette key
  `${r},${g},${b}`.
  - It covers `toString(16)`, `padStart` and decimal text.
  - The hex and rgb forms (CSS Color Module Level 4, sections 5.2 and 5.1) and
    the key each come with a parser and a proved round trip.
- `grid.dfy` (module `Grid`) models the cell index `(y * size + x) * 4`.
  - The click handler uses it to look up one cell.
  - The drawing and download loops use it to read every cell.
- `conversion.dfy` (module `Conversion`) models steps 2 and 3 of
  `processPixelConversion`, quantise then extract, and what they give together.
  - The palette of a quantised image uses only level colours.
  - It never has more than 512 colours.
  - Converting again changes nothing.

## Model

| member | source | states |
|---|---|---|
| Quantize.QuantizeBuffer | src/components/PixelArtConverter.ts:28-41 | the buffer `quantizePixelData` returns, byte by byte: same length, colour bytes quantised, alpha bytes copied; its properties are the `QuantizeBuffer…` lemmas below |
| Quantize.QuantizeChannel | src/components/PixelArtConverter.ts:34-36 | a quantised channel is a multiple of 36 within `v - 17 .. v + 18` of the input byte |
| Quantize.QuantizePixelData | src/components/PixelArtConverter.ts:28-41 | returns a freshly allocated buffer of the input's length; colour bytes are quantised, alpha bytes copied; the input is not modified |
| Quantize.QuantizeChannelLevels | src/components/PixelArtConverter.ts:32-36 | every quantised channel is one of the eight levels 0, 36, …, 252 (so the clamping of the output array never acts); 255 becomes 252 |
| Quantize.QuantizeChannelNearest | src/components/PixelArtConverter.ts:34-36 | the quantised channel is a nearest multiple of 36, and of two equally near ones the upper (halves round up) |
| Quantize.QuantizeChannelMonotone | src/components/PixelArtConverter.ts:34-36 | quantisation is monotone: a brighter channel never gets a darker level |
| Quantize.QuantizeChannelIdempotent | src/components/PixelArtConverter.ts:34-36 | quantising a level leaves it unchanged |
| Quantize.QuantizeBufferShape | src/components/PixelArtConverter.ts:29-38 | the output has the input's length, alpha bytes are copied, and each colour byte is a level at most 18 from the input byte |
| Quantize.QuantizeBufferIdempotent | src/components/PixelArtConverter.ts:31-38 | quantising a quantised buffer gives the same buffer |
| Quantize.QuantizedPixelColorLevels | src/components/PixelArtConverter.ts:31-38 | every complete pixel of a quantised buffer has its three channels on the levels |
| Pixels.Brightness | src/components/PixelArtConverter.ts:62-64 | the comparator's brightness scaled by 1000, `299r + 587g + 114b`; comparing these integers orders colours exactly as the comparator does |
| Palette.FirstSeen | src/components/PixelArtConverter.ts:44-55 | the insertion-ordered `Set` after scanning `n` pixels: a colour is appended when an opaque pixel shows it for the first time; its properties are the `FirstSeen…` lemmas |
| Palette.SortByBrightness | src/components/PixelArtConverter.ts:60-65 | the brightest-first stable order of a list of colours, built by insertion; its properties are `SortPermutes`, `SortIsSorted` and `SortIsStable` |
| Palette.ExtractedPalette | src/components/PixelArtConverter.ts:43-66 | what `extractColorsFromPixelData` returns: the first-seen opaque colours of all complete pixels, sorted by brightness; its properties are the `Palette…` lemmas |
| Palette.ExtractColorsFromPixelData | src/components/PixelArtConverter.ts:43-66 | the scan loop builds the first-seen list of opaque colours, and the in-place sort then orders it by brightness; the result is the specified palette of the buffer |
| Palette.SortByBrightnessInPlace | src/components/PixelArtConverter.ts:60-65 | the array is rearranged into the stable brightest-first order of its old contents |
| Palette.InsertLast | src/components/PixelArtConverter.ts:60-65 | one insertion step: the element after a sorted prefix is inserted after all elements at least as bright, and the rest of the array is unchanged |
| Palette.FirstSeenNoDuplicates | src/components/PixelArtConverter.ts:44-55 | the set of collected colours holds no colour twice |
| Palette.FirstSeenMembers | src/components/PixelArtConverter.ts:46-55 | a colour is collected exactly when some complete pixel with alpha above 0 has it |
| Palette.FirstSeenOrder | src/components/PixelArtConverter.ts:44-55 | colours are kept in the order their first opaque pixel appears |
| Palette.FirstSeenLength | src/components/PixelArtConverter.ts:46-55 | no more colours are collected than pixels were scanned, so at most a quarter of the buffer length |
| Palette.InsertPermutes | src/components/PixelArtConverter.ts:60-65 | inserting into the sorted part adds exactly the inserted colour |
| Palette.SortPermutes | src/components/PixelArtConverter.ts:60-65 | sorting is a permutation of its input |
| Palette.SortIsSorted | src/components/PixelArtConverter.ts:60-65 | the sorted palette has non-increasing brightness |
| Palette.SortIsStable | src/components/PixelArtConverter.ts:60-65 | colours of equal brightness keep their relative order (a stable sort) |
| Palette.PaletteNoDuplicates | src/components/PixelArtConverter.ts:44-59 | the returned palette has no duplicate colours |
| Palette.PaletteMembers | src/components/PixelArtConverter.ts:46-59 | a colour is in the palette exactly when some opaque complete pixel has it; transparent pixels contribute nothing |
| Palette.PaletteOrder | src/components/PixelArtConverter.ts:57-65 | the palette is sorted by non-increasing brightness, ties in first-seen order, and has at most buffer length / 4 colours |
| Hsl.RgbToHsl | src/components/PixelArtConverter.ts:130-155 | `rgbToHsl`: the channels divided by 255, then the unit conversion; its ranges and its inverse are `RgbToHslRanges` and `RgbToHslRoundTrip` |
| Hsl.UnitRgbToHsl | src/components/PixelArtConverter.ts:135-154 | lightness as the mean of the extremes, saturation by the `l > 0.5` test, hue by the `switch` on the maximum in red, green, blue order, scaled to degrees and percent |
| Hsl.RgbToHslRanges | src/components/PixelArtConverter.ts:130-155 | hue in [0, 360), saturation and lightness in [0, 100], and lightness is 50 · (max + min) / 255 |
| Hsl.UnitRanges | src/components/PixelArtConverter.ts:135-154 | the same ranges on channels already divided by 255 |
| Hsl.HueRange | src/components/PixelArtConverter.ts:145-151 | the hue before scaling (the `switch` on the maximum channel) lies in [0, 6) |
| Hsl.RgbToHslGrey | src/components/PixelArtConverter.ts:139-143 | saturation is 0 exactly when the three channels are equal, and then the hue is 0 |
| Hsl.RgbToHslSamples | src/components/PixelArtConverter.ts:130-155 | black is (0, 0, 0), white (0, 0, 100), pure red (0, 100, 50) |
| Hsl.RgbToHslRoundTrip | src/components/PixelArtConverter.ts:130-155 | converting the result back with the CSS HSL to RGB conversion gives the channels divided by 255 |
| Hsl.UnitRoundTrip | src/components/PixelArtConverter.ts:135-154 | the round trip for any channels in [0, 1] |
| Hsl.ChromaticRoundTrip | src/components/PixelArtConverter.ts:141-151 | the round trip for colours whose channels are not all equal |
| Hsl.SextantsRoundTrip | src/components/PixelArtConverter.ts:145-151 | in each arm of the `switch` the three channels are rebuilt from lightness, half chroma and hue |
| ColorText.ToBase | src/app/page.tsx:301-303 | `toString(base)` writes at least one digit of the base, with no leading zero, and exactly one digit when the number is below the base |
| ColorText.ToBaseRoundTrip | src/app/page.tsx:301-303 | reading back the digits written by `toString(base)` gives the number |
| ColorText.ToBaseInjective | src/app/page.tsx:301-303 | two numbers have the same digits exactly when they are equal |
| ColorText.PadStart | src/app/page.tsx:301 | `padStart` gives the longer of the string and the width, the string at the end and only fill characters before it |
| ColorText.HexByte | src/app/page.tsx:301 | one channel as `toString(16).padStart(2, '0')`; its shape is `HexByteShape` |
| ColorText.HexByteShape | src/app/page.tsx:301 | each channel is exactly two lowercase hex digits, the sixteens then the units; the first is the padding `0` exactly when the channel is below 16 |
| ColorText.FormatHex | src/app/page.tsx:300-301 | the hex arm, `#` and the three channels; its shape and inverse are `FormatHexShape` and `HexRoundTrip` |
| ColorText.FormatHexShape | src/app/page.tsx:300-301 | the hex form is `#` followed by six lowercase hex digits, two per channel |
| ColorText.HexRoundTrip | src/app/page.tsx:300-301 | splitting the hex form into three two-digit groups and reading them in base 16 gives the colour back |
| ColorText.ParseHexFormats | src/app/page.tsx:300-301 | every `#` and six lowercase hex digits is the hex form of the colour it denotes |
| ColorText.HexPairIsHexByte | src/app/page.tsx:301 | two lowercase hex digits are the hex form of the byte they denote |
| ColorText.DecRoundTrip | src/app/page.tsx:303 | a decimal number reads back as itself and contains no comma or space |
| ColorText.FormatRgb | src/app/page.tsx:302-303 | the rgb arm, `rgb(r, g, b)` in decimal; its inverse is `RgbRoundTrip` |
| ColorText.RgbRoundTrip | src/app/page.tsx:302-303 | the rgb form `rgb(r, g, b)` reads back as the colour |
| ColorText.ParseRgbFields | src/app/page.tsx:303 | the three comma-free fields of an rgb form are read in order |
| ColorText.ThreeFields | src/components/PixelArtConverter.ts:58 | splitting three comma-free fields joined by commas gives the three fields |
| ColorText.Split | src/components/PixelArtConverter.ts:58 | `split` with a one-character separator: at least one field, cut at each separator; `SplitField` and `ThreeFields` state what it returns |
| ColorText.SplitField | src/components/PixelArtConverter.ts:58 | `split` cuts at the first separator |
| ColorText.ColorKey | src/components/PixelArtConverter.ts:53 | the set key `${r},${g},${b}` in decimal |
| ColorText.ParseKey | src/components/PixelArtConverter.ts:58 | `split(',').map(Number)` back to a colour, or nothing when there are not three fields |
| ColorText.KeyRoundTrip | src/components/PixelArtConverter.ts:53-59 | the key `${r},${g},${b}` split on commas and read as numbers gives the colour back |
| ColorText.ColorKeyInjective | src/components/PixelArtConverter.ts:44-59 | two colours have the same key exactly when they are equal, so deduplicating keys deduplicates colours |
| ColorText.FormatColor | src/app/page.tsx:296-310 | `formatColor`: the hex, rgb or hsl arm by the format, the hex arm for any other format; its properties are `FormatColorRoundTrips` |
| ColorText.FormatHsl | src/app/page.tsx:304-306 | the hsl arm: `rgbToHsl`, then the three values rounded and written in decimal; its properties are the `FormatHsl…` lemmas |
| ColorText.FormatColorRoundTrips | src/app/page.tsx:296-310 | the hex and rgb arms write text that reads back as the colour, and any other format than hex, rgb and hsl gives the hex form |
| ColorText.FormatHslNumbers | src/app/page.tsx:304-306 | the rounded hue is in 0..360, saturation and lightness in 0..100, so no minus sign is written |
| ColorText.FormatHslGrey | src/app/page.tsx:304-306 | a grey is written `hsl(0, 0%, L%)`, with L its lightness 100 · v / 255 rounded |
| ColorText.FormatHslRed | src/app/page.tsx:304-306 | pure red is written `hsl(0, 100%, 50%)` |
| Grid.CellIndex | src/app/page.tsx:133 | the byte where the red of cell `(x, y)` sits, `(y * size + x) * 4`; its properties are the `CellIndex…` lemmas |
| Grid.CellIndexBounds | src/app/page.tsx:131-136 | for a cell on the grid the index is a multiple of 4, and its red, green, blue and alpha reads lie inside a `size` by `size` buffer |
| Grid.CellIndexInverse | src/app/page.tsx:133 | the pixel number of a cell gives the column back as remainder and the row as quotient by `size` |
| Grid.CellIndexInjective | src/app/page.tsx:133 | two cells on the grid share an index exactly when they are the same cell |
| Grid.CellIndexCovers | src/app/page.tsx:260-262 | every pixel of the buffer is the start of a cell on the grid |
| Grid.CellColor | src/app/page.tsx:131-138 | a click inside the grid reads the colour of pixel `y * size + x`, for any buffer of at least `size * size` pixels; a click outside reads nothing |
| Grid.PaintedColors | src/components/PixelArtConverter.ts:89-99 | the nested row and column loops of `drawToCanvas` (and of the download, page.tsx lines 258-270) read the colours of the first `size * size` pixels, each exactly once, in buffer order |
| Grid.PictureCell | src/app/page.tsx:127-136 | the click lookup indexed at the size the buffer was converted at: a colour exactly for cells on that grid |
| Grid.PictureShowsEachPixel | src/app/page.tsx:127-136 | indexed at its own size, cell `(x, y)` shows the pixel of the converted image whose column is `x` and whose row is `y` |
| Grid.StaleSizeCell | src/app/page.tsx:127-136 | converted at 16 and shown at 8, cell `(0, 1)` shows what the converted image has at `(8, 0)`, not its own `(0, 1)` whenever those pixels differ |
| Grid.StaleSizeExample | src/app/page.tsx:127-136 | a 16 by 16 buffer with one red pixel at `(8, 0)`, shown at 8: the click at `(0, 1)` reports red where the converted image is black |
| Conversion.ProcessPixelConversion | src/components/PixelArtConverter.ts:15-25 | returns the quantised buffer and the palette extracted from that quantised buffer |
| Conversion.PaletteOnLevels | src/components/PixelArtConverter.ts:17-20 | every colour of the returned palette has its channels on the eight levels |
| Conversion.PaletteAtMost512 | src/components/PixelArtConverter.ts:17-20 | the returned palette has at most 8 · 8 · 8 = 512 colours, however large the image |
| Conversion.ConversionIdempotent | src/components/PixelArtConverter.ts:15-20 | converting the quantised buffer again gives the same buffer and the same palette |

## Left out

- Step 1 of `processPixelConversion`: it creates the canvas, draws and reads back the image, and throws when no 2D context is available. This is browser I/O. The RGBA buffer it produces is the input of `Conversion.ProcessPixelConversion`.
- `drawToCanvas` and `drawGrid`: they only render through `fillRect` and `stroke`, and have no result to check. Only the order in which cells are read is modelled (`Grid.PaintedColors`).
- The React component's state, effects, event listeners, highlighting, scrolling, file reading and PNG download: these are UI and I/O.
- The click coordinate scaling with `getBoundingClientRect`: this is DOM geometry in floating point. The model starts from the cell coordinates it produces.
- Hsl.RgbToHsl: computed over exact reals, not IEEE-754 doubles. No claim is made about floating-point results.
- ColorText.FormatHsl: `Math.round` is applied to the exact real values. A floating-point value that lands just below a `.5` boundary could round differently in the browser.
- ColorText.ParseKey: models `split(',').map(Number)` only on the keys the extractor builds. `Number` on other text (empty fields, signs, exponents, spaces) is not modelled.
- ColorText.ParseHex: accepts lowercase digits only, which is what the hex arm writes. It is not a general CSS colour parser.
- Grid.CellColor: requires a buffer of at least `size * size * 4` bytes. After a conversion the size can be changed to a larger one, and the handler then reads past the end of the buffer (`undefined` in JavaScript); those reads are not modelled.
- Grid.PaintedColors: requires a buffer of at least `size * size * 4` bytes. Drawing or downloading a shorter buffer, after a larger size was chosen, reads `undefined` and writes `rgb(undefined, undefined, undefined)`; this is not modelled.
- Pixels.Brightness: compares the integer numerators instead of the doubles `(299r + 587g + 114b) / 1000`. The numerators are integers up to 255000, and two different ones divided by 1000 never give the same double, so the sign of `brightnessB - brightnessA` is the same; floating point itself is not modelled.
- Palette.ExtractColorsFromPixelData: the set of string keys is modelled as a list of colours. `ColorText.ColorKeyInjective` shows the two agree. JavaScript's sort algorithm is modelled as an insertion sort; any stable sort with this comparator gives the same result.

## Findings

| source | as written | input that shows it | evidently intended | confidence | as-written member | corrected member |
|---|---|---|---|---|---|---|
| src/app/page.tsx:93-99 | choosing another size after a conversion keeps the converted buffer, and the drawing, the click handler (lines 127-136) and the download (lines 258-270) index it with the new size | convert at 16, then choose 8 and click column 0 of row 1: pixel 8 is read, which the converted image has at column 8 of row 0 | the buffer is indexed at the size it was converted at (or converted again), so each cell shows its own pixel | not executed | Grid.StaleSizeCell | Grid.PictureShowsEachPixel |
