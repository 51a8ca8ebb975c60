# Spectacle generator — a Dafny model

The Spectacle Generator draws a stylised pair of spectacles into a 256 × 512
RGBA image. Two styles exist: rectangle and round. Each style has a bridge,
two lenses, two frames and two temple arms. The drawing works like this:

- Four `uint8` channels (red, green, blue, alpha) start at zero.
- Every part is a region of pixels. Each channel writes the regions in a fixed
  order: frames, then lenses, then the bridge, then the temples. The last
  write wins.
- Lenses get the lens colour and alpha 50. Frames, bridge and temples get the
  frame colour and alpha 255.
- The four channels are stacked into one 256 × 512 × 4 image.

Colours arrive as hex strings like `#RRGGBB`. `hex_to_rgb` turns each one into
three integers.

The model is split into these modules:

- `HexColor` (`hex_color.dfy`): `hex_to_rgb`. It strips every leading `#`,
  cuts the slices `[0:2]`, `[2:4]` and `[4:6]`, and reads each one the way
  Python's `int(s, 16)` does. Surrounding whitespace and a sign are accepted.
  An empty or non-hex slice raises, which is `None` here. Beside it are the
  round trips with the lower-case formatter `FormatRgb`.
- `Geometry` (`geometry.dfy`): points, inclusive boxes and the
  `skimage.draw.rectangle` contract. `RectRegion` is the bounding box of two
  corners given in any order. `PyInt` is Python's `int()` on a number: it
  truncates toward zero.
- `Layout` (`layout.dfy`): the corner coordinates of every part. Measures are
  integer pixel counts, i.e. the values after `int(x * 36)`. Every expression
  is evaluated exactly over the reals (`t / 1.5`, `t * 2.1`) and then truncated.
  For the round style it also gives the arguments of the four circle calls.
- `Raster` (`raster.dfy`): the imperative part. Channels are `array2<Byte>`.
  - `Paint` loops over a region and writes one value.
  - `PaintLayers` runs one channel's writes in order.
  - `Stack` copies the four channels into a fresh `array3<Byte>`.
  - Each method is proved against the function `Painted`: the last layer that
    covers a pixel decides its value.
- `Spectacle` (`spectacle.dfy`): both generators. `Parts` holds the seven
  regions of either style, and `Layers` lists one channel's writes in source
  order. The layering lemmas are proved once over `Parts`. They hold for the
  rectangle style (`RectParts`) and for the round style (`RoundParts`).

Where the expected behaviour and the code part ways, the model follows the code:

- Nothing is clipped. Regions must lie on the canvas; see below.
- The rectangle temples are placed from column `256 ∓ width` and ignore
  `bridge_w / 2`. So with a wide bridge and thin temple holders, a temple can
  overlap its lens, and the temple's opaque frame colour wins there. Once
  `bridge_w ≥ 8 · temple_holder_w` (and `bridge_w ≤ 2 · width + 4.2 ·
  temple_holder_w`, `temple_holder_h ≤ height`), a temple lies wholly inside
  its lens (`RectTempleInsideLens`). For example, height = width = bridge_w = 100
  and bridge_h = temple_holder_h = temple_holder_w = 10 put pixel (128, 120)
  in both the left temple and the left lens.
- `hex_to_rgb` accepts a sign inside a slice, so `"#-f0000"` gives red −15.
  The two styles store that value differently. The rectangle style can run
  under NumPy 2, which raises `OverflowError` when −15 is stored into a `uint8`
  array, so `GenerateRectangle` returns `None`. The round style calls
  `skimage.draw.circle`. That function exists only in scikit-image releases
  that run on NumPy 1.x, and there the store wraps modulo 256. So
  `GenerateRound` draws the components wrapped (`WrapRgb`: −15 becomes 241).
- The round style's circles come from `skimage.draw.circle`, which returns a
  filled disc, not a one-pixel ring. The model takes the rasterizer as a
  function parameter `disc` from a `Circle` (centre and radius) to its pixels.
  `RoundParts` applies it to the lens and frame circles that `Layout` computes,
  so which circle feeds which part is fixed. Which pixels a disc contains is
  not modelled.

## Model

| member | source | states |
|---|---|---|
| `HexColor.LStripHash` | SpectacleGenerator.py:68 | the result is a suffix of the input, everything removed was `#`, and the result does not start with `#` |
| `HexColor.Strip` | SpectacleGenerator.py:69 | `int()` strips surrounding whitespace: the result is no longer than the input and neither begins nor ends with whitespace |
| `HexColor.StripExact` | SpectacleGenerator.py:69 | the stripped text is an infix `s[a..b]` of the input with only whitespace before `a` and after `b`, so nothing inside the text is removed |
| `HexColor.Slice` | SpectacleGenerator.py:69 | Python slicing `s[i:j]`: the plain subsequence when `j` is within bounds, the suffix `s[i:]` when the end is clamped, empty when `i` is past the end, never longer than `j - i` |
| `HexColor.ParseInt16` | SpectacleGenerator.py:69 | a string of hex digits parses to its base-16 value; any success needs at least one hex digit; a slice of at most two characters parses to a value in [-15, 255] |
| `HexColor.ParseSigned` | SpectacleGenerator.py:69 | on stripped text, `int(t, 16)` succeeds exactly for an optional sign followed by hex digits; a bare numeral gives its value; a text of at most two characters gives a value in [-15, 255] |
| `HexColor.ParseInt16Fails` | SpectacleGenerator.py:69 | `int(s, 16)` raises exactly when the whitespace-stripped text is not an optional sign followed by one or more hex digits (so `"g1"` raises) |
| `HexColor.ParseInt16Signed` | SpectacleGenerator.py:69 | `"-"` before a numeral gives the negated value and `"+"` the value itself |
| `HexColor.ParseInt16IgnoresSpace` | SpectacleGenerator.py:69 | a whitespace character before or after the text never changes the result |
| `HexColor.HexToRgb` | SpectacleGenerator.py:63-69 | a success needs at least five characters after the `#`s, and each component lies in [-15, 255] |
| `HexColor.HexToRgbDigits` | SpectacleGenerator.py:68-69 | for `#` plus six hex digits the result is three bytes, component i being 16·digit(2i) + digit(2i+1) |
| `HexColor.FormatParsedColor` | SpectacleGenerator.py:68-69 | formatting the parsed components as two hex digits each gives back the six input digits, ignoring case |
| `HexColor.ParseFormattedColor` | SpectacleGenerator.py:68-69 | parsing `#` plus a formatted byte triple gives back that triple |
| `HexColor.HexToRgbIgnoresHashes` | SpectacleGenerator.py:68 | an extra leading `#` never changes the result |
| `HexColor.HexToRgbTooShort` | SpectacleGenerator.py:69 | fewer than five characters after the `#`s is an error, because the last slice is empty |
| `HexColor.NegativeComponent` | SpectacleGenerator.py:68-69 | `"#-f0000"` parses, with red −15 |
| `Geometry.RectRegion` | SpectacleGenerator.py:110 | a pixel is in the region exactly when its row and column both lie between the two corners', in either order; the box is normalised |
| `Geometry.RectRegionHoldsCorners` | SpectacleGenerator.py:110 | both corners belong to the region, so no part is ever empty |
| `Geometry.PyInt` | SpectacleGenerator.py:106-107 | `int()` truncates toward zero: floor for non-negative numbers, ceiling for negative ones |
| `Geometry.PyIntMonotone` | SpectacleGenerator.py:128-139 | truncation toward zero preserves order |
| `Layout.RectCorners` | SpectacleGenerator.py:106-154 | with non-negative measures every rectangle part straddles row 128, its two end rows summing to 255 or 256 |
| `Layout.RectLensInsideFrame` | SpectacleGenerator.py:113-139 | with non-negative height, width and temple_holder_w, every pixel of each lens is a pixel of its frame |
| `Layout.OutwardColumns` | SpectacleGenerator.py:128-139 | a frame whose column ends are the lens's moved outward by a non-negative amount encloses the lens's columns |
| `Layout.RectLensesDisjoint` | SpectacleGenerator.py:113-124 | with bridge_w ≥ 1 and width ≥ 0, left-lens columns are ≤ int(256 − bridge_w/2) < int(256 + bridge_w/2) ≤ right-lens columns, so no pixel is in both lenses |
| `Layout.RectLensesSameSize` | SpectacleGenerator.py:113-119 | both lenses span width + 1 columns and the same rows while they stay right of column 0 |
| `Layout.RectBridgeMeetsFrames` | SpectacleGenerator.py:106-136 | the inset bridge runs from the left frame's inner column to the right frame's inner column |
| `Layout.RectTempleInsideLens` | SpectacleGenerator.py:113-154 | with 8·temple_holder_w ≤ bridge_w ≤ 2·width + 4.2·temple_holder_w and temple_holder_h ≤ height, every temple pixel is a pixel of its lens |
| `Layout.RoundLensCircle` | SpectacleGenerator.py:255-256 | each lens circle lies on row 128 with the given radius, and its inner extreme is exactly column 256 ∓ bridge_w / 2 |
| `Layout.RoundFrameCircle` | SpectacleGenerator.py:260-263 | each frame circle is concentric with its lens circle, its radius larger by temple_holder_w / 1.5 |
| `Layout.RoundBridge` | SpectacleGenerator.py:248-249 | with non-negative measures the bridge straddles (128, 256), its end rows summing to 255 or 256 and its end columns to 511 or 512 |
| `Layout.RoundTemple` | SpectacleGenerator.py:266-278 | with non-negative measures each temple straddles row 128, and its start corner is its outer end |
| `Layout.RoundLensesMeetBridge` | SpectacleGenerator.py:248-256 | the round bridge's end columns are int() of the lens circles' inner extremes |
| `Layout.RoundTemplesBeyondLenses` | SpectacleGenerator.py:255-278 | with temple_holder_w ≥ 2, each round temple on the canvas lies strictly outside the horizontal extent of its lens circle |
| `Raster.Painted` | SpectacleGenerator.py:162-200 | last write wins; the final value is the original value or the value of a write covering the pixel, so nothing is blended |
| `Raster.PaintedUncovered` | SpectacleGenerator.py:162-200 | a pixel no write covers keeps its original value |
| `Raster.PaintedTopmost` | SpectacleGenerator.py:162-200 | a pixel ends with the value of the last write that covers it |
| `Raster.NewChannel` | SpectacleGenerator.py:88-91 | a fresh 256 × 512 channel holding zero everywhere |
| `Raster.Paint` | SpectacleGenerator.py:162 | the region's pixels get the value and every other pixel is unchanged |
| `Raster.PaintBox` | SpectacleGenerator.py:162 | the same for a rectangle region, by a row loop and a column loop |
| `Raster.PaintPoints` | SpectacleGenerator.py:285 | the same for a rasterizer's coordinate list, repeats allowed |
| `Raster.PaintLayers` | SpectacleGenerator.py:162-170 | after a channel's writes run in order, each pixel holds `Painted` of the writes over its old value |
| `Raster.CopyChannel` | SpectacleGenerator.py:206 | plane k of the image becomes the channel, and the other planes are unchanged |
| `Raster.Stack` | SpectacleGenerator.py:203-209 | a fresh 256 × 512 × 4 image whose element [r, c, k] is channel k (R, G, B, A) at (r, c) |
| `Spectacle.Layers` | SpectacleGenerator.py:162-200 | seven writes per channel in source order: the two frames, then the left lens, the right lens, the bridge, the left temple, the right temple |
| `Spectacle.WrapRgb` | SpectacleGenerator.py:285-325 | storing into `uint8` under NumPy 1.x: every component becomes a byte congruent to it modulo 256, and bytes are unchanged |
| `Spectacle.NegativeComponentWraps` | SpectacleGenerator.py:285-325 | `"#-f0000"` parses, its red −15 is no byte, and wrapping makes it 241 |
| `Spectacle.BackgroundStaysClear` | SpectacleGenerator.py:88-200 | a pixel in no frame, lens, bridge or temple is 0 in all four channels |
| `Spectacle.LensShowsThrough` | SpectacleGenerator.py:162-196 | a lens pixel not on the bridge or a temple has the lens colour and alpha 50, even inside a frame |
| `Spectacle.BridgeAndTemplesOnTop` | SpectacleGenerator.py:162-200 | a bridge or temple pixel has the frame colour and alpha 255, over any lens or frame |
| `Spectacle.FrameBorderShows` | SpectacleGenerator.py:162-200 | a frame pixel outside lenses, bridge and temples has the frame colour and alpha 255 |
| `Spectacle.PaletteOnly` | SpectacleGenerator.py:162-200 | every channel value is 0, the lens colour with alpha 50, or the frame colour with alpha 255 |
| `Spectacle.FrameOrderIrrelevant` | SpectacleGenerator.py:285-325 | painting the left or the right frame first gives the same pixel, so the round style's mixed frame order is harmless |
| `Spectacle.PartsLayersInCanvas` | SpectacleGenerator.py:162-200 | when every part lies on the canvas, so does every write of every channel |
| `Spectacle.Tint` | SpectacleGenerator.py:162-200 | channel 0, 1 and 2 take the colour's red, green and blue component, and channel 3 takes the alpha value (255 for frame parts, 50 for lenses) |
| `Spectacle.RectParts` | SpectacleGenerator.py:106-159 | the seven rectangles of the rectangle style: all on the canvas when the layout fits; each lens inside its frame for non-negative height, width and temple_holder_w; the two lenses disjoint when bridge_w ≥ 1 and width ≥ 0 |
| `Spectacle.RoundParts` | SpectacleGenerator.py:248-282 | the lenses are the rasterizer's discs for the lens circles and the frames its discs for the frame circles, side by side; with temple_holder_w ≥ 2 and parts on the canvas, every temple pixel lies beyond its side's lens circle |
| `Spectacle.PaintAndStack` | SpectacleGenerator.py:88-209 | four zeroed channels, each painted with its writes, are stacked into a fresh image whose [r, c, k] is `Painted` of channel k's writes |
| `Spectacle.GenerateRectangle` | SpectacleGenerator.py:71-213 | `None` exactly when a colour fails to parse or to fit a byte; otherwise a fresh 256 × 512 × 4 image whose [r, c, k] is `Pixel` of the rectangle parts, right frame painted first |
| `Spectacle.GenerateRound` | SpectacleGenerator.py:215-338 | `None` exactly when a colour fails to parse; otherwise a fresh image whose [r, c, k] is `Pixel` of the round parts, with the lens and frame discs drawn by the rasterizer `disc`, and the colours wrapped into bytes; red and green paint the left frame first, blue and alpha the right frame first |

## Left out

- Reading the JSON file, saving with `Image.fromarray(...).save(...)`, and the lens-type dispatch in `__init__` (SpectacleGenerator.py:25-61) are file I/O and library calls. An unknown `lens.type` matches neither branch and silently produces no image.
- The unit conversion `int(x * 36)` and the real radius `(diameter * 36) / 2` (SpectacleGenerator.py:94-99, 237-241) are floating point. The rectangle generator starts from the integer pixel measures; the round generator starts from them and the radius as an exact real.
- Floating-point rounding is not modelled: every coordinate is computed exactly over the reals and then truncated. For the rectangle style, with measures that fit the canvas, this changes nothing. Its measures are integers, so an exact coordinate that is not whole lies at least 1/30 from the nearest whole number, far more than the float error. Where the exact value is whole, the float is exact too. The one inexact constant, 2.1, is off by a relative 4.2·10⁻¹⁷, which is less than half a unit in the last place of any product, so `2.1 * t` rounds to exactly `21 t / 10` when `t` is a multiple of 10. The round style's radius is a real, though, and there a float sum can round up to a whole number that the exact value lies just below. For example, radius `0.5 + 2⁻⁵³` with bridge_w = temple_holder_w = 0 gives an exact temple column of 254.99…, which truncates to 254, while the float sum is 255.0. So `RoundTemple` can be one column off the program's for such radii. `RoundBridge` does not use the radius and only halves integers, so it is exact. The circle arguments (centre column and radius) are passed to `skimage.draw.circle` without truncation. The float values can differ from the exact reals of `RoundLensCircle` and `RoundFrameCircle` by a rounding error, and that can change which pixels lying on a disc's boundary the rasterizer includes.
- `skimage.draw.circle` (SpectacleGenerator.py:255-263) is a foreign call. It is the function parameter `disc` of `RoundParts` and `GenerateRound`. So nothing is proved about which pixels the lens and frame discs contain, nor about a frame disc enclosing its lens.
- Spectacle.GenerateRectangle: requires every part to lie on the canvas. NumPy raises `IndexError` for a row ≥ 256 or a column ≥ 512, and wraps a negative index to the other edge; neither is modelled.
- Spectacle.GenerateRound: requires the bridge, the temples and all four discs to lie on the canvas, for the same reason.
- Spectacle.GenerateRectangle: a colour component outside [0, 255] (`"#-f0000"` parses to −15) is treated as an error, as NumPy 2 raises `OverflowError` when it is stored into a `uint8` array. Under NumPy 1.x the rectangle style would wrap such values instead, as `GenerateRound` does; that run of the rectangle style is not modelled.
- HexColor.ParseInt16: covers ASCII input only. Python's `int()` also accepts non-ASCII whitespace and non-ASCII decimal digits, and those are not modelled. Underscores and the `0x` prefix cannot form a valid numeral of at most two characters, so the slices `hex_to_rgb` takes lose nothing by their absence.
- Layout.RectLensInsideFrame: needs height ≥ 0 and width ≥ 0 as well as temple_holder_w ≥ 0. With a negative height the frame rows shrink instead (height −100, temple_holder_w 3 gives lens rows 78..178 and frame rows 80..176).
