# ImageTool pixel editing, modelled in Dafny

`ImageTool` is a small Java class that decodes an input image lazily into an
in-memory ARGB `BufferedImage` (`outputImage`). It edits that buffer with three
pixel loops and writes it out with `save`:

- **removeColor**: colour keying. A pixel whose red, green and blue all differ
  from a target colour by strictly less than `THRESHOLD = 35` becomes the word
  `0`, transparent black. The loop works on a fresh `TYPE_INT_ARGB` copy,
  which then replaces `outputImage`.
- **changeColor**: exact colour substitution. Every word whose low 24 bits
  equal the packed old colour is XORed with `oldRGB ^ newRGB`. The edit is done
  on the `int[]` that `getRGB` returns, which is then written back with `setRGB`.
- **overlay**: a flat tint. It visits every pixel column by column,
  overwrites bands 0..2 (R, G, B) of the raster and keeps band 3 (alpha).

The project has three modules:

- `Pixels` (`pixels.dfy`): a pixel is a `bv32` word, exactly the Java `int`
  the source manipulates. It holds the per-pixel rules and their reference
  meanings: a Chebyshev-distance test for keying, and "set RGB, keep alpha"
  for substitution and tinting.
- `Buffers` (`buffers.dfy`): each rule lifted to a whole buffer by one
  recursive map, `ApplyAll`, with its properties proved by induction. It also
  has the row-major layout `y * width + x` of a `TYPE_INT_ARGB` image, and the
  progress predicates of the row-major and column-major walks.
- `ImageTools` (`image_tool.dfy`):
  - a `Raster` class, the image's `int` array with `getRGB`/`setRGB`/`getPixel`/`setPixel`;
  - an `ImageTool` class whose `outputImage` field is lazily filled and
    reassigned exactly as in the source;
  - the three loops as methods with loop invariants, each proved to compute
    `ApplyAll` of its rule on the buffer it started from.

## Model

| member | source | states |
|---|---|---|
| Pixels.ColorOf | ImageTool.java:48-49 | `new Color(pixel)` and its getters: the three channels of the low 24 bits; PackColorOf and SameColorIffSameRgb give its meaning (the colour is exactly `pixel & 0x00ffffff`) |
| Pixels.Distance | ImageTool.java:51 | `Math.abs(a - b)` of two channel values, as an integer; RemovePixelIsChebyshevKey relates it to the Chebyshev distance |
| Pixels.CloseTo | ImageTool.java:51-53 | the three-way test `dr < THRESHOLD && dg < THRESHOLD && db < THRESHOLD`; RemovePixelIsChebyshevKey shows it is "Chebyshev distance below 35", CloseToIgnoresAlpha that alpha plays no part, ThresholdIsExclusive that the bound is strict |
| Pixels.RemovePixel | ImageTool.java:53-54 | the loop body of removeColor on one word; RemovePixelIsChebyshevKey states it is 0 exactly inside the threshold and the word unchanged outside, RemovePixelIdempotent that it is idempotent |
| Pixels.ChangePixel | ImageTool.java:72-81 | the loop body of changeColor on one word, with oldRGB and toggleRGB computed from the two colours; ChangePixelSetsRgb states it is "set RGB to the new colour, keep alpha" on words of exactly the old colour and the identity elsewhere |
| Pixels.ToggleIfMatching | ImageTool.java:80-81 | `if ((rgb[i] & RGB_MASK) == oldRGB) rgb[i] ^= toggleRGB` on bare words; XorToggle and ChangePixelSetsRgb give its meaning |
| Pixels.OverlayPixel | ImageTool.java:101-105 | the loop body of overlay on one word: read the bands, overwrite bands 0..2, write them back; OverlayPixelSetsRgb states it is "set RGB to the tint, keep alpha", OverlayPixelIdempotent that it is idempotent |
| Pixels.FromBands | ImageTool.java:105 | `setPixel` on a TYPE_INT_ARGB raster packs bands R, G, B, A into one word; BandsRoundTrip and FromBandsRoundTrip show it is the inverse of Bands |
| Pixels.Pack | ImageTool.java:72-73 | `r << 16 \| g << 8 \| b` has no alpha bits and its colour is the colour packed |
| Pixels.PackColorOf | ImageTool.java:48 | `new Color(pixel)` keeps exactly the low 24 bits: packing the colour of a word gives `word & 0x00ffffff` |
| Pixels.SameColorIffSameRgb | ImageTool.java:48-80 | two words have the same `Color` if and only if their low 24 bits agree, which makes the masked compare of changeColor a colour compare |
| Pixels.WithRgb | ImageTool.java:79-82 | the reference meaning of "set RGB, keep alpha": the result has the alpha of the word and the given colour |
| Pixels.RemovePixelIsChebyshevKey | ImageTool.java:49-55 | removeColor's test clears the pixel to 0 (alpha 0, colour black) exactly when the Chebyshev distance to the target is below THRESHOLD; otherwise the pixel is unchanged |
| Pixels.CloseToIgnoresAlpha | ImageTool.java:47-53 | the keying test reads only the low 24 bits: two words with the same RGB are keyed alike, whatever their alpha |
| Pixels.ThresholdIsExclusive | ImageTool.java:19 | against (100,100,100) a difference of 34 is keyed and 35 is not, on the red, green and blue channel, above and below the target, for alpha 0xff and 0x00 |
| Pixels.RemovePixelIdempotent | ImageTool.java:53-54 | keying a pixel twice with one target is keying it once |
| Pixels.Toggle | ImageTool.java:73 | `toggleRGB` has a zero top byte |
| Pixels.XorToggle | ImageTool.java:80-81 | for alpha-free o and n, toggling a word whose low 24 bits are o by `o ^ n` yields the word's alpha byte with n below it |
| Pixels.ChangePixelSetsRgb | ImageTool.java:70-82 | the XOR step is "set RGB to the new colour, keep alpha" on pixels whose colour is exactly the old one, and the identity on every other pixel |
| Pixels.ChangePixelMatching | ImageTool.java:80-81 | a word whose low 24 bits equal the packed old colour gets the new colour and keeps its alpha |
| Pixels.ChangePixelSameColor | ImageTool.java:73-81 | when old and new colour are equal the toggle is 0 and no pixel changes |
| Pixels.ChangePixelRoundTrip | ImageTool.java:72-81 | substituting A by B and then B by A restores every pixel whose colour was not B |
| Pixels.Bands | ImageTool.java:101 | `getPixel` on a TYPE_INT_ARGB raster yields four bands |
| Pixels.BandsRoundTrip | ImageTool.java:101-105 | writing back the bands just read leaves the word unchanged |
| Pixels.FromBandsRoundTrip | ImageTool.java:101-105 | reading back the bands just written gives those bands |
| Pixels.OverlayPixelSetsRgb | ImageTool.java:101-105 | the overlay step is "set RGB to the tint, keep alpha": its bands read back as tint red, green, blue and the old alpha |
| Pixels.OverlayPixelIdempotent | ImageTool.java:101-105 | tinting a pixel twice with one colour is tinting it once |
| Buffers.ApplyAll | ImageTool.java:46-57 | a rule applied across a buffer keeps the buffer's length |
| Buffers.RemoveColorKeysExactly | ImageTool.java:46-57 | removeColor on a buffer: each word is 0 exactly when its colour is within Chebyshev distance THRESHOLD of the target, and unchanged otherwise; the length is kept |
| Buffers.ChangeColorFromToggles | ImageTool.java:72-84 | a buffer that agrees word by word with changeColor's masked XOR step, with oldRGB and toggleRGB computed from the two colours, is the changeColor rule applied to the buffer |
| Buffers.ChangeColorSubstitutes | ImageTool.java:78-84 | changeColor on a buffer: words of colour `from` get colour `to` and keep their alpha, all other words are unchanged; the length is kept |
| Buffers.ChangeColorSameIsIdentity | ImageTool.java:73-84 | changeColor(c, c) leaves every buffer as it was |
| Buffers.ChangeColorRoundTrip | ImageTool.java:72-84 | changeColor(A, B) then changeColor(B, A) restores a buffer in which no pixel had colour B |
| Buffers.OverlayTints | ImageTool.java:99-106 | after overlay every word has the tint's colour and its old alpha; the length is kept |
| Buffers.ApplyAllIdempotent | ImageTool.java:46-57 | removeColor and overlay applied twice with the same colour equal applying them once |
| Buffers.KeyedNext | ImageTool.java:47-55 | keying the next word of the row-major walk extends the keyed prefix by one place |
| Buffers.PrefixDoneAll | ImageTool.java:46-57 | a walk that has passed every place has produced the whole new buffer |
| Buffers.OffsetInBounds | ImageTool.java:47-54 | every (x, y) of a width-by-height image has its place `y * width + x` inside the buffer |
| Buffers.OffsetNextRow | ImageTool.java:46-47 | the end of row y is the start of row y + 1, within the buffer |
| Buffers.OffsetCoordinates | ImageTool.java:99-105 | the place of (x, y) gives back x and y, so the layout is one-to-one |
| Buffers.TintedUpToNext | ImageTool.java:99-105 | tinting pixel (x, y) advances the column-major walk of overlay by one pixel |
| Buffers.TintedColumnDone | ImageTool.java:99-100 | a finished column moves the walk to the top of the next column |
| Buffers.TintedAll | ImageTool.java:99-107 | when every column is done the whole buffer is tinted |
| ImageTools.Transform | ImageTool.java:38-44 | editing the pixels keeps the width and the height of the image |
| ImageTools.Raster.FromPicture | ImageTool.java:36 | the decoded image becomes an ARGB buffer holding exactly the decoded pixels |
| ImageTools.Raster.CopyOf | ImageTool.java:40-44 | the fresh TYPE_INT_ARGB image of the same size holds the same pixels as the image drawn onto it |
| ImageTools.Raster.GetRGB | ImageTool.java:48 | `getRGB(x, y)` returns the word at place `y * width + x` |
| ImageTools.Raster.SetRGB | ImageTool.java:54 | `setRGB(x, y, p)` writes p at the place of (x, y) and nowhere else |
| ImageTools.Raster.GetRGBs | ImageTool.java:78 | `getRGB(0, 0, w, h, null, 0, w)` returns a fresh array equal to the row-major buffer |
| ImageTools.Raster.SetRGBs | ImageTool.java:84 | `setRGB(0, 0, w, h, rgb, 0, w)` makes the buffer equal to rgb |
| ImageTools.Raster.GetPixel | ImageTool.java:101 | `getPixel(x, y, null)` returns a fresh array of the four bands of the word at (x, y) |
| ImageTools.Raster.SetPixel | ImageTool.java:105 | `setPixel(x, y, bands)` writes the word packed from the bands at the place of (x, y) and nowhere else |
| ImageTools.ImageTool.constructor | ImageTool.java:25-27 | a new tool has its input, no output file and no loaded image |
| ImageTools.ImageTool.SetOutputFile | ImageTool.java:29-31 | the output file is the one given, and nothing else changes |
| ImageTools.ImageTool.GetImage | ImageTool.java:157-159 | returns the current buffer object itself, not a copy |
| ImageTools.ImageTool.Load | ImageTool.java:35-36 | the input is decoded only when no buffer is loaded; a loaded buffer is kept as it is; a failed decode leaves the field null |
| ImageTools.ImageTool.RemoveColor | ImageTool.java:33-63 | after removeColor the image is the keyed version of the loaded (or freshly decoded) image, held in a new buffer; a buffer handed out earlier keeps its old pixels; with nothing to load nothing happens |
| ImageTools.ImageTool.ChangeColor | ImageTool.java:65-89 | after changeColor the image is the substituted version of the loaded (or freshly decoded) image, edited in the same buffer; with nothing to load nothing happens |
| ImageTools.ImageTool.Overlay | ImageTool.java:91-112 | after overlay the image is the tinted version of the loaded (or freshly decoded) image, edited in the same buffer; with nothing to load nothing happens |
| ImageTools.ImageTool.Save | ImageTool.java:161-170 | save fails with NoOutputFile exactly when no output file is set; with a file but no image it fails with NoImage; otherwise it hands the file, format and current pixels to the writer |
| ImageTools.ImageTool.KeyPixels | ImageTool.java:46-57 | the nested row-major loop leaves the buffer equal to the keying rule applied to the buffer it started from |
| ImageTools.ImageTool.KeyRow | ImageTool.java:47-56 | one pass of the inner loop keys row y and extends the keyed prefix to the start of row y + 1 |
| ImageTools.ImageTool.KeyPixel | ImageTool.java:48-55 | the loop body keys the word at (x, y) and changes no other word |
| ImageTools.ImageTool.TintPixels | ImageTool.java:99-107 | the nested column-major loop leaves the buffer equal to the overlay rule applied to the buffer it started from |
| ImageTools.ImageTool.TintPixel | ImageTool.java:101-105 | the loop body replaces the word at (x, y) by its tinted version and changes no other word |
| ImageTools.ImageTool.SubstitutePixels | ImageTool.java:70-84 | copying out, toggling and writing back leaves the buffer equal to the changeColor rule applied to the buffer it started from |
| ImageTools.ImageTool.ToggleMatching | ImageTool.java:79-83 | every word of the array is XORed with toggleRGB exactly when its low 24 bits equal oldRGB |

## Error handling

The source catches the failures of its transformations and prints them
(ImageTool.java:60-61, 86-87, 109-110). It catches and prints a failed write
in `save` too (ImageTool.java:167-168). The model follows the source:

- **Failed decode.** When the input cannot be decoded (`ImageIO.read` throws
  or returns null), each transformation leaves `outputImage` null and changes
  nothing. `ImageTool.input` is then `None`.
- **Save.** `save` raises its own exception only when no output file is set
  (`SaveError.NoOutputFile`, ImageTool.java:162-163). With a file set but no
  image loaded, `ImageIO.write` rejects the null image with an
  `IllegalArgumentException`. The `IOException` handler does not catch it, so
  it reaches the caller (`SaveError.NoImage`). A failed write is printed and
  otherwise ignored.

## Left out

- Decoding and encoding (ImageTool.java:36, 166) are I/O:
  - The decoded input is a parameter of the constructor (`input: Option<Picture>`).
  - `Save` returns the write it would perform instead of performing it.
  - An `IOException` during the write is printed and swallowed by the source,
    so it has no effect on the state modelled here.
- makeRoundedCorner (ImageTool.java:114-138) is not modelled. Its result is
  made by Java2D's anti-aliased rasteriser and `AlphaComposite.SrcAtop`, whose
  floating-point coverage values are not part of this file.
- resize (ImageTool.java:140-155) is not modelled: `getScaledInstance(...,
  SCALE_SMOOTH)` is a library resampler. Its parameters come in the order
  `(img, height, width)`. It scales the image passed in, not the loaded one,
  even though it first loads `outputImage`.
- ImageTools.Raster.CopyOf: the `drawImage` of removeColor
  (ImageTool.java:40-44) is modelled as an exact copy, but it is not one. It
  draws through `image.getGraphics()` with the default SrcOver composite onto
  a canvas that starts as all zeros. So every pixel with alpha 0 comes out as
  the word 0, whatever its colour. Semi-transparent pixels have their colour
  rounded by the premultiplication. For example, 0x00FF_0000 keyed against
  (0, 0, 0) becomes 0 in the source, but the model keeps it. The model
  therefore covers removeColor exactly only for images whose pixels are all
  opaque. Colour conversion from image types other than TYPE_INT_ARGB is not
  modelled either.
- The model assumes the loaded image is TYPE_INT_ARGB: one `int` per pixel and
  four bands R, G, B, A. For 3-band or 1-band images `getPixel` returns fewer
  bands. On a 1-band image `overlay` would then fail at `pixels[1]` and print
  the exception, which is not modelled.
- A `null` colour argument is not modelled (a `Color` here always exists).
  In the source, a null colour throws a NullPointerException at
  ImageTool.java:51, 72 or 102, after the lazy load has filled `outputImage`.
  The exception is printed, so the tool is left with the image loaded and
  untransformed. In the model the transformation always runs.
- Other exceptions thrown in the middle of a transformation and printed by
  `printStackTrace` (ImageTool.java:60-61, 86-87, 109-110) are not modelled:
  with a non-null colour and a decoded TYPE_INT_ARGB image none of the calls
  in the loops throws.
- The `Color` objects are trusted to hold channels in 0..255, as
  `java.awt.Color` guarantees; a `Color` is modelled as three 8-bit channels.
- `Raster` stores the image as a flat row-major array. A `BufferedImage` also
  carries a colour model and a sample model; these are fixed to TYPE_INT_ARGB
  here.
