/** Pixel words of a TYPE_INT_ARGB image and the three per-pixel rules of
    ImageTool: colour keying (removeColor), exact colour substitution
    (changeColor) and flat tinting (overlay).

    A pixel is a 32-bit word: alpha in bits 24-31, red in 16-23, green in
    8-15 and blue in 0-7. The source only ever applies bit operations to it,
    so `bv32` models the Java `int` exactly. The masks are written as
    literals: `0x00ff_ffff` is the source's RGB_MASK (the colour bits) and
    `0xff00_0000` the alpha byte. */
module Pixels {

  type Word = bv32
  type Channel = bv8

  /** java.awt.Color as the tool uses it: three channels in 0..255. */
  datatype Color = Color(red: Channel, green: Channel, blue: Channel)

  const THRESHOLD: int := 35
  const TRANSPARENT: Word := 0

  function Alpha(p: Word): Channel { (p >> 24) as Channel }
  function Red(p: Word): Channel { ((p >> 16) & 0xff) as Channel }
  function Green(p: Word): Channel { ((p >> 8) & 0xff) as Channel }
  function Blue(p: Word): Channel { (p & 0xff) as Channel }

  /** `new Color(pixel)`: the colour of the low 24 bits; the alpha byte is dropped. */
  function ColorOf(p: Word): Color { Color(Red(p), Green(p), Blue(p)) }

  /** `r << 16 | g << 8 | b`: a colour packed into a 24-bit RGB word. */
  function Pack(c: Color): (w: Word)
    ensures w & 0xff00_0000 == 0 && w & 0x00ff_ffff == w
    ensures ColorOf(w) == c
  {
    ((c.red as Word) << 16) | ((c.green as Word) << 8) | (c.blue as Word)
  }

  /** Packing undoes `ColorOf` on the RGB part of a word. */
  lemma PackColorOf(p: Word)
    ensures Pack(ColorOf(p)) == p & 0x00ff_ffff
  {
  }

  /** Two words have the same colour exactly when their low 24 bits agree. */
  lemma SameColorIffSameRgb(p: Word, q: Word)
    ensures ColorOf(p) == ColorOf(q) <==> p & 0x00ff_ffff == q & 0x00ff_ffff
  {
    if ColorOf(p) == ColorOf(q) {
      PackColorOf(p);
      PackColorOf(q);
    } else if p & 0x00ff_ffff == q & 0x00ff_ffff {
      SameRgbSameColor(p, q);
    }
  }

  lemma SameRgbSameColor(p: Word, q: Word)
    requires p & 0x00ff_ffff == q & 0x00ff_ffff
    ensures ColorOf(p) == ColorOf(q)
  {
  }

  /** A word with the alpha of `p` and the colour `c`: the reference meaning of
      "set RGB, keep alpha". */
  function WithRgb(p: Word, c: Color): (q: Word)
    ensures Alpha(q) == Alpha(p) && ColorOf(q) == c
  {
    (p & 0xff00_0000) | Pack(c)
  }

  /** A word is determined by its alpha and its colour. */
  lemma WordFromAlphaAndColor(p: Word, q: Word)
    requires Alpha(p) == Alpha(q) && ColorOf(p) == ColorOf(q)
    ensures p == q
  {
  }

  // ---------------------------------------------------------------------
  // removeColor: colour keying with an exclusive per-channel threshold

  /** `Math.abs(a - b)` on two channel values. */
  function Distance(a: Channel, b: Channel): nat
  {
    if a as int >= b as int then a as int - b as int else b as int - a as int
  }

  /** The test of removeColor: every channel of the pixel differs from the
      target's by strictly less than THRESHOLD. */
  predicate CloseTo(p: Word, target: Color)
  {
    Distance(Red(p), target.red) < THRESHOLD &&
    Distance(Green(p), target.green) < THRESHOLD &&
    Distance(Blue(p), target.blue) < THRESHOLD
  }

  function RemovePixel(p: Word, target: Color): Word
  {
    if CloseTo(p, target) then TRANSPARENT else p
  }

  function Max(a: nat, b: nat): nat { if a < b then b else a }

  /** Chebyshev (L-infinity) distance between two colours. */
  function Chebyshev(c: Color, d: Color): nat
  {
    Max(Max(Distance(c.red, d.red), Distance(c.green, d.green)), Distance(c.blue, d.blue))
  }

  /** removeColor clears a pixel (alpha 0 and RGB 0) exactly when its colour
      lies strictly within Chebyshev distance THRESHOLD of the target, and
      leaves it untouched otherwise. */
  lemma RemovePixelIsChebyshevKey(p: Word, target: Color)
    ensures RemovePixel(p, target) ==
            if Chebyshev(ColorOf(p), target) < THRESHOLD then TRANSPARENT else p
    ensures Chebyshev(ColorOf(p), target) < THRESHOLD ==>
            Alpha(RemovePixel(p, target)) == 0 && ColorOf(RemovePixel(p, target)) == Color(0, 0, 0)
  {
  }

  /** The alpha byte plays no part in the test. */
  lemma CloseToIgnoresAlpha(p: Word, q: Word, target: Color)
    requires p & 0x00ff_ffff == q & 0x00ff_ffff
    ensures CloseTo(p, target) <==> CloseTo(q, target)
  {
    SameColorIffSameRgb(p, q);
  }

  /** The threshold is exclusive: against the target (100, 100, 100) a channel
      difference of 34 is keyed and one of 35 is not, on each of the three
      channels, in both directions, whatever the alpha byte. */
  lemma ThresholdIsExclusive()
    ensures var target := Color(100, 100, 100);
            RemovePixel(0xff86_6464, target) == TRANSPARENT &&
            RemovePixel(0x0042_6464, target) == TRANSPARENT &&
            RemovePixel(0xff87_6464, target) == 0xff87_6464 &&
            RemovePixel(0x0041_6464, target) == 0x0041_6464 &&
            RemovePixel(0xff64_8664, target) == TRANSPARENT &&
            RemovePixel(0xff64_8764, target) == 0xff64_8764 &&
            RemovePixel(0x0064_6442, target) == TRANSPARENT &&
            RemovePixel(0x0064_6441, target) == 0x0064_6441
  {
  }

  /** Keying twice with the same target is keying once: a cleared pixel is 0,
      which is either keyed again to 0 or left alone. */
  lemma RemovePixelIdempotent(p: Word, target: Color)
    ensures RemovePixel(RemovePixel(p, target), target) == RemovePixel(p, target)
  {
  }

  // ---------------------------------------------------------------------
  // changeColor: exact RGB substitution by an XOR toggle mask

  /** `toggleRGB = oldRGB ^ newRGB`. */
  function Toggle(from: Color, to: Color): (t: Word)
    ensures t & 0xff00_0000 == 0
  {
    Pack(from) ^ Pack(to)
  }

  /** The loop body of changeColor: toggle the word when its low 24 bits are
      exactly `oldRGB`. */
  function ChangePixel(p: Word, from: Color, to: Color): Word
  {
    ToggleIfMatching(p, Pack(from), Toggle(from, to))
  }

  /** The same step on bare words: `if ((p & 0x00ff_ffff) == oldRGB) p ^= toggleRGB`. */
  function ToggleIfMatching(p: Word, oldRGB: Word, toggleRGB: Word): Word
  {
    if p & 0x00ff_ffff == oldRGB then p ^ toggleRGB else p
  }

  /** On bare words: toggling a word whose low 24 bits are `o` by `o ^ n`
      (both free of alpha bits) gives the word's alpha with `n` below it. */
  lemma XorToggle(p: Word, o: Word, n: Word)
    requires o & 0xff00_0000 == 0 && n & 0xff00_0000 == 0
    requires p & 0x00ff_ffff == o
    ensures p ^ (o ^ n) == (p & 0xff00_0000) | n
  {
  }

  /** The XOR trick is "set RGB to the new colour, keep alpha" on the pixels
      whose colour is exactly the old one, and the identity elsewhere. */
  lemma ChangePixelSetsRgb(p: Word, from: Color, to: Color)
    ensures ChangePixel(p, from, to) == if ColorOf(p) == from then WithRgb(p, to) else p
  {
    SameColorIffSameRgb(p, Pack(from));
    if ColorOf(p) == from {
      ChangePixelMatching(p, from, to);
    }
  }

  lemma ChangePixelMatching(p: Word, from: Color, to: Color)
    requires p & 0x00ff_ffff == Pack(from)
    ensures ChangePixel(p, from, to) == WithRgb(p, to)
  {
    XorToggle(p, Pack(from), Pack(to));
  }

  /** Substituting a colour by itself changes nothing: the toggle is 0. */
  lemma ChangePixelSameColor(p: Word, c: Color)
    ensures Toggle(c, c) == 0 && ChangePixel(p, c, c) == p
  {
  }

  /** Substituting A by B and then B by A restores every pixel that was not
      already of colour B. */
  lemma ChangePixelRoundTrip(p: Word, a: Color, b: Color)
    requires ColorOf(p) != b
    ensures ChangePixel(ChangePixel(p, a, b), b, a) == p
  {
    ChangePixelSetsRgb(p, a, b);
    ChangePixelSetsRgb(ChangePixel(p, a, b), b, a);
    if ColorOf(p) == a {
      WordFromAlphaAndColor(WithRgb(WithRgb(p, b), a), p);
    }
  }

  // ---------------------------------------------------------------------
  // overlay: the raster's bands 0..2 (R, G, B) overwritten, band 3 (A) kept

  /** `raster.getPixel(x, y, null)` on a TYPE_INT_ARGB raster: the bands R, G, B, A. */
  function Bands(p: Word): (b: seq<Channel>)
    ensures |b| == 4
  {
    [Red(p), Green(p), Blue(p), Alpha(p)]
  }

  /** `raster.setPixel(x, y, bands)`: the four bands packed back into a word. */
  function FromBands(b: seq<Channel>): Word
    requires |b| == 4
  {
    ((b[3] as Word) << 24) | ((b[0] as Word) << 16) | ((b[1] as Word) << 8) | (b[2] as Word)
  }

  lemma BandsRoundTrip(p: Word)
    ensures FromBands(Bands(p)) == p
  {
  }

  lemma FromBandsRoundTrip(b: seq<Channel>)
    requires |b| == 4
    ensures Bands(FromBands(b)) == b
  {
  }

  /** The loop body of overlay: read the bands, overwrite bands 0..2 with the
      tint, write the bands back. */
  function OverlayPixel(p: Word, tint: Color): Word
  {
    FromBands(Bands(p)[0 := tint.red][1 := tint.green][2 := tint.blue])
  }

  /** Overlay sets bands 0..2 to the tint and keeps band 3 (alpha). */
  lemma OverlayPixelSetsRgb(p: Word, tint: Color)
    ensures OverlayPixel(p, tint) == WithRgb(p, tint)
    ensures Bands(OverlayPixel(p, tint)) == [tint.red, tint.green, tint.blue, Alpha(p)]
  {
    WordFromAlphaAndColor(OverlayPixel(p, tint), WithRgb(p, tint));
  }

  lemma OverlayPixelIdempotent(p: Word, tint: Color)
    ensures OverlayPixel(OverlayPixel(p, tint), tint) == OverlayPixel(p, tint)
  {
    OverlayPixelSetsRgb(p, tint);
    OverlayPixelSetsRgb(OverlayPixel(p, tint), tint);
    WordFromAlphaAndColor(WithRgb(WithRgb(p, tint), tint), WithRgb(p, tint));
  }

  // ---------------------------------------------------------------------
  // The three rules as one datatype, so that the buffer-level map is defined once

  datatype PixelOp =
    | RemoveColor(target: Color)
    | ChangeColor(from: Color, to: Color)
    | Overlay(tint: Color)

  function Apply(op: PixelOp, p: Word): Word
  {
    match op
    case RemoveColor(target) => RemovePixel(p, target)
    case ChangeColor(from, to) => ChangePixel(p, from, to)
    case Overlay(tint) => OverlayPixel(p, tint)
  }
}
