/** Whole pixel buffers: the three rules of ImageTool applied to every word of
    an ARGB buffer, and the row-major layout that ties a pixel's (x, y)
    position to its place in the buffer. */
module Buffers {
  import opened Pixels

  /** The buffer after `op` has been applied to each of its words. */
  function ApplyAll(op: PixelOp, s: seq<Word>): (r: seq<Word>)
    ensures |r| == |s|
  {
    if s == [] then [] else [Apply(op, s[0])] + ApplyAll(op, s[1..])
  }

  lemma {:induction false} ApplyAllAt(op: PixelOp, s: seq<Word>, i: nat)
    requires i < |s|
    ensures ApplyAll(op, s)[i] == Apply(op, s[i])
  {
    if i > 0 {
      ApplyAllAt(op, s[1..], i - 1);
    }
  }

  /** `ApplyAllAt` for each rule, with the rule's own pixel function. */
  lemma RemoveColorAt(s: seq<Word>, target: Color, i: nat)
    requires i < |s|
    ensures ApplyAll(RemoveColor(target), s)[i] == RemovePixel(s[i], target)
  {
    ApplyAllAt(RemoveColor(target), s, i);
  }

  lemma OverlayAt(s: seq<Word>, tint: Color, i: nat)
    requires i < |s|
    ensures ApplyAll(Overlay(tint), s)[i] == OverlayPixel(s[i], tint)
  {
    ApplyAllAt(Overlay(tint), s, i);
  }

  /** A buffer that agrees with `op` word by word is `ApplyAll(op, s)`. */
  lemma ApplyAllFromPointwise(op: PixelOp, s: seq<Word>, r: seq<Word>)
    requires |r| == |s|
    requires forall i :: 0 <= i < |s| ==> r[i] == Apply(op, s[i])
    ensures r == ApplyAll(op, s)
  {
    forall i | 0 <= i < |s|
      ensures r[i] == ApplyAll(op, s)[i]
    {
      ApplyAllAt(op, s, i);
    }
  }

  /** The changeColor loop, word by word, is the changeColor rule on the buffer. */
  lemma ChangeColorFromToggles(s: seq<Word>, r: seq<Word>, from: Color, to: Color, oldRGB: Word, toggleRGB: Word)
    requires oldRGB == Pack(from) && toggleRGB == Toggle(from, to)
    requires |r| == |s|
    requires forall i :: 0 <= i < |s| ==> r[i] == ToggleIfMatching(s[i], oldRGB, toggleRGB)
    ensures r == ApplyAll(ChangeColor(from, to), s)
  {
    ApplyAllFromPointwise(ChangeColor(from, to), s, r);
  }

  /** removeColor on a buffer: each pixel within Chebyshev distance THRESHOLD
      of the target becomes the word 0, every other pixel is unchanged, and
      the length is preserved. */
  lemma RemoveColorKeysExactly(s: seq<Word>, target: Color)
    ensures |ApplyAll(RemoveColor(target), s)| == |s|
    ensures forall i :: 0 <= i < |s| ==>
              ApplyAll(RemoveColor(target), s)[i] ==
              if Chebyshev(ColorOf(s[i]), target) < THRESHOLD then TRANSPARENT else s[i]
  {
    forall i | 0 <= i < |s|
      ensures ApplyAll(RemoveColor(target), s)[i] ==
              if Chebyshev(ColorOf(s[i]), target) < THRESHOLD then TRANSPARENT else s[i]
    {
      ApplyAllAt(RemoveColor(target), s, i);
      RemovePixelIsChebyshevKey(s[i], target);
    }
  }

  /** changeColor on a buffer: pixels whose colour is exactly `from` get the
      colour `to` and keep their alpha; all other pixels are unchanged. */
  lemma ChangeColorSubstitutes(s: seq<Word>, from: Color, to: Color)
    ensures |ApplyAll(ChangeColor(from, to), s)| == |s|
    ensures forall i :: 0 <= i < |s| ==>
              ApplyAll(ChangeColor(from, to), s)[i] ==
              if ColorOf(s[i]) == from then WithRgb(s[i], to) else s[i]
  {
    forall i | 0 <= i < |s|
      ensures ApplyAll(ChangeColor(from, to), s)[i] ==
              if ColorOf(s[i]) == from then WithRgb(s[i], to) else s[i]
    {
      ApplyAllAt(ChangeColor(from, to), s, i);
      ChangePixelSetsRgb(s[i], from, to);
    }
  }

  /** changeColor(c, c) leaves the buffer as it was. */
  lemma {:induction false} ChangeColorSameIsIdentity(s: seq<Word>, c: Color)
    ensures ApplyAll(ChangeColor(c, c), s) == s
  {
    if s != [] {
      ChangePixelSameColor(s[0], c);
      ChangeColorSameIsIdentity(s[1..], c);
    }
  }

  /** changeColor(a, b) followed by changeColor(b, a) restores a buffer in
      which no pixel had colour `b` to begin with. */
  lemma {:induction false} ChangeColorRoundTrip(s: seq<Word>, a: Color, b: Color)
    requires forall i :: 0 <= i < |s| ==> ColorOf(s[i]) != b
    ensures ApplyAll(ChangeColor(b, a), ApplyAll(ChangeColor(a, b), s)) == s
  {
    if s != [] {
      ChangePixelRoundTrip(s[0], a, b);
      ChangeColorRoundTrip(s[1..], a, b);
    }
  }

  /** overlay on a buffer: every pixel gets the tint's colour and keeps its
      alpha. */
  lemma OverlayTints(s: seq<Word>, tint: Color)
    ensures |ApplyAll(Overlay(tint), s)| == |s|
    ensures forall i :: 0 <= i < |s| ==>
              ColorOf(ApplyAll(Overlay(tint), s)[i]) == tint &&
              Alpha(ApplyAll(Overlay(tint), s)[i]) == Alpha(s[i])
  {
    forall i | 0 <= i < |s|
      ensures ColorOf(ApplyAll(Overlay(tint), s)[i]) == tint &&
              Alpha(ApplyAll(Overlay(tint), s)[i]) == Alpha(s[i])
    {
      ApplyAllAt(Overlay(tint), s, i);
      OverlayPixelSetsRgb(s[i], tint);
    }
  }

  /** removeColor and overlay are idempotent: doing either twice with the same
      colour is doing it once. */
  lemma {:induction false} ApplyAllIdempotent(op: PixelOp, s: seq<Word>)
    requires op.RemoveColor? || op.Overlay?
    ensures ApplyAll(op, ApplyAll(op, s)) == ApplyAll(op, s)
  {
    if s != [] {
      if op.RemoveColor? {
        RemovePixelIdempotent(s[0], op.target);
      } else {
        OverlayPixelIdempotent(s[0], op.tint);
      }
      ApplyAllIdempotent(op, s[1..]);
    }
  }

  /** The state of a walk through a buffer in place order: `cur` holds the
      new words `dst` before place `n` and the original words `src` from there on. */
  predicate PrefixDone(src: seq<Word>, dst: seq<Word>, cur: seq<Word>, n: nat)
  {
    |dst| == |src| && |cur| == |src| && n <= |src| &&
    forall i :: 0 <= i < |src| ==> cur[i] == if i < n then dst[i] else src[i]
  }

  /** Writing the new word at place `n` advances the walk by one place. */
  lemma PrefixDoneNext(src: seq<Word>, dst: seq<Word>, cur: seq<Word>, n: nat)
    requires PrefixDone(src, dst, cur, n) && n < |src|
    ensures cur[n] == src[n]
    ensures PrefixDone(src, dst, cur[n := dst[n]], n + 1)
  {
  }

  /** Keying the word at place `n` advances removeColor's walk by one place. */
  lemma KeyedNext(src: seq<Word>, target: Color, cur: seq<Word>, n: nat)
    requires PrefixDone(src, ApplyAll(RemoveColor(target), src), cur, n) && n < |src|
    ensures PrefixDone(src, ApplyAll(RemoveColor(target), src), cur[n := RemovePixel(cur[n], target)], n + 1)
  {
    PrefixDoneNext(src, ApplyAll(RemoveColor(target), src), cur, n);
    RemoveColorAt(src, target, n);
  }

  /** A finished walk has written every new word. */
  lemma PrefixDoneAll(src: seq<Word>, dst: seq<Word>, cur: seq<Word>)
    requires PrefixDone(src, dst, cur, |src|)
    ensures cur == dst
  {
  }

  // ---------------------------------------------------------------------
  // Row-major layout

  /** Where pixel (x, y) sits in a buffer of the given width: the layout of a
      TYPE_INT_ARGB image's data and of the array `getRGB(0, 0, w, h, null, 0, w)`
      returns. */
  function Offset(width: nat, x: nat, y: nat): nat { y * width + x }

  /** Every pixel of a width-by-height image has its place inside the buffer. */
  lemma OffsetInBounds(width: nat, height: nat, x: nat, y: nat)
    requires x < width && y < height
    ensures Offset(width, x, y) < width * height
  {
    assert y * width + width == (y + 1) * width;
    assert (y + 1) * width <= height * width by {
      MulMonotone(y + 1, height, width);
    }
  }

  /** The end of row y is the start of row y + 1, and no further than the
      end of the buffer. */
  lemma OffsetNextRow(width: nat, height: nat, y: nat)
    requires y < height
    ensures Offset(width, width, y) == Offset(width, 0, y + 1) <= width * height
  {
    MulMonotone(y + 1, height, width);
  }

  lemma {:induction false} MulMonotone(a: nat, b: nat, c: nat)
    requires a <= b
    ensures a * c <= b * c
  {
    if a < b {
      MulMonotone(a, b - 1, c);
      assert (b - 1) * c + c == b * c;
    }
  }

  /** Euclidean division is unique: a quotient and remainder that rebuild `n`
      are the ones `/` and `%` give. */
  lemma DivModUnique(n: nat, width: nat, q: nat, r: nat)
    requires r < width && n == q * width + r
    ensures n / width == q && n % width == r
  {
    var q', r' := n / width, n % width;
    assert n == q' * width + r';
    if q' < q {
      MulMonotone(q' + 1, q, width);
      assert false;
    } else if q < q' {
      MulMonotone(q + 1, q', width);
      assert false;
    }
  }

  /** The place of (x, y) gives back x and y: the layout is one-to-one. */
  lemma OffsetCoordinates(width: nat, x: nat, y: nat)
    requires x < width
    ensures Offset(width, x, y) % width == x
    ensures Offset(width, x, y) / width == y
  {
    DivModUnique(Offset(width, x, y), width, y, x);
  }

  /** Every place in the buffer is the place of one pixel. */
  lemma OffsetOfCoordinates(width: nat, i: nat)
    requires width > 0
    ensures i % width < width && Offset(width, i % width, i / width) == i
  {
  }
  // ---------------------------------------------------------------------
  // Column-major progress through a row-major buffer (the order of overlay)

  /** Pixel `i` comes before pixel (x, y) when the image is walked column by
      column, each column from top to bottom. */
  predicate ColumnMajorBefore(width: nat, i: nat, x: nat, y: nat)
    requires width > 0
  {
    i % width < x || (i % width == x && i / width < y)
  }

  /** The buffer `cur` holds `tinted` at every pixel before (x, y) in column
      order and `src` everywhere else. */
  predicate TintedUpTo(width: nat, src: seq<Word>, tinted: seq<Word>, cur: seq<Word>, x: nat, y: nat)
  {
    width > 0 && |cur| == |src| && |tinted| == |src| &&
    forall i :: 0 <= i < |src| ==>
      cur[i] == if ColumnMajorBefore(width, i, x, y) then tinted[i] else src[i]
  }

  /** Tinting pixel (x, y) advances the column-order progress by one pixel. */
  lemma TintedUpToNext(width: nat, height: nat, src: seq<Word>, tint: Color, cur: seq<Word>, x: nat, y: nat)
    requires |src| == width * height && x < width && y < height
    requires TintedUpTo(width, src, ApplyAll(Overlay(tint), src), cur, x, y)
    ensures Offset(width, x, y) < |cur| && cur[Offset(width, x, y)] == src[Offset(width, x, y)]
    ensures TintedUpTo(width, src, ApplyAll(Overlay(tint), src),
                       cur[Offset(width, x, y) := OverlayPixel(cur[Offset(width, x, y)], tint)], x, y + 1)
  {
    var tinted := ApplyAll(Overlay(tint), src);
    var k := Offset(width, x, y);
    OffsetInBounds(width, height, x, y);
    OffsetCoordinates(width, x, y);
    OverlayAt(src, tint, k);
    var next := cur[k := OverlayPixel(cur[k], tint)];
    forall i | 0 <= i < |src|
      ensures next[i] == if ColumnMajorBefore(width, i, x, y + 1) then tinted[i] else src[i]
    {
      if i != k {
        OffsetOfCoordinates(width, i);
        assert !(i % width == x && i / width == y);
      }
    }
  }

  /** A finished column: every pixel of column x and of the columns before it
      is tinted. */
  lemma TintedColumnDone(width: nat, height: nat, src: seq<Word>, tinted: seq<Word>, cur: seq<Word>, x: nat)
    requires |src| == width * height
    requires TintedUpTo(width, src, tinted, cur, x, height)
    ensures TintedUpTo(width, src, tinted, cur, x + 1, 0)
  {
    forall i | 0 <= i < |src|
      ensures ColumnMajorBefore(width, i, x, height) == ColumnMajorBefore(width, i, x + 1, 0)
    {
      RowBound(width, height, i);
    }
  }

  /** All columns finished: the whole buffer is tinted. */
  lemma TintedAll(width: nat, src: seq<Word>, tinted: seq<Word>, cur: seq<Word>)
    requires TintedUpTo(width, src, tinted, cur, width, 0)
    ensures cur == tinted
  {
    assert forall i :: 0 <= i < |src| ==> ColumnMajorBefore(width, i, width, 0);
  }

  /** Every place in a width-by-height buffer lies on one of its rows. */
  lemma RowBound(width: nat, height: nat, i: nat)
    requires width > 0 && i < width * height
    ensures i / width < height
  {
    if i / width >= height {
      OffsetOfCoordinates(width, i);
      MulMonotone(height, i / width, width);
      assert false;
    }
  }
}
