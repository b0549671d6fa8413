/** The ImageTool class: an input image that is decoded lazily into an
    in-memory TYPE_INT_ARGB buffer, three pixel loops that edit that buffer,
    and the guard that `save` puts before writing it out. */
module ImageTools {
  import opened Pixels
  import opened Buffers

  datatype Option<T> = None | Some(value: T)

  datatype Result<T, E> = Success(value: T) | Failure(error: E)

  /** A decoded image as a value: its size and its ARGB words, row by row. */
  datatype Picture = Picture(width: nat, height: nat, pixels: seq<Word>)
  {
    /** What an image decoder hands back: a non-empty width-by-height grid. */
    predicate Valid()
    {
      width > 0 && height > 0 && |pixels| == width * height
    }
  }

  /** `op` applied to every pixel of a picture. */
  function Transform(op: PixelOp, pic: Picture): (r: Picture)
    ensures r.width == pic.width && r.height == pic.height
    ensures pic.Valid() ==> r.Valid()
  {
    pic.(pixels := ApplyAll(op, pic.pixels))
  }

  /** A BufferedImage of TYPE_INT_ARGB: its size never changes and its words
      live in one row-major array. */
  class Raster {
    const width: nat
    const height: nat
    const data: array<Word>

    ghost predicate Valid()
    {
      width > 0 && height > 0 && data.Length == width * height
    }

    function Contents(): Picture
      reads data
    {
      Picture(width, height, data[..])
    }

    /** The image a decoder produces from `pic`. */
    constructor FromPicture(pic: Picture)
      requires pic.Valid()
      ensures Valid() && fresh(data)
      ensures Contents() == pic
    {
      width, height := pic.width, pic.height;
      data := new Word[|pic.pixels|](i requires 0 <= i < |pic.pixels| => pic.pixels[i]);
    }

    /** `new BufferedImage(w, h, TYPE_INT_ARGB)` with `src` drawn onto it. */
    constructor CopyOf(src: Raster)
      requires src.Valid()
      ensures Valid() && fresh(data)
      ensures Contents() == src.Contents()
    {
      width, height := src.width, src.height;
      data := new Word[src.data.Length](i requires 0 <= i < src.data.Length reads src.data => src.data[i]);
    }

    /** `getRGB(x, y)`. */
    method GetRGB(x: nat, y: nat) returns (p: Word)
      requires Valid() && x < width && y < height
      ensures Offset(width, x, y) < data.Length && p == data[Offset(width, x, y)]
    {
      OffsetInBounds(width, height, x, y);
      p := data[Offset(width, x, y)];
    }

    /** `setRGB(x, y, p)`. */
    method SetRGB(x: nat, y: nat, p: Word)
      requires Valid() && x < width && y < height
      modifies data
      ensures Offset(width, x, y) < data.Length && data[Offset(width, x, y)] == p
      ensures forall i :: 0 <= i < data.Length && i != Offset(width, x, y) ==> data[i] == old(data[i])
    {
      OffsetInBounds(width, height, x, y);
      data[Offset(width, x, y)] := p;
    }

    /** `getRGB(0, 0, w, h, null, 0, w)`: a fresh copy of every word, row by row. */
    method GetRGBs() returns (rgb: array<Word>)
      ensures fresh(rgb) && rgb[..] == data[..]
    {
      rgb := new Word[data.Length](i requires 0 <= i < data.Length reads data => data[i]);
    }

    /** `setRGB(0, 0, w, h, rgb, 0, w)`: every word written back from `rgb`. */
    method SetRGBs(rgb: array<Word>)
      requires rgb.Length == data.Length
      modifies data
      ensures data[..] == old(rgb[..])
    {
      forall i | 0 <= i < data.Length {
        data[i] := rgb[i];
      }
    }

    /** `getRaster().getPixel(x, y, null)`: a fresh array of the bands R, G, B, A. */
    method GetPixel(x: nat, y: nat) returns (bands: array<Channel>)
      requires Valid() && x < width && y < height
      ensures Offset(width, x, y) < data.Length
      ensures fresh(bands) && bands[..] == Bands(data[Offset(width, x, y)])
    {
      var p := GetRGB(x, y);
      bands := new Channel[4](i requires 0 <= i < 4 => Bands(p)[i]);
    }

    /** `getRaster().setPixel(x, y, bands)`. */
    method SetPixel(x: nat, y: nat, bands: array<Channel>)
      requires Valid() && x < width && y < height && bands.Length == 4
      modifies data
      ensures Offset(width, x, y) < data.Length
      ensures data[..] == old(data[..])[Offset(width, x, y) := FromBands(old(bands[..]))]
    {
      SetRGB(x, y, FromBands(bands[..]));
    }
  }

  datatype SaveError =
    | NoOutputFile   // `outputFile` was never set: the exception save throws itself
    | NoImage        // nothing was ever loaded: ImageIO.write rejects a null image

  /** What save hands to the image writer. */
  datatype WriteRequest = WriteRequest(file: string, format: string, image: Picture)

  class ImageTool {
    /** What decoding `inputFile` yields: `None` when the file is missing or in a
        format no reader accepts (ImageIO.read throws or returns null). */
    const input: Option<Picture>
    var outputFile: Option<string>
    var outputImage: Raster?

    ghost predicate Valid()
      reads this
    {
      (input.Some? ==> input.value.Valid()) &&
      (outputImage != null ==> outputImage.Valid())
    }

    /** The image that getImage exposes: nothing before the first successful load. */
    function Current(): Option<Picture>
      reads this, if outputImage == null then {} else {outputImage.data}
    {
      if outputImage == null then None else Some(outputImage.Contents())
    }

    /** The image the next operation starts from: the loaded buffer if there is
        one, otherwise a fresh decode of the input file. */
    function Source(): Option<Picture>
      reads this, if outputImage == null then {} else {outputImage.data}
    {
      if outputImage == null then input else Some(outputImage.Contents())
    }

    constructor (input: Option<Picture>)
      requires input.Some? ==> input.value.Valid()
      ensures Valid() && this.input == input
      ensures outputFile == None && outputImage == null
    {
      this.input := input;
      outputFile := None;
      outputImage := null;
    }

    method SetOutputFile(file: Option<string>)
      modifies this`outputFile
      ensures outputFile == file
    {
      outputFile := file;
    }

    method GetImage() returns (image: Raster?)
      ensures image == outputImage
    {
      image := outputImage;
    }

    /** The guard every operation starts with: decode the input file only when no
        buffer is loaded yet. A decode failure leaves the field null. */
    method Load()
      requires Valid()
      modifies this`outputImage
      ensures Valid()
      ensures old(outputImage) != null ==> outputImage == old(outputImage)
      ensures old(outputImage) == null && outputImage != null ==> fresh(outputImage.data)
      ensures Current() == old(Source())
    {
      if outputImage == null && input.Some? {
        outputImage := new Raster.FromPicture(input.value);
      }
    }

    /** removeColor: key every pixel whose channels are all within THRESHOLD of
        `replaceColor` to the word 0, working on a fresh copy that then replaces
        the buffer; the previous buffer object is left as it was. */
    method RemoveColor(replaceColor: Color)
      requires Valid()
      modifies this`outputImage
      ensures Valid()
      ensures old(Source()).None? ==> outputImage == null
      ensures old(Source()).Some? ==>
                outputImage != null && fresh(outputImage.data) &&
                Current() == Some(Transform(PixelOp.RemoveColor(replaceColor), old(Source()).value))
      ensures old(outputImage) != null ==> old(outputImage).data[..] == old(outputImage.data[..])
    {
      Load();
      if outputImage == null {
        return;
      }
      var image := new Raster.CopyOf(outputImage);
      KeyPixels(image, replaceColor);
      outputImage := image;
    }
  
    /** changeColor: every pixel whose RGB is exactly `oldColor` gets the RGB
        of `newColor` and keeps its alpha, in the loaded buffer itself. */
    method ChangeColor(oldColor: Color, newColor: Color)
      requires Valid()
      modifies this`outputImage, if outputImage == null then {} else {outputImage.data}
      ensures Valid()
      ensures old(outputImage) != null ==> outputImage == old(outputImage)
      ensures old(outputImage) == null && outputImage != null ==> fresh(outputImage.data)
      ensures old(Source()).None? ==> outputImage == null
      ensures old(Source()).Some? ==>
                outputImage != null &&
                Current() == Some(Transform(PixelOp.ChangeColor(oldColor, newColor), old(Source()).value))
    {
      Load();
      if outputImage == null {
        return;
      }
      SubstitutePixels(outputImage, oldColor, newColor);
    }

    /** overlay: bands 0..2 of every pixel of the loaded buffer are set to
        `color`, band 3 (alpha) is kept. */
    method Overlay(color: Color)
      requires Valid()
      modifies this`outputImage, if outputImage == null then {} else {outputImage.data}
      ensures Valid()
      ensures old(outputImage) != null ==> outputImage == old(outputImage)
      ensures old(outputImage) == null && outputImage != null ==> fresh(outputImage.data)
      ensures old(Source()).None? ==> outputImage == null
      ensures old(Source()).Some? ==>
                outputImage != null &&
                Current() == Some(Transform(PixelOp.Overlay(color), old(Source()).value))
    {
      Load();
      if outputImage == null {
        return;
      }
      TintPixels(outputImage, color);
    }

    /** save: refuse to write when no output file was set; otherwise hand the
        current buffer to the image writer. */
    method Save(fileType: string) returns (r: Result<WriteRequest, SaveError>)
      requires Valid()
      ensures outputFile.None? <==> r == Failure(NoOutputFile)
      ensures outputFile.Some? && outputImage == null ==> r == Failure(NoImage)
      ensures outputFile.Some? && outputImage != null ==>
                r == Success(WriteRequest(outputFile.value, fileType, outputImage.Contents()))
    {
      if outputFile.None? {
        return Failure(NoOutputFile);
      }
      if outputImage == null {
        return Failure(NoImage);
      }
      r := Success(WriteRequest(outputFile.value, fileType, outputImage.Contents()));
    }

    /** The pixel loop of removeColor, row by row: a pixel whose channels all
        lie within THRESHOLD of `replaceColor` is set to TRANSPARENT. */
    static method KeyPixels(image: Raster, replaceColor: Color)
      requires image.Valid()
      modifies image.data
      ensures image.data[..] == ApplyAll(PixelOp.RemoveColor(replaceColor), old(image.data[..]))
    {
      ghost var src := image.data[..];
      ghost var keyed := ApplyAll(PixelOp.RemoveColor(replaceColor), src);
      for y := 0 to image.height
        invariant PrefixDone(src, keyed, image.data[..], Offset(image.width, 0, y))
      {
        KeyRow(image, y, replaceColor, src, keyed);
      }
      PrefixDoneAll(src, keyed, image.data[..]);
    }

    /** The inner loop of removeColor: row y, from left to right. */
    static method KeyRow(image: Raster, y: nat, replaceColor: Color, ghost src: seq<Word>, ghost keyed: seq<Word>)
      requires image.Valid() && y < image.height
      requires keyed == ApplyAll(PixelOp.RemoveColor(replaceColor), src)
      requires PrefixDone(src, keyed, image.data[..], Offset(image.width, 0, y))
      modifies image.data
      ensures PrefixDone(src, keyed, image.data[..], Offset(image.width, 0, y + 1))
    {
      for x := 0 to image.width
        invariant PrefixDone(src, keyed, image.data[..], Offset(image.width, x, y))
      {
        OffsetInBounds(image.width, image.height, x, y);
        KeyedNext(src, replaceColor, image.data[..], Offset(image.width, x, y));
        KeyPixel(image, x, y, replaceColor);
      }
      OffsetNextRow(image.width, image.height, y);
    }

    /** The body of removeColor's loop for pixel (x, y). */
    static method KeyPixel(image: Raster, x: nat, y: nat, replaceColor: Color)
      requires image.Valid() && x < image.width && y < image.height
      modifies image.data
      ensures Offset(image.width, x, y) < image.data.Length
      ensures image.data[..] ==
                old(image.data[..])[Offset(image.width, x, y) :=
                                    RemovePixel(old(image.data[Offset(image.width, x, y)]), replaceColor)]
    {
      var pixel := image.GetRGB(x, y);
      var color := ColorOf(pixel);
      var dr, dg, db := Distance(color.red, replaceColor.red),
                        Distance(color.green, replaceColor.green),
                        Distance(color.blue, replaceColor.blue);
      if dr < THRESHOLD && dg < THRESHOLD && db < THRESHOLD {
        image.SetRGB(x, y, TRANSPARENT);
      }
      assert image.data[..] == old(image.data[..])[Offset(image.width, x, y) := RemovePixel(pixel, replaceColor)];
    }

    /** The pixel loop of overlay, column by column: each column is tinted
        from top to bottom before the next one is started. */
    static method TintPixels(image: Raster, color: Color)
      requires image.Valid()
      modifies image.data
      ensures image.data[..] == ApplyAll(PixelOp.Overlay(color), old(image.data[..]))
    {
      var width, height := image.width, image.height;
      ghost var src := image.data[..];
      ghost var tinted := ApplyAll(PixelOp.Overlay(color), src);
      for xx := 0 to width
        invariant TintedUpTo(width, src, tinted, image.data[..], xx, 0)
      {
        for yy := 0 to height
          invariant TintedUpTo(width, src, tinted, image.data[..], xx, yy)
        {
          TintedUpToNext(width, height, src, color, image.data[..], xx, yy);
          TintPixel(image, xx, yy, color);
        }
        TintedColumnDone(width, height, src, tinted, image.data[..], xx);
      }
      TintedAll(width, src, tinted, image.data[..]);
    }

    /** The body of overlay's loop: read the bands of (x, y), overwrite bands
        0..2 with `color`, write the bands back. */
    static method TintPixel(image: Raster, x: nat, y: nat, color: Color)
      requires image.Valid() && x < image.width && y < image.height
      modifies image.data
      ensures Offset(image.width, x, y) < image.data.Length
      ensures image.data[..] ==
                old(image.data[..])[Offset(image.width, x, y) :=
                                    OverlayPixel(old(image.data[Offset(image.width, x, y)]), color)]
    {
      var pixels := image.GetPixel(x, y);
      ghost var p := image.data[Offset(image.width, x, y)];
      pixels[0] := color.red;
      pixels[1] := color.green;
      pixels[2] := color.blue;
      assert pixels[..] == Bands(p)[0 := color.red][1 := color.green][2 := color.blue];
      image.SetPixel(x, y, pixels);
    }

    /** The pixel step of changeColor: the words are copied out with getRGB,
        toggled, and written back with setRGB. */
    static method SubstitutePixels(image: Raster, oldColor: Color, newColor: Color)
      modifies image.data
      ensures image.data[..] == ApplyAll(PixelOp.ChangeColor(oldColor, newColor), old(image.data[..]))
    {
      var oldRGB := Pack(oldColor);
      var toggleRGB := Toggle(oldColor, newColor);  // oldRGB ^ packed newColor
      var rgb := image.GetRGBs();
      ghost var src := rgb[..];
      ToggleMatching(rgb, oldRGB, toggleRGB);
      ChangeColorFromToggles(src, rgb[..], oldColor, newColor, oldRGB, toggleRGB);
      image.SetRGBs(rgb);
    }

    /** The loop of changeColor: every word whose low 24 bits are `oldRGB` is
        XORed with `toggleRGB`. */
    static method ToggleMatching(rgb: array<Word>, oldRGB: Word, toggleRGB: Word)
      modifies rgb
      ensures forall i :: 0 <= i < rgb.Length ==>
                rgb[i] == ToggleIfMatching(old(rgb[i]), oldRGB, toggleRGB)
    {
      for i := 0 to rgb.Length
        invariant forall k :: 0 <= k < i ==> rgb[k] == ToggleIfMatching(old(rgb[k]), oldRGB, toggleRGB)
        invariant forall k :: i <= k < rgb.Length ==> rgb[k] == old(rgb[k])
      {
        ghost var p := rgb[i];
        if rgb[i] & 0x00ff_ffff == oldRGB {  // RGB_MASK
          rgb[i] := rgb[i] ^ toggleRGB;
          assert rgb[i] == ToggleIfMatching(p, oldRGB, toggleRGB);
        } else {
          assert rgb[i] == ToggleIfMatching(p, oldRGB, toggleRGB);
        }
      }
    }
  }
}
