/** The format classifier: `recognize_formats` and `true_image`, and the
    format and option choice of `save_image`. Encoded bytes stay symbolic:
    an `Encoded` value names the image, the encoder format and the options
    the codec is called with. */
module Formats {
  import opened Paths
  import opened Images

  /** `recognize_formats`. */
  const RecognizedFormats: set<string> := {".bmp", ".jpeg", ".jpg", ".png", ".tif", ".tiff", ".webp"}

  /** `true_image`: a regular file whose lower-cased suffix is recognized. */
  predicate TrueImage(isFile: bool, name: string)
  {
    isFile && Lower(Suffix(name)) in RecognizedFormats
  }

  /** Acceptance does not depend on the case of the name. */
  lemma TrueImageIgnoresCase(isFile: bool, n1: string, n2: string)
    requires Lower(n1) == Lower(n2)
    ensures TrueImage(isFile, n1) <==> TrueImage(isFile, n2)
  {
    SuffixIgnoresCase(n1, n2);
  }

  /** An accepted name has a real suffix, of at least two characters and
      with its only dot in front. */
  lemma TrueImageHasSuffix(isFile: bool, name: string)
    requires TrueImage(isFile, name)
    ensures isFile && HasSuffix(name)
    ensures Lower(Suffix(name)) in {".bmp", ".jpeg", ".jpg", ".png", ".tif", ".tiff", ".webp"}
  {
  }

  /** The encoder formats `save_image` can select. */
  datatype Format = JPEG | PNG | BMP | TIFF | WEBP

  /** The extension table of `save_image`. */
  const FormatTable: map<string, Format> := map[
    ".jpg" := JPEG, ".jpeg" := JPEG, ".png" := PNG, ".bmp" := BMP,
    ".tif" := TIFF, ".tiff" := TIFF, ".webp" := WEBP]

  /** The table covers exactly the recognized extensions, so the PNG
      fallback is never taken for a discovered image. */
  lemma TableCoversRecognized()
    ensures FormatTable.Keys == RecognizedFormats
  {
  }

  /** `{...}.get(ext.lower(), 'PNG')`. */
  function FormatFor(ext: string): Format
  {
    var e := Lower(ext);
    if e in FormatTable then FormatTable[e] else PNG
  }

  /** The format is chosen by the lower-cased extension, and every extension
      outside the table falls back to PNG. */
  lemma FormatForSpec(ext: string)
    ensures FormatFor(ext) == JPEG <==> Lower(ext) == ".jpg" || Lower(ext) == ".jpeg"
    ensures FormatFor(ext) == BMP <==> Lower(ext) == ".bmp"
    ensures FormatFor(ext) == TIFF <==> Lower(ext) == ".tif" || Lower(ext) == ".tiff"
    ensures FormatFor(ext) == WEBP <==> Lower(ext) == ".webp"
    ensures FormatFor(ext) == PNG <==> Lower(ext) == ".png" || Lower(ext) !in RecognizedFormats
  {
  }

  /** A value in the keyword options passed to `img.save`. */
  datatype OptionValue = IntOption(i: int) | BoolOption(b: bool)

  type SaveOptions = map<string, OptionValue>

  /** The options JPEG output is saved with. */
  const JpegOptions: SaveOptions := map["quality" := IntOption(95), "optimize" := BoolOption(true)]

  /** What `img.save(bio, format=fmt, **save_options)` is asked to write. */
  datatype Encoded = Encoded(image: Image, format: Format, options: SaveOptions)

  /** The encoding `save_image(img, ext)` produces. */
  function Encoding(img: Image, ext: string): (d: Encoded)
  {
    var fmt := FormatFor(ext);
    Encoded(img, fmt, if fmt == JPEG then JpegOptions else map[])
  }

  /** Only a JPEG-family extension, in any case, gets options, and JPEG gets
      exactly quality 95 and optimisation; the image itself is encoded as
      given. */
  lemma EncodingOptions(img: Image, ext: string)
    ensures Encoding(img, ext).image == img
    ensures Encoding(img, ext).options != map[] <==> IsJpegExt(Lower(ext))
    ensures IsJpegExt(Lower(ext)) ==>
      Encoding(img, ext).options["quality"] == IntOption(95) &&
      Encoding(img, ext).options["optimize"] == BoolOption(true) &&
      Encoding(img, ext).options.Keys == {"quality", "optimize"}
  {
    assert "quality" in JpegOptions;
  }

  /** `save_image`: the format from the table (PNG when the lower-cased
      extension is missing from it) and a local option dictionary that is
      filled in for JPEG only. */
  method SaveImage(img: Image, ext: string) returns (d: Encoded)
    ensures d == Encoding(img, ext)
  {
    var fmt := if Lower(ext) in FormatTable then FormatTable[Lower(ext)] else PNG;
    var saveOptions: SaveOptions := map[];
    if fmt == JPEG {
      saveOptions := saveOptions["quality" := IntOption(95)];
      saveOptions := saveOptions["optimize" := BoolOption(true)];
    }
    d := Encoded(img, fmt, saveOptions);
  }
}
