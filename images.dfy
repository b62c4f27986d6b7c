/** An abstract Pillow image: its mode string, its size and a symbolic term
    for its pixels. Pixel arithmetic is never interpreted; a raster term only
    records which operations produced it from which other raster, so that
    "derived from the same base" and "composited over white" can be stated.
    Models `convert_rgb`, `guarantee_rgb_for_jpeg` and the Pillow calls that
    `augmentations` makes. */
module Images {

  /** A Pillow mode name such as "RGB", "RGBA", "LA", "L", "P" or "CMYK". */
  type Mode = string

  /** An RGB fill colour, as `Image.new` takes it. */
  type Colour = (int, int, int)

  /** The default background of `convert_rgb`. */
  const White: Colour := (255, 255, 255)

  /** The enhancers of `ImageEnhance` that the augmenter uses. */
  datatype Enhancer = Brightness | Contrast | Sharpness

  /** The single-image Pillow operations the augmenter applies. */
  datatype Op =
    | Mirror                               // ImageOps.mirror
    | Flip                                 // ImageOps.flip
    | Rotate(degrees: int, expand: bool)   // Image.rotate(degrees, expand=...)
    | Enhance(enhancer: Enhancer, factor: real)
    | BlurFilter                           // Image.filter(ImageFilter.BLUR)

  /** Symbolic pixel content. */
  datatype Raster =
    | Pixels(id: nat)                                   // decoded from a file
    | Converted(mode: Mode, source: Raster)              // Image.convert(mode)
    | Channel(band: string, source: Raster)             // Image.getchannel(band)
    | Composite(background: Colour, layer: Raster, mask: Raster)
                                                        // Image.new + paste(layer, mask=mask)
    | Transformed(op: Op, from: Raster)                 // one of the operations above

  datatype Image = Image(mode: Mode, width: nat, height: nat, raster: Raster)

  /** True when the mode carries an alpha channel that `convert_rgb`
      composites away. */
  predicate HasAlpha(mode: Mode)
  {
    mode == "RGBA" || mode == "LA"
  }

  /** `img.convert(mode)`. */
  function Convert(img: Image, mode: Mode): Image
  {
    Image(mode, img.width, img.height, Converted(mode, img.raster))
  }

  /** `convert_rgb`. */
  function ConvertRgb(img: Image, background: Colour): Image
  {
    if img.mode == "RGB" then img
    else if HasAlpha(img.mode) then
      var rgb := Convert(img, "RGB");
      Image("RGB", img.width, img.height, Composite(background, rgb.raster, Channel("A", img.raster)))
    else Convert(img, "RGB")
  }

  /** `convert_rgb` always yields an RGB image of the same size: an RGB image
      is returned as it is; an RGBA or LA image is pasted, through its alpha
      channel, onto a new image of the same size filled with `background`;
      any other mode is converted to RGB. */
  lemma ConvertRgbSpec(img: Image, background: Colour)
    ensures ConvertRgb(img, background).mode == "RGB"
    ensures ConvertRgb(img, background).width == img.width
    ensures ConvertRgb(img, background).height == img.height
    ensures img.mode == "RGB" ==> ConvertRgb(img, background) == img
    ensures HasAlpha(img.mode) ==>
      ConvertRgb(img, background).raster ==
        Composite(background, Converted("RGB", img.raster), Channel("A", img.raster))
    ensures img.mode != "RGB" && !HasAlpha(img.mode) ==>
      ConvertRgb(img, background).raster == Converted("RGB", img.raster)
  {
  }

  /** `convert_rgb` is idempotent. */
  lemma ConvertRgbIdempotent(img: Image, background: Colour)
    ensures ConvertRgb(ConvertRgb(img, background), background) == ConvertRgb(img, background)
  {
    ConvertRgbSpec(img, background);
  }

  /** The extensions `guarantee_rgb_for_jpeg` treats as JPEG (compared as
      given, without lower-casing). */
  predicate IsJpegExt(ext: string)
  {
    ext == ".jpg" || ext == ".jpeg"
  }

  /** `guarantee_rgb_for_jpeg`. */
  function GuaranteeRgbForJpeg(img: Image, ext: string): Image
  {
    if IsJpegExt(ext) && img.mode != "RGB" && img.mode != "L" then Convert(img, "RGB") else img
  }

  /** `guarantee_rgb_for_jpeg` leaves the size alone, makes the mode RGB or L
      for a JPEG extension, and changes the image only by converting it to
      RGB, which it does exactly for a JPEG extension with a mode other than
      RGB and L. */
  lemma GuaranteeRgbSpec(img: Image, ext: string)
    ensures GuaranteeRgbForJpeg(img, ext).width == img.width
    ensures GuaranteeRgbForJpeg(img, ext).height == img.height
    ensures IsJpegExt(ext) ==>
      GuaranteeRgbForJpeg(img, ext).mode == "RGB" || GuaranteeRgbForJpeg(img, ext).mode == "L"
    ensures GuaranteeRgbForJpeg(img, ext) != img <==>
      IsJpegExt(ext) && img.mode != "RGB" && img.mode != "L"
    ensures GuaranteeRgbForJpeg(img, ext) != img ==> GuaranteeRgbForJpeg(img, ext) == Convert(img, "RGB")
  {
  }

  /** After `convert_rgb` the JPEG safety step never changes anything: the
      image is already RGB whatever the target. */
  lemma SafetyAfterConvertIsIdentity(img: Image, background: Colour, ext: string)
    ensures GuaranteeRgbForJpeg(ConvertRgb(img, background), ext) == ConvertRgb(img, background)
  {
    ConvertRgbSpec(img, background);
  }

  /** The size after `rotate(degrees, expand)`: with `expand` and a quarter
      turn the canvas swaps width and height. */
  function RotatedSize(degrees: int, expand: bool, width: nat, height: nat): (nat, nat)
  {
    if expand && degrees % 180 == 90 then (height, width) else (width, height)
  }

  /** One Pillow operation applied to `img`. */
  function ApplyOp(op: Op, img: Image): Image
  {
    match op
    case Rotate(degrees, expand) =>
      var size := RotatedSize(degrees, expand, img.width, img.height);
      Image(img.mode, size.0, size.1, Transformed(op, img.raster))
    case _ => Image(img.mode, img.width, img.height, Transformed(op, img.raster))
  }

  /** An operation keeps the mode, keeps the size except for a quarter-turn
      rotation with `expand`, which swaps it, and its pixels are those of
      `img` transformed by `op`. */
  lemma ApplyOpSpec(op: Op, img: Image)
    ensures ApplyOp(op, img).mode == img.mode
    ensures ApplyOp(op, img).raster == Transformed(op, img.raster)
    ensures !op.Rotate? ==> ApplyOp(op, img).width == img.width && ApplyOp(op, img).height == img.height
    ensures op.Rotate? && op.expand && op.degrees % 180 == 90 ==>
      ApplyOp(op, img).width == img.height && ApplyOp(op, img).height == img.width
  {
  }
}
