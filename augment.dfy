/** `augmentations`: the fixed, ordered list of eight tagged variants, each
    computed directly from the image it is given. */
module Augment {
  import opened Images

  /** The number of variants every accepted image gets. */
  const NumVariants: nat := 8

  /** The tags, in the order they are yielded. `bright125` and `contrast125`
      are the literal tags of the program although their factor is 1.5. */
  const Tags: seq<string> := ["flipHorizontal", "flipVertical", "rotate90degrees", "rotate270",
                              "bright125", "contrast125", "sharp150", "blur"]

  /** The operation behind each tag, in the same order. */
  const Ops: seq<Op> := [Mirror, Flip, Rotate(90, true), Rotate(270, true),
                         Enhance(Brightness, 1.5), Enhance(Contrast, 1.5), Enhance(Sharpness, 1.5),
                         BlurFilter]

  /** `augmentations(img)` as the sequence its generator yields. */
  function Augmentations(img: Image): seq<(string, Image)>
  {
    seq(NumVariants, j requires 0 <= j < NumVariants => (Tags[j], ApplyOp(Ops[j], img)))
  }

  /** Eight variants, tagged in order, each one operation away from `img`
      and in its mode. */
  lemma AugmentationsSpec(img: Image, j: nat)
    requires j < NumVariants
    ensures |Augmentations(img)| == NumVariants == |Tags|
    ensures Augmentations(img)[j].0 == Tags[j]
    ensures Augmentations(img)[j].1 == ApplyOp(Ops[j], img)
    ensures Augmentations(img)[j].1.mode == img.mode
    ensures Augmentations(img)[j].1.raster == Transformed(Ops[j], img.raster)
  {
    ApplyOpSpec(Ops[j], img);
  }

  /** The eight tags are pairwise distinct, so a file's variants never
      overwrite one another. */
  lemma TagsDistinct(i: nat, j: nat)
    requires i < j < |Tags|
    ensures Tags[i] != Tags[j]
  {
  }

  /** No variant is computed from another variant: each one's pixels are one
      operation away from `img`, and a variant's raster is never the input
      of another. The quarter turns swap the sides; every other variant
      keeps the size. */
  lemma VariantsFromSameBase(img: Image, i: nat, j: nat)
    requires i < NumVariants && j < NumVariants
    ensures Augmentations(img)[i].1.raster.from != Augmentations(img)[j].1.raster
    ensures (i == 2 || i == 3) <==>
      Augmentations(img)[i].1.raster.op.Rotate?
    ensures i != 2 && i != 3 ==>
      Augmentations(img)[i].1.width == img.width && Augmentations(img)[i].1.height == img.height
    ensures i == 2 || i == 3 ==>
      Augmentations(img)[i].1.width == img.height && Augmentations(img)[i].1.height == img.width
  {
    var vs := Augmentations(img);
    assert vs[i].1.raster.from == img.raster;
    assert img.raster < vs[j].1.raster;
  }

  /** Every variant of an RGB base is RGB, so the JPEG safety step leaves it
      unchanged for every extension. */
  lemma VariantsOfRgbAreSafe(img: Image, ext: string, j: nat)
    requires img.mode == "RGB" && j < NumVariants
    ensures Augmentations(img)[j].1.mode == "RGB"
    ensures GuaranteeRgbForJpeg(Augmentations(img)[j].1, ext) == Augmentations(img)[j].1
  {
  }
}
