# augment_ds: a Dafny model of the image dataset augmenter

`augment_ds.py` walks an input directory tree. For every file that is a recognised image (judged by its lower-cased suffix), it does three things:

- It recreates the file's directory under the output root.
- It optionally copies the original there.
- It writes eight augmented variants next to the copy, each named `{stem}__{tag}{ext}`.

This project models the decision logic under that work:

- **Format classifier** (`Formats`):
  - `recognize_formats` and `true_image`.
  - The `save_image` extension table, its PNG fallback, and the JPEG-only options.
- **Colour-mode normaliser** (`Images`): `convert_rgb` and `guarantee_rgb_for_jpeg`, over an image record holding a mode, a size and a symbolic pixel term.
- **Augmentation sequence** (`Augment`): the eight tagged variants, in order, each one operation away from the same base.
- **Output naming and tree mirroring** (`Paths`, `Walker`):
  - the `PurePath.suffix` and `PurePath.stem` rules;
  - `{stem}__{tag}{ext}`;
  - `(output_dir / rel).parent`.
- **Dataset walker** (`Walker`): `process_dataset` as an imperative method.
  - It has the two counters, the nested loop over the variants, the per-file `try` blocks and the exit code.
  - It is proved equal to a specification function, `RunSpec`.
  - `WalkerProperties` proves what the program promises about `RunSpec`, and `Scenario` works one concrete walk through.

Pixels are never computed. A `Raster` term records which operation produced it from which other raster:

- `Transformed(Mirror, r)`;
- `Composite(White, Converted("RGB", r), Channel("A", r))`;
- and so on.

This makes "every variant comes from the same base" and "an RGBA image is composited over white" statements that can be proved.

The filesystem and Pillow are inputs. Each entry listed by `rglob` comes with the outcome of every call made for it:

- `mkdir` succeeds or raises;
- `copy2` succeeds or raises;
- `Image.open` + `load` yield an image, or they or `convert_rgb` raise;
- the index of the first variant whose transform, encoding or write raises, if any.

What the program does to the filesystem comes out as an ordered list of effects: `MakeDirs`, `CopyFile`, and `WriteBytes` with the encoder input.

Where the code differs from its comments or from the intended behaviour, the model follows the code:

- The module docstring promises 13 augmentations (augment_ds.py:4), but the generator yields 8 (augment_ds.py:41-48).
- The tags `bright125` and `contrast125` are kept literally, although both use factor 1.5 (augment_ds.py:45-46).
- A variant's extension is the source suffix LOWER-CASED (augment_ds.py:91, 96), not the suffix as written.
- `guarantee_rgb_for_jpeg` compares `ext` exactly, with no lower-casing (augment_ds.py:35). The walker only ever passes it the lower-cased suffix.
- `dest_dir.mkdir(...)` is outside both `try` blocks (augment_ds.py:77), so per-file failures are not all isolated. If a destination directory cannot be created, the exception escapes `process_dataset`: no exit code is returned and later files are not processed. The model has a separate outcome for this, `Raised`. Under `Raised`, the model's report holds the counters and effects as they were when `mkdir` raised; the program prints neither, because the exception escapes before the summary lines (augment_ds.py:102-103). Copy, open, transform, encode and write failures are caught, and each stays with its own file.

## Model

| member | source | states |
|---|---|---|
| `Paths.Parent` | augment_ds.py:76 | `Path.parent` is the path without its last component, and appending that component gives the path back |
| `Paths.LowerChar` | augment_ds.py:31 | the character step of `str.lower()`; no contract of its own; see `Paths.LowerCharDot` and `Paths.Lower` |
| `Paths.Lower` | augment_ds.py:31 | `str.lower()` keeps the length and lower-cases each character on its own |
| `Paths.LowerIdempotent` | augment_ds.py:91 | lower-casing twice is lower-casing once |
| `Paths.LowerCharDot` | augment_ds.py:31 | lower-casing neither creates nor removes a dot |
| `Paths.LastIndexOf` | augment_ds.py:31 | the index found holds the character, no later index does, and -1 means it is absent |
| `Paths.HasSuffix` | augment_ds.py:31 | whether `PurePath.suffix` is non-empty: the last dot is neither the first nor the last character; no contract of its own; see `Paths.Suffix` and `Paths.Stem` |
| `Paths.Suffix` | augment_ds.py:31 | `PurePath.suffix` is empty exactly when the last dot is missing, first or last; otherwise it is a tail of the name, at least two characters long, starting with its only dot |
| `Paths.Stem` | augment_ds.py:96 | stem followed by suffix is the name, and a name with a suffix has a non-empty stem |
| `Paths.SuffixOfLower` | augment_ds.py:31 | the suffix of the lower-cased name is the lower-cased suffix |
| `Paths.SuffixIgnoresCase` | augment_ds.py:31 | names equal up to case have equal lower-cased suffixes |
| `Paths.SuffixOfAppend` | augment_ds.py:96 | a name built as prefix plus a proper suffix has exactly that suffix and that prefix as stem |
| `Images.HasAlpha` | augment_ds.py:19 | the test `mode in ("RGBA", "LA")`; no contract of its own; see `Images.ConvertRgbSpec` |
| `Images.Convert` | augment_ds.py:21-36 | `img.convert(mode)` as used at lines 21, 25 and 36; no contract of its own; see `Images.ConvertRgbSpec` and `Images.GuaranteeRgbSpec` |
| `Images.ConvertRgb` | augment_ds.py:14-25 | no contract of its own; see `Images.ConvertRgbSpec` and `Images.ConvertRgbIdempotent` |
| `Images.ConvertRgbSpec` | augment_ds.py:14-25 | `convert_rgb` always yields RGB at the same size; it returns an RGB input unchanged, composites RGBA and LA through their alpha channel over the background, and converts every other mode |
| `Images.ConvertRgbIdempotent` | augment_ds.py:14-25 | `convert_rgb` of its own result changes nothing |
| `Images.IsJpegExt` | augment_ds.py:35 | the extension test `ext in {'.jpg', '.jpeg'}`; no contract of its own; see `Images.GuaranteeRgbSpec` and `Formats.EncodingOptions` |
| `Images.GuaranteeRgbForJpeg` | augment_ds.py:33-37 | no contract of its own; see `Images.GuaranteeRgbSpec` and `Images.SafetyAfterConvertIsIdentity` |
| `Images.GuaranteeRgbSpec` | augment_ds.py:33-37 | for `.jpg`/`.jpeg` the mode becomes RGB or L; the image changes exactly when the extension is one of those two and the mode is neither RGB nor L, and then only by `convert('RGB')`; the size is kept |
| `Images.SafetyAfterConvertIsIdentity` | augment_ds.py:92-95 | the JPEG safety step does nothing to a `convert_rgb` result, whatever the extension |
| `Images.RotatedSize` | augment_ds.py:43-44 | the canvas size of `rotate(..., expand=True)`; no contract of its own; see `Images.ApplyOpSpec` |
| `Images.ApplyOp` | augment_ds.py:41-48 | the Pillow call behind each yield; no contract of its own; see `Images.ApplyOpSpec` |
| `Images.ApplyOpSpec` | augment_ds.py:41-48 | each Pillow operation keeps the mode, and its pixels are the input's transformed by that operation; the size is kept, except that an expanded quarter turn swaps the sides |
| `Formats.TrueImage` | augment_ds.py:28-31 | `true_image`; no contract of its own; see `Formats.TrueImageIgnoresCase` and `Formats.TrueImageHasSuffix` |
| `Formats.TrueImageIgnoresCase` | augment_ds.py:28-31 | acceptance does not depend on the case of the name |
| `Formats.TrueImageHasSuffix` | augment_ds.py:28-31 | an accepted path is a file with a real suffix, and that suffix lower-cased is one of the seven recognised extensions |
| `Formats.TableCoversRecognized` | augment_ds.py:55-58 | the format table has exactly the recognised extensions as keys |
| `Formats.FormatFor` | augment_ds.py:55-58 | no contract of its own; see `Formats.FormatForSpec` |
| `Formats.FormatForSpec` | augment_ds.py:55-58 | after lower-casing, `.jpg`/`.jpeg` give JPEG, `.bmp` BMP, `.tif`/`.tiff` TIFF, `.webp` WEBP, and `.png` or any suffix outside the table PNG, each in both directions |
| `Formats.Encoding` | augment_ds.py:51-63 | what `save_image` hands the codec; no contract of its own; see `Formats.EncodingOptions` and `Formats.SaveImage` |
| `Formats.EncodingOptions` | augment_ds.py:59-62 | options are non-empty exactly for a JPEG-family extension in any case, and are then exactly `quality=95, optimize=True`; the image is encoded as given |
| `Formats.SaveImage` | augment_ds.py:51-63 | the table lookup together with the option dictionary, filled in for JPEG only, gives exactly the specified encoding |
| `Augment.Augmentations` | augment_ds.py:39-48 | no contract of its own; see `Augment.AugmentationsSpec` and `Augment.VariantsFromSameBase` |
| `Augment.AugmentationsSpec` | augment_ds.py:39-48 | exactly eight variants; the j-th has the j-th tag and is the j-th operation applied to the input itself, in the input's mode |
| `Augment.TagsDistinct` | augment_ds.py:41-48 | the eight tags are pairwise distinct |
| `Augment.VariantsFromSameBase` | augment_ds.py:39-48 | no variant is computed from another variant; only variants 2 and 3 rotate, swapping the sides, and all others keep the size |
| `Augment.VariantsOfRgbAreSafe` | augment_ds.py:92-95 | every variant of an RGB base is RGB and passes the JPEG safety step unchanged |
| `Walker.IsImage` | augment_ds.py:67 | `true_image(p)` applied to a listed entry; no contract of its own; see `WalkerProperties.DiscoverFilters` and `Formats.TrueImageHasSuffix` |
| `Walker.Filter` | augment_ds.py:67 | the list comprehension's `if` clause: it never keeps more entries than are listed |
| `Walker.Discover` | augment_ds.py:67 | `[p for p in input_dir.rglob("*") if true_image(p)]`, the filter with `true_image`; no contract of its own; see `WalkerProperties.DiscoverFilters` and `WalkerProperties.DiscoverAppend` |
| `Walker.RelPath` | augment_ds.py:75 | `src.relative_to(input_dir)`; no contract of its own; see `Walker.DestDirMirrors` |
| `Walker.SourcePath` | augment_ds.py:82 | `src`, the input root followed by the relative path; no contract of its own; see `WalkerProperties.FileEffectMembers` |
| `Walker.Ext` | augment_ds.py:91 | `src.suffix.lower()`; no contract of its own; see `Walker.VariantNameKeepsExtension` and `WalkerProperties.VariantWriteSpec` |
| `Walker.DestDir` | augment_ds.py:75-76 | no contract of its own; see `Walker.DestDirMirrors` |
| `Walker.DestDirMirrors` | augment_ds.py:75-76 | the destination directory is the output root followed by the source's directory relative to the input root, and the copy's path is the source's relative path under the output root |
| `Walker.VariantName` | augment_ds.py:91-96 | no contract of its own; see `Walker.VariantNameKeepsExtension` |
| `Walker.VariantNameKeepsExtension` | augment_ds.py:91-96 | a variant name's suffix is the source's lower-cased suffix, and its stem is `{stem}__{tag}` |
| `Walker.WrittenCount` | augment_ds.py:88-100 | no file ever gets more than eight variants |
| `Walker.WrittenCountBound` | augment_ds.py:94-100 | for every j up to the written count of an opened file, j is below it exactly when j < 8 and j is not the failing index: the loop guard at line 94 together with the exception that leaves the loop |
| `Walker.VariantWritesNext` | augment_ds.py:94-98 | one more loop turn appends exactly the next variant's write |
| `Walker.Variant` | augment_ds.py:92-94 | the j-th pair yielded by `augmentations(convert_rgb(im))`; no contract of its own; see `Augment.AugmentationsSpec` and `WalkerProperties.VariantWriteSpec` |
| `Walker.VariantWrite` | augment_ds.py:95-97 | no contract of its own; see `WalkerProperties.VariantWriteSpec` |
| `Walker.VariantWrites` | augment_ds.py:94-98 | the writes the inner loop makes for its first n variants, in order; no contract of its own; see `Walker.VariantWritesNext`, `Walker.AugmentFile` and `WalkerProperties.VariantWritesMembers` |
| `Walker.CopyEffects` | augment_ds.py:80-83 | the copy of the original, when enabled and successful; no contract of its own; see `WalkerProperties.FileEffectMembers` and `WalkerProperties.CopyDoesNotDecideWrites` |
| `Walker.FileEffects` | augment_ds.py:76-97 | everything one file does once its directory exists; no contract of its own; see `WalkerProperties.FileEffectMembers` and `WalkerProperties.FileEffectsInclude` |
| `Walker.StepFile` | augment_ds.py:74-100 | one iteration of the outer loop; no contract of its own; see `Walker.ProcessFile` |
| `Walker.Walk` | augment_ds.py:72-100 | the outer loop; no contract of its own; see `WalkerProperties.WalkRaised`, `WalkerProperties.WalkCounters` and `WalkerProperties.WalkWriteCount` |
| `Walker.RunSpec` | augment_ds.py:66-104 | no contract of its own; see `Walker.ProcessDataset` and `WalkerProperties.ExitCodes` |
| `Walker.RaisedIsFinal` | augment_ds.py:77 | once an exception has escaped, later files change nothing |
| `Walker.AugmentFile` | augment_ds.py:88-100 | the inner loop writes, in order, exactly the variants before the first failure (none when opening fails), and counts exactly those |
| `Walker.ProcessFile` | augment_ds.py:74-100 | one outer iteration performs one step of the walk: it raises when mkdir fails, and otherwise adds its copy, its written variants and their effects |
| `Walker.ProcessDataset` | augment_ds.py:66-104 | the method returns exactly the specified report: outcome, both counters and the ordered effects |
| `WalkerProperties.FilterMembers` | augment_ds.py:67 | a filtered listing holds exactly the listed entries the test accepts |
| `WalkerProperties.DiscoverFilters` | augment_ds.py:67 | an entry is discovered exactly when it is listed and is an image |
| `WalkerProperties.FilterAppend` | augment_ds.py:67 | filtering a listing split in two gives the filtered first part followed by the filtered second part |
| `WalkerProperties.DiscoverAppend` | augment_ds.py:67 | discovery keeps the listing order: the images of a listing split in two are those of the first part, then those of the second |
| `WalkerProperties.WalkRaised` | augment_ds.py:77 | the run raises exactly when some image's directory cannot be made |
| `WalkerProperties.WalkCounters` | augment_ds.py:72-100 | without a mkdir failure, `num_originals` counts the copies that are enabled and succeed, and `num_augmented` counts every written variant |
| `WalkerProperties.CounterBounds` | augment_ds.py:72-100 | `num_originals` is at most the number of images and is 0 with copying off; `num_augmented` is at most 8 times the number of images |
| `WalkerProperties.WrittenCountCases` | augment_ds.py:88-100 | a file that fails to open counts 0, a failure at variant k counts k, and a fully successful file, and only such a file, counts 8 |
| `WalkerProperties.WrittenTotalAllSucceed` | augment_ds.py:94-98 | if every file fully succeeds, there are 8 variants per image |
| `WalkerProperties.CopiedTotalAllSucceed` | augment_ds.py:80-83 | if copying is on and every copy succeeds, there is one original per image |
| `WalkerProperties.AllSucceed` | augment_ds.py:66-104 | if every image succeeds, the run returns 0 with 8 variants per image, and one original per image when copying is on and every copy succeeds |
| `WalkerProperties.ExitCodes` | augment_ds.py:66-104 | the result is 1 exactly when no entry is an image, and then no counter and no file is touched; it is 0 exactly when there are images and every directory can be made; it raises otherwise |
| `WalkerProperties.DirectoryFirst` | augment_ds.py:76-77 | a file's first effect creates its mirrored directory |
| `WalkerProperties.VariantWritesMembers` | augment_ds.py:94-97 | each write of a file is one of its first `WrittenCount` variants |
| `WalkerProperties.FileEffectMembers` | augment_ds.py:74-97 | a file only makes its mirrored directory, copies itself to its relative path under the output root (when enabled and successful), and writes its own variants |
| `WalkerProperties.VariantWriteSpec` | augment_ds.py:91-97 | the j-th write goes to the mirrored directory under `{stem}__{tag}{ext}`, with the lower-cased suffix kept; it holds an RGB image that is the j-th operation on the normalised decoded image, encoded in the format that suffix selects |
| `WalkerProperties.WalkEffectsFromImages` | augment_ds.py:74-100 | every effect of the walk comes from one of its images whose directory could be made |
| `WalkerProperties.EveryEffectBelongsToAnImage` | augment_ds.py:66-104 | every write is a variant of a discovered image, every copy is of a discovered image with copying enabled, and every directory made mirrors a discovered image |
| `WalkerProperties.WalkEffectsPrefix` | augment_ds.py:74-100 | without a `mkdir` failure, the effects of the first k files are a prefix of the walk's effects |
| `WalkerProperties.WalkContainsFileEffects` | augment_ds.py:74-100 | without a `mkdir` failure, every effect of every image is an effect of the walk |
| `WalkerProperties.FileEffectsInclude` | augment_ds.py:76-97 | a file's effects include its mirrored directory, its copy when copying is enabled and succeeds, and each of its first `WrittenCount` variant writes |
| `WalkerProperties.RunContainsFileEffects` | augment_ds.py:66-104 | when the run returns 0, every discovered image's directory, its copy (when enabled and successful) and each of its first `WrittenCount` variant writes appear among the run's effects |
| `WalkerProperties.EightVariantsPerImage` | augment_ds.py:88-98 | when the run returns 0, a fully successful image has all eight variants written, at eight pairwise different paths |
| `WalkerProperties.VariantPathsDistinct` | augment_ds.py:96-97 | two different variants of one file are written to different paths |
| `WalkerProperties.InfixDistinct` | augment_ds.py:96 | names that differ only in the tag between the same stem and extension are different |
| `WalkerProperties.CountWritesAppend` | augment_ds.py:97 | the number of `write_bytes` calls of two effect lists run one after the other is the sum of their counts |
| `WalkerProperties.CountVariantWrites` | augment_ds.py:94-98 | the first n variant writes of a file are exactly n `write_bytes` calls |
| `WalkerProperties.FileWriteCount` | augment_ds.py:76-98 | one file makes exactly `WrittenCount` `write_bytes` calls |
| `WalkerProperties.WalkWriteCount` | augment_ds.py:97-98 | `num_augmented` is exactly the number of `write_bytes` calls of the walk, one per successfully written variant |
| `WalkerProperties.RunWriteCount` | augment_ds.py:66-104 | the model's augmented count is the number of `write_bytes` calls among its effects, on both outcomes; under `Raised` both are the state when `mkdir` raised, which the program never prints |
| `WalkerProperties.CaseCollision` | augment_ds.py:91-97 | two images in one directory with the same stem and suffixes equal up to case (`a.PNG`, `a.png`) write each variant to the same path |
| `WalkerProperties.CopyCollision` | augment_ds.py:82-97 | the blur variant of `a.png` is written to the path where the copy of a neighbouring `a__blur.png` goes |
| `WalkerProperties.CopyDoesNotDecideWrites` | augment_ds.py:80-97 | a failed copy, or copying turned off, leaves a file's directory and variant writes as they are |
| `WalkerProperties.CopiesDoNotDecideAugmentation` | augment_ds.py:80-100 | `num_augmented`, and whether the run raises, do not depend on the copy setting or on copy outcomes |
| `Scenario.ScenarioWalk` | augment_ds.py:72-100 | three images, one failing at its fourth variant and one whose copy fails, give 2 originals and 19 variants with copying on, and 0 originals and 19 variants with copying off |

## Left out

- Pixel semantics. `ImageOps.mirror` and `flip`, `rotate`, the `ImageEnhance` factors, `ImageFilter.BLUR` and `paste` with an alpha mask are floating-point library code. Their results are symbolic raster terms; only mode, size and provenance are modelled.
- Byte encoding. `BytesIO` and `img.save` are a foreign codec. A write records the image, the format and the options the codec is given, not the bytes.
- Filesystem and decoding calls: `rglob`, `is_file`, `mkdir`, `shutil.copy2`, `Image.open`, `load` and `write_bytes`.
  - Each is an input: the listed entries and their per-call outcomes.
  - `rglob`'s traversal order is whatever order the entries are given in.
  - Metadata preserved by `copy2` is not modelled.
- Any exception inside the augmentation `try` becomes a per-entry fact:
  - when `open`, `load` or `convert_rgb` fails, no variant is written;
  - when variant k's transform, JPEG safety step, encoding or write fails, variants 0..k-1 are written.
  - Which Pillow call raises for which input is not modelled.
- Partial results of calls that raise. The model records no effect for a call that fails:
  - a `write_bytes` that raises part-way may leave a partial file;
  - a `shutil.copy2` that raises may leave a partial copy;
  - a `mkdir(parents=True)` that raises may already have created some parent directories.
- `main`: argparse, the hard-coded default input path, the `<input>_out` default and `SystemExit`. This is command-line plumbing.
- The text of every `print` diagnostic.
- Exceptions other than the `mkdir` one, raised outside the `try` blocks: `relative_to` failing, or the interpreter being interrupted. Every listed entry lies under the input root, so `relative_to` always succeeds.
- Paths.Lower: lower-cases ASCII letters only. Python's `str.lower()` also folds non-ASCII letters, so a non-ASCII suffix is classified on its ASCII folding alone.
- Images.ApplyOpSpec: gives the size after `rotate(..., expand=True)` only for quarter turns, which are the only rotations the augmenter uses. For other angles, Pillow's enlarged bounding box is not modelled.
- The files left on disk. The model records the calls made, in order; it does not compute the final directory contents. Outputs of different images can share a path (`WalkerProperties.CaseCollision`, `WalkerProperties.CopyCollision`), and then the later write replaces the earlier file. So `num_augmented` counts `write_bytes` calls, not distinct files, and "eight output files per image" holds for the writes only. `WalkerProperties.EightVariantsPerImage` proves the paths distinct within one image only.
