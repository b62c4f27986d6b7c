/** `process_dataset`: the walk over the discovered images, the mirrored
    destination directories, the original copies, the eight variant writes
    per image, the two counters and the exit code.

    The filesystem is abstract. What `rglob` yields is given as a sequence
    of entries, and each entry carries the outcome of every filesystem or
    Pillow call made for it: whether `mkdir` succeeds, whether `copy2`
    succeeds, the image `Image.open` + `load` decode (or `None` when they,
    or the `convert_rgb` applied to their result, raise), and the index of
    the first variant whose transform, encoding or write raises (if any). What the program does to the filesystem is
    returned as the ordered list of its effects. */
module Walker {
  import opened Paths
  import opened Images
  import opened Formats
  import opened Augment

  datatype Option<T> = None | Some(value: T)

  /** One entry that `input_dir.rglob("*")` yields: its path relative to the
      input root is `dir + [name]`. */
  datatype Entry = Entry(
    dir: Path,
    name: string,
    isFile: bool,
    mkdirOk: bool,
    copyOk: bool,
    decoded: Option<Image>,
    failsAt: Option<nat>)

  /** The arguments of `process_dataset`. */
  datatype Config = Config(inputDir: Path, outputDir: Path, copyOriginals: bool)

  /** An action on the filesystem. */
  datatype Effect =
    | MakeDirs(dir: Path)                     // dest_dir.mkdir(parents=True, exist_ok=True)
    | CopyFile(from: Path, to: Path)          // shutil.copy2(src, dest_dir / src.name)
    | WriteBytes(to: Path, data: Encoded)     // (dest_dir / out_name).write_bytes(save_image(...))

  /** How the run ends: a return value, or an exception from `mkdir`, which
      is the one call outside every `try`. */
  datatype Outcome = Exited(code: int) | Raised

  /** The end of the run: its outcome, both counters and the effects made.
      Under `Raised` the counters and effects are the state at the moment
      `mkdir` raised; the program itself never prints them, since the
      exception escapes before the closing report. */
  datatype Report = Report(outcome: Outcome, originals: nat, augmented: nat, effects: seq<Effect>)

  /** The walk after some files: the two counters, the effects so far, and
      whether an exception has escaped. */
  datatype WalkState = WalkState(originals: nat, augmented: nat, effects: seq<Effect>, raised: bool)

  predicate IsImage(e: Entry)
  {
    TrueImage(e.isFile, e.name)
  }

  /** The entries of a listing that `keep` accepts, in listing order. */
  function Filter(entries: seq<Entry>, keep: Entry -> bool): (kept: seq<Entry>)
    ensures |kept| <= |entries|
  {
    if entries == [] then []
    else (if keep(entries[0]) then [entries[0]] else []) + Filter(entries[1..], keep)
  }

  /** `[p for p in input_dir.rglob("*") if true_image(p)]`. */
  function Discover(entries: seq<Entry>): seq<Entry>
  {
    Filter(entries, IsImage)
  }

  /** `src.relative_to(input_dir)`. */
  function RelPath(e: Entry): Path
  {
    e.dir + [e.name]
  }

  function SourcePath(cfg: Config, e: Entry): Path
  {
    cfg.inputDir + RelPath(e)
  }

  /** `(output_dir / rel).parent`. */
  function DestDir(cfg: Config, e: Entry): Path
  {
    Parent(cfg.outputDir + RelPath(e))
  }

  /** `src.suffix.lower()`. */
  function Ext(e: Entry): string
  {
    Lower(Suffix(e.name))
  }

  /** `f"{src.stem}__{suffix}{ext}"`. */
  function VariantName(name: string, tag: string): string
  {
    Stem(name) + "__" + tag + Lower(Suffix(name))
  }

  /** The destination directory mirrors the source's directory under the
      output root, and the copy of the original lands at the source's
      relative path under the output root. */
  lemma DestDirMirrors(cfg: Config, e: Entry)
    ensures DestDir(cfg, e) == cfg.outputDir + e.dir
    ensures DestDir(cfg, e) + [e.name] == cfg.outputDir + RelPath(e)
  {
    assert cfg.outputDir + RelPath(e) == (cfg.outputDir + e.dir) + [e.name];
  }

  /** A variant's name keeps the source's stem in front and its lower-cased
      suffix as its own suffix. */
  lemma VariantNameKeepsExtension(name: string, j: nat)
    requires HasSuffix(name) && j < |Tags|
    ensures Suffix(VariantName(name, Tags[j])) == Lower(Suffix(name))
    ensures Stem(VariantName(name, Tags[j])) == Stem(name) + "__" + Tags[j]
  {
    var ext := Lower(Suffix(name));
    forall k | 0 < k < |ext| ensures ext[k] != '.' {
      LowerCharDot(Suffix(name)[k]);
    }
    LowerCharDot('.');
    assert VariantName(name, Tags[j]) == (Stem(name) + "__" + Tags[j]) + ext;
    SuffixOfAppend(Stem(name) + "__" + Tags[j], ext);
  }

  /** How many variants of `e` are written: none when opening fails, those
      before the failing one, or all eight. */
  function WrittenCount(e: Entry): (n: nat)
    ensures n <= NumVariants
  {
    if e.decoded.None? then 0
    else if e.failsAt.Some? && e.failsAt.value < NumVariants then e.failsAt.value
    else NumVariants
  }

  /** The variants before the failing one, and no more, are written. */
  lemma WrittenCountBound(e: Entry, j: nat)
    requires e.decoded.Some? && j <= WrittenCount(e)
    ensures j < WrittenCount(e) <==> j < NumVariants && e.failsAt != Some(j)
  {
  }

  /** The j-th `(suffix, aug)` pair of `augmentations(convert_rgb(im))`. */
  function Variant(e: Entry, j: nat): (string, Image)
    requires e.decoded.Some? && j < NumVariants
  {
    Augmentations(ConvertRgb(e.decoded.value, White))[j]
  }

  /** The write of the j-th variant of `e`. */
  function VariantWrite(cfg: Config, e: Entry, j: nat): Effect
    requires e.decoded.Some? && j < NumVariants
  {
    var v := Variant(e, j);
    var aug := GuaranteeRgbForJpeg(v.1, Ext(e));
    WriteBytes(DestDir(cfg, e) + [VariantName(e.name, v.0)], Encoding(aug, Ext(e)))
  }

  /** The writes of the first n variants of `e`, in order. */
  function VariantWrites(cfg: Config, e: Entry, n: nat): seq<Effect>
    requires n <= NumVariants && (n > 0 ==> e.decoded.Some?)
  {
    seq(n, j requires 0 <= j < n => VariantWrite(cfg, e, j))
  }

  /** The writes of n + 1 variants are those of n, then the n-th. */
  lemma VariantWritesNext(cfg: Config, e: Entry, n: nat, writes: seq<Effect>)
    requires n < NumVariants && e.decoded.Some? && writes == VariantWrites(cfg, e, n)
    ensures VariantWrites(cfg, e, n + 1) == writes + [VariantWrite(cfg, e, n)]
  {
  }

  /** The copy of the original, when enabled and successful. */
  function CopyEffects(cfg: Config, e: Entry): seq<Effect>
  {
    if cfg.copyOriginals && e.copyOk then [CopyFile(SourcePath(cfg, e), DestDir(cfg, e) + [e.name])]
    else []
  }

  /** Everything one file does to the filesystem once its directory exists. */
  function FileEffects(cfg: Config, e: Entry): seq<Effect>
  {
    [MakeDirs(DestDir(cfg, e))] + CopyEffects(cfg, e) + VariantWrites(cfg, e, WrittenCount(e))
  }

  /** One iteration of `for src in images`. */
  function StepFile(cfg: Config, st: WalkState, e: Entry): WalkState
  {
    if st.raised then st
    else if !e.mkdirOk then st.(raised := true)
    else WalkState(st.originals + |CopyEffects(cfg, e)|, st.augmented + WrittenCount(e),
                   st.effects + FileEffects(cfg, e), false)
  }

  /** The walk over `images`, one file after the other. */
  function Walk(cfg: Config, images: seq<Entry>): WalkState
  {
    if images == [] then WalkState(0, 0, [], false)
    else StepFile(cfg, Walk(cfg, images[..|images| - 1]), images[|images| - 1])
  }

  /** `process_dataset` as a function of its arguments and the environment. */
  function RunSpec(cfg: Config, entries: seq<Entry>): Report
  {
    var images := Discover(entries);
    if images == [] then Report(Exited(1), 0, 0, [])
    else
      var st := Walk(cfg, images);
      Report(if st.raised then Raised else Exited(0), st.originals, st.augmented, st.effects)
  }

  /** Once an exception has escaped, later files change nothing. */
  lemma {:induction false} RaisedIsFinal(cfg: Config, images: seq<Entry>, k: nat)
    requires k <= |images| && Walk(cfg, images[..k]).raised
    ensures Walk(cfg, images) == Walk(cfg, images[..k])
    decreases |images|
  {
    if k == |images| {
      assert images[..k] == images;
    } else {
      var init := images[..|images| - 1];
      assert init[..k] == images[..k];
      RaisedIsFinal(cfg, init, k);
    }
  }

  /** The walk over one more file is one more step. */
  lemma WalkNext(cfg: Config, images: seq<Entry>, i: nat)
    requires i < |images|
    ensures Walk(cfg, images[..i + 1]) == StepFile(cfg, Walk(cfg, images[..i]), images[i])
  {
    assert images[..i + 1][..i] == images[..i];
  }

  /** The effects of one file, appended piece by piece (a proof step of
      `ProcessFile`). */
  lemma FileEffectsSplit(cfg: Config, src: Entry, head: seq<Effect>, writes: seq<Effect>)
    requires head == [MakeDirs(DestDir(cfg, src))] + CopyEffects(cfg, src)
    requires writes == VariantWrites(cfg, src, WrittenCount(src))
    ensures head + writes == FileEffects(cfg, src)
  {
  }

  /** The `try` block that augments one file: the variants of the decoded
      image, each made JPEG-safe, encoded and written under `destDir`, up
      to the first one that raises. */
  method AugmentFile(cfg: Config, src: Entry, destDir: Path) returns (written: nat, writes: seq<Effect>)
    requires destDir == DestDir(cfg, src)
    ensures written == WrittenCount(src)
    ensures writes == VariantWrites(cfg, src, WrittenCount(src))
  {
    written, writes := 0, [];
    if src.decoded.None? {
      return;
    }
    var ext := Lower(Suffix(src.name));
    var base := ConvertRgb(src.decoded.value, White);
    var variants := Augmentations(base);
    while written < |variants| && src.failsAt != Some(written)
      invariant written <= WrittenCount(src)
      invariant writes == VariantWrites(cfg, src, written)
    {
      var aug := GuaranteeRgbForJpeg(variants[written].1, ext);
      var outName := VariantName(src.name, variants[written].0);
      var data := SaveImage(aug, ext);
      assert variants[written] == Variant(src, written);
      VariantWritesNext(cfg, src, written, writes);
      writes := writes + [WriteBytes(destDir + [outName], data)];
      WrittenCountBound(src, written);
      written := written + 1;
    }
    WrittenCountBound(src, written);
  }

  /** One iteration of the loop of `process_dataset`: make the destination
      directory (an exception there is not caught), copy the original if
      enabled, then augment. `ok` is false when `mkdir` raised; otherwise
      the counters grow by `copied` and `written` and the effects by
      `effects`, as one step of the walk from any state `st` says. */
  method ProcessFile(cfg: Config, src: Entry, ghost st: WalkState)
    returns (ok: bool, copied: nat, written: nat, effects: seq<Effect>)
    requires !st.raised
    ensures StepFile(cfg, st, src) ==
      if ok then WalkState(st.originals + copied, st.augmented + written, st.effects + effects, false)
      else st.(raised := true)
  {
    ok, copied, written, effects := src.mkdirOk, 0, 0, [];
    var destDir := Parent(cfg.outputDir + (src.dir + [src.name]));
    if !src.mkdirOk {
      return;
    }
    effects := [MakeDirs(destDir)];
    if cfg.copyOriginals {
      if src.copyOk {
        effects := effects + [CopyFile(cfg.inputDir + (src.dir + [src.name]), destDir + [src.name])];
        copied := 1;
      }
    }
    ghost var head := effects;
    var writes;
    written, writes := AugmentFile(cfg, src, destDir);
    effects := effects + writes;
    FileEffectsSplit(cfg, src, head, writes);
  }

  /** `process_dataset`: discovery, then the loop over the images. */
  method ProcessDataset(cfg: Config, entries: seq<Entry>) returns (r: Report)
    ensures r == RunSpec(cfg, entries)
  {
    var images := Discover(entries);
    if |images| == 0 {
      return Report(Exited(1), 0, 0, []);
    }
    var numOriginals: nat, numAugmented: nat := 0, 0;
    var effects: seq<Effect> := [];
    for i := 0 to |images|
      invariant Walk(cfg, images[..i]) == WalkState(numOriginals, numAugmented, effects, false)
    {
      WalkNext(cfg, images, i);
      var ok, copied, written, fileEffects :=
        ProcessFile(cfg, images[i], WalkState(numOriginals, numAugmented, effects, false));
      if !ok {
        RaisedIsFinal(cfg, images, i + 1);
        return Report(Raised, numOriginals, numAugmented, effects);
      }
      numOriginals, numAugmented := numOriginals + copied, numAugmented + written;
      effects := effects + fileEffects;
    }
    assert images[..|images|] == images;
    return Report(Exited(0), numOriginals, numAugmented, effects);
  }
}
