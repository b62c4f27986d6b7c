/** What `process_dataset` promises, stated about its specification `RunSpec`
    and the walk beneath it: which entries are processed, the exit code,
    how far the counters go, where every written file lands and what it
    holds, and that the copy of an original never decides the variants. */
module WalkerProperties {
  import opened Paths
  import opened Images
  import opened Formats
  import opened Augment
  import opened Walker

  /** A filter keeps exactly the listed entries that `keep` accepts. */
  lemma {:induction false} FilterMembers(entries: seq<Entry>, keep: Entry -> bool)
    ensures forall e :: e in Filter(entries, keep) <==> e in entries && keep(e)
  {
    if entries != [] {
      FilterMembers(entries[1..], keep);
      assert entries == [entries[0]] + entries[1..];
    }
  }

  /** Discovery keeps exactly the entries that are images. */
  lemma DiscoverFilters(entries: seq<Entry>)
    ensures forall e :: e in Discover(entries) <==> e in entries && IsImage(e)
  {
    FilterMembers(entries, IsImage);
  }

  /** Filtering a listing split in two filters each part, in order. */
  lemma {:induction false} FilterAppend(a: seq<Entry>, b: seq<Entry>, keep: Entry -> bool)
    ensures Filter(a + b, keep) == Filter(a, keep) + Filter(b, keep)
  {
    if a == [] {
      assert a + b == b;
    } else {
      var ab := a + b;
      assert ab[0] == a[0] && ab[1..] == a[1..] + b;
      var h := if keep(a[0]) then [a[0]] else [];
      assert Filter(a, keep) == h + Filter(a[1..], keep);
      assert Filter(ab, keep) == h + Filter(a[1..] + b, keep);
      FilterAppend(a[1..], b, keep);
    }
  }

  /** Discovery keeps the order in which entries are listed: the images of
      a listing split in two are the images of the first part, then those of
      the second. */
  lemma DiscoverAppend(a: seq<Entry>, b: seq<Entry>)
    ensures Discover(a + b) == Discover(a) + Discover(b)
  {
    FilterAppend(a, b, IsImage);
  }

  /** Every directory of the walk could be made. */
  predicate AllDirsMade(images: seq<Entry>)
  {
    forall k :: 0 <= k < |images| ==> images[k].mkdirOk
  }

  /** The variants written for all of `images`. */
  function WrittenTotal(images: seq<Entry>): nat
  {
    if images == [] then 0
    else WrittenTotal(images[..|images| - 1]) + WrittenCount(images[|images| - 1])
  }

  /** The originals copied for all of `images`. */
  function CopiedTotal(cfg: Config, images: seq<Entry>): nat
  {
    if images == [] then 0
    else
      var copied := if cfg.copyOriginals && images[|images| - 1].copyOk then 1 else 0;
      CopiedTotal(cfg, images[..|images| - 1]) + copied
  }

  /** One step raises exactly when the walk had already raised or the
      file's directory cannot be made. */
  lemma StepRaised(cfg: Config, st: WalkState, e: Entry)
    ensures StepFile(cfg, st, e).raised <==> st.raised || !e.mkdirOk
  {
  }

  /** The run raises exactly when some directory cannot be made. */
  lemma {:induction false} WalkRaised(cfg: Config, images: seq<Entry>)
    ensures Walk(cfg, images).raised <==> !AllDirsMade(images)
  {
    if images != [] {
      var init, last := images[..|images| - 1], images[|images| - 1];
      WalkRaised(cfg, init);
      StepRaised(cfg, Walk(cfg, init), last);
      assert forall k :: 0 <= k < |init| ==> init[k] == images[k];
      assert AllDirsMade(images) <==> AllDirsMade(init) && last.mkdirOk;
    }
  }

  /** When every directory can be made, the counters are the totals over
      all images: a copy counts exactly when it is enabled and succeeds,
      and every written variant counts once. */
  lemma {:induction false} WalkCounters(cfg: Config, images: seq<Entry>)
    requires AllDirsMade(images)
    ensures Walk(cfg, images).originals == CopiedTotal(cfg, images)
    ensures Walk(cfg, images).augmented == WrittenTotal(images)
  {
    if images != [] {
      var init := images[..|images| - 1];
      assert AllDirsMade(init) by {
        assert forall k :: 0 <= k < |init| ==> init[k] == images[k];
      }
      WalkCounters(cfg, init);
      WalkRaised(cfg, init);
    }
  }

  /** The counters never exceed one original and eight variants per image,
      and no original is counted when copying is off. */
  lemma {:induction false} CounterBounds(cfg: Config, images: seq<Entry>)
    ensures Walk(cfg, images).originals <= |images|
    ensures Walk(cfg, images).augmented <= NumVariants * |images|
    ensures !cfg.copyOriginals ==> Walk(cfg, images).originals == 0
  {
    if images != [] {
      CounterBounds(cfg, images[..|images| - 1]);
    }
  }

  /** A file whose pipeline fully succeeds: it opens, and no variant raises. */
  predicate FullySucceeds(e: Entry)
  {
    e.decoded.Some? && (e.failsAt.None? || e.failsAt.value >= NumVariants)
  }

  lemma {:induction false} WrittenTotalAllSucceed(images: seq<Entry>)
    requires forall k :: 0 <= k < |images| ==> FullySucceeds(images[k])
    ensures WrittenTotal(images) == NumVariants * |images|
  {
    if images != [] {
      var init := images[..|images| - 1];
      assert forall k :: 0 <= k < |init| ==> init[k] == images[k];
      WrittenTotalAllSucceed(init);
      assert FullySucceeds(images[|images| - 1]);
    }
  }

  lemma {:induction false} CopiedTotalAllSucceed(cfg: Config, images: seq<Entry>)
    requires cfg.copyOriginals
    requires forall k :: 0 <= k < |images| ==> images[k].copyOk
    ensures CopiedTotal(cfg, images) == |images|
  {
    if images != [] {
      var init := images[..|images| - 1];
      assert forall k :: 0 <= k < |init| ==> init[k] == images[k];
      CopiedTotalAllSucceed(cfg, init);
    }
  }

  /** A failure at variant k counts k and skips the rest; a file that fails
      to open counts none; a file that fully succeeds counts eight. */
  lemma WrittenCountCases(e: Entry)
    ensures e.decoded.None? ==> WrittenCount(e) == 0
    ensures e.decoded.Some? && e.failsAt.Some? && e.failsAt.value < NumVariants ==>
      WrittenCount(e) == e.failsAt.value
    ensures FullySucceeds(e) <==> WrittenCount(e) == NumVariants
  {
  }

  /** `process_dataset` with every image fully succeeding writes eight
      variants per image, and copies every original when copying is on
      and every copy succeeds. */
  lemma AllSucceed(cfg: Config, entries: seq<Entry>)
    requires forall e :: e in entries && IsImage(e) ==> e.mkdirOk && FullySucceeds(e)
    requires Discover(entries) != []
    ensures RunSpec(cfg, entries).outcome == Exited(0)
    ensures RunSpec(cfg, entries).augmented == NumVariants * |Discover(entries)|
    ensures cfg.copyOriginals && (forall e :: e in entries && IsImage(e) ==> e.copyOk) ==>
      RunSpec(cfg, entries).originals == |Discover(entries)|
  {
    var images := Discover(entries);
    DiscoverFilters(entries);
    assert forall k :: 0 <= k < |images| ==> images[k] in images;
    WalkRaised(cfg, images);
    WalkCounters(cfg, images);
    WrittenTotalAllSucceed(images);
    if cfg.copyOriginals && (forall e :: e in entries && IsImage(e) ==> e.copyOk) {
      CopiedTotalAllSucceed(cfg, images);
    }
  }

  /** The exit code is 1 exactly when no entry is an image, and then no
      counter and no file is touched; otherwise the run returns 0 unless a
      directory cannot be made, in which case the exception escapes. */
  lemma ExitCodes(cfg: Config, entries: seq<Entry>)
    ensures RunSpec(cfg, entries).outcome == Exited(1) <==> forall e :: e in entries ==> !IsImage(e)
    ensures RunSpec(cfg, entries).outcome == Exited(1) ==> RunSpec(cfg, entries) == Report(Exited(1), 0, 0, [])
    ensures RunSpec(cfg, entries).outcome == Exited(0) <==>
      Discover(entries) != [] && AllDirsMade(Discover(entries))
    ensures RunSpec(cfg, entries).outcome == Raised <==>
      Discover(entries) != [] && !AllDirsMade(Discover(entries))
    ensures RunSpec(cfg, entries).outcome.Exited? ==> RunSpec(cfg, entries).outcome.code in {0, 1}
  {
    var images := Discover(entries);
    DiscoverFilters(entries);
    if images != [] {
      assert images[0] in images;
      WalkRaised(cfg, images);
    }
  }

  /** The first effect of a file is the creation of its mirrored directory. */
  lemma DirectoryFirst(cfg: Config, e: Entry)
    ensures |FileEffects(cfg, e)| > 0 && FileEffects(cfg, e)[0] == MakeDirs(cfg.outputDir + e.dir)
  {
    DestDirMirrors(cfg, e);
  }

  /** The writes of a file are its first `WrittenCount` variants. */
  lemma VariantWritesMembers(cfg: Config, e: Entry, eff: Effect)
    requires eff in VariantWrites(cfg, e, WrittenCount(e))
    ensures exists j :: 0 <= j < WrittenCount(e) && eff == VariantWrite(cfg, e, j)
  {
    var writes := VariantWrites(cfg, e, WrittenCount(e));
    var j :| 0 <= j < |writes| && writes[j] == eff;
  }

  /** What one file does: make its mirrored directory, copy the original to
      the source's relative path under the output root (only when copying
      is enabled and the copy succeeds), and write some of its variants. */
  lemma FileEffectMembers(cfg: Config, e: Entry, eff: Effect)
    requires eff in FileEffects(cfg, e)
    ensures eff.MakeDirs? ==> eff == MakeDirs(cfg.outputDir + e.dir)
    ensures eff.CopyFile? ==>
      cfg.copyOriginals && e.copyOk && eff == CopyFile(cfg.inputDir + RelPath(e), cfg.outputDir + RelPath(e))
    ensures eff.WriteBytes? ==>
      e.decoded.Some? && exists j :: 0 <= j < WrittenCount(e) && eff == VariantWrite(cfg, e, j)
  {
    DestDirMirrors(cfg, e);
    var writes := VariantWrites(cfg, e, WrittenCount(e));
    if eff in writes {
      VariantWritesMembers(cfg, e, eff);
    }
  }

  /** What the j-th variant write of an image is: a file in the mirrored
      directory, named from the stem, the tag and the lower-cased suffix,
      holding an RGB image one operation away from the normalised decoded
      image, encoded with the format the lower-cased suffix selects. */
  lemma VariantWriteSpec(cfg: Config, e: Entry, j: nat)
    requires IsImage(e) && e.decoded.Some? && j < NumVariants
    ensures VariantWrite(cfg, e, j).to == cfg.outputDir + e.dir + [VariantName(e.name, Tags[j])]
    ensures Suffix(VariantName(e.name, Tags[j])) == Ext(e)
    ensures Stem(VariantName(e.name, Tags[j])) == Stem(e.name) + "__" + Tags[j]
    ensures VariantWrite(cfg, e, j).data.image == ApplyOp(Ops[j], ConvertRgb(e.decoded.value, White))
    ensures VariantWrite(cfg, e, j).data.image.mode == "RGB"
    ensures VariantWrite(cfg, e, j).data.image.raster ==
      Transformed(Ops[j], ConvertRgb(e.decoded.value, White).raster)
    ensures VariantWrite(cfg, e, j).data.format == FormatFor(Ext(e))
    ensures VariantWrite(cfg, e, j).data == Encoding(VariantWrite(cfg, e, j).data.image, Ext(e))
  {
    var base := ConvertRgb(e.decoded.value, White);
    ConvertRgbSpec(e.decoded.value, White);
    AugmentationsSpec(base, j);
    VariantsOfRgbAreSafe(base, Ext(e), j);
    DestDirMirrors(cfg, e);
    TrueImageHasSuffix(e.isFile, e.name);
    VariantNameKeepsExtension(e.name, j);
  }

  /** Every effect of the walk is an effect of one of its images whose
      directory could be made. */
  lemma {:induction false} WalkEffectsFromImages(cfg: Config, images: seq<Entry>, eff: Effect)
    requires eff in Walk(cfg, images).effects
    ensures exists e :: e in images && e.mkdirOk && eff in FileEffects(cfg, e)
  {
    var init := images[..|images| - 1];
    var last := images[|images| - 1];
    if eff in Walk(cfg, init).effects {
      WalkEffectsFromImages(cfg, init, eff);
      var e :| e in init && e.mkdirOk && eff in FileEffects(cfg, e);
      assert e in images;
    } else {
      assert last in images;
    }
  }

  /** Every file `process_dataset` writes is one of the first `WrittenCount`
      variants of a discovered image (so it holds an RGB image, in the
      mirrored directory, under the name `VariantWriteSpec` gives), and every
      original it copies is a discovered image with copying enabled. */
  lemma EveryEffectBelongsToAnImage(cfg: Config, entries: seq<Entry>, eff: Effect)
    requires eff in RunSpec(cfg, entries).effects
    ensures eff.WriteBytes? ==>
      exists e, j ::
        e in entries && IsImage(e) && e.mkdirOk && e.decoded.Some? && 0 <= j < WrittenCount(e) <= NumVariants &&
        eff == VariantWrite(cfg, e, j)
    ensures eff.CopyFile? ==>
      exists e :: e in entries && IsImage(e) && cfg.copyOriginals && e.copyOk &&
        eff == CopyFile(cfg.inputDir + RelPath(e), cfg.outputDir + RelPath(e))
    ensures eff.MakeDirs? ==>
      exists e :: e in entries && IsImage(e) && eff == MakeDirs(cfg.outputDir + e.dir)
  {
    var images := Discover(entries);
    DiscoverFilters(entries);
    WalkEffectsFromImages(cfg, images, eff);
    var e :| e in images && e.mkdirOk && eff in FileEffects(cfg, e);
    FileEffectMembers(cfg, e, eff);
  }

  /** The effects of the first k files start the effects of the walk. */
  lemma {:induction false} WalkEffectsPrefix(cfg: Config, images: seq<Entry>, k: nat)
    requires k <= |images| && AllDirsMade(images)
    ensures Walk(cfg, images[..k]).effects <= Walk(cfg, images).effects
    decreases |images|
  {
    if k == |images| {
      assert images[..k] == images;
    } else {
      var init := images[..|images| - 1];
      assert AllDirsMade(init) by {
        assert forall j :: 0 <= j < |init| ==> init[j] == images[j];
      }
      WalkRaised(cfg, init);
      assert init[..k] == images[..k];
      WalkEffectsPrefix(cfg, init, k);
    }
  }

  /** Every effect of a file is an effect of the walk, once no directory
      fails: nothing a file does is lost. */
  lemma WalkContainsFileEffects(cfg: Config, images: seq<Entry>, i: nat, eff: Effect)
    requires i < |images| && AllDirsMade(images) && eff in FileEffects(cfg, images[i])
    ensures eff in Walk(cfg, images).effects
  {
    var pre := images[..i];
    assert AllDirsMade(pre) by {
      assert forall j :: 0 <= j < |pre| ==> pre[j] == images[j];
    }
    WalkRaised(cfg, pre);
    WalkNext(cfg, images, i);
    WalkEffectsPrefix(cfg, images, i + 1);
    assert eff in Walk(cfg, images[..i + 1]).effects;
  }

  /** What one file does, read the other way round: its directory, its copy
      when enabled and successful, and each of its first `WrittenCount`
      variants are all among its effects. */
  lemma FileEffectsInclude(cfg: Config, e: Entry)
    ensures MakeDirs(cfg.outputDir + e.dir) in FileEffects(cfg, e)
    ensures cfg.copyOriginals && e.copyOk ==>
      CopyFile(cfg.inputDir + RelPath(e), cfg.outputDir + RelPath(e)) in FileEffects(cfg, e)
    ensures forall j :: 0 <= j < WrittenCount(e) ==> VariantWrite(cfg, e, j) in FileEffects(cfg, e)
  {
    DestDirMirrors(cfg, e);
    var writes := VariantWrites(cfg, e, WrittenCount(e));
    assert forall j :: 0 <= j < WrittenCount(e) ==> writes[j] == VariantWrite(cfg, e, j);
  }

  /** In a run that returns 0, every discovered image has made its mirrored
      directory, copied its original when copying is on and the copy
      succeeds, and written each of its first `WrittenCount` variants. */
  lemma RunContainsFileEffects(cfg: Config, entries: seq<Entry>, e: Entry)
    requires RunSpec(cfg, entries).outcome == Exited(0)
    requires e in entries && IsImage(e)
    ensures MakeDirs(cfg.outputDir + e.dir) in RunSpec(cfg, entries).effects
    ensures cfg.copyOriginals && e.copyOk ==>
      CopyFile(cfg.inputDir + RelPath(e), cfg.outputDir + RelPath(e)) in RunSpec(cfg, entries).effects
    ensures forall j :: 0 <= j < WrittenCount(e) ==> VariantWrite(cfg, e, j) in RunSpec(cfg, entries).effects
  {
    var images := Discover(entries);
    DiscoverFilters(entries);
    WalkRaised(cfg, images);
    var i :| 0 <= i < |images| && images[i] == e;
    FileEffectsInclude(cfg, e);
    forall eff | eff in FileEffects(cfg, e)
      ensures eff in Walk(cfg, images).effects
    {
      WalkContainsFileEffects(cfg, images, i, eff);
    }
  }

  /** A discovered image that fully succeeds, in a run that returns 0, has
      all eight variants written, one per tag, at eight different paths. */
  lemma EightVariantsPerImage(cfg: Config, entries: seq<Entry>, e: Entry)
    requires RunSpec(cfg, entries).outcome == Exited(0)
    requires e in entries && IsImage(e) && FullySucceeds(e)
    ensures forall j :: 0 <= j < NumVariants ==> VariantWrite(cfg, e, j) in RunSpec(cfg, entries).effects
    ensures forall j, k :: 0 <= j < k < NumVariants ==> VariantWrite(cfg, e, j).to != VariantWrite(cfg, e, k).to
  {
    RunContainsFileEffects(cfg, entries, e);
    forall j, k | 0 <= j < k < NumVariants
      ensures VariantWrite(cfg, e, j).to != VariantWrite(cfg, e, k).to
    {
      VariantPathsDistinct(cfg, e, j, k);
    }
  }

  /** Two different variants of a file go to two different paths. */
  lemma VariantPathsDistinct(cfg: Config, e: Entry, j: nat, k: nat)
    requires e.decoded.Some? && j < k < NumVariants
    ensures VariantWrite(cfg, e, j).to != VariantWrite(cfg, e, k).to
  {
    TagsDistinct(j, k);
    AugmentationsSpec(ConvertRgb(e.decoded.value, White), j);
    AugmentationsSpec(ConvertRgb(e.decoded.value, White), k);
    var d := DestDir(cfg, e);
    var nj := Stem(e.name) + "__" + Tags[j] + Ext(e);
    var nk := Stem(e.name) + "__" + Tags[k] + Ext(e);
    InfixDistinct(Stem(e.name) + "__", Tags[j], Tags[k], Ext(e));
    assert (d + [nj])[|d|] == nj && (d + [nk])[|d|] == nk;
  }

  /** Names that differ only in a middle part differ when the parts do. */
  lemma InfixDistinct(p: string, a: string, b: string, x: string)
    requires a != b
    ensures p + a + x != p + b + x
  {
    if |a| == |b| {
      var i :| 0 <= i < |a| && a[i] != b[i];
      assert (p + a + x)[|p| + i] == a[i];
      assert (p + b + x)[|p| + i] == b[i];
    }
  }

  /** Two images in one directory whose names differ only in the case of
      the suffix (`a.PNG` and `a.png`) write each variant to the same path:
      the later write replaces the earlier file. */
  lemma CaseCollision(cfg: Config, a: Entry, b: Entry, j: nat)
    requires a.dir == b.dir && a.decoded.Some? && b.decoded.Some? && j < NumVariants
    requires Stem(a.name) == Stem(b.name) && Lower(Suffix(a.name)) == Lower(Suffix(b.name))
    ensures VariantWrite(cfg, a, j).to == VariantWrite(cfg, b, j).to
  {
    DestDirMirrors(cfg, a);
    DestDirMirrors(cfg, b);
    AugmentationsSpec(ConvertRgb(a.decoded.value, White), j);
    AugmentationsSpec(ConvertRgb(b.decoded.value, White), j);
  }

  /** A variant of one image can land where the copy of another image goes:
      the blur variant of `a.png` and the copy of a neighbouring
      `a__blur.png` share a path. */
  lemma CopyCollision(cfg: Config, a: Entry, b: Entry)
    requires a.dir == b.dir && a.decoded.Some? && b.name == VariantName(a.name, Tags[NumVariants - 1])
    ensures VariantWrite(cfg, a, NumVariants - 1).to == cfg.outputDir + RelPath(b)
  {
    DestDirMirrors(cfg, a);
    DestDirMirrors(cfg, b);
    AugmentationsSpec(ConvertRgb(a.decoded.value, White), NumVariants - 1);
  }

  /** The number of `write_bytes` calls. */
  function CountWrites(effects: seq<Effect>): nat
  {
    if effects == [] then 0
    else CountWrites(effects[..|effects| - 1]) + (if effects[|effects| - 1].WriteBytes? then 1 else 0)
  }

  lemma {:induction false} CountWritesAppend(a: seq<Effect>, b: seq<Effect>)
    ensures CountWrites(a + b) == CountWrites(a) + CountWrites(b)
    decreases |b|
  {
    if b == [] {
      assert a + b == a;
    } else {
      assert (a + b)[..|a + b| - 1] == a + b[..|b| - 1];
      CountWritesAppend(a, b[..|b| - 1]);
    }
  }

  lemma {:induction false} CountVariantWrites(cfg: Config, e: Entry, n: nat)
    requires n <= NumVariants && (n > 0 ==> e.decoded.Some?)
    ensures CountWrites(VariantWrites(cfg, e, n)) == n
  {
    if n > 0 {
      CountVariantWrites(cfg, e, n - 1);
      VariantWritesNext(cfg, e, n - 1, VariantWrites(cfg, e, n - 1));
      CountWritesAppend(VariantWrites(cfg, e, n - 1), [VariantWrite(cfg, e, n - 1)]);
    }
  }

  /** One file makes exactly `WrittenCount` `write_bytes` calls. */
  lemma FileWriteCount(cfg: Config, e: Entry)
    ensures CountWrites(FileEffects(cfg, e)) == WrittenCount(e)
  {
    var head := [MakeDirs(DestDir(cfg, e))] + CopyEffects(cfg, e);
    assert CountWrites(head) == 0 by {
      var d: seq<Effect> := [MakeDirs(DestDir(cfg, e))];
      assert d[..0] == [] && CountWrites(d) == 0;
      if cfg.copyOriginals && e.copyOk {
        assert head[..1] == d;
      } else {
        assert head == d;
      }
    }
    CountWritesAppend(head, VariantWrites(cfg, e, WrittenCount(e)));
    CountVariantWrites(cfg, e, WrittenCount(e));
  }

  /** `num_augmented` rises by one per `write_bytes` call, and by nothing
      else. */
  lemma {:induction false} WalkWriteCount(cfg: Config, images: seq<Entry>)
    ensures Walk(cfg, images).augmented == CountWrites(Walk(cfg, images).effects)
  {
    if images != [] {
      var init := images[..|images| - 1];
      var last := images[|images| - 1];
      WalkWriteCount(cfg, init);
      FileWriteCount(cfg, last);
      CountWritesAppend(Walk(cfg, init).effects, FileEffects(cfg, last));
    }
  }

  /** The augmented count in the report is the number of `write_bytes`
      calls, whichever way the run ends. */
  lemma RunWriteCount(cfg: Config, entries: seq<Entry>)
    ensures RunSpec(cfg, entries).augmented == CountWrites(RunSpec(cfg, entries).effects)
  {
    WalkWriteCount(cfg, Discover(entries));
  }

  /** A copy that fails, or copying turned off, changes nothing in the
      file's directory and variant writes: only the copy itself is gone. */
  lemma CopyDoesNotDecideWrites(cfg: Config, e: Entry, b: bool)
    ensures WrittenCount(e.(copyOk := b)) == WrittenCount(e)
    ensures FileEffects(cfg, e.(copyOk := b)) ==
      [MakeDirs(DestDir(cfg, e))] + CopyEffects(cfg, e.(copyOk := b)) + VariantWrites(cfg, e, WrittenCount(e))
    ensures FileEffects(cfg.(copyOriginals := b), e) ==
      [MakeDirs(DestDir(cfg, e))] + CopyEffects(cfg.(copyOriginals := b), e) + VariantWrites(cfg, e, WrittenCount(e))
  {
    var n := WrittenCount(e);
    assert VariantWrites(cfg, e.(copyOk := b), n) == VariantWrites(cfg, e, n);
    assert VariantWrites(cfg.(copyOriginals := b), e, n) == VariantWrites(cfg, e, n);
  }

  /** The augmented counter and the way the run ends do not depend on
      whether copies are made or succeed. */
  lemma {:induction false} CopiesDoNotDecideAugmentation(cfg: Config, images: seq<Entry>, other: seq<Entry>, b: bool)
    requires |other| == |images|
    requires forall k :: 0 <= k < |images| ==> other[k] == images[k].(copyOk := other[k].copyOk)
    ensures Walk(cfg.(copyOriginals := b), other).augmented == Walk(cfg, images).augmented
    ensures Walk(cfg.(copyOriginals := b), other).raised == Walk(cfg, images).raised
  {
    if images != [] {
      var n := |images| - 1;
      assert forall k :: 0 <= k < n ==> other[..n][k] == images[..n][k].(copyOk := other[..n][k].copyOk);
      CopiesDoNotDecideAugmentation(cfg, images[..n], other[..n], b);
      assert WrittenCount(other[n]) == WrittenCount(images[n]);
    }
  }
}
