/** `shuffle_pixels` and `recover_pixels`: shuffle permutes the rows and the columns
    of a decoded image with two index arrays drawn from a generator, and records
    them in an index archive when no seed was given; recover obtains the same two
    arrays again, from the seed or from the archive, and applies their argsorts.

    The image codec is outside the model: an image enters already decoded, as a
    PixelArray, and what a run hands to `Image.save` is recorded, not encoded. */
module PixelPuzzle {
  import opened Wrappers
  import opened Permutations
  import opened PixelArrays
  import opened Generators

  /** The table `scale_of_image_quality`, from quality name to JPEG quality. */
  const QualityScale: map<string, nat> := map["low" := 30, "medium" := 75, "high" := 95]

  /** `scale_of_image_quality[image_quality]`; None is the KeyError. */
  function QualityLevel(key: string): (r: Option<nat>)
    ensures r.Some? <==> key == "low" || key == "medium" || key == "high"
    ensures key == "low" ==> r == Some(30)
    ensures key == "medium" ==> r == Some(75)
    ensures key == "high" ==> r == Some(95)
  {
    if key in QualityScale then Some(QualityScale[key]) else None
  }

  /** The keyword arguments of `Image.save`. */
  datatype SaveOptions = SaveOptions(quality: nat, optimize: bool, progressive: bool, compressLevel: nat)

  /** An image handed to `Image.save`, with its destination path. */
  datatype SavedImage<T> = SavedImage(path: string, image: PixelArray<T>, options: SaveOptions)

  /** The two arrays of an index archive, stored as `indices_shuffled_x` and
      `indices_shuffled_y`. */
  datatype IndexArchive = IndexArchive(indicesShuffledX: seq<nat>, indicesShuffledY: seq<nat>)

  /** The `.npz` archives present on disk, by path. */
  type ArchiveStore = map<string, IndexArchive>

  /** What a run leaves behind: the archives on disk, the image it saved (if any)
      and the warning it printed (if any). */
  datatype Run<T> = Run(archives: ArchiveStore, saved: Option<SavedImage<T>>, warning: Option<string>)

  /** Why `recover_pixels` raises before saving anything. */
  datatype RecoverError =
    | UnboundIndices          // neither branch ran: UnboundLocalError on the argsort line
    | ArchiveNotFound(path: string)   // np.load of a path that holds no archive
    | IndexOutOfBounds        // a loaded array is longer than the image's axis: IndexError

  function InvalidQualityWarning(key: string): string {
    "Invalid selection of image quality: \"" + key + "\". "
  }

  predicate HasNpzSuffix(path: string) {
    |path| >= 4 && path[|path| - 4..] == ".npz"
  }

  /** The file `np.savez(path, ...)` writes: ".npz" is appended unless the path
      already ends with it. */
  function ArchivePath(path: string): (r: string)
    ensures HasNpzSuffix(r)
    ensures HasNpzSuffix(path) <==> r == path
    ensures |path| <= |r| && r[..|path|] == path
    ensures !HasNpzSuffix(path) ==> |r| == |path| + 4
  {
    if HasNpzSuffix(path) then path
    else
      assert (path + ".npz")[|path + ".npz"| - 4..] == ".npz";
      path + ".npz"
  }

  /** The `try: image.save(...) except KeyError: print(...)` that ends both
      operations: the quality lookup is evaluated before `save` is called, so an
      unknown quality name saves nothing and prints a warning instead. */
  function SaveImage<T>(archives: ArchiveStore, path: string, image: PixelArray<T>, quality: string): (r: Run<T>)
    ensures r.archives == archives
    ensures r.saved.Some? != r.warning.Some?
    ensures r.saved.Some? <==> quality == "low" || quality == "medium" || quality == "high"
    ensures r.saved.Some? ==> r.saved.value.path == path && r.saved.value.image == image
    ensures r.saved.Some? ==> r.saved.value.options == SaveOptions(QualityLevel(quality).value, true, true, 9)
    ensures r.warning.Some? ==> r.warning.value == InvalidQualityWarning(quality)
  {
    match QualityLevel(quality)
    case Some(level) =>
      Run(archives, Some(SavedImage(path, image, SaveOptions(level, true, true, 9))), None)
    case None =>
      Run(archives, None, Some(InvalidQualityWarning(quality)))
  }

  /** Shuffle seeds its generator from the caller's seed, or from fresh entropy
      when the seed is None, and draws the row array, then the column array. */
  function ShuffleIndices(g: Generator, seed: Option<nat>, entropy: nat, height: nat, width: nat): (r: (seq<nat>, seq<nat>))
    requires g.Valid()
    ensures IsPermutation(r.0, height) && IsPermutation(r.1, width)
  {
    var source := if seed.Some? then FromSeed(seed.value) else FromEntropy(entropy);
    DrawRowsThenColumns(g, source, height, width)
  }

  /** `shuffle_pixels(origin, shuffled, seed, index_file, image_quality)` on the
      decoded origin image; `entropy` is what the operating system supplies to an
      unseeded generator. */
  function ShufflePixels<T>(g: Generator, archives: ArchiveStore, image: PixelArray<T>, shuffledPath: string,
                            seed: Option<nat>, entropy: nat, indexFile: Option<string>, quality: string): (r: Run<T>)
    requires g.Valid() && image.Valid()
    // the archive is written exactly when no seed is given and an index path is
    ensures seed.Some? || indexFile.None? ==> r.archives == archives
    ensures seed.None? && indexFile.Some? ==>
              && r.archives.Keys == archives.Keys + {ArchivePath(indexFile.value)}
              && (forall p :: p in archives && p != ArchivePath(indexFile.value) ==> r.archives[p] == archives[p])
              && IsPermutation(r.archives[ArchivePath(indexFile.value)].indicesShuffledX, image.height)
              && IsPermutation(r.archives[ArchivePath(indexFile.value)].indicesShuffledY, image.width)
    // and it holds exactly the row and column arrays drawn for this run
    ensures seed.None? && indexFile.Some? ==>
              var indices := ShuffleIndices(g, seed, entropy, image.height, image.width);
              r.archives[ArchivePath(indexFile.value)] == IndexArchive(indices.0, indices.1)
    // the archive is written before the quality lookup, so it is there even when nothing is saved
    ensures r.saved.Some? <==> QualityLevel(quality).Some?
    ensures r.warning.Some? <==> QualityLevel(quality).None?
    ensures r.saved.Some? ==>
              && r.saved.value.path == shuffledPath
              && r.saved.value.image.Valid()
              && r.saved.value.image.height == image.height
              && r.saved.value.image.width == image.width
              && r.saved.value.image.channels == image.channels
              && r.saved.value.options == SaveOptions(QualityLevel(quality).value, true, true, 9)
    // the saved image is the origin indexed by the row and column arrays drawn for this run
    ensures r.saved.Some? ==>
              var indices := ShuffleIndices(g, seed, entropy, image.height, image.width);
              InBounds(image, indices.0, indices.1) && r.saved.value.image == Take(image, indices.0, indices.1)
    // the saved image is the origin indexed by the two arrays the archive records
    ensures seed.None? && indexFile.Some? && r.saved.Some? ==>
              var archive := r.archives[ArchivePath(indexFile.value)];
              InBounds(image, archive.indicesShuffledX, archive.indicesShuffledY) &&
              r.saved.value.image == Take(image, archive.indicesShuffledX, archive.indicesShuffledY)
  {
    var (rows, cols) := ShuffleIndices(g, seed, entropy, image.height, image.width);
    var archives' :=
      if seed.None? && indexFile.Some? then archives[ArchivePath(indexFile.value) := IndexArchive(rows, cols)]
      else archives;
    SaveImage(archives', shuffledPath, Take(image, rows, cols), quality)
  }

  /** The archive recover loads holds two permutations, each of [0, its own length).
      `recover_pixels` does not check this; the arrays `shuffle_pixels` writes meet it. */
  predicate LoadableArchive(archives: ArchiveStore, seed: Option<nat>, indexFile: Option<string>) {
    seed.None? && indexFile.Some? && indexFile.value in archives ==>
      && IsPermutation(archives[indexFile.value].indicesShuffledX, |archives[indexFile.value].indicesShuffledX|)
      && IsPermutation(archives[indexFile.value].indicesShuffledY, |archives[indexFile.value].indicesShuffledY|)
  }

  /** The branch of `recover_pixels` that binds the two index arrays: replay the
      seeded generator when only a seed is given, load the archive when only an
      index path is given, and leave them unbound otherwise. */
  function RecoverIndices(g: Generator, archives: ArchiveStore, height: nat, width: nat,
                          seed: Option<nat>, indexFile: Option<string>): (r: Result<(seq<nat>, seq<nat>), RecoverError>)
    requires g.Valid() && LoadableArchive(archives, seed, indexFile)
    ensures r == Failure(UnboundIndices) <==> seed.Some? == indexFile.Some?
    ensures r.Failure? && seed.None? && indexFile.Some? ==> r.error == ArchiveNotFound(indexFile.value)
    ensures seed.None? && indexFile.Some? ==> (r.Success? <==> indexFile.value in archives)
    ensures r.Success? && seed.None? ==>
              && indexFile.Some? && indexFile.value in archives
              && r.value == (archives[indexFile.value].indicesShuffledX, archives[indexFile.value].indicesShuffledY)
    ensures r.Success? ==> IsPermutation(r.value.0, |r.value.0|) && IsPermutation(r.value.1, |r.value.1|)
    ensures r.Success? && seed.Some? ==> |r.value.0| == height && |r.value.1| == width
  {
    if seed.Some? && indexFile.None? then
      Success(DrawRowsThenColumns(g, FromSeed(seed.value), height, width))
    else if seed.None? && indexFile.Some? then
      if indexFile.value in archives then
        var archive := archives[indexFile.value];
        Success((archive.indicesShuffledX, archive.indicesShuffledY))
      else
        Failure(ArchiveNotFound(indexFile.value))
    else
      Failure(UnboundIndices)
  }

  /** `recover_pixels(shuffled, recovered, seed, index_file, image_quality)` on the
      decoded shuffled image. */
  function RecoverPixels<T>(g: Generator, archives: ArchiveStore, image: PixelArray<T>, recoveredPath: string,
                            seed: Option<nat>, indexFile: Option<string>, quality: string): (r: Result<Run<T>, RecoverError>)
    requires g.Valid() && image.Valid() && LoadableArchive(archives, seed, indexFile)
    ensures r == Failure(UnboundIndices) <==> seed.Some? == indexFile.Some?
    ensures seed.None? && indexFile.Some? && indexFile.value !in archives ==>
              r == Failure(ArchiveNotFound(indexFile.value))
    ensures seed.Some? && indexFile.None? ==> r.Success?
    ensures (&& seed.None? && indexFile.Some? && indexFile.value in archives
             && |archives[indexFile.value].indicesShuffledX| <= image.height
             && |archives[indexFile.value].indicesShuffledY| <= image.width) ==> r.Success?
    // what is saved is the shuffled image indexed by the argsorts of the two arrays, at the named quality
    ensures r.Success? && r.value.saved.Some? ==>
              var indices := RecoverIndices(g, archives, image.height, image.width, seed, indexFile);
              && indices.Success?
              && InBounds(image, ArgSort(indices.value.0), ArgSort(indices.value.1))
              && r.value.saved.value.image == Take(image, ArgSort(indices.value.0), ArgSort(indices.value.1))
              && QualityLevel(quality).Some?
              && r.value.saved.value.options == SaveOptions(QualityLevel(quality).value, true, true, 9)
    ensures r.Success? ==>
              && r.value.archives == archives
              && (r.value.saved.Some? <==> QualityLevel(quality).Some?)
              && (r.value.warning.Some? <==> QualityLevel(quality).None?)
    ensures r.Success? && r.value.saved.Some? ==>
              && r.value.saved.value.path == recoveredPath
              && r.value.saved.value.image.Valid()
              && r.value.saved.value.image.channels == image.channels
    ensures r.Success? && r.value.saved.Some? && seed.Some? ==>
              r.value.saved.value.image.height == image.height && r.value.saved.value.image.width == image.width
    // from an archive: IndexError exactly when an array is longer than its axis, else that shape
    ensures seed.None? && indexFile.Some? && indexFile.value in archives ==>
              var archive := archives[indexFile.value];
              && (r == Failure(IndexOutOfBounds) <==>
                    |archive.indicesShuffledX| > image.height || |archive.indicesShuffledY| > image.width)
              && (r.Success? && r.value.saved.Some? ==>
                    && r.value.saved.value.image.height == |archive.indicesShuffledX|
                    && r.value.saved.value.image.width == |archive.indicesShuffledY|)
  {
    match RecoverIndices(g, archives, image.height, image.width, seed, indexFile)
    case Failure(e) => Failure(e)
    case Success((rows, cols)) =>
      var inverseRows, inverseCols := ArgSort(rows), ArgSort(cols);
      if |inverseRows| > image.height || |inverseCols| > image.width then
        Failure(IndexOutOfBounds)
      else
        Success(SaveImage(archives, recoveredPath, Take(image, inverseRows, inverseCols), quality))
  }

  /** Recovering by seed replays the shuffle's draws: the same generator seeded
      with the same seed yields the same row and column arrays, drawn in the same
      order with the same lengths. */
  lemma SeedReplaysShuffleIndices(g: Generator, archives: ArchiveStore, seed: nat, entropy: nat, height: nat, width: nat)
    requires g.Valid()
    ensures RecoverIndices(g, archives, height, width, Some(seed), None)
              == Success(ShuffleIndices(g, Some(seed), entropy, height, width))
  {
  }

  /** Shuffling with a seed and recovering with the same seed and no index path
      restores the origin image exactly. */
  lemma SeedRoundTrip<T>(g: Generator, archives: ArchiveStore, image: PixelArray<T>, shuffledPath: string,
                         recoveredPath: string, seed: nat, entropy: nat, indexFile: Option<string>,
                         shuffleQuality: string, recoverQuality: string)
    requires g.Valid() && image.Valid()
    requires QualityLevel(shuffleQuality).Some? && QualityLevel(recoverQuality).Some?
    ensures var shuffled := ShufflePixels(g, archives, image, shuffledPath, Some(seed), entropy, indexFile, shuffleQuality);
            && shuffled.saved.Some?
            && var recovered := RecoverPixels(g, shuffled.archives, shuffled.saved.value.image, recoveredPath,
                                              Some(seed), None, recoverQuality);
               && recovered.Success? && recovered.value.saved.Some?
               && recovered.value.saved.value.image == image
  {
    var (rows, cols) := ShuffleIndices(g, Some(seed), entropy, image.height, image.width);
    var shuffled := ShufflePixels(g, archives, image, shuffledPath, Some(seed), entropy, indexFile, shuffleQuality);
    assert shuffled.saved.value.image == Take(image, rows, cols);
    SeedReplaysShuffleIndices(g, shuffled.archives, seed, entropy, image.height, image.width);
    RecoverUndoesShuffle(image, rows, cols);
  }

  /** Shuffling with no seed and an index path, then recovering from the archive
      file that path produced, restores the origin image exactly. */
  lemma ArchiveRoundTrip<T>(g: Generator, archives: ArchiveStore, image: PixelArray<T>, shuffledPath: string,
                            recoveredPath: string, entropy: nat, indexFile: string,
                            shuffleQuality: string, recoverQuality: string)
    requires g.Valid() && image.Valid()
    requires QualityLevel(shuffleQuality).Some? && QualityLevel(recoverQuality).Some?
    ensures var shuffled := ShufflePixels(g, archives, image, shuffledPath, None, entropy, Some(indexFile), shuffleQuality);
            && shuffled.saved.Some?
            && LoadableArchive(shuffled.archives, None, Some(ArchivePath(indexFile)))
            && var recovered := RecoverPixels(g, shuffled.archives, shuffled.saved.value.image, recoveredPath,
                                              None, Some(ArchivePath(indexFile)), recoverQuality);
               && recovered.Success? && recovered.value.saved.Some?
               && recovered.value.saved.value.image == image
  {
    var (rows, cols) := ShuffleIndices(g, None, entropy, image.height, image.width);
    var shuffled := ShufflePixels(g, archives, image, shuffledPath, None, entropy, Some(indexFile), shuffleQuality);
    assert shuffled.archives[ArchivePath(indexFile)] == IndexArchive(rows, cols);
    RecoverUndoesShuffle(image, rows, cols);
  }

  /** `np.savez` appends ".npz" but `np.load` opens the path as given: recovering
      with the same index path that shuffle was given finds no archive when that
      path does not end in ".npz" and nothing was stored there before. */
  lemma SuffixlessIndexPathNotFound<T>(g: Generator, archives: ArchiveStore, image: PixelArray<T>, shuffledPath: string,
                                       recoveredPath: string, entropy: nat, indexFile: string,
                                       shuffleQuality: string, recoverQuality: string)
    requires g.Valid() && image.Valid()
    requires QualityLevel(shuffleQuality).Some?
    requires !HasNpzSuffix(indexFile) && indexFile !in archives
    ensures var shuffled := ShufflePixels(g, archives, image, shuffledPath, None, entropy, Some(indexFile), shuffleQuality);
            && shuffled.saved.Some?
            && LoadableArchive(shuffled.archives, None, Some(indexFile))
            && RecoverPixels(g, shuffled.archives, shuffled.saved.value.image, recoveredPath,
                             None, Some(indexFile), recoverQuality) == Failure(ArchiveNotFound(indexFile))
  {
  }
}
