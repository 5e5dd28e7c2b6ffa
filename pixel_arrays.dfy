/** Decoded images as NumPy arrays of shape (height, width, channels), and the
    two-axis fancy indexing `a[rows[:, np.newaxis], cols, :]` that both shuffle and
    recover apply to them. */
module PixelArrays {
  import opened Permutations

  /** A pixel array of shape (height, width, channels); `pixels[i][j]` is the pixel
      in row i, column j, as the list of its channel values. */
  datatype PixelArray<T> = PixelArray(height: nat, width: nat, channels: nat, pixels: seq<seq<seq<T>>>) {

    /** The array is rectangular and its shape is the one recorded. */
    predicate Valid() {
      && |pixels| == height
      && (forall i :: 0 <= i < |pixels| ==> |pixels[i]| == width)
      && (forall i, j :: 0 <= i < |pixels| && 0 <= j < |pixels[i]| ==> |pixels[i][j]| == channels)
    }
  }

  /** Every entry of `rows` names a row of `a` and every entry of `cols` a column. */
  predicate InBounds<T>(a: PixelArray<T>, rows: seq<nat>, cols: seq<nat>) {
    && (forall i :: 0 <= i < |rows| ==> rows[i] < a.height)
    && (forall j :: 0 <= j < |cols| ==> cols[j] < a.width)
  }

  /** `a[rows[:, np.newaxis], cols, :]`: an array of shape (|rows|, |cols|, channels)
      whose pixel (i, j) is pixel (rows[i], cols[j]) of `a`, every channel value in
      its original place. */
  function Take<T>(a: PixelArray<T>, rows: seq<nat>, cols: seq<nat>): (r: PixelArray<T>)
    requires a.Valid() && InBounds(a, rows, cols)
    ensures r.Valid()
    ensures r.height == |rows| && r.width == |cols| && r.channels == a.channels
    ensures forall i, j, c :: 0 <= i < |rows| && 0 <= j < |cols| && 0 <= c < a.channels ==>
              r.pixels[i][j][c] == a.pixels[rows[i]][cols[j]][c]
  {
    PixelArray(|rows|, |cols|, a.channels,
      seq(|rows|, i requires 0 <= i < |rows| =>
        seq(|cols|, j requires 0 <= j < |cols| => a.pixels[rows[i]][cols[j]])))
  }

  /** Two fancy indexings in a row are one, through the composed index arrays. */
  lemma TakeTake<T>(a: PixelArray<T>, rows1: seq<nat>, cols1: seq<nat>, rows2: seq<nat>, cols2: seq<nat>)
    requires a.Valid() && InBounds(a, rows1, cols1)
    requires forall i :: 0 <= i < |rows2| ==> rows2[i] < |rows1|
    requires forall j :: 0 <= j < |cols2| ==> cols2[j] < |cols1|
    ensures InBounds(a, Compose(rows1, rows2), Compose(cols1, cols2))
    ensures Take(Take(a, rows1, cols1), rows2, cols2) == Take(a, Compose(rows1, rows2), Compose(cols1, cols2))
  {
    var lhs := Take(Take(a, rows1, cols1), rows2, cols2);
    var rhs := Take(a, Compose(rows1, rows2), Compose(cols1, cols2));
    forall i | 0 <= i < |rows2|
      ensures lhs.pixels[i] == rhs.pixels[i]
    {
      forall j | 0 <= j < |cols2|
        ensures lhs.pixels[i][j] == rhs.pixels[i][j]
      {
      }
    }
  }

  /** Indexing with `np.arange` on both axes gives the array back. */
  lemma TakeIdentity<T>(a: PixelArray<T>)
    requires a.Valid()
    ensures InBounds(a, Identity(a.height), Identity(a.width))
    ensures Take(a, Identity(a.height), Identity(a.width)) == a
  {
    var r := Take(a, Identity(a.height), Identity(a.width));
    forall i | 0 <= i < a.height
      ensures r.pixels[i] == a.pixels[i]
    {
      forall j | 0 <= j < a.width
        ensures r.pixels[i][j] == a.pixels[i][j]
      {
      }
    }
  }

  /** Recover undoes shuffle: indexing a shuffled array with the argsorts of the
      shuffle's index arrays restores every pixel, whatever the pixel values. */
  lemma RecoverUndoesShuffle<T>(a: PixelArray<T>, rows: seq<nat>, cols: seq<nat>)
    requires a.Valid() && IsPermutation(rows, a.height) && IsPermutation(cols, a.width)
    ensures InBounds(Take(a, rows, cols), ArgSort(rows), ArgSort(cols))
    ensures Take(Take(a, rows, cols), ArgSort(rows), ArgSort(cols)) == a
  {
    TakeTake(a, rows, cols, ArgSort(rows), ArgSort(cols));
    ComposeArgSort(rows);
    ComposeArgSort(cols);
    TakeIdentity(a);
  }

  /** Shuffle undoes recover: the two transforms are inverse in both orders, so a
      shuffle loses no pixel and duplicates none. */
  lemma ShuffleUndoesRecover<T>(a: PixelArray<T>, rows: seq<nat>, cols: seq<nat>)
    requires a.Valid() && IsPermutation(rows, a.height) && IsPermutation(cols, a.width)
    ensures InBounds(a, ArgSort(rows), ArgSort(cols))
    ensures Take(Take(a, ArgSort(rows), ArgSort(cols)), rows, cols) == a
  {
    TakeTake(a, ArgSort(rows), ArgSort(cols), rows, cols);
    ComposeArgSort(rows);
    ComposeArgSort(cols);
    TakeIdentity(a);
  }

  /** Where a shuffle sends each pixel: pixel (x, y) of the input lands at row
      ArgSort(rows)[x], column ArgSort(cols)[y] of the output. */
  lemma ShuffleDestination<T>(a: PixelArray<T>, rows: seq<nat>, cols: seq<nat>, x: nat, y: nat)
    requires a.Valid() && IsPermutation(rows, a.height) && IsPermutation(cols, a.width)
    requires x < a.height && y < a.width
    ensures ArgSort(rows)[x] < a.height && ArgSort(cols)[y] < a.width
    ensures Take(a, rows, cols).pixels[ArgSort(rows)[x]][ArgSort(cols)[y]] == a.pixels[x][y]
  {
  }
}
