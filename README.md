# PixelPuzzle: the pixel shuffle and its recovery

PixelPuzzle obfuscates an image by moving its pixels around and later puts them
back. `shuffle_pixels` decodes an image into an array of shape
(height, width, channels), draws a permutation of the row indices and a
permutation of the column indices from NumPy's random generator, and saves
`pixel_array[rows[:, np.newaxis], cols, :]`. When no seed is given and an index
path is, it first stores both permutations in an `.npz` archive under the names
`indices_shuffled_x` and `indices_shuffled_y`. `recover_pixels` obtains the same
two permutations, by replaying the generator from the seed or by loading the
archive, inverts each with `np.argsort` and applies the inverses the same way.
Both operations look the output quality up in a three-entry table (`low` 30,
`medium` 75, `high` 95); an unknown name raises `KeyError` before `save` runs,
which is caught, so a warning is printed and no image is written.

This project models that core in Dafny, as functions over sequences, and proves
that recovery undoes the shuffle exactly.

- `permutations.dfy` (module `Permutations`): permutations of [0, n), `argsort`
  as the inverse of a permutation, and the proof that it is the only index array
  that sorts the permutation (pigeonhole included).
- `pixel_arrays.dfy` (module `PixelArrays`): the pixel array and the two-axis
  fancy indexing, with the round trips in both orders.
- `generators.dfy` (module `Generators`): the random generator as an abstract,
  deterministic pair of functions (initial state from a seed or from entropy;
  `permutation(state, n)` returning a permutation and the next state).
- `pixel_puzzle.dfy` (module `PixelPuzzle`): the quality table, the index
  archive and its path, `shuffle_pixels`, `recover_pixels` and the end-to-end
  round trips.
- `wrappers.dfy` (module `Wrappers`): `Option` and `Result`.

Points where the code behaves in a way that is easy to miss:

- Rows and columns are permuted independently with two permutations; this is
  not one permutation over all height × width positions. A pixel's destination
  row depends only on its source row (`PixelArrays.ShuffleDestination`).
- The archive holds only the two index arrays, not the image shape, and
  `recover_pixels` does not validate what it loads. That the loaded arrays are
  permutations is a precondition (`PixelPuzzle.LoadableArchive`); an array
  longer than the image axis is the `IndexError` of the fancy indexing.
- An unknown quality name is not an error of the operation: it prints a warning
  and writes no image. In `shuffle_pixels` the index archive has already been
  written by then.
- `recover_pixels` given both a seed and an index path (for instance through the
  default `index_file` argument), or neither, runs neither branch and fails with
  `UnboundLocalError` at the `argsort` line.
- `np.savez` appends `.npz` to a path that lacks it while `np.load` opens the
  path as given, so recovering with the same suffix-less index path that the
  shuffle was given finds no archive (`PixelPuzzle.SuffixlessIndexPathNotFound`).

## Model

| member | source | states |
|---|---|---|
| `Permutations.IndexOf` | pixel_puzzle/pixel_puzzle.py:110-111 | the first position holding k, or the length when k does not occur; k occurs exactly when the result is a position |
| `Permutations.PermutationCoversRange` | pixel_puzzle/pixel_puzzle.py:110-111 | n distinct values below n take every value below n, so every index has a position for argsort to find |
| `Permutations.ArgSort` | pixel_puzzle/pixel_puzzle.py:110-111 | argsort of a permutation is a permutation of the same length and its two-sided inverse: `p[inv[k]] == k` and `inv[p[i]] == i` |
| `Permutations.SortingOrderIsUnique` | pixel_puzzle/pixel_puzzle.py:110-111 | any index array that lists every position once and reads the permutation in ascending order equals ArgSort |
| `Permutations.ArgSortIsTheSortingOrder` | pixel_puzzle/pixel_puzzle.py:110-111 | ArgSort meets argsort's contract, and an index array meets it if and only if it equals ArgSort, whatever sorting algorithm is used |
| `Permutations.ArgSortInvolution` | pixel_puzzle/pixel_puzzle.py:110-111 | inverting the inverse gives the permutation back |
| `Permutations.ComposeArgSort` | pixel_puzzle/pixel_puzzle.py:110-111 | reading a permutation through its argsort, or the argsort through the permutation, gives `arange(n)` |
| `PixelArrays.Take` | pixel_puzzle/pixel_puzzle.py:66 | fancy indexing yields a rectangular array of shape (length of rows, length of cols, channels) whose pixel (i, j) holds pixel (rows[i], cols[j]) of the input, every channel value in its original place |
| `PixelArrays.TakeTake` | pixel_puzzle/pixel_puzzle.py:114 | indexing twice equals indexing once with the composed row arrays and the composed column arrays |
| `PixelArrays.TakeIdentity` | pixel_puzzle/pixel_puzzle.py:114 | indexing with `arange` on both axes returns the array unchanged |
| `PixelArrays.RecoverUndoesShuffle` | pixel_puzzle/pixel_puzzle.py:110-114 | for permutations of the height and the width, indexing the shuffled array with their argsorts restores the original array exactly, for any pixel values |
| `PixelArrays.ShuffleUndoesRecover` | pixel_puzzle/pixel_puzzle.py:110-114 | the recover transform followed by the shuffle transform is also the identity, so the shuffle neither loses nor duplicates a pixel |
| `PixelArrays.ShuffleDestination` | pixel_puzzle/pixel_puzzle.py:66 | input pixel (x, y) is found at output row ArgSort(rows)[x], column ArgSort(cols)[y] |
| `Generators.DrawRowsThenColumns` | pixel_puzzle/pixel_puzzle.py:55-56 | the row array is a permutation of [0, height) and the column array a permutation of [0, width) |
| `PixelPuzzle.QualityLevel` | pixel_puzzle/pixel_puzzle.py:44-48 | the lookup succeeds exactly for `low`, `medium`, `high`, giving 30, 75, 95; any other name is the KeyError |
| `PixelPuzzle.ArchivePath` | pixel_puzzle/pixel_puzzle.py:59-63 | the archive file name equals the given path when that already ends in `.npz`, and is otherwise the path with exactly `.npz` appended (it extends the path by four characters and ends in `.npz`) |
| `PixelPuzzle.SaveImage` | pixel_puzzle/pixel_puzzle.py:69-80 | exactly one of: the image is saved at the given path with the quality the table gives its name and optimize, progressive and compress level 9 (for the three known names), or the warning naming the quality is printed; no archive changes |
| `PixelPuzzle.ShuffleIndices` | pixel_puzzle/pixel_puzzle.py:50-56 | shuffle draws a permutation of the height and one of the width, from the seed or from fresh entropy |
| `PixelPuzzle.ShufflePixels` | pixel_puzzle/pixel_puzzle.py:36-80 | the archive is written (at the `.npz` path, other archives untouched) exactly when there is no seed and there is an index path, and holds exactly the row and column arrays drawn for the run, permutations of the height and the width; it is written even when the quality name is unknown; an image is saved exactly when the name is known, with the table's quality and the three fixed flags; it has the input's shape and is the input indexed by the row and column arrays drawn for the run, which are the archived arrays when an archive is written |
| `PixelPuzzle.RecoverIndices` | pixel_puzzle/pixel_puzzle.py:101-108 | the arrays are unbound exactly when both or neither of seed and index path are given; from an index path, the stored pair of arrays exactly when the archive is present and ArchiveNotFound exactly when it is missing; a seed yields permutations of the height and the width |
| `PixelPuzzle.RecoverPixels` | pixel_puzzle/pixel_puzzle.py:83-128 | fails with UnboundIndices exactly when both or neither source is given, ArchiveNotFound for a missing archive, IndexOutOfBounds exactly when a loaded array is longer than its axis, success for a seed or for a present archive that fits; on success writes no archive, saves exactly when the quality name is known, at the table's quality, the shuffled image indexed by the argsorts of the two arrays, with the shape of the arrays used |
| `PixelPuzzle.SeedReplaysShuffleIndices` | pixel_puzzle/pixel_puzzle.py:101-104 | recovering by seed yields the very pair of arrays the shuffle drew with that seed: same generator, same order, same lengths |
| `PixelPuzzle.SeedRoundTrip` | pixel_puzzle/pixel_puzzle.py:101-114 | shuffling with a seed and recovering with that seed and no index path saves the original image exactly |
| `PixelPuzzle.ArchiveRoundTrip` | pixel_puzzle/pixel_puzzle.py:105-114 | shuffling without a seed and recovering from the archive the shuffle wrote saves the original image exactly |
| `PixelPuzzle.SuffixlessIndexPathNotFound` | pixel_puzzle/pixel_puzzle.py:105-106 | recovering with the shuffle's own index path fails with ArchiveNotFound when that path lacks `.npz` and held no archive before |

## Left out

- `encode_base64` and `decode_base64`: file I/O around the standard Base64 codec of RFC 4648 section 4, with no logic of their own.
- `main`: interactive prompting, the retry loops on integer parsing and the pause before exit.
- The image codec (`Image.open`, `Image.fromarray`, `save`): an image enters as an already decoded array, and a save is recorded as the array, path and options handed over. A lossy format changes pixel values on encoding; the round trips hold of the arrays handed to `save`.
- Images that decode to a two-dimensional array (greyscale or palette modes): the three-index expressions of `shuffle_pixels` and `recover_pixels` raise `IndexError` on them, in `shuffle_pixels` after the index archive has been written; the model takes every array as three-dimensional and does not model that error.
- NumPy's bit generator and its permutation algorithm: the generator is a parameter, assumed deterministic and to return permutations.
- Seeds NumPy rejects (negative integers): seeds are natural numbers.
- The `.npz` file format and file-system failures: archives are a map from path to the two arrays; an archive lacking one of the two names cannot occur.
- Default argument values: every parameter is passed explicitly; the default index path is an ordinary path to the model.
- `PixelPuzzle.RecoverPixels`: requires the loaded arrays to be permutations of their own lengths, because the code does not check them and `argsort` of anything else is not an inverse.
