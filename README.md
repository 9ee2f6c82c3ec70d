# Image collage creator, modelled in Dafny

The program downloads a zip archive of images from a public cloud-storage
link and unpacks it. It then collects the paths of the `.png` files in the
unpacked tree and pastes them, resized to one fixed cell size, into a grid
on a white canvas. This project models the two parts of `CollageCreator`
that hold logic: the file collector and the collage builder.

- `Layout` (`layout.dfy`) holds the grid arithmetic as pure functions:
  - the row count `(n + cols - 1) // cols`;
  - the canvas size;
  - the column and row of list index `k`, and the top-left corner of its cell.
  It also holds `CellAt`, the inverse of the placement: it says which image's
  cell, if any, holds a given pixel. The lemmas prove the following:
  - the row count is the ceiling of `n / cols`;
  - every cell lies inside the canvas;
  - index and slot determine each other;
  - cells of distinct images are disjoint.
- `Picture` (`picture.dfy`) holds an RGB pixel, an image resized to the
  cell size (a `w` x `h` block of pixels) and `Paste`. `Paste` is the image
  library's paste, written as a method on a 2-D array. It overwrites the
  rectangle under the image, drops what falls outside the canvas, and leaves
  every other pixel unchanged.
- `Paths` (`paths.dfy`) holds `str.endswith` and the POSIX `os.path.join`.
  It also holds `Collected`, the paths the collector keeps from a directory
  traversal. The lemmas prove the following:
  - what is kept is exactly the joins of the file names ending in `.png`;
  - traversal order is kept;
  - no other file's path can appear.
- `Collage` (`collage.dfy`) holds the class `CollageCreator`, which has the
  configuration fields and the `files` list:
  - `CollectFiles` appends to `files` in place, with nested loops;
  - `CreateCollage` allocates the white canvas and pastes image `k` at its
    cell corner, in list order. It is proved against `CollagePixel`, the
    colour each pixel must have at the end. Zero columns give a
    division-by-zero outcome; a zero cell side with at least one file gives
    the outcome of the image library refusing the resize. The lemmas prove
    two things about `CollagePixel`: each image shows unaltered in its own
    cell, and every pixel outside all cells stays white.

The directory traversal is an input: a sequence of `(root, dirs, filenames)`
entries. Opening and resizing a file is the function parameter `load`: it
gives the pixels of the file at a path, already resized to the cell size.

Two facts about the code are worth stating outright:
- With the default grid (800 x 800 cells, padding 10, four columns) and
  three images, the canvas is 3250 x 820 (`Layout.DefaultGridThreeImages`).
- Paths are formed with POSIX `os.path.join`: an absolute name replaces the
  root, and no second `/` is added after a root that already ends in one.

## Model

| member | source | states |
|---|---|---|
| `Layout.Rows` | app/app/test_task.py:61 | the row count `r` covers all images, `r * cols >= n`; one row fewer would not, `(r - 1) * cols < n` when `n > 0`; and no images give no rows |
| `Layout.RowsUnique` | app/app/test_task.py:61 | any count with these two ceiling properties is the row count: the formula is exactly the ceiling of n / cols |
| `Layout.EmptyCanvas` | app/app/test_task.py:61-67 | with no images there are no rows, the canvas height is just the padding and the width is still `cols * (w + padding) + padding` |
| `Layout.EmptyGridExample` | app/app/test_task.py:61-67 | zero-size cells, padding 10, four columns and no images give a 50 x 10 canvas |
| `Layout.DefaultGridThreeImages` | app/app/test_task.py:61-82 | the default configuration with three images gives a 3250 x 820 canvas with the images in columns 0, 1, 2 of row 0 |
| `Layout.CanvasWidth` | app/app/test_task.py:62-64 | the width formula of lines 62-64; with at least one column the canvas ends exactly one padding after the right edge of the last column's cells |
| `Layout.CanvasHeight` | app/app/test_task.py:65-67 | the height formula of lines 65-67; with no images it is the padding alone, otherwise it ends exactly one padding below the cell of the last image |
| `Layout.Column` | app/app/test_task.py:77 | definition of the column `idx % cols`; its properties are in `SlotOfIndex`, `IndexOfSlot` and `SlotInjective` |
| `Layout.Row` | app/app/test_task.py:80 | definition of the row `idx // cols`; its properties are in `SlotOfIndex`, `IndexOfSlot` and `SlotInjective` |
| `Layout.CellX` | app/app/test_task.py:77-79 | definition of the left edge `x`; its properties are in `CellInsideCanvas`, `CellAt` and `CellsDisjoint` |
| `Layout.CellY` | app/app/test_task.py:80-82 | definition of the top edge `y`; its properties are in `CellInsideCanvas`, `CellAt` and `CellsDisjoint` |
| `Layout.SlotOfIndex` | app/app/test_task.py:77-82 | the column `k % cols` of index `k` is below `cols` and `row * cols + col` gives back `k` |
| `Layout.IndexOfSlot` | app/app/test_task.py:77-82 | a slot with `col < cols` is the slot of index `row * cols + col`: index and slot are inverse maps |
| `Layout.SlotInjective` | app/app/test_task.py:77-82 | two indices with the same column and row are equal |
| `Layout.WrapToNextRow` | app/app/test_task.py:77-82 | with four columns, index 4 is in column 0 of row 1, at offset `(padding, h + 2 * padding)` |
| `Layout.CellInsideCanvas` | app/app/test_task.py:61-82 | for every index below `n`, the cell `[x, x + w) x [y, y + h)` ends within the canvas width and height |
| `Layout.CellAt` | app/app/test_task.py:77-82 | the inverse of placement: when it returns `k`, pixel (x, y) is in cell `k`; and whenever (x, y) is in a cell `k`, it returns `k` |
| `Layout.CellsDisjoint` | app/app/test_task.py:77-83 | cells of distinct indices share no pixel, so a later paste never overwrites an earlier image |
| `Picture.Paste` | app/app/test_task.py:83 | after pasting, each canvas pixel inside the image's rectangle holds the matching image pixel and every other pixel holds its old colour |
| `Collage.CollagePixel` | app/app/test_task.py:68-83 | reference definition of the finished collage: the pixel of the image whose cell holds the point, or white; its properties are in `ImagePixelPlaced`, `PaddingStaysWhite` and `PasteNextImage` |
| `Collage.ImagePixelPlaced` | app/app/test_task.py:72-83 | pixel `(x_k + a, y_k + b)` of the collage is pixel (a, b) of image `k`, for `a < w` and `b < h` |
| `Collage.PaddingStaysWhite` | app/app/test_task.py:68-83 | a pixel in no image's cell is white in the collage |
| `Collage.PasteNextImage` | app/app/test_task.py:72-83 | pasting the next image changes exactly the pixels of its own cell to that image's pixels and keeps every other pixel |
| `Collage.CollageCreator.constructor` | app/app/test_task.py:9-21 | the fields hold the given configuration, with defaults 800 x 800 cells, padding 10 and four columns, and the file list starts empty |
| `Collage.CollageCreator.CollectFiles` | app/app/test_task.py:53-57 | the new file list is the old one followed by the collected paths of the traversal, in traversal order |
| `Collage.CollageCreator.CreateCollage` | app/app/test_task.py:60-83 | with no columns the row count divides by zero; with files and a zero cell side the resize is refused; otherwise, and only then, a fresh canvas of the computed size is built whose every pixel is `CollagePixel`. That means image `k`'s pixels fill cell `k` and every pixel outside all cells is white |
| `Paths.EndsWith` | app/app/test_task.py:56 | definition of `str.endswith`, case-sensitive; used by the soundness and completeness lemmas below |
| `Paths.JoinPath` | app/app/test_task.py:57 | definition of two-argument POSIX `os.path.join`; its property is in `JoinPathEndsWith` |
| `Paths.PngPaths` | app/app/test_task.py:55-57 | reference definition of what one directory contributes; its properties are in `PngPathsAppend`, `PngPathsSingle`, `PngPathsSound` and `PngPathsComplete` |
| `Paths.Collected` | app/app/test_task.py:54-57 | reference definition of what a whole traversal contributes; `CollectFiles` is proved against it, and its properties are in the `Collected…` lemmas |
| `Paths.JoinPathEndsWith` | app/app/test_task.py:56-57 | for a suffix without `/`, the joined path ends with it if and only if the file name does |
| `Paths.PngPathsAppend` | app/app/test_task.py:55-57 | filtering one directory's names splits over concatenation, so file order is kept |
| `Paths.PngPathsSingle` | app/app/test_task.py:56-57 | one file name contributes its joined path when it ends in `.png`, and nothing otherwise |
| `Paths.PngPathsSound` | app/app/test_task.py:55-57 | every path kept for a directory is the join of one of its names that ends in `.png` |
| `Paths.PngPathsComplete` | app/app/test_task.py:55-57 | the join of every name ending in `.png` is kept |
| `Paths.CollectedAppend` | app/app/test_task.py:54-57 | collecting splits over concatenation of traversals, so traversal order is kept |
| `Paths.CollectedSound` | app/app/test_task.py:54-57 | every collected path is the join of a traversal directory and one of its file names ending in `.png` |
| `Paths.CollectedComplete` | app/app/test_task.py:54-57 | the path of every file the traversal reports with a name ending in `.png` is collected |
| `Paths.CollectedArePng` | app/app/test_task.py:54-57 | every collected path ends in `.png` |
| `Paths.NonPngNeverCollected` | app/app/test_task.py:54-57 | the path of a file whose name does not end in `.png` is never collected |

## Left out

- `download_and_extract` (app/app/test_task.py:23-51) is not modelled. It is
  HTTP requests, chunked writes to disk, directory creation and zip
  extraction: all network and filesystem I/O.
- The real `os.walk` is not modelled. Its output is the input `walk`, a
  sequence of `(root, dirs, filenames)` entries in traversal order. The
  collector does not use `dirs`.
- `os.path.join` is modelled for POSIX only. Windows path rules are not
  modelled.
- `Image.open` and `Image.resize` are foreign library calls with
  floating-point interpolation. Together they are the parameter `load`, and
  its results must be cell-sized blocks. Colour-mode conversion is not
  modelled. A file that fails to open, which aborts the run, is not
  modelled. The library's refusal to resize to a zero width or height is
  modelled, as the `ResizeRefused` outcome.
- `Collage.CollageCreator.CreateCollage` returns the canvas instead of
  calling `save` on the output path (line 85), because writing the file is
  I/O.
- The `print` diagnostics (lines 43, 47, 49-51, 58, 86) and the hard-coded
  `__main__` configuration (lines 89-101) are not modelled.
- `Collage.CollageCreator.constructor` takes the cell size, padding and
  column count as natural numbers. With negative values, the result would
  depend on the image library's argument checks and its clipping of
  negative offsets, which are foreign code. A column count of 0 is
  modelled: it gives the division-by-zero outcome.
- `Collage.CollageCreator.CollectFiles` reassigns the `files` sequence
  instead of appending to a shared Python list. Aliasing of that list by
  other references is not modelled.
