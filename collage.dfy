/**
 * The collage creator: its configuration, the list of collected image paths
 * it fills in place, and the collage it paints by pasting each resized image
 * into its grid cell on a white canvas.
 */
module Collage {
  import opened Layout
  import opened Picture
  import opened Paths

  // ---------------------------------------------------------------------
  // The finished collage, pixel by pixel
  // ---------------------------------------------------------------------

  /** Every image is `cellWidth` x `cellHeight`, the size they are resized to. */
  predicate AllCellSized(g: Grid, images: seq<Block>)
  {
    forall k :: 0 <= k < |images| ==> IsBlock(images[k], g.cellWidth, g.cellHeight)
  }

  /** The colour of pixel (x, y) once `images` have been pasted in list order:
      the covering pixel of the image whose cell holds (x, y), or white. */
  function CollagePixel(g: Grid, images: seq<Block>, x: int, y: int): Pixel
    requires g.cols > 0 && AllCellSized(g, images)
  {
    match CellAt(g, x, y)
    case Some(k) => if k < |images| then images[k][y - CellY(g, k)][x - CellX(g, k)] else White
    case None => White
  }

  /** Pixel (a, b) of image k shows at offset (a, b) from the corner of cell k. */
  lemma ImagePixelPlaced(g: Grid, images: seq<Block>, k: nat, a: nat, b: nat)
    requires g.cols > 0 && AllCellSized(g, images)
    requires k < |images| && a < g.cellWidth && b < g.cellHeight
    ensures CollagePixel(g, images, CellX(g, k) + a, CellY(g, k) + b) == images[k][b][a]
  {
    assert InCell(g, k, CellX(g, k) + a, CellY(g, k) + b);
  }

  /** A pixel in no image's cell (the padding, or an unused cell) stays white. */
  lemma PaddingStaysWhite(g: Grid, images: seq<Block>, x: int, y: int)
    requires g.cols > 0 && AllCellSized(g, images)
    requires forall k: nat :: k < |images| ==> !InCell(g, k, x, y)
    ensures CollagePixel(g, images, x, y) == White
  {
    match CellAt(g, x, y)
    case Some(k) => assert !InCell(g, k, x, y) || k >= |images|;
    case None =>
  }

  /** Pasting one more image changes exactly the pixels of its own cell;
      every other pixel keeps the colour it had. */
  lemma PasteNextImage(g: Grid, images: seq<Block>, img: Block, x: int, y: int)
    requires g.cols > 0 && AllCellSized(g, images) && IsBlock(img, g.cellWidth, g.cellHeight)
    ensures AllCellSized(g, images + [img])
    ensures CollagePixel(g, images + [img], x, y) ==
      if InCell(g, |images|, x, y) then img[y - CellY(g, |images|)][x - CellX(g, |images|)]
      else CollagePixel(g, images, x, y)
  {
    var more := images + [img];
    assert forall k :: 0 <= k < |images| ==> more[k] == images[k];
    assert AllCellSized(g, more) by {
      forall k | 0 <= k < |more| ensures IsBlock(more[k], g.cellWidth, g.cellHeight) {
        if k < |images| { assert more[k] == images[k]; }
      }
    }
  }

  /** The outcome of building a collage. */
  datatype Outcome =
    | Built(canvas: array2<Pixel>)
      /** The row count divided by zero columns. */
    | ZeroDivisionError
      /** The image library refused to resize to a cell with a zero side. */
    | ResizeRefused

  // ---------------------------------------------------------------------
  // The creator object
  // ---------------------------------------------------------------------

  class CollageCreator {
    const baseUrl: string
    const publicKey: string
    const localFolder: string
    const extractedFolder: string
    const outputFile: string
    const imgWidth: nat
    const imgHeight: nat
    const padding: nat
    const cols: nat
    /** Paths of the images found so far, in the order they were found. */
    var files: seq<string>

    /** The layout part of the configuration. */
    function LayoutGrid(): Grid
    {
      Grid(imgWidth, imgHeight, padding, cols)
    }

    /** A creator with the given configuration and no files; cells default to
        800 x 800 pixels, padding to 10 pixels and the grid to four columns. */
    constructor (baseUrl: string, publicKey: string, localFolder: string, extractedFolder: string,
                 outputFile: string, imgSize: (nat, nat) := (800, 800), padding: nat := 10, cols: nat := 4)
      ensures this.baseUrl == baseUrl && this.publicKey == publicKey
      ensures this.localFolder == localFolder && this.extractedFolder == extractedFolder
      ensures this.outputFile == outputFile
      ensures this.imgWidth == imgSize.0 && this.imgHeight == imgSize.1
      ensures this.padding == padding && this.cols == cols
      ensures files == []
    {
      this.baseUrl := baseUrl;
      this.publicKey := publicKey;
      this.localFolder := localFolder;
      this.extractedFolder := extractedFolder;
      this.outputFile := outputFile;
      this.imgWidth, this.imgHeight := imgSize.0, imgSize.1;
      this.padding := padding;
      this.cols := cols;
      files := [];
    }

    /** Appends, in traversal order, the full path of every file of `walk`
        whose name ends in ".png"; the paths collected before stay in front. */
    method CollectFiles(walk: seq<WalkEntry>)
      modifies this`files
      ensures files == old(files) + Collected(walk)
    {
      var i := 0;
      while i < |walk|
        invariant 0 <= i <= |walk|
        invariant files == old(files) + Collected(walk[..i])
      {
        var entry := walk[i];
        ghost var before := files;
        var j := 0;
        while j < |entry.filenames|
          invariant 0 <= j <= |entry.filenames|
          invariant files == before + PngPaths(entry.root, entry.filenames[..j])
        {
          var name := entry.filenames[j];
          assert entry.filenames[..j + 1][..j] == entry.filenames[..j];
          assert PngPaths(entry.root, entry.filenames[..j + 1]) == PngPaths(entry.root, entry.filenames[..j]) +
            (if EndsWith(name, PngSuffix) then [JoinPath(entry.root, name)] else []);
          if EndsWith(name, PngSuffix) {
            files := files + [JoinPath(entry.root, name)];
          }
          j := j + 1;
        }
        assert entry.filenames[..j] == entry.filenames;
        assert walk[..i + 1][..i] == walk[..i];
        assert Collected(walk[..i + 1]) == Collected(walk[..i]) + PngPaths(entry.root, entry.filenames);
        i := i + 1;
      }
      assert walk[..i] == walk;
    }

    /** Paints the collage of `files`: a white canvas of the grid's size with the
        image `load(files[k])` (the file opened and resized to the cell size)
        pasted into cell k, for each k in list order. With no columns the row
        count divides by zero, and with a zero cell side the first resize is
        refused; in both cases nothing is built. */
    method CreateCollage(load: string -> Block) returns (result: Outcome)
      requires AllCellSized(LayoutGrid(), Loaded(files, load))
      ensures cols == 0 ==> result == ZeroDivisionError
      ensures cols > 0 && |files| > 0 && (imgWidth == 0 || imgHeight == 0) ==> result == ResizeRefused
      ensures result.Built? <==> cols > 0 && (|files| == 0 || (imgWidth > 0 && imgHeight > 0))
      ensures result.Built? ==> cols > 0 && fresh(result.canvas)
      ensures result.Built? ==> result.canvas.Length0 == CanvasWidth(LayoutGrid())
      ensures result.Built? ==> result.canvas.Length1 == CanvasHeight(LayoutGrid(), |files|)
      ensures result.Built? ==> forall x, y :: 0 <= x < result.canvas.Length0 && 0 <= y < result.canvas.Length1 ==>
        result.canvas[x, y] == CollagePixel(LayoutGrid(), Loaded(files, load), x, y)
      ensures result.Built? ==> forall x, y, k: nat ::
        (0 <= x < result.canvas.Length0 && 0 <= y < result.canvas.Length1 && k < |files| && InCell(LayoutGrid(), k, x, y)) ==>
          result.canvas[x, y] == Loaded(files, load)[k][y - CellY(LayoutGrid(), k)][x - CellX(LayoutGrid(), k)]
      ensures result.Built? ==> forall x, y ::
        (0 <= x < result.canvas.Length0 && 0 <= y < result.canvas.Length1 &&
         forall k: nat :: k < |files| ==> !InCell(LayoutGrid(), k, x, y)) ==> result.canvas[x, y] == White
    {
      if cols == 0 {
        return ZeroDivisionError;
      }
      var g := LayoutGrid();
      ghost var images := Loaded(files, load);
      assert |images| == |files| && forall i :: 0 <= i < |files| ==> images[i] == load(files[i]);
      var canvas := new Pixel[CanvasWidth(g), CanvasHeight(g, |files|)]((x, y) => White);
      if |files| > 0 && (imgWidth == 0 || imgHeight == 0) {
        return ResizeRefused;
      }
      var k := 0;
      while k < |files|
        invariant 0 <= k <= |files|
        invariant forall x, y :: 0 <= x < canvas.Length0 && 0 <= y < canvas.Length1 ==>
          canvas[x, y] == CollagePixel(g, images[..k], x, y)
      {
        var img := load(files[k]);
        Paste(canvas, img, imgWidth, imgHeight, CellX(g, k), CellY(g, k));
        assert images[..k + 1] == images[..k] + [img];
        forall x, y | 0 <= x < canvas.Length0 && 0 <= y < canvas.Length1
          ensures canvas[x, y] == CollagePixel(g, images[..k + 1], x, y)
        {
          PasteNextImage(g, images[..k], img, x, y);
        }
        k := k + 1;
      }
      assert images[..k] == images;
      forall x, y, i: nat | 0 <= x < canvas.Length0 && 0 <= y < canvas.Length1 && i < |files| && InCell(g, i, x, y)
        ensures canvas[x, y] == load(files[i])[y - CellY(g, i)][x - CellX(g, i)]
      {
        assert CellAt(g, x, y) == Some(i);
      }
      forall x, y | 0 <= x < canvas.Length0 && 0 <= y < canvas.Length1 &&
        (forall i: nat :: i < |files| ==> !InCell(g, i, x, y))
        ensures canvas[x, y] == White
      {
        PaddingStaysWhite(g, images, x, y);
      }
      result := Built(canvas);
    }
  }

  /** The images the creator pastes: each file opened and resized by `load`. */
  function Loaded(files: seq<string>, load: string -> Block): seq<Block>
  {
    seq(|files|, k requires 0 <= k < |files| => load(files[k]))
  }
}
