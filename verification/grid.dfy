/**
 * Grid output mode (lines 136-140): the decoded images are concatenated,
 * each gets a 4-pixel zero border on both sides of height and width, the
 * batch axis is reshaped to (n_rows, B // n_rows), the axes are transposed
 * (0, 2, 1, 3, 4) and the result is flattened to one image of
 * (n_rows * H, (B // n_rows) * W, C). Pixels are sequences of C channel
 * values of any type; `zero` is the padding value.
 */
module Grid {
  import opened Common
  import Decoding

  /** An image as a nested sequence: rows of pixels of channel values. */
  type Image<T> = seq<seq<seq<T>>>

  /** img has h rows of w pixels of c channels. */
  predicate IsImage<T>(img: Image<T>, h: nat, w: nat, c: nat)
  {
    |img| == h &&
    forall y :: 0 <= y < h ==> |img[y]| == w && forall x :: 0 <= x < w ==> |img[y][x]| == c
  }

  /** A batch tensor of shape (|batch|, h, w, c). */
  predicate IsBatch<T>(batch: seq<Image<T>>, h: nat, w: nat, c: nat)
  {
    forall b :: 0 <= b < |batch| ==> IsImage(batch[b], h, w, c)
  }

  /** Width of the zero border `mx.pad` adds on each side of height and width. */
  const Border: nat := 4

  /** n pixels of c channels, all zero. */
  function Blank<T>(n: nat, c: nat, zero: T): seq<seq<T>>
  {
    seq(n, _ => seq(c, _ => zero))
  }

  /** `mx.pad` of one image with [(4, 4), (4, 4), (0, 0)]. */
  function PadImage<T>(img: Image<T>, w: nat, c: nat, zero: T): (p: Image<T>)
    ensures |p| == |img| + 2 * Border
    ensures forall y :: 0 <= y < Border || |img| + Border <= y < |p| ==> |p[y]| == w + 2 * Border
  {
    var edge := Blank(Border, c, zero);
    var blankRow := Blank(w + 2 * Border, c, zero);
    seq(Border, _ => blankRow)
      + seq(|img|, y requires 0 <= y < |img| => edge + img[y] + edge)
      + seq(Border, _ => blankRow)
  }

  /** `mx.pad(x, [(0, 0), (4, 4), (4, 4), (0, 0)])`. */
  function Pad<T>(batch: seq<Image<T>>, w: nat, c: nat, zero: T): (padded: seq<Image<T>>)
    ensures |padded| == |batch|
    ensures forall b :: 0 <= b < |batch| ==> |padded[b]| == |batch[b]| + 2 * Border
  {
    seq(|batch|, b requires 0 <= b < |batch| => PadImage(batch[b], w, c, zero))
  }

  /** Padding grows each image by 8 in height and width and keeps the channels. */
  lemma PadShape<T>(batch: seq<Image<T>>, h: nat, w: nat, c: nat, zero: T)
    requires IsBatch(batch, h, w, c)
    ensures |Pad(batch, w, c, zero)| == |batch|
    ensures IsBatch(Pad(batch, w, c, zero), h + 2 * Border, w + 2 * Border, c)
  {
    forall b | 0 <= b < |batch|
      ensures IsImage(Pad(batch, w, c, zero)[b], h + 2 * Border, w + 2 * Border, c)
    {
      var p := PadImage(batch[b], w, c, zero);
      forall y | 0 <= y < h + 2 * Border
        ensures |p[y]| == w + 2 * Border && forall x :: 0 <= x < w + 2 * Border ==> |p[y][x]| == c
      {
        if Border <= y < h + Border {
          assert p[y] == Blank(Border, c, zero) + batch[b][y - Border] + Blank(Border, c, zero);
        }
      }
    }
  }

  /** A padded pixel is zero in the border and the original pixel, shifted by 4, inside it. */
  lemma PadAt<T>(img: Image<T>, h: nat, w: nat, c: nat, zero: T, y: nat, x: nat, ch: nat)
    requires IsImage(img, h, w, c)
    requires y < h + 2 * Border && x < w + 2 * Border && ch < c
    ensures y < |PadImage(img, w, c, zero)| && x < |PadImage(img, w, c, zero)[y]|
    ensures ch < |PadImage(img, w, c, zero)[y][x]|
    ensures PadImage(img, w, c, zero)[y][x][ch] ==
            if Border <= y < h + Border && Border <= x < w + Border
            then img[y - Border][x - Border][ch] else zero
  {
    var p := PadImage(img, w, c, zero);
    if Border <= y < h + Border {
      var row := img[y - Border];
      assert p[y] == Blank(Border, c, zero) + row + Blank(Border, c, zero);
      if Border <= x < w + Border {
        assert p[y][x] == row[x - Border];
      }
    }
  }

  lemma {:induction false} RowFits(r: nat, rows: nat, cols: nat)
    requires r < rows
    ensures 0 <= r * cols
    ensures r * cols + cols <= rows * cols
    decreases rows
  {
    if r + 1 < rows {
      RowFits(r, rows - 1, cols);
      assert rows * cols == (rows - 1) * cols + cols;
    } else {
      assert rows * cols == r * cols + cols;
    }
  }

  /** The cols consecutive images that fill grid row r. */
  function RowCells<T>(batch: seq<T>, rows: nat, cols: nat, r: nat): (cells: seq<T>)
    requires |batch| == rows * cols && r < rows
    ensures |cells| == cols
  {
    RowFits(r, rows, cols);
    var lo := r * cols;
    batch[lo .. lo + cols]
  }

  /** `reshape(n_rows, B // n_rows, ...)` of the batch axis: grid row r holds images r * cols .. r * cols + cols - 1. */
  function GroupRows<T>(batch: seq<T>, rows: nat, cols: nat): (g: seq<seq<T>>)
    requires |batch| == rows * cols
    ensures |g| == rows
    ensures forall r :: 0 <= r < rows ==> |g[r]| == cols
  {
    seq(rows, r requires 0 <= r < rows => RowCells(batch, rows, cols, r))
  }

  /** Cell (r, k) of the grouped batch is image r * cols + k. */
  lemma GroupRowsAt<T>(batch: seq<T>, rows: nat, cols: nat, r: nat, k: nat)
    requires |batch| == rows * cols && r < rows && k < cols
    ensures r * cols + k < |batch|
    ensures GroupRows(batch, rows, cols)[r][k] == batch[r * cols + k]
  {
    RowFits(r, rows, cols);
  }

  /** Every cell of the grouped batch is an image of the batch's shape. */
  lemma GroupRowsImages<T>(batch: seq<Image<T>>, rows: nat, cols: nat, h: nat, w: nat, c: nat)
    requires |batch| == rows * cols && IsBatch(batch, h, w, c)
    ensures forall r, k :: 0 <= r < rows && 0 <= k < cols ==>
              IsImage(GroupRows(batch, rows, cols)[r][k], h, w, c)
  {
    forall r, k | 0 <= r < rows && 0 <= k < cols
      ensures IsImage(GroupRows(batch, rows, cols)[r][k], h, w, c)
    {
      GroupRowsAt(batch, rows, cols, r, k);
    }
  }

  /**
   * One grid row after `transpose(0, 2, 1, 3, 4)` and the final reshape: its
   * pixel row y is the pixel rows y of its images, left to right.
   */
  function Band<T>(images: seq<Image<T>>, h: nat): (band: Image<T>)
    requires forall k :: 0 <= k < |images| ==> |images[k]| == h
    ensures |band| == h
  {
    seq(h, y requires 0 <= y < h => Flatten(seq(|images|, k requires 0 <= k < |images| => images[k][y])))
  }

  /** A band of images of shape (h, w, c) is one image of shape (h, |images| * w, c). */
  lemma BandShape<T>(images: seq<Image<T>>, h: nat, w: nat, c: nat)
    requires forall k :: 0 <= k < |images| ==> IsImage(images[k], h, w, c)
    ensures forall k :: 0 <= k < |images| ==> |images[k]| == h
    ensures IsImage(Band(images, h), h, |images| * w, c)
  {
    forall y | 0 <= y < h
      ensures |Band(images, h)[y]| == |images| * w
      ensures forall x :: 0 <= x < |images| * w ==> |Band(images, h)[y][x]| == c
    {
      var pieces := seq(|images|, k requires 0 <= k < |images| => images[k][y]);
      FlattenUniformLength(pieces, w);
      FlattenAll(pieces, (px: seq<T>) => |px| == c);
    }
  }

  /** The grid rows stacked top to bottom, for a batch that fills rows * cols cells. */
  function Tiled<T>(batch: seq<Image<T>>, rows: nat, cols: nat, h: nat, w: nat, c: nat): (grid: Image<T>)
    requires |batch| == rows * cols && IsBatch(batch, h, w, c)
    ensures |grid| == rows * h
  {
    var g := GroupRows(batch, rows, cols);
    GroupRowsImages(batch, rows, cols, h, w, c);
    var bands := seq(rows, r requires 0 <= r < rows => Band(g[r], h));
    FlattenUniformLength(bands, h);
    Flatten(bands)
  }

  lemma TiledShape<T>(batch: seq<Image<T>>, rows: nat, cols: nat, h: nat, w: nat, c: nat)
    requires |batch| == rows * cols && IsBatch(batch, h, w, c)
    ensures IsImage(Tiled(batch, rows, cols, h, w, c), rows * h, cols * w, c)
  {
    var g := GroupRows(batch, rows, cols);
    GroupRowsImages(batch, rows, cols, h, w, c);
    var bands := seq(rows, r requires 0 <= r < rows => Band(g[r], h));
    forall r | 0 <= r < rows ensures IsImage(bands[r], h, cols * w, c) {
      BandShape(g[r], h, w, c);
    }
    FlattenUniformLength(bands, h);
    FlattenAll(bands, (row: seq<seq<T>>) => |row| == cols * w && forall x :: 0 <= x < cols * w ==> |row[x]| == c);
  }

  /** Pixel (y, x) of the cell in grid row r, column k is pixel (y, x) of image r * cols + k. */
  lemma TiledAt<T>(batch: seq<Image<T>>, rows: nat, cols: nat, h: nat, w: nat, c: nat,
                   r: nat, k: nat, y: nat, x: nat, ch: nat)
    requires |batch| == rows * cols && IsBatch(batch, h, w, c)
    requires r < rows && k < cols && y < h && x < w && ch < c
    ensures r * cols + k < |batch|
    ensures r * h + y < |Tiled(batch, rows, cols, h, w, c)|
    ensures k * w + x < |Tiled(batch, rows, cols, h, w, c)[r * h + y]|
    ensures ch < |Tiled(batch, rows, cols, h, w, c)[r * h + y][k * w + x]|
    ensures Tiled(batch, rows, cols, h, w, c)[r * h + y][k * w + x][ch] == batch[r * cols + k][y][x][ch]
  {
    var g := GroupRows(batch, rows, cols);
    GroupRowsImages(batch, rows, cols, h, w, c);
    var bands := seq(rows, i requires 0 <= i < rows => Band(g[i], h));
    FlattenUniformAt(bands, h, r, y);
    var pieces := seq(cols, j requires 0 <= j < cols => g[r][j][y]);
    assert bands[r][y] == Flatten(pieces);
    GroupRowsAt(batch, rows, cols, r, k);
    FlattenUniformAt(pieces, w, k, x);
    TiledShape(batch, rows, cols, h, w, c);
  }

  /**
   * Lines 138-140 on a batch of shape (B, h, w, c). `B // n_rows` raises for
   * n_rows == 0; a negative n_rows gives negative extents, which reshape
   * refuses; otherwise reshape succeeds iff the element counts agree, that is
   * iff n_rows divides B or the images hold no elements.
   */
  function Tile<T>(batch: seq<Image<T>>, rows: int, h: nat, w: nat, c: nat): (r: Result<Image<T>, Failure>)
    requires IsBatch(batch, h, w, c)
    ensures rows == 0 ==> r == Err(ZeroRows)
    ensures r.Ok? <==> rows > 0 && (|batch| % rows == 0 || h * w * c == 0)
    ensures r.Ok? ==> IsImage(r.value, rows * h, (|batch| / rows) * w, c)
  {
    if rows == 0 then Err(ZeroRows)
    else if rows < 0 then Err(BadReshape)
    else
      var cols := |batch| / rows;
      if |batch| % rows == 0 then
        ExactRows(|batch|, rows);
        TiledShape(batch, rows, cols, h, w, c);
        Ok(Tiled(batch, rows, cols, h, w, c))
      else if h * w * c == 0 then
        EmptyGridShape<T>(rows, cols, h, w, c);
        Ok(EmptyGrid(rows * h, cols * w))
      else
        Err(BadReshape)
  }

  /** An n-by-m grid of pixels without channels. */
  function EmptyGrid<T>(n: nat, m: nat): Image<T>
  {
    seq(n, _ => seq(m, _ => []))
  }

  lemma ExactRows(n: nat, rows: nat)
    requires rows > 0 && n % rows == 0
    ensures n == rows * (n / rows)
  {
  }

  /** When the images hold no elements, the reshaped grid holds none either. */
  lemma EmptyGridShape<T>(rows: nat, cols: nat, h: nat, w: nat, c: nat)
    requires h * w * c == 0
    ensures IsImage(EmptyGrid<T>(rows * h, cols * w), rows * h, cols * w, c)
  {
    if h == 0 {
      assert rows * h == 0;
    } else if w == 0 {
      assert cols * w == 0;
    } else {
      assert c == 0 by {
        assert h * w > 0;
      }
    }
  }

  lemma MulPositive(a: nat, b: nat)
    requires a > 0 && b > 0
    ensures a * b > 0
  {
  }

  /** A padded image holds no elements exactly when it has no channels. */
  lemma NoElements(h: nat, w: nat, c: nat)
    ensures (h + 2 * Border) * (w + 2 * Border) * c == 0 <==> c == 0
  {
    var area := (h + 2 * Border) * (w + 2 * Border);
    MulPositive(h + 2 * Border, w + 2 * Border);
    if c > 0 {
      MulPositive(area, c);
    }
  }

  /**
   * Grid mode, lines 136-140: concatenate the decoded sub-batches of images
   * of shape (h, w, c), pad each one and tile the padded batch.
   */
  function GridImage<T>(decoded: seq<seq<Image<T>>>, rows: int, h: nat, w: nat, c: nat, zero: T)
    : (r: Result<Image<T>, Failure>)
    requires IsBatch(Flatten(decoded), h, w, c)
    ensures r.Ok? <==> |decoded| > 0 && rows > 0 && (|Flatten(decoded)| % rows == 0 || c == 0)
    ensures r.Ok? ==> IsImage(r.value, rows * (h + 2 * Border), (|Flatten(decoded)| / rows) * (w + 2 * Border), c)
  {
    match Decoding.Concatenate(decoded)
    case Err(e) => Err(e)
    case Ok(x) =>
      PadShape(x, h, w, c, zero);
      NoElements(h, w, c);
      Tile(Pad(x, w, c, zero), rows, h + 2 * Border, w + 2 * Border, c)
  }

  /**
   * Pixel (y, x) of grid cell (r, k), where cols == B // n_rows, is pixel
   * (y, x) of padded image r * cols + k: zero in its 4-pixel border, and the
   * decoded image shifted by 4 inside it.
   */
  lemma GridAt<T>(decoded: seq<seq<Image<T>>>, rows: nat, cols: nat, h: nat, w: nat, c: nat, zero: T,
                  grid: Image<T>, r: nat, k: nat, y: nat, x: nat, ch: nat)
    requires IsBatch(Flatten(decoded), h, w, c) && |Flatten(decoded)| == rows * cols
    requires GridImage(decoded, rows, h, w, c, zero) == Ok(grid)
    requires r < rows && k < cols && y < h + 2 * Border && x < w + 2 * Border && ch < c
    ensures r * cols + k < |Flatten(decoded)|
    ensures r * (h + 2 * Border) + y < |grid|
    ensures k * (w + 2 * Border) + x < |grid[r * (h + 2 * Border) + y]|
    ensures ch < |grid[r * (h + 2 * Border) + y][k * (w + 2 * Border) + x]|
    ensures grid[r * (h + 2 * Border) + y][k * (w + 2 * Border) + x][ch] ==
            if Border <= y < h + Border && Border <= x < w + Border
            then Flatten(decoded)[r * cols + k][y - Border][x - Border][ch] else zero
  {
    var images := Flatten(decoded);
    var padded := Pad(images, w, c, zero);
    GridImageIsTiled(decoded, rows, cols, h, w, c, zero);
    PaddedTiledAt(images, rows, cols, h, w, c, zero, padded, grid, r, k, y, x, ch);
  }

  /** On a batch of n_rows * cols images, grid mode tiles the padded batch. */
  lemma GridImageIsTiled<T>(decoded: seq<seq<Image<T>>>, rows: nat, cols: nat, h: nat, w: nat, c: nat, zero: T)
    requires |decoded| > 0 && rows > 0
    requires IsBatch(Flatten(decoded), h, w, c) && |Flatten(decoded)| == rows * cols
    ensures |Pad(Flatten(decoded), w, c, zero)| == rows * cols
    ensures IsBatch(Pad(Flatten(decoded), w, c, zero), h + 2 * Border, w + 2 * Border, c)
    ensures GridImage(decoded, rows, h, w, c, zero) ==
            Ok(Tiled(Pad(Flatten(decoded), w, c, zero), rows, cols, h + 2 * Border, w + 2 * Border, c))
  {
    var images := Flatten(decoded);
    ExactCols(|images|, rows, cols);
    PadShape(images, h, w, c, zero);
    assert Decoding.Concatenate(decoded) == Ok(images);
  }

  /** The pixel mapping of the tiled padded batch: TiledAt composed with PadAt. */
  lemma PaddedTiledAt<T>(images: seq<Image<T>>, rows: nat, cols: nat, h: nat, w: nat, c: nat, zero: T,
                         padded: seq<Image<T>>, grid: Image<T>, r: nat, k: nat, y: nat, x: nat, ch: nat)
    requires IsBatch(images, h, w, c) && |images| == rows * cols
    requires padded == Pad(images, w, c, zero) && IsBatch(padded, h + 2 * Border, w + 2 * Border, c)
    requires grid == Tiled(padded, rows, cols, h + 2 * Border, w + 2 * Border, c)
    requires r < rows && k < cols && y < h + 2 * Border && x < w + 2 * Border && ch < c
    ensures r * cols + k < |images|
    ensures r * (h + 2 * Border) + y < |grid|
    ensures k * (w + 2 * Border) + x < |grid[r * (h + 2 * Border) + y]|
    ensures ch < |grid[r * (h + 2 * Border) + y][k * (w + 2 * Border) + x]|
    ensures grid[r * (h + 2 * Border) + y][k * (w + 2 * Border) + x][ch] ==
            if Border <= y < h + Border && Border <= x < w + Border
            then images[r * cols + k][y - Border][x - Border][ch] else zero
  {
    TiledAt(padded, rows, cols, h + 2 * Border, w + 2 * Border, c, r, k, y, x, ch);
    PadAt(images[r * cols + k], h, w, c, zero, y, x, ch);
  }

  lemma ExactCols(n: nat, rows: nat, cols: nat)
    requires rows > 0 && n == rows * cols
    ensures n % rows == 0 && n / rows == cols
  {
    var q, m := n / rows, n % rows;
    assert n == rows * q + m;
    assert rows * (cols - q) == m;
    if cols > q {
      MulAtLeast(rows, cols - q);
    } else if cols < q {
      MulAtMost(rows, cols - q);
    }
  }

  lemma MulAtLeast(a: nat, d: int)
    requires d >= 1
    ensures a * d >= a
  {
  }

  lemma MulAtMost(a: nat, d: int)
    requires a > 0 && d <= -1
    ensures a * d + a <= 0
  {
  }
}
