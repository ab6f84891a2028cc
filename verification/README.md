# txt2image orchestration core, modelled in Dafny

`txt2image.py` of mlx-chroma turns a text prompt into images by driving a
diffusion pipeline (`ChromaPipeline`). This project models the integer, index
and string logic of that script. The pipeline itself stays opaque. Five
modules hold the model, plus one shared module:

- `LatentSize` (latent.dfy): `to_latent_size`. Each pixel dimension is rounded
  up to a multiple of 16 and divided by 8. The result is ordered (height, width).
  The model includes the warning condition exactly as coded.
- `Decoding` (decoding.dfy): the decode driver. The latent batch is cut into
  slices `x_t[i : i + decoding_batch_size]`, one per `i` in
  `range(0, n_images, decoding_batch_size)`. Each slice goes through
  `chroma.decode`, and the results are appended to `decoded`. The decoder is an
  uninterpreted function applied to each latent. The loop is a `while` loop
  proved against the sub-batch partition `SubBatches`.
- `RawNaming` (naming.dfy): raw output mode. The output path is split at its
  last `.`. Image `i` is saved as `name.i.suffix`. The save loop is a method
  that builds the list of (path, image) pairs.
- `Grid` (grid.dfy): grid output mode. Each image gets a 4-pixel zero border.
  The batch axis is reshaped to `(n_rows, B // n_rows)`, the axes are transposed
  `(0, 2, 1, 3, 4)`, and the result is flattened into one image. Images are
  nested sequences over any element type.
- `Telemetry` (telemetry.dfy): the overall peak memory, which is the max of the
  three phase readings.
- `Common` (common.dfy): `Result`/`Option`, the failures the script can raise,
  Python slicing, and list concatenation.

The operations that can raise return a `Result`. Those errors are: a zero
range step, `mx.concatenate` of an empty list, `B // 0`, and a reshape that
cannot succeed.

Points where the code's behaviour departs from what its own text suggests;
the model follows the code:

- The warning message says the dimensions "need to be divisible by 16px" and
  names the corrected size (txt2image.py:21-22), so it is meant to fire only
  when rounding changes the size. The code compares the rounded `(h, w)` with
  the input `(w, h)`, so it also warns for every non-square size (see Findings).
- `--decoding-batch-size` is parsed as any integer (txt2image.py:61) and used
  directly as the `range` step (txt2image.py:118). A step of 0 makes `range`
  raise. A negative step gives an empty range, so nothing is decoded, and the
  later `mx.concatenate` of the empty list raises.
- Raw naming splits at the last `.`. A path with no `.` gives an empty name, so
  the path computed for image 0 of `out` is `.0.out`. `im.save` then rejects
  that path, because `.out` is not an image file extension it knows, and the
  run stops before any file is written.
- A grid layout that does not divide the batch fails in `reshape`. The one
  exception is images with zero channels: then both shapes hold no elements
  and `reshape` accepts them.

## Model

| member | source | states |
|---|---|---|
| LatentSize.RoundUp16 | txt2image.py:16-17 | `((d + 15) // 16) * 16` is a multiple of 16 in `[d, d + 16)`, i.e. the least multiple of 16 that is at least d, for every integer d |
| LatentSize.ToLatentSize | txt2image.py:14-25 | the result is (height, width): latent.0 * 8 is the least multiple of 16 at least h and latent.1 * 8 the one for w; the warning is printed iff the rounded (height, width) pair differs from the input (width, height) pair, and it names the corrected (width, height) |
| LatentSize.LatentIsLeast | txt2image.py:16-17 | no multiple of 16 that is at least a dimension lies below its resolved pixel size |
| LatentSize.LatentPositiveEven | txt2image.py:16-17 | for positive w and h both latent components are positive and even |
| LatentSize.LatentOfDivisible | txt2image.py:25 | a size already divisible by 16 resolves to exactly (h / 8, w / 8) |
| LatentSize.RoundUp16Fixed | txt2image.py:16-17 | rounding leaves a dimension unchanged iff it is a multiple of 16 |
| LatentSize.WarningAsWritten | txt2image.py:19-23 | the warning as coded fires iff w or h is not a multiple of 16, or w != h |
| LatentSize.SpuriousWarning | txt2image.py:19-23 | a non-square size already divisible by 16 is still warned about, and the warning names the unchanged size |
| LatentSize.ToLatentSizeIntended | txt2image.py:14-25 | the corrected resolver has the same latent size as the coded one; its warning names the corrected (width, height) |
| LatentSize.IntendedWarning | txt2image.py:19-23 | the corrected warning fires iff w or h is not a multiple of 16 |
| Common.Slice | txt2image.py:119 | Python slicing `xs[lo:hi]`: the plain slice when it is in bounds, cut back to the end when hi runs past it, and its length in every case |
| Common.FlattenAppend | txt2image.py:129 | concatenating a list of parts split in two is concatenating each half and joining the results |
| Common.FlattenUniformLength | txt2image.py:129 | concatenating parts that all have length len gives count * len elements |
| Common.FlattenUniformAt | txt2image.py:129 | element j of part k sits at k * len + j of the concatenation of equal-length parts |
| Common.FlattenAll | txt2image.py:129 | a property of every element of every part holds of every element of the concatenation |
| Decoding.DecodeBatch | txt2image.py:119 | `chroma.decode` of a sub-batch returns one image per latent, image k being the decoding of latent k |
| Decoding.SubBatchesFrom | txt2image.py:118-119 | the slices taken for i in `range(start, n, bs)`: there are none iff start >= n, and each is non-empty with at most bs latents |
| Decoding.SubBatches | txt2image.py:118-119 | the slices taken for i in `range(0, n, bs)`: there are none iff the batch is empty, and each is non-empty with at most bs latents |
| Decoding.DecodeBatchAppend | txt2image.py:119 | decoding a concatenation of latents is the concatenation of their decodings, because decoding works per element |
| Decoding.DecodeEachFlatten | txt2image.py:117-120 | concatenating the per-sub-batch decodings equals decoding the concatenated sub-batches |
| Decoding.SubBatchesCover | txt2image.py:118-119 | the sub-batches concatenate back to the whole latent batch: contiguous, in order, each index exactly once |
| Decoding.SubBatchesCount | txt2image.py:118 | there are ceil(n / bs) sub-batches: (count - 1) * bs < n <= count * bs |
| Decoding.SubBatchAt | txt2image.py:118-119 | sub-batch k is the slice [k * bs, min(k * bs + bs, n)), and it starts inside the batch |
| Decoding.SubBatchLength | txt2image.py:118-119 | every sub-batch is non-empty, and every one but the last holds exactly bs latents |
| Decoding.SubBatchesStep | txt2image.py:118-119 | the slice `x_t[i : i + bs]` taken at step i, followed by the sub-batches from i + bs, is the list of sub-batches from i |
| Decoding.DecodeEachCons | txt2image.py:119 | decoding a list of sub-batches one at a time decodes its head first, then the rest in order |
| Decoding.DecodeAll | txt2image.py:117-120 | step 0 raises; a negative step decodes nothing; a positive step makes one decode call per sub-batch, in order, with ceil(n / bs) calls, and concatenating `decoded` gives the decoding of the whole batch |
| Decoding.Concatenate | txt2image.py:129 | `mx.concatenate(decoded)` succeeds iff the list is non-empty, and it then is the parts joined in order (Flatten, characterised by the Common.Flatten* lemmas) |
| RawNaming.Split | txt2image.py:127 | `str.split(".")` gives at least one piece, and no piece contains the separator |
| RawNaming.Join | txt2image.py:128 | `sep.join(parts)` starts with the first piece, and with two or more pieces the separator follows it |
| RawNaming.JoinSplit | txt2image.py:127-128 | `".".join(s.split("."))` gives back s |
| RawNaming.JoinLast | txt2image.py:128 | joining two or more pieces puts the separator between the last piece and the join of the others |
| RawNaming.SplitCount | txt2image.py:127 | a path splits into more than one piece iff it contains a `.` |
| RawNaming.SplitOutput | txt2image.py:127-128 | the suffix contains no `.`; if the path contains a `.` it is name + "." + suffix (so the split is at the last `.`); otherwise the name is empty and the suffix is the whole path |
| RawNaming.DecimalString | txt2image.py:133 | `str(i)` is a non-empty string of decimal digits with no leading zero unless i == 0 (its value is given by ParseDecimalString) |
| RawNaming.ParseDecimalString | txt2image.py:133 | reading the digits of `str(n)` gives back n |
| RawNaming.RawName | txt2image.py:133 | `".".join([name, str(i), suffix])` is name + "." + str(i) + "." + suffix |
| RawNaming.RawNameInjective | txt2image.py:131-133 | two image indices get the same path only if they are equal |
| RawNaming.DistinctPaths | txt2image.py:131-133 | images saved under RawName(p, 0), RawName(p, 1), ... never share a path |
| RawNaming.SaveEach | txt2image.py:131-133 | the save loop writes exactly one image per element of x, image i under RawName(p, i), in order |
| RawNaming.SaveRaw | txt2image.py:127-133 | fails iff `decoded` is empty; otherwise saves exactly len(x) images, image i of the concatenation under RawName(split path, i), with pairwise distinct paths |
| Grid.PadImage | txt2image.py:137 | padding one image adds 4 rows above and below it, and the border rows are w + 8 pixels wide |
| Grid.Pad | txt2image.py:137 | padding keeps the batch size and adds 8 rows to every image |
| Grid.PadShape | txt2image.py:137 | padding keeps the batch size and turns images of shape (h, w, c) into images of shape (h + 8, w + 8, c) |
| Grid.PadAt | txt2image.py:137 | a padded pixel is zero in the 4-wide border and equals the original pixel at [y - 4][x - 4] inside it |
| Grid.RowCells | txt2image.py:139 | each grid row holds exactly cols images |
| Grid.GroupRows | txt2image.py:139 | reshaping the batch axis to (rows, cols) gives rows grid rows of cols images each |
| Grid.GroupRowsAt | txt2image.py:139 | cell (r, k) of the reshaped batch is image r * cols + k |
| Grid.GroupRowsImages | txt2image.py:139 | every cell of the reshaped batch keeps the image shape (h, w, c) |
| Grid.Band | txt2image.py:139-140 | one transposed grid row of images of height h has h pixel rows |
| Grid.BandShape | txt2image.py:139-140 | one transposed grid row of images of shape (h, w, c) is an image of shape (h, cols * w, c) |
| Grid.Tiled | txt2image.py:139-140 | the grid rows stacked top to bottom give rows * h pixel rows |
| Grid.TiledShape | txt2image.py:139-140 | the tiled grid has shape (rows * h, cols * w, c) |
| Grid.TiledAt | txt2image.py:139-140 | grid pixel [r * h + y][k * w + x][ch] equals pixel [y][x][ch] of image r * cols + k |
| Grid.EmptyGridShape | txt2image.py:139-140 | when the images hold no elements, the reshaped grid still has shape (rows * h, cols * w, c) |
| Grid.Tile | txt2image.py:138-140 | n_rows == 0 raises ZeroDivisionError; the tiling succeeds iff n_rows > 0 and n_rows divides B (or the images hold no elements), and its result has shape (n_rows * H, (B // n_rows) * W, C) |
| Grid.GridImage | txt2image.py:136-140 | grid mode succeeds iff `decoded` is non-empty, n_rows > 0 and n_rows divides B (or C == 0); the grid has shape (n_rows * (h + 8), (B // n_rows) * (w + 8), c) |
| Grid.GridImageIsTiled | txt2image.py:136-140 | on a non-empty `decoded` of n_rows * cols images, grid mode returns the tiling of the padded batch |
| Grid.PaddedTiledAt | txt2image.py:137-140 | pixel [r * (h + 8) + y][k * (w + 8) + x][ch] of the tiled padded batch is zero in the border of cell (r, k) and pixel [y - 4][x - 4][ch] of image r * cols + k inside it |
| Grid.GridAt | txt2image.py:136-140 | when B == n_rows * cols (so cols == B // n_rows), pixel [r * (h + 8) + y][k * (w + 8) + x][ch] of the grid is zero in the border of cell (r, k) and equals pixel [y - 4][x - 4][ch] of decoded image r * cols + k inside it |
| Telemetry.OverallPeak | txt2image.py:122-124 | the overall peak is at least each phase peak and equals one of them |
| Telemetry.OverallPeakLeast | txt2image.py:122-124 | every bound on all three phase peaks bounds the overall peak, so it is their max and not their sum |

## Findings

| source | as written | input that shows it | evidently intended | confidence | as-written member | corrected member |
|---|---|---|---|---|---|---|
| txt2image.py:19 | `if (h, w) != image_size` compares the rounded (height, width) with the input `(w, h)` | `--image-size 512x768`, which is already divisible by 16, prints "Changing size to 512x768" | warn iff rounding changed the size, i.e. compare `(w, h)` with `image_size` | high; not executed | LatentSize.SpuriousWarning | LatentSize.ToLatentSizeIntended |

The latent size returned is the same in both versions (the ensures of
`ToLatentSizeIntended`). Only the diagnostic differs.

## Left out

- Argument parsing (lines 43-72) and `print(args.n_images)`: command-line plumbing. The model takes the parsed values as parameters.
- `ChromaPipeline`: its construction, `ensure_models_are_loaded`, `generate_latents` and the internals of `decode`. These are foreign model code. `decode` is an uninterpreted per-latent function, and its `latent_size` argument is fixed for the run, so it is dropped.
- The staged execution (lines 95-114): pulling the conditioning with `next`, the denoising loop over the generator, and `del chroma.t5` / `del chroma.flow`. These drive pipeline-owned state. The model starts from the final latent batch `x_t` and assumes it has `n_images` entries, so the loop bound is its length. A `NameError` when no denoising step ran is not modelled.
- `mx.eval`, `mx.get_peak_memory`, `mx.reset_peak_memory` and `time.perf_counter`: device barriers, a global allocator and the wall clock.
- Telemetry.OverallPeak: the readings are natural byte counts rather than floats in GiB. The division by 1024³ is floating point.
- The quantization `(x * 255).astype(mx.uint8)` (lines 130 and 141): floating point. Grid and raw images carry the unquantized values.
- RawNaming.SaveRaw: failures of `im.save` are not modelled. These include an unknown file extension, such as the `.out` of an output path with no `.`, and a path that cannot be written. So `Ok` means the (path, image) pairs were computed, not that the files were written.
- `Image.fromarray` and `im.save`: file I/O. `SaveRaw` returns the (path, image) pairs it would write, and `GridImage` returns the grid image.
- `quantization_predicate` and `load_adapter` (lines 28-39): unused on the active path, and thin wrappers over model methods.
- `tqdm` progress bars and the verbose prints (lines 149-154).
- Two facts about mlx are taken as given, not derived from its source: `mx.concatenate` of an empty list raises, and `reshape` refuses negative extents other than a single inferred one. This is why a negative `n_rows` is reported as a reshape failure.
