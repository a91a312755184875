# DCT2 image compression — a Dafny model

This project models the core of the DCT2 image compression tool, a small
Python program that compresses grayscale BMP images block by block. It has
three parts.

- **Compression.** `compress_image` (compression_tool/main.py) cuts the plane
  into F×F blocks. Rows and columns left over past the last whole block are
  dropped. Each block goes through the orthonormal 2-D DCT-II (`dct2`). Every
  coefficient (k, l) with `k + l >= d` is zeroed in place. The block is then
  transformed back (`idct2`), rounded half to even (`np.round`), clipped to
  [0, 255] and written into a fresh output plane. The plane is cast to
  `uint8` at the end.
- **Output name.** `dct2_compress` names the result
  `<stem>_compressed_F<F>_d<d>.bmp`, where the stem is the input's base name
  without its extension.
- **Window.** `DCT2App` (compression_tool/gui.py) keeps the d slider's upper
  bound at `2F - 2` and lowers d when F shrinks. Its `submit` checks the input
  file, the output folder, `F > 0` and `0 <= d <= 2F - 2`, in that order, and
  shows the first error.

Modules:

- `Rounding` (rounding.dfy): `np.round`, `np.clip` and the `uint8` cast of a single sample.
- `Decimal` (decimal.dfy): how Python writes an integer in an f-string, with a parser that reads it back.
- `Compressor` (compressor.dfy): `compress_image`.
  - `CompressImage` is imperative: a fresh `array2` output, an in-place cutoff loop over a coefficient array, and block writes.
  - It is proved equal to the pure specification `Compress`: blocks computed by `CompressBlock`, then stitched together.
  - The lemmas state what that specification promises.
- `OutputName` (output_name.dfy): `os.path.basename`, `os.path.splitext` and the output file name, with a parser that reads the stem, F and d back out of a name.
- `Gui` (gui.py → gui.dfy): class `DCT2App` with the sliders' state, `update_d_slider`, and the checks of `submit`.

`dct2` and `idct2` are floating-point library calls. Here they are the two
fields of a `Transform` value: arbitrary functions on real matrices. The model
assumes only that each maps an F×F block to an F×F block (`Fits`). Every
property proved about compression holds for any such pair of transforms.

The largest `k + l` in an F×F block is `2F - 2`, so one might expect
`d = 2F - 2` to keep every coefficient. The code zeroes (k, l) when
`k + l >= d`, so `d = 2F - 2` still drops the corner (F-1, F-1).
`Compressor.MaskCornerDropped` proves the corner is dropped for every
`d <= 2F - 2`. `Compressor.MaskFullRetention` proves that a cutoff of
`2F - 1` or more keeps the whole block. Together they give
`Compressor.MaskKeepsAllIff`: a block whose corner coefficient is non-zero is
kept whole exactly when `d >= 2F - 1`. The window never accepts such a d
(`Gui.ValidWindowPassesRangeChecks`). The command-line prompt (main.py:134)
asks for `0 <= d < 2F - 1`, which is the same range.

## Model

| member | source | states |
|---|---|---|
| `Rounding.RoundHalfEven` | compression_tool/main.py:60 | the result is within 1/2 of x, and an exact tie goes to the even neighbour |
| `Rounding.RoundHalfEvenUnique` | compression_tool/main.py:60 | any integer within 1/2 of x that is even on a tie is exactly `np.round(x)` |
| `Rounding.Clip` | compression_tool/main.py:61 | the result lies in [0, 255]: a value in range is unchanged, one below 0 becomes 0 and one above 255 becomes 255 |
| `Rounding.ToSample` | compression_tool/main.py:60-64 | a rounded, clipped, cast sample is a pixel value in [0, 255] |
| `Rounding.ToSampleNearest` | compression_tool/main.py:60-61 | no pixel value in [0, 255] is closer to the real sample than the one produced |
| `Rounding.ToSampleOfPixel` | compression_tool/main.py:60-64 | a sample that is already an integer in [0, 255] comes out unchanged |
| `Decimal.IntToString` | compression_tool/main.py:115 | the text is non-empty, starts with '-' exactly for negative numbers, and is otherwise digits |
| `Decimal.ParseIntOfIntToString` | compression_tool/main.py:115 | reading back the decimal text of any integer gives that integer |
| `Decimal.IntToStringInjective` | compression_tool/gui.py:133 | two integers with the same decimal text are equal |
| `Compressor.Window` | compression_tool/main.py:51 | the block slice is F×F, and its entry (k, l) is pixel (r0+k, c0+l) |
| `Compressor.Quantize` | compression_tool/main.py:60-61 | the block keeps its shape and every entry is in [0, 255] |
| `Compressor.CompressBlock` | compression_tool/main.py:51-61 | a compressed block is F×F with every pixel in [0, 255] |
| `Compressor.CompressShape` | compression_tool/main.py:43-47 | the output has `(h // F) * F` rows of `(w // F) * F` pixels |
| `Compressor.CompressAt` | compression_tool/main.py:49-62 | output cell (r, c) is cell (r % F, c % F) of the compressed input block (r // F, c // F) |
| `Compressor.BlockGrid` | compression_tool/main.py:49-61 | the grid has `h // F` rows of `w // F` blocks, each an F×F compressed block |
| `Compressor.Stitch` | compression_tool/main.py:62 | blocks stacked in strips of F rows give F output rows per strip |
| `Compressor.Compress` | compression_tool/main.py:43-62 | the output has one row for each of the `(h // F) * F` kept input rows |
| `Compressor.TileCell` | compression_tool/main.py:62 | cell (r, c) of output block (i, j) is cell (r - iF, c - jF) of the grid's block (i, j) |
| `Compressor.CompressRange` | compression_tool/main.py:60-64 | every output pixel is in [0, 255], so the `uint8` cast loses nothing |
| `Compressor.DegenerateSizes` | compression_tool/main.py:43-47 | F above the height gives no rows, and F above the width gives empty rows |
| `Compressor.SameWindow` | compression_tool/main.py:51 | two planes that agree on block (i, j) give the same block slice |
| `Compressor.BlockIndependence` | compression_tool/main.py:49-62 | output block (i, j) depends only on input block (i, j) |
| `Compressor.RemainderNeverRead` | compression_tool/main.py:43-51 | changing only the `h % F` bottom rows or the `w % F` right columns leaves the output unchanged |
| `Compressor.Masked` | compression_tool/main.py:54-57 | the coefficient block keeps its shape; entry (k, l) is kept when `k + l < d` and is 0 when `k + l >= d` |
| `Compressor.MaskZeroCutoff` | compression_tool/main.py:54-57 | with d <= 0 every coefficient is zeroed |
| `Compressor.MaskCornerDropped` | compression_tool/main.py:54-57 | for every d <= 2F-2 the coefficient (F-1, F-1) is zeroed |
| `Compressor.MaskKeepsDc` | compression_tool/main.py:54-57 | coefficient (0, 0) is kept exactly when d >= 1 |
| `Compressor.MaskFullRetention` | compression_tool/main.py:54-57 | with d >= 2F-1 an F×F coefficient block is left unchanged |
| `Compressor.MaskKeepsAllIff` | compression_tool/main.py:54-57 | an F×F block with a non-zero corner coefficient is left unchanged exactly when d >= 2F-1 |
| `Compressor.MaskTwice` | compression_tool/main.py:54-57 | applying cutoff d1 and then d2 is the same as applying the smaller one |
| `Compressor.ZeroCutoffForgetsInput` | compression_tool/main.py:52-61 | with d <= 0 every block of a given size compresses to the same output |
| `Compressor.FullRetentionBlock` | compression_tool/main.py:52-61 | with d >= 2F-1 a block is only transformed there and back, then rounded and clipped |
| `Compressor.LosslessWhenAllKept` | compression_tool/main.py:52-61 | if the inverse transform undoes the forward one exactly and d >= 2F-1, a block of pixel values comes back unchanged |
| `Compressor.CoefficientArray` | compression_tool/main.py:52 | a fresh F×F array holds the transform's coefficients |
| `Compressor.MaskInPlace` | compression_tool/main.py:54-57 | after the in-place loop, the array holds the cutoff of its old contents |
| `Compressor.PlaceBlock` | compression_tool/main.py:62 | the block's cells of the output take the block's values, and every other cell is unchanged |
| `Compressor.CompressOneBlock` | compression_tool/main.py:52-61 | the array-based pipeline for one block gives exactly `CompressBlock` of that block |
| `Compressor.TileOfPlane` | compression_tool/main.py:49-62 | cell (r, c) of output block (i, j) is the matching cell of input block (i, j), sliced at (iF, jF) and compressed |
| `Compressor.CompressTile` | compression_tool/main.py:51-61 | the block computed in one loop iteration is, cell for cell, output block (i, j) of the specification |
| `Compressor.CompressStrip` | compression_tool/main.py:50-62 | the loop over j writes the specified output into every block of block-row i, and nothing else |
| `Compressor.FloorDiv` | compression_tool/main.py:44-45 | Python's `//`: the quotient rounded toward minus infinity, for either sign of the divisor |
| `Compressor.BlockCount` | compression_tool/main.py:44-47 | for F > 0, `h // F` is the block count and `(h // F) * F` lies in [0, h]; for F < 0 the count is <= 0 and `(h // F) * F` lies in [h, h - F) |
| `Compressor.CompressImage` | compression_tool/main.py:35-64 | a fresh `(h // F) * F` × `(w // F) * F` plane; for F > 0 it equals the block-by-block specification `Compress`, for F < 0 it is all zeros |
| `OutputName.LastIndexOf` | compression_tool/main.py:114 | the result is the index of the last occurrence of the character, or -1 if it does not occur |
| `OutputName.Basename` | compression_tool/main.py:114 | the base name is the longest '/'-free suffix of the path |
| `OutputName.StripExtension` | compression_tool/main.py:114 | the root is a prefix; if something is removed, it starts at the last '.' and the root is not all dots; if nothing is removed, everything before the last '.' is dots |
| `OutputName.BasenameAfterSlash` | compression_tool/main.py:114 | the base name of `dir/file` is `file` |
| `OutputName.StemOfBmp` | compression_tool/main.py:114 | a `<dir>/<stem>.bmp` input yields the stem `<stem>` |
| `OutputName.CompressedName` | compression_tool/main.py:114-115 | the output name contains no '/' and ends in `.bmp` |
| `OutputName.ParseCompressedNameRoundTrip` | compression_tool/main.py:114-115 | the output name can be parsed back into the input's stem, F and d |
| `Gui.MaxD` | compression_tool/gui.py:102 | the bound `2F - 2` is even, and it is non-negative exactly when F >= 1 |
| `Gui.ClampD` | compression_tool/gui.py:100-105 | the new d is the smaller of the old d and 2F-2 |
| `Gui.ClampDIdempotent` | compression_tool/gui.py:100-105 | clamping twice with the same F is the same as clamping once |
| `Gui.ClampDCases` | compression_tool/gui.py:104-105 | a d within the bound is kept, and a d above it becomes exactly 2F-2 |
| `Gui.FirstFailure` | compression_tool/gui.py:119-138 | the result is nothing exactly when every check passes, and otherwise the error of the first check that fails |
| `Gui.Message` | compression_tool/gui.py:127-133 | every error text ends in '.', and only the d error starts with 'd' |
| `Gui.DCT2App.Valid` | compression_tool/gui.py:84-91 | the sliders keep 1 <= F <= 64, the d bound at 2F-2 and d within it, so 0 <= d <= 126 |
| `Gui.DCT2App.Checks` | compression_tool/gui.py:126-133 | four guards, and all of them pass exactly when the file and folder exist, F > 0 and 0 <= d <= 2F-2 |
| `Gui.DCT2App.constructor` | compression_tool/gui.py:16-20 | the window starts with F = 8, d = 10, a d bound of 14, no file, the folder `<cwd>\output\` and the image shown |
| `Gui.DCT2App.UpdateDSlider` | compression_tool/gui.py:100-105 | the d bound becomes 2·val-2, d is clamped to it, and the other fields are unchanged |
| `Gui.DCT2App.MoveFSlider` | compression_tool/gui.py:84-86 | setting F through its slider keeps 1 <= F <= 64, the bound 2F-2 and 0 <= d <= bound |
| `Gui.DCT2App.MoveDSlider` | compression_tool/gui.py:90-91 | setting d within its slider keeps the window's invariant |
| `Gui.DCT2App.Submit` | compression_tool/gui.py:118-138 | the compressor is called exactly when all four checks pass, with the window's values |
| `Gui.SubmitIsFirstFailure` | compression_tool/gui.py:126-133 | the error raised is the first failing check in the order file, folder, F, d |
| `Gui.SubmitRejectsNonPositiveF` | compression_tool/gui.py:130-131 | with a valid file and folder, F <= 0 gives the message "F must be a positive integer." |
| `Gui.SubmitBlockSizeOne` | compression_tool/gui.py:132-133 | with F = 1 only d = 0 is accepted, and any other d gives the error with bound 0 |
| `Gui.SubmitFileFirst` | compression_tool/gui.py:126-127 | a missing input file is the error reported, whatever F and d are |
| `Gui.ValidWindowPassesRangeChecks` | compression_tool/gui.py:126-133 | if the sliders' invariant holds, only the file and folder checks can fail |
| `Gui.MessageOfBadD` | compression_tool/gui.py:133 | the d message is the fixed prefix, then the bound's decimal text, then '.' |
| `Gui.MessagesDiffer` | compression_tool/gui.py:126-133 | different errors show different messages, so the message identifies the failed check and the bound |

## Left out

- Floating point: samples and coefficients are reals. The rounding error of `dctn`/`idctn` and of the float64 plane is not modelled.
- `dct2`/`idct2` (main.py:11-22) are uninterpreted. Orthonormality and the exact inverse are not proved. `Compressor.LosslessWhenAllKept` takes the exact inverse as a hypothesis.
- `Compressor.CompressImage`: the grayscale conversion happens earlier, in `Image.open(...).convert('L')`, and is not modelled. The input is any 2-D integer array.
- `Compressor.CompressImage`: F = 0 is excluded by its precondition. There `h // F` (main.py:44) raises ZeroDivisionError, and that error path is not modelled. A negative F is modelled: it gives an all-zero plane.
- Image I/O is not modelled: `Image.open`, `save_compressed_image`, `Image.fromarray` and `open_image` (which launches a viewer).
- `os.makedirs` and `os.path.join` (main.py:117-119) are not modelled. The model stops at the file name.
- `select_image`, the command-line block (main.py:125-136) and `input()` parsing are not modelled. They are interactive I/O.
- `OutputName.Basename`: the path separator is '/' only, as in POSIX `os.path`. The Windows rules (backslash and drive letters) are not modelled.
- Tkinter is not modelled: widgets, styling, `create_widgets`, the file and folder dialogs (`browse_file`, `browse_output_folder`) and the error box.
- `os.path.isfile` and `os.path.isdir` are the functions of a `FileSystem` parameter.
- `Gui.DCT2App.Submit` stops at the point where it calls the compressor, and returns that call's arguments.
  - The call at gui.py:135 passes five arguments (including `show_img`) to the four-parameter `dct2_compress` (main.py:101).
  - In Python that raises TypeError, which `except ValueError` does not catch.
  - What happens after the call is not modelled.
- The benchmark package (dct2_performance/) is not part of this model.
