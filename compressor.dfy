/**
 * `compress_image` (compression_tool/main.py:35-64): tile a grayscale plane
 * into F×F blocks, transform each block, zero every coefficient (k,l) with
 * k + l >= d, transform back, round, clip, and write the block into a freshly
 * allocated output plane. The remainder rows and columns that do not fill a
 * whole block are dropped.
 *
 * `dct2`/`idct2` (main.py:11-22) are floating-point library calls; here they
 * are two arbitrary functions on real matrices, about which the model assumes
 * only that they map an F×F matrix to an F×F matrix.
 */
module Compressor {
  import opened Rounding

  /** A block of samples or of coefficients, as the transform sees it. */
  type Matrix = seq<seq<real>>

  /** A block or plane of output pixels. */
  type Pixels = seq<seq<int>>

  /** `m` has `rows` rows, each of length `cols`. */
  predicate IsGrid<T>(m: seq<seq<T>>, rows: int, cols: int) {
    |m| == rows && forall k :: 0 <= k < |m| ==> |m[k]| == cols
  }

  function Width<T>(p: seq<seq<T>>): nat {
    if p == [] then 0 else |p[0]|
  }

  /** A 2-D array: every row as wide as the first. */
  predicate IsPlane<T>(p: seq<seq<T>>) {
    IsGrid(p, |p|, Width(p))
  }

  /** The contents of a 2-D array, row by row. */
  function Rows<T>(a: array2<T>): (s: seq<seq<T>>)
    reads a
    ensures IsGrid(s, a.Length0, a.Length1)
    ensures forall r, c :: 0 <= r < a.Length0 && 0 <= c < a.Length1 ==> s[r][c] == a[r, c]
  {
    seq(a.Length0, r requires 0 <= r < a.Length0 reads a =>
      seq(a.Length1, c requires 0 <= c < a.Length1 reads a => a[r, c]))
  }

  /** An array whose every cell matches the grid `m` of its shape holds exactly `m`. */
  lemma RowsOf<T>(a: array2<T>, m: seq<seq<T>>)
    requires IsGrid(m, a.Length0, a.Length1)
    requires forall r, c :: 0 <= r < a.Length0 && 0 <= c < a.Length1 ==> a[r, c] == m[r][c]
    ensures Rows(a) == m
  {
    var s := Rows(a);
    forall r | 0 <= r < |s| ensures s[r] == m[r] {
      assert |s[r]| == |m[r]|;
    }
  }

  /** The forward and inverse 2-D transforms `dct2` and `idct2`, left uninterpreted. */
  datatype Transform = Transform(dct2: Matrix -> Matrix, idct2: Matrix -> Matrix)

  ghost predicate KeepsShape(f: Matrix -> Matrix, n: int) {
    forall m :: IsGrid(m, n, n) ==> IsGrid(f(m), n, n)
  }

  /** Both transforms map an n×n block to an n×n block, as `dctn`/`idctn` do. */
  ghost predicate Fits(t: Transform, n: int) {
    KeepsShape(t.dct2, n) && KeepsShape(t.idct2, n)
  }

  // ---------------------------------------------------------------------------
  // Tiling arithmetic

  lemma MulLe(a: int, b: int, F: int)
    requires a <= b && F >= 0
    ensures a * F <= b * F
  {
    assert b * F - a * F == (b - a) * F;
  }

  lemma MulSucc(a: int, F: int)
    ensures (a + 1) * F == a * F + F
  {
  }

  /** Division by `F` is determined by quotient and remainder. */
  lemma DivModUnique(x: int, F: int, q: int, m: int)
    requires F > 0 && 0 <= m < F && x == q * F + m
    ensures x / F == q && x % F == m
  {
    var q0, m0 := x / F, x % F;
    assert x == q0 * F + m0;
    if q0 > q {
      MulLe(q + 1, q0, F);
    } else if q0 < q {
      MulLe(q0 + 1, q, F);
    }
  }

  /** Offset `k` of block `i` is cell `i*F + k`, and that cell gives back `i` and `k`. */
  lemma TileOf(i: int, k: int, F: int)
    requires F > 0 && 0 <= k < F
    ensures (i * F + k) / F == i && (i * F + k) % F == k
  {
    DivModUnique(i * F + k, F, i, k);
  }

  /** Dropping one block's width from a cell moves it one block back, at the same offset. */
  lemma PreviousTile(x: int, F: int)
    requires F > 0 && x >= F
    ensures (x - F) / F == x / F - 1 && (x - F) % F == x % F
  {
    assert x == (x / F) * F + x % F;
    DivModUnique(x - F, F, x / F - 1, x % F);
  }

  /** Cell `x` lies between the start of its block and the start of the next one. */
  lemma InOwnTile(x: int, F: int)
    requires F > 0 && x >= 0
    ensures (x / F) * F <= x < (x / F) * F + F
  {
    assert x == (x / F) * F + x % F;
  }

  /** Block `i` of a dimension `n` cut into `n / F` blocks lies inside the kept part of `n`. */
  lemma TileFits(i: int, n: int, F: int)
    requires F > 0 && 0 <= i < n / F && 0 <= n
    ensures 0 <= i * F && i * F + F <= (n / F) * F <= n
  {
    MulLe(0, i, F);
    MulLe(i + 1, n / F, F);
  }

  /** Python's `a // b`: the quotient rounded toward negative infinity (Dafny's `/` is Euclidean). */
  function FloorDiv(a: int, b: int): (q: int)
    requires b != 0
    ensures b > 0 ==> q * b <= a < q * b + b
    ensures b < 0 ==> q * b + b < a <= q * b
  {
    var e := a / b;
    assert a == e * b + a % b;
    if b > 0 || a % b == 0 then e
    else
      assert (e - 1) * b == e * b - b;
      e - 1
  }

  /** `h // F` blocks of F: for F > 0 the kept part of the plane; for F < 0 a count <= 0 whose product covers the plane. */
  lemma BlockCount(n: int, F: int)
    requires n >= 0 && F != 0
    ensures F > 0 ==> FloorDiv(n, F) == n / F && 0 <= FloorDiv(n, F) * F <= n
    ensures F < 0 ==> FloorDiv(n, F) <= 0 && n <= FloorDiv(n, F) * F < n - F
  {
    var q := FloorDiv(n, F);
    if F > 0 {
      DivModUnique(n, F, q, n - q * F);
      MulLe(0, q, F);
    } else if q > 0 {
      MulLe(1, q, -F);
    }
  }

  /** A cell of the kept part lies in block `r / F`, at offset `r % F`. */
  lemma CellInTile(r: int, blocks: int, F: int)
    requires F > 0 && 0 <= r < blocks * F
    ensures 0 <= r / F < blocks && 0 <= r % F < F && (r / F) * F + r % F == r
  {
    if r / F >= blocks {
      MulLe(blocks, r / F, F);
    }
  }

  // ---------------------------------------------------------------------------
  // One block (main.py:51-61)

  /** `img_array[r0:r0+n, c0:c0+n]`, as the reals the transform receives. */
  function Window(p: Pixels, r0: int, c0: int, n: int): (b: Matrix)
    requires IsPlane(p) && 0 <= n
    requires 0 <= r0 && r0 + n <= |p| && 0 <= c0 && c0 + n <= Width(p)
    ensures IsGrid(b, n, n)
    ensures forall k, l :: 0 <= k < n && 0 <= l < n ==> b[k][l] == p[r0 + k][c0 + l] as real
  {
    seq(n, k requires 0 <= k < n => seq(n, l requires 0 <= l < n => p[r0 + k][c0 + l] as real))
  }

  /** The coefficients after the cutoff: (k,l) is zeroed when k + l >= d and kept otherwise. */
  function Masked(c: Matrix, d: int): (m: Matrix)
    ensures |m| == |c| && forall k :: 0 <= k < |c| ==> |m[k]| == |c[k]|
    ensures forall k, l :: 0 <= k < |c| && 0 <= l < |c[k]| && k + l < d ==> m[k][l] == c[k][l]
    ensures forall k, l :: 0 <= k < |c| && 0 <= l < |c[k]| && k + l >= d ==> m[k][l] == 0.0
  {
    seq(|c|, k requires 0 <= k < |c| =>
      seq(|c[k]|, l requires 0 <= l < |c[k]| => if k + l >= d then 0.0 else c[k][l]))
  }

  /** `np.clip(np.round(ff), 0, 255)` entry by entry. */
  function Quantize(m: Matrix): (q: Pixels)
    ensures |q| == |m| && forall k :: 0 <= k < |m| ==> |q[k]| == |m[k]|
    ensures forall k, l :: 0 <= k < |q| && 0 <= l < |q[k]| ==> 0 <= q[k][l] <= 255
  {
    seq(|m|, k requires 0 <= k < |m| => seq(|m[k]|, l requires 0 <= l < |m[k]| => ToSample(m[k][l])))
  }

  /** What one block becomes: forward transform, cutoff, inverse transform, round and clip. */
  function CompressBlock(b: Matrix, d: int, t: Transform): (q: Pixels)
    requires IsGrid(b, |b|, |b|) && Fits(t, |b|)
    ensures IsGrid(q, |b|, |b|)
    ensures forall k, l :: 0 <= k < |b| && 0 <= l < |b| ==> 0 <= q[k][l] <= 255
  {
    Quantize(t.idct2(Masked(t.dct2(b), d)))
  }

  // ---------------------------------------------------------------------------
  // The whole plane, as the blocks placed side by side

  /** `g[i][j]` is the output of block (i, j): `h // F` rows of `w // F` blocks. */
  function BlockGrid(p: Pixels, F: int, d: int, t: Transform): (g: seq<seq<Pixels>>)
    requires IsPlane(p) && F >= 1 && Fits(t, F)
    ensures |g| == |p| / F && forall i :: 0 <= i < |g| ==> |g[i]| == Width(p) / F
    ensures AreBlocks(g, F)
  {
    seq(|p| / F, i requires 0 <= i < |p| / F =>
      seq(Width(p) / F, j requires 0 <= j < Width(p) / F =>
        TileFits(i, |p|, F);
        TileFits(j, Width(p), F);
        CompressBlock(Window(p, i * F, j * F, F), d, t)))
  }

  /** Every block of the strip is F×F. */
  predicate SquareBlocks(blocks: seq<Pixels>, F: int) {
    forall j :: 0 <= j < |blocks| ==> IsGrid(blocks[j], F, F)
  }

  /** Every block of the grid is F×F. */
  predicate AreBlocks(g: seq<seq<Pixels>>, F: int) {
    forall i :: 0 <= i < |g| ==> SquareBlocks(g[i], F)
  }

  /** Row `k` of a strip of blocks laid side by side. */
  function StripRow(blocks: seq<Pixels>, F: int, k: int): seq<int>
    requires 0 <= k < F && SquareBlocks(blocks, F)
  {
    if blocks == [] then [] else blocks[0][k] + StripRow(blocks[1..], F, k)
  }

  /** The strips of blocks stacked top to bottom, each strip `F` rows high. */
  function Stitch(g: seq<seq<Pixels>>, F: nat): (s: seq<seq<int>>)
    requires AreBlocks(g, F)
    ensures |s| == |g| * F
  {
    if g == [] then []
    else
      MulSucc(|g| - 1, F);
      seq(F, k requires 0 <= k < F => StripRow(g[0], F, k)) + Stitch(g[1..], F)
  }

  /** What `compress_image` returns (before the exact `uint8` cast): one row per kept input row. */
  function Compress(p: Pixels, F: int, d: int, t: Transform): (r: Pixels)
    requires IsPlane(p) && F >= 1 && Fits(t, F)
    ensures |r| == (|p| / F) * F
  {
    Stitch(BlockGrid(p, F, d, t), F)
  }

  lemma {:induction false} StripRowLength(blocks: seq<Pixels>, F: int, k: int)
    requires 0 <= k < F
    requires SquareBlocks(blocks, F)
    ensures |StripRow(blocks, F, k)| == |blocks| * F
    decreases |blocks|
  {
    if blocks != [] {
      StripRowLength(blocks[1..], F, k);
      assert |blocks| * F == (|blocks| - 1) * F + F;
    }
  }

  lemma {:induction false} StripRowAt(blocks: seq<Pixels>, F: int, k: int, c: int)
    requires 0 <= k < F
    requires SquareBlocks(blocks, F)
    requires 0 <= c < |blocks| * F
    ensures 0 <= c / F < |blocks| && |StripRow(blocks, F, k)| == |blocks| * F
    ensures StripRow(blocks, F, k)[c] == blocks[c / F][k][c % F]
    decreases |blocks|
  {
    StripRowLength(blocks, F, k);
    CellInTile(c, |blocks|, F);
    if c < F {
      TileOf(0, c, F);
    } else {
      assert |blocks| * F == (|blocks| - 1) * F + F;
      StripRowAt(blocks[1..], F, k, c - F);
      PreviousTile(c, F);
    }
  }

  /** The first `F` rows of the stitched plane are the rows of the first strip. */
  lemma StitchHead(g: seq<seq<Pixels>>, F: nat, r: int)
    requires AreBlocks(g, F) && g != [] && 0 <= r < F
    ensures |Stitch(g, F)| > r && Stitch(g, F)[r] == StripRow(g[0], F, r)
  {
    var top := seq(F, k requires 0 <= k < F => StripRow(g[0], F, k));
    assert Stitch(g, F) == top + Stitch(g[1..], F);
  }

  /** Below the first strip, the stitched plane continues with the stitch of the remaining strips. */
  lemma StitchTail(g: seq<seq<Pixels>>, F: nat, r: int)
    requires AreBlocks(g, F) && g != [] && F <= r < |g| * F
    ensures |Stitch(g, F)| == |g| * F && Stitch(g, F)[r] == Stitch(g[1..], F)[r - F]
  {
    MulSucc(|g| - 1, F);
    assert Stitch(g, F)[F..] == Stitch(g[1..], F);
  }

  /** Cell (r, c) of the stitched plane is cell (r % F, c % F) of block (r / F, c / F). */
  lemma {:induction false} StitchAt(g: seq<seq<Pixels>>, W: int, F: nat, r: int, c: int)
    requires F > 0 && AreBlocks(g, F)
    requires forall i :: 0 <= i < |g| ==> |g[i]| == W
    requires 0 <= r < |g| * F && 0 <= c < W * F
    ensures 0 <= r / F < |g| && 0 <= c / F < W
    ensures |Stitch(g, F)| == |g| * F && |Stitch(g, F)[r]| == W * F
    ensures Stitch(g, F)[r][c] == g[r / F][c / F][r % F][c % F]
    decreases |g|
  {
    CellInTile(r, |g|, F);
    CellInTile(c, W, F);
    if r < F {
      TileOf(0, r, F);
      StitchHead(g, F, r);
      StripRowAt(g[0], F, r, c);
    } else {
      MulSucc(|g| - 1, F);
      StitchTail(g, F, r);
      StitchAt(g[1..], W, F, r - F, c);
      PreviousTile(r, F);
    }
  }

  /** The output has `(h // F) * F` rows of `(w // F) * F` samples. */
  lemma CompressShape(p: Pixels, F: int, d: int, t: Transform)
    requires IsPlane(p) && F >= 1 && Fits(t, F)
    ensures IsGrid(Compress(p, F, d, t), (|p| / F) * F, (Width(p) / F) * F)
  {
    var g := BlockGrid(p, F, d, t);
    forall r | 0 <= r < |g| * F
      ensures |Compress(p, F, d, t)[r]| == (Width(p) / F) * F
    {
      if Width(p) / F == 0 {
        StripRowsEmpty(g, F, r);
      } else {
        StitchAt(g, Width(p) / F, F, r, 0);
      }
    }
  }

  lemma {:induction false} StripRowsEmpty(g: seq<seq<Pixels>>, F: nat, r: int)
    requires F > 0 && AreBlocks(g, F)
    requires forall i :: 0 <= i < |g| ==> |g[i]| == 0
    requires 0 <= r < |g| * F
    ensures |Stitch(g, F)| == |g| * F && Stitch(g, F)[r] == []
    decreases |g|
  {
    if r < F {
      assert Stitch(g, F)[r] == StripRow(g[0], F, r);
    } else {
      StripRowsEmpty(g[1..], F, r - F);
    }
  }

  /** Entry (i, j) of the block grid is the compressed input block (i, j). */
  lemma BlockGridAt(p: Pixels, F: int, d: int, t: Transform, i: int, j: int)
    requires IsPlane(p) && F >= 1 && Fits(t, F)
    requires 0 <= i < |p| / F && 0 <= j < Width(p) / F
    ensures 0 <= i * F && i * F + F <= |p| && 0 <= j * F && j * F + F <= Width(p)
    ensures BlockGrid(p, F, d, t)[i][j] == CompressBlock(Window(p, i * F, j * F, F), d, t)
  {
    TileFits(i, |p|, F);
    TileFits(j, Width(p), F);
  }

  /** Tiling: output cell (r, c) is written by block (r / F, c / F), at in-block offset (r % F, c % F). */
  lemma CompressAt(p: Pixels, F: int, d: int, t: Transform, r: int, c: int)
    requires IsPlane(p) && F >= 1 && Fits(t, F)
    requires 0 <= r < (|p| / F) * F && 0 <= c < (Width(p) / F) * F
    ensures 0 <= r / F < |p| / F && 0 <= c / F < Width(p) / F
    ensures (r / F) * F + F <= |p| && (c / F) * F + F <= Width(p)
    ensures |Compress(p, F, d, t)| == (|p| / F) * F && |Compress(p, F, d, t)[r]| == (Width(p) / F) * F
    ensures Compress(p, F, d, t)[r][c]
         == CompressBlock(Window(p, (r / F) * F, (c / F) * F, F), d, t)[r % F][c % F]
  {
    var g := BlockGrid(p, F, d, t);
    CellInTile(r, |p| / F, F);
    CellInTile(c, Width(p) / F, F);
    StitchAt(g, Width(p) / F, F, r, c);
    BlockGridAt(p, F, d, t, r / F, c / F);
  }

  // ---------------------------------------------------------------------------
  // Properties of the cutoff (main.py:54-57)

  /** A cutoff of 0 (or below) zeroes every coefficient of the block. */
  lemma MaskZeroCutoff(c: Matrix, d: int)
    requires d <= 0
    ensures |Masked(c, d)| == |c|
    ensures forall k, l :: 0 <= k < |c| && 0 <= l < |c[k]| ==> |Masked(c, d)[k]| == |c[k]| && Masked(c, d)[k][l] == 0.0
  {
  }

  /** For any d <= 2F-2 the highest-frequency coefficient (F-1, F-1) is discarded. */
  lemma MaskCornerDropped(c: Matrix, F: int, d: int)
    requires F >= 1 && IsGrid(c, F, F) && d <= 2 * F - 2
    ensures IsGrid(Masked(c, d), F, F) && Masked(c, d)[F - 1][F - 1] == 0.0
  {
  }

  /** The zero-frequency coefficient (0, 0) is kept exactly when d >= 1. */
  lemma MaskKeepsDc(c: Matrix, d: int)
    requires |c| >= 1 && |c[0]| >= 1
    ensures |Masked(c, d)| >= 1 && |Masked(c, d)[0]| >= 1
    ensures Masked(c, d)[0][0] == if d >= 1 then c[0][0] else 0.0
  {
  }

  /** A cutoff of 2F-1 or more keeps the whole F×F block. */
  lemma MaskFullRetention(c: Matrix, F: int, d: int)
    requires IsGrid(c, F, F) && d >= 2 * F - 1
    ensures Masked(c, d) == c
  {
    forall k | 0 <= k < F ensures Masked(c, d)[k] == c[k] {
      assert |Masked(c, d)[k]| == |c[k]|;
    }
  }

  /** A block whose corner coefficient is not zero survives the cutoff unchanged exactly when d >= 2F-1. */
  lemma MaskKeepsAllIff(c: Matrix, F: int, d: int)
    requires F >= 1 && IsGrid(c, F, F) && c[F - 1][F - 1] != 0.0
    ensures Masked(c, d) == c <==> d >= 2 * F - 1
  {
    if d >= 2 * F - 1 {
      MaskFullRetention(c, F, d);
    } else {
      MaskCornerDropped(c, F, d);
    }
  }

  /** Cutting at d1 and then at d2 is cutting at the smaller of the two: a larger cutoff keeps a superset. */
  lemma MaskTwice(c: Matrix, d1: int, d2: int)
    ensures Masked(Masked(c, d1), d2) == Masked(c, if d1 <= d2 then d1 else d2)
  {
    var lhs, rhs := Masked(Masked(c, d1), d2), Masked(c, if d1 <= d2 then d1 else d2);
    forall k | 0 <= k < |c| ensures lhs[k] == rhs[k] {
      assert |lhs[k]| == |rhs[k]|;
    }
  }

  /** With d <= 0 every block comes out the same, whatever its input. */
  lemma ZeroCutoffForgetsInput(b1: Matrix, b2: Matrix, d: int, t: Transform)
    requires |b1| == |b2| && IsGrid(b1, |b1|, |b1|) && IsGrid(b2, |b2|, |b2|) && Fits(t, |b1|)
    requires d <= 0
    ensures CompressBlock(b1, d, t) == CompressBlock(b2, d, t)
  {
    var n := |b1|;
    var z1, z2 := Masked(t.dct2(b1), d), Masked(t.dct2(b2), d);
    assert IsGrid(t.dct2(b1), n, n) && IsGrid(t.dct2(b2), n, n);
    forall k | 0 <= k < n ensures z1[k] == z2[k] {
      assert |z1[k]| == |z2[k]| == n;
    }
    assert z1 == z2;
  }

  /** With d >= 2F-1 no coefficient is dropped: the block is just transformed there and back. */
  lemma FullRetentionBlock(b: Matrix, d: int, t: Transform)
    requires IsGrid(b, |b|, |b|) && Fits(t, |b|)
    requires d >= 2 * |b| - 1
    ensures CompressBlock(b, d, t) == Quantize(t.idct2(t.dct2(b)))
  {
    MaskFullRetention(t.dct2(b), |b|, d);
  }

  /**
   * When the inverse transform undoes the forward one exactly on a block of pixel
   * values and d >= 2F-1, that block comes back unchanged.
   */
  lemma LosslessWhenAllKept(b: Matrix, d: int, t: Transform)
    requires IsGrid(b, |b|, |b|) && Fits(t, |b|)
    requires forall k, l :: 0 <= k < |b| && 0 <= l < |b| ==> b[k][l] == b[k][l].Floor as real && 0.0 <= b[k][l] <= 255.0
    requires t.idct2(t.dct2(b)) == b
    requires d >= 2 * |b| - 1
    ensures forall k, l :: 0 <= k < |b| && 0 <= l < |b| ==> CompressBlock(b, d, t)[k][l] as real == b[k][l]
  {
    FullRetentionBlock(b, d, t);
    forall k, l | 0 <= k < |b| && 0 <= l < |b|
      ensures CompressBlock(b, d, t)[k][l] as real == b[k][l]
    {
      ToSampleOfPixel(b[k][l].Floor);
    }
  }

  // ---------------------------------------------------------------------------
  // Properties of the whole plane (main.py:43-62)

  /** Every output sample is a pixel value in [0,255]. */
  lemma CompressRange(p: Pixels, F: int, d: int, t: Transform)
    requires IsPlane(p) && F >= 1 && Fits(t, F)
    ensures IsGrid(Compress(p, F, d, t), (|p| / F) * F, (Width(p) / F) * F)
    ensures forall r, c :: 0 <= r < |Compress(p, F, d, t)| && 0 <= c < |Compress(p, F, d, t)[r]| ==>
              0 <= Compress(p, F, d, t)[r][c] <= 255
  {
    CompressShape(p, F, d, t);
    forall r, c | 0 <= r < |Compress(p, F, d, t)| && 0 <= c < |Compress(p, F, d, t)[r]|
      ensures 0 <= Compress(p, F, d, t)[r][c] <= 255
    {
      CompressAt(p, F, d, t, r, c);
    }
  }

  /** If F exceeds the height there is no output row; if it exceeds the width every output row is empty. */
  lemma DegenerateSizes(p: Pixels, F: int, d: int, t: Transform)
    requires IsPlane(p) && F >= 1 && Fits(t, F)
    ensures F > |p| ==> Compress(p, F, d, t) == []
    ensures F > Width(p) ==> forall r :: 0 <= r < |Compress(p, F, d, t)| ==> Compress(p, F, d, t)[r] == []
  {
    CompressShape(p, F, d, t);
    if F > |p| {
      DivModUnique(|p|, F, 0, |p|);
    }
    if F > Width(p) {
      DivModUnique(Width(p), F, 0, Width(p));
    }
  }

  /** Two planes that agree on the cells of block (i, j) have the same window there. */
  lemma SameWindow(p1: Pixels, p2: Pixels, F: int, i: int, j: int)
    requires IsPlane(p1) && IsPlane(p2) && |p1| == |p2| && Width(p1) == Width(p2) && F >= 1
    requires 0 <= i < |p1| / F && 0 <= j < Width(p1) / F
    requires forall r, c :: 0 <= r < |p1| && 0 <= c < Width(p1) && r / F == i && c / F == j ==> p1[r][c] == p2[r][c]
    ensures i * F + F <= |p1| && j * F + F <= Width(p1)
    ensures Window(p1, i * F, j * F, F) == Window(p2, i * F, j * F, F)
  {
    TileFits(i, |p1|, F);
    TileFits(j, Width(p1), F);
    var w1, w2 := Window(p1, i * F, j * F, F), Window(p2, i * F, j * F, F);
    forall k | 0 <= k < F ensures w1[k] == w2[k] {
      forall l | 0 <= l < F ensures w1[k][l] == w2[k][l] {
        TileOf(i, k, F);
        TileOf(j, l, F);
      }
    }
  }

  /** Block independence: output block (i, j) depends only on input block (i, j). */
  lemma BlockIndependence(p1: Pixels, p2: Pixels, F: int, d: int, t: Transform, i: int, j: int)
    requires IsPlane(p1) && IsPlane(p2) && |p1| == |p2| && Width(p1) == Width(p2) && F >= 1 && Fits(t, F)
    requires 0 <= i < |p1| / F && 0 <= j < Width(p1) / F
    requires forall r, c :: 0 <= r < |p1| && 0 <= c < Width(p1) && r / F == i && c / F == j ==> p1[r][c] == p2[r][c]
    ensures IsGrid(Compress(p1, F, d, t), (|p1| / F) * F, (Width(p1) / F) * F)
    ensures IsGrid(Compress(p2, F, d, t), (|p1| / F) * F, (Width(p1) / F) * F)
    ensures forall r, c :: 0 <= r < |Compress(p1, F, d, t)| && 0 <= c < |Compress(p1, F, d, t)[r]| && r / F == i && c / F == j ==>
              Compress(p1, F, d, t)[r][c] == Compress(p2, F, d, t)[r][c]
  {
    CompressShape(p1, F, d, t);
    CompressShape(p2, F, d, t);
    SameWindow(p1, p2, F, i, j);
    forall r, c | 0 <= r < |Compress(p1, F, d, t)| && 0 <= c < |Compress(p1, F, d, t)[r]| && r / F == i && c / F == j
      ensures Compress(p1, F, d, t)[r][c] == Compress(p2, F, d, t)[r][c]
    {
      CompressAt(p1, F, d, t, r, c);
      CompressAt(p2, F, d, t, r, c);
    }
  }

  /** The last `h % F` rows and `w % F` columns are never read: changing them changes nothing. */
  lemma RemainderNeverRead(p1: Pixels, p2: Pixels, F: int, d: int, t: Transform)
    requires IsPlane(p1) && IsPlane(p2) && |p1| == |p2| && Width(p1) == Width(p2) && F >= 1 && Fits(t, F)
    requires forall r, c :: 0 <= r < |p1| && 0 <= c < Width(p1) && r < (|p1| / F) * F && c < (Width(p1) / F) * F ==>
               p1[r][c] == p2[r][c]
    ensures Compress(p1, F, d, t) == Compress(p2, F, d, t)
  {
    var g1, g2 := BlockGrid(p1, F, d, t), BlockGrid(p2, F, d, t);
    forall i | 0 <= i < |g1| ensures g1[i] == g2[i] {
      forall j | 0 <= j < |g1[i]| ensures g1[i][j] == g2[i][j] {
        forall r, c | 0 <= r < |p1| && 0 <= c < Width(p1) && r / F == i && c / F == j
          ensures p1[r][c] == p2[r][c]
        {
          TileFits(i, |p1|, F);
          TileFits(j, Width(p1), F);
          InOwnTile(r, F);
          InOwnTile(c, F);
        }
        SameWindow(p1, p2, F, i, j);
      }
    }
    assert g1 == g2;
  }

  // ---------------------------------------------------------------------------
  // compress_image itself (main.py:43-64), step by step on arrays

  /** `c = dct2(block)`: the coefficients, held in a fresh F×F array that the cutoff then edits in place. */
  method CoefficientArray(m: Matrix, n: int) returns (c: array2<real>)
    requires IsGrid(m, n, n)
    ensures fresh(c) && Rows(c) == m
  {
    c := new real[n, n]((k, l) requires 0 <= k < n && 0 <= l < n => m[k][l]);
    RowsOf(c, m);
  }

  /** The cutoff loop over (k, l): every coefficient with k + l >= d is set to 0, in place. */
  method MaskInPlace(c: array2<real>, d: int)
    modifies c
    ensures Rows(c) == Masked(old(Rows(c)), d)
  {
    ghost var before := Rows(c);
    var k := 0;
    while k < c.Length0
      invariant 0 <= k <= c.Length0
      invariant forall r, s :: 0 <= r < c.Length0 && 0 <= s < c.Length1 ==>
                  c[r, s] == if r < k && r + s >= d then 0.0 else before[r][s]
    {
      var l := 0;
      while l < c.Length1
        invariant 0 <= l <= c.Length1
        invariant forall r, s :: 0 <= r < c.Length0 && 0 <= s < c.Length1 ==>
                    c[r, s] == if (r < k || (r == k && s < l)) && r + s >= d then 0.0 else before[r][s]
      {
        if k + l >= d {
          c[k, l] := 0.0;
        }
        l := l + 1;
      }
      k := k + 1;
    }
    RowsOf(c, Masked(before, d));
  }

  /** `compressed[r0:r0+n, c0:c0+n] = q`: one block of the output is written, nothing else changes. */
  method PlaceBlock(out: array2<int>, r0: int, c0: int, q: Pixels)
    requires IsGrid(q, |q|, |q|)
    requires 0 <= r0 && r0 + |q| <= out.Length0 && 0 <= c0 && c0 + |q| <= out.Length1
    modifies out
    ensures forall r, c :: 0 <= r < out.Length0 && 0 <= c < out.Length1 ==>
              out[r, c] == if r0 <= r < r0 + |q| && c0 <= c < c0 + |q| then q[r - r0][c - c0] else old(out[r, c])
  {
    var n := |q|;
    var k := 0;
    while k < n
      invariant 0 <= k <= n
      invariant forall r, c :: 0 <= r < out.Length0 && 0 <= c < out.Length1 ==>
                  out[r, c] == if r0 <= r < r0 + k && c0 <= c < c0 + n then q[r - r0][c - c0] else old(out[r, c])
    {
      var l := 0;
      while l < n
        invariant 0 <= l <= n
        invariant forall r, c :: 0 <= r < out.Length0 && 0 <= c < out.Length1 ==>
                    out[r, c] == if (r0 <= r < r0 + k && c0 <= c < c0 + n) || (r == r0 + k && c0 <= c < c0 + l)
                                 then q[r - r0][c - c0] else old(out[r, c])
      {
        out[r0 + k, c0 + l] := q[k][l];
        l := l + 1;
      }
      k := k + 1;
    }
  }

  /** Lines 52-61 for one block: transform, cut off in place, transform back, round and clip. */
  method CompressOneBlock(block: Matrix, F: int, d: int, t: Transform) returns (ff: Pixels)
    requires F >= 0 && IsGrid(block, F, F) && Fits(t, F)
    ensures ff == CompressBlock(block, d, t)
  {
    var coef := CoefficientArray(t.dct2(block), F);
    MaskInPlace(coef, d);
    ff := Quantize(t.idct2(Rows(coef)));
  }

  /** Where a cell of block (i, j) of the output comes from: the same block of the input. */
  lemma TileCell(p: Pixels, F: int, d: int, t: Transform, i: int, j: int, r: int, c: int)
    requires IsPlane(p) && F >= 1 && Fits(t, F)
    requires 0 <= i < |p| / F && 0 <= j < Width(p) / F
    requires i * F <= r < i * F + F && j * F <= c < j * F + F
    ensures 0 <= r < (|p| / F) * F && 0 <= c < (Width(p) / F) * F
    ensures |Compress(p, F, d, t)| == (|p| / F) * F && |Compress(p, F, d, t)[r]| == (Width(p) / F) * F
    ensures Compress(p, F, d, t)[r][c] == BlockGrid(p, F, d, t)[i][j][r - i * F][c - j * F]
  {
    var g := BlockGrid(p, F, d, t);
    var k, l := r - i * F, c - j * F;
    TileFits(i, |p|, F);
    TileFits(j, Width(p), F);
    DivModUnique(r, F, i, k);
    DivModUnique(c, F, j, l);
    StitchAt(g, Width(p) / F, F, r, c);
  }

  /** Every cell of output block (i, j) is the matching cell of the compressed block `q` of the grid. */
  lemma TileMatches(p: Pixels, F: int, d: int, t: Transform, i: int, j: int, q: Pixels)
    requires IsPlane(p) && F >= 1 && Fits(t, F)
    requires 0 <= i < |p| / F && 0 <= j < Width(p) / F
    requires q == BlockGrid(p, F, d, t)[i][j]
    ensures IsGrid(q, F, F) && IsGrid(Compress(p, F, d, t), (|p| / F) * F, (Width(p) / F) * F)
    ensures 0 <= i * F && i * F + F <= (|p| / F) * F && 0 <= j * F && j * F + F <= (Width(p) / F) * F
    ensures forall r, c :: i * F <= r < i * F + F && j * F <= c < j * F + F ==>
              Compress(p, F, d, t)[r][c] == q[r - i * F][c - j * F]
  {
    CompressShape(p, F, d, t);
    TileFits(i, |p|, F);
    TileFits(j, Width(p), F);
    forall r, c | i * F <= r < i * F + F && j * F <= c < j * F + F
      ensures Compress(p, F, d, t)[r][c] == q[r - i * F][c - j * F]
    {
      TileCell(p, F, d, t, i, j, r, c);
    }
  }

  /** Output block (i, j) is the compressed input block (i, j), cell for cell. */
  lemma TileOfPlane(p: Pixels, F: int, d: int, t: Transform, i: int, j: int)
    requires IsPlane(p) && F >= 1 && Fits(t, F)
    requires 0 <= i < |p| / F && 0 <= j < Width(p) / F
    ensures 0 <= i * F && i * F + F <= |p| && 0 <= j * F && j * F + F <= Width(p)
    ensures i * F + F <= (|p| / F) * F && j * F + F <= (Width(p) / F) * F
    ensures IsGrid(Compress(p, F, d, t), (|p| / F) * F, (Width(p) / F) * F)
    ensures forall r, c :: i * F <= r < i * F + F && j * F <= c < j * F + F ==>
              Compress(p, F, d, t)[r][c] == CompressBlock(Window(p, i * F, j * F, F), d, t)[r - i * F][c - j * F]
  {
    BlockGridAt(p, F, d, t, i, j);
    TileMatches(p, F, d, t, i, j, BlockGrid(p, F, d, t)[i][j]);
  }

  /** Lines 51-61 of the loop body: compress input block (i, j); the result is output block (i, j) of the specification. */
  method CompressTile(img: array2<int>, i: int, j: int, F: int, d: int, t: Transform, ghost expected: Pixels)
    returns (ff: Pixels)
    requires F >= 1 && Fits(t, F)
    requires 0 <= i < img.Length0 / F && 0 <= j < img.Length1 / F
    requires expected == Compress(Rows(img), F, d, t)
    ensures IsGrid(ff, F, F) && IsGrid(expected, (img.Length0 / F) * F, (img.Length1 / F) * F)
    ensures 0 <= i * F && i * F + F <= |expected| && 0 <= j * F && j * F + F <= (img.Length1 / F) * F
    ensures forall r, c :: i * F <= r < i * F + F && j * F <= c < j * F + F ==> ff[r - i * F][c - j * F] == expected[r][c]
  {
    ghost var plane := Rows(img);
    assert Width(plane) == img.Length1;
    TileOfPlane(plane, F, d, t, i, j);
    ff := CompressOneBlock(Window(Rows(img), i * F, j * F, F), F, d, t);
  }

  /** The output shape, for the plane held in an array. */
  lemma CompressShapeOfArray(img: array2<int>, F: int, d: int, t: Transform)
    requires F >= 1 && Fits(t, F)
    ensures IsGrid(Compress(Rows(img), F, d, t), (img.Length0 / F) * F, (img.Length1 / F) * F)
  {
    CompressShape(Rows(img), F, d, t);
    if img.Length0 > 0 {
      assert Width(Rows(img)) == img.Length1;
    }
  }

  /** The inner loop over j: compress every block of block-row i and write it into its place in `out`. */
  method CompressStrip(img: array2<int>, out: array2<int>, i: int, F: int, d: int, t: Transform,
                       ghost expected: Pixels)
    requires F >= 1 && Fits(t, F) && img != out
    requires 0 <= i < img.Length0 / F
    requires expected == Compress(Rows(img), F, d, t) && IsGrid(expected, out.Length0, out.Length1)
    requires out.Length0 == (img.Length0 / F) * F && out.Length1 == (img.Length1 / F) * F
    modifies out
    ensures forall r, c :: 0 <= r < out.Length0 && 0 <= c < out.Length1 ==>
              out[r, c] == if i * F <= r < i * F + F then expected[r][c] else old(out[r, c])
  {
    var wBlocks := img.Length1 / F;
    var r0 := i * F;
    var j, c0 := 0, 0;
    while j < wBlocks
      invariant 0 <= j <= wBlocks && c0 == j * F && 0 <= c0 <= out.Length1
      invariant forall r, c :: 0 <= r < out.Length0 && 0 <= c < out.Length1 ==>
                  out[r, c] == if r0 <= r < r0 + F && c < c0 then expected[r][c] else old(out[r, c])
    {
      var ff := CompressTile(img, i, j, F, d, t, expected);
      PlaceBlock(out, r0, c0, ff);
      MulLe(j + 1, wBlocks, F);
      MulSucc(j, F);
      j, c0 := j + 1, c0 + F;
    }
  }

  /**
   * `compress_image(img_array, F, d)`: a fresh `(h // F)*F` by `(w // F)*F` plane.
   * For F > 0 it holds, block by block, the compressed blocks of the input. For
   * F < 0 Python's floor division makes both block counts <= 0, so `np.zeros`
   * gets a shape at least as large as the input and neither loop runs: the
   * result is all zeros.
   */
  method CompressImage(img: array2<int>, F: int, d: int, t: Transform) returns (out: array2<int>)
    requires F != 0 && Fits(t, F)
    ensures fresh(out)
    ensures out.Length0 == FloorDiv(img.Length0, F) * F && out.Length1 == FloorDiv(img.Length1, F) * F
    ensures F > 0 ==> Rows(out) == Compress(Rows(img), F, d, t)
    ensures F < 0 ==> forall r, c :: 0 <= r < out.Length0 && 0 <= c < out.Length1 ==> out[r, c] == 0
  {
    var h, w := img.Length0, img.Length1;
    var hBlocks, wBlocks := FloorDiv(h, F), FloorDiv(w, F);
    BlockCount(h, F);
    BlockCount(w, F);
    out := new int[hBlocks * F, wBlocks * F]((r, c) => 0);
    ghost var expected: Pixels := [];
    if F > 0 {
      expected := Compress(Rows(img), F, d, t);
      CompressShapeOfArray(img, F, d, t);
    }
    var i, r0 := 0, 0;
    while i < hBlocks
      invariant 0 <= i && r0 == i * F
      invariant F > 0 ==> i <= hBlocks && 0 <= r0 <= out.Length0 && expected == Compress(Rows(img), F, d, t)
      invariant F > 0 ==> forall r, c :: 0 <= r < r0 && 0 <= c < out.Length1 ==> out[r, c] == expected[r][c]
      invariant F < 0 ==> i == 0 && forall r, c :: 0 <= r < out.Length0 && 0 <= c < out.Length1 ==> out[r, c] == 0
    {
      CompressStrip(img, out, i, F, d, t, expected);
      MulLe(i + 1, hBlocks, F);
      MulSucc(i, F);
      i, r0 := i + 1, r0 + F;
    }
    if F > 0 {
      RowsOf(out, expected);
    }
  }
}
