/**
 * Row-padding removal. A platform pixel buffer stores `rows` rows that start
 * `stride` bytes apart; only the first `rowLen` bytes of each row are pixel
 * data, the rest is alignment padding. Cropping packs the pixel bytes of every
 * row back to back.
 */
module Crop {
  import opened Primitives

  /** Position of byte `j` of row `i` when rows start `rowLen` bytes apart. */
  function Offset(i: nat, rowLen: nat, j: nat): nat
  {
    i * rowLen + j
  }

  /**
   * Reference definition of a crop: `out` has exactly `rows * rowLen` bytes and
   * byte `j` of row `i` of `out` is byte `j` of row `i` of `src`.
   */
  ghost predicate IsCrop(out: seq<byte>, src: seq<byte>, stride: nat, rowLen: nat, rows: nat)
  {
    && |out| == rows * rowLen
    && forall i: nat, j: nat | i < rows && j < rowLen ::
         && Offset(i, rowLen, j) < |out|
         && Offset(i, stride, j) < |src|
         && out[Offset(i, rowLen, j)] == src[Offset(i, stride, j)]
  }

  /** The first `rows` rows of `src`, each cut down to its first `rowLen` bytes. */
  function CropRows(src: seq<byte>, stride: nat, rowLen: nat, rows: nat): (out: seq<byte>)
    requires rowLen <= stride && rows * stride <= |src|
    ensures |out| == rows * rowLen
    decreases rows
  {
    if rows == 0 then []
    else
      var start := (rows - 1) * stride;
      assert start + stride == rows * stride;
      CropRows(src, stride, rowLen, rows - 1) + src[start .. start + rowLen]
  }

  /** Byte `j` of row `i` of the crop is byte `j` of row `i` of the source. */
  lemma {:induction false} CropRowsAt(src: seq<byte>, stride: nat, rowLen: nat, rows: nat, i: nat, j: nat)
    requires rowLen <= stride && rows * stride <= |src|
    requires i < rows && j < rowLen
    ensures Offset(i, rowLen, j) < rows * rowLen
    ensures Offset(i, stride, j) < |src|
    ensures CropRows(src, stride, rowLen, rows)[Offset(i, rowLen, j)] == src[Offset(i, stride, j)]
  {
    var prev := CropRows(src, stride, rowLen, rows - 1);
    assert (rows - 1) * stride + stride == rows * stride;
    assert (rows - 1) * rowLen + rowLen == rows * rowLen;
    if i < rows - 1 {
      MulLe(rows - 1, rows, stride);
      CropRowsAt(src, stride, rowLen, rows - 1, i, j);
    } else {
      assert Offset(i, rowLen, j) == |prev| + j;
    }
  }

  /** CropRows meets the reference definition. */
  lemma CropRowsIsCrop(src: seq<byte>, stride: nat, rowLen: nat, rows: nat)
    requires rowLen <= stride && rows * stride <= |src|
    ensures IsCrop(CropRows(src, stride, rowLen, rows), src, stride, rowLen, rows)
  {
    forall i: nat, j: nat | i < rows && j < rowLen
      ensures Offset(i, rowLen, j) < rows * rowLen
      ensures Offset(i, stride, j) < |src|
      ensures CropRows(src, stride, rowLen, rows)[Offset(i, rowLen, j)] == src[Offset(i, stride, j)]
    {
      CropRowsAt(src, stride, rowLen, rows, i, j);
    }
  }

  /** Every position below `rows * rowLen` is byte `k % rowLen` of row `k / rowLen`. */
  lemma SplitOffset(k: nat, rowLen: nat, rows: nat)
    requires 0 < rowLen && k < rows * rowLen
    ensures k / rowLen < rows && k % rowLen < rowLen
    ensures k == Offset(k / rowLen, rowLen, k % rowLen)
  {
    if k / rowLen >= rows {
      MulLe(rows, k / rowLen, rowLen);
    }
  }

  /** Output byte `k` is a copy of a source byte at a row offset below `rowLen`. */
  ghost predicate CopiedFromPixelArea(out: seq<byte>, src: seq<byte>, stride: nat, rowLen: nat, rows: nat, k: nat)
    requires k < |out|
  {
    exists i: nat, j: nat ::
      && i < rows && j < rowLen
      && k == Offset(i, rowLen, j)
      && Offset(i, stride, j) < |src|
      && out[k] == src[Offset(i, stride, j)]
  }

  /** No padding survives a crop: every output byte comes from the pixel part of a row. */
  lemma CropHasNoPadding(out: seq<byte>, src: seq<byte>, stride: nat, rowLen: nat, rows: nat)
    requires IsCrop(out, src, stride, rowLen, rows)
    ensures forall k: nat | k < |out| :: CopiedFromPixelArea(out, src, stride, rowLen, rows, k)
  {
    forall k: nat | k < |out|
      ensures CopiedFromPixelArea(out, src, stride, rowLen, rows, k)
    {
      SplitOffset(k, rowLen, rows);
      var i, j := k / rowLen, k % rowLen;
      assert Offset(i, stride, j) < |src| && out[Offset(i, rowLen, j)] == src[Offset(i, stride, j)];
    }
  }

  /** The reference definition determines the crop completely. */
  lemma CropIsUnique(a: seq<byte>, b: seq<byte>, src: seq<byte>, stride: nat, rowLen: nat, rows: nat)
    requires IsCrop(a, src, stride, rowLen, rows)
    requires IsCrop(b, src, stride, rowLen, rows)
    ensures a == b
  {
    forall k | 0 <= k < |a|
      ensures a[k] == b[k]
    {
      SplitOffset(k, rowLen, rows);
      assert Offset(k / rowLen, rowLen, k % rowLen) == k;
    }
  }

  /** A crop reads no byte at or beyond `rows * stride`. */
  lemma CropOfPrefix(src: seq<byte>, n: nat, stride: nat, rowLen: nat, rows: nat)
    requires rowLen <= stride && rows * stride <= n <= |src|
    ensures CropRows(src[..n], stride, rowLen, rows) == CropRows(src, stride, rowLen, rows)
  {
    var a := CropRows(src[..n], stride, rowLen, rows);
    var b := CropRows(src, stride, rowLen, rows);
    CropRowsIsCrop(src[..n], stride, rowLen, rows);
    CropRowsIsCrop(src, stride, rowLen, rows);
    assert IsCrop(a, src, stride, rowLen, rows);
    CropIsUnique(a, b, src, stride, rowLen, rows);
  }

  /** When rows carry no padding, cropping copies the covered region byte for byte. */
  lemma {:induction false} CropWithoutPadding(src: seq<byte>, rowLen: nat, rows: nat)
    requires rows * rowLen <= |src|
    ensures CropRows(src, rowLen, rowLen, rows) == src[..rows * rowLen]
  {
    if rows > 0 {
      assert (rows - 1) * rowLen + rowLen == rows * rowLen;
      CropWithoutPadding(src, rowLen, rows - 1);
      assert src[..rows * rowLen] == src[..(rows - 1) * rowLen] + src[(rows - 1) * rowLen .. rows * rowLen];
    }
  }
}
