/**
 * Frame extraction on macOS: lock the pixel buffer behind a captured sample,
 * read its geometry, copy its pixel bytes, unlock it, and hand back a BGRA,
 * BGR or RGB frame.
 */
module PixelFormat {
  import opened Primitives
  import opened Crop
  import opened Frame

  /**
   * The CoreVideo pixel buffer behind one sample buffer, in BGRA layout.
   * Geometry, memory and presentation time are fixed for its lifetime; the
   * base-address lock is a ghost counter, since lock and unlock calls must
   * balance. Reading the memory is only allowed while it is locked.
   */
  class PixelBuffer {
    const width: nat
    const height: nat
    const bytesPerRow: nat
    const memory: seq<byte>
    const presentationTime: nat
    ghost var lockCount: nat

    /**
     * What the platform guarantees of a buffer with pixels: rows hold `width`
     * pixels and the memory spans every row. A buffer of zero width or height
     * may have any stride and any memory.
     */
    ghost predicate Valid()
    {
      width == 0 || height == 0 || (4 * width <= bytesPerRow && bytesPerRow * height <= |memory|)
    }

    constructor (width: nat, height: nat, bytesPerRow: nat, memory: seq<byte>, presentationTime: nat)
      requires width == 0 || height == 0 || (4 * width <= bytesPerRow && bytesPerRow * height <= |memory|)
      ensures Valid() && lockCount == 0
      ensures this.width == width && this.height == height && this.bytesPerRow == bytesPerRow
      ensures this.memory == memory && this.presentationTime == presentationTime
    {
      this.width := width;
      this.height := height;
      this.bytesPerRow := bytesPerRow;
      this.memory := memory;
      this.presentationTime := presentationTime;
      lockCount := 0;
    }

    /** Locks the base address (one more lock to release). */
    method Lock()
      modifies this
      ensures lockCount == old(lockCount) + 1
    {
      lockCount := lockCount + 1;
    }

    /** Unlocks the base address; only a held lock can be released. */
    method Unlock()
      requires lockCount > 0
      modifies this
      ensures lockCount == old(lockCount) - 1
    {
      lockCount := lockCount - 1;
    }

    /** Copies `count` bytes starting `start` bytes past the base address. */
    method ReadBytes(start: nat, count: nat) returns (bytes: seq<byte>)
      requires lockCount > 0
      requires start + count <= |memory|
      ensures |bytes| == count
      ensures forall k | 0 <= k < count :: bytes[k] == memory[start + k]
    {
      bytes := memory[start .. start + count];
    }
  }

  /**
   * The BGRA frame a buffer of this geometry yields: none for zero width or
   * height, otherwise the buffer's time and size with every row cropped to its
   * `4 * width` pixel bytes.
   */
  function BgraFrameOf(width: nat, height: nat, bytesPerRow: nat, memory: seq<byte>, epoch: nat): (frame: Option<BgraFrame>)
    requires width == 0 || height == 0 || (4 * width <= bytesPerRow && bytesPerRow * height <= |memory|)
    ensures frame.None? <==> width == 0 || height == 0
    ensures frame.Some? ==> frame.value.displayTime == epoch
    ensures frame.Some? ==> frame.value.width == width && frame.value.height == height
    ensures frame.Some? ==> IsCrop(frame.value.data, memory, bytesPerRow, 4 * width, height)
  {
    if width == 0 || height == 0 then None
    else
      CropRowsIsCrop(memory, bytesPerRow, 4 * width, height);
      Some(BgraFrame(epoch, width, height, CropRows(memory, bytesPerRow, 4 * width, height)))
  }

  /** The lengths of a 4-byte and a 3-byte layout of the same pixels. */
  lemma PixelCounts(width: nat, height: nat)
    ensures height * (4 * width) == 4 * (width * height)
    ensures 4 * (width * height) / 4 * 3 == 3 * (width * height)
  {
  }

  /** The crop the BGR and RGB paths take: the copied region, at a pixel stride of `bytesPerRow / 4`. */
  function PixelStrideCrop(width: nat, height: nat, bytesPerRow: nat, memory: seq<byte>): (cropped: seq<byte>)
    requires 4 * width <= bytesPerRow && bytesPerRow * height <= |memory|
    ensures |cropped| == 4 * (width * height)
    ensures bytesPerRow % 4 == 0 ==> cropped == CropRows(memory, bytesPerRow, 4 * width, height)
  {
    var copied := memory[..bytesPerRow * height];
    MulLe(4 * (bytesPerRow / 4), bytesPerRow, height);
    var cropped := GetCroppedData(copied, bytesPerRow / 4, height, width);
    PixelCounts(width, height);
    assert bytesPerRow % 4 == 0 ==> cropped == CropRows(memory, bytesPerRow, 4 * width, height) by {
      if bytesPerRow % 4 == 0 {
        CropOfPrefix(memory, bytesPerRow * height, bytesPerRow, 4 * width, height);
      }
    }
    cropped
  }

  /**
   * The BGR frame: none for zero width or height, otherwise the buffer's time
   * and size with three bytes per pixel; on a stride that is a whole number of
   * pixels it is exactly the BGRA frame with every alpha byte dropped.
   */
  function BgrFrameOf(width: nat, height: nat, bytesPerRow: nat, memory: seq<byte>, epoch: nat): (frame: Option<BgrFrame>)
    requires width == 0 || height == 0 || (4 * width <= bytesPerRow && bytesPerRow * height <= |memory|)
    ensures frame.None? <==> width == 0 || height == 0
    ensures frame.Some? ==> frame.value.displayTime == epoch
    ensures frame.Some? ==> frame.value.width == width && frame.value.height == height
    ensures frame.Some? ==> |frame.value.data| == 3 * (width * height)
    ensures frame.Some? && bytesPerRow % 4 == 0 ==>
              IsAlphaDropped(BgraFrameOf(width, height, bytesPerRow, memory, epoch).value.data, frame.value.data)
  {
    if width == 0 || height == 0 then None
    else
      var cropped := PixelStrideCrop(width, height, bytesPerRow, memory);
      PixelCounts(width, height);
      RemoveAlphaChannelDropsAlpha(cropped);
      Some(BgrFrame(epoch, width, height, RemoveAlphaChannel(cropped)))
  }

  /**
   * The RGB frame: none for zero width or height, otherwise the buffer's time
   * and size with three bytes per pixel; on a stride that is a whole number of
   * pixels it is exactly the BGRA frame with alpha dropped and B and R swapped.
   */
  function RgbFrameOf(width: nat, height: nat, bytesPerRow: nat, memory: seq<byte>, epoch: nat): (frame: Option<RgbFrame>)
    requires width == 0 || height == 0 || (4 * width <= bytesPerRow && bytesPerRow * height <= |memory|)
    ensures frame.None? <==> width == 0 || height == 0
    ensures frame.Some? ==> frame.value.displayTime == epoch
    ensures frame.Some? ==> frame.value.width == width && frame.value.height == height
    ensures frame.Some? ==> |frame.value.data| == 3 * (width * height)
    ensures frame.Some? && bytesPerRow % 4 == 0 ==>
              IsChannelReversed(BgraFrameOf(width, height, bytesPerRow, memory, epoch).value.data, frame.value.data)
  {
    if width == 0 || height == 0 then None
    else
      var cropped := PixelStrideCrop(width, height, bytesPerRow, memory);
      PixelCounts(width, height);
      ConvertBgraToRgbReversesChannels(cropped);
      Some(RgbFrame(epoch, width, height, ConvertBgraToRgb(cropped)))
  }

  /**
   * Builds a BGRA frame row by row. On zero geometry it returns none and
   * leaves the buffer locked; otherwise every read happens under the lock and
   * the lock is released before the frame is returned.
   */
  method CreateBgraFrame(buffer: PixelBuffer) returns (frame: Option<BgraFrame>)
    requires buffer.Valid()
    modifies buffer
    ensures frame == BgraFrameOf(buffer.width, buffer.height, buffer.bytesPerRow, buffer.memory, buffer.presentationTime)
    ensures frame.None? ==> buffer.lockCount == old(buffer.lockCount) + 1
    ensures frame.Some? ==> buffer.lockCount == old(buffer.lockCount)
  {
    var epoch := buffer.presentationTime;
    buffer.Lock();
    var width := buffer.width;
    var height := buffer.height;
    if width == 0 || height == 0 {
      return None;
    }
    var bytesPerRow := buffer.bytesPerRow;
    ghost var memory := buffer.memory;
    var rowLen := 4 * width;
    assert rowLen <= bytesPerRow && bytesPerRow * height <= |memory|;
    var data: seq<byte> := [];
    for i := 0 to height
      invariant buffer.lockCount == old(buffer.lockCount) + 1
      invariant i * bytesPerRow <= |memory|
      invariant data == CropRows(memory, bytesPerRow, rowLen, i)
    {
      var start := i * bytesPerRow;
      MulLe(i + 1, height, bytesPerRow);
      assert start + bytesPerRow == (i + 1) * bytesPerRow <= bytesPerRow * height;
      var row := buffer.ReadBytes(start, rowLen);
      assert row == memory[start .. start + rowLen];
      data := data + row;
      assert data == CropRows(memory, bytesPerRow, rowLen, i + 1);
    }
    buffer.Unlock();
    frame := Some(BgraFrame(epoch, width, height, data));
  }

  /** Builds a BGR frame: copy, crop at the pixel stride, unlock, drop alpha. */
  method CreateBgrFrame(buffer: PixelBuffer) returns (frame: Option<BgrFrame>)
    requires buffer.Valid()
    modifies buffer
    ensures frame == BgrFrameOf(buffer.width, buffer.height, buffer.bytesPerRow, buffer.memory, buffer.presentationTime)
    ensures frame.None? ==> buffer.lockCount == old(buffer.lockCount) + 1
    ensures frame.Some? ==> buffer.lockCount == old(buffer.lockCount)
  {
    var epoch := buffer.presentationTime;
    buffer.Lock();
    var width := buffer.width;
    var height := buffer.height;
    if width == 0 || height == 0 {
      return None;
    }
    var bytesPerRow := buffer.bytesPerRow;
    var data := buffer.ReadBytes(0, bytesPerRow * height);
    assert data == buffer.memory[..bytesPerRow * height];
    MulLe(4 * (bytesPerRow / 4), bytesPerRow, height);
    var cropped := GetCroppedData(data, bytesPerRow / 4, height, width);
    buffer.Unlock();
    frame := Some(BgrFrame(epoch, width, height, RemoveAlphaChannel(cropped)));
  }

  /** Builds an RGB frame: copy, crop at the pixel stride, unlock, drop alpha and swap B and R. */
  method CreateRgbFrame(buffer: PixelBuffer) returns (frame: Option<RgbFrame>)
    requires buffer.Valid()
    modifies buffer
    ensures frame == RgbFrameOf(buffer.width, buffer.height, buffer.bytesPerRow, buffer.memory, buffer.presentationTime)
    ensures frame.None? ==> buffer.lockCount == old(buffer.lockCount) + 1
    ensures frame.Some? ==> buffer.lockCount == old(buffer.lockCount)
  {
    var epoch := buffer.presentationTime;
    buffer.Lock();
    var width := buffer.width;
    var height := buffer.height;
    if width == 0 || height == 0 {
      return None;
    }
    var bytesPerRow := buffer.bytesPerRow;
    var data := buffer.ReadBytes(0, bytesPerRow * height);
    assert data == buffer.memory[..bytesPerRow * height];
    MulLe(4 * (bytesPerRow / 4), bytesPerRow, height);
    var cropped := GetCroppedData(data, bytesPerRow / 4, height, width);
    buffer.Unlock();
    frame := Some(RgbFrame(epoch, width, height, ConvertBgraToRgb(cropped)));
  }

  /** With no row padding the BGRA frame is the covered memory region, byte for byte. */
  lemma BgraFrameWithoutPadding(width: nat, height: nat, memory: seq<byte>, epoch: nat)
    requires 0 < width && 0 < height && 4 * width * height <= |memory|
    ensures BgraFrameOf(width, height, 4 * width, memory, epoch).value.data == memory[..4 * width * height]
  {
    CropWithoutPadding(memory, 4 * width, height);
  }

  /**
   * Two pixels in one row of twelve bytes: the four padding bytes are trimmed,
   * and the three layouts come out as B0 G0 R0 A0 B1 G1 R1 A1, B0 G0 R0 B1 G1 R1
   * and R0 G0 B0 R1 G1 B1.
   */
  lemma TwoPixelPaddedRow(row: seq<byte>, epoch: nat)
    requires |row| == 12
    ensures BgraFrameOf(2, 1, 12, row, epoch).value.data == row[..8]
    ensures BgrFrameOf(2, 1, 12, row, epoch).value.data == [row[0], row[1], row[2], row[4], row[5], row[6]]
    ensures RgbFrameOf(2, 1, 12, row, epoch).value.data == [row[2], row[1], row[0], row[6], row[5], row[4]]
  {
    var bgra := row[..8];
    assert CropRows(row, 12, 8, 1) == bgra by {
      assert CropRows(row, 12, 8, 1) == CropRows(row, 12, 8, 0) + row[0..8];
    }
    assert PixelStrideCrop(2, 1, 12, row) == bgra;
    var second := bgra[4..];
    assert RemoveAlphaChannel(bgra) == [row[0], row[1], row[2], row[4], row[5], row[6]] by {
      assert RemoveAlphaChannel(second) == second[..3] + RemoveAlphaChannel(second[4..]);
      assert RemoveAlphaChannel(bgra) == bgra[..3] + RemoveAlphaChannel(second);
    }
    assert ConvertBgraToRgb(bgra) == [row[2], row[1], row[0], row[6], row[5], row[4]] by {
      assert ConvertBgraToRgb(second) == [second[2], second[1], second[0]] + ConvertBgraToRgb(second[4..]);
      assert ConvertBgraToRgb(bgra) == [bgra[2], bgra[1], bgra[0]] + ConvertBgraToRgb(second);
    }
  }

  /**
   * Under the modelled `GetCroppedData`, a stride that is not a whole number
   * of pixels makes the pixel-stride crop drift: with one pixel per row and
   * five bytes per row, the second BGR pixel is read from offset 4 instead of 5.
   */
  lemma UnalignedStrideDrifts(memory: seq<byte>, epoch: nat)
    requires memory == [0, 1, 2, 3, 4, 5, 6, 7, 8, 9]
    ensures BgraFrameOf(1, 2, 5, memory, epoch).value.data == [0, 1, 2, 3, 5, 6, 7, 8]
    ensures BgrFrameOf(1, 2, 5, memory, epoch).value.data == [0, 1, 2, 4, 5, 6]
    ensures RemoveAlphaChannel(BgraFrameOf(1, 2, 5, memory, epoch).value.data) == [0, 1, 2, 5, 6, 7]
  {
    assert CropRows(memory, 5, 4, 1) == [0, 1, 2, 3];
    assert CropRows(memory, 5, 4, 2) == [0, 1, 2, 3, 5, 6, 7, 8];
    var copied := memory[..10];
    assert CropRows(copied, 4, 4, 1) == [0, 1, 2, 3];
    assert CropRows(copied, 4, 4, 2) == [0, 1, 2, 3, 4, 5, 6, 7];
    var drifted: seq<byte> := [0, 1, 2, 3, 4, 5, 6, 7];
    assert PixelStrideCrop(1, 2, 5, memory) == drifted;
    assert RemoveAlphaChannel(drifted) == [0, 1, 2] + RemoveAlphaChannel(drifted[4..]);
    assert RemoveAlphaChannel(drifted[4..]) == [4, 5, 6] + RemoveAlphaChannel([]);
    var bgra: seq<byte> := [0, 1, 2, 3, 5, 6, 7, 8];
    assert RemoveAlphaChannel(bgra) == [0, 1, 2] + RemoveAlphaChannel(bgra[4..]);
    assert RemoveAlphaChannel(bgra[4..]) == [5, 6, 7] + RemoveAlphaChannel([]);
  }
}
