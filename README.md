# scap macOS frame extraction and version check, in Dafny

This project models two small pieces of the macOS back end of the `scap`
screen-capture library.

**Frame extraction** (`src/capturer/engine/mac/pixelformat.rs`). Each captured
sample carries a CoreVideo pixel buffer in BGRA layout. Each row is
`bytes_per_row` bytes long, but only its first `4 * width` bytes are pixels;
the rest is alignment padding. The three entry points work the same way:

1. lock the buffer's base address;
2. read width and height, and return `None` if either is zero;
3. read the memory and crop every row down to its pixel bytes;
4. unlock;
5. return a BGRA, BGR or RGB frame carrying the presentation timestamp and the
   buffer's width and height.

The BGRA path crops in its own loop. The BGR and RGB paths copy the whole
region and call the `crate::frame` helpers: `get_cropped_data` at a pixel stride
of `bytes_per_row / 4`, then `remove_alpha_channel` or `convert_bgra_to_rgb`.

**Version check** (`src/utils/mac/mod.rs`). `is_supported` compares the bytes
of the OS version string with the bytes of `"12.3\n"` using Rust's `>=` on
`Vec<u8>`. That is a lexicographic, textual comparison.

Files:

- `primitives.dfy`: the `byte` type, `Option`, and one arithmetic helper.
- `crop.dfy`: the row crop (`CropRows`), its reference definition (`IsCrop`) and its properties.
- `frame.dfy`: the three frame values and the `crate::frame` helpers.
- `pixelformat.dfy`: the pixel buffer, with a ghost lock counter, and the three entry points. Each entry point is a method. A function states what the method returns.
- `mac_utils.dfy`: `is_supported`, plus a numeric comparison that fixes the textual one.

The pixel buffer is a class. Its geometry, memory and timestamp are constants.
It also has a ghost lock counter. `Lock` adds one and `Unlock` takes one away.
`ReadBytes` requires the counter to be positive, so the verifier checks that
every read of the memory happens while the buffer is locked. Each
`Create*Frame` method states two things:

- its result equals the matching `*FrameOf` function of the buffer's contents;
- what happens to the lock: it is balanced when a frame is returned, and one
  lock is still held when `None` is returned.

## Model

| member | source | states |
|---|---|---|
| `Crop.CropRows` | src/capturer/engine/mac/pixelformat.rs:66-70 | The first `rows` rows, each cut to `rowLen` bytes, packed back to back; the result has exactly `rows * rowLen` bytes whatever the stride |
| `Crop.CropRowsAt` | src/capturer/engine/mac/pixelformat.rs:67-69 | Output byte `i * rowLen + j` is input byte `i * stride + j` for every row `i` and offset `j < rowLen`, and both positions are in range |
| `Crop.CropRowsIsCrop` | src/capturer/engine/mac/pixelformat.rs:66-70 | The loop's result meets the reference definition of a crop: exact length, and every row's pixel bytes are copied to a contiguous position |
| `Crop.CropHasNoPadding` | src/capturer/engine/mac/pixelformat.rs:68-69 | Every output byte is a copy of a source byte at a row offset below `rowLen`, so no padding byte is ever copied |
| `Crop.CropIsUnique` | src/capturer/engine/mac/pixelformat.rs:66-70 | Two byte sequences that both crop the same source the same way are equal, so the reference definition pins the output down |
| `Crop.CropOfPrefix` | src/capturer/engine/mac/pixelformat.rs:31 | Cropping the copied `bytes_per_row * height` region gives the same result as cropping the whole memory: no byte past the last row is used |
| `Crop.CropWithoutPadding` | src/capturer/engine/mac/pixelformat.rs:66-70 | When the stride equals the row's pixel length, the crop is the covered region byte for byte |
| `Frame.GetCroppedData` | src/capturer/engine/mac/pixelformat.rs:33-38 | Called with pixel stride `curWidth`, the result is the crop of `height` rows at byte stride `4 * curWidth`, keeping `4 * width` bytes per row |
| `Frame.RemoveAlphaChannel` | src/capturer/engine/mac/pixelformat.rs:46 | Three output bytes for every complete four-byte pixel |
| `Frame.RemoveAlphaChannelDropsAlpha` | src/capturer/engine/mac/pixelformat.rs:46 | Output bytes `3p`, `3p+1` and `3p+2` are input bytes `4p`, `4p+1` and `4p+2`, so every alpha byte is dropped and B, G, R keep their order |
| `Frame.ConvertBgraToRgb` | src/capturer/engine/mac/pixelformat.rs:113 | Three output bytes for every complete four-byte pixel |
| `Frame.ConvertBgraToRgbReversesChannels` | src/capturer/engine/mac/pixelformat.rs:113 | Output bytes `3p`, `3p+1` and `3p+2` are input bytes `4p+2`, `4p+1` and `4p`, so alpha is dropped and the order becomes R, G, B |
| `Frame.RgbIsSwappedBgr` | src/capturer/engine/mac/pixelformat.rs:113 | The RGB layout is the BGR layout with the first and third bytes of each pixel swapped |
| `PixelFormat.PixelBuffer.constructor` | src/capturer/engine/mac/pixelformat.rs:22-29 | A pixel buffer that starts out unlocked. If it has pixels, its rows hold `width` pixels within `bytes_per_row` bytes and its memory covers every row. A buffer of zero width or height may have any stride and any memory |
| `PixelFormat.PixelBuffer.Lock` | src/capturer/engine/mac/pixelformat.rs:20 | Locking the base address adds one lock to be released |
| `PixelFormat.PixelBuffer.Unlock` | src/capturer/engine/mac/pixelformat.rs:40 | Only a held lock can be released, and unlocking releases exactly one |
| `PixelFormat.PixelBuffer.ReadBytes` | src/capturer/engine/mac/pixelformat.rs:31 | Memory can be read only while locked and only inside the buffer; the copy is the `count` bytes at `start` |
| `PixelFormat.BgraFrameOf` | src/capturer/engine/mac/pixelformat.rs:57-79 | No frame exactly when width or height is zero; otherwise the frame has the presentation timestamp, the buffer's width and height, and data that is the crop of the memory at stride `bytes_per_row` |
| `PixelFormat.PixelStrideCrop` | src/capturer/engine/mac/pixelformat.rs:31-38 | The BGR/RGB crop has `4 * width * height` bytes (for a stride that is a multiple of 4; otherwise under the assumed helper), and it equals the BGRA crop when `bytes_per_row` is a multiple of 4 |
| `PixelFormat.BgrFrameOf` | src/capturer/engine/mac/pixelformat.rs:22-47 | No frame exactly on zero geometry; otherwise the timestamp, width and height are propagated and there are `3 * width * height` bytes; when the stride is a whole number of pixels, this is the BGRA frame's data with every alpha byte dropped |
| `PixelFormat.RgbFrameOf` | src/capturer/engine/mac/pixelformat.rs:89-114 | No frame exactly on zero geometry; otherwise the timestamp, width and height are propagated and there are `3 * width * height` bytes; when the stride is a whole number of pixels, this is the BGRA frame's data with alpha dropped and B and R swapped |
| `PixelFormat.CreateBgraFrame` | src/capturer/engine/mac/pixelformat.rs:50-80 | Returns `BgraFrameOf` of the buffer. The row loop keeps the packed first `i` rows as its invariant. Every read happens under the lock. One lock is still held after `None`; the lock is balanced after a frame |
| `PixelFormat.CreateBgrFrame` | src/capturer/engine/mac/pixelformat.rs:15-48 | Returns `BgrFrameOf` of the buffer, reading only under the lock. One lock is still held after `None`; the lock is balanced after a frame |
| `PixelFormat.CreateRgbFrame` | src/capturer/engine/mac/pixelformat.rs:82-116 | Returns `RgbFrameOf` of the buffer, reading only under the lock. One lock is still held after `None`; the lock is balanced after a frame |
| `PixelFormat.BgraFrameWithoutPadding` | src/capturer/engine/mac/pixelformat.rs:66-70 | With `bytes_per_row == 4 * width`, the BGRA data equals the first `bytes_per_row * height` bytes of memory |
| `PixelFormat.TwoPixelPaddedRow` | src/capturer/engine/mac/pixelformat.rs:15-116 | Two pixels in one 12-byte row: BGRA keeps the first 8 bytes, BGR is `B0 G0 R0 B1 G1 R1`, RGB is `R0 G0 B0 R1 G1 B1` |
| `PixelFormat.UnalignedStrideDrifts` | src/capturer/engine/mac/pixelformat.rs:35 | Under the modelled helper, a 5-byte stride makes the pixel stride `bytes_per_row / 4` crop the second row from offset 4 rather than 5, so the BGR data is not the BGRA data with alpha dropped |
| `MacUtils.LexAtLeast` | src/utils/mac/mod.rs:20 | `a >= b` on byte vectors holds exactly when `b` is a prefix of `a`, or when `a` has the larger byte at the first index where they differ |
| `MacUtils.IsSupported` | src/utils/mac/mod.rs:12-21 | True exactly when `"12.3\n"` is a prefix of the version bytes, or the version has the larger byte at the first index where they differ |
| `MacUtils.TextualOrderMisranksTwoDigitMinor` | src/utils/mac/mod.rs:18-20 | `"12.10"` … `"12.29"` (with any non-digit tail) are rejected, although they are numerically at least 12.3 |
| `MacUtils.TextualOrderRejectsBareMinimum` | src/utils/mac/mod.rs:18-20 | `"12.3"` without a newline is a proper prefix of `"12.3\n"` and is rejected |
| `MacUtils.TextualOrderOnMajorNumbers` | src/utils/mac/mod.rs:18-20 | `"13.0"` is accepted, `"11.9"` is rejected, and `"12.3\n"` itself is accepted |
| `MacUtils.IsSupportedNumeric` | src/utils/mac/mod.rs:18-20 | The corrected check accepts only strings that parse as a version |
| `MacUtils.NumericOrderOnDottedVersions` | src/utils/mac/mod.rs:18-20 | For every `major.minor` string followed by a non-digit tail, the corrected check accepts exactly when `(major, minor) >= (12, 3)` |

## Left out

- CoreMedia and CoreVideo calls are not modelled. This covers `CMSampleBufferGetImageBuffer`, the `CVPixelBufferGet*` accessors, lock/unlock, and the presentation timestamp. The `PixelBuffer` class stands in for them, with constant geometry, memory and timestamp.
- The platform's own lock semantics are not modelled. The lock-flags argument `0` is dropped, and lock or unlock failure codes are ignored.
- Raw pointer arithmetic (`wrapping_add`, `slice::from_raw_parts`) becomes sequence slicing under bounds preconditions. `PixelBuffer.Valid` states the bounds the platform guarantees for a buffer with pixels: `4 * width <= bytes_per_row`, and the memory covers `bytes_per_row * height` bytes. A buffer of zero width or height is not bound by them, since the code returns before it reads the stride or the memory.
- `crate::frame` (`src/frame`) is not part of this model. The bodies of `GetCroppedData`, `RemoveAlphaChannel` and `ConvertBgraToRgb` are assumed: a row crop at the given pixel stride, dropping the fourth byte of every pixel, and reversing the first three bytes. Trailing bytes that do not make a whole pixel are dropped. What the real helpers do on a length mismatch is not modelled.
- Integer casts are not modelled. The timestamp is a natural number, so negative CoreMedia timestamps and the reinterpretation done by `epoch as u64` are not represented. Width, height and the `get_cropped_data` arguments are assumed to fit in `i32`.
- `has_permission` and `request_permission` are left out: they only wrap the ScreenCaptureAccess OS API.
- `System::os_version()` and its `expect` panic are left out. The version bytes are a parameter.
- `src/lib.rs` is left out: it only declares modules and re-exports.
- Idempotence has no separate lemma: every `*FrameOf` is a function, so equal inputs give equal frames.
- The code does not release the lock when width or height is zero: it returns at lines 25, 60 and 92 with the lock still held, and the `Create*Frame` contracts say so.
- The BGR and RGB paths crop at a pixel stride of `bytes_per_row / 4` (lines 35 and 102). They match the BGRA crop when `bytes_per_row` is a multiple of 4.
- PixelFormat.UnalignedStrideDrifts: the result for a stride that is not a multiple of 4 is the model's assumption about the hidden `get_cropped_data`. There the copied region (line 31) is longer than `height` rows of `4 * (bytes_per_row / 4)` bytes, and the real helper's handling of that mismatch is not visible.
- PixelFormat.PixelStrideCrop, PixelFormat.BgrFrameOf, PixelFormat.RgbFrameOf: the `4 * width * height` crop length and the `3 * width * height` data length hold for the source only when `bytes_per_row` is a multiple of 4. For other strides they follow from the assumed helper bodies.

## Findings

| source | as written | input that shows it | evidently intended | confidence | as-written member | corrected member |
|---|---|---|---|---|---|---|
| src/utils/mac/mod.rs:18-20 | The version bytes are compared textually with `"12.3\n"` | `"12.10"` is rejected because byte `1` < byte `3` at index 3; `"12.3"` without a newline is rejected as a proper prefix | Accept every version whose numbers are at least 12.3 | low: no macOS 12 release has a two-digit minor number, and whether the OS string ends in a newline is not visible here; not executed | `MacUtils.TextualOrderMisranksTwoDigitMinor` | `MacUtils.NumericOrderOnDottedVersions` |
