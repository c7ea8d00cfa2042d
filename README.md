# wgpu_texture_copy: padded texture readback

`wgpu_texture_copy` runs a compute shader that writes an RGBA8 image into a
texture. It copies that texture into a mappable GPU buffer and saves the
bytes as a PNG. The copy has one constraint: the distance between rows in
the buffer (`bytes_per_row`) must be a multiple of
`COPY_BYTES_PER_ROW_ALIGNMENT` (256). So the program pads every row of
`4 * width` bytes up to `align_width` bytes. After mapping the buffer,
`trim_image_buffer` drops that padding again.

This project models the arithmetic and byte movement of that readback:

- `U32` (`u32.dfy`): Rust's `u32` as a natural number below 2^32.
  - `+`, `-` and `*` wrap as in a release build; `!` is the 32-bit complement.
  - `&` is a bitwise and defined one bit at a time.
  - The lemmas show that and-ing with `!(a - 1)`, for a power of two `a`,
    rounds down to a multiple of `a`.
- `Align` (`align.dfy`): `align_up(num, align) = (num + align - 1) & !(align - 1)`.
  - Proved equal to `RoundUp`, the least multiple of `align` that is at
    least `num`, for a power-of-two alignment and no overflow.
  - Also proves its bounds, minimality, idempotence and the worked values
    0→0, 12→256, 256→256, 257→512 at alignment 256.
- `Readback` (`readback.dfy`):
  - The stride `align_width`, the buffer size `align_width * height` and
    the buffer layout of the copy.
  - The texture-to-buffer copy, as a function of the texture's bytes and the
    buffer's earlier contents (`CopyRows`).
  - `trim_image_buffer`, as an imperative method whose two nested loops
    push `buffer[i * align_width + j]`. It is proved against `Destride`, a
    recursive specification that concatenates the first `width` bytes of
    each row.
  - The round trip: trimming the copied buffer gives back the texture's
    bytes, whatever the padding held.

## Model

| member | source | states |
|---|---|---|
| Align.AlignUpIsRoundUp | src/main.rs:9-11 | for a power-of-two `align` with `num + align - 1` in range, the bit trick `(num + align - 1) & !(align - 1)` equals the least multiple of `align` that is at least `num` |
| Align.AlignUpBounds | src/main.rs:9-11 | the result is a multiple of `align`, is `>= num` and `< num + align`, and is at most every multiple of `align` that is at least `num` |
| Align.AlignUpOfMultiple | src/main.rs:9-11 | a value that is already a multiple of `align` is returned unchanged |
| Align.AlignUpIdempotent | src/main.rs:9-11 | the result again satisfies `NoOverflow` (the second call's `r + align - 1` fits in a `u32`), and aligning it again gives the same value |
| Align.AlignUpExamples | src/main.rs:9-11 | with alignment 256: 0 gives 0, 12 gives 256, 256 gives 256 and 257 gives 512 |
| Align.RoundUpIsLeast | src/main.rs:9-11 | no multiple of `align` that is at least `num` is below the rounded-up value |
| Align.AlignedLeavesRoom | src/main.rs:9-11 | for a `u32` multiple `r` of a power-of-two alignment, `r + align - 1` fits in a `u32`, because 2^32 is itself a multiple |
| U32.AndNotClearsLowBits | src/main.rs:10 | on `u32`, `x & !(a - 1)` equals `x - x % a` for every power of two `a` |
| U32.BitAndClearsLowBits | src/main.rs:10 | and-ing `x < 2^n` with `2^n - a`, for a power of two `a <= 2^n`, clears exactly the bits below `a` |
| Readback.AlignWidthIsPaddedRow | src/main.rs:20-23 | `align_width` is `4 * width` rounded up to 256: a multiple of 256, at least the row's bytes and less than 256 bytes more |
| Readback.NarrowImageStride | src/main.rs:20-23 | a 3-pixel row of 12 bytes gets a 256-byte stride, and a one-row buffer is 256 bytes |
| Readback.WideImageHasNoPadding | src/main.rs:20-23 | a 1024-pixel row of 4096 bytes is already aligned, so the stride equals the row and there is no padding |
| Readback.ReadbackBufferMatchesLayout | src/main.rs:152-166 | the buffer of `align_width * height` bytes is exactly `bytes_per_row * rows_per_image` of the copy layout at offset 0, and its length divided by `height` is `align_width` |
| Readback.ReadbackGeometry | src/main.rs:152-166 | the unpadded row `4 * width` fits in the stride, the buffer holds `height` strides, and the stride recomputed from the buffer length is `align_width` |
| Readback.CopyRowsAt | src/main.rs:159-168 | after the copy, byte `j < 4 * width` of buffer row `i < height` (offset `i * bytes_per_row + j`) is byte `j` of texture row `i` |
| Readback.CopyRowsKeepsPadding | src/main.rs:159-168 | the copy leaves every padding byte and every byte past the last row as it was |
| Readback.TrimImageBuffer | src/main.rs:231-243 | with `height > 0` and every row `i < height` of `width` bytes at `i * (len / height)` in bounds, the nested loops return `Destride` of the buffer at the recomputed stride |
| Readback.DestrideAt | src/main.rs:236-240 | output byte `i * width + j` is buffer byte `i * stride + j` for every `i < height` and `j < width`, and the output has `height * width` bytes |
| Readback.DestrideAtOffset | src/main.rs:236-240 | the same index equation, with offsets counted row by row |
| Readback.RowsFitStride | src/main.rs:231-243 | when `width <= len / height`, every row `trim_image_buffer` reads is in bounds, so its requires holds |
| Readback.TrimmedLength | src/main.rs:231-243 | the trimmed output has `height * width` bytes |
| Readback.TrimWithoutPadding | src/main.rs:231-243 | a buffer of exactly `width * height` bytes has stride `width` and comes back unchanged |
| Readback.TrimUndoesCopy | src/main.rs:231-243 | copying `rows` rows of `rowBytes <= stride` bytes at stride `stride` and then destriding gives back the texture's bytes, whatever the buffer held before |
| Readback.NarrowImageTrim | src/main.rs:262 | for a 3 x 1 image in its 256-byte buffer, trimming keeps the 12 texture bytes and drops the 244 padding bytes, whatever they held |
| Readback.ReadbackRoundTrip | src/main.rs:262 | for a `width` x `height` image, calling `trim_image_buffer` with `DATA_PER_PIXEL * width` on the copied buffer recovers the stride `align_width`, stays in bounds and returns the texture's bytes exactly |
| Readback.RowOffsetIsProduct | src/main.rs:238 | the offset reached by stepping over `i` rows of `stride` bytes is `i * stride`, the index the source computes |

## Left out

- Device and adapter acquisition, shader loading, bind groups, the compute pipeline, command encoding and queue submission are left out: they are GPU API calls with no logic of the program's own. The compute kernel is left out as well: the model takes the output texture's bytes as a parameter (`texels`).
- Buffer mapping is left out: `map_async`, `device.poll`, the oneshot channel and `unmap` are I/O. `view_into_buffer` tests the channel result with `if let Ok(_)`, so a mapping error delivered over a working channel would still be read. A failed mapping is meant to end in the `else` branch's error (src/main.rs:268-269); the model follows the code and takes the mapped bytes as given.
- PNG decoding and encoding, file I/O and `main` are left out as I/O.
- Debug-build overflow panics are not modelled: `Add`, `Sub` and `Mul` wrap as in a release build. The lemmas about the stride and the buffer size require that the values the source computes fit in a `u32` (`NoOverflow`, `StrideFits`, `AlignWidth(width) * height <= MAX`).
- `Align.NoOverflow`: requires only that `num + align - 1` fits, not the intermediate `num + align`. At `num + align == 2^32` (for example `num = 0xFFFF_FF00`, `align = 256`, or `StrideFits(0x3FFF_FFC0)`) a debug build panics on the `+`, while the release build's wrap is undone by the `- 1` and gives the value the lemmas state. The same edge applies to the second call in `Align.AlignUpIdempotent`.
- `Readback.TrimImageBuffer`: the `Vec::with_capacity((width * height) as usize)` hint is not modelled. It only reserves capacity, but in a debug build its `u32` product can panic for a large image.
- `Readback.TrimImageBuffer`: `usize` arithmetic is taken as unbounded. Every index it computes is below the buffer length, so it cannot overflow.
- `Readback.TrimImageBuffer`: the output length is not stated in the method's own contract. `Readback.TrimmedLength` states it for `Destride`.
- `Readback.CopyRows`: only models the single-layer, single-mip copy of `copy_texture_to_buffer` with offset 0, as `main.rs` issues it. Other layouts and wgpu's validation of the copy are not modelled.
