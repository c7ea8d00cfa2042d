/** The readback half of `main.rs`: the padded row stride and buffer size
    chosen in `compute_and_get_texture`, the texture-to-buffer copy that
    fills that buffer, and `trim_image_buffer`, which strips the padding
    again. */
module Readback {
  import opened U32
  import opened Align

  type u8 = x: nat | x < 256

  const DATA_PER_PIXEL: u32 := 4
  const U8_SIZE: u32 := 1
  /** `wgpu::COPY_BYTES_PER_ROW_ALIGNMENT` */
  const COPY_BYTES_PER_ROW_ALIGNMENT: u32 := 256

  /** `align_width`: the bytes of one image row rounded up to the copy
      alignment. */
  function AlignWidth(width: u32): u32 {
    AlignUp(Mul(Mul(width, DATA_PER_PIXEL), U8_SIZE), COPY_BYTES_PER_ROW_ALIGNMENT) / U8_SIZE
  }

  /** The bytes of one unpadded image row: `DATA_PER_PIXEL * width`. */
  function RowBytes(width: u32): u32 {
    Mul(DATA_PER_PIXEL, width)
  }

  /** The image is narrow enough that no `u32` computation of the stride
      overflows. */
  predicate StrideFits(width: u32) {
    NoOverflow(DATA_PER_PIXEL * width, COPY_BYTES_PER_ROW_ALIGNMENT)
  }

  /** The stride is the row size rounded up to 256: a multiple of 256, never
      shorter than a row and less than 256 bytes longer. */
  lemma AlignWidthIsPaddedRow(width: u32)
    requires StrideFits(width)
    ensures RowBytes(width) == DATA_PER_PIXEL * width
    ensures AlignWidth(width) == RoundUp(DATA_PER_PIXEL * width, COPY_BYTES_PER_ROW_ALIGNMENT)
    ensures AlignWidth(width) % COPY_BYTES_PER_ROW_ALIGNMENT == 0
    ensures DATA_PER_PIXEL * width <= AlignWidth(width) < DATA_PER_PIXEL * width + COPY_BYTES_PER_ROW_ALIGNMENT
  {
    var bytes := 4 * width;
    assert bytes < MODULUS;
    assert Mul(width, DATA_PER_PIXEL) == bytes;
    assert Mul(bytes, U8_SIZE) == bytes;
    assert RowBytes(width) == bytes;
    assert IsPowerOfTwo(256);
    AlignUpIsRoundUp(bytes, 256);
    var r := AlignUp(bytes, 256);
    assert AlignWidth(width) == r / 1 == r;
  }

  /** `wgpu::ImageDataLayout`: where rows sit in a linear buffer. */
  datatype ImageDataLayout = ImageDataLayout(offset: nat, bytesPerRow: u32, rowsPerImage: u32)

  /** The size the readback buffer is created with: `align_width * height`. */
  function ReadbackBufferSize(width: u32, height: u32): u32 {
    Mul(AlignWidth(width), height)
  }

  /** The buffer side of `copy_texture_to_buffer`. */
  function ReadbackCopyLayout(width: u32, height: u32): ImageDataLayout {
    ImageDataLayout(0, AlignWidth(width), height)
  }

  /** The buffer holds exactly `height` rows of the copy's stride, so the
      stride `trim_image_buffer` recomputes from the buffer length is the one
      the copy used. */
  lemma ReadbackBufferMatchesLayout(width: u32, height: u32)
    requires StrideFits(width) && AlignWidth(width) * height <= MAX
    ensures ReadbackCopyLayout(width, height).offset == 0
    ensures ReadbackBufferSize(width, height)
         == ReadbackCopyLayout(width, height).bytesPerRow * ReadbackCopyLayout(width, height).rowsPerImage
    ensures height > 0 ==> ReadbackBufferSize(width, height) / height == AlignWidth(width)
  {
    var stride := AlignWidth(width);
    var size := stride * height;
    MulExact(stride, height);
    if height > 0 {
      DivModUnique(size, height, stride, 0);
    }
  }

  /** The offset of row `i` in a buffer whose rows are `stride` bytes
      apart, counted one row at a time. */
  function RowOffset(i: nat, stride: nat): nat {
    if i == 0 then 0 else RowOffset(i - 1, stride) + stride
  }

  lemma {:induction false} RowOffsetIsProduct(i: nat, stride: nat)
    ensures RowOffset(i, stride) == i * stride
  {
    if i > 0 {
      RowOffsetIsProduct(i - 1, stride);
    }
  }

  lemma {:induction false} RowOffsetMono(i: nat, k: nat, stride: nat)
    requires i <= k
    ensures RowOffset(i, stride) <= RowOffset(k, stride)
  {
    if i < k {
      RowOffsetMono(i, k - 1, stride);
    }
  }

  /** Every offset below `rows` rows of `width` bytes is byte `j` of some
      row `i`. */
  lemma {:induction false} SplitOffset(k: nat, width: nat, rows: nat) returns (i: nat, j: nat)
    requires k < RowOffset(rows, width)
    ensures i < rows && j < width && k == RowOffset(i, width) + j
  {
    if k < RowOffset(rows - 1, width) {
      i, j := SplitOffset(k, width, rows - 1);
    } else {
      i, j := rows - 1, k - RowOffset(rows - 1, width);
    }
  }

  /** Rows `0 .. rows - 1`, each `width` bytes long and `stride` bytes
      apart, lie inside a buffer of `len` bytes. */
  predicate RowsInBounds(len: nat, stride: nat, width: nat, rows: nat) {
    rows == 0 || RowOffset(rows - 1, stride) + width <= len
  }

  /** Every row before the last in-bounds row is in bounds too. */
  lemma RowInBounds(len: nat, stride: nat, width: nat, rows: nat, i: nat)
    requires RowsInBounds(len, stride, width, rows) && i < rows
    ensures RowOffset(i, stride) + width <= len
    ensures RowsInBounds(len, stride, width, i) && RowsInBounds(len, stride, width, i + 1)
  {
    RowOffsetMono(i, rows - 1, stride);
  }

  /** The bytes `trim_image_buffer` keeps: the first `width` bytes of each of
      the first `rows` rows of `buffer`, rows being `stride` bytes apart, in
      row order. */
  function Destride(buffer: seq<u8>, stride: nat, width: nat, rows: nat): (r: seq<u8>)
    requires RowsInBounds(|buffer|, stride, width, rows)
    ensures |r| == RowOffset(rows, width)
    decreases rows
  {
    if rows == 0 then []
    else
      var start := RowOffset(rows - 1, stride);
      Destride(buffer, stride, width, rows - 1) + buffer[start .. start + width]
  }

  /** Byte j of row i of the trimmed output is byte j of row i of the
      padded buffer (offsets counted row by row). */
  lemma {:induction false} DestrideAtOffset(buffer: seq<u8>, stride: nat, width: nat, rows: nat, i: nat, j: nat)
    requires RowsInBounds(|buffer|, stride, width, rows) && i < rows && j < width
    ensures RowOffset(i, width) + j < RowOffset(rows, width)
    ensures RowOffset(i, stride) + j < |buffer|
    ensures Destride(buffer, stride, width, rows)[RowOffset(i, width) + j] == buffer[RowOffset(i, stride) + j]
  {
    var prefix := Destride(buffer, stride, width, rows - 1);
    var start := RowOffset(rows - 1, stride);
    assert Destride(buffer, stride, width, rows) == prefix + buffer[start .. start + width];
    RowInBounds(|buffer|, stride, width, rows, i);
    RowOffsetMono(i + 1, rows, width);
    if i == rows - 1 {
      assert |prefix| == RowOffset(i, width);
    } else {
      RowOffsetMono(i + 1, rows - 1, width);
      DestrideAtOffset(buffer, stride, width, rows - 1, i, j);
      assert RowOffset(i, width) + j < |prefix|;
    }
  }

  /** The index equation of the destride: for every row `i < rows` and
      column `j < width`, output byte `i * width + j` is buffer byte
      `i * stride + j`, and the output has `rows * width` bytes. */
  lemma DestrideAt(buffer: seq<u8>, stride: nat, width: nat, rows: nat, i: nat, j: nat)
    requires RowsInBounds(|buffer|, stride, width, rows) && i < rows && j < width
    ensures |Destride(buffer, stride, width, rows)| == rows * width
    ensures i * width + j < rows * width && i * stride + j < |buffer|
    ensures Destride(buffer, stride, width, rows)[i * width + j] == buffer[i * stride + j]
  {
    DestrideAtOffset(buffer, stride, width, rows, i, j);
    RowOffsetIsProduct(i, width);
    RowOffsetIsProduct(i, stride);
    RowOffsetIsProduct(rows, width);
  }

  /** The start of row `i` as the source computes it, `i * stride`: the
      offset reached by stepping over `i` rows. */
  function RowStartOf(i: nat, stride: nat): (r: nat)
    ensures r == RowOffset(i, stride)
  {
    RowOffsetIsProduct(i, stride);
    i * stride
  }

  /** Destriding one more row appends that row's first `width` bytes. */
  lemma DestrideNext(buffer: seq<u8>, stride: nat, width: nat, i: nat)
    requires RowsInBounds(|buffer|, stride, width, i + 1)
    ensures RowsInBounds(|buffer|, stride, width, i)
    ensures RowOffset(i, stride) + width <= |buffer|
    ensures Destride(buffer, stride, width, i + 1)
         == Destride(buffer, stride, width, i) + buffer[RowOffset(i, stride) .. RowOffset(i, stride) + width]
  {
    RowInBounds(|buffer|, stride, width, i + 1, i);
  }

  /** `buffer.len() / height as usize`: the stride `trim_image_buffer`
      recovers from the length of the mapped buffer. */
  function RowStride(len: nat, rows: nat): nat
    requires rows > 0
  {
    len / rows
  }

  /** `trim_image_buffer(width, height, buffer)`: `width` is the number of
      bytes to keep from each row and the stride is recomputed as
      `buffer.len() / height`. The source divides by `height` and indexes
      `buffer[i * stride + j]` for every `i < height`, `j < width`; the two
      requires are exactly the inputs for which neither panics. */
  method TrimImageBuffer(width: u32, height: u32, buffer: seq<u8>) returns (output: seq<u8>)
    requires height > 0
    requires RowsInBounds(|buffer|, RowStride(|buffer|, height), width, height)
    ensures output == Destride(buffer, RowStride(|buffer|, height), width, height)
  {
    output := [];
    var alignWidth := RowStride(|buffer|, height);
    for i: nat := 0 to height
      invariant RowsInBounds(|buffer|, alignWidth, width, i)
      invariant output == Destride(buffer, alignWidth, width, i)
    {
      var start := RowStartOf(i, alignWidth);
      RowInBounds(|buffer|, alignWidth, width, height, i);
      ghost var done := output;
      for j: nat := 0 to width
        invariant output == done + buffer[start .. start + j]
      {
        output := output + [buffer[start + j]];
      }
      DestrideNext(buffer, alignWidth, width, i);
    }
  }

  /** A caller's simpler condition: when each row's `width` bytes fit in
      the recomputed stride `len / height`, every row read by
      `trim_image_buffer` is in bounds. */
  lemma RowsFitStride(len: nat, width: nat, height: nat)
    requires height > 0 && width <= RowStride(len, height)
    ensures RowsInBounds(len, RowStride(len, height), width, height)
  {
    var stride := RowStride(len, height);
    FullRowsInBounds(height * stride, stride, width, height);
    assert height * stride <= len by {
      MulComm(height, stride);
    }
  }

  /** The trimmed output has `width` bytes for each of the `height` rows. */
  lemma TrimmedLength(width: nat, height: nat, buffer: seq<u8>)
    requires height > 0 && RowsInBounds(|buffer|, RowStride(|buffer|, height), width, height)
    ensures |Destride(buffer, RowStride(|buffer|, height), width, height)| == height * width
  {
    RowOffsetIsProduct(height, width);
  }

  /** A buffer without padding, one whose length is exactly `width * height`,
      is returned unchanged. */
  lemma TrimWithoutPadding(width: nat, height: nat, buffer: seq<u8>)
    requires height > 0 && |buffer| == width * height
    ensures RowStride(|buffer|, height) == width
    ensures RowsInBounds(|buffer|, width, width, height)
    ensures Destride(buffer, RowStride(|buffer|, height), width, height) == buffer
  {
    DivModUnique(width * height, height, width, 0);
    RowOffsetIsProduct(height, width);
    var out := Destride(buffer, width, width, height);
    forall k | 0 <= k < |buffer|
      ensures out[k] == buffer[k]
    {
      var i, j := SplitOffset(k, width, height);
      DestrideAtOffset(buffer, width, width, height, i, j);
    }
  }

  /** Byte j of row i of a block of `rows` rows of `width` bytes lies inside
      the block. */
  lemma EntryInBlock(i: nat, j: nat, rows: nat, width: nat)
    requires i < rows && j < width
    ensures i * width + j < rows * width
  {
    MulMono(i + 1, rows, width);
  }

  /** Byte k of the buffer after the texture-to-buffer copy: byte j of row i
      (k = i * stride + j) is byte j of texture row i when the row is one of
      the `rows` copied and j is below `rowBytes`; every other byte keeps
      what `dst` held before the copy. */
  function CopiedByte(dst: seq<u8>, texels: seq<u8>, rowBytes: nat, stride: nat, rows: nat, k: nat): u8
    requires rowBytes <= stride && rows * rowBytes <= |texels| && k < |dst|
  {
    if stride > 0 && k / stride < rows && k % stride < rowBytes then
      EntryInBlock(k / stride, k % stride, rows, rowBytes);
      texels[(k / stride) * rowBytes + k % stride]
    else dst[k]
  }

  /** The buffer after copying `rows` texture rows of `rowBytes` bytes into
      `dst` at a row stride of `stride` bytes (the copy layout's
      `bytes_per_row`). */
  function CopyRows(dst: seq<u8>, texels: seq<u8>, rowBytes: nat, stride: nat, rows: nat): (r: seq<u8>)
    requires rowBytes <= stride && rows * rowBytes <= |texels|
    ensures |r| == |dst|
  {
    seq(|dst|, k requires 0 <= k < |dst| => CopiedByte(dst, texels, rowBytes, stride, rows, k))
  }

  /** After the copy, byte j of buffer row i is byte j of texture row i. */
  lemma CopyRowsAt(dst: seq<u8>, texels: seq<u8>, rowBytes: nat, stride: nat, rows: nat, i: nat, j: nat)
    requires rowBytes <= stride && rows * rowBytes <= |texels|
    requires i < rows && j < rowBytes && i * stride + j < |dst|
    ensures i * rowBytes + j < |texels|
    ensures CopyRows(dst, texels, rowBytes, stride, rows)[i * stride + j] == texels[i * rowBytes + j]
  {
    DivModUnique(i * stride + j, stride, i, j);
    EntryInBlock(i, j, rows, rowBytes);
  }

  /** The copy leaves every byte outside the copied rows as it was: byte j
      of row i keeps its old value when it is padding (`rowBytes <= j`) or
      lies past the last copied row (`rows <= i`). */
  lemma CopyRowsKeepsPadding(dst: seq<u8>, texels: seq<u8>, rowBytes: nat, stride: nat, rows: nat, i: nat, j: nat)
    requires rowBytes <= stride && rows * rowBytes <= |texels|
    requires (rows <= i || rowBytes <= j) && j < stride && i * stride + j < |dst|
    ensures CopyRows(dst, texels, rowBytes, stride, rows)[i * stride + j] == dst[i * stride + j]
  {
    DivModUnique(i * stride + j, stride, i, j);
  }

  /** A buffer of `rows * stride` bytes holds `rows` rows of `width <=
      stride` bytes. */
  lemma FullRowsInBounds(len: nat, stride: nat, width: nat, rows: nat)
    requires width <= stride && len == rows * stride
    ensures RowsInBounds(len, stride, width, rows)
  {
    if rows > 0 {
      RowOffsetIsProduct(rows - 1, stride);
      assert rows * stride == (rows - 1) * stride + stride;
    }
  }

  /** Trimming undoes the copy: whatever the padding bytes hold, destriding
      the copied buffer gives back the texture's rows, in order. */
  lemma TrimUndoesCopy(dst: seq<u8>, texels: seq<u8>, rowBytes: nat, stride: nat, rows: nat)
    requires rowBytes <= stride
    requires |texels| == rows * rowBytes && |dst| == rows * stride
    ensures RowsInBounds(|dst|, stride, rowBytes, rows)
    ensures Destride(CopyRows(dst, texels, rowBytes, stride, rows), stride, rowBytes, rows) == texels
  {
    FullRowsInBounds(|dst|, stride, rowBytes, rows);
    var buffer := CopyRows(dst, texels, rowBytes, stride, rows);
    var out := Destride(buffer, stride, rowBytes, rows);
    RowOffsetIsProduct(rows, rowBytes);
    forall k | 0 <= k < |texels|
      ensures out[k] == texels[k]
    {
      DivModSplit(k, rowBytes, rows);
      var i, j := k / rowBytes, k % rowBytes;
      DestrideAt(buffer, stride, rowBytes, rows, i, j);
      CopyRowsAt(dst, texels, rowBytes, stride, rows, i, j);
    }
  }

  /** The sizes of one readback: a row of the texture is `4 * width` bytes,
      no longer than the stride, and the buffer holds `height` strides, from
      which `trim_image_buffer` recovers the stride. */
  lemma ReadbackGeometry(width: u32, height: u32)
    requires height > 0 && StrideFits(width) && AlignWidth(width) * height <= MAX
    ensures RowBytes(width) == DATA_PER_PIXEL * width <= AlignWidth(width)
    ensures ReadbackBufferSize(width, height) == height * AlignWidth(width)
    ensures RowStride(ReadbackBufferSize(width, height), height) == AlignWidth(width)
  {
    assert RowBytes(width) == DATA_PER_PIXEL * width <= AlignWidth(width) by {
      AlignWidthIsPaddedRow(width);
    }
    assert ReadbackBufferSize(width, height) == height * AlignWidth(width)
        && RowStride(ReadbackBufferSize(width, height), height) == AlignWidth(width) by {
      ReadbackBufferMatchesLayout(width, height);
      MulComm(AlignWidth(width), height);
    }
  }

  /** The whole readback of a `width` x `height` image: the copy writes the
      output texture's bytes into a buffer of `ReadbackBufferSize` bytes at
      stride `AlignWidth(width)`; `trim_image_buffer`, called with
      `DATA_PER_PIXEL * width` bytes per row, recomputes that stride from the
      buffer length, may index every byte it reads, and returns the texture's
      bytes unpadded, whatever the padding holds. */
  lemma ReadbackRoundTrip(width: u32, height: u32, texels: seq<u8>, dst: seq<u8>)
    requires height > 0 && StrideFits(width) && AlignWidth(width) * height <= MAX
    requires |texels| == DATA_PER_PIXEL * width * height
    requires |dst| == ReadbackBufferSize(width, height)
    ensures RowBytes(width) <= AlignWidth(width) && |texels| == height * RowBytes(width)
    ensures var buffer := CopyRows(dst, texels, RowBytes(width), AlignWidth(width), height);
      RowStride(|buffer|, height) == AlignWidth(width)
      && RowsInBounds(|buffer|, RowStride(|buffer|, height), RowBytes(width), height)
      && Destride(buffer, RowStride(|buffer|, height), RowBytes(width), height) == texels
  {
    var rowBytes, stride := RowBytes(width), AlignWidth(width);
    assert rowBytes <= stride && |texels| == height * rowBytes && |dst| == height * stride by {
      ReadbackGeometry(width, height);
      MulComm(DATA_PER_PIXEL * width, height);
    }
    TrimUndoesCopy(dst, texels, rowBytes, stride, height);
    assert RowStride(|dst|, height) == stride by {
      ReadbackGeometry(width, height);
    }
  }

  /** A 3 x 1 image: a row of 12 bytes is padded to a 256-byte stride. */
  lemma NarrowImageStride()
    ensures AlignWidth(3) == 256 && ReadbackBufferSize(3, 1) == 256
  {
    AlignWidthIsPaddedRow(3);
  }

  /** A 3 x 1 image read back through its 256-byte buffer: trimming keeps
      the 12 texture bytes and drops the 244 padding bytes. */
  lemma NarrowImageTrim(texels: seq<u8>, dst: seq<u8>)
    requires |texels| == 12 && |dst| == 256
    ensures RowStride(|dst|, 1) == 256 && RowsInBounds(|dst|, 256, 12, 1)
    ensures Destride(CopyRows(dst, texels, 12, 256, 1), 256, 12, 1) == texels
  {
    TrimUndoesCopy(dst, texels, 12, 256, 1);
  }

  /** A 1024-pixel-wide image: 4096 bytes per row is already a multiple of
      256, so the stride is the row and there is no padding to strip. */
  lemma WideImageHasNoPadding()
    ensures AlignWidth(1024) == RowBytes(1024) == 4096
  {
    AlignWidthIsPaddedRow(1024);
  }
}
