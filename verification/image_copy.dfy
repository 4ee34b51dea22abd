/** The size of an image upload, computed in 32 bits, and the copy of its rows. */
module ImageCopy {
  import opened Bytes
  import opened GLTypes

  const TWO_32: nat := 0x1_0000_0000

  // GLenum values of further pixel types, and of formats.
  const GL_HALF_FLOAT_OES: nat := 0x8D61
  const GL_UNSIGNED_SHORT_4_4_4_4: nat := 0x8033
  const GL_UNSIGNED_SHORT_5_5_5_1: nat := 0x8034
  const GL_UNSIGNED_SHORT_5_6_5: nat := 0x8363
  const GL_UNSIGNED_INT_24_8_OES: nat := 0x84FA
  const GL_DEPTH_COMPONENT: nat := 0x1902
  const GL_ALPHA: nat := 0x1906
  const GL_RGB: nat := 0x1907
  const GL_RGBA: nat := 0x1908
  const GL_LUMINANCE: nat := 0x1909
  const GL_LUMINANCE_ALPHA: nat := 0x190A
  const GL_BGRA_EXT: nat := 0x80E1
  const GL_DEPTH_COMPONENT16: nat := 0x81A5
  const GL_DEPTH_COMPONENT24_OES: nat := 0x81A6
  const GL_DEPTH_COMPONENT32_OES: nat := 0x81A7
  const GL_DEPTH_STENCIL_OES: nat := 0x84F9
  const GL_DEPTH24_STENCIL8_OES: nat := 0x88F0

  /** Conversion to uint32_t. */
  function U32(x: int): nat {
    x % TWO_32
  }

  function ElementsPerGroup(format: nat, dataType: nat): nat {
    if dataType in {GL_UNSIGNED_SHORT_5_6_5, GL_UNSIGNED_SHORT_4_4_4_4, GL_UNSIGNED_SHORT_5_5_5_1,
                    GL_UNSIGNED_INT_24_8_OES} then 1
    else if format == GL_RGB then 3
    else if format == GL_LUMINANCE_ALPHA then 2
    else if format == GL_RGBA || format == GL_BGRA_EXT then 4
    else if format in {GL_ALPHA, GL_LUMINANCE, GL_DEPTH_COMPONENT, GL_DEPTH_COMPONENT24_OES, GL_DEPTH_COMPONENT32_OES,
                       GL_DEPTH_COMPONENT16, GL_DEPTH24_STENCIL8_OES, GL_DEPTH_STENCIL_OES} then 1
    else 0
  }

  function BytesPerElement(dataType: nat): nat {
    if dataType in {GL_FLOAT, GL_UNSIGNED_INT_24_8_OES, GL_UNSIGNED_INT} then 4
    else if dataType in {GL_HALF_FLOAT_OES, GL_UNSIGNED_SHORT, GL_SHORT, GL_UNSIGNED_SHORT_5_6_5,
                         GL_UNSIGNED_SHORT_4_4_4_4, GL_UNSIGNED_SHORT_5_5_5_1} then 2
    else if dataType in {GL_UNSIGNED_BYTE, GL_BYTE} then 1
    else 0
  }

  function GroupSize(format: nat, dataType: nat): (bytes: nat)
    ensures bytes <= 16
  {
    Times(BytesPerElement(dataType), ElementsPerGroup(format, dataType))
  }

  // ----- Products -----

  function Times(a: nat, b: nat): (p: nat) {
    MultipleAtLeastZero(a, b);
    a * b
  }

  lemma MultipleAtLeastZero(a: nat, b: nat)
    ensures a * b >= 0
  {
  }

  lemma TimesNext(a: nat, b: nat)
    ensures Times(a + 1, b) == Times(a, b) + b
  {
  }

  lemma {:induction false} TimesMonotone(a: nat, a': nat, b: nat)
    requires a <= a'
    ensures Times(a, b) <= Times(a', b)
    ensures a < a' ==> Times(a, b) + b <= Times(a', b)
    decreases a'
  {
    hide Times;
    if a < a' {
      TimesNext(a' - 1, b);
      TimesMonotone(a, a' - 1, b);
    }
  }

  /** The quotient and the remainder make up the number. */
  lemma Quotient(v: nat, b: nat)
    requires b > 0
    ensures Times(v / b, b) <= v < Times(v / b, b) + b
  {
  }

  /** Dividing tells whether a number is below a product. */
  lemma ProductBelow(a: nat, b: nat, v: nat)
    requires b > 0
    ensures v < Times(a, b) <==> v / b < a
  {
    hide Times;
    Quotient(v, b);
    if v / b < a {
      TimesMonotone(v / b, a, b);
    } else {
      TimesMonotone(a, v / b, b);
    }
  }

  lemma QuotientExact(a: nat, b: nat)
    requires b > 0
    ensures Times(a, b) / b == a
  {
    hide Times;
    ProductBelow(a, b, Times(a, b));
    ProductBelow(a + 1, b, Times(a, b));
    TimesNext(a, b);
  }

  // ----- Overflow checks -----

  /** Whatever wraps around is noticed by dividing. */
  method SafeMultiply(a: nat, b: nat) returns (ok: bool, dst: nat)
    requires a < TWO_32 && b < TWO_32
    ensures ok <==> Times(a, b) < TWO_32
    ensures dst == if ok then Times(a, b) else 0
  {
    if b == 0 {
      return true, 0;
    }
    var v := U32(a * b);
    assert v == U32(Times(a, b)) && (v == Times(a, b) || v < TWO_32 <= Times(a, b));
    QuotientExact(a, b);
    ProductBelow(a, b, v);
    if v / b != a {
      return false, 0;
    }
    return true, v;
  }

  method SafeAdd(a: nat, b: nat) returns (ok: bool, dst: nat)
    requires a < TWO_32 && b < TWO_32
    ensures ok <==> a + b < TWO_32
    ensures dst == if ok then a + b else 0
  {
    if U32(a + b) < a {
      return false, 0;
    }
    return true, U32(a + b);
  }

  // ----- Sizes -----

  /** The bytes of one row, before padding, from the row length if there is one. */
  function RowSize(width: int, format: nat, dataType: nat, rowLength: int): nat {
    Times(U32(if rowLength > 0 then rowLength else width), GroupSize(format, dataType))
  }

  /** The multiple of the alignment at or below a number. */
  function RoundedDown(v: nat, alignment: nat): (m: nat)
    requires alignment > 0
    ensures v - alignment < m <= v
  {
    Quotient(v, alignment);
    Times(v / alignment, alignment)
  }

  function PaddedSize(row: nat, alignment: nat): nat
    requires alignment > 0
  {
    RoundedDown(row + alignment - 1, alignment)
  }

  /** The padded size is the least multiple of the alignment that holds the row. */
  lemma PaddedIsLeast(row: nat, alignment: nat, m: nat)
    requires alignment > 0
    ensures row <= PaddedSize(row, alignment) < row + alignment
    ensures Times(m, alignment) >= row ==> Times(m, alignment) >= PaddedSize(row, alignment)
  {
    hide Times;
    var q := (row + alignment - 1) / alignment;
    Quotient(row + alignment - 1, alignment);
    if m < q {
      TimesMonotone(m, q, alignment);
    } else {
      TimesMonotone(q, m, alignment);
    }
  }

  datatype Sizes = Sizes(size: nat, unpadded: nat, padded: nat)

  /** The exact sizes of an image whose rows `skipRows..height` are uploaded. */
  function ExactSizes(row: nat, height: nat, alignment: nat, skipRows: nat): Sizes
    requires alignment > 0 && skipRows < height
  {
    var padded := if height > 1 then PaddedSize(row, alignment) else row;
    Sizes(Times(height - skipRows - 1, padded) + row, row, padded)
  }

  /**
   compute_image_data_sizes. For rows within the image it fails exactly if the size does not fit in
   32 bits, or a row with its alignment does not; and if it succeeds, the sizes are the exact ones.
   */
  method ComputeImageDataSizes(width: int, height: int, format: nat, dataType: nat, alignment: int, rowLength: int,
                               skipRows: int)
    returns (ok: bool, sizes: Sizes)
    requires 0 < alignment < TWO_32 && rowLength < TWO_32
    ensures 0 <= skipRows < height < TWO_32 ==>
      var row := RowSize(width, format, dataType, rowLength);
      var exact := ExactSizes(row, height, alignment, skipRows);
      && (ok <==> exact.size < TWO_32 && (height > 1 ==> row + alignment - 1 < TWO_32))
      && (ok ==> sizes == exact)
    ensures ok ==> sizes.size < TWO_32 && sizes.unpadded == RowSize(width, format, dataType, rowLength)
  {
    hide GroupSize, Times, RoundedDown;
    sizes := Sizes(0, 0, 0);
    var bytesPerGroup := GroupSize(format, dataType);
    var row, size, padded;
    if rowLength > 0 {
      ok, row := SafeMultiply(rowLength, bytesPerGroup);
    } else {
      ok, row := SafeMultiply(U32(width), bytesPerGroup);
    }
    if !ok {
      return;
    }
    if height > 1 {
      var temp, allButLast;
      ok, temp := SafeAdd(row, alignment - 1);
      if !ok {
        return;
      }
      padded := RoundedDown(temp, alignment);
      ok, allButLast := SafeMultiply(U32(height - skipRows - 1), padded);
      if !ok {
        return;
      }
      ok, size := SafeAdd(allButLast, row);
    } else {
      padded := row;
      ok, size := SafeMultiply(U32(height - skipRows), row);
      TimesNext(0, row);
    }
    sizes := Sizes(size, row, padded);
  }

  // ----- The copy -----

  /** `n` rows of `width` bytes each, taken from `start` on at distances of `stride`. */
  function Rows(source: seq<Byte>, start: nat, stride: nat, width: nat, n: nat): (bytes: seq<Byte>)
    requires n > 0 ==> start + Times(n - 1, stride) + width <= |source|
    ensures |bytes| == Times(n, width)
  {
    if n == 0 then []
    else
      TimesNext(n - 1, width);
      TimesMonotone(if n > 1 then n - 2 else 0, n - 1, stride);
      Rows(source, start, stride, width, n - 1)
      + source[start + Times(n - 1, stride)..start + Times(n - 1, stride) + width]
  }

  /** The copy of `n` rows of `width` bytes and one of `row` bytes fits into the source. */
  predicate InSource(length: nat, start: nat, stride: nat, width: nat, n: nat, row: nat) {
    && (n > 0 ==> start + Times(n - 1, stride) + width <= length)
    && start + Times(n, stride) + row <= length
  }

  /** `n` rows of `width` bytes, and one more of `row` bytes behind them. */
  function Image(source: seq<Byte>, start: nat, stride: nat, width: nat, n: nat, row: nat): (bytes: seq<Byte>)
    requires InSource(|source|, start, stride, width, n, row)
    ensures |bytes| == Times(n, width) + row
  {
    Rows(source, start, stride, width, n) + source[start + Times(n, stride)..start + Times(n, stride) + row]
  }

  lemma NoRows(source: seq<Byte>, start: nat, stride: nat, width: nat)
    ensures Rows(source, start, stride, width, 0) == []
  {
  }

  /** Byte `x` of row `k` of the copy. */
  lemma {:induction false} RowsAt(source: seq<Byte>, start: nat, stride: nat, width: nat, n: nat, k: nat, x: nat)
    requires n > 0 ==> start + Times(n - 1, stride) + width <= |source|
    requires k < n && x < width
    ensures Times(k, width) + x < Times(n, width) && start + Times(k, stride) + x < |source|
    ensures Rows(source, start, stride, width, n)[Times(k, width) + x] == source[start + Times(k, stride) + x]
  {
    hide Times;
    TimesMonotone(k, n, width);
    TimesMonotone(k, n - 1, stride);
    TimesNext(n - 1, width);
    if k < n - 1 {
      TimesMonotone(n - 2, n - 1, stride);
      TimesMonotone(k, n - 1, width);
      RowsAt(source, start, stride, width, n - 1, k, x);
    }
  }

  lemma NextRow(source: seq<Byte>, start: nat, stride: nat, width: nat, n: nat)
    requires start + Times(n, stride) + width <= |source|
    ensures n > 0 ==> start + Times(n - 1, stride) + width <= |source|
    ensures Rows(source, start, stride, width, n + 1)
         == Rows(source, start, stride, width, n) + source[start + Times(n, stride)..start + Times(n, stride) + width]
  {
    hide Times;
    if n > 0 {
      TimesMonotone(n - 1, n, stride);
    }
  }

  /** Rows that lie side by side in the source are one contiguous piece of it. */
  lemma {:induction false} RowsContiguous(source: seq<Byte>, start: nat, width: nat, n: nat)
    requires start + Times(n, width) <= |source|
    ensures n > 0 ==> start + Times(n - 1, width) + width <= |source|
    ensures Rows(source, start, width, width, n) == source[start..start + Times(n, width)]
  {
    hide Times, Rows;
    if n > 0 {
      TimesNext(n - 1, width);
      RowsContiguous(source, start, width, n - 1);
      NextRow(source, start, width, width, n - 1);
    } else {
      TimesZero(width);
      NoRows(source, start, width, width);
    }
  }

  lemma TimesZero(b: nat)
    ensures Times(0, b) == 0
  {
  }

  /** memcpy. */
  method CopyBytes(source: seq<Byte>, from: nat, dest: array<Byte>, to: nat, n: nat)
    requires from + n <= |source| && to + n <= dest.Length
    modifies dest
    ensures dest[..to] == old(dest[..to]) && dest[to..to + n] == source[from..from + n]
    ensures dest[to + n..] == old(dest[to + n..])
  {
    forall i | 0 <= i < n {
      dest[to + i] := source[from + i];
    }
  }

  /** One more piece is copied to just behind what is copied already. */
  method CopyNext(source: seq<Byte>, from: nat, dest: array<Byte>, to: nat, n: nat,
                  ghost copied: seq<Byte>, ghost before: seq<Byte>)
    requires from + n <= |source| && to + n <= dest.Length == |before|
    requires |copied| == to && dest[..to] == copied && dest[to..] == before[to..]
    modifies dest
    ensures dest[..to + n] == copied + source[from..from + n] && dest[to + n..] == before[to + n..]
  {
    assert dest[to + n..] == dest[to..][n..] && before[to + n..] == before[to..][n..];
    CopyBytes(source, from, dest, to, n);
    assert dest[..to + n] == dest[..to] + dest[to..to + n];
  }

  /** How many rows precede the last one, and how far apart they are read. */
  function RowsBefore(height: nat, skipRows: nat, padded: nat, destPadded: nat): nat {
    if padded != destPadded then (if height > 1 then height - 1 else 0) else U32(height - skipRows - 1)
  }

  function ReadStride(padded: nat, destPadded: nat, skipped: nat): nat {
    if padded != destPadded then padded else U32(padded + skipped)
  }

  /**
   copy_rect_to_buffer. Exactly the bytes of the image are written; row `k` of it is read at
   `start + k * stride`, and with equal strides that includes the skipped pixels, once a row.
   */
  method CopyRectToBuffer(source: seq<Byte>, dest: array<Byte>, format: nat, dataType: nat, height: nat,
                          skipPixels: nat, skipRows: nat, row: nat, padded: nat, destPadded: nat)
    requires height < TWO_32 && skipRows < TWO_32
    requires var skipped := U32(Times(skipPixels, GroupSize(format, dataType)));
      var n := RowsBefore(height, skipRows, padded, destPadded);
      && InSource(|source|, U32(Times(skipRows, padded)) + skipped, ReadStride(padded, destPadded, skipped), destPadded,
                  n, row)
      && Times(n, destPadded) + row <= dest.Length
    modifies dest
    ensures var skipped := U32(Times(skipPixels, GroupSize(format, dataType)));
      var image := Image(source, U32(Times(skipRows, padded)) + skipped, ReadStride(padded, destPadded, skipped),
                         destPadded, RowsBefore(height, skipRows, padded, destPadded), row);
      dest[..] == image + old(dest[|image|..])
  {
    hide Times, GroupSize, InSource;
    var skipped := U32(Times(skipPixels, GroupSize(format, dataType)));
    var start := U32(Times(skipRows, padded)) + skipped;
    if padded != destPadded {
      CopyRows(source, dest, start, padded, destPadded, if height > 1 then height - 1 else 0, row);
    } else {
      CopyRows(source, dest, start, U32(padded + skipped), padded, U32(height - skipRows - 1), row);
    }
  }

  method CopyRows(source: seq<Byte>, dest: array<Byte>, start: nat, stride: nat, width: nat, n: nat, row: nat)
    requires InSource(|source|, start, stride, width, n, row) && Times(n, width) + row <= dest.Length
    modifies dest
    ensures var image := Image(source, start, stride, width, n, row);
      dest[..] == image + old(dest[|image|..])
  {
    ghost var before := dest[..];
    var from, to := CopyPadded(source, dest, start, stride, width, n, row, before);
    CopyNext(source, from, dest, to, row, dest[..to], before);
    assert dest[..] == dest[..to + row] + dest[to + row..];
  }

  /** All rows but the last. */
  method CopyPadded(source: seq<Byte>, dest: array<Byte>, start: nat, stride: nat, width: nat, n: nat, ghost row: nat,
                    ghost before: seq<Byte>)
    returns (from: nat, to: nat)
    requires InSource(|source|, start, stride, width, n, row) && Times(n, width) <= dest.Length
    requires before == dest[..]
    modifies dest
    ensures from == start + Times(n, stride) && to == Times(n, width)
    ensures dest[..to] == Rows(source, start, stride, width, n) && dest[to..] == before[to..]
  {
    hide Times, Rows, InSource;
    from, to := start, 0;
    TimesZero(stride);
    TimesZero(width);
    NoRows(source, start, stride, width);
    var i := 0;
    while i < n
      invariant i <= n && from == start + Times(i, stride) && to == Times(i, width) <= Times(n, width)
      invariant i > 0 ==> start + Times(i - 1, stride) + width <= |source|
      invariant dest[..to] == Rows(source, start, stride, width, i) && dest[to..] == before[to..]
    {
      NextRowFits(|source|, start, stride, width, n, row, i);
      NextRow(source, start, stride, width, i);
      CopyNext(source, from, dest, to, width, dest[..to], before);
      i, from, to := i + 1, from + stride, to + width;
    }
  }

  lemma NextRowFits(length: nat, start: nat, stride: nat, width: nat, n: nat, row: nat, i: nat)
    requires InSource(length, start, stride, width, n, row) && i < n
    ensures Times(i + 1, stride) == Times(i, stride) + stride && Times(i + 1, width) == Times(i, width) + width
    ensures start + Times(i, stride) + width <= length && Times(i + 1, width) <= Times(n, width)
  {
    hide Times;
    TimesNext(i, stride);
    TimesNext(i, width);
    TimesMonotone(i, n - 1, stride);
    TimesMonotone(i + 1, n, width);
  }

  // ----- The size and the copy together -----

  /** The bytes that CopyRectToBuffer writes, with one padded size for source and destination. */
  function CopyOf(source: seq<Byte>, sizes: Sizes, height: nat, skipped: nat, skipRows: nat): (bytes: seq<Byte>)
    requires CopyInSource(|source|, sizes, height, skipped, skipRows)
  {
    Image(source, U32(Times(skipRows, sizes.padded)) + skipped, ReadStride(sizes.padded, sizes.padded, skipped),
          sizes.padded, RowsBefore(height, skipRows, sizes.padded, sizes.padded), sizes.unpadded)
  }

  /** The application's memory reaches as far as the copy reads. */
  predicate CopyInSource(length: nat, sizes: Sizes, height: nat, skipped: nat, skipRows: nat) {
    InSource(length, U32(Times(skipRows, sizes.padded)) + skipped, ReadStride(sizes.padded, sizes.padded, skipped),
             sizes.padded, RowsBefore(height, skipRows, sizes.padded, sizes.padded), sizes.unpadded)
  }

  /**
   The copy writes exactly the bytes for which room was computed, for rows within the image, however
   many pixels are skipped. If none are, what it writes is one contiguous piece of the source.
   */
  lemma CopyFillsSize(source: seq<Byte>, row: nat, height: nat, alignment: nat, skipped: nat, skipRows: nat)
    requires alignment > 0 && skipRows < height < TWO_32
    requires ExactSizes(row, height, alignment, skipRows).padded < TWO_32
    requires CopyInSource(|source|, ExactSizes(row, height, alignment, skipRows), height, skipped, skipRows)
    ensures var sizes := ExactSizes(row, height, alignment, skipRows);
      var start := U32(Times(skipRows, sizes.padded));
      && |CopyOf(source, sizes, height, skipped, skipRows)| == sizes.size
      && (skipped == 0 ==>
            start + sizes.size <= |source|
            && CopyOf(source, sizes, height, skipped, skipRows) == source[start..start + sizes.size])
  {
    hide Times, PaddedSize;
    var sizes := ExactSizes(row, height, alignment, skipRows);
    var start, n := U32(Times(skipRows, sizes.padded)), height - skipRows - 1;
    assert RowsBefore(height, skipRows, sizes.padded, sizes.padded) == n;
    if skipped == 0 {
      RowsContiguous(source, start, sizes.padded, n);
      assert source[start..start + sizes.size]
          == source[start..start + Times(n, sizes.padded)] + source[start + Times(n, sizes.padded)..start + sizes.size];
    }
  }

  /** The sizes in pixels: the row length counts if there is one, the width otherwise. */
  lemma UploadSizes(width: int, height: int, format: nat, dataType: nat, alignment: int, rowLength: int, skipRows: int)
    requires 0 < alignment < TWO_32 && rowLength < TWO_32 && 0 <= skipRows < height < TWO_32
    ensures var exact := ExactSizes(RowSize(width, format, dataType, rowLength), height, alignment, skipRows);
      var row := (if rowLength > 0 then rowLength else width % 0x1_0000_0000) * GroupSize(format, dataType);
      && exact.unpadded == row && exact.size == (height - skipRows - 1) * exact.padded + row
      && if height > 1 then exact.padded % alignment == 0 && row <= exact.padded < row + alignment
         else exact.padded == row
  {
    var row := RowSize(width, format, dataType, rowLength);
    PaddedIsLeast(row, alignment, 0);
    MultipleRemains((row + alignment - 1) / alignment, alignment);
    hide GroupSize;
  }

  lemma MultipleRemains(q: nat, b: nat)
    requires b > 0
    ensures Times(q, b) % b == 0
  {
    UniqueRemainder(b, Times(q, b), q, 0);
  }

  /**
   The upload of an image: sizes first, then a buffer of that size, then the copy. The buffer is
   written from its first byte to its last, and no further. Sizes that overflow are refused before a
   single pixel is read, however little memory the application has.
   */
  method UploadImage(pixels: seq<Byte>, width: int, height: int, format: nat, dataType: nat, alignment: int,
                     rowLength: int, skipPixels: nat, skipRows: int)
    returns (ok: bool, buffer: array<Byte>, ghost padded: nat)
    requires 0 < alignment < TWO_32 && rowLength < TWO_32 && 0 <= skipRows < height < TWO_32
    requires var row := RowSize(width, format, dataType, rowLength);
      var exact := ExactSizes(row, height, alignment, skipRows);
      exact.size < TWO_32 && (height > 1 ==> row + alignment - 1 < TWO_32) ==>
        CopyInSource(|pixels|, exact, height, U32(Times(skipPixels, GroupSize(format, dataType))), skipRows)
    ensures var row := RowSize(width, format, dataType, rowLength);
      var exact := ExactSizes(row, height, alignment, skipRows);
      && (ok <==> exact.size < TWO_32 && (height > 1 ==> row + alignment - 1 < TWO_32))
      && fresh(buffer) && buffer.Length == (if ok then exact.size else 0)
      && (ok ==> buffer[..]
                 == CopyOf(pixels, exact, height, U32(Times(skipPixels, GroupSize(format, dataType))), skipRows))
    ensures var row := (if rowLength > 0 then rowLength else width % 0x1_0000_0000) * GroupSize(format, dataType);
      ok ==>
        && buffer.Length == (height - skipRows - 1) * padded + row
        && (if height > 1 then padded % alignment == 0 && row <= padded < row + alignment else padded == row)
  {
    UploadSizes(width, height, format, dataType, alignment, rowLength, skipRows);
    hide Times, GroupSize, PaddedSize, InSource, Image;
    padded := ExactSizes(RowSize(width, format, dataType, rowLength), height, alignment, skipRows).padded;
    var sizes;
    ok, sizes := ComputeImageDataSizes(width, height, format, dataType, alignment, rowLength, skipRows);
    if !ok {
      buffer := new Byte[0];
      return;
    }
    PaddedIsLeast(sizes.unpadded, alignment, 0);
    CopyFillsSize(pixels, sizes.unpadded, height, alignment,
                  U32(Times(skipPixels, GroupSize(format, dataType))), skipRows);
    buffer := new Byte[sizes.size](_ => 0);
    CopyRectToBuffer(pixels, buffer, format, dataType, height, skipPixels, skipRows, sizes.unpadded, sizes.padded,
                     sizes.padded);
  }

  /**
   What is written, by rows and without the functions above. With unequal padded sizes all `height` rows
   are copied, at distances of the source's padded row; with equal ones the rows behind the skipped ones,
   at distances of a padded row and the skipped pixels. Row `k` goes to `k` destination rows.
   */
  lemma CopiedRows(source: seq<Byte>, start: nat, skipped: nat, height: nat, skipRows: nat, row: nat, padded: nat,
                   destPadded: nat, k: nat, x: nat)
    requires 0 < height < TWO_32 && skipRows < height && padded < TWO_32 && skipped < TWO_32
    requires InSource(|source|, start, ReadStride(padded, destPadded, skipped), destPadded,
                      RowsBefore(height, skipRows, padded, destPadded), row)
    requires var rows := if padded != destPadded then height else height - skipRows;
      k < rows && x < if k == rows - 1 then row else destPadded
    ensures var image := Image(source, start, ReadStride(padded, destPadded, skipped), destPadded,
                               RowsBefore(height, skipRows, padded, destPadded), row);
      var rows := if padded != destPadded then height else height - skipRows;
      var stride := if padded != destPadded then padded else (padded + skipped) % 0x1_0000_0000;
      && |image| == Times(rows - 1, destPadded) + row
      && Times(k, destPadded) + x < |image| && start + Times(k, stride) + x < |source|
      && image[Times(k, destPadded) + x] == source[start + Times(k, stride) + x]
  {
    hide Times, Rows;
    var n, stride := RowsBefore(height, skipRows, padded, destPadded), ReadStride(padded, destPadded, skipped);
    if k < n {
      RowsAt(source, start, stride, destPadded, n, k, x);
    }
  }

  // ----- Pixels -----

  predicate Packed(dataType: nat) {
    dataType == 0x8033 || dataType == 0x8034 || dataType == 0x8363 || dataType == 0x84FA
  }

  /** Bytes of an element: float, unsigned int and 24_8 have four, half float, shorts and packed shorts two. */
  lemma ElementSizes(dataType: nat)
    ensures BytesPerElement(dataType) ==
      if dataType in {0x1405, 0x1406, 0x84FA} then 4
      else if dataType in {0x1402, 0x1403, 0x8033, 0x8034, 0x8363, 0x8D61} then 2
      else if dataType in {0x1400, 0x1401} then 1 else 0
  {
  }

  /**
   Laws of pixels. Luminance (0x1909), alpha (0x1906) and every depth format are one element; RGB (0x1907)
   is three of them, RGBA (0x1908) is RGB and alpha, luminance and alpha (0x190A) are just that, BGRA
   (0x80E1) is as large as RGBA. A packed type has the whole pixel in one element, whatever the format.
   */
  lemma PixelLaws(format: nat, dataType: nat)
    ensures Packed(dataType) ==> GroupSize(format, dataType) == BytesPerElement(dataType)
    ensures !Packed(dataType) ==>
      && GroupSize(0x1909, dataType) == GroupSize(0x1906, dataType) == BytesPerElement(dataType)
      && GroupSize(0x1907, dataType) == 3 * GroupSize(0x1909, dataType)
      && GroupSize(0x1908, dataType) == GroupSize(0x1907, dataType) + GroupSize(0x1906, dataType)
      && GroupSize(0x190A, dataType) == GroupSize(0x1909, dataType) + GroupSize(0x1906, dataType)
      && GroupSize(0x80E1, dataType) == GroupSize(0x1908, dataType)
      && (format in {0x1902, 0x81A5, 0x81A6, 0x81A7, 0x84F9, 0x88F0} ==>
            GroupSize(format, dataType) == BytesPerElement(dataType))
      && (GroupSize(format, dataType) != 0 ==>
            format in {0x1902, 0x1906, 0x1907, 0x1908, 0x1909, 0x190A, 0x80E1, 0x81A5, 0x81A6, 0x81A7, 0x84F9, 0x88F0})
  {
  }

  /** A source in which a single byte stands out. */
  function Marked(length: nat, at: nat): (source: seq<Byte>)
    ensures |source| == length
    ensures forall i {:trigger source[i]} :: 0 <= i < length ==> source[i] == if i == at then 1 else 0
  {
    seq(length, i => if i == at then 1 else 0)
  }

  /**
   With skipped pixels the rows are read at distances of a padded row and the skipped pixels, in 32 bits,
   not of a padded row. What is copied is what the unpack parameters ask for, whatever the pixels, exactly when
   no pixels are skipped or there is one row only.
   */
  lemma CopyIsWanted(length: nat, start: nat, padded: nat, skipped: nat, n: nat, row: nat)
    requires 0 < row <= padded < TWO_32 && skipped < TWO_32
    requires InSource(length, start, padded, padded, n, row)
    requires InSource(length, start, ReadStride(padded, padded, skipped), padded, n, row)
    ensures (forall source: seq<Byte> | |source| == length ::
               Image(source, start, ReadStride(padded, padded, skipped), padded, n, row)
               == Image(source, start, padded, padded, n, row))
            <==> skipped == 0 || n == 0
  {
    hide Times, Rows;
    var stride := ReadStride(padded, padded, skipped);
    assert stride == padded <==> skipped == 0;
    if n == 0 {
      forall source: seq<Byte> | |source| == length
        ensures Image(source, start, stride, padded, 0, row) == Image(source, start, padded, padded, 0, row)
      {
        TimesZero(padded);
        TimesZero(stride);
        NoRows(source, start, padded, padded);
        NoRows(source, start, stride, padded);
      }
    } else if skipped > 0 {
      var source := Marked(length, start + stride);
      SecondRow(source, start, stride, padded, n, row);
      SecondRow(source, start, padded, padded, n, row);
    }
  }

  /** Where the first byte of the second row is read. */
  lemma SecondRow(source: seq<Byte>, start: nat, stride: nat, width: nat, n: nat, row: nat)
    requires n > 0 && 0 < row <= width && InSource(|source|, start, stride, width, n, row)
    ensures width < Times(n, width) + row && start + stride < |source|
    ensures Image(source, start, stride, width, n, row)[width] == source[start + stride]
  {
    hide Times, Rows;
    TimesZero(width);
    TimesZero(stride);
    TimesNext(0, width);
    TimesNext(0, stride);
    TimesMonotone(1, n, width);
    TimesMonotone(1, n, stride);
    if n > 1 {
      TimesMonotone(1, n - 1, stride);
      TimesMonotone(1, n, width);
      RowsAt(source, start, stride, width, n, 1, 0);
    }
  }
}
