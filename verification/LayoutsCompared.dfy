/** When the layout of a buffer without compression is the layout that an AFBC mode would give it
    (hal/gralloc/mali_gralloc_bufferallocation.cpp), format by format. */
module LayoutsCompared {
  import opened Arith
  import opened Options
  import opened FormatWord
  import opened BufferAllocation

  // ---------------------------------------------------------------- the condition

  /** The 128-byte units of a 4:2:0 row, for a stride of that alignment. */
  function Units(w: nat): nat {
    Align(w, 128) / 128
  }

  /** An odd number of units rounds the chroma rows up, and what that adds is what the AFBC layout adds
      in rows and headers. */
  predicate ChromaMakesGood(k: nat, rows: nat, ha: nat, t: AllocType) {
    k % 2 == 1 && 64 * rows == 192 * (k * (ha - rows)) + Align(8 * Mul(k, ha), HeaderAlign(t))
  }

  predicate Yuv420Coincides(w: nat, h: nat, strideAlign: nat, t: AllocType)
    requires strideAlign > 0
  {
    && Width(w, t) == Align(w, strideAlign)
    && (w == 0 || h == 0 || (strideAlign == 128 && ChromaMakesGood(Units(w), Align(h, 2), Height(h, t), t)))
  }

  /** The bytes of one row. */
  function RgbStride(w: nat, pixelSize: nat): nat {
    Align(Mul(w, pixelSize), 64)
  }

  predicate RgbCoincides(w: nat, h: nat, pixelSize: nat, t: AllocType) {
    w == 0 || (h == 0 && RgbStride(Width(w, t), pixelSize) == RgbStride(w, pixelSize))
  }

  predicate Y0l2Coincides(w: nat, h: nat, t: AllocType) {
    w % 4 == 0 && (w == 0 || (h == 0 && Width(w, t) == Align(w, 128) == Align(Mul(w, 4), 128)))
  }

  predicate Y210Coincides(w: nat, h: nat, t: AllocType) {
    w % 4 == 0 && (w == 0 || (h == 0 && Width(w, t) == Align(w, 128) && 2 * Width(w, t) == Align(Mul(w, 4), 128)))
  }

  /** The formats that are allocated without compression or not at all. */
  predicate NeverCompressed(f: bv64) {
    || f == RAW16 || f == RAW12 || f == RAW10 || f == BLOB
    || f == YCbCr_422_I || f == P010 || f == P210 || f == Y410
  }

  /** The layout with type t is the layout without compression, or there is neither.  YUV422_8BIT has a
      layout with compression alone. */
  predicate Coincides(f: bv64, w: nat, h: nat, usage: bv64, t: AllocType, videoBuild: bool) {
    if RgbPixelSize(f) > 0 then RgbCoincides(w, h, RgbPixelSize(f), t)
    else if IsYuv420(f) then YuvAfbcType(t) && !videoBuild && Yuv420Coincides(w, h, StrideAlign(usage), t)
    else if f == Y0L2 then YuvAfbcType(t) && !videoBuild && Y0l2Coincides(w, h, t)
    else if f == Y210 then YuvAfbcType(t) && Y210Coincides(w, h, t)
    else if f == YUV422_8BIT then !YuvAfbcType(t)
    else !NeverCompressed(f)
  }

  // ---------------------------------------------------------------- dimensions

  lemma NothingToAlign(base: nat)
    requires base > 0
    ensures Align(0, base) == 0
  {
    AlignOfMultiple(0, base);
  }

  lemma NoRows(t: AllocType)
    ensures Width(0, t) == 0 && Height(0, t) == 0
  {
    NothingToAlign(WidthAlign(t));
    NothingToAlign(HeightAlign(t));
  }

  lemma NoBlocks(a: nat, b: nat)
    requires a == 0 || b == 0
    ensures a * b == 0
  {
  }

  lemma NoEntries(wa: nat, ha: nat)
    requires wa == 0 || ha == 0
    ensures HeaderEntries(wa, ha) == 0
  {
    NoBlocks(wa / 16, ha);
  }

  lemma NoHeaders(wa: nat, ha: nat, t: AllocType)
    requires wa == 0 || ha == 0
    ensures HeaderArea(HeaderEntries(wa, ha), t) == 0
  {
    NoEntries(wa, ha);
    NothingToAlign(HeaderAlign(t));
  }

  lemma HasHeaders(wa: nat, ha: nat, t: AllocType)
    requires wa >= 16 && ha >= 16
    ensures HeaderArea(HeaderEntries(wa, ha), t) > 0
  {
    MulLeq(1, wa / 16, ha);
  }

  // ---------------------------------------------------------------- RGB

  /** Compression always takes more room: a header area is added, and nothing shrinks. */
  lemma CompressedRgbIsLarger(w: nat, h: nat, pixelSize: nat, t: AllocType)
    requires w > 0 && h > 0 && pixelSize > 0 && t != Uncompressed
    ensures RgbLayout(w, h, pixelSize, t).size > RgbLayout(w, h, pixelSize, Uncompressed).size
  {
    var wa, ha := Width(w, t), Height(h, t);
    var stride, strideA := Align(Mul(w, pixelSize), 64), Align(Mul(wa, pixelSize), 64);
    MulLeq(w, wa, pixelSize);
    AlignIsLeast(Mul(w, pixelSize), 64, strideA);
    MulGrows(stride, strideA, h, ha);
    HasHeaders(wa, ha, t);
  }

  lemma RgbFields(w: nat, h: nat, pixelSize: nat, t: AllocType, wa: nat, ha: nat, stride: nat, area: nat, l: Layout)
    requires pixelSize > 0 && t != Uncompressed && wa == Width(w, t) && ha == Height(h, t)
    requires l == RgbLayout(w, h, pixelSize, t) && stride == RgbStride(wa, pixelSize)
    requires area == HeaderArea(HeaderEntries(wa, ha), t)
    ensures l.pixelStride == stride / pixelSize && l.byteStride == stride
    ensures l.size == stride * ha + area && l.internalHeight == h
  {
  }

  lemma RgbPlainFields(w: nat, h: nat, pixelSize: nat, stride: nat, l: Layout)
    requires pixelSize > 0 && l == RgbLayout(w, h, pixelSize, Uncompressed) && stride == RgbStride(w, pixelSize)
    ensures l.pixelStride == stride / pixelSize && l.byteStride == stride && l.size == stride * h
    ensures l.internalHeight == h
  {
  }

  lemma NoStride(w: nat, pixelSize: nat)
    requires w == 0
    ensures RgbStride(w, pixelSize) == 0
  {
    NoBlocks(w, pixelSize);
    NothingToAlign(64);
  }

  /** Two layouts without pixels differ in their strides or not at all. */
  lemma EmptyLayouts(h: nat, ha: nat, stride: nat, strideA: nat, area: nat, plain: Layout, packed: Layout)
    requires plain.byteStride == stride && plain.size == stride * h && plain.internalHeight == h
    requires packed.byteStride == strideA && packed.size == strideA * ha + area && packed.internalHeight == h
    requires area == 0 && (h == 0 == ha || stride == 0 == strideA)
    requires stride == strideA ==> plain.pixelStride == packed.pixelStride
    ensures packed == plain <==> stride == strideA
  {
    NoBlocks(stride, h);
    NoBlocks(strideA, ha);
  }

  lemma RgbWithoutPixels(w: nat, h: nat, pixelSize: nat, t: AllocType, wa: nat, ha: nat, stride: nat, strideA: nat,
                         plain: Layout, packed: Layout)
    requires pixelSize > 0 && t != Uncompressed && wa == Width(w, t) && ha == Height(h, t)
    requires plain == RgbLayout(w, h, pixelSize, Uncompressed) && packed == RgbLayout(w, h, pixelSize, t)
    requires stride == RgbStride(w, pixelSize) && strideA == RgbStride(wa, pixelSize)
    requires HeaderArea(HeaderEntries(wa, ha), t) == 0 && (stride == 0 == strideA || h == 0 == ha)
    ensures packed == plain <==> strideA == stride
  {
    RgbFields(w, h, pixelSize, t, wa, ha, strideA, 0, packed);
    RgbPlainFields(w, h, pixelSize, stride, plain);
    EmptyLayouts(h, ha, stride, strideA, 0, plain, packed);
  }

  lemma NoPixels(w: nat, h: nat, pixelSize: nat, t: AllocType, wa: nat, ha: nat)
    requires wa == Width(w, t) && ha == Height(h, t) && (w == 0 || h == 0)
    ensures HeaderArea(HeaderEntries(wa, ha), t) == 0
    ensures if w == 0 then RgbStride(w, pixelSize) == 0 == RgbStride(wa, pixelSize) else h == 0 == ha
  {
    NoRows(t);
    NoHeaders(wa, ha, t);
    if w == 0 { NoStride(w, pixelSize); NoStride(wa, pixelSize); }
  }

  lemma RgbExactly(w: nat, h: nat, pixelSize: nat, t: AllocType, wa: nat, plain: Layout, packed: Layout)
    requires pixelSize > 0 && t != Uncompressed && wa == Width(w, t)
    requires plain == RgbLayout(w, h, pixelSize, Uncompressed) && packed == RgbLayout(w, h, pixelSize, t)
    ensures packed == plain <==> w == 0 || (h == 0 && RgbStride(wa, pixelSize) == RgbStride(w, pixelSize))
  {
    if w > 0 && h > 0 {
      CompressedRgbIsLarger(w, h, pixelSize, t);
    } else {
      NoPixels(w, h, pixelSize, t, wa, Height(h, t));
      RgbWithoutPixels(w, h, pixelSize, t, wa, Height(h, t), RgbStride(w, pixelSize), RgbStride(wa, pixelSize), plain,
                       packed);
    }
  }

  // ---------------------------------------------------------------- 10-bit 4:2:2

  lemma WholeBlocks(wa: nat, n: nat, k: nat)
    requires wa % 16 == 0 && n == wa * k
    ensures n % 16 == 0
  {
    DivMod(wa, 16);
    assert n == wa / 16 * k * 16;
    MultipleMod(wa / 16 * k, 16);
  }

  lemma Y210PackedFields(w: nat, h: nat, t: AllocType, wa: nat, ha: nat, area: nat, pixels: nat, bytes: nat,
                         packed: Layout)
    requires wa == Width(w, t) && ha == Height(h, t) && area == HeaderArea(HeaderEntries(wa, ha), t)
    requires pixels == Align(wa, 16) && bytes == Align(2 * wa, 16)
    requires AfbcYuv422TenBitLayout(w, h, t) == Some(packed)
    ensures packed == Layout(pixels, bytes, Mul(bytes, ha) * 2 + area, h)
  {
  }

  lemma Y210Fields(w: nat, h: nat, pixels: nat, bytes: nat, plain: Layout)
    requires pixels == Align(w, 128) && bytes == Align(Mul(w, 4), 128) && plain == PackedLayout(w, h, 4)
    ensures plain == Layout(pixels, bytes, Mul(bytes, h), h)
  {
  }

  lemma TwiceTheRows(stride: nat, h: nat, ha: nat, area: nat)
    requires h <= ha && (h == 0 ==> ha == 0) && (stride == 0 || h == 0 ==> area == 0)
    ensures Mul(stride, h) == Mul(stride, ha) * 2 + area <==> stride == 0 || h == 0
  {
    if stride == 0 || h == 0 {
      NoBlocks(stride, h);
      NoBlocks(stride, ha);
    } else {
      MulLeq(h, ha, stride);
      MulLess(0, h, stride);
    }
  }

  lemma EmptyRow(n: nat, base: nat, stride: nat)
    requires base > 0 && stride == Align(n, base)
    ensures stride == 0 <==> n == 0
  {
    if n == 0 { NothingToAlign(base); }
  }

  lemma EmptyWidth(w: nat, t: AllocType, wa: nat)
    requires wa == Width(w, t)
    ensures wa == 0 <==> w == 0
  {
    EmptyRow(w, WidthAlign(t), wa);
  }

  lemma EmptyHeight(h: nat, t: AllocType, ha: nat)
    requires ha == Height(h, t)
    ensures ha == 0 <==> h == 0
  {
    EmptyRow(h, HeightAlign(t), ha);
  }

  lemma CompareY210(w: nat, h: nat, wa: nat, ha: nat, area: nat, pixels: nat, bytes: nat, plain: Layout, packed: Layout)
    requires plain == Layout(pixels, bytes, Mul(bytes, h), h)
    requires packed == Layout(wa, 2 * wa, Mul(2 * wa, ha) * 2 + area, h)
    requires h <= ha && (h == 0 ==> ha == 0) && (wa == 0 || h == 0 ==> area == 0)
    requires (bytes == 0 <==> w == 0) && (pixels == 0 <==> w == 0) && (wa == 0 <==> w == 0)
    ensures packed == plain <==> w == 0 || (h == 0 && wa == pixels && 2 * wa == bytes)
  {
    if 2 * wa == bytes { TwiceTheRows(bytes, h, ha, area); }
  }

  lemma Y210Exactly(w: nat, h: nat, t: AllocType, wa: nat, ha: nat, pixels: nat, bytes: nat, plain: Layout,
                    packed: Layout)
    requires wa == Width(w, t) && ha == Height(h, t) && pixels == Align(w, 128) && bytes == Align(Mul(w, 4), 128)
    requires AfbcYuv422TenBitLayout(w, h, t) == Some(packed) && plain == PackedLayout(w, h, 4)
    ensures packed == plain <==> w == 0 || (h == 0 && wa == pixels && 2 * wa == bytes)
  {
    EmptyWidth(w, t, wa);
    EmptyHeight(h, t, ha);
    EmptyRow(w, 128, pixels);
    EmptyRow(Mul(w, 4), 128, bytes);
    AlignOfMultiple(wa, 16);
    WholeBlocks(wa, 2 * wa, 2);
    AlignOfMultiple(2 * wa, 16);
    var area := HeaderArea(HeaderEntries(wa, ha), t);
    if wa == 0 || ha == 0 { NoHeaders(wa, ha, t); }
    Y210PackedFields(w, h, t, wa, ha, area, wa, 2 * wa, packed);
    Y210Fields(w, h, pixels, bytes, plain);
    CompareY210(w, h, wa, ha, area, pixels, bytes, plain, packed);
  }

  // ---------------------------------------------------------------- 10-bit 4:2:0

  lemma Y0l2PackedFields(w: nat, h: nat, t: AllocType, wa: nat, hb: nat, area: nat, pixels: nat, row: nat,
                         packed: Layout)
    requires wa == Width(w, t) && hb == Height(h / 2, t) && area == HeaderArea(HeaderEntries(wa, h), t)
    requires pixels == Align(wa, 16) && row == Align(4 * wa, 16)
    requires AfbcYuv420TenBitLayout(w, h, t, false) == Some(packed)
    ensures packed == Layout(pixels, pixels, Mul(row, hb) + area, h)
  {
  }

  lemma Y0l2Fields(w: nat, h: nat, pixels: nat, bytes: nat, rows: nat, plain: Layout)
    requires pixels == Align(w, 128) && bytes == Align(Mul(w, 4), 128) && rows == Align(h, 2)
    requires plain == Y0l2Layout(w, h)
    ensures plain == Layout(pixels, bytes, Mul(bytes, rows) / 2, h)
  {
  }

  /** Strides that agree are of one unit. */
  lemma OneUnit(w: nat, n: nat, stride: nat)
    requires w > 0 && n == 4 * w && stride % 128 == 0 && n <= stride < w + 128
    ensures stride == 128
  {
  }

  lemma HalfOf(n: nat, m: nat)
    requires n <= 2 * m
    ensures n / 2 <= m
  {
  }

  /** Two rows or more take less room than the body for half of them. */
  lemma HalfRows(stride: nat, h: nat, rows: nat, hb: nat)
    requires stride > 0 && h >= 2 && rows <= 4 * (h / 2) && h / 2 <= hb
    ensures Mul(stride, rows) / 2 < Mul(4 * stride, hb)
  {
    var k := h / 2;
    MulLeq(rows, 2 * (2 * k), stride);
    TwiceOut(stride, 2 * k);
    TwiceOut(stride, k);
    HalfOf(stride * rows, 2 * (stride * k));
    MulLeq(k, hb, stride);
    MulLess(0, k, stride);
    Associate(4, stride, hb);
  }

  lemma RowsOf(h: nat, rows: nat)
    requires rows == Align(h, 2)
    ensures rows == h + h % 2 && (h >= 2 ==> rows <= 4 * (h / 2))
  {
  }

  lemma OneRow(wa: nat, h: nat, area: nat, t: AllocType)
    requires wa < 256 && h == 1 && area == HeaderArea(HeaderEntries(wa, h), t)
    ensures area == 0
  {
    AlignOfMultiple(0, HeaderAlign(t));
  }

  lemma CompareY0l2(w: nat, h: nat, wa: nat, hb: nat, rows: nat, area: nat, pixels: nat, bytes: nat,
                    plain: Layout, packed: Layout)
    requires plain == Layout(pixels, bytes, Mul(bytes, rows) / 2, h)
    requires packed == Layout(wa, wa, Mul(4 * wa, hb) + area, h)
    requires (bytes == 0 <==> w == 0) && (pixels == 0 <==> w == 0) && (wa == 0 <==> w == 0)
    requires (wa == 0 || h == 0 ==> area == 0)
    requires h / 2 <= hb && (h >= 2 ==> rows <= 4 * (h / 2)) && (h == 0 ==> hb == 0 == rows)
    requires h == 1 && wa == pixels == bytes && w > 0 ==> area == 0 == hb && rows == 2
    ensures packed == plain <==> w == 0 || (h == 0 && wa == pixels == bytes)
  {
    if w == 0 || h == 0 {
      NoBlocks(bytes, rows);
      NoBlocks(4 * wa, hb);
    } else if h >= 2 && wa == bytes {
      HalfRows(wa, h, rows, hb);
    }
  }

  lemma Y0l2Strides(w: nat, t: AllocType, wa: nat, pixels: nat, bytes: nat)
    requires wa == Width(w, t) && pixels == Align(w, 128) && bytes == Align(Mul(w, 4), 128)
    ensures (bytes == 0 <==> w == 0) && (pixels == 0 <==> w == 0) && (wa == 0 <==> w == 0)
  {
    EmptyWidth(w, t, wa);
    EmptyRow(w, 128, pixels);
    EmptyRow(Mul(w, 4), 128, bytes);
  }

  lemma Y0l2Rows(h: nat, t: AllocType, hb: nat, rows: nat)
    requires hb == Height(h / 2, t) && rows == Align(h, 2)
    ensures h / 2 <= hb && (h >= 2 ==> rows <= 4 * (h / 2)) && (h < 2 ==> hb == 0) && rows == h + h % 2
  {
    EmptyHeight(h / 2, t, hb);
    RowsOf(h, rows);
  }

  lemma Y0l2PackedIs(w: nat, h: nat, t: AllocType, wa: nat, hb: nat, area: nat, packed: Layout)
    requires wa == Width(w, t) && hb == Height(h / 2, t) && area == HeaderArea(HeaderEntries(wa, h), t)
    requires AfbcYuv420TenBitLayout(w, h, t, false) == Some(packed)
    ensures packed == Layout(wa, wa, Mul(4 * wa, hb) + area, h)
  {
    AlignOfMultiple(wa, 16);
    WholeBlocks(wa, 4 * wa, 4);
    AlignOfMultiple(4 * wa, 16);
    Y0l2PackedFields(w, h, t, wa, hb, area, wa, 4 * wa, packed);
  }

  /** The layouts, by the values they are made of. */
  predicate Y0l2Pair(h: nat, wa: nat, hb: nat, rows: nat, area: nat, pixels: nat, bytes: nat, plain: Layout,
                     packed: Layout) {
    plain == Layout(pixels, bytes, Mul(bytes, rows) / 2, h) && packed == Layout(wa, wa, Mul(4 * wa, hb) + area, h)
  }

  lemma Y0l2PairOf(w: nat, h: nat, t: AllocType, wa: nat, hb: nat, rows: nat, area: nat, pixels: nat, bytes: nat,
                   plain: Layout, packed: Layout)
    requires wa == Width(w, t) && pixels == Align(w, 128) && bytes == Align(Mul(w, 4), 128)
    requires hb == Height(h / 2, t) && rows == Align(h, 2) && area == HeaderArea(HeaderEntries(wa, h), t)
    requires AfbcYuv420TenBitLayout(w, h, t, false) == Some(packed) && plain == Y0l2Layout(w, h)
    ensures Y0l2Pair(h, wa, hb, rows, area, pixels, bytes, plain, packed)
  {
    Y0l2PackedIs(w, h, t, wa, hb, area, packed);
    Y0l2Fields(w, h, pixels, bytes, rows, plain);
  }

  lemma EmptyArea(wa: nat, h: nat, t: AllocType, area: nat)
    requires area == HeaderArea(HeaderEntries(wa, h), t) && (wa == 0 || h == 0)
    ensures area == 0
  {
    NoHeaders(wa, h, t);
  }

  lemma Y0l2Area(w: nat, h: nat, t: AllocType, wa: nat, pixels: nat, bytes: nat) returns (area: nat)
    requires pixels == Align(w, 128) && bytes == Align(Mul(w, 4), 128)
    ensures area == HeaderArea(HeaderEntries(wa, h), t)
    ensures (wa == 0 || h == 0 ==> area == 0) && (h == 1 && wa == pixels == bytes && w > 0 ==> area == 0)
  {
    area := HeaderArea(HeaderEntries(wa, h), t);
    if wa == 0 || h == 0 { EmptyArea(wa, h, t, area); }
    if h == 1 && wa == pixels == bytes && w > 0 {
      OneUnit(w, Mul(w, 4), wa);
      OneRow(wa, h, area, t);
    }
  }

  lemma Y0l2Values(w: nat, h: nat, t: AllocType, wa: nat, pixels: nat, bytes: nat, plain: Layout, packed: Layout)
    returns (hb: nat, rows: nat, area: nat)
    requires wa == Width(w, t) && pixels == Align(w, 128) && bytes == Align(Mul(w, 4), 128)
    requires AfbcYuv420TenBitLayout(w, h, t, false) == Some(packed) && plain == Y0l2Layout(w, h)
    ensures Y0l2Pair(h, wa, hb, rows, area, pixels, bytes, plain, packed)
    ensures (wa == 0 || h == 0 ==> area == 0) && (h == 1 && wa == pixels == bytes && w > 0 ==> area == 0)
    ensures h / 2 <= hb && (h >= 2 ==> rows <= 4 * (h / 2)) && (h < 2 ==> hb == 0) && rows == h + h % 2
  {
    hb, rows := Height(h / 2, t), Align(h, 2);
    area := Y0l2Area(w, h, t, wa, pixels, bytes);
    Y0l2PairOf(w, h, t, wa, hb, rows, area, pixels, bytes, plain, packed);
    Y0l2Rows(h, t, hb, rows);
  }

  /** What is needed of these values. */
  predicate Y0l2Ready(w: nat, h: nat, wa: nat, hb: nat, rows: nat, area: nat, pixels: nat, bytes: nat) {
    && (bytes == 0 <==> w == 0) && (pixels == 0 <==> w == 0) && (wa == 0 <==> w == 0)
    && (wa == 0 || h == 0 ==> area == 0) && (h == 1 && wa == pixels == bytes && w > 0 ==> area == 0)
    && h / 2 <= hb && (h >= 2 ==> rows <= 4 * (h / 2)) && (h < 2 ==> hb == 0) && rows == h + h % 2
  }

  lemma Y0l2IsReady(w: nat, h: nat, t: AllocType, wa: nat, pixels: nat, bytes: nat, plain: Layout, packed: Layout)
    returns (hb: nat, rows: nat, area: nat)
    requires wa == Width(w, t) && pixels == Align(w, 128) && bytes == Align(Mul(w, 4), 128)
    requires AfbcYuv420TenBitLayout(w, h, t, false) == Some(packed) && plain == Y0l2Layout(w, h)
    ensures Y0l2Pair(h, wa, hb, rows, area, pixels, bytes, plain, packed)
    ensures Y0l2Ready(w, h, wa, hb, rows, area, pixels, bytes)
  {
    hb, rows, area := Y0l2Values(w, h, t, wa, pixels, bytes, plain, packed);
    Y0l2Strides(w, t, wa, pixels, bytes);
  }

  lemma Y0l2OfValues(w: nat, h: nat, wa: nat, hb: nat, rows: nat, area: nat, pixels: nat, bytes: nat,
                     plain: Layout, packed: Layout)
    requires Y0l2Pair(h, wa, hb, rows, area, pixels, bytes, plain, packed)
    requires Y0l2Ready(w, h, wa, hb, rows, area, pixels, bytes)
    ensures packed == plain <==> w == 0 || (h == 0 && wa == pixels == bytes)
  {
    CompareY0l2(w, h, wa, hb, rows, area, pixels, bytes, plain, packed);
  }

  lemma Y0l2Exactly(w: nat, h: nat, t: AllocType, wa: nat, pixels: nat, bytes: nat, plain: Layout, packed: Layout)
    requires wa == Width(w, t) && pixels == Align(w, 128) && bytes == Align(Mul(w, 4), 128)
    requires AfbcYuv420TenBitLayout(w, h, t, false) == Some(packed) && plain == Y0l2Layout(w, h)
    ensures packed == plain <==> w == 0 || (h == 0 && wa == pixels == bytes)
  {
    var hb, rows, area := Y0l2IsReady(w, h, t, wa, pixels, bytes, plain, packed);
    Y0l2OfValues(w, h, wa, hb, rows, area, pixels, bytes, plain, packed);
  }

  // ---------------------------------------------------------------- 8-bit 4:2:0

  lemma Yuv420Fields(w: nat, h: nat, strideAlign: nat, luma: nat, chroma: nat, rows: nat, plain: Layout)
    requires strideAlign > 0 && luma == Align(w, strideAlign) && chroma == Align(luma / 2, strideAlign)
    requires rows == Align(h, 2)
    requires plain == Yuv420Layout(w, h, strideAlign)
    ensures plain == Layout(luma, luma, Mul(rows, luma + chroma), h)
  {
  }

  lemma Yuv420PackedStrides(w: nat, h: nat, t: AllocType, wa: nat, packed: Layout)
    requires wa == Width(w, t) && AfbcYuv420Layout(w, h, t, false) == Some(packed)
    ensures packed.pixelStride == wa == packed.byteStride && packed.internalHeight == h
  {
  }

  lemma Yuv420PackedSize(w: nat, h: nat, t: AllocType, wa: nat, ha: nat, packed: Layout)
    requires wa == Width(w, t) && ha == Height(h, t) && AfbcYuv420Layout(w, h, t, false) == Some(packed)
    ensures packed.size == HeaderArea(HeaderEntries(wa, ha), t) + BodyIn(NV12, wa, ha)
  {
    SplitsByFormat(NV12, w, h, t, false, packed, wa, ha, ha);
  }

  lemma Yuv420Body(wa: nat, ha: nat, chroma: nat)
    requires chroma == Align(wa / 2, 16)
    ensures BodyIn(NV12, wa, ha) == Mul(wa + chroma, ha)
  {
  }

  /** Chroma rows of both layouts, for a luma stride of k units. */
  lemma ChromaOf(k: nat, half: nat, chroma: nat)
    requires half == 64 * k && chroma == Align(half, 128)
    ensures chroma == if k % 2 == 1 then half + 64 else half
  {
    OneMoreUnit(k, half, chroma);
  }

  lemma PackedChromaOf(half: nat, chromaA: nat)
    requires half % 16 == 0 && chromaA == Align(half, 16)
    ensures chromaA == half
  {
    AlignOfMultiple(half, 16);
  }

  lemma OneMoreUnit(k: nat, n: nat, r: nat)
    requires n == 64 * k && n <= r < n + 128 && r % 128 == 0
    ensures r == if k % 2 == 1 then n + 64 else n
  {
  }

  lemma EvenBelow(h: nat, rows: nat, ha: nat, a: nat, b: nat)
    requires rows < h + 2 && h <= ha && rows == 2 * a && ha == 16 * b
    ensures rows <= ha && (ha > 0 ==> ha >= 16)
  {
    assert a < 8 * b + 1;
  }

  lemma RowsWithin(h: nat, t: AllocType, ha: nat, rows: nat)
    requires ha == Height(h, t) && rows == Align(h, 2)
    ensures rows <= ha && (h == 0 <==> rows == 0) && (h == 0 <==> ha == 0) && (h > 0 ==> ha >= 16)
  {
    EmptyHeight(h, t, ha);
    EmptyRow(h, 2, rows);
    DivMod(rows, 2);
    DivMod(ha, 16);
    EvenBelow(h, rows, ha, rows / 2, ha / 16);
  }

  /** With the same chroma rows the compressed layout is larger. */
  lemma SameChroma(rows: nat, ha: nat, row: nat, area: nat)
    requires rows <= ha && area > 0
    ensures Mul(rows, row) != Mul(row, ha) + area
  {
    MulLeq(rows, ha, row);
  }

  lemma Spread(rows: nat, k: nat)
    ensures rows * (192 * k + 64) == 192 * (k * rows) + 64 * rows
  {
  }

  lemma MoreRows(k: nat, ha: nat, rows: nat)
    requires rows <= ha
    ensures k * (ha - rows) == k * ha - k * rows
  {
  }

  lemma OddUnits(k: nat, rows: nat, ha: nat, area: nat)
    requires rows <= ha
    ensures Mul(rows, 192 * k + 64) == Mul(192 * k, ha) + area <==> 64 * rows == 192 * (k * (ha - rows)) + area
  {
    Spread(rows, k);
    Associate(192, k, ha);
    MoreRows(k, ha, rows);
  }

  lemma AreaOfUnits(k: nat, wa: nat, ha: nat, t: AllocType, entries: nat, area: nat)
    requires wa == 128 * k && ha % 16 == 0 && entries == HeaderEntries(wa, ha) && area == HeaderArea(entries, t)
    ensures area == Align(8 * Mul(k, ha), HeaderAlign(t))
  {
    EntriesAreSuperblocks(wa, ha, t);
    EighthsOf(k, wa, ha, entries);
  }

  lemma EighthsOf(k: nat, wa: nat, ha: nat, entries: nat)
    requires wa == 128 * k && entries * 256 == wa * ha
    ensures entries * 16 == 8 * Mul(k, ha)
  {
    assert 128 * k * ha == 128 * (k * ha);
  }

  lemma RowOfUnits(k: nat, luma: nat, half: nat, chroma: nat, chromaA: nat)
    requires luma == 128 * k && half == 64 * k && chromaA == half && chroma == if k % 2 == 1 then half + 64 else half
    ensures luma + chroma == 192 * k + (if k % 2 == 1 then 64 else 0) && luma + chromaA == 192 * k
  {
  }

  lemma HalfOfUnits(luma: nat)
    requires luma % 128 == 0
    ensures luma == 128 * (luma / 128) && luma / 2 == 64 * (luma / 128) && luma / 2 % 16 == 0
  {
  }

  lemma BothChromas(k: nat, luma: nat, half: nat, chroma: nat, chromaA: nat)
    requires luma == 128 * k && half == 64 * k && half % 16 == 0 && chroma == Align(half, 128)
    requires chromaA == Align(half, 16)
    ensures luma + chroma == 192 * k + (if k % 2 == 1 then 64 else 0) && luma + chromaA == 192 * k
  {
    ChromaOf(k, half, chroma);
    PackedChromaOf(half, chromaA);
    RowOfUnits(k, luma, half, chroma, chromaA);
  }

  /** 4:2:0 layouts with pixels and with strides that agree. */
  lemma CompareYuv420(w: nat, h: nat, strideAlign: nat, luma: nat, chroma: nat, chromaA: nat, rows: nat, ha: nat,
                      area: nat)
    requires strideAlign == 16 || strideAlign == 128
    requires luma > 0 && luma % strideAlign == 0 && chroma == Align(luma / 2, strideAlign)
    requires chromaA == Align(luma / 2, 16)
    requires rows <= ha && area > 0
    ensures Mul(rows, luma + chroma) == Mul(luma + chromaA, ha) + area <==>
      strideAlign == 128 && luma / 128 % 2 == 1 && 64 * rows == 192 * (luma / 128 * (ha - rows)) + area
  {
    if strideAlign == 128 {
      HalfOfUnits(luma);
      BothChromas(luma / 128, luma, luma / 2, chroma, chromaA);
    }
    if strideAlign == 128 && luma / 128 % 2 == 1 {
      OddUnits(luma / 128, rows, ha, area);
    } else {
      SameChroma(rows, ha, luma + chroma, area);
    }
  }

  lemma EmptyYuv420(luma: nat, chroma: nat, chromaA: nat, rows: nat, ha: nat, area: nat)
    requires area == 0 && ((luma == 0 == chroma && chromaA == 0) || rows == 0 == ha)
    ensures Mul(rows, luma + chroma) == Mul(luma + chromaA, ha) + area
  {
    NoBlocks(rows, luma + chroma);
    NoBlocks(luma + chromaA, ha);
  }

  lemma NoChroma(luma: nat, strideAlign: nat, chroma: nat, chromaA: nat)
    requires luma == 0 && strideAlign > 0 && chroma == Align(luma / 2, strideAlign) && chromaA == Align(luma / 2, 16)
    ensures chroma == 0 == chromaA
  {
    EmptyRow(luma / 2, strideAlign, chroma);
    EmptyRow(luma / 2, 16, chromaA);
  }

  lemma SizesOfYuv420(w: nat, h: nat, strideAlign: nat, luma: nat, chroma: nat, chromaA: nat, rows: nat, ha: nat,
                      area: nat)
    requires (strideAlign == 16 || strideAlign == 128) && luma % strideAlign == 0
    requires chroma == Align(luma / 2, strideAlign) && chromaA == Align(luma / 2, 16)
    requires rows <= ha && (w == 0 <==> luma == 0) && (h == 0 ==> rows == 0 == ha) && (area == 0 <==> w == 0 || h == 0)
    ensures Mul(rows, luma + chroma) == Mul(luma + chromaA, ha) + area <==>
      || w == 0 || h == 0
      || (strideAlign == 128 && luma / 128 % 2 == 1 && 64 * rows == 192 * (luma / 128 * (ha - rows)) + area)
  {
    if w == 0 || h == 0 {
      if w == 0 { NoChroma(luma, strideAlign, chroma, chromaA); }
      EmptyYuv420(luma, chroma, chromaA, rows, ha, area);
    } else {
      CompareYuv420(w, h, strideAlign, luma, chroma, chromaA, rows, ha, area);
    }
  }

  lemma AreaExactly(w: nat, h: nat, t: AllocType, wa: nat, ha: nat, area: nat)
    requires wa == Width(w, t) && ha == Height(h, t) && area == HeaderArea(HeaderEntries(wa, ha), t)
    ensures area == 0 <==> w == 0 || h == 0
  {
    EmptyWidth(w, t, wa);
    EmptyHeight(h, t, ha);
    if w == 0 || h == 0 { NoHeaders(wa, ha, t); } else { HasHeaders(wa, ha, t); }
  }

  lemma LumaExactly(w: nat, strideAlign: nat, luma: nat)
    requires strideAlign > 0 && luma == Align(w, strideAlign)
    ensures luma % strideAlign == 0 && (w == 0 <==> luma == 0)
  {
    EmptyRow(w, strideAlign, luma);
  }

  /** The layouts, by the values they are made of. */
  predicate Yuv420Pair(h: nat, luma: nat, chroma: nat, rows: nat, wa: nat, chromaA: nat, ha: nat, area: nat,
                       plain: Layout, packed: Layout) {
    && plain == Layout(luma, luma, Mul(rows, luma + chroma), h)
    && packed == Layout(wa, wa, Mul(wa + chromaA, ha) + area, h)
  }

  lemma Yuv420PairOf(w: nat, h: nat, strideAlign: nat, t: AllocType, luma: nat, chroma: nat, rows: nat, wa: nat,
                     chromaA: nat, ha: nat, plain: Layout, packed: Layout) returns (area: nat)
    requires strideAlign > 0 && luma == Align(w, strideAlign) && chroma == Align(luma / 2, strideAlign)
    requires rows == Align(h, 2)
    requires wa == Width(w, t) && chromaA == Align(wa / 2, 16) && ha == Height(h, t)
    requires plain == Yuv420Layout(w, h, strideAlign) && AfbcYuv420Layout(w, h, t, false) == Some(packed)
    ensures Yuv420Pair(h, luma, chroma, rows, wa, chromaA, ha, area, plain, packed)
    ensures area == HeaderArea(HeaderEntries(wa, ha), t)
  {
    area := HeaderArea(HeaderEntries(wa, ha), t);
    Yuv420Fields(w, h, strideAlign, luma, chroma, rows, plain);
    Yuv420PackedStrides(w, h, t, wa, packed);
    Yuv420PackedSize(w, h, t, wa, ha, packed);
    Yuv420Body(wa, ha, chromaA);
  }

  lemma ComparePair(w: nat, h: nat, strideAlign: nat, luma: nat, chroma: nat, rows: nat, wa: nat, chromaA: nat, ha: nat,
                    area: nat, plain: Layout, packed: Layout)
    requires Yuv420Pair(h, luma, chroma, rows, wa, chromaA, ha, area, plain, packed)
    requires (strideAlign == 16 || strideAlign == 128) && luma % strideAlign == 0
    requires chroma == Align(luma / 2, strideAlign) && chromaA == Align(wa / 2, 16)
    requires rows <= ha && (w == 0 <==> luma == 0) && (h == 0 ==> rows == 0 == ha) && (area == 0 <==> w == 0 || h == 0)
    ensures packed == plain <==>
      && wa == luma
      && (|| w == 0 || h == 0
          || (strideAlign == 128 && luma / 128 % 2 == 1 && 64 * rows == 192 * (luma / 128 * (ha - rows)) + area))
  {
    if wa == luma { SizesOfYuv420(w, h, strideAlign, luma, chroma, chromaA, rows, ha, area); }
  }

  lemma Yuv420Exactly(w: nat, h: nat, strideAlign: nat, t: AllocType, luma: nat, wa: nat, rows: nat, ha: nat,
                      plain: Layout, packed: Layout) returns (area: nat)
    requires strideAlign == 16 || strideAlign == 128
    requires luma == Align(w, strideAlign) && wa == Width(w, t) && rows == Align(h, 2) && ha == Height(h, t)
    requires plain == Yuv420Layout(w, h, strideAlign) && AfbcYuv420Layout(w, h, t, false) == Some(packed)
    ensures area == HeaderArea(HeaderEntries(wa, ha), t) && rows <= ha
    ensures packed == plain <==>
      && wa == luma
      && (|| w == 0 || h == 0
          || (strideAlign == 128 && luma / 128 % 2 == 1 && 64 * rows == 192 * (luma / 128 * (ha - rows)) + area))
  {
    var chroma, chromaA := Align(luma / 2, strideAlign), Align(wa / 2, 16);
    area := Yuv420PairOf(w, h, strideAlign, t, luma, chroma, rows, wa, chromaA, ha, plain, packed);
    RowsWithin(h, t, ha, rows);
    LumaExactly(w, strideAlign, luma);
    AreaExactly(w, h, t, wa, ha, area);
    ComparePair(w, h, strideAlign, luma, chroma, rows, wa, chromaA, ha, area, plain, packed);
  }

  lemma UnitsAreExact(w: nat, luma: nat)
    requires luma == Align(w, 128)
    ensures luma == 128 * Units(w) && luma / 128 == Units(w)
  {
  }

  lemma ChromaCondition(w: nat, luma: nat, rows: nat, ha: nat, t: AllocType, area: nat)
    requires luma == Align(w, 128) && ha % 16 == 0 && area == HeaderArea(HeaderEntries(luma, ha), t)
    ensures luma / 128 % 2 == 1 && 64 * rows == 192 * (luma / 128 * (ha - rows)) + area
      <==> ChromaMakesGood(Units(w), rows, ha, t)
  {
    UnitsAreExact(w, luma);
    AreaOfUnits(Units(w), luma, ha, t, HeaderEntries(luma, ha), area);
  }

  lemma Yuv420ByUnits(w: nat, h: nat, strideAlign: nat, t: AllocType, plain: Layout, packed: Layout)
    requires strideAlign == 16 || strideAlign == 128
    requires plain == Yuv420Layout(w, h, strideAlign) && AfbcYuv420Layout(w, h, t, false) == Some(packed)
    ensures packed == plain <==> Yuv420Coincides(w, h, strideAlign, t)
  {
    var luma, rows, ha := Align(w, strideAlign), Align(h, 2), Height(h, t);
    var area := Yuv420Exactly(w, h, strideAlign, t, luma, Width(w, t), rows, ha, plain, packed);
    if strideAlign == 128 && Width(w, t) == luma { ChromaCondition(w, luma, rows, ha, t, area); }
  }

  // ---------------------------------------------------------------- all formats

  lemma TallerInVideoBuild(w: nat, h: nat, t: AllocType)
    ensures AfbcYuv420Layout(w, h, t, true).Some? ==> AfbcYuv420Layout(w, h, t, true).value.internalHeight == h + 16
    ensures AfbcYuv420TenBitLayout(w, h, t, true).Some? ==>
      AfbcYuv420TenBitLayout(w, h, t, true).value.internalHeight == h + 16
  {
  }

  lemma CoincidesByFormat(f: bv64, w: nat, h: nat, usage: bv64, t: AllocType, videoBuild: bool, before: Layout,
                          plain: Layout)
    requires t != Uncompressed && LayoutFor(f, w, h, usage, Uncompressed, videoBuild, before) == Some(plain)
    ensures LayoutFor(f, w, h, usage, t, videoBuild, before) == Some(plain)
      <==> Coincides(f, w, h, usage, t, videoBuild)
  {
    if RgbPixelSize(f) > 0 {
      RgbExactly(w, h, RgbPixelSize(f), t, Width(w, t), plain, RgbLayout(w, h, RgbPixelSize(f), t));
    } else if IsYuv420(f) {
      if YuvAfbcType(t) && !videoBuild {
        Yuv420ByUnits(w, h, StrideAlign(usage), t, plain, AfbcYuv420Layout(w, h, t, false).value);
      } else {
        TallerInVideoBuild(w, h, t);
      }
    } else if f == Y0L2 {
      if YuvAfbcType(t) && !videoBuild && w % 4 == 0 {
        Y0l2Exactly(w, h, t, Width(w, t), Align(w, 128), Align(Mul(w, 4), 128), plain,
                    AfbcYuv420TenBitLayout(w, h, t, false).value);
      } else {
        TallerInVideoBuild(w, h, t);
      }
    } else if f == Y210 && YuvAfbcType(t) && w % 4 == 0 {
      Y210Exactly(w, h, t, Width(w, t), Height(h, t), Align(w, 128), Align(Mul(w, 4), 128), plain,
                  AfbcYuv422TenBitLayout(w, h, t).value);
    }
  }

  /** Which formats have no layout without compression. */
  lemma NoPlainLayout(f: bv64, w: nat, h: nat, usage: bv64, t: AllocType, videoBuild: bool, before: Layout)
    requires t != Uncompressed && LayoutFor(f, w, h, usage, Uncompressed, videoBuild, before).None?
    ensures LayoutFor(f, w, h, usage, t, videoBuild, before).None? <==> Coincides(f, w, h, usage, t, videoBuild)
    ensures RgbPixelSize(f) == 0 && !IsYuv420(f) && f != Y0L2 && f != Y210 && !NeverCompressed(f)
  {
  }

  /** With type t a format gets the layout that it gets without compression, or is rejected either way, if
      and only if the two coincide. */
  lemma CoincidesExactly(f: bv64, w: nat, h: nat, usage: bv64, t: AllocType, videoBuild: bool, before: Layout)
    requires t != Uncompressed
    ensures LayoutFor(f, w, h, usage, t, videoBuild, before)
         == LayoutFor(f, w, h, usage, Uncompressed, videoBuild, before)
      <==> Coincides(f, w, h, usage, t, videoBuild)
  {
    match LayoutFor(f, w, h, usage, Uncompressed, videoBuild, before)
    case Some(plain) => CoincidesByFormat(f, w, h, usage, t, videoBuild, before, plain);
    case None => NoPlainLayout(f, w, h, usage, t, videoBuild, before);
  }

  /** With pixels in it, a buffer of a format that can be plain and that is not 4:2:0 never has the layout
      of a compressed one, nor does a 4:2:0 buffer for software, nor one of an even number of units to a
      row. */
  lemma SeldomCoincides(f: bv64, w: nat, h: nat, usage: bv64, t: AllocType, videoBuild: bool, before: Layout)
    requires w > 0 && h > 0 && t != Uncompressed && Coincides(f, w, h, usage, t, videoBuild)
    requires LayoutFor(f, w, h, usage, Uncompressed, videoBuild, before).Some?
    ensures IsYuv420(f) && StrideAlign(usage) == 128 && Units(w) % 2 == 1 && !videoBuild
  {
  }

  lemma OneUnitMakesGood(k: nat, rows: nat, t: AllocType)
    requires k == 1 && rows == 16 && HeaderAlign(t) == 1024
    ensures ChromaMakesGood(k, rows, rows, t)
  {
    OneArea(Mul(k, rows), HeaderAlign(t));
  }

  lemma OneArea(n: nat, base: nat)
    requires n == 16 && base == 1024
    ensures Align(8 * n, base) == 1024
  {
  }

  lemma WholeUnits(w: nat)
    requires w % 128 == 0
    ensures Align(w, 128) == w && Units(w) == w / 128
  {
    AlignOfMultiple(w, 128);
  }

  lemma EvenRows(h: nat)
    requires h % 2 == 0
    ensures Align(h, 2) == h
  {
    AlignOfMultiple(h, 2);
  }

  lemma AlignedCoincides(f: bv64, w: nat, h: nat, usage: bv64, t: AllocType)
    requires IsYuv420(f) && StrideAlign(usage) == 128 && YuvAfbcType(t)
    requires w % WidthAlign(t) == 0 && w % 128 == 0 && h % HeightAlign(t) == 0 && h % 2 == 0
    requires ChromaMakesGood(w / 128, h, h, t)
    ensures Coincides(f, w, h, usage, t, false)
  {
    WidthOfBlocks(w, t, WidthAlign(t));
    HeightOfBlocks(h, t, HeightAlign(t));
    WholeUnits(w);
    EvenRows(h);
  }

  /** Yet it happens: 128 by 16 pixels of 8-bit 4:2:0 for hardware use. */
  lemma CoincidesAt128(f: bv64, w: nat, h: nat, usage: bv64, t: AllocType)
    requires IsYuv420(f) && w == 128 && h == 16 && StrideAlign(usage) == 128 && t == Afbc
    ensures Coincides(f, w, h, usage, t, false)
  {
    OneUnitMakesGood(w / 128, h, t);
    AlignedCoincides(f, w, h, usage, t);
  }
}
