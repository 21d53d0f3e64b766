/** Whether the sizes of hal/gralloc/mali_gralloc_bufferallocation.cpp hold what their formats put in a
    buffer: at least the bits of every pixel, uncompressed or in the body behind AFBC headers. */
module PixelRoom {
  import opened Arith
  import opened Options
  import opened FormatWord
  import opened BufferAllocation

  /** What a format holds per pixel, chroma included. */
  function BitsPerPixel(f: bv64): nat {
    if RgbPixelSize(f) > 0 then 8 * RgbPixelSize(f)
    else if IsYuv420(f) || f == RAW12 then 12
    else if f == RAW10 then 10
    else if f == BLOB then 8
    else if f == P010 then 24
    else if f == P210 || f == Y210 || f == Y410 then 32
    else 16
  }

  /** Rows of at least k units per pixel hold at least k units for every pixel. */
  lemma RowsHold(stride: nat, rows: nat, k: nat, w: nat, h: nat)
    requires k * w <= stride && h <= rows
    ensures k * (w * h) <= stride * rows
  {
    MulLeq(k * w, stride, h);
    MulLeq(h, rows, stride);
    Associate(k, w, h);
  }

  lemma RgbHolds(w: nat, h: nat, pixelSize: nat, t: AllocType)
    requires pixelSize > 0
    ensures pixelSize * (w * h) <= RgbLayout(w, h, pixelSize, t).size
  {
    if t == Uncompressed {
      RowsHold(Align(Mul(w, pixelSize), 64), h, pixelSize, w, h);
    } else {
      MulLeq(w, Width(w, t), pixelSize);
      RowsHold(Align(Mul(Width(w, t), pixelSize), 64), Height(h, t), pixelSize, w, h);
    }
  }

  lemma Yuv420Rows(w: nat, h: nat, luma: nat, chroma: nat, rows: nat)
    requires w <= luma && luma <= 2 * chroma && h <= rows
    ensures 3 * (w * h) <= 2 * (rows * (luma + chroma))
  {
    RowsHold(2 * (luma + chroma), rows, 3, w, h);
    Associate(2, luma + chroma, rows);
    Commute(luma + chroma, rows);
  }

  lemma Yuv420Holds(w: nat, h: nat, strideAlign: nat)
    requires strideAlign == 16 || strideAlign == 128
    ensures 3 * (w * h) <= 2 * Yuv420Layout(w, h, strideAlign).size
  {
    var luma := Align(w, strideAlign);
    FinerMultiple(luma, strideAlign, 2);
    Yuv420Rows(w, h, luma, Align(luma / 2, strideAlign), Align(h, 2));
  }

  lemma Y0l2Holds(w: nat, h: nat)
    ensures 2 * (w * h) <= Y0l2Layout(w, h).size
  {
    RowsHold(Align(Mul(w, 4), 128), Align(h, 2), 4, w, h);
  }

  lemma PX10Holds(w: nat, h: nat, vss: nat)
    requires vss == 1 || vss == 2
    ensures (if vss == 2 then 3 else 4) * (w * h) <= PX10Layout(w, h, vss).size
  {
    var stride, rows := Align(Mul(w, 2), 128), if vss == 2 then Align(h, 2) else h;
    RowsHold(stride, rows, 2, w, h);
    if vss == 2 { HalfTheRows(stride, rows); }
  }

  lemma HalfTheRows(stride: nat, rows: nat)
    requires rows % 2 == 0
    ensures 2 * (stride * (rows / 2)) == stride * rows
  {
    var k := rows / 2;
    assert rows == 2 * k;
    Associate(stride, 2, k);
  }

  lemma PackedHolds(w: nat, h: nat, bytes: nat)
    ensures bytes * (w * h) <= PackedLayout(w, h, bytes).size
  {
    Commute(w, bytes);
    RowsHold(Align(Mul(w, bytes), 128), h, bytes, w, h);
  }

  /** k units per pixel in rows of n-th units. */
  lemma RawHolds(w: nat, h: nat, stride: nat, k: nat, n: nat)
    requires k * w <= n * stride
    ensures k * (w * h) <= n * (stride * h)
  {
    RowsHold(n * stride, h, k, w, h);
    Associate(n, stride, h);
  }

  lemma CameraHolds(w: nat, h: nat, f: bv64, layout: Layout)
    requires CameraLayout(w, h, f) == Some(layout)
    ensures BitsPerPixel(f) * (w * h) <= 8 * layout.size
  {
    if f == RAW16 {
      RawHolds(w, h, Align(w, 16), 1, 1);
      assert layout.size == Align(w, 16) * h * 2;
    } else if f == RAW12 {
      RawHolds(w, h, w / 2 * 3, 3, 2);
      assert layout.size == (w / 2 * 3) * h;
    } else if f == RAW10 {
      RawHolds(w, h, w / 4 * 5, 5, 4);
      assert layout.size == (w / 4 * 5) * h;
    } else {
      assert layout.size == w && h == 1;
    }
  }

  lemma AfbcYuv420Holds(w: nat, h: nat, wa: nat, chroma: nat, ha: nat)
    requires w <= wa && h <= ha && wa <= 2 * chroma
    ensures 3 * (w * h) <= 2 * Mul(wa + chroma, ha)
  {
    Yuv420Rows(w, h, wa, chroma, ha);
    Commute(wa + chroma, ha);
  }

  lemma AfbcYuv422Holds(w: nat, h: nat, wa: nat, ha: nat)
    requires w <= wa && h <= ha
    ensures 2 * (w * h) <= Mul(wa, ha) * 2
  {
    RowsHold(wa, ha, 1, w, h);
  }

  lemma AfbcYuv422TenBitHolds(w: nat, h: nat, wa: nat, ha: nat)
    requires w <= wa && h <= ha
    ensures 4 * (w * h) <= Mul(Align(2 * wa, 16), ha) * 2
  {
    RowsHold(Align(2 * wa, 16), ha, 2, w, h);
  }

  /** A layout without compression, of a format other than the camera's. */
  lemma PlainHolds(f: bv64, w: nat, h: nat, n: nat, usage: bv64, videoBuild: bool, before: Layout, layout: Layout)
    requires LayoutFor(f, w, h, usage, Uncompressed, videoBuild, before) == Some(layout) && n == w * h
    requires f != RAW16 && f != RAW12 && f != RAW10 && f != BLOB
    ensures BitsPerPixel(f) * n <= 8 * layout.size
  {
    if RgbPixelSize(f) > 0 {
      RgbHolds(w, h, RgbPixelSize(f), Uncompressed);
      assert layout == RgbLayout(w, h, RgbPixelSize(f), Uncompressed);
      Associate(8, RgbPixelSize(f), n);
    } else if IsYuv420(f) {
      Yuv420Holds(w, h, StrideAlign(usage));
      assert layout == Yuv420Layout(w, h, StrideAlign(usage)) && BitsPerPixel(f) == 12;
    } else if f == Y0L2 {
      Y0l2Holds(w, h);
      assert layout == Y0l2Layout(w, h) && BitsPerPixel(f) == 16;
    } else if f == P010 {
      PX10Holds(w, h, 2);
      assert layout == PX10Layout(w, h, 2) && BitsPerPixel(f) == 24;
    } else if f == P210 {
      PX10Holds(w, h, 1);
      assert layout == PX10Layout(w, h, 1) && BitsPerPixel(f) == 32;
    } else if f == YCbCr_422_I {
      PackedHolds(w, h, 2);
      assert layout == PackedLayout(w, h, 2) && BitsPerPixel(f) == 16;
    } else {
      PackedHolds(w, h, 4);
      assert layout == PackedLayout(w, h, 4) && BitsPerPixel(f) == 32;
    }
  }

  lemma RgbBodyHolds(w: nat, h: nat, wa: nat, ha: nat, pixelSize: nat)
    requires w <= wa && h <= ha
    ensures pixelSize * (w * h) <= Mul(Align(Mul(wa, pixelSize), 64), ha)
  {
    MulLeq(w, wa, pixelSize);
    Commute(w, pixelSize);
    RowsHold(Align(Mul(wa, pixelSize), 64), ha, pixelSize, w, h);
  }

  lemma RgbBody(f: bv64, w: nat, h: nat, n: nat, wa: nat, ha: nat)
    requires RgbPixelSize(f) > 0 && n == w * h && w <= wa && h <= ha
    ensures 8 * (RgbPixelSize(f) * n) <= 8 * BodyIn(f, wa, ha)
  {
    RgbBodyHolds(w, h, wa, ha, RgbPixelSize(f));
  }

  lemma HalfCovers(wa: nat, half: nat, chroma: nat)
    requires wa % 16 == 0 && half == wa / 2 && half <= chroma
    ensures wa <= 2 * chroma
  {
  }

  lemma BodyOfYuv420(f: bv64, w: nat, h: nat, wa: nat, ha: nat, body: nat)
    requires IsYuv420(f) && body == BodyIn(f, wa, ha) && w <= wa && h <= ha && wa % 16 == 0
    ensures 3 * (w * h) <= 2 * body
  {
    HalfCovers(wa, wa / 2, Align(wa / 2, 16));
    AfbcYuv420Holds(w, h, wa, Align(wa / 2, 16), ha);
  }

  lemma BodyOfY210(w: nat, h: nat, wa: nat, ha: nat, body: nat)
    requires body == BodyIn(Y210, wa, ha) && w <= wa && h <= ha
    ensures 4 * (w * h) <= body
  {
    AfbcYuv422TenBitHolds(w, h, wa, ha);
  }

  lemma BodyOfYuv422(w: nat, h: nat, wa: nat, ha: nat, body: nat)
    requires body == BodyIn(YUV422_8BIT, wa, ha) && w <= wa && h <= ha
    ensures 2 * (w * h) <= body
  {
    AfbcYuv422Holds(w, h, wa, ha);
  }

  lemma YuvBody(f: bv64, w: nat, h: nat, n: nat, wa: nat, ha: nat, body: nat)
    requires IsYuv420(f) || f == YUV422_8BIT || f == Y210
    requires n == w * h && w <= wa && h <= ha && wa % 16 == 0 && body == BodyIn(f, wa, ha)
    ensures (if IsYuv420(f) then 12 * n else if f == Y210 then 32 * n else 16 * n) <= 8 * body
  {
    if IsYuv420(f) {
      BodyOfYuv420(f, w, h, wa, ha, body);
    } else if f == Y210 {
      BodyOfY210(w, h, wa, ha, body);
    } else {
      BodyOfYuv422(w, h, wa, ha, body);
    }
  }

  lemma YuvBits(f: bv64, n: nat)
    requires IsYuv420(f) || f == YUV422_8BIT || f == Y210
    ensures BitsPerPixel(f) * n == if IsYuv420(f) then 12 * n else if f == Y210 then 32 * n else 16 * n
  {
  }

  /** The body of a compressed buffer, behind its headers. */
  lemma BodyHolds(f: bv64, w: nat, h: nat, n: nat, wa: nat, ha: nat)
    requires n == w * h && w <= wa && h <= ha && wa % 16 == 0
    requires RgbPixelSize(f) > 0 || IsYuv420(f) || f == YUV422_8BIT || f == Y210
    ensures BitsPerPixel(f) * n <= 8 * BodyIn(f, wa, ha)
  {
    if RgbPixelSize(f) > 0 {
      RgbBody(f, w, h, n, wa, ha);
      Associate(8, RgbPixelSize(f), n);
    } else {
      YuvBody(f, w, h, n, wa, ha, BodyIn(f, wa, ha));
      YuvBits(f, n);
    }
  }

  lemma CompressedHolds(f: bv64, w: nat, h: nat, n: nat, usage: bv64, t: AllocType, videoBuild: bool, before: Layout,
                        layout: Layout, wa: nat, ha: nat)
    requires t != Uncompressed && f != Y0L2 && LayoutFor(f, w, h, usage, t, videoBuild, before) == Some(layout)
    requires n == w * h && wa == Width(w, t) && ha == BodyHeight(f, h, t, videoBuild)
    ensures BitsPerPixel(f) * n <= 8 * layout.size
  {
    BodyInSize(f, w, h, usage, t, videoBuild, before, layout, wa, ha);
    PixelsInBody(f, w, h, n, t, videoBuild, wa, ha);
  }

  lemma BodyInSize(f: bv64, w: nat, h: nat, usage: bv64, t: AllocType, videoBuild: bool, before: Layout,
                   layout: Layout, wa: nat, ha: nat)
    requires t != Uncompressed && LayoutFor(f, w, h, usage, t, videoBuild, before) == Some(layout)
    requires wa == Width(w, t) && ha == BodyHeight(f, h, t, videoBuild)
    ensures BodyIn(f, wa, ha) <= layout.size
    ensures f != Y0L2 ==> RgbPixelSize(f) > 0 || IsYuv420(f) || f == YUV422_8BIT || f == Y210
  {
    CompressedLayout(f, w, h, usage, t, videoBuild, before, layout);
    SizeSplits(f, w, h, usage, t, videoBuild, before, layout);
  }

  lemma PixelsInBody(f: bv64, w: nat, h: nat, n: nat, t: AllocType, videoBuild: bool, wa: nat, ha: nat)
    requires f != Y0L2 && n == w * h && wa == Width(w, t) && ha == BodyHeight(f, h, t, videoBuild)
    requires RgbPixelSize(f) > 0 || IsYuv420(f) || f == YUV422_8BIT || f == Y210
    ensures BitsPerPixel(f) * n <= 8 * BodyIn(f, wa, ha)
  {
    BodyHolds(f, w, h, n, wa, ha);
  }

  // ---------------------------------------------------------------- camera formats

  predicate IsCamera(f: bv64) {
    f == RAW16 || f == RAW12 || f == RAW10 || f == BLOB
  }

  /** The dimensions that the camera formats do not allow.  Their layout fails, and the allocation does
      not notice. */
  predicate FailsUnnoticed(f: bv64, w: nat, h: nat) {
    ((f == RAW12 || f == RAW10) && w % 4 != 0) || (f == BLOB && h != 1)
  }

  lemma FailsUnnoticedExactly(f: bv64, w: nat, h: nat)
    ensures FailsUnnoticed(f, w, h) <==> IsCamera(f) && CameraLayout(w, h, f).None?
  {
  }

  lemma CameraSize(f: bv64, w: nat, h: nat, usage: bv64, videoBuild: bool, before: Layout, layout: Layout)
    requires IsCamera(f) && LayoutFor(f, w, h, usage, Uncompressed, videoBuild, before) == Some(layout)
    ensures if FailsUnnoticed(f, w, h) then layout.size == before.size else CameraLayout(w, h, f) == Some(layout)
  {
    FailsUnnoticedExactly(f, w, h);
  }

  /** A camera buffer has room for its pixels if and only if its dimensions are allowed or the size that
      the descriptor held before has room for them. */
  lemma CameraRoomExactly(f: bv64, w: nat, h: nat, n: nat, usage: bv64, videoBuild: bool, before: Layout,
                          layout: Layout)
    requires IsCamera(f) && LayoutFor(f, w, h, usage, Uncompressed, videoBuild, before) == Some(layout) && n == w * h
    ensures BitsPerPixel(f) * n <= 8 * layout.size <==>
      !FailsUnnoticed(f, w, h) || BitsPerPixel(f) * n <= 8 * before.size
  {
    CameraSize(f, w, h, usage, videoBuild, before, layout);
    if !FailsUnnoticed(f, w, h) { CameraHolds(w, h, f, layout); }
  }

  lemma UnnoticedLayout(f: bv64, w: nat, h: nat, usage: bv64, videoBuild: bool, before: Layout)
    requires FailsUnnoticed(f, w, h)
    ensures LayoutFor(f, w, h, usage, Uncompressed, videoBuild, before)
         == Some(before.(byteStride := before.pixelStride, internalHeight := h))
  {
    FailsUnnoticedExactly(f, w, h);
  }

  /** RAW12 of 6 by 2 pixels, on a descriptor without a size: accepted, with no room at all. */
  lemma Raw12WithoutRoom(usage: bv64, videoBuild: bool)
    ensures LayoutFor(RAW12, 6, 2, usage, Uncompressed, videoBuild, Layout(0, 0, 0, 0)) == Some(Layout(0, 0, 0, 2))
    ensures !HasRoom(RAW12, 6, 2, 12, Uncompressed, videoBuild, Layout(0, 0, 0, 0))
  {
    UnnoticedLayout(RAW12, 6, 2, usage, videoBuild, Layout(0, 0, 0, 0));
  }

  // ---------------------------------------------------------------- compressed 10-bit 4:2:0

  lemma TenBitBodyIs(wa: nat, ha: nat)
    requires wa % 16 == 0
    ensures BodyIn(Y0L2, wa, ha) == 4 * (wa * ha)
  {
    AlignOfMultiple(4 * wa, 16);
    Associate(4, wa, ha);
  }

  lemma HalfRounded(internal: nat, align: nat)
    requires align > 0
    ensures internal <= 2 * Align(internal / 2, align) <==> internal % 2 == 0 || internal / 2 % align != 0
    ensures internal > 2 * Align(internal / 2, align) ==> Align(internal / 2, align) == internal / 2
  {
    if internal / 2 % align == 0 { AlignOfMultiple(internal / 2, align); }
  }

  /** The rows that the body of a compressed 10-bit 4:2:0 buffer is sized for are at least the rows of
      the buffer, or one less: for odd heights whose half, rounded down, needs no rounding up, in a build
      without the extra rows of a video decoder. */
  lemma TenBitRows(h: nat, t: AllocType, videoBuild: bool, ha: nat)
    requires ha == BodyHeight(Y0L2, h, t, videoBuild)
    ensures h <= 2 * ha <==> videoBuild || h % 2 == 0 || h / 2 % HeightAlign(t) != 0
    ensures h > 2 * ha ==> !videoBuild && h == 2 * ha + 1
    ensures ha % 16 == 0
  {
    HalfRounded(InternalHeight(h, videoBuild), HeightAlign(t));
  }

  lemma RowShort(w: nat, wa: nat, ha: nat, h: nat)
    requires w <= wa && h == 2 * ha + 1
    ensures w * h <= 2 * (wa * ha) <==> w * h <= wa * (h - 1)
  {
    Associate(wa, 2, ha);
    Commute(2, wa);
    Associate(2, wa, ha);
  }

  lemma RowsEnough(w: nat, wa: nat, ha: nat, h: nat)
    requires w <= wa && h <= 2 * ha
    ensures w * h <= 2 * (wa * ha)
  {
    MulLeq(w, wa, h);
    MulLeq(h, 2 * ha, wa);
    Associate(2, ha, wa);
    Commute(wa, ha);
  }

  /** The body of a compressed 10-bit 4:2:0 buffer has room for its pixels if and only if the build adds
      rows, or the height is even, or half of it is rounded up, or the aligned width makes good for the
      row that is missing. */
  lemma TenBitBodyExactly(w: nat, h: nat, n: nat, t: AllocType, videoBuild: bool, wa: nat, ha: nat)
    requires n == w * h && wa == Width(w, t) && ha == BodyHeight(Y0L2, h, t, videoBuild)
    ensures 16 * n <= 8 * BodyIn(Y0L2, wa, ha) <==>
      videoBuild || h % 2 == 0 || h / 2 % HeightAlign(t) != 0 || n <= wa * (h - 1)
  {
    TenBitRows(h, t, videoBuild, ha);
    TenBitBodyIs(wa, ha);
    if h <= 2 * ha { RowsEnough(w, wa, ha, h); } else { RowShort(w, wa, ha, h); }
  }

  /** Two rows of superblocks or more have header entries for two bytes per pixel of a row. */
  lemma HeadersMakeGood(wa: nat, rows: nat, t: AllocType)
    requires wa % 16 == 0 && rows >= 32
    ensures 2 * wa <= HeaderArea(HeaderEntries(wa, rows), t)
  {
    var a := wa / 16;
    MulLeq(32, rows, a);
    Commute(a, rows);
    DivLeq(2 * a * 16, a * rows, 16);
    DivExact(2 * a, 16);
  }

  lemma SizeOfRows(w: nat, h: nat, n: nat, wa: nat, ha: nat, headers: nat)
    requires n == w * h && w <= wa && (h > 2 * ha ==> h == 2 * ha + 1) && (h > 1 && h > 2 * ha ==> 2 * wa <= headers)
    ensures 2 * n <= headers + 4 * (wa * ha) <==> h <= 2 * ha || h > 1 || 2 * w <= headers
  {
    if h <= 2 * ha {
      RowsEnough(w, wa, ha, h);
    } else if h > 1 {
      OneRowMore(w, wa, ha, h);
    } else {
      assert ha == 0 && wa * ha == 0 && n == w;
    }
  }

  lemma RowsByCase(h: nat, t: AllocType, videoBuild: bool, ha: nat)
    requires ha == BodyHeight(Y0L2, h, t, videoBuild)
    ensures h > 2 * ha ==> !videoBuild && h == 2 * ha + 1
    ensures h == 1 ==> (h <= 2 * ha <==> videoBuild)
  {
    TenBitRows(h, t, videoBuild, ha);
    if h == 1 { NoRest(HeightAlign(t)); }
  }

  lemma RowsShort(h: nat, t: AllocType, ha: nat)
    requires ha == BodyHeight(Y0L2, h, t, false) && 1 < h && 2 * ha < h
    ensures h >= 32
  {
    TenBitRows(h, t, false, ha);
  }

  lemma NoRest(align: nat)
    requires align > 0
    ensures 0 % align == 0
  {
  }

  /** The size of a compressed 10-bit 4:2:0 buffer, headers included, has room for its pixels if and only
      if the build adds rows, or there is more than one row or none, or the header area holds the one. */
  lemma TenBitSizeExactly(w: nat, h: nat, n: nat, t: AllocType, videoBuild: bool, wa: nat, ha: nat, headers: nat)
    requires n == w * h && wa == Width(w, t) && ha == BodyHeight(Y0L2, h, t, videoBuild)
    requires headers == HeaderArea(HeaderEntries(wa, InternalHeight(h, videoBuild)), t)
    ensures 16 * n <= 8 * (headers + BodyIn(Y0L2, wa, ha)) <==>
      videoBuild || h != 1 || 2 * w <= HeaderArea(HeaderEntries(wa, 1), t)
  {
    RowsByCase(h, t, videoBuild, ha);
    TenBitBodyIs(wa, ha);
    if h > 1 && h > 2 * ha { RowsShort(h, t, ha); HeadersMakeGood(wa, h, t); }
    SizeOfRows(w, h, n, wa, ha, headers);
  }

  lemma OneRowMore(w: nat, wa: nat, ha: nat, h: nat)
    requires w <= wa && h == 2 * ha + 1
    ensures w * h <= 2 * (wa * ha) + wa
  {
    MulLeq(w, wa, h);
    Associate(wa, 2, ha);
    Commute(2, wa);
    Associate(2, wa, ha);
  }

  lemma TenBitAccepted(w: nat, h: nat, usage: bv64, t: AllocType, before: Layout)
    requires w % 4 == 0 && YuvAfbcType(t)
    ensures LayoutFor(Y0L2, w, h, usage, t, false, before).Some?
  {
  }

  lemma LackingRow(w: nat, h: nat, n: nat, t: AllocType, wa: nat, ha: nat)
    requires 0 < w == wa && wa == Width(w, t) && h % 2 == 1 && n == w * h
    requires ha == BodyHeight(Y0L2, h, t, false) && h / 2 % HeightAlign(t) == 0
    ensures 16 * n > 8 * BodyIn(Y0L2, wa, ha)
  {
    TenBitBodyExactly(w, h, n, t, false, wa, ha);
    Commute(w, h - 1);
    MulLess(h - 1, h, w);
  }

  /** Buffers that are accepted and whose body lacks a row: any width of whole blocks, and a height of one
      row more than some blocks of two rows each. */
  lemma BodyLacksRow(w: nat, h: nat, n: nat, usage: bv64, t: AllocType, before: Layout)
    requires YuvAfbcType(t) && w > 0 && w % 4 == 0 && w % WidthAlign(t) == 0
    requires h % 2 == 1 && h / 2 % HeightAlign(t) == 0 && n == w * h
    ensures LayoutFor(Y0L2, w, h, usage, t, false, before).Some?
    ensures 16 * n > 8 * BodyOf(Y0L2, w, h, t, false)
  {
    TenBitAccepted(w, h, usage, t, before);
    WidthOfBlocks(w, t, WidthAlign(t));
    LackingRow(w, h, n, t, Width(w, t), BodyHeight(Y0L2, h, t, false));
  }

  /** One of them: 16 by 33 pixels. */
  lemma BodyLacksRowAt33(w: nat, h: nat, usage: bv64, before: Layout)
    requires w == 16 && h == 33
    ensures LayoutFor(Y0L2, w, h, usage, Afbc, false, before).Some?
    ensures 16 * 528 > 8 * BodyOf(Y0L2, w, h, Afbc, false)
  {
    BodyLacksRow(w, h, 528, usage, Afbc, before);
  }

  lemma NoEntryForOneRow(wa: nat, t: AllocType)
    requires wa < 256
    ensures HeaderArea(HeaderEntries(wa, 1), t) == 0
  {
    AlignOfMultiple(0, HeaderAlign(t));
  }

  /** A single row of fewer than 256 pixels in whole blocks is accepted, and there is no room for it. */
  lemma SingleRowWithoutRoom(w: nat, usage: bv64, t: AllocType, before: Layout)
    requires YuvAfbcType(t) && 0 < w < 256 && w % 4 == 0 && w % WidthAlign(t) == 0
    ensures LayoutFor(Y0L2, w, 1, usage, t, false, before).Some?
    ensures !HasRoom(Y0L2, w, 1, w, t, false, before)
  {
    TenBitAccepted(w, 1, usage, t, before);
    WidthOfBlocks(w, t, WidthAlign(t));
    NoEntryForOneRow(w, t);
  }

  // ---------------------------------------------------------------- every format

  /** Where the size of a buffer has room for its pixels. */
  predicate HasRoom(f: bv64, w: nat, h: nat, n: nat, t: AllocType, videoBuild: bool, before: Layout) {
    if FailsUnnoticed(f, w, h) then BitsPerPixel(f) * n <= 8 * before.size
    else f != Y0L2 || t == Uncompressed || videoBuild || h != 1 || 2 * w <= HeaderArea(HeaderEntries(Width(w, t), 1), t)
  }

  /** The size that an allocation comes to has room for all the bits of its n pixels, for every format,
      mode, alignment and dimension, but for two exceptions, and for these if and only if HasRoom says so. */
  lemma SizesHoldPixels(f: bv64, w: nat, h: nat, n: nat, usage: bv64, t: AllocType, videoBuild: bool, before: Layout,
                        layout: Layout)
    requires LayoutFor(f, w, h, usage, t, videoBuild, before) == Some(layout) && n == w * h
    ensures BitsPerPixel(f) * n <= 8 * layout.size <==> HasRoom(f, w, h, n, t, videoBuild, before)
  {
    if t == Uncompressed && IsCamera(f) {
      CameraRoomExactly(f, w, h, n, usage, videoBuild, before, layout);
    } else if t == Uncompressed {
      PlainHolds(f, w, h, n, usage, videoBuild, before, layout);
    } else if f == Y0L2 {
      TenBitSize(w, h, n, usage, t, videoBuild, before, layout);
    } else {
      CompressedHolds(f, w, h, n, usage, t, videoBuild, before, layout, Width(w, t), BodyHeight(f, h, t, videoBuild));
    }
  }

  lemma TenBitSize(w: nat, h: nat, n: nat, usage: bv64, t: AllocType, videoBuild: bool, before: Layout, layout: Layout)
    requires t != Uncompressed && LayoutFor(Y0L2, w, h, usage, t, videoBuild, before) == Some(layout) && n == w * h
    ensures BitsPerPixel(Y0L2) * n <= 8 * layout.size <==>
      videoBuild || h != 1 || 2 * w <= HeaderArea(HeaderEntries(Width(w, t), 1), t)
  {
    SizeSplits(Y0L2, w, h, usage, t, videoBuild, before, layout);
    TenBitSizeExactly(w, h, n, t, videoBuild, Width(w, t), BodyHeight(Y0L2, h, t, videoBuild),
                      HeaderArea(EntriesOf(Y0L2, w, h, t, videoBuild), t));
  }
}
