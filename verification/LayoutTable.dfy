/** Strides and sizes of mali_gralloc_buffer_allocate (hal/gralloc/mali_gralloc_bufferallocation.cpp), format
    by format, by what is least and by sums of planes; formats by their numbers. */
module LayoutTable {
  import opened Arith
  import opened Options
  import opened FormatWord
  import opened FormatSelect
  import opened BufferAllocation

  /** r is the least multiple of a base that is at least v. */
  predicate IsLeast(r: nat, v: nat, base: nat)
    requires base > 0
  {
    v <= r < v + base && r % base == 0
  }

  /** q is n over d, rounded down. */
  predicate IsQuotient(q: nat, n: nat, d: nat) {
    q * d <= n < (q + 1) * d
  }

  // ---------------------------------------------------------------- formats, by their numbers

  /** Bytes per pixel of RGB formats. */
  function RgbBytes(f: bv64): nat {
    if f == 1 || f == 2 || f == 5 || f == 43 then 4 else if f == 3 then 3 else if f == 4 then 2 else 0
  }

  predicate Is420(f: bv64) {
    f == 0x11 || f == 0x100 || f == 0x101 || f == 0x3231_5659
  }

  /** Bytes per pixel in a row of the other formats that are plain: the packed ones, 10-bit luma, and two
      rows at once for 0x103. */
  function RowBytes(f: bv64): nat {
    if f == 0x14 || f == 0x104 || f == 0x105 then 2
    else if f == 0x103 || f == 0x106 || f == 0x107 then 4
    else 0
  }

  predicate IsCamera(f: bv64) {
    f == 0x20 || f == 0x21 || f == 0x25 || f == 0x26
  }

  /** The dimensions that the camera formats allow. */
  predicate CameraAllows(f: bv64, w: nat, h: nat) {
    ((f == 0x25 || f == 0x26) ==> w % 4 == 0) && (f == 0x21 ==> h == 1)
  }

  // ---------------------------------------------------------------- without compression

  predicate IsPlainRgb(bytes: nat, w: nat, h: nat, l: Layout) {
    && IsLeast(l.byteStride, w * bytes, 64) && IsQuotient(l.pixelStride, l.byteStride, bytes)
    && l.size == l.byteStride * h
  }

  /** A luma plane and two chroma planes that share rows half as wide, of an even number of rows in all. */
  predicate IsPlain420(w: nat, h: nat, align: nat, l: Layout, chroma: nat, rows: nat)
    requires align > 0
  {
    && IsLeast(l.byteStride, w, align) && l.pixelStride == l.byteStride
    && IsLeast(chroma, l.byteStride / 2, align) && IsLeast(rows, h, 2)
    && l.size == rows * (l.byteStride + chroma)
  }

  predicate IsPlainOther(f: bv64, w: nat, h: nat, l: Layout, rows: nat) {
    && IsLeast(l.pixelStride, w, 128) && IsLeast(l.byteStride, w * RowBytes(f), 128) && IsLeast(rows, h, 2)
    && (if f == 0x103 then 2 * l.size == l.byteStride * rows
        else if f == 0x104 then 2 * l.size == 3 * (l.byteStride * rows)
        else if f == 0x105 then l.size == 2 * (l.byteStride * h)
        else l.size == l.byteStride * h)
  }

  predicate IsCameraLayout(f: bv64, w: nat, h: nat, l: Layout) {
    && l.byteStride == l.pixelStride
    && (if f == 0x20 then IsLeast(l.pixelStride, w, 16) && l.size == 2 * (l.pixelStride * h)
        else if f == 0x21 then l.pixelStride == 0 && l.size == w
        else if f == 0x25 then 4 * l.pixelStride == 5 * w && l.size == l.pixelStride * h
        else 2 * l.pixelStride == 3 * w && l.size == l.pixelStride * h)
  }

  /** The layout of an accepted buffer without compression. */
  predicate IsPlain(f: bv64, w: nat, h: nat, usage: bv64, before: Layout, l: Layout, chroma: nat, rows: nat) {
    && l.internalHeight == h
    && (if RgbBytes(f) > 0 then IsPlainRgb(RgbBytes(f), w, h, l)
        else if Is420(f) then IsPlain420(w, h, if usage & 0xff != 0 then 16 else 128, l, chroma, rows)
        else if IsCamera(f) then
          if CameraAllows(f, w, h) then IsCameraLayout(f, w, h, l)
          else l.size == before.size && l.pixelStride == before.pixelStride == l.byteStride
        else RowBytes(f) > 0 && IsPlainOther(f, w, h, l, rows))
  }

  lemma RgbByNumber(f: bv64)
    ensures RgbPixelSize(f) == RgbBytes(f) && (IsYuv420(f) <==> Is420(f))
  {
  }

  lemma StrideByBits(usage: bv64)
    ensures StrideAlign(usage) == if usage & 0xff != 0 then 16 else 128
  {
  }

  lemma PlainRgb(w: nat, h: nat, bytes: nat, l: Layout)
    requires bytes > 0 && l == RgbLayout(w, h, bytes, Uncompressed)
    ensures IsPlainRgb(bytes, w, h, l) && l.internalHeight == h
  {
    DivBounds(l.byteStride, bytes);
  }

  lemma Plain420(w: nat, h: nat, align: nat, l: Layout) returns (chroma: nat, rows: nat)
    requires align > 0 && l == Yuv420Layout(w, h, align)
    ensures IsPlain420(w, h, align, l, chroma, rows) && l.internalHeight == h
  {
    chroma, rows := Align(Align(w, align) / 2, align), Align(h, 2);
  }

  lemma PlainPacked(f: bv64, w: nat, h: nat, bytes: nat, l: Layout) returns (rows: nat)
    requires (f == 0x14 && bytes == 2) || ((f == 0x106 || f == 0x107) && bytes == 4)
    requires l == PackedLayout(w, h, bytes)
    ensures IsPlainOther(f, w, h, l, rows) && l.internalHeight == h
  {
    rows := Align(h, 2);
  }

  lemma HalfOfEven(n: nat, stride: nat, rows: nat)
    requires rows % 2 == 0 && n == stride * rows
    ensures n % 2 == 0
  {
    DivMod(rows, 2);
    TwiceOut(stride, rows / 2);
  }

  lemma PlainTwoRows(w: nat, h: nat, l: Layout) returns (rows: nat)
    requires l == Y0l2Layout(w, h)
    ensures IsPlainOther(0x103, w, h, l, rows) && l.internalHeight == h
  {
    rows := Align(h, 2);
    HalfOfEven(Mul(l.byteStride, rows), l.byteStride, rows);
  }

  lemma HalfTheChroma(stride: nat, rows: nat, size: nat)
    requires rows % 2 == 0 && size == stride * rows + stride * (rows / 2)
    ensures 2 * size == 3 * (stride * rows)
  {
    DivMod(rows, 2);
    TwiceOut(stride, rows / 2);
  }

  lemma PlainP010(w: nat, h: nat, l: Layout) returns (rows: nat)
    requires l == PX10Layout(w, h, 2)
    ensures IsPlainOther(0x104, w, h, l, rows) && l.internalHeight == h
  {
    rows := Align(h, 2);
    HalfTheChroma(l.byteStride, rows, l.size);
  }

  lemma PlainP210(w: nat, h: nat, l: Layout) returns (rows: nat)
    requires l == PX10Layout(w, h, 1)
    ensures IsPlainOther(0x105, w, h, l, rows) && l.internalHeight == h
  {
    rows := Align(h, 2);
  }

  lemma PlainCamera(f: bv64, w: nat, h: nat, l: Layout)
    requires IsCamera(f) && CameraLayout(w, h, f) == Some(l)
    ensures IsCameraLayout(f, w, h, l) && l.internalHeight == h && CameraAllows(f, w, h)
  {
  }

  lemma CameraFails(f: bv64, w: nat, h: nat)
    requires IsCamera(f) && CameraLayout(w, h, f).None?
    ensures !CameraAllows(f, w, h)
  {
  }

  lemma PlainOther(f: bv64, w: nat, h: nat, usage: bv64, videoBuild: bool, before: Layout,
                   l: Layout) returns (rows: nat)
    requires RgbBytes(f) == 0 && !Is420(f) && !IsCamera(f)
    requires LayoutFor(f, w, h, usage, Uncompressed, videoBuild, before) == Some(l)
    ensures RowBytes(f) > 0 && IsPlainOther(f, w, h, l, rows) && l.internalHeight == h
  {
    RgbByNumber(f);
    if f == 0x103 {
      rows := PlainTwoRows(w, h, l);
    } else if f == 0x104 {
      rows := PlainP010(w, h, l);
    } else if f == 0x105 {
      rows := PlainP210(w, h, l);
    } else {
      rows := PlainPacked(f, w, h, if f == 0x14 then 2 else 4, l);
    }
  }

  /** Every layout without compression, exactly: strides are least, and the size is the sum of the planes. */
  lemma PlainExactly(f: bv64, w: nat, h: nat, usage: bv64, videoBuild: bool, before: Layout, l: Layout)
    returns (chroma: nat, rows: nat)
    requires LayoutFor(f, w, h, usage, Uncompressed, videoBuild, before) == Some(l)
    ensures IsPlain(f, w, h, usage, before, l, chroma, rows)
  {
    RgbByNumber(f);
    chroma, rows := 0, 0;
    if RgbBytes(f) > 0 {
      PlainRgb(w, h, RgbBytes(f), l);
    } else if Is420(f) {
      StrideByBits(usage);
      chroma, rows := Plain420(w, h, StrideAlign(usage), l);
    } else if IsCamera(f) {
      if CameraLayout(w, h, f).Some? { PlainCamera(f, w, h, l); } else { CameraFails(f, w, h); }
    } else {
      rows := PlainOther(f, w, h, usage, videoBuild, before, l);
    }
  }

  /** What is accepted without compression: every format of the table but 0x102. */
  lemma PlainAcceptedExactly(f: bv64, w: nat, h: nat, usage: bv64, videoBuild: bool, before: Layout)
    ensures LayoutFor(f, w, h, usage, Uncompressed, videoBuild, before).Some?
      <==> RgbBytes(f) > 0 || Is420(f) || IsCamera(f) || RowBytes(f) > 0
  {
    RgbByNumber(f);
  }

  // ---------------------------------------------------------------- with compression

  /** Width and height of a block that the mode of a word aligns to, and the alignment of its headers. */
  function BlockWidth(word: bv64, usage: bv64): nat {
    if word & 0x1_0000_0000_0000 != 0 then if word & 0x8_0000_0000 != 0 then 256 else 128
    else if usage & 0x4000_0000 != 0 then 64
    else if word & 0x8_0000_0000 != 0 then 32
    else 16
  }

  function BlockRows(word: bv64): nat {
    if word & 0x1_0000_0000_0000 != 0 then if word & 0x8_0000_0000 != 0 then 64 else 128 else 16
  }

  function HeaderBoundary(word: bv64): nat {
    if word & 0x1_0000_0000_0000 != 0 then 4096 else 1024
  }

  predicate IsCompressedWord(word: bv64) {
    word & 0xb_0000_0000 != 0
  }

  /** Padding, which the YUV formats do not have. */
  predicate IsPadded(word: bv64, usage: bv64) {
    word & 0x1_0000_0000_0000 == 0 && usage & 0x4000_0000 != 0
  }

  /** The mode of a word, by its bits. */
  lemma ModeByBits(word: bv64, usage: bv64, t: AllocType)
    requires IsCompressedWord(word) && DetermineAllocType(word, usage, Uncompressed) == Some(t)
    ensures t != Uncompressed && WidthAlign(t) == BlockWidth(word, usage) && HeightAlign(t) == BlockRows(word)
    ensures HeaderAlign(t) == HeaderBoundary(word) && (YuvAfbcType(t) <==> !IsPadded(word, usage))
  {
    EnableMaskIsThree(word);
  }

  /** The header area, for so many blocks of 16 by 16 pixels. */
  predicate IsHeaderArea(area: nat, blocks: nat, boundary: nat)
    requires boundary > 0
  {
    IsLeast(area, 16 * blocks, boundary)
  }

  /** The layout of a compressed buffer of `cols` by `rows` pixels, and of `area` bytes of headers.  A row of
      0x103 holds two rows of the picture. */
  predicate IsPacked(f: bv64, w: nat, h: nat, videoBuild: bool, l: Layout, cols: nat, rows: nat, chroma: nat,
                     area: nat) {
    var tall := Is420(f) || f == 0x103;
    && l.internalHeight == h + (if videoBuild && tall then 16 else 0)
    && (if RgbBytes(f) > 0 then
          && IsLeast(l.byteStride, cols * RgbBytes(f), 64) && IsQuotient(l.pixelStride, l.byteStride, RgbBytes(f))
          && l.size == l.byteStride * rows + area
        else
          && l.pixelStride == cols && l.byteStride == (if f == 0x106 then 2 * cols else cols)
          && (Is420(f) ==> IsLeast(chroma, cols / 2, 16) && l.size == (cols + chroma) * rows + area)
          && (f == 0x102 ==> l.size == 2 * (cols * rows) + area)
          && (f == 0x103 ==> l.size == 4 * (cols * rows) + area)
          && (f == 0x106 ==> l.size == 4 * (cols * rows) + area)
          && (Is420(f) || f == 0x102 || f == 0x103 || f == 0x106))
  }

  predicate IsTall(f: bv64) {
    Is420(f) || f == 0x103
  }

  lemma PackedRgb(f: bv64, w: nat, h: nat, t: AllocType, l: Layout, cols: nat, rows: nat, area: nat, stride: nat)
    requires RgbPixelSize(f) > 0 && t != Uncompressed && l == RgbLayout(w, h, RgbPixelSize(f), t)
    requires cols == Width(w, t) && rows == Height(h, t) && area == HeaderArea(HeaderEntries(cols, rows), t)
    requires stride == Align(Mul(cols, RgbPixelSize(f)), 64)
    ensures l.byteStride == stride && l.pixelStride == stride / RgbPixelSize(f) && l.internalHeight == h
    ensures l.size == Mul(stride, rows) + area
  {
  }

  lemma PackedRgbIs(f: bv64, w: nat, h: nat, videoBuild: bool, t: AllocType, l: Layout, cols: nat, rows: nat, area: nat)
    requires RgbPixelSize(f) > 0 && t != Uncompressed && l == RgbLayout(w, h, RgbPixelSize(f), t)
    requires cols == Width(w, t) && rows == Height(h, t) && area == HeaderArea(HeaderEntries(cols, rows), t)
    ensures IsPacked(f, w, h, videoBuild, l, cols, rows, 0, area)
  {
    var stride := Align(Mul(cols, RgbPixelSize(f)), 64);
    RgbByNumber(f);
    PackedRgb(f, w, h, t, l, cols, rows, area, stride);
    DivBounds(stride, RgbPixelSize(f));
  }

  /** The YUV formats that can be compressed, and the widths they need. */
  predicate YuvCompresses(f: bv64, w: nat) {
    Is420(f) || f == 0x102 || ((f == 0x103 || f == 0x106) && w % 4 == 0)
  }

  /** The layout of one of them. */
  predicate IsYuvLayout(f: bv64, w: nat, h: nat, t: AllocType, videoBuild: bool, l: Layout) {
    && YuvCompresses(f, w) && YuvAfbcType(t) && IsCompressedLayout(f, w, h, t, videoBuild, l)
    && RgbPixelSize(f) == 0 && (IsYuv420(f) <==> Is420(f))
  }

  lemma RowOf(wa: nat, k: nat)
    requires wa % 16 == 0
    ensures Align(k * wa, 16) == k * wa
  {
    DivMod(wa, 16);
    Associate(k, wa / 16, 16);
    MultipleMod(k * (wa / 16), 16);
    AlignOfMultiple(k * wa, 16);
  }

  lemma YuvStrides(f: bv64, w: nat, h: nat, t: AllocType, videoBuild: bool, l: Layout, wa: nat)
    requires IsYuvLayout(f, w, h, t, videoBuild, l) && wa == Width(w, t)
    requires Align(wa, 16) == wa && Align(2 * wa, 16) == 2 * wa
    ensures l.pixelStride == wa && l.byteStride == (if f == 0x106 then 2 * wa else wa)
    ensures l.internalHeight == h + (if videoBuild && IsTall(f) then 16 else 0)
  {
  }

  lemma TallSize(size: nat, row: nat, rows: nat, k: nat, wa: nat)
    requires row == k * wa && size == Mul(row, rows)
    ensures size == k * (wa * rows)
  {
    Associate(k, wa, rows);
  }

  lemma BodyByNumber(f: bv64, wa: nat, hb: nat, body: nat)
    requires (Is420(f) || f == 0x102 || f == 0x103 || f == 0x106) && body == BodyIn(f, wa, hb)
    ensures Is420(f) ==> body == Mul(wa + Align(wa / 2, 16), hb)
    ensures f == 0x102 ==> body == Mul(wa, hb) * 2
    ensures f == 0x103 ==> body == Mul(Align(4 * wa, 16), hb)
    ensures f == 0x106 ==> body == Mul(Align(2 * wa, 16), hb) * 2
  {
    RgbByNumber(f);
  }

  lemma YuvBody(f: bv64, wa: nat, hb: nat, chroma: nat, body: nat)
    requires (Is420(f) || f == 0x102 || f == 0x103 || f == 0x106) && body == BodyIn(f, wa, hb)
    requires wa % 16 == 0 && chroma == Align(wa / 2, 16)
    ensures Is420(f) ==> body == (wa + chroma) * hb
    ensures f == 0x102 ==> body == 2 * (wa * hb)
    ensures f == 0x103 || f == 0x106 ==> body == 4 * (wa * hb)
  {
    BodyByNumber(f, wa, hb, body);
    if f == 0x103 {
      RowOf(wa, 4);
      TallSize(body, 4 * wa, hb, 4, wa);
    } else if f == 0x106 {
      RowOf(wa, 2);
      TallSize(Mul(2 * wa, hb), 2 * wa, hb, 2, wa);
    }
  }

  lemma YuvSize(f: bv64, w: nat, h: nat, t: AllocType, videoBuild: bool, l: Layout, wa: nat, he: nat, hb: nat,
                area: nat, body: nat)
    requires IsYuvLayout(f, w, h, t, videoBuild, l) && wa == Width(w, t)
    requires he == EntryHeight(f, h, t, videoBuild) && hb == BodyHeight(f, h, t, videoBuild)
    requires area == HeaderArea(HeaderEntries(wa, he), t) && body == BodyIn(f, wa, hb)
    ensures l.size == area + body
  {
    SplitsByFormat(f, w, h, t, videoBuild, l, wa, he, hb);
  }

  lemma PackedYuvStrides(f: bv64, w: nat, h: nat, t: AllocType, videoBuild: bool, l: Layout, wa: nat)
    requires IsYuvLayout(f, w, h, t, videoBuild, l) && wa == Width(w, t)
    ensures l.pixelStride == wa && l.byteStride == (if f == 0x106 then 2 * wa else wa) && wa % 16 == 0
    ensures l.internalHeight == h + (if videoBuild && IsTall(f) then 16 else 0)
  {
    RowOf(wa, 1);
    RowOf(wa, 2);
    YuvStrides(f, w, h, t, videoBuild, l, wa);
  }

  lemma Assembled(f: bv64, w: nat, h: nat, videoBuild: bool, l: Layout, wa: nat, hb: nat, chroma: nat, area: nat,
                  body: nat)
    requires RgbBytes(f) == 0 && YuvCompresses(f, w) && IsLeast(chroma, wa / 2, 16)
    requires l.pixelStride == wa && l.byteStride == (if f == 0x106 then 2 * wa else wa)
    requires l.internalHeight == h + (if videoBuild && IsTall(f) then 16 else 0)
    requires Is420(f) ==> body == (wa + chroma) * hb
    requires f == 0x102 ==> body == 2 * (wa * hb)
    requires f == 0x103 || f == 0x106 ==> body == 4 * (wa * hb)
    requires l.size == area + body
    ensures IsPacked(f, w, h, videoBuild, l, wa, hb, chroma, area)
  {
  }

  lemma ChromaOf(wa: nat) returns (chroma: nat)
    ensures chroma == Align(wa / 2, 16) && IsLeast(chroma, wa / 2, 16)
  {
    chroma := Align(wa / 2, 16);
  }

  lemma PackedYuvIs(f: bv64, w: nat, h: nat, t: AllocType, videoBuild: bool, l: Layout, wa: nat, he: nat, hb: nat,
                    area: nat) returns (chroma: nat)
    requires IsYuvLayout(f, w, h, t, videoBuild, l) && wa == Width(w, t)
    requires he == EntryHeight(f, h, t, videoBuild) && hb == BodyHeight(f, h, t, videoBuild)
    requires area == HeaderArea(HeaderEntries(wa, he), t)
    ensures IsPacked(f, w, h, videoBuild, l, wa, hb, chroma, area)
  {
    var body := BodyIn(f, wa, hb);
    chroma := ChromaOf(wa);
    PackedYuvStrides(f, w, h, t, videoBuild, l, wa);
    YuvBody(f, wa, hb, chroma, body);
    YuvSize(f, w, h, t, videoBuild, l, wa, he, hb, area, body);
    RgbByNumber(f);
    Assembled(f, w, h, videoBuild, l, wa, hb, chroma, area, body);
  }

  /** The rows of the picture, with those that a build for a video decoder adds. */
  function PictureRows(f: bv64, h: nat, videoBuild: bool): nat {
    h + (if videoBuild && IsTall(f) then 16 else 0)
  }

  /** The values that a compressed layout is made of: whole blocks of columns and rows, of which 0x103 has
      half as many, and headers for all the blocks of 16 by 16 pixels, which for 0x103 are those of the
      picture as it is, rounded down. */
  predicate ArePackedValues(f: bv64, w: nat, h: nat, videoBuild: bool, blockWidth: nat, blockRows: nat, boundary: nat,
                            cols: nat, rows: nat, area: nat)
    requires blockWidth > 0 && blockRows > 0 && boundary > 0
  {
    var picture := PictureRows(f, h, videoBuild);
    && IsLeast(cols, w, blockWidth) && IsLeast(rows, if f == 0x103 then picture / 2 else picture, blockRows)
    && IsHeaderArea(area, Mul(cols, if f == 0x103 then picture else rows) / 256, boundary)
  }

  lemma HeightsByFormat(f: bv64, h: nat, t: AllocType, videoBuild: bool, he: nat, hb: nat)
    requires he == EntryHeight(f, h, t, videoBuild) && hb == BodyHeight(f, h, t, videoBuild)
    ensures he == if f == 0x103 then PictureRows(f, h, videoBuild) else hb
    ensures IsLeast(hb, if f == 0x103 then PictureRows(f, h, videoBuild) / 2 else PictureRows(f, h, videoBuild),
                    HeightAlign(t))
  {
    RgbByNumber(f);
  }

  lemma AreaOf(entries: nat, t: AllocType, area: nat)
    requires area == HeaderArea(entries, t)
    ensures IsHeaderArea(area, entries, HeaderAlign(t))
  {
  }

  lemma ColumnsOf(w: nat, t: AllocType, cols: nat)
    requires cols == Width(w, t)
    ensures IsLeast(cols, w, WidthAlign(t)) && cols % 16 == 0
  {
  }

  lemma PackedValues(f: bv64, w: nat, h: nat, t: AllocType, videoBuild: bool)
    returns (cols: nat, he: nat, rows: nat, area: nat)
    ensures cols == Width(w, t) && he == EntryHeight(f, h, t, videoBuild) && rows == BodyHeight(f, h, t, videoBuild)
    ensures area == HeaderArea(HeaderEntries(cols, he), t)
    ensures ArePackedValues(f, w, h, videoBuild, WidthAlign(t), HeightAlign(t), HeaderAlign(t), cols, rows, area)
  {
    cols, he, rows := Width(w, t), EntryHeight(f, h, t, videoBuild), BodyHeight(f, h, t, videoBuild);
    var entries := HeaderEntries(cols, he);
    area := HeaderArea(entries, t);
    HeightsByFormat(f, h, t, videoBuild, he, rows);
    ColumnsOf(w, t, cols);
    EntriesByPixels(cols, he, Mul(cols, he), entries);
    AreaOf(entries, t, area);
  }

  /** Every layout with compression, exactly, for a type. */
  lemma PackedForType(f: bv64, w: nat, h: nat, usage: bv64, t: AllocType, videoBuild: bool, before: Layout, l: Layout)
    returns (cols: nat, rows: nat, chroma: nat, area: nat)
    requires t != Uncompressed && LayoutFor(f, w, h, usage, t, videoBuild, before) == Some(l)
    ensures ArePackedValues(f, w, h, videoBuild, WidthAlign(t), HeightAlign(t), HeaderAlign(t), cols, rows, area)
    ensures IsPacked(f, w, h, videoBuild, l, cols, rows, chroma, area)
  {
    var he;
    cols, he, rows, area := PackedValues(f, w, h, t, videoBuild);
    CompressedLayout(f, w, h, usage, t, videoBuild, before, l);
    chroma := PackedByFormat(f, w, h, t, videoBuild, l, cols, he, rows, area);
  }

  lemma PackedByFormat(f: bv64, w: nat, h: nat, t: AllocType, videoBuild: bool, l: Layout, cols: nat, he: nat,
                       rows: nat,
                       area: nat) returns (chroma: nat)
    requires t != Uncompressed && IsCompressedLayout(f, w, h, t, videoBuild, l)
    requires cols == Width(w, t) && he == EntryHeight(f, h, t, videoBuild) && rows == BodyHeight(f, h, t, videoBuild)
    requires area == HeaderArea(HeaderEntries(cols, he), t)
    ensures IsPacked(f, w, h, videoBuild, l, cols, rows, chroma, area)
  {
    RgbByNumber(f);
    chroma := 0;
    if RgbPixelSize(f) > 0 {
      PackedRgbIs(f, w, h, videoBuild, t, l, cols, rows, area);
    } else {
      YuvIsCompressed(f, w, h, t, videoBuild, l);
      chroma := PackedYuvIs(f, w, h, t, videoBuild, l, cols, he, rows, area);
    }
  }

  lemma YuvIsCompressed(f: bv64, w: nat, h: nat, t: AllocType, videoBuild: bool, l: Layout)
    requires RgbPixelSize(f) == 0 && IsCompressedLayout(f, w, h, t, videoBuild, l)
    ensures IsYuvLayout(f, w, h, t, videoBuild, l)
  {
    RgbByNumber(f);
  }

  /** What a word gets: block sizes and boundaries are those of its bits. */
  lemma PackedExactly(word: bv64, w: nat, h: nat, usage: bv64, t: AllocType, videoBuild: bool, before: Layout,
                      l: Layout)
    returns (cols: nat, rows: nat, chroma: nat, area: nat)
    requires IsCompressedWord(word) && DetermineAllocType(word, usage, Uncompressed) == Some(t)
    requires LayoutFor(Base(word), w, h, usage, t, videoBuild, before) == Some(l)
    ensures ArePackedValues(Base(word), w, h, videoBuild, BlockWidth(word, usage), BlockRows(word),
                            HeaderBoundary(word), cols, rows, area)
    ensures IsPacked(Base(word), w, h, videoBuild, l, cols, rows, chroma, area)
  {
    ModeByBits(word, usage, t);
    cols, rows, chroma, area := PackedForType(Base(word), w, h, usage, t, videoBuild, before, l);
  }

  /** What is accepted with compression: RGB in every mode, and the YUV formats that can be compressed in
      every mode without padding. */
  lemma PackedAcceptedExactly(f: bv64, w: nat, h: nat, usage: bv64, t: AllocType, videoBuild: bool, before: Layout)
    requires t != Uncompressed
    ensures LayoutFor(f, w, h, usage, t, videoBuild, before).Some?
      <==> RgbBytes(f) > 0 || (YuvCompresses(f, w) && t != AfbcPadded)
  {
    RgbByNumber(f);
  }

  /** A word has no layout for its mode if and only if it has tiled headers and neither wide nor 16x16
      blocks; a word without a mode keeps the type that is brought along. */
  lemma ModeRejectedExactly(word: bv64, usage: bv64, current: AllocType)
    requires current == Uncompressed
    ensures IsCompressedWord(word) ==>
      (DetermineAllocType(word, usage, current) == None ==>
         word & 0x1_0000_0000_0000 != 0 && word & 0x9_0000_0000 == 0)
      && (word & 0x1_0000_0000_0000 != 0 && word & 0x9_0000_0000 == 0 ==>
            DetermineAllocType(word, usage, current) == None)
    ensures !IsCompressedWord(word) ==> DetermineAllocType(word, usage, current) == Some(current)
  {
    EnableMaskIsThree(word);
  }

  /** The size of an allocation: that of the layout, or as many times over as there are layers, each of a
      compressed buffer filled up to the boundary of its headers. */
  lemma LayersExactly(size: nat, word: bv64, layers: nat) returns (each: nat)
    ensures layers > 1 ==> AllocatedSize(size, word, layers) == each * layers
    ensures layers <= 1 ==> AllocatedSize(size, word, layers) == size
    ensures if IsCompressedWord(word) then IsLeast(each, size, if word & 0x1_0000_0000_0000 != 0 then 4096 else 128)
            else each == size
  {
    each := LayerSize(size, word);
  }

  // ---------------------------------------------------------------- what decodes and what allocates

  /** The base formats that decode, by their numbers, are those that have a layout, compressed or not, but
      for 0x11, 0x14 and 43; and two that have none, Y8 and Y16. */
  lemma RecognisedExactly(f: bv64)
    ensures Recognised(f) <==>
      || f == 0x2020_3859 || f == 0x2036_3159
      || (f != 0x11 && f != 0x14 && f != 43
          && (RgbBytes(f) > 0 || Is420(f) || IsCamera(f) || RowBytes(f) > 0 || f == 0x102))
    ensures MapFlex(f) == if f == 0x22 || f == 0x23 then 0x100 else f
  {
  }

  /** Y8 and Y16 decode, and are never allocated. */
  lemma GreyNeverAllocates(f: bv64, w: nat, h: nat, usage: bv64, t: AllocType, videoBuild: bool, before: Layout)
    requires f == 0x2020_3859 || f == 0x2036_3159
    ensures DecodeWord(f) == f && LayoutFor(f, w, h, usage, t, videoBuild, before).None?
  {
    RgbByNumber(f);
  }
}
