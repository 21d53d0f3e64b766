/** Strides and sizes in hal/gralloc/mali_gralloc_bufferallocation.cpp, and the AFBC headers that
    hal/gralloc/mali_gralloc_ion.cpp writes into the buffers so sized. */
module BufferAllocation {
  import opened Arith
  import opened Bits
  import opened FormatWord
  import opened FormatSelect
  import opened Options

  // ---------------------------------------------------------------- alignment

  /** GRALLOC_ALIGN: the least multiple of `base` that is at least v. */
  function Align(v: nat, base: nat): (r: nat)
    requires base > 0
    ensures v <= r < v + base && r % base == 0
  {
    var x := v + base - 1;
    MaskedOff(x, base);
    x - x % base
  }

  lemma MaskedOff(x: nat, base: nat)
    requires base > 0
    ensures 0 <= x % base < base && (x - x % base) % base == 0
  {
    DivMod(x, base);
    MultipleMod(x / base, base);
  }

  /** No smaller multiple is at least v. */
  lemma AlignIsLeast(v: nat, base: nat, r: nat)
    requires base > 0 && v <= r && r % base == 0
    ensures Align(v, base) <= r
  {
    var a := Align(v, base);
    DivMod(a, base); DivMod(r, base);
    if r / base < a / base { MulLeq(r / base + 1, a / base, base); }
    MulLeq(a / base, r / base, base);
  }

  lemma MultipleMod(q: int, d: int)
    requires d > 0
    ensures q * d % d == 0
  {
    DivExact(q, d);
    DivMod(q * d, d);
  }

  /** GRALLOC_ALIGN as the macro writes it, on words of w bits: (v + (base - 1)) & ~(base - 1). */
  function AlignMacro(v: nat, base: nat, w: nat): nat
    requires 0 < base <= Pow2(w)
  {
    And((v + (base - 1)) % Pow2(w), Pow2(w) - 1 - (base - 1))
  }

  lemma NoWrap(x: nat, word: nat)
    requires x < word
    ensures x % word == x
  {
  }

  lemma MaskedWord(x: nat, w: nat, k: nat, base: nat)
    requires k <= w && base == Pow2(k) && x < Pow2(w)
    ensures base <= Pow2(w) && And(x % Pow2(w), Pow2(w) - 1 - (base - 1)) == x - x % base
  {
    PowOrder(k, w);
    NoWrap(x, Pow2(w));
    AndUpperBits(x, w, k);
  }

  /** For a power of two, and unless the sum overflows, the macro is Align. */
  lemma MacroAligns(v: nat, w: nat, k: nat, base: nat)
    requires k <= w && base == Pow2(k) && v + (base - 1) < Pow2(w)
    ensures base <= Pow2(w) && AlignMacro(v, base, w) == Align(v, base)
  {
    MaskedWord(v + (base - 1), w, k, base);
  }

  lemma BasesArePowers()
    ensures Pow2(1) == 2 && Pow2(4) == 16 && Pow2(5) == 32 && Pow2(6) == 64 && Pow2(7) == 128
    ensures Pow2(8) == 256 && Pow2(10) == 1024 && Pow2(12) == 4096
  {
    assert Pow2(4) == 16;
    assert Pow2(8) == 256;
  }

  /** The bases that the code aligns to. */
  predicate IsBase(base: nat) {
    base == 2 || base == 16 || base == 32 || base == 64 || base == 128 || base == 256 || base == 1024 || base == 4096
  }

  /** In particular it is for all of these. */
  lemma MacroAlignsBases(v: nat, w: nat, base: nat)
    requires IsBase(base) && 12 <= w && v + (base - 1) < Pow2(w)
    ensures base <= Pow2(w) && AlignMacro(v, base, w) == Align(v, base)
  {
    BasesArePowers();
    var k := if base == 2 then 1 else if base == 16 then 4 else if base == 32 then 5 else if base == 64 then 6
             else if base == 128 then 7 else if base == 256 then 8 else if base == 1024 then 10 else 12;
    MacroAligns(v, w, k, base);
  }

  // ---------------------------------------------------------------- the type of an allocation

  datatype AllocType = Uncompressed | Afbc | AfbcWideblk | AfbcPadded | AfbcTiledBasic | AfbcTiledWideblk

  /** The AFBC type of a format word; None is the rejection of split blocks with tiled headers. */
  function DetermineAllocType(word: bv64, usage: bv64, current: AllocType): Option<AllocType> {
    if word & AFBCENABLE_MASK == 0 then Some(current)
    else if word & AFBC_TILED_HEADERS != 0 then
      if word & AFBC_WIDEBLK != 0 then Some(AfbcTiledWideblk)
      else if word & AFBC_BASIC != 0 then Some(AfbcTiledBasic)
      else if word & AFBC_SPLITBLK != 0 then None
      else Some(current)
    else if Has(usage, AFBC_PADDING) then Some(AfbcPadded)
    else if word & AFBC_WIDEBLK != 0 then Some(AfbcWideblk)
    else Some(Afbc)
  }

  lemma EnableMaskIsThree(word: bv64)
    ensures word & AFBCENABLE_MASK == 0 <==>
      word & AFBC_BASIC == 0 && word & AFBC_SPLITBLK == 0 && word & AFBC_WIDEBLK == 0
  {
  }

  lemma NoModifiersNoAfbc(word: bv64)
    requires Modifiers(word) == 0
    ensures word & AFBCENABLE_MASK == 0
  {
  }

  /** For a word with at most one of the three AFBC modes, the rejection is exactly split blocks with
      tiled headers. */
  lemma RejectedExactly(word: bv64, usage: bv64, current: AllocType)
    requires word & AFBC_SPLITBLK != 0 ==> word & AFBC_BASIC == 0 && word & AFBC_WIDEBLK == 0
    ensures DetermineAllocType(word, usage, current).None?
      <==> word & AFBC_SPLITBLK != 0 && word & AFBC_TILED_HEADERS != 0
  {
    EnableMaskIsThree(word);
  }

  /** A word selected by usage is never rejected for its AFBC mode, and a format without compression
      stays uncompressed; so for one descriptor neither rejection can be reached on the usage path. */
  lemma SelectedWordsAllocate(request: bv64, usage: bv64, afbcAllowed: bool, caps: Caps)
    requires IsHalFormat(request) && !Has(usage, PRIVATE_FORMAT)
    ensures var word := SelectFormat(request, Usage, usage, afbcAllowed, caps);
      && DetermineAllocType(word, usage, Uncompressed).Some?
      && (!IsAfbcSupported(MapFlex(request)) ==> DetermineAllocType(word, usage, Uncompressed) == Some(Uncompressed))
  {
    var word := SelectFormat(request, Usage, usage, afbcAllowed, caps);
    SelectionIsSound(request, usage, afbcAllowed, caps);
    if word != 0 { RejectedExactly(word, usage, Uncompressed); }
    if Modifiers(word) == 0 { NoModifiersNoAfbc(word); }
  }

  /** A private format can be rejected: split blocks with tiled headers decode. */
  lemma PrivateFormatCanBeRejected()
    ensures var word := DecodeInternalFormat(0x0001_0002_0000_0001, Internal);
      word != 0 && DetermineAllocType(word, 0, Uncompressed).None?
  {
  }

  // ---------------------------------------------------------------- AFBC geometry

  function WidthAlign(t: AllocType): nat {
    match t
    case AfbcTiledBasic => 128
    case AfbcTiledWideblk => 256
    case AfbcPadded => 64
    case AfbcWideblk => 32
    case _ => 16
  }

  function HeightAlign(t: AllocType): nat {
    match t
    case AfbcTiledBasic => 128
    case AfbcTiledWideblk => 64
    case _ => 16
  }

  /** The alignment of the header area: 1024 bytes, or 4 times that with tiled headers. */
  function HeaderAlign(t: AllocType): nat {
    if t == AfbcTiledBasic || t == AfbcTiledWideblk then 4096 else 1024
  }

  /** `w / 16 * h / 16`, as C groups it. */
  function HeaderEntries(w: nat, h: nat): nat {
    MulLeq(0, w / 16, h);
    w / 16 * h / 16
  }

  function HeaderArea(entries: nat, t: AllocType): nat {
    Align(entries * 16, HeaderAlign(t))
  }

  predicate Wide(t: AllocType) {
    t == AfbcTiledWideblk || t == AfbcWideblk
  }

  /** The superblocks of a frame: 32 by 8 pixels in the wide-block modes, else 16 by 16. */
  function Superblocks(w: nat, h: nat, t: AllocType): nat {
    MulLeq(0, w / 32, h / 8); MulLeq(0, w / 16, h / 16);
    if Wide(t) then (w / 32) * (h / 8) else (w / 16) * (h / 16)
  }

  /** On aligned dimensions there is one header entry per superblock: w * h / 256 of them, exactly. */
  lemma EntriesAreSuperblocks(w: nat, h: nat, t: AllocType)
    requires w % 32 == 0 || (w % 16 == 0 && !Wide(t))
    requires h % 16 == 0
    ensures HeaderEntries(w, h) * 256 == w * h && HeaderEntries(w, h) == Superblocks(w, h, t)
  {
    var a, b := w / 16, h / 16;
    assert w == 16 * a && h == 16 * b;
    assert a * h == (a * b) * 16;
    DivExact(a * b, 16);
    assert w * h == (a * b) * 256;
    if Wide(t) {
      var c, d := w / 32, h / 8;
      assert a == 2 * c && d == 2 * b;
      assert c * d == (2 * c) * b;
    }
  }

  /** A multiple of `base` is a multiple of each of its divisors. */
  lemma FinerMultiple(r: nat, base: nat, d: nat)
    requires base > 0 && d > 0 && base % d == 0 && r % base == 0
    ensures r % d == 0
  {
    DivMod(base, d); DivMod(r, base);
    assert r == (r / base * (base / d)) * d;
    MultipleMod(r / base * (base / d), d);
  }

  // ---------------------------------------------------------------- strides and sizes

  /** What an allocation fills in of its descriptor. */
  datatype Layout = Layout(pixelStride: nat, byteStride: nat, size: nat, internalHeight: nat)

  /** The width, in pixels, of what an AFBC mode allocates. */
  function Width(w: nat, t: AllocType): (r: nat)
    ensures w <= r && r % 16 == 0 && (Wide(t) ==> r % 32 == 0)
  {
    var r := Align(w, WidthAlign(t));
    FinerMultiple(r, WidthAlign(t), 16);
    FinerMultiple(r, WidthAlign(t), if Wide(t) then 32 else 16);
    r
  }

  function Height(h: nat, t: AllocType): (r: nat)
    ensures h <= r && r % 16 == 0
  {
    var r := Align(h, HeightAlign(t));
    FinerMultiple(r, HeightAlign(t), 16);
    r
  }

  function Mul(a: nat, b: nat): (r: nat)
    ensures r == a * b
  {
    MulLeq(0, a, b);
    a * b
  }

  /** get_rgb_stride_and_size */
  function RgbLayout(w: nat, h: nat, pixelSize: nat, t: AllocType): Layout
    requires pixelSize > 0
  {
    if t == Uncompressed then
      var stride := Align(Mul(w, pixelSize), 64);
      DivAtLeast(stride, 0, pixelSize);
      Layout(stride / pixelSize, stride, Mul(stride, h), h)
    else
      var wa, ha := Width(w, t), Height(h, t);
      var stride := Align(Mul(wa, pixelSize), 64);
      DivAtLeast(stride, 0, pixelSize);
      Layout(stride / pixelSize, stride, Mul(stride, ha) + HeaderArea(HeaderEntries(wa, ha), t), h)
  }

  /** The AFBC formats of YUV: no padded mode, and no layout without compression. */
  predicate YuvAfbcType(t: AllocType) {
    t != Uncompressed && t != AfbcPadded
  }

  /** A build for a video decoder adds a row of blocks to the height of 4:2:0 buffers. */
  function InternalHeight(h: nat, videoBuild: bool): nat {
    if videoBuild then h + 16 else h
  }

  /** get_afbc_yuv420_8bit_stride_and_size */
  function AfbcYuv420Layout(w: nat, h: nat, t: AllocType, videoBuild: bool): Option<Layout> {
    if !YuvAfbcType(t) then None
    else
      var wa, ha := Width(w, t), Height(InternalHeight(h, videoBuild), t);
      Some(Layout(wa, wa, Mul(wa + Align(wa / 2, 16), ha) + HeaderArea(HeaderEntries(wa, ha), t),
                  InternalHeight(h, videoBuild)))
  }

  /** get_yv12_stride_and_size without compression. */
  function Yuv420Layout(w: nat, h: nat, strideAlign: nat): Layout
    requires strideAlign > 0
  {
    var luma := Align(w, strideAlign);
    Layout(luma, luma, Mul(Align(h, 2), luma + Align(luma / 2, strideAlign)), h)
  }

  /** get_afbc_yuv422_8bit_stride_and_size */
  function AfbcYuv422Layout(w: nat, h: nat, t: AllocType): Option<Layout> {
    if !YuvAfbcType(t) then None
    else
      var wa, ha := Width(w, t), Height(h, t);
      Some(Layout(wa, wa, Mul(wa, ha) * 2 + HeaderArea(HeaderEntries(wa, ha), t), h))
  }

  /** get_yuv422_10bit_afbc_stride_and_size */
  function AfbcYuv422TenBitLayout(w: nat, h: nat, t: AllocType): Option<Layout> {
    if w % 4 != 0 || !YuvAfbcType(t) then None
    else
      var wa, ha := Width(w, t), Height(h, t);
      Some(Layout(Align(wa, 16), Align(2 * wa, 16),
                  Mul(Align(2 * wa, 16), ha) * 2 + HeaderArea(HeaderEntries(wa, ha), t), h))
  }

  /** get_yuv420_10bit_afbc_stride_and_size: the entries are of the internal height as it is. */
  function AfbcYuv420TenBitLayout(w: nat, h: nat, t: AllocType, videoBuild: bool): Option<Layout> {
    if w % 4 != 0 || !YuvAfbcType(t) then None
    else
      var wa, internal := Width(w, t), InternalHeight(h, videoBuild);
      var ha := Height(internal / 2, t);
      Some(Layout(Align(wa, 16), Align(wa, 16),
                  Mul(Align(4 * wa, 16), ha) + HeaderArea(HeaderEntries(wa, internal), t), internal))
  }

  /** get_yuv422_8bit_stride_and_size, get_yuv_y210_stride_and_size and get_yuv_y410_stride_and_size:
      packed pixels of so many bytes. */
  function PackedLayout(w: nat, h: nat, bytes: nat): Layout {
    var stride := Align(Mul(w, bytes), 128);
    Layout(Align(w, 128), stride, Mul(stride, h), h)
  }

  /** get_yuv_y0l2_stride_and_size: a stride covers two rows. */
  function Y0l2Layout(w: nat, h: nat): Layout {
    var stride := Align(Mul(w, 4), 128);
    Layout(Align(w, 128), stride, Mul(stride, Align(h, 2)) / 2, h)
  }

  /** get_yuv_pX10_stride_and_size: 16-bit luma, and chroma of as wide a stride for one row in `vss`. */
  function PX10Layout(w: nat, h: nat, vss: nat): Layout
    requires vss == 1 || vss == 2
  {
    var rows := if vss == 2 then Align(h, 2) else h;
    var stride := Align(Mul(w, 2), 128);
    Layout(Align(w, 128), stride, Mul(stride, rows) + Mul(stride, rows / vss), h)
  }

  /** get_camera_formats_stride_and_size; the stride is in pixels for RAW16, else in bytes. */
  function CameraLayout(w: nat, h: nat, f: bv64): Option<Layout> {
    if f == RAW16 then var stride := Align(w, 16); Some(Layout(stride, stride, Mul(stride, h) * 2, h))
    else if f == RAW12 then
      if w % 4 != 0 then None else var stride := w / 2 * 3; Some(Layout(stride, stride, Mul(stride, h), h))
    else if f == RAW10 then
      if w % 4 != 0 then None else var stride := w / 4 * 5; Some(Layout(stride, stride, Mul(stride, h), h))
    else if f == BLOB && h == 1 then Some(Layout(0, 0, w, h))
    else None
  }

  /** The base formats whose pixels are RGB, and their pixel sizes; 43 is RGBA_1010102. */
  function RgbPixelSize(f: bv64): nat {
    if f == 43 || f == RGBA_8888 || f == RGBX_8888 || f == BGRA_8888 then 4
    else if f == RGB_888 then 3
    else if f == RGB_565 then 2
    else 0
  }

  predicate IsYuv420(f: bv64) {
    f == YCrCb_420_SP || f == YV12 || f == NV12 || f == NV21
  }

  function StrideAlign(usage: bv64): nat {
    if Has(usage, SW_MASK) then 16 else 128
  }

  /** The switch of mali_gralloc_buffer_allocate on the base format; None is -EINVAL.  For the camera
      formats the source ignores a failure and keeps the stride and the size the descriptor held. */
  function LayoutFor(f: bv64, w: nat, h: nat, usage: bv64, t: AllocType, videoBuild: bool,
                     before: Layout): Option<Layout> {
    if RgbPixelSize(f) > 0 then Some(RgbLayout(w, h, RgbPixelSize(f), t))
    else if IsYuv420(f) then
      if t == Uncompressed then Some(Yuv420Layout(w, h, StrideAlign(usage))) else AfbcYuv420Layout(w, h, t, videoBuild)
    else if f == RAW16 || f == RAW12 || f == RAW10 || f == BLOB then
      if t != Uncompressed then None
      else if CameraLayout(w, h, f).Some? then CameraLayout(w, h, f)
      else Some(before.(byteStride := before.pixelStride, internalHeight := h))
    else if f == Y0L2 then
      if t == Uncompressed then Some(Y0l2Layout(w, h)) else AfbcYuv420TenBitLayout(w, h, t, videoBuild)
    else if f == Y210 then
      if t == Uncompressed then Some(PackedLayout(w, h, 4)) else AfbcYuv422TenBitLayout(w, h, t)
    else if f == YUV422_8BIT then AfbcYuv422Layout(w, h, t)
    else if f == YCbCr_422_I then if t == Uncompressed then Some(PackedLayout(w, h, 2)) else None
    else if f == P010 then if t == Uncompressed then Some(PX10Layout(w, h, 2)) else None
    else if f == P210 then if t == Uncompressed then Some(PX10Layout(w, h, 1)) else None
    else if f == Y410 then if t == Uncompressed then Some(PackedLayout(w, h, 4)) else None
    else None
  }

  // ---------------------------------------------------------------- AFBC buffers

  /** The height whose header entries a layout counts. */
  function EntryHeight(f: bv64, h: nat, t: AllocType, videoBuild: bool): (r: nat)
    ensures h <= r
  {
    if f == Y0L2 then InternalHeight(h, videoBuild)
    else if IsYuv420(f) then Height(InternalHeight(h, videoBuild), t)
    else Height(h, t)
  }

  /** The header entries a layout counts. */
  function EntriesOf(f: bv64, w: nat, h: nat, t: AllocType, videoBuild: bool): nat {
    HeaderEntries(Width(w, t), EntryHeight(f, h, t, videoBuild))
  }

  /** The bytes behind the headers, for aligned dimensions. */
  function BodyIn(f: bv64, wa: nat, ha: nat): nat {
    if RgbPixelSize(f) > 0 then Mul(Align(Mul(wa, RgbPixelSize(f)), 64), ha)
    else if IsYuv420(f) then Mul(wa + Align(wa / 2, 16), ha)
    else if f == Y0L2 then Mul(Align(4 * wa, 16), ha)
    else if f == Y210 then Mul(Align(2 * wa, 16), ha) * 2
    else Mul(wa, ha) * 2
  }

  /** A row of the body of a 10-bit 4:2:0 buffer holds two rows of pixels. */
  function BodyHeight(f: bv64, h: nat, t: AllocType, videoBuild: bool): nat {
    if f == Y0L2 then Height(InternalHeight(h, videoBuild) / 2, t) else EntryHeight(f, h, t, videoBuild)
  }

  function BodyOf(f: bv64, w: nat, h: nat, t: AllocType, videoBuild: bool): nat {
    BodyIn(f, Width(w, t), BodyHeight(f, h, t, videoBuild))
  }

  /** AFBC sizing.  Every compressed buffer is an aligned header area and a body. */
  lemma AfbcSizing(f: bv64, w: nat, h: nat, usage: bv64, t: AllocType, videoBuild: bool, before: Layout)
    requires t != Uncompressed
    ensures LayoutFor(f, w, h, usage, t, videoBuild, before).Some? ==>
      LayoutFor(f, w, h, usage, t, videoBuild, before).value.size
      == HeaderArea(EntriesOf(f, w, h, t, videoBuild), t) + BodyOf(f, w, h, t, videoBuild)
  {
    var layout := LayoutFor(f, w, h, usage, t, videoBuild, before);
    if layout.Some? {
      SizeSplits(f, w, h, usage, t, videoBuild, before, layout.value);
    }
  }

  /** The layout that a compressed buffer of a format gets. */
  predicate IsCompressedLayout(f: bv64, w: nat, h: nat, t: AllocType, videoBuild: bool, layout: Layout) {
    if RgbPixelSize(f) > 0 then t != Uncompressed && layout == RgbLayout(w, h, RgbPixelSize(f), t)
    else if IsYuv420(f) then AfbcYuv420Layout(w, h, t, videoBuild) == Some(layout)
    else if f == Y0L2 then AfbcYuv420TenBitLayout(w, h, t, videoBuild) == Some(layout)
    else if f == Y210 then AfbcYuv422TenBitLayout(w, h, t) == Some(layout)
    else f == YUV422_8BIT && AfbcYuv422Layout(w, h, t) == Some(layout)
  }

  lemma CompressedLayout(f: bv64, w: nat, h: nat, usage: bv64, t: AllocType, videoBuild: bool, before: Layout,
                         layout: Layout)
    requires t != Uncompressed && LayoutFor(f, w, h, usage, t, videoBuild, before) == Some(layout)
    ensures IsCompressedLayout(f, w, h, t, videoBuild, layout)
  {
  }

  lemma SizeSplits(f: bv64, w: nat, h: nat, usage: bv64, t: AllocType, videoBuild: bool, before: Layout, layout: Layout)
    requires t != Uncompressed && LayoutFor(f, w, h, usage, t, videoBuild, before) == Some(layout)
    ensures layout.size == HeaderArea(EntriesOf(f, w, h, t, videoBuild), t) + BodyOf(f, w, h, t, videoBuild)
  {
    CompressedLayout(f, w, h, usage, t, videoBuild, before, layout);
    SplitsByFormat(f, w, h, t, videoBuild, layout, Width(w, t), EntryHeight(f, h, t, videoBuild),
                   BodyHeight(f, h, t, videoBuild));
  }

  lemma SplitsByFormat(f: bv64, w: nat, h: nat, t: AllocType, videoBuild: bool, layout: Layout, wa: nat, he: nat,
                       hb: nat)
    requires wa == Width(w, t) && he == EntryHeight(f, h, t, videoBuild) && hb == BodyHeight(f, h, t, videoBuild)
    requires IsCompressedLayout(f, w, h, t, videoBuild, layout)
    ensures layout.size == HeaderArea(HeaderEntries(wa, he), t) + BodyIn(f, wa, hb)
  {
    if RgbPixelSize(f) > 0 {
    } else if IsYuv420(f) {
    } else if f == Y0L2 {
    } else if f == Y210 {
    }
  }

  /** Its header area ends on the boundary the body needs; and except for the 10-bit 4:2:0 format, its
      header entries are one per superblock of the aligned dimensions, w * h / 256 exactly. */
  lemma AfbcHeaders(f: bv64, w: nat, h: nat, t: AllocType, videoBuild: bool)
    ensures HeaderArea(EntriesOf(f, w, h, t, videoBuild), t) % HeaderAlign(t) == 0
    ensures f != Y0L2 ==>
      var ha := EntryHeight(f, h, t, videoBuild);
      && EntriesOf(f, w, h, t, videoBuild) * 256 == Width(w, t) * ha
      && EntriesOf(f, w, h, t, videoBuild) == Superblocks(Width(w, t), ha, t)
  {
    if f != Y0L2 { EntriesAreSuperblocks(Width(w, t), EntryHeight(f, h, t, videoBuild), t); }
  }

  // ---------------------------------------------------------------- headers of 10-bit 4:2:0 buffers

  function BlockHeight(t: AllocType): nat {
    if Wide(t) then 8 else 16
  }

  /** The superblocks it takes to cover w by h pixels, w being a multiple of their width. */
  function BlocksCovering(w: nat, h: nat, t: AllocType): nat {
    if Wide(t) then Mul(w / 32, (h + 7) / 8) else Mul(w / 16, (h + 15) / 16)
  }

  lemma RoundedUp(h: nat, n: nat, rows: nat)
    requires n > 0 && rows == (h + n - 1) / n
    ensures h <= rows * n
    ensures h == rows * n <==> h % n == 0
  {
    DivMod(h + n - 1, n);
    if h == rows * n { MultipleMod(rows, n); }
    if h % n == 0 {
      DivMod(h, n);
      DivUnique(h + n - 1, h / n, n);
    }
  }

  lemma Regroup(a: nat, b: nat, c: nat)
    ensures a * b * c == b * c * a
  {
  }

  lemma PartialRows(blocks: nat, h: nat, n: nat, rows: nat)
    requires n > 0 && h <= rows * n
    ensures blocks * h / n <= blocks * rows
    ensures blocks * h / n == blocks * rows <==> blocks == 0 || h == rows * n
  {
    Regroup(blocks, rows, n);
    DivExact(blocks * rows, n);
    MulLeq(h, rows * n, blocks);
    DivLeq(h * blocks, rows * n * blocks, n);
    if blocks > 0 && h < rows * n {
      MulLess(h, rows * n, blocks);
      DivMod(h * blocks, n);
    }
  }

  lemma RowsOfBlocks(blocks: nat, h: nat, n: nat)
    requires n > 0
    ensures blocks * h / n <= blocks * ((h + n - 1) / n)
    ensures blocks * h / n == blocks * ((h + n - 1) / n) <==> blocks == 0 || h % n == 0
  {
    RoundedUp(h, n, (h + n - 1) / n);
    PartialRows(blocks, h, n, (h + n - 1) / n);
  }

  lemma EntriesByBlocks(wa: nat, h: nat, t: AllocType)
    requires wa % 32 == 0 || (wa % 16 == 0 && !Wide(t))
    ensures HeaderEntries(wa, h) == if Wide(t) then wa / 32 * h / 8 else wa / 16 * h / 16
  {
    if Wide(t) {
      var c := wa / 32;
      assert wa / 16 == 2 * c && 2 * c * h == 2 * (c * h);
    }
  }

  lemma TenBitEntries(wa: nat, internal: nat, t: AllocType)
    requires wa % 32 == 0 || (wa % 16 == 0 && !Wide(t))
    ensures HeaderEntries(wa, internal) <= BlocksCovering(wa, internal, t)
    ensures HeaderEntries(wa, internal) == BlocksCovering(wa, internal, t)
      <==> wa == 0 || internal % BlockHeight(t) == 0
  {
    EntriesByBlocks(wa, internal, t);
    if Wide(t) { RowsOfBlocks(wa / 32, internal, 8); } else { RowsOfBlocks(wa / 16, internal, 16); }
  }

  lemma SameRest(h: nat, d: nat, n: nat)
    requires d > 0
    ensures (h + n * d) % d == h % d
  {
    DivMod(h, d);
    DivUnique(h + n * d, h / d + n, d);
    DivMod(h + n * d, d);
  }

  lemma ExtraRowOfBlocks(h: nat, t: AllocType, videoBuild: bool)
    ensures InternalHeight(h, videoBuild) % BlockHeight(t) == 0 <==> h % BlockHeight(t) == 0
  {
    SameRest(h, 8, 2);
    SameRest(h, 16, 1);
  }

  lemma NoWidth(w: nat, t: AllocType)
    ensures Width(w, t) == 0 <==> w == 0
  {
    AlignOfMultiple(0, WidthAlign(t));
  }

  /** The layout of 10-bit 4:2:0 counts header entries for the internal height as it is.  They are one
      per superblock if and only if there is no width or the height is a multiple of a block's; at any
      other height there are fewer entries than superblocks. */
  lemma TenBitEntriesExactly(w: nat, h: nat, t: AllocType, videoBuild: bool, entries: nat, blocks: nat)
    requires entries == EntriesOf(Y0L2, w, h, t, videoBuild)
    requires blocks == BlocksCovering(Width(w, t), InternalHeight(h, videoBuild), t)
    ensures entries <= blocks
    ensures entries == blocks <==> w == 0 || h % BlockHeight(t) == 0
  {
    NoWidth(w, t);
    ExtraRowOfBlocks(h, t, videoBuild);
    TenBitEntries(Width(w, t), InternalHeight(h, videoBuild), t);
  }

  /** Accepted buffers with fewer entries than superblocks: any width of pixels a multiple of 4, and a
      height that is not of whole blocks. */
  lemma EntriesMissing(w: nat, h: nat, usage: bv64, before: Layout, entries: nat, blocks: nat)
    requires w > 0 && w % 4 == 0 && h % 16 != 0
    requires entries == EntriesOf(Y0L2, w, h, Afbc, false) && blocks == BlocksCovering(Width(w, Afbc), h, Afbc)
    ensures LayoutFor(Y0L2, w, h, usage, Afbc, false, before).Some? && entries < blocks
  {
    TenBitEntriesExactly(w, h, Afbc, false, entries, blocks);
  }

  /** One of them: 16 by 8 pixels. */
  lemma EntriesMissingAt8(usage: bv64, before: Layout)
    ensures LayoutFor(Y0L2, 16, 8, usage, Afbc, false, before).Some?
    ensures EntriesOf(Y0L2, 16, 8, Afbc, false) < BlocksCovering(Width(16, Afbc), 8, Afbc)
  {
    EntriesMissing(16, 8, usage, before, EntriesOf(Y0L2, 16, 8, Afbc, false), BlocksCovering(Width(16, Afbc), 8, Afbc));
  }

  // ---------------------------------------------------------------- the dimensions of a mode

  /** The dimensions allocated suit the mode of the word: they are multiples of its superblocks, and
      with tiled headers of its 8 by 8 tiles of them, and only then is the header area aligned to 4096. */
  lemma TypeSuitsWord(word: bv64, usage: bv64, w: nat, h: nat, t: AllocType)
    requires word & AFBCENABLE_MASK != 0 && DetermineAllocType(word, usage, Uncompressed) == Some(t)
    ensures t != Uncompressed
    ensures Width(w, t) % (if word & AFBC_WIDEBLK != 0 then 32 else 16) == 0
    ensures Height(h, t) % (if word & AFBC_WIDEBLK != 0 then 8 else 16) == 0
    ensures word & AFBC_TILED_HEADERS != 0 ==>
      && Width(w, t) % (8 * (if word & AFBC_WIDEBLK != 0 then 32 else 16)) == 0
      && Height(h, t) % (8 * (if word & AFBC_WIDEBLK != 0 then 8 else 16)) == 0
    ensures HeaderAlign(t) == 4096 <==> word & AFBC_TILED_HEADERS != 0
  {
    EnableMaskIsThree(word);
    var wide, tiled := word & AFBC_WIDEBLK != 0, word & AFBC_TILED_HEADERS != 0;
    TypeByFlags(word, usage, t, wide, tiled);
    DimensionsByFlags(w, h, t, wide, tiled);
  }

  lemma TypeByFlags(word: bv64, usage: bv64, t: AllocType, wide: bool, tiled: bool)
    requires word & AFBCENABLE_MASK != 0 && DetermineAllocType(word, usage, Uncompressed) == Some(t)
    requires wide == (word & AFBC_WIDEBLK != 0) && tiled == (word & AFBC_TILED_HEADERS != 0)
    ensures if tiled then t == (if wide then AfbcTiledWideblk else AfbcTiledBasic)
            else t == AfbcPadded || t == (if wide then AfbcWideblk else Afbc)
  {
    EnableMaskIsThree(word);
  }

  lemma DimensionsByFlags(w: nat, h: nat, t: AllocType, wide: bool, tiled: bool)
    requires if tiled then t == (if wide then AfbcTiledWideblk else AfbcTiledBasic)
             else t == AfbcPadded || t == (if wide then AfbcWideblk else Afbc)
    ensures Width(w, t) % (if wide then 32 else 16) == 0 && Height(h, t) % (if wide then 8 else 16) == 0
    ensures tiled ==> Width(w, t) % (if wide then 256 else 128) == 0 && Height(h, t) % (if wide then 64 else 128) == 0
  {
    FinerMultiple(Width(w, t), WidthAlign(t), if wide then 32 else 16);
    FinerMultiple(Height(h, t), HeightAlign(t), if wide then 8 else 16);
  }

  // ---------------------------------------------------------------- AFBC headers

  /** The headers init_afbc writes for a buffer of w by h pixels, as allocated for, not as aligned. */
  function HeadersWritten(w: nat, h: nat): nat {
    Mul(w, h) / 256
  }

  lemma HeadersBelowEntries(w: nat, h: nat, wa: nat, hh: nat)
    requires w <= wa && h <= hh && wa % 16 == 0
    ensures HeadersWritten(w, h) <= HeaderEntries(wa, hh)
  {
    var a, q := wa / 16, HeadersWritten(w, h);
    assert wa == 16 * a;
    MulLeq(w, wa, h); MulLeq(h, hh, wa);
    assert wa * hh == 16 * (a * hh);
    DivMod(w * h, 256);
    assert w * h <= wa * hh;
    DivAtLeast(a * hh, q, 16);
  }

  lemma HeadersCounted(f: bv64, w: nat, h: nat, t: AllocType, videoBuild: bool)
    ensures HeadersWritten(w, h) <= EntriesOf(f, w, h, t, videoBuild)
  {
    HeadersBelowEntries(w, h, Width(w, t), EntryHeight(f, h, t, videoBuild));
  }

  /** Every header init_afbc writes lies in the header area, for all compressed formats. */
  lemma HeadersFit(f: bv64, w: nat, h: nat, usage: bv64, t: AllocType, videoBuild: bool, before: Layout)
    requires t != Uncompressed
    ensures HeadersWritten(w, h) * 16 <= HeaderArea(EntriesOf(f, w, h, t, videoBuild), t)
    ensures LayoutFor(f, w, h, usage, t, videoBuild, before).Some? ==>
      HeaderArea(EntriesOf(f, w, h, t, videoBuild), t) <= LayoutFor(f, w, h, usage, t, videoBuild, before).value.size
  {
    HeadersCounted(f, w, h, t, videoBuild);
    AfbcSizing(f, w, h, usage, t, videoBuild, before);
  }

  /** One AFBC header: four 32-bit words. */
  datatype Header = Header(w0: nat, w1: nat, w2: nat, w3: nat)

  /** The formats whose headers are of layout 1; the others have layout 0. */
  predicate HasLayout1(word: bv64) {
    Base(word) == YV12 || Base(word) == NV12 || Base(word) == NV21
  }

  /** The header init_afbc repeats; with tiled headers that of layout 0 is all zero. */
  function InitialHeader(word: bv64, w: nat, h: nat): Header {
    var bodyOffset := HeadersWritten(w, h) * 16;
    if HasLayout1(word) then Header((bodyOffset + 0x1000_0000) % 0x1_0000_0000, 0x8020_0040, 0x100_4000, 0x2_0080)
    else if word & AFBC_TILED_HEADERS != 0 then Header(0, 0, 0, 0)
    else Header(bodyOffset % 0x1_0000_0000, 1, 0x1_0000, 0)
  }

  /** init_afbc, on a buffer seen as 16-byte headers. */
  method InitAfbc(buf: array<Header>, word: bv64, w: nat, h: nat)
    requires HeadersWritten(w, h) <= buf.Length
    modifies buf
    ensures forall i :: 0 <= i < w * h / 256 ==> i < buf.Length && buf[i] == InitialHeader(word, w, h)
    ensures forall i :: 0 <= w * h / 256 <= i < buf.Length ==> buf[i] == old(buf[i])
  {
    var nHeaders := w * h / 256;
    var header := InitialHeader(word, w, h);
    for i := 0 to nHeaders
      invariant forall k :: 0 <= k < i ==> buf[k] == header
      invariant forall k :: i <= k < buf.Length ==> buf[k] == old(buf[k])
    {
      buf[i] := header;
    }
  }

  lemma LayoutByNumber(f: bv64)
    ensures f == YV12 || f == NV12 || f == NV21 <==> f == 0x100 || f == 0x101 || f == 0x3231_5659
  {
  }

  lemma BaseByNumber(word: bv64)
    ensures Base(word) == word & 0xffff_ffff
  {
  }

  lemma LayoutsByNumber(word: bv64, f: bv64)
    requires f == Base(word)
    ensures HasLayout1(word) <==> f == 0x100 || f == 0x101 || f == 0x3231_5659
  {
    LayoutByNumber(f);
  }

  /** The words of a header behind the offset, by format. */
  lemma HeaderWords(word: bv64, w: nat, h: nat, header: Header, f: bv64)
    requires header == InitialHeader(word, w, h) && f == word & 0xffff_ffff
    ensures f == 0x100 || f == 0x101 || f == 0x3231_5659 ==>
      header.w1 == 0x8020_0040 && header.w2 == 0x100_4000 && header.w3 == 0x2_0080
    ensures f != 0x100 && f != 0x101 && f != 0x3231_5659 ==>
      if word & 0x1_0000_0000_0000 != 0 then header == Header(0, 0, 0, 0)
      else header.w1 == 0x1 && header.w2 == 0x1_0000 && header.w3 == 0x0
  {
    BaseByNumber(word);
    LayoutsByNumber(word, f);
  }

  // ---------------------------------------------------------------- the body offset

  /** The first word of a header that says where the body really starts, in 32 bits.  In layout 1 it
      carries a flag. */
  function OffsetWord(word: bv64, start: nat): nat {
    (start + if HasLayout1(word) then 0x1000_0000 else 0) % 0x1_0000_0000
  }

  /** The initial header holds no offset: with tiled headers, layout 0 is zeroed. */
  predicate HoldsNoOffset(word: bv64) {
    !HasLayout1(word) && word & AFBC_TILED_HEADERS != 0
  }

  /** How far the offset in the header is from a body that starts at `area`. */
  function OffsetGap(word: bv64, w: nat, h: nat, area: nat): int {
    if HoldsNoOffset(word) then area else area - HeadersWritten(w, h) * 16
  }

  /** The headers that fill a header area without padding come in multiples of this. */
  function PadBlocks(word: bv64): nat {
    if word & AFBC_TILED_HEADERS != 0 then 256 else 64
  }

  lemma Congruent(a: nat, b: nat, m: nat)
    requires a <= b && m > 0
    ensures a % m == b % m <==> (b - a) % m == 0
  {
    DivMod(a, m); DivMod(b, m); DivMod(b - a, m);
    if a % m == b % m {
      assert b - a == (b / m - a / m) * m;
      MultipleMod(b / m - a / m, m);
    }
    if (b - a) % m == 0 {
      var k := (b - a) / m;
      assert b == (a / m + k) * m + a % m;
      DivUnique(b, a / m + k, m);
    }
  }

  /** The word is right if and only if the gap is a multiple of 2^32. */
  lemma OffsetByGap(word: bv64, w: nat, h: nat, area: nat)
    requires HeadersWritten(w, h) * 16 <= area
    ensures InitialHeader(word, w, h).w0 == OffsetWord(word, area)
      <==> OffsetGap(word, w, h, area) % 0x1_0000_0000 == 0
  {
    var flag := if HasLayout1(word) then 0x1000_0000 else 0;
    if HoldsNoOffset(word) {
      Congruent(0, area, 0x1_0000_0000);
    } else {
      Congruent(HeadersWritten(w, h) * 16 + flag, area + flag, 0x1_0000_0000);
    }
  }

  lemma AreaExactly(entries: nat, base: nat, written: nat)
    requires written <= entries && base > 0
    ensures written * 16 == Align(entries * 16, base) <==> written == entries && entries * 16 % base == 0
  {
    if entries * 16 % base == 0 { AlignOfMultiple(entries * 16, base); }
  }

  lemma AreaEmpty(entries: nat, base: nat)
    requires base > 0
    ensures Align(entries * 16, base) == 0 <==> entries == 0
  {
    if entries == 0 { AlignOfMultiple(0, base); }
  }

  lemma Sixteenths(n: nat, base: nat, k: nat)
    requires base == 16 * k && k > 0
    ensures n * 16 % base == 0 <==> n % k == 0
  {
    DivMod(n, k); DivMod(n * 16, base);
    if n % k == 0 {
      assert n * 16 == n / k * base;
      MultipleMod(n / k, base);
    }
    if n * 16 % base == 0 {
      assert n * 16 == n * 16 / base * k * 16;
      MultipleMod(n * 16 / base, k);
    }
  }

  /** The entries that a layout counts are a 256th of the pixels that it allocates, rounded down. */
  lemma EntriesByPixels(wa: nat, he: nat, n: nat, entries: nat)
    requires wa % 16 == 0 && n == wa * he && entries == HeaderEntries(wa, he)
    ensures entries == n / 256
  {
    var a := wa / 16;
    assert wa == 16 * a;
    assert n == 16 * (a * he);
    DivMod(a * he, 16);
    DivUnique(n, a * he / 16, 256);
  }

  lemma GapOfArea(word: bv64, w: nat, h: nat, t: AllocType, written: nat, entries: nat, area: nat)
    requires written == HeadersWritten(w, h) && written <= entries && area == HeaderArea(entries, t)
    requires HeaderAlign(t) == 16 * PadBlocks(word)
    ensures OffsetGap(word, w, h, area) == 0 <==>
      if HoldsNoOffset(word) then entries == 0 else written == entries && written % PadBlocks(word) == 0
  {
    AreaEmpty(entries, HeaderAlign(t));
    AreaExactly(entries, HeaderAlign(t), written);
    Sixteenths(entries, HeaderAlign(t), PadBlocks(word));
  }

  lemma PadsByWord(word: bv64, usage: bv64, t: AllocType)
    requires word & AFBCENABLE_MASK != 0 && DetermineAllocType(word, usage, Uncompressed) == Some(t)
    ensures HeaderAlign(t) == 16 * PadBlocks(word)
  {
    TypeSuitsWord(word, usage, 0, 0, t);
  }

  /** The body offset in the headers, for a compressed word of any format.  It is right if and only if the
      gap is a multiple of 2^32.  There is no gap if and only if the pixels allocated and those asked for
      make as many whole blocks, `pixels` being the former, and these need no padding; and where the
      headers hold no offset, only if there is no block. */
  lemma BodyOffsetExactly(word: bv64, usage: bv64, w: nat, h: nat, t: AllocType, videoBuild: bool, pixels: nat,
                          area: nat)
    requires word & AFBCENABLE_MASK != 0 && DetermineAllocType(word, usage, Uncompressed) == Some(t)
    requires pixels == Width(w, t) * EntryHeight(Base(word), h, t, videoBuild)
    requires area == HeaderArea(EntriesOf(Base(word), w, h, t, videoBuild), t)
    ensures InitialHeader(word, w, h).w0 == OffsetWord(word, area)
      <==> OffsetGap(word, w, h, area) % 0x1_0000_0000 == 0
    ensures 0 <= OffsetGap(word, w, h, area) <= area
    ensures OffsetGap(word, w, h, area) == 0 <==>
      if HoldsNoOffset(word) then pixels < 256
      else w * h / 256 == pixels / 256 && w * h / 256 % PadBlocks(word) == 0
  {
    var entries := EntriesOf(Base(word), w, h, t, videoBuild);
    HeadersCounted(Base(word), w, h, t, videoBuild);
    OffsetByGap(word, w, h, area);
    EntriesByPixels(Width(w, t), EntryHeight(Base(word), h, t, videoBuild), pixels, entries);
    PadsByWord(word, usage, t);
    GapOfArea(word, w, h, t, HeadersWritten(w, h), entries, area);
  }

  lemma WholePixels(n: nat, pixels: nat, entries: nat)
    requires n <= pixels && pixels == 256 * entries
    ensures n / 256 == pixels / 256 <==> n == pixels
  {
  }

  /** For all formats but 10-bit 4:2:0, as many blocks means that nothing is added to the dimensions. */
  lemma NothingAddedExactly(f: bv64, w: nat, h: nat, t: AllocType, videoBuild: bool, n: nat, pixels: nat)
    requires f != Y0L2 && n == w * h && pixels == Width(w, t) * EntryHeight(f, h, t, videoBuild)
    ensures n / 256 == pixels / 256 <==> n == pixels
  {
    AfbcHeaders(f, w, h, t, videoBuild);
    MulGrows(w, Width(w, t), h, EntryHeight(f, h, t, videoBuild));
    WholePixels(n, pixels, EntriesOf(f, w, h, t, videoBuild));
  }

  lemma SmallArea(entries: nat, base: nat)
    requires 0 < entries < 64 && (base == 1024 || base == 4096)
    ensures entries * 16 < Align(entries * 16, base) <= 4096
  {
    AlignIsLeast(entries * 16, base, base);
    DivMod(Align(entries * 16, base), base);
    AtLeastOne(Align(entries * 16, base), base);
  }

  lemma AtLeastOne(r: nat, base: nat)
    requires 0 < r && base > 0 && r % base == 0
    ensures r >= base
  {
  }

  lemma SmallGap(gap: nat)
    requires 0 < gap <= 4096
    ensures gap % 0x1_0000_0000 != 0
  {
  }

  /** Buffers of any format of at least one and fewer than 64 blocks have a wrong offset. */
  lemma FewBlocksMislead(word: bv64, usage: bv64, w: nat, h: nat, t: AllocType, videoBuild: bool, pixels: nat,
                         area: nat)
    requires word & AFBCENABLE_MASK != 0 && DetermineAllocType(word, usage, Uncompressed) == Some(t)
    requires pixels == Width(w, t) * EntryHeight(Base(word), h, t, videoBuild) && 256 <= pixels < 16384
    requires area == HeaderArea(EntriesOf(Base(word), w, h, t, videoBuild), t)
    ensures InitialHeader(word, w, h).w0 != OffsetWord(word, area)
  {
    var entries := EntriesOf(Base(word), w, h, t, videoBuild);
    HeadersCounted(Base(word), w, h, t, videoBuild);
    BodyOffsetExactly(word, usage, w, h, t, videoBuild, pixels, area);
    EntriesByPixels(Width(w, t), EntryHeight(Base(word), h, t, videoBuild), pixels, entries);
    SmallArea(entries, HeaderAlign(t));
    SmallGap(OffsetGap(word, w, h, area));
  }

  lemma WordsOf16(word: bv64)
    requires word == RGBA_8888 | AFBC_BASIC || word == Y0L2 | AFBC_BASIC
    ensures word & AFBCENABLE_MASK != 0 && DetermineAllocType(word, 0, Uncompressed) == Some(Afbc)
    ensures Base(word) == if word == RGBA_8888 | AFBC_BASIC then RGBA_8888 else Y0L2
  {
  }

  lemma Accepted(f: bv64, w: nat, h: nat, t: AllocType, before: Layout)
    requires f == RGBA_8888 || (f == Y0L2 && w % 4 == 0 && YuvAfbcType(t))
    ensures LayoutFor(f, w, h, 0, t, false, before).Some?
  {
  }

  lemma BlocksOnly(f: bv64, w: nat, h: nat, t: AllocType, n: nat)
    requires w % WidthAlign(t) == 0 && h % HeightAlign(t) == 0 && n == w * h
    ensures Width(w, t) * EntryHeight(f, h, t, false) == n
  {
    WidthOfBlocks(w, t, WidthAlign(t));
    HeightOfBlocks(h, t, HeightAlign(t));
  }

  lemma SixteenIsAligned(w: nat, t: AllocType)
    requires w == 16 && t == Afbc
    ensures w % WidthAlign(t) == 0 && w % HeightAlign(t) == 0
  {
  }

  /** One of them, 16 by 16 pixels of compressed RGBA, or of 10-bit 4:2:0: accepted, and wrong. */
  lemma BodyOffsetWrongAt16(word: bv64, w: nat, h: nat, t: AllocType, before: Layout)
    requires (word == RGBA_8888 | AFBC_BASIC || word == Y0L2 | AFBC_BASIC) && w == 16 == h && t == Afbc
    ensures DetermineAllocType(word, 0, Uncompressed) == Some(t)
    ensures LayoutFor(Base(word), w, h, 0, t, false, before).Some?
    ensures InitialHeader(word, w, h).w0 != OffsetWord(word, HeaderArea(EntriesOf(Base(word), w, h, t, false), t))
  {
    WordsOf16(word);
    Accepted(Base(word), w, h, t, before);
    SixteenIsAligned(w, t);
    BlocksOnly(Base(word), w, h, t, 256);
    FewBlocksMislead(word, 0, w, h, t, false, 256, HeaderArea(EntriesOf(Base(word), w, h, t, false), t));
  }

  lemma InRange(n: nat)
    requires 0 < n < 0x1_0000_0000
    ensures n % 0x1_0000_0000 == n
  {
  }

  /** Headers that hold no offset are wrong for every buffer of at least one block, unless the area is a
      multiple of 2^32. */
  lemma TiledHeadersMislead(word: bv64, usage: bv64, w: nat, h: nat, t: AllocType, videoBuild: bool, pixels: nat,
                            area: nat)
    requires word & AFBCENABLE_MASK != 0 && DetermineAllocType(word, usage, Uncompressed) == Some(t)
    requires HoldsNoOffset(word) && area == HeaderArea(EntriesOf(Base(word), w, h, t, videoBuild), t)
    requires pixels == Width(w, t) * EntryHeight(Base(word), h, t, videoBuild) && 256 <= pixels
    ensures InitialHeader(word, w, h).w0 == 0 < area
    ensures OffsetWord(word, area) == 0 <==> area % 0x1_0000_0000 == 0
  {
    BodyOffsetExactly(word, usage, w, h, t, videoBuild, pixels, area);
  }

  lemma TiledWord(word: bv64, usage: bv64)
    requires word == RGBA_8888 | AFBC_BASIC | AFBC_TILED_HEADERS
    ensures word & AFBCENABLE_MASK != 0 && DetermineAllocType(word, usage, Uncompressed) == Some(AfbcTiledBasic)
    ensures Base(word) == RGBA_8888 && HoldsNoOffset(word)
  {
  }

  lemma AreaAt1024(entries: nat, base: nat)
    requires entries == 4096 && base == 4096
    ensures Align(entries * 16, base) == 0x1_0000
  {
    AlignOfMultiple(entries * 16, base);
  }

  lemma IsAlignedAt1024(w: nat, t: AllocType)
    requires w == 1024 && t == AfbcTiledBasic
    ensures w % WidthAlign(t) == 0 && w % HeightAlign(t) == 0
  {
  }

  /** Such a buffer: RGBA with tiled headers, 1024 by 1024 pixels, to which nothing is added and whose
      headers need no padding. */
  lemma TiledOffsetWrongAt1024(word: bv64, usage: bv64, w: nat, h: nat, t: AllocType, before: Layout, area: nat)
    requires word == RGBA_8888 | AFBC_BASIC | AFBC_TILED_HEADERS && w == 1024 == h && t == AfbcTiledBasic
    requires area == HeaderArea(EntriesOf(RGBA_8888, w, h, t, false), t)
    ensures DetermineAllocType(word, usage, Uncompressed) == Some(t)
    ensures LayoutFor(Base(word), w, h, 0, t, false, before).Some?
    ensures InitialHeader(word, w, h).w0 == 0 && OffsetWord(word, area) == area == 0x1_0000
  {
    TiledWord(word, usage);
    Accepted(RGBA_8888, w, h, t, before);
    IsAlignedAt1024(w, t);
    BlocksOnly(RGBA_8888, w, h, t, 0x10_0000);
    EntriesByPixels(Width(w, t), EntryHeight(RGBA_8888, h, t, false), 0x10_0000, EntriesOf(RGBA_8888, w, h, t, false));
    AreaAt1024(EntriesOf(RGBA_8888, w, h, t, false), HeaderAlign(t));
    InRange(area);
  }

  /** Dimensions of whole blocks are allocated as they are. */
  lemma WidthOfBlocks(w: nat, t: AllocType, base: nat)
    requires base == WidthAlign(t) && w % base == 0
    ensures Width(w, t) == w
  {
    AlignOfMultiple(w, base);
  }

  lemma HeightOfBlocks(h: nat, t: AllocType, base: nat)
    requires base == HeightAlign(t) && h % base == 0
    ensures Height(h, t) == h
  {
    AlignOfMultiple(h, base);
  }

  lemma AlignOfMultiple(v: nat, base: nat)
    requires base > 0 && v % base == 0
    ensures Align(v, base) == v
  {
    DivMod(v, base);
    DivUnique(v + base - 1, v / base, base);
  }

  // ---------------------------------------------------------------- layers

  /** The size of each layer of a multi-layer buffer. */
  function LayerSize(size: nat, word: bv64): nat {
    if word & AFBCENABLE_MASK == 0 then size
    else if word & AFBC_TILED_HEADERS != 0 then Align(size, 4096) else Align(size, 128)
  }

  /** The size of the allocation. */
  function AllocatedSize(size: nat, word: bv64, layers: nat): nat {
    if layers > 1 then Mul(LayerSize(size, word), layers) else size
  }

  /** Where layer n starts, as private_handle_t documents it. */
  function LayerOffset(n: nat, size: nat, word: bv64, layers: nat): nat
    requires layers > 0
  {
    DivAtLeast(AllocatedSize(size, word, layers), 0, layers);
    Mul(n, AllocatedSize(size, word, layers) / layers)
  }

  /** The layers of a compressed buffer start on the boundary their headers need, hold the size of
      one layer each, do not overlap, and fill the allocation. */
  lemma LayersAreAligned(n: nat, size: nat, word: bv64, layers: nat)
    requires n < layers
    ensures LayerOffset(n, size, word, layers) + size <= LayerOffset(n + 1, size, word, layers)
         <= AllocatedSize(size, word, layers)
    ensures word & AFBCENABLE_MASK != 0 ==>
      LayerOffset(n, size, word, layers) % (if word & AFBC_TILED_HEADERS != 0 then 4096 else 128) == 0
  {
    var each := if layers > 1 then LayerSize(size, word) else size;
    assert AllocatedSize(size, word, layers) == each * layers;
    DivExact(each, layers);
    MulLeq(n + 1, layers, each);
    assert (n + 1) * each == n * each + each;
    if word & AFBCENABLE_MASK != 0 && layers > 1 {
      var base := if word & AFBC_TILED_HEADERS != 0 then 4096 else 128;
      DivMod(each, base);
      assert n * each == (n * (each / base)) * base;
      MultipleMod(n * (each / base), base);
    }
  }
}
