/** What mali_gralloc_select_format chooses (hal/gralloc/mali_gralloc_formats.cpp), read off the bits of the
    usage and of the capability masks alone: which blocks take part, what each of them has to offer, and
    the word that comes of it. */
module SelectionByBits {
  import opened FormatWord
  import opened FormatSelect
  import opened FormatMasks

  /** x has bit b. */
  predicate Bit(x: bv64, b: bv64) {
    x & b != 0
  }

  // ---------------------------------------------------------------- who takes part

  /** The camera writes the buffer: camera usage, and the GPU does not render to it. */
  predicate ByCamera(usage: bv64) {
    !Bit(usage, 0x200) && (Bit(usage, 0x2_0000) || Bit(usage, 0x4_0000))
  }

  /** The video decoder writes it: neither of them does, and it is for texture, composer and an external
      display. */
  predicate ByDecoder(usage: bv64) {
    && !Bit(usage, 0x200) && !Bit(usage, 0x2_0000) && !Bit(usage, 0x4_0000)
    && Bit(usage, 0x100) && Bit(usage, 0x800) && Bit(usage, 0x2000)
  }

  predicate ByGpu(usage: bv64) {
    !ByCamera(usage) && !ByDecoder(usage)
  }

  /** The GPU or the display reads it: it is a framebuffer, or for texture and composer while the display
      has any options; the video encoder takes precedence over the latter. */
  predicate ForDisplay(usage: bv64, m: Masks) {
    Bit(usage, 0x1000) || (!Bit(usage, 0x1_0000) && Bit(usage, 0x100) && Bit(usage, 0x800) && Bit(m.dpu, 0x1))
  }

  predicate ForEncoder(usage: bv64) {
    !Bit(usage, 0x1000) && Bit(usage, 0x1_0000)
  }

  // ---------------------------------------------------------------- formats, by their numbers

  predicate IsYuv(f: bv64) {
    || f == 0x3231_5659 || f == 0x2020_3859 || f == 0x2036_3159
    || f == 0x22 || f == 0x23 || f == 0x27 || f == 0x28 || f == 0x100
  }

  predicate WithoutCompression(f: bv64) {
    || f == 0x14 || f == 0x20 || f == 0x21 || f == 0x25 || f == 0x26
    || f == 0x104 || f == 0x105 || f == 0x107
  }

  /** The flexible formats stand for NV12. */
  function Mapped(request: bv64): bv64 {
    if request == 0x22 || request == 0x23 then 0x100 else request
  }

  // ---------------------------------------------------------------- what is on offer

  /** Compression is off: software access, both bits of NO_AFBC, the size, or the format. */
  predicate Off(f: bv64, usage: bv64, afbcAllowed: bool) {
    usage & 0xff != 0 || (Bit(usage, 0x2000_0000) && Bit(usage, 0x4000_0000)) || !afbcAllowed || WithoutCompression(f)
  }

  /** The GPU offers to write with capability b.  When it renders YUV it does not offer split blocks, and
      nothing at all if it cannot write compressed YUV. */
  predicate GpuWrites(f: bv64, usage: bv64, gpu: bv64, b: bv64) {
    Bit(gpu, b) && !(Bit(usage, 0x200) && IsYuv(f) && (Bit(gpu, 0x40) || b == 0x04))
  }

  /** The video encoder offers to read with capability b: YUV, unless it cannot read compressed YUV. */
  predicate EncoderReads(f: bv64, vpu: bv64, b: bv64) {
    IsYuv(f) && !Bit(vpu, 0x20) && Bit(vpu, b)
  }

  /** All who take part offer capability b: 0x02 for 16x16 blocks, 0x04 for split blocks, 0x80 for tiled
      headers. */
  predicate Offered(f: bv64, usage: bv64, m: Masks, b: bv64) {
    if ByGpu(usage) then
      && Bit(m.gpu, 0x1) && GpuWrites(f, usage, m.gpu, b)
      && (ForDisplay(usage, m) ==> Bit(m.dpu, b))
      && (ForEncoder(usage) ==> (f == 0x3231_5659 || f == 0x100) && EncoderReads(f, m.vpu, b))
    else
      && ByDecoder(usage) && Bit(m.vpu, 0x1) && f == 0x3231_5659 && !ForEncoder(usage)
      && Bit(m.vpu, b) && Bit(m.gpu, b) && (ForDisplay(usage, m) ==> Bit(m.dpu, b))
  }

  predicate TakesSplit(f: bv64, usage: bv64, m: Masks) {
    ByGpu(usage) && ForDisplay(usage, m) && Offered(f, usage, m, 0x04)
  }

  predicate TakesBasic(f: bv64, usage: bv64, m: Masks) {
    Offered(f, usage, m, 0x02) && !TakesSplit(f, usage, m)
  }

  predicate TakesTiled(f: bv64, usage: bv64, m: Masks) {
    && Offered(f, usage, m, 0x80) && !TakesSplit(f, usage, m)
    && (ByGpu(usage) && ForDisplay(usage, m) ==> Offered(f, usage, m, 0x02))
  }

  // ---------------------------------------------------------------- flags are bits

  lemma UsageBits(usage: bv64)
    ensures Has(usage, HW_RENDER) <==> Bit(usage, 0x200)
    ensures Has(usage, HW_FB) <==> Bit(usage, 0x1000)
    ensures Has(usage, HW_VIDEO_ENCODER) <==> Bit(usage, 0x1_0000)
  {
  }

  lemma CameraBits(usage: bv64)
    ensures Has(usage, HW_CAMERA_MASK) <==> Bit(usage, 0x2_0000) || Bit(usage, 0x4_0000)
  {
  }

  lemma ComposerBits(usage: bv64)
    ensures HasAll(usage, HW_TEXTURE | HW_COMPOSER) <==> Bit(usage, 0x100) && Bit(usage, 0x800)
  {
  }

  lemma DecoderBits(usage: bv64)
    ensures HasAll(usage, HW_TEXTURE | HW_COMPOSER | EXTERNAL_DISP)
      <==> Bit(usage, 0x100) && Bit(usage, 0x800) && Bit(usage, 0x2000)
  {
  }

  lemma NoAfbcBits(usage: bv64)
    ensures HasAll(usage, NO_AFBC) <==> Bit(usage, 0x2000_0000) && Bit(usage, 0x4000_0000)
  {
  }

  function BitOf(c: Cap): bv64 {
    match c
    case OptionsPresent => 0x01
    case Basic => 0x02
    case SplitBlk => 0x04
    case WideBlk => 0x08
    case YuvNoRead => 0x20
    case YuvNoWrite => 0x40
    case TiledHeaders => 0x80
  }

  /** A mask has a flag if and only if it has its bit. */
  lemma CapabilityBit(mask: bv64, c: Cap)
    ensures c in FlagsOf(mask) <==> Bit(mask, BitOf(c))
  {
    OffersInFlags(mask, c);
  }

  lemma HalRequest(request: bv64)
    requires IsHalFormat(request)
    ensures Base(request) == request && MapFlex(request) == Mapped(request)
    ensures IsAndroidYuv(request) == IsYuv(request) == IsYuv(Mapped(request)) == IsAndroidYuv(Mapped(request))
    ensures IsAfbcSupported(Mapped(request)) == !WithoutCompression(Mapped(request))
  {
  }

  // ---------------------------------------------------------------- the selection

  lemma ProducerByBits(request: bv64, usage: bv64, m: Masks)
    ensures FormatSelect.DetermineProducer(CapsOf(m), request, usage).0
         == if ByCamera(usage) then Camera else if ByDecoder(usage) then VideoDecoder else GpuProducer
  {
    UsageBits(usage);
    CameraBits(usage);
    DecoderBits(usage);
  }

  lemma ConsumerByBits(request: bv64, usage: bv64, m: Masks)
    ensures FormatSelect.DetermineConsumer(CapsOf(m), request, usage).0
         == if ForDisplay(usage, m) then GpuOrDisplay else if ForEncoder(usage) then VideoEncoder else GpuExclusive
  {
    UsageBits(usage);
    ComposerBits(usage);
    CapabilityBit(m.dpu, OptionsPresent);
  }

  /** The capabilities that the selection is about. */
  predicate OfBlocks(c: Cap) {
    c == Basic || c == SplitBlk || c == TiledHeaders
  }

  lemma ProducerLimitsByBits(request: bv64, usage: bv64, m: Masks, c: Cap)
    requires IsHalFormat(request) && OfBlocks(c)
    ensures c in FormatSelect.DetermineProducer(CapsOf(m), request, usage).1 <==>
      Bit(usage, 0x200) && IsYuv(request) && (Bit(m.gpu, 0x40) || c == SplitBlk)
  {
    HalRequest(request);
    UsageBits(usage);
    CapabilityBit(m.gpu, YuvNoWrite);
  }

  lemma ConsumerLimitsByBits(request: bv64, usage: bv64, m: Masks, c: Cap)
    requires IsHalFormat(request) && OfBlocks(c)
    ensures c in FormatSelect.DetermineConsumer(CapsOf(m), request, usage).1 <==>
      ForEncoder(usage) && !(IsYuv(request) && !Bit(m.vpu, 0x20))
  {
    HalRequest(request);
    UsageBits(usage);
    CapabilityBit(m.vpu, YuvNoRead);
  }

  /** All who take part advertise a capability, in their roles, and negotiate about it. */
  ghost predicate OnOffer(f: bv64, producer: Producer, consumer: Consumer, pLimits: set<Cap>, cLimits: set<Cap>,
                          caps: Caps, c: Cap) {
    Negotiates(f, producer, consumer, caps) && AllAdvertise(c, producer, consumer, pLimits, cLimits, caps)
  }

  lemma GpuOffers(f: bv64, consumer: Consumer, pLimits: set<Cap>, cLimits: set<Cap>, caps: Caps, c: Cap)
    ensures OnOffer(f, GpuProducer, consumer, pLimits, cLimits, caps, c) <==>
      && OptionsPresent in caps.gpu && c in caps.gpu && c !in pLimits && c !in cLimits
      && (consumer == GpuOrDisplay ==> c in caps.dpu)
      && (consumer == VideoEncoder ==> c in caps.vpu && (f == YV12 || f == NV12))
  {
    AllBlocks(c, GpuProducer, consumer, pLimits, cLimits, caps);
  }

  lemma DecoderOffers(f: bv64, consumer: Consumer, pLimits: set<Cap>, cLimits: set<Cap>, caps: Caps, c: Cap)
    ensures OnOffer(f, VideoDecoder, consumer, pLimits, cLimits, caps, c) <==>
      && OptionsPresent in caps.vpu && f == YV12 && consumer != VideoEncoder
      && c in caps.vpu && c !in pLimits && c in caps.gpu && c !in cLimits
      && (consumer == GpuOrDisplay ==> c in caps.dpu)
  {
    AllBlocks(c, VideoDecoder, consumer, pLimits, cLimits, caps);
  }

  /** The capabilities of the blocks are the bits of their masks. */
  predicate CapsAre(caps: Caps, m: Masks, c: Cap) {
    && (c in caps.gpu <==> Bit(m.gpu, BitOf(c))) && (c in caps.dpu <==> Bit(m.dpu, BitOf(c)))
    && (c in caps.vpu <==> Bit(m.vpu, BitOf(c)))
  }

  lemma CapsOfMasks(m: Masks, c: Cap)
    ensures CapsAre(CapsOf(m), m, c)
  {
    CapabilityBit(m.gpu, c);
    CapabilityBit(m.dpu, c);
    CapabilityBit(m.vpu, c);
  }

  predicate ConsumerIs(consumer: Consumer, usage: bv64, m: Masks) {
    consumer == if ForDisplay(usage, m) then GpuOrDisplay else if ForEncoder(usage) then VideoEncoder else GpuExclusive
  }

  lemma OfferedByGpu(f: bv64, usage: bv64, m: Masks, consumer: Consumer, pLimits: set<Cap>, cLimits: set<Cap>,
                     caps: Caps, c: Cap)
    requires OfBlocks(c) && CapsAre(caps, m, c) && CapsAre(caps, m, OptionsPresent)
    requires ByGpu(usage) && ConsumerIs(consumer, usage, m)
    requires c in pLimits <==> Bit(usage, 0x200) && IsYuv(f) && (Bit(m.gpu, 0x40) || c == SplitBlk)
    requires c in cLimits <==> ForEncoder(usage) && !(IsYuv(f) && !Bit(m.vpu, 0x20))
    ensures OnOffer(f, GpuProducer, consumer, pLimits, cLimits, caps, c) <==> Offered(f, usage, m, BitOf(c))
  {
    GpuOffers(f, consumer, pLimits, cLimits, caps, c);
  }

  lemma OfferedByDecoder(f: bv64, usage: bv64, m: Masks, consumer: Consumer, pLimits: set<Cap>, cLimits: set<Cap>,
                         caps: Caps, c: Cap)
    requires CapsAre(caps, m, c) && CapsAre(caps, m, OptionsPresent)
    requires ByDecoder(usage) && ConsumerIs(consumer, usage, m)
    requires c !in pLimits && (c in cLimits ==> ForEncoder(usage))
    ensures OnOffer(f, VideoDecoder, consumer, pLimits, cLimits, caps, c) <==> Offered(f, usage, m, BitOf(c))
  {
    DecoderOffers(f, consumer, pLimits, cLimits, caps, c);
  }

  lemma OfferedByRoles(f: bv64, usage: bv64, m: Masks, producer: Producer, consumer: Consumer,
                       pLimits: set<Cap>, cLimits: set<Cap>, caps: Caps, c: Cap)
    requires OfBlocks(c) && CapsAre(caps, m, c) && CapsAre(caps, m, OptionsPresent)
    requires producer == if ByCamera(usage) then Camera else if ByDecoder(usage) then VideoDecoder else GpuProducer
    requires ConsumerIs(consumer, usage, m)
    requires c in pLimits <==> Bit(usage, 0x200) && IsYuv(f) && (Bit(m.gpu, 0x40) || c == SplitBlk)
    requires c in cLimits <==> ForEncoder(usage) && !(IsYuv(f) && !Bit(m.vpu, 0x20))
    ensures OnOffer(f, producer, consumer, pLimits, cLimits, caps, c) <==> Offered(f, usage, m, BitOf(c))
  {
    if ByGpu(usage) {
      OfferedByGpu(f, usage, m, consumer, pLimits, cLimits, caps, c);
    } else if ByDecoder(usage) {
      OfferedByDecoder(f, usage, m, consumer, pLimits, cLimits, caps, c);
    }
  }

  lemma OfferedExactly(request: bv64, f: bv64, usage: bv64, m: Masks, producer: Producer, consumer: Consumer,
                       pLimits: set<Cap>, cLimits: set<Cap>, caps: Caps, c: Cap)
    requires IsHalFormat(request) && f == Mapped(request) && OfBlocks(c) && caps == CapsOf(m)
    requires (producer, pLimits) == FormatSelect.DetermineProducer(caps, request, usage)
    requires (consumer, cLimits) == FormatSelect.DetermineConsumer(caps, request, usage)
    ensures OnOffer(f, producer, consumer, pLimits, cLimits, caps, c) <==> Offered(f, usage, m, BitOf(c))
  {
    HalRequest(request);
    ProducerByBits(request, usage, m);
    ConsumerByBits(request, usage, m);
    ProducerLimitsByBits(request, usage, m, c);
    ConsumerLimitsByBits(request, usage, m, c);
    CapsOfMasks(m, c);
    CapsOfMasks(m, OptionsPresent);
    OfferedByRoles(f, usage, m, producer, consumer, pLimits, cLimits, caps, c);
  }

  /** The choices, from what is on offer. */
  lemma ChosenByOffers(f: bv64, producer: Producer, consumer: Consumer, pLimits: set<Cap>, cLimits: set<Cap>,
                       caps: Caps)
    ensures var mods := ChooseModifiers(f, producer, consumer, pLimits, cLimits, caps);
      var display := GpuToDisplay(producer, consumer);
      var split := display && OnOffer(f, producer, consumer, pLimits, cLimits, caps, SplitBlk);
      var basic := OnOffer(f, producer, consumer, pLimits, cLimits, caps, Basic);
      && (SplitBlocks in mods <==> split)
      && (BasicBlocks in mods <==> basic && !split)
      && (TiledHeader in mods <==>
            OnOffer(f, producer, consumer, pLimits, cLimits, caps, TiledHeaders) && !split && (display ==> basic))
  {
    ChoiceIsExact(f, producer, consumer, pLimits, cLimits, caps);
  }

  lemma DisplayByBits(request: bv64, usage: bv64, m: Masks, producer: Producer, consumer: Consumer)
    requires producer == FormatSelect.DetermineProducer(CapsOf(m), request, usage).0
    requires consumer == FormatSelect.DetermineConsumer(CapsOf(m), request, usage).0
    ensures GpuToDisplay(producer, consumer) <==> ByGpu(usage) && ForDisplay(usage, m)
  {
    ProducerByBits(request, usage, m);
    ConsumerByBits(request, usage, m);
  }

  lemma ChosenFromOffers(f: bv64, usage: bv64, m: Masks, producer: Producer, consumer: Consumer, pLimits: set<Cap>,
                         cLimits: set<Cap>, caps: Caps)
    requires GpuToDisplay(producer, consumer) <==> ByGpu(usage) && ForDisplay(usage, m)
    requires OnOffer(f, producer, consumer, pLimits, cLimits, caps, Basic) <==> Offered(f, usage, m, 0x02)
    requires OnOffer(f, producer, consumer, pLimits, cLimits, caps, SplitBlk) <==> Offered(f, usage, m, 0x04)
    requires OnOffer(f, producer, consumer, pLimits, cLimits, caps, TiledHeaders) <==> Offered(f, usage, m, 0x80)
    ensures var mods := ChooseModifiers(f, producer, consumer, pLimits, cLimits, caps);
      && (SplitBlocks in mods <==> TakesSplit(f, usage, m))
      && (BasicBlocks in mods <==> TakesBasic(f, usage, m))
      && (TiledHeader in mods <==> TakesTiled(f, usage, m))
  {
    ChosenByOffers(f, producer, consumer, pLimits, cLimits, caps);
  }

  /** The modifiers that determine_best_format is to add, when compression is not off. */
  lemma ChosenByBits(request: bv64, f: bv64, usage: bv64, m: Masks, caps: Caps, producer: Producer,
                     consumer: Consumer, pLimits: set<Cap>, cLimits: set<Cap>)
    requires IsHalFormat(request) && f == Mapped(request) && caps == CapsOf(m)
    requires (producer, pLimits) == FormatSelect.DetermineProducer(caps, request, usage)
    requires (consumer, cLimits) == FormatSelect.DetermineConsumer(caps, request, usage)
    ensures var mods := ChooseModifiers(f, producer, consumer, pLimits, cLimits, caps);
      && (SplitBlocks in mods <==> TakesSplit(f, usage, m))
      && (BasicBlocks in mods <==> TakesBasic(f, usage, m))
      && (TiledHeader in mods <==> TakesTiled(f, usage, m))
  {
    DisplayByBits(request, usage, m, producer, consumer);
    OfferedExactly(request, f, usage, m, producer, consumer, pLimits, cLimits, caps, Basic);
    OfferedExactly(request, f, usage, m, producer, consumer, pLimits, cLimits, caps, SplitBlk);
    OfferedExactly(request, f, usage, m, producer, consumer, pLimits, cLimits, caps, TiledHeaders);
    ChosenFromOffers(f, usage, m, producer, consumer, pLimits, cLimits, caps);
  }

  /** The word has the format f in its low half, and above it a bit for each of three choices and no
      other. */
  predicate IsWord(word: bv64, f: bv64, split: bool, basic: bool, tiled: bool) {
    && word & 0xffff_ffff == f
    && (word & 0x1_0000_0000 != 0 <==> basic) && (word & 0x2_0000_0000 != 0 <==> split)
    && (word & 0x1_0000_0000_0000 != 0 <==> tiled) && word & 0xfffe_fffc_0000_0000 == 0
  }

  lemma OrClear(a: bv64, b: bv64, c: bv64, mask: bv64)
    requires a & mask == 0 && b & mask == 0 && c & mask == 0
    ensures (a | b | c) & mask == 0
  {
  }

  lemma ModifiersClear(mask: bv64)
    requires mask == 0xfffe_fffc_ffff_ffff
    ensures 0 & mask == 0 && AFBC_BASIC & mask == 0 && AFBC_SPLITBLK & mask == 0 && AFBC_TILED_HEADERS & mask == 0
  {
  }

  lemma FewModifiers(mods: set<Modifier>)
    ensures ModifierBits(mods) & 0xfffe_fffc_ffff_ffff == 0
  {
    ModifiersClear(0xfffe_fffc_ffff_ffff);
    OrClear(if BasicBlocks in mods then AFBC_BASIC else 0, if SplitBlocks in mods then AFBC_SPLITBLK else 0,
            if TiledHeader in mods then AFBC_TILED_HEADERS else 0, 0xfffe_fffc_ffff_ffff);
  }

  lemma NoOthersAbove(f: bv64, bits: bv64, word: bv64)
    requires IsInt(f) && bits & 0xfffe_fffc_ffff_ffff == 0 && word == f | bits
    ensures word & 0xfffe_fffc_0000_0000 == 0
  {
  }

  lemma WordOfChoices(f: bv64, mods: set<Modifier>, bits: bv64, word: bv64)
    requires IsInt(f) && bits == ModifierBits(mods) && word == f | bits
    ensures IsWord(word, f, SplitBlocks in mods, BasicBlocks in mods, TiledHeader in mods)
  {
    BitsOfModifiers(mods);
    WordOfModifiers(f, mods, bits, word);
    FewModifiers(mods);
    NoOthersAbove(f, bits, word);
  }

  lemma OffByFlags(request: bv64, f: bv64, usage: bv64, afbcAllowed: bool)
    requires IsHalFormat(request) && f == Mapped(request)
    ensures CompressionRuledOut(request, usage, afbcAllowed) <==> Off(f, usage, afbcAllowed)
  {
    HalRequest(request);
    UsageBits(usage);
    NoAfbcBits(usage);
  }

  /** The request is refused: it is for YUV, in hardware, without compression. */
  predicate Refused(f: bv64, usage: bv64) {
    usage & 0xff == 0 && Bit(usage, 0x2000_0000) && Bit(usage, 0x4000_0000) && IsYuv(f)
  }

  lemma SelectedOrRefused(request: bv64, f: bv64, usage: bv64, afbcAllowed: bool, caps: Caps)
    requires IsHalFormat(request) && usage < 0x8000_0000 && f == Mapped(request)
    ensures SelectFormat(request, Usage, usage, afbcAllowed, caps)
         == if Refused(f, usage) then 0 else WithModifiers(f, SelectedModifiers(request, usage, afbcAllowed, caps))
  {
    PrivateFormatBits(usage);
    HalRequest(request);
    UsageBits(usage);
    NoAfbcBits(usage);
    MapFlexIsHal(request);
    HalFormatWidens(f);
    NoModifiers(f);
  }

  lemma SelectedWhenOn(request: bv64, f: bv64, usage: bv64, afbcAllowed: bool, m: Masks)
    requires IsHalFormat(request) && f == Mapped(request) && !Off(f, usage, afbcAllowed)
    ensures var mods := SelectedModifiers(request, usage, afbcAllowed, CapsOf(m));
      && (SplitBlocks in mods <==> TakesSplit(f, usage, m))
      && (BasicBlocks in mods <==> TakesBasic(f, usage, m))
      && (TiledHeader in mods <==> TakesTiled(f, usage, m))
  {
    var (producer, pLimits) := FormatSelect.DetermineProducer(CapsOf(m), request, usage);
    var (consumer, cLimits) := FormatSelect.DetermineConsumer(CapsOf(m), request, usage);
    HalRequest(request);
    OffByFlags(request, f, usage, afbcAllowed);
    assert ProducerLimits(pLimits, f, usage, afbcAllowed) == pLimits;
    ChosenByBits(request, f, usage, m, CapsOf(m), producer, consumer, pLimits, cLimits);
  }

  lemma SelectedByBits(request: bv64, f: bv64, usage: bv64, afbcAllowed: bool, m: Masks, mods: set<Modifier>)
    requires IsHalFormat(request) && f == Mapped(request)
    requires mods == SelectedModifiers(request, usage, afbcAllowed, CapsOf(m))
    ensures var on := !Off(f, usage, afbcAllowed);
      && (SplitBlocks in mods <==> on && TakesSplit(f, usage, m))
      && (BasicBlocks in mods <==> on && TakesBasic(f, usage, m))
      && (TiledHeader in mods <==> on && TakesTiled(f, usage, m))
  {
    OffByFlags(request, f, usage, afbcAllowed);
    if Off(f, usage, afbcAllowed) {
      SelectedSoundly(request, usage, afbcAllowed, CapsOf(m));
    } else {
      SelectedWhenOn(request, f, usage, afbcAllowed, m);
    }
  }

  lemma SelectedWordIs(request: bv64, f: bv64, usage: bv64, afbcAllowed: bool, caps: Caps, mods: set<Modifier>)
    requires IsHalFormat(request) && usage < 0x8000_0000 && f == Mapped(request) && !Refused(f, usage)
    requires mods == SelectedModifiers(request, usage, afbcAllowed, caps)
    ensures IsWord(SelectFormat(request, Usage, usage, afbcAllowed, caps), f, SplitBlocks in mods, BasicBlocks in mods,
                   TiledHeader in mods)
  {
    SelectedOrRefused(request, f, usage, afbcAllowed, caps);
    MapFlexIsHal(request);
    HalRequest(request);
    HalFormatWidens(f);
    WordOfChoices(f, mods, ModifierBits(mods), WithModifiers(f, mods));
  }

  /** What a request is to get: 0 if it is refused, and else the format it maps to, with split blocks, 16x16
      blocks and tiled headers each if and only if compression is not off and those that take part offer
      them. */
  predicate IsSelection(word: bv64, f: bv64, usage: bv64, afbcAllowed: bool, m: Masks) {
    if Refused(f, usage) then word == 0
    else IsWord(word, f, !Off(f, usage, afbcAllowed) && TakesSplit(f, usage, m),
                !Off(f, usage, afbcAllowed) && TakesBasic(f, usage, m),
                !Off(f, usage, afbcAllowed) && TakesTiled(f, usage, m))
  }

  /** mali_gralloc_select_format, exactly, for a request by usage in any build and on any hardware. */
  lemma SelectionExactly(request: bv64, f: bv64, usage: bv64, afbcAllowed: bool, m: Masks)
    requires IsHalFormat(request) && usage < 0x8000_0000 && f == Mapped(request)
    ensures IsSelection(SelectFormat(request, Usage, usage, afbcAllowed, CapsOf(m)), f, usage, afbcAllowed, m)
  {
    var mods := SelectedModifiers(request, usage, afbcAllowed, CapsOf(m));
    if Refused(f, usage) {
      SelectedOrRefused(request, f, usage, afbcAllowed, CapsOf(m));
    } else {
      SelectedWordIs(request, f, usage, afbcAllowed, CapsOf(m), mods);
      SelectedByBits(request, f, usage, afbcAllowed, m, mods);
    }
  }

  // ---------------------------------------------------------------- what follows for each role

  /** The modifier bit that stands for a capability bit. */
  function ModifierOf(b: bv64): bv64 {
    if b == 0x02 then 0x1_0000_0000 else if b == 0x04 then 0x2_0000_0000 else 0x1_0000_0000_0000
  }

  /** Whatever is chosen, every block that takes part can do.  The GPU always can.  The display can, when the
      buffer is a framebuffer, or for texture and composer while it has options.  The video encoder can when
      it reads the buffer, which is then YUV, and the video decoder when it writes it.  What the GPU renders
      in YUV it can write.  And for a camera there is no compression. */
  lemma SelectionRespectsRoles(request: bv64, f: bv64, usage: bv64, afbcAllowed: bool, m: Masks, b: bv64)
    requires IsHalFormat(request) && usage < 0x8000_0000 && f == Mapped(request)
    requires b == 0x02 || b == 0x04 || b == 0x80
    requires SelectFormat(request, Usage, usage, afbcAllowed, CapsOf(m)) & ModifierOf(b) != 0
    ensures Bit(m.gpu, b) && !ByCamera(usage) && !Off(f, usage, afbcAllowed)
    ensures ForDisplay(usage, m) ==> Bit(m.dpu, b)
    ensures ForEncoder(usage) || ByDecoder(usage) ==> Bit(m.vpu, b)
    ensures ForEncoder(usage) ==> IsYuv(f) && !Bit(m.vpu, 0x20)
    ensures Bit(usage, 0x200) && IsYuv(f) ==> !Bit(m.gpu, 0x40) && b != 0x04
  {
    var word := SelectFormat(request, Usage, usage, afbcAllowed, CapsOf(m));
    SelectionExactly(request, f, usage, afbcAllowed, m);
    ModifierIsOffered(word, f, usage, afbcAllowed, m, b);
    OfferRespectsRoles(f, usage, m, b);
  }

  lemma ModifierIsOffered(word: bv64, f: bv64, usage: bv64, afbcAllowed: bool, m: Masks, b: bv64)
    requires IsSelection(word, f, usage, afbcAllowed, m) && word & ModifierOf(b) != 0
    requires b == 0x02 || b == 0x04 || b == 0x80
    ensures Offered(f, usage, m, b) && !Off(f, usage, afbcAllowed)
  {
    NoBits(ModifierOf(b));
  }

  lemma NoBits(b: bv64)
    ensures 0 & b == 0
  {
  }

  lemma OfferRespectsRoles(f: bv64, usage: bv64, m: Masks, b: bv64)
    requires Offered(f, usage, m, b)
    ensures Bit(m.gpu, b) && !ByCamera(usage)
    ensures ForDisplay(usage, m) ==> Bit(m.dpu, b)
    ensures ForEncoder(usage) || ByDecoder(usage) ==> Bit(m.vpu, b)
    ensures ForEncoder(usage) ==> IsYuv(f) && !Bit(m.vpu, 0x20)
    ensures Bit(usage, 0x200) && IsYuv(f) ==> !Bit(m.gpu, 0x40) && b != 0x04
  {
  }
}
