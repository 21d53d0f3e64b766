/** The choice of a format word in hal/gralloc/mali_gralloc_formats.cpp, from the usage of a buffer and
    the capabilities of the hardware blocks that will touch it. */
module FormatSelect {
  import opened FormatWord

  // Usage flags, as Android's gralloc headers number them.
  const SW_MASK: bv64 := 0xff
  const HW_TEXTURE: bv64 := 0x100
  const HW_RENDER: bv64 := 0x200
  const HW_COMPOSER: bv64 := 0x800
  const HW_FB: bv64 := 0x1000
  const EXTERNAL_DISP: bv64 := 0x2000
  const HW_VIDEO_ENCODER: bv64 := 0x1_0000
  const HW_CAMERA_MASK: bv64 := 0x6_0000
  const NO_AFBC: bv64 := 0x6000_0000
  const AFBC_PADDING: bv64 := 0x4000_0000
  /** A negative int in the source, so it widens to all the bits from 31 up. */
  const PRIVATE_FORMAT: bv64 := 0xffff_ffff_8000_0000

  /** Capabilities of a hardware block.  Their masks are only ever tested, intersected and stripped of
      flags, so they are sets of flags here; FlagOfAnd ties the sets to the bits. */
  datatype Cap = OptionsPresent | Basic | SplitBlk | WideBlk | YuvNoRead | YuvNoWrite | TiledHeaders

  const CAP_AFBCENABLE := {Basic, SplitBlk, WideBlk, TiledHeaders}

  function CapBit(c: Cap): bv64 {
    match c
    case OptionsPresent => 0x01
    case Basic => 0x02
    case SplitBlk => 0x04
    case WideBlk => 0x08
    case YuvNoRead => 0x20
    case YuvNoWrite => 0x40
    case TiledHeaders => 0x80
  }

  /** Masking a mask masks each flag. */
  lemma FlagOfAnd(a: bv64, b: bv64, c: Cap)
    ensures (a & b) & CapBit(c) != 0 <==> a & CapBit(c) != 0 && b & CapBit(c) != 0
  {
    match c
    case OptionsPresent => case Basic => case SplitBlk => case WideBlk =>
    case YuvNoRead => case YuvNoWrite => case TiledHeaders =>
  }

  datatype Caps = Caps(dpu: set<Cap>, gpu: set<Cap>, vpu: set<Cap>, cam: set<Cap>)

  datatype Producer = VideoDecoder | GpuProducer | Camera
  datatype Consumer = GpuOrDisplay | VideoEncoder | GpuExclusive

  predicate Has(usage: bv64, bits: bv64) {
    usage & bits != 0
  }

  predicate HasAll(usage: bv64, bits: bv64) {
    usage & bits == bits
  }

  predicate IsAfbcSupported(f: bv64) {
    !(f == RAW16 || f == RAW12 || f == RAW10 || f == BLOB || f == P010 || f == P210 || f == Y410 || f == YCbCr_422_I)
  }

  predicate IsAndroidYuv(f: bv64) {
    || f == YV12 || f == Y8 || f == Y16 || f == YCbCr_420_888 || f == YCbCr_422_888 || f == YCbCr_444_888
    || f == NV12 || f == IMPLEMENTATION_DEFINED
  }

  /** determine_producer, when it succeeds: the producer, and the flags its runtime mask removes.  The
      request is passed as an int, so only its low half is looked at. */
  function DetermineProducer(caps: Caps, request: bv64, usage: bv64): (Producer, set<Cap>) {
    if Has(usage, HW_RENDER) then
      (GpuProducer,
       if !IsAndroidYuv(Base(request)) then {}
       else if YuvNoWrite in caps.gpu then CAP_AFBCENABLE
       else {SplitBlk, WideBlk})
    else if Has(usage, HW_CAMERA_MASK) then (Camera, {})
    else if HasAll(usage, HW_TEXTURE | HW_COMPOSER | EXTERNAL_DISP) then (VideoDecoder, {})
    else (GpuProducer, {})
  }

  /** determine_consumer, when it succeeds. */
  function DetermineConsumer(caps: Caps, request: bv64, usage: bv64): (Consumer, set<Cap>) {
    if Has(usage, HW_FB) then (GpuOrDisplay, {})
    else if Has(usage, HW_VIDEO_ENCODER) then
      (VideoEncoder, if IsAndroidYuv(Base(request)) && YuvNoRead !in caps.vpu then {} else CAP_AFBCENABLE)
    else if HasAll(usage, HW_TEXTURE | HW_COMPOSER) && OptionsPresent in caps.dpu then (GpuOrDisplay, {})
    else (GpuExclusive, {})
  }

  /** The modifiers that may be added to a requested format. */
  datatype Modifier = BasicBlocks | SplitBlocks | TiledHeader

  function OneIf(m: Modifier, offered: bool): set<Modifier> {
    if offered then {m} else {}
  }

  /** 16x16 superblocks, tiled headers or both, each if all the blocks offer it. */
  function BasicAndTiled(offered: set<Cap>): set<Modifier> {
    OneIf(BasicBlocks, Basic in offered) + OneIf(TiledHeader, TiledHeaders in offered)
  }

  /** What determine_best_format adds for a GPU that produces, given what its mask lets through. */
  function GpuModifiers(f: bv64, consumer: Consumer, gpu: set<Cap>, cLimits: set<Cap>, caps: Caps): set<Modifier> {
    match consumer
    case GpuOrDisplay =>
      var both := (gpu - cLimits) * (caps.dpu - cLimits);
      if SplitBlk in both then {SplitBlocks}
      else if Basic in both then {BasicBlocks} + OneIf(TiledHeader, TiledHeaders in both)
      else {}
    case GpuExclusive => BasicAndTiled(gpu - cLimits)
    case VideoEncoder => if f == YV12 || f == NV12 then BasicAndTiled(gpu * (caps.vpu - cLimits)) else {}
  }

  /** The same for a video decoder, which produces YV12. */
  function DecoderModifiers(consumer: Consumer, vpu: set<Cap>, cLimits: set<Cap>, caps: Caps): set<Modifier> {
    match consumer
    case GpuOrDisplay => BasicAndTiled(vpu * (caps.gpu - cLimits) * (caps.dpu - cLimits))
    case GpuExclusive => BasicAndTiled((caps.gpu - cLimits) * vpu)
    case VideoEncoder => {}
  }

  /** The modifiers determine_best_format adds; `pLimits` and `cLimits` are what the runtime masks
      remove. */
  function ChooseModifiers(f: bv64, producer: Producer, consumer: Consumer,
                           pLimits: set<Cap>, cLimits: set<Cap>, caps: Caps): set<Modifier> {
    if producer == GpuProducer && OptionsPresent in caps.gpu then
      GpuModifiers(f, consumer, caps.gpu - pLimits, cLimits, caps)
    else if producer == VideoDecoder && OptionsPresent in caps.vpu && f == YV12 then
      DecoderModifiers(consumer, caps.vpu - pLimits, cLimits, caps)
    else {}
  }

  function ModifierBits(mods: set<Modifier>): bv64 {
    (if BasicBlocks in mods then AFBC_BASIC else 0)
    | (if SplitBlocks in mods then AFBC_SPLITBLK else 0)
    | (if TiledHeader in mods then AFBC_TILED_HEADERS else 0)
  }

  /** `format |= modifier`, for each modifier. */
  function WithModifiers(f: bv64, mods: set<Modifier>): bv64 {
    f | ModifierBits(mods)
  }

  /** determine_best_format */
  function DetermineBestFormat(f: bv64, producer: Producer, consumer: Consumer,
                               pLimits: set<Cap>, cLimits: set<Cap>, caps: Caps): bv64 {
    WithModifiers(f, ChooseModifiers(f, producer, consumer, pLimits, cLimits, caps))
  }

  /** The limits mali_gralloc_select_format adds to the producer's. */
  function ProducerLimits(pLimits: set<Cap>, f: bv64, usage: bv64, afbcAllowed: bool): set<Cap> {
    if HasAll(usage, NO_AFBC) || !afbcAllowed || !IsAfbcSupported(f) then pLimits + CAP_AFBCENABLE else pLimits
  }

  /** mali_gralloc_select_format.  `afbcAllowed` is the comparison of the buffer's size with that of
      the display, which the build may leave out. */
  function SelectFormat(request: bv64, kind: FormatType, usage: bv64, afbcAllowed: bool, caps: Caps): bv64 {
    if Has(usage, PRIVATE_FORMAT) || kind.Internal? then DecodeInternalFormat(request, kind)
    else SelectByUsage(request, SignExtend(Base(MapFlex(request))), usage, afbcAllowed, caps)
  }

  /** The flag is any of the bits from 31 up. */
  lemma PrivateFormatBits(usage: bv64)
    ensures Has(usage, PRIVATE_FORMAT) <==> usage >= 0x8000_0000
  {
  }

  /** A request by usage takes the private path, where the hardware is not asked, if and only if the usage
      has any of these bits. */
  lemma PrivatePathExactly(request: bv64, usage: bv64, afbcAllowed: bool, caps: Caps)
    ensures SelectFormat(request, Usage, usage, afbcAllowed, caps)
         == if usage >= 0x8000_0000 then DecodeInternalFormat(request, Usage)
            else SelectByUsage(request, SignExtend(Base(MapFlex(request))), usage, afbcAllowed, caps)
  {
    PrivateFormatBits(usage);
  }

  /** A usage whose bit 31 is clear takes it too: bit 48 on a buffer that the GPU renders turns off the
      compression that the GPU offers. */
  lemma HighBitTakesPrivatePath(caps: Caps)
    requires OptionsPresent in caps.gpu && Basic in caps.gpu && TiledHeaders !in caps.gpu
    ensures SelectFormat(RGBA_8888, Usage, 0x0001_0000_0000_0200, true, caps) == RGBA_8888
    ensures SelectFormat(RGBA_8888, Usage, 0x200, true, caps) == RGBA_8888 | AFBC_BASIC
  {
  }

  /** The usage path, for a request and what the flexible formats map it to. */
  function SelectByUsage(request: bv64, mapped: bv64, usage: bv64, afbcAllowed: bool, caps: Caps): bv64 {
    if Has(usage, SW_MASK) then mapped
    else if HasAll(usage, NO_AFBC) && IsAndroidYuv(mapped) then 0
    else
      var (producer, pLimits) := DetermineProducer(caps, request, usage);
      var (consumer, cLimits) := DetermineConsumer(caps, request, usage);
      DetermineBestFormat(mapped, producer, consumer, ProducerLimits(pLimits, mapped, usage, afbcAllowed), cLimits,
                          caps)
  }

  // ---------------------------------------------------------------- soundness

  datatype Block = Dpu | Gpu | Vpu | Cam

  /** The hardware that takes part: the block that produces the buffer and those that may consume it. */
  function ProducerBlocks(producer: Producer): set<Block> {
    match producer
    case VideoDecoder => {Vpu}
    case GpuProducer => {Gpu}
    case Camera => {Cam}
  }

  function ConsumerBlocks(consumer: Consumer): set<Block> {
    match consumer
    case GpuOrDisplay => {Gpu, Dpu}
    case VideoEncoder => {Vpu}
    case GpuExclusive => {Gpu}
  }

  function Participants(producer: Producer, consumer: Consumer): set<Block> {
    ProducerBlocks(producer) + ConsumerBlocks(consumer)
  }

  function BlockCaps(caps: Caps, b: Block): set<Cap> {
    match b
    case Dpu => caps.dpu
    case Gpu => caps.gpu
    case Vpu => caps.vpu
    case Cam => caps.cam
  }

  /** A block advertises a capability if it has the flag and no limit on the roles it plays removes it. */
  predicate Advertises(b: Block, cap: Cap, producer: Producer, consumer: Consumer,
                       pLimits: set<Cap>, cLimits: set<Cap>, caps: Caps) {
    && cap in BlockCaps(caps, b)
    && (b in ProducerBlocks(producer) ==> cap !in pLimits)
    && (b in ConsumerBlocks(consumer) ==> cap !in cLimits)
  }

  ghost predicate AllAdvertise(cap: Cap, producer: Producer, consumer: Consumer,
                               pLimits: set<Cap>, cLimits: set<Cap>, caps: Caps) {
    forall b :: b in Participants(producer, consumer) ==>
      Advertises(b, cap, producer, consumer, pLimits, cLimits, caps)
  }

  function CapOf(m: Modifier): Cap {
    match m
    case BasicBlocks => Basic
    case SplitBlocks => SplitBlk
    case TiledHeader => TiledHeaders
  }

  /** Every modifier chosen is one that all the blocks that take part advertise, and split blocks are
      never combined with another modifier. */
  lemma ChoiceIsSound(f: bv64, producer: Producer, consumer: Consumer, pLimits: set<Cap>, cLimits: set<Cap>, caps: Caps)
    ensures var mods := ChooseModifiers(f, producer, consumer, pLimits, cLimits, caps);
      && (forall m :: m in mods ==> AllAdvertise(CapOf(m), producer, consumer, pLimits, cLimits, caps))
      && (SplitBlocks in mods ==> mods == {SplitBlocks})
  {
  }

  /** The producer and the consumer negotiate about AFBC at all. */
  predicate Negotiates(f: bv64, producer: Producer, consumer: Consumer, caps: Caps) {
    match producer
    case GpuProducer => OptionsPresent in caps.gpu && (consumer == VideoEncoder ==> f == YV12 || f == NV12)
    case VideoDecoder => OptionsPresent in caps.vpu && f == YV12 && consumer != VideoEncoder
    case Camera => false
  }

  predicate GpuToDisplay(producer: Producer, consumer: Consumer) {
    producer == GpuProducer && consumer == GpuOrDisplay
  }

  /** Which modifiers are chosen, exactly.  Where there is negotiation, a modifier is chosen if all the
      blocks that take part advertise it; only from the GPU to the display are split blocks on offer,
      which then rule out the others, and tiled headers come only with 16x16 blocks. */
  lemma ChoiceIsExact(f: bv64, producer: Producer, consumer: Consumer, pLimits: set<Cap>, cLimits: set<Cap>, caps: Caps)
    ensures var mods := ChooseModifiers(f, producer, consumer, pLimits, cLimits, caps);
      var on := Negotiates(f, producer, consumer, caps);
      var split := AllAdvertise(SplitBlk, producer, consumer, pLimits, cLimits, caps);
      var basic := AllAdvertise(Basic, producer, consumer, pLimits, cLimits, caps);
      var tiled := AllAdvertise(TiledHeaders, producer, consumer, pLimits, cLimits, caps);
      var display := GpuToDisplay(producer, consumer);
      && (SplitBlocks in mods <==> on && display && split)
      && (BasicBlocks in mods <==> on && basic && !(display && split))
      && (TiledHeader in mods <==> on && tiled && (display ==> basic && !split))
  {
    AllBlocks(SplitBlk, producer, consumer, pLimits, cLimits, caps);
    AllBlocks(Basic, producer, consumer, pLimits, cLimits, caps);
    AllBlocks(TiledHeaders, producer, consumer, pLimits, cLimits, caps);
  }

  predicate Agrees(b: Block, cap: Cap, producer: Producer, consumer: Consumer,
                   pLimits: set<Cap>, cLimits: set<Cap>, caps: Caps) {
    b in Participants(producer, consumer) ==> Advertises(b, cap, producer, consumer, pLimits, cLimits, caps)
  }

  /** The blocks that take part, one by one. */
  lemma AllBlocks(cap: Cap, producer: Producer, consumer: Consumer, pLimits: set<Cap>, cLimits: set<Cap>, caps: Caps)
    ensures AllAdvertise(cap, producer, consumer, pLimits, cLimits, caps) <==>
      && Agrees(Dpu, cap, producer, consumer, pLimits, cLimits, caps)
      && Agrees(Gpu, cap, producer, consumer, pLimits, cLimits, caps)
      && Agrees(Vpu, cap, producer, consumer, pLimits, cLimits, caps)
      && Agrees(Cam, cap, producer, consumer, pLimits, cLimits, caps)
  {
  }

  /** Or-ing modifier bits over a base format leaves the base. */
  lemma OverBase(f: bv64, bits: bv64)
    requires IsInt(f) && bits & FMT_MASK == 0
    ensures Base(f | bits) == f && Modifiers(f | bits) == bits
  {
  }

  /** The bits say which modifiers there are. */
  predicate Encodes(bits: bv64, mods: set<Modifier>) {
    && bits & FMT_MASK == 0
    && (bits & AFBC_BASIC != 0 <==> BasicBlocks in mods)
    && (bits & AFBC_SPLITBLK != 0 <==> SplitBlocks in mods)
    && (bits & AFBC_TILED_HEADERS != 0 <==> TiledHeader in mods)
    && bits & AFBC_WIDEBLK == 0
    && (mods == {} ==> bits == 0)
    && (!(BasicBlocks in mods && SplitBlocks in mods) ==> !Clashes(bits))
  }

  lemma BitsOfModifiers(mods: set<Modifier>)
    ensures Encodes(ModifierBits(mods), mods)
  {
  }

  /** The request is a non-negative int, as HAL formats are. */
  predicate IsHalFormat(request: bv64) {
    request & 0xffff_ffff_8000_0000 == 0
  }

  lemma HalFormatWidens(request: bv64)
    requires IsHalFormat(request)
    ensures IsInt(request) && SignExtend(Base(request)) == request
  {
  }

  lemma MapFlexIsHal(request: bv64)
    requires IsHalFormat(request)
    ensures IsHalFormat(MapFlex(request))
  {
  }

  /** The roles, limits and modifiers of a selection by usage. */
  function SelectedModifiers(request: bv64, usage: bv64, afbcAllowed: bool, caps: Caps): set<Modifier> {
    var f := MapFlex(request);
    var (producer, pLimits) := DetermineProducer(caps, request, usage);
    var (consumer, cLimits) := DetermineConsumer(caps, request, usage);
    if Has(usage, SW_MASK) then {}
    else ChooseModifiers(f, producer, consumer, ProducerLimits(pLimits, f, usage, afbcAllowed), cLimits, caps)
  }

  /** Compression is off: software access, a usage or size that rules it out, or a format without it. */
  predicate CompressionRuledOut(request: bv64, usage: bv64, afbcAllowed: bool) {
    Has(usage, SW_MASK) || HasAll(usage, NO_AFBC) || !afbcAllowed || !IsAfbcSupported(MapFlex(request))
  }

  lemma SelectedWord(request: bv64, usage: bv64, afbcAllowed: bool, caps: Caps)
    requires IsHalFormat(request) && !Has(usage, PRIVATE_FORMAT)
    ensures var word := SelectFormat(request, Usage, usage, afbcAllowed, caps);
      word == 0 || word == WithModifiers(MapFlex(request), SelectedModifiers(request, usage, afbcAllowed, caps))
  {
    MapFlexIsHal(request);
    HalFormatWidens(MapFlex(request));
    NoModifiers(MapFlex(request));
  }

  lemma NoModifiers(f: bv64)
    ensures WithModifiers(f, {}) == f
  {
  }

  lemma SelectedSoundly(request: bv64, usage: bv64, afbcAllowed: bool, caps: Caps)
    ensures var mods := SelectedModifiers(request, usage, afbcAllowed, caps);
      var (producer, pLimits) := DetermineProducer(caps, request, usage);
      var (consumer, cLimits) := DetermineConsumer(caps, request, usage);
      var limits := ProducerLimits(pLimits, MapFlex(request), usage, afbcAllowed);
      && (forall m :: m in mods ==> AllAdvertise(CapOf(m), producer, consumer, limits, cLimits, caps))
      && (SplitBlocks in mods ==> mods == {SplitBlocks})
      && (CompressionRuledOut(request, usage, afbcAllowed) ==> mods == {})
  {
    var f := MapFlex(request);
    var (producer, pLimits) := DetermineProducer(caps, request, usage);
    var (consumer, cLimits) := DetermineConsumer(caps, request, usage);
    var limits := ProducerLimits(pLimits, f, usage, afbcAllowed);
    ChoiceIsSound(f, producer, consumer, limits, cLimits, caps);
    var mods := ChooseModifiers(f, producer, consumer, limits, cLimits, caps);
    if CompressionRuledOut(request, usage, afbcAllowed) && !Has(usage, SW_MASK) {
      assert CAP_AFBCENABLE <= limits;
      NothingLeft(f, producer, consumer, limits, cLimits, caps);
    }
  }

  /** When the producer's limits remove compression, nothing is chosen. */
  lemma NothingLeft(f: bv64, producer: Producer, consumer: Consumer, pLimits: set<Cap>, cLimits: set<Cap>, caps: Caps)
    requires CAP_AFBCENABLE <= pLimits
    ensures ChooseModifiers(f, producer, consumer, pLimits, cLimits, caps) == {}
  {
    ChoiceIsSound(f, producer, consumer, pLimits, cLimits, caps);
  }

  /** A word that keeps the base format f and has only modifiers that every block taking part
      advertises; split blocks come alone, wide blocks never. */
  ghost predicate SoundWord(word: bv64, f: bv64, producer: Producer, consumer: Consumer,
                            pLimits: set<Cap>, cLimits: set<Cap>, caps: Caps) {
    && Base(word) == f
    && AtMostOneExclusive(word)
    && (word & AFBC_BASIC != 0 ==> AllAdvertise(Basic, producer, consumer, pLimits, cLimits, caps))
    && (word & AFBC_SPLITBLK != 0 ==> AllAdvertise(SplitBlk, producer, consumer, pLimits, cLimits, caps))
    && (word & AFBC_TILED_HEADERS != 0 ==> AllAdvertise(TiledHeaders, producer, consumer, pLimits, cLimits, caps))
    && (word & AFBC_SPLITBLK != 0 ==> word & AFBC_BASIC == 0 && word & AFBC_TILED_HEADERS == 0)
    && word & AFBC_WIDEBLK == 0
  }

  lemma ModifiersMakeSoundWord(f: bv64, mods: set<Modifier>, bits: bv64, word: bv64, producer: Producer,
                               consumer: Consumer,
                               pLimits: set<Cap>, cLimits: set<Cap>, caps: Caps)
    requires IsInt(f) && Encodes(bits, mods) && word == f | bits
    requires forall m :: m in mods ==> AllAdvertise(CapOf(m), producer, consumer, pLimits, cLimits, caps)
    requires SplitBlocks in mods ==> mods == {SplitBlocks}
    ensures SoundWord(word, f, producer, consumer, pLimits, cLimits, caps)
    ensures mods == {} ==> Modifiers(word) == 0
  {
    WordOfModifiers(f, mods, bits, word);
    assert BasicBlocks in mods ==> AllAdvertise(CapOf(BasicBlocks), producer, consumer, pLimits, cLimits, caps);
    assert SplitBlocks in mods ==> AllAdvertise(CapOf(SplitBlocks), producer, consumer, pLimits, cLimits, caps);
    assert TiledHeader in mods ==> AllAdvertise(CapOf(TiledHeader), producer, consumer, pLimits, cLimits, caps);
  }

  /** Format selection is sound.  On the usage path the word is 0 or keeps the base format the request
      maps to, with at most one exclusive modifier and only modifiers that every block that takes part
      advertises within its limits; without any if compression is ruled out. */
  lemma SelectionIsSound(request: bv64, usage: bv64, afbcAllowed: bool, caps: Caps)
    requires IsHalFormat(request) && !Has(usage, PRIVATE_FORMAT)
    ensures var word := SelectFormat(request, Usage, usage, afbcAllowed, caps);
      var (producer, pLimits) := DetermineProducer(caps, request, usage);
      var (consumer, cLimits) := DetermineConsumer(caps, request, usage);
      var limits := ProducerLimits(pLimits, MapFlex(request), usage, afbcAllowed);
      && (word == 0 || SoundWord(word, MapFlex(request), producer, consumer, limits, cLimits, caps))
      && (CompressionRuledOut(request, usage, afbcAllowed) ==> Modifiers(word) == 0)
  {
    var word := SelectFormat(request, Usage, usage, afbcAllowed, caps);
    SelectedWord(request, usage, afbcAllowed, caps);
    if word != 0 {
      var f := MapFlex(request);
      var mods := SelectedModifiers(request, usage, afbcAllowed, caps);
      var (producer, pLimits) := DetermineProducer(caps, request, usage);
      var (consumer, cLimits) := DetermineConsumer(caps, request, usage);
      var limits := ProducerLimits(pLimits, f, usage, afbcAllowed);
      SelectedSoundly(request, usage, afbcAllowed, caps);
      MapFlexIsHal(request);
      HalFormatWidens(f);
      BitsOfModifiers(mods);
      ModifiersMakeSoundWord(f, mods, ModifierBits(mods), word, producer, consumer, limits, cLimits, caps);
    }
  }

  lemma WordOfBits(f: bv64, bits: bv64, word: bv64)
    requires IsInt(f) && bits & FMT_MASK == 0 && word == f | bits
    ensures Base(word) == f && Modifiers(word) == bits
    ensures word & AFBC_BASIC == bits & AFBC_BASIC && word & AFBC_SPLITBLK == bits & AFBC_SPLITBLK
    ensures word & AFBC_TILED_HEADERS == bits & AFBC_TILED_HEADERS && word & AFBC_WIDEBLK == bits & AFBC_WIDEBLK
    ensures word & ME_EXT_MASK == bits & ME_EXT_MASK
  {
    OverBase(f, bits);
  }

  lemma ExclusiveOfBits(bits: bv64, word: bv64)
    requires word & ME_EXT_MASK == bits & ME_EXT_MASK && !Clashes(bits)
    ensures AtMostOneExclusive(word)
  {
    ClashesByMask(word, bits);
    PassesCheck(word);
  }

  /** Reading a word's modifiers back. */
  lemma WordOfModifiers(f: bv64, mods: set<Modifier>, bits: bv64, word: bv64)
    requires IsInt(f) && Encodes(bits, mods) && word == f | bits
    ensures Base(word) == f
    ensures word & AFBC_BASIC != 0 <==> BasicBlocks in mods
    ensures word & AFBC_SPLITBLK != 0 <==> SplitBlocks in mods
    ensures word & AFBC_TILED_HEADERS != 0 <==> TiledHeader in mods
    ensures word & AFBC_WIDEBLK == 0
    ensures mods == {} ==> Modifiers(word) == 0
    ensures !(BasicBlocks in mods && SplitBlocks in mods) ==> AtMostOneExclusive(word)
  {
    WordOfBits(f, bits, word);
    if !(BasicBlocks in mods && SplitBlocks in mods) {
      ExclusiveOfBits(bits, word);
    }
  }
}
