/** The selection of hal/gralloc/mali_gralloc_formats.cpp step by step: runtime masks narrowed
    bit by bit and a format word built up modifier by modifier, each method proved against its function
    in FormatSelect.  The function sees a mask as the set of the flags it lets through; the lemmas in
    front say what the operations on bits are on these sets. */
module FormatMasks {
  import opened FormatWord
  import opened FormatSelect

  const ALL_CAPS := {OptionsPresent, Basic, SplitBlk, WideBlk, YuvNoRead, YuvNoWrite, TiledHeaders}

  // ---------------------------------------------------------------- masks of bits

  /** The set of flags of a mask of bits. */
  function FlagsOf(mask: bv64): set<Cap> {
    set c | c in ALL_CAPS && mask & CapBit(c) != 0
  }

  /** `a & b` lets through what both do. */
  lemma FlagsOfAnd(a: bv64, b: bv64)
    ensures FlagsOf(a & b) == FlagsOf(a) * FlagsOf(b)
  {
    forall c | c in ALL_CAPS
      ensures (a & b) & CapBit(c) != 0 <==> a & CapBit(c) != 0 && b & CapBit(c) != 0
    {
      FlagOfAnd(a, b, c);
    }
  }

  const CAP_AFBCENABLE_MASK: bv64 := 0x8e
  const CAP_LARGE_BLOCKS: bv64 := 0x0c

  lemma ClearedFlags()
    ensures FlagsOf(!CAP_AFBCENABLE_MASK) == ALL_CAPS - CAP_AFBCENABLE
    ensures FlagsOf(!CAP_LARGE_BLOCKS) == ALL_CAPS - {SplitBlk, WideBlk}
  {
  }

  lemma AndClears(mask: bv64, keep: bv64, gone: set<Cap>)
    requires FlagsOf(keep) == ALL_CAPS - gone
    ensures FlagsOf(mask & keep) == FlagsOf(mask) - gone
  {
    FlagsOfAnd(mask, keep);
  }

  /** `mask & ~bits` takes away the flags of these bits. */
  lemma FlagsCleared(mask: bv64)
    ensures FlagsOf(mask & !CAP_AFBCENABLE_MASK) == FlagsOf(mask) - CAP_AFBCENABLE
  {
    ClearedFlags();
    AndClears(mask, !CAP_AFBCENABLE_MASK, CAP_AFBCENABLE);
  }

  lemma LargeBlocksCleared(mask: bv64)
    ensures FlagsOf(mask & !CAP_LARGE_BLOCKS) == FlagsOf(mask) - {SplitBlk, WideBlk}
  {
    ClearedFlags();
    AndClears(mask, !CAP_LARGE_BLOCKS, {SplitBlk, WideBlk});
  }

  // ---------------------------------------------------------------- runtime masks

  /** The capability masks of the hardware blocks. */
  datatype Masks = Masks(dpu: bv64, gpu: bv64, vpu: bv64, cam: bv64)

  function CapsOf(m: Masks): Caps {
    Caps(FlagsOf(m.dpu), FlagsOf(m.gpu), FlagsOf(m.vpu), FlagsOf(m.cam))
  }

  /** `mask & CAPABILITY`, as a condition. */
  predicate Offers(mask: bv64, c: Cap) {
    mask & CapBit(c) != 0
  }

  lemma Listed(c: Cap)
    ensures c in ALL_CAPS
  {
    match c
    case OptionsPresent => case Basic => case SplitBlk => case WideBlk =>
    case YuvNoRead => case YuvNoWrite => case TiledHeaders =>
  }

  lemma OffersInFlags(mask: bv64, c: Cap)
    ensures Offers(mask, c) <==> c in FlagsOf(mask)
  {
    Listed(c);
  }

  /** The flags that a mask removes. */
  function Removed(mask: bv64): set<Cap> {
    ALL_CAPS - FlagsOf(mask)
  }

  /** Narrowing by a set and taking away what it leaves out are the same. */
  lemma Narrows(s: set<Cap>, m: set<Cap>)
    ensures s * m == s - (ALL_CAPS - m)
    ensures ALL_CAPS - (m - s) == (ALL_CAPS - m) + s
  {
    forall c: Cap
      ensures c in ALL_CAPS
    {
      Listed(c);
    }
  }

  lemma AfbcRemoved(mask: bv64)
    ensures Removed(mask & !CAP_AFBCENABLE_MASK) == Removed(mask) + CAP_AFBCENABLE
  {
    FlagsCleared(mask);
    Narrows(CAP_AFBCENABLE, FlagsOf(mask));
  }

  lemma LargeBlocksRemoved(mask: bv64)
    ensures Removed(mask & !CAP_LARGE_BLOCKS) == Removed(mask) + {SplitBlk, WideBlk}
  {
    LargeBlocksCleared(mask);
    Narrows({SplitBlk, WideBlk}, FlagsOf(mask));
  }

  const ALL_BITS: bv64 := 0xffff_ffff_ffff_ffff

  lemma NothingRemoved()
    ensures Removed(ALL_BITS) == {}
  {
    forall c | c in ALL_CAPS
      ensures c in FlagsOf(ALL_BITS)
    {
      OffersInFlags(ALL_BITS, c);
    }
  }

  // ---------------------------------------------------------------- producer and consumer

  /** determine_producer */
  method DetermineProducer(mask: bv64, reqFormat: bv64, usage: bv64, caps: Masks)
    returns (ok: bool, producer: Producer, runtimeMask: bv64)
    ensures ok <==> !Has(usage, SW_MASK)
    ensures ok ==> producer == FormatSelect.DetermineProducer(CapsOf(caps), reqFormat, usage).0
    ensures ok ==>
      Removed(runtimeMask) == Removed(mask) + FormatSelect.DetermineProducer(CapsOf(caps), reqFormat, usage).1
  {
    producer, runtimeMask := GpuProducer, mask;
    OffersInFlags(caps.gpu, YuvNoWrite);
    if Has(usage, SW_MASK) {
      return false, producer, runtimeMask;
    } else if Has(usage, HW_RENDER) {
      if IsAndroidYuv(Base(reqFormat)) {
        if Offers(caps.gpu, YuvNoWrite) {
          AfbcRemoved(mask);
          runtimeMask := runtimeMask & !CAP_AFBCENABLE_MASK;
        } else {
          LargeBlocksRemoved(mask);
          runtimeMask := runtimeMask & !CAP_LARGE_BLOCKS;
        }
      }
      producer := GpuProducer;
    } else if Has(usage, HW_CAMERA_MASK) {
      producer := Camera;
    } else if HasAll(usage, HW_TEXTURE | HW_COMPOSER | EXTERNAL_DISP) {
      producer := VideoDecoder;
    }
    return true, producer, runtimeMask;
  }

  /** determine_consumer */
  method DetermineConsumer(mask: bv64, reqFormat: bv64, usage: bv64, caps: Masks)
    returns (ok: bool, consumer: Consumer, runtimeMask: bv64)
    ensures ok <==> !Has(usage, SW_MASK)
    ensures ok ==> consumer == FormatSelect.DetermineConsumer(CapsOf(caps), reqFormat, usage).0
    ensures ok ==>
      Removed(runtimeMask) == Removed(mask) + FormatSelect.DetermineConsumer(CapsOf(caps), reqFormat, usage).1
  {
    consumer, runtimeMask := GpuExclusive, mask;
    OffersInFlags(caps.vpu, YuvNoRead);
    OffersInFlags(caps.dpu, OptionsPresent);
    AfbcRemoved(mask);
    if Has(usage, SW_MASK) {
      return false, consumer, runtimeMask;
    } else if Has(usage, HW_FB) {
      consumer := GpuOrDisplay;
    } else if Has(usage, HW_VIDEO_ENCODER) {
      if IsAndroidYuv(Base(reqFormat)) {
        if Offers(caps.vpu, YuvNoRead) {
          runtimeMask := runtimeMask & !CAP_AFBCENABLE_MASK;
        }
      } else {
        runtimeMask := runtimeMask & !CAP_AFBCENABLE_MASK;
      }
      consumer := VideoEncoder;
    } else if HasAll(usage, HW_TEXTURE | HW_COMPOSER) && Offers(caps.dpu, OptionsPresent) {
      consumer := GpuOrDisplay;
    } else if Has(usage, HW_TEXTURE) {
      consumer := GpuExclusive;
    }
    return true, consumer, runtimeMask;
  }

  // ---------------------------------------------------------------- building up the word

  lemma BitsOfOne()
    ensures ModifierBits({}) == 0 && ModifierBits({BasicBlocks}) == AFBC_BASIC
    ensures ModifierBits({SplitBlocks}) == AFBC_SPLITBLK && ModifierBits({TiledHeader}) == AFBC_TILED_HEADERS
    ensures ModifierBits({BasicBlocks, TiledHeader}) == AFBC_BASIC | AFBC_TILED_HEADERS
  {
  }

  lemma OrNothing(f: bv64)
    ensures f | 0 == f
  {
  }

  lemma OrTwice(f: bv64, a: bv64, b: bv64)
    ensures (f | a) | b == f | (a | b)
  {
  }

  /** `format |= bits`, under a condition. */
  function OrIf(word: bv64, bits: bv64, on: bool): bv64 {
    if on then word | bits else word
  }

  lemma OrBoth(f: bv64, basic: bool, tiled: bool)
    ensures OrIf(OrIf(f, AFBC_BASIC, basic), AFBC_TILED_HEADERS, tiled)
         == WithModifiers(f, OneIf(BasicBlocks, basic) + OneIf(TiledHeader, tiled))
  {
    var mods := OneIf(BasicBlocks, basic) + OneIf(TiledHeader, tiled);
    BitsOfOne();
    OrNothing(f);
    if basic && tiled {
      OrTwice(f, AFBC_BASIC, AFBC_TILED_HEADERS);
      assert mods == {BasicBlocks, TiledHeader};
    } else if basic {
      assert mods == {BasicBlocks};
    } else if tiled {
      assert mods == {TiledHeader};
    } else {
      assert mods == {};
    }
  }

  /** A flag of which three masks are asked.  Where the source asks two, one is given twice. */
  method AllOffer(a: bv64, b: bv64, c: bv64, cap: Cap, ghost offered: set<Cap>) returns (all: bool)
    requires offered == FlagsOf(a) * FlagsOf(b) * FlagsOf(c)
    ensures all <==> cap in offered
  {
    OffersInFlags(a, cap);
    OffersInFlags(b, cap);
    OffersInFlags(c, cap);
    all := Offers(a, cap) && Offers(b, cap) && Offers(c, cap);
  }

  /** The modifiers of 16x16 blocks and of tiled headers, each under its condition. */
  method AddBasicAndTiled(format: bv64, basic: bool, tiled: bool, ghost offered: set<Cap>) returns (word: bv64)
    requires (basic <==> Basic in offered) && (tiled <==> TiledHeaders in offered)
    ensures word == WithModifiers(format, BasicAndTiled(offered))
  {
    OrBoth(format, basic, tiled);
    word := OrIf(format, AFBC_BASIC, basic);
    word := OrIf(word, AFBC_TILED_HEADERS, tiled);
  }

  /** Split blocks if offered, else 16x16 blocks, and then perhaps tiled headers. */
  method AddForDisplay(format: bv64, split: bool, basic: bool, tiled: bool,
                       ghost offered: set<Cap>) returns (word: bv64)
    requires (basic <==> Basic in offered) && (tiled <==> TiledHeaders in offered) && (split <==> SplitBlk in offered)
    ensures word == WithModifiers(format,
      if SplitBlk in offered then {SplitBlocks}
      else if Basic in offered then {BasicBlocks} + OneIf(TiledHeader, TiledHeaders in offered)
      else {})
  {
    BitsOfOne();
    OrNothing(format);
    if split {
      word := format | AFBC_SPLITBLK;
    } else if basic {
      word := AddBasicAndTiled(format, basic, tiled, offered);
    } else {
      word := format;
    }
  }

  /** What the blocks behind three masks offer of 16x16 blocks and tiled headers, added to the format. */
  method OfferBasicAndTiled(format: bv64, a: bv64, b: bv64, c: bv64, ghost offered: set<Cap>) returns (word: bv64)
    requires offered == FlagsOf(a) * FlagsOf(b) * FlagsOf(c)
    ensures word == WithModifiers(format, BasicAndTiled(offered))
  {
    var basic := AllOffer(a, b, c, Basic, offered);
    var tiled := AllOffer(a, b, c, TiledHeaders, offered);
    word := AddBasicAndTiled(format, basic, tiled, offered);
  }

  /** The same for a GPU that produces for the display. */
  method OfferForDisplay(format: bv64, gpuMask: bv64, dpuMask: bv64, ghost offered: set<Cap>) returns (word: bv64)
    requires offered == FlagsOf(gpuMask) * FlagsOf(dpuMask)
    ensures word == WithModifiers(format,
      if SplitBlk in offered then {SplitBlocks}
      else if Basic in offered then {BasicBlocks} + OneIf(TiledHeader, TiledHeaders in offered)
      else {})
  {
    var split := AllOffer(gpuMask, gpuMask, dpuMask, SplitBlk, offered);
    var basic := AllOffer(gpuMask, gpuMask, dpuMask, Basic, offered);
    var tiled := AllOffer(gpuMask, gpuMask, dpuMask, TiledHeaders, offered);
    word := AddForDisplay(format, split, basic, tiled, offered);
  }

  /** `mask &= runtime_mask` */
  method Narrow(mask: bv64, runtimeMask: bv64, ghost flags: set<Cap>, ghost limits: set<Cap>) returns (narrowed: bv64)
    requires flags == FlagsOf(mask) && limits == Removed(runtimeMask)
    ensures FlagsOf(narrowed) == flags - limits
  {
    FlagsOfAnd(mask, runtimeMask);
    Narrows(flags, FlagsOf(runtimeMask));
    narrowed := mask & runtimeMask;
  }

  /** The GPU as producer, its mask already narrowed to `gpu`. */
  method BestOfGpu(reqFormat: bv64, consumer: Consumer, gpuMask: bv64, consumerMask: bv64, caps: Masks,
                   ghost gpu: set<Cap>, ghost limits: set<Cap>) returns (word: bv64)
    requires gpu == FlagsOf(gpuMask) && limits == Removed(consumerMask)
    ensures word == WithModifiers(reqFormat, GpuModifiers(reqFormat, consumer, gpu, limits, CapsOf(caps)))
  {
    NoModifiers(reqFormat);
    word := reqFormat;
    if consumer == GpuOrDisplay {
      var gpuNarrowed := Narrow(gpuMask, consumerMask, gpu, limits);
      var dpuNarrowed := Narrow(caps.dpu, consumerMask, FlagsOf(caps.dpu), limits);
      word := OfferForDisplay(word, gpuNarrowed, dpuNarrowed, (gpu - limits) * (FlagsOf(caps.dpu) - limits));
    } else if consumer == GpuExclusive {
      var gpuNarrowed := Narrow(gpuMask, consumerMask, gpu, limits);
      word := OfferBasicAndTiled(word, gpuNarrowed, gpuNarrowed, gpuNarrowed, gpu - limits);
    } else if consumer == VideoEncoder {
      var vpuNarrowed := Narrow(caps.vpu, consumerMask, FlagsOf(caps.vpu), limits);
      if word == YV12 || word == NV12 {
        word := OfferBasicAndTiled(word, gpuMask, gpuMask, vpuNarrowed, gpu * (FlagsOf(caps.vpu) - limits));
      }
    }
  }

  /** The video decoder as producer. */
  method BestOfDecoder(reqFormat: bv64, consumer: Consumer, vpuMask: bv64, consumerMask: bv64, caps: Masks,
                       ghost vpu: set<Cap>, ghost limits: set<Cap>) returns (word: bv64)
    requires vpu == FlagsOf(vpuMask) && limits == Removed(consumerMask)
    ensures word
         == WithModifiers(reqFormat, if reqFormat == YV12 then DecoderModifiers(consumer, vpu, limits, CapsOf(caps))
                                             else {})
  {
    NoModifiers(reqFormat);
    word := reqFormat;
    var gpuNarrowed := Narrow(caps.gpu, consumerMask, FlagsOf(caps.gpu), limits);
    if consumer == GpuOrDisplay {
      var dpuNarrowed := Narrow(caps.dpu, consumerMask, FlagsOf(caps.dpu), limits);
      if word == YV12 {
        word := OfferBasicAndTiled(word, vpuMask, gpuNarrowed, dpuNarrowed,
                                   vpu * (FlagsOf(caps.gpu) - limits) * (FlagsOf(caps.dpu) - limits));
      }
    } else if consumer == GpuExclusive {
      if word == YV12 {
        word := OfferBasicAndTiled(word, gpuNarrowed, gpuNarrowed, vpuMask, (FlagsOf(caps.gpu) - limits) * vpu);
      }
    }
  }

  /** determine_best_format */
  method DetermineBestFormat(reqFormat: bv64, producer: Producer, consumer: Consumer,
                             producerMask: bv64, consumerMask: bv64, caps: Masks) returns (word: bv64)
    ensures word == FormatSelect.DetermineBestFormat(reqFormat, producer, consumer,
                                                     Removed(producerMask), Removed(consumerMask), CapsOf(caps))
  {
    OffersInFlags(caps.gpu, OptionsPresent);
    OffersInFlags(caps.vpu, OptionsPresent);
    NoModifiers(reqFormat);
    ghost var limits := Removed(producerMask);
    if producer == GpuProducer && Offers(caps.gpu, OptionsPresent) {
      var gpuMask := Narrow(caps.gpu, producerMask, FlagsOf(caps.gpu), limits);
      word := BestOfGpu(reqFormat, consumer, gpuMask, consumerMask, caps, FlagsOf(caps.gpu) - limits,
                        Removed(consumerMask));
    } else if producer == VideoDecoder && Offers(caps.vpu, OptionsPresent) {
      var vpuMask := Narrow(caps.vpu, producerMask, FlagsOf(caps.vpu), limits);
      word := BestOfDecoder(reqFormat, consumer, vpuMask, consumerMask, caps, FlagsOf(caps.vpu) - limits,
                            Removed(consumerMask));
    } else {
      word := reqFormat;
    }
  }

  /** The runtime limits that mali_gralloc_select_format adds. */
  method LimitProducer(mask: bv64, mapped: bv64, usage: bv64, afbcAllowed: bool) returns (limited: bv64)
    ensures Removed(limited) == ProducerLimits(Removed(mask), mapped, usage, afbcAllowed)
  {
    limited := mask;
    AfbcRemoved(mask);
    if HasAll(usage, NO_AFBC) {
      limited := limited & !CAP_AFBCENABLE_MASK;
    } else if !afbcAllowed {
      limited := limited & !CAP_AFBCENABLE_MASK;
    } else if !IsAfbcSupported(mapped) {
      limited := limited & !CAP_AFBCENABLE_MASK;
    }
  }

  /** The usage path of mali_gralloc_select_format. */
  method SelectByUsage(request: bv64, mapped: bv64, usage: bv64, afbcAllowed: bool, caps: Masks) returns (word: bv64)
    ensures word == FormatSelect.SelectByUsage(request, mapped, usage, afbcAllowed, CapsOf(caps))
  {
    NothingRemoved();
    var ok, producer, producerMask := DetermineProducer(ALL_BITS, request, usage, caps);
    if !ok {
      return mapped;
    }
    var consumer, consumerMask;
    ok, consumer, consumerMask := DetermineConsumer(ALL_BITS, request, usage, caps);
    if !ok {
      return mapped;
    }
    if HasAll(usage, NO_AFBC) && IsAndroidYuv(mapped) {
      return 0;
    }
    ghost var limits := FormatSelect.DetermineProducer(CapsOf(caps), request, usage).1;
    assert Removed(producerMask) == limits;
    assert Removed(consumerMask) == FormatSelect.DetermineConsumer(CapsOf(caps), request, usage).1;
    producerMask := LimitProducer(producerMask, mapped, usage, afbcAllowed);
    word := DetermineBestFormat(mapped, producer, consumer, producerMask, consumerMask, caps);
  }

  /** mali_gralloc_select_format */
  method Select(request: bv64, kind: FormatType, usage: bv64, afbcAllowed: bool, caps: Masks) returns (word: bv64)
    ensures word == SelectFormat(request, kind, usage, afbcAllowed, CapsOf(caps))
  {
    if Has(usage, PRIVATE_FORMAT) || kind == Internal {
      word := DecodeInternalFormat(request, kind);
    } else {
      word := SelectByUsage(request, SignExtend(Base(MapFlex(request))), usage, afbcAllowed, caps);
    }
  }
}
