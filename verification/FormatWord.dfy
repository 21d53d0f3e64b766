/** The 64-bit format word of hal/gralloc/mali_gralloc_formats.h: a base format in the low half,
    mutually exclusive modifiers in bits 32 to 47 and regular ones above; and its 32-bit packing. */
module FormatWord {

  const FMT_MASK: bv64 := 0x0000_0000_ffff_ffff
  const EXT_MASK: bv64 := 0xffff_ffff_0000_0000
  const ME_EXT_MASK: bv64 := 0x0000_ffff_0000_0000

  const AFBC_BASIC: bv64 := 0x0000_0001_0000_0000
  const AFBC_SPLITBLK: bv64 := 0x0000_0002_0000_0000
  const AFBC_WIDEBLK: bv64 := 0x0000_0008_0000_0000
  const AFBC_TILED_HEADERS: bv64 := 0x0001_0000_0000_0000
  const AFBCENABLE_MASK: bv64 := 0x0000_000b_0000_0000

  // HAL formats, as Android's system/graphics.h numbers them.
  const RGBA_8888: bv64 := 1
  const RGBX_8888: bv64 := 2
  const RGB_888: bv64 := 3
  const RGB_565: bv64 := 4
  const BGRA_8888: bv64 := 5
  const YCrCb_420_SP: bv64 := 0x11
  const YCbCr_422_I: bv64 := 0x14
  const RAW16: bv64 := 0x20
  const BLOB: bv64 := 0x21
  const IMPLEMENTATION_DEFINED: bv64 := 0x22
  const YCbCr_420_888: bv64 := 0x23
  const RAW10: bv64 := 0x25
  const RAW12: bv64 := 0x26
  const YCbCr_422_888: bv64 := 0x27
  const YCbCr_444_888: bv64 := 0x28
  const Y8: bv64 := 0x2020_3859
  const Y16: bv64 := 0x2036_3159
  const YV12: bv64 := 0x3231_5659

  // Internal formats, from MALI_GRALLOC_FORMAT_INTERNAL_RANGE_BASE up.
  const NV12: bv64 := 0x100
  const NV21: bv64 := 0x101
  const YUV422_8BIT: bv64 := 0x102
  const Y0L2: bv64 := 0x103
  const P010: bv64 := 0x104
  const P210: bv64 := 0x105
  const Y210: bv64 := 0x106
  const Y410: bv64 := 0x107
  const YV12_WRAP: bv64 := 0x108
  const Y8_WRAP: bv64 := 0x109
  const Y16_WRAP: bv64 := 0x10a

  /** The base format of a word. */
  function Base(word: bv64): bv64 {
    word & FMT_MASK
  }

  function Modifiers(word: bv64): bv64 {
    word & EXT_MASK
  }

  // ---------------------------------------------------------------- packing

  /** The bit pattern of a 32-bit int. */
  predicate IsInt(x: bv64) {
    x & EXT_MASK == 0
  }

  /** The three formats too large to pack have codes of their own. */
  function WrapBase(format: bv64): bv64 {
    if format == YV12 then YV12_WRAP else if format == Y8 then Y8_WRAP else if format == Y16 then Y16_WRAP else format
  }

  function UnwrapBase(format: bv64): bv64 {
    if format == YV12_WRAP then YV12 else if format == Y8_WRAP then Y8 else if format == Y16_WRAP then Y16 else format
  }

  /** mali_gralloc_format_wrapper */
  function Wrap(format: bv64, modifiers: bv64): bv64 {
    modifiers | WrapBase(format)
  }

  /** The conversion of an int to a uint64_t: the sign bit is carried into the upper half. */
  function SignExtend(x: bv64): bv64 {
    (x ^ 0x8000_0000) - 0x8000_0000
  }

  /** The three fields of a packed int, put in their places. */
  function Spread(x: bv64): bv64 {
    var wide := SignExtend(x);
    ((wide & 0xff00_0000) << 24) | ((wide & 0x00ff_0000) << 16) | (wide & 0x0000_ffff)
  }

  /** mali_gralloc_format_unwrap */
  function Unwrap(x: bv64): bv64 {
    Modifiers(Spread(x)) | UnwrapBase(Base(Spread(x)))
  }

  /** The format-word modifiers that packed modifiers stand for: bits 16 to 23 are exclusive, bits
      24 to 31 regular. */
  function Unpacked(modifiers: bv64): bv64 {
    ((modifiers & 0xff00_0000) << 24) | ((modifiers & 0x00ff_0000) << 16)
  }

  predicate Packed(modifiers: bv64) {
    modifiers & 0xffff_0000 == modifiers
  }

  /** The base formats that survive packing: the three with codes of their own, and those that fit 16
      bits without being one of these codes. */
  predicate Wrappable(format: bv64) {
    || format == YV12 || format == Y8 || format == Y16
    || (format & 0xffff_0000 == 0 && format != YV12_WRAP && format != Y8_WRAP && format != Y16_WRAP)
  }

  lemma SpreadBase(x: bv64)
    requires IsInt(x)
    ensures Base(Spread(x)) == x & 0xffff
  {
  }

  lemma SpreadModifiers(x: bv64)
    requires IsInt(x)
    ensures Modifiers(Spread(x)) == Unpacked(x)
  {
  }

  /** Or-ing a base format under packed modifiers. */
  lemma PackedLow(f: bv64, modifiers: bv64)
    requires IsInt(f) && Packed(modifiers)
    ensures IsInt(modifiers | f) && (modifiers | f) & 0xffff == f & 0xffff
  {
  }

  lemma PackedHigh(f: bv64, modifiers: bv64)
    requires IsInt(f) && Packed(modifiers) && f & 0xffff_0000 == 0
    ensures Unpacked(modifiers | f) == Unpacked(modifiers) && f & 0xffff == f
  {
  }

  lemma WrappableLow(format: bv64, f: bv64)
    requires IsInt(format) && f == WrapBase(format)
    ensures Wrappable(format) ==> f & 0xffff_0000 == 0 && UnwrapBase(f) == format
    ensures !Wrappable(format) && f & 0xffff_0000 == 0 ==> UnwrapBase(f) != format
    ensures f & 0xffff_0000 != 0 ==> f == format && !Wrappable(format)
  {
  }

  lemma UnwrapBaseIsInt(low: bv64)
    requires IsInt(low)
    ensures IsInt(UnwrapBase(low))
  {
  }

  /** A number of 16 bits never unwraps to one that needs more, the three special formats apart. */
  lemma LargeNeverComesBack(format: bv64, low: bv64)
    requires IsInt(format) && low & 0xffff == low && format & 0xffff_0000 != 0 && !Wrappable(format)
    ensures UnwrapBase(low) != format
  {
  }

  lemma LowBits(f: bv64)
    ensures (f & 0xffff) & 0xffff == f & 0xffff && IsInt(f & 0xffff)
  {
  }

  lemma WrapBaseIsInt(format: bv64)
    requires IsInt(format)
    ensures IsInt(WrapBase(format))
  {
  }

  lemma UnwrapIs(x: bv64, low: bv64, base: bv64)
    requires IsInt(x) && low == x & 0xffff && base == UnwrapBase(low)
    ensures Unwrap(x) == Unpacked(x) | base
  {
    SpreadBase(x);
    SpreadModifiers(x);
  }

  /** A packed int unwraps to its modifiers, in their places, over its unwrapped base format. */
  lemma UnwrapPacked(modifiers: bv64, f: bv64, low: bv64, x: bv64, base: bv64)
    requires IsInt(f) && Packed(modifiers) && low == f & 0xffff && x == modifiers | f && base == UnwrapBase(low)
    ensures Unwrap(x) == Unpacked(x) | base
  {
    PackedLow(f, modifiers);
    UnwrapIs(x, low, base);
  }

  lemma OrParts(modifiers: bv64, base: bv64, word: bv64)
    requires IsInt(base) && word == Unpacked(modifiers) | base
    ensures Base(word) == base && Modifiers(word) == Unpacked(modifiers)
  {
  }

  /** The comparison of UnwrapWrap, for any word with the parts that unwrapping yields. */
  lemma CompareParts(format: bv64, f: bv64, modifiers: bv64, word: bv64)
    requires IsInt(format) && Packed(modifiers) && f == WrapBase(format) && IsInt(f)
    requires Base(word) == UnwrapBase(f & 0xffff) && Modifiers(word) == Unpacked(modifiers | f)
    ensures Wrappable(format) <==> Base(word) == format && Modifiers(word) == Unpacked(modifiers)
  {
    WrappableLow(format, f);
    if f & 0xffff_0000 == 0 {
      PackedHigh(f, modifiers);
    } else {
      LowBits(f);
      LargeNeverComesBack(format, f & 0xffff);
    }
  }

  /** The same, for a word of that form. */
  lemma CompareUnwrapped(format: bv64, modifiers: bv64, f: bv64, low: bv64, x: bv64, base: bv64, word: bv64)
    requires IsInt(format) && Packed(modifiers) && f == WrapBase(format) && low == f & 0xffff
    requires x == modifiers | f && base == UnwrapBase(low) && word == Unpacked(x) | base
    ensures Wrappable(format) <==> Base(word) == format && Modifiers(word) == Unpacked(modifiers)
  {
    WrapBaseIsInt(format);
    LowBits(f);
    UnwrapBaseIsInt(low);
    OrParts(x, base, word);
    CompareParts(format, f, modifiers, word);
  }

  lemma UnwrapWrapParts(format: bv64, modifiers: bv64, f: bv64, x: bv64, base: bv64)
    requires IsInt(format) && Packed(modifiers)
    requires f == WrapBase(format) && x == modifiers | f && base == UnwrapBase(f & 0xffff)
    ensures Wrappable(format) <==> Base(Unwrap(x)) == format && Modifiers(Unwrap(x)) == Unpacked(modifiers)
  {
    WrapBaseIsInt(format);
    UnwrapPacked(modifiers, f, f & 0xffff, x, base);
    CompareUnwrapped(format, modifiers, f, f & 0xffff, x, base, Unwrap(x));
  }

  /** Unwrapping a wrapped format restores the base format and the modifiers, if and only if the
      format is wrappable. */
  lemma UnwrapWrap(format: bv64, modifiers: bv64)
    requires IsInt(format) && Packed(modifiers)
    ensures Wrappable(format) <==>
      && Base(Unwrap(Wrap(format, modifiers))) == format
      && Modifiers(Unwrap(Wrap(format, modifiers))) == Unpacked(modifiers)
  {
    UnwrapWrapParts(format, modifiers, WrapBase(format), Wrap(format, modifiers),
                    UnwrapBase(WrapBase(format) & 0xffff));
  }

  lemma UnpackedInjective(m: bv64, n: bv64)
    requires Packed(m) && Packed(n) && Unpacked(m) == Unpacked(n)
    ensures m == n
  {
  }

  /** So packing loses nothing. */
  lemma WrapInjective(f: bv64, m: bv64, g: bv64, n: bv64)
    requires IsInt(f) && IsInt(g) && Wrappable(f) && Wrappable(g) && Packed(m) && Packed(n)
    requires Wrap(f, m) == Wrap(g, n)
    ensures f == g && m == n
  {
    UnwrapWrap(f, m);
    UnwrapWrap(g, n);
    UnpackedInjective(m, n);
  }

  lemma UnwrapParts(x: bv64, low: bv64, base: bv64, word: bv64)
    requires IsInt(x) && low == x & 0xffff && base == UnwrapBase(low) && word == Unwrap(x)
    ensures Base(word) == base && Modifiers(word) == Unpacked(x)
  {
    LowBits(x);
    UnwrapBaseIsInt(low);
    UnwrapIs(x, low, base);
    OrParts(x, base, word);
  }

  lemma ModifierBits4(word: bv64)
    ensures word & 0x1_0000_0000 == Modifiers(word) & 0x1_0000_0000
    ensures word & 0x2_0000_0000 == Modifiers(word) & 0x2_0000_0000
    ensures word & 0x8_0000_0000 == Modifiers(word) & 0x8_0000_0000
    ensures word & 0x1_0000_0000_0000 == Modifiers(word) & 0x1_0000_0000_0000
  {
  }

  /** What a packed int stands for: the modifiers of bits 16, 17, 19 and 24 are those of bits 32, 33, 35 and
      48, and its low half is the format, three codes standing for formats that do not fit. */
  lemma UnwrapByBits(x: bv64, word: bv64, low: bv64)
    requires IsInt(x) && word == Unwrap(x) && low == x & 0xffff
    ensures word & 0x1_0000_0000 != 0 <==> x & 0x1_0000 != 0
    ensures word & 0x2_0000_0000 != 0 <==> x & 0x2_0000 != 0
    ensures word & 0x8_0000_0000 != 0 <==> x & 0x8_0000 != 0
    ensures word & 0x1_0000_0000_0000 != 0 <==> x & 0x100_0000 != 0
    ensures word & 0xffff_ffff == if low == 0x108 then 0x3231_5659 else if low == 0x109 then 0x2020_3859
                                  else if low == 0x10a then 0x2036_3159 else low
  {
    UnwrapParts(x, low, UnwrapBase(low), word);
    PartsByBits(x, word, low);
  }

  lemma PartsByBits(x: bv64, word: bv64, low: bv64)
    requires Base(word) == UnwrapBase(low) && Modifiers(word) == Unpacked(x)
    ensures word & 0x1_0000_0000 != 0 <==> x & 0x1_0000 != 0
    ensures word & 0x2_0000_0000 != 0 <==> x & 0x2_0000 != 0
    ensures word & 0x8_0000_0000 != 0 <==> x & 0x8_0000 != 0
    ensures word & 0x1_0000_0000_0000 != 0 <==> x & 0x100_0000 != 0
    ensures word & 0xffff_ffff == if low == 0x108 then 0x3231_5659 else if low == 0x109 then 0x2020_3859
                                  else if low == 0x10a then 0x2036_3159 else low
  {
    BitsFollow(word, Modifiers(word), Unpacked(x), x);
    UnwrapBaseByNumber(low);
  }

  lemma BitsFollow(word: bv64, modifiers: bv64, unpacked: bv64, x: bv64)
    requires modifiers == Modifiers(word) && modifiers == unpacked && unpacked == Unpacked(x)
    ensures word & 0x1_0000_0000 != 0 <==> x & 0x1_0000 != 0
    ensures word & 0x2_0000_0000 != 0 <==> x & 0x2_0000 != 0
    ensures word & 0x8_0000_0000 != 0 <==> x & 0x8_0000 != 0
    ensures word & 0x1_0000_0000_0000 != 0 <==> x & 0x100_0000 != 0
  {
    ModifierBits4(word);
    UnpackedBits(x);
  }

  lemma UnwrapBaseByNumber(low: bv64)
    ensures UnwrapBase(low) == if low == 0x108 then 0x3231_5659 else if low == 0x109 then 0x2020_3859
                               else if low == 0x10a then 0x2036_3159 else low
  {
  }

  lemma UnpackedBits(x: bv64)
    ensures Unpacked(x) & 0x1_0000_0000 != 0 <==> x & 0x1_0000 != 0
    ensures Unpacked(x) & 0x2_0000_0000 != 0 <==> x & 0x2_0000 != 0
    ensures Unpacked(x) & 0x8_0000_0000 != 0 <==> x & 0x8_0000 != 0
    ensures Unpacked(x) & 0x1_0000_0000_0000 != 0 <==> x & 0x100_0000 != 0
  {
  }

  // ---------------------------------------------------------------- decoding

  /** map_flex_formats, on bit patterns. */
  function MapFlex(format: bv64): bv64 {
    if format == IMPLEMENTATION_DEFINED || format == YCbCr_420_888 then NV12 else format
  }

  /** The base formats decode_internal_format accepts. */
  predicate Recognised(f: bv64) {
    || f == RGBA_8888 || f == RGBX_8888 || f == RGB_888 || f == RGB_565 || f == BGRA_8888
    || f == YV12 || f == Y8 || f == Y16 || f == RAW16 || f == RAW12 || f == RAW10 || f == BLOB
    || f == NV12 || f == NV21 || f == YUV422_8BIT || f == Y0L2 || f == P010 || f == P210 || f == Y210 || f == Y410
  }

  datatype FormatType = Usage | Internal | Other

  /** More than one exclusive modifier, by the bit trick the decoder uses. */
  predicate Clashes(word: bv64) {
    var me := word & ME_EXT_MASK;
    me > 0 && (me - 1) & me != 0
  }

  /** decode_internal_format, once the request is a format word. */
  function DecodeWord(word: bv64): bv64 {
    if Clashes(word) || !Recognised(MapFlex(Base(word))) then 0
    else if MapFlex(Base(word)) != Base(word) then Modifiers(word) | MapFlex(Base(word))
    else word
  }

  function DecodeInternalFormat(request: bv64, kind: FormatType): bv64 {
    match kind
    case Usage => DecodeWord(Unwrap(Base(request)))
    case Internal => DecodeWord(request)
    case Other => 0
  }

  predicate SingleBit(b: bv64) {
    b != 0 && b & (b - 1) == 0
  }

  /** No two different exclusive modifier bits are set. */
  ghost predicate AtMostOneExclusive(word: bv64) {
    forall b: bv64, c: bv64 :: SingleBit(b) && SingleBit(c) && b != c && (b | c) & ME_EXT_MASK == b | c
      ==> !(word & b == b && word & c == c)
  }

  lemma TwoBitsShow(me: bv64, b: bv64, c: bv64)
    requires SingleBit(b) && SingleBit(c) && b != c && me & b == b && me & c == c
    ensures me > 0 && (me - 1) & me != 0
  {
  }

  /** x & (x - 1) is x without its lowest bit, which is x & -x. */
  lemma LowestBit(x: bv64, b: bv64)
    requires x != 0 && b == x & (0 - x)
    ensures SingleBit(b) && x & b == b && (x & (x - 1)) & b == 0
  {
  }

  lemma Contained(x: bv64, rest: bv64, c: bv64)
    requires rest & x == rest && rest & c == c
    ensures x & c == c
  {
  }

  lemma Without(x: bv64)
    ensures (x & (x - 1)) & x == x & (x - 1)
  {
  }

  /** Two of the bits of a word that fails the check: the lowest, and the lowest of the rest. */
  lemma TwoBitsFound(me: bv64, rest: bv64, b: bv64, c: bv64)
    requires me != 0 && rest == me & (me - 1) && rest != 0
    requires b == me & (0 - me) && c == rest & (0 - rest)
    ensures SingleBit(b) && SingleBit(c) && b != c && me & b == b && me & c == c
  {
    LowestBit(me, b);
    LowestBit(rest, c);
    Without(me);
    Contained(me, rest, c);
  }

  lemma InMaskInWord(word: bv64, me: bv64, b: bv64)
    requires me == word & ME_EXT_MASK && me & b == b
    ensures b & ME_EXT_MASK == b && word & b == b
  {
  }

  lemma BothMasked(b: bv64, c: bv64)
    requires b & ME_EXT_MASK == b && c & ME_EXT_MASK == c
    ensures (b | c) & ME_EXT_MASK == b | c
  {
  }

  lemma Exhibits(word: bv64, b: bv64, c: bv64)
    requires SingleBit(b) && SingleBit(c) && b != c && (b | c) & ME_EXT_MASK == b | c && word & b == b && word & c == c
    ensures !AtMostOneExclusive(word)
  {
  }

  lemma FailsCheck(word: bv64, me: bv64, b: bv64, c: bv64)
    requires SingleBit(b) && SingleBit(c) && b != c && me & b == b && me & c == c && me == word & ME_EXT_MASK
    ensures !AtMostOneExclusive(word)
  {
    InMaskInWord(word, me, b);
    InMaskInWord(word, me, c);
    BothMasked(b, c);
    Exhibits(word, b, c);
  }

  lemma PassesCheck(word: bv64)
    requires !Clashes(word)
    ensures AtMostOneExclusive(word)
  {
    forall b: bv64, c: bv64 | SingleBit(b) && SingleBit(c) && b != c && (b | c) & ME_EXT_MASK == b | c
      ensures !(word & b == b && word & c == c)
    {
      if word & b == b && word & c == c {
        BothInMask(word, b, c);
        TwoBitsShow(word & ME_EXT_MASK, b, c);
      }
    }
  }

  /** The bit trick of the decoder rejects a word if and only if it has two exclusive modifiers. */
  lemma ClashesExactly(word: bv64)
    ensures Clashes(word) <==> !AtMostOneExclusive(word)
  {
    if Clashes(word) {
      var me := word & ME_EXT_MASK;
      var rest := me & (me - 1);
      var b, c := me & (0 - me), rest & (0 - rest);
      TwoBitsFound(me, rest, b, c);
      FailsCheck(word, me, b, c);
    } else {
      PassesCheck(word);
    }
  }

  lemma BothInMask(word: bv64, b: bv64, c: bv64)
    requires (b | c) & ME_EXT_MASK == b | c && word & b == b && word & c == c
    ensures (word & ME_EXT_MASK) & b == b && (word & ME_EXT_MASK) & c == c
  {
  }

  /** Replacing the base format leaves the modifiers and gives the new base. */
  lemma Rebase(word: bv64, base: bv64)
    requires base & EXT_MASK == 0
    ensures Modifiers(Modifiers(word) | base) == Modifiers(word)
    ensures Base(Modifiers(word) | base) == base
    ensures (Modifiers(word) | base) & ME_EXT_MASK == word & ME_EXT_MASK
  {
  }

  lemma RecognisedIsInt(f: bv64)
    requires Recognised(f)
    ensures IsInt(f) && MapFlex(f) == f
  {
  }

  /** A successful decoding yields the word with its base format mapped. */
  lemma DecodedWord(word: bv64)
    requires DecodeWord(word) != 0
    ensures Recognised(MapFlex(Base(word))) && !Clashes(word)
    ensures MapFlex(Base(word)) != Base(word) ==> DecodeWord(word) == (Modifiers(word) | MapFlex(Base(word)))
    ensures MapFlex(Base(word)) == Base(word) ==> DecodeWord(word) == word
  {
  }

  lemma RebasedParts(word: bv64, base: bv64, result: bv64)
    requires IsInt(base)
    requires base != Base(word) ==> result == (Modifiers(word) | base)
    requires base == Base(word) ==> result == word
    ensures Base(result) == base && Modifiers(result) == Modifiers(word)
    ensures result & ME_EXT_MASK == word & ME_EXT_MASK
  {
    if base != Base(word) { Rebase(word, base); }
  }

  /** A word that passed the check and has a recognised, mapped base format decodes to itself. */
  lemma DecodeFixed(word: bv64, base: bv64)
    requires !Clashes(word) && Base(word) == base && Recognised(base) && MapFlex(base) == base
    ensures DecodeWord(word) == word
  {
  }

  lemma ClashesByMask(a: bv64, b: bv64)
    requires a & ME_EXT_MASK == b & ME_EXT_MASK
    ensures Clashes(a) == Clashes(b)
  {
  }

  /** What decoding makes of a word that it does not reject. */
  lemma CanonicalResult(word: bv64, base: bv64, result: bv64)
    requires !Clashes(word) && Recognised(base)
    requires base != Base(word) ==> result == (Modifiers(word) | base)
    requires base == Base(word) ==> result == word
    ensures AtMostOneExclusive(result) && Recognised(Base(result)) && DecodeWord(result) == result
  {
    RecognisedIsInt(base);
    RebasedParts(word, base, result);
    ClashesByMask(word, result);
    PassesCheck(result);
    DecodeFixed(result, base);
  }

  lemma DecodeTwice(word: bv64)
    ensures AtMostOneExclusive(DecodeWord(word))
    ensures DecodeWord(word) != 0 ==> Recognised(Base(DecodeWord(word)))
    ensures DecodeWord(word) != 0 ==> DecodeWord(DecodeWord(word)) == DecodeWord(word)
  {
    if DecodeWord(word) == 0 {
      PassesCheck(0);
    } else {
      DecodedWord(word);
      CanonicalResult(word, MapFlex(Base(word)), DecodeWord(word));
    }
  }

  lemma RecognisedIsNotZero(word: bv64, base: bv64)
    requires Recognised(base) && Base(word) == base
    ensures word != 0
  {
  }

  /** A word decodes if and only if it has at most one exclusive modifier and a recognised base format,
      once the flexible ones are mapped; and then it keeps its modifiers over that format. */
  lemma DecodesExactly(word: bv64)
    ensures DecodeWord(word) != 0 <==> AtMostOneExclusive(word) && Recognised(MapFlex(Base(word)))
    ensures DecodeWord(word) != 0 ==>
      Base(DecodeWord(word)) == MapFlex(Base(word)) && Modifiers(DecodeWord(word)) == Modifiers(word)
  {
    ClashesExactly(word);
    if !Clashes(word) && Recognised(MapFlex(Base(word))) {
      RecognisedIsInt(MapFlex(Base(word)));
      RebasedParts(word, MapFlex(Base(word)), DecodeWord(word));
      RecognisedIsNotZero(DecodeWord(word), MapFlex(Base(word)));
    }
  }

  lemma ZeroDecodes()
    ensures DecodeWord(0) == 0
  {
  }

  lemma DecodedOnce(x: bv64, word: bv64)
    requires word == DecodeWord(x) || x == word == 0
    ensures AtMostOneExclusive(word) && (word != 0 ==> Recognised(Base(word))) && DecodeWord(word) == word
  {
    ZeroDecodes();
    DecodeTwice(x);
  }

  /** A decoded word is 0 or has a recognised base format and at most one exclusive modifier; and
      decoding it again as an internal format changes nothing.  No word has a type that is neither. */
  lemma DecodedIsCanonical(request: bv64, kind: FormatType)
    ensures var word := DecodeInternalFormat(request, kind);
      && AtMostOneExclusive(word)
      && (word != 0 ==> Recognised(Base(word)))
      && DecodeInternalFormat(word, Internal) == word
      && (kind == Other ==> word == 0)
  {
    match kind
    case Usage => DecodedOnce(Unwrap(Base(request)), DecodeInternalFormat(request, kind));
    case Internal => DecodedOnce(request, DecodeInternalFormat(request, kind));
    case Other => DecodedOnce(0, 0);
  }
}
