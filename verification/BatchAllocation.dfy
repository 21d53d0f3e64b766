/** mali_gralloc_buffer_allocate on several descriptors at once (hal/gralloc/
    mali_gralloc_bufferallocation.cpp): the loop that chooses a format word, an allocation type and a
    layout for each.  The type is declared outside the loop and never reset inside it. */
module BatchAllocation {
  import opened Arith
  import opened Errno
  import opened Options
  import opened FormatWord
  import opened FormatSelect
  import opened BufferAllocation
  import opened LayoutsCompared

  /** The fields of a descriptor that the client sets. */
  datatype Request = Request(width: nat, height: nat, format: bv64, kind: FormatType, usage: bv64, layers: nat)

  /** The fields that the allocation sets. */
  datatype Fields = Fields(internalFormat: bv64, layout: Layout)

  /** What a format word says of the allocation type: nothing, an AFBC mode, or that it has none. */
  datatype Mode = Plain | Compressed(t: AllocType) | Rejected

  /** What the loop is given: the choice of a format word, what that word says of the type, and the
      layout for a type and what the descriptor held before.  The loop is the same for any of them. */
  datatype Platform = Platform(word: Request -> bv64, mode: Request -> Mode,
                               layout: (Request, AllocType, Layout) -> Option<Layout>)

  /** The type a descriptor is allocated with when the loop brings `current` along. */
  function TypeFor(mode: Mode, current: AllocType): Option<AllocType> {
    match mode
    case Plain => Some(current)
    case Compressed(t) => Some(t)
    case Rejected => None
  }

  function SizeOne(r: Request, current: AllocType, before: Layout, p: Platform): Option<Fields> {
    match TypeFor(p.mode(r), current)
    case None => None
    case Some(t) =>
      match p.layout(r, t, before)
      case None => None
      case Some(l) => Some(Fields(p.word(r), l))
  }

  /** The results of the loop, up to the first descriptor that is rejected. */
  function Sizes(rs: seq<Request>, before: seq<Layout>, current: AllocType, p: Platform): (sized: seq<Fields>)
    requires |before| == |rs|
    ensures |sized| <= |rs|
    decreases |rs|
  {
    if rs == [] || SizeOne(rs[0], current, before[0], p).None? then []
    else [SizeOne(rs[0], current, before[0], p).value]
         + Sizes(rs[1..], before[1..], TypeFor(p.mode(rs[0]), current).value, p)
  }

  // ---------------------------------------------------------------- the loop

  class Descriptor {
    const request: Request
    var internalFormat: bv64
    var pixelStride: nat
    var byteStride: nat
    var size: nat
    var internalHeight: nat

    function Filled(): Layout
      reads this
    {
      Layout(pixelStride, byteStride, size, internalHeight)
    }

    constructor (request: Request)
      ensures this.request == request && internalFormat == 0 && Filled() == Layout(0, 0, 0, 0)
    {
      this.request := request;
      internalFormat, pixelStride, byteStride, size, internalHeight := 0, 0, 0, 0, 0;
    }

    /** The body of the loop, for one descriptor. */
    method Size(current: AllocType, p: Platform) returns (ok: bool, allocType: AllocType)
      modifies this
      ensures ok == SizeOne(request, current, old(Filled()), p).Some?
      ensures ok ==>
        && Fields(internalFormat, Filled()) == SizeOne(request, current, old(Filled()), p).value
        && TypeFor(p.mode(request), current) == Some(allocType)
    {
      var before := Filled();
      internalHeight := request.height;
      internalFormat := p.word(request);
      allocType := current;
      match p.mode(request) {
        case Rejected => return false, current;
        case Plain =>
        case Compressed(t) => allocType := t;
      }
      var layout := p.layout(request, allocType, before);
      if layout.None? {
        return false, allocType;
      }
      pixelStride, byteStride := layout.value.pixelStride, layout.value.byteStride;
      size, internalHeight := layout.value.size, layout.value.internalHeight;
      return true, allocType;
    }
  }

  function Requests(descriptors: seq<Descriptor>): (r: seq<Request>)
    ensures |r| == |descriptors|
  {
    seq(|descriptors|, i requires 0 <= i < |descriptors| => descriptors[i].request)
  }

  ghost function Layouts(descriptors: seq<Descriptor>): (r: seq<Layout>)
    reads descriptors
    ensures |r| == |descriptors|
  {
    seq(|descriptors|, i requires 0 <= i < |descriptors| reads descriptors => descriptors[i].Filled())
  }

  predicate Distinct(descriptors: seq<Descriptor>) {
    forall i, j :: 0 <= i < j < |descriptors| ==> descriptors[i] != descriptors[j]
  }

  lemma NextSize(rs: seq<Request>, before: seq<Layout>, sized: seq<Fields>, i: nat, current: AllocType, p: Platform)
    requires |before| == |rs| && i < |rs| && i <= |sized| && sized[i..] == Sizes(rs[i..], before[i..], current, p)
    ensures SizeOne(rs[i], current, before[i], p).None? ==> |sized| == i
    ensures SizeOne(rs[i], current, before[i], p).Some? ==>
      && i < |sized| && sized[i] == SizeOne(rs[i], current, before[i], p).value
      && sized[i + 1..] == Sizes(rs[i + 1..], before[i + 1..], TypeFor(p.mode(rs[i]), current).value, p)
  {
    assert rs[i..][0] == rs[i] && rs[i..][1..] == rs[i + 1..];
    assert before[i..][0] == before[i] && before[i..][1..] == before[i + 1..];
    if i < |sized| { assert sized[i + 1..] == sized[i..][1..]; }
  }

  /** The first loop of mali_gralloc_buffer_allocate: every descriptor before the first rejected one is
      filled in, and those after it are left as they were. */
  method SizeBuffers(descriptors: seq<Descriptor>, p: Platform) returns (ret: int)
    requires Distinct(descriptors)
    modifies descriptors
    ensures var sized := Sizes(Requests(descriptors), old(Layouts(descriptors)), Uncompressed, p);
      && ret == (if |sized| == |descriptors| then 0 else 0 - EINVAL)
      && (forall i :: 0 <= i < |sized| ==> Fields(descriptors[i].internalFormat, descriptors[i].Filled()) == sized[i])
      && (forall i :: |sized| < i < |descriptors| ==>
            descriptors[i].Filled() == old(descriptors[i].Filled())
            && descriptors[i].internalFormat == old(descriptors[i].internalFormat))
  {
    ghost var rs, before := Requests(descriptors), Layouts(descriptors);
    ghost var sized := Sizes(rs, before, Uncompressed, p);
    var allocType := Uncompressed;
    for i := 0 to |descriptors|
      invariant i <= |sized| && sized[i..] == Sizes(rs[i..], before[i..], allocType, p)
      invariant forall k :: 0 <= k < i ==> Fields(descriptors[k].internalFormat, descriptors[k].Filled()) == sized[k]
      invariant forall k :: i <= k < |descriptors| ==>
        descriptors[k].Filled() == before[k] && descriptors[k].internalFormat == old(descriptors[k].internalFormat)
    {
      NextSize(rs, before, sized, i, allocType, p);
      var ok, t := descriptors[i].Size(allocType, p);
      if !ok {
        return 0 - EINVAL;
      }
      allocType := t;
    }
    return 0;
  }

  // ---------------------------------------------------------------- a batch against its members

  /** What a descriptor gets when it is allocated alone. */
  function Alone(rs: seq<Request>, before: seq<Layout>, p: Platform): (r: seq<Option<Fields>>)
    requires |before| == |rs|
    ensures |r| == |rs|
  {
    seq(|rs|, i requires 0 <= i < |rs| => SizeOne(rs[i], Uncompressed, before[i], p))
  }

  /** The batch gives every descriptor what it would get alone, up to the first that would be rejected
      alone, and rejects that one. */
  predicate MatchesAlone(sized: seq<Fields>, alone: seq<Option<Fields>>) {
    && |sized| <= |alone| && (forall i :: 0 <= i < |sized| ==> alone[i] == Some(sized[i]))
    && (|sized| < |alone| ==> alone[|sized|].None?)
  }

  /** None before descriptor i would be rejected alone. */
  predicate Reached(rs: seq<Request>, before: seq<Layout>, i: nat, p: Platform)
    requires |before| == |rs| && i <= |rs|
  {
    forall k :: 0 <= k < i ==> SizeOne(rs[k], Uncompressed, before[k], p).Some?
  }

  /** The type that the loop brings along to descriptor i. */
  function Carried(rs: seq<Request>, current: AllocType, i: nat, p: Platform): AllocType
    requires i <= |rs|
  {
    if i == 0 then current else Carried(rs[1..], Next(p.mode(rs[0]), current), i - 1, p)
  }

  function Next(mode: Mode, current: AllocType): AllocType {
    if mode.Compressed? then mode.t else current
  }

  /** Descriptor i is not reached, has a mode of its own, or has the layout that it would get alone. */
  predicate Undisturbed(rs: seq<Request>, before: seq<Layout>, current: AllocType, i: nat, p: Platform)
    requires |before| == |rs| && i < |rs|
  {
    Reached(rs, before, i, p) && p.mode(rs[i]).Plain? ==>
      p.layout(rs[i], Carried(rs, current, i, p), before[i]) == p.layout(rs[i], Uncompressed, before[i])
  }

  predicate AllUndisturbed(rs: seq<Request>, before: seq<Layout>, current: AllocType, p: Platform)
    requires |before| == |rs|
  {
    forall i :: 0 <= i < |rs| ==> Undisturbed(rs, before, current, i, p)
  }

  lemma TailMatches(sized: seq<Fields>, alone: seq<Option<Fields>>)
    requires sized != [] && alone != []
    ensures MatchesAlone(sized, alone) <==> alone[0] == Some(sized[0]) && MatchesAlone(sized[1..], alone[1..])
  {
    if alone[0] == Some(sized[0]) && MatchesAlone(sized[1..], alone[1..]) {
      forall i | 0 <= i < |sized|
        ensures alone[i] == Some(sized[i])
      {
        if i > 0 { assert alone[1..][i - 1] == Some(sized[1..][i - 1]); }
      }
    }
    if MatchesAlone(sized, alone) {
      forall i | 0 <= i < |sized| - 1
        ensures alone[1..][i] == Some(sized[1..][i])
      {
        assert alone[i + 1] == Some(sized[i + 1]);
      }
    }
  }

  /** One step of the loop, seen from both sides. */
  lemma HeadAndTail(rs: seq<Request>, before: seq<Layout>, current: AllocType, p: Platform)
    requires |before| == |rs| > 0 && SizeOne(rs[0], current, before[0], p).Some?
    ensures MatchesAlone(Sizes(rs, before, current, p), Alone(rs, before, p)) <==>
      && SizeOne(rs[0], current, before[0], p) == SizeOne(rs[0], Uncompressed, before[0], p)
      && MatchesAlone(Sizes(rs[1..], before[1..], TypeFor(p.mode(rs[0]), current).value, p),
                      Alone(rs[1..], before[1..], p))
  {
    var sized := Sizes(rs, before, current, p);
    assert sized[1..] == Sizes(rs[1..], before[1..], TypeFor(p.mode(rs[0]), current).value, p);
    assert Alone(rs, before, p)[1..] == Alone(rs[1..], before[1..], p);
    TailMatches(sized, Alone(rs, before, p));
  }

  lemma ReachedLater(rs: seq<Request>, before: seq<Layout>, i: nat, p: Platform)
    requires |before| == |rs| && 0 < i <= |rs|
    ensures Reached(rs, before, i, p) <==>
      SizeOne(rs[0], Uncompressed, before[0], p).Some? && Reached(rs[1..], before[1..], i - 1, p)
  {
    forall k | 0 < k < i
      ensures rs[k] == rs[1..][k - 1] && before[k] == before[1..][k - 1]
    {
    }
    if Reached(rs, before, i, p) {
      forall k | 0 <= k < i - 1
        ensures SizeOne(rs[1..][k], Uncompressed, before[1..][k], p).Some?
      {
        assert SizeOne(rs[k + 1], Uncompressed, before[k + 1], p).Some?;
      }
    }
  }

  lemma UndisturbedTail(rs: seq<Request>, before: seq<Layout>, current: AllocType, p: Platform)
    requires |before| == |rs| > 0 && SizeOne(rs[0], Uncompressed, before[0], p).Some?
    ensures AllUndisturbed(rs, before, current, p) <==>
      && Undisturbed(rs, before, current, 0, p)
      && AllUndisturbed(rs[1..], before[1..], Next(p.mode(rs[0]), current), p)
  {
    var next := Next(p.mode(rs[0]), current);
    forall i | 0 <= i < |rs| - 1
      ensures Undisturbed(rs, before, current, i + 1, p) <==> Undisturbed(rs[1..], before[1..], next, i, p)
    {
      ReachedLater(rs, before, i + 1, p);
    }
    if Undisturbed(rs, before, current, 0, p) && AllUndisturbed(rs[1..], before[1..], next, p) {
      forall i | 0 <= i < |rs|
        ensures Undisturbed(rs, before, current, i, p)
      {
        if i > 0 { assert Undisturbed(rs[1..], before[1..], next, i - 1, p); }
      }
    }
    if AllUndisturbed(rs, before, current, p) {
      forall i | 0 <= i < |rs| - 1
        ensures Undisturbed(rs[1..], before[1..], next, i, p)
      {
        assert Undisturbed(rs, before, current, i + 1, p);
      }
    }
  }

  lemma NoneLater(rs: seq<Request>, before: seq<Layout>, current: AllocType, p: Platform)
    requires |before| == |rs| > 0 && SizeOne(rs[0], Uncompressed, before[0], p).None?
    ensures AllUndisturbed(rs, before, current, p) <==> Undisturbed(rs, before, current, 0, p)
  {
    forall i | 0 < i < |rs|
      ensures Undisturbed(rs, before, current, i, p)
    {
      ReachedLater(rs, before, i, p);
    }
  }

  /** On any platform, and from any type brought along: the loop gives every descriptor what it would get
      alone, up to the first that would be rejected alone, if and only if each of these without an AFBC
      mode gets the same layout, or none, with the type brought along to it. */
  lemma {:induction false} LoopMatchesExactly(rs: seq<Request>, before: seq<Layout>, current: AllocType, p: Platform)
    requires |before| == |rs|
    ensures MatchesAlone(Sizes(rs, before, current, p), Alone(rs, before, p))
      <==> AllUndisturbed(rs, before, current, p)
    decreases |rs|
  {
    if rs != [] {
      var alone := SizeOne(rs[0], Uncompressed, before[0], p);
      assert Alone(rs, before, p)[0] == alone;
      assert Undisturbed(rs, before, current, 0, p) <==> SizeOne(rs[0], current, before[0], p) == alone;
      if alone.None? {
        NoneLater(rs, before, current, p);
      } else {
        UndisturbedTail(rs, before, current, p);
        if SizeOne(rs[0], current, before[0], p).Some? {
          HeadAndTail(rs, before, current, p);
          LoopMatchesExactly(rs[1..], before[1..], Next(p.mode(rs[0]), current), p);
        }
      }
    }
  }

  /** A mode names a type that is compressed. */
  ghost predicate ModesCompress(p: Platform) {
    forall r: Request :: p.mode(r) != Compressed(Uncompressed)
  }

  /** A descriptor finds the type unset if and only if none before it has an AFBC mode. */
  lemma {:induction false} CarriedExactly(rs: seq<Request>, current: AllocType, i: nat, p: Platform)
    requires i <= |rs| && ModesCompress(p)
    ensures Carried(rs, current, i, p) == Uncompressed <==>
      current == Uncompressed && forall k :: 0 <= k < i ==> !p.mode(rs[k]).Compressed?
    decreases i
  {
    if i > 0 {
      CarriedExactly(rs[1..], Next(p.mode(rs[0]), current), i - 1, p);
      assert forall k :: 0 < k < i ==> rs[k] == rs[1..][k - 1];
      assert forall k :: 0 <= k < i - 1 ==> rs[1..][k] == rs[k + 1];
    }
  }

  /** No descriptor without an AFBC mode comes after one with. */
  predicate PlainFirst(rs: seq<Request>, p: Platform) {
    forall i, j :: 0 <= i < j < |rs| && p.mode(rs[j]).Plain? ==> !p.mode(rs[i]).Compressed?
  }

  lemma PlainFirstCarried(rs: seq<Request>, p: Platform)
    requires ModesCompress(p)
    ensures PlainFirst(rs, p) <==>
      forall i :: 0 <= i < |rs| && p.mode(rs[i]).Plain? ==> Carried(rs, Uncompressed, i, p) == Uncompressed
  {
    forall i | 0 <= i < |rs|
      ensures Carried(rs, Uncompressed, i, p) == Uncompressed <==> forall k :: 0 <= k < i ==> !p.mode(rs[k]).Compressed?
    {
      CarriedExactly(rs, Uncompressed, i, p);
    }
  }

  // ---------------------------------------------------------------- this allocator's choices

  /** What the build fixes: the capabilities, the video decoder's extra rows, and whether small
      buffers are left uncompressed, by comparison with a display of so many pixels. */
  datatype Hardware = Hardware(caps: Caps, videoBuild: bool, checksSize: bool, displayPixels: nat) {
    /** is_afbc_allowed */
    predicate AfbcAllowed(pixels: nat) {
      !checksSize || displayPixels == 0 || pixels * 100 / displayPixels >= 75
    }
  }

  /** A buffer is compressed only if it has three quarters of the display's pixels, where that is asked; the
      quotient that the code rounds down does not matter. */
  lemma AllowedExactly(h: Hardware, pixels: nat)
    ensures h.AfbcAllowed(pixels) <==> !h.checksSize || h.displayPixels == 0 || 4 * pixels >= 3 * h.displayPixels
  {
    if h.displayPixels > 0 { QuotientAtLeast(pixels * 100, h.displayPixels, 75); }
  }

  lemma QuotientAtLeast(n: nat, d: nat, k: nat)
    requires d > 0
    ensures n / d >= k <==> n >= k * d
  {
    DivBounds(n, d);
    if n / d >= k { MulLeq(k, n / d, d); } else { MulLeq(n / d + 1, k, d); }
  }

  function WordFor(r: Request, h: Hardware): bv64 {
    SelectFormat(r.format, r.kind, r.usage, h.AfbcAllowed(Mul(r.width, r.height)), h.caps)
  }

  function ModeOf(word: bv64, usage: bv64): Mode {
    if word == 0 then Rejected
    else if word & AFBCENABLE_MASK == 0 then Plain
    else match DetermineAllocType(word, usage, Uncompressed) { case None => Rejected case Some(t) => Compressed(t) }
  }

  function LayoutWith(word: bv64, r: Request, t: AllocType, before: Layout, h: Hardware): Option<Layout> {
    match LayoutFor(Base(word), r.width, r.height, r.usage, t, h.videoBuild, before)
    case None => None
    case Some(l) => Some(l.(size := AllocatedSize(l.size, word, r.layers)))
  }

  function Gralloc(h: Hardware): Platform {
    Platform((r: Request) => WordFor(r, h),
             (r: Request) => ModeOf(WordFor(r, h), r.usage),
             (r: Request, t: AllocType, before: Layout) => LayoutWith(WordFor(r, h), r, t, before, h))
  }

  /** The type of a descriptor, as the loop computes it from the word. */
  lemma ModeDecidesType(word: bv64, usage: bv64, current: AllocType)
    requires word != 0
    ensures DetermineAllocType(word, usage, current) == TypeFor(ModeOf(word, usage), current)
    ensures ModeOf(word, usage) != Compressed(Uncompressed)
  {
    EnableMaskIsThree(word);
  }

  lemma SizesAreInjective(a: nat, b: nat, word: bv64, layers: nat)
    requires word & AFBCENABLE_MASK == 0
    ensures AllocatedSize(a, word, layers) == AllocatedSize(b, word, layers) <==> a == b
  {
    if layers > 1 {
      if a < b { MulLess(a, b, layers); }
      if b < a { MulLess(b, a, layers); }
    }
  }

  /** A descriptor without an AFBC mode gets the same layout with type t, or is rejected either way, if and
      only if the layouts of its format coincide, whatever its layers. */
  lemma SameLayoutExactly(word: bv64, r: Request, t: AllocType, before: Layout, h: Hardware)
    requires word & AFBCENABLE_MASK == 0 && t != Uncompressed
    ensures LayoutWith(word, r, t, before, h) == LayoutWith(word, r, Uncompressed, before, h)
      <==> Coincides(Base(word), r.width, r.height, r.usage, t, h.videoBuild)
  {
    var plain := LayoutFor(Base(word), r.width, r.height, r.usage, Uncompressed, h.videoBuild, before);
    var packed := LayoutFor(Base(word), r.width, r.height, r.usage, t, h.videoBuild, before);
    CoincidesExactly(Base(word), r.width, r.height, r.usage, t, h.videoBuild, before);
    if packed.Some? && plain.Some? { SizesAreInjective(packed.value.size, plain.value.size, word, r.layers); }
  }

  /** A descriptor without an AFBC mode fares with the type t as it would alone. */
  predicate KeepsLayout(r: Request, t: AllocType, h: Hardware) {
    t == Uncompressed || Coincides(Base(WordFor(r, h)), r.width, r.height, r.usage, t, h.videoBuild)
  }

  lemma GrallocModesCompress(h: Hardware)
    ensures ModesCompress(Gralloc(h))
  {
    forall r: Request
      ensures Gralloc(h).mode(r) != Compressed(Uncompressed)
    {
      if WordFor(r, h) != 0 { ModeDecidesType(WordFor(r, h), r.usage, Uncompressed); }
    }
  }

  /** Of the descriptors that the batch reaches, i is without an AFBC mode and finds a type with which it
      does not fare as it would alone. */
  predicate Disturbed(rs: seq<Request>, before: seq<Layout>, i: nat, h: Hardware)
    requires |before| == |rs| && i < |rs|
  {
    && Reached(rs, before, i, Gralloc(h)) && Gralloc(h).mode(rs[i]).Plain?
    && !KeepsLayout(rs[i], Carried(rs, Uncompressed, i, Gralloc(h)), h)
  }

  lemma DisturbedExactly(rs: seq<Request>, before: seq<Layout>, i: nat, h: Hardware)
    requires |before| == |rs| && i < |rs|
    ensures Undisturbed(rs, before, Uncompressed, i, Gralloc(h)) <==> !Disturbed(rs, before, i, h)
  {
    var t := Carried(rs, Uncompressed, i, Gralloc(h));
    if Gralloc(h).mode(rs[i]).Plain? && t != Uncompressed {
      SameLayoutExactly(WordFor(rs[i], h), rs[i], t, before[i], h);
    }
  }

  /** Batches in this allocator.  A batch gives every descriptor what it would get alone, up to the first
      that would be rejected alone, if and only if every one of these without an AFBC mode either finds
      the type unset, as none before it has a mode, or fares with the type of the last one before it that
      has as it would without. */
  lemma BatchIsIndependentExactly(rs: seq<Request>, before: seq<Layout>, h: Hardware)
    requires |before| == |rs|
    ensures MatchesAlone(Sizes(rs, before, Uncompressed, Gralloc(h)), Alone(rs, before, Gralloc(h))) <==>
      forall i :: 0 <= i < |rs| ==> !Disturbed(rs, before, i, h)
  {
    LoopMatchesExactly(rs, before, Uncompressed, Gralloc(h));
    forall i | 0 <= i < |rs|
      ensures Undisturbed(rs, before, Uncompressed, i, Gralloc(h)) <==> !Disturbed(rs, before, i, h)
    {
      DisturbedExactly(rs, before, i, h);
    }
  }

  /** The descriptor holds pixels, and is not a 4:2:0 buffer for hardware use with an odd number of units
      to a row. */
  predicate Sensitive(r: Request, h: Hardware) {
    && r.width > 0 && r.height > 0
    && (!IsYuv420(Base(WordFor(r, h))) || h.videoBuild || StrideAlign(r.usage) == 16 || Units(r.width) % 2 == 0)
  }

  lemma SensitiveKeeps(r: Request, t: AllocType, before: Layout, h: Hardware)
    requires Sensitive(r, h) && SizeOne(r, Uncompressed, before, Gralloc(h)).Some? && Gralloc(h).mode(r).Plain?
    ensures KeepsLayout(r, t, h) <==> t == Uncompressed
  {
    if t != Uncompressed && Coincides(Base(WordFor(r, h)), r.width, r.height, r.usage, t, h.videoBuild) {
      SeldomCoincides(Base(WordFor(r, h)), r.width, r.height, r.usage, t, h.videoBuild, before);
    }
  }

  predicate AllAllocateAlone(rs: seq<Request>, before: seq<Layout>, p: Platform)
    requires |before| == |rs|
  {
    Reached(rs, before, |rs|, p)
  }

  /** Every descriptor without an AFBC mode is. */
  predicate AllSensitive(rs: seq<Request>, h: Hardware) {
    forall i :: 0 <= i < |rs| && Gralloc(h).mode(rs[i]).Plain? ==> Sensitive(rs[i], h)
  }

  /** In terms of the order alone: it is enough that those without an AFBC mode come first; and when all
      can be allocated alone, and the layouts of these never coincide, it is necessary. */
  lemma PlainFirstExactly(rs: seq<Request>, before: seq<Layout>, h: Hardware)
    requires |before| == |rs|
    ensures PlainFirst(rs, Gralloc(h)) ==>
      MatchesAlone(Sizes(rs, before, Uncompressed, Gralloc(h)), Alone(rs, before, Gralloc(h)))
    ensures AllAllocateAlone(rs, before, Gralloc(h)) && AllSensitive(rs, h) ==>
      (MatchesAlone(Sizes(rs, before, Uncompressed, Gralloc(h)), Alone(rs, before, Gralloc(h)))
       <==> PlainFirst(rs, Gralloc(h)))
  {
    GrallocModesCompress(h);
    PlainFirstCarried(rs, Gralloc(h));
    BatchIsIndependentExactly(rs, before, h);
    if AllAllocateAlone(rs, before, Gralloc(h)) {
      forall i | 0 <= i < |rs| && Gralloc(h).mode(rs[i]).Plain? && Sensitive(rs[i], h)
        ensures Disturbed(rs, before, i, h) <==> Carried(rs, Uncompressed, i, Gralloc(h)) != Uncompressed
      {
        SensitiveKeeps(rs[i], Carried(rs, Uncompressed, i, Gralloc(h)), before[i], h);
      }
    }
  }

  // ---------------------------------------------------------------- two descriptors

  /** A request for a format word, for hardware use. */
  function Asking(width: nat, height: nat, word: bv64): Request {
    Request(width, height, word, Internal, 0, 1)
  }

  /** A compressed buffer and a plain one after it. */
  lemma PairMatchesExactly(rs: seq<Request>, before: seq<Layout>, t: AllocType, h: Hardware)
    requires |rs| == 2 == |before| && Gralloc(h).mode(rs[0]) == Compressed(t) && Gralloc(h).mode(rs[1]).Plain?
    requires SizeOne(rs[0], Uncompressed, before[0], Gralloc(h)).Some?
    ensures MatchesAlone(Sizes(rs, before, Uncompressed, Gralloc(h)), Alone(rs, before, Gralloc(h)))
      <==> KeepsLayout(rs[1], t, h)
    ensures !PlainFirst(rs, Gralloc(h))
  {
    var p := Gralloc(h);
    assert Carried(rs, Uncompressed, 1, p) == Carried(rs[1..], Next(p.mode(rs[0]), Uncompressed), 0, p) == t;
    BatchIsIndependentExactly(rs, before, h);
    assert Disturbed(rs, before, 1, h) <==> !KeepsLayout(rs[1], t, h);
  }

  lemma CompressedAsked(r: Request, before: Layout, h: Hardware)
    requires r == Asking(r.width, r.height, RGBA_8888 | AFBC_BASIC)
    ensures Gralloc(h).mode(r) == Compressed(Afbc) && SizeOne(r, Uncompressed, before, Gralloc(h)).Some?
  {
  }

  lemma PlainAsked(r: Request, word: bv64, h: Hardware)
    requires word == RGBA_8888 || word == NV12 || word == YUV422_8BIT
    requires r == Asking(r.width, r.height, word)
    ensures Gralloc(h).mode(r).Plain? && Base(WordFor(r, h)) == word
  {
  }

  /** A compressed RGBA buffer, and one of these after it. */
  lemma AskedMatchesExactly(a: Request, b: Request, word: bv64, before: Layout, h: Hardware)
    requires word == RGBA_8888 || word == NV12 || word == YUV422_8BIT
    requires a == Asking(a.width, a.height, RGBA_8888 | AFBC_BASIC) && b == Asking(b.width, b.height, word)
    ensures !PlainFirst([a, b], Gralloc(h))
    ensures MatchesAlone(Sizes([a, b], [before, before], Uncompressed, Gralloc(h)),
                         Alone([a, b], [before, before], Gralloc(h)))
      <==> Coincides(word, b.width, b.height, 0, Afbc, h.videoBuild)
  {
    CompressedAsked(a, before, h);
    PlainAsked(b, word, h);
    PairMatchesExactly([a, b], [before, before], Afbc, h);
  }

  /** A compressed RGBA buffer and a plain one of any size, in one batch: the plain one does not get what
      it would get alone. */
  lemma PlainAfterCompressed(a: Request, b: Request, before: Layout, h: Hardware)
    requires a == Asking(a.width, a.height, RGBA_8888 | AFBC_BASIC) && b == Asking(b.width, b.height, RGBA_8888)
    requires b.width > 0 && b.height > 0
    ensures SizeOne(b, Uncompressed, before, Gralloc(h)).Some?
    ensures !MatchesAlone(Sizes([a, b], [before, before], Uncompressed, Gralloc(h)),
                          Alone([a, b], [before, before], Gralloc(h)))
  {
    PlainAsked(b, RGBA_8888, h);
    AskedMatchesExactly(a, b, RGBA_8888, before, h);
  }

  /** A compressed RGBA buffer and 128 by 16 pixels of NV12: the order is wrong, and it does not matter. */
  lemma Nv12AfterCompressed(a: Request, b: Request, before: Layout, h: Hardware)
    requires a == Asking(a.width, a.height, RGBA_8888 | AFBC_BASIC) && b == Asking(b.width, b.height, NV12)
    requires b.width == 128 && b.height == 16 && !h.videoBuild
    ensures !PlainFirst([a, b], Gralloc(h))
    ensures MatchesAlone(Sizes([a, b], [before, before], Uncompressed, Gralloc(h)),
                         Alone([a, b], [before, before], Gralloc(h)))
  {
    CoincidesAt128(NV12, b.width, b.height, 0, Afbc);
    AskedMatchesExactly(a, b, NV12, before, h);
  }

  /** A plain YUV422_8BIT buffer of any size, rejected alone and accepted after a compressed one. */
  lemma Yuv422AfterCompressed(a: Request, b: Request, before: Layout, h: Hardware)
    requires a == Asking(a.width, a.height, RGBA_8888 | AFBC_BASIC) && b == Asking(b.width, b.height, YUV422_8BIT)
    ensures SizeOne(b, Uncompressed, before, Gralloc(h)).None? && SizeOne(b, Afbc, before, Gralloc(h)).Some?
    ensures !MatchesAlone(Sizes([a, b], [before, before], Uncompressed, Gralloc(h)),
                          Alone([a, b], [before, before], Gralloc(h)))
  {
    PlainAsked(b, YUV422_8BIT, h);
    AskedMatchesExactly(a, b, YUV422_8BIT, before, h);
  }

  // ---------------------------------------------------------------- the requested size

  /** req_wh: width and height in one word, as the loop packs them. */
  function PackSize(width: bv32, height: bv32): bv32 {
    width | (height << 16)
  }

  /** What the handle reports as the requested size is what was requested if and only if both
      dimensions fit 16 bits. */
  lemma RequestedSizeExactly(width: bv32, height: bv32)
    ensures PackSize(width, height) & 0xffff == width && PackSize(width, height) >> 16 == height
      <==> width < 0x1_0000 && height < 0x1_0000
  {
  }

  /** A width of 65536 is lost, and changes the height. */
  lemma RequestedSizeLost()
    ensures PackSize(0x1_0000, 1) & 0xffff == 0 && PackSize(0x1_0000, 2) >> 16 == 3
  {
  }
}
