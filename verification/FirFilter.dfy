/** hal/audio/fir_filter.c, the path without NEON: a block-streaming FIR filter over interleaved
    channels.  The filter keeps the last filter_length - 1 frames in front of its work buffer; the
    specification is convolution of the whole stream, which knows nothing of blocks. */
module FirFilter {
  import opened Arith
  import opened Samples

  datatype Mode = SingleFilter | PerChannelFilter

  /** What fir_init fixes: channels, taps per filter, and the coefficients of one or all channels. */
  datatype Design = Design(channels: nat, taps: nat, mode: Mode, coeffs: seq<int16>) {
    predicate Valid() {
      && channels > 0 && taps > 0
      && |coeffs| == if mode.PerChannelFilter? then taps * channels else taps
    }

    /** With filters per channel, the channels are filtered two by two, from two coefficient sets. */
    predicate Pairable() {
      mode.PerChannelFilter? ==> channels == 1 || channels % 2 == 0
    }

    predicate UsesSecondSet() {
      channels > 1 && mode.PerChannelFilter?
    }

    /** Where the coefficients of a channel start. */
    function Base(channel: nat): nat {
      if UsesSecondSet() then channel * taps else 0
    }

    /** Where the coefficients of a pair's second channel are read from. */
    function SecondBase(channel: nat): nat {
      if UsesSecondSet() then (channel + 1) * taps else 0
    }

    function Filter(channel: nat): (h: seq<int16>)
      requires Valid() && channel < channels
      ensures |h| == taps
      ensures 0 <= Base(channel) && Base(channel) + taps <= |coeffs| && h == coeffs[Base(channel)..Base(channel) + taps]
    {
      MulLeq(channel + 1, channels, taps);
      coeffs[Base(channel)..Base(channel) + taps]
    }

    /** Samples of history: all but one tap's worth of frames. */
    function History(): nat
      requires Valid()
    {
      MulLeq(0, taps - 1, channels);
      (taps - 1) * channels
    }
  }

  /** Every pair of channels has both its filters inside the coefficient array. */
  ghost predicate PairsInBounds(d: Design) {
    forall ch: nat :: ch < d.channels && ch % 2 == 0 ==>
      d.Base(ch) + d.taps <= |d.coeffs| && d.SecondBase(ch) + d.taps <= |d.coeffs|
  }

  lemma PairInBounds(d: Design, ch: nat)
    requires d.Valid() && d.Pairable() && ch < d.channels && ch % 2 == 0
    ensures d.Base(ch) + d.taps <= |d.coeffs| && d.SecondBase(ch) + d.taps <= |d.coeffs|
  {
    if d.UsesSecondSet() {
      MulLeq(ch + 2, d.channels, d.taps);
      assert (ch + 2) * d.taps == ch * d.taps + 2 * d.taps;
      assert (ch + 1) * d.taps == ch * d.taps + d.taps;
    }
  }

  /** No coefficient is read past the end of the array if and only if the design is pairable: with
      filters for each of an odd number of channels, the last one is paired with a filter that is not
      there. */
  lemma CoefficientsSufficeExactly(d: Design)
    requires d.Valid()
    ensures PairsInBounds(d) <==> d.Pairable()
  {
    if d.Pairable() {
      forall ch: nat | ch < d.channels && ch % 2 == 0
        ensures d.Base(ch) + d.taps <= |d.coeffs| && d.SecondBase(ch) + d.taps <= |d.coeffs|
      {
        PairInBounds(d, ch);
      }
    } else {
      var last := d.channels - 1;
      assert last % 2 == 0 && d.SecondBase(last) == d.channels * d.taps;
    }
  }

  /** Three channels with one coefficient each: the filter of a fourth would be read. */
  lemma ThirdFilterHasNoPair(a: int16, b: int16, c: int16, d: Design)
    requires d == Design(3, 1, PerChannelFilter, [a, b, c])
    ensures d.Valid() && !d.Pairable() && d.SecondBase(2) == |d.coeffs| && !PairsInBounds(d)
  {
    CoefficientsSufficeExactly(d);
  }

  // ---------------------------------------------------------------- convolution

  /** Sample i of a stream that is silent before its first and after its last sample. */
  function At(x: seq<int16>, i: int): int16 {
    if 0 <= i < |x| then x[i] else 0
  }

  /** The sample m places before sample i. */
  function Past(x: seq<int16>, i: int, m: int): int16 {
    At(x, i - m)
  }

  /** The first `taps` products of filter h at sample i of x, `stride` samples apart. */
  function Dot(h: seq<int16>, x: seq<int16>, i: int, stride: nat, taps: nat): int
    requires taps <= |h|
  {
    if taps == 0 then 0
    else Dot(h, x, i, stride, taps - 1) + Past(x, i, (taps - 1) * stride) * h[taps - 1]
  }

  /** r is the sum over 2^15, rounded down, or the nearest to it that 16 bits hold. */
  predicate IsQ15(r: int16, sum: int) {
    if sum < -0x4000_0000 then r == -0x8000
    else if sum >= 0x4000_0000 then r == 0x7fff
    else 0x8000 * r <= sum < 0x8000 * (r + 1)
  }

  /** A 16-bit output from a Q15 sum. */
  function FromQ15(acc: int): (r: int16)
    ensures IsQ15(r, acc)
  {
    Clamp16(acc / 0x8000)
  }

  /** Output sample i of the filtered stream; the channel of a sample is its index modulo channels. */
  function Output(d: Design, x: seq<int16>, i: nat): int16
    requires d.Valid()
  {
    FromQ15(Wrap32(Dot(d.Filter(i % d.channels), x, i, d.channels, d.taps)))
  }

  function Convolution(d: Design, x: seq<int16>): seq<int16>
    requires d.Valid()
  {
    seq(|x|, i requires 0 <= i => Output(d, x, i))
  }

  ghost predicate SamePast(x: seq<int16>, i: int, y: seq<int16>, j: int, span: int) {
    forall m :: 0 <= m <= span ==> Past(x, i, m) == Past(y, j, m)
  }

  lemma {:induction false} DotShift(h: seq<int16>, x: seq<int16>, i: int, y: seq<int16>, j: int, stride: nat, taps: nat)
    requires taps <= |h|
    requires SamePast(x, i, y, j, (taps - 1) * stride)
    ensures Dot(h, x, i, stride, taps) == Dot(h, y, j, stride, taps)
  {
    if taps > 0 {
      MulLeq(0, taps - 1, stride);
      MulLeq(taps - 2, taps - 1, stride);
      DotShift(h, x, i, y, j, stride, taps - 1);
    }
  }

  // ---------------------------------------------------------------- one block, from the history

  /** What fir_process_interleaved computes from the history and one block. */
  function BlockOutput(d: Design, history: seq<int16>, block: seq<int16>): (r: seq<int16>)
    requires d.Valid() && |history| == d.History()
    ensures |r| == |block|
  {
    seq(|block|, j requires 0 <= j => WindowOutput(d, history + block, j))
  }

  /** Output sample j of a block, from the work buffer that holds the history and the block. */
  function WindowOutput(d: Design, window: seq<int16>, j: nat): int16
    requires d.Valid()
  {
    ChannelOutput(d, window, j, j % d.channels)
  }

  /** The same, for a sample of a known channel. */
  function ChannelOutput(d: Design, window: seq<int16>, j: nat, channel: nat): int16
    requires d.Valid() && channel < d.channels
  {
    FromQ15(Wrap32(Dot(d.Filter(channel), window, d.History() + j, d.channels, d.taps)))
  }

  function NextHistory(history: seq<int16>, block: seq<int16>): (r: seq<int16>)
    ensures |r| == |history|
  {
    (history + block)[|block|..]
  }

  function Silence(n: nat): (r: seq<int16>)
    ensures |r| == n
  {
    seq(n, _ => 0)
  }

  /** The history holds the end of the stream so far. */
  ghost predicate IsHistory(d: Design, history: seq<int16>, x: seq<int16>)
    requires d.Valid()
  {
    && |history| == d.History()
    && forall j :: 0 <= j < |history| ==> history[j] == At(x, |x| - |history| + j)
  }

  lemma WindowIsStream(d: Design, history: seq<int16>, x: seq<int16>, block: seq<int16>, j: nat)
    requires d.Valid() && IsHistory(d, history, x) && |x| % d.channels == 0 && j < |block|
    ensures WindowOutput(d, history + block, j) == Output(d, x + block, |x| + j)
  {
    var w, y, n := history + block, x + block, d.History();
    var here, there := n + j, |x| + j;
    SameChannel(|x|, j, d.channels);
    forall m | 0 <= m <= n
      ensures Past(w, here, m) == Past(y, there, m)
    {
      if m > j { assert w[here - m] == history[here - m]; }
    }
    DotShift(d.Filter(j % d.channels), w, here, y, there, d.channels, d.taps);
  }

  lemma HistoryMovesOn(d: Design, history: seq<int16>, x: seq<int16>, block: seq<int16>)
    requires d.Valid() && IsHistory(d, history, x)
    ensures IsHistory(d, NextHistory(history, block), x + block)
  {
    var next, y := NextHistory(history, block), x + block;
    forall j | 0 <= j < |next|
      ensures next[j] == At(y, |y| - |next| + j)
    {
      if j + |block| < |history| { assert next[j] == history[j + |block|]; }
    }
  }

  /** One block of output continues the convolution where the stream so far left off. */
  lemma BlockIsConvolution(d: Design, history: seq<int16>, x: seq<int16>, block: seq<int16>)
    requires d.Valid() && IsHistory(d, history, x) && |x| % d.channels == 0
    ensures IsHistory(d, NextHistory(history, block), x + block)
    ensures forall j :: 0 <= j < |block| ==> BlockOutput(d, history, block)[j] == Output(d, x + block, |x| + j)
  {
    HistoryMovesOn(d, history, x, block);
    forall j | 0 <= j < |block|
      ensures BlockOutput(d, history, block)[j] == Output(d, x + block, |x| + j)
    {
      WindowIsStream(d, history, x, block, j);
    }
  }

  lemma SameChannel(n: nat, j: nat, channels: nat)
    requires channels > 0 && n % channels == 0
    ensures (n + j) % channels == j % channels
  {
    DivMod(n, channels); DivMod(j, channels);
    ModUnique(n + j, n / channels + j / channels, j % channels, channels);
  }

  lemma ModUnique(x: nat, q: nat, r: nat, d: nat)
    requires d > 0 && r < d && x == q * d + r
    ensures x % d == r
  {
    DivUnique(x, q, d);
    DivMod(x, d);
  }

  /** The past of an output does not change when the stream grows. */
  lemma OutputIsCausal(d: Design, x: seq<int16>, more: seq<int16>, i: nat)
    requires d.Valid() && i < |x|
    ensures Output(d, x + more, i) == Output(d, x, i)
  {
    forall m | 0 <= m <= (d.taps - 1) * d.channels
      ensures Past(x + more, i, m) == Past(x, i, m)
    {
    }
    DotShift(d.Filter(i % d.channels), x + more, i, x, i, d.channels, d.taps);
  }

  // ---------------------------------------------------------------- a whole stream of blocks

  function Concat(blocks: seq<seq<int16>>): seq<int16> {
    if blocks == [] then [] else Concat(blocks[..|blocks| - 1]) + blocks[|blocks| - 1]
  }

  function HistoryAfter(d: Design, blocks: seq<seq<int16>>): (r: seq<int16>)
    requires d.Valid()
    ensures |r| == d.History()
  {
    if blocks == [] then Silence(d.History())
    else NextHistory(HistoryAfter(d, blocks[..|blocks| - 1]), blocks[|blocks| - 1])
  }

  /** All that the filter puts out, block by block, from a reset. */
  function StreamOutput(d: Design, blocks: seq<seq<int16>>): seq<int16>
    requires d.Valid()
  {
    if blocks == [] then []
    else StreamOutput(d, blocks[..|blocks| - 1])
         + BlockOutput(d, HistoryAfter(d, blocks[..|blocks| - 1]), blocks[|blocks| - 1])
  }

  /** One more block. */
  lemma AppendBlock(d: Design, blocks: seq<seq<int16>>, block: seq<int16>)
    requires d.Valid()
    ensures StreamOutput(d, blocks + [block])
         == StreamOutput(d, blocks) + BlockOutput(d, HistoryAfter(d, blocks), block)
    ensures HistoryAfter(d, blocks + [block]) == NextHistory(HistoryAfter(d, blocks), block)
  {
    assert (blocks + [block])[..|blocks|] == blocks;
  }

  predicate WholeFrames(blocks: seq<seq<int16>>, channels: nat)
    requires channels > 0
  {
    forall i :: 0 <= i < |blocks| ==> |blocks[i]| % channels == 0
  }

  lemma {:induction false} WholeStream(blocks: seq<seq<int16>>, channels: nat)
    requires channels > 0 && WholeFrames(blocks, channels)
    ensures |Concat(blocks)| % channels == 0
  {
    if blocks != [] {
      var before, block := blocks[..|blocks| - 1], blocks[|blocks| - 1];
      WholeStream(before, channels);
      SameChannel(|Concat(before)|, |block|, channels);
    }
  }

  /** However it is cut up, the history is the end of the stream. */
  lemma {:induction false} HistoryOfStream(d: Design, blocks: seq<seq<int16>>)
    requires d.Valid()
    ensures IsHistory(d, HistoryAfter(d, blocks), Concat(blocks))
  {
    if blocks != [] {
      var before, block := blocks[..|blocks| - 1], blocks[|blocks| - 1];
      HistoryOfStream(d, before);
      HistoryMovesOn(d, HistoryAfter(d, before), Concat(before), block);
    }
  }

  /** Streaming equals convolution: after a reset, whatever the sizes of the blocks, the filter puts
      out the convolution of the whole stream. */
  lemma {:induction false} StreamingIsConvolution(d: Design, blocks: seq<seq<int16>>)
    requires d.Valid() && WholeFrames(blocks, d.channels)
    ensures StreamOutput(d, blocks) == Convolution(d, Concat(blocks))
  {
    if blocks != [] {
      var before, block := blocks[..|blocks| - 1], blocks[|blocks| - 1];
      var x := Concat(before);
      StreamingIsConvolution(d, before);
      HistoryOfStream(d, before);
      WholeStream(before, d.channels);
      BlockIsConvolution(d, HistoryAfter(d, before), x, block);
      forall i | 0 <= i < |x|
        ensures Output(d, x + block, i) == Convolution(d, x)[i]
      {
        OutputIsCausal(d, x, block, i);
      }
      assert StreamOutput(d, blocks) == Convolution(d, x + block);
    }
  }

  /** So block boundaries do not matter. */
  lemma BoundariesDoNotMatter(d: Design, a: seq<seq<int16>>, b: seq<seq<int16>>)
    requires d.Valid() && WholeFrames(a, d.channels) && WholeFrames(b, d.channels)
    requires Concat(a) == Concat(b)
    ensures StreamOutput(d, a) == StreamOutput(d, b)
  {
    StreamingIsConvolution(d, a);
    StreamingIsConvolution(d, b);
  }

  // ---------------------------------------------------------------- headroom of the accumulators

  function PositiveSum(h: seq<int16>, taps: nat): nat
    requires taps <= |h|
  {
    if taps == 0 then 0 else PositiveSum(h, taps - 1) + if h[taps - 1] > 0 then h[taps - 1] else 0
  }

  function NegativeSum(h: seq<int16>, taps: nat): nat
    requires taps <= |h|
  {
    if taps == 0 then 0 else NegativeSum(h, taps - 1) + if h[taps - 1] < 0 then 0 - (h[taps - 1] as int) else 0
  }

  /** The largest and the smallest sum any input can produce fit an int32. */
  predicate Headroom(h: seq<int16>) {
    && 0x7fff * PositiveSum(h, |h|) + 0x8000 * NegativeSum(h, |h|) <= 0x7fff_ffff
    && 0x8000 * PositiveSum(h, |h|) + 0x7fff * NegativeSum(h, |h|) <= 0x8000_0000
  }

  lemma {:induction false} SumsGrow(h: seq<int16>, taps: nat)
    requires taps <= |h|
    ensures PositiveSum(h, taps) <= PositiveSum(h, |h|) && NegativeSum(h, taps) <= NegativeSum(h, |h|)
    decreases |h| - taps
  {
    if taps < |h| { SumsGrow(h, taps + 1); }
  }

  lemma ProductBounds(v: int16, c: int16)
    ensures c >= 0 ==> -0x8000 * c <= v * c <= 0x7fff * c
    ensures c < 0 ==> 0x7fff * c <= v * c <= -0x8000 * c
  {
    if c >= 0 {
      MulLeq(-0x8000, v, c); MulLeq(v, 0x7fff, c);
    } else {
      MulLeq(-0x8000, v, 0 - c); MulLeq(v, 0x7fff, 0 - c);
      assert v * (0 - c) == 0 - v * c;
    }
  }

  lemma {:induction false} DotBounds(h: seq<int16>, x: seq<int16>, i: int, stride: nat, taps: nat)
    requires taps <= |h|
    ensures Dot(h, x, i, stride, taps) <= 0x7fff * PositiveSum(h, taps) + 0x8000 * NegativeSum(h, taps)
    ensures Dot(h, x, i, stride, taps) >= 0 - 0x8000 * PositiveSum(h, taps) - 0x7fff * NegativeSum(h, taps)
  {
    if taps > 0 {
      DotBounds(h, x, i, stride, taps - 1);
      ProductBounds(At(x, i - (taps - 1) * stride), h[taps - 1]);
    }
  }

  predicate Fits32(x: int) {
    -0x8000_0000 <= x <= 0x7fff_ffff
  }

  /** Every accumulator of filter h, partial sums included, stays within an int32 on every input. */
  ghost predicate NeverOverflows(h: seq<int16>) {
    forall x: seq<int16>, i: int, stride: nat, taps: nat | taps <= |h| :: Fits32(Dot(h, x, i, stride, taps))
  }

  /** The input that drives the sum of h as high (or as low) as it goes. */
  function WorstInput(h: seq<int16>, high: bool): (x: seq<int16>)
    ensures |x| == |h|
  {
    seq(|h|, j requires 0 <= j < |h| => if (h[|h| - 1 - j] > 0) == high then 0x7fff else -0x8000)
  }

  lemma {:induction false} WorstInputIsWorst(h: seq<int16>, taps: nat)
    requires taps <= |h|
    ensures Dot(h, WorstInput(h, true), |h| - 1, 1, taps)
         == 0x7fff * PositiveSum(h, taps) + 0x8000 * NegativeSum(h, taps)
    ensures Dot(h, WorstInput(h, false), |h| - 1, 1, taps)
         == 0 - 0x8000 * PositiveSum(h, taps) - 0x7fff * NegativeSum(h, taps)
  {
    if taps > 0 {
      WorstInputIsWorst(h, taps - 1);
      var i := |h| - 1 - (taps - 1) * 1;
      assert At(WorstInput(h, true), i) == if h[taps - 1] > 0 then 0x7fff else -0x8000;
      assert At(WorstInput(h, false), i) == if h[taps - 1] > 0 then -0x8000 else 0x7fff;
    }
  }

  /** No accumulator ever overflows, whatever the input, if and only if the filter has headroom. */
  lemma HeadroomExactly(h: seq<int16>)
    ensures Headroom(h) <==> NeverOverflows(h)
  {
    if Headroom(h) {
      forall x: seq<int16>, i: int, stride: nat, taps: nat | taps <= |h|
        ensures Fits32(Dot(h, x, i, stride, taps))
      {
        DotBounds(h, x, i, stride, taps);
        SumsGrow(h, taps);
      }
    }
    if NeverOverflows(h) {
      WorstInputIsWorst(h, |h|);
      assert Fits32(Dot(h, WorstInput(h, true), |h| - 1, 1, |h|));
      assert Fits32(Dot(h, WorstInput(h, false), |h| - 1, 1, |h|));
    }
  }

  /** A filter whose coefficients sum to at most 65535 in magnitude has headroom. */
  lemma BoundedNormHasHeadroom(h: seq<int16>)
    requires PositiveSum(h, |h|) + NegativeSum(h, |h|) <= 65535
    ensures Headroom(h)
  {
  }

  /** With headroom the 32-bit accumulator is the exact sum, and the output is that sum over 2^15, rounded
      down, or the nearest to it that 16 bits hold. */
  lemma OutputIsExact(d: Design, x: seq<int16>, i: nat)
    requires d.Valid() && Headroom(d.Filter(i % d.channels))
    ensures IsQ15(Output(d, x, i), Dot(d.Filter(i % d.channels), x, i, d.channels, d.taps))
  {
    HeadroomExactly(d.Filter(i % d.channels));
    assert Fits32(Dot(d.Filter(i % d.channels), x, i, d.channels, d.taps));
  }

  // ---------------------------------------------------------------- what the sums are

  /** Coefficient k of a channel, by its place in the array. */
  function Coefficient(d: Design, channel: nat, k: nat): int16
    requires d.Valid() && channel < d.channels && k < d.taps
  {
    MulLeq(channel + 1, d.channels, d.taps);
    MulLeq(0, channel, d.taps);
    if d.mode == PerChannelFilter && d.channels > 1 then d.coeffs[channel * d.taps + k] else d.coeffs[k]
  }

  /** The factor that sample j has in the sum at sample i: coefficient k if j lies k frames before i in the
      same channel, and k is less than the taps. */
  function Weight(d: Design, i: nat, j: nat): int16
    requires d.Valid()
  {
    if j <= i && (i - j) % d.channels == 0 && (i - j) / d.channels < d.taps
    then Coefficient(d, i % d.channels, (i - j) / d.channels)
    else 0
  }

  /** The same for any filter. */
  function TapAt(h: seq<int16>, i: nat, j: nat, stride: nat, taps: nat): int16
    requires stride > 0 && taps <= |h|
  {
    if j <= i && (i - j) % stride == 0 && (i - j) / stride < taps then h[(i - j) / stride] else 0
  }

  lemma {:induction false} DotOfSilence(h: seq<int16>, n: nat, i: int, stride: nat, taps: nat)
    requires taps <= |h|
    ensures Dot(h, Silence(n), i, stride, taps) == 0
  {
    if taps > 0 { DotOfSilence(h, n, i, stride, taps - 1); }
  }

  /** The last tap looks at sample j exactly if j lies as many strides before i. */
  lemma LastTap(i: nat, j: nat, stride: nat, taps: nat)
    requires stride > 0 && taps > 0
    ensures i - (taps - 1) * stride == j <==> j <= i && (i - j) % stride == 0 && (i - j) / stride == taps - 1
  {
    if i - (taps - 1) * stride == j {
      MulLeq(0, taps - 1, stride);
      ModUnique(i - j, taps - 1, 0, stride);
      DivUnique(i - j, taps - 1, stride);
    }
    if j <= i && (i - j) % stride == 0 && (i - j) / stride == taps - 1 {
      DivMod(i - j, stride);
    }
  }

  /** Changing one sample changes a sum by that sample's factor. */
  lemma {:induction false} DotOfChange(h: seq<int16>, x: seq<int16>, i: nat, stride: nat, taps: nat, j: nat, v: int16)
    requires stride > 0 && taps <= |h| && j < |x|
    ensures Dot(h, x[j := v], i, stride, taps) - Dot(h, x, i, stride, taps)
         == ((v as int) - x[j]) * TapAt(h, i, j, stride, taps)
  {
    if taps > 0 {
      DotOfChange(h, x, i, stride, taps - 1, j, v);
      LastTap(i, j, stride, taps);
      var here := i - (taps - 1) * stride;
      if here == j {
        Distribute(v, x[j], h[taps - 1]);
      } else {
        assert At(x[j := v], here) == At(x, here);
      }
    }
  }

  lemma Distribute(v: int, w: int, c: int)
    ensures (v - w) * c == v * c - w * c
  {
  }

  /** The sum that an output is computed from. */
  function SumAt(d: Design, x: seq<int16>, i: nat): int
    requires d.Valid()
  {
    Dot(d.Filter(i % d.channels), x, i, d.channels, d.taps)
  }

  lemma SliceAt(s: seq<int16>, from: nat, part: seq<int16>, k: nat)
    requires k < |part| && from + |part| <= |s| && part == s[from..from + |part|]
    ensures part[k] == s[from + k]
  {
  }

  lemma FilterTap(d: Design, channel: nat, k: nat)
    requires d.Valid() && channel < d.channels && k < d.taps
    ensures d.Filter(channel)[k] == Coefficient(d, channel, k)
  {
    SliceAt(d.coeffs, d.Base(channel), d.Filter(channel), k);
  }

  lemma TapIsWeight(d: Design, i: nat, j: nat)
    requires d.Valid()
    ensures TapAt(d.Filter(i % d.channels), i, j, d.channels, d.taps) == Weight(d, i, j)
  {
    if j <= i && (i - j) % d.channels == 0 && (i - j) / d.channels < d.taps {
      FilterTap(d, i % d.channels, (i - j) / d.channels);
    }
  }

  /** The sums are the weighted sums of the samples: 0 for silence, and each sample has its weight. */
  lemma SumsAreWeighted(d: Design, x: seq<int16>, i: nat, j: nat, v: int16)
    requires d.Valid() && j < |x|
    ensures SumAt(d, Silence(|x|), i) == 0
    ensures SumAt(d, x[j := v], i) - SumAt(d, x, i) == ((v as int) - x[j]) * Weight(d, i, j)
  {
    DotOfSilence(d.Filter(i % d.channels), |x|, i, d.channels, d.taps);
    DotOfChange(d.Filter(i % d.channels), x, i, d.channels, d.taps, j, v);
    TapIsWeight(d, i, j);
  }

  lemma ProductFits(v: int16, c: int16)
    ensures -0x4000_0000 <= v * c <= 0x4000_0000
  {
    ProductBounds(v, c);
  }

  /** The response to a single sample: in its channel the coefficients of that channel one frame after the
      other, times the sample over 2^15, rounded down; and nothing anywhere else. */
  lemma ImpulseResponse(d: Design, n: nat, j: nat, v: int16, i: nat)
    requires d.Valid() && j < n && i < n
    ensures IsQ15(Convolution(d, Silence(n)[j := v])[i], v * Weight(d, i, j))
  {
    SumsAreWeighted(d, Silence(n), i, j, v);
    ProductFits(v, Weight(d, i, j));
  }

  /** A single tap of 0x4000 halves every sample, rounded down. */
  lemma HalfTapHalves(x: seq<int16>, i: nat, d: Design)
    requires d == Design(1, 1, SingleFilter, [0x4000]) && i < |x|
    ensures var r := Convolution(d, x)[i] as int; 2 * r <= x[i] <= 2 * r + 1
  {
    assert i - 0 * 1 == i && d.Filter(0) == [0x4000];
    assert Dot([0x4000], x, i, 1, 1) == Dot([0x4000], x, i, 1, 0) + Past(x, i, 0) * 0x4000;
  }

  /** An output looks at nothing after its own place in the work buffer. */
  lemma WindowTailUnread(d: Design, window: seq<int16>, used: seq<int16>, j: nat)
    requires d.Valid() && used <= window && d.History() + j < |used|
    ensures WindowOutput(d, window, j) == WindowOutput(d, used, j)
  {
    var here := d.History() + j;
    forall m | 0 <= m <= d.History()
      ensures Past(window, here, m) == Past(used, here, m)
    {
    }
    DotShift(d.Filter(j % d.channels), window, here, used, here, d.channels, d.taps);
  }

  // ---------------------------------------------------------------- fir_filter_t

  /** Row s of a buffer of frames holds indices s * channels to (s + 1) * channels - 1. */
  lemma Row(i: nat, s: nat, channels: nat)
    requires channels > 0 && s * channels <= i < s * channels + channels
    ensures i % channels == i - s * channels
  {
    ModUnique(i, s, i - s * channels, channels);
  }

  /** One step of an accumulation, in 32 bits. */
  lemma AccumulateStep(h: seq<int16>, w: seq<int16>, i: int, stride: nat, k: nat, acc: int, v: int16)
    requires k < |h| && acc == Wrap32(Dot(h, w, i, stride, k)) && v == Past(w, i, k * stride)
    ensures Wrap32(acc + (v as int) * h[k]) == Wrap32(Dot(h, w, i, stride, k + 1))
  {
    Wrap32Add(Dot(h, w, i, stride, k), (v as int) * h[k]);
  }

  class Filter {
    const design: Design
    const inputLength: nat
    const state: array<int16>

    ghost predicate Valid()
      reads this
    {
      design.Valid() && state.Length == (inputLength + design.taps) * design.channels
    }

    /** The frames kept from earlier blocks, at the front of the work buffer. */
    ghost function History(): (r: seq<int16>)
      requires Valid()
      reads this, state
      ensures |r| == design.History()
    {
      MulLeq(design.taps - 1, inputLength + design.taps, design.channels);
      state[..design.History()]
    }

    /** fir_init, past its argument checks. */
    constructor (design: Design, inputLength: nat)
      requires design.Valid()
      ensures Valid() && fresh(state)
      ensures this.design == design && this.inputLength == inputLength
      ensures History() == Silence(design.History())
    {
      this.design := design;
      this.inputLength := inputLength;
      MulLeq(0, inputLength + design.taps, design.channels);
      this.state := new int16[(inputLength + design.taps) * design.channels];
      new;
      Reset();
    }

    /** fir_reset */
    method Reset()
      requires Valid()
      modifies state
      ensures History() == Silence(design.History())
    {
      MulLeq(design.taps - 1, inputLength + design.taps, design.channels);
      forall i | 0 <= i < state.Length {
        state[i] := 0;
      }
    }

    /** The innermost loop: both accumulators of a pair of channels, for one sample. */
    method Accumulate(start: nat, coeffA: nat, coeffB: nat) returns (accA: int32, accB: int32)
      requires Valid() && start + 1 < state.Length && (design.taps - 1) * design.channels <= start
      requires coeffA + design.taps <= |design.coeffs| && coeffB + design.taps <= |design.coeffs|
      ensures accA
           == Wrap32(Dot(design.coeffs[coeffA..coeffA + design.taps], state[..], start, design.channels, design.taps))
      ensures accB
           == Wrap32(Dot(design.coeffs[coeffB..coeffB + design.taps], state[..], start + 1, design.channels,
                         design.taps))
    {
      ghost var hA := design.coeffs[coeffA..coeffA + design.taps];
      ghost var hB := design.coeffs[coeffB..coeffB + design.taps];
      ghost var w := state[..];
      accA, accB := 0, 0;
      var offset: int := start;
      for k := 0 to design.taps
        invariant offset == start - k * design.channels
        invariant accA == Wrap32(Dot(hA, w, start, design.channels, k))
        invariant accB == Wrap32(Dot(hB, w, start + 1, design.channels, k))
      {
        MulLeq(k, design.taps - 1, design.channels);
        MulLeq(0, k, design.channels);
        AccumulateStep(hA, w, start, design.channels, k, accA, state[offset]);
        AccumulateStep(hB, w, start + 1, design.channels, k, accB, state[offset + 1]);
        accA := Wrap32(accA + (state[offset] as int) * design.coeffs[coeffA + k]);
        accB := Wrap32(accB + (state[offset + 1] as int) * design.coeffs[coeffB + k]);
        assert (k + 1) * design.channels == k * design.channels + design.channels;
        offset := offset - design.channels;
      }
    }

    /** One sample of a pair of channels: the row of the output that starts at `row`, columns ch and
        ch + 1, if there is one.  For the last channel of an odd number, what is read in place of a
        second one lies in the work buffer too, and is not used. */
    method FilterSample(output: array<int16>, ghost window: seq<int16>, row: nat, ch: nat, coeffA: nat, coeffB: nat)
      requires Valid() && output != state && state[..] == window
      requires row + design.channels <= output.Length && design.History() + row + design.channels < state.Length
      requires ch < design.channels && coeffA == design.Base(ch) && coeffA + design.taps <= |design.coeffs|
      requires coeffB + design.taps <= |design.coeffs| && (ch + 1 < design.channels ==> coeffB == design.Base(ch + 1))
      modifies output
      ensures output[row + ch] == ChannelOutput(design, window, row + ch, ch)
      ensures ch + 1 < design.channels ==> output[row + ch + 1] == ChannelOutput(design, window, row + ch + 1, ch + 1)
      ensures forall i :: 0 <= i < output.Length && i != row + ch && !(i == row + ch + 1 && ch + 1 < design.channels)
                          ==> output[i] == old(output[i])
    {
      var accA, accB := Accumulate(design.History() + row + ch, coeffA, coeffB);
      output[row + ch] := Clamp16(accA / 0x8000);
      if ch < design.channels - 1 {
        output[row + ch + 1] := Clamp16(accB / 0x8000);
      }
    }

    /** The output samples of the block in the work buffer. */
    ghost predicate IsGoal(window: seq<int16>, goal: seq<int16>)
      requires Valid()
      reads this
    {
      forall i {:trigger WindowOutput(design, window, i)} :: 0 <= i < |goal| ==>
        goal[i] == WindowOutput(design, window, i)
    }

    /** Index i is in column ch or ch + 1. */
    predicate InColumns(i: nat, ch: nat)
      requires design.channels > 0
    {
      i % design.channels == ch || i % design.channels == ch + 1
    }

    /** The loop over samples, for one pair of channels; goal has samples * channels samples. */
    method FilterPair(output: array<int16>, ghost window: seq<int16>, samples: nat, ghost goal: seq<int16>,
                      ch: nat, coeffA: nat, coeffB: nat)
      requires Valid() && output != state && state[..] == window && IsGoal(window, goal)
      requires |goal| == samples * design.channels <= output.Length && design.History() + |goal| < state.Length
      requires ch < design.channels && coeffA == design.Base(ch) && coeffA + design.taps <= |design.coeffs|
      requires coeffB + design.taps <= |design.coeffs| && (ch + 1 < design.channels ==> coeffB == design.Base(ch + 1))
      modifies output
      ensures forall i :: 0 <= i < |goal| && InColumns(i, ch) ==> output[i] == goal[i]
      ensures forall i :: 0 <= i < output.Length && !(i < |goal| && InColumns(i, ch)) ==> output[i] == old(output[i])
    {
      var row := 0;
      for s := 0 to samples
        invariant row == s * design.channels <= |goal|
        invariant forall i :: 0 <= i < row && InColumns(i, ch) ==> output[i] == goal[i]
        invariant forall i :: 0 <= i < output.Length && !(i < row && InColumns(i, ch)) ==> output[i] == old(output[i])
      {
        NextRow(s, samples, design.channels);
        forall i | row <= i < row + design.channels
          ensures i % design.channels == i - row
        {
          Row(i, s, design.channels);
        }
        FilterSample(output, window, row, ch, coeffA, coeffB);
        assert goal[row + ch] == WindowOutput(design, window, row + ch);
        assert ch + 1 < design.channels ==> goal[row + ch + 1] == WindowOutput(design, window, row + ch + 1);
        row := row + design.channels;
      }
    }

    lemma NextRow(s: nat, samples: nat, c: nat)
      requires s < samples
      ensures (s + 1) * c == s * c + c <= samples * c
    {
      MulLeq(s + 1, samples, c);
    }

    /** The coefficients of the pair at ch are there to be read. */
    lemma PairHasCoefficients(ch: nat)
      requires Valid() && design.Pairable() && ch < design.channels && ch % 2 == 0
      ensures design.Base(ch) + design.taps <= |design.coeffs|
      ensures design.SecondBase(ch) + design.taps <= |design.coeffs|
      ensures ch + 1 < design.channels ==> design.SecondBase(ch) == design.Base(ch + 1)
    {
      PairInBounds(design, ch);
    }

    /** The coefficient pointers move on by two filters, if there is one per channel. */
    method NextCoefficients(ch: nat, coeffA: nat, coeffB: nat) returns (nextA: nat, nextB: nat)
      requires coeffA == design.Base(ch) && coeffB == design.SecondBase(ch)
      ensures nextA == design.Base(ch + 2) && nextB == design.SecondBase(ch + 2)
    {
      nextA, nextB := coeffA, coeffB;
      if design.UsesSecondSet() {
        nextA := coeffA + 2 * design.taps;
        nextB := coeffB + 2 * design.taps;
        assert (ch + 2) * design.taps == ch * design.taps + 2 * design.taps;
        assert (ch + 3) * design.taps == (ch + 1) * design.taps + 2 * design.taps;
      }
    }

    /** The loop over pairs of channels. */
    method FilterChannels(output: array<int16>, ghost window: seq<int16>, samples: nat, ghost goal: seq<int16>)
      requires Valid() && design.Pairable() && output != state && state[..] == window && IsGoal(window, goal)
      requires |goal| == samples * design.channels <= output.Length && design.History() + |goal| < state.Length
      modifies output
      ensures forall i :: 0 <= i < |goal| ==> output[i] == goal[i]
      ensures forall i :: |goal| <= i < output.Length ==> output[i] == old(output[i])
    {
      var c := design.channels;
      var coeffA, coeffB := 0, if design.UsesSecondSet() then design.taps else 0;
      var ch := 0;
      while ch < c
        invariant ch % 2 == 0 && ch <= c + 1
        invariant coeffA == design.Base(ch) && coeffB == design.SecondBase(ch)
        invariant forall i :: 0 <= i < |goal| && i % c < ch ==> output[i] == goal[i]
        invariant forall i :: |goal| <= i < output.Length ==> output[i] == old(output[i])
        decreases c + 1 - ch
      {
        PairHasCoefficients(ch);
        FilterPair(output, window, samples, goal, ch, coeffA, coeffB);
        coeffA, coeffB := NextCoefficients(ch, coeffA, coeffB);
        ch := ch + 2;
      }
    }

    /** A block and the history in front of it fit the work buffer. */
    lemma BlockFits(samples: nat)
      requires Valid() && samples <= inputLength
      ensures 0 <= samples * design.channels && design.History() + samples * design.channels < state.Length
    {
      var c := design.channels;
      MulLeq(0, samples, c);
      MulLeq(samples, inputLength, c);
      assert (inputLength + design.taps) * c == inputLength * c + (design.taps - 1) * c + c;
    }

    /** The memcpy in front of the loops: the block goes behind the history. */
    method LoadBlock(input: array<int16>, samples: nat)
      requires Valid() && samples <= inputLength && input != state && samples * design.channels <= input.Length
      modifies state
      ensures design.History() + samples * design.channels <= state.Length
      ensures state[..design.History() + samples * design.channels]
           == old(History()) + input[..samples * design.channels]
    {
      BlockFits(samples);
      var startOffset := (design.taps - 1) * design.channels;
      forall i | 0 <= i < samples * design.channels {
        state[startOffset + i] := input[i];
      }
    }

    /** The memmove behind the loops: the last frames become the history. */
    method KeepHistory(samples: nat)
      requires Valid() && samples <= inputLength
      requires design.History() + samples * design.channels <= state.Length
      modifies state
      ensures History() == old(state[..design.History() + samples * design.channels])[samples * design.channels..]
    {
      BlockFits(samples);
      forall i | 0 <= i < design.History() {
        state[i] := state[samples * design.channels + i];
      }
    }

    /** fir_process_interleaved.  `output` may be `input`: the block is copied to the work buffer
        before anything is written. */
    method ProcessInterleaved(input: array<int16>, output: array<int16>, samples: nat)
      requires Valid() && design.Pairable() && samples <= inputLength
      requires input != state && output != state
      requires samples * design.channels <= input.Length && samples * design.channels <= output.Length
      modifies state, output
      ensures output[..samples * design.channels]
           == BlockOutput(design, old(History()), old(input[..samples * design.channels]))
      ensures History() == NextHistory(old(History()), old(input[..samples * design.channels]))
      ensures output[samples * design.channels..] == old(output[samples * design.channels..])
    {
      ghost var n := samples * design.channels;
      ghost var history, block := History(), input[..n];
      BlockFits(samples);
      LoadBlock(input, samples);
      ghost var window := state[..];
      ghost var goal := BlockOutput(design, history, block);
      GoalIsBlockOutput(window, window[..design.History() + n], history, block);
      FilterChannels(output, window, samples, goal);
      assert output[..n] == goal;
      KeepHistory(samples);
    }

    /** A work buffer that starts with the history and the block. */
    lemma GoalIsBlockOutput(window: seq<int16>, used: seq<int16>, history: seq<int16>, block: seq<int16>)
      requires Valid() && used == history + block && used <= window && |history| == design.History()
      ensures IsGoal(window, BlockOutput(design, history, block))
    {
      forall i | 0 <= i < |block|
        ensures BlockOutput(design, history, block)[i] == WindowOutput(design, window, i)
      {
        WindowTailUnread(design, window, used, i);
      }
    }
  }
}
