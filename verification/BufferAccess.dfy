/** Locking YUV buffers for the CPU, hal/gralloc/mali_gralloc_bufferaccess.cpp: two calls that each
    derive the places of the samples anew from what the allocation left in the handle. */
module BufferAccess {
  import opened Arith
  import opened Options
  import opened FormatWord
  import opened FormatSelect
  import opened BufferAllocation

  const SW_WRITE_MASK: bv64 := 0xf0

  datatype Component = Y | Cb | Cr

  /** struct android_ycbcr */
  datatype Ycbcr = Ycbcr(y: nat, cb: nat, cr: nat, yStride: nat, cStride: nat, chromaStep: nat) {
    /** The address of sample (i, j) of a component's plane. */
    function Address(c: Component, i: nat, j: nat): nat {
      match c
      case Y => y + Mul(j, yStride) + i
      case Cb => cb + Mul(j, cStride) + Mul(i, chromaStep)
      case Cr => cr + Mul(j, cStride) + Mul(i, chromaStep)
    }
  }

  /** One plane of struct android_flex_layout; all components have 8 bits. */
  datatype Plane = Plane(topLeft: nat, component: Component, hIncrement: nat, vIncrement: nat,
                         hSubsampling: nat, vSubsampling: nat)

  function PlaneAddress(p: Plane, i: nat, j: nat): nat {
    p.topLeft + Mul(j, p.vIncrement) + Mul(i, p.hIncrement)
  }

  /** The address of sample (i, j) of a component, in the plane that has it. */
  function FlexAddress(planes: seq<Plane>, c: Component, i: nat, j: nat): Option<nat> {
    if planes == [] then None
    else if planes[0].component == c then Some(PlaneAddress(planes[0], i, j))
    else FlexAddress(planes[1..], c, i, j)
  }

  /** The locks serve three uncompressed formats, for software access. */
  predicate Lockable(word: bv64, usage: bv64) {
    && Has(usage, SW_MASK) && Modifiers(word) == 0
    && (Base(word) == NV12 || Base(word) == NV21 || Base(word) == YV12)
  }

  /** Where the planes are, for an allocation at address `base`. */
  function YcbcrOf(f: bv64, base: nat, stride: nat, height: nat): Ycbcr {
    var ySize := Mul(stride, Align(height, 2));
    var cStride := Align(stride / 2, 16);
    if f == NV12 then Ycbcr(base, base + ySize, base + ySize + 1, stride, stride, 2)
    else if f == NV21 then Ycbcr(base, base + ySize + 1, base + ySize, stride, stride, 2)
    else Ycbcr(base, base + ySize + Mul(cStride, Align(height, 2) / 2), base + ySize, stride, cStride, 1)
  }

  lemma WithoutModifiers(word: bv64)
    requires Modifiers(word) == 0
    ensures Base(word) == word
  {
  }

  lemma FormatsHaveNone(word: bv64)
    requires word == 0x100 || word == 0x101 || word == 0x3231_5659
    ensures Modifiers(word) == 0 && Base(word) == word
  {
  }

  /** The three formats by their numbers, for any of the software usages, and nothing else. */
  lemma LockableExactly(word: bv64, usage: bv64)
    ensures Lockable(word, usage) <==>
      usage & 0xff != 0 && (word == 0x100 || word == 0x101 || word == 0x3231_5659)
  {
    if Lockable(word, usage) { WithoutModifiers(word); }
    if word == 0x100 || word == 0x101 || word == 0x3231_5659 { FormatsHaveNone(word); }
  }

  /** The places of the samples: rows of luma first; then, for 0x100, pairs of Cb and Cr, for 0x101 of Cr and
      Cb, and for YV12 the rows of Cr and then those of Cb.  Chroma has half as many rows as luma, of which
      there is an even number. */
  lemma SamplePlaces(f: bv64, base: nat, stride: nat, height: nat, i: nat, j: nat, rows: nat, row: nat, chroma: nat)
    requires f == 0x100 || f == 0x101 || f == 0x3231_5659
    requires height <= 2 * rows < height + 2 && stride / 2 <= row < stride / 2 + 16 && row % 16 == 0
    requires chroma == base + Mul(stride, 2 * rows)
    ensures var p := YcbcrOf(f, base, stride, height);
      && p.Address(Y, i, j) == base + Mul(j, stride) + i
      && (f == 0x100 ==> p.Address(Cb, i, j) == chroma + Mul(j, stride) + Mul(i, 2))
      && (f == 0x100 ==> p.Address(Cr, i, j) == chroma + Mul(j, stride) + Mul(i, 2) + 1)
      && (f == 0x101 ==> p.Address(Cr, i, j) == chroma + Mul(j, stride) + Mul(i, 2))
      && (f == 0x101 ==> p.Address(Cb, i, j) == chroma + Mul(j, stride) + Mul(i, 2) + 1)
      && (f == 0x3231_5659 ==> p.Address(Cr, i, j) == chroma + Mul(j, row) + i)
      && (f == 0x3231_5659 ==> p.Address(Cb, i, j) == chroma + Mul(row, rows) + Mul(j, row) + i)
  {
    EvenHeight(height, rows);
    RowOfChroma(stride / 2, row);
  }

  lemma EvenHeight(height: nat, rows: nat)
    requires height <= 2 * rows < height + 2
    ensures Align(height, 2) == 2 * rows
  {
  }

  lemma RowOfChroma(n: nat, row: nat)
    requires n <= row < n + 16 && row % 16 == 0
    ensures Align(n, 16) == row
  {
    AlignIsLeast(n, 16, row);
  }

  lemma WriteBits(usage: bv64)
    ensures usage & SW_WRITE_MASK == usage & 0xf0
  {
  }

  class PrivateHandle {
    const usesIon: bool
    const internalFormat: bv64
    const byteStride: nat
    const height: nat
    const base: nat
    var writeOwner: bv64

    constructor (usesIon: bool, internalFormat: bv64, byteStride: nat, height: nat, base: nat)
      ensures this.usesIon == usesIon && this.internalFormat == internalFormat && this.base == base
      ensures this.byteStride == byteStride && this.height == height && writeOwner == 0
    {
      this.usesIon, this.internalFormat, this.byteStride := usesIon, internalFormat, byteStride;
      this.height, this.base, writeOwner := height, base, 0;
    }

    /** mali_gralloc_lock_ycbcr of a valid handle. */
    method LockYcbcr(usage: bv64) returns (ycbcr: Option<Ycbcr>)
      modifies this`writeOwner
      ensures writeOwner == if usesIon then usage & 0xf0 else old(writeOwner)
      ensures ycbcr == if Lockable(internalFormat, usage)
                       then Some(YcbcrOf(Base(internalFormat), base, byteStride, height)) else None
    {
      WriteBits(usage);
      if usesIon {
        writeOwner := usage & SW_WRITE_MASK;
      }
      if !Has(usage, SW_MASK) || Modifiers(internalFormat) != 0 {
        return None;
      }
      var yStride := byteStride;
      var adjustedHeight := Align(height, 2);
      var ySize := Mul(yStride, adjustedHeight);
      var uOffset, vOffset, cStride, step := 0, 0, 0, 0;
      var baseFormat := Base(internalFormat);
      if baseFormat == NV12 {
        cStride := yStride;
        uOffset := ySize;
        vOffset := ySize + 1;
        step := 2;
      } else if baseFormat == NV21 {
        cStride := yStride;
        vOffset := ySize;
        uOffset := ySize + 1;
        step := 2;
      } else if baseFormat == YV12 {
        cStride := Align(byteStride / 2, 16);
        var cSize := Mul(cStride, adjustedHeight / 2);
        vOffset := ySize;
        uOffset := ySize + cSize;
        step := 1;
      } else {
        return None;
      }
      return Some(Ycbcr(base, base + uOffset, base + vOffset, yStride, cStride, step));
    }

    /** mali_gralloc_lock_flex_async of a valid handle.  The planes agree with those of LockYcbcr: the
        same requests are served, and every sample of every component has the same address. */
    method LockFlex(usage: bv64) returns (planes: Option<seq<Plane>>)
      modifies this`writeOwner
      ensures writeOwner == if usesIon then usage & 0xf0 else old(writeOwner)
      ensures planes.Some? <==> Lockable(internalFormat, usage)
      ensures planes.Some? ==> |planes.value| == 3 && forall c: Component, i: nat, j: nat ::
        FlexAddress(planes.value, c, i, j)
        == Some(YcbcrOf(Base(internalFormat), base, byteStride, height).Address(c, i, j))
      ensures planes.Some? ==> forall k :: 0 <= k < 3 ==>
        planes.value[k].hSubsampling == planes.value[k].vSubsampling == if planes.value[k].component == Y then 1 else 2
    {
      WriteBits(usage);
      if usesIon {
        writeOwner := usage & SW_WRITE_MASK;
      }
      if !Has(usage, SW_MASK) || Modifiers(internalFormat) != 0 {
        return None;
      }
      var yStride := byteStride;
      var adjustedHeight := Align(height, 2);
      var ySize := Mul(yStride, adjustedHeight);
      var baseFormat := Base(internalFormat);
      var luma := Plane(base, Y, 1, yStride, 1, 1);
      var second, third;
      if baseFormat == NV12 {
        second := Plane(base + ySize, Cb, 2, yStride, 2, 2);
        third := Plane(second.topLeft + 1, Cr, 2, yStride, 2, 2);
      } else if baseFormat == NV21 {
        second := Plane(base + ySize, Cr, 2, yStride, 2, 2);
        third := Plane(second.topLeft + 1, Cb, 2, yStride, 2, 2);
      } else if baseFormat == YV12 {
        var cStride := Align(byteStride / 2, 16);
        var cSize := Mul(cStride, adjustedHeight / 2);
        second := Plane(base + ySize, Cr, 1, cStride, 2, 2);
        third := Plane(second.topLeft + cSize, Cb, 1, cStride, 2, 2);
      } else {
        return None;
      }
      FlexOfThree(luma, second, third);
      return Some([luma, second, third]);
    }
  }

  lemma FlexOfThree(p: Plane, q: Plane, r: Plane)
    requires p.component == Y && q.component != Y && r.component != Y && q.component != r.component
    ensures forall c: Component, i: nat, j: nat ::
      FlexAddress([p, q, r], c, i, j) ==
        Some(PlaneAddress(if c == Y then p else if c == q.component then q else r, i, j))
  {
    forall c: Component, i: nat, j: nat
      ensures FlexAddress([p, q, r], c, i, j) ==
        Some(PlaneAddress(if c == Y then p else if c == q.component then q else r, i, j))
    {
      FlexSkips([p, q, r], c, i, j);
      FlexSkips([q, r], c, i, j);
      FlexSkips([r], c, i, j);
      assert [p, q, r][1..] == [q, r] && [q, r][1..] == [r];
    }
  }

  lemma FlexSkips(planes: seq<Plane>, c: Component, i: nat, j: nat)
    requires planes != []
    ensures FlexAddress(planes, c, i, j) ==
      if planes[0].component == c then Some(PlaneAddress(planes[0], i, j)) else FlexAddress(planes[1..], c, i, j)
  {
  }

  // ---------------------------------------------------------------- the samples of a locked buffer

  /** Sample (i, j) exists: full resolution for Y, half in both directions, rounded up, for chroma. */
  predicate IsSample(w: nat, h: nat, c: Component, i: nat, j: nat) {
    if c == Y then i < w && j < h else i < (w + 1) / 2 && j < (h + 1) / 2
  }

  /** Places in a plane of rows: row j holds the places from j * stride on. */
  lemma RowBounds(j: nat, x: nat, rows: nat, stride: nat)
    requires j < rows && x < stride
    ensures 0 <= j * stride && j * stride + x < rows * stride
  {
    MulLeq(0, j, stride);
    MulLeq(j + 1, rows, stride);
    assert (j + 1) * stride == j * stride + stride;
  }

  lemma RowUnique(j: nat, x: nat, j': nat, x': nat, stride: nat)
    requires x < stride && x' < stride && j * stride + x == j' * stride + x'
    ensures j == j' && x == x'
  {
    DivUnique(j * stride + x, j, stride);
    DivUnique(j' * stride + x', j', stride);
  }

  /** The stride is even and covers the samples, in chroma rows too. */
  lemma Strides(w: nat, h: nat, align: nat)
    requires align == 16 || align == 128
    ensures var s := Align(w, align);
      && w <= s && s % 2 == 0 && 2 * ((w + 1) / 2) <= s
      && (w + 1) / 2 <= Align(s / 2, 16) <= Align(s / 2, align)
      && s / 2 <= Align(s / 2, 16)
    ensures h <= Align(h, 2) && Align(h, 2) % 2 == 0 && (h + 1) / 2 <= Align(h, 2) / 2
  {
    var s := Align(w, align);
    FinerMultiple(s, align, 2);
    var r := Align(s / 2, align);
    FinerMultiple(r, align, 16);
    AlignIsLeast(s / 2, 16, r);
  }

  /** The parts of a locked buffer, from its start: luma, then the interleaved or the two planar
      chroma planes. */
  datatype Part = Luma | Interleaved | First | Second

  function PartOf(f: bv64, c: Component): Part {
    if c == Y then Luma else if f != YV12 then Interleaved else if c == Cr then First else Second
  }

  function PartStart(p: Part, stride: nat, rows: nat): nat {
    match p
    case Luma => 0
    case Interleaved => Mul(stride, rows)
    case First => Mul(stride, rows)
    case Second => Mul(stride, rows) + Mul(Align(stride / 2, 16), rows / 2)
  }

  function PartStride(p: Part, stride: nat): nat {
    if p == Luma || p == Interleaved then stride else Align(stride / 2, 16)
  }

  function PartRows(p: Part, rows: nat): nat {
    if p == Luma then rows else rows / 2
  }

  /** The place of a sample in its row. */
  function Column(f: bv64, c: Component, i: nat): nat {
    if c == Y || f == YV12 then i
    else if (f == NV12) == (c == Cb) then 2 * i else 2 * i + 1
  }

  /** A locked sample is at its row and column of its part. */
  lemma AddressInPart(f: bv64, base: nat, stride: nat, h: nat, c: Component, i: nat, j: nat)
    requires f == NV12 || f == NV21 || f == YV12
    ensures var p := PartOf(f, c);
      YcbcrOf(f, base, stride, h).Address(c, i, j)
      == base + PartStart(p, stride, Align(h, 2)) + Mul(j, PartStride(p, stride)) + Column(f, c, i)
  {
  }

  lemma SampleInPart(f: bv64, w: nat, h: nat, align: nat, c: Component, i: nat, j: nat)
    requires (f == NV12 || f == NV21 || f == YV12) && (align == 16 || align == 128) && IsSample(w, h, c, i, j)
    ensures var p, stride := PartOf(f, c), Align(w, align);
      Column(f, c, i) < PartStride(p, stride) && j < PartRows(p, Align(h, 2))
  {
    Strides(w, h, align);
  }

  /** Half the rows of the chroma the locks assume take no more than half the rows allocated. */
  lemma ChromaFits(s: nat, k: nat, cs: nat, ca: nat)
    requires cs <= ca && s <= 2 * ca
    ensures (2 * k) * (s + ca) == (2 * k) * s + 2 * (k * ca)
    ensures k * cs <= k * ca && k * s <= 2 * (k * ca)
  {
    MulLeq(cs, ca, k);
    MulLeq(s, 2 * ca, k);
    assert (2 * ca) * k == 2 * (k * ca);
  }

  function PartEnd(p: Part, stride: nat, rows: nat): nat {
    PartStart(p, stride, rows) + Mul(PartRows(p, rows), PartStride(p, stride))
  }

  /** The parts follow each other and end before the size that was allocated does. */
  lemma PartsFit(w: nat, h: nat, align: nat)
    requires align == 16 || align == 128
    ensures var stride, rows, size := Align(w, align), Align(h, 2), Yuv420Layout(w, h, align).size;
      && PartEnd(Luma, stride, rows) == PartStart(First, stride, rows) == PartStart(Interleaved, stride, rows)
      && PartEnd(First, stride, rows) == PartStart(Second, stride, rows)
      && PartEnd(Luma, stride, rows) <= PartEnd(Second, stride, rows)
      && PartEnd(Interleaved, stride, rows) <= size && PartEnd(Second, stride, rows) <= size
  {
    Strides(w, h, align);
    var s, r := Align(w, align), Align(h, 2);
    var k, cs, ca := r / 2, Align(s / 2, 16), Align(s / 2, align);
    assert r == 2 * k;
    ChromaFits(s, k, cs, ca);
    Commute(s, r); Commute(cs, k);
  }

  /** A locked sample lies in its part. */
  lemma SampleBounds(f: bv64, w: nat, h: nat, align: nat, base: nat, c: Component, i: nat, j: nat)
    requires (f == NV12 || f == NV21 || f == YV12) && (align == 16 || align == 128) && IsSample(w, h, c, i, j)
    ensures var p, s, rows := PartOf(f, c), Align(w, align), Align(h, 2);
      base + PartStart(p, s, rows) <= YcbcrOf(f, base, s, h).Address(c, i, j) < base + PartEnd(p, s, rows)
  {
    var p, s, rows := PartOf(f, c), Align(w, align), Align(h, 2);
    AddressInPart(f, base, s, h, c, i, j);
    SampleInPart(f, w, h, align, c, i, j);
    RowBounds(j, Column(f, c, i), PartRows(p, rows), PartStride(p, s));
  }

  /** In one part, a column belongs to one component and one sample. */
  lemma ColumnUnique(f: bv64, c: Component, i: nat, c': Component, i': nat)
    requires PartOf(f, c) == PartOf(f, c') && Column(f, c, i) == Column(f, c', i')
    ensures c == c' && i == i'
  {
  }

  /** Two samples with one place, `start` being that of their part. */
  lemma SamePlace(f: bv64, start: nat, stride: nat, c: Component, i: nat, j: nat, c': Component, i': nat, j': nat)
    requires PartOf(f, c) == PartOf(f, c') && Column(f, c, i) < stride && Column(f, c', i') < stride
    requires start + Mul(j, stride) + Column(f, c, i) == start + Mul(j', stride) + Column(f, c', i')
    ensures c == c' && i == i' && j == j'
  {
    RowUnique(j, Column(f, c, i), j', Column(f, c', i'), stride);
    ColumnUnique(f, c, i, c', i');
  }

  lemma SamePartUnique(f: bv64, w: nat, h: nat, align: nat, base: nat,
                       c: Component, i: nat, j: nat, c': Component, i': nat, j': nat)
    requires (f == NV12 || f == NV21 || f == YV12) && (align == 16 || align == 128)
    requires IsSample(w, h, c, i, j) && IsSample(w, h, c', i', j') && PartOf(f, c) == PartOf(f, c')
    requires var lock := YcbcrOf(f, base, Align(w, align), h); lock.Address(c, i, j) == lock.Address(c', i', j')
    ensures c == c' && i == i' && j == j'
  {
    var p, s := PartOf(f, c), Align(w, align);
    AddressInPart(f, base, s, h, c, i, j);
    AddressInPart(f, base, s, h, c', i', j');
    SampleInPart(f, w, h, align, c, i, j);
    SampleInPart(f, w, h, align, c', i', j');
    SamePlace(f, base + PartStart(p, s, Align(h, 2)), PartStride(p, s), c, i, j, c', i', j');
  }

  lemma SamplesAreDistinctBytes(f: bv64, w: nat, h: nat, align: nat, base: nat,
                                c: Component, i: nat, j: nat, c': Component, i': nat, j': nat)
    requires (f == NV12 || f == NV21 || f == YV12) && (align == 16 || align == 128)
    requires IsSample(w, h, c, i, j) && IsSample(w, h, c', i', j')
    ensures var lock := YcbcrOf(f, base, Align(w, align), h);
      && base <= lock.Address(c, i, j) < base + Yuv420Layout(w, h, align).size
      && (lock.Address(c, i, j) == lock.Address(c', i', j') ==> c == c' && i == i' && j == j')
  {
    SampleBounds(f, w, h, align, base, c, i, j);
    SampleBounds(f, w, h, align, base, c', i', j');
    PartsFit(w, h, align);
    var lock := YcbcrOf(f, base, Align(w, align), h);
    if PartOf(f, c) == PartOf(f, c') && lock.Address(c, i, j) == lock.Address(c', i', j') {
      SamePartUnique(f, w, h, align, base, c, i, j, c', i', j');
    }
  }

  /** Every sample of a locked buffer is a byte of the buffer, whatever usage it was allocated for, and
      so with whichever alignment; and no two samples are the same byte. */
  lemma LockedSamplesAreDistinctBytes(f: bv64, w: nat, h: nat, usage: bv64, videoBuild: bool, before: Layout, base: nat,
                                      c: Component, i: nat, j: nat, c': Component, i': nat, j': nat)
    requires f == NV12 || f == NV21 || f == YV12
    requires IsSample(w, h, c, i, j) && IsSample(w, h, c', i', j')
    ensures LayoutFor(f, w, h, usage, Uncompressed, videoBuild, before).Some?
    ensures var layout := LayoutFor(f, w, h, usage, Uncompressed, videoBuild, before).value;
      var lock := YcbcrOf(f, base, layout.byteStride, h);
      && base <= lock.Address(c, i, j) < base + layout.size
      && (lock.Address(c, i, j) == lock.Address(c', i', j') ==> c == c' && i == i' && j == j')
  {
    SamplesAreDistinctBytes(f, w, h, StrideAlign(usage), base, c, i, j, c', i', j');
  }
}
