/** The slots of the framebuffer in hal/gralloc/framebuffer_device.cpp: page flipping hands out the
    screens of one mapping in turn, and remembers them in a bit mask. */
module FramebufferSlots {
  import opened Arith
  import opened Bits

  /** `mask & (1 << i)` is not 0. */
  predicate BitSet(mask: nat, i: nat) {
    mask / Pow2(i) % 2 == 1
  }

  /** The mask of slots 0 to k - 1. */
  function LowSlots(k: nat): nat {
    Pow2(k) - 1
  }

  lemma {:induction false} PowSplit(k: nat, i: nat)
    requires i <= k
    ensures Pow2(k) == Pow2(k - i) * Pow2(i)
    decreases i
  {
    if i > 0 {
      PowSplit(k, i - 1);
      Regroup(Pow2(k - i), Pow2(i - 1));
    }
  }

  lemma Regroup(a: nat, b: nat)
    ensures 2 * a * b == a * (2 * b)
  {
  }

  lemma {:induction false} PowGrows(k: nat, n: nat)
    requires k < n
    ensures 2 * Pow2(k) <= Pow2(n)
    decreases n
  {
    if k + 1 < n { PowGrows(k, n - 1); }
  }

  lemma OneLess(q: nat, half: nat, p: nat)
    requires q == 2 * half > 0 && p > 0
    ensures (q * p - 1) / p == q - 1 && (q - 1) % 2 == 1
  {
    assert q * p == (q - 1) * p + p;
    DivUnique(q * p - 1, q - 1, p);
  }

  lemma LowSlotSet(k: nat, i: nat)
    requires i < k
    ensures BitSet(LowSlots(k), i)
  {
    PowSplit(k, i);
    OneLess(Pow2(k - i), Pow2(k - i - 1), Pow2(i));
  }

  lemma HighSlotClear(k: nat, i: nat)
    requires k <= i
    ensures !BitSet(LowSlots(k), i)
  {
    if k < i { PowGrows(k, i); }
    DivUnique(LowSlots(k), 0, Pow2(i));
  }

  /** Exactly the slots below k are set in the mask of the low k. */
  lemma BitsOfLowSlots(k: nat, i: nat)
    ensures BitSet(LowSlots(k), i) <==> i < k
  {
    if i < k { LowSlotSet(k, i); } else { HighSlotClear(k, i); }
  }

  /** The screens of the mapping: their number, and the bytes and rows of one. */
  datatype Screens = Screens(lineLength: nat, yres: nat, yresVirtual: nat) {
    /** module->numBuffers, as init_frame_buffer_locked computes it. */
    function Count(): nat
      requires yres > 0
    {
      DivAtLeast(yresVirtual, 0, yres);
      yresVirtual / yres
    }

    function Size(): nat {
      MulLeq(0, lineLength, yres);
      lineLength * yres
    }

    function Mapped(): nat {
      MulLeq(0, lineLength, yresVirtual);
      RoundUpToPage(lineLength * yresVirtual)
    }
  }

  function RoundUpToPage(x: nat): (r: nat)
    ensures r % 4096 == 0 && x <= r < x + 4096
  {
    (x + 4095) / 4096 * 4096
  }

  /** The slot of an attempt when the mask holds the low k slots, after the mask is reset when full. */
  function SlotAt(k: nat, n: nat): nat {
    if k >= n then 0 else k
  }

  // ---------------------------------------------------------------- attempts in turn

  /** How many slots the mask holds after t attempts. */
  function HeldAfter(t: nat, n: nat): (k: nat)
    requires n > 0
    ensures k <= n
  {
    if t == 0 then 0 else SlotAt(HeldAfter(t - 1, n), n) + 1
  }

  /** The offset attempt t is given. */
  function OffsetOf(t: nat, s: Screens): nat
    requires s.yres > 0 && s.Count() > 0
  {
    MulLeq(0, SlotAt(HeldAfter(t, s.Count()), s.Count()), s.Size());
    SlotAt(HeldAfter(t, s.Count()), s.Count()) * s.Size()
  }

  lemma {:induction false} SlotsGoRound(t: nat, n: nat)
    requires n > 0
    ensures SlotAt(HeldAfter(t, n), n) == t % n
  {
    if t > 0 {
      SlotsGoRound(t - 1, n);
      NextRemainder(t - 1, n);
    }
  }

  lemma NextRemainder(t: nat, n: nat)
    requires n > 0
    ensures (t + 1) % n == if t % n + 1 >= n then 0 else t % n + 1
  {
    DivMod(t, n); DivMod(t + 1, n);
    if t % n + 1 < n {
      DivUnique(t + 1, t / n, n);
    } else {
      NextMultiple(t / n, n);
      DivUnique(t + 1, t / n + 1, n);
    }
  }

  lemma NextMultiple(i: nat, size: nat)
    ensures (i + 1) * size == i * size + size
  {
  }

  lemma DifferentSlots(t: nat, u: nat, n: nat)
    requires n > 0 && t < u < t + n
    ensures t % n != u % n
  {
    DivMod(t, n); DivMod(u, n);
    if t % n == u % n {
      assert (u / n - t / n) * n == u - t;
      if u / n > t / n { MulLeq(1, u / n - t / n, n); } else { MulLeq(u / n - t / n, 0, n); }
    }
  }

  /** Attempt t is given screen t modulo their number; every screen lies inside the mapping; and the
      screens of any two attempts fewer than that number apart do not overlap. */
  lemma SlotsAreDisjoint(t: nat, u: nat, s: Screens)
    requires s.yres > 0 && s.Count() > 0
    ensures OffsetOf(t, s) == t % s.Count() * s.Size()
    ensures OffsetOf(t, s) + s.Size() <= s.Mapped()
    ensures t < u < t + s.Count() ==>
      OffsetOf(t, s) + s.Size() <= OffsetOf(u, s) || OffsetOf(u, s) + s.Size() <= OffsetOf(t, s)
  {
    var n, size := s.Count(), s.Size();
    SlotsGoRound(t, n);
    SlotsGoRound(u, n);
    InsideMapping(t, s);
    if t < u < t + n {
      DifferentSlots(t, u, n);
      Apart(t % n, u % n, size);
    }
  }

  lemma Apart(a: nat, b: nat, size: nat)
    requires a != b
    ensures a * size + size <= b * size || b * size + size <= a * size
  {
    if a < b { MulLeq(a + 1, b, size); } else { MulLeq(b + 1, a, size); }
  }

  lemma InsideMapping(t: nat, s: Screens)
    requires s.yres > 0 && s.Count() > 0
    ensures t % s.Count() * s.Size() + s.Size() <= s.Mapped()
  {
    var n, size := s.Count(), s.Size();
    DivMod(t, n);
    MulLeq(t % n + 1, n, size);
    NextMultiple(t % n, size);
    DivMod(s.yresVirtual, s.yres);
    MulLeq(n * s.yres, s.yresVirtual, s.lineLength);
    assert n * size == n * s.yres * s.lineLength;
    assert s.yresVirtual * s.lineLength == s.lineLength * s.yresVirtual;
  }

  // ---------------------------------------------------------------- the module

  class FramebufferModule {
    const screens: Screens
    var bufferMask: nat
    /** Allocations attempted so far. */
    ghost var attempts: nat

    /** The mask is always that of the low slots. */
    ghost predicate Valid()
      reads this
    {
      && screens.yres > 0 && 2 <= screens.Count() <= 31
      && bufferMask == LowSlots(HeldAfter(attempts, screens.Count()))
    }

    constructor (screens: Screens)
      requires screens.yres > 0 && 2 <= screens.Count() <= 31
      ensures Valid() && this.screens == screens && attempts == 0
    {
      this.screens := screens;
      bufferMask := 0;
      attempts := 0;
    }

    /** The choice of a slot in fb_alloc_framebuffer_locked, as an offset into the mapping. */
    method TakeSlot() returns (offset: nat)
      requires Valid()
      modifies this
      ensures Valid() && attempts == old(attempts) + 1
      ensures offset == OffsetOf(old(attempts), screens)
    {
      var n, size := screens.Count(), screens.Size();
      var mask := bufferMask;
      ghost var k := HeldAfter(attempts, n);
      if k < n { PowGrows(k, n); }
      if mask >= Pow2(n) - 1 {
        mask := 0;
        bufferMask := 0;
      }
      ghost var free := SlotAt(k, n);
      assert mask == LowSlots(free);
      offset := 0;
      var i := 0;
      while i < n
        invariant i <= free && offset == i * size
        invariant mask == bufferMask == LowSlots(free)
        invariant attempts == old(attempts)
        decreases n - i
      {
        BitsOfLowSlots(free, i);
        if !BitSet(mask, i) {
          bufferMask := bufferMask + Pow2(i);
          break;
        }
        NextMultiple(i, size);
        offset := offset + size;
        i := i + 1;
      }
      attempts := attempts + 1;
    }
  }
}
