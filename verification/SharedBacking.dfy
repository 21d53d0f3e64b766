/** Memory for several buffers, hal/gralloc/mali_gralloc_ion.cpp: when all of them can live in the same
    heap they share one backing store, as large as the largest; and a call that fails gives back the
    file descriptors it opened, with one exception. */
module SharedBacking {
  import opened Options

  /** What is known of a descriptor: its size, the heap that was picked for its usage (0 for none),
      the flags for that heap, and whether its usage is protected. */
  datatype Descriptor = Descriptor(size: nat, heapMask: nat, ionFlags: int, isProtected: bool)

  /** All the buffers can be in one heap with one set of flags. */
  predicate Sharable(d: seq<Descriptor>) {
    |d| > 1 && forall i :: 0 <= i < |d| ==>
      d[i].heapMask != 0 && d[i].heapMask == d[0].heapMask && d[i].ionFlags == d[0].ionFlags
  }

  /** check_buffers_sharable */
  method CheckBuffersSharable(descriptors: seq<Descriptor>) returns (sharable: bool)
    ensures sharable <==> Sharable(descriptors)
  {
    var sharedHeapMask: nat, sharedIonFlags := 0, 0;
    if |descriptors| <= 1 {
      return false;
    }
    for i := 0 to |descriptors|
      invariant i == 0 <==> sharedHeapMask == 0
      invariant i > 0 ==> sharedHeapMask == descriptors[0].heapMask && sharedIonFlags == descriptors[0].ionFlags
      invariant forall k :: 0 <= k < i ==>
        && descriptors[k].heapMask != 0 && descriptors[k].heapMask == descriptors[0].heapMask
        && descriptors[k].ionFlags == descriptors[0].ionFlags
    {
      if descriptors[i].heapMask == 0 {
        return false;
      }
      if sharedHeapMask != 0 {
        if sharedHeapMask != descriptors[i].heapMask || sharedIonFlags != descriptors[i].ionFlags {
          return false;
        }
      } else {
        sharedHeapMask := descriptors[i].heapMask;
        sharedIonFlags := descriptors[i].ionFlags;
      }
    }
    return true;
  }

  /** The first of the largest buffers. */
  predicate IsLargest(d: seq<Descriptor>, index: nat) {
    && index < |d|
    && (forall i :: 0 <= i < |d| ==> d[i].size <= d[index].size)
    && (forall i :: 0 <= i < index ==> d[i].size < d[index].size)
  }

  function LargestIndex(d: seq<Descriptor>): (index: nat)
    requires d != []
    ensures IsLargest(d, index)
  {
    var last := |d| - 1;
    if last == 0 then 0
    else
      var k := LargestIndex(d[..last]);
      assert forall i :: 0 <= i < last ==> d[..last][i] == d[i];
      if d[last].size > d[k].size then last else k
  }

  lemma LargestIsUnique(d: seq<Descriptor>, m: nat, n: nat)
    requires IsLargest(d, m) && IsLargest(d, n)
    ensures m == n
  {
    assert d[n].size <= d[m].size && d[m].size <= d[n].size;
  }

  /** get_max_buffer_descriptor_index */
  method MaxDescriptorIndex(descriptors: seq<Descriptor>) returns (index: nat)
    requires descriptors != []
    ensures index == LargestIndex(descriptors) && IsLargest(descriptors, index)
  {
    index := 0;
    var maxSize: nat := 0;
    for i := 0 to |descriptors|
      invariant index < |descriptors| && (i == 0 ==> index == 0)
      invariant (index < i && maxSize == descriptors[index].size) || (index == 0 && maxSize == 0)
      invariant forall k :: 0 <= k < i ==> descriptors[k].size <= maxSize
      invariant forall k :: 0 <= k < index ==> descriptors[k].size < maxSize
    {
      if maxSize < descriptors[i].size {
        index := i;
        maxSize := descriptors[i].size;
      }
    }
    LargestIsUnique(descriptors, index, LargestIndex(descriptors));
  }

  // ---------------------------------------------------------------- file descriptors and handles

  /** The memory behind a file descriptor. */
  datatype Backing = Backing(id: nat, size: nat)

  /** The fields of a handle that tell what memory it has. */
  datatype Handle = Handle(fd: nat, size: nat, backingSize: nat, mapped: bool)

  type Handles = seq<Option<Handle>>

  function Fds(handles: Handles): set<nat> {
    set i | 0 <= i < |handles| && handles[i].Some? :: handles[i].value.fd
  }

  function Nothing(n: nat): (r: Handles)
    ensures |r| == n && Fds(r) == {}
  {
    seq(n, _ => None)
  }

  type OpenFiles = map<nat, Backing>

  /** Since `was`, the descriptors from `first` up to `next` have been opened, all for one store. */
  ghost predicate OpenedForOne(was: OpenFiles, now: OpenFiles, first: nat, next: nat, b: Backing) {
    && (forall fd :: fd in now <==> fd in was || first <= fd < next)
    && (forall fd :: fd in was && fd < first ==> now[fd] == was[fd])
    && (forall fd :: fd in now && first <= fd < next ==> now[fd] == b)
  }

  /** The same, each for a store of its own, of the size of its descriptor. */
  ghost predicate OpenedForEach(was: OpenFiles, now: OpenFiles, first: nat, id: nat, ds: seq<Descriptor>) {
    && (forall fd :: fd in now <==> fd in was || first <= fd < first + |ds|)
    && (forall fd :: fd in was && fd < first ==> now[fd] == was[fd])
    && (forall fd :: fd in now && first <= fd < first + |ds| ==>
          now[fd] == Backing(id + fd - first, ds[fd - first].size))
  }

  /** The descriptor number of handle k when buffer m, the largest, has the first one. */
  function SharedFd(first: nat, m: nat, k: nat): nat {
    if k == m then first else if k < m then first + 1 + k else first + k
  }

  /** The first n handles are made, for buffers that share the store of buffer m. */
  predicate MadeShared(handles: Handles, ds: seq<Descriptor>, n: nat, m: nat, first: nat) {
    && |handles| == |ds| && n <= |ds| && m < |ds|
    && (forall k :: 0 <= k < n ==> handles[k] == Some(Handle(SharedFd(first, m, k), ds[k].size, ds[m].size, false)))
    && (forall k :: n <= k < |ds| ==> handles[k] == None)
  }

  predicate MadeSeparate(handles: Handles, ds: seq<Descriptor>, n: nat, first: nat) {
    && |handles| == |ds| && n <= |ds|
    && (forall k :: 0 <= k < n ==> handles[k] == Some(Handle(first + k, ds[k].size, ds[k].size, false)))
    && (forall k :: n <= k < |ds| ==> handles[k] == None)
  }

  lemma FdIn(handles: Handles, k: nat)
    requires k < |handles| && handles[k].Some?
    ensures handles[k].value.fd in Fds(handles)
  {
  }

  /** Closing the first n handles of a shared store closes all that was opened, except that the first
      descriptor stays open while its handle is not made. */
  lemma ClosesShared(was: OpenFiles, now: OpenFiles, handles: Handles, ds: seq<Descriptor>, n: nat, m: nat,
                     first: nat, next: nat, b: Backing)
    requires MadeShared(handles, ds, n, m, first) && OpenedForOne(was, now, first, next, b)
    requires next == first + (if n <= m then n + 1 else n)
    requires forall fd :: fd in was ==> fd < first
    ensures now - Fds(handles) == if n <= m then was[first := b] else was
  {
    var after := now - Fds(handles);
    var goal := if n <= m then was[first := b] else was;
    forall fd
      ensures fd in after <==> fd in goal
    {
      if first <= fd < next && !(fd == first && n <= m) {
        var k := if fd == first then m else if fd <= first + m then fd - first - 1 else fd - first;
        FdIn(handles, k);
      }
    }
  }

  lemma ClosesSeparate(was: OpenFiles, now: OpenFiles, handles: Handles, ds: seq<Descriptor>, n: nat, first: nat,
                       id: nat)
    requires MadeSeparate(handles, ds, n, first) && OpenedForEach(was, now, first, id, ds[..n])
    requires forall fd :: fd in was ==> fd < first
    ensures now - Fds(handles) == was
  {
    var after := now - Fds(handles);
    forall fd
      ensures fd in after <==> fd in was
    {
      if first <= fd < first + n {
        FdIn(handles, fd - first);
      }
    }
  }

  /** The call shares, and a dup fails before the turn of the largest buffer, whose handle would have
      owned the descriptor of the allocation. */
  predicate KeepsOne(ds: seq<Descriptor>, allocOk: seq<bool>, dupOk: seq<bool>)
    requires |allocOk| == |dupOk| == |ds|
  {
    Sharable(ds) && allocOk[LargestIndex(ds)] && FailsBefore(dupOk, LargestIndex(ds))
  }

  /** Two buffers in one heap, of which the second is the larger; the dup for the first fails. */
  lemma FailedDupKeepsOne(small: nat, large: nat, heapMask: nat, ionFlags: int, ds: seq<Descriptor>)
    requires small < large && heapMask != 0
    requires ds == [Descriptor(small, heapMask, ionFlags, false), Descriptor(large, heapMask, ionFlags, false)]
    ensures KeepsOne(ds, [true, true], [false, true])
  {
    LargestIsUnique(ds, LargestIndex(ds), 1);
    assert ![false, true][0];
  }

  predicate NotYetMapped(handles: Handles) {
    forall k :: 0 <= k < |handles| && handles[k].Some? ==> !handles[k].value.mapped
  }

  /** All handles are made, and closing their descriptors would undo the call. */
  ghost predicate Done(was: OpenFiles, now: OpenFiles, handles: Handles, ds: seq<Descriptor>, shared: bool) {
    && AllBacked(handles, ds, now, shared) && Handed(was, now, handles) && NotYetMapped(handles)
    && now - Fds(handles) == was
  }

  /** The buffers that are mapped are those that are not protected. */
  predicate AllMapped(handles: Handles, ds: seq<Descriptor>) {
    |handles| == |ds| && forall k :: 0 <= k < |ds| ==> handles[k].Some? && handles[k].value.mapped == !ds[k].isProtected
  }

  predicate AllButOne(oks: seq<bool>, m: nat) {
    forall i :: 0 <= i < |oks| && i != m ==> oks[i]
  }

  predicate FailsBefore(oks: seq<bool>, m: nat) {
    exists i :: 0 <= i < m && i < |oks| && !oks[i]
  }

  /** The first n handles are mapped, if their buffers are not protected. */
  predicate MappedFrom(now: Handles, before: Handles, ds: seq<Descriptor>, n: nat) {
    && |now| == |before| == |ds| && n <= |ds| && (forall k :: 0 <= k < |ds| ==> before[k].Some?)
    && (forall k :: 0 <= k < n ==>
          now[k] == Some(before[k].value.(mapped := before[k].value.mapped || !ds[k].isProtected)))
    && (forall k :: n <= k < |ds| ==> now[k] == before[k])
  }

  lemma SameFds(now: Handles, before: Handles, ds: seq<Descriptor>, n: nat)
    requires MappedFrom(now, before, ds, n)
    ensures Fds(now) == Fds(before)
  {
    forall k | 0 <= k < |ds|
      ensures now[k].Some? && now[k].value.fd == before[k].value.fd
    {
    }
    forall fd
      ensures fd in Fds(now) <==> fd in Fds(before)
    {
      if fd in Fds(before) {
        var k :| 0 <= k < |ds| && before[k].value.fd == fd;
        FdIn(now, k);
      }
      if fd in Fds(now) {
        var k :| 0 <= k < |ds| && now[k].value.fd == fd;
        FdIn(before, k);
      }
    }
  }

  /** Every buffer has a descriptor of its own, and fits the memory behind it; two have the same memory
      exactly when the allocation is shared. */
  ghost predicate AllBacked(handles: Handles, ds: seq<Descriptor>, open: OpenFiles, shared: bool) {
    && |handles| == |ds|
    && (forall i :: 0 <= i < |ds| ==>
          && handles[i].Some? && handles[i].value.fd in open
          && handles[i].value.size == ds[i].size <= handles[i].value.backingSize == open[handles[i].value.fd].size)
    && (forall i, j :: 0 <= i < j < |ds| ==>
          && handles[i].value.fd != handles[j].value.fd
          && (open[handles[i].value.fd].id == open[handles[j].value.fd].id <==> shared))
  }

  /** What was opened is what the handles have. */
  ghost predicate Handed(was: OpenFiles, now: OpenFiles, handles: Handles) {
    && (forall fd :: fd in now <==> fd in was || fd in Fds(handles))
    && (forall fd :: fd in was && fd in now ==> now[fd] == was[fd])
  }

  /** Descriptor fd is open as well, and nothing else has changed. */
  predicate OneMore(was: OpenFiles, now: OpenFiles, fd: nat) {
    fd !in was && fd in now && now == was[fd := now[fd]]
  }

  lemma SharedBacked(was: OpenFiles, now: OpenFiles, handles: Handles, ds: seq<Descriptor>, m: nat, first: nat,
                     b: Backing)
    requires IsLargest(ds, m) && b.size == ds[m].size && forall fd :: fd in was ==> fd < first
    requires MadeShared(handles, ds, |ds|, m, first) && OpenedForOne(was, now, first, first + |ds|, b)
    ensures AllBacked(handles, ds, now, true) && Handed(was, now, handles)
  {
    forall fd
      ensures fd in now <==> fd in was || fd in Fds(handles)
    {
      if first <= fd < first + |ds| {
        FdIn(handles, if fd == first then m else if fd <= first + m then fd - first - 1 else fd - first);
      }
    }
  }

  lemma SeparateHanded(was: OpenFiles, now: OpenFiles, handles: Handles, ds: seq<Descriptor>, first: nat, id: nat)
    requires MadeSeparate(handles, ds, |ds|, first) && OpenedForEach(was, now, first, id, ds)
    requires forall fd :: fd in was ==> fd < first
    ensures Handed(was, now, handles)
  {
    forall fd
      ensures fd in now <==> fd in was || fd in Fds(handles)
    {
      if first <= fd < first + |ds| { FdIn(handles, fd - first); }
    }
  }

  lemma SeparateBacked(was: OpenFiles, now: OpenFiles, handles: Handles, ds: seq<Descriptor>, first: nat, id: nat)
    requires MadeSeparate(handles, ds, |ds|, first) && OpenedForEach(was, now, first, id, ds)
    ensures AllBacked(handles, ds, now, false)
  {
    forall i | 0 <= i < |ds|
      ensures handles[i].Some? && handles[i].value.fd in now && now[handles[i].value.fd].id == id + i
      ensures handles[i].value == Handle(first + i, ds[i].size, now[handles[i].value.fd].size, false)
    {
      SeparateFd(was, now, ds, first, id, i);
    }
  }

  lemma SeparateFd(was: OpenFiles, now: OpenFiles, ds: seq<Descriptor>, first: nat, id: nat, i: nat)
    requires OpenedForEach(was, now, first, id, ds) && i < |ds|
    ensures first + i in now && now[first + i] == Backing(id + i, ds[i].size)
  {
    var fd := first + i;
    assert fd in now;
  }

  class IonModule {
    /** The open file descriptors, and what memory is behind each. */
    var open: map<nat, Backing>
    var nextFd: nat
    var nextId: nat

    ghost predicate Valid()
      reads this
    {
      forall fd :: fd in open ==> fd < nextFd && open[fd].id < nextId
    }

    constructor ()
      ensures Valid() && open == map[]
    {
      open, nextFd, nextId := map[], 0, 0;
    }

    /** alloc_from_ion_heap: new memory, if there is any, behind a new descriptor. */
    method AllocFromHeap(size: nat, ok: bool) returns (fd: int)
      requires Valid()
      modifies this
      ensures Valid()
      ensures ok ==> fd == old(nextFd) && nextFd == old(nextFd) + 1 && nextId == old(nextId) + 1
                     && open == old(open)[old(nextFd) := Backing(old(nextId), size)]
      ensures !ok ==> fd == -1 && open == old(open) && nextFd == old(nextFd) && nextId == old(nextId)
    {
      if !ok {
        return -1;
      }
      fd := nextFd;
      open := open[nextFd := Backing(nextId, size)];
      nextFd, nextId := nextFd + 1, nextId + 1;
    }

    /** dup: another descriptor for the same memory. */
    method Dup(fd: nat, ok: bool) returns (copy: int)
      requires Valid() && fd in open
      modifies this`open, this`nextFd
      ensures Valid()
      ensures ok ==> copy == old(nextFd) && nextFd == old(nextFd) + 1 && open == old(open)[old(nextFd) := old(open)[fd]]
      ensures !ok ==> copy == -1 && open == old(open) && nextFd == old(nextFd)
    {
      if !ok {
        return -1;
      }
      copy := nextFd;
      open := open[nextFd := open[fd]];
      nextFd := nextFd + 1;
    }

    /** mali_gralloc_ion_free_internal: close the descriptors of the handles there are. */
    method FreeInternal(handles: Handles)
      requires Valid()
      modifies this`open
      ensures Valid() && open == old(open) - Fds(handles)
    {
      for i := 0 to |handles|
        invariant Valid() && open == old(open) - Fds(handles[..i])
      {
        if handles[i].Some? {
          open := open - {handles[i].value.fd};
        }
        FdsStep(handles, i);
      }
      assert handles[..|handles|] == handles;
    }

    lemma FdsStep(handles: Handles, i: nat)
      requires i < |handles|
      ensures Fds(handles[..i + 1]) == Fds(handles[..i]) + if handles[i].Some? then {handles[i].value.fd} else {}
    {
      var longer, shorter := handles[..i + 1], handles[..i];
      assert forall k :: 0 <= k < i ==> longer[k] == shorter[k];
      forall fd
        ensures fd in Fds(longer) <==> fd in Fds(shorter) || (handles[i].Some? && handles[i].value.fd == fd)
      {
        if fd in Fds(shorter) {
          var k :| 0 <= k < i && shorter[k].Some? && shorter[k].value.fd == fd;
          assert longer[k].Some? && longer[k].value.fd == fd;
        }
        if handles[i].Some? && handles[i].value.fd == fd {
          assert longer[i].Some? && longer[i].value.fd == fd;
        }
      }
    }

    /** The branch for buffers that share, of which buffer m is the largest: one allocation, and a copy
        of its descriptor for every buffer but m.  `dupOk` are the results of dup.  A copy that fails
        before buffer m's turn leaves the allocation's own descriptor open. */
    method FillShared(ds: seq<Descriptor>, m: nat, allocOk: bool, dupOk: seq<bool>) returns (ok: bool, handles: Handles)
      requires Valid() && IsLargest(ds, m) && |dupOk| == |ds|
      modifies this
      ensures Valid()
      ensures ok <==> allocOk && AllButOne(dupOk, m)
      ensures ok ==> MadeShared(handles, ds, |ds|, m, old(nextFd))
      ensures ok ==> OpenedForOne(old(open), open, old(nextFd), old(nextFd) + |ds|, Backing(old(nextId), ds[m].size))
      ensures !ok ==> open == if allocOk && FailsBefore(dupOk, m)
                              then old(open)[old(nextFd) := Backing(old(nextId), ds[m].size)] else old(open)
    {
      handles := Nothing(|ds|);
      ghost var b, first := Backing(nextId, ds[m].size), nextFd;
      var sharedFd := AllocFromHeap(ds[m].size, allocOk);
      if sharedFd < 0 {
        return false, handles;
      }
      for i := 0 to |ds|
        invariant Valid() && nextFd == first + (if i <= m then i + 1 else i)
        invariant MadeShared(handles, ds, i, m, first) && OpenedForOne(old(open), open, first, nextFd, b)
        invariant forall k :: 0 <= k < i && k != m ==> dupOk[k]
      {
        var tmpFd := sharedFd;
        if i != m {
          tmpFd := Dup(sharedFd, dupOk[i]);
          if tmpFd < 0 {
            ClosesShared(old(open), open, handles, ds, i, m, first, nextFd, b);
            FreeInternal(handles);
            return false, handles;
          }
        }
        handles := handles[i := Some(Handle(tmpFd, ds[i].size, ds[m].size, false))];
      }
      return true, handles;
    }

    /** The branch for buffers that do not: an allocation each. */
    method FillSeparate(ds: seq<Descriptor>, allocOk: seq<bool>) returns (ok: bool, handles: Handles)
      requires Valid() && |allocOk| == |ds|
      modifies this
      ensures Valid()
      ensures ok <==> forall i :: 0 <= i < |ds| ==> ds[i].heapMask != 0 && allocOk[i]
      ensures ok ==>
        MadeSeparate(handles, ds, |ds|, old(nextFd)) && OpenedForEach(old(open), open, old(nextFd), old(nextId), ds)
      ensures !ok ==> open == old(open)
    {
      handles := Nothing(|ds|);
      ghost var first, id := nextFd, nextId;
      for i := 0 to |ds|
        invariant Valid() && nextFd == first + i && nextId == id + i
        invariant MadeSeparate(handles, ds, i, first) && OpenedForEach(old(open), open, first, id, ds[..i])
        invariant forall k :: 0 <= k < i ==> ds[k].heapMask != 0 && allocOk[k]
      {
        if ds[i].heapMask == 0 {
          ClosesSeparate(old(open), open, handles, ds, i, first, id);
          FreeInternal(handles);
          return false, handles;
        }
        var fd := AllocFromHeap(ds[i].size, allocOk[i]);
        if fd < 0 {
          ClosesSeparate(old(open), open, handles, ds, i, first, id);
          FreeInternal(handles);
          return false, handles;
        }
        handles := handles[i := Some(Handle(fd, ds[i].size, ds[i].size, false))];
      }
      assert ds[..|ds|] == ds;
      return true, handles;
    }

    /** The last loop: map every buffer that is not protected. */
    method MapAll(handles: Handles, ds: seq<Descriptor>, mapOk: seq<bool>) returns (ok: bool, mapped: Handles)
      requires Valid() && |handles| == |ds| == |mapOk| && forall i :: 0 <= i < |ds| ==> handles[i].Some?
      modifies this`open
      ensures Valid()
      ensures ok <==> forall i :: 0 <= i < |ds| ==> ds[i].isProtected || mapOk[i]
      ensures ok ==> open == old(open) && MappedFrom(mapped, handles, ds, |ds|)
      ensures !ok ==> open == old(open) - Fds(handles)
    {
      mapped := handles;
      for i := 0 to |ds|
        invariant Valid() && open == old(open) && MappedFrom(mapped, handles, ds, i)
        invariant forall k :: 0 <= k < i ==> ds[k].isProtected || mapOk[k]
      {
        if !ds[i].isProtected {
          if !mapOk[i] {
            SameFds(mapped, handles, ds, i);
            FreeInternal(mapped);
            return false, mapped;
          }
          mapped := mapped[i := Some(mapped[i].value.(mapped := true))];
        }
      }
      return true, mapped;
    }

    method AllocateShared(ds: seq<Descriptor>, allocOk: seq<bool>, dupOk: seq<bool>) returns (ok: bool,
                          handles: Handles)
      requires Valid() && Sharable(ds) && |allocOk| == |dupOk| == |ds|
      modifies this
      ensures Valid()
      ensures ok ==> !KeepsOne(ds, allocOk, dupOk) && Done(old(open), open, handles, ds, true)
      ensures !ok ==> if KeepsOne(ds, allocOk, dupOk) then OneMore(old(open), open, old(nextFd)) else open == old(open)
    {
      var m := MaxDescriptorIndex(ds);
      ghost var first, b := nextFd, Backing(nextId, ds[m].size);
      ok, handles := FillShared(ds, m, allocOk[m], dupOk);
      if ok {
        SharedBacked(old(open), open, handles, ds, m, first, b);
        ClosesShared(old(open), open, handles, ds, |ds|, m, first, first + |ds|, b);
      }
    }

    method AllocateSeparate(ds: seq<Descriptor>, allocOk: seq<bool>) returns (ok: bool, handles: Handles)
      requires Valid() && |allocOk| == |ds|
      modifies this
      ensures Valid()
      ensures if ok then Done(old(open), open, handles, ds, false) else open == old(open)
    {
      ghost var first, id := nextFd, nextId;
      ok, handles := FillSeparate(ds, allocOk);
      if ok {
        SeparateBacked(old(open), open, handles, ds, first, id);
        SeparateHanded(old(open), open, handles, ds, first, id);
        assert ds[..|ds|] == ds;
        ClosesSeparate(old(open), open, handles, ds, |ds|, first, id);
      }
    }

    /** The two branches of mali_gralloc_ion_allocate. */
    method AllocateAll(ds: seq<Descriptor>, allocOk: seq<bool>, dupOk: seq<bool>)
      returns (ok: bool, shared: bool, handles: Handles)
      requires Valid() && |allocOk| == |dupOk| == |ds|
      modifies this
      ensures Valid() && shared == Sharable(ds)
      ensures ok ==> !KeepsOne(ds, allocOk, dupOk) && Done(old(open), open, handles, ds, shared)
      ensures !ok ==> if KeepsOne(ds, allocOk, dupOk) then OneMore(old(open), open, old(nextFd)) else open == old(open)
    {
      shared := CheckBuffersSharable(ds);
      if shared {
        ok, handles := AllocateShared(ds, allocOk, dupOk);
      } else {
        ok, handles := AllocateSeparate(ds, allocOk);
      }
    }

    /** mali_gralloc_ion_allocate, with the results of the allocations, the dups and the mmaps.  On
        success every buffer fits the memory behind its own descriptor, and two buffers have the same
        memory exactly when the call shares.  A failure gives back every descriptor, unless the call
        shares and a dup fails before the turn of the largest buffer: then one stays open. */
    method IonAllocate(ds: seq<Descriptor>, allocOk: seq<bool>, dupOk: seq<bool>, mapOk: seq<bool>)
      returns (ret: int, shared: bool, handles: Handles)
      requires Valid() && |allocOk| == |dupOk| == |mapOk| == |ds|
      modifies this
      ensures Valid() && shared == Sharable(ds)
      ensures ret == 0 ==> !KeepsOne(ds, allocOk, dupOk) && AllBacked(handles, ds, open, shared)
      ensures ret == 0 ==> Handed(old(open), open, handles) && AllMapped(handles, ds)
      ensures ret != 0 ==>
        ret == -1 && if KeepsOne(ds, allocOk, dupOk) then OneMore(old(open), open, old(nextFd)) else open == old(open)
    {
      var ok, made;
      ok, shared, made := AllocateAll(ds, allocOk, dupOk);
      if !ok {
        return -1, shared, made;
      }
      ok, handles := MapAll(made, ds, mapOk);
      if !ok {
        return -1, shared, handles;
      }
      SameFds(handles, made, ds, |ds|);
      return 0, shared, handles;
    }
  }
}
