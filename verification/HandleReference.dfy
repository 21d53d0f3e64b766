/** Reference counting of buffer handles in one process, hal/gralloc/mali_gralloc_reference.cpp. */
module HandleReference {
  import opened Errno

  datatype Kind = Framebuffer | Ion | Unknown

  /** The fields of private_handle_t that retaining and releasing touch, in the copy of one process.
      `mapped` stands for a base address that is set, `freed` for a handle that was deleted. */
  datatype Handle = Handle(kind: Kind, allocatingPid: int, remotePid: int, refCount: nat, mapped: bool, freed: bool)

  /** What a call does to the outside: map or unmap the memory, free the buffer. */
  datatype Effect = NoEffect | MapMemory | UnmapMemory | FreeBuffer

  datatype Outcome = Outcome(handle: Handle, ret: int, effect: Effect)

  /** mali_gralloc_reference_retain in process `pid`; `mapOk` says whether the memory maps. */
  function Retain(h: Handle, pid: int, mapOk: bool): Outcome {
    if h.allocatingPid == pid || h.remotePid == pid then Outcome(h.(refCount := h.refCount + 1), 0, NoEffect)
    else
      var imported := h.(remotePid := pid, refCount := 1);
      match h.kind
      case Framebuffer => Outcome(imported, 0, NoEffect)
      case Ion =>
        if mapOk then Outcome(imported.(mapped := true), 0, MapMemory) else Outcome(imported, 0 - EINVAL, NoEffect)
      case Unknown => Outcome(imported, 0 - EINVAL, NoEffect)
  }

  /** mali_gralloc_reference_release in process `pid`. */
  function Release(h: Handle, pid: int, canFree: bool): Outcome {
    if h.refCount == 0 then Outcome(h, 0 - EINVAL, NoEffect)
    else if h.allocatingPid == pid then
      var left := h.(refCount := h.refCount - 1);
      if left.refCount == 0 && canFree then Outcome(left.(freed := true, mapped := false), 0, FreeBuffer)
      else Outcome(left, 0, NoEffect)
    else if h.remotePid == pid then
      var left := h.(refCount := h.refCount - 1);
      if left.refCount == 0 then Outcome(left.(mapped := false), 0, if h.kind.Ion? then UnmapMemory else NoEffect)
      else Outcome(left, 0, NoEffect)
    else Outcome(h, 0, NoEffect)
  }

  datatype Event = Retained(mapOk: bool) | Released(canFree: bool)

  function Apply(h: Handle, pid: int, e: Event): Outcome {
    match e
    case Retained(mapOk) => Retain(h, pid, mapOk)
    case Released(canFree) => Release(h, pid, canFree)
  }

  function Run(h: Handle, pid: int, events: seq<Event>): Handle {
    if events == [] then h else Apply(Run(h, pid, events[..|events| - 1]), pid, events[|events| - 1]).handle
  }

  /** How often a run has an effect. */
  function Count(h: Handle, pid: int, events: seq<Event>, effect: Effect): nat {
    if events == [] then 0
    else Count(h, pid, events[..|events| - 1], effect)
         + if Apply(Run(h, pid, events[..|events| - 1]), pid, events[|events| - 1]).effect == effect then 1 else 0
  }

  function Retains(events: seq<Event>): nat {
    if events == [] then 0 else Retains(events[..|events| - 1]) + if events[|events| - 1].Retained? then 1 else 0
  }

  /** The releases that take a count down. */
  function Releases(h: Handle, pid: int, events: seq<Event>): nat {
    if events == [] then 0
    else Releases(h, pid, events[..|events| - 1])
         + if events[|events| - 1].Released? && Run(h, pid, events[..|events| - 1]).refCount > 0
              && Owned(Run(h, pid, events[..|events| - 1]), pid) then 1 else 0
  }

  predicate Owned(h: Handle, pid: int) {
    h.allocatingPid == pid || h.remotePid == pid
  }

  // ---------------------------------------------------------------- return values

  /** A retain succeeds if and only if the process already has the handle, or it is a framebuffer, or an
      ION buffer whose memory maps; otherwise it returns -EINVAL.  It maps exactly such a buffer, when it is
      new to the process. */
  lemma RetainReturns(h: Handle, pid: int, mapOk: bool)
    ensures var r := Retain(h, pid, mapOk);
      && (r.ret == 0 <==>
            h.allocatingPid == pid || h.remotePid == pid || h.kind == Framebuffer || (h.kind == Ion && mapOk))
      && (r.ret != 0 ==> r.ret == -22)
      && (r.effect == MapMemory <==> h.allocatingPid != pid && h.remotePid != pid && h.kind == Ion && mapOk)
      && (r.effect != MapMemory ==> r.effect == NoEffect)
  {
  }

  /** A release fails, with -EINVAL, if and only if the count is 0. */
  lemma ReleaseReturns(h: Handle, pid: int, canFree: bool)
    ensures var r := Release(h, pid, canFree);
      && (r.ret == 0 <==> h.refCount > 0) && (r.ret != 0 ==> r.ret == -22 && r.handle == h)
      && (r.effect == FreeBuffer <==> h.allocatingPid == pid && h.refCount == 1 && canFree)
      && (r.effect == UnmapMemory <==>
            h.allocatingPid != pid && h.remotePid == pid && h.refCount == 1 && h.kind == Ion)
      && r.effect != MapMemory
  {
  }

  // ---------------------------------------------------------------- an importing process

  /** A handle as another process received it. */
  predicate Imported(h: Handle, pid: int) {
    h.kind == Ion && h.allocatingPid != pid && h.remotePid != pid && !h.mapped && !h.freed
  }

  /** The discipline a client keeps: it never retains a handle whose count fell to 0, and the memory
      maps when it is asked for. */
  predicate KeepsDiscipline(h: Handle, e: Event, pid: int) {
    e.Retained? ==> if h.remotePid == pid then h.refCount > 0 else e.mapOk
  }

  predicate DisciplinedRun(h: Handle, pid: int, events: seq<Event>) {
    events == [] ||
    (DisciplinedRun(h, pid, events[..|events| - 1])
     && KeepsDiscipline(Run(h, pid, events[..|events| - 1]), events[|events| - 1], pid))
  }

  /** A client's memory is mapped exactly while its count is positive. */
  predicate MappedWhileCounted(h: Handle, pid: int) {
    h.remotePid == pid ==> (h.mapped <==> h.refCount > 0)
  }

  /** One call keeps that exactly when it keeps the discipline: retaining a handle whose count fell to
      0 does not map it again. */
  lemma DisciplineExactly(h: Handle, pid: int, e: Event)
    requires h.kind == Ion && h.allocatingPid != pid && MappedWhileCounted(h, pid) && (h.remotePid != pid ==> !h.mapped)
    ensures MappedWhileCounted(Apply(h, pid, e).handle, pid) <==> KeepsDiscipline(h, e, pid)
  {
  }

  /** An importer that retains, releases and retains has a count of 1 and no memory. */
  lemma RetainedAfterLastRelease(h: Handle, pid: int, canFree: bool)
    requires Imported(h, pid)
    ensures var after := Run(h, pid, [Retained(true), Released(canFree), Retained(true)]);
      after.refCount == 1 && !after.mapped && !MappedWhileCounted(after, pid)
  {
    var events := [Retained(true), Released(canFree), Retained(true)];
    var once, twice := events[..2][..1], events[..2];
    assert once == [Retained(true)] && twice == [Retained(true), Released(canFree)];
    assert Run(h, pid, once) == h.(remotePid := pid, refCount := 1, mapped := true);
    assert Run(h, pid, twice) == h.(remotePid := pid, refCount := 0, mapped := false);
  }

  /** In every disciplined run an importing process maps the memory once, at its first retain, and
      unmaps it once, exactly when its releases have matched its retains. */
  lemma {:induction false} ImporterMapsOnce(h: Handle, pid: int, events: seq<Event>)
    requires Imported(h, pid) && DisciplinedRun(h, pid, events)
    ensures var h', n, r := Run(h, pid, events), Retains(events), Releases(h, pid, events);
      && h'.kind == Ion && h'.allocatingPid != pid && MappedWhileCounted(h', pid)
      && (h'.remotePid == pid <==> n > 0) && (n == 0 ==> !h'.mapped && r == 0)
      && r <= n && (n > 0 ==> h'.refCount == n - r)
      && Count(h, pid, events, MapMemory) == (if n > 0 then 1 else 0)
      && Count(h, pid, events, UnmapMemory) == (if n > 0 && r == n then 1 else 0)
      && Count(h, pid, events, FreeBuffer) == 0
  {
    if events != [] {
      ImporterMapsOnce(h, pid, events[..|events| - 1]);
    }
  }

  lemma {:induction false} DisciplinedPrefix(h: Handle, pid: int, events: seq<Event>, i: nat)
    requires DisciplinedRun(h, pid, events) && i < |events|
    ensures DisciplinedRun(h, pid, events[..i]) && KeepsDiscipline(Run(h, pid, events[..i]), events[i], pid)
    decreases |events|
  {
    var last := |events| - 1;
    if i < last {
      DisciplinedPrefix(h, pid, events[..last], i);
      assert events[..last][..i] == events[..i];
    }
  }

  /** Every retain of a disciplined importer succeeds. */
  lemma DisciplinedRetainsSucceed(h: Handle, pid: int, events: seq<Event>, i: nat)
    requires Imported(h, pid) && DisciplinedRun(h, pid, events) && i < |events| && events[i].Retained?
    ensures Apply(Run(h, pid, events[..i]), pid, events[i]).ret == 0
  {
    DisciplinedPrefix(h, pid, events, i);
    ImporterMapsOnce(h, pid, events[..i]);
  }

  // ---------------------------------------------------------------- the allocating process

  /** A handle as its allocation made it. */
  predicate Allocated(h: Handle, pid: int) {
    h.allocatingPid == pid && h.refCount == 1 && !h.freed
  }

  /** A freed handle is not used again, and every release may free. */
  predicate OwnerRun(h: Handle, pid: int, events: seq<Event>) {
    events == [] ||
    (OwnerRun(h, pid, events[..|events| - 1])
     && !Run(h, pid, events[..|events| - 1]).freed
     && (events[|events| - 1].Released? ==> events[|events| - 1].canFree))
  }

  /** The allocating process frees the buffer once, exactly when it has released it once more than it
      retained it, and never maps or unmaps it through its references. */
  lemma {:induction false} OwnerFreesOnce(h: Handle, pid: int, events: seq<Event>)
    requires Allocated(h, pid) && OwnerRun(h, pid, events)
    ensures var h', n, r := Run(h, pid, events), Retains(events), Releases(h, pid, events);
      && h'.allocatingPid == pid && r <= n + 1 && h'.refCount == 1 + n - r
      && (h'.freed <==> r == n + 1)
      && Count(h, pid, events, FreeBuffer) == (if r == n + 1 then 1 else 0)
      && Count(h, pid, events, MapMemory) == 0 && Count(h, pid, events, UnmapMemory) == 0
  {
    if events != [] {
      OwnerFreesOnce(h, pid, events[..|events| - 1]);
    }
  }

  /** Event i takes the last count and may free. */
  predicate FreesAt(h: Handle, pid: int, events: seq<Event>, i: nat) {
    i < |events| && events[i] == Released(true) && Run(h, pid, events[..i]).refCount == 1
  }

  lemma FreesEarlier(h: Handle, pid: int, events: seq<Event>, i: nat)
    requires i < |events| - 1
    ensures FreesAt(h, pid, events, i) <==> FreesAt(h, pid, events[..|events| - 1], i)
  {
    assert events[..|events| - 1][..i] == events[..i];
  }

  /** Over any run in the allocating process the buffer is freed if and only if some release that may free
      takes the last count.  A count that a release has taken without freeing does not free by itself. */
  lemma {:induction false} FreedExactly(h: Handle, pid: int, events: seq<Event>)
    requires h.allocatingPid == pid && !h.freed
    ensures Run(h, pid, events).freed <==> exists i :: 0 <= i < |events| && FreesAt(h, pid, events, i)
    ensures Run(h, pid, events).allocatingPid == pid
  {
    if events != [] {
      var last := |events| - 1;
      FreedExactly(h, pid, events[..last]);
      forall i | 0 <= i < last
        ensures FreesAt(h, pid, events, i) <==> FreesAt(h, pid, events[..last], i)
      {
        FreesEarlier(h, pid, events, i);
      }
      assert Run(h, pid, events).freed <==> Run(h, pid, events[..last]).freed || FreesAt(h, pid, events, last);
    }
  }

  /** A last release that may not free leaves the buffer, and no release that follows at once frees it. */
  lemma ReleaseAtZeroIsRefused(h: Handle, pid: int)
    requires Allocated(h, pid)
    ensures var after := Release(h, pid, false).handle;
      !after.freed && forall canFree :: Release(after, pid, canFree) == Outcome(after, 0 - EINVAL, NoEffect)
  {
  }

  /** Only a retain in between lets one free it. */
  lemma RetainedAgainFrees(h: Handle, pid: int)
    requires Allocated(h, pid)
    ensures !Run(h, pid, [Released(false), Released(true)]).freed
    ensures Run(h, pid, [Released(false), Retained(true), Released(true)]).freed
  {
    var once, twice := [Released(false)], [Released(false), Retained(true)];
    var events := [Released(false), Retained(true), Released(true)];
    assert [Released(false), Released(true)][..1] == once && once[..0] == [];
    assert Run(h, pid, once) == h.(refCount := 0);
    assert events[..2] == twice && twice[..1] == once;
    assert Run(h, pid, twice) == h.(refCount := 1);
  }

  // ---------------------------------------------------------------- the handle

  class PrivateHandle {
    const kind: Kind
    const allocatingPid: int
    var remotePid: int
    var refCount: nat
    var mapped: bool
    ghost var freed: bool

    ghost function State(): Handle
      reads this
    {
      Handle(kind, allocatingPid, remotePid, refCount, mapped, freed)
    }

    constructor (kind: Kind, pid: int)
      ensures State() == Handle(kind, pid, -1, 1, false, false)
    {
      this.kind, allocatingPid, remotePid, refCount, mapped, freed := kind, pid, -1, 1, false, false;
    }

    /** mali_gralloc_reference_retain of a valid handle. */
    method ReferenceRetain(pid: int, mapOk: bool) returns (ret: int)
      modifies this
      ensures State() == Retain(old(State()), pid, mapOk).handle && ret == Retain(old(State()), pid, mapOk).ret
    {
      if allocatingPid == pid || remotePid == pid {
        refCount := refCount + 1;
        return 0;
      } else {
        remotePid := pid;
        refCount := 1;
      }
      ret := 0 - EINVAL;
      if kind == Framebuffer {
        ret := 0;
      } else if kind == Ion {
        if mapOk {
          mapped := true;
          ret := 0;
        }
      }
    }

    /** mali_gralloc_reference_release of a valid handle. */
    method ReferenceRelease(pid: int, canFree: bool) returns (ret: int)
      modifies this
      ensures State() == Release(old(State()), pid, canFree).handle && ret == Release(old(State()), pid, canFree).ret
    {
      if refCount == 0 {
        return 0 - EINVAL;
      }
      if allocatingPid == pid {
        refCount := refCount - 1;
        if refCount == 0 && canFree {
          mapped := false;
          freed := true;
        }
      } else if remotePid == pid {
        refCount := refCount - 1;
        if refCount == 0 {
          mapped := false;
        }
      }
      return 0;
    }
  }
}
