/** The heap membership oracles (`gc_managed_heap_space_p`,
    `gc_managed_addr_p`).

    The region bounds, `dynamic_space_size` and the thread list are the
    configuration the runtime fixed at startup; the collector build chooses
    one of two dynamic-space layouts. */
module HeapOracle {
  import opened Machine

  /** A half-open address range `[start, end)`. */
  datatype Region = Region(start: int, end: int) {
    predicate Contains(addr: int)
    {
      start <= addr < end
    }
  }

  /** The dynamic-space layout of the collector build. A generational build
      has one dynamic space and the immobile-space test `immobile_space_p`
      (a predicate this model takes as given); a copying build has the two
      semispaces DYNAMIC_0 and DYNAMIC_1. */
  datatype SpaceLayout =
    | Gencgc(dynamicSpaceStart: int, immobileSpaceP: int -> bool)
    | Cheney(dynamic0SpaceStart: int, dynamic1SpaceStart: int)

  /** The configured spaces: read-only, static, and the dynamic space(s) of
      `dynamicSpaceSize` bytes each. */
  datatype Spaces = Spaces(readOnlySpace: Region, staticSpace: Region,
                           dynamicSpaceSize: nat, layout: SpaceLayout)

  /** The dynamic space(s) of the configured layout. */
  function DynamicSpaces(s: Spaces): seq<Region>
  {
    match s.layout
    case Gencgc(start, _) => [Region(start, start + s.dynamicSpaceSize)]
    case Cheney(start0, start1) =>
      [Region(start0, start0 + s.dynamicSpaceSize), Region(start1, start1 + s.dynamicSpaceSize)]
  }

  /** Every address-range region of the configuration. */
  function HeapRegions(s: Spaces): (rs: seq<Region>)
    ensures |rs| == if s.layout.Gencgc? then 3 else 4
    ensures rs[0] == s.readOnlySpace && rs[1] == s.staticSpace
    ensures s.layout.Gencgc? ==>
              rs[2] == Region(s.layout.dynamicSpaceStart, s.layout.dynamicSpaceStart + s.dynamicSpaceSize)
    ensures s.layout.Cheney? ==>
              rs[2] == Region(s.layout.dynamic0SpaceStart, s.layout.dynamic0SpaceStart + s.dynamicSpaceSize) &&
              rs[3] == Region(s.layout.dynamic1SpaceStart, s.layout.dynamic1SpaceStart + s.dynamicSpaceSize)
  {
    [s.readOnlySpace, s.staticSpace] + DynamicSpaces(s)
  }

  /** True when `addr` is in the immobile space (generational builds only). */
  predicate InImmobileSpace(s: Spaces, addr: int)
  {
    s.layout.Gencgc? && s.layout.immobileSpaceP(addr)
  }

  /** `gc_managed_heap_space_p`: the test exactly as the code writes it. */
  predicate GcManagedHeapSpaceP(s: Spaces, addr: int)
  {
    (s.readOnlySpace.start <= addr && addr < s.readOnlySpace.end)
    || (s.staticSpace.start <= addr && addr < s.staticSpace.end)
    || match s.layout
       case Gencgc(start, immobileSpaceP) =>
         (start <= addr && addr < start + s.dynamicSpaceSize) || immobileSpaceP(addr)
       case Cheney(start0, start1) =>
         (start0 <= addr && addr < start0 + s.dynamicSpaceSize)
         || (start1 <= addr && addr < start1 + s.dynamicSpaceSize)
  }

  /** The heap oracle holds exactly for the addresses of some configured
      region, or of the immobile space. */
  lemma HeapSpaceByRegions(s: Spaces, addr: int)
    ensures GcManagedHeapSpaceP(s, addr) <==>
            (exists i :: 0 <= i < |HeapRegions(s)| && HeapRegions(s)[i].Contains(addr))
            || InImmobileSpace(s, addr)
  {
    var rs := HeapRegions(s);
    if GcManagedHeapSpaceP(s, addr) && !InImmobileSpace(s, addr) {
      if rs[0].Contains(addr) {
      } else if rs[1].Contains(addr) {
      } else if rs[2].Contains(addr) {
      } else {
        assert rs[3].Contains(addr);
      }
    }
  }

  /** Half-open regions: a non-empty region's first address is in the heap. */
  lemma RegionStartIsManaged(s: Spaces, i: int)
    requires 0 <= i < |HeapRegions(s)|
    requires HeapRegions(s)[i].start < HeapRegions(s)[i].end
    ensures GcManagedHeapSpaceP(s, HeapRegions(s)[i].start)
  {
    HeapSpaceByRegions(s, HeapRegions(s)[i].start);
  }

  /** Half-open regions: a region's end is not in the heap unless another
      region or the immobile space holds it. */
  lemma RegionEndIsNotManaged(s: Spaces, i: int)
    requires 0 <= i < |HeapRegions(s)|
    requires forall j :: 0 <= j < |HeapRegions(s)| && j != i ==> !HeapRegions(s)[j].Contains(HeapRegions(s)[i].end)
    requires !InImmobileSpace(s, HeapRegions(s)[i].end)
    ensures !GcManagedHeapSpaceP(s, HeapRegions(s)[i].end)
  {
    HeapSpaceByRegions(s, HeapRegions(s)[i].end);
  }

  /** An address outside every region and the immobile space (for instance
      one strictly between two regions) is not in the heap. */
  lemma OutsideRegionsIsNotManaged(s: Spaces, addr: int)
    requires forall j :: 0 <= j < |HeapRegions(s)| ==> !HeapRegions(s)[j].Contains(addr)
    requires !InImmobileSpace(s, addr)
    ensures !GcManagedHeapSpaceP(s, addr)
  {
    HeapSpaceByRegions(s, addr);
  }

  /** The stack bounds of one thread. */
  datatype ThreadStacks = ThreadStacks(controlStackStart: int, controlStackEnd: int,
                                       bindingStackStart: int)

  /** `th->binding_stack_start + BINDING_STACK_SIZE`: the code adds the size
      to a `lispobj *`, so the byte bound is scaled by the word size. */
  function BindingStackEnd(t: ThreadStacks, bindingStackSize: nat): int
  {
    t.bindingStackStart + bindingStackSize * N_WORD_BYTES
  }

  function ControlStack(t: ThreadStacks): Region
  {
    Region(t.controlStackStart, t.controlStackEnd)
  }

  function BindingStack(t: ThreadStacks, bindingStackSize: nat): Region
  {
    Region(t.bindingStackStart, BindingStackEnd(t, bindingStackSize))
  }

  /** True when `addr` lies on one of the thread's two stacks. */
  predicate OnThreadStacks(t: ThreadStacks, bindingStackSize: nat, addr: int)
  {
    ControlStack(t).Contains(addr) || BindingStack(t, bindingStackSize).Contains(addr)
  }

  /** What `gc_managed_addr_p` answers: the heap, or the stacks of some
      thread of the list. */
  ghost predicate ManagedAddr(s: Spaces, bindingStackSize: nat, threads: seq<ThreadStacks>, addr: int)
  {
    GcManagedHeapSpaceP(s, addr)
    || exists i :: 0 <= i < |threads| && OnThreadStacks(threads[i], bindingStackSize, addr)
  }

  /** `gc_managed_addr_p`: the heap test, then a scan of the thread list that
      returns at the first thread whose stacks hold `addr`. */
  method GcManagedAddrP(s: Spaces, bindingStackSize: nat, threads: seq<ThreadStacks>, addr: int)
    returns (managed: bool)
    ensures managed == ManagedAddr(s, bindingStackSize, threads, addr)
  {
    if GcManagedHeapSpaceP(s, addr) {
      return true;
    }
    var k := 0;
    while k < |threads|
      invariant 0 <= k <= |threads|
      invariant forall j :: 0 <= j < k ==> !OnThreadStacks(threads[j], bindingStackSize, addr)
    {
      var th := threads[k];
      if th.controlStackStart <= addr && addr < th.controlStackEnd {
        return true;
      }
      if th.bindingStackStart <= addr && addr < th.bindingStackStart + bindingStackSize * N_WORD_BYTES {
        return true;
      }
      k := k + 1;
    }
    return false;
  }

  /** The managed-address oracle is a superset of the heap oracle. */
  lemma HeapIsManaged(s: Spaces, bindingStackSize: nat, threads: seq<ThreadStacks>, addr: int)
    requires GcManagedHeapSpaceP(s, addr)
    ensures ManagedAddr(s, bindingStackSize, threads, addr)
  {
  }

  /** An address on a stack of a listed thread is managed, whether or not
      it is in the heap. */
  lemma ThreadStackIsManaged(s: Spaces, bindingStackSize: nat, threads: seq<ThreadStacks>,
                             t: ThreadStacks, addr: int)
    requires t in threads
    requires ControlStack(t).Contains(addr) || BindingStack(t, bindingStackSize).Contains(addr)
    ensures ManagedAddr(s, bindingStackSize, threads, addr)
  {
    var i :| 0 <= i < |threads| && threads[i] == t;
    assert OnThreadStacks(threads[i], bindingStackSize, addr);
  }

  /** Line 271 scales `BINDING_STACK_SIZE` by the word size: every byte
      offset below `8 * BINDING_STACK_SIZE` from a listed thread's binding
      stack start is managed, including the offsets from `BINDING_STACK_SIZE`
      upwards. */
  lemma BindingStackIsWordScaled(s: Spaces, bindingStackSize: nat, threads: seq<ThreadStacks>,
                                 t: ThreadStacks, k: int)
    requires t in threads
    requires 0 <= k < N_WORD_BYTES * bindingStackSize
    ensures ManagedAddr(s, bindingStackSize, threads, t.bindingStackStart + k)
  {
    assert BindingStack(t, bindingStackSize).Contains(t.bindingStackStart + k);
    ThreadStackIsManaged(s, bindingStackSize, threads, t, t.bindingStackStart + k);
  }

  /** An address outside the heap and outside every listed thread's stacks
      is not managed. */
  lemma OutsideIsNotManaged(s: Spaces, bindingStackSize: nat, threads: seq<ThreadStacks>, addr: int)
    requires !GcManagedHeapSpaceP(s, addr)
    requires forall t :: t in threads ==> !OnThreadStacks(t, bindingStackSize, addr)
    ensures !ManagedAddr(s, bindingStackSize, threads, addr)
  {
  }

  /** The answer does not depend on the order of the thread list. */
  lemma ManagedAddrOrderFree(s: Spaces, bindingStackSize: nat,
                             threads: seq<ThreadStacks>, reordered: seq<ThreadStacks>, addr: int)
    requires multiset(threads) == multiset(reordered)
    ensures ManagedAddr(s, bindingStackSize, threads, addr) == ManagedAddr(s, bindingStackSize, reordered, addr)
  {
    OnStacksOfOther(bindingStackSize, threads, reordered, addr);
    OnStacksOfOther(bindingStackSize, reordered, threads, addr);
  }

  lemma OnStacksOfOther(bindingStackSize: nat, xs: seq<ThreadStacks>, ys: seq<ThreadStacks>, addr: int)
    requires multiset(xs) == multiset(ys)
    ensures (exists i :: 0 <= i < |xs| && OnThreadStacks(xs[i], bindingStackSize, addr)) ==>
            (exists j :: 0 <= j < |ys| && OnThreadStacks(ys[j], bindingStackSize, addr))
  {
    if i :| 0 <= i < |xs| && OnThreadStacks(xs[i], bindingStackSize, addr) {
      assert xs[i] in multiset(xs);
      assert xs[i] in ys;
      var j :| 0 <= j < |ys| && ys[j] == xs[i];
      assert OnThreadStacks(ys[j], bindingStackSize, addr);
    }
  }
}
