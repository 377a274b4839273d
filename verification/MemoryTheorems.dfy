/**
 What frame allocation and heap mapping guarantee, on a memory map as the boot protocol
 promises it: usable regions are made of whole pages and do not overlap.
 */
module MemoryTheorems {
  import opened Rust
  import opened Sequences
  import opened Arithmetic
  import opened Memory

  predicate Aligned(memoryMap: seq<Region>) {
    forall i :: 0 <= i < |memoryMap| && memoryMap[i].entryType == Usable ==>
      memoryMap[i].base % PAGE_SIZE == 0 && memoryMap[i].length % PAGE_SIZE == 0
  }

  predicate Disjoint(memoryMap: seq<Region>) {
    forall i, j :: 0 <= i < j < |memoryMap| && memoryMap[i].entryType == Usable && memoryMap[j].entryType == Usable ==>
      Apart(memoryMap[i], memoryMap[j])
  }

  predicate Apart(r: Region, s: Region) {
    r.base + r.length <= s.base || s.base + s.length <= r.base
  }

  /** A whole page of usable memory. */
  predicate WholePageOf(r: Region, frame: nat) {
    r.entryType == Usable && frame % PAGE_SIZE == 0 && r.base <= frame && frame + PAGE_SIZE <= r.base + r.length
  }

  // ------------------------------------------------------------------ one region

  lemma AlignedSteps(base: nat, length: nat, i: nat)
    requires base % PAGE_SIZE == 0 && length % PAGE_SIZE == 0
    ensures Steps(length) * PAGE_SIZE == length
    ensures FrameOf(base + PAGE_SIZE * i) == base + PAGE_SIZE * i
    ensures (base + PAGE_SIZE * i) % PAGE_SIZE == 0
  {
    var n := length / PAGE_SIZE;
    DivModUnique(length + PAGE_SIZE - 1, n, PAGE_SIZE - 1, PAGE_SIZE);
    DivModUnique(base + PAGE_SIZE * i, base / PAGE_SIZE + i, 0, PAGE_SIZE);
  }

  lemma RegionFrameAt(r: Region, i: nat)
    requires r.entryType == Usable && r.base % PAGE_SIZE == 0 && r.length % PAGE_SIZE == 0
    requires i < |RegionFrames(r)|
    ensures RegionFrames(r)[i] == r.base + PAGE_SIZE * i
    ensures WholePageOf(r, RegionFrames(r)[i])
  {
    AlignedSteps(r.base, r.length, i);
  }

  lemma RegionFramesIff(r: Region, frame: nat)
    requires r.entryType == Usable ==> r.base % PAGE_SIZE == 0 && r.length % PAGE_SIZE == 0
    ensures frame in RegionFrames(r) <==> WholePageOf(r, frame)
  {
    if r.entryType == Usable {
      if frame in RegionFrames(r) {
        var i :| 0 <= i < |RegionFrames(r)| && RegionFrames(r)[i] == frame;
        RegionFrameAt(r, i);
      }
      if WholePageOf(r, frame) {
        var i := frame / PAGE_SIZE - r.base / PAGE_SIZE;
        AlignedSteps(r.base, r.length, 0);
        assert frame == r.base + PAGE_SIZE * i;
        assert i < Steps(r.length);
        RegionFrameAt(r, i);
      }
    }
  }

  // ---------------------------------------------------------------- the whole map

  lemma MapTail(memoryMap: seq<Region>)
    requires memoryMap != [] && Aligned(memoryMap) && Disjoint(memoryMap)
    ensures Aligned(memoryMap[1..]) && Disjoint(memoryMap[1..])
    ensures memoryMap[0].entryType == Usable ==>
              memoryMap[0].base % PAGE_SIZE == 0 && memoryMap[0].length % PAGE_SIZE == 0
  {
  }

  lemma MemberOfSum<T>(a: seq<T>, b: seq<T>, x: T)
    ensures x in a + b <==> x in a || x in b
  {
  }

  /** The frames handed out are exactly the whole pages of the usable regions. */
  lemma {:induction false} UsableFramesIff(memoryMap: seq<Region>, frame: nat)
    requires Aligned(memoryMap) && Disjoint(memoryMap)
    ensures frame in UsableFrames(memoryMap) <==> exists i :: 0 <= i < |memoryMap| && WholePageOf(memoryMap[i], frame)
  {
    if memoryMap == [] {
    } else {
      hide RegionFrames, WholePageOf;
      var first, rest := memoryMap[0], memoryMap[1..];
      MapTail(memoryMap);
      UsableFramesIff(rest, frame);
      RegionFramesIff(first, frame);
      MemberOfSum(RegionFrames(first), UsableFrames(rest), frame);
      assert memoryMap == [first] + rest;
      if i :| 0 <= i < |rest| && WholePageOf(rest[i], frame) {
        assert WholePageOf(memoryMap[i + 1], frame);
      }
    }
  }

  /** No frame is handed out twice. */
  lemma {:induction false} UsableFramesDistinct(memoryMap: seq<Region>)
    requires Aligned(memoryMap) && Disjoint(memoryMap)
    ensures Distinct(UsableFrames(memoryMap))
  {
    if memoryMap == [] {
    } else {
      var first, rest := memoryMap[0], memoryMap[1..];
      MapTail(memoryMap);
      UsableFramesDistinct(rest);
      var a, b := RegionFrames(first), UsableFrames(rest);
      forall i, j | 0 <= i < j < |a + b|
        ensures (a + b)[i] != (a + b)[j]
      {
        if i < |a| {
          RegionFrameAt(first, i);
          if j < |a| {
            RegionFrameAt(first, j);
          } else {
            assert b[j - |a|] in b;
            UsableFramesIff(rest, b[j - |a|]);
          }
        }
      }
    }
  }

  /** Different frames are different pages of memory: they do not overlap either. */
  lemma FramesApart(memoryMap: seq<Region>, i: nat, j: nat)
    requires Aligned(memoryMap) && Disjoint(memoryMap) && i < j < |UsableFrames(memoryMap)|
    ensures var f, g := UsableFrames(memoryMap)[i], UsableFrames(memoryMap)[j];
            f + PAGE_SIZE <= g || g + PAGE_SIZE <= f
  {
    hide UsableFrames, Aligned, Disjoint;
    var f, g := UsableFrames(memoryMap)[i], UsableFrames(memoryMap)[j];
    UsableFramesDistinct(memoryMap);
    assert f in UsableFrames(memoryMap) && g in UsableFrames(memoryMap);
    UsableFramesIff(memoryMap, f);
    UsableFramesIff(memoryMap, g);
    MultiplesApart(f, g);
  }

  lemma MultiplesApart(f: nat, g: nat)
    requires f % PAGE_SIZE == 0 && g % PAGE_SIZE == 0 && f != g
    ensures f + PAGE_SIZE <= g || g + PAGE_SIZE <= f
  {
  }

  // --------------------------------------------------------- places of the frames

  /** The pages of the usable regions before one in the memory map. */
  function FramesBefore(memoryMap: seq<Region>, i: nat): nat
    requires i <= |memoryMap|
  {
    if i == 0 then 0
    else FramesBefore(memoryMap, i - 1) + if memoryMap[i - 1].entryType == Usable then Steps(memoryMap[i - 1].length) else 0
  }

  lemma {:induction false} FramesBeforeTail(memoryMap: seq<Region>, i: nat)
    requires 0 < i <= |memoryMap|
    ensures FramesBefore(memoryMap, i) == |RegionFrames(memoryMap[0])| + FramesBefore(memoryMap[1..], i - 1)
  {
    hide Steps;
    assert FramesBefore(memoryMap, 0) == 0;
    if i == 1 {
    } else {
      FramesBeforeTail(memoryMap, i - 1);
    }
  }

  lemma {:induction false} FramesCounted(memoryMap: seq<Region>)
    ensures |UsableFrames(memoryMap)| == FramesBefore(memoryMap, |memoryMap|)
  {
    hide Steps;
    if memoryMap == [] {
    } else {
      FramesCounted(memoryMap[1..]);
      FramesBeforeTail(memoryMap, |memoryMap|);
    }
  }

  /** The k-th page of a usable region comes k places after all pages of the usable regions
      before it: memory-map order, with nothing skipped. */
  lemma {:induction false} FramePlace(memoryMap: seq<Region>, i: nat, k: nat)
    requires i < |memoryMap| && memoryMap[i].entryType == Usable && k < Steps(memoryMap[i].length)
    ensures var n := FramesBefore(memoryMap, i) + k;
            && n < |UsableFrames(memoryMap)|
            && UsableFrames(memoryMap)[n] == FrameOf(Address(memoryMap[i], k))
  {
    hide Steps, FrameOf;
    if i == 0 {
      assert FramesBefore(memoryMap, 0) == 0;
    } else {
      FramesBeforeTail(memoryMap, i);
      FramePlace(memoryMap[1..], i - 1, k);
    }
  }

  // ------------------------------------------------------------- runs of allocation

  /** No region that the iterator reaches for its n-th frame ends beyond 64 bits, and no address
      that it passes lies beyond 52. */
  predicate Reachable(memoryMap: seq<Region>, n: nat) {
    forall i :: 0 <= i < |memoryMap| && memoryMap[i].entryType == Usable && FramesBefore(memoryMap, i) <= n ==>
      && memoryMap[i].base + memoryMap[i].length < TWO_POW_64
      && forall k :: 0 <= k < Steps(memoryMap[i].length) && FramesBefore(memoryMap, i) + k <= n ==>
           Address(memoryMap[i], k) < PHYSICAL_LIMIT
  }

  lemma ReachableTail(memoryMap: seq<Region>, n: nat)
    requires memoryMap != []
    ensures var r := memoryMap[0];
            var skipped := if r.entryType == Usable then Steps(r.length) else 0;
            Reachable(memoryMap, n) <==>
              && (r.entryType == Usable ==>
                    && r.base + r.length < TWO_POW_64
                    && forall k :: 0 <= k < skipped && k <= n ==> Address(r, k) < PHYSICAL_LIMIT)
              && (skipped <= n ==> Reachable(memoryMap[1..], n - skipped))
  {
    hide Steps;
    var rest := memoryMap[1..];
    var skipped := |RegionFrames(memoryMap[0])|;
    assert FramesBefore(memoryMap, 0) == 0;
    forall i | 0 <= i < |rest|
      ensures FramesBefore(memoryMap, i + 1) == skipped + FramesBefore(rest, i)
      ensures memoryMap[i + 1] == rest[i]
    {
      FramesBeforeTail(memoryMap, i + 1);
    }
  }

  /** `allocate_frame` panics exactly when the search meets an address or a region's end that
      the machine cannot hold. */
  lemma {:induction false} NthFrameIff(memoryMap: seq<Region>, n: nat)
    ensures NthFrame(memoryMap, n).Returns? <==> Reachable(memoryMap, n)
  {
    hide Steps, FrameOf, Reachable;
    if memoryMap == [] {
      ReachableNothing(n);
    } else {
      var r := memoryMap[0];
      ReachableTail(memoryMap, n);
      StepsIff(r.length, 0);
      var skipped := if r.entryType == Usable then Steps(r.length) else 0;
      if skipped <= n {
        NthFrameIff(memoryMap[1..], n - skipped);
      }
    }
  }

  lemma ReachableNothing(n: nat)
    ensures Reachable([], n)
  {
  }

  /** `step_by`: a region has as many steps as multiples of 4096 lie below its length. */
  lemma StepsIff(length: nat, k: nat)
    ensures k < Steps(length) <==> PAGE_SIZE * k < length
  {
  }

  /** Below 52 bits it never panics. */
  lemma PhysicalReachable(memoryMap: seq<Region>, n: nat)
    requires Physical(memoryMap)
    ensures Reachable(memoryMap, n)
  {
    forall i, k | 0 <= i < |memoryMap| && 0 <= k < Steps(memoryMap[i].length)
      ensures Address(memoryMap[i], k) < PHYSICAL_LIMIT
    {
      StepsIff(memoryMap[i].length, k);
    }
  }

  /** The results of so many calls of `allocate_frame`, one after another, from a given count. */
  function Allocations(memoryMap: seq<Region>, next: nat, calls: nat): (results: seq<Outcome<Option<nat>>>)
    ensures |results| == calls
    decreases calls
  {
    if calls == 0 then []
    else
      var first := NthFrame(memoryMap, next);
      [first] + Allocations(memoryMap, if first.Returns? then next + 1 else next, calls - 1)
  }

  lemma PhysicalAllocates(memoryMap: seq<Region>, n: nat)
    requires Physical(memoryMap)
    ensures NthFrame(memoryMap, n) == Returns(Nth(UsableFrames(memoryMap), n))
  {
    hide Reachable, NthFrame, Nth, UsableFrames;
    PhysicalReachable(memoryMap, n);
    NthFrameIff(memoryMap, n);
    NthFrameAgrees(memoryMap, n);
  }

  lemma {:induction false} AllocationsStep(memoryMap: seq<Region>, next: nat, calls: nat, j: nat)
    requires Physical(memoryMap) && j < calls
    ensures Allocations(memoryMap, next, calls)[j] == Returns(Nth(UsableFrames(memoryMap), next + j))
    decreases calls
  {
    hide Physical, NthFrame, Nth, UsableFrames;
    PhysicalAllocates(memoryMap, next);
    if j == 0 {
    } else {
      AllocationsStep(memoryMap, next + 1, calls - 1, j - 1);
    }
  }

  /** Refinement: over any number of calls from boot, the call after those for all earlier
      usable regions and k pages of this one yields its k-th page... */
  lemma AllocationsInOrder(memoryMap: seq<Region>, calls: nat, i: nat, k: nat)
    requires Physical(memoryMap)
    requires i < |memoryMap| && memoryMap[i].entryType == Usable && k < Steps(memoryMap[i].length)
    requires FramesBefore(memoryMap, i) + k < calls
    ensures Allocations(memoryMap, 0, calls)[FramesBefore(memoryMap, i) + k]
         == Returns(Some(FrameOf(Address(memoryMap[i], k))))
  {
    hide UsableFrames, FrameOf, FramesBefore;
    AllocationsStep(memoryMap, 0, calls, FramesBefore(memoryMap, i) + k);
    FramePlace(memoryMap, i, k);
  }

  /** ... every call before the total is such a call... */
  lemma {:induction false} CallOfPage(memoryMap: seq<Region>, end: nat, n: nat) returns (i: nat, k: nat)
    requires end <= |memoryMap| && n < FramesBefore(memoryMap, end)
    ensures i < end && memoryMap[i].entryType == Usable && k < Steps(memoryMap[i].length)
    ensures n == FramesBefore(memoryMap, i) + k
  {
    if n >= FramesBefore(memoryMap, end - 1) {
      i, k := end - 1, n - FramesBefore(memoryMap, end - 1);
    } else {
      i, k := CallOfPage(memoryMap, end - 1, n);
    }
  }

  /** ... and every call after it yields nothing, for ever. */
  lemma AllocationsEnd(memoryMap: seq<Region>, calls: nat, n: nat)
    requires Physical(memoryMap) && FramesBefore(memoryMap, |memoryMap|) <= n < calls
    ensures Allocations(memoryMap, 0, calls)[n] == Returns(None)
  {
    hide UsableFrames, FramesBefore;
    AllocationsStep(memoryMap, 0, calls, n);
    FramesCounted(memoryMap);
  }

  /** No two calls yield memory that overlaps. */
  lemma AllocationsFresh(memoryMap: seq<Region>, calls: nat, i: nat, j: nat)
    requires Physical(memoryMap) && Aligned(memoryMap) && Disjoint(memoryMap) && i < j < calls
    requires Allocations(memoryMap, 0, calls)[j] != Returns(None)
    ensures var first, second := Allocations(memoryMap, 0, calls)[i], Allocations(memoryMap, 0, calls)[j];
            && first.Returns? && first.value.Some? && second.Returns? && second.value.Some?
            && (first.value.value + PAGE_SIZE <= second.value.value || second.value.value + PAGE_SIZE <= first.value.value)
  {
    hide UsableFrames, Physical, Aligned, Disjoint, Allocations;
    AllocationsStep(memoryMap, 0, calls, i);
    AllocationsStep(memoryMap, 0, calls, j);
    FramesApart(memoryMap, i, j);
  }

  // ------------------------------------------------------------------ heap mapping

  function TablesIn(uses: seq<Use>): nat {
    if uses == [] then 0
    else TablesIn(uses[..|uses| - 1]) + if uses[|uses| - 1].ForTable? then 1 else 0
  }

  lemma {:induction false} UsesCounted(uses: seq<Use>)
    ensures |uses| == |PagesOf(uses)| + TablesIn(uses)
  {
    if uses == [] {
    } else {
      UsesCounted(uses[..|uses| - 1]);
    }
  }

  lemma {:induction false} PageHasUse(uses: seq<Use>, page: nat) returns (i: nat)
    requires page in PagesOf(uses)
    ensures i < |uses| && uses[i] == ForPage(page)
  {
    var last := |uses| - 1;
    if uses[last] == ForPage(page) {
      i := last;
    } else {
      i := PageHasUse(uses[..last], page);
    }
  }

  lemma PageServed(uses: seq<Use>, first: nat, end: nat, page: nat) returns (i: nat)
    requires Ledger(uses, first, end) && first <= page < end
    ensures i < |uses| && uses[i] == ForPage(page)
  {
    assert PageNumbers(first, end)[page - first] == page;
    i := PageHasUse(uses, page);
  }

  lemma MappedPage(memoryMap: seq<Region>, start: nat, uses: seq<Use>, mapping: map<nat, nat>, first: nat, end: nat,
                   p: nat) returns (i: nat)
    requires Mapped(memoryMap, start, uses, mapping, first, end) && first <= p < end
    ensures i < |uses| && uses[i] == ForPage(p)
    ensures p in mapping && mapping[p] == UsableFrames(memoryMap)[start + i]
  {
    i := PageServed(uses, first, end, p);
  }

  /** Every page of the range is mapped to a whole page of usable memory. */
  lemma MappedToMemory(memoryMap: seq<Region>, start: nat, uses: seq<Use>, mapping: map<nat, nat>, first: nat,
                       end: nat, p: nat)
    requires Aligned(memoryMap) && Disjoint(memoryMap)
    requires Mapped(memoryMap, start, uses, mapping, first, end) && first <= p < end
    ensures p in mapping && exists i :: 0 <= i < |memoryMap| && WholePageOf(memoryMap[i], mapping[p])
  {
    hide WholePageOf, UsableFrames, Aligned, Disjoint;
    var i := MappedPage(memoryMap, start, uses, mapping, first, end, p);
    assert UsableFrames(memoryMap)[start + i] in UsableFrames(memoryMap);
    UsableFramesIff(memoryMap, mapping[p]);
  }

  /** Different pages have memory of their own. */
  lemma MappedApart(memoryMap: seq<Region>, start: nat, uses: seq<Use>, mapping: map<nat, nat>, first: nat, end: nat,
                    p: nat, q: nat)
    requires Aligned(memoryMap) && Disjoint(memoryMap)
    requires Mapped(memoryMap, start, uses, mapping, first, end) && first <= p < q < end
    ensures p in mapping && q in mapping
    ensures mapping[p] + PAGE_SIZE <= mapping[q] || mapping[q] + PAGE_SIZE <= mapping[p]
  {
    hide UsableFrames, Aligned, Disjoint;
    var i := MappedPage(memoryMap, start, uses, mapping, first, end, p);
    var j := MappedPage(memoryMap, start, uses, mapping, first, end, q);
    hide Mapped;
    if i < j {
      FramesApart(memoryMap, start + i, start + j);
    } else {
      FramesApart(memoryMap, start + j, start + i);
    }
  }

  /** No page has memory that was taken for a page table. */
  lemma MappedNotTable(memoryMap: seq<Region>, start: nat, uses: seq<Use>, mapping: map<nat, nat>, first: nat,
                       end: nat, p: nat, k: nat)
    requires Aligned(memoryMap) && Disjoint(memoryMap)
    requires Mapped(memoryMap, start, uses, mapping, first, end) && first <= p < end
    requires k < |uses| && uses[k] == ForTable
    ensures p in mapping
    ensures var table := UsableFrames(memoryMap)[start + k];
            mapping[p] + PAGE_SIZE <= table || table + PAGE_SIZE <= mapping[p]
  {
    hide UsableFrames, Aligned, Disjoint;
    var i := MappedPage(memoryMap, start, uses, mapping, first, end, p);
    if i < k {
      FramesApart(memoryMap, start + i, start + k);
    } else {
      FramesApart(memoryMap, start + k, start + i);
    }
  }

  /** The frames taken are as many as pages and tables, and at most three of them per page are
      tables. */
  lemma FramesTaken(uses: seq<Use>, first: nat, end: nat)
    requires Ledger(uses, first, end)
    ensures |uses| == (end - first) + TablesIn(uses) && TablesIn(uses) <= 3 * (end - first)
  {
    UsesCounted(uses);
  }
}
