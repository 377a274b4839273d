/**
 Physical frames, handed out from the boot loader's memory map, and the mapping of the heap's
 pages onto them. Page tables are made of frames from the same source.
 */
module Memory {
  import opened Rust

  const PAGE_SIZE: nat := 4096

  datatype EntryType = Usable | NotUsable

  datatype Region = Region(base: u64, length: u64, entryType: EntryType)

  const PHYSICAL_LIMIT: nat := 0x10_0000_0000_0000

  /** Physical addresses have 52 bits, so no region reaches beyond them. */
  predicate Physical(memoryMap: seq<Region>) {
    forall i :: 0 <= i < |memoryMap| ==> memoryMap[i].base + memoryMap[i].length <= PHYSICAL_LIMIT
  }

  function Steps(length: nat): nat {
    (length + PAGE_SIZE - 1) / PAGE_SIZE
  }

  /** `PhysFrame::containing_address`: a frame is known by its first address. */
  function FrameOf(address: nat): (frame: nat)
    ensures frame % PAGE_SIZE == 0 && frame <= address < frame + PAGE_SIZE
  {
    address / PAGE_SIZE * PAGE_SIZE
  }

  /** The k-th address that stepping through a region visits. */
  function Address(r: Region, k: nat): nat {
    r.base + PAGE_SIZE * k
  }

  /** The frames at every 4096th address of a region. */
  function RegionFrames(r: Region): (frames: seq<nat>)
    ensures |frames| == if r.entryType == Usable then Steps(r.length) else 0
  {
    if r.entryType == Usable then seq(Steps(r.length), i requires i >= 0 => FrameOf(Address(r, i))) else []
  }

  /** The frames of the whole memory map, in its order. */
  function UsableFrames(memoryMap: seq<Region>): seq<nat> {
    if memoryMap == [] then [] else RegionFrames(memoryMap[0]) + UsableFrames(memoryMap[1..])
  }

  function Nth(frames: seq<nat>, n: nat): Option<nat> {
    if n < |frames| then Some(frames[n]) else None
  }

  /** `usable_frames().nth(n)`. The iterator is lazy, but it makes a frame of every address it
      passes, and that panics on an address beyond 52 bits; so does the end of a region it
      reaches, if it overflows 64 bits. */
  function NthFrame(memoryMap: seq<Region>, n: nat): Outcome<Option<nat>> {
    if memoryMap == [] then Returns(None)
    else
      var r := memoryMap[0];
      if r.entryType != Usable then NthFrame(memoryMap[1..], n)
      else if r.base + r.length >= TWO_POW_64 then Panics
      else if n < Steps(r.length) then
        if Address(r, n) >= PHYSICAL_LIMIT then Panics else Returns(Some(FrameOf(Address(r, n))))
      else if r.length > 0 && Address(r, Steps(r.length) - 1) >= PHYSICAL_LIMIT then Panics
      else NthFrame(memoryMap[1..], n - Steps(r.length))
  }

  class PhysicalManager {
    const memoryMap: seq<Region>
    var next: nat

    constructor (memoryMap: seq<Region>)
      ensures this.memoryMap == memoryMap && next == 0
    {
      this.memoryMap := memoryMap;
      this.next := 0;
    }

    ghost function Frames(): seq<nat> {
      UsableFrames(memoryMap)
    }

    method AllocateFrame() returns (frame: Outcome<Option<nat>>)
      modifies this
      ensures frame == NthFrame(memoryMap, old(next))
      ensures frame.Returns? ==> frame.value == Nth(Frames(), old(next))
      ensures next == if frame.Returns? then old(next) + 1 else old(next)
    {
      frame := NthFrame(memoryMap, next);
      if !frame.Returns? {
        return;
      }
      NthFrameAgrees(memoryMap, next);
      next := next + 1;
    }
  }

  lemma NthOfSum(a: seq<nat>, b: seq<nat>, n: nat)
    ensures Nth(a + b, n) == if n < |a| then Some(a[n]) else Nth(b, n - |a|)
  {
  }

  /** Unless it panics, the lazy iterator yields the frame of that number. */
  lemma {:induction false} NthFrameAgrees(memoryMap: seq<Region>, n: nat)
    ensures NthFrame(memoryMap, n).Returns? ==> NthFrame(memoryMap, n).value == Nth(UsableFrames(memoryMap), n)
    ensures !NthFrame(memoryMap, n).Strays?
  {
    if memoryMap == [] {
    } else {
      hide FrameOf, Steps, Address, Nth;
      var r, rest := memoryMap[0], memoryMap[1..];
      NthOfSum(RegionFrames(r), UsableFrames(rest), n);
      if r.entryType != Usable {
        NthFrameAgrees(rest, n);
      } else if n >= Steps(r.length) {
        NthFrameAgrees(rest, n - Steps(r.length));
      }
    }
  }

  // --------------------------------------------------------------------- paging

  /** What a frame was taken for. */
  datatype Use = ForPage(page: nat) | ForTable

  function TableUses(n: nat): seq<Use> {
    if n == 0 then [] else TableUses(n - 1) + [ForTable]
  }

  class VirtualManager {
    var mapping: map<nat, nat>

    /** Takes over the live table, with the mappings that the boot loader left in it. */
    constructor (mapping: map<nat, nat>)
      ensures this.mapping == mapping
    {
      this.mapping := mapping;
    }

    /** The library's `map_to`: it takes up to three frames for page tables that are missing,
        and then adds the mapping, unless the page is mapped already or it refuses for a
        reason of its own. How many tables are missing, and whether it refuses, is left open. */
    method MapTo(page: nat, frame: nat, manager: PhysicalManager) returns (ok: bool, ghost tables: nat)
      modifies this, manager
      ensures tables <= 3
      ensures ok ==> page !in old(mapping) && mapping == old(mapping)[page := frame]
      ensures ok ==> manager.next == old(manager.next) + tables
      ensures ok && tables > 0 ==> manager.next <= |manager.Frames()|
      ensures !ok ==> mapping == old(mapping)
    {
      var missing: nat :| missing <= 3;
      tables := missing;
      var i := 0;
      while i < missing
        invariant 0 <= i <= missing
        invariant manager.next == old(manager.next) + i
        invariant i > 0 ==> manager.next <= |manager.Frames()|
        invariant mapping == old(mapping)
      {
        var table := manager.AllocateFrame();
        if !table.Returns? || table.value.None? {
          return false, missing;
        }
        i := i + 1;
      }
      var refused: bool := *;
      if page in mapping || refused {
        return false, missing;
      }
      mapping := mapping[page := frame];
      ok := true;
    }

    /** `allocate_pages`, with a ghost ledger of what each frame it took was for. */
    method AllocatePages(first: nat, last: nat, manager: PhysicalManager) returns (r: Outcome<()>, ghost uses: seq<Use>)
      modifies this, manager
      ensures r.Returns? ==>
                && manager.next == old(manager.next) + |uses|
                && (if first <= last
                    then Mapped(manager.memoryMap, old(manager.next), uses, mapping, first, last + 1)
                    else uses == [])
                && SameOutside(old(mapping), mapping, first, last)
                && (forall p :: first <= p <= last ==> p in mapping && p !in old(mapping))
      ensures !r.Returns? ==> r == Panics
    {
      hide Ledger, Accounts, UsableFrames, TableUses;
      uses := [];
      LedgerStarts(first, manager.Frames(), manager.next, mapping);
      var page := first;
      ghost var start := manager.next;
      while page <= last
        invariant first <= page <= if last < first then first else last + 1
        invariant manager.next == start + |uses| && (page > first ==> manager.next <= |manager.Frames()|)
        invariant Ledger(uses, first, page) && (page == first ==> uses == [])
        invariant Accounts(manager.Frames(), start, uses, mapping)
        invariant forall p :: p in mapping && !(first <= p < page) ==> p in old(mapping) && mapping[p] == old(mapping)[p]
        invariant forall p :: p in old(mapping) ==> p in mapping && mapping[p] == old(mapping)[p]
        invariant forall p :: first <= p < page ==> p in mapping && p !in old(mapping)
      {
        var taken := manager.AllocateFrame();
        if !taken.Returns? || taken.value.None? {
          return Panics, uses;
        }
        var frame := taken.value;
        ghost var before, mapped := uses, mapping;
        var ok, tables := MapTo(page, frame.value, manager);
        if !ok {
          return Panics, uses;
        }
        uses := before + [ForPage(page)] + TableUses(tables);
        TablesOnly(tables);
        LedgerGrows(before, first, page, tables);
        AccountsGrow(manager.Frames(), start, before, page, tables, mapped);
        page := page + 1;
      }
      r := Returns(());
    }
  }

  function PageNumbers(first: nat, end: nat): seq<nat>
    requires first <= end
  {
    seq(end - first, i requires i >= 0 => first + i)
  }

  /** A ledger serves the pages first, first + 1, ..., end - 1, in that order, each with its
      frame followed by the frames of up to three new tables. */
  predicate Ledger(uses: seq<Use>, first: nat, end: nat) {
    && first <= end
    && PagesOf(uses) == PageNumbers(first, end)
    && |uses| <= 4 * (end - first)
  }

  function PagesOf(uses: seq<Use>): seq<nat> {
    if uses == [] then []
    else PagesOf(uses[..|uses| - 1]) + match uses[|uses| - 1] case ForPage(p) => [p] case ForTable => []
  }

  /** Each page in the ledger is mapped to the frame taken for it. */
  predicate Accounts(frames: seq<nat>, start: nat, uses: seq<Use>, mapping: map<nat, nat>) {
    forall i :: 0 <= i < |uses| && uses[i].ForPage? ==>
      start + i < |frames| && uses[i].page in mapping && mapping[uses[i].page] == frames[start + i]
  }

  predicate SameOutside(before: map<nat, nat>, after: map<nat, nat>, first: nat, last: nat) {
    && (forall p :: p in after && !(first <= p <= last) ==> p in before && after[p] == before[p])
    && (forall p :: p in before ==> p in after && after[p] == before[p])
  }

  /** What `allocate_pages` leaves behind when it succeeds. */
  predicate Mapped(memoryMap: seq<Region>, start: nat, uses: seq<Use>, mapping: map<nat, nat>, first: nat, end: nat) {
    && Ledger(uses, first, end)
    && Accounts(UsableFrames(memoryMap), start, uses, mapping)
    && start + |uses| <= |UsableFrames(memoryMap)|
  }

  lemma LedgerStarts(first: nat, frames: seq<nat>, start: nat, mapping: map<nat, nat>)
    ensures Ledger([], first, first) && Accounts(frames, start, [], mapping)
  {
  }

  lemma {:induction false} TablesOnly(n: nat)
    ensures |TableUses(n)| == n && forall i :: 0 <= i < n ==> TableUses(n)[i] == ForTable
  {
    if n == 0 {
    } else {
      TablesOnly(n - 1);
    }
  }

  lemma PagesOfOneMore(uses: seq<Use>, use: Use)
    ensures PagesOf(uses + [use]) == PagesOf(uses) + if use.ForPage? then [use.page] else []
  {
    assert (uses + [use])[..|uses|] == uses;
  }

  lemma {:induction false} PagesOfTables(uses: seq<Use>, n: nat)
    ensures PagesOf(uses + TableUses(n)) == PagesOf(uses)
  {
    hide PagesOf;
    if n == 0 {
      assert uses + TableUses(0) == uses;
    } else {
      PagesOfTables(uses, n - 1);
      PagesOfOneMore(uses + TableUses(n - 1), ForTable);
      assert uses + TableUses(n) == uses + TableUses(n - 1) + [ForTable];
    }
  }

  lemma LedgerGrows(uses: seq<Use>, first: nat, page: nat, tables: nat)
    requires Ledger(uses, first, page) && tables <= 3
    ensures Ledger(uses + [ForPage(page)] + TableUses(tables), first, page + 1)
  {
    hide PagesOf, TableUses;
    TablesOnly(tables);
    PagesOfTables(uses + [ForPage(page)], tables);
    PagesOfOneMore(uses, ForPage(page));
    assert PageNumbers(first, page + 1) == PageNumbers(first, page) + [page];
  }

  lemma AccountsGrow(frames: seq<nat>, start: nat, uses: seq<Use>, page: nat, tables: nat, mapping: map<nat, nat>)
    requires Accounts(frames, start, uses, mapping)
    requires start + |uses| < |frames| && page !in mapping
    ensures Accounts(frames, start, uses + [ForPage(page)] + TableUses(tables), mapping[page := frames[start + |uses|]])
  {
    hide TableUses;
    TablesOnly(tables);
  }

  // ------------------------------------------------------------ heap initialization

  const HEAP_START: nat := 0x4444_4444_0000
  const HEAP_SIZE: nat := 4 * 1024 * 1024

  /** The number of the heap's first page. */
  const HEAP_PAGE: nat := 0x4_4444_4440

  /** The page range of `memory::initialize`: the heap's 1024 pages. */
  method InitializeHeap(table: VirtualManager, manager: PhysicalManager) returns (r: Outcome<()>, ghost uses: seq<Use>)
    modifies table, manager
    ensures !r.Returns? ==> r == Panics
    ensures r.Returns? ==>
              && manager.next == old(manager.next) + |uses|
              && SameOutside(old(table.mapping), table.mapping, HEAP_PAGE, HEAP_PAGE + 1023)
              && (forall p :: HEAP_PAGE <= p <= HEAP_PAGE + 1023 ==>
                    p in table.mapping && p !in old(table.mapping))
              && Mapped(manager.memoryMap, old(manager.next), uses, table.mapping,
                        HEAP_PAGE, HEAP_PAGE + 1024)
  {
    var heapEnd := HEAP_START + HEAP_SIZE - 1;
    r, uses := table.AllocatePages(HEAP_START / PAGE_SIZE, heapEnd / PAGE_SIZE, manager);
  }
}
