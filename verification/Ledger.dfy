/** Who owns which page, over whole runs of the physical memory manager.

    A step of a run is what a call of Pmm.AllocPage, Pmm.PlacePool or Pmm.FreePage does to the page
    map, together with what the caller then owns; `Serve` shows that every call is such a step. */
module Ledgers {
  import opened Sections
  import opened MemoryMaps
  import opened Pmms

  /** `owned` holds one set of pages for each allocation made, and `reserved` the bookkeeping pages. */
  datatype Ledger = Ledger(view: PageMap, owned: seq<set<nat>>, reserved: set<nat>)

  datatype Step =
    | Page(page: nat)                          // pmm_alloc_page returned it
    | Pool(base: nat, count: nat)              // pmm_alloc_pool returned it
    | Free(owner: nat, page: nat)              // pmm_free_page on a page of an allocation
    | Nothing                                  // a call that found nothing to give

  function Span(base: nat, count: nat): (pages: set<nat>)
    ensures forall p :: p in pages <==> base <= p < base + count
  {
    if count == 0 then {} else Span(base, count - 1) + {base + count - 1}
  }

  ghost predicate Allowed(s: Ledger, step: Step, s': Ledger) {
    && s'.reserved == s.reserved
    && match step
       case Page(page) =>
         && PageTaken(s.view, page, s'.view)
         && s'.owned == s.owned + [{page}]
       case Pool(base, count) =>
         && count >= 1
         && PoolTaken(s.view, base, count, s'.view)
         && s'.owned == s.owned + [Span(base, count)]
       case Free(owner, page) =>
         && owner < |s.owned| && page in s.owned[owner]
         && PageFreed(s.view, page, s'.view)
         && s'.owned == s.owned[owner := s.owned[owner] - {page}]
       case Nothing =>
         s'.view == s.view && s'.owned == s.owned
  }

  predicate Owns(s: Ledger, i: nat, p: nat) {
    i < |s.owned| && p in s.owned[i]
  }

  predicate InUse(s: Ledger, p: nat) {
    p < |s.view| && s.view[p] == USED
  }

  predicate IsFree(s: Ledger, p: nat) {
    p < |s.view| && s.view[p] == FREE
  }

  /** No two allocations share a page, every owned page is USED, and no bookkeeping page is owned or can be
      handed out. */
  ghost predicate Safe(s: Ledger) {
    && (forall i: nat, p: nat :: Owns(s, i, p) ==> InUse(s, p) && p !in s.reserved)
    && (forall p: nat :: p in s.reserved ==> !IsFree(s, p))
    && forall i: nat, j: nat, p: nat :: i < j && Owns(s, i, p) ==> !Owns(s, j, p)
  }

  ghost predicate Run(states: seq<Ledger>, steps: seq<Step>) {
    && |states| == |steps| + 1
    && forall i :: 0 <= i < |steps| ==> Allowed(states[i], steps[i], states[i + 1])
  }

  /** Handing out pages that were FREE, which leaves every USED page as it was. */
  lemma TakeSafe(s: Ledger, pages: set<nat>, s': Ledger)
    requires Safe(s) && s'.reserved == s.reserved && s'.owned == s.owned + [pages] && |s'.view| == |s.view|
    requires forall p :: p in pages ==> p < |s.view| && s.view[p] == FREE && s'.view[p] == USED
    requires forall p :: 0 <= p < |s.view| && p !in pages ==> s'.view[p] == s.view[p]
    ensures Safe(s')
  {
    forall i: nat, p: nat
      ensures Owns(s', i, p) <==> Owns(s, i, p) || (i == |s.owned| && p in pages)
    {
    }
    forall p: nat
      ensures InUse(s, p) ==> InUse(s', p)
      ensures IsFree(s', p) ==> IsFree(s, p)
      ensures p in pages ==> InUse(s', p) && !InUse(s, p) && IsFree(s, p)
    {
    }
    hide Owns, InUse, IsFree;
  }

  lemma GiveBackSafe(s: Ledger, owner: nat, page: nat, s': Ledger)
    requires Safe(s) && s'.reserved == s.reserved && owner < |s.owned| && page in s.owned[owner]
    requires PageFreed(s.view, page, s'.view) && s'.owned == s.owned[owner := s.owned[owner] - {page}]
    ensures Safe(s')
  {
    assert Owns(s, owner, page);
    forall i: nat, p: nat
      ensures Owns(s', i, p) <==> Owns(s, i, p) && !(i == owner && p == page)
    {
    }
    forall p: nat
      ensures InUse(s, p) && p != page ==> InUse(s', p)
      ensures IsFree(s', p) && p != page ==> IsFree(s, p)
    {
    }
    hide Owns, InUse, IsFree;
  }

  lemma StepSafe(s: Ledger, step: Step, s': Ledger)
    requires Safe(s) && Allowed(s, step, s')
    ensures Safe(s')
  {
    hide Safe, Span;
    match step
    case Page(page) =>
      TakeSafe(s, {page}, s');
    case Pool(base, count) =>
      SpanPages(base, count);
      TakeSafe(s, Span(base, count), s');
    case Free(owner, page) =>
      GiveBackSafe(s, owner, page, s');
    case Nothing =>
      NothingSafe(s, s');
  }

  lemma SpanPages(base: nat, count: nat)
    ensures forall p :: p in Span(base, count) <==> base <= p < base + count
  {
  }

  lemma NothingSafe(s: Ledger, s': Ledger)
    requires Safe(s) && s' == s
    ensures Safe(s')
  {
  }

  /** Safety over every run. */
  lemma {:induction false} RunSafe(states: seq<Ledger>, steps: seq<Step>)
    requires Run(states, steps) && Safe(states[0])
    ensures Safe(states[|steps|])
    decreases |steps|
  {
    if steps != [] {
      var n := |steps| - 1;
      assert Allowed(states[n], steps[n], states[n + 1]);
      RunSafe(states[..n + 1], steps[..n]);
      StepSafe(states[n], steps[n], states[n + 1]);
    }
  }

  /** What an allocation gets is new: none of it was owned before, and all of it was FREE. */
  lemma FreshAllocation(s: Ledger, step: Step, s': Ledger, p: nat)
    requires Safe(s) && Allowed(s, step, s') && (step.Page? || step.Pool?)
    requires Owns(s', |s.owned|, p)
    ensures p < |s.view| && s.view[p] == FREE && p !in s.reserved
    ensures forall i: nat :: !Owns(s, i, p)
  {
    match step
    case Page(page) =>
      assert p in s'.owned[|s.owned|] <==> p == page;
    case Pool(base, count) =>
      assert p in s'.owned[|s.owned|] <==> p in Span(base, count);
    assert !InUse(s, p);
  }

  datatype Request = WantPage | WantPool(count: nat) | GiveBack(owner: nat, page: nat)

  /** The last page of memory is BAD. */
  ghost predicate BadTail(s: Ledger) {
    s.view != [] && s.view[|s.view| - 1] == BAD
  }

  lemma StepKeepsBadTail(s: Ledger, step: Step, s': Ledger)
    requires Safe(s) && BadTail(s) && Allowed(s, step, s')
    ensures BadTail(s')
  {
    if step.Free? {
      assert Owns(s, step.owner, step.page);
    }
  }

  lemma TailInReach(pmm: Pmm, s: Ledger, page: nat)
    requires pmm.Valid() && s.view == pmm.view && BadTail(s) && InUse(s, page)
    ensures !ReadsNull(pmm.runs, page)
  {
    UsedInReach(pmm.runs, pmm.view, page);
  }

  /** Every call of the manager that returns is a step that a run allows.  A page given back can send
      the scan through NULL, exactly as ReadsNull says, but not when the last page of memory is BAD, and
      that stays so. */
  method Serve(pmm: Pmm, request: Request, ghost s: Ledger)
    returns (out: Outcome, address: nat, ghost step: Step, ghost s': Ledger)
    requires pmm.Valid() && s.view == pmm.view && Safe(s)
    requires request.WantPool? ==> request.count >= 1
    requires request.GiveBack? ==> Owns(s, request.owner, request.page)
    modifies pmm, pmm.nodes
    ensures out.Finished? ==> pmm.Valid() && s'.view == pmm.view && Allowed(s, step, s') && Safe(s')
    ensures out.Finished? && address != 0 ==> Owns(s', |s.owned|, address)
    ensures out.NullRead? <==> request.GiveBack? && old(pmm.allowing && ReadsNull(pmm.runs, request.page))
    ensures BadTail(s) ==> !out.NullRead? && (out.Finished? ==> BadTail(s'))
    ensures out.NoNode? ==> !pmm.Spare()
    ensures !out.Astray?
  {
    hide Safe, Settled, Tiles, ReadsNull, Span, BadTail;
    var ok;
    address, step, s' := 0, Nothing, s;
    match request {
      case WantPage =>
        ok, address := pmm.AllocPage();
        out := if ok then Finished else NoNode;
        if ok && address != 0 {
          step, s' := Page(address), Ledger(pmm.view, s.owned + [{address}], s.reserved);
        }
      case WantPool(count) =>
        ok, address := pmm.PlacePool(count);
        out := if ok then Finished else NoNode;
        if ok && address != 0 {
          step, s' := Pool(address, count), Ledger(pmm.view, s.owned + [Span(address, count)], s.reserved);
          SpanPages(address, count);
        }
      case GiveBack(owner, page) =>
        OwnedInUse(s, owner, page);
        if BadTail(s) {
          TailInReach(pmm, s, page);
        }
        out := pmm.FreePage(page);
        step, s' := Free(owner, page), Ledger(pmm.view, s.owned[owner := s.owned[owner] - {page}], s.reserved);
    }
    if out.Finished? {
      StepSafe(s, step, s');
      if BadTail(s) {
        StepKeepsBadTail(s, step, s');
      }
    }
  }

  lemma OwnedInUse(s: Ledger, owner: nat, page: nat)
    requires Safe(s) && Owns(s, owner, page)
    ensures InUse(s, page)
  {
  }

  /** The pages that hold a byte of the list's nodes. */
  function Bookkeeping(data: nat, pages: nat): set<nat> {
    Span(data, NodePages(pages))
  }

  /** After pmm_start nobody owns a page, and runs start safe exactly when the last node does not reach
      into the page behind the locked ones, or that page is not FREE. */
  lemma BootedSafe(map_: MemoryMap, data: nat, view: PageMap)
    requires |map_| > 0
    requires var pages := DataPages(FreePages(map_)); Booted(map_, data, pages, view)
    ensures var pages := DataPages(FreePages(map_));
      Safe(Ledger(view, [], Bookkeeping(data, pages))) <==>
      (Blocks(FreePages(map_)) % 5 == 0 || data + pages >= |view| || view[data + pages] != FREE)
  {
    var pages := DataPages(FreePages(map_));
    var s := Ledger(view, [], Bookkeeping(data, pages));
    NodesFit(FreePages(map_));
    hide DataPages, Blocks, FreePages, Shown;
    SpanPages(data, NodePages(pages));
    assert Blocks(FreePages(map_)) % 5 != 0 ==> data + pages in s.reserved;
    assert IsFree(s, data + pages) <==> data + pages < |view| && view[data + pages] == FREE;
  }

  /** That page is the first one handed out when the host is the first entry of free memory and has
      more pages than are locked. */
  lemma {:induction false} StraddledIsFirst(map_: MemoryMap, h: nat, pages: nat, view: PageMap)
    requires FromBoot(map_) && Sound(map_) && NoneLost(map_) && h < |map_|
    requires map_[h].signal == MapFree && 0 < pages < map_[h].length
    requires forall i :: 0 <= i < h ==> map_[i].signal != MapFree
    requires Booted(map_, map_[h].base, pages, view)
    ensures var page := map_[h].base + pages;
      page < |view| && view[page] == FREE && FREE !in view[..page]
  {
    hide Sound, Shown, NoneLost, FromBoot, Skipped;
    var data := map_[h].base;
    HostIsFree(map_, h, pages + 1);
    HostIsKept(map_, h);
    KeptAreShown(map_);
    forall p: nat | p < |view| && view[p] == FREE
      ensures p >= data + pages
    {
      var i: nat :| Gives(map_, |map_|, i, p);
      assert i >= h;
      if i > h {
        LaterEntries(map_, h, i);
      }
    }
  }

  lemma PageBehind(data: nat)
    ensures DataPages(FreePages(STARTS_BELOW)) == 256 && Blocks(FreePages(STARTS_BELOW)) % 5 != 0
    ensures data + 256 in Bookkeeping(data, 256)
  {
    hide FreePages, Span;
    BelowFree();
    LastNodeStraddles();
    SpanPages(data, 257);
  }

  /** On such a memory map, with 16 megabytes of free memory: page 0x200 holds the end of the last node and
      is the first to be handed out. */
  lemma StraddledPage(view: PageMap)
    requires Booted(STARTS_BELOW, 0x100, 256, view)
    ensures 0x200 in Bookkeeping(0x100, 256) && 0x200 < |view| && view[0x200] == FREE && FREE !in view[..0x200]
    ensures !Safe(Ledger(view, [], Bookkeeping(0x100, 256)))
  {
    hide Sound, Shown, NoneLost, FromBoot, Skipped, DataPages, Blocks, FreePages, Booted, Safe, Bookkeeping, Built;
    BelowStarts();
    StraddledIsFirst(STARTS_BELOW, 2, 256, view);
    PageBehind(0x100);
    BootedSafe(STARTS_BELOW, 0x100, view);
  }

  /** As long as a node is left, the list does not use the last one, and lies within the locked pages. */
  lemma UntilTheLastNode(pmm: Pmm, pages: nat, k: nat)
    requires pmm.Listed() && pmm.nodes.Length == Capacity(pages) && k < |pmm.runs| && pmm.head < pmm.nodes.Length
    ensures (pmm.runs[k].node + 1) * NODE_BYTES <= pages * 0x1000
  {
  }

  /** And the last page is BAD when the last section is read as BAD. */
  lemma {:induction false} BootedTail(map_: MemoryMap, h: nat, pages: nat, view: PageMap)
    requires FromBoot(map_) && Sound(map_) && NoneLost(map_) && Interpret(map_[Current(map_, |map_|)].signal) == BAD
    requires h < |map_| && Hosts(map_[h], pages) && pages > 0 && Booted(map_, map_[h].base, pages, view)
    ensures BadTail(Ledger(view, [], Bookkeeping(map_[h].base, pages)))
  {
    hide Sound, Shown, Tiles, Settled, Built, Coalesce, Current, NoneLost, FromBoot, ShowsKept, ShowsMap;
    MergedShows(map_);
    MergedEnds(map_);
    HostIsFree(map_, h, pages);
    LastKind(Coalesce(Built(map_, |map_|)), Shown(map_));
  }
}
