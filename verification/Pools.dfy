/** pmm_alloc_pool with the malloc of its record: the heap and the section list at once, and what the
    first call does to the heap. */
module Pools {
  import opened Pmms
  import opened Mmus
  import opened HeapPages
  import opened Segments
  import opened Heaps
  import Sections
  import Tables

  const RECORD_BYTES := 24              // sizeof(pmm_pool_t)

  /** A record of pmm_alloc_pool: its base is set only when a place was found. */
  datatype Pool = Placed(base: nat, pages: nat) | Unplaced(pages: nat)

  /** The headers after a page of zeros from `from` on: one that the page ends in keeps its second half. */
  function Zeroed(hs: map<nat, Header>, from: nat): map<nat, Header> {
    map a | a in hs ::
      if from <= a && a + HEADER <= from + PAGE then Header.Header(0, NULL, NULL, false)
      else if from <= a < from + PAGE then hs[a].(length := 0, next := NULL)
      else hs[a]
  }

  /** Field by field: a header at `a` has its length at `a`, the pointers at `a + 8` and `a + 16` and the flag
      at `a + 24`, and loses those that lie in the page. */
  lemma ZeroedFields(hs: map<nat, Header>, from: nat, a: nat)
    requires a in hs && a % 16 == 0 && from % 16 == 0 && a + 16 != from
    ensures var h, z := hs[a], Zeroed(hs, from)[a];
      && z.length == (if from <= a < from + 4096 then 0 else h.length)
      && z.next == (if from <= a + 8 < from + 4096 then 0 else h.next)
      && z.last == (if from <= a + 16 < from + 4096 then 0 else h.last)
      && z.free == (if from <= a + 24 < from + 4096 then false else h.free)
  {
  }

  /** The memset of the first record takes a whole page: it goes past the end of the heap, or the header
      behind the record is lost, and the headers store the segments no more. */
  lemma RecordOverrun(hs: map<nat, Header>, segs: seq<Seg>, start: nat, end: nat, b: nat, n: nat)
    requires Stores(hs, segs) && Shape(segs, start, end) && 0 < start && Live(segs, b, n) && n + HEADER <= PAGE
    ensures end < b + PAGE || !Stores(Zeroed(hs, b), segs)
  {
    var k: nat :| k < |segs| && !segs[k].free && segs[k].Base() == b && segs[k].length == n;
    SegmentEnds(segs, start, end, k);
    if k + 1 < |segs| {
      HeaderAt(hs, segs, k + 1);
      HeaderLost(hs, segs, k, b);
    }
  }

  lemma SegmentEnds(segs: seq<Seg>, start: nat, end: nat, k: nat)
    requires Shape(segs, start, end) && k < |segs|
    ensures segs[k].addr >= start
    ensures segs[k].End() == if k + 1 < |segs| then segs[k + 1].addr else end
  {
    InHeap(segs, start, end, k);
  }

  lemma HeaderLost(hs: map<nat, Header>, segs: seq<Seg>, k: nat, from: nat)
    requires k + 1 < |segs| && segs[k].addr != NULL && segs[k + 1].addr in hs
    requires from <= segs[k + 1].addr && segs[k + 1].addr + HEADER <= from + PAGE
    ensures !Stores(Zeroed(hs, from), segs)
  {
    assert Zeroed(hs, from)[segs[k + 1].addr].last == NULL;
  }

  /** Pages that were FREE and now are USED leave the tables and the pages of the heap as they are. */
  lemma StillBacked(s: Tables.State, s': Tables.State, base: nat, frames: seq<nat>)
    requires s'.mem == s.mem && s'.root == s.root && s'.tables == s.tables && s'.free <= s.free
    requires Tables.Valid(s) && Tables.AllEncodable(s) && Backed(s, base, frames)
    ensures Tables.Valid(s') && Tables.AllEncodable(s') && Backed(s', base, frames)
  {
    assert s' == Without(s, s.free - s'.free);
    WithoutValid(s, s.free - s'.free);
    WithoutBacked(s, base, frames, s.free - s'.free);
  }

  lemma TakenFewer(view: Sections.PageMap, base: nat, count: nat, view': Sections.PageMap)
    requires view' == view || Sections.PoolTaken(view, base, count, view')
    ensures Sections.OnlyTaken(view, view')
  {
  }

  /** The search for a pool, which leaves the tables and the pages of the heap as they are. */
  method Place(mmu: Mmu, count: nat, ghost page: nat, ghost frames: seq<nat>) returns (ok: bool, base: nat)
    requires mmu.Valid() && Backed(mmu.Now(), page, frames) && AllUsed(mmu.pmm.view, frames)
    modifies mmu.pmm, mmu.pmm.nodes
    ensures !ok ==> mmu.Exhausted()
    ensures ok ==> mmu.Valid() && Backed(mmu.Now(), page, frames) && AllUsed(mmu.pmm.view, frames)
    ensures ok && base == 0 ==> mmu.pmm.view == old(mmu.pmm.view)
    ensures ok && base == 0 ==> forall k :: 0 <= k < |old(mmu.pmm.runs)| ==> !Sections.Fits(old(mmu.pmm.runs)[k], count)
    ensures ok && base != 0 ==> Sections.FirstFit(old(mmu.pmm.runs), count, base)
    ensures ok && count > 0 ==>
      forall b: nat :: (base != 0 ==> b < base) ==> !Sections.AllFree(old(mmu.pmm.view), b, count)
    ensures ok && base != 0 ==> Sections.PoolTaken(old(mmu.pmm.view), base, count, mmu.pmm.view)
  {
    hide Tables.Valid, Tables.AllEncodable, Mmu.Frames, Backed, AllUsed, Sections.OnlyTaken, Sections.PoolTaken,
      Pmm.Valid, Sections.Fits, Sections.FirstFit, Sections.AllFree;
    ghost var s, view := mmu.Now(), mmu.pmm.view;
    ok, base := mmu.pmm.PlacePool(count);
    if ok {
      TakenFewer(view, base, count, mmu.pmm.view);
      FewerFree(view, mmu.pmm.view);
      StaysUsed(view, mmu.pmm.view, frames);
      StillBacked(s, mmu.Now(), page, frames);
    }
  }

  lemma FewerFree(view: Sections.PageMap, view': Sections.PageMap)
    requires Sections.OnlyTaken(view, view')
    ensures forall p :: 0 <= p < |view'| && view'[p] == Sections.FREE ==> p < |view| && view[p] == Sections.FREE
  {
  }

  /** pmm_pools, over the heap that its records come from. */
  class PoolList {
    const heap: Heap
    var pools: seq<Pool>

    constructor (heap: Heap)
      ensures this.heap == heap && pools == []
    {
      this.heap, pools := heap, [];
    }

    /** A record from the heap, and then `count` pages from the first FREE section that has so many in the
        list as the malloc has left it; 0 when none has.  The heap stays in order, except that the first
        call zeroes a page at its record: the headers then store the segments no more, or the heap ends
        before that page does.  False when frames or section nodes ran out. */
    method AllocPool(count: nat)
      returns (ok: bool, base: nat, ghost between: seq<Sections.Run>, ghost seen: Sections.PageMap, ghost record: nat)
      requires heap.Valid()
      modifies this`pools, heap, heap.mmu`tables, heap.mmu.words, heap.mmu.pmm, heap.mmu.pmm.nodes
      ensures !ok ==> heap.mmu.Exhausted()
      ensures ok ==> heap.mmu.Valid() && Sections.Tiles(between, seen)
      ensures ok ==> seen == heap.mmu.pmm.view || base != 0
      ensures ok && base == 0 ==> forall k :: 0 <= k < |between| ==> !Sections.Fits(between[k], count)
      ensures ok && base != 0 ==>
        Sections.FirstFit(between, count, base) && Sections.PoolTaken(seen, base, count, heap.mmu.pmm.view)
      ensures ok && count > 0 ==> forall b: nat :: (base != 0 ==> b < base) ==> !Sections.AllFree(seen, b, count)
      ensures ok ==> pools == old(pools) + [if base != 0 then Placed(base, count) else Unplaced(count)]
      ensures ok ==> Allocated(old(heap.Before()), 32, heap.segs, record)
      ensures ok && old(pools) != [] ==> heap.Valid()
      ensures ok && old(pools) == [] ==> exists hs :: Stores(hs, heap.segs) && heap.headers == Zeroed(hs, record)
      ensures ok && old(pools) == [] ==> !Stores(heap.headers, heap.segs) || heap.end < record + PAGE
    {
      hide Coalesced, Stores, Heap.Valid, Heap.Listed, Heap.OnPages, Backed, AllUsed, Allocated, Mmu.Valid,
        Mmu.Exhausted, Sections.Fits, Sections.FirstFit, Sections.AllFree, Sections.PoolTaken, Sections.Tiles,
        Zeroed;
      base := 0;
      var first := pools == [];
      ok, record := TakeRecord(heap, first);
      between, seen := heap.mmu.pmm.runs, heap.mmu.pmm.view;
      if !ok {
        return;
      }
      Pages(heap);
      pools := pools + [Unplaced(count)];
      ok, base := Place(heap.mmu, count, heap.start / PAGE, heap.backing);
      if ok && base != 0 {
        pools := pools[|pools| - 1 := Placed(base, count)];
      }
      Pages(heap);
    }
  }

  /** The malloc of a record, and the memset when it is the first. */
  method TakeRecord(heap: Heap, first: bool) returns (ok: bool, record: nat)
    requires heap.Valid()
    modifies heap, heap.mmu`tables, heap.mmu.words, heap.mmu.pmm, heap.mmu.pmm.nodes
    ensures !ok ==> heap.mmu.Exhausted()
    ensures ok ==> heap.initialized && heap.OnPages() && Allocated(old(heap.Before()), 32, heap.segs, record)
    ensures ok && !first ==> heap.Listed() && Coalesced(heap.segs)
    ensures ok && first ==> exists hs :: Stores(hs, heap.segs) && heap.headers == Zeroed(hs, record)
    ensures ok && first ==> !Stores(heap.headers, heap.segs) || heap.end < record + PAGE
  {
    hide Coalesced, Shape, Stores, Heap.Underlaid, Allocated, Mmu.Exhausted, Zeroed;
    ok, record := heap.Malloc(RECORD_BYTES);
    SmallRecord();
    if ok && first {
      Overrun(heap, old(heap.Before()), record);
      ghost var hs := heap.headers;
      assert Stores(hs, heap.segs);
      heap.headers := Zeroed(heap.headers, record);
    }
  }

  lemma SmallRecord()
    ensures Rounded(RECORD_BYTES) == 32 && PageRounded(32) == PAGE
  {
  }

  lemma Pages(heap: Heap)
    ensures heap.OnPages() <==>
      (heap.start % PAGE == 0 && heap.end == heap.start + |heap.backing| * PAGE
       && heap.mmu.Valid() && Backed(heap.mmu.Now(), heap.start / PAGE, heap.backing)
       && AllUsed(heap.mmu.pmm.view, heap.backing))
    ensures heap.OnPages() ==> Sections.Tiles(heap.mmu.pmm.runs, heap.mmu.pmm.view)
    ensures heap.initialized ==> (heap.Valid() <==> heap.Listed() && Coalesced(heap.segs) && heap.OnPages())
  {
  }

  lemma Overrun(heap: Heap, before: seq<Seg>, address: nat)
    requires heap.Listed() && |before| > 0 && Allocated(before, 32, heap.segs, address)
    ensures heap.end < address + PAGE || !Stores(Zeroed(heap.headers, address), heap.segs)
  {
    hide Shape, Stores, Allocated, Zeroed;
    var n := AllocatedBlock(before, 32, heap.segs, address);
    RecordOverrun(heap.headers, heap.segs, heap.start, heap.end, address, n);
  }
}
