/** The kernel heap of allocator.c: segment headers edited in place, on pages that the heap maps as it
    grows. */
module Heaps {
  import opened Segments
  import opened Mmus
  import opened HeapPages
  import Sections
  import Tables
  import KernelMaps

  const NULL := 0

  datatype Header = Header(length: nat, next: nat, last: nat, free: bool)

  const HEAP_BASE := HEAP_PAGE * PAGE
  const HEAP_PAGES := 256

  // ---------------------------------------------------------------------------------------------
  // Headers that store a list of segments.

  ghost predicate Contents(hs: map<nat, Header>, segs: seq<Seg>) {
    forall k :: 0 <= k < |segs| ==>
      segs[k].addr in hs && hs[segs[k].addr].length == segs[k].length && hs[segs[k].addr].free == segs[k].free
  }

  /** `next` and `last` are mutual inverses along the list and end in NULL. */
  ghost predicate Links(hs: map<nat, Header>, segs: seq<Seg>)
    requires Contents(hs, segs)
  {
    && |segs| > 0
    && hs[segs[0].addr].last == NULL
    && hs[segs[|segs| - 1].addr].next == NULL
    && forall j, k :: 0 <= j < |segs| && 0 <= k < |segs| && k == j + 1 ==>
      hs[segs[j].addr].next == segs[k].addr && hs[segs[k].addr].last == segs[j].addr
  }

  ghost predicate Distinct(segs: seq<Seg>) {
    forall j, k :: 0 <= j < k < |segs| ==> segs[j].addr != segs[k].addr
  }

  ghost predicate Stores(hs: map<nat, Header>, segs: seq<Seg>) {
    Contents(hs, segs) && Links(hs, segs)
  }

  lemma ShapeDistinct(segs: seq<Seg>, start: nat, end: nat)
    requires Chain(segs, start, end)
    ensures Distinct(segs)
  {
    forall j, k | 0 <= j < k < |segs|
      ensures segs[j].addr != segs[k].addr
    {
      Ordered(segs, start, end, j, k);
    }
  }

  /** The header of segment `k`. */
  lemma HeaderAt(hs: map<nat, Header>, segs: seq<Seg>, k: nat)
    requires Stores(hs, segs) && k < |segs|
    ensures segs[k].addr in hs
    ensures hs[segs[k].addr] == Header(segs[k].length, if k + 1 < |segs| then segs[k + 1].addr else NULL,
                                       if 0 < k then segs[k - 1].addr else NULL, segs[k].free)
  {
    if k + 1 < |segs| {
      assert hs[segs[k].addr].next == segs[k + 1].addr;
    }
    if 0 < k {
      assert hs[segs[k].addr].last == segs[k - 1].addr;
    }
  }

  /** The writes of header_split, with `n` the new header's address. */
  ghost function SplitHeaders(hs: map<nat, Header>, segs: seq<Seg>, k: nat, size: nat): map<nat, Header>
    requires Stores(hs, segs) && k < |segs| && Splits(segs[k], size)
  {
    var s := segs[k];
    var h, n := hs[s.addr], s.Base() + size;
    var linked := if k + 1 < |segs| then hs[segs[k + 1].addr := hs[segs[k + 1].addr].(last := n)] else hs;
    linked[n := Header(s.length - size - HEADER, h.next, s.addr, s.free)][s.addr := h.(next := n, length := size)]
  }

  lemma CutDistinct(segs: seq<Seg>, start: nat, end: nat, k: nat, size: nat)
    requires Chain(segs, start, end) && k < |segs| && Splits(segs[k], size)
    ensures Distinct(segs) && forall i :: 0 <= i < |segs| ==> segs[i].addr != segs[k].Base() + size
  {
    var s := Cut(segs, k, size);
    CutChain(segs, start, end, k, size);
    ShapeDistinct(s, start, end);
    ShapeDistinct(segs, start, end);
    forall i | 0 <= i < |segs|
      ensures segs[i].addr != segs[k].Base() + size
    {
      assert s[k + 1].addr == segs[k].Base() + size;
      assert s[if i <= k then i else i + 1].addr == segs[i].addr;
    }
  }

  lemma SplitContents(hs: map<nat, Header>, segs: seq<Seg>, k: nat, size: nat)
    requires Stores(hs, segs) && Distinct(segs) && k < |segs| && Splits(segs[k], size)
    requires forall i :: 0 <= i < |segs| ==> segs[i].addr != segs[k].Base() + size
    ensures Contents(SplitHeaders(hs, segs, k, size), Cut(segs, k, size))
  {
    var s := Cut(segs, k, size);
    assert forall i :: 0 <= i < |s| && i != k && i != k + 1 ==> s[i] == segs[if i < k then i else i - 1];
  }

  lemma SplitStores(hs: map<nat, Header>, segs: seq<Seg>, k: nat, size: nat)
    requires Stores(hs, segs) && Distinct(segs) && k < |segs| && Splits(segs[k], size)
    requires forall i :: 0 <= i < |segs| ==> segs[i].addr != segs[k].Base() + size
    ensures Stores(SplitHeaders(hs, segs, k, size), Cut(segs, k, size))
  {
    var s, hs' := Cut(segs, k, size), SplitHeaders(hs, segs, k, size);
    SplitContents(hs, segs, k, size);
    assert s[0].addr == segs[0].addr;
    forall i, j | 0 <= i < |s| && 0 <= j < |s| && j == i + 1
      ensures hs'[s[i].addr].next == s[j].addr && hs'[s[j].addr].last == s[i].addr
    {
      var i', j' := if i <= k then i else i - 1, if j <= k then j else j - 1;
      assert i != k + 1 ==> s[i].addr == segs[i'].addr;
      assert j != k + 1 ==> s[j].addr == segs[j'].addr;
      if i != k {
        assert hs[segs[i'].addr].next == segs[j'].addr;
      }
    }
  }

  lemma CutReady(hs: map<nat, Header>, segs: seq<Seg>, start: nat, end: nat, k: nat, size: nat)
    requires Stores(hs, segs) && Shape(segs, start, end) && k < |segs| && Splits(segs[k], size) && size % 16 == 0
    ensures Shape(Cut(segs, k, size), start, end) && Stores(SplitHeaders(hs, segs, k, size), Cut(segs, k, size))
    ensures segs[k].addr != segs[k].Base() + size
    ensures k + 1 < |segs| ==> segs[k + 1].addr != segs[k].addr && segs[k + 1].addr != segs[k].Base() + size
    ensures segs[|segs| - 1].addr == segs[k].addr <==> k + 1 == |segs|
    ensures |Cut(segs, k, size)| == |segs| + 1
    ensures Cut(segs, k, size)[|segs|].addr == if k + 1 == |segs| then segs[k].Base() + size else segs[|segs| - 1].addr
  {
    hide Stores, Aligned;
    CutDistinct(segs, start, end, k, size);
    CutShape(segs, start, end, k, size);
    SplitStores(hs, segs, k, size);
  }

  /** The writes of header_combine_forward. */
  ghost function JoinHeaders(hs: map<nat, Header>, segs: seq<Seg>, k: nat): map<nat, Header>
    requires Stores(hs, segs) && k + 1 < |segs|
  {
    var s, t := segs[k], segs[k + 1];
    var linked := if k + 2 < |segs| then hs[segs[k + 2].addr := hs[segs[k + 2].addr].(last := s.addr)] else hs;
    linked[s.addr := hs[s.addr].(length := s.length + HEADER + t.length, next := hs[t.addr].next)]
  }

  lemma JoinContents(hs: map<nat, Header>, segs: seq<Seg>, k: nat)
    requires Stores(hs, segs) && Distinct(segs) && k + 1 < |segs|
    ensures Contents(JoinHeaders(hs, segs, k), Join(segs, k))
  {
    var s := Join(segs, k);
    assert forall i :: 0 <= i < |s| && i != k ==> s[i] == segs[if i < k then i else i + 1];
  }

  lemma JoinStores(hs: map<nat, Header>, segs: seq<Seg>, k: nat)
    requires Stores(hs, segs) && Distinct(segs) && k + 1 < |segs|
    ensures Stores(JoinHeaders(hs, segs, k), Join(segs, k))
  {
    var s, hs' := Join(segs, k), JoinHeaders(hs, segs, k);
    JoinContents(hs, segs, k);
    assert s[0].addr == segs[0].addr;
    forall i, j | 0 <= i < |s| && 0 <= j < |s| && j == i + 1
      ensures hs'[s[i].addr].next == s[j].addr && hs'[s[j].addr].last == s[i].addr
    {
      var i', j' := if i <= k then i else i + 1, if j <= k then j else j + 1;
      assert s[i].addr == segs[i'].addr && s[j].addr == segs[j'].addr;
      assert hs[segs[if i == k then k + 1 else i'].addr].next == segs[j'].addr;
    }
  }

  lemma MarkStores(hs: map<nat, Header>, segs: seq<Seg>, k: nat, free: bool)
    requires Stores(hs, segs) && Distinct(segs) && k < |segs|
    ensures segs[k].addr in hs
    ensures Stores(hs[segs[k].addr := hs[segs[k].addr].(free := free)], Mark(segs, k, free))
  {
  }

  lemma DistinctAt(segs: seq<Seg>, k: nat)
    requires Distinct(segs) && k + 1 < |segs|
    ensures segs[k + 1].addr == segs[|segs| - 1].addr <==> k + 2 == |segs|
    ensures segs[k].addr != segs[|segs| - 1].addr && segs[k].addr != segs[k + 1].addr
    ensures k + 2 < |segs| ==> segs[k + 2].addr != segs[k].addr && segs[k + 2].addr != segs[k + 1].addr
  {
  }

  // ---------------------------------------------------------------------------------------------
  // The heap.

  class Heap {
    const mmu: Mmu
    var headers: map<nat, Header>     // the headers in memory, by address
    var start: nat                    // heap_start
    var end: nat                      // heap_end
    var lastHeader: nat               // last_header
    var initialized: bool             // heap_initialized
    ghost var segs: seq<Seg>
    ghost var backing: seq<nat>       // the frames under the pages of the heap, in order

    constructor (mmu: Mmu)
      ensures !initialized && this.mmu == mmu
    {
      this.mmu := mmu;
      headers, start, end, lastHeader, initialized, segs, backing := map[], 0, 0, 0, false, [], [];
    }

    /** The headers store the segments, which tile the heap. */
    ghost predicate Listed()
      reads this
    {
      && Shape(segs, start, end) && 0 < start && end < HALF
      && Stores(headers, segs)
      && lastHeader == segs[|segs| - 1].addr
    }

    /** Every page of the heap translates, with the rights of a kernel page, to a frame of its own that
        is USED, and the region above the heap is not mapped. */
    ghost predicate OnPages()
      reads this`start, this`end, this`backing, mmu, mmu.words, mmu.pmm, mmu.pmm.nodes
    {
      && start % PAGE == 0 && end == start + |backing| * PAGE
      && Underlaid(start / PAGE, backing)
    }

    ghost predicate Underlaid(base: nat, frames: seq<nat>)
      reads mmu, mmu.words, mmu.pmm, mmu.pmm.nodes
    {
      mmu.Valid() && Backed(mmu.Now(), base, frames) && AllUsed(mmu.pmm.view, frames)
    }

    ghost predicate Valid()
      reads this, mmu, mmu.words, mmu.pmm, mmu.pmm.nodes
    {
      if initialized then Listed() && Coalesced(segs) && OnPages() else Underlaid(HEAP_BASE / PAGE, [])
    }

    /** Every byte of a block in use lies on a page that translates to a frame of the heap's own, and that
        the kernel can read and write and user programs cannot. */
    lemma BytesAreMapped(b: nat, n: nat, a: nat)
      requires initialized && Valid() && Live(segs, b, n) && b <= a < b + n
      ensures start / PAGE <= a / PAGE < start / PAGE + |backing| && Tables.Valid(mmu.Now())
      ensures KernelMaps.MapsTo(mmu.Now(), a / PAGE, backing[a / PAGE - start / PAGE])
      ensures KernelMaps.ForKernel(mmu.Now(), a / PAGE, backing[a / PAGE - start / PAGE])
    {
      hide KernelMaps.MapsTo, KernelMaps.ForKernel, Mmu.Valid, Own, Clear, AllUsed, Tables.Valid, Mmu.Now,
        Coalesced, Stores;
      var k :| 0 <= k < |segs| && !segs[k].free && segs[k].Base() == b && segs[k].length == n;
      InHeap(segs, start, end, k);
      PageWithin(start, end, |backing|, a);
      var i := a / PAGE - start / PAGE;
      assert KernelMaps.MapsTo(mmu.Now(), start / PAGE + i, backing[i]);
      KernelMaps.MapsForKernel(mmu.Now(), start / PAGE + i, backing[i]);
    }

    /** header_split, on a segment that is long enough for what is asked. */
    method HeaderSplit(segment: nat, size: nat, ghost k: nat)
      requires Listed() && k < |segs| && segs[k].addr == segment && size <= segs[k].length && size % 16 == 0
      modifies this`headers, this`lastHeader, this`segs
      ensures Listed()
      ensures segs == if size >= 16 && old(segs)[k].length >= size + 48 then Cut(old(segs), k, size) else old(segs)
    {
      hide Contents, Links, Chain, Aligned, Roomed, Cut;
      HeaderAt(headers, segs, k);
      if size < 0x10 {
        return;
      }
      var h := headers[segment];
      InHeap(segs, start, end, k);
      SignedRemainder(h.length as int - size - HEADER);
      var length := Signed((h.length as int - size - HEADER) % WORDS);
      if length < 0x10 {
        return;
      }
      CutReady(headers, segs, start, end, k, size);
      ghost var was := headers;
      var n := segment + size + HEADER;
      if k + 1 < |segs| {
        HeaderAt(headers, segs, k + 1);
        InHeap(segs, start, end, k + 1);
      }
      if h.next != NULL {
        headers := headers[h.next := headers[h.next].(last := n)];
      }
      headers := headers[n := Header(length, headers[segment].next, segment, headers[segment].free)];
      headers := headers[segment := headers[segment].(next := n, length := size)];
      if lastHeader == segment {
        lastHeader := n;
      }
      assert headers == SplitHeaders(was, segs, k, size);
      segs := Cut(segs, k, size);
    }

    /** header_combine_forward. */
    method HeaderCombineForward(segment: nat, ghost k: nat)
      requires Listed() && k < |segs| && segs[k].addr == segment
      modifies this`headers, this`lastHeader, this`segs
      ensures Listed()
      ensures segs == if k + 1 < |old(segs)| && old(segs)[k + 1].free then Join(old(segs), k) else old(segs)
    {
      hide Contents, Links, Chain, Aligned, Roomed, Distinct;
      ghost var was := headers;
      HeaderAt(headers, segs, k);
      if k + 1 < |segs| {
        HeaderAt(headers, segs, k + 1);
        InHeap(segs, start, end, k + 1);
      }
      if k + 2 < |segs| {
        HeaderAt(headers, segs, k + 2);
        InHeap(segs, start, end, k + 2);
      }
      var next := headers[segment].next;
      if next == NULL || !headers[next].free {
        return;
      }
      ShapeDistinct(segs, start, end);
      JoinShape(segs, start, end, k);
      JoinStores(headers, segs, k);
      DistinctAt(segs, k);
      if next == lastHeader {
        lastHeader := segment;
      }
      var after := headers[next].next;
      if after != NULL {
        headers := headers[after := headers[after].(last := segment)];
      }
      var length := headers[segment].length + headers[next].length + HEADER;
      headers := headers[segment := headers[segment].(length := length)];
      headers := headers[segment := headers[segment].(next := headers[next].next)];
      assert headers == JoinHeaders(was, segs, k);
      segs := Join(segs, k);
    }

    /** header_combine_backward. */
    method HeaderCombineBackward(segment: nat, ghost k: nat)
      requires Listed() && k < |segs| && segs[k].addr == segment && segs[k].free
      modifies this`headers, this`lastHeader, this`segs
      ensures Listed()
      ensures segs == if 0 < k && old(segs)[k - 1].free then Join(old(segs), k - 1) else old(segs)
    {
      hide Contents, Links, Chain, Aligned, Roomed;
      HeaderAt(headers, segs, k);
      if 0 < k {
        HeaderAt(headers, segs, k - 1);
        InHeap(segs, start, end, k - 1);
      }
      var last := headers[segment].last;
      if last != NULL && headers[last].free {
        HeaderCombineForward(last, k - 1);
      }
    }

    /** segment->free = free. */
    method SetFree(segment: nat, free: bool, ghost k: nat)
      requires Listed() && k < |segs| && segs[k].addr == segment
      modifies this`headers, this`segs
      ensures Listed() && segs == Mark(old(segs), k, free)
    {
      hide Contents, Links, Chain, Aligned, Roomed, Distinct;
      HeaderAt(headers, segs, k);
      ShapeDistinct(segs, start, end);
      MarkShape(segs, start, end, k, free);
      MarkStores(headers, segs, k, free);
      headers := headers[segment := headers[segment].(free := free)];
      segs := Mark(segs, k, free);
    }

    /** heap_initialize.  False when page frames or section nodes ran out. */
    method HeapInitialize(address: nat, pages: nat) returns (ok: bool)
      requires !initialized && address > 0 && address % PAGE == 0 && pages > 0 && Underlaid(address / PAGE, [])
      modifies this, mmu`tables, mmu.words, mmu.pmm, mmu.pmm.nodes
      ensures !ok ==> mmu.Exhausted()
      ensures ok ==> initialized && Valid()
      ensures ok ==> start == address && end == address + pages * PAGE
      ensures ok ==> segs == [Seg(address, pages * PAGE - HEADER, true)]
      ensures ok ==> forall k :: 0 <= k < |backing| ==> backing[k] in old(mmu.FreeFrames())
      ensures mmu.FreeFrames() <= old(mmu.FreeFrames())
    {
      hide Mmu.Valid, Mmu.Now, Mmu.FreeFrames, Mmu.Exhausted, Backed, AllUsed, Sections.OnlyTaken;
      ok, backing := MapFresh(mmu, address / PAGE, pages, address / PAGE, []);
      if !ok {
        return;
      }
      StaysInRegion(mmu.Now(), address / PAGE, backing);
      FirstSegment(address, pages);
      initialized := true;
    }

    /** One free segment fills the heap. */
    method FirstSegment(address: nat, pages: nat)
      requires 0 < address && address % PAGE == 0 && pages > 0 && address + pages * PAGE < HALF
      modifies this`start, this`end, this`headers, this`lastHeader, this`segs
      ensures Listed() && Coalesced(segs)
      ensures start == address && end == address + pages * PAGE
      ensures segs == [Seg(address, pages * PAGE - HEADER, true)]
    {
      hide Shape, Stores;
      var length := pages * PAGE;
      PagesAligned(length);
      PagesAligned(address);
      OneSegment(headers, address, length);
      start := address;
      end := start + length;
      headers := headers[address := Header(length - HEADER, NULL, NULL, true)];
      lastHeader := address;
      segs := [Seg(address, length - HEADER, true)];
    }

    /** A free segment of `bytes` bytes, header included, at the end of the heap. */
    method AppendSegment(bytes: nat)
      requires Listed() && bytes >= HEADER + 16 && bytes % 16 == 0 && end + bytes < HALF
      modifies this`headers, this`lastHeader, this`segs, this`end
      ensures Listed() && end == old(end) + bytes
      ensures segs == old(segs) + [Seg(old(end), bytes - HEADER, true)]
    {
      hide Stores, Chain, Aligned, Roomed, Distinct;
      ghost var s := Seg(end, bytes - HEADER, true);
      AppendShape(segs, start, end, s);
      AppendStores(headers, segs, s);
      var segment := end;
      end := end + bytes;
      headers := headers[segment := Header(bytes - HEADER, NULL, lastHeader, true)];
      headers := headers[lastHeader := headers[lastHeader].(next := segment)];
      lastHeader := segment;
      segs := segs + [s];
    }

    /** heap_expand.  False when page frames or section nodes ran out, or when the length wraps to no
        pages at all and the header would be written where nothing is mapped. */
    method HeapExpand(length: nat) returns (ok: bool)
      requires initialized && Valid() && 0 < length < WORDS
      modifies this`headers, this`lastHeader, this`segs, this`end, this`backing
      modifies mmu`tables, mmu.words, mmu.pmm, mmu.pmm.nodes
      ensures !ok ==> mmu.Exhausted() || PageRounded(length) >= WORDS
      ensures ok ==> Valid() && end == old(end) + PageRounded(length)
      ensures ok ==> segs == Expand(old(segs), PageRounded(length))
      ensures ok ==> old(backing) <= backing
      ensures ok ==> forall k :: |old(backing)| <= k < |backing| ==> backing[k] in old(mmu.FreeFrames())
      ensures mmu.FreeFrames() <= old(mmu.FreeFrames())
    {
      hide Shape, Stores, Coalesced, Mmu.Valid, Mmu.Now, Mmu.FreeFrames, Mmu.Exhausted, Backed, AllUsed,
        Sections.OnlyTaken;
      var rounded := length;
      if rounded % 0x1000 != 0 {
        rounded := rounded - rounded % 0x1000;
        rounded := (rounded + 0x1000) % WORDS;
      }
      var pages := rounded / 0x1000;
      if pages == 0 {
        return false;
      }
      PagesAligned(rounded);
      HeapPagesEnd(start, end, |backing|, pages);
      ok, backing := MapFresh(mmu, end / PAGE, pages, start / PAGE, backing);
      if !ok {
        return;
      }
      StaysInRegion(mmu.Now(), start / PAGE, backing);
      AddSegment(rounded);
    }

    /** The second part of heap_expand: a free segment at the end of the heap, which joins a free one
        before it. */
    method AddSegment(bytes: nat)
      requires Listed() && Coalesced(segs) && bytes >= PAGE && bytes % 16 == 0 && end + bytes < HALF
      modifies this`headers, this`lastHeader, this`segs, this`end
      ensures Listed() && Coalesced(segs) && end == old(end) + bytes
      ensures |old(segs)| > 0 && segs == Expand(old(segs), bytes)
    {
      hide Chain, Aligned, Roomed, Stores, Coalesced;
      ghost var before := segs;
      ExpandIsAppend(before, start, end, bytes);
      ExpandCoalesced(before, bytes);
      var segment := end;
      AppendSegment(bytes);
      HeaderCombineBackward(segment, |before|);
    }

    /** free, on the block behind segment `k`: it alone is taken back. */
    method Free(address: nat, ghost k: nat)
      requires initialized && Valid() && k < |segs| && segs[k].Base() == address && !segs[k].free
      modifies this`headers, this`lastHeader, this`segs
      ensures Valid() && segs == Release(old(segs), k)
      ensures forall b, n :: Live(segs, b, n) <==> Live(old(segs), b, n) && b != address
    {
      hide Chain, Aligned, Roomed, Contents, Links, Coalesced, OnPages, Underlaid;
      ReleaseCoalesced(segs, k);
      forall b, n
        ensures Live(Release(segs, k), b, n) <==> Live(segs, b, n) && b != address
      {
        ReleaseLive(segs, start, end, k, b, n);
      }
      var segment := address - HEADER;
      SetFree(segment, true, k);
      HeaderCombineForward(segment, k);
      HeaderCombineBackward(segment, k);
    }

    /** The segments that malloc starts from. */
    ghost function Before(): seq<Seg>
      reads this, mmu, mmu.words, mmu.pmm, mmu.pmm.nodes
      requires Valid()
      ensures |Before()| > 0
    {
      if initialized then segs else [Seg(HEAP_BASE, HEAP_PAGES * PAGE - HEADER, true)]
    }

    /** A free segment that fits is split when it is longer than asked, and marked. */
    method TakeHere(segment: nat, size: nat, longer: bool, ghost k: nat)
      requires initialized && Valid() && k < |segs| && segs[k].addr == segment && segs[k].free && size % 16 == 0
      requires if longer then segs[k].length > size else segs[k].length == size
      modifies this`headers, this`lastHeader, this`segs
      ensures Valid() && segs == Take(old(segs), k, size)
    {
      hide Chain, Aligned, Roomed, Contents, Links, Coalesced, OnPages, Underlaid;
      TakeCoalesced(segs, k, size);
      if longer {
        HeaderSplit(segment, size, k);
      }
      SetFree(segment, false, k);
    }

    /** The search of malloc: the first segment that fits is marked, after a split when the rest is
        large enough for another. */
    method TakeFirst(size: nat) returns (address: nat)
      requires initialized && Valid() && size >= 16 && size % 16 == 0
      modifies this`headers, this`lastHeader, this`segs
      ensures Valid()
      ensures address == NULL ==> segs == old(segs) && Growth(segs, size) > 0
      ensures address != NULL ==> Growth(old(segs), size) == 0 && Allocated(old(segs), size, segs, address)
    {
      hide Chain, Aligned, Roomed, Contents, Links, Coalesced, OnPages, Underlaid, Allocated, Take;
      var current := start;
      ghost var k := 0;
      FirstHeader(segs, start, end);
      while true
        invariant Valid() && segs == old(segs)
        invariant k < |segs| && segs[k].addr == current
        invariant forall j :: 0 <= j < k ==> !Fits(segs[j], size)
        decreases |segs| - k
      {
        HeaderAt(headers, segs, k);
        var h := headers[current];
        if h.free {
          if h.length > size {
            AllocatedAtOnce(segs, size, k);
            TakeHere(current, size, true, k);
            return current + HEADER;
          }
          if h.length == size {
            AllocatedAtOnce(segs, size, k);
            TakeHere(current, size, false, k);
            return current + HEADER;
          }
        }
        if k + 1 < |segs| {
          InHeap(segs, start, end, k + 1);
        }
        if h.next == NULL {
          break;
        }
        current := h.next;
        k := k + 1;
      }
      return NULL;
    }

    /** The rounding at the start of malloc. */
    static method RoundUp(size: nat) returns (r: nat)
      requires size < WORDS
      ensures r == Rounded(size)
    {
      r := size;
      if r % 0x10 > 0 {
        r := r - r % 0x10;
        r := (r + 0x10) % WORDS;
      }
    }

    /** malloc: the block starts in the first segment that fits, after as many expansions as the
        request needs, which are two at most.  The pages of the heap keep their frames, and those of an
        expansion were FREE.  False when an expansion was needed and failed. */
    method Malloc(size: nat) returns (ok: bool, address: nat)
      requires size < WORDS && Valid()
      modifies this, mmu`tables, mmu.words, mmu.pmm, mmu.pmm.nodes
      ensures !ok ==> mmu.Exhausted() || PageRounded(Rounded(size)) >= WORDS
      ensures !ok && old(initialized) ==> Rounded(size) > 0 && Growth(old(Before()), Rounded(size)) > 0
      ensures ok ==> initialized && Valid() && start == (if old(initialized) then old(start) else 0x7f00_0000_0000)
      ensures ok && old(initialized) ==> old(backing) <= backing
      ensures ok ==> forall k :: (if old(initialized) then |old(backing)| else 0) <= k < |backing| ==>
        backing[k] in old(mmu.FreeFrames())
      ensures mmu.FreeFrames() <= old(mmu.FreeFrames())
      ensures ok && Rounded(size) == 0 ==> address == NULL && segs == old(Before())
      ensures ok && Rounded(size) > 0 ==> Allocated(old(Before()), Rounded(size), segs, address)
      ensures ok && Rounded(size) > 0 ==>
        end == (if old(initialized) then old(end) else 0x7f00_0010_0000)
             + Growth(old(Before()), Rounded(size)) * PageRounded(Rounded(size))
      decreases !initialized, if initialized then Growth(Before(), Rounded(size)) else 0
    {
      hide Shape, Stores, Coalesced, Allocated, Rounded, PageRounded, Growth, Expand, OnPages, Underlaid,
        Mmu.FreeFrames, Mmu.Exhausted;
      if !initialized {
        ok := HeapInitialize(HEAP_BASE, HEAP_PAGES);
        if !ok {
          return false, NULL;
        }
      }
      var rounded := RoundUp(size);
      RoundedTwice(size);
      if rounded == 0 {
        return true, NULL;
      }
      ghost var before := segs;
      assert before == Before();
      address := TakeFirst(rounded);
      if address == NULL {
        ExpandGrowth(before, rounded);
        ok := HeapExpand(rounded);
        if !ok {
          return;
        }
        ok, address := Malloc(rounded);
        if ok {
          AllocatedAfterExpand(before, rounded, segs, address);
        }
        return;
      }
      ok := true;
    }
  }

  lemma PageWithin(start: nat, end: nat, count: nat, a: nat)
    requires start % PAGE == 0 && end == start + count * PAGE && start <= a < end
    ensures start / PAGE <= a / PAGE < start / PAGE + count
  {
  }

  lemma OneSegment(hs: map<nat, Header>, address: nat, length: nat)
    requires address % 16 == 0 && length % 16 == 0 && length >= HEADER + 16
    ensures var segs := [Seg(address, length - HEADER, true)];
      && Shape(segs, address, address + length)
      && Stores(hs[address := Header(length - HEADER, NULL, NULL, true)], segs)
  {
  }

  lemma HeapPagesEnd(start: nat, end: nat, count: nat, more: nat)
    requires start % PAGE == 0 && end == start + count * PAGE
    ensures end / PAGE == start / PAGE + count && end + more * PAGE == start + (count + more) * PAGE
  {
  }

  lemma AppendShape(segs: seq<Seg>, start: nat, end: nat, s: Seg)
    requires Shape(segs, start, end) && s.addr == end && s.length % 16 == 0 && s.length >= 16
    ensures |segs| > 0
    ensures Shape(segs + [s], start, s.End())
    ensures Distinct(segs + [s])
  {
    hide Aligned, Distinct;
    AppendAligned(segs, segs[|segs| - 1], s);
    ShapeDistinct(segs + [s], start, s.End());
  }

  lemma AppendAligned(segs: seq<Seg>, last: Seg, s: Seg)
    requires Aligned(segs) && last in segs && s.addr == last.End() && s.length % 16 == 0
    ensures Aligned(segs + [s])
  {
    assert (last.addr + HEADER + last.length) % 16 == 0;
  }

  lemma AppendStores(hs: map<nat, Header>, segs: seq<Seg>, s: Seg)
    requires Stores(hs, segs) && Distinct(segs + [s])
    ensures |segs| > 0
    ensures var last := segs[|segs| - 1].addr;
      last in hs && s.addr != last &&
      Stores(hs[s.addr := Header(s.length, NULL, last, s.free)][last := hs[last].(next := s.addr)], segs + [s])
  {
    var t, last := segs + [s], segs[|segs| - 1].addr;
    assert t[|t| - 1] == s && t[|segs| - 1].addr == last;
    assert forall i :: 0 <= i < |segs| ==> t[i] == segs[i];
  }

  /** Appending a free segment and joining it with a free one before it is growing the heap. */
  lemma ExpandIsAppend(segs: seq<Seg>, start: nat, end: nat, bytes: nat)
    requires Shape(segs, start, end) && bytes >= HEADER
    ensures |segs| > 0
    ensures var s := segs + [Seg(end, bytes - HEADER, true)];
      Expand(segs, bytes) == if s[|segs| - 1].free then Join(s, |segs| - 1) else s
  {
  }

  lemma FirstHeader(segs: seq<Seg>, start: nat, end: nat)
    requires Chain(segs, start, end)
    ensures |segs| > 0 && segs[0].addr == start
  {
  }
}
