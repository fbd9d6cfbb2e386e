/** The pages under the kernel heap: which frames the loops of heap_initialize and heap_expand put
    there, and what keeps them there. */
module HeapPages {
  import opened Sections
  import opened Descriptors
  import opened Tables
  import opened Translations
  import opened KernelMaps
  import opened MemoryMaps
  import opened Mmus

  /** The page of 0x7f0000000000. */
  const HEAP_PAGE := 0x7_f000_0000

  /** No page from `from` up to the higher half is mapped. */
  ghost predicate Clear(s: State, from: nat)
    requires Shaped(s)
  {
    forall w :: from <= w < HIGHER_HALF ==> Leaf(s, w) == ZERO
  }

  /** Page after page from `base` on is mapped to the frames, with the rights of a kernel page. */
  ghost predicate MapsAll(s: State, base: nat, frames: seq<nat>)
    requires Valid(s)
  {
    forall k :: 0 <= k < |frames| ==> MapsTo(s, base + k, frames[k])
  }

  /** No frame occurs twice, and none is free or a table. */
  ghost predicate Own(s: State, frames: seq<nat>) {
    && (forall k :: 0 <= k < |frames| ==> frames[k] < |s.mem| && frames[k] !in s.free)
    && (forall k, q :: 0 <= k < |frames| && q in s.tables ==> s.tables[q] != frames[k])
    && forall j, k :: 0 <= j < k < |frames| ==> frames[j] != frames[k]
  }

  /** The heap region lies above physical memory and is large enough to hold all of it. */
  ghost predicate Roomy(s: State, base: nat) {
    |s.mem| <= base && base + |s.mem| <= HIGHER_HALF
  }

  ghost predicate Backed(s: State, base: nat, frames: seq<nat>) {
    Valid(s) && Roomy(s, base) && MapsAll(s, base, frames) && Own(s, frames) && Clear(s, base + |frames|)
  }

  /** After paging_reload_kernel_map the region is empty, since only memory, its higher half and the
      kernel image are mapped. */
  lemma ReloadedIsClear(s: State, map_: MemoryMap, image: Image)
    requires Reloaded(s, map_, image) && Apart(map_, image) && Roomy(s, HEAP_PAGE) && |map_| > 0
    requires forall i :: 0 <= i < |map_| ==> map_[i].End() <= |s.mem|
    ensures Backed(s, HEAP_PAGE, [])
  {
    forall w | HEAP_PAGE <= w < HIGHER_HALF
      ensures Leaf(s, w) == ZERO
    {
      hide Valid, Leaf, MapsTo;
      assert !Usable(map_, w);
      assert map_[0].End() <= HIGHER_HALF;
      assert Intended(map_, image, w) == -1;
    }
  }

  // ---------------------------------------------------------------------------------------------
  // The heap cannot outgrow its region.

  lemma {:induction false} Pigeonhole(s: set<nat>, n: nat)
    requires forall x :: x in s ==> x < n
    ensures |s| <= n
  {
    if n == 0 {
      assert s == {};
    } else {
      Pigeonhole(s - {n - 1}, n - 1);
    }
  }

  function Elements(frames: seq<nat>): set<nat> {
    set k | 0 <= k < |frames| :: frames[k]
  }

  lemma {:induction false} DistinctElements(frames: seq<nat>)
    requires forall j, k :: 0 <= j < k < |frames| ==> frames[j] != frames[k]
    ensures |Elements(frames)| == |frames|
  {
    if frames != [] {
      var n := |frames| - 1;
      DistinctElements(frames[..n]);
      assert Elements(frames) == Elements(frames[..n]) + {frames[n]};
    }
  }

  lemma StaysInRegion(s: State, base: nat, frames: seq<nat>)
    requires Backed(s, base, frames)
    ensures base + |frames| <= HIGHER_HALF
  {
    DistinctElements(frames);
    Pigeonhole(Elements(frames), |s.mem|);
  }

  /** As long as a frame is free, there is a page left for it. */
  lemma RoomLeft(s: State, base: nat, frames: seq<nat>, t: nat)
    requires Backed(s, base, frames) && t in s.free
    ensures base + |frames| < HIGHER_HALF && t < |s.mem| && t < FRAMES
  {
    DistinctElements(frames);
    Pigeonhole(Elements(frames) + {t}, |s.mem|);
    assert t !in Elements(frames);
  }

  // ---------------------------------------------------------------------------------------------
  // One round of the loop.

  function Without(s: State, gone: set<nat>): State {
    s.(free := s.free - gone)
  }

  /** Taking frames out of the free ones keeps the tables and every translation. */
  lemma WithoutValid(s: State, gone: set<nat>)
    requires Valid(s)
    ensures Valid(Without(s, gone))
    ensures AllEncodable(s) ==> AllEncodable(Without(s, gone))
  {
    var s1 := Without(s, gone);
    hide AllEncodable;
    WithoutEncodable(s, gone);
    forall q, i | Sub(q, i) in s1.tables
      ensures Linked(s1, q, i)
    {
      assert Linked(s, q, i);
    }
    forall q, i | q in s1.tables && Depth(q) < 3 && 0 <= i < 512 && Sub(q, i) !in s1.tables
      ensures At(s1, q, i) == ZERO
    {
      assert At(s, q, i) == ZERO;
    }
  }

  lemma WithoutEncodable(s: State, gone: set<nat>)
    requires Shaped(s)
    ensures Shaped(Without(s, gone))
    ensures AllEncodable(s) ==> AllEncodable(Without(s, gone))
  {
    if AllEncodable(s) {
      forall q, i | q in s.tables && 0 <= i < 512
        ensures Encodable(At(Without(s, gone), q, i))
      {
        assert Encodable(At(s, q, i));
      }
    }
  }

  lemma WithoutPage(s: State, gone: set<nat>, w: nat)
    requires Valid(s)
    ensures Valid(Without(s, gone))
    ensures Leaf(Without(s, gone), w) == Leaf(s, w) && Rights(Without(s, gone), w) == Rights(s, w)
  {
    WithoutValid(s, gone);
  }

  lemma WithoutBacked(s: State, base: nat, frames: seq<nat>, gone: set<nat>)
    requires Backed(s, base, frames)
    ensures Backed(Without(s, gone), base, frames)
  {
    var s1 := Without(s, gone);
    WithoutValid(s, gone);
    hide Valid, Leaf, Rights;
    forall k | 0 <= k < |frames|
      ensures MapsTo(s1, base + k, frames[k])
    {
      WithoutPage(s, gone, base + k);
      assert MapsTo(s, base + k, frames[k]);
    }
    forall w | base + |frames| <= w < HIGHER_HALF
      ensures Leaf(s1, w) == ZERO
    {
      WithoutPage(s, gone, w);
    }
  }

  /** A page above memory keeps its frame and its rights when another page is mapped. */
  lemma KeepsPage(s: State, s': State, v: nat, p: nat, f: Word, w: nat, q: nat)
    requires Mapped(s, s', v, p, f) && |s.mem| <= w < PAGES && w != v && MapsTo(s, w, q)
    ensures Valid(s') && MapsTo(s', w, q)
  {
    hide Valid, Rights, Leaf, GatesBounded, PathHas, Extends;
    MappedExtends(s, s', v, p, f);
    FreeBelow(s, s');
    MappedFrame(s, s', v, p, f, w);
    StepRights(s, s', w);
  }

  /** New tables lie in memory. */
  lemma FreeBelow(s: State, s': State)
    requires Valid(s)
    ensures Shaped(s) && forall t :: t in New(s, s') ==> t < |s.mem|
  {
  }

  lemma KeepsMaps(s: State, s': State, v: nat, p: nat, f: Word, base: nat, frames: seq<nat>)
    requires Mapped(s, s', v, p, f) && MapsAll(s, base, frames) && |s.mem| <= base && base + |frames| <= HIGHER_HALF
    requires !(base <= v < base + |frames|)
    ensures Valid(s') && MapsAll(s', base, frames)
  {
    hide Valid, MapsTo, Mapped;
    MappedExtends(s, s', v, p, f);
    forall k | 0 <= k < |frames|
      ensures MapsTo(s', base + k, frames[k])
    {
      KeepsPage(s, s', v, p, f, base + k, frames[k]);
    }
  }

  lemma KeepsClear(s: State, s': State, v: nat, p: nat, f: Word, from: nat)
    requires Mapped(s, s', v, p, f) && v < PAGES && Clear(s, from) && |s.mem| <= from
    ensures Shaped(s') && forall w :: from <= w < HIGHER_HALF && w != v ==> Leaf(s', w) == ZERO
  {
    hide Valid, Mapped, Leaf;
    MappedExtends(s, s', v, p, f);
    FreeBelow(s, s');
    FreeBelow(s', s');
    forall w | from <= w < HIGHER_HALF && w != v
      ensures Leaf(s', w) == ZERO
    {
      MappedFrame(s, s', v, p, f, w);
    }
  }

  /** New tables are among the frames that were free, so a frame that was not stays what it is. */
  lemma KeepsOwn(s: State, s': State, frames: seq<nat>)
    requires Own(s, frames) && TablesKept(s, s') && FramesAccounted(s, s')
    ensures Own(s', frames)
  {
    forall k, q | 0 <= k < |frames| && q in s'.tables
      ensures s'.tables[q] != frames[k]
    {
      assert q !in s.tables ==> s'.tables[q] in New(s, s');
    }
  }

  lemma MappedAccounts(s: State, s': State, v: nat, p: nat, f: Word)
    requires Mapped(s, s', v, p, f)
    ensures TablesKept(s, s') && FramesAccounted(s, s')
  {
  }

  /** Mapping a page elsewhere leaves the heap as it is. */
  lemma KeepsHeap(s: State, s': State, v: nat, p: nat, f: Word, base: nat, frames: seq<nat>)
    requires Backed(s, base, frames) && Mapped(s, s', v, p, f) && v < PAGES && !(base <= v < HIGHER_HALF)
    requires base + |frames| <= HIGHER_HALF
    ensures Backed(s', base, frames)
  {
    hide Valid, MapsAll, Own, Mapped, Leaf, FramesAccounted;
    MappedExtends(s, s', v, p, f);
    MappedAccounts(s, s', v, p, f);
    KeepsOwn(s, s', frames);
    KeepsMaps(s, s', v, p, f, base, frames);
    KeepsClear(s, s', v, p, f, base + |frames|);
  }

  lemma OwnTaken(s: State, frames: seq<nat>, t: nat)
    requires Valid(s) && Own(s, frames) && t in s.free
    ensures Own(Without(s, {t}), frames + [t])
  {
    var more := frames + [t];
    assert t < |s.mem| && forall q :: q in s.tables ==> s.tables[q] != t;
    hide Valid;
    assert forall k :: 0 <= k < |more| ==> more[k] == if k < |frames| then frames[k] else t;
  }

  /** The next page of the heap gets a frame that was free. */
  lemma GrowsHeap(s: State, s': State, base: nat, frames: seq<nat>, t: nat)
    requires Backed(s, base, frames) && t in s.free
    requires Mapped(Without(s, {t}), s', base + |frames|, t, KERNEL_PAGE)
    ensures Backed(s', base, frames + [t])
  {
    hide Valid, MapsTo, Mapped, Own, Leaf, FramesAccounted;
    var s1, v := Without(s, {t}), base + |frames|;
    RoomLeft(s, base, frames, t);
    WithoutBacked(s, base, frames, {t});
    OwnTaken(s, frames, t);
    MappedExtends(s1, s', v, t, KERNEL_PAGE);
    MappedAccounts(s1, s', v, t, KERNEL_PAGE);
    KeepsOwn(s1, s', frames + [t]);
    KeepsMaps(s1, s', v, t, KERNEL_PAGE, base, frames);
    KeepsClear(s1, s', v, t, KERNEL_PAGE, v);
    FreshPage(s, s', base, frames, t);
    MapsMore(s', base, frames, t);
  }

  lemma MapsMore(s: State, base: nat, frames: seq<nat>, t: nat)
    requires Valid(s) && MapsAll(s, base, frames) && MapsTo(s, base + |frames|, t)
    ensures MapsAll(s, base, frames + [t])
  {
    hide Valid, MapsTo;
    forall k | 0 <= k < |frames| + 1
      ensures MapsTo(s, base + k, (frames + [t])[k])
    {
      assert k < |frames| ==> MapsTo(s, base + k, frames[k]);
    }
  }

  lemma FreshPage(s: State, s': State, base: nat, frames: seq<nat>, t: nat)
    requires Backed(s, base, frames) && t in s.free && base + |frames| < HIGHER_HALF
    requires Mapped(Without(s, {t}), s', base + |frames|, t, KERNEL_PAGE)
    ensures Valid(s') && MapsTo(s', base + |frames|, t)
  {
    hide Mapped, Rights, MapsAll, Own, Leaf, Valid;
    var s1, v := Without(s, {t}), base + |frames|;
    WithoutPage(s, {t}, v);
    MappedExtends(s1, s', v, t, KERNEL_PAGE);
    FreeBelow(s1, s');
    FreeBelow(s, s);
    assert Leaf(s, v) == ZERO;
    MappedTranslates(s1, s', v, t, KERNEL_PAGE);
    MappedRights(s1, s', v, t, KERNEL_PAGE);
  }

  // ---------------------------------------------------------------------------------------------
  // The loop.

  ghost predicate AllUsed(view: PageMap, frames: seq<nat>) {
    forall k :: 0 <= k < |frames| ==> frames[k] < |view| && view[frames[k]] == USED
  }

  lemma StaysUsed(view: PageMap, view': PageMap, frames: seq<nat>)
    requires AllUsed(view, frames) && OnlyTaken(view, view')
    ensures AllUsed(view', frames)
  {
  }

  lemma UsedMore(view: PageMap, view': PageMap, frames: seq<nat>, t: nat)
    requires AllUsed(view, frames) && PageTaken(view, t, view')
    ensures AllUsed(view', frames + [t])
  {
  }

  /** One round of the loops: the frame is taken first, and then mapped at page `v`. */
  method NextPage(mmu: Mmu, v: nat, ghost base: nat, ghost frames: seq<nat>) returns (ok: bool, t: nat)
    requires mmu.Valid() && Backed(mmu.Now(), base, frames) && AllUsed(mmu.pmm.view, frames) && v == base + |frames|
    modifies mmu`tables, mmu.words, mmu.pmm, mmu.pmm.nodes
    ensures mmu.Valid() && OnlyTaken(old(mmu.pmm.view), mmu.pmm.view) && mmu.FreeFrames() <= old(mmu.FreeFrames())
    ensures !ok ==> mmu.Exhausted()
    ensures ok ==> t in old(mmu.FreeFrames())
    ensures ok ==> Backed(mmu.Now(), base, frames + [t]) && AllUsed(mmu.pmm.view, frames + [t])
  {
    hide Tables.Valid, Mmu.Frames, Mmu.Exhausted, Mapped, Cut, Backed, AllUsed, OnlyTaken, PageTaken, AllEncodable,
      Mmu.Ready;
    ghost var s := mmu.Now();
    ok, t := mmu.AllocFrame();
    if !ok {
      OnlyTakenNone(mmu.pmm.view);
      return;
    }
    ghost var view := mmu.pmm.view;
    OnlyTakenOne(old(mmu.pmm.view), t, view);
    UsedMore(old(mmu.pmm.view), view, frames, t);
    RoomLeft(s, base, frames, t);
    WithoutValid(s, {t});
    assert mmu.Now() == Without(s, {t});
    KernelFlags();
    FortyBitFrame(t);
    ok := mmu.MapPage(v, t, KERNEL_PAGE);
    OnlyTakenTrans(old(mmu.pmm.view), view, mmu.pmm.view);
    StaysUsed(view, mmu.pmm.view, frames + [t]);
    if ok {
      GrowsHeap(s, mmu.Now(), base, frames, t);
    }
  }

  /** `count` more pages of the heap, each mapped to a frame that was FREE.  False when frames or
      section nodes ran out. */
  method MapFresh(mmu: Mmu, v: nat, count: nat, ghost base: nat, ghost before: seq<nat>)
    returns (ok: bool, ghost frames: seq<nat>)
    requires mmu.Valid() && Backed(mmu.Now(), base, before) && AllUsed(mmu.pmm.view, before) && v == base + |before|
    modifies mmu`tables, mmu.words, mmu.pmm, mmu.pmm.nodes
    ensures mmu.Valid() && OnlyTaken(old(mmu.pmm.view), mmu.pmm.view)
    ensures mmu.FreeFrames() <= old(mmu.FreeFrames())
    ensures !ok ==> mmu.Exhausted()
    ensures ok ==> Backed(mmu.Now(), base, frames) && AllUsed(mmu.pmm.view, frames)
    ensures ok ==> |frames| == |before| + count && before <= frames
    ensures ok ==> forall k :: |before| <= k < |frames| ==> frames[k] in old(mmu.FreeFrames())
  {
    hide Tables.Valid, Mmu.Frames, Mmu.Ready, Mmu.Exhausted, Mapped, Cut, Backed, AllUsed, OnlyTaken, PageTaken,
      AllEncodable;
    frames := before;
    OnlyTakenNone(mmu.pmm.view);
    for i := 0 to count
      invariant mmu.Valid() && OnlyTaken(old(mmu.pmm.view), mmu.pmm.view)
      invariant mmu.FreeFrames() <= old(mmu.FreeFrames())
      invariant Backed(mmu.Now(), base, frames) && AllUsed(mmu.pmm.view, frames)
      invariant |frames| == |before| + i && before <= frames
      invariant forall k :: |before| <= k < |frames| ==> frames[k] in old(mmu.FreeFrames())
    {
      ghost var view := mmu.pmm.view;
      var t;
      ok, t := NextPage(mmu, v + i, base, frames);
      OnlyTakenTrans(old(mmu.pmm.view), view, mmu.pmm.view);
      if !ok {
        return;
      }
      frames := frames + [t];
    }
    return true, frames;
  }
}
