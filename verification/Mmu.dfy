/** Paging over physical memory: paging.c, with its tables in memory that is written in place and
    its frames taken from the physical memory manager. */
module Mmus {
  import opened Sections
  import opened Pmms
  import opened Descriptors
  import opened Tables
  import opened MemoryMaps
  import opened KernelMaps

  class Mmu {
    const words: array2<Entry>        // physical memory: 512 descriptors in each frame
    const pmm: Pmm
    var pml4: nat                     // the frame of the root table
    ghost var tables: map<Prefix, nat>

    constructor (words: array2<Entry>, pmm: Pmm)
      ensures this.words == words && this.pmm == pmm
    {
      this.words, this.pmm, pml4, tables := words, pmm, 0, map[];
    }

    ghost function Frames(): (m: Memory)
      reads words
      ensures |m| == words.Length0 && forall f :: 0 <= f < |m| ==> |m[f]| == words.Length1
    {
      seq(words.Length0, f requires 0 <= f < words.Length0 reads words =>
        seq(words.Length1, i requires 0 <= i < words.Length1 reads words => words[f, i]))
    }

    ghost function FreeFrames(): set<nat>
      reads pmm
    {
      set p | 0 <= p < |pmm.view| && pmm.view[p] == FREE
    }

    ghost function Now(): State
      reads this, words, pmm
    {
      State(Frames(), pml4, tables, FreeFrames())
    }

    ghost predicate Ready()
      reads pmm, pmm.nodes
    {
      pmm.Valid() && pmm.allowing
    }

    ghost predicate Valid()
      reads this, words, pmm, pmm.nodes
    {
      Ready() && words.Length1 == 512 && Tables.Valid(Now()) && AllEncodable(Now())
    }

    /** The frame allocator can give nothing more. */
    ghost predicate Exhausted()
      reads pmm, pmm.nodes
    {
      FREE !in pmm.view || !pmm.Spare()
    }

    method Load(f: nat, i: nat) returns (e: Entry)
      requires f < words.Length0 && i < words.Length1
      ensures e == Frames()[f][i]
    {
      e := words[f, i];
    }

    method Store(f: nat, i: nat, e: Entry)
      requires f < words.Length0 && i < words.Length1
      modifies words
      ensures Frames() == old(Frames())[f := old(Frames())[f][i := e]]
    {
      words[f, i] := e;
      assert Frames()[f] == old(Frames())[f][i := e];
      assert forall g :: 0 <= g < words.Length0 && g != f ==> Frames()[g] == old(Frames())[g];
    }

    /** memset of a whole frame. */
    method ZeroFrame(f: nat)
      requires f < words.Length0 && words.Length1 == 512
      modifies words
      ensures Frames() == old(Frames())[f := Blank()]
    {
      for i := 0 to 512
        invariant forall j :: 0 <= j < i ==> words[f, j] == ZERO
        invariant forall g, j :: 0 <= g < words.Length0 && 0 <= j < 512 && g != f ==> words[g, j] == old(words[g, j])
      {
        words[f, i] := ZERO;
      }
      assert Frames()[f] == Blank();
      assert forall g :: 0 <= g < words.Length0 && g != f ==> Frames()[g] == old(Frames())[g];
    }

    /** pmm_alloc_page, where a NULL frame or a missing section node ends the run. */
    method AllocFrame() returns (ok: bool, t: nat)
      requires Ready()
      modifies pmm, pmm.nodes
      ensures Ready()
      ensures !ok ==> FreeFrames() == old(FreeFrames()) && pmm.view == old(pmm.view) && Exhausted()
      ensures ok ==> t in old(FreeFrames()) && FreeFrames() == old(FreeFrames()) - {t}
      ensures ok ==> PageTaken(old(pmm.view), t, pmm.view)
    {
      ok, t := pmm.AllocPage();
      ok := ok && t != 0;
    }

    /** A fresh table behind the absent descriptor `i` of `parent`. */
    method AddTable(parent: nat, i: nat, flags: Word, ghost q: Prefix, ghost v: nat) returns (ok: bool, t: nat)
      requires Valid() && AtLevel(Now(), q, i, parent, v) && Sub(q, i) !in tables && flags <= FLAG_MASK
      modifies this`tables, words, pmm, pmm.nodes
      ensures Valid()
      ensures !ok ==> Now() == old(Now()) && FreeFrames() == old(FreeFrames()) && Exhausted()
      ensures OnlyTaken(old(pmm.view), pmm.view)
      ensures ok ==> FreeFrames() < old(FreeFrames()) && t < PAGES
      ensures ok ==> CanLink(old(Now()), q, i, t, Entry(t, flags + PRESENT))
      ensures ok ==> Now() == Link(old(Now()), q, i, t, Entry(t, flags + PRESENT))
    {
      hide Tables.Valid, Frames, FreeFrames, Ready, Exhausted, AllEncodable, Encodable, OnlyTaken, PageTaken;
      ghost var s := Now();
      StepDown(s, q, i);
      var e := Load(parent, i);
      ok, t := AllocFrame();
      if !ok {
        OnlyTakenNone(pmm.view);
        return;
      }
      OnlyTakenOne(old(pmm.view), t, pmm.view);
      CanLinkNew(s, q, i, t, flags);
      EncodableAt(s, q, i);
      EncodableWrites(e, t, flags);
      ZeroFrame(t);
      e := Entry(BitOr(e.frame, t), e.flags - PRESENT + flags + PRESENT);
      assert e == Entry(t, flags + PRESENT);
      Store(parent, i, e);
      tables := tables[Sub(q, i) := t];
      LinkValid(s, q, i, t, e);
      LinkEncodable(s, q, i, t, e);
    }

    /** One level of paging_map_page: the table that descriptor `i` of `parent` leads to.  An absent
        table is allocated, zeroed and linked, and then mapped at its own address by a call back
        into MapPage; the flags are OR-ed into a descriptor that is present already. */
    method Descend(parent: nat, i: nat, flags: Word, ghost q: Prefix, ghost v: nat) returns (ok: bool, child: nat)
      requires Valid() && AtLevel(Now(), q, i, parent, v) && flags <= FLAG_MASK
      modifies this`tables, words, pmm, pmm.nodes
      ensures Valid() && FreeFrames() <= old(FreeFrames())
      ensures OnlyTaken(old(pmm.view), pmm.view)
      ensures if ok then Descended(old(Now()), Now(), q, i, child, v, flags) else Cut(old(Now()), Now()) && Exhausted()
      decreases FreeFrames(), 0
    {
      hide Tables.Valid, Frames, FreeFrames, Ready, Exhausted, Mapped, Cut, CanLink, Link, Descended, AllEncodable,
        Encodable, OnlyTaken;
      ghost var s := Now();
      StepDown(s, q, i);
      var e := Load(parent, i);
      if !Present(e) {
        ok, child := AddTable(parent, i, flags, q, v);
        if !ok {
          CutRefl(s);
          return;
        }
        KernelFlags();
        FortyBitFrame(child);
        ghost var view := pmm.view;
        ok := MapPage(child, child, KERNEL_PAGE);
        OnlyTakenTrans(old(pmm.view), view, pmm.view);
        if ok {
          DescendedByTable(s, q, i, child, Now(), v, flags);
        } else {
          CutAfterLink(s, q, i, child, Entry(child, flags + PRESENT), Now(), v, flags);
        }
        return;
      }
      DescendedByFlags(s, q, i, v, flags);
      EncodableAt(s, q, i);
      EncodableWrites(e, 0, flags);
      PutEncodable(s, q, i, Entry(e.frame, e.flags + flags));
      OnlyTakenNone(pmm.view);
      Store(parent, i, Entry(e.frame, e.flags + flags));
      return true, e.frame;
    }

    /** The last step of paging_map_page: the address is OR-ed into the leaf and the flags replaced. */
    method WriteLeaf(pt: nat, v: nat, p: nat, f: Word)
      requires Valid() && v < PAGES && P1(v) in tables && tables[P1(v)] == pt && f <= FLAG_MASK
      modifies words
      ensures Valid()
      ensures Now() == Put(old(Now()), P1(v), I1(v), Entry(BitOr(Leaf(old(Now()), v).frame, p % FRAMES), f))
    {
      hide Tables.Valid, Frames, FreeFrames, Ready, AllEncodable, Encodable;
      ghost var s := Now();
      EncodableAt(s, P1(v), I1(v));
      ShapedFrames(s);
      var e := Load(pt, I1(v));
      EncodableWrites(e, p, f);
      e := Entry(BitOr(e.frame, p % FRAMES), f);
      PutEncodable(s, P1(v), I1(v), e);
      PutLeaf(s, v, e);
      Store(pt, I1(v), e);
    }

    /** paging_map_page: page `v` is mapped to frame `p`, of whose number a descriptor holds 40 bits.
        False when frames or section nodes ran out on the way. */
    method MapPage(v: nat, p: nat, flags: Word) returns (ok: bool)
      requires Valid() && v < PAGES
      modifies this`tables, words, pmm, pmm.nodes
      ensures Valid() && FreeFrames() <= old(FreeFrames())
      ensures OnlyTaken(old(pmm.view), pmm.view)
      ensures !ok ==> Cut(old(Now()), Now()) && Exhausted()
      ensures ok ==> Mapped(old(Now()), Now(), v, p % FRAMES, flags * FLAG_MASK)
      decreases FreeFrames(), 1
    {
      hide Tables.Valid, Frames, FreeFrames, Ready, Exhausted, Cut, Grew, Mapped, Descended, PathHas, AllEncodable,
        Encodable, OnlyTaken;
      var f := flags * FLAG_MASK;
      ghost var s := Now();
      RootTable(s);
      var pdp: nat, pd: nat, pt: nat;
      ok, pdp := Descend(pml4, I4(v), f, Root, v);
      if !ok {
        return;
      }
      ghost var s1, view1 := Now(), pmm.view;
      DescendedStep(s, s1, Root, I4(v), pdp, v, f);
      ok, pd := Descend(pdp, I3(v), f, P3(v), v);
      OnlyTakenTrans(old(pmm.view), view1, pmm.view);
      if !ok {
        CutAfterGrew(s, s1, Now(), v, f);
        return;
      }
      ghost var s2, view2 := Now(), pmm.view;
      DescendedStep(s1, s2, P3(v), I3(v), pd, v, f);
      GrewTrans(s, s1, s2, v, f);
      ok, pt := Descend(pd, I2(v), f, P2(v), v);
      OnlyTakenTrans(old(pmm.view), view2, pmm.view);
      if !ok {
        CutAfterGrew(s, s2, Now(), v, f);
        return;
      }
      ghost var s3 := Now();
      ThreeLevels(s, s1, s2, s3, pdp, pd, pt, v, f);
      WriteLeaf(pt, v, p, f);
      MappedByLeaf(s, s3, v, p % FRAMES, f);
      return true;
    }

    /** The walk down to the leaf table of page `v`, given up at the first absent descriptor. */
    method LeafTable(v: nat) returns (present: bool, pt: nat)
      requires Valid() && v < PAGES
      ensures present <==> P1(v) in tables
      ensures present ==> tables[P1(v)] == pt && pt < words.Length0
    {
      hide Tables.Valid, Frames, FreeFrames, Ready;
      ghost var s := Now();
      RootTable(s);
      PathDown(s, v);
      var e := Load(pml4, I4(v));
      if !Present(e) {
        return false, 0;
      }
      e := Load(e.frame, I3(v));
      if !Present(e) {
        return false, 0;
      }
      e := Load(e.frame, I2(v));
      if !Present(e) {
        return false, 0;
      }
      return true, e.frame;
    }

    /** paging_walk_page: the frame in the leaf of page `v`, 0 when a table is missing. */
    method WalkPage(v: nat) returns (frame: nat)
      requires Valid() && v < PAGES
      ensures frame == Leaf(Now(), v).frame
    {
      var present, pt := LeafTable(v);
      if !present {
        return 0;
      }
      var e := Load(pt, I1(v));
      return e.frame;
    }

    /** paging_unmap_page: the leaf of page `v` is cleared, and nothing else changes. */
    method UnmapPage(v: nat)
      requires Valid() && v < PAGES
      modifies words
      ensures Valid() && FreeFrames() == old(FreeFrames())
      ensures Now() == Unmapped(old(Now()), v)
    {
      hide Tables.Valid, Frames, FreeFrames, Ready;
      ghost var s := Now();
      var present, pt := LeafTable(v);
      if !present {
        return;
      }
      PutLeaf(s, v, ZERO);
      PutEncodable(s, P1(v), I1(v), ZERO);
      Store(pt, I1(v), ZERO);
    }

    /** paging_remap_page: the leaf of page `from` moves to page `to`.  `moved` is false when `from`
        has no leaf table. */
    method RemapPage(from: nat, to: nat) returns (ok: bool, moved: bool)
      requires Valid() && from < PAGES && to < PAGES
      modifies this`tables, words, pmm, pmm.nodes
      ensures Valid()
      ensures moved <==> P1(from) in old(tables)
      ensures !moved ==> ok && Now() == old(Now())
      ensures moved && ok ==>
        Mapped(Unmapped(old(Now()), from), Now(), to, Leaf(old(Now()), from).frame, Leaf(old(Now()), from).flags)
      ensures !ok ==> Cut(Unmapped(old(Now()), from), Now()) && Exhausted()
    {
      hide Tables.Valid, Frames, FreeFrames, Ready, Exhausted, Cut, Mapped;
      ghost var s := Now();
      var present, pt := LeafTable(from);
      if !present {
        return true, false;
      }
      var e := Load(pt, I1(from));
      EncodableAt(s, P1(from), I1(from));
      EncodableWrites(e, 0, {});
      UnmapPage(from);
      ok := MapPage(to, e.frame, e.flags);
      moved := true;
    }

    // -------------------------------------------------------------------------------------------
    // paging_reload_kernel_map.

    /** The parts of the invariant that the kernel map is built under. */
    ghost predicate Building(map_: MemoryMap, image: Image)
      reads this, words, pmm, pmm.nodes
    {
      Valid() && KernelMaps.Building(Now(), map_, image)
    }

    /** MapPage on a page that is to be mapped so. */
    method MapIntended(map_: MemoryMap, image: Image, v: nat, p: nat) returns (ok: bool)
      requires Building(map_, image) && Apart(map_, image) && v < PAGES && Intended(map_, image, v) == p
      modifies this`tables, words, pmm, pmm.nodes
      ensures !ok ==> Exhausted()
      ensures ok ==> Building(map_, image) && Done(Now(), map_, image, v) && Keeps(old(Now()), Now(), map_, image)
    {
      hide Tables.Valid, Frames, FreeFrames, Ready, Exhausted, Cut, Mapped, KernelMaps.Building, Done, Keeps, Intended,
        Apart;
      ghost var s := Now();
      KernelFlags();
      IntendedNarrow(map_, image, v);
      FortyBitFrame(p);
      ok := MapPage(v, p, KERNEL_PAGE);
      if ok {
        StepBuilds(s, Now(), map_, image, v, p);
      }
    }

    /** One entry of the memory map: each page at its own address and in the higher half. */
    method MapEntryPages(map_: MemoryMap, image: Image, n: nat) returns (ok: bool)
      requires Building(map_, image) && Apart(map_, image) && n < |map_| && map_[n].signal != MapNoUse
      requires EntriesDone(Now(), map_, image, n)
      modifies this`tables, words, pmm, pmm.nodes
      ensures !ok ==> Exhausted()
      ensures ok ==> Building(map_, image) && EntriesDone(Now(), map_, image, n + 1)
    {
      hide Tables.Valid, Frames, FreeFrames, Ready, Exhausted, KernelMaps.Building, Done, Keeps, Intended, Usable;
      var e := map_[n];
      var t := e.base;
      while t < e.End()
        invariant e.base <= t <= e.End()
        invariant Building(map_, image)
        invariant EntriesDone(Now(), map_, image, n) && SpanDone(Now(), map_, image, e.base, t)
      {
        assert Usable(map_, t) by {
          EntryUsable(map_, n, t);
        }
        IntendedSelf(map_, image, t);
        ghost var s := Now();
        ok := MapIntended(map_, image, t, t);
        if !ok {
          return;
        }
        ghost var s1 := Now();
        ProgressKept(s, s1, map_, image, n, e.base, t);
        ok := MapIntended(map_, image, t + HIGHER_HALF, t);
        if !ok {
          return;
        }
        ProgressKept(s1, Now(), map_, image, n, e.base, t);
        DoneKept(s1, Now(), map_, image, t);
        t := t + 1;
      }
      return true;
    }

    /** The kernel image where it was linked. */
    method MapImage(map_: MemoryMap, image: Image) returns (ok: bool)
      requires Building(map_, image) && Apart(map_, image) && EntriesDone(Now(), map_, image, |map_|)
      modifies this`tables, words, pmm, pmm.nodes
      ensures !ok ==> Exhausted()
      ensures ok ==> Building(map_, image) && EntriesDone(Now(), map_, image, |map_|)
      ensures ok ==> ImageDone(Now(), map_, image, image.pages)
    {
      hide Tables.Valid, Frames, FreeFrames, Ready, Exhausted, KernelMaps.Building, Done, Keeps, Usable;
      var t := 0;
      while t < image.pages
        invariant t <= image.pages
        invariant Building(map_, image)
        invariant EntriesDone(Now(), map_, image, |map_|) && ImageDone(Now(), map_, image, t)
      {
        ghost var s := Now();
        ok := MapIntended(map_, image, image.virt + t, image.phys + t);
        if !ok {
          return;
        }
        ProgressKept(s, Now(), map_, image, |map_|, 0, 0);
        ImageKept(s, Now(), map_, image, t);
        t := t + 1;
      }
      return true;
    }

    /** The first frame of the new address space, zeroed. */
    method NewRoot(map_: MemoryMap, image: Image) returns (ok: bool)
      requires Ready() && words.Length1 == 512 && |pmm.view| <= words.Length0 <= PAGES
      requires forall t :: t in FreeFrames() ==> Usable(map_, t)
      modifies this, words, pmm, pmm.nodes
      ensures !ok ==> Exhausted()
      ensures ok ==> Building(map_, image) && tables == map[Root := pml4] && Usable(map_, pml4)
    {
      ok, pml4 := AllocFrame();
      if !ok {
        return;
      }
      ZeroFrame(pml4);
      tables := map[Root := pml4];
      FreshBuilds(Now(), map_, image);
    }

    method MapEntries(map_: MemoryMap, image: Image) returns (ok: bool)
      requires Building(map_, image) && Apart(map_, image)
      modifies this`tables, words, pmm, pmm.nodes
      ensures !ok ==> Exhausted()
      ensures ok ==> Building(map_, image) && EntriesDone(Now(), map_, image, |map_|)
    {
      hide Tables.Valid, Frames, FreeFrames, Ready, Exhausted, KernelMaps.Building, Done, Usable;
      for i := 0 to |map_|
        invariant Building(map_, image) && EntriesDone(Now(), map_, image, i)
      {
        if map_[i].signal != MapNoUse {
          ok := MapEntryPages(map_, image, i);
          if !ok {
            return;
          }
        }
      }
      return true;
    }

    /** paging_reload_kernel_map: `cr3` is the value that it loads. */
    method ReloadKernelMap(map_: MemoryMap, image: Image) returns (ok: bool, cr3: nat)
      requires Ready() && words.Length1 == 512 && |pmm.view| <= words.Length0 <= PAGES
      requires Apart(map_, image) && forall t :: t in FreeFrames() ==> Usable(map_, t)
      modifies this, words, pmm, pmm.nodes
      ensures !ok ==> Exhausted()
      ensures ok ==> Valid() && Reloaded(Now(), map_, image) && cr3 == pml4
      ensures ok ==> KernelSpace(Now(), map_, image)
    {
      hide Tables.Valid, Frames, Ready, Exhausted, KernelMaps.Building, Usable, Reloaded, EntriesDone, ImageDone, Apart,
        KernelSpace;
      cr3 := 0;
      ok := NewRoot(map_, image);
      if ok {
        ok := MapEntries(map_, image);
        if ok {
          ok := MapImage(map_, image);
          if ok {
            BuildingAgrees(Now(), map_, image);
            AllDone(Now(), map_, image);
            ReloadedSpace(Now(), map_, image);
            RootMapsToItself(Now(), map_, image);
            cr3 := WalkPage(pml4);
          }
        }
      }
    }
  }
}
