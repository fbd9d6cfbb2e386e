/** The address space that paging_reload_kernel_map builds: every usable page at its own address and
    again in the higher half, and the kernel image where it was linked. */
module KernelMaps {
  import opened Descriptors
  import opened Tables
  import opened Translations
  import opened MemoryMaps
  import opened Sections

  /** PAGING_VIRTUAL_OFFSET is 0xffff800000000000; its 36-bit page number. */
  const HIGHER_HALF: nat := 0x8_0000_0000

  /** The kernel image: where it is linked, where it was loaded, and its length, in pages. */
  datatype Image = Image(virt: nat, phys: nat, pages: nat)

  /** Some entry that is not marked unusable holds page `t`. */
  ghost predicate Usable(map_: MemoryMap, t: nat) {
    exists i :: 0 <= i < |map_| && map_[i].signal != MapNoUse && map_[i].Holds(t)
  }

  /** The three parts of the address space do not overlap, and the image lies in 52-bit memory. */
  ghost predicate Apart(map_: MemoryMap, image: Image) {
    && image.virt + image.pages <= PAGES && image.phys + image.pages <= FRAMES
    && forall i :: 0 <= i < |map_| ==> map_[i].End() <= HIGHER_HALF && HIGHER_HALF + map_[i].End() <= image.virt
  }

  /** The frame that page `w` is to be mapped to, or -1. */
  ghost function Intended(map_: MemoryMap, image: Image, w: nat): int {
    if image.virt <= w < image.virt + image.pages then image.phys + (w - image.virt)
    else if w < HIGHER_HALF then (if Usable(map_, w) then w else -1)
    else if Usable(map_, w - HIGHER_HALF) then w - HIGHER_HALF
    else -1
  }

  /** Every leaf is zero or holds the frame intended for it. */
  ghost predicate Agrees(s: State, map_: MemoryMap, image: Image)
    requires Shaped(s)
  {
    forall w :: 0 <= w < PAGES ==> Leaf(s, w) == ZERO || Leaf(s, w).frame == Intended(map_, image, w)
  }

  /** Page `w` is mapped to frame `p` with the rights of a kernel page. */
  ghost predicate MapsTo(s: State, w: nat, p: nat)
    requires Valid(s)
  {
    Leaf(s, w) == Entry(p, KERNEL_PAGE) && Rights(s, w) == KERNEL_PAGE
  }

  /** Page `w` is mapped as intended. */
  ghost predicate Done(s: State, map_: MemoryMap, image: Image, w: nat)
    requires Valid(s)
  {
    Intended(map_, image, w) >= 0 && MapsTo(s, w, Intended(map_, image, w))
  }

  /** What holds throughout: the frames still free are usable pages, and the leaves agree. */
  ghost predicate Building(s: State, map_: MemoryMap, image: Image) {
    && Valid(s)
    && (forall t :: t in s.free ==> Usable(map_, t))
    && Agrees(s, map_, image)
  }

  lemma BuildingAgrees(s: State, map_: MemoryMap, image: Image)
    requires Building(s, map_, image)
    ensures Shaped(s) && Agrees(s, map_, image)
  {
  }

  lemma IntendedSelf(map_: MemoryMap, image: Image, t: nat)
    requires Apart(map_, image) && Usable(map_, t)
    ensures t < HIGHER_HALF && HIGHER_HALF + t < image.virt
    ensures Intended(map_, image, t) == t
    ensures Intended(map_, image, HIGHER_HALF + t) == t
  {
  }

  lemma IntendedNarrow(map_: MemoryMap, image: Image, w: nat)
    requires Apart(map_, image) && w < PAGES
    ensures Intended(map_, image, w) < FRAMES
  {
  }

  /** A leaf that is written takes the frame intended for it, and the others stay. */
  lemma StepLeaf(s: State, s': State, map_: MemoryMap, image: Image, v: nat, p: nat, w: nat)
    requires Building(s, map_, image) && Apart(map_, image) && v < PAGES && w < PAGES
    requires Intended(map_, image, v) == p && Mapped(s, s', v, p, KERNEL_PAGE)
    ensures w == v || w in New(s, s') ==>
      Leaf(s', w).frame == Intended(map_, image, w) && Leaf(s', w).flags == KERNEL_PAGE
    ensures w != v && w !in New(s, s') ==> Leaf(s', w) == Leaf(s, w)
  {
    hide GatesBounded, PathHas, Gate, Rights, Leaf, Linked, GatesKept, TablesKept;
    if w == v {
      if v in New(s, s') {
        IntendedSelf(map_, image, v);
      }
    } else if w in New(s, s') {
      IntendedSelf(map_, image, w);
    }
  }

  /** Rights stay where the leaf stays, because the descriptors above only gain flags. */
  lemma StepRights(s: State, s': State, w: nat)
    requires Extends(s, s') && Leaf(s, w).flags == Leaf(s', w).flags == KERNEL_PAGE && Rights(s, w) == KERNEL_PAGE
    ensures Rights(s', w) == KERNEL_PAGE
  {
    hide Valid, FramesAccounted, TablesKept, Leaf;
    assert Gate(s, Root, I4(w)) <= Gate(s', Root, I4(w));
    assert Gate(s, P3(w), I3(w)) <= Gate(s', P3(w), I3(w));
    assert Gate(s, P2(w), I2(w)) <= Gate(s', P2(w), I2(w));
  }

  lemma StepKeeps(s: State, s': State, map_: MemoryMap, image: Image, v: nat, p: nat, w: nat)
    requires Building(s, map_, image) && Apart(map_, image) && v < PAGES && w < PAGES
    requires Intended(map_, image, v) == p && Mapped(s, s', v, p, KERNEL_PAGE)
    requires Done(s, map_, image, w)
    ensures Valid(s') && Done(s', map_, image, w)
  {
    hide Building, Extends, Leaf, Rights, GatesBounded, PathHas, Apart, Valid, Usable;
    MappedExtends(s, s', v, p, KERNEL_PAGE);
    StepLeaf(s, s', map_, image, v, p, w);
    StepRights(s, s', w);
  }

  lemma MappedExtends(s: State, s': State, v: nat, p: nat, f: Word)
    requires Mapped(s, s', v, p, f)
    ensures Extends(s, s') && Valid(s) && Valid(s') && s'.free <= s.free
  {
  }

  /** One call that maps a page as intended, and all the calls nested in it, keep the invariant,
      finish that page, and leave finished pages finished. */
  lemma StepBuilds(s: State, s': State, map_: MemoryMap, image: Image, v: nat, p: nat)
    requires Building(s, map_, image) && Apart(map_, image) && v < PAGES && Intended(map_, image, v) == p
    requires Mapped(s, s', v, p, KERNEL_PAGE)
    ensures Building(s', map_, image) && Done(s', map_, image, v) && Keeps(s, s', map_, image)
  {
    hide Leaf, Valid, Extends, Mapped, Rights, Apart, Intended, Usable, Done;
    MappedExtends(s, s', v, p, KERNEL_PAGE);
    forall w | 0 <= w < PAGES
      ensures Leaf(s', w) == ZERO || Leaf(s', w).frame == Intended(map_, image, w)
    {
      StepLeaf(s, s', map_, image, v, p, w);
    }
    StepDone(s, s', map_, image, v, p);
    forall w | 0 <= w < PAGES && Done(s, map_, image, w)
      ensures Done(s', map_, image, w)
    {
      StepKeeps(s, s', map_, image, v, p, w);
    }
  }

  lemma StepDone(s: State, s': State, map_: MemoryMap, image: Image, v: nat, p: nat)
    requires Building(s, map_, image) && Apart(map_, image) && v < PAGES && Intended(map_, image, v) == p
    requires Mapped(s, s', v, p, KERNEL_PAGE)
    ensures Valid(s') && Done(s', map_, image, v)
  {
    hide Building, Extends, Leaf, Rights, Mapped, Apart, Intended, Valid;
    MappedExtends(s, s', v, p, KERNEL_PAGE);
    StepLeaf(s, s', map_, image, v, p, v);
    MappedRights(s, s', v, p, KERNEL_PAGE);
  }

  /** The state with a zeroed root table and nothing else. */
  ghost predicate Fresh(s: State) {
    && |s.mem| <= PAGES && s.root < |s.mem| && s.root !in s.free
    && s.tables == map[Root := s.root]
    && (forall f :: 0 <= f < |s.mem| ==> |s.mem[f]| == 512)
    && (forall f :: f in s.free ==> f < |s.mem|)
    && s.mem[s.root] == Blank()
  }

  lemma FreshBuilds(s: State, map_: MemoryMap, image: Image)
    requires Fresh(s) && forall t :: t in s.free ==> Usable(map_, t)
    ensures Building(s, map_, image) && AllEncodable(s)
  {
  }

  /** The pages that pmm_start leaves FREE are usable. */
  lemma {:induction false} BootedUsable(map_: MemoryMap, data: nat, pages: nat, view: PageMap, t: nat)
    requires FromBoot(map_) && Sound(map_) && Booted(map_, data, pages, view) && t < |view| && view[t] == FREE
    ensures Usable(map_, t)
  {
    hide Sound, Shown, Skipped;
    KeptAreShown(map_);
    assert Shown(map_)[t] == FREE;
    var i: nat :| Gives(map_, |map_|, i, t);
    assert map_[i].Holds(t);
  }

  /** The pages of the first `n` entries are mapped, in both halves. */
  ghost predicate EntriesDone(s: State, map_: MemoryMap, image: Image, n: nat)
    requires Valid(s)
  {
    forall i :: 0 <= i < n && i < |map_| && map_[i].signal != MapNoUse ==>
      SpanDone(s, map_, image, map_[i].base, map_[i].End())
  }

  ghost predicate SpanDone(s: State, map_: MemoryMap, image: Image, from: nat, to: nat)
    requires Valid(s)
  {
    forall t :: from <= t < to ==> BothDone(s, map_, image, t)
  }

  ghost predicate BothDone(s: State, map_: MemoryMap, image: Image, t: nat)
    requires Valid(s)
  {
    Done(s, map_, image, t) && Done(s, map_, image, HIGHER_HALF + t)
  }

  /** The first `n` pages of the kernel image are mapped. */
  ghost predicate ImageDone(s: State, map_: MemoryMap, image: Image, n: nat)
    requires Valid(s)
  {
    forall k :: 0 <= k < n ==> ImagePageDone(s, map_, image, k)
  }

  ghost predicate ImagePageDone(s: State, map_: MemoryMap, image: Image, k: nat)
    requires Valid(s)
  {
    Done(s, map_, image, image.virt + k)
  }

  ghost predicate ImagePage(s: State, image: Image, k: nat)
    requires Valid(s)
  {
    MapsTo(s, image.virt + k, image.phys + k)
  }

  /** What paging_reload_kernel_map promises: usable pages at their own address and in the higher
      half, the kernel image where it was linked, and no other page anywhere else. */
  ghost predicate Reloaded(s: State, map_: MemoryMap, image: Image) {
    && Valid(s)
    && Agrees(s, map_, image)
    && (forall t :: Usable(map_, t) ==> MapsTo(s, t, t) && MapsTo(s, HIGHER_HALF + t, t))
    && forall k :: 0 <= k < image.pages ==> ImagePage(s, image, k)
  }

  /** Page `w` translates to frame `p`, and all four levels allow the kernel to read and write it and keep
      user programs out: bits 0, 1 and 2 of a descriptor. */
  ghost predicate ForKernel(s: State, w: nat, p: nat)
    requires Valid(s)
  {
    Leaf(s, w).frame == p && 0 in Rights(s, w) && 1 in Rights(s, w) && 2 !in Rights(s, w)
  }

  lemma MapsForKernel(s: State, w: nat, p: nat)
    requires Valid(s) && MapsTo(s, w, p)
    ensures ForKernel(s, w, p)
  {
    FlagBits(Leaf(s, w));
  }

  /** Page `t` of memory is one to be mapped. */
  ghost predicate InMemory(map_: MemoryMap, t: int) {
    exists i :: 0 <= i < |map_| && map_[i].signal in {MapFree, MapBusy, MapMmio, Unknown}
      && map_[i].base <= t < map_[i].base + map_[i].length
  }

  /** Page `w` is neither memory at its own address or in the higher half, nor the image. */
  ghost predicate Elsewhere(map_: MemoryMap, image: Image, w: nat) {
    && w < 0x10_0000_0000
    && !InMemory(map_, w) && !InMemory(map_, w - 0x8_0000_0000)
    && !(image.virt <= w < image.virt + image.pages)
  }

  ghost predicate ImageForKernel(s: State, image: Image, k: nat)
    requires Valid(s)
  {
    ForKernel(s, image.virt + k, image.phys + k)
  }

  /** The kernel's address space, by addresses and bits. */
  ghost predicate KernelSpace(s: State, map_: MemoryMap, image: Image) {
    && Valid(s)
    && (forall t: nat :: InMemory(map_, t) ==> ForKernel(s, t, t) && ForKernel(s, 0x8_0000_0000 + t, t))
    && (forall k: nat :: k < image.pages ==> ImageForKernel(s, image, k))
    && forall w: nat :: Elsewhere(map_, image, w) ==> Leaf(s, w) == Entry(0, {})
  }

  lemma MemoryIsUsable(map_: MemoryMap, t: nat)
    ensures InMemory(map_, t) <==> Usable(map_, t)
  {
    if Usable(map_, t) {
      var i :| 0 <= i < |map_| && map_[i].signal != MapNoUse && map_[i].Holds(t);
      assert map_[i].signal in {MapFree, MapBusy, MapMmio, Unknown};
    }
    if InMemory(map_, t) {
      var i :| 0 <= i < |map_| && map_[i].signal in {MapFree, MapBusy, MapMmio, Unknown}
        && map_[i].base <= t < map_[i].base + map_[i].length;
      assert map_[i].Holds(t);
    }
  }

  lemma ElsewhereEmpty(s: State, map_: MemoryMap, image: Image, w: nat)
    requires Reloaded(s, map_, image) && Elsewhere(map_, image, w)
    ensures Leaf(s, w) == Entry(0, {})
  {
    hide Usable, InMemory, MapsTo;
    MemoryIsUsable(map_, w);
    if w >= HIGHER_HALF {
      MemoryIsUsable(map_, w - HIGHER_HALF);
    }
    assert Intended(map_, image, w) == -1;
  }

  /** What Reloaded comes to: memory twice and the image, for the kernel alone, and nothing else. */
  lemma ReloadedSpace(s: State, map_: MemoryMap, image: Image)
    requires Reloaded(s, map_, image)
    ensures KernelSpace(s, map_, image)
  {
    hide Rights, Leaf, InMemory, Usable, MapsTo, ForKernel, Elsewhere;
    forall t: nat | InMemory(map_, t)
      ensures ForKernel(s, t, t) && ForKernel(s, 0x8_0000_0000 + t, t)
    {
      MemoryIsUsable(map_, t);
      MapsForKernel(s, t, t);
      MapsForKernel(s, HIGHER_HALF + t, t);
    }
    forall k: nat | k < image.pages
      ensures ImageForKernel(s, image, k)
    {
      assert ImagePage(s, image, k);
      MapsForKernel(s, image.virt + k, image.phys + k);
    }
    forall w: nat | Elsewhere(map_, image, w)
      ensures Leaf(s, w) == Entry(0, {})
    {
      ElsewhereEmpty(s, map_, image, w);
    }
  }

  lemma AllDone(s: State, map_: MemoryMap, image: Image)
    requires Valid(s) && Apart(map_, image) && EntriesDone(s, map_, image, |map_|)
    requires ImageDone(s, map_, image, image.pages) && Agrees(s, map_, image)
    ensures Reloaded(s, map_, image)
  {
    hide Valid, MapsTo, Apart, Agrees;
    forall t | Usable(map_, t)
      ensures MapsTo(s, t, t) && MapsTo(s, HIGHER_HALF + t, t)
    {
      IntendedSelf(map_, image, t);
      var i :| 0 <= i < |map_| && map_[i].signal != MapNoUse && map_[i].Holds(t);
      assert SpanDone(s, map_, image, map_[i].base, map_[i].End());
      assert BothDone(s, map_, image, t);
    }
    forall k | 0 <= k < image.pages
      ensures ImagePage(s, image, k)
    {
      assert ImagePageDone(s, map_, image, k);
    }
  }

  /** The same pages are done in a later state. */
  ghost predicate Keeps(s: State, s': State, map_: MemoryMap, image: Image)
    requires Valid(s) && Valid(s')
  {
    forall w :: 0 <= w < PAGES && Done(s, map_, image, w) ==> Done(s', map_, image, w)
  }

  lemma ProgressKept(s: State, s': State, map_: MemoryMap, image: Image, n: nat, from: nat, to: nat)
    requires Valid(s) && Valid(s') && Keeps(s, s', map_, image) && Apart(map_, image)
    requires EntriesDone(s, map_, image, n) && SpanDone(s, map_, image, from, to) && to <= HIGHER_HALF
    ensures EntriesDone(s', map_, image, n) && SpanDone(s', map_, image, from, to)
  {
    hide Valid, Done;
    SpanKept(s, s', map_, image, from, to);
    forall i | 0 <= i < n && i < |map_| && map_[i].signal != MapNoUse
      ensures SpanDone(s', map_, image, map_[i].base, map_[i].End())
    {
      SpanKept(s, s', map_, image, map_[i].base, map_[i].End());
    }
  }

  lemma SpanKept(s: State, s': State, map_: MemoryMap, image: Image, from: nat, to: nat)
    requires Valid(s) && Valid(s') && Keeps(s, s', map_, image)
    requires SpanDone(s, map_, image, from, to) && to <= HIGHER_HALF
    ensures SpanDone(s', map_, image, from, to)
  {
    hide Valid, Done;
    forall t | from <= t < to
      ensures BothDone(s', map_, image, t)
    {
      assert BothDone(s, map_, image, t);
    }
  }

  lemma ImageKept(s: State, s': State, map_: MemoryMap, image: Image, n: nat)
    requires Valid(s) && Valid(s') && Keeps(s, s', map_, image) && Apart(map_, image) && n <= image.pages
    requires ImageDone(s, map_, image, n)
    ensures ImageDone(s', map_, image, n)
  {
    hide Valid, Done;
    forall k | 0 <= k < n
      ensures ImagePageDone(s', map_, image, k)
    {
      assert ImagePageDone(s, map_, image, k);
    }
  }

  lemma EntryUsable(map_: MemoryMap, i: nat, t: nat)
    requires i < |map_| && map_[i].signal != MapNoUse && map_[i].Holds(t)
    ensures Usable(map_, t)
  {
  }

  lemma DoneKept(s: State, s': State, map_: MemoryMap, image: Image, w: nat)
    requires Valid(s) && Valid(s') && Keeps(s, s', map_, image) && w < PAGES && Done(s, map_, image, w)
    ensures Done(s', map_, image, w)
  {
  }

  lemma RootMapsToItself(s: State, map_: MemoryMap, image: Image)
    requires Apart(map_, image) && Reloaded(s, map_, image) && Usable(map_, s.root)
    ensures s.root < HIGHER_HALF < PAGES && Valid(s) && Leaf(s, s.root).frame == s.root
  {
    assert MapsTo(s, s.root, s.root);
  }
}
