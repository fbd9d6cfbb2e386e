/** The start of the kernel: pmm_start and then paging_reload_kernel_map, on one memory map, after which
    the heap is ready for its first malloc. */
module Booting {
  import opened Descriptors
  import opened Tables
  import opened MemoryMaps
  import opened KernelMaps
  import opened Pmms
  import opened Mmus
  import opened HeapPages
  import opened Heaps
  import Segments

  /** The page tables that the kernel goes on with: every page of every usable entry at its own
      address and in the higher half, the kernel image where it was linked, and nothing else, all for
      the kernel to read and write and closed to user programs.  False
      when pmm_start did not come through, or page frames or section nodes ran out later. */
  method Boot(map_: MemoryMap, image: Image, memory: array2<Entry>) returns (out: Startup, ok: bool, mmu: Mmu)
    requires FromBoot(map_) && Apart(map_, image)
    requires memory.Length1 == 512 && memory.Length0 <= PAGES
    requires forall i :: 0 <= i < |map_| ==> map_[i].End() <= memory.Length0
    modifies memory
    ensures out.Started? <==> Startable(map_)
    ensures Startable(map_) && NoneLost(map_) ==> ok || mmu.Exhausted()
    ensures out == Started(Finished) ==> ok || mmu.Exhausted()
    ensures ok ==> mmu.Valid() && mmu.words == memory && Reloaded(mmu.Now(), map_, image)
    ensures ok ==> KernelSpace(mmu.Now(), map_, image)
  {
    hide KernelSpace, Sound, Mmu.Valid, Reloaded, Apart, Built, FreePages, DataPages, Capacity, NoneLost, Booted;
    var free := Pmm.SumFree(map_);
    DataFits(free);
    var pmm := new Pmm(Capacity(DataPages(free)));
    mmu := new Mmu(memory, pmm);
    var host, freeMemory;
    out, host, freeMemory := pmm.Start(map_);
    ok := out == Started(Finished);
    if ok {
      forall t | t in mmu.FreeFrames()
        ensures Usable(map_, t)
      {
        BootedUsable(map_, map_[host].base, DataPages(free), pmm.view, t);
      }
      var cr3;
      ok, cr3 := mmu.ReloadKernelMap(map_, image);
    }
  }

  /** The statics of allocator.c before the first malloc, on tables as Boot leaves them.  With at most
      a terabyte of memory the heap has room in its region for every frame there is. */
  method FirstHeap(map_: MemoryMap, image: Image, mmu: Mmu) returns (heap: Heap)
    requires |map_| > 0 && Apart(map_, image) && mmu.Valid() && Reloaded(mmu.Now(), map_, image)
    requires forall i :: 0 <= i < |map_| ==> map_[i].End() <= mmu.words.Length0
    requires mmu.words.Length0 <= HIGHER_HALF - HEAP_PAGE
    ensures fresh(heap) && heap.mmu == mmu && heap.Valid() && !heap.initialized
  {
    hide Mmu.Valid, Reloaded, Apart, Backed;
    heap := new Heap(mmu);
    ReloadedIsClear(mmu.Now(), map_, image);
    assert HEAP_BASE / Segments.PAGE == HEAP_PAGE;
  }
}
