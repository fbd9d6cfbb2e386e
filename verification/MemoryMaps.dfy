/** The memory map that the boot code hands to the kernel, in pages: the section list that pmm_start
    builds from it, when that list shows the map, and the bookkeeping memory reserved for its nodes. */
module MemoryMaps {
  import opened Sections

  datatype Signal = MapFree | MapBusy | MapMmio | MapNoUse | Unknown

  datatype MapEntry = MapEntry(base: nat, length: nat, signal: Signal) {
    function End(): nat { base + length }
    predicate Holds(p: nat) { base <= p < End() }
  }

  type MemoryMap = seq<MapEntry>

  const MEGABYTE := 256                 // in pages

  /** pmm_interpret_signal. */
  function Interpret(signal: Signal): Kind {
    match signal
    case MapBusy => USED
    case MapFree => FREE
    case MapMmio => BAD
    case MapNoUse => BAD
    case Unknown => BAD
  }

  /** Entry 0 is the first megabyte, marked unusable, and no entry reaches the end of 64-bit memory. */
  predicate FromBoot(map_: MemoryMap) {
    && |map_| > 0
    && map_[0] == MapEntry(0, MEGABYTE, MapNoUse)
    && forall i :: 0 <= i < |map_| ==> map_[i].End() < SPAN
  }

  /** Entries that are not empty do not overlap. */
  predicate Disjoint(map_: MemoryMap) {
    forall i, j :: 0 <= i < j < |map_| && map_[i].length > 0 && map_[j].length > 0 ==>
      map_[i].End() <= map_[j].base || map_[j].End() <= map_[i].base
  }

  // ---------------------------------------------------------------------------------------------
  // The list that pmm_start builds.

  /** The entry whose section is the last one after `n` entries. */
  function Current(map_: MemoryMap, n: nat): (c: nat)
    requires 0 < n <= |map_|
    ensures c < n
  {
    if n == 1 then 0
    else
      var c := Current(map_, n - 1);
      if map_[n - 1].base == map_[c].base then c else n - 1
  }

  /** An entry gets no section when the last section starts where it does. */
  predicate Skipped(map_: MemoryMap, i: nat)
    requires i < |map_|
  {
    i > 0 && map_[i].base == map_[Current(map_, i)].base
  }

  /** Where the last section ends. */
  function EndOf(map_: MemoryMap, n: nat): nat
    requires 0 < n <= |map_|
  {
    map_[Current(map_, n)].End()
  }

  /** The sections that an entry adds behind one that ends at `end`: its own, in node `node`, and before
      it one for the gap, if any.  Byte lengths wrap, and so does a gap of negative length. */
  function Tail(end: nat, e: MapEntry, node: nat): seq<Run> {
    var own := Run(node, e.base, e.length, Interpret(e.signal));
    var at := end % SPAN;
    if at == e.base then [own] else [Run(node + 1, at, (e.base - at) % SPAN, BAD), own]
  }

  /** The number of nodes handed out for `n` entries. */
  function Nodes(map_: MemoryMap, n: nat): nat
    requires 0 < n <= |map_|
  {
    if n == 1 then 1
    else if Skipped(map_, n - 1) then Nodes(map_, n - 1)
    else Nodes(map_, n - 1) + |Tail(EndOf(map_, n - 1), map_[n - 1], Nodes(map_, n - 1))|
  }

  /** The sections that the entries from the `m`-th to the `n`-th add. */
  function Added(map_: MemoryMap, m: nat, n: nat): seq<Run>
    requires 0 < m <= n <= |map_|
  {
    if n == m then []
    else if Skipped(map_, n - 1) then Added(map_, m, n - 1)
    else Added(map_, m, n - 1) + Tail(EndOf(map_, n - 1), map_[n - 1], Nodes(map_, n - 1))
  }

  /** One BAD section up to where the section of the last of `m` entries ends. */
  function Head(map_: MemoryMap, m: nat): Run
    requires 0 < m <= |map_|
  {
    Run(0, 0, EndOf(map_, m), BAD)
  }

  function Built(map_: MemoryMap, n: nat): (runs: seq<Run>)
    requires 0 < n <= |map_|
    ensures |runs| > 0 && runs[0].node == 0
  {
    [Head(map_, 1)] + Added(map_, 1, n)
  }

  /** The last section belongs to the current entry, and all nodes up to the next are on the list. */
  lemma {:induction false} BuiltLast(map_: MemoryMap, n: nat)
    requires FromBoot(map_) && 0 < n <= |map_|
    ensures var r, e := Built(map_, n)[|Built(map_, n)| - 1], map_[Current(map_, n)];
      r.start == e.base && r.pages == e.length && r.kind == Interpret(e.signal)
    ensures |Built(map_, n)| == Nodes(map_, n)
  {
    if n > 1 {
      BuiltLast(map_, n - 1);
    }
  }

  lemma {:induction false} AddedSplits(map_: MemoryMap, m: nat, n: nat)
    requires 0 < m <= n <= |map_|
    ensures Added(map_, 1, n) == Added(map_, 1, m) + Added(map_, m, n)
    decreases n
  {
    hide Tail, Nodes, EndOf, Skipped;
    if n > m {
      AddedSplits(map_, m, n - 1);
    }
  }

  /** An entry adds its sections. */
  lemma {:induction false} BuiltStep(map_: MemoryMap, n: nat)
    requires FromBoot(map_) && 0 < n < |map_|
    ensures Built(map_, n + 1) == if Skipped(map_, n) then Built(map_, n)
      else Built(map_, n) + Tail(EndOf(map_, n), map_[n], |Built(map_, n)|)
  {
    BuiltLast(map_, n);
    hide Tail, Skipped;
  }

  lemma {:induction false} BuiltFirst(map_: MemoryMap)
    requires FromBoot(map_)
    ensures Built(map_, 1) == [Run(0, 0, MEGABYTE, BAD)]
  {
  }

  /** The list only grows. */
  lemma {:induction false} BuiltRises(map_: MemoryMap, n: nat)
    requires FromBoot(map_) && 0 < n <= |map_|
    ensures |Built(map_, n)| <= |Built(map_, |map_|)|
    decreases |map_| - n
  {
    hide Built, Tail;
    if n < |map_| {
      BuiltStep(map_, n);
      BuiltRises(map_, n + 1);
    }
  }

  /** What pmm_start does at an entry, from the last section alone. */
  lemma {:induction false} BuiltNext(map_: MemoryMap, n: nat)
    requires FromBoot(map_) && 0 < n < |map_|
    ensures var runs, e := Built(map_, n), map_[n];
      var last := runs[|runs| - 1];
      && (e.base == last.start ==> Built(map_, n + 1) == runs)
      && (e.base != last.start ==> Built(map_, n + 1) == runs + Tail(last.End(), e, |runs|))
    ensures |Built(map_, n + 1)| <= |Built(map_, |map_|)|
  {
    hide Built, Tail;
    BuiltStep(map_, n);
    BuiltLast(map_, n);
    BuiltRises(map_, n + 1);
  }

  // ---------------------------------------------------------------------------------------------
  // What the list shows.

  /** From the `m`-th entry on, none that gets a section starts before the end of the one before. */
  predicate InOrder(map_: MemoryMap, m: nat, n: nat)
    requires 0 < m <= n <= |map_|
  {
    forall i :: m <= i < n && !Skipped(map_, i) ==> EndOf(map_, i) <= map_[i].base
  }

  /** No entry of free memory or memory in use is skipped, unless it is empty. */
  predicate NoneLost(map_: MemoryMap) {
    forall i :: 0 <= i < |map_| && Skipped(map_, i) ==> map_[i].length == 0 || Interpret(map_[i].signal) == BAD
  }

  /** Among the first `n` entries, entry `i` has a section that is not BAD and holds page `p`. */
  predicate Gives(map_: MemoryMap, n: nat, i: nat, p: nat)
    requires n <= |map_|
  {
    i < n && !Skipped(map_, i) && map_[i].Holds(p) && Interpret(map_[i].signal) != BAD
  }

  /** A page is FREE or USED exactly when an entry with a section says so. */
  ghost predicate ShowsKept(map_: MemoryMap, n: nat, view: PageMap)
    requires n <= |map_|
  {
    && (forall i: nat, p: nat :: Gives(map_, n, i, p) ==> p < |view| && view[p] == Interpret(map_[i].signal))
    && forall p: nat :: p < |view| && view[p] != BAD ==> exists i: nat :: Gives(map_, n, i, p)
  }

  predicate Says(map_: MemoryMap, i: nat, p: nat) {
    i < |map_| && map_[i].Holds(p) && Interpret(map_[i].signal) != BAD
  }

  /** A page is FREE or USED exactly when an entry says so. */
  ghost predicate ShowsMap(map_: MemoryMap, view: PageMap) {
    && (forall i: nat, p: nat :: Says(map_, i, p) ==> p < |view| && view[p] == Interpret(map_[i].signal))
    && forall p: nat :: p < |view| && view[p] != BAD ==> exists i: nat :: Says(map_, i, p)
  }

  function Gap(from: nat, to: nat): nat {
    if from <= to then to - from else 0
  }

  /** The page map that the entries from the `m`-th on draw behind the BAD pages before them. */
  function Drawn(map_: MemoryMap, m: nat, n: nat): PageMap
    requires 0 < m <= n <= |map_|
  {
    if n == m then Stretch(EndOf(map_, m), BAD)
    else if Skipped(map_, n - 1) then Drawn(map_, m, n - 1)
    else
      var view, e := Drawn(map_, m, n - 1), map_[n - 1];
      view + Stretch(Gap(|view|, e.base), BAD) + Stretch(e.length, Interpret(e.signal))
  }

  lemma TailTiles(runs: seq<Run>, view: PageMap, e: MapEntry, node: nat)
    requires Tiles(runs, view) && |view| <= e.base && e.End() < SPAN
    ensures Tiles(runs + Tail(|view|, e, node),
                  view + Stretch(Gap(|view|, e.base), BAD) + Stretch(e.length, Interpret(e.signal)))
  {
    hide Tiles, Stretch;
    var gap, own := Run(node + 1, |view|, e.base - |view|, BAD), Run(node, e.base, e.length, Interpret(e.signal));
    AppendTiles(runs, view, gap);
    if |view| == e.base {
      NoStretch(view);
      AppendTiles(runs, view, own);
    } else {
      StretchLength(view, e.base - |view|);
      AppendTiles(runs + [gap], view + Stretch(e.base - |view|, BAD), own);
      assert runs + [gap] + [own] == runs + [gap, own];
    }
  }

  lemma NoStretch(view: PageMap)
    ensures view + Stretch(0, BAD) == view
  {
  }

  lemma StretchLength(view: PageMap, n: nat)
    ensures |view + Stretch(n, BAD)| == |view| + n
  {
  }

  /** In order, the entries draw a page map, and their sections tile it. */
  lemma {:induction false} DrawnTiles(map_: MemoryMap, m: nat, n: nat)
    requires FromBoot(map_) && 0 < m <= n <= |map_| && InOrder(map_, m, n)
    ensures |Drawn(map_, m, n)| == EndOf(map_, n)
    ensures Tiles([Head(map_, m)] + Added(map_, m, n), Drawn(map_, m, n))
    decreases n
  {
    hide Tiles, Tail, InOrder, Added, Head, Nodes, Skipped, EndOf;
    if n == m {
      HeadTiles(map_, m);
    } else {
      OrderAt(map_, m, n);
      DrawnTiles(map_, m, n - 1);
      AddedStep(map_, m, n);
      EndStep(map_, n);
      if !Skipped(map_, n - 1) {
        TailTiles([Head(map_, m)] + Added(map_, m, n - 1), Drawn(map_, m, n - 1), map_[n - 1], Nodes(map_, n - 1));
      }
    }
  }

  lemma {:induction false} AddedStep(map_: MemoryMap, m: nat, n: nat)
    requires 0 < m < n <= |map_|
    ensures [Head(map_, m)] + Added(map_, m, n) ==
      if Skipped(map_, n - 1) then [Head(map_, m)] + Added(map_, m, n - 1)
      else [Head(map_, m)] + Added(map_, m, n - 1) + Tail(EndOf(map_, n - 1), map_[n - 1], Nodes(map_, n - 1))
  {
    hide Tail, Nodes, Skipped, EndOf, Head;
  }

  lemma {:induction false} EndStep(map_: MemoryMap, n: nat)
    requires FromBoot(map_) && 1 < n <= |map_|
    ensures EndOf(map_, n) == if Skipped(map_, n - 1) then EndOf(map_, n - 1) else map_[n - 1].End()
    ensures map_[n - 1].End() < SPAN
  {
  }

  lemma {:induction false} OrderAt(map_: MemoryMap, m: nat, n: nat)
    requires 0 < m < n <= |map_| && InOrder(map_, m, n)
    ensures InOrder(map_, m, n - 1)
    ensures !Skipped(map_, n - 1) ==> EndOf(map_, n - 1) <= map_[n - 1].base
  {
  }

  lemma {:induction false} HeadTiles(map_: MemoryMap, m: nat)
    requires 0 < m <= |map_|
    ensures Tiles([Head(map_, m)] + Added(map_, m, m), Drawn(map_, m, m)) && |Drawn(map_, m, m)| == EndOf(map_, m)
  {
    assert [Head(map_, m)] + [] == [Head(map_, m)];
  }

  /** And that page map shows them, when no entry before the `m`-th is FREE or USED memory. */
  lemma {:induction false} DrawnShows(map_: MemoryMap, m: nat, n: nat)
    requires FromBoot(map_) && 0 < m <= n <= |map_| && InOrder(map_, m, n)
    requires forall i: nat, p: nat :: !Gives(map_, m, i, p)
    ensures ShowsKept(map_, n, Drawn(map_, m, n))
    decreases n
  {
    hide ShowsKept, Gives, Stretch, Tiles, EndOf, Skipped, InOrder, FromBoot, Added, Head;
    if n == m {
      ShowsNone(map_, m, EndOf(map_, m));
    } else {
      OrderAt(map_, m, n);
      DrawnShows(map_, m, n - 1);
      DrawnTiles(map_, m, n - 1);
      if Skipped(map_, n - 1) {
        ShowsSkipped(map_, n - 1, Drawn(map_, m, n - 1));
      } else {
        DrawnMore(map_, n - 1, Drawn(map_, m, n - 1));
      }
    }
  }

  lemma {:induction false} ShowsNone(map_: MemoryMap, m: nat, end: nat)
    requires m <= |map_| && forall i: nat, p: nat :: !Gives(map_, m, i, p)
    ensures ShowsKept(map_, m, Stretch(end, BAD))
  {
  }

  lemma {:induction false} ShowsSkipped(map_: MemoryMap, n: nat, view: PageMap)
    requires n < |map_| && ShowsKept(map_, n, view) && Skipped(map_, n)
    ensures ShowsKept(map_, n + 1, view)
  {
    var more := n + 1;
    forall i: nat, p: nat
      ensures Gives(map_, more, i, p) <==> Gives(map_, n, i, p)
    {
    }
    hide Gives;
    forall p: nat | p < |view| && view[p] != BAD
      ensures exists i: nat :: Gives(map_, more, i, p)
    {
      var i: nat :| Gives(map_, n, i, p);
      assert Gives(map_, more, i, p);
    }
  }

  lemma {:induction false} DrawnMore(map_: MemoryMap, n: nat, view: PageMap)
    requires n < |map_| && ShowsKept(map_, n, view) && !Skipped(map_, n) && |view| <= map_[n].base
    ensures ShowsKept(map_, n + 1, view + Stretch(Gap(|view|, map_[n].base), BAD)
                                        + Stretch(map_[n].length, Interpret(map_[n].signal)))
  {
    var e, more := map_[n], n + 1;
    var view' := view + Stretch(Gap(|view|, e.base), BAD) + Stretch(e.length, Interpret(e.signal));
    assert forall p :: 0 <= p < |view'| ==>
      view'[p] == if p < |view| then view[p] else if p < e.base then BAD else Interpret(e.signal);
    forall i: nat, p: nat
      ensures Gives(map_, more, i, p) <==>
        Gives(map_, n, i, p) || (i == n && e.base <= p < |view'| && Interpret(e.signal) != BAD)
    {
    }
    hide Stretch, Gives;
    forall p: nat | p < |view'| && view'[p] != BAD
      ensures exists i: nat :: Gives(map_, more, i, p)
    {
      if p < |view| {
        var i: nat :| Gives(map_, n, i, p);
        assert Gives(map_, more, i, p);
      } else {
        assert Gives(map_, more, n, p);
      }
    }
  }

  // ---------------------------------------------------------------------------------------------
  // When it shows the memory map.

  lemma {:induction false} TilesInOrder(map_: MemoryMap, n: nat, view: PageMap)
    requires FromBoot(map_) && 0 < n <= |map_| && Tiles(Built(map_, n), view)
    ensures InOrder(map_, 1, n)
  {
    hide Tiles, Built, Skipped, EndOf, InOrder, FromBoot;
    if n > 1 {
      var runs, before := Built(map_, n), Built(map_, n - 1);
      BuiltGrows(map_, n - 1);
      PrefixTiles(runs, view, |before|);
      TilesInOrder(map_, n - 1, view[..runs[|before| - 1].End()]);
      if !Skipped(map_, n - 1) {
        PairInOrder(runs, view, |before| - 1, |runs| - 1);
      }
      OrderStep(map_, n);
    } else {
      OrderNone(map_);
    }
  }

  lemma {:induction false} OrderNone(map_: MemoryMap)
    requires |map_| > 0
    ensures InOrder(map_, 1, 1)
  {
  }

  lemma {:induction false} OrderStep(map_: MemoryMap, n: nat)
    requires 1 < n <= |map_| && InOrder(map_, 1, n - 1)
    requires Skipped(map_, n - 1) || EndOf(map_, n - 1) <= map_[n - 1].base
    ensures InOrder(map_, 1, n)
  {
  }

  lemma PairInOrder(runs: seq<Run>, view: PageMap, j: nat, k: nat)
    requires Tiles(runs, view) && j < k < |runs|
    ensures runs[j].End() <= runs[k].start
  {
  }

  lemma {:induction false} BuiltGrows(map_: MemoryMap, n: nat)
    requires FromBoot(map_) && 0 < n < |map_|
    ensures |Built(map_, n)| <= |Built(map_, n + 1)| && Built(map_, n + 1)[..|Built(map_, n)|] == Built(map_, n)
    ensures Built(map_, n + 1)[|Built(map_, n)| - 1].End() == EndOf(map_, n)
    ensures !Skipped(map_, n) ==> |Built(map_, n)| < |Built(map_, n + 1)|
    ensures !Skipped(map_, n) ==> Built(map_, n + 1)[|Built(map_, n + 1)| - 1].start == map_[n].base
  {
    BuiltStep(map_, n);
    BuiltLast(map_, n);
    hide Skipped, Built;
  }

  /** The list that pmm_start builds shows the memory map exactly when no entry that gets a section
      starts before the end of the one before, and no entry of free memory or memory in use starts
      where the last section does, unless it is empty. */
  lemma {:induction false} BuiltShowsMap(map_: MemoryMap)
    requires FromBoot(map_) && Disjoint(map_)
    ensures (exists view :: Tiles(Built(map_, |map_|), view) && ShowsMap(map_, view))
      <==> InOrder(map_, 1, |map_|) && NoneLost(map_)
  {
    hide Tiles, ShowsMap, InOrder, NoneLost, Built;
    forall view | Tiles(Built(map_, |map_|), view) && ShowsMap(map_, view)
      ensures InOrder(map_, 1, |map_|) && NoneLost(map_)
    {
      TilesInOrder(map_, |map_|, view);
      BuiltView(map_, view);
      ShownThenNoneLost(map_, view);
    }
    if InOrder(map_, 1, |map_|) && NoneLost(map_) {
      BuiltDraws(map_);
      NoneLostThenShown(map_, Drawn(map_, 1, |map_|));
    }
  }

  lemma {:induction false} BuiltDraws(map_: MemoryMap)
    requires FromBoot(map_) && InOrder(map_, 1, |map_|)
    ensures Tiles(Built(map_, |map_|), Drawn(map_, 1, |map_|)) && ShowsKept(map_, |map_|, Drawn(map_, 1, |map_|))
  {
    DrawnTiles(map_, 1, |map_|);
    DrawnShows(map_, 1, |map_|);
  }

  lemma {:induction false} BuiltView(map_: MemoryMap, view: PageMap)
    requires FromBoot(map_) && InOrder(map_, 1, |map_|) && Tiles(Built(map_, |map_|), view)
    ensures ShowsKept(map_, |map_|, view)
  {
    hide Tiles, InOrder, ShowsKept, Built;
    BuiltDraws(map_);
    ViewIsUnique(Built(map_, |map_|), view, Drawn(map_, 1, |map_|));
  }

  lemma {:induction false} ShownThenNoneLost(map_: MemoryMap, view: PageMap)
    requires FromBoot(map_) && Disjoint(map_) && ShowsKept(map_, |map_|, view) && ShowsMap(map_, view)
    ensures NoneLost(map_)
  {
    forall j | 0 <= j < |map_| && map_[j].length > 0 && Interpret(map_[j].signal) != BAD
      ensures !Skipped(map_, j)
    {
      var p := map_[j].base;
      assert Says(map_, j, p);
      var i: nat :| Gives(map_, |map_|, i, p);
      OneSays(map_, i, j, p);
    }
  }

  lemma {:induction false} OneSays(map_: MemoryMap, i: nat, j: nat, p: nat)
    requires Disjoint(map_) && Gives(map_, |map_|, i, p) && Says(map_, j, p)
    ensures i == j
  {
  }

  lemma {:induction false} NoneLostThenShown(map_: MemoryMap, view: PageMap)
    requires NoneLost(map_) && ShowsKept(map_, |map_|, view)
    ensures ShowsMap(map_, view)
  {
    forall i: nat, p: nat
      ensures Says(map_, i, p) <==> Gives(map_, |map_|, i, p)
    {
    }
    hide Says, Gives;
    forall p: nat | p < |view| && view[p] != BAD
      ensures exists i: nat :: Says(map_, i, p)
    {
      var i: nat :| Gives(map_, |map_|, i, p);
      assert Says(map_, i, p);
    }
  }

  /** An empty entry below the first megabyte, as limine_reinterpret leaves them, and free memory. */
  const STARTS_BELOW: MemoryMap :=
    [MapEntry(0, MEGABYTE, MapNoUse), MapEntry(0x52, 0, MapNoUse), MapEntry(0x100, 0x1000, MapFree),
     MapEntry(0x1100, 0x100, MapBusy)]

  /** The gap before it wraps, and the list does not tile. */
  lemma GapWraps()
    ensures FromBoot(STARTS_BELOW) && Disjoint(STARTS_BELOW) && NoneLost(STARTS_BELOW)
    ensures !InOrder(STARTS_BELOW, 1, 4) && Built(STARTS_BELOW, 2)[1] == Run(2, 256, SPAN - 174, BAD)
  {
    var m := STARTS_BELOW;
    assert Current(m, 1) == 0 && Current(m, 2) == 1 && Current(m, 3) == 2;
    assert !Skipped(m, 1) && EndOf(m, 1) == 256;
    assert Added(m, 1, 2) == Added(m, 1, 1) + Tail(256, m[1], 1);
  }

  /** An entry that limine_reinterpret has cut down to nothing at the first megabyte, and free memory
      behind it. */
  const STARTS_TOGETHER: MemoryMap :=
    [MapEntry(0, MEGABYTE, MapNoUse), MapEntry(0x100, 0, MapBusy), MapEntry(0x100, 0x1000, MapFree),
     MapEntry(0x1100, 0x100, MapBusy)]

  lemma TogetherSteps()
    ensures !Skipped(STARTS_TOGETHER, 1) && Skipped(STARTS_TOGETHER, 2) && !Skipped(STARTS_TOGETHER, 3)
    ensures EndOf(STARTS_TOGETHER, 1) == 0x100 && EndOf(STARTS_TOGETHER, 3) == 0x100
  {
    var m := STARTS_TOGETHER;
    assert Current(m, 1) == 0 && Current(m, 2) == 1 && Current(m, 3) == 1;
  }

  lemma TogetherBoots()
    ensures FromBoot(STARTS_TOGETHER) && Disjoint(STARTS_TOGETHER)
  {
  }

  /** The free memory gets no section. */
  lemma EntryLost()
    ensures FromBoot(STARTS_TOGETHER) && Disjoint(STARTS_TOGETHER) && InOrder(STARTS_TOGETHER, 1, 4)
    ensures Skipped(STARTS_TOGETHER, 2) && !NoneLost(STARTS_TOGETHER)
  {
    hide Skipped, EndOf, Current, FromBoot, Disjoint;
    TogetherSteps();
    TogetherBoots();
    assert Interpret(STARTS_TOGETHER[2].signal) == FREE && STARTS_TOGETHER[2].length > 0;
  }

  // ---------------------------------------------------------------------------------------------
  // Merging the list sets the gaps right that wrap among the entries below the first megabyte.

  predicate Junk(e: MapEntry) {
    e.base < MEGABYTE && e.length == 0 && Interpret(e.signal) == BAD
  }

  /** The number of entries up to the last of those that limine_reinterpret has emptied. */
  function Clamped(map_: MemoryMap, n: nat): (m: nat)
    requires 0 < n <= |map_|
    ensures n <= m <= |map_| && forall i :: n <= i < m ==> Junk(map_[i])
    decreases |map_| - n
  {
    if n < |map_| && Junk(map_[n]) then Clamped(map_, n + 1) else n
  }

  lemma {:induction false} JunkCoalesces(map_: MemoryMap, n: nat)
    requires FromBoot(map_) && 0 < n <= |map_| && forall i :: 1 <= i < n ==> Junk(map_[i])
    ensures EndOf(map_, n) <= MEGABYTE && Coalesce(Built(map_, n)) == [Head(map_, n)]
  {
    hide Tail, Coalesce, Skipped, Built, Head, EndOf, FromBoot;
    if n == 1 {
      BuiltFirst(map_);
      HeadFirst(map_);
      CoalesceOne(Head(map_, 1));
    } else {
      JunkCoalesces(map_, n - 1);
      JunkBuilds(map_, n);
    }
  }

  lemma {:induction false} HeadFirst(map_: MemoryMap)
    requires FromBoot(map_)
    ensures Head(map_, 1) == Run(0, 0, MEGABYTE, BAD) && EndOf(map_, 1) == MEGABYTE
  {
  }

  lemma {:induction false} JunkBuilds(map_: MemoryMap, n: nat)
    requires FromBoot(map_) && 1 < n <= |map_| && Junk(map_[n - 1]) && EndOf(map_, n - 1) <= MEGABYTE
    requires Coalesce(Built(map_, n - 1)) == [Head(map_, n - 1)]
    ensures EndOf(map_, n) <= MEGABYTE && Coalesce(Built(map_, n)) == [Head(map_, n)]
  {
    hide Tail, Coalesce, Skipped, Built, EndOf, FromBoot, Current;
    BuiltStep(map_, n - 1);
    EndStep(map_, n);
    if !Skipped(map_, n - 1) {
      JunkStep(Built(map_, n - 1), EndOf(map_, n - 1), map_[n - 1], |Built(map_, n - 1)|);
    }
  }

  lemma CoalesceOne(r: Run)
    ensures Coalesce([r]) == [r]
  {
  }

  lemma JunkStep(runs: seq<Run>, end: nat, e: MapEntry, node: nat)
    requires |runs| > 0 && Coalesce(runs) == [Run(0, 0, end, BAD)] && end <= MEGABYTE && Junk(e)
    ensures Coalesce(runs + Tail(end, e, node)) == [Run(0, 0, e.base, BAD)]
  {
    hide Coalesce, Tail;
    TailOfJunk(end, e, node);
    var tail, own := Tail(end, e, node), Run(node, e.base, 0, BAD);
    if end != e.base {
      PushBad(runs, end, tail[0], e.base);
      assert runs + tail == runs + [tail[0]] + [own];
    }
    PushBad(if end == e.base then runs else runs + [tail[0]], e.base, own, e.base);
  }

  lemma TailOfJunk(end: nat, e: MapEntry, node: nat)
    requires end <= MEGABYTE && Junk(e)
    ensures var tail, own := Tail(end, e, node), Run(node, e.base, 0, BAD);
      if end == e.base then tail == [own]
      else |tail| == 2 && tail == [tail[0]] + [own] && tail[0].kind == BAD && (end + tail[0].pages) % SPAN == e.base
  {
    GapBack(end, e.base);
  }

  lemma PushBad(runs: seq<Run>, end: nat, r: Run, end': nat)
    requires |runs| > 0 && Coalesce(runs) == [Run(0, 0, end, BAD)] && r.kind == BAD && (end + r.pages) % SPAN == end'
    ensures Coalesce(runs + [r]) == [Run(0, 0, end', BAD)]
  {
    hide Coalesce;
    CoalescePush(runs, r);
    PushOne(Run(0, 0, end, BAD), r);
  }

  lemma GapBack(end: nat, base: nat)
    requires base < SPAN && end < SPAN
    ensures (end + (base - end) % SPAN) % SPAN == base
  {
  }

  lemma CoalescePush(runs: seq<Run>, r: Run)
    requires |runs| > 0
    ensures Coalesce(runs + [r]) == Push(Coalesce(runs), r)
  {
    assert (runs + [r])[..|runs|] == runs;
  }

  /** The page map that pmm_start works with. */
  function Shown(map_: MemoryMap): PageMap
    requires |map_| > 0
  {
    Drawn(map_, Clamped(map_, 1), |map_|)
  }

  /** What pmm_start needs of a memory map so that the merged list can be worked with: the entries behind
      the emptied ones are in order, the last section is not FREE, no other section is left empty, and
      some page is not BAD. */
  predicate Sound(map_: MemoryMap)
    requires |map_| > 0
  {
    && InOrder(map_, Clamped(map_, 1), |map_|)
    && Interpret(map_[Current(map_, |map_|)].signal) != FREE
    && Filled(Coalesce(Built(map_, |map_|)))
    && exists i :: 0 <= i < |map_| && Gives(map_, |map_|, i, map_[i].base)
  }

  lemma {:induction false} NoneGivenByJunk(map_: MemoryMap, m: nat)
    requires FromBoot(map_) && 0 < m <= |map_| && forall i :: 1 <= i < m ==> Junk(map_[i])
    ensures forall i: nat, p: nat :: !Gives(map_, m, i, p)
  {
  }

  /** The page map shows the entries that got a section. */
  lemma {:induction false} KeptAreShown(map_: MemoryMap)
    requires FromBoot(map_) && Sound(map_)
    ensures |Shown(map_)| == EndOf(map_, |map_|) < SPAN
    ensures ShowsKept(map_, |map_|, Shown(map_)) && NotAllBad(Shown(map_))
    ensures NoneLost(map_) ==> ShowsMap(map_, Shown(map_))
  {
    hide Tiles, Filled, ShowsKept, ShowsMap, InOrder, Built, Coalesce, Drawn, NotAllBad, Added, NoneLost;
    var n, m := |map_|, Clamped(map_, 1);
    DrawnTiles(map_, m, n);
    NoneGivenByJunk(map_, m);
    DrawnShows(map_, m, n);
    SomeGiven(map_, Shown(map_));
    if NoneLost(map_) {
      NoneLostThenShown(map_, Shown(map_));
    }
  }

  /** The merged list tiles it, and can be worked with. */
  lemma {:induction false} MergedShows(map_: MemoryMap)
    requires FromBoot(map_) && Sound(map_)
    ensures Tiles(Coalesce(Built(map_, |map_|)), Shown(map_)) && Settled(Coalesce(Built(map_, |map_|)))
  {
    hide Tiles, Filled, ShowsKept, ShowsMap, InOrder, Built, Coalesce, Drawn, NotAllBad, Settled, Added, Alternating,
      NoneLost;
    var n, m := |map_|, Clamped(map_, 1);
    KeptAreShown(map_);
    DrawnTiles(map_, m, n);
    MergedIsFolded(map_);
    MergedEnds(map_);
    CoalesceTiles([Head(map_, m)] + Added(map_, m, n), Shown(map_));
    StillSettled(Coalesce(Built(map_, n)), Shown(map_));
  }

  /** The page map that pmm_start goes on with is that of the memory map exactly when no entry is lost. */
  lemma {:induction false} MergedShowsMap(map_: MemoryMap)
    requires FromBoot(map_) && Disjoint(map_) && Sound(map_)
    ensures ShowsMap(map_, Shown(map_)) <==> NoneLost(map_)
  {
    hide Sound, Shown, ShowsMap, ShowsKept, NoneLost, Disjoint;
    KeptAreShown(map_);
    if ShowsMap(map_, Shown(map_)) {
      ShownThenNoneLost(map_, Shown(map_));
    }
  }

  lemma {:induction false} MergedEnds(map_: MemoryMap)
    requires FromBoot(map_)
    ensures var s := Coalesce(Built(map_, |map_|));
      s[0].node == 0 && s[0].kind == BAD && s[|s| - 1].kind == Interpret(map_[Current(map_, |map_|)].signal)
  {
    BuiltLast(map_, |map_|);
    CoalesceEnds(Built(map_, |map_|));
  }

  lemma {:induction false} MergedIsFolded(map_: MemoryMap)
    requires FromBoot(map_)
    ensures var m := Clamped(map_, 1);
      Coalesce(Built(map_, |map_|)) == Coalesce([Head(map_, m)] + Added(map_, m, |map_|))
  {
    hide Built, Coalesce, Head;
    var m, n := Clamped(map_, 1), |map_|;
    JunkCoalesces(map_, m);
    CoalesceOne(Head(map_, m));
    BuiltParts(map_, m, n);
    CoalescePrefix(Built(map_, m), [Head(map_, m)], Added(map_, m, n));
  }

  lemma {:induction false} BuiltParts(map_: MemoryMap, m: nat, n: nat)
    requires 0 < m <= n <= |map_|
    ensures Built(map_, n) == Built(map_, m) + Added(map_, m, n)
  {
    AddedSplits(map_, m, n);
  }

  lemma {:induction false} SomeGiven(map_: MemoryMap, view: PageMap)
    requires |map_| > 0 && Sound(map_) && ShowsKept(map_, |map_|, view)
    ensures NotAllBad(view)
  {
    var i: nat :| i < |map_| && Gives(map_, |map_|, i, map_[i].base);
    assert map_[i].base < |view| && view[map_[i].base] != BAD;
  }

  /** In order, no section starts before the end of one that an earlier entry got. */
  lemma {:induction false} EndsRise(map_: MemoryMap, m: nat, i: nat, n: nat)
    requires 0 < m <= n <= |map_| && InOrder(map_, m, n)
    requires i < n && !Skipped(map_, i) && (i >= m || Current(map_, m) == i)
    ensures map_[i].End() <= EndOf(map_, n)
    decreases n
  {
    hide InOrder;
    if n > m {
      OrderAt(map_, m, n);
      if i < n - 1 {
        EndsRise(map_, m, i, n - 1);
      }
    }
  }

  /** A section of a later entry starts behind that of free memory. */
  lemma {:induction false} LaterEntries(map_: MemoryMap, h: nat, i: nat)
    requires FromBoot(map_) && Sound(map_) && h < i < |map_| && map_[h].signal == MapFree
    requires !Skipped(map_, h) && !Skipped(map_, i)
    ensures map_[h].End() <= map_[i].base
  {
    hide InOrder, Skipped, EndOf, Current, Filled, Built, Coalesce, Gives;
    var m := Clamped(map_, 1);
    assert h >= m;
    OrderUpTo(map_, m, i, |map_|);
    EndsRise(map_, m, h, i);
  }

  lemma {:induction false} OrderUpTo(map_: MemoryMap, m: nat, i: nat, n: nat)
    requires 0 < m <= i < n <= |map_| && InOrder(map_, m, n) && !Skipped(map_, i)
    ensures InOrder(map_, m, i) && EndOf(map_, i) <= map_[i].base
  {
  }

  /** From the `m`-th entry on, only free memory gets an empty section. */
  predicate NoneEmpty(map_: MemoryMap, m: nat, n: nat)
    requires 0 < m <= n <= |map_|
  {
    forall i :: m <= i < n && !Skipped(map_, i) ==> map_[i].length > 0 || Interpret(map_[i].signal) == FREE
  }

  lemma {:induction false} AddedFilled(map_: MemoryMap, m: nat, n: nat)
    requires FromBoot(map_) && 0 < m <= n <= |map_| && InOrder(map_, m, n) && NoneEmpty(map_, m, n)
    requires EndOf(map_, m) > 0
    ensures Filled([Head(map_, m)] + Added(map_, m, n))
    decreases n
  {
    hide Filled, Added, Nodes, Skipped, EndOf, Tail, InOrder, Head;
    if n == m {
      HeadFilled(map_, m);
    } else {
      OrderAt(map_, m, n);
      NoneEmptyAt(map_, m, n);
      AddedFilled(map_, m, n - 1);
      AddedStep(map_, m, n);
      if !Skipped(map_, n - 1) {
        TailFilled([Head(map_, m)] + Added(map_, m, n - 1), EndOf(map_, n - 1), map_[n - 1], Nodes(map_, n - 1));
      }
    }
  }

  lemma {:induction false} HeadFilled(map_: MemoryMap, m: nat)
    requires 0 < m <= |map_| && EndOf(map_, m) > 0
    ensures Filled([Head(map_, m)] + Added(map_, m, m))
  {
  }

  lemma {:induction false} NoneEmptyAt(map_: MemoryMap, m: nat, n: nat)
    requires 0 < m < n <= |map_| && NoneEmpty(map_, m, n)
    ensures NoneEmpty(map_, m, n - 1)
    ensures !Skipped(map_, n - 1) ==> map_[n - 1].length > 0 || Interpret(map_[n - 1].signal) == FREE
  {
  }

  lemma TailFilled(runs: seq<Run>, end: nat, e: MapEntry, node: nat)
    requires Filled(runs) && end <= e.base < SPAN && (e.length > 0 || Interpret(e.signal) == FREE)
    ensures Filled(runs + Tail(end, e, node))
  {
  }

  /** A memory map whose entries behind the emptied ones are in order and not empty, whose last section is
      not FREE, and that has some page that is not BAD, is sound. */
  lemma {:induction false} SoundWhen(map_: MemoryMap, i: nat)
    requires FromBoot(map_) && InOrder(map_, Clamped(map_, 1), |map_|) && NoneEmpty(map_, Clamped(map_, 1), |map_|)
    requires EndOf(map_, Clamped(map_, 1)) > 0 && Interpret(map_[Current(map_, |map_|)].signal) != FREE
    requires i < |map_| && Gives(map_, |map_|, i, map_[i].base)
    ensures Sound(map_)
  {
    hide Tiles, Filled, InOrder, NoneEmpty, Built, Coalesce, Drawn, Added, Alternating, Current, Gives;
    var n, m := |map_|, Clamped(map_, 1);
    AddedFilled(map_, m, n);
    DrawnTiles(map_, m, n);
    MergedIsFolded(map_);
    EndBelow(map_, n);
    CoalesceTiles([Head(map_, m)] + Added(map_, m, n), Drawn(map_, m, n));
  }

  lemma {:induction false} EndBelow(map_: MemoryMap, m: nat)
    requires FromBoot(map_) && 0 < m <= |map_|
    ensures EndOf(map_, m) < SPAN
  {
  }

  // ---------------------------------------------------------------------------------------------
  // Free memory.

  function FreePages(map_: MemoryMap): nat {
    if map_ == [] then 0
    else FreePages(map_[..|map_| - 1]) + (if map_[|map_| - 1].signal == MapFree then map_[|map_| - 1].length else 0)
  }

  lemma {:induction false} FreePagesPush(map_: MemoryMap, e: MapEntry)
    ensures FreePages(map_ + [e]) == FreePages(map_) + (if e.signal == MapFree then e.length else 0)
  {
    assert (map_ + [e])[..|map_|] == map_;
  }

  /** The free memory of the entries among the first `n` that get a section. */
  function FreeKept(map_: MemoryMap, n: nat): nat
    requires n <= |map_|
  {
    if n == 0 then 0
    else
      var e := map_[n - 1];
      FreeKept(map_, n - 1) + (if e.signal == MapFree && !Skipped(map_, n - 1) then e.length else 0)
  }

  /** All of it, when no entry is lost. */
  lemma {:induction false} FreeKeptAll(map_: MemoryMap, n: nat)
    requires n <= |map_| && NoneLost(map_)
    ensures FreeKept(map_, n) == FreePages(map_[..n])
  {
    hide Skipped;
    if n > 0 {
      FreeKeptAll(map_, n - 1);
      assert map_[..n][..n - 1] == map_[..n - 1];
      assert Skipped(map_, n - 1) ==> map_[n - 1].length == 0 || Interpret(map_[n - 1].signal) == BAD;
    }
  }

  lemma {:induction false} FreeKeptNone(map_: MemoryMap, m: nat)
    requires FromBoot(map_) && 0 < m <= |map_| && forall i :: 1 <= i < m ==> Junk(map_[i])
    ensures FreeKept(map_, m) == 0
  {
    if m > 1 {
      FreeKeptNone(map_, m - 1);
    }
  }

  /** The page map has the free memory of the entries that get a section. */
  lemma {:induction false} CountDrawn(map_: MemoryMap, m: nat, n: nat)
    requires FromBoot(map_) && 0 < m <= n <= |map_| && FreeKept(map_, m) == 0
    ensures Count(Drawn(map_, m, n)) == FreeKept(map_, n)
    decreases n
  {
    hide Count, Stretch, Skipped, EndOf;
    if n == m {
      CountStretch([], EndOf(map_, m), BAD);
      CountNone();
      assert [] + Stretch(EndOf(map_, m), BAD) == Stretch(EndOf(map_, m), BAD);
    } else {
      CountDrawn(map_, m, n - 1);
      var view, e := Drawn(map_, m, n - 1), map_[n - 1];
      CountStretch(view, Gap(|view|, e.base), BAD);
      CountStretch(view + Stretch(Gap(|view|, e.base), BAD), e.length, Interpret(e.signal));
    }
  }

  lemma CountNone()
    ensures Count([]) == 0
  {
  }

  lemma {:induction false} CountShown(map_: MemoryMap)
    requires FromBoot(map_)
    ensures Count(Shown(map_)) == FreeKept(map_, |map_|)
    ensures NoneLost(map_) ==> Count(Shown(map_)) == FreePages(map_)
  {
    FreeKeptNone(map_, Clamped(map_, 1));
    CountDrawn(map_, Clamped(map_, 1), |map_|);
    if NoneLost(map_) {
      FreeKeptAll(map_, |map_|);
      assert map_[..|map_|] == map_;
    }
  }

  // ---------------------------------------------------------------------------------------------
  // Bookkeeping memory.

  /** The number of 64-megabyte blocks of free memory, rounded up. */
  function Blocks(free: nat): nat {
    free / (64 * MEGABYTE) + (if free % (64 * MEGABYTE) != 0 then 1 else 0)
  }

  /** One megabyte for each of them. */
  function DataPages(free: nat): nat {
    Blocks(free) * (64 * MEGABYTE) / 64
  }

  const NODE_BYTES := 40                // sizeof(pmm_section_t)

  /** The nodes whose first byte lies in the bookkeeping memory. */
  function Capacity(pages: nat): nat {
    (pages * 0x1000 + NODE_BYTES - 1) / NODE_BYTES
  }

  /** The pages that hold a byte of one of them. */
  function NodePages(pages: nat): nat {
    (Capacity(pages) * NODE_BYTES + 0xFFF) / 0x1000
  }

  /** The bookkeeping memory is a 64th of the free memory, rounded up to whole blocks of 64 megabytes,
      which are 16384 pages. */
  lemma DataBounds(free: nat)
    ensures free <= 64 * DataPages(free) < free + 16384
    ensures DataPages(free) % 256 == 0
  {
    hide Blocks, DataPages;
    BlocksBound(free);
    WholeBlocks(free);
    WholeMegabytes(Blocks(free));
  }

  lemma BlocksBound(free: nat)
    ensures free <= 16384 * Blocks(free) < free + 16384
  {
  }

  lemma WholeBlocks(free: nat)
    ensures DataPages(free) == Blocks(free) * 256
  {
    hide Blocks;
  }

  lemma WholeMegabytes(n: nat)
    ensures n * 256 % 256 == 0
  {
  }

  /** The nodes lie within the bookkeeping memory exactly when the number of blocks is a multiple of
      five; otherwise the last one reaches into the page behind it. */
  lemma NodesFit(free: nat)
    ensures DataPages(free) == Blocks(free) * MEGABYTE
    ensures Capacity(DataPages(free)) * NODE_BYTES <= DataPages(free) * 0x1000 <==> Blocks(free) % 5 == 0
    ensures NodePages(DataPages(free)) == DataPages(free) + (if Blocks(free) % 5 == 0 then 0 else 1)
  {
    var blocks := Blocks(free);
    var q, r := blocks / 5, blocks % 5;
    assert blocks * MEGABYTE * 0x1000 == 40 * (131072 * q + 26214 * r) + 16 * r;
    assert (40 * (131072 * q + 26214 * r) + 16 * r + 39) / 40 == 131072 * q + 26214 * r + (16 * r + 39) / 40;
  }

  /** With 64 megabytes of free memory there are 26215 nodes, and the last of them has its last 24
      bytes in the page behind the 256 that are locked. */
  lemma LastNodeStraddles()
    ensures DataPages(64 * MEGABYTE) == 256 && Capacity(256) == 26215 && NodePages(256) == 257
    ensures 26215 * NODE_BYTES == 256 * 0x1000 + 24
  {
  }

  predicate Hosts(e: MapEntry, pages: nat) {
    e.signal == MapFree && e.length >= pages
  }

  lemma {:induction false} FreePagesHold(map_: MemoryMap, i: nat)
    requires i < |map_| && map_[i].signal == MapFree
    ensures FreePages(map_) >= map_[i].length
  {
    if i < |map_| - 1 {
      FreePagesHold(map_[..|map_| - 1], i);
    }
  }

  /** Bookkeeping memory is empty exactly when there is no free memory. */
  lemma DataFits(free: nat)
    ensures Capacity(DataPages(free)) > 0 <==> free > 0
    ensures DataPages(free) > 0 <==> free > 0
  {
  }

  /** When pmm_start comes to lock the pages of the list: some entry can hold it, there is a node for each
      section, and the merged list is one that the other calls can work with. */
  predicate Startable(map_: MemoryMap)
    requires |map_| > 0
  {
    && FreePages(map_) > 0
    && (exists h :: 0 <= h < |map_| && Hosts(map_[h], DataPages(FreePages(map_))))
    && |Built(map_, |map_|)| <= Capacity(DataPages(FreePages(map_)))
    && Sound(map_)
  }

  /** The list of STARTS_BELOW, step by step. */
  lemma BelowSteps()
    ensures var m := STARTS_BELOW;
      && !Skipped(m, 1) && !Skipped(m, 2) && !Skipped(m, 3) && Current(m, 4) == 3
      && EndOf(m, 1) == 0x100 && EndOf(m, 2) == 0x52 && EndOf(m, 3) == 0x1100
  {
    assert Current(STARTS_BELOW, 1) == 0 && Current(STARTS_BELOW, 2) == 1 && Current(STARTS_BELOW, 3) == 2;
  }

  lemma BelowBoots()
    ensures FromBoot(STARTS_BELOW) && Clamped(STARTS_BELOW, 1) == 2
  {
    assert Clamped(STARTS_BELOW, 2) == 2;
  }

  lemma BelowFree()
    ensures FreePages(STARTS_BELOW) == 0x1000
  {
    hide FreePages;
    var m := STARTS_BELOW;
    FreePagesPush([], m[0]);
    FreePagesPush([m[0]], m[1]);
    FreePagesPush([m[0], m[1]], m[2]);
    FreePagesPush([m[0], m[1], m[2]], m[3]);
    FreePagesNone();
    assert [] + [m[0]] == [m[0]] && [m[0]] + [m[1]] == [m[0], m[1]] && [m[0], m[1]] + [m[2]] == [m[0], m[1], m[2]];
    assert m == [m[0], m[1], m[2]] + [m[3]];
  }

  lemma FreePagesNone()
    ensures FreePages([]) == 0
  {
  }

  lemma BelowNodes()
    ensures |Built(STARTS_BELOW, 4)| == 6
  {
    hide Skipped, EndOf, Current, FromBoot, Built;
    BelowSteps();
    BelowBoots();
    BuiltLast(STARTS_BELOW, 4);
    assert Nodes(STARTS_BELOW, 2) == 3 && Nodes(STARTS_BELOW, 3) == 5;
  }

  /** Its list does not show the memory map before it is merged, but then it does, and pmm_start goes
      through. */
  lemma BelowStarts()
    ensures FromBoot(STARTS_BELOW) && Startable(STARTS_BELOW) && NoneLost(STARTS_BELOW)
    ensures DataPages(FreePages(STARTS_BELOW)) == 256
  {
    hide Skipped, EndOf, Current, FromBoot, Sound, Clamped, FreePages, Filled, Built, Coalesce;
    BelowSteps();
    BelowBoots();
    BelowFree();
    BelowNodes();
    LastNodeStraddles();
    assert Hosts(STARTS_BELOW[2], DataPages(FreePages(STARTS_BELOW)));
    assert Gives(STARTS_BELOW, 4, 2, 0x100);
    SoundWhen(STARTS_BELOW, 2);
  }

  /** The page map of the memory map, with the bookkeeping pages USED. */
  predicate Booted(map_: MemoryMap, data: nat, pages: nat, view: PageMap)
    requires |map_| > 0
  {
    Locked(Shown(map_), data, pages, view)
  }

  predicate Locked(plain: PageMap, page: nat, count: nat, view: PageMap) {
    && |view| == |plain|
    && forall p :: 0 <= p < |view| ==> view[p] == if page <= p < page + count then USED else plain[p]
  }

  /** An entry of this signal got a section, and it holds the page. */
  ghost predicate Sectioned(map_: MemoryMap, signal: Signal, p: nat) {
    exists i: nat :: i < |map_| && map_[i].signal == signal && !Skipped(map_, i)
      && map_[i].base <= p < map_[i].base + map_[i].length
  }

  /** The page map by the entries: USED is bookkeeping memory and memory in use, and FREE the free memory
      that is neither. */
  ghost predicate KindsOf(map_: MemoryMap, data: nat, pages: nat, view: PageMap) {
    forall p: nat :: p < |view| ==>
      && (view[p] == USED <==> data <= p < data + pages || Sectioned(map_, MapBusy, p))
      && (view[p] == FREE <==> !(data <= p < data + pages) && Sectioned(map_, MapFree, p))
  }

  lemma {:induction false} SectionedKind(map_: MemoryMap, signal: Signal, view: PageMap, p: nat)
    requires ShowsKept(map_, |map_|, view) && p < |view| && (signal == MapBusy || signal == MapFree)
    ensures Sectioned(map_, signal, p) <==> view[p] == (if signal == MapBusy then USED else FREE)
  {
    hide Skipped;
    if Sectioned(map_, signal, p) {
      var i: nat :| i < |map_| && map_[i].signal == signal && !Skipped(map_, i)
        && map_[i].base <= p < map_[i].base + map_[i].length;
      assert Gives(map_, |map_|, i, p);
    }
    if view[p] == (if signal == MapBusy then USED else FREE) {
      var i: nat :| Gives(map_, |map_|, i, p);
      assert map_[i].signal == signal;
    }
  }

  lemma {:induction false} BootedKinds(map_: MemoryMap, data: nat, pages: nat, view: PageMap)
    requires FromBoot(map_) && Sound(map_) && Booted(map_, data, pages, view)
    ensures KindsOf(map_, data, pages, view)
  {
    hide Sound, Shown, ShowsKept, ShowsMap, FromBoot, Sectioned;
    KeptAreShown(map_);
    forall p: nat | p < |view|
      ensures view[p] == USED <==> data <= p < data + pages || Sectioned(map_, MapBusy, p)
      ensures view[p] == FREE <==> !(data <= p < data + pages) && Sectioned(map_, MapFree, p)
    {
      SectionedKind(map_, MapBusy, Shown(map_), p);
      SectionedKind(map_, MapFree, Shown(map_), p);
    }
  }

  lemma {:induction false} HostIsKept(map_: MemoryMap, h: nat)
    requires NoneLost(map_) && h < |map_| && map_[h].signal == MapFree && map_[h].length > 0
    ensures !Skipped(map_, h)
  {
  }

  /** The pages of the host are FREE before they are locked, unless its entry is lost. */
  lemma {:induction false} HostIsFree(map_: MemoryMap, h: nat, pages: nat)
    requires FromBoot(map_) && Sound(map_) && NoneLost(map_) && h < |map_| && Hosts(map_[h], pages) && pages > 0
    ensures map_[h].base + pages <= |Shown(map_)|
    ensures forall p :: map_[h].base <= p < map_[h].base + pages ==> Shown(map_)[p] == FREE
  {
    KeptAreShown(map_);
    hide Sound, Shown, Skipped;
    assert !Skipped(map_, h);
    forall p | map_[h].base <= p < map_[h].base + pages
      ensures p < |Shown(map_)| && Shown(map_)[p] == FREE
    {
      assert Gives(map_, |map_|, h, p);
    }
    assert Gives(map_, |map_|, h, map_[h].base + pages - 1);
  }
}
