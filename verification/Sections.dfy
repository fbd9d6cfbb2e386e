/** The run-length-encoded section list of the physical memory manager, as a value.

    A section list tiles the pages 0, 1, 2, ... of physical memory with runs of one kind; the page
    map it stands for gives the kind of every page.  This module holds the edits that pfa.c and
    pmm.c make to a section list and what each does to the page map.  Addresses are page aligned
    throughout, so all starts and lengths are counted in pages.
 */
module Sections {

  datatype Kind = USED | FREE | BAD

  /** A section: the array node that stores it, its first page, its length and its kind. */
  datatype Run = Run(node: nat, start: nat, pages: nat, kind: Kind) {
    function End(): nat { start + pages }
  }

  type PageMap = seq<Kind>

  /** Page `p` is the lowest FREE one. */
  predicate Lowest(view: PageMap, p: nat) {
    p < |view| && view[p] == FREE && FREE !in view[..p]
  }

  /** The sections follow each other without gap or overlap from page 0 to page `n`. */
  ghost predicate Chained(runs: seq<Run>, n: nat) {
    && |runs| > 0
    && runs[0].start == 0
    && runs[|runs| - 1].End() == n
    && (forall k :: 0 <= k < |runs| ==> runs[k].End() <= n)
    && (forall j, k :: 0 <= j < k < |runs| ==> runs[j].End() <= runs[k].start)
    && forall j, k :: 0 <= j < |runs| && 0 <= k < |runs| && k == j + 1 ==> runs[k].start == runs[j].End()
  }

  /** Each page of a section has the section's kind. */
  ghost predicate Shows(runs: seq<Run>, view: PageMap) {
    forall k, p :: 0 <= k < |runs| && runs[k].start <= p < runs[k].End() && p < |view| ==> view[p] == runs[k].kind
  }

  /** `runs` tiles the pages of `view`, and each page has its run's kind. */
  ghost predicate Tiles(runs: seq<Run>, view: PageMap) {
    Chained(runs, |view|) && Shows(runs, view)
  }

  ghost predicate Distinct(runs: seq<Run>) {
    forall j, k :: 0 <= j < k < |runs| ==> runs[j].node != runs[k].node
  }

  /** What the allocator relies on between calls: the first section is BAD and stored in node 0, the
      last is not FREE, only FREE sections may be empty, and no two neighbours are both FREE. */
  ghost predicate Settled(runs: seq<Run>) {
    && |runs| >= 2
    && runs[0].node == 0 && runs[0].kind == BAD
    && runs[|runs| - 1].kind != FREE
    && Filled(runs)
    && forall j, k :: 0 <= j < |runs| && 0 <= k < |runs| && k == j + 1 ==> runs[j].kind != FREE || runs[k].kind != FREE
  }

  /** Only FREE sections are empty. */
  predicate Filled(runs: seq<Run>) {
    forall k :: 0 <= k < |runs| && runs[k].kind != FREE ==> runs[k].pages > 0
  }

  /** Among the first `n` sections no two neighbours have one kind. */
  ghost predicate Alternating(runs: seq<Run>, n: nat) {
    forall j, k :: 0 <= j < |runs| && 0 <= k < |runs| && k < n && k == j + 1 ==> runs[j].kind != runs[k].kind
  }

  // ---------------------------------------------------------------------------------------------
  // The edits.

  function Paint(runs: seq<Run>, k: nat, kind: Kind): seq<Run>
    requires k < |runs|
  {
    runs[k := runs[k].(kind := kind)]
  }

  /** Section `k` ends at page `at`, and node `n` takes the rest. */
  function Split(runs: seq<Run>, k: nat, n: nat, at: nat): seq<Run>
    requires k < |runs| && runs[k].start <= at <= runs[k].End()
  {
    var r := runs[k];
    runs[..k] + [r.(pages := at - r.start), Run(n, at, r.End() - at, r.kind)] + runs[k + 1..]
  }

  /** The first page of section `k` moves to the section before it. */
  function ShiftDown(runs: seq<Run>, k: nat): seq<Run>
    requires 0 < k < |runs| && runs[k].pages > 0
  {
    var l, r := runs[k - 1], runs[k];
    runs[k - 1 := l.(pages := l.pages + 1)][k := r.(start := r.start + 1, pages := r.pages - 1)]
  }

  /** The last page of section `k` moves to the section after it. */
  function ShiftUp(runs: seq<Run>, k: nat): seq<Run>
    requires k + 1 < |runs| && runs[k].pages > 0 && runs[k + 1].start > 0
  {
    var l, r := runs[k], runs[k + 1];
    runs[k := l.(pages := l.pages - 1)][k + 1 := r.(start := r.start - 1, pages := r.pages + 1)]
  }

  /** Section `r` after section `k`. */
  function Insert(runs: seq<Run>, k: nat, r: Run): seq<Run>
    requires k < |runs|
  {
    runs[..k + 1] + [r] + runs[k + 1..]
  }

  function Drop(runs: seq<Run>, k: nat): seq<Run>
    requires k < |runs|
  {
    runs[..k] + runs[k + 1..]
  }

  /** The node of section `k` goes and the section after it takes its pages. */
  function MergeNext(runs: seq<Run>, k: nat): seq<Run>
    requires k + 1 < |runs|
  {
    var l, r := runs[k], runs[k + 1];
    Drop(runs[k + 1 := r.(start := l.start, pages := l.pages + r.pages)], k)
  }

  /** The node of section `k` goes and the section before it takes its pages. */
  function MergePrev(runs: seq<Run>, k: nat): seq<Run>
    requires 0 < k < |runs|
  {
    var l, r := runs[k - 1], runs[k];
    Drop(runs[k - 1 := l.(pages := l.pages + r.pages)], k)
  }

  /** Page counts that 64-bit byte lengths can tell apart. */
  const SPAN := 0x10_0000_0000_0000

  /** Section `k` takes the pages of the section after it, whose node goes; byte lengths wrap. */
  function Swallow(runs: seq<Run>, k: nat): seq<Run>
    requires k + 1 < |runs|
  {
    var l, r := runs[k], runs[k + 1];
    Drop(runs[k := l.(pages := (l.pages + r.pages) % SPAN)], k + 1)
  }

  lemma SwallowParts(runs: seq<Run>, k: nat)
    requires k + 1 < |runs|
    ensures |Swallow(runs, k)| == |runs| - 1
    ensures forall j :: 0 <= j <= k ==> Swallow(runs, k)[j].node == runs[j].node
    ensures forall j :: 0 <= j < k ==> Swallow(runs, k)[j] == runs[j]
    ensures Swallow(runs, k)[k].kind == runs[k].kind
  {
  }

  lemma SplitParts(runs: seq<Run>, k: nat, n: nat, at: nat)
    requires k < |runs| && runs[k].start <= at <= runs[k].End()
    ensures var s := Split(runs, k, n, at);
      && |s| == |runs| + 1
      && s[k] == runs[k].(pages := at - runs[k].start)
      && s[k + 1] == Run(n, at, runs[k].End() - at, runs[k].kind)
      && forall i :: 0 <= i < |s| && i != k && i != k + 1 ==> s[i] == runs[if i < k then i else i - 1]
  {
  }

  // ---------------------------------------------------------------------------------------------
  // What they do to the page map.

  /** Two neighbours redrawn over the same stretch of pages. */
  lemma Redraw(runs: seq<Run>, view: PageMap, view': PageMap, k: nat, l: Run, r: Run)
    requires Tiles(runs, view) && k + 1 < |runs| && |view'| == |view|
    requires l.start == runs[k].start && l.End() == r.start && r.End() == runs[k + 1].End()
    requires forall p :: 0 <= p < |view| ==>
      view'[p] == if l.start <= p < l.End() then l.kind else if r.start <= p < r.End() then r.kind else view[p]
    ensures Tiles(runs[k := l][k + 1 := r], view')
  {
    var s := runs[k := l][k + 1 := r];
    RedrawChained(runs, |view|, k, l, r);
    forall j, p | 0 <= j < |s| && s[j].start <= p < s[j].End() && p < |view|
      ensures view'[p] == s[j].kind
    {
      hide Shows;
      if j < k {
        assert s[j].End() <= l.start;
      } else if j > k + 1 {
        assert r.End() <= s[j].start;
      }
      assert j != k && j != k + 1 ==> s[j] == runs[j];
    }
  }

  lemma RedrawChained(runs: seq<Run>, n: nat, k: nat, l: Run, r: Run)
    requires Chained(runs, n) && k + 1 < |runs|
    requires l.start == runs[k].start && l.End() == r.start && r.End() == runs[k + 1].End()
    ensures Chained(runs[k := l][k + 1 := r], n)
  {
    assert runs[k + 1].start == runs[k].End();
  }

  /** An empty section after section `k` changes nothing. */
  lemma InsertTiles(runs: seq<Run>, view: PageMap, k: nat, r: Run)
    requires Tiles(runs, view) && k < |runs| && r.start == runs[k].End() && r.pages == 0
    ensures Tiles(Insert(runs, k, r), view)
  {
    hide Chained, Insert;
    InsertChained(runs, |view|, k, r);
    InsertParts(runs, k, r);
  }

  lemma InsertParts(runs: seq<Run>, k: nat, r: Run)
    requires k < |runs|
    ensures |Insert(runs, k, r)| == |runs| + 1 && Insert(runs, k, r)[k + 1] == r
    ensures forall j :: 0 <= j <= |runs| && j != k + 1 ==> Insert(runs, k, r)[j] == runs[if j <= k then j else j - 1]
  {
  }

  lemma InsertChained(runs: seq<Run>, n: nat, k: nat, r: Run)
    requires Chained(runs, n) && k < |runs| && r.start == runs[k].End() && r.pages == 0
    ensures Chained(Insert(runs, k, r), n)
  {
    hide Insert;
    InsertParts(runs, k, r);
    var s := Insert(runs, k, r);
    forall i, j | 0 <= i < j < |s|
      ensures s[i].End() <= s[j].start && (j == i + 1 ==> s[j].start == s[i].End())
    {
      var i', j' := if i <= k then i else i - 1, if j <= k then j else j - 1;
      assert i != k + 1 ==> s[i] == runs[i'];
      assert j != k + 1 ==> s[j] == runs[j'];
    }
  }

  /** An empty section can be dropped. */
  lemma DropTiles(runs: seq<Run>, view: PageMap, k: nat)
    requires Tiles(runs, view) && |runs| > 1 && k < |runs| && runs[k].pages == 0
    ensures Tiles(Drop(runs, k), view)
  {
    hide Chained, Shows, Drop;
    DropChained(runs, |view|, k);
    DropShows(runs, view, k);
  }

  lemma DropShows(runs: seq<Run>, view: PageMap, k: nat)
    requires Shows(runs, view) && k < |runs|
    ensures Shows(Drop(runs, k), view)
  {
    hide Drop;
    DropParts(runs, k);
  }

  lemma DropParts(runs: seq<Run>, k: nat)
    requires k < |runs|
    ensures |Drop(runs, k)| == |runs| - 1
    ensures forall j :: 0 <= j < |runs| - 1 ==> Drop(runs, k)[j] == runs[if j < k then j else j + 1]
  {
  }

  lemma DropChained(runs: seq<Run>, n: nat, k: nat)
    requires Chained(runs, n) && |runs| > 1 && k < |runs| && runs[k].pages == 0
    ensures Chained(Drop(runs, k), n)
  {
    hide Drop;
    DropParts(runs, k);
    var s := Drop(runs, k);
    forall i, j | 0 <= i < j < |s|
      ensures s[i].End() <= s[j].start && (j == i + 1 ==> s[j].start == s[i].End())
    {
      var i', j' := if i < k then i else i + 1, if j < k then j else j + 1;
      assert s[i] == runs[i'] && s[j] == runs[j'];
    }
    assert k > 0 ==> runs[k].start == runs[k - 1].End();
  }

  lemma SplitTiles(runs: seq<Run>, view: PageMap, k: nat, n: nat, at: nat)
    requires Tiles(runs, view) && k < |runs| && runs[k].start <= at <= runs[k].End()
    ensures Tiles(Split(runs, k, n, at), view)
  {
    var r := runs[k];
    var empty := Run(n, r.End(), 0, r.kind);
    InsertTiles(runs, view, k, empty);
    var s := Insert(runs, k, empty);
    Redraw(s, view, view, k, r.(pages := at - r.start), Run(n, at, r.End() - at, r.kind));
    hide Tiles;
    assert Split(runs, k, n, at) == s[k := r.(pages := at - r.start)][k + 1 := Run(n, at, r.End() - at, r.kind)];
  }

  lemma PaintTiles(runs: seq<Run>, view: PageMap, k: nat, kind: Kind)
    requires Tiles(runs, view) && k < |runs| && runs[k].pages == 1
    ensures runs[k].start < |view|
    ensures Tiles(Paint(runs, k, kind), view[runs[k].start := kind])
  {
    var s, view' := Paint(runs, k, kind), view[runs[k].start := kind];
    assert forall j :: 0 <= j < |s| ==> s[j].start == runs[j].start && s[j].pages == runs[j].pages;
    forall j, p | 0 <= j < |s| && s[j].start <= p < s[j].End() && p < |view|
      ensures view'[p] == s[j].kind
    {
      if j < k {
        assert runs[j].End() <= runs[k].start;
      } else if k < j {
        assert runs[k].End() <= runs[j].start;
      }
    }
  }

  lemma ShiftDownTiles(runs: seq<Run>, view: PageMap, k: nat)
    requires Tiles(runs, view) && 0 < k < |runs| && runs[k].pages > 0
    ensures runs[k].start < |view|
    ensures Tiles(ShiftDown(runs, k), view[runs[k].start := runs[k - 1].kind])
  {
    var s := ShiftDown(runs, k);
    Redraw(runs, view, view[runs[k].start := runs[k - 1].kind], k - 1, s[k - 1], s[k]);
  }

  lemma ShiftUpTiles(runs: seq<Run>, view: PageMap, k: nat)
    requires Tiles(runs, view) && k + 1 < |runs| && runs[k].pages > 0
    ensures 0 < runs[k + 1].start <= |view|
    ensures Tiles(ShiftUp(runs, k), view[runs[k + 1].start - 1 := runs[k + 1].kind])
  {
    assert runs[k + 1].start == runs[k].End();
    var s := ShiftUp(runs, k);
    Redraw(runs, view, view[runs[k + 1].start - 1 := runs[k + 1].kind], k, s[k], s[k + 1]);
  }

  lemma MergeNextTiles(runs: seq<Run>, view: PageMap, k: nat)
    requires Tiles(runs, view) && k + 1 < |runs| && runs[k].kind == runs[k + 1].kind
    ensures Tiles(MergeNext(runs, k), view)
  {
    hide Drop;
    var l, r := runs[k], runs[k + 1];
    var l', r' := l.(pages := 0), r.(start := l.start, pages := l.pages + r.pages);
    assert r.start == l.End();
    Redraw(runs, view, view, k, l', r');
    DropTiles(runs[k := l'][k + 1 := r'], view, k);
    DropAfterUpdate(runs[k + 1 := r'], k, l');
    assert runs[k := l'][k + 1 := r'] == runs[k + 1 := r'][k := l'];
  }

  lemma DropAfterUpdate(runs: seq<Run>, k: nat, r: Run)
    requires k < |runs|
    ensures Drop(runs[k := r], k) == Drop(runs, k)
  {
  }

  lemma MergePrevTiles(runs: seq<Run>, view: PageMap, k: nat)
    requires Tiles(runs, view) && 0 < k < |runs| && runs[k].kind == runs[k - 1].kind
    ensures Tiles(MergePrev(runs, k), view)
  {
    hide Drop;
    var l, r := runs[k - 1], runs[k];
    var l', r' := l.(pages := l.pages + r.pages), r.(start := r.End(), pages := 0);
    assert r.start == l.End();
    Redraw(runs, view, view, k - 1, l', r');
    DropTiles(runs[k - 1 := l'][k := r'], view, k);
    DropAfterUpdate(runs[k - 1 := l'], k, r');
  }

  // ---------------------------------------------------------------------------------------------
  // The page map as the abstraction of a list.

  /** The section that holds page `p`. */
  lemma {:induction false} SectionOf(runs: seq<Run>, view: PageMap, p: nat, from: nat) returns (k: nat)
    requires Tiles(runs, view) && p < |view| && from < |runs| && runs[from].start <= p
    ensures from <= k < |runs| && runs[k].start <= p < runs[k].End() && view[p] == runs[k].kind
    decreases |runs| - from
  {
    if p < runs[from].End() {
      k := from;
    } else {
      k := SectionOf(runs, view, p, from + 1);
    }
  }

  /** The last page has the kind of the last section. */
  lemma LastKind(runs: seq<Run>, view: PageMap)
    requires Tiles(runs, view) && Settled(runs)
    ensures |view| > 0 && view[|view| - 1] == runs[|runs| - 1].kind
  {
  }

  /** When no section before the `k`-th is FREE, no page before it is. */
  lemma NoneBefore(runs: seq<Run>, view: PageMap, k: nat)
    requires Tiles(runs, view) && k <= |runs|
    requires forall j :: 0 <= j < k ==> runs[j].kind != FREE
    ensures FREE !in view[..if k < |runs| then runs[k].start else |view|]
  {
    forall p | 0 <= p < if k < |runs| then runs[k].start else |view|
      ensures view[p] != FREE
    {
      var j := SectionOf(runs, view, p, 0);
    }
  }

  /** A list stands for one page map only. */
  lemma ViewIsUnique(runs: seq<Run>, view: PageMap, view': PageMap)
    requires Tiles(runs, view) && Tiles(runs, view')
    ensures view == view'
  {
    forall p | 0 <= p < |view|
      ensures view[p] == view'[p]
    {
      var k := SectionOf(runs, view, p, 0);
    }
  }

  // ---------------------------------------------------------------------------------------------
  // Edits that keep a list settled.

  /** Splitting a FREE section leaves two FREE neighbours until one of the parts is repainted. */
  lemma SettledSplitPaint(runs: seq<Run>, k: nat, n: nat, at: nat, j: nat, kind: Kind)
    requires Settled(runs) && k < |runs| - 1 && runs[k].start < at < runs[k].End()
    requires j == k + 1 || (j == k && 0 < k)
    requires kind != runs[k].kind
    requires kind == FREE ==> if j == k then runs[k - 1].kind != FREE else runs[k + 1].kind != FREE
    ensures Settled(Paint(Split(runs, k, n, at), j, kind))
  {
    hide Split;
    SplitParts(runs, k, n, at);
  }

  /** The same for the last section, whose first page is repainted. */
  lemma SettledSplitLast(runs: seq<Run>, k: nat, n: nat, at: nat, kind: Kind)
    requires Settled(runs) && k == |runs| - 1 && runs[k].start < at < runs[k].End()
    requires kind == FREE ==> runs[k - 1].kind != FREE
    ensures Settled(Paint(Split(runs, k, n, at), k, kind))
  {
    var s := Split(runs, k, n, at);
    assert forall i :: 0 <= i < |s| && i != k && i != k + 1 ==> s[i] == runs[i];
  }

  /** One page strictly inside a section becomes USED. */
  lemma SettledCarve(runs: seq<Run>, k: nat, n: nat, m: nat, page: nat)
    requires Settled(runs) && k < |runs| - 1 && runs[k].kind != USED
    requires runs[k].start < page && page + 1 < runs[k].End()
    ensures Settled(Paint(Split(Split(runs, k, n, page), k + 1, m, page + 1), k + 1, USED))
  {
    hide Split;
    SplitParts(runs, k, n, page);
    var s := Paint(Split(runs, k, n, page), k + 1, USED);
    SettledSplitPaint(runs, k, n, page, k + 1, USED);
    SettledSplitPaint(s, k + 1, m, page + 1, k + 2, runs[k].kind);
    CarvePaints(Split(runs, k, n, page), k + 1, m, page + 1);
  }

  /** Painting the first part after a split, or the whole before it and the second part back. */
  lemma CarvePaints(runs: seq<Run>, k: nat, n: nat, at: nat)
    requires k < |runs| && runs[k].start <= at <= runs[k].End()
    ensures Paint(Split(runs, k, n, at), k, USED) == Paint(Split(Paint(runs, k, USED), k, n, at), k + 1, runs[k].kind)
  {
    hide Split;
    SplitParts(runs, k, n, at);
    SplitParts(Paint(runs, k, USED), k, n, at);
  }

  lemma SettledDrop(runs: seq<Run>, k: nat)
    requires Settled(runs) && k < |runs| && runs[k].pages == 0
    ensures 0 < k < |runs| - 1 && runs[k].kind == FREE && Settled(Drop(runs, k))
  {
    var s := Drop(runs, k);
    assert forall i :: 0 <= i < |s| ==> s[i] == if i < k then runs[i] else runs[i + 1];
    assert runs[k - 1].kind != FREE && runs[k + 1].kind != FREE;
  }

  lemma SettledShiftDown(runs: seq<Run>, k: nat)
    requires Settled(runs) && 0 < k < |runs| && runs[k].pages > 0
    requires runs[k].kind == FREE || runs[k].pages > 1
    ensures Settled(ShiftDown(runs, k))
  {
  }

  lemma SettledShiftUp(runs: seq<Run>, k: nat)
    requires Settled(runs) && k + 1 < |runs| && runs[k].pages > 0 && runs[k + 1].start > 0
    requires runs[k].kind == FREE || runs[k].pages > 1
    ensures Settled(ShiftUp(runs, k))
  {
  }

  /** A one-page section between two that are not FREE may take either kind. */
  lemma SettledPaint(runs: seq<Run>, k: nat, kind: Kind)
    requires Settled(runs) && 0 < k < |runs| - 1 && runs[k].pages > 0
    requires kind == FREE ==> runs[k - 1].kind != FREE && runs[k + 1].kind != FREE
    ensures Settled(Paint(runs, k, kind))
  {
  }

  lemma SettledHead(runs: seq<Run>)
    requires Settled(runs)
    ensures |runs| >= 2 && runs[0].kind == BAD
  {
  }

  /** A USED section joins a USED neighbour. */
  lemma SettledMergeNext(runs: seq<Run>, k: nat)
    requires Settled(runs) && 0 < k < |runs| - 1 && runs[k].kind == runs[k + 1].kind == USED
    ensures Settled(MergeNext(runs, k))
  {
    var l, r := runs[k], runs[k + 1];
    var merged := r.(start := l.start, pages := l.pages + r.pages);
    var s := MergeNext(runs, k);
    assert forall i :: 0 <= i < |s| ==> s[i] == if i < k then runs[i] else if i == k then merged else runs[i + 1];
  }

  lemma SettledMergePrev(runs: seq<Run>, k: nat)
    requires Settled(runs) && 0 < k < |runs| - 1 && runs[k].kind == runs[k - 1].kind == USED
    ensures Settled(MergePrev(runs, k))
  {
    var l, r := runs[k - 1], runs[k];
    var merged := l.(pages := l.pages + r.pages);
    var s := MergePrev(runs, k);
    assert forall i :: 0 <= i < |s| ==>
      s[i] == if i < k - 1 then runs[i] else if i == k - 1 then merged else runs[i + 1];
  }

  // ---------------------------------------------------------------------------------------------
  // Which pages pmm_free_page and pmm_lock_page can deal with.

  /** The scan follows a NULL pointer: on page 0 to the section before the first, and on any page past
      the start of the last section, or on its only page, to the section after it.  An empty section
      in front of that page ends the scan before. */
  predicate ReadsNull(runs: seq<Run>, page: nat)
    requires |runs| >= 2
  {
    var last := runs[|runs| - 1];
    || page == 0
    || page > last.start
    || (page == last.start && last.pages == 1 && runs[|runs| - 2].pages > 0)
  }

  /** An empty section starts at `page`, and the scan takes it for the page's own. */
  predicate Shadowed(runs: seq<Run>, page: nat) {
    exists k :: 0 <= k < |runs| && runs[k].start == page && runs[k].pages == 0
  }

  /** Section `k`, which is not FREE, holds `page`, and pmm_free_page has a case for it: the last of
      several pages, or the first page when no empty section hides it and either more pages follow or
      no neighbour is FREE. */
  predicate FreesAt(runs: seq<Run>, k: nat, page: nat)
    requires k < |runs|
  {
    && runs[k].kind != FREE
    && runs[k].start <= page < runs[k].End()
    && if page > runs[k].start then
         page + 1 == runs[k].End() && k + 1 < |runs|
       else
         && 0 < k && runs[k - 1].pages > 0
         && (runs[k].pages > 1 || (k + 1 < |runs| && runs[k - 1].kind != FREE && runs[k + 1].kind != FREE))
  }

  predicate Frees(runs: seq<Run>, page: nat) {
    exists k :: 0 <= k < |runs| && FreesAt(runs, k, page)
  }

  /** A section of one page starts at `page`. */
  predicate Single(runs: seq<Run>, page: nat) {
    exists k :: 0 <= k < |runs| && runs[k].start == page && runs[k].pages == 1
  }

  const WRAPPED := 0x1_0000_0000_0000_0000

  /** What pmm_lock_page makes of an empty section `k` when it takes it for one that holds the page. */
  function Stray(runs: seq<Run>, k: nat): seq<Run>
    requires 0 < k < |runs|
  {
    var l, r := runs[k - 1], runs[k];
    if l.kind == USED then runs[k - 1 := l.(pages := l.pages + 1)][k := r.(start := r.start + 1, pages := WRAPPED - 1)]
    else runs[k := r.(kind := USED)]
  }

  ghost predicate Strayed(runs: seq<Run>, page: nat, runs': seq<Run>) {
    exists k: nat :: 0 < k < |runs| && Reached(runs, k, page) && runs[k].start == page && runs[k].pages == 0
      && runs' == Stray(runs, k)
  }

  /** Behind a section that is not USED the page map stays, and an empty USED section is left; behind a USED
      one the list tiles no memory any more. */
  lemma StrayTiles(runs: seq<Run>, view: PageMap, k: nat)
    requires Tiles(runs, view) && 0 < k < |runs| - 1 && runs[k].pages == 0
    ensures runs[k - 1].kind != USED ==> Tiles(Stray(runs, k), view) && !Filled(Stray(runs, k))
    ensures runs[k - 1].kind == USED ==> forall other :: !Tiles(Stray(runs, k), other)
  {
    var s := Stray(runs, k);
    if runs[k - 1].kind == USED {
      assert s[k + 1].start == runs[k].start && s[k].End() == runs[k].start + WRAPPED;
    } else {
      assert s[k].kind == USED && s[k].pages == 0;
      assert forall j :: 0 <= j < |s| ==> s[j].start == runs[j].start && s[j].pages == runs[j].pages;
      assert forall j :: 0 <= j < |s| && j != k ==> s[j] == runs[j];
    }
  }

  lemma FreesHere(runs: seq<Run>, view: PageMap, k: nat, page: nat)
    requires Tiles(runs, view) && k < |runs| && runs[k].start <= page < runs[k].End()
    ensures Frees(runs, page) <==> FreesAt(runs, k, page)
  {
  }

  /** The scan has passed `page`: the sections from the `k`-th on start after it, or the `k`-th has
      just taken it as its first page. */
  predicate Behind(runs: seq<Run>, k: nat, page: nat, kind: Kind) {
    k < |runs| ==>
      || runs[k].start > page
      || (runs[k].start == page && runs[k].kind == kind && (kind == USED ==> runs[k].pages > 1))
  }

  lemma StartAfter(runs: seq<Run>, view: PageMap, k: nat)
    requires Tiles(runs, view) && k < |runs|
    ensures k + 1 < |runs| ==> runs[k + 1].start == runs[k].End()
  {
  }

  lemma InView(runs: seq<Run>, view: PageMap, k: nat)
    requires Tiles(runs, view) && k < |runs|
    ensures runs[k].End() <= |view|
    ensures forall p :: runs[k].start <= p < runs[k].End() ==> view[p] == runs[k].kind
  {
  }

  lemma HeadStarts(runs: seq<Run>, view: PageMap)
    requires Tiles(runs, view) && Settled(runs)
    ensures |runs| >= 2 && runs[0].start == 0 && runs[0].node == 0
  {
  }

  /** A FREE section that is not empty holds FREE pages, and not page 0. */
  lemma FreeAfterHead(runs: seq<Run>, view: PageMap, k: nat)
    requires Tiles(runs, view) && Settled(runs) && k < |runs| && runs[k].kind == FREE
    ensures 0 < k < |runs| - 1 && runs[k].start > 0 && runs[k].End() <= |view|
    ensures forall p :: runs[k].start <= p < runs[k].End() ==> view[p] == FREE
  {
    assert runs[0].End() <= runs[k].start;
  }

  /** The first FREE section holds the lowest FREE page, and the pages beside that one tell whether the
      section before is USED and whether the section has more pages. */
  lemma FirstFree(runs: seq<Run>, view: PageMap, k: nat)
    requires Tiles(runs, view) && Settled(runs) && k < |runs| && runs[k].kind == FREE && runs[k].pages > 0
    requires forall j :: 0 <= j < k ==> runs[j].kind != FREE
    ensures var p := runs[k].start;
      && 0 < k && 0 < p < |view| - 1 && Lowest(view, p)
      && view[p - 1] == runs[k - 1].kind
      && (view[p + 1] == FREE <==> runs[k].pages > 1)
  {
    FreeAfterHead(runs, view, k);
    NoneBefore(runs, view, k);
    StartAfter(runs, view, k - 1);
    StartAfter(runs, view, k);
    InView(runs, view, k - 1);
    InView(runs, view, k + 1);
    assert runs[k - 1].kind != FREE && runs[k + 1].kind != FREE;
  }

  lemma LowestIsOne(view: PageMap, p: nat, q: nat)
    requires Lowest(view, p) && Lowest(view, q)
    ensures p == q
  {
    if p < q {
      FreeBefore(view, p, q);
    } else if q < p {
      FreeBefore(view, q, p);
    }
  }

  lemma FreeBefore(view: PageMap, p: nat, q: nat)
    requires p < q <= |view| && view[p] == FREE
    ensures FREE in view[..q]
  {
    assert view[..q][p] == FREE;
  }

  /** Section `k` holds `page`. */
  predicate HoldsPage(runs: seq<Run>, k: nat, page: nat) {
    k < |runs| && runs[k].start <= page < runs[k].End()
  }

  /** The nodes that pmm_lock_page needs for a page of section `k`: none for a USED page, for the only page
      of a section, and where the page can move to a USED section beside it; two in the middle of a section;
      otherwise one. */
  function LockNodes(runs: seq<Run>, k: nat, page: nat): nat
    requires HoldsPage(runs, k, page)
  {
    var r := runs[k];
    if r.kind == USED || r.pages == 1 then 0
    else if page == r.start then (if k > 0 && runs[k - 1].kind == USED then 0 else 1)
    else if page + 1 == r.End() then (if k + 1 < |runs| && runs[k + 1].kind == USED then 0 else 1)
    else 2
  }

  /** pmm_free_page needs a node for a page of section `k`: it frees the page, and has no FREE section to
      move it to. */
  predicate FreeNeedsNode(runs: seq<Run>, k: nat, page: nat)
    requires k < |runs|
  {
    && FreesAt(runs, k, page) && runs[k].pages > 1
    && if page == runs[k].start then runs[k - 1].kind != FREE else runs[k + 1].kind != FREE
  }

  /** Only one section holds a page. */
  lemma OneHolds(runs: seq<Run>, view: PageMap, j: nat, k: nat, page: nat)
    requires Tiles(runs, view) && HoldsPage(runs, j, page) && HoldsPage(runs, k, page)
    ensures j == k
  {
  }

  /** The one-page section `k` has become USED and one with the USED sections beside it. */
  ghost predicate Joined(before: seq<Run>, k: nat, after: seq<Run>)
    requires 0 < k < |before| - 1
  {
    var l, r := before[k - 1], before[k + 1];
    var from, to := if l.kind == USED then l.start else before[k].start, if r.kind == USED then r.End() else r.start;
    && |after| == |before| - (if l.kind == USED then 1 else 0) - (if r.kind == USED then 1 else 0)
    && exists i :: 0 <= i < |after| && after[i].kind == USED && after[i].start == from && after[i].End() == to
  }

  /** The nodes that pmm_lock_page needs for a page. */
  ghost function PageNodes(runs: seq<Run>, page: nat): nat {
    if k: nat :| HoldsPage(runs, k, page) then LockNodes(runs, k, page) else 0
  }

  lemma PageNodesAt(runs: seq<Run>, view: PageMap, k: nat, page: nat)
    requires Tiles(runs, view) && HoldsPage(runs, k, page)
    ensures PageNodes(runs, page) == LockNodes(runs, k, page)
  {
    var j: nat :| HoldsPage(runs, j, page) && PageNodes(runs, page) == LockNodes(runs, j, page);
    OneHolds(runs, view, j, k, page);
  }

  /** If a section of one page holds `page`, it has joined the USED ones beside it. */
  ghost predicate JoinedAt(before: seq<Run>, page: nat, after: seq<Run>) {
    forall k: nat :: HoldsPage(before, k, page) && before[k].pages == 1 ==>
      0 < k < |before| - 1 && Joined(before, k, after)
  }

  lemma JoinedHere(before: seq<Run>, view: PageMap, k: nat, page: nat, after: seq<Run>)
    requires Tiles(before, view) && HoldsPage(before, k, page)
    requires before[k].pages == 1 ==> 0 < k < |before| - 1 && Joined(before, k, after)
    ensures JoinedAt(before, page, after)
  {
    hide Joined, Tiles;
    forall j: nat | HoldsPage(before, j, page) && before[j].pages == 1
      ensures 0 < j < |before| - 1 && Joined(before, j, after)
    {
      OneHolds(before, view, j, k, page);
    }
  }

  /** All pages of a stretch are FREE. */
  predicate AllFree(view: PageMap, base: nat, count: nat) {
    base + count <= |view| && forall p :: base <= p < base + count ==> view[p] == FREE
  }

  /** A stretch of FREE pages lies in one section. */
  lemma StretchInOne(runs: seq<Run>, view: PageMap, base: nat, count: nat) returns (k: nat)
    requires Tiles(runs, view) && Settled(runs) && count > 0 && AllFree(view, base, count)
    ensures k < |runs| && runs[k].kind == FREE && runs[k].start <= base && base + count <= runs[k].End()
  {
    k := SectionOf(runs, view, base, 0);
    FreeAfterHead(runs, view, k);
    StartAfter(runs, view, k);
    InView(runs, view, k + 1);
    assert runs[k + 1].kind != FREE && runs[k + 1].start == runs[k].End();
    assert view[runs[k].End()] == runs[k + 1].kind;
  }

  /** When no section before the `k`-th is FREE and long enough, no stretch of so many FREE pages starts
      before it. */
  lemma LowestStretch(runs: seq<Run>, view: PageMap, k: nat, count: nat)
    requires Tiles(runs, view) && Settled(runs) && k <= |runs| && count > 0
    requires forall j :: 0 <= j < k ==> runs[j].kind != FREE || runs[j].pages < count
    ensures forall b: nat :: (k < |runs| ==> b < runs[k].start) ==> !AllFree(view, b, count)
  {
    forall b: nat | AllFree(view, b, count)
      ensures k < |runs| && runs[k].start <= b
    {
      var j := StretchInOne(runs, view, b, count);
      StretchFrom(runs, view, j, k);
    }
  }

  lemma StretchFrom(runs: seq<Run>, view: PageMap, j: nat, k: nat)
    requires Tiles(runs, view) && k <= j < |runs|
    ensures runs[k].start <= runs[j].start
  {
  }

  /** A FREE page behind a USED one starts a section, and needs no node. */
  lemma BehindUsed(runs: seq<Run>, view: PageMap, page: nat)
    requires Tiles(runs, view) && Settled(runs) && 0 < page < |view| && view[page] == FREE && view[page - 1] == USED
    ensures PageNodes(runs, page) == 0
  {
    hide PageNodes;
    var k := SectionOf(runs, view, page, 0);
    FreeAfterHead(runs, view, k);
    InView(runs, view, k);
    InView(runs, view, k - 1);
    StartAfter(runs, view, k - 1);
    PageNodesAt(runs, view, k, page);
  }

  /** The first page of a FREE section needs a node when the page before is not USED and the page behind
      is FREE. */
  lemma FirstNeeds(runs: seq<Run>, view: PageMap, k: nat)
    requires Tiles(runs, view) && Settled(runs) && k < |runs| && runs[k].kind == FREE && runs[k].pages > 0
    ensures var p := runs[k].start;
      0 < p < |view| - 1 && PageNodes(runs, p) == if view[p - 1] != USED && view[p + 1] == FREE then 1 else 0
  {
    hide PageNodes;
    FreeAfterHead(runs, view, k);
    StartAfter(runs, view, k - 1);
    StartAfter(runs, view, k);
    InView(runs, view, k - 1);
    InView(runs, view, k + 1);
    PageNodesAt(runs, view, k, runs[k].start);
  }

  lemma NoneJoins(before: seq<Run>, view: PageMap, k: nat, page: nat)
    requires Tiles(before, view) && HoldsPage(before, k, page) && before[k].pages != 1
    ensures forall after :: JoinedAt(before, page, after)
  {
    forall after
      ensures JoinedAt(before, page, after)
    {
      JoinedHere(before, view, k, page, after);
    }
  }

  /** Inside a USED section nothing is to be done. */
  lemma UsedStays(runs: seq<Run>, view: PageMap, k: nat, page: nat)
    requires Tiles(runs, view) && k < |runs| && runs[k].start < page < runs[k].End() && runs[k].kind == USED
    ensures PageNodes(runs, page) == 0 && JoinedAt(runs, page, runs)
    ensures page < |view| && view == view[page := USED]
  {
    hide Joined, JoinedAt, PageNodes;
    PageNodesAt(runs, view, k, page);
    JoinedHere(runs, view, k, page, runs);
    InView(runs, view, k);
  }

  lemma MergeNextParts(runs: seq<Run>, k: nat)
    requires k + 1 < |runs|
    ensures |MergeNext(runs, k)| == |runs| - 1
    ensures MergeNext(runs, k)[k] == runs[k + 1].(start := runs[k].start, pages := runs[k].pages + runs[k + 1].pages)
    ensures forall i :: 0 <= i < k ==> MergeNext(runs, k)[i] == runs[i]
  {
  }

  lemma MergePrevParts(runs: seq<Run>, k: nat)
    requires 0 < k < |runs|
    ensures |MergePrev(runs, k)| == |runs| - 1
    ensures MergePrev(runs, k)[k - 1] == runs[k - 1].(pages := runs[k - 1].pages + runs[k].pages)
  {
  }

  /** The merges of pmm_lock_page, for each kind of the two neighbours. */
  lemma JoinedNow(runs: seq<Run>, view: PageMap, k: nat)
    requires Tiles(runs, view) && 0 < k < |runs| - 1 && runs[k].pages == 1
    ensures var painted := Paint(runs, k, USED);
      var l, r := runs[k - 1].kind == USED, runs[k + 1].kind == USED;
      Joined(runs, k, if l && r then MergeNext(MergeNext(painted, k), k - 1)
                      else if l then MergePrev(painted, k)
                      else if r then MergeNext(painted, k)
                      else painted)
  {
    hide MergeNext, MergePrev;
    var l, r, painted := runs[k - 1].kind == USED, runs[k + 1].kind == USED, Paint(runs, k, USED);
    StartAfter(runs, view, k - 1);
    StartAfter(runs, view, k);
    MergePrevParts(painted, k);
    MergeNextParts(painted, k);
    MergeNextParts(MergeNext(painted, k), k - 1);
    if l && r {
      assert MergeNext(MergeNext(painted, k), k - 1)[k - 1].kind == USED;
    } else if l {
      assert MergePrev(painted, k)[k - 1].kind == USED;
    } else if r {
      assert MergeNext(painted, k)[k].kind == USED;
    } else {
      assert painted[k].kind == USED;
    }
  }

  /** The scan for `page` has come to section `k`, past sections that start before the page. */
  predicate Reached(runs: seq<Run>, k: nat, page: nat) {
    k < |runs| && runs[k].start <= page && forall j :: 0 <= j < k ==> runs[j].start < page
  }

  lemma ReachedFirst(runs: seq<Run>, view: PageMap, page: nat)
    requires Tiles(runs, view)
    ensures Reached(runs, 0, page) && |runs| > 0 && runs[0].start <= page
  {
  }

  lemma ReachedNext(runs: seq<Run>, k: nat, page: nat)
    requires Reached(runs, k, page) && runs[k].start < page && k + 1 < |runs| && runs[k + 1].start <= page
    ensures Reached(runs, k + 1, page)
  {
  }

  /** The scan has come to the first section that starts at `page`: what that section is, and whether
      the scan goes on through NULL. */
  lemma StartsHere(runs: seq<Run>, view: PageMap, k: nat, page: nat)
    requires Tiles(runs, view) && Settled(runs) && Reached(runs, k, page) && runs[k].start == page
    ensures Shadowed(runs, page) <==> runs[k].pages == 0
    ensures runs[k].pages == 0 ==> runs[k].kind == FREE
    ensures runs[k].kind == FREE ==> 0 < k < |runs| - 1 && !ReadsNull(runs, page)
    ensures runs[k].pages > 0 ==> page < |view| && view[page] == runs[k].kind
    ensures runs[k].pages > 0 ==> (ReadsNull(runs, page) <==> k == 0 || (k == |runs| - 1 && runs[k].pages == 1))
  {
    var n := |runs| - 1;
    assert 0 < k ==> runs[k - 1].End() == page && runs[k - 1].start < page;
    assert 0 < k ==> runs[0].pages > 0 && runs[0].End() <= page;
    if k < n {
      assert runs[k].End() <= runs[n].start;
      if k + 1 < n {
        assert runs[k].pages == 0 ==> runs[k + 1].start == page && runs[k + 1].pages > 0;
        assert runs[k + 1].End() <= runs[n].start;
      }
    }
  }

  lemma SingleHere(runs: seq<Run>, view: PageMap, k: nat, page: nat)
    requires Tiles(runs, view) && Reached(runs, k, page) && runs[k].start == page && runs[k].pages > 0
    ensures Single(runs, page) <==> runs[k].pages == 1
  {
    assert forall j :: k < j < |runs| ==> runs[k].End() <= runs[j].start;
  }

  lemma NotSingle(runs: seq<Run>, k: nat, page: nat)
    requires Reached(runs, k, page) && runs[k].start < page && k + 1 == |runs|
    ensures !Single(runs, page)
  {
  }

  /** The scan has come to a section that starts before `page`: the page lies in it unless the next
      one starts at `page` or before, and without a next one the scan goes on through NULL. */
  lemma StartsBefore(runs: seq<Run>, view: PageMap, k: nat, page: nat)
    requires Tiles(runs, view) && Settled(runs) && Reached(runs, k, page) && runs[k].start < page
    ensures k + 1 == |runs| ==> ReadsNull(runs, page) && !Shadowed(runs, page)
    ensures k + 1 < |runs| && runs[k + 1].start > page ==>
      && page < runs[k].End() && page < |view| && view[page] == runs[k].kind && runs[k].End() == runs[k + 1].start
      && !ReadsNull(runs, page) && !Shadowed(runs, page)
  {
    if k + 1 < |runs| && runs[k + 1].start > page {
      assert runs[k + 1].start == runs[k].End();
      assert k + 1 < |runs| - 1 ==> runs[k + 1].End() <= runs[|runs| - 1].start;
      forall j | k < j < |runs|
        ensures runs[j].start > page
      {
        assert runs[k].End() <= runs[j].start;
      }
    }
  }

  /** The scan goes on behind a section that starts before `page`, or ends there. */
  lemma StepOver(runs: seq<Run>, view: PageMap, k: nat, page: nat)
    requires Tiles(runs, view) && Settled(runs) && k < |runs| && Reached(runs, k, page) && runs[k].start < page
    ensures |runs| >= 2
    ensures k + 1 == |runs| ==> ReadsNull(runs, page) && !Shadowed(runs, page) && !Single(runs, page)
    ensures k + 1 < |runs| && runs[k + 1].start <= page ==> Reached(runs, k + 1, page)
    ensures k + 1 < |runs| && runs[k + 1].start > page ==>
      && page < runs[k].End() == runs[k + 1].start && page < |view| && view[page] == runs[k].kind
      && !ReadsNull(runs, page) && !Shadowed(runs, page)
  {
    hide Tiles, Settled, Reached, Shadowed, ReadsNull, Single;
    StartsBefore(runs, view, k, page);
    HeadStarts(runs, view);
    if k + 1 == |runs| {
      NotSingle(runs, k, page);
    } else if runs[k + 1].start <= page {
      ReachedNext(runs, k, page);
    }
  }

  /** A FREE page is always within reach. */
  lemma FreeInReach(runs: seq<Run>, view: PageMap, page: nat)
    requires Tiles(runs, view) && Settled(runs) && page < |view| && view[page] == FREE
    ensures !ReadsNull(runs, page) && !Shadowed(runs, page)
  {
    var k := SectionOf(runs, view, page, 0);
    assert 0 < k < |runs| - 1;
    assert runs[k].End() <= runs[|runs| - 1].start && runs[0].End() <= runs[k].start;
    forall j | 0 <= j < |runs| && runs[j].pages == 0
      ensures runs[j].start != page
    {
      if j < k {
        assert runs[j].kind == FREE && runs[j + 1].kind != FREE && runs[j + 1].pages > 0;
        assert runs[j + 1].start == runs[j].End() && runs[j + 1].End() <= runs[k].start;
      } else if k < j {
        assert runs[k].End() <= runs[j].start;
      }
    }
  }

  /** So is a USED page when the last page of memory is BAD. */
  lemma UsedInReach(runs: seq<Run>, view: PageMap, page: nat)
    requires Tiles(runs, view) && Settled(runs) && page < |view| && view[page] == USED
    requires view[|view| - 1] == BAD
    ensures !ReadsNull(runs, page)
  {
    var k := SectionOf(runs, view, page, 0);
    var n := |runs| - 1;
    assert runs[n].End() == |view| && runs[n].pages > 0;
    assert view[|view| - 1] == runs[n].kind;
    assert 0 < k < n && runs[k].End() <= runs[n].start && runs[0].End() <= runs[k].start;
  }

  /** Which pages are freed, for a page that starts section `k`. */
  lemma FreesFirst(runs: seq<Run>, view: PageMap, k: nat, page: nat)
    requires Tiles(runs, view) && Settled(runs) && Reached(runs, k, page) && runs[k].start == page
    ensures runs[k].kind == FREE ==> !Frees(runs, page)
    ensures runs[k].kind != FREE && 0 < k < |runs| - 1 ==>
      (Frees(runs, page) <==> runs[k].pages > 1 || (runs[k - 1].kind != FREE && runs[k + 1].kind != FREE))
    ensures runs[k].kind != FREE && k == |runs| - 1 && runs[k].pages > 1 ==> Frees(runs, page)
  {
    StartsHere(runs, view, k, page);
    assert 0 < k ==> runs[k].start == runs[k - 1].End() && runs[k - 1].start < page;
    if runs[k].pages > 0 {
      FreesHere(runs, view, k, page);
    } else {
      assert runs[k + 1].start == page && runs[k + 1].kind != FREE;
      FreesHere(runs, view, k + 1, page);
    }
  }

  /** pmm_free_page needs a node for the page. */
  ghost predicate PageSplits(runs: seq<Run>, page: nat) {
    exists k: nat :: k < |runs| && FreeNeedsNode(runs, k, page)
  }

  lemma SplitsHere(runs: seq<Run>, view: PageMap, k: nat, page: nat)
    requires Tiles(runs, view) && HoldsPage(runs, k, page)
    ensures PageSplits(runs, page) <==> FreeNeedsNode(runs, k, page)
  {
    forall j: nat | j < |runs| && FreeNeedsNode(runs, j, page)
      ensures j == k
    {
      OneHolds(runs, view, j, k, page);
    }
  }

  /** When that is so, for a page that starts section `k`. */
  lemma SplitsFirst(runs: seq<Run>, view: PageMap, k: nat, page: nat)
    requires Tiles(runs, view) && Settled(runs) && Reached(runs, k, page) && runs[k].start == page
    ensures PageSplits(runs, page) <==>
      (runs[k].kind != FREE && 0 < k && runs[k].pages > 1 && runs[k - 1].kind != FREE)
  {
    StartsHere(runs, view, k, page);
    if runs[k].pages > 0 {
      SplitsHere(runs, view, k, page);
    } else {
      assert runs[k + 1].start == page && runs[k + 1].kind != FREE;
      SplitsHere(runs, view, k + 1, page);
    }
  }

  lemma FreeStays(runs: seq<Run>, view: PageMap, k: nat, page: nat)
    requires Tiles(runs, view) && Settled(runs) && Reached(runs, k, page) && runs[k].start == page
    requires runs[k].kind == FREE
    ensures |runs| >= 2 && !ReadsNull(runs, page) && !Frees(runs, page) && !PageSplits(runs, page)
  {
    hide ReadsNull, Frees, PageSplits, Shadowed;
    HeadStarts(runs, view);
    StartsHere(runs, view, k, page);
    FreesFirst(runs, view, k, page);
    SplitsFirst(runs, view, k, page);
  }

  /** And for a page inside section `k`. */
  lemma SplitsInside(runs: seq<Run>, view: PageMap, k: nat, page: nat)
    requires Tiles(runs, view) && k + 1 < |runs| && runs[k].start < page < runs[k].End()
    ensures PageSplits(runs, page) <==>
      (runs[k].kind != FREE && page + 1 == runs[k + 1].start && runs[k + 1].kind != FREE)
  {
    assert runs[k + 1].start == runs[k].End();
    SplitsHere(runs, view, k, page);
  }

  /** The same for a page inside section `k`. */
  lemma FreesInside(runs: seq<Run>, view: PageMap, k: nat, page: nat)
    requires Tiles(runs, view) && k + 1 < |runs| && runs[k].start < page < runs[k].End()
    ensures Frees(runs, page) <==> runs[k].kind != FREE && page + 1 == runs[k + 1].start
  {
    assert runs[k + 1].start == runs[k].End();
    FreesHere(runs, view, k, page);
  }

  // ---------------------------------------------------------------------------------------------
  // Merging everything that can be merged.

  /** One more section behind a merged list. */
  function Push(runs: seq<Run>, r: Run): (s: seq<Run>)
    requires |runs| > 0
    ensures |s| > 0
  {
    var n := |runs| - 1;
    if runs[n].kind == r.kind then runs[n := runs[n].(pages := (runs[n].pages + r.pages) % SPAN)] else runs + [r]
  }

  /** The list with all neighbours of one kind merged, from the left. */
  function Coalesce(runs: seq<Run>): (s: seq<Run>)
    requires |runs| > 0
    ensures |s| > 0
  {
    var n := |runs| - 1;
    if n == 0 then runs else Push(Coalesce(runs[..n]), runs[n])
  }

  lemma {:induction false} CoalesceEnds(runs: seq<Run>)
    requires |runs| > 0
    ensures var s := Coalesce(runs);
      && s[0].node == runs[0].node && s[0].start == runs[0].start && s[0].kind == runs[0].kind
      && s[|s| - 1].kind == runs[|runs| - 1].kind
  {
    if |runs| > 1 {
      CoalesceEnds(runs[..|runs| - 1]);
    }
  }

  /** What has no two neighbours of one kind is merged already. */
  lemma {:induction false} CoalesceAlternating(runs: seq<Run>)
    requires |runs| > 0 && Alternating(runs, |runs|)
    ensures Coalesce(runs) == runs
  {
    var n := |runs| - 1;
    if n > 0 {
      CoalesceAlternating(runs[..n]);
      assert runs == runs[..n] + [runs[n]];
    }
  }

  lemma WrapTwice(a: nat, b: nat, c: nat)
    ensures ((a + b) % SPAN + c) % SPAN == (a + (b + c) % SPAN) % SPAN
  {
  }

  lemma PushTwice(runs: seq<Run>, l: Run, r: Run)
    requires |runs| > 0 && l.kind == r.kind
    ensures Push(Push(runs, l), r) == Push(runs, l.(pages := (l.pages + r.pages) % SPAN))
  {
    var n := |runs| - 1;
    WrapTwice(runs[n].pages, l.pages, r.pages);
  }

  lemma SwallowLast(runs: seq<Run>, k: nat)
    requires k + 2 == |runs|
    ensures Swallow(runs, k) == runs[..k] + [runs[k].(pages := (runs[k].pages + runs[k + 1].pages) % SPAN)]
  {
  }

  lemma SwallowBefore(runs: seq<Run>, k: nat)
    requires k + 2 < |runs|
    ensures |Swallow(runs, k)| == |runs| - 1
    ensures Swallow(runs, k)[..|runs| - 2] == Swallow(runs[..|runs| - 1], k)
    ensures Swallow(runs, k)[|runs| - 2] == runs[|runs| - 1]
  {
  }

  /** Merging one pair first makes no difference. */
  lemma {:induction false} CoalesceSwallow(runs: seq<Run>, k: nat)
    requires k + 1 < |runs| && runs[k].kind == runs[k + 1].kind
    ensures |Swallow(runs, k)| > 0 && Coalesce(Swallow(runs, k)) == Coalesce(runs)
  {
    hide Swallow, Push;
    var n := |runs| - 1;
    if k + 1 == n {
      SwallowLast(runs, k);
      if k > 0 {
        PushTwice(Coalesce(runs[..k]), runs[k], runs[n]);
        assert runs[..n][..k] == runs[..k] && Swallow(runs, k)[..k] == runs[..k];
      } else {
        PushOne(runs[0], runs[1]);
        assert runs[..1] == [runs[0]];
      }
    } else {
      SwallowBefore(runs, k);
      CoalesceSwallow(runs[..n], k);
    }
  }

  lemma PushOne(l: Run, r: Run)
    requires l.kind == r.kind
    ensures Push([l], r) == [l.(pages := (l.pages + r.pages) % SPAN)]
  {
  }

  /** Only the merged form of the first part matters for what follows. */
  lemma {:induction false} CoalescePrefix(a: seq<Run>, a': seq<Run>, b: seq<Run>)
    requires |a| > 0 && |a'| > 0 && Coalesce(a) == Coalesce(a')
    ensures Coalesce(a + b) == Coalesce(a' + b)
    decreases |b|
  {
    if b == [] {
      assert a + b == a && a' + b == a';
    } else {
      var n := |b| - 1;
      CoalescePrefix(a, a', b[..n]);
      assert (a + b)[..|a + b| - 1] == a + b[..n] && (a' + b)[..|a' + b| - 1] == a' + b[..n];
    }
  }

  /** The sections of a tiling up to the `n`-th tile the pages up to it. */
  lemma PrefixTiles(runs: seq<Run>, view: PageMap, n: nat)
    requires Tiles(runs, view) && 0 < n <= |runs|
    ensures runs[n - 1].End() <= |view| && Tiles(runs[..n], view[..runs[n - 1].End()])
  {
    var s, v := runs[..n], view[..runs[n - 1].End()];
    assert forall k :: 0 <= k < n ==> s[k] == runs[k];
    assert forall k :: 0 <= k < n - 1 ==> runs[k].End() <= runs[n - 1].start;
  }

  /** Merging keeps the page map, and leaves only FREE sections empty when that was so. */
  lemma {:induction false} CoalesceTiles(runs: seq<Run>, view: PageMap)
    requires Tiles(runs, view) && |view| < SPAN
    ensures Tiles(Coalesce(runs), view) && Alternating(Coalesce(runs), |Coalesce(runs)|)
    ensures Filled(runs) ==> Filled(Coalesce(runs))
  {
    var n := |runs| - 1;
    if n > 0 {
      var r := runs[n];
      PrefixTiles(runs, view, n);
      StartAfter(runs, view, n - 1);
      InView(runs, view, n);
      TilesEnd(runs, view);
      CoalesceTiles(runs[..n], view[..r.start]);
      assert view == view[..r.start] + Stretch(r.pages, r.kind);
      assert Filled(runs) ==> Filled(runs[..n]);
      PushTiles(Coalesce(runs[..n]), view[..r.start], r);
    }
  }

  lemma PushKinds(runs: seq<Run>, r: Run)
    requires |runs| > 0 && Alternating(runs, |runs|) && runs[|runs| - 1].pages + r.pages < SPAN
    ensures Alternating(Push(runs, r), |Push(runs, r)|)
    ensures Filled(runs) && (r.kind == FREE || r.pages > 0) ==> Filled(Push(runs, r))
  {
  }

  lemma PushIsMerge(runs: seq<Run>, r: Run)
    requires |runs| > 0 && runs[|runs| - 1].kind == r.kind && runs[|runs| - 1].pages + r.pages < SPAN
    ensures MergePrev(runs + [r], |runs|) == Push(runs, r)
  {
  }

  lemma PushTiles(runs: seq<Run>, view: PageMap, r: Run)
    requires Tiles(runs, view) && r.start == |view| && |view| + r.pages < SPAN && Alternating(runs, |runs|)
    ensures Tiles(Push(runs, r), view + Stretch(r.pages, r.kind)) && Alternating(Push(runs, r), |Push(runs, r)|)
    ensures Filled(runs) && (r.kind == FREE || r.pages > 0) ==> Filled(Push(runs, r))
  {
    hide Tiles, Stretch, Alternating, Filled;
    TilesEnd(runs, view);
    AppendTiles(runs, view, r);
    PushKinds(runs, r);
    if runs[|runs| - 1].kind == r.kind {
      assert (runs + [r])[|runs|] == r && (runs + [r])[|runs| - 1] == runs[|runs| - 1];
      MergePrevTiles(runs + [r], view + Stretch(r.pages, r.kind), |runs|);
      PushIsMerge(runs, r);
    }
  }

  ghost predicate NotAllBad(view: PageMap) {
    exists p :: 0 <= p < |view| && view[p] != BAD
  }

  /** What is left after merging is settled, provided the ends are right and two kinds occur. */
  lemma StillSettled(runs: seq<Run>, view: PageMap)
    requires Tiles(runs, view) && Filled(runs) && Alternating(runs, |runs|) && NotAllBad(view)
    requires runs[0].node == 0 && runs[0].kind == BAD && runs[|runs| - 1].kind != FREE
    ensures Settled(runs)
  {
    var p :| 0 <= p < |view| && view[p] != BAD;
    var k := SectionOf(runs, view, p, 0);
  }

  lemma SettledEnds(runs: seq<Run>)
    requires Settled(runs)
    ensures |runs| >= 2 && runs[0].node == 0 && runs[0].kind == BAD && runs[|runs| - 1].kind != FREE && Filled(runs)
  {
  }

  predicate Fits(r: Run, count: nat) {
    r.kind == FREE && r.pages >= count
  }

  /** `base` starts the first FREE section of at least `count` pages. */
  ghost predicate FirstFit(runs: seq<Run>, count: nat, base: nat) {
    exists k :: 0 <= k < |runs| && Fits(runs[k], count) && runs[k].start == base
      && forall j :: 0 <= j < k ==> !Fits(runs[j], count)
  }

  // ---------------------------------------------------------------------------------------------
  // Building a list.

  function Stretch(n: nat, kind: Kind): (view: PageMap)
    ensures |view| == n
  {
    seq(n, _ => kind)
  }

  /** The number of FREE pages. */
  function Count(view: PageMap): nat {
    if view == [] then 0 else Count(view[..|view| - 1]) + (if view[|view| - 1] == FREE then 1 else 0)
  }

  lemma {:induction false} CountStretch(view: PageMap, n: nat, kind: Kind)
    ensures Count(view + Stretch(n, kind)) == Count(view) + (if kind == FREE then n else 0)
    decreases n
  {
    if n == 0 {
      assert view + Stretch(0, kind) == view;
    } else {
      CountStretch(view, n - 1, kind);
      var s := view + Stretch(n, kind);
      assert s[..|s| - 1] == view + Stretch(n - 1, kind);
    }
  }

  /** The FREE pages up to the end of section `k`. */
  lemma CountSection(runs: seq<Run>, view: PageMap, k: nat)
    requires Tiles(runs, view) && k < |runs|
    ensures runs[k].End() <= |view|
    ensures Count(view[..runs[k].End()])
         == Count(view[..runs[k].start]) + (if runs[k].kind == FREE then runs[k].pages else 0)
    ensures k + 1 < |runs| ==> runs[k + 1].start == runs[k].End()
    ensures k + 1 == |runs| ==> view[..runs[k].End()] == view
    ensures k == 0 ==> Count(view[..runs[k].start]) == 0
  {
    var r := runs[k];
    CountStretch(view[..r.start], r.pages, r.kind);
    assert view[..r.End()] == view[..r.start] + Stretch(r.pages, r.kind);
  }

  lemma TwoBehind(runs: seq<Run>, a: Run, b: Run)
    ensures (runs + [b])[..|runs|] + [a, (runs + [b])[|runs|]] == runs + [a, b]
  {
  }

  lemma TilesEnd(runs: seq<Run>, view: PageMap)
    requires Tiles(runs, view)
    ensures |runs| > 0 && runs[|runs| - 1].End() == |view|
  {
  }

  lemma AppendTiles(runs: seq<Run>, view: PageMap, r: Run)
    requires Tiles(runs, view) && r.start == |view|
    ensures Tiles(runs + [r], view + Stretch(r.pages, r.kind))
  {
    var s := runs + [r];
    assert s[|s| - 1] == r;
    assert Chained(s, r.End()) by {
      hide Shows;
      assert forall j :: 0 <= j < |runs| ==> s[j] == runs[j];
    }
  }

  // ---------------------------------------------------------------------------------------------
  // What the calls of the memory manager do to the page map.

  /** A FREE page has become USED. */
  predicate PageTaken(view: PageMap, page: nat, view': PageMap) {
    page < |view| && view[page] == FREE && view' == view[page := USED]
  }

  /** A stretch of FREE pages has become USED. */
  predicate PoolTaken(view: PageMap, base: nat, count: nat, view': PageMap) {
    && base + count <= |view| == |view'|
    && (forall p :: base <= p < base + count ==> view[p] == FREE)
    && forall p :: 0 <= p < |view| ==> view'[p] == if base <= p < base + count then USED else view[p]
  }

  /** No page has changed but from FREE to USED. */
  ghost predicate OnlyTaken(view: PageMap, view': PageMap) {
    && |view'| == |view|
    && forall p :: 0 <= p < |view| ==> view'[p] == view[p] || (view[p] == FREE && view'[p] == USED)
  }

  lemma OnlyTakenNone(view: PageMap)
    ensures OnlyTaken(view, view)
  {
  }

  lemma OnlyTakenOne(view: PageMap, page: nat, view': PageMap)
    requires PageTaken(view, page, view')
    ensures OnlyTaken(view, view')
  {
  }

  lemma OnlyTakenTrans(view: PageMap, view1: PageMap, view2: PageMap)
    requires OnlyTaken(view, view1) && OnlyTaken(view1, view2)
    ensures OnlyTaken(view, view2)
  {
  }

  /** At most one page has become FREE. */
  predicate PageFreed(view: PageMap, page: nat, view': PageMap) {
    page < |view| && (view' == view || view' == view[page := FREE])
  }

  // ---------------------------------------------------------------------------------------------
  // Lists on which pmm_free_page and pmm_lock_page miss their page.

  /** The first megabyte, as pmm_start sets it up. */
  const LOW_MEMORY := Run(0, 0, 256, BAD)

  lemma LowMemoryTiles()
    ensures Tiles([LOW_MEMORY], Stretch(256, BAD))
  {
  }

  lemma LowMemoryAnd(a: Run, b: Run, c: Run, v1: PageMap, v2: PageMap, v3: PageMap)
    requires a.start == 256 && b.start == a.End() && c.start == b.End()
    requires v1 == Stretch(256, BAD) + Stretch(a.pages, a.kind)
    requires v2 == v1 + Stretch(b.pages, b.kind) && v3 == v2 + Stretch(c.pages, c.kind)
    ensures Tiles([LOW_MEMORY, a], v1) && Tiles([LOW_MEMORY, a, b], v2) && Tiles([LOW_MEMORY, a, b, c], v3)
  {
    hide Tiles;
    LowMemoryTiles();
    assert [LOW_MEMORY] + [a] == [LOW_MEMORY, a] && [LOW_MEMORY, a] + [b] == [LOW_MEMORY, a, b];
    assert [LOW_MEMORY, a, b] + [c] == [LOW_MEMORY, a, b, c];
    AppendTiles([LOW_MEMORY], Stretch(256, BAD), a);
    AppendTiles([LOW_MEMORY, a], v1, b);
    AppendTiles([LOW_MEMORY, a, b], v2, c);
  }

  /** Page 257 is the only one of its section, and a neighbour is FREE. */
  const BESIDE := [LOW_MEMORY, Run(1, 256, 1, FREE), Run(2, 257, 1, USED), Run(3, 258, 1, BAD)]

  lemma OnlyPageStaysUsed()
    ensures Tiles(BESIDE, Stretch(256, BAD) + Stretch(1, FREE) + Stretch(1, USED) + Stretch(1, BAD)) && Settled(BESIDE)
    ensures !ReadsNull(BESIDE, 257) && !Frees(BESIDE, 257)
  {
    hide Tiles, Stretch;
    var v1 := Stretch(256, BAD) + Stretch(1, FREE);
    LowMemoryAnd(BESIDE[1], BESIDE[2], BESIDE[3], v1, v1 + Stretch(1, USED), v1 + Stretch(1, USED) + Stretch(1, BAD));
    assert BESIDE[0].kind == BAD && BESIDE[1].kind == FREE && BESIDE[2].kind == USED && BESIDE[3].kind == BAD;
  }

  /** An allocation has taken the one page of the FREE section. */
  const EMPTIED := [LOW_MEMORY, Run(1, 256, 1, USED), Run(2, 257, 0, FREE), Run(3, 257, 1, USED)]

  /** Page 257 is out of reach behind the empty section. */
  lemma EmptySectionShadows()
    ensures Settled(EMPTIED) && Shadowed(EMPTIED, 257) && !ReadsNull(EMPTIED, 257)
    ensures Tiles(EMPTIED, Stretch(256, BAD) + Stretch(1, USED) + Stretch(0, FREE) + Stretch(1, USED))
  {
    hide Tiles, Stretch;
    var r, v1 := EMPTIED, Stretch(256, BAD) + Stretch(1, USED);
    LowMemoryAnd(r[1], r[2], r[3], v1, v1 + Stretch(0, FREE), v1 + Stretch(0, FREE) + Stretch(1, USED));
    assert r[0].kind == BAD && r[1].kind == USED && r[2].kind == FREE && r[3].kind == USED;
    assert r[2].start == 257 && r[2].pages == 0;
  }

  /** Two FREE pages before a USED tail. */
  const ROOM_BEFORE_TAIL := [LOW_MEMORY, Run(1, 256, 2, FREE), Run(2, 258, 1, USED)]

  /** The list after pmm_lock_page on page 256: a split, and the first part repainted. */
  function FirstLocked(): seq<Run> {
    Paint(Split(ROOM_BEFORE_TAIL, 1, 3, 257), 1, USED)
  }

  /** The list after pmm_lock_page on page 257 as well: repainted, and joined with both neighbours. */
  function BothLocked(): seq<Run>
    ensures |BothLocked()| == 2
  {
    MergeNext(MergeNext(Paint(FirstLocked(), 2, USED), 2), 1)
  }

  lemma LockedLists()
    ensures FirstLocked() == [LOW_MEMORY, Run(1, 256, 1, USED), Run(3, 257, 1, FREE), Run(2, 258, 1, USED)]
    ensures BothLocked() == [LOW_MEMORY, Run(2, 256, 3, USED)]
  {
    var first := FirstLocked();
    assert first == [LOW_MEMORY, Run(1, 256, 1, USED), Run(3, 257, 1, FREE), Run(2, 258, 1, USED)];
    assert MergeNext(Paint(first, 2, USED), 2) == [LOW_MEMORY, Run(1, 256, 1, USED), Run(2, 257, 2, USED)];
  }

  /** A pool of two pages fills the FREE section and disappears into the tail; freeing its second page
      then goes on through NULL. */
  lemma PoolPageReadsNull()
    ensures Settled(ROOM_BEFORE_TAIL) && FirstFit(ROOM_BEFORE_TAIL, 2, 256)
    ensures Tiles(ROOM_BEFORE_TAIL, Stretch(256, BAD) + Stretch(2, FREE) + Stretch(1, USED))
    ensures Settled(BothLocked()) && Tiles(BothLocked(), Stretch(256, BAD) + Stretch(3, USED))
    ensures ReadsNull(BothLocked(), 257)
  {
    hide Tiles, Stretch, FirstLocked, BothLocked;
    LockedLists();
    var t := ROOM_BEFORE_TAIL;
    var v1, w1 := Stretch(256, BAD) + Stretch(2, FREE), Stretch(256, BAD) + Stretch(3, USED);
    LowMemoryAnd(t[1], t[2], Run(4, 259, 0, FREE), v1, v1 + Stretch(1, USED), v1 + Stretch(1, USED) + Stretch(0, FREE));
    LowMemoryAnd(Run(2, 256, 3, USED), Run(4, 259, 0, FREE), Run(5, 259, 0, FREE), w1, w1 + Stretch(0, FREE),
                 w1 + Stretch(0, FREE) + Stretch(0, FREE));
    assert Fits(t[1], 2) && !Fits(t[0], 2);
    assert t[0].kind == BAD && t[1].kind == FREE && t[2].kind == USED;
    assert BothLocked()[0].kind == BAD && BothLocked()[1].kind == USED;
  }
}
