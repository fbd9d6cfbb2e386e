/** The physical memory manager of pmm.c and pfa.c: sections in an array of nodes, linked into a
    list that is edited in place, and refining a map from page to kind. */
module Pmms {
  import opened Sections
  import opened SectionNodes
  import opened MemoryMaps

  /** How a call that scans for a page ends: it returns, or the source would write through NULL for
      want of a node, or read through NULL past an end of the list, or it stops at an empty section
      instead of the page. */
  datatype Outcome = Finished | NoNode | NullRead | Astray

  /** How pmm_start ends: it would write through NULL where no entry can hold the list, or for want of a
      node; or the merged list is not one that the other calls can work with; or it goes on to lock the
      pages of the list. */
  datatype Startup = Homeless | Full | Garbled | Started(locked: Outcome)

  class Pmm {
    const nodes: array<Node>          // pmm_sections; its length is pmm_data_size in nodes
    var head: nat                     // _pmm_section_head, the next node to try
    var allowing: bool                // pfa_allowing_allocations
    ghost var runs: seq<Run>          // the list that starts at node 0
    ghost var view: PageMap           // the page map it stands for

    constructor (size: nat)
      ensures fresh(nodes) && nodes.Length == size && !allowing
      ensures forall n :: 0 <= n < size ==> nodes[n] == UNUSED
    {
      nodes := new Node[size](_ => UNUSED);
      head, allowing, runs, view := 1, false, [], [];
    }

    ghost predicate Listed()
      reads this, nodes
    {
      Stores(nodes[..], runs) && Fresh() && Tiles(runs, view) && |view| < SPAN
    }

    /** Nodes are handed out in the order of the array, and `head` is the next. */
    ghost predicate Fresh()
      reads this, nodes
    {
      FreshAt(nodes[..], head, runs)
    }

    ghost predicate Valid()
      reads this, nodes
    {
      Listed() && Settled(runs) && NotAllBad(view)
    }

    /** pmm_new_section would find a node. */
    ghost predicate Spare()
      reads this, nodes
    {
      SpareAt(nodes[..], head)
    }

    /** Fewer than `n` nodes are left. */
    predicate Short(n: nat)
      reads this
    {
      n > 0 && head + n > nodes.Length
    }

    method Reindex()
      modifies this`head
      ensures (head < nodes.Length && Unlinked(nodes[head]))
        || (head == 0 && forall n :: 0 <= n < nodes.Length ==> !Unlinked(nodes[n]))
    {
      head := 0;
      for i := 0 to nodes.Length
        invariant head == 0
        invariant forall n :: 0 <= n < i ==> !Unlinked(nodes[n])
      {
        if nodes[i].prev == NIL && nodes[i].next == NIL {
          head := i;
          return;
        }
      }
    }

    /** A node is handed out only when it is not on the list, and NIL only when none is spare, as none
        ever is again once `head` has passed the end.  When no node from `head` on is linked, nodes that
        were deleted are not found again. */
    method NewSection() returns (n: int)
      requires Stores(nodes[..], runs)
      modifies this`head
      ensures n == NIL <==> !old(Spare())
      ensures n == NIL ==> !Spare()
      ensures n != NIL ==> 0 <= n < nodes.Length && Unlinked(nodes[n])
      ensures n != NIL && |runs| >= 2 ==> forall k :: 0 <= k < |runs| ==> runs[k].node != n
      ensures old(Fresh()) ==> Fresh() && (n == NIL <==> old(head) >= nodes.Length)
      ensures old(Fresh()) && n != NIL ==> n == old(head) && head == n + 1
      ensures old(head) >= nodes.Length || old(Fresh() && n == NIL) ==> head == old(head)
    {
      ghost var was := head;
      if Fresh() {
        SpareWhenFresh(nodes[..], head, runs);
      }
      if head >= nodes.Length {
        return NIL;
      }
      var at := head;
      if nodes[at].prev != NIL || nodes[at].next != NIL {
        Reindex();
        at := head;
        if nodes[at].prev != NIL || nodes[at].next != NIL {
          return NIL;
        }
      }
      head := head + 1;
      n := at;
      if |runs| >= 2 {
        UnlinkedIsOff(nodes[..], runs, at);
      }
    }

    method DeleteSection(section: nat)
      requires section < nodes.Length
      modifies nodes
      ensures nodes[..] == old(nodes[..])[section := UNUSED]
    {
      nodes[section] := UNUSED;
    }

    /** The sections up to `at` and from `at` on become two; false when no node was left for the
        second, in which case the source goes on to write through NULL. */
    method SectionSplit(target: nat, at: nat, ghost k: nat) returns (ok: bool)
      requires Listed() && |runs| >= 2 && k < |runs| && runs[k].node == target && runs[k].start <= at
      modifies this`head, this`runs, nodes
      ensures Listed()
      ensures at >= old(runs[k].End()) ==> ok && runs == old(runs)
      ensures !ok ==> runs == old(runs) && !Spare()
      ensures ok && at < old(runs[k].End()) ==> k + 1 < |runs| && runs == Split(old(runs), k, runs[k + 1].node, at)
      ensures ok <==> at >= old(runs[k].End()) || old(head) < nodes.Length
      ensures head == old(head) + (if ok && at < old(runs[k].End()) then 1 else 0)
    {
      hide Tiles, Stores, FreshAt;
      NodeAt(nodes[..], runs, k);
      var t := nodes[target];
      if at >= t.start + t.pages {
        return true;
      }
      var n := NewSection();
      if n == NIL {
        return false;
      }
      ghost var was, before := nodes[..], runs;
      if t.next != NIL {
        NodeAt(nodes[..], runs, k + 1);
        nodes[t.next] := nodes[t.next].(prev := n);
        nodes[n] := nodes[n].(prev := target, next := t.next);
      } else {
        nodes[n] := nodes[n].(prev := target);
      }
      nodes[target] := nodes[target].(next := n);
      nodes[n] := nodes[n].(kind := t.kind, pages := t.pages - (at - t.start), start := at);
      nodes[target] := nodes[target].(pages := t.pages - (t.start + t.pages - at));
      assert nodes[..] == Cleft(was, before, k, n, at);
      CleftStores(was, before, k, n, at, head);
      SplitTiles(before, view, k, n, at);
      runs := Split(runs, k, n, at);
      return true;
    }

    /** Two sections of one kind become one, stored in the later node. */
    method SectionCombineNext(target: nat, ghost k: nat)
      requires Listed() && 0 < k && k + 1 < |runs| && runs[k].node == target
      requires |runs| > 2
      modifies this`runs, nodes
      ensures Listed()
      ensures runs == if old(runs)[k].kind == old(runs)[k + 1].kind then MergeNext(old(runs), k) else old(runs)
    {
      hide Tiles, Links;
      MergeNextStores(nodes[..], runs, k);
      var t := nodes[target];
      if t.next == NIL || t.kind != nodes[t.next].kind {
        return;
      }
      ghost var was := nodes[..];
      EditNodes(runs, k, head);
      nodes[t.next] := nodes[t.next].(start := t.start);
      nodes[t.next] := nodes[t.next].(pages := nodes[t.next].pages + t.pages);
      nodes[t.next] := nodes[t.next].(prev := t.prev);
      nodes[t.prev] := nodes[t.prev].(next := t.next);
      DeleteSection(target);
      assert nodes[..] == was[t.next := was[t.next].(start := t.start, pages := was[t.next].pages + t.pages,
                                                     prev := t.prev)]
                             [t.prev := was[t.prev].(next := t.next)][target := UNUSED];
      MergeNextTiles(runs, view, k);
      StillFresh(was, nodes[..], head, runs, MergeNext(runs, k));
      runs := MergeNext(runs, k);
    }

    /** Two sections of one kind become one, stored in the earlier node. */
    method SectionCombinePrev(target: nat, ghost k: nat)
      requires Listed() && 0 < k && k + 1 < |runs| && runs[k].node == target
      requires |runs| > 2
      modifies this`runs, nodes
      ensures Listed()
      ensures runs == if old(runs)[k].kind == old(runs)[k - 1].kind then MergePrev(old(runs), k) else old(runs)
    {
      hide Tiles, Links;
      MergePrevStores(nodes[..], runs, k);
      EditNodes(runs, k, head);
      var t := nodes[target];
      if t.prev == NIL || t.kind != nodes[t.prev].kind {
        return;
      }
      ghost var was := nodes[..];
      nodes[t.prev] := nodes[t.prev].(pages := nodes[t.prev].pages + t.pages);
      nodes[t.prev] := nodes[t.prev].(next := t.next);
      nodes[t.next] := nodes[t.next].(prev := t.prev);
      DeleteSection(target);
      assert nodes[..] == was[t.prev := was[t.prev].(pages := was[t.prev].pages + t.pages, next := t.next)]
                             [t.next := was[t.next].(prev := t.prev)][target := UNUSED];
      MergePrevTiles(runs, view, k);
      StillFresh(was, nodes[..], head, runs, MergePrev(runs, k));
      runs := MergePrev(runs, k);
    }

    /** An empty section leaves the list. */
    method UnlinkEmpty(target: nat, ghost k: nat)
      requires Listed() && 0 < k && k + 1 < |runs| && runs[k].node == target && runs[k].pages == 0
      modifies this`runs, nodes
      ensures Listed() && runs == Drop(old(runs), k)
    {
      hide Tiles;
      var t := nodes[target];
      assert t.prev == runs[k - 1].node && t.next == runs[k + 1].node;
      ghost var was, before := nodes[..], runs;
      nodes[t.next] := nodes[t.next].(prev := t.prev);
      nodes[t.prev] := nodes[t.prev].(next := t.next);
      DeleteSection(target);
      runs := Drop(runs, k);
      assert DropWrites(was, nodes[..], before, before, k);
      DropStores(was, nodes[..], before, before, k);
      DropTiles(before, view, k);
      EditNodes(before, k, head);
      StillFresh(was, nodes[..], head, before, runs);
    }

    /** The contents of *selected. */
    method Read(selected: nat, ghost k: nat) returns (s: Node)
      requires Stores(nodes[..], runs) && k < |runs| && runs[k].node == selected
      ensures s.start == runs[k].start && s.pages == runs[k].pages && s.kind == runs[k].kind
    {
      s := nodes[selected];
    }

    /** selected->prev. */
    method PrevOf(selected: nat, ghost k: nat) returns (prev: int)
      requires Stores(nodes[..], runs) && k < |runs| && runs[k].node == selected
      ensures prev == if k > 0 then runs[k - 1].node else NIL
    {
      prev := nodes[selected].prev;
    }

    /** selected->next. */
    method NextOf(selected: nat, ghost k: nat) returns (next: int)
      requires Stores(nodes[..], runs) && k < |runs| && runs[k].node == selected
      ensures next == if k + 1 < |runs| then runs[k + 1].node else NIL
    {
      next := nodes[selected].next;
    }

    /** The first page of `selected` joins the section before it. */
    method GiveToPrev(selected: nat, ghost k: nat)
      requires Listed() && 0 < k < |runs| && runs[k].node == selected && runs[k].pages > 0
      modifies this`runs, this`view, nodes
      ensures Listed() && runs == ShiftDown(old(runs), k)
      ensures old(runs[k].start) < |old(view)| && view == old(view)[old(runs[k].start) := old(runs[k - 1].kind)]
    {
      hide Tiles;
      var prev := nodes[selected].prev;
      assert prev == runs[k - 1].node;
      ghost var was := nodes[..];
      nodes[prev] := nodes[prev].(pages := nodes[prev].pages + 1);
      nodes[selected] := nodes[selected].(pages := nodes[selected].pages - 1);
      nodes[selected] := nodes[selected].(start := nodes[selected].start + 1);
      ShiftDownTiles(runs, view, k);
      RewriteStores(was, nodes[..], runs, ShiftDown(runs, k));
      StillFresh(was, nodes[..], head, runs, ShiftDown(runs, k));
      view := view[runs[k].start := runs[k - 1].kind];
      runs := ShiftDown(runs, k);
    }

    /** The last page of `selected` joins the section after it. */
    method GiveToNext(selected: nat, ghost k: nat)
      requires Listed() && k + 1 < |runs| && runs[k].node == selected && runs[k].pages > 0
      modifies this`runs, this`view, nodes
      ensures Listed() && old(runs[k + 1].start) > 0 && runs == ShiftUp(old(runs), k)
      ensures old(runs[k + 1].start) <= |old(view)|
      ensures view == old(view)[old(runs[k + 1].start) - 1 := old(runs[k + 1].kind)]
    {
      hide Tiles;
      var next := nodes[selected].next;
      assert next == runs[k + 1].node;
      ghost var was := nodes[..];
      nodes[next] := nodes[next].(start := nodes[next].start - 1);
      nodes[next] := nodes[next].(pages := nodes[next].pages + 1);
      nodes[selected] := nodes[selected].(pages := nodes[selected].pages - 1);
      ShiftUpTiles(runs, view, k);
      RewriteStores(was, nodes[..], runs, ShiftUp(runs, k));
      StillFresh(was, nodes[..], head, runs, ShiftUp(runs, k));
      view := view[runs[k + 1].start - 1 := runs[k + 1].kind];
      runs := ShiftUp(runs, k);
    }

    method SetKind(selected: nat, kind: Kind, ghost k: nat)
      requires Listed() && k < |runs| && runs[k].node == selected && runs[k].pages == 1
      modifies this`runs, this`view, nodes
      ensures Listed() && runs == Paint(old(runs), k, kind)
      ensures old(runs[k].start) < |old(view)| && view == old(view)[old(runs[k].start) := kind]
    {
      hide Tiles;
      ghost var was := nodes[..];
      nodes[selected] := nodes[selected].(kind := kind);
      PaintTiles(runs, view, k, kind);
      RewriteStores(was, nodes[..], runs, Paint(runs, k, kind));
      StillFresh(was, nodes[..], head, runs, Paint(runs, k, kind));
      view := view[runs[k].start := kind];
      runs := Paint(runs, k, kind);
    }

    /** The first page of `selected` becomes a section of its own, of the other kind.  False when
        that needed a node and none was spare. */
    method CutFirst(selected: nat, kind: Kind, ghost k: nat) returns (ok: bool)
      requires Valid() && 0 < k < |runs| && runs[k].node == selected && runs[k].pages > 0
      requires kind != BAD && kind != runs[k].kind
      requires runs[k].pages > 1 || k < |runs| - 1
      requires kind == FREE ==> runs[k - 1].kind != FREE
      requires kind == FREE ==> runs[k].pages > 1 || runs[k + 1].kind != FREE
      modifies this`head, this`runs, this`view, nodes
      ensures Valid()
      ensures !ok ==> view == old(view) && runs == old(runs) && !Spare()
      ensures ok ==> old(runs[k].start) < |old(view)| && view == old(view)[old(runs[k].start) := kind]
      ensures ok <==> old(runs[k].pages) == 1 || old(head) < nodes.Length
      ensures head == old(head) + (if ok && old(runs[k].pages) > 1 then 1 else 0)
    {
      hide Tiles, Stores, Settled, Split;
      SettledEnds(runs);
      ghost var before, start, pages := runs, runs[k].start, runs[k].pages;
      var s := Read(selected, k);
      ok := SectionSplit(selected, s.start + 1, k);
      if ok {
        if pages > 1 {
          SplitParts(before, k, runs[k + 1].node, start + 1);
        }
        ghost var cut := runs;
        SetKind(selected, kind, k);
        assert view[start] == kind;
        if pages == 1 {
          SettledPaint(before, k, kind);
        } else if k < |before| - 1 {
          SettledSplitPaint(before, k, cut[k + 1].node, start + 1, k, kind);
        } else {
          SettledSplitLast(before, k, cut[k + 1].node, start + 1, kind);
        }
      }
    }

    /** The first page of a section that is not USED becomes USED, without a node when it is the only page
        or the section before is USED. */
    method UseFirst(selected: nat, ghost k: nat) returns (ok: bool)
      requires Valid() && 0 < k < |runs| && runs[k].node == selected && runs[k].kind != USED && runs[k].pages > 0
      requires runs[k].kind == FREE || runs[k].pages > 1
      modifies this`head, this`runs, this`view, nodes
      ensures Valid()
      ensures !ok ==> view == old(view) && runs == old(runs) && !Spare()
      ensures ok ==> old(runs[k].start) < |old(view)| && view == old(view)[old(runs[k].start) := USED]
      ensures ok <==> old(runs[k - 1].kind == USED || runs[k].pages == 1 || head < nodes.Length)
      ensures head == old(head) + (if ok && old(runs[k - 1].kind != USED && runs[k].pages > 1) then 1 else 0)
    {
      hide Tiles, Stores, Settled;
      var s := Read(selected, k);
      if s.kind == FREE {
        FreeAfterHead(runs, view, k);
      }
      var prev := PrevOf(selected, k);
      var p := Read(prev, k - 1);
      if p.kind == USED {
        SettledShiftDown(runs, k);
        GiveToPrev(selected, k);
        assert view[s.start] == USED;
        return true;
      }
      ok := CutFirst(selected, USED, k);
    }

    /** The lowest FREE page becomes USED and is returned; 0 when there is none.  It takes a node when the
        page before is not USED and the page behind is FREE, and `ok` is false when there is none then. */
    method AllocPage() returns (ok: bool, page: nat)
      requires Valid()
      modifies this`head, this`runs, this`view, nodes
      ensures Valid()
      ensures !ok ==> view == old(view) && !Spare()
      ensures ok && page == 0 ==> view == old(view) && (allowing ==> FREE !in view)
      ensures ok && page != 0 ==> PageTaken(old(view), page, view) && FREE !in old(view)[..page]
      ensures !allowing || FREE !in old(view) ==> ok && page == 0 && head == old(head)
      ensures forall p: nat :: allowing && Lowest(old(view), p) ==>
        && 0 < p < |old(view)| - 1 && (ok ==> page == p)
        && (!ok <==> old(view)[p - 1] != USED && old(view)[p + 1] == FREE && old(head) >= nodes.Length)
        && head == old(head) + (if ok && old(view)[p - 1] != USED && old(view)[p + 1] == FREE then 1 else 0)
    {
      hide Tiles, Stores, Settled, FreshAt;
      if !allowing {
        return true, 0;
      }
      HeadStarts(runs, view);
      var selected: int := 0;
      ghost var k: nat := 0;
      while selected != NIL
        invariant head == old(head)
        invariant Valid() && view == old(view)
        invariant if selected == NIL then k == |runs| else k < |runs| && runs[k].node == selected
        invariant forall j :: 0 <= j < k ==> runs[j].kind != FREE
        decreases |runs| - k
      {
        var s := Read(selected, k);
        if s.pages == 0 {
          SettledDrop(runs, k);
          var prev := PrevOf(selected, k);
          UnlinkEmpty(selected, k);
          selected := NextOf(prev, k - 1);
          continue;
        }
        if s.kind == FREE {
          page := s.start;
          FirstFree(runs, view, k);
          forall p: nat | Lowest(view, p)
            ensures p == page
          {
            LowestIsOne(view, p, page);
          }
          ok := UseFirst(selected, k);
          return ok, page;
        }
        selected := NextOf(selected, k);
        k := k + 1;
      }
      NoneBefore(runs, view, k);
      assert view[..|view|] == view;
      return true, 0;
    }

    /** The one page of a section becomes USED, and the section joins the USED ones beside it. */
    method LockSingle(selected: nat, ghost k: nat)
      requires Valid() && 0 < k < |runs| - 1 && runs[k].node == selected && runs[k].pages == 1
      modifies this`runs, this`view, nodes
      ensures Valid()
      ensures old(runs[k].start) < |old(view)| && view == old(view)[old(runs[k].start) := USED]
      ensures Joined(old(runs), k, runs)
    {
      hide Tiles, Stores, Settled, FreshAt, Joined, MergeNext, MergePrev;
      SettledPaint(runs, k, USED);
      JoinedNow(runs, view, k);
      SetKind(selected, USED, k);
      assert view[runs[k].start] == USED;
      SettledHead(runs);
      var prev := PrevOf(selected, k);
      var next := NextOf(selected, k);
      var p := Read(prev, k - 1);
      var n := Read(next, k + 1);
      if p.kind == USED && n.kind == USED {
        SettledMergeNext(runs, k);
        MergeNextParts(runs, k);
        SectionCombineNext(selected, k);
        SettledMergeNext(runs, k - 1);
        SectionCombineNext(prev, k - 1);
      } else if p.kind == USED {
        SettledMergePrev(runs, k);
        SectionCombinePrev(selected, k);
      } else if n.kind == USED {
        SettledMergeNext(runs, k);
        SectionCombineNext(selected, k);
      }
    }

    /** pmm_lock_page on an empty section: its page count wraps, or it is marked USED as it is. */
    method LockNone(selected: nat, ghost k: nat)
      requires Stores(nodes[..], runs) && 0 < k < |runs| && runs[k].node == selected && runs[k].pages == 0
      modifies this`runs, nodes
      ensures Stores(nodes[..], runs) && runs == Stray(old(runs), k)
    {
      hide Stores;
      StrayStores(nodes[..], runs, k);
      ghost var was := nodes[..];
      var prev := nodes[selected].prev;
      if nodes[prev].kind == USED {
        nodes[prev] := nodes[prev].(pages := nodes[prev].pages + 1);
        nodes[selected] := nodes[selected].(pages := WRAPPED - 1, start := nodes[selected].start + 1);
      } else {
        nodes[selected] := nodes[selected].(kind := USED);
      }
      assert nodes[..] == StrayNodes(was, prev, selected);
      runs := Stray(runs, k);
    }

    /** pmm_lock_page on the first page of a section. */
    method LockFirst(selected: nat, ghost k: nat) returns (out: Outcome)
      requires Valid() && k < |runs| && runs[k].node == selected
      modifies this`head, this`runs, this`view, nodes
      ensures out.Astray? <==> old(runs[k].pages) == 0
      ensures out.NullRead? <==> old(runs[k].pages > 0 && (k == 0 || (k == |runs| - 1 && runs[k].pages == 1)))
      ensures out.NullRead? ==> Listed() && old(runs[k].start) < |old(view)|
      ensures out.NullRead? ==>
        view == if old(runs[k].pages) == 1 then old(view)[old(runs[k].start) := USED] else old(view)
      ensures out.Astray? ==> 0 < k && Stores(nodes[..], runs) && runs == Stray(old(runs), k)
      ensures out.NoNode? ==> Listed() && view == old(view) && !Spare() && old(runs[k].kind) != USED
      ensures out.Finished? ==> Valid() && old(runs[k].start) < |old(view)|
      ensures out.Finished? ==> view == old(view)[old(runs[k].start) := USED]
      ensures old(runs[k].pages) > 0 ==> HoldsPage(old(runs), k, old(runs[k].start))
      ensures out.NoNode? <==>
        0 < k && old(runs[k].pages > 0 && Short(LockNodes(runs, k, runs[k].start)))
      ensures out.Finished? ==> head == old(head) + old(LockNodes(runs, k, runs[k].start))
      ensures out.Finished? && old(runs[k].pages) == 1 ==> 0 < k < |old(runs)| - 1 && Joined(old(runs), k, runs)
      ensures head >= old(head)
    {
      hide Tiles, Stores, Settled, FreshAt, Joined;
      InView(runs, view, k);
      SettledEnds(runs);
      var s := Read(selected, k);
      var prev := PrevOf(selected, k);
      var next := NextOf(selected, k);
      if s.pages == 1 {
        if prev == NIL || next == NIL {
          SetKind(selected, USED, k);
          return NullRead;
        }
        LockSingle(selected, k);
        return Finished;
      }
      if s.pages == 0 {
        SettledDrop(runs, k);
        LockNone(selected, k);
        return Astray;
      }
      if s.kind == USED {
        assert view[s.start] == USED;
        return Finished;
      }
      if prev == NIL {
        return NullRead;
      }
      var ok := UseFirst(selected, k);
      return if ok then Finished else NoNode;
    }

    /** Page `page` of `selected`, but not its first, becomes a section of its own: node `at`, the
        one after the `k`-th.  False when a node was missing. */
    method Carve(selected: nat, page: nat, ghost k: nat) returns (ok: bool, at: nat)
      requires Listed() && |runs| >= 2 && k < |runs| && runs[k].node == selected && runs[k].start < page < runs[k].End()
      modifies this`head, this`runs, nodes
      ensures Listed()
      ensures !ok ==> !Spare() && (page + 1 == old(runs[k].End()) ==> runs == old(runs))
      ensures ok ==> k + 1 < |runs| && runs[k + 1].node == at
      ensures ok ==> runs[k + 1].start == page && runs[k + 1].pages == 1
      ensures ok && page + 1 == old(runs[k].End()) ==> runs == Split(old(runs), k, at, page)
      ensures ok && page + 1 < old(runs[k].End()) ==>
        k + 2 < |runs| && runs == Split(Split(old(runs), k, at, page), k + 1, runs[k + 2].node, page + 1)
      ensures ok <==> old(head) + (if page + 1 == old(runs[k].End()) then 1 else 2) <= nodes.Length
      ensures ok ==> head == old(head) + (if page + 1 == old(runs[k].End()) then 1 else 2)
      ensures !ok && page + 1 == old(runs[k].End()) ==> head == old(head)
      ensures head >= old(head)
    {
      hide Tiles, Links, Split;
      ghost var before := runs;
      ok := SectionSplit(selected, page, k);
      if !ok {
        return false, selected;
      }
      SplitParts(before, k, runs[k + 1].node, page);
      ghost var cut := runs;
      at := NextOf(selected, k);
      ok := SectionSplit(at, page + 1, k + 1);
      if ok && page + 1 < before[k].End() {
        SplitParts(cut, k + 1, runs[k + 2].node, page + 1);
      }
    }

    /** Page `page` of `selected`, but not its first, becomes USED or FREE; the new section is node
        `at`. */
    method CutInside(selected: nat, page: nat, kind: Kind, ghost k: nat) returns (ok: bool, at: nat)
      requires Valid() && k < |runs| - 1 && runs[k].node == selected
      requires runs[k].start < page < runs[k].End()
      requires kind != BAD && runs[k].kind != kind
      requires kind == FREE ==> page + 1 == runs[k].End() && runs[k + 1].kind != FREE
      modifies this`head, this`runs, this`view, nodes
      ensures !ok ==> Listed() && view == old(view) && !Spare()
      ensures !ok && kind == FREE ==> Valid()
      ensures ok ==> Valid() && page < |old(view)| && view == old(view)[page := kind]
      ensures ok ==> k + 1 < |runs| && runs[k + 1].node == at && runs[k + 1].End() == page + 1
      ensures ok <==> old(head) + (if page + 1 == old(runs[k].End()) then 1 else 2) <= nodes.Length
      ensures ok ==> head == old(head) + (if page + 1 == old(runs[k].End()) then 1 else 2)
      ensures !ok && page + 1 == old(runs[k].End()) ==> head == old(head)
      ensures head >= old(head)
    {
      hide Tiles, Stores, Split;
      ghost var before := runs;
      ok, at := Carve(selected, page, k);
      if ok {
        ghost var carved := runs;
        SetKind(at, kind, k + 1);
        assert view[page] == kind;
        if page + 1 == before[k].End() {
          SettledSplitPaint(before, k, at, page, k + 1, kind);
        } else {
          SettledCarve(before, k, at, carved[k + 2].node, page);
        }
      }
    }

    /** Page `page` of a section that is not USED, but not its first, becomes USED.  The scan goes on
        from node `at`, the `i`-th of the list. */
    method LockInside(selected: nat, page: nat, ghost k: nat) returns (ok: bool, at: nat, ghost i: nat)
      requires Valid() && k < |runs| - 1 && runs[k].node == selected && runs[k].kind != USED
      requires runs[k].start < page < runs[k].End()
      modifies this`head, this`runs, this`view, nodes
      ensures !ok ==> Listed() && view == old(view) && !Spare()
      ensures ok ==> Valid() && page < |old(view)| && view == old(view)[page := USED]
      ensures ok ==> i < |runs| && runs[i].node == at && Behind(runs, i + 1, page, USED)
      ensures ok <==> !old(Short(LockNodes(runs, k, page)))
      ensures ok ==> head == old(head) + old(LockNodes(runs, k, page))
      ensures head >= old(head)
    {
      hide Tiles, Stores, Settled;
      var next := NextOf(selected, k);
      var n := Read(next, k + 1);
      StartAfter(runs, view, k);
      assert n.kind == runs[k + 1].kind && n.start == runs[k].End();
      SettledEnds(runs);
      if n.start - 1 == page && n.kind == USED {
        SettledShiftUp(runs, k);
        GiveToNext(selected, k);
        assert view[page] == USED;
        return true, selected, k;
      }
      ok, at := CutInside(selected, page, USED, k);
      i := k + 1;
      if ok {
        StartAfter(runs, view, i);
      }
    }

    /** pmm_lock_page at a section that starts at the page: the first such section, or the one that has
        taken the page before. */
    method LockStart(selected: nat, page: nat, ghost k: nat, ghost done: bool) returns (out: Outcome)
      requires Valid() && k < |runs| && runs[k].node == selected && runs[k].start == page
      requires if done then 0 < k && runs[k].kind == USED && runs[k].pages > 1 else Reached(runs, k, page)
      modifies this`head, this`runs, this`view, nodes
      ensures |old(runs)| >= 2
      ensures done ==> out.Finished? && Valid() && head == old(head) && view == old(view)
      ensures !done ==> (out.NullRead? <==> ReadsNull(old(runs), page))
      ensures !done ==> (out.Astray? <==> Shadowed(old(runs), page))
      ensures out.NullRead? ==> Listed() && (Single(old(runs), page) ==> page < |old(view)|)
      ensures out.NullRead? ==> view == if Single(old(runs), page) then old(view)[page := USED] else old(view)
      ensures out.Astray? ==> Stores(nodes[..], runs) && Strayed(old(runs), page, runs)
      ensures out.NoNode? ==> Listed() && view == old(view) && !Spare()
      ensures out.Finished? ==> Valid() && page < |old(view)| && view == old(view)[page := USED]
      ensures !done ==> (out.NoNode? <==> !out.NullRead? && !out.Astray? && old(Short(PageNodes(runs, page))))
      ensures !done && out.Finished? ==> head == old(head) + PageNodes(old(runs), page)
      ensures !done && out.Finished? ==> JoinedAt(old(runs), page, runs)
      ensures head >= old(head)
    {
      hide Tiles, Stores, Settled, ReadsNull, Shadowed, Single, FreshAt, Stray, PageNodes, Joined, JoinedAt;
      HeadStarts(runs, view);
      InView(runs, view, k);
      if !done {
        StartsHere(runs, view, k, page);
        if runs[k].pages > 0 {
          SingleHere(runs, view, k, page);
          PageNodesAt(runs, view, k, page);
        }
      }
      ghost var before, was := runs, view;
      out := LockFirst(selected, k);
      if !done && out.Finished? {
        JoinedHere(before, was, k, page, runs);
      }
    }

    /** The middle of a section that is not USED. */
    method LockWithin(selected: nat, page: nat, ghost k: nat) returns (ok: bool, at: nat, ghost i: nat)
      requires Valid() && k < |runs| - 1 && runs[k].node == selected && runs[k].kind != USED
      requires Reached(runs, k, page) && runs[k].start < page < runs[k + 1].start
      modifies this`head, this`runs, this`view, nodes
      ensures |old(runs)| >= 2 && !ReadsNull(old(runs), page) && !Shadowed(old(runs), page)
      ensures ok <==> !old(Short(PageNodes(runs, page)))
      ensures !ok ==> Listed() && view == old(view) && !Spare()
      ensures ok ==> Valid() && page < |old(view)| && view == old(view)[page := USED]
      ensures ok ==> i < |runs| && runs[i].node == at && Behind(runs, i + 1, page, USED)
      ensures ok ==> head == old(head) + PageNodes(old(runs), page)
      ensures forall after :: JoinedAt(old(runs), page, after)
      ensures head >= old(head)
    {
      hide Tiles, Stores, Settled, ReadsNull, Shadowed, FreshAt, PageNodes, Joined, JoinedAt, Behind;
      SettledEnds(runs);
      StartsBefore(runs, view, k, page);
      PageNodesAt(runs, view, k, page);
      NoneJoins(runs, view, k, page);
      ok, at, i := LockInside(selected, page, k);
    }

    /** A page becomes USED, whatever its kind and wherever it lies in its section, and no other page
        changes, unless the scan runs into NULL or into an empty section. */
    method LockPage(page: nat) returns (out: Outcome)
      requires Valid()
      modifies this`head, this`runs, this`view, nodes
      ensures out.NullRead? <==> allowing && ReadsNull(old(runs), page)
      ensures out.Astray? <==> allowing && Shadowed(old(runs), page)
      ensures out.NullRead? ==> Listed() && (Single(old(runs), page) ==> page < |old(view)|)
      ensures out.NullRead? ==> view == if Single(old(runs), page) then old(view)[page := USED] else old(view)
      ensures out.Astray? ==> Stores(nodes[..], runs) && Strayed(old(runs), page, runs)
      ensures out.NoNode? ==> Listed() && view == old(view) && !Spare()
      ensures out.Finished? ==> Valid()
      ensures out.Finished? && !allowing ==> view == old(view) && runs == old(runs)
      ensures out.Finished? && allowing ==> page < |old(view)| && view == old(view)[page := USED]
      ensures out.NoNode? <==> allowing && !out.NullRead? && !out.Astray? && old(Short(PageNodes(runs, page)))
      ensures out.Finished? ==> head == old(head) + (if allowing then PageNodes(old(runs), page) else 0)
      ensures out.Finished? && allowing ==> JoinedAt(old(runs), page, runs)
      ensures head >= old(head)
    {
      hide Tiles, Stores, Settled, ReadsNull, Shadowed, Reached, Single, FreshAt, Stray, PageNodes, LockNodes, Joined,
        JoinedAt;
      if !allowing {
        return Finished;
      }
      HeadStarts(runs, view);
      ReachedFirst(runs, view, page);
      var selected: int := 0;
      ghost var k: nat, done := 0, false;
      while selected != NIL
        invariant !done ==> head == old(head)
        invariant done ==> head == old(head) + PageNodes(old(runs), page) && !old(Short(PageNodes(runs, page)))
        invariant Valid()
        invariant if selected == NIL then k == |runs| else k < |runs| && runs[k].node == selected
        invariant done ==> 0 < page < |old(view)| && view == old(view)[page := USED] && Behind(runs, k, page, USED)
        invariant done ==> !ReadsNull(old(runs), page) && !Shadowed(old(runs), page)
        invariant done ==> forall after :: JoinedAt(old(runs), page, after)
        invariant !done ==> view == old(view) && runs == old(runs) && Reached(runs, k, page)
        invariant !done ==> k < |runs| && runs[k].start <= page
        decreases !done, |runs| - k
      {
        var s := Read(selected, k);
        if s.start == page {
          HeadStarts(runs, view);
          out := LockStart(selected, page, k, done);
          return;
        }
        if s.start < page {
          StepOver(runs, view, k, page);
          var next := NextOf(selected, k);
          if next == NIL {
            return NullRead;
          }
          var n := Read(next, k + 1);
          if n.start > page {
            if s.kind == USED {
              UsedStays(runs, view, k, page);
              return Finished;
            }
            var ok;
            ok, selected, k := LockWithin(selected, page, k);
            if !ok {
              return NoNode;
            }
            done := true;
          }
        } else {
          StartAfter(runs, view, k);
        }
        selected := NextOf(selected, k);
        k := k + 1;
      }
      return Finished;
    }

    /** The one page of a section becomes FREE when neither neighbour is.  Otherwise the combine helpers are
        called, which compare kinds before the page is freed, and the list stays as it is. */
    method FreeSingle(selected: nat, ghost k: nat)
      requires Valid() && 0 < k < |runs| - 1 && runs[k].node == selected && runs[k].kind != FREE && runs[k].pages == 1
      modifies this`runs, this`view, nodes
      ensures Valid() && old(runs[k].start) < |old(view)|
      ensures old(runs[k - 1].kind != FREE && runs[k + 1].kind != FREE) ==>
        runs == Paint(old(runs), k, FREE) && view == old(view)[old(runs[k].start) := FREE]
      ensures old(runs[k - 1].kind == FREE || runs[k + 1].kind == FREE) ==> runs == old(runs) && view == old(view)
    {
      hide Tiles, Stores, Settled, FreshAt;
      InView(runs, view, k);
      var prev := PrevOf(selected, k);
      var next := NextOf(selected, k);
      var p := Read(prev, k - 1);
      var n := Read(next, k + 1);
      if p.kind == FREE {
        FreeAfterHead(runs, view, k - 1);
      }
      if p.kind == FREE && n.kind == FREE {
        SectionCombineNext(selected, k);
        SectionCombineNext(prev, k - 1);
      } else if p.kind == FREE {
        SectionCombinePrev(selected, k);
      } else if n.kind == FREE {
        SectionCombineNext(selected, k);
      } else {
        SettledPaint(runs, k, FREE);
        SetKind(selected, FREE, k);
        assert view[runs[k].start] == FREE;
      }
    }

    /** pmm_free_page on the first page of a section that is not FREE.  The combine helpers compare
        kinds before the page is freed, so with a FREE neighbour a one-page section stays as it is. */
    method FreeFirst(selected: nat, ghost k: nat) returns (out: Outcome)
      requires Valid() && k < |runs| && runs[k].node == selected && runs[k].kind != FREE
      modifies this`head, this`runs, this`view, nodes
      ensures Valid() && !out.Astray?
      ensures out.NullRead? <==> k == 0 || old(k == |runs| - 1 && runs[k].pages == 1)
      ensures !out.Finished? ==> view == old(view) && (out.NoNode? ==> !Spare())
      ensures out.Finished? ==> old(runs[k].start) < |old(view)|
      ensures out.Finished? && old(runs[k].pages > 1 || (runs[k - 1].kind != FREE && runs[k + 1].kind != FREE)) ==>
        view == old(view)[old(runs[k].start) := FREE]
      ensures out.Finished? && !old(runs[k].pages > 1 || (runs[k - 1].kind != FREE && runs[k + 1].kind != FREE)) ==>
        view == old(view)
      ensures out.NoNode? <==> 0 < k && old(runs[k].pages > 1 && runs[k - 1].kind != FREE && head >= nodes.Length)
      ensures out.Finished? ==>
        head == old(head) + (if old(runs[k].pages > 1 && runs[k - 1].kind != FREE) then 1 else 0)
      ensures !out.Finished? ==> head == old(head)
    {
      hide Tiles, Stores, Settled, FreshAt;
      SettledEnds(runs);
      InView(runs, view, k);
      var s := Read(selected, k);
      var prev := PrevOf(selected, k);
      var next := NextOf(selected, k);
      if prev == NIL || (s.pages == 1 && next == NIL) {
        return NullRead;
      }
      if s.pages == 1 {
        FreeSingle(selected, k);
        return Finished;
      }
      var p := Read(prev, k - 1);
      if p.kind == FREE {
        FreeAfterHead(runs, view, k - 1);
        SettledShiftDown(runs, k);
        GiveToPrev(selected, k);
        assert view[s.start] == FREE;
        return Finished;
      }
      var ok := CutFirst(selected, FREE, k);
      return if ok then Finished else NoNode;
    }

    /** The last page of a section of several that is not FREE becomes FREE.  The scan goes on from
        node `at`, the `i`-th of the list. */
    method FreeLast(selected: nat, page: nat, ghost k: nat) returns (ok: bool, at: nat, ghost i: nat)
      requires Valid() && k < |runs| - 1 && runs[k].node == selected && runs[k].kind != FREE
      requires runs[k].start < page && page + 1 == runs[k].End()
      modifies this`head, this`runs, this`view, nodes
      ensures Valid()
      ensures !ok ==> view == old(view) && !Spare()
      ensures ok ==> page < |old(view)| && view == old(view)[page := FREE]
      ensures ok ==> i < |runs| && runs[i].node == at && Behind(runs, i + 1, page, FREE)
      ensures ok <==> old(runs[k + 1].kind == FREE || head < nodes.Length)
      ensures ok ==> head == old(head) + (if old(runs[k + 1].kind) == FREE then 0 else 1)
      ensures !ok ==> head == old(head)
    {
      hide Tiles, Stores, Settled, FreshAt;
      var next := NextOf(selected, k);
      var n := Read(next, k + 1);
      StartAfter(runs, view, k);
      if n.kind == FREE {
        FreeAfterHead(runs, view, k + 1);
        SettledShiftUp(runs, k);
        GiveToNext(selected, k);
        assert view[page] == FREE;
        return true, selected, k;
      }
      ok, at := CutInside(selected, page, FREE, k);
      i := k + 1;
      if ok {
        StartAfter(runs, view, i);
      }
    }

    /** pmm_free_page at the first section that starts at the page, which is not FREE. */
    method FreeStart(selected: nat, page: nat, ghost k: nat) returns (out: Outcome)
      requires Valid() && k < |runs| && runs[k].node == selected && runs[k].kind != FREE
      requires Reached(runs, k, page) && runs[k].start == page
      modifies this`head, this`runs, this`view, nodes
      ensures Valid() && !out.Astray? && |old(runs)| >= 2
      ensures out.NullRead? <==> ReadsNull(old(runs), page)
      ensures !out.Finished? ==> view == old(view) && (out.NoNode? ==> !Spare())
      ensures out.Finished? && !Frees(old(runs), page) ==> view == old(view)
      ensures out.Finished? && Frees(old(runs), page) ==>
        page < |old(view)| && old(view)[page] != FREE && view == old(view)[page := FREE]
      ensures out.NoNode? <==> !out.NullRead? && PageSplits(old(runs), page) && old(head) >= nodes.Length
      ensures head == old(head) + (if out.Finished? && PageSplits(old(runs), page) then 1 else 0)
    {
      hide Tiles, Stores, Settled, FreshAt, PageSplits, Frees, ReadsNull, Shadowed, Reached;
      HeadStarts(runs, view);
      InView(runs, view, k);
      StartsHere(runs, view, k, page);
      FreesFirst(runs, view, k, page);
      SplitsFirst(runs, view, k, page);
      out := FreeFirst(selected, k);
    }

    /** The middle of a section that is not FREE: its last page becomes FREE, and no other. */
    method FreeWithin(selected: nat, page: nat, ghost k: nat) returns (ok: bool, at: nat, ghost i: nat)
      requires Valid() && k < |runs| - 1 && runs[k].node == selected && runs[k].kind != FREE
      requires Reached(runs, k, page) && runs[k].start < page < runs[k + 1].start
      modifies this`head, this`runs, this`view, nodes
      ensures Valid() && page < |old(view)| && old(view)[page] != FREE
      ensures ok <==> !(PageSplits(old(runs), page) && old(head) >= nodes.Length)
      ensures !ok ==> view == old(view) && !Spare()
      ensures ok ==> view == if Frees(old(runs), page) then old(view)[page := FREE] else old(view)
      ensures ok ==> i < |runs| && runs[i].node == at && Behind(runs, i + 1, page, FREE)
      ensures head == old(head) + (if ok && PageSplits(old(runs), page) then 1 else 0)
    {
      hide Tiles, Stores, Settled, FreshAt, PageSplits, Frees, ReadsNull, Shadowed, Reached;
      SettledEnds(runs);
      StepOver(runs, view, k, page);
      FreesInside(runs, view, k, page);
      SplitsInside(runs, view, k, page);
      var next := NextOf(selected, k);
      var n := Read(next, k + 1);
      if n.start - 1 == page {
        ok, at, i := FreeLast(selected, page, k);
        return;
      }
      return true, selected, k;
    }

    /** pmm_free_page, on any page: it becomes FREE exactly when there is a case for where it lies, and
        no other page ever changes; and the scan runs into NULL exactly at the ends of the list. */
    method FreePage(page: nat) returns (out: Outcome)
      requires Valid()
      modifies this`head, this`runs, this`view, nodes
      ensures Valid() && !out.Astray?
      ensures out.NullRead? <==> allowing && ReadsNull(old(runs), page)
      ensures !out.Finished? ==> view == old(view) && (out.NoNode? ==> !Spare())
      ensures out.Finished? && (!allowing || !Frees(old(runs), page)) ==> view == old(view)
      ensures out.Finished? && allowing && Frees(old(runs), page) ==>
        page < |old(view)| && old(view)[page] != FREE && view == old(view)[page := FREE]
      ensures out.NoNode? <==>
        allowing && !out.NullRead? && PageSplits(old(runs), page) && old(head) >= nodes.Length
      ensures out.Finished? ==> head == old(head) + (if allowing && PageSplits(old(runs), page) then 1 else 0)
      ensures head >= old(head)
    {
      hide Tiles, Stores, Settled, FreshAt, PageSplits, Frees, ReadsNull, Shadowed, Reached;
      if !allowing {
        return Finished;
      }
      ghost var was, frees, splits := view, Frees(runs, page), PageSplits(runs, page);
      HeadStarts(runs, view);
      ReachedFirst(runs, view, page);
      var selected: int := 0;
      ghost var k: nat, passed := 0, false;
      while selected != NIL
        invariant head == old(head) + (if passed && splits then 1 else 0)
        invariant passed && splits ==> old(head) < nodes.Length
        invariant Valid()
        invariant if selected == NIL then k == |runs| else k < |runs| && runs[k].node == selected
        invariant passed ==> Behind(runs, k, page, FREE) && !ReadsNull(old(runs), page)
        invariant passed ==> page < |was| && (frees ==> was[page] != FREE)
        invariant passed ==> view == if frees then was[page := FREE] else was
        invariant !passed ==> view == was && runs == old(runs) && Reached(runs, k, page)
        invariant !passed ==> k < |runs| && runs[k].start <= page
        decreases !passed, |runs| - k
      {
        var s := Read(selected, k);
        if s.start == page {
          if s.kind == FREE {
            if !passed {
              FreeStays(runs, view, k, page);
            }
            return Finished;
          }
          out := FreeStart(selected, page, k);
          return;
        }
        if s.start < page {
          StepOver(runs, view, k, page);
          var next := NextOf(selected, k);
          if next == NIL {
            return NullRead;
          }
          var n := Read(next, k + 1);
          if n.start > page {
            if s.kind == FREE {
              FreesInside(runs, view, k, page);
              SplitsInside(runs, view, k, page);
              return Finished;
            }
            passed := true;
            var ok;
            ok, selected, k := FreeWithin(selected, page, k);
            if !ok {
              return NoNode;
            }
          }
        } else {
          StartAfter(runs, view, k);
        }
        selected := NextOf(selected, k);
        k := k + 1;
      }
      return Finished;
    }

    /** Every page of the stretch is locked; the first that cannot be ends the call.  A stretch of FREE
        pages needs the nodes that its first page needs, and no more. */
    method LockPages(page: nat, count: nat) returns (out: Outcome)
      requires Valid()
      modifies this`head, this`runs, this`view, nodes
      ensures out.NoNode? ==> !Spare()
      ensures AllFree(old(view), page, count) ==> out.Finished? || out.NoNode?
      ensures AllFree(old(view), page, count) ==>
        (out.NoNode? <==> count > 0 && allowing && old(Short(PageNodes(runs, page))))
      ensures AllFree(old(view), page, count) && out.Finished? ==>
        head == old(head) + (if count > 0 && allowing then PageNodes(old(runs), page) else 0)
      ensures out.Finished? ==> Valid() && |view| == |old(view)|
      ensures out.Finished? ==> forall p :: 0 <= p < |view| ==>
        view[p] == if allowing && page <= p < page + count then USED else old(view)[p]
      ensures head >= old(head)
    {
      hide Tiles, Stores, Settled, ReadsNull, Shadowed, FreshAt, PageNodes, JoinedAt;
      ghost var free, needs := AllFree(view, page, count), PageNodes(runs, page);
      for i := 0 to count
        invariant head >= old(head)
        invariant Valid() && |view| == |old(view)|
        invariant i == 0 ==> runs == old(runs) && head == old(head)
        invariant free && i > 0 ==> head == old(head) + (if allowing then needs else 0)
        invariant free && i > 0 && allowing ==> !old(Short(PageNodes(runs, page)))
        invariant forall p :: 0 <= p < |view| ==>
          view[p] == if allowing && page <= p < page + i then USED else old(view)[p]
      {
        if free {
          FreeInReach(runs, view, page + i);
          if allowing && i > 0 {
            BehindUsed(runs, view, page + i);
          }
        }
        out := LockPage(page + i);
        if !out.Finished? {
          return;
        }
      }
      return Finished;
    }

    /** The section after `current` disappears into it. */
    method Absorb(current: nat, ghost k: nat)
      requires Stores(nodes[..], runs) && Fresh() && k + 1 < |runs| && runs[k].node == current
      modifies this`runs, nodes
      ensures Stores(nodes[..], runs) && Fresh() && runs == Swallow(old(runs), k)
    {
      hide Stores, FreshAt;
      AbsorbedStores(nodes[..], runs, k);
      AbsorbedFresh(nodes[..], runs, k, head);
      ghost var was := nodes[..];
      var next := nodes[current].next;
      nodes[current] := nodes[current].(pages := (nodes[current].pages + nodes[next].pages) % SPAN);
      if nodes[next].next != NIL {
        nodes[current] := nodes[current].(next := nodes[next].next);
        DeleteSection(nodes[nodes[current].next].prev);
        nodes[nodes[current].next] := nodes[nodes[current].next].(prev := current);
      } else {
        DeleteSection(next);
        nodes[current] := nodes[current].(next := NIL);
      }
      assert nodes[..] == Absorbed(was, runs, k);
      runs := Swallow(runs, k);
    }

    /** Merges every pair of neighbours of one kind, on any list, whatever it shows.  A pass that detects
        a pair has removed a section, so the passes end. */
    method Recombine()
      requires Stores(nodes[..], runs) && Fresh() && |runs| > 0 && runs[0].node == 0
      modifies this`runs, nodes
      ensures Stores(nodes[..], runs) && Fresh()
      ensures runs == Coalesce(old(runs)) && Alternating(runs, |runs|)
    {
      hide Stores, Swallow, Coalesce, FreshAt;
      var detected, iteration := false, 0;
      while !(!detected && iteration > 0)
        invariant Stores(nodes[..], runs) && Fresh() && |runs| > 0 && runs[0].node == 0
        invariant Coalesce(runs) == Coalesce(old(runs))
        invariant !detected && iteration > 0 ==> Alternating(runs, |runs|)
        decreases iteration == 0, |runs|, detected
      {
        detected := false;
        var current: int := 0;
        ghost var k: nat, size := 0, |runs|;
        while current != NIL
          invariant Stores(nodes[..], runs) && Fresh() && |runs| > 0 && runs[0].node == 0
          invariant Coalesce(runs) == Coalesce(old(runs))
          invariant current != NIL ==> k < |runs| && runs[k].node == current
          invariant if detected then |runs| < size else |runs| == size
          invariant !detected ==> Alternating(runs, if current == NIL then |runs| else k + 1)
          decreases current != NIL, |runs| - k
        {
          var next := NextOf(current, k);
          if next == NIL {
            break;
          }
          var c := Read(current, k);
          var n := Read(next, k + 1);
          if c.kind != n.kind {
            current, k := next, k + 1;
            continue;
          }
          detected := true;
          CoalesceSwallow(runs, k);
          SwallowParts(runs, k);
          Absorb(current, k);
          current := NextOf(current, k);
          k := k + 1;
        }
        iteration := iteration + 1;
      }
      CoalesceAlternating(runs);
    }

    /** pmm_alloc_pool behind the malloc of its record: `count` contiguous FREE pages, from the first FREE
        section that has so many, become USED; 0 when no section has so many, and then the list is
        merged. */
    method PlacePool(count: nat) returns (ok: bool, base: nat)
      requires Valid()
      modifies this`head, this`runs, this`view, nodes
      ensures !ok ==> !Spare()
      ensures ok ==> Valid() && |view| == |old(view)|
      ensures ok && base == 0 ==> view == old(view)
      ensures ok && base == 0 && allowing ==> forall k :: 0 <= k < |old(runs)| ==> !Fits(old(runs)[k], count)
      ensures ok && base == 0 && allowing && count > 0 ==> forall b: nat :: !AllFree(old(view), b, count)
      ensures ok && base != 0 && count > 0 ==>
        AllFree(old(view), base, count) && forall b: nat :: b < base ==> !AllFree(old(view), b, count)
      ensures ok && base != 0 ==> FirstFit(old(runs), count, base) && PoolTaken(old(view), base, count, view)
      ensures !ok ==> allowing && FirstFit(old(runs), count, base)
      ensures (ok && base == 0) || count == 0 ==> ok && head == old(head)
      ensures allowing && count > 0 && (base != 0 || !ok) ==>
        && 0 < base < |old(view)| - 1
        && (!ok <==> old(view)[base - 1] != USED && old(view)[base + 1] == FREE && old(head) >= nodes.Length)
        && (ok ==> head == old(head) + (if old(view)[base - 1] != USED && old(view)[base + 1] == FREE then 1 else 0))
      ensures head >= old(head)
    {
      hide Tiles, Stores, Settled, NotAllBad, FreshAt, Coalesce, PageNodes;
      if !allowing {
        return true, 0;
      }
      HeadStarts(runs, view);
      var section: int := 0;
      ghost var k: nat := 0;
      while section != NIL
        invariant head == old(head)
        invariant Valid() && runs == old(runs) && view == old(view)
        invariant if section == NIL then k == |runs| else k < |runs| && runs[k].node == section
        invariant forall j :: 0 <= j < k ==> !Fits(runs[j], count)
        decreases |runs| - k
      {
        var s := Read(section, k);
        if s.pages >= count && s.kind == FREE {
          FreeAfterHead(runs, view, k);
          if count > 0 {
            FirstNeeds(runs, view, k);
            LowestStretch(runs, view, k, count);
          }
          base := s.start;
          var out := LockPages(base, count);
          return out.Finished?, base;
        }
        section := NextOf(section, k);
        k := k + 1;
      }
      if count > 0 {
        LowestStretch(runs, view, k, count);
      }
      SettledEnds(runs);
      CoalesceTiles(runs, view);
      CoalesceEnds(runs);
      Recombine();
      StillSettled(runs, view);
      return true, 0;
    }

    /** A fresh node for a section behind the last one. */
    method LinkLast(current: nat, start: nat, pages: nat, kind: Kind) returns (n: int)
      requires Stores(nodes[..], runs) && Fresh() && |runs| > 0 && runs[|runs| - 1].node == current
      modifies this`head, this`runs, nodes
      ensures n == NIL <==> old(head) >= nodes.Length
      ensures n != NIL ==> n == old(head) && head == n + 1 && Stores(nodes[..], runs) && Fresh()
      ensures n != NIL ==> runs == old(runs) + [Run(n, start, pages, kind)]
    {
      hide Stores;
      n := NewSection();
      if n == NIL {
        return;
      }
      ghost var was, section := nodes[..], Run(n, start, pages, kind);
      AppendStores(was, runs, section);
      nodes[current] := nodes[current].(next := n);
      nodes[n] := nodes[n].(prev := current, next := NIL, start := start);
      nodes[n] := nodes[n].(kind := kind, pages := pages);
      assert nodes[..] == Appended(was, runs, section);
      StillFresh(was, nodes[..], head, runs, runs + [section]);
      runs := runs + [section];
    }

    /** A fresh node for a section between the last one and the one before it. */
    method LinkGap(current: nat, start: nat, pages: nat, kind: Kind) returns (n: int)
      requires Stores(nodes[..], runs) && Fresh() && |runs| > 1 && runs[|runs| - 1].node == current
      modifies this`head, this`runs, nodes
      ensures n == NIL <==> old(head) >= nodes.Length
      ensures n != NIL ==> n == old(head) && head == n + 1 && Stores(nodes[..], runs) && Fresh()
      ensures n != NIL ==>
        runs == old(runs)[..|old(runs)| - 1] + [Run(n as nat, start, pages, kind), old(runs)[|old(runs)| - 1]]
    {
      hide Stores;
      n := NewSection();
      if n == NIL {
        return;
      }
      ghost var was, k, gap := nodes[..], |runs| - 2, Run(n, start, pages, kind);
      var prev := PrevOf(current, k + 1);
      InsertStores(was, runs, k, gap);
      assert prev != n && current != n;
      nodes[prev] := nodes[prev].(next := n);
      nodes[n] := nodes[n].(prev := prev, next := current, start := start);
      nodes[n] := nodes[n].(pages := pages, kind := kind);
      nodes[current] := nodes[current].(prev := n);
      assert nodes[..] == Inserted(was, runs, k, gap);
      assert Insert(runs, k, gap) == runs[..|runs| - 1] + [gap, runs[|runs| - 1]];
      StillFresh(was, nodes[..], head, runs, Insert(runs, k, gap));
      runs := Insert(runs, k, gap);
    }

    /** The sections for one entry of the memory map: its own, and before it a BAD one when the last
        section does not end where the entry starts.  False when a node was missing. */
    method Append(current: nat, e: MapEntry) returns (ok: bool, last: nat)
      requires Stores(nodes[..], runs) && Fresh() && |runs| > 0 && runs[|runs| - 1].node == current
      modifies this`head, this`runs, nodes
      ensures ok <==> old(head) + |Tail(old(runs)[|old(runs)| - 1].End(), e, old(head))| <= nodes.Length
      ensures ok ==> Stores(nodes[..], runs) && Fresh() && |runs| > 0 && runs[|runs| - 1].node == last
      ensures ok ==> runs == old(runs) + Tail(old(runs)[|old(runs)| - 1].End(), e, old(head))
      ensures ok ==> head == old(head) + |runs| - |old(runs)|
    {
      hide Stores, FreshAt;
      ghost var before, k := runs, |runs| - 1;
      var n := LinkLast(current, e.base, e.length, Interpret(e.signal));
      if n == NIL {
        return false, current;
      }
      var s := Read(current, k);
      var end := (s.start + s.pages) % SPAN;
      if end != e.base {
        var g := LinkGap(n, end, (e.base - end) % SPAN, BAD);
        if g == NIL {
          return false, current;
        }
        TwoBehind(before, runs[k + 1], runs[k + 2]);
      }
      return true, n;
    }

    /** pmm_recalculate_free_memory, in pages. */
    method Recalculate() returns (free: nat)
      requires Listed() && |runs| > 0 && runs[0].node == 0
      ensures free == Count(view)
    {
      hide Tiles, Stores, Count;
      free := 0;
      var current: int := 0;
      ghost var k: nat := 0;
      CountSection(runs, view, 0);
      while current != NIL
        invariant if current == NIL then k == |runs| else k < |runs| && runs[k].node == current
        invariant current == NIL ==> free == Count(view)
        invariant current != NIL ==> runs[k].End() <= |view| && free == Count(view[..runs[k].start])
        decreases |runs| - k
      {
        var s := Read(current, k);
        CountSection(runs, view, k);
        if s.kind == FREE {
          free := free + s.pages;
        }
        current := NextOf(current, k);
        k := k + 1;
        if k < |runs| {
          CountSection(runs, view, k);
        }
      }
    }

    /** The sum that pmm_start forms first. */
    static method SumFree(map_: MemoryMap) returns (free: nat)
      ensures free == FreePages(map_)
    {
      free := 0;
      for i := 0 to |map_|
        invariant free == FreePages(map_[..i])
      {
        assert map_[..i + 1][..i] == map_[..i];
        if map_[i].signal == MapFree {
          free := free + map_[i].length;
        }
      }
      assert map_[..|map_|] == map_;
    }

    /** The first entry of free memory that can hold the bookkeeping data, if there is one. */
    static method FindHost(map_: MemoryMap, pages: nat) returns (h: nat)
      ensures h <= |map_| && (h < |map_| ==> map_[h].signal == MapFree && map_[h].length >= pages)
      ensures forall i :: 0 <= i < h ==> map_[i].signal != MapFree || map_[i].length < pages
    {
      h := 0;
      while h < |map_| && !Hosts(map_[h], pages)
        invariant h <= |map_| && forall i :: 0 <= i < h ==> !Hosts(map_[i], pages)
        decreases |map_| - h
      {
        h := h + 1;
      }
    }

    /** The section for the first megabyte, in node 0. */
    method FirstSection()
      requires nodes.Length > 0 && forall n :: 0 <= n < nodes.Length ==> Unlinked(nodes[n])
      modifies this`head, this`runs, nodes
      ensures Stores(nodes[..], runs) && Fresh() && head == 1
      ensures runs == [Run(0, 0, MEGABYTE, BAD)]
    {
      head := 1;
      nodes[0] := Node(NIL, NIL, 0, MEGABYTE, BAD);
      runs := [Run(0, 0, MEGABYTE, BAD)];
    }

    /** One section for each entry, and one for each gap.  False exactly when there are more of them than
        nodes. */
    method Build(map_: MemoryMap) returns (ok: bool)
      requires FromBoot(map_) && nodes.Length > 0
      requires forall n :: 0 <= n < nodes.Length ==> Unlinked(nodes[n])
      modifies this`head, this`runs, nodes
      ensures ok <==> |Built(map_, |map_|)| <= nodes.Length
      ensures ok ==> Stores(nodes[..], runs) && Fresh() && runs == Built(map_, |map_|)
    {
      hide Stores, FreshAt, Built, Tail;
      FirstSection();
      BuiltFirst(map_);
      var current := 0;
      for i := 0 to |map_|
        invariant Stores(nodes[..], runs) && Fresh() && 0 < head == |runs| <= nodes.Length
        invariant runs == Built(map_, if i == 0 then 1 else i) && runs[|runs| - 1].node == current
      {
        var c := Read(current, |runs| - 1);
        if i > 0 {
          BuiltNext(map_, i);
        }
        if map_[i].base == c.start {
          continue;
        }
        ok, current := Append(current, map_[i]);
        if !ok {
          return;
        }
      }
      return true;
    }

    /** Builds the section list from the memory map and locks the pages that hold the list itself.
        Afterwards every page is what the entries with a section say of it, except that the bookkeeping
        pages are USED, and `freeMemory`, recalculated from the list before that, is what those entries
        have. */
    method Start(map_: MemoryMap) returns (out: Startup, host: nat, freeMemory: nat)
      requires FromBoot(map_) && !allowing
      requires nodes.Length == Capacity(DataPages(FreePages(map_)))
      requires forall n :: 0 <= n < nodes.Length ==> Unlinked(nodes[n])
      modifies this, nodes
      ensures var pages := DataPages(FreePages(map_));
        && host <= |map_| && (host < |map_| ==> map_[host].signal == MapFree && map_[host].length >= pages)
        && forall i :: 0 <= i < host ==> map_[i].signal != MapFree || map_[i].length < pages
      ensures out.Homeless? <==> host == |map_|
      ensures out.Full? <==> host < |map_| && FreePages(map_) > 0 && |Built(map_, |map_|)| > nodes.Length
      ensures out.Garbled? <==> host < |map_| && (FreePages(map_) == 0 || (!out.Full? && !Sound(map_)))
      ensures out.Started? ==> Sound(map_) && allowing && freeMemory == FreeKept(map_, |map_|)
      ensures out.Started? && NoneLost(map_) ==> freeMemory == FreePages(map_)
      ensures out.Started? && NoneLost(map_) ==> out.locked.Finished? || out.locked.NoNode?
      ensures out == Started(NoNode) ==> !Spare()
      ensures out == Started(Finished) ==> Valid() && |view| == EndOf(map_, |map_|)
      ensures out == Started(Finished) ==> Booted(map_, map_[host].base, DataPages(FreePages(map_)), view)
      ensures out == Started(Finished) ==> KindsOf(map_, map_[host].base, DataPages(FreePages(map_)), view)
    {
      hide Tiles, Stores, Settled, Filled, Alternating, DataPages, Capacity, Count, FreePages, FreeKept, EndOf, FreshAt,
        Built, Coalesce, Sound, Shown, NotAllBad, NoneLost, KindsOf;
      host, freeMemory := 0, 0;
      var free := SumFree(map_);
      var pages := DataPages(free);
      DataFits(free);
      host := FindHost(map_, pages);
      if host == |map_| {
        return Homeless, host, freeMemory;
      }
      if nodes.Length == 0 {
        return Garbled, host, freeMemory;
      }
      var ok := Build(map_);
      if !ok {
        return Full, host, freeMemory;
      }
      Recombine();
      if !Sound(map_) {
        return Garbled, host, freeMemory;
      }
      KeptAreShown(map_);
      MergedShows(map_);
      MergedEnds(map_);
      view := Shown(map_);
      freeMemory := Recalculate();
      CountShown(map_);
      allowing := true;
      if NoneLost(map_) {
        HostIsFree(map_, host, pages);
      }
      var locked := LockPages(map_[host].base, pages);
      out := Started(locked);
      if locked.Finished? {
        BootedKinds(map_, map_[host].base, pages, view);
      }
    }
  }
}
