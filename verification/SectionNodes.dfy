/** The array nodes that store a section list, and what each group of pointer writes in pfa.c and
    pmm.c does to the list they store.  A pointer to a node is its index in the array, and `NIL`
    stands for NULL. */
module SectionNodes {
  import opened Sections

  const NIL := -1

  datatype Node = Node(prev: int, next: int, start: int, pages: int, kind: Kind)

  /** The node that pmm_delete_section leaves behind, and that an unused array slot holds. */
  const UNUSED := Node(NIL, NIL, 0, 0, USED)

  predicate Unlinked(n: Node) {
    n.prev == NIL && n.next == NIL
  }

  ghost predicate Contents(ns: seq<Node>, runs: seq<Run>) {
    forall k :: 0 <= k < |runs| ==>
      && runs[k].node < |ns|
      && ns[runs[k].node].start == runs[k].start
      && ns[runs[k].node].pages == runs[k].pages
      && ns[runs[k].node].kind == runs[k].kind
  }

  /** `prev` and `next` are mutual inverses along the list and end in NIL. */
  ghost predicate Links(ns: seq<Node>, runs: seq<Run>)
    requires Contents(ns, runs)
  {
    && |runs| > 0
    && ns[runs[0].node].prev == NIL
    && ns[runs[|runs| - 1].node].next == NIL
    && forall j, k :: 0 <= j < |runs| && 0 <= k < |runs| && k == j + 1 ==>
      ns[runs[j].node].next == runs[k].node && ns[runs[k].node].prev == runs[j].node
  }

  /** The nodes `ns` store the list `runs`. */
  ghost predicate Stores(ns: seq<Node>, runs: seq<Run>) {
    Distinct(runs) && Contents(ns, runs) && Links(ns, runs)
  }

  /** pmm_new_section would find a node among `ns`. */
  ghost predicate SpareAt(ns: seq<Node>, head: nat) {
    head < |ns| && exists n :: 0 <= n < |ns| && Unlinked(ns[n])
  }

  predicate Below(runs: seq<Run>, head: nat) {
    forall k :: 0 <= k < |runs| ==> runs[k].node < head
  }

  /** No node from `head` on is linked to another, and the list lies before. */
  ghost predicate FreshAt(ns: seq<Node>, head: nat, runs: seq<Run>) {
    (forall n :: head <= n < |ns| ==> Unlinked(ns[n])) && Below(runs, head)
  }

  /** Then nodes are handed out in the order of the array, each of them once, and pmm_new_section finds
      one exactly when its head has not passed the end. */
  lemma SpareWhenFresh(ns: seq<Node>, head: nat, runs: seq<Run>)
    requires FreshAt(ns, head, runs)
    ensures SpareAt(ns, head) <==> head < |ns|
    ensures head < |ns| ==> Unlinked(ns[head])
  {
  }

  /** Writes to the nodes before `head` keep that so. */
  lemma StillFresh(ns: seq<Node>, ns': seq<Node>, head: nat, runs: seq<Run>, runs': seq<Run>)
    requires FreshAt(ns, head, runs) && |ns'| == |ns| && Below(runs', head)
    requires forall n :: head <= n < |ns| ==> ns'[n] == ns[n]
    ensures FreshAt(ns', head, runs')
  {
  }

  /** No edit but a split brings in a node. */
  lemma EditNodes(runs: seq<Run>, k: nat, head: nat)
    requires k < |runs| && Below(runs, head)
    ensures Below(Drop(runs, k), head)
    ensures k + 1 < |runs| ==> Below(MergeNext(runs, k), head) && Below(Swallow(runs, k), head)
    ensures 0 < k ==> Below(MergePrev(runs, k), head)
  {
    hide Drop;
    DropParts(runs, k);
    if k + 1 < |runs| {
      var l, r := runs[k], runs[k + 1];
      DropParts(runs[k + 1 := r.(start := l.start, pages := l.pages + r.pages)], k);
      DropParts(runs[k := l.(pages := (l.pages + r.pages) % SPAN)], k + 1);
    }
    if 0 < k {
      DropParts(runs[k - 1 := runs[k - 1].(pages := runs[k - 1].pages + runs[k].pages)], k);
    }
  }

  lemma SplitNodes(runs: seq<Run>, k: nat, n: nat, at: nat, head: nat)
    requires k < |runs| && runs[k].start <= at <= runs[k].End() && Below(runs, head) && n < head
    ensures Below(Split(runs, k, n, at), head)
  {
    hide Split;
    SplitParts(runs, k, n, at);
  }

  /** A node that looks unused is not on a list of two sections or more. */
  lemma UnlinkedIsOff(ns: seq<Node>, runs: seq<Run>, n: nat)
    requires Stores(ns, runs) && |runs| >= 2 && n < |ns| && Unlinked(ns[n])
    ensures forall k :: 0 <= k < |runs| ==> runs[k].node != n
  {
    forall k | 0 <= k < |runs|
      ensures runs[k].node != n
    {
      if k == 0 {
        assert ns[runs[0].node].next == runs[1].node;
      } else {
        assert ns[runs[k].node].prev == runs[k - 1].node;
      }
    }
  }

  /** Writes to the contents of the nodes, leaving every pointer. */
  lemma RewriteStores(ns: seq<Node>, ns': seq<Node>, runs: seq<Run>, runs': seq<Run>)
    requires Stores(ns, runs) && |ns'| == |ns| && |runs'| == |runs|
    requires forall k :: 0 <= k < |runs| ==> runs'[k].node == runs[k].node
    requires forall n :: 0 <= n < |ns| ==> ns'[n].prev == ns[n].prev && ns'[n].next == ns[n].next
    requires Contents(ns', runs')
    ensures Stores(ns', runs')
  {
  }

  /** The nodes after pmm_lock_page on an empty section, in node `t` behind node `p`. */
  function StrayNodes(ns: seq<Node>, p: nat, t: nat): seq<Node>
    requires p < |ns| && t < |ns|
  {
    if ns[p].kind == USED then
      ns[p := ns[p].(pages := ns[p].pages + 1)][t := ns[t].(pages := WRAPPED - 1, start := ns[t].start + 1)]
    else ns[t := ns[t].(kind := USED)]
  }

  lemma StrayStores(ns: seq<Node>, runs: seq<Run>, k: nat)
    requires Stores(ns, runs) && 0 < k < |runs| && runs[k].pages == 0
    ensures var p, t := runs[k - 1].node, runs[k].node;
      && p < |ns| && t < |ns| && p != t && ns[t].prev == p && Stores(StrayNodes(ns, p, t), Stray(runs, k))
  {
    RewriteStores(ns, StrayNodes(ns, runs[k - 1].node, runs[k].node), runs, Stray(runs, k));
  }

  /** The writes of pmm_section_split: node `n` is linked in after section `k`. */
  ghost predicate SplitWrites(ns: seq<Node>, ns': seq<Node>, runs: seq<Run>, k: nat, n: nat, at: nat)
    requires Stores(ns, runs) && k < |runs| && runs[k].start <= at <= runs[k].End()
  {
    && n < |ns| == |ns'|
    && (forall j :: 0 <= j < |runs| ==> runs[j].node != n)
    && ns'[n] == Node(runs[k].node, ns[runs[k].node].next, at, runs[k].End() - at, runs[k].kind)
    && ns'[runs[k].node] == ns[runs[k].node].(next := n, pages := at - runs[k].start)
    && (k + 1 < |runs| ==> ns'[runs[k + 1].node] == ns[runs[k + 1].node].(prev := n))
    && forall j :: 0 <= j < |runs| && j != k && j != k + 1 ==> ns'[runs[j].node] == ns[runs[j].node]
  }

  lemma SplitContents(ns: seq<Node>, ns': seq<Node>, runs: seq<Run>, k: nat, n: nat, at: nat)
    requires Stores(ns, runs) && k < |runs| && runs[k].start <= at <= runs[k].End()
    requires SplitWrites(ns, ns', runs, k, n, at)
    ensures Distinct(Split(runs, k, n, at)) && Contents(ns', Split(runs, k, n, at))
  {
    var s := Split(runs, k, n, at);
    assert forall j :: 0 <= j < |s| && j != k && j != k + 1 ==> s[j] == if j < k then runs[j] else runs[j - 1];
  }

  lemma SplitStores(ns: seq<Node>, ns': seq<Node>, runs: seq<Run>, k: nat, n: nat, at: nat)
    requires Stores(ns, runs) && k < |runs| && runs[k].start <= at <= runs[k].End()
    requires SplitWrites(ns, ns', runs, k, n, at)
    ensures Stores(ns', Split(runs, k, n, at))
  {
    var s := Split(runs, k, n, at);
    SplitContents(ns, ns', runs, k, n, at);
    hide Contents;
    assert s[0].node == runs[0].node;
    assert s[|s| - 1].node == if k + 1 == |runs| then n else runs[|runs| - 1].node;
    forall i, j | 0 <= i < |s| && 0 <= j < |s| && j == i + 1
      ensures ns'[s[i].node].next == s[j].node && ns'[s[j].node].prev == s[i].node
    {
      var i', j' := if i <= k then i else i - 1, if j <= k then j else j - 1;
      assert i == k + 1 || s[i].node == runs[i'].node;
      assert j == k + 1 || s[j].node == runs[j'].node;
      if i == k {
      } else if i == k + 1 {
        assert ns[runs[k].node].next == runs[k + 1].node;
      } else {
        assert ns[runs[i'].node].next == runs[j'].node;
      }
    }
  }

  /** The node of section `k`. */
  lemma NodeAt(ns: seq<Node>, runs: seq<Run>, k: nat)
    requires Stores(ns, runs) && k < |runs|
    ensures runs[k].node < |ns| && Shows(ns[runs[k].node], runs[k])
    ensures ns[runs[k].node].next == if k + 1 < |runs| then runs[k + 1].node else NIL
    ensures k + 1 < |runs| ==> runs[k + 1].node != runs[k].node
  {
  }

  /** The nodes after pmm_section_split. */
  ghost function Cleft(ns: seq<Node>, runs: seq<Run>, k: nat, n: nat, at: nat): seq<Node>
    requires Stores(ns, runs) && k < |runs| && runs[k].start <= at <= runs[k].End() && n < |ns|
    requires runs[k].node < |ns| && (k + 1 < |runs| ==> runs[k + 1].node < |ns|)
  {
    var t, r := runs[k].node, runs[k];
    var behind := if k + 1 < |runs| then ns[runs[k + 1].node := ns[runs[k + 1].node].(prev := n)] else ns;
    behind[t := ns[t].(next := n, pages := at - r.start)][n := Node(t, ns[t].next, at, r.End() - at, r.kind)]
  }

  lemma CleftStores(ns: seq<Node>, runs: seq<Run>, k: nat, n: nat, at: nat, head: nat)
    requires Stores(ns, runs) && k < |runs| && runs[k].start <= at <= runs[k].End() && n < |ns| && n < head
    requires runs[k].node < |ns| && (k + 1 < |runs| ==> runs[k + 1].node < |ns|)
    requires FreshAt(ns, head, runs) && forall j :: 0 <= j < |runs| ==> runs[j].node != n
    ensures Stores(Cleft(ns, runs, k, n, at), Split(runs, k, n, at))
    ensures FreshAt(Cleft(ns, runs, k, n, at), head, Split(runs, k, n, at))
  {
    hide Split;
    SplitStores(ns, Cleft(ns, runs, k, n, at), runs, k, n, at);
    SplitNodes(runs, k, n, at, head);
    StillFresh(ns, Cleft(ns, runs, k, n, at), head, runs, Split(runs, k, n, at));
  }

  /** A node has the contents of a section. */
  predicate Shows(n: Node, r: Run) {
    n.start == r.start && n.pages == r.pages && n.kind == r.kind
  }

  /** The writes that unlink the node of section `k`, whatever else is written to it, and rewrite the
      contents of its neighbours. */
  ghost predicate DropWrites(ns: seq<Node>, ns': seq<Node>, runs: seq<Run>, runs': seq<Run>, k: nat)
    requires Contents(ns, runs) && k < |runs|
  {
    && |ns'| == |ns| && |runs'| == |runs|
    && (forall j :: 0 <= j < |runs| ==> runs'[j].node == runs[j].node)
    && (forall j :: 0 <= j < |runs| && (j + 1 < k || k + 1 < j) ==>
      runs'[j] == runs[j] && ns'[runs[j].node] == ns[runs[j].node])
    && (0 < k ==>
      var p := ns'[runs[k - 1].node];
      Shows(p, runs'[k - 1]) && p.prev == ns[runs[k - 1].node].prev && p.next == ns[runs[k].node].next)
    && (k + 1 < |runs| ==>
      var n := ns'[runs[k + 1].node];
      Shows(n, runs'[k + 1]) && n.next == ns[runs[k + 1].node].next && n.prev == ns[runs[k].node].prev)
  }

  lemma DropContents(ns: seq<Node>, ns': seq<Node>, runs: seq<Run>, runs': seq<Run>, k: nat)
    requires Distinct(runs) && Contents(ns, runs) && |runs| > 1 && k < |runs| && DropWrites(ns, ns', runs, runs', k)
    ensures Distinct(Drop(runs', k)) && Contents(ns', Drop(runs', k))
  {
    hide Drop;
    DropParts(runs', k);
  }

  lemma DropStores(ns: seq<Node>, ns': seq<Node>, runs: seq<Run>, runs': seq<Run>, k: nat)
    requires Stores(ns, runs) && |runs| > 1 && k < |runs| && DropWrites(ns, ns', runs, runs', k)
    ensures Stores(ns', Drop(runs', k))
  {
    hide Drop, Distinct;
    DropContents(ns, ns', runs, runs', k);
    DropParts(runs', k);
    var s := Drop(runs', k);
    forall i, j | 0 <= i < |s| && 0 <= j < |s| && j == i + 1
      ensures ns'[s[i].node].next == s[j].node && ns'[s[j].node].prev == s[i].node
    {
      var i', j' := if i < k then i else i + 1, if j < k then j else j + 1;
      if j' == i' + 1 {
        assert ns[runs[i'].node].next == runs[j'].node;
      } else {
        assert ns[runs[i'].node].next == runs[k].node;
        assert ns[runs[k].node].next == runs[j'].node;
      }
    }
  }

  /** The links around section `k`. */
  lemma LinksAt(ns: seq<Node>, runs: seq<Run>, k: nat)
    requires Contents(ns, runs) && Links(ns, runs) && k < |runs|
    ensures ns[runs[k].node].next == if k + 1 < |runs| then runs[k + 1].node else NIL
    ensures ns[runs[k].node].prev == if 0 < k then runs[k - 1].node else NIL
  {
  }

  /** Rewriting the nodes of section `k` and its neighbours leaves the others. */
  lemma UpdatedNodes(ns: seq<Node>, runs: seq<Run>, k: nat, a: Node, b: Node)
    requires Distinct(runs) && 0 < k && k + 1 < |runs|
    requires forall j :: 0 <= j < |runs| ==> runs[j].node < |ns|
    ensures var ns' := ns[runs[k - 1].node := a][runs[k + 1].node := b][runs[k].node := UNUSED];
      && ns'[runs[k - 1].node] == a && ns'[runs[k + 1].node] == b
      && ns'[runs[k].node] == UNUSED
      && ns' == ns[runs[k + 1].node := b][runs[k - 1].node := a][runs[k].node := UNUSED]
      && ns' == ns[runs[k - 1].node := a][runs[k].node := UNUSED][runs[k + 1].node := b]
      && forall j :: 0 <= j < |runs| && (j + 1 < k || k + 1 < j) ==> ns'[runs[j].node] == ns[runs[j].node]
  {
  }

  /** The writes of a merge: the node of section `k` goes, and its neighbours get new contents. */
  lemma MergeStores(ns: seq<Node>, runs: seq<Run>, runs': seq<Run>, k: nat, a: Node, b: Node)
    requires Stores(ns, runs) && 0 < k && k + 1 < |runs| && |runs'| == |runs|
    requires forall j :: 0 <= j < |runs| ==> runs'[j].node == runs[j].node
    requires forall j :: 0 <= j < |runs| && (j + 1 < k || k + 1 < j) ==> runs'[j] == runs[j]
    requires Shows(a, runs'[k - 1]) && a.prev == ns[runs[k - 1].node].prev && a.next == runs[k + 1].node
    requires Shows(b, runs'[k + 1]) && b.next == ns[runs[k + 1].node].next && b.prev == runs[k - 1].node
    ensures Stores(ns[runs[k - 1].node := a][runs[k + 1].node := b][runs[k].node := UNUSED], Drop(runs', k))
  {
    var ns' := ns[runs[k - 1].node := a][runs[k + 1].node := b][runs[k].node := UNUSED];
    UpdatedNodes(ns, runs, k, a, b);
    LinksAt(ns, runs, k);
    hide Links, Distinct;
    DropStores(ns, ns', runs, runs', k);
  }

  /** The nodes around section `k`, which are three. */
  lemma ThreeNodes(ns: seq<Node>, runs: seq<Run>, k: nat)
    requires Stores(ns, runs) && 0 < k && k + 1 < |runs|
    ensures var p, t, n := runs[k - 1].node, runs[k].node, runs[k + 1].node;
      && p < |ns| && t < |ns| && n < |ns| && p != t && t != n && p != n
      && ns[t].next == n && ns[t].prev == p
      && Shows(ns[p], runs[k - 1]) && Shows(ns[t], runs[k]) && Shows(ns[n], runs[k + 1])
  {
    LinksAt(ns, runs, k);
  }

  /** The writes of pmm_section_combine_next. */
  lemma MergeNextStores(ns: seq<Node>, runs: seq<Run>, k: nat)
    requires Stores(ns, runs) && 0 < k && k + 1 < |runs|
    ensures var p, t, n := runs[k - 1].node, runs[k].node, runs[k + 1].node;
      && p < |ns| && t < |ns| && n < |ns|
      && ns[t].next == n && ns[t].prev == p && p != t && t != n && p != n
      && Stores(ns[n := ns[n].(start := ns[t].start, pages := ns[n].pages + ns[t].pages, prev := p)]
                  [p := ns[p].(next := n)][t := UNUSED], MergeNext(runs, k))
  {
    hide Stores, Drop;
    ThreeNodes(ns, runs, k);
    NodesInArray(ns, runs);
    var p, t, n := runs[k - 1].node, runs[k].node, runs[k + 1].node;
    var l, r := runs[k], runs[k + 1];
    var a, b := ns[p].(next := n), ns[n].(start := ns[t].start, pages := ns[n].pages + ns[t].pages, prev := p);
    MergeStores(ns, runs, runs[k + 1 := r.(start := l.start, pages := l.pages + r.pages)], k, a, b);
    UpdatedNodes(ns, runs, k, a, b);
  }

  /** The writes of pmm_section_combine_prev. */
  lemma MergePrevStores(ns: seq<Node>, runs: seq<Run>, k: nat)
    requires Stores(ns, runs) && 0 < k && k + 1 < |runs|
    ensures var p, t, n := runs[k - 1].node, runs[k].node, runs[k + 1].node;
      && p < |ns| && t < |ns| && n < |ns|
      && ns[t].next == n && ns[t].prev == p && p != t && t != n && p != n
      && Stores(ns[p := ns[p].(pages := ns[p].pages + ns[t].pages, next := n)]
                  [n := ns[n].(prev := p)][t := UNUSED], MergePrev(runs, k))
  {
    hide Stores, Drop;
    ThreeNodes(ns, runs, k);
    var p, t, n := runs[k - 1].node, runs[k].node, runs[k + 1].node;
    var l, r := runs[k - 1], runs[k];
    var a, b := ns[p].(pages := ns[p].pages + ns[t].pages, next := n), ns[n].(prev := p);
    MergeStores(ns, runs, runs[k - 1 := l.(pages := l.pages + r.pages)], k, a, b);
  }

  lemma NodesInArray(ns: seq<Node>, runs: seq<Run>)
    requires Stores(ns, runs)
    ensures Distinct(runs) && forall j :: 0 <= j < |runs| ==> runs[j].node < |ns|
  {
  }

  /** The nodes after pmm_section_combine_prev on section `k`. */
  ghost function PrevMerged(ns: seq<Node>, runs: seq<Run>, k: nat): seq<Node>
    requires Stores(ns, runs) && 0 < k && k + 1 < |runs|
  {
    var p, t, n := runs[k - 1].node, runs[k].node, runs[k + 1].node;
    ns[p := ns[p].(pages := ns[p].pages + ns[t].pages, next := n)][n := ns[n].(prev := p)][t := UNUSED]
  }

  /** Whatever array the sections are stored in, merging two of them leaves a node unused that
      pmm_new_section does not find once its head has passed the end. */
  lemma UnusedButSpent(ns: seq<Node>, runs: seq<Run>, k: nat, head: nat)
    requires Stores(ns, runs) && 0 < k && k + 1 < |runs| && runs[k - 1].kind == runs[k].kind && head >= |ns|
    ensures var ns' := PrevMerged(ns, runs, k);
      && Stores(ns', MergePrev(runs, k)) && runs[k].node < |ns'|
      && Unlinked(ns'[runs[k].node]) && !SpareAt(ns', head)
  {
    hide Stores, Drop;
    MergePrevStores(ns, runs, k);
  }

  /** The writes of pmm_recombine at section `k`, which takes over the section after it. */
  ghost function Absorbed(ns: seq<Node>, runs: seq<Run>, k: nat): seq<Node>
    requires Stores(ns, runs) && k + 1 < |runs|
  {
    var c, r := runs[k].node, runs[k + 1].node;
    var taken := ns[c].(pages := (ns[c].pages + ns[r].pages) % SPAN, next := ns[r].next);
    var cut := ns[c := taken][r := UNUSED];
    if k + 2 < |runs| then cut[runs[k + 2].node := cut[runs[k + 2].node].(prev := c)] else cut
  }

  lemma AbsorbedStores(ns: seq<Node>, runs: seq<Run>, k: nat)
    requires Stores(ns, runs) && k + 1 < |runs|
    ensures runs[k].node < |ns| && runs[k + 1].node < |ns| && runs[k].node != runs[k + 1].node
    ensures ns[runs[k].node].next == runs[k + 1].node
    ensures ns[runs[k + 1].node].next == if k + 2 < |runs| then runs[k + 2].node else NIL
    ensures k + 2 < |runs| ==> runs[k + 2].node < |ns| && ns[runs[k + 2].node].prev == runs[k + 1].node
    ensures Stores(Absorbed(ns, runs, k), Swallow(runs, k))
  {
    LinksAt(ns, runs, k);
    LinksAt(ns, runs, k + 1);
    if k + 2 < |runs| {
      LinksAt(ns, runs, k + 2);
      AbsorbedInside(ns, runs, k);
    } else {
      AbsorbedLast(ns, runs, k);
    }
  }

  lemma AbsorbedFresh(ns: seq<Node>, runs: seq<Run>, k: nat, head: nat)
    requires Stores(ns, runs) && FreshAt(ns, head, runs) && k + 1 < |runs|
    ensures FreshAt(Absorbed(ns, runs, k), head, Swallow(runs, k))
  {
    hide Swallow;
    EditNodes(runs, k, head);
    NodesInArray(ns, runs);
    StillFresh(ns, Absorbed(ns, runs, k), head, runs, Swallow(runs, k));
  }

  lemma AbsorbedInside(ns: seq<Node>, runs: seq<Run>, k: nat)
    requires Stores(ns, runs) && k + 2 < |runs|
    ensures Stores(Absorbed(ns, runs, k), Swallow(runs, k))
  {
    hide Stores, Drop;
    ThreeNodes(ns, runs, k + 1);
    NodesInArray(ns, runs);
    var c, t, n := runs[k].node, runs[k + 1].node, runs[k + 2].node;
    var l, r := runs[k], runs[k + 1];
    var a, b := ns[c].(pages := (ns[c].pages + ns[t].pages) % SPAN, next := n), ns[n].(prev := c);
    MergeStores(ns, runs, runs[k := l.(pages := (l.pages + r.pages) % SPAN)], k + 1, a, b);
    UpdatedNodes(ns, runs, k + 1, a, b);
    assert ns[c := a][t := UNUSED][n] == ns[n];
  }

  lemma AbsorbedLast(ns: seq<Node>, runs: seq<Run>, k: nat)
    requires Stores(ns, runs) && k + 2 == |runs|
    ensures Stores(Absorbed(ns, runs, k), Swallow(runs, k))
  {
    hide Drop;
    LinksAt(ns, runs, k + 1);
    var l, r := runs[k], runs[k + 1];
    var runs' := runs[k := l.(pages := (l.pages + r.pages) % SPAN)];
    assert DropWrites(ns, Absorbed(ns, runs, k), runs, runs', k + 1);
    DropStores(ns, Absorbed(ns, runs, k), runs, runs', k + 1);
  }

  /** Linking node `r.node` in behind the last section. */
  ghost function Appended(ns: seq<Node>, runs: seq<Run>, r: Run): seq<Node>
    requires |runs| > 0 && runs[|runs| - 1].node < |ns| && r.node < |ns|
  {
    var last := runs[|runs| - 1].node;
    ns[last := ns[last].(next := r.node)][r.node := Node(last, NIL, r.start, r.pages, r.kind)]
  }

  lemma AppendStores(ns: seq<Node>, runs: seq<Run>, r: Run)
    requires Stores(ns, runs) && |runs| > 0 && r.node < |ns|
    requires forall j :: 0 <= j < |runs| ==> runs[j].node != r.node
    ensures runs[|runs| - 1].node < |ns| && Stores(Appended(ns, runs, r), runs + [r])
  {
    var s := runs + [r];
    assert forall j :: 0 <= j < |runs| ==> s[j] == runs[j];
    assert s[|s| - 1] == r;
  }

  /** Linking node `r.node` in between sections `k` and `k + 1`. */
  ghost function Inserted(ns: seq<Node>, runs: seq<Run>, k: nat, r: Run): seq<Node>
    requires k + 1 < |runs| && runs[k].node < |ns| && runs[k + 1].node < |ns| && r.node < |ns|
  {
    var p, n := runs[k].node, runs[k + 1].node;
    ns[p := ns[p].(next := r.node)][n := ns[n].(prev := r.node)][r.node := Node(p, n, r.start, r.pages, r.kind)]
  }

  lemma InsertedNodes(ns: seq<Node>, runs: seq<Run>, k: nat, r: Run)
    requires Distinct(runs) && k + 1 < |runs| && r.node < |ns|
    requires forall j :: 0 <= j < |runs| ==> runs[j].node != r.node && runs[j].node < |ns|
    ensures var ns' := Inserted(ns, runs, k, r);
      && |ns'| == |ns|
      && ns'[runs[k].node] == ns[runs[k].node].(next := r.node)
      && ns'[runs[k + 1].node] == ns[runs[k + 1].node].(prev := r.node)
      && ns'[r.node] == Node(runs[k].node, runs[k + 1].node, r.start, r.pages, r.kind)
      && forall j :: 0 <= j < |runs| && j != k && j != k + 1 ==> ns'[runs[j].node] == ns[runs[j].node]
  {
  }

  lemma InsertContents(ns: seq<Node>, runs: seq<Run>, k: nat, r: Run)
    requires Distinct(runs) && Contents(ns, runs) && k + 1 < |runs| && r.node < |ns|
    requires forall j :: 0 <= j < |runs| ==> runs[j].node != r.node
    ensures Distinct(Insert(runs, k, r)) && Contents(Inserted(ns, runs, k, r), Insert(runs, k, r))
  {
    hide Inserted, Insert;
    InsertedNodes(ns, runs, k, r);
    InsertParts(runs, k, r);
  }

  lemma InsertStores(ns: seq<Node>, runs: seq<Run>, k: nat, r: Run)
    requires Stores(ns, runs) && k + 1 < |runs| && r.node < |ns|
    requires forall j :: 0 <= j < |runs| ==> runs[j].node != r.node
    ensures runs[k].node < |ns| && runs[k + 1].node < |ns| && runs[k].node != runs[k + 1].node
    ensures Stores(Inserted(ns, runs, k, r), Insert(runs, k, r))
  {
    hide Inserted, Insert;
    InsertedNodes(ns, runs, k, r);
    InsertParts(runs, k, r);
    InsertContents(ns, runs, k, r);
    var s, ns' := Insert(runs, k, r), Inserted(ns, runs, k, r);
    forall i, j | 0 <= i < |s| && 0 <= j < |s| && j == i + 1
      ensures ns'[s[i].node].next == s[j].node && ns'[s[j].node].prev == s[i].node
    {
      if i != k && i != k + 1 {
        var i' := if i < k then i else i - 1;
        assert ns[runs[i'].node].next == runs[i' + 1].node;
      }
    }
  }
}
