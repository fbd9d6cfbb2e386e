/** Four-level page tables as values: the trie held in physical memory, the flat map it stands for,
    and the relation that one call of paging_map_page establishes between two states.

    Physical memory is a sequence of frames, and a frame used as a table is a sequence of 512
    descriptors.  `tables` names every table by the path of indices that leads to it, so the frames
    in use and their levels can be talked about; `TablesAreTheReachableFrames` shows that it is
    determined by the memory alone.
 */
module Tables {
  import opened Descriptors

  const PAGES: nat := 0x10_0000_0000    // virtual page numbers have 36 bits

  type Table = seq<Entry>
  type Memory = seq<Table>

  /** The path from the root table to a table: one index per level passed. */
  datatype Prefix = Root | Sub(parent: Prefix, index: nat)

  function Depth(q: Prefix): nat {
    if q.Root? then 0 else Depth(q.parent) + 1
  }

  // ---------------------------------------------------------------------------------------------
  // Virtual page numbers and their four indices.

  datatype Indexer = Indexer(pml4: nat, pml3: nat, pml2: nat, pml1: nat)

  /** paging_indexer_assign, on a 64-bit address. */
  function IndexerAssign(address: nat): Indexer {
    var u1 := address / 0x1000;
    var u2 := u1 / 512;
    var u3 := u2 / 512;
    var u4 := u3 / 512;
    Indexer(u4 % 512, u3 % 512, u2 % 512, u1 % 512)
  }

  function PageOf(address: nat): nat {
    address / 0x1000 % PAGES
  }

  function I4(v: nat): nat { v / 512 / 512 / 512 % 512 }
  function I3(v: nat): nat { v / 512 / 512 % 512 }
  function I2(v: nat): nat { v / 512 % 512 }
  function I1(v: nat): nat { v % 512 }

  /** The paths of the three tables below the root that a walk to page `v` passes. */
  function P3(v: nat): Prefix { Sub(Root, I4(v)) }
  function P2(v: nat): Prefix { Sub(P3(v), I3(v)) }
  function P1(v: nat): Prefix { Sub(P2(v), I2(v)) }

  /** Descriptor `i` of the table at `q` is one of the three that a walk to page `v` passes. */
  predicate OnPath(q: Prefix, i: nat, v: nat) {
    var d := Sub(q, i);
    d == P3(v) || d == P2(v) || d == P1(v)
  }

  /** Two addresses have the same indices exactly when they lie on the same 36-bit page. */
  lemma IndexerIsThePage(a: nat, b: nat)
    ensures IndexerAssign(a) == Indexer(I4(PageOf(a)), I3(PageOf(a)), I2(PageOf(a)), I1(PageOf(a)))
    ensures IndexerAssign(a) == IndexerAssign(b) <==> PageOf(a) == PageOf(b)
  {
    IndicesOfPage(a / 0x1000);
    IndicesOfPage(b / 0x1000);
    PathDetermines(PageOf(a), PageOf(b));
  }

  lemma IndicesOfPage(u: nat)
    ensures var v := u % PAGES; I1(v) == I1(u) && I2(v) == I2(u) && I3(v) == I3(u) && I4(v) == I4(u)
  {
    var v, k := u % PAGES, u / PAGES;
    assert u == v + k * 0x10_0000_0000;
    assert u / 512 == v / 512 + k * 0x800_0000;
    assert u / 512 / 512 == v / 512 / 512 + k * 0x4_0000;
    assert u / 512 / 512 / 512 == v / 512 / 512 / 512 + k * 512;
  }

  lemma PageFromIndices(v: nat)
    requires v < PAGES
    ensures v == ((I4(v) * 512 + I3(v)) * 512 + I2(v)) * 512 + I1(v)
  {
    assert v / 512 / 512 / 512 < 512;
  }

  lemma PathDetermines(v: nat, w: nat)
    requires v < PAGES && w < PAGES
    ensures P1(v) == P1(w) && I1(v) == I1(w) <==> v == w
  {
    PageFromIndices(v);
    PageFromIndices(w);
  }

  // ---------------------------------------------------------------------------------------------
  // States of the paging system.

  /** `mem` is physical memory, `root` the frame in pml4, `tables` the frame of every table, and
      `free` the frames that the physical memory manager still has to give. */
  datatype State = State(mem: Memory, root: nat, tables: map<Prefix, nat>, free: set<nat>)

  ghost predicate Shaped(s: State) {
    && (forall f :: 0 <= f < |s.mem| ==> |s.mem[f]| == 512)
    && Root in s.tables && s.tables[Root] == s.root
    && forall q :: q in s.tables ==> s.tables[q] < |s.mem| && Depth(q) <= 3
  }

  /** Descriptor `i` of the table at path `q`. */
  ghost function At(s: State, q: Prefix, i: nat): Entry
    requires Shaped(s) && q in s.tables && i < 512
  {
    s.mem[s.tables[q]][i]
  }

  /** The descriptor that leads to a table is present and holds its frame. */
  ghost predicate Linked(s: State, q: Prefix, i: nat)
    requires Shaped(s) && Sub(q, i) in s.tables
  {
    && q in s.tables
    && i < 512
    && Present(At(s, q, i))
    && At(s, q, i).frame == s.tables[Sub(q, i)]
  }

  /** The tables form a tree: no frame is two tables, no table is free, every table is linked from
      its parent, and every other descriptor above the leaves is zero. */
  ghost predicate Valid(s: State) {
    && Shaped(s)
    && |s.mem| <= PAGES
    && (forall f :: f in s.free ==> f < |s.mem|)
    && (forall q :: q in s.tables ==> s.tables[q] !in s.free)
    && (forall q, r :: q in s.tables && r in s.tables && s.tables[q] == s.tables[r] ==> q == r)
    && (forall q, i :: Sub(q, i) in s.tables ==> Linked(s, q, i))
    && (forall q, i :: q in s.tables && Depth(q) < 3 && 0 <= i < 512 && Sub(q, i) !in s.tables ==> At(s, q, i) == ZERO)
  }

  /** The flat map a state stands for: the leaf descriptor of each page, zero when there is none. */
  ghost function Leaf(s: State, v: nat): Entry
    requires Shaped(s)
  {
    if P1(v) in s.tables then At(s, P1(v), I1(v)) else ZERO
  }

  /** The flags on the way into the table at path `Sub(q, i)`. */
  ghost function Gate(s: State, q: Prefix, i: nat): Word
    requires Valid(s)
  {
    if Sub(q, i) in s.tables then assert Linked(s, q, i); At(s, q, i).flags else {}
  }

  // ---------------------------------------------------------------------------------------------
  // What mapping a page does to a state.

  /** The frames taken from the allocator between two states. */
  ghost function New(s: State, s': State): set<nat> {
    s.free - s'.free
  }

  /** The leaf of page `v` once each new table frame has been mapped at its own address. */
  ghost function After(s: State, taken: set<nat>, v: nat): Entry
    requires Shaped(s)
  {
    if v in taken then Entry(BitOr(Leaf(s, v).frame, v), KERNEL_PAGE) else Leaf(s, v)
  }

  /** No table moves or disappears. */
  ghost predicate TablesKept(s: State, s': State) {
    && s'.root == s.root && |s'.mem| == |s.mem|
    && forall q :: q in s.tables ==> q in s'.tables && s'.tables[q] == s.tables[q]
  }

  /** Exactly the frames taken from the allocator have become tables, one each. */
  ghost predicate FramesAccounted(s: State, s': State) {
    && s'.free <= s.free
    && (forall q :: q in s'.tables && q !in s.tables ==> s'.tables[q] in New(s, s'))
    && |s'.tables| + |s'.free| == |s.tables| + |s.free|
  }

  /** No descriptor on the way to a table loses a flag. */
  ghost predicate GatesKept(s: State, s': State)
    requires Valid(s) && Valid(s')
  {
    forall q, i :: Sub(q, i) in s.tables ==> Gate(s, q, i) <= Gate(s', q, i)
  }

  ghost predicate Extends(s: State, s': State) {
    && Valid(s) && Valid(s')
    && TablesKept(s, s') && FramesAccounted(s, s') && GatesKept(s, s')
  }

  /** Flags appear only where mapping page `v` with flags `f` puts them. */
  ghost predicate GatesBounded(s: State, s': State, v: nat, f: Word)
    requires Valid(s) && Valid(s')
  {
    forall q, i :: Sub(q, i) in s'.tables ==>
      Gate(s', q, i) <= Gate(s, q, i) + KERNEL_PAGE + (if OnPath(q, i, v) then f else {})
  }

  /** Leaves change only at the new tables' own addresses. */
  ghost predicate LeavesKept(s: State, s': State)
    requires Shaped(s) && Shaped(s')
  {
    forall w :: 0 <= w < PAGES ==> Leaf(s', w) == After(s, New(s, s'), w)
  }

  /** The same, and then frame `p` with flags `f` is written at page `v`. */
  ghost predicate LeavesMapped(s: State, s': State, v: nat, p: nat, f: Word)
    requires Shaped(s) && Shaped(s')
  {
    forall w :: 0 <= w < PAGES ==>
      var before := After(s, New(s, s'), w);
      Leaf(s', w) == if w == v then Entry(BitOr(before.frame, p), f) else before
  }

  /** The tables on the way to `v` are being built. */
  ghost predicate Grew(s: State, s': State, v: nat, f: Word) {
    && Extends(s, s')
    && GatesBounded(s, s', v, f)
    && LeavesKept(s, s')
  }

  /** Page `v` has been mapped to frame `p` with flags `f`. */
  ghost predicate Mapped(s: State, s': State, v: nat, p: nat, f: Word) {
    && Extends(s, s')
    && GatesBounded(s, s', v, f)
    && P1(v) in s'.tables
    && PathHas(s', v, f)
    && LeavesMapped(s, s', v, p, f)
  }

  lemma GrewRefl(s: State, v: nat, f: Word)
    requires Valid(s)
    ensures Grew(s, s, v, f)
  {
  }

  lemma NewTrans(s: State, s1: State, s2: State)
    requires s1.free <= s.free && s2.free <= s1.free
    ensures New(s, s2) == New(s, s1) + New(s1, s2)
    ensures New(s, s1) !! New(s1, s2)
  {
  }

  lemma FramesAccountedTrans(s: State, s1: State, s2: State)
    requires FramesAccounted(s, s1) && FramesAccounted(s1, s2) && TablesKept(s1, s2)
    ensures FramesAccounted(s, s2)
  {
    NewTrans(s, s1, s2);
  }

  lemma ExtendsTrans(s: State, s1: State, s2: State)
    requires Extends(s, s1) && Extends(s1, s2)
    ensures Extends(s, s2)
  {
    hide Valid, Gate, FramesAccounted;
    FramesAccountedTrans(s, s1, s2);
  }

  lemma GatesBoundedTrans(s: State, s1: State, s2: State, v: nat, f: Word)
    requires Extends(s, s1) && Extends(s1, s2)
    requires GatesBounded(s, s1, v, f) && GatesBounded(s1, s2, v, f)
    ensures GatesBounded(s, s2, v, f)
  {
    hide Valid, OnPath;
    forall q, i | Sub(q, i) in s2.tables
      ensures Gate(s2, q, i) <= Gate(s, q, i) + KERNEL_PAGE + (if OnPath(q, i, v) then f else {})
    {
      if Sub(q, i) in s1.tables {
        hide Gate, Extends;
      }
    }
  }

  lemma LeavesKeptTrans(s: State, s1: State, s2: State)
    requires Shaped(s) && Shaped(s1) && Shaped(s2)
    requires s1.free <= s.free && s2.free <= s1.free
    requires LeavesKept(s, s1) && LeavesKept(s1, s2)
    ensures LeavesKept(s, s2)
  {
    hide Shaped, Leaf, New;
    NewTrans(s, s1, s2);
  }

  lemma GrewTrans(s: State, s1: State, s2: State, v: nat, f: Word)
    requires Grew(s, s1, v, f) && Grew(s1, s2, v, f)
    ensures Grew(s, s2, v, f)
  {
    hide GatesBounded, LeavesKept;
    ExtendsTrans(s, s1, s2);
    GatesBoundedTrans(s, s1, s2, v, f);
    LeavesKeptTrans(s, s1, s2);
  }

  // ---------------------------------------------------------------------------------------------
  // The single writes that mapping a page is made of.

  ghost function Put(s: State, q: Prefix, i: nat, e: Entry): State
    requires Shaped(s) && q in s.tables && i < 512
  {
    s.(mem := s.mem[s.tables[q] := s.mem[s.tables[q]][i := e]])
  }

  /** Every descriptor of every table is one that 64 bits can hold. */
  ghost predicate AllEncodable(s: State)
    requires Shaped(s)
  {
    forall q, i :: q in s.tables && 0 <= i < 512 ==> Encodable(At(s, q, i))
  }

  lemma PutEncodable(s: State, q: Prefix, i: nat, e: Entry)
    requires Valid(s) && q in s.tables && i < 512 && AllEncodable(s) && Encodable(e)
    ensures Shaped(Put(s, q, i, e)) && AllEncodable(Put(s, q, i, e))
  {
    hide At, Valid, Encodable;
    PutAt(s, q, i, e);
  }

  lemma EncodableAt(s: State, q: Prefix, i: nat)
    requires Valid(s) && AllEncodable(s) && q in s.tables && i < 512
    ensures Shaped(s) && Encodable(At(s, q, i))
  {
  }

  lemma PutAt(s: State, q: Prefix, i: nat, e: Entry)
    requires Valid(s) && q in s.tables && i < 512
    ensures Shaped(Put(s, q, i, e))
    ensures forall r, j :: r in s.tables && 0 <= j < 512 ==>
      At(Put(s, q, i, e), r, j) == if r == q && j == i then e else At(s, r, j)
  {
  }

  /** Replacing a descriptor above the leaves by another that leads to the same table. */
  lemma PutGate(s: State, q: Prefix, i: nat, e: Entry)
    requires Valid(s) && Sub(q, i) in s.tables && Linked(s, q, i)
    requires Present(e) && e.frame == s.tables[Sub(q, i)]
    ensures Valid(Put(s, q, i, e))
  {
    var s' := Put(s, q, i, e);
    PutAt(s, q, i, e);
    hide At, Put;
    forall r, j | Sub(r, j) in s'.tables
      ensures Linked(s', r, j)
    {
      assert Linked(s, r, j);
    }
  }

  lemma PutGateLeaves(s: State, q: Prefix, i: nat, e: Entry)
    requires Valid(s) && Sub(q, i) in s.tables && Linked(s, q, i)
    ensures Shaped(Put(s, q, i, e))
    ensures forall w :: 0 <= w < PAGES ==> Leaf(Put(s, q, i, e), w) == Leaf(s, w)
  {
    PutAt(s, q, i, e);
    forall w | 0 <= w < PAGES
      ensures Leaf(Put(s, q, i, e), w) == Leaf(s, w)
    {
      hide Valid, At;
      assert Depth(P1(w)) == 3;
    }
  }

  lemma PutGates(s: State, q: Prefix, i: nat, e: Entry)
    requires Valid(s) && Sub(q, i) in s.tables && Linked(s, q, i)
    requires Present(e) && e.frame == s.tables[Sub(q, i)]
    ensures Valid(Put(s, q, i, e))
    ensures forall r, j :: Sub(r, j) in s.tables ==>
      Gate(Put(s, q, i, e), r, j) == if r == q && j == i then e.flags else Gate(s, r, j)
  {
    var s' := Put(s, q, i, e);
    PutGate(s, q, i, e);
    PutAt(s, q, i, e);
    forall r, j | Sub(r, j) in s.tables
      ensures Gate(s', r, j) == if r == q && j == i then e.flags else Gate(s, r, j)
    {
      assert Linked(s, r, j) && Linked(s', r, j);
    }
  }

  /** OR-ing flags into a present descriptor above the leaves. */
  lemma GrewByFlags(s: State, q: Prefix, i: nat, v: nat, f: Word)
    requires Valid(s) && Sub(q, i) in s.tables && OnPath(q, i, v)
    ensures Linked(s, q, i)
    ensures var e := At(s, q, i);
      var s' := Put(s, q, i, Entry(e.frame, e.flags + f));
      Grew(s, s', v, f) && f + PRESENT <= Gate(s', q, i)
  {
    assert Linked(s, q, i);
    var e := Entry(At(s, q, i).frame, At(s, q, i).flags + f);
    var s' := Put(s, q, i, e);
    PutGates(s, q, i, e);
    PutGateLeaves(s, q, i, e);
    assert Gate(s, q, i) + f == e.flags;
    assert s'.tables == s.tables && s'.free == s.free && s'.root == s.root && |s'.mem| == |s.mem|;
    assert New(s, s') == {};
    hide Valid, Put, At, OnPath, Leaf;
    assert GatesKept(s, s') && GatesBounded(s, s', v, f);
    hide Gate;
  }

  function Blank(): Table {
    seq(512, _ => ZERO)
  }

  /** A free frame, zeroed, becomes the table that descriptor `i` of the table at `q` leads to. */
  ghost function Link(s: State, q: Prefix, i: nat, t: nat, e: Entry): State
    requires Shaped(s) && q in s.tables && i < 512 && t < |s.mem|
  {
    var cleared := s.mem[t := Blank()];
    var linked := cleared[s.tables[q] := cleared[s.tables[q]][i := e]];
    State(linked, s.root, s.tables[Sub(q, i) := t], s.free - {t})
  }

  ghost predicate CanLink(s: State, q: Prefix, i: nat, t: nat, e: Entry) {
    && Valid(s) && q in s.tables && Depth(q) < 3 && i < 512
    && Sub(q, i) !in s.tables
    && t in s.free && Present(e) && e.frame == t
  }

  lemma LinkAt(s: State, q: Prefix, i: nat, t: nat, e: Entry)
    requires CanLink(s, q, i, t, e)
    ensures var s' := Link(s, q, i, t, e);
      && Shaped(s')
      && TablesKept(s, s') && s'.free == s.free - {t}
      && (forall r, j :: r in s.tables && 0 <= j < 512 ==> At(s', r, j) == if r == q && j == i then e else At(s, r, j))
      && (forall j :: 0 <= j < 512 ==> At(s', Sub(q, i), j) == ZERO)
  {
  }

  lemma LinkEncodable(s: State, q: Prefix, i: nat, t: nat, e: Entry)
    requires CanLink(s, q, i, t, e) && AllEncodable(s) && Encodable(e)
    ensures Shaped(Link(s, q, i, t, e)) && AllEncodable(Link(s, q, i, t, e))
  {
    hide At, Valid;
    LinkAt(s, q, i, t, e);
  }

  lemma LinkValid(s: State, q: Prefix, i: nat, t: nat, e: Entry)
    requires CanLink(s, q, i, t, e)
    ensures Valid(Link(s, q, i, t, e))
  {
    var s' := Link(s, q, i, t, e);
    LinkAt(s, q, i, t, e);
    hide At;
    forall r, j | Sub(r, j) in s'.tables
      ensures Linked(s', r, j)
    {
      assert Sub(r, j) in s.tables ==> Linked(s, r, j);
    }
    forall r, j | r in s'.tables && Depth(r) < 3 && 0 <= j < 512 && Sub(r, j) !in s'.tables
      ensures At(s', r, j) == ZERO
    {
      assert r in s.tables ==> At(s, r, j) == ZERO;
    }
  }

  lemma LinkLeaves(s: State, q: Prefix, i: nat, t: nat, e: Entry)
    requires CanLink(s, q, i, t, e)
    ensures Shaped(Link(s, q, i, t, e))
    ensures forall w :: 0 <= w < PAGES ==> Leaf(Link(s, q, i, t, e), w) == Leaf(s, w)
  {
    LinkAt(s, q, i, t, e);
    forall w | 0 <= w < PAGES
      ensures Leaf(Link(s, q, i, t, e), w) == Leaf(s, w)
    {
      hide Valid, At;
      assert Depth(P1(w)) == 3;
    }
  }

  lemma LinkFrames(s: State, q: Prefix, i: nat, t: nat, e: Entry)
    requires CanLink(s, q, i, t, e)
    ensures FramesAccounted(s, Link(s, q, i, t, e)) && New(s, Link(s, q, i, t, e)) == {t}
  {
    var s' := Link(s, q, i, t, e);
    hide Valid, Shaped;
    assert New(s, s') == {t};
  }

  lemma LinkGates(s: State, q: Prefix, i: nat, t: nat, e: Entry, v: nat, f: Word)
    requires CanLink(s, q, i, t, e) && OnPath(q, i, v) && e.flags == f + PRESENT
    ensures var s' := Link(s, q, i, t, e);
      && Valid(s') && GatesKept(s, s') && GatesBounded(s, s', v, f) && Gate(s', q, i) == e.flags
  {
    LinkAt(s, q, i, t, e);
    LinkValid(s, q, i, t, e);
    var s' := Link(s, q, i, t, e);
    forall r, j | Sub(r, j) in s'.tables
      ensures Gate(s', r, j) == if r == q && j == i then e.flags else Gate(s, r, j)
    {
      assert Linked(s', r, j);
      assert Sub(r, j) in s.tables ==> Linked(s, r, j);
    }
    hide Valid, At, OnPath, Gate;
  }

  lemma LinkExtends(s: State, q: Prefix, i: nat, t: nat, e: Entry, v: nat, f: Word)
    requires CanLink(s, q, i, t, e) && OnPath(q, i, v) && e.flags == f + PRESENT
    ensures var s' := Link(s, q, i, t, e);
      && Extends(s, s') && GatesBounded(s, s', v, f)
      && s'.free == s.free - {t} && Gate(s', q, i) == e.flags
  {
    LinkAt(s, q, i, t, e);
    LinkValid(s, q, i, t, e);
    LinkFrames(s, q, i, t, e);
    LinkGates(s, q, i, t, e, v, f);
    hide Valid, Link, TablesKept, FramesAccounted, OnPath, Gate, GatesKept, GatesBounded;
  }

  /** Mapping with kernel flags puts flags only where any other mapping may. */
  lemma GatesBoundedKernel(s: State, s': State, t: nat, v: nat, f: Word)
    requires Valid(s) && Valid(s') && GatesBounded(s, s', t, KERNEL_PAGE)
    ensures GatesBounded(s, s', v, f)
  {
    hide Valid, Gate, OnPath;
  }

  lemma GrewByTableLeaves(s: State, s1: State, s2: State, t: nat)
    requires Shaped(s) && Shaped(s1) && Shaped(s2)
    requires s1.free == s.free - {t} && t in s.free && s2.free <= s1.free
    requires forall w :: 0 <= w < PAGES ==> Leaf(s1, w) == Leaf(s, w)
    requires LeavesMapped(s1, s2, t, t, KERNEL_PAGE)
    ensures LeavesKept(s, s2)
  {
    hide Shaped, Leaf;
    forall w | 0 <= w < PAGES
      ensures Leaf(s2, w) == After(s, New(s, s2), w)
    {
      assert w in New(s, s2) <==> w == t || w in New(s1, s2);
      assert t !in New(s1, s2);
    }
  }

  /** Linking a new table and then mapping it at its own address, as the re-entrant call does. */
  lemma GrewByTable(s: State, q: Prefix, i: nat, t: nat, e: Entry, s2: State, v: nat, f: Word)
    requires CanLink(s, q, i, t, e) && OnPath(q, i, v) && e.flags == f + PRESENT
    requires Mapped(Link(s, q, i, t, e), s2, t, t, KERNEL_PAGE)
    ensures Grew(s, s2, v, f) && Sub(q, i) in s2.tables && s2.tables[Sub(q, i)] == t
    ensures f + PRESENT <= Gate(s2, q, i)
  {
    var s1 := Link(s, q, i, t, e);
    LinkExtends(s, q, i, t, e, v, f);
    LinkLeaves(s, q, i, t, e);
    ExtendsTrans(s, s1, s2);
    GatesBoundedKernel(s1, s2, t, v, f);
    GatesBoundedTrans(s, s1, s2, v, f);
    GrewByTableLeaves(s, s1, s2, t);
    hide Valid, FramesAccounted, GatesBounded, LeavesKept, Gate, OnPath;
  }

  // ---------------------------------------------------------------------------------------------
  // Writes to leaves.

  /** Writing the leaf of page `v` moves that page only, and nothing above the leaves. */
  lemma PutLeaf(s: State, v: nat, e: Entry)
    requires Valid(s) && v < PAGES && P1(v) in s.tables
    ensures var s' := Put(s, P1(v), I1(v), e);
      && Valid(s')
      && (forall w :: 0 <= w < PAGES ==> Leaf(s', w) == if w == v then e else Leaf(s, w))
      && (forall r, j :: Sub(r, j) in s.tables ==> Gate(s', r, j) == Gate(s, r, j))
  {
    var s' := Put(s, P1(v), I1(v), e);
    PutAt(s, P1(v), I1(v), e);
    assert Depth(P1(v)) == 3;
    forall r, j | Sub(r, j) in s'.tables
      ensures Linked(s', r, j) && Linked(s, r, j) && At(s', r, j) == At(s, r, j)
    {
      assert Linked(s, r, j);
      assert Depth(Sub(r, j)) <= 3;
    }
    forall w | 0 <= w < PAGES
      ensures Leaf(s', w) == if w == v then e else Leaf(s, w)
    {
      hide Valid, At, Put;
      PathDetermines(v, w);
    }
  }

  lemma PutLeafExtends(s: State, v: nat, e: Entry, f: Word)
    requires Valid(s) && v < PAGES && P1(v) in s.tables
    ensures var s' := Put(s, P1(v), I1(v), e);
      Extends(s, s') && GatesBounded(s, s', v, f) && New(s, s') == {}
  {
    var s' := Put(s, P1(v), I1(v), e);
    PutLeaf(s, v, e);
    assert s'.tables == s.tables && s'.free == s.free && s'.root == s.root && |s'.mem| == |s.mem|;
    hide Valid, Leaf, Gate, OnPath, Put;
    assert New(s, s') == {};
  }

  lemma PathInTables(s: State, v: nat)
    requires Valid(s) && P1(v) in s.tables
    ensures forall q, i :: OnPath(q, i, v) ==> Sub(q, i) in s.tables
  {
    assert Linked(s, P2(v), I2(v));
    assert Linked(s, P3(v), I3(v));
  }

  /** Every descriptor on the way to page `v` carries the flags `f`. */
  ghost predicate PathHas(s: State, v: nat, f: Word)
    requires Valid(s)
  {
    forall q, i :: OnPath(q, i, v) ==> f + PRESENT <= Gate(s, q, i)
  }

  lemma PathHasKept(s: State, s': State, v: nat, f: Word)
    requires Valid(s) && Valid(s') && GatesKept(s, s') && P1(v) in s.tables && PathHas(s, v, f)
    ensures PathHas(s', v, f)
  {
    PathInTables(s, v);
    hide Valid, OnPath;
    forall q, i | OnPath(q, i, v)
      ensures f + PRESENT <= Gate(s', q, i)
    {
      hide Gate;
    }
  }

  lemma LeavesMappedByPut(s: State, s1: State, s2: State, v: nat, p: nat, f: Word)
    requires Shaped(s) && Shaped(s1) && Shaped(s2) && LeavesKept(s, s1) && v < PAGES && s2.free == s1.free
    requires forall w :: 0 <= w < PAGES ==>
      Leaf(s2, w) == if w == v then Entry(BitOr(Leaf(s1, v).frame, p), f) else Leaf(s1, w)
    ensures LeavesMapped(s, s2, v, p, f)
  {
    hide Shaped, Leaf, After;
    assert New(s, s2) == New(s, s1);
  }

  /** The tables of `v` are in place; the leaf is written last. */
  lemma MappedByLeaf(s: State, s1: State, v: nat, p: nat, f: Word)
    requires Grew(s, s1, v, f) && v < PAGES && P1(v) in s1.tables && PathHas(s1, v, f)
    ensures var s' := Put(s1, P1(v), I1(v), Entry(BitOr(Leaf(s1, v).frame, p), f));
      Valid(s') && Mapped(s, s', v, p, f)
  {
    var e := Entry(BitOr(Leaf(s1, v).frame, p), f);
    var s2 := Put(s1, P1(v), I1(v), e);
    PutLeaf(s1, v, e);
    PutLeafExtends(s1, v, e, f);
    ExtendsTrans(s, s1, s2);
    GatesBoundedTrans(s, s1, s2, v, f);
    PathHasKept(s1, s2, v, f);
    LeavesMappedByPut(s, s1, s2, v, p, f);
  }

  // ---------------------------------------------------------------------------------------------
  // Mapping cut short because frames or section nodes ran out.

  /** The tables have only grown, and no page outside the new tables' own addresses has moved. */
  ghost predicate Cut(s: State, s': State) {
    Extends(s, s') && LeavesSafe(s, s')
  }

  ghost predicate LeavesSafe(s: State, s': State)
    requires Shaped(s) && Shaped(s')
  {
    forall w :: 0 <= w < PAGES && w !in New(s, s') ==> Leaf(s', w) == Leaf(s, w)
  }

  lemma CutAfterGrew(s: State, s1: State, s2: State, v: nat, f: Word)
    requires Grew(s, s1, v, f) && Cut(s1, s2)
    ensures Cut(s, s2)
  {
    ExtendsTrans(s, s1, s2);
    assert s2.free <= s1.free <= s.free;
    hide Extends, Valid, Shaped, Leaf;
    NewTrans(s, s1, s2);
  }

  lemma CutAfterLink(s: State, q: Prefix, i: nat, t: nat, e: Entry, s2: State, v: nat, f: Word)
    requires CanLink(s, q, i, t, e) && OnPath(q, i, v) && e.flags == f + PRESENT
    requires Cut(Link(s, q, i, t, e), s2)
    ensures Cut(s, s2)
  {
    var s1 := Link(s, q, i, t, e);
    LinkExtends(s, q, i, t, e, v, f);
    LinkLeaves(s, q, i, t, e);
    ExtendsTrans(s, s1, s2);
    assert s2.free <= s1.free <= s.free;
    hide Extends, Valid, Shaped, Leaf, Link;
    NewTrans(s, s1, s2);
  }

  lemma CutRefl(s: State)
    requires Valid(s)
    ensures Cut(s, s)
  {
    GrewRefl(s, 0, {});
  }

  /** What reading one level of the walk shows. */
  lemma StepDown(s: State, q: Prefix, i: nat)
    requires Valid(s) && q in s.tables && Depth(q) < 3 && i < 512
    ensures Present(At(s, q, i)) <==> Sub(q, i) in s.tables
    ensures Sub(q, i) in s.tables ==> At(s, q, i).frame == s.tables[Sub(q, i)]
    ensures Sub(q, i) !in s.tables ==> At(s, q, i) == ZERO
    ensures s.tables[q] < |s.mem| && |s.mem[s.tables[q]]| == 512
  {
    assert Sub(q, i) in s.tables ==> Linked(s, q, i);
  }

  lemma CanLinkNew(s: State, q: Prefix, i: nat, t: nat, flags: Word)
    requires Valid(s) && q in s.tables && Depth(q) < 3 && i < 512 && Sub(q, i) !in s.tables && t in s.free
    ensures CanLink(s, q, i, t, Entry(t, flags + PRESENT)) && t < |s.mem| <= PAGES && t != s.tables[q]
  {
    assert 0 in (flags + PRESENT) * PRESENT;
  }

  lemma RootTable(s: State)
    requires Valid(s)
    ensures Root in s.tables && s.tables[Root] == s.root && s.root < |s.mem|
  {
  }

  // ---------------------------------------------------------------------------------------------
  // One level of the walk of paging_map_page.

  /** `parent` is the table at `q`, and its descriptor `i` is on the way to page `v`. */
  ghost predicate AtLevel(s: State, q: Prefix, i: nat, parent: nat, v: nat) {
    && q in s.tables && s.tables[q] == parent && parent < |s.mem|
    && Depth(q) < 3 && i < 512 && OnPath(q, i, v)
  }

  /** The level is done: `child` is the table behind descriptor `i`, which carries the flags. */
  ghost predicate Descended(s: State, s': State, q: Prefix, i: nat, child: nat, v: nat, f: Word) {
    && Grew(s, s', v, f)
    && Sub(q, i) in s'.tables && s'.tables[Sub(q, i)] == child
    && f + PRESENT <= Gate(s', q, i)
  }

  lemma DescendedByTable(s: State, q: Prefix, i: nat, t: nat, s2: State, v: nat, f: Word)
    requires CanLink(s, q, i, t, Entry(t, f + PRESENT)) && OnPath(q, i, v)
    requires Mapped(Link(s, q, i, t, Entry(t, f + PRESENT)), s2, t, t, KERNEL_PAGE)
    ensures Descended(s, s2, q, i, t, v, f)
  {
    hide Valid, CanLink, Link, Mapped, Grew, Gate, OnPath;
    GrewByTable(s, q, i, t, Entry(t, f + PRESENT), s2, v, f);
  }

  lemma DescendedByFlags(s: State, q: Prefix, i: nat, v: nat, f: Word)
    requires Valid(s) && Sub(q, i) in s.tables && OnPath(q, i, v)
    ensures Linked(s, q, i)
    ensures var e := At(s, q, i);
      && Valid(Put(s, q, i, Entry(e.frame, e.flags + f)))
      && Descended(s, Put(s, q, i, Entry(e.frame, e.flags + f)), q, i, e.frame, v, f)
  {
    GrewByFlags(s, q, i, v, f);
  }

  lemma DescendedStep(s: State, s': State, q: Prefix, i: nat, child: nat, v: nat, f: Word)
    requires Descended(s, s', q, i, child, v, f)
    ensures Grew(s, s', v, f) && child < |s'.mem|
    ensures Sub(q, i) in s'.tables && s'.tables[Sub(q, i)] == child
  {
    assert Shaped(s');
  }

  /** All three levels are done: the leaf table of `v` is there, and so are the flags above it. */
  lemma ThreeLevels(s: State, s1: State, s2: State, s3: State, pdp: nat, pd: nat, pt: nat, v: nat, f: Word)
    requires Descended(s, s1, Root, I4(v), pdp, v, f)
    requires Descended(s1, s2, P3(v), I3(v), pd, v, f)
    requires Descended(s2, s3, P2(v), I2(v), pt, v, f)
    ensures Grew(s, s3, v, f) && PathHas(s3, v, f)
    ensures P1(v) in s3.tables && s3.tables[P1(v)] == pt && pt < |s3.mem| && Leaf(s3, v) == s3.mem[pt][I1(v)]
  {
    hide Valid, Gate, GatesBounded, LeavesKept, FramesAccounted;
    GrewTrans(s1, s2, s3, v, f);
    GrewTrans(s, s1, s3, v, f);
    ShapedFrames(s3);
    assert Gate(s1, Root, I4(v)) <= Gate(s3, Root, I4(v));
    assert Gate(s2, P3(v), I3(v)) <= Gate(s3, P3(v), I3(v));
  }

  lemma ShapedFrames(s: State)
    requires Valid(s)
    ensures forall q :: q in s.tables ==> s.tables[q] < |s.mem| && |s.mem[s.tables[q]]| == 512
  {
  }

  /** The three reads of a walk to page `v`. */
  lemma PathDown(s: State, v: nat)
    requires Valid(s)
    ensures P1(v) in s.tables ==> P2(v) in s.tables
    ensures P2(v) in s.tables ==> P3(v) in s.tables
    ensures Level(s, Root, I4(v))
    ensures P3(v) in s.tables ==> Level(s, P3(v), I3(v))
    ensures P2(v) in s.tables ==> Level(s, P2(v), I2(v))
  {
    StepDown(s, Root, I4(v));
    if P2(v) in s.tables {
      assert Linked(s, P3(v), I3(v));
    }
    if P1(v) in s.tables {
      assert Linked(s, P2(v), I2(v));
    }
    if P3(v) in s.tables {
      StepDown(s, P3(v), I3(v));
    }
    if P2(v) in s.tables {
      StepDown(s, P2(v), I2(v));
    }
  }

  /** Reading descriptor `i` of the table at `q` tells whether a table lies behind it, and which. */
  ghost predicate Level(s: State, q: Prefix, i: nat)
    requires q in s.tables
  {
    && s.tables[q] < |s.mem| && i < |s.mem[s.tables[q]]|
    && (Present(s.mem[s.tables[q]][i]) <==> Sub(q, i) in s.tables)
    && (Sub(q, i) in s.tables ==> s.mem[s.tables[q]][i].frame == s.tables[Sub(q, i)] < |s.mem|)
  }

  /** The state after paging_unmap_page. */
  ghost function Unmapped(s: State, v: nat): State
    requires Shaped(s)
  {
    if P1(v) in s.tables then Put(s, P1(v), I1(v), ZERO) else s
  }
}
