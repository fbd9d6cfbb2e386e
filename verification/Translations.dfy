/** What the page tables mean: the translation and the rights of each page, over single calls and
    over whole runs. */
module Translations {
  import opened Descriptors
  import opened Tables

  // ---------------------------------------------------------------------------------------------
  // One call of paging_map_page.

  /** The frame slot of a leaf can take frame `p`: the address is OR-ed in, so the slot must be empty
      or hold `p` already. */
  ghost predicate Takes(e: Entry, p: nat) {
    e.frame == 0 || e.frame == p
  }

  /** The page just mapped translates to its frame with exactly the flags asked for.  The exception
      is a page that is the own address of a table made on the way, unless it is mapped to itself. */
  lemma MappedTranslates(s: State, s': State, v: nat, p: nat, f: Word)
    requires Mapped(s, s', v, p, f) && v < PAGES && Takes(Leaf(s, v), p)
    requires v in New(s, s') ==> p == v
    ensures Leaf(s', v) == Entry(p, f)
  {
  }

  lemma WithinBoth(a: nat, b: nat, p: nat)
    ensures BitsWithin(BitOr(a, b), p) <==> BitsWithin(a, p) && BitsWithin(b, p)
  {
    forall k: nat
      ensures Bit(BitOr(a, b), k) <==> Bit(a, k) || Bit(b, k)
    {
      BitOrBits(a, b, k);
    }
    if BitsWithin(BitOr(a, b), p) {
      assert forall k: nat :: Bit(a, k) ==> Bit(BitOr(a, b), k);
      assert forall k: nat :: Bit(b, k) ==> Bit(BitOr(a, b), k);
    }
  }

  lemma OrIsMiddle(a: nat, t: nat, p: nat)
    ensures BitOr(BitOr(a, t), p) == t <==> BitsWithin(a, t) && BitsWithin(p, t)
  {
    var x := BitOr(BitOr(a, t), p);
    forall k: nat
      ensures Bit(x, k) <==> Bit(a, k) || Bit(t, k) || Bit(p, k)
    {
      BitOrBits(BitOr(a, t), p, k);
      BitOrBits(a, t, k);
    }
    if BitsWithin(a, t) && BitsWithin(p, t) {
      BitsDetermine(x, t);
    }
    if x == t {
      assert forall k: nat :: Bit(a, k) ==> Bit(x, k);
      assert forall k: nat :: Bit(p, k) ==> Bit(x, k);
    }
  }

  /** In general the address is OR-ed into what the leaf held, and that of a table made on the way has
      gone into its own leaf first.  The page translates to its frame exactly when every one bit of
      both is a one bit of the frame number asked for. */
  lemma MappedTranslatesExactly(s: State, s': State, v: nat, p: nat, f: Word)
    requires Mapped(s, s', v, p, f) && v < PAGES
    ensures Leaf(s', v).flags == f
    ensures Leaf(s', v).frame == p <==>
      BitsWithin(Leaf(s, v).frame, p) && (v in New(s, s') ==> BitsWithin(v, p))
  {
    hide Valid, Extends, GatesBounded, PathHas, Leaf, BitOr, BitsWithin;
    MappedLeaf(s, s', v, p, f);
    BitOrSame(After(s, New(s, s'), v).frame, p);
    WithinBoth(Leaf(s, v).frame, v, p);
  }

  /** What a caller can tell before the call: the number of a page is not that of a free frame. */
  lemma MappedTranslatesElsewhere(s: State, s': State, v: nat, p: nat, f: Word)
    requires Mapped(s, s', v, p, f) && v < PAGES && v !in s.free
    ensures Leaf(s', v).frame == p <==> BitsWithin(Leaf(s, v).frame, p)
  {
    hide Mapped, Leaf, BitsWithin;
    MappedTranslatesExactly(s, s', v, p, f);
  }

  /** A page already mapped to frame 0x201 and mapped again to frame 0x202 translates to frame 0x203. */
  lemma MappedTwice(s: State, s': State, v: nat, f: Word)
    requires Mapped(s, s', v, 0x202, f) && v < PAGES && v !in New(s, s') && Leaf(s, v).frame == 0x201
    ensures Leaf(s', v).frame == 0x203
  {
    OrOfFrames();
    hide Valid, Extends, GatesBounded, PathHas, Leaf, BitOr;
    MappedLeaf(s, s', v, 0x202, f);
  }

  lemma OrOfFrames()
    ensures BitOr(0x201, 0x202) == 0x203 && BitOr(0, 0x201) == 0x201
  {
    assert BitOr(1, 1) == 1;
    assert BitOr(0x10, 0x10) == 0x10;
    assert BitOr(0x80, 0x80) == 0x80 && BitOr(0x100, 0x101) == 0x101;
  }

  /** Page 0x201, mapped for the first time, to frame 0x202, translates to frame 0x203 when frame 0x201
      becomes a table on the way. */
  lemma MappedOverTable(s: State, s': State, f: Word)
    requires Mapped(s, s', 0x201, 0x202, f) && 0x201 in New(s, s') && Leaf(s, 0x201) == ZERO
    ensures Leaf(s', 0x201).frame == 0x203
  {
    OrOfFrames();
    hide Valid, Extends, GatesBounded, PathHas, Leaf, BitOr;
    MappedLeaf(s, s', 0x201, 0x202, f);
  }

  /** A table made on the way is mapped at its own address exactly when every one bit of what its leaf
      held, and of what it is mapped to besides, is a one bit of its number. */
  lemma MappedTables(s: State, s': State, v: nat, p: nat, f: Word, t: nat)
    requires Mapped(s, s', v, p, f) && t in New(s, s')
    ensures t < PAGES && Leaf(s', t).flags == if t == v then f else KERNEL_PAGE
    ensures Leaf(s', t).frame == t <==> BitsWithin(Leaf(s, t).frame, t) && (t == v ==> BitsWithin(p, t))
  {
    hide Valid, Extends, GatesBounded, PathHas, Leaf, BitOr, BitsWithin;
    FreeAreFrames(s, s', v, p, f);
    MappedLeaf(s, s', v, p, f);
    BitOrSame(Leaf(s, t).frame, t);
    OrIsMiddle(Leaf(s, t).frame, t, p);
  }

  /** Every other page translates as before. */
  lemma MappedFrame(s: State, s': State, v: nat, p: nat, f: Word, w: nat)
    requires Mapped(s, s', v, p, f) && w < PAGES && w != v && w !in New(s, s')
    ensures Leaf(s', w) == Leaf(s, w)
  {
  }

  // ---------------------------------------------------------------------------------------------
  // paging_unmap_page and paging_remap_page.

  /** Unmapping clears one translation and leaves every other. */
  lemma UnmappedTranslates(s: State, v: nat)
    requires Valid(s) && v < PAGES
    ensures var s' := Unmapped(s, v);
      && Valid(s') && s'.free == s.free && s'.tables == s.tables
      && forall w :: 0 <= w < PAGES ==> Leaf(s', w) == if w == v then ZERO else Leaf(s, w)
  {
    if P1(v) in s.tables {
      PutLeaf(s, v, ZERO);
    }
  }

  /** Remapping clears one page and leaves every page that is neither of the two nor the own address
      of a table made on the way.  The other page gets the flags, and it translates to the frame
      exactly when what its leaf held, and the number of a table made there, add no bit to it. */
  lemma RemappedTranslates(s: State, s': State, from: nat, to: nat, w: nat)
    requires Valid(s) && from < PAGES && to < PAGES && w < PAGES
    requires Mapped(Unmapped(s, from), s', to, Leaf(s, from).frame, Leaf(s, from).flags)
    ensures w != to && w !in New(s, s') ==> Leaf(s', w) == if w == from then ZERO else Leaf(s, w)
    ensures Leaf(s', to).flags == Leaf(s, from).flags
    ensures Leaf(s', to).frame == Leaf(s, from).frame <==>
      && (to != from ==> BitsWithin(Leaf(s, to).frame, Leaf(s, from).frame))
      && (to in New(s, s') ==> BitsWithin(to, Leaf(s, from).frame))
  {
    hide Valid, Extends, GatesBounded, PathHas, Leaf, BitOr, BitsWithin;
    IsShaped(s);
    UnmappedTranslates(s, from);
    var e := Leaf(s, from);
    assert New(Unmapped(s, from), s') == New(s, s');
    NothingWithin(e.frame);
    MappedLeaf(Unmapped(s, from), s', to, e.frame, e.flags);
    MappedTranslatesExactly(Unmapped(s, from), s', to, e.frame, e.flags);
  }

  lemma IsShaped(s: State)
    requires Valid(s)
    ensures Shaped(s)
  {
  }

  lemma NothingWithin(p: nat)
    ensures BitsWithin(0, p)
  {
    forall k: nat
      ensures !Bit(0, k)
    {
      ZeroBits(k);
    }
  }

  lemma MappedLeaf(s: State, s': State, v: nat, p: nat, f: Word)
    requires Mapped(s, s', v, p, f)
    ensures Shaped(s) && Shaped(s') && LeavesMapped(s, s', v, p, f)
  {
  }

  lemma FreeAreFrames(s: State, s': State, v: nat, p: nat, f: Word)
    requires Mapped(s, s', v, p, f)
    ensures forall t :: t in New(s, s') ==> t < PAGES
  {
  }

  // ---------------------------------------------------------------------------------------------
  // Rights.

  /** The rights of a page: the flags that all four descriptors of its walk have (Intel SDM Volume
      3A, section 4.6), when no descriptor above the leaf has bit 7. */
  ghost function Rights(s: State, v: nat): Word
    requires Valid(s)
  {
    Gate(s, Root, I4(v)) * Gate(s, P3(v), I3(v)) * Gate(s, P2(v), I2(v)) * Leaf(s, v).flags
  }

  /** The page just mapped has exactly the rights asked for. */
  lemma MappedRights(s: State, s': State, v: nat, p: nat, f: Word)
    requires Mapped(s, s', v, p, f) && v < PAGES
    ensures Rights(s', v) == f
  {
    hide GatesBounded, GatesKept, TablesKept, FramesAccounted;
    assert OnPath(Root, I4(v), v) && OnPath(P3(v), I3(v), v) && OnPath(P2(v), I2(v), v);
    assert Leaf(s', v).flags == f;
  }

  /** Mapping one page takes no right from another. */
  lemma MappedKeepsRights(s: State, s': State, v: nat, p: nat, f: Word, w: nat)
    requires Mapped(s, s', v, p, f) && w < PAGES && w != v && w !in New(s, s')
    ensures Rights(s, w) <= Rights(s', w)
  {
    MappedFrame(s, s', v, p, f, w);
    hide LeavesMapped, GatesBounded, PathHas, FramesAccounted, Leaf, TablesKept, Valid;
    assert Gate(s, Root, I4(w)) <= Gate(s', Root, I4(w));
  }

  /** Flags beyond KERNEL_PAGE and those asked for were there before, on the leaf as above it. */
  lemma LeafGrowth(s: State, s': State, v: nat, p: nat, f: Word, w: nat)
    requires Mapped(s, s', v, p, f) && w < PAGES
    ensures Shaped(s) && Shaped(s') && Leaf(s', w).flags <= Leaf(s, w).flags + KERNEL_PAGE + f
  {
    hide Valid, Extends, GatesBounded, PathHas, Leaf;
    MappedLeaf(s, s', v, p, f);
  }

  lemma GateGrowth(s: State, s': State, v: nat, p: nat, f: Word, q: Prefix, i: nat)
    requires Mapped(s, s', v, p, f)
    ensures Valid(s) && Valid(s') && Gate(s', q, i) <= Gate(s, q, i) + KERNEL_PAGE + f
  {
    hide TablesKept, FramesAccounted, GatesKept, LeavesMapped, PathHas;
    var gained := if OnPath(q, i, v) then f else {};
    assert Sub(q, i) in s'.tables ==> Gate(s', q, i) <= Gate(s, q, i) + KERNEL_PAGE + gained;
  }

  lemma MeetWithin(a: Word, b: Word, c: Word, d: Word, a': Word, b': Word, c': Word, d': Word, extra: Word, right: Word)
    requires a' <= a + extra && b' <= b + extra && c' <= c + extra && d' <= d + extra && right * extra == {}
    ensures a' * b' * c' * d' * right <= a * b * c * d * right
  {
    forall x | x in a' * b' * c' * d' * right
      ensures x in a * b * c * d * right
    {
      assert x !in right * extra;
    }
  }

  /** Only KERNEL_PAGE flags and the flags asked for can reach a page: mapping without the USER flag,
      say, opens no page to user code. */
  lemma MappedGrantsNothingElse(s: State, s': State, v: nat, p: nat, f: Word, w: nat, right: Word)
    requires Mapped(s, s', v, p, f) && w < PAGES && right * (f + KERNEL_PAGE) == {}
    ensures Rights(s', w) * right <= Rights(s, w) * right
  {
    hide Mapped, Valid, Leaf, Gate;
    GateGrowth(s, s', v, p, f, Root, I4(w));
    GateGrowth(s, s', v, p, f, P3(w), I3(w));
    GateGrowth(s, s', v, p, f, P2(w), I2(w));
    LeafGrowth(s, s', v, p, f, w);
    MeetWithin(Gate(s, Root, I4(w)), Gate(s, P3(w), I3(w)), Gate(s, P2(w), I2(w)), Leaf(s, w).flags,
               Gate(s', Root, I4(w)), Gate(s', P3(w), I3(w)), Gate(s', P2(w), I2(w)), Leaf(s', w).flags,
               KERNEL_PAGE + f, right);
  }

  // ---------------------------------------------------------------------------------------------
  // Runs of paging_map_page, paging_unmap_page and paging_remap_page.

  datatype Call =
    | Map(page: nat, frame: nat, flags: Word)
    | Unmap(page: nat)
    | Remap(from: nat, to: nat)

  /** `s'` is what the call makes of `s`. */
  ghost predicate Made(s: State, s': State, c: Call) {
    match c
    case Map(page, frame, flags) => page < PAGES && Mapped(s, s', page, frame, flags)
    case Unmap(page) => page < PAGES && Valid(s) && s' == Unmapped(s, page)
    case Remap(from, to) =>
      && from < PAGES && to < PAGES && Valid(s)
      && if P1(from) in s.tables then
           Mapped(Unmapped(s, from), s', to, Leaf(s, from).frame, Leaf(s, from).flags)
         else
           s' == s
  }

  /** The call writes the leaf of page `v` itself. */
  predicate Touches(c: Call, v: nat) {
    match c
    case Map(page, _, _) => page == v
    case Unmap(page) => page == v
    case Remap(from, to) => from == v || to == v
  }

  ghost predicate Run(states: seq<State>, calls: seq<Call>) {
    && |states| == |calls| + 1
    && forall i :: 0 <= i < |calls| ==> Made(states[i], states[i + 1], calls[i])
  }

  lemma UnmappedExtends(s: State, v: nat)
    requires Valid(s) && v < PAGES
    ensures Extends(s, Unmapped(s, v)) && New(s, Unmapped(s, v)) == {}
  {
    if P1(v) in s.tables {
      PutLeafExtends(s, v, ZERO, {});
    } else {
      GrewRefl(s, v, {});
    }
  }

  lemma MadeExtends(s: State, s': State, c: Call)
    requires Made(s, s', c)
    ensures Extends(s, s') && s'.free <= s.free && Valid(s) && Valid(s')
  {
    hide Valid, Extends, Unmapped;
    match c
    case Map(page, frame, flags) =>
      MappedIsExtension(s, s', page, frame, flags);
    case Unmap(page) =>
      UnmappedExtends(s, page);
      ExtensionIsValid(s, s');
    case Remap(from, to) =>
      RemappedExtends(s, s', from, to);
  }

  lemma RemappedExtends(s: State, s': State, from: nat, to: nat)
    requires Made(s, s', Remap(from, to))
    ensures Extends(s, s') && s'.free <= s.free && Valid(s) && Valid(s')
  {
    hide Valid, Extends, Unmapped, Mapped, Leaf;
    IsShaped(s);
    if P1(from) in s.tables {
      UnmappedExtends(s, from);
      var e := Leaf(s, from);
      MappedIsExtension(Unmapped(s, from), s', to, e.frame, e.flags);
      ExtendsTrans(s, Unmapped(s, from), s');
      ExtensionIsValid(s, s');
    } else {
      StandsStill(s);
    }
  }

  lemma MappedIsExtension(s: State, s': State, v: nat, p: nat, f: Word)
    requires Mapped(s, s', v, p, f)
    ensures Extends(s, s') && s'.free <= s.free && Valid(s) && Valid(s') && Shaped(s)
  {
  }

  lemma ExtensionIsValid(s: State, s': State)
    requires Extends(s, s')
    ensures Valid(s) && Valid(s') && s'.free <= s.free && Shaped(s)
  {
  }

  lemma StandsStill(s: State)
    requires Valid(s)
    ensures Extends(s, s)
  {
    GrewRefl(s, 0, {});
  }

  lemma {:induction false} RunExtends(states: seq<State>, calls: seq<Call>)
    requires Run(states, calls) && |calls| > 0
    ensures Extends(states[0], states[|calls|]) && states[|calls|].free <= states[0].free
    decreases |calls|
  {
    hide Made, Extends;
    var n := |calls| - 1;
    assert Made(states[n], states[n + 1], calls[n]);
    MadeExtends(states[n], states[n + 1], calls[n]);
    if n > 0 {
      RunExtends(states[..n + 1], calls[..n]);
      ExtendsTrans(states[0], states[n], states[n + 1]);
    }
  }

  /** A call leaves the translation and takes no right of a page that it does not touch and that is not
      the own address of a table it makes. */
  lemma MadeKeeps(s: State, s': State, c: Call, w: nat)
    requires Made(s, s', c) && w < PAGES && w !in New(s, s') && !Touches(c, w)
    ensures Valid(s) && Valid(s') && Leaf(s', w) == Leaf(s, w) && Rights(s, w) <= Rights(s', w)
  {
    hide Valid, Extends, Unmapped, Mapped, Leaf, Rights;
    MadeExtends(s, s', c);
    match c {
      case Map(page, frame, flags) =>
        MappedFrame(s, s', page, frame, flags, w);
      case Unmap(page) =>
        UnmappedTranslates(s, page);
      case Remap(from, to) =>
        RemapKeeps(s, s', from, to, w);
    }
    IsShaped(s);
    RightsKept(s, s', w);
  }

  lemma RemapKeeps(s: State, s': State, from: nat, to: nat, w: nat)
    requires Made(s, s', Remap(from, to)) && w < PAGES && w !in New(s, s') && w != from && w != to
    ensures Shaped(s) && Shaped(s') && Leaf(s', w) == Leaf(s, w)
  {
    hide Valid, Unmapped, Mapped, Leaf;
    IsShaped(s);
    if P1(from) in s.tables {
      RemappedTranslates(s, s', from, to, w);
      MappedIsExtension(Unmapped(s, from), s', to, Leaf(s, from).frame, Leaf(s, from).flags);
      IsShaped(s');
    }
  }

  /** Where the leaf stays no right is lost. */
  lemma RightsKept(s: State, s': State, w: nat)
    requires Extends(s, s') && Leaf(s', w) == Leaf(s, w)
    ensures Rights(s, w) <= Rights(s', w)
  {
    hide FramesAccounted, Leaf, TablesKept, Valid;
    assert Gate(s, Root, I4(w)) <= Gate(s', Root, I4(w));
  }

  /** Over a whole run a mapped page keeps its translation, and keeps every right it was mapped with,
      as long as no later call touches it and no table made in the run has its number. */
  lemma {:induction false} RunTranslates(states: seq<State>, calls: seq<Call>, k: nat)
    requires Run(states, calls) && k < |calls| && calls[k].Map?
    requires Valid(states[k]) && Takes(Leaf(states[k], calls[k].page), calls[k].frame)
    requires calls[k].page !in New(states[0], states[|calls|])
    requires forall j :: k < j < |calls| ==> !Touches(calls[j], calls[k].page)
    ensures Valid(states[|calls|])
    ensures Leaf(states[|calls|], calls[k].page) == Entry(calls[k].frame, calls[k].flags)
    ensures calls[k].flags <= Rights(states[|calls|], calls[k].page)
    decreases |calls|
  {
    hide Valid, Extends, Mapped, Leaf, Rights, Touches;
    var n := |calls| - 1;
    var c, d := calls[k], calls[n];
    assert Made(states[n], states[n + 1], d);
    MadeExtends(states[n], states[n + 1], d);
    if n > 0 {
      assert Run(states[..n + 1], calls[..n]);
      RunExtends(states[..n + 1], calls[..n]);
    }
    assert c.page !in New(states[n], states[n + 1]);
    if k == n {
      MappedTranslates(states[n], states[n + 1], d.page, d.frame, d.flags);
      MappedRights(states[n], states[n + 1], d.page, d.frame, d.flags);
    } else {
      RunTranslates(states[..n + 1], calls[..n], k);
      assert Made(states[k], states[k + 1], c);
      MadeKeeps(states[n], states[n + 1], d, c.page);
    }
  }

  // ---------------------------------------------------------------------------------------------
  // The tables as a tree.

  datatype Reached = Nowhere | Table(frame: nat)

  /** Bit 7 of a descriptor above the leaves, which ends the processor's walk there: a large page in the
      second and third level, and reserved in the first (Intel SDM Volume 3A, section 4.5). */
  const LARGE: Word := {7}

  predicate Leads(e: Entry) {
    Present(e) && e.flags * LARGE == {}
  }

  /** Following a path of indices through memory, as the processor does. */
  function Follow(mem: Memory, root: nat, q: Prefix): Reached {
    if q.Root? then Table(root)
    else
      match Follow(mem, root, q.parent)
      case Nowhere => Nowhere
      case Table(t) =>
        if t < |mem| && q.index < |mem[t]| && Leads(mem[t][q.index]) then Table(mem[t][q.index].frame) else Nowhere
  }

  /** No descriptor on the way to the table at `q` has bit 7. */
  ghost predicate Small(s: State, q: Prefix)
    requires Valid(s)
  {
    q.Sub? ==> Gate(s, q.parent, q.index) * LARGE == {} && Small(s, q.parent)
  }

  /** The frames that the processor reaches from the root in at most three steps are the tables to which
      no descriptor with bit 7 leads; and paging_map_page sets that bit only when it is asked to. */
  lemma {:induction false} TablesAreTheReachableFrames(s: State, q: Prefix)
    requires Valid(s) && Depth(q) <= 3
    ensures Follow(s.mem, s.root, q) == if q in s.tables && Small(s, q) then Table(s.tables[q]) else Nowhere
    decreases q
  {
    if q.Sub? {
      TablesAreTheReachableFrames(s, q.parent);
      if q.parent in s.tables && q.index < 512 {
        StepDown(s, q.parent, q.index);
      }
      assert q == Sub(q.parent, q.index);
      assert q in s.tables ==> Linked(s, q.parent, q.index);
    }
  }

  lemma {:induction false} MappedStaysSmall(s: State, s': State, v: nat, p: nat, f: Word, q: Prefix)
    requires Mapped(s, s', v, p, f) && f * LARGE == {} && Valid(s) && Small(s, q)
    ensures Valid(s') && Small(s', q)
    decreases q
  {
    hide Valid, Mapped, Gate;
    MappedIsExtension(s, s', v, p, f);
    if q.Sub? {
      MappedStaysSmall(s, s', v, p, f, q.parent);
      GateGrowth(s, s', v, p, f, q.parent, q.index);
    }
  }

  /** No frame serves as two tables or on two levels. */
  lemma TablesFormATree(s: State, q: Prefix, r: Prefix)
    requires Valid(s) && Depth(q) <= 3 && Depth(r) <= 3
    requires Follow(s.mem, s.root, q).Table? && Follow(s.mem, s.root, q) == Follow(s.mem, s.root, r)
    ensures q == r
  {
    TablesAreTheReachableFrames(s, q);
    TablesAreTheReachableFrames(s, r);
  }

  // ---------------------------------------------------------------------------------------------
  // How many frames a call can take.

  /** The number of tables above or at depth `d` in a full tree. */
  function Tables512(d: nat): nat {
    if d == 0 then 1 else 512 * Tables512(d - 1) + 1
  }

  /** Paths numbered level by level. */
  function PathNumber(q: Prefix): nat {
    if q.Root? then 0 else PathNumber(q.parent) * 512 + q.index + 1
  }

  predicate Indexed(q: Prefix) {
    q.Sub? ==> q.index < 512 && Indexed(q.parent)
  }

  lemma {:induction false} PathNumberInjective(q: Prefix, r: Prefix)
    requires Indexed(q) && Indexed(r) && PathNumber(q) == PathNumber(r)
    ensures q == r
  {
    if q.Sub? && r.Sub? {
      PathNumberInjective(q.parent, r.parent);
    }
  }

  lemma {:induction false} PathNumberBound(q: Prefix)
    requires Indexed(q)
    ensures PathNumber(q) < Tables512(Depth(q))
  {
    if q.Sub? {
      PathNumberBound(q.parent);
    }
  }

  lemma {:induction false} TablesGrow(d: nat)
    requires d <= 3
    ensures Tables512(d) <= Tables512(3) == 1 + 512 + 512 * 512 + 512 * 512 * 512
  {
    assert Tables512(1) == 513 && Tables512(2) == 262657 && Tables512(3) == 134480385;
  }

  lemma {:induction false} PathsBounded(paths: set<Prefix>, n: nat)
    requires forall q :: q in paths ==> Indexed(q) && PathNumber(q) < n
    ensures |paths| <= n
  {
    if paths != {} {
      if q :| q in paths && PathNumber(q) == n - 1 {
        forall r | r in paths - {q}
          ensures PathNumber(r) < n - 1
        {
          if PathNumber(r) == n - 1 {
            PathNumberInjective(q, r);
          }
        }
        PathsBounded(paths - {q}, n - 1);
      } else {
        PathsBounded(paths, n - 1);
      }
    }
  }

  lemma {:induction false} TablesIndexed(s: State, q: Prefix)
    requires Valid(s) && q in s.tables
    ensures Indexed(q)
    decreases q
  {
    if q.Sub? {
      assert q == Sub(q.parent, q.index) && Linked(s, q.parent, q.index);
      TablesIndexed(s, q.parent);
    }
  }

  lemma TablesBounded(s: State)
    requires Valid(s)
    ensures |s.tables| <= Tables512(3)
  {
    forall q | q in s.tables.Keys
      ensures Indexed(q) && PathNumber(q) < Tables512(3)
    {
      TablesIndexed(s, q);
      PathNumberBound(q);
      TablesGrow(Depth(q));
    }
    PathsBounded(s.tables.Keys, Tables512(3));
  }

  /** Every frame taken becomes a table, so with enough free frames no call runs out of them. */
  lemma EnoughFrames(s: State, s': State)
    requires Cut(s, s') && |s.free| + |s.tables| > Tables512(3)
    ensures s'.free != {}
  {
    TablesBounded(s');
  }

  lemma {:induction false} Onto(paths: set<Prefix>, m: map<Prefix, nat>, frames: set<nat>, t: nat) returns (q: Prefix)
    requires paths <= m.Keys && |paths| == |frames| && t in frames
    requires forall q :: q in paths ==> m[q] in frames
    requires forall q, r :: q in paths && r in paths && m[q] == m[r] ==> q == r
    ensures q in paths && m[q] == t
  {
    assert paths != {} by {
      assert |frames| > 0;
    }
    q :| q in paths;
    if m[q] != t {
      q := Onto(paths - {q}, m, frames - {m[q]}, t);
    }
  }

  /** The frames a call takes are exactly the tables it adds. */
  lemma TakenFramesAreTables(s: State, s': State, t: nat)
    requires Extends(s, s') && t in New(s, s')
    ensures |New(s, s')| == |s'.tables| - |s.tables|
    ensures exists q :: q in s'.tables && q !in s.tables && s'.tables[q] == t
  {
    hide Valid, GatesKept;
    TakenCounts(s, s');
    TablesApart(s');
    var q := Onto(s'.tables.Keys - s.tables.Keys, s'.tables, New(s, s'), t);
  }

  lemma TakenCounts(s: State, s': State)
    requires TablesKept(s, s') && FramesAccounted(s, s')
    ensures |New(s, s')| == |s'.tables| - |s.tables| == |s'.tables.Keys - s.tables.Keys|
  {
    assert forall q :: q in s.tables.Keys ==> q in s'.tables.Keys;
    PartsCount(s.tables.Keys, s'.tables.Keys);
    PartsCount(s'.free, s.free);
    assert |s.tables| == |s.tables.Keys| && |s'.tables| == |s'.tables.Keys|;
  }

  lemma PartsCount<T>(part: set<T>, whole: set<T>)
    requires part <= whole
    ensures |whole - part| == |whole| - |part|
  {
    assert whole == part + (whole - part);
  }

  lemma TablesApart(s: State)
    requires Valid(s)
    ensures forall q, r :: q in s.tables && r in s.tables && s.tables[q] == s.tables[r] ==> q == r
  {
  }
}
