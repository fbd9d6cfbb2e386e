/** The kernel heap as a value: segments that tile the heap, each behind a 32-byte header, and what
    the operations of allocator.c do to them. */
module Segments {

  const HEADER := 32                    // sizeof(heap_seg_header_t)
  const PAGE := 0x1000
  const WORDS := 0x1_0000_0000_0000_0000  // size_t has 64 bits
  const HALF := 0x8000_0000_0000_0000

  /** A segment: the address of its header, the bytes behind the header, and whether it is free. */
  datatype Seg = Seg(addr: nat, length: nat, free: bool) {
    function End(): nat { addr + HEADER + length }
    function Base(): nat { addr + HEADER }
  }

  /** A 64-bit word read as an int64_t. */
  function Signed(word: nat): int {
    if word < HALF then word else word - WORDS
  }

  lemma SignedRemainder(a: int)
    requires -HALF <= a < HALF
    ensures Signed(a % WORDS) == a
  {
    if a < 0 {
      assert a % WORDS == a + WORDS;
    }
  }

  /** The segments lie end to end from `start` to `end`. */
  ghost predicate Chain(segs: seq<Seg>, start: nat, end: nat) {
    && |segs| > 0
    && segs[0].addr == start && segs[|segs| - 1].End() == end
    && forall j, k :: 0 <= j < |segs| && 0 <= k < |segs| && k == j + 1 ==> segs[k].addr == segs[j].End()
  }

  /** Every address and every length is a multiple of 16. */
  ghost predicate Aligned(segs: seq<Seg>) {
    forall k :: 0 <= k < |segs| ==> segs[k].length % 16 == 0 && segs[k].addr % 16 == 0
  }

  /** Every segment has at least 16 bytes. */
  ghost predicate Roomed(segs: seq<Seg>) {
    forall k :: 0 <= k < |segs| ==> segs[k].length >= 16
  }

  ghost predicate Shape(segs: seq<Seg>, start: nat, end: nat) {
    Chain(segs, start, end) && Aligned(segs) && Roomed(segs)
  }

  /** No two neighbours are both free. */
  ghost predicate Coalesced(segs: seq<Seg>) {
    forall j, k :: 0 <= j < |segs| && 0 <= k < |segs| && k == j + 1 ==> !segs[j].free || !segs[k].free
  }

  /** A block that malloc has given out and free has not taken back. */
  ghost predicate Live(segs: seq<Seg>, base: nat, length: nat) {
    exists k :: 0 <= k < |segs| && !segs[k].free && segs[k].Base() == base && segs[k].length == length
  }

  // ---------------------------------------------------------------------------------------------
  // Sizes.

  /** The size malloc asks for: rounded up to 16 in 64-bit arithmetic. */
  function Rounded(size: nat): (r: nat)
    requires size < WORDS
    ensures r % 16 == 0
    ensures size <= WORDS - 16 ==> size <= r < size + 16
    ensures size > WORDS - 16 ==> r == 0
  {
    if size % 16 > 0 then (size - size % 16 + 16) % WORDS else size
  }

  lemma RoundedTwice(size: nat)
    requires size < WORDS
    ensures Rounded(size) < WORDS && Rounded(Rounded(size)) == Rounded(size)
    ensures Rounded(size) > 0 ==> Rounded(size) >= 16
  {
  }

  function PageRounded(length: nat): (r: nat)
    ensures length <= r < length + PAGE && r % PAGE == 0
    ensures length > 0 ==> r >= PAGE
  {
    if length % PAGE != 0 then length - length % PAGE + PAGE else length
  }

  lemma PagesAligned(length: nat)
    requires length % PAGE == 0
    ensures length % 16 == 0
  {
    var pages := length / PAGE;
    assert length == 16 * (256 * pages);
    Times16(256 * pages);
  }

  lemma Times16(n: nat)
    ensures 16 * n % 16 == 0
  {
  }

  // ---------------------------------------------------------------------------------------------
  // The operations.

  /** header_split goes ahead: the rest holds a header and 16 bytes. */
  predicate Splits(s: Seg, size: nat) {
    size >= 16 && s.length - size - HEADER >= 16
  }

  function Cut(segs: seq<Seg>, k: nat, size: nat): seq<Seg>
    requires k < |segs| && Splits(segs[k], size)
  {
    var s := segs[k];
    segs[..k] + [s.(length := size), Seg(s.Base() + size, s.length - size - HEADER, s.free)] + segs[k + 1..]
  }

  /** Section `k` swallows the one after it, header and all. */
  function Join(segs: seq<Seg>, k: nat): seq<Seg>
    requires k + 1 < |segs|
  {
    var s, t := segs[k], segs[k + 1];
    segs[..k] + [s.(length := s.length + HEADER + t.length)] + segs[k + 2..]
  }

  function Mark(segs: seq<Seg>, k: nat, free: bool): seq<Seg>
    requires k < |segs|
  {
    segs[k := segs[k].(free := free)]
  }

  predicate Fits(s: Seg, size: nat) {
    s.free && s.length >= size
  }

  /** Segment `k` is the first that is free and large enough. */
  ghost predicate FirstFit(segs: seq<Seg>, k: nat, size: nat) {
    k < |segs| && Fits(segs[k], size) && forall j :: 0 <= j < k ==> !Fits(segs[j], size)
  }

  /** malloc takes segment `k`. */
  function Take(segs: seq<Seg>, k: nat, size: nat): seq<Seg>
    requires k < |segs|
  {
    Mark(if Splits(segs[k], size) then Cut(segs, k, size) else segs, k, false)
  }

  /** heap_expand by whole pages. */
  function Expand(segs: seq<Seg>, bytes: nat): seq<Seg>
    requires |segs| > 0 && bytes >= HEADER
  {
    var last := segs[|segs| - 1];
    if last.free then segs[|segs| - 1 := last.(length := last.length + bytes)]
    else segs + [Seg(last.End(), bytes - HEADER, true)]
  }

  /** free on segment `k`: it becomes free and joins a free neighbour on either side. */
  function Release(segs: seq<Seg>, k: nat): seq<Seg>
    requires k < |segs|
  {
    var s := Mark(segs, k, true);
    var t := if k + 1 < |s| && s[k + 1].free then Join(s, k) else s;
    if 0 < k && t[k - 1].free then Join(t, k - 1) else t
  }

  /** How often malloc has to expand the heap before it finds a segment. */
  ghost function Growth(segs: seq<Seg>, size: nat): nat
    requires |segs| > 0
  {
    if exists k :: 0 <= k < |segs| && Fits(segs[k], size) then 0
    else if segs[|segs| - 1].free || PageRounded(size) - HEADER >= size then 1
    else 2
  }

  // ---------------------------------------------------------------------------------------------
  // They keep the shape.

  lemma CutChain(segs: seq<Seg>, start: nat, end: nat, k: nat, size: nat)
    requires Chain(segs, start, end) && k < |segs| && Splits(segs[k], size)
    ensures Chain(Cut(segs, k, size), start, end)
  {
    hide Cut;
    CutParts(segs, k, size);
  }

  lemma CutParts(segs: seq<Seg>, k: nat, size: nat)
    requires k < |segs| && Splits(segs[k], size)
    ensures var s := Cut(segs, k, size);
      && |s| == |segs| + 1
      && s[k] == segs[k].(length := size)
      && s[k + 1] == Seg(segs[k].Base() + size, segs[k].length - size - HEADER, segs[k].free)
      && forall i :: 0 <= i < |s| && i != k && i != k + 1 ==> s[i] == segs[if i < k then i else i - 1]
  {
  }

  lemma CutAligned(segs: seq<Seg>, k: nat, size: nat)
    requires Aligned(segs) && k < |segs| && Splits(segs[k], size) && size % 16 == 0
    ensures Aligned(Cut(segs, k, size))
  {
    var s, t := Cut(segs, k, size), segs[k];
    assert (t.length - size - HEADER) % 16 == 0 && (t.Base() + size) % 16 == 0;
    assert forall i :: 0 <= i < |s| && i != k && i != k + 1 ==> s[i] == if i < k then segs[i] else segs[i - 1];
  }

  lemma CutRoomed(segs: seq<Seg>, k: nat, size: nat)
    requires Roomed(segs) && k < |segs| && Splits(segs[k], size)
    ensures Roomed(Cut(segs, k, size))
  {
    hide Cut;
    CutParts(segs, k, size);
  }

  lemma JoinRoomed(segs: seq<Seg>, k: nat)
    requires Roomed(segs) && k + 1 < |segs|
    ensures Roomed(Join(segs, k))
  {
    hide Join;
    JoinParts(segs, k);
  }

  lemma JoinChain(segs: seq<Seg>, start: nat, end: nat, k: nat)
    requires Chain(segs, start, end) && k + 1 < |segs|
    ensures Chain(Join(segs, k), start, end)
  {
    var s := Join(segs, k);
    assert segs[k + 1].addr == segs[k].End();
    assert forall i :: 0 <= i < |s| ==> s[i].addr == (if i <= k then segs[i] else segs[i + 1]).addr;
    assert forall i :: 0 <= i < |s| ==> s[i].End() == (if i < k then segs[i] else segs[i + 1]).End();
  }

  lemma JoinAligned(segs: seq<Seg>, k: nat)
    requires Aligned(segs) && k + 1 < |segs|
    ensures Aligned(Join(segs, k))
  {
    var s := Join(segs, k);
    assert (segs[k].length + HEADER + segs[k + 1].length) % 16 == 0;
    assert forall i :: 0 <= i < |s| && i != k ==> s[i] == if i < k then segs[i] else segs[i + 1];
  }

  lemma CutShape(segs: seq<Seg>, start: nat, end: nat, k: nat, size: nat)
    requires Shape(segs, start, end) && k < |segs| && Splits(segs[k], size) && size % 16 == 0
    ensures Shape(Cut(segs, k, size), start, end)
  {
    hide Chain, Aligned, Roomed;
    CutChain(segs, start, end, k, size);
    CutAligned(segs, k, size);
    CutRoomed(segs, k, size);
  }

  lemma JoinShape(segs: seq<Seg>, start: nat, end: nat, k: nat)
    requires Shape(segs, start, end) && k + 1 < |segs|
    ensures Shape(Join(segs, k), start, end)
  {
    hide Chain, Aligned, Roomed;
    JoinChain(segs, start, end, k);
    JoinAligned(segs, k);
    JoinRoomed(segs, k);
  }

  lemma MarkShape(segs: seq<Seg>, start: nat, end: nat, k: nat, free: bool)
    requires Shape(segs, start, end) && k < |segs|
    ensures Shape(Mark(segs, k, free), start, end)
  {
  }

  lemma TakeShape(segs: seq<Seg>, start: nat, end: nat, k: nat, size: nat)
    requires Shape(segs, start, end) && k < |segs| && size % 16 == 0
    ensures Shape(Take(segs, k, size), start, end)
  {
    if Splits(segs[k], size) {
      CutShape(segs, start, end, k, size);
      MarkShape(Cut(segs, k, size), start, end, k, false);
    } else {
      MarkShape(segs, start, end, k, false);
    }
  }

  lemma ReleaseShape(segs: seq<Seg>, start: nat, end: nat, k: nat)
    requires Shape(segs, start, end) && k < |segs|
    ensures Shape(Release(segs, k), start, end)
  {
    var s := Mark(segs, k, true);
    MarkShape(segs, start, end, k, true);
    if k + 1 < |s| && s[k + 1].free {
      JoinShape(s, start, end, k);
    }
    var t := if k + 1 < |s| && s[k + 1].free then Join(s, k) else s;
    if 0 < k && t[k - 1].free {
      JoinShape(t, start, end, k - 1);
    }
  }

  // ---------------------------------------------------------------------------------------------
  // They keep free neighbours joined.

  lemma TakeCoalesced(segs: seq<Seg>, k: nat, size: nat)
    requires Coalesced(segs) && k < |segs| && segs[k].free
    ensures Coalesced(Take(segs, k, size))
  {
    var s := Take(segs, k, size);
    if Splits(segs[k], size) {
      assert forall i :: 0 <= i < |s| && i != k && i != k + 1 ==> s[i] == if i < k then segs[i] else segs[i - 1];
    }
  }

  lemma ExpandCoalesced(segs: seq<Seg>, bytes: nat)
    requires Coalesced(segs) && |segs| > 0 && bytes >= HEADER
    ensures Coalesced(Expand(segs, bytes))
  {
  }

  lemma ReleaseCoalesced(segs: seq<Seg>, k: nat)
    requires Coalesced(segs) && k < |segs|
    ensures Coalesced(Release(segs, k))
  {
    hide Join;
    var s := Mark(segs, k, true);
    var t := if k + 1 < |s| && s[k + 1].free then Join(s, k) else s;
    if k == 0 {
      if k + 1 < |s| && s[k + 1].free {
        JoinCoalesced(s, k, k);
        JoinParts(s, k);
      }
    } else {
      if k + 1 < |s| && s[k + 1].free {
        JoinCoalesced(s, k, k - 1);
        JoinParts(s, k);
      }
      if t[k - 1].free {
        JoinParts(t, k - 1);
        JoinCoalesced(t, k - 1, k - 1);
      }
    }
  }

  /** No two free neighbours, except that section `k` may have one after it. */
  ghost predicate CoalescedBut(segs: seq<Seg>, k: nat) {
    forall j, i :: 0 <= j < |segs| && 0 <= i < |segs| && i == j + 1 && j != k ==> !segs[j].free || !segs[i].free
  }

  lemma JoinCoalesced(segs: seq<Seg>, k: nat, but: nat)
    requires k + 1 < |segs| && segs[k].free && segs[k + 1].free
    requires but == k || but + 1 == k
    requires forall j, i :: 0 <= j < |segs| && 0 <= i < |segs| && i == j + 1 && j != k && j != but ==>
      !segs[j].free || !segs[i].free
    ensures CoalescedBut(Join(segs, k), if but == k then |segs| else but)
  {
    hide Join;
    JoinParts(segs, k);
  }

  lemma JoinParts(segs: seq<Seg>, k: nat)
    requires k + 1 < |segs|
    ensures var s := Join(segs, k);
      && |s| == |segs| - 1
      && s[k] == segs[k].(length := segs[k].length + HEADER + segs[k + 1].length)
      && forall i :: 0 <= i < |s| && i != k ==> s[i] == segs[if i < k then i else i + 1]
  {
  }

  // ---------------------------------------------------------------------------------------------
  // What they do to the blocks in use.

  lemma {:induction false} Ordered(segs: seq<Seg>, start: nat, end: nat, j: nat, k: nat)
    requires Chain(segs, start, end) && j < k < |segs|
    ensures segs[j].End() <= segs[k].addr
    decreases k
  {
    if j + 1 < k {
      Ordered(segs, start, end, j, k - 1);
      assert segs[k].addr == segs[k - 1].End();
    }
  }

  lemma {:induction false} InHeap(segs: seq<Seg>, start: nat, end: nat, k: nat)
    requires Chain(segs, start, end) && k < |segs|
    ensures start <= segs[k].addr && segs[k].End() <= end
  {
    if 0 < k {
      Ordered(segs, start, end, 0, k);
    }
    if k < |segs| - 1 {
      Ordered(segs, start, end, k, |segs| - 1);
    }
  }

  lemma BaseAligned(segs: seq<Seg>, k: nat)
    requires Aligned(segs) && k < |segs|
    ensures segs[k].Base() % 16 == 0
  {
  }

  /** Two blocks in use share no byte, and neither reaches into the other's header or out of the
      heap. */
  lemma LiveDisjoint(segs: seq<Seg>, start: nat, end: nat, b: nat, m: nat, c: nat, n: nat)
    requires Shape(segs, start, end) && Live(segs, b, m) && Live(segs, c, n)
    ensures start + HEADER <= b && b + m <= end && b % 16 == 0
    ensures b == c ==> m == n
    ensures b < c ==> b + m + HEADER <= c
  {
    var i :| 0 <= i < |segs| && !segs[i].free && segs[i].Base() == b && segs[i].length == m;
    var j :| 0 <= j < |segs| && !segs[j].free && segs[j].Base() == c && segs[j].length == n;
    InHeap(segs, start, end, i);
    BaseAligned(segs, i);
    hide Aligned;
    if i < j {
      Ordered(segs, start, end, i, j);
    } else if j < i {
      Ordered(segs, start, end, j, i);
    }
  }

  /** malloc adds one block, at least as long as asked and at most 47 bytes longer, and leaves the
      extent of every other block. */
  lemma TakeLive(segs: seq<Seg>, k: nat, size: nat, b: nat, n: nat)
    requires FirstFit(segs, k, size) && size >= 16
    ensures var t := Take(segs, k, size);
      && size <= t[k].length < size + 48
      && t[k].addr == segs[k].addr
      && (Live(t, b, n) <==> Live(segs, b, n) || (b == segs[k].Base() && n == t[k].length))
  {
    hide Cut;
    var t, splits := Take(segs, k, size), Splits(segs[k], size);
    if splits {
      CutParts(segs, k, size);
    }
    if Live(segs, b, n) {
      var i :| 0 <= i < |segs| && !segs[i].free && segs[i].Base() == b && segs[i].length == n;
      assert t[if splits && i > k then i + 1 else i] == segs[i];
    }
    if Live(t, b, n) {
      var i :| 0 <= i < |t| && !t[i].free && t[i].Base() == b && t[i].length == n;
      assert i != k ==> t[i] == segs[if splits && i > k then i - 1 else i];
    }
    assert !t[k].free && t[k].Base() == segs[k].Base();
  }

  /** The block is as long as asked when the segment has 48 bytes more, and else the whole segment, which
      is not split then. */
  lemma TakeLength(segs: seq<Seg>, k: nat, size: nat)
    requires FirstFit(segs, k, size) && size >= 16
    ensures var t, length := Take(segs, k, size), segs[k].length;
      if length >= size + 48 then
        && |t| == |segs| + 1 && t[k].length == size
        && t[k + 1].free == segs[k].free && t[k + 1].length == length - size - 32
      else |t| == |segs| && t[k].length == length
  {
    hide Cut;
    if Splits(segs[k], size) {
      CutParts(segs, k, size);
    }
  }

  /** Growing the heap changes no block. */
  lemma ExpandLive(segs: seq<Seg>, bytes: nat, b: nat, n: nat)
    requires |segs| > 0 && bytes >= HEADER
    ensures Live(Expand(segs, bytes), b, n) <==> Live(segs, b, n)
  {
    var t := Expand(segs, bytes);
    assert forall i :: 0 <= i < |segs| && !segs[i].free ==> t[i] == segs[i];
    assert forall i :: 0 <= i < |t| && !t[i].free ==> i < |segs| && t[i] == segs[i];
  }

  lemma JoinLive(segs: seq<Seg>, k: nat, b: nat, n: nat)
    requires k + 1 < |segs| && segs[k].free && segs[k + 1].free
    ensures Live(Join(segs, k), b, n) <==> Live(segs, b, n)
  {
    var t := Join(segs, k);
    if Live(segs, b, n) {
      var i :| 0 <= i < |segs| && !segs[i].free && segs[i].Base() == b && segs[i].length == n;
      assert t[if i < k then i else i - 1] == segs[i];
    }
    if Live(t, b, n) {
      var i :| 0 <= i < |t| && !t[i].free && t[i].Base() == b && t[i].length == n;
      assert t[i] == segs[if i < k then i else i + 1];
    }
  }

  /** free takes back exactly the block it is given. */
  lemma ReleaseLive(segs: seq<Seg>, start: nat, end: nat, k: nat, b: nat, n: nat)
    requires Shape(segs, start, end) && k < |segs| && !segs[k].free
    ensures Live(Release(segs, k), b, n) <==> Live(segs, b, n) && b != segs[k].Base()
  {
    var s := Mark(segs, k, true);
    assert Live(s, b, n) <==> Live(segs, b, n) && b != segs[k].Base() by {
      forall i | 0 <= i < |segs| && i != k
        ensures segs[i].addr != segs[k].addr && s[i] == segs[i]
      {
        if i < k {
          Ordered(segs, start, end, i, k);
        } else {
          Ordered(segs, start, end, k, i);
        }
      }
    }
    var t := if k + 1 < |s| && s[k + 1].free then Join(s, k) else s;
    if k + 1 < |s| && s[k + 1].free {
      JoinLive(s, k, b, n);
    }
    if 0 < k && t[k - 1].free {
      JoinLive(t, k - 1, b, n);
    }
  }

  /** Each expansion brings malloc one step nearer to a segment that fits, so two are enough: the
      first may fall a header short, and then the second joins it. */
  lemma ExpandGrowth(segs: seq<Seg>, size: nat)
    requires |segs| > 0 && size > 0 && Growth(segs, size) > 0
    ensures Growth(segs, size) <= 2
    ensures Growth(Expand(segs, PageRounded(size)), size) == Growth(segs, size) - 1
  {
    var p, t := PageRounded(size), Expand(segs, PageRounded(size));
    var last := t[|t| - 1];
    assert forall i :: 0 <= i < |segs| - 1 ==> t[i] == segs[i];
    if segs[|segs| - 1].free {
      assert Fits(last, size);
    } else if p - HEADER >= size {
      assert Fits(last, size);
    } else {
      assert !Fits(last, size);
      assert forall i :: 0 <= i < |segs| ==> t[i] == segs[i];
    }
  }

  // ---------------------------------------------------------------------------------------------
  // malloc and free as a whole.

  /** The segments after `n` expansions for a request of `size` bytes. */
  ghost function Grown(segs: seq<Seg>, size: nat, n: nat): seq<Seg>
    requires |segs| > 0 && size > 0
    ensures |Grown(segs, size, n)| > 0
    decreases n
  {
    if n == 0 then segs else Grown(Expand(segs, PageRounded(size)), size, n - 1)
  }

  /** malloc has answered a request of `size` bytes, already rounded, with `address`. */
  ghost predicate Allocated(before: seq<Seg>, size: nat, after: seq<Seg>, address: nat)
    requires |before| > 0 && size > 0
  {
    var grown := Grown(before, size, Growth(before, size));
    exists k: nat :: TakenAt(grown, k, size, after, address)
  }

  ghost predicate TakenAt(segs: seq<Seg>, k: nat, size: nat, after: seq<Seg>, address: nat) {
    FirstFit(segs, k, size) && after == Take(segs, k, size) && address == segs[k].Base()
  }

  lemma AllocatedAtOnce(segs: seq<Seg>, size: nat, k: nat)
    requires size > 0 && FirstFit(segs, k, size)
    ensures Growth(segs, size) == 0 && Allocated(segs, size, Take(segs, k, size), segs[k].Base())
  {
    assert Fits(segs[k], size);
    assert Grown(segs, size, Growth(segs, size)) == segs;
    assert TakenAt(segs, k, size, Take(segs, k, size), segs[k].Base());
  }

  lemma AllocatedAfterExpand(before: seq<Seg>, size: nat, after: seq<Seg>, address: nat)
    requires |before| > 0 && size > 0 && Growth(before, size) > 0
    requires Allocated(Expand(before, PageRounded(size)), size, after, address)
    ensures Allocated(before, size, after, address)
  {
    ExpandGrowth(before, size);
    var g, expanded := Growth(before, size), Expand(before, PageRounded(size));
    assert Grown(before, size, g) == Grown(expanded, size, g - 1);
  }

  lemma {:induction false} GrownLive(segs: seq<Seg>, size: nat, n: nat, b: nat, m: nat)
    requires |segs| > 0 && size > 0
    ensures Live(Grown(segs, size, n), b, m) <==> Live(segs, b, m)
    decreases n
  {
    if n > 0 {
      ExpandLive(segs, PageRounded(size), b, m);
      GrownLive(Expand(segs, PageRounded(size)), size, n - 1, b, m);
    }
  }

  /** The first segment that fits gives a block of `n` bytes: what is asked when the segment has room for
      another header and 16 bytes, and else all of it. */
  ghost predicate BlockOf(segs: seq<Seg>, k: nat, size: nat, address: nat, n: nat) {
    && FirstFit(segs, k, size) && address == segs[k].addr + 32
    && n == if segs[k].length >= size + 48 then size else segs[k].length
  }

  /** The block that malloc returns: at least `size` bytes and at most 47 more, new, and the only
      change to the blocks in use. */
  lemma AllocatedBlock(before: seq<Seg>, size: nat, after: seq<Seg>, address: nat) returns (n: nat)
    requires |before| > 0 && size >= 16 && Allocated(before, size, after, address)
    ensures size <= n < size + 48 && Live(after, address, n)
    ensures exists k: nat :: BlockOf(Grown(before, size, Growth(before, size)), k, size, address, n)
    ensures forall b, m :: Live(after, b, m) <==> Live(before, b, m) || (b == address && m == n)
  {
    var grown := Grown(before, size, Growth(before, size));
    var k: nat :| TakenAt(grown, k, size, after, address);
    TakeLive(grown, k, size, address, 0);
    TakeLength(grown, k, size);
    n := after[k].length;
    assert BlockOf(grown, k, size, address, n);
    TakeLive(grown, k, size, address, n);
    forall b, m
      ensures Live(after, b, m) <==> Live(before, b, m) || (b == address && m == n)
    {
      TakeLive(grown, k, size, b, m);
      GrownLive(before, size, Growth(before, size), b, m);
    }
  }
}
