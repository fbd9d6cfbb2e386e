/** The page of key codes shared between the keyboard interrupt (kb_man.c) and the drain loop of
    kbd_update (kbd.c), as a state machine over the steps of the two.

    The interrupt runs to completion between any two steps of the loop.  A slot of the page carries,
    next to the key code, the number of the keystroke it came from; the code never looks at it. */
module KeyBuffers {

  type byte = x: nat | x < 256

  const CAPACITY := 4094                // PAGING_PAGE_SIZE - sizeof(uint16_t)

  datatype Slot = Cleared | Key(code: byte, number: nat)

  /** Where the drain loop stands: outside, delivering key `i` of `n`, having cleared `j` of the
      `n + 1` bytes it clears, or about to reset the size. */
  datatype Drain =
    | Idle
    | Delivering(n: nat, i: nat)
    | Clearing(n: nat, j: nat)
    | Resetting

  /** The modifier flags of kbd.c. */
  datatype Modifiers = Modifiers(shift: bool, caps: bool, nums: bool)

  /** A key registered by an interrupt, and whether the code lets go of it: the buffer was full, or the
      drain loop had already read the size. */
  datatype Stroke = Stroke(code: byte, lost: bool)

  datatype State = State(
    slots: seq<Slot>,                   // the key bytes of the page
    size: nat,                          // the 16-bit size at its end
    drain: Drain,
    delivered: seq<Slot>,               // the keys handed to the listeners so far
    modifiers: Modifiers,
    strokes: seq<Stroke>)               // the keys registered so far

  const NO_MODIFIERS := Modifiers(false, false, false)

  function Blank(n: nat): seq<Slot> {
    seq(n, _ => Cleared)
  }

  function Start(): State {
    State(Blank(CAPACITY), 0, Idle, [], NO_MODIFIERS, [])
  }

  // ---------------------------------------------------------------------------------------------
  // The steps.

  /** __kb_man_save_key, with the buffer taken. */
  function Interrupt(s: State, code: byte): State
    requires |s.slots| == CAPACITY
  {
    var number := |s.strokes|;
    if s.size >= CAPACITY then
      s.(strokes := s.strokes + [Stroke(code, true)])
    else
      s.(slots := s.slots[s.size := Key(code, number)],
         size := s.size + 1,
         strokes := s.strokes + [Stroke(code, !s.drain.Idle?)])
  }

  const LEFT_SHIFT: byte := 0x45
  const RIGHT_SHIFT: byte := 0x46
  const CAPSLOCK: byte := 0x4B
  const NUMLOCK: byte := 0x4D

  /** The modifier switch of kbd_update. */
  function Modified(m: Modifiers, code: byte): Modifiers {
    if code == CAPSLOCK then m.(caps := !m.caps)
    else if code == NUMLOCK then m.(nums := !m.nums)
    else if code == LEFT_SHIFT || code == RIGHT_SHIFT then m.(shift := true)
    else if code == LEFT_SHIFT + 0x80 || code == RIGHT_SHIFT + 0x80 then m.(shift := false)
    else m
  }

  function CodeOf(k: Slot): byte {
    if k.Key? then k.code else 0
  }

  /** One step of kbd_update.  The memset that follows the loop clears one byte more than there were
      keys; on a full page that byte is the low half of the size. */
  function Step(s: State): State
    requires |s.slots| == CAPACITY
    requires s.drain.Delivering? && s.drain.i < s.drain.n ==> s.drain.i < CAPACITY
  {
    match s.drain
    case Idle =>
      if s.size == 0 then s else s.(drain := Delivering(s.size, 0))
    case Delivering(n, i) =>
      if i < n then
        s.(delivered := s.delivered + [s.slots[i]],
           modifiers := Modified(s.modifiers, CodeOf(s.slots[i])),
           drain := Delivering(n, i + 1))
      else
        s.(drain := Clearing(n, 0))
    case Clearing(n, j) =>
      if j <= n then
        var t := if j < CAPACITY then s.(slots := s.slots[j := Cleared]) else s.(size := s.size - s.size % 256);
        t.(drain := Clearing(n, j + 1))
      else
        s.(drain := Resetting)
    case Resetting =>
      s.(size := 0, drain := Idle)
  }

  datatype Event = Stroked(code: byte) | Drained

  function Next(s: State, e: Event): State
    requires Inv(s)
  {
    match e
    case Stroked(code) => Interrupt(s, code)
    case Drained => Step(s)
  }

  // ---------------------------------------------------------------------------------------------
  // The invariant.

  /** The registered keys that the code does not let go of, in order. */
  function Kept(strokes: seq<Stroke>): seq<Slot> {
    if strokes == [] then []
    else
      var n := |strokes| - 1;
      Kept(strokes[..n]) + (if strokes[n].lost then [] else [Key(strokes[n].code, n)])
  }

  /** The modifiers after a sequence of key codes. */
  function Fold(m: Modifiers, codes: seq<byte>): Modifiers {
    if codes == [] then m else Modified(Fold(m, codes[..|codes| - 1]), codes[|codes| - 1])
  }

  function Codes(keys: seq<Slot>): seq<byte> {
    seq(|keys|, i requires 0 <= i < |keys| => CodeOf(keys[i]))
  }

  /** The keys still to be delivered by the drain that is under way, or by the next one. */
  function Waiting(s: State): seq<Slot>
    requires |s.slots| == CAPACITY && s.size <= CAPACITY
    requires s.drain.Delivering? ==> s.drain.i <= s.drain.n <= CAPACITY
  {
    match s.drain
    case Idle => s.slots[..s.size]
    case Delivering(n, i) => s.slots[i..n]
    case _ => []
  }

  /** The keys delivered and the keys waiting are, together and in order, the registered keys that
      have not been lost; and the modifiers are the fold over the keys delivered. */
  predicate Inv(s: State) {
    && |s.slots| == CAPACITY && s.size <= CAPACITY
    && (s.drain.Delivering? ==> s.drain.i <= s.drain.n <= s.size)
    && (s.drain.Clearing? ==> s.drain.n <= CAPACITY)
    && s.delivered + Waiting(s) == Kept(s.strokes)
    && s.modifiers == Fold(NO_MODIFIERS, Codes(s.delivered))
  }

  lemma KeptAppend(strokes: seq<Stroke>, k: Stroke)
    ensures Kept(strokes + [k]) == Kept(strokes) + (if k.lost then [] else [Key(k.code, |strokes|)])
  {
    assert (strokes + [k])[..|strokes|] == strokes;
  }

  lemma FoldAppend(m: Modifiers, codes: seq<byte>, c: byte)
    ensures Fold(m, codes + [c]) == Modified(Fold(m, codes), c)
  {
    assert (codes + [c])[..|codes|] == codes;
  }

  /** Some code of `on` occurs, and no code of `off` after it. */
  predicate OnSince(codes: seq<byte>, on: set<byte>, off: set<byte>) {
    exists i :: 0 <= i < |codes| && codes[i] in on && forall j :: i < j < |codes| ==> codes[j] !in off
  }

  /** How often a code occurs. */
  function Times(codes: seq<byte>, code: byte): nat {
    multiset(codes)[code]
  }

  lemma OnSincePush(codes: seq<byte>, c: byte, on: set<byte>, off: set<byte>)
    requires on !! off
    ensures OnSince(codes + [c], on, off) <==> c in on || (c !in off && OnSince(codes, on, off))
  {
    var more, n := codes + [c], |codes|;
    assert more[n] == c;
    if c !in on && c !in off && OnSince(codes, on, off) {
      var i :| 0 <= i < n && codes[i] in on && forall j :: i < j < n ==> codes[j] !in off;
      assert more[i] in on && forall j :: i < j < |more| ==> more[j] !in off;
    }
    if c !in on && OnSince(more, on, off) {
      var i :| 0 <= i < |more| && more[i] in on && forall j :: i < j < |more| ==> more[j] !in off;
      assert i < n && codes[i] in on && forall j :: i < j < n ==> codes[j] == more[j];
    }
  }

  lemma TimesPush(codes: seq<byte>, c: byte, code: byte)
    ensures Times(codes + [c], code) == Times(codes, code) + (if c == code then 1 else 0)
  {
  }

  /** The modifiers by the codes of kbd.h: shift is on when a shift key (0x45, 0x46) has come and none has
      been let go of since (0xC5, 0xC6); caps lock (0x4B) and num lock (0x4D) are on after an odd number
      of presses. */
  predicate Reflects(m: Modifiers, codes: seq<byte>) {
    && (m.shift <==> OnSince(codes, {0x45, 0x46}, {0xC5, 0xC6}))
    && (m.caps <==> Times(codes, 0x4B) % 2 == 1)
    && (m.nums <==> Times(codes, 0x4D) % 2 == 1)
  }

  lemma ModifiedReflects(m: Modifiers, codes: seq<byte>, c: byte)
    requires Reflects(m, codes)
    ensures Reflects(Modified(m, c), codes + [c])
  {
    hide OnSince, Times;
    OnSincePush(codes, c, {0x45, 0x46}, {0xC5, 0xC6});
    TimesPush(codes, c, 0x4B);
    TimesPush(codes, c, 0x4D);
  }

  lemma {:induction false} FoldReflects(codes: seq<byte>)
    ensures Reflects(Fold(Modifiers(false, false, false), codes), codes)
  {
    hide OnSince, Times, Modified;
    if codes == [] {
      NoneReflected();
    } else {
      var n := |codes| - 1;
      FoldReflects(codes[..n]);
      ModifiedReflects(Fold(Modifiers(false, false, false), codes[..n]), codes[..n], codes[n]);
      assert codes == codes[..n] + [codes[n]];
    }
  }

  lemma NoneReflected()
    ensures Reflects(Modifiers(false, false, false), [])
  {
  }

  lemma CodesAppend(keys: seq<Slot>, k: Slot)
    ensures Codes(keys + [k]) == Codes(keys) + [CodeOf(k)]
  {
  }

  lemma InterruptKeepsInv(s: State, code: byte)
    requires Inv(s)
    ensures Inv(Interrupt(s, code))
  {
    hide Kept, Fold;
    var t := Interrupt(s, code);
    var k := t.strokes[|s.strokes|];
    KeptAppend(s.strokes, k);
    assert t.strokes == s.strokes + [k];
    if s.drain.Idle? && s.size < CAPACITY {
      assert t.slots[..t.size] == s.slots[..s.size] + [Key(code, |s.strokes|)];
      assert s.delivered + t.slots[..t.size] == s.delivered + s.slots[..s.size] + [Key(code, |s.strokes|)];
    } else {
      assert Waiting(t) == Waiting(s);
    }
  }

  lemma DeliverKeepsInv(s: State, n: nat, i: nat)
    requires Inv(s) && s.drain == Delivering(n, i) && i < n
    ensures Inv(Step(s))
  {
    hide Kept, Modified, Fold;
    CodesAppend(s.delivered, s.slots[i]);
    FoldAppend(NO_MODIFIERS, Codes(s.delivered), CodeOf(s.slots[i]));
    assert s.slots[i..n] == [s.slots[i]] + s.slots[i + 1..n];
    assert s.delivered + s.slots[i..n] == s.delivered + [s.slots[i]] + s.slots[i + 1..n];
  }

  lemma StepKeepsInv(s: State)
    requires Inv(s)
    ensures Inv(Step(s))
  {
    hide Kept, Modified, Fold, Codes;
    match s.drain
    case Idle =>
      assert Waiting(Step(s)) == Waiting(s);
    case Delivering(n, i) =>
      if i < n {
        DeliverKeepsInv(s, n, i);
      } else {
        assert s.slots[i..n] == [];
      }
    case Clearing(n, j) =>
    case Resetting =>
      assert Step(s).slots[..0] == [];
  }

  // ---------------------------------------------------------------------------------------------
  // Runs: any interleaving of keystrokes and steps of the drain loop.

  function After(events: seq<Event>): (s: State)
    ensures Inv(s)
  {
    if events == [] then
      StartInv();
      Start()
    else
      var n := |events| - 1;
      NextInv(After(events[..n]), events[n]);
      Next(After(events[..n]), events[n])
  }

  lemma StartInv()
    ensures Inv(Start())
  {
    assert Start().slots[..0] == [] && Codes([]) == [];
  }

  lemma NextInv(s: State, e: Event)
    requires Inv(s)
    ensures Inv(Next(s, e))
  {
    hide Inv, Interrupt, Step;
    match e
    case Stroked(code) => InterruptKeepsInv(s, code);
    case Drained => StepKeepsInv(s);
  }

  lemma AfterPush(events: seq<Event>, e: Event)
    ensures After(events + [e]) == Next(After(events), e)
  {
    assert (events + [e])[..|events|] == events;
  }

  /** The keys delivered, as keystroke numbers, only rise: none is delivered twice or out of order;
      and each is delivered with the code it was registered with. */
  predicate Faithful(keys: seq<Slot>, strokes: seq<Stroke>) {
    && (forall i :: 0 <= i < |keys| ==>
      && keys[i].Key? && keys[i].number < |strokes|
      && keys[i].code == strokes[keys[i].number].code && !strokes[keys[i].number].lost)
    && forall i, j :: 0 <= i < j < |keys| && keys[i].Key? && keys[j].Key? ==> keys[i].number < keys[j].number
  }

  lemma {:induction false} KeptFaithful(strokes: seq<Stroke>)
    ensures Faithful(Kept(strokes), strokes)
  {
    if strokes != [] {
      var n := |strokes| - 1;
      KeptFaithful(strokes[..n]);
      var before, after := Kept(strokes[..n]), Kept(strokes);
      assert forall i :: 0 <= i < |before| ==> after[i] == before[i];
    }
  }

  lemma {:induction false} KeptComplete(strokes: seq<Stroke>, n: nat)
    requires n < |strokes| && !strokes[n].lost
    ensures Key(strokes[n].code, n) in Kept(strokes)
  {
    var m := |strokes| - 1;
    if n < m {
      KeptComplete(strokes[..m], n);
    }
  }

  /** Under every interleaving the keys delivered are registered keys, in order and without
      repetition. */
  lemma DeliveredFaithful(events: seq<Event>)
    ensures Faithful(After(events).delivered, After(events).strokes)
  {
    var s := After(events);
    KeptFaithful(s.strokes);
    var kept := Kept(s.strokes);
    assert forall i :: 0 <= i < |s.delivered| ==> kept[i] == s.delivered[i];
  }

  /** A key is delivered in the end exactly when its interrupt found room and came while the drain
      loop was outside the stretch from reading the size to resetting it. */
  lemma DeliveredExactly(events: seq<Event>, n: nat)
    requires After(events).drain.Idle? && After(events).size == 0 && n < |After(events).strokes|
    ensures Key(After(events).strokes[n].code, n) in After(events).delivered <==> !After(events).strokes[n].lost
  {
    hide After;
    var s := After(events);
    assert s.delivered + s.slots[..0] == s.delivered;
    KeptFaithful(s.strokes);
    if !s.strokes[n].lost {
      KeptComplete(s.strokes, n);
    }
  }

  /** Over any run the modifiers reflect the keys delivered. */
  lemma RunReflects(events: seq<Event>)
    ensures Reflects(After(events).modifiers, Codes(After(events).delivered))
  {
    hide After, Reflects, Fold;
    FoldReflects(Codes(After(events).delivered));
  }

  lemma StepKeepsStrokes(s: State, e: Event)
    requires Inv(s)
    ensures s.strokes <= Next(s, e).strokes
  {
  }

  lemma {:induction false} StrokesGrow(events: seq<Event>, i: nat)
    requires i <= |events|
    ensures After(events[..i]).strokes <= After(events).strokes
    decreases |events|
  {
    hide After, Next;
    if i < |events| {
      var n := |events| - 1;
      StrokesGrow(events[..n], i);
      assert events[..n][..i] == events[..i] && events == events[..n] + [events[n]];
      AfterPush(events[..n], events[n]);
      StepKeepsStrokes(After(events[..n]), events[n]);
    } else {
      assert events[..i] == events;
    }
  }

  /** The same by the moment of the keystroke: the `i`-th event of a run brings a key, and it is delivered
      by the time the page is idle and empty exactly when the drain loop was outside then, and fewer than
      4094 keys were waiting. */
  lemma DeliveredByMoment(events: seq<Event>, i: nat)
    requires i < |events| && events[i].Stroked?
    requires After(events).drain.Idle? && After(events).size == 0
    ensures var s := After(events[..i]);
      Key(events[i].code, |s.strokes|) in After(events).delivered <==> s.drain.Idle? && s.size < 4094
  {
    hide After, Inv;
    var s := After(events[..i]);
    AfterPush(events[..i], events[i]);
    assert events[..i + 1] == events[..i] + [events[i]];
    StrokesGrow(events, i + 1);
    DeliveredExactly(events, |s.strokes|);
  }

  /** A key comes while the one before it is being delivered, and is never delivered itself. */
  const RACE: seq<Event> := [Stroked(1), Drained, Stroked(2), Drained, Drained, Drained, Drained, Drained, Drained]

  lemma RaceStates()
    ensures var s := Interrupt(Step(Interrupt(Start(), 1)), 2);
      && s.drain == Delivering(1, 0) && s.size == 2 && |s.slots| == CAPACITY
      && s.slots[0] == Key(1, 0) && s.delivered == []
      && s.strokes == [Stroke(1, false), Stroke(2, true)]
  {
  }

  lemma RaceSteps(s: State)
    requires s.drain == Delivering(1, 0) && |s.slots| == CAPACITY && s.slots[0] == Key(1, 0) && s.delivered == []
    ensures |Step(s).slots| == |Step(Step(s)).slots| == |Step(Step(Step(s))).slots| == CAPACITY
    ensures var t := Step(Step(Step(s)));
      t.drain == Clearing(1, 1) && t.delivered == [Key(1, 0)] && t.strokes == s.strokes
  {
  }

  lemma RaceEnds(s: State)
    requires s.drain == Clearing(1, 1) && |s.slots| == CAPACITY
    ensures |Step(s).slots| == |Step(Step(s)).slots| == CAPACITY
    ensures var t := Step(Step(Step(s)));
      t.drain == Idle && t.size == 0 && t.delivered == s.delivered && t.strokes == s.strokes
  {
  }

  lemma KeyIsLost()
    ensures var s := After(RACE);
      && s.drain.Idle? && s.size == 0
      && s.strokes == [Stroke(1, false), Stroke(2, true)]
      && s.delivered == [Key(1, 0)]
  {
    hide After, Interrupt, Step, Inv;
    RaceStates();
    AfterNone();
    var keys: seq<Event>, three: seq<Event> := [Stroked(1), Drained, Stroked(2)], [Drained, Drained, Drained];
    assert [] + keys == keys && RACE == keys + three + three;
    var a := AfterAll([], keys);
    RaceSteps(a);
    var b := AfterAll(keys, three);
    RaceEnds(b);
    var c := AfterAll(keys + three, three);
  }

  lemma AfterNone()
    ensures After([]) == Start()
  {
  }

  /** Three events on from a run. */
  lemma AfterAll(events: seq<Event>, more: seq<Event>) returns (s: State)
    requires |more| == 3
    ensures s == After(events + more)
    ensures Inv(After(events)) && Inv(Next(After(events), more[0])) && Inv(Next(Next(After(events), more[0]), more[1]))
    ensures s == Next(Next(Next(After(events), more[0]), more[1]), more[2])
  {
    hide After, Interrupt, Step, Inv;
    s := After(events + more);
    var one, two := events + [more[0]], events + [more[0]] + [more[1]];
    AfterPush(events, more[0]);
    AfterPush(one, more[1]);
    AfterPush(two, more[2]);
    assert events + more == two + [more[2]];
  }

  lemma {:induction false} KeptAll(strokes: seq<Stroke>)
    requires forall n :: 0 <= n < |strokes| ==> !strokes[n].lost
    ensures |Kept(strokes)| == |strokes|
    ensures forall n :: 0 <= n < |strokes| ==> Kept(strokes)[n] == Key(strokes[n].code, n)
  {
    if strokes != [] {
      var n := |strokes| - 1;
      assert forall m :: 0 <= m < n ==> !strokes[..n][m].lost;
      KeptAll(strokes[..n]);
    }
  }

  /** With no key lost, a finished drain has delivered exactly what was registered. */
  lemma NothingLost(events: seq<Event>)
    requires After(events).drain.Idle? && After(events).size == 0
    requires forall n :: 0 <= n < |After(events).strokes| ==> !After(events).strokes[n].lost
    ensures var s := After(events);
      && |s.delivered| == |s.strokes|
      && (forall n :: 0 <= n < |s.strokes| ==> s.delivered[n] == Key(s.strokes[n].code, n))
      && s.modifiers == Fold(NO_MODIFIERS, Codes(s.delivered))
  {
    var s := After(events);
    KeptAll(s.strokes);
    assert s.delivered + s.slots[..0] == s.delivered;
  }

  lemma CodesConcat(a: seq<Slot>, b: seq<Slot>)
    ensures Codes(a + b) == Codes(a) + Codes(b)
  {
  }

  lemma {:induction false} FoldConcat(m: Modifiers, a: seq<byte>, b: seq<byte>)
    ensures Fold(m, a + b) == Fold(Fold(m, a), b)
    decreases |b|
  {
    if b == [] {
      assert a + b == a;
    } else {
      var n := |b| - 1;
      FoldConcat(m, a, b[..n]);
      FoldAppend(m, a + b[..n], b[n]);
      assert a + b == a + b[..n] + [b[n]];
    }
  }

  /** From one idle state to an idle state with an empty page, with no keystroke in between, every key
      of the page is delivered. */
  lemma DrainedAll(s: State, t: State)
    requires Inv(s) && Inv(t) && s.drain.Idle? && t.drain.Idle? && t.size == 0 && t.strokes == s.strokes
    ensures t.delivered == s.delivered + s.slots[..s.size]
    ensures Codes(t.delivered) == Codes(s.delivered) + Codes(s.slots[..s.size])
    ensures t.modifiers == Fold(s.modifiers, Codes(s.slots[..s.size]))
  {
    hide Kept, Fold, Codes;
    assert t.delivered + t.slots[..0] == t.delivered;
    CodesConcat(s.delivered, s.slots[..s.size]);
    FoldConcat(NO_MODIFIERS, Codes(s.delivered), Codes(s.slots[..s.size]));
  }

  /** Only keystrokes have come in. */
  predicate Paused(s: State, t: State) {
    t.drain == s.drain && t.delivered == s.delivered && t.modifiers == s.modifiers
  }

  // ---------------------------------------------------------------------------------------------
  // The page itself, as the two programs read and write it.

  const PAGE := 0x1000

  /** The first `n` bytes are zero. */
  function Wiped(bytes: seq<byte>, n: nat): (r: seq<byte>)
    requires n <= |bytes|
    ensures |r| == |bytes| && forall i :: 0 <= i < |bytes| ==> r[i] == if i < n then 0 else bytes[i]
  {
    seq(n, _ => 0) + bytes[n..]
  }

  lemma WipedPage(bytes: seq<byte>, n: nat, after: seq<byte>)
    requires |bytes| == 4096 && n <= 4094 && after == Wiped(bytes, n + 1)[4094 := 0][4095 := 0]
    ensures |after| == 4096
    ensures forall i :: 0 <= i < 4096 ==> after[i] == if i <= n || i >= 4094 then 0 else bytes[i]
  {
  }

  class SharedPage {
    const page: array<byte>             // the key bytes, and the size in the last two
    var claimed: bool                   // current_pid, current_buffer and current_size are set
    var started: bool                   // _started
    var modifiers: Modifiers
    var delivered: seq<byte>            // what the listeners have been called with
    ghost var events: seq<Event>        // what has happened so far

    constructor ()
      ensures Valid() && events == [] && Keys() == [] && delivered == [] && modifiers == NO_MODIFIERS
      ensures claimed && started
    {
      page := new byte[PAGE](_ => 0);
      claimed, started, modifiers, delivered, events := true, true, NO_MODIFIERS, [], [];
      new;
      assert After([]) == Start() && Codes([]) == [];
    }

    /** *internal_buffer_size, stored low byte first. */
    function Size(): nat
      requires page.Length == PAGE
      reads page
    {
      page[CAPACITY] + 0x100 * (page[CAPACITY + 1] as nat)
    }

    /** The page and the statics of the two programs are those of a state of the machine. */
    ghost predicate Holds(s: State)
      reads this, page
    {
      && page.Length == PAGE && |s.slots| == CAPACITY
      && (forall i :: 0 <= i < CAPACITY ==> page[i] == CodeOf(s.slots[i]))
      && Size() == s.size
      && delivered == Codes(s.delivered)
      && modifiers == s.modifiers
    }

    ghost predicate Valid()
      reads this, page
    {
      Holds(After(events))
    }

    ghost function Keys(): seq<byte>
      requires Valid()
      reads this, page
    {
      page[..Size()]
    }

    method SetSize(n: nat)
      requires page.Length == PAGE && n <= CAPACITY
      modifies page
      ensures Size() == n && page[..CAPACITY] == old(page[..CAPACITY])
    {
      page[CAPACITY] := n % 0x100;
      page[CAPACITY + 1] := n / 0x100;
    }

    /** The ghost record of one step. */
    ghost method Record(e: Event)
      modifies this`events
      ensures events == old(events) + [e] && After(events) == Next(After(old(events)), e)
    {
      AfterPush(events, e);
      events := events + [e];
    }

    /** __kb_man_save_key: an Interrupt of the machine, when the page is claimed. */
    method SaveKey(code: byte)
      requires Valid()
      modifies page, this`events
      ensures Valid()
      ensures events == if claimed then old(events) + [Stroked(code)] else old(events)
      ensures claimed ==> After(events) == Interrupt(After(old(events)), code)
      ensures Keys() == if claimed && |old(Keys())| < 4094 then old(Keys()) + [code] else old(Keys())
    {
      hide After;
      if !claimed {
        return;
      }
      Record(Stroked(code));
      var size := Size();
      if size >= CAPACITY {
        return;
      }
      ghost var keys := page[..CAPACITY];
      page[size] := code;
      assert page[..CAPACITY] == keys[size := code] && Size() == size;
      SetSize(size + 1);
      assert page[..CAPACITY] == keys[size := code];
      assert forall i :: 0 <= i < CAPACITY ==> page[i] == page[..CAPACITY][i];
      assert page[..size + 1] == keys[..size] + [code];
    }

    /** The interrupts that come between two steps of kbd_update. */
    method Interrupts(arrivals: seq<seq<byte>>, t: nat)
      requires Valid()
      modifies page, this`events
      ensures Valid() && Paused(After(old(events)), After(events)) && old(events) <= events
      ensures arrivals == [] ==> events == old(events) && page[..] == old(page[..])
    {
      hide After, Holds;
      if t < |arrivals| {
        for i := 0 to |arrivals[t]|
          invariant Valid() && Paused(After(old(events)), After(events)) && old(events) <= events
        {
          SaveKey(arrivals[t][i]);
        }
      }
    }

    /** The read of the size. */
    method ReadSize() returns (n: nat)
      requires Valid() && After(events).drain.Idle?
      modifies this`events
      ensures Valid() && old(events) <= events && After(events).strokes == After(old(events)).strokes
      ensures n == After(old(events)).size == After(events).size
      ensures After(events).drain == if n == 0 then Idle else Delivering(n, 0)
    {
      hide After;
      n := Size();
      Record(Drained);
    }

    /** One round of the loop over the keys. */
    method DeliverKey(n: nat, i: nat)
      requires Valid() && After(events).drain == Delivering(n, i) && i < n
      modifies this`modifiers, this`delivered, this`events
      ensures Valid() && old(events) <= events && After(events).strokes == After(old(events)).strokes
      ensures After(events).drain == Delivering(n, i + 1)
      ensures delivered == old(delivered) + [page[i]] && Reflects(modifiers, delivered)
    {
      hide After, Modified, Codes, Kept, Fold, Reflects;
      CodesAppend(After(events).delivered, After(events).slots[i]);
      var code := page[i];
      modifiers := Modified(modifiers, code);
      delivered := delivered + [code];
      Record(Drained);
      KeysReflected();
    }

    /** The end of the loop, and the end of the memset behind it. */
    ghost method LeaveLoop()
      requires Valid()
      requires var d := After(events).drain; (d.Delivering? && d.i == d.n) || (d.Clearing? && d.j == d.n + 1)
      modifies this`events
      ensures Valid() && old(events) <= events && After(events).strokes == After(old(events)).strokes
      ensures var d := After(old(events)).drain;
        After(events).drain == if d.Delivering? then Clearing(d.n, 0) else Resetting
    {
      hide After, Kept, Fold;
      Record(Drained);
    }

    /** One byte of the memset. */
    method ClearByte(n: nat, j: nat)
      requires Valid() && After(events).drain == Clearing(n, j) && j <= n
      modifies page, this`events
      ensures Valid() && old(events) <= events && After(events).strokes == After(old(events)).strokes
      ensures After(events).drain == Clearing(n, j + 1) && page[..] == old(page[..])[j := 0]
    {
      hide After, Kept, Fold;
      page[j] := 0;
      Record(Drained);
    }

    /** The reset of the size. */
    method ResetSize()
      requires Valid() && After(events).drain == Resetting
      modifies page, this`events
      ensures Valid() && old(events) <= events && After(events).strokes == After(old(events)).strokes
      ensures After(events).drain == Idle && After(events).size == 0
      ensures page[..] == old(page[..])[4094 := 0][4095 := 0]
    {
      hide After, Kept, Fold;
      ghost var keys := page[..CAPACITY];
      SetSize(0);
      assert forall i :: 0 <= i < CAPACITY ==> page[i] == page[..CAPACITY][i] == keys[i];
      Record(Drained);
    }

    lemma KeysOfState()
      requires Valid()
      ensures page.Length == 4096 && |Keys()| <= CAPACITY
      ensures Keys() == Codes(After(events).slots[..After(events).size])
      ensures delivered == Codes(After(events).delivered) && modifiers == After(events).modifiers
      ensures |Keys()| == After(events).size
    {
    }

    lemma KeysReflected()
      requires Valid()
      ensures Reflects(modifiers, delivered)
    {
      hide After, Reflects;
      RunReflects(events);
    }

    /** The loop over the keys. */
    method DeliverAll(arrivals: seq<seq<byte>>, n: nat)
      requires Valid() && After(events).drain == Delivering(n, 0)
      modifies page, this`modifiers, this`delivered, this`events
      ensures Valid() && old(events) <= events && After(events).drain == Clearing(n, 0)
      ensures arrivals == [] ==> After(events).strokes == After(old(events)).strokes && page[..] == old(page[..])
    {
      hide After, Holds, Codes;
      for i := 0 to n
        invariant Valid() && After(events).drain == Delivering(n, i) && old(events) <= events
        invariant arrivals == [] ==> After(events).strokes == After(old(events)).strokes && page[..] == old(page[..])
      {
        Interrupts(arrivals, i + 1);
        DeliverKey(n, i);
      }
      Interrupts(arrivals, n + 1);
      LeaveLoop();
    }

    /** The memset, of one byte more than there were keys. */
    method ClearAll(arrivals: seq<seq<byte>>, n: nat)
      requires Valid() && After(events).drain == Clearing(n, 0) && n <= CAPACITY
      modifies page, this`events
      ensures Valid() && old(events) <= events && After(events).drain == Resetting
      ensures arrivals == [] ==> After(events).strokes == After(old(events)).strokes
      ensures arrivals == [] ==> page[..] == Wiped(old(page[..]), n + 1)
    {
      hide After, Holds, Codes, Wiped;
      KeysOfState();
      for j := 0 to n + 1
        invariant Valid() && After(events).drain == Clearing(n, j) && old(events) <= events
        invariant arrivals == [] ==> After(events).strokes == After(old(events)).strokes
        invariant arrivals == [] ==> page[..] == Wiped(old(page[..]), j)
      {
        Interrupts(arrivals, n + 2 + j);
        ClearByte(n, j);
      }
      Interrupts(arrivals, 2 * n + 3);
      LeaveLoop();
    }

    /** kbd_update, with any keystrokes coming in between its steps: `arrivals[t]` before the `t`-th.
        It is a run of the machine from one idle state to another, so all that is shown of runs holds
        of it.  Uninterrupted, it delivers every key of the page once, in order. */
    method Update(arrivals: seq<seq<byte>>)
      requires Valid() && After(events).drain.Idle?
      modifies page, this`modifiers, this`delivered, this`events
      ensures Valid() && After(events).drain.Idle? && old(events) <= events
      ensures !started ==> events == old(events) && delivered == old(delivered) && page[..] == old(page[..])
      ensures arrivals == [] && started ==> Keys() == [] && delivered == old(delivered) + old(Keys())
      ensures arrivals == [] && started ==> modifiers == Fold(old(modifiers), old(Keys()))
      ensures arrivals == [] && started && old(Keys()) != [] ==> forall i :: 0 <= i < 4096 ==>
        page[i] == if i <= |old(Keys())| || i >= 4094 then 0 else old(page[i])
      ensures Reflects(modifiers, delivered)
    {
      hide After, Holds, Codes, Reflects, Fold, Wiped;
      KeysReflected();
      if !started {
        return;
      }
      ghost var s, bytes := After(events), page[..];
      KeysOfState();
      Interrupts(arrivals, 0);
      var n := ReadSize();
      if n > 0 {
        DeliverAll(arrivals, n);
        ClearAll(arrivals, n);
        Interrupts(arrivals, 2 * n + 4);
        ResetSize();
        if arrivals == [] {
          assert page[..] == Wiped(bytes, n + 1)[4094 := 0][4095 := 0];
          WipedPage(bytes, n, page[..]);
        }
      }
      KeysReflected();
      if arrivals == [] {
        DrainedAll(s, After(events));
        KeysOfState();
      }
    }
  }
}
