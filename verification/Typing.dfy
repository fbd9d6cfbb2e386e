/** From the wire to the modifiers: the scan codes of ps2_kbd.c, as kbd_update reads them in the end. */
module Typing {
  import opened Ps2
  import KeyBuffers

  /** Scan codes of the keys that kbd_update looks at. */
  const SHIFT_DOWN: set<Code> := {Make(0x12), Make(0x59)}
  const SHIFT_UP: set<Code> := {Break(0x12), Break(0x59)}
  const CAPS_DOWN := Make(0x58)
  const NUM_DOWN := Make(0x77)

  /** The two programs agree on the keys: these codes and no others have the numbers that kbd_update takes
      for shift, caps lock and num lock. */
  lemma ModifierKeys(c: Code)
    requires Known(c)
    ensures Keycode(c) == 0x45 || Keycode(c) == 0x46 <==> c in SHIFT_DOWN
    ensures Keycode(c) == 0xC5 || Keycode(c) == 0xC6 <==> c in SHIFT_UP
    ensures Keycode(c) == 0x4B <==> c == CAPS_DOWN
    ensures Keycode(c) == 0x4D <==> c == NUM_DOWN
    ensures Keycode(c) < 0x100
  {
    hide PlainKey, ExtendedKey, PlainScan, ExtendedScan;
    CodeRow(c);
    FourKeys();
    KeysDistinct(c, Make(0x12));
    KeysDistinct(c, Make(0x59));
    KeysDistinct(c, Break(0x12));
    KeysDistinct(c, Break(0x59));
    KeysDistinct(c, CAPS_DOWN);
    KeysDistinct(c, NUM_DOWN);
  }

  lemma FourKeys()
    ensures PlainKey(0x12) == 0x45 && PlainKey(0x59) == 0x46 && PlainKey(0x58) == 0x4B && PlainKey(0x77) == 0x4D
  {
  }

  /** A shift key has been pressed, and none let go of since. */
  predicate ShiftHeld(codes: seq<Code>) {
    exists i :: 0 <= i < |codes| && codes[i] in SHIFT_DOWN && forall j :: i < j < |codes| ==> codes[j] !in SHIFT_UP
  }

  function Presses(codes: seq<Code>, c: Code): nat {
    multiset(codes)[c]
  }

  /** The keys of the codes, as bytes. */
  function KeysOf(codes: seq<Code>): seq<KeyBuffers.byte>
    requires forall i :: 0 <= i < |codes| ==> Keycode(codes[i]) < 0x100
  {
    seq(|codes|, i requires 0 <= i < |codes| => Keycode(codes[i]))
  }

  ghost predicate AllKnown(codes: seq<Code>) {
    forall i :: 0 <= i < |codes| ==> Known(codes[i]) && Keycode(codes[i]) < 0x100
  }

  lemma {:induction false} SameTimes(codes: seq<Code>, c: Code, key: KeyBuffers.byte)
    requires AllKnown(codes) && forall d :: Known(d) ==> (Keycode(d) == key <==> d == c)
    ensures KeyBuffers.Times(KeysOf(codes), key) == Presses(codes, c)
  {
    hide Keycode, Known;
    if codes != [] {
      var n := |codes| - 1;
      SameTimes(codes[..n], c, key);
      KeyBuffers.TimesPush(KeysOf(codes[..n]), Keycode(codes[n]), key);
      assert KeysOf(codes) == KeysOf(codes[..n]) + [Keycode(codes[n])];
      assert codes == codes[..n] + [codes[n]];
    }
  }

  lemma SameShift(codes: seq<Code>)
    requires AllKnown(codes)
    ensures KeyBuffers.OnSince(KeysOf(codes), {0x45, 0x46}, {0xC5, 0xC6}) <==> ShiftHeld(codes)
  {
    hide Keycode, Known;
    var keys := KeysOf(codes);
    forall i | 0 <= i < |codes|
      ensures keys[i] in {0x45, 0x46} <==> codes[i] in SHIFT_DOWN
      ensures keys[i] in {0xC5, 0xC6} <==> codes[i] in SHIFT_UP
    {
      ModifierKeys(codes[i]);
    }
  }

  /** Any table codes are sent over the wire as one stream of bytes, the keys that come out of the framing
      and the translation are stored as they come, and all are delivered: then the modifiers are those of
      the keys pressed. */
  lemma TypedModifiers(codes: seq<Code>, events: seq<KeyBuffers.Event>)
    requires forall i :: 0 <= i < |codes| ==> Known(codes[i])
    requires var s, keys := KeyBuffers.After(events), Keycodes(FeedAll(Stream([], []), Flat(AllBytes(codes))).codes);
      && s.drain.Idle? && s.size == 0 && |s.strokes| == |keys|
      && forall n :: 0 <= n < |keys| ==> s.strokes[n].code == keys[n] && !s.strokes[n].lost
    ensures var m := KeyBuffers.After(events).modifiers;
      && (m.shift <==> ShiftHeld(codes))
      && (m.caps <==> Presses(codes, CAPS_DOWN) % 2 == 1)
      && (m.nums <==> Presses(codes, NUM_DOWN) % 2 == 1)
  {
    hide Keycode, Known, KeyBuffers.After, KeyBuffers.Times, KeyBuffers.OnSince, Presses, ShiftHeld, Translate, Render;
    var s := KeyBuffers.After(events);
    KnownCodesRoundTrip(codes);
    KeyBuffers.NothingLost(events);
    KeyBuffers.RunReflects(events);
    forall c | Known(c)
      ensures Keycode(c) < 0x100 && (Keycode(c) == 0x4B <==> c == CAPS_DOWN) && (Keycode(c) == 0x4D <==> c == NUM_DOWN)
    {
      ModifierKeys(c);
    }
    forall i | 0 <= i < |codes|
      ensures Translate(Render(AllBytes(codes)[i])) == Keycode(codes[i])
    {
      TranslateKnown(codes[i]);
    }
    assert KeyBuffers.Codes(s.delivered) == KeysOf(codes);
    SameShift(codes);
    SameTimes(codes, CAPS_DOWN, 0x4B);
    SameTimes(codes, NUM_DOWN, 0x4D);
  }
}
