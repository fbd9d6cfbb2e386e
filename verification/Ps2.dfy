/** Scan-code framing and translation of ps2_kbd.c, for scan-code set 2. */
module Ps2 {

  type byte = x: nat | x < 256

  // ---------------------------------------------------------------------------------------------
  // Framing.

  /** ps2_kbd_needs_next_byte: whether the code in `s` is unfinished. */
  predicate NeedsNextByte(s: seq<byte>) {
    match |s|
    case 1 => s[0] == 0xE0 || s[0] == 0xF0 || s[0] == 0xE1
    case 2 => s[1] == 0xF0 || (s[0] == 0xE0 && s[1] == 0x12) || (s[0] == 0xE1 && s[1] == 0x14)
    case 3 => s[2] == 0x77 || s[2] == 0x7C || s[2] == 0xE0
    case 4 => s[3] == 0xE0 || s[3] == 0xE1
    case 5 => s[4] == 0xF0
    case 6 => s[5] == 0x14
    case 7 => s[6] == 0xF0
    case _ => false
  }

  /** What a stream of bytes turns into: the codes dispatched, and the bytes still held back. */
  datatype Stream = Stream(codes: seq<seq<byte>>, pending: seq<byte>)

  function Feed(s: Stream, b: byte): Stream {
    var p := s.pending + [b];
    if NeedsNextByte(p) then Stream(s.codes, p) else Stream(s.codes + [p], [])
  }

  function FeedAll(s: Stream, bytes: seq<byte>): Stream
    decreases |bytes|
  {
    if bytes == [] then s else FeedAll(Feed(s, bytes[0]), bytes[1..])
  }

  function Flat(codes: seq<seq<byte>>): seq<byte> {
    if codes == [] then [] else codes[0] + Flat(codes[1..])
  }

  lemma {:induction false} FlatAppend(codes: seq<seq<byte>>, code: seq<byte>)
    ensures Flat(codes + [code]) == Flat(codes) + code
  {
    if codes == [] {
      assert codes + [code] == [code];
    } else {
      assert (codes + [code])[1..] == codes[1..] + [code];
      FlatAppend(codes[1..], code);
    }
  }

  lemma {:induction false} FeedAllAppend(s: Stream, a: seq<byte>, b: seq<byte>)
    ensures FeedAll(s, a + b) == FeedAll(FeedAll(s, a), b)
    decreases |a|
  {
    if a == [] {
      assert a + b == b;
    } else {
      assert (a + b)[1..] == a[1..] + b;
      FeedAllAppend(Feed(s, a[0]), a[1..], b);
    }
  }

  /** Whatever the bytes, none is lost, doubled or moved, and at most seven are held back, so the
      eight-byte buffer has room for the next. */
  lemma {:induction false} FeedAllConserves(s: Stream, bytes: seq<byte>)
    requires |s.pending| <= 7
    ensures var t := FeedAll(s, bytes);
      |t.pending| <= 7 && Flat(t.codes) + t.pending == Flat(s.codes) + s.pending + bytes
    decreases |bytes|
  {
    if bytes == [] {
    } else {
      var t := Feed(s, bytes[0]);
      FlatAppend(s.codes, s.pending + [bytes[0]]);
      assert Flat(t.codes) + t.pending == Flat(s.codes) + s.pending + [bytes[0]];
      FeedAllConserves(t, bytes[1..]);
      assert bytes == [bytes[0]] + bytes[1..];
    }
  }

  /** A code that the framing takes whole: every proper start of it asks for more. */
  predicate Framed(code: seq<byte>) {
    && code != []
    && !NeedsNextByte(code)
    && forall n :: 0 < n < |code| ==> NeedsNextByte(code[..n])
  }

  lemma {:induction false} FeedFramed(s: Stream, code: seq<byte>, n: nat)
    requires Framed(code) && n < |code| && s.pending == code[..n]
    ensures FeedAll(s, code[n..]) == Stream(s.codes + [code], [])
    decreases |code| - n
  {
    var t := Feed(s, code[n]);
    assert s.pending + [code[n]] == code[..n + 1];
    assert code[n..][0] == code[n] && code[n..][1..] == code[n + 1..];
    if n + 1 < |code| {
      FeedFramed(t, code, n + 1);
    } else {
      assert code[..n + 1] == code;
    }
  }

  /** Framing undoes encoding: the bytes of any sequence of framed codes come out as exactly those
      codes, in order, with nothing held back. */
  lemma {:induction false} FramingUndoesEncoding(s: Stream, codes: seq<seq<byte>>)
    requires s.pending == [] && forall i :: 0 <= i < |codes| ==> Framed(codes[i])
    ensures FeedAll(s, Flat(codes)) == Stream(s.codes + codes, [])
    decreases |codes|
  {
    if codes != [] {
      FeedAllAppend(s, codes[0], Flat(codes[1..]));
      assert codes[0][0..] == codes[0];
      FeedFramed(s, codes[0], 0);
      FramingUndoesEncoding(Stream(s.codes + [codes[0]], []), codes[1..]);
      assert s.codes + [codes[0]] + codes[1..] == s.codes + codes;
    }
  }

  /** A byte that occurs only at the start or the end of a code ends whatever code it comes in. */
  lemma OrdinaryEnds(s: Stream, b: byte)
    requires b !in {0x12, 0x14, 0x77, 0x7C, 0xE0, 0xE1, 0xF0}
    ensures Feed(s, b) == Stream(s.codes + [s.pending + [b]], [])
  {
    assert (s.pending + [b])[|s.pending|] == b;
  }

  /** So after any bytes at all the framing is back in step behind the next such byte: one code is spoilt, and
      all that follow come out. */
  lemma Resynchronizes(s: Stream, b: byte, codes: seq<seq<byte>>)
    requires b !in {0x12, 0x14, 0x77, 0x7C, 0xE0, 0xE1, 0xF0}
    requires forall i :: 0 <= i < |codes| ==> Framed(codes[i])
    ensures FeedAll(s, [b] + Flat(codes)) == Stream(s.codes + [s.pending + [b]] + codes, [])
  {
    OrdinaryEnds(s, b);
    assert ([b] + Flat(codes))[1..] == Flat(codes);
    FramingUndoesEncoding(Feed(s, b), codes);
  }

  // ---------------------------------------------------------------------------------------------
  // The codes of the translation table.

  /** Keycodes of the one-byte make codes; 0 for bytes that are none. */
  function PlainKey(b: byte): nat {
    match b
    case 0x01 => 0x60 case 0x03 => 0x5C case 0x04 => 0x5A case 0x05 => 0x58 case 0x06 => 0x59 case 0x07 => 0x63
    case 0x09 => 0x61 case 0x0A => 0x5F case 0x0B => 0x5D case 0x0C => 0x5B case 0x0D => 0x41 case 0x0E => 0x01
    case 0x11 => 0x49 case 0x12 => 0x45 case 0x14 => 0x47 case 0x15 => 0x0E case 0x16 => 0x02 case 0x1A => 0x26
    case 0x1B => 0x1C case 0x1C => 0x1B case 0x1D => 0x0F case 0x1E => 0x03 case 0x21 => 0x28 case 0x22 => 0x27
    case 0x23 => 0x1D case 0x24 => 0x10 case 0x25 => 0x05 case 0x26 => 0x04 case 0x29 => 0x30 case 0x2A => 0x29
    case 0x2B => 0x1E case 0x2C => 0x12 case 0x2D => 0x11 case 0x2E => 0x06 case 0x31 => 0x2B case 0x32 => 0x2A
    case 0x33 => 0x20 case 0x34 => 0x1F case 0x35 => 0x13 case 0x36 => 0x07 case 0x3A => 0x2C case 0x3B => 0x21
    case 0x3C => 0x14 case 0x3D => 0x08 case 0x3E => 0x09 case 0x41 => 0x2D case 0x42 => 0x22 case 0x43 => 0x15
    case 0x44 => 0x16 case 0x45 => 0x0B case 0x46 => 0x0A case 0x49 => 0x2E case 0x4A => 0x2F case 0x4B => 0x23
    case 0x4C => 0x24 case 0x4D => 0x17 case 0x4E => 0x0C case 0x52 => 0x25 case 0x54 => 0x18 case 0x55 => 0x0D
    case 0x58 => 0x4B case 0x59 => 0x46 case 0x5A => 0x40 case 0x5B => 0x19 case 0x5D => 0x1A case 0x66 => 0x42
    case 0x69 => 0x3A case 0x6B => 0x37 case 0x6C => 0x34 case 0x70 => 0x3D case 0x71 => 0x3E case 0x72 => 0x3B
    case 0x73 => 0x38 case 0x74 => 0x39 case 0x75 => 0x35 case 0x76 => 0x43 case 0x77 => 0x4D case 0x78 => 0x62
    case 0x79 => 0x33 case 0x7A => 0x3C case 0x7B => 0x33 case 0x7C => 0x32 case 0x7D => 0x36 case 0x7E => 0x4C
    case 0x83 => 0x5E
    case _ => 0
  }

  /** Keycodes of the make codes that follow E0. */
  function ExtendedKey(b: byte): nat {
    match b
    case 0x10 => 0x7A case 0x11 => 0x4A case 0x14 => 0x48 case 0x15 => 0x69 case 0x18 => 0x6B case 0x1F => 0x66
    case 0x20 => 0x75 case 0x21 => 0x6C case 0x23 => 0x6E case 0x27 => 0x66 case 0x28 => 0x74 case 0x2B => 0x76
    case 0x2F => 0x79 case 0x30 => 0x71 case 0x32 => 0x6D case 0x34 => 0x6F case 0x37 => 0x7B case 0x38 => 0x72
    case 0x3A => 0x73 case 0x3B => 0x70 case 0x3F => 0x7C case 0x40 => 0x44 case 0x48 => 0x77 case 0x4A => 0x31
    case 0x4D => 0x6A case 0x50 => 0x78 case 0x5A => 0x3F case 0x5E => 0x7D case 0x69 => 0x52 case 0x6B => 0x55
    case 0x6C => 0x4F case 0x70 => 0x4E case 0x71 => 0x51 case 0x72 => 0x56 case 0x74 => 0x57 case 0x75 => 0x54
    case 0x7A => 0x53 case 0x7D => 0x50
    case _ => 0
  }

  /** The make code of a key of kbd.h: letters, digits and signs first. */
  function LowScan(key: nat): byte {
    match key
    case 0x01 => 0x0E case 0x02 => 0x16 case 0x03 => 0x1E case 0x04 => 0x26 case 0x05 => 0x25 case 0x06 => 0x2E
    case 0x07 => 0x36 case 0x08 => 0x3D case 0x09 => 0x3E case 0x0A => 0x46 case 0x0B => 0x45 case 0x0C => 0x4E
    case 0x0D => 0x55 case 0x0E => 0x15 case 0x0F => 0x1D case 0x10 => 0x24 case 0x11 => 0x2D case 0x12 => 0x2C
    case 0x13 => 0x35 case 0x14 => 0x3C case 0x15 => 0x43 case 0x16 => 0x44 case 0x17 => 0x4D case 0x18 => 0x54
    case 0x19 => 0x5B case 0x1A => 0x5D case 0x1B => 0x1C case 0x1C => 0x1B case 0x1D => 0x23 case 0x1E => 0x2B
    case 0x1F => 0x34
    case _ => 0
  }

  function MiddleScan(key: nat): byte {
    match key
    case 0x20 => 0x33 case 0x21 => 0x3B case 0x22 => 0x42 case 0x23 => 0x4B case 0x24 => 0x4C case 0x25 => 0x52
    case 0x26 => 0x1A case 0x27 => 0x22 case 0x28 => 0x21 case 0x29 => 0x2A case 0x2A => 0x32 case 0x2B => 0x31
    case 0x2C => 0x3A case 0x2D => 0x41 case 0x2E => 0x49 case 0x2F => 0x4A case 0x30 => 0x29 case 0x32 => 0x7C
    case 0x33 => 0x79 case 0x34 => 0x6C case 0x35 => 0x75 case 0x36 => 0x7D case 0x37 => 0x6B case 0x38 => 0x73
    case 0x39 => 0x74 case 0x3A => 0x69 case 0x3B => 0x72 case 0x3C => 0x7A case 0x3D => 0x70 case 0x3E => 0x71
    case _ => 0
  }

  function HighScan(key: nat): byte {
    match key
    case 0x40 => 0x5A case 0x41 => 0x0D case 0x42 => 0x66 case 0x43 => 0x76 case 0x45 => 0x12 case 0x46 => 0x59
    case 0x47 => 0x14 case 0x49 => 0x11 case 0x4B => 0x58 case 0x4C => 0x7E case 0x4D => 0x77 case 0x58 => 0x05
    case 0x59 => 0x06 case 0x5A => 0x04 case 0x5B => 0x0C case 0x5C => 0x03 case 0x5D => 0x0B case 0x5E => 0x83
    case 0x5F => 0x0A case 0x60 => 0x01 case 0x61 => 0x09 case 0x62 => 0x78 case 0x63 => 0x07
    case _ => 0
  }

  function PlainScan(key: nat): byte {
    if key < 0x20 then LowScan(key) else if key < 0x40 then MiddleScan(key) else HighScan(key)
  }

  /** And that of a key whose code follows E0. */
  function ExtendedScan(key: nat): byte {
    match key
    case 0x31 => 0x4A case 0x3F => 0x5A case 0x44 => 0x40 case 0x48 => 0x14 case 0x4A => 0x11 case 0x4E => 0x70
    case 0x4F => 0x6C case 0x50 => 0x7D case 0x51 => 0x71 case 0x52 => 0x69 case 0x53 => 0x7A case 0x54 => 0x75
    case 0x55 => 0x6B case 0x56 => 0x72 case 0x57 => 0x74 case 0x66 => 0x1F case 0x69 => 0x15 case 0x6A => 0x4D
    case 0x6B => 0x18 case 0x6C => 0x21 case 0x6D => 0x32 case 0x6E => 0x23 case 0x6F => 0x34 case 0x70 => 0x3B
    case 0x71 => 0x30 case 0x72 => 0x38 case 0x73 => 0x3A case 0x74 => 0x28 case 0x75 => 0x20 case 0x76 => 0x2B
    case 0x77 => 0x48 case 0x78 => 0x50 case 0x79 => 0x2F case 0x7A => 0x10 case 0x7B => 0x37 case 0x7C => 0x3F
    case 0x7D => 0x5E
    case _ => 0
  }

  lemma PlainRow0(b: byte)
    requires b < 0x20
    ensures PlainKey(b) != 0 ==> PlainScan(PlainKey(b)) == b
  {
  }

  lemma PlainRow1(b: byte)
    requires 0x20 <= b < 0x40
    ensures PlainKey(b) != 0 ==> PlainScan(PlainKey(b)) == b
  {
  }

  lemma PlainRow2(b: byte)
    requires 0x40 <= b < 0x60
    ensures PlainKey(b) != 0 ==> PlainScan(PlainKey(b)) == b
  {
  }

  lemma PlainRow3(b: byte)
    requires 0x60 <= b
    ensures PlainKey(b) != 0 ==> PlainScan(PlainKey(b)) == if b == 0x7B then 0x79 else b
  {
  }

  lemma ExtendedRow0(b: byte)
    requires b < 0x30
    ensures ExtendedKey(b) != 0 ==> ExtendedScan(ExtendedKey(b)) == (if b == 0x27 then 0x1F else b)
    ensures ExtendedKey(b) != 0 ==> PlainScan(ExtendedKey(b)) == 0
  {
  }

  lemma ExtendedRow1(b: byte)
    requires 0x30 <= b < 0x50
    ensures ExtendedKey(b) != 0 ==> ExtendedScan(ExtendedKey(b)) == b && PlainScan(ExtendedKey(b)) == 0
  {
  }

  lemma ExtendedRow2(b: byte)
    requires 0x50 <= b
    ensures ExtendedKey(b) != 0 ==> ExtendedScan(ExtendedKey(b)) == b && PlainScan(ExtendedKey(b)) == 0
  {
  }

  lemma LowKeys(key: nat)
    ensures LowScan(key) != 0 ==> PlainKey(LowScan(key)) == key
  {
  }

  lemma MiddleKeys(key: nat)
    ensures MiddleScan(key) != 0 ==> PlainKey(MiddleScan(key)) == key
  {
  }

  lemma HighKeys(key: nat)
    ensures HighScan(key) != 0 ==> PlainKey(HighScan(key)) == key
  {
  }

  lemma ExtendedKeys(key: nat)
    ensures ExtendedScan(key) != 0 ==> ExtendedKey(ExtendedScan(key)) == key
  {
  }

  lemma PlainRow(b: byte)
    ensures PlainKey(b) != 0 ==> PlainScan(PlainKey(b)) == if b == 0x7B then 0x79 else b
  {
    hide PlainKey, PlainScan;
    if b < 0x20 {
      PlainRow0(b);
    } else if b < 0x40 {
      PlainRow1(b);
    } else if b < 0x60 {
      PlainRow2(b);
    } else {
      PlainRow3(b);
    }
  }

  lemma ExtendedRow(b: byte)
    ensures ExtendedKey(b) != 0 ==> ExtendedScan(ExtendedKey(b)) == if b == 0x27 then 0x1F else b
    ensures ExtendedKey(b) != 0 ==> PlainScan(ExtendedKey(b)) == 0
  {
    hide ExtendedKey, ExtendedScan, PlainScan;
    if b < 0x30 {
      ExtendedRow0(b);
    } else if b < 0x50 {
      ExtendedRow1(b);
    } else {
      ExtendedRow2(b);
    }
  }

  lemma PlainKeys(key: nat)
    ensures PlainScan(key) != 0 ==> PlainKey(PlainScan(key)) == key
  {
    hide PlainKey, LowScan, MiddleScan, HighScan;
    LowKeys(key);
    MiddleKeys(key);
    HighKeys(key);
  }

  /** The table both ways: the make code of a key is the one byte that gives it, except that keypad minus
      (0x7B) gives the key of keypad plus (0x79) as well, and the right super key (E0 27) that of the left
      one (E0 1F). */
  lemma TableExact(b: byte, key: nat)
    requires key != 0 && b != 0
    ensures PlainKey(b) == key <==> PlainScan(key) == b || (b == 0x7B && key == 0x33)
    ensures ExtendedKey(b) == key <==> ExtendedScan(key) == b || (b == 0x27 && key == 0x66)
  {
    hide PlainKey, ExtendedKey, PlainScan, ExtendedScan;
    PlainRow(b);
    ExtendedRow(b);
    PlainKeys(key);
    ExtendedKeys(key);
    TwinKeys();
  }

  lemma TwinKeys()
    ensures PlainKey(0x79) == PlainKey(0x7B) == 0x33 && ExtendedKey(0x1F) == ExtendedKey(0x27) == 0x66
  {
  }

  const PRINTSCREEN := 0x64
  const PAUSE := 0x65

  datatype Code =
    | Make(b: byte)
    | Break(b: byte)
    | ExtendedMake(b: byte)
    | ExtendedBreak(b: byte)
    | PrintMake
    | PrintBreak
    | Pause

  /** The code stands in the table. */
  predicate Known(c: Code) {
    match c
    case Make(b) => PlainKey(b) != 0
    case Break(b) => PlainKey(b) != 0
    case ExtendedMake(b) => ExtendedKey(b) != 0
    case ExtendedBreak(b) => ExtendedKey(b) != 0
    case _ => true
  }

  /** The bytes the keyboard sends. */
  function Bytes(c: Code): seq<byte> {
    match c
    case Make(b) => [b]
    case Break(b) => [0xF0, b]
    case ExtendedMake(b) => [0xE0, b]
    case ExtendedBreak(b) => [0xE0, 0xF0, b]
    case PrintMake => [0xE0, 0x12, 0xE0, 0x7C]
    case PrintBreak => [0xE0, 0xF0, 0x7C, 0xE0, 0xF0, 0x12]
    case Pause => [0xE1, 0x14, 0x77, 0xE1, 0xF0, 0x14, 0xF0, 0x77]
  }

  /** The key, with bit 7 set on release. */
  function Keycode(c: Code): nat {
    match c
    case Make(b) => PlainKey(b)
    case Break(b) => 0x80 + PlainKey(b)
    case ExtendedMake(b) => ExtendedKey(b)
    case ExtendedBreak(b) => 0x80 + ExtendedKey(b)
    case PrintMake => PRINTSCREEN
    case PrintBreak => 0x80 + PRINTSCREEN
    case Pause => PAUSE
  }

  lemma TableBytes(b: byte)
    ensures PlainKey(b) != 0 ==> b !in {0x00, 0xE0, 0xE1, 0xF0} && PlainKey(b) < 0x80
    ensures ExtendedKey(b) != 0 ==> b !in {0x00, 0x12, 0x77, 0x7C, 0xE0, 0xF0} && ExtendedKey(b) < 0x80
  {
  }

  /** Two keys that the table takes for one. */
  predicate Twins(c: Code, d: Code) {
    || (c.Make? && d.Make? && {c.b, d.b} == {0x79, 0x7B})
    || (c.Break? && d.Break? && {c.b, d.b} == {0x79, 0x7B})
    || (c.ExtendedMake? && d.ExtendedMake? && {c.b, d.b} == {0x1F, 0x27})
    || (c.ExtendedBreak? && d.ExtendedBreak? && {c.b, d.b} == {0x1F, 0x27})
  }

  /** No other two codes give one key. */
  lemma KeysDistinct(c: Code, d: Code)
    requires Known(c) && Known(d)
    ensures Keycode(c) == Keycode(d) <==> c == d || Twins(c, d)
  {
    hide PlainKey, ExtendedKey, PlainScan, ExtendedScan;
    CodeRow(c);
    CodeRow(d);
    NoScan();
    TwinKeys();
  }

  lemma CodeRow(c: Code)
    requires Known(c)
    ensures c.Make? || c.Break? ==>
      PlainKey(c.b) < 0x80 && PlainScan(PlainKey(c.b)) == (if c.b == 0x7B then 0x79 else c.b) != 0
    ensures c.ExtendedMake? || c.ExtendedBreak? ==>
      && ExtendedKey(c.b) < 0x80 && PlainScan(ExtendedKey(c.b)) == 0
      && ExtendedScan(ExtendedKey(c.b)) == (if c.b == 0x27 then 0x1F else c.b) != 0
  {
    hide PlainKey, ExtendedKey, PlainScan, ExtendedScan;
    if c.Make? || c.Break? || c.ExtendedMake? || c.ExtendedBreak? {
      TableBytes(c.b);
      PlainRow(c.b);
      ExtendedRow(c.b);
    }
  }

  lemma NoScan()
    ensures PlainScan(PRINTSCREEN) == PlainScan(PAUSE) == ExtendedScan(PRINTSCREEN) == ExtendedScan(PAUSE) == 0
  {
  }

  lemma KnownFramed(c: Code)
    requires Known(c)
    ensures Framed(Bytes(c))
  {
    match c
    case Make(b) => TableBytes(b);
    case Break(b) =>
      TableBytes(b);
      assert Bytes(c)[..1] == [0xF0];
    case ExtendedMake(b) =>
      TableBytes(b);
      assert Bytes(c)[..1] == [0xE0];
    case ExtendedBreak(b) =>
      TableBytes(b);
      assert Bytes(c)[..1] == [0xE0] && Bytes(c)[..2] == [0xE0, 0xF0];
    case _ =>
  }

  function AllBytes(codes: seq<Code>): seq<seq<byte>> {
    seq(|codes|, i requires 0 <= i < |codes| => Bytes(codes[i]))
  }

  /** Any sequence of table codes, sent as one stream of bytes, is dispatched code by code. */
  lemma KnownCodesRoundTrip(codes: seq<Code>)
    requires forall i :: 0 <= i < |codes| ==> Known(codes[i])
    ensures FeedAll(Stream([], []), Flat(AllBytes(codes))) == Stream(AllBytes(codes), [])
  {
    forall i | 0 <= i < |codes|
      ensures Framed(AllBytes(codes)[i])
    {
      KnownFramed(codes[i]);
    }
    FramingUndoesEncoding(Stream([], []), AllBytes(codes));
    assert [] + AllBytes(codes) == AllBytes(codes);
  }

  // ---------------------------------------------------------------------------------------------
  // Translation.

  /** The bytes of a code as one number, the first in the highest place. */
  function Render(s: seq<byte>): nat {
    if s == [] then 0 else Render(s[..|s| - 1]) * 0x100 + s[|s| - 1]
  }

  function Release(key: nat): nat {
    if key == 0 then 0 else 0x80 + key
  }

  /** ps2_translate_keycode. */
  function Translate(rendered: nat): nat {
    if rendered < 0x100 then PlainKey(rendered)
    else if rendered / 0x100 == 0xE0 then ExtendedKey(rendered % 0x100)
    else if rendered / 0x100 == 0xF0 then Release(PlainKey(rendered % 0x100))
    else if rendered / 0x100 == 0xE0F0 then Release(ExtendedKey(rendered % 0x100))
    else if rendered == 0xE012E07C then PRINTSCREEN
    else if rendered == 0xE0F07CE0F012 then Release(PRINTSCREEN)
    else if rendered == 0xE11477E1F014F077 then PAUSE
    else 0
  }

  lemma {:induction false} RenderPush(s: seq<byte>, b: byte)
    ensures Render(s + [b]) == Render(s) * 0x100 + b
  {
    assert (s + [b])[..|s|] == s;
  }

  lemma {:induction false} RenderPositive(s: seq<byte>)
    requires s != [] && s[0] != 0
    ensures Render(s) > 0
  {
    if |s| > 1 {
      RenderPositive(s[..|s| - 1]);
    }
  }

  /** Codes that do not start with a zero byte are told apart by their numbers. */
  lemma {:induction false} RenderInjective(a: seq<byte>, b: seq<byte>)
    requires a != [] && b != [] && a[0] != 0 && b[0] != 0 && Render(a) == Render(b)
    ensures a == b
    decreases |a|
  {
    var a', b' := a[..|a| - 1], b[..|b| - 1];
    assert Render(a') == Render(b') && a[|a| - 1] == b[|b| - 1];
    if |a| > 1 && |b| > 1 {
      RenderInjective(a', b');
      assert a == a' + [a[|a| - 1]] && b == b' + [b[|b| - 1]];
    } else if |a| > 1 {
      RenderPositive(a');
    } else if |b| > 1 {
      RenderPositive(b');
    }
  }

  lemma RenderCode(c: Code)
    ensures Render(Bytes(c)) ==
      match c
      case Make(b) => b
      case Break(b) => 0xF000 + b
      case ExtendedMake(b) => 0xE000 + b
      case ExtendedBreak(b) => 0xE0F000 + b
      case PrintMake => 0xE012E07C
      case PrintBreak => 0xE0F07CE0F012
      case Pause => 0xE11477E1F014F077
  {
    hide Render;
    var s := Bytes(c);
    RenderDigits(s, |s|);
    assert s[..|s|] == s;
    assert Digits(s, 1) == s[0];
    match c
    case PrintMake =>
      assert Digits(s, 3) == 0xE012E0;
    case PrintBreak =>
      assert Digits(s, 3) == 0xE0F07C;
      assert Digits(s, 5) == 0xE0F07CE0F0;
    case Pause =>
      assert Digits(s, 3) == 0xE11477;
      assert Digits(s, 5) == 0xE11477E1F0;
      assert Digits(s, 7) == 0xE11477E1F014F0;
    case Make(_) =>
    case _ =>
      assert Digits(s, 2) == Digits(s, 1) * 0x100 + s[1];
  }

  function Digits(s: seq<byte>, k: nat): nat
    requires k <= |s|
  {
    if k == 0 then 0 else Digits(s, k - 1) * 0x100 + s[k - 1]
  }

  lemma {:induction false} RenderDigits(s: seq<byte>, k: nat)
    requires k <= |s|
    ensures Render(s[..k]) == Digits(s, k)
  {
    if k > 0 {
      assert s[..k][..k - 1] == s[..k - 1];
      RenderDigits(s, k - 1);
    }
  }

  lemma TranslateKnown(c: Code)
    requires Known(c)
    ensures Translate(Render(Bytes(c))) == Keycode(c) != 0
  {
    hide PlainKey, ExtendedKey;
    RenderCode(c);
    if c.Make? || c.Break? || c.ExtendedMake? || c.ExtendedBreak? {
      TableBytes(c.b);
    }
  }

  /** The code that a number with a key stands for. */
  function Decoded(rendered: nat): Code
    requires Translate(rendered) != 0
  {
    if rendered < 0x100 then Make(rendered)
    else if rendered / 0x100 == 0xE0 then ExtendedMake(rendered % 0x100)
    else if rendered / 0x100 == 0xF0 then Break(rendered % 0x100)
    else if rendered / 0x100 == 0xE0F0 then ExtendedBreak(rendered % 0x100)
    else if rendered == 0xE012E07C then PrintMake
    else if rendered == 0xE0F07CE0F012 then PrintBreak
    else Pause
  }

  /** The table gives a key exactly for the bytes of the codes it lists. */
  lemma TranslateIsTable(s: seq<byte>)
    requires s != [] && s[0] != 0
    ensures Translate(Render(s)) != 0 <==> exists c :: Known(c) && Bytes(c) == s
  {
    hide PlainKey, ExtendedKey;
    if Translate(Render(s)) != 0 {
      var c := Decoded(Render(s));
      assert Known(c);
      RenderCode(c);
      if c.Make? {
        TableBytes(c.b);
      }
      RenderInjective(Bytes(c), s);
    }
    if c :| Known(c) && Bytes(c) == s {
      TranslateKnown(c);
    }
  }

  // ---------------------------------------------------------------------------------------------
  // The interrupt handler.

  const SCANCODES_SUPPORTED := 2

  function Keycodes(codes: seq<seq<byte>>): seq<nat> {
    seq(|codes|, i requires 0 <= i < |codes| => Translate(Render(codes[i])))
  }

  class Keyboard {
    const buffer: array<byte>         // __kbd_scancode_buffer
    var pos: nat                      // __kbd_scancode_buffer_pos
    var scanSet: nat
    var masked: bool
    var commanding: bool
    var registered: seq<nat>          // the arguments of the hid_register_keystroke calls so far
    var portReads: nat                // how often the data port has been read
    var acknowledged: nat             // the apic_local_send_eoi calls so far
    ghost var stream: Stream          // what the bytes taken so far amount to

    constructor ()
      ensures Valid() && fresh(buffer) && stream == Stream([], [])
      ensures scanSet == SCANCODES_SUPPORTED && !masked && !commanding
    {
      buffer := new byte[8](_ => 0);
      pos, scanSet, masked, commanding := 0, SCANCODES_SUPPORTED, false, false;
      registered, portReads, acknowledged, stream := [], 0, 0, Stream([], []);
    }

    ghost predicate Valid()
      reads this, buffer
    {
      && buffer.Length == 8 && pos <= 7
      && stream.pending == buffer[..pos]
      && registered == Keycodes(stream.codes)
    }

    /** ps2_kbd_handle_scancode, up to the call of hid_register_keystroke. */
    method HandleScancode(bytes: nat) returns (rendered: nat)
      requires bytes <= buffer.Length
      ensures rendered == Render(buffer[..bytes])
    {
      rendered := 0;
      for i := 0 to bytes
        invariant rendered == Render(buffer[..i])
      {
        assert buffer[..i + 1] == buffer[..i] + [buffer[i]];
        RenderPush(buffer[..i], buffer[i]);
        rendered := rendered * 0x100;
        rendered := rendered + buffer[i];
      }
    }

    /** __ps2_kbd_clear_scan_buffer. */
    method ClearScanBuffer()
      modifies buffer, this`pos
      ensures pos == 0 && forall i :: 0 <= i < buffer.Length ==> buffer[i] == 0
    {
      for i := 0 to buffer.Length
        invariant forall j :: 0 <= j < i ==> buffer[j] == 0
      {
        buffer[i] := 0;
      }
      pos := 0;
    }

    /** __kbd_ps2_irq_handler with `data` in the data port.  A byte that arrives while the keyboard
        is masked or being commanded is dropped and masks the keyboard.  Every interrupt is
        acknowledged once, and the data port is read once, unless a command is waiting for it. */
    method Irq(data: byte)
      requires Valid()
      modifies this`pos, this`masked, this`registered, this`portReads, this`acknowledged, this`stream, buffer
      ensures Valid()
      ensures acknowledged == old(acknowledged) + 1
      ensures portReads == old(portReads) + if commanding then 0 else 1
      ensures var accepts := old(scanSet == SCANCODES_SUPPORTED && !masked && !commanding);
        && masked == !accepts
        && stream == if accepts then Feed(old(stream), data) else old(stream)
    {
      if !(scanSet == SCANCODES_SUPPORTED && !masked) || commanding {
        masked := true;
        if !commanding {
          portReads := portReads + 1;
        }
        acknowledged := acknowledged + 1;
        return;
      }
      buffer[pos] := data;
      portReads := portReads + 1;
      pos := pos + 1;
      assert buffer[..pos] == stream.pending + [data];
      assert pos == 8 ==> !NeedsNextByte(buffer[..pos]);
      stream := Feed(stream, data);
      if !NeedsNextByte(buffer[..pos]) {
        var rendered := HandleScancode(pos);
        registered := registered + [Translate(rendered)];
        ClearScanBuffer();
      }
      acknowledged := acknowledged + 1;
    }
  }
}
