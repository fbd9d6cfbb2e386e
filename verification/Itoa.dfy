/** Integer rendering: utoa and itoa of itoa.c, and __int_str of printf.c. */
module Itoa {

  const WORDS := 0x1_0000_0000_0000_0000    // uint64_t has 64 bits
  const HALF := 0x8000_0000_0000_0000

  // ---------------------------------------------------------------------------------------------
  // Digit strings.

  type Alphabet = seq<char>

  function Lower(): (a: Alphabet)
    ensures |a| == 16
  {
    "0123456789abcdef"
  }

  /** The digits of `v`, the highest first. */
  function Digits(alphabet: Alphabet, v: nat, base: nat): (s: string)
    requires 2 <= base <= |alphabet|
    ensures |s| > 0
    decreases v
  {
    if v < base then [alphabet[v]]
    else
      Remainder(v, base, v / base, v % base);
      QuotientSmaller(v, base, v / base, v % base);
      Digits(alphabet, v / base, base) + [alphabet[v % base]]
  }

  lemma Remainder(v: nat, base: nat, q: nat, r: nat)
    requires base > 0 && q == v / base && r == v % base
    ensures q * base + r == v && r < base
  {
  }

  lemma {:induction false} TimesBase(q: nat, base: nat)
    requires base >= 2
    ensures q * base >= 2 * q
    decreases base
  {
    if base > 2 {
      TimesBase(q, base - 1);
      assert q * base == q * (base - 1) + q;
    }
  }

  lemma QuotientSmaller(v: nat, base: nat, q: nat, r: nat)
    requires 2 <= base <= v && q * base + r == v && r < base
    ensures 0 < q < v
  {
    TimesBase(q, base);
  }

  function Value(c: char): nat {
    if '0' <= c <= '9' then c as nat - '0' as nat
    else if 'a' <= c <= 'f' then c as nat - 'a' as nat + 10
    else 0
  }

  function Parse(s: string, base: nat): nat {
    if s == [] then 0 else Parse(s[..|s| - 1], base) * base + Value(s[|s| - 1])
  }

  function ParseSigned(s: string, base: nat): int {
    if s != [] && s[0] == '-' then 0 - Parse(s[1..], base) else Parse(s, base)
  }

  lemma LowerValue(d: nat)
    requires d < 16
    ensures Value(Lower()[d]) == d && Lower()[d] != '-' && Lower()[d] != (0 as char) && (Lower()[d] == '0' <==> d == 0)
  {
  }

  /** Reading a rendered number gives it back. */
  lemma {:induction false} ParseDigits(v: nat, base: nat)
    requires 2 <= base <= 16
    ensures Parse(Digits(Lower(), v, base), base) == v
    decreases v
  {
    hide Lower, Value, Parse, Digits;
    var q, r := v / base, v % base;
    DigitsStep(Lower(), v, base);
    Remainder(v, base, q, r);
    LowerValue(r);
    if q > 0 {
      ParseDigits(q, base);
      ParsePush(Digits(Lower(), q, base), Lower()[r], v, base, q, r);
    } else {
      ParseOne(Lower()[r], base);
    }
  }

  lemma ParseOne(c: char, base: nat)
    ensures Parse([c], base) == Value(c)
  {
    assert [c][..0] == [];
  }

  lemma ParsePush(s: string, c: char, v: nat, base: nat, q: nat, r: nat)
    requires q * base + r == v && Parse(s, base) == q && Value(c) == r
    ensures Parse(s + [c], base) == v
  {
    assert (s + [c])[..|s|] == s;
  }

  /** No leading zero, no NUL and no sign among the digits. */
  lemma {:induction false} DigitsClean(v: nat, base: nat)
    requires 2 <= base <= 16
    ensures v > 0 ==> Digits(Lower(), v, base)[0] != '0'
    ensures forall c :: c in Digits(Lower(), v, base) ==> c != (0 as char) && c != '-'
    decreases v
  {
    hide Lower, Value;
    var q, r := v / base, v % base;
    Remainder(v, base, q, r);
    LowerValue(r);
    if v >= base {
      QuotientSmaller(v, base, q, r);
      DigitsClean(q, base);
    } else {
      LowerValue(v);
    }
  }

  // ---------------------------------------------------------------------------------------------
  // The table of digit counts.

  /** BASE_MAX_DIGIT_MAP. */
  const BASE_MAX_DIGIT_MAP: seq<nat> := [0, 0, 64, 41, 32, 28, 25, 23, 22, 21, 20, 19, 18, 18, 17, 17, 16]

  function Power(base: nat, n: nat): nat {
    if n == 0 then 1 else base * Power(base, n - 1)
  }

  lemma {:induction false} PowerTable2(base: nat)
    requires 2 <= base <= 2
    ensures Power(base, BASE_MAX_DIGIT_MAP[base] - 1) < WORDS <= Power(base, BASE_MAX_DIGIT_MAP[base])
  {
    match base
    case 2 =>
      assert Power(2, 8) == 0x100;
      assert Power(2, 16) == 0x10000;
      assert Power(2, 24) == 0x1000000;
      assert Power(2, 32) == 0x100000000;
      assert Power(2, 40) == 0x10000000000;
      assert Power(2, 48) == 0x1000000000000;
      assert Power(2, 56) == 0x100000000000000;
      assert Power(2, 63) == 0x8000000000000000;
  }

  lemma {:induction false} PowerTable3(base: nat)
    requires 3 <= base <= 3
    ensures Power(base, BASE_MAX_DIGIT_MAP[base] - 1) < WORDS <= Power(base, BASE_MAX_DIGIT_MAP[base])
  {
    match base
    case 3 =>
      assert Power(3, 8) == 0x19A1;
      assert Power(3, 16) == 0x290D741;
      assert Power(3, 24) == 0x41C21CB8E1;
      assert Power(3, 32) == 0x6954FE21E3E81;
      assert Power(3, 40) == 0xA8B8B452291FE821;
  }

  lemma {:induction false} PowerTable4To5(base: nat)
    requires 4 <= base <= 5
    ensures Power(base, BASE_MAX_DIGIT_MAP[base] - 1) < WORDS <= Power(base, BASE_MAX_DIGIT_MAP[base])
  {
    match base
    case 4 =>
      assert Power(4, 8) == 0x10000;
      assert Power(4, 16) == 0x100000000;
      assert Power(4, 24) == 0x1000000000000;
      assert Power(4, 31) == 0x4000000000000000;
    case 5 =>
      assert Power(5, 8) == 0x5F5E1;
      assert Power(5, 16) == 0x2386F26FC1;
      assert Power(5, 24) == 0xD3C21BCECCEDA1;
      assert Power(5, 27) == 0x6765C793FA10079D;
  }

  lemma {:induction false} PowerTable6To7(base: nat)
    requires 6 <= base <= 7
    ensures Power(base, BASE_MAX_DIGIT_MAP[base] - 1) < WORDS <= Power(base, BASE_MAX_DIGIT_MAP[base])
  {
    match base
    case 6 =>
      assert Power(6, 8) == 0x19A100;
      assert Power(6, 16) == 0x290D7410000;
      assert Power(6, 24) == 0x41C21CB8E1000000;
    case 7 =>
      assert Power(7, 8) == 0x57F6C1;
      assert Power(7, 16) == 0x1E39A5057D81;
      assert Power(7, 22) == 0x3642798750226111;
  }

  lemma {:induction false} PowerTable8To9(base: nat)
    requires 8 <= base <= 9
    ensures Power(base, BASE_MAX_DIGIT_MAP[base] - 1) < WORDS <= Power(base, BASE_MAX_DIGIT_MAP[base])
  {
    match base
    case 8 =>
      assert Power(8, 8) == 0x1000000;
      assert Power(8, 16) == 0x1000000000000;
      assert Power(8, 21) == 0x8000000000000000;
    case 9 =>
      assert Power(9, 8) == 0x290D741;
      assert Power(9, 16) == 0x6954FE21E3E81;
      assert Power(9, 20) == 0xA8B8B452291FE821;
  }

  lemma {:induction false} PowerTable10To12(base: nat)
    requires 10 <= base <= 12
    ensures Power(base, BASE_MAX_DIGIT_MAP[base] - 1) < WORDS <= Power(base, BASE_MAX_DIGIT_MAP[base])
  {
    match base
    case 10 =>
      assert Power(10, 8) == 0x5F5E100;
      assert Power(10, 16) == 0x2386F26FC10000;
      assert Power(10, 19) == 0x8AC7230489E80000;
    case 11 =>
      assert Power(11, 8) == 0xCC6DB61;
      assert Power(11, 16) == 0xA33F092E0B1AC1;
      assert Power(11, 18) == 0x4D28CB56C33FA539;
    case 12 =>
      assert Power(12, 8) == 0x19A10000;
      assert Power(12, 16) == 0x290D74100000000;
      assert Power(12, 17) == 0x1ECA170C00000000;
  }

  lemma {:induction false} PowerTable13To16(base: nat)
    requires 13 <= base <= 16
    ensures Power(base, BASE_MAX_DIGIT_MAP[base] - 1) < WORDS <= Power(base, BASE_MAX_DIGIT_MAP[base])
  {
    match base
    case 13 =>
      assert Power(13, 8) == 0x309F1021;
      assert Power(13, 16) == 0x93C08E16A022441;
      assert Power(13, 17) == 0x780C7372621BD74D;
    case 14 =>
      assert Power(14, 8) == 0x57F6C100;
      assert Power(14, 16) == 0x1E39A5057D810000;
    case 15 =>
      assert Power(15, 8) == 0x98C29B81;
      assert Power(15, 16) == 0x5B27AC993DF97701;
    case 16 =>
      assert Power(16, 8) == 0x100000000;
      assert Power(16, 15) == 0x1000000000000000;
  }

  lemma PowerTable(base: nat)
    requires 2 <= base <= 16
    ensures Power(base, BASE_MAX_DIGIT_MAP[base] - 1) < WORDS <= Power(base, BASE_MAX_DIGIT_MAP[base])
  {
    if base <= 2 {
      PowerTable2(base);
    } else if base <= 3 {
      PowerTable3(base);
    } else if base <= 5 {
      PowerTable4To5(base);
    } else if base <= 7 {
      PowerTable6To7(base);
    } else if base <= 9 {
      PowerTable8To9(base);
    } else if base <= 12 {
      PowerTable10To12(base);
    } else {
      PowerTable13To16(base);
    }
  }

  lemma {:induction false} DigitsBounded(v: nat, base: nat, n: nat)
    requires 2 <= base <= 16 && v < Power(base, n) && n > 0
    ensures |Digits(Lower(), v, base)| <= n
    decreases n
  {
    if v >= base {
      assert n > 1;
      QuotientBelow(v, base, Power(base, n - 1));
      DigitsBounded(v / base, base, n - 1);
    }
  }

  lemma {:induction false} DigitsAtLeast(v: nat, base: nat, n: nat)
    requires 2 <= base <= 16 && v >= Power(base, n)
    ensures |Digits(Lower(), v, base)| > n
    decreases n
  {
    if n > 0 {
      PowerPositive(base, n - 1);
      MulMonotone(base, 1, Power(base, n - 1));
      QuotientAbove(v, base, Power(base, n - 1));
      DigitsAtLeast(v / base, base, n - 1);
    }
  }

  lemma {:induction false} PowerPositive(base: nat, n: nat)
    requires base > 0
    ensures Power(base, n) > 0
  {
    if n > 0 {
      PowerPositive(base, n - 1);
      MulMonotone(base, 1, Power(base, n - 1));
    }
  }

  lemma QuotientAbove(v: nat, base: nat, p: nat)
    requires base > 0 && v >= base * p
    ensures v / base >= p
  {
    if v / base < p {
      Remainder(v, base, v / base, v % base);
      MulMonotone(base, v / base + 1, p);
    }
  }

  /** How many digits a number has, read off the number. */
  lemma DigitCount(v: nat, base: nat, n: nat)
    requires 2 <= base <= 16 && n > 0
    ensures |Digits(Lower(), v, base)| <= n <==> v < Power(base, n)
  {
    if v < Power(base, n) {
      DigitsBounded(v, base, n);
    } else {
      DigitsAtLeast(v, base, n);
    }
  }

  lemma QuotientBelow(v: nat, base: nat, p: nat)
    requires base > 0 && v < base * p
    ensures v / base < p
  {
    if v / base >= p {
      MulMonotone(base, p, v / base);
      assert false;
    }
  }

  lemma MulMonotone(base: nat, p: nat, q: nat)
    requires p <= q
    ensures base * p <= base * q
  {
  }

  /** The table has room for the digits of every 64-bit number. */
  lemma TableSuffices(v: nat, base: nat)
    requires v < WORDS && 2 <= base <= 16
    ensures |Digits(Lower(), v, base)| <= BASE_MAX_DIGIT_MAP[base]
  {
    PowerTable(base);
    DigitsBounded(v, base, BASE_MAX_DIGIT_MAP[base]);
  }

  /** And no more than that: the largest one has as many digits as the table says. */
  lemma TableTight(base: nat)
    requires 2 <= base <= 16
    ensures |Digits(Lower(), WORDS - 1, base)| == BASE_MAX_DIGIT_MAP[base]
  {
    PowerTable(base);
    TableSuffices(WORDS - 1, base);
    DigitsAtLeast(WORDS - 1, base, BASE_MAX_DIGIT_MAP[base] - 1);
  }

  // ---------------------------------------------------------------------------------------------
  // itoa.c.

  const NUL: char := 0 as char

  /** The loop that counts digits: `max` less the number of digits, plus one. */
  method CountDigits(value: nat, base: nat, max: nat) returns (offset: nat)
    requires 2 <= base <= 16 && value > 0 && |Digits(Lower(), value, base)| <= max
    ensures offset + |Digits(Lower(), value, base)| == max + 1
  {
    hide Lower, Digits;
    var tmp := value;
    offset := max;
    while offset > 0
      invariant tmp > 0 && |Digits(Lower(), tmp, base)| + (max - offset) == |Digits(Lower(), value, base)|
      invariant offset <= max
    {
      DigitsStep(Lower(), tmp, base);
      tmp := tmp / base;
      if tmp == 0 {
        break;
      }
      offset := offset - 1;
    }
  }

  /** memset(str, 0, n). */
  method Clear(str: array<char>, n: nat)
    requires n <= str.Length
    modifies str
    ensures forall i :: 0 <= i < str.Length ==> str[i] == if i < n then NUL else old(str[i])
  {
    for i := 0 to n
      invariant forall j :: 0 <= j < str.Length ==> str[j] == if j < i then NUL else old(str[j])
    {
      str[i] := NUL;
    }
  }

  /** Splitting off the lowest digit. */
  lemma DigitsStep(alphabet: Alphabet, v: nat, base: nat)
    requires 2 <= base <= |alphabet|
    ensures v % base < base
    ensures v / base == 0 ==> Digits(alphabet, v, base) == [alphabet[v % base]]
    ensures v / base > 0 ==> Digits(alphabet, v, base) == Digits(alphabet, v / base, base) + [alphabet[v % base]]
    ensures v / base < v || v == 0
  {
    var q, r := v / base, v % base;
    Remainder(v, base, q, r);
    SmallQuotient(v, base, q, r);
    if q == 0 {
      assert r == v;
    } else {
      QuotientSmaller(v, base, q, r);
    }
  }

  lemma SmallQuotient(v: nat, base: nat, q: nat, r: nat)
    requires q * base + r == v && r < base
    ensures q == 0 <==> v < base
    ensures q == 0 ==> r == v
  {
    if q > 0 {
      MulMonotone(base, 1, q);
    }
  }

  /** The loop that writes digits from index `last` down to index `low`. */
  method WriteDigits(str: array<char>, value: nat, base: nat, low: nat, last: nat)
    requires 2 <= base <= 16 && value > 0 && last < str.Length
    requires low + |Digits(Lower(), value, base)| == last + 1
    modifies str
    ensures str[low..last + 1] == Digits(Lower(), value, base)
    ensures forall j :: 0 <= j < str.Length && !(low <= j <= last) ==> str[j] == old(str[j])
  {
    hide Lower, Digits;
    var tmp, i := value, last;
    while i >= low
      invariant tmp > 0 && low + |Digits(Lower(), tmp, base)| == i + 1 && i <= last
      invariant Digits(Lower(), value, base) == Digits(Lower(), tmp, base) + str[i + 1..last + 1]
      invariant forall j :: 0 <= j < str.Length && !(i < j <= last) ==> str[j] == old(str[j])
      decreases i
    {
      DigitsStep(Lower(), tmp, base);
      ghost var written := str[i + 1..last + 1];
      var character := Lower()[tmp % base];
      tmp := tmp / base;
      str[i] := character;
      assert str[i..last + 1] == [character] + written;
      if tmp == 0 {
        break;
      }
      i := i - 1;
    }
  }

  /** `str` holds the digits of `value` from index `at` on. */
  ghost predicate Holds(str: array<char>, at: nat, value: nat, base: nat)
    requires 2 <= base <= 16
    reads str
  {
    var d := Digits(Lower(), value, base);
    at + |d| <= str.Length && str[at..at + |d|] == d
  }

  /** utoa, for every 64-bit value: the digits, and then NUL up to the end of the cleared part. */
  method Utoa(value: nat, str: array<char>, base: nat) returns (ok: bool)
    requires value < WORDS
    requires 2 <= base <= 16 ==> str.Length > BASE_MAX_DIGIT_MAP[base]
    modifies str
    ensures ok <==> 2 <= base <= 16
    ensures !ok ==> str[..] == old(str[..])
    ensures ok ==> Holds(str, 0, value, base)
    ensures ok ==> Parse(str[..|Digits(Lower(), value, base)|], base) == value
    ensures ok ==> |Digits(Lower(), value, base)| <= BASE_MAX_DIGIT_MAP[base]
    ensures ok ==> forall i :: |Digits(Lower(), value, base)| <= i <= BASE_MAX_DIGIT_MAP[base] ==> str[i] == NUL
    ensures ok ==> forall i :: BASE_MAX_DIGIT_MAP[base] < i < str.Length ==> str[i] == old(str[i])
  {
    if base < 2 || base > 16 {
      return false;
    }
    TableSuffices(value, base);
    ParseDigits(value, base);
    hide Lower, Parse;
    var max := BASE_MAX_DIGIT_MAP[base];
    Clear(str, max + 1);
    if value == 0 {
      LowerValue(0);
      str[0] := '0';
      return true;
    }
    var offset := CountDigits(value, base, max);
    WriteDigits(str, value, base, 0, max - offset);
    return true;
  }

  function Magnitude(value: int): nat {
    if value < 0 then -value else value
  }

  /** How many cells itoa writes: a sign when there is one, and the digits. */
  function Written(value: int, base: nat): nat
    requires 2 <= base <= 16
  {
    (if value < 0 then 1 else 0) + |Digits(Lower(), Magnitude(value), base)|
  }

  /** The cell behind the digits is among those that itoa clears. */
  predicate Terminated(value: int, base: nat)
    requires 2 <= base <= 16
  {
    value >= 0 || Magnitude(value) < Power(base, BASE_MAX_DIGIT_MAP[base] - 1)
  }

  lemma WrittenFits(value: int, base: nat)
    requires -HALF < value < HALF && 2 <= base <= 16
    ensures Written(value, base) <= BASE_MAX_DIGIT_MAP[base] + 1
    ensures Written(value, base) <= BASE_MAX_DIGIT_MAP[base] <==> Terminated(value, base)
  {
    TableSuffices(Magnitude(value), base);
    DigitCount(Magnitude(value), base, BASE_MAX_DIGIT_MAP[base] - 1);
  }

  /** How itoa ends: it refuses the base, or negates a value whose negation 64 bits cannot hold. */
  datatype Rendering = Refused | Overflow | Rendered

  lemma ReadsBack(str: array<char>, value: int, base: nat)
    requires 2 <= base <= 16 && Holds(str, if value < 0 then 1 else 0, Magnitude(value), base)
    requires value < 0 ==> str.Length > 0 && str[0] == '-'
    ensures Written(value, base) <= str.Length && ParseSigned(str[..Written(value, base)], base) == value
  {
    hide Lower, Parse, ParseSigned, Digits;
    RoundTrip(value, base);
    var d := Digits(Lower(), Magnitude(value), base);
    assert str[..Written(value, base)] == if value < 0 then ['-'] + d else d;
  }

  /** itoa, for every 64-bit value.  A negative number is `-` and the digits of its magnitude; the cell
      behind them becomes NUL exactly when the magnitude has fewer digits than the table allows. */
  method Itoa(value: int, str: array<char>, base: nat) returns (out: Rendering)
    requires -HALF <= value < HALF
    requires 2 <= base <= 16 ==> str.Length > BASE_MAX_DIGIT_MAP[base]
    modifies str
    ensures out.Refused? <==> base < 2 || base > 16
    ensures out.Refused? ==> str[..] == old(str[..])
    ensures out.Overflow? <==> 2 <= base <= 16 && value == -HALF
    ensures out.Overflow? ==> forall i :: 0 <= i < str.Length ==>
      str[i] == if i <= BASE_MAX_DIGIT_MAP[base] then NUL else old(str[i])
    ensures out.Rendered? && value < 0 ==> str[0] == '-'
    ensures out.Rendered? ==> Holds(str, if value < 0 then 1 else 0, Magnitude(value), base)
    ensures out.Rendered? ==> ParseSigned(str[..Written(value, base)], base) == value
    ensures out.Rendered? ==> forall i :: Written(value, base) <= i < str.Length ==>
      str[i] == if i <= BASE_MAX_DIGIT_MAP[base] then NUL else old(str[i])
    ensures out.Rendered? && Written(value, base) < str.Length ==>
      str[Written(value, base)] == if Terminated(value, base) then NUL else old(str[Written(value, base)])
  {
    if base < 2 || base > 16 {
      return Refused;
    }
    if value > -HALF {
      WrittenFits(value, base);
    }
    var max := BASE_MAX_DIGIT_MAP[base];
    Clear(str, max + 1);
    if value == 0 {
      str[0] := '0';
      ReadsBack(str, value, base);
      return Rendered;
    }
    if value == -HALF {
      return Overflow;
    }
    var v, high := Magnitude(value), max;
    TableSuffices(v, base);
    hide Lower;
    if value < 0 {
      high := high + 1;
    }
    var offset := CountDigits(v, base, max);
    if value < 0 {
      WriteDigits(str, v, base, 1, high - offset);
      str[0] := '-';
    } else {
      WriteDigits(str, v, base, 0, high - offset);
    }
    ReadsBack(str, value, base);
    return Rendered;
  }

  /** A value behind whose sixteen digits itoa leaves no NUL. */
  lemma LowestHasNoNul()
    ensures !Terminated(-(HALF - 1), 16) && Written(-(HALF - 1), 16) == BASE_MAX_DIGIT_MAP[16] + 1
  {
    assert Power(16, 8) == 0x1_0000_0000;
    assert Power(16, 15) == 0x1000_0000_0000_0000;
    WrittenFits(-(HALF - 1), 16);
  }

  /** Reading what utoa or itoa wrote gives the value back. */
  lemma RoundTrip(value: int, base: nat)
    requires 2 <= base <= 16
    ensures var d := Digits(Lower(), Magnitude(value), base);
      ParseSigned(if value < 0 then ['-'] + d else d, base) == value
  {
    hide Lower, Parse, Digits;
    ParseDigits(Magnitude(value), base);
    DigitsClean(Magnitude(value), base);
    var d := Digits(Lower(), Magnitude(value), base);
    assert d[0] in d && (['-'] + d)[1..] == d;
  }

  // ---------------------------------------------------------------------------------------------
  // __int_str of printf.c, without padding.

  /** The digits that __int_str uses; 17 asks for lower-case base 16, and the rest of the 32-byte
      array is zero. */
  function Symbols(base: nat): (a: Alphabet)
    ensures |a| == 32
  {
    "0123456789" + (if base == 16 then "ABCDEF" else if base == 17 then "abcdef" else Zeros(6)) + Zeros(16)
  }

  function Zeros(n: nat): string {
    seq(n, _ => NUL)
  }

  function RealBase(base: nat): nat {
    if base == 17 then 16 else base
  }

  function Sign(i: int, plus: bool, space: bool): string {
    if i < 0 then "-" else if plus then "+" else if space then " " else ""
  }

  /** The do-while loop that finds the end of the digits. */
  method FindEnd(value: nat, base: nat, ghost alphabet: Alphabet) returns (n: nat)
    requires 2 <= base <= |alphabet|
    ensures n == |Digits(alphabet, value, base)|
  {
    hide Digits;
    n := 0;
    var shifter: nat := value;
    while true
      invariant n + |Digits(alphabet, shifter, base)| == |Digits(alphabet, value, base)|
      decreases shifter
    {
      DigitsStep(alphabet, shifter, base);
      n := n + 1;
      shifter := shifter / base;
      if shifter == 0 {
        break;
      }
    }
  }

  /** The do-while loop that writes the digits backwards from `end`. */
  method WriteBackwards(b: array<char>, value: nat, base: nat, alphabet: Alphabet, end: nat)
    requires 2 <= base <= |alphabet| && |Digits(alphabet, value, base)| <= end <= b.Length
    modifies b
    ensures b[end - |Digits(alphabet, value, base)|..end] == Digits(alphabet, value, base)
    ensures forall j :: 0 <= j < b.Length && !(end - |Digits(alphabet, value, base)| <= j < end) ==> b[j] == old(b[j])
  {
    hide Digits;
    var i: nat, p: int := value, end;
    ghost var n := |Digits(alphabet, value, base)|;
    while true
      invariant p - |Digits(alphabet, i, base)| == end - n && p <= end
      invariant Digits(alphabet, value, base) == Digits(alphabet, i, base) + b[p..end]
      invariant forall j :: 0 <= j < b.Length && !(p <= j < end) ==> b[j] == old(b[j])
      decreases i
    {
      DigitsStep(alphabet, i, base);
      ghost var written := b[p..end];
      p := p - 1;
      b[p] := alphabet[i % base];
      assert b[p..end] == [alphabet[i % base]] + written;
      i := i / base;
      if i == 0 {
        break;
      }
    }
  }

  /** __int_str when no padding is asked for: the sign, the digits, and a NUL.  False for the most negative
      value, whose negation overflows when the sign has been written. */
  method IntStr(i: int, b: array<char>, base: nat, plus: bool, space: bool) returns (ok: bool, end: nat)
    requires -HALF <= i < HALF && 2 <= base <= 17
    requires |Digits(Symbols(base), Magnitude(i), RealBase(base))| + 2 <= b.Length
    modifies b
    ensures ok <==> i != -HALF
    ensures !ok ==> b[..] == old(b[..])[0 := '-']
    ensures ok ==> end < b.Length && b[end] == NUL
    ensures ok ==> b[..end] == Sign(i, plus, space) + Digits(Symbols(base), Magnitude(i), RealBase(base))
    ensures ok ==> var radix := if base == 17 then 16 else base;
      ReadingSigned(b[..end], radix, base == 16) == i <==> Digitable(Magnitude(i), base)
    ensures ok ==> (b[0] == '-' <==> i < 0)
    ensures ok ==> (b[0] == '+' <==> i >= 0 && plus)
    ensures ok ==> (b[0] == ' ' <==> i >= 0 && !plus && space)
  {
    hide Symbols, Digits, ReadingSigned, Digitable;
    var p := 0;
    if i < 0 {
      b[p] := '-';
      p := p + 1;
      if i == -HALF {
        return false, p;
      }
    } else if plus {
      b[p] := '+';
      p := p + 1;
    } else if !plus && space {
      b[p] := ' ';
      p := p + 1;
    }
    assert b[..p] == Sign(i, plus, space);
    var n := FindEnd(Magnitude(i), RealBase(base), Symbols(base));
    end := p + n;
    b[end] := NUL;
    assert b[..p] == Sign(i, plus, space);
    ghost var sign := b[..p];
    WriteBackwards(b, Magnitude(i), RealBase(base), Symbols(base), end);
    assert b[..p] == sign && b[..end] == b[..p] + b[p..end];
    ReadingBack(i, base, sign, b[..end]);
    ReadingDigits(Magnitude(i), base);
    assert b[0] == b[..end][0];
    ok := true;
  }

  /** Every digit is a decimal one. */
  predicate Decimal(v: nat, base: nat)
    requires base >= 2
    decreases v
  {
    if v < base then v < 10
    else
      Remainder(v, base, v / base, v % base);
      QuotientSmaller(v, base, v / base, v % base);
      v % base < 10 && Decimal(v / base, base)
  }

  /** A digit as a reader of upper-case or of lower-case digits takes it; 0 when it is none. */
  function Symbol(c: char, upper: bool): nat {
    if '0' <= c <= '9' then c as nat - '0' as nat
    else if upper && 'A' <= c <= 'F' then c as nat - 'A' as nat + 10
    else if !upper && 'a' <= c <= 'f' then c as nat - 'a' as nat + 10
    else 0
  }

  function Reading(s: string, base: nat, upper: bool): nat {
    if s == [] then 0 else Reading(s[..|s| - 1], base, upper) * base + Symbol(s[|s| - 1], upper)
  }

  /** A leading minus sign is read, and a leading plus sign or space skipped. */
  function ReadingSigned(s: string, base: nat, upper: bool): int {
    if s != [] && s[0] == '-' then 0 - Reading(s[1..], base, upper)
    else if s != [] && (s[0] == '+' || s[0] == ' ') then Reading(s[1..], base, upper)
    else Reading(s, base, upper)
  }

  /** There is a digit for each value: not for those from ten on in the bases between ten and sixteen. */
  predicate Digitable(v: nat, base: nat)
    requires 2 <= base <= 17
  {
    base <= 10 || base >= 16 || Decimal(v, base)
  }

  lemma SymbolValue(base: nat, d: nat)
    requires 2 <= base <= 17 && d < RealBase(base)
    ensures Symbol(Symbols(base)[d], base == 16) == if base <= 10 || base >= 16 || d < 10 then d else 0
    ensures Symbols(base)[d] != '-' && Symbols(base)[d] != '+' && Symbols(base)[d] != ' '
  {
  }

  lemma ReadingPush(s: string, c: char, base: nat, upper: bool)
    ensures Reading(s + [c], base, upper) == Reading(s, base, upper) * base + Symbol(c, upper)
  {
    assert (s + [c])[..|s|] == s;
  }

  lemma ReadingNone(base: nat, upper: bool)
    ensures Reading([], base, upper) == 0
  {
  }

  /** What __int_str writes reads back exactly when there is a digit for each value; otherwise less does. */
  lemma {:induction false} ReadingDigits(v: nat, base: nat)
    requires 2 <= base <= 17
    ensures var n := Reading(Digits(Symbols(base), v, RealBase(base)), RealBase(base), base == 16);
      n <= v && (n == v <==> Digitable(v, base))
    ensures Digits(Symbols(base), v, RealBase(base))[0] !in {'-', '+', ' '}
    decreases v
  {
    hide Symbols, Symbol, Reading, Digits, Digitable;
    var b := RealBase(base);
    var q, r := LowestDigit(v, base);
    SymbolValue(base, r);
    if q > 0 {
      ReadingDigits(q, base);
      ReadingStep(Digits(Symbols(base), q, b), v, base, q, r);
    } else {
      ReadingOne(Symbols(base)[r], b, base == 16);
    }
  }

  /** Splitting off the lowest digit, once more. */
  lemma LowestDigit(v: nat, base: nat) returns (q: nat, r: nat)
    requires 2 <= base <= 17
    ensures q * RealBase(base) + r == v && r < RealBase(base) && (q < v || (q == 0 && v == 0)) && (q == 0 ==> v == r)
    ensures q == 0 ==> Digits(Symbols(base), v, RealBase(base)) == [Symbols(base)[r]]
    ensures q > 0 ==>
      Digits(Symbols(base), v, RealBase(base)) == Digits(Symbols(base), q, RealBase(base)) + [Symbols(base)[r]]
    ensures Digitable(v, base) <==> (q == 0 || Digitable(q, base)) && (base <= 10 || base >= 16 || r < 10)
  {
    hide Symbols, Digits, Digitable;
    var b := RealBase(base);
    q, r := v / b, v % b;
    DigitsStep(Symbols(base), v, b);
    Remainder(v, b, q, r);
    DigitableStep(v, base, q, r);
  }

  lemma ReadingOne(c: char, base: nat, upper: bool)
    ensures Reading([c], base, upper) == Symbol(c, upper)
  {
    hide Symbol;
    ReadingPush([], c, base, upper);
    ReadingNone(base, upper);
    assert [] + [c] == [c];
  }

  lemma ReadingStep(s: string, v: nat, base: nat, q: nat, r: nat)
    requires 2 <= base <= 17 && r < RealBase(base) && q * RealBase(base) + r == v
    requires var n := Reading(s, RealBase(base), base == 16); n <= q && (n == q <==> Digitable(q, base))
    requires Digitable(v, base) <==> Digitable(q, base) && Symbol(Symbols(base)[r], base == 16) == r
    requires Symbol(Symbols(base)[r], base == 16) <= r
    ensures var n := Reading(s + [Symbols(base)[r]], RealBase(base), base == 16);
      n <= v && (n == v <==> Digitable(v, base))
  {
    hide Symbols, Symbol, Reading, Digitable;
    var b, upper := RealBase(base), base == 16;
    ReadingPush(s, Symbols(base)[r], b, upper);
    BelowWhole(Reading(s, b, upper), Symbol(Symbols(base)[r], upper), b, q, r);
  }

  lemma DigitableStep(v: nat, base: nat, q: nat, r: nat)
    requires 2 <= base <= 17 && q == v / RealBase(base) && r == v % RealBase(base)
    ensures Digitable(v, base) <==> (q == 0 || Digitable(q, base)) && (base <= 10 || base >= 16 || r < 10)
    ensures q == 0 ==> v == r
  {
    hide Decimal;
    DecimalStep(v, RealBase(base), q, r);
  }

  lemma DecimalStep(v: nat, base: nat, q: nat, r: nat)
    requires base >= 2 && q == v / base && r == v % base
    ensures Decimal(v, base) <==> r < 10 && (q == 0 || Decimal(q, base))
    ensures q == 0 ==> v == r
  {
    Remainder(v, base, q, r);
    SmallQuotient(v, base, q, r);
  }

  lemma BelowWhole(q': nat, r': nat, base: nat, q: nat, r: nat)
    requires q' <= q && r' <= r < base
    ensures q' * base + r' <= q * base + r
    ensures q' * base + r' == q * base + r <==> q' == q && r' == r
  {
    MulMonotone(base, q', q);
    if q' < q {
      MulMonotone(base, q' + 1, q);
    }
  }

  /** The same with a sign in front. */
  lemma ReadingBack(i: int, base: nat, sign: string, s: string)
    requires 2 <= base <= 17 && s == sign + Digits(Symbols(base), Magnitude(i), RealBase(base))
    requires if i < 0 then sign == "-" else sign == "" || sign == "+" || sign == " "
    ensures ReadingSigned(s, RealBase(base), base == 16) == i <==> Digitable(Magnitude(i), base)
  {
    hide Reading, Digits, Symbols, Digitable;
    var d := Digits(Symbols(base), Magnitude(i), RealBase(base));
    ReadingDigits(Magnitude(i), base);
    if sign == "" {
      assert s == d;
    } else {
      assert s[1..] == d;
    }
  }

  lemma SymbolsAgree(base: nat, d: nat)
    requires 2 <= base <= 17 && d < RealBase(base)
    ensures Symbols(base)[d] == Lower()[d] <==> base <= 10 || base == 17 || d < 10
  {
  }

  /** Ten in base 16 is A for the one and a for the other. */
  lemma TenDiffers()
    ensures !Decimal(10, 16) && Digits(Symbols(16), 10, 16) == "A" && Digits(Lower(), 10, 16) == "a"
  {
  }

  /** __int_str and utoa write the same digits exactly in the bases up to ten, in lower-case base 16,
      and for numbers whose digits are all decimal. */
  lemma {:induction false} IntStrAgrees(v: nat, base: nat)
    requires 2 <= base <= 17
    ensures Digits(Symbols(base), v, RealBase(base)) == Digits(Lower(), v, RealBase(base))
      <==> base <= 10 || base == 17 || Decimal(v, RealBase(base))
    decreases v
  {
    hide Symbols, Lower;
    var b := RealBase(base);
    var q, r := v / b, v % b;
    Remainder(v, b, q, r);
    SymbolsAgree(base, r);
    if v < b {
      SymbolsAgree(base, v);
    } else {
      QuotientSmaller(v, b, q, r);
      IntStrAgrees(q, base);
      var x, y := Digits(Symbols(base), v, b), Digits(Lower(), v, b);
      assert x[..|x| - 1] == Digits(Symbols(base), q, b) && y[..|y| - 1] == Digits(Lower(), q, b);
      assert x[|x| - 1] == Symbols(base)[r] && y[|y| - 1] == Lower()[r];
    }
  }
}
