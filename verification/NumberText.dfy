/**
 Numbers as text: the digit parsers `strtoull` and `strtoll`, the number path of the formatted
 printer, and the round trip between them.
 */
module NumberText {
  import opened Bits
  import opened Wrappers

  // ----- digits

  predicate IsSpace(c: char) {
    c == ' ' || c == '\t' || c == '\r' || c == '\n'
  }

  function DigitValue(c: char): int {
    if '0' <= c <= '9' then c as int - '0' as int
    else if 'a' <= c <= 'z' then c as int - 'a' as int + 10
    else if 'A' <= c <= 'Z' then c as int - 'A' as int + 10
    else -1
  }

  /** `ctoi`: the value of a digit of the base, or -1. */
  function Digit(c: char, base: int): (r: int)
    ensures r == -1 || 0 <= r < base
  {
    var i := DigitValue(c);
    if 0 <= i < base then i else -1
  }

  /** The digits up to base 36, in small letters and in capitals. */
  function SmallDigit(d: nat): char
    requires d < 36
  {
    "0123456789abcdefghijklmnopqrstuvwxyz"[d]
  }

  function CapitalDigit(d: nat): char
    requires d < 36
  {
    "0123456789ABCDEFGHIJKLMNOPQRSTUVWXYZ"[d]
  }

  lemma SmallCode(d: nat)
    requires d < 36
    ensures SmallDigit(d) as int == if d < 10 then 48 + d else 87 + d
  {
  }

  lemma CapitalCode(d: nat)
    requires d < 36
    ensures CapitalDigit(d) as int == if d < 10 then 48 + d else 55 + d
  {
  }

  /** `ctoi` gives a character the value d exactly when it is the digit d and the base has that digit. */
  lemma DigitIff(c: char, base: int, d: nat)
    ensures Digit(c, base) == d <==> d < base && d < 36 && (c == SmallDigit(d) || c == CapitalDigit(d))
  {
    hide SmallDigit, CapitalDigit;
    if d < 36 {
      SmallCode(d);
      CapitalCode(d);
    }
  }

  ghost predicate Digits(s: string, base: int) {
    forall i :: 0 <= i < |s| ==> Digit(s[i], base) >= 0
  }

  /** The number a string of digits stands for. */
  ghost function Value(s: string, base: int): (r: nat)
    requires Digits(s, base)
    decreases |s|
  {
    if s == [] then 0 else ValueStep(Value(s[..|s| - 1], base), Digit(s[|s| - 1], base), base)
  }

  function ValueStep(a: nat, d: int, base: int): nat
    requires 0 <= d < base
  {
    a * base + d
  }

  // ----- strtoull

  /** The character at p of a terminated string. */
  function CharAt(s: string, p: nat): char {
    if p < |s| then s[p] else '\0'
  }

  /** The first position from p on that holds no white space. */
  ghost function SkipSpaces(s: string, p: nat): (r: nat)
    requires p <= |s|
    ensures p <= r <= |s| && !IsSpace(CharAt(s, r))
    decreases |s| - p
  {
    if IsSpace(CharAt(s, p)) then SkipSpaces(s, p + 1) else p
  }

  /** Where the digits start: after white space, a plus sign and, in base 16, the prefix 0x. */
  ghost function DigitsStart(s: string, base: int): (r: nat)
    ensures r <= |s|
  {
    var p := SkipSpaces(s, 0);
    var q := if CharAt(s, p) == '+' then p + 1 else p;
    if CharAt(s, q) == '0' && CharAt(s, q + 1) == 'x' && base == 16 then q + 2 else q
  }

  /** The end of the longest run of digits from p on. */
  ghost function DigitsEnd(s: string, p: nat, base: int): (r: nat)
    requires p <= |s|
    ensures p <= r <= |s| && Digits(s[p..r], base)
    ensures Digit(CharAt(s, r), base) < 0
    decreases |s| - p
  {
    if Digit(CharAt(s, p), base) < 0 then p
    else
      var r := DigitsEnd(s, p + 1, base);
      assert s[p..r] == [s[p]] + s[p + 1..r];
      r
  }

  /** The result of `strtoull`: the value of the digits, modulo 2^64. */
  ghost function Parse(s: string, base: int): (r: nat)
    ensures r < WORD
  {
    var p := DigitsStart(s, base);
    Value(s[p..DigitsEnd(s, p, base)], base) % WORD
  }

  lemma ModStep(a: nat, d: int, base: int)
    requires 0 <= d < base
    ensures ValueStep(a % WORD, d, base) % WORD == ValueStep(a, d, base) % WORD
  {
    var q, r := a / WORD, a % WORD;
    assert ValueStep(a, d, base) == q * base * WORD + ValueStep(r, d, base) by {
      assert a == q * WORD + r;
      assert (q * WORD + r) * base == q * base * WORD + r * base;
    }
    DropMultiple(q * base, ValueStep(r, d, base));
  }

  lemma DropMultiple(k: int, x: nat)
    ensures (k * WORD + x) % WORD == x % WORD
  {
    assert k * WORD + x == (k + x / WORD) * WORD + x % WORD;
    DivModUnique(k * WORD + x, WORD, k + x / WORD, x % WORD);
  }

  lemma ValueExtend(s: string, p: nat, q: nat, base: int)
    requires p <= q < |s| && Digits(s[p..q], base) && Digit(s[q], base) >= 0
    ensures Digits(s[p..q + 1], base)
    ensures Value(s[p..q + 1], base) == ValueStep(Value(s[p..q], base), Digit(s[q], base), base)
  {
    hide Digit, ValueStep;
    assert s[p..q + 1] == s[p..q] + [s[q]];
  }

  /**
   `strtoull`. The end is reported for an empty string and where a character other than the
   terminator stops the digits; it is left alone when the digits run up to the terminator.
   */
  method StrToULL(s: string, base: int) returns (accum: nat, end: Option<nat>)
    ensures accum == Parse(s, base)
    ensures end == ReportedEnd(s, base)
  {
    hide IsSpace, Digit, Digits, Value;
    if CharAt(s, 0) == '\0' {
      NoDigits(s, base);
      return 0, Some(0);
    }
    var p := 0;
    while IsSpace(CharAt(s, p))
      invariant p <= |s| && SkipSpaces(s, p) == SkipSpaces(s, 0)
      decreases |s| - p
    {
      p := p + 1;
    }
    if CharAt(s, p) == '+' {
      p := p + 1;
    }
    if CharAt(s, p) == '0' && CharAt(s, p + 1) == 'x' && base == 16 {
      p := p + 2;
    }
    accum, end := Accumulate(s, p, base);
  }

  lemma NoDigits(s: string, base: int)
    requires CharAt(s, 0) == '\0'
    ensures DigitsStart(s, base) == 0 == DigitsEnd(s, 0, base) && Parse(s, base) == 0
  {
    assert s[0..0] == [];
  }

  /** The digit loop of `strtoull`. */
  method Accumulate(s: string, start: nat, base: int) returns (accum: nat, end: Option<nat>)
    requires start <= |s|
    ensures var q := DigitsEnd(s, start, base);
            accum == Value(s[start..q], base) % WORD && end == if CharAt(s, q) == '\0' then None else Some(q)
  {
    hide Digit, Digits, ValueStep;
    var p := start;
    accum, end := 0, None;
    assert s[p..p] == [];
    NoChars(base);
    while CharAt(s, p) != '\0'
      invariant start <= p <= |s| && Digits(s[start..p], base)
      invariant accum == Value(s[start..p], base) % WORD
      invariant DigitsEnd(s, p, base) == DigitsEnd(s, start, base)
      decreases |s| - p
    {
      var i := Digit(CharAt(s, p), base);
      if i < 0 {
        end := Some(p);
        return;
      }
      ValueExtend(s, start, p, base);
      ModStep(Value(s[start..p], base), i, base);
      accum := ValueStep(accum, i, base) % WORD;
      p := p + 1;
    }
    NulIsNoDigit(base);
  }

  lemma NoChars(base: int)
    ensures Digits([], base) && Value([], base) == 0
  {
  }

  lemma NulIsNoDigit(base: int)
    ensures Digit('\0', base) < 0
  {
  }

  // ----- strtoll

  function ToSigned(u: nat): (r: int)
    ensures u < WORD ==> (r == u || r + WORD == u) && 0 <= r + MAX_BIT && r < MAX_BIT
  {
    if u >= MAX_BIT then u - WORD else u
  }

  /** The result of `strtoll`; only 2^63 leaves the range of its type. */
  ghost function ParseSigned(s: string, base: int): (r: int)
    ensures 0 <= r + MAX_BIT && r <= MAX_BIT
  {
    var p := SkipSpaces(s, 0);
    if CharAt(s, p) == '-' then -ToSigned(Parse(s[p + 1..], base)) else ToSigned(Parse(s[p..], base))
  }

  /** Where the number part of the text starts: after white space and a minus sign. */
  ghost function UnsignedStart(s: string): (p: nat)
    ensures p <= |s|
  {
    var p := SkipSpaces(s, 0);
    if CharAt(s, p) == '-' then p + 1 else p
  }

  /** The end that `strtoull` reports for the text. */
  ghost function ReportedEnd(s: string, base: int): Option<nat> {
    var q := DigitsEnd(s, DigitsStart(s, base), base);
    if CharAt(s, 0) == '\0' then Some(0) else if CharAt(s, q) == '\0' then None else Some(q)
  }

  /** `strtoll`: value and end of the unsigned text behind the sign; no value where the negation overflows. */
  method StrToLL(s: string, base: int) returns (r: Option<int>, end: Option<nat>)
    ensures r == if ParseSigned(s, base) == MAX_BIT then None else Some(ParseSigned(s, base))
    ensures var inner := ReportedEnd(s[UnsignedStart(s)..], base);
            end == if inner.None? then None else Some(UnsignedStart(s) + inner.value)
  {
    hide Parse, IsSpace, ReportedEnd;
    var p := 0;
    while IsSpace(CharAt(s, p))
      invariant p <= |s| && SkipSpaces(s, p) == SkipSpaces(s, 0)
      decreases |s| - p
    {
      p := p + 1;
    }
    var pos := 1;
    if CharAt(s, p) == '-' {
      p := p + 1;
      pos := -1;
    }
    var u;
    u, end := StrToULL(s[p..], base);
    if end.Some? {
      end := Some(p + end.value);
    }
    var value := ToSigned(u);
    if pos == -1 && value + MAX_BIT == 0 {
      r := None;
    } else {
      r := Some(if pos == 1 then value else -value);
    }
  }

  /** The negation overflows exactly for the magnitude 2^63, which has no defined result in the code. */
  lemma OverflowIff(s: string, base: int)
    ensures ParseSigned(s, base) == MAX_BIT <==>
            CharAt(s, SkipSpaces(s, 0)) == '-' && Parse(s[UnsignedStart(s)..], base) == MAX_BIT
  {
    hide Parse;
  }

  // ----- the printer

  const UINT_MAX := 0xFFFF_FFFF

  function Radix(c: char): (r: int)
    ensures r in {0, 2, 8, 10, 16}
  {
    if c == 'b' || c == 'B' then 2
    else if c == 'o' || c == 'O' then 8
    else if IsSigned(c) || c == 'u' || c == 'U' then 10
    else if c == 'x' || c == 'X' then 16
    else 0
  }

  predicate IsSigned(c: char) {
    c == 'd' || c == 'D'
  }

  function DigitChar(d: int, lower: bool): (c: char)
    requires 0 <= d < 16
    ensures Digit(c, d + 1) == d && Digit(c, 16) == d
  {
    (if d > 9 then d + (if lower then 0x27 else 0x07) + 0x30 else d + 0x30) as char
  }

  /** The last room digits of v, most significant first and without leading zeros. */
  ghost function Numeral(v: nat, r: int, lower: bool, room: nat): (s: string)
    requires 2 <= r <= 16
    ensures |s| <= room
  {
    if room == 0 then []
    else (if v / r == 0 then [] else Numeral(v / r, r, lower, room - 1)) + [DigitChar(v % r, lower)]
  }

  ghost function Reversed(s: string): (r: string)
    ensures |r| == |s|
  {
    if s == [] then [] else [s[|s| - 1]] + Reversed(s[..|s| - 1])
  }

  function Repeat(c: char, n: int): (s: string)
    ensures |s| == if n > 0 then n else 0
    ensures forall i :: 0 <= i < |s| ==> s[i] == c
  {
    if n > 0 then seq(n, _ => c) else []
  }

  ghost function Padded(text: string, zero: bool, left: bool, w: nat): string {
    if left then text + Repeat(' ', w - |text|)
    else Repeat(if zero then '0' else ' ', w - |text|) + text + Repeat(' ', if w == UINT_MAX then w else 0)
  }

  /** Sign and digits of the word v. */
  ghost function SignedDigits(c: char, v: nat): (s: string)
    requires Radix(c) != 0 && v < WORD
  {
    if IsSigned(c) && v >= MAX_BIT then "-" + Numeral(WORD - v, Radix(c), c == 'x', 32)
    else Numeral(v, Radix(c), c == 'x', 32)
  }

  /** What the number path puts out for the word v and the flags. */
  ghost function Printed(c: char, v: nat, zero: bool, left: bool, w: nat): string
    requires Radix(c) != 0 && v < WORD
  {
    Padded(SignedDigits(c, v), zero, left, w)
  }

  /** The digit loop: the buffer holds the digits, least significant first. */
  method FillDigits(c: char, v0: nat, s: array<char>) returns (i: nat)
    requires Radix(c) != 0 && s.Length == 32
    modifies s
    ensures 1 <= i <= 32 && Reversed(s[..i]) == Numeral(v0, Radix(c), c == 'x', 32)
  {
    hide Numeral, Reversed, DigitChar, Radix;
    var r := Radix(c);
    var v: nat, more := v0, true;
    i := 0;
    assert Reversed(s[..0]) == [] by { NothingReversed(s[..0]); }
    while more
      invariant i <= 32 && (more ==> i < 32) && (!more ==> 1 <= i)
      invariant Numeral(v0, r, c == 'x', 32) == Leading(v, r, c == 'x', if more then 32 - i else 0) + Reversed(s[..i])
      decreases more, 32 - i
    {
      NumeralStep(v, r, c == 'x', 32 - i);
      ghost var was, lead := s[..i], Leading(v / r, r, c == 'x', if v / r == 0 then 0 else 31 - i);
      s[i] := DigitChar(v % r, c == 'x');
      assert s[..i + 1] == was + [s[i]];
      ReversedStep(was, s[i]);
      assert (lead + [s[i]]) + Reversed(was) == lead + ([s[i]] + Reversed(was));
      v := v / r;
      i := i + 1;
      more := v != 0 && i < 32;
    }
  }

  /** The digits still to come: none when the value is used up after the first digit. */
  ghost function Leading(v: nat, r: int, lower: bool, room: nat): string
    requires 2 <= r <= 16
  {
    if room == 0 then [] else Numeral(v, r, lower, room)
  }

  lemma NumeralStep(v: nat, r: int, lower: bool, room: nat)
    requires 2 <= r <= 16 && room > 0
    ensures Numeral(v, r, lower, room)
         == Leading(v / r, r, lower, if v / r == 0 then 0 else room - 1) + [DigitChar(v % r, lower)]
  {
    hide DigitChar;
  }

  lemma NothingReversed(s: string)
    requires s == []
    ensures Reversed(s) == []
  {
  }

  lemma ReversedStep(s: string, c: char)
    ensures Reversed(s + [c]) == [c] + Reversed(s)
  {
    assert (s + [c])[..|s|] == s;
  }

  function Inc(j: nat): nat {
    (j + 1) % (UINT_MAX + 1)
  }

  /** The loop that pads while `j++ < w`. */
  method Pad(d: char, j0: nat, w: nat) returns (out: string, j: nat)
    requires j0 <= UINT_MAX && w <= UINT_MAX
    ensures out == Repeat(d, w - j0) && j == Inc(if j0 < w then w else j0)
  {
    out := [];
    var more := j0 < w;
    j := Inc(j0);
    while more
      invariant out == Repeat(d, |out|) && j0 + |out| <= UINT_MAX && (|out| > 0 ==> j0 + |out| <= w)
      invariant more == (j0 + |out| < w) && j == Inc(j0 + |out|)
      decreases w - |out|
    {
      out := out + [d];
      assert out == Repeat(d, |out|);
      more := j < w;
      j := Inc(j);
    }
    assert Repeat(d, |out|) == Repeat(d, w - j0);
  }

  /** The number path of `xvprintf_internal`, after the argument has been fetched. */
  method PrintNumber(c: char, v0: nat, zero: bool, left: bool, w: nat) returns (out: string)
    requires Radix(c) != 0 && v0 < WORD && w <= UINT_MAX
    ensures out == Printed(c, v0, zero, left, w)
  {
    hide SignedDigits, Padded;
    var text := PutDigits(c, v0);
    out := PadBoth(text, zero, left, w);
  }

  /** Fills the buffer with digits and sign, and puts it out from its end. */
  method PutDigits(c: char, v0: nat) returns (text: string)
    requires Radix(c) != 0 && v0 < WORD
    ensures text == SignedDigits(c, v0) && |text| <= 32
  {
    hide Numeral, Reversed, DigitChar;
    var s := new char[32];
    if IsSigned(c) && v0 >= MAX_BIT {
      var i := FillDigits(c, WORD - v0, s);
      ShortNumeral(WORD - v0, c == 'x');
      ghost var was := s[..i];
      s[i] := '-';
      assert s[..i + 1] == was + ['-'];
      ReversedStep(was, '-');
      text := PutReversed(s, i + 1);
    } else {
      var i := FillDigits(c, v0, s);
      text := PutReversed(s, i);
    }
  }

  /** The padding before and behind the digits. */
  method PadBoth(text: string, zero: bool, left: bool, w: nat) returns (out: string)
    requires |text| <= 32 && w <= UINT_MAX
    ensures out == Padded(text, zero, left, w)
  {
    hide Repeat;
    var j := |text|;
    var before := "";
    if !left {
      before, j := Pad(if zero then '0' else ' ', j, w);
    }
    var behind;
    behind, j := Pad(' ', j, w);
    out := before + text + behind;
    assert left ==> out == text + behind;
    NoRepeat(' ');
  }

  lemma NoRepeat(d: char)
    ensures forall n: int :: n <= 0 ==> Repeat(d, n) == Repeat(d, 0)
  {
  }

  /** The loop that puts out the buffer from its end. */
  method PutReversed(s: array<char>, n: nat) returns (out: string)
    requires 0 < n <= s.Length
    ensures out == Reversed(s[..n])
  {
    hide Reversed;
    out := [];
    var i := n;
    while i > 0
      invariant i <= n && Reversed(s[..n]) == out + Reversed(s[..i])
    {
      i := i - 1;
      assert s[..i + 1] == s[..i] + [s[i]];
      ReversedStep(s[..i], s[i]);
      out := out + [s[i]];
    }
    NothingReversed(s[..0]);
  }

  // ----- sizes

  ghost function Power(r: int, n: nat): (p: nat)
    requires r >= 1
    ensures p >= 1
  {
    if n == 0 then 1 else Times(r, Power(r, n - 1))
  }

  ghost function Times(x: nat, y: nat): (z: nat)
    ensures x >= 1 && y >= 1 ==> z >= 1
  {
    x * y
  }

  lemma {:induction false} PowerAtLeast(r: int, n: nat)
    requires r >= 8
    ensures Power(r, n) >= Pow2(3 * n)
  {
    hide Times;
    if n > 0 {
      var m := n - 1;
      PowerAtLeast(r, m);
      TimesEight(r, Power(r, m));
      assert Pow2(3 * m + 3) == 2 * Pow2(3 * m + 2) == 4 * Pow2(3 * m + 1) == 8 * Pow2(3 * m);
    }
  }

  lemma TimesEight(r: nat, p: nat)
    requires r >= 8
    ensures Times(r, p) >= 8 * p
  {
  }

  lemma WordFits(r: int, n: nat)
    requires r >= 8 && n >= 22
    ensures WORD <= Power(r, n)
  {
    hide Pow2, Power;
    PowerAtLeast(r, n);
    var k: nat :| k == 64 && Pow2(k) == WORD by { WordIsPow2(); }
    Pow2Monotonic(k, 3 * n);
  }

  lemma {:induction false} NumeralLength(v: nat, r: int, lower: bool, room: nat, n: nat)
    requires 2 <= r <= 16 && v < Power(r, n) && n >= 1
    ensures |Numeral(v, r, lower, room)| <= n
    decreases n
  {
    if room > 0 && v / r != 0 {
      assert n > 1;
      var p := Power(r, n - 1);
      assert v / r < p by {
        assert v < Times(r, p);
      }
      NumeralLength(v / r, r, lower, room - 1, n - 1);
    }
  }

  lemma ShortNumeral(v: nat, lower: bool)
    requires v < WORD
    ensures |Numeral(v, 10, lower, 32)| < 32
  {
    hide Power, Numeral;
    WordFits(10, 22);
    NumeralLength(v, 10, lower, 32, 22);
  }

  // ----- what the digits stand for

  lemma DigitOf(d: int, lower: bool, r: int)
    requires 0 <= d < r <= 16
    ensures Digit(DigitChar(d, lower), r) == d
  {
  }

  lemma SplitTimes(k: nat, p: nat, m: nat, d: int, r: int)
    requires 0 <= d < r
    ensures (k * p + m) * r + d == k * Times(r, p) + ValueStep(m, d, r)
  {
    assert (k * p + m) * r == (k * p) * r + m * r;
    assert (k * p) * r == k * (r * p);
  }

  lemma StepBelow(m: nat, d: int, r: int, p: nat)
    requires m < p && 0 <= d < r
    ensures ValueStep(m, d, r) < Times(r, p)
  {
    assert (m + 1) * r <= p * r;
  }

  lemma ModTimes(v: nat, r: int, p: nat)
    requires r >= 2 && p >= 1
    ensures ValueStep((v / r) % p, v % r, r) == v % Times(r, p)
  {
    hide ValueStep, Times;
    var q, d := v / r, v % r;
    var k, m := q / p, q % p;
    SplitTimes(k, p, m, d, r);
    assert q == k * p + m;
    assert v == q * r + d;
    StepBelow(m, d, r, p);
    DivModUnique(v, Times(r, p), k, ValueStep(m, d, r));
  }

  lemma ValueSnoc(s: string, c: char, base: int)
    requires Digits(s, base) && Digit(c, base) >= 0
    ensures Digits(s + [c], base) && Value(s + [c], base) == ValueStep(Value(s, base), Digit(c, base), base)
  {
    hide Digit, ValueStep;
    assert (s + [c])[..|s|] == s;
  }

  /** A numeral stands for the value modulo the power of the radix that its room allows. */
  lemma {:induction false} NumeralValue(v: nat, r: int, lower: bool, room: nat)
    requires 2 <= r <= 16
    ensures var s := Numeral(v, r, lower, room);
            Digits(s, r) && Value(s, r) == v % Power(r, room) && (room > 0 ==> s != [])
    decreases room
  {
    hide Digit, ValueStep, DigitChar, Times;
    if room == 0 {
      NoChars(r);
      assert v % 1 == 0;
    } else {
      var head := Leading(v / r, r, lower, if v / r == 0 then 0 else room - 1);
      NumeralStep(v, r, lower, room);
      NoChars(r);
      NumeralValue(v / r, r, lower, room - 1);
      assert v / r == 0 ==> (v / r) % Power(r, room - 1) == 0 by { SmallMod(0, Power(r, room - 1)); }
      DigitOf(v % r, lower, r);
      ValueSnoc(head, DigitChar(v % r, lower), r);
      ModTimes(v, r, Power(r, room - 1));
    }
  }

  lemma SmallMod(x: nat, m: nat)
    requires x < m
    ensures x % m == x
  {
  }

  // ----- parsing padded digits

  lemma DigitIsPlain(c: char, base: int)
    requires Digit(c, base) >= 0
    ensures !IsSpace(c) && c != '+' && c != '-' && c != '\0' && (base == 16 ==> c != 'x')
  {
  }

  lemma {:induction false} SkipsTo(s: string, p: nat, k: nat)
    requires p <= k <= |s| && !IsSpace(CharAt(s, k)) && forall i :: p <= i < k ==> IsSpace(s[i])
    ensures SkipSpaces(s, p) == k
    decreases k - p
  {
    hide IsSpace;
    if p < k {
      SkipsTo(s, p + 1, k);
    }
  }

  lemma {:induction false} EndsAt(s: string, p: nat, q: nat, base: int)
    requires p <= q <= |s| && Digit(CharAt(s, q), base) < 0 && forall i :: p <= i < q ==> Digit(s[i], base) >= 0
    ensures DigitsEnd(s, p, base) == q
    decreases q - p
  {
    hide Digit, Digits;
    if p < q {
      EndsAt(s, p + 1, q, base);
    }
  }

  /** White space, digits, then a blank or the end: the parser returns the value of the digits. */
  lemma ParseDigits(before: string, digits: string, behind: string, base: int)
    requires forall i :: 0 <= i < |before| ==> before[i] == ' '
    requires forall i :: 0 <= i < |behind| ==> behind[i] == ' '
    requires Digits(digits, base) && digits != []
    ensures Parse(before + digits + behind, base) == Value(digits, base) % WORD
  {
    hide Digit, Value;
    var s, k := before + digits + behind, |before|;
    var q := k + |digits|;
    assert s[k] == digits[0] && (|digits| > 1 ==> s[k + 1] == digits[1]);
    DigitIsPlain(digits[0], base);
    if |digits| > 1 {
      DigitIsPlain(digits[1], base);
    }
    SkipsTo(s, 0, k);
    assert DigitsStart(s, base) == k;
    forall i | k <= i < q ensures Digit(s[i], base) >= 0 {
      assert s[i] == digits[i - k];
    }
    BlankIsNoDigit(base);
    NulIsNoDigit(base);
    EndsAt(s, k, q, base);
    assert s[k..q] == digits;
  }

  lemma BlankIsNoDigit(base: int)
    ensures Digit(' ', base) < 0 && Digit('-', base) < 0
  {
  }

  lemma {:induction false} LeadingZeros(n: nat, s: string, base: int)
    requires base >= 2 && Digits(s, base)
    ensures Digits(Repeat('0', n) + s, base) && Value(Repeat('0', n) + s, base) == Value(s, base)
    decreases |s|, n
  {
    var t := Repeat('0', n) + s;
    assert Digits(t, base) by {
      forall i | 0 <= i < |t| ensures Digit(t[i], base) >= 0 {
        assert i >= n ==> t[i] == s[i - n];
      }
    }
    if s != [] {
      var front := s[..|s| - 1];
      LeadingZeros(n, front, base);
      assert t[..|t| - 1] == Repeat('0', n) + front;
    } else if n > 0 {
      LeadingZeros(n - 1, s, base);
      assert t[..n - 1] == Repeat('0', n - 1) + s;
    }
  }

  /** Unsigned digits are parsed back whatever the padding. */
  lemma PaddedParse(text: string, zero: bool, left: bool, w: nat, base: int)
    requires base >= 2 && Digits(text, base) && text != []
    ensures Parse(Padded(text, zero, left, w), base) == Value(text, base) % WORD
  {
    hide Parse, Value, Digits, Repeat;
    var fill := w - |text|;
    if left {
      ParseDigits([], text, Repeat(' ', fill), base);
      assert [] + text == text;
    } else {
      var behind := Repeat(' ', if w == UINT_MAX then w else 0);
      if zero && fill > 0 {
        LeadingZeros(fill, text, base);
        ParseDigits([], Repeat('0', fill) + text, behind, base);
        assert [] + (Repeat('0', fill) + text) == Repeat('0', fill) + text;
      } else {
        assert zero ==> Repeat('0', fill) == [] == Repeat(' ', fill);
        ParseDigits(Repeat(' ', fill), text, behind, base);
      }
    }
  }

  /** `strtoull` returns every unsigned word that was printed, in base 2 exactly those below 2^32. */
  lemma UnsignedRoundTrip(c: char, v: nat, zero: bool, left: bool, w: nat)
    requires Radix(c) != 0 && !IsSigned(c) && v < WORD
    ensures var r := Parse(Printed(c, v, zero, left, w), Radix(c));
            && (Radix(c) == 2 ==> r == v % 0x1_0000_0000)
            && (r == v <==> Radix(c) != 2 || v < 0x1_0000_0000)
  {
    hide Numeral, Value, Digits, Padded, Parse, Power;
    var r := Radix(c);
    NumeralValue(v, r, c == 'x', 32);
    PaddedParse(Numeral(v, r, c == 'x', 32), zero, left, w, r);
    if r == 2 {
      BinaryWord();
    } else {
      WordFits(r, 32);
      SmallMod(v, Power(r, 32));
    }
  }

  lemma {:induction false} BinaryPower(n: nat)
    ensures Power(2, n) == Pow2(n)
  {
    if n > 0 {
      BinaryPower(n - 1);
    }
  }

  lemma BinaryWord()
    ensures Power(2, 32) == 0x1_0000_0000
  {
    hide Power, Pow2;
    BinaryPower(32);
    Pow2Of16();
    Pow2Add(16, 16);
  }

  // ----- signed decimals

  /** The word that holds the signed value x. */
  function ToWord(x: int): (v: nat)
    requires 0 <= x + MAX_BIT && x < MAX_BIT
    ensures v < WORD && ToSigned(v) == x
  {
    if x < 0 then x + WORD else x
  }

  /** A minus sign after white space negates the digits behind it. */
  lemma ParseMinus(before: string, digits: string, behind: string, base: int)
    requires forall i :: 0 <= i < |before| ==> before[i] == ' '
    requires forall i :: 0 <= i < |behind| ==> behind[i] == ' '
    requires Digits(digits, base) && digits != [] && Value(digits, base) < MAX_BIT
    ensures ParseSigned(before + ("-" + digits) + behind, base) + Value(digits, base) == 0
  {
    hide Parse, Value, Digits, Digit;
    var s, k := before + ("-" + digits) + behind, |before|;
    assert s[k] == '-';
    SkipsTo(s, 0, k);
    assert s[k + 1..] == [] + digits + behind;
    ParseDigits([], digits, behind, base);
    SmallMod(Value(digits, base), WORD);
  }

  /** Zeros before the minus sign: only they are read. */
  lemma ParseZeros(n: nat, rest: string, base: int)
    requires n > 0 && base >= 2 && rest != [] && rest[0] == '-'
    ensures ParseSigned(Repeat('0', n) + rest, base) == 0
  {
    hide Value, Digits, Digit;
    var s, zeros := Repeat('0', n) + rest, Repeat('0', n);
    ZeroIsDigit(base);
    SkipsTo(s, 0, 0);
    assert s[0..] == s;
    BlankIsNoDigit(base);
    assert s[n] == '-';
    EndsAt(s, 0, n, base);
    assert n > 1 ==> s[1] == '0';
    assert DigitsStart(s, base) == 0;
    assert s[0..n] == zeros == zeros + [];
    NoChars(base);
    LeadingZeros(n, [], base);
  }

  lemma ZeroIsDigit(base: int)
    requires base >= 2
    ensures Digit('0', base) == 0 && !IsSpace('0')
  {
  }

  /** Digits without a sign are read by `strtoll` as by `strtoull`. */
  lemma ParsePlain(text: string, zero: bool, left: bool, w: nat)
    requires Digits(text, 10) && text != [] && Value(text, 10) < MAX_BIT
    ensures ParseSigned(Padded(text, zero, left, w), 10) == Value(text, 10)
  {
    hide Value, Parse, Repeat, Digits;
    var s := Padded(text, zero, left, w);
    var k := if left || zero then 0 else |Repeat(' ', w - |text|)|;
    PlainStart(text, zero, left, w);
    SkipsTo(s, 0, k);
    var t := s[k..];
    if left || zero {
      assert t == s;
      PaddedParse(text, zero, left, w, 10);
    } else {
      var behind := Repeat(' ', if w == UINT_MAX then w else 0);
      assert t == [] + text + behind;
      ParseDigits([], text, behind, 10);
    }
    SmallMod(Value(text, 10), WORD);
  }

  lemma PlainStart(text: string, zero: bool, left: bool, w: nat)
    requires Digits(text, 10) && text != []
    ensures var s := Padded(text, zero, left, w);
            var k := if left || zero then 0 else |Repeat(' ', w - |text|)|;
            k <= |s| && !IsSpace(CharAt(s, k)) && CharAt(s, k) != '-' && forall i :: 0 <= i < k ==> IsSpace(s[i])
  {
    hide Digit;
    DigitIsPlain(text[0], 10);
  }

  /**
   `strtoll` returns a signed decimal above the minimum that was printed, unless it is negative and
   zeros stand before its sign.
   */
  lemma SignedRoundTripIff(c: char, x: int, zero: bool, left: bool, w: nat)
    requires IsSigned(c) && 0 < x + MAX_BIT && x < MAX_BIT
    ensures var v := ToWord(x);
            ParseSigned(Printed(c, v, zero, left, w), 10) == x
            <==> !(x < 0 && zero && !left && w > |SignedDigits(c, v)|)
  {
    hide Numeral, Value, Digits, Parse, ParseSigned, Power, Repeat;
    var v := ToWord(x);
    var m := if x < 0 then -x else x;
    var digits := Numeral(m, 10, false, 32);
    NumeralValue(m, 10, false, 32);
    WordFits(10, 32);
    SmallMod(m, Power(10, 32));
    if x >= 0 {
      ParsePlain(digits, zero, left, w);
    } else {
      NegativeText(digits, zero, left, w);
    }
  }

  lemma NegativeText(digits: string, zero: bool, left: bool, w: nat)
    requires Digits(digits, 10) && digits != [] && 0 < Value(digits, 10) < MAX_BIT
    ensures var text := "-" + digits;
            var r := ParseSigned(Padded(text, zero, left, w), 10);
            if zero && !left && w > |text| then r == 0 else r + Value(digits, 10) == 0
  {
    hide Value, Digits, Parse, ParseSigned, Repeat;
    var text := "-" + digits;
    var fill := w - |text|;
    if left {
      ParseMinus([], digits, Repeat(' ', fill), 10);
      assert [] + text == text;
    } else {
      var behind := Repeat(' ', if w == UINT_MAX then w else 0);
      if zero && fill > 0 {
        ParseZeros(fill, text + behind, 10);
        assert Repeat('0', fill) + text + behind == Repeat('0', fill) + (text + behind);
      } else {
        assert zero ==> Repeat('0', fill) == [] == Repeat(' ', fill);
        ParseMinus(Repeat(' ', fill), digits, behind, 10);
      }
    }
  }

  /** Two numbers that are lost: 2^32 in binary, and -5 with zeros up to four characters. */
  lemma NumbersLost()
    ensures Parse(Printed('b', 0x1_0000_0000, false, false, 0), 2) == 0
    ensures ParseSigned(Printed('d', ToWord(-5), true, false, 4), 10) != -5
  {
    hide Parse, ParseSigned, Printed, Numeral;
    UnsignedRoundTrip('b', 0x1_0000_0000, false, false, 0);
    SignedRoundTripIff('d', -5, true, false, 4);
    FiveIs();
  }

  lemma FiveIs()
    ensures |Numeral(5, 10, false, 32)| == 1
  {
    NumeralStep(5, 10, false, 32);
  }
}
