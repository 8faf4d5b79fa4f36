/**
 The form of numbers as text: what the parsers accept, with all that may stand around the digits, and
 what the printer puts out for each conversion.
 */
module NumberForm {
  import opened Bits
  import opened Wrappers
  import opened NumberText

  // ----- the parsers

  /** Blanks, tabs and line ends. */
  ghost predicate White(s: string) {
    forall i | 0 <= i < |s| :: s[i] in " \t\r\n"
  }

  /** A text does not begin with one of the characters. */
  ghost predicate NotFirst(s: string, chars: string) {
    s == [] || s[0] !in chars
  }

  /** White space, an optional plus sign, an optional prefix 0x, digits, and what follows them. */
  function Written(before: string, plus: bool, prefix: bool, digits: string, rest: string): string {
    before + (if plus then "+" else "") + (if prefix then "0x" else "") + digits + rest
  }

  /** What follows the parts of a text cannot be taken for the parts themselves. */
  ghost predicate Unambiguous(plus: bool, prefix: bool, digits: string, rest: string, base: int) {
    && (prefix ==> base == 16)
    && Digits(digits, base) && (rest == [] || Digit(rest[0], base) < 0)
    && (!plus && !prefix && digits == [] ==> NotFirst(rest, " \t\r\n+"))
    && (!prefix && base == 16 && digits == "0" ==> NotFirst(rest, "x"))
  }

  lemma WhiteIsSpace(c: char)
    ensures IsSpace(c) <==> c in " \t\r\n"
  {
  }

  /** The digits of a text lie where they are found, whatever stands around them. */
  lemma ParsedParts(s: string, k: nat, q: nat, p: nat, e: nat, base: int)
    requires k <= q <= p <= e <= |s| && White(s[..k]) && !IsSpace(CharAt(s, k))
    requires q == if CharAt(s, k) == '+' then k + 1 else k
    requires p == if CharAt(s, q) == '0' && CharAt(s, q + 1) == 'x' && base == 16 then q + 2 else q
    requires Digits(s[p..e], base) && Digit(CharAt(s, e), base) < 0
    ensures DigitsStart(s, base) == p && DigitsEnd(s, p, base) == e
    ensures Parse(s, base) == Value(s[p..e], base) % WORD
  {
    hide Digit, Value, IsSpace;
    forall i | 0 <= i < k ensures IsSpace(s[i]) {
      assert s[i] == s[..k][i];
      WhiteIsSpace(s[i]);
    }
    SkipsTo(s, 0, k);
    forall i | p <= i < e ensures Digit(s[i], base) >= 0 {
      assert s[i] == s[p..e][i - p];
    }
    EndsAt(s, p, e, base);
  }

  /**
   `strtoull` returns the value of the digits, modulo 2^64: white space, a plus sign and the prefix do
   not change it, and what follows the digits does not either. It reports where they end unless the text ends there.
   */
  lemma ParseWritten(before: string, plus: bool, prefix: bool, digits: string, rest: string, base: int)
    requires White(before) && Unambiguous(plus, prefix, digits, rest, base)
    ensures var s := Written(before, plus, prefix, digits, rest);
            && Parse(s, base) == Value(digits, base) % WORD
            && ReportedEnd(s, base)
               == if s == [] || s[0] == '\0' then Some(0)
                  else if rest == [] || rest[0] == '\0' then None
                  else Some(|s| - |rest|)
  {
    hide Digit, Value, Digits, Parse, DigitsStart, DigitsEnd, White;
    var s, k := Written(before, plus, prefix, digits, rest), |before|;
    var q := if plus then k + 1 else k;
    var p := if prefix then q + 2 else q;
    var e := p + |digits|;
    WrittenAt(before, plus, prefix, digits, rest, base);
    NulIsNoDigit(base);
    ParsedParts(s, k, q, p, e, base);
    assert CharAt(s, e) == if rest == [] then '\0' else rest[0];
  }

  lemma WrittenAt(before: string, plus: bool, prefix: bool, digits: string, rest: string, base: int)
    requires White(before) && Unambiguous(plus, prefix, digits, rest, base)
    ensures var s, k := Written(before, plus, prefix, digits, rest), |before|;
            var q := if plus then k + 1 else k;
            var p := if prefix then q + 2 else q;
            var e := p + |digits|;
            && s[..k] == before && s[p..e] == digits && s[e..] == rest && |s| == e + |rest|
            && !IsSpace(CharAt(s, k)) && (CharAt(s, k) == '+' <==> plus)
            && (CharAt(s, q) == '0' && CharAt(s, q + 1) == 'x' && base == 16 <==> prefix)
  {
    hide Digit, White, IsSpace;
    var s, k := Written(before, plus, prefix, digits, rest), |before|;
    var q := if plus then k + 1 else k;
    WhiteIsSpace(CharAt(s, k));
    assert plus ==> s[k] == '+';
    assert prefix ==> s[q] == '0' && s[q + 1] == 'x';
    if digits != [] {
      DigitIsPlain(digits[0], base);
    }
    if |digits| > 1 {
      DigitIsPlain(digits[1], base);
    }
    if rest != [] {
      ZeroDigit(rest[0], base);
    }
    assert !prefix ==> CharAt(s, q) == (if digits != [] then digits[0] else if rest != [] then rest[0] else '\0');
    assert |digits| == 1 && digits[0] == '0' ==> digits == "0";
  }

  lemma ZeroDigit(c: char, base: int)
    ensures base == 16 && Digit(c, base) < 0 ==> c != '0'
  {
  }

  /** `strtoll` skips white space, takes one minus sign, and returns the unsigned number behind it as a signed word. */
  lemma ParseSignedWritten(before: string, minus: bool, text: string, base: int)
    requires White(before) && (!minus ==> NotFirst(text, " \t\r\n-"))
    ensures var s := before + (if minus then "-" else "") + text;
            && ParseSigned(s, base) == (if minus then -ToSigned(Parse(text, base)) else ToSigned(Parse(text, base)))
            && UnsignedStart(s) == |s| - |text|
  {
    hide Parse, ToSigned, IsSpace;
    var s, k := before + (if minus then "-" else "") + text, |before|;
    WhiteIsSpace(CharAt(s, k));
    forall i | 0 <= i < k ensures IsSpace(s[i]) {
      assert s[i] == before[i];
      WhiteIsSpace(s[i]);
    }
    SkipsTo(s, 0, k);
    assert s[|s| - |text|..] == text;
  }

  // ----- the printer

  /** The base in which each conversion prints. */
  lemma PrintedBases(v: nat, zero: bool, left: bool, w: nat)
    requires v < WORD
    ensures Parse(Printed('x', v, zero, left, w), 16) == v && Parse(Printed('X', v, zero, left, w), 16) == v
    ensures Parse(Printed('o', v, zero, left, w), 8) == v && Parse(Printed('O', v, zero, left, w), 8) == v
    ensures Parse(Printed('u', v, zero, left, w), 10) == v && Parse(Printed('U', v, zero, left, w), 10) == v
    ensures Parse(Printed('b', v, zero, left, w), 2) == Parse(Printed('B', v, zero, left, w), 2) == v % 0x1_0000_0000
  {
    hide Parse, Printed;
    UnsignedRoundTrip('x', v, zero, left, w);
    UnsignedRoundTrip('X', v, zero, left, w);
    UnsignedRoundTrip('o', v, zero, left, w);
    UnsignedRoundTrip('O', v, zero, left, w);
    UnsignedRoundTrip('u', v, zero, left, w);
    UnsignedRoundTrip('U', v, zero, left, w);
    UnsignedRoundTrip('b', v, zero, left, w);
    UnsignedRoundTrip('B', v, zero, left, w);
  }

  /** No letter of the other case. */
  ghost predicate Cased(s: string, lower: bool) {
    forall i | 0 <= i < |s| :: if lower then !('A' <= s[i] <= 'Z') else !('a' <= s[i] <= 'z')
  }

  lemma {:induction false} NumeralCased(v: nat, r: int, lower: bool, room: nat)
    requires 2 <= r <= 16
    ensures Cased(Numeral(v, r, lower, room), lower)
    decreases room
  {
    if room > 0 {
      NumeralCased(v / r, r, lower, room - 1);
      DigitCased(v % r, lower);
    }
  }

  lemma DigitCased(d: int, lower: bool)
    requires 0 <= d < 16
    ensures Cased([DigitChar(d, lower)], lower)
  {
  }

  /** `%x` prints small letters, every other conversion capitals. */
  lemma LetterCase(c: char, v: nat, zero: bool, left: bool, w: nat)
    requires Radix(c) != 0 && v < WORD
    ensures Cased(Printed(c, v, zero, left, w), c == 'x')
  {
    hide Numeral, Radix;
    NumeralCased(v, Radix(c), c == 'x', 32);
    NumeralCased(WORD - v, Radix(c), c == 'x', 32);
  }

  /** Nothing but the number and its padding: the number at the end, or at the start if it is left-justified. */
  lemma PrintedShape(c: char, v: nat, zero: bool, left: bool, w: nat)
    requires Radix(c) != 0 && v < WORD && w < UINT_MAX
    ensures var out, text := Printed(c, v, zero, left, w), SignedDigits(c, v);
            && |out| == (if w > |text| then w else |text|)
            && (left ==> out[..|text|] == text && forall i | |text| <= i < |out| :: out[i] == ' ')
            && (!left ==>
                  && out[|out| - |text|..] == text
                  && forall i | 0 <= i < |out| - |text| :: out[i] == if zero then '0' else ' ')
  {
    hide SignedDigits, Radix;
  }

  /** Digits come without leading zeros, except for the number 0 and where a binary number is cut. */
  lemma {:induction false} NoLeadingZero(v: nat, r: int, lower: bool, room: nat)
    requires 2 <= r <= 16 && room > 0 && v < Power(r, room)
    ensures var s := Numeral(v, r, lower, room); if v == 0 then s == "0" else s != [] && s[0] != '0'
    decreases room
  {
    hide Power, Numeral, DigitChar;
    var q, d := NumeralParts(v, r, lower, room);
    ZeroChar(d, lower);
    if q != 0 {
      NoLeadingZero(q, r, lower, room - 1);
    }
  }

  /** The last digit of a numeral, and the value of the digits before it. */
  lemma NumeralParts(v: nat, r: int, lower: bool, room: nat) returns (q: nat, d: int)
    requires 2 <= r <= 16 && room > 0 && v < Power(r, room)
    ensures 0 <= d < 16 && (if q == 0 then d == v else v != 0 && room > 1 && q < Power(r, room - 1))
    ensures Numeral(v, r, lower, room) == Leading(q, r, lower, if q == 0 then 0 else room - 1) + [DigitChar(d, lower)]
  {
    hide Numeral, DigitChar, Power;
    q, d := v / r, v % r;
    NumeralStep(v, r, lower, room);
    if q != 0 {
      BelowPower(v, r, room);
    }
  }

  lemma ZeroChar(d: int, lower: bool)
    requires 0 <= d < 16
    ensures DigitChar(d, lower) == '0' <==> d == 0
  {
  }

  lemma BelowPower(v: nat, r: int, room: nat)
    requires r >= 2 && room > 0 && v < Power(r, room) && v / r != 0
    ensures room > 1 && v / r < Power(r, room - 1)
  {
    var p := Power(r, room - 1);
    assert v < Times(r, p);
  }

  /** The text of every number but a binary one is the shortest one for its value. */
  lemma ShortestText(c: char, v: nat)
    requires Radix(c) >= 8 && v < WORD && !IsSigned(c)
    ensures var s := SignedDigits(c, v); s != [] && (s[0] == '0' ==> s == "0" && v == 0)
  {
    hide Numeral, Power, Radix;
    WordFits(Radix(c), 32);
    NoLeadingZero(v, Radix(c), c == 'x', 32);
  }

  /** A signed decimal is the text of its magnitude, with a minus sign exactly if it is negative. */
  lemma SignedText(c: char, x: int)
    requires IsSigned(c) && 0 <= x + MAX_BIT && x < MAX_BIT
    ensures SignedDigits(c, ToWord(x)) == if x < 0 then "-" + SignedDigits('u', -x) else SignedDigits('u', x)
  {
    hide Numeral;
  }
}
