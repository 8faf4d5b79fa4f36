/**
 What the UTF converters mean: both stand for the same text, a sequence of Unicode scalar values,
 encoded as section 3 of RFC 3629 (UTF-8) and section 2 of RFC 2781 (UTF-16) say. The decoder accepts
 exactly the grammar of section 4 of RFC 3629, and the two conversions are inverse to each other.
 */
module UtfText {
  import opened UtfBits
  import opened Utf

  function Utf8Of(c: bv32): (r: seq<bv8>)
    requires IsScalar(c)
    ensures 1 <= |r| <= 4
  {
    match SizeOf(c)
    case Bytes1 => [OneByte(c)]
    case Bytes2 => var b := Two(c); [b.0, b.1]
    case Bytes3 => var b := Three(c); [b.0, b.1, b.2]
    case Bytes4 => var b := Four(c); [b.0, b.1, b.2, b.3]
  }

  function Utf16Of(c: bv32): (r: seq<bv16>)
    requires IsScalar(c)
    ensures 1 <= |r| <= 2
  {
    if SizeOf(c) == Bytes4 then var w := Pair(c); [w.0, w.1] else [OneUnit(c)]
  }

  ghost predicate Text(cs: seq<bv32>) {
    forall i :: 0 <= i < |cs| ==> IsScalar(cs[i])
  }

  ghost function Text8(cs: seq<bv32>): seq<bv8>
    requires Text(cs)
  {
    if cs == [] then [] else Utf8Of(cs[0]) + Text8(cs[1..])
  }

  ghost function Text16(cs: seq<bv32>): seq<bv16>
    requires Text(cs)
  {
    if cs == [] then [] else Utf16Of(cs[0]) + Text16(cs[1..])
  }

  /** The limit of the encoder. */
  ghost predicate Within(cs: seq<bv32>, maxcode: bv32) {
    forall i :: 0 <= i < |cs| ==> !Over(cs[i], maxcode)
  }

  /** The limit of the decoder, which compares the first byte with the limit as well. */
  ghost predicate ByteWithin(cs: seq<bv32>, maxcode: bv32)
    requires Text(cs)
  {
    forall i :: 0 <= i < |cs| ==> !Over(cs[i], maxcode) && !ByteOver(Utf8Of(cs[i])[0], maxcode)
  }

  // ----- one character of the encoder

  lemma SizeIsScalar(c: bv32)
    ensures IsScalar(c) <==> SizeOf(c) != Bad
  {
  }

  lemma UnitText(w: bv16, maxcode: bv32) returns (c: bv32)
    requires SizeOfUnit(w) in {Bytes1, Bytes2, Bytes3}
    ensures c == Wide(w) && IsScalar(c) && (Over(c, maxcode) <==> UnitOver(w, maxcode)) && Utf16Of(c) == [w]
    ensures Utf8Of(c)
         == match SizeOfUnit(w)
            case Bytes1 => [Encode1(w)]
            case Bytes2 => var b := Encode2(w); [b.0, b.1]
            case Bytes3 => var b := Encode3(w); [b.0, b.1, b.2]
  {
    hide IsScalar, SizeOf, SizeOfUnit, SizeOfByte, Wide, Over, UnitOver, OneByte, OneUnit, Tail, Lead3;
    hide Two, Three, Four, Pair, Encode1, Encode2, Encode3, Decode1, Decode2, Decode3;
    c := Wide(w);
    UnitIs(w, maxcode);
    SizeIsScalar(c);
    match SizeOfUnit(w)
    case Bytes1 => Encode1Is(w);
    case Bytes2 => Encode2Is(w);
    case Bytes3 => Encode3Is(w);
  }

  lemma PairText(w1: bv16, w2: bv16)
    requires SizeOfUnit(w1) == Bytes4 && LowSurrogate(w2)
    ensures var (c, b) := (PairCode(w1, w2), Encode4(w1, w2));
            IsScalar(c) && SizeOf(c) == Bytes4 && Utf16Of(c) == [w1, w2] && Utf8Of(c) == [b.0, b.1, b.2, b.3]
  {
    hide IsScalar, SizeOf, SizeOfUnit, SizeOfByte, LowSurrogate, Tail, Lead4;
    hide PairCode, Encode4, Decode4, Code4, Two, Three, Four, Pair;
    PairAgrees(w1, w2);
    SizeIsScalar(PairCode(w1, w2));
  }

  /** What the encoder takes is one character within the limit, and it produces that character. */
  lemma EncodeTakes(frm: seq<bv16>, room: nat, maxcode: bv32) returns (c: bv32)
    requires frm != [] && EncodeRound(frm, room, maxcode).Take?
    ensures var r := EncodeRound(frm, room, maxcode);
            IsScalar(c) && !Over(c, maxcode) && frm[..r.n] == Utf16Of(c) && r.out == Utf8Of(c)
  {
    hide IsScalar, SizeOf, SizeOfUnit, LowSurrogate, Wide, Over, UnitOver;
    hide PairCode, Encode1, Encode2, Encode3, Encode4, Utf8Of, Utf16Of;
    if SizeOfUnit(frm[0]) == Bytes4 {
      c := PairCode(frm[0], frm[1]);
      PairText(frm[0], frm[1]);
    } else {
      c := UnitText(frm[0], maxcode);
    }
  }

  /** The encoder takes every character within the limit, if there is room for it. */
  lemma EncodeChar(c: bv32, rest: seq<bv16>, room: nat, maxcode: bv32)
    requires IsScalar(c) && !Over(c, maxcode) && |Utf8Of(c)| <= room
    ensures EncodeRound(Utf16Of(c) + rest, room, maxcode) == Take(|Utf16Of(c)|, Utf8Of(c))
  {
    hide IsScalar, SizeOf, SizeOfUnit, LowSurrogate, Wide, Over, UnitOver, OneByte, OneUnit;
    hide PairCode, Pair, Two, Three, Four, Encode1, Encode2, Encode3, Encode4, Utf8Of;
    SizeIsScalar(c);
    if SizeOf(c) == Bytes4 {
      CodeAgrees(c);
      var w := Pair(c);
      PairText(w.0, w.1);
      PairOver(w.0, c, maxcode);
    } else {
      WideOf(c);
      var d := UnitText(OneUnit(c), maxcode);
    }
  }

  // ----- one character of the decoder

  /** What the decoder takes is one character within its limits, and it produces that character. */
  lemma DecodeTakes(frm: seq<bv8>, room: nat, maxcode: bv32) returns (c: bv32)
    requires frm != [] && room > 0 && DecodeRound(frm, room, maxcode).Take?
    ensures var r := DecodeRound(frm, room, maxcode);
            IsScalar(c) && !Over(c, maxcode) && frm[..r.n] == Utf8Of(c) && r.out == Utf16Of(c)
    ensures !ByteOver(Utf8Of(c)[0], maxcode)
  {
    hide IsScalar, SizeOf, SizeOfUnit, SizeOfByte, LowSurrogate, Wide, Over, UnitOver, ByteOver, Tail, Lead3, Lead4;
    hide PairCode, Encode1, Encode2, Encode3, Encode4, Decode1, Decode2, Decode3, Decode4, Code4, Utf8Of, Utf16Of;
    var c1 := frm[0];
    match SizeOfByte(c1)
    case Bytes1 =>
      Decode1Is(c1, maxcode);
      c := UnitText(Decode1(c1), maxcode);
    case Bytes2 =>
      Decode2Is(c1, frm[1]);
      c := UnitText(Decode2(c1, frm[1]), maxcode);
    case Bytes3 =>
      Decode3Is(c1, frm[1], frm[2]);
      c := UnitText(Decode3(c1, frm[1], frm[2]), maxcode);
    case Bytes4 =>
      BytesAgree(c1, frm[1], frm[2], frm[3]);
      var w := Decode4(c1, frm[1], frm[2], frm[3]);
      c := PairCode(w.0, w.1);
      PairText(w.0, w.1);
    case Bad =>
  }

  /** The decoder takes every character within its limits, if there is room for it. */
  lemma DecodeChar(c: bv32, rest: seq<bv8>, room: nat, maxcode: bv32)
    requires IsScalar(c) && !Over(c, maxcode) && !ByteOver(Utf8Of(c)[0], maxcode) && |Utf16Of(c)| <= room
    ensures DecodeRound(Utf8Of(c) + rest, room, maxcode) == Take(|Utf8Of(c)|, Utf16Of(c))
  {
    hide IsScalar, SizeOf, SizeOfUnit, SizeOfByte, LowSurrogate, Wide, Over, UnitOver, ByteOver, Tail, Lead3, Lead4;
    hide PairCode, Pair, OneUnit, Encode1, Encode2, Encode3, Encode4, Decode1, Decode2, Decode3, Decode4, Code4;
    hide Utf8Of, Utf16Of;
    SizeIsScalar(c);
    if SizeOf(c) == Bytes4 {
      CodeAgrees(c);
      var w := Pair(c);
      PairText(w.0, w.1);
      PairAgrees(w.0, w.1);
    } else {
      WideOf(c);
      var w := OneUnit(c);
      var d := UnitText(w, maxcode);
      UnitIs(w, maxcode);
      match SizeOfUnit(w)
      case Bytes1 => Encode1Is(w);
      case Bytes2 => Encode2Is(w);
      case Bytes3 => Encode3Is(w);
    }
  }

  // ----- whole texts

  lemma TextParts(c: bv32, cs: seq<bv32>)
    requires IsScalar(c) && Text(cs)
    ensures Text([c] + cs)
    ensures Text8([c] + cs) == Utf8Of(c) + Text8(cs) && Text16([c] + cs) == Utf16Of(c) + Text16(cs)
  {
    hide IsScalar, Utf8Of, Utf16Of;
    assert ([c] + cs)[1..] == cs;
  }

  /** However the encoder stops, it has read whole characters within the limit and written the same text. */
  lemma {:induction false} EncodeMeaning(frm: seq<bv16>, room: nat, maxcode: bv32) returns (cs: seq<bv32>)
    ensures Text(cs) && Within(cs, maxcode)
    ensures var r := Encode(frm, room, maxcode); frm[..r.consumed] == Text16(cs) && r.out == Text8(cs)
    decreases |frm|
  {
    hide EncodeRound, IsScalar, Utf8Of, Utf16Of, Over;
    cs := [];
    if frm != [] && EncodeRound(frm, room, maxcode).Take? {
      var r := EncodeRound(frm, room, maxcode);
      var c := EncodeTakes(frm, room, maxcode);
      var rest := EncodeMeaning(frm[r.n..], room - |r.out|, maxcode);
      cs := [c] + rest;
      TextParts(c, rest);
      Spliced(frm, r.n, Encode(frm[r.n..], room - |r.out|, maxcode).consumed);
    }
  }

  lemma Spliced<T>(s: seq<T>, n: nat, k: nat)
    requires n <= |s| && k <= |s[n..]|
    ensures s[..n + k] == s[..n] + s[n..][..k]
  {
  }

  lemma Starts<T>(r: Outcome<T>)
    ensures Continues(r, 0, [], r)
  {
    assert [] + r.out == r.out;
  }

  lemma ContinuesOn<T>(a: Outcome<T>, i: nat, x: seq<T>, b: Outcome<T>, j: nat, y: seq<T>, c: Outcome<T>)
    requires Continues(a, i, x, b) && Continues(b, j, y, c)
    ensures Continues(a, i + j, x + y, c)
  {
    assert (x + y) + c.out == x + (y + c.out);
  }

  lemma EncodeContinues(frm: seq<bv16>, room: nat, maxcode: bv32)
    requires frm != [] && EncodeRound(frm, room, maxcode).Take?
    ensures var r := EncodeRound(frm, room, maxcode);
            Continues(Encode(frm, room, maxcode), r.n, r.out, Encode(frm[r.n..], room - |r.out|, maxcode))
  {
    hide EncodeRound;
  }

  lemma {:induction false} EncodeAll(frm: seq<bv16>, room: nat, maxcode: bv32)
    requires Encode(frm, room, maxcode).status == Ok
    ensures Encode(frm, room, maxcode).consumed == |frm|
    decreases |frm|
  {
    hide EncodeRound;
    if frm != [] {
      var r := EncodeRound(frm, room, maxcode);
      EncodeAll(frm[r.n..], room - |r.out|, maxcode);
    }
  }

  lemma DecodeContinues(frm: seq<bv8>, room: nat, maxcode: bv32)
    requires frm != [] && room > 0 && DecodeRound(frm, room, maxcode).Take?
    ensures var r := DecodeRound(frm, room, maxcode);
            Continues(Decode(frm, room, maxcode), r.n, r.out, Decode(frm[r.n..], room - |r.out|, maxcode))
  {
    hide DecodeRound;
  }

  lemma {:induction false} DecodeAll(frm: seq<bv8>, room: nat, maxcode: bv32)
    requires Decode(frm, room, maxcode).status == Ok
    ensures Decode(frm, room, maxcode).consumed == |frm|
    decreases |frm|
  {
    hide DecodeRound;
    if frm != [] {
      var r := DecodeRound(frm, room, maxcode);
      DecodeAll(frm[r.n..], room - |r.out|, maxcode);
    }
  }

  /** A text within the limit that fits is encoded, whatever follows it. */
  lemma {:induction false} EncodeOfText(cs: seq<bv32>, rest: seq<bv16>, room: nat, maxcode: bv32)
    requires Text(cs) && Within(cs, maxcode) && |Text8(cs)| <= room
    ensures Continues(Encode(Text16(cs) + rest, room, maxcode), |Text16(cs)|, Text8(cs),
                      Encode(rest, room - |Text8(cs)|, maxcode))
  {
    hide Encode, EncodeRound, IsScalar, Utf8Of, Utf16Of, Over, Continues;
    if cs == [] {
      assert Text16(cs) + rest == rest;
      Starts(Encode(rest, room, maxcode));
    } else {
      var c, more := cs[0], Text16(cs[1..]) + rest;
      assert Text16(cs) + rest == Utf16Of(c) + more;
      EncodeChar(c, more, room, maxcode);
      assert (Utf16Of(c) + more)[|Utf16Of(c)|..] == more;
      EncodeOfText(cs[1..], rest, room - |Utf8Of(c)|, maxcode);
      EncodeContinues(Utf16Of(c) + more, room, maxcode);
      ContinuesOn(Encode(Text16(cs) + rest, room, maxcode), |Utf16Of(c)|, Utf8Of(c),
                  Encode(more, room - |Utf8Of(c)|, maxcode),
                  |Text16(cs[1..])|, Text8(cs[1..]), Encode(rest, room - |Text8(cs)|, maxcode));
    }
  }

  /** However the decoder stops, it has read whole characters within its limits and written the same text. */
  lemma {:induction false} DecodeMeaning(frm: seq<bv8>, room: nat, maxcode: bv32) returns (cs: seq<bv32>)
    ensures Text(cs) && ByteWithin(cs, maxcode)
    ensures var r := Decode(frm, room, maxcode); frm[..r.consumed] == Text8(cs) && r.out == Text16(cs)
    decreases |frm|
  {
    hide DecodeRound, IsScalar, Utf8Of, Utf16Of, Over, ByteOver;
    cs := [];
    if frm != [] && room > 0 && DecodeRound(frm, room, maxcode).Take? {
      var r := DecodeRound(frm, room, maxcode);
      var c := DecodeTakes(frm, room, maxcode);
      var rest := DecodeMeaning(frm[r.n..], room - |r.out|, maxcode);
      cs := [c] + rest;
      TextParts(c, rest);
      Spliced(frm, r.n, Decode(frm[r.n..], room - |r.out|, maxcode).consumed);
    }
  }

  /** A text within the limits that fits is decoded, whatever follows it. */
  lemma {:induction false} DecodeOfText(cs: seq<bv32>, rest: seq<bv8>, room: nat, maxcode: bv32)
    requires Text(cs) && ByteWithin(cs, maxcode) && |Text16(cs)| <= room
    ensures Continues(Decode(Text8(cs) + rest, room, maxcode), |Text8(cs)|, Text16(cs),
                      Decode(rest, room - |Text16(cs)|, maxcode))
  {
    hide Decode, DecodeRound, IsScalar, Utf8Of, Utf16Of, Over, ByteOver, Continues;
    if cs == [] {
      assert Text8(cs) + rest == rest;
      Starts(Decode(rest, room, maxcode));
    } else {
      var c, more := cs[0], Text8(cs[1..]) + rest;
      assert Text8(cs) + rest == Utf8Of(c) + more;
      DecodeChar(c, more, room, maxcode);
      assert (Utf8Of(c) + more)[|Utf8Of(c)|..] == more;
      DecodeOfText(cs[1..], rest, room - |Utf16Of(c)|, maxcode);
      DecodeContinues(Utf8Of(c) + more, room, maxcode);
      ContinuesOn(Decode(Text8(cs) + rest, room, maxcode), |Utf8Of(c)|, Utf16Of(c),
                  Decode(more, room - |Utf16Of(c)|, maxcode),
                  |Text8(cs[1..])|, Text16(cs[1..]), Decode(rest, room - |Text16(cs)|, maxcode));
    }
  }

  /** The encoder succeeds exactly on UTF-16 of a text within the limit whose UTF-8 fits. */
  lemma EncodeSucceedsIff(frm: seq<bv16>, room: nat, maxcode: bv32)
    ensures Encode(frm, room, maxcode).status == Ok
       <==> exists cs :: Text(cs) && Within(cs, maxcode) && frm == Text16(cs) && |Text8(cs)| <= room
  {
    hide EncodeRound, Encode, Text, Text8, Text16, Within;
    if Encode(frm, room, maxcode).status == Ok {
      var cs := EncodeMeaning(frm, room, maxcode);
      EncodeAll(frm, room, maxcode);
      assert frm[..|frm|] == frm;
    }
    if cs :| Text(cs) && Within(cs, maxcode) && frm == Text16(cs) && |Text8(cs)| <= room {
      EncodeOfText(cs, [], room, maxcode);
      assert Text16(cs) + [] == frm;
      EncodeEnds([], room - |Text8(cs)|, maxcode);
    }
  }

  /** The decoder succeeds exactly on UTF-8 of a text within its limits whose UTF-16 fits. */
  lemma DecodeSucceedsIff(frm: seq<bv8>, room: nat, maxcode: bv32)
    ensures Decode(frm, room, maxcode).status == Ok
       <==> exists cs :: Text(cs) && ByteWithin(cs, maxcode) && frm == Text8(cs) && |Text16(cs)| <= room
  {
    hide DecodeRound, Decode, Text, Text8, Text16, ByteWithin;
    if Decode(frm, room, maxcode).status == Ok {
      var cs := DecodeMeaning(frm, room, maxcode);
      DecodeAll(frm, room, maxcode);
      assert frm[..|frm|] == frm;
    }
    if cs :| Text(cs) && ByteWithin(cs, maxcode) && frm == Text8(cs) && |Text16(cs)| <= room {
      DecodeOfText(cs, [], room, maxcode);
      assert Text8(cs) + [] == frm;
      DecodeEnds([], room - |Text16(cs)|, maxcode);
    }
  }

  // ----- the two conversions are inverse

  /** The limits of the two conversions agree on every character. */
  predicate Exact(maxcode: bv32) {
    maxcode < 0x80 || 0xC3 <= maxcode
  }

  lemma FirstByteWithin(c: bv32, maxcode: bv32)
    requires IsScalar(c) && !Over(c, maxcode) && Exact(maxcode)
    ensures !ByteOver(Utf8Of(c)[0], maxcode)
  {
    hide IsScalar, SizeOf, Over, ByteOver, OneByte, Two, Three, Four;
    SizeIsScalar(c);
    match SizeOf(c)
    case Bytes1 => UnitBytes(c, maxcode);
    case Bytes2 => UnitBytes(c, maxcode);
    case Bytes3 => ByteBelow(c, maxcode, Utf8Of(c)[0]);
    case Bytes4 => ByteBelow(c, maxcode, Utf8Of(c)[0]);
    case Bad =>
  }

  lemma LimitsAgree(cs: seq<bv32>, maxcode: bv32)
    requires Text(cs) && Within(cs, maxcode) && Exact(maxcode)
    ensures ByteWithin(cs, maxcode)
  {
    hide IsScalar, Over, ByteOver, Utf8Of;
    forall i | 0 <= i < |cs| ensures !ByteOver(Utf8Of(cs[i])[0], maxcode) {
      FirstByteWithin(cs[i], maxcode);
    }
  }

  /** Decoding what the encoder has written gives back what it has read. */
  ghost predicate ComesBack(u: seq<bv16>, room: nat, maxcode: bv32) {
    var e := Encode(u, room, maxcode);
    Decode(e.out, e.consumed, maxcode) == Outcome(Ok, |e.out|, u[..e.consumed])
  }

  lemma DecodeEncoded(u: seq<bv16>, room: nat, maxcode: bv32)
    requires Exact(maxcode)
    ensures ComesBack(u, room, maxcode)
  {
    hide Encode, Decode, Text, Text8, Text16, Within, ByteWithin, Exact;
    var e := Encode(u, room, maxcode);
    var cs := EncodeMeaning(u, room, maxcode);
    LimitsAgree(cs, maxcode);
    DecodesTo(cs, e.consumed, maxcode);
  }

  lemma DecodesTo(cs: seq<bv32>, room: nat, maxcode: bv32)
    requires Text(cs) && ByteWithin(cs, maxcode) && |Text16(cs)| <= room
    ensures Decode(Text8(cs), room, maxcode) == Outcome(Ok, |Text8(cs)|, Text16(cs))
  {
    hide Decode, Text, Text8, Text16, ByteWithin;
    DecodeOfText(cs, [], room, maxcode);
    assert Text8(cs) + [] == Text8(cs);
    DecodeEnds([], room - |Text16(cs)|, maxcode);
  }

  /** Encoding what the decoder has written gives back what it has read, whatever the limit. */
  lemma EncodeDecoded(b: seq<bv8>, room: nat, maxcode: bv32)
    ensures var d := Decode(b, room, maxcode);
            Encode(d.out, d.consumed, maxcode) == Outcome(Ok, |d.out|, b[..d.consumed])
  {
    hide Encode, Decode, Text, Text8, Text16, Over, ByteOver;
    var d := Decode(b, room, maxcode);
    var cs := DecodeMeaning(b, room, maxcode);
    EncodeOfText(cs, [], d.consumed, maxcode);
    assert Text16(cs) + [] == d.out;
    EncodeEnds([], d.consumed - |Text8(cs)|, maxcode);
  }

  /** A character within an inexact limit whose first byte is not. */
  function Victim(maxcode: bv32): (bv16, bv8) {
    if maxcode < 0xC2 then (0x80, 0xC2) else (0xC0, 0xC3)
  }

  /** For a limit in [0x80, 0xC3) the decoder refuses a character that the encoder accepts. */
  lemma RefusesOwnOutput(maxcode: bv32)
    requires !Exact(maxcode)
    ensures var (w, b) := Victim(maxcode);
            && Encode([w], 2, maxcode) == Outcome(Ok, 1, [b, 0x80])
            && Decode([b, 0x80], 1, maxcode) == Outcome(Error, 0, [])
  {
    hide EncodeRound, DecodeRound, Victim, Exact;
    var (w, b) := Victim(maxcode);
    VictimRounds(maxcode);
    assert [w][1..] == [];
    EncodeEnds([], 0, maxcode);
  }

  lemma VictimLimits(maxcode: bv32)
    requires !Exact(maxcode)
    ensures var (w, b) := Victim(maxcode);
            !UnitOver(w, maxcode) && ByteOver(b, maxcode) && SizeOfUnit(w) == Bytes2 && Encode2(w) == (b, 0x80)
  {
  }

  lemma VictimRounds(maxcode: bv32)
    requires !Exact(maxcode)
    ensures var (w, b) := Victim(maxcode);
            && EncodeRound([w], 2, maxcode) == Take(1, [b, 0x80])
            && DecodeRound([b, 0x80], 1, maxcode) == Stop(Error)
  {
    hide SizeOfByte, SizeOfUnit, UnitOver, ByteOver, Encode2, Exact, Victim;
    VictimLimits(maxcode);
  }

  /** Exactly the limits outside [0x80, 0xC3) make every encoded text come back. */
  lemma ComesBackIff(maxcode: bv32)
    ensures (forall u: seq<bv16>, room: nat :: ComesBack(u, room, maxcode)) <==> Exact(maxcode)
  {
    hide Exact, Encode, Decode, ComesBack, Victim;
    if Exact(maxcode) {
      forall u: seq<bv16>, room: nat ensures ComesBack(u, room, maxcode) {
        DecodeEncoded(u, room, maxcode);
      }
    } else {
      VictimLost(maxcode);
    }
  }

  lemma VictimLost(maxcode: bv32)
    requires !Exact(maxcode)
    ensures !ComesBack([Victim(maxcode).0], 2, maxcode)
  {
    hide Exact, Encode, Decode, Victim;
    RefusesOwnOutput(maxcode);
  }

  // ----- headers

  const MARK: bv32 := 0xFEFF

  lemma MarkIs()
    ensures IsScalar(MARK) && Utf8Of(MARK) == HEADER && Utf16Of(MARK) == [0xFEFF]
  {
    hide Utf8Of, Utf16Of, Encode1, Encode2, Encode3, Wide, IsScalar;
    MarkBits();
    var c := UnitText(0xFEFF, MAXCODE);
  }

  lemma MarkBits()
    ensures SizeOfUnit(0xFEFF) == Bytes3 && Wide(0xFEFF) == MARK && Encode3(0xFEFF) == (0xEF, 0xBB, 0xBF)
  {
  }

  lemma AnyWithin(c: bv32)
    requires IsScalar(c)
    ensures !Over(c, MAXCODE) && !ByteOver(Utf8Of(c)[0], MAXCODE)
  {
    hide IsScalar, Utf8Of, ByteOver, UnitOver, Over;
    ScalarBelow(c);
    UnitBelow(0, Utf8Of(c)[0]);
  }

  /** A text starts with the bytes of the header exactly when its first unit is the byte order mark. */
  lemma HeaderFirst(cs: seq<bv32>)
    requires Text(cs)
    ensures HEADER <= Text8(cs) <==> cs != [] && Text16(cs)[0] == 0xFEFF
    ensures HEADER <= Text8(cs) ==> Text8(cs)[3..] == Text8(cs[1..]) && Text16(cs)[1..] == Text16(cs[1..])
  {
    hide IsScalar, Utf8Of, Utf16Of, Over, ByteOver, EncodeRound, DecodeRound;
    if cs != [] {
      MarkIs();
      AnyWithin(cs[0]);
      AnyWithin(MARK);
      if HEADER <= Text8(cs) {
        DecodeChar(cs[0], Text8(cs[1..]), 2, MAXCODE);
        DecodeChar(MARK, Text8(cs)[3..], 2, MAXCODE);
        assert HEADER + Text8(cs)[3..] == Text8(cs);
      }
      if Text16(cs)[0] == 0xFEFF {
        EncodeChar(cs[0], Text16(cs[1..]), 4, MAXCODE);
        EncodeChar(MARK, Text16(cs)[1..], 4, MAXCODE);
        assert [0xFEFF] + Text16(cs)[1..] == Text16(cs);
      }
    }
  }

  /** What comes back from a text that was encoded and decoded, by the header modes of the two calls. */
  ghost function Reread(kept: seq<bv16>, generated: bool, consume: bool): seq<bv16> {
    if generated && !consume then [0xFEFF] + kept
    else if consume && !generated && kept != [] && kept[0] == 0xFEFF then kept[1..]
    else kept
  }

  lemma RereadText(cs: seq<bv32>, room: nat, maxcode: bv32, generated: bool, consume: bool)
    requires Text(cs) && ByteWithin(cs, maxcode) && |Text16(cs)| < room
    requires !Over(MARK, maxcode) && !ByteOver(0xEF, maxcode)
    ensures var b := (if generated then HEADER else []) + Text8(cs);
            Decoded(b, room, maxcode, consume) == Outcome(Ok, |b|, Reread(Text16(cs), generated, consume))
  {
    hide Decode, IsScalar, Utf8Of, Utf16Of, Over, ByteOver, Text8, Text16;
    assert [] + Text8(cs) == Text8(cs) == (HEADER + Text8(cs))[3..];
    if generated == consume || !(HEADER <= Text8(cs)) {
      DecodesTo(cs, room, maxcode);
    }
    if generated && !consume {
      MarkIs();
      TextParts(MARK, cs);
      DecodesTo([MARK] + cs, room, maxcode);
    }
    if consume && !generated {
      NoText(cs);
      HeaderFirst(cs);
      if HEADER <= Text8(cs) {
        assert |Text16(cs[1..])| == |Text16(cs)| - 1;
        DecodesTo(cs[1..], room, maxcode);
      }
    }
  }

  lemma NoText(cs: seq<bv32>)
    requires Text(cs)
    ensures Text16(cs) == [] <==> cs == []
  {
    hide IsScalar, Utf16Of;
  }

  /**
   With headers: the text comes back unless the header modes differ; a header that is generated and
   not consumed adds a byte order mark, one that is consumed and not generated takes one away.
   */
  lemma HeaderRoundTrip(u: seq<bv16>, room: nat, room2: nat, maxcode: bv32, generate: bool, consume: bool)
    requires !Over(MARK, maxcode) && |u| < room2
    ensures var e := Encoded(u, room, maxcode, generate);
            Decoded(e.out, room2, maxcode, consume)
            == Outcome(Ok, |e.out|, Reread(u[..e.consumed], generate && e.out != [], consume))
  {
    hide Encode, Decoded, Text, Text8, Text16, Within, ByteWithin, Over, ByteOver, Exact, Reread;
    MarkLimit(maxcode);
    if generate && room < 3 {
      assert u[..0] == [];
      NothingDecoded(room2, maxcode, consume);
    } else {
      var left := if generate then room - 3 else room;
      var cs := EncodeMeaning(u, left, maxcode);
      LimitsAgree(cs, maxcode);
      RereadText(cs, room2, maxcode, generate, consume);
      assert [] + Text8(cs) == Text8(cs);
    }
  }

  lemma MarkLimit(maxcode: bv32)
    requires !Over(MARK, maxcode)
    ensures Exact(maxcode) && !ByteOver(0xEF, maxcode)
  {
  }

  lemma NothingDecoded(room: nat, maxcode: bv32, consume: bool)
    ensures Decoded([], room, maxcode, consume) == Outcome(Ok, 0, Reread([], false, consume))
  {
  }

  /** What the decoder makes of a text whose header, if it has one, has been dealt with. */
  ghost function AfterHeader(written: seq<bv8>, header: nat, room: nat, maxcode: bv32): Outcome<bv16>
    requires header <= |written|
  {
    var r := Decode(written[header..], room, maxcode);
    Outcome(r.status, header + r.consumed, r.out)
  }

  /**
   Under a limit below the byte order mark a header that is generated and not consumed is refused.
   In every other case the header modes make no difference to the text.
   */
  lemma HeaderWithoutMark(u: seq<bv16>, room: nat, room2: nat, maxcode: bv32, generate: bool, consume: bool)
    requires Over(MARK, maxcode) && room2 > 0
    ensures var e := Encoded(u, room, maxcode, generate);
            var header := if generate && room >= 3 then 3 else 0;
            && header <= |e.out|
            && Decoded(e.out, room2, maxcode, consume)
               == if header == 3 && !consume then Outcome(Error, 0, []) else AfterHeader(e.out, header, room2, maxcode)
  {
    hide Encode, Decode, Over, UnitOver;
    var e := Encoded(u, room, maxcode, generate);
    if generate && room >= 3 {
      var text := Encode(u, room - 3, maxcode).out;
      MarkRefused(text, room2, maxcode);
    } else {
      assert e.out[0..] == e.out;
      if !generate {
        NoHeader(u, room, maxcode);
      }
    }
  }

  lemma MarkBytes(maxcode: bv32)
    ensures SizeOfByte(0xEF) == Bytes3 && Lead3(0xEF, 0xBB) && Tail(0xBF) && Decode3(0xEF, 0xBB, 0xBF) == 0xFEFF
    ensures Over(MARK, maxcode) <==> UnitOver(0xFEFF, maxcode)
  {
  }

  lemma MarkRefused(text: seq<bv8>, room: nat, maxcode: bv32)
    requires Over(MARK, maxcode) && room > 0
    ensures Decode(HEADER + text, room, maxcode) == Outcome(Error, 0, [])
  {
    hide SizeOfByte, Lead3, Tail, Decode3, UnitOver, ByteOver, Over;
    MarkBytes(maxcode);
    assert DecodeRound(HEADER + text, room, maxcode) == Stop(Error);
  }

  /** A text below the mark does not begin with the bytes of the header. */
  lemma NoHeader(u: seq<bv16>, room: nat, maxcode: bv32)
    requires Over(MARK, maxcode)
    ensures !(HEADER <= Encode(u, room, maxcode).out)
  {
    hide Text, Text8, Text16, Within, Over, UnitOver, SizeOfUnit;
    var e := Encode(u, room, maxcode);
    var cs := EncodeMeaning(u, room, maxcode);
    HeaderFirst(cs);
    NoText(cs);
    MarkBytes(maxcode);
    assert u != [] && u[0] == 0xFEFF ==> EncodeRound(u, room, maxcode) == Stop(Error);
    assert e.consumed > 0 ==> u[..e.consumed][0] == u[0];
  }

  /** So under such a limit, if it is exact, the text comes back from every combination but the refused one. */
  lemma ComesBackWithHeader(u: seq<bv16>, room: nat, room2: nat, maxcode: bv32, generate: bool, consume: bool)
    requires Over(MARK, maxcode) && Exact(maxcode) && |u| < room2 && !(generate && room >= 3 && !consume)
    ensures var e := Encoded(u, room, maxcode, generate);
            Decoded(e.out, room2, maxcode, consume) == Outcome(Ok, |e.out|, u[..e.consumed])
  {
    hide Encode, Decode, Over, Exact, Text, Text8, Text16, Within, ByteWithin;
    HeaderWithoutMark(u, room, room2, maxcode, generate, consume);
    var e := Encoded(u, room, maxcode, generate);
    if generate && room < 3 {
      assert e.out[0..] == [];
      assert u[..0] == [];
      DecodeEnds([], room2, maxcode);
    } else {
      var left := if generate then room - 3 else room;
      var text := Encode(u, left, maxcode).out;
      assert e.out[if generate then 3 else 0..] == text;
      var cs := EncodeMeaning(u, left, maxcode);
      LimitsAgree(cs, maxcode);
      DecodesTo(cs, room2, maxcode);
    }
  }
}
