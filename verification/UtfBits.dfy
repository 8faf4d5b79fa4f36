/**
 The bit arithmetic of UTF-8 and UTF-16, one character at a time: the expressions of the two
 converters, and the encodings of section 3 of RFC 3629 and section 2 of RFC 2781 they must agree with.
 */
module UtfBits {

  /** A Unicode scalar value: a code point that is not a surrogate. */
  predicate IsScalar(c: bv32) {
    c <= 0x10FFFF && !(0xD800 <= c <= 0xDFFF)
  }

  /** Bytes a character takes in UTF-8; Bad for what starts no character. */
  datatype Size = Bytes1 | Bytes2 | Bytes3 | Bytes4 | Bad

  function SizeOf(c: bv32): Size {
    if !IsScalar(c) then Bad
    else if c < 0x80 then Bytes1
    else if c < 0x800 then Bytes2
    else if c < 0x10000 then Bytes3
    else Bytes4
  }

  /** The branches of the encoder on a first unit: Four is a high surrogate, Bad a low one. */
  function SizeOfUnit(w: bv16): Size {
    if w < 0x80 then Bytes1
    else if w < 0x800 then Bytes2
    else if w < 0xD800 then Bytes3
    else if w < 0xDC00 then Bytes4
    else if w < 0xE000 then Bad
    else Bytes3
  }

  /** The branches of the decoder on a first byte. */
  function SizeOfByte(c1: bv8): Size {
    if c1 < 0x80 then Bytes1
    else if c1 < 0xC2 then Bad
    else if c1 < 0xE0 then Bytes2
    else if c1 < 0xF0 then Bytes3
    else if c1 < 0xF5 then Bytes4
    else Bad
  }

  predicate Tail(c: bv8) {
    c & 0xC0 == 0x80
  }

  predicate LowSurrogate(w: bv16) {
    w & 0xFC00 == 0xDC00
  }

  predicate UnitOver(w: bv16, maxcode: bv32) {
    w as bv32 > maxcode
  }

  predicate ByteOver(c1: bv8, maxcode: bv32) {
    c1 as bv32 > maxcode
  }

  predicate Over(c: bv32, maxcode: bv32) {
    c > maxcode
  }

  // ----- the encodings, by the bits of the scalar value

  function OneByte(c: bv32): bv8
    requires SizeOf(c) == Bytes1
  {
    c as bv8
  }

  function OneUnit(c: bv32): bv16
    requires SizeOf(c) in {Bytes1, Bytes2, Bytes3}
  {
    c as bv16
  }

  function Two(c: bv32): (bv8, bv8)
    requires SizeOf(c) == Bytes2
  {
    ((0xC0 | (c >> 6)) as bv8, (0x80 | (c & 0x3F)) as bv8)
  }

  function Three(c: bv32): (bv8, bv8, bv8)
    requires SizeOf(c) == Bytes3
  {
    ((0xE0 | (c >> 12)) as bv8, (0x80 | ((c >> 6) & 0x3F)) as bv8, (0x80 | (c & 0x3F)) as bv8)
  }

  function Four1(c: bv32): bv8
    requires c <= 0x10FFFF
  {
    (0xF0 | (c >> 18)) as bv8
  }

  function Four2(c: bv32): bv8 {
    (0x80 | ((c >> 12) & 0x3F)) as bv8
  }

  function Four3(c: bv32): bv8 {
    (0x80 | ((c >> 6) & 0x3F)) as bv8
  }

  function Four4(c: bv32): bv8 {
    (0x80 | (c & 0x3F)) as bv8
  }

  function Four(c: bv32): (bv8, bv8, bv8, bv8)
    requires SizeOf(c) == Bytes4
  {
    (Four1(c), Four2(c), Four3(c), Four4(c))
  }

  function PairHigh(c: bv32): bv16
    requires 0x10000 <= c <= 0x10FFFF
  {
    (0xD800 | ((c - 0x10000) >> 10)) as bv16
  }

  function PairLow(c: bv32): bv16 {
    (0xDC00 | ((c - 0x10000) & 0x3FF)) as bv16
  }

  function Pair(c: bv32): (bv16, bv16)
    requires SizeOf(c) == Bytes4
  {
    (PairHigh(c), PairLow(c))
  }

  // ----- the expressions of the encoder

  function Encode1(w: bv16): bv8
    requires SizeOfUnit(w) == Bytes1
  {
    w as bv8
  }

  function Encode2(w: bv16): (bv8, bv8)
    requires SizeOfUnit(w) == Bytes2
  {
    ((0xC0 | (w >> 6)) as bv8, (0x80 | (w & 0x3F)) as bv8)
  }

  function Encode3(w: bv16): (bv8, bv8, bv8) {
    ((0xE0 | (w >> 12)) as bv8, (0x80 | ((w & 0x0FC0) >> 6)) as bv8, (0x80 | (w & 0x3F)) as bv8)
  }

  function PairCode(w1: bv16, w2: bv16): bv32 {
    (((((w1 as bv32) & 0x03C0) >> 6) + 1) << 16) + (((w1 as bv32) & 0x3F) << 10) + ((w2 as bv32) & 0x3FF)
  }

  function Plane(w1: bv16): bv8 {
    (((w1 & 0x03C0) >> 6) + 1) as bv8
  }

  function First4(w1: bv16): bv8 {
    0xF0 | (Plane(w1) >> 2)
  }

  function Second4(w1: bv16): bv8 {
    0x80 | ((Plane(w1) & 0x03) << 4) | (((w1 & 0x3C) >> 2) as bv8)
  }

  function Third4(w1: bv16, w2: bv16): bv8 {
    0x80 | (((w1 & 0x3) as bv8) << 4) | (((w2 & 0x03C0) >> 6) as bv8)
  }

  function Fourth4(w2: bv16): bv8 {
    0x80 | ((w2 & 0x3F) as bv8)
  }

  function Encode4(w1: bv16, w2: bv16): (bv8, bv8, bv8, bv8) {
    (First4(w1), Second4(w1), Third4(w1, w2), Fourth4(w2))
  }

  // ----- the expressions of the decoder

  function Decode1(c1: bv8): bv16 {
    c1 as bv16
  }

  function Decode2(c1: bv8, c2: bv8): bv16 {
    (((c1 & 0x1F) as bv16) << 6) | ((c2 & 0x3F) as bv16)
  }

  function Decode3(c1: bv8, c2: bv8, c3: bv8): bv16 {
    (((c1 & 0x0F) as bv16) << 12) | (((c2 & 0x3F) as bv16) << 6) | ((c3 & 0x3F) as bv16)
  }

  function Code4(c1: bv8, c2: bv8, c3: bv8, c4: bv8): bv32 {
    (((c1 & 7) as bv32) << 18) + (((c2 & 0x3F) as bv32) << 12) + (((c3 & 0x3F) as bv32) << 6) + ((c4 & 0x3F) as bv32)
  }

  function HighOf(c1: bv8, c2: bv8, c3: bv8): bv16 {
    0xD800 | ((((((c1 & 0x07) as bv16) << 2) | (((c2 & 0x30) >> 4) as bv16)) - 1) << 6)
    | (((c2 & 0x0F) as bv16) << 2) | (((c3 & 0x30) >> 4) as bv16)
  }

  function LowOf(c3: bv8, c4: bv8): bv16 {
    0xDC00 | (((c3 & 0x0F) as bv16) << 6) | ((c4 & 0x3F) as bv16)
  }

  function Decode4(c1: bv8, c2: bv8, c3: bv8, c4: bv8): (bv16, bv16) {
    (HighOf(c1, c2, c3), LowOf(c3, c4))
  }

  // ----- agreement

  /** The first two of three bytes, as the decoder tests them. */
  predicate Lead3(c1: bv8, c2: bv8) {
    && 0xE0 <= c1 < 0xF0
    && (if c1 == 0xE0 then c2 & 0xE0 == 0xA0 else if c1 == 0xED then c2 & 0xE0 == 0x80 else c2 & 0xC0 == 0x80)
  }

  /** The first two of four bytes, as the decoder tests them. */
  predicate Lead4(c1: bv8, c2: bv8) {
    && 0xF0 <= c1 < 0xF5
    && (if c1 == 0xF0 then 0x90 <= c2 <= 0xBF else if c1 == 0xF4 then c2 & 0xF0 == 0x80 else c2 & 0xC0 == 0x80)
  }

  function Wide(w: bv16): bv32 {
    w as bv32
  }

  /** A unit outside the surrogates stands for one character. */
  lemma UnitIs(w: bv16, maxcode: bv32)
    requires SizeOfUnit(w) in {Bytes1, Bytes2, Bytes3}
    ensures SizeOf(Wide(w)) == SizeOfUnit(w) && OneUnit(Wide(w)) == w
    ensures Over(Wide(w), maxcode) <==> UnitOver(w, maxcode)
  {
  }

  lemma WideOf(c: bv32)
    requires SizeOf(c) in {Bytes1, Bytes2, Bytes3}
    ensures Wide(OneUnit(c)) == c && SizeOfUnit(OneUnit(c)) == SizeOf(c)
  {
  }

  lemma Encode1Is(w: bv16)
    requires SizeOfUnit(w) == Bytes1 && SizeOf(Wide(w)) == Bytes1
    ensures Encode1(w) == OneByte(Wide(w)) && Decode1(Encode1(w)) == w && SizeOfByte(Encode1(w)) == Bytes1
  {
  }

  lemma Encode2Is(w: bv16)
    requires SizeOfUnit(w) == Bytes2 && SizeOf(Wide(w)) == Bytes2
    ensures Encode2(w) == Two(Wide(w)) && Decode2(Encode2(w).0, Encode2(w).1) == w
    ensures SizeOfByte(Encode2(w).0) == Bytes2 && Tail(Encode2(w).1)
  {
  }

  lemma Encode3Is(w: bv16)
    requires SizeOfUnit(w) == Bytes3 && SizeOf(Wide(w)) == Bytes3
    ensures Encode3(w) == Three(Wide(w)) && Decode3(Encode3(w).0, Encode3(w).1, Encode3(w).2) == w
    ensures SizeOfByte(Encode3(w).0) == Bytes3 && Lead3(Encode3(w).0, Encode3(w).1) && Tail(Encode3(w).2)
  {
  }

  lemma Decode1Is(c1: bv8, maxcode: bv32)
    requires SizeOfByte(c1) == Bytes1
    ensures UnitOver(Decode1(c1), maxcode) <==> ByteOver(c1, maxcode)
    ensures SizeOfUnit(Decode1(c1)) == Bytes1 && Encode1(Decode1(c1)) == c1
  {
  }

  lemma Decode2Is(c1: bv8, c2: bv8)
    requires SizeOfByte(c1) == Bytes2 && Tail(c2)
    ensures SizeOfUnit(Decode2(c1, c2)) == Bytes2 && Encode2(Decode2(c1, c2)) == (c1, c2)
  {
  }

  lemma Decode3Is(c1: bv8, c2: bv8, c3: bv8)
    requires Lead3(c1, c2) && Tail(c3)
    ensures var w := Decode3(c1, c2, c3);
            SizeOfUnit(w) == Bytes3 && Encode3(w) == (c1, c2, c3)
  {
  }

  // ----- four bytes: everything in terms of three bit fields

  /** The fields of a supplementary code point: z is its plane, x and y the other bits. */
  predicate Fields(z: bv16, x: bv16, y: bv16) {
    1 <= z <= 16 && x < 0x40 && y < 0x400
  }

  function High(z: bv16, x: bv16): bv16 {
    0xD800 | ((z - 1) << 6) | x
  }

  function Low(y: bv16): bv16 {
    0xDC00 | y
  }

  function Code(z: bv16, x: bv16, y: bv16): bv32 {
    ((z as bv32) << 16) | ((x as bv32) << 10) | (y as bv32)
  }

  function Byte1(z: bv16): bv8
    requires z <= 16
  {
    0xF0 | ((z >> 2) as bv8)
  }

  function Byte2(z: bv16, x: bv16): bv8
    requires x < 0x40
  {
    0x80 | ((((z & 3) << 4) | (x >> 2)) as bv8)
  }

  function Byte3(x: bv16, y: bv16): bv8
    requires y < 0x400
  {
    0x80 | ((((x & 3) << 4) | (y >> 6)) as bv8)
  }

  function Byte4(y: bv16): bv8 {
    0x80 | ((y & 0x3F) as bv8)
  }

  lemma SplitPair(w1: bv16, w2: bv16) returns (z: bv16, x: bv16, y: bv16)
    requires SizeOfUnit(w1) == Bytes4 && LowSurrogate(w2)
    ensures Fields(z, x, y) && w1 == High(z, x) && w2 == Low(y)
  {
    z, x, y := ((w1 & 0x03C0) >> 6) + 1, w1 & 0x3F, w2 & 0x3FF;
  }

  lemma SplitCode(c: bv32) returns (z: bv16, x: bv16, y: bv16)
    requires SizeOf(c) == Bytes4
    ensures Fields(z, x, y) && c == Code(z, x, y)
  {
    z, x, y := (c >> 16) as bv16, ((c >> 10) & 0x3F) as bv16, (c & 0x3FF) as bv16;
  }

  lemma SplitBytes(c1: bv8, c2: bv8, c3: bv8, c4: bv8) returns (z: bv16, x: bv16, y: bv16)
    requires Lead4(c1, c2) && Tail(c3) && Tail(c4)
    ensures Fields(z, x, y)
    ensures c1 == Byte1(z) && c2 == Byte2(z, x) && c3 == Byte3(x, y) && c4 == Byte4(y)
  {
    z := (((c1 & 7) as bv16) << 2) | (((c2 & 0x30) >> 4) as bv16);
    x := (((c2 & 0x0F) as bv16) << 2) | (((c3 & 0x30) >> 4) as bv16);
    y := (((c3 & 0x0F) as bv16) << 6) | ((c4 & 0x3F) as bv16);
  }

  lemma SurrogatesOf(z: bv16, x: bv16, y: bv16)
    requires Fields(z, x, y)
    ensures SizeOfUnit(High(z, x)) == Bytes4 && LowSurrogate(Low(y))
  {
  }

  // the encoder

  lemma First4Is(z: bv16, x: bv16)
    requires Fields(z, x, 0)
    ensures First4(High(z, x)) == Byte1(z)
  {
  }

  lemma Second4Is(z: bv16, x: bv16)
    requires Fields(z, x, 0)
    ensures Second4(High(z, x)) == Byte2(z, x)
  {
  }

  lemma Third4Is(z: bv16, x: bv16, y: bv16)
    requires Fields(z, x, y)
    ensures Third4(High(z, x), Low(y)) == Byte3(x, y)
  {
  }

  lemma Fourth4Is(y: bv16)
    requires y < 0x400
    ensures Fourth4(Low(y)) == Byte4(y)
  {
  }

  lemma AddOr(x: bv32, y: bv32)
    requires x & y == 0
    ensures x + y == x | y
  {
  }

  function PlaneBits(w1: bv16): bv32 {
    ((((w1 as bv32) & 0x03C0) >> 6) + 1) << 16
  }

  function MiddleBits(w1: bv16): bv32 {
    ((w1 as bv32) & 0x3F) << 10
  }

  function LowBits(w2: bv16): bv32 {
    (w2 as bv32) & 0x3FF
  }

  lemma PairBits(z: bv16, x: bv16, y: bv16)
    requires Fields(z, x, y)
    ensures PlaneBits(High(z, x)) | MiddleBits(High(z, x)) | LowBits(Low(y)) == Code(z, x, y)
  {
  }

  lemma PairCodeIs(w1: bv16, w2: bv16)
    ensures PairCode(w1, w2) == PlaneBits(w1) | MiddleBits(w1) | LowBits(w2)
  {
    var a, b, c := PlaneBits(w1), MiddleBits(w1), LowBits(w2);
    AddOr(a, b);
    AddOr(a | b, c);
  }

  // the reference

  lemma CodeRange(z: bv16, x: bv16, y: bv16)
    requires Fields(z, x, y)
    ensures SizeOf(Code(z, x, y)) == Bytes4 && 0x10000 <= Code(z, x, y) <= 0x10FFFF
  {
  }

  lemma Four1Is(z: bv16, x: bv16, y: bv16)
    requires Fields(z, x, y) && Code(z, x, y) <= 0x10FFFF
    ensures Four1(Code(z, x, y)) == Byte1(z)
  {
  }

  lemma Four2Is(z: bv16, x: bv16, y: bv16)
    requires Fields(z, x, y)
    ensures Four2(Code(z, x, y)) == Byte2(z, x)
  {
  }

  lemma Four3Is(z: bv16, x: bv16, y: bv16)
    requires Fields(z, x, y)
    ensures Four3(Code(z, x, y)) == Byte3(x, y)
  {
  }

  lemma Four4Is(z: bv16, x: bv16, y: bv16)
    requires Fields(z, x, y)
    ensures Four4(Code(z, x, y)) == Byte4(y)
  {
  }

  lemma PairHighIs(z: bv16, x: bv16, y: bv16)
    requires Fields(z, x, y) && 0x10000 <= Code(z, x, y) <= 0x10FFFF
    ensures PairHigh(Code(z, x, y)) == High(z, x)
  {
  }

  lemma PairLowIs(z: bv16, x: bv16, y: bv16)
    requires Fields(z, x, y)
    ensures PairLow(Code(z, x, y)) == Low(y)
  {
  }

  // the decoder

  lemma Lead4Is(z: bv16, x: bv16, y: bv16)
    requires Fields(z, x, y)
    ensures SizeOfByte(Byte1(z)) == Bytes4 && Lead4(Byte1(z), Byte2(z, x)) && Tail(Byte3(x, y)) && Tail(Byte4(y))
  {
  }

  lemma HighOfIs(z: bv16, x: bv16, y: bv16)
    requires Fields(z, x, y)
    ensures HighOf(Byte1(z), Byte2(z, x), Byte3(x, y)) == High(z, x)
  {
  }

  lemma LowOfIs(x: bv16, y: bv16)
    requires y < 0x400
    ensures LowOf(Byte3(x, y), Byte4(y)) == Low(y)
  {
  }

  function CodeBits1(c1: bv8): bv32 {
    ((c1 & 7) as bv32) << 18
  }

  function CodeBits2(c2: bv8): bv32 {
    ((c2 & 0x3F) as bv32) << 12
  }

  function CodeBits3(c3: bv8): bv32 {
    ((c3 & 0x3F) as bv32) << 6
  }

  function CodeBits4(c4: bv8): bv32 {
    (c4 & 0x3F) as bv32
  }

  lemma CodeBits(z: bv16, x: bv16, y: bv16)
    requires Fields(z, x, y)
    ensures CodeBits1(Byte1(z)) | CodeBits2(Byte2(z, x)) | CodeBits3(Byte3(x, y)) | CodeBits4(Byte4(y)) == Code(z, x, y)
  {
  }

  lemma Code4Is(c1: bv8, c2: bv8, c3: bv8, c4: bv8)
    ensures Code4(c1, c2, c3, c4) == CodeBits1(c1) | CodeBits2(c2) | CodeBits3(c3) | CodeBits4(c4)
  {
    var a, b, c, d := CodeBits1(c1), CodeBits2(c2), CodeBits3(c3), CodeBits4(c4);
    AddOr(a, b);
    AddOr(a | b, c);
    AddOr(a | b | c, d);
  }

  // ----- the four-byte case as a whole

  lemma PairCodeOfFields(z: bv16, x: bv16, y: bv16)
    requires Fields(z, x, y)
    ensures PairCode(High(z, x), Low(y)) == Code(z, x, y)
  {
    hide SizeOf, SizeOfUnit, SizeOfByte, LowSurrogate, Tail, High, Low, Code;
    hide PlaneBits, MiddleBits, LowBits, PairCode;
    PairBits(z, x, y);
    PairCodeIs(High(z, x), Low(y));
  }

  lemma Code4OfFields(z: bv16, x: bv16, y: bv16)
    requires Fields(z, x, y)
    ensures z <= 16 && x < 0x40 && y < 0x400
    ensures Code4(Byte1(z), Byte2(z, x), Byte3(x, y), Byte4(y)) == Code(z, x, y)
  {
    hide Code, Code4, Byte1, Byte2, Byte3, Byte4, CodeBits1, CodeBits2, CodeBits3, CodeBits4;
    CodeBits(z, x, y);
    Code4Is(Byte1(z), Byte2(z, x), Byte3(x, y), Byte4(y));
  }

  lemma BytesOfFields(z: bv16, x: bv16, y: bv16)
    requires Fields(z, x, y)
    ensures z <= 16 && x < 0x40 && y < 0x400 && SizeOf(Code(z, x, y)) == Bytes4
    ensures Encode4(High(z, x), Low(y)) == (Byte1(z), Byte2(z, x), Byte3(x, y), Byte4(y))
    ensures Four(Code(z, x, y)) == (Byte1(z), Byte2(z, x), Byte3(x, y), Byte4(y))
  {
    hide SizeOf, SizeOfUnit, SizeOfByte, LowSurrogate, Tail, High, Low, Code;
    hide Byte1, Byte2, Byte3, Byte4;
    hide First4, Second4, Third4, Fourth4, Four1, Four2, Four3, Four4;
    CodeRange(z, x, y);
    First4Is(z, x);
    Second4Is(z, x);
    Third4Is(z, x, y);
    Fourth4Is(y);
    Four1Is(z, x, y);
    Four2Is(z, x, y);
    Four3Is(z, x, y);
    Four4Is(z, x, y);
  }

  lemma UnitsOfFields(z: bv16, x: bv16, y: bv16)
    requires Fields(z, x, y)
    ensures z <= 16 && x < 0x40 && y < 0x400 && SizeOf(Code(z, x, y)) == Bytes4
    ensures Pair(Code(z, x, y)) == (High(z, x), Low(y))
    ensures Decode4(Byte1(z), Byte2(z, x), Byte3(x, y), Byte4(y)) == (High(z, x), Low(y))
  {
    hide SizeOf, SizeOfUnit, SizeOfByte, LowSurrogate, Tail, High, Low, Code;
    hide Byte1, Byte2, Byte3, Byte4, HighOf, LowOf, PairHigh, PairLow;
    CodeRange(z, x, y);
    PairHighIs(z, x, y);
    PairLowIs(z, x, y);
    HighOfIs(z, x, y);
    LowOfIs(x, y);
  }

  lemma FromFields(z: bv16, x: bv16, y: bv16)
    requires Fields(z, x, y)
    ensures var (w1, w2, c) := (High(z, x), Low(y), Code(z, x, y));
            var (b1, b2, b3, b4) := (Byte1(z), Byte2(z, x), Byte3(x, y), Byte4(y));
            && SizeOfUnit(w1) == Bytes4 && LowSurrogate(w2) && SizeOf(c) == Bytes4
            && SizeOfByte(b1) == Bytes4 && Lead4(b1, b2) && Tail(b3) && Tail(b4)
            && PairCode(w1, w2) == c && Pair(c) == (w1, w2)
            && Encode4(w1, w2) == Four(c) == (b1, b2, b3, b4)
            && Decode4(b1, b2, b3, b4) == (w1, w2) && Code4(b1, b2, b3, b4) == c
  {
    hide SizeOf, SizeOfUnit, SizeOfByte, LowSurrogate, Tail, High, Low, Code;
    hide Byte1, Byte2, Byte3, Byte4, Lead4, PairCode, Code4, Encode4, Decode4, Four, Pair;
    SurrogatesOf(z, x, y);
    Lead4Is(z, x, y);
    PairCodeOfFields(z, x, y);
    Code4OfFields(z, x, y);
    BytesOfFields(z, x, y);
    UnitsOfFields(z, x, y);
  }

  lemma PairOver(w1: bv16, c: bv32, maxcode: bv32)
    requires SizeOf(c) == Bytes4 && !Over(c, maxcode)
    ensures !UnitOver(w1, maxcode)
  {
  }

  /** A surrogate pair stands for one code point, which the encoder and the decoder agree about. */
  lemma PairAgrees(w1: bv16, w2: bv16)
    requires SizeOfUnit(w1) == Bytes4 && LowSurrogate(w2)
    ensures var (c, b) := (PairCode(w1, w2), Encode4(w1, w2));
            && SizeOf(c) == Bytes4 && Pair(c) == (w1, w2) && Four(c) == b
            && SizeOfByte(b.0) == Bytes4 && Lead4(b.0, b.1) && Tail(b.2) && Tail(b.3)
            && Decode4(b.0, b.1, b.2, b.3) == (w1, w2) && Code4(b.0, b.1, b.2, b.3) == c
  {
    hide SizeOf, SizeOfUnit, SizeOfByte, LowSurrogate, Tail, High, Low, Code;
    hide Byte1, Byte2, Byte3, Byte4, Fields, Lead4, PairCode, Code4, Encode4, Decode4, Four, Pair;
    var z, x, y := SplitPair(w1, w2);
    FromFields(z, x, y);
  }

  lemma BytesAgree(c1: bv8, c2: bv8, c3: bv8, c4: bv8)
    requires Lead4(c1, c2) && Tail(c3) && Tail(c4)
    ensures var (w1, w2) := Decode4(c1, c2, c3, c4);
            && SizeOfUnit(w1) == Bytes4 && LowSurrogate(w2)
            && Encode4(w1, w2) == (c1, c2, c3, c4) && PairCode(w1, w2) == Code4(c1, c2, c3, c4)
  {
    hide SizeOf, SizeOfUnit, SizeOfByte, LowSurrogate, Tail, High, Low, Code;
    hide Byte1, Byte2, Byte3, Byte4, Fields, Lead4, PairCode, Code4, Encode4, Decode4, Four, Pair;
    var z, x, y := SplitBytes(c1, c2, c3, c4);
    FromFields(z, x, y);
  }

  lemma CodeAgrees(c: bv32)
    requires SizeOf(c) == Bytes4
    ensures var (w1, w2) := Pair(c);
            SizeOfUnit(w1) == Bytes4 && LowSurrogate(w2) && PairCode(w1, w2) == c
  {
    hide SizeOf, SizeOfUnit, SizeOfByte, LowSurrogate, Tail, High, Low, Code;
    hide Byte1, Byte2, Byte3, Byte4, Fields, Lead4, PairCode, Code4, Encode4, Decode4, Four, Pair;
    var z, x, y := SplitCode(c);
    FromFields(z, x, y);
  }

  // ----- the limits

  lemma UnitBytes(c: bv32, maxcode: bv32)
    requires !Over(c, maxcode) && (maxcode < 0x80 || 0xC3 <= maxcode)
    ensures SizeOf(c) == Bytes1 ==> !ByteOver(OneByte(c), maxcode)
    ensures SizeOf(c) == Bytes2 ==> !ByteOver(Two(c).0, maxcode)
  {
  }

  lemma ByteBelow(c: bv32, maxcode: bv32, b: bv8)
    requires !Over(c, maxcode) && SizeOf(c) in {Bytes3, Bytes4}
    ensures !ByteOver(b, maxcode)
  {
  }

  lemma ScalarBelow(c: bv32)
    requires IsScalar(c)
    ensures !Over(c, 0x10FFFF)
  {
  }

  lemma UnitBelow(w: bv16, b: bv8)
    ensures !UnitOver(w, 0x10FFFF) && !ByteOver(b, 0x10FFFF)
  {
  }

  // ----- the octets of section 4 of RFC 3629

  predicate OctetTail(c: bv8) {
    0x80 <= c <= 0xBF
  }

  predicate OctetLead2(c1: bv8) {
    0xC2 <= c1 <= 0xDF
  }

  predicate OctetLead3(c1: bv8, c2: bv8) {
    || (c1 == 0xE0 && 0xA0 <= c2 <= 0xBF)
    || (0xE1 <= c1 <= 0xEC && OctetTail(c2))
    || (c1 == 0xED && 0x80 <= c2 <= 0x9F)
    || (0xEE <= c1 <= 0xEF && OctetTail(c2))
  }

  predicate OctetLead4(c1: bv8, c2: bv8) {
    || (c1 == 0xF0 && 0x90 <= c2 <= 0xBF)
    || (0xF1 <= c1 <= 0xF3 && OctetTail(c2))
    || (c1 == 0xF4 && 0x80 <= c2 <= 0x8F)
  }

  lemma OctetsAgree(c1: bv8, c2: bv8)
    ensures Tail(c2) <==> OctetTail(c2)
    ensures SizeOfByte(c1) == Bytes1 <==> c1 <= 0x7F
    ensures SizeOfByte(c1) == Bytes2 <==> OctetLead2(c1)
  {
  }

  lemma LeadsAgree(c1: bv8, c2: bv8)
    ensures SizeOfByte(c1) == Bytes3 && Lead3(c1, c2) <==> OctetLead3(c1, c2)
    ensures SizeOfByte(c1) == Bytes4 && Lead4(c1, c2) <==> OctetLead4(c1, c2)
  {
  }

  /** The number of octets a first octet announces; 0 if it announces none. */
  function Announced(c1: bv8): nat {
    if c1 <= 0x7F then 1
    else if OctetLead2(c1) then 2
    else if 0xE0 <= c1 <= 0xEF then 3
    else if 0xF0 <= c1 <= 0xF4 then 4
    else 0
  }

  lemma AnnouncedAgrees(c1: bv8)
    ensures Announced(c1)
         == match SizeOfByte(c1) case Bytes1 => 1 case Bytes2 => 2 case Bytes3 => 3 case Bytes4 => 4 case Bad => 0
  {
  }

  lemma HighSurrogateIs(w: bv16)
    ensures SizeOfUnit(w) == Bytes4 <==> 0xD800 <= w <= 0xDBFF
  {
  }
}
