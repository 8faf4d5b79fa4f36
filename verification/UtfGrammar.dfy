/** The decoder against the grammar of section 4 of RFC 3629. */
module UtfGrammar {
  import opened UtfBits
  import opened Utf

  /** UTF8-char: one well-formed character. */
  ghost predicate OctetChar(b: seq<bv8>) {
    match |b|
    case 1 => b[0] <= 0x7F
    case 2 => OctetLead2(b[0]) && OctetTail(b[1])
    case 3 => OctetLead3(b[0], b[1]) && OctetTail(b[2])
    case 4 => OctetLead4(b[0], b[1]) && OctetTail(b[2]) && OctetTail(b[3])
    case _ => false
  }

  /** UTF8-octets: a sequence of well-formed characters. */
  ghost predicate Octets(b: seq<bv8>)
    decreases |b|
  {
    b == [] || exists n :: 1 <= n <= |b| && OctetChar(b[..n]) && Octets(b[n..])
  }

  lemma Code4Below(c1: bv8, c2: bv8, c3: bv8, c4: bv8)
    requires Lead4(c1, c2) && Tail(c3) && Tail(c4)
    ensures !Over(Code4(c1, c2, c3, c4), MAXCODE)
  {
    hide Lead4, Tail, Over, Code4, Decode4, PairCode, SizeOf, SizeOfUnit, LowSurrogate, Encode4, SizeOfByte;
    hide Four, Pair;
    BytesAgree(c1, c2, c3, c4);
    var w := Decode4(c1, c2, c3, c4);
    PairAgrees(w.0, w.1);
    FourBelow(PairCode(w.0, w.1));
  }

  lemma FourBelow(c: bv32)
    requires SizeOf(c) == Bytes4
    ensures !Over(c, MAXCODE)
  {
  }

  /** With room for it, the decoder takes n bytes exactly when they are a character. */
  lemma RoundIff(b: seq<bv8>, room: nat, n: nat)
    requires 1 <= n <= |b| <= room
    ensures OctetChar(b[..n]) <==> DecodeRound(b, room, MAXCODE).Take? && DecodeRound(b, room, MAXCODE).n == n
  {
    hide SizeOfByte, Tail, Lead3, Lead4, Over, UnitOver, ByteOver, Decode1, Decode2, Decode3, Decode4, Code4;
    hide OctetTail, OctetLead2, OctetLead3, OctetLead4;
    var c1 := b[0];
    var c2 := if |b| > 1 then b[1] else 0;
    UnitBelow(Decode2(c1, c2), c1);
    OctetsAgree(c1, c2);
    LeadsAgree(c1, c2);
    if |b| > 2 {
      OctetsAgree(c1, b[2]);
      UnitBelow(Decode3(c1, c2, b[2]), c1);
      if |b| > 3 {
        OctetsAgree(c1, b[3]);
        if Lead4(c1, c2) && Tail(b[2]) && Tail(b[3]) {
          Code4Below(c1, c2, b[2], b[3]);
        }
      }
    }
  }

  /** The decoder accepts exactly what the grammar generates. */
  lemma {:induction false} AcceptsIff(b: seq<bv8>, room: nat)
    requires |b| <= room
    ensures Decode(b, room, MAXCODE).status == Ok <==> Octets(b)
    decreases |b|
  {
    hide DecodeRound, OctetChar;
    if b != [] {
      forall n | 1 <= n <= |b|
        ensures OctetChar(b[..n]) <==> DecodeRound(b, room, MAXCODE).Take? && DecodeRound(b, room, MAXCODE).n == n
      {
        RoundIff(b, room, n);
      }
      var r := DecodeRound(b, room, MAXCODE);
      if r.Take? {
        AcceptsIff(b[r.n..], room - |r.out|);
      }
    }
  }
}
