/**
 Why a UTF conversion stops: each status in terms of what is left unread and of the room that is left,
 with the octets of section 4 of RFC 3629 and the encodings of single characters.
 */
module UtfStatus {
  import opened UtfBits
  import opened Utf
  import opened UtfText

  // ----- the decoder

  /** The input ends inside the character that its first octet announces. */
  ghost predicate CutOff(rest: seq<bv8>, maxcode: bv32)
    requires rest != []
  {
    !ByteOver(rest[0], maxcode) && |rest| < Announced(rest[0])
  }

  /** The input goes on with a well-formed character of four octets, which needs two units. */
  ghost predicate NeedsPair(rest: seq<bv8>, maxcode: bv32)
    requires rest != []
  {
    && !ByteOver(rest[0], maxcode) && |rest| >= 4
    && OctetLead4(rest[0], rest[1]) && OctetTail(rest[2]) && OctetTail(rest[3])
  }

  /** The input goes on with a character within the limits, for which there is room. */
  ghost predicate Decodable(rest: seq<bv8>, room: nat, maxcode: bv32) {
    exists c :: && IsScalar(c) && Utf8Of(c) <= rest && |Utf16Of(c)| <= room
                && !Over(c, maxcode) && !ByteOver(Utf8Of(c)[0], maxcode)
  }

  lemma DecodeStops(rest: seq<bv8>, room: nat, maxcode: bv32)
    requires rest != [] && room > 0 && DecodeRound(rest, room, maxcode).Stop?
    ensures DecodeRound(rest, room, maxcode).status == Partial <==>
            CutOff(rest, maxcode) || (room == 1 && NeedsPair(rest, maxcode))
  {
    hide SizeOfByte, Tail, Lead3, Lead4, Over, UnitOver, ByteOver, Decode1, Decode2, Decode3, Decode4, Code4;
    hide OctetTail, OctetLead2, OctetLead3, OctetLead4, Announced;
    AnnouncedAgrees(rest[0]);
    if |rest| >= 4 {
      LeadsAgree(rest[0], rest[1]);
      OctetsAgree(rest[0], rest[2]);
      OctetsAgree(rest[0], rest[3]);
    }
  }

  lemma NotDecodable(rest: seq<bv8>, room: nat, maxcode: bv32)
    requires rest != [] && room > 0 && DecodeRound(rest, room, maxcode).Stop?
    ensures !Decodable(rest, room, maxcode)
  {
    hide DecodeRound, IsScalar, Utf8Of, Utf16Of, Over, ByteOver;
    if c :| && IsScalar(c) && Utf8Of(c) <= rest && |Utf16Of(c)| <= room
            && !Over(c, maxcode) && !ByteOver(Utf8Of(c)[0], maxcode) {
      var more := rest[|Utf8Of(c)|..];
      assert rest == Utf8Of(c) + more;
      DecodeChar(c, more, room, maxcode);
      assert false;
    }
  }

  /** The conversion stops at the end, when the output is full, or where the next round stops. */
  lemma {:induction false} DecodeStopPoint(frm: seq<bv8>, room: nat, maxcode: bv32)
    ensures var r := Decode(frm, room, maxcode);
            var (rest, left) := (frm[r.consumed..], room - |r.out|);
            && (r.status == Ok <==> rest == [])
            && (rest != [] && left == 0 ==> r.status == Partial)
            && (rest != [] && left > 0 ==> DecodeRound(rest, left, maxcode) == Stop(r.status))
    decreases |frm|
  {
    hide DecodeRound;
    assert frm[0..] == frm;
    if frm != [] && room > 0 && DecodeRound(frm, room, maxcode).Take? {
      var r := DecodeRound(frm, room, maxcode);
      DecodeStopPoint(frm[r.n..], room - |r.out|, maxcode);
      var rest := Decode(frm[r.n..], room - |r.out|, maxcode);
      assert frm[r.n..][rest.consumed..] == frm[r.n + rest.consumed..];
    }
  }

  /**
   The decoder is done when nothing is left. It stops with `Partial` exactly when the output is full, when
   the input ends inside a character, or when a pair does not fit; otherwise with `Error`. It never
   stops in front of a character that it could take.
   */
  lemma DecodeStatus(frm: seq<bv8>, room: nat, maxcode: bv32, header: bool)
    ensures var r := Decoded(frm, room, maxcode, header);
            var (rest, left) := (frm[r.consumed..], room - |r.out|);
            && (r.status == Ok <==> rest == [])
            && (r.status == Partial <==>
                && rest != []
                && (left == 0 || CutOff(rest, maxcode) || (left == 1 && NeedsPair(rest, maxcode))))
            && (rest != [] && left > 0 ==> !Decodable(rest, left, maxcode))
  {
    hide Decode, DecodeRound, CutOff, NeedsPair, Decodable;
    var text := if header && HEADER <= frm then frm[3..] else frm;
    var r := Decode(text, room, maxcode);
    var (rest, left) := (text[r.consumed..], room - |r.out|);
    assert frm[Decoded(frm, room, maxcode, header).consumed..] == rest;
    DecodeStopPoint(text, room, maxcode);
    if rest != [] && left > 0 {
      DecodeStops(rest, left, maxcode);
      NotDecodable(rest, left, maxcode);
    }
  }

  // ----- the encoder

  /** The input ends with a high surrogate. */
  ghost predicate LoneHigh(rest: seq<bv16>) {
    |rest| == 1 && 0xD800 <= rest[0] <= 0xDBFF
  }

  /** The input goes on with a character whose UTF-8 does not fit. */
  ghost predicate NoRoom(rest: seq<bv16>, room: nat) {
    exists c :: IsScalar(c) && Utf16Of(c) <= rest && |Utf8Of(c)| > room
  }

  /** The input goes on with a character within the limit, for which there is room. */
  ghost predicate Encodable(rest: seq<bv16>, room: nat, maxcode: bv32) {
    exists c :: IsScalar(c) && Utf16Of(c) <= rest && |Utf8Of(c)| <= room && !Over(c, maxcode)
  }

  lemma NoRoomWitness(rest: seq<bv16>, room: nat, maxcode: bv32)
    requires rest != [] && EncodeRound(rest, room, maxcode) == Stop(Partial) && !LoneHigh(rest)
    ensures !UnitOver(rest[0], maxcode) && NoRoom(rest, room)
  {
    hide IsScalar, SizeOf, SizeOfUnit, LowSurrogate, Wide, Over, UnitOver;
    hide PairCode, Encode1, Encode2, Encode3, Encode4, Utf8Of, Utf16Of;
    HighSurrogateIs(rest[0]);
    if SizeOfUnit(rest[0]) == Bytes4 {
      PairText(rest[0], rest[1]);
      assert Utf16Of(PairCode(rest[0], rest[1])) <= rest;
    } else {
      var c := UnitText(rest[0], maxcode);
      assert Utf16Of(c) <= rest;
    }
  }

  lemma NoRoomStops(rest: seq<bv16>, room: nat, maxcode: bv32)
    requires rest != [] && !UnitOver(rest[0], maxcode) && (LoneHigh(rest) || NoRoom(rest, room))
    ensures EncodeRound(rest, room, maxcode) == Stop(Partial)
  {
    hide IsScalar, SizeOf, SizeOfUnit, LowSurrogate, Wide, Over, UnitOver;
    hide PairCode, Encode1, Encode2, Encode3, Encode4, Utf8Of, Utf16Of;
    HighSurrogateIs(rest[0]);
    if !LoneHigh(rest) {
      var c :| IsScalar(c) && Utf16Of(c) <= rest && |Utf8Of(c)| > room;
      SizesOf(c, rest, maxcode);
    }
  }

  /** The units and the octets of the character a text begins with. */
  lemma SizesOf(c: bv32, rest: seq<bv16>, maxcode: bv32)
    requires IsScalar(c) && Utf16Of(c) <= rest
    ensures match SizeOfUnit(rest[0])
            case Bytes1 => |Utf8Of(c)| == 1
            case Bytes2 => |Utf8Of(c)| == 2
            case Bytes3 => |Utf8Of(c)| == 3
            case Bytes4 => |Utf8Of(c)| == 4 && |rest| >= 2 && LowSurrogate(rest[1])
            case Bad => false
  {
    hide IsScalar, SizeOf, SizeOfUnit, LowSurrogate, OneUnit, OneByte, Pair, Two, Three, Four, PairCode;
    SizeIsScalar(c);
    if SizeOf(c) == Bytes4 {
      CodeAgrees(c);
      assert Utf16Of(c)[0] == rest[0] && Utf16Of(c)[1] == rest[1];
    } else {
      WideOf(c);
      assert Utf16Of(c)[0] == rest[0];
    }
  }

  lemma NotEncodable(rest: seq<bv16>, room: nat, maxcode: bv32)
    requires rest != [] && EncodeRound(rest, room, maxcode).Stop?
    ensures !Encodable(rest, room, maxcode)
  {
    hide EncodeRound, IsScalar, Utf8Of, Utf16Of, Over;
    if c :| IsScalar(c) && Utf16Of(c) <= rest && |Utf8Of(c)| <= room && !Over(c, maxcode) {
      var more := rest[|Utf16Of(c)|..];
      assert rest == Utf16Of(c) + more;
      EncodeChar(c, more, room, maxcode);
      assert false;
    }
  }

  lemma {:induction false} EncodeStopPoint(frm: seq<bv16>, room: nat, maxcode: bv32)
    ensures var r := Encode(frm, room, maxcode);
            var (rest, left) := (frm[r.consumed..], room - |r.out|);
            && (r.status == Ok <==> rest == [])
            && (rest != [] ==> EncodeRound(rest, left, maxcode) == Stop(r.status))
    decreases |frm|
  {
    hide EncodeRound;
    assert frm[0..] == frm;
    if frm != [] && EncodeRound(frm, room, maxcode).Take? {
      var r := EncodeRound(frm, room, maxcode);
      EncodeStopPoint(frm[r.n..], room - |r.out|, maxcode);
      var rest := Encode(frm[r.n..], room - |r.out|, maxcode);
      assert frm[r.n..][rest.consumed..] == frm[r.n + rest.consumed..];
    }
  }

  /**
   The encoder is done when nothing is left. It stops with `Partial` exactly when a header does not fit, when
   the input ends with a high surrogate within the limit, or when the next character does not fit;
   otherwise with `Error`. It never stops in front of a character that it could take.
   */
  lemma EncodeStatus(frm: seq<bv16>, room: nat, maxcode: bv32, header: bool)
    ensures var r := Encoded(frm, room, maxcode, header);
            var (rest, left) := (frm[r.consumed..], room - |r.out|);
            if header && room < 3 then r == Outcome(Partial, 0, [])
            else
              && (r.status == Ok <==> rest == [])
              && (r.status == Partial <==>
                  rest != [] && !UnitOver(rest[0], maxcode) && (LoneHigh(rest) || NoRoom(rest, left)))
              && (rest != [] ==> !Encodable(rest, left, maxcode))
  {
    hide Encode, EncodeRound, LoneHigh, NoRoom, Encodable, UnitOver;
    if !(header && room < 3) {
      var space := if header then room - 3 else room;
      var r := Encode(frm, space, maxcode);
      var (rest, left) := (frm[r.consumed..], space - |r.out|);
      EncodeStopPoint(frm, space, maxcode);
      if rest != [] {
        NotEncodable(rest, left, maxcode);
        if r.status == Partial && !LoneHigh(rest) {
          NoRoomWitness(rest, left, maxcode);
        }
        if r.status == Partial {
          NotOver(rest, left, maxcode);
        }
        if !UnitOver(rest[0], maxcode) && (LoneHigh(rest) || NoRoom(rest, left)) {
          NoRoomStops(rest, left, maxcode);
        }
      }
    }
  }

  lemma NotOver(rest: seq<bv16>, room: nat, maxcode: bv32)
    requires rest != [] && EncodeRound(rest, room, maxcode) == Stop(Partial)
    ensures !UnitOver(rest[0], maxcode)
  {
    hide UnitOver, SizeOfUnit;
  }
}
