/**
 The converters between UTF-16 and UTF-8, with the limits of their buffers and of the largest
 permitted code point. A conversion stops with `Partial` when the input ends inside a character or
 the output is full, and with `Error` at an ill-formed or too large character.
 */
module Utf {
  import opened UtfBits

  datatype Status = Ok | Partial | Error

  /** Status, units consumed and units produced. */
  datatype Outcome<T> = Outcome(status: Status, consumed: nat, out: seq<T>)

  /** One round of a conversion loop: it stops, or takes n units and produces some. */
  datatype Round<T> = Stop(status: Status) | Take(n: nat, out: seq<T>)

  const MAXCODE: bv32 := 0x10FFFF

  /** The byte order mark U+FEFF in UTF-8, which a conversion may generate or consume. */
  const HEADER: seq<bv8> := [0xEF, 0xBB, 0xBF]

  // ----- UTF-16 to UTF-8

  function EncodeRound(frm: seq<bv16>, room: nat, maxcode: bv32): (r: Round<bv8>)
    requires frm != []
    ensures if r.Take? then 1 <= r.n <= |frm| && 1 <= |r.out| <= room else r.status != Ok
  {
    var w1 := frm[0];
    if UnitOver(w1, maxcode) then Stop(Error)
    else
      match SizeOfUnit(w1)
      case Bytes1 =>
        if room < 1 then Stop(Partial) else Take(1, [Encode1(w1)])
      case Bytes2 =>
        if room < 2 then Stop(Partial) else var b := Encode2(w1); Take(1, [b.0, b.1])
      case Bytes3 =>
        if room < 3 then Stop(Partial) else var b := Encode3(w1); Take(1, [b.0, b.1, b.2])
      case Bytes4 =>
        if |frm| < 2 then Stop(Partial)
        else if !LowSurrogate(frm[1]) then Stop(Error)
        else if room < 4 then Stop(Partial)
        else if Over(PairCode(w1, frm[1]), maxcode) then Stop(Error)
        else var b := Encode4(w1, frm[1]); Take(2, [b.0, b.1, b.2, b.3])
      case Bad => Stop(Error)
  }

  function Encode(frm: seq<bv16>, room: nat, maxcode: bv32): (r: Outcome<bv8>)
    ensures r.consumed <= |frm| && |r.out| <= room
    decreases |frm|
  {
    if frm == [] then Outcome(Ok, 0, [])
    else
      match EncodeRound(frm, room, maxcode)
      case Stop(status) => Outcome(status, 0, [])
      case Take(n, out) =>
        var rest := Encode(frm[n..], room - |out|, maxcode);
        Outcome(rest.status, n + rest.consumed, out + rest.out)
  }

  /** The conversion as a whole: a header first, where one is asked for. */
  function Encoded(frm: seq<bv16>, room: nat, maxcode: bv32, header: bool): (r: Outcome<bv8>)
    ensures r.consumed <= |frm| && |r.out| <= room
  {
    if !header then Encode(frm, room, maxcode)
    else if room < 3 then Outcome(Partial, 0, [])
    else
      var r := Encode(frm, room - 3, maxcode);
      Outcome(r.status, r.consumed, HEADER + r.out)
  }

  /** The whole conversion, when the first i units are done and the remaining ones give rest. */
  ghost predicate Continues<T>(whole: Outcome<T>, i: nat, done: seq<T>, rest: Outcome<T>) {
    whole == Outcome(rest.status, i + rest.consumed, done + rest.out)
  }

  lemma EncodeStep(frm: seq<bv16>, i: nat, room: nat, maxcode: bv32, whole: Outcome<bv8>, done: seq<bv8>)
    requires i < |frm| && Continues(whole, i, done, Encode(frm[i..], room, maxcode))
    ensures match EncodeRound(frm[i..], room, maxcode)
            case Stop(status) => whole == Outcome(status, i, done)
            case Take(n, out) => Continues(whole, i + n, done + out, Encode(frm[i + n..], room - |out|, maxcode))
  {
    hide EncodeRound;
    match EncodeRound(frm[i..], room, maxcode)
    case Stop(status) =>
    case Take(n, out) =>
      assert frm[i..][n..] == frm[i + n..];
  }

  lemma EncodeEnds(frm: seq<bv16>, room: nat, maxcode: bv32)
    ensures frm == [] ==> Encode(frm, room, maxcode) == Outcome(Ok, 0, [])
  {
    hide EncodeRound;
  }

  method Utf16ToUtf8(frm: seq<bv16>, to: array<bv8>, maxcode: bv32, header: bool)
    returns (status: Status, frmNxt: nat, toNxt: nat)
    modifies to
    ensures toNxt <= to.Length && to[toNxt..] == old(to[..])[toNxt..]
    ensures Outcome(status, frmNxt, to[..toNxt]) == Encoded(frm, to.Length, maxcode, header)
  {
    hide Encode, EncodeRound;
    frmNxt, toNxt := 0, 0;
    ghost var whole, was := Encoded(frm, to.Length, maxcode, header), to[..];
    if header {
      if to.Length < 3 {
        return Partial, frmNxt, toNxt;
      }
      Append(to, 0, HEADER);
      toNxt := 3;
    }
    assert frm[0..] == frm;
    while frmNxt < |frm|
      invariant 0 <= frmNxt <= |frm| && 0 <= toNxt <= to.Length && to[toNxt..] == was[toNxt..]
      invariant Continues(whole, frmNxt, to[..toNxt], Encode(frm[frmNxt..], to.Length - toNxt, maxcode))
      decreases |frm| - frmNxt
    {
      EncodeStep(frm, frmNxt, to.Length - toNxt, maxcode, whole, to[..toNxt]);
      match EncodeRound(frm[frmNxt..], to.Length - toNxt, maxcode)
      case Stop(s) =>
        return s, frmNxt, toNxt;
      case Take(n, out) =>
        Append(to, toNxt, out);
        frmNxt, toNxt := frmNxt + n, toNxt + |out|;
    }
    EncodeEnds(frm[frmNxt..], to.Length - toNxt, maxcode);
    status := Ok;
  }

  /** Stores a sequence from position i on. */
  method Append<T>(to: array<T>, i: nat, out: seq<T>)
    requires i + |out| <= to.Length
    modifies to
    ensures to[..i + |out|] == old(to[..i]) + out
    ensures to[i + |out|..] == old(to[i + |out|..])
  {
    ghost var was := to[..];
    for k := 0 to |out|
      invariant to[..i + k] == was[..i] + out[..k] && to[i + k..] == was[i + k..]
    {
      to[i + k] := out[k];
      assert out[..k + 1] == out[..k] + [out[k]];
    }
    assert out[..|out|] == out;
  }

  // ----- UTF-8 to UTF-16

  function DecodeRound(frm: seq<bv8>, room: nat, maxcode: bv32): (r: Round<bv16>)
    requires frm != [] && room > 0
    ensures if r.Take? then 1 <= r.n <= |frm| && 1 <= |r.out| <= room && |r.out| <= r.n else r.status != Ok
  {
    var c1 := frm[0];
    if ByteOver(c1, maxcode) then Stop(Error)
    else
      match SizeOfByte(c1)
      case Bytes1 => Take(1, [Decode1(c1)])
      case Bytes2 =>
        if |frm| < 2 then Stop(Partial)
        else if !Tail(frm[1]) then Stop(Error)
        else
          var t := Decode2(c1, frm[1]);
          if UnitOver(t, maxcode) then Stop(Error) else Take(2, [t])
      case Bytes3 =>
        if |frm| < 3 then Stop(Partial)
        else if !Lead3(c1, frm[1]) || !Tail(frm[2]) then Stop(Error)
        else
          var t := Decode3(c1, frm[1], frm[2]);
          if UnitOver(t, maxcode) then Stop(Error) else Take(3, [t])
      case Bytes4 =>
        if |frm| < 4 then Stop(Partial)
        else if !Lead4(c1, frm[1]) || !Tail(frm[2]) || !Tail(frm[3]) then Stop(Error)
        else if room < 2 then Stop(Partial)
        else if Over(Code4(c1, frm[1], frm[2], frm[3]), maxcode) then Stop(Error)
        else var w := Decode4(c1, frm[1], frm[2], frm[3]); Take(4, [w.0, w.1])
      case Bad => Stop(Error)
  }

  function Decode(frm: seq<bv8>, room: nat, maxcode: bv32): (r: Outcome<bv16>)
    ensures r.consumed <= |frm| && |r.out| <= room
    decreases |frm|
  {
    if frm == [] then Outcome(Ok, 0, [])
    else if room == 0 then Outcome(Partial, 0, [])
    else
      match DecodeRound(frm, room, maxcode)
      case Stop(status) => Outcome(status, 0, [])
      case Take(n, out) =>
        var rest := Decode(frm[n..], room - |out|, maxcode);
        Outcome(rest.status, n + rest.consumed, out + rest.out)
  }

  /** The conversion as a whole: a header is skipped, where the mode says so. */
  function Decoded(frm: seq<bv8>, room: nat, maxcode: bv32, header: bool): (r: Outcome<bv16>)
    ensures r.consumed <= |frm| && |r.out| <= room
  {
    if header && HEADER <= frm then
      var r := Decode(frm[3..], room, maxcode);
      Outcome(r.status, 3 + r.consumed, r.out)
    else Decode(frm, room, maxcode)
  }

  lemma DecodeStep(frm: seq<bv8>, i: nat, room: nat, maxcode: bv32, whole: Outcome<bv16>, done: seq<bv16>)
    requires i < |frm| && room > 0 && Continues(whole, i, done, Decode(frm[i..], room, maxcode))
    ensures match DecodeRound(frm[i..], room, maxcode)
            case Stop(status) => whole == Outcome(status, i, done)
            case Take(n, out) => Continues(whole, i + n, done + out, Decode(frm[i + n..], room - |out|, maxcode))
  {
    hide DecodeRound;
    match DecodeRound(frm[i..], room, maxcode)
    case Stop(status) =>
    case Take(n, out) =>
      assert frm[i..][n..] == frm[i + n..];
  }

  lemma DecodeEnds(frm: seq<bv8>, room: nat, maxcode: bv32)
    ensures frm == [] ==> Decode(frm, room, maxcode) == Outcome(Ok, 0, [])
    ensures frm != [] && room == 0 ==> Decode(frm, room, maxcode) == Outcome(Partial, 0, [])
  {
    hide DecodeRound;
  }

  method Utf8ToUtf16(frm: seq<bv8>, to: array<bv16>, maxcode: bv32, header: bool)
    returns (status: Status, frmNxt: nat, toNxt: nat)
    modifies to
    ensures toNxt <= to.Length && to[toNxt..] == old(to[..])[toNxt..]
    ensures Outcome(status, frmNxt, to[..toNxt]) == Decoded(frm, to.Length, maxcode, header)
  {
    hide Decode, DecodeRound;
    frmNxt, toNxt := 0, 0;
    ghost var whole, was := Decoded(frm, to.Length, maxcode, header), to[..];
    if header && HEADER <= frm {
      frmNxt := 3;
    }
    assert frm[0..] == frm;
    while frmNxt < |frm| && toNxt < to.Length
      invariant 0 <= frmNxt <= |frm| && 0 <= toNxt <= to.Length && to[toNxt..] == was[toNxt..]
      invariant Continues(whole, frmNxt, to[..toNxt], Decode(frm[frmNxt..], to.Length - toNxt, maxcode))
      decreases |frm| - frmNxt
    {
      DecodeStep(frm, frmNxt, to.Length - toNxt, maxcode, whole, to[..toNxt]);
      match DecodeRound(frm[frmNxt..], to.Length - toNxt, maxcode)
      case Stop(s) =>
        return s, frmNxt, toNxt;
      case Take(n, out) =>
        Append(to, toNxt, out);
        frmNxt, toNxt := frmNxt + n, toNxt + |out|;
    }
    DecodeEnds(frm[frmNxt..], to.Length - toNxt, maxcode);
    status := if frmNxt < |frm| then Partial else Ok;
  }

  /** Bytes and units of the next character, as `utf8_to_utf16_length` steps; (0, 0) where it stops. */
  function LengthStep(frm: seq<bv8>, room: nat, maxcode: bv32): (r: (nat, nat))
    requires frm != [] && room > 0
  {
    var c1 := frm[0];
    if ByteOver(c1, maxcode) then (0, 0)
    else
      match SizeOfByte(c1)
      case Bytes1 => (1, 1)
      case Bytes2 =>
        if |frm| < 2 || !Tail(frm[1]) then (0, 0)
        else if UnitOver(Decode2(c1, frm[1]), maxcode) then (0, 0)
        else (2, 1)
      case Bytes3 =>
        if |frm| < 3 then (0, 0)
        else if !Lead3(c1, frm[1]) then (0, 0)
        else if !Tail(frm[2]) then (0, 0)
        else if UnitOver(Decode3(c1, frm[1], frm[2]), maxcode) then (0, 0)
        else (3, 1)
      case Bytes4 =>
        if |frm| < 4 || room < 2 then (0, 0)
        else if !Lead4(c1, frm[1]) then (0, 0)
        else if !Tail(frm[2]) || !Tail(frm[3]) then (0, 0)
        else if Over(Code4(c1, frm[1], frm[2], frm[3]), maxcode) then (0, 0)
        else (4, 2)
      case Bad => (0, 0)
  }

  /** The length computation steps exactly where the decoder takes a character. */
  lemma LengthStepIs(frm: seq<bv8>, room: nat, maxcode: bv32)
    requires frm != [] && room > 0
    ensures var r := DecodeRound(frm, room, maxcode);
            LengthStep(frm, room, maxcode) == if r.Take? then (r.n, |r.out|) else (0, 0)
  {
    hide SizeOfByte, Tail, Lead3, Lead4, Decode2, Decode3, Decode4, Code4, Over, UnitOver, ByteOver;
  }

  /** A number narrowed to a signed 32-bit integer. */
  function AsInt32(n: nat): (r: int)
    ensures -0x8000_0000 <= r < 0x8000_0000
    ensures r == n <==> n < 0x8000_0000
    ensures (n - r) % 0x1_0000_0000 == 0
  {
    if n % 0x1_0000_0000 < 0x8000_0000 then n % 0x1_0000_0000 else n % 0x1_0000_0000 - 0x1_0000_0000
  }

  /** `utf8_to_utf16_length`: the bytes the decoder consumes into a buffer of mx units, however it stops. */
  method Utf8ToUtf16Length(frm: seq<bv8>, mx: nat, maxcode: bv32, header: bool) returns (r: int)
    ensures r == AsInt32(Decoded(frm, mx, maxcode, header).consumed)
  {
    hide Decode, DecodeRound, LengthStep, AsInt32;
    var frmNxt, count := 0, 0;
    if header && HEADER <= frm {
      frmNxt := 3;
    }
    assert frm[0..] == frm;
    while frmNxt < |frm| && count < mx
      invariant 0 <= frmNxt <= |frm| && 0 <= count <= mx
      invariant Decoded(frm, mx, maxcode, header).consumed
             == frmNxt + Decode(frm[frmNxt..], mx - count, maxcode).consumed
      decreases |frm| - frmNxt
    {
      ghost var rest := Decode(frm[frmNxt..], mx - count, maxcode);
      DecodeStep(frm, frmNxt, mx - count, maxcode, Outcome(rest.status, frmNxt + rest.consumed, [] + rest.out), []);
      LengthStepIs(frm[frmNxt..], mx - count, maxcode);
      var step := LengthStep(frm[frmNxt..], mx - count, maxcode);
      if step == (0, 0) {
        return AsInt32(frmNxt);
      }
      frmNxt, count := frmNxt + step.0, count + step.1;
    }
    DecodeEnds(frm[frmNxt..], mx - count, maxcode);
    return AsInt32(frmNxt);
  }
}
