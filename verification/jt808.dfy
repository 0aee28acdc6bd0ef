/**
  The JT/T 808 codec of the Python server: frames, their checksum and the two
  header layouts (6-byte phone for 2013, version byte and 10-byte phone for 2019).
 */
module Jt808 {
  import opened Bytes
  import opened Escaping
  import opened Hex

  const MSG_REGISTER_RESP: U16 := 0x8100

  datatype Header = Header(
    msgId: U16, bodyProps: U16, phone: string, serial: U16,
    pkgTotal: U16, pkgIndex: U16, is2019: bool)

  datatype Message = Message(header: Header, body: seq<Byte>)

  // ----- byte loops ---------------------------------------------------------

  method UnescapeBytes(data: seq<Byte>) returns (out: seq<Byte>)
    ensures out == Unescape(data)
  {
    hide Unescape;
    out := [];
    var i := 0;
    while i < |data|
      invariant 0 <= i <= |data|
      invariant out + Unescape(data[i..]) == Unescape(data)
    {
      ghost var before := out;
      ghost var piece, rest := UnescapeHead(data, i);
      if data[i] == 0x7D {
        if i + 1 >= |data| {
          assert out + [] == out;
          return;
        }
        var nxt := data[i + 1];
        if nxt == 0x02 {
          out := out + [0x7E];
        } else if nxt == 0x01 {
          out := out + [0x7D];
        } else {
          out := out + [data[i]];
          out := out + [nxt];
        }
        i := i + 2;
      } else {
        out := out + [data[i]];
        i := i + 1;
      }
      assert out == before + piece;
      Regroup(before, piece, rest, out);
    }
    UnescapeEnd(data);
  }

  lemma UnescapeEnd(data: seq<Byte>)
    ensures Unescape(data[|data|..]) == []
  {}

  lemma Regroup(before: seq<Byte>, piece: seq<Byte>, rest: seq<Byte>, out: seq<Byte>)
    requires out == before + piece
    ensures out + rest == before + (piece + rest)
  {}

  /** The bytes that the next step of unescaping contributes, and what is left for the later ones. */
  lemma UnescapeHead(data: seq<Byte>, i: nat) returns (piece: seq<Byte>, rest: seq<Byte>)
    requires i < |data|
    ensures Unescape(data[i..]) == piece + rest
    ensures data[i] != 0x7D ==> piece == [data[i]] && rest == Unescape(data[i + 1..])
    ensures data[i] == 0x7D && i + 1 == |data| ==> piece == rest == []
    ensures data[i] == 0x7D && i + 1 < |data| ==> rest == Unescape(data[i + 2..])
    ensures data[i] == 0x7D && i + 1 < |data| && data[i + 1] == 0x02 ==> piece == [0x7E]
    ensures data[i] == 0x7D && i + 1 < |data| && data[i + 1] == 0x01 ==> piece == [0x7D]
    ensures data[i] == 0x7D && i + 1 < |data| && data[i + 1] != 0x02 && data[i + 1] != 0x01 ==>
              piece == [data[i], data[i + 1]]
  {
    var e := data[i..];
    if e[0] != 0x7D {
      assert e[1..] == data[i + 1..];
      piece, rest := [e[0]], Unescape(e[1..]);
    } else if |e| == 1 {
      piece, rest := [], [];
    } else {
      assert e[2..] == data[i + 2..];
      piece := if e[1] == 0x02 then [0x7E] else if e[1] == 0x01 then [0x7D] else [e[0], e[1]];
      rest := Unescape(e[2..]);
    }
  }

  method EscapeBytes(data: seq<Byte>) returns (out: seq<Byte>)
    ensures out == Escape(data)
  {
    out := [];
    for i := 0 to |data|
      invariant out == Escape(data[..i])
    {
      var b := data[i];
      EscapeConcat(data[..i], [b]);
      assert data[..i + 1] == data[..i] + [b];
      if b == 0x7E {
        out := out + [0x7D, 0x02];
      } else if b == 0x7D {
        out := out + [0x7D, 0x01];
      } else {
        out := out + [b];
      }
    }
    assert data[..|data|] == data;
  }

  method Checksum(data: seq<Byte>) returns (cs: Byte)
    ensures cs == Xors(data)
  {
    cs := 0;
    for i := 0 to |data|
      invariant cs == Xors(data[..i])
    {
      XorsConcat(data[..i], [data[i]]);
      XorsOne(data[i]);
      assert data[..i + 1] == data[..i] + [data[i]];
      cs := Xor(cs, data[i]);
    }
    assert data[..|data|] == data;
  }

  // ----- frames -------------------------------------------------------------

  predicate Is2019(bodyProps: U16) { bodyProps / 0x4000 % 2 == 1 }
  predicate HasSubpackage(bodyProps: U16) { bodyProps / 0x2000 % 2 == 1 }

  /** Reads header and body of a checked payload. */
  function ParsePayload(payload: seq<Byte>): (r: Option<Message>)
    requires 12 <= |payload|
    ensures r.Some? ==> |r.value.header.phone| == PhoneDigits(r.value.header.is2019)
  {
    var msgId := U16At(payload, 0);
    var props := U16At(payload, 2);
    var is2019 := Is2019(props);
    if is2019 && |payload| < 17 then None
    else
      var phone := ToHex(if is2019 then payload[4..14] else payload[4..10]);
      var serial := U16At(payload, if is2019 then 15 else 10);
      var start := if is2019 then 17 else 12;
      if HasSubpackage(props) then
        if |payload| < start + 4 then None
        else Some(Message(
                    Header(msgId, props, phone, serial, U16At(payload, start), U16At(payload, start + 2), is2019),
                    payload[start + 4..]))
      else Some(Message(Header(msgId, props, phone, serial, 0, 0, is2019), payload[start..]))
  }

  function ParseFrame(raw: seq<Byte>): Option<Message> {
    if |raw| < 2 || raw[0] != FLAG || raw[|raw| - 1] != FLAG then None
    else
      var inner := Unescape(raw[1..|raw| - 1]);
      if |inner| < 13 then None
      else if inner[|inner| - 1] != Xors(inner[..|inner| - 1]) then None
      else ParsePayload(inner[..|inner| - 1])
  }

  /** The server-to-device payload; None stands for the ValueError of a phone that is not hexadecimal. */
  function BuildPayload(msgId: U16, phoneHex: string, serial: U16, body: seq<Byte>, is2019: bool): Option<seq<Byte>> {
    match FromHex(Zfill(phoneHex, PhoneDigits(is2019)))
    case None => None
    case Some(phone) =>
      Some(if is2019
           then PutU16(msgId) + PutU16(BuiltProps(body, true)) + phone + [0x02] + PutU16(serial) + body
           else PutU16(msgId) + PutU16(BuiltProps(body, false)) + phone + PutU16(serial) + body)
  }

  function PhoneDigits(is2019: bool): nat { if is2019 then 20 else 12 }

  function BuiltProps(body: seq<Byte>, is2019: bool): U16 {
    |body| % 0x400 + (if is2019 then 0x4000 else 0)
  }

  function BuildFrame(msgId: U16, phoneHex: string, serial: U16, body: seq<Byte>, is2019: bool): Option<seq<Byte>> {
    match BuildPayload(msgId, phoneHex, serial, body, is2019)
    case None => None
    case Some(payload) => Some(Enclose(payload + [Xors(payload)]))
  }

  function BuildRegisterResp(phone: string, serial: U16, result: Byte, authCode: seq<Byte>, is2019: bool)
    : Option<seq<Byte>>
  {
    BuildFrame(MSG_REGISTER_RESP, phone, 0, PutU16(serial) + [result] + authCode, is2019)
  }

  // ----- laws ---------------------------------------------------------------

  /** What the receiver of a built frame should see. */
  function Expected(msgId: U16, phoneHex: string, serial: U16, body: seq<Byte>, is2019: bool): Message
    requires IsHex(phoneHex)
  {
    var props: U16 := |body| % 0x400 + if is2019 then 0x4000 else 0;
    var phone := Lower(Zfill(phoneHex, if is2019 then 20 else 12));
    Message(Header(msgId, props, phone, serial, 0, 0, is2019), body)
  }

  /** Parsing an enclosed content looks at the content alone. */
  lemma ParseEnclosed(content: seq<Byte>)
    ensures ParseFrame(Enclose(content)) ==
            if |content| < 13 || content[|content| - 1] != Xors(content[..|content| - 1]) then None
            else ParsePayload(content[..|content| - 1])
  {
    var raw := Enclose(content);
    assert raw[1..|raw| - 1] == Escape(content);
    UnescapeEscape(content);
  }

  lemma ParseChecked(payload: seq<Byte>)
    ensures ParseFrame(Enclose(payload + [Xors(payload)])) ==
            if |payload| < 12 then None else ParsePayload(payload)
  {
    hide ParseFrame, ParsePayload, Xors, Enclose;
    var content := payload + [Xors(payload)];
    ParseEnclosed(content);
    assert content[..|content| - 1] == payload;
  }

  /**
    A frame is readable exactly when it has its flags, its unescaped bytes cancel, and they are enough
    for a checksum and the header that its property bits announce.
   */
  lemma ReadableIff(raw: seq<Byte>)
    ensures ParseFrame(raw).Some? <==>
            && 2 <= |raw| && raw[0] == 0x7E && raw[|raw| - 1] == 0x7E
            && var inner := Unescape(raw[1..|raw| - 1]);
               && 13 <= |inner| && Xors(inner) == 0
               && var props := U16At(inner, 2);
                  var n := if props / 0x4000 % 2 == 1 then 18 else 13;
                  n + (if props / 0x2000 % 2 == 1 then 4 else 0) <= |inner|
  {
    hide Unescape, Xors, BigEndian;
    if 2 <= |raw| {
      var inner := Unescape(raw[1..|raw| - 1]);
      if 13 <= |inner| {
        ChecksumIsZero(inner);
        assert inner[..|inner| - 1][2..4] == inner[2..4];
      }
    }
  }

  /** A payload as either side sends it; the property bits say which header and whether a package item follows. */
  datatype Sent = Sent(
    msgId: U16, props: U16, phone: seq<Byte>, version: Byte, serial: U16,
    package: Option<(U16, U16)>, body: seq<Byte>)
  {
    predicate Valid() {
      && |phone| == (if props / 0x4000 % 2 == 1 then 10 else 6)
      && (package.Some? <==> props / 0x2000 % 2 == 1)
    }

    function Fixed(): seq<Byte> {
      PutU16(msgId) + PutU16(props) + phone + (if props / 0x4000 % 2 == 1 then [version] else []) + PutU16(serial)
    }

    function Package(): seq<Byte> {
      match package case None => [] case Some((total, index)) => PutU16(total) + PutU16(index)
    }

    function Payload(): seq<Byte> {
      Fixed() + Package() + body
    }

    /** The payload with its checksum, on the wire. */
    function Frame(): seq<Byte> {
      Enclose(Payload() + [Xors(Payload())])
    }

    function Decoded(): Message {
      var (total, index) := if package.Some? then package.value else (0, 0);
      Message(Header(msgId, props, ToHex(phone), serial, total, index, props / 0x4000 % 2 == 1), body)
    }
  }

  lemma ParseSentPayload(x: Sent)
    requires x.Valid()
    ensures |x.Payload()| >= 12 && ParsePayload(x.Payload()) == Some(x.Decoded())
  {
    hide BigEndian, ToBigEndian, ToHex, Sent.Fixed;
    var payload, m := x.Payload(), |x.Fixed()|;
    FixedStored(x, x.Package() + x.body);
    assert payload == x.Fixed() + (x.Package() + x.body);
    if x.package.Some? {
      PackageStored(payload, m, x.package.value.0, x.package.value.1, x.body);
    }
  }

  lemma FixedStored(x: Sent, tail: seq<Byte>)
    requires x.Valid()
    ensures var payload, n, m := x.Fixed() + tail, 4 + |x.phone|, |x.Fixed()|;
            && m == (if Is2019(x.props) then 17 else 12)
            && U16At(payload, 0) == x.msgId && U16At(payload, 2) == x.props && U16At(payload, m - 2) == x.serial
            && payload[4..n] == x.phone && payload[m..] == tail
  {
    hide BigEndian, ToBigEndian;
    var payload, m := x.Fixed() + tail, |x.Fixed()|;
    assert payload[0..2] == PutU16(x.msgId);
    assert payload[2..4] == PutU16(x.props);
    assert payload[m - 2..m] == PutU16(x.serial);
    U16Stored(payload, 0, x.msgId);
    U16Stored(payload, 2, x.props);
    U16Stored(payload, m - 2, x.serial);
  }

  lemma PackageStored(payload: seq<Byte>, m: nat, total: U16, index: U16, body: seq<Byte>)
    requires m <= |payload| && payload[m..] == PutU16(total) + PutU16(index) + body
    ensures m + 4 <= |payload| && U16At(payload, m) == total && U16At(payload, m + 2) == index
    ensures payload[m + 4..] == body
  {
    hide BigEndian, ToBigEndian;
    assert payload[m..m + 2] == payload[m..][0..2] == PutU16(total);
    assert payload[m + 2..m + 4] == payload[m..][2..4] == PutU16(index);
    assert payload[m + 4..] == payload[m..][4..] == body;
    U16Stored(payload, m, total);
    U16Stored(payload, m + 2, index);
  }

  /** Every valid frame parses to what was sent: both versions, with or without a package item. */
  lemma SentFrameParses(x: Sent)
    requires x.Valid()
    ensures ParseFrame(x.Frame()) == Some(x.Decoded())
  {
    hide ParsePayload, ParseFrame, Xors, ToBigEndian, Enclose, Sent.Payload, Sent.Decoded;
    ParseSentPayload(x);
    ParseChecked(x.Payload());
  }

  /**
    A built frame parses back to the same message, whatever the body and its length, exactly
    when the phone fits the field of its protocol version.
   */
  lemma BuildThenParse(msgId: U16, phoneHex: string, serial: U16, body: seq<Byte>, is2019: bool)
    requires IsHex(phoneHex)
    ensures var f := BuildFrame(msgId, phoneHex, serial, body, is2019);
            |phoneHex| <= PhoneDigits(is2019) <==>
            f.Some? && ParseFrame(f.value) == Some(Expected(msgId, phoneHex, serial, body, is2019))
  {
    hide ParseFrame, Xors, Enclose, FromHex, Lower, ToBigEndian;
    match FromHex(Zfill(phoneHex, PhoneDigits(is2019))) {
      case None =>
      case Some(phone) =>
        var payload := BuildPayload(msgId, phoneHex, serial, body, is2019).value;
        ParseChecked(payload);
        if |phoneHex| <= PhoneDigits(is2019) {
          ParseBuilt(msgId, phoneHex, serial, body, is2019);
        }
    }
  }

  /** A payload built for the 2019 protocol carries version 2 behind its ten bytes of phone. */
  lemma BuiltVersion(msgId: U16, phoneHex: string, serial: U16, body: seq<Byte>)
    requires IsHex(phoneHex) && |phoneHex| <= 20
    ensures var built := BuildPayload(msgId, phoneHex, serial, body, true);
            built.Some? && |built.value| == 17 + |body| && built.value[14] == 0x02
  {
    hide FromHex, ToBigEndian;
  }

  lemma ParseBuilt(msgId: U16, phoneHex: string, serial: U16, body: seq<Byte>, is2019: bool)
    requires IsHex(phoneHex) && |phoneHex| <= PhoneDigits(is2019)
    ensures var built := BuildPayload(msgId, phoneHex, serial, body, is2019);
            && built.Some? && 12 <= |built.value|
            && ParsePayload(built.value) == Some(Expected(msgId, phoneHex, serial, body, is2019))
  {
    hide ParsePayload, FromHex, ToHex, Lower, ToBigEndian;
    var text := Zfill(phoneHex, PhoneDigits(is2019));
    var payload := BuildPayload(msgId, phoneHex, serial, body, is2019).value;
    var x := Sent(msgId, BuiltProps(body, is2019), FromHex(text).value, 0x02, serial, None, body);
    assert payload == x.Payload();
    ParseSentPayload(x);
    HexRoundTrip(text);
  }

  /** The reply to a registration parses to a 0x8100 message that names the request, the result and the code. */
  lemma RegisterReplyParses(phone: string, serial: U16, result: Byte, code: seq<Byte>, is2019: bool)
    requires IsHex(phone) && |phone| <= PhoneDigits(is2019)
    ensures var frame := BuildRegisterResp(phone, serial, result, code, is2019);
            && frame.Some? && ParseFrame(frame.value).Some?
            && var m := ParseFrame(frame.value).value;
            && m.header.msgId == 0x8100 && m.header.serial == 0 && m.header.is2019 == is2019
            && |m.header.phone| == (if is2019 then 20 else 12)
            && m.body == [serial / 0x100, serial % 0x100, result] + code
  {
    hide ParseFrame, BuildFrame, ToBigEndian;
    var body := PutU16(serial) + [result] + code;
    BuildThenParse(MSG_REGISTER_RESP, phone, 0, body, is2019);
    U16Stored(PutU16(serial), 0, serial);
    U16Value(PutU16(serial), 0);
    assert PutU16(serial)[0..2] == PutU16(serial);
  }

  /** The phone is received in lower case, with zeros in front to fill its field. */
  lemma ReceivedPhone(msgId: U16, phoneHex: string, serial: U16, body: seq<Byte>, is2019: bool)
    requires IsHex(phoneHex)
    ensures var n := if is2019 then 20 else 12;
            var p := Expected(msgId, phoneHex, serial, body, is2019).header.phone;
            |phoneHex| <= n ==>
              && |p| == n
              && (forall i :: 0 <= i < n - |phoneHex| ==> p[i] == '0')
              && forall i :: n - |phoneHex| <= i < n ==> p[i] == LowerDigit(phoneHex[i - (n - |phoneHex|)])
  {}

  /** Changing exactly one byte of a valid content, checksum included, makes the frame unreadable. */
  lemma OneByteChanged(content: seq<Byte>, i: nat, b: Byte)
    requires ParseFrame(Enclose(content)).Some?
    requires i < |content| && b != content[i]
    ensures ParseFrame(Enclose(content[i := b])) == None
  {
    ParseEnclosed(content);
    ParseEnclosed(content[i := b]);
    ChecksumIsZero(content);
    ChecksumIsZero(content[i := b]);
    XorsSensitive(content, i, b);
  }

  /** A content carries its own checksum exactly when all its bytes cancel. */
  lemma ChecksumIsZero(content: seq<Byte>)
    requires content != []
    ensures Xors(content) == 0 <==> content[|content| - 1] == Xors(content[..|content| - 1])
  {
    var n := |content| - 1;
    assert content == content[..n] + [content[n]];
    XorsConcat(content[..n], [content[n]]);
    XorsOne(content[n]);
    XorCancel(Xors(content[..n]), content[n]);
  }
}
