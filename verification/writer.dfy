/**
  The Go server's message writer: header, body, checksum, and a 0x7E at either
  end, without escaping. Read back by the server's own scanner and parsers, a
  message comes out as it went in exactly when its bytes happen to survive the
  unescaping that was never asked for.
 */
module Writer {
  import opened Bytes
  import opened Escaping
  import opened Scanner
  import opened Receiver
  import opened StandardFrames
  import opened Commands
  import Hex

  // ----- binary-coded decimals ------------------------------------------------------

  function BcdDigits(b: Byte): (r: seq<Byte>)
    ensures |r| <= 2
  {
    (if b / 16 <= 9 then [0x30 + b / 16] else []) + (if b % 16 <= 9 then [0x30 + b % 16] else [])
  }

  function BcdToString(bcd: seq<Byte>): (r: seq<Byte>)
    ensures |r| <= 2 * |bcd|
    ensures forall i :: 0 <= i < |r| ==> IsDigit(r[i])
  {
    if bcd == [] then [] else BcdDigits(bcd[0]) + BcdToString(bcd[1..])
  }

  predicate IsDigit(b: Byte) { 0x30 <= b <= 0x39 }

  /** The digit's value; anything that is no digit counts as zero. */
  function Nibble(b: Byte): (n: nat)
    ensures n <= 9
  {
    if IsDigit(b) then b - 0x30 else 0
  }

  function Packed(high: Byte, low: Byte): Byte {
    16 * Nibble(high) + Nibble(low)
  }

  function StringToBcd(str: seq<Byte>): (r: seq<Byte>)
    ensures |r| == |str| / 2
  {
    if |str| < 2 then [] else [Packed(str[0], str[1])] + StringToBcd(str[2..])
  }

  predicate AllDigits(str: seq<Byte>) {
    forall i :: 0 <= i < |str| ==> IsDigit(str[i])
  }

  lemma {:induction false} BcdToStringAppend(bcd: seq<Byte>, b: Byte)
    ensures BcdToString(bcd + [b]) == BcdToString(bcd) + BcdDigits(b)
  {
    hide BcdDigits;
    if bcd == [] {
      assert [] + [b] == [b];
      assert BcdToString([b]) == BcdDigits(b) + [];
    } else {
      assert (bcd + [b])[1..] == bcd[1..] + [b];
      BcdToStringAppend(bcd[1..], b);
      assert BcdToString(bcd + [b]) == BcdDigits(bcd[0]) + (BcdToString(bcd[1..]) + BcdDigits(b));
    }
  }

  method BcdToStringLoop(bcd: seq<Byte>) returns (result: seq<Byte>)
    ensures result == BcdToString(bcd)
  {
    result := [];
    for i := 0 to |bcd|
      invariant result == BcdToString(bcd[..i])
    {
      ghost var before := result;
      assert bcd[..i + 1] == bcd[..i] + [bcd[i]];
      BcdToStringAppend(bcd[..i], bcd[i]);
      var high, low := bcd[i] / 16, bcd[i] % 16;
      if high <= 9 {
        result := result + [0x30 + high];
      }
      if low <= 9 {
        result := result + [0x30 + low];
      }
      assert result == before + BcdDigits(bcd[i]);
    }
    assert bcd[..|bcd|] == bcd;
  }

  method StringToBcdLoop(str: seq<Byte>) returns (result: seq<Byte>)
    ensures result == StringToBcd(str)
  {
    hide StringToBcd, Nibble;
    result := seq(|str| / 2, _ => 0);
    assert str[0..] == str && result[..0] == [];
    for i := 0 to |str| / 2
      invariant |result| == |str| / 2
      invariant result[..i] + StringToBcd(str[2 * i..]) == StringToBcd(str)
    {
      ghost var before := result;
      PackedAt(str, i);
      var high, low := Nibble(str[2 * i]), Nibble(str[2 * i + 1]);
      result := result[i := 16 * high + low];
      assert result[..i + 1] == before[..i] + [16 * high + low];
      MoveOver(before[..i], [16 * high + low], StringToBcd(str[2 * (i + 1)..]));
    }
    NothingLeftToPack(str);
    assert result[..|str| / 2] == result;
  }

  lemma PackedAt(str: seq<Byte>, i: nat)
    requires 2 * i + 2 <= |str|
    ensures StringToBcd(str[2 * i..]) ==
            [16 * Nibble(str[2 * i]) + Nibble(str[2 * i + 1])] + StringToBcd(str[2 * (i + 1)..])
  {
    hide Nibble;
    assert str[2 * i..][2..] == str[2 * (i + 1)..];
  }

  lemma NothingLeftToPack(str: seq<Byte>)
    ensures StringToBcd(str[2 * (|str| / 2)..]) == []
  {}

  lemma MoveOver(a: seq<Byte>, b: seq<Byte>, c: seq<Byte>)
    ensures a + (b + c) == a + b + c
  {}

  /** The text with a zero for everything that is no digit. */
  function ZerosForOthers(str: seq<Byte>): seq<Byte> {
    seq(|str|, i requires 0 <= i < |str| => if 0x30 <= str[i] <= 0x39 then str[i] else 0x30)
  }

  lemma ZerosPair(str: seq<Byte>)
    requires 2 <= |str|
    ensures ZerosForOthers(str) == BcdDigits(Packed(str[0], str[1])) + ZerosForOthers(str[2..])
  {
    hide BcdDigits;
    BcdPair(Nibble(str[0]), Nibble(str[1]));
  }

  /** Text of even length comes back with zeros for what is no digit; so unchanged exactly when it is all digits. */
  lemma BcdRoundTrip(str: seq<Byte>)
    requires |str| % 2 == 0
    ensures BcdToString(StringToBcd(str)) == ZerosForOthers(str)
    ensures |BcdToString(StringToBcd(str))| == |str|
    ensures BcdToString(StringToBcd(str)) == str <==> AllDigits(str)
  {
    hide BcdToString, StringToBcd;
    BcdComesBack(str);
    if ZerosForOthers(str) == str {
      forall i | 0 <= i < |str| ensures IsDigit(str[i]) { assert ZerosForOthers(str)[i] == str[i]; }
    }
  }

  lemma {:induction false} BcdComesBack(str: seq<Byte>)
    requires |str| % 2 == 0
    ensures BcdToString(StringToBcd(str)) == ZerosForOthers(str)
  {
    hide BcdDigits, Packed;
    if str == [] {
    } else {
      hide *;
      BcdComesBack(str[2..]);
      FirstPacked(str);
      FirstPrinted(Packed(str[0], str[1]), StringToBcd(str[2..]));
      ZerosPair(str);
    }
  }

  lemma FirstPacked(str: seq<Byte>)
    requires 2 <= |str|
    ensures StringToBcd(str) == [Packed(str[0], str[1])] + StringToBcd(str[2..])
  {
    hide Packed;
  }

  lemma FirstPrinted(d: Byte, bcd: seq<Byte>)
    ensures BcdToString([d] + bcd) == BcdDigits(d) + BcdToString(bcd)
  {
    hide BcdDigits;
    assert ([d] + bcd)[1..] == bcd;
  }

  /** Hexadecimal text without its letters. */
  function WithoutLetters(hex: string): seq<Byte>
    requires Hex.IsHex(hex)
  {
    if hex == "" then []
    else
      assert Hex.IsDigit(hex[0]) && forall i :: 0 <= i < |hex| - 1 ==> hex[1..][i] == hex[i + 1];
      (if hex[0] <= '9' then [hex[0] as int] else []) + WithoutLetters(hex[1..])
  }

  /** Reading binary-coded decimals is printing them in hexadecimal and leaving out the letters. */
  lemma {:induction false} BcdIsHexWithoutLetters(bcd: seq<Byte>)
    ensures Hex.IsHex(Hex.ToHex(bcd)) && BcdToString(bcd) == WithoutLetters(Hex.ToHex(bcd))
  {
    hide BcdDigits, Hex.IsHex, WithoutLetters;
    Hex.ToHexIsHex(bcd);
    if bcd == [] {
      NoLetters();
    } else {
      var high, low, t := bcd[0] / 16, bcd[0] % 16, Hex.ToHex(bcd[1..]);
      BcdIsHexWithoutLetters(bcd[1..]);
      LetterOut(low, t);
      LetterOut(high, [Hex.Digit(low)] + t);
      assert Hex.ToHex(bcd) == [Hex.Digit(high)] + ([Hex.Digit(low)] + t);
      DigitsInTurn(bcd[0], WithoutLetters(t));
    }
  }

  lemma NoLetters()
    ensures Hex.IsHex("") && WithoutLetters("") == []
  {}

  lemma DigitsInTurn(b: Byte, t: seq<Byte>)
    ensures BcdDigits(b) + t ==
            (if b / 16 <= 9 then [0x30 + b / 16] else []) + ((if b % 16 <= 9 then [0x30 + b % 16] else []) + t)
  {}

  lemma LetterOut(n: nat, t: string)
    requires n < 16 && Hex.IsHex(t)
    ensures Hex.IsHex([Hex.Digit(n)] + t)
    ensures WithoutLetters([Hex.Digit(n)] + t) == (if n <= 9 then [0x30 + n] else []) + WithoutLetters(t)
  {
    Hex.DigitTable(n);
    var s := [Hex.Digit(n)] + t;
    assert s[1..] == t;
  }

  lemma BcdPair(high: nat, low: nat)
    requires high <= 9 && low <= 9
    ensures BcdDigits(16 * high + low) == [0x30 + high, 0x30 + low]
  {}

  // ----- the message header -----------------------------------------------------------

  datatype PackageInfo = PackageInfo(totalPackets: U16, packetIndex: U16)

  datatype MsgHeader = MsgHeader(
    messageId: U16, properties: U16, protocolVersion: Byte, phoneNumber: seq<Byte>,
    serialNumber: U16, packageInfo: Option<PackageInfo>)

  function PadTo10(b: seq<Byte>): (r: seq<Byte>)
    ensures |r| == if |b| < 10 then 10 else |b|
    decreases 10 - |b|
  {
    if |b| < 10 then PadTo10([0x00] + b) else b
  }

  function PutHeader(h: MsgHeader): seq<Byte> {
    PutU16(h.messageId) + PutU16(h.properties) + [h.protocolVersion] + PadTo10(StringToBcd(h.phoneNumber)) +
    PutU16(h.serialNumber) +
    match h.packageInfo {
      case None => []
      case Some(p) => PutU16(p.totalPackets) + PutU16(p.packetIndex)
    }
  }

  method WriteHeader(h: MsgHeader, b: seq<Byte>) returns (r: seq<Byte>)
    ensures r == b + PutHeader(h)
  {
    hide ToBigEndian;
    r := b + PutU16(h.messageId);
    r := r + PutU16(h.properties);
    r := r + [h.protocolVersion];
    var bcd := StringToBcdLoop(h.phoneNumber);
    while |bcd| < 10
      invariant PadTo10(bcd) == PadTo10(StringToBcd(h.phoneNumber))
      decreases 10 - |bcd|
    {
      bcd := [0x00] + bcd;
    }
    r := r + bcd;
    r := r + PutU16(h.serialNumber);
    if h.packageInfo.Some? {
      r := r + PutU16(h.packageInfo.value.totalPackets);
      r := r + PutU16(h.packageInfo.value.packetIndex);
    }
  }

  /** None is ErrHeaderTooShort. */
  function ParseHeader(b: seq<Byte>): Option<MsgHeader> {
    if |b| < 17 then None
    else
      var props := U16At(b, 2);
      if HasPackageItem(props) && |b| < 21 then None
      else
        var p := if HasPackageItem(props) then Some(PackageInfo(U16At(b, 17), U16At(b, 19))) else None;
        Some(MsgHeader(U16At(b, 0), props, b[4], BcdToString(b[5..15]), U16At(b, 15), p))
  }

  /** Ten bytes hold twenty digits; a lone digit after them is dropped. */
  predicate PhoneFits(h: MsgHeader) { |h.phoneNumber| < 22 }

  lemma HeaderStart(h: MsgHeader)
    ensures var b := PutHeader(h);
            && |b| >= 17 && U16At(b, 0) == h.messageId && U16At(b, 2) == h.properties
            && (|b| == 17 <==> PhoneFits(h) && h.packageInfo.None?)
  {
    hide BigEndian, ToBigEndian, StringToBcd;
    var b := PutHeader(h);
    assert b[0..2] == PutU16(h.messageId);
    U16Stored(b, 0, h.messageId);
    assert b[2..4] == PutU16(h.properties);
    U16Stored(b, 2, h.properties);
  }

  lemma HeaderLayout(h: MsgHeader)
    requires PhoneFits(h)
    ensures var b := PutHeader(h);
            && |b| == (if h.packageInfo.None? then 17 else 21)
            && U16At(b, 0) == h.messageId && U16At(b, 2) == h.properties && b[4] == h.protocolVersion
            && b[5..15] == PadTo10(StringToBcd(h.phoneNumber)) && U16At(b, 15) == h.serialNumber
            && (h.packageInfo.Some? ==>
                  U16At(b, 17) == h.packageInfo.value.totalPackets && U16At(b, 19) == h.packageInfo.value.packetIndex)
  {
    hide BigEndian, ToBigEndian, StringToBcd;
    HeaderStart(h);
    var b := PutHeader(h);
    assert b[15..17] == PutU16(h.serialNumber);
    U16Stored(b, 15, h.serialNumber);
    if h.packageInfo.Some? {
      assert b[17..19] == PutU16(h.packageInfo.value.totalPackets);
      U16Stored(b, 17, h.packageInfo.value.totalPackets);
      assert b[19..21] == PutU16(h.packageInfo.value.packetIndex);
      U16Stored(b, 19, h.packageInfo.value.packetIndex);
    }
  }

  /**
    A written header parses back to itself exactly when the phone number is twenty digits and
    the package item is present just when property bit 13 says so.
   */
  lemma HeaderRoundTrip(h: MsgHeader)
    ensures ParseHeader(PutHeader(h)) == Some(h) <==>
            && |h.phoneNumber| == 20 && AllDigits(h.phoneNumber)
            && (h.packageInfo.Some? <==> h.properties / 0x2000 % 2 == 1)
  {
    hide BigEndian, ToBigEndian, StringToBcd, BcdToString, AllDigits;
    if |h.phoneNumber| == 20 {
      HeaderLayout(h);
      BcdRoundTrip(h.phoneNumber);
    } else if ParseHeader(PutHeader(h)) == Some(h) {
      ShortPhonePadded(h);
    }
  }

  /**
    A header parses from any bytes that are long enough for what bit 13 announces; writing it again
    gives the same bytes if and only if the phone number's ten bytes hold decimal digits alone.
   */
  lemma ParsedHeaderRewrites(b: seq<Byte>)
    ensures ParseHeader(b).Some? <==> |b| >= 17 && (U16At(b, 2) / 0x2000 % 2 == 1 ==> |b| >= 21)
    ensures ParseHeader(b).Some? ==> (PutHeader(ParseHeader(b).value) <= b <==> Decimal(b[5..15]))
  {
    hide BigEndian, ToBigEndian, StringToBcd, BcdToString, PadTo10, Decimal;
    if ParseHeader(b).Some? {
      var h, phone := ParseHeader(b).value, b[5..15];
      RewriteU16(b, 0);
      RewriteU16(b, 2);
      RewriteU16(b, 15);
      if h.packageInfo.Some? {
        RewriteU16(b, 17);
        RewriteU16(b, 19);
      }
      PhoneRewrites(phone);
      var put := PadTo10(StringToBcd(h.phoneNumber));
      var tail := if h.packageInfo.Some? then b[17..21] else [];
      assert PutHeader(h) == b[..5] + put + (b[15..17] + tail);
      assert PutHeader(h)[5..15] == put;
      assert PutHeader(h) <= b ==> PutHeader(h)[5..15] == b[5..15];
      if put == phone {
        assert PutHeader(h) == b[..if h.packageInfo.Some? then 21 else 17];
      }
    }
  }

  lemma RewriteU16(b: seq<Byte>, i: nat)
    requires i + 2 <= |b|
    ensures PutU16(U16At(b, i)) == b[i..i + 2]
  {
    ToBigEndianRoundTrip(b[i..i + 2]);
  }

  lemma PhoneRewrites(phone: seq<Byte>)
    requires |phone| == 10
    ensures |PadTo10(StringToBcd(BcdToString(phone)))| == 10
    ensures PadTo10(StringToBcd(BcdToString(phone))) == phone <==> Decimal(phone)
  {
    StringToBcdDecimal(BcdToString(phone));
    PaddedDecimal(StringToBcd(BcdToString(phone)));
    if Decimal(phone) {
      DecimalComesBack(phone);
    }
  }

  lemma {:induction false} DecimalComesBack(bcd: seq<Byte>)
    requires Decimal(bcd)
    ensures StringToBcd(BcdToString(bcd)) == bcd
  {
    if bcd == [] {
    } else {
      DecimalComesBack(bcd[1..]);
      var s := BcdToString(bcd);
      assert bcd[0] / 16 <= 9 && bcd[0] % 16 <= 9;
      assert s[2..] == BcdToString(bcd[1..]);
    }
  }

  /** A phone number of another length cannot come back: ten bytes of digits are twenty digits. */
  lemma ShortPhonePadded(h: MsgHeader)
    requires ParseHeader(PutHeader(h)) == Some(h)
    ensures |h.phoneNumber| == 20
  {
    hide BigEndian, ToBigEndian;
    var b, bcd := PutHeader(h), StringToBcd(h.phoneNumber);
    if |h.phoneNumber| < 20 {
      assert b[5..15] == PadTo10(bcd);
      PaddedDecimal(bcd);
      StringToBcdDecimal(h.phoneNumber);
      DecimalLength(PadTo10(bcd));
    }
  }

  function Zeros(n: nat): (z: seq<Byte>)
    ensures |z| == n
  {
    if n == 0 then [] else [0x30] + Zeros(n - 1)
  }

  lemma {:induction false} PaddingIsZeros(bcd: seq<Byte>)
    requires |bcd| <= 10
    ensures BcdToString(PadTo10(bcd)) == Zeros(20 - 2 * |bcd|) + BcdToString(bcd)
    decreases 10 - |bcd|
  {
    hide BcdToString, Zeros;
    if |bcd| == 10 {
      assert Zeros(0) + BcdToString(bcd) == BcdToString(bcd);
    } else {
      PaddingIsZeros([0x00] + bcd);
      ZeroInFront(bcd);
      TwoZeros(18 - 2 * |bcd|);
      MoveOver(Zeros(18 - 2 * |bcd|), [0x30, 0x30], BcdToString(bcd));
    }
  }

  lemma ZeroInFront(bcd: seq<Byte>)
    ensures BcdToString([0x00] + bcd) == [0x30, 0x30] + BcdToString(bcd)
  {
    assert ([0x00] + bcd)[1..] == bcd;
  }

  lemma {:induction false} TwoZeros(n: nat)
    ensures Zeros(n) + [0x30, 0x30] == Zeros(n + 2)
  {
    if n == 0 {
      assert Zeros(2) == [0x30] + ([0x30] + Zeros(0));
    } else {
      TwoZeros(n - 1);
      assert Zeros(n) + [0x30, 0x30] == [0x30] + (Zeros(n - 1) + [0x30, 0x30]);
    }
  }

  /** A shorter phone number of an even number of digits comes back with zeros in front. */
  lemma ShortPhoneComesBackPadded(h: MsgHeader)
    requires |h.phoneNumber| <= 20 && |h.phoneNumber| % 2 == 0 && AllDigits(h.phoneNumber)
    requires h.packageInfo.Some? <==> h.properties / 0x2000 % 2 == 1
    ensures ParseHeader(PutHeader(h)) == Some(h.(phoneNumber := Zeros(20 - |h.phoneNumber|) + h.phoneNumber))
  {
    hide BigEndian, ToBigEndian, StringToBcd, BcdToString, AllDigits, PadTo10;
    HeaderLayout(h);
    BcdRoundTrip(h.phoneNumber);
    PaddingIsZeros(StringToBcd(h.phoneNumber));
  }

  predicate Decimal(bcd: seq<Byte>) {
    forall i :: 0 <= i < |bcd| ==> bcd[i] / 16 <= 9 && bcd[i] % 16 <= 9
  }

  lemma {:induction false} StringToBcdDecimal(str: seq<Byte>)
    ensures Decimal(StringToBcd(str))
  {
    if |str| >= 2 {
      StringToBcdDecimal(str[2..]);
    }
  }

  lemma {:induction false} PaddedDecimal(bcd: seq<Byte>)
    ensures Decimal(bcd) ==> Decimal(PadTo10(bcd))
    decreases 10 - |bcd|
  {
    if |bcd| < 10 {
      PaddedDecimal([0x00] + bcd);
    }
  }

  lemma {:induction false} DecimalLength(bcd: seq<Byte>)
    requires Decimal(bcd)
    ensures |BcdToString(bcd)| == 2 * |bcd|
  {
    if bcd == [] {
    } else {
      DecimalLength(bcd[1..]);
    }
  }

  // ----- whole messages ---------------------------------------------------------------

  /** The header as it is sent: message id from the command, length field from the body. */
  function SentHeader(cmd: Cmd, h: MsgHeader): MsgHeader {
    h.(messageId := cmd.MessageId(), properties := h.properties / 0x400 % 8 * 0x400 + |cmd.Body()| % 0x400)
  }

  /** Header, body and checksum. */
  function RawBeacon(cmd: Cmd, h: MsgHeader): seq<Byte> {
    var hb := PutHeader(SentHeader(cmd, h)) + cmd.Body();
    hb + [Xors(hb)]
  }

  method WriteJTT808Msg(cmd: Cmd, h: MsgHeader) returns (r: seq<Byte>)
    ensures r == [FLAG] + RawBeacon(cmd, h) + [FLAG]
  {
    hide ToBigEndian, Xors, PutHeader, Cmd.Body;
    var bodyBytes := cmd.Write([]);
    assert bodyBytes == cmd.Body();
    var properties := h.properties / 0x400 % 8 * 0x400 + |bodyBytes| % 0x400;
    var headerBytes := WriteHeader(h.(messageId := cmd.MessageId(), properties := properties), []);
    assert headerBytes == PutHeader(SentHeader(cmd, h));
    var rawBeacon := headerBytes + bodyBytes;
    rawBeacon := rawBeacon + [Xors(rawBeacon)];
    r := [FLAG];
    r := r + rawBeacon;
    r := r + [FLAG];
  }

  /**
    The command decides the message id, its body the ten low bits of the properties; of the caller's
    properties bits 10 to 12 are kept and bits 13 to 15 cleared, and every other field is kept.
   */
  lemma SentHeaderKeeps(cmd: Cmd, h: MsgHeader)
    ensures var s := SentHeader(cmd, h);
            && s.messageId == (if cmd.Cmd1210? then 0x1210 else 0x9212)
            && s.properties % 0x400 == |cmd.Body()| % 0x400
            && s.properties / 0x400 == h.properties / 0x400 % 8
            && s.protocolVersion == h.protocolVersion && s.phoneNumber == h.phoneNumber
            && s.serialNumber == h.serialNumber && s.packageInfo == h.packageInfo
  {
    hide Cmd.Body;
  }

  /** The length field can hold the body, and the header has the length that its properties announce. */
  predicate FieldsFit(cmd: Cmd, h: MsgHeader) {
    |cmd.Body()| < 0x400 && h.packageInfo.None? && PhoneFits(h)
  }

  /** Besides, every field says what it counts and the phone number is written as it will be read. */
  predicate Sendable(cmd: Cmd, h: MsgHeader) {
    && FieldsFit(cmd, h) && cmd.Consistent()
    && |h.phoneNumber| == 20 && AllDigits(h.phoneNumber)
  }

  lemma RawBeaconWellFormed(cmd: Cmd, h: MsgHeader)
    requires FieldsFit(cmd, h)
    ensures var d := RawBeacon(cmd, h);
            && WellFormed(d) && U16At(d, 2) / 0x2000 % 2 == 0
            && Content(d) == JTT808Msg(PutHeader(SentHeader(cmd, h)), cmd.Body())
            && d[0] != FLAG && d[1] != FLAG
  {
    hide BigEndian, ToBigEndian, Xors, Xor, StringToBcd, Cmd.Body;
    var s := SentHeader(cmd, h);
    var head := PutHeader(s);
    HeaderLayout(s);
    var hb := head + cmd.Body();
    var d := RawBeacon(cmd, h);
    assert d[2..4] == head[2..4];
    XorsConcat(hb, [Xors(hb)]);
    XorsOne(Xors(hb));
    XorGroup(Xors(hb), 0, 0);
    assert d[..17] == head && d[17..|d| - 1] == cmd.Body();
    assert head[0..2] == PutU16(s.messageId);
    IdBytes(s.messageId);
  }

  lemma IdBytes(id: U16)
    requires id == 0x1210 || id == 0x9212
    ensures PutU16(id)[0] != FLAG && PutU16(id)[1] != FLAG
  {
    assert ToBigEndian(id, 2) == ToBigEndian(id / 0x100, 1) + [id % 0x100];
    assert ToBigEndian(id / 0x100, 1) == [id / 0x100 % 0x100];
  }

  // ----- which messages survive ---------------------------------------------------------

  /**
    No 0x7E anywhere, and no 0x7D before the checksum, unless every byte after it, checksum
    included, is 0x01: then the pair 0x7D 0x01 shrinks to 0x7D and the next 0x01 fills the gap.
   */
  ghost predicate Survives(d: seq<Byte>)
    requires d != []
  {
    var n := |d| - 1;
    && FLAG !in d
    && (ESC !in d[..n] || exists k :: Stutter(d, k, n))
  }

  predicate Stutter(s: seq<Byte>, k: int, n: int) {
    0 <= k < n < |s| && s[k] == 0x7D && 0x7D !in s[..k] && forall j :: k < j <= n ==> s[j] == 0x01
  }

  lemma {:induction false} ReadPlain(s: seq<Byte>, m: nat, room: int)
    requires m <= |s| && 0x7D !in s[..m] && m < room
    ensures ReadUnescaped(s + [FLAG], room, m) == Got(s[..m], s[m..] + [FLAG], room - m)
    decreases m
  {
    if m == 0 {
      assert s[0..] == s;
    } else {
      assert s[0] == s[..m][0];
      assert (s + [FLAG])[1..] == s[1..] + [FLAG];
      PlainTail(s, m);
      ReadPlain(s[1..], m - 1, room - 1);
      assert s[1..][m - 1..] == s[m..];
      assert [s[0]] + s[1..][..m - 1] == s[..m];
    }
  }

  lemma PlainTail(s: seq<Byte>, m: nat)
    requires 0 < m <= |s|
    ensures 0x7D !in s[..m] <==> s[0] != 0x7D && 0x7D !in s[1..][..m - 1]
  {
    assert s[..m] == [s[0]] + s[1..][..m - 1];
  }

  lemma {:induction false} ReadStutter(s: seq<Byte>, k: nat, m: nat, room: int)
    requires Stutter(s, k, m) && m + 1 < room
    ensures ReadUnescaped(s + [FLAG], room, m) == Got(s[..m], s[m + 1..] + [FLAG], room - m - 1)
    decreases m
  {
    hide Stutter;
    assert 0 <= k < m < |s| by { StutterBounds(s, k, m); }
    if k == 0 {
      StutterFirst(s, m, room);
    } else {
      var v := s[1..];
      assert (s + [FLAG])[1..] == v + [FLAG];
      StutterTail(s, k, m);
      ReadStutter(v, k - 1, m - 1, room - 1);
      assert v[m..] == s[m + 1..];
      assert [s[0]] + v[..m - 1] == s[..m];
    }
  }

  lemma StutterBounds(s: seq<Byte>, k: int, m: int)
    requires Stutter(s, k, m)
    ensures 0 <= k < m < |s|
  {}

  lemma StutterTail(s: seq<Byte>, k: nat, m: nat)
    requires 0 < k && Stutter(s, k, m)
    ensures s[0] != 0x7D && Stutter(s[1..], k - 1, m - 1)
  {
    PlainTail(s, k);
  }

  lemma StutterFirst(s: seq<Byte>, m: nat, room: int)
    requires Stutter(s, 0, m) && m + 1 < room
    ensures ReadUnescaped(s + [FLAG], room, m) == Got(s[..m], s[m + 1..] + [FLAG], room - m - 1)
  {
    hide ReadUnescaped;
    var u := s[2..];
    assert s + [FLAG] == EscapeByte(0x7D) + (u + [FLAG]);
    ReadOne(0x7D, u + [FLAG], room, m);
    assert forall j :: 0 <= j < m - 1 ==> u[j] == s[j + 2] == 0x01;
    ReadPlain(u, m - 1, room - 2);
    assert u[m - 1..] == s[m + 1..];
    assert [0x7D] + u[..m - 1] == s[..m];
  }

  lemma SurvivorExtracted(d: seq<Byte>)
    requires WellFormed(d) && !HasPackageItem(U16At(d, 2)) && Survives(d)
    ensures Extract(d + [FLAG], |d| + 1) == Found(Content(d))
  {
    hide ReadUnescaped, Xors, BigEndian;
    var n := |d| - 1;
    var l: nat := n - 17;
    assert d[..17][2..4] == d[2..4];
    assert d[17..][..l] == d[17..n];
    if ESC !in d[..n] {
      assert d[..n] == d[..17] + d[17..n];
      ReadPlain(d, 17, |d| + 1);
      ReadPlain(d[17..], l, |d| - 16);
    } else {
      var k :| Stutter(d, k, n);
      if k < 17 {
        ReadStutter(d, k, 17, |d| + 1);
        assert d[18..][..l] == d[17..n];
        ReadPlain(d[18..], l, l + 1);
      } else {
        assert d[..k] == d[..17] + d[17..k];
        ReadPlain(d, 17, |d| + 1);
        assert d[17..][..k - 17] == d[17..k];
        ReadStutter(d[17..], k - 17, l, l + 2);
      }
    }
  }

  /** Bytes that come out one place late after a 0x01 are all 0x01. */
  lemma {:induction false} LateBytesAreOnes(s: seq<Byte>, m: nat, room: int)
    requires FLAG !in s && m <= |s| + 1
    requires var r := ReadUnescaped(s + [FLAG], room, m); r.Got? && r.data == ([0x01] + s)[..m]
    ensures m <= |s| && ReadUnescaped(s + [FLAG], room, m).rest == s[m..] + [FLAG]
    ensures forall j :: 0 <= j < m ==> s[j] == 0x01
    decreases m
  {
    hide ReadUnescaped;
    var t := s + [FLAG];
    assert t[0..] == t;
    if m == 0 {
      assert s[0..] == s;
      ReadNothing(t, room);
    } else {
      var r := ReadUnescaped(t, room, m);
      ReadStep(t, 0, room, m);
      assert r.data[0] == 0x01;
      assert t[0] == if s == [] then FLAG else s[0];
      if s == [] {
        assert false;
      } else {
        assert t[1..] == s[1..] + [FLAG];
        assert s[0] == 0x01;
        var q := ReadUnescaped(s[1..] + [FLAG], room - 1, m - 1);
        assert r == Cons([s[0]], q) && q.data == r.data[1..];
        assert s == [0x01] + s[1..];
        assert ([0x01] + s)[..m][1..] == s[..m - 1];
        LateBytesAreOnes(s[1..], m - 1, room - 1);
        assert s[1..][m - 1..] == s[m..];
      }
    }
  }

  /** Bytes that come out as they stand contain no escape, or stutter. */
  ghost predicate PlainOrStutter(s: seq<Byte>, m: nat, rest: seq<Byte>)
    requires m < |s|
  {
    || (0x7D !in s[..m] && rest == s[m..] + [FLAG])
    || (rest == s[m + 1..] + [FLAG] && exists k :: Stutter(s, k, m))
  }

  lemma {:induction false} ReadInverse(s: seq<Byte>, m: nat, room: int)
    requires FLAG !in s && m < |s|
    requires var r := ReadUnescaped(s + [FLAG], room, m); r.Got? && r.data == s[..m]
    ensures PlainOrStutter(s, m, ReadUnescaped(s + [FLAG], room, m).rest)
    decreases m
  {
    hide PlainOrStutter, Stutter;
    if m == 0 {
      NothingRead(s, room);
    } else if s[0] == 0x7D {
      EscapeFirst(s, m, room);
    } else {
      var v := s[1..];
      assert (s + [FLAG])[1..] == v + [FLAG];
      var r, q := ReadUnescaped(s + [FLAG], room, m), ReadUnescaped(v + [FLAG], room - 1, m - 1);
      assert q.data == r.data[1..] == v[..m - 1];
      ReadInverse(v, m - 1, room - 1);
      PlainFirst(s, m, q.rest);
    }
  }

  lemma NothingRead(s: seq<Byte>, room: int)
    requires s != []
    ensures PlainOrStutter(s, 0, ReadUnescaped(s + [FLAG], room, 0).rest)
  {
    assert s[0..] == s;
  }

  lemma EscapeFirst(s: seq<Byte>, m: nat, room: int)
    requires FLAG !in s && 0 < m < |s| && s[0] == 0x7D
    requires var r := ReadUnescaped(s + [FLAG], room, m); r.Got? && r.data == s[..m]
    ensures PlainOrStutter(s, m, ReadUnescaped(s + [FLAG], room, m).rest)
  {
    var r := ReadUnescaped(s + [FLAG], room, m);
    var v := s[2..];
    assert r.data[0] == 0x7D;
    assert s[1] == 0x01;
    assert (s + [FLAG])[2..] == v + [FLAG];
    var q := ReadUnescaped(v + [FLAG], room - 2, m - 1);
    assert q.data == r.data[1..] == ([0x01] + v)[..m - 1];
    LateBytesAreOnes(v, m - 1, room - 2);
    assert v[m - 1..] == s[m + 1..];
    assert forall j :: 2 <= j <= m ==> s[j] == v[j - 2];
    assert Stutter(s, 0, m);
  }

  lemma PlainFirst(s: seq<Byte>, m: nat, rest: seq<Byte>)
    requires 0 < m < |s| && s[0] != 0x7D && PlainOrStutter(s[1..], m - 1, rest)
    ensures PlainOrStutter(s, m, rest)
  {
    hide Stutter;
    var v := s[1..];
    PlainTail(s, m);
    assert v[m - 1..] == s[m..];
    if !(0x7D !in v[..m - 1] && rest == v[m - 1..] + [FLAG]) {
      var k :| Stutter(v, k, m - 1);
      StutterLater([s[0]], v, k, m - 1);
      assert [s[0]] + v == s;
      assert v[m..] == s[m + 1..];
    }
  }

  lemma StutterLater(p: seq<Byte>, s: seq<Byte>, k: int, n: int)
    requires 0x7D !in p && Stutter(s, k, n)
    ensures Stutter(p + s, |p| + k, |p| + n)
  {
    var t := p + s;
    assert t[..|p| + k] == p + s[..k];
    assert forall j :: |p| + k < j <= |p| + n ==> t[j] == s[j - |p|];
  }

  lemma ExtractedSurvives(d: seq<Byte>)
    requires WellFormed(d) && !HasPackageItem(U16At(d, 2)) && FLAG !in d
    requires Extract(d + [FLAG], |d| + 1) == Found(Content(d))
    ensures Survives(d)
  {
    hide ReadUnescaped, Xors, BigEndian, Stutter, Survives, PlainOrStutter;
    var n := |d| - 1;
    var l := n - 17;
    assert d[..17][2..4] == d[2..4];
    var h := ReadUnescaped(d + [FLAG], |d| + 1, 17);
    ReadInverse(d, 17, |d| + 1);
    BodyInverse(d, h.rest, h.room);
  }

  lemma BodyInverse(d: seq<Byte>, t: seq<Byte>, room: int)
    requires 18 <= |d| && FLAG !in d && PlainOrStutter(d, 17, t)
    requires var b := ReadUnescaped(t, room, |d| - 18); b.Got? && b.data == d[17..|d| - 1]
    ensures Survives(d)
  {
    hide ReadUnescaped, Stutter;
    var n := |d| - 1;
    var l := n - 17;
    if 0x7D !in d[..17] && t == d[17..] + [FLAG] {
      var s := d[17..];
      assert s[..l] == d[17..n];
      ReadInverse(s, l, room);
      if 0x7D in s[..l] {
        var k :| Stutter(s, k, l);
        StutterLater(d[..17], s, k, l);
        assert d[..17] + s == d;
      } else {
        assert d[..n] == d[..17] + s[..l];
      }
    } else {
      var k :| Stutter(d, k, 17);
      StutterEnd(d, k, 17);
      assert ([0x01] + d[18..])[..l] == d[17..n];
      LateBytesAreOnes(d[18..], l, room);
      StutterGrows(d, k, 17, n);
    }
  }

  lemma StutterEnd(s: seq<Byte>, k: int, m: int)
    requires Stutter(s, k, m)
    ensures s[m] == 0x01
  {}

  lemma StutterGrows(s: seq<Byte>, k: int, m: int, n: int)
    requires Stutter(s, k, m) && 0 <= m <= n < |s|
    requires var v := s[m + 1..]; forall j :: 0 <= j < n - m ==> v[j] == 0x01
    ensures Stutter(s, k, n)
  {
    assert forall j :: m < j <= n ==> s[j] == s[m + 1..][j - m - 1];
  }

  /** Header and body have the lengths that the header's properties announce. */
  predicate Shaped(m: JTT808Msg) {
    && |m.header| >= 17
    && |m.header| == (if U16At(m.header, 2) / 0x2000 % 2 == 1 then 21 else 17)
    && |m.body| == U16At(m.header, 2) % 0x400
  }

  /** A delivered message has the announced lengths and never holds more bytes than the buffer behind its first flag. */
  lemma {:induction false} DeliveredFits(t: seq<Byte>)
    ensures var s := ScanAll(t);
            s.Next? && s.msg.Some? ==>
              Shaped(s.msg.value) && |s.msg.value.header| + |s.msg.value.body| < |t|
    decreases |t|
  {
    hide ScanAll, FindByte, Extract, Xors, Shaped;
    ScanFirstFlag(t);
    var p := FindByte(t, FLAG, 0);
    if p != -1 {
      var u := t[p..];
      ScanAtFlag(u);
      var e := FindByte(u, FLAG, 2);
      if |u| >= 16 && e != -1 {
        ExtractFits(u[1..], e);
        if Decide(u, e).NoMsg? {
          DeliveredFits(u[1..]);
        }
      }
    }
  }

  lemma ExtractFits(t: seq<Byte>, room: int)
    ensures var r := Extract(t, room); r.Found? ==> Shaped(r.msg) && |r.msg.header| + |r.msg.body| <= |t|
  {
    hide ReadUnescaped, BigEndian;
    var h := ReadUnescaped(t, room, 17);
    if h.Got? {
      var x := ReadUnescaped(h.rest, h.room, 4);
      assert x.Got? ==> (h.data + x.data)[2..4] == h.data[2..4];
    }
  }

  /**
    The server reads its own unescaped frame back whole exactly when the content survives:
    a stray 0x7E ends the frame early and a 0x7D swallows a byte.
   */
  lemma SurvivesIff(d: seq<Byte>)
    requires WellFormed(d) && !HasPackageItem(U16At(d, 2)) && d[0] != FLAG && d[1] != FLAG
    ensures ScanAll([FLAG] + d + [FLAG]) == Next(|d| + 2, Some(Content(d))) <==> Survives(d)
  {
    hide ScanAll, FindByte, Extract, Xors, Survives, WellFormed, Content, BigEndian;
    var u := [FLAG] + d + [FLAG];
    var e := FindByte(u, FLAG, 2);
    SurvivorHasNoFlag(d);
    UnescapedLength(d);
    ScanAtFlag(u);
    assert u[1..] == d + [FLAG];
    assert u[|d| + 1] == FLAG;
    if FLAG in d {
      FlagInside(d);
    } else {
      assert FLAG !in ([FLAG] + d)[2..] by {
        forall i | 2 <= i < |d| + 1 ensures ([FLAG] + d)[i] != FLAG { assert ([FLAG] + d)[i] == d[i - 1]; }
      }
      FindByteAfter([FLAG] + d, FLAG, [], 2);
      assert [FLAG] + d + [FLAG] + [] == u;
      assert u[1..|d| + 1] == d;
      ScanSkip(d, [FLAG]);
      ScanAtFlag([FLAG]);
      if Survives(d) {
        SurvivorExtracted(d);
      } else if Extract(d + [FLAG], |d| + 1) == Found(Content(d)) {
        ExtractedSurvives(d);
      }
    }
  }

  lemma SurvivorHasNoFlag(d: seq<Byte>)
    requires WellFormed(d)
    ensures Survives(d) ==> FLAG !in d
  {}

  lemma UnescapedLength(d: seq<Byte>)
    requires WellFormed(d)
    ensures 18 <= |d| && Xors(d) == 0
    ensures |Content(d).header| + |Content(d).body| == |d| - 1
  {}

  /** With a 0x7E inside, whatever is delivered for the whole frame is not its content. */
  lemma FlagInside(d: seq<Byte>)
    requires WellFormed(d) && FLAG in d && d[0] != FLAG && d[1] != FLAG
    ensures ScanAll([FLAG] + d + [FLAG]) != Next(|d| + 2, Some(Content(d)))
  {
    hide ScanAll, FindByte, Decide, WellFormed, Content;
    UnescapedLength(d);
    var u := [FLAG] + d + [FLAG];
    ScanAtFlag(u);
    var j :| 0 <= j < |d| && d[j] == FLAG;
    assert u[j + 1] == FLAG && 2 <= j;
    var e := FindByte(u, FLAG, 2);
    assert 2 <= e <= j + 1;
    var t := d[2..] + [FLAG];
    assert u[1..] == d[..2] + t;
    ScanSkip(d[..2], t);
    DeliveredFits(t);
  }

  /** The scanner gives the written header and body back exactly when the fields fit and the bytes survive. */
  lemma DeliveredIff(cmd: Cmd, h: MsgHeader)
    ensures var d := RawBeacon(cmd, h);
            var msg := JTT808Msg(PutHeader(SentHeader(cmd, h)), cmd.Body());
            ScanAll([FLAG] + d + [FLAG]) == Next(|d| + 2, Some(msg)) <==> FieldsFit(cmd, h) && Survives(d)
  {
    hide ScanAll, Survives, PutHeader, Cmd.Body, RawBeacon, WellFormed, Content, BigEndian;
    var d, s := RawBeacon(cmd, h), SentHeader(cmd, h);
    if FieldsFit(cmd, h) {
      RawBeaconWellFormed(cmd, h);
      SurvivesIff(d);
    } else {
      DeliveredFits([FLAG] + d + [FLAG]);
      HeaderStart(s);
      assert !HasPackageItem(s.properties) && BodyLen(s.properties) < 0x400;
    }
  }

  /** What the server's scanner, header parser and command parser make of its own message is what was sent. */
  predicate ComesBack(cmd: Cmd, h: MsgHeader) {
    var d, sent := RawBeacon(cmd, h), SentHeader(cmd, h);
    var msg := JTT808Msg(PutHeader(sent), cmd.Body());
    && ScanAll([FLAG] + d + [FLAG]) == Next(|d| + 2, Some(msg))
    && ParseHeader(msg.header) == Some(sent)
    && ParseCmd(sent.messageId, msg.body) == Parsed(cmd)
  }

  /**
    For every command and every header: when the fields fit and agree and the unescaped bytes
    survive, the server reads its own message back; and no other message comes back, unless the
    command parser reads past a 0x1210 body, about which nothing is said here.
   */
  lemma WrittenMessageComesBack(cmd: Cmd, h: MsgHeader)
    ensures var good := Sendable(cmd, h) && Survives(RawBeacon(cmd, h));
            && (good ==> ComesBack(cmd, h))
            && (ParseCmd(cmd.MessageId(), cmd.Body()) != Unchecked ==> (ComesBack(cmd, h) <==> good))
  {
    hide ScanAll, Survives, PutHeader, ParseHeader, Cmd.Body, ParseCmd, RawBeacon, BigEndian, AllDigits;
    DeliveredIff(cmd, h);
    HeaderRoundTrip(SentHeader(cmd, h));
    WriteThenParse(cmd);
  }

  /** A command that is lost: its file type, the second byte of the body, is 0x7E. */
  lemma FlagInBodyIsLost(h: MsgHeader)
    requires h.packageInfo.None? && |h.phoneNumber| == 20 && AllDigits(h.phoneNumber)
    ensures var cmd := Cmd9212(0, [], 0x7E, 0, 0, []);
            Sendable(cmd, h) && !Survives(RawBeacon(cmd, h)) && !ComesBack(cmd, h)
  {
    hide PutHeader, Xors, ScanAll, ParseHeader;
    var cmd := Cmd9212(0, [], 0x7E, 0, 0, []);
    assert cmd.Body()[1] == FLAG;
    assert RawBeacon(cmd, h)[|PutHeader(SentHeader(cmd, h))| + 1] == FLAG;
    DeliveredIff(cmd, h);
  }
}
