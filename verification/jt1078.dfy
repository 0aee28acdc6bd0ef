/**
  JT/T 1078 video packets over TCP: `StreamBuffer` resynchronises on a magic
  number and cuts length-prefixed packets out of an arbitrarily cut stream.
 */
module Jt1078 {
  import opened Bytes
  import opened Reading
  import Hex

  const MAGIC: seq<Byte> := [0x30, 0x31, 0x63, 0x64]
  const HEADER_SIZE := 30
  const MAX_PAYLOAD := 65000
  const PAYLOAD_TYPE: map<nat, string> :=
    map[98 := "H264", 99 := "H265", 4 := "G711A", 8 := "G711U", 26 := "JPEG"]

  datatype Packet = Packet(
    sim: string, channel: Byte, dataType: nat, packetType: nat, codec: string,
    timestampMs: U64, sequence: U16, payload: seq<Byte>)

  // ----- one packet -----------------------------------------------------------

  function Decimal(n: nat): string {
    if n < 10 then [('0' as int + n) as char] else Decimal(n / 10) + [('0' as int + n % 10) as char]
  }

  function CodecName(pt: nat): string {
    if pt in PAYLOAD_TYPE then PAYLOAD_TYPE[pt] else "PT" + Decimal(pt)
  }

  function ParsePacket(data: seq<Byte>): Option<Packet> {
    if |data| < HEADER_SIZE then None
    else if data[..4] != MAGIC then None
    else
      var payloadLen := U16At(data, 28);
      if |data| < HEADER_SIZE + payloadLen then None
      else Some(Packet(
                  Hex.ToHex(data[8..14]), data[14], data[15] / 16 % 16, data[15] % 16, CodecName(data[5] % 128),
                  U64At(data, 16), U16At(data, 6), data[HEADER_SIZE..HEADER_SIZE + payloadLen]))
  }

  /** The checks that tell a header from a magic number inside a payload. */
  predicate Plausible(r: seq<Byte>)
    requires HEADER_SIZE <= |r|
  {
    r[4] / 64 == 2 && r[5] % 128 in PAYLOAD_TYPE && 0 < U16At(r, 28) <= MAX_PAYLOAD
  }

  /**
    A header is accepted exactly when its version is 2, its payload type one of the five known ones,
    and its length between 1 and 65000.
   */
  lemma PlausibleIff(r: seq<Byte>)
    requires 30 <= |r|
    ensures Plausible(r) <==>
            && 0x80 <= r[4] < 0xC0 && r[5] % 0x80 in {4, 8, 26, 98, 99}
            && 0 < 0x100 * (r[28] as int) + r[29] <= 65000
  {
    hide BigEndian;
    U16Value(r, 28);
  }

  /** A packet parses exactly when header and payload are there; what follows is ignored. */
  lemma ParsesIff(data: seq<Byte>)
    ensures ParsePacket(data).Some? <==>
            30 <= |data| && data[..4] == [0x30, 0x31, 0x63, 0x64] && 30 + U16At(data, 28) <= |data|
    ensures ParsePacket(data).Some? ==> ParsePacket(data).value.payload == data[30..30 + U16At(data, 28)]
  {
    hide BigEndian, Hex.ToHex;
  }

  lemma CodecNames()
    ensures CodecName(98) == "H264" && CodecName(99) == "H265"
    ensures CodecName(4) == "G711A" && CodecName(8) == "G711U" && CodecName(26) == "JPEG"
    ensures CodecName(7) == "PT7" && CodecName(127) == "PT127"
  {
    assert Decimal(12) == "12";
  }

  // ----- specification of the buffer -----------------------------------------

  function Last3(b: seq<Byte>): seq<Byte> {
    if |b| >= 3 then b[|b| - 3..] else b
  }

  /** The raw packets cut out of a buffer, and the bytes that stay in it. */
  function Drain(b: seq<Byte>): (d: Drained<seq<Byte>>)
    ensures !d.crashed
    decreases |b|
  {
    var idx := Find(b, MAGIC, 0);
    if idx == -1 then Drained([], Last3(b))
    else
      var r := b[idx..];
      if |r| < HEADER_SIZE then Drained([], r)
      else if !Plausible(r) then Drain(r[1..])
      else
        var total := HEADER_SIZE + U16At(r, 28);
        if |r| < total then Drained([], r)
        else Prepend([r[..total]], Drain(r[total..]))
  }

  function PacketIn(raw: seq<Byte>): seq<Packet> {
    match ParsePacket(raw)
    case Some(p) => [p]
    case None => []
  }

  function ParseAll(raws: seq<seq<Byte>>): seq<Packet> {
    if raws == [] then [] else PacketIn(raws[0]) + ParseAll(raws[1..])
  }

  // ----- the buffer -------------------------------------------------------------

  class StreamBuffer {
    var raw: seq<Byte>

    constructor ()
      ensures raw == []
    {
      raw := [];
    }

    method Feed(data: seq<Byte>)
      modifies this
      ensures raw == old(raw) + data
    {
      raw := raw + data;
    }

    /** Everything the generator yields before it returns. */
    method Packets() returns (out: seq<Packet>)
      modifies this
      ensures var d := Drain(old(raw)); raw == d.rest && out == ParseAll(d.items)
    {
      hide Drain, ParsePacket;
      out := [];
      ghost var cut := [];
      while true
        invariant Prepend(cut, Drain(raw)) == Drain(old(raw))
        invariant out == ParseAll(cut)
        decreases |raw|
      {
        DrainStep(raw);
        var idx := Find(raw, MAGIC, 0);
        if idx == -1 {
          raw := if |raw| >= 3 then raw[|raw| - 3..] else raw;
          assert cut + [] == cut;
          return;
        }
        DrainFromMagic(raw);
        if idx > 0 {
          raw := raw[idx..];
        }
        if |raw| < HEADER_SIZE {
          assert cut + [] == cut;
          return;
        }
        var b4, b5 := raw[4], raw[5];
        var pt := b5 % 128;
        if b4 / 64 != 2 || pt !in PAYLOAD_TYPE {
          raw := raw[1..];
          continue;
        }
        var payloadLen := U16At(raw, 28);
        if payloadLen == 0 || payloadLen > MAX_PAYLOAD {
          raw := raw[1..];
          continue;
        }
        var total := HEADER_SIZE + payloadLen;
        if |raw| < total {
          assert cut + [] == cut;
          return;
        }
        var rawPkt := raw[..total];
        raw := raw[total..];
        PrependTwice(cut, [rawPkt], Drain(raw));
        ParseAllAppend(cut, rawPkt);
        cut := cut + [rawPkt];
        var pkt := ParsePacket(rawPkt);
        if pkt.Some? {
          out := out + [pkt.value];
        }
      }
    }
  }

  // ----- laws: draining -----------------------------------------------------------

  lemma {:induction false} ParseAllAppend(raws: seq<seq<Byte>>, raw: seq<Byte>)
    ensures ParseAll(raws + [raw]) == ParseAll(raws) + PacketIn(raw)
  {
    hide PacketIn;
    if raws == [] {
      assert raws + [raw] == [raw];
    } else {
      assert (raws + [raw])[1..] == raws[1..] + [raw];
      ParseAllAppend(raws[1..], raw);
    }
  }

  /** What draining does with a buffer that starts with the magic number. */
  function AtMagic(r: seq<Byte>): Drained<seq<Byte>> {
    if |r| < HEADER_SIZE then Drained([], r)
    else if !Plausible(r) then Drain(r[1..])
    else
      var total := HEADER_SIZE + U16At(r, 28);
      if |r| < total then Drained([], r) else Prepend([r[..total]], Drain(r[total..]))
  }

  lemma DrainStep(b: seq<Byte>)
    ensures var idx := Find(b, MAGIC, 0);
            Drain(b) == if idx == -1 then Drained([], Last3(b)) else AtMagic(b[idx..])
  {}

  lemma DrainAtMagic(r: seq<Byte>)
    requires MatchAt(r, MAGIC, 0)
    ensures Drain(r) == AtMagic(r)
  {
    hide Drain, AtMagic;
    DrainStep(r);
    FindIs(r, MAGIC, 0, 0);
    assert r[0..] == r;
  }

  lemma DrainFromMagic(b: seq<Byte>)
    requires Find(b, MAGIC, 0) != -1
    ensures var r := b[Find(b, MAGIC, 0)..]; MatchAt(r, MAGIC, 0) && Drain(b) == Drain(r) == AtMagic(r)
  {
    hide Drain, AtMagic, Find;
    DrainStep(b);
    MatchSuffix(b, Find(b, MAGIC, 0), MAGIC, 0);
    DrainAtMagic(b[Find(b, MAGIC, 0)..]);
  }

  /** Bytes at which no magic number starts are dropped. */
  lemma DrainNoise(noise: seq<Byte>, t: seq<Byte>)
    requires forall i :: 0 <= i < |noise| ==> !MatchAt(noise + t, MAGIC, i)
    requires |t| >= 3
    ensures Drain(noise + t) == Drain(t)
  {
    hide Drain, AtMagic, Find;
    var s := noise + t;
    var k := Find(t, MAGIC, 0);
    assert s[|noise|..] == t;
    FindSuffix(s, |noise|, MAGIC, 0);
    FindPast(s, MAGIC, |noise|);
    DrainStep(s);
    DrainStep(t);
    if k == -1 {
      assert Last3(s) == Last3(t);
    } else {
      assert s[|noise| + k..] == t[k..];
    }
  }

  /** Draining, letting `c` arrive and draining again is draining once. */
  lemma {:induction false} DrainSplit(a: seq<Byte>, c: seq<Byte>)
    ensures SameWhenCut(Drain, a, c)
    decreases |a|
  {
    hide Drain, Find, Plausible;
    var idx := Find(a, MAGIC, 0);
    DrainStep(a);
    if idx == -1 {
      DrainSplitNoMagic(a, c);
    } else {
      DrainFromMagic(a);
      FindExtend(a, c, MAGIC, 0);
      DrainFromMagic(a + c);
      var r := a[idx..];
      assert (a + c)[idx..] == r + c;
      if |r| >= HEADER_SIZE {
        PlausibleExtend(r, c);
        var total := HEADER_SIZE + U16At(r, 28);
        if !Plausible(r) {
          assert (r + c)[1..] == r[1..] + c;
          DrainSplit(r[1..], c);
        } else if total <= |r| {
          assert (r + c)[..total] == r[..total];
          assert (r + c)[total..] == r[total..] + c;
          DrainSplit(r[total..], c);
          PrependTwice([r[..total]], Drain(r[total..]).items, Drain(Drain(r[total..]).rest + c));
        }
      }
    }
  }

  lemma PlausibleExtend(r: seq<Byte>, c: seq<Byte>)
    requires HEADER_SIZE <= |r|
    ensures Plausible(r + c) == Plausible(r) && U16At(r + c, 28) == U16At(r, 28)
  {
    assert (r + c)[28..30] == r[28..30];
  }

  lemma DrainSplitNoMagic(a: seq<Byte>, c: seq<Byte>)
    requires Find(a, MAGIC, 0) == -1
    ensures Drain(a + c) == Drain(Last3(a) + c)
  {
    hide Drain, Find;
    if |a| >= 3 {
      var noise, t := a[..|a| - 3], Last3(a) + c;
      assert a + c == noise + t;
      forall i | 0 <= i < |noise|
        ensures !MatchAt(noise + t, MAGIC, i)
      {
        MatchExtend(a, c, MAGIC, i);
      }
      DrainNoise(noise, t);
    }
  }

  /**
    For every byte stream and every way of cutting it into reads, the packets and the bytes
    left in the buffer are those of the whole stream read at once.
   */
  lemma {:induction false} AnyCuts(before: seq<Byte>, chunks: seq<seq<Byte>>)
    ensures Prepend(Drain(before).items, ReadAll(Drain, Drain(before).rest, chunks)) == Drain(before + Flatten(chunks))
  {
    hide Drain;
    forall a ensures CutHarmless(Drain, a) {
      forall c ensures SameWhenCut(Drain, a, c) { DrainSplit(a, c); }
    }
    CutsDoNotMatter(Drain, before, chunks);
  }

  /** What stays in the buffer begins with the magic number, or is at most three bytes without it. */
  lemma {:induction false} RestShape(b: seq<Byte>)
    ensures var r := Drain(b).rest; MatchAt(r, MAGIC, 0) || (|r| <= 3 && |r| <= |b|)
    decreases |b|
  {
    hide Drain, Find, Plausible;
    DrainStep(b);
    var idx := Find(b, MAGIC, 0);
    if idx != -1 {
      DrainFromMagic(b);
      var r := b[idx..];
      if HEADER_SIZE <= |r| {
        if !Plausible(r) {
          RestShape(r[1..]);
        } else if HEADER_SIZE + U16At(r, 28) <= |r| {
          RestShape(r[HEADER_SIZE + U16At(r, 28)..]);
        }
      }
    }
  }

  /** The buffer keeps at most one packet that is not complete. */
  lemma {:induction false} RestBounded(b: seq<Byte>)
    ensures |Drain(b).rest| <= 65029
    decreases |b|
  {
    hide Drain, Find;
    DrainStep(b);
    var idx := Find(b, MAGIC, 0);
    if idx != -1 && HEADER_SIZE <= |b[idx..]| {
      var r := b[idx..];
      if !Plausible(r) {
        RestBounded(r[1..]);
      } else if HEADER_SIZE + U16At(r, 28) <= |r| {
        RestBounded(r[HEADER_SIZE + U16At(r, 28)..]);
      }
    }
  }

  /** A packet of a known codec with a plausible payload, and nothing behind it. */
  predicate Sound(raw: seq<Byte>) {
    && ParsePacket(raw).Some?
    && var p := ParsePacket(raw).value;
       raw[4] / 64 == 2 && p.codec in PAYLOAD_TYPE.Values && 0 < |p.payload| <= MAX_PAYLOAD &&
       raw == raw[..HEADER_SIZE] + p.payload
  }

  /** Every packet cut out of the buffer is sound, so the last check before the yield never drops one. */
  lemma {:induction false} EveryPacketParses(b: seq<Byte>)
    ensures forall raw <- Drain(b).items :: Sound(raw)
    ensures |ParseAll(Drain(b).items)| == |Drain(b).items|
    decreases |b|
  {
    hide Drain, Find, Plausible, ParsePacket, Sound;
    SoundParses();
    DrainStep(b);
    var idx := Find(b, MAGIC, 0);
    if idx != -1 && HEADER_SIZE <= |b[idx..]| {
      var r := b[idx..];
      var total := HEADER_SIZE + U16At(r, 28);
      if !Plausible(r) {
        EveryPacketParses(r[1..]);
      } else if total <= |r| {
        EveryPacketParses(r[total..]);
        assert MatchAt(r, MAGIC, 0) by { MatchSuffix(b, idx, MAGIC, 0); }
        CutIsSound(r, total);
        assert ([r[..total]] + Drain(r[total..]).items)[1..] == Drain(r[total..]).items;
      }
    }
  }

  lemma SoundParses()
    ensures forall raw :: Sound(raw) ==> ParsePacket(raw).Some?
  {}

  lemma CutIsSound(r: seq<Byte>, total: nat)
    requires MatchAt(r, MAGIC, 0) && HEADER_SIZE <= |r| && Plausible(r)
    requires total == HEADER_SIZE + U16At(r, 28) && total <= |r|
    ensures Sound(r[..total])
  {
    hide BigEndian, Hex.ToHex;
    var raw := r[..total];
    assert raw[..4] == r[0..4] == MAGIC;
    assert raw[28..30] == r[28..30];
    assert raw[HEADER_SIZE..HEADER_SIZE + U16At(r, 28)] == raw[HEADER_SIZE..];
    assert CodecName(raw[5] % 128) == PAYLOAD_TYPE[raw[5] % 128];
  }

  // ----- laws: nothing is lost ------------------------------------------------------

  /** A packet header starts at `i`. */
  predicate HeaderAt(b: seq<Byte>, i: nat) {
    MatchAt(b, MAGIC, i) && i + HEADER_SIZE <= |b| && Plausible(b[i..])
  }

  /**
    `b` is gap, packet, gap, packet, ..., gap and then `rest`, and no packet header starts
    inside a gap.
   */
  predicate Accounts(b: seq<Byte>, gaps: seq<seq<Byte>>, packets: seq<seq<Byte>>, rest: seq<Byte>)
    requires |gaps| == |packets| + 1
    decreases |packets|
  {
    && gaps[0] <= b
    && (forall i :: 0 <= i < |gaps[0]| ==> !HeaderAt(b, i))
    && var t := b[|gaps[0]|..];
       if packets == [] then t == rest
       else packets[0] <= t && Accounts(t[|packets[0]|..], gaps[1..], packets[1..], rest)
  }

  /** Every byte of the stream is in exactly one packet, in discarded noise, or still buffered. */
  lemma {:induction false} EveryByteAccounted(b: seq<Byte>) returns (gaps: seq<seq<Byte>>)
    ensures var d := Drain(b); |gaps| == |d.items| + 1 && Accounts(b, gaps, d.items, d.rest)
    decreases |b|
  {
    hide Drain, Find, Plausible, HeaderAt, Accounts;
    DrainStep(b);
    HeadersAfterMagic(b);
    var idx := Find(b, MAGIC, 0);
    if idx == -1 {
      var k := |b| - |Last3(b)|;
      gaps := [b[..k]];
      AccountsEnd(b, k);
    } else {
      var r := b[idx..];
      if |r| < HEADER_SIZE {
        gaps := [b[..idx]];
        AccountsEnd(b, idx);
      } else {
        var total := HEADER_SIZE + U16At(r, 28);
        if !Plausible(r) {
          var later := EveryByteAccounted(r[1..]);
          gaps := [b[..idx + 1] + later[0]] + later[1..];
          assert b[idx + 1..] == r[1..];
          GapGrows(b, idx + 1, later, Drain(r[1..]).items, Drain(r[1..]).rest);
        } else if |r| < total {
          gaps := [b[..idx]];
          AccountsEnd(b, idx);
        } else {
          var later := EveryByteAccounted(r[total..]);
          gaps := [b[..idx]] + later;
          AccountsPacket(b, idx, total, later, Drain(r[total..]).items, Drain(r[total..]).rest);
        }
      }
    }
  }

  /** No header starts before the first magic number, nor at it when the checks reject it. */
  lemma HeadersAfterMagic(b: seq<Byte>)
    ensures var idx := Find(b, MAGIC, 0);
            && (forall i: nat :: (idx == -1 || i < idx) ==> !HeaderAt(b, i))
            && (idx != -1 && |b[idx..]| >= HEADER_SIZE && !Plausible(b[idx..]) ==> !HeaderAt(b, idx))
  {
    hide Find, MatchAt, Plausible;
  }

  lemma AccountsEnd(b: seq<Byte>, k: nat)
    requires k <= |b| && forall i :: 0 <= i < k ==> !HeaderAt(b, i)
    ensures Accounts(b, [b[..k]], [], b[k..])
  {
    hide HeaderAt;
  }

  lemma AccountsPacket(b: seq<Byte>, k: nat, n: nat, later: seq<seq<Byte>>, packets: seq<seq<Byte>>, rest: seq<Byte>)
    requires k + n <= |b| && |later| == |packets| + 1
    requires forall i :: 0 <= i < k ==> !HeaderAt(b, i)
    requires Accounts(b[k..][n..], later, packets, rest)
    ensures Accounts(b, [b[..k]] + later, [b[k..][..n]] + packets, rest)
  {
    hide HeaderAt;
    var gaps, ps := [b[..k]] + later, [b[k..][..n]] + packets;
    assert gaps[1..] == later && ps[1..] == packets;
    assert gaps[0] == b[..k] && ps[0] == b[k..][..n];
  }

  lemma GapGrows(b: seq<Byte>, k: nat, later: seq<seq<Byte>>, packets: seq<seq<Byte>>, rest: seq<Byte>)
    requires k <= |b| && |later| == |packets| + 1
    requires forall i :: 0 <= i < k ==> !HeaderAt(b, i)
    requires Accounts(b[k..], later, packets, rest)
    ensures Accounts(b, [b[..k] + later[0]] + later[1..], packets, rest)
  {
    hide MatchAt, Plausible;
    var gaps := [b[..k] + later[0]] + later[1..];
    assert gaps[1..] == later[1..];
    forall i | 0 <= i < |gaps[0]|
      ensures !HeaderAt(b, i)
    {
      if k <= i {
        MatchSuffix(b, k, MAGIC, i - k);
        assert b[k..][i - k..] == b[i..];
        assert !HeaderAt(b[k..], i - k);
      }
    }
    assert b[|gaps[0]|..] == b[k..][|later[0]|..];
  }

  // ----- laws: a sender's packets -----------------------------------------------------

  /** A packet as a terminal sends it. */
  datatype Sent = Sent(
    flags: Byte, marker: bool, pt: nat, sequence: U16, sim: seq<Byte>, channel: Byte,
    dataType: nat, packetType: nat, timestampMs: U64, iframeInterval: U16, frameInterval: U16,
    payload: seq<Byte>)
  {
    predicate Valid() {
      && 0x80 <= flags < 0xC0 && pt in {4, 8, 26, 98, 99} && |sim| == 6
      && dataType < 16 && packetType < 16 && 0 < |payload| <= 65000
    }

    function Head(): (h: seq<Byte>)
      requires Valid()
      ensures |h| == 16
    {
      [0x30, 0x31, 0x63, 0x64] + [flags, pt + if marker then 128 else 0] + PutU16(sequence) + sim +
      [channel, 16 * dataType + packetType]
    }

    function Times(): (t: seq<Byte>)
      requires Valid()
      ensures |t| == 14
    {
      PutU64(timestampMs) + PutU16(iframeInterval) + PutU16(frameInterval) + PutU16(|payload|)
    }

    function Encode(): (e: seq<Byte>)
      requires Valid()
      ensures |e| == HEADER_SIZE + |payload|
    {
      Head() + Times() + payload
    }

    function Decoded(): Packet
      requires Valid()
    {
      Packet(Hex.ToHex(sim), channel, dataType, packetType, PAYLOAD_TYPE[pt], timestampMs, sequence, payload)
    }

    lemma EncodeLayout()
      requires Valid()
      ensures var e := Encode();
              && e[..4] == MAGIC && e[4] == flags && e[5] % 128 == pt && U16At(e, 6) == sequence
              && e[8..14] == sim && e[14] == channel && e[15] == 16 * dataType + packetType
              && U64At(e, 16) == timestampMs && U16At(e, 28) == |payload| && e[HEADER_SIZE..] == payload
    {
      hide BigEndian, ToBigEndian;
      var e := Encode();
      assert e[..4] == Head()[..4] == MAGIC;
      assert e[6..8] == Head()[6..8] == PutU16(sequence);
      U16Stored(e, 6, sequence);
      assert e[8..14] == Head()[8..14] == sim;
      assert e[16..24] == Times()[0..8] == PutU64(timestampMs);
      U64Stored(e, 16, timestampMs);
      assert e[28..30] == Times()[12..14] == PutU16(|payload|);
      U16Stored(e, 28, |payload|);
    }

    lemma DecodesWhole()
      requires Valid()
      ensures ParsePacket(Encode()) == Some(Decoded())
    {
      hide BigEndian, ToBigEndian, Hex.ToHex;
      EncodeLayout();
      assert Encode()[HEADER_SIZE..HEADER_SIZE + |payload|] == payload;
      assert CodecName(Encode()[5] % 128) == PAYLOAD_TYPE[pt];
    }

    lemma DrainsFirst(t: seq<Byte>)
      requires Valid()
      ensures Drain(Encode() + t) == Prepend([Encode()], Drain(t))
    {
      hide Drain, BigEndian, ToBigEndian;
      var e := Encode();
      EncodeLayout();
      assert (e + t)[0..4] == e[..4];
      DrainAtMagic(e + t);
      PlausibleExtend(e, t);
      assert (e + t)[..|e|] == e;
      assert (e + t)[|e|..] == t;
    }
  }

  /** Packets on the wire, with `noise[i]` in front of packet `i` and the last noise at the end. */
  function Wire(noise: seq<seq<Byte>>, sent: seq<Sent>): seq<Byte>
    requires |noise| == |sent| + 1
    requires forall p <- sent :: p.Valid()
  {
    if sent == [] then noise[0] else noise[0] + sent[0].Encode() + Wire(noise[1..], sent[1..])
  }

  function AllDecoded(sent: seq<Sent>): seq<Packet>
    requires forall p <- sent :: p.Valid()
  {
    if sent == [] then [] else [sent[0].Decoded()] + AllDecoded(sent[1..])
  }

  predicate MagicFree(noise: seq<Byte>) {
    forall i :: 0 <= i < |noise| ==> !MatchAt(noise, MAGIC, i)
  }

  lemma NoMagic(noise: seq<Byte>)
    requires MagicFree(noise)
    ensures Find(noise, MAGIC, 0) == -1
  {
    hide Find;
    var r := Find(noise, MAGIC, 0);
    assert MatchAt(noise, MAGIC, r) ==> 0 <= r < |noise|;
  }

  /** The bytes of the magic number are distinct, so no match straddles the start of a packet. */
  lemma NoStraddle(noise: seq<Byte>, t: seq<Byte>, i: nat)
    requires MagicFree(noise) && MatchAt(t, MAGIC, 0) && i < |noise|
    ensures !MatchAt(noise + t, MAGIC, i)
  {
    var s := noise + t;
    if i + 4 <= |noise| {
      MatchExtend(noise, t, MAGIC, i);
    } else {
      MatchAtByte(s, MAGIC, i, |noise| - i);
      MatchAtByte(t, MAGIC, 0, 0);
    }
  }

  lemma {:induction false} DrainWire(noise: seq<seq<Byte>>, sent: seq<Sent>)
    requires |noise| == |sent| + 1
    requires forall n <- noise :: MagicFree(n)
    requires forall p <- sent :: p.Valid()
    ensures var d := Drain(Wire(noise, sent));
            ParseAll(d.items) == AllDecoded(sent) && d.rest == Last3(noise[|sent|])
    decreases |sent|
  {
    hide Drain, Find, MatchAt, ParsePacket, Sent.Encode, Sent.Decoded;
    if sent == [] {
      NoMagic(noise[0]);
      DrainStep(noise[0]);
    } else {
      var e, t := sent[0].Encode(), Wire(noise[1..], sent[1..]);
      assert Wire(noise, sent) == noise[0] + (e + t);
      StartsWithMagic(sent[0], t);
      forall i | 0 <= i < |noise[0]|
        ensures !MatchAt(noise[0] + (e + t), MAGIC, i)
      {
        NoStraddle(noise[0], e + t, i);
      }
      DrainNoise(noise[0], e + t);
      sent[0].DrainsFirst(t);
      sent[0].DecodesWhole();
      DrainWire(noise[1..], sent[1..]);
      assert ([e] + Drain(t).items)[1..] == Drain(t).items;
    }
  }

  lemma StartsWithMagic(p: Sent, t: seq<Byte>)
    requires p.Valid()
    ensures MatchAt(p.Encode() + t, MAGIC, 0)
  {
    p.EncodeLayout();
    assert (p.Encode() + t)[0..4] == p.Encode()[..4];
  }

  lemma DrainEmpty()
    ensures Drain([]) == Drained([], [])
  {}

  /**
    However the wire is cut into reads, exactly the packets that were sent come out, in order
    and with all their fields; the payloads may contain the magic number.
   */
  lemma {:induction false} EveryPacketArrives(noise: seq<seq<Byte>>, sent: seq<Sent>, chunks: seq<seq<Byte>>)
    requires |noise| == |sent| + 1
    requires forall n <- noise :: MagicFree(n)
    requires forall p <- sent :: p.Valid()
    requires Flatten(chunks) == Wire(noise, sent)
    ensures ParseAll(ReadAll(Drain, [], chunks).items) == AllDecoded(sent)
  {
    hide Drain, Find, MatchAt, ParseAll, AllDecoded, ReadAll, Flatten, Wire;
    DrainEmpty();
    AnyCuts([], chunks);
    assert [] + Flatten(chunks) == Flatten(chunks);
    PrependNothing(ReadAll(Drain, [], chunks));
    DrainWire(noise, sent);
  }
}
