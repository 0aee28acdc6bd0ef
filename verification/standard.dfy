/**
  What the Go scanner makes of frames that follow JT/T 808-2019: content =
  header, body of the declared length and checksum, escaped between two 0x7E.
  Its checksum test sees the escaped bytes, so it accepts exactly the frames
  with an even number of escaped bytes.
 */
module StandardFrames {
  import opened Bytes
  import opened Escaping
  import opened Reading
  import opened Scanner
  import opened Traffic
  import opened Receiver

  // ----- frames -----------------------------------------------------------------

  /** Bit 13 of the properties announces a package item. */
  function HeaderLen(props: U16): nat { if props / 0x2000 % 2 == 1 then 21 else 17 }
  function BodyLen(props: U16): nat { props % 0x400 }

  /** Header, a body of the declared length, and one byte that makes all bytes cancel. */
  predicate WellFormed(d: seq<Byte>) {
    && 18 <= |d|
    && |d| == HeaderLen(U16At(d, 2)) + BodyLen(U16At(d, 2)) + 1
    && Xors(d) == 0
  }

  function Content(d: seq<Byte>): JTT808Msg
    requires WellFormed(d)
  {
    var h := HeaderLen(U16At(d, 2));
    JTT808Msg(d[..h], d[h..|d| - 1])
  }

  predicate Even(d: seq<Byte>) { Marks(d) % 2 == 0 }

  lemma ReadOne(b: Byte, t: seq<Byte>, room: int, n: nat)
    requires 0 < n && |EscapeByte(b)| <= room
    ensures ReadUnescaped(EscapeByte(b) + t, room, n) ==
            Cons([b], ReadUnescaped(t, room - |EscapeByte(b)|, n - 1))
  {
    assert (EscapeByte(b) + t)[|EscapeByte(b)|..] == t;
  }

  lemma {:induction false} ReadEscaped(x: seq<Byte>, y: seq<Byte>, room: int)
    requires |Escape(x)| <= room
    ensures ReadUnescaped(Escape(x) + y, room, |x|) == Got(x, y, room - |Escape(x)|)
  {
    if x == [] {
      assert Escape(x) + y == y;
    } else {
      var e := EscapeByte(x[0]);
      assert Escape(x) + y == e + (Escape(x[1..]) + y);
      ReadOne(x[0], Escape(x[1..]) + y, room, |x|);
      ReadEscaped(x[1..], y, room - |e|);
      assert [x[0]] + x[1..] == x;
    }
  }

  /** A well-formed frame unescapes to exactly its header and body. */
  lemma ExtractContent(d: seq<Byte>, tail: seq<Byte>)
    requires WellFormed(d)
    ensures Extract(Escape(d) + tail, |Escape(d)| + 1) == Found(Content(d))
  {
    hide ReadUnescaped, Escape, Xors, BigEndian;
    var props, n := U16At(d, 2), |d| - 1;
    var h := HeaderLen(props);
    var afterBody := Escape(d[n..]) + tail;
    var afterItem := Escape(d[h..n]) + afterBody;
    var afterFixed := Escape(d[17..h]) + afterItem;
    EscapeParts(d, 17, h, n, tail);
    var room := |Escape(d)| + 1;
    ReadEscaped(d[..17], afterFixed, room);
    assert d[2..4] == d[..17][2..4];
    room := room - |Escape(d[..17])|;
    ReadEscaped(d[17..h], afterItem, room);
    room := room - |Escape(d[17..h])|;
    EscapeLength(d[h..n]);
    ReadEscaped(d[h..n], afterBody, room);
    assert d[..17] + d[17..h] == d[..h];
    if h == 17 {
      EscapeLength(d[17..h]);
      assert afterFixed == afterItem;
    }
  }

  lemma EscapeParts(d: seq<Byte>, i: nat, j: nat, k: nat, tail: seq<Byte>)
    requires i <= j <= k <= |d|
    ensures Escape(d) + tail == Escape(d[..i]) + (Escape(d[i..j]) + (Escape(d[j..k]) + (Escape(d[k..]) + tail)))
    ensures |Escape(d)| == |Escape(d[..i])| + |Escape(d[i..j])| + |Escape(d[j..k])| + |Escape(d[k..])|
  {
    hide Escape;
    assert d == d[..i] + (d[i..j] + (d[j..k] + d[k..]));
    EscapeConcat(d[..i], d[i..j] + (d[j..k] + d[k..]));
    EscapeConcat(d[i..j], d[j..k] + d[k..]);
    EscapeConcat(d[j..k], d[k..]);
  }

  /** Whatever is extracted, from any bytes, has exactly the lengths that its own properties announce. */
  lemma ExtractedLengths(t: seq<Byte>, room: int)
    ensures var r := Extract(t, room);
            r.Found? ==>
              && |r.msg.header| >= 17
              && var props := U16At(r.msg.header, 2);
                 |r.msg.header| == (if props / 0x2000 % 2 == 1 then 21 else 17) && |r.msg.body| == props % 0x400
  {
    hide ReadUnescaped, BigEndian;
    var h := ReadUnescaped(t, room, 17);
    if h.Got? {
      var x := ReadUnescaped(h.rest, h.room, 4);
      assert x.Got? ==> (h.data + x.data)[2..4] == h.data[2..4];
    }
  }

  lemma DecideFrame(d: seq<Byte>, tail: seq<Byte>)
    requires WellFormed(d)
    ensures Decide(Enclose(d) + tail, |Escape(d)| + 1) == if Even(d) then Found(Content(d)) else NoMsg
  {
    hide Extract, Escape, Xors, Xor;
    var u := Enclose(d) + tail;
    assert u[1..|Escape(d)| + 1] == Escape(d);
    assert u[1..] == Escape(d) + ([FLAG] + tail);
    ExtractContent(d, [FLAG] + tail);
    XorsEscape(d);
    XorGroup(Marks(d) % 2, 0, 0);
  }

  lemma FrameEnd(lead: seq<Byte>, d: seq<Byte>, tail: seq<Byte>)
    requires |lead| <= 1 && |Escape(d)| >= 1
    ensures FindByte(lead + Enclose(d) + tail, FLAG, 2) == |lead| + |Escape(d)| + 1
  {
    hide FindByte, Escape;
    EscapeCanonical(d);
    var p := lead + [FLAG] + Escape(d);
    assert lead + Enclose(d) + tail == p + [FLAG] + tail;
    assert FLAG !in p[2..] by {
      forall i | 2 <= i < |p| ensures p[i] != FLAG {
        assert p[i] == Escape(d)[i - |lead| - 1];
      }
    }
    FindByteAfter(p, FLAG, tail, 2);
  }

  /** The scanner accepts a frame with an even number of escapes and leaves the last flag of any other. */
  lemma ScanFrame(d: seq<Byte>, tail: seq<Byte>)
    requires WellFormed(d)
    ensures ScanAll(Enclose(d) + tail) ==
            if Even(d) then Next(|Enclose(d)|, Some(Content(d)))
            else Shift(|Enclose(d)| - 1, ScanAll([FLAG] + tail))
  {
    hide ScanAll, FindByte, Decide, Escape, WellFormed, Content, Marks;
    WellFormedLength(d);
    var u, e := Enclose(d) + tail, |Escape(d)| + 1;
    ScanAtFlag(u);
    FrameEnd([], d, tail);
    assert [] + Enclose(d) + tail == u;
    DecideFrame(d, tail);
    if !Even(d) {
      EscapeCanonical(d);
      assert u[1..] == Escape(d) + ([FLAG] + tail);
      ScanSkip(Escape(d), [FLAG] + tail);
      ShiftTwice(1, |Escape(d)|, ScanAll([FLAG] + tail));
    }
  }

  lemma WellFormedLength(d: seq<Byte>)
    requires WellFormed(d)
    ensures |Escape(d)| >= 18 && |Enclose(d)| >= 20
  {
    EscapeLength(d);
  }

  predicate AllFlags(s: seq<Byte>) {
    forall i :: 0 <= i < |s| ==> s[i] == FLAG
  }

  /** A flag in front of a frame, or of more such flags, is passed over. */
  lemma ScanStray(strays: seq<Byte>, d: seq<Byte>, tail: seq<Byte>)
    requires WellFormed(d) && AllFlags(strays)
    ensures var x := strays + Enclose(d) + tail; ScanAll([FLAG] + x) == Shift(1, ScanAll(x))
  {
    hide ScanAll, FindByte, Extract, Escape, WellFormed, Xors, Xor;
    WellFormedLength(d);
    var x := strays + Enclose(d) + tail;
    var u := [FLAG] + x;
    ScanAtFlag(u);
    assert u[1..] == x;
    if strays == [] {
      assert u == [FLAG] + Enclose(d) + tail;
      FrameEnd([FLAG], d, tail);
      assert u[1..|Escape(d)| + 2] == [FLAG] + Escape(d);
      StrayChecksum(d);
    } else {
      assert u[1] == strays[0] == FLAG;
      assert u[2] == if |strays| > 1 then strays[1] else Enclose(d)[0];
      assert FindByte(u, FLAG, 2) == 2;
      assert u[1..2] == [FLAG];
      XorsOne(FLAG);
    }
  }

  lemma StrayChecksum(d: seq<Byte>)
    requires WellFormed(d)
    ensures Xors([FLAG] + Escape(d)) != 0
  {
    hide Xors, Xor, Escape, Marks;
    XorsConcat([FLAG], Escape(d));
    XorsOne(FLAG);
    XorsEscape(d);
    XorGroup(Marks(d) % 2, 0, 0);
    XorCancel(FLAG, Xors(Escape(d)));
  }

  // ----- resynchronisation ------------------------------------------------------------

  /**
    After any bytes free of 0x7E and any number of stray 0x7E bytes, the next message delivered
    is exactly the frame that follows, provided that it has an even number of escapes.
   */
  lemma {:induction false} Resynchronises(noise: seq<Byte>, strays: seq<Byte>, d: seq<Byte>, tail: seq<Byte>)
    requires FLAG !in noise && AllFlags(strays)
    requires WellFormed(d) && Even(d)
    ensures ScanAll(noise + strays + Enclose(d) + tail) ==
            Next(|noise| + |strays| + |Enclose(d)|, Some(Content(d)))
    decreases |noise| + |strays|
  {
    hide ScanAll, Enclose, WellFormed, Content, Even;
    var t := strays + Enclose(d) + tail;
    if noise != [] {
      assert noise + strays + Enclose(d) + tail == noise + t;
      ScanSkip(noise, t);
      Resynchronises([], strays, d, tail);
      assert [] + strays + Enclose(d) + tail == t;
    } else if strays != [] {
      var s := strays[1..];
      ScanStray(s, d, tail);
      assert noise + strays + Enclose(d) + tail == [FLAG] + (s + Enclose(d) + tail);
      Resynchronises([], s, d, tail);
      assert [] + s + Enclose(d) + tail == s + Enclose(d) + tail;
    } else {
      ScanFrame(d, tail);
      assert noise + strays + Enclose(d) + tail == Enclose(d) + tail;
    }
  }

  // ----- streams of frames --------------------------------------------------------------

  function Stream(ds: seq<seq<Byte>>): seq<Byte> {
    if ds == [] then [] else Enclose(ds[0]) + Stream(ds[1..])
  }

  lemma StreamStep(ds: seq<seq<Byte>>)
    ensures Stream(ds) == if ds == [] then [] else Enclose(ds[0]) + Stream(ds[1..])
  {}

  function Accepted(ds: seq<seq<Byte>>): seq<JTT808Msg>
    requires forall d <- ds :: WellFormed(d)
  {
    if ds == [] then [] else (if Even(ds[0]) then [Content(ds[0])] else []) + Accepted(ds[1..])
  }

  /** Nothing, or the start of a frame whose second flag has not arrived. */
  predicate Open(q: seq<Byte>) {
    q == [] || (q[0] == FLAG && FLAG !in q[1..])
  }

  /** The closing flag of a rejected frame stays in front of the buffer. */
  function Stale(rejected: bool): seq<Byte> {
    if rejected then [FLAG] else []
  }

  function LastRejected(before: bool, ds: seq<seq<Byte>>): bool {
    if ds == [] then before else !Even(ds[|ds| - 1])
  }

  lemma ScanOpen(stale: bool, q: seq<Byte>)
    requires Open(q)
    ensures ScanAll(Stale(stale) + q) == Next(0, None)
  {
    hide ScanAll, FindByte, Decide;
    var u := Stale(stale) + q;
    if u == [] {
      ScanEmpty();
    } else {
      ScanAtFlag(u);
      if |u| >= 16 {
        assert FLAG !in u[2..] by {
          forall i | 2 <= i < |u| ensures u[i] != FLAG {
            assert u[i] == q[1..][i - |Stale(stale)| - 1];
          }
        }
        FindByteAbsent(u, FLAG, 2);
      }
    }
  }

  lemma DrainOpen(stale: bool, q: seq<Byte>)
    requires Open(q)
    ensures Drain(Stale(stale) + q) == Drained([], Stale(stale) + q, false)
  {
    hide Drain, ScanAll, Open;
    ScanOpen(stale, q);
    DrainStep(Stale(stale) + q);
  }

  lemma DrainFrame(stale: bool, d: seq<Byte>, tail: seq<Byte>)
    requires WellFormed(d)
    ensures Drain(Stale(stale) + Enclose(d) + tail) ==
            if Even(d) then Prepend([Content(d)], Drain(tail)) else Drain(Stale(true) + tail)
  {
    hide Drain, ScanAll, Enclose, WellFormed, Content, Even, Shift;
    var u := Enclose(d) + tail;
    var n := |Enclose(d)|;
    DropStale(stale, d, tail);
    ScanFrame(d, tail);
    EncloseEnds(d);
    if Even(d) {
      DrainStep(u);
      assert u[n..] == tail;
    } else {
      assert u[n - 1..] == [FLAG] + tail;
      DrainShift(u, n - 1);
    }
  }

  lemma DropStale(stale: bool, d: seq<Byte>, tail: seq<Byte>)
    requires WellFormed(d)
    ensures Drain(Stale(stale) + Enclose(d) + tail) == Drain(Enclose(d) + tail)
  {
    hide Drain, ScanAll, Enclose, WellFormed;
    var u := Enclose(d) + tail;
    if stale {
      ScanStray([], d, tail);
      assert [] + Enclose(d) + tail == u;
      assert ([FLAG] + u)[1..] == u;
      DrainShift([FLAG] + u, 1);
      assert Stale(stale) + Enclose(d) + tail == [FLAG] + u;
    } else {
      assert Stale(stale) + Enclose(d) + tail == u;
    }
  }

  lemma EncloseEnds(d: seq<Byte>)
    ensures |Enclose(d)| >= 2 && Enclose(d)[|Enclose(d)| - 1] == FLAG
  {}

  /**
    At every moment of a stream of well-formed frames the scanner has delivered, in order and
    once each, exactly the complete frames with an even number of escapes, and holds back only
    the incomplete frame `q` and at most one stale flag in front of it.
   */
  lemma {:induction false} DrainStream(stale: bool, ds: seq<seq<Byte>>, q: seq<Byte>)
    requires forall d <- ds :: WellFormed(d)
    requires Open(q)
    ensures Drain(Stale(stale) + Stream(ds) + q) ==
            Drained(Accepted(ds), Stale(LastRejected(stale, ds)) + q, false)
    decreases |ds|
  {
    hide Drain, WellFormed, Enclose, Content, Even, Open, Stream;
    StreamStep(ds);
    if ds == [] {
      DrainOpen(stale, q);
      assert Stale(stale) + Stream(ds) + q == Stale(stale) + q;
    } else {
      var tail := Stream(ds[1..]) + q;
      assert Stale(stale) + Stream(ds) + q == Stale(stale) + Enclose(ds[0]) + tail;
      DrainFrame(stale, ds[0], tail);
      DrainStream(!Even(ds[0]), ds[1..], q);
      assert Stale(false) + Stream(ds[1..]) + q == tail;
      assert Stale(true) + Stream(ds[1..]) + q == Stale(true) + tail;
      assert [] + Accepted(ds[1..]) == Accepted(ds[1..]);
    }
  }

  /** What has arrived of a stream is some of its frames and an incomplete one. */
  lemma {:induction false} PrefixShape(ds: seq<seq<Byte>>, q: seq<Byte>, p: seq<Byte>)
    returns (k: nat, r: seq<Byte>)
    requires Open(q) && p <= Stream(ds) + q
    ensures k <= |ds| && Open(r) && p == Stream(ds[..k]) + r
    decreases |ds|
  {
    hide Escape, Stream;
    StreamStep(ds);
    if ds == [] {
      assert Stream(ds) + q == q;
      assert forall i :: 1 <= i < |p| ==> p[i] == q[1..][i - 1];
      k, r := 0, p;
      assert ds[..k] == [];
    } else {
      var f, t := Enclose(ds[0]), Stream(ds[1..]) + q;
      assert Stream(ds) + q == f + t;
      if |f| <= |p| {
        assert p[..|f|] == f;
        assert p[|f|..] <= t;
        var j, s := PrefixShape(ds[1..], q, p[|f|..]);
        k, r := j + 1, s;
        assert ds[..k][1..] == ds[1..][..j];
        assert p == f + p[|f|..];
        StreamStep(ds[..k]);
      } else {
        k, r := 0, p;
        StreamStep([]);
        assert p == f[..|p|];
        EscapeCanonical(ds[0]);
        assert forall i :: 1 <= i < |p| ==> p[i] == Escape(ds[0])[i - 1];
      }
    }
  }

  lemma PrefixDoesNotCrash(ds: seq<seq<Byte>>, q: seq<Byte>, p: seq<Byte>)
    requires forall d <- ds :: WellFormed(d)
    requires Open(q) && p <= Stream(ds) + q
    ensures !Drain(p).crashed
  {
    hide Drain, WellFormed, Stream, Open;
    var k, r := PrefixShape(ds, q, p);
    DrainStream(false, ds[..k], r);
    assert Stale(false) + Stream(ds[..k]) + r == p;
  }

  /**
    However the stream is cut into reads: no read runs past the buffer, and the receive loop
    delivers exactly the frames with an even number of escapes.
   */
  lemma {:induction false} EvenFramesAreDelivered(ds: seq<seq<Byte>>, q: seq<Byte>, chunks: seq<seq<Byte>>)
    requires forall d <- ds :: WellFormed(d)
    requires Open(q) && Flatten(chunks) == Stream(ds) + q
    ensures ReadAll(Drain, [], chunks) == Drained(Accepted(ds), Stale(LastRejected(false, ds)) + q, false)
  {
    hide Drain, WellFormed, Stream, Open, ReadAll, Accepted, Flatten, Even;
    forall k | 0 <= k < |chunks|
      ensures !Drain(Flatten(chunks[..k])).crashed
    {
      assert chunks == chunks[..k] + chunks[k..];
      FlattenConcat(chunks[..k], chunks[k..]);
      PrefixDoesNotCrash(ds, q, Flatten(chunks[..k]));
    }
    AnyCuts(chunks);
    DrainStream(false, ds, q);
    assert Stale(false) + Stream(ds) + q == Flatten(chunks);
  }

  // ----- frames behind noise and strays -------------------------------------------------

  /** Noise free of flags, then strays, then a well-formed frame with an even number of escapes. */
  predicate Regular(p: Piece) {
    FLAG !in p.noise && WellFormed(p.content) && Even(p.content)
  }

  function Contents(pieces: seq<Piece>): seq<JTT808Msg>
    requires forall p <- pieces :: Regular(p)
  {
    if pieces == [] then []
    else
      assert Regular(pieces[0]);
      [Content(pieces[0].content)] + Contents(pieces[1..])
  }

  lemma DrainPiece(p: Piece, t: seq<Byte>)
    requires Regular(p)
    ensures Drain(p.noise + Strays(p.strays) + Enclose(p.content) + t) == Prepend([Content(p.content)], Drain(t))
  {
    hide Drain, ScanAll, Enclose, WellFormed, Content, Even, Strays;
    var b := p.noise + Strays(p.strays) + Enclose(p.content) + t;
    Resynchronises(p.noise, Strays(p.strays), p.content, t);
    DrainStep(b);
    assert b[|p.noise| + p.strays + |Enclose(p.content)|..] == t;
  }

  lemma {:induction false} DrainTraffic(pieces: seq<Piece>, t: seq<Byte>)
    requires forall p <- pieces :: Regular(p)
    ensures Drain(OnWire(pieces, t)) == Prepend(Contents(pieces), Drain(t))
    decreases |pieces|
  {
    hide Drain, WellFormed, Even, Enclose, Content, Strays;
    if pieces == [] {
      PrependNothing(Drain(t));
    } else {
      var later := OnWire(pieces[1..], t);
      OnWireStep(pieces, t);
      DrainPiece(pieces[0], later);
      DrainTraffic(pieces[1..], t);
      PrependTwice([Content(pieces[0].content)], Contents(pieces[1..]), Drain(t));
    }
  }

  /** Strays and an incomplete frame are passed over or kept, but never read past. */
  lemma {:induction false} DrainIncomplete(noise: seq<Byte>, n: nat, q: seq<Byte>)
    requires FLAG !in noise && Open(q)
    ensures !Drain(noise + Strays(n) + q).crashed
    decreases |noise| + n
  {
    hide Drain, ScanAll, Strays, Open;
    var x := Strays(n) + q;
    if noise != [] {
      assert noise + Strays(n) + q == noise + x;
      ScanSkip(noise, x);
      assert (noise + x)[|noise|..] == x;
      DrainShift(noise + x, |noise|);
      DrainIncomplete([], n, q);
      assert [] + Strays(n) + q == x;
    } else {
      assert noise + Strays(n) + q == x;
      if n <= 1 {
        StraysAreStale(n);
        DrainOpen(n == 1, q);
      } else {
        ScanTwoStrays(n, q);
        DrainStep(x);
        if ScanAll(x) != Next(0, None) {
          StraysLater(n);
          assert x[1..] == Strays(n - 1) + q;
          DrainShift(x, 1);
          DrainIncomplete([], n - 1, q);
          assert [] + Strays(n - 1) + q == x[1..];
        }
      }
    }
  }

  lemma StraysAreStale(n: nat)
    requires n <= 1
    ensures Strays(n) == Stale(n == 1)
  {}

  lemma StraysLater(n: nat)
    requires n > 0
    ensures Strays(n) == [FLAG] + Strays(n - 1)
  {}

  lemma ScanTwoStrays(n: nat, q: seq<Byte>)
    requires 2 <= n && Open(q)
    ensures var x := Strays(n) + q;
            ScanAll(x) == Next(0, None) || ScanAll(x) == Shift(1, ScanAll(x[1..]))
  {
    hide ScanAll, FindByte, Extract, Xors, Xor;
    var x := Strays(n) + q;
    ScanAtFlag(x);
    if 16 <= |x| {
      assert x[2] == FLAG;
      assert FindByte(x, FLAG, 2) == 2;
      assert x[1..2] == [FLAG];
      XorsOne(FLAG);
    }
  }

  /** What has arrived of such traffic is some of its pieces, then noise, strays and an incomplete frame. */
  lemma {:induction false} TrafficPrefix(pieces: seq<Piece>, last: seq<Byte>, p: seq<Byte>)
    returns (k: nat, noise: seq<Byte>, n: nat, q: seq<Byte>)
    requires forall x <- pieces :: FLAG !in x.noise
    requires FLAG !in last && p <= OnWire(pieces, last)
    ensures k <= |pieces| && FLAG !in noise && Open(q)
    ensures p == OnWire(pieces[..k], noise + Strays(n) + q)
    decreases |pieces|
  {
    hide Escape, Strays, OnWire;
    if pieces == [] {
      k, noise, n, q := 0, p, 0, [];
      NothingOnWire(last);
      NothingOnWire(p);
      StraysAreStale(0);
      assert p + [] + [] == p && pieces[..0] == [];
    } else {
      var x := pieces[0];
      var piece, t := x.noise + Strays(x.strays) + Enclose(x.content), OnWire(pieces[1..], last);
      OnWireStep(pieces, last);
      if |piece| <= |p| {
        assert p[..|piece|] == piece && p[|piece|..] <= t;
        k, noise, n, q := TrafficPrefix(pieces[1..], last, p[|piece|..]);
        k := k + 1;
        OnWireStep(pieces[..k], noise + Strays(n) + q);
        assert pieces[..k][1..] == pieces[1..][..k - 1];
        assert p == piece + p[|piece|..];
      } else {
        assert p == piece[..|p|];
        k := 0;
        noise, n, q := PiecePrefix(x, |p|);
        NothingOnWire(p);
        assert pieces[..0] == [];
      }
    }
  }

  lemma NothingOnWire(last: seq<Byte>)
    ensures OnWire([], last) == last
  {}

  lemma PiecePrefix(x: Piece, m: nat) returns (noise: seq<Byte>, n: nat, q: seq<Byte>)
    requires FLAG !in x.noise
    requires m < |x.noise + Strays(x.strays) + Enclose(x.content)|
    ensures FLAG !in noise && Open(q)
    ensures (x.noise + Strays(x.strays) + Enclose(x.content))[..m] == noise + Strays(n) + q
  {
    hide Escape, Strays;
    var p := (x.noise + Strays(x.strays) + Enclose(x.content))[..m];
    if m <= |x.noise| {
      noise, n, q := p, 0, [];
      StraysAreStale(0);
      assert p == x.noise[..m];
    } else if m <= |x.noise| + x.strays {
      noise, n, q := x.noise, m - |x.noise|, [];
    } else {
      var i := m - |x.noise| - x.strays;
      noise, n, q := x.noise, x.strays, Enclose(x.content)[..i];
      EscapeCanonical(x.content);
      assert forall j :: 1 <= j < i ==> q[j] == Escape(x.content)[j - 1];
    }
  }

  /**
    For any frames with an even number of escapes, each behind noise and then strays, and however
    the traffic is cut into reads: nothing is read past the buffer, and the receive loop delivers
    exactly those frames.
   */
  lemma {:induction false} ResynchronisesAlways(pieces: seq<Piece>, last: seq<Byte>, chunks: seq<seq<Byte>>)
    requires forall p <- pieces :: Regular(p)
    requires FLAG !in last && Flatten(chunks) == OnWire(pieces, last)
    ensures ReadAll(Drain, [], chunks) == Drained(Contents(pieces), [], false)
  {
    hide Drain, Regular, OnWire, Flatten, ReadAll, Contents, Open, Strays;
    RegularNoise(pieces);
    forall i | 0 <= i < |chunks|
      ensures !Drain(Flatten(chunks[..i])).crashed
    {
      assert chunks == chunks[..i] + chunks[i..];
      FlattenConcat(chunks[..i], chunks[i..]);
      var k, noise, n, q := TrafficPrefix(pieces, last, Flatten(chunks[..i]));
      DrainTraffic(pieces[..k], noise + Strays(n) + q);
      DrainIncomplete(noise, n, q);
    }
    AnyCuts(chunks);
    DrainTraffic(pieces, last);
    DrainUnflagged(last);
    assert Contents(pieces) + [] == Contents(pieces);
  }

  lemma RegularNoise(pieces: seq<Piece>)
    requires forall p <- pieces :: Regular(p)
    ensures forall p <- pieces :: FLAG !in p.noise
  {}

  lemma DrainUnflagged(noise: seq<Byte>)
    requires FLAG !in noise
    ensures Drain(noise) == Drained([], [], false)
  {
    hide Drain, ScanAll;
    DrainNothing();
    ScanEmpty();
    ScanSkip(noise, []);
    assert noise + [] == noise;
    assert noise[|noise|..] == [];
    DrainShift(noise, |noise|);
  }
}
