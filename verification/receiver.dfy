/**
  The receive loop of the Go server (`RunRX`): reads are appended to a buffer,
  and after each of them messages are scanned off its front until the scanner
  has nothing to drop.
 */
module Receiver {
  import opened Bytes
  import opened Reading
  import opened Scanner

  // ----- specification ------------------------------------------------------

  function Delivered(m: Option<JTT808Msg>): seq<JTT808Msg> {
    if m.Some? then [m.value] else []
  }

  /** The messages delivered and the bytes left. */
  function Drain(buf: seq<Byte>): Drained<JTT808Msg>
    decreases |buf|
  {
    var s := Scan(buf, |buf|);
    if s.Crashed? then Drained([], [], true)
    else if s.pos == 0 then Drained([], buf, false)
    else Prepend(Delivered(s.msg), Drain(buf[s.pos..]))
  }

  // ----- the connection -----------------------------------------------------

  class JTT808Conn {
    var inprogbuf: seq<Byte>
    var datach: seq<JTT808Msg>
    var crashed: bool

    constructor ()
      ensures inprogbuf == [] && datach == [] && !crashed
    {
      inprogbuf, datach, crashed := [], [], false;
    }

    /** One turn of the outer loop, for a read that returned `readBuf`. */
    method OnRead(readBuf: seq<Byte>)
      requires !crashed
      modifies this
      ensures Drained(datach, inprogbuf, crashed) == Prepend(old(datach), Drain(old(inprogbuf) + readBuf))
    {
      hide Drain, Scan;
      inprogbuf := inprogbuf + readBuf;
      while true
        invariant !crashed
        invariant Prepend(datach, Drain(inprogbuf)) == Prepend(old(datach), Drain(old(inprogbuf) + readBuf))
        decreases |inprogbuf|
      {
        DrainStep(inprogbuf);
        ScanAllIs(inprogbuf);
        var next := GetNextJTT808Msg(inprogbuf, 0, |inprogbuf|);
        assert inprogbuf[0..] == inprogbuf;
        if next.Crashed? {
          assert datach + [] == datach;
          inprogbuf, crashed := [], true;
          return;
        }
        if next.pos == 0 {
          assert datach + [] == datach;
          return;
        }
        PrependTwice(datach, Delivered(next.msg), Drain(inprogbuf[next.pos..]));
        if next.msg.Some? {
          datach := datach + [next.msg.value];
        } else {
          assert datach + [] == datach;
        }
        inprogbuf := inprogbuf[next.pos..];
      }
    }
  }

  // ----- laws: more bytes arrive -----------------------------------------------

  lemma DrainStep(buf: seq<Byte>)
    ensures var s := ScanAll(buf);
            Drain(buf) ==
            if s.Crashed? then Drained([], [], true)
            else if s.pos == 0 then Drained([], buf, false)
            else Prepend(Delivered(s.msg), Drain(buf[s.pos..]))
  {}

  /** The scan of a whole buffer. */
  function ScanAll(t: seq<Byte>): (s: Scanned)
    ensures s.Next? ==> s.pos <= |t| && (s.msg.Some? ==> s.pos > 0)
  {
    Scan(t, |t|)
  }

  lemma ShiftTwice(j: nat, k: nat, s: Scanned)
    ensures Shift(j, Shift(k, s)) == Shift(j + k, s) && Shift(0, s) == s
  {}

  lemma ScanSkip(noise: seq<Byte>, t: seq<Byte>)
    requires 0x7E !in noise
    ensures ScanAll(noise + t) == Shift(|noise|, ScanAll(t))
  {
    hide Scan, Candidate, FindByte;
    var s, k := noise + t, FindByte(t, 0x7E, 0);
    ScanStep(s, |s|);
    ScanStep(t, |t|);
    assert s[..|s|] == s && t[..|t|] == t;
    FindByteSkip(noise, 0x7E, t);
    if k != -1 {
      assert s[|noise| + k..] == t[k..];
      ShiftTwice(|noise|, k, Candidate(t[k..], |t| - k));
    }
  }

  lemma ScanFirstFlag(t: seq<Byte>)
    ensures var p := FindByte(t, 0x7E, 0);
            ScanAll(t) == if p == -1 then Next(|t|, None) else Shift(p, ScanAll(t[p..]))
  {
    hide ScanAll, FindByte;
    var p := FindByte(t, 0x7E, 0);
    if p == -1 {
      ScanSkip(t, []);
      assert t + [] == t;
      ScanEmpty();
    } else {
      assert t == t[..p] + t[p..];
      ScanSkip(t[..p], t[p..]);
    }
  }

  /** What the scan does with a buffer that starts with 0x7E. */
  lemma ScanAtFlag(u: seq<Byte>)
    requires u != [] && u[0] == 0x7E
    ensures var e := FindByte(u, 0x7E, 2);
            ScanAll(u) ==
            if |u| < 16 || e == -1 then Next(0, None)
            else match Decide(u, e) {
              case Crash => Crashed
              case Found(m) => Next(e + 1, Some(m))
              case NoMsg => Shift(1, ScanAll(u[1..]))
            }
  {
    hide Scan, FindByte, Decide;
    ScanStep(u, |u|);
    assert u[..|u|] == u;
    assert FindByte(u, 0x7E, 0) == 0;
    assert u[0..] == u;
    CandidateStep(u);
  }

  lemma CandidateStep(u: seq<Byte>)
    requires u != []
    ensures var e := FindByte(u, 0x7E, 2);
            Candidate(u, |u|) ==
            if |u| < 16 || e == -1 then Next(0, None)
            else match Decide(u, e) {
              case Crash => Crashed
              case Found(m) => Next(e + 1, Some(m))
              case NoMsg => Shift(1, ScanAll(u[1..]))
            }
  {
    hide Scan, FindByte, Decide;
    assert u[..|u|] == u;
  }

  lemma {:induction false} ReadExtend(t: seq<Byte>, room: int, n: nat, c: seq<Byte>)
    requires !ReadUnescaped(t, room, n).Fault?
    ensures var r := ReadUnescaped(t, room, n);
            ReadUnescaped(t + c, room, n) == if r.Got? then r.(rest := r.rest + c) else r
    decreases n
  {
    if n != 0 && room >= 0 && t != [] {
      if t[0] != 0x7D {
        assert (t + c)[1..] == t[1..] + c;
        ReadExtend(t[1..], room - 1, n - 1, c);
      } else if room >= 1 && |t| > 1 && (t[1] == 0x01 || t[1] == 0x02) {
        assert (t + c)[2..] == t[2..] + c;
        ReadExtend(t[2..], room - 2, n - 1, c);
      }
    }
  }

  /** A verdict that did not need bytes past the buffer stands when more bytes arrive. */
  lemma DecideExtend(u: seq<Byte>, e: nat, c: seq<Byte>)
    requires 1 <= e < |u| && !Decide(u, e).Crash?
    ensures Decide(u + c, e) == Decide(u, e)
  {
    hide ReadUnescaped, Xors;
    assert (u + c)[1..e] == u[1..e];
    assert (u + c)[1..] == u[1..] + c;
    if Xors(u[1..e]) == 0 {
      var t := u[1..];
      ReadExtend(t, e, 17, c);
      var h := ReadUnescaped(t, e, 17);
      if h.Got? {
        var props := U16At(h.data, 2);
        if HasPackageItem(props) {
          ReadExtend(h.rest, h.room, 4, c);
          var x := ReadUnescaped(h.rest, h.room, 4);
          if x.Got? && props % 0x400 <= x.room {
            ReadExtend(x.rest, x.room, props % 0x400, c);
          }
        } else if props % 0x400 <= h.room {
          ReadExtend(h.rest, h.room, props % 0x400, c);
        }
      }
    }
  }

  lemma FindByteExtend(s: seq<Byte>, t: seq<Byte>, b: Byte, from: nat)
    requires FindByte(s, b, from) != -1
    ensures FindByte(s + t, b, from) == FindByte(s, b, from)
  {
    hide FindByte;
    var k := FindByte(s, b, from);
    assert (s + t)[k] == b;
    assert forall j :: from <= j < k ==> (s + t)[j] == s[j];
  }

  /** A scan that did not crash keeps its message, or goes on where it stopped, when more bytes arrive. */
  lemma {:induction false} ScanExtend(t: seq<Byte>, c: seq<Byte>)
    requires !ScanAll(t).Crashed?
    ensures var s := ScanAll(t);
            ScanAll(t + c) == if s.msg.Some? then s else Shift(s.pos, ScanAll(t[s.pos..] + c))
    decreases |t|
  {
    hide ScanAll, FindByte, Decide;
    var p := FindByte(t, 0x7E, 0);
    if p == -1 {
      ScanSkip(t, []);
      assert t + [] == t;
      ScanEmpty();
      ScanSkip(t, c);
      assert t[|t|..] + c == c;
    } else {
      var u := t[p..];
      assert t == t[..p] + u;
      ScanSkip(t[..p], u);
      assert t + c == t[..p] + (u + c);
      ScanSkip(t[..p], u + c);
      ScanAtFlag(u);
      ScanAtFlag(u + c);
      var e := FindByte(u, 0x7E, 2);
      if |u| < 16 || e == -1 {
        ShiftTwice(p, 0, ScanAll(u + c));
      } else {
        FindByteExtend(u, c, 0x7E, 2);
        DecideExtend(u, e, c);
        if Decide(u, e).NoMsg? {
          assert (u + c)[1..] == u[1..] + c;
          ScanExtend(u[1..], c);
          var s := ScanAll(u[1..]);
          ShiftTwice(p, 1, s);
          ShiftTwice(p, 1, ScanAll(u[1..] + c));
          if s.msg.None? {
            assert t[p + 1 + s.pos..] == u[1..][s.pos..];
            ShiftTwice(p + 1, s.pos, ScanAll(u[1..][s.pos..] + c));
          }
        }
      }
    }
  }

  lemma ScanEmpty()
    ensures ScanAll([]) == Next(0, None)
  {}

  /** Dropping bytes that the scan has passed over anyway does not change what is drained. */
  lemma DrainShift(t: seq<Byte>, k: nat)
    requires k <= |t| && ScanAll(t) == Shift(k, ScanAll(t[k..]))
    ensures Drain(t) == Drain(t[k..])
  {
    hide Drain, ScanAll;
    DrainStep(t);
    DrainStep(t[k..]);
    if k == 0 {
      assert t[0..] == t;
    } else if ScanAll(t).Next? {
      var s := ScanAll(t[k..]);
      assert t[k + s.pos..] == t[k..][s.pos..];
      PrependNothing(Drain(t[k..]));
    }
  }

  lemma ScanAllIs(t: seq<Byte>)
    ensures ScanAll(t) == Scan(t, |t|)
  {}

  /** Draining, letting `c` arrive and draining again is draining once, unless the first drain crashed. */
  lemma {:induction false} DrainSplit(a: seq<Byte>, c: seq<Byte>)
    requires !Drain(a).crashed
    ensures SameWhenCut(Drain, a, c)
    decreases |a|
  {
    hide Drain, ScanAll;
    DrainStep(a);
    var s := ScanAll(a);
    if s.pos == 0 {
      PrependNothing(Drain(a + c));
    } else {
      var b := a[s.pos..];
      ScanExtend(a, c);
      assert (a + c)[s.pos..] == b + c;
      if s.msg.Some? {
        DrainStep(a + c);
      } else {
        DrainShift(a + c, s.pos);
        PrependNothing(Drain(b));
        PrependNothing(Drain(b + c));
      }
      DrainSplit(b, c);
      PrependTwice(Delivered(s.msg), Drain(b).items, Drain(Drain(b).rest + c));
    }
  }

  lemma OnlyCrashesAreNoticed()
    ensures forall a :: !Drain(a).crashed ==> CutHarmless(Drain, a)
  {
    hide Drain;
    forall a | !Drain(a).crashed
      ensures CutHarmless(Drain, a)
    {
      forall c ensures SameWhenCut(Drain, a, c) { DrainSplit(a, c); }
    }
  }

  /**
    For every byte stream and every way of cutting it into reads: unless the loop crashes at an
    earlier read, the outcome, a crash at the last read included, is that of reading all at once.
   */
  lemma {:induction false} AnyCuts(chunks: seq<seq<Byte>>)
    requires forall k :: 0 <= k < |chunks| ==> !Drain(Flatten(chunks[..k])).crashed
    ensures ReadAll(Drain, [], chunks) == Drain(Flatten(chunks))
  {
    hide Drain;
    DrainNothing();
    OnlyCrashesAreNoticed();
    forall k | 0 <= k < |chunks|
      ensures CutHarmless(Drain, [] + Flatten(chunks[..k]))
    {
      assert [] + Flatten(chunks[..k]) == Flatten(chunks[..k]);
    }
    CutsDoNotMatter(Drain, [], chunks);
    assert [] + Flatten(chunks) == Flatten(chunks);
    PrependNothing(ReadAll(Drain, [], chunks));
  }

  /** The loop crashes exactly when one of the beginnings of the stream that end with a read makes the scanner crash. */
  lemma {:induction false} LoopCrashesIff(chunks: seq<seq<Byte>>)
    ensures ReadAll(Drain, [], chunks).crashed <==>
            exists k :: 0 < k <= |chunks| && Drain(Flatten(chunks[..k])).crashed
  {
    hide Drain;
    DrainNothing();
    OnlyCrashesAreNoticed();
    CrashesIff(Drain, [], chunks);
    forall k | 0 < k <= |chunks|
      ensures [] + Flatten(chunks[..k]) == Flatten(chunks[..k])
    {}
  }

  lemma DrainNothing()
    ensures Drain([]) == Drained([], [], false)
  {}
}
