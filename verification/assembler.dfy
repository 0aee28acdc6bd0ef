/**
  Reassembly of fragmented frames: FIRST, then any number of MIDDLE, then LAST.
  A RAW packet is a frame of its own and ends whatever was being assembled; a
  packet of an unknown type is passed through and ends nothing.
 */
module Assembler {
  import opened Bytes
  import opened Jt1078

  const RAW := 0
  const FIRST := 1
  const LAST := 2
  const MIDDLE := 3

  datatype Assembly = Assembly(buf: seq<Byte>, assembling: bool)

  class FrameAssembler {
    var buf: seq<Byte>
    var assembling: bool

    constructor ()
      ensures Assembly(buf, assembling) == After([])
    {
      buf, assembling := [], false;
    }

    method Feed(pkt: Packet) returns (frame: Option<seq<Byte>>)
      modifies this
      ensures (Assembly(buf, assembling), frame) == Step(Assembly(old(buf), old(assembling)), pkt)
    {
      var pt := pkt.packetType;
      if pt == RAW {
        buf := [];
        assembling := false;
        return Some(pkt.payload);
      }
      if pt == FIRST {
        buf := pkt.payload;
        assembling := true;
        return None;
      }
      if pt == MIDDLE || pt == LAST {
        if !assembling {
          return None;
        }
        buf := buf + pkt.payload;
        if pt == LAST {
          frame := Some(buf);
          buf := [];
          assembling := false;
          return;
        }
        return None;
      }
      return Some(pkt.payload);
    }
  }

  // ----- specification ------------------------------------------------------

  function Step(a: Assembly, pkt: Packet): (Assembly, Option<seq<Byte>>) {
    if pkt.packetType == RAW then (Assembly([], false), Some(pkt.payload))
    else if pkt.packetType == FIRST then (Assembly(pkt.payload, true), None)
    else if pkt.packetType == MIDDLE || pkt.packetType == LAST then
      if !a.assembling then (a, None)
      else if pkt.packetType == LAST then (Assembly([], false), Some(a.buf + pkt.payload))
      else (Assembly(a.buf + pkt.payload, true), None)
    else (a, Some(pkt.payload))
  }

  /** The assembler's state after a history of packets. */
  function After(h: seq<Packet>): Assembly {
    if h == [] then Assembly([], false) else Step(After(h[..|h| - 1]), h[|h| - 1]).0
  }

  /** What feeding the last packet of a history returns. */
  function Returned(h: seq<Packet>): Option<seq<Byte>>
    requires h != []
  {
    Step(After(h[..|h| - 1]), h[|h| - 1]).1
  }

  // ----- laws ---------------------------------------------------------------

  /** The frame that starts at `i` is still open: nothing after it started or ended a frame. */
  predicate OpenAt(h: seq<Packet>, i: int) {
    && 0 <= i < |h| && h[i].packetType == FIRST
    && forall j :: i < j < |h| ==> h[j].packetType !in {RAW, FIRST, LAST}
  }

  /** The payloads of the middle fragments, in order. */
  function Middles(s: seq<Packet>): seq<Byte> {
    if s == [] then []
    else Middles(s[..|s| - 1]) + if s[|s| - 1].packetType == MIDDLE then s[|s| - 1].payload else []
  }

  /**
    The state in terms of the history alone: a frame is open exactly when some FIRST has not
    been followed by a RAW, FIRST or LAST, and then the buffer holds its payload and those of
    the middle fragments since; otherwise the buffer is empty.
   */
  lemma {:induction false} AssemblyFromHistory(h: seq<Packet>)
    ensures var a := After(h);
            && (a.assembling <==> exists i :: OpenAt(h, i))
            && (!a.assembling ==> a.buf == [])
            && (forall i :: OpenAt(h, i) ==> a.buf == h[i].payload + Middles(h[i + 1..]))
  {
    hide Middles;
    if h == [] {
    } else {
      var n := |h| - 1;
      var g, p := h[..n], h[n];
      AssemblyFromHistory(g);
      forall i
        ensures OpenAt(h, i) <==> (if i == n then p.packetType == FIRST
                                   else OpenAt(g, i) && p.packetType !in {RAW, FIRST, LAST})
      {
        OpenStep(h, i);
      }
      assert OpenAt(h, n) <==> p.packetType == FIRST;
      forall i | OpenAt(h, i)
        ensures After(h).buf == h[i].payload + Middles(h[i + 1..])
      {
        MiddlesStep(h, i + 1);
        if i == n {
          assert h[i].payload + [] == h[i].payload;
        } else {
          assert OpenAt(g, i);
          assert g[i].payload + (Middles(g[i + 1..]) + p.payload) == g[i].payload + Middles(g[i + 1..]) + p.payload;
        }
      }
    }
  }

  lemma OpenStep(h: seq<Packet>, i: int)
    requires h != []
    ensures var n := |h| - 1;
            OpenAt(h, i) <==>
            if i == n then h[n].packetType == FIRST
            else OpenAt(h[..n], i) && h[n].packetType !in {RAW, FIRST, LAST}
  {
    var g := h[..|h| - 1];
    assert forall j :: 0 <= j < |g| ==> g[j] == h[j];
    if OpenAt(h, i) && i < |g| {
      assert OpenAt(g, i);
    }
  }

  lemma MiddlesStep(h: seq<Packet>, k: nat)
    requires h != [] && k <= |h|
    ensures k == |h| ==> Middles(h[k..]) == []
    ensures k < |h| ==>
              Middles(h[k..]) ==
              Middles(h[..|h| - 1][k..]) + (if h[|h| - 1].packetType == MIDDLE then h[|h| - 1].payload else [])
  {
    if k < |h| {
      var s := h[k..];
      assert s[..|s| - 1] == h[..|h| - 1][k..];
      assert s[|s| - 1] == h[|h| - 1];
    }
  }

  /**
    A LAST fragment returns exactly the payloads since the FIRST that is still open, its own
    included, and returns nothing when none is open.
   */
  lemma LastReturns(h: seq<Packet>, last: Packet)
    requires last.packetType == LAST
    ensures forall i :: OpenAt(h, i) ==>
              Returned(h + [last]) == Some(h[i].payload + Middles(h[i + 1..]) + last.payload)
    ensures (forall i :: !OpenAt(h, i)) ==> Returned(h + [last]) == None
    ensures forall i :: !OpenAt(h + [last], i)
  {
    AssemblyFromHistory(h);
    assert (h + [last])[..|h|] == h;
    assert (h + [last])[|h|] == last;
  }

  /** A RAW packet comes back as it is and ends whatever was being assembled. */
  lemma RawReturns(h: seq<Packet>, p: Packet)
    requires p.packetType == 0
    ensures Returned(h + [p]) == Some(p.payload) && After(h + [p]) == Assembly([], false)
  {
    assert (h + [p])[..|h|] == h;
  }

  /** Feeding returns nothing exactly for FIRST, for MIDDLE, and for a LAST when no frame is open. */
  lemma ReturnsNothingIff(h: seq<Packet>, p: Packet)
    ensures Returned(h + [p]) == None <==>
            p.packetType == 1 || p.packetType == 3 || (p.packetType == 2 && forall i :: !OpenAt(h, i))
  {
    AssemblyFromHistory(h);
    assert (h + [p])[..|h|] == h;
  }

  /** A packet of an unknown type comes back as it is and does not disturb the assembly. */
  lemma UnknownPassesThrough(h: seq<Packet>, p: Packet)
    requires p.packetType !in {RAW, FIRST, LAST, MIDDLE}
    ensures Returned(h + [p]) == Some(p.payload) && After(h + [p]) == After(h)
  {
    assert (h + [p])[..|h|] == h;
  }

  /** A frame cut into FIRST, MIDDLE* and LAST comes back whole, whatever went before. */
  lemma FragmentsReassemble(h: seq<Packet>, first: Packet, middle: seq<Packet>, last: Packet)
    requires first.packetType == FIRST && last.packetType == LAST
    requires forall p <- middle :: p.packetType == MIDDLE
    ensures Returned(h + [first] + middle + [last]) == Some(first.payload + Middles(middle) + last.payload)
    ensures After(h + [first] + middle + [last]) == Assembly([], false)
  {
    var g := h + [first] + middle;
    assert g[|h|] == first && g[|h| + 1..] == middle;
    forall j | |h| < j < |g|
      ensures g[j].packetType == MIDDLE
    {
      assert g[j] in middle;
    }
    assert OpenAt(g, |h|);
    LastReturns(g, last);
    AssemblyFromHistory(g + [last]);
  }
}
