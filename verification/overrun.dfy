/**
  When the Go scanner reads past its buffer. The three guards compare the index
  with `maxPos` by `>` and so let through a read at `maxPos` itself. The read
  is one too far exactly when the scanner comes to a candidate whose closing
  0x7E is the last byte of the buffer and which is too short for what its
  header announces. This is settled here for every buffer, for the receive loop
  at every moment of every stream, and for every way of cutting it into reads.
 */
module Overrun {
  import opened Bytes
  import opened Escaping
  import opened Reading
  import opened Scanner
  import opened Receiver
  import opened StandardFrames

  /** Looking at index `room` is safe while the buffer is longer than `room`. */
  lemma {:induction false} NoFaultInside(t: seq<Byte>, room: int, n: nat)
    requires room < |t|
    ensures !ReadUnescaped(t, room, n).Fault?
    decreases n
  {
    if n != 0 && room >= 0 {
      if t[0] != 0x7D {
        NoFaultInside(t[1..], room - 1, n - 1);
      } else if room >= 1 {
        NoFaultInside(t[2..], room - 2, n - 1);
      }
    }
  }

  /** As soon as one more byte has arrived, the frame is decided without running past the buffer. */
  lemma MoreBytesNeverCrash(u: seq<Byte>, e: nat)
    requires 1 <= e && e + 1 < |u|
    ensures !Decide(u, e).Crash?
  {
    hide ReadUnescaped, Xors;
    var t := u[1..];
    NoFaultInside(t, e, 17);
    var h := ReadUnescaped(t, e, 17);
    if h.Got? {
      var props := U16At(h.data, 2);
      NoFaultInside(h.rest, h.room, 4);
      NoFaultInside(h.rest, h.room, props % 0x400);
      var x := ReadUnescaped(h.rest, h.room, 4);
      if x.Got? {
        NoFaultInside(x.rest, x.room, props % 0x400);
      }
    }
  }

  /** What reading `n` bytes gives when they unescape to `w` and the closing flag ends the buffer. */
  function AtEnd(w: seq<Byte>, n: nat): Read {
    if n <= |w| then Got(w[..n], Escape(w[n..]) + [FLAG], |Escape(w[n..])| + 1)
    else if n == |w| + 1 then Got(w + [FLAG], [], 0)
    else Fault
  }

  lemma {:induction false} ReadAtEnd(w: seq<Byte>, n: nat)
    ensures var t := Escape(w) + [FLAG]; ReadUnescaped(t, |t|, n) == AtEnd(w, n)
    decreases n
  {
    hide ReadUnescaped;
    var t := Escape(w) + [FLAG];
    if n == 0 {
      assert w[0..] == w;
      ReadNothing(t, |t|);
    } else if w == [] {
      assert t == [FLAG];
      ReadFlag(n);
      assert [] + [FLAG] == [FLAG];
    } else {
      var v := w[1..];
      assert t == EscapeByte(w[0]) + (Escape(v) + [FLAG]);
      ReadOne(w[0], Escape(v) + [FLAG], |t|, n);
      ReadAtEnd(v, n - 1);
      AtEndLater(w[0], v, n);
      assert [w[0]] + v == w;
    }
  }

  lemma AtEndLater(b: Byte, v: seq<Byte>, n: nat)
    requires 0 < n
    ensures Cons([b], AtEnd(v, n - 1)) == AtEnd([b] + v, n)
  {
    hide Escape;
    var w := [b] + v;
    assert n <= |w| ==> v[n - 1..] == w[n..] && [b] + v[..n - 1] == w[..n];
    assert [b] + (v + [FLAG]) == w + [FLAG];
  }

  /** A 0x7E at once after the opening flag is read like any other byte. */
  lemma ReadAfterFlag(t: seq<Byte>, n: nat)
    requires 0 < n
    ensures ReadUnescaped([FLAG] + t, |t| + 1, n) == Cons([FLAG], ReadUnescaped(t, |t|, n - 1))
  {
    assert ([FLAG] + t)[1..] == t;
  }

  lemma ReadFlag(n: nat)
    ensures ReadUnescaped([FLAG], 1, n) ==
            if n == 0 then Got([], [FLAG], 1) else if n == 1 then Got([FLAG], [], 0) else Fault
  {}

  /** A reading that stopped in time, or has a wrong escape still ahead of it. */
  ghost predicate Harmless(r: Read) {
    && !r.Fault?
    && (r.Got? ==> exists c :: FLAG !in c && !Canonical(c) && r.rest == c + [FLAG] && r.room == |r.rest|)
  }

  /** A wrong escape ends the reading before the end of the buffer can be reached. */
  lemma {:induction false} WrongEscapeReads(c: seq<Byte>, n: nat)
    requires FLAG !in c && !Canonical(c)
    ensures var t := c + [FLAG];
            Harmless(ReadUnescaped(t, |t|, n))
    decreases n
  {
    var t := c + [FLAG];
    if n == 0 {
      assert ReadUnescaped(t, |t|, n) == Got([], c + [FLAG], |c + [FLAG]|);
    } else {
      var k := if c[0] == 0x7D then 2 else 1;
      if c[0] != 0x7D || (|c| > 1 && (c[1] == 0x01 || c[1] == 0x02)) {
        assert t[k..] == c[k..] + [FLAG];
        if Canonical(c[k..]) {
          CanonicalPrefix(c, k);
        }
        WrongEscapeReads(c[k..], n - 1);
      }
    }
  }

  lemma CanonicalPrefix(c: seq<Byte>, k: nat)
    requires c != [] && FLAG !in c && k <= |c| && k == (if c[0] == 0x7D then 2 else 1)
    requires k == 2 ==> c[1] == 0x01 || c[1] == 0x02
    requires Canonical(c[k..])
    ensures Canonical(c)
  {
    forall i | 0 <= i < |c|
      ensures CanonicalAt(c, i)
    {
      if k <= i {
        assert CanonicalAt(c[k..], i - k);
      }
    }
  }

  /**
    The unescaped content of a frame announces more than it holds: not even its fixed header,
    not its package item, or a body that ends more than one byte after it although the raw
    bytes would have been enough.
   */
  predicate Overstated(w: seq<Byte>) {
    || |w| < 16
    || (U16At(w, 2) / 0x2000 % 2 == 1 && |w| < 20)
    || var h, n := HeaderLen(U16At(w, 2)), BodyLen(U16At(w, 2));
       h <= |w| && EndsLate(w[h..], n)
  }

  /** A body of `n` bytes, of which `x` are there, ends past the closing flag but not past the raw bytes. */
  predicate EndsLate(x: seq<Byte>, n: nat) {
    |x| + 2 <= n <= |x| + Marks(x) + 1
  }

  lemma BodyOverrun(header: seq<Byte>, x: seq<Byte>, n: nat)
    ensures var t := Escape(x) + [FLAG];
            ExtractBody(header, t, |t|, n).Crash? <==> EndsLate(x, n)
  {
    hide ReadUnescaped, Escape, Marks;
    EscapeLength(x);
    ReadAtEnd(x, n);
  }

  lemma ExtractOverrun(t: seq<Byte>, w: seq<Byte>)
    requires ReadUnescaped(t, |t|, 17) == AtEnd(w, 17)
    ensures Extract(t, |t|).Crash? <==> Overstated(w)
  {
    hide Extract, Overstated, AtEnd;
    if |w| >= 17 {
      ExtractOverrunLong(t, w);
    } else {
      ExtractOverrunShort(t, w);
    }
  }

  lemma ExtractOverrunShort(t: seq<Byte>, w: seq<Byte>)
    requires |w| < 17 && ReadUnescaped(t, |t|, 17) == AtEnd(w, 17)
    ensures Extract(t, |t|).Crash? <==> Overstated(w)
  {
    hide ReadUnescaped, Escape, EndsLate, BigEndian, ExtractBody;
    if |w| == 16 {
      assert (w + [FLAG])[2..4] == w[2..4];
      NothingLeft(w + [FLAG], BodyLen(U16At(w, 2)));
      NothingLeftToRead(4);
    }
  }

  lemma ExtractOverrunLong(t: seq<Byte>, w: seq<Byte>)
    requires 17 <= |w| && ReadUnescaped(t, |t|, 17) == AtEnd(w, 17)
    ensures Extract(t, |t|).Crash? <==> Overstated(w)
  {
    hide ReadUnescaped, Escape, EndsLate, BigEndian, ExtractBody;
    assert w[..17][2..4] == w[2..4];
    var x, n := w[17..], BodyLen(U16At(w, 2));
    if HasPackageItem(U16At(w, 2)) {
      ReadAtEnd(x, 4);
      if |x| >= 4 {
        assert x[4..] == w[21..];
        BodyOverrun(w[..17] + x[..4], x[4..], n);
      } else if |x| == 3 {
        NothingLeft(w[..17] + (x + [FLAG]), n);
      }
    } else {
      BodyOverrun(w[..17], x, n);
    }
  }

  lemma NothingLeftToRead(n: nat)
    ensures ReadUnescaped([], 0, n) == if n == 0 then Got([], [], 0) else Fault
  {}

  lemma NothingLeft(header: seq<Byte>, n: nat)
    ensures !ExtractBody(header, [], 0, n).Crash?
  {}

  lemma WrongEscapeExtracts(t: seq<Byte>)
    requires Harmless(ReadUnescaped(t, |t|, 17))
    ensures !Extract(t, |t|).Crash?
  {
    hide ReadUnescaped, Canonical, BigEndian, ExtractBody;
    var h := ReadUnescaped(t, |t|, 17);
    if h.Got? {
      var c :| FLAG !in c && !Canonical(c) && h.rest == c + [FLAG] && h.room == |h.rest|;
      var n := BodyLen(U16At(h.data, 2));
      WrongEscapeInBody(h.data, c, n);
      WrongEscapeReads(c, 4);
      var x := ReadUnescaped(h.rest, h.room, 4);
      if x.Got? {
        var d :| FLAG !in d && !Canonical(d) && x.rest == d + [FLAG] && x.room == |x.rest|;
        WrongEscapeInBody(h.data + x.data, d, n);
      }
    }
  }

  lemma WrongEscapeInBody(header: seq<Byte>, c: seq<Byte>, n: nat)
    requires FLAG !in c && !Canonical(c)
    ensures !ExtractBody(header, c + [FLAG], |c + [FLAG]|, n).Crash?
  {
    hide ReadUnescaped, Canonical;
    WrongEscapeReads(c, n);
  }

  // ----- one candidate ------------------------------------------------------------------

  /** Every 0x7D introduces a known pair; the one 0x7E allowed is a second opening flag. */
  predicate Legible(c: seq<Byte>) {
    Canonical(if c != [] && c[0] == FLAG then c[1..] else c)
  }

  lemma ExtractOverrunIff(c: seq<Byte>)
    requires c != [] && FLAG !in c[1..]
    ensures Extract(c + [FLAG], |c| + 1).Crash? <==> Legible(c) && Overstated(Unescape(c))
  {
    hide Extract, ReadUnescaped, AtEnd, Harmless, Legible, Overstated, Unescape;
    ReadCandidate(c, 17);
    if Legible(c) {
      ExtractOverrun(c + [FLAG], Unescape(c));
    } else {
      WrongEscapeExtracts(c + [FLAG]);
    }
  }

  lemma ReadCandidate(c: seq<Byte>, n: nat)
    requires c != [] && FLAG !in c[1..] && 0 < n
    ensures var t := c + [FLAG];
            var r := ReadUnescaped(t, |t|, n);
            if Legible(c) then r == AtEnd(Unescape(c), n) else Harmless(r)
  {
    hide ReadUnescaped, AtEnd, Harmless, Canonical, Escape, Unescape, Cons;
    if c[0] != FLAG {
      ReadPlain(c, n);
    } else {
      var v := c[1..];
      assert c + [FLAG] == [FLAG] + (v + [FLAG]);
      ReadAfterFlag(v + [FLAG], n);
      ReadPlain(v, n - 1);
      if Canonical(v) {
        AtEndLater(FLAG, Unescape(v), n);
        UnescapeAfterFlag(c);
      } else {
        ConsHarmless(FLAG, ReadUnescaped(v + [FLAG], |v + [FLAG]|, n - 1));
      }
    }
  }

  lemma ReadPlain(c: seq<Byte>, n: nat)
    requires FLAG !in c
    ensures var t := c + [FLAG];
            var r := ReadUnescaped(t, |t|, n);
            if Canonical(c) then r == AtEnd(Unescape(c), n) else Harmless(r)
  {
    hide ReadUnescaped, AtEnd, Harmless, Canonical, Escape, Unescape;
    if Canonical(c) {
      EscapeUnescapeIff(c);
      ReadAtEnd(Unescape(c), n);
    } else {
      WrongEscapeReads(c, n);
    }
  }

  lemma ConsHarmless(b: Byte, r: Read)
    requires Harmless(r)
    ensures Harmless(Cons([b], r))
  {
    hide Canonical;
  }

  lemma UnescapeAfterFlag(c: seq<Byte>)
    requires c != [] && c[0] == FLAG
    ensures Unescape(c) == [FLAG] + Unescape(c[1..])
  {}

  /**
    `u` is a candidate, flags included, that ends the buffer: no other flag can close it, its raw
    bytes cancel, its escapes are right, and its content is overstated.
   */
  predicate Overruns(u: seq<Byte>) {
    && 16 <= |u| && u[0] == FLAG && u[|u| - 1] == FLAG && FLAG !in u[2..|u| - 1]
    && Xors(u[1..|u| - 1]) == 0
    && Legible(u[1..|u| - 1]) && Overstated(Unescape(u[1..|u| - 1]))
  }

  /** The first flag that can close the candidate at the front of `u`, else -1. */
  function Closer(u: seq<Byte>): int {
    FindByte(u, FLAG, 2)
  }

  lemma CandidateCrashIff(u: seq<Byte>)
    requires 16 <= |u| && u[0] == FLAG && Closer(u) != -1
    ensures Decide(u, Closer(u)).Crash? <==> Overruns(u)
  {
    hide FindByte, Extract, Xors, Legible, Overstated, Unescape, Escape;
    var e := Closer(u);
    var c := u[1..|u| - 1];
    if e + 1 < |u| {
      MoreBytesNeverCrash(u, e);
      assert u[e] == u[2..|u| - 1][e - 2];
    } else {
      assert c[1..] == u[2..|u| - 1];
      assert FLAG !in u[2..|u| - 1] by {
        forall i | 2 <= i < |u| - 1 ensures u[i] != FLAG {}
      }
      assert u[1..] == c + [FLAG];
      ExtractOverrunIff(c);
    }
  }

  // ----- one scan ---------------------------------------------------------------------------

  /** The candidate at the front of `u` is complete and turned down. */
  predicate Rejected(u: seq<Byte>) {
    16 <= |u| && Closer(u) != -1 && Decide(u, Closer(u)).NoMsg?
  }

  /** The scan of `t` comes to position `k`, having rejected a candidate at every flag before, and overruns there. */
  ghost predicate CrashesAt(t: seq<Byte>, k: nat) {
    && k < |t| && Overruns(t[k..])
    && forall j :: 0 <= j < k && t[j] == FLAG ==> Rejected(t[j..])
  }

  /** For every buffer, the scanner reads past its end exactly when it comes to a candidate that overruns. */
  lemma {:induction false} CrashIff(t: seq<Byte>)
    ensures ScanAll(t).Crashed? <==> exists k: nat :: CrashesAt(t, k)
    decreases |t|
  {
    hide ScanAll, FindByte, Decide, Overruns;
    var p := FindByte(t, FLAG, 0);
    OverrunsAtFlags(t);
    ScanFirstFlag(t);
    if p != -1 {
      var u := t[p..];
      ScanAtFlag(u);
      if 16 <= |u| && Closer(u) != -1 {
        CandidateCrashIff(u);
        if Decide(u, Closer(u)).Crash? {
          assert CrashesAt(t, p);
        } else if Decide(u, Closer(u)).NoMsg? {
          CrashIff(u[1..]);
          CrashLater(t, p, u[1..]);
        }
      } else {
        OverrunsIsCandidate(u);
      }
    }
  }

  lemma OverrunsIsCandidate(u: seq<Byte>)
    ensures Overruns(u) ==> 16 <= |u| && Closer(u) == |u| - 1
  {
    hide FindByte, Xors, Legible, Overstated, Unescape;
    if Overruns(u) {
      assert u[|u| - 1] == FLAG;
      InnerUnflagged(u);
    }
  }

  lemma InnerUnflagged(u: seq<Byte>)
    requires Overruns(u)
    ensures forall i :: 2 <= i < |u| - 1 ==> u[i] != FLAG
  {
    hide Xors, Legible, Overstated, Unescape;
    forall i | 2 <= i < |u| - 1
      ensures u[i] != FLAG
    {
      assert u[i] == u[2..|u| - 1][i - 2];
    }
  }

  lemma OverrunsAtFlags(t: seq<Byte>)
    ensures forall k: nat :: k < |t| && Overruns(t[k..]) ==> t[k] == FLAG && k + 16 <= |t|
  {
    hide Xors, Legible, Overstated, Unescape;
  }

  lemma CrashLater(t: seq<Byte>, p: nat, v: seq<Byte>)
    requires p < |t| && t[p] == FLAG && Rejected(t[p..]) && forall j :: 0 <= j < p ==> t[j] != FLAG
    requires !Overruns(t[p..]) && v == t[p + 1..]
    ensures (exists k: nat :: CrashesAt(t, k)) <==> exists k: nat :: CrashesAt(v, k)
  {
    hide Overruns, Rejected;
    OverrunsAtFlags(t);
    assert forall j: nat :: p + 1 + j < |t| ==> v[j] == t[p + 1 + j] && v[j..] == t[p + 1 + j..];
    if k: nat :| CrashesAt(t, k) {
      assert CrashesAt(v, k - p - 1);
    }
    if k: nat :| CrashesAt(v, k) {
      assert CrashesAt(t, p + 1 + k);
    }
  }

  // ----- the receive loop -------------------------------------------------------------------

  /** A crash shows at the end of the buffer: there is a candidate that overruns. */
  lemma {:induction false} CrashEnds(t: seq<Byte>)
    requires Drain(t).crashed
    ensures exists k: nat :: k < |t| && Overruns(t[k..])
    decreases |t|
  {
    hide Drain, ScanAll, Overruns;
    DrainStep(t);
    CrashIff(t);
    var s := ScanAll(t);
    if s.Crashed? {
      var k: nat :| CrashesAt(t, k);
    } else {
      var v := t[s.pos..];
      CrashEnds(v);
      var k: nat :| k < |v| && Overruns(v[k..]);
      assert v[k..] == t[s.pos + k..];
    }
  }

  /** What a drain leaves is empty, or begins with a candidate whose closing flag has not arrived. */
  predicate Resting(r: seq<Byte>) {
    r == [] || (r[0] == FLAG && (|r| < 16 || Closer(r) == -1))
  }

  lemma {:induction false} DrainRests(a: seq<Byte>)
    requires !Drain(a).crashed
    ensures Resting(Drain(a).rest)
    decreases |a|
  {
    hide Drain, ScanAll, FindByte, Decide;
    DrainStep(a);
    if ScanAll(a).pos != 0 {
      DrainRests(a[ScanAll(a).pos..]);
    } else if a != [] {
      ScanFirstFlag(a);
      var p := FindByte(a, FLAG, 0);
      if p != -1 {
        ScanAtFlag(a[p..]);
        assert a[0..] == a;
      }
    }
  }

  /** The buffer overruns: its first candidate, or the second behind one stale flag. */
  predicate BufferOverruns(b: seq<Byte>) {
    Overruns(b) || (b != [] && Overruns(b[1..]))
  }

  lemma LastByteCrashIff(r: seq<Byte>, x: Byte)
    requires Resting(r)
    ensures Drain(r + [x]).crashed <==> BufferOverruns(r + [x])
  {
    hide Drain, ScanAll, Overruns, FindByte;
    var b := r + [x];
    assert b[0..] == b;
    OverrunsAtFlags(b);
    if Drain(b).crashed {
      CrashEnds(b);
      var k: nat :| k < |b| && Overruns(b[k..]);
      assert k > 0 ==> r[k] == FLAG;
      assert k <= 1;
    }
    if BufferOverruns(b) {
      if !Overruns(b) {
        StaleRejected(r, x);
      }
      CrashIff(b);
      assert CrashesAt(b, if Overruns(b) then 0 else 1);
      DrainStep(b);
    }
  }

  /** A flag directly in front of a candidate that overruns makes a candidate that is turned down. */
  lemma StaleRejected(r: seq<Byte>, x: Byte)
    requires Resting(r) && var b := r + [x]; !Overruns(b) && Overruns(b[1..])
    ensures Rejected(r + [x])
  {
    hide FindByte, Extract, Xors, Xor, Legible, Overstated, Unescape, Escape;
    var b := r + [x];
    var c := b[1..][1..|b| - 2];
    assert b[|b| - 1] == FLAG;
    assert Closer(b) == |b| - 1;
    CandidateCrashIff(b);
    assert b[1..|b| - 1] == [FLAG] + c;
    XorsConcat([FLAG], c);
    XorsOne(FLAG);
    XorGroup(FLAG, 0, 0);
  }

  /** A stream that crashes the scanner ends with a candidate of at least sixteen bytes. */
  lemma CrashShape(t: seq<Byte>) returns (k: nat)
    requires Drain(t).crashed
    ensures k + 16 <= |t| && t[k] == FLAG && t[|t| - 1] == FLAG
    ensures forall i :: k + 2 <= i < |t| - 1 ==> t[i] != FLAG
  {
    hide Drain, Overruns;
    CrashEnds(t);
    k :| k < |t| && Overruns(t[k..]);
    OverrunsAtFlags(t);
    InnerUnflagged(t[k..]);
    OverrunsIsCandidate(t[k..]);
    forall i | k + 2 <= i < |t| - 1
      ensures t[i] != FLAG
    {
      assert t[i] == t[k..][i - k];
    }
  }

  /** A stream that ends with a flag does not crash the scanner when one to thirteen more bytes are read with it. */
  lemma FewBytesMore(t: seq<Byte>, more: seq<Byte>)
    requires t != [] && t[|t| - 1] == FLAG && 0 < |more| < 14
    ensures !Drain(t + more).crashed && !ScanAll(t + more).Crashed?
  {
    hide Drain, ScanAll;
    DrainStep(t + more);
    if Drain(t + more).crashed {
      assert (t + more)[|t| - 1] == FLAG;
      var k := CrashShape(t + more);
    }
  }

  /**
    For every stream read at once: the scanner overruns exactly when everything but the last byte
    was drained without a crash, and what that left together with the last byte overruns.
   */
  lemma {:induction false} DrainCrashIff(t: seq<Byte>)
    ensures Drain(t).crashed <==>
            t != [] && var d := Drain(t[..|t| - 1]); !d.crashed && BufferOverruns(d.rest + [t[|t| - 1]])
  {
    hide Drain, BufferOverruns;
    DrainNothing();
    if t != [] {
      var a, x := t[..|t| - 1], t[|t| - 1];
      assert t == a + [x];
      if Drain(a).crashed {
        var k := CrashShape(a);
        FewBytesMore(a, [x]);
      } else {
        DrainSplit(a, [x]);
        DrainRests(a);
        LastByteCrashIff(Drain(a).rest, x);
      }
    }
  }

  /** The stream overruns at its byte `n`, whether it arrives in one read or in reads that did not crash before. */
  ghost predicate OverrunsUpTo(stream: seq<Byte>, n: nat) {
    0 < n <= |stream| && !Drain(stream[..n - 1]).crashed
    && BufferOverruns(Drain(stream[..n - 1]).rest + [stream[n - 1]])
  }

  /** Some read ends after the first `n` bytes of the stream. */
  ghost predicate ReadEnds(chunks: seq<seq<Byte>>, n: nat) {
    exists k :: 0 < k <= |chunks| && |Flatten(chunks[..k])| == n
  }

  /**
    For every stream and every way of cutting it, the server crashes exactly when a read ends at a
    byte at which the stream overruns.
   */
  lemma {:induction false} ServerCrashIff(chunks: seq<seq<Byte>>)
    ensures ReadAll(Drain, [], chunks).crashed <==>
            exists n: nat :: OverrunsUpTo(Flatten(chunks), n) && ReadEnds(chunks, n)
  {
    hide Drain, BufferOverruns, Flatten, ReadAll;
    var s := Flatten(chunks);
    LoopCrashesIff(chunks);
    forall k | 0 < k <= |chunks|
      ensures var n := |Flatten(chunks[..k])|; Drain(Flatten(chunks[..k])).crashed <==> OverrunsUpTo(s, n)
    {
      var t := Flatten(chunks[..k]);
      assert chunks == chunks[..k] + chunks[k..];
      FlattenConcat(chunks[..k], chunks[k..]);
      assert t == s[..|t|];
      DrainCrashIff(t);
      assert t != [] ==> t[..|t| - 1] == s[..|t| - 1];
    }
    if k :| 0 < k <= |chunks| && Drain(Flatten(chunks[..k])).crashed {
      assert ReadEnds(chunks, |Flatten(chunks[..k])|);
    }
  }

  // ----- two examples -------------------------------------------------------------------------

  /** Whatever its bytes, a content too short for a header crashes the scanner when nothing in it is escaped. */
  lemma ShortContentCrashes(c: seq<Byte>)
    requires 14 <= |c| < 16 && FLAG !in c[1..] && 0x7D !in c && Xors(c) == 0
    ensures Drain([FLAG] + c + [FLAG]).crashed
  {
    hide Drain, ScanAll, Overruns;
    var u := [FLAG] + c + [FLAG];
    ShortContentOverruns(c);
    assert u[0..] == u;
    CrashIff(u);
    assert CrashesAt(u, 0);
    DrainStep(u);
  }

  lemma ShortContentOverruns(c: seq<Byte>)
    requires 14 <= |c| < 16 && FLAG !in c[1..] && 0x7D !in c && Xors(c) == 0
    ensures Overruns([FLAG] + c + [FLAG])
  {
    hide Xors, Unescape, EndsLate, BigEndian, Canonical;
    var u := [FLAG] + c + [FLAG];
    assert u[1..|u| - 1] == c;
    assert u[2..|u| - 1] == c[1..];
    UnescapePlain(c);
    CanonicalPlain(if c[0] == FLAG then c[1..] else c);
  }

  lemma CanonicalPlain(v: seq<Byte>)
    requires 0x7D !in v && FLAG !in v
    ensures Canonical(v)
  {}

  lemma {:induction false} UnescapePlain(c: seq<Byte>)
    requires 0x7D !in c
    ensures Unescape(c) == c
  {
    if c == [] {
    } else {
      UnescapePlain(c[1..]);
    }
  }

  /**
    So the outcome does depend on the cut: seventeen bytes that crash the scanner when they
    are read alone are harmless when one more byte comes with them.
   */
  lemma CutMatters(b: Byte)
    ensures var u := [FLAG] + Zeros(15) + [FLAG];
            |u| == 17 && ReadAll(Drain, [], [u, [b]]).crashed && !ReadAll(Drain, [], [u + [b]]).crashed
  {
    hide Drain, Xors, Zeros;
    var u := [FLAG] + Zeros(15) + [FLAG];
    NoZeroIsMarked(15);
    ShortContentCrashes(Zeros(15));
    FewBytesMore(u, [b]);
    assert [] + u == u && [] + (u + [b]) == u + [b];
  }

  /** A second flag right behind the first is read as a header byte; these seventeen bytes crash the scanner, too. */
  lemma AdjacentFlagsCrash()
    ensures Drain([FLAG, FLAG, 0x01, 0x7F] + Zeros(12) + [FLAG]).crashed
  {
    hide Drain, Xors, Zeros;
    var c := [FLAG, 0x01, 0x7F] + Zeros(12);
    NoZeroIsMarked(12);
    XorsConcat([FLAG, 0x01, 0x7F], Zeros(12));
    ThreeCancel();
    assert c[1..] == [0x01, 0x7F] + Zeros(12);
    ShortContentCrashes(c);
    assert [FLAG] + c + [FLAG] == [FLAG, FLAG, 0x01, 0x7F] + Zeros(12) + [FLAG];
  }

  function Zeros(n: nat): (z: seq<Byte>)
    ensures |z| == n
  {
    seq(n, _ => 0)
  }

  lemma {:induction false} NoZeroIsMarked(n: nat)
    ensures 0x7D !in Zeros(n) && FLAG !in Zeros(n) && Xors(Zeros(n)) == 0
  {
    if n == 0 {
    } else {
      assert Zeros(n)[1..] == Zeros(n - 1);
      NoZeroIsMarked(n - 1);
      XorGroup(0, 0, 0);
    }
  }

  lemma ThreeCancel()
    ensures Xor(Xors([FLAG, 0x01, 0x7F]), 0) == 0
  {
    hide Xors, Xor;
    FlagIsSum();
    XorsConcat([FLAG, 0x01], [0x7F]);
    XorsConcat([FLAG], [0x01]);
    XorsOne(FLAG);
    XorsOne(0x01);
    XorsOne(0x7F);
    XorGroup(0x7F, 0, 0);
    XorGroup(0, 0, 0);
    assert [FLAG, 0x01, 0x7F] == [FLAG, 0x01] + [0x7F] && [FLAG, 0x01] == [FLAG] + [0x01];
  }

  lemma FlagIsSum()
    ensures Xor(FLAG, 0x01) == 0x7F
  {
    LowBit(7, 0x3F);
    assert FLAG == 2 * 0x3F;
  }

  lemma LowBit(w: nat, a: nat)
    requires a < Pow2(w)
    ensures XorBits(w + 1, 2 * a, 1) == 2 * a + 1
  {
    XorBitsLaws(w, a, 0);
  }
}
