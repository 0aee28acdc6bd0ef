/**
  The byte stuffing of JT/T 808-2019, section 4.4.2: 0x7E delimits frames, so
  inside a frame 0x7E travels as 0x7D 0x02 and 0x7D as 0x7D 0x01.
 */
module Escaping {
  import opened Bytes

  const FLAG: Byte := 0x7E
  const ESC: Byte := 0x7D

  function EscapeByte(b: Byte): seq<Byte> {
    if b == 0x7E then [0x7D, 0x02] else if b == 0x7D then [0x7D, 0x01] else [b]
  }

  function Escape(d: seq<Byte>): seq<Byte> {
    if d == [] then [] else EscapeByte(d[0]) + Escape(d[1..])
  }

  /** A frame on the wire. */
  function Enclose(content: seq<Byte>): seq<Byte> {
    [FLAG] + Escape(content) + [FLAG]
  }

  /** The lenient inverse: an unknown pair is copied, a trailing 0x7D is dropped. */
  function Unescape(e: seq<Byte>): seq<Byte> {
    if e == [] then []
    else if e[0] != 0x7D then [e[0]] + Unescape(e[1..])
    else if |e| == 1 then []
    else (if e[1] == 0x02 then [0x7E as Byte] else if e[1] == 0x01 then [0x7D] else [e[0], e[1]]) + Unescape(e[2..])
  }

  /** Every 0x7D introduces one of the two known pairs, and 0x7E does not occur. */
  predicate Canonical(e: seq<Byte>) {
    forall i :: 0 <= i < |e| ==> CanonicalAt(e, i)
  }

  predicate CanonicalAt(e: seq<Byte>, i: nat)
    requires i < |e|
  {
    e[i] != 0x7E && (e[i] == 0x7D ==> i + 1 < |e| && (e[i + 1] == 0x01 || e[i + 1] == 0x02))
  }

  /** How many bytes of `d` need escaping. */
  function Marks(d: seq<Byte>): nat {
    if d == [] then 0 else (if d[0] == 0x7E || d[0] == 0x7D then 1 else 0) + Marks(d[1..])
  }

  lemma {:induction false} EscapeConcat(d: seq<Byte>, t: seq<Byte>)
    ensures Escape(d + t) == Escape(d) + Escape(t)
  {
    if d == [] {
      assert d + t == t;
    } else {
      assert (d + t)[1..] == d[1..] + t;
      EscapeConcat(d[1..], t);
    }
  }

  lemma {:induction false} EscapeLength(d: seq<Byte>)
    ensures |Escape(d)| == |d| + Marks(d)
  {
    if d == [] {
    } else {
      EscapeLength(d[1..]);
    }
  }

  /** Escaped data is canonical; in particular it never contains the frame flag. */
  lemma {:induction false} EscapeCanonical(d: seq<Byte>)
    ensures Canonical(Escape(d)) && FLAG !in Escape(d)
  {
    if d == [] {
    } else {
      EscapeCanonical(d[1..]);
      var h, t := EscapeByte(d[0]), Escape(d[1..]);
      forall i | 0 <= i < |h + t|
        ensures CanonicalAt(h + t, i)
      {
        assert |h| <= i ==> CanonicalAt(t, i - |h|);
      }
      assert FLAG !in t by {
        forall i | 0 <= i < |t| ensures t[i] != FLAG { assert CanonicalAt(t, i); }
      }
    }
  }

  lemma UnescapePair(b: Byte, t: seq<Byte>)
    ensures Unescape(EscapeByte(b) + t) == [b] + Unescape(t)
  {
    var e := EscapeByte(b) + t;
    if b == 0x7E || b == 0x7D {
      assert e[2..] == t;
    } else {
      assert e[1..] == t;
    }
  }

  lemma {:induction false} UnescapeEscape(d: seq<Byte>)
    ensures Unescape(Escape(d)) == d
  {
    if d == [] {
    } else {
      UnescapeEscape(d[1..]);
      UnescapePair(d[0], Escape(d[1..]));
    }
  }

  /** Pairs that are not known are copied, and a 0x7D at the very end is dropped. */
  lemma {:induction false} UnknownPairsCopied(e: seq<Byte>)
    requires forall i :: 0 <= i < |e| && e[i] == 0x7D ==> i + 1 < |e| && e[i + 1] !in {0x01, 0x02, 0x7D}
    ensures Unescape(e) == e && Unescape(e + [0x7D]) == e
  {
    if e == [] {
      assert e + [0x7D] == [0x7D];
    } else {
      var n := if e[0] == 0x7D then 2 else 1;
      UnknownPairsCopied(e[n..]);
      assert e == e[..n] + e[n..];
      assert (e + [0x7D])[n..] == e[n..] + [0x7D];
    }
  }

  lemma {:induction false} CanonicalUnescape(e: seq<Byte>)
    requires Canonical(e)
    ensures Escape(Unescape(e)) == e
  {
    if e == [] {
    } else {
      var n := if e[0] == 0x7D then 2 else 1;
      assert CanonicalAt(e, 0);
      var t := e[n..];
      forall i | 0 <= i < |t|
        ensures CanonicalAt(t, i)
      {
        assert CanonicalAt(e, n + i);
      }
      CanonicalUnescape(t);
      var h := if e[0] != 0x7D then e[0] else if e[1] == 0x02 then 0x7E else 0x7D;
      assert e == EscapeByte(h) + t;
      UnescapePair(h, t);
      assert Unescape(e)[1..] == Unescape(t);
    }
  }

  /** Re-escaping gives the wire bytes back exactly when they were canonical. */
  lemma EscapeUnescapeIff(e: seq<Byte>)
    ensures Escape(Unescape(e)) == e <==> Canonical(e)
  {
    if Canonical(e) {
      CanonicalUnescape(e);
    }
    EscapeCanonical(Unescape(e));
  }

  lemma {:induction false} EscapeUnmarked(d: seq<Byte>)
    requires 0x7D !in d && 0x7E !in d
    ensures Escape(d) == d && Marks(d) == 0
  {
    if d == [] {
    } else {
      EscapeUnmarked(d[1..]);
    }
  }

  /** Escaping flips the lowest checksum bit once for every escaped byte. */
  lemma {:induction false} XorsEscape(d: seq<Byte>)
    ensures Xors(Escape(d)) == Xor(Xors(d), Marks(d) % 2)
  {
    hide Xor;
    if d == [] {
      XorGroup(0, 0, 0);
    } else {
      var h, x, m := d[0], Xors(d[1..]), Marks(d[1..]) % 2;
      var k := if h == 0x7E || h == 0x7D then 1 else 0;
      calc {
        Xors(Escape(d));
        { XorsConcat(EscapeByte(h), Escape(d[1..])); }
        Xor(Xors(EscapeByte(h)), Xors(Escape(d[1..])));
        { XorsEscapeByte(h); XorsEscape(d[1..]); }
        Xor(Xor(h, k), Xor(x, m));
        { FlipParity(h, x, k, m); }
        Xor(Xor(h, x), (k + m) % 2);
        { assert Marks(d) == k + Marks(d[1..]); }
        Xor(Xors(d), Marks(d) % 2);
      }
    }
  }

  lemma FlipParity(h: Byte, x: Byte, k: Byte, m: Byte)
    requires k <= 1 && m <= 1
    ensures Xor(Xor(h, k), Xor(x, m)) == Xor(Xor(h, x), (k + m) % 2)
  {
    hide Xor;
    XorGroup(h, k, Xor(x, m));
    XorGroup(k, x, m);
    XorGroup(x, k, m);
    XorGroup(h, x, Xor(k, m));
    XorOfBits(k, m);
  }

  lemma XorOfBits(k: Byte, m: Byte)
    requires k <= 1 && m <= 1
    ensures Xor(k, m) == (k + m) % 2
  {
    hide Xor;
    XorGroup(k, m, 0);
    XorGroup(m, k, 0);
  }

  lemma XorsEscapeByte(h: Byte)
    ensures Xors(EscapeByte(h)) == Xor(h, if h == 0x7E || h == 0x7D then 1 else 0)
  {
    var e := EscapeByte(h);
    XorsOne(h);
    XorGroup(h, 0, 0);
    if h == 0x7E || h == 0x7D {
      assert e[1..] == [e[1]];
      XorsOne(e[1]);
      PairsFlipLowBit();
    }
  }

  lemma PairsFlipLowBit()
    ensures Xor(0x7D, 0x02) == Xor(0x7E, 0x01)
  {}
}
