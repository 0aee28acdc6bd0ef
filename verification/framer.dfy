/**
  The receiving side of a JT/T 808 connection: `JT808Connection` appends every
  TCP read to a buffer and cuts whole frames out of it. TCP is free to cut the
  stream anywhere, so the point is that the cuts do not matter.
 */
module Framer {
  import opened Bytes
  import opened Escaping
  import opened Jt808
  import opened Reading

  // ----- specification ------------------------------------------------------

  /** The raw frames cut out of a buffer, and the bytes that stay in it. */
  function Drain(buf: seq<Byte>): (d: Drained<seq<Byte>>)
    ensures !d.crashed
    decreases |buf|
  {
    var start := FindByte(buf, FLAG, 0);
    if start == -1 then Drained([], [])
    else
      var b := buf[start..];
      var end := FindByte(b, FLAG, 1);
      if end == -1 then Drained([], b)
      else Prepend([b[..end + 1]], Drain(b[end + 1..]))
  }

  /** The message of a frame, if it parses. */
  function MessageIn(raw: seq<Byte>): seq<Message> {
    match ParseFrame(raw)
    case Some(m) => [m]
    case None => []
  }

  /** The messages of those frames that parse. */
  function Messages(frames: seq<seq<Byte>>): seq<Message> {
    if frames == [] then [] else MessageIn(frames[0]) + Messages(frames[1..])
  }

  // ----- the connection -----------------------------------------------------

  class JT808Connection {
    var buf: seq<Byte>
    var handled: seq<Message>

    constructor ()
      ensures buf == [] && handled == []
    {
      buf, handled := [], [];
    }

    method Receive(chunk: seq<Byte>)
      modifies this
      ensures var d := Drain(old(buf) + chunk);
              buf == d.rest && handled == old(handled) + Messages(d.items)
    {
      buf := buf + chunk;
      ProcessBuf();
    }

    method ProcessBuf()
      modifies this
      ensures var d := Drain(old(buf));
              buf == d.rest && handled == old(handled) + Messages(d.items)
    {
      hide Drain, ParseFrame, Messages;
      ghost var cut := [];
      assert Messages(cut) == [] by { NoMessages(); }
      while true
        invariant Prepend(cut, Drain(buf)) == Drain(old(buf))
        invariant handled == old(handled) + Messages(cut)
        decreases |buf|
      {
        ghost var now := buf;
        var start := FindByte(buf, FLAG, 0);
        if start == -1 {
          DrainStep(buf);
          buf := [];
          assert cut + [] == cut;
          return;
        }
        DrainStep(buf);
        if start > 0 {
          buf := buf[start..];
        }
        assert buf == now[start..];
        var end := FindByte(buf, FLAG, 1);
        if end == -1 {
          assert cut + [] == cut;
          return;
        }
        var raw := buf[..end + 1];
        buf := buf[end + 1..];
        PrependTwice(cut, [raw], Drain(buf));
        MessagesAppend(cut, raw);
        cut := cut + [raw];
        var msg := ParseFrame(raw);
        if msg.Some? {
          handled := handled + [msg.value];
        }
      }
    }
  }

  // ----- laws ---------------------------------------------------------------

  lemma NoMessages()
    ensures Messages([]) == []
  {}

  lemma {:induction false} MessagesAppend(fs: seq<seq<Byte>>, raw: seq<Byte>)
    ensures Messages(fs + [raw]) == Messages(fs) + MessageIn(raw)
  {
    hide MessageIn;
    if fs == [] {
      assert fs + [raw] == [raw];
      assert Messages([]) == [];
    } else {
      assert (fs + [raw])[1..] == fs[1..] + [raw];
      MessagesAppend(fs[1..], raw);
    }
  }

  /** A complete frame: flags at both ends and none in between. */
  predicate IsFrame(f: seq<Byte>) {
    2 <= |f| && f[0] == FLAG && f[|f| - 1] == FLAG && FLAG !in f[1..|f| - 1]
  }

  lemma DrainNone(b: seq<Byte>)
    requires FLAG !in b
    ensures Drain(b) == Drained([], [])
  {
    FindByteAbsent(b, FLAG, 0);
  }

  lemma DrainStep(a: seq<Byte>)
    ensures var start := FindByte(a, FLAG, 0);
            Drain(a) ==
            if start == -1 then Drained([], [])
            else
              var b := a[start..];
              var end := FindByte(b, FLAG, 1);
              if end == -1 then Drained([], b) else Prepend([b[..end + 1]], Drain(b[end + 1..]))
  {}

  /** A frame whose second flag has not arrived waits in the buffer. */
  lemma DrainOpen(b: seq<Byte>)
    requires b != [] && b[0] == FLAG && FLAG !in b[1..]
    ensures Drain(b) == Drained([], b)
  {
    assert b[0..] == b;
    FindByteAbsent(b, FLAG, 1);
  }

  lemma DrainFrame(f: seq<Byte>, t: seq<Byte>)
    requires IsFrame(f)
    ensures Drain(f + t) == Prepend([f], Drain(t))
  {
    hide FindByte, Drain;
    var s, n := f + t, |f| - 1;
    DrainStep(s);
    assert s[0..] == s;
    assert s == f[..n] + [FLAG] + t;
    assert f[..n][1..] == f[1..n];
    FindByteAfter(f[..n], FLAG, t, 1);
    assert s[..n + 1] == f;
    assert s[n + 1..] == t;
  }

  /** Bytes before the first flag are dropped. */
  lemma DrainNoise(noise: seq<Byte>, t: seq<Byte>)
    requires FLAG !in noise
    ensures Drain(noise + t) == Drain(t)
  {
    hide Drain, FindByte;
    var s, start := noise + t, FindByte(t, FLAG, 0);
    FindByteSkip(noise, FLAG, t);
    DrainStep(s);
    DrainStep(t);
    if start != -1 {
      assert s[|noise| + start..] == t[start..];
    }
  }

  /** Every buffer is noise, then nothing, an open frame, or a whole frame and more. */
  lemma Anatomy(a: seq<Byte>) returns (noise: seq<Byte>, f: seq<Byte>, t: seq<Byte>)
    ensures a == noise + f + t && FLAG !in noise
    ensures f == [] ==> t == []
    ensures f != [] ==> f[0] == FLAG && (IsFrame(f) || (FLAG !in f[1..] && t == []))
  {
    hide FindByte;
    var start := FindByte(a, FLAG, 0);
    if start == -1 {
      assert FLAG !in a[0..|a|];
      assert a[0..|a|] == a;
      noise, f, t := a, [], [];
    } else {
      assert FLAG !in a[0..start];
      var b := a[start..];
      var end := FindByte(b, FLAG, 1);
      if end == -1 {
        assert FLAG !in b[1..|b|];
        assert b[1..|b|] == b[1..];
        noise, f, t := a[..start], b, [];
      } else {
        assert FLAG !in b[1..end];
        noise, f, t := a[..start], b[..end + 1], b[end + 1..];
        assert f[1..|f| - 1] == b[1..end];
        assert a == noise + (f + t);
      }
    }
  }

  /** Draining, letting `c` arrive and draining again is draining once. */
  lemma {:induction false} DrainSplit(a: seq<Byte>, c: seq<Byte>)
    ensures SameWhenCut(Drain, a, c)
    decreases |a|
  {
    hide Drain, FindByte, ParseFrame;
    var noise, f, t := Anatomy(a);
    assert a == noise + (f + t);
    DrainNoise(noise, f + t);
    assert a + c == noise + (f + t + c);
    DrainNoise(noise, f + t + c);
    if f == [] {
      DrainNone([]);
      assert f + t + c == [] + c;
    } else if IsFrame(f) {
      DrainFrame(f, t);
      assert f + t + c == f + (t + c);
      DrainFrame(f, t + c);
      DrainSplit(t, c);
      PrependTwice([f], Drain(t).items, Drain(Drain(t).rest + c));
    } else {
      assert f + t == f;
      DrainOpen(f);
    }
  }

  /**
    For every byte stream and every way of cutting it into reads, the frames cut out and the
    bytes left in the buffer are those of the whole stream read at once.
   */
  lemma {:induction false} AnyCuts(before: seq<Byte>, chunks: seq<seq<Byte>>)
    ensures Prepend(Drain(before).items, ReadAll(Drain, Drain(before).rest, chunks)) == Drain(before + Flatten(chunks))
  {
    hide Drain;
    forall a ensures CutHarmless(Drain, a) {
      forall c ensures SameWhenCut(Drain, a, c) { DrainSplit(a, c); }
    }
    CutsDoNotMatter(Drain, before, chunks);
  }
}
