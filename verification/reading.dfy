/**
  Reading a stream in pieces: bytes are appended to a buffer, and after every
  read as much as possible is drained off its front. Whether the cuts between
  the reads matter is a property of the draining function. Draining may also
  crash, and then nothing more is read.
 */
module Reading {
  import opened Bytes

  /** What has been drained off a buffer, and the bytes that stay in it; a crash leaves none. */
  datatype Drained<T> = Drained(items: seq<T>, rest: seq<Byte>, crashed: bool := false)

  function Prepend<T>(xs: seq<T>, d: Drained<T>): Drained<T> {
    d.(items := xs + d.items)
  }

  lemma PrependTwice<T>(xs: seq<T>, ys: seq<T>, d: Drained<T>)
    ensures Prepend(xs, Prepend(ys, d)) == Prepend(xs + ys, d)
  {
    assert xs + (ys + d.items) == xs + ys + d.items;
  }

  lemma PrependNothing<T>(d: Drained<T>)
    ensures Prepend([], d) == d
  {
    assert [] + d.items == d.items;
  }

  /** One drain after every read, starting with `rest` buffered; a crash ends it. */
  function ReadAll<T>(drain: seq<Byte> -> Drained<T>, rest: seq<Byte>, chunks: seq<seq<Byte>>): Drained<T>
    decreases |chunks|
  {
    if chunks == [] then Drained([], rest)
    else
      var d := drain(rest + chunks[0]);
      if d.crashed then d else Prepend(d.items, ReadAll(drain, d.rest, chunks[1..]))
  }

  /** A cut after the first bytes `a` of a stream goes unnoticed, whatever follows. */
  ghost predicate CutHarmless<T(!new)>(drain: seq<Byte> -> Drained<T>, a: seq<Byte>) {
    !drain(a).crashed && forall c :: SameWhenCut(drain, a, c)
  }

  /** Draining, letting `c` arrive and draining again is draining once. */
  ghost predicate SameWhenCut<T(!new)>(drain: seq<Byte> -> Drained<T>, a: seq<Byte>, c: seq<Byte>) {
    drain(a + c) == Prepend(drain(a).items, drain(drain(a).rest + c))
  }

  /** If no cut is noticed, reading in pieces gives what reading all at once gives. */
  lemma {:induction false} CutsDoNotMatter<T(!new)>(
      drain: seq<Byte> -> Drained<T>, before: seq<Byte>, chunks: seq<seq<Byte>>)
    requires !drain(before).crashed
    requires forall k :: 0 <= k < |chunks| ==> CutHarmless(drain, before + Flatten(chunks[..k]))
    ensures Prepend(drain(before).items, ReadAll(drain, drain(before).rest, chunks)) == drain(before + Flatten(chunks))
    decreases |chunks|
  {
    hide CutHarmless;
    var d := drain(before);
    if chunks == [] {
      assert before + Flatten(chunks) == before;
      assert d.items + [] == d.items;
    } else {
      var next, later := before + chunks[0], chunks[1..];
      var e := drain(d.rest + chunks[0]);
      assert before + Flatten(chunks[..0]) == before;
      assert SameWhenCut(drain, before, chunks[0]) by { Unnoticed(drain, before, chunks[0]); }
      forall k | 0 <= k < |later|
        ensures CutHarmless(drain, next + Flatten(later[..k]))
      {
        LaterPrefix(before, chunks, k);
      }
      assert before + Flatten(chunks) == next + Flatten(later);
      if later != [] {
        FirstPrefix(drain, next, later);
      }
      if e.crashed {
        assert next + Flatten(later) == next;
      } else {
        CutsDoNotMatter(drain, next, later);
        PrependTwice(d.items, e.items, ReadAll(drain, e.rest, later));
      }
    }
  }

  lemma LaterPrefix(before: seq<Byte>, chunks: seq<seq<Byte>>, k: nat)
    requires chunks != [] && k <= |chunks| - 1
    ensures before + Flatten(chunks[..k + 1]) == before + chunks[0] + Flatten(chunks[1..][..k])
  {
    assert chunks[..k + 1] == [chunks[0]] + chunks[1..][..k];
  }

  lemma Unnoticed<T(!new)>(drain: seq<Byte> -> Drained<T>, a: seq<Byte>, c: seq<Byte>)
    requires CutHarmless(drain, a)
    ensures !drain(a).crashed && SameWhenCut(drain, a, c)
  {}

  lemma FirstPrefix<T(!new)>(drain: seq<Byte> -> Drained<T>, next: seq<Byte>, later: seq<seq<Byte>>)
    requires later != [] && CutHarmless(drain, next + Flatten(later[..0]))
    ensures !drain(next).crashed
  {
    assert next + Flatten(later[..0]) == next;
  }

  /**
    When only crashes are noticed, reading in pieces crashes exactly when one of the beginnings of
    the stream at which a read ends would crash if it were read at once.
   */
  lemma {:induction false} CrashesIff<T(!new)>(
      drain: seq<Byte> -> Drained<T>, before: seq<Byte>, chunks: seq<seq<Byte>>)
    requires forall a :: !drain(a).crashed ==> CutHarmless(drain, a)
    requires !drain(before).crashed
    ensures ReadAll(drain, drain(before).rest, chunks).crashed <==>
            exists k :: 0 < k <= |chunks| && drain(before + Flatten(chunks[..k])).crashed
    decreases |chunks|
  {
    hide CutHarmless;
    if chunks == [] {
    } else {
      var next, later := before + chunks[0], chunks[1..];
      Unnoticed(drain, before, chunks[0]);
      forall k: nat | k <= |later|
        ensures before + Flatten(chunks[..k + 1]) == next + Flatten(later[..k])
      {
        LaterPrefix(before, chunks, k);
      }
      assert next + Flatten(later[..0]) == next;
      if drain(next).crashed {
        assert drain(before + Flatten(chunks[..1])).crashed;
      } else {
        CrashesIff(drain, next, later);
        if k :| 0 < k <= |later| && drain(next + Flatten(later[..k])).crashed {
          assert drain(before + Flatten(chunks[..k + 1])).crashed;
        }
        if k :| 0 < k <= |chunks| && drain(before + Flatten(chunks[..k])).crashed {
          assert before + Flatten(chunks[..k]) == next + Flatten(later[..k - 1]);
        }
      }
    }
  }
}
