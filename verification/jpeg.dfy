/**
  Cutting FFmpeg's output into JPEG images and queueing them for the viewers.
  When no image is in progress the reader clears its buffer, a trailing 0xFF
  included, which is the one way the cuts between reads can matter.
 */
module Jpeg {
  import opened Bytes
  import opened Reading

  const SOI: seq<Byte> := [0xFF, 0xD8]
  const EOI: seq<Byte> := [0xFF, 0xD9]
  const QUEUE_SIZE := 30

  // ----- specification ----------------------------------------------------------------

  /** The images cut out of a buffer, and the bytes that stay in it. */
  function Drain(buf: seq<Byte>): (d: Drained<seq<Byte>>)
    ensures !d.crashed
    decreases |buf|
  {
    var start := Find(buf, SOI, 0);
    if start == -1 then Drained([], [])
    else
      var end := Find(buf, EOI, start + 2);
      if end == -1 then Drained([], buf[start..])
      else Prepend([buf[start..end + 2]], Drain(buf[end + 2..]))
  }

  /** A frame queue: what is waiting, and what has left it, delivered or dropped, oldest first. */
  datatype Left = Delivered(image: seq<Byte>) | Dropped(image: seq<Byte>)
  datatype Queue = Queue(waiting: seq<seq<Byte>>, left: seq<Left>)

  function Push(q: Queue, image: seq<Byte>): Queue {
    var r := if |q.waiting| == QUEUE_SIZE then Queue(q.waiting[1..], q.left + [Dropped(q.waiting[0])]) else q;
    if |r.waiting| < QUEUE_SIZE then r.(waiting := r.waiting + [image]) else r
  }

  function PushAll(q: Queue, images: seq<seq<Byte>>): Queue {
    if images == [] then q else Push(PushAll(q, images[..|images| - 1]), images[|images| - 1])
  }

  /** The pacer takes the oldest image. */
  function Take(q: Queue): Queue {
    if q.waiting == [] then q else Queue(q.waiting[1..], q.left + [Delivered(q.waiting[0])])
  }

  // ----- the reader -----------------------------------------------------------------------

  class JpegReader {
    var buf: seq<Byte>
    var queue: Queue

    constructor ()
      ensures buf == [] && queue == Queue([], [])
    {
      buf, queue := [], Queue([], []);
    }

    /** What is done with one chunk; `clients` says whether anybody is watching. */
    method OnChunk(chunk: seq<Byte>, clients: bool)
      modifies this
      ensures var d := Drain(old(buf) + chunk);
              buf == d.rest && queue == if clients then PushAll(old(queue), d.items) else old(queue)
    {
      hide Drain, Find;
      buf := buf + chunk;
      ghost var cut := [];
      while true
        invariant Prepend(cut, Drain(buf)) == Drain(old(buf) + chunk)
        invariant queue == if clients then PushAll(old(queue), cut) else old(queue)
        decreases |buf|
      {
        DrainStep(buf);
        var start := Find(buf, SOI, 0);
        if start == -1 {
          buf := [];
          assert cut + [] == cut;
          return;
        }
        var end := Find(buf, EOI, start + 2);
        if end == -1 {
          if start > 0 {
            buf := buf[start..];
          } else {
            assert buf[0..] == buf;
          }
          assert cut + [] == cut;
          return;
        }
        FoundFits(buf, EOI, start + 2);
        var jpeg := buf[start..end + 2];
        buf := buf[end + 2..];
        PrependTwice(cut, [jpeg], Drain(buf));
        if clients {
          assert (cut + [jpeg])[..|cut|] == cut;
          if |queue.waiting| == QUEUE_SIZE {
            queue := Queue(queue.waiting[1..], queue.left + [Dropped(queue.waiting[0])]);
          }
          if |queue.waiting| < QUEUE_SIZE {
            queue := queue.(waiting := queue.waiting + [jpeg]);
          }
        }
        cut := cut + [jpeg];
      }
    }
  }

  // ----- laws: images ------------------------------------------------------------------------

  lemma FoundFits(s: seq<Byte>, pat: seq<Byte>, from: nat)
    ensures var r := Find(s, pat, from); r == -1 || (from <= r && r + |pat| <= |s|)
  {
    hide Find;
  }

  lemma DrainStep(buf: seq<Byte>)
    ensures var start := Find(buf, SOI, 0);
            Drain(buf) ==
            if start == -1 then Drained([], [])
            else
              var end := Find(buf, EOI, start + 2);
              if end == -1 then Drained([], buf[start..])
              else Prepend([buf[start..end + 2]], Drain(buf[end + 2..]))
  {
    hide Find, MatchAt, Prepend;
  }

  /** A whole image: starts with SOI and ends with the first EOI after it. */
  predicate IsImage(f: seq<Byte>) {
    && 4 <= |f| && MatchAt(f, SOI, 0) && MatchAt(f, EOI, |f| - 2)
    && forall j :: 2 <= j < |f| - 2 ==> !MatchAt(f, EOI, j)
  }

  /** `b` is gap, image, gap, image, ..., leftover, and no SOI starts inside a gap. */
  predicate Accounts(b: seq<Byte>, gaps: seq<seq<Byte>>, images: seq<seq<Byte>>, leftover: seq<Byte>)
    requires |gaps| == |images|
    decreases |images|
  {
    if images == [] then b == leftover
    else
      && gaps[0] + images[0] <= b
      && (forall i :: 0 <= i < |gaps[0]| ==> !MatchAt(b, SOI, i))
      && IsImage(images[0])
      && Accounts(b[|gaps[0]| + |images[0]|..], gaps[1..], images[1..], leftover)
  }

  /** What is in the buffer when no further image can be cut out. */
  function Leftover(buf: seq<Byte>): (r: seq<Byte>)
    decreases |buf|
  {
    var start := Find(buf, SOI, 0);
    if start == -1 then buf
    else
      var end := Find(buf, EOI, start + 2);
      if end == -1 then buf else Leftover(buf[end + 2..])
  }

  lemma LeftoverStep(buf: seq<Byte>)
    ensures var start := Find(buf, SOI, 0);
            Leftover(buf) ==
            if start == -1 then buf
            else
              var end := Find(buf, EOI, start + 2);
              if end == -1 then buf else Leftover(buf[end + 2..])
  {
    hide Find, MatchAt;
  }

  lemma CutIsImage(buf: seq<Byte>)
    requires var start := Find(buf, SOI, 0); start != -1 && Find(buf, EOI, start + 2) != -1
    ensures var start := Find(buf, SOI, 0);
            var end := Find(buf, EOI, start + 2);
            end + 2 <= |buf| && IsImage(buf[start..end + 2])
  {
    hide Find, IsImage, MatchAt;
    var start := Find(buf, SOI, 0);
    FoundFits(buf, EOI, start + 2);
    SliceIsImage(buf, start, Find(buf, EOI, start + 2));
  }

  lemma SliceIsImage(buf: seq<Byte>, start: nat, end: nat)
    requires start + 2 <= end && end + 2 <= |buf|
    requires MatchAt(buf, SOI, start) && MatchAt(buf, EOI, end)
    requires forall j :: start + 2 <= j < end ==> !MatchAt(buf, EOI, j)
    ensures IsImage(buf[start..end + 2])
  {
    hide MatchAt;
    var f := buf[start..end + 2];
    MatchSlice(buf, start, end + 2, SOI, 0);
    MatchSlice(buf, start, end + 2, EOI, end - start);
    forall j | 2 <= j < |f| - 2
      ensures !MatchAt(f, EOI, j)
    {
      MatchSlice(buf, start, end + 2, EOI, j);
    }
  }

  /**
    The images are disjoint pieces of the stream, in order, each ending at its first EOI. What
    follows the last one holds no whole image and is kept from its SOI on, if it has one.
   */
  lemma {:induction false} ImagesAccounted(buf: seq<Byte>) returns (gaps: seq<seq<Byte>>)
    ensures |gaps| == |Drain(buf).items| && Accounts(buf, gaps, Drain(buf).items, Leftover(buf))
    ensures var l := Leftover(buf);
            var start := Find(l, SOI, 0);
            && Drain(buf).rest == (if start == -1 then [] else l[start..])
            && (start != -1 ==> Find(l, EOI, start + 2) == -1)
    decreases |buf|
  {
    hide Drain, Leftover, Find, IsImage;
    DrainStep(buf);
    LeftoverStep(buf);
    var start := Find(buf, SOI, 0);
    gaps := [];
    if start != -1 {
      var end := Find(buf, EOI, start + 2);
      if end != -1 {
        CutIsImage(buf);
        var t := buf[end + 2..];
        var later := ImagesAccounted(t);
        gaps := [buf[..start]] + later;
        assert gaps[1..] == later;
        assert ([buf[start..end + 2]] + Drain(t).items)[1..] == Drain(t).items;
        assert buf[..start] + buf[start..end + 2] == buf[..end + 2];
      }
    }
  }

  // ----- laws: cuts -----------------------------------------------------------------------------

  /** The buffer is cleared although its last byte may be the first of an SOI. */
  predicate LosesTail(a: seq<Byte>) {
    var l := Leftover(a);
    Find(l, SOI, 0) == -1 && l != [] && l[|l| - 1] == 0xFF
  }

  lemma {:induction false} LeftoverSuffix(a: seq<Byte>)
    ensures Leftover(a) != [] ==> a != [] && Leftover(a)[|Leftover(a)| - 1] == a[|a| - 1]
    decreases |a|
  {
    hide Leftover, Find;
    LeftoverStep(a);
    var start := Find(a, SOI, 0);
    if start != -1 {
      var end := Find(a, EOI, start + 2);
      if end != -1 {
        FoundFits(a, EOI, start + 2);
        LeftoverSuffix(a[end + 2..]);
      }
    }
  }

  /** Bytes in which no SOI starts are dropped, provided that something follows them. */
  lemma DrainNoise(noise: seq<Byte>, t: seq<Byte>)
    requires forall i :: 0 <= i < |noise| ==> !MatchAt(noise + t, SOI, i)
    ensures Drain(noise + t) == Drain(t)
  {
    hide Drain, Find, MatchAt;
    var s, n := noise + t, |noise|;
    var start := Find(t, SOI, 0);
    assert s[n..] == t;
    FindSuffix(s, n, SOI, 0);
    FindPast(s, SOI, n);
    DrainStep(s);
    DrainStep(t);
    FoundFits(t, SOI, 0);
    if start != -1 {
      FindSuffix(s, n, EOI, start + 2);
      var end := Find(t, EOI, start + 2);
      assert s[n + start..] == t[start..];
      if end != -1 {
        FoundFits(t, EOI, start + 2);
        assert s[n + start..n + end + 2] == t[start..end + 2];
        assert s[n + end + 2..] == t[end + 2..];
      }
    }
  }

  lemma NoSoiAcross(a: seq<Byte>, c: seq<Byte>)
    requires Find(a, SOI, 0) == -1 && (a == [] || a[|a| - 1] != 0xFF)
    ensures Drain(a + c) == Drain(c)
  {
    hide Drain, Find;
    forall i | 0 <= i < |a|
      ensures !MatchAt(a + c, SOI, i)
    {
      if i + 2 <= |a| {
        MatchExtend(a, c, SOI, i);
      } else {
        MatchAtByte(a + c, SOI, i, 0);
      }
    }
    DrainNoise(a, c);
  }

  lemma {:induction false} DrainSplit(a: seq<Byte>, c: seq<Byte>)
    requires !LosesTail(a)
    ensures SameWhenCut(Drain, a, c)
    decreases |a|
  {
    hide Drain, Leftover, Find, MatchAt;
    DrainStep(a);
    LeftoverStep(a);
    var start := Find(a, SOI, 0);
    if start == -1 {
      NoSoiAcross(a, c);
      assert [] + c == c;
    } else {
      var end := Find(a, EOI, start + 2);
      if end == -1 {
        FoundFits(a, SOI, 0);
        DrainFromSoi(a, c);
      } else {
        FoundFits(a, EOI, start + 2);
        FindExtend(a, c, SOI, 0);
        FindExtend(a, c, EOI, start + 2);
        DrainStep(a + c);
        assert (a + c)[start..end + 2] == a[start..end + 2];
        assert (a + c)[end + 2..] == a[end + 2..] + c;
        DrainSplit(a[end + 2..], c);
        PrependTwice([a[start..end + 2]], Drain(a[end + 2..]).items, Drain(Drain(a[end + 2..]).rest + c));
      }
    }
  }

  lemma DrainFromSoi(a: seq<Byte>, c: seq<Byte>)
    requires Find(a, SOI, 0) != -1
    ensures Drain(a + c) == Drain(a[Find(a, SOI, 0)..] + c)
  {
    hide Drain, Find;
    var start := Find(a, SOI, 0);
    assert a + c == a[..start] + (a[start..] + c);
    forall i | 0 <= i < start
      ensures !MatchAt(a + c, SOI, i)
    {
      MatchExtend(a, c, SOI, i);
    }
    DrainNoise(a[..start], a[start..] + c);
  }

  /** If the tail is lost, an SOI completed by the very next byte goes unnoticed. */
  lemma {:induction false} TailLost(a: seq<Byte>)
    requires LosesTail(a)
    ensures Drain(a).rest == [] && Drain(a + [0xD8]).rest == SOI
    decreases |a|
  {
    hide Drain, Leftover, Find, MatchAt;
    DrainStep(a);
    LeftoverStep(a);
    var start := Find(a, SOI, 0);
    if start == -1 {
      TailCompleted(a);
    } else {
      var end := Find(a, EOI, start + 2);
      FoundFits(a, EOI, start + 2);
      if end != -1 {
        FindExtend(a, [0xD8], SOI, 0);
        FindExtend(a, [0xD8], EOI, start + 2);
        DrainStep(a + [0xD8]);
        assert (a + [0xD8])[end + 2..] == a[end + 2..] + [0xD8];
        TailLost(a[end + 2..]);
      }
    }
  }

  lemma TailCompleted(a: seq<Byte>)
    requires Find(a, SOI, 0) == -1 && a != [] && a[|a| - 1] == 0xFF
    ensures Drain(a + [0xD8]).rest == SOI
  {
    hide Drain, Find;
    var n := |a| - 1;
    assert a + [0xD8] == a[..n] + SOI;
    forall i | 0 <= i < n
      ensures !MatchAt(a[..n] + SOI, SOI, i)
    {
      MatchExtend(a, [0xD8], SOI, i);
    }
    DrainNoise(a[..n], SOI);
    DrainSoi();
  }

  lemma DrainSoi()
    ensures Drain(SOI) == Drained([], SOI)
  {
    hide Drain, Find;
    DrainStep(SOI);
    FindIs(SOI, SOI, 0, 0);
    FoundFits(SOI, EOI, 2);
    assert SOI[0..] == SOI;
  }

  /** Whether a cut after `a` can ever be noticed depends on the bytes before it alone. */
  lemma {:induction false} CutHarmlessIff(a: seq<Byte>)
    ensures CutHarmless(Drain, a) <==> !LosesTail(a)
  {
    hide Drain, LosesTail;
    if LosesTail(a) {
      TailLost(a);
      NothingFromOneByte();
      assert !SameWhenCut(Drain, a, [0xD8]);
    } else {
      forall c ensures SameWhenCut(Drain, a, c) {
        DrainSplit(a, c);
      }
    }
  }

  /** Such a loss: an image whose first byte ends a read. */
  lemma CutLosesImage()
    ensures var a, c: seq<Byte> := [0xFF], [0xD8, 0xFF, 0xD9];
            && ReadAll(Drain, [], [a, c]) == Drained([], [])
            && Drain(Flatten([a, c])) == Drained([[0xFF, 0xD8, 0xFF, 0xD9]], [])
  {
    hide Drain, Find, Flatten;
    var a, c: seq<Byte> := [0xFF], [0xD8, 0xFF, 0xD9];
    var image := [0xFF, 0xD8, 0xFF, 0xD9];
    FlattenTwo(a, c);
    assert a + c == image;
    NoSoiIn(a);
    NoSoiIn(c);
    NoSoiIn([]);
    FindIs(image, SOI, 0, 0);
    FindIs(image, EOI, 2, 2);
    DrainStep(a);
    DrainStep(c);
    DrainStep([]);
    DrainStep(image);
    assert image[0..4] == image && image[4..] == [];
    assert [] + a == a && [] + c == c;
    assert [c][1..] == [] && ReadAll(Drain, [], [c]) == Drained([], []);
    assert [a, c][1..] == [c];
  }

  lemma FlattenTwo(a: seq<Byte>, c: seq<Byte>)
    ensures Flatten([a, c]) == a + c
  {
    assert [a, c][1..] == [c];
    assert Flatten([c]) == c + [];
  }

  lemma NoSoiIn(b: seq<Byte>)
    requires forall i :: 0 <= i < |b| - 1 ==> b[i] != 0xFF || b[i + 1] != 0xD8
    ensures Find(b, SOI, 0) == -1
  {
    hide Find, MatchAt;
    var r := Find(b, SOI, 0);
    if r != -1 {
      FoundFits(b, SOI, 0);
      MatchAtByte(b, SOI, r, 0);
      MatchAtByte(b, SOI, r, 1);
    }
  }

  lemma NothingFromOneByte()
    ensures Drain([] + [0xD8]).rest == []
  {}

  /** Every read but the last is non-empty and does not end in 0xFF. */
  predicate SafeCuts(chunks: seq<seq<Byte>>) {
    forall k :: 0 <= k < |chunks| - 1 ==> chunks[k] != [] && chunks[k][|chunks[k]| - 1] != 0xFF
  }

  lemma {:induction false} SafeEnd(chunks: seq<seq<Byte>>, k: nat)
    requires SafeCuts(chunks) && 0 < k < |chunks|
    ensures !LosesTail(Flatten(chunks[..k]))
  {
    hide Leftover, Find;
    var c := chunks[k - 1];
    assert chunks[..k] == chunks[..k - 1] + [c];
    FlattenConcat(chunks[..k - 1], [c]);
    assert Flatten([c]) == c + [];
    LeftoverSuffix(Flatten(chunks[..k]));
  }

  /** As long as no read but the last ends in 0xFF, the images do not depend on where the reads were cut. */
  lemma {:induction false} SafeCutsDoNotMatter(chunks: seq<seq<Byte>>)
    requires SafeCuts(chunks)
    ensures ReadAll(Drain, [], chunks) == Drain(Flatten(chunks))
  {
    hide Drain, LosesTail, SafeCuts;
    NothingAtFirst();
    forall k | 0 <= k < |chunks|
      ensures CutHarmless(Drain, [] + Flatten(chunks[..k]))
    {
      if k > 0 {
        SafeEnd(chunks, k);
      }
      assert [] + Flatten(chunks[..k]) == Flatten(chunks[..k]);
      CutHarmlessIff(Flatten(chunks[..k]));
    }
    CutsDoNotMatter(Drain, [], chunks);
    assert [] + Flatten(chunks) == Flatten(chunks);
    PrependNothing(ReadAll(Drain, [], chunks));
  }

  lemma NothingAtFirst()
    ensures Drain([]) == Drained([], []) && !LosesTail([])
  {}

  // ----- laws: the queue ---------------------------------------------------------------------------

  datatype QueueEvent = Pushed(image: seq<Byte>) | Taken

  function QueueAfter(h: seq<QueueEvent>): Queue {
    if h == [] then Queue([], [])
    else
      var q, e := QueueAfter(h[..|h| - 1]), h[|h| - 1];
      if e.Pushed? then Push(q, e.image) else Take(q)
  }

  function AllPushed(h: seq<QueueEvent>): seq<seq<Byte>> {
    if h == [] then []
    else AllPushed(h[..|h| - 1]) + if h[|h| - 1].Pushed? then [h[|h| - 1].image] else []
  }

  function Images(left: seq<Left>): (r: seq<seq<Byte>>)
    ensures |r| == |left|
  {
    seq(|left|, i requires 0 <= i < |left| => left[i].image)
  }

  /**
    The queue never exceeds its size, and every image pushed has left it, delivered or dropped,
    before all that still wait: together they are the images pushed, in order.
   */
  lemma {:induction false} OldestLeaveFirst(h: seq<QueueEvent>)
    ensures var q := QueueAfter(h);
            |q.waiting| <= QUEUE_SIZE && Images(q.left) + q.waiting == AllPushed(h)
  {
    hide Images, Push, Take;
    if h == [] {
      assert Images([]) == [];
    } else {
      var q, e := QueueAfter(h[..|h| - 1]), h[|h| - 1];
      OldestLeaveFirst(h[..|h| - 1]);
      if e.Pushed? {
        PushKeepsOrder(q, e.image);
        assert Images(q.left) + (q.waiting + [e.image]) == Images(q.left) + q.waiting + [e.image];
      } else {
        TakeKeepsOrder(q);
        assert AllPushed(h) == AllPushed(h[..|h| - 1]) + [];
      }
    }
  }

  lemma PushKeepsOrder(q: Queue, image: seq<Byte>)
    requires |q.waiting| <= QUEUE_SIZE
    ensures var r := Push(q, image);
            |r.waiting| <= QUEUE_SIZE && Images(r.left) + r.waiting == Images(q.left) + (q.waiting + [image])
  {
    hide Images;
    if |q.waiting| == QUEUE_SIZE {
      OldestLeaves(q, Dropped(q.waiting[0]));
      var t := q.waiting[1..];
      assert Images(q.left + [Dropped(q.waiting[0])]) + (t + [image]) ==
             Images(q.left + [Dropped(q.waiting[0])]) + t + [image];
      assert Images(q.left) + q.waiting + [image] == Images(q.left) + (q.waiting + [image]);
    }
  }

  lemma TakeKeepsOrder(q: Queue)
    ensures var r := Take(q);
            |r.waiting| <= |q.waiting| && Images(r.left) + r.waiting == Images(q.left) + q.waiting
  {
    hide Images;
    if q.waiting != [] {
      OldestLeaves(q, Delivered(q.waiting[0]));
    }
  }

  lemma OldestLeaves(q: Queue, l: Left)
    requires q.waiting != [] && l.image == q.waiting[0]
    ensures Images(q.left + [l]) + q.waiting[1..] == Images(q.left) + q.waiting
  {
    assert Images(q.left + [l]) == Images(q.left) + [q.waiting[0]];
    assert q.waiting == [q.waiting[0]] + q.waiting[1..];
  }

  function DroppedCount(left: seq<Left>): nat {
    if left == [] then 0 else DroppedCount(left[..|left| - 1]) + if left[|left| - 1].Dropped? then 1 else 0
  }

  /** The image pushed at `i` meets 30 that wait. */
  predicate MeetsFull(h: seq<QueueEvent>, i: nat)
    requires i < |h|
  {
    h[i].Pushed? && |QueueAfter(h[..i]).waiting| == 30
  }

  function FullCount(h: seq<QueueEvent>): nat {
    if h == [] then 0 else FullCount(h[..|h| - 1]) + if MeetsFull(h, |h| - 1) then 1 else 0
  }

  function TakenCount(h: seq<QueueEvent>): nat {
    if h == [] then 0
    else TakenCount(h[..|h| - 1]) + if h[|h| - 1].Taken? && QueueAfter(h[..|h| - 1]).waiting != [] then 1 else 0
  }

  /** In every run as many images are dropped as were pushed while 30 waited, and the rest that left were taken. */
  lemma {:induction false} DropsOnlyWhenFull(h: seq<QueueEvent>)
    ensures var q := QueueAfter(h); DroppedCount(q.left) == FullCount(h) && |q.left| == FullCount(h) + TakenCount(h)
  {
    if h == [] {
    } else {
      var q, e := QueueAfter(h[..|h| - 1]), h[|h| - 1];
      OldestLeaveFirst(h[..|h| - 1]);
      DropsOnlyWhenFull(h[..|h| - 1]);
      if q.waiting != [] {
        var x, y := q.left + [Dropped(q.waiting[0])], q.left + [Delivered(q.waiting[0])];
        assert x[..|x| - 1] == q.left && y[..|y| - 1] == q.left;
      }
    }
  }
}
