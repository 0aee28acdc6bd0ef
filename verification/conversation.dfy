/**
  Whole conversations with the Python server: which of the frames on the wire
  are handled, and what a stray 0x7E does. The receiver pairs flags, so a frame
  is in step exactly when the strays before it are even in number.
 */
module Conversations {
  import opened Bytes
  import opened Escaping
  import opened Framer
  import opened Jt808
  import opened Reading
  import opened Traffic
  import Hex

  // ----- what a buffer comes to ---------------------------------------------------

  /** The messages handled when a buffer is drained, and the bytes that stay in it. */
  function Handle(buf: seq<Byte>): Drained<Message> {
    Drained(Messages(Drain(buf).items), Drain(buf).rest)
  }

  lemma HandleFrame(f: seq<Byte>, t: seq<Byte>)
    requires IsFrame(f)
    ensures Handle(f + t) == Prepend(MessageIn(f), Handle(t))
  {
    hide Drain, IsFrame, MessageIn;
    DrainFrame(f, t);
    assert ([f] + Drain(t).items)[1..] == Drain(t).items;
  }

  lemma HandleNoise(noise: seq<Byte>, t: seq<Byte>)
    requires FLAG !in noise
    ensures Handle(noise + t) == Handle(t)
  {
    hide Drain;
    DrainNoise(noise, t);
  }

  lemma EncloseIsFrame(content: seq<Byte>)
    ensures IsFrame(Enclose(content))
  {
    hide Escape, Canonical;
    EscapeCanonical(content);
    assert Enclose(content)[1..|Enclose(content)| - 1] == Escape(content);
  }

  /** Two flags in a row are an empty frame. */
  lemma HandleGap(t: seq<Byte>)
    ensures Handle([FLAG, FLAG] + t) == Handle(t)
  {
    hide Drain, Handle;
    HandleFrame([FLAG, FLAG], t);
    PrependNothing(Handle(t));
  }

  /** A frame behind strays is seen if they are even in number; otherwise its closing flag opens what comes next. */
  lemma {:induction false} HandleStrays(n: nat, content: seq<Byte>, t: seq<Byte>)
    ensures Handle(Strays(n) + Enclose(content) + t) ==
            if n % 2 == 0 then Prepend(MessageIn(Enclose(content)), Handle(t)) else Handle([FLAG] + t)
  {
    hide Handle, MessageIn, Escape;
    var f := Enclose(content);
    if n == 0 {
      EncloseIsFrame(content);
      HandleFrame(f, t);
      assert Strays(n) + f + t == f + t;
    } else if n == 1 {
      EscapeCanonical(content);
      assert Strays(1) == [FLAG];
      assert Strays(n) + f + t == [FLAG, FLAG] + (Escape(content) + ([FLAG] + t));
      HandleGap(Escape(content) + ([FLAG] + t));
      HandleNoise(Escape(content), [FLAG] + t);
    } else {
      assert Strays(n) == [FLAG] + ([FLAG] + Strays(n - 2));
      assert Strays(n) + f + t == [FLAG, FLAG] + (Strays(n - 2) + f + t);
      HandleGap(Strays(n - 2) + f + t);
      HandleStrays(n - 2, content, t);
    }
  }

  // ----- traffic ------------------------------------------------------------------------

  /** The messages handled out of a stream cut into reads, and the bytes buffered in the end. */
  function HandleReads(chunks: seq<seq<Byte>>): Drained<Message> {
    var d := ReadAll(Drain, [], chunks);
    Drained(Messages(d.items), d.rest)
  }

  /** It does not depend on the cuts. */
  lemma HandleAtOnce(chunks: seq<seq<Byte>>)
    ensures HandleReads(chunks) == Handle(Flatten(chunks))
  {
    hide Drain, Flatten, Messages;
    DrainNone([]);
    AnyCuts([], chunks);
    assert [] + Flatten(chunks) == Flatten(chunks);
    PrependNothing(ReadAll(Drain, [], chunks));
  }

  /** What is taken for a frame when noise lies between a flag that opens and the next one. */
  function Between(noise: seq<Byte>): seq<Byte> {
    [FLAG] + noise + [FLAG]
  }

  /**
    The messages handled out of one piece when `before` strays came before it: the frame's own when
    the strays before it are even in number, and whatever the noise parses to when it lies between
    the closing flag of a frame that was missed and the next flag.
   */
  function Seen(before: nat, p: Piece): seq<Message> {
    (if before % 2 == 0 then [] else MessageIn(Between(p.noise))) +
    (if (before + p.strays) % 2 == 0 then MessageIn(Enclose(p.content)) else [])
  }

  function Handled(before: nat, pieces: seq<Piece>): seq<Message>
    decreases |pieces|
  {
    if pieces == [] then []
    else Seen(before, pieces[0]) + Handled(before + pieces[0].strays, pieces[1..])
  }

  lemma HandledStep(before: nat, ps: seq<Piece>)
    requires ps != []
    ensures Handled(before, ps) == Seen(before, ps[0]) + Handled(before + ps[0].strays, ps[1..])
  {
    hide Seen;
  }

  lemma HandlePiece(before: nat, p: Piece, t: seq<Byte>)
    requires FLAG !in p.noise
    ensures var n := before + p.strays;
            Handle(Strays(before % 2) + (p.noise + Strays(p.strays) + Enclose(p.content) + t)) ==
            Prepend(Seen(before, p), Handle(Strays(n % 2) + t))
  {
    hide Handle, MessageIn, Escape, Strays;
    var f, n := Enclose(p.content), before + p.strays;
    var x := p.noise + Strays(p.strays) + f + t;
    FewStrays();
    assert [] + t == t;
    PrependNothing(Handle([FLAG] + t));
    if before % 2 == 0 {
      assert Strays(before % 2) + x == p.noise + (Strays(p.strays) + f + t);
      HandleNoise(p.noise, Strays(p.strays) + f + t);
      HandleStrays(p.strays, p.content, t);
      assert [] + MessageIn(f) == MessageIn(f);
    } else {
      HandleMissed(p, t);
    }
  }

  lemma FewStrays()
    ensures Strays(0) == [] && Strays(1) == [FLAG]
  {}

  /** The receiver is out of step: a flag is open when the piece arrives. */
  lemma HandleMissed(p: Piece, t: seq<Byte>)
    requires FLAG !in p.noise
    ensures Handle([FLAG] + (p.noise + Strays(p.strays) + Enclose(p.content) + t)) ==
            Prepend(MessageIn(Between(p.noise)) +
                    (if p.strays % 2 == 0 then [] else MessageIn(Enclose(p.content))),
                    Handle(if p.strays % 2 == 0 then [FLAG] + t else t))
  {
    hide Handle, MessageIn, Escape;
    var f, g, m := Enclose(p.content), Between(p.noise), MessageIn(Between(p.noise));
    BetweenIsFrame(p.noise);
    if p.strays == 0 {
      var y := Escape(p.content) + ([FLAG] + t);
      assert [FLAG] + (p.noise + Strays(0) + f + t) == g + y;
      HandleFrame(g, y);
      EscapeCanonical(p.content);
      HandleNoise(Escape(p.content), [FLAG] + t);
      assert m + [] == m;
    } else {
      var n := p.strays - 1;
      var y := Strays(n) + f + t;
      assert [FLAG] + (p.noise + ([FLAG] + Strays(n)) + f + t) == g + y;
      HandleFrame(g, y);
      HandleStrays(n, p.content, t);
      PrependTwice(m, MessageIn(f), Handle(t));
      assert m + [] == m;
    }
  }

  lemma BetweenIsFrame(noise: seq<Byte>)
    requires FLAG !in noise
    ensures IsFrame(Between(noise))
  {
    assert Between(noise)[1..|Between(noise)| - 1] == noise;
  }

  lemma {:induction false} HandleTraffic(before: nat, pieces: seq<Piece>, last: seq<Byte>)
    requires forall p <- pieces :: FLAG !in p.noise
    requires FLAG !in last
    ensures Handle(Strays(before % 2) + OnWire(pieces, last)) ==
            Drained(Handled(before, pieces), if (before + Total(pieces)) % 2 == 0 then [] else [FLAG] + last)
    decreases |pieces|
  {
    hide Handle, Seen, Strays, Enclose;
    if pieces == [] {
      HandleLast(before, last);
    } else {
      hide OnWire, Handled, Total;
      var n := before + pieces[0].strays;
      OnWireStep(pieces, last);
      HandledStep(before, pieces);
      TotalStep(pieces);
      HandlePiece(before, pieces[0], OnWire(pieces[1..], last));
      HandleTraffic(n, pieces[1..], last);
      assert (before + Total(pieces)) == n + Total(pieces[1..]);
    }
  }

  lemma HandleLast(before: nat, last: seq<Byte>)
    requires FLAG !in last
    ensures Handle(Strays(before % 2) + last) == Drained([], if before % 2 == 0 then [] else [FLAG] + last)
  {
    hide Drain;
    FewStrays();
    if before % 2 == 0 {
      DrainNone(last);
      assert [] + last == last;
    } else {
      DrainOpen([FLAG] + last);
    }
  }

  /**
    For any pieces, with any contents and any strays, however they are cut into reads: exactly
    those frames are seen that have an even number of strays before them, noise is taken for a
    frame where that number is odd, and a flag stays open in the end when it is odd in all.
   */
  lemma {:induction false} HandledUnderAnyCuts(pieces: seq<Piece>, last: seq<Byte>, chunks: seq<seq<Byte>>)
    requires forall p <- pieces :: FLAG !in p.noise
    requires FLAG !in last && Flatten(chunks) == OnWire(pieces, last)
    ensures HandleReads(chunks) ==
            Drained(Handled(0, pieces), if Total(pieces) % 2 == 0 then [] else [FLAG] + last)
  {
    hide Flatten, OnWire, Handle, HandleReads;
    HandleAtOnce(chunks);
    HandleTraffic(0, pieces, last);
    FewStrays();
    assert Strays(0) + OnWire(pieces, last) == OnWire(pieces, last);
  }

  // ----- messages that were built ---------------------------------------------------------

  datatype Outgoing = Outgoing(msgId: U16, phone: string, serial: U16, body: seq<Byte>, is2019: bool)
  {
    /** The phone is hexadecimal and fits the field of the protocol version. */
    predicate Fits() {
      Hex.IsHex(phone) && |phone| <= PhoneDigits(is2019)
    }

    /** What `build_frame` puts between the flags. */
    function Content(): seq<Byte> {
      match BuildPayload(msgId, phone, serial, body, is2019)
      case Some(payload) => payload + [Xors(payload)]
      case None => []
    }

    function Received(): Message
      requires Fits()
    {
      Expected(msgId, phone, serial, body, is2019)
    }

    lemma BuiltThenHandled()
      requires Fits()
      ensures BuildFrame(msgId, phone, serial, body, is2019) == Some(Enclose(Content()))
      ensures MessageIn(Enclose(Content())) == [Received()]
    {
      hide ParseFrame, BuildPayload, Enclose, Expected, Xors;
      BuildThenParse(msgId, phone, serial, body, is2019);
    }
  }

  /** A message on its way, with what comes before its frame. */
  datatype Sending = Sending(noise: seq<Byte>, strays: nat, out: Outgoing)

  predicate AllFit(sendings: seq<Sending>) {
    forall s <- sendings :: s.out.Fits()
  }

  predicate NoStrays(sendings: seq<Sending>) {
    forall s <- sendings :: s.strays == 0
  }

  predicate Unflagged(sendings: seq<Sending>) {
    forall s <- sendings :: FLAG !in s.noise
  }

  predicate NoNoise(sendings: seq<Sending>) {
    forall s <- sendings :: s.noise == []
  }

  lemma FirstAndLater(sendings: seq<Sending>)
    requires sendings != []
    ensures AllFit(sendings) ==> sendings[0].out.Fits() && AllFit(sendings[1..])
    ensures NoStrays(sendings) ==> sendings[0].strays == 0 && NoStrays(sendings[1..])
    ensures NoNoise(sendings) ==> sendings[0].noise == [] && NoNoise(sendings[1..])
  {
    hide Outgoing.Fits;
  }

  function Pieces(sendings: seq<Sending>): (ps: seq<Piece>)
    ensures |ps| == |sendings|
    ensures forall i :: 0 <= i < |ps| ==> ps[i].noise == sendings[i].noise
  {
    if sendings == [] then []
    else [Piece(sendings[0].noise, sendings[0].strays, sendings[0].out.Content())] + Pieces(sendings[1..])
  }

  lemma PiecesStep(sendings: seq<Sending>)
    requires sendings != [] && AllFit(sendings)
    ensures var s, ps := sendings[0], Pieces(sendings);
            ps != [] && ps[0] == Piece(s.noise, s.strays, s.out.Content()) && ps[1..] == Pieces(sendings[1..])
  {
    hide ParseFrame, BuildFrame, Outgoing.Content, Outgoing.Fits;
  }

  /**
    What is handled of one sending when `before` strays came before it: its message exactly when
    the strays before the frame are even in number; and, out of step, what its noise parses to.
   */
  function Arriving(before: nat, s: Sending): seq<Message>
    requires s.out.Fits()
  {
    (if before % 2 == 0 then [] else MessageIn(Between(s.noise))) +
    (if (before + s.strays) % 2 == 0 then [s.out.Received()] else [])
  }

  function InStep(before: nat, sendings: seq<Sending>): seq<Message>
    requires AllFit(sendings)
    decreases |sendings|
  {
    if sendings == [] then []
    else Arriving(before, sendings[0]) + InStep(before + sendings[0].strays, sendings[1..])
  }

  lemma {:induction false} HandledInStep(before: nat, sendings: seq<Sending>)
    requires AllFit(sendings)
    ensures Handled(before, Pieces(sendings)) == InStep(before, sendings)
    decreases |sendings|
  {
    hide ParseFrame, BuildFrame, MessageIn, Between, Outgoing.Content, Outgoing.Received, Outgoing.Fits;
    if sendings == [] {
    } else {
      hide Handled, InStep, Pieces, AllFit, NoStrays, NoNoise;
      FirstAndLater(sendings);
      HandledInStep(before + sendings[0].strays, sendings[1..]);
      InStepLater(before, sendings);
    }
  }

  lemma InStepLater(before: nat, sendings: seq<Sending>)
    requires sendings != [] && AllFit(sendings)
    requires var n := before + sendings[0].strays;
             Handled(n, Pieces(sendings[1..])) == InStep(n, sendings[1..])
    ensures Handled(before, Pieces(sendings)) == InStep(before, sendings)
  {
    hide ParseFrame, BuildFrame, Enclose, MessageIn, Between, Handled, Seen, Arriving, InStep, Pieces;
    hide AllFit, NoStrays, NoNoise;
    hide Outgoing.Content, Outgoing.Received, Outgoing.Fits;
    FirstAndLater(sendings);
    PiecesStep(sendings);
    SeenInStep(before, sendings[0], Pieces(sendings)[0]);
    HandledStep(before, Pieces(sendings));
    InStepStep(before, sendings);
  }

  lemma SeenInStep(before: nat, s: Sending, p: Piece)
    requires s.out.Fits() && p == Piece(s.noise, s.strays, s.out.Content())
    ensures Seen(before, p) == Arriving(before, s)
  {
    hide ParseFrame, BuildFrame, MessageIn, Between, Enclose, Outgoing.Content, Outgoing.Received, Outgoing.Fits;
    s.out.BuiltThenHandled();
  }

  lemma InStepStep(before: nat, sendings: seq<Sending>)
    requires sendings != [] && AllFit(sendings)
    ensures InStep(before, sendings) ==
            Arriving(before, sendings[0]) + InStep(before + sendings[0].strays, sendings[1..])
  {
    hide Arriving, Outgoing.Fits;
  }

  /**
    Whatever strays and noise are on the wire and however it is cut into reads, exactly those
    messages are handled that have an even number of strays before them. Only noise that would be a
    message itself, and lies where the strays are odd in number, can add to them.
   */
  lemma {:induction false} ArrivesIffInStep(sendings: seq<Sending>, last: seq<Byte>, chunks: seq<seq<Byte>>)
    requires AllFit(sendings) && Unflagged(sendings)
    requires FLAG !in last && Flatten(chunks) == OnWire(Pieces(sendings), last)
    ensures HandleReads(chunks) ==
            Drained(InStep(0, sendings), if Total(Pieces(sendings)) % 2 == 0 then [] else [FLAG] + last)
  {
    hide Flatten, OnWire, HandleReads, Pieces;
    HandledUnderAnyCuts(Pieces(sendings), last, chunks);
    HandledInStep(0, sendings);
  }

  function AllReceived(sendings: seq<Sending>): (ms: seq<Message>)
    requires AllFit(sendings)
    ensures |ms| == |sendings|
  {
    if sendings == [] then [] else [sendings[0].out.Received()] + AllReceived(sendings[1..])
  }

  lemma {:induction false} NoStraysInAll(sendings: seq<Sending>)
    requires AllFit(sendings) && NoStrays(sendings)
    ensures Total(Pieces(sendings)) == 0
    decreases |sendings|
  {
    hide ParseFrame, BuildFrame, AllFit, NoStrays, NoNoise, Outgoing.Content;
    if sendings == [] {
    } else {
      hide Pieces;
      FirstAndLater(sendings);
      PiecesStep(sendings);
      NoStraysInAll(sendings[1..]);
    }
  }

  lemma NothingSent(before: nat)
    ensures InStep(before, []) == [] && AllReceived([]) == []
  {}

  /** With no strays in between, the receiver stays in step. */
  lemma {:induction false} AllArrive(before: nat, sendings: seq<Sending>)
    requires AllFit(sendings) && NoStrays(sendings) && before % 2 == 0
    ensures InStep(before, sendings) == AllReceived(sendings)
    decreases |sendings|
  {
    hide *;
    if sendings == [] {
      NothingSent(before);
    } else {
      FirstAndLater(sendings);
      AllArrive(before, sendings[1..]);
      InStepStep(before, sendings);
      QuietArrives(before, sendings[0]);
      AllReceivedStep(sendings);
    }
  }

  /** And out of step. */
  lemma {:induction false} NoneArrives(before: nat, sendings: seq<Sending>)
    requires AllFit(sendings) && NoStrays(sendings) && NoNoise(sendings) && before % 2 == 1
    ensures InStep(before, sendings) == []
    decreases |sendings|
  {
    hide *;
    if sendings == [] {
      NothingSent(before);
    } else {
      FirstAndLater(sendings);
      NoneArrives(before, sendings[1..]);
      InStepStep(before, sendings);
      QuietArrives(before, sendings[0]);
    }
  }

  lemma AllReceivedStep(sendings: seq<Sending>)
    requires sendings != [] && AllFit(sendings)
    ensures AllReceived(sendings) == [sendings[0].out.Received()] + AllReceived(sendings[1..])
  {
    hide Outgoing.Received, Outgoing.Fits;
  }

  lemma QuietArrives(before: nat, s: Sending)
    requires s.out.Fits() && (before % 2 == 0 || s.noise == [])
    ensures Arriving(before, s) == if (before + s.strays) % 2 == 0 then [s.out.Received()] else []
  {
    hide MessageIn, Between, Outgoing.Received, Outgoing.Fits;
    NothingBetween();
  }

  lemma NothingBetween()
    ensures MessageIn(Between([])) == []
  {
    assert Between([]) == [FLAG, FLAG];
  }

  /**
    However the wire is cut into reads, a receiver that starts in sync handles exactly the
    messages that were built, in order, and buffers nothing afterwards.
   */
  lemma {:induction false} EveryMessageArrives(sendings: seq<Sending>, last: seq<Byte>, chunks: seq<seq<Byte>>)
    requires AllFit(sendings) && Unflagged(sendings) && NoStrays(sendings)
    requires FLAG !in last && Flatten(chunks) == OnWire(Pieces(sendings), last)
    ensures HandleReads(chunks) == Drained(AllReceived(sendings), [])
  {
    hide Flatten, OnWire, HandleReads, Pieces, InStep, AllReceived;
    NoStraysInAll(sendings);
    AllArrive(0, sendings);
    ArrivesIffInStep(sendings, last, chunks);
  }

  /**
    `n` strays in front of messages that follow one directly behind the other: if `n` is even all
    are handled, and if it is odd none is, a flag stays open, and so the next one is out of step too.
   */
  lemma {:induction false} StraysInFrontIff(n: nat, sendings: seq<Sending>, chunks: seq<seq<Byte>>)
    requires sendings != [] && AllFit(sendings) && NoStrays(sendings) && NoNoise(sendings)
    requires Flatten(chunks) == Strays(n) + OnWire(Pieces(sendings), [])
    ensures HandleReads(chunks) == Drained(if n % 2 == 0 then AllReceived(sendings) else [], Strays(n % 2))
  {
    hide Flatten, OnWire, HandleReads, Pieces, InStep, Strays;
    var led := [sendings[0].(strays := n)] + sendings[1..];
    LedBy(n, sendings);
    LedByOnWire(n, sendings);
    ArrivesIffInStep(led, [], chunks);
    FewStrays();
  }

  lemma LedByOnWire(n: nat, sendings: seq<Sending>)
    requires sendings != [] && AllFit(sendings) && NoStrays(sendings) && NoNoise(sendings)
    ensures var led := [sendings[0].(strays := n)] + sendings[1..];
            OnWire(Pieces(led), []) == Strays(n) + OnWire(Pieces(sendings), [])
  {
    hide ParseFrame, BuildFrame, Enclose, OnWire, Pieces, Strays, Outgoing.Content, Outgoing.Fits;
    var led := [sendings[0].(strays := n)] + sendings[1..];
    assert led[1..] == sendings[1..];
    PiecesStep(sendings);
    PiecesStep(led);
    OnWireStep(Pieces(sendings), []);
    OnWireStep(Pieces(led), []);
    FewStrays();
    Regroup(Strays(n), Enclose(sendings[0].out.Content()), OnWire(Pieces(sendings[1..]), []));
  }

  lemma Regroup(a: seq<Byte>, b: seq<Byte>, c: seq<Byte>)
    ensures [] + a + b + c == a + ([] + [] + b + c)
  {}

  lemma LedBy(n: nat, sendings: seq<Sending>)
    requires sendings != [] && AllFit(sendings) && NoStrays(sendings) && NoNoise(sendings)
    ensures var led := [sendings[0].(strays := n)] + sendings[1..];
            && AllFit(led) && Total(Pieces(led)) == n
            && InStep(0, led) == if n % 2 == 0 then AllReceived(sendings) else []
  {
    var led := [sendings[0].(strays := n)] + sendings[1..];
    FitsStill(sendings, n);
    hide *;
    assert led[1..] == sendings[1..];
    FirstAndLater(sendings);
    PiecesStep(led);
    TotalStep(Pieces(led));
    InStepStep(0, led);
    QuietArrives(0, led[0]);
    NoStraysInAll(sendings[1..]);
    AllReceivedStep(sendings);
    if n % 2 == 0 {
      AllArrive(n, sendings[1..]);
    } else {
      NoneArrives(n, sendings[1..]);
    }
  }

  lemma FitsStill(sendings: seq<Sending>, n: nat)
    requires sendings != [] && AllFit(sendings)
    ensures AllFit([sendings[0].(strays := n)] + sendings[1..])
  {
    hide Outgoing.Fits;
    assert sendings[0].out.Fits();
  }
}
