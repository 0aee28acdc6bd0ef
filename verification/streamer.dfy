/**
  Feeding FFmpeg: a streamer holds payloads back until it has seen the start of
  a decodable picture, then passes everything on. A soft reset, or a write that
  meets a lost process or a broken pipe, makes it wait again. The end of a
  process's output does not: the next write starts a new process and feeds it
  from the middle of the stream.
 */
module Streamer {
  import opened Bytes
  import opened Hevc

  const VPS_PREFIX: seq<Byte> := [0x00, 0x00, 0x00, 0x01, 0x40]
  const IDR_W_RADL_PREFIX: seq<Byte> := [0x00, 0x00, 0x00, 0x01, 0x26]
  const IDR_N_LP_PREFIX: seq<Byte> := [0x00, 0x00, 0x00, 0x01, 0x28]
  const CRA_PREFIX: seq<Byte> := [0x00, 0x00, 0x00, 0x01, 0x2a]
  const IDR_PREFIXES: seq<seq<Byte>> := [IDR_W_RADL_PREFIX, IDR_N_LP_PREFIX, CRA_PREFIX]
  const LAST_RESORT := 50000

  /**
    What is looked for are NAL units behind a four-byte start code: VPS (type 32), IDR_W_RADL (19),
    IDR_N_LP (20) and CRA_NUT (21) of ITU-T H.265, Table 7-1.
   */
  lemma PrefixesAreNals()
    ensures forall p <- [VPS_PREFIX] + IDR_PREFIXES :: |p| == 5 && p[..4] == [0x00, 0x00, 0x00, 0x01] && p[4] % 2 == 0
    ensures NalType(VPS_PREFIX[4]) == 32 && NalType(IDR_W_RADL_PREFIX[4]) == 19
    ensures NalType(IDR_N_LP_PREFIX[4]) == 20 && NalType(CRA_PREFIX[4]) == 21
  {}

  // ----- where to start ---------------------------------------------------------------

  predicate KeyPictureAt(buf: seq<Byte>, i: int) {
    MatchAt(buf, IDR_W_RADL_PREFIX, i) || MatchAt(buf, IDR_N_LP_PREFIX, i) || MatchAt(buf, CRA_PREFIX, i)
  }

  ghost predicate First(r: int, at: int -> bool) {
    0 <= r && at(r) && forall j :: 0 <= j < r ==> !at(j)
  }

  /**
    `r` is where a buffer is to be sent from: the first VPS; failing that the first IDR or CRA;
    failing that the front, once the buffer is long; and -1 while it is better to wait.
   */
  ghost predicate StartsAt(buf: seq<Byte>, r: int) {
    if exists i :: MatchAt(buf, VPS_PREFIX, i) then First(r, i => MatchAt(buf, VPS_PREFIX, i))
    else if exists i :: KeyPictureAt(buf, i) then First(r, i => KeyPictureAt(buf, i))
    else r == if |buf| >= 50000 then 0 else -1
  }

  function Earlier(a: int, b: int): int {
    if b != -1 && (a == -1 || b < a) then b else a
  }

  /** The earliest match of the first `n` picture prefixes, else -1. */
  function EarliestOf(buf: seq<Byte>, n: nat): (r: int)
    requires n <= |IDR_PREFIXES|
    ensures -1 <= r <= |buf|
  {
    if n == 0 then -1 else Earlier(EarliestOf(buf, n - 1), Find(buf, IDR_PREFIXES[n - 1], 0))
  }

  function StartIndex(buf: seq<Byte>): (r: int)
    ensures -1 <= r <= |buf|
  {
    var vps := Find(buf, VPS_PREFIX, 0);
    if vps != -1 then vps
    else
      var key := EarliestOf(buf, |IDR_PREFIXES|);
      if key != -1 then key else if |buf| >= LAST_RESORT then 0 else -1
  }

  lemma StartIndexMeaning(buf: seq<Byte>)
    ensures StartsAt(buf, StartIndex(buf))
  {
    hide Find, MatchAt;
    var a, b, c := Find(buf, IDR_W_RADL_PREFIX, 0), Find(buf, IDR_N_LP_PREFIX, 0), Find(buf, CRA_PREFIX, 0);
    assert EarliestOf(buf, 1) == Earlier(-1, a);
    assert EarliestOf(buf, 2) == Earlier(Earlier(-1, a), b);
    var key := EarliestOf(buf, 3);
    assert key == Earlier(Earlier(Earlier(-1, a), b), c);
    OnlyNonNegative(buf);
    if key != -1 {
      assert KeyPictureAt(buf, key);
    }
  }

  lemma OnlyNonNegative(buf: seq<Byte>)
    ensures forall pat: seq<Byte>, i :: MatchAt(buf, pat, i) ==> 0 <= i
  {}

  method ChooseStart(buf: seq<Byte>) returns (startIdx: int)
    ensures startIdx == StartIndex(buf)
  {
    hide Find;
    startIdx := -1;
    var vpsIdx := Find(buf, VPS_PREFIX, 0);
    if vpsIdx != -1 {
      startIdx := vpsIdx;
    } else {
      for i := 0 to |IDR_PREFIXES|
        invariant startIdx == EarliestOf(buf, i)
      {
        var idx := Find(buf, IDR_PREFIXES[i], 0);
        if idx != -1 && (startIdx == -1 || idx < startIdx) {
          startIdx := idx;
        }
      }
      if startIdx == -1 && |buf| >= LAST_RESORT {
        startIdx := 0;
      }
    }
  }

  // ----- the streamer ---------------------------------------------------------------------

  datatype Proc = NoProc | Up | Exited

  /** `stdin` is everything written to the latest process. */
  datatype State = State(
    h265: bool, gotKeyframe: bool, started: bool, proc: Proc, preBuf: seq<Byte>, stdin: seq<Byte>)

  datatype Event =
    /** `survives`: a process started by this call is still up when it is written to; `pipeOk`: so is the pipe. */
    | Write(frame: seq<Byte>, survives: bool, pipeOk: bool)
    | SoftReset
    | ProcessExits
    | ReaderEnds

  ghost predicate Kept(s: State, e: Event) {
    e.Write? && !(s.h265 && DroppedAsRasl(e.frame))
  }

  ghost function Step(s: State, e: Event): State {
    match e
    case SoftReset =>
      if s.started then s.(gotKeyframe := false, preBuf := [])
      else Init(s.h265)
    case ProcessExits => if s.proc.Up? then s.(proc := Exited) else s
    case ReaderEnds => s.(started := false)
    case Write(frame, survives, pipeOk) =>
      if !Kept(s, e) then s
      else if s.gotKeyframe then Passed(s, frame, survives, pipeOk)
      else
        var buf := s.preBuf + frame;
        var start := StartIndex(buf);
        if start == -1 then s.(preBuf := buf)
        else Passed(s.(preBuf := [], gotKeyframe := true), buf[start..], survives, pipeOk)
  }

  /** Starts a process when none is believed to run. */
  function Started(s: State, survives: bool): State {
    if s.started then s else s.(started := true, proc := if survives then Up else Exited, stdin := [])
  }

  /** Sees to it that there is a process, then writes or gives up. */
  function Passed(s: State, data: seq<Byte>, survives: bool, pipeOk: bool): State {
    var t := Started(s, survives);
    if !t.proc.Up? || !pipeOk then t.(started := false, gotKeyframe := false)
    else t.(stdin := t.stdin + data)
  }

  class LiveStreamer {
    const h265: bool
    var gotKeyframe: bool
    var started: bool
    var proc: Proc
    var preBuf: seq<Byte>
    var stdin: seq<Byte>

    constructor (h265: bool)
      ensures Value() == Init(h265)
    {
      this.h265 := h265;
      gotKeyframe, started, proc, preBuf, stdin := false, false, NoProc, [], [];
    }

    ghost function Value(): State
      reads this
    {
      State(h265, gotKeyframe, started, proc, preBuf, stdin)
    }

    method Start(survives: bool)
      modifies this
      ensures Value() == Started(old(Value()), survives)
    {
      if started {
        return;
      }
      proc := if survives then Up else Exited;
      stdin := [];
      started := true;
    }

    method WriteFrame(payload: seq<Byte>, survives: bool, pipeOk: bool)
      modifies this
      ensures Value() == Step(old(Value()), Write(payload, survives, pipeOk))
    {
      hide DroppedAsRasl, StartIndex;
      if h265 {
        var rasl := IsH265Rasl(payload);
        if rasl {
          return;
        }
      }
      var frame := payload;
      if !gotKeyframe {
        preBuf := preBuf + frame;
        var startIdx := ChooseStart(preBuf);
        if startIdx == -1 {
          return;
        }
        frame := preBuf[startIdx..];
        preBuf := [];
        gotKeyframe := true;
        Start(survives);
      }
      if !started {
        Start(survives);
      }
      if proc.NoProc? || proc.Exited? {
        started := false;
        gotKeyframe := false;
        return;
      }
      if pipeOk {
        stdin := stdin + frame;
      } else {
        started := false;
        gotKeyframe := false;
      }
    }

    /** The manager's soft reset; an idle streamer is stopped and replaced by a new one. */
    method ResetSoftly()
      modifies this
      ensures Value() == Step(old(Value()), SoftReset)
    {
      if started {
        gotKeyframe := false;
        preBuf := [];
      } else {
        gotKeyframe, started, proc, preBuf, stdin := false, false, NoProc, [], [];
      }
    }
  }

  // ----- laws -----------------------------------------------------------------------------------

  function Init(h265: bool): State {
    State(h265, false, false, NoProc, [], [])
  }

  ghost function After(h265: bool, h: seq<Event>): State {
    if h == [] then Init(h265) else Step(After(h265, h[..|h| - 1]), h[|h| - 1])
  }

  /** The event has something to send: a payload while passing on, or the one that ends the wait. */
  ghost predicate Sends(s: State, e: Event) {
    Kept(s, e) && (s.gotKeyframe || StartIndex(s.preBuf + e.frame) != -1)
  }

  /**
    The event makes the streamer wait for a picture from scratch: a soft reset, or a payload to be
    sent when the process is not up or the pipe is broken.
   */
  ghost predicate Interrupts(s: State, e: Event) {
    e.SoftReset? || (Sends(s, e) && !((if s.started then s.proc.Up? else e.survives) && e.pipeOk))
  }

  /** Nothing else does: a payload that has a process and a pipe is sent, and the streamer goes on sending. */
  lemma InterruptedIff(s: State, e: Event)
    ensures !Interrupts(s, e) ==> (s.gotKeyframe || Sends(s, e) <==> Step(s, e).gotKeyframe)
    ensures Interrupts(s, e) ==> !Step(s, e).gotKeyframe
    ensures Interrupts(s, e) ==> Step(s, e).preBuf == if e.SoftReset? || !s.gotKeyframe then [] else s.preBuf
  {
    hide StartIndex, DroppedAsRasl;
  }

  /** A payload of RASL pictures alone leaves an H.265 streamer as it was; every other payload is held or sent. */
  lemma PayloadHeldOrSent(s: State, frame: seq<Byte>, survives: bool)
    ensures s.h265 && DroppedAsRasl(frame) ==> Step(s, Write(frame, survives, true)) == s
    ensures !(s.h265 && DroppedAsRasl(frame)) ==>
              var t, buf := Step(s, Write(frame, survives, true)), s.preBuf + frame;
              if s.gotKeyframe then
                s.started && s.proc.Up? ==> t == s.(stdin := s.stdin + frame)
              else if StartIndex(buf) == -1 then t == s.(preBuf := buf)
              else s.started && s.proc.Up? ==>
                t == s.(gotKeyframe := true, preBuf := [], stdin := s.stdin + buf[StartIndex(buf)..])
  {
    hide StartIndex, DroppedAsRasl;
  }

  /** A process that has exited is found out by the next payload to be sent, which is lost, and the streamer waits. */
  lemma ExitIsFoundOut(s: State, e: Event)
    requires s.started && s.proc.Up? && Sends(s, e)
    ensures var t := Step(Step(s, ProcessExits), e); !t.gotKeyframe && !t.started && t.stdin == s.stdin
  {
    hide StartIndex, DroppedAsRasl;
  }

  /** Only the start of a process, and the replacement of an idle streamer, end the input of the process before. */
  lemma InputOnlyGrows(s: State, e: Event)
    requires !Starts(s, e) && (e.SoftReset? ==> s.started)
    ensures s.stdin <= Step(s, e).stdin
    ensures Step(s, e).proc == if e.ProcessExits? && s.proc.Up? then Exited else s.proc
    ensures e.SoftReset? ==> Step(s, e).started
  {
    hide StartIndex, DroppedAsRasl;
  }

  /** The event starts a process. */
  ghost predicate Starts(s: State, e: Event) {
    Sends(s, e) && !s.started
  }

  /**
    What matters of a history. `kept`: all payloads kept since the last interruption; `earlier`:
    what the latest process had been sent by then; `began`: how much had been kept when sending
    began again; `isNew`: the latest process was started since; `atPicture`: the write that started
    it was waiting for a picture; `joined`: how much had been kept when it was started, if not.
   */
  datatype Log = Log(
    kept: seq<Byte>, earlier: seq<Byte>, began: int, isNew: bool, atPicture: bool, joined: int)

  ghost function Since(h265: bool, h: seq<Event>): Log {
    if h == [] then Log([], [], 0, false, false, 0)
    else LogStep(After(h265, h[..|h| - 1]), Since(h265, h[..|h| - 1]), h[|h| - 1])
  }

  ghost function LogStep(s: State, l: Log, e: Event): Log {
    var m := if Starts(s, e) then
               l.(earlier := [], isNew := true, atPicture := !s.gotKeyframe, joined := |l.kept|)
             else l;
    if Interrupts(s, e) then m.(kept := [], earlier := Step(s, e).stdin, isNew := false)
    else if !Kept(s, e) then l
    else
      var kept := l.kept + e.frame;
      m.(kept := kept, began := if !s.gotKeyframe then |kept| else l.began)
  }

  /** Where in the kept payloads sending should have begun. */
  ghost function RightStart(l: Log): int
    requires 0 <= l.began <= |l.kept|
  {
    StartIndex(l.kept[..l.began])
  }

  /**
    While waiting, everything kept is held and nothing more has been sent. While passing on, the
    latest process has been sent, without a gap and to the last byte, what was kept from the right
    start on; or, if a write that was already passing payloads on started it, from that write on.
   */
  ghost predicate Faithful(s: State, l: Log) {
    if !s.gotKeyframe then
      s.preBuf == l.kept && s.stdin == l.earlier && !l.isNew && StartIndex(s.preBuf) == -1
    else
      && s.preBuf == [] && 0 <= l.began <= |l.kept| && 0 <= RightStart(l) < l.began
      && (l.isNew ==> l.earlier == [])
      && (l.isNew && !l.atPicture ==> l.began <= l.joined <= |l.kept|)
      && s.stdin == l.earlier + l.kept[if l.isNew && !l.atPicture then l.joined else RightStart(l)..]
  }

  lemma {:induction false} AlwaysFaithful(h265: bool, h: seq<Event>)
    ensures Faithful(After(h265, h), Since(h265, h))
  {
    hide StartIndex, Kept, Faithful, LogStep, Step;
    if h == [] {
      FaithfulAtFirst(h265);
    } else {
      var g, e := h[..|h| - 1], h[|h| - 1];
      AlwaysFaithful(h265, g);
      StepFaithful(After(h265, g), Since(h265, g), e);
    }
  }

  lemma FaithfulAtFirst(h265: bool)
    ensures Faithful(Init(h265), Log([], [], 0, false, false, 0))
  {
    NothingToStart();
  }

  lemma NothingToStart()
    ensures StartIndex([]) == -1
  {
    assert EarliestOf([], 2) == Earlier(EarliestOf([], 1), -1) == -1;
  }

  /** A start lies before the end of what it was found in. */
  lemma StartInside(buf: seq<Byte>)
    ensures StartIndex(buf) < |buf| || StartIndex(buf) == -1
  {
    hide Find, MatchAt;
    StartIndexMeaning(buf);
    PatternsFit(buf);
  }

  lemma PatternsFit(buf: seq<Byte>)
    ensures forall i :: MatchAt(buf, VPS_PREFIX, i) || KeyPictureAt(buf, i) ==> i < |buf|
  {}

  lemma StepFaithful(s: State, l: Log, e: Event)
    requires Faithful(s, l)
    ensures Faithful(Step(s, e), LogStep(s, l, e))
  {
    hide StartIndex, DroppedAsRasl;
    NothingToStart();
    if Kept(s, e) && Step(s, e).gotKeyframe {
      hide Faithful;
      if s.gotKeyframe {
        PassingStaysFaithful(s, l, e);
      } else {
        BeginsFaithful(s, l, e);
      }
    }
  }

  lemma BeginsFaithful(s: State, l: Log, e: Event)
    requires Faithful(s, l) && Kept(s, e) && !s.gotKeyframe && Step(s, e).gotKeyframe
    ensures Faithful(Step(s, e), LogStep(s, l, e))
  {
    hide StartIndex, DroppedAsRasl;
    var buf := s.preBuf + e.frame;
    StartInside(buf);
    assert buf[..|buf|] == buf;
  }

  lemma PassingStaysFaithful(s: State, l: Log, e: Event)
    requires Faithful(s, l) && Kept(s, e) && s.gotKeyframe && Step(s, e).gotKeyframe
    ensures Faithful(Step(s, e), LogStep(s, l, e))
  {
    hide StartIndex, DroppedAsRasl, Faithful;
    if Starts(s, e) {
      JoinsFaithful(s, l, e.frame);
      assert [] + e.frame == e.frame;
    } else {
      GoesOnFaithful(s, l, e.frame);
    }
  }

  lemma GoesOnFaithful(s: State, l: Log, frame: seq<Byte>)
    requires Faithful(s, l) && s.gotKeyframe
    ensures Faithful(s.(stdin := s.stdin + frame), l.(kept := l.kept + frame))
  {
    hide StartIndex;
    var buf := l.kept + frame;
    assert buf[..l.began] == l.kept[..l.began];
    var from := if l.isNew && !l.atPicture then l.joined else RightStart(l);
    assert l.kept[from..] + frame == buf[from..];
  }

  lemma JoinsFaithful(s: State, l: Log, frame: seq<Byte>)
    requires Faithful(s, l) && s.gotKeyframe
    ensures Faithful(
              s.(started := true, proc := Up, stdin := frame),
              l.(kept := l.kept + frame, earlier := [], isNew := true, atPicture := false, joined := |l.kept|))
  {
    hide StartIndex;
    var buf := l.kept + frame;
    assert buf[..l.began] == l.kept[..l.began];
    assert buf[|l.kept|..] == frame;
  }

  /**
    While payloads are passed to a process started since the last interruption: its input is all
    that was kept from the right start on if and only if the write that started it was waiting for
    a picture. Otherwise it is what was kept from that write on, and everything from the right
    start up to there is missing.
   */
  ghost predicate InputBeginsRightIff(s: State, l: Log) {
    s.gotKeyframe && l.isNew ==>
      && 0 <= l.began <= |l.kept| && 0 <= RightStart(l) < l.began
      && (s.stdin == l.kept[RightStart(l)..] <==> l.atPicture)
      && (!l.atPicture ==> l.began <= l.joined <= |l.kept| && s.stdin == l.kept[l.joined..])
  }

  /** This holds in every run. */
  lemma {:induction false} RightStartIff(h265: bool, h: seq<Event>)
    ensures InputBeginsRightIff(After(h265, h), Since(h265, h))
  {
    hide After, Since, Faithful, InputBeginsRightIff;
    AlwaysFaithful(h265, h);
    FaithfulBeginsRight(After(h265, h), Since(h265, h));
  }

  lemma FaithfulBeginsRight(s: State, l: Log)
    requires Faithful(s, l)
    ensures InputBeginsRightIff(s, l)
  {
    hide StartIndex;
    if s.gotKeyframe && l.isNew {
      var from := if l.atPicture then RightStart(l) else l.joined;
      assert [] + l.kept[from..] == l.kept[from..];
    }
  }

  // ----- what a process is sent first -----------------------------------------------------------

  /** The bytes begin with a VPS, an IDR or a CRA, or with a long stretch without any of them. */
  ghost predicate Decodable(input: seq<Byte>) {
    exists n :: 0 < n <= |input| && StartIndex(input[..n]) == 0
  }

  /** What is sent from its start index on starts with what was looked for. */
  lemma SentFromStart(buf: seq<Byte>)
    requires StartIndex(buf) != -1
    ensures StartIndex(buf[StartIndex(buf)..]) == 0
  {
    hide Find, MatchAt;
    var k := StartIndex(buf);
    Shifted(buf, k, VPS_PREFIX);
    if Find(buf, VPS_PREFIX, 0) == -1 {
      ThreePrefixes(buf);
      ThreePrefixes(buf[k..]);
      Shifted(buf, k, IDR_W_RADL_PREFIX);
      Shifted(buf, k, IDR_N_LP_PREFIX);
      Shifted(buf, k, CRA_PREFIX);
      assert k == 0 ==> buf[k..] == buf;
    }
  }

  lemma Shifted(buf: seq<Byte>, k: nat, pat: seq<Byte>)
    requires k <= |buf| && (Find(buf, pat, 0) == -1 || k <= Find(buf, pat, 0))
    ensures Find(buf[k..], pat, 0) == if Find(buf, pat, 0) == -1 then -1 else Find(buf, pat, 0) - k
  {
    hide Find, MatchAt;
    FindSuffix(buf, k, pat, 0);
    FindPast(buf, pat, k);
  }

  lemma ThreePrefixes(buf: seq<Byte>)
    ensures EarliestOf(buf, 3) == Earlier(Earlier(Earlier(-1, Find(buf, IDR_W_RADL_PREFIX, 0)),
                                                  Find(buf, IDR_N_LP_PREFIX, 0)), Find(buf, CRA_PREFIX, 0))
  {
    hide Find;
    assert EarliestOf(buf, 1) == Earlier(-1, Find(buf, IDR_W_RADL_PREFIX, 0));
    assert EarliestOf(buf, 2) == Earlier(EarliestOf(buf, 1), Find(buf, IDR_N_LP_PREFIX, 0));
  }

  /** If the write that started the latest process was waiting for a picture, its input begins with one. */
  ghost predicate PictureFirst(s: State, l: Log) {
    l.atPicture && (s.started || s.stdin != []) ==> Decodable(s.stdin)
  }

  lemma DecodableGrows(input: seq<Byte>, more: seq<Byte>)
    requires Decodable(input)
    ensures Decodable(input + more)
  {
    hide StartIndex;
    var n :| 0 < n <= |input| && StartIndex(input[..n]) == 0;
    assert (input + more)[..n] == input[..n];
  }

  lemma StepPictureFirst(s: State, l: Log, e: Event)
    requires PictureFirst(s, l)
    ensures PictureFirst(Step(s, e), LogStep(s, l, e))
  {
    hide StartIndex, DroppedAsRasl, Decodable;
    if Kept(s, e) && !Interrupts(s, e) {
      var buf := s.preBuf + e.frame;
      if s.gotKeyframe {
        if Decodable(s.stdin) {
          DecodableGrows(s.stdin, e.frame);
        }
      } else if StartIndex(buf) != -1 {
        var sent := buf[StartIndex(buf)..];
        SentDecodable(buf);
        assert [] + sent == sent;
        if Decodable(s.stdin) {
          DecodableGrows(s.stdin, sent);
        }
      }
    }
  }

  lemma SentDecodable(buf: seq<Byte>)
    requires StartIndex(buf) != -1
    ensures Decodable(buf[StartIndex(buf)..])
  {
    hide StartIndex;
    var sent := buf[StartIndex(buf)..];
    StartInside(buf);
    SentFromStart(buf);
    assert sent[..|sent|] == sent;
  }

  /** This, too, holds in every run. */
  lemma {:induction false} InputStartsWithPicture(h265: bool, h: seq<Event>)
    ensures PictureFirst(After(h265, h), Since(h265, h))
  {
    hide PictureFirst, Step, LogStep;
    if h == [] {
      NoProcessAtFirst(h265);
    } else {
      InputStartsWithPicture(h265, h[..|h| - 1]);
      StepPictureFirst(After(h265, h[..|h| - 1]), Since(h265, h[..|h| - 1]), h[|h| - 1]);
    }
  }

  lemma NoProcessAtFirst(h265: bool)
    ensures PictureFirst(Init(h265), Log([], [], 0, false, false, 0))
  {}

  /**
    A restart in the middle: the output of a process ends while payloads are passed on, nothing
    makes the streamer wait, and the next process is fed a payload that nothing can start from.
   */
  lemma RestartMissesPicture(h265: bool)
    ensures var g := [Write(VPS_PREFIX, true, true), ReaderEnds];
            var e := Write([0xAA], true, true);
            && After(h265, g).stdin == VPS_PREFIX && !Interrupts(After(h265, g), e)
            && After(h265, g + [e]).stdin == [0xAA] && After(h265, g + [e]).proc.Up?
            && After(h265, g + [e]).gotKeyframe && !Decodable([0xAA])
  {
    hide DroppedAsRasl, StartIndex;
    NeitherIsRasl();
    VpsStarts();
    var a, b, e := Write(VPS_PREFIX, true, true), ReaderEnds, Write([0xAA], true, true);
    var g := [a, b];
    var passing := State(h265, true, true, Up, [], VPS_PREFIX);
    var nothing: seq<Byte> := [];
    assert nothing + VPS_PREFIX == VPS_PREFIX == VPS_PREFIX[0..];
    assert Step(Init(h265), a) == passing;
    assert [a][..0] == [] && After(h265, [a]) == passing;
    assert g[..1] == [a];
    assert After(h265, g) == passing.(started := false);
    assert (g + [e])[..2] == g;
    assert nothing + [0xAA] == [0xAA];
    assert [0xAA as Byte][..1] == [0xAA];
  }

  lemma NeitherIsRasl()
    ensures !DroppedAsRasl(VPS_PREFIX) && !DroppedAsRasl([0xAA])
  {
    forall p | Nal(VPS_PREFIX, p)
      ensures !IsRasl(TypeAt(VPS_PREFIX, p))
    {
      assert p == 1;
    }
  }

  lemma VpsStarts()
    ensures StartIndex(VPS_PREFIX) == 0 && StartIndex([0xAA]) == -1
  {
    hide MatchAt, Find;
    assert MatchAt(VPS_PREFIX, VPS_PREFIX, 0) by { WholeMatches(VPS_PREFIX); }
    FindIs(VPS_PREFIX, VPS_PREFIX, 0, 0);
    TooShort(VPS_PREFIX);
    TooShort(IDR_W_RADL_PREFIX);
    TooShort(IDR_N_LP_PREFIX);
    TooShort(CRA_PREFIX);
    ThreePrefixes([0xAA]);
  }

  lemma WholeMatches(pat: seq<Byte>)
    ensures MatchAt(pat, pat, 0)
  {
    assert pat[0..|pat|] == pat;
  }

  lemma TooShort(pat: seq<Byte>)
    requires |pat| == 5
    ensures Find([0xAA], pat, 0) == -1
  {}

  /** A waiting streamer holds less than the last-resort amount and no picture it could start from. */
  lemma WaitingHoldsNoPicture(h265: bool, h: seq<Event>)
    requires !After(h265, h).gotKeyframe
    ensures var b := After(h265, h).preBuf;
            && |b| < 50000
            && forall i :: !MatchAt(b, VPS_PREFIX, i) && !KeyPictureAt(b, i)
  {
    hide After, Since, StartIndex, MatchAt;
    AlwaysFaithful(h265, h);
    StartIndexMeaning(After(h265, h).preBuf);
  }
}
