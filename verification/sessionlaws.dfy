/**
  What the session tables say about the history of events, for every
  interleaving of any number of connections.
 */
module SessionLaws {
  import opened Bytes
  import opened Session
  import Jt808
  import Hex

  function After(h: seq<Event>): State {
    if h == [] then State(map[], map[], map[], map[]) else Step(After(h[..|h| - 1]), h[|h| - 1])
  }

  // ----- the history ------------------------------------------------------------------

  /** The phone a connection last named, if it has not disconnected since. */
  function CurrentPhone(h: seq<Event>, c: Conn): Option<Phone> {
    if h == [] then None
    else
      var e := h[|h| - 1];
      if e.conn != c then CurrentPhone(h[..|h| - 1], c)
      else if e.Disconnect? then None
      else Some(e.phone)
  }

  /** The event ends whatever standing the phone had: a new registration, a logout, or the loss of its connection. */
  predicate Resets(h: seq<Event>, e: Event, p: Phone) {
    || (e.Register? && e.phone == p)
    || (e.Logout? && e.phone == p)
    || (e.Disconnect? && CurrentPhone(h, e.conn) == Some(p))
  }

  /** Nothing after `i` has reset the phone. */
  predicate Undisturbed(h: seq<Event>, i: int, p: Phone) {
    0 <= i < |h| && forall j :: i < j < |h| ==> !Resets(h[..j], h[j], p)
  }

  /** The registration at `i` is the latest reset of the phone. */
  predicate RegisteredAt(h: seq<Event>, i: int, p: Phone) {
    Undisturbed(h, i, p) && h[i].Register? && h[i].phone == p
  }

  /** Event `e`, coming after `h`, presents the code of the registration that still stands. */
  ghost predicate Presents(h: seq<Event>, e: Event, p: Phone) {
    && e.Auth? && e.phone == p
    && exists i :: RegisteredAt(h, i, p) && Strip(e.presented) == AuthCode(p, h[i].suffix)
  }

  ghost predicate AuthedAt(h: seq<Event>, i: int, p: Phone) {
    Undisturbed(h, i, p) && Presents(h[..i], h[i], p)
  }

  // ----- laws ---------------------------------------------------------------------------

  lemma {:induction false} PhonesFromHistory(h: seq<Event>, c: Conn)
    ensures CurrentPhone(h, c) == if c in After(h).phones then Some(After(h).phones[c]) else None
  {
    if h == [] {
    } else {
      PhonesFromHistory(h[..|h| - 1], c);
      StepPhones(After(h[..|h| - 1]), h[|h| - 1], c);
    }
  }

  lemma StepPhones(s: State, e: Event, c: Conn)
    ensures var t := Step(s, e);
            if e.conn != c then (c in t.phones <==> c in s.phones) && (c in t.phones ==> t.phones[c] == s.phones[c])
            else if e.Disconnect? then c !in t.phones
            else c in t.phones && t.phones[c] == e.phone
  {
    hide Valid, AuthCode;
  }

  lemma UndisturbedStep(h: seq<Event>, i: int, p: Phone)
    requires h != []
    ensures var n := |h| - 1;
            Undisturbed(h, i, p) <==>
            i == n || (Undisturbed(h[..n], i, p) && !Resets(h[..n], h[n], p))
  {
    hide Resets;
    var n := |h| - 1;
    var g := h[..n];
    assert forall j :: 0 <= j < n ==> g[..j] == h[..j] && g[j] == h[j];
    if Undisturbed(h, i, p) && i < n {
      assert !Resets(h[..n], h[n], p);
    }
  }

  /** What one step does to the standing of one phone. */
  lemma StepCode(s: State, e: Event, p: Phone)
    ensures var t := Step(s, e);
            if e.Register? && e.phone == p then p in t.codes && t.codes[p] == AuthCode(p, e.suffix)
            else if (e.Logout? && e.phone == p) || (e.Disconnect? && e.conn in s.phones && s.phones[e.conn] == p) then
              p !in t.codes
            else (p in t.codes <==> p in s.codes) && (p in t.codes ==> t.codes[p] == s.codes[p])
  {
    hide Valid, AuthCode;
  }

  lemma StepAuthed(s: State, e: Event, p: Phone)
    ensures var t := Step(s, e);
            if e.Auth? && e.phone == p && Valid(s.codes, p, e.presented) then IsAuthed(t, p)
            else if (e.Register? && e.phone == p) || (e.Logout? && e.phone == p) ||
                    (e.Disconnect? && e.conn in s.phones && s.phones[e.conn] == p) then
              !IsAuthed(t, p)
            else IsAuthed(t, p) == IsAuthed(s, p)
  {
    hide Valid, AuthCode;
  }

  /**
    A code is on file exactly when the latest registration, logout or disconnect that concerns
    the phone was a registration, and then it is the code issued there.
   */
  lemma {:induction false} CodesFromHistory(h: seq<Event>, p: Phone)
    ensures p in After(h).codes <==> exists i :: RegisteredAt(h, i, p)
    ensures forall i :: RegisteredAt(h, i, p) ==> p in After(h).codes && After(h).codes[p] == AuthCode(p, h[i].suffix)
  {
    if h == [] {
      assert forall i :: !RegisteredAt(h, i, p);
    } else {
      hide Step, Undisturbed;
      var n := |h| - 1;
      var g, e := h[..n], h[n];
      CodesFromHistory(g, p);
      StepCode(After(g), e, p);
      if e.Disconnect? {
        PhonesFromHistory(g, e.conn);
      }
      forall i
        ensures RegisteredAt(h, i, p) <==>
                if i == n then e.Register? && e.phone == p else RegisteredAt(g, i, p) && !Resets(g, e, p)
      {
        UndisturbedStep(h, i, p);
        UndisturbedRange(g, i, p);
      }
      if e.Register? && e.phone == p {
        assert RegisteredAt(h, n, p);
      } else if p in After(g).codes && !Resets(g, e, p) {
        var i :| RegisteredAt(g, i, p);
        UndisturbedRange(g, i, p);
        assert RegisteredAt(h, i, p);
      }
    }
  }

  lemma UndisturbedRange(h: seq<Event>, i: int, p: Phone)
    ensures Undisturbed(h, i, p) ==> 0 <= i < |h|
  {}

  /** AUTH succeeds exactly when it presents the code of the registration that still stands. */
  lemma {:induction false} AuthSucceedsIff(h: seq<Event>, e: Event)
    requires e.Auth?
    ensures ResultOf(After(h), e) == Success <==> Presents(h, e, e.phone)
  {
    hide Strip, AuthCode, RegisteredAt, After, Step;
    CodesFromHistory(h, e.phone);
  }

  /**
    A phone is authenticated exactly when a successful AUTH for it has not been followed by a
    registration, a logout, or the disconnect of a connection whose current phone it is.
   */
  lemma {:induction false} AuthedFromHistory(h: seq<Event>, p: Phone)
    ensures IsAuthed(After(h), p) <==> exists i :: AuthedAt(h, i, p)
  {
    if h == [] {
      assert forall i :: !AuthedAt(h, i, p);
      assert !IsAuthed(After(h), p);
    } else {
      hide Step, Undisturbed, Presents, Valid, IsAuthed;
      var n := |h| - 1;
      var g, e := h[..n], h[n];
      AuthedFromHistory(g, p);
      StepAuthed(After(g), e, p);
      if e.Disconnect? {
        PhonesFromHistory(g, e.conn);
      }
      if e.Auth? {
        AuthSucceedsIff(g, e);
      }
      PresentsOnlyAuth(g, e, p);
      forall i
        ensures AuthedAt(h, i, p) <==>
                if i == n then Presents(g, e, p) else AuthedAt(g, i, p) && !Resets(g, e, p)
      {
        UndisturbedStep(h, i, p);
        UndisturbedRange(g, i, p);
        assert 0 <= i < n ==> h[..i] == g[..i] && h[i] == g[i];
      }
      if Presents(g, e, p) {
        assert AuthedAt(h, n, p);
      } else if IsAuthed(After(g), p) && !Resets(g, e, p) {
        var i :| AuthedAt(g, i, p);
        UndisturbedRange(g, i, p);
        assert AuthedAt(h, i, p);
      }
    }
  }

  lemma PresentsOnlyAuth(h: seq<Event>, e: Event, p: Phone)
    ensures Presents(h, e, p) ==> e.Auth? && e.phone == p
  {}

  /** Heartbeats and locations are accepted exactly from phones whose authentication still stands. */
  lemma {:induction false} ReportsAcceptedIff(h: seq<Event>, e: Event)
    requires e.Heartbeat? || e.Location?
    ensures ResultOf(After(h), e) == Success <==> exists i :: AuthedAt(h, i, e.phone)
  {
    hide After, AuthedAt;
    AuthedFromHistory(h, e.phone);
  }

  /** Whatever a successful AUTH or an accepted heartbeat finds in the tables, the device is online afterwards. */
  lemma ReportsMarkOnline(s: State, e: Event)
    requires e.Auth? || e.Heartbeat?
    ensures ResultOf(s, e) == Success ==> e.phone in Step(s, e).devices && Step(s, e).devices[e.phone].online
  {
    hide Valid, AuthCode;
  }

  /** Nothing after `i` has disconnected a connection whose current phone was `p`. */
  predicate NotLost(h: seq<Event>, i: int, p: Phone) {
    0 <= i < |h| && forall j :: i < j < |h| ==> !Loses(h[..j], h[j], p)
  }

  predicate Loses(h: seq<Event>, e: Event, p: Phone) {
    e.Disconnect? && CurrentPhone(h, e.conn) == Some(p)
  }

  lemma NotLostStep(h: seq<Event>, i: int, p: Phone)
    requires h != []
    ensures var n := |h| - 1;
            NotLost(h, i, p) <==> i == n || (NotLost(h[..n], i, p) && !Loses(h[..n], h[n], p))
  {
    hide Loses;
    var n := |h| - 1;
    var g := h[..n];
    assert forall j :: 0 <= j < n ==> g[..j] == h[..j] && g[j] == h[j];
    if NotLost(h, i, p) && i < n {
      assert !Loses(h[..n], h[n], p);
    }
  }

  lemma NotLostRange(h: seq<Event>, i: int, p: Phone)
    ensures NotLost(h, i, p) ==> 0 <= i < |h|
  {}

  ghost predicate KnownSince(h: seq<Event>, i: int, p: Phone) {
    NotLost(h, i, p) && h[i].Register? && h[i].phone == p
  }

  /** A device is known exactly when it has registered and its connection was not lost since. */
  lemma {:induction false} KnownFromHistory(h: seq<Event>, p: Phone)
    ensures p in After(h).devices <==> exists i :: KnownSince(h, i, p)
  {
    if h == [] {
    } else {
      hide Step, NotLost, Valid;
      var n := |h| - 1;
      var g, e := h[..n], h[n];
      KnownFromHistory(g, p);
      TablesAgree(g);
      StepKnown(After(g), e, p);
      if e.Disconnect? {
        PhonesFromHistory(g, e.conn);
      }
      forall i
        ensures KnownSince(h, i, p) <==>
                if i == n then e.Register? && e.phone == p else KnownSince(g, i, p) && !Loses(g, e, p)
      {
        NotLostStep(h, i, p);
        NotLostRange(g, i, p);
        assert 0 <= i < n ==> h[i] == g[i];
      }
      if e.Register? && e.phone == p {
        assert KnownSince(h, n, p);
      } else if p in After(g).devices && !Loses(g, e, p) {
        var i :| KnownSince(g, i, p);
        NotLostRange(g, i, p);
        assert KnownSince(h, i, p);
      }
    }
  }

  lemma StepKnown(s: State, e: Event, p: Phone)
    requires s.codes.Keys <= s.devices.Keys
    ensures var t := Step(s, e);
            if e.Register? && e.phone == p then p in t.devices
            else if e.Disconnect? && e.conn in s.phones && s.phones[e.conn] == p then p !in t.devices
            else p in t.devices <==> p in s.devices
  {
    hide AuthCode, Strip;
  }

  /** The AUTH at `i` succeeded, and was the last to succeed for the phone, whose connection was not lost since. */
  ghost predicate SignalledBy(h: seq<Event>, i: int, p: Phone) {
    && NotLost(h, i, p) && Presents(h[..i], h[i], p)
    && forall j :: i < j < |h| ==> !Presents(h[..j], h[j], p)
  }

  lemma SignalledStep(h: seq<Event>, i: int, p: Phone)
    requires h != []
    ensures var n := |h| - 1;
            SignalledBy(h, i, p) <==>
            if i == n then Presents(h[..n], h[n], p)
            else SignalledBy(h[..n], i, p) && !Loses(h[..n], h[n], p) && !Presents(h[..n], h[n], p)
  {
    hide Presents, NotLost, Loses;
    var n := |h| - 1;
    var g := h[..n];
    NotLostStep(h, i, p);
    NotLostRange(h, i, p);
    NotLostRange(g, i, p);
    assert forall j :: 0 <= j < n ==> g[..j] == h[..j] && g[j] == h[j];
    if SignalledBy(h, i, p) && i < n {
      assert !Presents(h[..n], h[n], p);
    }
  }

  /** The connection used for signalling is the one on which the latest successful AUTH of the phone came in. */
  lemma {:induction false} ActiveFromHistory(h: seq<Event>, p: Phone)
    ensures p in After(h).active <==> exists i :: SignalledBy(h, i, p)
    ensures forall i :: SignalledBy(h, i, p) ==> p in After(h).active && After(h).active[p] == h[i].conn
  {
    if h == [] {
    } else {
      hide Step, SignalledBy, Presents, Loses, Valid;
      var n := |h| - 1;
      var g, e := h[..n], h[n];
      ActiveFromHistory(g, p);
      StepActive(After(g), e, p);
      PresentsIffValid(g, e, p);
      LosesIff(g, e, p);
      forall i
        ensures SignalledBy(h, i, p) <==>
                if i == n then Presents(g, e, p)
                else SignalledBy(g, i, p) && !Loses(g, e, p) && !Presents(g, e, p)
        ensures SignalledBy(g, i, p) ==> 0 <= i < n && h[i] == g[i]
      {
        SignalledStep(h, i, p);
        SignalledRange(g, i, p);
      }
      if Presents(g, e, p) {
        assert SignalledBy(h, n, p);
      } else if p in After(g).active && !Loses(g, e, p) {
        var i :| SignalledBy(g, i, p);
        assert SignalledBy(h, i, p);
      }
    }
  }

  lemma SignalledRange(h: seq<Event>, i: int, p: Phone)
    ensures SignalledBy(h, i, p) ==> 0 <= i < |h|
  {
    hide Presents, Loses;
  }

  lemma PresentsIffValid(h: seq<Event>, e: Event, p: Phone)
    ensures Presents(h, e, p) <==> e.Auth? && e.phone == p && Valid(After(h).codes, p, e.presented)
  {
    hide After, Valid;
    PresentsOnlyAuth(h, e, p);
    if e.Auth? {
      AuthSucceedsIff(h, e);
    }
  }

  lemma LosesIff(h: seq<Event>, e: Event, p: Phone)
    ensures Loses(h, e, p) <==>
            e.Disconnect? && e.conn in After(h).phones && After(h).phones[e.conn] == p
  {
    hide After;
    PhonesFromHistory(h, e.conn);
  }

  lemma StepActive(s: State, e: Event, p: Phone)
    ensures var t := Step(s, e);
            if e.Auth? && e.phone == p && Valid(s.codes, p, e.presented) then p in t.active && t.active[p] == e.conn
            else if e.Disconnect? && e.conn in s.phones && s.phones[e.conn] == p then p !in t.active
            else (p in t.active <==> p in s.active) && (p in t.active ==> t.active[p] == s.active[p])
  {
    hide Valid, AuthCode;
  }

  // ----- codes with something around them ------------------------------------------------------

  lemma {:induction false} StripLeftMeaning(drop: char -> bool, s: string)
    ensures var r := StripLeft(drop, s);
            && |r| <= |s| && r == s[|s| - |r|..] && (r != "" ==> !drop(r[0]))
            && forall i :: 0 <= i < |s| - |r| ==> drop(s[i])
  {
    if s == "" {
    } else {
      StripLeftMeaning(drop, s[1..]);
      var r := StripLeft(drop, s[1..]);
      assert forall i :: 1 <= i < |s| - |r| ==> s[i] == s[1..][i - 1];
    }
  }

  lemma {:induction false} StripRightMeaning(drop: char -> bool, s: string)
    ensures var r := StripRight(drop, s);
            && |r| <= |s| && r == s[..|r|] && (r != "" ==> !drop(r[|r| - 1]))
            && forall i :: |r| <= i < |s| ==> drop(s[i])
  {
    if s == "" {
    } else {
      StripRightMeaning(drop, s[..|s| - 1]);
    }
  }

  predicate AllNul(s: string) { forall i :: 0 <= i < |s| ==> s[i] == '\0' }

  predicate AllBlank(s: string) { forall i :: 0 <= i < |s| ==> s[i] in [' ', '\t', '\n', '\r'] }

  /** A code comes through with blanks around it, and with zero characters around those. */
  lemma StripPadded(a: string, b: string, code: string, c: string, d: string)
    requires AllNul(a) && AllNul(d) && AllBlank(b) && AllBlank(c)
    requires Printable(code) && code != ""
    ensures Strip(a + b + code + c + d) == code
  {
    hide StripLeft, StripRight;
    var s := a + b + code + c + d;
    BlanksAndNuls();
    StripLeftIs(IsNul, a, b + code + c + d);
    assert s == a + (b + code + c + d);
    StripRightIs(IsNul, b + code + c, d);
    StripLeftIs(IsSpace, b, code + c);
    assert b + code + c == b + (code + c);
    StripRightIs(IsSpace, code, c);
  }

  lemma BlanksAndNuls()
    ensures IsNul('\0') && forall c :: c in [' ', '\t', '\n', '\r'] ==> IsSpace(c) && !IsNul(c)
  {}

  lemma StripLeftIs(drop: char -> bool, p: string, t: string)
    requires (forall i :: 0 <= i < |p| ==> drop(p[i])) && t != "" && !drop(t[0])
    ensures StripLeft(drop, p + t) == t
  {
    hide StripLeft;
    var s := p + t;
    StripLeftMeaning(drop, s);
    assert s[|p|] == t[0];
    assert forall i :: 0 <= i < |p| ==> s[i] == p[i];
    assert s[|p|..] == t;
  }

  lemma StripRightIs(drop: char -> bool, t: string, p: string)
    requires (forall i :: 0 <= i < |p| ==> drop(p[i])) && t != "" && !drop(t[|t| - 1])
    ensures StripRight(drop, t + p) == t
  {
    hide StripRight;
    var s := t + p;
    StripRightMeaning(drop, s);
    assert s[|t| - 1] == t[|t| - 1];
    assert forall i :: |t| <= i < |s| ==> s[i] == p[i - |t|];
    assert s[..|t|] == t;
  }

  // ----- the tables agree with each other ---------------------------------------------------

  ghost predicate Agree(s: State) {
    && (forall p: Phone :: IsAuthed(s, p) ==> p in s.codes && p in s.active)
    && s.codes.Keys <= s.devices.Keys
    && s.active.Keys <= s.devices.Keys
    && (forall p <- s.devices :: s.devices[p].online <==> p in s.codes)
  }

  lemma StepAgrees(s: State, e: Event)
    requires Agree(s)
    ensures Agree(Step(s, e))
  {
    hide AuthCode, Strip;
  }

  /**
    In every run: whoever is authenticated has a code on file and a signalling connection, codes
    and connections belong to known devices, and the devices online are those with a code.
   */
  lemma {:induction false} TablesAgree(h: seq<Event>)
    ensures Agree(After(h))
  {
    if h == [] {
    } else {
      TablesAgree(h[..|h| - 1]);
      StepAgrees(After(h[..|h| - 1]), h[|h| - 1]);
    }
  }

  /** So a valid code never meets an unknown device: the fallback entry of the AUTH handler is never made. */
  lemma {:induction false} FallbackUnreachable(h: seq<Event>, p: Phone, presented: string)
    requires Valid(After(h).codes, p, presented)
    ensures p in After(h).devices
  {
    TablesAgree(h);
  }

  // ----- over the wire ------------------------------------------------------------------------

  function Ascii(s: string): seq<Byte>
    requires forall i :: 0 <= i < |s| ==> s[i] as int < 0x80
  {
    seq(|s|, i requires 0 <= i < |s| => s[i] as int)
  }

  /** `bytes.decode("ascii", errors="replace")` */
  function DecodeAscii(b: seq<Byte>): string {
    seq(|b|, i requires 0 <= i < |b| => if b[i] < 0x80 then b[i] as char else '\U{FFFD}')
  }

  /** The code the AUTH handler takes out of a message body. */
  function PresentedCode(is2019: bool, body: seq<Byte>): string {
    if is2019 && |body| > 0 then
      var end := 1 + body[0] as nat;
      DecodeAscii(body[1..if end < |body| then end else |body|])
    else DecodeAscii(body)
  }

  predicate IsUpperHex(c: char) { '0' <= c <= '9' || 'A' <= c <= 'F' }

  /** A code as it is issued: a hexadecimal phone and four random upper-case digits. */
  predicate Issuable(p: Phone, suffix: string) {
    Hex.IsHex(p) && IsSuffix(suffix)
  }

  predicate IsSuffix(suffix: string) {
    |suffix| == 4 && forall i :: 0 <= i < 4 ==> IsUpperHex(suffix[i])
  }

  predicate Printable(s: string) {
    forall i :: 0 <= i < |s| ==> 0x20 < s[i] as int < 0x7F
  }

  lemma HexDigitAt(p: string, i: nat)
    requires Hex.IsHex(p) && i < |p|
    ensures Hex.IsDigit(p[i])
  {}

  lemma CodePrintable(p: Phone, suffix: string)
    requires Issuable(p, suffix)
    ensures var code := AuthCode(p, suffix); 10 <= |code| <= 16 && Printable(code)
  {
    hide Hex.IsHex, Printable, AuthCode;
    AuthCodeText(p, suffix);
    var t := if |p| >= 6 then p[|p| - 6..] else p;
    forall i | 0 <= i < |t| ensures 0x20 < t[i] as int < 0x7F {
      HexDigitAt(p, i + |p| - |t|);
    }
    forall i | 0 <= i < 4 ensures 0x20 < suffix[i] as int < 0x7F {
      assert IsUpperHex(suffix[i]);
    }
    PrintableText();
    PrintableAll(t);
    PrintableAll(suffix);
    PrintableConcat("AUTH_", t);
    PrintableConcat("AUTH_" + t, "_");
    PrintableConcat("AUTH_" + t + "_", suffix);
  }

  lemma AuthCodeText(p: Phone, suffix: string)
    ensures AuthCode(p, suffix) == "AUTH_" + (if |p| >= 6 then p[|p| - 6..] else p) + "_" + suffix
  {}

  lemma PrintableText()
    ensures Printable("AUTH_") && Printable("_")
  {}

  lemma PrintableAll(s: string)
    requires forall i :: 0 <= i < |s| ==> 0x20 < s[i] as int < 0x7F
    ensures Printable(s)
  {}

  lemma PrintableConcat(s: string, t: string)
    requires Printable(s) && Printable(t)
    ensures Printable(s + t)
  {
    forall i | 0 <= i < |s + t| ensures 0x20 < (s + t)[i] as int < 0x7F {
      assert (s + t)[i] == if i < |s| then s[i] else t[i - |s|];
    }
  }

  lemma StripPrintable(s: string)
    requires Printable(s)
    ensures Strip(s) == s
  {}

  lemma DecodeEncoded(s: string)
    requires Printable(s)
    ensures DecodeAscii(Ascii(s)) == s
  {}

  /** What the terminal reads out of the registration reply. */
  function CodeInReply(m: Jt808.Message): seq<Byte>
    requires 3 <= |m.body|
  {
    m.body[3..]
  }

  /** The AUTH body a terminal of either version sends back; the 2019 form may carry more. */
  function AuthBody(is2019: bool, code: seq<Byte>, more: seq<Byte>): seq<Byte>
    requires |code| < 0x100
  {
    if is2019 then [|code|] + code + more else code
  }

  /** The phone in a terminal's frames. */
  function PhoneOf(x: Jt808.Sent): (p: Phone)
    requires x.Valid()
    ensures |p| == Jt808.PhoneDigits(Jt808.Is2019(x.props)) && p == Hex.ToHex(x.phone)
  {
    Hex.ToHex(x.phone)
  }

  lemma TerminalPhone(x: Jt808.Sent, suffix: string)
    requires x.Valid() && IsSuffix(suffix)
    ensures Issuable(PhoneOf(x), suffix)
  {
    hide Hex.IsHex;
    Hex.ToHexIsHex(x.phone);
  }

  /** The reply to a registration parses, and the code can be read out of it. */
  lemma ReplyCarriesCode(p: Phone, suffix: string, serial: U16, is2019: bool)
    requires Issuable(p, suffix) && |p| <= Jt808.PhoneDigits(is2019)
    ensures Printable(AuthCode(p, suffix)) &&
            var frame := Jt808.BuildRegisterResp(p, serial, 0, Ascii(AuthCode(p, suffix)), is2019);
            && frame.Some? && Jt808.ParseFrame(frame.value).Some?
            && var reply := Jt808.ParseFrame(frame.value).value;
            3 <= |reply.body| < 0x100 && CodeInReply(reply) == Ascii(AuthCode(p, suffix))
  {
    hide Jt808.BuildFrame, Jt808.ParseFrame, AuthCode, Printable, Hex.IsHex;
    var code := AuthCode(p, suffix);
    CodePrintable(p, suffix);
    PrintableIsAscii(code);
    var body := PutU16(serial) + [0] + Ascii(code);
    Jt808.BuildThenParse(Jt808.MSG_REGISTER_RESP, p, 0, body, is2019);
    assert body[3..] == Ascii(code);
  }

  /** Nothing but the standing registration matters: presenting its code succeeds. */
  lemma StandingCodeSucceeds(
      h: seq<Event>, conn: Conn, p: Phone, suffix: string, between: seq<Event>, conn': Conn, presented: string)
    requires var g := h + [Register(conn, p, suffix)]; Undisturbed(g + between, |h|, p)
    requires Strip(presented) == AuthCode(p, suffix)
    ensures ResultOf(After(h + [Register(conn, p, suffix)] + between), Auth(conn', p, presented)) == Success
  {
    hide After, Undisturbed, Strip, AuthCode;
    var all := h + [Register(conn, p, suffix)] + between;
    assert all[|h|] == Register(conn, p, suffix);
    assert RegisteredAt(all, |h|, p);
    AuthSucceedsIff(all, Auth(conn', p, presented));
  }

  /**
    All over the wire: a registration frame arrives, the terminal reads the code out of the reply
    frame and sends it back in a frame of its own, in the form of its protocol version. AUTH then
    succeeds, whatever happens to other phones in between and on whichever connection it arrives,
    as long as nothing resets this phone.
   */
  lemma RegisterThenAuth(
      h: seq<Event>, conn: Conn, register: Jt808.Sent, suffix: string,
      between: seq<Event>, conn': Conn, auth: Jt808.Sent, more: seq<Byte>)
    requires register.Valid() && auth.Valid() && auth.phone == register.phone && IsSuffix(suffix)
    requires var g := h + [Register(conn, PhoneOf(register), suffix)];
             Undisturbed(g + between, |h|, PhoneOf(register))
    ensures Jt808.ParseFrame(register.Frame()).Some? &&
            var asked := Jt808.ParseFrame(register.Frame()).value.header;
            var p := PhoneOf(register);
            && asked.phone == p && Printable(AuthCode(p, suffix))
            && var reply := Jt808.BuildRegisterResp(
                 p, asked.serial, 0, Ascii(AuthCode(p, suffix)), asked.is2019);
            && reply.Some? && Jt808.ParseFrame(reply.value).Some?
            && var read := Jt808.ParseFrame(reply.value).value;
            && 3 <= |read.body| < 0x100
            && var back := auth.(body := AuthBody(asked.is2019, CodeInReply(read), more));
            && Jt808.ParseFrame(back.Frame()).Some?
            && var m := Jt808.ParseFrame(back.Frame()).value;
            && m.header.phone == p && m.header.msgId == auth.msgId
            && ResultOf(After(h + [Register(conn, p, suffix)] + between),
                        Auth(conn', p, PresentedCode(m.header.is2019, m.body))) == Success
  {
    hide After, Undisturbed, Strip, Jt808.BuildRegisterResp, Jt808.ParseFrame, Jt808.Sent.Frame, AuthCode, Printable,
      PresentedCode, Hex.IsHex;
    var p, is2019 := PhoneOf(register), Jt808.Is2019(register.props);
    var code := AuthCode(p, suffix);
    Jt808.SentFrameParses(register);
    TerminalPhone(register, suffix);
    CodePrintable(p, suffix);
    PrintableIsAscii(code);
    ReplyCarriesCode(p, suffix, register.serial, is2019);
    CodeComesBack(is2019, code, more);
    var back := auth.(body := AuthBody(is2019, Ascii(code), more));
    assert back.Valid();
    Jt808.SentFrameParses(back);
    StripPrintable(code);
    StandingCodeSucceeds(h, conn, p, suffix, between, conn', code);
  }

  lemma PrintableIsAscii(s: string)
    requires Printable(s)
    ensures forall i :: 0 <= i < |s| ==> s[i] as int < 0x80
  {}

  lemma CodeComesBack(is2019: bool, code: string, more: seq<Byte>)
    requires 0 < |code| <= 16 && Printable(code)
    ensures PresentedCode(is2019, AuthBody(is2019, Ascii(code), more)) == code
  {
    var b := AuthBody(is2019, Ascii(code), more);
    DecodeEncoded(code);
    if is2019 {
      assert b[1..1 + |code|] == Ascii(code);
    }
  }
}
