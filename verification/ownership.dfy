/**
  Who may write to a video channel. A connection claims a channel with its
  first packet, which evicts the previous owner; every packet is then written
  only if its connection still owns the channel. The claim and the check are
  separate steps, because the claim awaits a stream reset in between; the
  release at the end of a connection is one step.
 */
module Ownership {
  type Conn = nat

  /** A phone ("unknown" when the device was not identified) and a channel number. */
  datatype Key = Key(phone: string, channel: nat)

  /** A connection's phone, fixed when it starts, and the channels it has carried. */
  datatype Link = Link(phone: string, seen: set<nat>, connected: bool)

  datatype State = State(owners: map<Key, Conn>, links: map<Conn, Link>)

  datatype Event =
    | Connect(conn: Conn, phone: string)
    | Claim(conn: Conn, channel: nat)   // first packet for a channel, up to the await
    | Check(conn: Conn, channel: nat)   // the rest of the loop body, for any packet
    | Disconnect(conn: Conn)

  // ----- specification ----------------------------------------------------------------

  predicate Connected(s: State, c: Conn) {
    c in s.links && s.links[c].connected
  }

  /** The event makes its connection the owner of `key`. */
  predicate Claims(s: State, e: Event, key: Key) {
    && e.Claim? && Connected(s, e.conn) && e.channel !in s.links[e.conn].seen
    && key == Key(s.links[e.conn].phone, e.channel)
  }

  /** The packet checked by the event is handed to `write_frame` for `key`. */
  predicate Writes(s: State, e: Event, key: Key) {
    && e.Check? && Connected(s, e.conn) && e.channel in s.links[e.conn].seen
    && key == Key(s.links[e.conn].phone, e.channel)
    && key in s.owners && s.owners[key] == e.conn
  }

  function Step(s: State, e: Event): State {
    match e
    case Connect(c, phone) => if c in s.links then s else s.(links := s.links[c := Link(phone, {}, true)])
    case Claim(c, ch) =>
      if !Connected(s, c) || ch in s.links[c].seen then s
      else
        var l := s.links[c];
        State(s.owners[Key(l.phone, ch) := c], s.links[c := l.(seen := l.seen + {ch})])
    case Check(_, _) => s
    case Disconnect(c) =>
      if !Connected(s, c) then s
      else
        var l := s.links[c];
        State(Released(s.owners, c, l.phone, l.seen), s.links[c := l.(connected := false)])
  }

  /** The table without the entries of `seen` channels that `c` still holds. */
  function Released(owners: map<Key, Conn>, c: Conn, phone: string, seen: set<nat>): map<Key, Conn> {
    map k | k in owners && !(k.phone == phone && k.channel in seen && owners[k] == c) :: owners[k]
  }

  function After(h: seq<Event>): State {
    if h == [] then State(map[], map[]) else Step(After(h[..|h| - 1]), h[|h| - 1])
  }

  // ----- the server -----------------------------------------------------------------------

  class Server {
    var owners: map<Key, Conn>
    var links: map<Conn, Link>

    constructor ()
      ensures State(owners, links) == After([])
    {
      owners, links := map[], map[];
    }

    method OnConnect(conn: Conn, phone: string)
      requires conn !in links
      modifies this
      ensures State(owners, links) == Step(old(State(owners, links)), Connect(conn, phone))
    {
      links := links[conn := Link(phone, {}, true)];
    }

    method OnClaim(conn: Conn, ch: nat)
      requires Connected(State(owners, links), conn)
      modifies this
      ensures State(owners, links) == Step(old(State(owners, links)), Claim(conn, ch))
    {
      var l := links[conn];
      if ch !in l.seen {
        links := links[conn := l.(seen := l.seen + {ch})];
        owners := owners[Key(l.phone, ch) := conn];
      }
    }

    /** Whether the packet is written. */
    method OnCheck(conn: Conn, ch: nat) returns (written: bool)
      requires Connected(State(owners, links), conn) && ch in links[conn].seen
      ensures written <==> exists key :: Writes(State(owners, links), Check(conn, ch), key)
    {
      var key := Key(links[conn].phone, ch);
      written := key in owners && owners[key] == conn;
      assert written ==> Writes(State(owners, links), Check(conn, ch), key);
    }

    method OnDisconnect(conn: Conn)
      requires Connected(State(owners, links), conn)
      modifies this
      ensures State(owners, links) == Step(old(State(owners, links)), Disconnect(conn))
    {
      var l := links[conn];
      var todo := l.seen;
      ghost var done := {};
      while todo != {}
        invariant links == old(links) && done + todo == l.seen
        invariant owners == Released(old(owners), conn, l.phone, done)
        decreases todo
      {
        var ch :| ch in todo;
        var key := Key(l.phone, ch);
        if key in owners && owners[key] == conn {
          owners := owners - {key};
        }
        todo := todo - {ch};
        done := done + {ch};
      }
      links := links[conn := l.(connected := false)];
    }
  }

  // ----- laws ---------------------------------------------------------------------------------

  /** The event at `i` is the latest claim of `key`. */
  ghost predicate LatestClaim(h: seq<Event>, i: int, key: Key) {
    && 0 <= i < |h| && Claims(After(h[..i]), h[i], key)
    && forall j :: i < j < |h| ==> !Claims(After(h[..j]), h[j], key)
  }

  lemma LatestClaimStep(h: seq<Event>, i: int, key: Key)
    requires h != []
    ensures var n := |h| - 1;
            LatestClaim(h, i, key) <==>
            if i == n then Claims(After(h[..n]), h[n], key)
            else LatestClaim(h[..n], i, key) && !Claims(After(h[..n]), h[n], key)
  {
    hide Claims, After;
    var n := |h| - 1;
    var g := h[..n];
    assert forall j :: 0 <= j < n ==> g[..j] == h[..j] && g[j] == h[j];
    if LatestClaim(h, i, key) && i < n {
      assert !Claims(After(h[..n]), h[n], key);
    }
  }

  /** Owners are connected and have seen the channels they own. */
  ghost predicate OwnersLive(s: State) {
    forall k <- s.owners ::
      var c := s.owners[k]; Connected(s, c) && s.links[c].phone == k.phone && k.channel in s.links[c].seen
  }

  lemma StepKeepsOwnersLive(s: State, e: Event)
    requires OwnersLive(s)
    ensures OwnersLive(Step(s, e))
  {}

  lemma {:induction false} OwnersAlwaysLive(h: seq<Event>)
    ensures OwnersLive(After(h))
  {
    if h == [] {
    } else {
      OwnersAlwaysLive(h[..|h| - 1]);
      StepKeepsOwnersLive(After(h[..|h| - 1]), h[|h| - 1]);
    }
  }

  /** What one step does to the owner of one channel. */
  lemma StepOwner(s: State, e: Event, key: Key)
    requires OwnersLive(s)
    ensures var t := Step(s, e);
            if Claims(s, e, key) then key in t.owners && t.owners[key] == e.conn
            else if e.Disconnect? && key in s.owners && s.owners[key] == e.conn then key !in t.owners
            else (key in t.owners <==> key in s.owners) && (key in t.owners ==> t.owners[key] == s.owners[key])
  {}

  lemma StepConnected(s: State, e: Event, c: Conn)
    requires c in s.links
    ensures c in Step(s, e).links
    ensures Connected(Step(s, e), c) <==> Connected(s, c) && e != Disconnect(c)
  {}

  lemma StepClaimant(s: State, e: Event, key: Key)
    requires Claims(s, e, key)
    ensures Connected(Step(s, e), e.conn)
  {}

  lemma {:induction false} ClaimantKnown(h: seq<Event>, i: int, key: Key)
    requires LatestClaim(h, i, key)
    ensures h[i].conn in After(h).links
  {
    hide Claims, Step;
    var n := |h| - 1;
    LatestClaimStep(h, i, key);
    if i < n {
      ClaimantKnown(h[..n], i, key);
      StepConnected(After(h[..n]), h[n], h[i].conn);
    } else {
      StepClaimant(After(h[..n]), h[n], key);
    }
  }

  /**
    In every run the owner of a channel is exactly the latest claimer while it is connected,
    and nobody otherwise.
   */
  lemma {:induction false} OwnerIsLatestClaimer(h: seq<Event>, key: Key)
    ensures var s := After(h);
            && (key in s.owners <==> exists i :: LatestClaim(h, i, key) && Connected(s, h[i].conn))
            && (forall i :: LatestClaim(h, i, key) && key in s.owners ==> s.owners[key] == h[i].conn)
  {
    if h == [] {
    } else {
      hide Step, Claims, Connected, LatestClaim, OwnersLive;
      var n := |h| - 1;
      var g, e := h[..n], h[n];
      var s, t := After(g), Step(After(g), e);
      assert After(h) == t;
      OwnerIsLatestClaimer(g, key);
      OwnersAlwaysLive(g);
      StepOwner(s, e, key);
      forall i
        ensures LatestClaim(h, i, key) <==>
                if i == n then Claims(s, e, key) else LatestClaim(g, i, key) && !Claims(s, e, key)
        ensures LatestClaim(h, i, key) ==> 0 <= i < |h|
        ensures LatestClaim(g, i, key) ==> 0 <= i < n && h[i] == g[i]
        ensures LatestClaim(g, i, key) ==>
                  (Connected(t, h[i].conn) <==> Connected(s, h[i].conn) && e != Disconnect(h[i].conn))
      {
        LatestClaimStep(h, i, key);
        LatestClaimRange(h, i, key);
        LatestClaimRange(g, i, key);
        if LatestClaim(g, i, key) {
          ClaimantKnown(g, i, key);
          StepConnected(s, e, g[i].conn);
        }
      }
      if Claims(s, e, key) {
        StepClaimant(s, e, key);
        assert LatestClaim(h, n, key) && Connected(t, h[n].conn);
      } else if exists i :: LatestClaim(g, i, key) && Connected(s, g[i].conn) {
        var i :| LatestClaim(g, i, key) && Connected(s, g[i].conn);
        assert LatestClaim(h, i, key);
        OnlyDisconnect(e, h[i].conn);
      }
    }
  }

  lemma OnlyDisconnect(e: Event, c: Conn)
    ensures e == Disconnect(c) <==> e.Disconnect? && e.conn == c
  {}

  lemma LatestClaimRange(h: seq<Event>, i: int, key: Key)
    ensures LatestClaim(h, i, key) ==> 0 <= i < |h|
  {}

  /** The phone of a connection's link, and whether it is connected, in terms of the history. */
  ghost predicate ConnectedSince(h: seq<Event>, i: int, c: Conn) {
    && 0 <= i < |h| && h[i].Connect? && h[i].conn == c
    && (forall j :: 0 <= j < i ==> !(h[j].Connect? && h[j].conn == c))
    && (forall j :: i < j < |h| ==> h[j] != Disconnect(c))
  }

  /**
    A connection is connected exactly when it has connected and not disconnected since; its phone
    is the one it connected with.
   */
  lemma {:induction false} ConnectedIff(h: seq<Event>, c: Conn)
    ensures Connected(After(h), c) <==> exists i :: ConnectedSince(h, i, c)
    ensures forall i :: ConnectedSince(h, i, c) ==> c in After(h).links && After(h).links[c].phone == h[i].phone
    ensures c in After(h).links <==> exists i :: 0 <= i < |h| && h[i].Connect? && h[i].conn == c
  {
    if h == [] {
    } else {
      var n := |h| - 1;
      var g, e := h[..n], h[n];
      ConnectedIff(g, c);
      StepLink(After(g), e, c);
      forall i
        ensures ConnectedSince(h, i, c) <==>
                if i == n then e.Connect? && e.conn == c && c !in After(g).links
                else ConnectedSince(g, i, c) && e != Disconnect(c)
      {
        ConnectedSinceStep(h, i, c);
      }
      if c in After(g).links {
        var i :| 0 <= i < |g| && g[i].Connect? && g[i].conn == c;
        assert h[i] == g[i];
      }
      if e.Connect? && e.conn == c {
        assert h[n].Connect?;
        if c !in After(g).links {
          assert ConnectedSince(h, n, c);
        }
      }
      if i :| ConnectedSince(g, i, c) {
        assert ConnectedSince(h, i, c) <==> e != Disconnect(c);
      }
    }
  }

  lemma ConnectedSinceStep(h: seq<Event>, i: int, c: Conn)
    requires h != []
    ensures var n := |h| - 1;
            ConnectedSince(h, i, c) <==>
            if i == n then
              && h[n].Connect? && h[n].conn == c
              && forall j :: 0 <= j < n ==> !(h[..n][j].Connect? && h[..n][j].conn == c)
            else ConnectedSince(h[..n], i, c) && h[n] != Disconnect(c)
  {
    var n := |h| - 1;
    var g := h[..n];
    assert forall j :: 0 <= j < n ==> g[j] == h[j];
  }

  /** What one step does to the link of one connection. */
  lemma StepLink(s: State, e: Event, c: Conn)
    ensures var t := Step(s, e);
            if c !in s.links then
              if e.Connect? && e.conn == c then c in t.links && t.links[c] == Link(e.phone, {}, true) else c !in t.links
            else
              && c in t.links && t.links[c].phone == s.links[c].phone
              && t.links[c].connected == (s.links[c].connected && e != Disconnect(c))
              && t.links[c].seen == s.links[c].seen +
                 (if e.Claim? && e.conn == c && s.links[c].connected then {e.channel} else {})
  {}

  /** A channel counts as seen exactly when the connection, while connected, has sent a packet for it. */
  lemma {:induction false} SeenIff(h: seq<Event>, c: Conn, ch: nat)
    ensures c in After(h).links && ch in After(h).links[c].seen <==>
            exists i :: SentAt(h, i, c, ch)
  {
    if h == [] {
    } else {
      hide Connected, Step, SentAt;
      var n := |h| - 1;
      SeenIff(h[..n], c, ch);
      SeenStep(After(h[..n]), h[n], c, ch);
      SentAtStep(h, c, ch);
    }
  }

  /** The event at `i` is the first half of the handling of a packet. */
  predicate SentAt(h: seq<Event>, i: int, c: Conn, ch: nat) {
    0 <= i < |h| && h[i] == Claim(c, ch) && Connected(After(h[..i]), c)
  }

  lemma SentAtStep(h: seq<Event>, c: Conn, ch: nat)
    requires h != []
    ensures var n := |h| - 1;
            (exists i :: SentAt(h, i, c, ch)) <==>
            (exists i :: SentAt(h[..n], i, c, ch)) || (h[n] == Claim(c, ch) && Connected(After(h[..n]), c))
  {
    hide After, Connected;
    var n := |h| - 1;
    var g := h[..n];
    if i :| SentAt(g, i, c, ch) {
      assert h[..i] == g[..i];
      assert SentAt(h, i, c, ch);
    }
    if i :| SentAt(h, i, c, ch) {
      assert i < n ==> h[..i] == g[..i] && SentAt(g, i, c, ch);
    }
    if h[n] == Claim(c, ch) && Connected(After(g), c) {
      assert SentAt(h, n, c, ch);
    }
  }

  lemma SeenStep(s: State, e: Event, c: Conn, ch: nat)
    ensures var t := Step(s, e);
            c in t.links && ch in t.links[c].seen <==>
            (c in s.links && ch in s.links[c].seen) || (e == Claim(c, ch) && Connected(s, c))
  {
    StepLink(s, e, c);
  }

  /**
    In every run, a packet of a connected connection, for a channel it has claimed at some time, is
    written if and only if the latest claim of that channel is its own.
   */
  lemma {:induction false} WritesIff(h: seq<Event>, e: Event, key: Key)
    requires e.Check? && Connected(After(h), e.conn) && e.channel in After(h).links[e.conn].seen
    requires key == Key(After(h).links[e.conn].phone, e.channel)
    ensures Writes(After(h), e, key) <==> exists i :: LatestClaim(h, i, key) && h[i].conn == e.conn
  {
    hide After, LatestClaim;
    OwnerIsLatestClaimer(h, key);
  }

  /** Only packets of the latest claimer are written. */
  lemma {:induction false} OnlyLatestClaimerWrites(h: seq<Event>, e: Event, key: Key)
    requires Writes(After(h), e, key)
    ensures exists i :: LatestClaim(h, i, key) && h[i].conn == e.conn && Connected(After(h), e.conn)
  {
    hide After, LatestClaim;
    OwnerIsLatestClaimer(h, key);
  }

  /** A channel that a connection has seen is never claimed by it again. */
  lemma {:induction false} ClaimedOnce(h: seq<Event>, i: nat, key: Key)
    requires i < |h| && Claims(After(h[..i]), h[i], key)
    ensures var s, c := After(h), h[i].conn;
            c in s.links && s.links[c].phone == key.phone && key.channel in s.links[c].seen
  {
    var n := |h| - 1;
    if i < n {
      assert h[..n][..i] == h[..i];
      ClaimedOnce(h[..n], i, key);
      SeenKept(After(h[..n]), h[n], h[i].conn);
    }
  }

  lemma SeenKept(s: State, e: Event, c: Conn)
    requires c in s.links
    ensures var t := Step(s, e);
            c in t.links && t.links[c].phone == s.links[c].phone && s.links[c].seen <= t.links[c].seen
  {}

  /** A connection that has been evicted from a channel never owns it again. */
  lemma {:induction false} EvictedForGood(h: seq<Event>, i: nat, j: nat, key: Key)
    requires i < j < |h| && Claims(After(h[..i]), h[i], key) && Claims(After(h[..j]), h[j], key)
    ensures h[i].conn != h[j].conn
    ensures key in After(h).owners ==> After(h).owners[key] != h[i].conn
  {
    hide After, Step;
    assert h[..j][..i] == h[..i];
    ClaimedOnce(h[..j], i, key);
    OwnerIsLatestClaimer(h, key);
    if key in After(h).owners {
      var k :| LatestClaim(h, k, key) && Connected(After(h), h[k].conn);
      assert j <= k;
      assert h[..k][..i] == h[..i];
      ClaimedOnce(h[..k], i, key);
    }
  }

  /**
    Once a connection has been evicted from a channel, its own disconnect, however late, changes
    nothing for that channel: not for whoever owns it then, and not when nobody does.
   */
  lemma {:induction false} StaleDisconnectHarmless(h: seq<Event>, i: nat, j: nat, key: Key)
    requires i < j < |h| && Claims(After(h[..i]), h[i], key) && Claims(After(h[..j]), h[j], key)
    ensures var s, t := After(h), After(h + [Disconnect(h[i].conn)]);
            (key in t.owners <==> key in s.owners) && (key in t.owners ==> t.owners[key] == s.owners[key])
  {
    var g := h + [Disconnect(h[i].conn)];
    assert g[..|h|] == h && g[|h|] == Disconnect(h[i].conn);
    assert After(g) == Step(After(h), Disconnect(h[i].conn));
    hide After;
    EvictedForGood(h, i, j, key);
    OwnersAlwaysLive(h);
    StepOwner(After(h), Disconnect(h[i].conn), key);
  }
}
