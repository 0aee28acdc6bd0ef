/**
  Keeping one relay process per live channel. Every poll updates the table of
  relays step by step; what the table then holds is a window in time: the
  channels seen live within the idle timeout.
 */
module Relays {

  type Pid = nat
  datatype Key = Key(phone: string, channel: int)
  datatype Relay = Relay(pid: Pid, lastLive: real)

  // ----- the window ---------------------------------------------------------------------

  datatype Poll = Poll(time: real, live: set<Key>)

  /** When each tracked channel was last live, after one more poll. */
  function Track(m: map<Key, real>, p: Poll, idleTimeout: real): map<Key, real> {
    map k | k in m.Keys + p.live && (k in p.live || p.time - m[k] <= idleTimeout) ::
      if k in p.live then p.time else m[k]
  }

  function After(h: seq<Poll>, idleTimeout: real): map<Key, real> {
    if h == [] then map[] else Track(After(h[..|h| - 1], idleTimeout), h[|h| - 1], idleTimeout)
  }

  predicate Monotone(h: seq<Poll>) {
    forall i, j :: 0 <= i <= j < |h| ==> h[i].time <= h[j].time
  }

  predicate LiveWithin(h: seq<Poll>, i: int, k: Key, idleTimeout: real) {
    0 <= i < |h| && k in h[i].live && h[|h| - 1].time - h[i].time <= idleTimeout
  }

  lemma {:induction false} WindowSound(h: seq<Poll>, k: Key, idleTimeout: real)
    requires Monotone(h) && idleTimeout >= 0.0 && k in After(h, idleTimeout)
    ensures exists i :: LiveWithin(h, i, k, idleTimeout) && After(h, idleTimeout)[k] == h[i].time
  {
    var n := |h| - 1;
    var g := h[..n];
    if k in h[n].live {
      assert LiveWithin(h, n, k, idleTimeout);
    } else {
      WindowSound(g, k, idleTimeout);
      var i :| LiveWithin(g, i, k, idleTimeout) && After(g, idleTimeout)[k] == g[i].time;
      assert LiveWithin(h, i, k, idleTimeout);
    }
  }

  lemma {:induction false} WindowComplete(h: seq<Poll>, i: int, k: Key, idleTimeout: real)
    requires Monotone(h) && LiveWithin(h, i, k, idleTimeout)
    ensures k in After(h, idleTimeout) && h[i].time <= After(h, idleTimeout)[k]
    decreases |h|
  {
    var n := |h| - 1;
    var g := h[..n];
    if k !in h[n].live {
      assert g[|g| - 1].time <= h[n].time;
      assert LiveWithin(g, i, k, idleTimeout);
      WindowComplete(g, i, k, idleTimeout);
    } else {
      assert h[i].time <= h[n].time;
    }
  }

  /**
    After every poll a channel is tracked exactly when some poll, this one or an earlier one, saw
    it live no longer than the idle timeout ago.
   */
  lemma TrackedIffRecentlyLive(h: seq<Poll>, k: Key, idleTimeout: real)
    requires Monotone(h) && idleTimeout >= 0.0
    ensures k in After(h, idleTimeout) <==> exists i :: LiveWithin(h, i, k, idleTimeout)
  {
    if k in After(h, idleTimeout) {
      WindowSound(h, k, idleTimeout);
    }
    if exists i :: LiveWithin(h, i, k, idleTimeout) {
      var i :| LiveWithin(h, i, k, idleTimeout);
      WindowComplete(h, i, k, idleTimeout);
    }
  }

  /** One attempt to fetch the status. */
  datatype Fetch = Failed | Status(poll: Poll, exits: set<Pid>)

  function Succeeded(fetched: seq<Fetch>): seq<Poll> {
    if fetched == [] then []
    else
      var f := fetched[|fetched| - 1];
      Succeeded(fetched[..|fetched| - 1]) + if f.Status? then [f.poll] else []
  }

  lemma NothingTracked(idleTimeout: real)
    ensures After(Succeeded([]), idleTimeout) == map[]
  {}

  lemma SucceededAppend(fetched: seq<Fetch>, f: Fetch, idleTimeout: real)
    ensures Succeeded(fetched + [f]) == Succeeded(fetched) + (if f.Status? then [f.poll] else [])
    ensures After(Succeeded(fetched + [f]), idleTimeout) ==
            if f.Status? then Track(After(Succeeded(fetched), idleTimeout), f.poll, idleTimeout)
            else After(Succeeded(fetched), idleTimeout)
  {
    assert (fetched + [f])[..|fetched|] == fetched;
    if f.Status? {
      var h := Succeeded(fetched) + [f.poll];
      assert h[..|h| - 1] == Succeeded(fetched);
    } else {
      assert Succeeded(fetched) + [] == Succeeded(fetched);
    }
  }

  // ----- processes --------------------------------------------------------------------------

  function LastLives(relays: map<Key, Relay>): map<Key, real> {
    map k | k in relays :: relays[k].lastLive
  }

  /** Refreshed and completed, then rid of its stale entries, the table is the next window. */
  lemma SurvivorsAreTracked(
      before: map<Key, Relay>, updated: map<Key, Relay>, live: set<Key>, now: real, idleTimeout: real)
    requires updated.Keys == before.Keys + live
    requires forall k <- updated :: updated[k].lastLive == if k in live then now else before[k].lastLive
    ensures LastLives(map k | k in updated && (k in live || now - updated[k].lastLive <= idleTimeout) :: updated[k]) ==
            Track(LastLives(before), Poll(now, live), idleTimeout)
  {}

  ghost predicate Tracked(relays: map<Key, Relay>, p: Pid) {
    exists k :: k in relays && relays[k].pid == p
  }

  /**
    Processes are numbered as they are started. Different relays have different processes, none of
    which was stopped, and every process ever started is tracked, was stopped, or has exited.
   */
  ghost predicate Accounted(relays: map<Key, Relay>, nextPid: Pid, stopped: set<Pid>, exited: set<Pid>) {
    && (forall k <- relays :: relays[k].pid < nextPid && relays[k].pid !in stopped)
    && (forall p <- stopped :: p < nextPid)
    && (forall k, l :: k in relays && l in relays && k != l ==> relays[k].pid != relays[l].pid)
    && (forall p: Pid :: p < nextPid ==> Tracked(relays, p) || p in stopped || p in exited)
    && (forall p <- exited :: p < nextPid)
  }

  lemma ExitedWereStarted(relays: map<Key, Relay>, nextPid: Pid, stopped: set<Pid>, exited: set<Pid>)
    requires Accounted(relays, nextPid, stopped, exited)
    ensures forall p <- exited :: p < nextPid
  {}

  /** Starting a process for a channel that had none, or whose process has exited. */
  lemma StartKeepsAccount(relays: map<Key, Relay>, k: Key, now: real, nextPid: Pid, stopped: set<Pid>, exited: set<Pid>)
    requires Accounted(relays, nextPid, stopped, exited)
    requires k in relays ==> relays[k].pid in exited
    ensures Accounted(relays[k := Relay(nextPid, now)], nextPid + 1, stopped, exited)
  {
    var m := relays[k := Relay(nextPid, now)];
    forall p: Pid | p < nextPid + 1
      ensures Tracked(m, p) || p in stopped || p in exited
    {
      if p == nextPid {
        assert m[k].pid == p;
      } else if Tracked(relays, p) && p !in exited {
        var l :| l in relays && relays[l].pid == p;
        assert l != k && m[l].pid == p;
      }
    }
  }

  /** No longer tracking a process that was stopped or has exited. */
  lemma StopKeepsAccount(relays: map<Key, Relay>, k: Key, nextPid: Pid, stopped: set<Pid>, exited: set<Pid>)
    requires Accounted(relays, nextPid, stopped, exited) && k in relays
    ensures Accounted(relays - {k}, nextPid,
                      if relays[k].pid in exited then stopped else stopped + {relays[k].pid}, exited)
  {
    var m := relays - {k};
    forall p: Pid | p < nextPid && p != relays[k].pid
      ensures Tracked(m, p) || p in stopped || p in exited
    {
      if Tracked(relays, p) {
        var l :| l in relays && relays[l].pid == p;
        assert m[l].pid == p;
      }
    }
  }

  lemma RefreshKeepsAccount(
      relays: map<Key, Relay>, k: Key, now: real, nextPid: Pid, stopped: set<Pid>, exited: set<Pid>)
    requires Accounted(relays, nextPid, stopped, exited) && k in relays
    ensures Accounted(relays[k := relays[k].(lastLive := now)], nextPid, stopped, exited)
  {
    var m := relays[k := relays[k].(lastLive := now)];
    forall p: Pid | Tracked(relays, p)
      ensures Tracked(m, p)
    {
      var l :| l in relays && relays[l].pid == p;
      assert m[l].pid == p;
    }
  }

  /** Exits that happen between two polls keep the account. */
  lemma ExitsKeepAccount(relays: map<Key, Relay>, nextPid: Pid, stopped: set<Pid>, exited: set<Pid>, more: set<Pid>)
    requires Accounted(relays, nextPid, stopped, exited) && exited <= more && forall p <- more :: p < nextPid
    ensures Accounted(relays, nextPid, stopped, more)
  {}

  /** The processes of the relays that have gone from the table, unless they had exited before. */
  function StoppedBetween(before: map<Key, Relay>, after: map<Key, Relay>, exited: set<Pid>): set<Pid> {
    set k | k in before && k !in after && before[k].pid !in exited :: before[k].pid
  }

  /** The table with the processes started, stopped and gone so far. */
  datatype Table = Table(relays: map<Key, Relay>, nextPid: Pid, stopped: set<Pid>, gone: set<Pid>)

  /**
    What one fetch does: nothing if it fails. Otherwise the exits are noted, the table becomes the
    next window, a new process is started for a live channel exactly when it had none that runs,
    and just the processes of the channels that fall out of the window are stopped.
   */
  ghost predicate PollStep(a: Table, f: Fetch, b: Table, idleTimeout: real) {
    if f.Failed? then b == a
    else
      && b.gone == a.gone + (set p | p in f.exits && p < a.nextPid)
      && LastLives(b.relays) == Track(LastLives(a.relays), f.poll, idleTimeout)
      && b.stopped == a.stopped + StoppedBetween(a.relays, b.relays, b.gone)
      && (forall k <- b.relays ::
            if k in a.relays && !(k in f.poll.live && a.relays[k].pid in b.gone) then
              b.relays[k].pid == a.relays[k].pid
            else b.relays[k].pid >= a.nextPid)
  }

  lemma WindowStep(a: Table, f: Fetch, b: Table, idleTimeout: real)
    requires PollStep(a, f, b, idleTimeout)
    ensures LastLives(b.relays) ==
            if f.Status? then Track(LastLives(a.relays), f.poll, idleTimeout) else LastLives(a.relays)
  {
    hide Track;
  }

  ghost predicate AccountedIn(t: Table) {
    Accounted(t.relays, t.nextPid, t.stopped, t.gone)
  }

  // ----- the manager -----------------------------------------------------------------------------

  class RelayManager {
    const idleTimeout: real
    var relays: map<Key, Relay>
    var nextPid: Pid
    var stopped: set<Pid>

    constructor (idleTimeout: real)
      ensures this.idleTimeout == idleTimeout && relays == map[] && Valid({})
    {
      this.idleTimeout := idleTimeout;
      relays, nextPid, stopped := map[], 0, {};
    }

    ghost predicate Valid(exited: set<Pid>)
      reads this
    {
      Accounted(relays, nextPid, stopped, exited)
    }

    method StartRelay(key: Key, now: real, ghost exited: set<Pid>)
      requires Valid(exited) && (key in relays ==> relays[key].pid in exited)
      modifies this
      ensures Valid(exited) && stopped == old(stopped) && nextPid == old(nextPid) + 1
      ensures relays == old(relays)[key := Relay(old(nextPid), now)]
    {
      StartKeepsAccount(relays, key, now, nextPid, stopped, exited);
      relays := relays[key := Relay(nextPid, now)];
      nextPid := nextPid + 1;
    }

    /** Terminates the process unless it has exited, and forgets the relay. */
    method StopRelay(key: Key, exited: set<Pid>)
      requires Valid(exited) && key in relays
      modifies this
      ensures Valid(exited) && nextPid == old(nextPid) && relays == old(relays) - {key}
      ensures stopped == if old(relays)[key].pid in exited then old(stopped) else old(stopped) + {old(relays)[key].pid}
    {
      StopKeepsAccount(relays, key, nextPid, stopped, exited);
      if relays[key].pid !in exited {
        stopped := stopped + {relays[key].pid};
      }
      relays := relays - {key};
    }

    /** One poll: `live` are the channels reported live, `exited` the processes that have a return code. */
    method Reconcile(live: set<Key>, now: real, exited: set<Pid>)
      requires Valid(exited)
      modifies this
      ensures Valid(exited)
      ensures LastLives(relays) == Track(LastLives(old(relays)), Poll(now, live), idleTimeout)
      ensures stopped == old(stopped) + StoppedBetween(old(relays), relays, exited)
      ensures forall k <- relays ::
                if k in old(relays) && !(k in live && old(relays)[k].pid in exited) then
                  relays[k].pid == old(relays)[k].pid
                else relays[k].pid >= old(nextPid)
      ensures forall k :: k in live ==> k in relays && relays[k].pid !in exited
    {
      hide Accounted, Track, LastLives;
      ghost var r0 := relays;
      ExitedWereStarted(relays, nextPid, stopped, exited);
      RefreshLive(live, now, exited);
      StartMissing(live, now, exited);
      ghost var r2 := relays;
      assert forall k <- r2 :: r2[k].lastLive == if k in live then now else r0[k].lastLive;
      RestartCrashed(live, now, exited);
      ghost var r3 := relays;
      assert forall k <- r3 :: r3[k].lastLive == if k in live then now else r0[k].lastLive;
      StopStale(live, now, exited);
      SurvivorsAreTracked(r0, r3, live, now, idleTimeout);
    }

    method RefreshLive(live: set<Key>, now: real, ghost exited: set<Pid>)
      requires Valid(exited)
      modifies this
      ensures Valid(exited) && stopped == old(stopped) && nextPid == old(nextPid)
      ensures relays.Keys == old(relays).Keys
      ensures forall k <- relays :: relays[k] == if k in live then old(relays)[k].(lastLive := now) else old(relays)[k]
    {
      hide Accounted;
      var todo := live;
      while todo != {}
        invariant todo <= live && Valid(exited) && stopped == old(stopped) && nextPid == old(nextPid)
        invariant relays.Keys == old(relays).Keys
        invariant forall k <- relays ::
                    relays[k] == if k in live - todo then old(relays)[k].(lastLive := now) else old(relays)[k]
        decreases todo
      {
        var key :| key in todo;
        if key in relays {
          RefreshKeepsAccount(relays, key, now, nextPid, stopped, exited);
          relays := relays[key := relays[key].(lastLive := now)];
        }
        todo := todo - {key};
      }
    }

    method StartMissing(live: set<Key>, now: real, ghost exited: set<Pid>)
      requires Valid(exited)
      modifies this
      ensures Valid(exited) && stopped == old(stopped) && nextPid >= old(nextPid)
      ensures relays.Keys == old(relays).Keys + live
      ensures forall k <- relays ::
                if k in old(relays) then relays[k] == old(relays)[k]
                else relays[k].lastLive == now && relays[k].pid >= old(nextPid)
    {
      hide Accounted;
      var todo := live;
      while todo != {}
        invariant todo <= live && Valid(exited) && stopped == old(stopped) && nextPid >= old(nextPid)
        invariant relays.Keys == old(relays).Keys + (live - todo)
        invariant forall k <- relays ::
                    if k in old(relays) then relays[k] == old(relays)[k]
                    else relays[k].lastLive == now && relays[k].pid >= old(nextPid)
        decreases todo
      {
        var key :| key in todo;
        if key !in relays {
          StartRelay(key, now, exited);
        }
        todo := todo - {key};
      }
    }

    method RestartCrashed(live: set<Key>, now: real, exited: set<Pid>)
      requires Valid(exited)
      modifies this
      ensures Valid(exited) && stopped == old(stopped) && nextPid >= old(nextPid)
      ensures relays.Keys == old(relays).Keys
      ensures forall k <- relays ::
                if k in live && old(relays)[k].pid in exited then
                  relays[k].lastLive == now && relays[k].pid >= old(nextPid)
                else relays[k] == old(relays)[k]
    {
      hide Accounted;
      var todo := relays.Keys;
      while todo != {}
        invariant todo <= old(relays).Keys && Valid(exited) && stopped == old(stopped) && nextPid >= old(nextPid)
        invariant relays.Keys == old(relays).Keys
        invariant forall k <- relays ::
                    if k !in todo && k in live && old(relays)[k].pid in exited then
                      relays[k].lastLive == now && relays[k].pid >= old(nextPid)
                    else relays[k] == old(relays)[k]
        decreases todo
      {
        var key :| key in todo;
        if key in live && relays[key].pid in exited {
          StartRelay(key, now, exited);
        }
        todo := todo - {key};
      }
    }

    method StopStale(live: set<Key>, now: real, exited: set<Pid>)
      requires Valid(exited)
      modifies this
      ensures Valid(exited) && nextPid == old(nextPid)
      ensures stopped == old(stopped) + StoppedBetween(old(relays), relays, exited)
      ensures relays == map k | k in old(relays) && (k in live || now - old(relays)[k].lastLive <= idleTimeout) ::
                          old(relays)[k]
    {
      hide Accounted;
      var todo := relays.Keys;
      while todo != {}
        invariant todo <= relays.Keys && Valid(exited) && nextPid == old(nextPid)
        invariant stopped == old(stopped) + StoppedBetween(old(relays), relays, exited)
        invariant relays == map k | k in old(relays) &&
                                    (k in todo || k in live || now - old(relays)[k].lastLive <= idleTimeout) ::
                              old(relays)[k]
        decreases todo
      {
        var key :| key in todo;
        var idle := now - relays[key].lastLive;
        if key !in live && idle > idleTimeout {
          StopRelay(key, exited);
        }
        todo := todo - {key};
      }
    }

    /**
      The polling loop. A poll that fails is skipped; one that succeeds reports the time, the
      live channels and the processes that have exited. `window` is what was tracked when the
      loop ended, `gone` are the processes seen to have exited, and `tables` are the tables before
      the first poll and after every one.
     */
    method Run(fetched: seq<Fetch>) returns (window: map<Key, real>, gone: set<Pid>, ghost tables: seq<Table>)
      requires Valid({}) && relays == map[]
      modifies this
      ensures window == After(Succeeded(fetched), idleTimeout)
      ensures relays == map[]
      ensures forall p: Pid :: p < nextPid ==> p in stopped || p in gone
      ensures |tables| == |fetched| + 1 && tables[0] == Table(map[], old(nextPid), old(stopped), {})
      ensures forall i :: 0 <= i < |fetched| ==> PollStep(tables[i], fetched[i], tables[i + 1], idleTimeout)
      ensures forall t <- tables :: AccountedIn(t)
      ensures gone == tables[|fetched|].gone && window == LastLives(tables[|fetched|].relays)
    {
      hide Accounted, After, Track, Succeeded, PollStep;
      gone := {};
      tables := [Table(relays, nextPid, stopped, gone)];
      NothingTracked(idleTimeout);
      assert LastLives(relays) == map[];
      assert fetched[..0] == [];
      for i := 0 to |fetched|
        invariant Valid(gone)
        invariant LastLives(relays) == After(Succeeded(fetched[..i]), idleTimeout)
        invariant |tables| == i + 1 && tables[0] == Table(map[], old(nextPid), old(stopped), {})
        invariant tables[i] == Table(relays, nextPid, stopped, gone)
        invariant forall j :: 0 <= j < i ==> PollStep(tables[j], fetched[j], tables[j + 1], idleTimeout)
        invariant forall t <- tables :: AccountedIn(t)
      {
        SucceededAppend(fetched[..i], fetched[i], idleTimeout);
        assert fetched[..i + 1] == fetched[..i] + [fetched[i]];
        ghost var before := tables[i];
        gone := OnFetch(fetched[i], gone);
        ghost var after := Table(relays, nextPid, stopped, gone);
        WindowStep(before, fetched[i], after, idleTimeout);
        tables := tables + [after];
      }
      assert fetched[..|fetched|] == fetched;
      window := LastLives(relays);
      Shutdown(gone);
    }

    /** One turn of the loop; `seen` is what had been seen to have exited. */
    method OnFetch(f: Fetch, seen: set<Pid>) returns (gone: set<Pid>)
      requires Valid(seen)
      modifies this
      ensures Valid(gone)
      ensures PollStep(
                old(Table(relays, nextPid, stopped, seen)), f, Table(relays, nextPid, stopped, gone), idleTimeout)
    {
      hide Accounted, Track;
      gone := seen;
      if f.Status? {
        gone := gone + set p | p in f.exits && p < nextPid;
        ExitedWereStarted(relays, nextPid, stopped, seen);
        ExitsKeepAccount(relays, nextPid, stopped, seen, gone);
        assert Poll(f.poll.time, f.poll.live) == f.poll;
        Reconcile(f.poll.live, f.poll.time, gone);
      }
    }

    /** The end of the run: no process is left that is neither stopped nor gone. */
    method Shutdown(exited: set<Pid>)
      requires Valid(exited)
      modifies this
      ensures relays == map[] && nextPid == old(nextPid)
      ensures forall p: Pid :: p < nextPid ==> p in stopped || p in exited
    {
      while relays != map[]
        invariant Valid(exited) && nextPid == old(nextPid)
        decreases |relays|
      {
        var key :| key in relays;
        StopRelay(key, exited);
      }
    }
  }
}
