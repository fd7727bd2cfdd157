/** The backend registry and the health loop that drives it. */
module Backends {
  import opened Bytes
  import opened Modular
  import opened Streams
  import opened Selection
  import Probes

  datatype SocketAddr = SocketAddr(ip: nat, port: nat)

  class BackendEntry {
    const addr: SocketAddr
    var healthy: bool
    var consecutiveFailures: nat
    var consecutiveSuccesses: nat

    constructor (addr: SocketAddr)
      ensures this.addr == addr && Probed() == Probes.FRESH
    {
      this.addr := addr;
      healthy, consecutiveFailures, consecutiveSuccesses := true, 0, 0;
    }

    function Probed(): Probes.Probed
      reads this
    {
      Probes.Probed(healthy, consecutiveFailures, consecutiveSuccesses)
    }
  }

  class BackendSet {
    const entries: seq<BackendEntry>
    var nextIndex: nat

    /** One object per entry, and one entry per address: the probe-recording calls find an entry by
        its address and would only ever reach the first of two. */
    ghost predicate Valid()
      reads this
    {
      && nextIndex < TWO_64 && |entries| <= TWO_64
      && (forall i, j | 0 <= i < j < |entries| :: entries[i] != entries[j] && entries[i].addr != entries[j].addr)
    }

    ghost function Flags(): (h: seq<bool>)
      reads this, entries
      ensures |h| == |entries| && forall i | 0 <= i < |entries| :: h[i] == entries[i].healthy
    {
      seq(|entries|, i requires 0 <= i < |entries| reads this, entries => entries[i].healthy)
    }

    /** Where the probes so far have left each entry. */
    ghost function States(): (ps: seq<Probes.Probed>)
      reads this, entries
      ensures |ps| == |entries| && forall i | 0 <= i < |entries| :: ps[i] == entries[i].Probed()
    {
      seq(|entries|, i requires 0 <= i < |entries| reads this, entries => entries[i].Probed())
    }

    ghost function Addrs(): (addrs: seq<SocketAddr>)
      ensures |addrs| == |entries| && forall i | 0 <= i < |entries| :: addrs[i] == entries[i].addr
    {
      seq(|entries|, i requires 0 <= i < |entries| => entries[i].addr)
    }

    constructor (addrs: seq<SocketAddr>)
      requires |addrs| <= TWO_64
      requires forall i, j | 0 <= i < j < |addrs| :: addrs[i] != addrs[j]
      ensures Valid() && fresh(entries) && |entries| == |addrs| && nextIndex == 0
      ensures forall i | 0 <= i < |addrs| :: entries[i].addr == addrs[i] && entries[i].Probed() == Probes.FRESH
    {
      var made: seq<BackendEntry> := [];
      var k := 0;
      while k < |addrs|
        invariant k == |made| <= |addrs| && fresh(made)
        invariant forall i | 0 <= i < k :: made[i].addr == addrs[i] && made[i].Probed() == Probes.FRESH
        invariant forall i, j | 0 <= i < j < k :: made[i] != made[j]
      {
        var entry := new BackendEntry(addrs[k]);
        made := made + [entry];
        k := k + 1;
      }
      entries, nextIndex := made, 0;
    }

    /** Draws a ticket and scans from it; the addition wraps at 2^64. */
    method SelectNext() returns (r: Result<SocketAddr>)
      requires Valid()
      modifies this`nextIndex
      ensures Valid() && Flags() == old(Flags())
      ensures entries == [] ==> r == Err(EmptyServerList) && nextIndex == old(nextIndex)
      ensures entries != [] ==> nextIndex == (old(nextIndex) + 1) % TWO_64
      ensures entries != [] ==>
                match Pick(Flags(), old(nextIndex))
                case Some(i) => r == Ok(entries[i].addr)
                case None => r == Err(NoHealthyBackend)
    {
      var len := |entries|;
      if len == 0 {
        return Err(EmptyServerList);
      }
      var start := nextIndex;
      nextIndex := (nextIndex + 1) % TWO_64;
      hide Slot;
      ghost var h := Flags();
      var offset := 0;
      while offset < len
        invariant offset <= len && nextIndex == (start + 1) % TWO_64 && Flags() == h
        invariant Pick(h, start) == Scan(h, start, offset)
      {
        var index := Slot(start, offset, len);
        if entries[index].healthy {
          return Ok(entries[index].addr);
        }
        offset := offset + 1;
      }
      r := Err(NoHealthyBackend);
    }

    method EntryFor(addr: SocketAddr) returns (r: Option<nat>)
      requires Valid()
      ensures r.Some? ==> r.value < |entries| && entries[r.value].addr == addr
      ensures r.None? ==> forall i | 0 <= i < |entries| :: entries[i].addr != addr
    {
      var i := 0;
      while i < |entries|
        invariant i <= |entries| && forall j | 0 <= j < i :: entries[j].addr != addr
      {
        if entries[i].addr == addr {
          return Some(i);
        }
        i := i + 1;
      }
      r := None;
    }

    /** What a recorded probe does: the entry with the address takes the step, no other changes. */
    twostate predicate Recorded(addr: SocketAddr, ok: bool, t: Probes.Thresholds)
      reads this, entries
    {
      forall i | 0 <= i < |entries| ::
        entries[i].Probed()
        == if entries[i].addr == addr then Probes.AfterProbe(old(entries[i].Probed()), ok, t)
           else old(entries[i].Probed())
    }

    method RecordProbeSuccess(addr: SocketAddr, recoveryThreshold: nat)
      requires Valid()
      modifies entries
      ensures Valid()
      ensures forall failure: nat :: Recorded(addr, true, Probes.Thresholds(failure, recoveryThreshold))
    {
      var found := EntryFor(addr);
      if found.Some? {
        var entry := entries[found.value];
        entry.consecutiveFailures := 0;
        entry.consecutiveSuccesses := Probes.Saturated(entry.consecutiveSuccesses + 1);
        if entry.consecutiveSuccesses >= recoveryThreshold {
          entry.healthy := true;
        }
      }
    }

    method RecordProbeFailure(addr: SocketAddr, failureThreshold: nat)
      requires Valid()
      modifies entries
      ensures Valid()
      ensures forall recovery: nat :: Recorded(addr, false, Probes.Thresholds(failureThreshold, recovery))
    {
      var found := EntryFor(addr);
      if found.Some? {
        var entry := entries[found.value];
        entry.consecutiveSuccesses := 0;
        entry.consecutiveFailures := Probes.Saturated(entry.consecutiveFailures + 1);
        if entry.consecutiveFailures >= failureThreshold {
          entry.healthy := false;
        }
      }
    }

    method IsHealthy(addr: SocketAddr) returns (r: bool)
      requires Valid()
      ensures r <==> exists i :: 0 <= i < |entries| && entries[i].addr == addr && entries[i].healthy
    {
      var found := EntryFor(addr);
      r := found.Some? && entries[found.value].healthy;
      if found.Some? {
        forall i | 0 <= i < |entries| && entries[i].addr == addr
          ensures i == found.value
        {
        }
      }
    }
  }

  // ---------- The health loop ----------

  /** The results that went to backend `i` when backends are probed in turn. */
  function HistoryOf(outcomes: seq<bool>, n: nat, i: nat): seq<bool>
    requires n > 0
  {
    if outcomes == [] then []
    else
      var before := HistoryOf(outcomes[..|outcomes| - 1], n, i);
      if (|outcomes| - 1) % n == i then before + [outcomes[|outcomes| - 1]] else before
  }

  datatype Logged = Logged(backend: SocketAddr, event: Probes.Event)

  /** The events logged for one backend, in order. */
  function LoggedFor(log: seq<Logged>, addr: SocketAddr): seq<Probes.Event> {
    if log == [] then []
    else
      var before := LoggedFor(log[..|log| - 1], addr);
      if log[|log| - 1].backend == addr then before + [log[|log| - 1].event] else before
  }

  lemma LoggedSnoc(log: seq<Logged>, l: Logged, addr: SocketAddr)
    ensures LoggedFor(log + [l], addr)
         == if l.backend == addr then LoggedFor(log, addr) + [l.event] else LoggedFor(log, addr)
  {
    assert (log + [l])[..|log|] == log;
  }

  lemma HistorySnoc(outcomes: seq<bool>, ok: bool, n: nat, i: nat)
    requires n > 0
    ensures HistoryOf(outcomes + [ok], n, i)
         == if |outcomes| % n == i then HistoryOf(outcomes, n, i) + [ok] else HistoryOf(outcomes, n, i)
  {
    assert (outcomes + [ok])[..|outcomes|] == outcomes;
  }

  /** A backend is where its own probes leave it, and its events are those of its own probes. */
  ghost predicate Tracks(now: Probes.Probed, events: seq<Probes.Event>, start: Probes.Probed, history: seq<bool>,
                         t: Probes.Thresholds)
  {
    now == Probes.AfterProbes(start, history, t) && events == Probes.EventsOf(start, history, t)
  }

  /** Every backend tracks its own share of the probes. */
  ghost predicate TracksAll(addrs: seq<SocketAddr>, now: seq<Probes.Probed>, log: seq<Logged>,
                            starts: seq<Probes.Probed>, outcomes: seq<bool>, t: Probes.Thresholds)
  {
    |addrs| == |now| == |starts| > 0 &&
    forall i: nat | i < |starts| ::
      Tracks(now[i], LoggedFor(log, addrs[i]), starts[i], HistoryOf(outcomes, |starts|, i), t)
  }

  lemma ProbesSnoc(start: Probes.Probed, history: seq<bool>, ok: bool, t: Probes.Thresholds)
    ensures var p := Probes.AfterProbes(start, history, t);
            var q := Probes.AfterProbe(p, ok, t);
            && Probes.AfterProbes(start, history + [ok], t) == q
            && Probes.EventsOf(start, history + [ok], t)
            == Probes.EventsOf(start, history, t) + Probes.EventOf(p, q, ok)
  {
    assert (history + [ok])[..|history|] == history;
  }

  /** One probe of one backend: record its result and log a change of health. */
  method ProbeOne(backends: BackendSet, addr: SocketAddr, probeOk: bool, t: Probes.Thresholds)
    returns (log: seq<Logged>, ghost at: nat)
    requires backends.Valid() && exists i :: 0 <= i < |backends.entries| && backends.entries[i].addr == addr
    modifies backends.entries
    ensures backends.Valid()
    ensures at < |backends.entries| && backends.entries[at].addr == addr
    ensures backends.Recorded(addr, probeOk, t)
    ensures var events := Probes.EventOf(old(backends.entries[at].Probed()), backends.entries[at].Probed(), probeOk);
            log == if events == [] then [] else [Logged(addr, events[0])]
  {
    at :| 0 <= at < |backends.entries| && backends.entries[at].addr == addr;
    log := [];
    var wasHealthy := backends.IsHealthy(addr);
    assert wasHealthy == backends.entries[at].healthy;
    if probeOk {
      backends.RecordProbeSuccess(addr, t.recovery);
      assert backends.Recorded(addr, true, Probes.Thresholds(t.failure, t.recovery));
      var nowHealthy := backends.IsHealthy(addr);
      if !wasHealthy && nowHealthy {
        log := [Logged(addr, Probes.BackendRecovered)];
      }
    } else {
      backends.RecordProbeFailure(addr, t.failure);
      assert backends.Recorded(addr, false, Probes.Thresholds(t.failure, t.recovery));
      var nowHealthy := backends.IsHealthy(addr);
      if wasHealthy && !nowHealthy {
        log := [Logged(addr, Probes.BackendUnhealthy)];
      }
    }
  }

  /** What one probe of backend `at` does to all of them. */
  lemma TracksStep(addrs: seq<SocketAddr>, now: seq<Probes.Probed>, after: seq<Probes.Probed>,
                   log: seq<Logged>, more: seq<Logged>, starts: seq<Probes.Probed>, outcomes: seq<bool>,
                   at: nat, ok: bool, t: Probes.Thresholds, i: nat)
    requires TracksAll(addrs, now, log, starts, outcomes, t) && at < |addrs| && i < |addrs|
    requires |outcomes| % |starts| == at
    requires |after| == |now| && after[i] == if i == at then Probes.AfterProbe(now[i], ok, t) else now[i]
    requires addrs[i] == addrs[at] ==> i == at
    requires var events := Probes.EventOf(now[at], Probes.AfterProbe(now[at], ok, t), ok);
             more == if events == [] then [] else [Logged(addrs[at], events[0])]
    ensures Tracks(after[i], LoggedFor(log + more, addrs[i]), starts[i], HistoryOf(outcomes + [ok], |starts|, i), t)
  {
    hide Probes.AfterProbe, Probes.AfterProbes, Probes.EventsOf, HistoryOf, LoggedFor;
    HistorySnoc(outcomes, ok, |starts|, i);
    ProbesSnoc(starts[i], HistoryOf(outcomes, |starts|, i), ok, t);
    assert log + [] == log;
    var earlier := Probes.EventsOf(starts[i], HistoryOf(outcomes, |starts|, i), t);
    assert earlier + [] == earlier;
    if more != [] {
      LoggedSnoc(log, more[0], addrs[i]);
    }
  }

  method ProbeNext(backends: BackendSet, j: nat, ghost starts: seq<Probes.Probed>, ghost outcomes: seq<bool>,
                   log: seq<Logged>, ok: bool, t: Probes.Thresholds) returns (longer: seq<Logged>)
    requires backends.Valid() && TracksAll(backends.Addrs(), backends.States(), log, starts, outcomes, t)
    requires j < |backends.entries| && |outcomes| % |backends.entries| == j
    modifies backends.entries
    ensures backends.Valid() && TracksAll(backends.Addrs(), backends.States(), longer, starts, outcomes + [ok], t)
  {
    hide Probes.AfterProbe, Probes.AfterProbes, Probes.EventsOf, Probes.EventOf, HistoryOf, LoggedFor, Tracks;
    ghost var addrs, now := backends.Addrs(), backends.States();
    assert backends.entries[j].addr == backends.entries[j].addr;
    var more, at := ProbeOne(backends, backends.entries[j].addr, ok, t);
    longer := log + more;
    ghost var after := backends.States();
    forall i: nat | i < |starts|
      ensures Tracks(after[i], LoggedFor(longer, addrs[i]), starts[i], HistoryOf(outcomes + [ok], |starts|, i), t)
    {
      assert after[i] == if backends.entries[i].addr == addrs[j] then Probes.AfterProbe(now[i], ok, t) else now[i];
      TracksStep(addrs, now, after, log, more, starts, outcomes, j, ok, t, i);
    }
  }

  /** Probes the backends in turn, round after round, until the stop flag is seen in front of probe
      number `|outcomes|`; `outcomes` are the results of the probes made. */
  method HealthLoop(backends: BackendSet, t: Probes.Thresholds, outcomes: seq<bool>) returns (log: seq<Logged>)
    requires backends.Valid() && backends.entries != []
    modifies backends.entries
    ensures backends.Valid()
    ensures TracksAll(backends.Addrs(), backends.States(), log, old(backends.States()), outcomes, t)
  {
    hide HistoryOf, Tracks;
    var n := |backends.entries|;
    ghost var starts := backends.States();
    log := [];
    var made, round := 0, 0;
    NoProbesYet(backends.Addrs(), starts, t);
    while made < |outcomes|
      invariant made <= |outcomes| && backends.Valid()
      invariant made < |outcomes| ==> made == round * n
      invariant TracksAll(backends.Addrs(), backends.States(), log, starts, outcomes[..made], t)
      decreases |outcomes| - made
    {
      var j := 0;
      while j < n && made < |outcomes|
        invariant made <= |outcomes| && backends.Valid() && j <= n && made == round * n + j
        invariant TracksAll(backends.Addrs(), backends.States(), log, starts, outcomes[..made], t)
      {
        DivModUnique(made, n, round, j);
        log := ProbeNext(backends, j, starts, outcomes[..made], log, outcomes[made], t);
        assert outcomes[..made] + [outcomes[made]] == outcomes[..made + 1];
        made, j := made + 1, j + 1;
      }
      assert made < |outcomes| ==> made == (round + 1) * n;
      round := round + 1;
    }
    assert outcomes[..made] == outcomes;
  }

  lemma NoProbesYet(addrs: seq<SocketAddr>, starts: seq<Probes.Probed>, t: Probes.Thresholds)
    requires |addrs| == |starts| > 0
    ensures TracksAll(addrs, starts, [], starts, [], t)
  {
  }

  /** What the log of a health loop started on fresh entries says: per backend the events alternate,
      starting with `BackendUnhealthy`, an odd number means it is down now, and together they cost no
      more probes than the backend got. */
  lemma LogIsBounded(addrs: seq<SocketAddr>, now: seq<Probes.Probed>, log: seq<Logged>, starts: seq<Probes.Probed>,
                     outcomes: seq<bool>, t: Probes.Thresholds, i: nat)
    requires TracksAll(addrs, now, log, starts, outcomes, t) && i < |addrs|
    requires starts[i] == Probes.FRESH && Probes.Valid(t)
    ensures var events, history := LoggedFor(log, addrs[i]), HistoryOf(outcomes, |addrs|, i);
            && (forall k | 0 <= k < |events| ::
                  events[k] == if k % 2 == 0 then Probes.BackendUnhealthy else Probes.BackendRecovered)
            && (now[i].healthy <==> |events| % 2 == 0)
            && (now[i].healthy <==> Probes.HealthyByHistory(history, t))
            && t.failure * Probes.Count(events, Probes.BackendUnhealthy)
               + t.recovery * Probes.Count(events, Probes.BackendRecovered) <= |history|
  {
    hide HistoryOf, LoggedFor, Probes.AfterProbes, Probes.EventsOf, Probes.HealthyByHistory, Probes.Count;
    var history := HistoryOf(outcomes, |addrs|, i);
    assert Tracks(now[i], LoggedFor(log, addrs[i]), starts[i], history, t);
    Probes.EventsAlternate(history, t);
    Probes.FlappingIsBounded(history, t);
    Probes.HealthIsHistory(history, t);
  }
}
