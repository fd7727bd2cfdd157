/** Selection under concurrency: every ticket draw and every load of a health flag is a step of its
    own, and flags change between them. */
module ConcurrentSelection {
  import opened Bytes
  import opened Selection

  /** A call of `select_next`: drawn a ticket and looked at `offset` backends; or done. */
  datatype Call =
    | Scanning(ticket: nat, offset: nat)
    | Selected(ticket: nat, offset: nat)
    | NoneHealthy(ticket: nat)

  datatype State = State(health: seq<bool>, nextTicket: nat, calls: map<nat, Call>)

  datatype Step = Draw(call: nat) | Load(call: nat) | Flip(index: nat, up: bool)

  predicate Enabled(s: State, step: Step) {
    match step
    case Draw(c) => c !in s.calls && s.nextTicket < TWO_64
    case Load(c) => c in s.calls && s.calls[c].Scanning? && s.calls[c].offset < |s.health|
    case Flip(i, _) => i < |s.health|
  }

  function Looked(health: seq<bool>, ticket: nat, offset: nat): Call
    requires offset < |health|
  {
    if health[Slot(ticket, offset, |health|)] then Selected(ticket, offset)
    else if offset + 1 == |health| then NoneHealthy(ticket)
    else Scanning(ticket, offset + 1)
  }

  function Apply(s: State, step: Step): State
    requires Enabled(s, step)
  {
    match step
    case Draw(c) => s.(calls := s.calls[c := Scanning(s.nextTicket, 0)], nextTicket := s.nextTicket + 1)
    case Load(c) => s.(calls := s.calls[c := Looked(s.health, s.calls[c].ticket, s.calls[c].offset)])
    case Flip(i, up) => s.(health := s.health[i := up])
  }

  ghost predicate Next(s: State, t: State) {
    exists step :: Enabled(s, step) && t == Apply(s, step)
  }

  /** A run of any interleaving, from no calls. */
  ghost predicate IsRun(run: seq<State>) {
    && run != [] && run[0].calls == map[] && run[0].health != []
    && forall k | 0 <= k < |run| - 1 :: Next(run[k], run[k + 1])
  }

  lemma {:induction false} SizeIsFixed(run: seq<State>, k: nat)
    requires IsRun(run) && k < |run|
    ensures |run[k].health| == |run[0].health|
  {
    if k > 0 {
      SizeIsFixed(run, k - 1);
      assert Next(run[k - 1], run[k - 1 + 1]);
    }
  }

  /** Backend `i` was up (or down) at some moment from `from` to `now`. */
  ghost predicate Was(run: seq<State>, from: nat, now: nat, i: nat, up: bool) {
    exists k :: from <= k <= now < |run| && i < |run[k].health| && run[k].health[i] == up
  }

  ghost predicate DownBefore(run: seq<State>, from: nat, now: nat, n: nat, ticket: nat, offset: nat)
    requires n > 0
  {
    forall o: nat | o < offset :: Was(run, from, now, Slot(ticket, o, n), false)
  }

  lemma DownGrows(run: seq<State>, from: nat, now: nat, n: nat, ticket: nat, offset: nat)
    requires n > 0 && now + 1 < |run| && DownBefore(run, from, now, n, ticket, offset)
    ensures DownBefore(run, from, now + 1, n, ticket, offset)
  {
    forall o: nat | o < offset
      ensures Was(run, from, now + 1, Slot(ticket, o, n), false)
    {
      assert Was(run, from, now, Slot(ticket, o, n), false);
    }
  }

  /** What a call may claim at moment `now` when it drew its ticket at moment `from`. */
  ghost predicate Justified(run: seq<State>, from: nat, now: nat, n: nat, call: Call)
    requires n > 0
  {
    match call
    case Scanning(t, o) => o < n && DownBefore(run, from, now, n, t, o)
    case Selected(t, o) => o < n && DownBefore(run, from, now, n, t, o) && Was(run, from, now, Slot(t, o, n), true)
    case NoneHealthy(t) => DownBefore(run, from, now, n, t, n)
  }

  lemma LookedIsJustified(run: seq<State>, from: nat, now: nat, n: nat, ticket: nat, offset: nat)
    requires n > 0 && from <= now && now + 1 < |run| && |run[now].health| == n && offset < n
    requires DownBefore(run, from, now, n, ticket, offset)
    ensures Justified(run, from, now + 1, n, Looked(run[now].health, ticket, offset))
  {
    var i := Slot(ticket, offset, n);
    assert Was(run, from, now + 1, i, run[now].health[i]);
    hide Was;
    DownGrows(run, from, now, n, ticket, offset);
  }

  /** At every moment of every run, every call is justified by what happened since it drew. */
  lemma {:induction false} CallsAreJustified(run: seq<State>, from: nat, now: nat, c: nat)
    requires IsRun(run) && from <= now < |run|
    requires c in run[from].calls && run[from].calls[c].Scanning? && run[from].calls[c].offset == 0
    ensures c in run[now].calls && Justified(run, from, now, |run[0].health|, run[now].calls[c])
    decreases now
  {
    hide Was, Looked;
    SizeIsFixed(run, now);
    if from < now {
      CallsAreJustified(run, from, now - 1, c);
      SizeIsFixed(run, now - 1);
      var s, n := run[now - 1], |run[0].health|;
      assert Next(run[now - 1], run[now - 1 + 1]);
      var step :| Enabled(s, step) && run[now] == Apply(s, step);
      if step == Load(c) {
        LookedIsJustified(run, from, now - 1, n, s.calls[c].ticket, s.calls[c].offset);
      } else {
        assert run[now].calls[c] == s.calls[c];
        StaysJustified(run, from, now - 1, n, s.calls[c]);
      }
    }
  }

  lemma StaysJustified(run: seq<State>, from: nat, now: nat, n: nat, call: Call)
    requires n > 0 && now + 1 < |run| && Justified(run, from, now, n, call)
    ensures Justified(run, from, now + 1, n, call)
  {
    DownGrows(run, from, now, n, call.ticket, if call.NoneHealthy? then n else call.offset);
  }

  /** A backend that a call returns was healthy at some moment within the call. */
  lemma SelectedWasHealthy(run: seq<State>, from: nat, now: nat, c: nat)
    requires IsRun(run) && from <= now < |run|
    requires c in run[from].calls && run[from].calls[c].Scanning? && run[from].calls[c].offset == 0
    requires c in run[now].calls && run[now].calls[c].Selected?
    ensures var call := run[now].calls[c];
            Was(run, from, now, Slot(call.ticket, call.offset, |run[0].health|), true)
  {
    CallsAreJustified(run, from, now, c);
  }

  /** When a call finds no healthy backend, every backend was unhealthy at some moment within it, as
      long as its scan stays clear of the wrap-around. */
  lemma NoneHealthyMeansAllWereDown(run: seq<State>, from: nat, now: nat, c: nat, i: nat)
    requires IsRun(run) && from <= now < |run|
    requires c in run[from].calls && run[from].calls[c].Scanning? && run[from].calls[c].offset == 0
    requires c in run[now].calls && run[now].calls[c].NoneHealthy?
    requires i < |run[0].health| <= TWO_64 && run[now].calls[c].ticket < TWO_64
    requires ScanIsCyclic(run[now].calls[c].ticket, |run[0].health|)
    ensures Was(run, from, now, i, false)
  {
    hide Was;
    CallsAreJustified(run, from, now, c);
    LooksEverywhereIff(run[now].calls[c].ticket, |run[0].health|);
    assert LooksAt(run[now].calls[c].ticket, |run[0].health|, i);
  }

  /** With health unchanged during a call, the call returns what the sequential selection returns. */
  lemma QuietCallIsPick(run: seq<State>, from: nat, now: nat, c: nat)
    requires IsRun(run) && from <= now < |run|
    requires c in run[from].calls && run[from].calls[c].Scanning? && run[from].calls[c].offset == 0
    requires forall k | from <= k <= now :: run[k].health == run[now].health
    ensures c in run[now].calls && run[now].health != []
    ensures var call, h := run[now].calls[c], run[now].health;
            && (call.Selected? ==> Pick(h, call.ticket) == Some(Slot(call.ticket, call.offset, |h|)))
            && (call.NoneHealthy? ==> Pick(h, call.ticket) == None)
  {
    hide Slot;
    CallsAreJustified(run, from, now, c);
    SizeIsFixed(run, now);
    var call, h := run[now].calls[c], run[now].health;
    if call.Selected? {
      ScanFinds(h, call.ticket, 0, call.offset);
    } else if call.NoneHealthy? {
      ScanMisses(h, call.ticket, 0);
    }
  }

  ghost predicate TicketsDistinct(s: State) {
    && (forall c | c in s.calls :: s.calls[c].ticket < s.nextTicket)
    && (forall c, d | c in s.calls && d in s.calls && c != d :: s.calls[c].ticket != s.calls[d].ticket)
  }

  /** No two calls of a run share a ticket. */
  lemma {:induction false} NoSharedTickets(run: seq<State>, k: nat)
    requires IsRun(run) && k < |run|
    ensures TicketsDistinct(run[k])
  {
    hide Slot;
    if k > 0 {
      NoSharedTickets(run, k - 1);
      assert Next(run[k - 1], run[k - 1 + 1]);
    }
  }

  // ---------- Calls end ----------

  lemma CanLoad(s: State, c: nat) returns (t: State)
    requires c in s.calls && s.calls[c].Scanning? && s.calls[c].offset < |s.health|
    ensures Next(s, t) && t.health == s.health && t.nextTicket == s.nextTicket
    ensures t.calls == s.calls[c := Looked(s.health, s.calls[c].ticket, s.calls[c].offset)]
  {
    t := Apply(s, Load(c));
    assert Enabled(s, Load(c));
  }

  /** A call that still scans can always run to its end, whatever the others do not do: what it returns is
      the result of the sequential scan from where it is. */
  lemma {:induction false} CallCanEnd(s: State, c: nat) returns (run: seq<State>)
    requires c in s.calls && s.calls[c].Scanning? && s.calls[c].offset < |s.health|
    ensures run != [] && run[0] == s && (forall k | 0 <= k < |run| - 1 :: Next(run[k], run[k + 1]))
    ensures var t, call := run[|run| - 1], s.calls[c];
            && t.health == s.health && t.nextTicket == s.nextTicket && c in t.calls && !t.calls[c].Scanning?
            && t.calls == s.calls[c := t.calls[c]] && t.calls[c].ticket == call.ticket
            && Returned(t.calls[c], |s.health|) == Scan(s.health, call.ticket, call.offset)
    decreases |s.health| - s.calls[c].offset
  {
    hide Next, Slot;
    var t := CanLoad(s, c);
    if t.calls[c].Scanning? {
      var rest := CallCanEnd(t, c);
      ChainGrows(s, rest);
      run := [s] + rest;
    } else {
      run := [s, t];
    }
  }

  /** A new call can draw the next ticket at any time, and any backend can change its health. */
  lemma CanDraw(s: State, c: nat) returns (t: State)
    requires c !in s.calls && s.nextTicket < TWO_64
    ensures Next(s, t) && t == s.(calls := s.calls[c := Scanning(s.nextTicket, 0)], nextTicket := s.nextTicket + 1)
  {
    t := Apply(s, Draw(c));
    assert Enabled(s, Draw(c));
  }

  lemma CanFlip(s: State, i: nat, up: bool) returns (t: State)
    requires i < |s.health|
    ensures Next(s, t) && t == s.(health := s.health[i := up])
  {
    t := Apply(s, Flip(i, up));
    assert Enabled(s, Flip(i, up));
  }

  /** Whatever other calls are under way, a new one can run to its end, with the next ticket and the result
      of the sequential selection. */
  lemma SelectionCanEnd(s: State, c: nat) returns (run: seq<State>)
    requires c !in s.calls && s.nextTicket < TWO_64 && s.health != []
    ensures run != [] && run[0] == s && (forall k | 0 <= k < |run| - 1 :: Next(run[k], run[k + 1]))
    ensures var t := run[|run| - 1];
            && c in t.calls && !t.calls[c].Scanning? && t.calls == s.calls[c := t.calls[c]]
            && t.health == s.health && t.nextTicket == s.nextTicket + 1
            && Returned(t.calls[c], |s.health|) == Pick(s.health, s.nextTicket)
  {
    hide Next, Slot, Scan;
    var t := CanDraw(s, c);
    var rest := CallCanEnd(t, c);
    ChainGrows(s, rest);
    run := [s] + rest;
  }

  lemma ChainGrows(s: State, run: seq<State>)
    requires run != [] && Next(s, run[0]) && forall k | 0 <= k < |run| - 1 :: Next(run[k], run[k + 1])
    ensures forall k | 0 <= k < |run| :: Next(([s] + run)[k], ([s] + run)[k + 1])
  {
    hide Next;
    forall k | 0 <= k < |run|
      ensures Next(([s] + run)[k], ([s] + run)[k + 1])
    {
      if k > 0 {
        assert Next(run[k - 1], run[k - 1 + 1]);
      }
    }
  }

  // ---------- Shares ----------

  predicate Holds(s: State, c: nat, ticket: nat) { c in s.calls && s.calls[c].ticket == ticket }

  ghost predicate IsHeld(s: State, ticket: nat) { exists c :: Holds(s, c, ticket) }

  /** Every ticket drawn in a run is held by a call. */
  lemma {:induction false} TicketsAreHeld(run: seq<State>, k: nat, ticket: nat)
    requires IsRun(run) && k < |run| && run[0].nextTicket <= ticket < run[k].nextTicket
    ensures IsHeld(run[k], ticket)
  {
    hide Looked;
    var s := run[k - 1];
    assert Next(run[k - 1], run[k - 1 + 1]);
    var step :| Enabled(s, step) && run[k] == Apply(s, step);
    if ticket < s.nextTicket {
      TicketsAreHeld(run, k - 1, ticket);
      var c :| Holds(s, c, ticket);
      LookedKeepsTicket(s.health, s.calls[c]);
      assert Holds(run[k], c, ticket);
    } else {
      assert Holds(run[k], step.call, ticket);
    }
  }

  lemma LookedKeepsTicket(health: seq<bool>, call: Call)
    ensures call.Scanning? && call.offset < |health| ==> Looked(health, call.ticket, call.offset).ticket == call.ticket
  {
  }

  /** A call whose ticket was not drawn yet at moment `from` drew it later. */
  lemma {:induction false} DrewLater(run: seq<State>, from: nat, now: nat, c: nat) returns (at: nat)
    requires IsRun(run) && from <= now < |run|
    requires c in run[now].calls && run[from].nextTicket <= run[now].calls[c].ticket
    ensures from <= at <= now && c in run[at].calls
    ensures run[at].calls[c] == Scanning(run[now].calls[c].ticket, 0)
    decreases now
  {
    hide Looked, Slot;
    NoSharedTickets(run, from);
    var s := run[now - 1];
    assert Next(run[now - 1], run[now - 1 + 1]);
    var step :| Enabled(s, step) && run[now] == Apply(s, step);
    if c in s.calls {
      LookedKeepsTicket(s.health, s.calls[c]);
      at := DrewLater(run, from, now - 1, c);
    } else {
      at := now;
    }
  }

  function Returned(call: Call, n: nat): Option<nat>
    requires n > 0
  {
    if call.Selected? then Some(Slot(call.ticket, call.offset, n)) else None
  }

  /** The calls with tickets from `t` to `u`, `u` excluded, that returned backend `i`. */
  function CallsReturning(s: State, t: nat, u: nat, i: nat): set<nat>
    requires s.health != []
  {
    set c | c in s.calls && t <= s.calls[c].ticket < u && Returned(s.calls[c], |s.health|) == Some(i)
  }

  /** Every ticket from `t` to `u` is held, and its call returned what the sequential selection does. */
  ghost predicate Settled(s: State, t: nat, u: nat)
    requires s.health != []
  {
    && (forall x: nat | t <= x < u :: IsHeld(s, x))
    && (forall c | c in s.calls && t <= s.calls[c].ticket < u ::
          Returned(s.calls[c], |s.health|) == Pick(s.health, s.calls[c].ticket))
  }

  lemma {:induction false} CallsAreSelections(s: State, t: nat, m: nat, i: nat)
    requires s.health != [] && TicketsDistinct(s) && Settled(s, t, t + m)
    ensures |CallsReturning(s, t, t + m, i)| == Selections(s.health, t, m, i)
  {
    hide Slot, Pick, Returned, TicketsDistinct;
    if m == 0 {
      assert CallsReturning(s, t, t + m, i) == {};
    } else {
      var last := t + m - 1;
      CallsAreSelections(s, t, m - 1, i);
      assert IsHeld(s, last);
      var c :| Holds(s, c, last);
      OneMoreCall(s, t, last, i, c);
    }
  }

  lemma OneMoreCall(s: State, t: nat, u: nat, i: nat, c: nat)
    requires s.health != [] && TicketsDistinct(s) && t <= u && Holds(s, c, u)
    ensures |CallsReturning(s, t, u + 1, i)|
         == |CallsReturning(s, t, u, i)| + if Returned(s.calls[c], |s.health|) == Some(i) then 1 else 0
  {
    hide Slot, Returned;
    var before := CallsReturning(s, t, u, i);
    assert CallsReturning(s, t, u + 1, i)
        == if Returned(s.calls[c], |s.health|) == Some(i) then before + {c} else before;
    assert c !in before;
  }

  /** With health unchanged since moment `from`, the calls that hold `n` consecutive tickets drawn since
      return each of the n backends exactly as often as its share, in whatever order their draws and
      loads are interleaved with each other and with those of other calls. */
  lemma ConcurrentShares(run: seq<State>, from: nat, now: nat, t: nat, i: nat)
    requires IsRun(run) && from <= now < |run|
    requires forall k | from <= k <= now :: run[k].health == run[now].health
    requires i < |run[now].health| && t + 2 * |run[now].health| <= TWO_64 + 1
    requires run[from].nextTicket <= t && t + |run[now].health| <= run[now].nextTicket
    requires forall c | c in run[now].calls && t <= run[now].calls[c].ticket < t + |run[now].health| ::
               !run[now].calls[c].Scanning?
    ensures |CallsReturning(run[now], t, t + |run[now].health|, i)| == Share(run[now].health, i)
  {
    hide Slot, Pick, Share, Selections, CallsReturning, IsHeld, TicketsDistinct;
    var s, n := run[now], |run[now].health|;
    NoSharedTickets(run, now);
    TicketsGrow(run, 0, from);
    forall x: nat | t <= x < t + n
      ensures IsHeld(s, x)
    {
      TicketsAreHeld(run, now, x);
    }
    forall c | c in s.calls && t <= s.calls[c].ticket < t + n
      ensures Returned(s.calls[c], n) == Pick(s.health, s.calls[c].ticket)
    {
      var at := DrewLater(run, from, now, c);
      QuietCallIsPick(run, at, now, c);
    }
    CallsAreSelections(s, t, n, i);
    ExactShares(s.health, t, i);
  }

  lemma {:induction false} TicketsGrow(run: seq<State>, k: nat, l: nat)
    requires IsRun(run) && k <= l < |run|
    ensures run[k].nextTicket <= run[l].nextTicket
    decreases l
  {
    hide Looked;
    if k < l {
      TicketsGrow(run, k, l - 1);
      assert Next(run[l - 1], run[l - 1 + 1]);
    }
  }
}
