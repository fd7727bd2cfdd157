/** Choosing a backend for a request and retrying on others. What a backend answers to an attempt is
    a parameter: connecting, writing and reading are not modelled here. */
module Proxying {
  import opened Bytes
  import opened Numbers
  import opened Streams
  import opened Modular
  import opened Selection
  import opened Backends

  /** Answer of a backend to the attempt with this number. */
  type Answers = (nat, SocketAddr) -> Result<Bytes>

  datatype Outcome = Succeeded | Errored

  /** The part of the per-request statistics that selection and retries decide. */
  datatype Attribution = Attribution(backend: SocketAddr, outcome: Outcome)

  function Attempts(maxRetries: nat): (n: nat)
    ensures n >= 1
  {
    if maxRetries + 1 <= U32_MAX then maxRetries + 1 else U32_MAX
  }

  function NextTicket(ticket: nat): nat { (ticket + 1) % TWO_64 }

  /** The retry loop from an attempt on, with health fixed; also the next ticket afterwards. */
  function RetryRun(h: seq<bool>, addrs: seq<SocketAddr>, ticket: nat, target: SocketAddr, attempt: nat, attempts: nat,
                    answer: Answers): (Result<Bytes>, nat)
    requires |h| == |addrs| > 0 && attempt < attempts
    decreases attempts - attempt
  {
    match answer(attempt, target)
    case Ok(response) => (Ok(response), ticket)
    case Err(e) =>
      if attempt + 1 >= attempts then (Err(e), ticket)
      else
        var next := if Pick(h, ticket).Some? then addrs[Pick(h, ticket).value] else target;
        RetryRun(h, addrs, NextTicket(ticket), next, attempt + 1, attempts, answer)
  }

  /** Backend of the attempt with number `k` when the first target was drawn with ticket `t`. */
  function Target(h: seq<bool>, addrs: seq<SocketAddr>, t: nat, k: nat): SocketAddr
    requires |h| == |addrs| > 0
  {
    if Choice(h, t + k).Some? && Choice(h, t + k).value < |addrs| then addrs[Choice(h, t + k).value] else addrs[0]
  }

  /** Tickets that one request may draw stay clear of the wrap-around. */
  predicate NoOverflow(t: nat, attempts: nat, n: nat) { t + attempts + n <= TWO_64 }

  /** All attempts up to `k` have failed. */
  ghost predicate FailedBefore(h: seq<bool>, addrs: seq<SocketAddr>, t: nat, k: nat, answer: Answers)
    requires |h| == |addrs| > 0
  {
    forall j: nat | j < k :: answer(j, Target(h, addrs, t, j)).Err?
  }

  /** The loop returns the first answer along the cycle of healthy backends, or the last error, and draws
      one ticket for each further attempt. */
  lemma {:induction false} RetryReturnsFirstAnswer(h: seq<bool>, addrs: seq<SocketAddr>, t: nat, attempt: nat,
                                                   attempts: nat, answer: Answers) returns (k: nat)
    requires |h| == |addrs| > 0 && SomeHealthy(h) && attempt < attempts && NoOverflow(t, attempts, |h|)
    requires FailedBefore(h, addrs, t, attempt, answer)
    ensures k < attempts && FailedBefore(h, addrs, t, k, answer)
    ensures RetryRun(h, addrs, t + attempt + 1, Target(h, addrs, t, attempt), attempt, attempts, answer)
         == (answer(k, Target(h, addrs, t, k)), t + k + 1)
    ensures answer(k, Target(h, addrs, t, k)).Ok? || k == attempts - 1
    decreases attempts - attempt
  {
    hide Pick, Choice;
    if answer(attempt, Target(h, addrs, t, attempt)).Ok? || attempt + 1 >= attempts {
      k := attempt;
    } else {
      PickMeetsChoice(h, t + attempt + 1);
      ChoiceExists(h, t + attempt + 1);
      ChoiceIsHealthy(h, t + attempt + 1, 0);
      k := RetryReturnsFirstAnswer(h, addrs, t, attempt + 1, attempts, answer);
    }
  }

  /** Attempt `k` is the last one of a request that may retry `maxRetries` times: all before it failed, and
      it is answered or the last one allowed. The counter of attempts is 32 bits wide. */
  ghost predicate IsLastAttempt(h: seq<bool>, addrs: seq<SocketAddr>, t: nat, maxRetries: nat, answer: Answers, k: nat)
    requires |h| == |addrs| > 0
  {
    && k <= maxRetries && k < U32_MAX && FailedBefore(h, addrs, t, k, answer)
    && (answer(k, Target(h, addrs, t, k)).Ok? || k == maxRetries || k == U32_MAX - 1)
  }

  /** A request makes at most one attempt more than it may retry, gives up earlier only on an answer, and
      comes to what its last attempt is answered. */
  lemma AttemptsAreBounded(h: seq<bool>, addrs: seq<SocketAddr>, t: nat, maxRetries: nat, answer: Answers)
    returns (k: nat)
    requires |h| == |addrs| > 0 && SomeHealthy(h) && NoOverflow(t, Attempts(maxRetries), |h|)
    ensures IsLastAttempt(h, addrs, t, maxRetries, answer, k)
    ensures RetryRun(h, addrs, t + 1, Target(h, addrs, t, 0), 0, Attempts(maxRetries), answer)
         == (answer(k, Target(h, addrs, t, k)), t + k + 1)
  {
    hide RetryRun, Choice, SomeHealthy;
    k := RetryReturnsFirstAnswer(h, addrs, t, 0, Attempts(maxRetries), answer);
  }

  /** Some healthy backend answers every attempt that may reach it. */
  ghost predicate SomeAnswers(h: seq<bool>, addrs: seq<SocketAddr>, answer: Answers)
    requires |h| == |addrs|
  {
    exists i :: 0 <= i < |h| && h[i] && forall k: nat | k < |h| :: answer(k, addrs[i]).Ok?
  }

  /** Coverage: with as many attempts as backends, a healthy backend that answers is reached. */
  lemma RetryCovers(h: seq<bool>, addrs: seq<SocketAddr>, t: nat, attempts: nat, answer: Answers)
    requires |h| == |addrs| > 0 && NoOverflow(t, attempts, |h|)
    requires SomeAnswers(h, addrs, answer) && |h| <= attempts
    ensures RetryRun(h, addrs, t + 1, Target(h, addrs, t, 0), 0, attempts, answer).0.Ok?
  {
    hide RetryRun, Pick;
    var i :| 0 <= i < |h| && h[i] && forall k: nat | k < |h| :: answer(k, addrs[i]).Ok?;
    var at := ModHit(t, |h|, i);
    assert Choice(h, t + at) == Some(i);
    var k := RetryReturnsFirstAnswer(h, addrs, t, 0, attempts, answer);
    assert Target(h, addrs, t, at) == addrs[i];
  }

  class Context {
    const backends: BackendSet
    const maxBackendRetries: nat

    constructor (backends: BackendSet, maxBackendRetries: nat)
      ensures this.backends == backends && this.maxBackendRetries == maxBackendRetries
    {
      this.backends, this.maxBackendRetries := backends, maxBackendRetries;
    }

    /** `proxy_with_retries`. Its last line falls back to a made-up error when no attempt was made;
        that cannot happen. */
    method ProxyWithRetries(firstTarget: SocketAddr, answer: Answers) returns (r: Result<Bytes>)
      requires backends.Valid() && backends.entries != []
      modifies backends
      ensures backends.Valid() && backends.Flags() == old(backends.Flags())
      ensures (r, backends.nextIndex)
           == RetryRun(old(backends.Flags()), backends.Addrs(), old(backends.nextIndex), firstTarget, 0,
                       Attempts(maxBackendRetries), answer)
    {
      hide Pick;
      ghost var h, addrs := backends.Flags(), backends.Addrs();
      var lastError: Option<Error> := None;
      var target := firstTarget;
      var attempts := Attempts(maxBackendRetries);
      var attempt := 0;
      while attempt < attempts
        invariant attempt <= attempts && backends.Valid() && backends.Flags() == h
        invariant attempt > 0 ==> lastError.Some?
        invariant attempt < attempts
        invariant RetryRun(h, addrs, old(backends.nextIndex), firstTarget, 0, attempts, answer)
               == RetryRun(h, addrs, backends.nextIndex, target, attempt, attempts, answer)
        decreases attempts - attempt
      {
        var answered := answer(attempt, target);
        if answered.Ok? {
          return answered;
        }
        lastError := Some(answered.error);
        if attempt + 1 >= attempts {
          break;
        }
        var selected := backends.SelectNext();
        target := selected.GetOr(target);
        attempt := attempt + 1;
      }
      assert lastError.Some?;
      r := Err(if lastError.Some? then lastError.value else Io);
    }

    /** The selection and proxying of `handle_connection`: draw a backend, read the request, proxy with
        retries, and report the outcome under the backend that was drawn first. `request` is what reading
        the request gives; `clientTakesIt` says whether the response reaches the client. */
    method Serve(request: Result<Bytes>, answer: Answers, clientTakesIt: bool)
      returns (r: Result<Bytes>, stats: Option<Attribution>)
      requires backends.Valid() && backends.entries != []
      modifies backends
      ensures backends.Valid()
      ensures var picked := Pick(old(backends.Flags()), old(backends.nextIndex)).Some?;
              && (!picked ==> r == Err(NoHealthyBackend))
              && (picked && request.Err? ==> r == Err(request.error))
              && (!picked || request.Err? ==>
                    stats.None? && backends.nextIndex == NextTicket(old(backends.nextIndex)))
              && (r.Ok? ==> clientTakesIt && stats.Some?)
      ensures r == Err(NoHealthyBackend) || exists i :: 0 <= i < |backends.entries| && old(backends.Flags())[i]
      ensures backends.Flags() == old(backends.Flags())
      ensures var h, t := old(backends.Flags()), old(backends.nextIndex);
              var picked := Pick(h, t);
              if picked.Some? && request.Ok? then
                var first := backends.Addrs()[picked.value];
                var (response, ticket) :=
                  RetryRun(h, backends.Addrs(), NextTicket(t), first, 0, Attempts(maxBackendRetries), answer);
                && backends.nextIndex == ticket
                && r == (if response.Ok? && !clientTakesIt then Err(Io) else response)
                && stats == (if response.Err? then Some(Attribution(first, Errored))
                             else if clientTakesIt then Some(Attribution(first, Succeeded)) else None)
              else stats.None?
      ensures var h, addrs, t := old(backends.Flags()), backends.Addrs(), old(backends.nextIndex);
              NoOverflow(t, Attempts(maxBackendRetries), |h|) && SomeHealthy(h) && request.Ok? ==>
                exists k ::
                  && IsLastAttempt(h, addrs, t, maxBackendRetries, answer, k) && backends.nextIndex == t + k + 1
                  && var response := answer(k, Target(h, addrs, t, k));
                     r == if response.Ok? && !clientTakesIt then Err(Io) else response
      ensures stats.Some? ==>
                && Pick(old(backends.Flags()), old(backends.nextIndex)).Some?
                && var first := Pick(old(backends.Flags()), old(backends.nextIndex)).value;
                   stats.value == Attribution(backends.Addrs()[first], if r.Ok? then Succeeded else Errored)
      ensures var h := old(backends.Flags());
              && NoOverflow(old(backends.nextIndex), Attempts(maxBackendRetries), |h|)
              && SomeAnswers(h, backends.Addrs(), answer)
              && |h| <= maxBackendRetries + 1 && |h| <= U32_MAX && request.Ok? && clientTakesIt
              ==> r.Ok? && stats.Some?
    {
      hide Pick, RetryRun, SomeAnswers, IsLastAttempt, Target, SomeHealthy;
      ghost var h, addrs, t := backends.Flags(), backends.Addrs(), backends.nextIndex;
      PickWithinRange(h, addrs, t, Attempts(maxBackendRetries), answer);
      if NoOverflow(t, Attempts(maxBackendRetries), |h|) && SomeHealthy(h) {
        var k := AttemptsAreBounded(h, addrs, t, maxBackendRetries, answer);
        FirstIsTarget(h, addrs, t, Attempts(maxBackendRetries));
      }
      var selected := backends.SelectNext();
      if selected.Err? {
        return Err(selected.error), None;
      }
      var target := selected.value;
      if request.Err? {
        return Err(request.error), None;
      }
      var response := ProxyWithRetries(target, answer);
      if response.Err? {
        return response, Some(Attribution(target, Errored));
      }
      if !clientTakesIt {
        return Err(Io), None;
      }
      return response, Some(Attribution(target, Succeeded));
    }
  }

  lemma FirstIsTarget(h: seq<bool>, addrs: seq<SocketAddr>, t: nat, attempts: nat)
    requires |h| == |addrs| > 0 && NoOverflow(t, attempts, |h|) && attempts >= 1 && SomeHealthy(h)
    ensures Pick(h, t).Some? && addrs[Pick(h, t).value] == Target(h, addrs, t, 0) && NextTicket(t) == t + 1
  {
    hide Pick, Choice;
    PickMeetsChoice(h, t);
    ChoiceExists(h, t);
    ChoiceIsHealthy(h, t, 0);
  }

  /** Away from the wrap-around, a request whose first target is drawn now is answered. */
  lemma PickWithinRange(h: seq<bool>, addrs: seq<SocketAddr>, t: nat, attempts: nat, answer: Answers)
    requires |h| == |addrs| > 0
    ensures NoOverflow(t, attempts, |h|) && SomeAnswers(h, addrs, answer) && |h| <= attempts ==>
              && Pick(h, t).Some? && Pick(h, t).value < |h|
              && NextTicket(t) == t + 1
              && RetryRun(h, addrs, t + 1, addrs[Pick(h, t).value], 0, attempts, answer).0.Ok?
  {
    hide Pick, RetryRun, Choice;
    if NoOverflow(t, attempts, |h|) && SomeAnswers(h, addrs, answer) && |h| <= attempts {
      assert SomeHealthy(h);
      PickMeetsChoice(h, t);
      ChoiceExists(h, t);
      ChoiceIsHealthy(h, t, 0);
      RetryCovers(h, addrs, t, attempts, answer);
    }
  }
}
