/**
 What the responses do in relay.py: a message is confirmed by a response without an error and reposted after one with
 an error, under every interleaving of the threads.
 */
module RelayResponses {
  import opened Bytes
  import opened Relay

  // ----- The responses so far

  /** A response counts if its request is in flight; each request is answered at most once. */
  function Note(hist: map<nat, bool>, s: Sys, e: Event): map<nat, bool> {
    if e.Response? && e.req in s.inFlight then hist[e.req := e.error] else hist
  }

  /** The answered requests, and whether each answer was an error. */
  function AnswersFrom(hist: map<nat, bool>, s: Sys, es: seq<Event>): map<nat, bool>
    decreases |es|
  {
    if es == [] then hist else AnswersFrom(Note(hist, s, es[0]), Step(s, es[0]), es[1..])
  }

  function Answers(es: seq<Event>): map<nat, bool> { AnswersFrom(map[], START, es) }

  /** A response to request r is being handled by thread t. */
  predicate Handles(s: Sys, t: nat, r: nat) {
    t in s.threads && s.threads[t].Responder? && s.threads[t].req == r && !s.threads[t].step.Release?
  }

  ghost predicate Handling(s: Sys, r: nat) { exists t :: Handles(s, t, r) }

  /** The response to request r has come, with or without an error, and has been handled. */
  ghost predicate Handled(s: Sys, hist: map<nat, bool>, r: nat, error: bool) {
    r in hist && hist[r] == error && !Handling(s, r)
  }

  // ----- What goes with them

  ghost predicate ThreadTold(s: Sys, hist: map<nat, bool>, th: Thread) {
    match th
    case Responder(r, error, step) =>
      && r in hist && hist[r] == error
      && (step.Finish? ==> r in s.requests && s.requests[r].idx == step.idx && r !in s.waiting)
    case Poster(_, _, at) => at.Unlock? || at.Fetch? ==> at.req !in hist
    case Sleeper(_, _) => true
  }

  ghost predicate ThreadsTold(s: Sys, hist: map<nat, bool>) {
    forall t :: t in s.threads ==> ThreadTold(s, hist, s.threads[t])
  }

  ghost predicate RequestsTold(s: Sys, hist: map<nat, bool>) {
    && (forall r :: r in hist ==> r in s.requests && r !in s.inFlight)
    && (forall r :: r in s.requests && r !in hist ==> r in s.waiting)
    && (forall r :: r in s.waiting ==> r in s.requests && s.requests[r].idx == s.waiting[r].0)
  }

  /** Some request for index i was answered without an error, and the response has been handled. */
  ghost predicate Succeeded(s: Sys, hist: map<nat, bool>, i: nat) {
    exists r :: Handled(s, hist, r, false) && r in s.requests && s.requests[r].idx == i
  }

  ghost predicate ConfirmedTold(s: Sys, hist: map<nat, bool>) {
    forall i: nat :: i in s.confirmed <==> Succeeded(s, hist, i)
  }

  ghost predicate Told(s: Sys, hist: map<nat, bool>) {
    ThreadsTold(s, hist) && RequestsTold(s, hist) && ConfirmedTold(s, hist)
  }

  /** The only agent of a request. */
  lemma OneAgent(s: Sys, agent: map<nat, Agent>, a: Agent, b: Agent, r: nat)
    requires Agents(s, agent) && Sees(s, a, r)
    ensures r in s.waiting && (Sees(s, b, r) ==> a == b)
  {
    assert Duties(s)(a, r);
    assert Duties(s)(b, r) == Sees(s, b, r);
  }

  /** While one thread finishes with a response, no other handles one to the same request. */
  lemma OneHandler(s: Sys, agent: map<nat, Agent>, hist: map<nat, bool>, t: nat, u: nat, r: nat)
    requires Locked(s) && Agents(s, agent) && ThreadsTold(s, hist)
    requires Handles(s, t, r) && s.threads[t].step.Finish? && Handles(s, u, r)
    ensures t == u
  {
    assert ThreadTold(s, hist, s.threads[t]);
    if s.threads[u].step.Finish? {
      assert HoldsLock(s.threads[t]) && HoldsLock(s.threads[u]);
    } else {
      OneAgent(s, agent, ByThread(u), ByThread(u), r);
    }
  }

  // ----- Every step keeps it

  /** A step after which the same responses are handled. */
  lemma ConfirmedStays(s: Sys, s': Sys, hist: map<nat, bool>, hist': map<nat, bool>)
    requires ConfirmedTold(s, hist) && s'.confirmed == s.confirmed
    requires forall r, e :: Handled(s', hist', r, e) <==> Handled(s, hist, r, e)
    requires forall r, e :: Handled(s, hist, r, e) ==>
               r in s.requests && r in s'.requests && s'.requests[r] == s.requests[r]
    ensures ConfirmedTold(s', hist')
  {
    forall i: nat ensures i in s'.confirmed <==> Succeeded(s', hist', i) {
      if Succeeded(s', hist', i) {
        var r :| Handled(s', hist', r, false) && r in s'.requests && s'.requests[r].idx == i;
        assert Handled(s, hist, r, false);
      }
      if Succeeded(s, hist, i) {
        var r :| Handled(s, hist, r, false) && r in s.requests && s.requests[r].idx == i;
        assert Handled(s', hist', r, false);
      }
    }
  }

  lemma SameHandlers(s: Sys, s': Sys, hist: map<nat, bool>)
    requires Told(s, hist) && s'.confirmed == s.confirmed
    requires forall t, r :: Handles(s', t, r) <==> Handles(s, t, r)
    requires forall r :: r in s.requests ==> r in s'.requests && s'.requests[r] == s.requests[r]
    ensures ConfirmedTold(s', hist)
  {
    forall r ensures Handling(s', r) <==> Handling(s, r) {
    }
    ConfirmedStays(s, s', hist, hist);
  }

  /** What a step may change for threads that do not take it. */
  ghost predicate KeepsTelling(s: Sys, s': Sys, hist: map<nat, bool>, hist': map<nat, bool>) {
    && (forall r :: r in hist ==> r in hist' && hist'[r] == hist[r])
    && (forall r :: r in s.requests ==> r in s'.requests && s'.requests[r] == s.requests[r])
    && (forall r :: r in s.requests && r !in s.waiting ==> r !in s'.waiting)
  }

  lemma OthersTold(s: Sys, s': Sys, hist: map<nat, bool>, th: Thread)
    requires KeepsTelling(s, s', hist, hist) && ThreadTold(s, hist, th)
    ensures ThreadTold(s', hist, th)
  {
  }

  /** A step of one thread, by which that thread changes. */
  lemma OneThreadTold(s: Sys, s': Sys, hist: map<nat, bool>, t: nat)
    requires ThreadsTold(s, hist) && KeepsTelling(s, s', hist, hist)
    requires forall u :: u in s'.threads && u != t ==> u in s.threads && s'.threads[u] == s.threads[u]
    requires t in s'.threads ==> ThreadTold(s', hist, s'.threads[t])
    ensures ThreadsTold(s', hist)
  {
    forall u | u in s'.threads ensures ThreadTold(s', hist, s'.threads[u]) {
      if u != t {
        OthersTold(s, s', hist, s.threads[u]);
      }
    }
  }

  /** A step that changes nothing but this thread, the lock and the shared data. */
  lemma QuietTold(s: Sys, s': Sys, hist: map<nat, bool>, t: nat, th: Thread)
    requires Told(s, hist) && s' == s.(lock := s'.lock, postData := s'.postData, threads := s.threads[t := th])
    requires ThreadTold(s, hist, th) && forall r :: Handles(s', t, r) <==> Handles(s, t, r)
    ensures Told(s', hist)
  {
    OneThreadTold(s, s', hist, t);
    forall u, r ensures Handles(s', u, r) <==> Handles(s, u, r) {
    }
    SameHandlers(s, s', hist);
  }

  lemma StoreTold(s: Sys, hist: map<nat, bool>, t: nat, th: Thread)
    requires Fresh(s) && Told(s, hist) && Runs(s, t, th) && th.Poster? && th.at.Store?
    ensures Told(RunPoster(s, t, th), hist)
  {
    var s' := RunPoster(s, t, th);
    assert KeepsTelling(s, s', hist, hist);
    OneThreadTold(s, s', hist, t);
    SameHandlers(s, s', hist);
  }

  lemma FetchTold(s: Sys, hist: map<nat, bool>, t: nat, th: Thread)
    requires Told(s, hist) && Runs(s, t, th) && th.Poster? && th.at.Fetch?
    ensures Told(RunPoster(s, t, th), hist)
  {
    var s' := RunPoster(s, t, th);
    assert ThreadTold(s, hist, th);
    OneThreadTold(s, s', hist, t);
    SameHandlers(s, s', hist);
  }

  lemma PosterTold(s: Sys, hist: map<nat, bool>, t: nat, th: Thread)
    requires Fresh(s) && Told(s, hist) && Runs(s, t, th) && th.Poster?
    ensures Told(RunPoster(s, t, th), hist)
  {
    var s' := RunPoster(s, t, th);
    assert ThreadTold(s, hist, th);
    match th.at
    case Store(_) => StoreTold(s, hist, t, th);
    case Fetch(_) => FetchTold(s, hist, t, th);
    case _ => QuietTold(s, s', hist, t, s'.threads[t]);
  }

  lemma PopTold(s: Sys, hist: map<nat, bool>, t: nat, th: Thread)
    requires Told(s, hist) && Runs(s, t, th) && th.Responder? && th.step.Pop? && th.req in s.waiting
    ensures Told(RunResponder(s, t, th), hist)
  {
    var s' := RunResponder(s, t, th);
    assert ThreadTold(s, hist, th);
    assert KeepsTelling(s, s', hist, hist);
    OneThreadTold(s, s', hist, t);
    SameHandlers(s, s', hist);
  }

  lemma ReleaseTold(s: Sys, hist: map<nat, bool>, t: nat, th: Thread)
    requires Told(s, hist) && Runs(s, t, th) && th.Responder? && th.step.Release?
    ensures Told(RunResponder(s, t, th), hist)
  {
    var s' := RunResponder(s, t, th);
    OneThreadTold(s, s', hist, t);
    SameHandlers(s, s', hist);
  }

  // ----- The step that finishes with a response

  lemma FinishThreads(s: Sys, hist: map<nat, bool>, t: nat, th: Thread)
    requires Fresh(s) && Told(s, hist) && Runs(s, t, th) && th.Responder? && th.step.Finish?
    ensures ThreadsTold(RunResponder(s, t, th), hist)
  {
    var s' := RunResponder(s, t, th);
    assert ThreadTold(s, hist, th);
    assert KeepsTelling(s, s', hist, hist);
    forall u | u in s'.threads ensures ThreadTold(s', hist, s'.threads[u]) {
      if u in s.threads && u != t {
        OthersTold(s, s', hist, s.threads[u]);
      }
    }
  }

  /** Exactly one more response is handled, and the message is confirmed if it was no error. */
  lemma FinishHandles(s: Sys, hist: map<nat, bool>, agent: map<nat, Agent>, t: nat, th: Thread)
    requires Locked(s) && Fresh(s) && Agents(s, agent) && Told(s, hist)
    requires Runs(s, t, th) && th.Responder? && th.step.Finish?
    ensures forall r, e :: Handled(RunResponder(s, t, th), hist, r, e)
                      <==> Handled(s, hist, r, e) || (r == th.req && e == th.error)
    ensures !Handled(s, hist, th.req, th.error)
  {
    var s' := RunResponder(s, t, th);
    assert ThreadTold(s, hist, th);
    assert Handles(s, t, th.req);
    forall u | Handles(s, u, th.req) ensures u == t {
      OneHandler(s, agent, hist, t, u, th.req);
    }
    forall u ensures !Handles(s', u, th.req) {
      if u in s.threads && u != t && u != s.nextThread {
        assert Handles(s', u, th.req) == Handles(s, u, th.req);
      }
    }
    forall r | r != th.req ensures Handling(s', r) <==> Handling(s, r) {
      assert forall u :: Handles(s', u, r) <==> Handles(s, u, r);
    }
  }

  lemma FinishConfirms(s: Sys, hist: map<nat, bool>, agent: map<nat, Agent>, t: nat, th: Thread)
    requires Locked(s) && Fresh(s) && Agents(s, agent) && Told(s, hist)
    requires Runs(s, t, th) && th.Responder? && th.step.Finish?
    ensures ConfirmedTold(RunResponder(s, t, th), hist)
  {
    var s', r0 := RunResponder(s, t, th), th.req;
    FinishHandles(s, hist, agent, t, th);
    assert ThreadTold(s, hist, th);
    forall i: nat ensures i in s'.confirmed <==> Succeeded(s', hist, i) {
      if Succeeded(s', hist, i) {
        var r :| Handled(s', hist, r, false) && r in s'.requests && s'.requests[r].idx == i;
        assert r != r0 ==> Handled(s, hist, r, false);
      }
      if Succeeded(s, hist, i) {
        var r :| Handled(s, hist, r, false) && r in s.requests && s.requests[r].idx == i;
        assert Handled(s', hist, r, false);
      }
      if i == th.step.idx && !th.error {
        assert Handled(s', hist, r0, false);
      }
    }
  }

  lemma FinishRequests(s: Sys, hist: map<nat, bool>, t: nat, th: Thread)
    requires Told(s, hist) && Runs(s, t, th) && th.Responder? && th.step.Finish?
    ensures RequestsTold(RunResponder(s, t, th), hist)
  {
  }

  lemma ResponderTold(s: Sys, hist: map<nat, bool>, agent: map<nat, Agent>, t: nat, th: Thread)
    requires Locked(s) && Fresh(s) && Agents(s, agent) && Told(s, hist) && Runs(s, t, th) && th.Responder?
    ensures Told(RunResponder(s, t, th), hist)
  {
    var s' := RunResponder(s, t, th);
    assert ThreadTold(s, hist, th);
    match th.step
    case AwaitLock => QuietTold(s, s', hist, t, s'.threads[t]);
    case Pop =>
      OneAgent(s, agent, ByThread(t), ByThread(t), th.req);
      PopTold(s, hist, t, th);
    case Finish(_, _) =>
      FinishThreads(s, hist, t, th);
      FinishRequests(s, hist, t, th);
      FinishConfirms(s, hist, agent, t, th);
    case Release => ReleaseTold(s, hist, t, th);
  }

  // ----- Responses, and the other events

  lemma ResponseThreads(s: Sys, hist: map<nat, bool>, agent: map<nat, Agent>, e: Event)
    requires Fresh(s) && Agents(s, agent) && Told(s, hist) && e.Response? && e.req in s.inFlight
    ensures ThreadsTold(Step(s, e), Note(hist, s, e))
  {
    var s', hist' := Step(s, e), Note(hist, s, e);
    forall u | u in s'.threads ensures ThreadTold(s', hist', s'.threads[u]) {
      if u in s.threads && u != s.nextThread {
        var th := s.threads[u];
        assert ThreadTold(s, hist, th);
        if th.Poster? && (th.at.Unlock? || th.at.Fetch?) {
          OneAgent(s, agent, Network, ByThread(u), e.req);
        }
      }
    }
  }

  lemma ResponseRequests(s: Sys, hist: map<nat, bool>, agent: map<nat, Agent>, e: Event)
    requires Agents(s, agent) && Told(s, hist) && e.Response? && e.req in s.inFlight
    ensures RequestsTold(Step(s, e), Note(hist, s, e))
  {
    OneAgent(s, agent, Network, Network, e.req);
  }

  lemma ResponseConfirms(s: Sys, hist: map<nat, bool>, e: Event)
    requires Fresh(s) && Told(s, hist) && e.Response? && e.req in s.inFlight
    ensures ConfirmedTold(Step(s, e), Note(hist, s, e))
  {
    var s', hist' := Step(s, e), Note(hist, s, e);
    assert Handles(s', s.nextThread, e.req);
    forall r, error ensures Handled(s', hist', r, error) <==> Handled(s, hist, r, error) {
      if r != e.req {
        assert forall u :: Handles(s', u, r) <==> Handles(s, u, r);
      }
    }
    ConfirmedStays(s, s', hist, hist');
  }

  lemma SubmitTold(s: Sys, hist: map<nat, bool>, data: bytes)
    requires Fresh(s) && Told(s, hist)
    ensures Told(DoSubmit(s, data), hist)
  {
    var s' := DoSubmit(s, data);
    forall u | u in s'.threads ensures ThreadTold(s', hist, s'.threads[u]) {
      if u != s.nextThread {
        OthersTold(s, s', hist, s.threads[u]);
      }
    }
    SameHandlers(s, s', hist);
  }

  lemma SleeperTold(s: Sys, hist: map<nat, bool>, t: nat)
    requires Told(s, hist) && t in s.threads && s.threads[t].Sleeper?
    ensures Told(Step(s, RunThread(t)), hist)
  {
    var s' := Step(s, RunThread(t));
    OneThreadTold(s, s', hist, t);
    SameHandlers(s, s', hist);
  }

  lemma ToldStep(s: Sys, hist: map<nat, bool>, agent: map<nat, Agent>, e: Event)
    requires Locked(s) && Fresh(s) && Agents(s, agent) && Told(s, hist)
    ensures Told(Step(s, e), Note(hist, s, e))
  {
    match e
    case Submit(data) => SubmitTold(s, hist, data);
    case RunThread(t) =>
      if t in s.threads {
        match s.threads[t]
        case Poster(_, _, _) => PosterTold(s, hist, t, s.threads[t]);
        case Responder(_, _, _) => ResponderTold(s, hist, agent, t, s.threads[t]);
        case Sleeper(_, _) => SleeperTold(s, hist, t);
      }
    case Response(req, _) =>
      if req in s.inFlight {
        ResponseThreads(s, hist, agent, e);
        ResponseRequests(s, hist, agent, e);
        ResponseConfirms(s, hist, e);
      }
  }

  ghost predicate Whole(s: Sys, home: map<nat, Place>, agent: map<nat, Agent>, hist: map<nat, bool>) {
    Inv(s, home, agent) && Told(s, hist)
  }

  lemma {:induction false} WholeRun(s: Sys, es: seq<Event>, home: map<nat, Place>, agent: map<nat, Agent>,
                                    hist: map<nat, bool>) returns (home': map<nat, Place>, agent': map<nat, Agent>)
    requires Whole(s, home, agent, hist)
    ensures Whole(Run(s, es), home', agent', AnswersFrom(hist, s, es))
    decreases |es|
  {
    home', agent' := home, agent;
    if es != [] {
      ToldStep(s, hist, agent, es[0]);
      home', agent' := InvStep(s, es[0], home, agent);
      home', agent' := WholeRun(Step(s, es[0]), es[1..], home', agent', Note(hist, s, es[0]));
    }
  }

  lemma WholeFromStart(es: seq<Event>) returns (home: map<nat, Place>, agent: map<nat, Agent>)
    ensures Whole(Run(START, es), home, agent, Answers(es))
  {
    InvStart();
    home, agent := WholeRun(START, es, map[], map[], map[]);
  }

  // ----- What holds in every reachable state

  /**
   Under every interleaving a message is confirmed if and only if a response without an error to one of its requests
   has been handled.
   */
  lemma ConfirmedExactly(es: seq<Event>)
    ensures var s, hist := Run(START, es), Answers(es);
            forall i: nat :: i in s.confirmed <==> Succeeded(s, hist, i)
  {
    var home, agent := WholeFromStart(es);
  }

  /** A thread that is about to post index i, for the first time or again. */
  predicate WillPost(s: Sys, t: nat, i: nat) {
    && t in s.threads
    && match s.threads[t]
       case Poster(idx, _, at) => idx == i && !at.Unlock? && !at.Fetch?
       case Sleeper(idx, _) => idx == i
       case Responder(_, _, _) => false
  }

  /** Every request made for index i so far was answered with an error, and the response has been handled. */
  ghost predicate AllFailed(s: Sys, hist: map<nat, bool>, i: nat) {
    forall r :: r in s.requests && s.requests[r].idx == i ==> Handled(s, hist, r, true)
  }

  lemma OnePlace(s: Sys, home: map<nat, Place>, p: Place, q: Place, i: nat)
    requires Homes(s, home) && IsAt(s, p, i)
    ensures IsAt(s, q, i) ==> p == q
  {
    assert Places(s)(p, i);
    assert Places(s)(q, i) == IsAt(s, q, i);
  }

  lemma HandlerIsPlace(s: Sys, agent: map<nat, Agent>, hist: map<nat, bool>, u: nat, r: nat)
    requires Agents(s, agent) && Told(s, hist) && r in s.requests && r !in s.waiting
    ensures Handles(s, u, r) ==> IsAt(s, InThread(u), s.requests[r].idx)
  {
    if Handles(s, u, r) {
      assert ThreadTold(s, hist, s.threads[u]);
      assert Duties(s)(ByThread(u), r) == Sees(s, ByThread(u), r);
    }
  }

  lemma PostsAfterFailures(s: Sys, home: map<nat, Place>, agent: map<nat, Agent>, hist: map<nat, bool>, t: nat, i: nat)
    requires Whole(s, home, agent, hist) && WillPost(s, t, i)
    ensures AllFailed(s, hist, i)
  {
    assert IsAt(s, InThread(t), i);
    OnePlace(s, home, InThread(t), Confirmed, i);
    forall r | r in s.requests && s.requests[r].idx == i ensures Handled(s, hist, r, true) {
      OnePlace(s, home, InThread(t), Waiting(r), i);
      forall u ensures !Handles(s, u, r) {
        HandlerIsPlace(s, agent, hist, u, r);
        OnePlace(s, home, InThread(t), InThread(u), i);
      }
      assert Handled(s, hist, r, hist[r]);
    }
  }

  /** A request that waits has not been handled. */
  lemma WaitingIsOpen(s: Sys, home: map<nat, Place>, agent: map<nat, Agent>, hist: map<nat, bool>, r: nat, e: bool)
    requires Whole(s, home, agent, hist) && r in s.waiting
    ensures !Handled(s, hist, r, e)
  {
    var a := agent[r];
    assert Duties(s)(a, r);
    if a.ByThread? {
      assert ThreadTold(s, hist, s.threads[a.t]);
      assert s.threads[a.t].Responder? ==> Handles(s, a.t, r);
    }
  }

  lemma FailedIsNotConfirmed(s: Sys, hist: map<nat, bool>, i: nat)
    requires Told(s, hist) && AllFailed(s, hist, i)
    ensures i !in s.confirmed
  {
  }

  lemma FailuresArePosted(s: Sys, home: map<nat, Place>, agent: map<nat, Agent>, hist: map<nat, bool>, i: nat)
    requires Whole(s, home, agent, hist) && 1 <= i <= s.counter && AllFailed(s, hist, i)
    ensures exists t :: WillPost(s, t, i)
  {
    var p := home[i];
    assert Places(s)(p, i);
    FailedIsNotConfirmed(s, hist, i);
    match p
    case Waiting(r) => WaitingIsOpen(s, home, agent, hist, r, true);
    case Confirmed =>
    case InThread(t) =>
      assert ThreadTold(s, hist, s.threads[t]);
      if s.threads[t].Responder? {
        assert Handles(s, t, s.threads[t].req);
      }
      assert WillPost(s, t, i);
  }

  /**
   Under every interleaving a submitted message is about to be posted, by exactly one thread, if and only if each of
   its requests so far was answered with an error and the response has been handled: so every error reposts it.
   */
  lemma RepostedExactly(es: seq<Event>, i: nat)
    requires 1 <= i <= Run(START, es).counter
    ensures var s, hist := Run(START, es), Answers(es);
            && (AllFailed(s, hist, i) <==> exists t :: WillPost(s, t, i))
            && forall t, u :: WillPost(s, t, i) && WillPost(s, u, i) ==> t == u
  {
    var s, hist := Run(START, es), Answers(es);
    var home, agent := WholeFromStart(es);
    if AllFailed(s, hist, i) {
      FailuresArePosted(s, home, agent, hist, i);
    }
    if t :| WillPost(s, t, i) {
      PostsAfterFailures(s, home, agent, hist, t, i);
    }
    forall t, u | WillPost(s, t, i) && WillPost(s, u, i) ensures t == u {
      assert Places(s)(InThread(t), i) && Places(s)(InThread(u), i);
    }
  }

  /** A step by which the response to request r becomes a handled one. */
  ghost predicate BecomesHandled(s: Sys, hist: map<nat, bool>, e: Event, r: nat, error: bool) {
    !Handled(s, hist, r, error) && Handled(Step(s, e), Note(hist, s, e), r, error)
  }

  /**
   The step that handles an error leaves a new thread that sleeps on that request's index and the data submitted under
   it, and confirms nothing; the step that handles a success confirms that index and leaves no thread.
   */
  lemma HandlingStep(es: seq<Event>, e: Event, r: nat, error: bool)
    requires BecomesHandled(Run(START, es), Answers(es), e, r, error)
    ensures var s, s' := Run(START, es), Step(Run(START, es), e);
            && r in s.requests && s.requests[r].idx in s.submitted
            && var i := s.requests[r].idx;
               if error then
                 s.nextThread !in s.threads && s'.confirmed == s.confirmed
                 && Runs(s', s.nextThread, Sleeper(i, s.submitted[i]))
               else s'.confirmed == s.confirmed + {i} && s'.threads.Keys == s.threads.Keys
  {
    var s, hist := Run(START, es), Answers(es);
    var home, agent := WholeFromStart(es);
    FinishesOnly(s, hist, e, r, error);
    var th := s.threads[e.t];
    assert ThreadTold(s, hist, th) && OwnData(s.postData, s.submitted, th);
    assert !error ==> Step(s, e).threads.Keys == s.threads.Keys;
  }

  /** A response that is being handled is so until its thread finishes with it. */
  lemma KeepsHandling(s: Sys, e: Event, u: nat, r: nat)
    requires Fresh(s) && Handles(s, u, r) && !(e == RunThread(u) && s.threads[u].step.Finish?)
    ensures Handles(Step(s, e), u, r)
  {
    if e.RunThread? && e.t != u && e.t in s.threads {
      OtherThreadStays(s, e.t, u);
    }
  }

  lemma OtherThreadStays(s: Sys, t: nat, u: nat)
    requires Fresh(s) && t in s.threads && u in s.threads && t != u
    ensures var s' := Step(s, RunThread(t)); u in s'.threads && s'.threads[u] == s.threads[u]
  {
    match s.threads[t]
    case Poster(_, _, _) => PosterLeaves(s, t, u);
    case Responder(_, _, _) => ResponderLeaves(s, t, u);
    case Sleeper(_, _) =>
  }

  lemma PosterLeaves(s: Sys, t: nat, u: nat)
    requires t in s.threads && s.threads[t].Poster? && u in s.threads && t != u
    ensures var s' := RunPoster(s, t, s.threads[t]); u in s'.threads && s'.threads[u] == s.threads[u]
  {
    match s.threads[t].at
    case WantLock =>
    case SetData =>
    case Encode =>
    case Store(_) =>
    case Unlock(_) =>
    case Fetch(_) =>
  }

  lemma ResponderLeaves(s: Sys, t: nat, u: nat)
    requires Fresh(s) && t in s.threads && s.threads[t].Responder? && u in s.threads && t != u
    ensures var s' := RunResponder(s, t, s.threads[t]); u in s'.threads && s'.threads[u] == s.threads[u]
  {
  }

  /** Only a response that has come before can become a handled one. */
  lemma CameBefore(s: Sys, hist: map<nat, bool>, e: Event, r: nat, error: bool)
    requires Handled(Step(s, e), Note(hist, s, e), r, error)
    ensures r in hist && hist[r] == error
  {
    if e.Response? && e.req in s.inFlight {
      assert Handles(Step(s, e), s.nextThread, e.req);
    }
  }

  lemma FinishesOnly(s: Sys, hist: map<nat, bool>, e: Event, r: nat, error: bool)
    requires Fresh(s) && Told(s, hist) && BecomesHandled(s, hist, e, r, error)
    ensures e.RunThread? && Handles(s, e.t, r) && s.threads[e.t].step.Finish? && s.threads[e.t].error == error
  {
    CameBefore(s, hist, e, r, error);
    var u :| Handles(s, u, r);
    assert ThreadTold(s, hist, s.threads[u]);
    if !(e == RunThread(u) && s.threads[u].step.Finish?) {
      KeepsHandling(s, e, u, r);
    }
  }
}
