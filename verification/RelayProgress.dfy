/**
 That nothing gets stuck in relay.py: from every state that can be reached the threads can run on, and one response
 without an error confirms any message that is not confirmed yet. And what is submitted is kept in order.
 */
module RelayProgress {
  import opened Bytes
  import opened Relay

  // ----- What was submitted

  function Submits(es: seq<Event>): seq<bytes> {
    if es == [] then [] else (if es[0].Submit? then [es[0].data] else []) + Submits(es[1..])
  }

  lemma StepCounts(s: Sys, e: Event)
    ensures Step(s, e).counter == s.counter + (if e.Submit? then 1 else 0)
    ensures Step(s, e).submitted == if e.Submit? then s.submitted[s.counter + 1 := e.data] else s.submitted
  {
    match e
    case Submit(_) =>
    case Response(_, _) =>
    case RunThread(t) =>
      if t in s.threads {
        match s.threads[t]
        case Poster(_, _, _) => PosterCounts(s, t, s.threads[t]);
        case Responder(_, _, _) => ResponderCounts(s, t, s.threads[t]);
        case Sleeper(_, _) =>
      }
  }

  lemma PosterCounts(s: Sys, t: nat, th: Thread)
    requires th.Poster?
    ensures RunPoster(s, t, th).counter == s.counter && RunPoster(s, t, th).submitted == s.submitted
  {
  }

  lemma ResponderCounts(s: Sys, t: nat, th: Thread)
    requires th.Responder?
    ensures RunResponder(s, t, th).counter == s.counter && RunResponder(s, t, th).submitted == s.submitted
  {
  }

  /** Index i is the one of the message that is i - base in this list, counted from 1. */
  predicate IsNumbered(submitted: map<nat, bytes>, base: nat, list: seq<bytes>, i: nat) {
    base < i <= base + |list| ==> Submitted(submitted, i, list[i - base - 1])
  }

  ghost predicate KeepsSubmitted(s: Sys, s': Sys) {
    forall i :: i in s.submitted && i <= s.counter ==> Submitted(s'.submitted, i, s.submitted[i])
  }

  lemma {:induction false} SubmitsFrom(s: Sys, es: seq<Event>)
    ensures var s', more := Run(s, es), Submits(es);
            && s'.counter == s.counter + |more| && KeepsSubmitted(s, s')
            && forall i :: IsNumbered(s'.submitted, s.counter, more, i)
    decreases |es|
  {
    if es != [] {
      var s1, s', more := Step(s, es[0]), Run(s, es), Submits(es);
      StepCounts(s, es[0]);
      assert [es[0]][1..] == [];
      SubmitsFrom(s1, es[1..]);
      forall i | i in s.submitted && i <= s.counter ensures Submitted(s'.submitted, i, s.submitted[i]) {
        assert i in s1.submitted && s1.submitted[i] == s.submitted[i];
      }
      forall i ensures IsNumbered(s'.submitted, s.counter, more, i) {
        assert IsNumbered(s'.submitted, s1.counter, Submits(es[1..]), i);
        assert es[0].Submit? ==> s1.counter in s1.submitted && s1.submitted[s1.counter] == more[0];
      }
    }
  }

  /** Message i is the i-th one that was submitted. */
  lemma SubmittedInOrder(es: seq<Event>)
    ensures var s, all := Run(START, es), Submits(es);
            s.counter == |all| && forall i :: IsNumbered(s.submitted, 0, all, i)
  {
    SubmitsFrom(START, es);
  }

  // ----- The owner of the lock

  /** A lock that is taken is held by a thread that can run. */
  ghost predicate OwnerRuns(s: Sys) {
    s.lock.Some? ==> s.lock.value in s.threads && HoldsLock(s.threads[s.lock.value])
  }

  lemma OwnerPoster(s: Sys, t: nat, th: Thread)
    requires OwnerRuns(s) && Locked(s) && Runs(s, t, th) && th.Poster?
    ensures OwnerRuns(RunPoster(s, t, th))
  {
    assert HoldsLock(th) ==> s.lock == Some(t);
  }

  lemma OwnerResponder(s: Sys, t: nat, th: Thread)
    requires OwnerRuns(s) && Locked(s) && Fresh(s) && Runs(s, t, th) && th.Responder?
    ensures OwnerRuns(RunResponder(s, t, th))
  {
    assert HoldsLock(th) ==> s.lock == Some(t);
  }

  lemma OwnerStep(s: Sys, e: Event)
    requires OwnerRuns(s) && Locked(s) && Fresh(s)
    ensures OwnerRuns(Step(s, e))
  {
    if e.RunThread? && e.t in s.threads {
      match s.threads[e.t]
      case Poster(_, _, _) => OwnerPoster(s, e.t, s.threads[e.t]);
      case Responder(_, _, _) => OwnerResponder(s, e.t, s.threads[e.t]);
      case Sleeper(_, _) =>
    }
  }

  ghost predicate Sane(s: Sys) {
    OwnerRuns(s) && exists home, agent :: Inv(s, home, agent)
  }

  lemma SaneStep(s: Sys, e: Event)
    requires Sane(s)
    ensures Sane(Step(s, e))
  {
    var home, agent :| Inv(s, home, agent);
    OwnerStep(s, e);
    var home', agent' := InvStep(s, e, home, agent);
  }

  lemma {:induction false} SaneRun(s: Sys, es: seq<Event>)
    requires Sane(s)
    ensures Sane(Run(s, es))
    decreases |es|
  {
    if es != [] {
      SaneStep(s, es[0]);
      SaneRun(Step(s, es[0]), es[1..]);
    }
  }

  lemma SaneStart()
    ensures Sane(START)
  {
    InvStart();
    assert Inv(START, map[], map[]);
  }

  lemma {:induction false} RunConcat(s: Sys, a: seq<Event>, b: seq<Event>)
    ensures Run(s, a + b) == Run(Run(s, a), b)
    decreases |a|
  {
    if a == [] {
      assert a + b == b;
    } else {
      assert (a + b)[1..] == a[1..] + b;
      RunConcat(Step(s, a[0]), a[1..], b);
    }
  }

  // ----- The lock is always given back

  /** How many steps a thread that has the lock needs to give it back. */
  function StepsLeft(th: Thread): nat {
    match th
    case Poster(_, _, at) => if at.SetData? then 4 else if at.Encode? then 3 else if at.Store? then 2 else 1
    case Responder(_, _, step) => if step.Pop? then 3 else if step.Finish? then 2 else 1
    case Sleeper(_, _) => 0
  }

  ghost predicate MovesOn(s: Sys, s': Sys, t: nat)
    requires t in s.threads
  {
    var n := StepsLeft(s.threads[t]);
    if n == 1 then s'.lock.None?
    else s'.lock == s.lock && t in s'.threads && HoldsLock(s'.threads[t]) && StepsLeft(s'.threads[t]) == n - 1
  }

  lemma PosterMoves(s: Sys, t: nat, th: Thread)
    requires Runs(s, t, th) && th.Poster? && HoldsLock(th)
    ensures MovesOn(s, RunPoster(s, t, th), t)
  {
  }

  lemma ResponderMoves(s: Sys, agent: map<nat, Agent>, t: nat, th: Thread)
    requires Fresh(s) && Agents(s, agent) && Runs(s, t, th) && th.Responder? && HoldsLock(th)
    ensures MovesOn(s, RunResponder(s, t, th), t)
  {
    if th.step.Pop? {
      assert Duties(s)(ByThread(t), th.req);
    }
  }

  lemma OwnerMoves(s: Sys, agent: map<nat, Agent>, t: nat)
    requires Fresh(s) && Agents(s, agent) && t in s.threads && HoldsLock(s.threads[t])
    ensures MovesOn(s, Step(s, RunThread(t)), t)
  {
    if s.threads[t].Poster? {
      PosterMoves(s, t, s.threads[t]);
    } else {
      ResponderMoves(s, agent, t, s.threads[t]);
    }
  }

  function Repeat(e: Event, n: nat): seq<Event> { if n == 0 then [] else [e] + Repeat(e, n - 1) }

  lemma {:induction false} LockReturns(s: Sys, t: nat)
    requires Sane(s) && t in s.threads && HoldsLock(s.threads[t])
    ensures StepsLeft(s.threads[t]) <= 4
    ensures Run(s, Repeat(RunThread(t), StepsLeft(s.threads[t]))).lock.None?
    decreases StepsLeft(s.threads[t])
  {
    var home, agent :| Inv(s, home, agent);
    var e, n := RunThread(t), StepsLeft(s.threads[t]);
    OwnerMoves(s, agent, t);
    SaneStep(s, e);
    assert Repeat(e, n)[1..] == Repeat(e, n - 1);
    if n == 1 {
      assert Run(s, Repeat(e, 1)) == Run(Step(s, e), []);
    } else {
      LockReturns(Step(s, e), t);
    }
  }

  /** Whoever has the lock gives it back within four steps of its own. */
  lemma LockIsFreed(es: seq<Event>) returns (more: seq<Event>)
    ensures Run(START, es + more).lock.None? && |more| <= 4
  {
    SaneStart();
    SaneRun(START, es);
    more := Freeing(Run(START, es));
    RunConcat(START, es, more);
  }

  lemma {:induction false} RepeatLength(e: Event, n: nat)
    ensures |Repeat(e, n)| == n
  {
    if n > 0 {
      RepeatLength(e, n - 1);
    }
  }

  lemma Freeing(s: Sys) returns (more: seq<Event>)
    requires Sane(s)
    ensures Run(s, more).lock.None? && |more| <= 4 && Run(s, more).counter == s.counter
  {
    more := [];
    if s.lock.Some? {
      var t := s.lock.value;
      LockReturns(s, t);
      more := Repeat(RunThread(t), StepsLeft(s.threads[t]));
      RepeatLength(RunThread(t), StepsLeft(s.threads[t]));
      CounterStays(s, RunThread(t), StepsLeft(s.threads[t]));
    }
  }

  // ----- Every message can still be confirmed

  /** The sane states in which nobody has the lock. */
  ghost predicate Calm(s: Sys) { Sane(s) && s.lock.None? }

  /** Request r carries index i, and its response is awaited. */
  ghost predicate OnItsWay(s: Sys, r: nat, i: nat) { r in s.inFlight && r in s.waiting && s.waiting[r].0 == i }

  /** A thread that sleeps on or is to post index i, and has not asked for the lock yet. */
  ghost predicate ToPost(s: Sys, t: nat, i: nat) {
    t in s.threads && s.threads[t].Poster? && s.threads[t].at.WantLock? && s.threads[t].idx == i
  }

  /** The posting thread runs to its end. */
  lemma PostsIt(s: Sys, t: nat, i: nat) returns (more: seq<Event>, r: nat)
    requires Calm(s) && ToPost(s, t, i)
    ensures Calm(Run(s, more)) && OnItsWay(Run(s, more), r, i)
  {
    var step, data := RunThread(t), s.threads[t].data;
    var s1 := Step(s, step);
    assert Runs(s1, t, Poster(i, data, SetData));
    PostSectionRuns(s1, t, i, data);
    var s5 := Step(Step(Step(Step(s1, step), step), step), step);
    r := s1.nextReq;
    FetchesIt(s5, t, i, data, r);
    more := [step, step, step, step, step, step];
    SixSteps(s, step);
    SaneRun(s, more);
  }

  lemma FetchesIt(s: Sys, t: nat, i: nat, data: bytes, r: nat)
    requires Runs(s, t, Poster(i, data, Fetch(r))) && r in s.waiting && s.waiting[r].0 == i
    ensures OnItsWay(Step(s, RunThread(t)), r, i) && Step(s, RunThread(t)).lock == s.lock
  {
  }

  lemma RunOne(s: Sys, e: Event)
    ensures Run(s, [e]) == Step(s, e)
  {
    assert [e][1..] == [];
  }

  lemma RunTwo(s: Sys, a: Event, b: Event)
    ensures Run(s, [a, b]) == Step(Step(s, a), b)
  {
    assert [a] + [b] == [a, b];
    RunConcat(s, [a], [b]);
    RunOne(s, a);
    RunOne(Step(s, a), b);
  }

  lemma FourSteps(s: Sys, a: Event, b: Event, c: Event, d: Event)
    ensures Run(s, [a, b, c, d]) == Step(Step(Step(Step(s, a), b), c), d)
  {
    assert [a, b] + [c, d] == [a, b, c, d];
    RunConcat(s, [a, b], [c, d]);
    RunTwo(s, a, b);
    RunTwo(Step(Step(s, a), b), c, d);
  }

  lemma SixSteps(s: Sys, e: Event)
    ensures Run(s, [e, e, e, e, e, e]) == Step(Step(Step(Step(Step(Step(s, e), e), e), e), e), e)
  {
    assert [e, e, e, e] + [e, e] == [e, e, e, e, e, e];
    RunConcat(s, [e, e, e, e], [e, e]);
    FourSteps(s, e, e, e, e);
    RunTwo(Run(s, [e, e, e, e]), e, e);
  }

  // ----- Answering

  /** A thread that has been told how request r went, and has not asked for the lock yet. */
  ghost predicate ToAnswer(s: Sys, t: nat, r: nat, error: bool, i: nat) {
    Runs(s, t, Responder(r, error, AwaitLock)) && r in s.waiting && s.waiting[r].0 == i && t < s.nextThread
  }

  /** It runs to its end: the message is confirmed, or a new thread sleeps on it. */
  lemma AnswersIt(s: Sys, t: nat, r: nat, error: bool, i: nat) returns (more: seq<Event>)
    requires Calm(s) && ToAnswer(s, t, r, error, i)
    ensures var u := Run(s, more);
            Calm(u) && if error then SleepsOn(u, s.nextThread, i) else i in u.confirmed
  {
    var step := RunThread(t);
    var s1 := Step(s, step);
    assert Runs(s1, t, Responder(r, error, Pop));
    AnswerSectionRuns(s1, t, r, error);
    more := [step, step, step, step];
    FourSteps(s, step, step, step, step);
    SaneRun(s, more);
  }

  ghost predicate SleepsOn(s: Sys, t: nat, i: nat) { t in s.threads && s.threads[t].Sleeper? && s.threads[t].idx == i }

  lemma Wakes(s: Sys, t: nat, i: nat)
    requires Calm(s) && SleepsOn(s, t, i)
    ensures Run(s, [RunThread(t)]) == Step(s, RunThread(t))
    ensures Calm(Step(s, RunThread(t))) && ToPost(Step(s, RunThread(t)), t, i)
  {
    RunOne(s, RunThread(t));
    SaneStep(s, RunThread(t));
  }

  /** A response without an error confirms the message. */
  lemma ConfirmsIt(s: Sys, r: nat, i: nat) returns (more: seq<Event>)
    requires Calm(s) && OnItsWay(s, r, i)
    ensures i in Run(s, more).confirmed
  {
    var e := Response(r, false);
    var s1 := Step(s, e);
    SaneStep(s, e);
    assert ToAnswer(s1, s.nextThread, r, false, i);
    var later := AnswersIt(s1, s.nextThread, r, false, i);
    more := [e] + later;
    RunOne(s, e);
    RunConcat(s, [e], later);
  }

  lemma PostsAndConfirms(s: Sys, t: nat, i: nat) returns (more: seq<Event>)
    requires Calm(s) && ToPost(s, t, i)
    ensures i in Run(s, more).confirmed
  {
    var first, r := PostsIt(s, t, i);
    var later := ConfirmsIt(Run(s, first), r, i);
    more := first + later;
    RunConcat(s, first, later);
  }

  lemma WakesAndConfirms(s: Sys, t: nat, i: nat) returns (more: seq<Event>)
    requires Calm(s) && SleepsOn(s, t, i)
    ensures i in Run(s, more).confirmed
  {
    Wakes(s, t, i);
    var later := PostsAndConfirms(Step(s, RunThread(t)), t, i);
    more := [RunThread(t)] + later;
    RunConcat(s, [RunThread(t)], later);
  }

  lemma AnswersAndConfirms(s: Sys, t: nat, r: nat, error: bool, i: nat) returns (more: seq<Event>)
    requires Calm(s) && ToAnswer(s, t, r, error, i)
    ensures i in Run(s, more).confirmed
  {
    more := AnswersIt(s, t, r, error, i);
    if error {
      var later := WakesAndConfirms(Run(s, more), s.nextThread, i);
      RunConcat(s, more, later);
      more := more + later;
    }
  }

  lemma FetchesAndConfirms(s: Sys, t: nat, r: nat, i: nat) returns (more: seq<Event>)
    requires Calm(s) && t in s.threads && s.threads[t].Poster? && s.threads[t].at == Fetch(r)
    requires r in s.waiting && s.waiting[r].0 == i
    ensures i in Run(s, more).confirmed
  {
    var e := RunThread(t);
    SaneStep(s, e);
    var later := ConfirmsIt(Step(s, e), r, i);
    more := [e] + later;
    RunOne(s, e);
    RunConcat(s, [e], later);
  }

  /** A request that waits: it is on its way, about to be, or just answered. */
  lemma WaitingConfirms(s: Sys, r: nat, i: nat) returns (more: seq<Event>)
    requires Calm(s) && r in s.waiting && s.waiting[r].0 == i
    ensures i in Run(s, more).confirmed
  {
    var home, agent :| Inv(s, home, agent);
    assert Duties(s)(agent[r], r);
    match agent[r]
    case Network => more := ConfirmsIt(s, r, i);
    case ByThread(t) =>
      assert !HoldsLock(s.threads[t]);
      if s.threads[t].Poster? {
        more := FetchesAndConfirms(s, t, r, i);
      } else {
        more := AnswersAndConfirms(s, t, r, s.threads[t].error, i);
      }
  }

  lemma CalmConfirms(s: Sys, i: nat) returns (more: seq<Event>)
    requires Calm(s) && 1 <= i <= s.counter
    ensures i in Run(s, more).confirmed
  {
    var home, agent :| Inv(s, home, agent);
    assert Places(s)(home[i], i);
    match home[i]
    case Confirmed => more := [];
    case Waiting(r) => more := WaitingConfirms(s, r, i);
    case InThread(t) =>
      assert !HoldsLock(s.threads[t]);
      if s.threads[t].Poster? {
        more := PostsAndConfirms(s, t, i);
      } else {
        more := WakesAndConfirms(s, t, i);
      }
  }

  lemma {:induction false} CounterStays(s: Sys, e: Event, n: nat)
    requires e.RunThread?
    ensures Run(s, Repeat(e, n)).counter == s.counter
    decreases n
  {
    if n > 0 {
      var s1, rest := Step(s, e), Repeat(e, n - 1);
      StepCounts(s, e);
      RunOne(s, e);
      RunConcat(s, [e], rest);
      CounterStays(s1, e, n - 1);
    }
  }

  /** From every state that can be reached, and for every message submitted, some continuation confirms it. */
  lemma CanBeConfirmed(es: seq<Event>, i: nat) returns (more: seq<Event>)
    requires 1 <= i <= Run(START, es).counter
    ensures i in Run(START, es + more).confirmed
  {
    SaneStart();
    SaneRun(START, es);
    var s := Run(START, es);
    var freeing := Freeing(s);
    SaneRun(s, freeing);
    var later := CalmConfirms(Run(s, freeing), i);
    more := freeing + later;
    RunConcat(s, freeing, later);
    RunConcat(START, es, more);
  }
}
