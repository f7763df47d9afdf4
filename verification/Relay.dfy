/**
 The reposting of messages in relay.py: threads that share a dictionary, a lock and a table of requests waiting for
 a response, as atomic steps that may interleave in any order.
 */
module Relay {
  import opened Bytes

  // ----- Bodies

  function HexDigit(n: nat): byte
    requires n < 16
  {
    if n < 10 then 48 + n else 87 + n
  }

  /** str.encode('hex'). */
  function Hex(s: bytes): (r: bytes)
    ensures |r| == 2 * |s|
  {
    if s == [] then [] else [HexDigit(s[0] / 16), HexDigit(s[0] % 16)] + Hex(s[1..])
  }

  function HexValue(c: byte): Option<nat> {
    if 48 <= c <= 57 then Some((c as int) - 48)
    else if 97 <= c <= 102 then Some((c as int) - 87)
    else if 65 <= c <= 70 then Some((c as int) - 55)
    else None
  }

  /** str.decode('hex'); None where it raises. */
  function Unhex(s: bytes): Option<bytes> {
    if s == [] then Some([])
    else if |s| == 1 then None
    else
      var hi, lo, rest := HexValue(s[0]), HexValue(s[1]), Unhex(s[2..]);
      if hi.None? || lo.None? || rest.None? then None
      else if 16 * hi.value + lo.value >= 256 then None
      else Some([16 * hi.value + lo.value] + rest.value)
  }

  /** What one side sends in hexadecimal the other side's handler decodes. */
  lemma {:induction false} HexRoundTrip(s: bytes)
    ensures Unhex(Hex(s)) == Some(s)
  {
    if s != [] {
      var h := Hex(s);
      assert h[2..] == Hex(s[1..]);
      HexRoundTrip(s[1..]);
      assert s == [s[0]] + s[1..];
    }
  }

  /** Two lower-case digits a byte, the high one first. */
  lemma {:induction false} HexDigits(s: bytes, i: nat)
    requires i < |s|
    ensures Hex(s)[2 * i] as char == "0123456789abcdef"[s[i] / 16]
    ensures Hex(s)[2 * i + 1] as char == "0123456789abcdef"[s[i] % 16]
  {
    if i == 0 {
      DigitIs(s[0] / 16);
      DigitIs(s[0] % 16);
    } else {
      HexDigits(s[1..], i - 1);
    }
  }

  lemma DigitIs(n: nat)
    requires n < 16
    ensures HexDigit(n) as char == "0123456789abcdef"[n]
  {
    var digits := "0123456789abcdef";
    if n < 10 {
      assert digits[n] as int == 48 + n;
    } else {
      assert digits[n] as int == 87 + n;
    }
  }

  predicate IsHexDigit(c: byte) { '0' <= c as char <= '9' || 'a' <= c as char <= 'f' || 'A' <= c as char <= 'F' }

  predicate AreHexDigits(s: bytes) { forall i :: 0 <= i < |s| ==> IsHexDigit(s[i]) }

  lemma DigitsCons(s: bytes)
    requires |s| >= 2
    ensures AreHexDigits(s) <==> IsHexDigit(s[0]) && IsHexDigit(s[1]) && AreHexDigits(s[2..])
  {
    var rest := s[2..];
    assert forall i :: 0 <= i < |rest| ==> rest[i] == s[i + 2];
    if IsHexDigit(s[0]) && IsHexDigit(s[1]) && AreHexDigits(rest) {
      forall i | 0 <= i < |s| ensures IsHexDigit(s[i]) {
        assert i >= 2 ==> s[i] == rest[i - 2];
      }
    }
  }

  lemma LowerCaseCons(s: bytes)
    requires |s| >= 2
    ensures LowerCase(s) == LowerCase([s[0]]) + LowerCase([s[1]]) + LowerCase(s[2..])
  {
  }

  function LowerCase(s: bytes): (r: bytes)
    ensures |r| == |s|
  {
    seq(|s|, i requires 0 <= i < |s| => if 'A' <= s[i] as char <= 'F' then (s[i] as int + 32) as byte else s[i])
  }

  lemma DigitsOf(c: byte)
    ensures HexValue(c).Some? <==> IsHexDigit(c)
    ensures HexValue(c).Some? ==> HexValue(c).value < 16 && [HexDigit(HexValue(c).value)] == LowerCase([c])
  {
  }

  /** decode('hex') takes pairs of digits of either case, and nothing else, and undoes encode('hex'). */
  lemma {:induction false} UnhexExactly(s: bytes)
    ensures Unhex(s).Some? <==> |s| % 2 == 0 && AreHexDigits(s)
    ensures Unhex(s).Some? ==> Hex(Unhex(s).value) == LowerCase(s)
    decreases |s|
  {
    if |s| >= 2 {
      var rest := s[2..];
      DigitsOf(s[0]);
      DigitsOf(s[1]);
      UnhexExactly(rest);
      DigitsCons(s);
      if Unhex(s).Some? {
        var d := Unhex(s).value;
        assert d[1..] == Unhex(rest).value;
        LowerCaseCons(s);
      }
    }
  }

  /** The url-encoded form of the credentials together with this data. */
  datatype Body = Body(data: bytes)

  // ----- The system

  datatype Request = Request(idx: nat, body: Body)

  /** How far a post_message call has come. */
  datatype Posting = WantLock | SetData | Encode | Store(body: Body) | Unlock(req: nat) | Fetch(req: nat)

  /** How far an __on_message_sent call has come. */
  datatype Answering = AwaitLock | Pop | Finish(idx: nat, data: bytes) | Release

  datatype Thread =
    | Poster(idx: nat, data: bytes, at: Posting)
    | Responder(req: nat, error: bool, step: Answering)
    | Sleeper(idx: nat, data: bytes)

  /**
   __iridium_counter, the lock's owner, __post_data['data'], __waiting_for_confirm, the requests whose response is
   still to come, and the threads. Requests made, data submitted and indices confirmed are kept as a record.
   */
  datatype Sys = Sys(
    counter: nat, lock: Option<nat>, postData: bytes, waiting: map<nat, (nat, bytes)>, inFlight: set<nat>,
    threads: map<nat, Thread>, nextReq: nat, nextThread: nat,
    requests: map<nat, Request>, submitted: map<nat, bytes>, confirmed: set<nat>, crashed: bool)

  datatype Event = Submit(data: bytes) | RunThread(t: nat) | Response(req: nat, error: bool)

  const START := Sys(0, None, [], map[], {}, map[], 0, 0, map[], map[], {}, false)

  /** A message from MQTT gets the next index and is posted. */
  function DoSubmit(s: Sys, data: bytes): Sys {
    var idx := s.counter + 1;
    s.(counter := idx, submitted := s.submitted[idx := data],
       threads := s.threads[s.nextThread := Poster(idx, data, WantLock)], nextThread := s.nextThread + 1)
  }

  /** The next step of a post_message call. */
  function RunPoster(s: Sys, t: nat, th: Thread): Sys
    requires th.Poster?
  {
    match th.at
    case WantLock => if s.lock.Some? then s else s.(lock := Some(t), threads := s.threads[t := th.(at := SetData)])
    case SetData => s.(postData := Hex(th.data), threads := s.threads[t := th.(at := Encode)])
    case Encode => s.(threads := s.threads[t := th.(at := Store(Body(s.postData)))])
    case Store(body) =>
      s.(waiting := s.waiting[s.nextReq := (th.idx, th.data)],
         requests := s.requests[s.nextReq := Request(th.idx, body)],
         nextReq := s.nextReq + 1, threads := s.threads[t := th.(at := Unlock(s.nextReq))])
    case Unlock(req) => s.(lock := None, threads := s.threads[t := th.(at := Fetch(req))])
    case Fetch(req) => s.(inFlight := s.inFlight + {req}, threads := s.threads - {t})
  }

  /** The next step of an __on_message_sent call; pop raises KeyError when the request is not there. */
  function RunResponder(s: Sys, t: nat, th: Thread): Sys
    requires th.Responder?
  {
    match th.step
    case AwaitLock => if s.lock.Some? then s else s.(lock := Some(t), threads := s.threads[t := th.(step := Pop)])
    case Pop =>
      if th.req !in s.waiting then s.(crashed := true)
      else
        var (idx, data) := s.waiting[th.req];
        s.(waiting := s.waiting - {th.req}, threads := s.threads[t := th.(step := Finish(idx, data))])
    case Finish(idx, data) =>
      var u := s.(threads := s.threads[t := th.(step := Release)]);
      if th.error then
        u.(threads := u.threads[s.nextThread := Sleeper(idx, data)], nextThread := s.nextThread + 1)
      else u.(confirmed := s.confirmed + {idx})
    case Release => s.(lock := None, threads := s.threads - {t})
  }

  function Step(s: Sys, e: Event): Sys {
    match e
    case Submit(data) => DoSubmit(s, data)
    case RunThread(t) =>
      if t !in s.threads then s
      else
        (match s.threads[t]
         case Poster(_, _, _) => RunPoster(s, t, s.threads[t])
         case Responder(_, _, _) => RunResponder(s, t, s.threads[t])
         case Sleeper(idx, data) => s.(threads := s.threads[t := Poster(idx, data, WantLock)]))
    case Response(req, error) =>
      if req !in s.inFlight then s
      else
        s.(inFlight := s.inFlight - {req}, threads := s.threads[s.nextThread := Responder(req, error, AwaitLock)],
           nextThread := s.nextThread + 1)
  }

  function Run(s: Sys, es: seq<Event>): Sys
    decreases |es|
  {
    if es == [] then s else Run(Step(s, es[0]), es[1..])
  }

  // ----- Exactly one of several places

  /** home says where every key is, and it is nowhere else. */
  ghost predicate Unique<P(!new)>(at: (P, nat) -> bool, home: map<nat, P>) {
    && (forall i :: i in home ==> at(home[i], i))
    && (forall p, i: nat :: at(p, i) ==> i in home && home[i] == p)
  }

  ghost predicate Moves<P(!new)>(at: (P, nat) -> bool, at': (P, nat) -> bool, key: nat, from: P, to: P) {
    && at(from, key)
    && forall p, i: nat :: at'(p, i) <==> (p == to && i == key) || (at(p, i) && !(p == from && i == key))
  }

  lemma Moved<P(!new)>(at: (P, nat) -> bool, at': (P, nat) -> bool, home: map<nat, P>, key: nat, from: P, to: P)
    requires Unique(at, home) && Moves(at, at', key, from, to)
    ensures Unique(at', home[key := to])
  {
  }

  lemma Added<P(!new)>(at: (P, nat) -> bool, at': (P, nat) -> bool, home: map<nat, P>, key: nat, to: P)
    requires Unique(at, home) && key !in home
    requires forall p, i: nat :: at'(p, i) <==> (p == to && i == key) || at(p, i)
    ensures Unique(at', home[key := to])
  {
  }

  lemma Removed<P(!new)>(at: (P, nat) -> bool, at': (P, nat) -> bool, home: map<nat, P>, key: nat, from: P)
    requires Unique(at, home) && at(from, key)
    requires forall p, i: nat :: at'(p, i) <==> at(p, i) && !(p == from && i == key)
    ensures Unique(at', home - {key})
  {
  }

  lemma Unmoved<P(!new)>(at: (P, nat) -> bool, at': (P, nat) -> bool, home: map<nat, P>)
    requires Unique(at, home) && forall p, i: nat :: at'(p, i) <==> at(p, i)
    ensures Unique(at', home)
  {
  }

  // ----- Where a message is

  datatype Place = InThread(t: nat) | Waiting(req: nat) | Confirmed

  /** The index a thread answers for: before its request is stored, after it is popped, or while asleep. */
  function Carried(th: Thread): Option<nat> {
    match th
    case Poster(idx, _, at) => if at.Unlock? || at.Fetch? then None else Some(idx)
    case Responder(_, _, step) => if step.Finish? then Some(step.idx) else None
    case Sleeper(idx, _) => Some(idx)
  }

  predicate IsAt(s: Sys, p: Place, idx: nat) {
    match p
    case InThread(t) => t in s.threads && Carried(s.threads[t]) == Some(idx)
    case Waiting(r) => r in s.waiting && s.waiting[r].0 == idx
    case Confirmed => idx in s.confirmed
  }

  function Places(s: Sys): (Place, nat) -> bool { (p: Place, i: nat) => IsAt(s, p, i) }

  /** home says where every submitted index is, and it is nowhere else. */
  ghost predicate Homes(s: Sys, home: map<nat, Place>) {
    (forall i :: i in home <==> 1 <= i <= s.counter) && Unique(Places(s), home)
  }

  // ----- Who will see to a request

  datatype Agent = Network | ByThread(t: nat)

  /** The request a thread is still to fetch, or to pop. */
  function Minds(th: Thread): Option<nat> {
    match th
    case Poster(_, _, at) => if at.Unlock? || at.Fetch? then Some(at.req) else None
    case Responder(r, _, step) => if step.AwaitLock? || step.Pop? then Some(r) else None
    case Sleeper(_, _) => None
  }

  predicate Sees(s: Sys, a: Agent, r: nat) {
    match a
    case Network => r in s.inFlight
    case ByThread(t) => t in s.threads && Minds(s.threads[t]) == Some(r)
  }

  function Duties(s: Sys): (Agent, nat) -> bool { (a: Agent, r: nat) => Sees(s, a, r) }

  /** agent says who sees to every waiting request, and nobody else does, nor to a request that is not waiting. */
  ghost predicate Agents(s: Sys, agent: map<nat, Agent>) {
    (forall r :: r in agent <==> r in s.waiting) && Unique(Duties(s), agent)
  }

  // ----- The lock, and what it protects

  predicate HoldsLock(th: Thread) {
    match th
    case Poster(_, _, at) => !at.WantLock? && !at.Fetch?
    case Responder(_, _, step) => !step.AwaitLock?
    case Sleeper(_, _) => false
  }

  ghost predicate Locked(s: Sys) {
    forall t :: t in s.threads && HoldsLock(s.threads[t]) ==> s.lock == Some(t)
  }

  ghost predicate Fresh(s: Sys) {
    && (forall t :: t in s.threads ==> t < s.nextThread)
    && (forall r :: r in s.requests ==> r < s.nextReq)
    && (forall r :: r in s.waiting ==> r in s.requests)
  }

  predicate Submitted(submitted: map<nat, bytes>, idx: nat, data: bytes) {
    idx in submitted && submitted[idx] == data
  }

  /** A thread works with the data submitted under its index; what it encodes is that data and no other. */
  predicate OwnData(postData: bytes, submitted: map<nat, bytes>, th: Thread) {
    match th
    case Poster(idx, data, at) =>
      && Submitted(submitted, idx, data)
      && (at.Encode? ==> postData == Hex(data))
      && (at.Store? ==> at.body == Body(Hex(data)))
    case Responder(_, _, step) => step.Finish? ==> Submitted(submitted, step.idx, step.data)
    case Sleeper(idx, data) => Submitted(submitted, idx, data)
  }

  ghost predicate BodiesMatch(s: Sys) {
    forall r :: r in s.requests ==>
      s.requests[r].idx in s.submitted && s.requests[r].body == Body(Hex(s.submitted[s.requests[r].idx]))
  }

  ghost predicate ThreadsOwn(s: Sys) {
    forall t :: t in s.threads ==> OwnData(s.postData, s.submitted, s.threads[t])
  }

  ghost predicate WaitingOwn(s: Sys) {
    && (forall r :: r in s.waiting ==> Submitted(s.submitted, s.waiting[r].0, s.waiting[r].1))
    && (forall i :: i in s.submitted ==> i <= s.counter)
  }

  ghost predicate DataKept(s: Sys) { ThreadsOwn(s) && WaitingOwn(s) && BodiesMatch(s) }

  ghost predicate Inv(s: Sys, home: map<nat, Place>, agent: map<nat, Agent>) {
    !s.crashed && Locked(s) && Fresh(s) && DataKept(s) && Homes(s, home) && Agents(s, agent)
  }

  // ----- Every step keeps all of it

  /** A thread in the table, about to take its next step. */
  ghost predicate Runs(s: Sys, t: nat, th: Thread) { t in s.threads && s.threads[t] == th }

  lemma LockPoster(s: Sys, t: nat, th: Thread)
    requires Locked(s) && Runs(s, t, th) && th.Poster?
    ensures Locked(RunPoster(s, t, th))
  {
    assert HoldsLock(th) ==> s.lock == Some(t);
  }

  lemma LockResponder(s: Sys, t: nat, th: Thread)
    requires Locked(s) && Fresh(s) && Runs(s, t, th) && th.Responder?
    ensures Locked(RunResponder(s, t, th))
  {
    assert HoldsLock(th) ==> s.lock == Some(t);
  }

  lemma LockStep(s: Sys, e: Event)
    requires Locked(s) && Fresh(s)
    ensures Locked(Step(s, e))
  {
    if e.RunThread? && e.t in s.threads {
      match s.threads[e.t]
      case Poster(_, _, _) => LockPoster(s, e.t, s.threads[e.t]);
      case Responder(_, _, _) => LockResponder(s, e.t, s.threads[e.t]);
      case Sleeper(_, _) =>
    }
  }

  lemma FreshPoster(s: Sys, t: nat, th: Thread)
    requires Fresh(s) && Runs(s, t, th) && th.Poster?
    ensures Fresh(RunPoster(s, t, th))
  {
  }

  lemma FreshResponder(s: Sys, t: nat, th: Thread)
    requires Fresh(s) && Runs(s, t, th) && th.Responder?
    ensures Fresh(RunResponder(s, t, th))
  {
  }

  lemma FreshStep(s: Sys, e: Event)
    requires Fresh(s)
    ensures Fresh(Step(s, e))
  {
    if e.RunThread? && e.t in s.threads {
      match s.threads[e.t]
      case Poster(_, _, _) => FreshPoster(s, e.t, s.threads[e.t]);
      case Responder(_, _, _) => FreshResponder(s, e.t, s.threads[e.t]);
      case Sleeper(_, _) =>
    }
  }

  /** Only the lock's owner is between setting the shared data and using it. */
  lemma OthersDoNotEncode(s: Sys, t: nat, th: Thread)
    requires Locked(s) && Runs(s, t, th) && HoldsLock(th)
    ensures forall u :: u in s.threads && u != t ==> !HoldsLock(s.threads[u])
  {
    assert s.lock == Some(t);
  }

  lemma ThreadsPoster(s: Sys, t: nat, th: Thread)
    requires Locked(s) && ThreadsOwn(s) && Runs(s, t, th) && th.Poster?
    ensures ThreadsOwn(RunPoster(s, t, th))
  {
    assert OwnData(s.postData, s.submitted, th);
    if th.at.SetData? {
      OthersDoNotEncode(s, t, th);
    }
  }

  lemma DataPoster(s: Sys, t: nat, th: Thread)
    requires Locked(s) && Fresh(s) && DataKept(s) && Runs(s, t, th) && th.Poster?
    ensures DataKept(RunPoster(s, t, th))
  {
    assert OwnData(s.postData, s.submitted, th);
    ThreadsPoster(s, t, th);
  }

  lemma ThreadsResponder(s: Sys, t: nat, th: Thread)
    requires ThreadsOwn(s) && WaitingOwn(s) && Runs(s, t, th) && th.Responder?
    ensures ThreadsOwn(RunResponder(s, t, th))
  {
    assert OwnData(s.postData, s.submitted, th);
  }

  lemma WaitingResponder(s: Sys, t: nat, th: Thread)
    requires WaitingOwn(s) && Runs(s, t, th) && th.Responder?
    ensures WaitingOwn(RunResponder(s, t, th))
  {
  }

  lemma BodiesResponder(s: Sys, t: nat, th: Thread)
    requires BodiesMatch(s) && Runs(s, t, th) && th.Responder?
    ensures BodiesMatch(RunResponder(s, t, th))
  {
  }

  lemma DataResponder(s: Sys, t: nat, th: Thread)
    requires DataKept(s) && Runs(s, t, th) && th.Responder?
    ensures DataKept(RunResponder(s, t, th))
  {
    ThreadsResponder(s, t, th);
    WaitingResponder(s, t, th);
    BodiesResponder(s, t, th);
  }

  lemma DataStep(s: Sys, e: Event)
    requires Locked(s) && Fresh(s) && DataKept(s)
    ensures DataKept(Step(s, e))
  {
    if e.RunThread? && e.t in s.threads {
      match s.threads[e.t]
      case Poster(_, _, _) => DataPoster(s, e.t, s.threads[e.t]);
      case Responder(_, _, _) => DataResponder(s, e.t, s.threads[e.t]);
      case Sleeper(_, _) => assert OwnData(s.postData, s.submitted, s.threads[e.t]);
    }
  }

  lemma HomeStored(s: Sys, t: nat, th: Thread, home: map<nat, Place>) returns (after: map<nat, Place>)
    requires Homes(s, home) && Fresh(s) && Runs(s, t, th) && th.Poster? && th.at.Store?
    ensures Homes(RunPoster(s, t, th), after)
  {
    after := home[th.idx := Waiting(s.nextReq)];
    assert Places(s)(InThread(t), th.idx);
    Moved(Places(s), Places(RunPoster(s, t, th)), home, th.idx, InThread(t), Waiting(s.nextReq));
  }

  /** Elsewhere than at its Store step a posting thread moves no message. */
  lemma PosterCarriesOn(s: Sys, t: nat, th: Thread)
    requires Runs(s, t, th) && th.Poster? && !th.at.Store?
    ensures forall p, i: nat :: Places(RunPoster(s, t, th))(p, i) <==> Places(s)(p, i)
  {
  }

  lemma HomePoster(s: Sys, t: nat, th: Thread, home: map<nat, Place>) returns (after: map<nat, Place>)
    requires Homes(s, home) && Fresh(s) && Runs(s, t, th) && th.Poster?
    ensures Homes(RunPoster(s, t, th), after)
  {
    if th.at.Store? {
      after := HomeStored(s, t, th, home);
    } else {
      after := home;
      PosterCarriesOn(s, t, th);
      Unmoved(Places(s), Places(RunPoster(s, t, th)), home);
    }
  }

  lemma HomePopped(s: Sys, t: nat, th: Thread, home: map<nat, Place>) returns (after: map<nat, Place>)
    requires Homes(s, home) && Fresh(s) && Runs(s, t, th) && th.Responder? && th.step.Pop? && th.req in s.waiting
    ensures Homes(RunResponder(s, t, th), after)
  {
    var idx := s.waiting[th.req].0;
    after := home[idx := InThread(t)];
    assert Places(s)(Waiting(th.req), idx);
    Moved(Places(s), Places(RunResponder(s, t, th)), home, idx, Waiting(th.req), InThread(t));
  }

  lemma HomeFinished(s: Sys, t: nat, th: Thread, home: map<nat, Place>) returns (after: map<nat, Place>)
    requires Homes(s, home) && Fresh(s) && Runs(s, t, th) && th.Responder? && th.step.Finish?
    ensures Homes(RunResponder(s, t, th), after)
  {
    var to := if th.error then InThread(s.nextThread) else Confirmed;
    after := home[th.step.idx := to];
    assert Places(s)(InThread(t), th.step.idx);
    Moved(Places(s), Places(RunResponder(s, t, th)), home, th.step.idx, InThread(t), to);
  }

  lemma HomeResponder(s: Sys, t: nat, th: Thread, home: map<nat, Place>) returns (after: map<nat, Place>)
    requires Homes(s, home) && Fresh(s) && Runs(s, t, th) && th.Responder?
    ensures Homes(RunResponder(s, t, th), after)
  {
    if th.step.Pop? && th.req in s.waiting {
      after := HomePopped(s, t, th, home);
    } else if th.step.Finish? {
      after := HomeFinished(s, t, th, home);
    } else {
      after := home;
      Unmoved(Places(s), Places(RunResponder(s, t, th)), home);
    }
  }

  lemma HomeStep(s: Sys, e: Event, home: map<nat, Place>) returns (after: map<nat, Place>)
    requires Homes(s, home) && Fresh(s)
    ensures Homes(Step(s, e), after)
  {
    if e.Submit? {
      after := home[s.counter + 1 := InThread(s.nextThread)];
      Added(Places(s), Places(Step(s, e)), home, s.counter + 1, InThread(s.nextThread));
    } else if e.RunThread? && e.t in s.threads && s.threads[e.t].Poster? {
      after := HomePoster(s, e.t, s.threads[e.t], home);
    } else if e.RunThread? && e.t in s.threads && s.threads[e.t].Responder? {
      after := HomeResponder(s, e.t, s.threads[e.t], home);
    } else {
      after := home;
      Unmoved(Places(s), Places(Step(s, e)), home);
    }
  }

  lemma AgentStored(s: Sys, t: nat, th: Thread, agent: map<nat, Agent>) returns (after: map<nat, Agent>)
    requires Agents(s, agent) && Fresh(s) && Runs(s, t, th) && th.Poster? && th.at.Store?
    ensures Agents(RunPoster(s, t, th), after)
  {
    after := agent[s.nextReq := ByThread(t)];
    Added(Duties(s), Duties(RunPoster(s, t, th)), agent, s.nextReq, ByThread(t));
  }

  lemma AgentFetched(s: Sys, t: nat, th: Thread, agent: map<nat, Agent>) returns (after: map<nat, Agent>)
    requires Agents(s, agent) && Fresh(s) && Runs(s, t, th) && th.Poster? && th.at.Fetch?
    ensures Agents(RunPoster(s, t, th), after)
  {
    after := agent[th.at.req := Network];
    assert Duties(s)(ByThread(t), th.at.req);
    Moved(Duties(s), Duties(RunPoster(s, t, th)), agent, th.at.req, ByThread(t), Network);
  }

  lemma AgentPoster(s: Sys, t: nat, th: Thread, agent: map<nat, Agent>) returns (after: map<nat, Agent>)
    requires Agents(s, agent) && Fresh(s) && Runs(s, t, th) && th.Poster?
    ensures Agents(RunPoster(s, t, th), after)
  {
    if th.at.Store? {
      after := AgentStored(s, t, th, agent);
    } else if th.at.Fetch? {
      after := AgentFetched(s, t, th, agent);
    } else {
      after := agent;
      Unmoved(Duties(s), Duties(RunPoster(s, t, th)), agent);
    }
  }

  /** In particular the request that a response is for is always still in the table. */
  lemma AgentResponder(s: Sys, t: nat, th: Thread, agent: map<nat, Agent>) returns (after: map<nat, Agent>)
    requires Agents(s, agent) && Fresh(s) && Runs(s, t, th) && th.Responder?
    ensures Agents(RunResponder(s, t, th), after)
    ensures RunResponder(s, t, th).crashed == s.crashed
  {
    var next := RunResponder(s, t, th);
    if th.step.Pop? {
      assert Duties(s)(ByThread(t), th.req);
      after := agent - {th.req};
      Removed(Duties(s), Duties(next), agent, th.req, ByThread(t));
    } else {
      after := agent;
      Unmoved(Duties(s), Duties(next), agent);
    }
  }

  lemma AgentStep(s: Sys, e: Event, agent: map<nat, Agent>) returns (after: map<nat, Agent>)
    requires Agents(s, agent) && Fresh(s)
    ensures Agents(Step(s, e), after) && Step(s, e).crashed == s.crashed
  {
    if e.RunThread? && e.t in s.threads && s.threads[e.t].Poster? {
      after := AgentPoster(s, e.t, s.threads[e.t], agent);
    } else if e.RunThread? && e.t in s.threads && s.threads[e.t].Responder? {
      after := AgentResponder(s, e.t, s.threads[e.t], agent);
    } else if e.Response? && e.req in s.inFlight {
      after := agent[e.req := ByThread(s.nextThread)];
      assert Duties(s)(Network, e.req);
      Moved(Duties(s), Duties(Step(s, e)), agent, e.req, Network, ByThread(s.nextThread));
    } else {
      after := agent;
      Unmoved(Duties(s), Duties(Step(s, e)), agent);
    }
  }

  lemma InvStep(s: Sys, e: Event, home: map<nat, Place>, agent: map<nat, Agent>)
    returns (home': map<nat, Place>, agent': map<nat, Agent>)
    requires Inv(s, home, agent)
    ensures Inv(Step(s, e), home', agent')
  {
    LockStep(s, e);
    FreshStep(s, e);
    DataStep(s, e);
    home' := HomeStep(s, e, home);
    agent' := AgentStep(s, e, agent);
  }

  lemma InvStart()
    ensures Inv(START, map[], map[])
  {
  }

  lemma {:induction false} InvRun(s: Sys, es: seq<Event>, home: map<nat, Place>, agent: map<nat, Agent>)
    returns (home': map<nat, Place>, agent': map<nat, Agent>)
    requires Inv(s, home, agent)
    ensures Inv(Run(s, es), home', agent')
    decreases |es|
  {
    if es == [] {
      home', agent' := home, agent;
    } else {
      home', agent' := InvStep(s, es[0], home, agent);
      home', agent' := InvRun(Step(s, es[0]), es[1..], home', agent');
    }
  }

  // ----- What holds in every reachable state

  ghost predicate Somewhere(s: Sys, i: nat) { exists p :: IsAt(s, p, i) }

  /**
   Under every interleaving each submitted index is in exactly one place: with one thread that is about to post it,
   is handling its response or is asleep before reposting it; in the table of requests waiting for a response; or
   confirmed. And nothing else is anywhere.
   */
  lemma NothingLostOrDoubled(es: seq<Event>)
    ensures var s := Run(START, es);
            forall i: nat :: Somewhere(s, i) <==> 1 <= i <= s.counter
    ensures var s := Run(START, es);
            forall i, p, q :: IsAt(s, p, i) && IsAt(s, q, i) ==> p == q
  {
    InvStart();
    var home, agent := InvRun(START, es, map[], map[]);
    var s := Run(START, es);
    forall i: nat ensures Somewhere(s, i) <==> 1 <= i <= s.counter {
      if i in home {
        assert Places(s)(home[i], i);
      } else {
        forall p ensures !IsAt(s, p, i) {
          assert Places(s)(p, i) == IsAt(s, p, i);
        }
      }
    }
    forall i, p, q | IsAt(s, p, i) && IsAt(s, q, i) ensures p == q {
      assert Places(s)(p, i) && Places(s)(q, i);
    }
  }

  /** Thread t is about to pop. */
  predicate Pops(s: Sys, t: nat) { t in s.threads && s.threads[t].Responder? && s.threads[t].step.Pop? }

  /** A response always finds its request in the table. */
  lemma PopAlwaysFinds(es: seq<Event>)
    ensures !Run(START, es).crashed
    ensures var s := Run(START, es); forall t :: Pops(s, t) ==> s.threads[t].req in s.waiting
  {
    InvStart();
    var home, agent := InvRun(START, es, map[], map[]);
    var s := Run(START, es);
    forall t | Pops(s, t) ensures s.threads[t].req in s.waiting {
      assert Duties(s)(ByThread(t), s.threads[t].req);
    }
  }

  /** A request that waits for a response is on its way, about to be, or just answered, and only one of these. */
  lemma EveryRequestIsSeenTo(es: seq<Event>)
    ensures var s := Run(START, es);
            forall r: nat :: r in s.waiting <==> exists a :: Sees(s, a, r)
    ensures var s := Run(START, es);
            forall r, a, b :: Sees(s, a, r) && Sees(s, b, r) ==> a == b
  {
    InvStart();
    var home, agent := InvRun(START, es, map[], map[]);
    var s := Run(START, es);
    forall r: nat ensures r in s.waiting <==> exists a :: Sees(s, a, r) {
      if r in agent {
        assert Duties(s)(agent[r], r);
      } else {
        forall a ensures !Sees(s, a, r) {
          assert Duties(s)(a, r) == Sees(s, a, r);
        }
      }
    }
    forall r, a, b | Sees(s, a, r) && Sees(s, b, r) ensures a == b {
      assert Duties(s)(a, r) && Duties(s)(b, r);
    }
  }

  /** Although all threads write to one dictionary, every request ever made decodes to the data of its own index. */
  lemma RequestsCarryTheirOwnData(es: seq<Event>)
    ensures var s := Run(START, es);
            forall r :: r in s.requests ==>
              && s.requests[r].idx in s.submitted
              && Unhex(s.requests[r].body.data) == Some(s.submitted[s.requests[r].idx])
  {
    InvStart();
    var home, agent := InvRun(START, es, map[], map[]);
    var s := Run(START, es);
    forall r | r in s.requests
      ensures s.requests[r].idx in s.submitted
              && Unhex(s.requests[r].body.data) == Some(s.submitted[s.requests[r].idx])
    {
      HexRoundTrip(s.submitted[s.requests[r].idx]);
    }
  }

  // ----- The locked sections, as the calls see them

  /** What the lock protects. */
  datatype Tables = Tables(postData: bytes, waiting: map<nat, (nat, bytes)>, requests: map<nat, Request>, nextReq: nat)

  function TablesOf(s: Sys): Tables { Tables(s.postData, s.waiting, s.requests, s.nextReq) }

  /** The locked section of post_message. */
  function PostSection(tb: Tables, idx: nat, data: bytes): Tables {
    Tables(Hex(data), tb.waiting[tb.nextReq := (idx, data)],
           tb.requests[tb.nextReq := Request(idx, Body(Hex(data)))], tb.nextReq + 1)
  }

  /** Its four steps, with nobody in between. */
  lemma PostSectionRuns(s: Sys, t: nat, idx: nat, data: bytes)
    requires Runs(s, t, Poster(idx, data, SetData))
    ensures var step := RunThread(t);
            var u := Step(Step(Step(Step(s, step), step), step), step);
            TablesOf(u) == PostSection(TablesOf(s), idx, data) && u.lock.None?
            && Runs(u, t, Poster(idx, data, Fetch(s.nextReq)))
  {
  }

  /** The table of waiting requests after a response, and the message to repost. */
  datatype Answer = Answer(waiting: map<nat, (nat, bytes)>, repost: Option<(nat, bytes)>)

  /** The locked section of __on_message_sent; None for the KeyError. */
  function AnswerSection(waiting: map<nat, (nat, bytes)>, request: nat, error: bool): Option<Answer> {
    if request !in waiting then None
    else Some(Answer(waiting - {request}, if error then Some(waiting[request]) else None))
  }

  /** What is left of the threads, and what is confirmed, after the section has run. */
  ghost predicate Answered(s: Sys, t: nat, req: nat, answer: Answer, u: Sys) {
    && u.waiting == answer.waiting && u.lock.None? && u.crashed == s.crashed && u.inFlight == s.inFlight
    && u.postData == s.postData && u.requests == s.requests && u.nextReq == s.nextReq
    && match answer.repost
       case Some((idx, data)) =>
         u.threads == s.threads[s.nextThread := Sleeper(idx, data)] - {t} && u.confirmed == s.confirmed
       case None =>
         u.threads == s.threads - {t} && req in s.waiting && u.confirmed == s.confirmed + {s.waiting[req].0}
  }

  /** Its steps after it has the lock, with nobody in between. */
  lemma AnswerSectionRuns(s: Sys, t: nat, req: nat, error: bool)
    requires Runs(s, t, Responder(req, error, Pop)) && t < s.nextThread
    ensures var step, answer := RunThread(t), AnswerSection(s.waiting, req, error);
            if answer.None? then Step(s, step).crashed
            else Answered(s, t, req, answer.value, Step(Step(Step(s, step), step), step))
  {
    if req in s.waiting {
      var (idx, data) := s.waiting[req];
      var s1 := Step(s, RunThread(t));
      assert Runs(s1, t, Responder(req, error, Finish(idx, data)));
      var s2 := Step(s1, RunThread(t));
      assert Runs(s2, t, Responder(req, error, Release));
    }
  }

  /** Nobody can be in between: while a thread has the lock no other step touches what it protects. */
  lemma SectionsExclude(s: Sys, t: nat, e: Event)
    requires Locked(s) && t in s.threads && HoldsLock(s.threads[t]) && e != RunThread(t)
    ensures TablesOf(Step(s, e)) == TablesOf(s) && Step(s, e).lock == s.lock
    ensures t in Step(s, e).threads && (Fresh(s) ==> Step(s, e).threads[t] == s.threads[t])
  {
    OthersDoNotEncode(s, t, s.threads[t]);
  }

  /** The shared part of IridiumInterface. */
  class IridiumInterface {
    var waitingForConfirm: map<nat, (nat, bytes)>
    var postData: bytes
    var requests: map<nat, Request>
    var nextReq: nat

    constructor ()
      ensures ToTables() == TablesOf(START)
    {
      waitingForConfirm, postData, requests, nextReq := map[], [], map[], 0;
    }

    function ToTables(): Tables reads this { Tables(postData, waitingForConfirm, requests, nextReq) }

    /** The locked section of post_message; the request is fetched after it. */
    method PostMessage(data: bytes, idx: nat) returns (request: nat)
      modifies this
      ensures ToTables() == PostSection(old(ToTables()), idx, data) && request == old(nextReq)
    {
      postData := Hex(data);
      var body := Body(postData);
      request := nextReq;
      nextReq := nextReq + 1;
      requests := requests[request := Request(idx, body)];
      waitingForConfirm := waitingForConfirm[request := (idx, data)];
    }

    /** The locked section of __on_message_sent; false for the KeyError, else the message to repost after an error. */
    method OnMessageSent(request: nat, error: bool) returns (found: bool, repost: Option<(nat, bytes)>)
      modifies this`waitingForConfirm
      ensures found == (request in old(waitingForConfirm))
      ensures waitingForConfirm == old(waitingForConfirm) - {request}
      ensures repost == if found && error then Some(old(waitingForConfirm)[request]) else None
      ensures (if found then Some(Answer(waitingForConfirm, repost)) else None)
           == AnswerSection(old(waitingForConfirm), request, error)
    {
      found, repost := request in waitingForConfirm, None;
      if found {
        var entry := waitingForConfirm[request];
        waitingForConfirm := waitingForConfirm - {request};
        if error {
          repost := Some(entry);
        }
      }
    }
  }
}
