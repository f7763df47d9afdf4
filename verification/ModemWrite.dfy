/**
 Writing a message into the simulated modem of simulator.py, and reading one out of it: AT+SBDWB and AT+SBDRB.
 */
module ModemWrite {
  import opened Bytes
  import opened Modem

  // ----- Lengths in decimal

  function Digits(n: nat): (s: bytes)
    ensures s != [] && forall i :: 0 <= i < |s| ==> IsDigit(s[i])
  {
    if n < 10 then [48 + n] else Digits(n / 10) + [48 + n % 10]
  }

  lemma {:induction false} DigitsValueOf(n: nat)
    ensures DigitsValue(Digits(n)) == n
  {
    if n >= 10 {
      DigitsValueOf(n / 10);
      assert Digits(n)[..|Digits(n)| - 1] == Digits(n / 10);
    } else {
      assert Digits(n)[..0] == [];
    }
  }

  lemma {:induction false} AllDigits(s: bytes)
    requires forall i :: 0 <= i < |s| ==> IsDigit(s[i])
    ensures DigitRun(s) == |s|
  {
    if s != [] {
      AllDigits(s[1..]);
    }
  }

  /** A length written in decimal is understood. */
  lemma DecimalParses(n: nat)
    ensures ParseInt(Digits(n)) == Some(n) && CR !in Digits(n)
  {
    var s := Digits(n);
    DigitsValueOf(n);
    AllDigits(s);
    assert IsDigit(s[0]) && s[..|s|] == s && s[|s|..] == [];
  }

  // ----- Checksums

  lemma {:induction false} SumBound(s: bytes)
    ensures Sum(s) <= 255 * |s|
  {
    if s != [] {
      SumBound(s[..|s| - 1]);
    }
  }

  /** Two bytes can sum up a payload exactly when its bytes add up to less than 65536, as up to 257 bytes always do. */
  lemma ChecksumExists(payload: bytes)
    ensures (exists hi: byte, lo: byte :: Sums(payload, hi, lo)) <==> Sum(payload) < 0x1_0000
    ensures |payload| <= 257 ==> Sum(payload) < 0x1_0000
  {
    SumBound(payload);
    if Sum(payload) < 0x1_0000 {
      assert Sums(payload, Sum(payload) / 256, Sum(payload) % 256);
    }
  }

  // ----- Writing

  /** AT+SBDWB with its length, the payload, and two bytes that should sum it up. */
  datatype Writing = Writing(digits: bytes, payload: bytes, hi: byte, lo: byte)
  {
    ghost predicate Valid() { CR !in digits && ParseInt(digits) == Some(|payload|) }

    function Head(): bytes { WriteHead() + digits }

    function Body(): bytes { payload + [hi, lo] }

    function Input(): bytes { Head() + [CR] + Body() }

    /** What the modem then holds to send. */
    function Stored(): bytes { if Sums(payload, hi, lo) then payload else Body() }

    function Result(): Output { Text(if Sums(payload, hi, lo) then "0" else "2") }
  }

  /** The modem after n bytes of the input. */
  predicate At(s: Sim, w: Writing, n: nat)
    requires n <= |w.Input()|
  {
    if n <= |w.Head()| then s.state != WritingMo && s.command == w.Head()[..n]
    else if n < |w.Input()| then
      && s.state == WritingMo && s.command == [] && s.moLength == |w.payload|
      && s.mo == w.Body()[..n - |w.Head()| - 1]
    else s.state == Idle && s.command == [] && s.mo == w.Stored()
  }

  /** What is sent from byte n on, rings aside. */
  function RepliesFrom(w: Writing, n: nat): seq<Output> {
    (if n <= |w.Head()| then [Text("READY")] else []) + (if n < |w.Input()| then [w.Result(), OkLine] else [])
  }

  function Replies(out: seq<Output>): seq<Output> {
    if out == [] then [] else (if out[0] == Ring then [] else [out[0]]) + Replies(out[1..])
  }

  lemma {:induction false} RepliesConcat(a: seq<Output>, b: seq<Output>)
    ensures Replies(a + b) == Replies(a) + Replies(b)
  {
    if a == [] {
      assert a + b == b;
    } else {
      assert (a + b)[1..] == a[1..] + b;
      RepliesConcat(a[1..], b);
    }
  }

  /** An input the modem is taken through: where it is after n bytes of it, and what it has yet to reply. */
  datatype Track = Track(input: bytes, at: (Sim, nat) -> bool, replies: nat -> seq<Output>)

  function TrackOf(w: Writing): Track {
    Track(w.Input(), (s: Sim, n: nat) => n <= |w.Input()| && At(s, w, n), (n: nat) => RepliesFrom(w, n))
  }

  /** The modem moved on from byte n to byte k, and replied accordingly. */
  ghost predicate Reached(d: Done, t: Track, n: nat, k: nat) {
    !d.crashed && t.at(d.sim, k) && Replies(d.out) + t.replies(k) == t.replies(n)
  }

  /** In particular by one byte. */
  ghost predicate Advanced(d: Done, w: Writing, n: nat)
    requires n < |w.Input()|
  {
    !d.crashed && At(d.sim, w, n + 1) && Replies(d.out) + RepliesFrom(w, n + 1) == RepliesFrom(w, n)
  }

  lemma HeadByte(cfg: Config, s: Sim, w: Writing, n: nat)
    requires w.Valid() && n < |w.Head()| && At(s, w, n)
    ensures Advanced(OnByte(cfg, s, w.Input()[n]), w, n)
  {
    assert w.Input()[n] == w.Head()[n];
    assert CR !in w.Head();
    assert w.Head()[..n] + [w.Head()[n]] == w.Head()[..n + 1];
  }

  lemma HeadIsWrite(w: Writing)
    requires w.Valid()
    ensures Recognise(w.Head()) == Sbdwb(w.digits)
  {
    var c := w.Head();
    assert |w.digits| > 0;
    assert c[..9] == WriteHead() && c[9..] == w.digits;
  }

  lemma CommandByte(cfg: Config, s: Sim, w: Writing)
    requires w.Valid() && At(s, w, |w.Head()|)
    ensures Advanced(OnByte(cfg, s, CR), w, |w.Head()|)
  {
    assert w.Head()[..|w.Head()|] == w.Head();
    HeadIsWrite(w);
    assert OnByte(cfg, s, CR).out == [Text("READY")];
    assert [Text("READY")][1..] == [];
  }

  lemma BodyByte(s: Sim, w: Writing, n: nat)
    requires w.Valid() && |w.Head()| < n < |w.Input()| - 1 && At(s, w, n)
    ensures Advanced(WriteByte(s, w.Input()[n]), w, n)
  {
    var k := n - |w.Head()| - 1;
    assert w.Body()[..k] + [w.Body()[k]] == w.Body()[..k + 1];
  }

  lemma LastByteIs(s: Sim, w: Writing)
    requires w.Valid() && At(s, w, |w.Input()| - 1)
    ensures WriteByte(s, w.lo) == Reply(s.(mo := w.Stored()), [w.Result()])
  {
    var body := w.Body();
    assert body[..|body| - 1] + [w.lo] == body && body[..|body| - 2] == w.payload;
  }

  lemma RepliesOfReply(s: Sim, line: Output)
    requires line != Ring
    ensures Replies(Reply(s, [line]).out) == [line, OkLine]
  {
    var ring := if s.ringMessagePending then [Ring] else [];
    assert Reply(s, [line]).out == [line, OkLine] + ring;
    RepliesConcat([line, OkLine], ring);
    TwoReplies(line);
  }

  lemma LastByte(s: Sim, w: Writing)
    requires w.Valid() && At(s, w, |w.Input()| - 1)
    ensures Advanced(WriteByte(s, w.lo), w, |w.Input()| - 1)
  {
    LastByteIs(s, w);
    RepliesOfReply(s.(mo := w.Stored()), w.Result());
  }

  lemma TwoReplies(first: Output)
    requires first != Ring
    ensures Replies([first, OkLine]) == [first, OkLine]
    ensures Replies([Ring]) == []
  {
    assert [first, OkLine][1..] == [OkLine] && [OkLine][1..] == [] && [Ring][1..] == [];
  }

  lemma ByteAdvances(cfg: Config, s: Sim, w: Writing, n: nat)
    requires w.Valid() && n < |w.Input()| && At(s, w, n)
    ensures Advanced(OnByte(cfg, s, w.Input()[n]), w, n)
  {
    if n < |w.Head()| {
      HeadByte(cfg, s, w, n);
    } else if n == |w.Head()| {
      CommandByte(cfg, s, w);
    } else if n < |w.Input()| - 1 {
      BodyByte(s, w, n);
    } else {
      LastByte(s, w);
    }
  }

  /** Web messages and ring timers in between do not disturb it. */
  lemma OthersWait(s: Sim, w: Writing, n: nat, data: bytes)
    requires n <= |w.Input()| && At(s, w, n)
    ensures At(OnWebReceive(s, data).sim, w, n) && Replies(OnWebReceive(s, data).out) == []
    ensures At(OnTimer(s).sim, w, n) && Replies(OnTimer(s).out) == []
  {
    TwoReplies(OkLine);
  }

  /** The handler takes the modem through the input byte by byte. */
  ghost predicate Follows(handle: ByteHandler, t: Track) {
    forall s, n: nat {:trigger handle(s, t.input[n])} :: n < |t.input| && t.at(s, n) ==>
      Reached(handle(s, t.input[n]), t, n, n + 1)
  }

  /** Nothing else that happens disturbs it. */
  ghost predicate Waits(t: Track) {
    && (forall s, n: nat, data {:trigger OnWebReceive(s, data), t.at(s, n)} :: t.at(s, n) ==>
          Reached(OnWebReceive(s, data), t, n, n))
    && (forall s, n: nat {:trigger OnTimer(s), t.at(s, n)} :: t.at(s, n) ==> Reached(OnTimer(s), t, n, n))
  }

  lemma HandlerFollows(cfg: Config, w: Writing)
    requires w.Valid()
    ensures Follows(Handler(cfg), TrackOf(w)) && Waits(TrackOf(w))
  {
    var t := TrackOf(w);
    forall s, n: nat | n < |t.input| && t.at(s, n) ensures Reached(Handler(cfg)(s, t.input[n]), t, n, n + 1) {
      ByteAdvances(cfg, s, w, n);
    }
    forall s, n: nat, data | t.at(s, n) ensures Reached(OnWebReceive(s, data), t, n, n) {
      OthersWait(s, w, n, data);
      assert [] + t.replies(n) == t.replies(n);
    }
    forall s, n: nat | t.at(s, n) ensures Reached(OnTimer(s), t, n, n) {
      OthersWait(s, w, n, []);
      assert [] + t.replies(n) == t.replies(n);
    }
  }

  lemma ReachedOn(first: Done, more: Done, t: Track, n: nat, m: nat, k: nat)
    requires Reached(first, t, n, m) && Reached(more, t, m, k)
    ensures Reached(Done(more.sim, first.out + more.out, false), t, n, k)
  {
    RepliesConcat(first.out, more.out);
    Reassociate(Replies(first.out), Replies(more.out), t.replies(k));
  }

  /** A chunk of the input. */
  lemma {:induction false} ChunkAdvances(handle: ByteHandler, s: Sim, t: Track, n: nat, data: bytes)
    requires Follows(handle, t) && n + |data| <= |t.input| && data == t.input[n..n + |data|] && t.at(s, n)
    ensures Reached(OnSerialReceive(handle, s, data), t, n, n + |data|)
    decreases |data|
  {
    if data == [] {
      assert [] + t.replies(n) == t.replies(n);
    } else {
      var first := handle(s, data[0]);
      assert data[0] == t.input[n] && Reached(first, t, n, n + 1);
      ChunkAdvances(handle, first.sim, t, n + 1, data[1..]);
      ReachedOn(first, OnSerialReceive(handle, first.sim, data[1..]), t, n, n + 1, n + |data|);
    }
  }

  /** The serial data of a run. */
  function SerialData(es: seq<Event>): bytes {
    if es == [] then [] else DataOf(es[0]) + SerialData(es[1..])
  }

  function DataOf(e: Event): bytes { if e.Serial? then e.data else [] }

  lemma StepAdvances(handle: ByteHandler, s: Sim, t: Track, n: nat, e: Event)
    requires Follows(handle, t) && Waits(t) && n + |DataOf(e)| <= |t.input| && t.at(s, n)
    requires DataOf(e) == t.input[n..n + |DataOf(e)|]
    ensures Reached(Step(handle, s, e), t, n, n + |DataOf(e)|)
  {
    match e
    case Serial(data) => ChunkAdvances(handle, s, t, n, data);
    case Web(data) =>
    case Timer =>
  }

  lemma CutAt(input: bytes, n: nat, data: bytes, rest: bytes)
    requires n <= |input| && input[n..] == data + rest
    ensures n + |data| <= |input| && input[n..n + |data|] == data && input[n + |data|..] == rest
  {
    assert input[n..][..|data|] == data;
    assert input[n..][|data|..] == rest;
  }

  /** In any chunking, with anything in between. */
  lemma {:induction false} RunAdvances(handle: ByteHandler, s: Sim, t: Track, n: nat, es: seq<Event>)
    requires Follows(handle, t) && Waits(t) && n <= |t.input| && t.at(s, n) && SerialData(es) == t.input[n..]
    ensures var (end, out) := Run(handle, s, es); Reached(Done(end, out, false), t, n, |t.input|)
    decreases |es|
  {
    if es == [] {
      assert n == |t.input| && [] + t.replies(n) == t.replies(n);
    } else {
      var k := n + |DataOf(es[0])|;
      CutAt(t.input, n, DataOf(es[0]), SerialData(es[1..]));
      StepAdvances(handle, s, t, n, es[0]);
      var d := Step(handle, s, es[0]);
      RunAdvances(handle, d.sim, t, k, es[1..]);
      var (end, more) := Run(handle, d.sim, es[1..]);
      ReachedOn(d, Done(end, more, false), t, n, k, |t.input|);
    }
  }

  /**
   AT+SBDWB, a payload of the length given and two bytes, in any chunking and with web messages and ring timers in
   between: the modem ends idle, and it holds exactly the payload and says so if and only if the bytes sum it up.
   */
  lemma WriteStores(cfg: Config, s: Sim, w: Writing, es: seq<Event>)
    requires w.Valid() && s.state != WritingMo && s.command == [] && SerialData(es) == w.Input()
    ensures var (end, out) := Run(Handler(cfg), s, es);
            && end.state == Idle && end.command == []
            && end.mo == (if Sums(w.payload, w.hi, w.lo) then w.payload else w.payload + [w.hi, w.lo])
            && (end.mo == w.payload <==> Sums(w.payload, w.hi, w.lo))
            && Replies(out) == [Text("READY"), Text(if Sums(w.payload, w.hi, w.lo) then "0" else "2"), OkLine]
  {
    assert w.Head()[..0] == [] && w.Input()[0..] == w.Input();
    HandlerFollows(cfg, w);
    RunAdvances(Handler(cfg), s, TrackOf(w), 0, es);
    var (end, out) := Run(Handler(cfg), s, es);
    assert RepliesFrom(w, |w.Input()|) == [] && Replies(out) + [] == Replies(out);
  }

  // ----- Reading

  /** What AT+SBDRB sends after the length: the message and its checksum. */
  function ReadPart(d: Done): (data: bytes)
    requires d.out != [] && d.out[0].Raw? && |d.out[0].data| >= 4
  {
    var raw := d.out[0].data;
    raw[2..|raw| - 2]
  }

  /** Reading succeeds exactly when length and sum fit two bytes each. */
  lemma ReadSends(s: Sim)
    ensures AtSbdrb(s).crashed <==> !Readable(s.mt)
    ensures Readable(s.mt) ==>
      var d := AtSbdrb(s);
      && d.out != [] && d.out[0].Raw? && |d.out[0].data| >= 4
      && 256 * (d.out[0].data[0] as int) + d.out[0].data[1] == |s.mt|
      && ReadPart(d) == s.mt + [Sum(s.mt) / 256, Sum(s.mt) % 256]
  {
  }

  lemma BodyStores(cfg: Config, t: Sim, w: Writing)
    requires w.Valid() && Sums(w.payload, w.hi, w.lo)
    requires t.state == WritingMo && t.mo == [] && t.command == [] && t.moLength == |w.payload|
    ensures var d := OnSerialReceive(Handler(cfg), t, w.Body());
            !d.crashed && d.sim.state == Idle && d.sim.mo == w.payload && Replies(d.out) == [Text("0"), OkLine]
  {
    var n := |w.Head()| + 1;
    assert w.Body()[..0] == [];
    assert w.Input()[n..n + |w.Body()|] == w.Body();
    HandlerFollows(cfg, w);
    ChunkAdvances(Handler(cfg), t, TrackOf(w), n, w.Body());
    var out := OnSerialReceive(Handler(cfg), t, w.Body()).out;
    assert RepliesFrom(w, |w.Input()|) == [] && Replies(out) + [] == Replies(out);
  }

  /** What is read from one modem is always accepted by a modem that was told to expect that many bytes. */
  lemma ReadIsWritable(cfg: Config, s: Sim, t: Sim)
    requires Readable(s.mt)
    requires t.state == WritingMo && t.mo == [] && t.command == [] && t.moLength == |s.mt|
    ensures AtSbdrb(s).out != [] && AtSbdrb(s).out[0].Raw? && |AtSbdrb(s).out[0].data| >= 4
    ensures var d := OnSerialReceive(Handler(cfg), t, ReadPart(AtSbdrb(s)));
            !d.crashed && d.sim.state == Idle && d.sim.mo == s.mt && Replies(d.out) == [Text("0"), OkLine]
  {
    ReadSends(s);
    DecimalParses(|s.mt|);
    BodyStores(cfg, t, Writing(Digits(|s.mt|), s.mt, Sum(s.mt) / 256, Sum(s.mt) % 256));
  }
}
