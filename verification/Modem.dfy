/**
 The simulated Iridium modem of simulator.py: its handlers as functions of the state, and what holds over any run of
 serial data, web messages and ring timers.
 */
module Modem {
  import opened Bytes

  datatype AtState = Idle | Command | WritingMo

  /** ideal_sim, and whether the n-th random number is below fraction_good_signal. */
  datatype Config = Config(ideal: bool, lucky: nat -> bool)

  datatype Sim = Sim(
    state: AtState, command: bytes, mt: bytes, mo: bytes, moLength: int, ringMessagePending: bool,
    ringPending: bool, timerArmed: bool, queue: seq<bytes>, rolls: nat)

  /** What the simulator sends: lines and data to the serial port, posts to the web. */
  datatype Output =
    | Text(line: string) | SessionLine(code: int, flag: int, mtLength: nat, left: nat)
    | OkLine | Ring | Raw(data: bytes) | Post(data: bytes)

  /** Where a handler ends: the state, what was sent, and whether an exception ended it. */
  datatype Done = Done(sim: Sim, out: seq<Output>, crashed: bool)

  const CR := 13

  // ----- States and rings

  /** changeState(ATstate.idle). */
  function ToIdle(s: Sim): (Sim, seq<Output>) {
    (s.(state := Idle, ringMessagePending := false), if s.ringMessagePending then [Ring] else [])
  }

  /** Some lines, sendOK, and the ring that was held back. */
  function Reply(s: Sim, lines: seq<Output>): Done {
    var (t, ring) := ToIdle(s);
    Done(t, lines + [OkLine] + ring, false)
  }

  /** send_ring. */
  function SendRing(s: Sim): Done {
    if s.state != Idle then Done(s.(ringMessagePending := true), [], false)
    else Done(s.(ringMessagePending := false), [Ring], false)
  }

  /** ring: send it, and again in a second. */
  function DoRing(s: Sim): Done {
    var d := SendRing(s);
    d.(sim := d.sim.(timerArmed := true))
  }

  function OnWebReceive(s: Sim, data: bytes): Done {
    DoRing(s.(queue := s.queue + [data], ringPending := true))
  }

  /** The timer calls ring while it is armed. */
  function OnTimer(s: Sim): Done {
    if s.timerArmed then DoRing(s) else Done(s, [], false)
  }

  // ----- Commands

  predicate IsSpace(c: byte) { c == 32 || 9 <= c <= 13 }

  predicate IsDigit(c: byte) { 48 <= c <= 57 }

  function SkipSpaces(s: bytes): (r: bytes)
    ensures |r| <= |s|
  {
    if s != [] && IsSpace(s[0]) then SkipSpaces(s[1..]) else s
  }

  function DigitRun(s: bytes): (k: nat)
    ensures k <= |s| && forall i :: 0 <= i < k ==> IsDigit(s[i])
  {
    if s != [] && IsDigit(s[0]) then 1 + DigitRun(s[1..]) else 0
  }

  function DigitOf(c: byte): nat
    requires IsDigit(c)
  {
    (c as int) - 48
  }

  function DigitsValue(s: bytes): (n: nat)
    requires forall i :: 0 <= i < |s| ==> IsDigit(s[i])
  {
    if s == [] then 0 else 10 * DigitsValue(s[..|s| - 1]) + DigitOf(s[|s| - 1])
  }

  /** int() of a byte string: spaces, a sign, more spaces, decimal digits, spaces. None for ValueError. */
  function ParseInt(s: bytes): Option<int> {
    var t := SkipSpaces(s);
    var signed := t != [] && (t[0] == 43 || t[0] == 45);
    var u := if signed then SkipSpaces(t[1..]) else t;
    var k := DigitRun(u);
    if k == 0 || SkipSpaces(u[k..]) != [] then None
    else if signed && t[0] == 45 then Some(0 - DigitsValue(u[..k]) as int)
    else Some(DigitsValue(u[..k]))
  }

  datatype Cmd = At | K0 | E0 | Csq | Sbdd0 | Sbdix | Sbdixa | Sbdwb(length: bytes) | Sbdrb | Unknown

  function WriteHead(): (h: bytes)
    ensures |h| == 9 && CR !in h
  {
    [65, 84, 43, 83, 66, 68, 87, 66, 61]
  }

  /** The comparisons of on_command. */
  function Recognise(c: bytes): Cmd {
    if c == Ascii("AT") then At
    else if c == Ascii("AT&K0") then K0
    else if c == Ascii("ATE0") then E0
    else if c == Ascii("AT+CSQ") then Csq
    else if c == Ascii("AT+SBDD0") then Sbdd0
    else if c == Ascii("AT+SBDIX") then Sbdix
    else if c == Ascii("AT+SBDIXA") then Sbdixa
    else if |c| >= 9 && c[..9] == WriteHead() then Sbdwb(c[9..])
    else if c == Ascii("AT+SBDRB") then Sbdrb
    else Unknown
  }

  function Sum(s: bytes): nat {
    if s == [] then 0 else Sum(s[..|s| - 1]) + s[|s| - 1]
  }

  function Flag(mt: bytes): int { if mt != [] then 1 else 0 }

  function AtCsq(cfg: Config, s: Sim): Done {
    if cfg.ideal then Reply(s, [Text("+CSQ:5")])
    else Reply(s.(rolls := s.rolls + 1), [Text(if cfg.lucky(s.rolls) then "+CSQ:5" else "+CSQ:0")])
  }

  /** at_sbdix: a good session posts what was written and takes the oldest message in the queue. */
  function AtSbdix(cfg: Config, s: Sim): Done {
    var t := s.(rolls := s.rolls + 1);
    if cfg.lucky(s.rolls) then
      var posts := if s.mo != [] then [Post(s.mo)] else [];
      var t := if s.queue != [] then t.(mt := s.queue[0], queue := s.queue[1..]) else t.(mt := []);
      Reply(t, posts + [SessionLine(0, Flag(t.mt), |t.mt|, |t.queue|)])
    else Reply(t, [SessionLine(32, Flag(t.mt), |t.mt|, |t.queue|)])
  }

  /** at_sbdwb: without a number the modem stays in the command state. */
  function AtSbdwb(s: Sim, length: bytes): Done {
    var n := ParseInt(length);
    if n.None? then Done(s, [Text("3")], false)
    else Done(s.(moLength := n.value, mo := [], state := WritingMo), [Text("READY")], false)
  }

  predicate Readable(mt: bytes) { |mt| < 0x1_0000 && Sum(mt) < 0x1_0000 }

  /** at_sbdrb: chr fails on a length or a sum that does not fit two bytes. */
  function AtSbdrb(s: Sim): Done {
    if !Readable(s.mt) then Done(s, [], true)
    else Reply(s, [Raw([|s.mt| / 256, |s.mt| % 256] + s.mt + [Sum(s.mt) / 256, Sum(s.mt) % 256] + [13, 10])])
  }

  function OnCommand(cfg: Config, s: Sim, command: bytes): Done {
    Execute(cfg, s.(state := Command), Recognise(command))
  }

  /** on_command after the comparisons. */
  function Execute(cfg: Config, s: Sim, cmd: Cmd): Done {
    match cmd
    case At => Reply(s, [])
    case K0 => Reply(s, [])
    case E0 => Reply(s, [])
    case Csq => AtCsq(cfg, s)
    case Sbdd0 => Reply(s.(mo := []), [Text("0")])
    case Sbdix => AtSbdix(cfg, s)
    case Sbdixa => AtSbdix(cfg, s.(ringPending := false, timerArmed := false))
    case Sbdwb(length) => AtSbdwb(s, length)
    case Sbdrb => AtSbdrb(s)
    case Unknown => Done(ToIdle(s).0, ToIdle(s).1, false)
  }

  /** The checksum bytes after a payload. */
  predicate Sums(payload: bytes, hi: byte, lo: byte) {
    Sum(payload) / 256 == hi && Sum(payload) % 256 == lo
  }

  /** A byte in binary write mode; index -2 of a single byte raises. */
  function WriteByte(s: Sim, c: byte): Done {
    var mo := s.mo + [c];
    var s := s.(mo := mo);
    if |mo| != s.moLength + 2 then Done(s, [], false)
    else if |mo| < 2 then Done(s, [], true)
    else if Sums(mo[..|mo| - 2], mo[|mo| - 2], mo[|mo| - 1]) then Reply(s.(mo := mo[..|mo| - 2]), [Text("0")])
    else Reply(s, [Text("2")])
  }

  /** One byte of on_serial_receive. */
  function OnByte(cfg: Config, s: Sim, c: byte): Done {
    if s.state == WritingMo then WriteByte(s, c)
    else if c == CR then
      var d := OnCommand(cfg, s, s.command);
      if d.crashed then d else d.(sim := d.sim.(command := []))
    else Done(s.(command := s.command + [c]), [], false)
  }

  /** What handles a byte; OnByte with some configuration is the program's. */
  type ByteHandler = (Sim, byte) -> Done

  function Handler(cfg: Config): ByteHandler { (s: Sim, c: byte) => OnByte(cfg, s, c) }

  /** on_serial_receive; an exception drops the rest of the data. */
  function OnSerialReceive(handle: ByteHandler, s: Sim, data: bytes): Done
    decreases |data|
  {
    if data == [] then Done(s, [], false)
    else
      var first := handle(s, data[0]);
      if first.crashed then first
      else
        var more := OnSerialReceive(handle, first.sim, data[1..]);
        Done(more.sim, first.out + more.out, more.crashed)
  }

  // ----- Runs

  datatype Event = Serial(data: bytes) | Web(data: bytes) | Timer

  function Step(handle: ByteHandler, s: Sim, e: Event): Done {
    match e
    case Serial(data) => OnSerialReceive(handle, s, data)
    case Web(data) => OnWebReceive(s, data)
    case Timer => OnTimer(s)
  }

  function Run(handle: ByteHandler, s: Sim, es: seq<Event>): (Sim, seq<Output>)
    decreases |es|
  {
    if es == [] then (s, [])
    else
      var d := Step(handle, s, es[0]);
      var (end, more) := Run(handle, d.sim, es[1..]);
      (end, d.out + more)
  }

  const START := Sim(Idle, [], [], [], 0, false, false, false, [], 0)

  // ----- No ring is held back when idle, and none interrupts a response

  predicate NoRingHeld(s: Sim) { s.state == Idle ==> !s.ringMessagePending }

  /** A ring is only ever the last thing sent. */
  predicate RingEnds(out: seq<Output>) {
    forall i :: 0 <= i < |out| - 1 ==> out[i] != Ring
  }

  /** And it is sent by an idle modem. */
  predicate RingLast(d: Done) {
    RingEnds(d.out) && (Ring in d.out ==> d.sim.state == Idle)
  }

  lemma ExecuteRings(cfg: Config, s: Sim, cmd: Cmd)
    requires s.state == Command
    ensures NoRingHeld(Execute(cfg, s, cmd).sim) && RingLast(Execute(cfg, s, cmd))
  {
    match cmd
    case Csq =>
    case Sbdix => SessionRings(cfg, s);
    case Sbdixa => SessionRings(cfg, s.(ringPending := false, timerArmed := false));
    case _ =>
  }

  lemma SessionRings(cfg: Config, s: Sim)
    ensures NoRingHeld(AtSbdix(cfg, s).sim) && RingLast(AtSbdix(cfg, s))
  {
  }

  lemma WriteRings(s: Sim, c: byte)
    requires s.state == WritingMo
    ensures NoRingHeld(WriteByte(s, c).sim) && RingLast(WriteByte(s, c))
  {
  }

  lemma ByteRings(cfg: Config, s: Sim, c: byte)
    requires NoRingHeld(s)
    ensures NoRingHeld(OnByte(cfg, s, c).sim) && RingLast(OnByte(cfg, s, c))
  {
    if s.state == WritingMo {
      WriteRings(s, c);
    } else if c == CR {
      ExecuteRings(cfg, s.(state := Command), Recognise(s.command));
    }
  }

  lemma {:induction false} SerialHoldsNoRing(cfg: Config, s: Sim, data: bytes)
    requires NoRingHeld(s)
    ensures NoRingHeld(OnSerialReceive(Handler(cfg), s, data).sim)
    decreases |data|
  {
    if data != [] {
      ByteRings(cfg, s, data[0]);
      if !OnByte(cfg, s, data[0]).crashed {
        SerialHoldsNoRing(cfg, OnByte(cfg, s, data[0]).sim, data[1..]);
      }
    }
  }

  /** In every reachable state: an idle modem has sent its ring. */
  lemma {:induction false} IdleHoldsNoRing(cfg: Config, s: Sim, es: seq<Event>)
    requires NoRingHeld(s)
    ensures NoRingHeld(Run(Handler(cfg), s, es).0)
    decreases |es|
  {
    if es != [] {
      if es[0].Serial? {
        SerialHoldsNoRing(cfg, s, es[0].data);
      }
      IdleHoldsNoRing(cfg, Step(Handler(cfg), s, es[0]).sim, es[1..]);
    }
  }

  // ----- Byte by byte

  /** What happens one thing at a time. */
  datatype Atom = Byte(c: byte) | Message(data: bytes) | Tick

  function AtomStep(cfg: Config, s: Sim, a: Atom): Done {
    match a
    case Byte(c) => OnByte(cfg, s, c)
    case Message(data) => OnWebReceive(s, data)
    case Tick => OnTimer(s)
  }

  function AtomRun(cfg: Config, s: Sim, run: seq<Atom>): (Sim, seq<Output>)
    decreases |run|
  {
    if run == [] then (s, [])
    else
      var d := AtomStep(cfg, s, run[0]);
      var (end, more) := AtomRun(cfg, d.sim, run[1..]);
      (end, d.out + more)
  }

  /** The bytes of some received data that are looked at: all of them, or up to an exception. */
  function Looked(cfg: Config, s: Sim, data: bytes): seq<Atom>
    decreases |data|
  {
    if data == [] then []
    else if OnByte(cfg, s, data[0]).crashed then [Byte(data[0])]
    else [Byte(data[0])] + Looked(cfg, OnByte(cfg, s, data[0]).sim, data[1..])
  }

  /** A run of events, one thing at a time. */
  function Atoms(cfg: Config, s: Sim, es: seq<Event>): seq<Atom>
    decreases |es|
  {
    if es == [] then []
    else
      (match es[0]
       case Serial(data) => Looked(cfg, s, data)
       case Web(data) => [Message(data)]
       case Timer => [Tick])
      + Atoms(cfg, Step(Handler(cfg), s, es[0]).sim, es[1..])
  }

  lemma AtomCons(cfg: Config, s: Sim, a: Atom, run: seq<Atom>)
    ensures var d := AtomStep(cfg, s, a);
            AtomRun(cfg, s, [a] + run) == (AtomRun(cfg, d.sim, run).0, d.out + AtomRun(cfg, d.sim, run).1)
  {
    assert ([a] + run)[1..] == run;
  }

  lemma {:induction false} AtomConcat(cfg: Config, s: Sim, a: seq<Atom>, b: seq<Atom>)
    ensures var (mid, first) := AtomRun(cfg, s, a);
            var (end, more) := AtomRun(cfg, mid, b);
            AtomRun(cfg, s, a + b) == (end, first + more)
    decreases |a|
  {
    if a == [] {
      assert a + b == b && [] + AtomRun(cfg, s, b).1 == AtomRun(cfg, s, b).1;
    } else {
      var d := AtomStep(cfg, s, a[0]);
      assert (a + b)[1..] == a[1..] + b;
      AtomConcat(cfg, d.sim, a[1..], b);
      var (mid, first) := AtomRun(cfg, d.sim, a[1..]);
      Reassociate(d.out, first, AtomRun(cfg, mid, b).1);
    }
  }

  lemma {:induction false} LookedRun(cfg: Config, s: Sim, data: bytes)
    ensures var d := OnSerialReceive(Handler(cfg), s, data); AtomRun(cfg, s, Looked(cfg, s, data)) == (d.sim, d.out)
    decreases |data|
  {
    if data != [] {
      var d := OnByte(cfg, s, data[0]);
      if d.crashed {
        AtomCons(cfg, s, Byte(data[0]), []);
        assert [Byte(data[0])] + [] == [Byte(data[0])] && d.out + [] == d.out;
      } else {
        LookedRun(cfg, d.sim, data[1..]);
        AtomCons(cfg, s, Byte(data[0]), Looked(cfg, d.sim, data[1..]));
      }
    }
  }

  /** Received data is nothing but its bytes, however it is cut. */
  lemma {:induction false} EventsAreAtoms(cfg: Config, s: Sim, es: seq<Event>)
    ensures AtomRun(cfg, s, Atoms(cfg, s, es)) == Run(Handler(cfg), s, es)
    decreases |es|
  {
    if es != [] {
      var d, rest := Step(Handler(cfg), s, es[0]), Atoms(cfg, Step(Handler(cfg), s, es[0]).sim, es[1..]);
      EventsAreAtoms(cfg, d.sim, es[1..]);
      match es[0] {
        case Serial(data) =>
          LookedRun(cfg, s, data);
          AtomConcat(cfg, s, Looked(cfg, s, data), rest);
        case Web(data) =>
          AtomCons(cfg, s, Message(data), rest);
        case Timer =>
          AtomCons(cfg, s, Tick, rest);
      }
    }
  }

  /** From a carriage return on the modem is not idle until the last thing that happens. */
  ghost predicate InCommand(cfg: Config, s: Sim, run: seq<Atom>)
    decreases |run|
  {
    && run != [] && (s.state == Idle ==> run[0] == Byte(CR))
    && (|run| > 1 ==> var t := AtomStep(cfg, s, run[0]).sim; t.state != Idle && InCommand(cfg, t, run[1..]))
  }

  lemma AtomRings(cfg: Config, s: Sim, a: Atom)
    requires NoRingHeld(s) && (s.state == Idle ==> a == Byte(CR))
    ensures NoRingHeld(AtomStep(cfg, s, a).sim) && RingLast(AtomStep(cfg, s, a))
  {
    if a.Byte? {
      ByteRings(cfg, s, a.c);
    }
  }

  lemma LastAgain(quiet: seq<Output>, out: seq<Output>)
    requires Ring !in quiet && RingEnds(out)
    ensures RingEnds(quiet + out) && (Ring in quiet + out ==> Ring in out)
  {
  }

  /**
   Between the carriage return of a command and the end of its response, binary data included, nothing announces a
   message: a ring can only be the last thing sent, when the modem is idle again.
   */
  lemma {:induction false} ResponseUninterrupted(cfg: Config, s: Sim, run: seq<Atom>)
    requires NoRingHeld(s) && InCommand(cfg, s, run)
    ensures var (end, out) := AtomRun(cfg, s, run); RingEnds(out) && (Ring in out ==> end.state == Idle)
    decreases |run|
  {
    AtomRings(cfg, s, run[0]);
    var d := AtomStep(cfg, s, run[0]);
    if |run| > 1 {
      ResponseUninterrupted(cfg, d.sim, run[1..]);
      LastAgain(d.out, AtomRun(cfg, d.sim, run[1..]).1);
    } else {
      assert run[1..] == [] && d.out + [] == d.out;
    }
  }

  // ----- The queue of messages

  function Arrivals(run: seq<Atom>): seq<bytes> {
    if run == [] then [] else Arrived(run[0]) + Arrivals(run[1..])
  }

  /** The message a step takes out of the queue: that of a good session command. */
  function Taken(cfg: Config, s: Sim, a: Atom): seq<bytes> {
    if a == Byte(CR) && s.state != WritingMo && (Recognise(s.command) == Sbdix || Recognise(s.command) == Sbdixa)
       && cfg.lucky(s.rolls) && s.queue != []
    then [s.queue[0]] else []
  }

  function AllTaken(cfg: Config, s: Sim, run: seq<Atom>): seq<bytes>
    decreases |run|
  {
    if run == [] then [] else Taken(cfg, s, run[0]) + AllTaken(cfg, AtomStep(cfg, s, run[0]).sim, run[1..])
  }

  lemma ExecuteQueue(cfg: Config, s: Sim, cmd: Cmd)
    ensures var t := Execute(cfg, s, cmd).sim;
            if (cmd == Sbdix || cmd == Sbdixa) && cfg.lucky(s.rolls) then
              if s.queue != [] then t.mt == s.queue[0] && t.queue == s.queue[1..] else t.mt == [] && t.queue == []
            else t.mt == s.mt && t.queue == s.queue
  {
  }

  function Arrived(a: Atom): seq<bytes> { if a.Message? then [a.data] else [] }

  lemma CommandQueue(cfg: Config, s: Sim)
    requires s.state != WritingMo
    ensures Taken(cfg, s, Byte(CR)) + OnByte(cfg, s, CR).sim.queue == s.queue
    ensures Taken(cfg, s, Byte(CR)) != [] ==> OnByte(cfg, s, CR).sim.mt == Taken(cfg, s, Byte(CR))[0]
  {
    ExecuteQueue(cfg, s.(state := Command), Recognise(s.command));
    var q := s.queue;
    assert q != [] ==> [q[0]] + q[1..] == q;
    assert [] + q == q;
  }

  lemma StepQueue(cfg: Config, s: Sim, a: Atom)
    ensures Taken(cfg, s, a) + AtomStep(cfg, s, a).sim.queue == s.queue + Arrived(a)
    ensures Taken(cfg, s, a) != [] ==> AtomStep(cfg, s, a).sim.mt == Taken(cfg, s, a)[0]
  {
    assert s.queue + [] == s.queue && [] + s.queue == s.queue;
    if a == Byte(CR) && s.state != WritingMo {
      CommandQueue(cfg, s);
    } else {
      assert Taken(cfg, s, a) == [];
      assert [] + (s.queue + Arrived(a)) == s.queue + Arrived(a);
    }
  }

  lemma QueueChain(taken: seq<bytes>, later: seq<bytes>, left: seq<bytes>, middle: seq<bytes>, queue: seq<bytes>,
                   arrived: seq<bytes>, more: seq<bytes>)
    requires taken + middle == queue + arrived && later + left == middle + more
    ensures taken + later + left == queue + (arrived + more)
  {
    Reassociate(taken, later, left);
    Reassociate(taken, middle, more);
    Reassociate(queue, arrived, more);
  }

  /** Over any run, what was taken followed by what is still queued is what was queued followed by what arrived. */
  lemma {:induction false} NothingLostInQueue(cfg: Config, s: Sim, run: seq<Atom>)
    ensures AllTaken(cfg, s, run) + AtomRun(cfg, s, run).0.queue == s.queue + Arrivals(run)
    decreases |run|
  {
    if run == [] {
      assert [] + s.queue == s.queue + [];
    } else {
      var t := AtomStep(cfg, s, run[0]).sim;
      StepQueue(cfg, s, run[0]);
      NothingLostInQueue(cfg, t, run[1..]);
      QueueChain(Taken(cfg, s, run[0]), AllTaken(cfg, t, run[1..]), AtomRun(cfg, t, run[1..]).0.queue, t.queue,
                 s.queue, Arrived(run[0]), Arrivals(run[1..]));
    }
  }
}
