/**
 The commands of the simulated modem of simulator.py as they are typed: what each of them answers and changes, and
 what a session posts and fetches.
 */
module ModemSession {
  import opened Bytes
  import opened Modem
  import opened ModemWrite

  /** A modem that waits for a command line, and has none of it yet. */
  predicate Ready(s: Sim) { s.state != WritingMo && s.command == [] }

  /** What is sent in answer to a command, and the state after it, rings that were held back included. */
  ghost predicate Answers(s: Sim, d: Done, lines: seq<Output>, t: Sim) {
    && !d.crashed && d.out == lines + (if s.ringMessagePending then [Ring] else [])
    && d.sim == t.(state := Idle, command := [], ringMessagePending := false)
  }

  function Line(text: string): bytes { Ascii(text) + [13] }

  // ----- A line is read as a command

  /** The command buffer is emptied after a command that ends without an exception. */
  function Ended(e: Done): Done { if e.crashed then e else Done(e.sim.(command := []), e.out, false) }

  /** The modem after a line without a carriage return before its end. */
  lemma {:induction false} LineIsRead(cfg: Config, s: Sim, c: bytes, line: bytes)
    requires s.state != WritingMo && CR !in c && line == s.command + c
    ensures OnSerialReceive(Handler(cfg), s, c + [13])
         == Ended(Execute(cfg, s.(state := Command, command := line), Recognise(line)))
    decreases |c|
  {
    if c == [] {
      assert line == s.command && [] + [13] == [13];
      LastOfLine(cfg, s);
    } else {
      var next := s.(command := s.command + [c[0]]);
      FirstOfLine(cfg, s, c);
      LineIsRead(cfg, next, c[1..], line);
      assert next.(state := Command, command := line) == s.(state := Command, command := line);
    }
  }

  lemma FirstOfLine(cfg: Config, s: Sim, c: bytes)
    requires s.state != WritingMo && c != [] && c[0] != CR
    ensures OnSerialReceive(Handler(cfg), s, c + [13])
         == OnSerialReceive(Handler(cfg), s.(command := s.command + [c[0]]), c[1..] + [13])
  {
    var next := s.(command := s.command + [c[0]]);
    assert (c + [13])[0] == c[0] && (c + [13])[1..] == c[1..] + [13];
    assert OnByte(cfg, s, c[0]) == Done(next, [], false);
    var more := OnSerialReceive(Handler(cfg), next, c[1..] + [13]);
    assert [] + more.out == more.out;
  }

  lemma LastOfLine(cfg: Config, s: Sim)
    requires s.state != WritingMo
    ensures OnSerialReceive(Handler(cfg), s, [13])
         == Ended(Execute(cfg, s.(state := Command), Recognise(s.command)))
  {
    assert [13][1..] == [];
    var first := OnByte(cfg, s, 13);
    assert first.out + [] == first.out;
  }

  lemma TypedIsExecuted(cfg: Config, s: Sim, c: bytes, cmd: Cmd)
    requires Ready(s) && CR !in c && Recognise(c) == cmd
    ensures OnSerialReceive(Handler(cfg), s, c + [13])
         == Ended(Execute(cfg, s.(state := Command, command := c), cmd))
  {
    LineIsRead(cfg, s, c, c);
  }

  // ----- Sessions

  lemma SessionNames()
    ensures Recognise(Ascii("AT+SBDIX")) == Sbdix && CR !in Ascii("AT+SBDIX")
    ensures Recognise(Ascii("AT+SBDIXA")) == Sbdixa && CR !in Ascii("AT+SBDIXA")
  {
    var a, b := Ascii("AT+SBDIX"), Ascii("AT+SBDIXA");
    assert |a| == 8 && |b| == 9;
    assert a[6] == 73 && Ascii("AT+SBDD0")[6] == 68 && Ascii("AT+SBDRB")[6] == 82;
    assert b[6] == 73 && WriteHead()[6] == 87 && b[..9] == b;
  }

  /** What a good session fetches. */
  function Fetched(s: Sim): bytes { if s.queue == [] then [] else s.queue[0] }

  function Left(s: Sim): seq<bytes> { if s.queue == [] then [] else s.queue[1..] }

  /** The figures of a session: its outcome, whether a message is held, how long it is and how many are left. */
  function Figures(outcome: int, mt: bytes, left: seq<bytes>): Output {
    SessionLine(outcome, if |mt| > 0 then 1 else 0, |mt|, |left|)
  }

  /** A good session: what was written is posted, and the oldest message that waits, if any, replaces the one held. */
  ghost predicate GoodSession(s: Sim, t: Sim, d: Done) {
    Answers(s, d, (if s.mo == [] then [] else [Post(s.mo)]) + [Figures(0, Fetched(s), Left(s)), OkLine],
            t.(rolls := s.rolls + 1, mt := Fetched(s), queue := Left(s)))
  }

  /** A failed one: nothing is posted or fetched. */
  ghost predicate FailedSession(s: Sim, t: Sim, d: Done) {
    Answers(s, d, [Figures(32, s.mt, s.queue), OkLine], t.(rolls := s.rolls + 1))
  }

  predicate SameBuffers(s: Sim, t: Sim) {
    && t.mo == s.mo && t.mt == s.mt && t.queue == s.queue && t.rolls == s.rolls
    && t.ringMessagePending == s.ringMessagePending
  }

  lemma GoodAnswers(cfg: Config, s: Sim, t: Sim)
    requires SameBuffers(s, t) && cfg.lucky(s.rolls)
    ensures var e := AtSbdix(cfg, t); !e.crashed && GoodSession(s, t, Done(e.sim.(command := []), e.out, false))
  {
    var line := Figures(0, Fetched(s), Left(s));
    assert [line] + [OkLine] == [line, OkLine];
    Reassociate(if s.mo == [] then [] else [Post(s.mo)], [line], [OkLine]);
  }

  lemma FailedAnswers(cfg: Config, s: Sim, t: Sim)
    requires SameBuffers(s, t) && !cfg.lucky(s.rolls)
    ensures var e := AtSbdix(cfg, t); !e.crashed && FailedSession(s, t, Done(e.sim.(command := []), e.out, false))
  {
    var line := Figures(32, s.mt, s.queue);
    assert [line] + [OkLine] == [line, OkLine];
  }

  lemma SessionRuns(cfg: Config, s: Sim, alert: bool) returns (t: Sim)
    requires Ready(s)
    ensures SameBuffers(s, t)
    ensures t == (if alert then s.(ringPending := false, timerArmed := false) else s)
                   .(state := Command, command := t.command)
    ensures OnSerialReceive(Handler(cfg), s, Line(if alert then "AT+SBDIXA" else "AT+SBDIX")) == Ended(AtSbdix(cfg, t))
  {
    SessionNames();
    var c := Ascii(if alert then "AT+SBDIXA" else "AT+SBDIX");
    TypedIsExecuted(cfg, s, c, if alert then Sbdixa else Sbdix);
    t := (if alert then s.(ringPending := false, timerArmed := false) else s).(state := Command, command := c);
  }

  /** AT+SBDIX, and AT+SBDIXA that also stops the ringing. */
  lemma SessionExactly(cfg: Config, s: Sim, alert: bool)
    requires Ready(s)
    ensures var d := OnSerialReceive(Handler(cfg), s, Line(if alert then "AT+SBDIXA" else "AT+SBDIX"));
            var t := if alert then s.(ringPending := false, timerArmed := false) else s;
            if cfg.lucky(s.rolls) then GoodSession(s, t, d) else FailedSession(s, t, d)
  {
    var t := SessionRuns(cfg, s, alert);
    if cfg.lucky(s.rolls) {
      GoodAnswers(cfg, s, t);
    } else {
      FailedAnswers(cfg, s, t);
    }
  }

  // ----- The other commands

  lemma OtherNames()
    ensures Recognise(Ascii("AT")) == At && CR !in Ascii("AT")
    ensures Recognise(Ascii("AT&K0")) == K0 && CR !in Ascii("AT&K0")
    ensures Recognise(Ascii("ATE0")) == E0 && CR !in Ascii("ATE0")
    ensures Recognise(Ascii("AT+CSQ")) == Csq && CR !in Ascii("AT+CSQ")
    ensures Recognise(Ascii("AT+SBDD0")) == Sbdd0 && CR !in Ascii("AT+SBDD0")
  {
    assert |Ascii("AT")| == 2 && |Ascii("AT&K0")| == 5 && |Ascii("ATE0")| == 4 && |Ascii("AT+CSQ")| == 6;
    assert |Ascii("AT+SBDD0")| == 8;
  }

  /** Commands that are only acknowledged. */
  lemma AcknowledgedOnly(cfg: Config, s: Sim, text: string)
    requires Ready(s) && text in {"AT", "AT&K0", "ATE0"}
    ensures Answers(s, OnSerialReceive(Handler(cfg), s, Line(text)), [OkLine], s)
  {
    OtherNames();
    TypedIsExecuted(cfg, s, Ascii(text), if text == "AT" then At else if text == "AT&K0" then K0 else E0);
    assert [] + [OkLine] == [OkLine];
  }

  predicate IsGood(cfg: Config, s: Sim) { cfg.ideal || cfg.lucky(s.rolls) }

  lemma SignalAnswers(cfg: Config, s: Sim, t: Sim, text: string)
    requires SameBuffers(s, t) && text == if IsGood(cfg, s) then "+CSQ:5" else "+CSQ:0"
    ensures var e := AtCsq(cfg, t);
            Answers(s, Done(e.sim.(command := []), e.out, e.crashed), [Text(text), OkLine],
                    if cfg.ideal then t else t.(rolls := s.rolls + 1))
  {
    assert [Text(text)] + [OkLine] == [Text(text), OkLine];
  }

  /** AT+CSQ gives the signal quality: five bars when ideal, else five or none, for which one random number is drawn. */
  lemma SignalExactly(cfg: Config, s: Sim)
    requires Ready(s)
    ensures var d := OnSerialReceive(Handler(cfg), s, Line("AT+CSQ"));
            var text := if cfg.ideal || cfg.lucky(s.rolls) then "+CSQ:5" else "+CSQ:0";
            Answers(s, d, [Text(text), OkLine], if cfg.ideal then s else s.(rolls := s.rolls + 1))
  {
    OtherNames();
    var c := Ascii("AT+CSQ");
    TypedIsExecuted(cfg, s, c, Csq);
    SignalAnswers(cfg, s, s.(state := Command, command := c), if IsGood(cfg, s) then "+CSQ:5" else "+CSQ:0");
  }

  /** AT+SBDD0 drops what was written. */
  lemma DropExactly(cfg: Config, s: Sim)
    requires Ready(s)
    ensures Answers(s, OnSerialReceive(Handler(cfg), s, Line("AT+SBDD0")), [Text("0"), OkLine], s.(mo := []))
  {
    OtherNames();
    TypedIsExecuted(cfg, s, Ascii("AT+SBDD0"), Sbdd0);
    assert [Text("0")] + [OkLine] == [Text("0"), OkLine];
  }

  lemma WriteHeadIs()
    ensures Ascii("AT+SBDWB=") == WriteHead()
  {
  }

  lemma WriteHeadOnly(length: bytes)
    requires CR !in length
    ensures Recognise(WriteHead() + length) == Sbdwb(length) && CR !in WriteHead() + length
  {
    var c := WriteHead() + length;
    assert c[..9] == WriteHead() && c[9..] == length;
    assert c[6] == 87 && Ascii("AT+SBDIXA")[6] == 73;
    assert |Ascii("AT")| == 2 && |Ascii("AT&K0")| == 5 && |Ascii("ATE0")| == 4 && |Ascii("AT+CSQ")| == 6;
    assert |Ascii("AT+SBDD0")| == 8 && |Ascii("AT+SBDIX")| == 8;
  }

  /** A line that is none of the commands is not answered. */
  lemma UnknownExactly(cfg: Config, s: Sim, c: bytes)
    requires Ready(s) && CR !in c
    requires c != Ascii("AT") && c != Ascii("AT&K0") && c != Ascii("ATE0") && c != Ascii("AT+CSQ")
    requires c != Ascii("AT+SBDD0") && c != Ascii("AT+SBDIX") && c != Ascii("AT+SBDIXA") && c != Ascii("AT+SBDRB")
    requires !(Ascii("AT+SBDWB=") <= c)
    ensures Answers(s, OnSerialReceive(Handler(cfg), s, c + [13]), [], s)
  {
    WriteHeadIs();
    assert |c| >= 9 && c[..9] == WriteHead() ==> WriteHead() <= c;
    TypedIsExecuted(cfg, s, c, Unknown);
    var ring: seq<Output> := if s.ringMessagePending then [Ring] else [];
    assert [] + ring == ring;
  }

  /** AT+SBDWB with something that is no number leaves the modem in the command state. */
  lemma NoNumberExactly(cfg: Config, s: Sim, length: bytes)
    requires Ready(s) && CR !in length && ParseInt(length).None?
    ensures OnSerialReceive(Handler(cfg), s, Ascii("AT+SBDWB=") + length + [13])
         == Done(s.(state := Command), [Text("3")], false)
  {
    WriteHeadIs();
    var c := WriteHead() + length;
    WriteHeadOnly(length);
    TypedIsExecuted(cfg, s, c, Sbdwb(length));
  }

  // ----- Reading

  lemma ReadName()
    ensures Recognise(Ascii("AT+SBDRB")) == Sbdrb && CR !in Ascii("AT+SBDRB")
  {
    var c := Ascii("AT+SBDRB");
    assert |c| == 8 && c[6] == 82 && Ascii("AT+SBDD0")[6] == 68 && Ascii("AT+SBDIX")[6] == 73;
    assert |Ascii("AT")| == 2 && |Ascii("AT&K0")| == 5 && |Ascii("ATE0")| == 4 && |Ascii("AT+CSQ")| == 6;
    assert |Ascii("AT+SBDIXA")| == 9;
  }

  /** Length, message, sum of its bytes, both with the high byte first, and a line end. */
  predicate IsReading(mt: bytes, data: bytes) {
    var n := |mt|;
    && |data| == n + 6 && 256 * (data[0] as int) + data[1] as int == n && data[2..n + 2] == mt
    && 256 * (data[n + 2] as int) + data[n + 3] as int == Sum(mt) && data[n + 4..] == [13, 10]
  }

  lemma ReadingIs(s: Sim, data: bytes)
    requires |s.mt| < 0x1_0000 && Sum(s.mt) < 0x1_0000
    requires data == [|s.mt| / 256, |s.mt| % 256] + s.mt + [Sum(s.mt) / 256, Sum(s.mt) % 256] + [13, 10]
    ensures IsReading(s.mt, data)
  {
  }

  predicate Fits(mt: bytes) { |mt| < 0x1_0000 && Sum(mt) < 0x1_0000 }

  lemma ReadAnswers(s: Sim, t: Sim) returns (data: bytes)
    requires SameBuffers(s, t) && Fits(s.mt)
    ensures IsReading(s.mt, data)
    ensures var e := AtSbdrb(t); Answers(s, Done(e.sim.(command := []), e.out, e.crashed), [Raw(data), OkLine], t)
  {
    data := [|s.mt| / 256, |s.mt| % 256] + s.mt + [Sum(s.mt) / 256, Sum(s.mt) % 256] + [13, 10];
    ReadingIs(s, data);
    assert [Raw(data)] + [OkLine] == [Raw(data), OkLine];
  }

  lemma ReadRuns(cfg: Config, s: Sim) returns (t: Sim)
    requires Ready(s)
    ensures SameBuffers(s, t) && t == s.(state := Command, command := t.command)
    ensures OnSerialReceive(Handler(cfg), s, Line("AT+SBDRB")) == Ended(AtSbdrb(t))
  {
    ReadName();
    var c := Ascii("AT+SBDRB");
    TypedIsExecuted(cfg, s, c, Sbdrb);
    t := s.(state := Command, command := c);
  }

  /** AT+SBDRB hands out the message it holds, unless its length or its sum takes more than two bytes. */
  lemma ReadExactly(cfg: Config, s: Sim) returns (data: bytes)
    requires Ready(s)
    ensures var d := OnSerialReceive(Handler(cfg), s, Line("AT+SBDRB"));
            if Fits(s.mt) then IsReading(s.mt, data) && Answers(s, d, [Raw(data), OkLine], s)
            else d.crashed && d.out == []
  {
    data := [];
    var t := ReadRuns(cfg, s);
    if Fits(s.mt) {
      data := ReadAnswers(s, t);
    }
  }

  // ----- Rings

  /** A message from the web is queued and announced, now or when the modem is idle, and again by the timer. */
  lemma RingsExactly(s: Sim, data: bytes)
    ensures var t := s.(queue := s.queue + [data], ringPending := true);
            OnWebReceive(s, data) == Announced(t)
    ensures OnTimer(s) == if s.timerArmed then Announced(s) else Done(s, [], false)
  {
  }

  /** An announcement sets the timer for the next one. */
  function Announced(s: Sim): Done {
    var idle := s.state == Idle;
    Done(s.(timerArmed := true, ringMessagePending := !idle), if idle then [Ring] else [], false)
  }

  // ----- A message written and sent

  /**
   AT+SBDWB with a payload and its checksum, in any chunking and with web messages and ring timers in between, then a
   good session: exactly that payload is posted; a failed one posts nothing and keeps it.
   */
  lemma WrittenIsPosted(cfg: Config, s: Sim, w: Writing, es: seq<Event>, alert: bool)
    requires w.Valid() && Sums(w.payload, w.hi, w.lo) && Ready(s) && SerialData(es) == w.Input() && w.payload != []
    ensures var mid := Run(Handler(cfg), s, es).0;
            var d := OnSerialReceive(Handler(cfg), mid, Line(if alert then "AT+SBDIXA" else "AT+SBDIX"));
            Posts(d.out) == (if cfg.lucky(mid.rolls) then [w.payload] else []) && d.sim.mo == w.payload
  {
    WriteStores(cfg, s, w, es);
    SessionPosts(cfg, Run(Handler(cfg), s, es).0, alert);
  }

  lemma SessionPosts(cfg: Config, s: Sim, alert: bool)
    requires Ready(s) && s.mo != []
    ensures var d := OnSerialReceive(Handler(cfg), s, Line(if alert then "AT+SBDIXA" else "AT+SBDIX"));
            Posts(d.out) == (if cfg.lucky(s.rolls) then [s.mo] else []) && d.sim.mo == s.mo
  {
    SessionExactly(cfg, s, alert);
    var out := OnSerialReceive(Handler(cfg), s, Line(if alert then "AT+SBDIXA" else "AT+SBDIX")).out;
    var ring: seq<Output> := if s.ringMessagePending then [Ring] else [];
    if cfg.lucky(s.rolls) {
      NoPosts(Figures(0, Fetched(s), Left(s)), ring);
      assert out[0] == Post(s.mo) && out[1..] == [Figures(0, Fetched(s), Left(s)), OkLine] + ring;
    } else {
      NoPosts(Figures(32, s.mt, s.queue), ring);
    }
  }

  /** What some output posts. */
  function Posts(out: seq<Output>): seq<bytes> {
    if out == [] then [] else (if out[0].Post? then [out[0].data] else []) + Posts(out[1..])
  }

  lemma NoPosts(outcome: Output, ring: seq<Output>)
    requires outcome.SessionLine? && (ring == [] || ring == [Ring])
    ensures Posts([outcome, OkLine] + ring) == []
  {
    var out := [outcome, OkLine] + ring;
    assert Posts(ring) == [] by {
      assert ring != [] ==> ring[1..] == [];
    }
    assert out[1..] == [OkLine] + ring && ([OkLine] + ring)[1..] == ring;
  }

  // ----- Numbers as int() reads them

  predicate AllSpaces(s: bytes) { forall i :: 0 <= i < |s| ==> s[i] in {9, 10, 11, 12, 13, 32} }

  predicate AreDigits(s: bytes) { forall i :: 0 <= i < |s| ==> '0' <= s[i] as char <= '9' }

  /** Spaces, perhaps a plus or minus sign and more spaces, digits, spaces. */
  datatype Numeral = Numeral(before: bytes, sign: bytes, gap: bytes, digits: bytes, behind: bytes)
  {
    predicate Valid() {
      && AllSpaces(before) && AllSpaces(gap) && AllSpaces(behind) && AreDigits(digits) && digits != []
      && (sign == [] || sign == [43] || sign == [45]) && (sign == [] ==> gap == [])
    }

    function Text(): bytes { before + (sign + (gap + (digits + behind))) }

    function Value(): int
      requires Valid()
    {
      if sign == [45] then 0 - DigitsValue(digits) as int else DigitsValue(digits)
    }
  }

  lemma {:induction false} SpacesSkipped(a: bytes, s: bytes)
    requires AllSpaces(a) && (s == [] || !IsSpace(s[0]))
    ensures SkipSpaces(a + s) == s
  {
    if a == [] {
      assert a + s == s;
    } else {
      assert (a + s)[1..] == a[1..] + s;
      SpacesSkipped(a[1..], s);
    }
  }

  lemma {:induction false} DigitsRun(d: bytes, s: bytes)
    requires AreDigits(d) && (s == [] || !IsDigit(s[0]))
    ensures DigitRun(d + s) == |d|
  {
    if d == [] {
      assert d + s == s;
    } else {
      assert (d + s)[1..] == d[1..] + s;
      DigitsRun(d[1..], s);
    }
  }

  lemma UnsignedParses(s: bytes, digits: bytes, behind: bytes)
    requires AreDigits(digits) && digits != [] && AllSpaces(behind) && SkipSpaces(s) == digits + behind
    ensures ParseInt(s) == Some(DigitsValue(digits))
  {
    DigitsParse(digits, behind);
  }

  lemma SignedParses(n: Numeral, s: bytes, t: bytes, u: bytes)
    requires n.Valid() && n.sign != [] && t == SkipSpaces(s) && u == n.digits + n.behind
    requires t != [] && t[0] == n.sign[0] && SkipSpaces(t[1..]) == u
    ensures ParseInt(s) == Some(n.Value())
  {
    DigitsParse(n.digits, n.behind);
  }

  lemma SpacesParse(n: Numeral)
    requires n.Valid()
    ensures SkipSpaces(n.Text()) == n.sign + (n.gap + (n.digits + n.behind))
    ensures SkipSpaces(n.gap + (n.digits + n.behind)) == n.digits + n.behind
  {
    var u := n.digits + n.behind;
    DigitsParse(n.digits, n.behind);
    SpacesSkipped(n.gap, u);
    assert n.sign == [] ==> n.sign + (n.gap + u) == u;
    SpacesSkipped(n.before, n.sign + (n.gap + u));
  }

  /** Such a text is read as its value. */
  lemma NumeralParses(n: Numeral)
    requires n.Valid()
    ensures ParseInt(n.Text()) == Some(n.Value())
  {
    SpacesParse(n);
    if n.sign == [] {
      assert n.sign + (n.gap + (n.digits + n.behind)) == n.digits + n.behind;
      UnsignedParses(n.Text(), n.digits, n.behind);
    } else {
      var t, rest := SkipSpaces(n.Text()), n.gap + (n.digits + n.behind);
      assert t == n.sign + rest && t[1..] == rest;
      SignedParses(n, n.Text(), t, n.digits + n.behind);
    }
  }

  lemma DigitsParse(digits: bytes, behind: bytes)
    requires AreDigits(digits) && digits != [] && AllSpaces(behind)
    ensures var u := digits + behind;
            && DigitRun(u) == |digits| && u[..|digits|] == digits && SkipSpaces(u[|digits|..]) == []
            && IsDigit(u[0]) && !IsSpace(u[0])
  {
    var u := digits + behind;
    assert u[0] == digits[0];
    DigitsRun(digits, behind);
    assert behind + [] == behind && u[|digits|..] == behind;
    SpacesSkipped(behind, []);
  }

  lemma {:induction false} SkipsSpaces(s: bytes) returns (a: bytes)
    ensures AllSpaces(a) && s == a + SkipSpaces(s)
  {
    if s != [] && IsSpace(s[0]) {
      a := SkipsSpaces(s[1..]);
      a := [s[0]] + a;
    } else {
      a := [];
    }
  }

  /** The digits, and the spaces behind them. */
  lemma ParsesDigits(u: bytes) returns (digits: bytes, behind: bytes)
    requires DigitRun(u) > 0 && SkipSpaces(u[DigitRun(u)..]) == []
    ensures AreDigits(digits) && digits != [] && AllSpaces(behind) && u == digits + behind
    ensures digits == u[..DigitRun(u)]
  {
    var k := DigitRun(u);
    digits := u[..k];
    behind := SkipsSpaces(u[k..]);
    assert behind + [] == behind;
  }

  /** And nothing else is read. */
  lemma ParsesNumeral(s: bytes) returns (n: Numeral)
    requires ParseInt(s).Some?
    ensures n.Valid() && n.Text() == s && n.Value() == ParseInt(s).value
  {
    var t := SkipSpaces(s);
    var before := SkipsSpaces(s);
    if t != [] && (t[0] == 43 || t[0] == 45) {
      n := ParsesSigned(before, t);
    } else {
      var digits, behind := ParsesDigits(t);
      n := Numeral(before, [], [], digits, behind);
      assert [] + t == t;
    }
  }

  lemma ParsesSigned(before: bytes, t: bytes) returns (n: Numeral)
    requires AllSpaces(before) && t != [] && (t[0] == 43 || t[0] == 45)
    requires var u := SkipSpaces(t[1..]); DigitRun(u) > 0 && SkipSpaces(u[DigitRun(u)..]) == []
    ensures n.Valid() && n.Text() == before + t
    ensures var u := SkipSpaces(t[1..]); var v := DigitsValue(u[..DigitRun(u)]);
            n.Value() == if t[0] == 45 then 0 - v as int else v
  {
    var u := SkipSpaces(t[1..]);
    var gap := SkipsSpaces(t[1..]);
    var digits, behind := ParsesDigits(u);
    n := Numeral(before, [t[0]], gap, digits, behind);
    assert t == [t[0]] + t[1..];
  }
}
