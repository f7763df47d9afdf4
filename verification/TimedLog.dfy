/**
 Logs of time-stamped frames: mavlogfile of pymavlink/mavutil.py, as a function of what is left of the file.
 Times are whole microseconds.
 */
module TimedLog {
  import opened Bytes
  import opened Frame
  import opened Stream
  import opened Receive
  import opened Loss

  /** Three days. */
  const NEAR := 3 * 24 * 60 * 60 * 1_000_000

  /** _timestamp, _last_timestamp, whether _last_message is BAD_DATA, _link, and the base class's state. */
  datatype Log = Log(port: Port, time: int, lastTime: Option<int>, lastBad: bool, linkNo: int, stats: Stats)

  /** A message with the time and link number it was given. */
  datatype Stamped = Stamped(r: Received, time: int, linkNo: int)

  predicate IsNear(a: int, b: int) { -NEAR <= a - b <= NEAR }

  /** scan_timestamp: a window of eight bytes moved forward until it holds a time near the last one. */
  function Scan(last: int, window: bytes, input: bytes): (r: (int, bytes))
    requires |window| == 8
    ensures |r.1| <= |input|
    decreases |input|
  {
    var t := FromBe(window);
    if IsNear(t, last) || input == [] then (t, input)
    else Scan(last, window[1..] + [input[0]], input[1..])
  }

  predicate MustScan(log: Log, t: int) {
    log.lastTime.Some? && log.lastBad && !IsNear(t, log.lastTime.value)
  }

  /** pre_message: a truncated time changes nothing but is consumed. */
  function PreMessage(log: Log): (r: Log)
    ensures r.port.rx == log.port.rx && |r.port.input| <= |log.port.input|
  {
    var input := log.port.input;
    if |input| < 8 then log.(port := log.port.(input := []))
    else
      var usec := FromBe(input[..8]);
      var r := if MustScan(log, usec) then Scan(log.lastTime.value, input[..8], input[8..]) else (usec, input[8..]);
      log.(port := log.port.(input := r.1), time := r.0, linkNo := usec % 4)
  }

  /** post_message. */
  function PostMessage(log: Log, r: Received): Log {
    log.(port := Post(log.port, r), stats := Account(log.stats, r), lastBad := r.BadData?,
         lastTime := if r.BadData? then log.lastTime else Some(log.time))
  }

  /** recv_msg of a log file. */
  function RecvLog(decode: Decoder, log: Log): (r: (Option<Stamped>, Log))
    requires log.port.rx.expected >= 8
    ensures r.1.port.rx.expected >= 8
    ensures r.0.Some? ==> |Pending(r.1.port)| < |Pending(log.port)|
  {
    var pre := PreMessage(log);
    var r := ReceiveLoop(decode, pre.port);
    if r.0.None? then (None, pre.(port := r.1))
    else (Some(Stamped(r.0.value, pre.time, pre.linkNo)), PostMessage(pre.(port := r.1), r.0.value))
  }

  /** Every message of a log. */
  function ReadLog(decode: Decoder, log: Log): seq<Stamped>
    requires log.port.rx.expected >= 8
    decreases |Pending(log.port)|
  {
    var r := RecvLog(decode, log);
    if r.0.None? then [] else [r.0.value] + ReadLog(decode, r.1)
  }

  // ----- Logs as written

  /** One record: eight bytes of time, then a frame. */
  datatype Entry = Entry(usec: nat, frame: bytes)

  ghost predicate IsEntry(e: Entry) { e.usec < Pow256(8) && IsFrame(e.frame) }

  function EntryBytes(e: Entry): bytes { Be(e.usec, 8) + e.frame }

  function LogBytes(es: seq<Entry>): bytes {
    if es == [] then [] else EntryBytes(es[0]) + LogBytes(es[1..])
  }

  function FramesIn(es: seq<Entry>): (fs: seq<bytes>)
    ensures |fs| == |es|
  {
    if es == [] then [] else [es[0].frame] + FramesIn(es[1..])
  }

  /** What a record should come back as. */
  function Expected(decode: Decoder, sg: Signing, es: seq<Entry>): (r: seq<Stamped>)
    requires forall e :: e in es ==> IsEntry(e)
    ensures |r| == |es|
    decreases |es|
  {
    if es == [] then []
    else
      assert es[0] in es && IsEntry(es[0]);
      var (r, sg) := ReadPiece(decode, sg, Packet(es[0].frame));
      [Stamped(r, es[0].usec, es[0].usec % 4)] + Expected(decode, sg, es[1..])
  }

  /** 259200 seconds apart, or less. */
  predicate WithinThreeDays(a: int, b: int) { -259_200_000_000 <= a - b <= 259_200_000_000 }

  /** Reading this record next does not start a scan for another time. */
  predicate CalmNow(lastTime: Option<int>, lastBad: bool, e: Entry) {
    lastTime.Some? && lastBad ==> WithinThreeDays(e.usec, lastTime.value)
  }

  /** No record after a damaged frame is more than three days from the last undamaged one. */
  ghost predicate Calm(decode: Decoder, sg: Signing, lastTime: Option<int>, lastBad: bool, es: seq<Entry>)
    requires forall e :: e in es ==> IsEntry(e)
    decreases |es|
  {
    es == [] ||
    (assert es[0] in es && IsEntry(es[0]);
     var (r, sg) := ReadPiece(decode, sg, Packet(es[0].frame));
     && CalmNow(lastTime, lastBad, es[0])
     && Calm(decode, sg, if r.Good? then Some(es[0].usec) else lastTime, r.BadData?, es[1..]))
  }

  ghost predicate AllGood(decode: Decoder, sg: Signing, es: seq<Entry>)
    requires forall e :: e in es ==> IsEntry(e)
  {
    forall s :: s in Expected(decode, sg, es) ==> s.r.Good?
  }

  lemma {:induction false} ExpectedIgnoresLinkId(decode: Decoder, a: Signing, b: Signing, es: seq<Entry>)
    requires IgnoresLinkId(decode) && SameButLink(a, b) && forall e :: e in es ==> IsEntry(e)
    ensures Expected(decode, a, es) == Expected(decode, b, es)
    decreases |es|
  {
    if es != [] {
      assert es[0] in es && IsEntry(es[0]);
      var p := Packet(es[0].frame);
      PieceIgnoresLinkId(decode, a, b, p);
      ExpectedIgnoresLinkId(decode, ReadPiece(decode, a, p).1, ReadPiece(decode, b, p).1, es[1..]);
    }
  }

  lemma {:induction false} CalmIgnoresLinkId(decode: Decoder, a: Signing, b: Signing, lastTime: Option<int>,
                                             lastBad: bool, es: seq<Entry>)
    requires IgnoresLinkId(decode) && SameButLink(a, b) && forall e :: e in es ==> IsEntry(e)
    ensures Calm(decode, a, lastTime, lastBad, es) <==> Calm(decode, b, lastTime, lastBad, es)
    decreases |es|
  {
    if es != [] {
      assert es[0] in es && IsEntry(es[0]);
      var p := Packet(es[0].frame);
      PieceIgnoresLinkId(decode, a, b, p);
      var (r, a') := ReadPiece(decode, a, p);
      CalmIgnoresLinkId(decode, a', ReadPiece(decode, b, p).1, if r.Good? then Some(es[0].usec) else lastTime,
                        r.BadData?, es[1..]);
    }
  }

  /** A log without damaged frames is calm, whatever its times. */
  lemma {:induction false} GoodIsCalm(decode: Decoder, sg: Signing, lastTime: Option<int>, es: seq<Entry>)
    requires forall e :: e in es ==> IsEntry(e)
    requires AllGood(decode, sg, es)
    decreases |es|
    ensures Calm(decode, sg, lastTime, false, es)
  {
    if es != [] {
      assert es[0] in es && IsEntry(es[0]);
      var (r, sg') := ReadPiece(decode, sg, Packet(es[0].frame));
      assert r == Expected(decode, sg, es)[0].r;
      assert Expected(decode, sg, es)[1..] == Expected(decode, sg', es[1..]);
      GoodIsCalm(decode, sg', Some(es[0].usec), es[1..]);
    }
  }

  /** Where the parser stands between records. */
  ghost predicate Between(p: Port, input: bytes) {
    p.rx.rest == [] && (p.rx.expected == 8 || p.rx.expected == 12) && p.input == input && p.caps == []
  }

  lemma TimeRoundTrip(e: Entry, tail: bytes)
    requires IsEntry(e)
    ensures var b := EntryBytes(e) + tail;
            |b| >= 8 && FromBe(b[..8]) == e.usec && b[8..] == e.frame + tail
  {
    BeRoundTrip(e.usec, 8);
    var b := EntryBytes(e) + tail;
    assert b[..8] == Be(e.usec, 8);
  }

  /** The time of a record is taken off and the frame is next. */
  lemma PreRecord(log: Log, e: Entry, tail: bytes)
    requires IsEntry(e) && log.port.input == EntryBytes(e) + tail
    requires CalmNow(log.lastTime, log.lastBad, e)
    ensures PreMessage(log)
         == log.(port := log.port.(input := e.frame + tail), time := e.usec, linkNo := e.usec % 4)
  {
    TimeRoundTrip(e, tail);
  }

  lemma RecvParts(decode: Decoder, log: Log, pre: Log, m: Received, port: Port)
    requires log.port.rx.expected >= 8 && pre == PreMessage(log)
    requires ReceiveLoop(decode, pre.port) == (Some(m), port)
    ensures RecvLog(decode, log) == (Some(Stamped(m, pre.time, pre.linkNo)), PostMessage(pre.(port := port), m))
  {
  }

  /** One record is read whole, and nothing beyond it. */
  lemma ReadRecord(decode: Decoder, log: Log, e: Entry, tail: bytes)
    requires IsEntry(e) && Between(log.port, EntryBytes(e) + tail)
    requires log.port.rx.expected <= |e.frame| || tail == []
    requires CalmNow(log.lastTime, log.lastBad, e)
    ensures var (r, sg') := ReadPiece(decode, log.port.rx.sg, Packet(e.frame));
            var (m, log') := RecvLog(decode, log);
            && m == Some(Stamped(r, e.usec, e.usec % 4))
            && Between(log'.port, tail) && SameButLink(sg', log'.port.rx.sg)
            && log'.port.rx.expected == MarkerLen(e.frame[0]) + 2
            && log'.lastBad == r.BadData?
            && log'.lastTime == if r.Good? then Some(e.usec) else log.lastTime
  {
    PreRecord(log, e, tail);
    var pre := PreMessage(log);
    RecvWholeFrame(decode, pre.port, e.frame, tail);
    RecvKeepsFullReads(decode, pre.port);
  }

  lemma {:induction false} RecvKeepsFullReads(decode: Decoder, p: Port)
    requires p.rx.expected >= 8 && p.caps == []
    ensures ReceiveLoop(decode, p).1.caps == []
    decreases |p.input|
  {
    var (m, q, numnew) := Turn(decode, p);
    if m.Nothing? && numnew != 0 {
      RecvKeepsFullReads(decode, q);
    }
  }

  lemma AtEnd(decode: Decoder, log: Log)
    requires Between(log.port, [])
    ensures ReadLog(decode, log) == []
  {
    assert PreMessage(log).port == log.port;
    LoopTakes(decode, log.port);
  }

  /** A time that is cut short by the end of the file is consumed, and nothing comes of it. */
  lemma CutTimeIsDropped(decode: Decoder, log: Log, tail: bytes)
    requires Between(log.port, tail) && |tail| < 8
    ensures ReadLog(decode, log) == []
    ensures var (m, end) := RecvLog(decode, log);
            && m.None? && end.port.input == []
            && end.time == log.time && end.linkNo == log.linkNo && end.lastTime == log.lastTime
  {
    LoopTakes(decode, PreMessage(log).port);
  }

  // ----- A record that is not read back

  /** From here on, some two million years ahead, the first byte of a time can look like the start of a frame. */
  const FAR: nat := 0xFD00_0000_0000_0000

  predicate AllBefore(es: seq<Entry>) { forall i :: 0 <= i < |es| ==> es[i].usec < FAR }

  lemma {:induction false} FirstByteBelow(n: nat, k: nat, c: nat)
    requires k > 0 && n < c * Pow256(k - 1)
    ensures Be(n, k)[0] < c
    decreases k
  {
    if k > 1 {
      assert n / 256 < c * Pow256(k - 2) by {
        assert c * Pow256(k - 1) == 256 * (c * Pow256(k - 2));
      }
      FirstByteBelow(n / 256, k - 1, c);
    } else {
      assert Be(n, 1) == [n % 256];
    }
  }

  lemma TimeIsNoFrame(e: Entry)
    requires IsEntry(e) && e.usec < FAR
    ensures !IsMarker(Be(e.usec, 8)[0])
  {
    PowValues();
    assert Pow256(7) == 256 * Pow256(6);
    FirstByteBelow(e.usec, 8, 0xFD);
  }

  /** A stray byte at the front of what is held comes out as a message of its own. */
  lemma StrayFirst(decode: Decoder, p: Port)
    requires p.rx.expected >= 8 && p.rx.rest != [] && !IsMarker(p.rx.rest[0])
    ensures ReceiveLoop(decode, p).0 == Some(BadData([p.rx.rest[0]], BadPrefix))
  {
    var c := p.input[..ReadSize(BytesNeeded(p.rx), |p.input|, p.caps)];
    assert NextPiece(p.rx.rest + c) == Some(Junk(p.rx.rest[0]));
    ParseTakes(decode, p.rx, c);
  }

  /** A frame that is shorter than what the one before it makes the parser ask for, with another record after it. */
  ghost predicate ReadsInto(expected: nat, es: seq<Entry>) {
    |es| >= 2 && expected == 12 && |es[0].frame| < 12
  }

  /** The short frame itself is read; the parser then holds the first bytes of the next record's time. */
  lemma ShortRecord(decode: Decoder, log: Log, e: Entry, tail: bytes)
    requires IsEntry(e) && Between(log.port, EntryBytes(e) + tail) && |tail| >= 4
    requires log.port.rx.expected == 12 && |e.frame| < 12
    requires CalmNow(log.lastTime, log.lastBad, e)
    ensures var (m, log') := RecvLog(decode, log);
            && m == Some(Stamped(ReadPiece(decode, log.port.rx.sg, Packet(e.frame)).0, e.usec, e.usec % 4))
            && log'.port.rx.rest == tail[..12 - |e.frame|]
  {
    PreRecord(log, e, tail);
    var pre := PreMessage(log);
    ReadsAhead(decode, pre.port, e.frame, tail);
    var (m, port) := ReceiveLoop(decode, pre.port);
    RecvParts(decode, log, pre, m.value, port);
  }

  lemma NextEntryBytes(es: seq<Entry>)
    requires |es| >= 2
    ensures var tail := LogBytes(es[1..]);
            LogBytes(es) == EntryBytes(es[0]) + tail && |tail| >= 8 && tail[0] == Be(es[1].usec, 8)[0]
  {
    assert es[1..][0] == es[1];
  }

  lemma LostAfter(decode: Decoder, log: Log)
    requires log.port.rx.expected >= 8 && log.port.rx.rest != [] && !IsMarker(log.port.rx.rest[0])
    ensures var m := RecvLog(decode, log).0;
            m.Some? && m.value.r == BadData([log.port.rx.rest[0]], BadPrefix)
  {
    StrayFirst(decode, PreMessage(log).port);
  }

  /** So the next message is the first byte of that time. */
  lemma NextIsLost(decode: Decoder, log: Log, es: seq<Entry>)
    requires (forall e :: e in es ==> IsEntry(e)) && AllBefore(es) && Between(log.port, LogBytes(es))
    requires ReadsInto(log.port.rx.expected, es)
    requires CalmNow(log.lastTime, log.lastBad, es[0])
    ensures var (m, log') := RecvLog(decode, log);
            var next := RecvLog(decode, log').0;
            && m.Some?
            && next.Some? && next.value.r == BadData([Be(es[1].usec, 8)[0]], BadPrefix)
  {
    assert es[0] in es && es[1] in es;
    assert IsEntry(es[0]) && IsEntry(es[1]);
    NextEntryBytes(es);
    ShortRecord(decode, log, es[0], LogBytes(es[1..]));
    TimeIsNoFrame(es[1]);
    LostAfter(decode, RecvLog(decode, log).1);
  }

  lemma ReadsOn(decode: Decoder, log: Log, m: Stamped, log': Log)
    requires log.port.rx.expected >= 8 && RecvLog(decode, log) == (Some(m), log')
    ensures ReadLog(decode, log) == [m] + ReadLog(decode, log')
  {
  }

  lemma FirstReads(decode: Decoder, log: Log, m: Stamped, log': Log, rest: seq<Stamped>)
    requires log.port.rx.expected >= 8 && RecvLog(decode, log) == (Some(m), log') && rest == ReadLog(decode, log')
    ensures |ReadLog(decode, log)| == 1 + |rest| && ReadLog(decode, log)[0] == m
    ensures rest != [] ==> ReadLog(decode, log)[1] == rest[0]
  {
    ReadsOn(decode, log, m, log');
  }

  lemma SecondExpected(decode: Decoder, sg: Signing, es: seq<Entry>)
    requires (forall e :: e in es ==> IsEntry(e)) && |es| >= 2
    ensures Expected(decode, sg, es)[1].r.BadData? ==> |Expected(decode, sg, es)[1].r.data| >= 8
  {
    assert es[0] in es && IsEntry(es[0]) && es[1] in es && IsEntry(es[1]);
    var sg' := ReadPiece(decode, sg, Packet(es[0].frame)).1;
    assert Expected(decode, sg, es)[1] == Expected(decode, sg', es[1..])[0];
    assert es[1..][0] == es[1];
  }

  lemma NotReadBack(decode: Decoder, log: Log, es: seq<Entry>)
    requires (forall e :: e in es ==> IsEntry(e)) && AllBefore(es) && Between(log.port, LogBytes(es))
    requires ReadsInto(log.port.rx.expected, es) && CalmNow(log.lastTime, log.lastBad, es[0])
    ensures ReadLog(decode, log) != Expected(decode, log.port.rx.sg, es)
  {
    NextIsLost(decode, log, es);
    var (m, log') := RecvLog(decode, log);
    var (next, log'') := RecvLog(decode, log');
    FirstReads(decode, log', next.value, log'', ReadLog(decode, log''));
    FirstReads(decode, log, m.value, log', ReadLog(decode, log'));
    SecondExpected(decode, log.port.rx.sg, es);
  }

  /** One record read, the rest of the log is read as it would be with the link id of before. */
  lemma RestIsMeant(decode: Decoder, log: Log, es: seq<Entry>) returns (log': Log)
    requires (forall e :: e in es ==> IsEntry(e)) && es != [] && IsEntry(es[0])
    requires IgnoresLinkId(decode) && Between(log.port, LogBytes(es))
    requires CalmNow(log.lastTime, log.lastBad, es[0])
    requires log.port.rx.expected <= |es[0].frame| || LogBytes(es[1..]) == []
    ensures && Between(log'.port, LogBytes(es[1..])) && log'.port.rx.expected == MarkerLen(es[0].frame[0]) + 2
            && (Calm(decode, log.port.rx.sg, log.lastTime, log.lastBad, es)
                <==> Calm(decode, log'.port.rx.sg, log'.lastTime, log'.lastBad, es[1..]))
            && (ReadLog(decode, log) == Expected(decode, log.port.rx.sg, es)
                <==> ReadLog(decode, log') == Expected(decode, log'.port.rx.sg, es[1..]))
  {
    ReadRecord(decode, log, es[0], LogBytes(es[1..]));
    var (r, sg') := ReadPiece(decode, log.port.rx.sg, Packet(es[0].frame));
    var m: Option<Stamped>;
    m, log' := RecvLog(decode, log).0, RecvLog(decode, log).1;
    CalmIgnoresLinkId(decode, sg', log'.port.rx.sg, log'.lastTime, log'.lastBad, es[1..]);
    ExpectedIgnoresLinkId(decode, sg', log'.port.rx.sg, es[1..]);
    SameHead(m.value, ReadLog(decode, log'), Expected(decode, sg', es[1..]));
  }

  lemma SameHead(first: Stamped, a: seq<Stamped>, b: seq<Stamped>)
    ensures [first] + a == [first] + b <==> a == b
  {
    assert ([first] + a)[1..] == a && ([first] + b)[1..] == b;
  }

  lemma ReadAheadCases(expected: nat, es: seq<Entry>)
    requires es != [] && IsEntry(es[0]) && (expected == 8 || expected == 12)
    ensures NoReadAhead(expected, FramesIn(es))
       <==> !ReadsInto(expected, es) && NoReadAhead(MarkerLen(es[0].frame[0]) + 2, FramesIn(es[1..]))
    ensures !ReadsInto(expected, es) ==> expected <= |es[0].frame| || LogBytes(es[1..]) == []
  {
    assert FramesIn(es)[0] == es[0].frame && FramesIn(es)[1..] == FramesIn(es[1..]);
  }

  /**
   A log is read back record for record, each message with its own time and link number, when no record's frame, the
   last one's excepted, is shorter than what the frame before it makes the parser ask for.
   */
  lemma {:induction false} LogReadsBack(decode: Decoder, log: Log, es: seq<Entry>)
    requires (forall e :: e in es ==> IsEntry(e)) && IgnoresLinkId(decode) && Between(log.port, LogBytes(es))
    requires NoReadAhead(log.port.rx.expected, FramesIn(es))
    requires Calm(decode, log.port.rx.sg, log.lastTime, log.lastBad, es)
    ensures ReadLog(decode, log) == Expected(decode, log.port.rx.sg, es)
    decreases |es|
  {
    if es == [] {
      AtEnd(decode, log);
    } else {
      assert es[0] in es && IsEntry(es[0]);
      ReadAheadCases(log.port.rx.expected, es);
      var log' := RestIsMeant(decode, log, es);
      LogReadsBack(decode, log', es[1..]);
    }
  }

  // ----- A record whose time is not believed

  /** The scan goes past the time of the record: to a time that is near the last one, or to the end of the file. */
  lemma ScanLeaves(log: Log, e: Entry, tail: bytes)
    requires IsEntry(e) && log.port.input == EntryBytes(e) + tail && !CalmNow(log.lastTime, log.lastBad, e)
    ensures var pre := PreMessage(log);
            pre.port.rx == log.port.rx && (pre.time != e.usec || pre.port.input == [])
  {
    TimeRoundTrip(e, tail);
    var window, rest := log.port.input[..8], log.port.input[8..];
    assert MustScan(log, FromBe(window));
    var k := ScanFindsFirst(log.lastTime.value, window, rest);
    assert PreMessage(log).time == TimeAt(window + rest, k) && PreMessage(log).port.input == rest[k..];
  }

  lemma FirstTime(decode: Decoder, log: Log)
    requires log.port.rx.expected >= 8 && ReadLog(decode, log) != []
    ensures RecvLog(decode, log).0.Some? && ReadLog(decode, log)[0].time == PreMessage(log).time
  {
  }

  lemma NothingToRead(decode: Decoder, log: Log)
    requires log.port.rx.expected >= 8 && log.port.rx.rest == [] && PreMessage(log).port.input == []
    ensures RecvLog(decode, log).0.None?
  {
    var port := PreMessage(log).port;
    assert Pending(port) == [];
    LoopTakes(decode, port);
  }

  /** So the record is not read back. */
  lemma FarTimeIsLost(decode: Decoder, log: Log, es: seq<Entry>)
    requires (forall e :: e in es ==> IsEntry(e)) && es != [] && Between(log.port, LogBytes(es))
    requires !CalmNow(log.lastTime, log.lastBad, es[0])
    ensures ReadLog(decode, log) != Expected(decode, log.port.rx.sg, es)
  {
    assert es[0] in es && IsEntry(es[0]);
    ScanLeaves(log, es[0], LogBytes(es[1..]));
    assert Expected(decode, log.port.rx.sg, es)[0].time == es[0].usec;
    if ReadLog(decode, log) != [] {
      FirstTime(decode, log);
      if PreMessage(log).port.input == [] {
        NothingToRead(decode, log);
      }
    }
  }

  // ----- Exactly the logs that are read back

  lemma FirstIsLost(decode: Decoder, log: Log, es: seq<Entry>)
    requires (forall e :: e in es ==> IsEntry(e)) && AllBefore(es) && es != [] && Between(log.port, LogBytes(es))
    requires !CalmNow(log.lastTime, log.lastBad, es[0]) || ReadsInto(log.port.rx.expected, es)
    ensures ReadLog(decode, log) != Expected(decode, log.port.rx.sg, es)
  {
    if CalmNow(log.lastTime, log.lastBad, es[0]) {
      NotReadBack(decode, log, es);
    } else {
      FarTimeIsLost(decode, log, es);
    }
  }

  /** Nothing is read ahead before the last record, and no scan for a time starts. */
  ghost predicate Undisturbed(decode: Decoder, log: Log, es: seq<Entry>)
    requires forall e :: e in es ==> IsEntry(e)
  {
    && NoReadAhead(log.port.rx.expected, FramesIn(es))
    && Calm(decode, log.port.rx.sg, log.lastTime, log.lastBad, es)
  }

  /** One undisturbed record read, what matters is the rest. */
  lemma RestDecides(decode: Decoder, log: Log, es: seq<Entry>) returns (log': Log)
    requires (forall e :: e in es ==> IsEntry(e)) && es != [] && IsEntry(es[0])
    requires IgnoresLinkId(decode) && Between(log.port, LogBytes(es))
    requires CalmNow(log.lastTime, log.lastBad, es[0]) && !ReadsInto(log.port.rx.expected, es)
    ensures Between(log'.port, LogBytes(es[1..]))
    ensures Undisturbed(decode, log, es) <==> Undisturbed(decode, log', es[1..])
    ensures ReadLog(decode, log) == Expected(decode, log.port.rx.sg, es)
       <==> ReadLog(decode, log') == Expected(decode, log'.port.rx.sg, es[1..])
  {
    ReadAheadCases(log.port.rx.expected, es);
    log' := RestIsMeant(decode, log, es);
  }

  /** Otherwise it is not: some record loses its first byte to the one before it, or its time to a scan. */
  lemma {:induction false} LogIsCutShort(decode: Decoder, log: Log, es: seq<Entry>)
    requires (forall e :: e in es ==> IsEntry(e)) && IgnoresLinkId(decode) && Between(log.port, LogBytes(es))
    requires AllBefore(es) && !Undisturbed(decode, log, es)
    ensures ReadLog(decode, log) != Expected(decode, log.port.rx.sg, es)
    decreases |es|
  {
    assert es[0] in es && IsEntry(es[0]);
    if !CalmNow(log.lastTime, log.lastBad, es[0]) || ReadsInto(log.port.rx.expected, es) {
      FirstIsLost(decode, log, es);
    } else {
      var log' := RestDecides(decode, log, es);
      LogIsCutShort(decode, log', es[1..]);
    }
  }

  /**
   So, as long as no time looks like a frame, a log is read back if and only if no frame but the last is shorter than
   what the one before it makes the parser ask for, and no record after a damaged frame is more than three days from
   the last undamaged one.
   */
  lemma ReadsBackExactly(decode: Decoder, log: Log, es: seq<Entry>)
    requires (forall e :: e in es ==> IsEntry(e)) && IgnoresLinkId(decode) && Between(log.port, LogBytes(es))
    requires AllBefore(es)
    ensures ReadLog(decode, log) == Expected(decode, log.port.rx.sg, es)
       <==> Undisturbed(decode, log, es)
  {
    if Undisturbed(decode, log, es) {
      LogReadsBack(decode, log, es);
    } else {
      LogIsCutShort(decode, log, es);
    }
  }

  lemma {:induction false} FramesInAll(es: seq<Entry>)
    requires forall e :: e in es ==> IsEntry(e)
    ensures AllFrames(FramesIn(es))
  {
    if es != [] {
      assert es[0] in es && IsEntry(es[0]);
      FramesInAll(es[1..]);
    }
  }

  /** In particular a log whose frames are all of one version, or never go from version 2 to version 1. */
  lemma KeptApartReadsBack(decode: Decoder, log: Log, es: seq<Entry>)
    requires (forall e :: e in es ==> IsEntry(e)) && IgnoresLinkId(decode)
    requires Between(log.port, LogBytes(es)) && VersionsKeptApart(log.port.rx.expected == 12, FramesIn(es))
    requires !log.lastBad && AllGood(decode, log.port.rx.sg, es)
    ensures ReadLog(decode, log) == Expected(decode, log.port.rx.sg, es)
  {
    FramesInAll(es);
    KeptApartSuffices(log.port.rx.expected, FramesIn(es));
    GoodIsCalm(decode, log.port.rx.sg, log.lastTime, es);
    LogReadsBack(decode, log, es);
  }

  // ----- Resynchronisation of times

  /** The time at offset k of what scan_timestamp may look at. */
  function TimeAt(b: bytes, k: nat): nat
    requires k + 8 <= |b|
  {
    FromBe(b[k..k + 8])
  }

  /** scan_timestamp stops at the first offset whose time is near the last one, or at the end of the file. */
  lemma {:induction false} ScanFindsFirst(last: int, window: bytes, input: bytes) returns (k: nat)
    requires |window| == 8
    ensures k <= |input| && Scan(last, window, input) == (TimeAt(window + input, k), input[k..])
    ensures forall j :: 0 <= j < k ==> !WithinThreeDays(TimeAt(window + input, j), last)
    ensures k < |input| ==> WithinThreeDays(TimeAt(window + input, k), last)
    decreases |input|
  {
    var b := window + input;
    assert b[0..8] == window;
    if IsNear(FromBe(window), last) || input == [] {
      k := 0;
    } else {
      var next := window[1..] + [input[0]];
      var j := ScanFindsFirst(last, next, input[1..]);
      k := j + 1;
      assert next + input[1..] == b[1..];
      forall i | 0 <= i <= j ensures TimeAt(next + input[1..], i) == TimeAt(b, i + 1) {
        assert b[1..][i..i + 8] == b[i + 1..i + 9];
      }
      forall i | 0 <= i < k ensures !WithinThreeDays(TimeAt(b, i), last) {
        if i > 0 {
          assert TimeAt(next + input[1..], i - 1) == TimeAt(b, i);
        }
      }
    }
  }
}
