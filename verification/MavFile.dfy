/**
 The objects of pymavlink/mavutil.py around a connection: a port that receives, counts and, for logs, stamps.
 */
module MavFile {
  import opened Bytes
  import opened Frame
  import opened Stream
  import opened MavLink
  import opened Receive
  import R = Receive
  import opened Loss
  import opened TimedLog

  /** A mavfile whose source still holds input and delivers reads as caps says. */
  class File {
    const mav: Connection
    var input: bytes
    var caps: seq<nat>
    var targetSystem: int
    var targetComponent: int
    var lastSeq: map<Source, int>
    var mavLoss: int
    var mavCount: nat

    constructor (mav: Connection, input: bytes, caps: seq<nat>)
      requires mav.Valid()
      modifies mav`robust
      ensures this.mav == mav && Valid()
      ensures ToPort() == Port(mav.Receiving(), input, caps, (0, 0)) && ToStats() == Stats(map[], 0, 0)
      ensures mav.Receiving() == old(mav.Receiving())
    {
      this.mav, this.input, this.caps := mav, input, caps;
      targetSystem, targetComponent := 0, 0;
      lastSeq, mavLoss, mavCount := map[], 0, 0;
      new;
      mav.robust := true;
    }

    ghost predicate Valid() reads this, mav { mav.Valid() && mav.robust }

    ghost function ToPort(): Port
      requires Valid()
      reads this, mav
    {
      Port(mav.Receiving(), input, caps, (targetSystem, targetComponent))
    }

    ghost function ToStats(): Stats reads this { Stats(lastSeq, mavLoss, mavCount) }

    /** recv. */
    method Recv(n: nat) returns (s: bytes)
      requires n >= 1
      modifies this`input, this`caps
      ensures var k := ReadSize(n, |old(input)|, old(caps));
              s == old(input)[..k] && input == old(input)[k..] && caps == Later(old(caps))
    {
      var k := ReadSize(n, |input|, caps);
      s := input[..k];
      input, caps := input[k..], Later(caps);
    }

    /** One turn of the loop of recv_msg. */
    method TakeTurn() returns (m: ParseResult, numnew: nat)
      requires Valid()
      modifies this`input, this`caps
      modifies mav`buf, mav`bufIndex, mav`expectedLength, mav`havePrefixError, mav`signing
      modifies mav`packetsReceived, mav`bytesReceived, mav`receiveErrors
      ensures Valid() && (m, ToPort(), numnew) == Turn(DecoderOf(mav.link), old(ToPort()))
    {
      var n := mav.BytesNeeded();
      var s := Recv(n);
      numnew := |s|;
      m := mav.ParseChar(s);
    }

    /** The loop of recv_msg. */
    method ReceiveLoop() returns (msg: Option<Received>)
      requires Valid()
      modifies this`input, this`caps
      modifies mav`buf, mav`bufIndex, mav`expectedLength, mav`havePrefixError, mav`signing
      modifies mav`packetsReceived, mav`bytesReceived, mav`receiveErrors
      ensures Valid() && (msg, ToPort()) == R.ReceiveLoop(DecoderOf(mav.link), old(ToPort()))
    {
      while true
        invariant Valid()
        invariant R.ReceiveLoop(DecoderOf(mav.link), ToPort()) == R.ReceiveLoop(DecoderOf(mav.link), old(ToPort()))
        decreases |input|
      {
        var m, numnew := TakeTurn();
        if m.Got? {
          return Some(m.r);
        }
        if numnew == 0 {
          return None;
        }
      }
    }

    /** The sequence part of post_message. */
    method CountMessage(msg: Received)
      modifies this`lastSeq, this`mavLoss, this`mavCount
      ensures ToStats() == Account(old(ToStats()), msg)
    {
      if msg.Good? && (msg.msg.header.sys, msg.msg.header.comp) != (51, 68) {
        var src := (msg.msg.header.sys, msg.msg.header.comp);
        var last := -1;
        if src in lastSeq {
          last := lastSeq[src];
        }
        var expected := (last + 1) % 256;
        var seq2 := msg.msg.header.seqNo;
        if expected != seq2 && last != -1 {
          mavLoss := mavLoss + (seq2 - expected) % 256;
        }
        lastSeq := lastSeq[src := seq2];
        mavCount := mavCount + 1;
      }
    }

    /** post_message: the packet counters, the target and the link id to sign with. */
    method PostMessage(msg: Received)
      requires Valid()
      modifies this`lastSeq, this`mavLoss, this`mavCount, this`targetSystem, this`targetComponent, mav`signing
      ensures Valid() && ToPort() == Post(old(ToPort()), msg) && ToStats() == Account(old(ToStats()), msg)
    {
      CountMessage(msg);
      if msg.BadData? {
        return;
      }
      var m := msg.msg;
      if m.def.name == HEARTBEAT && m.header.comp != COMP_ID_GIMBAL {
        targetSystem, targetComponent := m.header.sys, m.header.comp;
      }
      if m.signed && mav.signing.linkId == 0 && m.linkId.Some? && m.linkId.value != 0
         && targetSystem == m.header.sys && targetComponent == m.header.comp {
        mav.signing := mav.signing.(linkId := m.linkId.value);
      }
    }

    /** recv_msg. */
    method RecvMsg() returns (msg: Option<Received>)
      requires Valid()
      modifies this, mav`buf, mav`bufIndex, mav`expectedLength, mav`havePrefixError, mav`signing
      modifies mav`packetsReceived, mav`bytesReceived, mav`receiveErrors
      ensures Valid() && (msg, ToPort()) == R.RecvMsg(DecoderOf(mav.link), old(ToPort()))
      ensures ToStats() == if msg.Some? then Account(old(ToStats()), msg.value) else old(ToStats())
    {
      msg := ReceiveLoop();
      if msg.Some? {
        PostMessage(msg.value);
      }
    }
  }

  /** A mavlogfile: the file is the source of its base object. */
  class LogFile {
    const base: File
    var timestamp: int
    var lastMessage: Option<Received>
    var lastTimestamp: Option<int>
    var linkNo: int

    constructor (base: File, now: int)
      requires base.Valid()
      ensures this.base == base && Valid()
      ensures ToLog() == Log(base.ToPort(), now, None, false, 0, base.ToStats())
    {
      this.base := base;
      timestamp, lastMessage, lastTimestamp, linkNo := now, None, None, 0;
    }

    ghost predicate Valid() reads this, base, base.mav {
      base.Valid() && (lastTimestamp.Some? ==> lastMessage.Some?)
    }

    ghost function ToLog(): Log
      requires Valid()
      reads this, base, base.mav
    {
      Log(base.ToPort(), timestamp, lastTimestamp, lastMessage.Some? && lastMessage.value.BadData?,
          linkNo, base.ToStats())
    }

    /** f.read. */
    method ReadFile(n: nat) returns (s: bytes)
      modifies base`input
      ensures var k := Min(n, |old(base.input)|);
              s == old(base.input)[..k] && base.input == old(base.input)[k..]
    {
      var k := Min(n, |base.input|);
      s := base.input[..k];
      base.input := base.input[k..];
    }

    /** scan_timestamp. */
    method ScanTimestamp(buf: bytes) returns (t: int)
      requires |buf| == 8 && lastTimestamp.Some?
      modifies base`input
      ensures (t, base.input) == Scan(lastTimestamp.value, buf, old(base.input))
    {
      var window := buf;
      while true
        invariant |window| == 8
        invariant Scan(lastTimestamp.value, window, base.input) == Scan(lastTimestamp.value, buf, old(base.input))
        decreases |base.input|
      {
        t := FromBe(window);
        if IsNear(t, lastTimestamp.value) {
          return;
        }
        ghost var was := base.input;
        var c := ReadFile(1);
        if |c| != 1 {
          return;
        }
        assert c == [was[0]];
        window := window[1..] + c;
      }
    }

    /** pre_message. */
    method PreMessage()
      requires Valid()
      modifies base`input, this`timestamp, this`linkNo
      ensures Valid() && ToLog() == TimedLog.PreMessage(old(ToLog()))
    {
      var buf := ReadFile(8);
      if |buf| != 8 {
        return;
      }
      var usec := FromBe(buf);
      var t := usec as int;
      if lastTimestamp.Some? && lastMessage.value.BadData? && !IsNear(t, lastTimestamp.value) {
        t := ScanTimestamp(buf);
      }
      linkNo := usec % 4;
      timestamp := t;
    }

    /** post_message. */
    method PostMessage(msg: Received)
      requires Valid()
      modifies base`lastSeq, base`mavLoss, base`mavCount, base`targetSystem, base`targetComponent
      modifies base.mav`signing, this`lastMessage, this`lastTimestamp
      ensures Valid() && ToLog() == TimedLog.PostMessage(old(ToLog()), msg)
    {
      base.PostMessage(msg);
      lastMessage := Some(msg);
      if msg.Good? {
        lastTimestamp := Some(timestamp);
      }
    }

    /** recv_msg of a log, with the time and link number put on the message. */
    method RecvMsg() returns (msg: Option<Stamped>)
      requires Valid()
      modifies this, base
      modifies base.mav`buf, base.mav`bufIndex, base.mav`expectedLength, base.mav`havePrefixError, base.mav`signing
      modifies base.mav`packetsReceived, base.mav`bytesReceived, base.mav`receiveErrors
      ensures Valid() && (msg, ToLog()) == RecvLog(DecoderOf(base.mav.link), old(ToLog()))
    {
      PreMessage();
      var m := base.ReceiveLoop();
      if m.None? {
        return None;
      }
      PostMessage(m.value);
      return Some(Stamped(m.value, timestamp, linkNo));
    }
  }
}
