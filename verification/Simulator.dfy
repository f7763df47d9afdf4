/**
 The IridiumSimulator object of simulator.py. Everything it sends is kept in sent, in order.
 */
module Simulator {
  import opened Bytes
  import opened Modem

  class IridiumSimulator {
    const cfg: Config
    var commandBuffer: bytes
    var mtBuffer: bytes
    var moBuffer: bytes
    var moLength: int
    var ringPending: bool
    var timerArmed: bool
    var ringMessagePending: bool
    var mtQueue: seq<bytes>
    var state: AtState
    var rolls: nat
    var sent: seq<Output>

    constructor (cfg: Config)
      ensures this.cfg == cfg && ToSim() == START && sent == []
    {
      this.cfg := cfg;
      commandBuffer, mtBuffer, moBuffer, moLength := [], [], [], 0;
      ringPending, timerArmed, ringMessagePending, mtQueue, state := false, false, false, [], Idle;
      rolls, sent := 0, [];
    }

    function ToSim(): Sim reads this {
      Sim(state, commandBuffer, mtBuffer, moBuffer, moLength, ringMessagePending,
          ringPending, timerArmed, mtQueue, rolls)
    }

    /** The handler went from s to where the object is, and sent what it should after what was sent before. */
    ghost predicate Did(d: Done, before: seq<Output>) reads this {
      ToSim() == d.sim && sent == before + d.out
    }

    method Send(o: Output)
      modifies this`sent
      ensures sent == old(sent) + [o]
    {
      sent := sent + [o];
    }

    /** random.random() < fraction_good_signal. */
    method Roll() returns (lucky: bool)
      modifies this`rolls
      ensures lucky == cfg.lucky(old(rolls)) && rolls == old(rolls) + 1
    {
      lucky := cfg.lucky(rolls);
      rolls := rolls + 1;
    }

    /** changeState. */
    method ChangeState(newState: AtState)
      modifies this`state, this`ringMessagePending, this`sent
      ensures newState == Idle ==> (ToSim(), sent) == (ToIdle(old(ToSim())).0, old(sent) + ToIdle(old(ToSim())).1)
      ensures newState != Idle ==> ToSim() == old(ToSim()).(state := newState) && sent == old(sent)
    {
      state := newState;
      if newState == Idle && ringMessagePending {
        SendRing();
      } else {
        assert sent + [] == sent;
      }
    }

    /** send_ring. */
    method SendRing()
      modifies this`ringMessagePending, this`sent
      ensures Did(Modem.SendRing(old(ToSim())), old(sent))
    {
      ringMessagePending := true;
      if state != Idle {
        assert sent + [] == sent;
        return;
      }
      Send(Ring);
      ringMessagePending := false;
    }

    /** sendOK after some lines. */
    method SendOk(lines: seq<Output>)
      modifies this`state, this`ringMessagePending, this`sent
      ensures Did(Reply(old(ToSim()), lines), old(sent))
    {
      ghost var before, ring := sent, ToIdle(ToSim()).1;
      sent := sent + lines;
      Send(OkLine);
      ChangeState(Idle);
      assert before + lines + [OkLine] + ring == before + (lines + [OkLine] + ring);
    }

    /** ring. */
    method DoRing()
      modifies this`ringMessagePending, this`sent, this`timerArmed
      ensures Did(Modem.DoRing(old(ToSim())), old(sent))
    {
      SendRing();
      timerArmed := true;
    }

    /** on_web_receive, with ring_on. */
    method OnWebReceive(data: bytes)
      modifies this`ringMessagePending, this`sent, this`timerArmed, this`mtQueue, this`ringPending
      ensures Did(Modem.OnWebReceive(old(ToSim()), data), old(sent))
    {
      mtQueue := mtQueue + [data];
      ringPending := true;
      DoRing();
    }

    /** The one-second timer. */
    method OnTimer()
      modifies this`ringMessagePending, this`sent, this`timerArmed
      ensures Did(Modem.OnTimer(old(ToSim())), old(sent))
    {
      if timerArmed {
        DoRing();
      } else {
        assert sent + [] == sent;
      }
    }

    /** ring_off. */
    method RingOff()
      modifies this`ringPending, this`timerArmed
      ensures ToSim() == old(ToSim()).(ringPending := false, timerArmed := false)
    {
      ringPending := false;
      timerArmed := false;
    }

    /** at_csq. */
    method DoCsq()
      modifies this`state, this`ringMessagePending, this`sent, this`rolls
      ensures Did(AtCsq(cfg, old(ToSim())), old(sent))
    {
      var good := true;
      if !cfg.ideal {
        good := Roll();
      }
      SendOk([Text(if good then "+CSQ:5" else "+CSQ:0")]);
    }

    /** at_sbdix. */
    method DoSbdix()
      modifies this`state, this`ringMessagePending, this`sent, this`rolls, this`mtBuffer, this`mtQueue
      ensures Did(AtSbdix(cfg, old(ToSim())), old(sent))
    {
      var lucky := Roll();
      var posts := [];
      if lucky {
        if moBuffer != [] {
          posts := [Post(moBuffer)];
        }
        if mtQueue != [] {
          mtBuffer, mtQueue := mtQueue[0], mtQueue[1..];
        } else {
          mtBuffer := [];
        }
      }
      var line := SessionLine(if lucky then 0 else 32, if mtBuffer != [] then 1 else 0, |mtBuffer|, |mtQueue|);
      assert [] + [line] == [line];
      SendOk(posts + [line]);
    }

    /** at_sbdwb. */
    method DoSbdwb(length: bytes)
      modifies this`state, this`ringMessagePending, this`sent, this`moLength, this`moBuffer
      ensures Did(AtSbdwb(old(ToSim()), length), old(sent))
    {
      var n := ParseInt(length);
      if n.None? {
        Send(Text("3"));
      } else {
        moLength := n.value;
        moBuffer := [];
        ChangeState(WritingMo);
        Send(Text("READY"));
      }
    }

    /** The loop of at_sbdrb and the one of on_serial_receive that add up bytes. */
    method AddUp(s: bytes) returns (cs: nat)
      ensures cs == Sum(s)
    {
      cs := 0;
      var i := 0;
      while i < |s|
        invariant i <= |s| && cs == Sum(s[..i])
      {
        assert s[..i + 1][..i] == s[..i];
        cs := cs + s[i];
        i := i + 1;
      }
      assert s[..i] == s;
    }

    /** at_sbdrb; false where chr raises. */
    method DoSbdrb() returns (ok: bool)
      modifies this`state, this`ringMessagePending, this`sent
      ensures ok == !AtSbdrb(old(ToSim())).crashed && Did(AtSbdrb(old(ToSim())), old(sent))
    {
      var cs := AddUp(mtBuffer);
      var n := |mtBuffer|;
      if n / 256 >= 256 || cs / 256 >= 256 {
        assert sent + [] == sent;
        return false;
      }
      SendOk([Raw([n / 256, n % 256] + mtBuffer + [cs / 256, cs % 256] + [13, 10])]);
      return true;
    }

    /** The command once recognised; false where it raises. AT falls through to the last else of on_command. */
    method Execute(cmd: Cmd) returns (ok: bool)
      modifies this
      ensures ok == !Modem.Execute(cfg, old(ToSim()), cmd).crashed
      ensures Did(Modem.Execute(cfg, old(ToSim()), cmd), old(sent))
    {
      ok := true;
      match cmd
      case At =>
        SendOk([]);
        ChangeState(Idle);
        assert sent + [] == sent;
      case K0 => SendOk([]);
      case E0 => SendOk([]);
      case Csq => DoCsq();
      case Sbdd0 =>
        moBuffer := [];
        SendOk([Text("0")]);
      case Sbdix => DoSbdix();
      case Sbdixa =>
        RingOff();
        DoSbdix();
      case Sbdwb(length) => DoSbdwb(length);
      case Sbdrb => ok := DoSbdrb();
      case Unknown => ChangeState(Idle);
    }

    /** on_command; false where it raises. */
    method OnCommand(command: bytes) returns (ok: bool)
      modifies this
      ensures ok == !Modem.OnCommand(cfg, old(ToSim()), command).crashed
      ensures Did(Modem.OnCommand(cfg, old(ToSim()), command), old(sent))
    {
      ChangeState(Command);
      ok := Execute(Recognise(command));
    }

    /** A byte of on_serial_receive in binary write mode; false where an index raises. */
    method WriteByte(c: byte) returns (ok: bool)
      modifies this`state, this`ringMessagePending, this`sent, this`moBuffer
      ensures ok == !Modem.WriteByte(old(ToSim()), c).crashed && Did(Modem.WriteByte(old(ToSim()), c), old(sent))
    {
      moBuffer := moBuffer + [c];
      var n := |moBuffer|;
      if n != moLength + 2 {
        assert sent + [] == sent;
        return true;
      }
      if n < 2 {
        assert sent + [] == sent;
        return false;
      }
      var cs := AddUp(moBuffer[..n - 2]);
      if cs / 256 == moBuffer[n - 2] && cs % 256 == moBuffer[n - 1] {
        moBuffer := moBuffer[..n - 2];
        SendOk([Text("0")]);
      } else {
        SendOk([Text("2")]);
      }
      return true;
    }

    /** A byte of on_serial_receive. */
    method TakeByte(c: byte) returns (ok: bool)
      modifies this
      ensures ok == !OnByte(cfg, old(ToSim()), c).crashed && Did(OnByte(cfg, old(ToSim()), c), old(sent))
    {
      ok := true;
      if state == WritingMo {
        ok := WriteByte(c);
      } else if c == CR {
        ok := OnCommand(commandBuffer);
        if ok {
          commandBuffer := [];
        }
      } else {
        commandBuffer := commandBuffer + [c];
        assert sent + [] == sent;
      }
    }

    /** on_serial_receive; false where an exception ends it. */
    method OnSerialReceive(data: bytes) returns (ok: bool)
      modifies this
      ensures ok == !Modem.OnSerialReceive(Handler(cfg), old(ToSim()), data).crashed
      ensures Did(Modem.OnSerialReceive(Handler(cfg), old(ToSim()), data), old(sent))
    {
      ghost var start, before, out := ToSim(), sent, [];
      assert before + out == before && data[0..] == data;
      ghost var whole := Modem.OnSerialReceive(Handler(cfg), start, data).out;
      assert out + whole == whole;
      var i := 0;
      while i < |data|
        invariant i <= |data| && sent == before + out
        invariant Modem.OnSerialReceive(Handler(cfg), start, data)
               == Resumed(out, Modem.OnSerialReceive(Handler(cfg), ToSim(), data[i..]))
      {
        ghost var now, rest := ToSim(), data[i + 1..];
        assert data[i..][1..] == rest;
        ok := TakeByte(data[i]);
        ghost var d := OnByte(cfg, now, data[i]);
        Reassociate(before, out, d.out);
        if !ok {
          return;
        }
        Reassociate(out, d.out, Modem.OnSerialReceive(Handler(cfg), d.sim, rest).out);
        out := out + d.out;
        i := i + 1;
      }
      assert out + [] == out;
      ok := true;
    }
  }

  /** A handler whose first part has sent out. */
  function Resumed(out: seq<Output>, d: Done): Done { Done(d.sim, out + d.out, d.crashed) }
}
