/**
 Signing over whole runs: MAVLinkSigning, sign_packet and check_signature of the runtime template in
 pymavlink/generator/mavgen_python.py, from a sender's messages to a receiver that hears other senders too.
 */
module SignedRuns {
  import opened Bytes
  import opened Layout
  import opened Wire
  import opened Frame
  import opened Stream

  type StreamId = (int, int, int)

  /** 48 bits of a timestamp are sent. */
  const TIME_LIMIT := 0x1_0000_0000_0000

  /** A frame that decode finds undamaged, of that stream and time, with the signature the key gives it. */
  ghost predicate Authentic(link: Link, key: bytes, buf: bytes, id: StreamId, time: nat) {
    && FrameFault(link, buf).None? && TailLen(ParseHeader(buf)) == 2 + SIGNATURE_LEN
    && |buf| >= SIGNATURE_LEN
    && StreamKey(buf, ParseHeader(buf)) == id && SignatureTime(buf) == time
    && SignatureOf(link, key, buf[..|buf| - 6]) == buf[|buf| - 6..]
  }

  // ----- What a sender's frames carry

  /** The low k bytes and the high ones are encoded one after the other. */
  lemma {:induction false} LeJoins(low: nat, high: nat, k: nat, m: nat)
    requires low < Pow256(k)
    ensures Le(low + Pow256(k) * high, k + m) == Le(low, k) + Le(high, m)
    decreases k
  {
    if k > 0 {
      var p: nat := Pow256(k - 1) * high;
      LowestByte(low, high, k);
      LeJoins(low / 256, high, k - 1, m);
      assert Le(low, k) + Le(high, m) == [low % 256] + (Le(low / 256, k - 1) + Le(high, m));
    }
  }

  lemma LowestByte(low: nat, high: nat, k: nat)
    requires k > 0
    ensures var n := low + Pow256(k) * high;
            n >= 0 && n % 256 == low % 256 && n / 256 == low / 256 + Pow256(k - 1) * high
  {
    var p: nat := Pow256(k - 1) * high;
    assert Pow256(k) * high == 256 * p by {
      assert Pow256(k) * high == 256 * Pow256(k - 1) * high;
    }
    assert (low + 256 * p) % 256 == low % 256 && (low + 256 * p) / 256 == low / 256 + p;
  }

  /** The two words of a signature block's time are the low 48 bits of the signer's timestamp. */
  lemma TimeOfBlock(n: nat)
    requires n < TIME_LIMIT
    ensures var tb := Le(n, 8)[..6]; FromLe(tb[..4]) + FromLe(tb[4..]) * 0x1_0000_0000 == n
  {
    var low, high := n % 0x1_0000_0000, n / 0x1_0000_0000;
    PowValues();
    LePrefix(n, 8, 6);
    LeJoins(low, high, 4, 2);
    assert Le(n, 6)[..4] == Le(low, 4) && Le(n, 6)[4..] == Le(high, 2);
    LeRoundTrip(low, 4);
    LeRoundTrip(high, 2);
  }

  /** What the last 13 bytes of a signed frame say. */
  lemma BlockParts(link: Link, sg: Signing, frame: bytes)
    requires IsByte(sg.linkId) && sg.secretKey.Some? && sg.timestamp < TIME_LIMIT
    ensures var buf := frame + SignatureBlock(link, sg, frame);
            && |buf| >= SIGNATURE_LEN && buf[|buf| - 13] == sg.linkId && SignatureTime(buf) == sg.timestamp
            && SignatureOf(link, sg.secretKey.value, buf[..|buf| - 6]) == buf[|buf| - 6..]
  {
    var head := SignatureHead(sg);
    var signature := SignatureOf(link, sg.secretKey.value, frame + head);
    var buf := frame + SignatureBlock(link, sg, frame);
    assert buf[..|buf| - 6] == frame + head;
    assert buf[|buf| - 6..] == signature;
    assert buf[|buf| - 12..|buf| - 6] == Le(sg.timestamp, 8)[..6];
    TimeOfBlock(sg.timestamp);
  }

  /** A signed send moves the signer's timestamp on by one, and changes nothing else of the signing state. */
  lemma SendTicks(link: Link, sender: Sender, sg: Signing, def: MsgDef, values: seq<Value>)
    requires |values| == |def.fields| && sg.signOutgoing
    requires PackFrame(link, sender, sg, def, values, false).Some?
    ensures PackFrame(link, sender, sg, def, values, false).value.1 == sg.(timestamp := sg.timestamp + 1)
  {
  }

  lemma SendKeepsSigner(link: Link, sender: Sender, sg: Signing, def: MsgDef, values: seq<Value>)
    requires |values| == |def.fields|
    ensures var p := PackFrame(link, sender, sg, def, values, false);
            p.Some? ==> p.value.1 == sg.(timestamp := p.value.1.timestamp)
  {
  }

  ghost predicate Signs(sg: Signing, key: bytes) { sg.signOutgoing && sg.secretKey == Some(key) }

  /** A packed frame is authentic, with the signer's timestamp, and leaves the signer one tick later. */
  lemma PackedIsAuthentic(link: Link, sender: Sender, sg: Signing, def: MsgDef, values: seq<Value>, key: bytes)
    requires link.version.V2? && def.id in link.dialect && link.dialect[def.id] == def
    requires |values| == |def.fields| && PackFrame(link, sender, sg, def, values, false).Some?
    requires Signs(sg, key) && sg.timestamp < TIME_LIMIT
    ensures var (buf, sg') := PackFrame(link, sender, sg, def, values, false).value;
            && Authentic(link, key, buf, (sg.linkId, sender.srcSystem, sender.srcComponent), sg.timestamp)
            && sg' == sg.(timestamp := sg.timestamp + 1)
  {
    var payload, frame, block := PackedShape(link, sender, sg, def, values, false);
    UnsignedPasses(link, sender, sg, def, payload, false, block);
    BlockParts(link, sg, frame);
  }

  // ----- A sender's run

  datatype Message = Message(def: MsgDef, values: seq<Value>)

  /** A message object, with a value for each field. */
  type Outgoing = m: Message | |m.values| == |m.def.fields| witness Message(MsgDef(0, "", [], None), [])

  /** A call of send, or a buffer that the same object decodes between its sends. */
  datatype Act = Sends(m: Outgoing) | Hears(buf: bytes)

  /** A frame as it was sent, and the time it was signed with. */
  datatype Signed = Signed(frame: bytes, time: nat)

  /** What a MAVLink object sends as, and its signing state. */
  datatype Station = Station(sender: Sender, sg: Signing)

  function IdOf(st: Station): StreamId { (st.sg.linkId, st.sender.srcSystem, st.sender.srcComponent) }

  /** One act: the frame it writes, if any; a send that raises writes nothing and changes nothing. */
  function DoAct(link: Network, st: Station, a: Act): (Option<Signed>, Station) {
    match a
    case Hears(buf) => (None, st.(sg := Decode(link, st.sg, buf).1))
    case Sends(m) =>
      match PackFrame(link, st.sender, st.sg, m.def, m.values, false)
      case None => (None, st)
      case Some(p) =>
        (Some(Signed(p.0, st.sg.timestamp)), Station(st.sender.(seqNo := (st.sender.seqNo + 1) % 256), p.1))
  }

  type Actor = (Station, Act) -> (Option<Signed>, Station)

  function ActorOf(link: Network): Actor { (st: Station, a: Act) => DoAct(link, st, a) }

  /** The frames that a run of acts writes. */
  function SendRun(act: Actor, st: Station, acts: seq<Act>): seq<Signed>
    decreases |acts|
  {
    if acts == [] then []
    else
      var (s, st') := act(st, acts[0]);
      (if s.Some? then [s.value] else []) + SendRun(act, st', acts[1..])
  }

  /** No act changes what is signed with, except the clock. */
  ghost predicate KeepsSigner(act: Actor) {
    forall st, a {:trigger act(st, a)} ::
      var st' := act(st, a).1;
      IdOf(st') == IdOf(st) && st'.sg.signOutgoing == st.sg.signOutgoing && st'.sg.secretKey == st.sg.secretKey
  }

  /** A frame carries the clock, which then moves on by one; nothing moves it back, and no failed send moves it. */
  ghost predicate Ticks(act: Actor) {
    forall st: Station, a {:trigger act(st, a)} :: st.sg.signOutgoing ==>
      var (s, st') := act(st, a);
      if s.Some? then s.value.time == st.sg.timestamp && st'.sg.timestamp == st.sg.timestamp + 1
      else st'.sg.timestamp >= st.sg.timestamp && (a.Sends? ==> st' == st)
  }

  predicate Known(link: Link, a: Act) {
    a.Sends? ==> a.m.def.id in link.dialect && link.dialect[a.m.def.id] == a.m.def
  }

  predicate AllKnown(link: Link, acts: seq<Act>) { forall i :: 0 <= i < |acts| ==> Known(link, acts[i]) }

  ghost predicate Makes(act: Actor, link: Link, key: bytes) {
    forall st: Station, a {:trigger act(st, a)} :: Signs(st.sg, key) && Known(link, a) ==>
      var s := act(st, a).0;
      s.Some? && s.value.time < TIME_LIMIT ==> Authentic(link, key, s.value.frame, IdOf(st), s.value.time)
  }

  lemma ActKeepsSigner(link: Network, st: Station, a: Act)
    ensures var st' := DoAct(link, st, a).1;
            IdOf(st') == IdOf(st) && st'.sg.signOutgoing == st.sg.signOutgoing && st'.sg.secretKey == st.sg.secretKey
  {
    if a.Hears? {
      DecodeKeepsSigner(link, st.sg, a.buf);
    } else {
      SendKeepsSigner(link, st.sender, st.sg, a.m.def, a.m.values);
    }
  }

  lemma ActTicks(link: Network, st: Station, a: Act)
    requires st.sg.signOutgoing
    ensures var (s, st') := DoAct(link, st, a);
            if s.Some? then s.value.time == st.sg.timestamp && st'.sg.timestamp == st.sg.timestamp + 1
            else st'.sg.timestamp >= st.sg.timestamp && (a.Sends? ==> st' == st)
  {
    if a.Hears? {
      DecodeKeepsSigner(link, st.sg, a.buf);
    } else if PackFrame(link, st.sender, st.sg, a.m.def, a.m.values, false).Some? {
      SendTicks(link, st.sender, st.sg, a.m.def, a.m.values);
    }
  }

  lemma ActMakes(link: Network, st: Station, a: Act, key: bytes)
    requires link.version.V2? && Signs(st.sg, key) && Known(link, a)
    ensures var s := DoAct(link, st, a).0;
            s.Some? && s.value.time < TIME_LIMIT ==> Authentic(link, key, s.value.frame, IdOf(st), s.value.time)
  {
    if a.Sends? && PackFrame(link, st.sender, st.sg, a.m.def, a.m.values, false).Some?
       && st.sg.timestamp < TIME_LIMIT {
      PackedIsAuthentic(link, st.sender, st.sg, a.m.def, a.m.values, key);
    }
  }

  /** A MAVLink object's acts are such acts. */
  lemma ActsAreSuch(link: Network, key: bytes)
    requires link.version.V2?
    ensures KeepsSigner(ActorOf(link)) && Ticks(ActorOf(link)) && Makes(ActorOf(link), link, key)
  {
    forall st: Station, a
      ensures var st' := ActorOf(link)(st, a).1;
              IdOf(st') == IdOf(st) && st'.sg.signOutgoing == st.sg.signOutgoing && st'.sg.secretKey == st.sg.secretKey
    {
      ActKeepsSigner(link, st, a);
    }
    forall st: Station, a | st.sg.signOutgoing
      ensures var (s, st') := ActorOf(link)(st, a);
              if s.Some? then s.value.time == st.sg.timestamp && st'.sg.timestamp == st.sg.timestamp + 1
              else st'.sg.timestamp >= st.sg.timestamp && (a.Sends? ==> st' == st)
    {
      ActTicks(link, st, a);
    }
    forall st: Station, a | Signs(st.sg, key) && Known(link, a)
      ensures var s := ActorOf(link)(st, a).0;
              s.Some? && s.value.time < TIME_LIMIT ==> Authentic(link, key, s.value.frame, IdOf(st), s.value.time)
    {
      ActMakes(link, st, a, key);
    }
  }

  /** The n-th frame of a run is authentic with the time it was signed with. */
  lemma {:induction false} RunIsAuthentic(act: Actor, link: Link, st: Station, acts: seq<Act>, key: bytes, n: nat)
    requires KeepsSigner(act) && Makes(act, link, key) && AllKnown(link, acts) && Signs(st.sg, key)
    requires n < |SendRun(act, st, acts)| && SendRun(act, st, acts)[n].time < TIME_LIMIT
    ensures var s := SendRun(act, st, acts)[n]; Authentic(link, key, s.frame, IdOf(st), s.time)
    decreases |acts|
  {
    var (s, st') := act(st, acts[0]);
    assert Known(link, acts[0]);
    if s.None? {
      RunIsAuthentic(act, link, st', acts[1..], key, n);
    } else if n > 0 {
      RunIsAuthentic(act, link, st', acts[1..], key, n - 1);
    }
  }

  /** Later frames carry later times, whatever the sender hears in between. */
  ghost predicate Rising(sent: seq<Signed>, from: nat) {
    && (forall n :: 0 <= n < |sent| ==> from <= sent[n].time)
    && (forall i, j :: 0 <= i < j < |sent| ==> sent[i].time < sent[j].time)
  }

  lemma RisingCons(s: Signed, more: seq<Signed>, from: nat)
    requires from <= s.time && Rising(more, s.time + 1)
    ensures Rising([s] + more, from)
  {
  }

  lemma {:induction false} RunRises(act: Actor, st: Station, acts: seq<Act>)
    requires KeepsSigner(act) && Ticks(act) && st.sg.signOutgoing
    ensures Rising(SendRun(act, st, acts), st.sg.timestamp)
    decreases |acts|
  {
    if acts != [] {
      var (s, st') := act(st, acts[0]);
      var more := SendRun(act, st', acts[1..]);
      RunRises(act, st', acts[1..]);
      if s.Some? {
        RisingCons(s.value, more, st.sg.timestamp);
      } else {
        assert [] + more == more;
      }
    }
  }

  /** A sender that hears nothing in between signs with consecutive times. */
  lemma {:induction false} UndisturbedRun(act: Actor, st: Station, acts: seq<Act>, n: nat)
    requires KeepsSigner(act) && Ticks(act) && st.sg.signOutgoing && forall a :: a in acts ==> a.Sends?
    requires n < |SendRun(act, st, acts)|
    ensures SendRun(act, st, acts)[n].time == st.sg.timestamp + n
    decreases |acts|
  {
    var (s, st') := act(st, acts[0]);
    assert acts[0] in acts;
    if s.None? {
      UndisturbedRun(act, st', acts[1..], n);
    } else if n > 0 {
      UndisturbedRun(act, st', acts[1..], n - 1);
    }
  }

  // ----- What one frame does to a receiver

  /** What decode leaves behind and whether it accepts, without the message it builds. */
  lemma DecodeVerdict(link: Link, sg: Signing, buf: bytes)
    requires link.Valid()
    ensures var (d, sg') := Decode(link, sg, buf);
            if FrameFault(link, buf).Some? then !d.Ok? && sg' == sg
            else
              var v := Authenticate(link, sg, buf, ParseHeader(buf));
              sg' == v.sg && d.Ok? == v.accept && (d.Ok? ==> d.msg.signed == v.sigOk)
  {
  }

  lemma VerdictClock(link: Link, sg: Signing, buf: bytes, h: Header)
    requires |buf| >= TailLen(h)
    ensures var v := Authenticate(link, sg, buf, h);
            && v.sg.timestamp >= sg.timestamp && v.sg.secretKey == sg.secretKey
            && (v.sigOk ==> v.accept && |buf| >= SIGNATURE_LEN && v.sg.timestamp >= SignatureTime(buf))
  {
  }

  /** The clock never goes back, and is never behind a signature that was accepted. */
  lemma ClockNeverDecreases(link: Link, sg: Signing, buf: bytes)
    requires link.Valid()
    ensures var (d, sg') := Decode(link, sg, buf);
            && sg'.timestamp >= sg.timestamp && sg'.secretKey == sg.secretKey
            && (d.Ok? && d.msg.signed ==> |buf| >= SIGNATURE_LEN && sg'.timestamp >= SignatureTime(buf))
  {
    DecodeVerdict(link, sg, buf);
    if FrameFault(link, buf).None? {
      VerdictClock(link, sg, buf, ParseHeader(buf));
    }
  }

  lemma VerdictKeepsSigner(link: Link, sg: Signing, buf: bytes, h: Header)
    requires |buf| >= TailLen(h)
    ensures var v := Authenticate(link, sg, buf, h);
            v.sg.linkId == sg.linkId && v.sg.signOutgoing == sg.signOutgoing
  {
  }

  /** Decoding does not change what its object signs with, except that its timestamp may move on. */
  lemma DecodeKeepsSigner(link: Link, sg: Signing, buf: bytes)
    requires link.Valid()
    ensures var sg' := Decode(link, sg, buf).1;
            && sg'.linkId == sg.linkId && sg'.signOutgoing == sg.signOutgoing && sg'.secretKey == sg.secretKey
            && sg'.timestamp >= sg.timestamp
  {
    ClockNeverDecreases(link, sg, buf);
    DecodeVerdict(link, sg, buf);
    if FrameFault(link, buf).None? {
      VerdictKeepsSigner(link, sg, buf, ParseHeader(buf));
    }
  }

  /** An undamaged frame with a signature block of that stream, whether or not the signature is right. */
  ghost predicate Claims(link: Link, buf: bytes, id: StreamId) {
    && FrameFault(link, buf).None? && TailLen(ParseHeader(buf)) == 2 + SIGNATURE_LEN
    && |buf| >= SIGNATURE_LEN && StreamKey(buf, ParseHeader(buf)) == id
  }

  /** What the stream table holds for a stream. */
  function Entry(sg: Signing, id: StreamId): Option<nat> {
    if id in sg.streams then Some(sg.streams[id]) else None
  }

  /**
   The entry a frame leaves: the one there was; for a new stream, the time of a frame that claims it and is not too
   old, before its signature is looked at.
   */
  ghost function EntryAfter(link: Link, sg: Signing, buf: bytes, id: StreamId): Option<nat> {
    if id in sg.streams then Some(sg.streams[id])
    else if sg.secretKey.Some? && Claims(link, buf, id) && SignatureTime(buf) + NEW_STREAM_SLACK >= sg.timestamp
    then Some(SignatureTime(buf))
    else None
  }

  lemma VerdictEnters(link: Link, sg: Signing, buf: bytes, id: StreamId)
    requires FrameFault(link, buf).None?
    ensures Entry(Authenticate(link, sg, buf, ParseHeader(buf)).sg, id) == EntryAfter(link, sg, buf, id)
  {
  }

  /** Every frame, of whatever sender, leaves exactly that entry. */
  lemma EntryIsFirstClaim(link: Link, sg: Signing, buf: bytes, id: StreamId)
    requires link.Valid()
    ensures Entry(Decode(link, sg, buf).1, id) == EntryAfter(link, sg, buf, id)
  {
    DecodeVerdict(link, sg, buf);
    if FrameFault(link, buf).None? {
      VerdictEnters(link, sg, buf, id);
    }
  }

  /** Whether the time of a frame is acceptable: above the stream's entry, or not too old for a new stream. */
  predicate InTime(sg: Signing, id: StreamId, time: nat) {
    if id in sg.streams then time > sg.streams[id] else time + NEW_STREAM_SLACK >= sg.timestamp
  }

  /** An authentic frame is accepted as signed exactly when its time is. */
  lemma AuthenticAccepted(link: Link, sg: Signing, buf: bytes, key: bytes, id: StreamId, time: nat)
    requires link.Valid() && sg.secretKey == Some(key) && Authentic(link, key, buf, id, time)
    ensures var (d, sg') := Decode(link, sg, buf);
            && (d.Ok? && d.msg.signed <==> InTime(sg, id, time))
            && (InTime(sg, id, time) ==>
                  sg'.streams == if id in sg.streams then sg.streams else sg.streams[id := time])
  {
  }

  // ----- A receiver's run

  /** What happens at a receiver: a frame of the sender's run, a frame from elsewhere, or a signed send of its own. */
  datatype Delivery = Ours(index: nat) | Foreign(buf: bytes) | OwnSend

  /** Frames of the run may be lost but are not reordered or repeated; what else happens is arbitrary. */
  predicate InOrder(ds: seq<Delivery>, from: nat, count: nat)
    decreases |ds|
  {
    ds == [] ||
    match ds[0]
    case Ours(i) => from <= i < count && InOrder(ds[1..], i + 1, count)
    case _ => InOrder(ds[1..], from, count)
  }

  /** The first frame of the run to arrive. */
  function FirstOwn(ds: seq<Delivery>): Option<nat>
    decreases |ds|
  {
    if ds == [] then None
    else
      match ds[0]
      case Ours(i) => Some(i)
      case _ => FirstOwn(ds[1..])
  }

  lemma {:induction false} FirstOwnFrom(ds: seq<Delivery>, from: nat, count: nat)
    requires InOrder(ds, from, count)
    ensures FirstOwn(ds).Some? ==> from <= FirstOwn(ds).value < count
    decreases |ds|
  {
    if ds != [] && !ds[0].Ours? {
      FirstOwnFrom(ds[1..], from, count);
    }
  }

  /** A receiver as it is heard by others: whether it accepts a frame as signed, and its signing state after it. */
  type Hearer = (Signing, bytes) -> (bool, Signing)

  /** What a delivery does: whether a frame was accepted as signed, and the signing state after it. */
  function Heard(hear: Hearer, sg: Signing, sent: seq<Signed>, d: Delivery): (bool, Signing)
    requires d.Ours? ==> d.index < |sent|
  {
    match d
    case Ours(i) => hear(sg, sent[i].frame)
    case Foreign(b) => hear(sg, b)
    case OwnSend => (false, sg.(timestamp := sg.timestamp + 1))
  }

  function HearerOf(link: Network): Hearer {
    (sg: Signing, buf: bytes) => var (d, sg') := Decode(link, sg, buf); (d.Ok? && d.msg.signed, sg')
  }

  ghost predicate KeepsKey(hear: Hearer) {
    forall sg, buf :: hear(sg, buf).1.secretKey == sg.secretKey
  }

  ghost predicate Enters(hear: Hearer, link: Link) {
    forall sg, buf, id :: Entry(hear(sg, buf).1, id) == EntryAfter(link, sg, buf, id)
  }

  ghost predicate AcceptsInTime(hear: Hearer, link: Link, key: bytes) {
    forall sg: Signing, buf, id, time :: sg.secretKey == Some(key) && Authentic(link, key, buf, id, time) ==>
      hear(sg, buf).0 == InTime(sg, id, time)
  }

  /** decode, with the right key, is such a receiver. */
  lemma DecodeHears(link: Network, key: bytes)
    ensures KeepsKey(HearerOf(link)) && Enters(HearerOf(link), link) && AcceptsInTime(HearerOf(link), link, key)
  {
    forall sg, buf ensures HearerOf(link)(sg, buf).1.secretKey == sg.secretKey {
      ClockNeverDecreases(link, sg, buf);
    }
    forall sg, buf, id ensures Entry(HearerOf(link)(sg, buf).1, id) == EntryAfter(link, sg, buf, id) {
      EntryIsFirstClaim(link, sg, buf, id);
    }
    forall sg: Signing, buf, id, time | sg.secretKey == Some(key) && Authentic(link, key, buf, id, time)
      ensures HearerOf(link)(sg, buf).0 == InTime(sg, id, time)
    {
      AuthenticAccepted(link, sg, buf, key, id, time);
    }
  }

  /** Every frame of the run that arrives is accepted with a good signature. */
  ghost predicate AllAccepted(hear: Hearer, sg: Signing, sent: seq<Signed>, ds: seq<Delivery>)
    requires Indexed(ds, |sent|)
    decreases |ds|
  {
    ds == [] ||
    var (accepted, sg') := Heard(hear, sg, sent, ds[0]);
    (ds[0].Ours? ==> accepted) && AllAccepted(hear, sg', sent, ds[1..])
  }

  ghost predicate Indexed(ds: seq<Delivery>, count: nat) {
    forall k :: 0 <= k < |ds| && ds[k].Ours? ==> ds[k].index < count
  }

  /** The time of the first frame of the run to arrive is acceptable when it does. */
  ghost predicate InTimeAtFirst(hear: Hearer, sg: Signing, sent: seq<Signed>, ds: seq<Delivery>, id: StreamId)
    requires Indexed(ds, |sent|)
    decreases |ds|
  {
    ds == [] ||
    if ds[0].Ours? then InTime(sg, id, sent[ds[0].index].time)
    else InTimeAtFirst(hear, Heard(hear, sg, sent, ds[0]).1, sent, ds[1..], id)
  }

  ghost predicate RunOf(link: Link, sent: seq<Signed>, key: bytes, id: StreamId) {
    Rising(sent, 0) && forall n :: 0 <= n < |sent| ==> Authentic(link, key, sent[n].frame, id, sent[n].time)
  }

  lemma {:induction false} InOrderIsIndexed(ds: seq<Delivery>, from: nat, count: nat)
    requires InOrder(ds, from, count)
    ensures Indexed(ds, count)
    decreases |ds|
  {
    if ds != [] {
      InOrderIsIndexed(ds[1..], if ds[0].Ours? then ds[0].index + 1 else from, count);
      assert ds == [ds[0]] + ds[1..];
    }
  }

  /** A receiver with the key, and a sender's run for it. */
  ghost predicate Shared(hear: Hearer, link: Link, key: bytes, sent: seq<Signed>, id: StreamId) {
    && KeepsKey(hear) && Enters(hear, link) && AcceptsInTime(hear, link, key) && RunOf(link, sent, key, id)
  }

  /** A stream that has an entry keeps it, whatever happens. */
  lemma EntryStays(hear: Hearer, link: Link, sg: Signing, sent: seq<Signed>, d: Delivery, id: StreamId)
    requires Enters(hear, link) && (d.Ours? ==> d.index < |sent|) && id in sg.streams
    ensures var sg' := Heard(hear, sg, sent, d).1; id in sg'.streams && sg'.streams[id] == sg.streams[id]
  {
    if !d.OwnSend? {
      var buf := if d.Ours? then sent[d.index].frame else d.buf;
      assert Entry(hear(sg, buf).1, id) == EntryAfter(link, sg, buf, id);
    }
  }

  lemma OursHeard(hear: Hearer, link: Link, sg: Signing, sent: seq<Signed>, i: nat, key: bytes, id: StreamId)
    requires Shared(hear, link, key, sent, id) && sg.secretKey == Some(key) && i < |sent|
    ensures hear(sg, sent[i].frame).0 == InTime(sg, id, sent[i].time)
    ensures InTime(sg, id, sent[i].time) ==>
              && id in hear(sg, sent[i].frame).1.streams
              && hear(sg, sent[i].frame).1.streams[id] <= sent[i].time
  {
    assert Authentic(link, key, sent[i].frame, id, sent[i].time);
    assert Entry(hear(sg, sent[i].frame).1, id) == EntryAfter(link, sg, sent[i].frame, id);
  }

  lemma KeyStays(hear: Hearer, sg: Signing, sent: seq<Signed>, d: Delivery)
    requires KeepsKey(hear) && (d.Ours? ==> d.index < |sent|)
    ensures Heard(hear, sg, sent, d).1.secretKey == sg.secretKey
  {
  }

  /**
   Once a stream is known, every frame of it that arrives in order is accepted, whatever else happens, exactly when the
   first is later than the stream's entry.
   */
  lemma {:induction false} KnownStreamAccepted(hear: Hearer, link: Link, sg: Signing, sent: seq<Signed>,
                                               ds: seq<Delivery>, from: nat, key: bytes, id: StreamId)
    requires Shared(hear, link, key, sent, id) && sg.secretKey == Some(key)
    requires Indexed(ds, |sent|) && InOrder(ds, from, |sent|) && id in sg.streams
    ensures FirstOwn(ds).Some? ==> FirstOwn(ds).value < |sent|
    ensures AllAccepted(hear, sg, sent, ds)
       <==> FirstOwn(ds).None? || sg.streams[id] < sent[FirstOwn(ds).value].time
    decreases |ds|
  {
    FirstOwnFrom(ds, from, |sent|);
    if ds != [] {
      var (accepted, sg') := Heard(hear, sg, sent, ds[0]);
      var from' := if ds[0].Ours? then ds[0].index + 1 else from;
      InOrderIsIndexed(ds[1..], from', |sent|);
      EntryStays(hear, link, sg, sent, ds[0], id);
      KeyStays(hear, sg, sent, ds[0]);
      KnownStreamAccepted(hear, link, sg', sent, ds[1..], from', key, id);
      if ds[0].Ours? {
        OursHeard(hear, link, sg, sent, ds[0].index, key, id);
        FirstOwnFrom(ds[1..], from', |sent|);
      }
    }
  }

  /**
   With a shared key, a receiver accepts every frame of a run that arrives in order, whatever is lost and whatever
   else it hears or sends in between, exactly when the time of the first that arrives is acceptable then.
   */
  lemma {:induction false} RunAccepted(hear: Hearer, link: Link, sg: Signing, sent: seq<Signed>, ds: seq<Delivery>,
                                       from: nat, key: bytes, id: StreamId)
    requires Shared(hear, link, key, sent, id) && sg.secretKey == Some(key)
    requires Indexed(ds, |sent|) && InOrder(ds, from, |sent|)
    ensures AllAccepted(hear, sg, sent, ds) <==> InTimeAtFirst(hear, sg, sent, ds, id)
    decreases |ds|
  {
    if ds != [] {
      var (accepted, sg') := Heard(hear, sg, sent, ds[0]);
      var from' := if ds[0].Ours? then ds[0].index + 1 else from;
      InOrderIsIndexed(ds[1..], from', |sent|);
      KeyStays(hear, sg, sent, ds[0]);
      if !ds[0].Ours? {
        RunAccepted(hear, link, sg', sent, ds[1..], from, key, id);
      } else {
        OursHeard(hear, link, sg, sent, ds[0].index, key, id);
        if accepted {
          FirstOwnFrom(ds[1..], from', |sent|);
          KnownStreamAccepted(hear, link, sg', sent, ds[1..], from', key, id);
        }
      }
    }
  }

  /**
   What a frame that claims the stream before first contact does, rightly signed or not: if it is not too old, the
   run is accepted exactly when its first frame to arrive is later than that one; if it is, the stream stays new.
   */
  lemma {:induction false} FirstClaimDecides(hear: Hearer, link: Link, sg: Signing, sent: seq<Signed>, claim: bytes,
                                             ds: seq<Delivery>, key: bytes, id: StreamId)
    requires Shared(hear, link, key, sent, id) && sg.secretKey == Some(key) && id !in sg.streams
    requires Claims(link, claim, id) && Indexed(ds, |sent|) && InOrder(ds, 0, |sent|)
    ensures Indexed([Foreign(claim)] + ds, |sent|) && (FirstOwn(ds).Some? ==> FirstOwn(ds).value < |sent|)
    ensures SignatureTime(claim) + NEW_STREAM_SLACK >= sg.timestamp ==>
              (AllAccepted(hear, sg, sent, [Foreign(claim)] + ds)
               <==> FirstOwn(ds).None? || SignatureTime(claim) < sent[FirstOwn(ds).value].time)
    ensures SignatureTime(claim) + NEW_STREAM_SLACK < sg.timestamp ==> id !in hear(sg, claim).1.streams
  {
    var all, sg' := [Foreign(claim)] + ds, hear(sg, claim).1;
    assert all[0] == Foreign(claim) && all[1..] == ds;
    assert Entry(sg', id) == EntryAfter(link, sg, claim, id);
    FirstOwnFrom(ds, 0, |sent|);
    if SignatureTime(claim) + NEW_STREAM_SLACK >= sg.timestamp {
      KnownStreamAccepted(hear, link, sg', sent, ds, 0, key, id);
    }
  }

  /**
   The whole way, from one MAVLink object that sends and hears to another that hears and sends, with all timestamps
   below 2 to the 48.
   */
  lemma SentRunAccepted(link: Network, tx: Station, acts: seq<Act>, rx: Signing, ds: seq<Delivery>, key: bytes)
    requires link.version.V2? && AllKnown(link, acts) && Signs(tx.sg, key) && rx.secretKey == Some(key)
    requires forall s :: s in SendRun(ActorOf(link), tx, acts) ==> s.time < TIME_LIMIT
    requires InOrder(ds, 0, |SendRun(ActorOf(link), tx, acts)|)
    ensures var sent := SendRun(ActorOf(link), tx, acts);
            && Indexed(ds, |sent|)
            && (AllAccepted(HearerOf(link), rx, sent, ds)
                <==> InTimeAtFirst(HearerOf(link), rx, sent, ds, IdOf(tx)))
  {
    var act, sent := ActorOf(link), SendRun(ActorOf(link), tx, acts);
    ActsAreSuch(link, key);
    forall n | 0 <= n < |sent| ensures Authentic(link, key, sent[n].frame, IdOf(tx), sent[n].time) {
      assert sent[n] in sent;
      RunIsAuthentic(act, link, tx, acts, key, n);
    }
    RunRises(act, tx, acts);
    InOrderIsIndexed(ds, 0, |sent|);
    DecodeHears(link, key);
    RunAccepted(HearerOf(link), link, rx, sent, ds, 0, key, IdOf(tx));
  }

  /** The clock after a run of frames, and every time that was accepted as signed on the way. */
  function ClockAfter(link: Link, sg: Signing, bufs: seq<bytes>): nat
    requires link.Valid()
    decreases |bufs|
  {
    if bufs == [] then sg.timestamp else ClockAfter(link, Decode(link, sg, bufs[0]).1, bufs[1..])
  }

  function AcceptedTimes(link: Link, sg: Signing, bufs: seq<bytes>): seq<nat>
    requires link.Valid()
    decreases |bufs|
  {
    if bufs == [] then []
    else
      var (d, sg') := Decode(link, sg, bufs[0]);
      (if d.Ok? && d.msg.signed && |bufs[0]| >= SIGNATURE_LEN then [SignatureTime(bufs[0])] else [])
      + AcceptedTimes(link, sg', bufs[1..])
  }

  /** Over any run of any frames the clock never goes back and ends at or above every accepted time. */
  lemma {:induction false} ClockIsAboveAll(link: Link, sg: Signing, bufs: seq<bytes>)
    requires link.Valid()
    ensures ClockAfter(link, sg, bufs) >= sg.timestamp
    ensures forall t :: t in AcceptedTimes(link, sg, bufs) ==> t <= ClockAfter(link, sg, bufs)
    decreases |bufs|
  {
    if bufs != [] {
      ClockNeverDecreases(link, sg, bufs[0]);
      ClockIsAboveAll(link, Decode(link, sg, bufs[0]).1, bufs[1..]);
    }
  }
}
