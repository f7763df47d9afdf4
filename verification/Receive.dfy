/**
 recv_msg of pymavlink/mavutil.py over a byte source that may return less than it was asked for, or nothing.
 */
module Receive {
  import opened Bytes
  import opened Frame
  import opened Stream
  import opened Loss

  /** How many bytes a read of n yields: short and empty reads are listed in caps, then every read is full. */
  function ReadSize(n: nat, available: nat, caps: seq<nat>): (k: nat)
    requires n >= 1
    ensures k <= n && k <= available && (k == 0 && available > 0 ==> caps != [] && caps[0] == 0)
  {
    Min(available, if caps == [] then n else Min(n, caps[0]))
  }

  function Later(caps: seq<nat>): seq<nat> { if caps == [] then [] else caps[1..] }

  /** The receiver, what its source still holds, and target_system and target_component. */
  datatype Port = Port(rx: Rx, input: bytes, caps: seq<nat>, target: Source)

  /** Bytes that have not become messages. */
  function Pending(p: Port): bytes { p.rx.rest + p.input }

  /** One turn of the loop of recv_msg: read what the parser asks for, parse. */
  function Turn(decode: Decoder, p: Port): (r: (ParseResult, Port, nat))
    requires p.rx.expected >= 8
    ensures r.1.rx.expected >= 8 && r.2 <= |p.input| && |r.1.input| == |p.input| - r.2
    ensures !r.0.Raised? && r.1.target == p.target && r.1.caps == Later(p.caps)
    ensures r.2 == 0 && p.input != [] ==> p.caps != [] && p.caps[0] == 0
    ensures |Pending(r.1)| <= |Pending(p)| && (r.0.Got? ==> |Pending(r.1)| < |Pending(p)|)
  {
    var k := ReadSize(BytesNeeded(p.rx), |p.input|, p.caps);
    var (m, rx) := ParseChar(decode, true, p.rx, p.input[..k]);
    (m, p.(rx := rx, input := p.input[k..], caps := Later(p.caps)), k)
  }

  /** The loop of recv_msg: a message, or None when nothing is complete and a read yields nothing. */
  function ReceiveLoop(decode: Decoder, p: Port): (r: (Option<Received>, Port))
    requires p.rx.expected >= 8
    ensures r.1.rx.expected >= 8 && r.1.target == p.target && |r.1.caps| <= |p.caps|
    ensures |Pending(r.1)| <= |Pending(p)| && (r.0.Some? ==> |Pending(r.1)| < |Pending(p)|)
    ensures r.0.None? && r.1.input != [] ==> |r.1.caps| < |p.caps|
    decreases |p.input|
  {
    var (m, q, numnew) := Turn(decode, p);
    if m.Got? then (Some(m.r), q)
    else if numnew == 0 then (None, q)
    else ReceiveLoop(decode, q)
  }

  const HEARTBEAT := "HEARTBEAT"
  const COMP_ID_GIMBAL := 154

  /** The target after a message: the sender of the last heartbeat that is not a gimbal's. */
  function Aim(target: Source, r: Received): Source {
    if r.Good? && r.msg.def.name == HEARTBEAT && r.msg.header.comp != COMP_ID_GIMBAL then SourceOf(r.msg.header)
    else target
  }

  /** The link id of a rightly signed message of the target is adopted by a port that has none of its own. */
  function Adopt(sg: Signing, target: Source, r: Received): Signing {
    if r.Good? && r.msg.signed && sg.linkId == 0 && r.msg.linkId.Some? && r.msg.linkId.value != 0
       && target == SourceOf(r.msg.header)
    then sg.(linkId := r.msg.linkId.value)
    else sg
  }

  /** The parts of post_message that reach the receiver. */
  function Post(p: Port, r: Received): (q: Port)
    ensures q.rx.rest == p.rx.rest && q.rx.expected == p.rx.expected && q.input == p.input && q.caps == p.caps
    ensures q.rx.sg == p.rx.sg.(linkId := q.rx.sg.linkId)
  {
    var target := Aim(p.target, r);
    p.(target := target, rx := p.rx.(sg := Adopt(p.rx.sg, target, r)))
  }

  /** recv_msg. */
  function RecvMsg(decode: Decoder, p: Port): (r: (Option<Received>, Port))
    requires p.rx.expected >= 8
    ensures r.1.rx.expected >= 8
    ensures |Pending(r.1)| <= |Pending(p)| && (r.0.Some? ==> |Pending(r.1)| < |Pending(p)|)
    ensures r.0.None? && r.1.input != [] ==> |r.1.caps| < |p.caps|
  {
    var (m, q) := ReceiveLoop(decode, p);
    if m.None? then (m, q) else (m, Post(q, m.value))
  }

  /** recv_msg called again and again, whether or not it returns something, until the source is used up. */
  function RecvAll(decode: Decoder, p: Port): seq<Received>
    requires p.rx.expected >= 8
    decreases |Pending(p)|, |p.caps|
  {
    var (m, q) := RecvMsg(decode, p);
    if m.Some? then [m.value] + RecvAll(decode, q)
    else if q.input != [] then RecvAll(decode, q)
    else []
  }

  // ----- Every byte is read

  /** What a turn, or the whole loop, does to the stream of pending bytes. */
  ghost predicate Takes(decode: Decoder, p: Port, m: Option<Received>, q: Port) {
    var next := NextPiece(Pending(p));
    match m
    case None => q.rx.sg == p.rx.sg && Pending(q) == Pending(p) && (q.input == [] ==> next.None?)
    case Some(r) =>
      && next.Some? && (r, q.rx.sg) == ReadPiece(decode, p.rx.sg, next.value)
      && Pending(q) == After(Pending(p))
  }

  lemma ParseTakes(decode: Decoder, rx: Rx, c: bytes)
    requires rx.expected >= 8
    ensures var (m, rx') := ParseChar(decode, true, rx, c);
            match NextPiece(rx.rest + c)
            case None => m.Nothing? && rx'.rest == rx.rest + c && rx'.sg == rx.sg
            case Some(p) =>
              && m == Got(ReadPiece(decode, rx.sg, p).0) && rx'.sg == ReadPiece(decode, rx.sg, p).1
              && rx'.rest == After(rx.rest + c)
  {
    EmptyChunk(Extend(rx, c));
    ParseTakesNextPiece(decode, Extend(rx, c));
  }

  /** A turn takes a piece if what has been read holds one. */
  lemma TurnTakes(decode: Decoder, p: Port)
    requires p.rx.expected >= 8
    ensures var (m, q, _) := Turn(decode, p); Takes(decode, p, if m.Got? then Some(m.r) else None, q)
  {
    var k := ReadSize(BytesNeeded(p.rx), |p.input|, p.caps);
    var c, later := p.input[..k], p.input[k..];
    var had := p.rx.rest + c;
    assert Pending(p) == had + later;
    ParseTakes(decode, p.rx, c);
    if NextPiece(had).Some? {
      AfterExtended(had, later);
    } else if later == [] {
      assert had + later == had;
    }
  }

  lemma {:induction false} LoopTakes(decode: Decoder, p: Port)
    requires p.rx.expected >= 8
    ensures var (m, q) := ReceiveLoop(decode, p); Takes(decode, p, m, q)
    decreases |p.input|
  {
    TurnTakes(decode, p);
    var (m, q, numnew) := Turn(decode, p);
    if !m.Got? && numnew != 0 {
      LoopTakes(decode, q);
    }
  }

  /** Two signing states that differ at most in the link id. */
  ghost predicate SameButLink(a: Signing, b: Signing) { b == a.(linkId := b.linkId) }

  /** Decoding neither reads the link id nor changes it. */
  ghost predicate IgnoresLinkId(decode: Decoder) {
    forall sg: Signing, f, id ::
      decode(sg.(linkId := id), f) == (decode(sg, f).0, decode(sg, f).1.(linkId := id))
  }

  lemma CheckIgnoresLinkId(link: Link, sg: Signing, buf: bytes, h: Header, id: int)
    requires |buf| >= SIGNATURE_LEN && sg.secretKey.Some?
    ensures var (ok, next) := CheckSignature(link, sg, buf, h);
            CheckSignature(link, sg.(linkId := id), buf, h) == (ok, next.(linkId := id))
  {
  }

  lemma AskIgnoresLinkId(sg: Signing, msgId: nat, id: int)
    ensures AskUser(sg.(linkId := id), msgId) == (AskUser(sg, msgId).0, AskUser(sg, msgId).1.(linkId := id))
  {
  }

  lemma SignedIgnoresLinkId(link: Link, sg: Signing, buf: bytes, h: Header, id: int)
    requires |buf| >= TailLen(h) == 2 + SIGNATURE_LEN && sg.secretKey.Some?
    ensures var v := Authenticate(link, sg, buf, h);
            Authenticate(link, sg.(linkId := id), buf, h) == v.(sg := v.sg.(linkId := id))
  {
    var counted := sg.(sigCount := sg.sigCount + 1);
    CheckIgnoresLinkId(link, counted, buf, h, id);
    var (ok, next) := CheckSignature(link, counted, buf, h);
    if !ok {
      AskIgnoresLinkId(next.(badsigCount := next.badsigCount + 1), h.msgId, id);
    }
  }

  lemma AuthenticateIgnoresLinkId(link: Link, sg: Signing, buf: bytes, h: Header, id: int)
    requires |buf| >= TailLen(h)
    ensures var v := Authenticate(link, sg, buf, h);
            Authenticate(link, sg.(linkId := id), buf, h) == v.(sg := v.sg.(linkId := id))
  {
    if sg.secretKey.Some? && TailLen(h) == 2 + SIGNATURE_LEN {
      SignedIgnoresLinkId(link, sg, buf, h, id);
    } else {
      AskIgnoresLinkId(sg, h.msgId, id);
    }
  }

  lemma DecodeIgnoresLinkId(link: Network, sg: Signing, f: FrameBytes, id: int)
    ensures DecoderOf(link)(sg.(linkId := id), f)
         == (DecoderOf(link)(sg, f).0, DecoderOf(link)(sg, f).1.(linkId := id))
  {
    if FrameFault(link, f).None? {
      AuthenticateIgnoresLinkId(link, sg, f, ParseHeader(f), id);
    }
  }

  /** So it is with the program's decoder. */
  lemma DecoderIgnoresLinkId(link: Network)
    ensures IgnoresLinkId(DecoderOf(link))
  {
    forall sg: Signing, f, id
      ensures DecoderOf(link)(sg.(linkId := id), f)
           == (DecoderOf(link)(sg, f).0, DecoderOf(link)(sg, f).1.(linkId := id))
    {
      DecodeIgnoresLinkId(link, sg, f, id);
    }
  }

  lemma PieceIgnoresLinkId(decode: Decoder, a: Signing, b: Signing, p: Piece)
    requires IgnoresLinkId(decode) && SameButLink(a, b)
    ensures var (r, a') := ReadPiece(decode, a, p);
            var (s, b') := ReadPiece(decode, b, p);
            r == s && SameButLink(a', b')
  {
    if p.Packet? {
      assert decode(b, p.frame) == decode(a.(linkId := b.linkId), p.frame);
    }
  }

  lemma {:induction false} PiecesIgnoreLinkId(decode: Decoder, a: Signing, b: Signing, ps: seq<Piece>)
    requires IgnoresLinkId(decode) && SameButLink(a, b)
    ensures ReadPieces(decode, a, ps).0 == ReadPieces(decode, b, ps).0
    decreases |ps|
  {
    if ps != [] {
      PieceIgnoresLinkId(decode, a, b, ps[0]);
      PiecesIgnoreLinkId(decode, ReadPiece(decode, a, ps[0]).1, ReadPiece(decode, b, ps[0]).1, ps[1..]);
    }
  }

  /**
   For any bytes, noise among them, and any pattern of short and empty reads, recv_msg called again and again returns
   exactly what the whole stream holds, whatever link id it adopts on the way.
   */
  lemma {:induction false} RecvReadsAll(decode: Decoder, p: Port)
    requires p.rx.expected >= 8 && IgnoresLinkId(decode)
    ensures RecvAll(decode, p) == ReadStream(decode, p.rx.sg, Pending(p)).0
    decreases |Pending(p)|, |p.caps|
  {
    var (m, q) := ReceiveLoop(decode, p);
    LoopTakes(decode, p);
    if m.Some? {
      var b, next := Pending(p), Post(q, m.value);
      RecvReadsAll(decode, next);
      SplitFirst(b);
      ReadCons(decode, p.rx.sg, NextPiece(b).value, Split(After(b)).0);
      PiecesIgnoreLinkId(decode, q.rx.sg, next.rx.sg, Split(After(b)).0);
    } else if q.input != [] {
      RecvReadsAll(decode, q);
    }
  }

  // ----- Streams of frames

  /** A delimited frame: it starts with a marker and is as long as it announces. */
  predicate IsFrame(f: bytes) {
    |f| >= 3 && IsMarker(f[0]) && |f| == AnnouncedLength(f)
  }

  /** The parser holds the first n bytes of f and asks for no more than the rest of it, unless f is all there is. */
  ghost predicate Inside(rx: Rx, f: bytes, n: nat, last: bool)
    requires IsFrame(f)
  {
    && n < |f| && rx.rest == f[..n]
    && (if n >= 3 then rx.expected == |f| else 8 <= rx.expected && (rx.expected <= |f| || last))
  }

  lemma NeverPastTheFrame(rx: Rx, f: bytes, n: nat)
    requires IsFrame(f) && Inside(rx, f, n, false)
    ensures n + BytesNeeded(rx) <= |f|
  {
  }

  /** The parser after k more bytes of the frame: its message when that was all of it, else nothing yet. */
  ghost predicate Advanced(decode: Decoder, rx: Rx, f: bytes, end: nat, last: bool, m: ParseResult, rx': Rx)
    requires IsFrame(f)
  {
    if end == |f| then
      && m == Got(ReadPiece(decode, rx.sg, Packet(f)).0) && rx'.sg == ReadPiece(decode, rx.sg, Packet(f)).1
      && rx'.rest == [] && rx'.expected == MarkerLen(f[0]) + 2
    else m.Nothing? && rx'.sg == rx.sg && Inside(rx', f, end, last)
  }

  lemma ParsePart(decode: Decoder, rx: Rx, f: bytes, n: nat, k: nat, last: bool)
    requires IsFrame(f) && Inside(rx, f, n, last) && n + k < |f|
    ensures var (m, rx') := ParseChar(decode, true, rx, f[n..n + k]);
            m.Nothing? && rx'.sg == rx.sg && Inside(rx', f, n + k, last)
  {
    assert rx.rest + f[n..n + k] == f[..n + k];
  }

  lemma ParseRest(decode: Decoder, rx: Rx, f: bytes, n: nat, last: bool)
    requires IsFrame(f) && Inside(rx, f, n, last)
    ensures var (m, rx') := ParseChar(decode, true, rx, f[n..]);
            && m == Got(ReadPiece(decode, rx.sg, Packet(f)).0) && rx'.sg == ReadPiece(decode, rx.sg, Packet(f)).1
            && rx'.rest == [] && rx'.expected == MarkerLen(f[0]) + 2
  {
    assert rx.rest + f[n..] == f;
    assert f[..|f|] == f;
  }

  /** What the parser holds after k more bytes of the frame. */
  lemma ParseInside(decode: Decoder, rx: Rx, f: bytes, n: nat, k: nat, last: bool)
    requires IsFrame(f) && Inside(rx, f, n, last) && n + k <= |f|
    ensures var (m, rx') := ParseChar(decode, true, rx, f[n..n + k]); Advanced(decode, rx, f, n + k, last, m, rx')
  {
    if n + k == |f| {
      assert f[n..n + k] == f[n..];
      ParseRest(decode, rx, f, n, last);
    } else {
      ParsePart(decode, rx, f, n, k, last);
    }
  }

  lemma SplitInput(f: bytes, tail: bytes, n: nat, k: nat)
    requires n + k <= |f|
    ensures (f[n..] + tail)[..k] == f[n..n + k] && (f[n..] + tail)[k..] == f[n + k..] + tail
  {
  }

  /** The receiver after a whole frame: nothing held, nothing read beyond it. */
  ghost predicate ReadWhole(decode: Decoder, p: Port, f: bytes, tail: bytes, r: (Option<Received>, Port))
    requires IsFrame(f)
  {
    && r.0 == Some(ReadPiece(decode, p.rx.sg, Packet(f)).0)
    && r.1.rx.sg == ReadPiece(decode, p.rx.sg, Packet(f)).1
    && r.1.rx.rest == [] && r.1.rx.expected == MarkerLen(f[0]) + 2
    && r.1.input == tail
  }

  /** The receiver in the middle of a frame, after an empty read: nothing lost, and the next call can go on. */
  ghost predicate Paused(p: Port, f: bytes, tail: bytes, r: (Option<Received>, Port))
    requires IsFrame(f)
  {
    && r.0.None? && r.1.rx.sg == p.rx.sg && |r.1.caps| < |p.caps|
    && Inside(r.1.rx, f, |r.1.rx.rest|, tail == []) && r.1.input == f[|r.1.rx.rest|..] + tail
  }

  /** No read that is listed yields nothing. */
  predicate NoEmptyReads(caps: seq<nat>) { 0 !in caps }

  lemma AtMostTheRest(rx: Rx, f: bytes, n: nat, tail: bytes, caps: seq<nat>)
    requires IsFrame(f) && Inside(rx, f, n, tail == [])
    ensures n + ReadSize(BytesNeeded(rx), |f| - n + |tail|, caps) <= |f|
  {
    if tail != [] {
      NeverPastTheFrame(rx, f, n);
    }
  }

  /** One turn inside a frame, for any short or empty read. */
  lemma TurnInside(decode: Decoder, p: Port, f: bytes, n: nat, tail: bytes)
    requires IsFrame(f) && Inside(p.rx, f, n, tail == []) && p.input == f[n..] + tail
    ensures var (m, q, k) := Turn(decode, p);
            && n + k <= |f| && q.input == f[n + k..] + tail
            && Advanced(decode, p.rx, f, n + k, tail == [], m, q.rx)
  {
    AtMostTheRest(p.rx, f, n, tail, p.caps);
    var k := ReadSize(BytesNeeded(p.rx), |p.input|, p.caps);
    SplitInput(f, tail, n, k);
    ParseInside(decode, p.rx, f, n, k, tail == []);
  }

  /**
   For any pattern of short and empty reads, recv_msg returns the frame's message and has read exactly the frame, or
   returns None at an empty read, still inside the frame.
   */
  lemma {:induction false} RecvFrame(decode: Decoder, p: Port, f: bytes, n: nat, tail: bytes)
    requires IsFrame(f) && Inside(p.rx, f, n, tail == []) && p.input == f[n..] + tail
    ensures var r := ReceiveLoop(decode, p);
            ReadWhole(decode, p, f, tail, r) || (!NoEmptyReads(p.caps) && Paused(p, f, tail, r))
    decreases |f| - n
  {
    TurnInside(decode, p, f, n, tail);
    var (m, q, k) := Turn(decode, p);
    if n + k == |f| {
      assert f[n + k..] + tail == tail;
    } else if k == 0 {
      assert p.caps != [] && p.caps[0] == 0;
    } else {
      RecvFrame(decode, q, f, n + k, tail);
    }
  }

  /** Frames that never make a receiver ask for more than the frame at hand, the last one excepted. */
  ghost predicate NoReadAhead(expected: nat, fs: seq<bytes>)
    decreases |fs|
  {
    fs == [] ||
    (IsFrame(fs[0]) && 8 <= expected && (expected <= |fs[0]| || |fs| == 1)
     && NoReadAhead(MarkerLen(fs[0][0]) + 2, fs[1..]))
  }

  /**
   The first request of a frame stays within it exactly when the frame is at least as long as the shortest frame
   of the version before it; so only a version 1 frame of less than 12 bytes after a version 2 frame is a problem.
   */
  lemma FirstRequest(rx: Rx, f: bytes)
    requires IsFrame(f) && rx.rest == [] && (rx.expected == 8 || rx.expected == 12)
    ensures BytesNeeded(rx) <= |f| <==> !(rx.expected == 12 && f[0] == MARKER_V1 && |f| < 12)
  {
  }

  /** A frame that arrives together with more is returned, and the rest is held. */
  lemma ParseWithMore(decode: Decoder, rx: Rx, f: bytes, more: bytes)
    requires IsFrame(f) && rx.rest == [] && rx.expected >= 8
    ensures var (m, rx') := ParseChar(decode, true, rx, f + more);
            m == Got(ReadPiece(decode, rx.sg, Packet(f)).0) && rx'.rest == more
  {
    var b := f + more;
    assert rx.rest + b == b && b[..|f|] == f && b[|f|..] == more;
  }

  /** What then goes wrong: the frame is returned, but the first bytes of whatever follows it are already taken. */
  lemma ReadsAhead(decode: Decoder, p: Port, f: bytes, tail: bytes)
    requires IsFrame(f) && f[0] == MARKER_V1 && |f| < 12 <= |f| + |tail|
    requires p.rx.rest == [] && p.rx.expected == 12 && p.input == f + tail && p.caps == []
    ensures var (m, q) := ReceiveLoop(decode, p);
            && m == Some(ReadPiece(decode, p.rx.sg, Packet(f)).0)
            && q.rx.rest == tail[..12 - |f|] && q.input == tail[12 - |f|..]
  {
    var more := tail[..12 - |f|];
    assert p.input[..12] == f + more && p.input[12..] == tail[12 - |f|..];
    ParseWithMore(decode, p.rx, f, more);
  }

  predicate StartsV2(f: bytes) { f != [] && f[0] == MARKER_V2 }

  /** No version 1 frame directly follows a version 2 frame. */
  ghost predicate VersionsKeptApart(afterV2: bool, fs: seq<bytes>)
    decreases |fs|
  {
    fs == [] || ((afterV2 ==> StartsV2(fs[0])) && VersionsKeptApart(StartsV2(fs[0]), fs[1..]))
  }

  /** Then the receiver never reads ahead. */
  lemma {:induction false} KeptApartSuffices(expected: nat, fs: seq<bytes>)
    requires (expected == 8 || expected == 12) && AllFrames(fs)
    requires VersionsKeptApart(expected == 12, fs)
    ensures NoReadAhead(expected, fs)
    decreases |fs|
  {
    if fs != [] {
      assert fs[0] in fs;
      KeptApartSuffices(MarkerLen(fs[0][0]) + 2, fs[1..]);
    }
  }

  ghost predicate AllFrames(fs: seq<bytes>) { forall f :: f in fs ==> IsFrame(f) }

  function Packets(fs: seq<bytes>): (ps: seq<Piece>)
    requires forall f :: f in fs ==> |f| >= 3
    ensures |ps| == |fs|
  {
    seq(|fs|, i requires 0 <= i < |fs| => assert fs[i] in fs; Packet(fs[i]))
  }

  lemma PacketsCons(f: bytes, rest: seq<bytes>)
    requires |f| >= 3 && AllFrames(rest)
    ensures Packets([f] + rest) == [Packet(f)] + Packets(rest)
  {
  }

  lemma ConcatCons(f: bytes, rest: seq<bytes>)
    ensures Concat([f] + rest) == f + Concat(rest)
  {
    assert ([f] + rest)[1..] == rest;
  }

  lemma FrameIsNext(f: bytes, tail: bytes)
    requires IsFrame(f)
    ensures NextPiece(f + tail) == Some(Packet(f)) && After(f + tail) == tail
  {
    assert (f + tail)[..|f|] == f && (f + tail)[|f|..] == tail;
  }

  lemma {:induction false} FramesAreSplit(fs: seq<bytes>)
    requires AllFrames(fs)
    ensures Split(Concat(fs)) == (Packets(fs), [])
    decreases |fs|
  {
    if fs != [] {
      var f, rest := fs[0], fs[1..];
      assert f in fs && fs == [f] + rest;
      ConcatCons(f, rest);
      PacketsCons(f, rest);
      FramesAreSplit(rest);
      FrameIsNext(f, Concat(rest));
      SplitFirst(f + Concat(rest));
    }
  }

  /** A stream of delimited frames is read back frame by frame, for any pattern of short and empty reads. */
  lemma RecvFrames(decode: Decoder, p: Port, fs: seq<bytes>)
    requires AllFrames(fs) && p.rx.expected >= 8 && p.rx.rest == [] && p.input == Concat(fs) && IgnoresLinkId(decode)
    ensures RecvAll(decode, p) == ReadPieces(decode, p.rx.sg, Packets(fs)).0
  {
    assert Pending(p) == Concat(fs);
    FramesAreSplit(fs);
    RecvReadsAll(decode, p);
  }

  lemma RecvWholeFrame(decode: Decoder, p: Port, f: bytes, tail: bytes)
    requires IsFrame(f) && p.rx.rest == [] && 8 <= p.rx.expected && (p.rx.expected <= |f| || tail == [])
    requires p.input == f + tail && p.caps == []
    ensures ReadWhole(decode, p, f, tail, ReceiveLoop(decode, p))
  {
    assert p.rx.rest == f[..0];
    assert f[0..] == f;
    RecvFrame(decode, p, f, 0, tail);
  }
}
