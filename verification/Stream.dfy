/**
 The incremental parser of the MAVLink class in pymavlink/generator/mavgen_python.py, first as functions of the
 bytes not yet consumed, and what it does to a whole stream.
 */
module Stream {
  import opened Bytes
  import opened Layout
  import opened Frame

  /** What the parser returns: a message, or a BAD_DATA message with the bytes it stands for. */
  datatype Received = Good(msg: Msg) | BadData(data: bytes, reason: DecodeError)

  datatype ParseResult = Nothing | Got(r: Received) | Raised(error: DecodeError)

  /** The receiving state: unconsumed bytes, expected_length, prefix flag, signing state and counters. */
  datatype Rx = Rx(rest: bytes, expected: nat, prefixError: bool, sg: Signing,
                   errors: nat, packets: nat, bytesIn: nat)

  /** get_msgbuf. */
  function MsgBuf(r: Received): bytes {
    match r
    case Good(m) => m.buf
    case BadData(d, _) => d
  }

  predicate IsMarker(b: byte) { b == MARKER_V1 || b == MARKER_V2 }

  function MarkerLen(b: byte): nat { HeaderLen(b == MARKER_V2) }

  /** The frame length announced by the first three bytes of a frame. */
  function AnnouncedLength(b: bytes): (n: nat)
    requires |b| >= 3
    ensures n >= MarkerLen(b[0]) + 2
  {
    MarkerLen(b[0]) + 2 + b[1] + if b[0] == MARKER_V2 && b[2] % 2 != 0 then SIGNATURE_LEN else 0
  }

  /** Long enough to announce its length. */
  type FrameBytes = f: bytes | |f| >= 3 witness [0, 0, 0]

  /**
   What a complete frame is turned into, and the signing state after it. Nothing below depends on how this is
   done; DecoderOf is how the program does it.
   */
  type Decoder = (Signing, FrameBytes) -> (Decoded, Signing)

  type Network = l: Link | l.Valid() witness Link(V1, map[], (b: bytes) => Zeros(32), (b: bytes) => 0, (d: MsgDef) => 0)

  /** The check of unknown flags, then decode. */
  function DecodeFrame(link: Network, sg: Signing, frame: FrameBytes): (Decoded, Signing) {
    if frame[0] == MARKER_V2 && frame[2] / 2 != 0 then (Failed(BadFlags), sg)
    else Decode(link, sg, frame)
  }

  function DecoderOf(link: Network): Decoder {
    (sg: Signing, frame: FrameBytes) => DecodeFrame(link, sg, frame)
  }

  /** The branch of __parse_char_legacy for a byte that starts no frame. */
  function SkipByte(robust: bool, rx: Rx): (r: (ParseResult, Rx))
    requires rx.rest != [] && rx.expected >= 8
    ensures r.1.expected >= 8 && r.1.bytesIn == rx.bytesIn && r.1.packets == rx.packets
    ensures r.1.rest == rx.rest[1..] && r.1.sg == rx.sg
  {
    var magic, rx := rx.rest[0], rx.(rest := rx.rest[1..]);
    if robust then (Got(BadData([magic], BadPrefix)), rx.(expected := 8, errors := rx.errors + 1))
    else if rx.prefixError then (Nothing, rx)
    else (Raised(BadPrefix), rx.(prefixError := true, errors := rx.errors + 1))
  }

  /** What is expected of a stream that starts with a marker, or is empty. */
  function Expect(rx: Rx): (r: Rx)
    requires rx.expected >= 8
    ensures r.expected >= 8
  {
    rx.(prefixError := false, expected := if |rx.rest| >= 3 then AnnouncedLength(rx.rest) else rx.expected)
  }

  /** Takes a complete frame off the stream. */
  function CutFrame(rx: Rx): (FrameBytes, Rx)
    requires 8 <= rx.expected <= |rx.rest|
  {
    var frame := rx.rest[..rx.expected];
    (frame, rx.(rest := rx.rest[rx.expected..], expected := MarkerLen(frame[0]) + 2))
  }

  /** What is returned for a frame that was decoded, or was not. */
  function Deliver(robust: bool, frame: FrameBytes, d: Decoded, rx: Rx): (ParseResult, Rx) {
    match d
    case Ok(m) => (Got(Good(m)), rx)
    case Failed(e) =>
      if robust then (Got(BadData(frame, e)), rx.(errors := rx.errors + 1)) else (Raised(e), rx)
  }

  /** The branch for a complete frame. */
  function TakeFrame(decode: Decoder, robust: bool, rx: Rx): (r: (ParseResult, Rx))
    requires 8 <= rx.expected <= |rx.rest|
    ensures r.1.expected >= 8 && r.1.bytesIn == rx.bytesIn && r.1.packets == rx.packets
    ensures r.1.rest == rx.rest[rx.expected..]
    ensures robust ==> r.0.Got?
  {
    var (frame, next) := CutFrame(rx);
    var (d, sg) := decode(rx.sg, frame);
    Deliver(robust, frame, d, next.(sg := sg))
  }

  /** __parse_char_legacy. */
  function ParseLegacy(decode: Decoder, robust: bool, rx: Rx): (r: (ParseResult, Rx))
    requires rx.expected >= 8
    ensures r.1.expected >= 8
    ensures r.0.Got? ==> |r.1.rest| < |rx.rest|
    ensures robust ==> !r.0.Raised?
    ensures r.1.bytesIn == rx.bytesIn && r.1.packets == rx.packets
  {
    if |rx.rest| >= 1 && !IsMarker(rx.rest[0]) then SkipByte(robust, rx)
    else
      var rx := Expect(rx);
      if |rx.rest| >= rx.expected then TakeFrame(decode, robust, rx) else (Nothing, rx)
  }

  /** parse_char. */
  function ParseChar(decode: Decoder, robust: bool, rx: Rx, c: bytes): (r: (ParseResult, Rx))
    requires rx.expected >= 8
    ensures r.1.expected >= 8 && r.1.bytesIn == rx.bytesIn + |c|
    ensures r.0.Got? ==> |r.1.rest| < |rx.rest| + |c|
    ensures robust ==> !r.0.Raised?
  {
    Counted(ParseLegacy(decode, robust, Extend(rx, c)))
  }

  function Extend(rx: Rx, c: bytes): Rx {
    rx.(rest := rx.rest + c, bytesIn := rx.bytesIn + |c|)
  }

  function Counted(r: (ParseResult, Rx)): (ParseResult, Rx) {
    if r.0.Got? then (r.0, r.1.(packets := r.1.packets + 1)) else r
  }

  lemma EmptyChunk(rx: Rx)
    ensures Extend(rx, []) == rx
  {
    assert rx.rest + [] == rx.rest;
  }

  /** A list put before the messages of a run. */
  function Onto(list: seq<Received>, d: (seq<Received>, Option<DecodeError>, Rx))
    : (seq<Received>, Option<DecodeError>, Rx)
  {
    (list + d.0, d.1, d.2)
  }

  /** The loop of parse_buffer: every message that is now complete, or the exception that ended the call. */
  function Drain(decode: Decoder, robust: bool, rx: Rx): (r: (seq<Received>, Option<DecodeError>, Rx))
    requires rx.expected >= 8
    ensures r.2.expected >= 8 && r.2.bytesIn == rx.bytesIn
    ensures robust ==> r.1.None?
    decreases |rx.rest|
  {
    EmptyChunk(rx);
    var (m, rx) := ParseChar(decode, robust, rx, []);
    match m
    case Nothing => ([], None, rx)
    case Raised(e) => ([], Some(e), rx)
    case Got(first) => Onto([first], Drain(decode, robust, rx))
  }

  /** bytes_needed. */
  function BytesNeeded(rx: Rx): (n: nat)
    ensures n >= 1
  {
    if rx.expected <= |rx.rest| then 1 else rx.expected - |rx.rest|
  }

  // ----- The stream as pieces

  datatype Piece = Junk(b: byte) | Packet(frame: FrameBytes)

  function PieceBytes(p: Piece): bytes {
    match p
    case Junk(b) => [b]
    case Packet(f) => f
  }

  /** The first complete frame or stray byte of a stream, if there is one. */
  function NextPiece(b: bytes): (r: Option<Piece>)
    ensures r.Some? ==> PieceBytes(r.value) <= b && |PieceBytes(r.value)| > 0
  {
    if b == [] then None
    else if !IsMarker(b[0]) then Some(Junk(b[0]))
    else if |b| >= 3 && |b| >= AnnouncedLength(b) then Some(Packet(b[..AnnouncedLength(b)]))
    else None
  }

  /** A stream cut into frames and stray bytes, and what is left incomplete. */
  function Split(b: bytes): (r: (seq<Piece>, bytes))
    decreases |b|
  {
    match NextPiece(b)
    case None => ([], b)
    case Some(p) =>
      var (ps, rest) := Split(b[|PieceBytes(p)|..]);
      ([p] + ps, rest)
  }

  /** What the robust parser makes of one piece. */
  function ReadPiece(decode: Decoder, sg: Signing, p: Piece): (Received, Signing)
  {
    match p
    case Junk(b) => (BadData([b], BadPrefix), sg)
    case Packet(f) =>
      var (d, sg) := decode(sg, f);
      (if d.Ok? then Good(d.msg) else BadData(f, d.error), sg)
  }

  function ReadPieces(decode: Decoder, sg: Signing, ps: seq<Piece>): (seq<Received>, Signing)
    decreases |ps|
  {
    if ps == [] then ([], sg)
    else
      var (first, sg) := ReadPiece(decode, sg, ps[0]);
      var (more, sg) := ReadPieces(decode, sg, ps[1..]);
      ([first] + more, sg)
  }

  function Bufs(rs: seq<Received>): (r: seq<bytes>)
    ensures |r| == |rs|
  {
    seq(|rs|, i requires 0 <= i < |rs| => MsgBuf(rs[i]))
  }

  /** One step of the robust parser takes exactly the next piece. */
  lemma ParseTakesNextPiece(decode: Decoder, rx: Rx)
    requires rx.expected >= 8
    ensures var (m, rx') := ParseChar(decode, true, rx, []);
            match NextPiece(rx.rest)
            case None => m.Nothing? && rx'.rest == rx.rest && rx'.sg == rx.sg
            case Some(p) =>
              && m == Got(ReadPiece(decode, rx.sg, p).0) && rx'.sg == ReadPiece(decode, rx.sg, p).1
              && rx'.rest == rx.rest[|PieceBytes(p)|..]
  {
    EmptyChunk(rx);
  }

  /** The buffer-and-index parser refines the recursive split, whatever the signing state. */
  lemma {:induction false} DrainIsSplit(decode: Decoder, rx: Rx)
    requires rx.expected >= 8
    ensures var (got, error, rx') := Drain(decode, true, rx);
            && got == ReadPieces(decode, rx.sg, Split(rx.rest).0).0
            && rx'.sg == ReadPieces(decode, rx.sg, Split(rx.rest).0).1
            && rx'.rest == Split(rx.rest).1
    decreases |rx.rest|
  {
    EmptyChunk(rx);
    ParseTakesNextPiece(decode, rx);
    var (m, rx') := ParseChar(decode, true, rx, []);
    if m.Got? {
      DrainIsSplit(decode, rx');
      var p := NextPiece(rx.rest).value;
      var ps := Split(rx'.rest).0;
      assert ([p] + ps)[1..] == ps;
    }
  }

  /** More input never changes a piece that is already complete. */
  lemma NextPieceIsStable(a: bytes, b: bytes)
    requires NextPiece(a).Some?
    ensures NextPiece(a + b) == NextPiece(a)
  {
    if IsMarker(a[0]) {
      assert (a + b)[..AnnouncedLength(a)] == a[..AnnouncedLength(a)];
    }
  }

  /** The stream after its first piece. */
  function After(b: bytes): bytes
    requires NextPiece(b).Some?
  {
    b[|PieceBytes(NextPiece(b).value)|..]
  }

  lemma SplitFirst(b: bytes)
    requires NextPiece(b).Some?
    ensures Split(b).0 == [NextPiece(b).value] + Split(After(b)).0
    ensures Split(b).1 == Split(After(b)).1
  {
  }

  lemma AfterExtended(a: bytes, b: bytes)
    requires NextPiece(a).Some?
    ensures NextPiece(a + b) == NextPiece(a)
    ensures After(a + b) == After(a) + b
  {
    NextPieceIsStable(a, b);
  }

  /** Splitting can stop anywhere and go on later. */
  lemma {:induction false} SplitResumes(a: bytes, b: bytes)
    ensures Split(a + b).0 == Split(a).0 + Split(Split(a).1 + b).0
    ensures Split(a + b).1 == Split(Split(a).1 + b).1
    decreases |a|
  {
    if NextPiece(a).Some? {
      AfterExtended(a, b);
      SplitFirst(a);
      SplitFirst(a + b);
      SplitResumes(After(a), b);
      Reassociate([NextPiece(a).value], Split(After(a)).0, Split(Split(a).1 + b).0);
    }
  }

  lemma {:induction false} ReadPiecesConcat(decode: Decoder, sg: Signing, a: seq<Piece>, b: seq<Piece>)
    ensures ReadPieces(decode, sg, a + b).0
         == ReadPieces(decode, sg, a).0 + ReadPieces(decode, ReadPieces(decode, sg, a).1, b).0
    ensures ReadPieces(decode, sg, a + b).1 == ReadPieces(decode, ReadPieces(decode, sg, a).1, b).1
    decreases |a|
  {
    if a == [] {
      assert a + b == b;
    } else {
      assert (a + b)[1..] == a[1..] + b;
      ReadPiecesConcat(decode, ReadPiece(decode, sg, a[0]).1, a[1..], b);
    }
  }

  /** parse_buffer on one chunk after another, all messages in one list. */
  function ParseChunks(decode: Decoder, rx: Rx, chunks: seq<bytes>): (r: (seq<Received>, Rx))
    requires rx.expected >= 8
    ensures r.1.expected >= 8
    decreases |chunks|
  {
    if chunks == [] then ([], rx)
    else
      var (got, _, rx) := Feed(decode, true, rx, chunks[0]);
      var (more, rx) := ParseChunks(decode, rx, chunks[1..]);
      (got + more, rx)
  }

  /** parse_buffer on one chunk: the first call of parse_char gets it, the following ones get nothing. */
  function Feed(decode: Decoder, robust: bool, rx: Rx, s: bytes): (r: (seq<Received>, Option<DecodeError>, Rx))
    requires rx.expected >= 8
    ensures r.2.expected >= 8 && r.2.bytesIn == rx.bytesIn + |s|
    ensures robust ==> r.1.None?
  {
    var (m, rx) := ParseChar(decode, robust, rx, s);
    match m
    case Nothing => ([], None, rx)
    case Raised(e) => ([], Some(e), rx)
    case Got(first) => Onto([first], Drain(decode, robust, rx))
  }

  lemma FeedIsDrain(decode: Decoder, robust: bool, rx: Rx, s: bytes)
    requires rx.expected >= 8
    ensures Feed(decode, robust, rx, s) == Drain(decode, robust, Extend(rx, s))
  {
    EmptyChunk(Extend(rx, s));
    assert ParseChar(decode, robust, rx, s) == ParseChar(decode, robust, Extend(rx, s), []);
  }

  /** The messages of a whole stream, the signing state after it, and its incomplete end. */
  function ReadStream(decode: Decoder, sg: Signing, b: bytes): (seq<Received>, Signing, bytes)
  {
    var (got, sg) := ReadPieces(decode, sg, Split(b).0);
    (got, sg, Split(b).1)
  }

  /** One parse_buffer call in robust mode. */
  lemma FeedIsSplit(decode: Decoder, rx: Rx, s: bytes)
    requires rx.expected >= 8
    ensures var (got, error, rx') := Feed(decode, true, rx, s);
            (got, rx'.sg, rx'.rest) == ReadStream(decode, rx.sg, rx.rest + s)
  {
    FeedIsDrain(decode, true, rx, s);
    DrainIsSplit(decode, Extend(rx, s));
  }

  /** Reading a stream in two parts. */
  lemma ReadResumes(decode: Decoder, sg: Signing, a: bytes, b: bytes)
    ensures var (got, sg', rest) := ReadStream(decode, sg, a);
            var (more, sg'', end) := ReadStream(decode, sg', rest + b);
            ReadStream(decode, sg, a + b) == (got + more, sg'', end)
  {
    SplitResumes(a, b);
    ReadPiecesConcat(decode, sg, Split(a).0, Split(Split(a).1 + b).0);
  }

  /**
   However a stream is cut into parse_buffer calls, with or without a signing key, the messages, the bytes left
   over and the signing state are those of the whole stream.
   */
  lemma {:induction false} ChunksDoNotMatter(decode: Decoder, rx: Rx, chunks: seq<bytes>)
    requires rx.expected >= 8 && NextPiece(rx.rest).None?
    ensures var (got, rx') := ParseChunks(decode, rx, chunks);
            && (got, rx'.sg, rx'.rest) == ReadStream(decode, rx.sg, rx.rest + Concat(chunks))
            && rx'.bytesIn == rx.bytesIn + |Concat(chunks)|
    decreases |chunks|
  {
    if chunks == [] {
      assert rx.rest + [] == rx.rest;
    } else {
      var now, later := rx.rest + chunks[0], Concat(chunks[1..]);
      FeedIsSplit(decode, rx, chunks[0]);
      SplitLeavesIncomplete(now);
      ChunksDoNotMatter(decode, Feed(decode, true, rx, chunks[0]).2, chunks[1..]);
      ReadResumes(decode, rx.sg, now, later);
      Reassociate(rx.rest, chunks[0], later);
    }
  }

  lemma {:induction false} SplitLeavesIncomplete(b: bytes)
    ensures NextPiece(Split(b).1).None?
    decreases |b|
  {
    match NextPiece(b)
    case None =>
    case Some(p) => SplitLeavesIncomplete(b[|PieceBytes(p)|..]);
  }

  /** The decoder hands over the buffer it was given. */
  ghost predicate KeepsBuffers(decode: Decoder) {
    forall sg, f :: decode(sg, f).0.Ok? ==> decode(sg, f).0.msg.buf == f
  }

  lemma DecoderKeepsBuffers(link: Network)
    ensures KeepsBuffers(DecoderOf(link))
  {
  }

  /** Every message, BAD_DATA included, carries the bytes of its piece. */
  lemma ReadPieceKeepsBytes(decode: Decoder, sg: Signing, p: Piece)
    requires KeepsBuffers(decode)
    ensures MsgBuf(ReadPiece(decode, sg, p).0) == PieceBytes(p)
  {
  }

  lemma BufsCons(first: Received, more: seq<Received>)
    ensures Concat(Bufs([first] + more)) == MsgBuf(first) + Concat(Bufs(more))
  {
    assert Bufs([first] + more)[1..] == Bufs(more);
  }

  lemma ReadCons(decode: Decoder, sg: Signing, p: Piece, ps: seq<Piece>)
    ensures ReadPieces(decode, sg, [p] + ps).0
         == [ReadPiece(decode, sg, p).0] + ReadPieces(decode, ReadPiece(decode, sg, p).1, ps).0
    ensures ReadPieces(decode, sg, [p] + ps).1 == ReadPieces(decode, ReadPiece(decode, sg, p).1, ps).1
  {
    assert ([p] + ps)[1..] == ps;
  }

  /** No byte is lost or invented: the buffers of all messages in order, then what is left, are the input. */
  lemma {:induction false} BytesAreConserved(decode: Decoder, sg: Signing, b: bytes)
    requires KeepsBuffers(decode)
    ensures var (got, _, rest) := ReadStream(decode, sg, b); Concat(Bufs(got)) + rest == b
    decreases |b|
  {
    if NextPiece(b).Some? {
      var p := NextPiece(b).value;
      var (first, sg') := ReadPiece(decode, sg, p);
      var (more, _, rest) := ReadStream(decode, sg', After(b));
      SplitFirst(b);
      ReadPieceKeepsBytes(decode, sg, p);
      BytesAreConserved(decode, sg', After(b));
      ReadCons(decode, sg, p, Split(After(b)).0);
      BufsCons(first, more);
      Reassociate(PieceBytes(p), Concat(Bufs(more)), rest);
    }
  }
}
