/**
 The incremental parser of pymavlink/generator/mavgen_python.py when it is not robust and raises what is wrong with a
 stream, and the counters it keeps in both modes.
 */
module StrictStream {
  import opened Bytes
  import opened Frame
  import opened Stream

  /** n calls of parse_char with no new input, by a caller that goes on after an exception. */
  function Calls(decode: Decoder, robust: bool, rx: Rx, n: nat): (r: (seq<ParseResult>, Rx))
    requires rx.expected >= 8
    ensures |r.0| == n && r.1.expected >= 8
    decreases n
  {
    if n == 0 then ([], rx)
    else
      var (first, rx) := ParseChar(decode, robust, rx, []);
      var (more, rx) := Calls(decode, robust, rx, n - 1);
      ([first] + more, rx)
  }

  /** A stray byte right after another one, or after one in an earlier call. */
  predicate IsQuiet(flag: bool, ps: seq<Piece>, k: nat)
    requires k < |ps|
  {
    ps[k].Junk? && if k == 0 then flag else ps[k - 1].Junk?
  }

  /**
   What call k does with piece k, of which the robust parser makes rs[k]: the same message, an exception for a frame
   that is not decoded, one exception for a run of stray bytes, and nothing for the rest of the run.
   */
  predicate IsOutcome(flag: bool, ps: seq<Piece>, rs: seq<Received>, outs: seq<ParseResult>, k: nat)
    requires k < |ps| && |rs| == |outs| == |ps|
  {
    if rs[k].Good? then outs[k] == Got(rs[k])
    else if IsQuiet(flag, ps, k) then outs[k] == Nothing
    else if ps[k].Junk? then outs[k] == Raised(BadPrefix)
    else outs[k] == Raised(rs[k].reason)
  }

  ghost predicate AreOutcomes(flag: bool, ps: seq<Piece>, rs: seq<Received>, outs: seq<ParseResult>) {
    |rs| == |outs| == |ps| && forall k :: 0 <= k < |ps| ==> IsOutcome(flag, ps, rs, outs, k)
  }

  /** How many runs of stray bytes start. */
  function Runs(flag: bool, ps: seq<Piece>): nat
    decreases |ps|
  {
    if ps == [] then 0 else (if ps[0].Junk? && !flag then 1 else 0) + Runs(ps[0].Junk?, ps[1..])
  }

  function GoodOnes(rs: seq<Received>): nat {
    if rs == [] then 0 else (if rs[0].Good? then 1 else 0) + GoodOnes(rs[1..])
  }

  function BadOnes(rs: seq<Received>): nat {
    if rs == [] then 0 else (if rs[0].BadData? then 1 else 0) + BadOnes(rs[1..])
  }

  /** One call. */
  lemma CallTakesPiece(decode: Decoder, rx: Rx, p: Piece)
    requires rx.expected >= 8 && NextPiece(rx.rest) == Some(p)
    ensures var (m, rx') := ParseChar(decode, false, rx, []);
            var (r, sg) := ReadPiece(decode, rx.sg, p);
            && IsOutcome(rx.prefixError, [p], [r], [m], 0) && rx'.sg == sg && rx'.prefixError == p.Junk?
            && rx'.rest == rx.rest[|PieceBytes(p)|..]
            && rx'.errors == rx.errors + (if p.Junk? && !rx.prefixError then 1 else 0)
            && rx'.packets == rx.packets + (if r.Good? then 1 else 0)
  {
    EmptyChunk(rx);
  }

  /** How long a frame the parser expects after a piece: the shortest one, of the version of the frame before it. */
  function ExpectedAfter(p: Piece): nat { if p.Packet? && p.frame[0] == 0xFD then 12 else 8 }

  lemma ExpectsAfterPiece(decode: Decoder, rx: Rx, p: Piece)
    requires rx.expected >= 8 && NextPiece(rx.rest) == Some(p)
    ensures ParseChar(decode, true, rx, []).1.expected == ExpectedAfter(p)
    ensures ParseChar(decode, false, rx, []).1.expected == if p.Junk? then rx.expected else ExpectedAfter(p)
  {
    EmptyChunk(rx);
  }

  /** A parser that waits for the rest of a frame asks for exactly what is missing; with nothing missing, for a byte. */
  lemma AsksForTheRest(decode: Decoder, rx: Rx)
    requires rx.expected >= 8 && NextPiece(rx.rest).None? && |rx.rest| >= 3
    ensures var rx' := ParseChar(decode, true, rx, []).1;
            |rx.rest| + BytesNeeded(rx') == AnnouncedLength(rx.rest)
    ensures forall r: Rx :: |r.rest| >= r.expected ==> BytesNeeded(r) == 1
  {
    EmptyChunk(rx);
  }

  /** What the first three bytes of a frame announce. */
  lemma AnnouncedIs(b: bytes)
    requires |b| >= 3 && (b[0] == 0xFE || b[0] == 0xFD)
    ensures AnnouncedLength(b) == if b[0] == 0xFE then 8 + b[1] as int
                                  else if b[2] % 2 == 1 then 25 + b[1] as int
                                  else 12 + b[1] as int
  {
  }

  lemma OutcomesCons(flag: bool, p: Piece, ps: seq<Piece>, r: Received, rs: seq<Received>, m: ParseResult,
                     outs: seq<ParseResult>)
    requires IsOutcome(flag, [p], [r], [m], 0) && AreOutcomes(p.Junk?, ps, rs, outs)
    ensures AreOutcomes(flag, [p] + ps, [r] + rs, [m] + outs)
  {
    forall k | 0 <= k < 1 + |ps| ensures IsOutcome(flag, [p] + ps, [r] + rs, [m] + outs, k) {
      if k > 0 {
        assert IsOutcome(p.Junk?, ps, rs, outs, k - 1);
      }
    }
  }

  /** A stream in which every piece is read by one call. */
  lemma {:induction false} StrictReads(decode: Decoder, rx: Rx)
    requires rx.expected >= 8
    ensures var ps := Split(rx.rest).0;
            var (rs, sg) := ReadPieces(decode, rx.sg, ps);
            var (outs, rx') := Calls(decode, false, rx, |ps|);
            && AreOutcomes(rx.prefixError, ps, rs, outs)
            && rx'.sg == sg && rx'.rest == Split(rx.rest).1
            && rx'.errors == rx.errors + Runs(rx.prefixError, ps) && rx'.packets == rx.packets + GoodOnes(rs)
    decreases |rx.rest|
  {
    if NextPiece(rx.rest).Some? {
      var p := NextPiece(rx.rest).value;
      CallTakesPiece(decode, rx, p);
      SplitFirst(rx.rest);
      var (m, rx1) := ParseChar(decode, false, rx, []);
      var (r, sg1) := ReadPiece(decode, rx.sg, p);
      var ps := Split(rx1.rest).0;
      StrictReads(decode, rx1);
      var (rs, outs) := (ReadPieces(decode, sg1, ps).0, Calls(decode, false, rx1, |ps|).0);
      assert ([p] + ps)[1..] == ps && ([r] + rs)[1..] == rs;
      OutcomesCons(rx.prefixError, p, ps, r, rs, m, outs);
    }
  }

  /** The counters of the robust parser: one error for each BAD_DATA message, one packet for each message. */
  lemma {:induction false} RobustCounts(decode: Decoder, rx: Rx)
    requires rx.expected >= 8
    ensures var (got, _, rx') := Drain(decode, true, rx);
            rx'.errors == rx.errors + BadOnes(got) && rx'.packets == rx.packets + |got|
    decreases |rx.rest|
  {
    EmptyChunk(rx);
    var (m, rx1) := ParseChar(decode, true, rx, []);
    if m.Got? {
      RobustCounts(decode, rx1);
      var more := Drain(decode, true, rx1).0;
      assert ([m.r] + more)[1..] == more;
    }
  }
}
