/**
 Whole Iridium SBD messages: what _old_scs/iridium.py prints it parses, at the last byte and not before, and what
 it parses it prints.
 */
module SbdMessage {
  import opened Bytes
  import opened Iridium

  /** The bytes in front of the elements. */
  function Envelope(body: bytes): bytes
    requires |body| < 0x1_0000
  {
    [1] + Be(|body|, 2) + body
  }

  /** Elements and their bytes, pairwise. */
  ghost predicate Encodes(read: Reader, ies: seq<Ie>, raws: seq<bytes>) {
    && |ies| == |raws|
    && forall i :: 0 <= i < |ies| ==>
         |raws[i]| >= 3 && Headed(raws[i], Id(ies[i])) && read(Id(ies[i]), raws[i]) == Some(ies[i])
  }

  lemma EncodesTail(read: Reader, ies: seq<Ie>, raws: seq<bytes>)
    requires Encodes(read, ies, raws) && ies != []
    ensures Encodes(read, ies[1..], raws[1..])
  {
  }

  predicate AllGoodImei(ies: seq<Ie>) { forall i :: 0 <= i < |ies| ==> GoodImei(ies[i]) }

  predicate AllPrintable(ies: seq<Ie>) { forall i :: 0 <= i < |ies| ==> HasPrinter(ies[i]) }

  // ----- Printing

  lemma {:induction false} PrintedEncodes(ies: seq<Ie>)
    requires PrintAll(ies).Some? && AllGoodImei(ies)
    ensures Encodes(ReadIe, ies, PrintAll(ies).value)
    ensures forall i :: 0 <= i < |ies| ==> |PrintAll(ies).value[i]| == StatedLength(ies[i])
  {
    if ies != [] {
      PrintThenRead(ies[0]);
      PrintedEncodes(ies[1..]);
      var raws := PrintAll(ies).value;
      forall i | 0 < i < |ies|
        ensures raws[i] == PrintAll(ies[1..]).value[i - 1] && ies[i] == ies[1..][i - 1] {
      }
    }
  }

  /** Elements of their stated lengths end up one after the other. */
  lemma {:induction false} PlacesAll(p: bytes, ies: seq<Ie>, raws: seq<bytes>)
    requires |ies| == |raws| && forall i :: 0 <= i < |ies| ==> |raws[i]| == StatedLength(ies[i])
    ensures |Concat(raws)| == TotalStated(ies)
    ensures PlaceAll(p + Zeros(TotalStated(ies)), |p|, ies, raws) == p + Concat(raws)
    decreases |ies|
  {
    if ies == [] {
      assert p + Zeros(0) == p && p + Concat(raws) == p;
    } else {
      FillNext(p, TotalStated(ies), raws[0]);
      PlacesAll(p + raws[0], ies[1..], raws[1..]);
      Reassociate(p, raws[0], Concat(raws[1..]));
    }
  }

  /** A printed message is its elements in an envelope. */
  lemma PrintedShape(ies: seq<Ie>)
    requires PrintMessage(ies).Some? && AllGoodImei(ies)
    ensures PrintAll(ies).Some? && Encodes(ReadIe, ies, PrintAll(ies).value)
    ensures |Concat(PrintAll(ies).value)| < 0x1_0000
    ensures PrintMessage(ies).value == Envelope(Concat(PrintAll(ies).value))
  {
    PowValues();
    PrintedEncodes(ies);
    PlacesAll([1] + Be(TotalStated(ies), 2), ies, PrintAll(ies).value);
  }

  // ----- Parsing

  /** The next element at an index where its bytes are. */
  lemma ReadsNext(read: Reader, data: bytes, pi: nat, ie: Ie, end: nat)
    requires pi + 3 <= end <= |data|
    requires var raw := data[pi..end]; Headed(raw, Id(ie)) && read(Id(ie), raw) == Some(ie) && KnownId(Id(ie))
    ensures NextIe(read, data, pi) == Found(ie, end)
  {
    assert data[pi..end][1] == data[pi + 1] && data[pi..end][2] == data[pi + 2];
  }

  lemma ReadsOne(read: Reader, data: bytes, pi: nat, ie: Ie, end: nat)
    requires pi < |data| && NextIe(read, data, pi) == Found(ie, end)
    ensures var (more, last, error) := ReadIes(read, data, end);
            ReadIes(read, data, pi) == ([ie] + more, last, error)
  {
  }

  lemma ConcatAt(data: bytes, pi: nat, raws: seq<bytes>)
    requires pi <= |data| && raws != [] && data[pi..] == Concat(raws)
    ensures pi + |raws[0]| <= |data| && data[pi..pi + |raws[0]|] == raws[0]
    ensures data[pi + |raws[0]|..] == Concat(raws[1..])
  {
    var end := pi + |raws[0]|;
    assert data[pi..][..|raws[0]|] == data[pi..end];
    assert data[pi..][|raws[0]|..] == data[end..];
  }

  lemma {:induction false} ReadsAll(read: Reader, data: bytes, pi: nat, ies: seq<Ie>, raws: seq<bytes>)
    requires Encodes(read, ies, raws) && pi <= |data| && data[pi..] == Concat(raws)
    ensures ReadIes(read, data, pi) == (ies, |data|, None)
    decreases |ies|
  {
    if ies == [] {
      assert |data[pi..]| == 0;
    } else {
      var end := pi + |raws[0]|;
      ConcatAt(data, pi, raws);
      ReadsNext(read, data, pi, ies[0], end);
      ReadsOne(read, data, pi, ies[0], end);
      EncodesTail(read, ies, raws);
      ReadsAll(read, data, end, ies[1..], raws[1..]);
      assert ies == [ies[0]] + ies[1..];
    }
  }

  /** The bytes of the elements that the parser finds. */
  function Slices(read: Reader, data: bytes, pi: nat): seq<bytes>
    decreases |data| - pi
  {
    if pi >= |data| then []
    else
      match NextIe(read, data, pi)
      case Bad(_) => []
      case Found(_, end) => [data[pi..end]] + Slices(read, data, end)
  }

  lemma FoundSlice(read: Reader, data: bytes, pi: nat)
    requires ReadsTags(read) && pi < |data| && NextIe(read, data, pi).Found?
    ensures var (ie, end) := (NextIe(read, data, pi).ie, NextIe(read, data, pi).end);
            var raw := data[pi..end];
            |raw| >= 3 && Headed(raw, Id(ie)) && read(Id(ie), raw) == Some(ie) && GoodImei(ie)
    ensures var end := NextIe(read, data, pi).end;
            Slices(read, data, pi) == [data[pi..end]] + Slices(read, data, end)
  {
  }

  lemma EncodesCons(read: Reader, ie: Ie, raw: bytes, ies: seq<Ie>, raws: seq<bytes>)
    requires Encodes(read, ies, raws) && |raw| >= 3 && Headed(raw, Id(ie)) && read(Id(ie), raw) == Some(ie)
    ensures Encodes(read, [ie] + ies, [raw] + raws)
  {
  }

  lemma ConcatCons(data: bytes, pi: nat, end: nat, raws: seq<bytes>)
    requires pi <= end <= |data| && Concat(raws) == data[end..]
    ensures Concat([data[pi..end]] + raws) == data[pi..]
  {
    assert ([data[pi..end]] + raws)[1..] == raws;
  }

  /** When parsing succeeds the elements' slices tile the body, without gap or overlap. */
  lemma {:induction false} SlicesTile(read: Reader, data: bytes, pi: nat)
    requires ReadsTags(read) && pi <= |data| && ReadIes(read, data, pi).2.None?
    ensures ReadIes(read, data, pi).1 == |data|
    ensures Concat(Slices(read, data, pi)) == data[pi..]
    ensures Encodes(read, ReadIes(read, data, pi).0, Slices(read, data, pi)) && AllGoodImei(ReadIes(read, data, pi).0)
    decreases |data| - pi
  {
    if pi < |data| {
      var ie, end := NextIe(read, data, pi).ie, NextIe(read, data, pi).end;
      ReadsOne(read, data, pi, ie, end);
      SlicesTile(read, data, end);
      FoundSlice(read, data, pi);
      EncodesCons(read, ie, data[pi..end], ReadIes(read, data, end).0, Slices(read, data, end));
      ConcatCons(data, pi, end, Slices(read, data, end));
    }
  }

  /** An element is read from bytes with its own tag, and an IMEI has 15 bytes. */
  ghost predicate ReadsTags(read: Reader) {
    forall id, raw :: read(id, raw).Some? ==>
      |raw| >= 3 && Headed(raw, id) && Id(read(id, raw).value) == id && GoodImei(read(id, raw).value)
  }

  lemma ElementsReadTags()
    ensures ReadsTags(ReadIe)
  {
    forall id: byte, raw: bytes | ReadIe(id, raw).Some?
      ensures |raw| >= 3 && Headed(raw, id) && Id(ReadIe(id, raw).value) == id && GoodImei(ReadIe(id, raw).value)
    {
      ReadGoodImei(id, raw);
    }
  }

  lemma {:induction false} PrintsSlices(ies: seq<Ie>, raws: seq<bytes>)
    requires Encodes(ReadIe, ies, raws) && AllPrintable(ies)
    ensures PrintAll(ies) == Some(raws)
    ensures forall i :: 0 <= i < |ies| ==> |raws[i]| == StatedLength(ies[i])
    decreases |ies|
  {
    if ies == [] {
      assert raws == [];
    } else {
      ReadThenPrint(Id(ies[0]), raws[0]);
      ReadIsCovered(Id(ies[0]), raws[0]);
      EncodesTail(ReadIe, ies, raws);
      PrintsSlices(ies[1..], raws[1..]);
      assert raws == [raws[0]] + raws[1..];
      forall i | 0 < i < |ies| ensures |raws[i]| == StatedLength(ies[i]) {
        assert raws[i] == raws[1..][i - 1] && ies[i] == ies[1..][i - 1];
      }
    }
  }

  lemma ReassembledFrom(data: bytes, ies: seq<Ie>, raws: seq<bytes>)
    requires 3 <= |data| == BodyLength(data, 0) + 3 && data[0] == 1
    requires PrintAll(ies) == Some(raws) && |ies| == |raws| && Concat(raws) == data[3..]
    requires forall i :: 0 <= i < |ies| ==> |raws[i]| == StatedLength(ies[i])
    ensures PrintMessage(ies) == Some(data)
  {
    BodyLengthIs(data, 0);
    PlacesAll([1] + data[1..3], ies, raws);
    assert data == [data[0]] + data[1..3] + data[3..];
  }

  /** Any body that parses to printable elements is what printing them gives. */
  lemma ParsedPrintsBack(data: bytes)
    requires 3 <= |data| == BodyLength(data, 0) + 3 && data[0] == 1
    requires ReadIes(ReadIe, data, 3).2.None? && AllPrintable(ReadIes(ReadIe, data, 3).0)
    ensures PrintMessage(ReadIes(ReadIe, data, 3).0) == Some(data)
  {
    var ies, raws := ReadIes(ReadIe, data, 3).0, Slices(ReadIe, data, 3);
    ElementsReadTags();
    SlicesTile(ReadIe, data, 3);
    PrintsSlices(ies, raws);
    ReassembledFrom(data, ies, raws);
  }

  // ----- Byte by byte

  /** parseByte on one byte after another. */
  function FeedAll(read: Reader, s: State, input: bytes): (r: (seq<Outcome>, State))
    ensures |r.0| == |input|
    decreases |input|
  {
    if input == [] then ([], s)
    else
      var (first, next) := Step(read, s, input[0]);
      var (more, end) := FeedAll(read, next, input[1..]);
      ([first] + more, end)
  }

  /** False for every byte but the last, True there. */
  predicate OnlyLastCompletes(outcomes: seq<Outcome>) {
    && outcomes != [] && outcomes[|outcomes| - 1] == Complete
    && forall i :: 0 <= i < |outcomes| - 1 ==> outcomes[i] == More
  }

  ghost predicate IsMessage(data: bytes) {
    |data| > 3 && data[0] == 1 && |data| == BodyLength(data, 0) + 3
  }

  /** The parser after the first n bytes of a message. */
  function Part(data: bytes, n: nat): State
    requires n <= |data|
  {
    State(if n == 0 then 0 else 1, if n < 3 then 0 else BodyLength(data, 0) + 3, data[..n], 3, [])
  }

  /** The length announced is not reached with byte n. */
  predicate Unfinished(data: bytes, n: nat) { n < 3 || |data| < 3 || BodyLength(data, 0) + 3 != n + 1 }

  lemma OneByte(read: Reader, data: bytes, n: nat)
    requires n < |data| && data[0] == 1 && Unfinished(data, n)
    ensures Step(read, Part(data, n), data[n]) == (More, Part(data, n + 1))
  {
    assert data[..n] + [data[n]] == data[..n + 1];
  }

  /** What the last byte of a message leads to: True or the exception, and the elements found. */
  ghost predicate Ends(read: Reader, data: bytes, outcome: Outcome, end: State) {
    var (ies, idx, error) := ReadIes(read, data, 3);
    && outcome == (if error.Some? then Raised(error.value) else Complete)
    && end.ies == ies && end.raw == data
  }

  lemma LastByte(read: Reader, s: State, b: byte, data: bytes)
    requires s.raw + [b] == data && |data| > 3 && s.length == |data| && s.parsingIdx == 3 && s.ies == []
    ensures Ends(read, data, Step(read, s, b).0, Step(read, s, b).1)
  {
    var ies := ReadIes(read, data, 3).0;
    assert [] + ies == ies;
  }

  function Mores(n: nat): seq<Outcome> { seq(n, _ => More) }

  lemma {:induction false} FeedConcat(read: Reader, s: State, a: bytes, b: bytes)
    ensures var (first, mid) := FeedAll(read, s, a);
            var (more, end) := FeedAll(read, mid, b);
            FeedAll(read, s, a + b) == (first + more, end)
    decreases |a|
  {
    if a == [] {
      assert a + b == b && [] + FeedAll(read, s, b).0 == FeedAll(read, s, b).0;
    } else {
      assert (a + b)[1..] == a[1..] + b;
      var (first, mid) := FeedAll(read, Step(read, s, a[0]).1, a[1..]);
      FeedConcat(read, Step(read, s, a[0]).1, a[1..], b);
      Reassociate([Step(read, s, a[0]).0], first, FeedAll(read, mid, b).0);
    }
  }

  lemma FeedOne(read: Reader, s: State, b: byte)
    ensures FeedAll(read, s, [b]) == ([Step(read, s, b).0], Step(read, s, b).1)
  {
    var o := [Step(read, s, b).0];
    assert [b][1..] == [] && o + [] == o;
  }

  lemma FeedNext(read: Reader, s: State, data: bytes, n: nat)
    requires n < |data|
    ensures var (first, mid) := FeedAll(read, s, data[..n]);
            FeedAll(read, s, data[..n + 1]) == (first + [Step(read, mid, data[n]).0], Step(read, mid, data[n]).1)
  {
    assert data[..n + 1] == data[..n] + [data[n]];
    FeedConcat(read, s, data[..n], [data[n]]);
    FeedOne(read, FeedAll(read, s, data[..n]).1, data[n]);
  }

  /** Nothing is returned before the announced length is reached. */
  lemma {:induction false} FedPart(read: Reader, data: bytes, n: nat)
    requires n <= |data| && (n > 0 ==> data[0] == 1) && forall k :: 0 <= k < n ==> Unfinished(data, k)
    ensures FeedAll(read, START, data[..n]) == (Mores(n), Part(data, n))
  {
    if n > 0 {
      FedPart(read, data, n - 1);
      FeedNext(read, START, data, n - 1);
      OneByte(read, data, n - 1);
      assert Mores(n) == Mores(n - 1) + [More];
    } else {
      assert data[..0] == [] && Mores(0) == [];
    }
  }

  /** A whole message fed to a new parser. */
  lemma FedFromStart(read: Reader, data: bytes)
    requires IsMessage(data)
    ensures var last := Step(read, Part(data, |data| - 1), data[|data| - 1]);
            FeedAll(read, START, data) == (Mores(|data| - 1) + [last.0], last.1)
  {
    var n := |data| - 1;
    FedPart(read, data, n);
    FeedNext(read, START, data, n);
    assert data[..n + 1] == data;
  }

  lemma EndsAtLast(read: Reader, data: bytes)
    requires IsMessage(data)
    ensures var last := Step(read, Part(data, |data| - 1), data[|data| - 1]); Ends(read, data, last.0, last.1)
  {
    var n := |data| - 1;
    assert data[..n] + [data[n]] == data;
    LastByte(read, Part(data, n), data[n], data);
  }

  lemma NoMoreAfter(n: nat, outcome: Outcome, rest: seq<Outcome>)
    requires OnlyLastCompletes(Mores(n) + [outcome] + rest) && outcome != More
    ensures rest == []
  {
    var all := Mores(n) + [outcome] + rest;
    assert all[n] == outcome;
  }

  lemma FrontEnds(read: Reader, front: bytes) returns (outcome: Outcome, last: State)
    requires IsMessage(front)
    ensures FeedAll(read, START, front) == (Mores(|front| - 1) + [outcome], last) && outcome != More
  {
    FedFromStart(read, front);
    EndsAtLast(read, front);
    var step := Step(read, Part(front, |front| - 1), front[|front| - 1]);
    outcome, last := step.0, step.1;
  }

  /** The message at the front of longer input ends it. */
  lemma FrontIsAll(read: Reader, data: bytes, m: nat)
    requires m <= |data| && IsMessage(data[..m]) && OnlyLastCompletes(FeedAll(read, START, data).0)
    ensures m == |data|
  {
    var front, back := data[..m], data[m..];
    var outcome, last := FrontEnds(read, front);
    assert data == front + back;
    FeedConcat(read, START, front, back);
    NoMoreAfter(m - 1, outcome, FeedAll(read, last, back).0);
  }

  /** Only whole messages complete. */
  lemma CompletesIsMessage(read: Reader, data: bytes)
    requires data != [] && OnlyLastCompletes(FeedAll(read, START, data).0)
    ensures IsMessage(data)
  {
    assert FeedAll(read, START, data).0[0] == Step(read, START, data[0]).0;
    if |data| > 3 && 3 < BodyLength(data, 0) + 3 <= |data| {
      FrontIsAll(read, data, BodyLength(data, 0) + 3);
    } else {
      assert data[..|data|] == data;
      FedPart(read, data, |data|);
    }
  }

  /** Any accepted bytes whose elements can be printed are what printing those elements gives. */
  lemma ParseThenPrint(data: bytes)
    requires data != [] && OnlyLastCompletes(FeedAll(ReadIe, START, data).0)
    requires AllPrintable(FeedAll(ReadIe, START, data).1.ies)
    ensures PrintMessage(FeedAll(ReadIe, START, data).1.ies) == Some(data)
  {
    CompletesIsMessage(ReadIe, data);
    FedFromStart(ReadIe, data);
    EndsAtLast(ReadIe, data);
    ParsedPrintsBack(data);
  }

  lemma EnvelopeIsMessage(body: bytes)
    requires 0 < |body| < 0x1_0000
    ensures IsMessage(Envelope(body))
  {
    PowValues();
    BeRoundTrip(|body|, 2);
    BodyLengthIs(Envelope(body), 0);
    assert Envelope(body)[1..3] == Be(|body|, 2);
  }

  /** Without elements the length is that of the header, which is never compared with the number of bytes again. */
  lemma {:induction false} EmptyBodyNeverCompletes(read: Reader, s: State, input: bytes)
    requires |s.raw| >= 3 && s.length == 3
    ensures forall i :: 0 <= i < |input| ==> FeedAll(read, s, input).0[i] == More
    decreases |input|
  {
    if input != [] {
      EmptyBodyNeverCompletes(read, Step(read, s, input[0]).1, input[1..]);
    }
  }

  lemma PrintedCompletes(ies: seq<Ie>)
    requires PrintMessage(ies).Some? && ies != [] && AllGoodImei(ies)
    ensures var (outcomes, end) := FeedAll(ReadIe, START, PrintMessage(ies).value);
            OnlyLastCompletes(outcomes) && end.ies == ies
  {
    var data := PrintMessage(ies).value;
    PrintedShape(ies);
    var raws := PrintAll(ies).value;
    assert |raws[0]| >= 3 && |Concat(raws)| >= |raws[0]|;
    EnvelopeIsMessage(Concat(raws));
    assert data[3..] == Concat(raws);
    ReadsAll(ReadIe, data, 3, ies, raws);
    FedFromStart(ReadIe, data);
    EndsAtLast(ReadIe, data);
    CompletesLast(|data| - 1);
  }

  lemma CompletesLast(n: nat)
    ensures OnlyLastCompletes(Mores(n) + [Complete])
  {
  }

  /**
   Printing a message and feeding the bytes to a new parser gives the same elements, with True at exactly the last
   byte, if and only if there is an element and every IMEI has 15 bytes.
   */
  lemma PrintThenParse(ies: seq<Ie>)
    requires PrintMessage(ies).Some?
    ensures var (outcomes, end) := FeedAll(ReadIe, START, PrintMessage(ies).value);
            OnlyLastCompletes(outcomes) && end.ies == ies <==> ies != [] && AllGoodImei(ies)
  {
    var data := PrintMessage(ies).value;
    if ies == [] {
      EmptyMessage(ReadIe, data);
    } else if AllGoodImei(ies) {
      PrintedCompletes(ies);
    } else {
      ElementsReadTags();
      ParsedImeis(ReadIe, START, data);
    }
  }

  lemma EmptyMessage(read: Reader, data: bytes)
    requires Some(data) == PrintMessage([])
    ensures !OnlyLastCompletes(FeedAll(read, START, data).0)
  {
    assert data == [1] + Be(0, 2) + Zeros(0);
    PowValues();
    assert Be(0, 2) == [0, 0] by { assert Be(0, 1) == [0]; }
    assert data == [1, 0, 0];
    FedPart(read, data, 3);
    assert data[..3] == data;
  }

  /** The parser never produces an IMEI that is not 15 bytes long. */
  lemma {:induction false} ParsedImeis(read: Reader, s: State, input: bytes)
    requires ReadsTags(read) && AllGoodImei(s.ies)
    ensures AllGoodImei(FeedAll(read, s, input).1.ies)
    decreases |input|
  {
    if input != [] {
      FoundImeis(read, s.raw + [input[0]], s.parsingIdx);
      ParsedImeis(read, Step(read, s, input[0]).1, input[1..]);
    }
  }

  lemma {:induction false} FoundImeis(read: Reader, data: bytes, pi: nat)
    requires ReadsTags(read)
    ensures AllGoodImei(ReadIes(read, data, pi).0)
    decreases |data| - pi
  {
    if pi < |data| && NextIe(read, data, pi).Found? {
      FoundImeis(read, data, NextIe(read, data, pi).end);
    }
  }
}
