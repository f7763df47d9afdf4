/**
 Whole DataFlash logs: _parse_next of pymavlink/DFReader.py called until it returns no message.
 */
module DataFlashLog {
  import opened Bytes
  import opened DataFlash

  /** What is called until it returns no message; ParseNext on some data is the program's. */
  type Parser = Reader -> (Outcome, Reader)

  function ParserOf(data: bytes): Parser { (s: Reader) => ParseNext(data, s) }

  /** The trigger keeps the definition of ParseNext out of sight until a reader is asked about. */
  ghost predicate IsParser(next: Parser, data: bytes) {
    forall s {:trigger Balanced(data, s)} :: next(s) == ParseNext(data, s)
  }

  ghost predicate ReadsRecords(data: bytes, next: Parser) {
    forall s :: Balanced(data, s) ==> Reads(data, s, next(s))
  }

  lemma ParserReads(data: bytes)
    ensures ReadsRecords(data, ParserOf(data))
  {
    forall s | Balanced(data, s) ensures Reads(data, s, ParserOf(data)(s)) {
      ParsesNext(data, s);
    }
  }

  /** Stuck: the last message did not move the reader forward. */
  datatype Ending = AtEnd | Stopped | Stuck(at: Reader)

  /** The messages until there are no more, or no progress. */
  function Drain(data: bytes, next: Parser, s: Reader): (r: (seq<Record>, Ending))
    decreases |data| - s.offset
  {
    var (m, s') := next(s);
    if m.Nothing? then ([], AtEnd)
    else if !m.Got? then ([], Stopped)
    else if !(s.offset < s'.offset <= |data|) then ([m.rec], Stuck(s))
    else
      var (more, end) := Drain(data, next, s');
      ([m.rec] + more, end)
  }

  predicate LongEnough(formats: map<byte, Fmt>, least: nat) {
    forall k :: k in formats ==> formats[k].len >= least
  }

  /** A record that declares a length declares at least this one. */
  predicate DeclaresEnough(rec: Record, least: nat) {
    DeclarationOf(rec).Learns? ==> DeclarationOf(rec).fmt.len >= least
  }

  predicate AllDeclareEnough(recs: seq<Record>, least: nat) {
    forall i :: 0 <= i < |recs| ==> DeclaresEnough(recs[i], least)
  }

  /** Reading ends, on any bytes, if no format record read declares the length 0. */
  lemma {:induction false} DrainEnds(data: bytes, next: Parser, s: Reader)
    requires ReadsRecords(data, next) && Balanced(data, s)
    requires LongEnough(s.formats, 1) && AllDeclareEnough(Drain(data, next, s).0, 1)
    ensures !Drain(data, next, s).1.Stuck?
    decreases |data| - s.offset
  {
    var (m, s') := next(s);
    assert Reads(data, s, next(s));
    if m.Got? {
      var more := Drain(data, next, s').0;
      assert Drain(data, next, s).0 == [m.rec] + more;
      assert DeclaresEnough(([m.rec] + more)[0], 1);
      forall i | 0 <= i < |more| ensures DeclaresEnough(more[i], 1) {
        assert more[i] == ([m.rec] + more)[i + 1];
      }
      DrainEnds(data, next, s');
    }
  }

  /** When it does not, the reader is where it was before its last message, and will return it again and again. */
  lemma {:induction false} StuckForever(data: bytes, next: Parser, s: Reader)
    requires ReadsRecords(data, next) && Balanced(data, s)
    ensures var end := Drain(data, next, s).1;
            end.Stuck? ==> next(end.at).0.Got? && next(end.at).0.rec.fmt.len == 0 && next(end.at).1 == end.at
    decreases |data| - s.offset
  {
    var (m, s') := next(s);
    assert Reads(data, s, next(s));
    if m.Got? && s.offset < s'.offset {
      StuckForever(data, next, s');
    }
  }

  /** The formats known before record k. */
  function FormatsBefore(formats: map<byte, Fmt>, recs: seq<Record>, k: nat): map<byte, Fmt>
    requires k <= |recs|
    decreases k
  {
    if k == 0 then formats else FormatsBefore(Learn(formats, recs[0]), recs[1..], k - 1)
  }

  /** Record k starts with the two head bytes and its type, and is as long as the latest format for the type says. */
  ghost predicate Placed(data: bytes, formats: map<byte, Fmt>, recs: seq<Record>, k: nat)
    requires k < |recs|
  {
    var rec, known := recs[k], FormatsBefore(formats, recs, k);
    && IsHead(data, known, rec.start) && rec.fmt == known[data[rec.start + 2]]
    && rec.start + rec.fmt.len <= |data|
    && rec.body == Slice(data, rec.start + 3, rec.start + rec.fmt.len)
  }

  ghost predicate AllPlaced(data: bytes, formats: map<byte, Fmt>, recs: seq<Record>) {
    forall k :: 0 <= k < |recs| ==> Placed(data, formats, recs, k)
  }

  lemma PlacedLater(data: bytes, formats: map<byte, Fmt>, rec: Record, more: seq<Record>, k: nat)
    requires k < |more| && Placed(data, Learn(formats, rec), more, k)
    ensures Placed(data, formats, [rec] + more, k + 1)
  {
    var recs := [rec] + more;
    assert recs[1..] == more && recs[0] == rec;
    assert FormatsBefore(formats, recs, k + 1) == FormatsBefore(Learn(formats, rec), more, k);
  }

  lemma PlacedCons(data: bytes, formats: map<byte, Fmt>, rec: Record, more: seq<Record>)
    requires Placed(data, formats, [rec], 0) && AllPlaced(data, Learn(formats, rec), more)
    ensures AllPlaced(data, formats, [rec] + more)
  {
    forall k | 0 <= k < 1 + |more| ensures Placed(data, formats, [rec] + more, k) {
      if k > 0 {
        PlacedLater(data, formats, rec, more, k - 1);
      }
    }
  }

  /** Each message of a log lies where its own format says. */
  lemma {:induction false} DrainPlaces(data: bytes, next: Parser, s: Reader)
    requires ReadsRecords(data, next) && Balanced(data, s)
    ensures AllPlaced(data, s.formats, Drain(data, next, s).0)
    decreases |data| - s.offset
  {
    var (m, s') := next(s);
    assert Reads(data, s, next(s));
    if m.Got? {
      assert Placed(data, s.formats, [m.rec], 0);
      if s.offset < s'.offset <= |data| {
        DrainPlaces(data, next, s');
        PlacedCons(data, s.formats, m.rec, Drain(data, next, s').0);
      }
    }
  }

  /** Records from index a on, none starting before the end of one before it. */
  ghost predicate InOrder(recs: seq<Record>, a: nat) {
    && (forall k :: 0 <= k < |recs| ==> a <= recs[k].start)
    && (forall j, k :: 0 <= j < k < |recs| ==> recs[j].start + recs[j].fmt.len <= recs[k].start)
  }

  lemma InOrderCons(rec: Record, more: seq<Record>, a: nat)
    requires a <= rec.start && InOrder(more, rec.start + rec.fmt.len)
    ensures InOrder([rec] + more, a)
  {
  }

  lemma {:induction false} DrainOrders(data: bytes, next: Parser, s: Reader)
    requires ReadsRecords(data, next) && Balanced(data, s)
    ensures InOrder(Drain(data, next, s).0, s.offset)
    decreases |data| - s.offset
  {
    var (m, s') := next(s);
    assert Reads(data, s, next(s));
    if m.Got? && s.offset < s'.offset <= |data| {
      DrainOrders(data, next, s');
      InOrderCons(m.rec, Drain(data, next, s').0, s.offset);
    }
  }

  // ----- When reading ends

  ghost predicate ZeroRepeats(data: bytes, next: Parser) {
    forall s :: Balanced(data, s) && next(s).0.Got? && next(s).0.rec.fmt.len == 0 ==> next(next(s).1) == next(s)
  }

  lemma ParserRepeats(data: bytes)
    ensures ZeroRepeats(data, ParserOf(data))
  {
    forall s | Balanced(data, s) && ParseNext(data, s).0.Got? && ParseNext(data, s).0.rec.fmt.len == 0
      ensures ParseNext(data, ParseNext(data, s).1) == ParseNext(data, s)
    {
      ZeroLengthRepeats(data, s);
    }
  }

  predicate HasZeroLength(recs: seq<Record>) { exists k :: 0 <= k < |recs| && recs[k].fmt.len == 0 }

  /** Once a message has length 0 there is no progress. */
  lemma ZeroSticks(data: bytes, next: Parser, s: Reader)
    requires ReadsRecords(data, next) && ZeroRepeats(data, next) && Balanced(data, s)
    requires next(s).0.Got? && next(s).0.rec.fmt.len == 0
    ensures Drain(data, next, s).1.Stuck? && HasZeroLength(Drain(data, next, s).0)
  {
    var (m, s') := next(s);
    assert Reads(data, s, next(s));
    assert next(s') == (m, s');
    assert Drain(data, next, s).0[0] == m.rec;
  }

  lemma HasZeroCons(rec: Record, more: seq<Record>)
    ensures HasZeroLength([rec] + more) <==> rec.fmt.len == 0 || HasZeroLength(more)
  {
    if HasZeroLength(more) {
      var k :| 0 <= k < |more| && more[k].fmt.len == 0;
      assert ([rec] + more)[k + 1] == more[k];
    }
    if rec.fmt.len == 0 {
      assert ([rec] + more)[0] == rec;
    }
  }

  /** Draining gets nowhere if and only if some message that is returned has length 0. */
  lemma {:induction false} StuckExactly(data: bytes, next: Parser, s: Reader)
    requires ReadsRecords(data, next) && ZeroRepeats(data, next) && Balanced(data, s)
    ensures Drain(data, next, s).1.Stuck? <==> HasZeroLength(Drain(data, next, s).0)
    decreases |data| - s.offset
  {
    var (m, s') := next(s);
    assert Reads(data, s, next(s));
    if m.Got? {
      if m.rec.fmt.len == 0 {
        ZeroSticks(data, next, s);
      } else {
        StuckExactly(data, next, s');
        HasZeroCons(m.rec, Drain(data, next, s').0);
      }
    }
  }

  /** A file with one format record, for type 0x41 of length 0, and a message of that type. */
  function ZeroFile(): bytes { FmtRecord([0x41, 0] + Zeros(84)) + [HEAD1, HEAD2, 0x41] }

  function FmtRecord(body: bytes): bytes { [HEAD1, HEAD2, FMT_TYPE] + body }

  /** The same one with any length, no name, an empty format and no columns. */
  function EmptyFormat(len: byte): Fmt { Fmt(0x41, [], len, [], []) }

  lemma DeclaresEmpty(start: nat, len: byte)
    ensures DeclarationOf(Record(start, FmtFormat(), [0x41, len] + Zeros(84))) == Learns(EmptyFormat(len))
  {
    var rec := Record(start, FmtFormat(), [0x41, len] + Zeros(84));
    UsualDeclaration(rec);
    var b := rec.body;
    UntilNulUnique(b[2..6], []);
    UntilNulUnique(b[6..22], []);
    UntilNulUnique(b[22..86], []);
  }

  /** A format record of the usual layout at index j. */
  ghost predicate HasFmt(data: bytes, formats: map<byte, Fmt>, j: nat, body: bytes) {
    && FMT_TYPE in formats && formats[FMT_TYPE] == FmtFormat()
    && |body| == 86 && j + 89 <= |data| && data[j..j + 89] == FmtRecord(body)
  }

  lemma FmtBody(data: bytes, formats: map<byte, Fmt>, j: nat, body: bytes)
    requires HasFmt(data, formats, j, body)
    ensures IsHead(data, formats, j) && !Misfit(data, formats, j)
    ensures RecordAt(data, formats, j) == Record(j, FmtFormat(), body)
  {
    var r := data[j..j + 89];
    assert data[j] == r[0] && data[j + 1] == r[1] && data[j + 2] == r[2];
    assert Slice(data, j + 3, j + 89) == r[3..] == body;
    FmtSize();
  }

  lemma FmtIsReady(data: bytes, s: Reader, j: nat, body: bytes)
    requires Balanced(data, s) && NextHead(data, s.formats, s.offset) == Some(j)
    requires HasFmt(data, s.formats, j, body) && (j == s.offset || s.remaining >= TAIL)
    ensures ReadyAt(data, s, j) && RecordAt(data, s.formats, j) == Record(j, FmtFormat(), body)
  {
    FmtBody(data, s.formats, j, body);
  }

  /** What it then does to the reader. */
  lemma TakesFmt(s: Reader, j: nat, len: byte)
    requires s.offset == j + 3
    ensures TakeRecord(s, Record(j, FmtFormat(), [0x41, len] + Zeros(84))) ==
              (Got(Record(j, FmtFormat(), [0x41, len] + Zeros(84))),
               Reader(j + 89, s.remaining - 86, s.formats[0x41 := EmptyFormat(len)]))
  {
    DeclaresEmpty(j, len);
    TakeLearns(s, Record(j, FmtFormat(), [0x41, len] + Zeros(84)), EmptyFormat(len));
  }

  lemma AfterZeroFmt(data: bytes, s: Reader)
    requires data == ZeroFile() && s == Reader(89, 3, START_FORMATS[0x41 := EmptyFormat(0)])
    ensures ParseNext(data, s) == (Got(Record(89, EmptyFormat(0), [])), s)
  {
    assert RecordAt(data, s.formats, 89) == Record(89, EmptyFormat(0), []);
    ZeroLengthStays(data, s);
  }

  lemma ZeroReady(data: bytes, s: Reader)
    requires data == ZeroFile() && s == Rewound(data, START_FORMATS)
    ensures ReadyAt(data, s, 0)
    ensures RecordAt(data, s.formats, 0) == Record(0, FmtFormat(), [0x41, 0] + Zeros(84))
  {
    assert data[0..89] == FmtRecord([0x41, 0] + Zeros(84));
    assert NextHead(data, s.formats, 0) == Some(0);
    FmtIsReady(data, s, 0, [0x41, 0] + Zeros(84));
  }

  lemma ZeroFirst(data: bytes, s: Reader)
    requires data == ZeroFile() && s == Rewound(data, START_FORMATS)
    ensures ParseNext(data, s)
         == (Got(Record(0, FmtFormat(), [0x41, 0] + Zeros(84))), Reader(89, 3, START_FORMATS[0x41 := EmptyFormat(0)]))
  {
    ZeroReady(data, s);
    TakesFmt(Reader(3, |data| - 3, s.formats), 0, 0);
    var rec := Record(0, FmtFormat(), [0x41, 0] + Zeros(84));
    ParsesAt(data, s, 0, rec, (Got(rec), Reader(89, 3, START_FORMATS[0x41 := EmptyFormat(0)])));
  }

  lemma DrainOn(data: bytes, next: Parser, s: Reader)
    requires next(s).0.Got? && s.offset < next(s).1.offset <= |data|
    ensures Drain(data, next, s).1 == Drain(data, next, next(s).1).1
  {
  }

  /** That file gets the reader stuck. */
  lemma ZeroFileSticks()
    ensures var data := ZeroFile();
            Drain(data, ParserOf(data), Rewound(data, START_FORMATS)).1.Stuck?
  {
    var data := ZeroFile();
    var s, s1 := Rewound(data, START_FORMATS), Reader(89, 3, START_FORMATS[0x41 := EmptyFormat(0)]);
    ZeroFirst(data, s);
    AfterZeroFmt(data, s1);
    ParserReads(data);
    ParserRepeats(data);
    ZeroSticks(data, ParserOf(data), s1);
    DrainOn(data, ParserOf(data), s);
  }

  // ----- Readers as they are constructed

  /**
   A pass over the log that stops after n messages or at the end, as init_clock makes it; None where an exception
   ends it, or a record the model does not follow.
   */
  function Pass(next: Parser, s: Reader, n: nat): Option<Reader>
    decreases n
  {
    if n == 0 then Some(s)
    else
      var (m, s') := next(s);
      match m
      case Got(_) => Pass(next, s', n - 1)
      case Nothing => Some(s')
      case _ => None
  }

  /** A reader as its constructor leaves it: rewound, with the formats its clock pass met. */
  function Opened(data: bytes, n: nat): Option<Reader> {
    match Pass(ParserOf(data), Rewound(data, START_FORMATS), n)
    case Some(s) => Some(Rewound(data, s.formats))
    case None => None
  }

  /**
   Any file, read from its start by a reader with any formats: the messages lie one after the other, each where the
   latest earlier format record for its type says or, before there is one, the format the reader already had; and
   reading ends if and only if no message has length 0.
   */
  lemma LogIsRead(data: bytes, formats: map<byte, Fmt>)
    ensures var (recs, end) := Drain(data, ParserOf(data), Rewound(data, formats));
            AllPlaced(data, formats, recs) && InOrder(recs, 0) && (end.Stuck? <==> HasZeroLength(recs))
  {
    ParserReads(data);
    ParserRepeats(data);
    DrainPlaces(data, ParserOf(data), Rewound(data, formats));
    DrainOrders(data, ParserOf(data), Rewound(data, formats));
    StuckExactly(data, ParserOf(data), Rewound(data, formats));
  }

  lemma {:induction false} PassStays(next: Parser, s: Reader, n: nat)
    requires next(s).0.Got? && next(s).1 == s
    ensures Pass(next, s, n) == Some(s)
    decreases n
  {
    if n > 0 {
      PassStays(next, s, n - 1);
    }
  }

  lemma PassGetsStuck(next: Parser, s: Reader, stuck: Reader, n: nat)
    requires n > 0 && next(s).0.Got? && next(s).1 == stuck && next(stuck).0.Got? && next(stuck).1 == stuck
    ensures Pass(next, s, n) == Some(stuck)
  {
    PassStays(next, stuck, n - 1);
  }

  /** Where the reader stays on the file above, and what it then returns: a message without a name. */
  function ZeroStay(): Reader { Reader(89, 3, START_FORMATS[0x41 := EmptyFormat(0)]) }

  lemma ZeroStays()
    ensures var data := ZeroFile();
            && ParseNext(data, Rewound(data, START_FORMATS)).0.Got?
            && ParseNext(data, Rewound(data, START_FORMATS)).1 == ZeroStay()
            && ParseNext(data, ZeroStay()) == (Got(Record(89, EmptyFormat(0), [])), ZeroStay())
  {
    var data := ZeroFile();
    ZeroFirst(data, Rewound(data, START_FORMATS));
    AfterZeroFmt(data, ZeroStay());
  }

  /** So the clock pass never ends: no number of messages takes it past offset 89, and no clock is made of them. */
  lemma ZeroFileNeverOpens(n: nat)
    requires n > 0
    ensures var data := ZeroFile();
            && Pass(ParserOf(data), Rewound(data, START_FORMATS), n) == Some(ZeroStay())
            && ParserOf(data)(ZeroStay()) == (Got(Record(89, EmptyFormat(0), [])), ZeroStay())
  {
    var data := ZeroFile();
    ZeroStays();
    PassGetsStuck(ParserOf(data), Rewound(data, START_FORMATS), ZeroStay(), n);
  }

  // ----- Whether the file alone says what its records are

  /** Some record before record k declares a format for type t. */
  predicate DeclaredBefore(recs: seq<Record>, k: nat, t: byte)
    requires k <= |recs|
  {
    exists j :: 0 <= j < k && DeclarationOf(recs[j]).Learns? && DeclarationOf(recs[j]).fmt.kind == t
  }

  lemma DeclaredBeforeTail(recs: seq<Record>, k: nat, t: byte)
    requires 0 < k <= |recs|
    ensures DeclaredBefore(recs, k, t)
       <==> || (DeclarationOf(recs[0]).Learns? && DeclarationOf(recs[0]).fmt.kind == t)
            || DeclaredBefore(recs[1..], k - 1, t)
  {
    if DeclaredBefore(recs[1..], k - 1, t) {
      var j :| 0 <= j < k - 1 && DeclarationOf(recs[1..][j]).Learns? && DeclarationOf(recs[1..][j]).fmt.kind == t;
      assert recs[j + 1] == recs[1..][j];
    }
    if DeclaredBefore(recs, k, t) {
      var j :| 0 <= j < k && DeclarationOf(recs[j]).Learns? && DeclarationOf(recs[j]).fmt.kind == t;
      if j > 0 {
        assert recs[j] == recs[1..][j - 1];
      }
    }
  }

  /** Two tables that know the same about a type: both nothing, or the same format. */
  predicate SameAt(f: map<byte, Fmt>, g: map<byte, Fmt>, t: byte) {
    (t in f <==> t in g) && (t in f ==> f[t] == g[t])
  }

  /** What two readers know of a type before record k is the same if the file has said it, or was so at the start. */
  lemma {:induction false} TablesAgree(f: map<byte, Fmt>, g: map<byte, Fmt>, recs: seq<Record>, k: nat, t: byte)
    requires k <= |recs|
    ensures SameAt(FormatsBefore(f, recs, k), FormatsBefore(g, recs, k), t)
       <==> DeclaredBefore(recs, k, t) || SameAt(f, g, t)
    decreases k
  {
    if k > 0 {
      DeclaredBeforeTail(recs, k, t);
      TablesAgree(Learn(f, recs[0]), Learn(g, recs[0]), recs[1..], k - 1, t);
    }
  }

  /** Every record's type has been declared before it, or was known to the reader just as it is to a new one. */
  ghost predicate SelfDescribed(formats: map<byte, Fmt>, recs: seq<Record>, data: bytes)
    requires forall k :: 0 <= k < |recs| ==> recs[k].start + 3 <= |data|
  {
    forall k :: 0 <= k < |recs| ==>
      DeclaredBefore(recs, k, data[recs[k].start + 2]) || SameAt(formats, START_FORMATS, data[recs[k].start + 2])
  }

  lemma PlacedInBoth(data: bytes, f: map<byte, Fmt>, g: map<byte, Fmt>, recs: seq<Record>, k: nat)
    requires k < |recs| && Placed(data, f, recs, k)
    ensures Placed(data, g, recs, k)
       <==> DeclaredBefore(recs, k, data[recs[k].start + 2]) || SameAt(f, g, data[recs[k].start + 2])
  {
    TablesAgree(f, g, recs, k, data[recs[k].start + 2]);
  }

  /**
   The latest earlier format record in the file, or the initial format, says what each message is, if and only if each
   message's type has been declared before it or was known to the reader as it is to a new one.
   */
  lemma FileSaysExactly(data: bytes, formats: map<byte, Fmt>, recs: seq<Record>)
    requires AllPlaced(data, formats, recs)
    ensures forall k :: 0 <= k < |recs| ==> recs[k].start + 3 <= |data|
    ensures AllPlaced(data, START_FORMATS, recs) <==> SelfDescribed(formats, recs, data)
  {
    forall k | 0 <= k < |recs| ensures recs[k].start + 3 <= |data| {
      assert Placed(data, formats, recs, k);
    }
    forall k | 0 <= k < |recs|
      ensures Placed(data, START_FORMATS, recs, k)
         <==> || DeclaredBefore(recs, k, data[recs[k].start + 2])
              || SameAt(formats, START_FORMATS, data[recs[k].start + 2])
    {
      PlacedInBoth(data, formats, START_FORMATS, recs, k);
    }
  }

  /** A file whose record of type 0x41 comes before the format record for it. */
  function LateFile(rest: bytes): bytes {
    [HEAD1, HEAD2, 0x41] + FmtRecord([0x41, 3] + Zeros(84)) + rest
  }

  lemma {:induction false} NoHeadAhead(data: bytes, formats: map<byte, Fmt>, i: nat)
    requires forall k :: i <= k < |data| ==> data[k] != HEAD1
    ensures NextHead(data, formats, i).None?
    decreases |data| - i
  {
    if i + 3 <= |data| {
      NoHeadAhead(data, formats, i + 1);
    }
  }

  lemma LateHead(rest: bytes)
    ensures var data := LateFile(rest);
            data[3..92] == FmtRecord([0x41, 3] + Zeros(84)) && NextHead(data, START_FORMATS, 0) == Some(3)
  {
    var data := LateFile(rest);
    assert data[3..92] == FmtRecord([0x41, 3] + Zeros(84));
    assert data[3] == HEAD1 && data[4] == HEAD2 && data[5] == FMT_TYPE;
    assert NextHead(data, START_FORMATS, 3) == Some(3);
    assert NextHead(data, START_FORMATS, 2) == Some(3);
    assert NextHead(data, START_FORMATS, 1) == Some(3);
  }

  lemma LateReady(data: bytes, rest: bytes, s: Reader)
    requires data == LateFile(rest) && |rest| >= TAIL && s == Rewound(data, START_FORMATS)
    ensures ReadyAt(data, s, 3)
    ensures RecordAt(data, s.formats, 3) == Record(3, FmtFormat(), [0x41, 3] + Zeros(84))
  {
    LateHead(rest);
    FmtIsReady(data, s, 3, [0x41, 3] + Zeros(84));
  }

  lemma LateFirst(data: bytes, rest: bytes, s: Reader)
    requires data == LateFile(rest) && |rest| >= TAIL && s == Rewound(data, START_FORMATS)
    ensures ParseNext(data, s) ==
              (Got(Record(3, FmtFormat(), [0x41, 3] + Zeros(84))),
               Reader(92, |data| - 92, START_FORMATS[0x41 := EmptyFormat(3)]))
  {
    LateReady(data, rest, s);
    TakesFmt(Reader(6, |data| - 6, s.formats), 3, 3);
    var rec := Record(3, FmtFormat(), [0x41, 3] + Zeros(84));
    ParsesAt(data, s, 3, rec, (Got(rec), Reader(92, |data| - 92, START_FORMATS[0x41 := EmptyFormat(3)])));
  }

  lemma LateNoMore(data: bytes, rest: bytes, s: Reader)
    requires data == LateFile(rest) && |rest| >= TAIL && HEAD1 !in rest && s.offset == 92
    ensures ParseNext(data, s).0.Nothing? && ParseNext(data, s).1.formats == s.formats
  {
    forall k | 92 <= k < |data| ensures data[k] != HEAD1 {
      assert data[k] == rest[k - 92];
    }
    NoHeadAhead(data, s.formats, 92);
    ParseUnfolds(data, s);
  }

  /** Wherever after its first message the clock pass stops, if need be at the end, it has learned the format. */
  lemma LateFirstPass(rest: bytes, n: nat)
    requires |rest| >= TAIL && HEAD1 !in rest && n > 0
    ensures var data := LateFile(rest);
            Opened(data, n) == Some(Rewound(data, START_FORMATS[0x41 := EmptyFormat(3)]))
  {
    var data := LateFile(rest);
    var next, s := ParserOf(data), Rewound(data, START_FORMATS);
    LateFirst(data, rest, s);
    var s1 := ParseNext(data, s).1;
    LateNoMore(data, rest, s1);
    assert Pass(next, s1, n - 1).Some? && Pass(next, s1, n - 1).value.formats == s1.formats;
    assert Pass(next, s, n) == Pass(next, s1, n - 1);
  }

  lemma LateFirstRecord(data: bytes, rest: bytes, r: Reader)
    requires data == LateFile(rest) && r == Rewound(data, START_FORMATS[0x41 := EmptyFormat(3)])
    ensures ParseNext(data, r).0 == Got(Record(0, EmptyFormat(3), []))
  {
    assert NextHead(data, r.formats, 0) == Some(0);
    assert RecordAt(data, r.formats, 0) == Record(0, EmptyFormat(3), []);
    ParseUnfolds(data, r);
  }

  /** The clock pass learns the format; the pass after it returns a message that no earlier record describes. */
  lemma LateFormat(rest: bytes, n: nat)
    requires |rest| >= TAIL && HEAD1 !in rest && n > 0
    ensures var data := LateFile(rest);
            && Opened(data, n).Some?
            && var recs := Drain(data, ParserOf(data), Opened(data, n).value).0;
               recs != [] && recs[0] == Record(0, EmptyFormat(3), []) && !AllPlaced(data, START_FORMATS, recs)
  {
    var data := LateFile(rest);
    LateFirstPass(rest, n);
    LateFirstRecord(data, rest, Opened(data, n).value);
    var recs := Drain(data, ParserOf(data), Opened(data, n).value).0;
    assert recs[0] == Record(0, EmptyFormat(3), []);
    assert !Placed(data, START_FORMATS, recs, 0);
  }
}
