/**
 Binary DataFlash logs: _parse_next of pymavlink/DFReader.py, which finds its way through a file that describes its
 own records.
 */
module DataFlash {
  import opened Bytes

  const HEAD1: byte := 0xA3
  const HEAD2: byte := 0x95
  const FMT_TYPE: byte := 0x80

  /** Less than this at the end of a file is taken for garbage. */
  const TAIL := 528

  /** DFFormat. */
  datatype Fmt = Fmt(kind: byte, name: bytes, len: nat, format: bytes, columns: bytes)

  /** A message: where it starts, its format and its body. */
  datatype Record = Record(start: nat, fmt: Fmt, body: bytes)

  /** offset, remaining and formats. */
  datatype Reader = Reader(offset: nat, remaining: int, formats: map<byte, Fmt>)

  /**
   Raised is an exception out of a format record. OddFmt is a format record whose first element is a floating-point
   number, or whose second is not a length; what that leads to is not part of this model.
   */
  datatype Outcome = Nothing | Got(rec: Record) | Raised | OddFmt

  /** What a format character stands for: a size and how its bytes are read. */
  datatype Kind = Signed | Unsigned | Floating | Chars
  datatype Code = Code(size: nat, kind: Kind)

  /** FORMAT_TO_STRUCT. */
  function CodeOf(c: byte): Option<Code> {
    match c as char
    case 'b' => Some(Code(1, Signed))
    case 'B' => Some(Code(1, Unsigned))
    case 'h' => Some(Code(2, Signed))
    case 'H' => Some(Code(2, Unsigned))
    case 'i' => Some(Code(4, Signed))
    case 'I' => Some(Code(4, Unsigned))
    case 'f' => Some(Code(4, Floating))
    case 'n' => Some(Code(4, Chars))
    case 'N' => Some(Code(16, Chars))
    case 'Z' => Some(Code(64, Chars))
    case 'c' => Some(Code(2, Signed))
    case 'C' => Some(Code(2, Unsigned))
    case 'e' => Some(Code(4, Signed))
    case 'E' => Some(Code(4, Unsigned))
    case 'L' => Some(Code(4, Signed))
    case 'd' => Some(Code(8, Floating))
    case 'M' => Some(Code(1, Signed))
    case 'q' => Some(Code(8, Signed))
    case 'Q' => Some(Code(8, Unsigned))
    case _ => None
  }

  /** The size of a record body; None where DFFormat raises. */
  function StructSize(format: bytes): Option<nat> {
    if format == [] || format[0] == 0 then Some(0)
    else
      var first, rest := CodeOf(format[0]), StructSize(format[1..]);
      if first.None? || rest.None? then None else Some(first.value.size + rest.value)
  }

  function FmtLayout(): bytes { [66, 66, 110, 78, 90] }

  function FmtName(): bytes { [70, 77, 84] }

  function FmtColumns(): bytes { Ascii("Type,Length,Name,Format,Columns") }

  /** The format of format records, known from the start. */
  function FmtFormat(): Fmt { Fmt(FMT_TYPE, FmtName(), 89, FmtLayout(), FmtColumns()) }

  lemma FmtSize()
    ensures StructSize(FmtLayout()) == Some(86)
  {
    var f := FmtLayout();
    assert f[1..] == [66, 110, 78, 90] && f[1..][1..] == [110, 78, 90] && [110, 78, 90][1..] == [78, 90];
    assert [78, 90][1..] == [90] && [90][1..] == [];
    assert StructSize([90]) == Some(64);
    assert StructSize([78, 90]) == Some(80);
    assert StructSize([110, 78, 90]) == Some(84);
    assert StructSize([66, 110, 78, 90]) == Some(85);
  }

  // ----- What a format record declares

  /** One element of a record, before any multiplier. */
  datatype Element = Int(n: int) | Float(bits: bytes) | Str(s: bytes)

  function ReadElement(code: Code, bs: bytes): Element {
    var m: int := Pow256(|bs|);
    match code.kind
    case Signed => Int(if 2 * FromLe(bs) >= m then FromLe(bs) - m else FromLe(bs))
    case Unsigned => Int(FromLe(bs))
    case Floating => Float(bs)
    case Chars => Str(bs)
  }

  /** struct.unpack of a body. */
  function Elements(format: bytes, body: bytes): seq<Element>
    requires StructSize(format) == Some(|body|)
  {
    if format == [] || format[0] == 0 then []
    else
      var code := CodeOf(format[0]).value;
      [ReadElement(code, body[..code.size])] + Elements(format[1..], body[code.size..])
  }

  /** What reading a record does to the formats; Silent adds a key that no record type can be. */
  datatype Declaration = NoFmt | Learns(fmt: Fmt) | Silent | Fails | Odd

  /** The part of _parse_next for records whose format is called FMT. */
  function DeclarationOf(rec: Record): Declaration {
    if rec.fmt.name != FmtName() || StructSize(rec.fmt.format) != Some(|rec.body|) then NoFmt
    else Declare(Elements(rec.fmt.format, rec.body))
  }

  function Declare(es: seq<Element>): Declaration {
    if |es| < 5 || !es[2].Str? || !es[3].Str? || !es[4].Str? then Fails
    else if StructSize(UntilNul(es[3].s)).None? then Fails
    else if es[0].Str? || (es[0].Int? && !(0 <= es[0].n < 256)) then Silent
    else if es[0].Float? || !es[1].Int? || es[1].n < 0 then Odd
    else Learns(Fmt(es[0].n, UntilNul(es[2].s), es[1].n, UntilNul(es[3].s), UntilNul(es[4].s)))
  }

  lemma OneElement(code: Code, format: bytes, body: bytes)
    requires format != [] && format[0] != 0 && CodeOf(format[0]) == Some(code) && code.size <= |body|
    requires StructSize(format[1..]) == Some(|body| - code.size)
    ensures StructSize(format) == Some(|body|)
    ensures Elements(format, body) == [ReadElement(code, body[..code.size])] + Elements(format[1..], body[code.size..])
  {
  }

  lemma LayoutTails()
    ensures var f := FmtLayout();
            f[1..][1..] == f[2..] && f[2..][1..] == f[3..] && f[3..][1..] == f[4..] && f[4..][1..] == []
    ensures var f := FmtLayout();
            && StructSize(f) == Some(86) && StructSize(f[1..]) == Some(85) && StructSize(f[2..]) == Some(84)
            && StructSize(f[3..]) == Some(80) && StructSize(f[4..]) == Some(64)
  {
    var f := FmtLayout();
    FmtSize();
    assert f[1..] == [66, 110, 78, 90] && f[2..] == [110, 78, 90] && f[3..] == [78, 90] && f[4..] == [90];
  }

  /** The elements of a body of the usual layout. */
  lemma UsualElements(b: bytes)
    requires |b| == 86
    ensures StructSize(FmtLayout()) == Some(86)
    ensures Elements(FmtLayout(), b) == [Int(b[0]), Int(b[1]), Str(b[2..6]), Str(b[6..22]), Str(b[22..86])]
  {
    var f := FmtLayout();
    LayoutTails();
    OneElement(Code(64, Chars), f[4..], b[22..]);
    OneElement(Code(16, Chars), f[3..], b[6..]);
    OneElement(Code(4, Chars), f[2..], b[2..]);
    OneElement(Code(1, Unsigned), f[1..], b[1..]);
    OneElement(Code(1, Unsigned), f, b);
    assert b[..1] == [b[0]] && b[1..][..1] == [b[1]] && b[2..][..4] == b[2..6] && b[6..][..16] == b[6..22];
    assert b[1..][1..] == b[2..] && b[2..][4..] == b[6..] && b[6..][16..] == b[22..] && b[22..][..64] == b[22..86];
    OneByteNumber(b[0]);
    OneByteNumber(b[1]);
  }

  /** What the usual layout declares: type, length, name, format and columns, cut at their first NUL. */
  lemma UsualDeclaration(rec: Record)
    requires rec.fmt.name == FmtName() && rec.fmt.format == FmtLayout() && |rec.body| == 86
    ensures var b := rec.body;
            var fmt := Fmt(b[0], UntilNul(b[2..6]), b[1], UntilNul(b[6..22]), UntilNul(b[22..86]));
            DeclarationOf(rec) == if StructSize(fmt.format).None? then Fails else Learns(fmt)
  {
    UsualElements(rec.body);
  }

  lemma OneByteNumber(b: byte)
    ensures FromLe([b]) == b
  {
    assert [b][1..] == [];
  }

  // ----- Finding a record

  /** Bytes i, i+1, i+2 announce a record of a known type. */
  predicate IsHead(data: bytes, formats: map<byte, Fmt>, i: int) {
    0 <= i && i + 3 <= |data| && data[i] == HEAD1 && data[i + 1] == HEAD2 && data[i + 2] in formats
  }

  /** The first one from index i on. */
  function NextHead(data: bytes, formats: map<byte, Fmt>, i: nat): (j: Option<nat>)
    ensures j.Some? ==> i <= j.value && IsHead(data, formats, j.value)
    decreases |data| - i
  {
    if i + 3 > |data| then None
    else if IsHead(data, formats, i) then Some(i)
    else NextHead(data, formats, i + 1)
  }

  lemma {:induction false} NextHeadIsFirst(data: bytes, formats: map<byte, Fmt>, i: nat)
    ensures var j := NextHead(data, formats, i);
            forall k :: i <= k < (if j.Some? then j.value else |data|) ==> !IsHead(data, formats, k)
    decreases |data| - i
  {
    if i + 3 <= |data| && !IsHead(data, formats, i) {
      NextHeadIsFirst(data, formats, i + 1);
    }
  }

  /** A slice as Python takes it: cut at the end of the data, empty when it ends before it starts. */
  function Slice(data: bytes, from: nat, to: int): bytes
    requires from <= |data|
  {
    if to <= from then [] else data[from..Min(to, |data|)]
  }

  /** The body a head at index j claims does not have the size of its struct. */
  predicate Misfit(data: bytes, formats: map<byte, Fmt>, j: nat)
    requires IsHead(data, formats, j)
  {
    var fmt := formats[data[j + 2]];
    StructSize(fmt.format) != Some(|Slice(data, j + 3, j + fmt.len)|)
  }

  /** Heads whose body does not fit. */
  function BadAt(data: bytes, formats: map<byte, Fmt>): int -> bool {
    (j: int) => IsHead(data, formats, j) && Misfit(data, formats, j)
  }

  /** Up to the body of the next record: where its head is, if it can be read, and the state after the head. */
  function ToBody(data: bytes, s: Reader): (r: (Option<nat>, Reader))
    ensures r.1.formats == s.formats
    ensures r.0.Some? ==> IsHead(data, s.formats, r.0.value) && s.offset + 3 <= r.1.offset == r.0.value + 3
  {
    if |data| - s.offset < 3 then (None, s)
    else
      var head := NextHead(data, s.formats, s.offset);
      if head.None? then (None, s.(offset := |data| - 2))
      else
        var j := head.value;
        if j != s.offset && s.remaining < TAIL then (None, s.(offset := j))
        else
          var s1 := s.(offset := j + 3, remaining := s.remaining - (j - s.offset) - 3);
          if s1.remaining < s.formats[data[j + 2]].len - 3 then (None, s1) else (Some(j), s1)
  }

  /** The same up to a body that fits: _parse_next calls itself after one that does not. */
  function Seek(data: bytes, bad: int -> bool, s: Reader): (r: (Option<nat>, Reader))
    ensures r.1.formats == s.formats
    ensures r.0.Some? ==> IsHead(data, s.formats, r.0.value) && r.1.offset == r.0.value + 3 && !bad(r.0.value)
    decreases |data| - s.offset
  {
    var (j, s1) := ToBody(data, s);
    if j.None? || !bad(j.value) then (j, s1)
    else if s1.remaining < TAIL then (None, s1)
    else Seek(data, bad, s1)
  }

  /** The record whose head is at index j. */
  function RecordAt(data: bytes, formats: map<byte, Fmt>, j: nat): Record
    requires IsHead(data, formats, j)
  {
    var fmt := formats[data[j + 2]];
    Record(j, fmt, Slice(data, j + 3, j + fmt.len))
  }

  /** _parse_next. */
  function ParseNext(data: bytes, s: Reader): (Outcome, Reader) {
    var (j, s1) := Seek(data, BadAt(data, s.formats), s);
    if j.None? then (Nothing, s1) else TakeRecord(s1, RecordAt(data, s.formats, j.value))
  }

  /** The rest of _parse_next once a head at index j has been passed. */
  function AfterHead(data: bytes, s: Reader, j: nat): (Outcome, Reader)
    requires IsHead(data, s.formats, j) && s.offset == j + 3
  {
    if !Misfit(data, s.formats, j) then TakeRecord(s, RecordAt(data, s.formats, j))
    else if s.remaining < TAIL then (Nothing, s)
    else ParseNext(data, s)
  }

  /** _parse_next as it calls itself. */
  lemma ParseUnfolds(data: bytes, s: Reader)
    ensures var (j, s1) := ToBody(data, s);
            ParseNext(data, s) == if j.None? then (Nothing, s1) else AfterHead(data, s1, j.value)
  {
  }

  /** What a record does once its body has been read. */
  function TakeRecord(s: Reader, rec: Record): (Outcome, Reader)
    requires rec.start + 3 == s.offset
  {
    var next := s.(offset := rec.start + rec.fmt.len, remaining := s.remaining - (rec.fmt.len - 3));
    match DeclarationOf(rec)
    case Fails => (Raised, s)
    case Odd => (OddFmt, s)
    case Learns(fmt) => (Got(rec), next.(formats := s.formats[fmt.kind := fmt]))
    case _ => (Got(rec), next)
  }

  lemma TakeLearns(s: Reader, rec: Record, fmt: Fmt)
    requires rec.start + 3 == s.offset && DeclarationOf(rec) == Learns(fmt)
    ensures TakeRecord(s, rec) ==
              (Got(rec), Reader(rec.start + rec.fmt.len, s.remaining - (rec.fmt.len - 3), s.formats[fmt.kind := fmt]))
  {
  }

  lemma FoundAt(data: bytes, s: Reader, j: nat)
    requires Balanced(data, s) && NextHead(data, s.formats, s.offset) == Some(j)
    requires j == s.offset || s.remaining >= TAIL
    requires j + s.formats[data[j + 2]].len <= |data|
    ensures ToBody(data, s) == (Some(j), Reader(j + 3, |data| - j - 3, s.formats))
  {
  }

  /** The next head is at index j, and its body is there and fits. */
  ghost predicate ReadyAt(data: bytes, s: Reader, j: nat) {
    && Balanced(data, s) && NextHead(data, s.formats, s.offset) == Some(j)
    && (j == s.offset || s.remaining >= TAIL) && !Misfit(data, s.formats, j)
    && j + s.formats[data[j + 2]].len <= |data|
  }

  /** Then that is the record taken. */
  lemma ParsesAt(data: bytes, s: Reader, j: nat, rec: Record, r: (Outcome, Reader))
    requires ReadyAt(data, s, j) && RecordAt(data, s.formats, j) == rec
    requires TakeRecord(Reader(j + 3, |data| - j - 3, s.formats), rec) == r
    ensures ParseNext(data, s) == r
  {
    ParseUnfolds(data, s);
    FoundAt(data, s, j);
    var s1 := Reader(j + 3, |data| - j - 3, s.formats);
    assert ParseNext(data, s) == AfterHead(data, s1, j);
  }

  const START_FORMATS := map[FMT_TYPE := FmtFormat()]

  /** _rewind, which keeps the formats. */
  function Rewound(data: bytes, formats: map<byte, Fmt>): Reader { Reader(0, |data|, formats) }

  // ----- One record

  ghost predicate Balanced(data: bytes, s: Reader) { s.offset <= |data| && s.offset + s.remaining == |data| }

  /** Nothing from index a up to b could have been read: each head there has a misfit body, or is inside such a head. */
  ghost predicate NothingReadable(data: bytes, formats: map<byte, Fmt>, bad: int -> bool, a: nat, b: nat) {
    forall i :: a <= i < b && IsHead(data, formats, i) ==> bad(i) || (a <= i - 2 && bad(i - 2))
  }

  /** The record lies ahead, and is as long as the format then known for its type says. */
  ghost predicate IsNext(data: bytes, s: Reader, rec: Record) {
    && s.offset <= rec.start && IsHead(data, s.formats, rec.start)
    && rec.fmt == s.formats[data[rec.start + 2]]
    && rec.start + rec.fmt.len <= |data|
    && rec.body == Slice(data, rec.start + 3, rec.start + rec.fmt.len)
  }

  /** The formats after a record. */
  function Learn(formats: map<byte, Fmt>, rec: Record): map<byte, Fmt> {
    match DeclarationOf(rec)
    case Learns(fmt) => formats[fmt.kind := fmt]
    case _ => formats
  }

  /** What is known where a head with a fitting body has been found. */
  ghost predicate Found(data: bytes, s: Reader, j: nat, s1: Reader) {
    && s.offset <= j && IsHead(data, s.formats, j) && s1.formats == s.formats
    && s1.offset == j + 3 && Balanced(data, s1) && j + s.formats[data[j + 2]].len <= |data|
  }

  lemma BodyFound(data: bytes, s: Reader)
    requires Balanced(data, s)
    ensures var (j, s1) := ToBody(data, s);
            j.Some? ==>
              && Found(data, s, j.value, s1)
              && forall k :: s.offset <= k < j.value ==> !IsHead(data, s.formats, k)
  {
    NextHeadIsFirst(data, s.formats, s.offset);
  }

  /** What _parse_next finds, and that no record that could have been read is passed over. */
  lemma {:induction false} SeekFinds(data: bytes, bad: int -> bool, s: Reader)
    requires Balanced(data, s)
    ensures var (j, s1) := Seek(data, bad, s);
            j.Some? ==> Found(data, s, j.value, s1) && NothingReadable(data, s.formats, bad, s.offset, j.value)
    decreases |data| - s.offset
  {
    BodyFound(data, s);
    var (j, s1) := ToBody(data, s);
    if j.Some? && bad(j.value) && s1.remaining >= TAIL {
      SeekFinds(data, bad, s1);
      var later := Seek(data, bad, s1).0;
      if later.Some? {
        PassedBad(data, s.formats, bad, s.offset, j.value, later.value);
      }
    }
  }

  lemma PassedBad(data: bytes, formats: map<byte, Fmt>, bad: int -> bool, a: nat, j: nat, b: nat)
    requires a <= j && IsHead(data, formats, j) && bad(j)
    requires forall k :: a <= k < j ==> !IsHead(data, formats, k)
    requires NothingReadable(data, formats, bad, j + 3, b)
    ensures NothingReadable(data, formats, bad, a, b)
  {
    forall i | a <= i < b && IsHead(data, formats, i) ensures bad(i) || (a <= i - 2 && bad(i - 2)) {
      if i >= j + 3 {
        if !bad(i) {
          assert IsHead(data, formats, i);
          assert bad(i - 2);
        }
      } else if i == j + 2 {
        assert bad(i - 2);
      } else {
        assert i == j;
      }
    }
  }

  /** A message returned, and the balance of the counters after it. */
  ghost predicate Reads(data: bytes, s: Reader, r: (Outcome, Reader)) {
    r.0.Got? ==>
      && IsNext(data, s, r.0.rec) && Balanced(data, r.1)
      && r.1.offset == r.0.rec.start + r.0.rec.fmt.len && r.1.formats == Learn(s.formats, r.0.rec)
  }

  lemma TakeMoves(s: Reader, rec: Record)
    requires rec.start + 3 == s.offset && TakeRecord(s, rec).0.Got?
    ensures TakeRecord(s, rec) ==
              (Got(rec), Reader(rec.start + rec.fmt.len, s.remaining - (rec.fmt.len - 3), Learn(s.formats, rec)))
  {
  }

  lemma TakenReads(data: bytes, s: Reader, j: nat, s1: Reader)
    requires Found(data, s, j, s1)
    ensures Reads(data, s, TakeRecord(s1, RecordAt(data, s.formats, j)))
  {
    var rec := RecordAt(data, s.formats, j);
    if TakeRecord(s1, rec).0.Got? {
      TakeMoves(s1, rec);
    }
  }

  /** _parse_next returns the next readable record. */
  lemma ParsesNext(data: bytes, s: Reader)
    requires Balanced(data, s)
    ensures Reads(data, s, ParseNext(data, s))
    ensures ParseNext(data, s).0.Got? ==>
              NothingReadable(data, s.formats, BadAt(data, s.formats), s.offset, ParseNext(data, s).0.rec.start)
  {
    var bad := BadAt(data, s.formats);
    SeekFinds(data, bad, s);
    var (j, s1) := Seek(data, bad, s);
    if j.Some? {
      TakenReads(data, s, j.value, s1);
    }
  }

  // ----- When there is no message

  /** The body that a head at index j claims would go past the end of the data. */
  predicate CutOff(data: bytes, formats: map<byte, Fmt>, j: nat)
    requires IsHead(data, formats, j)
  {
    j + formats[data[j + 2]].len > |data|
  }

  /** Where the search for a record that ends a call starts: after the last misfit body that is passed over. */
  function LastSearch(data: bytes, formats: map<byte, Fmt>, bad: int -> bool, i: nat): (k: nat)
    ensures k >= i
    decreases |data| - i
  {
    var head := NextHead(data, formats, i);
    if head.None? || GivesUp(data, formats, bad, i, head.value) || !bad(head.value) then i
    else LastSearch(data, formats, bad, head.value + 3)
  }

  /**
   A search from index i does not read the head at j, the first one: bad bytes before it near the end of the data, a
   record cut off, or a body that does not fit near the end of the data.
   */
  predicate GivesUp(data: bytes, formats: map<byte, Fmt>, bad: int -> bool, i: nat, j: nat)
    requires IsHead(data, formats, j)
  {
    (j != i && |data| - i < 528) || CutOff(data, formats, j) || (bad(j) && |data| - (j + 3) < 528)
  }

  ghost predicate FindsNothing(data: bytes, formats: map<byte, Fmt>, bad: int -> bool, i: nat) {
    var head := NextHead(data, formats, i);
    head.None? || GivesUp(data, formats, bad, i, head.value)
  }

  lemma BodyFoundExactly(data: bytes, s: Reader)
    requires Balanced(data, s)
    ensures var head := NextHead(data, s.formats, s.offset);
            ToBody(data, s).0 ==
              if head.None? || (head.value != s.offset && |data| - s.offset < 528)
                 || CutOff(data, s.formats, head.value)
              then None else head
  {
  }

  lemma {:induction false} SeekGivesUp(data: bytes, bad: int -> bool, s: Reader)
    requires Balanced(data, s)
    ensures Seek(data, bad, s).0.None?
       <==> FindsNothing(data, s.formats, bad, LastSearch(data, s.formats, bad, s.offset))
    decreases |data| - s.offset
  {
    BodyFound(data, s);
    BodyFoundExactly(data, s);
    var (j, s1) := ToBody(data, s);
    if j.Some? && bad(j.value) && s1.remaining >= TAIL {
      SeekGivesUp(data, bad, s1);
    }
  }

  lemma {:induction false} NothingPassed(data: bytes, formats: map<byte, Fmt>, bad: int -> bool, i: nat)
    ensures NothingReadable(data, formats, bad, i, LastSearch(data, formats, bad, i))
    decreases |data| - i
  {
    var head := NextHead(data, formats, i);
    if head.Some? && !GivesUp(data, formats, bad, i, head.value) && bad(head.value) {
      NextHeadIsFirst(data, formats, i);
      NothingPassed(data, formats, bad, head.value + 3);
      PassedBad(data, formats, bad, i, head.value, LastSearch(data, formats, bad, head.value + 3));
    }
  }

  /**
   _parse_next returns None if and only if, from the point that follows the last body it passes over, no known head is
   left, or the first one is not read: it comes after bad bytes with fewer than 528 bytes left, its record is cut off
   by the end of the data, or its body does not fit and fewer than 528 bytes are left. Nothing readable lies before.
   */
  lemma NothingExactly(data: bytes, s: Reader)
    requires Balanced(data, s)
    ensures var bad := BadAt(data, s.formats);
            var i := LastSearch(data, s.formats, bad, s.offset);
            && (ParseNext(data, s).0.Nothing? <==> FindsNothing(data, s.formats, bad, i))
            && NothingReadable(data, s.formats, bad, s.offset, i)
  {
    SeekGivesUp(data, BadAt(data, s.formats), s);
    NothingPassed(data, s.formats, BadAt(data, s.formats), s.offset);
  }

  /**
   Where a reader is that found nothing from index i on: two bytes before the end if there is no head, at the head after
   bad bytes that are not passed over, and behind the head of a record that is cut off or does not fit.
   */
  ghost predicate LeftAt(data: bytes, formats: map<byte, Fmt>, i: nat, s: Reader) {
    var head := NextHead(data, formats, i);
    && s.formats == formats
    && if head.None? then
         s.remaining == |data| - i && s.offset == if |data| - i < 3 then i else |data| - 2
       else if head.value != i && |data| - i < 528 then s.remaining == |data| - i && s.offset == head.value
       else s.offset == head.value + 3 && s.remaining == |data| - s.offset
  }

  lemma BodyNotFound(data: bytes, s: Reader)
    requires Balanced(data, s) && ToBody(data, s).0.None?
    ensures LeftAt(data, s.formats, s.offset, ToBody(data, s).1)
  {
  }

  lemma {:induction false} SeekLeaves(data: bytes, bad: int -> bool, s: Reader)
    requires Balanced(data, s) && Seek(data, bad, s).0.None?
    ensures LeftAt(data, s.formats, LastSearch(data, s.formats, bad, s.offset), Seek(data, bad, s).1)
    decreases |data| - s.offset
  {
    BodyFound(data, s);
    BodyFoundExactly(data, s);
    var (j, s1) := ToBody(data, s);
    if j.None? {
      BodyNotFound(data, s);
    } else if s1.remaining >= TAIL {
      SeekLeaves(data, bad, s1);
    }
  }

  /** The state that a call without a message leaves. */
  lemma NothingLeaves(data: bytes, s: Reader)
    requires Balanced(data, s) && ParseNext(data, s).0.Nothing?
    ensures LeftAt(data, s.formats, LastSearch(data, s.formats, BadAt(data, s.formats), s.offset), ParseNext(data, s).1)
  {
    SeekLeaves(data, BadAt(data, s.formats), s);
  }

  /** A format record that raises is not passed: the reader stays behind its head, and its formats as they were. */
  lemma RaisedLeaves(data: bytes, s: Reader) returns (j: nat)
    requires Balanced(data, s) && ParseNext(data, s).0.Raised?
    ensures s.offset <= j && IsHead(data, s.formats, j) && !Misfit(data, s.formats, j)
    ensures DeclarationOf(RecordAt(data, s.formats, j)) == Fails
    ensures ParseNext(data, s).1 == Reader(j + 3, |data| - j - 3, s.formats)
  {
    var bad := BadAt(data, s.formats);
    SeekFinds(data, bad, s);
    j := Seek(data, bad, s).0.value;
  }

  // ----- Records of length 0

  lemma NothingDeclared(rec: Record)
    requires rec.body == []
    ensures !DeclarationOf(rec).Learns? && !DeclarationOf(rec).Odd?
  {
  }

  /** A record whose head is at the offset and whose length is 0 leaves the reader where it is. */
  lemma ZeroLengthStays(data: bytes, s: Reader)
    requires Balanced(data, s) && IsHead(data, s.formats, s.offset)
    requires var fmt := s.formats[data[s.offset + 2]]; fmt.len == 0 && StructSize(fmt.format) == Some(0)
    requires !DeclarationOf(RecordAt(data, s.formats, s.offset)).Fails?
    ensures ParseNext(data, s) == (Got(RecordAt(data, s.formats, s.offset)), s)
  {
    NothingDeclared(RecordAt(data, s.formats, s.offset));
  }

  /** A record that is returned has a body of the size of its struct. */
  lemma BodyFits(data: bytes, s: Reader)
    requires ParseNext(data, s).0.Got?
    ensures var rec := ParseNext(data, s).0.rec; StructSize(rec.fmt.format) == Some(|rec.body|)
  {
  }

  /** A record of length 0 that was returned once is returned again, and nothing changes any more. */
  lemma ZeroLengthRepeats(data: bytes, s: Reader)
    requires Balanced(data, s) && ParseNext(data, s).0.Got? && ParseNext(data, s).0.rec.fmt.len == 0
    ensures ParseNext(data, ParseNext(data, s).1) == ParseNext(data, s)
  {
    var (m, s') := ParseNext(data, s);
    ParsesNext(data, s);
    BodyFits(data, s);
    NothingDeclared(m.rec);
    ZeroLengthStays(data, s');
  }
}
