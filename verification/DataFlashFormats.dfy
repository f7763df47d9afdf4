/**
 What the format of a DataFlash record means: the characters of FORMAT_TO_STRUCT of pymavlink/DFReader.py, the size of
 a body, and records that are read as the file declares them.
 */
module DataFlashFormats {
  import opened Bytes
  import opened DataFlash
  import opened DataFlashLog

  // ----- Sizes

  const ONE_BYTE := {'b', 'B', 'M'}
  const TWO_BYTES := {'h', 'H', 'c', 'C'}
  const FOUR_BYTES := {'i', 'I', 'f', 'n', 'e', 'E', 'L'}
  const EIGHT_BYTES := {'d', 'q', 'Q'}

  /** One character of a format. */
  lemma SizesExactly(c: byte)
    ensures var size, ch := StructSize([c]), c as char;
            && (size == Some(1) <==> ch in ONE_BYTE) && (size == Some(2) <==> ch in TWO_BYTES)
            && (size == Some(4) <==> ch in FOUR_BYTES) && (size == Some(8) <==> ch in EIGHT_BYTES)
            && (size == Some(16) <==> ch == 'N') && (size == Some(64) <==> ch == 'Z') && (size == Some(0) <==> c == 0)
            && (size.Some? ==> size.value in {0, 1, 2, 4, 8, 16, 64})
  {
    assert [c][1..] == [];
  }

  predicate IsSupported(c: byte) {
    var ch := c as char;
    ch in ONE_BYTE || ch in TWO_BYTES || ch in FOUR_BYTES || ch in EIGHT_BYTES || ch == 'N' || ch == 'Z'
  }

  predicate AllSupported(s: bytes) { forall i :: 0 <= i < |s| ==> IsSupported(s[i]) }

  lemma SupportedCons(c: byte, rest: bytes)
    ensures AllSupported([c] + rest) <==> IsSupported(c) && AllSupported(rest)
  {
    var s := [c] + rest;
    assert s[0] == c && forall i :: 0 <= i < |rest| ==> rest[i] == s[i + 1];
    if AllSupported(s) {
      forall i | 0 <= i < |rest| ensures IsSupported(rest[i]) {
        assert IsSupported(s[i + 1]);
      }
    }
  }

  /** How many of these characters there are. */
  function Count(s: bytes, chars: set<char>): nat {
    if s == [] then 0 else (if s[0] as char in chars then 1 else 0) + Count(s[1..], chars)
  }

  /** A body has a size if and only if every character before the first NUL is known; then it is their sum. */
  lemma {:induction false} StructSizeIsSum(format: bytes)
    ensures var s := UntilNul(format);
            StructSize(format) ==
              if !AllSupported(s) then None
              else Some(Count(s, ONE_BYTE) + 2 * Count(s, TWO_BYTES) + 4 * Count(s, FOUR_BYTES)
                        + 8 * Count(s, EIGHT_BYTES) + 16 * Count(s, {'N'}) + 64 * Count(s, {'Z'}))
  {
    if format != [] && format[0] != 0 {
      var rest := UntilNul(format[1..]);
      assert UntilNul(format) == [format[0]] + rest && ([format[0]] + rest)[1..] == rest;
      SizesExactly(format[0]);
      OneMore(format);
      StructSizeIsSum(format[1..]);
      SupportedCons(format[0], rest);
    }
  }

  lemma OneMore(format: bytes)
    requires format != [] && format[0] != 0
    ensures var first, rest := StructSize([format[0]]), StructSize(format[1..]);
            StructSize(format) == if first.None? || rest.None? then None else Some(first.value + rest.value)
  {
    assert [format[0]][1..] == [];
  }

  // ----- Elements

  /** Little-endian bytes as a number without a sign, and as two's complement. */
  ghost predicate IsUnsigned(n: int, b: bytes) { n == FromLe(b) }

  ghost predicate IsSigned(n: int, b: bytes) {
    var m: int := Pow256(|b|);
    -m <= 2 * n < m && (n == FromLe(b) || n == FromLe(b) - m)
  }

  const SIGNED := {'b', 'h', 'i', 'c', 'e', 'L', 'M', 'q'}
  const UNSIGNED := {'B', 'H', 'I', 'C', 'E', 'Q'}

  /** How the element of a format character looks. */
  ghost predicate IsElement(e: Element, ch: char, b: bytes) {
    if ch in SIGNED then e.Int? && IsSigned(e.n, b)
    else if ch in UNSIGNED then e.Int? && IsUnsigned(e.n, b)
    else if ch == 'f' || ch == 'd' then e == Float(b)
    else ch in {'n', 'N', 'Z'} && e == Str(b)
  }

  lemma KindIs(c: byte)
    requires CodeOf(c).Some?
    ensures var kind, ch := CodeOf(c).value.kind, c as char;
            && (kind == Signed <==> ch in SIGNED) && (kind == Unsigned <==> ch in UNSIGNED)
            && (kind == Floating <==> ch == 'f' || ch == 'd') && (kind == Chars <==> ch in {'n', 'N', 'Z'})
  {
  }

  lemma ReadsElement(code: Code, b: bytes)
    ensures var e := ReadElement(code, b);
            match code.kind
            case Signed => e.Int? && IsSigned(e.n, b)
            case Unsigned => e.Int? && IsUnsigned(e.n, b)
            case Floating => e == Float(b)
            case Chars => e == Str(b)
  {
    FromLeRoundTrip(b);
  }

  /** What a body of one element holds. */
  lemma ElementIs(c: byte, b: bytes)
    requires c != 0 && StructSize([c]) == Some(|b|)
    ensures |Elements([c], b)| == 1 && IsElement(Elements([c], b)[0], c as char, b)
  {
    assert [c][1..] == [] && b[..|b|] == b;
    var code := CodeOf(c).value;
    OneElement(code, [c], b);
    KindIs(c);
    ReadsElement(code, b);
  }

  // ----- Records that are declared

  /** What a reader knows before it has read anything. */
  function FmtItself(): Fmt {
    Fmt(0x80, Ascii("FMT"), 89, Ascii("BBnNZ"), Ascii("Type,Length,Name,Format,Columns"))
  }

  lemma KnownAtFirst()
    ensures START_FORMATS == map[0x80 := FmtItself()]
  {
    assert FmtName() == Ascii("FMT") && FmtLayout() == Ascii("BBnNZ");
  }

  /** The body of a format record of the usual layout. */
  function Declares(t: byte, len: byte, name: bytes, format: bytes, columns: bytes): (b: bytes)
    requires |name| == 4 && |format| == 16 && |columns| == 64
    ensures |b| == 86
  {
    [t, len] + name + format + columns
  }

  lemma DeclaresParts(t: byte, len: byte, name: bytes, format: bytes, columns: bytes)
    requires |name| == 4 && |format| == 16 && |columns| == 64
    ensures var b := Declares(t, len, name, format, columns);
            b[0] == t && b[1] == len && b[2..6] == name && b[6..22] == format && b[22..86] == columns
  {
  }

  /** A format record at the start of a file. */
  lemma FmtComesFirst(data: bytes, fmtBody: bytes, fmt: Fmt, rest: bytes)
    requires |fmtBody| == 86 && data == [0xA3, 0x95, 0x80] + fmtBody + rest
    requires DeclarationOf(Record(0, FmtFormat(), fmtBody)) == Learns(fmt)
    ensures ParseNext(data, Rewound(data, START_FORMATS))
         == (Got(Record(0, FmtFormat(), fmtBody)), Reader(89, |rest|, START_FORMATS[fmt.kind := fmt]))
  {
    var s, rec := Rewound(data, START_FORMATS), Record(0, FmtFormat(), fmtBody);
    AfterFmt(data, fmtBody, rest);
    assert data[0..89] == FmtRecord(fmtBody);
    assert NextHead(data, s.formats, 0) == Some(0);
    FmtIsReady(data, s, 0, fmtBody);
    TakeLearns(Reader(3, |data| - 3, s.formats), rec, fmt);
    ParsesAt(data, s, 0, rec, (Got(rec), Reader(89, |rest|, START_FORMATS[fmt.kind := fmt])));
  }

  /** A record of a known type right at the offset of the reader. */
  ghost predicate HasRecord(data: bytes, s: Reader, fmt: Fmt, body: bytes, rest: bytes) {
    && Balanced(data, s) && data[s.offset..] == [0xA3, 0x95, fmt.kind] + body + rest
    && fmt.kind in s.formats && s.formats[fmt.kind] == fmt
    && fmt.len == |body| + 3 && StructSize(fmt.format) == Some(|body|)
  }

  lemma RecordIsThere(data: bytes, s: Reader, fmt: Fmt, body: bytes, rest: bytes)
    requires HasRecord(data, s, fmt, body, rest)
    ensures IsHead(data, s.formats, s.offset) && data[s.offset + 2] == fmt.kind && s.offset + fmt.len <= |data|
    ensures Slice(data, s.offset + 3, s.offset + fmt.len) == body
  {
    var j, tail := s.offset, data[s.offset..];
    assert data[j] == tail[0] && data[j + 1] == tail[1] && data[j + 2] == tail[2];
    assert data[j + 3..j + fmt.len] == tail[3..fmt.len] == body;
  }

  lemma RecordIsReady(data: bytes, s: Reader, fmt: Fmt, body: bytes, rest: bytes)
    requires HasRecord(data, s, fmt, body, rest)
    ensures ReadyAt(data, s, s.offset) && RecordAt(data, s.formats, s.offset) == Record(s.offset, fmt, body)
  {
    RecordIsThere(data, s, fmt, body, rest);
  }

  lemma KnownComesNext(data: bytes, s: Reader, fmt: Fmt, body: bytes, rest: bytes)
    requires HasRecord(data, s, fmt, body, rest) && fmt.name != FmtName()
    ensures ParseNext(data, s)
         == (Got(Record(s.offset, fmt, body)), Reader(s.offset + fmt.len, |rest|, s.formats))
  {
    RecordIsReady(data, s, fmt, body, rest);
    var rec := Record(s.offset, fmt, body);
    ParsesAt(data, s, s.offset, rec, (Got(rec), Reader(s.offset + fmt.len, |rest|, s.formats)));
  }

  /**
   A file that starts with a format record and a record of the type it declares, whatever follows: both are read, and
   the second one with the format just declared.
   */
  lemma DeclaredIsRead(t: byte, name: bytes, format: bytes, columns: bytes, body: bytes, rest: bytes)
    requires |name| == 4 && |format| == 16 && |columns| == 64 && |body| < 253
    requires StructSize(UntilNul(format)) == Some(|body|) && UntilNul(name) != [70, 77, 84]
    ensures var len := |body| + 3;
            var fmtBody := Declares(t, len, name, format, columns);
            var fmt := Fmt(t, UntilNul(name), len, UntilNul(format), UntilNul(columns));
            var data := [0xA3, 0x95, 0x80] + fmtBody + ([0xA3, 0x95, t] + body + rest);
            var s := Reader(89, |data| - 89, START_FORMATS[t := fmt]);
            && ParseNext(data, Rewound(data, START_FORMATS)) == (Got(Record(0, FmtItself(), fmtBody)), s)
            && ParseNext(data, s) == (Got(Record(89, fmt, body)), Reader(89 + len, |rest|, s.formats))
  {
    var len := |body| + 3;
    var fmtBody := Declares(t, len, name, format, columns);
    var fmt := Fmt(t, UntilNul(name), len, UntilNul(format), UntilNul(columns));
    var tail := [0xA3, 0x95, t] + body + rest;
    var data := [0xA3, 0x95, 0x80] + fmtBody + tail;
    KnownAtFirst();
    assert FmtFormat() == FmtItself();
    DeclaresParts(t, len, name, format, columns);
    UsualDeclaration(Record(0, FmtFormat(), fmtBody));
    FmtComesFirst(data, fmtBody, fmt, tail);
    AfterFmt(data, fmtBody, tail);
    KnownComesNext(data, Reader(89, |tail|, START_FORMATS[t := fmt]), fmt, body, rest);
  }

  lemma AfterFmt(data: bytes, fmtBody: bytes, tail: bytes)
    requires |fmtBody| == 86 && data == [0xA3, 0x95, 0x80] + fmtBody + tail
    ensures |data| == 89 + |tail| && data[89..] == tail && data == FmtRecord(fmtBody) + tail
  {
  }

  /** A format that is one character, filled up to its sixteen bytes. */
  lemma OneCharFormat(c: byte)
    requires c != 0
    ensures UntilNul([c] + Zeros(15)) == [c]
  {
    UntilNulUnique([c] + Zeros(15), [c]);
  }

  /** A float column: a log that declares type 0x41 with format "f" has its four bytes read, whatever they are. */
  lemma FloatIsRead(name: bytes, format: bytes, columns: bytes, body: bytes, fmtBody: bytes, fmt: Fmt, data: bytes)
    requires |name| == 4 && format == ['f' as byte] + Zeros(15) && |columns| == 64 && |body| == 4
    requires UntilNul(name) != [70, 77, 84]
    requires fmtBody == Declares(0x41, 7, name, format, columns)
    requires fmt == Fmt(0x41, UntilNul(name), 7, ['f' as byte], UntilNul(columns))
    requires data == [0xA3, 0x95, 0x80] + fmtBody + ([0xA3, 0x95, 0x41] + body)
    ensures var s := Reader(89, 7, START_FORMATS[0x41 := fmt]);
            && ParseNext(data, Rewound(data, START_FORMATS)) == (Got(Record(0, FmtItself(), fmtBody)), s)
            && ParseNext(data, s) == (Got(Record(89, fmt, body)), Reader(96, 0, s.formats))
  {
    OneCharFormat('f' as byte);
    SizesExactly('f' as byte);
    assert [0xA3, 0x95, 0x41] + body + [] == [0xA3, 0x95, 0x41] + body;
    DeclaredIsRead(0x41, name, format, columns, body, []);
  }
}
