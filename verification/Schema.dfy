/**
 What message_checksum of pymavlink/generator/mavparse.py feeds to the checksum, and when two definitions feed the same.
 */
module Schema {
  import opened Bytes
  import opened Layout

  /** A word of the XML file: no blank, no character beyond a byte. */
  predicate IsWord(s: string) { forall i :: 0 <= i < |s| ==> s[i] != ' ' && s[i] as int < 256 }

  predicate AreWords(fs: seq<Field>) { forall i :: 0 <= i < |fs| ==> IsWord(fs[i].name) }

  /** What follows a field's name: its array length modulo 256, if it is an array. */
  function Mark(f: Field): Option<byte> { if f.arrayLength == 0 then None else Some(f.arrayLength % 256) }

  function MarkBytes(m: Option<byte>): bytes { if m.None? then [] else [m.value] }

  /** A word and the blank after it. */
  function Word(s: string): bytes { Ascii(s) + [32] }

  /** The array length of a field before, then type, name and array length of each field. */
  function Feed(before: Option<byte>, fs: seq<Field>): bytes
    decreases |fs|
  {
    MarkBytes(before)
    + if fs == [] then [] else Word(TypeName(fs[0].ftype)) + Word(fs[0].name) + Feed(Mark(fs[0]), fs[1..])
  }

  lemma AsciiWord(s: string)
    ensures Ascii(s + " ") == Word(s)
  {
  }

  lemma {:induction false} FieldsBytesFront(fs: seq<Field>)
    requires fs != []
    ensures FieldsBytes(fs) == FieldBytes(fs[0]) + FieldsBytes(fs[1..])
    decreases |fs|
  {
    var n := |fs| - 1;
    if n == 0 {
      assert fs[..0] == [] && fs[1..] == [];
      assert FieldsBytes(fs) == [] + FieldBytes(fs[0]) && FieldsBytes(fs[1..]) == [];
      assert FieldBytes(fs[0]) + [] == FieldBytes(fs[0]) == [] + FieldBytes(fs[0]);
    } else {
      FieldsBytesFront(fs[..n]);
      assert fs[..n][1..] == fs[1..][..n - 1] && fs[1..][n - 1] == fs[n];
      Reassociate(FieldBytes(fs[0]), FieldsBytes(fs[1..][..n - 1]), FieldBytes(fs[n]));
    }
  }

  lemma FieldIsFed(f: Field)
    ensures FieldBytes(f) == Word(TypeName(f.ftype)) + Word(f.name) + MarkBytes(Mark(f))
  {
    AsciiWord(TypeName(f.ftype));
    AsciiWord(f.name);
  }

  lemma {:induction false} FieldsAreFed(fs: seq<Field>)
    ensures FieldsBytes(fs) == Feed(None, fs)
    decreases |fs|
  {
    if fs != [] {
      FieldsBytesFront(fs);
      FieldIsFed(fs[0]);
      FieldsAreFed(fs[1..]);
      var head, mark, rest := Word(TypeName(fs[0].ftype)) + Word(fs[0].name), MarkBytes(Mark(fs[0])), fs[1..];
      MarkInFront(Mark(fs[0]), rest);
      Reassociate(head, mark, FieldsBytes(rest));
      assert [] + (head + Feed(Mark(fs[0]), rest)) == head + Feed(Mark(fs[0]), rest);
    } else {
      assert Feed(None, fs) == [] + [];
    }
  }

  lemma MarkInFront(m: Option<byte>, fs: seq<Field>)
    ensures Feed(m, fs) == MarkBytes(m) + Feed(None, fs)
  {
    var rest := if fs == [] then [] else Word(TypeName(fs[0].ftype)) + Word(fs[0].name) + Feed(Mark(fs[0]), fs[1..]);
    assert Feed(None, fs) == [] + rest == rest;
  }

  /** The whole feed of a definition: its name and its base fields in wire order. */
  lemma SchemaIsFed(def: MsgDef)
    ensures SchemaBytes(def) == Word(def.name) + Feed(None, SortBySize(def.fields[..def.BaseCount()]))
  {
    AsciiWord(def.name);
    FieldsAreFed(SortBySize(def.fields[..def.BaseCount()]));
  }

  // ----- Two definitions that feed the same

  /** uint8_t for int8_t, and so on. */
  predicate IsUnsignedOf(u: FieldType, t: FieldType) {
    (u.UInt8? && t.Int8?) || (u.UInt16? && t.Int16?) || (u.UInt32? && t.Int32?) || (u.UInt64? && t.Int64?)
  }

  /** No array length before an unsigned type, and the length 'u' before the signed one. */
  predicate IsShift(m: Option<byte>, t: FieldType, m': Option<byte>, t': FieldType) {
    m.None? && m' == Some('u' as int) && IsUnsignedOf(t, t')
  }

  /** Equal array lengths and types, up to that. */
  predicate Alike(m: Option<byte>, t: FieldType, m': Option<byte>, t': FieldType) {
    (m == m' && t == t') || IsShift(m, t, m', t') || IsShift(m', t', m, t)
  }

  /** Field by field: equal names, and array lengths and types that are alike. */
  predicate AllAlike(m: Option<byte>, fs: seq<Field>, m': Option<byte>, gs: seq<Field>)
    decreases |fs|
  {
    if fs == [] || gs == [] then fs == gs && m == m'
    else
      && Alike(m, fs[0].ftype, m', gs[0].ftype) && fs[0].name == gs[0].name
      && AllAlike(Mark(fs[0]), fs[1..], Mark(gs[0]), gs[1..])
  }

  /** Length, first character and size digit tell type names apart. */
  function Letters(s: string): (int, char, char)
    requires |s| >= 4
  {
    (|s|, s[0], if s[0] == 'u' && |s| > 4 then s[4] else s[3])
  }

  function LettersOf(t: FieldType): (int, char, char) {
    match t
    case Float => (5, 'f', 'a')
    case Double => (6, 'd', 'b')
    case Char => (4, 'c', 'r')
    case Int8 => (6, 'i', '8')
    case UInt8 => (7, 'u', '8')
    case Int16 => (7, 'i', '1')
    case UInt16 => (8, 'u', '1')
    case Int32 => (7, 'i', '3')
    case UInt32 => (8, 'u', '3')
    case Int64 => (7, 'i', '6')
    case UInt64 => (8, 'u', '6')
  }

  lemma LettersTable(t: FieldType)
    ensures |TypeName(t)| >= 4 && Letters(TypeName(t)) == LettersOf(t)
  {
  }

  lemma LettersDiffer(t: FieldType, t': FieldType)
    ensures LettersOf(t) == LettersOf(t') ==> t == t'
  {
  }

  lemma TypesByName(t: FieldType, t': FieldType)
    ensures TypeName(t) == TypeName(t') ==> t == t'
  {
    LettersTable(t);
    LettersTable(t');
    LettersDiffer(t, t');
  }

  lemma SecondLetter(t: FieldType)
    ensures |TypeName(t)| >= 4
    ensures TypeName(t)[1] in {'f', 'd', 'c', 'i', 'u'} ==> t.UInt8? || t.UInt16? || t.UInt32? || t.UInt64?
  {
  }

  lemma UnsignedName(t: FieldType, t': FieldType)
    requires IsUnsignedOf(t, t')
    ensures TypeName(t) == ['u'] + TypeName(t')
  {
  }

  lemma ShiftedLetters(t: FieldType, t': FieldType, c: char)
    requires TypeName(t) == [c] + TypeName(t')
    ensures LettersOf(t).0 == LettersOf(t').0 + 1 && LettersOf(t').1 in {'f', 'd', 'c', 'i', 'u'} && c == LettersOf(t).1
    ensures TypeName(t)[1] == LettersOf(t').1
    ensures LettersOf(t').1 == 'i' && c == 'u' ==> LettersOf(t).2 == LettersOf(t').2
  {
    LettersTable(t);
    LettersTable(t');
    assert TypeName(t)[1..] == TypeName(t');
  }

  lemma ShiftedName(t: FieldType, t': FieldType, c: char)
    ensures TypeName(t) == [c] + TypeName(t') <==> c == 'u' && IsUnsignedOf(t, t')
  {
    if TypeName(t) == [c] + TypeName(t') {
      ShiftedLetters(t, t', c);
      SecondLetter(t);
      LettersTable(t);
      assert LettersOf(t').1 == 'i';
    } else if c == 'u' && IsUnsignedOf(t, t') {
      UnsignedName(t, t');
    }
  }

  lemma TypeNameIsWord(t: FieldType)
    ensures IsWord(TypeName(t)) && |TypeName(t)| >= 4
  {
  }

  lemma WordsByBytes(a: string, b: string)
    requires IsWord(a) && IsWord(b) && Ascii(a) == Ascii(b)
    ensures a == b
  {
    forall i | 0 <= i < |a| ensures a[i] == b[i] {
      assert Ascii(a)[i] == Ascii(b)[i];
    }
  }

  lemma BlankEnds(a: string, x: bytes, i: nat)
    requires IsWord(a) && i <= |a|
    ensures (Word(a) + x)[i] == 32 <==> i == |a|
  {
    if i < |a| {
      assert (Word(a) + x)[i] == Ascii(a)[i];
    }
  }

  /** A word ends at its blank. */
  lemma CutWord(a: string, b: string, x: bytes, y: bytes)
    requires IsWord(a) && IsWord(b) && Word(a) + x == Word(b) + y
    ensures a == b && x == y
  {
    var s, t := Word(a) + x, Word(b) + y;
    BlankEnds(a, x, |a|);
    BlankEnds(b, y, |b|);
    if |a| <= |b| {
      BlankEnds(b, y, |a|);
    } else {
      BlankEnds(a, x, |b|);
    }
    assert s[..|a|] == Ascii(a) && t[..|b|] == Ascii(b);
    WordsByBytes(a, b);
    assert s[|a| + 1..] == x && t[|b| + 1..] == y;
  }

  /** The bytes that follow a mark. */
  function AfterMark(fs: seq<Field>): bytes {
    if fs == [] then [] else Word(TypeName(fs[0].ftype)) + (Word(fs[0].name) + Feed(Mark(fs[0]), fs[1..]))
  }

  lemma FeedIs(m: Option<byte>, fs: seq<Field>)
    ensures Feed(m, fs) == MarkBytes(m) + AfterMark(fs)
  {
    if fs != [] {
      Reassociate(Word(TypeName(fs[0].ftype)), Word(fs[0].name), Feed(Mark(fs[0]), fs[1..]));
    }
  }

  /** Equal bytes after equal marks: equal types, names and what follows. */
  lemma SameFields(fs: seq<Field>, gs: seq<Field>)
    requires AreWords(fs) && AreWords(gs) && fs != [] && gs != [] && AfterMark(fs) == AfterMark(gs)
    ensures fs[0].ftype == gs[0].ftype && fs[0].name == gs[0].name
    ensures Feed(Mark(fs[0]), fs[1..]) == Feed(Mark(gs[0]), gs[1..])
  {
    var a, b := Word(fs[0].name) + Feed(Mark(fs[0]), fs[1..]), Word(gs[0].name) + Feed(Mark(gs[0]), gs[1..]);
    TypeNameIsWord(fs[0].ftype);
    TypeNameIsWord(gs[0].ftype);
    CutWord(TypeName(fs[0].ftype), TypeName(gs[0].ftype), a, b);
    TypesByName(fs[0].ftype, gs[0].ftype);
    CutWord(fs[0].name, gs[0].name, Feed(Mark(fs[0]), fs[1..]), Feed(Mark(gs[0]), gs[1..]));
  }

  lemma CharWord(c: char, s: string)
    requires c as int < 256
    ensures [c as int] + Word(s) == Word([c] + s)
  {
  }

  /** A mark where the other has none: it is the 'u' of the other's type. */
  lemma ShiftedFields(m: byte, fs: seq<Field>, gs: seq<Field>)
    requires AreWords(fs) && AreWords(gs) && [m] + AfterMark(fs) == AfterMark(gs)
    ensures fs != [] && gs != [] && m == 'u' as int && IsUnsignedOf(gs[0].ftype, fs[0].ftype)
    ensures fs[0].name == gs[0].name && Feed(Mark(fs[0]), fs[1..]) == Feed(Mark(gs[0]), gs[1..])
  {
    assert gs != [] by {
      assert |[m] + AfterMark(fs)| > 0;
    }
    var t' := gs[0].ftype;
    TypeNameIsWord(t');
    var b := Word(gs[0].name) + Feed(Mark(gs[0]), gs[1..]);
    assert fs != [] by {
      assert |AfterMark(gs)| >= 4;
    }
    var t := fs[0].ftype;
    TypeNameIsWord(t);
    var a := Word(fs[0].name) + Feed(Mark(fs[0]), fs[1..]);
    BlankEnds(TypeName(t'), b, 0);
    var c := m as char;
    CharWord(c, TypeName(t));
    Reassociate([m], Word(TypeName(t)), a);
    CutWord([c] + TypeName(t), TypeName(t'), a, b);
    ShiftedName(t', t, c);
    CutWord(fs[0].name, gs[0].name, Feed(Mark(fs[0]), fs[1..]), Feed(Mark(gs[0]), gs[1..]));
  }

  lemma {:induction false} SameFeed(m: Option<byte>, fs: seq<Field>, m': Option<byte>, gs: seq<Field>)
    requires AreWords(fs) && AreWords(gs) && Feed(m, fs) == Feed(m', gs)
    ensures AllAlike(m, fs, m', gs)
    decreases |fs|
  {
    FeedIs(m, fs);
    FeedIs(m', gs);
    var s, t := AfterMark(fs), AfterMark(gs);
    if m.Some? && m'.Some? {
      assert ([m.value] + s)[0] == m.value && ([m'.value] + t)[0] == m'.value;
      assert ([m.value] + s)[1..] == s && ([m'.value] + t)[1..] == t;
    } else if m.None? && m'.None? {
      assert [] + s == s && [] + t == t;
    } else if m.Some? {
      assert [] + t == t;
      ShiftedFields(m.value, fs, gs);
    } else {
      assert [] + s == s;
      ShiftedFields(m'.value, gs, fs);
    }
    if m == m' && fs != [] && gs != [] {
      SameFields(fs, gs);
    }
    if fs != [] && gs != [] {
      SameFeed(Mark(fs[0]), fs[1..], Mark(gs[0]), gs[1..]);
    }
  }

  lemma UnsignedWord(u: FieldType, t: FieldType)
    requires IsUnsignedOf(u, t)
    ensures Word(TypeName(u)) == ['u' as int] + Word(TypeName(t))
  {
    ShiftedName(u, t, 'u');
    CharWord('u', TypeName(t));
  }

  lemma {:induction false} AlikeFeed(m: Option<byte>, fs: seq<Field>, m': Option<byte>, gs: seq<Field>)
    requires AllAlike(m, fs, m', gs)
    ensures Feed(m, fs) == Feed(m', gs)
    decreases |fs|
  {
    if fs != [] && gs != [] {
      AlikeFeed(Mark(fs[0]), fs[1..], Mark(gs[0]), gs[1..]);
      AlikeHeads(m, fs[0].ftype, m', gs[0].ftype);
      var rest := Word(fs[0].name) + Feed(Mark(fs[0]), fs[1..]);
      FeedIs(m, fs);
      FeedIs(m', gs);
      Reassociate(MarkBytes(m), Word(TypeName(fs[0].ftype)), rest);
      Reassociate(MarkBytes(m'), Word(TypeName(gs[0].ftype)), rest);
    }
  }

  lemma AlikeHeads(m: Option<byte>, t: FieldType, m': Option<byte>, t': FieldType)
    requires Alike(m, t, m', t')
    ensures MarkBytes(m) + Word(TypeName(t)) == MarkBytes(m') + Word(TypeName(t'))
  {
    if IsShift(m, t, m', t') {
      UnsignedWord(t, t');
    } else if IsShift(m', t', m, t) {
      UnsignedWord(t', t);
    }
  }

  /**
   Two definitions feed the same bytes if and only if their names and, field by field in wire order, the names, types
   and array lengths (modulo 256, zero for no array being apart) of their base fields are the same; except that an
   array of 117 elements before a field of signed type feeds what no array before the unsigned type does, 117 being 'u'.
   */
  lemma SameSchemaExactly(a: MsgDef, b: MsgDef)
    requires IsWord(a.name) && IsWord(b.name) && AreWords(a.fields) && AreWords(b.fields)
    ensures SchemaBytes(a) == SchemaBytes(b)
       <==> && a.name == b.name
            && AllAlike(None, SortBySize(a.fields[..a.BaseCount()]), None, SortBySize(b.fields[..b.BaseCount()]))
  {
    var fs, gs := SortBySize(a.fields[..a.BaseCount()]), SortBySize(b.fields[..b.BaseCount()]);
    SchemaIsFed(a);
    SchemaIsFed(b);
    SortedWords(a.fields[..a.BaseCount()]);
    SortedWords(b.fields[..b.BaseCount()]);
    if SchemaBytes(a) == SchemaBytes(b) {
      CutWord(a.name, b.name, Feed(None, fs), Feed(None, gs));
      SameFeed(None, fs, None, gs);
    } else if a.name == b.name && AllAlike(None, fs, None, gs) {
      AlikeFeed(None, fs, None, gs);
    }
  }

  lemma SortedWords(fs: seq<Field>)
    requires AreWords(fs)
    ensures AreWords(SortBySize(fs))
  {
    var sorted := SortBySize(fs);
    SortIsStable(fs, 1);
    forall i | 0 <= i < |sorted| ensures IsWord(sorted[i].name) {
      assert sorted[i] in multiset(sorted) && sorted[i] in multiset(fs);
    }
  }

  // ----- Examples

  lemma OneFieldIsFed(m: Option<byte>, f: Field, rest: seq<Field>)
    ensures Feed(m, [f] + rest) == MarkBytes(m) + (Word(TypeName(f.ftype)) + Word(f.name) + Feed(Mark(f), rest))
  {
    assert ([f] + rest)[1..] == rest;
  }

  lemma TwoFieldsAreFed(f: Field, g: Field)
    ensures Feed(None, [f, g]) == Word(TypeName(f.ftype)) + Word(f.name)
                                  + (MarkBytes(Mark(f)) + (Word(TypeName(g.ftype)) + Word(g.name) + MarkBytes(Mark(g))))
  {
    OneFieldIsFed(None, f, [g]);
    OneFieldIsFed(Mark(f), g, []);
    assert [f] + [g] == [f, g] && [g] + [] == [g];
    FeedIs(Mark(g), []);
  }

  lemma SortTwo(f: Field, g: Field)
    ensures SortBySize([f, g]) == if TypeLength(f.ftype) >= TypeLength(g.ftype) then [f, g] else [g, f]
  {
    assert [f, g][1..] == [g] && [g][1..] == [];
    assert SortBySize([g]) == InsertBySize(g, SortBySize([])) == [g];
    assert [g][1..] == [] && InsertBySize(f, []) == [f] + [];
  }

  /** STATUSTEXT: an unsigned byte and 50 characters. */
  function StatusText(): MsgDef {
    MsgDef(253, "STATUSTEXT", [Field("severity", UInt8, 0), Field("text", Char, 50)], None)
  }

  lemma StatusTextIsFed()
    ensures SchemaBytes(StatusText()) == Ascii("STATUSTEXT uint8_t severity char text ") + [50]
  {
    var f, g := Field("severity", UInt8, 0), Field("text", Char, 50);
    assert StatusText().fields[..2] == [f, g];
    SortTwo(f, g);
    SchemaIsFed(StatusText());
    TwoFieldsAreFed(f, g);
    StatusTextWords();
  }

  lemma StatusTextWords()
    ensures Word("STATUSTEXT")
            + (Word("uint8_t") + Word("severity") + ([] + (Word("char") + Word("text") + [50])))
         == Ascii("STATUSTEXT uint8_t severity char text ") + [50]
  {
    AsciiJoins("STATUSTEXT ", "uint8_t ");
    AsciiJoins("STATUSTEXT uint8_t ", "severity ");
    AsciiJoins("STATUSTEXT uint8_t severity ", "char ");
    AsciiJoins("STATUSTEXT uint8_t severity char ", "text ");
    AsciiWord("STATUSTEXT");
    AsciiWord("uint8_t");
    AsciiWord("severity");
    AsciiWord("char");
    AsciiWord("text");
  }

  lemma AsciiJoins(a: string, b: string)
    ensures Ascii(a + b) == Ascii(a) + Ascii(b)
  {
  }

  /** A byte, a list of floats that the sort puts first, and an extension, which is not fed. */
  function Sorted(): MsgDef {
    MsgDef(300, "S", [Field("id", UInt8, 0), Field("q", Float, 4), Field("x", Int64, 0)], Some(2))
  }

  lemma SortedIsFed()
    ensures SchemaBytes(Sorted()) == Ascii("S float q ") + [4] + Ascii("uint8_t id ")
  {
    var f, g := Field("id", UInt8, 0), Field("q", Float, 4);
    assert Sorted().fields[..2] == [f, g];
    SortTwo(f, g);
    SchemaIsFed(Sorted());
    TwoFieldsAreFed(g, f);
    SortedExampleWords();
  }

  lemma SortedExampleWords()
    ensures Word("S") + (Word("float") + Word("q") + ([4] + (Word("uint8_t") + Word("id") + [])))
         == Ascii("S float q ") + [4] + Ascii("uint8_t id ")
  {
    AsciiJoins("S ", "float ");
    AsciiJoins("S float ", "q ");
    AsciiJoins("uint8_t ", "id ");
    AsciiWord("S");
    AsciiWord("float");
    AsciiWord("q");
    AsciiWord("uint8_t");
    AsciiWord("id");
  }
}
