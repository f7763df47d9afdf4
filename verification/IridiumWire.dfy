/**
 The information elements of _old_scs/iridium.py byte by byte: what each of the eight kinds looks like, those included
 that have no printer.
 */
module IridiumWire {
  import opened Bytes
  import opened Iridium

  /** Two and four bytes, the most significant first. */
  function Word2(s: bytes, i: nat): int
    requires i + 2 <= |s|
  {
    0x100 * (s[i] as int) + s[i + 1]
  }

  function Word4(s: bytes, i: nat): int
    requires i + 4 <= |s|
  {
    0x100_0000 * (s[i] as int) + 0x1_0000 * (s[i + 1] as int) + 0x100 * (s[i + 2] as int) + s[i + 3]
  }

  lemma Word2Is(s: bytes, i: nat)
    requires i + 2 <= |s|
    ensures FromBe(s[i..i + 2]) == Word2(s, i)
  {
    assert s[i..i + 2] == [s[i], s[i + 1]];
    TwoBytes(s[i], s[i + 1]);
  }

  lemma Word4Is(s: bytes, i: nat)
    requires i + 4 <= |s|
    ensures FromBe(s[i..i + 4]) == Word4(s, i)
  {
    var t := s[i..i + 4];
    assert t[..3] == s[i..i + 3] && t[..3][..2] == s[i..i + 2];
    Word2Is(s, i);
    assert FromBe(t[..3]) == 0x100 * FromBe(s[i..i + 2]) + s[i + 2];
  }

  /** An angle in minutes: degrees in one byte, thousandths of minutes in two, negative unless the bit is set. */
  ghost predicate IsAngle(a: real, s: bytes, i: nat, bit: bool)
    requires i + 3 <= |s|
  {
    var thousandths := (60000 * (s[i] as int) + Word2(s, i + 1)) as real;
    a * 60000.0 == if bit then thousandths else -thousandths
  }

  /** Tag, length, and what the element says, each at its place. */
  ghost predicate IsElement(raw: bytes, ie: Ie) {
    && |raw| >= 3 && Word2(raw, 1) == |raw| - 3
    && match ie
       case MoHeader(autoId, imei, status, momsn, mtmsn, time) =>
         && raw[0] == 0x01 && |raw| == 31 && autoId == Word4(raw, 3) && imei == raw[7..22]
         && status as int == raw[22] as int && raw[22] in {0, 1, 2, 10, 12, 13, 14, 15}
         && momsn == Word2(raw, 23) && mtmsn == Word2(raw, 25) && time == Word4(raw, 27)
       case MoPayload(payload) => raw[0] == 0x02 && payload == raw[3..]
       case MoLocation(latitude, longitude, cep) =>
         && raw[0] == 0x03 && |raw| == 14
         && IsAngle(latitude, raw, 4, raw[3] % 4 >= 2) && IsAngle(longitude, raw, 7, raw[3] % 2 == 1)
         && cep == Word4(raw, 10)
       case MoConfirmation(success) => raw[0] == 0x05 && |raw| == 4 && raw[3] == if success then 1 else 0
       case MtHeader(msgId, imei, flags) =>
         raw[0] == 0x41 && |raw| == 24 && msgId == Word4(raw, 3) && imei == raw[7..22] && flags == Word2(raw, 22)
       case MtPayload(payload) => raw[0] == 0x42 && payload == raw[3..]
       case MtConfirmation(msgId, imei, autoId, msgStatus) =>
         && raw[0] == 0x44 && |raw| == 28 && msgId == Word4(raw, 3) && imei == raw[7..22]
         && autoId == Word4(raw, 22) && msgStatus == Word2(raw, 26)
       case MtPriority(priority) => raw[0] == 0x46 && |raw| == 5 && priority == Word2(raw, 3)
  }

  lemma AngleIs(a: real, s: bytes, i: nat, bit: bool)
    requires i + 3 <= |s|
    ensures a == Angle(bit, s[i], FromBe(s[i + 1..i + 3])) <==> IsAngle(a, s, i, bit)
  {
    Word2Is(s, i + 1);
  }

  lemma LocationIs(raw: bytes, ie: Ie)
    requires |raw| == 14 && raw[0] == 0x03
    ensures ReadIe(0x03, raw) == Some(ie) <==> IsElement(raw, ie)
  {
    if ie.MoLocation? {
      AngleIs(ie.latitude, raw, 4, raw[3] % 4 >= 2);
      AngleIs(ie.longitude, raw, 7, raw[3] % 2 == 1);
      Word4Is(raw, 10);
    }
  }

  lemma HeadersAre(raw: bytes, ie: Ie)
    requires |raw| >= 3 && (raw[0] == 0x01 || raw[0] == 0x41)
    ensures ReadIe(raw[0], raw) == Some(ie) <==> IsElement(raw, ie)
  {
    if raw[0] == 0x01 && |raw| == 31 {
      Word4Is(raw, 3);
      Word2Is(raw, 23);
      Word2Is(raw, 25);
      Word4Is(raw, 27);
    } else if raw[0] == 0x41 && |raw| == 24 {
      Word4Is(raw, 3);
      Word2Is(raw, 22);
    }
  }

  lemma ConfirmationsAre(raw: bytes, ie: Ie)
    requires |raw| >= 3 && (raw[0] == 0x05 || raw[0] == 0x44 || raw[0] == 0x46)
    ensures ReadIe(raw[0], raw) == Some(ie) <==> IsElement(raw, ie)
  {
    if raw[0] == 0x44 && |raw| == 28 {
      Word4Is(raw, 3);
      Word4Is(raw, 22);
      Word2Is(raw, 26);
    } else if raw[0] == 0x46 && |raw| == 5 {
      Word2Is(raw, 3);
    }
  }

  lemma PayloadsAre(raw: bytes, ie: Ie)
    requires |raw| >= 3 && (raw[0] == 0x02 || raw[0] == 0x42)
    ensures ReadIe(raw[0], raw) == Some(ie) <==> IsElement(raw, ie)
  {
  }

  /** parse accepts exactly the bytes of an element of its kind, and reads what they say. */
  lemma ReadsExactly(id: byte, raw: bytes, ie: Ie)
    ensures ReadIe(id, raw) == Some(ie) <==> IsElement(raw, ie) && raw[0] == id
  {
    if |raw| >= 3 && raw[0] == id {
      if id == 0x01 || id == 0x41 {
        HeadersAre(raw, ie);
      } else if id == 0x05 || id == 0x44 || id == 0x46 {
        ConfirmationsAre(raw, ie);
      } else if id == 0x02 || id == 0x42 {
        PayloadsAre(raw, ie);
      } else if id == 0x03 && |raw| == 14 {
        LocationIs(raw, ie);
      }
    }
  }

  /** prepareRaw writes the bytes of the element. */
  lemma PrintsExactly(ie: Ie)
    requires GoodImei(ie) && PrintIe(ie).Some?
    ensures IsElement(PrintIe(ie).value, ie)
  {
    PrintThenRead(ie);
    ReadsExactly(Id(ie), PrintIe(ie).value, ie);
  }

  // ----- Which exception

  predicate KnownTag(tag: byte) { tag in {0x01, 0x02, 0x03, 0x05, 0x41, 0x42, 0x44, 0x46} }

  /** The element at an index of a complete message, or the first thing that is wrong with it. */
  ghost predicate IsNext(data: bytes, pi: nat, next: Next)
    requires pi < |data|
  {
    if pi + 3 > |data| then next == Bad(TruncatedElement)
    else if pi + 3 + Word2(data, pi + 1) > |data| then next == Bad(LengthTooBig)
    else if !KnownTag(data[pi]) then next == Bad(UnknownElement)
    else
      var raw := data[pi..pi + 3 + Word2(data, pi + 1)];
      if next.Found? then next.end == pi + |raw| && IsElement(raw, next.ie)
      else next == Bad(ParseFail) && forall ie :: !IsElement(raw, ie)
  }

  /** parseNextIe finds that. */
  lemma NextExactly(data: bytes, pi: nat)
    requires pi < |data|
    ensures IsNext(data, pi, NextIe(ReadIe, data, pi))
  {
    if pi + 3 <= |data| && pi + 3 + Word2(data, pi + 1) <= |data| && KnownTag(data[pi]) {
      var raw := data[pi..pi + 3 + Word2(data, pi + 1)];
      forall ie: Ie ensures ReadIe(data[pi], raw) == Some(ie) <==> IsElement(raw, ie) {
        ReadsExactly(data[pi], raw, ie);
      }
    }
  }

  /** The first byte of a message has to be 1, and two more are read before anything else can be wrong. */
  lemma FirstBytesExactly(read: Reader, a: byte, b: byte, c: byte)
    ensures Step(read, START, a).0 == if a == 1 then More else Raised(BadRevision)
    ensures var (first, s) := Step(read, START, a);
            var (second, t) := Step(read, s, b);
            var (third, u) := Step(read, t, c);
            second == More && third == More && u.raw == [a, b, c] && u.length == 3 + Word2([a, b, c], 1)
  {
  }
}
