/**
 The objects of _old_scs/iridium.py: information elements and the message that holds them.
 */
module Sbd {
  import opened Bytes
  import opened Iridium
  import opened SbdMessage

  /** A new element of the class with that tag. */
  function Blank(id: byte): Ie {
    if id == 0x01 then MoHeader(0, [], 0, 0, 0, 0)
    else if id == 0x02 then MoPayload([])
    else if id == 0x03 then MoLocation(0.0, 0.0, 0)
    else if id == 0x05 then MoConfirmation(false)
    else if id == 0x41 then MtHeader(0, [], 0)
    else if id == 0x42 then MtPayload([])
    else if id == 0x44 then MtConfirmation(0, [], 0, 0)
    else MtPriority(0)
  }

  class Element {
    var ie: Ie
    var length: nat
    var rawData: bytes

    constructor (ie: Ie)
      ensures this.ie == ie
    {
      this.ie, length, rawData := ie, 0, [];
    }

    /** parse of the class with that tag. */
    method Parse(id: byte, raw: bytes) returns (ok: bool)
      requires KnownId(id)
      modifies this
      ensures ok <==> ReadIe(id, raw).Some?
      ensures ok ==> ie == ReadIe(id, raw).value && rawData == raw && length == |raw|
    {
      rawData := raw;
      if |raw| < 3 || raw[0] != id {
        return false;
      }
      length := BodyLength(raw, 0) + 3;
      if |raw| != length {
        return false;
      }
      ok := ParseFields(id, raw);
    }

    /** The part of parse that follows the checks all classes have. */
    method ParseFields(id: byte, raw: bytes) returns (ok: bool)
      requires KnownId(id) && |raw| >= 3 && raw[0] == id && |raw| == BodyLength(raw, 0) + 3
      modifies this`ie
      ensures ok <==> ReadIe(id, raw).Some?
      ensures ok ==> ie == ReadIe(id, raw).value
    {
      var size := |raw|;
      if id == 0x02 {
        ie := MoPayload(raw[3..]);
        return true;
      } else if id == 0x42 {
        ie := MtPayload(raw[3..]);
        return true;
      } else if size != StatedLength(Blank(id)) {
        return false;
      }
      if id == 0x01 {
        if !IsSessionStatus(raw[22]) {
          return false;
        }
        ie := MoHeader(FromBe(raw[3..7]), raw[7..22], raw[22],
                       FromBe(raw[23..25]), FromBe(raw[25..27]), FromBe(raw[27..31]));
      } else if id == 0x03 {
        var lat := Angle(raw[3] / 2 % 2 == 1, raw[4], FromBe(raw[5..7]));
        var long := Angle(raw[3] % 2 == 1, raw[7], FromBe(raw[8..10]));
        ie := MoLocation(lat, long, FromBe(raw[10..14]));
      } else if id == 0x05 {
        if raw[3] > 1 {
          return false;
        }
        ie := MoConfirmation(raw[3] == 1);
      } else if id == 0x41 {
        ie := MtHeader(FromBe(raw[3..7]), raw[7..22], FromBe(raw[22..24]));
      } else if id == 0x44 {
        ie := MtConfirmation(FromBe(raw[3..7]), raw[7..22], FromBe(raw[22..26]), FromBe(raw[26..28]));
      } else {
        ie := MtPriority(FromBe(raw[3..5]));
      }
      return true;
    }

    /** prepareRaw; false where it raises. */
    method PrepareRaw() returns (ok: bool)
      modifies this`length, this`rawData
      ensures ok <==> PrintIe(ie).Some?
      ensures ok ==> rawData == PrintIe(ie).value && length == StatedLength(ie)
    {
      if !HasPrinter(ie) {
        return false;
      }
      length := StatedLength(ie);
      var n := PackBe(length - 3, 2);
      if n.None? {
        return false;
      }
      rawData := [Id(ie)] + n.value + Zeros(length - 3);
      var items, i := Items(ie), 0;
      assert items[0..] == items;
      while i < |items|
        invariant i <= |items| && length == StatedLength(ie)
        invariant WriteItems(rawData, items[i..]) == PrintIe(ie)
      {
        var item := items[i];
        assert items[i..][1..] == items[i + 1..];
        if item.data.None? || (item.to == item.from + 1 && item.from >= |rawData|) {
          return false;
        }
        rawData := SetSlice(rawData, item.from, item.to, item.data.value);
        i := i + 1;
      }
      assert items[i..] == [];
      ok := true;
    }
  }

  /** What a list of element objects stands for. */
  ghost function Values(list: seq<Element>): (ies: seq<Ie>)
    reads list
    ensures |ies| == |list|
  {
    seq(|list|, i requires 0 <= i < |list| reads list => list[i].ie)
  }

  lemma ValuesAppend(list: seq<Element>, e: Element)
    ensures Values(list + [e]) == Values(list) + [e.ie]
  {
  }

  /** Elements found before, put in front of what parseIEs finds. */
  function After(found: seq<Ie>, r: (seq<Ie>, nat, Option<Error>)): (seq<Ie>, nat, Option<Error>) {
    (found + r.0, r.1, r.2)
  }

  lemma AfterNone(r: (seq<Ie>, nat, Option<Error>))
    ensures After([], r) == r
  {
    assert [] + r.0 == r.0;
  }

  lemma ReadOn(data: bytes, pi: nat)
    requires pi < |data|
    ensures var next := NextIe(ReadIe, data, pi);
            ReadIes(ReadIe, data, pi) ==
              if next.Bad? then ([], pi, Some(next.error)) else After([next.ie], ReadIes(ReadIe, data, next.end))
  {
  }

  lemma AfterOne(found: seq<Ie>, x: Ie, r: (seq<Ie>, nat, Option<Error>))
    ensures After(found, After([x], r)) == After(found + [x], r)
  {
    Reassociate(found, [x], r.0);
  }

  class IridiumMessage {
    var protRevNumber: byte
    var length: nat
    var rawData: bytes
    var receiveIdx: nat
    var parsingIdx: nat
    var ieList: seq<Element>

    constructor ()
      ensures Valid() && ToState() == START
    {
      protRevNumber, length, rawData, receiveIdx, parsingIdx, ieList := 0, 0, [], 0, 3, [];
    }

    ghost predicate Valid() reads this { receiveIdx == |rawData| }

    ghost function ToState(): State
      reads this, ieList
    {
      State(protRevNumber, length, rawData, parsingIdx, Values(ieList))
    }

    /** parseByte. */
    method ParseByte(b: byte) returns (r: Outcome)
      requires Valid()
      modifies this
      ensures Valid() && (r, ToState()) == Step(ReadIe, old(ToState()), b)
    {
      rawData := rawData + [b];
      receiveIdx := receiveIdx + 1;
      if receiveIdx == 1 {
        protRevNumber := b;
        if b != 1 {
          return Raised(BadRevision);
        }
      } else if receiveIdx == 3 {
        length := BodyLength(rawData, 0) + 3;
      } else if length != 0 && receiveIdx == length {
        var error := ParseIEs();
        return if error.Some? then Raised(error.value) else Complete;
      }
      return More;
    }

    /** parseIEs. */
    method ParseIEs() returns (error: Option<Error>)
      requires length == |rawData|
      modifies this`parsingIdx, this`ieList
      ensures var (ies, idx, e) := ReadIes(ReadIe, rawData, old(parsingIdx));
              error == e && parsingIdx == idx && Values(ieList) == old(Values(ieList)) + ies
    {
      ghost var start, found := Values(ieList), [];
      ghost var rest := ReadIes(ReadIe, rawData, parsingIdx);
      ghost var all := rest;
      AfterNone(all);
      while parsingIdx < length
        invariant Values(ieList) == start + found
        invariant rest == ReadIes(ReadIe, rawData, parsingIdx) && all == After(found, rest)
        decreases length - parsingIdx
      {
        ghost var now := parsingIdx;
        var e, element := ParseNextIe();
        ReadOn(rawData, now);
        if e.Some? {
          return e;
        }
        ghost var x := element.value.ie;
        rest := ReadIes(ReadIe, rawData, parsingIdx);
        AfterOne(found, x, rest);
        ValuesAppend(ieList, element.value);
        Reassociate(start, found, [x]);
        ieList := ieList + [element.value];
        found := found + [x];
      }
      error := None;
    }

    /** parseNextIe. */
    method ParseNextIe() returns (error: Option<Error>, element: Option<Element>)
      requires length == |rawData| && parsingIdx < length
      modifies this`parsingIdx
      ensures match NextIe(ReadIe, rawData, old(parsingIdx))
              case Bad(e) => error == Some(e) && parsingIdx == old(parsingIdx)
              case Found(ie, end) =>
                error.None? && parsingIdx == end && element.Some? && fresh(element.value) && element.value.ie == ie
    {
      element := None;
      var pi := parsingIdx;
      if pi + 3 > |rawData| {
        return Some(TruncatedElement), None;
      }
      var ieId := rawData[pi];
      var ieLen := BodyLength(rawData, pi);
      if ieLen > length - (pi + 3) {
        return Some(LengthTooBig), None;
      }
      var ieData := rawData[pi..pi + 3 + ieLen];
      if !KnownId(ieId) {
        return Some(UnknownElement), None;
      }
      var e := new Element(Blank(ieId));
      var ok := e.Parse(ieId, ieData);
      if !ok {
        return Some(ParseFail), None;
      }
      parsingIdx := pi + 3 + ieLen;
      return None, Some(e);
    }

    /** The first i elements have printed themselves. */
    ghost predicate Prepared(i: nat)
      requires i <= |ieList|
      reads this, ieList
    {
      forall k :: 0 <= k < i ==>
        PrintIe(ieList[k].ie) == Some(ieList[k].rawData) && ieList[k].length == StatedLength(ieList[k].ie)
    }

    method PrepareElement(i: nat) returns (ok: bool)
      requires i < |ieList| && Prepared(i)
      modifies ieList
      ensures Values(ieList) == old(Values(ieList))
      ensures ok <==> PrintIe(ieList[i].ie).Some?
      ensures ok ==> Prepared(i + 1)
    {
      ok := ieList[i].PrepareRaw();
      assert forall e :: e in ieList ==> e.ie == old(e.ie);
    }

    /** The first loop of prepareRaw. */
    method PrepareElements() returns (ok: bool, totalLen: nat)
      modifies ieList
      ensures Values(ieList) == old(Values(ieList))
      ensures ok <==> PrintAll(Values(ieList)).Some?
      ensures ok ==> totalLen == TotalStated(Values(ieList)) && Prepared(|ieList|)
    {
      ghost var ies := Values(ieList);
      PrintAllIs(ies);
      totalLen := 0;
      var i := 0;
      while i < |ieList|
        invariant i <= |ieList| && Values(ieList) == ies
        invariant totalLen == TotalStated(ies[..i])
        invariant Prepared(i)
      {
        assert ieList[i].ie == ies[i];
        ok := PrepareElement(i);
        if !ok {
          return;
        }
        assert ieList[i].ie == ies[i];
        totalLen := totalLen + ieList[i].length;
        TotalPrefix(ies, i);
        i := i + 1;
      }
      assert ies[..|ies|] == ies;
      assert forall k :: 0 <= k < |ies| ==> ieList[k].ie == ies[k];
      ok := true;
    }

    lemma PreparedIs(ies: seq<Ie>, raws: seq<bytes>)
      requires Prepared(|ieList|) && ies == Values(ieList) && PrintAll(ies) == Some(raws)
      ensures forall k :: 0 <= k < |ieList| ==> ieList[k].rawData == raws[k] && ieList[k].length == StatedLength(ies[k])
    {
      PrintAllIs(ies);
      assert forall k :: 0 <= k < |ies| ==> ieList[k].ie == ies[k];
    }

    /** The second loop of prepareRaw. */
    method PlaceElements(ghost raws: seq<bytes>)
      requires |raws| == |ieList|
      requires forall k :: 0 <= k < |ieList| ==>
                 ieList[k].rawData == raws[k] && ieList[k].length == StatedLength(ieList[k].ie)
      modifies this`rawData
      ensures rawData == PlaceAll(old(rawData), 3, Values(ieList), raws)
    {
      ghost var ies := Values(ieList);
      var index: nat, i: nat := 3, 0;
      assert ies[0..] == ies && raws[0..] == raws;
      while i < |ieList|
        invariant i <= |ieList|
        invariant PlaceAll(rawData, index, ies[i..], raws[i..]) == PlaceAll(old(rawData), 3, ies, raws)
      {
        assert ies[i..][1..] == ies[i + 1..] && raws[i..][1..] == raws[i + 1..];
        rawData := SetSlice(rawData, index, index + ieList[i].length, ieList[i].rawData);
        index := index + ieList[i].length;
        i := i + 1;
      }
    }

    /** prepareRaw; false where it raises. */
    method PrepareRaw() returns (ok: bool)
      modifies this`rawData, ieList
      ensures Values(ieList) == old(Values(ieList))
      ensures ok <==> PrintMessage(Values(ieList)).Some?
      ensures ok ==> rawData == PrintMessage(Values(ieList)).value
    {
      var totalLen;
      ok, totalLen := PrepareElements();
      if !ok {
        return;
      }
      var n := PackBe(totalLen, 2);
      if n.None? {
        return false;
      }
      ghost var raws := PrintAll(Values(ieList)).value;
      PreparedIs(Values(ieList), raws);
      rawData := [1] + n.value + Zeros(totalLen);
      PlaceElements(raws);
    }
  }

  lemma {:induction false} PrintAllIs(ies: seq<Ie>)
    ensures PrintAll(ies).Some? <==> forall k :: 0 <= k < |ies| ==> PrintIe(ies[k]).Some?
    ensures PrintAll(ies).Some? ==> forall k :: 0 <= k < |ies| ==> PrintIe(ies[k]) == Some(PrintAll(ies).value[k])
  {
    if ies != [] {
      PrintAllIs(ies[1..]);
      assert forall k :: 0 < k < |ies| ==> ies[k] == ies[1..][k - 1];
    }
  }

  lemma {:induction false} TotalPrefix(ies: seq<Ie>, i: nat)
    requires i < |ies|
    ensures TotalStated(ies[..i + 1]) == TotalStated(ies[..i]) + StatedLength(ies[i])
  {
    if i == 0 {
      assert ies[..1] == [ies[0]] && [ies[0]][1..] == [] && ies[..0] == [];
    } else {
      assert ies[..i + 1][1..] == ies[1..][..i] && ies[..i][1..] == ies[1..][..i - 1];
      TotalPrefix(ies[1..], i - 1);
    }
  }
}
