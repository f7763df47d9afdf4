/**
 The DFReader_binary object of pymavlink/DFReader.py.
 */
module DataFlashReader {
  import opened Bytes
  import opened DataFlash
  import opened DataFlashLog
  import D = DataFlash

  class DFReaderBinary {
    const data: bytes
    var offset: nat
    var remaining: int
    var formats: map<byte, Fmt>

    /** The fields as __init__ sets them before its clock pass. */
    constructor (data: bytes)
      ensures this.data == data && ToReader() == Rewound(data, START_FORMATS)
    {
      this.data := data;
      offset, remaining, formats := 0, |data|, START_FORMATS;
    }

    function ToReader(): Reader reads this { Reader(offset, remaining, formats) }

    /** __init__, with a clock pass of n messages; None where an exception ends it. */
    static method Open(data: bytes, n: nat) returns (r: Option<DFReaderBinary>)
      ensures r.Some? <==> Opened(data, n).Some?
      ensures r.Some? ==> fresh(r.value) && r.value.data == data && r.value.ToReader() == Opened(data, n).value
    {
      var reader := new DFReaderBinary(data);
      var ok := reader.InitClock(n);
      return if ok then Some(reader) else None;
    }

    /** _rewind. */
    method Rewind()
      modifies this`offset, this`remaining
      ensures ToReader() == Rewound(data, formats)
    {
      offset, remaining := 0, |data|;
    }

    /** recv_msg. */
    method RecvMsg(ghost next: Parser) returns (m: Outcome)
      requires IsParser(next, data)
      modifies this
      ensures (m, ToReader()) == next(old(ToReader()))
    {
      assert next(ToReader()) == D.ParseNext(data, ToReader()) by {
        var asked := Balanced(data, ToReader());
      }
      m := ParseNext();
    }

    /** The loop of init_clock, where it has its clock after n messages; false where an exception ends it. */
    method ClockPass(n: nat, ghost next: Parser) returns (ok: bool)
      requires IsParser(next, data)
      modifies this
      ensures var r := Pass(next, old(ToReader()), n);
              (ok <==> r.Some?) && (ok ==> ToReader() == r.value)
    {
      var left := n;
      while left > 0
        invariant 0 <= left <= n
        invariant Pass(next, ToReader(), left) == Pass(next, old(ToReader()), n)
        decreases left
      {
        var m := RecvMsg(next);
        left := left - 1;
        if m.Nothing? {
          return true;
        } else if !m.Got? {
          return false;
        }
      }
      return true;
    }

    /** init_clock. */
    method InitClock(n: nat) returns (ok: bool)
      modifies this
      ensures var r := Pass(ParserOf(data), Rewound(data, old(formats)), n);
              (ok <==> r.Some?) && (ok ==> ToReader() == Rewound(data, r.value.formats))
    {
      Rewind();
      ok := ClockPass(n, ParserOf(data));
      Rewind();
    }

    /** The loop of _parse_next that skips bad bytes; false when it reaches the end of the data. */
    method SkipBad() returns (found: bool)
      requires offset + 3 <= |data|
      modifies this`offset
      ensures found <==> NextHead(data, formats, old(offset)).Some?
      ensures offset == if found then NextHead(data, formats, old(offset)).value else |data| - 2
    {
      while !(data[offset] == HEAD1 && data[offset + 1] == HEAD2 && data[offset + 2] in formats)
        invariant offset + 3 <= |data|
        invariant NextHead(data, formats, offset) == NextHead(data, formats, old(offset))
        decreases |data| - offset
      {
        offset := offset + 1;
        if |data| - offset < 3 {
          return false;
        }
      }
      return true;
    }

    /** The end of _parse_next, for a body that fits. */
    method Take(start: nat, fmt: Fmt, body: bytes) returns (m: Outcome)
      requires offset == start + 3
      modifies this
      ensures (m, ToReader()) == TakeRecord(old(ToReader()), Record(start, fmt, body))
    {
      var d := DeclarationOf(Record(start, fmt, body));
      if d.Fails? {
        return Raised;
      } else if d.Odd? {
        return OddFmt;
      } else if d.Learns? {
        formats := formats[d.fmt.kind := d.fmt];
      }
      offset := start + fmt.len;
      remaining := remaining - (fmt.len - 3);
      return Got(Record(start, fmt, body));
    }

    /** _parse_next up to the body; the index of the record's head. */
    method FindBody() returns (j: Option<nat>)
      modifies this`offset, this`remaining
      ensures (j, ToReader()) == ToBody(data, old(ToReader()))
    {
      if |data| - offset < 3 {
        return None;
      }
      var start := offset;
      var found := SkipBad();
      if !found {
        return None;
      }
      var skipped := offset - start;
      if skipped != 0 {
        if remaining < TAIL {
          return None;
        }
        remaining := remaining - skipped;
      }
      var head := offset;
      offset := offset + 3;
      remaining := remaining - 3;
      if remaining < formats[data[head + 2]].len - 3 {
        return None;
      }
      return Some(head);
    }

    /** _parse_next from the body on. */
    method ParseBody(j: nat) returns (m: Outcome)
      requires IsHead(data, formats, j) && offset == j + 3
      modifies this
      ensures (m, ToReader()) == AfterHead(data, old(ToReader()), j)
      decreases |data| - offset, 1
    {
      var fmt := formats[data[j + 2]];
      var body := Slice(data, offset, offset + (fmt.len - 3));
      if StructSize(fmt.format) == Some(|body|) {
        m := Take(j, fmt, body);
      } else if remaining < TAIL {
        m := Nothing;
      } else {
        m := ParseNext();
      }
    }

    /** _parse_next. */
    method ParseNext() returns (m: Outcome)
      modifies this
      ensures (m, ToReader()) == D.ParseNext(data, old(ToReader()))
      decreases |data| - offset, 0
    {
      ParseUnfolds(data, ToReader());
      var j := FindBody();
      if j.None? {
        return Nothing;
      }
      m := ParseBody(j.value);
    }
  }
}
