/**
 Which frames the byte-at-a-time parser of pymavlink/mavnative/mavnative.c finds in any stream, good and damaged
 frames alike: it reads as a scanner of whole frames would that takes a checksum byte that does not match as the
 first byte of what follows.
 */
module NativeStream {
  import opened Bytes
  import opened Layout
  import opened Native
  import Crc

  // ----- A scanner of whole frames

  /** A frame that was found, and what of damaged frames right before it is still kept with its bytes. */
  datatype Reading = Reading(before: bytes, frame: bytes)

  /** What the checksum bytes after a header and payload should spell; a message nobody knows has extra byte zero. */
  function RightSum(dialect: map<nat, MsgDef>, body: bytes): nat
    requires |body| >= 6
  {
    Crc.Checksum(body[1..] + [if body[5] in dialect then CrcExtra(dialect[body[5]]) else 0])
  }

  function Sums(dialect: map<nat, MsgDef>): bytes -> nat {
    (body: bytes) => if |body| >= 6 then RightSum(dialect, body) else 0
  }

  /** The frames in a stream, and how many damaged ones there are. */
  function Scan(sumOf: bytes -> nat, before: bytes, s: bytes): (seq<Reading>, nat)
    decreases |s|, 1
  {
    if s == [] then ([], 0)
    else if s[0] != 0xFE then Scan(sumOf, [], s[1..])
    else if |s| <= 6 + PayloadOf(s) then ([], 0)
    else
      var k := 6 + PayloadOf(s);
      var sum := sumOf(s[..k]);
      if s[k] != sum % 256 then Damaged(sumOf, before, s, k)
      else if |s| == k + 1 then ([], 0)
      else if s[k + 1] != sum / 256 then Damaged(sumOf, before, s, k + 1)
      else
        var (later, faults) := Scan(sumOf, [], s[k + 2..]);
        ([Reading(before, s[..k + 2])] + later, faults)
  }

  /** The byte at k does not match: it may start the next frame, and nothing before it can. */
  function Damaged(sumOf: bytes -> nat, before: bytes, s: bytes, k: nat): (seq<Reading>, nat)
    requires 0 < k < |s|
    decreases |s|, 0
  {
    var (later, faults) := Scan(sumOf, before + s[..k], s[k..]);
    (later, faults + 1)
  }

  /** The announced payload length. */
  function PayloadOf(s: bytes): nat { if |s| > 1 then s[1] else 0 }

  /** The machine that was left when a frame was found. */
  ghost predicate IsRead(m: Machine, r: Reading) {
    && m.state.Idle? && m.raw == r.before + r.frame && |r.frame| >= 8 && |r.frame| == m.len as int + 8
    && m.len == r.frame[1] && m.seqNo == r.frame[2] && m.sysid == r.frame[3] && m.compid == r.frame[4]
    && m.msgid == r.frame[5] && m.payload[..m.len] == r.frame[6..|r.frame| - 2]
    && m.payload[m.len] == r.frame[|r.frame| - 2] && m.payload[m.len + 1] == r.frame[|r.frame| - 1]
  }

  /** The completed machines and the machine at the end of a run, for what the scanner finds. */
  ghost predicate IsScan(m: Machine, run: (seq<Machine>, Machine), found: (seq<Reading>, nat)) {
    && |run.0| == |found.0| && (forall i :: 0 <= i < |found.0| ==> IsRead(run.0[i], found.0[i]))
    && run.1.received == m.received + |found.0| && run.1.parseErrors == m.parseErrors + found.1
  }

  // ----- The machine inside a frame

  /** The frame that a stream begins with, filled up with zeros where the stream ends early. */
  function Announced(s: bytes): (f: bytes)
    requires s != []
    ensures Sized(f) && f[0] == s[0] && f[1] == PayloadOf(s)
    ensures forall i :: 0 <= i < |f| && i < |s| ==> f[i] == s[i]
  {
    var n := PayloadOf(s);
    if |s| >= n + 8 then s[..n + 8] else s + Zeros(n + 8 - |s|)
  }

  /** The same machine without what it still keeps from before the frame. */
  ghost predicate Within(dialect: map<nat, MsgDef>, m: Machine, before: bytes, f: bytes, k: nat)
    requires Sized(f)
  {
    Sound(m) && k < |f| && m.raw == before + f[..k] && InFrame(dialect, m.(raw := f[..k]), f, k)
  }

  predicate IsIdle(m: Machine) { m.state.Idle? || m.state.Uninit? }

  /** In header and payload the bytes kept so far do not matter. */
  lemma HeaderKeepsBefore(dialect: map<nat, MsgDef>, m: Machine, before: bytes, raw: bytes, c: byte)
    requires Sound(m) && m.raw == before + raw
    requires m.state.GotStx? || m.state.GotLength? || m.state.GotSeq? || m.state.GotSysid? || m.state.GotCompid?
    ensures IsKept(Step(dialect, m.(raw := raw), c), Step(dialect, m, c), before, raw + [c])
  {
    Reassociate(before, raw, [c]);
  }

  lemma PayloadKeepsBefore(dialect: map<nat, MsgDef>, m: Machine, before: bytes, raw: bytes, c: byte)
    requires Sound(m) && m.raw == before + raw && m.state.GotMsgid?
    ensures IsKept(Step(dialect, m.(raw := raw), c), Step(dialect, m, c), before, raw + [c])
  {
    Reassociate(before, raw, [c]);
  }

  ghost predicate IsKept(bare: (bool, Machine), full: (bool, Machine), before: bytes, raw: bytes) {
    bare.0 == full.0 && bare.1.raw == raw && full.1 == bare.1.(raw := before + raw)
  }

  /** One byte of header or payload. */
  lemma WithinStep(dialect: map<nat, MsgDef>, m: Machine, before: bytes, f: bytes, k: nat) returns (n: Machine)
    requires Sized(f) && Within(dialect, m, before, f, k) && k < |f| - 2
    ensures Step(dialect, m, f[k]) == (false, n) && Within(dialect, n, before, f, k + 1)
    ensures n.received == m.received && n.parseErrors == m.parseErrors
  {
    var bare := m.(raw := f[..k]);
    n := Step(dialect, m, f[k]).1;
    assert f[..k + 1] == f[..k] + [f[k]];
    if k < 6 {
      HeaderKeepsBefore(dialect, m, before, f[..k], f[k]);
      HeaderByte(dialect, bare, f, k);
    } else {
      PayloadKeepsBefore(dialect, m, before, f[..k], f[k]);
      PayloadByte(dialect, bare, f, k);
    }
    CountsStay(dialect, m, f[k]);
  }

  lemma CountsStay(dialect: map<nat, MsgDef>, m: Machine, c: byte)
    requires Sound(m) && !m.state.GotPayload? && !m.state.GotCrc1?
    ensures Step(dialect, m, c).1.received == m.received && Step(dialect, m, c).1.parseErrors == m.parseErrors
  {
  }

  /** All the bytes of header and payload that there are, up to j. */
  lemma {:induction false} WithinRun(dialect: map<nat, MsgDef>, m: Machine, before: bytes, f: bytes, s: bytes, k: nat,
                                     j: nat) returns (n: Machine)
    requires Sized(f) && Within(dialect, m, before, f, k)
    requires k <= j <= |s| && j <= |f| - 2 && forall i :: k <= i < j ==> s[i] == f[i]
    ensures Within(dialect, n, before, f, j) && Run(dialect, m, s[k..]) == Run(dialect, n, s[j..])
    ensures n.received == m.received && n.parseErrors == m.parseErrors
    decreases j - k
  {
    if k == j {
      n := m;
    } else {
      var next := WithinOne(dialect, m, before, f, s, k);
      n := WithinRun(dialect, next, before, f, s, k + 1, j);
    }
  }

  lemma WithinOne(dialect: map<nat, MsgDef>, m: Machine, before: bytes, f: bytes, s: bytes, k: nat)
    returns (n: Machine)
    requires Sized(f) && Within(dialect, m, before, f, k) && k < |s| && k < |f| - 2 && s[k] == f[k]
    ensures Within(dialect, n, before, f, k + 1) && Run(dialect, m, s[k..]) == Run(dialect, n, s[k + 1..])
    ensures n.received == m.received && n.parseErrors == m.parseErrors
  {
    n := WithinStep(dialect, m, before, f, k);
    RunQuietly(dialect, m, s, k, n);
  }

  lemma RunQuietly(dialect: map<nat, MsgDef>, m: Machine, s: bytes, k: nat, n: Machine)
    requires Sound(m) && Sound(n) && k < |s| && Step(dialect, m, s[k]) == (false, n)
    ensures Run(dialect, m, s[k..]) == Run(dialect, n, s[k + 1..])
  {
    assert s[k..][0] == s[k] && s[k..][1..] == s[k + 1..];
    RunStep(dialect, m, s[k..], false, n);
    assert [] + Run(dialect, n, s[k + 1..]).0 == Run(dialect, n, s[k + 1..]).0;
  }

  /** The register when the checksum bytes arrive. */
  lemma SumOfBody(dialect: map<nat, MsgDef>, f: bytes)
    requires Sized(f)
    ensures RightSum(dialect, f[..|f| - 2]) == SumOf(dialect, f) as int
  {
    var k := |f| - 2;
    assert f[..k][1..] == f[1..k];
    Crc.Chains(Crc.INIT, f[1..k], [ExtraOf(dialect, f[5])]);
  }

  lemma SumIsRight(dialect: map<nat, MsgDef>, s: bytes, k: nat) returns (sum: nat)
    requires Reaches(s, k)
    ensures sum == SumOf(dialect, Announced(s)) as int == Sums(dialect)(s[..k])
  {
    var f := Announced(s);
    assert s[..k] == f[..k];
    SumOfBody(dialect, f);
    sum := SumOf(dialect, f) as int;
  }

  /** The machine at a start byte. */
  ghost predicate Starts(m: Machine, before: bytes) {
    m.state.GotStx? && m.checksum == Crc.INIT && m.raw == before + [0xFE]
  }

  lemma StartsWithin(dialect: map<nat, MsgDef>, m: Machine, before: bytes, f: bytes)
    requires Sized(f) && f[0] == 0xFE && Starts(m, before)
    ensures Within(dialect, m, before, f, 1)
  {
    assert f[1..1] == [] && f[..1] == [0xFE];
  }

  /** A start byte at an idle machine. */
  lemma StartByte(dialect: map<nat, MsgDef>, m: Machine) returns (n: Machine)
    requires Sound(m) && IsIdle(m)
    ensures Step(dialect, m, 0xFE) == (false, n) && Sound(n) && Starts(n, []) && SameCounts(m, n)
  {
    n := Step(dialect, m, 0xFE).1;
    assert [] + [0xFE] == [0xFE];
  }

  ghost predicate SameCounts(m: Machine, n: Machine) { n.received == m.received && n.parseErrors == m.parseErrors }

  /** The machine after a checksum byte that did not match: idle, or at a start byte. */
  ghost predicate Resumes(m: Machine, n: Machine, before: bytes, c: byte) {
    && Sound(n) && n.received == m.received && n.parseErrors == m.parseErrors + 1
    && if c == 0xFE then Starts(n, before) else n.state.Idle?
  }

  lemma FirstMisses(dialect: map<nat, MsgDef>, m: Machine, c: byte) returns (n: Machine)
    requires Sound(m) && m.state.GotPayload? && c != Update(m.checksum, ExtraOf(dialect, m.msgid)) as int % 256
    ensures Step(dialect, m, c) == (false, n) && Resumes(m, n, m.raw, c)
  {
    n := Step(dialect, m, c).1;
  }

  lemma LastMisses(dialect: map<nat, MsgDef>, m: Machine, c: byte) returns (n: Machine)
    requires Sound(m) && m.state.GotCrc1? && c != m.checksum as int / 256
    ensures Step(dialect, m, c) == (false, n) && Resumes(m, n, m.raw, c)
  {
    n := Step(dialect, m, c).1;
  }

  /** The first checksum byte matches. */
  lemma FirstSum(dialect: map<nat, MsgDef>, m: Machine, raw: bytes, f: bytes)
    requires Sized(f) && InFrame(dialect, m.(raw := raw), f, |f| - 2)
    ensures m.state.GotPayload? && SumOf(dialect, f) == Update(m.checksum, ExtraOf(dialect, m.msgid))
  {
  }

  lemma FirstMatches(dialect: map<nat, MsgDef>, m: Machine, before: bytes, f: bytes) returns (n: Machine)
    requires Sized(f) && Within(dialect, m, before, f, |f| - 2) && f[|f| - 2] == SumOf(dialect, f) as int % 256
    ensures Step(dialect, m, f[|f| - 2]) == (false, n) && Within(dialect, n, before, f, |f| - 1)
    ensures n.received == m.received && n.parseErrors == m.parseErrors
  {
    var k, sum, c := |f| - 2, SumOf(dialect, f), f[|f| - 2];
    var bare := m.(raw := f[..k]);
    FirstSum(dialect, m, f[..k], f);
    MatchesFirst(dialect, m, c, sum);
    MatchesFirst(dialect, bare, c, sum);
    FirstInFrame(dialect, bare, f);
    n := m.(state := GotCrc1, checksum := sum, raw := m.raw + [c], payload := m.payload[m.packetIdx := c]);
    assert f[..k + 1] == f[..k] + [c];
    Reassociate(before, f[..k], [c]);
    assert n.(raw := f[..k + 1]) == Step(dialect, bare, c).1;
  }

  /** Both match, and the frame is complete. */
  lemma LastMatches(dialect: map<nat, MsgDef>, m: Machine, before: bytes, f: bytes) returns (n: Machine)
    requires Sized(f) && Within(dialect, m, before, f, |f| - 1) && f[|f| - 1] == SumOf(dialect, f) as int / 256
    ensures Sound(n) && Step(dialect, m, f[|f| - 1]) == (true, n) && IsRead(n, Reading(before, f))
    ensures n.received == m.received + 1 && n.parseErrors == m.parseErrors
  {
    var k := |f| - 1;
    n := Step(dialect, m, f[k]).1;
    assert f[..k + 1] == f[..k] + [f[k]];
    Reassociate(before, f[..k], [f[k]]);
    MatchesLast(dialect, m.(raw := f[..k]), f[k]);
    LastInFrame(dialect, m.(raw := f[..k]), f);
    MatchesLast(dialect, m, f[k]);
  }

  /** Either outcome at the first checksum byte. */
  lemma FirstByte(dialect: map<nat, MsgDef>, m: Machine, before: bytes, f: bytes, sum: nat) returns (n: Machine)
    requires Sized(f) && Within(dialect, m, before, f, |f| - 2) && sum == SumOf(dialect, f) as int
    ensures Step(dialect, m, f[|f| - 2]) == (false, n)
    ensures if f[|f| - 2] == sum % 256 then Within(dialect, n, before, f, |f| - 1) && SameCounts(m, n)
            else Resumes(m, n, before + f[..|f| - 2], f[|f| - 2])
  {
    if f[|f| - 2] == sum % 256 {
      n := FirstMatches(dialect, m, before, f);
    } else {
      FirstSum(dialect, m, f[..|f| - 2], f);
      n := FirstMisses(dialect, m, f[|f| - 2]);
    }
  }

  /** Either outcome at the second one. */
  lemma LastByte(dialect: map<nat, MsgDef>, m: Machine, before: bytes, f: bytes, sum: nat) returns (n: Machine)
    requires Sized(f) && Within(dialect, m, before, f, |f| - 1) && sum == SumOf(dialect, f) as int
    ensures Step(dialect, m, f[|f| - 1]) == (f[|f| - 1] == sum / 256, n)
    ensures if f[|f| - 1] == sum / 256 then Finishes(m, n, Reading(before, f))
            else Resumes(m, n, before + f[..|f| - 1], f[|f| - 1])
  {
    if f[|f| - 1] == sum / 256 {
      n := LastMatches(dialect, m, before, f);
    } else {
      LastSum(dialect, m, before, f);
      n := LastMisses(dialect, m, f[|f| - 1]);
    }
  }

  lemma LastSum(dialect: map<nat, MsgDef>, m: Machine, before: bytes, f: bytes)
    requires Sized(f) && Within(dialect, m, before, f, |f| - 1)
    ensures m.state.GotCrc1? && m.checksum == SumOf(dialect, f) && m.raw == before + f[..|f| - 1] && Sound(m)
  {
  }

  ghost predicate Finishes(m: Machine, n: Machine, r: Reading) {
    Sound(n) && IsRead(n, r) && n.received == m.received + 1 && n.parseErrors == m.parseErrors
  }

  // ----- The scanner at a start byte

  /** A frame that a stream begins with, of which at least the first checksum byte is there. */
  predicate Reaches(s: bytes, k: nat) { |s| > k && s[0] == 0xFE && k == 6 + PayloadOf(s) }

  lemma ScanFirstMisses(sumOf: bytes -> nat, before: bytes, s: bytes, k: nat)
    requires Reaches(s, k) && s[k] != sumOf(s[..k]) % 256
    ensures Scan(sumOf, before, s) == Damaged(sumOf, before, s, k)
  {
  }

  lemma ScanLastMisses(sumOf: bytes -> nat, before: bytes, s: bytes, k: nat)
    requires Reaches(s, k) && s[k] == sumOf(s[..k]) % 256
    requires |s| > k + 1 && s[k + 1] != sumOf(s[..k]) / 256
    ensures Scan(sumOf, before, s) == Damaged(sumOf, before, s, k + 1)
  {
  }

  lemma ScanMatches(sumOf: bytes -> nat, before: bytes, s: bytes, k: nat)
    requires Reaches(s, k) && s[k] == sumOf(s[..k]) % 256
    requires |s| > k + 1 && s[k + 1] == sumOf(s[..k]) / 256
    ensures var (later, faults) := Scan(sumOf, [], s[k + 2..]);
            Scan(sumOf, before, s) == ([Reading(before, s[..k + 2])] + later, faults)
  {
  }

  lemma ScanEndsEarly(sumOf: bytes -> nat, before: bytes, s: bytes, k: nat)
    requires Reaches(s, k) && |s| == k + 1 && s[k] == sumOf(s[..k]) % 256
    ensures Scan(sumOf, before, s) == ([], 0)
  {
  }

  // ----- Whole streams

  /** The machine after a checksum byte that did not match, and the frames it finds then. */
  lemma {:induction false} DamagedRun(dialect: map<nat, MsgDef>, m: Machine, n: Machine, before: bytes, s: bytes,
                                      k: nat, kept: bytes, run: (seq<Machine>, Machine), found: (seq<Reading>, nat))
    requires Sound(m) && 0 < k < |s| && Step(dialect, m, s[k]) == (false, n)
    requires kept == before + s[..k] && Resumes(m, n, kept, s[k])
    requires run == Run(dialect, m, s[k..]) && found == Damaged(Sums(dialect), before, s, k)
    ensures IsScan(m, run, found)
    decreases |s| - 1, 3
  {
    RunQuietly(dialect, m, s, k, n);
    assert s[k..][1..] == s[k + 1..];
    if s[k] == 0xFE {
      StartedRun(dialect, n, kept, s[k..]);
    } else {
      RunIsScan(dialect, n, s[k + 1..]);
    }
  }

  /** From a start byte on. */
  lemma {:induction false} StartedRun(dialect: map<nat, MsgDef>, m: Machine, before: bytes, s: bytes)
    requires s != [] && s[0] == 0xFE && Starts(m, before)
    ensures IsScan(m, Run(dialect, m, s[1..]), Scan(Sums(dialect), before, s))
    decreases |s|, 2
  {
    var f, k := Announced(s), 6 + PayloadOf(s);
    StartsWithin(dialect, m, before, f);
    if |s| <= k {
      var n := WithinRun(dialect, m, before, f, s, 1, |s|);
    } else {
      var n := WithinRun(dialect, m, before, f, s, 1, k);
      var sum := SumIsRight(dialect, s, k);
      StartedSum(dialect, n, before, f, s, k, sum, Run(dialect, n, s[k..]), Scan(Sums(dialect), before, s));
    }
  }

  lemma SumByte(dialect: map<nat, MsgDef>, m: Machine, before: bytes, f: bytes, s: bytes, k: nat, sum: nat)
    returns (n: Machine, kept: bytes)
    requires Reaches(s, k) && f == Announced(s) && sum == SumOf(dialect, f) as int
    requires Within(dialect, m, before, f, k)
    ensures kept == before + s[..k] && Sound(m) && Step(dialect, m, s[k]) == (false, n)
    ensures if s[k] == sum % 256 then Within(dialect, n, before, f, k + 1) && SameCounts(m, n)
            else Resumes(m, n, kept, s[k])
  {
    n := FirstByte(dialect, m, before, f, sum);
    kept := before + f[..k];
    SameStart(s, k);
  }

  lemma SameScan(m: Machine, n: Machine, run: (seq<Machine>, Machine), found: (seq<Reading>, nat))
    requires SameCounts(m, n) && IsScan(n, run, found)
    ensures IsScan(m, run, found)
  {
  }

  /** Where the first checksum byte arrives. */
  lemma {:induction false} StartedSum(dialect: map<nat, MsgDef>, m: Machine, before: bytes, f: bytes, s: bytes, k: nat,
                                      sum: nat, run: (seq<Machine>, Machine), found: (seq<Reading>, nat))
    requires Reaches(s, k) && f == Announced(s) && sum == SumOf(dialect, f) as int == Sums(dialect)(s[..k])
    requires Within(dialect, m, before, f, k)
    requires run == Run(dialect, m, s[k..]) && found == Scan(Sums(dialect), before, s)
    ensures IsScan(m, run, found)
    decreases |s|, 1
  {
    var n, kept := SumByte(dialect, m, before, f, s, k, sum);
    if s[k] == sum % 256 {
      SumMatches(dialect, m, n, before, f, s, k, sum, run, found);
    } else {
      ScanFirstMisses(Sums(dialect), before, s, k);
      DamagedRun(dialect, m, n, before, s, k, kept, run, found);
    }
  }

  lemma {:induction false} SumMatches(dialect: map<nat, MsgDef>, m: Machine, n: Machine, before: bytes, f: bytes,
                                      s: bytes, k: nat, sum: nat, run: (seq<Machine>, Machine),
                                      found: (seq<Reading>, nat))
    requires Reaches(s, k) && f == Announced(s) && sum == SumOf(dialect, f) as int == Sums(dialect)(s[..k])
    requires s[k] == sum % 256 && Sound(m) && Step(dialect, m, s[k]) == (false, n)
    requires Within(dialect, n, before, f, k + 1) && SameCounts(m, n)
    requires run == Run(dialect, m, s[k..]) && found == Scan(Sums(dialect), before, s)
    ensures IsScan(m, run, found)
    decreases |s|, 0
  {
    RunQuietly(dialect, m, s, k, n);
    if |s| == k + 1 {
      ScanEndsEarly(Sums(dialect), before, s, k);
    } else {
      StartedEnd(dialect, n, before, f, s, k, sum, run, found);
      SameScan(m, n, run, found);
    }
  }

  lemma EndByte(dialect: map<nat, MsgDef>, m: Machine, before: bytes, f: bytes, s: bytes, k: nat, sum: nat)
    returns (n: Machine, kept: bytes)
    requires Reaches(s, k) && |s| > k + 1 && f == Announced(s) && sum == SumOf(dialect, f) as int
    requires Within(dialect, m, before, f, k + 1)
    ensures f == s[..k + 2] && kept == before + s[..k + 1] && Sound(m)
    ensures Step(dialect, m, s[k + 1]) == (s[k + 1] == sum / 256, n)
    ensures if s[k + 1] == sum / 256 then Finishes(m, n, Reading(before, f)) else Resumes(m, n, kept, s[k + 1])
  {
    n := LastByte(dialect, m, before, f, sum);
    kept := before + f[..k + 1];
    SameStart(s, k + 1);
    WholeFrame(s, k);
  }

  /** The end of a frame whose first checksum byte matches. */
  lemma {:induction false} StartedEnd(dialect: map<nat, MsgDef>, m: Machine, before: bytes, f: bytes, s: bytes, k: nat,
                                      sum: nat, run: (seq<Machine>, Machine), found: (seq<Reading>, nat))
    requires Reaches(s, k) && |s| > k + 1 && f == Announced(s) && sum == SumOf(dialect, f) as int
    requires sum == Sums(dialect)(s[..k]) && s[k] == sum % 256 && Within(dialect, m, before, f, k + 1)
    requires run == Run(dialect, m, s[k + 1..]) && found == Scan(Sums(dialect), before, s)
    ensures IsScan(m, run, found)
    decreases |s| - 1, 6
  {
    var n, kept := EndByte(dialect, m, before, f, s, k, sum);
    if s[k + 1] == sum / 256 {
      EndGood(dialect, m, n, before, f, s, k, run, found);
    } else {
      EndDamaged(dialect, m, n, before, s, k, kept, run, found);
    }
  }

  lemma {:induction false} EndDamaged(dialect: map<nat, MsgDef>, m: Machine, n: Machine, before: bytes, s: bytes,
                                      k: nat, kept: bytes, run: (seq<Machine>, Machine), found: (seq<Reading>, nat))
    requires Reaches(s, k) && |s| > k + 1 && s[k] == Sums(dialect)(s[..k]) % 256
    requires s[k + 1] != Sums(dialect)(s[..k]) / 256
    requires Sound(m) && Step(dialect, m, s[k + 1]) == (false, n)
    requires kept == before + s[..k + 1] && Resumes(m, n, kept, s[k + 1])
    requires run == Run(dialect, m, s[k + 1..]) && found == Scan(Sums(dialect), before, s)
    ensures IsScan(m, run, found)
    decreases |s| - 1, 4
  {
    ScanLastMisses(Sums(dialect), before, s, k);
    DamagedRun(dialect, m, n, before, s, k + 1, kept, run, found);
  }

  lemma {:induction false} EndGood(dialect: map<nat, MsgDef>, m: Machine, n: Machine, before: bytes, f: bytes, s: bytes,
                                   k: nat, run: (seq<Machine>, Machine), found: (seq<Reading>, nat))
    requires Reaches(s, k) && |s| > k + 1 && s[k] == Sums(dialect)(s[..k]) % 256
    requires s[k + 1] == Sums(dialect)(s[..k]) / 256
    requires Sound(m) && Step(dialect, m, s[k + 1]) == (true, n)
    requires f == s[..k + 2] && Finishes(m, n, Reading(before, f))
    requires run == Run(dialect, m, s[k + 1..]) && found == Scan(Sums(dialect), before, s)
    ensures IsScan(m, run, found)
    decreases |s| - 1, 4
  {
    ScanMatches(Sums(dialect), before, s, k);
    CompletedRun(dialect, m, n, Reading(before, f), s, k + 2, run, Scan(Sums(dialect), [], s[k + 2..]));
  }

  lemma SameStart(s: bytes, k: nat)
    requires 0 < k < |s| && k < |Announced(s)|
    ensures Announced(s)[..k] == s[..k] && Announced(s)[k] == s[k]
  {
  }

  lemma WholeFrame(s: bytes, k: nat)
    requires Reaches(s, k) && |s| > k + 1
    ensures Announced(s) == s[..k + 2]
  {
  }

  lemma {:induction false} CompletedRun(dialect: map<nat, MsgDef>, m: Machine, n: Machine, r: Reading, s: bytes,
                                        end: nat, run: (seq<Machine>, Machine), later: (seq<Reading>, nat))
    requires Sound(m) && 1 < end <= |s| && Step(dialect, m, s[end - 1]) == (true, n) && Finishes(m, n, r)
    requires run == Run(dialect, m, s[end - 1..]) && later == Scan(Sums(dialect), [], s[end..])
    ensures IsScan(m, run, ([r] + later.0, later.1))
    decreases |s| - 1, 3
  {
    var onward := Run(dialect, n, s[end..]);
    RunOnward(dialect, m, n, s, end, run, onward);
    RunIsScan(dialect, n, s[end..]);
    ScanOnward(m, n, r, onward, later);
  }

  lemma RunOnward(dialect: map<nat, MsgDef>, m: Machine, n: Machine, s: bytes, end: nat, run: (seq<Machine>, Machine),
                  onward: (seq<Machine>, Machine))
    requires Sound(m) && Sound(n) && 1 < end <= |s| && Step(dialect, m, s[end - 1]) == (true, n)
    requires run == Run(dialect, m, s[end - 1..]) && onward == Run(dialect, n, s[end..])
    ensures run == ([n] + onward.0, onward.1)
  {
    assert s[end - 1..][0] == s[end - 1] && s[end - 1..][1..] == s[end..];
    RunStep(dialect, m, s[end - 1..], true, n);
  }

  lemma ScanOnward(m: Machine, n: Machine, r: Reading, run: (seq<Machine>, Machine), found: (seq<Reading>, nat))
    requires Finishes(m, n, r) && IsScan(n, run, found)
    ensures IsScan(m, ([n] + run.0, run.1), ([r] + found.0, found.1))
  {
  }

  /** An idle machine reads every stream as the scanner does. */
  lemma {:induction false} RunIsScan(dialect: map<nat, MsgDef>, m: Machine, s: bytes)
    requires Sound(m) && IsIdle(m)
    ensures IsScan(m, Run(dialect, m, s), Scan(Sums(dialect), [], s))
    decreases |s|, 3
  {
    if s != [] {
      assert s[0..] == s;
      if s[0] == 0xFE {
        var n := StartByte(dialect, m);
        RunQuietly(dialect, m, s, 0, n);
        StartedRun(dialect, n, [], s);
      } else {
        RunQuietly(dialect, m, s, 0, m);
        RunIsScan(dialect, m, s[1..]);
      }
    }
  }

  // ----- What this says of a damaged frame

  /** The first byte of a frame that is not what it should be is the checksum byte at k. */
  ghost predicate FailsAt(dialect: map<nat, MsgDef>, f: bytes, k: nat) {
    && Sized(f) && f[0] == 0xFE
    && var sum := RightSum(dialect, f[..|f| - 2]);
       if f[|f| - 2] == sum % 256 then k == |f| - 1 && f[k] != sum / 256 else k == |f| - 2
  }

  /** A frame whose checksum bytes are right. */
  ghost predicate Passes(dialect: map<nat, MsgDef>, f: bytes) {
    && Sized(f) && f[0] == 0xFE
    && f[|f| - 2] == RightSum(dialect, f[..|f| - 2]) % 256 && f[|f| - 1] == RightSum(dialect, f[..|f| - 2]) / 256
  }

  /** Right checksum bytes: the frame is found. */
  lemma ScanPasses(dialect: map<nat, MsgDef>, before: bytes, f: bytes, rest: bytes)
    requires Passes(dialect, f)
    ensures var (later, faults) := Scan(Sums(dialect), [], rest);
            Scan(Sums(dialect), before, f + rest) == ([Reading(before, f)] + later, faults)
  {
    var s, k := f + rest, |f| - 2;
    assert s[..k] == f[..k] && s[..k + 2] == f && s[k + 2..] == rest;
    ScanMatches(Sums(dialect), before, s, k);
  }

  /** A wrong checksum byte: the next frame may start with it. */
  lemma ScanFails(dialect: map<nat, MsgDef>, before: bytes, f: bytes, k: nat, rest: bytes)
    requires FailsAt(dialect, f, k)
    ensures var (later, faults) := Scan(Sums(dialect), before + f[..k], [f[k]] + rest);
            Scan(Sums(dialect), before, f[..k + 1] + rest) == (later, faults + 1)
  {
    var s, e := f[..k + 1] + rest, |f| - 2;
    CutAt(f, k, rest, e);
    CutAt(f, k, rest, k);
    if k == e {
      ScanFirstMisses(Sums(dialect), before, s, e);
    } else {
      ScanLastMisses(Sums(dialect), before, s, e);
    }
  }

  lemma CutAt(f: bytes, k: nat, rest: bytes, e: nat)
    requires e <= k < |f|
    ensures var s := f[..k + 1] + rest;
            |s| == k + 1 + |rest| && s[e] == f[e] && s[..e] == f[..e] && s[k..] == [f[k]] + rest
            && (|f| > 1 && k >= 1 ==> s[1] == f[1]) && s[0] == f[0]
  {
  }

  lemma ScanSkips(dialect: map<nat, MsgDef>, before: bytes, c: byte, rest: bytes)
    requires c != 0xFE
    ensures Scan(Sums(dialect), before, [c] + rest) == Scan(Sums(dialect), [], rest)
  {
    assert ([c] + rest)[1..] == rest;
  }

  /** A wrong checksum byte that is no start byte: what follows is read as by an idle machine. */
  lemma DamagedFrameIsDropped(dialect: map<nat, MsgDef>, m: Machine, f: bytes, k: nat, rest: bytes)
    requires Sound(m) && IsIdle(m) && FailsAt(dialect, f, k) && f[k] != 0xFE
    ensures var (later, faults) := Scan(Sums(dialect), [], rest);
            IsScan(m, Run(dialect, m, f[..k + 1] + rest), (later, faults + 1))
  {
    RunIsScan(dialect, m, f[..k + 1] + rest);
    ScanFails(dialect, [], f, k, rest);
    ScanSkips(dialect, [] + f[..k], f[k], rest);
  }

  /** In particular a good frame that follows is found, whatever comes before and after. */
  lemma NextFrameIsFound(dialect: map<nat, MsgDef>, m: Machine, f: bytes, k: nat, g: bytes, rest: bytes)
    requires Sound(m) && IsIdle(m) && FailsAt(dialect, f, k) && f[k] != 0xFE && Passes(dialect, g)
    ensures var complete := Run(dialect, m, f[..k + 1] + (g + rest)).0;
            complete != [] && IsRead(complete[0], Reading([], g))
  {
    DamagedFrameIsDropped(dialect, m, f, k, g + rest);
    ScanPasses(dialect, [], g, rest);
  }

  lemma JoinAt(f: bytes, k: nat, g: bytes, rest: bytes)
    requires k < |f| && g != [] && f[k] == g[0]
    ensures [f[k]] + (g[1..] + rest) == g + rest && [] + f[..k] == f[..k]
    ensures f[..k + 1] + (g[1..] + rest) == f[..k] + (g + rest)
  {
  }

  /** A wrong checksum byte that is a start byte: a frame that starts with it is found. */
  lemma FrameAtDamageIsFound(dialect: map<nat, MsgDef>, m: Machine, f: bytes, k: nat, g: bytes, rest: bytes)
    requires Sound(m) && IsIdle(m) && FailsAt(dialect, f, k) && f[k] == 0xFE && Passes(dialect, g)
    ensures var complete := Run(dialect, m, f[..k] + (g + rest)).0;
            complete != [] && IsRead(complete[0], Reading(f[..k], g))
  {
    var tail := g[1..] + rest;
    JoinAt(f, k, g, rest);
    ScanFails(dialect, [], f, k, tail);
    ScanPasses(dialect, f[..k], g, rest);
    RunIsScan(dialect, m, f[..k] + (g + rest));
  }

  /** The machine after header and payload of a frame. */
  lemma AtTheSum(dialect: map<nat, MsgDef>, m: Machine, f: bytes, s: bytes) returns (n: Machine)
    requires Sound(m) && IsIdle(m) && Sized(f) && f[0] == 0xFE && s <= f && |s| >= |f| - 1
    ensures Within(dialect, n, [], f, |f| - 2) && Run(dialect, m, s) == Run(dialect, n, s[|f| - 2..])
    ensures SameCounts(m, n)
  {
    var a := StartByte(dialect, m);
    assert s[0..] == s;
    RunQuietly(dialect, m, s, 0, a);
    StartsWithin(dialect, a, [], f);
    n := WithinRun(dialect, a, [], f, s, 1, |f| - 2);
  }

  lemma OneByteRun(dialect: map<nat, MsgDef>, m: Machine, s: bytes, k: nat, n: Machine, run: (seq<Machine>, Machine))
    requires Sound(m) && Sound(n) && k + 1 == |s| && Step(dialect, m, s[k]) == (false, n)
    requires run == Run(dialect, m, s[k..])
    ensures run == ([], n)
  {
    RunQuietly(dialect, m, s, k, n);
    assert s[k + 1..] == [];
  }

  lemma ResumesLater(m: Machine, m': Machine, n: Machine, before: bytes, c: byte)
    requires Resumes(m', n, before, c) && SameCounts(m, m')
    ensures Resumes(m, n, before, c)
  {
  }

  /** The machine right after the damaged frame has completed nothing, and is idle or at a start byte. */
  lemma AfterDamage(dialect: map<nat, MsgDef>, m: Machine, f: bytes, k: nat, run: (seq<Machine>, Machine))
    requires Sound(m) && IsIdle(m) && FailsAt(dialect, f, k) && run == Run(dialect, m, f[..k + 1])
    ensures run.0 == [] && Resumes(m, run.1, f[..k], f[k])
  {
    var s, e := f[..k + 1], |f| - 2;
    var a := AtTheSum(dialect, m, f, s);
    SumOfBody(dialect, f);
    assert [] + f[..k] == f[..k];
    DamageAtSum(dialect, a, f, k, SumOf(dialect, f) as int, run);
    ResumesLater(m, a, run.1, f[..k], f[k]);
  }

  lemma DamageAtSum(dialect: map<nat, MsgDef>, m: Machine, f: bytes, k: nat, sum: nat, run: (seq<Machine>, Machine))
    requires Sized(f) && Within(dialect, m, [], f, |f| - 2) && sum == SumOf(dialect, f) as int
    requires if f[|f| - 2] == sum % 256 then k == |f| - 1 && f[k] != sum / 256 else k == |f| - 2
    requires run == Run(dialect, m, f[..k + 1][|f| - 2..])
    ensures run.0 == [] && Resumes(m, run.1, [] + f[..k], f[k])
  {
    var s, e := f[..k + 1], |f| - 2;
    var n := FirstByte(dialect, m, [], f, sum);
    if k == e {
      OneByteRun(dialect, m, s, e, n, run);
    } else {
      RunQuietly(dialect, m, s, e, n);
      DamageAtLast(dialect, n, f, sum, run);
      ResumesLater(m, n, run.1, [] + f[..k], f[k]);
    }
  }

  lemma DamageAtLast(dialect: map<nat, MsgDef>, m: Machine, f: bytes, sum: nat, run: (seq<Machine>, Machine))
    requires Sized(f) && Within(dialect, m, [], f, |f| - 1) && sum == SumOf(dialect, f) as int
    requires f[|f| - 1] != sum / 256 && run == Run(dialect, m, f[..|f|][|f| - 1..])
    ensures run.0 == [] && Resumes(m, run.1, [] + f[..|f| - 1], f[|f| - 1])
  {
    var n := LastByte(dialect, m, [], f, sum);
    OneByteRun(dialect, m, f[..|f|], |f| - 1, n, run);
  }
}
