/**
 The packet counting of post_message in pymavlink/mavutil.py: sequence numbers are known only modulo 256.
 */
module Loss {
  import opened Bytes
  import opened Frame
  import opened Stream

  /** System and component of a sender. */
  type Source = (int, int)

  /** The SiK radio, which reports under a fixed address: '3', 'D'. */
  const RADIO: Source := (51, 68)

  /** last_seq, mav_loss and mav_count. */
  datatype Stats = Stats(lastSeq: map<Source, int>, loss: int, count: nat)

  function SourceOf(h: Header): Source { (h.sys, h.comp) }

  predicate IsCounted(r: Received) { r.Good? && SourceOf(r.msg.header) != RADIO }

  /** How many packets are taken to be missing before this one; last is -1 for a new sender. */
  function Missed(last: int, seqNo: int): int {
    var expected := (last + 1) % 256;
    if expected != seqNo && last != -1 then (seqNo - expected) % 256 else 0
  }

  /** The sequence part of post_message. */
  function Account(st: Stats, r: Received): Stats {
    if !IsCounted(r) then st
    else
      var src, seqNo := SourceOf(r.msg.header), r.msg.header.seqNo;
      var last := if src in st.lastSeq then st.lastSeq[src] else -1;
      Stats(st.lastSeq[src := seqNo], st.loss + Missed(last, seqNo), st.count + 1)
  }

  /** A received message together with how many packets its sender had sent before it, which only the sender knows. */
  datatype Arrival = Arrival(r: Received, n: nat)

  function AccountAll(h: seq<Arrival>): Stats
    decreases |h|
  {
    if h == [] then Stats(map[], 0, 0) else Account(AccountAll(h[..|h| - 1]), h[|h| - 1].r)
  }

  /** The arrivals of one sender, as its own packet numbers. */
  function Of(h: seq<Arrival>, src: Source): (s: seq<nat>)
    decreases |h|
  {
    if h == [] then []
    else
      var a := h[|h| - 1];
      Of(h[..|h| - 1], src) + if IsCounted(a.r) && SourceOf(a.r.msg.header) == src then [a.n] else []
  }

  /** Packets the sender sent from the first one received to the last one received. */
  function Span(s: seq<nat>): int { if s == [] then 0 else s[|s| - 1] as int - s[0] as int + 1 }

  function Spans(h: seq<Arrival>, sources: seq<Source>): int {
    if sources == [] then 0 else Span(Of(h, sources[0])) + Spans(h, sources[1..])
  }

  predicate Increasing(s: seq<nat>) { forall i :: 0 < i < |s| ==> s[i - 1] < s[i] }

  /** Never more than 255 packets lost in a row. */
  predicate ShortGaps(s: seq<nat>) { forall i :: 0 < i < |s| ==> s[i] <= s[i - 1] + 256 }

  /** Every sender numbers its packets consecutively modulo 256, and packets are received in the order sent. */
  predicate Consecutive(h: seq<Arrival>) {
    forall a :: a in h && IsCounted(a.r) ==> a.r.msg.header.seqNo == a.n % 256
  }

  ghost predicate InOrder(h: seq<Arrival>) { forall src :: Increasing(Of(h, src)) }

  /** sources lists every sender heard, once. */
  ghost predicate Lists(sources: seq<Source>, h: seq<Arrival>) {
    && (forall i, j :: 0 <= i < j < |sources| ==> sources[i] != sources[j])
    && (forall a :: a in h && IsCounted(a.r) ==> SourceOf(a.r.msg.header) in sources)
  }

  /** What is remembered of a sender is the number of its last packet, modulo 256. */
  lemma {:induction false} LastSeqs(h: seq<Arrival>, src: Source)
    requires Consecutive(h)
    ensures src in AccountAll(h).lastSeq <==> Of(h, src) != []
    ensures Of(h, src) != [] ==> AccountAll(h).lastSeq[src] == Of(h, src)[|Of(h, src)| - 1] % 256
    decreases |h|
  {
    if h != [] {
      LastSeqs(h[..|h| - 1], src);
      assert h[|h| - 1] in h;
    }
  }

  lemma Remainder(x: int, k: int)
    ensures (x + 256 * k) % 256 == x % 256
  {
  }

  /** How far apart two packet numbers can be told to be from their remainders. */
  lemma MissedIsTheGap(n: nat, m: nat)
    requires n < m
    ensures Missed(n % 256, m % 256) == (m - n - 1) % 256
  {
    var k := n / 256 + (n % 256 + 1) / 256 - m / 256;
    assert m % 256 - (n % 256 + 1) % 256 == m - n - 1 + 256 * k;
    Remainder(m - n - 1, k);
  }

  /** Never overcounted, and exact up to 255 packets missed in a row. */
  lemma MissedBound(n: nat, m: nat)
    requires n < m
    ensures Missed(n % 256, m % 256) <= m - n - 1
    ensures Missed(n % 256, m % 256) == m - n - 1 <==> m <= n + 256
  {
    MissedIsTheGap(n, m);
  }

  lemma Unheard(h: seq<Arrival>, a: Arrival, sources: seq<Source>)
    requires IsCounted(a.r) ==> SourceOf(a.r.msg.header) !in sources
    ensures Spans(h + [a], sources) == Spans(h, sources)
  {
    assert (h + [a])[..|h|] == h;
    if sources != [] {
      Unheard(h, a, sources[1..]);
    }
  }

  /** An arrival lengthens the span of its own sender and no other. */
  lemma {:induction false} SpansGrow(h: seq<Arrival>, a: Arrival, sources: seq<Source>)
    requires IsCounted(a.r) && SourceOf(a.r.msg.header) in sources
    requires forall i, j :: 0 <= i < j < |sources| ==> sources[i] != sources[j]
    ensures var src := SourceOf(a.r.msg.header);
            Spans(h + [a], sources) == Spans(h, sources) + Span(Of(h, src) + [a.n]) - Span(Of(h, src))
  {
    var src := SourceOf(a.r.msg.header);
    assert (h + [a])[..|h|] == h;
    if sources[0] == src {
      Unheard(h, a, sources[1..]);
    } else {
      assert src in sources[1..];
      SpansGrow(h, a, sources[1..]);
    }
  }

  lemma InOrderBefore(h: seq<Arrival>, a: Arrival, src: Source)
    ensures Increasing(Of(h + [a], src)) ==> Increasing(Of(h, src))
    ensures ShortGaps(Of(h + [a], src)) ==> ShortGaps(Of(h, src))
    ensures !(IsCounted(a.r) && SourceOf(a.r.msg.header) == src) ==> Of(h + [a], src) == Of(h, src)
  {
    assert (h + [a])[..|h|] == h;
    var s, t := Of(h, src), Of(h + [a], src);
    assert forall i :: 0 <= i < |s| ==> t[i] == s[i];
  }

  lemma SpanGrows(s: seq<nat>, n: nat)
    ensures Span(s + [n]) - Span(s) == if s == [] then 1 else n - s[|s| - 1]
  {
  }

  /** Of the packets sent, how many an arrival is counted for: itself and those missed before it. */
  lemma CountGrows(h: seq<Arrival>, a: Arrival) returns (missed: int)
    requires Consecutive(h + [a]) && IsCounted(a.r)
    ensures var before, after := AccountAll(h), AccountAll(h + [a]);
            after.loss == before.loss + missed && after.count == before.count + 1
    ensures var s := Of(h, SourceOf(a.r.msg.header));
            missed == if s == [] then 0 else Missed(s[|s| - 1] % 256, a.n % 256)
  {
    assert (h + [a])[..|h|] == h && a in h + [a];
    assert Consecutive(h);
    LastSeqs(h, SourceOf(a.r.msg.header));
    missed := AccountAll(h + [a]).loss - AccountAll(h).loss;
  }

  lemma Appended(h: seq<Arrival>, a: Arrival)
    requires IsCounted(a.r)
    ensures Of(h + [a], SourceOf(a.r.msg.header)) == Of(h, SourceOf(a.r.msg.header)) + [a.n]
  {
    assert (h + [a])[..|h|] == h;
  }

  /** What one arrival is counted for, against what it adds to its sender's span. */
  lemma OneMore(s: seq<nat>, n: nat, missed: int)
    requires Increasing(s + [n]) && missed == if s == [] then 0 else Missed(s[|s| - 1] % 256, n % 256)
    ensures 1 + missed <= Span(s + [n]) - Span(s)
    ensures 1 + missed == Span(s + [n]) - Span(s) <==> s == [] || n <= s[|s| - 1] + 256
  {
    SpanGrows(s, n);
    if s != [] {
      assert (s + [n])[|s| - 1] < (s + [n])[|s|];
      MissedBound(s[|s| - 1], n);
    }
  }

  ghost predicate AllShortGaps(h: seq<Arrival>, sources: seq<Source>) {
    forall src :: src in sources ==> ShortGaps(Of(h, src))
  }

  lemma ShortGapsAppended(s: seq<nat>, n: nat)
    ensures ShortGaps(s + [n]) <==> ShortGaps(s) && (s == [] || n <= s[|s| - 1] + 256)
  {
    var t := s + [n];
    assert forall i :: 0 <= i < |s| ==> t[i] == s[i];
    if s != [] && ShortGaps(t) {
      assert t[|s|] <= t[|s| - 1] + 256;
    }
  }

  lemma GapsOneMore(h: seq<Arrival>, a: Arrival, sources: seq<Source>)
    requires IsCounted(a.r) && SourceOf(a.r.msg.header) in sources
    ensures var s := Of(h, SourceOf(a.r.msg.header));
            AllShortGaps(h + [a], sources) <==> AllShortGaps(h, sources) && (s == [] || a.n <= s[|s| - 1] + 256)
  {
    var src := SourceOf(a.r.msg.header);
    Appended(h, a);
    ShortGapsAppended(Of(h, src), a.n);
    forall other | other != src ensures Of(h + [a], other) == Of(h, other) {
      InOrderBefore(h, a, other);
    }
  }

  function Accounted(h: seq<Arrival>): int { AccountAll(h).loss + AccountAll(h).count }

  /** A counted arrival adds at most what it adds to the spans, and just as much unless too many were missed. */
  lemma CountedStep(g: seq<Arrival>, a: Arrival, sources: seq<Source>)
    requires Consecutive(g + [a]) && InOrder(g + [a]) && Lists(sources, g + [a]) && IsCounted(a.r)
    ensures var s, added, grown := Of(g, SourceOf(a.r.msg.header)), Accounted(g + [a]) - Accounted(g),
                                   Spans(g + [a], sources) - Spans(g, sources);
            added <= grown && (added == grown <==> s == [] || a.n <= s[|s| - 1] + 256)
  {
    assert a in g + [a];
    var s := Of(g, SourceOf(a.r.msg.header));
    Appended(g, a);
    var missed := CountGrows(g, a);
    OneMore(s, a.n, missed);
    SpansGrow(g, a, sources);
  }

  lemma UncountedStep(g: seq<Arrival>, a: Arrival, sources: seq<Source>)
    requires !IsCounted(a.r)
    ensures Accounted(g + [a]) == Accounted(g) && Spans(g + [a], sources) == Spans(g, sources)
    ensures AllShortGaps(g + [a], sources) == AllShortGaps(g, sources)
  {
    assert (g + [a])[..|g|] == g;
    Unheard(g, a, sources);
    forall src ensures Of(g + [a], src) == Of(g, src) {
      InOrderBefore(g, a, src);
    }
  }

  lemma Before(g: seq<Arrival>, a: Arrival, sources: seq<Source>)
    requires Consecutive(g + [a]) && InOrder(g + [a]) && Lists(sources, g + [a])
    ensures Consecutive(g) && InOrder(g) && Lists(sources, g)
  {
    forall src ensures Increasing(Of(g, src)) {
      InOrderBefore(g, a, src);
    }
  }

  /**
   Received plus lost is at most what was sent, however the senders interleave, and it is exactly what was sent
   when and only when no sender ever lost more than 255 packets in a row. The radio and BAD_DATA do not matter.
   */
  lemma {:induction false} ReceivedPlusLostIsSent(h: seq<Arrival>, sources: seq<Source>)
    requires Consecutive(h) && InOrder(h) && Lists(sources, h)
    ensures Accounted(h) <= Spans(h, sources)
    ensures Accounted(h) == Spans(h, sources) <==> AllShortGaps(h, sources)
    decreases |h|
  {
    if h == [] {
      NothingHeard(sources);
    } else {
      var g, a := h[..|h| - 1], h[|h| - 1];
      assert h == g + [a] && a in h;
      Before(g, a, sources);
      ReceivedPlusLostIsSent(g, sources);
      if IsCounted(a.r) {
        CountedStep(g, a, sources);
        GapsOneMore(g, a, sources);
      } else {
        UncountedStep(g, a, sources);
      }
    }
  }

  lemma {:induction false} NothingHeard(sources: seq<Source>)
    ensures Spans([], sources) == 0
  {
    if sources != [] {
      NothingHeard(sources[1..]);
    }
  }
}
