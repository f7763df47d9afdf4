/**
 What the messages that recv_msg of pymavlink/mavutil.py hands out do to the receiver, over any run of them: which
 vehicle it takes for its target, which link id it signs with, and which messages it counts.
 */
module PortRuns {
  import opened Bytes
  import opened Frame
  import opened Stream
  import opened Loss
  import opened Receive

  function PostAll(p: Port, rs: seq<Received>): Port
    decreases |rs|
  {
    if rs == [] then p else Post(PostAll(p, rs[..|rs| - 1]), rs[|rs| - 1])
  }

  /** A heartbeat that does not come from a gimbal. */
  predicate IsBeat(r: Received) { r.Good? && r.msg.def.name == "HEARTBEAT" && r.msg.header.comp != 154 }

  function SenderOf(r: Received): Source
    requires r.Good?
  {
    (r.msg.header.sys, r.msg.header.comp)
  }

  /** The last of the first n messages that is one. */
  predicate IsLastBeat(rs: seq<Received>, n: nat, j: nat)
    requires n <= |rs|
  {
    j < n && IsBeat(rs[j]) && forall k :: j < k < n ==> !IsBeat(rs[k])
  }

  /** Its sender, or what was the target before. */
  ghost predicate IsTarget(before: Source, rs: seq<Received>, n: nat, target: Source)
    requires n <= |rs|
  {
    || (exists j: nat :: IsLastBeat(rs, n, j) && target == SenderOf(rs[j]))
    || (target == before && forall k :: 0 <= k < n ==> !IsBeat(rs[k]))
  }

  lemma TargetOfPrefix(before: Source, rs: seq<Received>, n: nat, m: nat, target: Source)
    requires m <= n <= |rs|
    ensures IsTarget(before, rs[..n], m, target) <==> IsTarget(before, rs, m, target)
  {
    assert forall k :: 0 <= k < m ==> rs[..n][k] == rs[k];
    assert forall j: nat :: IsLastBeat(rs[..n], m, j) <==> IsLastBeat(rs, m, j);
  }

  lemma TargetMoves(before: Source, rs: seq<Received>, n: nat, target: Source)
    requires n < |rs| && IsTarget(before, rs, n, target)
    ensures IsTarget(before, rs, n + 1, Aim(target, rs[n]))
  {
    if IsBeat(rs[n]) {
      assert IsLastBeat(rs, n + 1, n);
    } else if j: nat :| IsLastBeat(rs, n, j) && target == SenderOf(rs[j]) {
      assert IsLastBeat(rs, n + 1, j);
    }
  }

  /** The target is the sender of the last heartbeat that is not a gimbal's. */
  lemma {:induction false} TargetExactly(p: Port, rs: seq<Received>)
    ensures IsTarget(p.target, rs, |rs|, PostAll(p, rs).target)
    decreases |rs|
  {
    if rs != [] {
      var n := |rs| - 1;
      TargetExactly(p, rs[..n]);
      TargetOfPrefix(p.target, rs, n, n, PostAll(p, rs[..n]).target);
      TargetMoves(p.target, rs, n, PostAll(p, rs[..n]).target);
    }
  }

  // ----- The link id

  /** Message k is rightly signed with a link id that is not zero, and comes from what is the target after it. */
  ghost predicate Offers(before: Source, rs: seq<Received>, k: nat, id: int)
    requires k < |rs|
  {
    && rs[k].Good? && rs[k].msg.signed && rs[k].msg.linkId.Some? && id == rs[k].msg.linkId.value as int && id != 0
    && IsTarget(before, rs, k + 1, SenderOf(rs[k]))
  }

  ghost predicate OffersNone(before: Source, rs: seq<Received>, k: nat)
    requires k < |rs|
  {
    forall id :: !Offers(before, rs, k, id)
  }

  /** The link id after the first n messages: the first one offered, if there was none at the start. */
  ghost predicate IsLink(before: Source, own: int, rs: seq<Received>, n: nat, id: int)
    requires n <= |rs|
  {
    if own != 0 then id == own
    else
      || (exists k :: 0 <= k < n && Offers(before, rs, k, id) && forall j :: 0 <= j < k ==> OffersNone(before, rs, j))
      || (id == 0 && forall j :: 0 <= j < n ==> OffersNone(before, rs, j))
  }

  lemma TargetIs(before: Source, rs: seq<Received>, n: nat, target: Source, j: nat)
    requires n <= |rs| && IsTarget(before, rs, n, target) && IsLastBeat(rs, n, j)
    ensures target == SenderOf(rs[j])
  {
    if k: nat :| IsLastBeat(rs, n, k) && target == SenderOf(rs[k]) {
      assert j == k;
    }
  }

  /** There is one target after each message. */
  lemma OneTarget(before: Source, rs: seq<Received>, n: nat, a: Source, b: Source)
    requires n <= |rs| && IsTarget(before, rs, n, a) && IsTarget(before, rs, n, b)
    ensures a == b
  {
    if j: nat :| IsLastBeat(rs, n, j) {
      TargetIs(before, rs, n, a, j);
      TargetIs(before, rs, n, b, j);
    }
  }

  lemma OffersOfPrefix(before: Source, rs: seq<Received>, n: nat, k: nat, id: int)
    requires k < n <= |rs|
    ensures Offers(before, rs[..n], k, id) <==> Offers(before, rs, k, id)
  {
    if rs[k].Good? {
      TargetOfPrefix(before, rs, n, k + 1, SenderOf(rs[k]));
    }
  }

  lemma LinkOfPrefix(before: Source, own: int, rs: seq<Received>, n: nat, id: int)
    requires n <= |rs| && IsLink(before, own, rs[..n], n, id)
    ensures IsLink(before, own, rs, n, id)
  {
    forall k, i | 0 <= k < n ensures Offers(before, rs[..n], k, i) <==> Offers(before, rs, k, i) {
      OffersOfPrefix(before, rs, n, k, i);
    }
    forall k | 0 <= k < n ensures OffersNone(before, rs[..n], k) <==> OffersNone(before, rs, k) {
      assert forall i :: Offers(before, rs[..n], k, i) <==> Offers(before, rs, k, i);
    }
  }

  /** What the next message offers is what is adopted. */
  lemma AdoptsOffer(before: Source, rs: seq<Received>, n: nat, sg: Signing, target: Source)
    requires n < |rs| && IsTarget(before, rs, n + 1, target) && sg.linkId == 0
    ensures var id := Adopt(sg, target, rs[n]).linkId;
            if id == 0 then OffersNone(before, rs, n) else Offers(before, rs, n, id)
  {
    if rs[n].Good? {
      var src := SenderOf(rs[n]);
      if IsTarget(before, rs, n + 1, src) {
        OneTarget(before, rs, n + 1, src, target);
      }
    }
  }

  /** A port without a link id of its own signs with the first one its target offers; a port with one keeps it. */
  lemma {:induction false} LinkExactly(p: Port, rs: seq<Received>)
    ensures IsLink(p.target, p.rx.sg.linkId, rs, |rs|, PostAll(p, rs).rx.sg.linkId)
    decreases |rs|
  {
    if rs != [] {
      var n, own := |rs| - 1, p.rx.sg.linkId;
      var q := PostAll(p, rs[..n]);
      LinkExactly(p, rs[..n]);
      LinkOfPrefix(p.target, own, rs, n, q.rx.sg.linkId);
      TargetExactly(p, rs);
      LinkMoves(p.target, own, rs, n, q.rx.sg, PostAll(p, rs).target);
    }
  }

  lemma LinkMoves(before: Source, own: int, rs: seq<Received>, n: nat, sg: Signing, target: Source)
    requires n < |rs| && IsLink(before, own, rs, n, sg.linkId) && IsTarget(before, rs, n + 1, target)
    ensures IsLink(before, own, rs, n + 1, Adopt(sg, target, rs[n]).linkId)
  {
    if own == 0 && sg.linkId == 0 {
      AdoptsOffer(before, rs, n, sg, target);
    }
  }

  // ----- What is counted

  /** mav_count: the messages that are not BAD_DATA and do not come from the radio "3D". */
  function Counted(rs: seq<Received>): nat {
    if rs == [] then 0
    else
      var r := rs[|rs| - 1];
      Counted(rs[..|rs| - 1]) + if r.Good? && SenderOf(r) != ('3' as int, 'D' as int) then 1 else 0
  }

  function Results(h: seq<Arrival>): (rs: seq<Received>)
    ensures |rs| == |h|
  {
    seq(|h|, i requires 0 <= i < |h| => h[i].r)
  }

  lemma {:induction false} CountsExactly(h: seq<Arrival>)
    ensures AccountAll(h).count == Counted(Results(h))
    decreases |h|
  {
    if h != [] {
      CountsExactly(h[..|h| - 1]);
      assert Results(h)[..|h| - 1] == Results(h[..|h| - 1]);
    }
  }
}
