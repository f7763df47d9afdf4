/**
 Missions with jumps: view_indexes, view_list and polygon_list of pymavlink/mavwp.py.
 */
module Mission {
  import opened Bytes

  const DO_JUMP := 177

  /** A waypoint; locations are the commands for which is_location_command holds. */
  datatype Waypoint = Waypoint(command: int, param1: real, x: real, y: real)

  datatype Plan = Plan(wps: seq<Waypoint>, locations: set<int>)
  {
    function Count(): int { |wps| }

    /** wp(i) finds something: Python counts negative indexes from the end. */
    predicate Exists(i: int) { -|wps| <= i < |wps| }

    function Wp(i: int): Waypoint
      requires Exists(i)
    {
      if i < 0 then wps[|wps| + i] else wps[i]
    }

    predicate HasPlace(i: int)
      requires Exists(i)
    {
      Wp(i).x != 0.0 || Wp(i).y != 0.0
    }

    predicate IsJump(i: int)
      requires Exists(i)
    {
      Wp(i).command == DO_JUMP
    }

    /** int(w.param1), towards zero. */
    function Target(i: int): int
      requires Exists(i)
    {
      var p := Wp(i).param1;
      if p >= 0.0 then p.Floor else 0 - (-p).Floor
    }

    /** A waypoint that is drawn when it is reached. */
    predicate IsDrawn(i: int)
      requires Exists(i)
    {
      !IsJump(i) && HasPlace(i) && Wp(i).command in locations
    }

    /** A jump to a waypoint of the mission, by its own number. */
    predicate GoodJump(i: int)
      requires Exists(i)
    {
      IsJump(i) ==> 0 <= Target(i) < Count()
    }
  }

  /** Indexes from a up to b. */
  function Range(a: int, b: int): (r: set<int>)
    ensures forall i :: i in r <==> a <= i < b
    ensures |r| == if a <= b then b - a else 0
    decreases b - a
  {
    if a >= b then {} else {a} + Range(a + 1, b)
  }

  /** Every index that wp can be asked for with success. */
  function Universe(p: Plan): set<int> { Range(-p.Count(), p.Count()) }

  /** A list of indexes to draw, the done set after it, and the indexes in the order they became done. */
  datatype Walk = Walk(list: seq<int>, done: set<int>, order: seq<int>) | Crashed

  /** What a walk gives when it goes on after some steps. */
  function Prepend(list: seq<int>, order: seq<int>, w: Walk): Walk {
    if w.Crashed? then w else Walk(list + w.list, w.done, order + w.order)
  }

  /** One if in a list. */
  function If(b: bool, i: int): seq<int> { if b then [i] else [] }

  /** The second loop of view_indexes. */
  function Follow(p: Plan, done: set<int>, idx: int): Walk
    requires -p.Count() <= idx
    decreases |Universe(p) - done|
  {
    if idx >= p.Count() then Walk([], done, [])
    else if idx in done then Walk(If(p.HasPlace(idx), idx), done, [])
    else
      LessToDo(p, done, idx);
      if p.IsJump(idx) then
        var to := p.Target(idx);
        if !p.Exists(to) then Crashed
        else Prepend(If(p.HasPlace(to), to), [idx], Follow(p, done + {idx}, to))
      else Prepend(If(p.IsDrawn(idx), idx), [idx], Follow(p, done + {idx}, idx + 1))
  }

  lemma LessToDo(p: Plan, done: set<int>, idx: int)
    requires p.Exists(idx) && idx !in done
    ensures |Universe(p) - (done + {idx})| < |Universe(p) - done|
  {
    var now, later := Universe(p) - done, Universe(p) - (done + {idx});
    assert idx in now && later == now - {idx};
  }

  /** The first loop of view_indexes. */
  function FirstNotDone(p: Plan, done: set<int>, idx: nat): (i: nat)
    requires idx <= p.Count()
    ensures idx <= i <= p.Count() && (i < p.Count() ==> i !in done)
    ensures forall k :: idx <= k < i ==> k in done
    decreases p.Count() - idx
  {
    if idx < p.Count() && idx in done then FirstNotDone(p, done, idx + 1) else idx
  }

  /** view_indexes. */
  function ViewIndexes(p: Plan, done: set<int>): Walk {
    Follow(p, done, FirstNotDone(p, done, 0))
  }

  /** Looping: the loop would go round for ever without changing anything. */
  datatype View = View(lists: seq<seq<int>>, done: set<int>, order: seq<int>) | Failed | Looping

  function AddList(list: seq<int>, order: seq<int>, v: View): View {
    if v.View? then View((if list != [] then [list] else []) + v.lists, v.done, order + v.order) else v
  }

  /** The loop of view_list. */
  function ViewFrom(p: Plan, done: set<int>): View
    decreases |Universe(p) - done|
  {
    if |done| == p.Count() then View([], done, [])
    else
      match ViewIndexes(p, done)
      case Crashed => Failed
      case Walk(list, done', order) =>
        FollowGrows(p, done, FirstNotDone(p, done, 0));
        if done' == done then Looping
        else
          MoreDone(p, done, done', order);
          AddList(list, order, ViewFrom(p, done'))
  }

  /** view_list. */
  function ViewList(p: Plan): View { ViewFrom(p, {}) }

  // ----- What a walk does to the done set

  predicate NoRepeats(s: seq<int>) { forall i, j :: 0 <= i < j < |s| ==> s[i] != s[j] }

  function Elements(s: seq<int>): (r: set<int>)
    ensures forall i :: i in r <==> i in s
  {
    set i | i in s
  }

  /** The indexes that became done are new, different, and all there are. */
  ghost predicate Grows(done: set<int>, done': set<int>, order: seq<int>) {
    && NoRepeats(order) && (forall i :: i in order ==> i !in done)
    && done' == done + Elements(order)
  }

  lemma GrowsBy(done: set<int>, idx: int, done': set<int>, order: seq<int>)
    requires idx !in done && Grows(done + {idx}, done', order)
    ensures Grows(done, done', [idx] + order)
  {
  }

  lemma MoreDone(p: Plan, done: set<int>, done': set<int>, order: seq<int>)
    requires Grows(done, done', order) && done' != done && forall i :: i in order ==> p.Exists(i)
    ensures |Universe(p) - done'| < |Universe(p) - done|
  {
    assert order == [] ==> Elements(order) == {};
    var i := order[0];
    var now, later := Universe(p) - done, Universe(p) - done';
    assert i in now && later <= now - {i};
    SubsetSize(later, now - {i});
  }

  lemma SubsetSize(a: set<int>, b: set<int>)
    requires a <= b
    ensures |a| <= |b|
  {
    var rest := b - a;
    assert b == a + rest && a !! rest;
  }

  lemma {:induction false} FollowGrows(p: Plan, done: set<int>, idx: int)
    requires -p.Count() <= idx
    ensures var w := Follow(p, done, idx);
            w.Walk? ==> Grows(done, w.done, w.order) && (forall i :: i in w.order ==> p.Exists(i))
    decreases |Universe(p) - done|
  {
    if idx < p.Count() && idx !in done {
      LessToDo(p, done, idx);
      var to := if p.IsJump(idx) then p.Target(idx) else idx + 1;
      if !p.IsJump(idx) || p.Exists(to) {
        FollowGrows(p, done + {idx}, to);
        var w := Follow(p, done + {idx}, to);
        if w.Walk? {
          GrowsBy(done, idx, w.done, w.order);
        }
      }
    }
  }

  /** The point a walk starts at becomes done. */
  lemma FollowStarts(p: Plan, done: set<int>, idx: int)
    requires p.Exists(idx)
    ensures Follow(p, done, idx).Walk? ==> idx in Follow(p, done, idx).done
    ensures Follow(p, done, idx).Walk? && idx !in done ==> Follow(p, done, idx).done != done
  {
    FollowGrows(p, done, idx);
    if idx !in done && Follow(p, done, idx).Walk? {
      assert idx in Follow(p, done, idx).order;
    }
  }

  // ----- Good missions

  /** Every jump goes to a waypoint of the mission. */
  ghost predicate AllJumpsGood(p: Plan) { forall i :: 0 <= i < p.Count() ==> p.GoodJump(i) }

  lemma {:induction false} FollowGood(p: Plan, done: set<int>, idx: int)
    requires AllJumpsGood(p) && 0 <= idx <= p.Count() && done <= Range(0, p.Count())
    ensures Follow(p, done, idx).Walk? && Follow(p, done, idx).done <= Range(0, p.Count())
    decreases |Universe(p) - done|
  {
    if idx < p.Count() && idx !in done {
      LessToDo(p, done, idx);
      assert p.GoodJump(idx);
      FollowGood(p, done + {idx}, if p.IsJump(idx) then p.Target(idx) else idx + 1);
    }
  }

  lemma FullRange(a: set<int>, n: nat)
    requires a <= Range(0, n)
    ensures |a| == n <==> a == Range(0, n)
  {
    var rest := Range(0, n) - a;
    assert Range(0, n) == a + rest && a !! rest;
    if |a| == n {
      assert |rest| == 0 && rest == {};
    }
  }

  /** The loop of view_list makes every index done, from wherever it starts, cyclic jumps included. */
  lemma {:induction false} ViewGood(p: Plan, done: set<int>)
    requires AllJumpsGood(p) && done <= Range(0, p.Count())
    ensures ViewFrom(p, done).View? && ViewFrom(p, done).done == Range(0, p.Count())
    decreases |Universe(p) - done|
  {
    FullRange(done, p.Count());
    if |done| != p.Count() {
      var first := FirstNotDone(p, done, 0);
      if first < p.Count() {
        FollowGood(p, done, first);
        FollowStarts(p, done, first);
        FollowGrows(p, done, first);
        var w := ViewIndexes(p, done);
        MoreDone(p, done, w.done, w.order);
        ViewGood(p, w.done);
      }
    }
  }

  // ----- What a finished view says about the mission

  /** Where a jump that has been followed goes is there, and done. */
  ghost predicate JumpsFollowed(p: Plan, order: seq<int>, done: set<int>) {
    forall i :: i in order && p.Exists(i) && p.IsJump(i) ==> p.Exists(p.Target(i)) && p.Target(i) in done
  }

  lemma {:induction false} FollowJumps(p: Plan, done: set<int>, idx: int)
    requires -p.Count() <= idx
    ensures var w := Follow(p, done, idx); w.Walk? ==> JumpsFollowed(p, w.order, w.done)
    decreases |Universe(p) - done|
  {
    if idx < p.Count() && idx !in done {
      LessToDo(p, done, idx);
      var to := if p.IsJump(idx) then p.Target(idx) else idx + 1;
      if !p.IsJump(idx) || p.Exists(to) {
        FollowJumps(p, done + {idx}, to);
        if p.IsJump(idx) {
          FollowStarts(p, done + {idx}, to);
        }
      }
    }
  }

  /** Drawn waypoints that became done are in the list; whatever is in the list is there and has a place. */
  ghost predicate Draws(p: Plan, order: seq<int>, list: seq<int>) {
    && (forall i :: i in order && p.Exists(i) && p.IsDrawn(i) ==> i in list)
    && (forall i :: i in list ==> p.Exists(i) && p.HasPlace(i))
  }

  lemma {:induction false} FollowDraws(p: Plan, done: set<int>, idx: int)
    requires -p.Count() <= idx
    ensures var w := Follow(p, done, idx); w.Walk? ==> Draws(p, w.order, w.list)
    decreases |Universe(p) - done|
  {
    if idx < p.Count() && idx !in done {
      LessToDo(p, done, idx);
      var to := if p.IsJump(idx) then p.Target(idx) else idx + 1;
      if !p.IsJump(idx) || p.Exists(to) {
        FollowDraws(p, done + {idx}, to);
      }
    }
  }

  ghost predicate InSome(i: int, lists: seq<seq<int>>) { exists k :: 0 <= k < |lists| && i in lists[k] }

  ghost predicate DrawsAll(p: Plan, order: seq<int>, lists: seq<seq<int>>) {
    && (forall i :: i in order && p.Exists(i) && p.IsDrawn(i) ==> InSome(i, lists))
    && (forall i :: InSome(i, lists) ==> p.Exists(i) && p.HasPlace(i))
  }

  lemma DrawsMore(p: Plan, order: seq<int>, list: seq<int>, order': seq<int>, lists: seq<seq<int>>)
    requires Draws(p, order, list) && DrawsAll(p, order', lists)
    ensures DrawsAll(p, order + order', (if list != [] then [list] else []) + lists)
  {
    var all := (if list != [] then [list] else []) + lists;
    forall i ensures InSome(i, all) <==> i in list || InSome(i, lists) {
      if i in list {
        assert all[0] == list;
      }
      if InSome(i, lists) {
        var k :| 0 <= k < |lists| && i in lists[k];
        assert all[k + |all| - |lists|] == lists[k];
      }
    }
  }

  lemma GrowsOn(done: set<int>, mid: set<int>, end: set<int>, a: seq<int>, b: seq<int>)
    requires Grows(done, mid, a) && Grows(mid, end, b)
    ensures Grows(done, end, a + b)
  {
    forall i, j | 0 <= i < j < |a + b| ensures (a + b)[i] != (a + b)[j] {
      if i < |a| <= j {
        assert a[i] in mid && b[j - |a|] in b;
      }
    }
    assert Elements(a + b) == Elements(a) + Elements(b);
  }

  /** What holds of every view that is finished, jumps good or not. */
  ghost predicate Finished(p: Plan, done: set<int>, v: View) {
    v.View? ==> Grows(done, v.done, v.order) && JumpsFollowed(p, v.order, v.done) && DrawsAll(p, v.order, v.lists)
  }

  lemma {:induction false} ViewFinishes(p: Plan, done: set<int>)
    ensures Finished(p, done, ViewFrom(p, done))
    decreases |Universe(p) - done|
  {
    if |done| != p.Count() {
      var first := FirstNotDone(p, done, 0);
      FollowGrows(p, done, first);
      FollowJumps(p, done, first);
      FollowDraws(p, done, first);
      var w := ViewIndexes(p, done);
      if w.Walk? && w.done != done {
        MoreDone(p, done, w.done, w.order);
        ViewFinishes(p, w.done);
        var v := ViewFrom(p, w.done);
        if v.View? {
          GrowsOn(done, w.done, v.done, w.order, v.order);
          DrawsMore(p, w.order, w.list, v.order, v.lists);
        }
      }
    }
  }

  /**
   view_list ends with exactly the indexes of the mission done if and only if every jump goes to a waypoint of the
   mission.
   */
  lemma ViewListCompletes(p: Plan)
    ensures ViewList(p).View? && ViewList(p).done == Range(0, p.Count()) <==> AllJumpsGood(p)
  {
    if AllJumpsGood(p) {
      ViewGood(p, {});
    }
    ViewFinishes(p, {});
    var v := ViewList(p);
    if v.View? && v.done == Range(0, p.Count()) {
      forall i | 0 <= i < p.Count() ensures p.GoodJump(i) {
        assert i in v.done && i in v.order;
      }
    }
  }

  /** Then each index became done exactly once, and every drawn waypoint is in some list. */
  lemma GoodMissionIsDrawn(p: Plan)
    requires AllJumpsGood(p)
    ensures var v := ViewList(p);
            && v.View? && NoRepeats(v.order) && (forall i :: i in v.order <==> 0 <= i < p.Count())
            && (forall i :: 0 <= i < p.Count() && p.IsDrawn(i) ==> InSome(i, v.lists))
            && (forall i :: InSome(i, v.lists) ==> p.Exists(i) && p.HasPlace(i))
  {
    ViewListCompletes(p);
    ViewFinishes(p, {});
    var v := ViewList(p);
    assert forall i :: i in v.order <==> i in v.done;
  }

  /** One jump past the end of the mission: view_list raises. */
  lemma JumpPastTheEnd()
    ensures ViewList(Plan([Waypoint(DO_JUMP, 1.0, 0.0, 0.0)], {})).Failed?
  {
    var p := Plan([Waypoint(DO_JUMP, 1.0, 0.0, 0.0)], {});
    assert FirstNotDone(p, {}, 0) == 0 && p.IsJump(0) && p.Target(0) == 1;
    assert Follow(p, {}, 0).Crashed?;
  }

  /** One jump to index -1, which Python takes for the last waypoint: view_list never returns. */
  lemma JumpBeforeTheStart()
    ensures ViewList(Plan([Waypoint(DO_JUMP, -1.0, 0.0, 0.0)], {})).Looping?
  {
    var p := Plan([Waypoint(DO_JUMP, -1.0, 0.0, 0.0)], {});
    assert p.IsJump(0) && p.IsJump(-1) && p.Target(0) == p.Target(-1) == -1;
    assert !p.HasPlace(-1);
    var d0, d1: set<int> := {0}, {0, -1};
    assert Follow(p, d1, -1) == Walk([], d1, []);
    assert d0 + {-1} == d1 && {} + {0} == d0;
    assert Follow(p, d0, -1).Walk? && Follow(p, d0, -1).done == d1;
    assert Follow(p, {}, 0).Walk? && Follow(p, {}, 0).done == d1;
    assert FirstNotDone(p, {}, 0) == 0 && FirstNotDone(p, d1, 0) == 1;
    assert ViewIndexes(p, d1) == Walk([], d1, []);
    assert |d1| == 2;
    assert ViewFrom(p, d1).Looping?;
  }

  // ----- Polygons

  /** polygon: the places of a list of indexes. */
  function Points(p: Plan, list: seq<int>): (r: seq<(real, real)>)
    requires forall i :: 0 <= i < |list| ==> p.Exists(list[i])
    ensures |r| == |list|
  {
    seq(|list|, k requires 0 <= k < |list| => (p.Wp(list[k]).x, p.Wp(list[k]).y))
  }
}
