/**
 Which indexes the walks of pymavlink/mavwp.py put in their lists, in which order, and where each walk starts and
 stops.
 */
module MissionPath {
  import opened Mission
  import WaypointLoader

  /** Where the walk goes from a waypoint: command 177 is a jump. */
  function NextOf(p: Plan, i: int): int
    requires p.Exists(i)
  {
    if p.Wp(i).command == 177 then p.Target(i) else i + 1
  }

  /** A jump goes to its parameter, cut towards zero. */
  lemma TargetIsCut(p: Plan, i: int)
    requires p.Exists(i)
    ensures var (t, x) := (p.Target(i), p.Wp(i).param1);
            if x >= 0.0 then t >= 0 && t as real <= x < t as real + 1.0
            else t <= 0 && t as real - 1.0 < x <= t as real
  {
  }

  predicate AtOrigin(w: Waypoint) { w.x == 0.0 && w.y == 0.0 }

  /** What passing waypoint i appends: the target of a jump, or the waypoint itself if it is a location. */
  function Appended(p: Plan, i: int): seq<int>
    requires p.Exists(i)
  {
    if p.Wp(i).command == 177 then
      if p.Exists(NextOf(p, i)) && !AtOrigin(p.Wp(NextOf(p, i))) then [NextOf(p, i)] else []
    else if !AtOrigin(p.Wp(i)) && p.Wp(i).command in p.locations then [i]
    else []
  }

  /** The indexes passed from start on, and where the walk is after them. */
  ghost predicate IsPath(p: Plan, order: seq<int>, start: int, end: int)
    decreases |order|
  {
    if order == [] then end == start
    else order[0] == start && p.Exists(start) && IsPath(p, order[1..], NextOf(p, start), end)
  }

  function Passed(p: Plan, order: seq<int>): seq<int>
    requires forall k :: 0 <= k < |order| ==> p.Exists(order[k])
  {
    if order == [] then [] else Appended(p, order[0]) + Passed(p, order[1..])
  }

  /** A waypoint that was met before closes the list. */
  function Closing(p: Plan, end: int): seq<int> {
    if p.Exists(end) && !AtOrigin(p.Wp(end)) then [end] else []
  }

  /** One walk: where it starts, the indexes that become done, and the index it stops at. */
  datatype Leg = Leg(start: int, order: seq<int>, end: int)

  /** It follows the mission through indexes not done before, and stops past the end or at an index that is done. */
  ghost predicate IsLeg(p: Plan, done: set<int>, leg: Leg) {
    && IsPath(p, leg.order, leg.start, leg.end) && Grows(done, done + Elements(leg.order), leg.order)
    && (forall k :: 0 <= k < |leg.order| ==> p.Exists(leg.order[k]))
    && (leg.end >= p.Count() || leg.end in done + Elements(leg.order))
  }

  function ListOf(p: Plan, leg: Leg): seq<int>
    requires forall k :: 0 <= k < |leg.order| ==> p.Exists(leg.order[k])
  {
    Passed(p, leg.order) + Closing(p, leg.end)
  }

  lemma FirstStep(p: Plan, done: set<int>, idx: int, leg: Leg)
    requires p.Exists(idx) && idx !in done
    requires IsLeg(p, done + {idx}, leg) && leg.start == NextOf(p, idx)
    ensures IsLeg(p, done, Leg(idx, [idx] + leg.order, leg.end))
    ensures ListOf(p, Leg(idx, [idx] + leg.order, leg.end)) == Appended(p, idx) + ListOf(p, leg)
  {
    var order := [idx] + leg.order;
    assert order[1..] == leg.order;
    GrowsBy(done, idx, done + {idx} + Elements(leg.order), leg.order);
    assert done + Elements(order) == done + {idx} + Elements(leg.order);
    assert Passed(p, order) == Appended(p, idx) + Passed(p, leg.order);
  }

  predicate Raises(p: Plan, i: int) { p.Exists(i) && p.Wp(i).command == 177 && !p.Exists(p.Target(i)) }

  lemma FollowStops(p: Plan, done: set<int>, idx: int)
    requires -p.Count() <= idx && (idx >= p.Count() || idx in done)
    ensures Follow(p, done, idx) == Walk(Closing(p, idx), done, [])
  {
  }

  lemma FollowRaises(p: Plan, done: set<int>, idx: int)
    requires p.Exists(idx) && idx !in done && Raises(p, idx)
    ensures Follow(p, done, idx).Crashed?
  {
  }

  lemma FollowPasses(p: Plan, done: set<int>, idx: int)
    requires p.Exists(idx) && idx !in done && !Raises(p, idx)
    ensures Follow(p, done, idx) == Prepend(Appended(p, idx), [idx], Follow(p, done + {idx}, NextOf(p, idx)))
  {
  }

  /** What a walk is, seen from its path. */
  ghost predicate Describes(p: Plan, done: set<int>, leg: Leg, w: Walk) {
    if w.Crashed? then IsPath(p, leg.order, leg.start, leg.end) && Raises(p, leg.end)
    else
      && IsLeg(p, done, leg) && w.order == leg.order && w.done == done + Elements(leg.order)
      && w.list == ListOf(p, leg)
  }

  lemma DescribesOnward(p: Plan, done: set<int>, idx: int, leg: Leg, w: Walk)
    requires p.Exists(idx) && idx !in done && leg.start == NextOf(p, idx) && Describes(p, done + {idx}, leg, w)
    ensures Describes(p, done, Leg(idx, [idx] + leg.order, leg.end), Prepend(Appended(p, idx), [idx], w))
  {
    var order := [idx] + leg.order;
    assert order[1..] == leg.order;
    if w.Walk? {
      FirstStep(p, done, idx, leg);
      assert done + Elements(order) == done + {idx} + Elements(leg.order);
    }
  }

  /** The second loop of view_indexes follows the mission; it raises at a jump whose target does not exist. */
  lemma {:induction false} FollowsPath(p: Plan, done: set<int>, idx: int) returns (leg: Leg)
    requires -p.Count() <= idx
    ensures leg.start == idx && Describes(p, done, leg, Follow(p, done, idx))
    decreases |Universe(p) - done|
  {
    leg := Leg(idx, [], idx);
    if idx >= p.Count() || idx in done {
      FollowStops(p, done, idx);
      assert Elements([]) == {};
    } else if Raises(p, idx) {
      FollowRaises(p, done, idx);
    } else {
      LessToDo(p, done, idx);
      FollowPasses(p, done, idx);
      var later := FollowsPath(p, done + {idx}, NextOf(p, idx));
      leg := Leg(idx, [idx] + later.order, later.end);
      DescribesOnward(p, done, idx, later, Follow(p, done + {idx}, NextOf(p, idx)));
    }
  }

  // ----- Whole views

  /** A walk starts at the first index that is not done. */
  ghost predicate StartsFirst(p: Plan, done: set<int>, start: int) {
    0 <= start <= p.Count() && (forall k :: 0 <= k < start ==> k in done) && (start < p.Count() ==> start !in done)
  }

  /** The walks of a view, one after the other, until as many indexes are done as there are waypoints. */
  ghost predicate AreLegs(p: Plan, done: set<int>, legs: seq<Leg>, end: set<int>)
    decreases |legs|
  {
    if legs == [] then |done| == p.Count() && end == done
    else
      && |done| != p.Count() && StartsFirst(p, done, legs[0].start) && IsLeg(p, done, legs[0]) && legs[0].order != []
      && AreLegs(p, done + Elements(legs[0].order), legs[1..], end)
  }

  /** Their lists, without the empty ones. */
  ghost function ListsOf(p: Plan, legs: seq<Leg>): seq<seq<int>>
    requires forall k :: 0 <= k < |legs| ==> forall j :: 0 <= j < |legs[k].order| ==> p.Exists(legs[k].order[j])
    decreases |legs|
  {
    if legs == [] then []
    else (if ListOf(p, legs[0]) == [] then [] else [ListOf(p, legs[0])]) + ListsOf(p, legs[1..])
  }

  ghost predicate AllThere(p: Plan, legs: seq<Leg>) {
    forall k :: 0 <= k < |legs| ==> forall j :: 0 <= j < |legs[k].order| ==> p.Exists(legs[k].order[j])
  }

  /** A walk that makes something done, put before the later ones. */
  lemma LegFirst(p: Plan, done: set<int>, leg: Leg, w: Walk, later: seq<Leg>, v: View)
    requires |done| != p.Count() && StartsFirst(p, done, leg.start) && w.Walk? && w.done != done
    requires Describes(p, done, leg, w) && AllThere(p, later)
    requires v.View? ==> AreLegs(p, w.done, later, v.done) && v.lists == ListsOf(p, later)
    ensures AllThere(p, [leg] + later)
    ensures var u := AddList(w.list, w.order, v);
            u.View? ==> AreLegs(p, done, [leg] + later, u.done) && u.lists == ListsOf(p, [leg] + later)
  {
    var legs := [leg] + later;
    assert legs[1..] == later;
    assert leg.order != [] by {
      assert leg.order == [] ==> Elements(leg.order) == {};
    }
  }

  /** view_list returns the lists of such walks. */
  lemma {:induction false} ViewIsLegs(p: Plan, done: set<int>) returns (legs: seq<Leg>)
    ensures AllThere(p, legs)
    ensures var v := ViewFrom(p, done); v.View? ==> AreLegs(p, done, legs, v.done) && v.lists == ListsOf(p, legs)
    decreases |Universe(p) - done|
  {
    legs := [];
    if |done| != p.Count() {
      var start := FirstNotDone(p, done, 0);
      var leg := FollowsPath(p, done, start);
      var w := ViewIndexes(p, done);
      FollowGrows(p, done, start);
      if w.Walk? && w.done != done {
        MoreDone(p, done, w.done, w.order);
        var later := ViewIsLegs(p, w.done);
        LegFirst(p, done, leg, w, later, ViewFrom(p, w.done));
        legs := [leg] + later;
      }
    }
  }

  /** A round trip between two places by a jump, and one more place after the jump. */
  function TripPlan(): Plan {
    Plan([Waypoint(16, 0.0, 1.0, 2.0), Waypoint(16, 0.0, 3.0, 4.0), Waypoint(177, 0.9, 0.0, 0.0),
          Waypoint(16, 0.0, 5.0, 6.0)], {16})
  }

  lemma TripSteps(p: Plan)
    requires p == TripPlan()
    ensures p.Count() == 4 && !Raises(p, 0) && !Raises(p, 1) && !Raises(p, 2) && !Raises(p, 3)
    ensures NextOf(p, 0) == 1 && NextOf(p, 1) == 2 && NextOf(p, 2) == 0 && NextOf(p, 3) == 4
    ensures Appended(p, 0) == [0] && Appended(p, 1) == [1] && Appended(p, 2) == [0] && Appended(p, 3) == [3]
    ensures Closing(p, 0) == [0] && Closing(p, 4) == []
  {
    assert p.Target(2) == 0;
  }

  lemma TripFirst(p: Plan, done: set<int>)
    requires p == TripPlan() && done == {0, 1, 2}
    ensures Follow(p, {}, 0) == Walk([0, 1, 0, 0], done, [0, 1, 2])
  {
    TripSteps(p);
    FollowStops(p, done, 0);
    FollowPasses(p, {0, 1}, 2);
    assert {0, 1} + {2} == done;
    FollowPasses(p, {0}, 1);
    assert {0} + {1} == {0, 1};
    FollowPasses(p, {}, 0);
    assert {} + {0} == {0};
  }

  lemma TripSecond(p: Plan, done: set<int>)
    requires p == TripPlan() && done == {0, 1, 2}
    ensures Follow(p, done, 3) == Walk([3], done + {3}, [3])
  {
    TripSteps(p);
    FollowStops(p, done + {3}, 4);
    FollowPasses(p, done, 3);
  }

  /** The order of a list, its closing index, and which coordinate comes first. */
  lemma TripIsDrawn(p: Plan, lists: seq<seq<int>>)
    requires p == TripPlan() && lists == [[0, 1, 0, 0], [3]]
    ensures ViewList(p).View? && ViewList(p).lists == lists && WaypointLoader.AllExist(p, lists)
    ensures WaypointLoader.PointLists(p, lists)
         == [[(1.0, 2.0), (3.0, 4.0), (1.0, 2.0), (1.0, 2.0)], [(5.0, 6.0)]]
  {
    var done: set<int> := {0, 1, 2};
    var end := done + {3};
    TripFirst(p, done);
    TripSecond(p, done);
    var none: set<int> := {};
    assert |done| == 3 && |end| == 4 && |none| == 0;
    assert ViewFrom(p, end) == View([], end, []);
    assert ViewFrom(p, done) == View([[3]], end, [3]) by {
      assert FirstNotDone(p, done, 0) == FirstNotDone(p, done, 1) == FirstNotDone(p, done, 2);
      assert FirstNotDone(p, done, 2) == FirstNotDone(p, done, 3);
    }
    assert FirstNotDone(p, {}, 0) == 0;
    TripPoints(p, lists);
  }

  lemma TripPoints(p: Plan, lists: seq<seq<int>>)
    requires p == TripPlan() && lists == [[0, 1, 0, 0], [3]]
    ensures WaypointLoader.AllExist(p, lists)
    ensures WaypointLoader.PointLists(p, lists)
         == [[(1.0, 2.0), (3.0, 4.0), (1.0, 2.0), (1.0, 2.0)], [(5.0, 6.0)]]
  {
    assert lists[1..] == [[3]] && lists[1..][1..] == [];
    var round: seq<(real, real)> := [(1.0, 2.0), (3.0, 4.0), (1.0, 2.0), (1.0, 2.0)];
    assert Points(p, [0, 1, 0, 0]) == round;
    assert Points(p, [3]) == [(5.0, 6.0)];
  }
}
