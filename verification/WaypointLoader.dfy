/**
 The walking methods of the MAVWPLoader object of pymavlink/mavwp.py. The done set that they share in Python is an
 argument and a result here.
 */
module WaypointLoader {
  import opened Bytes
  import opened Mission

  /** All walks of a view draw waypoints that exist. */
  ghost predicate AllExist(p: Plan, lists: seq<seq<int>>) {
    forall k, j :: 0 <= k < |lists| && 0 <= j < |lists[k]| ==> p.Exists(lists[k][j])
  }

  /** polygon_list, from view_list: the same walks, as places. */
  function PointLists(p: Plan, lists: seq<seq<int>>): (r: seq<seq<(real, real)>>)
    requires AllExist(p, lists)
    ensures |r| == |lists|
  {
    if lists == [] then [] else [Points(p, lists[0])] + PointLists(p, lists[1..])
  }

  ghost predicate ListExists(p: Plan, list: seq<int>) { forall j :: 0 <= j < |list| ==> p.Exists(list[j]) }

  lemma {:induction false} PointListsSnoc(p: Plan, lists: seq<seq<int>>, list: seq<int>)
    requires AllExist(p, lists) && ListExists(p, list)
    ensures AllExist(p, lists + [list])
    ensures PointLists(p, lists + [list]) == PointLists(p, lists) + [Points(p, list)]
  {
    var all := lists + [list];
    forall k, j | 0 <= k < |all| && 0 <= j < |all[k]| ensures p.Exists(all[k][j]) {
      if k == |lists| {
        assert all[k] == list;
      }
    }
    if lists == [] {
      assert all == [list] && all[1..] == [];
    } else {
      assert all[1..] == lists[1..] + [list] && all[0] == lists[0];
      PointListsSnoc(p, lists[1..], list);
      Reassociate([Points(p, lists[0])], PointLists(p, lists[1..]), [Points(p, list)]);
    }
  }

  lemma FollowExists(p: Plan, done: set<int>, idx: int)
    requires -p.Count() <= idx
    ensures var w := Follow(p, done, idx); w.Walk? ==> ListExists(p, w.list)
  {
    FollowDraws(p, done, idx);
  }

  class MAVWPLoader {
    var wpoints: seq<Waypoint>
    const locations: set<int>

    constructor (wpoints: seq<Waypoint>, locations: set<int>)
      ensures this.wpoints == wpoints && this.locations == locations
    {
      this.wpoints, this.locations := wpoints, locations;
    }

    function ToPlan(): Plan reads this { Plan(wpoints, locations) }

    /** view_indexes; no walk where it raises. */
    method ViewIndexes(done: set<int>) returns (w: Walk)
      ensures w == Mission.ViewIndexes(ToPlan(), done)
    {
      var p := ToPlan();
      var idx: int := 0;
      while idx < |wpoints| && idx in done
        invariant 0 <= idx <= |wpoints|
        invariant FirstNotDone(p, done, 0) == FirstNotDone(p, done, idx)
        decreases |wpoints| - idx
      {
        idx := idx + 1;
      }
      w := WalkFrom(done, idx);
    }

    /** The second loop of view_indexes. */
    method WalkFrom(start: set<int>, first: int) returns (w: Walk)
      requires 0 <= first
      ensures w == Follow(ToPlan(), start, first)
    {
      var p := ToPlan();
      var done, idx, ret, order := start, first, [], [];
      var whole := Follow(p, start, first);
      assert Prepend([], [], whole) == whole by { EmptyPrefix(whole); }
      while idx < |wpoints|
        invariant -|wpoints| <= idx
        invariant Prepend(ret, order, Follow(p, done, idx)) == whole
        decreases |Universe(p) - done|
      {
        if idx in done {
          return Walk(ret + If(p.HasPlace(idx), idx), done, order + []);
        }
        LessToDo(p, done, idx);
        ghost var r, o := ret, order;
        done := done + {idx};
        order := order + [idx];
        var next := idx + 1;
        if p.IsJump(idx) {
          next := p.Target(idx);
          if !p.Exists(next) {
            return Crashed;
          }
          ret := ret + If(p.HasPlace(next), next);
        } else {
          ret := ret + If(p.IsDrawn(idx), idx);
        }
        PrependTwice(r, o, if p.IsJump(idx) then If(p.HasPlace(next), next) else If(p.IsDrawn(idx), idx), [idx],
                     Follow(p, done, next));
        idx := next;
      }
      return Walk(ret + [], done, order + []);
    }

    /** view_list. Where its loop would go round for ever without changing anything, the result says so. */
    method ViewList() returns (v: View)
      ensures v == Mission.ViewList(ToPlan())
    {
      var p := ToPlan();
      var done: set<int>, ret: seq<seq<int>>, order: seq<int> := {}, [], [];
      assert Onto(ret, order, ViewFrom(p, done)) == ViewFrom(p, {}) by { EmptyView(ViewFrom(p, {})); }
      while |done| != |wpoints|
        invariant Onto(ret, order, ViewFrom(p, done)) == ViewFrom(p, {})
        decreases |Universe(p) - done|
      {
        var w := ViewIndexes(done);
        if w.Crashed? {
          return Failed;
        }
        FollowGrows(p, done, FirstNotDone(p, done, 0));
        if w.done == done {
          return Looping;
        }
        MoreDone(p, done, w.done, w.order);
        OntoTwice(ret, order, w.list, w.order, ViewFrom(p, w.done));
        done := w.done;
        order := order + w.order;
        if |w.list| > 0 {
          ret := ret + [w.list];
        }
      }
      return View(ret + [], done, order + []);
    }

    /** polygon_list, with polygon. */
    method PolygonList() returns (r: Polygons)
      ensures match Mission.ViewList(ToPlan())
              case View(lists, _, _) => AllExist(ToPlan(), lists) && r == Drawn(PointLists(ToPlan(), lists))
              case Failed => r == Raises
              case Looping => r == NeverReturns
    {
      var p := ToPlan();
      var done: set<int>, ret: seq<seq<(real, real)>> := {}, [];
      ghost var lists: seq<seq<int>>, order: seq<int> := [], [];
      assert Onto(lists, order, ViewFrom(p, done)) == ViewFrom(p, {}) by { EmptyView(ViewFrom(p, {})); }
      while |done| != |wpoints|
        invariant Onto(lists, order, ViewFrom(p, done)) == ViewFrom(p, {})
        invariant AllExist(p, lists) && ret == PointLists(p, lists)
        decreases |Universe(p) - done|
      {
        var w := ViewIndexes(done);
        if w.Crashed? {
          return Raises;
        }
        FollowExists(p, done, FirstNotDone(p, done, 0));
        var points := Points(p, w.list);
        FollowGrows(p, done, FirstNotDone(p, done, 0));
        if w.done == done {
          return NeverReturns;
        }
        MoreDone(p, done, w.done, w.order);
        OntoTwice(lists, order, w.list, w.order, ViewFrom(p, w.done));
        done := w.done;
        order := order + w.order;
        if |points| > 0 {
          PointListsSnoc(p, lists, w.list);
          ret := ret + [points];
          lists := lists + [w.list];
        }
      }
      assert lists + [] == lists;
      return Drawn(ret);
    }
  }

  datatype Polygons = Drawn(lists: seq<seq<(real, real)>>) | Raises | NeverReturns

  /** A view after some lists. */
  function Onto(lists: seq<seq<int>>, order: seq<int>, v: View): View {
    if v.View? then View(lists + v.lists, v.done, order + v.order) else v
  }

  lemma EmptyPrefix(w: Walk)
    ensures Prepend([], [], w) == w
  {
    if w.Walk? {
      assert [] + w.list == w.list && [] + w.order == w.order;
    }
  }

  lemma EmptyView(v: View)
    ensures Onto([], [], v) == v
  {
    if v.View? {
      assert [] + v.lists == v.lists && [] + v.order == v.order;
    }
  }

  lemma PrependTwice(a: seq<int>, b: seq<int>, c: seq<int>, d: seq<int>, w: Walk)
    ensures Prepend(a, b, Prepend(c, d, w)) == Prepend(a + c, b + d, w)
  {
    if w.Walk? {
      Reassociate(a, c, w.list);
      Reassociate(b, d, w.order);
    }
  }

  lemma OntoTwice(lists: seq<seq<int>>, order: seq<int>, list: seq<int>, more: seq<int>, v: View)
    ensures Onto(lists, order, AddList(list, more, v))
         == Onto(if list != [] then lists + [list] else lists, order + more, v)
  {
    if v.View? {
      Reassociate(lists, if list != [] then [list] else [], v.lists);
      Reassociate(order, more, v.order);
      assert list == [] ==> lists + [] == lists;
    }
  }
}
