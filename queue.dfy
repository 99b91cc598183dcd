/**
 * The game's queue of obstacles and its on-screen filter
 * (`Game.get_on_screen_obstacles`), on values and on the shared obstacle
 * objects.
 */
module ObstacleQueue {
  import opened Obstacles

  /** Front to back, the obstacles' x never decreases: the oldest obstacle is
      the leftmost. */
  predicate Sorted(os: seq<ObstacleState>)
  {
    forall i, j :: 0 <= i < j < |os| ==> os[i].x <= os[j].x
  }

  /** Every obstacle of the queue after one `update` each. */
  function MovedAll(os: seq<ObstacleState>): (r: seq<ObstacleState>)
    ensures |r| == |os|
    ensures forall k :: 0 <= k < |os| ==> r[k] == Moved(os[k])
  {
    seq(|os|, k requires 0 <= k < |os| => Moved(os[k]))
  }

  /** The queue with the obstacles that left the screen removed, in order. */
  function OnScreenObstacles(os: seq<ObstacleState>): (r: seq<ObstacleState>)
    ensures |r| <= |os|
  {
    if os == [] then []
    else (if OnScreen(os[0]) then [os[0]] else []) + OnScreenObstacles(os[1..])
  }

  /** The filter keeps exactly the obstacles that are on screen. */
  lemma {:induction false} OnScreenMembers(os: seq<ObstacleState>)
    ensures forall o :: o in OnScreenObstacles(os) <==> o in os && OnScreen(o)
  {
    if os != [] {
      OnScreenMembers(os[1..]);
      assert forall o :: o in os <==> o == os[0] || o in os[1..];
    }
  }

  /** How many obstacles the filter removes. */
  function Dropped(os: seq<ObstacleState>): nat
  {
    |os| - |OnScreenObstacles(os)|
  }

  lemma {:induction false} OnScreenAppend(a: seq<ObstacleState>, b: seq<ObstacleState>)
    ensures OnScreenObstacles(a + b) == OnScreenObstacles(a) + OnScreenObstacles(b)
  {
    if a != [] {
      assert (a + b)[1..] == a[1..] + b;
      OnScreenAppend(a[1..], b);
    } else {
      assert a + b == b;
    }
  }

  /** A queue that is entirely on screen passes the filter unchanged. */
  lemma {:induction false} OnScreenKeepsAll(os: seq<ObstacleState>)
    requires forall k :: 0 <= k < |os| ==> OnScreen(os[k])
    ensures OnScreenObstacles(os) == os
  {
    if os != [] {
      OnScreenKeepsAll(os[1..]);
    }
  }

  /** Filtering a second time removes nothing. */
  lemma OnScreenIdempotent(os: seq<ObstacleState>)
    ensures OnScreenObstacles(OnScreenObstacles(os)) == OnScreenObstacles(os)
    ensures Dropped(OnScreenObstacles(os)) == 0
  {
    var r := OnScreenObstacles(os);
    OnScreenMembers(os);
    assert forall k :: 0 <= k < |r| ==> r[k] in r;
    OnScreenKeepsAll(r);
  }

  /** The filter keeps the queue's order. */
  lemma {:induction false} OnScreenKeepsSorted(os: seq<ObstacleState>)
    requires Sorted(os)
    ensures Sorted(OnScreenObstacles(os))
  {
    if os != [] {
      OnScreenKeepsSorted(os[1..]);
      OnScreenMembers(os[1..]);
      var rest := OnScreenObstacles(os[1..]);
      assert forall k :: 0 <= k < |rest| ==> rest[k] in rest && rest[k] in os[1..];
    }
  }

  /** On a sorted queue the filter removes a prefix: the obstacles that leave
      are always the oldest ones. */
  lemma {:induction false} OnScreenDropsPrefix(os: seq<ObstacleState>)
    requires Sorted(os)
    ensures OnScreenObstacles(os) == os[Dropped(os)..]
  {
    if os != [] {
      OnScreenDropsPrefix(os[1..]);
      if OnScreen(os[0]) {
        assert forall k :: 0 <= k < |os| ==> OnScreen(os[k]);
        OnScreenKeepsAll(os);
      }
    }
  }

  /** Moving every obstacle by the same amount keeps the queue sorted. */
  lemma MovedAllKeepsSorted(os: seq<ObstacleState>)
    requires Sorted(os)
    ensures Sorted(MovedAll(os))
  {
  }

  /** The queue part-way through a tick: the first `i` obstacles are at
      their places in `moved`, the others still at their places in `os`. */
  function Progress(os: seq<ObstacleState>, moved: seq<ObstacleState>, i: nat): (r: seq<ObstacleState>)
    requires |moved| == |os|
    ensures |r| == |os|
    ensures forall k :: 0 <= k < |os| ==> r[k] == if k < i then moved[k] else os[k]
  {
    seq(|os|, k requires 0 <= k < |os| => if k < i then moved[k] else os[k])
  }

  // ---- the same filter over the obstacle objects the game shares ----

  /** The obstacle objects `objs` currently hold the values `vs`, one for one. */
  ghost predicate Hold(objs: seq<Obstacle>, vs: seq<ObstacleState>)
    reads objs
  {
    |objs| == |vs| &&
    forall k :: 0 <= k < |objs| ==>
      objs[k].x == vs[k].x && objs[k].y == vs[k].y && objs[k].offset == vs[k].offset
  }

  /** The object at index `i`; the trigger term of `Distinct`. */
  function At(objs: seq<Obstacle>, i: nat): Obstacle
    requires i < |objs|
  {
    objs[i]
  }

  /** No object appears twice in the queue. */
  predicate Distinct(objs: seq<Obstacle>)
  {
    forall i, j {:trigger At(objs, i), At(objs, j)} :: 0 <= i < j < |objs| ==> At(objs, i) != At(objs, j)
  }

  /** The object at index `i` appears nowhere else in the queue. */
  predicate Single(objs: seq<Obstacle>, i: nat)
    requires i < |objs|
  {
    forall k :: 0 <= k < |objs| && k != i ==> objs[k] != objs[i]
  }

  lemma DistinctSingle(objs: seq<Obstacle>, i: nat)
    requires Distinct(objs) && i < |objs|
    ensures Single(objs, i)
  {
    forall k | 0 <= k < |objs| && k != i
      ensures objs[k] != objs[i]
    {
      if k < i {
        assert At(objs, k) != At(objs, i);
      } else {
        assert At(objs, i) != At(objs, k);
      }
    }
  }

  /** An object not yet queued can be added at either end. */
  lemma DistinctAdd(o: Obstacle, objs: seq<Obstacle>)
    requires Distinct(objs) && o !in objs
    ensures Distinct([o] + objs) && Distinct(objs + [o])
  {
    var front, back := [o] + objs, objs + [o];
    forall i, j | 0 <= i < j < |front|
      ensures At(front, i) != At(front, j)
    {
      assert At(front, j) == objs[j - 1];
      if i > 0 {
        assert At(objs, i - 1) != At(objs, j - 1);
      }
    }
    forall i, j | 0 <= i < j < |back|
      ensures At(back, i) != At(back, j)
    {
      assert At(back, i) == objs[i];
      if j < |objs| {
        assert At(objs, i) != At(objs, j);
      }
    }
  }

  /** The tail of a queue without repeats has none either. */
  lemma DistinctTail(objs: seq<Obstacle>)
    requires Distinct(objs) && objs != []
    ensures Distinct(objs[1..]) && objs[0] !in objs[1..]
  {
    var tail := objs[1..];
    forall i, j | 0 <= i < j < |tail|
      ensures At(tail, i) != At(tail, j)
    {
      assert At(objs, i + 1) != At(objs, j + 1);
    }
    DistinctSingle(objs, 0);
  }

  /** `deque(o for o in obstacles if o.x + 80 > 9)`: the objects whose current
      position is still on screen. */
  function OnScreenObjs(objs: seq<Obstacle>): (r: seq<Obstacle>)
    reads objs
    ensures |r| <= |objs|
  {
    if objs == [] then []
    else (if objs[0].x + ObstacleWidth > LeftEdge then [objs[0]] else []) + OnScreenObjs(objs[1..])
  }

  /** The filter on objects depends on their positions only. */
  twostate lemma {:induction false} OnScreenObjsUnchanged(objs: seq<Obstacle>)
    requires forall k :: 0 <= k < |objs| ==> objs[k].x == old(objs[k].x)
    ensures OnScreenObjs(objs) == old(OnScreenObjs(objs))
  {
    if objs != [] {
      OnScreenObjsUnchanged(objs[1..]);
    }
  }

  /** The objects of `objs` whose value in `vs` is on screen, in order: the
      filter as it comes out while the objects hold `vs`. */
  function Kept(objs: seq<Obstacle>, vs: seq<ObstacleState>): (r: seq<Obstacle>)
    requires |vs| == |objs|
    ensures |r| == |OnScreenObstacles(vs)|
  {
    if objs == [] then []
    else (if OnScreen(vs[0]) then [objs[0]] else []) + Kept(objs[1..], vs[1..])
  }

  /** Every object the filter keeps comes from `objs`, so it lies in any set
      that holds all of `objs`. */
  lemma {:induction false} KeptWithin(objs: seq<Obstacle>, vs: seq<ObstacleState>, footprint: set<object>)
    requires |vs| == |objs|
    requires forall k :: 0 <= k < |objs| ==> objs[k] in footprint
    ensures forall k :: 0 <= k < |Kept(objs, vs)| ==> Kept(objs, vs)[k] in footprint
  {
    if objs != [] {
      KeptWithin(objs[1..], vs[1..], footprint);
    }
  }

  /** The filter repeats no object. */
  lemma {:induction false} KeptDistinct(objs: seq<Obstacle>, vs: seq<ObstacleState>)
    requires |vs| == |objs| && Distinct(objs)
    ensures Distinct(Kept(objs, vs))
  {
    if objs != [] {
      DistinctTail(objs);
      KeptDistinct(objs[1..], vs[1..]);
      if OnScreen(vs[0]) {
        var rest := Kept(objs[1..], vs[1..]);
        KeptWithin(objs[1..], vs[1..], set o | o in objs[1..]);
        DistinctAdd(objs[0], rest);
        assert Kept(objs, vs) == [objs[0]] + rest;
      } else {
        assert Kept(objs, vs) == Kept(objs[1..], vs[1..]);
      }
    }
  }

  /** The objects the filter keeps hold exactly the values the filter on
      values keeps. */
  lemma {:induction false} KeptHold(objs: seq<Obstacle>, vs: seq<ObstacleState>)
    requires Hold(objs, vs)
    ensures Hold(Kept(objs, vs), OnScreenObstacles(vs))
  {
    if objs != [] {
      KeptHold(objs[1..], vs[1..]);
      var rest := Kept(objs[1..], vs[1..]);
      if OnScreen(vs[0]) {
        assert forall k :: 1 <= k < |rest| + 1 ==> ([objs[0]] + rest)[k] == rest[k - 1];
      }
    }
  }

  /** While the objects are at the positions `vs`, the filter on objects is
      `Kept`. */
  lemma {:induction false} OnScreenObjsIsKept(objs: seq<Obstacle>, vs: seq<ObstacleState>)
    requires |vs| == |objs|
    requires forall k :: 0 <= k < |objs| ==> objs[k].x == vs[k].x
    ensures OnScreenObjs(objs) == Kept(objs, vs)
  {
    if objs != [] {
      OnScreenObjsIsKept(objs[1..], vs[1..]);
    }
  }

  lemma {:induction false} OnScreenObjsAppend(a: seq<Obstacle>, b: seq<Obstacle>)
    ensures OnScreenObjs(a + b) == OnScreenObjs(a) + OnScreenObjs(b)
  {
    if a != [] {
      assert (a + b)[1..] == a[1..] + b;
      OnScreenObjsAppend(a[1..], b);
    } else {
      assert a + b == b;
    }
  }

  /** The game filters its queue again after each obstacle moves. Positions
      only decrease, so filtering what an earlier filter kept is the same as
      filtering the whole queue now. */
  lemma {:induction false} RefilterAfterMove(objs: seq<Obstacle>, vs: seq<ObstacleState>)
    requires |vs| == |objs|
    requires forall k :: 0 <= k < |objs| ==> objs[k].x <= vs[k].x
    ensures OnScreenObjs(Kept(objs, vs)) == OnScreenObjs(objs)
  {
    if objs != [] {
      RefilterAfterMove(objs[1..], vs[1..]);
      var head := if OnScreen(vs[0]) then [objs[0]] else [];
      OnScreenObjsAppend(head, Kept(objs[1..], vs[1..]));
    }
  }
}
