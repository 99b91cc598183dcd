/**
 * `Game`: the player, the queue of shared obstacle objects, the state and the
 * counters, updated in place. Every method is proved to do to `Model()` what
 * the corresponding definition of module Sessions says.
 */
module Games {
  import opened Rects
  import opened GameUtil
  import opened Players
  import opened Obstacles
  import opened ObstacleQueue
  import opened Sessions

  class Game {
    var state: GameState
    const player: Player
    var obstacles: seq<Obstacle>
    var obstaclesPassed: nat
    var distanceTraveled: int

    /** The values the queued obstacles hold, in queue order. */
    ghost var queue: seq<ObstacleState>

    /** How many times `add_obstacle` has run. */
    ghost var spawned: nat

    /** The game, its player and every obstacle it has created. */
    ghost var Repr: set<object>

    /** The game as a value. */
    ghost function Model(): Session
      reads this, player
    {
      Session(state, player.View(), queue, obstaclesPassed, distanceTraveled)
    }

    /** The queue holds no object twice and its objects hold the values of
        `queue`; the game is well formed; and every obstacle ever added is
        either queued or counted as passed. */
    ghost predicate Valid()
      reads this, Repr
    {
      this in Repr && player in Repr &&
      (forall k :: 0 <= k < |obstacles| ==> obstacles[k] in Repr) &&
      Distinct(obstacles) && Hold(obstacles, queue) &&
      Inv(Model()) && obstaclesPassed + |obstacles| == spawned
    }

    constructor ()
      ensures Valid() && Model() == InitialSession() && spawned == 0
      ensures fresh(Repr)
    {
      state := NotStarted;
      player := new Player();
      obstacles := [];
      obstaclesPassed := 0;
      distanceTraveled := 0;
      queue := [];
      spawned := 0;
      new;
      Repr := {this, player};
    }

    /** `init_game`. Starting the spawn timer is left to the environment, which
        delivers its firings as events. */
    method InitGame()
      modifies this`state
      ensures state == Running
    {
      state := Running;
    }

    /** `get_score`: the number of obstacles passed, which is every obstacle
        ever added that is no longer queued. */
    function GetScore(): (score: nat)
      requires Valid()
      reads this, Repr
      ensures score + |obstacles| == spawned
    {
      obstaclesPassed
    }

    /** `add_obstacle`, with the offset the random draw would give. */
    method AddObstacle(offset: Offset)
      requires Valid()
      modifies this
      ensures Valid() && spawned == old(spawned) + 1 && fresh(Repr - old(Repr))
      ensures Model() == AddObstacleTo(old(Model()), offset)
    {
      AddObstacleKeepsInv(Model(), offset);
      var o := new Obstacle(offset);
      DistinctAdd(o, obstacles);
      obstacles := obstacles + [o];
      queue := queue + [NewObstacle(offset)];
      spawned := spawned + 1;
      Repr := Repr + {o};
    }

    /** `get_on_screen_obstacles`: the obstacles still on screen, in order; the
        ones left behind are counted as passed. */
    method GetOnScreenObstacles() returns (kept: seq<Obstacle>)
      modifies this`obstaclesPassed
      ensures kept == old(OnScreenObjs(obstacles))
      ensures obstaclesPassed == old(obstaclesPassed) + |obstacles| - |kept|
    {
      var count := |obstacles|;
      kept := [];
      var i := 0;
      while i < |obstacles|
        invariant 0 <= i <= |obstacles|
        invariant kept == OnScreenObjs(obstacles[..i])
        invariant obstaclesPassed == old(obstaclesPassed)
      {
        OnScreenObjsAppend(obstacles[..i], [obstacles[i]]);
        assert obstacles[..i + 1] == obstacles[..i] + [obstacles[i]];
        if obstacles[i].x + ObstacleWidth > LeftEdge {
          kept := kept + [obstacles[i]];
        }
        i := i + 1;
      }
      assert obstacles[..i] == obstacles;
      obstaclesPassed := obstaclesPassed + (count - |kept|);
    }

    /** `update`: one tick. The player moves, the distance grows by one, then
        the loop over the obstacles runs. */
    method Update()
      requires Valid()
      modifies Repr
      ensures Valid() && spawned == old(spawned) && Repr == old(Repr)
      ensures Model() == Tick(old(Model()))
    {
      ghost var m0 := Model();
      player.Update();
      distanceTraveled := distanceTraveled + 1;
      UpdateObstacles(player.GetHitbox(), Repr - {this, player});
      TickKeepsInv(m0);
    }

    /** The loop of `update`. It runs over the queue as it was when the loop
        began; each obstacle moves, is tested against the player's hitbox
        `box`, and the queue is filtered again, while the loop still visits
        the rest. In the end every obstacle has moved once, the state is
        `OVER` if any of them overlapped the player, and the queue holds those
        still on screen. */
    method UpdateObstacles(ghost box: Rect, ghost footprint: set<object>)
      requires Distinct(obstacles) && Hold(obstacles, queue) && box == player.GetHitbox()
      requires this !in footprint && player !in footprint
      requires forall k :: 0 <= k < |obstacles| ==> obstacles[k] in footprint
      modifies this`state, this`obstacles, this`obstaclesPassed, this`queue, footprint
      ensures Distinct(obstacles) && forall k :: 0 <= k < |obstacles| ==> obstacles[k] in footprint
      ensures queue == OnScreenObstacles(MovedAll(old(queue))) && Hold(obstacles, queue)
      ensures obstaclesPassed == old(obstaclesPassed) + Dropped(MovedAll(old(queue)))
      ensures state == if AnyCollides(MovedAll(old(queue)), box) then Over else old(state)
    {
      ghost var q := queue;
      ghost var moved := MovedAll(q);
      ghost var passed0, state0 := obstaclesPassed, state;
      var snapshot := obstacles;
      var i := 0;
      while i < |snapshot|
        invariant Scanned(snapshot, q, moved, box, i, passed0, state0)
      {
        UpdateOne(snapshot, i, q, moved, box, passed0, state0);
        i := i + 1;
      }
      ScannedAll(snapshot, q, moved, box, passed0, state0, footprint);
      queue := OnScreenObstacles(moved);
    }

    /** How far the loop of `update` has got: the first `i` obstacles of
        `snapshot` have moved (to their place in `moved`) and been tested
        against `box`, the others are still where `q` has them, and the queue
        is the on-screen part of `snapshot` once anything has moved. */
    ghost predicate Scanned(snapshot: seq<Obstacle>, q: seq<ObstacleState>, moved: seq<ObstacleState>,
                            box: Rect, i: nat, passed0: nat, state0: GameState)
      reads this, snapshot
    {
      i <= |snapshot| == |q| == |moved| && Distinct(snapshot) &&
      (forall k :: 0 <= k < |snapshot| ==>
        snapshot[k].x == (if k < i then moved[k] else q[k]).x &&
        snapshot[k].y == q[k].y && snapshot[k].offset == q[k].offset) &&
      obstacles == (if i == 0 then snapshot else OnScreenObjs(snapshot)) &&
      obstaclesPassed == passed0 + |snapshot| - |obstacles| &&
      state == if CollidesBefore(moved, i, box) then Over else state0
    }

    /** After the last pass every obstacle has moved once. */
    lemma ScannedAll(snapshot: seq<Obstacle>, q: seq<ObstacleState>, moved: seq<ObstacleState>, box: Rect,
                     passed0: nat, state0: GameState, footprint: set<object>)
      requires Scanned(snapshot, q, moved, box, |snapshot|, passed0, state0) && moved == MovedAll(q)
      requires forall k :: 0 <= k < |snapshot| ==> snapshot[k] in footprint
      ensures Distinct(obstacles) && forall k :: 0 <= k < |obstacles| ==> obstacles[k] in footprint
      ensures Hold(obstacles, OnScreenObstacles(moved))
      ensures obstaclesPassed == passed0 + Dropped(moved)
      ensures state == if AnyCollides(moved, box) then Over else state0
    {
      assert obstacles == OnScreenObjs(snapshot);
      OnScreenObjsIsKept(snapshot, moved);
      KeptHold(snapshot, moved);
      KeptDistinct(snapshot, moved);
      KeptWithin(snapshot, moved, footprint);
    }

    /** One pass of the loop of `update`, on the obstacle at index `i` of the
        queue the loop runs over: move it, test it against the player, and
        filter the queue again. */
    method UpdateOne(snapshot: seq<Obstacle>, i: nat, ghost q: seq<ObstacleState>, ghost moved: seq<ObstacleState>,
                     ghost box: Rect, ghost passed0: nat, ghost state0: GameState)
      requires i < |snapshot| && Scanned(snapshot, q, moved, box, i, passed0, state0)
      requires moved == MovedAll(q) && box == player.GetHitbox()
      modifies this`state, this`obstacles, this`obstaclesPassed, snapshot[i]
      ensures Scanned(snapshot, q, moved, box, i + 1, passed0, state0)
    {
      ghost var before := Progress(q, moved, i);
      if i > 0 {
        OnScreenObjsIsKept(snapshot, before);
      }
      MoveAndTest(snapshot, i, q, moved, box, state0);
      RefilterQueue(snapshot, i, before);
    }

    /** The first half of a pass: the obstacle at index `i` moves, and the game
        is over if it now overlaps the player. */
    method MoveAndTest(snapshot: seq<Obstacle>, i: nat, ghost q: seq<ObstacleState>, ghost moved: seq<ObstacleState>,
                       ghost box: Rect, ghost state0: GameState)
      requires i < |snapshot| == |q| == |moved| && Distinct(snapshot)
      requires moved == MovedAll(q) && box == player.GetHitbox()
      requires forall k :: 0 <= k < |snapshot| ==>
        snapshot[k].x == (if k < i then moved[k] else q[k]).x &&
        snapshot[k].y == q[k].y && snapshot[k].offset == q[k].offset
      requires state == if CollidesBefore(moved, i, box) then Over else state0
      modifies this`state, snapshot[i]
      ensures forall k :: 0 <= k < |snapshot| ==>
        snapshot[k].x == (if k < i + 1 then moved[k] else q[k]).x
      ensures state == if CollidesBefore(moved, i + 1, box) then Over else state0
    {
      var obstacle := snapshot[i];
      DistinctSingle(snapshot, i);
      obstacle.Update();
      CollidesBeforeStep(moved, i, box);
      if obstacle.DetectCollision(player) {
        state := Over;
      }
    }

    /** The second half of a pass: the queue is filtered again. What it held
        was the filter of the obstacles at their earlier positions `before`
        (or the whole queue, before the first pass); positions only decrease,
        so the result is the filter of the whole queue now. */
    method RefilterQueue(snapshot: seq<Obstacle>, i: nat, ghost before: seq<ObstacleState>)
      requires |before| == |snapshot|
      requires forall k :: 0 <= k < |snapshot| ==> snapshot[k].x <= before[k].x
      requires obstacles == if i == 0 then snapshot else Kept(snapshot, before)
      modifies this`obstacles, this`obstaclesPassed
      ensures obstacles == OnScreenObjs(snapshot)
      ensures obstaclesPassed == old(obstaclesPassed) + |old(obstacles)| - |obstacles|
    {
      if i > 0 {
        RefilterAfterMove(snapshot, before);
      }
      label Tested:
      obstacles := GetOnScreenObstacles();
      OnScreenObjsUnchanged@Tested(snapshot);
    }

    /** `get_next_obstacle`: the loop as written, with `closest_pos` set only by
        the first obstacle ahead. On the game's sorted queue this is the closest
        obstacle ahead of the player; `null` stands for `None`. */
    method GetNextObstacle() returns (closest: Obstacle?)
      requires Valid()
      ensures match ClosestAhead(Centers(queue), PlayerCenterX(player.View()))
        case None => closest == null
        case Some(k) => closest == obstacles[k]
    {
      ghost var cs := Centers(queue);
      closest := null;
      var closestPos := 0;
      var playerPos := player.GetHitbox().CenterX();
      var i := 0;
      while i < |obstacles|
        invariant 0 <= i <= |obstacles|
        invariant match NextAsWritten(cs[..i], playerPos)
          case None => closest == null
          case Some((k, pos)) => k < i && closest == obstacles[k] && closestPos == pos
      {
        assert cs[..i + 1][..i] == cs[..i];
        var obstaclePos := obstacles[i].GetHitbox().0.CenterX();
        if obstaclePos > playerPos {
          if closest == null {
            closest := obstacles[i];
            closestPos := obstacles[i].GetHitbox().0.CenterX();
          } else if closestPos > obstaclePos {
            closest := obstacles[i];
          }
        }
        i := i + 1;
      }
      assert cs[..i] == cs;
      NextAsWrittenOnSorted(cs, playerPos);
    }

    /** `calculate_fitness`. Without an obstacle ahead the source fails on
        `None`; that is the `None` result here. */
    method CalculateFitness() returns (fitness: Option<int>)
      requires Valid()
      ensures fitness == Fitness(Model())
    {
      var next := GetNextObstacle();
      if next == null {
        return None;
      }
      var deltaDistance := DistanceTo(player.View(), next.View());
      var deltaHeight := Abs(HeightTo(player.View(), next.View()));
      fitness := Some(distanceTraveled - (deltaDistance + deltaHeight));
    }

    /** `process_input` over the events of one poll. `quit` is true when a quit
        event or the `q` key would have ended the process. */
    method ProcessInput(events: seq<Event>) returns (quit: bool)
      requires Valid()
      modifies Repr
      ensures Valid() && fresh(Repr - old(Repr))
      ensures (Model(), quit) == ApplyEvents(old(Model()), events)
    {
      quit := false;
      var i := 0;
      while i < |events|
        invariant 0 <= i <= |events|
        invariant Valid() && fresh(Repr - old(Repr))
        invariant ApplyEvents(old(Model()), events) == ApplyEvents(Model(), events[i..])
      {
        assert events[i..][1..] == events[i + 1..];
        match events[i] {
          case QuitEvent =>
            return true;
          case ObstacleSpawn(offset) =>
            AddObstacle(offset);
          case KeyDown(key) =>
            match key {
              case Space =>
                player.Swim();
              case O(offset) =>
                AddObstacle(offset);
              case Q =>
                return true;
              case OtherKey =>
            }
          case OtherEvent =>
        }
        i := i + 1;
      }
    }

    /** The inner loop of `start`: run `update` while at least one tick of lag
        is left, taking a tick off each time. It runs exactly
        `lag / TickMicros` times, whatever the state, and returns what is left
        of the lag, less than one tick. */
    method RunTicks(lag: nat) returns (rest: nat)
      requires Valid()
      modifies Repr
      ensures Valid() && Repr == old(Repr)
      ensures Model() == TickN(old(Model()), lag / TickMicros)
      ensures rest == lag % TickMicros
    {
      rest := lag;
      ghost var ticks: nat := 0;
      while rest >= TickMicros
        invariant Valid() && Repr == old(Repr)
        invariant rest + ticks * TickMicros == lag
        invariant Model() == TickN(old(Model()), ticks)
      {
        Update();
        rest := rest - TickMicros;
        ticks := ticks + 1;
      }
      LagSplit(lag, ticks, rest);
    }

    /** One pass of the loop of `start`: add the frame's elapsed time to the
        lag, process the frame's input and, unless it quits, run the ticks the
        lag holds. */
    method RunFrame(frame: Frame, lag: nat) returns (quit: bool, rest: nat)
      requires Valid()
      modifies Repr
      ensures Valid() && fresh(Repr - old(Repr))
      ensures (Model(), rest, quit) == FrameStep(old(Model()), lag, frame)
    {
      rest := lag + frame.elapsedMicros;
      quit := ProcessInput(frame.events);
      if !quit {
        rest := RunTicks(rest);
      }
    }

    /** `start`, over the frames the wall clock and the event queue supply:
        start the game, then, while it runs, add each frame's elapsed time to
        the lag, process its input and run the ticks the lag holds. When the
        state leaves `RUNNING` the score and the fitness are reported. */
    method Start(frames: seq<Frame>) returns (outcome: Outcome)
      requires Valid()
      modifies Repr
      ensures Valid() && fresh(Repr - old(Repr))
      ensures (Model(), outcome) == RunFrames(old(Model()).(state := Running), 0, frames)
    {
      InitGame();
      ghost var goal := RunFrames(Model(), 0, frames);
      var lag: nat := 0;
      var i := 0;
      while state == Running && i < |frames|
        invariant 0 <= i <= |frames|
        invariant Valid() && fresh(Repr - old(Repr))
        invariant goal == RunFrames(Model(), lag, frames[i..])
      {
        var quit;
        quit, lag := RunFrame(frames[i], lag);
        if quit {
          return Exited;
        }
        assert frames[i..][1..] == frames[i + 1..];
        i := i + 1;
      }
      if state == Running {
        return StillRunning;
      }
      var fitness := CalculateFitness();
      outcome := Finished(GetScore(), fitness);
    }
  }
}
