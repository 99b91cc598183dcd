/**
 * What a `Game` holds, as a value, and what each of its operations does to it.
 * The `Game` class (module Games) is proved to follow these definitions; the
 * properties of the game are proved here about them.
 */
module Sessions {
  import opened Rects
  import opened GameUtil
  import opened Players
  import opened Obstacles
  import opened ObstacleQueue

  datatype Option<T> = None | Some(value: T)

  /** The state of a game: its `GameState`, the player, the obstacle queue
      (front = oldest), `obstacles_passed` and `distance_traveled` (a float in
      the source that only ever holds whole numbers). */
  datatype Session = Session(
    state: GameState,
    player: PlayerState,
    obstacles: seq<ObstacleState>,
    obstaclesPassed: nat,
    distanceTraveled: int)

  /** `Game.__init__` */
  function InitialSession(): Session
  {
    Session(NotStarted, InitialPlayer(), [], 0, 0)
  }

  /** What a well-formed game keeps true between operations: every queued
      obstacle is on screen and not right of the spawn point, and the queue is
      sorted by x. */
  predicate Inv(s: Session)
  {
    (forall k :: 0 <= k < |s.obstacles| ==> OnScreen(s.obstacles[k]) && s.obstacles[k].x <= SpawnX) &&
    Sorted(s.obstacles)
  }

  /** `add_obstacle`: a new obstacle at the tail of the queue. */
  function AddObstacleTo(s: Session, offset: Offset): Session
  {
    s.(obstacles := s.obstacles + [NewObstacle(offset)])
  }

  /** `get_on_screen_obstacles` with its result assigned to the queue. */
  function Refilter(s: Session): Session
  {
    s.(obstacles := OnScreenObstacles(s.obstacles),
       obstaclesPassed := s.obstaclesPassed + Dropped(s.obstacles))
  }

  /** Some obstacle of `os` overlaps the hitbox. */
  predicate AnyCollides(os: seq<ObstacleState>, hitbox: Rect)
  {
    CollidesBefore(os, |os|, hitbox)
  }

  /** Some obstacle among the first `n` of `os` overlaps the hitbox. */
  predicate CollidesBefore(os: seq<ObstacleState>, n: nat, hitbox: Rect)
    requires n <= |os|
  {
    exists k :: 0 <= k < n && CollidesWith(os[k], hitbox)
  }

  /** Testing one more obstacle. */
  lemma CollidesBeforeStep(os: seq<ObstacleState>, n: nat, hitbox: Rect)
    requires n < |os|
    ensures CollidesBefore(os, n + 1, hitbox) <==> CollidesBefore(os, n, hitbox) || CollidesWith(os[n], hitbox)
  {
    if CollidesBefore(os, n + 1, hitbox) && !CollidesWith(os[n], hitbox) {
      var k :| 0 <= k < n + 1 && CollidesWith(os[k], hitbox);
      assert k < n;
    }
  }

  /** `Game.update`, one tick: the player moves, the distance grows by one,
      every obstacle moves once and is tested against the moved player, and the
      queue keeps the obstacles still on screen, counting the others as passed. */
  function Tick(s: Session): Session
  {
    var player := Stepped(s.player);
    var moved := MovedAll(s.obstacles);
    var kept := OnScreenObstacles(moved);
    Session(
      if AnyCollides(moved, Hitbox(player)) then Over else s.state,
      player,
      kept,
      s.obstaclesPassed + Dropped(moved),
      s.distanceTraveled + 1)
  }

  /** `n` ticks. */
  function TickN(s: Session, n: nat): Session
  {
    if n == 0 then s else Tick(TickN(s, n - 1))
  }

  /** Adding an obstacle keeps the invariant and grows the queue by one. */
  lemma AddObstacleKeepsInv(s: Session, offset: Offset)
    requires Inv(s)
    ensures Inv(AddObstacleTo(s, offset))
    ensures |AddObstacleTo(s, offset).obstacles| == |s.obstacles| + 1
  {
  }

  /** A tick keeps the invariant: positions decrease in lockstep, so the queue
      stays sorted, and the filter leaves only obstacles on screen. */
  lemma TickKeepsInv(s: Session)
    requires Inv(s)
    ensures Inv(Tick(s))
  {
    var moved := MovedAll(s.obstacles);
    MovedAllKeepsSorted(s.obstacles);
    OnScreenKeepsSorted(moved);
    var kept := OnScreenObstacles(moved);
    OnScreenMembers(moved);
    forall k | 0 <= k < |kept|
      ensures OnScreen(kept[k]) && kept[k].x <= SpawnX
    {
      assert kept[k] in kept;
      var j :| 0 <= j < |moved| && moved[j] == kept[k];
    }
  }

  /** What one tick does to the counters and the queue: the distance grows by
      exactly one; every obstacle moves once; the queue becomes the moved queue
      less a prefix of the oldest obstacles, which are counted as passed, so
      `obstacles_passed` never decreases and `obstacles_passed + len(obstacles)`
      is unchanged. */
  lemma TickCounts(s: Session)
    requires Inv(s)
    ensures Tick(s).distanceTraveled == s.distanceTraveled + 1
    ensures var d := Tick(s).obstaclesPassed - s.obstaclesPassed;
      d >= 0 && Tick(s).obstacles == MovedAll(s.obstacles)[d..]
    ensures Tick(s).obstaclesPassed + |Tick(s).obstacles| == s.obstaclesPassed + |s.obstacles|
  {
    MovedAllKeepsSorted(s.obstacles);
    OnScreenDropsPrefix(MovedAll(s.obstacles));
  }

  /** A tick sets the state to `OVER` exactly when some obstacle, after its
      move, overlaps the moved player, and leaves it alone otherwise. */
  lemma TickState(s: Session)
    ensures Tick(s).state == Over <==>
      s.state == Over ||
      exists k :: 0 <= k < |s.obstacles| && CollidesWith(Moved(s.obstacles[k]), Hitbox(Stepped(s.player)))
    ensures Tick(s).state != Over ==> Tick(s).state == s.state
  {
    var moved := MovedAll(s.obstacles);
    if exists k :: 0 <= k < |s.obstacles| && CollidesWith(Moved(s.obstacles[k]), Hitbox(Stepped(s.player))) {
      var k :| 0 <= k < |s.obstacles| && CollidesWith(Moved(s.obstacles[k]), Hitbox(Stepped(s.player)));
      assert CollidesWith(moved[k], Hitbox(Stepped(s.player)));
    }
  }

  /** Refiltering a game whose queue was just filtered changes nothing, the
      counter included. */
  lemma RefilterIdempotent(s: Session)
    ensures Refilter(Refilter(s)) == Refilter(s)
  {
    OnScreenIdempotent(s.obstacles);
  }

  /** Ticks keep going whatever the state: `OVER` stays `OVER`, and every tick
      still adds one to the distance. */
  lemma {:induction false} TicksIgnoreState(s: Session, n: nat)
    ensures TickN(s, n).distanceTraveled == s.distanceTraveled + n
    ensures s.state == Over ==> TickN(s, n).state == Over
  {
    if n > 0 {
      TicksIgnoreState(s, n - 1);
    }
  }

  /** The invariant holds after any number of ticks, and `obstacles_passed`
      never decreases. */
  lemma {:induction false} TickNKeepsInv(s: Session, n: nat)
    requires Inv(s)
    ensures Inv(TickN(s, n))
    ensures TickN(s, n).obstaclesPassed >= s.obstaclesPassed
    ensures TickN(s, n).obstaclesPassed + |TickN(s, n).obstacles| == s.obstaclesPassed + |s.obstacles|
  {
    if n > 0 {
      TickNKeepsInv(s, n - 1);
      TickKeepsInv(TickN(s, n - 1));
      TickCounts(TickN(s, n - 1));
    }
  }

  /** A lone obstacle added to the game is still queued after 254 ticks, at
      x = 1200 - 5 * 254 = -70, and nothing has been counted yet. */
  lemma {:induction false} LoneObstacleStays(s: Session, offset: Offset, k: nat)
    requires s.obstacles == [NewObstacle(offset)]
    requires k <= 254
    ensures TickN(s, k).obstacles == [MovedN(NewObstacle(offset), k)]
    ensures TickN(s, k).obstaclesPassed == s.obstaclesPassed
  {
    if k > 0 {
      LoneObstacleStays(s, offset, k - 1);
      Lifetime(offset, k);
      var prev := TickN(s, k - 1);
      assert MovedAll(prev.obstacles) == [MovedN(NewObstacle(offset), k)];
    }
  }

  /** On the 255th tick that obstacle leaves and is counted as passed. */
  lemma LoneObstacleLeaves(s: Session, offset: Offset)
    requires s.obstacles == [NewObstacle(offset)]
    ensures TickN(s, 255).obstacles == []
    ensures TickN(s, 255).obstaclesPassed == s.obstaclesPassed + 1
  {
    LoneObstacleStays(s, offset, 254);
    Lifetime(offset, 255);
    var prev := TickN(s, 254);
    assert MovedAll(prev.obstacles) == [MovedN(NewObstacle(offset), 255)];
  }

  // ---- get_next_obstacle ----

  /** The horizontal centre of each obstacle's top block, in queue order. */
  function Centers(os: seq<ObstacleState>): (cs: seq<int>)
    ensures |cs| == |os|
    ensures forall k :: 0 <= k < |os| ==> cs[k] == TopBlock(os[k]).CenterX()
  {
    seq(|os|, k requires 0 <= k < |os| => TopBlock(os[k]).CenterX())
  }

  /** The player's horizontal centre. */
  function PlayerCenterX(p: PlayerState): int
  {
    Hitbox(p).CenterX()
  }

  predicate NoneAhead(cs: seq<int>, pc: int)
  {
    forall k :: 0 <= k < |cs| ==> cs[k] <= pc
  }

  /** `k` is the closest position ahead of `pc`: ahead of it, no further than
      any other position ahead, and the first in order among equals. */
  predicate IsClosestAhead(cs: seq<int>, pc: int, k: int)
  {
    0 <= k < |cs| && cs[k] > pc &&
    (forall j :: 0 <= j < |cs| && cs[j] > pc ==> cs[k] <= cs[j]) &&
    (forall j :: 0 <= j < k && cs[j] > pc ==> cs[k] < cs[j])
  }

  /** The loop of `get_next_obstacle` as written, over the first `|cs|`
      positions: the index it has chosen and the `closest_pos` it holds. The
      first position ahead of the player sets both; a later one that is closer
      only replaces the chosen index, never `closest_pos`. */
  function NextAsWritten(cs: seq<int>, pc: int): Option<(nat, int)>
  {
    if cs == [] then None
    else
      var prev := NextAsWritten(cs[..|cs| - 1], pc);
      var i := |cs| - 1;
      if cs[i] <= pc then prev
      else match prev
        case None => Some((i, cs[i]))
        case Some((_, closestPos)) => if closestPos > cs[i] then Some((i, closestPos)) else prev
  }

  /** What `get_next_obstacle` is documented to return, "the closest obstacle
      to the player which is not behind the player": the index of the closest
      position ahead, first among equals, or none when nothing is ahead. */
  function ClosestAhead(cs: seq<int>, pc: int): (r: Option<nat>)
    ensures r.None? <==> NoneAhead(cs, pc)
    ensures r.Some? ==> IsClosestAhead(cs, pc, r.value)
  {
    if cs == [] then None
    else
      var rest := ClosestAhead(cs[1..], pc);
      if cs[0] > pc && (rest.None? || cs[0] <= cs[1 + rest.value]) then Some(0)
      else if rest.Some? then Some(1 + rest.value)
      else None
  }

  /** The loop as written finds nothing exactly when no position is ahead, and
      whatever it chooses is ahead; `closest_pos` is the first position ahead. */
  lemma {:induction false} NextAsWrittenFinds(cs: seq<int>, pc: int)
    ensures NextAsWritten(cs, pc).None? <==> NoneAhead(cs, pc)
    ensures match NextAsWritten(cs, pc)
      case None => true
      case Some((k, pos)) =>
        k < |cs| && cs[k] > pc && pos > pc &&
        (exists f :: 0 <= f <= k && cs[f] == pos && NoneAhead(cs[..f], pc))
  {
    if cs != [] {
      var init := cs[..|cs| - 1];
      NextAsWrittenFinds(init, pc);
      match NextAsWritten(init, pc)
      case None =>
        assert init == cs[..|cs| - 1];
      case Some((k, pos)) =>
        var f :| 0 <= f <= k && init[f] == pos && NoneAhead(init[..f], pc);
        assert cs[..f] == init[..f];
    }
  }

  /** On a sorted queue the loop as written returns the first obstacle ahead of
      the player, which is the closest one: the quirk never shows. */
  lemma {:induction false} NextAsWrittenOnSorted(cs: seq<int>, pc: int)
    requires forall i, j :: 0 <= i < j < |cs| ==> cs[i] <= cs[j]
    ensures match NextAsWritten(cs, pc)
      case None => ClosestAhead(cs, pc).None?
      case Some((k, _)) => ClosestAhead(cs, pc) == Some(k)
  {
    NextAsWrittenFinds(cs, pc);
    match NextAsWritten(cs, pc)
    case None =>
    case Some((k, pos)) =>
      var f :| 0 <= f <= k && cs[f] == pos && NoneAhead(cs[..f], pc);
      FirstAheadChosen(cs, pc, f);
      var r := ClosestAhead(cs, pc);
      assert forall j :: 0 <= j < f ==> cs[..f][j] == cs[j];
  }

  /** Once the loop has met the first position ahead, `f`, on a sorted queue it
      keeps `f`: no later position is strictly closer. */
  lemma {:induction false} FirstAheadChosen(cs: seq<int>, pc: int, f: nat)
    requires forall i, j :: 0 <= i < j < |cs| ==> cs[i] <= cs[j]
    requires f < |cs| && cs[f] > pc && NoneAhead(cs[..f], pc)
    ensures NextAsWritten(cs, pc) == Some((f, cs[f]))
  {
    if |cs| - 1 > f {
      var init := cs[..|cs| - 1];
      assert init[..f] == cs[..f];
      FirstAheadChosen(init, pc, f);
    } else {
      var init := cs[..|cs| - 1];
      assert init == cs[..f];
      NextAsWrittenFinds(init, pc);
    }
  }

  /** The quirk, shown: with obstacle centres 500, 300, 400 (front to back) and
      the player's centre at 200, the loop as written returns the third
      obstacle (400) although the second (300) is the closest ahead. */
  lemma NextAsWrittenMissesClosest()
    ensures NextAsWritten([500, 300, 400], 200) == Some((2, 500))
    ensures ClosestAhead([500, 300, 400], 200) == Some(1)
  {
    assert [500, 300, 400][..2] == [500, 300];
    assert [500, 300][..1] == [500];
    assert [500][..0] == [];
  }

  // ---- distance, height and fitness ----

  function Abs(n: int): (r: nat)
    ensures r == n || r == -n
  {
    if n < 0 then -n else n
  }

  /** `distance_to_obstacle`: how far the centre of the obstacle's top block is
      right of the player's centre. */
  function DistanceTo(p: PlayerState, o: ObstacleState): (d: int)
    ensures d > 0 <==> TopBlock(o).CenterX() > PlayerCenterX(p)
    ensures d == o.x + ObstacleWidth / 2 - (p.x + PlayerWidth / 2)
  {
    TopBlock(o).CenterX() - PlayerCenterX(p)
  }

  /** `height_to_obstacle`: how far the middle of the gap is below the player's
      centre. The middle of the gap is half a gap below the top block and half
      a gap above the bottom block. */
  function HeightTo(p: PlayerState, o: ObstacleState): (h: int)
    ensures h + Hitbox(p).CenterY() == BottomBlock(o).top - GapSize / 2
    ensures h + Hitbox(p).CenterY() == o.y + WindowHeight / 2 + o.offset
  {
    TopBlock(o).Bottom() + GapSize / 2 - Hitbox(p).CenterY()
  }

  /** `calculate_fitness`: the distance travelled less the horizontal distance
      and the absolute height difference to the next obstacle. Without an
      obstacle ahead the source fails (it dereferences `None`); that is `None`
      here. With one, the fitness is below the distance travelled. */
  function Fitness(s: Session): (r: Option<int>)
    ensures r.None? <==> NoneAhead(Centers(s.obstacles), PlayerCenterX(s.player))
    ensures r.Some? ==> r.value < s.distanceTraveled
  {
    match ClosestAhead(Centers(s.obstacles), PlayerCenterX(s.player))
    case None => None
    case Some(k) =>
      var o := s.obstacles[k];
      Some(s.distanceTraveled - (DistanceTo(s.player, o) + Abs(HeightTo(s.player, o))))
  }

  // ---- input and the frame loop ----

  /** The keys `process_input` reacts to. Pressing `o` spawns an obstacle, so
      it carries the offset the random draw gives that obstacle. */
  datatype Key = Space | O(offset: Offset) | Q | OtherKey

  /** The events `process_input` reads. A firing of the spawn timer carries the
      offset of the obstacle it spawns. */
  datatype Event = QuitEvent | ObstacleSpawn(offset: Offset) | KeyDown(key: Key) | OtherEvent

  /** `process_input` over one batch of events: spawns and swims in order; a
      quit event or the `q` key ends the process at once (`true`), and later
      events are not looked at. */
  function ApplyEvents(s: Session, events: seq<Event>): (Session, bool)
    decreases |events|
  {
    if events == [] then (s, false)
    else match events[0]
      case QuitEvent => (s, true)
      case ObstacleSpawn(offset) => ApplyEvents(AddObstacleTo(s, offset), events[1..])
      case KeyDown(Space) => ApplyEvents(s.(player := Swum(s.player)), events[1..])
      case KeyDown(O(offset)) => ApplyEvents(AddObstacleTo(s, offset), events[1..])
      case KeyDown(Q) => (s, true)
      case KeyDown(OtherKey) => ApplyEvents(s, events[1..])
      case OtherEvent => ApplyEvents(s, events[1..])
  }

  /** Input keeps the invariant, never touches the counters, the state or the
      player's position, and only appends to the queue. */
  lemma {:induction false} ApplyEventsKeepsInv(s: Session, events: seq<Event>)
    requires Inv(s)
    ensures var r := ApplyEvents(s, events).0;
      Inv(r) && r.state == s.state && r.obstaclesPassed == s.obstaclesPassed &&
      r.distanceTraveled == s.distanceTraveled &&
      r.player.x == s.player.x && r.player.y3 == s.player.y3 &&
      |r.obstacles| >= |s.obstacles| && r.obstacles[..|s.obstacles|] == s.obstacles
    decreases |events|
  {
    if events != [] {
      match events[0]
      case QuitEvent =>
      case ObstacleSpawn(offset) =>
        ApplyEventsKeepsInv(AddObstacleTo(s, offset), events[1..]);
      case KeyDown(Space) =>
        ApplyEventsKeepsInv(s.(player := Swum(s.player)), events[1..]);
      case KeyDown(O(offset)) =>
        ApplyEventsKeepsInv(AddObstacleTo(s, offset), events[1..]);
      case KeyDown(Q) =>
      case KeyDown(OtherKey) =>
        ApplyEventsKeepsInv(s, events[1..]);
      case OtherEvent =>
        ApplyEventsKeepsInv(s, events[1..]);
    }
  }

  /** One pass of the main loop: the wall-clock time elapsed since the last
      pass, in microseconds, and the events waiting. */
  datatype Frame = Frame(elapsedMicros: nat, events: seq<Event>)

  /** How `start` ends: the process exits on a quit, or the loop ends because
      the state left `RUNNING` and the score and fitness are reported (the
      fitness is `None` where the source fails), or the given frames run out
      while the game still runs. */
  datatype Outcome = Exited | Finished(score: nat, fitness: Option<int>) | StillRunning

  /** One pass of the loop of `start`: add the frame's elapsed time to the
      lag and process its input; unless that quits, run one tick per whole
      16 ms in the lag, whatever the state, and keep the remainder, which is
      then less than one tick. Returns the session, the lag and whether the
      input quit. */
  function FrameStep(s: Session, lag: nat, f: Frame): (r: (Session, nat, bool))
    ensures var (s', quit) := ApplyEvents(s, f.events); r.2 == quit
    ensures !r.2 ==> r.1 < TickMicros && r.1 + TickMicros * ((lag + f.elapsedMicros) / TickMicros) == lag + f.elapsedMicros
  {
    var lag' := lag + f.elapsedMicros;
    var (s', quit) := ApplyEvents(s, f.events);
    if quit then (s', lag', true)
    else (TickN(s', lag' / TickMicros), lag' % TickMicros, false)
  }

  /** The loop of `start` from a given state and accumulated lag, frame by
      frame while the game runs. */
  function RunFrames(s: Session, lag: nat, frames: seq<Frame>): (Session, Outcome)
    decreases |frames|
  {
    if s.state != Running then (s, Finished(s.obstaclesPassed, Fitness(s)))
    else if frames == [] then (s, StillRunning)
    else
      var (s', lag', quit) := FrameStep(s, lag, frames[0]);
      if quit then (s', Exited)
      else RunFrames(s', lag', frames[1..])
  }

  /** `lag` splits into whole ticks and a remainder less than one tick in
      exactly one way. */
  lemma LagSplit(lag: nat, ticks: nat, rest: nat)
    requires rest + ticks * TickMicros == lag && rest < TickMicros
    ensures lag / TickMicros == ticks && lag % TickMicros == rest
  {
  }
}
