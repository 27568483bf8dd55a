/**
 * The state machine of the runaway game (`RunawayGame`, `ManualMover`) as
 * pure transitions on a snapshot of the game's class-level state. Each
 * function follows the source statement by statement, including the work
 * that goes on after a win in the middle of a move: the exit loop keeps
 * scanning the exit list (to which the next level has appended, and which
 * the end of the last level leaves in place), the
 * trail loop reads the current (fresh) trail, and the final hand-over of
 * the turn lands on the newly loaded actor.
 */
module GameRules {
  import opened Common
  import opened TileGeometry
  import opened LevelLoader

  /** Seconds an actor has to move before the opponent wins the level. */
  const TURN_TIME: int := 5

  datatype Actor = Runner | Chaser

  /** A `ManualMover`: where it stands, whether it holds the turn, its remaining seconds. */
  datatype Mover = Mover(pos: Pos, turn: bool, timer: int)

  /** Why the game stopped abnormally: no level at all, a non-integer tile token, a level without runner or chaser. */
  datatype Fault = NoLevels | BadTile | MissingActor

  /** Playing; Ended once the last level is over; Crashed when the source would raise. */
  datatype Phase = Playing | Ended | Crashed(fault: Fault)

  /** The class-level fields of `RunawayGame` that the rules read and write. */
  datatype GameState = GameState(
    runner: Option<Mover>,
    chaser: Option<Mover>,
    walls: seq<Pos>,
    exits: seq<Pos>,
    humanSteps: seq<Pos>,
    minotaurSteps: seq<Pos>,
    levels: seq<Grid>,
    runnerScore: nat,
    chaserScore: nat,
    levelFinished: bool,
    phase: Phase)

  /** The state after `read_map` has read a level: whether it completed or raised. */
  datatype Loaded = Loaded(state: GameState, ok: bool)

  /** A key press for one actor, or one second of the turn timer. */
  datatype Event = Press(who: Actor, dir: Direction) | Second

  /** A mover as `ManualMover.__init__` creates it. */
  function Fresh(p: Pos): Mover
  {
    Mover(p, false, TURN_TIME)
  }

  predicate AllOnGrid(ps: seq<Pos>) {
    forall k :: 0 <= k < |ps| ==> OnGrid(ps[k])
  }

  /** A level is in play and both actors exist. */
  predicate Ready(s: GameState) {
    s.phase == Playing && s.runner.Some? && s.chaser.Some?
  }

  function MoverOf(s: GameState, who: Actor): Option<Mover>
  {
    if who == Runner then s.runner else s.chaser
  }

  /** The wall loop of the move rule finds a wall touching `t`. */
  predicate Blocked(walls: seq<Pos>, t: Pos) {
    exists k :: 0 <= k < |walls| && Touches(walls[k], t)
  }

  /** The trail loop of the move rule finds a step near `t`. */
  predicate InTrail(steps: seq<Pos>, t: Pos) {
    exists k :: 0 <= k < |steps| && Near(t, steps[k])
  }

  /** While a level is in play: both actors exist, timers are within a turn, and everything stands on a cell centre. */
  predicate WellPlaced(s: GameState) {
    s.phase == Playing ==>
      && s.runner.Some? && s.chaser.Some?
      && 1 <= s.runner.value.timer <= TURN_TIME
      && 1 <= s.chaser.value.timer <= TURN_TIME
      && OnGrid(s.runner.value.pos) && OnGrid(s.chaser.value.pos)
      && AllOnGrid(s.walls) && AllOnGrid(s.exits)
      && AllOnGrid(s.humanSteps) && AllOnGrid(s.minotaurSteps)
  }

  /** What the game keeps between events: a well-placed level in which some actor holds the turn. */
  predicate Inv(s: GameState) {
    && WellPlaced(s)
    && (s.phase == Playing ==> s.runner.value.turn || s.chaser.value.turn)
  }

  /** The actor after a level file is read: a fresh mover where the file placed one, otherwise the one there was. */
  function Adopt(placed: Option<Pos>, current: Option<Mover>): Option<Mover>
  {
    if placed.Some? then Some(Fresh(placed.value)) else current
  }

  /**
   * `read_map`: walls and exits are appended to the current lists, a
   * runner or chaser code replaces that actor by a fresh one; a token that
   * is not an integer stops the reading part-way.
   */
  function Load(s: GameState, grid: Grid): (r: Loaded)
    ensures s.walls <= r.state.walls && s.exits <= r.state.exits
    ensures r.state.humanSteps == s.humanSteps && r.state.minotaurSteps == s.minotaurSteps
    ensures r.state.levels == s.levels && r.state.phase == s.phase
    ensures r.state.runnerScore == s.runnerScore && r.state.chaserScore == s.chaserScore
    ensures AllOnGrid(s.walls) && AllOnGrid(s.exits) ==> AllOnGrid(r.state.walls) && AllOnGrid(r.state.exits)
    ensures s.runner.None? && s.chaser.None? && AllOnGrid(s.walls) && AllOnGrid(s.exits) ==>
      && (r.state.runner.Some? ==> OnGrid(r.state.runner.value.pos) && r.state.runner.value.timer == TURN_TIME)
      && (r.state.chaser.Some? ==> OnGrid(r.state.chaser.value.pos) && r.state.chaser.value.timer == TURN_TIME)
  {
    var acc := Placement(s.walls, s.exits, None, None);
    var sc := ScanGrid(GridCodes(grid), 0, acc);
    assert AllOnGrid(s.walls) && AllOnGrid(s.exits) ==> PlacementOnGrid(acc);
    ScanGridOnGrid(GridCodes(grid), 0, acc);
    Loaded(s.(walls := sc.placed.walls, exits := sc.placed.exits,
              runner := Adopt(sc.placed.runner, s.runner), chaser := Adopt(sc.placed.chaser, s.chaser)), sc.ok)
  }

  /** `start`: the runner gets the turn; a level without both actors is a fault. */
  function Start(s: GameState): (r: GameState)
    ensures r.phase == Playing ==> Ready(r) && r.runner.value.turn && !r.levelFinished
    ensures r.runnerScore == s.runnerScore && r.chaserScore == s.chaserScore
  {
    if s.phase != Playing then s
    else if s.runner.None? || s.chaser.None? then s.(phase := Crashed(MissingActor))
    else s.(runner := Some(s.runner.value.(turn := true)), levelFinished := false)
  }

  /** `on_destroy`: walls, both trails and both actors are dropped; the exits stay. */
  function OnDestroy(s: GameState): GameState
  {
    s.(walls := [], humanSteps := [], minotaurSteps := [], runner := None, chaser := None)
  }

  function TurnOff(m: Option<Mover>): Option<Mover>
  {
    if m.Some? then Some(m.value.(turn := false)) else None
  }

  /**
   * `next_level`: ends the level, clears it, and either reads and starts
   * the first queued level (`levels.pop(0)`) or ends the game.
   */
  function NextLevel(s: GameState): (r: GameState)
    ensures r.runnerScore == s.runnerScore && r.chaserScore == s.chaserScore
    ensures s.exits <= r.exits
    ensures r.humanSteps == [] && r.minotaurSteps == []
    ensures s.levels == [] ==> r.phase == Ended && r.levels == [] && r.exits == s.exits && r.walls == []
    ensures s.levels == [] ==> r.runner.None? && r.chaser.None?
    ensures s.levels != [] ==> r.levels == s.levels[1..]
    ensures r.phase == Playing ==> s.levels != [] && Ready(r) && r.runner.value.turn && !r.chaser.value.turn
    ensures r.phase == Playing ==> r.runner.value.timer == TURN_TIME && r.chaser.value.timer == TURN_TIME
    ensures AllOnGrid(s.exits) ==> WellPlaced(r)
  {
    var cleared := OnDestroy(s.(levelFinished := true, runner := TurnOff(s.runner), chaser := TurnOff(s.chaser)));
    if cleared.levels == [] then cleared.(phase := Ended) else Reload(cleared)
  }

  /** The second half of `next_level` on a cleared board: read the first queued level and start it. */
  function Reload(s: GameState): (r: GameState)
    requires s.levels != [] && s.runner.None? && s.chaser.None? && s.walls == []
    requires s.humanSteps == [] && s.minotaurSteps == []
    ensures r.runnerScore == s.runnerScore && r.chaserScore == s.chaserScore
    ensures s.exits <= r.exits && r.levels == s.levels[1..]
    ensures r.humanSteps == [] && r.minotaurSteps == []
    ensures r.phase == Playing ==> s.phase == Playing && Ready(r) && r.runner.value.turn && !r.chaser.value.turn
    ensures r.phase == Playing ==> r.runner.value.timer == TURN_TIME && r.chaser.value.timer == TURN_TIME
    ensures AllOnGrid(s.exits) ==> WellPlaced(r)
  {
    var ld := Load(s.(levels := s.levels[1..]), s.levels[0]);
    if ld.ok then Start(ld.state) else ld.state.(phase := Crashed(BadTile))
  }

  /** `on_win`: one point to the winner, then the next level. */
  function OnWin(s: GameState, who: Actor): (r: GameState)
    ensures r.runnerScore == s.runnerScore + (if who == Runner then 1 else 0)
    ensures r.chaserScore == s.chaserScore + (if who == Chaser then 1 else 0)
  {
    NextLevel(Scored(s, who))
  }

  /** The first line of `on_win`: the winner's score goes up by one. */
  function Scored(s: GameState, who: Actor): GameState
  {
    if who == Runner then s.(runnerScore := s.runnerScore + 1) else s.(chaserScore := s.chaserScore + 1)
  }

  /** The closing `other.turn = True` of a move, applied to whichever actor is current. */
  function GiveTurn(s: GameState, who: Actor): GameState
  {
    if s.phase != Playing then s
    else if who == Runner && s.runner.Some? then s.(runner := Some(s.runner.value.(turn := true)))
    else if who == Chaser && s.chaser.Some? then s.(chaser := Some(s.chaser.value.(turn := true)))
    else s
  }

  /**
   * The runner's exit loop from index `i` on, for a runner standing at `p`.
   * A win does not stop it: it goes on over the remaining exits, including
   * those the next level has appended. A win whose next level fails to
   * load raises out of the loop; a win on the last level ends the game,
   * and the loop goes on as `ExitScanAfterEnd`.
   */
  function ExitScan(s: GameState, p: Pos, i: nat): GameState
    decreases if s.phase == Playing then 1 else 0, |s.levels|, |s.exits| - i
  {
    if s.phase != Playing || i >= |s.exits| then s
    else if Near(p, s.exits[i]) then
      var w := OnWin(s, Runner);
      if w.phase == Ended then ExitScanAfterEnd(w, p, i + 1) else ExitScan(w, p, i + 1)
    else ExitScan(s, p, i + 1)
  }

  /**
   * The exit loop from index `i` on after the last level's win: the exits
   * are still listed, and the first one near `p` gives the runner one more
   * point before `next_level` raises on the missing runner.
   */
  function ExitScanAfterEnd(s: GameState, p: Pos, i: nat): GameState
    decreases |s.exits| - i
  {
    if i >= |s.exits| then s
    else if Near(p, s.exits[i]) then s.(runnerScore := s.runnerScore + 1)
    else ExitScanAfterEnd(s, p, i + 1)
  }

  /** The chaser's accepted step from `from` to `t`: capture test, then its own trail, then the runner's turn. */
  function ChaserMoved(s: GameState, from: Pos, t: Pos): GameState
    requires Ready(s)
  {
    var moved := s.(chaser := Some(Fresh(t)), minotaurSteps := s.minotaurSteps + [from]);
    var captured := if Near(t, moved.runner.value.pos) then OnWin(moved, Chaser) else moved;
    var looped := if captured.phase == Playing && InTrail(captured.minotaurSteps, t) then OnWin(captured, Runner) else captured;
    GiveTurn(looped, Runner)
  }

  /** The runner's accepted step from `from` to `t`: every exit, then its own trail, then the chaser's turn. */
  function RunnerMoved(s: GameState, from: Pos, t: Pos): GameState
    requires Ready(s)
  {
    var moved := s.(runner := Some(Fresh(t)), humanSteps := s.humanSteps + [from, from]);
    var escaped := ExitScan(moved, t, 0);
    var looped := if escaped.phase == Playing && InTrail(escaped.humanSteps, t) then OnWin(escaped, Chaser) else escaped;
    GiveTurn(looped, Chaser)
  }

  /** `check_collision`: a one-tile step by the actor holding the turn, undone when it meets a wall. */
  function Move(s: GameState, who: Actor, dir: Direction): GameState
  {
    if !Ready(s) || !MoverOf(s, who).value.turn then s
    else
      var from := MoverOf(s, who).value.pos;
      var t := Step(from, dir);
      if Blocked(s.walls, t) then s
      else if who == Chaser then ChaserMoved(s, from, t)
      else RunnerMoved(s, from, t)
  }

  /** `step`: one second off the turn holder's timer; at zero the opponent wins the level. */
  function Tick(s: GameState): GameState
  {
    if !Ready(s) then s
    else if s.runner.value.turn then
      var late := s.(runner := Some(s.runner.value.(timer := s.runner.value.timer - 1)));
      if late.runner.value.timer <= 0 then OnWin(late, Chaser) else late
    else if s.chaser.value.turn then
      var late := s.(chaser := Some(s.chaser.value.(timer := s.chaser.value.timer - 1)));
      if late.chaser.value.timer <= 0 then OnWin(late, Runner) else late
    else s
  }

  /** The state the class attributes start in. */
  function Blank(levels: seq<Grid>): GameState
  {
    GameState(None, None, [], [], [], [], levels, 0, 0, false, Playing)
  }

  /** `RunawayGame.__init__`: reads the first queued level (`levels.pop(0)`), without starting it. */
  function Init(levels: seq<Grid>): GameState
  {
    if levels == [] then Blank(levels).(phase := Crashed(NoLevels))
    else
      var ld := Load(Blank(levels[1..]), levels[0]);
      if ld.ok then ld.state else ld.state.(phase := Crashed(BadTile))
  }

  /** One event of the main loop. */
  function Apply(s: GameState, e: Event): GameState
  {
    match e
    case Press(who, dir) => Move(s, who, dir)
    case Second => Tick(s)
  }

  /** The main loop over a sequence of events. */
  function Run(s: GameState, events: seq<Event>): GameState
    decreases |events|
  {
    if events == [] then s else Run(Apply(s, events[0]), events[1..])
  }
}
