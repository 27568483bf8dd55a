/**
 * The runaway game as the source runs it: one object whose fields the
 * class methods update in place, with loops over the level file, the
 * walls, the exits and the trails. Each method is proved to leave the
 * object in the state the matching rule of `GameRules` computes from the
 * state it found, so every property proved in `GameProperties` holds of
 * the object.
 */
module TurtleGame {
  import opened Common
  import opened TileGeometry
  import opened Text
  import opened LevelLoader
  import opened GameRules
  import opened GameProperties

  /** The wall loop of a move: does some wall touch `t`? */
  method HitsWall(walls: seq<Pos>, t: Pos) returns (hit: bool)
    ensures hit <==> Blocked(walls, t)
  {
    var k := 0;
    while k < |walls|
      invariant 0 <= k <= |walls|
      invariant forall j :: 0 <= j < k ==> !Touches(walls[j], t)
    {
      if Touches(walls[k], t) {
        return true;
      }
      k := k + 1;
    }
    return false;
  }

  /** A trail loop of a move: is some step of the trail near `t`? */
  method TrailHit(steps: seq<Pos>, t: Pos) returns (hit: bool)
    ensures hit <==> InTrail(steps, t)
  {
    var k := 0;
    while k < |steps|
      invariant 0 <= k <= |steps|
      invariant forall j :: 0 <= j < k ==> !Near(t, steps[j])
    {
      if Near(t, steps[k]) {
        return true;
      }
      k := k + 1;
    }
    return false;
  }

  /** `RunawayGame` with its class-level fields. */
  class RunawayGame {
    var runner: Option<Mover>
    var chaser: Option<Mover>
    var walls: seq<Pos>
    var exits: seq<Pos>
    var humanSteps: seq<Pos>
    var minotaurSteps: seq<Pos>
    var levels: seq<Grid>
    var runnerScore: nat
    var chaserScore: nat
    var levelFinished: bool
    var phase: Phase

    /** The fields as one value of the rules' state. */
    function State(): GameState
      reads this
    {
      GameState(runner, chaser, walls, exits, humanSteps, minotaurSteps, levels,
        runnerScore, chaserScore, levelFinished, phase)
    }

    /** The fields reading a level file leaves alone. */
    function Others(): (seq<Pos>, seq<Pos>, seq<Grid>, nat, nat, bool, Phase)
      reads this
    {
      (humanSteps, minotaurSteps, levels, runnerScore, chaserScore, levelFinished, phase)
    }

    /** `__init__`: the class attributes' initial values, then the first queued level is read (not started). */
    constructor(queue: seq<Grid>)
      ensures State() == Init(queue)
    {
      runner, chaser := None, None;
      walls, exits, humanSteps, minotaurSteps := [], [], [], [];
      levels := queue;
      runnerScore, chaserScore := 0, 0;
      levelFinished := false;
      phase := Playing;
      new;
      if levels == [] {
        phase := Crashed(NoLevels);
      } else {
        var grid := levels[0];
        levels := levels[1..];
        var ok := ReadMap(grid);
        if !ok {
          phase := Crashed(BadTile);
        }
      }
    }

    /** The walls, exits and actors are those of placement `pl`, over the actors there were before the file was read. */
    ghost predicate Holds(pl: Placement, runnerBefore: Option<Mover>, chaserBefore: Option<Mover>)
      reads this
    {
      && walls == pl.walls && exits == pl.exits
      && runner == Adopt(pl.runner, runnerBefore) && chaser == Adopt(pl.chaser, chaserBefore)
    }

    /**
     * One line of `read_map`: the line is stripped and split on commas,
     * every token read as an integer; codes 1 and 2 append a wall or an
     * exit, codes 3 and 4 replace the runner or the chaser, other integers
     * are ignored. A token that is not an integer stops the reading where
     * it stands.
     */
    method ReadLine(row: nat, line: string, ghost pl: Placement, ghost runnerBefore: Option<Mover>, ghost chaserBefore: Option<Mover>)
      returns (ok: bool, ghost placed: Placement)
      requires Holds(pl, runnerBefore, chaserBefore)
      modifies this
      ensures Scan(placed, ok) == ScanRow(row, RowCodes(line), 0, pl)
      ensures Holds(placed, runnerBefore, chaserBefore)
      ensures Others() == old(Others())
    {
      var tokens := RowTokens(line);
      ghost var codes := RowCodes(line);
      var col := 0;
      placed := pl;
      while col < |tokens|
        invariant 0 <= col <= |tokens| == |codes|
        invariant Holds(placed, runnerBefore, chaserBefore)
        invariant ScanRow(row, codes, col, placed) == ScanRow(row, codes, 0, pl)
        invariant Others() == old(Others())
      {
        CodesAt(tokens, col);
        var code := ParseInt(tokens[col]);
        if code.None? {
          return false, placed;
        }
        var p := CellPos(row, col);
        ScanRowStep(row, codes, col, placed);
        PlaceCode(code.value, p, placed, runnerBefore, chaserBefore);
        placed := Place(placed, code.value, p);
        col := col + 1;
      }
      return true, placed;
    }

    /** The effect of one integer token of a level file at cell centre `p`. */
    method PlaceCode(code: int, p: Pos, ghost pl: Placement, ghost runnerBefore: Option<Mover>, ghost chaserBefore: Option<Mover>)
      requires Holds(pl, runnerBefore, chaserBefore)
      modifies this
      ensures Holds(Place(pl, code, p), runnerBefore, chaserBefore)
      ensures Others() == old(Others())
    {
      if code == WALL {
        walls := walls + [p];
      } else if code == EXIT {
        exits := exits + [p];
      } else if code == RUNNER {
        runner := Some(Fresh(p));
      } else if code == CHASER {
        chaser := Some(Fresh(p));
      }
    }

    /** `read_map`: the lines of the level file in order, until one holds a token that is not an integer. */
    method ReadMap(grid: Grid) returns (ok: bool)
      modifies this
      ensures Loaded(State(), ok) == Load(old(State()), grid)
    {
      ghost var cg := GridCodes(grid);
      ghost var start := Placement(walls, exits, None, None);
      ghost var runnerBefore, chaserBefore := runner, chaser;
      ghost var pl := start;
      var row := 0;
      while row < |grid|
        invariant 0 <= row <= |grid| && |cg| == |grid|
        invariant Holds(pl, runnerBefore, chaserBefore)
        invariant ScanGrid(cg, row, pl) == ScanGrid(cg, 0, start)
        invariant State() == old(State()).(walls := walls, exits := exits, runner := runner, chaser := chaser)
      {
        GridCodesAt(grid, row);
        var lineOk;
        lineOk, pl := ReadLine(row, grid[row], pl, runnerBefore, chaserBefore);
        if !lineOk {
          return false;
        }
        row := row + 1;
      }
      return true;
    }

    /** `start`: the runner gets the turn; a level without both actors stops the game. */
    method Start()
      modifies this
      ensures State() == GameRules.Start(old(State()))
    {
      if phase != Playing {
        return;
      }
      if runner.None? || chaser.None? {
        phase := Crashed(MissingActor);
        return;
      }
      runner := Some(runner.value.(turn := true));
      levelFinished := false;
    }

    /** `on_destroy`: walls, both trails and both actors are dropped; the exits stay. */
    method OnDestroy()
      modifies this
      ensures State() == GameRules.OnDestroy(old(State()))
    {
      walls := [];
      humanSteps := [];
      minotaurSteps := [];
      runner := None;
      chaser := None;
    }

    /** `next_level`: the level ends; the first queued level is read and started, or the game ends. */
    method NextLevel()
      modifies this
      ensures State() == GameRules.NextLevel(old(State()))
    {
      levelFinished := true;
      runner := TurnOff(runner);
      chaser := TurnOff(chaser);
      OnDestroy();
      if levels != [] {
        var grid := levels[0];
        levels := levels[1..];
        var ok := ReadMap(grid);
        if ok {
          Start();
        } else {
          phase := Crashed(BadTile);
        }
      } else {
        phase := Ended;
      }
    }

    /** `on_win`: one point to the winner, then the next level. */
    method OnWin(who: Actor)
      modifies this
      ensures State() == GameRules.OnWin(old(State()), who)
    {
      ghost var won := Scored(State(), who);
      if who == Runner {
        runnerScore := runnerScore + 1;
      } else {
        chaserScore := chaserScore + 1;
      }
      assert State() == won;
      NextLevel();
    }

    /** `step`: one second off the turn holder's timer; at zero the opponent wins. */
    method Tick()
      modifies this
      ensures State() == GameRules.Tick(old(State()))
    {
      if phase != Playing || runner.None? || chaser.None? {
        return;
      }
      if runner.value.turn {
        runner := Some(runner.value.(timer := runner.value.timer - 1));
        if runner.value.timer <= 0 {
          OnWin(Chaser);
        }
      } else if chaser.value.turn {
        chaser := Some(chaser.value.(timer := chaser.value.timer - 1));
        if chaser.value.timer <= 0 {
          OnWin(Runner);
        }
      }
    }

    /** The closing `other.turn = True` of a move, on whichever actor is current. */
    method GiveTurn(who: Actor)
      modifies this
      ensures State() == GameRules.GiveTurn(old(State()), who)
    {
      if phase != Playing {
        return;
      }
      if who == Runner && runner.Some? {
        runner := Some(runner.value.(turn := true));
      } else if who == Chaser && chaser.Some? {
        chaser := Some(chaser.value.(turn := true));
      }
    }

    /**
     * The runner's exit loop: every exit, including those a win in the loop
     * appends. A win whose next level fails to load stops it; after the last
     * level's win it goes on as `ExitLoopAfterEnd`.
     */
    method ExitLoop(t: Pos)
      modifies this
      ensures State() == ExitScan(old(State()), t, 0)
    {
      var i: nat := 0;
      while phase == Playing && i < |exits|
        invariant ExitScan(State(), t, i) == ExitScan(old(State()), t, 0)
        decreases if phase == Playing then 1 else 0, |levels|, |exits| - i
      {
        if Near(t, exits[i]) {
          OnWin(Runner);
          if phase == Ended {
            ExitLoopAfterEnd(t, i + 1);
            return;
          }
        }
        i := i + 1;
      }
    }

    /** The rest of the exit loop after the last level's win: the first exit near `t` adds one runner point, and `next_level` then raises. */
    method ExitLoopAfterEnd(t: Pos, from: nat)
      modifies this
      ensures State() == ExitScanAfterEnd(old(State()), t, from)
    {
      var i := from;
      while i < |exits|
        invariant ExitScanAfterEnd(State(), t, i) == ExitScanAfterEnd(old(State()), t, from)
        decreases |exits| - i
      {
        if Near(t, exits[i]) {
          runnerScore := runnerScore + 1;
          return;
        }
        i := i + 1;
      }
    }

    /** The chaser's half of `check_collision` once its step to `t` is accepted. */
    method ChaserStep(from: Pos, t: Pos)
      requires Ready(State())
      modifies this
      ensures State() == ChaserMoved(old(State()), from, t)
    {
      chaser := Some(Fresh(t));
      minotaurSteps := minotaurSteps + [from];
      if Near(t, runner.value.pos) {
        OnWin(Chaser);
      }
      if phase == Playing {
        var looped := TrailHit(minotaurSteps, t);
        if looped {
          OnWin(Runner);
        }
      }
      GiveTurn(Runner);
    }

    /** The runner's half of `check_collision` once its step to `t` is accepted. */
    method RunnerStep(from: Pos, t: Pos)
      requires Ready(State())
      modifies this
      ensures State() == RunnerMoved(old(State()), from, t)
    {
      runner := Some(Fresh(t));
      humanSteps := humanSteps + [from];
      humanSteps := humanSteps + [from];
      assert humanSteps == old(humanSteps) + [from, from];
      ExitLoop(t);
      if phase == Playing {
        var looped := TrailHit(humanSteps, t);
        if looped {
          OnWin(Chaser);
        }
      }
      GiveTurn(Chaser);
    }

    /** `check_collision`: a one-tile step by the actor holding the turn, undone when it meets a wall. */
    method CheckCollision(who: Actor, dir: Direction)
      modifies this
      ensures State() == Move(old(State()), who, dir)
    {
      if phase != Playing || runner.None? || chaser.None? {
        return;
      }
      var mover := if who == Runner then runner.value else chaser.value;
      if !mover.turn {
        return;
      }
      var from := mover.pos;
      var t := Step(from, dir);
      var blocked := HitsWall(walls, t);
      if blocked {
        return;
      }
      if who == Chaser {
        ChaserStep(from, t);
      } else {
        RunnerStep(from, t);
      }
    }

    /** One event of the main loop: a key press goes to `check_collision`, a timer tick to `step`. */
    method Handle(e: Event)
      modifies this
      ensures State() == Apply(old(State()), e)
    {
      match e {
        case Press(who, dir) => CheckCollision(who, dir);
        case Second => Tick();
      }
    }
  }

  /** Running the events from position `k` on is handling event `k`, then running the rest. */
  lemma RunFrom(s: GameState, events: seq<Event>, k: nat)
    requires k < |events|
    ensures Run(s, events[k..]) == Run(Apply(s, events[k]), events[k + 1..])
  {
    assert events[k..][1..] == events[k + 1..];
  }

  /**
   * The program's main: the game is created from the level queue and
   * started, then the events of the main loop are handled in order. The
   * final state keeps the invariant.
   */
  method Play(queue: seq<Grid>, events: seq<Event>) returns (final: GameState)
    ensures final == Run(GameRules.Start(Init(queue)), events)
    ensures Inv(final)
    ensures queue == [] ==> final.phase == Crashed(NoLevels)
  {
    var game := new RunawayGame(queue);
    game.Start();
    var k := 0;
    while k < |events|
      invariant 0 <= k <= |events|
      invariant Run(game.State(), events[k..]) == Run(GameRules.Start(Init(queue)), events)
      decreases |events| - k
    {
      RunFrom(game.State(), events, k);
      game.Handle(events[k]);
      k := k + 1;
    }
    assert events[k..] == [];
    final := game.State();
    WholeGame(queue, events);
  }
}
