/**
 * What the rules of the runaway game guarantee: the move rule, the win
 * rules, the timer, the level sequencer and the invariant they keep.
 */
module GameProperties {
  import opened Common
  import opened TileGeometry
  import opened LevelLoader
  import opened GameRules

  /** The level in play has been torn down: trails empty, and either the queue advanced or the game ended. */
  predicate LevelOver(s: GameState, r: GameState) {
    && r.humanSteps == [] && r.minotaurSteps == []
    && (s.levels == [] ==> r.phase == Ended)
    && (r.phase == Playing ==> |r.levels| < |s.levels|)
  }

  /** The scan `next_level` runs over the first queued level: from no walls, the old exits and no actors. */
  function LevelScan(s: GameState): Scan
    requires s.levels != []
  {
    ScanGrid(GridCodes(s.levels[0]), 0, Placement([], s.exits, None, None))
  }

  /**
   * `next_level` with a level queued: walls and exits are those of the
   * scan of that level, and the level is in play exactly when the scan
   * read every token and found both actors, who then stand where it put
   * them.
   */
  lemma NextLevelScan(s: GameState)
    requires s.levels != [] && s.phase == Playing
    ensures var r, sc := NextLevel(s), LevelScan(s);
      && r.walls == sc.placed.walls && r.exits == sc.placed.exits
      && (r.phase == Playing <==> sc.ok && sc.placed.runner.Some? && sc.placed.chaser.Some?)
      && (r.phase == Playing ==> r.runner.value.pos == sc.placed.runner.value && r.chaser.value.pos == sc.placed.chaser.value)
  {
    var cleared := OnDestroy(s.(levelFinished := true, runner := TurnOff(s.runner), chaser := TurnOff(s.chaser)));
    var ld := Load(cleared.(levels := cleared.levels[1..]), cleared.levels[0]);
    assert ld.state.exits == LevelScan(s).placed.exits && ld.state.walls == LevelScan(s).placed.walls;
  }

  /** The exit list after `next_level`: the old exits followed by those of the first queued level's file. */
  lemma NextLevelExitsOf(s: GameState)
    requires s.levels != []
    ensures NextLevel(s).exits == LevelScan(s).placed.exits
  {
    var cleared := OnDestroy(s.(levelFinished := true, runner := TurnOff(s.runner), chaser := TurnOff(s.chaser)));
    var ld := Load(cleared.(levels := cleared.levels[1..]), cleared.levels[0]);
    assert ld.state.exits == LevelScan(s).placed.exits;
  }

  /** Everything in a level read from a file stands on a cell centre. */
  lemma NextLevelWellPlaced(s: GameState)
    requires AllOnGrid(s.exits)
    ensures WellPlaced(NextLevel(s))
    ensures NextLevel(s).phase == Playing ==> NextLevel(s).runner.value.turn
    ensures LevelOver(s, NextLevel(s))
  {
  }

  /**
   * The exit loop never touches the chaser's score nor shortens the exit
   * list; every win it records tears the level down, and a game still in
   * play after a win has handed the turn to the new runner.
   */
  lemma {:induction false} ExitScanOutcome(s: GameState, p: Pos, i: nat)
    requires WellPlaced(s)
    ensures var r := ExitScan(s, p, i);
      && WellPlaced(r)
      && r.chaserScore == s.chaserScore
      && r.runnerScore >= s.runnerScore
      && s.exits <= r.exits
      && (r.runnerScore == s.runnerScore ==> r == s)
      && (r.runnerScore > s.runnerScore ==> LevelOver(s, r) && (r.phase == Playing ==> Ready(r) && r.runner.value.turn))
    decreases if s.phase == Playing then 1 else 0, |s.levels|, |s.exits| - i
  {
    if s.phase == Playing && i < |s.exits| {
      if Near(p, s.exits[i]) {
        var w := OnWin(s, Runner);
        NextLevelWellPlaced(s.(runnerScore := s.runnerScore + 1));
        if w.phase == Ended {
          ExitScanAfterEndOutcome(w, p, i + 1);
        } else {
          ExitScanOutcome(w, p, i + 1);
        }
      } else {
        ExitScanOutcome(s, p, i + 1);
      }
    }
  }

  /**
   * After the last level's win the loop changes only the runner's score:
   * one more point exactly when a remaining listed exit is near `p`.
   */
  lemma {:induction false} ExitScanAfterEndOutcome(s: GameState, p: Pos, i: nat)
    ensures var r := ExitScanAfterEnd(s, p, i);
      && r == s.(runnerScore := r.runnerScore)
      && (r.runnerScore == s.runnerScore + 1 <==> exists k :: i <= k < |s.exits| && Near(p, s.exits[k]))
      && (r.runnerScore != s.runnerScore + 1 ==> r == s)
    decreases |s.exits| - i
  {
    if i < |s.exits| && !Near(p, s.exits[i]) {
      ExitScanAfterEndOutcome(s, p, i + 1);
    }
  }

  /** On the last level the exit loop gives the runner two points at most: one for the win, one before the source raises. */
  lemma {:induction false} ExitScanLastLevel(s: GameState, p: Pos, i: nat)
    requires s.levels == []
    ensures ExitScan(s, p, i).runnerScore <= s.runnerScore + 2
    decreases |s.exits| - i
  {
    if s.phase == Playing && i < |s.exits| {
      if Near(p, s.exits[i]) {
        ExitScanAfterEndOutcome(OnWin(s, Runner), p, i + 1);
      } else {
        ExitScanLastLevel(s, p, i + 1);
      }
    }
  }

  /** An exit met at index `j` records a runner win, and the loop goes on from `j + 1` in the new state. */
  lemma ExitScanHit(s: GameState, p: Pos, j: nat)
    requires s.phase == Playing && j < |s.exits| && Near(p, s.exits[j])
    ensures var w := OnWin(s, Runner);
      ExitScan(s, p, j) == if w.phase == Ended then ExitScanAfterEnd(w, p, j + 1) else ExitScan(w, p, j + 1)
  {
  }

  /** An exit loop that meets no exit near `p` changes nothing. */
  lemma {:induction false} ExitScanQuiet(s: GameState, p: Pos, i: nat)
    requires forall j :: i <= j < |s.exits| ==> !Near(p, s.exits[j])
    ensures ExitScan(s, p, i) == s
    decreases |s.exits| - i
  {
    if s.phase == Playing && i < |s.exits| {
      ExitScanQuiet(s, p, i + 1);
    }
  }

  /** An exit loop that meets an exit near `p` while the level is in play records at least one runner win. */
  lemma {:induction false} ExitScanWins(s: GameState, p: Pos, i: nat, j: nat)
    requires WellPlaced(s) && s.phase == Playing
    requires i <= j < |s.exits| && Near(p, s.exits[j])
    ensures ExitScan(s, p, i).runnerScore >= s.runnerScore + 1
    decreases j - i
  {
    if Near(p, s.exits[i]) {
      var w := OnWin(s, Runner);
      NextLevelWellPlaced(s.(runnerScore := s.runnerScore + 1));
      if w.phase == Ended {
        ExitScanAfterEndOutcome(w, p, i + 1);
      } else {
        ExitScanOutcome(w, p, i + 1);
      }
    } else {
      assert ExitScan(s, p, i) == ExitScan(s, p, i + 1);
      ExitScanWins(s, p, i + 1, j);
    }
  }

  /** An exit loop that meets no exit near `p` between `i` and `j` reaches index `j` unchanged. */
  lemma {:induction false} ExitScanSkip(s: GameState, p: Pos, i: nat, j: nat)
    requires i <= j <= |s.exits|
    requires forall k :: i <= k < j ==> !Near(p, s.exits[k])
    ensures ExitScan(s, p, i) == ExitScan(s, p, j)
    decreases j - i
  {
    if i < j && s.phase == Playing {
      ExitScanSkip(s, p, i + 1, j);
    }
  }

  /** On the grid, the wall loop's contact test finds exactly the walls on the target cell. */
  lemma BlockedIffWall(walls: seq<Pos>, t: Pos)
    requires AllOnGrid(walls) && OnGrid(t)
    ensures Blocked(walls, t) <==> t in walls
  {
    if Blocked(walls, t) {
      var k :| 0 <= k < |walls| && Touches(walls[k], t);
      SameCell(walls[k], t);
    }
    if t in walls {
      var k :| 0 <= k < |walls| && walls[k] == t;
      SameCell(walls[k], t);
    }
  }

  /** On the grid, the trail loop's distance test finds exactly the trail entries on the target cell. */
  lemma InTrailIffVisited(steps: seq<Pos>, t: Pos)
    requires AllOnGrid(steps) && OnGrid(t)
    ensures InTrail(steps, t) <==> t in steps
  {
    if InTrail(steps, t) {
      var k :| 0 <= k < |steps| && Near(t, steps[k]);
      SameCell(t, steps[k]);
    }
    if t in steps {
      var k :| 0 <= k < |steps| && steps[k] == t;
      SameCell(t, steps[k]);
    }
  }

  /** A press by an actor without the turn, or one whose target cell is a wall, changes nothing, timers included. */
  lemma RejectedMove(s: GameState, who: Actor, dir: Direction)
    requires Inv(s) && Ready(s)
    requires !MoverOf(s, who).value.turn || Step(MoverOf(s, who).value.pos, dir) in s.walls
    ensures Move(s, who, dir) == s
  {
    var from := MoverOf(s, who).value.pos;
    StepLeavesCell(from, dir);
    BlockedIffWall(s.walls, Step(from, dir));
  }

  /**
   * A chaser step that meets no wall, does not land on the runner and
   * does not revisit the chaser's trail moves the chaser one tile, appends
   * its old cell to its trail, resets its timer, drops its turn and gives
   * the turn to the runner; nothing else changes.
   */
  lemma ChaserQuietMove(s: GameState, dir: Direction)
    requires Inv(s) && Ready(s) && s.chaser.value.turn
    requires Step(s.chaser.value.pos, dir) !in s.walls
    requires Step(s.chaser.value.pos, dir) != s.runner.value.pos
    requires Step(s.chaser.value.pos, dir) !in s.minotaurSteps
    ensures Move(s, Chaser, dir) == s.(
      chaser := Some(Mover(Step(s.chaser.value.pos, dir), false, TURN_TIME)),
      minotaurSteps := s.minotaurSteps + [s.chaser.value.pos],
      runner := Some(s.runner.value.(turn := true)))
  {
    var from := s.chaser.value.pos;
    var t := Step(from, dir);
    StepLeavesCell(from, dir);
    BlockedIffWall(s.walls, t);
    SameCell(t, s.runner.value.pos);
    InTrailIffVisited(s.minotaurSteps + [from], t);
  }

  /** A chaser step onto the runner's cell gives the chaser one point and ends the level; the runner then holds the turn alone. */
  lemma ChaserCaptures(s: GameState, dir: Direction)
    requires Inv(s) && Ready(s) && s.chaser.value.turn
    requires Step(s.chaser.value.pos, dir) !in s.walls
    requires Step(s.chaser.value.pos, dir) == s.runner.value.pos
    ensures var r := Move(s, Chaser, dir);
      && r.chaserScore == s.chaserScore + 1 && r.runnerScore == s.runnerScore
      && LevelOver(s, r)
      && (r.phase == Playing ==> Ready(r) && r.runner.value.turn && !r.chaser.value.turn)
  {
    var from := s.chaser.value.pos;
    var t := Step(from, dir);
    StepLeavesCell(from, dir);
    BlockedIffWall(s.walls, t);
    SameCell(t, s.runner.value.pos);
  }

  /**
   * A chaser step that misses the runner but revisits the chaser's own
   * trail gives the runner one point and ends the level; the runner then
   * holds the turn alone.
   */
  lemma ChaserRevisitsTrail(s: GameState, dir: Direction)
    requires Inv(s) && Ready(s) && s.chaser.value.turn
    requires Step(s.chaser.value.pos, dir) !in s.walls
    requires Step(s.chaser.value.pos, dir) != s.runner.value.pos
    requires Step(s.chaser.value.pos, dir) in s.minotaurSteps
    ensures var r := Move(s, Chaser, dir);
      && r.runnerScore == s.runnerScore + 1 && r.chaserScore == s.chaserScore
      && LevelOver(s, r)
      && (r.phase == Playing ==> Ready(r) && r.runner.value.turn && !r.chaser.value.turn)
  {
    var from := s.chaser.value.pos;
    var t := Step(from, dir);
    StepLeavesCell(from, dir);
    BlockedIffWall(s.walls, t);
    SameCell(t, s.runner.value.pos);
    InTrailIffVisited(s.minotaurSteps + [from], t);
  }

  /**
   * A runner step that meets no wall, no exit and no cell of the runner's
   * trail moves the runner one tile, appends its old cell to its trail
   * twice, resets its timer, drops its turn and gives the turn to the
   * chaser; nothing else changes. The chaser's cell is not looked at: the
   * runner may step onto the chaser without consequence.
   */
  lemma RunnerQuietMove(s: GameState, dir: Direction)
    requires Inv(s) && Ready(s) && s.runner.value.turn
    requires Step(s.runner.value.pos, dir) !in s.walls
    requires Step(s.runner.value.pos, dir) !in s.exits
    requires Step(s.runner.value.pos, dir) !in s.humanSteps
    ensures Move(s, Runner, dir) == s.(
      runner := Some(Mover(Step(s.runner.value.pos, dir), false, TURN_TIME)),
      humanSteps := s.humanSteps + [s.runner.value.pos, s.runner.value.pos],
      chaser := Some(s.chaser.value.(turn := true)))
  {
    var from := s.runner.value.pos;
    var t := Step(from, dir);
    StepLeavesCell(from, dir);
    BlockedIffWall(s.walls, t);
    forall j | 0 <= j < |s.exits| ensures !Near(t, s.exits[j]) {
      SameCell(t, s.exits[j]);
    }
    var moved := s.(runner := Some(Fresh(t)), humanSteps := s.humanSteps + [from, from]);
    ExitScanQuiet(moved, t, 0);
    InTrailIffVisited(s.humanSteps + [from, from], t);
  }

  /** The state a runner step to `t` has produced just before the exit loop. */
  function RunnerStepped(s: GameState, t: Pos): (m: GameState)
    requires Ready(s)
    ensures m.exits == s.exits && m.levels == s.levels && m.phase == Playing
  {
    s.(runner := Some(Fresh(t)), humanSteps := s.humanSteps + [s.runner.value.pos, s.runner.value.pos])
  }

  lemma RunnerSteppedWellPlaced(s: GameState, dir: Direction)
    requires Inv(s) && Ready(s)
    ensures WellPlaced(RunnerStepped(s, Step(s.runner.value.pos, dir)))
  {
    StepLeavesCell(s.runner.value.pos, dir);
  }

  /**
   * A runner step onto a cell of the exit list, which keeps the exits of
   * every earlier level, gives the runner at least one point and ends the
   * level, without touching the chaser's score. When another level starts,
   * both actors hold the turn: the runner from `start`, the chaser from the
   * hand-over that closes the move.
   */
  lemma RunnerReachesExit(s: GameState, dir: Direction)
    requires Inv(s) && Ready(s) && s.runner.value.turn
    requires Step(s.runner.value.pos, dir) !in s.walls
    requires Step(s.runner.value.pos, dir) in s.exits
    ensures var r := Move(s, Runner, dir);
      && r.runnerScore >= s.runnerScore + 1 && r.chaserScore == s.chaserScore
      && LevelOver(s, r)
      && (r.phase == Playing ==> Ready(r) && r.runner.value.turn && r.chaser.value.turn)
  {
    var from := s.runner.value.pos;
    var t := Step(from, dir);
    StepLeavesCell(from, dir);
    BlockedIffWall(s.walls, t);
    var j :| 0 <= j < |s.exits| && s.exits[j] == t;
    SameCell(t, s.exits[j]);
    var moved := RunnerStepped(s, t);
    RunnerSteppedWellPlaced(s, dir);
    ExitScanWins(moved, t, 0, j);
    ExitScanOutcome(moved, t, 0);
  }

  /** The exits the next level appends avoid every cell its file does not mark with an exit code. */
  lemma NextLevelNewExits(s: GameState, t: Pos)
    requires s.levels != []
    requires forall r, c :: HasCode(GridCodes(s.levels[0]), r, c, EXIT) ==> CellPos(r, c) != t
    ensures forall k :: |s.exits| <= k < |NextLevel(s).exits| ==> NextLevel(s).exits[k] != t
  {
    var acc := Placement([], s.exits, None, None);
    ScanGridAvoids(GridCodes(s.levels[0]), 0, acc, EXIT, t);
    assert Listed(acc, EXIT) == s.exits;
    assert Listed(LevelScan(s).placed, EXIT) == LevelScan(s).placed.exits;
    NextLevelExitsOf(s);
  }

  /** On the grid, positions other than `p` are not near `p`. */
  lemma FarFrom(ps: seq<Pos>, p: Pos, lo: nat, hi: nat)
    requires AllOnGrid(ps) && OnGrid(p) && lo <= hi <= |ps|
    requires forall i :: lo <= i < hi ==> ps[i] != p
    ensures forall i :: lo <= i < hi ==> !Near(p, ps[i])
  {
    forall i | lo <= i < hi ensures !Near(p, ps[i]) {
      SameCell(p, ps[i]);
    }
  }

  /** The runner's score after an accepted runner step is the one its exit loop leaves. */
  lemma RunnerMoveScore(s: GameState, dir: Direction)
    requires Inv(s) && Ready(s) && s.runner.value.turn
    requires Step(s.runner.value.pos, dir) !in s.walls
    ensures Move(s, Runner, dir).runnerScore
      == ExitScan(RunnerStepped(s, Step(s.runner.value.pos, dir)), Step(s.runner.value.pos, dir), 0).runnerScore
  {
    StepLeavesCell(s.runner.value.pos, dir);
    BlockedIffWall(s.walls, Step(s.runner.value.pos, dir));
  }

  /** `next_level` reads the same level with the same outcome whatever the scores, actors and trails were. */
  lemma NextLevelSameOutcome(a: GameState, b: GameState)
    requires a.exits == b.exits && a.levels == b.levels && a.phase == b.phase
    ensures NextLevel(a).phase == NextLevel(b).phase && NextLevel(a).exits == NextLevel(b).exits
  {
  }

  /** The exit loop from an exit listed once, with no further exit on that cell after the win, records one win. */
  lemma ExitScanSingle(m: GameState, p: Pos, j: nat)
    requires WellPlaced(m) && m.phase == Playing && OnGrid(p)
    requires j < |m.exits| && m.exits[j] == p
    requires forall k :: 0 <= k < |m.exits| && k != j ==> m.exits[k] != p
    requires m.levels != [] ==>
      forall r, c :: HasCode(GridCodes(m.levels[0]), r, c, EXIT) ==> CellPos(r, c) != p
    ensures ExitScan(m, p, 0).runnerScore == m.runnerScore + 1
  {
    FarFrom(m.exits, p, 0, j);
    ExitScanSkip(m, p, 0, j);
    SameCell(p, p);
    ExitScanHit(m, p, j);
    var w := OnWin(m, Runner);
    OnWinAfterExit(m, p, j);
    if w.phase == Ended {
      ExitScanAfterEndOutcome(w, p, j + 1);
    } else {
      ExitScanQuiet(w, p, j + 1);
    }
  }

  /** After a runner win on the exit at `j`, no exit from `j + 1` on is near `p` when `p` was listed once and the next level adds no exit there. */
  lemma OnWinAfterExit(m: GameState, p: Pos, j: nat)
    requires WellPlaced(m) && m.phase == Playing && OnGrid(p)
    requires j < |m.exits| && m.exits[j] == p
    requires forall k :: 0 <= k < |m.exits| && k != j ==> m.exits[k] != p
    requires m.levels != [] ==>
      forall r, c :: HasCode(GridCodes(m.levels[0]), r, c, EXIT) ==> CellPos(r, c) != p
    ensures var w := OnWin(m, Runner);
      forall k :: j + 1 <= k < |w.exits| ==> !Near(p, w.exits[k])
  {
    var won := m.(runnerScore := m.runnerScore + 1);
    NextLevelWellPlaced(won);
    var w := NextLevel(won);
    if m.levels != [] {
      NextLevelNewExits(won, p);
    }
    AppendedAvoids(m.exits, w.exits, p, j + 1);
    FarFrom(w.exits, p, j + 1, |w.exits|);
  }

  /** A cell absent from a list's tail from `lo` and from everything appended after it is absent from the longer list's tail. */
  lemma AppendedAvoids(xs: seq<Pos>, ys: seq<Pos>, p: Pos, lo: nat)
    requires xs <= ys
    requires forall k :: lo <= k < |xs| ==> xs[k] != p
    requires forall k :: |xs| <= k < |ys| ==> ys[k] != p
    ensures forall k :: lo <= k < |ys| ==> ys[k] != p
  {
    forall k | lo <= k < |ys| ensures ys[k] != p {
      if k < |xs| {
        assert ys[k] == xs[k];
      }
    }
  }

  /**
   * The runner scores exactly one point for reaching an exit when that
   * cell is listed once among the exits and the next level puts no exit on
   * it; otherwise the exit loop, which goes on after the win, can score
   * again (see `RunnerExitCascade`).
   */
  lemma RunnerExitScoresOnce(s: GameState, dir: Direction)
    requires Inv(s) && Ready(s) && s.runner.value.turn
    requires Step(s.runner.value.pos, dir) !in s.walls
    requires Step(s.runner.value.pos, dir) in s.exits
    requires forall j, k :: 0 <= j < k < |s.exits| ==> s.exits[j] != s.exits[k] || s.exits[j] != Step(s.runner.value.pos, dir)
    requires s.levels != [] ==>
      forall r, c :: HasCode(GridCodes(s.levels[0]), r, c, EXIT) ==> CellPos(r, c) != Step(s.runner.value.pos, dir)
    ensures Move(s, Runner, dir).runnerScore == s.runnerScore + 1
    ensures Move(s, Runner, dir).chaserScore == s.chaserScore
  {
    var t := Step(s.runner.value.pos, dir);
    StepLeavesCell(s.runner.value.pos, dir);
    var j :| 0 <= j < |s.exits| && s.exits[j] == t;
    assert forall k :: 0 <= k < |s.exits| && k != j ==> s.exits[k] != t;
    RunnerSteppedWellPlaced(s, dir);
    ExitScanSingle(RunnerStepped(s, t), t, j);
    RunnerMoveScore(s, dir);
    RunnerReachesExit(s, dir);
  }

  /**
   * The exit loop meeting the same exit cell at `j` and at `k`, on the last
   * level or with a next level that starts, records two wins or more.
   */
  lemma ExitScanTwice(m: GameState, p: Pos, j: nat, k: nat)
    requires WellPlaced(m) && m.phase == Playing && OnGrid(p)
    requires j < k < |m.exits| && m.exits[j] == m.exits[k] == p
    requires forall i :: 0 <= i < j ==> m.exits[i] != p
    requires m.levels == [] || NextLevel(m).phase == Playing
    ensures ExitScan(m, p, 0).runnerScore >= m.runnerScore + 2
  {
    FarFrom(m.exits, p, 0, j);
    ExitScanSkip(m, p, 0, j);
    SameCell(p, p);
    ExitScanHit(m, p, j);
    var w := OnWin(m, Runner);
    if m.levels == [] {
      assert w.exits == m.exits && w.phase == Ended;
      ExitScanAfterEndOutcome(w, p, j + 1);
    } else {
      OnWinKeepsPlaying(m);
      ExitScanWins(w, p, j + 1, k);
    }
  }

  /** A runner win whose next level starts leaves a well-placed level in play that keeps the old exits. */
  lemma OnWinKeepsPlaying(m: GameState)
    requires WellPlaced(m) && m.phase == Playing
    requires NextLevel(m).phase == Playing
    ensures var w := OnWin(m, Runner);
      WellPlaced(w) && w.phase == Playing && m.exits <= w.exits && w.runnerScore == m.runnerScore + 1
  {
    var won := m.(runnerScore := m.runnerScore + 1);
    NextLevelSameOutcome(won, m);
    NextLevelWellPlaced(won);
  }

  /**
   * The exit loop goes on after a win: when the runner's cell is listed
   * twice among the exits (two levels with an exit on the same cell), one
   * step scores at least two points, on the last level as well as when
   * the next level starts.
   */
  lemma RunnerExitCascade(s: GameState, dir: Direction, j: nat, k: nat)
    requires Inv(s) && Ready(s) && s.runner.value.turn
    requires Step(s.runner.value.pos, dir) !in s.walls
    requires j < k < |s.exits| && s.exits[j] == s.exits[k] == Step(s.runner.value.pos, dir)
    requires forall i :: 0 <= i < j ==> s.exits[i] != Step(s.runner.value.pos, dir)
    requires s.levels == [] || NextLevel(s).phase == Playing
    ensures Move(s, Runner, dir).runnerScore >= s.runnerScore + 2
  {
    var t := Step(s.runner.value.pos, dir);
    StepLeavesCell(s.runner.value.pos, dir);
    var m := RunnerStepped(s, t);
    RunnerSteppedWellPlaced(s, dir);
    NextLevelSameOutcome(m, s);
    ExitScanTwice(m, t, j, k);
    RunnerMoveScore(s, dir);
  }
  /** On the last level one runner step scores two points at most, and exactly two with a duplicated exit (`RunnerExitCascade`). */
  lemma LastLevelRunnerScore(s: GameState, dir: Direction)
    requires Inv(s) && Ready(s) && s.runner.value.turn && s.levels == []
    ensures Move(s, Runner, dir).runnerScore <= s.runnerScore + 2
  {
    var t := Step(s.runner.value.pos, dir);
    StepLeavesCell(s.runner.value.pos, dir);
    BlockedIffWall(s.walls, t);
    if t !in s.walls {
      RunnerMoveScore(s, dir);
      ExitScanLastLevel(RunnerStepped(s, t), t, 0);
    }
  }


  /**
   * A runner step that meets no wall and no exit but revisits the runner's
   * own trail gives the chaser one point and ends the level. When another
   * level starts, both actors hold the turn.
   */
  lemma RunnerRevisitsTrail(s: GameState, dir: Direction)
    requires Inv(s) && Ready(s) && s.runner.value.turn
    requires Step(s.runner.value.pos, dir) !in s.walls
    requires Step(s.runner.value.pos, dir) !in s.exits
    requires Step(s.runner.value.pos, dir) in s.humanSteps
    ensures var r := Move(s, Runner, dir);
      && r.chaserScore == s.chaserScore + 1 && r.runnerScore == s.runnerScore
      && LevelOver(s, r)
      && (r.phase == Playing ==> Ready(r) && r.runner.value.turn && r.chaser.value.turn)
  {
    var from := s.runner.value.pos;
    var t := Step(from, dir);
    StepLeavesCell(from, dir);
    BlockedIffWall(s.walls, t);
    FarFrom(s.exits, t, 0, |s.exits|);
    var moved := RunnerStepped(s, t);
    ExitScanQuiet(moved, t, 0);
    InTrailIffVisited(s.humanSteps + [from, from], t);
  }

  /** The seconds left to the actor whose timer runs: the runner's whenever it holds the turn. */
  function Clock(s: GameState): (c: int)
    requires Ready(s)
    ensures c == s.runner.value.timer || c == s.chaser.value.timer
  {
    if s.runner.value.turn then s.runner.value.timer else s.chaser.value.timer
  }

  /**
   * A second with more than one second left takes one second off the
   * timer of the turn holder (the runner's when both hold the turn) and
   * changes nothing else.
   */
  lemma TickCountsDown(s: GameState)
    requires Inv(s) && Ready(s) && Clock(s) > 1
    ensures s.runner.value.turn ==>
      Tick(s) == s.(runner := Some(s.runner.value.(timer := s.runner.value.timer - 1)))
    ensures !s.runner.value.turn ==>
      Tick(s) == s.(chaser := Some(s.chaser.value.(timer := s.chaser.value.timer - 1)))
  {
  }

  /**
   * The last second of a turn gives the opponent of the turn holder one
   * point and ends the level; the runner then holds the turn alone.
   */
  lemma TickTimeout(s: GameState)
    requires Inv(s) && Ready(s) && Clock(s) <= 1
    ensures var r := Tick(s);
      && r.runnerScore == s.runnerScore + (if s.runner.value.turn then 0 else 1)
      && r.chaserScore == s.chaserScore + (if s.runner.value.turn then 1 else 0)
      && LevelOver(s, r)
      && (r.phase == Playing ==> Ready(r) && r.runner.value.turn && !r.chaser.value.turn)
  {
  }

  /** `next_level` with an empty queue ends the game with an empty board; the exits stay listed. */
  lemma LastLevelEndsGame(s: GameState)
    requires s.levels == []
    ensures var r := NextLevel(s);
      r.phase == Ended && r.walls == [] && r.humanSteps == [] && r.minotaurSteps == []
      && r.runner.None? && r.chaser.None? && r.exits == s.exits
  {
  }

  /** A level file is playable when every token is an integer and it places a runner and a chaser. */
  ghost predicate Playable(grid: Grid) {
    var cg := GridCodes(grid);
    && (forall row, col :: IsCell(cg, row, col) ==> cg[row][col].Some?)
    && (exists row, col :: HasCode(cg, row, col, RUNNER))
    && (exists row, col :: HasCode(cg, row, col, CHASER))
  }

  /** A scan that starts with no actors reads the whole file and places both actors exactly when the file is playable. */
  lemma ScanPlacesBoth(grid: Grid, acc: Placement)
    requires acc.runner.None? && acc.chaser.None?
    ensures var sc := ScanGrid(GridCodes(grid), 0, acc);
      sc.ok && sc.placed.runner.Some? && sc.placed.chaser.Some? <==> Playable(grid)
  {
    var cg := GridCodes(grid);
    ScanGridOk(cg, 0, acc);
    if ScanGrid(cg, 0, acc).ok {
      if exists row, col :: HasCode(cg, row, col, RUNNER) {
        var row, col := LastCode(cg, RUNNER);
        ScanGridSlotLast(cg, 0, acc, RUNNER, row, col);
      } else {
        ScanGridSlotUnset(cg, 0, acc, RUNNER);
      }
      if exists row, col :: HasCode(cg, row, col, CHASER) {
        var row, col := LastCode(cg, CHASER);
        ScanGridSlotLast(cg, 0, acc, CHASER, row, col);
      } else {
        ScanGridSlotUnset(cg, 0, acc, CHASER);
      }
    }
  }

  /**
   * `next_level` takes the first queued level (first in, first out), and
   * the game goes on exactly when that level is playable.
   */
  lemma NextLevelStarts(s: GameState)
    requires s.levels != [] && s.phase == Playing
    ensures NextLevel(s).levels == s.levels[1..]
    ensures NextLevel(s).phase == Playing <==> Playable(s.levels[0])
  {
    NextLevelScan(s);
    ScanPlacesBoth(s.levels[0], Placement([], s.exits, None, None));
  }

  /** The walls (code 1) or exits (code 2) the scan of the first queued level lists. */
  lemma LevelScanLists(s: GameState, code: int)
    requires code == WALL || code == EXIT
    requires s.levels != [] && LevelScan(s).ok
    ensures forall p :: p in Listed(LevelScan(s).placed, code) <==>
      (code == EXIT && p in s.exits) || exists row, col :: HasCode(GridCodes(s.levels[0]), row, col, code) && p == CellPos(row, col)
  {
    ScanGridListed(GridCodes(s.levels[0]), 0, Placement([], s.exits, None, None), code);
  }

  /**
   * In a level that goes on, walls stand on exactly the cells coded 1,
   * and the exit list holds the earlier exits and the cells coded 2.
   */
  lemma NextLevelLists(s: GameState, code: int)
    requires code == WALL || code == EXIT
    requires s.levels != [] && s.phase == Playing && NextLevel(s).phase == Playing
    ensures forall p :: p in (if code == WALL then NextLevel(s).walls else NextLevel(s).exits) <==>
      (code == EXIT && p in s.exits) || exists row, col :: HasCode(GridCodes(s.levels[0]), row, col, code) && p == CellPos(row, col)
  {
    NextLevelScan(s);
    LevelScanLists(s, code);
    assert (if code == WALL then NextLevel(s).walls else NextLevel(s).exits) == Listed(LevelScan(s).placed, code);
  }

  /** In a level that goes on, each actor stands on the last cell, in reading order, carrying its code. */
  lemma NextLevelActors(s: GameState, row: nat, col: nat, who: Actor)
    requires s.levels != [] && s.phase == Playing && NextLevel(s).phase == Playing
    requires var cg, code := GridCodes(s.levels[0]), if who == Runner then RUNNER else CHASER;
      && HasCode(cg, row, col, code)
      && forall r', c' :: Later(r', c', row, col) ==> !HasCode(cg, r', c', code)
    ensures MoverOf(NextLevel(s), who).value.pos == CellPos(row, col)
  {
    var cg := GridCodes(s.levels[0]);
    var acc := Placement([], s.exits, None, None);
    NextLevelScan(s);
    ScanGridSlotLast(cg, 0, acc, if who == Runner then RUNNER else CHASER, row, col);
  }

  /** A game that starts from a queue of level files plays the first one exactly when it is playable, from the invariant on, with no points. */
  lemma GameStarts(levels: seq<Grid>)
    ensures var r := Start(Init(levels));
      && Inv(r) && r.runnerScore == 0 && r.chaserScore == 0
      && (levels == [] ==> r.phase == Crashed(NoLevels))
      && (levels != [] ==> r.levels == levels[1..] && (r.phase == Playing <==> Playable(levels[0])))
  {
    if levels != [] {
      var acc := Placement([], [], None, None);
      assert PlacementOnGrid(acc);
      ScanPlacesBoth(levels[0], acc);
      ScanGridOnGrid(GridCodes(levels[0]), 0, acc);
    }
  }

  /** The closing hand-over of a move restores the invariant of a well-placed state. */
  lemma GiveTurnInv(s: GameState, who: Actor)
    requires WellPlaced(s)
    ensures Inv(GiveTurn(s, who))
  {
  }

  lemma ChaserMovedInv(s: GameState, t: Pos)
    requires Inv(s) && Ready(s) && OnGrid(t)
    ensures Inv(ChaserMoved(s, s.chaser.value.pos, t))
  {
    var from := s.chaser.value.pos;
    var moved := s.(chaser := Some(Fresh(t)), minotaurSteps := s.minotaurSteps + [from]);
    assert WellPlaced(moved);
    var captured := if Near(t, moved.runner.value.pos) then OnWin(moved, Chaser) else moved;
    if Near(t, moved.runner.value.pos) {
      NextLevelWellPlaced(moved.(chaserScore := moved.chaserScore + 1));
    }
    var looped := if captured.phase == Playing && InTrail(captured.minotaurSteps, t) then OnWin(captured, Runner) else captured;
    if captured.phase == Playing && InTrail(captured.minotaurSteps, t) {
      NextLevelWellPlaced(captured.(runnerScore := captured.runnerScore + 1));
    }
    GiveTurnInv(looped, Runner);
  }

  lemma RunnerMovedInv(s: GameState, dir: Direction)
    requires Inv(s) && Ready(s)
    ensures Inv(RunnerMoved(s, s.runner.value.pos, Step(s.runner.value.pos, dir)))
  {
    var t := Step(s.runner.value.pos, dir);
    var moved := RunnerStepped(s, t);
    RunnerSteppedWellPlaced(s, dir);
    ExitScanOutcome(moved, t, 0);
    var escaped := ExitScan(moved, t, 0);
    var looped := if escaped.phase == Playing && InTrail(escaped.humanSteps, t) then OnWin(escaped, Chaser) else escaped;
    if escaped.phase == Playing && InTrail(escaped.humanSteps, t) {
      NextLevelWellPlaced(escaped.(chaserScore := escaped.chaserScore + 1));
    }
    GiveTurnInv(looped, Chaser);
  }

  /** Every key press keeps the invariant. */
  lemma MovePreservesInv(s: GameState, who: Actor, dir: Direction)
    requires Inv(s)
    ensures Inv(Move(s, who, dir))
  {
    if Ready(s) && MoverOf(s, who).value.turn {
      var from := MoverOf(s, who).value.pos;
      StepLeavesCell(from, dir);
      if who == Chaser {
        ChaserMovedInv(s, Step(from, dir));
      } else {
        RunnerMovedInv(s, dir);
      }
    }
  }

  /** Every second keeps the invariant. */
  lemma TickPreservesInv(s: GameState)
    requires Inv(s)
    ensures Inv(Tick(s))
  {
    if Ready(s) && s.runner.value.turn {
      var late := s.(runner := Some(s.runner.value.(timer := s.runner.value.timer - 1)));
      if late.runner.value.timer <= 0 {
        OnWinKeepsInv(late, Chaser);
      }
    } else if Ready(s) && s.chaser.value.turn {
      var late := s.(chaser := Some(s.chaser.value.(timer := s.chaser.value.timer - 1)));
      if late.chaser.value.timer <= 0 {
        OnWinKeepsInv(late, Runner);
      }
    }
  }

  /** A win from any state whose exits are on the grid leaves the invariant holding. */
  lemma OnWinKeepsInv(s: GameState, who: Actor)
    requires AllOnGrid(s.exits)
    ensures Inv(OnWin(s, who))
  {
    NextLevelWellPlaced(Scored(s, who));
  }

  lemma ChaserMovedMonotone(s: GameState, t: Pos)
    requires Ready(s)
    ensures var r := ChaserMoved(s, s.chaser.value.pos, t);
      r.runnerScore >= s.runnerScore && r.chaserScore >= s.chaserScore && s.exits <= r.exits
  {
    var moved := s.(chaser := Some(Fresh(t)), minotaurSteps := s.minotaurSteps + [s.chaser.value.pos]);
    var captured := if Near(t, moved.runner.value.pos) then OnWin(moved, Chaser) else moved;
    assert captured.runnerScore == s.runnerScore && captured.chaserScore >= s.chaserScore && s.exits <= captured.exits;
    var looped := if captured.phase == Playing && InTrail(captured.minotaurSteps, t) then OnWin(captured, Runner) else captured;
    assert looped.runnerScore >= s.runnerScore && looped.chaserScore >= s.chaserScore && s.exits <= looped.exits;
  }

  lemma RunnerMovedMonotone(s: GameState, dir: Direction)
    requires Inv(s) && Ready(s)
    ensures var r := RunnerMoved(s, s.runner.value.pos, Step(s.runner.value.pos, dir));
      r.runnerScore >= s.runnerScore && r.chaserScore >= s.chaserScore && s.exits <= r.exits
  {
    var t := Step(s.runner.value.pos, dir);
    var moved := RunnerStepped(s, t);
    RunnerSteppedWellPlaced(s, dir);
    ExitScanOutcome(moved, t, 0);
    var escaped := ExitScan(moved, t, 0);
    var looped := if escaped.phase == Playing && InTrail(escaped.humanSteps, t) then OnWin(escaped, Chaser) else escaped;
    assert looped.runnerScore >= s.runnerScore && looped.chaserScore >= s.chaserScore && s.exits <= looped.exits;
  }

  /** A key press never lowers either score and never shortens the exit list. */
  lemma MoveMonotone(s: GameState, who: Actor, dir: Direction)
    requires Inv(s)
    ensures var r := Move(s, who, dir);
      r.runnerScore >= s.runnerScore && r.chaserScore >= s.chaserScore && s.exits <= r.exits
  {
    if Ready(s) && MoverOf(s, who).value.turn {
      if who == Runner {
        RunnerMovedMonotone(s, dir);
      } else {
        ChaserMovedMonotone(s, Step(s.chaser.value.pos, dir));
      }
    }
  }

  /**
   * One event of the main loop keeps the invariant, never lowers either
   * score and never shortens the exit list.
   */
  lemma ApplyKeeps(s: GameState, e: Event)
    requires Inv(s)
    ensures var r := Apply(s, e);
      Inv(r) && r.runnerScore >= s.runnerScore && r.chaserScore >= s.chaserScore && s.exits <= r.exits
  {
    match e
    case Second => TickPreservesInv(s);
    case Press(who, dir) =>
      MovePreservesInv(s, who, dir);
      MoveMonotone(s, who, dir);
  }

  /** The main loop keeps the invariant; scores never decrease and exits are never cleared. */
  lemma {:induction false} RunKeeps(s: GameState, events: seq<Event>)
    requires Inv(s)
    ensures var r := Run(s, events);
      Inv(r) && r.runnerScore >= s.runnerScore && r.chaserScore >= s.chaserScore && s.exits <= r.exits
    decreases |events|
  {
    if events != [] {
      ApplyKeeps(s, events[0]);
      RunKeeps(Apply(s, events[0]), events[1..]);
    }
  }

  /** Once the game has ended or crashed, no event changes anything. */
  lemma {:induction false} StoppedGameIgnoresEvents(s: GameState, events: seq<Event>)
    requires s.phase != Playing
    ensures Run(s, events) == s
    decreases |events|
  {
    if events != [] {
      StoppedGameIgnoresEvents(Apply(s, events[0]), events[1..]);
    }
  }

  /** A whole game: from its start, any sequence of events keeps the invariant; no levels means a crash that stays. */
  lemma WholeGame(levels: seq<Grid>, events: seq<Event>)
    ensures var r := Run(Start(Init(levels)), events);
      && Inv(r) && (levels == [] ==> r.phase == Crashed(NoLevels))
  {
    GameStarts(levels);
    RunKeeps(Start(Init(levels)), events);
    if levels == [] {
      StoppedGameIgnoresEvents(Start(Init(levels)), events);
    }
  }
}
