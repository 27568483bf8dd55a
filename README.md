# Runaway game and class-score scripts, modelled in Dafny

This project models three coursework scripts and proves properties of the models.

- **The Runaway grid-chase game** (`Exercise04/turtle_game.py`):
  - a Runner and a Chaser take turns to move one tile on a 600×600 world of 32-pixel tiles;
  - levels are read from comma-separated files of tile codes (1 wall, 2 exit, 3 runner, 4 chaser);
  - the Runner wins a level by reaching an exit, or when the Chaser steps on the Chaser's own trail or runs out of time;
  - the Chaser wins by landing on the Runner, or when the Runner steps on the Runner's own trail or runs out of time;
  - every win adds one point to the winner, clears the level and loads the next one, until the queue is empty.
- **The score analysis script** (`Exercise03/class_score_analysis.py`):
  - it reads comma-and-space separated score lines, skipping lines that start with `#` once stripped;
  - it appends a weighted total to every row, in place;
  - it computes a column's mean, population variance, median, minimum and maximum.
- **The score plot script** (`Exercise05/class_score_plot.py`):
  - it reads comma-separated integer lines, skipping lines whose very first character is `#`;
  - it derives the midterm, final and total columns of two classes before they are plotted.

Modules:

- `Common`: `Option` and `Result`.
- `Text`: Python's `str.strip`, `str.split`, `str.startswith`, `int()` and `float()` on ASCII text, with round-trip lemmas.
- `ListBuiltins`: `sum`, `min`, `max`, `sorted`, filtering, and counting the values on either side of a pivot.
- `LineReading`: the loop shared by both score readers. It keeps the data lines and converts each one, and one failed conversion fails the whole read.
- `TileGeometry`: cell centres, one-tile steps, and the two distance tests the game uses.
- `LevelLoader`: `read_map` as a scan over the codes of a level file.
- `GameRules`: every game operation as a function on a `GameState` value.
- `GameProperties`: lemmas about those functions:
  - the invariant every event keeps;
  - the outcome of each kind of move;
  - scores never decrease;
  - the exact contents of a loaded level.
- `TurtleGame`: the game class, `RunawayGame`. Its fields are updated in place, and its loops over walls, exits, trails and level lines are methods. Each method is proved to compute the `GameRules` function of the old state.
- `ScoreAnalysis`: reading, the weighted total over an `array` of rows, the statistics, and the median as written next to the corrected one.
- `ScorePlot`: reading, the column unpacking, `zip(*rows)` transposition, and totals.

Behaviour of the game's code that the model keeps:

- **Trail wins.** Stepping on your own trail makes the opponent win (lines 210-212 and 225-230).
- **Unknown codes.** Integer codes other than 1-4 are ignored, not rejected (lines 129-161).
- **Wall test.** The wall test is the squared distance below 32 (line 200). `TileGeometry.SameCell` proves that, between cell centres, this means the same cell.
- **Both turn flags after a win.** After any Runner move that wins a level, by an exit or by the runner's own trail, and loads the next level, both actors hold the turn. Line 231 runs on the new chaser after `start` gave the new runner the turn. `GameProperties.RunnerReachesExit` and `GameProperties.RunnerRevisitsTrail` state this.
- **Repeated exit wins.** A runner standing where the next level also has an exit scores again in the same exit loop. The loop keeps going over the exits appended by the reload. On the last level it also goes on after the final win: a second listed exit on the runner's cell (left from an earlier level, since `on_destroy` never clears the exits) adds one more point at line 237, and line 91 then raises on the missing runner. `GameProperties.RunnerExitCascade` states this, `GameProperties.LastLevelRunnerScore` bounds the last level at two points a move, and `GameProperties.RunnerExitScoresOnce` gives the conditions for exactly one point.
- **Runner trail.** Every runner move records its old cell twice: once at line 218 and once in the `HumanStep` constructor at line 281.

## Model

| member | source | states |
|---|---|---|
| TileGeometry.CellPos | Exercise04/turtle_game.py:131-132 | the centre of the tile in row `x_pos`, column `y_pos` is at x = 32·row + 16, y = 600 − 32·col − 16, a grid point |
| TileGeometry.CellPosInjective | Exercise04/turtle_game.py:131-132 | two cells with the same centre are the same cell |
| TileGeometry.StepToNeighbour | Exercise04/turtle_game.py:186-194 | a step from a cell centre lands on the neighbouring cell's centre: Up/Down change the column, Left/Right the row |
| TileGeometry.StepLeavesCell | Exercise04/turtle_game.py:186-195 | a step always changes the position and keeps a grid point on the grid |
| TileGeometry.LatticeContact | Exercise04/turtle_game.py:199-200 | for offsets that are multiples of 32, `dx²+dy² < 32` and `dx²+dy² < 32²` each hold exactly when both offsets are 0 |
| TileGeometry.SameCell | Exercise04/turtle_game.py:196-202 | between grid points the wall test and the `distance < TILE_SIZE` test both mean equality |
| LevelLoader.CodesAt | Exercise04/turtle_game.py:121-127 | the j-th code of a line is `int()` of its j-th comma-separated field after stripping |
| LevelLoader.ScanRow | Exercise04/turtle_game.py:123-161 | reading a line only appends to the walls and exits |
| LevelLoader.ScanGrid | Exercise04/turtle_game.py:120-161 | reading a file only appends to the walls and exits |
| LevelLoader.ScanRowOk | Exercise04/turtle_game.py:123-127 | a line is read without error iff every remaining field is an integer |
| LevelLoader.ScanGridOk | Exercise04/turtle_game.py:120-127 | a file is read without error iff every field of every line is an integer |
| LevelLoader.ScanRowListed | Exercise04/turtle_game.py:129-137 | after a line, a position is a wall (exit) iff it was one before or a cell of that line holds 1 (2) there |
| LevelLoader.ScanGridListed | Exercise04/turtle_game.py:120-137 | after a file, a position is a wall (exit) iff it was one before or some cell holds 1 (2) there |
| LevelLoader.ScanRowAvoids | Exercise04/turtle_game.py:129-137 | walls or exits appended while reading a line avoid a position no matching cell maps to |
| LevelLoader.ScanGridAvoids | Exercise04/turtle_game.py:120-137 | walls or exits appended while reading a file avoid a position no matching cell maps to |
| LevelLoader.ScanRowSlotUnset | Exercise04/turtle_game.py:138-161 | a line without a 3 (4) leaves the runner (chaser) as it was |
| LevelLoader.ScanRowSlotLast | Exercise04/turtle_game.py:138-161 | the last 3 (4) of a line decides the runner (chaser) position |
| LevelLoader.ScanGridSlotUnset | Exercise04/turtle_game.py:120-161 | a file without a 3 (4) leaves the runner (chaser) as it was |
| LevelLoader.ScanGridSlotLast | Exercise04/turtle_game.py:120-161 | the last 3 (4) in reading order decides the runner (chaser), since each one replaces the attribute |
| LevelLoader.ScanRowOnGrid | Exercise04/turtle_game.py:129-161 | everything a line places stands on a cell centre |
| LevelLoader.ScanGridOnGrid | Exercise04/turtle_game.py:120-161 | everything a file places stands on a cell centre |
| GameRules.Load | Exercise04/turtle_game.py:117-161 | `read_map` extends walls and exits on the grid, leaves trails, queue and scores alone, and places fresh actors with a full timer on cell centres |
| GameRules.Start | Exercise04/turtle_game.py:53-57 | a started level has both actors, the runner holds the turn, `level_finished` is false, scores are unchanged |
| GameRules.NextLevel | Exercise04/turtle_game.py:88-102 | clears trails, keeps scores, pops the next level and starts it with only the runner's turn and full timers, or ends the game with no actors |
| GameRules.Reload | Exercise04/turtle_game.py:96-98 | reading and starting the next queued level after `on_destroy` gives the same guarantees |
| GameRules.OnWin | Exercise04/turtle_game.py:235-240 | exactly the winner's score goes up by one |
| GameProperties.NextLevelScan | Exercise04/turtle_game.py:88-98 | the next level's walls, exits and actor positions are those of the scan of its file; play goes on iff the scan succeeds with both actors |
| GameProperties.NextLevelExitsOf | Exercise04/turtle_game.py:95-97 | the exits after a level change are exactly the scanned ones: the old exits are never cleared |
| GameProperties.NextLevelWellPlaced | Exercise04/turtle_game.py:88-102 | a level change leaves a well-placed state with the runner's turn, empty trails, and the end when the queue is empty |
| GameRules.ExitScan | Exercise04/turtle_game.py:219-224 | the runner's exit loop: each near exit wins, the loop goes on over the exits a reload appends, a failed reload stops it, and after the last level's win it goes on as `ExitScanAfterEnd`; `ExitScanOutcome`, `ExitScanQuiet`, `ExitScanWins`, `ExitScanTwice` and `ExitScanLastLevel` state what it does |
| GameRules.ExitScanAfterEnd | Exercise04/turtle_game.py:219-224 | the loop after the last level's win: the first near exit adds a runner point at line 237, then `next_level` raises at line 91; `ExitScanAfterEndOutcome` states it |
| GameProperties.ExitScanOutcome | Exercise04/turtle_game.py:219-224 | the exit loop never changes the chaser's score, and changes nothing unless the runner scores, in which case the level is over |
| GameProperties.ExitScanAfterEndOutcome | Exercise04/turtle_game.py:219-224 | after the last level's win the loop changes only the runner's score, adding one point iff a remaining listed exit is near the runner |
| GameProperties.ExitScanLastLevel | Exercise04/turtle_game.py:219-224 | on the last level the exit loop gives the runner two points at most |
| GameProperties.ExitScanQuiet | Exercise04/turtle_game.py:219-224 | with no exit near the runner the loop changes nothing |
| GameProperties.ExitScanWins | Exercise04/turtle_game.py:219-224 | an exit near the runner at or after the current index gives the runner at least one point |
| GameProperties.ExitScanSkip | Exercise04/turtle_game.py:219-224 | exits far from the runner can be skipped |
| GameProperties.BlockedIffWall | Exercise04/turtle_game.py:196-202 | on the grid, a move is blocked iff its target is a wall |
| GameProperties.InTrailIffVisited | Exercise04/turtle_game.py:210-212 | on the grid, the trail test holds iff the target is in the trail |
| GameRules.Move | Exercise04/turtle_game.py:182-233 | `check_collision`; `RejectedMove`, `ChaserQuietMove`, `RunnerQuietMove`, `RunnerReachesExit`, `MovePreservesInv` and `MoveMonotone` state its outcomes |
| GameRules.ChaserMoved | Exercise04/turtle_game.py:204-213 | the chaser branch; `ChaserQuietMove`, `ChaserCaptures`, `ChaserRevisitsTrail`, `ChaserMovedInv` and `ChaserMovedMonotone` state its outcomes |
| GameRules.RunnerMoved | Exercise04/turtle_game.py:215-231 | the runner branch; `RunnerQuietMove`, `RunnerReachesExit`, `RunnerRevisitsTrail`, `RunnerMovedInv` and `RunnerMovedMonotone` state its outcomes |
| GameProperties.RejectedMove | Exercise04/turtle_game.py:182-202 | a move by an actor without the turn, or into a wall, changes nothing |
| GameProperties.ChaserQuietMove | Exercise04/turtle_game.py:204-213 | a chaser move away from runner and trail moves it, resets its timer, records its old cell and gives the runner the turn |
| GameProperties.ChaserCaptures | Exercise04/turtle_game.py:204-209 | a chaser move onto the runner scores exactly one for the chaser and ends the level |
| GameProperties.ChaserRevisitsTrail | Exercise04/turtle_game.py:210-213 | a chaser move onto its own trail scores exactly one for the runner and ends the level |
| GameProperties.RunnerQuietMove | Exercise04/turtle_game.py:215-231 | a runner move away from exits and trail moves it, resets its timer, records its old cell twice and gives the chaser the turn |
| GameProperties.RunnerSteppedWellPlaced | Exercise04/turtle_game.py:215-218 | the moved runner and its extended trail stay well placed |
| GameProperties.RunnerReachesExit | Exercise04/turtle_game.py:219-231 | a runner move onto an exit scores at least one for the runner, ends the level, and leaves both actors of a new level with the turn |
| GameProperties.NextLevelNewExits | Exercise04/turtle_game.py:134-137 | exits a level change appends avoid a position where the next file has no exit |
| GameProperties.RunnerMoveScore | Exercise04/turtle_game.py:215-224 | the runner's score after a move is the one the exit loop produces |
| GameProperties.ExitScanSingle | Exercise04/turtle_game.py:219-224 | an exit loop that meets a unique exit at the runner's cell scores exactly one |
| GameProperties.OnWinAfterExit | Exercise04/turtle_game.py:219-222 | after that win, no later exit is near the runner |
| GameProperties.RunnerExitScoresOnce | Exercise04/turtle_game.py:215-231 | with one exit at the target and none at that cell in the next file, the runner scores exactly one |
| GameProperties.ExitScanTwice | Exercise04/turtle_game.py:219-224 | two exits at the runner's cell score at least two, on the last level as well as when the next level starts |
| GameProperties.OnWinKeepsPlaying | Exercise04/turtle_game.py:235-240 | a runner win before a playable level keeps the game well placed and in play |
| GameProperties.RunnerExitCascade | Exercise04/turtle_game.py:219-224 | a duplicated exit under the runner scores at least two in one move, on the last level as well as when the next level starts |
| GameProperties.LastLevelRunnerScore | Exercise04/turtle_game.py:182-240 | on the last level one runner move scores two points at most |
| GameProperties.RunnerRevisitsTrail | Exercise04/turtle_game.py:225-231 | a runner move onto its own trail scores exactly one for the chaser and ends the level |
| GameProperties.Clock | Exercise04/turtle_game.py:64-77 | the running timer is one of the two actors' timers |
| GameRules.Tick | Exercise04/turtle_game.py:60-79 | `step`; `TickCountsDown`, `TickTimeout` and `TickPreservesInv` state its outcomes |
| GameProperties.TickCountsDown | Exercise04/turtle_game.py:66-74 | a tick takes one second off the turn holder's timer and changes nothing else |
| GameProperties.TickTimeout | Exercise04/turtle_game.py:66-77 | the tick that exhausts a timer scores exactly one for the other actor and ends the level |
| GameProperties.LastLevelEndsGame | Exercise04/turtle_game.py:99-102 | with no level left the game ends with no walls, trails or actors |
| GameProperties.ScanPlacesBoth | Exercise04/turtle_game.py:117-161 | a file is read to the end with both actors placed iff every field is an integer and it has a 3 and a 4 |
| GameProperties.NextLevelStarts | Exercise04/turtle_game.py:96-98 | the next level is in play iff its file is playable |
| GameProperties.LevelScanLists | Exercise04/turtle_game.py:117-137 | the scanned walls are exactly the 1-cells; the scanned exits are the old exits plus the 2-cells |
| GameProperties.NextLevelLists | Exercise04/turtle_game.py:95-98 | the same holds for the state of a started next level |
| GameProperties.NextLevelActors | Exercise04/turtle_game.py:138-161 | each actor of a started next level stands at the last cell holding its code |
| GameRules.Init | Exercise04/turtle_game.py:37-51 | `__init__`: the first level is popped and read; `GameStarts` states the resulting game |
| GameRules.OnDestroy | Exercise04/turtle_game.py:104-115 | `on_destroy` empties walls, trails and actors and keeps the exits; `NextLevel`'s contract, `NextLevelExitsOf` and `LastLevelEndsGame` state it |
| GameProperties.GameStarts | Exercise04/turtle_game.py:37-57 | a new game keeps the invariant with zero scores; it starts iff the first file is playable and crashes with no file |
| GameProperties.GiveTurnInv | Exercise04/turtle_game.py:213 | handing over the turn restores the invariant |
| GameProperties.ChaserMovedInv | Exercise04/turtle_game.py:204-213 | an accepted chaser move keeps the invariant |
| GameProperties.RunnerMovedInv | Exercise04/turtle_game.py:215-231 | an accepted runner move keeps the invariant |
| GameProperties.MovePreservesInv | Exercise04/turtle_game.py:182-233 | every key press keeps the invariant |
| GameProperties.OnWinKeepsInv | Exercise04/turtle_game.py:235-240 | a win from a state whose exits are on the grid leaves the invariant holding, whatever level comes next |
| GameProperties.TickPreservesInv | Exercise04/turtle_game.py:59-79 | every timer tick keeps the invariant |
| GameProperties.ChaserMovedMonotone | Exercise04/turtle_game.py:204-213 | a chaser move never lowers a score or removes an exit |
| GameProperties.RunnerMovedMonotone | Exercise04/turtle_game.py:215-231 | a runner move never lowers a score or removes an exit |
| GameProperties.MoveMonotone | Exercise04/turtle_game.py:182-233 | no key press lowers a score |
| GameProperties.ApplyKeeps | Exercise04/turtle_game.py:59-79 | no event breaks the invariant or lowers a score |
| GameProperties.RunKeeps | Exercise04/turtle_game.py:59-79 | over any sequence of events the invariant holds and scores never decrease |
| GameProperties.StoppedGameIgnoresEvents | Exercise04/turtle_game.py:99-102 | once the game has ended or crashed, events change nothing |
| GameProperties.WholeGame | Exercise04/turtle_game.py:290-305 | a whole game keeps the invariant; with no level file it crashes at once |
| TurtleGame.HitsWall | Exercise04/turtle_game.py:196-202 | the wall loop finds a hit iff some wall touches the target |
| TurtleGame.TrailHit | Exercise04/turtle_game.py:210-212 | the trail loop finds a hit iff some step is near the target |
| TurtleGame.RunawayGame.constructor | Exercise04/turtle_game.py:37-51 | the new game's fields are the initial attributes after reading the first queued level |
| TurtleGame.RunawayGame.ReadLine | Exercise04/turtle_game.py:120-161 | the fields after one line are the scan of that line's codes; nothing else changes |
| TurtleGame.RunawayGame.PlaceCode | Exercise04/turtle_game.py:129-161 | one code appends a wall or exit or replaces an actor, as `Place` says |
| TurtleGame.RunawayGame.ReadMap | Exercise04/turtle_game.py:117-161 | the fields after `read_map` are `Load` of the old state |
| TurtleGame.RunawayGame.Start | Exercise04/turtle_game.py:53-57 | the fields after `start` are `Start` of the old state |
| TurtleGame.RunawayGame.OnDestroy | Exercise04/turtle_game.py:104-115 | walls, trails and actors are cleared and nothing else changes |
| TurtleGame.RunawayGame.NextLevel | Exercise04/turtle_game.py:88-102 | the fields after `next_level` are `NextLevel` of the old state |
| TurtleGame.RunawayGame.OnWin | Exercise04/turtle_game.py:235-240 | the fields after `on_win` are `OnWin` of the old state |
| TurtleGame.RunawayGame.Tick | Exercise04/turtle_game.py:59-79 | the fields after `step` are `Tick` of the old state |
| TurtleGame.RunawayGame.GiveTurn | Exercise04/turtle_game.py:231 | the closing turn hand-over acts on the current actor |
| TurtleGame.RunawayGame.ExitLoop | Exercise04/turtle_game.py:219-224 | the fields after the exit loop are `ExitScan` of the old state |
| TurtleGame.RunawayGame.ExitLoopAfterEnd | Exercise04/turtle_game.py:219-224 | the fields after the rest of the exit loop, once the last level is won, are `ExitScanAfterEnd` of the old state |
| TurtleGame.RunawayGame.ChaserStep | Exercise04/turtle_game.py:204-213 | the fields after the chaser branch are `ChaserMoved` of the old state |
| TurtleGame.RunawayGame.RunnerStep | Exercise04/turtle_game.py:215-231 | the fields after the runner branch are `RunnerMoved` of the old state |
| TurtleGame.RunawayGame.CheckCollision | Exercise04/turtle_game.py:182-233 | the fields after `check_collision` are `Move` of the old state |
| TurtleGame.RunawayGame.Handle | Exercise04/turtle_game.py:176-179 | a key press or a timer tick leaves the fields in the `Apply` state of the old ones |
| TurtleGame.Play | Exercise04/turtle_game.py:290-305 | the main loop ends in the `Run` state, which keeps the invariant and is a crash when there is no level |
| Text.TrimLeft | Exercise03/class_score_analysis.py:5 | the result is a suffix, all that was dropped is whitespace, and it does not start with whitespace |
| Text.TrimRight | Exercise03/class_score_analysis.py:5 | the result is a prefix, all that was dropped is whitespace, and it does not end with whitespace |
| Text.IsSpace | Exercise03/class_score_analysis.py:5 | the characters `str.strip` removes; `TrimLeft`, `TrimRight` and `Strip` state what stripping leaves |
| Text.Strip | Exercise03/class_score_analysis.py:5 | the stripped text neither starts nor ends with whitespace |
| Text.StripBlank | Exercise03/class_score_analysis.py:5 | whitespace strips to the empty string |
| Text.StripTrimmed | Exercise03/class_score_analysis.py:5 | text without surrounding whitespace is its own strip |
| Text.StripAddedSpace | Exercise05/class_score_plot.py:11 | a trailing newline after trimmed text is stripped away |
| Text.Split | Exercise03/class_score_analysis.py:7 | `str.split`, with at least one piece; `JoinSplit`, `SplitJoin`, `SplitPiecesAvoidSeparator` and `SplitFirstPiece` state it |
| Text.JoinSplit | Exercise03/class_score_analysis.py:7 | joining the pieces of a split with the separator gives back the text |
| Text.SplitJoin | Exercise03/class_score_analysis.py:7 | splitting a join of pieces free of the separator gives back the pieces |
| Text.SplitPiecesAvoidSeparator | Exercise04/turtle_game.py:122 | no piece of a split on a character contains that character |
| Text.SplitWithoutSeparator | Exercise03/class_score_analysis.py:7 | text without the separator splits into itself |
| Text.SplitAfterPiece | Exercise03/class_score_analysis.py:7 | a piece followed by the separator splits off first |
| Text.SplitFirstPiece | Exercise05/class_score_plot.py:11 | the first piece of a split is the text up to the first separator |
| Text.JoinExtendLast | Exercise05/class_score_plot.py:11 | appending to the last piece appends to the join |
| Text.ParseEach | Exercise03/class_score_analysis.py:8 | a conversion over all fields succeeds iff each does, and then gives each field's value in order |
| Text.ParseInt | Exercise04/turtle_game.py:125 | `int()` on text; `ParseIntRoundTrip`, `ParseIntNeedsDigit` and `ParseIntChars` state what it accepts |
| Text.ParseIntRoundTrip | Exercise04/turtle_game.py:125 | `int(str(n)) == n` |
| Text.ParseIntNeedsDigit | Exercise04/turtle_game.py:124-127 | text `int()` accepts holds a digit |
| Text.ParseIntChars | Exercise05/class_score_plot.py:11 | text `int()` accepts holds only whitespace, signs, digits and underscores |
| Text.ParseFloat | Exercise03/class_score_analysis.py:8 | `float()` on text; `ParseFloatOfInt` states that it reads back a written integer |
| Text.ParseFloatOfInt | Exercise03/class_score_analysis.py:8 | `float(str(n)) == n` |
| Text.StripIntToString | Exercise03/class_score_analysis.py:5 | the decimal text of an integer is its own strip |
| Text.DigitsValueOfNatToString | Exercise04/turtle_game.py:125 | the digits of `str(n)` denote n |
| ListBuiltins.SumBetween | Exercise03/class_score_analysis.py:23 | the sum of n values in [lo, hi] lies in [n·lo, n·hi] |
| ListBuiltins.AverageBetween | Exercise03/class_score_analysis.py:23 | `sum(s)/len(s)` lies between any bounds of the values |
| ListBuiltins.SumNonNegative | Exercise03/class_score_analysis.py:24 | a sum of non-negative values is non-negative |
| ListBuiltins.Min | Exercise03/class_score_analysis.py:27 | `min` is one of the values and below every value |
| ListBuiltins.Max | Exercise03/class_score_analysis.py:27 | `max` is one of the values and above every value |
| ListBuiltins.Insert | Exercise03/class_score_analysis.py:25 | inserting into a sorted list keeps it sorted and adds exactly that value |
| ListBuiltins.Sorted | Exercise03/class_score_analysis.py:25 | `sorted` is ordered and a permutation of its input |
| ListBuiltins.SortedOfSorted | Exercise03/class_score_analysis.py:25 | sorting an ordered list changes nothing |
| ListBuiltins.CountPermutation | Exercise03/class_score_analysis.py:25 | a permutation has as many values below (above) a pivot |
| ListBuiltins.CountBelowSorted | Exercise03/class_score_analysis.py:26 | in a sorted list, at most m values lie below a value no greater than the m-th |
| ListBuiltins.CountAboveSorted | Exercise03/class_score_analysis.py:26 | in a sorted list, at most len − m values lie above a value no less than the (m−1)-th |
| ListBuiltins.Filter | Exercise03/class_score_analysis.py:4-6 | the kept lines all pass the test and are no more than the lines |
| ListBuiltins.FilterPrefixAt | Exercise03/class_score_analysis.py:4-9 | a kept line's position among the kept lines is the number kept before it |
| LineReading.ReadRows | Exercise03/class_score_analysis.py:2-10 | the read succeeds iff every kept line converts, and then yields one row per kept line, in order |
| ScoreAnalysis.ReadData | Exercise03/class_score_analysis.py:1-10 | every line that is not a comment once stripped becomes a row of floats; one bad field fails the read |
| ScoreAnalysis.BlankLineFails | Exercise03/class_score_analysis.py:5-8 | a blank line is not a comment, and its one empty field is not a number |
| ScoreAnalysis.PrintedLineTrimmed | Exercise03/class_score_analysis.py:5-6 | a written row of integers has no surrounding whitespace and is not a comment |
| ScoreAnalysis.ParsePrinted | Exercise03/class_score_analysis.py:8 | each written integer reads back as itself with `float()` |
| ScoreAnalysis.RowRoundTrip | Exercise03/class_score_analysis.py:5-9 | a row written as "a, b, ..." is a data line and reads back as those scores |
| ScoreAnalysis.Processed | Exercise03/class_score_analysis.py:13-18 | the rows the loop completes all fit, and the first one left, if any, does not |
| ScoreAnalysis.Weighted | Exercise03/class_score_analysis.py:17 | the weighted total of one row; `AddWeightedAverage` appends it to each completed row |
| ScoreAnalysis.AddWeightedAverage | Exercise03/class_score_analysis.py:13-18 | rows up to the first without two scores get their weighted total appended, later rows are unchanged; success iff all are done |
| ScoreAnalysis.AnalyzeData | Exercise03/class_score_analysis.py:21-27 | the corrected `analyze_data`, with the median of the two middle values: only an empty column fails, with the division by zero of line 23 (the script's own version is `AnalyzeDataAsWritten`) |
| ScoreAnalysis.Mean | Exercise03/class_score_analysis.py:23 | the mean; `MeanWithinRange` bounds it by min and max |
| ScoreAnalysis.Variance | Exercise03/class_score_analysis.py:24 | the population variance; `VarianceNonNegative` states it is never negative |
| ScoreAnalysis.Median | Exercise03/class_score_analysis.py:25-26 | the intended median; `MedianWithinRange` and `MedianSplitsData` state it |
| ScoreAnalysis.MeanWithinRange | Exercise03/class_score_analysis.py:23 | the mean lies between min and max |
| ScoreAnalysis.VarianceNonNegative | Exercise03/class_score_analysis.py:24 | the variance is never negative |
| ScoreAnalysis.SortedWithinRange | Exercise03/class_score_analysis.py:25 | every value of the sorted copy lies between min and max |
| ScoreAnalysis.MiddleWithin | Exercise03/class_score_analysis.py:26 | the middle of a sorted list lies between its ends |
| ScoreAnalysis.MedianWithinRange | Exercise03/class_score_analysis.py:25-26 | the median lies between min and max |
| ScoreAnalysis.MiddleSplits | Exercise03/class_score_analysis.py:26 | at most half of a sorted list lies on either side of its middle |
| ScoreAnalysis.MedianSplitsData | Exercise03/class_score_analysis.py:25-26 | at most half of the column lies below the median, and at most half above |
| ScoreAnalysis.AnalyzeDataAsWritten | Exercise03/class_score_analysis.py:21-27 | the script's own `analyze_data`: `AsWrittenAgreesOnOddLength` proves it matches the corrected version on odd lengths, `AsWrittenFailsOnTwo` that two values index past the end, and `AsWrittenMedianTooHigh` that four values give a median above three of them |
| ScoreAnalysis.AsWrittenAgreesOnOddLength | Exercise03/class_score_analysis.py:26 | on an odd-length column the script's statistics are the intended ones |
| ScoreAnalysis.AsWrittenFailsOnTwo | Exercise03/class_score_analysis.py:26 | on two values the script indexes past the end, where the intended median exists |
| ScoreAnalysis.MiddleTooHigh | Exercise03/class_score_analysis.py:26 | on four increasing values the script's middle has three values below it; the intended one is the mean of the inner two |
| ScoreAnalysis.AsWrittenMedianTooHigh | Exercise03/class_score_analysis.py:26 | on four increasing values the script reports the mean of the top two as the median, with three of four values below it |
| ScorePlot.ReadData | Exercise05/class_score_plot.py:6-12 | every line not starting with '#' becomes a row of integers; one bad field fails the read |
| ScorePlot.IndentedHeaderFails | Exercise05/class_score_plot.py:10-11 | an indented '#' line is a comment to the analysis reader but a data line here, and its first field is not an integer |
| ScorePlot.HeaderAfterSpaces | Exercise05/class_score_plot.py:10 | whitespace then '#' strips to text starting with '#' |
| ScorePlot.BlankLineFails | Exercise05/class_score_plot.py:10-11 | a blank line, such as an empty last line, is a data line whose field is not an integer |
| ScorePlot.LineRoundTrip | Exercise05/class_score_plot.py:10-11 | a row written as "a,b,...\n" is a data line and reads back as those scores |
| ScorePlot.LineSplitsIntoFields | Exercise05/class_score_plot.py:11 | the written row splits on ',' into the printed scores, the newline on the last |
| ScorePlot.FieldsReadBack | Exercise05/class_score_plot.py:11 | each field reads back with `int()` as its score |
| ScorePlot.FieldReadsBack | Exercise05/class_score_plot.py:11 | the k-th field of a written row reads back with `int()` as the k-th score |
| ScorePlot.LastFieldReadsBack | Exercise05/class_score_plot.py:11 | the newline after the last score does not change what `int()` reads |
| ScorePlot.FieldsAvoidComma | Exercise05/class_score_plot.py:11 | no written field holds a comma |
| ScorePlot.Rows | Exercise05/class_score_plot.py:24 | pairing two columns gives rows of exactly two scores |
| ScorePlot.Unpacked | Exercise05/class_score_plot.py:20-21 | the two list comprehensions that unpack the rows; `UnpackedRoundTrip` and `RowsRoundTrip` state it |
| ScorePlot.UnpackedRoundTrip | Exercise05/class_score_plot.py:20-21 | unpacking succeeds iff every row is a pair, and pairing the columns gives back the rows |
| ScorePlot.RowsRoundTrip | Exercise05/class_score_plot.py:20-21 | columns of one length, paired and unpacked, come back unchanged |
| ScorePlot.Transposed | Exercise05/class_score_plot.py:24 | `zip(*rows)` into two columns; `TransposedAgrees` states it |
| ScorePlot.TransposedAgrees | Exercise05/class_score_plot.py:20-24 | `zip(*rows)` agrees with unpacking where both succeed; it fails on an empty file, where unpacking gives empty columns |
| ScorePlot.Totals | Exercise05/class_score_plot.py:22 | the totals comprehension; `TotalsOfColumns` states it |
| ScorePlot.Total | Exercise05/class_score_plot.py:22 | one total; `TotalIsWeighted` and `TotalWithinRange` state it |
| ScorePlot.TotalsOfColumns | Exercise05/class_score_plot.py:20-22 | totals fail exactly where unpacking does, and are computed from the two columns position by position |
| ScorePlot.TotalIsWeighted | Exercise05/class_score_plot.py:22 | the total is the analysis script's weighted total with weights 40/125 and 60/100 |
| ScorePlot.TotalWithinRange | Exercise05/class_score_plot.py:22 | scores within their maxima give a total in [0, 100]; only full marks give 100; a better score raises the total |
| ScorePlot.PlotColumnsSucceed | Exercise05/class_score_plot.py:16-26 | all columns of both classes are computed iff both files hold only pairs and the English file is not empty; the columns pair back into the rows |

## Left out

- Drawing, shapes, text output, colours and the canvas: they have no effect on the game state.
- The `__main__` blocks: the reports of the analysis script (lines 30-53) and the matplotlib plots (lines 28-58), including the histogram binning.
- Files, `glob` and `readlines`: a level is given as a sequence of lines, the level queue as a sequence of levels, and a score file as a sequence of lines.
- Time: `ontimer` scheduling, the one-second `time.sleep` in `on_destroy`, and the key bindings. Events are a given sequence of key presses and one-second ticks, delivered one at a time.
- The singleton metaclass: there is one `RunawayGame` object, built by its constructor.
- GameRules.Tick: the `AttributeError` recovery of lines 80-85 is not modelled. In the model, a tick without both actors changes nothing.
- GameRules.Start: a level file without a 3 crashes the model when the level starts (`MissingActor`). The source also raises at once, at line 55; for the first level that happens at line 304, before the main loop. When the raise happens inside a timer callback, the source's recovery through lines 80-85 is not modelled.
- GameRules.Start: a level file with a 3 but no 4 also crashes the model when the level starts. In the source the level does start, and the runner, which holds the turn, can make one move. If that move reaches an exit, line 237 adds the runner's point before `next_level` raises at line 92 on the missing chaser. Otherwise line 231 raises after the move. The model loses that move and that point.
- GameRules.ExitScanAfterEnd: the `AttributeError` that line 91 raises after the extra point is not a separate outcome. The game stays `Ended`, since `exitonclick` at line 102 has already run.
- GameRules.OnDestroy: the trail lists are replaced, not first filled with `None` (lines 107-112). Filling the old list makes the chaser branch's trail loop raise after a win. Line 213 is then skipped, and that state equals the modelled one because the new runner already holds the turn.
- GameRules.ChaserMoved: the uncaught exception that the `None`-filled trail raises in the chaser branch is not a separate outcome.
- ScoreAnalysis.AddWeightedAverage: rows are values in an array. Two entries that are the same Python list, and so would both grow, are not modelled.
- ScoreAnalysis.Mean: reals are exact. The binary floating-point rounding of `sum`, `/` and `**` is not modelled, and neither are Variance and the median.
- ScorePlot.Total: exact reals. 40/125 and 60/100 are the floats 0.32 and 0.6 in Python.
- Text.ParseFloat: only plain decimal notation. Exponents, `inf`, `nan` and digit underscores are not accepted.
- Text.IsSpace: ASCII whitespace only. Python's `strip` also removes other Unicode whitespace.
- Text.ParseInt: ASCII digits only, not the other Unicode decimal digits that Python accepts.

## Findings

| source | as written | input that shows it | evidently intended | confidence | as-written member | corrected member |
|---|---|---|---|---|---|---|
| Exercise03/class_score_analysis.py:26 | for an even length n the median averages `sorted_data[n//2]` and `sorted_data[n//2 + 1]` | [1.0, 2.0, 3.0, 4.0] gives 3.5, above three of the four values; [1.0, 2.0] raises IndexError | average `sorted_data[n//2 - 1]` and `sorted_data[n//2]`, giving 2.5 and 1.5 | not executed | ScoreAnalysis.AsWrittenMedianTooHigh | ScoreAnalysis.MedianSplitsData |
