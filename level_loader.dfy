/**
 * Reading a level file of the runaway game (`RunawayGame.read_map`): each
 * line is stripped and split at commas, every token must be an integer,
 * and codes 1, 2, 3, 4 place a wall, an exit, the runner and the chaser in
 * the cell (line index, token index). The scan is a pair of tail-recursive
 * functions over rows and tokens; the imperative loader in TurtleGame is
 * proved to follow them.
 */
module LevelLoader {
  import opened Common
  import opened Text
  import opened TileGeometry

  /** The text lines of one level file. */
  type Grid = seq<string>

  /** `int(token)` for every token of every line; None where `int` raises. */
  type CodeGrid = seq<seq<Option<int>>>

  const WALL: int := 1
  const EXIT: int := 2
  const RUNNER: int := 3
  const CHASER: int := 4

  /** What a level file has placed so far: wall and exit cells in reading order, the runner and chaser cells. */
  datatype Placement = Placement(walls: seq<Pos>, exits: seq<Pos>, runner: Option<Pos>, chaser: Option<Pos>)

  /** The placements made by a scan, and whether every token read was an integer. */
  datatype Scan = Scan(placed: Placement, ok: bool)

  /** The tokens of one line: the stripped line split at commas. */
  function RowTokens(line: string): seq<string>
  {
    Split(Strip(line), ",")
  }

  /** `int(token)` for each token, in order; None where `int` raises. */
  function Codes(tokens: seq<string>): (codes: seq<Option<int>>)
    ensures |codes| == |tokens|
  {
    if tokens == [] then [] else [ParseInt(tokens[0])] + Codes(tokens[1..])
  }

  lemma {:induction false} CodesAt(tokens: seq<string>, j: nat)
    requires j < |tokens|
    ensures Codes(tokens)[j] == ParseInt(tokens[j])
  {
    if j > 0 {
      CodesAt(tokens[1..], j - 1);
    }
  }

  /** The tile codes of one line of a level file. */
  function RowCodes(line: string): seq<Option<int>>
  {
    Codes(RowTokens(line))
  }

  /** The tile codes of a whole file, line by line. */
  function GridCodes(grid: Grid): (cg: CodeGrid)
    ensures |cg| == |grid|
  {
    if grid == [] then [] else [RowCodes(grid[0])] + GridCodes(grid[1..])
  }

  lemma {:induction false} GridCodesAt(grid: Grid, row: nat)
    requires row < |grid|
    ensures GridCodes(grid)[row] == RowCodes(grid[row])
  {
    if row > 0 {
      GridCodesAt(grid[1..], row - 1);
    }
  }

  /** Line `row` has a token at index `col`. */
  predicate IsCell(cg: CodeGrid, row: int, col: int) {
    0 <= row < |cg| && 0 <= col < |cg[row]|
  }

  /** Cell (row, col) exists and its token is the integer `code`. */
  predicate HasCode(cg: CodeGrid, row: int, col: int, code: int) {
    IsCell(cg, row, col) && cg[row][col] == Some(code)
  }

  /** Cell (r1, c1) comes after cell (r2, c2) in reading order. */
  predicate Later(r1: int, c1: int, r2: int, c2: int) {
    r1 > r2 || (r1 == r2 && c1 > c2)
  }

  predicate PlacementOnGrid(pl: Placement) {
    && (forall k :: 0 <= k < |pl.walls| ==> OnGrid(pl.walls[k]))
    && (forall k :: 0 <= k < |pl.exits| ==> OnGrid(pl.exits[k]))
    && (pl.runner.Some? ==> OnGrid(pl.runner.value))
    && (pl.chaser.Some? ==> OnGrid(pl.chaser.value))
  }

  /** The effect of one token with value `code` in the cell whose centre is `p`; other codes change nothing. */
  function Place(acc: Placement, code: int, p: Pos): Placement
  {
    if code == WALL then acc.(walls := acc.walls + [p])
    else if code == EXIT then acc.(exits := acc.exits + [p])
    else if code == RUNNER then acc.(runner := Some(p))
    else if code == CHASER then acc.(chaser := Some(p))
    else acc
  }

  /** Reads the tokens of line `row` from index `col` on, stopping at the first token that is not an integer. */
  function ScanRow(row: nat, codes: seq<Option<int>>, col: nat, acc: Placement): (r: Scan)
    ensures acc.walls <= r.placed.walls && acc.exits <= r.placed.exits
    decreases |codes| - col
  {
    if col >= |codes| then Scan(acc, true)
    else match codes[col]
      case None => Scan(acc, false)
      case Some(code) => ScanRow(row, codes, col + 1, Place(acc, code, CellPos(row, col)))
  }

  /** Everything a line places stands on a cell centre. */
  lemma {:induction false} ScanRowOnGrid(row: nat, codes: seq<Option<int>>, col: nat, acc: Placement)
    ensures PlacementOnGrid(acc) ==> PlacementOnGrid(ScanRow(row, codes, col, acc).placed)
    decreases |codes| - col
  {
    if col < |codes| && codes[col].Some? {
      ScanRowOnGrid(row, codes, col + 1, Place(acc, codes[col].value, CellPos(row, col)));
    }
  }

  /** Everything a level file places stands on a cell centre. */
  lemma {:induction false} ScanGridOnGrid(cg: CodeGrid, row: nat, acc: Placement)
    ensures PlacementOnGrid(acc) ==> PlacementOnGrid(ScanGrid(cg, row, acc).placed)
    decreases |cg| - row
  {
    if row < |cg| {
      ScanRowOnGrid(row, cg[row], 0, acc);
      var sc := ScanRow(row, cg[row], 0, acc);
      if sc.ok {
        ScanGridOnGrid(cg, row + 1, sc.placed);
      }
    }
  }

  /** One token of a line read: its effect, then the rest of the line. */
  lemma ScanRowStep(row: nat, codes: seq<Option<int>>, col: nat, acc: Placement)
    requires col < |codes| && codes[col].Some?
    ensures ScanRow(row, codes, col, acc) == ScanRow(row, codes, col + 1, Place(acc, codes[col].value, CellPos(row, col)))
  {
  }

  /** Reads lines `row` onwards, stopping at the first token that is not an integer. */
  function ScanGrid(cg: CodeGrid, row: nat, acc: Placement): (r: Scan)
    ensures acc.walls <= r.placed.walls && acc.exits <= r.placed.exits
    decreases |cg| - row
  {
    if row >= |cg| then Scan(acc, true)
    else
      var sc := ScanRow(row, cg[row], 0, acc);
      if sc.ok then ScanGrid(cg, row + 1, sc.placed) else sc
  }

  /** The rest of a file's scan once line `row` has been read up to the scan `sc`. */
  function Resume(cg: CodeGrid, row: nat, sc: Scan): Scan
  {
    if sc.ok then ScanGrid(cg, row + 1, sc.placed) else sc
  }

  /** The list a wall or exit code is appended to. */
  function Listed(pl: Placement, code: int): seq<Pos>
  {
    if code == WALL then pl.walls else pl.exits
  }

  /** The actor slot a runner or chaser code sets. */
  function Slot(pl: Placement, code: int): Option<Pos>
  {
    if code == RUNNER then pl.runner else pl.chaser
  }

  lemma {:induction false} ScanRowOk(row: nat, codes: seq<Option<int>>, col: nat, acc: Placement)
    ensures ScanRow(row, codes, col, acc).ok <==> forall j :: col <= j < |codes| ==> codes[j].Some?
    decreases |codes| - col
  {
    if col < |codes| && codes[col].Some? {
      ScanRowOk(row, codes, col + 1, Place(acc, codes[col].value, CellPos(row, col)));
    }
  }

  /** `read_map` completes exactly when every token of the file is an integer; otherwise it raises. */
  lemma {:induction false} ScanGridOk(cg: CodeGrid, row: nat, acc: Placement)
    ensures ScanGrid(cg, row, acc).ok <==> forall r, c :: row <= r && IsCell(cg, r, c) ==> cg[r][c].Some?
    decreases |cg| - row
  {
    if row < |cg| {
      var codes := cg[row];
      var sc := ScanRow(row, codes, 0, acc);
      ScanRowOk(row, codes, 0, acc);
      if sc.ok {
        ScanGridOk(cg, row + 1, sc.placed);
        if ScanGrid(cg, row, acc).ok {
          forall r, c | row <= r && IsCell(cg, r, c) ensures cg[r][c].Some? {
          }
        }
      } else {
        var j :| 0 <= j < |codes| && codes[j].None?;
        assert IsCell(cg, row, j);
      }
    }
  }

  lemma {:induction false} ScanRowListed(row: nat, codes: seq<Option<int>>, col: nat, acc: Placement, code: int)
    requires code == WALL || code == EXIT
    requires ScanRow(row, codes, col, acc).ok
    ensures forall p :: p in Listed(ScanRow(row, codes, col, acc).placed, code) <==>
      p in Listed(acc, code) || exists j :: col <= j < |codes| && codes[j] == Some(code) && p == CellPos(row, j)
    decreases |codes| - col
  {
    if col < |codes| {
      var v := codes[col].value;
      var next := Place(acc, v, CellPos(row, col));
      ScanRowListed(row, codes, col + 1, next, code);
      if v == code {
        assert Listed(next, code) == Listed(acc, code) + [CellPos(row, col)];
      } else {
        assert Listed(next, code) == Listed(acc, code);
      }
    }
  }

  /** Wall cells (code 1) and exit cells (code 2) are exactly those appended to the lists the scan started from. */
  lemma {:induction false} ScanGridListed(cg: CodeGrid, row: nat, acc: Placement, code: int)
    requires code == WALL || code == EXIT
    requires ScanGrid(cg, row, acc).ok
    ensures forall p :: p in Listed(ScanGrid(cg, row, acc).placed, code) <==>
      p in Listed(acc, code) || exists r, c :: row <= r && HasCode(cg, r, c, code) && p == CellPos(r, c)
    decreases |cg| - row
  {
    if row < |cg| {
      var codes := cg[row];
      var sc := ScanRow(row, codes, 0, acc);
      ScanRowListed(row, codes, 0, acc, code);
      ScanGridListed(cg, row + 1, sc.placed, code);
      forall p | p in Listed(ScanGrid(cg, row, acc).placed, code)
        ensures p in Listed(acc, code) || exists r, c :: row <= r && HasCode(cg, r, c, code) && p == CellPos(r, c)
      {
        if p !in Listed(acc, code) && p !in Listed(sc.placed, code) {
          var r, c :| row + 1 <= r && HasCode(cg, r, c, code) && p == CellPos(r, c);
        } else if p !in Listed(acc, code) {
          var j :| 0 <= j < |codes| && codes[j] == Some(code) && p == CellPos(row, j);
          assert HasCode(cg, row, j, code);
        }
      }
      forall p | p !in Listed(acc, code) && exists r, c :: row <= r && HasCode(cg, r, c, code) && p == CellPos(r, c)
        ensures p in Listed(ScanGrid(cg, row, acc).placed, code)
      {
        var r, c :| row <= r && HasCode(cg, r, c, code) && p == CellPos(r, c);
        if r == row {
          assert codes[c] == Some(code);
        }
      }
    }
  }

  lemma {:induction false} ScanRowAvoids(row: nat, codes: seq<Option<int>>, col: nat, acc: Placement, code: int, p: Pos)
    requires code == WALL || code == EXIT
    requires forall j :: col <= j < |codes| && codes[j] == Some(code) ==> CellPos(row, j) != p
    ensures forall k :: |Listed(acc, code)| <= k < |Listed(ScanRow(row, codes, col, acc).placed, code)| ==>
      Listed(ScanRow(row, codes, col, acc).placed, code)[k] != p
    decreases |codes| - col
  {
    if col < |codes| && codes[col].Some? {
      var next := Place(acc, codes[col].value, CellPos(row, col));
      ScanRowAvoids(row, codes, col + 1, next, code, p);
      assert ScanRow(row, codes, col, acc) == ScanRow(row, codes, col + 1, next);
      if codes[col].value == code {
        assert Listed(next, code) == Listed(acc, code) + [CellPos(row, col)];
      } else {
        assert Listed(next, code) == Listed(acc, code);
      }
    }
  }

  /** A cell that carries no wall (or exit) code in lines `row` onwards is never appended to the wall (or exit) list. */
  lemma {:induction false} ScanGridAvoids(cg: CodeGrid, row: nat, acc: Placement, code: int, p: Pos)
    requires code == WALL || code == EXIT
    requires forall r, c :: row <= r && HasCode(cg, r, c, code) ==> CellPos(r, c) != p
    ensures forall k :: |Listed(acc, code)| <= k < |Listed(ScanGrid(cg, row, acc).placed, code)| ==>
      Listed(ScanGrid(cg, row, acc).placed, code)[k] != p
    decreases |cg| - row
  {
    if row < |cg| {
      var codes := cg[row];
      assert forall j :: 0 <= j < |codes| && codes[j] == Some(code) ==> HasCode(cg, row, j, code);
      ScanRowAvoids(row, codes, 0, acc, code, p);
      var sc := ScanRow(row, codes, 0, acc);
      if sc.ok {
        ScanGridAvoids(cg, row + 1, sc.placed, code, p);
        var rest := ScanGrid(cg, row + 1, sc.placed);
        assert ScanGrid(cg, row, acc) == rest;
        assert Listed(sc.placed, code) <= Listed(rest.placed, code);
        forall k | |Listed(acc, code)| <= k < |Listed(rest.placed, code)|
          ensures Listed(rest.placed, code)[k] != p
        {
          if k < |Listed(sc.placed, code)| {
            assert Listed(rest.placed, code)[k] == Listed(sc.placed, code)[k];
          }
        }
      } else {
        assert ScanGrid(cg, row, acc) == sc;
      }
    }
  }

  lemma {:induction false} ScanRowSlotUnset(row: nat, codes: seq<Option<int>>, col: nat, acc: Placement, code: int)
    requires code == RUNNER || code == CHASER
    requires forall j :: col <= j < |codes| ==> codes[j] != Some(code)
    ensures Slot(ScanRow(row, codes, col, acc).placed, code) == Slot(acc, code)
    decreases |codes| - col
  {
    if col < |codes| && codes[col].Some? {
      ScanRowSlotUnset(row, codes, col + 1, Place(acc, codes[col].value, CellPos(row, col)), code);
    }
  }

  lemma {:induction false} ScanRowSlotLast(row: nat, codes: seq<Option<int>>, col: nat, acc: Placement, code: int, j: nat)
    requires code == RUNNER || code == CHASER
    requires ScanRow(row, codes, col, acc).ok
    requires col <= j < |codes| && codes[j] == Some(code)
    requires forall k :: j < k < |codes| ==> codes[k] != Some(code)
    ensures Slot(ScanRow(row, codes, col, acc).placed, code) == Some(CellPos(row, j))
    decreases |codes| - col
  {
    var next := Place(acc, codes[col].value, CellPos(row, col));
    if col < j {
      ScanRowSlotLast(row, codes, col + 1, next, code, j);
    } else {
      ScanRowSlotUnset(row, codes, col + 1, next, code);
    }
  }

  /** A file without a runner (chaser) code leaves that actor as it was before the file was read. */
  lemma {:induction false} ScanGridSlotUnset(cg: CodeGrid, row: nat, acc: Placement, code: int)
    requires code == RUNNER || code == CHASER
    requires forall r, c :: row <= r ==> !HasCode(cg, r, c, code)
    ensures Slot(ScanGrid(cg, row, acc).placed, code) == Slot(acc, code)
    decreases |cg| - row
  {
    if row < |cg| {
      var codes := cg[row];
      forall j | 0 <= j < |codes| ensures codes[j] != Some(code) {
        assert !HasCode(cg, row, j, code);
      }
      ScanRowSlotUnset(row, codes, 0, acc, code);
      var sc := ScanRow(row, codes, 0, acc);
      if sc.ok {
        ScanGridSlotUnset(cg, row + 1, sc.placed, code);
      }
    }
  }

  /** A repeated runner (chaser) code: the last occurrence in reading order is the one that stays. */
  lemma {:induction false} ScanGridSlotLast(cg: CodeGrid, row: nat, acc: Placement, code: int, r: nat, c: nat)
    requires code == RUNNER || code == CHASER
    requires ScanGrid(cg, row, acc).ok
    requires row <= r && HasCode(cg, r, c, code)
    requires forall r', c' :: Later(r', c', r, c) ==> !HasCode(cg, r', c', code)
    ensures Slot(ScanGrid(cg, row, acc).placed, code) == Some(CellPos(r, c))
    decreases |cg| - row
  {
    var codes := cg[row];
    var sc := ScanRow(row, codes, 0, acc);
    if row < r {
      ScanGridSlotLast(cg, row + 1, sc.placed, code, r, c);
    } else {
      forall k | c < k < |codes| ensures codes[k] != Some(code) {
        assert Later(row, k, r, c) && !HasCode(cg, row, k, code);
      }
      ScanRowSlotLast(row, codes, 0, acc, code, c);
      forall r', c' | row + 1 <= r' ensures !HasCode(cg, r', c', code) {
        assert Later(r', c', r, c);
      }
      ScanGridSlotUnset(cg, row + 1, sc.placed, code);
    }
  }

  /** The last column before `hi` whose token is `code`. */
  lemma {:induction false} LastInRow(codes: seq<Option<int>>, code: int, hi: nat) returns (c: nat)
    requires hi <= |codes| && exists j :: 0 <= j < hi && codes[j] == Some(code)
    ensures c < hi && codes[c] == Some(code)
    ensures forall j :: c < j < hi ==> codes[j] != Some(code)
    decreases hi
  {
    if codes[hi - 1] == Some(code) {
      c := hi - 1;
    } else {
      c := LastInRow(codes, code, hi - 1);
    }
  }

  /** The last cell, in reading order, among rows before `bound`, whose token is `code`. */
  lemma {:induction false} LastCodeBefore(cg: CodeGrid, code: int, bound: nat) returns (r: nat, c: nat)
    requires bound <= |cg| && exists r', c' :: r' < bound && HasCode(cg, r', c', code)
    ensures r < bound && HasCode(cg, r, c, code)
    ensures forall r', c' :: r' < bound && Later(r', c', r, c) ==> !HasCode(cg, r', c', code)
    decreases bound
  {
    var last := bound - 1;
    if exists c' :: HasCode(cg, last, c', code) {
      var c' :| HasCode(cg, last, c', code);
      r := last;
      c := LastInRow(cg[last], code, |cg[last]|);
    } else {
      r, c := LastCodeBefore(cg, code, last);
    }
  }

  /** The last cell, in reading order, whose token is `code`. */
  lemma LastCode(cg: CodeGrid, code: int) returns (r: nat, c: nat)
    requires exists r', c' :: HasCode(cg, r', c', code)
    ensures HasCode(cg, r, c, code)
    ensures forall r', c' :: Later(r', c', r, c) ==> !HasCode(cg, r', c', code)
  {
    r, c := LastCodeBefore(cg, code, |cg|);
  }
}
