/** The Minesweeper board: a grid of cells with revealed, mine, flagged and
    surrounding-count fields, the unused-flag and revealed-cell counters, the
    game outcome and the stack of reveal moves that can be undone. */
module GameStructures {
  import opened Grid

  datatype Cell = Cell(revealed: bool, mine: bool, flagged: bool, surroundingCount: int)

  /** Where the mine sampler puts sample value k: row k / columns, column k mod columns. */
  function SampledPos(k: int, columns: int): Pos
    requires columns > 0
  {
    (k / columns, k - (k / columns) * columns)
  }

  /** Sample values below rows * columns land on the grid, and different values on different cells. */
  lemma SampledPosOnGrid(k: int, k': int, rows: int, columns: int)
    requires columns > 0 && 0 <= k < rows * columns && 0 <= k' < rows * columns
    ensures InBounds(rows, columns, SampledPos(k, columns))
    ensures SampledPos(k, columns) == SampledPos(k', columns) ==> k == k'
  {
    var q := k / columns;
    assert q * columns + k % columns == k;
  }

  /** The mine locations drawn from a sample of cell numbers, in sample order. */
  function SampledLocations(sample: seq<int>, columns: int): seq<Pos>
    requires |sample| == 0 || columns > 0
  {
    seq(|sample|, i requires 0 <= i < |sample| => SampledPos(sample[i], columns))
  }

  /** A sample of distinct cell numbers below rows * columns gives distinct cells on the grid. */
  lemma SampledLocationsOnGrid(sample: seq<int>, rows: nat, columns: nat)
    requires Distinct(sample) && forall i :: 0 <= i < |sample| ==> 0 <= sample[i] < rows * columns
    ensures |sample| == 0 || columns > 0
    ensures var locs := SampledLocations(sample, columns);
            && |locs| == |sample| && Distinct(locs)
            && forall i :: 0 <= i < |locs| ==> InBounds(rows, columns, locs[i])
  {
    assert columns == 0 ==> rows * columns == 0;
    if |sample| > 0 {
      assert 0 <= sample[0] < rows * columns;
    }
    var locs := SampledLocations(sample, columns);
    forall i, j | 0 <= i < j < |locs| ensures locs[i] != locs[j] {
      SampledPosOnGrid(sample[i], sample[j], rows, columns);
    }
    forall i | 0 <= i < |locs| ensures InBounds(rows, columns, locs[i]) {
      SampledPosOnGrid(sample[i], sample[i], rows, columns);
    }
  }

  class Game {
    const rows: nat
    const columns: nat
    const mineCount: nat
    const mineLocations: seq<Pos>
    const grid: array2<Cell>
    var revealedCellCount: int
    var gameOutcome: GameOutcome
    var unusedFlagCount: int
    var prevMoves: seq<seq<Pos>>
    /** The cells whose revealed field is set, and those whose flagged field is set. */
    ghost var revealedCells: set<Pos>
    ghost var flaggedCells: set<Pos>

    ghost function Mines(): set<Pos> {
      Elems(mineLocations)
    }

    /** The number of mines around p: what each cell's surrounding count must hold. */
    ghost function MineNeighbours(p: Pos): nat {
      MinesAround(rows, columns, Mines(), p)
    }

    /** Counting the mines along the neighbourhood list, as the board does, gives the mines around p, at most 8. */
    lemma MineNeighboursCounted(p: Pos)
      ensures MineNeighbours(p) == CountIn(Surrounding(rows, columns, p), Mines()) <= 8
    {
      var ns := Surrounding(rows, columns, p);
      SurroundingFacts(rows, columns, p);
      CountInFacts(ns, Mines());
      CountInOverlap(ns, Mines());
      assert Elems(ns) * Mines() == MinesNear(rows, columns, Mines(), p);
    }

    /** The board invariant: the layout never changes, every cell agrees with the ghost
        bookkeeping, the counters count, the outcome matches the cells shown, and every
        remembered move lies on the grid. */
    ghost predicate Valid()
      reads this, grid
    {
      Layout() && CellsMatch() && Tally() && OutcomeMatches() && MovesOnGrid()
    }

    /** The grid has the board's dimensions and the mines are distinct cells on it. */
    ghost predicate Layout() {
      && grid.Length0 == rows && grid.Length1 == columns
      && |mineLocations| == mineCount && Distinct(mineLocations)
      && (forall i :: 0 <= i < |mineLocations| ==> InBounds(rows, columns, mineLocations[i]))
    }

    /** Each cell holds exactly what the bookkeeping says: shown iff in revealedCells, a mine iff
        sampled, flagged iff in flaggedCells (never both shown and flagged), and its mine count. */
    ghost predicate CellsMatch()
      reads grid, this`revealedCells, this`flaggedCells
    {
      && grid.Length0 == rows && grid.Length1 == columns
      && (forall r, c {:trigger grid[r, c]} :: 0 <= r < rows && 0 <= c < columns ==>
            && grid[r, c] == Cell((r, c) in revealedCells, (r, c) in Mines(), (r, c) in flaggedCells, MineNeighbours((r, c)))
            && !(grid[r, c].revealed && grid[r, c].flagged))
      && (forall p :: p in revealedCells ==> InBounds(rows, columns, p))
      && (forall p :: p in flaggedCells ==> InBounds(rows, columns, p))
    }

    /** The unused flags never go negative and, with the planted flags, make up the mine count; the
        revealed counter counts the shown cells. */
    ghost predicate Tally()
      reads this`unusedFlagCount, this`flaggedCells, this`revealedCellCount, this`revealedCells
    {
      0 <= unusedFlagCount && unusedFlagCount + |flaggedCells| == mineCount && revealedCellCount == |revealedCells|
    }

    /** A loss means some mine is showing; a win means as many cells show as there are safe cells. */
    ghost predicate OutcomeMatches()
      reads this`gameOutcome, this`revealedCells, this`revealedCellCount
    {
      && (gameOutcome == Loss <==> MineShowing())
      && (gameOutcome == Win ==> revealedCellCount == rows * columns - mineCount)
    }

    /** Some mine is among the shown cells. */
    ghost predicate MineShowing()
      reads this`revealedCells
    {
      exists i :: 0 <= i < |mineLocations| && mineLocations[i] in revealedCells
    }

    ghost predicate MovesOnGrid()
      reads this`prevMoves
    {
      forall i, j :: 0 <= i < |prevMoves| && 0 <= j < |prevMoves[i]| ==> InBounds(rows, columns, prevMoves[i][j])
    }

    /** A win shows every cell that is not a mine: the revealed counter reaching the number of
        safe cells, with no mine showing, leaves no safe cell covered. */
    lemma WinShowsSafeCells(p: Pos)
      requires Valid() && gameOutcome == Win && InBounds(rows, columns, p) && p !in Mines()
      ensures p in revealedCells && grid[p.0, p.1].revealed
    {
      DistinctCard(mineLocations);
      forall q | q in Mines() ensures InBounds(rows, columns, q) && q !in revealedCells {
        var i :| 0 <= i < |mineLocations| && mineLocations[i] == q;
      }
      assert revealedCells * Mines() == {};
      AllSafeShowing(revealedCells, Mines(), rows, columns, p);
    }

    /** Builds the board with the mines at the sampled positions and every surrounding count filled in. */
    constructor (rows: nat, columns: nat, mineCount: nat, sample: seq<int>)
      requires |sample| == mineCount && Distinct(sample)
      requires forall i :: 0 <= i < |sample| ==> 0 <= sample[i] < rows * columns
      ensures Valid()
      ensures this.rows == rows && this.columns == columns && this.mineCount == mineCount
      ensures (|sample| == 0 || columns > 0) && mineLocations == SampledLocations(sample, columns)
      ensures forall r, c {:trigger grid[r, c]} :: 0 <= r < rows && 0 <= c < columns ==>
                grid[r, c] == Cell(false, (r, c) in Mines(), false, MineNeighbours((r, c)))
      ensures revealedCellCount == 0 && gameOutcome == Inconclusive
      ensures unusedFlagCount == mineCount && prevMoves == []
      ensures fresh(grid)
    {
      this.rows := rows;
      this.columns := columns;
      this.mineCount := mineCount;
      revealedCellCount := 0;
      gameOutcome := Inconclusive;
      unusedFlagCount := mineCount;
      prevMoves := [];
      SampledLocationsOnGrid(sample, rows, columns);
      mineLocations := SampledLocations(sample, columns);
      grid := new Cell[rows, columns]((r, c) => Cell(false, false, false, 0));
      new;
      PlaceMines();
      CountSurroundingMines();
      revealedCells, flaggedCells := {}, {};
      assert CellsMatch();
      assert !MineShowing();
      assert Layout();
      assert Tally();
      assert OutcomeMatches();
      assert MovesOnGrid();
    }

    /** Sets the mine field of every sampled location. */
    method PlaceMines()
      requires grid.Length0 == rows && grid.Length1 == columns
      requires forall i :: 0 <= i < |mineLocations| ==> InBounds(rows, columns, mineLocations[i])
      requires forall r, c {:trigger grid[r, c]} :: 0 <= r < rows && 0 <= c < columns ==> grid[r, c] == Cell(false, false, false, 0)
      modifies grid
      ensures forall r, c {:trigger grid[r, c]} :: 0 <= r < rows && 0 <= c < columns ==>
                grid[r, c] == Cell(false, (r, c) in Mines(), false, 0)
    {
      for i := 0 to |mineLocations|
        invariant forall r, c {:trigger grid[r, c]} :: 0 <= r < rows && 0 <= c < columns ==>
                    grid[r, c] == Cell(false, (r, c) in mineLocations[..i], false, 0)
      {
        var (r, c) := mineLocations[i];
        grid[r, c] := grid[r, c].(mine := true);
      }
      assert mineLocations[..|mineLocations|] == mineLocations;
    }

    /** Fills in every cell's surrounding count by looking at each of its neighbours. */
    method CountSurroundingMines()
      requires grid.Length0 == rows && grid.Length1 == columns
      requires forall r, c {:trigger grid[r, c]} :: 0 <= r < rows && 0 <= c < columns ==>
                 grid[r, c] == Cell(false, (r, c) in Mines(), false, 0)
      modifies grid
      ensures forall r, c {:trigger grid[r, c]} :: 0 <= r < rows && 0 <= c < columns ==>
                grid[r, c] == Cell(false, (r, c) in Mines(), false, MineNeighbours((r, c)))
    {
      for r := 0 to rows
        invariant forall r', c' {:trigger grid[r', c']} :: 0 <= r' < rows && 0 <= c' < columns ==>
                    grid[r', c'] == Cell(false, (r', c') in Mines(), false, if r' < r then MineNeighbours((r', c')) else 0)
      {
        for c := 0 to columns
          invariant forall r', c' {:trigger grid[r', c']} :: 0 <= r' < rows && 0 <= c' < columns ==>
                      grid[r', c'] == Cell(false, (r', c') in Mines(), false,
                                           if r' < r || (r' == r && c' < c) then MineNeighbours((r', c')) else 0)
        {
          CountAround(r, c);
        }
      }
    }

    /** Counts the mines around one cell into its surrounding count. */
    method CountAround(r: int, c: int)
      requires grid.Length0 == rows && grid.Length1 == columns && InBounds(rows, columns, (r, c))
      requires forall r', c' {:trigger grid[r', c']} :: 0 <= r' < rows && 0 <= c' < columns ==> grid[r', c'].mine == ((r', c') in Mines())
      requires grid[r, c].surroundingCount == 0
      modifies grid
      ensures grid[r, c] == old(grid[r, c]).(surroundingCount := MineNeighbours((r, c)))
      ensures forall r', c' {:trigger grid[r', c']} :: 0 <= r' < rows && 0 <= c' < columns && (r', c') != (r, c) ==>
                grid[r', c'] == old(grid[r', c'])
    {
      var around := Surrounding(rows, columns, (r, c));
      SurroundingFacts(rows, columns, (r, c));
      for k := 0 to |around|
        invariant forall r', c' {:trigger grid[r', c']} :: 0 <= r' < rows && 0 <= c' < columns && (r', c') != (r, c) ==>
                    grid[r', c'] == old(grid[r', c'])
        invariant grid[r, c] == old(grid[r, c]).(surroundingCount := CountIn(around[..k], Mines()))
      {
        assert around[k] in around;
        var (r2, c2) := around[k];
        assert around[..k + 1][..k] == around[..k];
        if grid[r2, c2].mine {
          grid[r, c] := grid[r, c].(surroundingCount := grid[r, c].surroundingCount + 1);
        }
      }
      assert around[..|around|] == around;
      MineNeighboursCounted((r, c));
    }

    function IsRevealed(row: int, column: int): bool
      reads grid
      requires InBounds(grid.Length0, grid.Length1, (row, column))
    {
      grid[row, column].revealed
    }

    function IsFlagged(row: int, column: int): bool
      reads grid
      requires InBounds(grid.Length0, grid.Length1, (row, column))
    {
      grid[row, column].flagged
    }

    /** The number a player sees on a cell: hidden (0) while the game is on and the cell is covered. */
    function GetSurroundingCount(row: int, column: int): (n: int)
      reads this, grid
      requires Valid() && InBounds(rows, columns, (row, column))
      ensures 0 <= n <= 8
      ensures grid[row, column].revealed ==> n == MineNeighbours((row, column))
      ensures gameOutcome == Inconclusive && !grid[row, column].revealed ==> n == 0
    {
      MineNeighboursCounted((row, column));
      if grid[row, column].revealed || gameOutcome != Inconclusive then grid[row, column].surroundingCount else 0
    }

    /** Whether a cell is a mine, as far as a player may know: never for a covered cell while the game is on. */
    function IsMine(row: int, column: int): (m: bool)
      reads this, grid
      requires Valid() && InBounds(rows, columns, (row, column))
      ensures m ==> (row, column) in Mines()
      ensures grid[row, column].revealed ==> (m <==> (row, column) in Mines())
      ensures gameOutcome == Inconclusive && !grid[row, column].revealed ==> !m
    {
      if grid[row, column].revealed || gameOutcome != Inconclusive then grid[row, column].mine else false
    }

    /** A number cell: shown, not a mine, with mines around it; unless flagged neighbours are
        allowed, it must also touch some cell that is neither flagged nor shown. */
    ghost predicate NumberCell(p: Pos, includeFlagNeighbours: bool)
      reads this`revealedCells, this`flaggedCells
    {
      && InBounds(rows, columns, p) && p in revealedCells && p !in Mines() && MineNeighbours(p) > 0
      && (includeFlagNeighbours || OpenAround(p))
    }

    /** Some neighbour of p on the grid is neither flagged nor shown. */
    ghost predicate OpenAround(p: Pos)
      reads this`revealedCells, this`flaggedCells
    {
      exists q :: InBounds(rows, columns, q) && Adjacent(p, q) && q !in flaggedCells && q !in revealedCells
    }

    /** Looks through the neighbours of a cell for one that is neither flagged nor shown. */
    method HasOpenNeighbour(row: int, column: int) returns (open: bool)
      requires CellsMatch() && InBounds(rows, columns, (row, column))
      ensures open <==> OpenAround((row, column))
    {
      var around := Surrounding(rows, columns, (row, column));
      SurroundingFacts(rows, columns, (row, column));
      assert forall m :: 0 <= m < |around| ==> around[m] in around;
      open := false;
      var k := 0;
      while k < |around|
        invariant k <= |around|
        invariant forall m :: 0 <= m < k ==> around[m] in flaggedCells || around[m] in revealedCells
      {
        var (r2, c2) := around[k];
        if !grid[r2, c2].flagged && !grid[r2, c2].revealed {
          open := true;
          assert around[k] !in flaggedCells && around[k] !in revealedCells;
          break;
        }
        k := k + 1;
      }
      if !open {
        forall q | InBounds(rows, columns, q) && Adjacent((row, column), q) ensures q in flaggedCells || q in revealedCells {
          var m :| 0 <= m < |around| && around[m] == q;
        }
      }
    }

    /** The number cells, each once, in row-major order. */
    method RevealedNumberCells(includeFlagNeighbours: bool) returns (cells: seq<Pos>)
      requires CellsMatch()
      ensures Distinct(cells)
      ensures forall p :: p in cells <==> NumberCell(p, includeFlagNeighbours)
    {
      cells := [];
      var found: set<Pos> := {};
      for r := 0 to rows
        invariant (forall p :: p in found <==> p in cells) && |found| == |cells|
        invariant forall p :: p in cells <==> NumberCell(p, includeFlagNeighbours) && p.0 < r
      {
        cells, found := NumberCellsInRow(r, includeFlagNeighbours, cells, found);
      }
      assert Elems(cells) == found;
      DistinctCard(cells);
    }

    /** Scans row r for number cells, appending each to the ones found in earlier rows. */
    method NumberCellsInRow(r: int, includeFlagNeighbours: bool, cells: seq<Pos>, found: set<Pos>)
      returns (cells': seq<Pos>, found': set<Pos>)
      requires CellsMatch() && 0 <= r < rows
      requires (forall p :: p in found <==> p in cells) && |found| == |cells|
      requires forall p :: p in cells <==> NumberCell(p, includeFlagNeighbours) && p.0 < r
      ensures (forall p :: p in found' <==> p in cells') && |found'| == |cells'|
      ensures forall p :: p in cells' <==> NumberCell(p, includeFlagNeighbours) && p.0 < r + 1
    {
      cells', found' := cells, found;
      for c := 0 to columns
        invariant (forall p :: p in found' <==> p in cells') && |found'| == |cells'|
        invariant forall p :: p in cells' <==> NumberCell(p, includeFlagNeighbours) && RowMajorBefore(p, r, c)
      {
        var keep := IsNumberCellAt(r, c, includeFlagNeighbours);
        ghost var before := cells';
        if keep {
          cells', found' := cells' + [(r, c)], found' + {(r, c)};
        }
        NumberScanStep(before, cells', r, c, includeFlagNeighbours);
      }
    }

    /** One step of the row-major number-cell scan keeps exactly the number cells seen so far. */
    lemma NumberScanStep(cells: seq<Pos>, cells': seq<Pos>, r: int, c: int, includeFlagNeighbours: bool)
      requires forall p :: p in cells <==> NumberCell(p, includeFlagNeighbours) && RowMajorBefore(p, r, c)
      requires cells' == if NumberCell((r, c), includeFlagNeighbours) then cells + [(r, c)] else cells
      ensures forall p :: p in cells' <==> NumberCell(p, includeFlagNeighbours) && RowMajorBefore(p, r, c + 1)
    {
    }

    /** The test the number-cell scan applies to one cell. */
    method IsNumberCellAt(r: int, c: int, includeFlagNeighbours: bool) returns (keep: bool)
      requires CellsMatch() && InBounds(rows, columns, (r, c))
      ensures keep <==> NumberCell((r, c), includeFlagNeighbours)
    {
      keep := false;
      if grid[r, c].revealed && grid[r, c].surroundingCount > 0 && !grid[r, c].mine {
        keep := includeFlagNeighbours;
        if !keep {
          keep := HasOpenNeighbour(r, c);
        }
      }
    }

    /** A border cell: on the grid, covered, unflagged unless flagged cells are allowed, and next
        to a shown cell that is not a mine. */
    ghost predicate BorderCell(q: Pos, includeFlagged: bool)
      reads this`revealedCells, this`flaggedCells
    {
      BorderFrom(q, includeFlagged, (rows, 0))
    }

    /** A border cell by virtue of a shown non-mine neighbour that comes before at in row-major order. */
    ghost predicate BorderFrom(q: Pos, includeFlagged: bool, at: Pos)
      reads this`revealedCells, this`flaggedCells
    {
      && InBounds(rows, columns, q) && q !in revealedCells && (includeFlagged || q !in flaggedCells)
      && exists n :: && InBounds(rows, columns, n) && (n.0 < at.0 || (n.0 == at.0 && n.1 < at.1))
                     && Adjacent(n, q) && n in revealedCells && n !in Mines()
    }

    /** The border cells, each once, in the order the row-major scan of their shown neighbours
        first reaches them. */
    method UnrevealedBorderCells(includeFlagged: bool) returns (cells: seq<Pos>)
      requires CellsMatch()
      ensures Distinct(cells)
      ensures forall q :: q in cells <==> BorderCell(q, includeFlagged)
    {
      cells := [];
      var seen: set<Pos> := {};
      for r := 0 to rows
        invariant (forall q :: q in seen <==> q in cells) && |seen| == |cells|
        invariant forall q :: q in cells <==> BorderFrom(q, includeFlagged, (r, 0))
      {
        for c := 0 to columns
          invariant (forall q :: q in seen <==> q in cells) && |seen| == |cells|
          invariant forall q :: q in cells <==> BorderFrom(q, includeFlagged, (r, c))
        {
          ghost var before := cells;
          if grid[r, c].revealed && !grid[r, c].mine {
            cells, seen := AddBorderNeighbours((r, c), includeFlagged, cells, seen);
          }
          BorderAdvance((r, c), includeFlagged, before, cells);
        }
        forall q ensures BorderFrom(q, includeFlagged, (r, columns)) <==> BorderFrom(q, includeFlagged, (r + 1, 0)) {
          if BorderFrom(q, includeFlagged, (r + 1, 0)) {
            var n :| && InBounds(rows, columns, n) && (n.0 < r + 1 || (n.0 == r + 1 && n.1 < 0))
                     && Adjacent(n, q) && n in revealedCells && n !in Mines();
            assert n.0 < r || (n.0 == r && n.1 < columns);
          }
        }
      }
      assert Elems(cells) == seen;
      DistinctCard(cells);
    }

    /** Moving the scan past cell n adds exactly the border cells n vouches for. */
    lemma BorderAdvance(n: Pos, includeFlagged: bool, before: seq<Pos>, after: seq<Pos>)
      requires InBounds(rows, columns, n)
      requires forall q :: q in before <==> BorderFrom(q, includeFlagged, n)
      requires forall q :: q in after <==> (q in before ||
                 (n in revealedCells && n !in Mines() && InBounds(rows, columns, q) && Adjacent(n, q)
                  && q !in revealedCells && (includeFlagged || q !in flaggedCells)))
      ensures forall q :: q in after <==> BorderFrom(q, includeFlagged, (n.0, n.1 + 1))
    {
      forall q ensures q in after <==> BorderFrom(q, includeFlagged, (n.0, n.1 + 1)) {
        if BorderFrom(q, includeFlagged, (n.0, n.1 + 1)) && !BorderFrom(q, includeFlagged, n) {
          var m :| && InBounds(rows, columns, m) && (m.0 < n.0 || (m.0 == n.0 && m.1 < n.1 + 1))
                   && Adjacent(m, q) && m in revealedCells && m !in Mines();
          assert m == n;
        }
      }
    }

    /** Appends, in neighbourhood order, every neighbour of n that is covered, unflagged unless
        flagged cells are allowed, and not seen yet. */
    method AddBorderNeighbours(n: Pos, includeFlagged: bool, cells: seq<Pos>, seen: set<Pos>) returns (cells': seq<Pos>, seen': set<Pos>)
      requires CellsMatch() && InBounds(rows, columns, n)
      requires (forall q :: q in seen <==> q in cells) && |seen| == |cells|
      ensures (forall q :: q in seen' <==> q in cells') && |seen'| == |cells'|
      ensures |cells'| >= |cells| && cells'[..|cells|] == cells
      ensures forall q :: q in cells' <==> (q in cells ||
                (InBounds(rows, columns, q) && Adjacent(n, q) && q !in revealedCells && (includeFlagged || q !in flaggedCells)))
    {
      var around := Surrounding(rows, columns, n);
      SurroundingFacts(rows, columns, n);
      assert forall m :: 0 <= m < |around| ==> around[m] in around;
      cells', seen' := cells, seen;
      for k := 0 to |around|
        invariant (forall q :: q in seen' <==> q in cells') && |seen'| == |cells'|
        invariant |cells'| >= |cells| && cells'[..|cells|] == cells
        invariant forall q :: q in cells' <==> (q in cells ||
                    (q in around[..k] && q !in revealedCells && (includeFlagged || q !in flaggedCells)))
      {
        var (r2, c2) := around[k];
        assert around[..k + 1] == around[..k] + [around[k]];
        if (includeFlagged || !grid[r2, c2].flagged) && !grid[r2, c2].revealed && around[k] !in seen' {
          cells', seen' := cells' + [around[k]], seen' + {around[k]};
        }
      }
      assert around[..|around|] == around;
    }

    /** A nonborder cell: on the grid, covered, unflagged unless flagged cells are allowed, and not
        a border cell even counting flagged ones. */
    ghost predicate NonborderCell(p: Pos, includeFlagged: bool)
      reads this`revealedCells, this`flaggedCells
    {
      InBounds(rows, columns, p) && p !in revealedCells && (includeFlagged || p !in flaggedCells) && !BorderCell(p, true)
    }

    /** The nonborder cells, each once, in row-major order. */
    method UnrevealedNonborderCells(includeFlagged: bool) returns (cells: seq<Pos>)
      requires CellsMatch()
      ensures Distinct(cells)
      ensures forall p :: p in cells <==> NonborderCell(p, includeFlagged)
    {
      var border := UnrevealedBorderCells(true);
      var borderSet := set q | q in border;
      cells := [];
      var found: set<Pos> := {};
      for r := 0 to rows
        invariant (forall p :: p in found <==> p in cells) && |found| == |cells|
        invariant forall p :: p in cells <==> NonborderCell(p, includeFlagged) && p.0 < r
      {
        cells, found := NonborderCellsInRow(r, includeFlagged, borderSet, cells, found);
      }
      assert Elems(cells) == found;
      DistinctCard(cells);
    }

    /** Scans row r for covered cells outside the border set, appending each to the ones found in earlier rows. */
    method NonborderCellsInRow(r: int, includeFlagged: bool, borderSet: set<Pos>, cells: seq<Pos>, found: set<Pos>)
      returns (cells': seq<Pos>, found': set<Pos>)
      requires CellsMatch() && 0 <= r < rows
      requires forall q :: q in borderSet <==> BorderCell(q, true)
      requires (forall p :: p in found <==> p in cells) && |found| == |cells|
      requires forall p :: p in cells <==> NonborderCell(p, includeFlagged) && p.0 < r
      ensures (forall p :: p in found' <==> p in cells') && |found'| == |cells'|
      ensures forall p :: p in cells' <==> NonborderCell(p, includeFlagged) && p.0 < r + 1
    {
      cells', found' := cells, found;
      for c := 0 to columns
        invariant (forall p :: p in found' <==> p in cells') && |found'| == |cells'|
        invariant forall p :: p in cells' <==> NonborderCell(p, includeFlagged) && RowMajorBefore(p, r, c)
      {
        var keep := IsNonborderAt(r, c, includeFlagged, borderSet);
        ghost var before := cells';
        if keep {
          cells', found' := cells' + [(r, c)], found' + {(r, c)};
        }
        NonborderScanStep(before, cells', r, c, includeFlagged);
      }
    }

    /** One step of the row-major nonborder scan keeps exactly the nonborder cells seen so far. */
    lemma NonborderScanStep(cells: seq<Pos>, cells': seq<Pos>, r: int, c: int, includeFlagged: bool)
      requires forall p :: p in cells <==> NonborderCell(p, includeFlagged) && RowMajorBefore(p, r, c)
      requires cells' == if NonborderCell((r, c), includeFlagged) then cells + [(r, c)] else cells
      ensures forall p :: p in cells' <==> NonborderCell(p, includeFlagged) && RowMajorBefore(p, r, c + 1)
    {
    }

    /** The test the nonborder scan applies to one cell, given the flagged-inclusive border cells. */
    method IsNonborderAt(r: int, c: int, includeFlagged: bool, borderSet: set<Pos>) returns (keep: bool)
      requires CellsMatch() && InBounds(rows, columns, (r, c))
      requires forall q :: q in borderSet <==> BorderCell(q, true)
      ensures keep <==> NonborderCell((r, c), includeFlagged)
    {
      keep := !grid[r, c].revealed && (includeFlagged || !grid[r, c].flagged) && (r, c) !in borderSet;
    }

    /** Every covered cell on the grid is a border cell (flagged ones included) or a nonborder
        cell, never both; so border cells without flags and nonborder cells never meet. */
    lemma BorderSplit(p: Pos, includeFlagged: bool)
      requires InBounds(rows, columns, p) && p !in revealedCells && (includeFlagged || p !in flaggedCells)
      ensures BorderCell(p, true) != NonborderCell(p, includeFlagged)
      ensures !(BorderCell(p, false) && NonborderCell(p, includeFlagged))
    {
    }

    /** Reveals one covered cell while the game is on, taking off its flag; revealing a mine
        loses, revealing the last safe cell wins. Reports whether anything happened. The flag
        comes off before the cell is shown, which ends in the same state as the other order. */
    method SingleReveal(row: int, column: int) returns (acted: bool)
      requires Valid() && InBounds(rows, columns, (row, column))
      modifies this`revealedCellCount, this`gameOutcome, this`unusedFlagCount, this`revealedCells, this`flaggedCells, grid
      ensures Valid()
      ensures acted == (!old(grid[row, column].revealed) && old(gameOutcome) == Inconclusive)
      ensures grid[row, column] == if acted then old(grid[row, column]).(revealed := true, flagged := false)
                                   else old(grid[row, column])
      ensures forall r, c {:trigger grid[r, c]} :: 0 <= r < rows && 0 <= c < columns && (r, c) != (row, column) ==>
                grid[r, c] == old(grid[r, c])
      ensures revealedCells == if acted then old(revealedCells) + {(row, column)} else old(revealedCells)
      ensures forall q :: q in flaggedCells <==> q in old(flaggedCells) && !(acted && q == (row, column))
      ensures revealedCellCount == old(revealedCellCount) + (if acted then 1 else 0)
      ensures unusedFlagCount == old(unusedFlagCount) + (if acted && old(grid[row, column].flagged) then 1 else 0)
      ensures gameOutcome == if !acted then old(gameOutcome)
                             else if (row, column) in Mines() then Loss
                             else if revealedCellCount == rows * columns - mineCount then Win
                             else Inconclusive
    {
      acted := false;
      if !grid[row, column].revealed && gameOutcome == Inconclusive {
        Unflag(row, column);
        Uncover(row, column);
        if grid[row, column].mine {
          gameOutcome := Loss;
          ghost var i :| 0 <= i < |mineLocations| && mineLocations[i] == (row, column);
        } else if revealedCellCount == rows * columns - mineCount {
          gameOutcome := Win;
        } else {
          gameOutcome := Inconclusive;
        }
        acted := true;
      }
    }

    /** Covers one revealed cell again. A win is undone; a loss stands only while some mine is still showing. */
    method SingleUnreveal(row: int, column: int) returns (acted: bool)
      requires Valid() && InBounds(rows, columns, (row, column))
      modifies this`revealedCellCount, this`gameOutcome, this`revealedCells, grid
      ensures Valid()
      ensures acted == old(grid[row, column].revealed)
      ensures grid[row, column] == old(grid[row, column]).(revealed := false)
      ensures forall r, c {:trigger grid[r, c]} :: 0 <= r < rows && 0 <= c < columns && (r, c) != (row, column) ==>
                grid[r, c] == old(grid[r, c])
      ensures forall q :: q in revealedCells <==> q in old(revealedCells) && q != (row, column)
      ensures revealedCellCount == old(revealedCellCount) - (if acted then 1 else 0)
      ensures gameOutcome == if acted && old(gameOutcome) == Win then Inconclusive
                             else if old(gameOutcome) == Loss && !MineShowing() then Inconclusive
                             else old(gameOutcome)
    {
      acted := false;
      if grid[row, column].revealed {
        Cover(row, column);
        if gameOutcome == Win {
          gameOutcome := Inconclusive;
        } else if gameOutcome == Loss {
          var lost := false;
          var i := 0;
          while i < |mineLocations|
            invariant 0 <= i <= |mineLocations|
            invariant forall j :: 0 <= j < i ==> mineLocations[j] !in revealedCells
          {
            var (r, c) := mineLocations[i];
            if grid[r, c].revealed && grid[r, c].mine {
              lost := true;
              break;
            }
            i := i + 1;
          }
          if !lost {
            gameOutcome := Inconclusive;
          }
        }
        acted := true;
      }
    }

    /** Shows one covered, unflagged cell and counts it; the outcome is left for the caller. */
    method Uncover(row: int, column: int)
      requires Valid() && InBounds(rows, columns, (row, column))
      requires !grid[row, column].revealed && !grid[row, column].flagged
      modifies this`revealedCellCount, this`revealedCells, grid
      ensures Layout() && CellsMatch() && Tally() && MovesOnGrid()
      ensures grid[row, column] == old(grid[row, column]).(revealed := true)
      ensures forall r, c {:trigger grid[r, c]} :: 0 <= r < rows && 0 <= c < columns && (r, c) != (row, column) ==>
                grid[r, c] == old(grid[r, c])
      ensures revealedCells == old(revealedCells) + {(row, column)}
      ensures revealedCellCount == old(revealedCellCount) + 1
    {
      grid[row, column] := grid[row, column].(revealed := true);
      revealedCells := revealedCells + {(row, column)};
      revealedCellCount := revealedCellCount + 1;
      assert Tally();
      assert CellsMatch();
    }

    /** Hides one shown cell and takes it off the revealed counter; the outcome is left for the caller. */
    method Cover(row: int, column: int)
      requires Valid() && InBounds(rows, columns, (row, column)) && grid[row, column].revealed
      modifies this`revealedCellCount, this`revealedCells, grid
      ensures Layout() && CellsMatch() && Tally() && MovesOnGrid()
      ensures grid[row, column] == old(grid[row, column]).(revealed := false)
      ensures forall r, c {:trigger grid[r, c]} :: 0 <= r < rows && 0 <= c < columns && (r, c) != (row, column) ==>
                grid[r, c] == old(grid[r, c])
      ensures forall q :: q in revealedCells <==> q in old(revealedCells) && q != (row, column)
      ensures revealedCellCount == old(revealedCellCount) - 1
    {
      CardRemove(revealedCells, (row, column));
      grid[row, column] := grid[row, column].(revealed := false);
      revealedCellCount := revealedCellCount - 1;
      revealedCells := revealedCells - {(row, column)};
      assert Tally();
      assert CellsMatch();
    }

    /** Pops the latest reveal move, if any, and covers again every cell it revealed. */
    method UndoReveal()
      requires Valid()
      modifies this`prevMoves, this`revealedCellCount, this`gameOutcome, this`revealedCells, grid
      ensures Valid()
      ensures old(prevMoves) == [] ==>
                && prevMoves == [] && revealedCells == old(revealedCells) && gameOutcome == old(gameOutcome)
                && forall r, c {:trigger grid[r, c]} :: 0 <= r < rows && 0 <= c < columns ==> grid[r, c] == old(grid[r, c])
      ensures old(prevMoves) != [] ==>
                var move := old(prevMoves)[|old(prevMoves)| - 1];
                && prevMoves == old(prevMoves)[..|old(prevMoves)| - 1]
                && (forall q :: q in revealedCells <==> q in old(revealedCells) && q !in move)
                && (forall r, c {:trigger grid[r, c]} :: 0 <= r < rows && 0 <= c < columns ==>
                      grid[r, c] == if (r, c) in move then old(grid[r, c]).(revealed := false) else old(grid[r, c]))
                && gameOutcome == if old(gameOutcome) == Loss && !MineShowing() then Inconclusive
                                  else if old(gameOutcome) == Win && exists j :: 0 <= j < |move| && move[j] in old(revealedCells)
                                  then Inconclusive
                                  else old(gameOutcome)
    {
      if prevMoves != [] {
        var move := prevMoves[|prevMoves| - 1];
        assert forall j :: 0 <= j < |move| ==> InBounds(rows, columns, move[j]) by {
          assert MovesOnGrid();
        }
        prevMoves := prevMoves[..|prevMoves| - 1];
        UnrevealAll(move);
      }
    }

    /** Covers again, in order, every cell of a move. */
    method UnrevealAll(move: seq<Pos>)
      requires Valid()
      requires forall j :: 0 <= j < |move| ==> InBounds(rows, columns, move[j])
      modifies this`revealedCellCount, this`gameOutcome, this`revealedCells, grid
      ensures Valid()
      ensures forall q :: q in revealedCells <==> q in old(revealedCells) && q !in move
      ensures forall r, c {:trigger grid[r, c]} :: 0 <= r < rows && 0 <= c < columns ==>
                grid[r, c] == if (r, c) in move then old(grid[r, c]).(revealed := false) else old(grid[r, c])
      ensures gameOutcome == if old(gameOutcome) == Loss && !MineShowing() then Inconclusive
                             else if old(gameOutcome) == Win && exists j :: 0 <= j < |move| && move[j] in old(revealedCells)
                             then Inconclusive
                             else old(gameOutcome)
    {
      ghost var covered: set<Pos> := {};
      ghost var coveredShown := false;
      for k := 0 to |move|
        invariant Valid()
        invariant forall q :: q in covered <==> q in move[..k]
        invariant coveredShown <==> exists j :: 0 <= j < k && move[j] in old(revealedCells)
        invariant forall q :: q in revealedCells <==> q in old(revealedCells) && q !in covered
        invariant forall r, c {:trigger grid[r, c]} :: 0 <= r < rows && 0 <= c < columns ==>
                    grid[r, c] == if (r, c) in covered then old(grid[r, c]).(revealed := false) else old(grid[r, c])
        invariant old(gameOutcome) == Inconclusive ==> gameOutcome == Inconclusive
        invariant old(gameOutcome) == Loss ==> gameOutcome != Win
        invariant old(gameOutcome) == Win ==> gameOutcome == if coveredShown then Inconclusive else Win
      {
        var (r, c) := move[k];
        coveredShown := coveredShown || move[k] in revealedCells;
        var _ := SingleUnreveal(r, c);
        covered := covered + {move[k]};
        assert move[..k + 1] == move[..k] + [move[k]];
      }
      assert move[..|move|] == move;
    }

    /** Reveals from the given cell outwards: every zero-count cell reached has its covered
        neighbours queued behind it, each cell at most once, and the whole list of cells tried
        becomes one undoable move. Cells already queued stay queued, so the walk ends even when
        the game is already over. */
    method ChainReveal(row: int, column: int)
      requires Valid() && InBounds(rows, columns, (row, column))
      modifies this`prevMoves, this`revealedCellCount, this`gameOutcome, this`unusedFlagCount, this`revealedCells, this`flaggedCells, grid
      ensures Valid()
      ensures |prevMoves| == |old(prevMoves)| + 1 && prevMoves[..|old(prevMoves)|] == old(prevMoves)
      ensures FloodFill(prevMoves[|prevMoves| - 1], (row, column), old(revealedCells), old(gameOutcome), revealedCells, gameOutcome)
      ensures forall q :: q in flaggedCells <==> q in old(flaggedCells) && q !in revealedCells
    {
      var move := ChainWalk(row, column);
      prevMoves := prevMoves + [move];
    }

    /** What a chain reveal from start does, given what showed (shown0) and the outcome (outcome0)
        before it and what shows (shown) and the outcome after it: the move lists start first and
        no cell twice; every later cell was covered, is not a mine and neighbours an earlier
        zero-count cell; every neighbour of a zero-count cell in the move is in the move or
        showing. Nothing changes once the game is over; a game lost on the way was lost on start,
        a mine, and nothing else shows; otherwise exactly the cells of the move are added. A
        chain that shows nothing leaves the game on; one that shows some cell and does not lose
        wins exactly when every safe cell then shows. */
    ghost predicate FloodFill(move: seq<Pos>, start: Pos, shown0: set<Pos>, outcome0: GameOutcome,
                              shown: set<Pos>, outcome: GameOutcome)
    {
      && |move| >= 1 && move[0] == start && Distinct(move)
      && (forall j :: 0 <= j < |move| ==> InBounds(rows, columns, move[j]))
      && (forall j :: 1 <= j < |move| ==>
            && move[j] !in shown0 && move[j] !in Mines()
            && exists i :: 0 <= i < j && Adjacent(move[i], move[j]) && MineNeighbours(move[i]) == 0)
      && (forall j, q {:trigger Adjacent(move[j], q)} ::
            0 <= j < |move| && MineNeighbours(move[j]) == 0 && InBounds(rows, columns, q) && Adjacent(move[j], q) ==>
            q in move || q in shown)
      && (outcome0 != Inconclusive ==> shown == shown0 && outcome == outcome0)
      && (outcome0 == Inconclusive && outcome == Loss ==> start in Mines() && shown == shown0 + {start})
      && (outcome0 == Inconclusive && outcome != Loss ==> shown == shown0 + Elems(move))
      && (outcome0 == Inconclusive && shown == shown0 ==> outcome == Inconclusive)
      && (outcome0 == Inconclusive && outcome != Loss && shown != shown0 ==>
            (outcome == Win <==> |shown| == rows * columns - mineCount))
    }

    /** The walk behind a chain reveal: tries the worklist cells in order until none is left. */
    method ChainWalk(row: int, column: int) returns (list: seq<Pos>)
      requires Valid() && InBounds(rows, columns, (row, column))
      modifies this`revealedCellCount, this`gameOutcome, this`unusedFlagCount, this`revealedCells, this`flaggedCells, grid
      ensures Valid()
      ensures FloodFill(list, (row, column), old(revealedCells), old(gameOutcome), revealedCells, gameOutcome)
      ensures forall q :: q in flaggedCells <==> q in old(flaggedCells) && q !in revealedCells
    {
      list := [(row, column)];
      var queued := {(row, column)};
      ghost var parent: seq<nat> := [0];
      forall q | q in flaggedCells ensures q !in revealedCells {
        assert grid[q.0, q.1].flagged;
      }
      list, queued, parent := RunWorklist(list, queued, parent, (row, column), old(revealedCells), old(flaggedCells), old(gameOutcome));
      WalkDone(list, parent, queued, (row, column), old(revealedCells), old(gameOutcome), revealedCells, revealedCellCount, gameOutcome);
    }

    /** Tries the worklist cells in order, from the first, until none is left. */
    method RunWorklist(list: seq<Pos>, queued: set<Pos>, ghost parent: seq<nat>, ghost start: Pos,
                       ghost shown0: set<Pos>, ghost flagged0: set<Pos>, ghost outcome0: GameOutcome)
      returns (list': seq<Pos>, queued': set<Pos>, ghost parent': seq<nat>)
      requires Valid() && Worklist(list, parent, start, shown0)
      requires (forall q :: q in queued <==> q in list) && |queued| == |list|
      requires forall q :: q in flaggedCells <==> q in flagged0 && q !in revealedCells
      requires ClosedBy(list, 0, revealedCells) && ShownBy(list, 0, start, shown0, outcome0, revealedCells, gameOutcome)
      requires Settled(shown0, outcome0, revealedCells, revealedCellCount, gameOutcome)
      modifies this`revealedCellCount, this`gameOutcome, this`unusedFlagCount, this`revealedCells, this`flaggedCells, grid
      ensures Valid() && Worklist(list', parent', start, shown0)
      ensures (forall q :: q in queued' <==> q in list') && |queued'| == |list'|
      ensures forall q :: q in flaggedCells <==> q in flagged0 && q !in revealedCells
      ensures ClosedBy(list', |list'|, revealedCells) && ShownBy(list', |list'|, start, shown0, outcome0, revealedCells, gameOutcome)
      ensures Settled(shown0, outcome0, revealedCells, revealedCellCount, gameOutcome)
    {
      list', queued', parent' := list, queued, parent;
      var i := 0;
      while i < |list'|
        invariant Valid()
        invariant i <= |list'|
        invariant Worklist(list', parent', start, shown0)
        invariant (forall q :: q in queued' <==> q in list') && |queued'| == |list'|
        invariant forall q :: q in flaggedCells <==> q in flagged0 && q !in revealedCells
        invariant ClosedBy(list', i, revealedCells)
        invariant ShownBy(list', i, start, shown0, outcome0, revealedCells, gameOutcome)
        invariant Settled(shown0, outcome0, revealedCells, revealedCellCount, gameOutcome)
        decreases rows * columns - i
      {
        OnGridCard(queued', rows, columns);
        list', queued', parent' := ChainStep(list', queued', parent', i, start, shown0, flagged0, outcome0);
        i := i + 1;
      }
    }

    /** A worklist whose every cell has been tried, with count cells shown, is a flood fill. */
    lemma WalkDone(list: seq<Pos>, parent: seq<nat>, queued: set<Pos>, start: Pos, shown0: set<Pos>, outcome0: GameOutcome,
                   shown: set<Pos>, count: int, outcome: GameOutcome)
      requires Worklist(list, parent, start, shown0)
      requires (forall q :: q in queued <==> q in list) && |queued| == |list|
      requires ClosedBy(list, |list|, shown) && ShownBy(list, |list|, start, shown0, outcome0, shown, outcome)
      requires count == |shown| && Settled(shown0, outcome0, shown, count, outcome)
      ensures FloodFill(list, start, shown0, outcome0, shown, outcome)
    {
      assert list[..|list|] == list;
      assert Elems(list) == queued;
      DistinctCard(list);
      forall j | 1 <= j < |list| ensures exists i :: 0 <= i < j && Adjacent(list[i], list[j]) && MineNeighbours(list[i]) == 0 {
        var i := parent[j];
      }
    }

    /** Tries worklist cell i: reveals it if the game is still on and, when its mine count is
        zero, queues its covered neighbours that are not queued yet. */
    method ChainStep(list: seq<Pos>, queued: set<Pos>, ghost parent: seq<nat>, i: nat, ghost start: Pos,
                     ghost shown0: set<Pos>, ghost flagged0: set<Pos>, ghost outcome0: GameOutcome)
      returns (list': seq<Pos>, queued': set<Pos>, ghost parent': seq<nat>)
      requires Valid() && i < |list| && Worklist(list, parent, start, shown0)
      requires (forall q :: q in queued <==> q in list) && |queued| == |list|
      requires forall q :: q in flaggedCells <==> q in flagged0 && q !in revealedCells
      requires ClosedBy(list, i, revealedCells) && ShownBy(list, i, start, shown0, outcome0, revealedCells, gameOutcome)
      requires Settled(shown0, outcome0, revealedCells, revealedCellCount, gameOutcome)
      modifies this`revealedCellCount, this`gameOutcome, this`unusedFlagCount, this`revealedCells, this`flaggedCells, grid
      ensures Valid() && i < |list'| && Worklist(list', parent', start, shown0)
      ensures (forall q :: q in queued' <==> q in list') && |queued'| == |list'|
      ensures forall q :: q in flaggedCells <==> q in flagged0 && q !in revealedCells
      ensures ClosedBy(list', i + 1, revealedCells) && ShownBy(list', i + 1, start, shown0, outcome0, revealedCells, gameOutcome)
      ensures Settled(shown0, outcome0, revealedCells, revealedCellCount, gameOutcome)
    {
      TryCell(list, parent, i, start, shown0, flagged0, outcome0);
      var (r, c) := list[i];
      list', queued', parent' := list, queued, parent;
      if grid[r, c].surroundingCount == 0 {
        list', queued' := EnqueueNeighbours(list[i], list, queued);
        parent' := parent + seq(|list'| - |list|, _ => i);
        ChainGrown(list, list', parent, parent', i, start, shown0, outcome0, revealedCells, gameOutcome);
      } else {
        ClosedSkips(list, i, revealedCells);
      }
    }

    /** Reveals worklist cell i if it is covered and the game is on. */
    method TryCell(list: seq<Pos>, ghost parent: seq<nat>, i: nat, ghost start: Pos,
                   ghost shown0: set<Pos>, ghost flagged0: set<Pos>, ghost outcome0: GameOutcome)
      requires Valid() && i < |list| && Worklist(list, parent, start, shown0)
      requires forall q :: q in flaggedCells <==> q in flagged0 && q !in revealedCells
      requires ClosedBy(list, i, revealedCells) && ShownBy(list, i, start, shown0, outcome0, revealedCells, gameOutcome)
      requires Settled(shown0, outcome0, revealedCells, revealedCellCount, gameOutcome)
      modifies this`revealedCellCount, this`gameOutcome, this`unusedFlagCount, this`revealedCells, this`flaggedCells, grid
      ensures Valid()
      ensures forall q :: q in flaggedCells <==> q in flagged0 && q !in revealedCells
      ensures ClosedBy(list, i, revealedCells) && ShownBy(list, i + 1, start, shown0, outcome0, revealedCells, gameOutcome)
      ensures Settled(shown0, outcome0, revealedCells, revealedCellCount, gameOutcome)
    {
      var (r, c) := list[i];
      ghost var shown, count, outcome := revealedCells, revealedCellCount, gameOutcome;
      if gameOutcome == Win && list[i] !in Mines() {
        WinShowsSafeCells(list[i]);
      }
      var _ := SingleReveal(r, c);
      ShownStep(list, parent, i, start, shown0, outcome0, shown, outcome, revealedCells, gameOutcome);
      ClosedGrows(list, i, shown, revealedCells);
      SettledStep(shown0, outcome0, shown, count, outcome, list[i], revealedCells, revealedCellCount, gameOutcome);
    }

    /** The flood-fill worklist started at start while shown0 was showing: cells on the grid,
        start first, and every later cell a covered non-mine that neighbours an earlier
        zero-count cell, its parent. */
    ghost predicate Worklist(list: seq<Pos>, parent: seq<nat>, start: Pos, shown0: set<Pos>) {
      && |list| >= 1 && list[0] == start && |parent| == |list|
      && (forall j :: 0 <= j < |list| ==> InBounds(rows, columns, list[j]))
      && (forall j :: 1 <= j < |list| ==>
            && parent[j] < j && Adjacent(list[parent[j]], list[j]) && MineNeighbours(list[parent[j]]) == 0
            && list[j] !in shown0 && list[j] !in Mines())
    }

    /** Every neighbour of a zero-count cell among the first i tried is queued or showing. */
    ghost predicate ClosedBy(list: seq<Pos>, i: nat, shown: set<Pos>)
      requires i <= |list|
    {
      forall j, q {:trigger Adjacent(list[j], q)} :: 0 <= j < i && MineNeighbours(list[j]) == 0 && InBounds(rows, columns, q) && Adjacent(list[j], q) ==>
        q in list || q in shown
    }

    /** Closure survives more cells showing. */
    lemma ClosedGrows(list: seq<Pos>, i: nat, shown: set<Pos>, shown': set<Pos>)
      requires i <= |list| && ClosedBy(list, i, shown) && shown <= shown'
      ensures ClosedBy(list, i, shown')
    {
    }

    /** A tried cell with a non-zero count needs nothing queued to stay closed. */
    lemma ClosedSkips(list: seq<Pos>, i: nat, shown: set<Pos>)
      requires i < |list| && ClosedBy(list, i, shown) && MineNeighbours(list[i]) != 0
      ensures ClosedBy(list, i + 1, shown)
    {
    }

    /** What trying the first i cells of the worklist has shown, given the outcome when it began:
        nothing if the game was over; just the start cell, a mine, if the game was lost on the way
        (and then every later cell neighbours it); otherwise every cell tried. */
    ghost predicate ShownBy(list: seq<Pos>, i: nat, start: Pos, shown0: set<Pos>, outcome0: GameOutcome,
                            shown: set<Pos>, outcome: GameOutcome)
      requires i <= |list|
    {
      && (i == 0 ==> |list| == 1 && outcome == outcome0 && forall q :: q in shown <==> q in shown0)
      && (outcome0 != Inconclusive ==> outcome == outcome0 && forall q :: q in shown <==> q in shown0)
      && (outcome0 == Inconclusive && outcome == Loss ==>
            && 1 <= i && start in Mines() && (forall q :: q in shown <==> q in shown0 || q == start)
            && forall j :: 1 <= j < |list| ==> Adjacent(list[j], start))
      && (outcome0 == Inconclusive && outcome != Loss ==> forall q :: q in shown <==> q in shown0 || q in list[..i])
    }

    /** How a game that was on when shown0 showed stands once shown shows, count cells by the
        revealed counter: still on if nothing more shows; otherwise, unless lost, won exactly
        when the counter reaches the number of safe cells. */
    ghost predicate Settled(shown0: set<Pos>, outcome0: GameOutcome, shown: set<Pos>, count: int, outcome: GameOutcome) {
      && (outcome0 == Inconclusive && shown == shown0 ==> outcome == Inconclusive)
      && (outcome0 == Inconclusive && outcome != Loss && shown != shown0 ==>
            (outcome == Win <==> count == rows * columns - mineCount))
    }

    /** Revealing one more cell of a game still on, which then loses exactly when it is a mine
        and otherwise wins exactly when the counter reaches the number of safe cells, keeps the
        game settled; so does a step that shows nothing new and leaves counter and outcome. */
    lemma SettledStep(shown0: set<Pos>, outcome0: GameOutcome, shown: set<Pos>, count: int, outcome: GameOutcome,
                      q: Pos, shown': set<Pos>, count': int, outcome': GameOutcome)
      requires shown0 <= shown && Settled(shown0, outcome0, shown, count, outcome)
      requires var acted := q !in shown && outcome == Inconclusive;
               && shown' == (if acted then shown + {q} else shown)
               && (!acted ==> outcome' == outcome && count' == count)
               && (acted ==> (outcome' == Loss <==> q in Mines()))
               && (acted && q !in Mines() ==> (outcome' == Win <==> count' == rows * columns - mineCount))
      ensures Settled(shown0, outcome0, shown', count', outcome')
    {
    }

    /** Trying worklist cell i, which a single reveal shows exactly when it is covered and the
        game is on, and which loses exactly when it is a mine, extends what the chain has shown. */
    lemma ShownStep(list: seq<Pos>, parent: seq<nat>, i: nat, start: Pos, shown0: set<Pos>, outcome0: GameOutcome,
                    shown: set<Pos>, outcome: GameOutcome, shown': set<Pos>, outcome': GameOutcome)
      requires i < |list| && Worklist(list, parent, start, shown0)
      requires ShownBy(list, i, start, shown0, outcome0, shown, outcome)
      requires outcome == Win && list[i] !in Mines() ==> list[i] in shown
      requires var acted := list[i] !in shown && outcome == Inconclusive;
               && shown' == (if acted then shown + {list[i]} else shown)
               && (!acted ==> outcome' == outcome)
               && (acted ==> (outcome' == Loss <==> list[i] in Mines()))
      ensures ShownBy(list, i + 1, start, shown0, outcome0, shown', outcome')
    {
      assert list[..i + 1] == list[..i] + [list[i]];
      assert Elems(list[..i + 1]) == Elems(list[..i]) + {list[i]};
    }

    /** Queueing the covered neighbours of tried cell i, a zero-count cell, keeps the worklist's
        shape, closes cell i and leaves what the chain has shown unchanged. */
    lemma ChainGrown(list: seq<Pos>, list': seq<Pos>, parent: seq<nat>, parent': seq<nat>, i: nat, start: Pos,
                     shown0: set<Pos>, outcome0: GameOutcome, shown: set<Pos>, outcome: GameOutcome)
      requires i < |list| && Worklist(list, parent, start, shown0)
      requires ClosedBy(list, i, shown) && ShownBy(list, i + 1, start, shown0, outcome0, shown, outcome)
      requires MineNeighbours(list[i]) == 0
      requires |list'| >= |list| && list'[..|list|] == list
      requires forall j :: |list| <= j < |list'| ==>
                 InBounds(rows, columns, list'[j]) && Adjacent(list[i], list'[j]) && list'[j] !in shown
      requires forall q :: InBounds(rows, columns, q) && Adjacent(list[i], q) ==> q in list' || q in shown
      requires parent' == parent + seq(|list'| - |list|, _ => i)
      ensures Worklist(list', parent', start, shown0) && ClosedBy(list', i + 1, shown)
      ensures ShownBy(list', i + 1, start, shown0, outcome0, shown, outcome)
    {
      MineNeighboursZero(list[i]);
      assert shown0 <= shown;
      forall j | 0 <= j < |list| ensures list'[j] == list[j] {
        assert list'[..|list|][j] == list'[j];
      }
      forall j | 1 <= j < |list'|
        ensures && parent'[j] < j && Adjacent(list'[parent'[j]], list'[j]) && MineNeighbours(list'[parent'[j]]) == 0
                && list'[j] !in shown0 && list'[j] !in Mines()
      {
        if j < |list| {
          assert parent'[j] == parent[j];
        } else {
          assert parent'[j] == i;
        }
      }
      forall j, q | 0 <= j < i + 1 && MineNeighbours(list'[j]) == 0 && InBounds(rows, columns, q) && Adjacent(list'[j], q)
        ensures q in list' || q in shown
      {
        if j < i && q in list {
          var k :| 0 <= k < |list| && list[k] == q;
          assert list'[k] == q;
        }
      }
      assert list'[..i + 1] == list[..i + 1];
      if outcome0 == Inconclusive && outcome == Loss {
        forall j | 1 <= j < |list'| ensures Adjacent(list'[j], start) {
          if j >= |list| && i >= 1 {
            assert false;
          }
        }
      }
    }

    /** A cell's mine count is zero exactly when none of its neighbours on the grid is a mine. */
    lemma MineNeighboursZero(p: Pos)
      ensures MineNeighbours(p) == 0 <==> forall q :: InBounds(rows, columns, q) && Adjacent(p, q) ==> q !in Mines()
    {
      var near := MinesNear(rows, columns, Mines(), p);
      if MineNeighbours(p) == 0 {
        forall q | InBounds(rows, columns, q) && Adjacent(p, q) ensures q !in Mines() {
          assert q in Mines() ==> q in near;
        }
      } else {
        var q :| q in near;
      }
    }

    /** Appends, in neighbourhood order, every neighbour of p that is covered and not yet queued. */
    method EnqueueNeighbours(p: Pos, list: seq<Pos>, queued: set<Pos>) returns (list': seq<Pos>, queued': set<Pos>)
      requires grid.Length0 == rows && grid.Length1 == columns && InBounds(rows, columns, p)
      requires forall q :: q in queued <==> q in list
      ensures forall q :: q in queued' <==> q in list'
      ensures |list'| >= |list| && list'[..|list|] == list
      ensures forall j :: |list| <= j < |list'| ==>
                InBounds(rows, columns, list'[j]) && Adjacent(p, list'[j]) && !grid[list'[j].0, list'[j].1].revealed
      ensures |queued'| - |list'| == |queued| - |list|
      ensures forall q :: InBounds(rows, columns, q) && Adjacent(p, q) ==> q in queued' || grid[q.0, q.1].revealed
    {
      var around := Surrounding(rows, columns, p);
      SurroundingFacts(rows, columns, p);
      assert forall m :: 0 <= m < |around| ==> around[m] in around;
      list', queued' := list, queued;
      for k := 0 to |around|
        invariant forall q :: q in queued' <==> q in list'
        invariant |list'| >= |list| && list'[..|list|] == list
        invariant forall j :: |list| <= j < |list'| ==> list'[j] in around && !grid[list'[j].0, list'[j].1].revealed
        invariant |queued'| - |list'| == |queued| - |list|
        invariant forall m :: 0 <= m < k ==> around[m] in queued' || grid[around[m].0, around[m].1].revealed
      {
        var (r2, c2) := around[k];
        if !grid[r2, c2].revealed && around[k] !in queued' {
          list', queued' := list' + [around[k]], queued' + {around[k]};
        }
      }
    }

    /** Plants a flag on a covered, unflagged cell when a flag is left. */
    method Flag(row: int, column: int)
      requires Valid() && InBounds(rows, columns, (row, column))
      modifies this`unusedFlagCount, this`flaggedCells, grid
      ensures Valid()
      ensures var acts := old(unusedFlagCount) > 0 && !old(grid[row, column].revealed) && !old(grid[row, column].flagged);
              && grid[row, column] == (if acts then old(grid[row, column]).(flagged := true) else old(grid[row, column]))
              && unusedFlagCount == old(unusedFlagCount) - (if acts then 1 else 0)
              && flaggedCells == old(flaggedCells) + (if acts then {(row, column)} else {})
      ensures forall r, c {:trigger grid[r, c]} :: 0 <= r < rows && 0 <= c < columns && (r, c) != (row, column) ==>
                grid[r, c] == old(grid[r, c])
    {
      if unusedFlagCount > 0 && !grid[row, column].revealed && !grid[row, column].flagged {
        grid[row, column] := grid[row, column].(flagged := true);
        unusedFlagCount := unusedFlagCount - 1;
        flaggedCells := flaggedCells + {(row, column)};
      }
    }

    /** Takes the flag off a flagged cell and returns it to the unused flags. */
    method Unflag(row: int, column: int)
      requires Valid() && InBounds(rows, columns, (row, column))
      modifies this`unusedFlagCount, this`flaggedCells, grid
      ensures Valid()
      ensures grid[row, column] == old(grid[row, column]).(flagged := false)
      ensures unusedFlagCount == old(unusedFlagCount) + (if old(grid[row, column].flagged) then 1 else 0)
      ensures forall r, c {:trigger grid[r, c]} :: 0 <= r < rows && 0 <= c < columns && (r, c) != (row, column) ==>
                grid[r, c] == old(grid[r, c])
      ensures forall q :: q in flaggedCells <==> q in old(flaggedCells) && q != (row, column)
    {
      if grid[row, column].flagged {
        CardRemove(flaggedCells, (row, column));
        grid[row, column] := grid[row, column].(flagged := false);
        unusedFlagCount := unusedFlagCount + 1;
        flaggedCells := flaggedCells - {(row, column)};
      }
    }
  }
}
