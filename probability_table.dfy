/** The probability table the bot's complex deduction computes, and what it is computed from:
    the inputs the board shows, the work of steps 1 to 4 on them, and the table that work gives. */
module ProbabilityTable {
  import opened Grid
  import opened Enumeration
  import opened BorderProbability
  import Islands
  import NonborderProbability
  import Sorting

  /** A probability table: each cell with the chance that it is clear, in the order the cells were entered. */
  type Table = seq<(Pos, Prob)>

  /** A table listing the given cells in order, each with the same probability v. */
  function Uniform(cells: seq<Pos>, v: real): (t: Table)
    ensures Cells(t) == cells
  {
    seq(|cells|, i requires 0 <= i < |cells| => (cells[i], Value(v)))
  }

  /** For each key, how many cells its list holds. */
  function Counts(m: map<Pos, seq<Pos>>): (counts: map<Pos, int>)
    ensures counts.Keys == m.Keys && forall n :: n in m ==> counts[n] == |m[n]|
  {
    map n | n in m :: |m[n]|
  }

  /** What the probability table is computed from, as the board shows it: the grid's size, the
      number cells, the border cells without a flag, the nonborder cells, flagged ones included,
      how many cells those two kinds make together, the mines still to place around each number
      cell, and the unused flags. */
  datatype TableInputs = TableInputs(rows: int, columns: int, numberCells: set<Pos>, borderCells: set<Pos>,
                                     nonborderCells: set<Pos>, covered: int, mines: map<Pos, int>, flags: int)

  /** The work behind a probability table: for each number cell its border neighbours and for each
      border cell its number neighbours, the islands, the constraints the search starts from, and
      each island's arrangements with their likelihoods. */
  datatype Tabulation = Tabulation(borderNeighbours: map<Pos, seq<Pos>>, numberNeighbours: map<Pos, seq<Pos>>,
                                   islands: seq<seq<Pos>>, constraints: Constraints,
                                   islandSolutions: seq<seq<seq<int>>>, likelihoods: seq<seq<real>>)

  /** Steps 1 and 2 on a grid of the given size: the neighbour tables of the number cells and the
      border cells, in the order the grid lists neighbours, each listing the other; the border
      cells split into separate islands, each one connected piece closed under sharing a number
      cell and ordered by distance from its least cell, and the islands ordered by size; and for
      each number cell the mines still to place around it and how many border neighbours it has. */
  ghost predicate Grouped(borderNeighbours: map<Pos, seq<Pos>>, numberNeighbours: map<Pos, seq<Pos>>,
                          islands: seq<seq<Pos>>, c: Constraints, rows: int, columns: int,
                          numberCells: set<Pos>, borderCells: set<Pos>, mines: map<Pos, int>)
  {
    && c == Constraints(mines, Counts(borderNeighbours))
    && (forall n :: n in borderNeighbours <==> n in numberCells)
    && (forall q :: q in numberNeighbours <==> q in borderCells)
    && (forall n :: n in borderNeighbours ==>
          borderNeighbours[n] == Islands.Among(Surrounding(rows, columns, n), borderCells))
    && (forall q :: q in numberNeighbours ==>
          numberNeighbours[q] == Islands.Among(Surrounding(rows, columns, q), numberCells))
    && Islands.Mutual(numberNeighbours, borderNeighbours)
    && Islands.Cover(islands) == borderCells && Islands.Separate(islands)
    && (forall X :: X in islands ==> Islands.Closed(X, numberNeighbours, borderNeighbours))
    && (forall X :: X in islands ==> Islands.Connected(X, numberNeighbours, borderNeighbours))
    && (forall X :: X in islands ==> Sorting.Ordered(X, Islands.DistanceFrom(Islands.Least(X))))
    && Sorting.Ordered(islands, Islands.Size)
  }

  /** Steps 1 and 2 leave nothing open but order: two groupings of the same cells have the same
      tables and constraints, and every island of one has exactly the cells of an island of the
      other. */
  lemma IslandsUnique(borderNeighbours: map<Pos, seq<Pos>>, numberNeighbours: map<Pos, seq<Pos>>,
                      islands: seq<seq<Pos>>, c: Constraints,
                      borderNeighbours': map<Pos, seq<Pos>>, numberNeighbours': map<Pos, seq<Pos>>,
                      islands': seq<seq<Pos>>, c': Constraints, rows: int, columns: int,
                      numberCells: set<Pos>, borderCells: set<Pos>, mines: map<Pos, int>)
    requires Grouped(borderNeighbours, numberNeighbours, islands, c, rows, columns, numberCells, borderCells, mines)
    requires Grouped(borderNeighbours', numberNeighbours', islands', c', rows, columns, numberCells, borderCells, mines)
    ensures borderNeighbours' == borderNeighbours && numberNeighbours' == numberNeighbours && c' == c
    ensures forall X :: X in islands ==> exists Y :: Y in islands' && Elems(Y) == Elems(X)
  {
    TableFixed(borderNeighbours, borderNeighbours', rows, columns, numberCells, borderCells);
    TableFixed(numberNeighbours, numberNeighbours', rows, columns, borderCells, numberCells);
    Islands.IslandsMatch(islands, islands', numberNeighbours, borderNeighbours);
  }

  /** A neighbour table of step 1 is fixed by its keys and the cells its lists keep. */
  lemma TableFixed(table: map<Pos, seq<Pos>>, table': map<Pos, seq<Pos>>, rows: int, columns: int,
                   keys: set<Pos>, keep: set<Pos>)
    requires forall n :: n in table <==> n in keys
    requires forall n :: n in table ==> table[n] == Islands.Among(Surrounding(rows, columns, n), keep)
    requires forall n :: n in table' <==> n in keys
    requires forall n :: n in table' ==> table'[n] == Islands.Among(Surrounding(rows, columns, n), keep)
    ensures table' == table
  {
    assert table'.Keys == table.Keys;
  }

  /** Step 3 and the likelihoods: every island's arrangements are exactly those the search
      records with flags mines left, and each has its likelihood given u covered cells. */
  ghost predicate Searched(t: Tabulation, flags: int, u: int) {
    match t
    case Tabulation(_, numberNeighbours, islands, constraints, islandSolutions, likelihoods) =>
    && (forall k, q :: 0 <= k < |islands| && q in islands[k] ==> q in numberNeighbours)
    && Ready(numberNeighbours, constraints)
    && |islandSolutions| == |islands| && |likelihoods| == |islands|
    && (forall k :: 0 <= k < |islands| ==>
          islandSolutions[k] == Solve(Problem(islands[k], numberNeighbours, flags), [], constraints, 0))
    && (forall i :: 0 <= i < |islands| ==> Weighs(islandSolutions[i], likelihoods[i], flags, u))
  }

  /** The table a tabulation gives, with the nonborder cells in the order listed and flags unused
      flags: raised when some island has a cell but no island has an arrangement (step 4) or the
      nonborder chance divides by zero (step 5); otherwise the border entries, island by island,
      followed by every nonborder cell with the one nonborder chance. */
  function TableOf(t: Tabulation, nonborderCells: seq<Pos>, flags: int): Outcome<Table>
    requires Shaped(t.islands, t.islandSolutions, t.likelihoods)
  {
    if Flatten(t.islands) != [] && NoArrangements(t.islandSolutions) then Raised
    else if nonborderCells == [] then Done(BorderEntries(t.islands, t.islandSolutions, t.likelihoods))
    else match NonborderProbability.NonborderChance(t.islandSolutions, flags, |nonborderCells|)
      case Raised => Raised
      case Done(v) => Done(BorderEntries(t.islands, t.islandSolutions, t.likelihoods) + Uniform(nonborderCells, v))
  }

  /** Steps 1 to 3 on a board's cells, with covered cells and flags unused flags, give the work t. */
  ghost predicate Worked(t: Tabulation, rows: int, columns: int, numberSet: set<Pos>, borderSet: set<Pos>,
                         covered: int, mines: map<Pos, int>, flags: int)
  {
    && Grouped(t.borderNeighbours, t.numberNeighbours, t.islands, t.constraints, rows, columns,
               numberSet, borderSet, mines)
    && Searched(t, flags, covered)
  }

  /** Work t on a board's cells gives the table, with nonborderCells the board's nonborder cells
      each once. */
  ghost predicate Tabulates(table: Outcome<Table>, t: Tabulation, nonborderCells: seq<Pos>,
                            rows: int, columns: int, numberSet: set<Pos>, borderSet: set<Pos>,
                            nonborderSet: set<Pos>, covered: int, mines: map<Pos, int>, flags: int)
  {
    && Worked(t, rows, columns, numberSet, borderSet, covered, mines, flags)
    && Shaped(t.islands, t.islandSolutions, t.likelihoods)
    && Distinct(nonborderCells) && Elems(nonborderCells) == nonborderSet
    && table == TableOf(t, nonborderCells, flags)
  }

  /** The table is one the board b gives: it comes from steps 1 to 3 on b's cells, with the
      nonborder cells listed each once. */
  ghost predicate FromBoard(table: Outcome<Table>, b: TableInputs) {
    match b
    case TableInputs(rows, columns, numberSet, borderSet, nonborderSet, covered, mines, flags) =>
      exists t: Tabulation, nonborderCells: seq<Pos> ::
        Tabulates(table, t, nonborderCells, rows, columns, numberSet, borderSet, nonborderSet, covered, mines, flags)
  }

  /** FromBoard, reached after n steps. BoardTables goes through three of them, so that a proof
      that only passes the fact on does not unfold the work behind it. */
  ghost predicate FromBoardAfter(table: Outcome<Table>, b: TableInputs, n: nat)
    decreases n
  {
    if n == 0 then FromBoard(table, b) else FromBoardAfter(table, b, n - 1)
  }

  /** The tables the board b may give: the islands are fixed up to order (IslandsUnique), so more
      than one only when islands of one size, or cells at one distance within an island, may come
      in either order, or the nonborder cells in any order. */
  ghost function BoardTables(b: TableInputs): iset<Outcome<Table>> {
    iset table | FromBoardAfter(table, b, 3)
  }

  /** The tables the board gives are exactly those FromBoard describes. */
  lemma BoardTablesAre(table: Outcome<Table>, b: TableInputs)
    ensures table in BoardTables(b) <==> FromBoard(table, b)
  {
    assert FromBoardAfter(table, b, 3) == FromBoardAfter(table, b, 2) == FromBoardAfter(table, b, 1)
        == FromBoardAfter(table, b, 0);
  }

  /** Work t on a board's cells that gives the table, with nonborderCells the board's nonborder
      cells each once, shows that the table is the one the board gives. */
  lemma BoardWitness(table: Outcome<Table>, t: Tabulation, nonborderCells: seq<Pos>,
                     rows: int, columns: int, numberSet: set<Pos>, borderSet: set<Pos>, nonborderSet: set<Pos>,
                     covered: int, mines: map<Pos, int>, flags: int)
    requires Worked(t, rows, columns, numberSet, borderSet, covered, mines, flags)
    requires Shaped(t.islands, t.islandSolutions, t.likelihoods)
    requires Distinct(nonborderCells) && Elems(nonborderCells) == nonborderSet
    requires table == TableOf(t, nonborderCells, flags)
    ensures table in BoardTables(TableInputs(rows, columns, numberSet, borderSet, nonborderSet, covered, mines, flags))
  {
    assert Tabulates(table, t, nonborderCells, rows, columns, numberSet, borderSet, nonborderSet, covered, mines, flags);
    BoardTablesAre(table, TableInputs(rows, columns, numberSet, borderSet, nonborderSet, covered, mines, flags));
  }
}
