/** The bot that plays Minesweeper: two queues of cells, to reveal and to flag, filled by a basic
    deduction from single number cells, by a complex deduction from probability tables, and by a
    random guess, and emptied one cell per action. */
module MinesweeperBot {
  import opened Grid
  import opened GameStructures
  import opened Enumeration
  import opened BorderProbability
  import Islands
  import Search
  import NonborderProbability
  import Sorting
  import opened ProbabilityTable

  /** The queue grew only by appending: the old entries keep their places and no appended cell
      occurs earlier in the queue. */
  predicate Grows(before: seq<Pos>, after: seq<Pos>) {
    && |before| <= |after| && after[..|before|] == before
    && forall i :: |before| <= i < |after| ==> after[i] !in after[..i]
  }

  lemma GrowsAppend(before: seq<Pos>, after: seq<Pos>, x: Pos)
    requires Grows(before, after) && x !in after
    ensures Grows(before, after + [x])
  {
    var after' := after + [x];
    assert after'[..|after|] == after;
    forall i | |before| <= i < |after'| ensures after'[i] !in after'[..i] {
      if i < |after| {
        assert after'[..i] == after[..i];
      }
    }
  }

  lemma GrowsTrans(a: seq<Pos>, b: seq<Pos>, c: seq<Pos>)
    requires Grows(a, b) && Grows(b, c)
    ensures Grows(a, c)
  {
    assert c[..|a|] == c[..|b|][..|a|];
  }

  lemma DistinctConcat(a: seq<Pos>, b: seq<Pos>)
    requires Distinct(a) && Distinct(b) && Elems(a) !! Elems(b)
    ensures Distinct(a + b)
  {
    forall i, j | 0 <= i < j < |a + b| ensures (a + b)[i] != (a + b)[j] {
      if i < |a| <= j {
        assert (a + b)[i] in Elems(a) && (a + b)[j] in Elems(b);
      }
    }
  }

  lemma CellsConcat(x: Table, y: Table)
    ensures Cells(x + y) == Cells(x) + Cells(y)
  {
  }

  /** Appending uniform entries for new cells keeps the cells distinct, adds exactly those
      cells, and gives each of them the one value. */
  lemma JoinFacts(x: Table, cells: seq<Pos>, v: real)
    requires Distinct(Cells(x)) && Distinct(cells) && Elems(Cells(x)) !! Elems(cells)
    ensures Distinct(Cells(x + Uniform(cells, v)))
    ensures Elems(Cells(x + Uniform(cells, v))) == Elems(Cells(x)) + Elems(cells)
    ensures forall e :: e in x + Uniform(cells, v) ==> e in x || e.1 == Value(v)
    ensures forall e :: e in x + Uniform(cells, v) && e.0 in cells ==> e.1 == Value(v)
  {
    CellsConcat(x, Uniform(cells, v));
    DistinctConcat(Cells(x), cells);
    forall e | e in x ensures e.0 in Elems(Cells(x)) {
      var i :| 0 <= i < |x| && x[i] == e;
      assert Cells(x)[i] == e.0;
    }
  }

  /** The last of separate islands shares no cell with the ones before it. */
  lemma LastApart(islands: seq<seq<Pos>>)
    requires Islands.Separate(islands) && islands != []
    ensures Islands.Cover(islands[..|islands| - 1]) !! Elems(islands[|islands| - 1])
  {
    var n := |islands| - 1;
    var init, last := islands[..n], islands[n];
    forall x | x in Islands.Cover(init) ensures x !in Elems(last) {
      Islands.CoverMembers(init, x);
      var X :| X in init && x in X;
      var i :| 0 <= i < n && init[i] == X;
      assert islands[i] == X && islands[i] != islands[n];
      assert X in islands && last in islands;
      assert Elems(X) !! Elems(last);
      assert x in Elems(X);
    }
  }

  /** The cells of separate islands, island by island, are the cells the islands cover, each once. */
  lemma {:induction false} FlattenCover(islands: seq<seq<Pos>>)
    requires Islands.Separate(islands)
    ensures Elems(Flatten(islands)) == Islands.Cover(islands) && Distinct(Flatten(islands))
    decreases |islands|
  {
    if islands != [] {
      var n := |islands| - 1;
      var init, last := islands[..n], islands[n];
      assert Islands.Separate(init) by {
        assert forall X :: X in init ==> X in islands;
        assert forall i, j :: 0 <= i < j < n ==> init[i] == islands[i] && init[j] == islands[j];
      }
      FlattenCover(init);
      LastApart(islands);
      assert last in islands;
      DistinctConcat(Flatten(init), last);
      assert Elems(Flatten(init) + last) == Elems(Flatten(init)) + Elems(last);
    }
  }

  /** The border entries name each border cell once, and raise exactly when there is a border
      cell and no island has an arrangement. */
  lemma BorderOutcome(islands: seq<seq<Pos>>, islandSolutions: seq<seq<seq<int>>>, likelihoods: seq<seq<real>>,
                      borderCells: seq<Pos>, entries: Outcome<Table>)
    requires Islands.Separate(islands) && Islands.Cover(islands) == Elems(borderCells)
    requires Shaped(islands, islandSolutions, likelihoods)
    requires entries.Raised? <==> Flatten(islands) != [] && NoArrangements(islandSolutions)
    requires entries.Done? ==> entries.value == BorderEntries(islands, islandSolutions, likelihoods)
    ensures entries.Raised? <==> borderCells != [] && NoArrangements(islandSolutions)
    ensures entries.Done? ==> Distinct(Cells(entries.value)) && Elems(Cells(entries.value)) == Elems(borderCells)
  {
    BorderEntriesFacts(islands, islandSolutions, likelihoods);
    FlattenCover(islands);
    if borderCells != [] {
      assert borderCells[0] in Elems(Flatten(islands));
    }
    if Flatten(islands) != [] {
      assert Flatten(islands)[0] in Elems(borderCells);
    }
  }

  /** Counting the neighbours of each cell of s, or of each key of m, when those are the same
      cells, gives the same map. */
  lemma CountsOverKeys(s: seq<Pos>, m: map<Pos, seq<Pos>>)
    requires m.Keys == Elems(s)
    ensures (map n | n in s && n in m :: |m[n]|) == Counts(m)
  {
  }

  /** A sequence and a set with the same members: the set is the sequence's. */
  lemma SameMembers(s: seq<Pos>, cells: set<Pos>)
    requires forall q :: q in s <==> q in cells
    ensures Elems(s) == cells
  {
    forall q ensures q in Elems(s) <==> q in cells {
      assert q in Elems(s) <==> q in s;
    }
  }

  /** A subset of a finite set is no larger. */
  lemma SubsetCard<T>(a: set<T>, b: set<T>)
    requires a <= b
    ensures |a| <= |b|
  {
    assert b == a + (b - a);
  }

  /** Each island of a split of the border cells has at most as many cells as the border. */
  lemma IslandWithin(islands: seq<seq<Pos>>, borderCells: seq<Pos>, i: int)
    requires Islands.Separate(islands) && Islands.Cover(islands) == Elems(borderCells) && Distinct(borderCells)
    requires 0 <= i < |islands|
    ensures |islands[i]| <= |borderCells|
  {
    var X := islands[i];
    forall x | x in Elems(X) ensures x in Elems(borderCells) {
      Islands.CoverMembers(islands, x);
    }
    assert X in islands;
    DistinctCard(X);
    DistinctCard(borderCells);
    SubsetCard(Elems(X), Elems(borderCells));
  }

  /** Every arrangement the search records for an island gives each island cell a status, and
      places no more mines than remain. */
  lemma SolutionsFit(islands: seq<seq<Pos>>, neighbours: map<Pos, seq<Pos>>, c: Constraints, r: int,
                     islandSolutions: seq<seq<seq<int>>>)
    requires |islandSolutions| == |islands| && 0 <= r && Ready(neighbours, c)
    requires forall k, b :: 0 <= k < |islands| && b in islands[k] ==> b in neighbours
    requires forall k :: 0 <= k < |islands| ==> islandSolutions[k] == Solve(Problem(islands[k], neighbours, r), [], c, 0)
    ensures forall i, k :: 0 <= i < |islands| && 0 <= k < |islandSolutions[i]| ==>
              |islandSolutions[i][k]| == |islands[i]| && Bits(islandSolutions[i][k], 0) && Sum(islandSolutions[i][k]) <= r
  {
    forall i, k | 0 <= i < |islands| && 0 <= k < |islandSolutions[i]|
      ensures |islandSolutions[i][k]| == |islands[i]| && Bits(islandSolutions[i][k], 0) && Sum(islandSolutions[i][k]) <= r
    {
      SolutionsWithinBudget(Problem(islands[i], neighbours, r), c, islandSolutions[i][k]);
    }
  }

  /** When as many mines remain as the arrangements place at most, and no more than there are
      covered cells, no likelihood is negative. */
  lemma LikelihoodsInRange(islandSolutions: seq<seq<seq<int>>>, likelihoods: seq<seq<real>>, r: int, u: int)
    requires |likelihoods| == |islandSolutions| && r <= u
    requires forall i :: 0 <= i < |islandSolutions| ==> Weighs(islandSolutions[i], likelihoods[i], r, u)
    requires forall i, k :: 0 <= i < |islandSolutions| && 0 <= k < |islandSolutions[i]| ==>
               Bits(islandSolutions[i][k], 0) && Sum(islandSolutions[i][k]) <= r
    ensures forall i :: 0 <= i < |islandSolutions| ==> NonNegative(likelihoods[i])
  {
    forall i, k | 0 <= i < |islandSolutions| && 0 <= k < |likelihoods[i]| ensures 0.0 <= likelihoods[i][k] {
      LikelihoodRange(islandSolutions[i][k], r, u);
    }
  }

  /** Step 3: searches each island for its mine arrangements, from the mines still to place
      around each number cell and the number of its border neighbours. */
  method SearchIslands(islands: seq<seq<Pos>>, numberNeighbours: map<Pos, seq<Pos>>,
                       mines: map<Pos, int>, unknowns: map<Pos, int>, remainingMines: int)
    returns (islandSolutions: seq<seq<seq<int>>>)
    requires 0 <= remainingMines && Ready(numberNeighbours, Constraints(mines, unknowns))
    requires forall k, b :: 0 <= k < |islands| && b in islands[k] ==> b in numberNeighbours
    ensures |islandSolutions| == |islands|
    ensures forall k :: 0 <= k < |islands| ==>
              islandSolutions[k] == Solve(Problem(islands[k], numberNeighbours, remainingMines), [], Constraints(mines, unknowns), 0)
    ensures forall i, k :: 0 <= i < |islands| && 0 <= k < |islandSolutions[i]| ==>
              && |islandSolutions[i][k]| == |islands[i]| && Bits(islandSolutions[i][k], 0)
              && Sum(islandSolutions[i][k]) <= remainingMines
  {
    var search := new Search.SolutionSearch(numberNeighbours, mines, unknowns, remainingMines);
    islandSolutions := search.SolveIslands(islands);
    SolutionsFit(islands, numberNeighbours, Constraints(mines, unknowns), remainingMines, islandSolutions);
  }

  /** Step 5: when there are nonborder cells, appends each of them, in order, with the one chance
      that a nonborder cell is clear; raises when that chance divides by zero. */
  method AddNonborder(entries: Table, islandSolutions: seq<seq<seq<int>>>, remainingMines: int, nonborderCells: seq<Pos>)
    returns (table: Outcome<Table>)
    ensures nonborderCells == [] ==> table == Done(entries)
    ensures nonborderCells != [] ==>
              var chance := NonborderProbability.NonborderChance(islandSolutions, remainingMines, |nonborderCells|);
              && (table.Raised? <==> chance.Raised?)
              && (table.Done? ==> table.value == entries + Uniform(nonborderCells, chance.value))
  {
    if |nonborderCells| == 0 {
      return Done(entries);
    }
    var chance := NonborderProbability.Reservoir(islandSolutions, remainingMines, |nonborderCells|);
    if chance.Raised? {
      return Raised;
    }
    var t := entries;
    for i := 0 to |nonborderCells|
      invariant t == entries + Uniform(nonborderCells[..i], chance.value)
    {
      assert Uniform(nonborderCells[..i + 1], chance.value) == Uniform(nonborderCells[..i], chance.value) + [(nonborderCells[i], Value(chance.value))];
      t := t + [(nonborderCells[i], Value(chance.value))];
    }
    assert nonborderCells[..|nonborderCells|] == nonborderCells;
    return Done(t);
  }

  /** Some cell of the table is certain: clear for sure or a mine for sure. */
  predicate Certain(table: Table) {
    exists e :: e in table && (e.1 == Value(1.0) || e.1 == Value(0.0))
  }

  lemma InCells(table: Table, e: (Pos, Prob))
    requires e in table
    ensures e.0 in Cells(table)
  {
    var i :| 0 <= i < |table| && table[i] == e;
    assert Cells(table)[i] == e.0;
  }

  /** Appends to the queue, in table order, each cell whose chance is v and that is not queued yet. */
  function Collect(table: Table, v: Prob, queue: seq<Pos>): (queue': seq<Pos>)
    ensures Grows(queue, queue')
    ensures forall q :: q in queue' <==> q in queue || (q, v) in table
    decreases |table|
  {
    if table == [] then queue
    else
      var init, e := Collect(table[..|table| - 1], v, queue), table[|table| - 1];
      assert table == table[..|table| - 1] + [e];
      if e.1 == v && e.0 !in init then
        GrowsAppend(queue, init, e.0);
        init + [e.0]
      else init
  }

  /** Python's greater-than on two chances: false whenever either is NaN. */
  predicate Above(a: Prob, b: Prob) {
    a.Value? && b.Value? && a.p > b.p
  }

  /** The entry Python's max picks: the first one, replaced by each later one whose chance is
      strictly greater than the one kept. */
  function Champion(table: Table): (k: nat)
    requires table != []
    ensures k < |table|
    decreases |table|
  {
    if |table| == 1 then 0
    else
      var k := Champion(table[..|table| - 1]);
      if Above(table[|table| - 1].1, table[k].1) then |table| - 1 else k
  }

  /** A NaN in first place is never replaced; otherwise max keeps the first of the greatest
      defined chances. */
  lemma {:induction false} ChampionFacts(table: Table)
    requires table != []
    ensures table[0].1 == Undefined ==> Champion(table) == 0
    ensures table[0].1.Value? ==>
              var best := table[Champion(table)].1;
              && best.Value?
              && (forall i :: 0 <= i < |table| && table[i].1.Value? ==> table[i].1.p <= best.p)
              && (forall i :: 0 <= i < Champion(table) && table[i].1.Value? ==> table[i].1.p < best.p)
    decreases |table|
  {
    if |table| > 1 {
      var n := |table| - 1;
      var init := table[..n];
      ChampionFacts(init);
      assert forall i :: 0 <= i < n ==> init[i] == table[i];
    }
  }

  /** The cells whose chance equals best; none when best is NaN, which equals nothing. */
  function Matching(table: Table, best: Prob): (cells: seq<Pos>)
    ensures forall q :: q in cells <==> best.Value? && (q, best) in table
    decreases |table|
  {
    if table == [] then []
    else
      var e := table[|table| - 1];
      assert table == table[..|table| - 1] + [e];
      Matching(table[..|table| - 1], best) + if best.Value? && e.1 == best then [e.0] else []
  }

  /** q has the greatest defined chance of the table. */
  ghost predicate BestGuess(table: Table, q: Pos) {
    exists p :: (q, Value(p)) in table && forall e :: e in table && e.1.Value? ==> e.1.p <= p
  }

  /** The guesses the bot draws from: none when the first chance is NaN, otherwise the cells of
      greatest chance. */
  lemma GuessFacts(table: Table)
    requires table != []
    ensures var guesses := Matching(table, table[Champion(table)].1);
            && (guesses == [] <==> table[0].1 == Undefined)
            && forall q :: q in guesses ==> BestGuess(table, q)
  {
    ChampionFacts(table);
    var k := Champion(table);
    var guesses := Matching(table, table[k].1);
    if table[0].1.Value? {
      assert table[k] in table;
      assert table[k].0 in guesses;
    }
    forall q | q in guesses ensures BestGuess(table, q) {
      assert (q, Value(table[k].1.p)) in table;
    }
  }

  /** Starting from empty queues, the complex deduction queues at least one cell, and only
      cells of the table. */
  lemma QueuedFromTable(table: Table, revealing: seq<Pos>, flagging: seq<Pos>)
    requires Certain(table) ==> revealing == Collect(table, Value(1.0), []) && flagging == Collect(table, Value(0.0), [])
    requires !Certain(table) ==> flagging == [] && |revealing| == 1 && BestGuess(table, revealing[0])
    ensures revealing != [] || flagging != []
    ensures forall q :: q in revealing || q in flagging ==> q in Cells(table)
  {
    if Certain(table) {
      var e :| e in table && (e.1 == Value(1.0) || e.1 == Value(0.0));
      assert e.0 in revealing || e.0 in flagging;
      forall q | q in revealing || q in flagging ensures q in Cells(table) {
        if q in revealing {
          InCells(table, (q, Value(1.0)));
        } else {
          InCells(table, (q, Value(0.0)));
        }
      }
    } else {
      var p :| (revealing[0], Value(p)) in table && forall e :: e in table && e.1.Value? ==> e.1.p <= p;
      InCells(table, (revealing[0], Value(p)));
    }
  }

  /** What the board offers the deductions at one moment: the cells the basic deduction queues
      to flag and to reveal, the cells the probability table holds, and what the table is
      computed from. */
  datatype Deductions = Deductions(flagging: set<Pos>, revealing: set<Pos>, tabled: set<Pos>, board: TableInputs)

  /** What queueing from a computed table t does to queues that held reveal0 and flag0, leaving
      reveal1 and flag1. A raise changes no queue. When some chance is certain, every cell of
      chance 1 not queued yet joins the reveal queue and every cell of chance 0 the flag queue, in
      table order. Otherwise, unless only certain cells are wanted, one of the cells of greatest
      chance joins the reveal queue; that raises when the table is empty or its first chance is
      NaN. */
  ghost predicate QueuedFrom(t: Table, raised: bool, certainOnly: bool,
                             reveal0: seq<Pos>, flag0: seq<Pos>, reveal1: seq<Pos>, flag1: seq<Pos>)
  {
    && (raised ==> reveal1 == reveal0 && flag1 == flag0)
    && (Certain(t) ==>
          !raised && reveal1 == Collect(t, Value(1.0), reveal0) && flag1 == Collect(t, Value(0.0), flag0))
    && (!Certain(t) && certainOnly ==> !raised && reveal1 == reveal0 && flag1 == flag0)
    && (!Certain(t) && !certainOnly ==>
          && (raised <==> t == [] || t[0].1 == Undefined)
          && (!raised ==> && flag1 == flag0 && |reveal1| == |reveal0| + 1 && reveal1[..|reveal0|] == reveal0
                          && BestGuess(t, reveal1[|reveal0|])))
  }

  /** What the complex deduction does to queues that held reveal0 and flag0, leaving reveal1 and
      flag1, given the probability table it computed and the cells a table holds: when the table
      raises, so does the deduction, changing no queue; otherwise the table holds those cells and
      the deduction queues from it. */
  ghost predicate ComplexQueued(table: Outcome<Table>, raised: bool, certainOnly: bool, tabled: set<Pos>,
                                reveal0: seq<Pos>, flag0: seq<Pos>, reveal1: seq<Pos>, flag1: seq<Pos>)
  {
    match table
    case Raised => raised && reveal1 == reveal0 && flag1 == flag0
    case Done(t) => Elems(Cells(t)) == tabled && QueuedFrom(t, raised, certainOnly, reveal0, flag0, reveal1, flag1)
  }

  /** Refilling two empty queues on a board offering d may leave revealQueue and flagQueue in
      them, raising or not, with table the probability table it computes (see RefillOf). */
  ghost predicate Refilled(table: Outcome<Table>, raised: bool, revealQueue: seq<Pos>, flagQueue: seq<Pos>, d: Deductions) {
    (table, raised, revealQueue, flagQueue) in Refills(d)
  }

  /** The results a refill may have on a board offering d. */
  ghost function Refills(d: Deductions): iset<(Outcome<Table>, bool, seq<Pos>, seq<Pos>)> {
    iset r: (Outcome<Table>, bool, seq<Pos>, seq<Pos>) | RefillOf(r.0, r.1, r.2, r.3, d)
  }

  /** A refill is what RefillOf describes. */
  lemma RefilledIs(table: Outcome<Table>, raised: bool, revealQueue: seq<Pos>, flagQueue: seq<Pos>, d: Deductions)
    ensures Refilled(table, raised, revealQueue, flagQueue, d) <==> RefillOf(table, raised, revealQueue, flagQueue, d)
  {
  }

  /** What refilling two empty queues leaves in them, on a board offering d. When the basic
      deduction finds something, the queues hold exactly the cells it finds, each once;
      otherwise table is one the board gives and the queues hold what the complex deduction
      queues from it. */
  ghost predicate RefillOf(table: Outcome<Table>, raised: bool, revealQueue: seq<Pos>, flagQueue: seq<Pos>, d: Deductions) {
    if d.flagging == {} && d.revealing == {} then
      && table in BoardTables(d.board)
      && ComplexQueued(table, raised, false, d.tabled, [], [], revealQueue, flagQueue)
    else
      && !raised && Grows([], revealQueue) && Grows([], flagQueue)
      && Elems(flagQueue) == d.flagging && Elems(revealQueue) == d.revealing
  }

  class Bot {
    /** Cells the bot means to reveal; the last one goes first. */
    var toReveal: seq<Pos>
    /** Cells the bot means to flag; the last one goes first. */
    var toFlag: seq<Pos>
    /** The game the bot plays, which the bot's actions change. */
    const game: Game

    constructor (game: Game)
      ensures this.game == game && toReveal == [] && toFlag == []
    {
      this.game := game;
      toReveal := [];
      toFlag := [];
    }

    /** Every queued cell lies on the grid. */
    predicate OnGrid(queue: seq<Pos>) {
      forall i :: 0 <= i < |queue| ==> InBounds(game.rows, game.columns, queue[i])
    }

    /** The bot invariant: the board is consistent and both queues hold cells of the grid. */
    ghost predicate Valid()
      reads this, game, game.grid
    {
      game.Valid() && OnGrid(toReveal) && OnGrid(toFlag)
    }

    /** The cells of the grid that are not shown. */
    ghost function Hidden(): set<Pos>
      reads game
    {
      AllCells(game.rows, game.columns) - game.revealedCells
    }

    /** A cell the bot may queue: on the grid, neither shown nor flagged. */
    ghost predicate Open(q: Pos)
      reads game
    {
      InBounds(game.rows, game.columns, q) && q !in game.revealedCells && q !in game.flaggedCells
    }

    /** A shown cell that is not a mine and has mines around it. */
    ghost predicate Clue(n: Pos)
      reads game
    {
      InBounds(game.rows, game.columns, n) && n in game.revealedCells && n !in game.Mines() && game.MineNeighbours(n) > 0
    }

    /** A clue with as many covered neighbours as mines around it. */
    ghost predicate FlagAround(n: Pos)
      reads game
    {
      Clue(n) && CountIn(Surrounding(game.rows, game.columns, n), Hidden()) == game.MineNeighbours(n)
    }

    /** A clue that is not a FlagAround clue and has as many flagged neighbours as mines around it. */
    ghost predicate RevealAround(n: Pos)
      reads game
    {
      && Clue(n) && CountIn(Surrounding(game.rows, game.columns, n), Hidden()) != game.MineNeighbours(n)
      && CountIn(Surrounding(game.rows, game.columns, n), Hidden() * game.flaggedCells) == game.MineNeighbours(n)
    }

    /** The clues the basic deduction acts on: FlagAround clues when flagging, RevealAround clues
        when revealing. */
    ghost predicate Deduces(n: Pos, flagging: bool)
      reads game
    {
      if flagging then FlagAround(n) else RevealAround(n)
    }

    /** An open cell next to a clue the deduction acts on: one the basic deduction queues. */
    ghost predicate Deducible(q: Pos, flagging: bool)
      reads game
    {
      Open(q) && exists n :: Deduces(n, flagging) && Adjacent(n, q)
    }

    /** An open cell next to a clue the deduction acts on that comes before (r, c) in row-major order. */
    ghost predicate DeducibleBefore(q: Pos, flagging: bool, r: int, c: int)
      reads game
    {
      Open(q) && exists n :: Deduces(n, flagging) && RowMajorBefore(n, r, c) && Adjacent(n, q)
    }

    /** While no mine shows, every covered neighbour of a FlagAround clue is a mine. */
    lemma FlagsAreMines(n: Pos, q: Pos)
      requires game.Valid() && game.gameOutcome != Loss && FlagAround(n)
      requires InBounds(game.rows, game.columns, q) && q !in game.revealedCells && Adjacent(n, q)
      ensures q in game.Mines()
    {
      var ns := Surrounding(game.rows, game.columns, n);
      SurroundingFacts(game.rows, game.columns, n);
      CountInOverlap(ns, Hidden());
      var near := MinesNear(game.rows, game.columns, game.Mines(), n);
      forall m | m in near ensures m in Elems(ns) * Hidden() {
        var i :| 0 <= i < |game.mineLocations| && game.mineLocations[i] == m;
        assert !game.MineShowing();
      }
      SameCardSubset(near, Elems(ns) * Hidden());
      assert q in Elems(ns) * Hidden();
    }

    /** When every flag is on a mine, no open neighbour of a RevealAround clue is a mine. */
    lemma RevealsAreSafe(n: Pos, q: Pos)
      requires game.Valid() && game.flaggedCells <= game.Mines() && RevealAround(n)
      requires Open(q) && Adjacent(n, q)
      ensures q !in game.Mines()
    {
      var ns := Surrounding(game.rows, game.columns, n);
      SurroundingFacts(game.rows, game.columns, n);
      var flagged := Elems(ns) * (Hidden() * game.flaggedCells);
      CountInOverlap(ns, Hidden() * game.flaggedCells);
      var near := MinesNear(game.rows, game.columns, game.Mines(), n);
      assert flagged <= near;
      SameCardSubset(flagged, near);
      assert q !in flagged;
    }

    /** A cell on the board is hidden when its grid cell is not shown, and flagged when its
        grid cell carries a flag. */
    lemma CellStatus(q: Pos)
      requires game.CellsMatch() && InBounds(game.rows, game.columns, q)
      ensures q in Hidden() <==> !game.grid[q.0, q.1].revealed
      ensures q in game.flaggedCells <==> game.grid[q.0, q.1].flagged
    {
    }

    /** Counts the covered neighbours of n and, among them, the flagged ones. */
    method CountCovered(n: Pos) returns (covered: nat, flagged: nat)
      requires game.CellsMatch() && InBounds(game.rows, game.columns, n)
      ensures covered == CountIn(Surrounding(game.rows, game.columns, n), Hidden())
      ensures flagged == CountIn(Surrounding(game.rows, game.columns, n), Hidden() * game.flaggedCells)
    {
      var ns := Surrounding(game.rows, game.columns, n);
      SurroundingFacts(game.rows, game.columns, n);
      ghost var hidden, hiddenFlagged := Hidden(), Hidden() * game.flaggedCells;
      covered, flagged := 0, 0;
      for k := 0 to |ns|
        invariant covered == CountIn(ns[..k], hidden)
        invariant flagged == CountIn(ns[..k], hiddenFlagged)
      {
        CountInStep(ns, k, hidden);
        CountInStep(ns, k, hiddenFlagged);
        assert ns[k] in ns;
        CellStatus(ns[k]);
        var (r, c) := ns[k];
        if !game.IsRevealed(r, c) {
          covered := covered + 1;
          if game.IsFlagged(r, c) {
            flagged := flagged + 1;
          }
        }
      }
      assert ns[..|ns|] == ns;
    }

    /** Appends to the queue, in neighbourhood order, every open neighbour of n not queued yet. */
    method QueueAround(n: Pos, queue: seq<Pos>) returns (queue': seq<Pos>)
      requires game.Valid() && InBounds(game.rows, game.columns, n)
      ensures Grows(queue, queue')
      ensures forall q :: q in queue' <==> q in queue || (Open(q) && Adjacent(n, q))
    {
      var ns := Surrounding(game.rows, game.columns, n);
      SurroundingFacts(game.rows, game.columns, n);
      queue' := queue;
      for k := 0 to |ns|
        invariant Grows(queue, queue')
        invariant forall q :: q in queue' <==> q in queue || (Open(q) && q in ns[..k])
      {
        assert ns[..k + 1] == ns[..k] + [ns[k]];
        assert ns[k] in ns;
        var (r, c) := ns[k];
        if !game.IsRevealed(r, c) && !game.IsFlagged(r, c) && ns[k] !in queue' {
          GrowsAppend(queue, queue', ns[k]);
          queue' := queue' + [ns[k]];
        }
      }
      assert ns[..|ns|] == ns;
    }

    /** The basic deduction at one cell n: when n is a clue whose covered neighbours are as many as
        its mines, queues its open neighbours to flag; otherwise, when its flagged neighbours are as
        many as its mines, queues its open neighbours to reveal. */
    method DeduceAt(n: Pos)
      requires game.Valid() && InBounds(game.rows, game.columns, n)
      modifies this`toFlag, this`toReveal
      ensures Grows(old(toFlag), toFlag) && Grows(old(toReveal), toReveal)
      ensures forall q :: q in toFlag <==> q in old(toFlag) || (FlagAround(n) && Open(q) && Adjacent(n, q))
      ensures forall q :: q in toReveal <==> q in old(toReveal) || (RevealAround(n) && Open(q) && Adjacent(n, q))
    {
      var (r, c) := n;
      var flagging, revealing := false, false;
      assert game.grid[r, c].revealed == (n in game.revealedCells);
      assert Clue(n) == (game.IsRevealed(r, c) && game.GetSurroundingCount(r, c) > 0 && !game.IsMine(r, c));
      if game.IsRevealed(r, c) && game.GetSurroundingCount(r, c) > 0 && !game.IsMine(r, c) {
        var covered, flagged := CountCovered(n);
        flagging := covered == game.GetSurroundingCount(r, c);
        revealing := !flagging && flagged == game.GetSurroundingCount(r, c);
      }
      assert flagging == FlagAround(n) && revealing == RevealAround(n);
      if flagging {
        toFlag := QueueAround(n, toFlag);
      } else if revealing {
        toReveal := QueueAround(n, toReveal);
      }
    }

    /** Moving the scan past cell n adds exactly the cells that n vouches for. */
    lemma DeduceStep(base: seq<Pos>, after: seq<Pos>, flagging: bool, n: Pos)
      requires InBounds(game.rows, game.columns, n)
      requires forall q :: q in after <==> (q in base || DeducibleBefore(q, flagging, n.0, n.1)) ||
                                           (Deduces(n, flagging) && Open(q) && Adjacent(n, q))
      ensures forall q :: q in after <==> q in base || DeducibleBefore(q, flagging, n.0, n.1 + 1)
    {
      forall q ensures DeducibleBefore(q, flagging, n.0, n.1 + 1) <==>
                       DeducibleBefore(q, flagging, n.0, n.1) || (Deduces(n, flagging) && Open(q) && Adjacent(n, q))
      {
        if DeducibleBefore(q, flagging, n.0, n.1 + 1) {
          var m :| Deduces(m, flagging) && RowMajorBefore(m, n.0, n.1 + 1) && Adjacent(m, q);
          if !RowMajorBefore(m, n.0, n.1) {
            assert m.0 == n.0 && m.1 == n.1;
            assert m == n;
          }
        }
        if DeducibleBefore(q, flagging, n.0, n.1) {
          var m :| Deduces(m, flagging) && RowMajorBefore(m, n.0, n.1) && Adjacent(m, q);
          assert RowMajorBefore(m, n.0, n.1 + 1);
        }
        if Deduces(n, flagging) && Open(q) && Adjacent(n, q) {
          assert RowMajorBefore(n, n.0, n.1 + 1);
        }
      }
    }

    /** The basic deduction over row r, cell by cell, on top of the queues flag0 and reveal0 it started from. */
    method DeduceRow(r: int, ghost flag0: seq<Pos>, ghost reveal0: seq<Pos>)
      requires game.Valid() && 0 <= r < game.rows
      requires Grows(flag0, toFlag) && Grows(reveal0, toReveal)
      requires forall q :: q in toFlag <==> q in flag0 || DeducibleBefore(q, true, r, 0)
      requires forall q :: q in toReveal <==> q in reveal0 || DeducibleBefore(q, false, r, 0)
      modifies this`toFlag, this`toReveal
      ensures Grows(flag0, toFlag) && Grows(reveal0, toReveal)
      ensures forall q :: q in toFlag <==> q in flag0 || DeducibleBefore(q, true, r + 1, 0)
      ensures forall q :: q in toReveal <==> q in reveal0 || DeducibleBefore(q, false, r + 1, 0)
    {
      for c := 0 to game.columns
        invariant Grows(flag0, toFlag) && Grows(reveal0, toReveal)
        invariant forall q :: q in toFlag <==> q in flag0 || DeducibleBefore(q, true, r, c)
        invariant forall q :: q in toReveal <==> q in reveal0 || DeducibleBefore(q, false, r, c)
      {
        ghost var flag1, reveal1 := toFlag, toReveal;
        DeduceAt((r, c));
        GrowsTrans(flag0, flag1, toFlag);
        GrowsTrans(reveal0, reveal1, toReveal);
        DeduceStep(flag0, toFlag, true, (r, c));
        DeduceStep(reveal0, toReveal, false, (r, c));
      }
      forall q, flagging ensures DeducibleBefore(q, flagging, r, game.columns) <==> DeducibleBefore(q, flagging, r + 1, 0) {
        if DeducibleBefore(q, flagging, r + 1, 0) {
          var n :| Deduces(n, flagging) && RowMajorBefore(n, r + 1, 0) && Adjacent(n, q);
          assert n.1 < game.columns;
        }
      }
    }

    /** Looks at every shown number cell, in row-major order, that is not a mine: when its covered
        neighbours are as many as its mines, queues its open neighbours to flag; otherwise, when its
        flagged neighbours are as many as its mines, queues its open neighbours to reveal. Appends
        only cells not queued yet, and leaves the board alone. */
    method BasicDeduction()
      requires game.Valid()
      modifies this`toFlag, this`toReveal
      ensures Grows(old(toFlag), toFlag) && Grows(old(toReveal), toReveal)
      ensures forall q :: q in toFlag <==> q in old(toFlag) || Deducible(q, true)
      ensures forall q :: q in toReveal <==> q in old(toReveal) || Deducible(q, false)
    {
      for r := 0 to game.rows
        invariant Grows(old(toFlag), toFlag) && Grows(old(toReveal), toReveal)
        invariant forall q :: q in toFlag <==> q in old(toFlag) || DeducibleBefore(q, true, r, 0)
        invariant forall q :: q in toReveal <==> q in old(toReveal) || DeducibleBefore(q, false, r, 0)
      {
        DeduceRow(r, old(toFlag), old(toReveal));
      }
      forall q, flagging ensures DeducibleBefore(q, flagging, game.rows, 0) <==> Deducible(q, flagging) {
        if Deducible(q, flagging) {
          var n :| Deduces(n, flagging) && Adjacent(n, q);
          assert RowMajorBefore(n, game.rows, 0);
        }
      }
    }

    /** A covered cell, unflagged when flagged ones are skipped. */
    ghost predicate Candidate(q: Pos, skipFlagged: bool)
      reads game
    {
      InBounds(game.rows, game.columns, q) && q !in game.revealedCells && (!skipFlagged || q !in game.flaggedCells)
    }

    /** A cell the random decision may pick: a covered cell, flagged only when every covered cell is. */
    ghost predicate Guessable(q: Pos)
      reads game
    {
      Candidate(q, false) && (q in game.flaggedCells ==> forall p :: Candidate(p, false) ==> p in game.flaggedCells)
    }

    /** The covered cells in row-major order, leaving out flagged ones when asked to. */
    method CoveredCells(skipFlagged: bool) returns (cells: seq<Pos>)
      requires game.Valid()
      ensures forall q :: q in cells <==> Candidate(q, skipFlagged)
    {
      cells := [];
      for r := 0 to game.rows
        invariant forall q :: q in cells <==> Candidate(q, skipFlagged) && q.0 < r
      {
        for c := 0 to game.columns
          invariant forall q :: q in cells <==> Candidate(q, skipFlagged) && RowMajorBefore(q, r, c)
        {
          if !game.IsRevealed(r, c) && (!skipFlagged || !game.IsFlagged(r, c)) {
            cells := cells + [(r, c)];
          }
        }
      }
    }

    /** Queues to reveal a cell picked at random among the covered unflagged cells or, when there are
        none, among the covered cells. With no covered cell the pick fails and nothing is queued. */
    method RandomDecision() returns (raised: bool)
      requires game.Valid()
      modifies this`toReveal
      ensures raised <==> forall q :: !Candidate(q, false)
      ensures raised ==> toReveal == old(toReveal)
      ensures !raised ==> |toReveal| == |old(toReveal)| + 1 && toReveal[..|old(toReveal)|] == old(toReveal)
                          && Guessable(toReveal[|old(toReveal)|])
    {
      var unflagged := CoveredCells(true);
      var candidates := unflagged;
      if unflagged == [] {
        candidates := CoveredCells(false);
      }
      if candidates == [] {
        return true;
      }
      assert candidates[0] in candidates;
      var pick :| pick in candidates;
      assert Candidate(pick, false);
      if unflagged == [] {
        forall p | Candidate(p, false) ensures p in game.flaggedCells {
          assert Candidate(p, true) ==> p in unflagged;
        }
      }
      toReveal := toReveal + [pick];
      assert Candidate(pick, false);
      return false;
    }

    /** The covered, flagged cells among ns, counted on the board. */
    function FlagsAmong(ns: seq<Pos>): (k: nat)
      reads game, game.grid
      requires game.Valid() && forall q :: q in ns ==> InBounds(game.rows, game.columns, q)
      ensures k == CountIn(ns, Hidden() * game.flaggedCells)
      decreases |ns|
    {
      if ns == [] then 0
      else
        var last := ns[|ns| - 1];
        assert last in ns;
        FlagsAmong(ns[..|ns| - 1]) + if !game.IsRevealed(last.0, last.1) && game.IsFlagged(last.0, last.1) then 1 else 0
    }

    /** While the game is not lost, every mine without a flag is a border cell without a flag
        or a nonborder cell, and no cell is both. */
    lemma UnflaggedMinesTabled(borderCells: seq<Pos>, nonborderCells: seq<Pos>)
      requires game.Valid() && game.gameOutcome != Loss
      requires forall q :: q in borderCells <==> game.BorderCell(q, false)
      requires forall q :: q in nonborderCells <==> game.NonborderCell(q, true)
      ensures game.Mines() - game.flaggedCells <= Elems(borderCells) + Elems(nonborderCells)
      ensures Elems(borderCells) !! Elems(nonborderCells)
    {
      var B, N := Elems(borderCells), Elems(nonborderCells);
      forall q | q in game.Mines() - game.flaggedCells ensures q in B + N {
        var i :| 0 <= i < |game.mineLocations| && game.mineLocations[i] == q;
        assert !game.MineShowing();
        game.BorderSplit(q, true);
        game.BorderSplit(q, false);
      }
      forall q | q in B ensures q !in N {
        game.BorderSplit(q, true);
      }
    }

    /** While no mine shows, there are no more unused flags than border cells without a flag and
        nonborder cells: every unflagged mine is one of them. */
    lemma FlagsWithin(borderCells: seq<Pos>, nonborderCells: seq<Pos>)
      requires game.Valid() && game.gameOutcome != Loss
      requires Distinct(borderCells) && forall q :: q in borderCells <==> game.BorderCell(q, false)
      requires Distinct(nonborderCells) && forall q :: q in nonborderCells <==> game.NonborderCell(q, true)
      ensures game.unusedFlagCount <= |borderCells| + |nonborderCells|
    {
      var B, N, F := Elems(borderCells), Elems(nonborderCells), game.flaggedCells;
      DistinctCard(borderCells);
      DistinctCard(nonborderCells);
      DistinctCard(game.mineLocations);
      var M := game.Mines();
      UnflaggedMinesTabled(borderCells, nonborderCells);
      SubsetCard(M - F, B + N);
      assert M == (M - F) + (M * F);
      SubsetCard(M * F, F);
    }

    /** The mines still to place around each number cell: its count less its covered, flagged neighbours. */
    function MineConstraints(numberCells: seq<Pos>): (mines: map<Pos, int>)
      reads game, game.grid
      requires game.Valid() && forall n :: n in numberCells ==> InBounds(game.rows, game.columns, n)
      ensures mines.Keys == Elems(numberCells)
      ensures forall n :: n in mines && n in game.revealedCells ==> mines[n] == MinesLeft(n)
    {
      map n | n in numberCells :: MinesToPlace(n)
    }

    /** The mines still to place around n: its count less its covered, flagged neighbours. */
    function MinesToPlace(n: Pos): (k: int)
      reads game, game.grid
      requires game.Valid() && InBounds(game.rows, game.columns, n)
      ensures n in game.revealedCells ==> k == MinesLeft(n)
    {
      MinesLeftAt(n);
      game.GetSurroundingCount(n.0, n.1) - FlagsAmong(Surrounding(game.rows, game.columns, n))
    }

    /** Steps 1 to 4 of the probability tables: the neighbour tables, the islands, the arrangements
        the search finds for each island, their likelihoods given u covered cells, and each border
        cell with its chance of being clear. Raised when there are border cells but no island has
        an arrangement. */
    method BorderTable(numberCells: seq<Pos>, borderCells: seq<Pos>, u: int) returns (tab: Tabulation, entries: Outcome<Table>)
      requires game.Valid()
      requires Distinct(numberCells) && forall n :: n in numberCells <==> game.NumberCell(n, false)
      requires Distinct(borderCells) && forall q :: q in borderCells <==> game.BorderCell(q, false)
      requires |borderCells| <= u
      ensures Grouped(tab.borderNeighbours, tab.numberNeighbours, tab.islands, tab.constraints, game.rows, game.columns,
                      Elems(numberCells), Elems(borderCells), MinesOn(numberCells))
      ensures Searched(tab, game.unusedFlagCount, u)
      ensures Shaped(tab.islands, tab.islandSolutions, tab.likelihoods)
      ensures forall i, k :: 0 <= i < |tab.islands| && 0 <= k < |tab.islandSolutions[i]| ==> Bits(tab.islandSolutions[i][k], 0)
      ensures entries.Raised? <==> borderCells != [] && NoArrangements(tab.islandSolutions)
      ensures entries.Raised? <==> Flatten(tab.islands) != [] && NoArrangements(tab.islandSolutions)
      ensures entries.Done? ==> entries.value == BorderEntries(tab.islands, tab.islandSolutions, tab.likelihoods)
      ensures entries.Done? ==> Distinct(Cells(entries.value)) && Elems(Cells(entries.value)) == Elems(borderCells)
      ensures entries.Done? && game.unusedFlagCount <= u ==>
                forall e :: e in entries.value && e.1.Value? ==> 0.0 <= e.1.p <= 1.0
    {
      assert forall n :: n in numberCells ==> InBounds(game.rows, game.columns, n);
      tab := IslandSearch(numberCells, borderCells, u);
      entries := BorderProbabilities(tab.islands, tab.islandSolutions, tab.likelihoods);
      BorderOutcome(tab.islands, tab.islandSolutions, tab.likelihoods, borderCells, entries);
      if game.unusedFlagCount <= u {
        LikelihoodsInRange(tab.islandSolutions, tab.likelihoods, game.unusedFlagCount, u);
        BorderEntriesRange(tab.islands, tab.islandSolutions, tab.likelihoods);
      }
    }

    /** Steps 1 to 3 of the probability tables: the islands the border cells form, the
        arrangements of mines the search finds for each, with no more mines than flags are left,
        and their likelihoods given u covered cells. */
    method IslandSearch(numberCells: seq<Pos>, borderCells: seq<Pos>, u: int) returns (tab: Tabulation)
      requires game.Valid()
      requires Distinct(numberCells) && forall n :: n in numberCells <==> game.NumberCell(n, false)
      requires Distinct(borderCells) && forall q :: q in borderCells <==> game.BorderCell(q, false)
      requires |borderCells| <= u
      ensures Grouped(tab.borderNeighbours, tab.numberNeighbours, tab.islands, tab.constraints, game.rows, game.columns,
                      Elems(numberCells), Elems(borderCells), MinesOn(numberCells))
      ensures Searched(tab, game.unusedFlagCount, u)
      ensures Shaped(tab.islands, tab.islandSolutions, tab.likelihoods)
      ensures forall i, k :: 0 <= i < |tab.islands| && 0 <= k < |tab.islandSolutions[i]| ==>
                Bits(tab.islandSolutions[i][k], 0) && Sum(tab.islandSolutions[i][k]) <= game.unusedFlagCount
    {
      var islands, borderNeighbours, numberNeighbours, mines, unknowns := IslandsOf(numberCells, borderCells);
      var islandSolutions := SearchIslands(islands, numberNeighbours, mines, unknowns, game.unusedFlagCount);
      forall i | 0 <= i < |islands| ensures |islands[i]| <= u {
        IslandWithin(islands, borderCells, i);
      }
      var likelihoods := IslandLikelihoods(islandSolutions, game.unusedFlagCount, u);
      tab := Tabulation(borderNeighbours, numberNeighbours, islands, Constraints(mines, unknowns), islandSolutions, likelihoods);
    }

    /** Steps 1 and 2 of the probability tables: the neighbour tables of the number cells and
        the border cells, the islands the border cells form, and for each number cell the mines
        still to place around it and its covered neighbours without a flag. */
    method IslandsOf(numberCells: seq<Pos>, borderCells: seq<Pos>)
      returns (islands: seq<seq<Pos>>, borderNeighbours: map<Pos, seq<Pos>>, numberNeighbours: map<Pos, seq<Pos>>,
               mines: map<Pos, int>, unknowns: map<Pos, int>)
      requires game.Valid()
      requires Distinct(numberCells) && forall n :: n in numberCells <==> game.NumberCell(n, false)
      requires Distinct(borderCells) && forall q :: q in borderCells <==> game.BorderCell(q, false)
      ensures Grouped(borderNeighbours, numberNeighbours, islands, Constraints(mines, unknowns), game.rows, game.columns,
                      Elems(numberCells), Elems(borderCells), MinesOn(numberCells))
      ensures forall k, b :: 0 <= k < |islands| && b in islands[k] ==> b in numberNeighbours
      ensures Ready(numberNeighbours, Constraints(mines, unknowns))
    {
      borderNeighbours, numberNeighbours := Islands.NeighbourTables(game.rows, game.columns, numberCells, borderCells);
      Islands.TablesAgree(game.rows, game.columns, numberCells, borderCells, borderNeighbours, numberNeighbours);
      islands := Islands.BuildIslands(borderCells, numberNeighbours, borderNeighbours);
      forall k, b | 0 <= k < |islands| && b in islands[k] ensures b in numberNeighbours {
        Islands.CoverMembers(islands, b);
      }
      mines := MineConstraints(numberCells);
      unknowns := map n | n in numberCells && n in borderNeighbours :: |borderNeighbours[n]|;
      CountsOverKeys(numberCells, borderNeighbours);
      MinesOnShown(numberCells, mines);
      forall b, n | b in numberNeighbours && n in numberNeighbours[b] ensures n in mines && n in unknowns {
        Islands.AmongFacts(Surrounding(game.rows, game.columns, b), Elems(numberCells));
      }
    }

    /** The border entries followed by one chance for every nonborder cell make a table of
        the covered cells, each once, that are border cells without a flag or nonborder
        cells, whose nonborder entries all share that chance. */
    lemma TableFacts(borderCells: seq<Pos>, nonborderCells: seq<Pos>, entries: Table, v: real)
      requires forall q :: q in borderCells <==> game.BorderCell(q, false)
      requires Distinct(nonborderCells) && forall q :: q in nonborderCells <==> game.NonborderCell(q, true)
      requires forall q :: q in borderCells ==> q !in nonborderCells
      requires Distinct(Cells(entries)) && Elems(Cells(entries)) == Elems(borderCells)
      requires game.gameOutcome != Loss ==> forall e :: e in entries && e.1.Value? ==> 0.0 <= e.1.p <= 1.0
      requires 0.0 <= v <= 1.0
      ensures var t := entries + Uniform(nonborderCells, v);
              && Distinct(Cells(t))
              && (forall q :: q in Cells(t) <==> game.BorderCell(q, false) || game.NonborderCell(q, true))
              && (game.gameOutcome != Loss ==> forall e :: e in t && e.1.Value? ==> 0.0 <= e.1.p <= 1.0)
              && (forall e :: e in t && e.0 in nonborderCells ==> e.1 == Value(v))
    {
      var t := entries + Uniform(nonborderCells, v);
      JoinFacts(entries, nonborderCells, v);
      forall q ensures q in Cells(t) <==> game.BorderCell(q, false) || game.NonborderCell(q, true) {
        assert q in Cells(t) <==> q in Elems(Cells(t));
      }
    }

    /** The probability table: for every covered cell, the border cells without a flag and the
        nonborder cells, flagged ones included, the chance that it is clear. The border cells come
        first, island by island, then the nonborder cells, all with one chance. Raised when there
        are border cells but no island has an arrangement, and when the nonborder chance divides
        by zero; tab is the work behind the table and nonborderCells the nonborder cells. */
    method ConstructProbabilityTables()
      returns (table: Outcome<Table>, ghost tab: Tabulation, ghost nonborderCells: seq<Pos>)
      requires game.Valid()
      ensures table in BoardTables(Inputs())
      ensures Shaped(tab.islands, tab.islandSolutions, tab.likelihoods)
      ensures table == TableOf(tab, nonborderCells, game.unusedFlagCount)
      ensures Distinct(nonborderCells) && forall q :: q in nonborderCells <==> game.NonborderCell(q, true)
      ensures table.Done? ==> Distinct(Cells(table.value))
      ensures table.Done? ==> forall q :: q in Cells(table.value) <==> game.BorderCell(q, false) || game.NonborderCell(q, true)
      ensures table.Done? && game.gameOutcome != Loss ==>
                forall e :: e in table.value && e.1.Value? ==> 0.0 <= e.1.p <= 1.0
      ensures table.Done? ==>
                forall e, e' :: e in table.value && e' in table.value && game.NonborderCell(e.0, true) && game.NonborderCell(e'.0, true)
                  ==> e.1 == e'.1 && e.1.Value?
      ensures table.Raised? <==>
                || ((exists q :: game.BorderCell(q, false)) && NoArrangements(tab.islandSolutions))
                || (nonborderCells != [] &&
                    NonborderProbability.NonborderChance(tab.islandSolutions, game.unusedFlagCount, |nonborderCells|).Raised?)
    {
      var numberCells := game.RevealedNumberCells(false);
      var borderCells := game.UnrevealedBorderCells(false);
      var nonborder := game.UnrevealedNonborderCells(true);
      table, tab := TableFrom(numberCells, borderCells, nonborder);
      nonborderCells := nonborder;
      SomeBorderCell(borderCells);
      InputsOf(numberCells, borderCells, nonborder);
    }

    /** A list holding exactly the border cells without a flag is empty just when there are none. */
    lemma SomeBorderCell(borderCells: seq<Pos>)
      requires forall q :: q in borderCells <==> game.BorderCell(q, false)
      ensures (exists q :: game.BorderCell(q, false)) <==> borderCells != []
    {
      if borderCells != [] {
        assert game.BorderCell(borderCells[0], false);
      }
    }

    /** What the probability table is computed from on the board as it is. */
    ghost function Inputs(): TableInputs
      reads game
    {
      TableInputs(game.rows, game.columns, NumberSet(), BorderSet(), NonborderSet(), |BorderSet()| + |NonborderSet()|,
                  MinesLeftMap(), game.unusedFlagCount)
    }

    /** The mines still to place around each number cell. */
    ghost function MinesLeftMap(): (mines: map<Pos, int>)
      reads game
      ensures mines.Keys == NumberSet() && forall n :: n in mines ==> mines[n] == MinesLeft(n)
    {
      map n | n in NumberSet() :: MinesLeft(n)
    }

    /** The number cells next to a cell that is neither flagged nor shown. */
    ghost function NumberSet(): (cells: set<Pos>)
      reads game
      ensures forall n :: n in cells <==> game.NumberCell(n, false)
    {
      set r, c | 0 <= r < game.rows && 0 <= c < game.columns && game.NumberCell((r, c), false) :: (r, c)
    }

    /** The border cells without a flag. */
    ghost function BorderSet(): (cells: set<Pos>)
      reads game
      ensures forall q :: q in cells <==> game.BorderCell(q, false)
    {
      BorderCellsExist();
      var cells :| AllBorderCells(cells);
      cells
    }

    /** The nonborder cells, flagged ones included. */
    ghost function NonborderSet(): (cells: set<Pos>)
      reads game
      ensures forall q :: q in cells <==> game.NonborderCell(q, true)
    {
      NonborderCellsExist();
      var cells :| AllNonborderCells(cells);
      cells
    }

    /** cells holds exactly the border cells without a flag. */
    ghost predicate AllBorderCells(cells: set<Pos>)
      reads game
    {
      forall q :: q in cells <==> game.BorderCell(q, false)
    }

    /** cells holds exactly the nonborder cells, flagged ones included. */
    ghost predicate AllNonborderCells(cells: set<Pos>)
      reads game
    {
      forall q :: q in cells <==> game.NonborderCell(q, true)
    }

    /** The border cells without a flag are finitely many: those of the grid that qualify. */
    lemma BorderCellsExist()
      ensures exists cells :: AllBorderCells(cells)
    {
      var cells := set r, c | 0 <= r < game.rows && 0 <= c < game.columns && game.BorderCell((r, c), false) :: (r, c);
      assert AllBorderCells(cells);
    }

    /** The nonborder cells are finitely many: those of the grid that qualify. */
    lemma NonborderCellsExist()
      ensures exists cells :: AllNonborderCells(cells)
    {
      var cells := set r, c | 0 <= r < game.rows && 0 <= c < game.columns && game.NonborderCell((r, c), true) :: (r, c);
      assert AllNonborderCells(cells);
    }

    /** The mines around n that no covered, flagged neighbour accounts for. */
    ghost function MinesLeft(n: Pos): int
      reads game
    {
      game.MineNeighbours(n) - CountIn(Surrounding(game.rows, game.columns, n), Hidden() * game.flaggedCells)
    }

    /** The cells the scans of the board list, each once, are the cells of the table's inputs,
        and the mines still to place that the board shows are theirs. */
    lemma InputsOf(numberCells: seq<Pos>, borderCells: seq<Pos>, nonborderCells: seq<Pos>)
      requires forall n :: n in numberCells <==> game.NumberCell(n, false)
      requires Distinct(borderCells) && forall q :: q in borderCells <==> game.BorderCell(q, false)
      requires Distinct(nonborderCells) && forall q :: q in nonborderCells <==> game.NonborderCell(q, true)
      ensures TableInputs(game.rows, game.columns, Elems(numberCells), Elems(borderCells), Elems(nonborderCells),
                          |borderCells| + |nonborderCells|, MinesOn(numberCells), game.unusedFlagCount) == Inputs()
    {
      DistinctCard(borderCells);
      DistinctCard(nonborderCells);
      SameMembers(numberCells, NumberSet());
      SameMembers(borderCells, BorderSet());
      SameMembers(nonborderCells, NonborderSet());
    }

    /** The mines still to place around each of the given cells. */
    ghost function MinesOn(numberCells: seq<Pos>): (mines: map<Pos, int>)
      reads game
      ensures mines.Keys == Elems(numberCells) && forall n :: n in mines ==> mines[n] == MinesLeft(n)
    {
      map n | n in numberCells :: MinesLeft(n)
    }

    /** What the board shows of the mines still to place around shown cells is MinesOn. */
    lemma MinesOnShown(numberCells: seq<Pos>, mines: map<Pos, int>)
      requires forall n :: n in numberCells ==> n in game.revealedCells
      requires mines.Keys == Elems(numberCells)
      requires forall n :: n in mines && n in game.revealedCells ==> mines[n] == MinesLeft(n)
      ensures mines == MinesOn(numberCells)
    {
    }

    /** At a shown cell, the count the board shows less its covered, flagged neighbours is MinesLeft. */
    lemma MinesLeftAt(n: Pos)
      requires game.Valid() && InBounds(game.rows, game.columns, n)
      ensures forall q :: q in Surrounding(game.rows, game.columns, n) ==> InBounds(game.rows, game.columns, q)
      ensures n in game.revealedCells ==>
                game.GetSurroundingCount(n.0, n.1) - FlagsAmong(Surrounding(game.rows, game.columns, n)) == MinesLeft(n)
    {
      SurroundingFacts(game.rows, game.columns, n);
    }

    /** Steps 1 to 5 of the probability table, from the number cells, the border cells and the
        nonborder cells of the board; tab is the work behind it. */
    method TableFrom(numberCells: seq<Pos>, borderCells: seq<Pos>, nonborderCells: seq<Pos>)
      returns (table: Outcome<Table>, ghost tab: Tabulation)
      requires game.Valid()
      requires Distinct(numberCells) && forall n :: n in numberCells <==> game.NumberCell(n, false)
      requires Distinct(borderCells) && forall q :: q in borderCells <==> game.BorderCell(q, false)
      requires Distinct(nonborderCells) && forall q :: q in nonborderCells <==> game.NonborderCell(q, true)
      ensures table in BoardTables(TableInputs(game.rows, game.columns, Elems(numberCells), Elems(borderCells), Elems(nonborderCells),
                                   |borderCells| + |nonborderCells|, MinesOn(numberCells), game.unusedFlagCount))
      ensures Shaped(tab.islands, tab.islandSolutions, tab.likelihoods)
      ensures table == TableOf(tab, nonborderCells, game.unusedFlagCount)
      ensures table.Done? ==> Distinct(Cells(table.value))
      ensures table.Done? ==> forall q :: q in Cells(table.value) <==> game.BorderCell(q, false) || game.NonborderCell(q, true)
      ensures table.Done? && game.gameOutcome != Loss ==>
                forall e :: e in table.value && e.1.Value? ==> 0.0 <= e.1.p <= 1.0
      ensures table.Done? ==>
                forall e, e' :: e in table.value && e' in table.value && e.0 in nonborderCells && e'.0 in nonborderCells
                  ==> e.1 == e'.1 && e.1.Value?
      ensures table.Raised? <==>
                || (borderCells != [] && NoArrangements(tab.islandSolutions))
                || (nonborderCells != [] &&
                    NonborderProbability.NonborderChance(tab.islandSolutions, game.unusedFlagCount, |nonborderCells|).Raised?)
    {
      var unrevealedCount := |borderCells| + |nonborderCells|;
      var found, border := BorderTable(numberCells, borderCells, unrevealedCount);
      ghost var rows, columns, mines, flags := game.rows, game.columns, MinesOn(numberCells), game.unusedFlagCount;
      assert Worked(found, rows, columns, Elems(numberCells), Elems(borderCells), unrevealedCount, mines, flags);
      tab := found;
      if border.Raised? {
        table := Raised;
      } else {
        var entries := border.value;
        if game.gameOutcome != Loss {
          FlagsWithin(borderCells, nonborderCells);
        }
        forall q | q in borderCells ensures q !in nonborderCells {
          game.BorderSplit(q, true);
        }
        table := AddNonborder(entries, found.islandSolutions, game.unusedFlagCount, nonborderCells);
        if table.Done? {
          var v := if nonborderCells == [] then 0.0
                   else NonborderProbability.NonborderChance(found.islandSolutions, game.unusedFlagCount, |nonborderCells|).value;
          if nonborderCells != [] {
            NonborderProbability.NonborderRange(found.islandSolutions, game.unusedFlagCount, |nonborderCells|);
          }
          assert table.value == entries + Uniform(nonborderCells, v);
          TableFacts(borderCells, nonborderCells, entries, v);
        }
      }
      BoardWitness(table, tab, nonborderCells, rows, columns, Elems(numberCells), Elems(borderCells),
                   Elems(nonborderCells), unrevealedCount, mines, flags);
      assert TableInputs(rows, columns, Elems(numberCells), Elems(borderCells), Elems(nonborderCells), unrevealedCount, mines, flags)
          == TableInputs(game.rows, game.columns, Elems(numberCells), Elems(borderCells), Elems(nonborderCells),
                         |borderCells| + |nonborderCells|, MinesOn(numberCells), game.unusedFlagCount);
    }

    /** A cell the probability table holds: a border cell without a flag or a nonborder cell. */
    ghost predicate Tabled(q: Pos)
      reads game
    {
      game.BorderCell(q, false) || game.NonborderCell(q, true)
    }

    /** The basic deduction finds nothing to flag and nothing to reveal. */
    ghost predicate NothingDeducible()
      reads game
    {
      forall q :: !Deducible(q, true) && !Deducible(q, false)
    }

    /** The cells the basic deduction finds to flag, or to reveal. */
    ghost function DeducedCells(flagging: bool): (cells: set<Pos>)
      reads game
      ensures forall q :: q in cells <==> Deducible(q, flagging)
    {
      set r, c | 0 <= r < game.rows && 0 <= c < game.columns && Deducible((r, c), flagging) :: (r, c)
    }

    /** The cells the probability table holds. */
    ghost function TabledCells(): (cells: set<Pos>)
      reads game
      ensures forall q :: q in cells <==> Tabled(q)
    {
      set r, c | 0 <= r < game.rows && 0 <= c < game.columns && Tabled((r, c)) :: (r, c)
    }

    /** What the board offers the deductions now. */
    ghost function Snapshot(): Deductions
      reads game
    {
      Deductions(DeducedCells(true), DeducedCells(false), TabledCells(), Inputs())
    }

    /** Nothing is deducible exactly when the basic deduction finds no cell. */
    lemma NothingFound()
      ensures NothingDeducible() <==> DeducedCells(true) == {} && DeducedCells(false) == {}
    {
      if !NothingDeducible() {
        var q :| Deducible(q, true) || Deducible(q, false);
        assert q in DeducedCells(true) || q in DeducedCells(false);
      }
    }

    /** The complex deduction, on the probability table it computes from the board. */
    method ComplexDeduction(certainOnly: bool) returns (raised: bool, ghost table: Outcome<Table>)
      requires game.Valid()
      modifies this`toReveal, this`toFlag
      ensures table in BoardTables(Inputs())
      ensures ComplexQueued(table, raised, certainOnly, TabledCells(), old(toReveal), old(toFlag), toReveal, toFlag)
    {
      var computed := TableOfBoard();
      table := computed;
      if computed.Raised? {
        return true, table;
      }
      raised := QueueFromTable(computed.value, certainOnly);
    }

    /** The probability table of the board, one the board gives, holding the cells a table holds. */
    method TableOfBoard() returns (table: Outcome<Table>)
      requires game.Valid()
      ensures table in BoardTables(Inputs())
      ensures table.Done? ==> Elems(Cells(table.value)) == TabledCells()
    {
      ghost var tab, nonborderCells;
      table, tab, nonborderCells := ConstructProbabilityTables();
      if table.Done? {
        var t := table.value;
        forall q ensures q in Elems(Cells(t)) <==> Tabled(q) {
          assert q in Elems(Cells(t)) <==> q in Cells(t);
        }
      }
    }

    /** The complex deduction's queueing from a computed table t: the certain cells when some
        chance is certain, else, unless only certain cells are wanted, a best guess. */
    method QueueFromTable(t: Table, certainOnly: bool) returns (raised: bool)
      modifies this`toReveal, this`toFlag
      ensures QueuedFrom(t, raised, certainOnly, old(toReveal), old(toFlag), toReveal, toFlag)
    {
      raised := false;
      if Certain(t) {
        QueueCertain(t);
      } else if !certainOnly {
        raised := QueueGuess(t);
      }
    }

    /** Queues, in table order, every cell of chance 1 not queued yet to reveal and every cell of
        chance 0 not queued yet to flag. */
    method QueueCertain(t: Table)
      modifies this`toReveal, this`toFlag
      ensures toReveal == Collect(t, Value(1.0), old(toReveal)) && toFlag == Collect(t, Value(0.0), old(toFlag))
    {
      ghost var reveal0, flag0 := toReveal, toFlag;
      for i := 0 to |t|
        invariant toReveal == Collect(t[..i], Value(1.0), reveal0)
        invariant toFlag == Collect(t[..i], Value(0.0), flag0)
      {
        assert t[..i + 1][..i] == t[..i];
        var (cell, chance) := t[i];
        if chance == Value(1.0) && cell !in toReveal {
          toReveal := toReveal + [cell];
        }
        if chance == Value(0.0) && cell !in toFlag {
          toFlag := toFlag + [cell];
        }
      }
      assert t[..|t|] == t;
    }

    /** Queues to reveal one of the cells of greatest chance, drawn at random; raises, queuing
        nothing, when the table is empty or its first chance is NaN. */
    method QueueGuess(t: Table) returns (raised: bool)
      modifies this`toReveal
      ensures raised <==> t == [] || t[0].1 == Undefined
      ensures raised ==> toReveal == old(toReveal)
      ensures !raised ==> && |toReveal| == |old(toReveal)| + 1 && toReveal[..|old(toReveal)|] == old(toReveal)
                          && BestGuess(t, toReveal[|old(toReveal)|])
    {
      if t == [] {
        return true;
      }
      var best := t[Champion(t)].1;
      var guesses := Matching(t, best);
      GuessFacts(t);
      if guesses == [] {
        return true;
      }
      assert guesses[0] in guesses;
      var pick :| pick in guesses;
      toReveal := toReveal + [pick];
      return false;
    }

    /** Fills the empty queues as an action does: the basic deduction first and, when it finds
        nothing, the complex deduction, on the probability table it computes. Every queued cell
        was deduced, or is a table cell once nothing is deducible. Raises with both queues still
        empty, or leaves a cell to act on. The random decision, the third step of an action, runs
        only when both queues are still empty after these two; its contract shows that
        without a raise they never are, so it is not called. */
    method Refill() returns (raised: bool, ghost table: Outcome<Table>)
      requires Valid() && toReveal == [] && toFlag == []
      modifies this`toReveal, this`toFlag
      ensures Valid()
      ensures Refilled(table, raised, toReveal, toFlag, Snapshot())
      ensures raised ==> toReveal == [] && toFlag == []
      ensures !raised ==> toReveal != [] || toFlag != []
      ensures forall q :: q in toReveal ==> Deducible(q, false) || (NothingDeducible() && Tabled(q))
      ensures forall q :: q in toFlag ==> Deducible(q, true) || (NothingDeducible() && Tabled(q))
    {
      var found := BasicRefill();
      if found {
        raised, table := false, Raised;
        OnGridFacts(toReveal);
        OnGridFacts(toFlag);
      } else {
        raised, table := ComplexRefill();
      }
    }

    /** The basic deduction on empty queues: found when it queues some cell, and then the queues
        are a refill. */
    method BasicRefill() returns (found: bool)
      requires game.Valid() && toReveal == [] && toFlag == []
      modifies this`toReveal, this`toFlag
      ensures found <==> toReveal != [] || toFlag != []
      ensures !found ==> NothingDeducible()
      ensures found ==> Refilled(Raised, false, toReveal, toFlag, Snapshot())
      ensures forall q :: q in toReveal || q in toFlag ==> InBounds(game.rows, game.columns, q)
      ensures forall q :: q in toReveal ==> Deducible(q, false)
      ensures forall q :: q in toFlag ==> Deducible(q, true)
    {
      BasicDeduction();
      found := toReveal != [] || toFlag != [];
      if found {
        BasicRefilled(toReveal, toFlag);
      }
    }

    /** The complex deduction on empty queues once nothing is deducible. */
    method ComplexRefill() returns (raised: bool, ghost table: Outcome<Table>)
      requires Valid() && toReveal == [] && toFlag == [] && NothingDeducible()
      modifies this`toReveal, this`toFlag
      ensures Valid()
      ensures Refilled(table, raised, toReveal, toFlag, Snapshot())
      ensures raised ==> toReveal == [] && toFlag == []
      ensures !raised ==> toReveal != [] || toFlag != []
      ensures forall q :: q in toReveal ==> Tabled(q)
      ensures forall q :: q in toFlag ==> Tabled(q)
    {
      raised, table := ComplexDeduction(false);
      ComplexRefilled(table, raised, toReveal, toFlag);
      OnGridFacts(toReveal);
      OnGridFacts(toFlag);
    }

    /** Queues that hold exactly the cells the basic deduction finds, some, are a refill. */
    lemma BasicRefilled(revealQueue: seq<Pos>, flagQueue: seq<Pos>)
      requires Grows([], revealQueue) && Grows([], flagQueue) && (revealQueue != [] || flagQueue != [])
      requires forall q :: q in flagQueue <==> Deducible(q, true)
      requires forall q :: q in revealQueue <==> Deducible(q, false)
      ensures Refilled(Raised, false, revealQueue, flagQueue, Snapshot())
      ensures forall q :: q in revealQueue || q in flagQueue ==> InBounds(game.rows, game.columns, q)
    {
      FoundQueues(revealQueue, flagQueue);
      RefilledIs(Raised, false, revealQueue, flagQueue, Snapshot());
      if revealQueue != [] {
        assert revealQueue[0] in Elems(revealQueue);
      } else {
        assert flagQueue[0] in Elems(flagQueue);
      }
    }

    /** Queues that hold exactly the cells the basic deduction finds hold its cell sets. */
    lemma FoundQueues(revealQueue: seq<Pos>, flagQueue: seq<Pos>)
      requires forall q :: q in flagQueue <==> Deducible(q, true)
      requires forall q :: q in revealQueue <==> Deducible(q, false)
      ensures Elems(flagQueue) == DeducedCells(true) && Elems(revealQueue) == DeducedCells(false)
    {
    }

    /** When nothing is deducible, what the complex deduction leaves in empty queues from a table
        the board gives is a refill;
        unless it raised, it queued some cell, and only cells of the table. */
    lemma ComplexRefilled(table: Outcome<Table>, raised: bool, revealQueue: seq<Pos>, flagQueue: seq<Pos>)
      requires NothingDeducible() && table in BoardTables(Inputs())
      requires ComplexQueued(table, raised, false, TabledCells(), [], [], revealQueue, flagQueue)
      ensures Refilled(table, raised, revealQueue, flagQueue, Snapshot())
      ensures raised ==> revealQueue == [] && flagQueue == []
      ensures !raised ==> revealQueue != [] || flagQueue != []
      ensures forall q :: q in revealQueue || q in flagQueue ==> Tabled(q) && InBounds(game.rows, game.columns, q)
      ensures forall q :: q in revealQueue ==> Deducible(q, false) || (NothingDeducible() && Tabled(q))
      ensures forall q :: q in flagQueue ==> Deducible(q, true) || (NothingDeducible() && Tabled(q))
    {
      NothingFound();
      assert RefillOf(table, raised, revealQueue, flagQueue, Snapshot());
      RefilledIs(table, raised, revealQueue, flagQueue, Snapshot());
      if !raised {
        QueuedFromTable(table.value, revealQueue, flagQueue);
        forall q | q in revealQueue || q in flagQueue ensures Tabled(q) && InBounds(game.rows, game.columns, q) {
          assert q in Elems(Cells(table.value));
        }
      }
    }

    /** A queue of covered cells lies on the grid. */
    lemma OnGridFacts(queue: seq<Pos>)
      requires forall q :: q in queue ==> InBounds(game.rows, game.columns, q)
      ensures OnGrid(queue)
    {
      forall i | 0 <= i < |queue| ensures InBounds(game.rows, game.columns, queue[i]) {
        assert queue[i] in queue;
      }
    }

    /** The queue without the cells already shown, in queue order. */
    function Unshown(queue: seq<Pos>): (kept: seq<Pos>)
      reads game, game.grid
      requires game.CellsMatch() && OnGrid(queue)
      ensures OnGrid(kept) && |kept| <= |queue|
      ensures forall q :: q in kept <==> q in queue && q !in game.revealedCells
      decreases |queue|
    {
      if queue == [] then []
      else
        var q := queue[|queue| - 1];
        assert queue == queue[..|queue| - 1] + [q];
        Unshown(queue[..|queue| - 1]) + if game.IsRevealed(q.0, q.1) then [] else [q]
    }

    /** The queues after taking the last cell queued to reveal off the queue rev or, when there is
        none, the last cell queued to flag off the queue fl: cell is the one taken. */
    predicate Popped(rev: seq<Pos>, fl: seq<Pos>, cell: Pos, revealing: bool)
      reads this`toReveal, this`toFlag
    {
      && (revealing <==> rev != [])
      && (revealing ==> cell == rev[|rev| - 1] && toReveal == rev[..|rev| - 1] && toFlag == fl)
      && (!revealing ==> fl != [] && cell == fl[|fl| - 1] && toFlag == fl[..|fl| - 1] && toReveal == rev)
    }

    /** What acting on cell did to the board: a chain reveal from it, recorded as a new move, or
        a flag put on it when a flag is left and the cell is covered and carries none. */
    twostate predicate Applied(cell: Pos, revealing: bool)
      reads game
    {
      if revealing then
        && |game.prevMoves| == |old(game.prevMoves)| + 1
        && game.FloodFill(game.prevMoves[|game.prevMoves| - 1], cell, old(game.revealedCells),
                          old(game.gameOutcome), game.revealedCells, game.gameOutcome)
      else
        var acts := old(game.unusedFlagCount) > 0 && cell !in old(game.revealedCells) && cell !in old(game.flaggedCells);
        && game.prevMoves == old(game.prevMoves) && game.revealedCells == old(game.revealedCells)
        && game.flaggedCells == old(game.flaggedCells) + (if acts then {cell} else {})
        && game.unusedFlagCount == old(game.unusedFlagCount) - (if acts then 1 else 0)
    }

    /** One action of the bot while the game is on: drops the shown cells from both queues,
        refills them when both are empty, then chain-reveals the last cell queued to reveal or,
        when there is none, flags the last cell queued to flag. The cell acted on was covered; it
        is the last queued one that is still covered when there is one, and otherwise a cell the
        basic deduction finds or, when it finds nothing, a cell of the probability table. Raises
        only with nothing queued and nothing done; once the game is over nothing changes.
        queuedReveal and queuedFlag are the queues the cell is taken from, and table the
        probability table a refill computes when nothing is deducible. */
    method TakeAction()
      returns (raised: bool, ghost acted: Pos, ghost revealing: bool,
               ghost queuedReveal: seq<Pos>, ghost queuedFlag: seq<Pos>, ghost table: Outcome<Table>)
      requires Valid()
      modifies this`toReveal, this`toFlag, game`prevMoves, game`revealedCellCount, game`gameOutcome,
               game`unusedFlagCount, game`revealedCells, game`flaggedCells, game.grid
      ensures Valid()
      ensures old(game.gameOutcome) != Inconclusive ==>
                !raised && toReveal == old(toReveal) && toFlag == old(toFlag) && unchanged(game) && unchanged(game.grid)
      ensures old(game.gameOutcome) == Inconclusive ==>
                Chosen(old(Unshown(toReveal)), old(Unshown(toFlag)), old(Snapshot()), queuedReveal, queuedFlag,
                       raised, acted, revealing, table)
      ensures old(game.gameOutcome) == Inconclusive && raised ==>
                toReveal == [] && toFlag == [] && unchanged(game) && unchanged(game.grid)
      ensures old(game.gameOutcome) == Inconclusive && !raised ==>
                && InBounds(game.rows, game.columns, acted) && acted !in old(game.revealedCells)
                && Popped(queuedReveal, queuedFlag, acted, revealing) && Applied(acted, revealing)
    {
      raised, acted, revealing := false, (0, 0), false;
      queuedReveal, queuedFlag, table := toReveal, toFlag, Raised;
      if game.gameOutcome == Inconclusive {
        raised, acted, revealing, table := Choose();
        queuedReveal, queuedFlag := toReveal, toFlag;
        if !raised {
          ghost var cell, popped := Act();
        }
      }
    }

    /** Drops the shown cells from both queues. */
    method DropShown()
      requires Valid()
      modifies this`toReveal, this`toFlag
      ensures Valid()
      ensures toReveal == old(Unshown(toReveal)) && toFlag == old(Unshown(toFlag))
      ensures forall q :: q in toReveal || q in toFlag ==> q !in game.revealedCells
    {
      toReveal, toFlag := Unshown(toReveal), Unshown(toFlag);
    }

    /** What the first half of an action settled, given the queues keptReveal and keptFlag left
        after dropping the shown cells and the deductions d of the board: kept cells stay queued
        as they were, and only when none is kept are the queues refilled from d, which raises
        only when nothing is found. queuedReveal and queuedFlag are the queues that result.
        Unless it raises, next is the cell the action goes on to act on, the last one queued to
        reveal or else the last one queued to flag; after a refill it is a cell the basic
        deduction found or, when it found nothing, a tabled cell. */
    ghost predicate Chosen(keptReveal: seq<Pos>, keptFlag: seq<Pos>, d: Deductions,
                           queuedReveal: seq<Pos>, queuedFlag: seq<Pos>,
                           raised: bool, next: Pos, revealing: bool, table: Outcome<Table>)
    {
      && (raised ==> keptReveal == [] && keptFlag == [] && queuedReveal == [] && queuedFlag == [])
      && (!raised ==>
            && (revealing <==> queuedReveal != []) && (revealing || queuedFlag != [])
            && next == (if revealing then queuedReveal[|queuedReveal| - 1] else queuedFlag[|queuedFlag| - 1]))
      && (keptReveal != [] || keptFlag != [] ==> !raised && queuedReveal == keptReveal && queuedFlag == keptFlag)
      && (keptReveal == [] && keptFlag == [] ==> Refilled(table, raised, queuedReveal, queuedFlag, d))
      && (keptReveal == [] && keptFlag == [] && !raised ==>
            || next in (if revealing then d.revealing else d.flagging)
            || (d.flagging == {} && d.revealing == {} && next in d.tabled))
    }

    /** The first half of an action: drops the shown cells from both queues, refills them when
        both are empty and names the covered cell the action goes on to act on. A refill
        computes table when nothing is deducible. */
    method Choose() returns (raised: bool, ghost next: Pos, ghost revealing: bool, ghost table: Outcome<Table>)
      requires Valid()
      modifies this`toReveal, this`toFlag
      ensures Valid()
      ensures Chosen(old(Unshown(toReveal)), old(Unshown(toFlag)), old(Snapshot()), toReveal, toFlag,
                     raised, next, revealing, table)
      ensures !raised ==> InBounds(game.rows, game.columns, next) && next !in game.revealedCells
    {
      DropShown();
      if toReveal == [] && toFlag == [] {
        raised, next, revealing, table := RefillPick();
      } else {
        raised, next, revealing, table := PickKept();
      }
    }

    /** Names the last cell queued to reveal or else the last one queued to flag when some
        covered cell is queued. */
    method PickKept() returns (raised: bool, ghost next: Pos, ghost revealing: bool, ghost table: Outcome<Table>)
      requires Valid() && (toReveal != [] || toFlag != [])
      requires forall q :: q in toReveal || q in toFlag ==> q !in game.revealedCells
      ensures Chosen(toReveal, toFlag, Snapshot(), toReveal, toFlag, raised, next, revealing, table)
      ensures !raised ==> InBounds(game.rows, game.columns, next) && next !in game.revealedCells
    {
      raised, table := false, Raised;
      revealing := toReveal != [];
      next := if revealing then toReveal[|toReveal| - 1] else toFlag[|toFlag| - 1];
      assert next in toReveal || next in toFlag;
    }

    /** Refills the empty queues, then names the last cell queued to reveal or else the last one
        queued to flag. */
    method RefillPick() returns (raised: bool, ghost next: Pos, ghost revealing: bool, ghost table: Outcome<Table>)
      requires Valid() && toReveal == [] && toFlag == []
      modifies this`toReveal, this`toFlag
      ensures Valid() && Chosen([], [], Snapshot(), toReveal, toFlag, raised, next, revealing, table)
      ensures !raised ==> InBounds(game.rows, game.columns, next) && next !in game.revealedCells
    {
      raised, table := Refill();
      next, revealing := (0, 0), false;
      if !raised {
        revealing := toReveal != [];
        next := if revealing then toReveal[|toReveal| - 1] else toFlag[|toFlag| - 1];
        assert next in toReveal || next in toFlag;
        Covered(next, !revealing);
        ghost var d := Snapshot();
        if d.flagging == {} && d.revealing == {} {
          assert next in d.tabled;
        } else if revealing {
          assert next in Elems(toReveal);
        } else {
          assert next in Elems(toFlag);
        }
      }
      assert Valid();
    }

    /** A cell the deductions may queue is not shown. */
    lemma Covered(q: Pos, flagging: bool)
      requires Deducible(q, flagging) || Tabled(q)
      ensures q !in game.revealedCells
    {
    }

    /** Chain-reveals the last cell queued to reveal or, when there is none, flags the last cell
        queued to flag, taking it off its queue. */
    method Act() returns (ghost acted: Pos, ghost revealing: bool)
      requires Valid() && (toReveal != [] || toFlag != [])
      modifies this`toReveal, this`toFlag, game`prevMoves, game`revealedCellCount, game`gameOutcome,
               game`unusedFlagCount, game`revealedCells, game`flaggedCells, game.grid
      ensures Valid()
      ensures Popped(old(toReveal), old(toFlag), acted, revealing) && Applied(acted, revealing)
    {
      if toReveal != [] {
        var cell := Pop(true);
        acted, revealing := cell, true;
        game.ChainReveal(cell.0, cell.1);
      } else {
        var cell := Pop(false);
        acted, revealing := cell, false;
        game.Flag(cell.0, cell.1);
      }
    }

    /** Takes the last cell off the reveal queue or the flag queue. */
    method Pop(revealing: bool) returns (cell: Pos)
      requires OnGrid(toReveal) && OnGrid(toFlag)
      requires if revealing then toReveal != [] else toFlag != []
      modifies this`toReveal, this`toFlag
      ensures OnGrid(toReveal) && OnGrid(toFlag) && InBounds(game.rows, game.columns, cell)
      ensures revealing ==> && cell == old(toReveal)[|old(toReveal)| - 1]
                            && toReveal == old(toReveal)[..|old(toReveal)| - 1] && toFlag == old(toFlag)
      ensures !revealing ==> && cell == old(toFlag)[|old(toFlag)| - 1]
                             && toFlag == old(toFlag)[..|old(toFlag)| - 1] && toReveal == old(toReveal)
    {
      if revealing {
        cell := toReveal[|toReveal| - 1];
        toReveal := toReveal[..|toReveal| - 1];
      } else {
        cell := toFlag[|toFlag| - 1];
        toFlag := toFlag[..|toFlag| - 1];
      }
    }
  }
}
