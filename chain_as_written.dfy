/** The chain reveal loop exactly as the board writes it, on values: a cell leaves the
    pending set once it has been tried, so a tried cell that stayed covered can be queued
    again. While the game is on every tried cell shows and this never happens; once the game
    is lost nothing shows any more, and two neighbouring covered zero-count cells queue each
    other for ever. GameStructures.Game.ChainReveal is the corrected walk. */
module ChainAsWritten {
  import opened Grid

  datatype Option<T> = None | Some(value: T)

  /** What the chain reveal reads and changes: the dimensions, the mine cells, the shown cells
      and the outcome. Flags and counters do not steer the walk. */
  datatype Board = Board(rows: nat, columns: nat, mines: set<Pos>, shown: set<Pos>, outcome: GameOutcome)

  /** The walk: the list of cells to try, the cells pending in it, and the index of the next one. */
  datatype Walk = Walk(list: seq<Pos>, pending: set<Pos>, next: nat)

  /** A single reveal on values: a covered cell shows while the game is on; a mine loses, the
      last safe cell wins. */
  function RevealOne(b: Board, p: Pos): (b': Board)
    ensures b'.rows == b.rows && b'.columns == b.columns && b'.mines == b.mines
    ensures p !in b.shown && b.outcome == Inconclusive ==>
              b'.shown == b.shown + {p} && (b'.outcome == Loss <==> p in b.mines)
    ensures p in b.shown || b.outcome != Inconclusive ==> b' == b
  {
    if p !in b.shown && b.outcome == Inconclusive then
      var shown := b.shown + {p};
      b.(shown := shown,
         outcome := if p in b.mines then Loss
                    else if |shown| == b.rows * b.columns - |b.mines| then Win
                    else Inconclusive)
    else b
  }

  /** Appends, in order, the cells of ns that are neither shown nor pending, marking each pending. */
  function AppendFresh(ns: seq<Pos>, shown: set<Pos>, list: seq<Pos>, pending: set<Pos>): (r: (seq<Pos>, set<Pos>))
    ensures |r.0| >= |list| && r.0[..|list|] == list
    ensures forall j :: |list| <= j < |r.0| ==> r.0[j] in ns && r.0[j] !in shown && r.0[j] !in pending
    ensures pending <= r.1 && forall j :: |list| <= j < |r.0| ==> r.0[j] in r.1
    decreases |ns|
  {
    if ns == [] then (list, pending)
    else if ns[0] !in shown && ns[0] !in pending then AppendFresh(ns[1..], shown, list + [ns[0]], pending + {ns[0]})
    else AppendFresh(ns[1..], shown, list, pending)
  }

  /** AppendFresh over a single cell. */
  lemma AppendOne(x: Pos, shown: set<Pos>, list: seq<Pos>, pending: set<Pos>)
    ensures AppendFresh([x], shown, list, pending)
            == if x !in shown && x !in pending then (list + [x], pending + {x}) else (list, pending)
  {
    assert [x][1..] == [];
  }

  /** AppendFresh over two cells, the first of which is fresh. */
  lemma AppendTwo(x: Pos, y: Pos, shown: set<Pos>, list: seq<Pos>, pending: set<Pos>)
    requires x !in shown && x !in pending && x != y
    ensures AppendFresh([x, y], shown, list, pending)
            == if y !in shown && y !in pending then (list + [x, y], pending + {x, y})
               else (list + [x], pending + {x})
  {
    assert [x, y][1..] == [y];
    AppendOne(y, shown, list + [x], pending + {x});
    assert y in pending + {x} <==> y in pending;
    assert list + [x] + [y] == list + [x, y];
    assert pending + {x} + {y} == pending + {x, y};
  }

  /** One turn of the loop as written: try the next cell, drop it from the pending set and,
      when its count is zero, queue its covered neighbours that are not pending. */
  function Step(b: Board, w: Walk): (Board, Walk)
    requires w.next < |w.list|
  {
    var p := w.list[w.next];
    var b' := RevealOne(b, p);
    var pending := w.pending - {p};
    if MinesAround(b.rows, b.columns, b.mines, p) == 0 then
      var (list, pending') := AppendFresh(Surrounding(b.rows, b.columns, p), b'.shown, w.list, pending);
      (b', Walk(list, pending', w.next + 1))
    else
      (b', Walk(w.list, pending, w.next + 1))
  }

  /** A turn on a finished game shows nothing; on a zero-count cell it queues the fresh neighbours. */
  lemma StepOver(b: Board, w: Walk, ns: seq<Pos>, count: nat)
    requires w.next < |w.list| && b.outcome != Inconclusive
    requires MinesAround(b.rows, b.columns, b.mines, w.list[w.next]) == count
    requires Surrounding(b.rows, b.columns, w.list[w.next]) == ns
    ensures var queued := AppendFresh(ns, b.shown, w.list, w.pending - {w.list[w.next]});
            Step(b, w) == if count == 0 then (b, Walk(queued.0, queued.1, w.next + 1))
                          else (b, Walk(w.list, w.pending - {w.list[w.next]}, w.next + 1))
  {
  }

  /** Runs the loop for at most fuel turns: the final board and walk if it ran out of cells, None otherwise. */
  function Run(b: Board, w: Walk, fuel: nat): Option<(Board, Walk)>
    decreases fuel
  {
    if w.next >= |w.list| then Some((b, w))
    else if fuel == 0 then None
    else
      var (b', w') := Step(b, w);
      Run(b', w', fuel - 1)
  }

  /** A turn whose outcome is known moves the run on by one turn. */
  lemma RunTurn(b: Board, w: Walk, fuel: nat, b': Board, w': Walk)
    requires w.next < |w.list| && fuel > 0 && Step(b, w) == (b', w')
    ensures Run(b, w, fuel) == Run(b', w', fuel - 1)
  {
  }

  function Start(p: Pos): Walk {
    Walk([p], {p}, 0)
  }

  /** A lost 1 x 4 game: the mine at the right end shows. */
  const LostRow := Board(1, 4, {(0, 3)}, {(0, 3)}, Loss)

  /** (0, 0) on the lost row: no mine beside it, and (0, 1) is its only neighbour. */
  lemma Corner()
    ensures MinesAround(1, 4, {(0, 3)}, (0, 0)) == 0
    ensures Surrounding(1, 4, (0, 0)) == [(0, 1)]
  {
    MinesAroundOne(1, 4, (0, 3), (0, 0));
    CornerNeighbours();
  }

  /** The neighbours of (0, 0) on a 1 x 4 grid, row by row. */
  lemma CornerNeighbours()
    ensures Surrounding(1, 4, (0, 0)) == [(0, 1)]
  {
    SurroundingByRows(1, 4, (0, 0));
    KeepThree(1, 4, (0, 0), (-1, -1), (-1, 0), (-1, 1));
    KeepThree(1, 4, (0, 0), (0, -1), (0, 0), (0, 1));
    KeepThree(1, 4, (0, 0), (1, -1), (1, 0), (1, 1));
    assert KeepNeighbours(1, 4, (0, 0), [(-1, -1), (-1, 0), (-1, 1)]) == [];
    assert KeepNeighbours(1, 4, (0, 0), [(0, -1), (0, 0), (0, 1)]) == [(0, 1)];
    assert KeepNeighbours(1, 4, (0, 0), [(1, -1), (1, 0), (1, 1)]) == [];
  }

  /** (0, 1) on the lost row: no mine beside it, and its neighbours are (0, 0) and (0, 2). */
  lemma Second()
    ensures MinesAround(1, 4, {(0, 3)}, (0, 1)) == 0
    ensures Surrounding(1, 4, (0, 1)) == [(0, 0), (0, 2)]
  {
    MinesAroundOne(1, 4, (0, 3), (0, 1));
    SecondNeighbours();
  }

  /** The neighbours of (0, 1) on a 1 x 4 grid, row by row. */
  lemma SecondNeighbours()
    ensures Surrounding(1, 4, (0, 1)) == [(0, 0), (0, 2)]
  {
    calc {
      Surrounding(1, 4, (0, 1));
      { SurroundingByRows(1, 4, (0, 1)); }
      KeepNeighbours(1, 4, (0, 1), [(-1, 0), (-1, 1), (-1, 2)])
        + KeepNeighbours(1, 4, (0, 1), [(0, 0), (0, 1), (0, 2)])
        + KeepNeighbours(1, 4, (0, 1), [(1, 0), (1, 1), (1, 2)]);
      { KeepThree(1, 4, (0, 1), (-1, 0), (-1, 1), (-1, 2));
        KeepThree(1, 4, (0, 1), (0, 0), (0, 1), (0, 2));
        KeepThree(1, 4, (0, 1), (1, 0), (1, 1), (1, 2)); }
      [] + ([(0, 0)] + [] + [(0, 2)]) + [];
      [(0, 0), (0, 2)];
    }
  }

  /** Trying (0, 0) first queues (0, 1) and nothing is shown. */
  lemma StartStep()
    ensures Step(LostRow, Start((0, 0))) == (LostRow, Walk([(0, 0), (0, 1)], {(0, 1)}, 1))
  {
    Corner();
    StepOver(LostRow, Start((0, 0)), [(0, 1)], 0);
    assert {(0, 0)} - {(0, 0)} == {};
    AppendOne((0, 1), {(0, 3)}, [(0, 0)], {});
    assert [(0, 0)] + [(0, 1)] == [(0, 0), (0, 1)];
    assert {} + {(0, 1)} == {(0, 1)};
  }

  /** The three points the walk on the lost row keeps coming back to: about to try (0, 1)
      with nothing after it; about to try (0, 0) and then (0, 2); about to try (0, 2) and then (0, 1). */
  predicate Cycling(w: Walk) {
    || (w.next + 1 == |w.list| && w.list[w.next] == (0, 1) && w.pending == {(0, 1)})
    || (w.next + 2 == |w.list| && w.list[w.next] == (0, 0) && w.list[w.next + 1] == (0, 2)
        && w.pending == {(0, 0), (0, 2)})
    || (w.next + 2 == |w.list| && w.list[w.next] == (0, 2) && w.list[w.next + 1] == (0, 1)
        && w.pending == {(0, 2), (0, 1)})
  }

  /** What (0, 1)'s turn queues on the lost row once nothing is pending. */
  lemma QueueAfterSecond(list: seq<Pos>)
    ensures AppendFresh([(0, 0), (0, 2)], {(0, 3)}, list, {}) == (list + [(0, 0), (0, 2)], {(0, 0), (0, 2)})
  {
    AppendTwo((0, 0), (0, 2), {(0, 3)}, list, {});
    assert {} + {(0, 0), (0, 2)} == {(0, 0), (0, 2)};
  }

  /** What (0, 0)'s turn queues on the lost row while (0, 2) is pending. */
  lemma QueueAfterCorner(list: seq<Pos>)
    ensures AppendFresh([(0, 1)], {(0, 3)}, list, {(0, 2)}) == (list + [(0, 1)], {(0, 2), (0, 1)})
  {
    AppendOne((0, 1), {(0, 3)}, list, {(0, 2)});
    assert {(0, 2)} + {(0, 1)} == {(0, 2), (0, 1)};
  }

  /** Trying (0, 1) queues both its neighbours again, (0, 0) included. */
  lemma StepAt01(w: Walk)
    requires w.next + 1 == |w.list| && w.list[w.next] == (0, 1) && w.pending == {(0, 1)}
    ensures Step(LostRow, w) == (LostRow, Walk(w.list + [(0, 0), (0, 2)], {(0, 0), (0, 2)}, w.next + 1))
  {
    Second();
    StepOver(LostRow, w, [(0, 0), (0, 2)], 0);
    assert w.pending - {(0, 1)} == {};
    QueueAfterSecond(w.list);
  }

  /** Trying (0, 0) again queues (0, 1) again. */
  lemma StepAt00(w: Walk)
    requires w.next < |w.list| && w.list[w.next] == (0, 0) && w.pending == {(0, 0), (0, 2)}
    ensures Step(LostRow, w) == (LostRow, Walk(w.list + [(0, 1)], {(0, 2), (0, 1)}, w.next + 1))
  {
    Corner();
    StepOver(LostRow, w, [(0, 1)], 0);
    assert w.pending - {(0, 0)} == {(0, 2)};
    QueueAfterCorner(w.list);
  }

  /** Trying (0, 2), which has a mine beside it, queues nothing. */
  lemma StepAt02(w: Walk)
    requires w.next < |w.list| && w.list[w.next] == (0, 2) && w.pending == {(0, 2), (0, 1)}
    ensures Step(LostRow, w) == (LostRow, Walk(w.list, {(0, 1)}, w.next + 1))
  {
    MinesAroundOne(1, 4, (0, 3), (0, 2));
    StepOver(LostRow, w, Surrounding(1, 4, (0, 2)), 1);
    assert w.pending - {(0, 2)} == {(0, 1)};
  }

  /** The point the walk reaches after one turn from a point of the cycle. */
  function Turn(w: Walk): Walk
    requires Cycling(w)
  {
    if w.list[w.next] == (0, 1) then Walk(w.list + [(0, 0), (0, 2)], {(0, 0), (0, 2)}, w.next + 1)
    else if w.list[w.next] == (0, 0) then Walk(w.list + [(0, 1)], {(0, 2), (0, 1)}, w.next + 1)
    else Walk(w.list, {(0, 1)}, w.next + 1)
  }

  /** A Turn from a point of the cycle lands on the next point. */
  lemma TurnCycles(w: Walk)
    requires Cycling(w)
    ensures w.next < |w.list| && Cycling(Turn(w))
  {
    var w' := Turn(w);
    if w.list[w.next] == (0, 1) {
      assert w'.list[w'.next] == (0, 0) && w'.list[w'.next + 1] == (0, 2);
    } else if w.list[w.next] == (0, 0) {
      assert w'.list[w'.next] == (0, 2) && w'.list[w'.next + 1] == (0, 1);
    }
  }

  /** A turn of the lost row's walk from any of those points leaves the board as it was and is a Turn. */
  lemma CyclingStep(w: Walk)
    requires Cycling(w)
    ensures w.next < |w.list| && Step(LostRow, w) == (LostRow, Turn(w))
  {
    if w.list[w.next] == (0, 1) {
      StepAt01(w);
    } else if w.list[w.next] == (0, 0) {
      StepAt00(w);
    } else {
      StepAt02(w);
    }
  }

  /** Every turn of the lost row's walk from a point of the cycle is a Turn. */
  lemma LostRowCycles()
    ensures forall v :: Cycling(v) ==> Step(LostRow, v) == (LostRow, Turn(v))
  {
    forall v | Cycling(v)
      ensures Step(LostRow, v) == (LostRow, Turn(v))
    {
      CyclingStep(v);
    }
  }

  /** On a board whose turns from the points of the cycle are Turns, the loop never runs out
      of cells from those points, however long it runs. */
  lemma {:induction false} CycleNeverEnds(b: Board, w: Walk, fuel: nat)
    requires forall v :: Cycling(v) ==> Step(b, v) == (b, Turn(v))
    requires Cycling(w)
    ensures Run(b, w, fuel) == None
    decreases fuel
  {
    TurnCycles(w);
    if fuel > 0 {
      RunTurn(b, w, fuel, b, Turn(w));
      CycleNeverEnds(b, Turn(w), fuel - 1);
    }
  }

  /** On such a board the loop started from (0, 0) never ends when its first turn reaches the cycle. */
  lemma StartNeverEnds(b: Board, fuel: nat)
    requires forall v :: Cycling(v) ==> Step(b, v) == (b, Turn(v))
    requires Step(b, Start((0, 0))) == (b, Walk([(0, 0), (0, 1)], {(0, 1)}, 1))
    ensures Run(b, Start((0, 0)), fuel) == None
  {
    var w1 := Walk([(0, 0), (0, 1)], {(0, 1)}, 1);
    if fuel > 0 {
      RunTurn(b, Start((0, 0)), fuel, b, w1);
      CycleNeverEnds(b, w1, fuel - 1);
    }
  }

  /** The finding: a chain reveal from (0, 0) on the lost row never ends. */
  lemma ChainRevealLoopsWhenLost(fuel: nat)
    ensures Run(LostRow, Start((0, 0)), fuel) == None
  {
    StartStep();
    LostRowCycles();
    StartNeverEnds(LostRow, fuel);
  }

  /** After two turns the lost row's worklist already holds (0, 0) twice. */
  lemma CornerQueuedTwice()
    ensures Step(LostRow, Walk([(0, 0), (0, 1)], {(0, 1)}, 1)).1.list == [(0, 0), (0, 1), (0, 0), (0, 2)]
  {
    StepAt01(Walk([(0, 0), (0, 1)], {(0, 1)}, 1));
    assert [(0, 0), (0, 1)] + [(0, 0), (0, 2)] == [(0, 0), (0, 1), (0, 0), (0, 2)];
  }
}
