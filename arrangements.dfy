/** What the arrangements the search records mean, stated without the search: an assignment of
    MINE and NOT_MINE to an island's cells is recorded exactly when every number cell it touches
    ends with no negative count of mines to place and no more mines to place than open cells,
    and it uses no more mines than remain. When an island holds every border neighbour of a
    number cell, that number cell's mines are then placed exactly. */
module Arrangements {
  import opened Grid
  import opened Enumeration

  /** Every cell of the island has an entry in the neighbour map. */
  predicate Listed(P: Problem) {
    forall b :: b in P.island ==> b in P.neighbours
  }

  /** How many times the first k cells of the island list n among their number cells. */
  function Touches(P: Problem, k: nat, n: Pos): nat
    requires Listed(P) && k <= |P.island|
  {
    if k == 0 then 0 else Touches(P, k - 1, n) + Occurrences(P.neighbours[P.island[k - 1]], n)
  }

  /** How many times the first k cells of the island that t makes mines list n. */
  function MineTouches(P: Problem, t: seq<int>, k: nat, n: Pos): nat
    requires Listed(P) && k <= |P.island| == |t|
  {
    if k == 0 then 0
    else MineTouches(P, t, k - 1, n) + if t[k - 1] == Mine then Occurrences(P.neighbours[P.island[k - 1]], n) else 0
  }

  /** How many of the first k entries of t are MINE. */
  function Placed(t: seq<int>, k: nat): nat
    requires k <= |t|
  {
    if k == 0 then 0 else Placed(t, k - 1) + if t[k - 1] == Mine then 1 else 0
  }

  /** The constraints after the search has given the first k cells the statuses of t. */
  function Replay(P: Problem, t: seq<int>, k: nat, c: Constraints): (r: Constraints)
    requires WellFormed(P, c) && k <= |P.island| == |t|
    ensures r.mines.Keys == c.mines.Keys && r.unknowns.Keys == c.unknowns.Keys
  {
    if k == 0 then c
    else
      var before := Replay(P, t, k - 1, c);
      assert WellFormed(P, before);
      Visit(P.neighbours[P.island[k - 1]], before, t[k - 1]).0
  }

  /** Whether the checks pass when the search gives cell k the status in t. */
  predicate StepOk(P: Problem, t: seq<int>, k: nat, c: Constraints)
    requires WellFormed(P, c) && k < |P.island| == |t|
  {
    var before := Replay(P, t, k, c);
    assert WellFormed(P, before);
    Visit(P.neighbours[P.island[k]], before, t[k]).1
  }

  /** The number cells next to each border cell are listed once each. */
  predicate ListsDistinct(neighbours: map<Pos, seq<Pos>>) {
    forall b :: b in neighbours ==> Distinct(neighbours[b])
  }

  /** After the first k cells, number cell n has 0 <= mines to place <= open cells. */
  predicate BoundedAfter(P: Problem, t: seq<int>, k: nat, c: Constraints, n: Pos)
    requires Listed(P) && k <= |P.island| == |t| && n in c.mines && n in c.unknowns
  {
    0 <= c.mines[n] - MineTouches(P, t, k, n) <= c.unknowns[n] - Touches(P, k, n)
  }

  /** The declarative condition: every number cell the island touches ends with 0 <= mines to place
      <= open cells. */
  predicate Balanced(P: Problem, t: seq<int>, c: Constraints)
    requires Listed(P) && |t| == |P.island|
  {
    forall n :: n in c.mines && n in c.unknowns && Touches(P, |t|, n) > 0 ==> BoundedAfter(P, t, |t|, c, n)
  }

  lemma {:induction false} OccurrencesIn(ns: seq<Pos>, n: Pos)
    ensures Occurrences(ns, n) > 0 <==> n in ns
    ensures Distinct(ns) ==> Occurrences(ns, n) <= 1
    decreases |ns|
  {
    if ns != [] {
      OccurrencesIn(ns[1..], n);
      assert n in ns <==> ns[0] == n || n in ns[1..];
      if Distinct(ns) {
        assert Distinct(ns[1..]);
        assert ns[0] == n ==> n !in ns[1..];
      }
    }
  }

  /** Replaying one more cell of the island takes its touches off the counts. */
  lemma ReplayStep(P: Problem, t: seq<int>, k: nat, c: Constraints, n: Pos)
    requires WellFormed(P, c) && 0 < k <= |P.island| == |t|
    ensures var ns, before, after := P.neighbours[P.island[k - 1]], Replay(P, t, k - 1, c), Replay(P, t, k, c);
            && (n in c.unknowns ==> after.unknowns[n] == before.unknowns[n] - Occurrences(ns, n))
            && (n in c.mines ==> after.mines[n] == before.mines[n] - if t[k - 1] == Mine then Occurrences(ns, n) else 0)
  {
    var before := Replay(P, t, k - 1, c);
    var ns := P.neighbours[P.island[k - 1]];
    assert WellFormed(P, before);
    assert Replay(P, t, k, c) == Visit(ns, before, t[k - 1]).0;
    VisitCounts(ns, before, t[k - 1]);
  }

  /** The replayed counts of open cells fall from the starting ones by the touches so far. */
  lemma {:induction false} ReplayUnknowns(P: Problem, t: seq<int>, k: nat, c: Constraints, n: Pos)
    requires WellFormed(P, c) && k <= |P.island| == |t| && n in c.unknowns
    ensures Replay(P, t, k, c).unknowns[n] == c.unknowns[n] - Touches(P, k, n)
  {
    if k > 0 {
      ReplayUnknowns(P, t, k - 1, c, n);
      ReplayStep(P, t, k, c, n);
    }
  }

  /** The replayed counts of mines to place fall from the starting ones by the mine touches so far. */
  lemma {:induction false} ReplayMines(P: Problem, t: seq<int>, k: nat, c: Constraints, n: Pos)
    requires WellFormed(P, c) && k <= |P.island| == |t| && n in c.mines
    ensures Replay(P, t, k, c).mines[n] == c.mines[n] - MineTouches(P, t, k, n)
  {
    if k > 0 {
      ReplayMines(P, t, k - 1, c, n);
      ReplayStep(P, t, k, c, n);
    }
  }

  /** With each number cell listed once, a visit passes its checks exactly when every number cell
      it visits ends within bounds. */
  lemma {:induction false} VisitOk(ns: seq<Pos>, c: Constraints, status: int)
    requires Covers(c, ns) && Distinct(ns)
    ensures var (c', ok) := Visit(ns, c, status);
            ok <==> forall n :: n in ns ==> Satisfiable(c', n)
    decreases |ns|
  {
    if ns != [] {
      var n0 := ns[0];
      var c1 := Give(c, n0, status);
      assert Distinct(ns[1..]);
      VisitOk(ns[1..], c1, status);
      VisitCounts(ns[1..], c1, status);
      OccurrencesIn(ns[1..], n0);
      assert n0 !in ns[1..];
      var c' := Visit(ns, c, status).0;
      assert c' == Visit(ns[1..], c1, status).0;
      assert c'.mines[n0] == c1.mines[n0] && c'.unknowns[n0] == c1.unknowns[n0];
      assert forall n :: n in ns <==> n == n0 || n in ns[1..];
    }
  }

  /** Touches only grow, the mine touches grow, and so do the touches that are not mines. */
  lemma {:induction false} TouchesGrow(P: Problem, t: seq<int>, k: nat, k': nat, n: Pos)
    requires Listed(P) && k <= k' <= |P.island| == |t|
    ensures MineTouches(P, t, k, n) <= MineTouches(P, t, k', n)
    ensures Touches(P, k, n) - MineTouches(P, t, k, n) <= Touches(P, k', n) - MineTouches(P, t, k', n)
    decreases k' - k
  {
    if k < k' {
      TouchesGrow(P, t, k, k' - 1, n);
    }
  }

  /** A number cell the first k cells touch has a last cell touching it. */
  lemma {:induction false} LastTouch(P: Problem, t: seq<int>, k: nat, n: Pos) returns (j: nat)
    requires Listed(P) && k <= |P.island| == |t| && Touches(P, k, n) > 0
    ensures j < k && n in P.neighbours[P.island[j]]
    ensures Touches(P, j + 1, n) == Touches(P, k, n) && MineTouches(P, t, j + 1, n) == MineTouches(P, t, k, n)
  {
    var ns := P.neighbours[P.island[k - 1]];
    OccurrencesIn(ns, n);
    if n in ns {
      j := k - 1;
    } else {
      j := LastTouch(P, t, k - 1, n);
    }
  }

  /** Step k passes its checks and keeps the mines placed so far within the remaining mines. */
  predicate StepFits(P: Problem, t: seq<int>, k: nat, c: Constraints)
    requires WellFormed(P, c) && k < |P.island| == |t|
  {
    StepOk(P, t, k, c) && Placed(t, k + 1) <= P.remainingMines
  }

  /** The search's checks from cell k on, with the constraints and mines of the first k cells,
      pass exactly when every later step passes and keeps within the remaining mines. */
  lemma {:induction false} AdmitsSteps(P: Problem, t: seq<int>, k: nat, c: Constraints)
    requires WellFormed(P, c) && k <= |P.island| == |t|
    ensures WellFormed(P, Replay(P, t, k, c))
    ensures Admits(P, t, k, Replay(P, t, k, c), Placed(t, k)) <==>
              forall j :: k <= j < |t| ==> StepFits(P, t, j, c)
    decreases |t| - k
  {
    var ck := Replay(P, t, k, c);
    assert WellFormed(P, ck);
    if k < |t| {
      AdmitsSteps(P, t, k + 1, c);
      var v := Visit(P.neighbours[P.island[k]], ck, t[k]);
      assert v.0 == Replay(P, t, k + 1, c);
      assert v.1 == StepOk(P, t, k, c);
      assert Admits(P, t, k, ck, Placed(t, k)) <==>
               StepFits(P, t, k, c) && Admits(P, t, k + 1, Replay(P, t, k + 1, c), Placed(t, k + 1));
      assert (forall j :: k <= j < |t| ==> StepFits(P, t, j, c)) <==>
               StepFits(P, t, k, c) && forall j :: k + 1 <= j < |t| ==> StepFits(P, t, j, c);
    }
  }

  /** If every step passes, the assignment is balanced: each touched number cell is checked at
      the last step that touches it, with its final counts. */
  lemma BalancedFromSteps(P: Problem, t: seq<int>, c: Constraints)
    requires WellFormed(P, c) && |P.island| == |t| && ListsDistinct(P.neighbours)
    requires forall j :: 0 <= j < |t| ==> StepOk(P, t, j, c)
    ensures Balanced(P, t, c)
  {
    var K := |t|;
    forall n | n in c.mines && n in c.unknowns && Touches(P, K, n) > 0
      ensures BoundedAfter(P, t, K, c, n)
    {
      var j := LastTouch(P, t, K, n);
      StepBounds(P, t, j, c);
    }
  }

  /** If the assignment is balanced, every step passes: the counts only fall, so the bounds that
      hold at the end held at every step. */
  lemma StepsFromBalanced(P: Problem, t: seq<int>, c: Constraints, j: nat)
    requires WellFormed(P, c) && j < |P.island| == |t| && ListsDistinct(P.neighbours)
    requires Balanced(P, t, c)
    ensures StepOk(P, t, j, c)
  {
    StepBounds(P, t, j, c);
    forall n | n in P.neighbours[P.island[j]]
      ensures BoundedAfter(P, t, j + 1, c, n)
    {
      TouchesAt(P, j, n);
      BoundedEarlier(P, t, j + 1, |t|, c, n);
    }
  }

  /** Bounds that hold after more cells held after fewer: the counts only fall. */
  lemma BoundedEarlier(P: Problem, t: seq<int>, k: nat, k': nat, c: Constraints, n: Pos)
    requires Listed(P) && k <= k' <= |P.island| == |t| && n in c.mines && n in c.unknowns
    requires BoundedAfter(P, t, k', c, n)
    ensures BoundedAfter(P, t, k, c, n)
  {
    TouchesGrow(P, t, k, k', n);
  }

  /** A number cell listed by cell j is touched by the first j + 1 cells, hence by all of them. */
  lemma TouchesAt(P: Problem, j: nat, n: Pos)
    requires Listed(P) && j < |P.island| && n in P.neighbours[P.island[j]]
    ensures Touches(P, j + 1, n) > 0 && Touches(P, |P.island|, n) > 0
  {
    OccurrencesIn(P.neighbours[P.island[j]], n);
    TouchesGrow(P, seq(|P.island|, _ => NotMine), j + 1, |P.island|, n);
  }

  /** The checks of step j pass exactly when every number cell of the step's cell can still be
      satisfied afterwards. */
  lemma StepSatisfiable(P: Problem, t: seq<int>, j: nat, c: Constraints)
    requires WellFormed(P, c) && j < |P.island| == |t| && ListsDistinct(P.neighbours)
    ensures StepOk(P, t, j, c) <==>
              forall n :: n in P.neighbours[P.island[j]] ==> Satisfiable(Replay(P, t, j + 1, c), n)
  {
    var ns := P.neighbours[P.island[j]];
    var before := Replay(P, t, j, c);
    assert WellFormed(P, before);
    assert Replay(P, t, j + 1, c) == Visit(ns, before, t[j]).0;
    VisitOk(ns, before, t[j]);
  }

  /** The checks of step j, in terms of the touches. */
  lemma StepBounds(P: Problem, t: seq<int>, j: nat, c: Constraints)
    requires WellFormed(P, c) && j < |P.island| == |t| && ListsDistinct(P.neighbours)
    ensures StepOk(P, t, j, c) <==>
              forall n :: n in P.neighbours[P.island[j]] ==> BoundedAfter(P, t, j + 1, c, n)
  {
    StepSatisfiable(P, t, j, c);
    forall n | n in P.neighbours[P.island[j]]
      ensures Satisfiable(Replay(P, t, j + 1, c), n) <==> BoundedAfter(P, t, j + 1, c, n)
    {
      ReplayBounded(P, t, j + 1, c, n);
    }
  }

  /** A number cell can still be satisfied after the first k cells exactly when its starting counts
      less the touches so far are in bounds. */
  lemma ReplayBounded(P: Problem, t: seq<int>, k: nat, c: Constraints, n: Pos)
    requires WellFormed(P, c) && k <= |P.island| == |t| && n in c.mines && n in c.unknowns
    ensures Satisfiable(Replay(P, t, k, c), n) <==> BoundedAfter(P, t, k, c, n)
  {
    ReplayUnknowns(P, t, k, c, n);
    ReplayMines(P, t, k, c, n);
  }

  /** Placed counts only grow. */
  lemma {:induction false} PlacedGrows(t: seq<int>, k: nat, k': nat)
    requires k <= k' <= |t|
    ensures Placed(t, k) <= Placed(t, k')
    decreases k' - k
  {
    if k < k' {
      PlacedGrows(t, k, k' - 1);
    }
  }

  /** On a MINE/NOT_MINE assignment, the mines among the first k entries and the sum of the rest
      make up the sum of the whole. */
  lemma {:induction false} PlacedSum(t: seq<int>, k: nat)
    requires k <= |t| && Bits(t, 0)
    ensures Placed(t, k) + Sum(t[k..]) == Sum(t)
  {
    if k == 0 {
      assert t[0..] == t;
    } else {
      PlacedSum(t, k - 1);
      assert t[k - 1..][1..] == t[k..];
    }
  }

  /** A recorded assignment is complete, MINE/NOT_MINE, balanced and within the remaining mines. */
  lemma RecordedIsBalanced(P: Problem, c: Constraints, t: seq<int>)
    requires WellFormed(P, c) && ListsDistinct(P.neighbours) && 0 <= P.remainingMines
    requires |t| == |P.island| && Bits(t, 0) && Admits(P, t, 0, c, 0)
    ensures Balanced(P, t, c) && Sum(t) <= P.remainingMines
  {
    AdmitsSteps(P, t, 0, c);
    forall j | 0 <= j < |t| ensures StepOk(P, t, j, c) {
      assert StepFits(P, t, j, c);
    }
    BalancedFromSteps(P, t, c);
    PlacedSum(t, |t|);
    assert t[|t|..] == [];
    if |t| > 0 {
      assert StepFits(P, t, |t| - 1, c);
      assert Placed(t, |t|) <= P.remainingMines;
    }
  }

  /** A complete, MINE/NOT_MINE, balanced assignment within the remaining mines passes every
      check of the search. */
  lemma BalancedIsAdmitted(P: Problem, c: Constraints, t: seq<int>)
    requires WellFormed(P, c) && ListsDistinct(P.neighbours)
    requires |t| == |P.island| && Bits(t, 0) && Balanced(P, t, c) && Sum(t) <= P.remainingMines
    ensures Admits(P, t, 0, c, 0)
  {
    PlacedSum(t, |t|);
    assert t[|t|..] == [];
    forall j | 0 <= j < |t| ensures StepFits(P, t, j, c) {
      StepsFromBalanced(P, t, c, j);
      PlacedGrows(t, j + 1, |t|);
    }
    AdmitsSteps(P, t, 0, c);
  }

  /** The meaning of the search, for one island from scratch: an assignment is recorded exactly
      when it is a complete MINE/NOT_MINE assignment, balanced on every number cell it touches,
      that places no more than the remaining mines. */
  lemma RecordedExactly(P: Problem, c: Constraints, t: seq<int>)
    requires WellFormed(P, c) && ListsDistinct(P.neighbours) && 0 <= P.remainingMines
    ensures t in Solve(P, [], c, 0) <==>
              |t| == |P.island| && Bits(t, 0) && Balanced(P, t, c) && Sum(t) <= P.remainingMines
  {
    SolveExactly(P, [], c, 0, t);
    assert t[..0] == [];
    if |t| == |P.island| && Bits(t, 0) {
      if Admits(P, t, 0, c, 0) {
        RecordedIsBalanced(P, c, t);
      }
      if Balanced(P, t, c) && Sum(t) <= P.remainingMines {
        BalancedIsAdmitted(P, c, t);
      }
    }
  }

  /** When the open-cell count of a number cell is exactly the number of island cells around it,
      as for an island closed under shared number cells, every recorded assignment places exactly
      its remaining mines around it. */
  lemma MinesPlacedExactly(P: Problem, c: Constraints, s: seq<int>, n: Pos)
    requires WellFormed(P, c) && ListsDistinct(P.neighbours) && 0 <= P.remainingMines
    requires s in Solve(P, [], c, 0)
    requires n in c.mines && n in c.unknowns && 0 < Touches(P, |P.island|, n) == c.unknowns[n]
    ensures |s| == |P.island| && MineTouches(P, s, |s|, n) == c.mines[n]
  {
    RecordedExactly(P, c, s);
  }
}
