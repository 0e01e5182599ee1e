/** The bot's search for every mine arrangement of one island of border cells: the
    constraints each number cell puts on its covered neighbours, the enumeration tree the
    backtracking search walks (MINE before NOT_MINE, pruning as soon as a number cell is
    over- or under-satisfied or the mines run out), and the in-place search itself, which
    decrements the two constraint maps on the way down and restores them on the way back. */
module Enumeration {
  import opened Grid

  const Mine: int := 1
  const NotMine: int := 0

  /** The two constraint maps of the number cells: the mines still to be placed around each, and
      the covered border cells around each whose status is still open. */
  datatype Constraints = Constraints(mines: map<Pos, int>, unknowns: map<Pos, int>)

  /** One island's search: its cells in search order, the number cells next to each border cell,
      and the mines still unaccounted for on the board. */
  datatype Problem = Problem(island: seq<Pos>, neighbours: map<Pos, seq<Pos>>, remainingMines: int)

  /** Every number cell in ns has both constraints. */
  predicate Covers(c: Constraints, ns: seq<Pos>) {
    forall n :: n in ns ==> n in c.mines && n in c.unknowns
  }

  /** Every number cell listed next to a border cell has both constraints. */
  predicate Ready(neighbours: map<Pos, seq<Pos>>, c: Constraints) {
    forall b, n :: b in neighbours && n in neighbours[b] ==> n in c.mines && n in c.unknowns
  }

  /** The island's cells all have an entry in the neighbour map, and the constraints cover them. */
  predicate WellFormed(P: Problem, c: Constraints) {
    (forall b :: b in P.island ==> b in P.neighbours) && Ready(P.neighbours, c)
  }

  /** Every entry from index k on is MINE or NOT_MINE. */
  predicate Bits(t: seq<int>, k: int) {
    forall j :: 0 <= k <= j < |t| ==> t[j] == Mine || t[j] == NotMine
  }

  /** How often n occurs in ns. */
  function Occurrences(ns: seq<Pos>, n: Pos): nat {
    if ns == [] then 0 else (if ns[0] == n then 1 else 0) + Occurrences(ns[1..], n)
  }

  /** The sum of the entries: with MINE = 1 and NOT_MINE = 0, the mines an arrangement places. */
  function Sum(s: seq<int>): int {
    if s == [] then 0 else s[0] + Sum(s[1..])
  }

  /** One number cell next to a border cell given the status: one open cell fewer and, for MINE,
      one mine fewer to place. */
  function Give(c: Constraints, n: Pos, status: int): (r: Constraints)
    requires n in c.mines && n in c.unknowns
    ensures r.mines.Keys == c.mines.Keys && r.unknowns.Keys == c.unknowns.Keys
  {
    Constraints(if status == Mine then c.mines[n := c.mines[n] - 1] else c.mines, c.unknowns[n := c.unknowns[n] - 1])
  }

  /** The same number cell when the status is taken back: one open cell more and, for MINE, one
      mine more to place. */
  function Restore(c: Constraints, n: Pos, status: int): (r: Constraints)
    requires n in c.mines && n in c.unknowns
    ensures r.mines.Keys == c.mines.Keys && r.unknowns.Keys == c.unknowns.Keys
  {
    Constraints(if status == Mine then c.mines[n := c.mines[n] + 1] else c.mines, c.unknowns[n := c.unknowns[n] + 1])
  }

  /** A number cell can still be satisfied: no fewer open cells than mines to place, and no
      negative count of mines to place. */
  predicate Satisfiable(c: Constraints, n: Pos)
    requires n in c.mines && n in c.unknowns
  {
    !(c.unknowns[n] < c.mines[n] || c.mines[n] < 0)
  }

  /** Giving a border cell the status MINE or NOT_MINE: for each of its number cells in order, one
      fewer open cell and, for a mine, one fewer mine to place, checking after each that the
      cell can still be satisfied (no more mines to place than open cells, none negative). The
      flag says whether every check passed; all updates are made either way. */
  function Visit(ns: seq<Pos>, c: Constraints, status: int): (r: (Constraints, bool))
    requires Covers(c, ns)
    ensures r.0.mines.Keys == c.mines.Keys && r.0.unknowns.Keys == c.unknowns.Keys
    decreases |ns|
  {
    if ns == [] then (c, true)
    else
      var c' := Give(c, ns[0], status);
      var rest := Visit(ns[1..], c', status);
      (rest.0, rest.1 && Satisfiable(c', ns[0]))
  }

  /** Taking the status back: one more open cell and, for a mine, one more mine to place, for each
      number cell in order. */
  function Unvisit(ns: seq<Pos>, c: Constraints, status: int): (r: Constraints)
    requires Covers(c, ns)
    ensures r.mines.Keys == c.mines.Keys && r.unknowns.Keys == c.unknowns.Keys
    decreases |ns|
  {
    if ns == [] then c
    else
      Unvisit(ns[1..], Restore(c, ns[0], status), status)
  }

  /** A visit takes one open cell from each number cell per occurrence, and a mine as well for MINE. */
  lemma {:induction false} VisitCounts(ns: seq<Pos>, c: Constraints, status: int)
    requires Covers(c, ns)
    ensures var c' := Visit(ns, c, status).0;
            && (forall n :: n in c.unknowns ==> c'.unknowns[n] == c.unknowns[n] - Occurrences(ns, n))
            && (forall n :: n in c.mines ==>
                  c'.mines[n] == c.mines[n] - if status == Mine then Occurrences(ns, n) else 0)
    decreases |ns|
  {
    if ns != [] {
      var n0 := ns[0];
      var c1 := Give(c, n0, status);
      assert Visit(ns, c, status).0 == Visit(ns[1..], c1, status).0;
      VisitCounts(ns[1..], c1, status);
    }
  }

  /** Taking a status back gives each number cell one open cell per occurrence, and a mine as well for MINE. */
  lemma {:induction false} UnvisitCounts(ns: seq<Pos>, c: Constraints, status: int)
    requires Covers(c, ns)
    ensures var c' := Unvisit(ns, c, status);
            && (forall n :: n in c.unknowns ==> c'.unknowns[n] == c.unknowns[n] + Occurrences(ns, n))
            && (forall n :: n in c.mines ==>
                  c'.mines[n] == c.mines[n] + if status == Mine then Occurrences(ns, n) else 0)
    decreases |ns|
  {
    if ns != [] {
      var n0 := ns[0];
      var c1 := Restore(c, n0, status);
      UnvisitCounts(ns[1..], c1, status);
    }
  }

  /** Taking a status back restores both constraint maps exactly. */
  lemma VisitUndone(ns: seq<Pos>, c: Constraints, status: int)
    requires Covers(c, ns)
    ensures Unvisit(ns, Visit(ns, c, status).0, status) == c
  {
    var c1 := Visit(ns, c, status).0;
    VisitCounts(ns, c, status);
    UnvisitCounts(ns, c1, status);
    var c2 := Unvisit(ns, c1, status);
    assert c2.mines.Keys == c.mines.Keys && c2.unknowns.Keys == c.unknowns.Keys;
    forall n | n in c.mines ensures c2.mines[n] == c.mines[n] {}
    forall n | n in c.unknowns ensures c2.unknowns[n] == c.unknowns[n] {}
    assert c2.mines == c.mines;
    assert c2.unknowns == c.unknowns;
  }

  /** The arrangements the search records from a prefix of statuses, with the constraints and the
      mines used so far: the prefix itself once the island is complete, otherwise those under MINE
      followed by those under NOT_MINE. */
  function Solve(P: Problem, prefix: seq<int>, c: Constraints, used: int): seq<seq<int>>
    requires WellFormed(P, c) && |prefix| <= |P.island|
    decreases |P.island| - |prefix|, 1
  {
    if |prefix| == |P.island| then [prefix]
    else Branch(P, prefix, c, used, Mine) + Branch(P, prefix, c, used, NotMine)
  }

  /** The arrangements under giving the next cell the status: none when a check fails or more
      mines are used than remain. */
  function Branch(P: Problem, prefix: seq<int>, c: Constraints, used: int, status: int): seq<seq<int>>
    requires WellFormed(P, c) && |prefix| < |P.island|
    decreases |P.island| - |prefix|, 0
  {
    var (c', ok) := Visit(P.neighbours[P.island[|prefix|]], c, status);
    var used' := used + if status == Mine then 1 else 0;
    if ok && used' <= P.remainingMines then Solve(P, prefix + [status], c', used') else []
  }

  /** The search's checks on one complete arrangement t from index k on: each cell's status passes
      the constraint checks and keeps the mines used within the remaining mines. */
  predicate Admits(P: Problem, t: seq<int>, k: nat, c: Constraints, used: int)
    requires WellFormed(P, c) && k <= |P.island| == |t|
    decreases |P.island| - k
  {
    k == |P.island| ||
    var (c', ok) := Visit(P.neighbours[P.island[k]], c, t[k]);
    var used' := used + if t[k] == Mine then 1 else 0;
    ok && used' <= P.remainingMines && Admits(P, t, k + 1, c', used')
  }

  /** The complete arrangements extending the prefix that pass every check. */
  predicate Passes(P: Problem, prefix: seq<int>, c: Constraints, used: int, t: seq<int>)
    requires WellFormed(P, c) && |prefix| <= |P.island|
  {
    |t| == |P.island| && t[..|prefix|] == prefix && Bits(t, |prefix|) && Admits(P, t, |prefix|, c, used)
  }

  /** An arrangement passes from a prefix exactly when it passes from the prefix extended by MINE
      or by NOT_MINE, under the checks that status has to pass. */
  lemma PassesStep(P: Problem, prefix: seq<int>, c: Constraints, used: int, t: seq<int>)
    requires WellFormed(P, c) && |prefix| < |P.island|
    ensures var ns := P.neighbours[P.island[|prefix|]];
            var (cm, okm), (cn, okn) := Visit(ns, c, Mine), Visit(ns, c, NotMine);
            Passes(P, prefix, c, used, t) <==>
              || (okm && used + 1 <= P.remainingMines && Passes(P, prefix + [Mine], cm, used + 1, t))
              || (okn && used <= P.remainingMines && Passes(P, prefix + [NotMine], cn, used, t))
  {
    var k := |prefix|;
    if |t| == |P.island| {
      assert t[..k + 1] == t[..k] + [t[k]];
      assert t[..k + 1] == prefix + [Mine] <==> t[..k] == prefix && t[k] == Mine;
      assert t[..k + 1] == prefix + [NotMine] <==> t[..k] == prefix && t[k] == NotMine;
    }
  }

  /** Soundness and completeness: the search records exactly the complete MINE/NOT_MINE
      arrangements extending the prefix that pass every check. */
  lemma {:induction false} SolveExactly(P: Problem, prefix: seq<int>, c: Constraints, used: int, t: seq<int>)
    requires WellFormed(P, c) && |prefix| <= |P.island|
    ensures t in Solve(P, prefix, c, used) <==>
              && |t| == |P.island| && t[..|prefix|] == prefix && Bits(t, |prefix|)
              && Admits(P, t, |prefix|, c, used)
    decreases |P.island| - |prefix|
  {
    var k := |prefix|;
    if k == |P.island| {
      assert |t| == |P.island| && t[..k] == prefix ==> t == prefix;
    } else {
      var ns := P.neighbours[P.island[k]];
      var (cm, okm) := Visit(ns, c, Mine);
      var (cn, okn) := Visit(ns, c, NotMine);
      SolveExactly(P, prefix + [Mine], cm, used + 1, t);
      SolveExactly(P, prefix + [NotMine], cn, used, t);
      PassesStep(P, prefix, c, used, t);
    }
  }

  /** The first index at which s has MINE and t has NOT_MINE, agreeing before it. */
  predicate MineFirst(s: seq<int>, t: seq<int>) {
    exists i :: 0 <= i < |s| && i < |t| && s[..i] == t[..i] && s[i] == Mine && t[i] == NotMine
  }

  /** Every recorded arrangement extends the prefix and is complete. */
  lemma ExtendsPrefix(P: Problem, prefix: seq<int>, c: Constraints, used: int, s: seq<int>)
    requires WellFormed(P, c) && |prefix| <= |P.island| && s in Solve(P, prefix, c, used)
    ensures |s| == |P.island| && s[..|prefix|] == prefix
  {
    SolveExactly(P, prefix, c, used, s);
  }

  /** An arrangement under a status extends the prefix by that status. */
  lemma BranchShape(P: Problem, prefix: seq<int>, c: Constraints, used: int, status: int, s: seq<int>)
    requires WellFormed(P, c) && |prefix| < |P.island|
    requires s in Branch(P, prefix, c, used, status)
    ensures |s| == |P.island| && s[..|prefix|] == prefix && s[|prefix|] == status
  {
    var k := |prefix|;
    var (c', ok) := Visit(P.neighbours[P.island[k]], c, status);
    var used' := used + if status == Mine then 1 else 0;
    assert s in Solve(P, prefix + [status], c', used');
    ExtendsPrefix(P, prefix + [status], c', used', s);
    assert s[..k] == s[..k + 1][..k];
    assert s[k] == s[..k + 1][k];
  }

  /** An arrangement under MINE comes before one under NOT_MINE. */
  lemma BranchesOrdered(P: Problem, prefix: seq<int>, c: Constraints, used: int, s: seq<int>, t: seq<int>)
    requires WellFormed(P, c) && |prefix| < |P.island|
    requires s in Branch(P, prefix, c, used, Mine) && t in Branch(P, prefix, c, used, NotMine)
    ensures MineFirst(s, t)
  {
    BranchShape(P, prefix, c, used, Mine, s);
    BranchShape(P, prefix, c, used, NotMine, t);
    var k := |prefix|;
    assert s[..k] == t[..k] && s[k] == Mine && t[k] == NotMine;
  }

  /** Every arrangement of S comes before every later one, MINE before NOT_MINE. */
  predicate InOrder(S: seq<seq<int>>) {
    forall i, j :: 0 <= i < j < |S| ==> MineFirst(S[i], S[j])
  }

  /** Arrangements in order are distinct. */
  lemma InOrderDistinct(S: seq<seq<int>>)
    requires InOrder(S)
    ensures Distinct(S)
  {
    forall i, j | 0 <= i < j < |S| ensures S[i] != S[j] {
      var m :| 0 <= m < |S[i]| && m < |S[j]| && S[i][..m] == S[j][..m] && S[i][m] == Mine && S[j][m] == NotMine;
    }
  }

  /** Two runs in order, each element of the first before each of the second, make one run in order. */
  lemma InOrderConcat(A: seq<seq<int>>, B: seq<seq<int>>)
    requires InOrder(A) && InOrder(B)
    requires forall s, t :: s in A && t in B ==> MineFirst(s, t)
    ensures InOrder(A + B)
  {
    var S := A + B;
    forall i, j | 0 <= i < j < |S| ensures MineFirst(S[i], S[j]) {
      if j < |A| {
        assert S[i] == A[i] && S[j] == A[j];
      } else if |A| <= i {
        assert S[i] == B[i - |A|] && S[j] == B[j - |A|];
      } else {
        assert S[i] == A[i] && S[j] == B[j - |A|];
      }
    }
  }

  /** The arrangements come in lexicographic order with MINE before NOT_MINE, so none twice. */
  lemma {:induction false} SolveOrdered(P: Problem, prefix: seq<int>, c: Constraints, used: int)
    requires WellFormed(P, c) && |prefix| <= |P.island|
    ensures var S := Solve(P, prefix, c, used);
            && (forall i, j :: 0 <= i < j < |S| ==> MineFirst(S[i], S[j]))
            && Distinct(S)
    decreases |P.island| - |prefix|
  {
    var S := Solve(P, prefix, c, used);
    var k := |prefix|;
    if k < |P.island| {
      var ns := P.neighbours[P.island[k]];
      var (cm, okm) := Visit(ns, c, Mine);
      var (cn, okn) := Visit(ns, c, NotMine);
      var A := Branch(P, prefix, c, used, Mine);
      var B := Branch(P, prefix, c, used, NotMine);
      if okm && used + 1 <= P.remainingMines {
        SolveOrdered(P, prefix + [Mine], cm, used + 1);
      }
      if okn && used <= P.remainingMines {
        SolveOrdered(P, prefix + [NotMine], cn, used);
      }
      forall s, t | s in A && t in B ensures MineFirst(s, t) {
        BranchesOrdered(P, prefix, c, used, s, t);
      }
      InOrderConcat(A, B);
    }
    InOrderDistinct(S);
  }

  /** An admitted arrangement never uses more mines than remain. */
  lemma {:induction false} AdmitsBudget(P: Problem, t: seq<int>, k: nat, c: Constraints, used: int)
    requires WellFormed(P, c) && k <= |P.island| == |t| && Bits(t, k) && used <= P.remainingMines
    requires Admits(P, t, k, c, used)
    ensures used + Sum(t[k..]) <= P.remainingMines
    decreases |P.island| - k
  {
    if k < |P.island| {
      var (c', ok) := Visit(P.neighbours[P.island[k]], c, t[k]);
      AdmitsBudget(P, t, k + 1, c', used + if t[k] == Mine then 1 else 0);
      assert t[k..][1..] == t[k + 1..];
    } else {
      assert t[k..] == [];
    }
  }

  /** Every arrangement recorded for an island from scratch places at most the remaining mines. */
  lemma SolutionsWithinBudget(P: Problem, c: Constraints, s: seq<int>)
    requires WellFormed(P, c) && 0 <= P.remainingMines && s in Solve(P, [], c, 0)
    ensures |s| == |P.island| && Bits(s, 0) && Sum(s) <= P.remainingMines
  {
    SolveExactly(P, [], c, 0, s);
    AdmitsBudget(P, s, 0, c, 0);
    assert s[0..] == s;
  }
}
