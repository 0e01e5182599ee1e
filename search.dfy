/** The bot's recursive search for the mine arrangements of each island, as it runs: two
    dictionaries of constraints on the number cells that the search counts down when it gives a
    border cell a status and counts back up when it takes the status back, a list of statuses that
    grows and shrinks, and a list of arrangements that grows. */
module Search {
  import opened Grid
  import opened Enumeration

  class SolutionSearch {
    /** The number cells next to each border cell, in the order the bot found them. */
    const neighbours: map<Pos, seq<Pos>>
    /** The flags the player has not yet placed. */
    const remainingMines: int
    /** For each number cell, the mines still to place around it. */
    var surroundingMines: map<Pos, int>
    /** For each number cell, the border cells around it without a status yet. */
    var surroundingUnknowns: map<Pos, int>
    /** The statuses given so far to the cells of the island, in island order. */
    var current: seq<int>
    /** The arrangements recorded so far for the island. */
    var solutions: seq<seq<int>>

    function State(): Constraints
      reads this`surroundingMines, this`surroundingUnknowns
    {
      Constraints(surroundingMines, surroundingUnknowns)
    }

    constructor (neighbours: map<Pos, seq<Pos>>, mines: map<Pos, int>, unknowns: map<Pos, int>, remainingMines: int)
      ensures this.neighbours == neighbours && this.remainingMines == remainingMines
      ensures surroundingMines == mines && surroundingUnknowns == unknowns
      ensures current == [] && solutions == []
    {
      this.neighbours := neighbours;
      this.remainingMines := remainingMines;
      surroundingMines := mines;
      surroundingUnknowns := unknowns;
      current := [];
      solutions := [];
    }

    /** Gives one number cell next to a border cell the status, and reports whether it can still
        be satisfied. */
    method GiveOne(n: Pos, status: int) returns (ok: bool)
      requires n in surroundingMines && n in surroundingUnknowns
      modifies this`surroundingMines, this`surroundingUnknowns
      ensures State() == Give(old(State()), n, status) && ok == Satisfiable(State(), n)
    {
      surroundingUnknowns := surroundingUnknowns[n := surroundingUnknowns[n] - 1];
      if status == Mine {
        surroundingMines := surroundingMines[n := surroundingMines[n] - 1];
      }
      ok := !(surroundingUnknowns[n] < surroundingMines[n] || surroundingMines[n] < 0);
    }

    /** Gives border cell b the status: counts its number cells down and reports whether every one
        of them can still be satisfied. */
    method Decrement(b: Pos, status: int) returns (goDeeper: bool)
      requires b in neighbours && Covers(State(), neighbours[b])
      modifies this`surroundingMines, this`surroundingUnknowns
      ensures (State(), goDeeper) == Visit(neighbours[b], old(State()), status)
    {
      var ns := neighbours[b];
      goDeeper := true;
      for i := 0 to |ns|
        invariant Covers(State(), ns)
        invariant Visit(ns, old(State()), status).0 == Visit(ns[i..], State(), status).0
        invariant Visit(ns, old(State()), status).1 == (goDeeper && Visit(ns[i..], State(), status).1)
      {
        assert ns[i..][1..] == ns[i + 1..];
        var ok := GiveOne(ns[i], status);
        if !ok {
          goDeeper := false;
        }
      }
      assert ns[|ns|..] == [];
    }

    /** Takes the status back from one number cell next to a border cell. */
    method RestoreOne(n: Pos, status: int)
      requires n in surroundingMines && n in surroundingUnknowns
      modifies this`surroundingMines, this`surroundingUnknowns
      ensures State() == Restore(old(State()), n, status)
    {
      surroundingUnknowns := surroundingUnknowns[n := surroundingUnknowns[n] + 1];
      if status == Mine {
        surroundingMines := surroundingMines[n := surroundingMines[n] + 1];
      }
    }

    /** Takes the status of border cell b back: counts its number cells up again. */
    method Increment(b: Pos, status: int)
      requires b in neighbours && Covers(State(), neighbours[b])
      modifies this`surroundingMines, this`surroundingUnknowns
      ensures State() == Unvisit(neighbours[b], old(State()), status)
    {
      var ns := neighbours[b];
      for i := 0 to |ns|
        invariant Covers(State(), ns)
        invariant Unvisit(ns, old(State()), status) == Unvisit(ns[i..], State(), status)
      {
        assert ns[i..][1..] == ns[i + 1..];
        RestoreOne(ns[i], status);
      }
      assert ns[|ns|..] == [];
    }

    /** The arrangements recorded after trying the first i of the statuses MINE, NOT_MINE. */
    ghost function Tried(P: Problem, prefix: seq<int>, c: Constraints, used: int, i: nat): seq<seq<int>>
      requires WellFormed(P, c) && |prefix| < |P.island|
    {
      if i == 0 then []
      else Branch(P, prefix, c, used, Mine) + if i >= 2 then Branch(P, prefix, c, used, NotMine) else []
    }

    /** Records every arrangement of the island that extends the statuses given so far and passes
        the checks, MINE before NOT_MINE, and leaves the constraints and the statuses as it found
        them. */
    method Search(island: seq<Pos>, minesUsed: int)
      requires forall b :: b in island ==> b in neighbours
      requires Ready(neighbours, State()) && |current| <= |island|
      modifies this`surroundingMines, this`surroundingUnknowns, this`current, this`solutions
      ensures State() == old(State()) && current == old(current)
      ensures solutions ==
                old(solutions) + Solve(Problem(island, neighbours, remainingMines), old(current), old(State()), minesUsed)
      decreases |island| - |current|, 1
    {
      if |current| == |island| {
        solutions := solutions + [current];
      } else {
        ghost var P := Problem(island, neighbours, remainingMines);
        ghost var c0 := State();
        ghost var s0 := solutions;
        var statuses := [Mine, NotMine];
        for i := 0 to 2
          invariant State() == c0 && current == old(current)
          invariant solutions == s0 + Tried(P, current, c0, minesUsed, i)
        {
          Try(island, minesUsed, statuses[i]);
        }
      }
    }

    /** Gives the next cell of the island the status, searches on if the checks pass and the mines
        used stay within the remaining mines, and takes the status back. */
    method Try(island: seq<Pos>, minesUsed: int, status: int)
      requires forall b :: b in island ==> b in neighbours
      requires Ready(neighbours, State()) && |current| < |island|
      modifies this`surroundingMines, this`surroundingUnknowns, this`current, this`solutions
      ensures State() == old(State()) && current == old(current)
      ensures solutions ==
                old(solutions) + Branch(Problem(island, neighbours, remainingMines), old(current), old(State()), minesUsed, status)
      decreases |island| - |current|, 0
    {
      var b := island[|current|];
      ghost var c0 := State();
      current := current + [status];
      var goDeeper := Decrement(b, status);
      var used := minesUsed + if status == Mine then 1 else 0;
      if used > remainingMines {
        goDeeper := false;
      }
      if goDeeper {
        Search(island, used);
      }
      Increment(b, status);
      VisitUndone(neighbours[b], c0, status);
      current := current[..|current| - 1];
    }

    /** Searches each island in turn from no statuses and no mines, each into an empty list. */
    method SolveIslands(islands: seq<seq<Pos>>) returns (islandSolutions: seq<seq<seq<int>>>)
      requires forall k, b :: 0 <= k < |islands| && b in islands[k] ==> b in neighbours
      requires Ready(neighbours, State())
      modifies this`surroundingMines, this`surroundingUnknowns, this`current, this`solutions
      ensures State() == old(State())
      ensures |islandSolutions| == |islands|
      ensures forall k :: 0 <= k < |islands| ==>
                islandSolutions[k] == Solve(Problem(islands[k], neighbours, remainingMines), [], State(), 0)
    {
      islandSolutions := [];
      for k := 0 to |islands|
        invariant State() == old(State())
        invariant |islandSolutions| == k
        invariant forall j :: 0 <= j < k ==>
                    islandSolutions[j] == Solve(Problem(islands[j], neighbours, remainingMines), [], State(), 0)
      {
        current := [];
        solutions := [];
        Search(islands[k], 0);
        islandSolutions := islandSolutions + [solutions];
      }
    }
  }
}
