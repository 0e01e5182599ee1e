/** Step 4 of the bot's probability tables: the likelihood of each mine arrangement of an island,
    given how many mines are left and how many cells are still covered, and from those, for each
    border cell, the chance that it is clear. Probabilities are real numbers, not floats, and are
    not rounded. A cell's two sums are floats as soon as some island has an arrangement, and
    their division of zero by zero then gives NaN, which is Undefined here; when no island has
    an arrangement both sums are the integer 0 and the division raises ZeroDivisionError. */
module BorderProbability {
  import opened Grid
  import opened Enumeration

  /** A probability as the table holds it: a number, or NaN. */
  datatype Prob = Undefined | Value(p: real)

  /** The result of a computation that may raise an exception. */
  datatype Outcome<T> = Raised | Done(value: T)

  lemma Associate(a: real, b: real, c: real)
    ensures a * (b * c) == (a * b) * c
  {
  }

  lemma NonNegProduct(a: real, b: real)
    requires 0.0 <= a && 0.0 <= b
    ensures 0.0 <= a * b
  {
  }

  /** A product of two numbers between 0 and 1 is between 0 and 1. */
  lemma UnitProduct(a: real, b: real)
    requires 0.0 <= a <= 1.0 && 0.0 <= b <= 1.0
    ensures 0.0 <= a * b <= 1.0
  {
    NonNegProduct(a, b);
    NonNegProduct(a, 1.0 - b);
    Distribute(a, b);
  }

  lemma Distribute(a: real, b: real)
    ensures a * (1.0 - b) == a - a * b
  {
  }

  /** With MINE = 1 and NOT_MINE = 0, an arrangement places between none and all of its cells'
      mines. */
  lemma {:induction false} SumBits(s: seq<int>)
    requires Bits(s, 0)
    ensures 0 <= Sum(s) <= |s|
  {
    if s != [] {
      assert Bits(s[1..], 0);
      SumBits(s[1..]);
    }
  }

  /** The factor a cell with status k contributes when r mines are left among u covered cells:
      the chance of drawing a clear cell, or a mine, without replacement. A status that is neither
      leaves the likelihood as it is. */
  function Factor(k: int, r: int, u: int): real
    requires u > 0
  {
    if k == NotMine then (u - r) as real / u as real
    else if k == Mine then r as real / u as real
    else 1.0
  }

  /** A cell's factor is a chance: between 0 and 1 while the mines left are between none and
      every covered cell. A clear cell has factor zero exactly when every covered cell is a mine. */
  lemma FactorRange(k: int, r: int, u: int)
    requires u > 0 && (k == Mine || k == NotMine) && 0 <= r <= u
    ensures 0.0 <= Factor(k, r, u) <= 1.0
    ensures k == NotMine ==> (Factor(k, r, u) == 0.0 <==> r == u)
  {
    if k == NotMine {
      UnitRatio((u - r) as real, u as real);
    } else {
      UnitRatio(r as real, u as real);
    }
  }

  /** A part over a positive whole is between 0 and 1. */
  lemma UnitRatio(x: real, u: real)
    requires 0.0 <= x <= u && 0.0 < u
    ensures 0.0 <= x / u <= 1.0
    ensures x / u == 0.0 <==> x == 0.0
  {
  }

  /** A ratio is one exactly when the weight is the whole. */
  lemma WholeRatio(x: real, u: real)
    requires u != 0.0
    ensures x / u == 1.0 <==> x == u
  {
    if x / u == 1.0 {
      assert x == (x / u) * u;
    }
  }

  /** The factors of the cells of an arrangement, in order: each cell is drawn from the cells
      still covered, and a mine uses up one of the mines left. */
  function Factors(s: seq<int>, r: int, u: int): (fs: seq<real>)
    requires |s| <= u
    ensures |fs| == |s|
    decreases |s|
  {
    if s == [] then [] else [Factor(s[0], r, u)] + Factors(s[1..], if s[0] == Mine then r - 1 else r, u - 1)
  }

  function Product(fs: seq<real>): real {
    if fs == [] then 1.0 else fs[0] * Product(fs[1..])
  }

  /** The likelihood of an arrangement s of an island when r mines are left among u covered
      cells: the product of its cells' factors. */
  function Likelihood(s: seq<int>, r: int, u: int): real
    requires |s| <= u
  {
    Product(Factors(s, r, u))
  }

  /** Appending a factor multiplies the product by it. */
  lemma {:induction false} ProductSnoc(fs: seq<real>, x: real)
    ensures Product(fs + [x]) == Product(fs) * x
    decreases |fs|
  {
    if fs != [] {
      assert (fs + [x])[1..] == fs[1..] + [x];
      ProductSnoc(fs[1..], x);
      Associate(fs[0], Product(fs[1..]), x);
    }
  }

  /** The running product of the first i factors, times factor i, is the product of the first
      i + 1. */
  lemma ProductStep(fs: seq<real>, i: int, l: real)
    requires 0 <= i < |fs| && l == Product(fs[..i])
    ensures l * fs[i] == Product(fs[..i + 1])
  {
    assert fs[..i + 1] == fs[..i] + [fs[i]];
    ProductSnoc(fs[..i], fs[i]);
  }

  /** The first factor is the first cell's, and the rest are those of the other cells with one
      cell fewer covered. */
  lemma FactorsStep(s: seq<int>, r: int, u: int)
    requires 0 < |s| <= u
    ensures Factors(s, r, u)[0] == Factor(s[0], r, u)
    ensures Factors(s, r, u)[1..] == Factors(s[1..], if s[0] == Mine then r - 1 else r, u - 1)
  {
  }

  /** One turn of the weighing loop: the running product of the first i factors, times cell i's
      factor, is the product of the first i + 1, and the factors after it are those of the next
      suffix with one cell fewer covered. */
  lemma FactorsAt(s: seq<int>, fs: seq<real>, i: int, r: int, u: int, l: real)
    requires 0 <= i < |s| == |fs| && |s[i..]| <= u
    requires fs[i..] == Factors(s[i..], r, u) && l == Product(fs[..i])
    ensures l * Factor(s[i], r, u) == Product(fs[..i + 1])
    ensures fs[i + 1..] == Factors(s[i + 1..], if s[i] == Mine then r - 1 else r, u - 1)
  {
    FactorsStep(s[i..], r, u);
    assert s[i..][1..] == s[i + 1..];
    assert fs[i + 1..] == fs[i..][1..];
    ProductStep(fs, i, l);
  }

  /** Peeling the first cell off an arrangement. */
  lemma LikelihoodCons(s: seq<int>, r: int, u: int)
    requires 0 < |s| <= u
    ensures Likelihood(s, r, u) == Factor(s[0], r, u) * Likelihood(s[1..], if s[0] == Mine then r - 1 else r, u - 1)
  {
    FactorsStep(s, r, u);
  }

  /** One turn of the weighing loop: weighs cell i, which keeps the running likelihood the
      product of the factors so far and the factors left those of the rest of the cells. */
  method WeighAt(s: seq<int>, ghost fs: seq<real>, i: int, l: real, remaining: int, unrevealed: int)
    returns (l': real, remaining': int)
    requires 0 <= i < |s| == |fs| && |s[i..]| <= unrevealed
    requires fs[i..] == Factors(s[i..], remaining, unrevealed) && l == Product(fs[..i])
    ensures l' == Product(fs[..i + 1]) && fs[i + 1..] == Factors(s[i + 1..], remaining', unrevealed - 1)
  {
    FactorsAt(s, fs, i, remaining, unrevealed, l);
    l', remaining' := Weigh(s[i], l, remaining, unrevealed);
  }

  /** Multiplies the running likelihood by the factor of a cell with status k, and uses up a
      mine if it is one. */
  method Weigh(k: int, l: real, remaining: int, unrevealed: int) returns (l': real, remaining': int)
    requires unrevealed > 0
    ensures l' == l * Factor(k, remaining, unrevealed)
    ensures remaining' == if k == Mine then remaining - 1 else remaining
  {
    l', remaining' := l, remaining;
    if k == NotMine {
      l' := l' * ((unrevealed - remaining) as real / unrevealed as real);
    } else if k == Mine {
      l' := l' * (remaining as real / unrevealed as real);
      remaining' := remaining' - 1;
    }
  }

  /** The loop that weighs one arrangement, starting from the mines left and the covered cells. */
  method SolutionLikelihood(s: seq<int>, r: int, u: int) returns (l: real)
    requires |s| <= u
    ensures l == Likelihood(s, r, u)
  {
    ghost var fs := Factors(s, r, u);
    l := 1.0;
    var remaining, unrevealed := r, u;
    for i := 0 to |s|
      invariant unrevealed == u - i
      invariant fs[i..] == Factors(s[i..], remaining, unrevealed)
      invariant l == Product(fs[..i])
    {
      l, remaining := WeighAt(s, fs, i, l, remaining, unrevealed);
      unrevealed := unrevealed - 1;
    }
    assert fs[..|s|] == fs;
  }

  /** A likelihood is between 0 and 1 when the mines left are at least the arrangement's mines
      and at most the covered cells. Past a clear cell drawn with every covered cell a mine, the
      later factors may leave [0, 1], but the product is zero from there on. */
  lemma {:induction false} LikelihoodRange(s: seq<int>, r: int, u: int)
    requires Bits(s, 0) && |s| <= u && Sum(s) <= r <= u
    ensures 0.0 <= Likelihood(s, r, u) <= 1.0
    decreases |s|
  {
    if s != [] {
      var t := s[1..];
      assert Bits(t, 0);
      SumBits(t);
      var r' := if s[0] == Mine then r - 1 else r;
      var f, l := Factor(s[0], r, u), Likelihood(t, r', u - 1);
      LikelihoodCons(s, r, u);
      if s[0] == Mine || r < u {
        LikelihoodRange(t, r', u - 1);
        FactorRange(s[0], r, u);
        UnitProduct(f, l);
      } else {
        FactorRange(s[0], r, u);
      }
    }
  }

  /** ls holds the likelihood of each arrangement in sols. */
  predicate Weighs(sols: seq<seq<int>>, ls: seq<real>, r: int, u: int) {
    |ls| == |sols| && forall k :: 0 <= k < |sols| ==> |sols[k]| <= u && ls[k] == Likelihood(sols[k], r, u)
  }

  /** The likelihood of every arrangement of every island. */
  method IslandLikelihoods(islandSolutions: seq<seq<seq<int>>>, r: int, u: int) returns (likelihoods: seq<seq<real>>)
    requires forall i, k :: 0 <= i < |islandSolutions| && 0 <= k < |islandSolutions[i]| ==> |islandSolutions[i][k]| <= u
    ensures |likelihoods| == |islandSolutions|
    ensures forall i :: 0 <= i < |islandSolutions| ==> Weighs(islandSolutions[i], likelihoods[i], r, u)
  {
    likelihoods := [];
    for i := 0 to |islandSolutions|
      invariant |likelihoods| == i
      invariant forall i' :: 0 <= i' < i ==> Weighs(islandSolutions[i'], likelihoods[i'], r, u)
    {
      var sols := islandSolutions[i];
      var ls: seq<real> := [];
      for k := 0 to |sols|
        invariant |ls| == k
        invariant forall k' :: 0 <= k' < k ==> ls[k'] == Likelihood(sols[k'], r, u)
      {
        var l := SolutionLikelihood(sols[k], r, u);
        ls := ls + [l];
      }
      likelihoods := likelihoods + [ls];
    }
  }

  /** Every arrangement has a status for cell j. */
  predicate Reaches(sols: seq<seq<int>>, j: int) {
    0 <= j && forall k :: 0 <= k < |sols| ==> j < |sols[k]|
  }

  /** The summed likelihood of the arrangements that leave cell j clear. */
  function ClearWeight(sols: seq<seq<int>>, ls: seq<real>, j: int): real
    requires |ls| == |sols| && Reaches(sols, j)
    decreases |sols|
  {
    if sols == [] then 0.0
    else (if sols[0][j] == NotMine then ls[0] else 0.0) + ClearWeight(sols[1..], ls[1..], j)
  }

  /** The summed likelihood of the arrangements that put a mine on cell j. */
  function MineWeight(sols: seq<seq<int>>, ls: seq<real>, j: int): real
    requires |ls| == |sols| && Reaches(sols, j)
    decreases |sols|
  {
    if sols == [] then 0.0
    else (if sols[0][j] == Mine then ls[0] else 0.0) + MineWeight(sols[1..], ls[1..], j)
  }

  /** The normaliser: the summed likelihood of all the arrangements. */
  function Total(ls: seq<real>): real {
    if ls == [] then 0.0 else ls[0] + Total(ls[1..])
  }

  /** The chance that cell j of the island is clear: the likelihood of the arrangements that
      leave it clear over the likelihood of all, NaN when both are zero. */
  function CellProbability(sols: seq<seq<int>>, ls: seq<real>, j: int): Prob
    requires |ls| == |sols| && Reaches(sols, j)
  {
    if Total(ls) == 0.0 then Undefined else Value(ClearWeight(sols, ls, j) / Total(ls))
  }

  predicate NonNegative(ls: seq<real>) {
    forall k :: 0 <= k < |ls| ==> 0.0 <= ls[k]
  }

  /** Every arrangement gives cell j the status MINE or NOT_MINE. */
  predicate StatusAt(sols: seq<seq<int>>, j: int)
    requires Reaches(sols, j)
  {
    forall k :: 0 <= k < |sols| ==> sols[k][j] == Mine || sols[k][j] == NotMine
  }

  /** Every arrangement leaves cell j clear or mines it, so the two weights make up the total. */
  lemma {:induction false} WeightSplit(sols: seq<seq<int>>, ls: seq<real>, j: int)
    requires |ls| == |sols| && Reaches(sols, j) && StatusAt(sols, j)
    ensures Total(ls) == ClearWeight(sols, ls, j) + MineWeight(sols, ls, j)
    decreases |sols|
  {
    if sols != [] {
      assert Reaches(sols[1..], j) && StatusAt(sols[1..], j);
      WeightSplit(sols[1..], ls[1..], j);
    }
  }

  /** A sum of likelihoods that are not negative is not negative, and it is zero exactly when
      each is zero. */
  lemma {:induction false} TotalZero(ls: seq<real>)
    requires NonNegative(ls)
    ensures 0.0 <= Total(ls)
    ensures Total(ls) == 0.0 <==> forall k :: 0 <= k < |ls| ==> ls[k] == 0.0
    decreases |ls|
  {
    if ls != [] {
      assert NonNegative(ls[1..]);
      TotalZero(ls[1..]);
      if Total(ls) == 0.0 {
        forall k | 0 <= k < |ls| ensures ls[k] == 0.0 {
          if k > 0 {
            assert ls[k] == ls[1..][k - 1];
          }
        }
      }
    }
  }

  /** The clear weight is not negative, and it is zero exactly when every arrangement that leaves
      cell j clear has likelihood zero. */
  lemma {:induction false} ClearWeightZero(sols: seq<seq<int>>, ls: seq<real>, j: int)
    requires |ls| == |sols| && Reaches(sols, j) && NonNegative(ls)
    ensures 0.0 <= ClearWeight(sols, ls, j)
    ensures ClearWeight(sols, ls, j) == 0.0 <==> forall k :: 0 <= k < |sols| && sols[k][j] == NotMine ==> ls[k] == 0.0
    decreases |sols|
  {
    if sols != [] {
      assert Reaches(sols[1..], j) && NonNegative(ls[1..]);
      ClearWeightZero(sols[1..], ls[1..], j);
      if ClearWeight(sols, ls, j) == 0.0 {
        forall k | 0 <= k < |sols| && sols[k][j] == NotMine ensures ls[k] == 0.0 {
          if k > 0 {
            assert sols[k] == sols[1..][k - 1] && ls[k] == ls[1..][k - 1];
          }
        }
      }
    }
  }

  /** The mine weight is not negative, and it is zero exactly when every arrangement that mines
      cell j has likelihood zero. */
  lemma {:induction false} MineWeightZero(sols: seq<seq<int>>, ls: seq<real>, j: int)
    requires |ls| == |sols| && Reaches(sols, j) && NonNegative(ls)
    ensures 0.0 <= MineWeight(sols, ls, j)
    ensures MineWeight(sols, ls, j) == 0.0 <==> forall k :: 0 <= k < |sols| && sols[k][j] == Mine ==> ls[k] == 0.0
    decreases |sols|
  {
    if sols != [] {
      assert Reaches(sols[1..], j) && NonNegative(ls[1..]);
      MineWeightZero(sols[1..], ls[1..], j);
      if MineWeight(sols, ls, j) == 0.0 {
        forall k | 0 <= k < |sols| && sols[k][j] == Mine ensures ls[k] == 0.0 {
          if k > 0 {
            assert sols[k] == sols[1..][k - 1] && ls[k] == ls[1..][k - 1];
          }
        }
      }
    }
  }

  /** A cell's probability is NaN exactly when every arrangement has likelihood zero, and is
      otherwise between 0 and 1. */
  lemma CellProbabilityRange(sols: seq<seq<int>>, ls: seq<real>, j: int)
    requires |ls| == |sols| && Reaches(sols, j) && StatusAt(sols, j) && NonNegative(ls)
    ensures CellProbability(sols, ls, j) == Undefined <==> forall k :: 0 <= k < |ls| ==> ls[k] == 0.0
    ensures CellProbability(sols, ls, j).Value? ==> 0.0 <= CellProbability(sols, ls, j).p <= 1.0
  {
    TotalZero(ls);
    WeightSplit(sols, ls, j);
    ClearWeightZero(sols, ls, j);
    MineWeightZero(sols, ls, j);
    if Total(ls) != 0.0 {
      UnitRatio(ClearWeight(sols, ls, j), Total(ls));
    }
  }

  /** The table says a cell is certainly clear exactly when some arrangement is possible and no
      possible arrangement mines it. */
  lemma CertainlyClear(sols: seq<seq<int>>, ls: seq<real>, j: int)
    requires |ls| == |sols| && Reaches(sols, j) && StatusAt(sols, j) && NonNegative(ls)
    ensures CellProbability(sols, ls, j) == Value(1.0) <==>
              Total(ls) != 0.0 && forall k :: 0 <= k < |sols| && sols[k][j] == Mine ==> ls[k] == 0.0
  {
    TotalZero(ls);
    WeightSplit(sols, ls, j);
    MineWeightZero(sols, ls, j);
    if Total(ls) != 0.0 {
      WholeRatio(ClearWeight(sols, ls, j), Total(ls));
    }
  }

  /** The table says a cell is certainly a mine exactly when some arrangement is possible and no
      possible arrangement leaves it clear. */
  lemma CertainlyMine(sols: seq<seq<int>>, ls: seq<real>, j: int)
    requires |ls| == |sols| && Reaches(sols, j) && NonNegative(ls)
    ensures CellProbability(sols, ls, j) == Value(0.0) <==>
              Total(ls) != 0.0 && forall k :: 0 <= k < |sols| && sols[k][j] == NotMine ==> ls[k] == 0.0
  {
    TotalZero(ls);
    ClearWeightZero(sols, ls, j);
    if Total(ls) != 0.0 {
      var c, t := ClearWeight(sols, ls, j), Total(ls);
      assert c / t == 0.0 <==> c == 0.0;
    }
  }

  /** Each arrangement of each island has one status per island cell. */
  predicate Shaped(islands: seq<seq<Pos>>, islandSolutions: seq<seq<seq<int>>>, likelihoods: seq<seq<real>>) {
    && |islandSolutions| == |islands| && |likelihoods| == |islands|
    && forall i :: 0 <= i < |islands| ==>
         |likelihoods[i]| == |islandSolutions[i]| &&
         forall k :: 0 <= k < |islandSolutions[i]| ==> |islandSolutions[i][k]| == |islands[i]|
  }

  /** The entries of one island: each cell with its probability, in island order. */
  function IslandEntries(island: seq<Pos>, sols: seq<seq<int>>, ls: seq<real>): seq<(Pos, Prob)>
    requires |ls| == |sols| && forall k :: 0 <= k < |sols| ==> |sols[k]| == |island|
  {
    seq(|island|, j requires 0 <= j < |island| => (island[j], CellProbability(sols, ls, j)))
  }

  /** The entries of all the islands, island by island. */
  function BorderEntries(islands: seq<seq<Pos>>, islandSolutions: seq<seq<seq<int>>>, likelihoods: seq<seq<real>>): seq<(Pos, Prob)>
    requires Shaped(islands, islandSolutions, likelihoods)
    decreases |islands|
  {
    if islands == [] then []
    else
      var n := |islands| - 1;
      BorderEntries(islands[..n], islandSolutions[..n], likelihoods[..n]) +
      IslandEntries(islands[n], islandSolutions[n], likelihoods[n])
  }

  /** The cells of the islands, island by island. */
  function Flatten(islands: seq<seq<Pos>>): seq<Pos>
    decreases |islands|
  {
    if islands == [] then [] else Flatten(islands[..|islands| - 1]) + islands[|islands| - 1]
  }

  function Cells(entries: seq<(Pos, Prob)>): seq<Pos> {
    seq(|entries|, k requires 0 <= k < |entries| => entries[k].0)
  }

  /** The border entries name the island cells in island order, and give each cell of each island
      its probability. */
  lemma {:induction false} BorderEntriesFacts(islands: seq<seq<Pos>>, islandSolutions: seq<seq<seq<int>>>, likelihoods: seq<seq<real>>)
    requires Shaped(islands, islandSolutions, likelihoods)
    ensures Cells(BorderEntries(islands, islandSolutions, likelihoods)) == Flatten(islands)
    ensures forall i, j :: 0 <= i < |islands| && 0 <= j < |islands[i]| ==>
              (islands[i][j], CellProbability(islandSolutions[i], likelihoods[i], j)) in BorderEntries(islands, islandSolutions, likelihoods)
    decreases |islands|
  {
    if islands != [] {
      var n := |islands| - 1;
      assert Shaped(islands[..n], islandSolutions[..n], likelihoods[..n]);
      BorderEntriesFacts(islands[..n], islandSolutions[..n], likelihoods[..n]);
      var before := BorderEntries(islands[..n], islandSolutions[..n], likelihoods[..n]);
      var last := IslandEntries(islands[n], islandSolutions[n], likelihoods[n]);
      assert Cells(before + last) == Cells(before) + Cells(last);
      assert Cells(last) == islands[n];
      forall i, j | 0 <= i < |islands| && 0 <= j < |islands[i]|
        ensures (islands[i][j], CellProbability(islandSolutions[i], likelihoods[i], j)) in before + last
      {
        if i < n {
          assert islands[..n][i] == islands[i];
          assert (islands[i][j], CellProbability(islandSolutions[i], likelihoods[i], j)) in before;
        } else {
          assert last[j] == (islands[i][j], CellProbability(islandSolutions[i], likelihoods[i], j));
        }
      }
    }
  }

  /** When no likelihood is negative and every arrangement gives every cell a status, every
      number in the border entries is a probability. */
  lemma {:induction false} BorderEntriesRange(islands: seq<seq<Pos>>, islandSolutions: seq<seq<seq<int>>>, likelihoods: seq<seq<real>>)
    requires Shaped(islands, islandSolutions, likelihoods)
    requires forall i :: 0 <= i < |islands| ==> NonNegative(likelihoods[i])
    requires forall i, k :: 0 <= i < |islands| && 0 <= k < |islandSolutions[i]| ==> Bits(islandSolutions[i][k], 0)
    ensures forall e :: e in BorderEntries(islands, islandSolutions, likelihoods) && e.1.Value? ==> 0.0 <= e.1.p <= 1.0
    decreases |islands|
  {
    if islands != [] {
      var n := |islands| - 1;
      assert Shaped(islands[..n], islandSolutions[..n], likelihoods[..n]);
      BorderEntriesRange(islands[..n], islandSolutions[..n], likelihoods[..n]);
      var sols, ls := islandSolutions[n], likelihoods[n];
      var last := IslandEntries(islands[n], sols, ls);
      forall j | 0 <= j < |islands[n]| ensures last[j].1.Value? ==> 0.0 <= last[j].1.p <= 1.0 {
        assert Reaches(sols, j) && StatusAt(sols, j);
        CellProbabilityRange(sols, ls, j);
      }
    }
  }

  /** No island has an arrangement: the likelihood array then has no columns. */
  predicate NoArrangements(islandSolutions: seq<seq<seq<int>>>) {
    forall i :: 0 <= i < |islandSolutions| ==> islandSolutions[i] == []
  }

  /** The loops of step 4 that fill the table for the border cells. The first border cell
      raises ZeroDivisionError when no island has an arrangement; otherwise every island cell
      gets its probability, island by island. */
  method BorderProbabilities(islands: seq<seq<Pos>>, islandSolutions: seq<seq<seq<int>>>, likelihoods: seq<seq<real>>)
    returns (table: Outcome<seq<(Pos, Prob)>>)
    requires Shaped(islands, islandSolutions, likelihoods)
    ensures table.Raised? <==> Flatten(islands) != [] && NoArrangements(islandSolutions)
    ensures table.Done? ==> table.value == BorderEntries(islands, islandSolutions, likelihoods)
  {
    var most := 0;
    for i := 0 to |islandSolutions|
      invariant most >= 0 && (most == 0 <==> NoArrangements(islandSolutions[..i]))
    {
      assert NoArrangements(islandSolutions[..i + 1]) <==> NoArrangements(islandSolutions[..i]) && islandSolutions[i] == [] by {
        assert forall k :: 0 <= k < i ==> islandSolutions[..i + 1][k] == islandSolutions[..i][k];
      }
      if |islandSolutions[i]| > most {
        most := |islandSolutions[i]|;
      }
    }
    assert islandSolutions[..|islandSolutions|] == islandSolutions;
    var entries: seq<(Pos, Prob)> := [];
    var raised := false;
    for i := 0 to |islands|
      invariant Shaped(islands[..i], islandSolutions[..i], likelihoods[..i])
      invariant raised <==> most == 0 && Flatten(islands[..i]) != []
      invariant !raised ==> entries == BorderEntries(islands[..i], islandSolutions[..i], likelihoods[..i])
    {
      var island, sols, ls := islands[i], islandSolutions[i], likelihoods[i];
      assert islands[..i + 1][..i] == islands[..i];
      assert islandSolutions[..i + 1][..i] == islandSolutions[..i];
      assert likelihoods[..i + 1][..i] == likelihoods[..i];
      if !raised {
        if most == 0 && island != [] {
          // With no column in the likelihood array, both sums of the cell are the integer 0.
          raised := true;
        } else {
          ghost var before := entries;
          for j := 0 to |island|
            invariant entries == before + IslandEntries(island, sols, ls)[..j]
          {
            entries := entries + [(island[j], CellProbability(sols, ls, j))];
          }
          assert IslandEntries(island, sols, ls)[..|island|] == IslandEntries(island, sols, ls);
        }
      }
    }
    assert islands[..|islands|] == islands;
    assert islandSolutions[..|islands|] == islandSolutions;
    assert likelihoods[..|islands|] == likelihoods;
    table := if raised then Raised else Done(entries);
  }

}
