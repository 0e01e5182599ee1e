/** Step 5 of the bot's probability tables: the chance that a covered cell away from every number
    is clear. Each island's arrangements give a distribution of how many mines the island holds;
    every way of picking one mine amount per island that leaves a count of mines the other covered
    cells can hold is weighted by the product of the picked chances, and the weighted average of
    the mines on the border leaves the rest to spread evenly over the other covered cells. */
module NonborderProbability {
  import opened Grid
  import opened Enumeration
  import opened BorderProbability

  /** The distinct mine amounts of an island's arrangements, in order of first appearance. */
  function MineAmounts(sols: seq<seq<int>>): seq<int>
    decreases |sols|
  {
    if sols == [] then []
    else
      var before, a := MineAmounts(sols[..|sols| - 1]), Sum(sols[|sols| - 1]);
      if a in before then before else before + [a]
  }

  /** The mine amounts are exactly the amounts some arrangement has, each once. */
  lemma {:induction false} MineAmountsFacts(sols: seq<seq<int>>)
    ensures Distinct(MineAmounts(sols))
    ensures forall a :: a in MineAmounts(sols) <==> exists s :: s in sols && Sum(s) == a
    decreases |sols|
  {
    if sols != [] {
      var init, last := sols[..|sols| - 1], sols[|sols| - 1];
      MineAmountsFacts(init);
      assert sols == init + [last];
      forall a ensures a in MineAmounts(sols) <==> exists s :: s in sols && Sum(s) == a {
        if a in MineAmounts(sols) && a != Sum(last) {
          var s :| s in init && Sum(s) == a;
          assert s in sols;
        }
        if a == Sum(last) {
          assert last in sols;
        }
      }
    }
  }

  /** How many of the arrangements place a mines. */
  function Count(sols: seq<seq<int>>, a: int): (n: nat)
    ensures n <= |sols|
  {
    if sols == [] then 0 else (if Sum(sols[0]) == a then 1 else 0) + Count(sols[1..], a)
  }

  /** Some arrangement places a mines exactly when the count of them is positive. */
  lemma {:induction false} CountPositive(sols: seq<seq<int>>, a: int)
    ensures Count(sols, a) > 0 <==> exists s :: s in sols && Sum(s) == a
  {
    if sols != [] {
      CountPositive(sols[1..], a);
      assert sols == [sols[0]] + sols[1..];
      if exists s :: s in sols && Sum(s) == a {
        var s :| s in sols && Sum(s) == a;
        assert s == sols[0] || s in sols[1..];
      }
    }
  }

  /** The share of an island's arrangements that place a mines. */
  function Chance(sols: seq<seq<int>>, a: int): real
    requires sols != []
  {
    Count(sols, a) as real / |sols| as real
  }

  /** The chance of each mine amount an island's arrangements have. */
  function Chances(sols: seq<seq<int>>): map<int, real> {
    map a | a in MineAmounts(sols) :: if sols == [] then 0.0 else Chance(sols, a)
  }

  /** The chance of a mine amount some arrangement has is positive and at most 1. */
  lemma ChanceRange(sols: seq<seq<int>>, a: int)
    requires a in MineAmounts(sols)
    ensures sols != [] && a in Chances(sols)
    ensures 0.0 < Chances(sols)[a] <= 1.0
  {
    MineAmountsFacts(sols);
    CountPositive(sols, a);
    UnitRatio(Count(sols, a) as real, |sols| as real);
  }

  /** x before each of the combinations, in order. */
  function Attach(x: int, cs: seq<seq<int>>): (r: seq<seq<int>>)
    ensures |r| == |cs|
    ensures forall k :: 0 <= k < |cs| ==> r[k] == [x] + cs[k]
  {
    seq(|cs|, k requires 0 <= k < |cs| => [x] + cs[k])
  }

  /** Each of xs before each of the combinations, the first of xs varying slowest. */
  function Prepend(xs: seq<int>, cs: seq<seq<int>>): seq<seq<int>> {
    if xs == [] then [] else Attach(xs[0], cs) + Prepend(xs[1..], cs)
  }

  /** The Cartesian product of the lists, in the order the standard library enumerates it: the
      first list varies slowest, and no lists give one empty combination. */
  function Combinations(lists: seq<seq<int>>): seq<seq<int>>
    decreases |lists|
  {
    if lists == [] then [[]] else Prepend(lists[0], Combinations(lists[1..]))
  }

  /** c picks one entry from each list, in order. */
  predicate Picks(c: seq<int>, lists: seq<seq<int>>) {
    |c| == |lists| && forall i :: 0 <= i < |c| ==> c[i] in lists[i]
  }

  lemma {:induction false} PrependMembers(xs: seq<int>, cs: seq<seq<int>>, c: seq<int>)
    ensures c in Prepend(xs, cs) <==> c != [] && c[0] in xs && c[1..] in cs
    decreases |xs|
  {
    if xs != [] {
      PrependMembers(xs[1..], cs, c);
      var a := Attach(xs[0], cs);
      if c in a {
        var k :| 0 <= k < |cs| && a[k] == c;
        assert c[1..] == cs[k];
      }
      if c != [] && c[0] == xs[0] && c[1..] in cs {
        var k :| 0 <= k < |cs| && cs[k] == c[1..];
        assert a[k] == c;
      }
      assert xs == [xs[0]] + xs[1..];
    }
  }

  /** The combinations are exactly the ways to pick one entry from each list. */
  lemma {:induction false} CombinationsMembers(lists: seq<seq<int>>, c: seq<int>)
    ensures c in Combinations(lists) <==> Picks(c, lists)
    decreases |lists|
  {
    if lists != [] {
      PrependMembers(lists[0], Combinations(lists[1..]), c);
      if c != [] {
        CombinationsMembers(lists[1..], c[1..]);
        if Picks(c, lists) {
          assert Picks(c[1..], lists[1..]) by {
            forall i | 0 <= i < |c| - 1 ensures c[1..][i] in lists[1..][i] {
              assert c[i + 1] in lists[i + 1];
            }
          }
        }
        if Picks(c[1..], lists[1..]) && c[0] in lists[0] {
          forall i | 0 <= i < |c| ensures c[i] in lists[i] {
            if i > 0 {
              assert c[1..][i - 1] in lists[1..][i - 1];
            }
          }
        }
      }
    } else {
      assert Picks(c, lists) <==> c == [];
    }
  }

  /** A combination of mine amounts leaves a number of mines the cells off the border can hold. */
  predicate Fits(comb: seq<int>, remainingMines: int, nonborderCount: int) {
    Sum(comb) <= remainingMines && remainingMines - Sum(comb) <= nonborderCount
  }

  /** Every amount of the combination has a chance in its island's table. */
  predicate Listed(comb: seq<int>, chances: seq<map<int, real>>) {
    |comb| == |chances| && forall i :: 0 <= i < |comb| ==> comb[i] in chances[i]
  }

  /** The chance of each island's amount in the combination, in island order. */
  function PickedChances(comb: seq<int>, chances: seq<map<int, real>>): (ps: seq<real>)
    ensures |ps| == |comb|
  {
    seq(|comb|, i requires 0 <= i < |comb| => if i < |chances| && comb[i] in chances[i] then chances[i][comb[i]] else 0.0)
  }

  /** The weight of a combination: the product of its chances. */
  function Weight(comb: seq<int>, chances: seq<map<int, real>>): real
  {
    Product(PickedChances(comb, chances))
  }

  /** The loop that multiplies the chances of a combination together. */
  method CombProbability(comb: seq<int>, chances: seq<map<int, real>>) returns (p: real)
    requires Listed(comb, chances)
    ensures p == Weight(comb, chances)
  {
    ghost var ps := PickedChances(comb, chances);
    p := 1.0;
    for i := 0 to |comb|
      invariant p == Product(ps[..i])
    {
      ProductStep(ps, i, p);
      p := p * chances[i][comb[i]];
    }
    assert ps[..|comb|] == ps;
  }

  /** A product of positive factors that are at most 1 is positive and at most 1. */
  lemma {:induction false} ProductUnit(ps: seq<real>)
    requires forall i :: 0 <= i < |ps| ==> 0.0 < ps[i] <= 1.0
    ensures 0.0 < Product(ps) <= 1.0
    decreases |ps|
  {
    if ps != [] {
      ProductUnit(ps[1..]);
      var a, b := ps[0], Product(ps[1..]);
      UnitProduct(a, b);
      PositiveProduct(a, b);
      assert Product(ps) == a * b;
    }
  }

  lemma PositiveProduct(a: real, b: real)
    requires 0.0 < a && 0.0 < b
    ensures 0.0 < a * b
  {
  }

  /** Every combination has a chance for each of its amounts. */
  predicate AllListed(combs: seq<seq<int>>, chances: seq<map<int, real>>) {
    forall k :: 0 <= k < |combs| ==> Listed(combs[k], chances)
  }

  /** Every combination carries a positive weight. */
  predicate Weighted(combs: seq<seq<int>>, chances: seq<map<int, real>>) {
    forall k :: 0 <= k < |combs| ==> Weight(combs[k], chances) > 0.0
  }

  /** The summed weight of the combinations that fit. */
  function Normaliser(combs: seq<seq<int>>, chances: seq<map<int, real>>, remainingMines: int, nonborderCount: int): real
    decreases |combs|
  {
    if combs == [] then 0.0
    else
      var n, c := |combs| - 1, combs[|combs| - 1];
      Normaliser(combs[..n], chances, remainingMines, nonborderCount) +
      if Fits(c, remainingMines, nonborderCount) then Weight(c, chances) else 0.0
  }

  /** The summed weight, times its mine amount, of the combinations that fit. */
  function BorderMines(combs: seq<seq<int>>, chances: seq<map<int, real>>, remainingMines: int, nonborderCount: int): real
    decreases |combs|
  {
    if combs == [] then 0.0
    else
      var n, c := |combs| - 1, combs[|combs| - 1];
      BorderMines(combs[..n], chances, remainingMines, nonborderCount) +
      if Fits(c, remainingMines, nonborderCount) then Share(c, chances) else 0.0
  }

  lemma ShareOf(comb: seq<int>, chances: seq<map<int, real>>, w: real, m: int)
    requires w == Weight(comb, chances) && m == Sum(comb)
    ensures w * m as real == Share(comb, chances)
  {
  }

  /** A combination's weight times its mine amount. */
  function Share(comb: seq<int>, chances: seq<map<int, real>>): real
  {
    Weight(comb, chances) * Sum(comb) as real
  }

  /** The summed weight is not negative, and it is zero exactly when no combination fits. */
  lemma {:induction false} NormaliserZero(combs: seq<seq<int>>, chances: seq<map<int, real>>, remainingMines: int, nonborderCount: int)
    requires Weighted(combs, chances)
    ensures 0.0 <= Normaliser(combs, chances, remainingMines, nonborderCount)
    ensures Normaliser(combs, chances, remainingMines, nonborderCount) == 0.0 <==>
              forall k :: 0 <= k < |combs| ==> !Fits(combs[k], remainingMines, nonborderCount)
    decreases |combs|
  {
    if combs != [] {
      var n := |combs| - 1;
      assert Weighted(combs[..n], chances);
      NormaliserZero(combs[..n], chances, remainingMines, nonborderCount);
      if Normaliser(combs, chances, remainingMines, nonborderCount) == 0.0 {
        forall k | 0 <= k < |combs| ensures !Fits(combs[k], remainingMines, nonborderCount) {
          if k < n {
            assert combs[..n][k] == combs[k];
          }
        }
      }
    }
  }

  /** The summed weight grows by the last combination's weight when it fits. */
  lemma NormaliserStep(combs: seq<seq<int>>, chances: seq<map<int, real>>, r: int, nb: int)
    requires combs != []
    ensures Normaliser(combs, chances, r, nb) ==
              Normaliser(combs[..|combs| - 1], chances, r, nb) +
              if Fits(combs[|combs| - 1], r, nb) then Weight(combs[|combs| - 1], chances) else 0.0
  {
  }

  /** The weighted mine amount grows by the last combination's weighted amount when it fits. */
  lemma BorderMinesStep(combs: seq<seq<int>>, chances: seq<map<int, real>>, r: int, nb: int)
    requires combs != []
    ensures BorderMines(combs, chances, r, nb) ==
              BorderMines(combs[..|combs| - 1], chances, r, nb) +
              if Fits(combs[|combs| - 1], r, nb) then Share(combs[|combs| - 1], chances) else 0.0
  {
  }

  /** The weighted amount b lies between lo and hi times the summed weight n. */
  predicate Between(lo: real, hi: real, n: real, b: real) {
    lo * n <= b <= hi * n
  }

  /** Adding a weight w at an amount s between lo and hi keeps the weighted amount between lo and
      hi times the summed weight. */
  lemma Accumulate(n: real, b: real, w: real, s: real, lo: real, hi: real, n': real, b': real)
    requires Between(lo, hi, n, b) && 0.0 <= w && lo <= s <= hi
    requires n' == n + w && b' == b + w * s
    ensures Between(lo, hi, n', b')
  {
    NonNegProduct(w, s - lo);
    NonNegProduct(w, hi - s);
    assert w * (s - lo) == w * s - w * lo;
    assert w * (hi - s) == w * hi - w * s;
  }

  /** Every combination that fits leaves between none and all of the cells off the border to the
      mines, so the weighted mine amount lies between the remaining mines less those cells and the
      remaining mines, times the summed weight. */
  lemma {:induction false} BorderMinesBounds(combs: seq<seq<int>>, chances: seq<map<int, real>>, remainingMines: int, nonborderCount: int)
    requires Weighted(combs, chances)
    ensures Between((remainingMines - nonborderCount) as real, remainingMines as real,
                    Normaliser(combs, chances, remainingMines, nonborderCount),
                    BorderMines(combs, chances, remainingMines, nonborderCount))
    decreases |combs|
  {
    var lo, hi := (remainingMines - nonborderCount) as real, remainingMines as real;
    if combs != [] {
      var k := |combs| - 1;
      var c := combs[k];
      assert Weighted(combs[..k], chances);
      BorderMinesBounds(combs[..k], chances, remainingMines, nonborderCount);
      NormaliserStep(combs, chances, remainingMines, nonborderCount);
      BorderMinesStep(combs, chances, remainingMines, nonborderCount);
      if Fits(c, remainingMines, nonborderCount) {
        Accumulate(Normaliser(combs[..k], chances, remainingMines, nonborderCount),
                   BorderMines(combs[..k], chances, remainingMines, nonborderCount),
                   Weight(c, chances), Sum(c) as real, lo, hi,
                   Normaliser(combs, chances, remainingMines, nonborderCount),
                   BorderMines(combs, chances, remainingMines, nonborderCount));
      }
    }
  }

  /** An average between the remaining mines less the nonborder cells and the remaining mines
      leaves each nonborder cell a chance between 0 and 1 of being clear. */
  lemma Spread(r: real, nb: real, n: real, b: real)
    requires 0.0 < n && 0.0 < nb && Between(r - nb, r, n, b)
    ensures 0.0 <= 1.0 - (r - b / n) / nb <= 1.0
  {
    var avg := b / n;
    assert avg * n == b;
    AverageBounds(r - nb, r, n, avg);
    UnitRatio(r - avg, nb);
  }

  lemma AverageBounds(lo: real, hi: real, n: real, avg: real)
    requires 0.0 < n && lo * n <= avg * n <= hi * n
    ensures lo <= avg <= hi
  {
    assert (avg - lo) * n == avg * n - lo * n;
    assert (hi - avg) * n == hi * n - avg * n;
    FactorSign(avg - lo, n);
    FactorSign(hi - avg, n);
  }

  lemma FactorSign(x: real, n: real)
    requires 0.0 < n && 0.0 <= x * n
    ensures 0.0 <= x
  {
  }

  /** The mine amounts of each island, in island order. */
  function Amounts(islandSolutions: seq<seq<seq<int>>>): (amounts: seq<seq<int>>)
    ensures |amounts| == |islandSolutions|
  {
    seq(|islandSolutions|, i requires 0 <= i < |islandSolutions| => MineAmounts(islandSolutions[i]))
  }

  /** The chance of each mine amount of each island, in island order. */
  function ChanceTables(islandSolutions: seq<seq<seq<int>>>): (chances: seq<map<int, real>>)
    ensures |chances| == |islandSolutions|
  {
    seq(|islandSolutions|, i requires 0 <= i < |islandSolutions| => Chances(islandSolutions[i]))
  }

  /** comb gives each island a mine amount one of its arrangements has. */
  predicate Achievable(comb: seq<int>, islandSolutions: seq<seq<seq<int>>>) {
    |comb| == |islandSolutions| &&
    forall i :: 0 <= i < |comb| ==> exists s :: s in islandSolutions[i] && Sum(s) == comb[i]
  }

  /** The combinations are exactly the achievable ones. */
  lemma CombinationsAchievable(islandSolutions: seq<seq<seq<int>>>, comb: seq<int>)
    ensures comb in Combinations(Amounts(islandSolutions)) <==> Achievable(comb, islandSolutions)
  {
    var amounts := Amounts(islandSolutions);
    CombinationsMembers(amounts, comb);
    forall i | 0 <= i < |islandSolutions| {
      MineAmountsFacts(islandSolutions[i]);
    }
  }

  /** Every combination has a chance for each of its amounts, each positive and at most 1. */
  lemma CombinationsListed(islandSolutions: seq<seq<seq<int>>>)
    ensures AllListed(Combinations(Amounts(islandSolutions)), ChanceTables(islandSolutions))
    ensures forall k :: 0 <= k < |Combinations(Amounts(islandSolutions))| ==>
              var ps := PickedChances(Combinations(Amounts(islandSolutions))[k], ChanceTables(islandSolutions));
              forall i :: 0 <= i < |ps| ==> 0.0 < ps[i] <= 1.0
  {
    var amounts, chances := Amounts(islandSolutions), ChanceTables(islandSolutions);
    var combs := Combinations(amounts);
    forall k | 0 <= k < |combs|
      ensures Listed(combs[k], chances)
      ensures forall i :: 0 <= i < |combs[k]| ==> 0.0 < PickedChances(combs[k], chances)[i] <= 1.0
    {
      var comb := combs[k];
      CombinationsMembers(amounts, comb);
      forall i | 0 <= i < |comb| ensures comb[i] in chances[i] && 0.0 < chances[i][comb[i]] <= 1.0 {
        ChanceRange(islandSolutions[i], comb[i]);
      }
    }
  }

  /** Every combination carries a positive weight. */
  lemma CombinationsWeighted(islandSolutions: seq<seq<seq<int>>>)
    ensures Weighted(Combinations(Amounts(islandSolutions)), ChanceTables(islandSolutions))
  {
    var combs, chances := Combinations(Amounts(islandSolutions)), ChanceTables(islandSolutions);
    CombinationsListed(islandSolutions);
    forall k | 0 <= k < |combs| ensures Weight(combs[k], chances) > 0.0 {
      ProductUnit(PickedChances(combs[k], chances));
    }
  }

  /** The chance that a cell off the border is clear, or the exception the bot raises when no
      combination fits: one minus the share of the cells off the border that the mines left over
      from the weighted average on the border would fill. */
  function NonborderChance(islandSolutions: seq<seq<seq<int>>>, remainingMines: int, nonborderCount: int): Outcome<real>
    requires nonborderCount > 0
  {
    var combs, chances := Combinations(Amounts(islandSolutions)), ChanceTables(islandSolutions);
    var n := Normaliser(combs, chances, remainingMines, nonborderCount);
    if n == 0.0 then Raised
    else Done(1.0 - (remainingMines as real - BorderMines(combs, chances, remainingMines, nonborderCount) / n) / nonborderCount as real)
  }

  /** The bot raises exactly when no way of giving each island a mine amount one of its
      arrangements has leaves a number of mines the cells off the border can hold. */
  lemma NonborderRaised(islandSolutions: seq<seq<seq<int>>>, remainingMines: int, nonborderCount: int)
    requires nonborderCount > 0
    ensures NonborderChance(islandSolutions, remainingMines, nonborderCount) == Raised <==>
              forall comb :: Achievable(comb, islandSolutions) ==> !Fits(comb, remainingMines, nonborderCount)
  {
    var combs, chances := Combinations(Amounts(islandSolutions)), ChanceTables(islandSolutions);
    CombinationsWeighted(islandSolutions);
    NormaliserZero(combs, chances, remainingMines, nonborderCount);
    forall comb ensures comb in combs <==> Achievable(comb, islandSolutions) {
      CombinationsAchievable(islandSolutions, comb);
    }
  }

  /** The chance given to the cells off the border is between 0 and 1. */
  lemma NonborderRange(islandSolutions: seq<seq<seq<int>>>, remainingMines: int, nonborderCount: int)
    requires nonborderCount > 0
    ensures NonborderChance(islandSolutions, remainingMines, nonborderCount).Done? ==>
              0.0 <= NonborderChance(islandSolutions, remainingMines, nonborderCount).value <= 1.0
  {
    var combs, chances := Combinations(Amounts(islandSolutions)), ChanceTables(islandSolutions);
    CombinationsWeighted(islandSolutions);
    NormaliserZero(combs, chances, remainingMines, nonborderCount);
    BorderMinesBounds(combs, chances, remainingMines, nonborderCount);
    var n := Normaliser(combs, chances, remainingMines, nonborderCount);
    if n != 0.0 {
      Spread(remainingMines as real, nonborderCount as real, n, BorderMines(combs, chances, remainingMines, nonborderCount));
    }
  }

  /** One pass of the loop over the combinations: a combination that fits adds its weight to the
      normaliser and its weighted mine amount to the average. */
  method Tally(comb: seq<int>, chances: seq<map<int, real>>, remainingMines: int, nonborderCount: int,
               normaliser: real, average: real) returns (normaliser': real, average': real)
    requires Listed(comb, chances)
    ensures normaliser' == normaliser + if Fits(comb, remainingMines, nonborderCount) then Weight(comb, chances) else 0.0
    ensures average' == average + if Fits(comb, remainingMines, nonborderCount) then Share(comb, chances) else 0.0
  {
    normaliser', average' := normaliser, average;
    if Sum(comb) <= remainingMines && remainingMines - Sum(comb) <= nonborderCount {
      var p := CombProbability(comb, chances);
      var mines := Sum(comb);
      ShareOf(comb, chances, p, mines);
      normaliser' := normaliser' + p;
      average' := average' + p * mines as real;
    }
  }

  /** The loop of step 5 over the combinations of mine amounts. */
  method SumCombinations(combs: seq<seq<int>>, chances: seq<map<int, real>>, remainingMines: int, nonborderCount: int)
    returns (normaliser: real, average: real)
    requires AllListed(combs, chances)
    ensures normaliser == Normaliser(combs, chances, remainingMines, nonborderCount)
    ensures average == BorderMines(combs, chances, remainingMines, nonborderCount)
  {
    normaliser, average := 0.0, 0.0;
    for k := 0 to |combs|
      invariant normaliser == Normaliser(combs[..k], chances, remainingMines, nonborderCount)
      invariant average == BorderMines(combs[..k], chances, remainingMines, nonborderCount)
    {
      var comb := combs[k];
      ghost var upTo := combs[..k + 1];
      assert upTo[..k] == combs[..k] && upTo[k] == comb;
      NormaliserStep(upTo, chances, remainingMines, nonborderCount);
      BorderMinesStep(upTo, chances, remainingMines, nonborderCount);
      normaliser, average := Tally(comb, chances, remainingMines, nonborderCount, normaliser, average);
    }
    assert combs[..|combs|] == combs;
  }

  /** The chance for the cells off the border, from the two sums over the combinations. */
  lemma ChanceFromSums(islandSolutions: seq<seq<seq<int>>>, remainingMines: int, nonborderCount: int, n: real, b: real)
    requires nonborderCount > 0
    requires n == Normaliser(Combinations(Amounts(islandSolutions)), ChanceTables(islandSolutions), remainingMines, nonborderCount)
    requires b == BorderMines(Combinations(Amounts(islandSolutions)), ChanceTables(islandSolutions), remainingMines, nonborderCount)
    ensures NonborderChance(islandSolutions, remainingMines, nonborderCount) ==
              if n == 0.0 then Raised else Done(1.0 - (remainingMines as real - b / n) / nonborderCount as real)
  {
  }

  /** Step 5: over the combinations of mine amounts, those that fit add their weight to the
      normaliser and their weighted amount to the average, which the normaliser then divides;
      dividing by a normaliser of zero raises. */
  method Reservoir(islandSolutions: seq<seq<seq<int>>>, remainingMines: int, nonborderCount: int) returns (o: Outcome<real>)
    requires nonborderCount > 0
    ensures o == NonborderChance(islandSolutions, remainingMines, nonborderCount)
  {
    var amounts := Amounts(islandSolutions);
    var chances := ChanceTables(islandSolutions);
    CombinationsListed(islandSolutions);
    var normaliser, average := SumCombinations(Combinations(amounts), chances, remainingMines, nonborderCount);
    ChanceFromSums(islandSolutions, remainingMines, nonborderCount, normaliser, average);
    if normaliser == 0.0 {
      o := Raised;
    } else {
      average := average / normaliser;
      o := Done(1.0 - (remainingMines as real - average) / nonborderCount as real);
    }
  }
}
