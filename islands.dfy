/** The first two steps of the bot's probability tables: the tables of which number cells touch
    which border cells, and the split of the border cells into islands, groups that share no number
    cell with one another, each one connected piece ordered by distance from its least cell, and
    the islands ordered by size. */
module Islands {
  import opened Grid
  import opened Sorting

  /** The cells of ns that are in keep, in order. */
  function Among(ns: seq<Pos>, keep: set<Pos>): seq<Pos>
    decreases |ns|
  {
    if ns == [] then []
    else Among(ns[..|ns| - 1], keep) + if ns[|ns| - 1] in keep then [ns[|ns| - 1]] else []
  }

  /** Among keeps exactly the cells in keep, and repeats none when ns repeats none. */
  lemma {:induction false} AmongFacts(ns: seq<Pos>, keep: set<Pos>)
    ensures forall q :: q in Among(ns, keep) <==> q in ns && q in keep
    ensures Distinct(ns) ==> Distinct(Among(ns, keep))
    decreases |ns|
  {
    if ns != [] {
      var init, x := ns[..|ns| - 1], ns[|ns| - 1];
      AmongFacts(init, keep);
      assert ns == init + [x];
      if Distinct(ns) {
        assert Distinct(init) && x !in init;
      }
    }
  }

  /** Collects the neighbours of centre that are in keep, in the order the grid lists them. */
  method CollectNeighbours(rows: int, columns: int, centre: Pos, keep: set<Pos>) returns (found: seq<Pos>)
    ensures found == Among(Surrounding(rows, columns, centre), keep)
  {
    var ns := Surrounding(rows, columns, centre);
    found := [];
    for i := 0 to |ns|
      invariant found == Among(ns[..i], keep)
    {
      assert ns[..i + 1][..i] == ns[..i];
      if ns[i] in keep {
        found := found + [ns[i]];
      }
    }
    assert ns[..|ns|] == ns;
  }

  /** The two tables of step 1: for each number cell its border neighbours, and for each border
      cell its number neighbours, each list in the order the grid lists neighbours. */
  method NeighbourTables(rows: int, columns: int, numberCells: seq<Pos>, borderCells: seq<Pos>)
    returns (borderNeighbours: map<Pos, seq<Pos>>, numberNeighbours: map<Pos, seq<Pos>>)
    requires Distinct(numberCells) && Distinct(borderCells)
    ensures borderNeighbours.Keys == Elems(numberCells) && numberNeighbours.Keys == Elems(borderCells)
    ensures forall n :: n in borderNeighbours ==>
              borderNeighbours[n] == Among(Surrounding(rows, columns, n), Elems(borderCells))
    ensures forall b :: b in numberNeighbours ==>
              numberNeighbours[b] == Among(Surrounding(rows, columns, b), Elems(numberCells))
  {
    borderNeighbours := map n | n in Elems(numberCells) :: [];
    numberNeighbours := map b | b in Elems(borderCells) :: [];
    borderNeighbours := FillTable(rows, columns, numberCells, borderNeighbours, numberNeighbours.Keys);
    numberNeighbours := FillTable(rows, columns, borderCells, numberNeighbours, borderNeighbours.Keys);
  }

  /** Appends to each cell's empty list its neighbours among the keys of the other table. */
  method FillTable(rows: int, columns: int, cells: seq<Pos>, table: map<Pos, seq<Pos>>, keep: set<Pos>)
    returns (table': map<Pos, seq<Pos>>)
    requires Distinct(cells) && table.Keys == Elems(cells)
    requires forall p :: p in table ==> table[p] == []
    ensures table'.Keys == table.Keys
    ensures forall p :: p in table' ==> table'[p] == Among(Surrounding(rows, columns, p), keep)
  {
    table' := table;
    for k := 0 to |cells|
      invariant table'.Keys == table.Keys
      invariant forall j :: 0 <= j < k ==> table'[cells[j]] == Among(Surrounding(rows, columns, cells[j]), keep)
      invariant forall j :: k <= j < |cells| ==> table'[cells[j]] == []
    {
      var p := cells[k];
      var found := CollectNeighbours(rows, columns, p, keep);
      table' := table'[p := table'[p] + found];
    }
  }

  /** The tables as step 1 builds them, over cells on the grid: a cell is listed in another's
      entry exactly when that one is listed in its own, each list has no repeats, and every cell
      listed has an entry. */
  lemma TablesAgree(rows: int, columns: int, numberCells: seq<Pos>, borderCells: seq<Pos>,
                    borderNeighbours: map<Pos, seq<Pos>>, numberNeighbours: map<Pos, seq<Pos>>)
    requires forall p :: p in numberCells ==> InBounds(rows, columns, p)
    requires forall p :: p in borderCells ==> InBounds(rows, columns, p)
    requires borderNeighbours.Keys == Elems(numberCells) && numberNeighbours.Keys == Elems(borderCells)
    requires forall n :: n in borderNeighbours ==>
               borderNeighbours[n] == Among(Surrounding(rows, columns, n), Elems(borderCells))
    requires forall b :: b in numberNeighbours ==>
               numberNeighbours[b] == Among(Surrounding(rows, columns, b), Elems(numberCells))
    ensures Tables(borderCells, numberNeighbours, borderNeighbours)
    ensures forall b :: b in numberNeighbours ==> Distinct(numberNeighbours[b])
    ensures forall n :: n in borderNeighbours ==> Distinct(borderNeighbours[n])
  {
    forall b, n | b in numberNeighbours && n in borderNeighbours
      ensures n in numberNeighbours[b] <==> b in borderNeighbours[n]
    {
      AmongFacts(Surrounding(rows, columns, b), Elems(numberCells));
      AmongFacts(Surrounding(rows, columns, n), Elems(borderCells));
      SurroundingSymmetric(rows, columns, b, n);
    }
    forall b | b in numberNeighbours ensures Distinct(numberNeighbours[b]) {
      SurroundingFacts(rows, columns, b);
      AmongFacts(Surrounding(rows, columns, b), Elems(numberCells));
    }
    forall n | n in borderNeighbours ensures Distinct(borderNeighbours[n]) {
      SurroundingFacts(rows, columns, n);
      AmongFacts(Surrounding(rows, columns, n), Elems(borderCells));
    }
    forall b, n | b in numberNeighbours && n in numberNeighbours[b] ensures n in borderNeighbours {
      AmongFacts(Surrounding(rows, columns, b), Elems(numberCells));
    }
    forall n, x | n in borderNeighbours && x in borderNeighbours[n] ensures x in numberNeighbours {
      AmongFacts(Surrounding(rows, columns, n), Elems(borderCells));
    }
  }

  /** The two tables fit the border cells: one entry per border cell, every cell listed has an
      entry, and the listing is symmetric. */
  predicate Tables(borderCells: seq<Pos>, numberNeighbours: map<Pos, seq<Pos>>, borderNeighbours: map<Pos, seq<Pos>>) {
    numberNeighbours.Keys == Elems(borderCells) && Mutual(numberNeighbours, borderNeighbours)
  }

  /** Every cell either table lists has an entry in the other, and the listing is symmetric. */
  predicate Mutual(numberNeighbours: map<Pos, seq<Pos>>, borderNeighbours: map<Pos, seq<Pos>>) {
    && Listed(numberNeighbours, borderNeighbours)
    && (forall b, n :: b in numberNeighbours && n in borderNeighbours ==>
          (n in numberNeighbours[b] <==> b in borderNeighbours[n]))
  }

  /** Every cell either table lists has an entry in the other. */
  predicate Listed(numberNeighbours: map<Pos, seq<Pos>>, borderNeighbours: map<Pos, seq<Pos>>) {
    && (forall b, n :: b in numberNeighbours && n in numberNeighbours[b] ==> n in borderNeighbours)
    && (forall n, x :: n in borderNeighbours && x in borderNeighbours[n] ==> x in numberNeighbours)
  }

  /** An island is closed when every border cell sharing a number cell with a member is a member. */
  predicate Closed(X: seq<Pos>, numberNeighbours: map<Pos, seq<Pos>>, borderNeighbours: map<Pos, seq<Pos>>) {
    forall g, n, x ::
      (g in X && g in numberNeighbours && n in numberNeighbours[g] && n in borderNeighbours &&
       x in borderNeighbours[n]) ==> x in X
  }

  /** Border cell x shares a number cell with border cell p. */
  predicate Shares(p: Pos, x: Pos, numberNeighbours: map<Pos, seq<Pos>>, borderNeighbours: map<Pos, seq<Pos>>) {
    p in numberNeighbours && exists n :: n in numberNeighbours[p] && n in borderNeighbours && x in borderNeighbours[n]
  }

  /** Each cell of g after the first shares a number cell with an earlier one, its parent. */
  predicate ChainLinked(g: seq<Pos>, parent: seq<nat>, numberNeighbours: map<Pos, seq<Pos>>, borderNeighbours: map<Pos, seq<Pos>>) {
    && |parent| == |g|
    && forall j :: 0 < j < |g| ==> parent[j] < j && Shares(g[parent[j]], g[j], numberNeighbours, borderNeighbours)
  }

  /** An island is connected when its cells can be listed so that each after the first shares a
      number cell with an earlier one: it is one piece, not several closed pieces put together. */
  ghost predicate Connected(X: seq<Pos>, numberNeighbours: map<Pos, seq<Pos>>, borderNeighbours: map<Pos, seq<Pos>>) {
    exists g: seq<Pos>, parent: seq<nat> :: Elems(g) == Elems(X) && ChainLinked(g, parent, numberNeighbours, borderNeighbours)
  }

  /** Sharing a number cell goes both ways. */
  lemma SharesSymmetric(p: Pos, x: Pos, numberNeighbours: map<Pos, seq<Pos>>, borderNeighbours: map<Pos, seq<Pos>>)
    requires Mutual(numberNeighbours, borderNeighbours) && Shares(p, x, numberNeighbours, borderNeighbours)
    ensures Shares(x, p, numberNeighbours, borderNeighbours)
  {
    var n :| n in numberNeighbours[p] && n in borderNeighbours && x in borderNeighbours[n];
    assert x in numberNeighbours && n in numberNeighbours[x] && p in borderNeighbours[n];
  }

  /** A closed island holding the first cell of a chain holds all of its first k + 1 cells. */
  lemma {:induction false} ChainInto(X: seq<Pos>, g: seq<Pos>, parent: seq<nat>, k: nat,
                                     numberNeighbours: map<Pos, seq<Pos>>, borderNeighbours: map<Pos, seq<Pos>>)
    requires Closed(X, numberNeighbours, borderNeighbours) && ChainLinked(g, parent, numberNeighbours, borderNeighbours)
    requires k < |g| && g[0] in X
    ensures forall j :: 0 <= j <= k ==> g[j] in X
  {
    if k > 0 {
      ChainInto(X, g, parent, k - 1, numberNeighbours, borderNeighbours);
      var n :| n in numberNeighbours[g[parent[k]]] && n in borderNeighbours && g[k] in borderNeighbours[n];
    }
  }

  /** A closed island holding some cell of a chain holds its first cell, over mutual tables. */
  lemma {:induction false} RootInto(X: seq<Pos>, g: seq<Pos>, parent: seq<nat>, k: nat,
                                    numberNeighbours: map<Pos, seq<Pos>>, borderNeighbours: map<Pos, seq<Pos>>)
    requires Mutual(numberNeighbours, borderNeighbours)
    requires Closed(X, numberNeighbours, borderNeighbours) && ChainLinked(g, parent, numberNeighbours, borderNeighbours)
    requires k < |g| && g[k] in X
    ensures g[0] in X
    decreases k
  {
    if k > 0 {
      SharesSymmetric(g[parent[k]], g[k], numberNeighbours, borderNeighbours);
      var n :| n in numberNeighbours[g[k]] && n in borderNeighbours && g[parent[k]] in borderNeighbours[n];
      RootInto(X, g, parent, parent[k], numberNeighbours, borderNeighbours);
    }
  }

  /** A closed island that meets a connected one holds all of it. */
  lemma ConnectedWithin(X: seq<Pos>, Y: seq<Pos>, numberNeighbours: map<Pos, seq<Pos>>, borderNeighbours: map<Pos, seq<Pos>>)
    requires Mutual(numberNeighbours, borderNeighbours)
    requires Closed(X, numberNeighbours, borderNeighbours) && Connected(Y, numberNeighbours, borderNeighbours)
    requires exists y :: y in X && y in Y
    ensures Elems(Y) <= Elems(X)
  {
    var g, parent :| Elems(g) == Elems(Y) && ChainLinked(g, parent, numberNeighbours, borderNeighbours);
    var y :| y in X && y in Y;
    assert y in Elems(g);
    var k :| 0 <= k < |g| && g[k] == y;
    RootInto(X, g, parent, k, numberNeighbours, borderNeighbours);
    ChainInto(X, g, parent, |g| - 1, numberNeighbours, borderNeighbours);
    forall q | q in Elems(Y) ensures q in Elems(X) {
      assert q in Elems(g);
    }
  }

  /** Closed connected islands are the pieces the number cells link the border cells into: two
      that share a cell have the same cells. */
  lemma SameComponent(X: seq<Pos>, Y: seq<Pos>, numberNeighbours: map<Pos, seq<Pos>>, borderNeighbours: map<Pos, seq<Pos>>)
    requires Mutual(numberNeighbours, borderNeighbours)
    requires Closed(X, numberNeighbours, borderNeighbours) && Connected(X, numberNeighbours, borderNeighbours)
    requires Closed(Y, numberNeighbours, borderNeighbours) && Connected(Y, numberNeighbours, borderNeighbours)
    requires exists y :: y in X && y in Y
    ensures Elems(X) == Elems(Y)
  {
    ConnectedWithin(X, Y, numberNeighbours, borderNeighbours);
    ConnectedWithin(Y, X, numberNeighbours, borderNeighbours);
  }

  /** Two lists of closed connected islands covering the same cells have the same islands: every
      island of one has exactly the cells of an island of the other. */
  lemma IslandsMatch(islands: seq<seq<Pos>>, islands': seq<seq<Pos>>,
                     numberNeighbours: map<Pos, seq<Pos>>, borderNeighbours: map<Pos, seq<Pos>>)
    requires Mutual(numberNeighbours, borderNeighbours)
    requires Cover(islands) == Cover(islands') && forall X :: X in islands ==> |X| > 0
    requires forall X :: X in islands ==> Closed(X, numberNeighbours, borderNeighbours) && Connected(X, numberNeighbours, borderNeighbours)
    requires forall Y :: Y in islands' ==> Closed(Y, numberNeighbours, borderNeighbours) && Connected(Y, numberNeighbours, borderNeighbours)
    ensures forall X :: X in islands ==> exists Y :: Y in islands' && Elems(Y) == Elems(X)
  {
    forall X | X in islands ensures exists Y :: Y in islands' && Elems(Y) == Elems(X) {
      var x := X[0];
      CoverMembers(islands, x);
      CoverMembers(islands', x);
      var Y :| Y in islands' && x in Y;
      SameComponent(X, Y, numberNeighbours, borderNeighbours);
    }
  }

  /** The cells of all the islands. */
  function Cover(islands: seq<seq<Pos>>): set<Pos>
    decreases |islands|
  {
    if islands == [] then {} else Cover(islands[..|islands| - 1]) + Elems(islands[|islands| - 1])
  }

  lemma {:induction false} CoverMembers(islands: seq<seq<Pos>>, x: Pos)
    ensures x in Cover(islands) <==> exists X :: X in islands && x in X
    decreases |islands|
  {
    if islands != [] {
      var init := islands[..|islands| - 1];
      CoverMembers(init, x);
      assert islands == init + [islands[|islands| - 1]];
      if x in Cover(islands) && x !in Cover(init) {
        assert islands[|islands| - 1] in islands;
      }
      if exists X :: X in islands && x in X {
        var X :| X in islands && x in X;
        if X != islands[|islands| - 1] {
          assert X in init;
        }
      }
    }
  }

  /** The islands are non-empty, repeat no cell, no island appears twice and no two share a cell. */
  predicate Separate(islands: seq<seq<Pos>>) {
    && (forall X :: X in islands ==> |X| > 0 && Distinct(X))
    && Distinct(islands)
    && (forall X, Y :: X in islands && Y in islands && X != Y ==> Elems(X) !! Elems(Y))
  }

  /** The distance the bot orders an island's cells by. */
  function ManhattanDistance(p: Pos, q: Pos): nat {
    (if p.0 < q.0 then q.0 - p.0 else p.0 - q.0) + (if p.1 < q.1 then q.1 - p.1 else p.1 - q.1)
  }

  /** The distance is a metric: symmetric, zero exactly on equal cells, and it obeys the triangle
      inequality; neighbouring cells are one or two apart. */
  lemma ManhattanMetric(p: Pos, q: Pos, r: Pos)
    ensures ManhattanDistance(p, q) == ManhattanDistance(q, p)
    ensures ManhattanDistance(p, q) == 0 <==> p == q
    ensures ManhattanDistance(p, r) <= ManhattanDistance(p, q) + ManhattanDistance(q, r)
    ensures Adjacent(p, q) ==> 1 <= ManhattanDistance(p, q) <= 2
  {
  }

  /** Tuple order, as the bot's min compares cells: by row, then by column. */
  predicate LexLeq(p: Pos, q: Pos) {
    p.0 < q.0 || (p.0 == q.0 && p.1 <= q.1)
  }

  /** The least cell of a non-empty list in tuple order. */
  function Least(s: seq<Pos>): (m: Pos)
    requires |s| > 0
    ensures m in s && forall q :: q in s ==> LexLeq(m, q)
    decreases |s|
  {
    if |s| == 1 then s[0]
    else
      var m := Least(s[1..]);
      assert forall q :: q in s ==> q == s[0] || q in s[1..];
      if LexLeq(s[0], m) then s[0] else m
  }

  /** Two lists with the same cells have the same least cell. */
  lemma LeastSame(s: seq<Pos>, t: seq<Pos>)
    requires |s| > 0 && |t| > 0 && forall q :: q in s <==> q in t
    ensures Least(s) == Least(t)
  {
  }

  /** The key an island is sorted by: distance from its least cell. */
  function DistanceFrom(base: Pos): Pos -> int {
    q => ManhattanDistance(q, base)
  }

  /** The key the islands are sorted by: their size. */
  function Size(X: seq<Pos>): int {
    |X|
  }

  /** group and cellList with their sets: each set holds its list's cells, neither list repeats a
      cell and the two share none. */
  predicate Pooled(group: seq<Pos>, groupSet: set<Pos>, cellList: seq<Pos>, cellSet: set<Pos>) {
    && groupSet == Elems(group) && cellSet == Elems(cellList)
    && Distinct(group) && Distinct(cellList) && Elems(group) !! Elems(cellList)
  }

  /** list.remove: the list without the first occurrence of x. */
  function Without(s: seq<Pos>, x: Pos): (r: seq<Pos>)
    requires x in s
    ensures |r| == |s| - 1
  {
    if s[0] == x then s[1..] else [s[0]] + Without(s[1..], x)
  }

  /** Removing x from a list without repeats leaves its other cells, still without repeats. */
  lemma {:induction false} WithoutFacts(s: seq<Pos>, x: Pos)
    requires x in s && Distinct(s)
    ensures Distinct(Without(s, x)) && Elems(Without(s, x)) == Elems(s) - {x}
    decreases |s|
  {
    assert Distinct(s[1..]);
    assert s == [s[0]] + s[1..];
    if s[0] != x {
      var r := Without(s[1..], x);
      WithoutFacts(s[1..], x);
      assert s[0] !in s[1..];
      assert s[0] !in Elems(r);
      assert Without(s, x) == [s[0]] + r;
      assert Elems(s) == {s[0]} + Elems(s[1..]);
      assert Elems([s[0]] + r) == {s[0]} + Elems(r);
      forall i, j | 0 <= i < j < |[s[0]] + r| ensures ([s[0]] + r)[i] != ([s[0]] + r)[j] {
        if i > 0 {
          assert ([s[0]] + r)[i] == r[i - 1];
        }
      }
    } else {
      assert x !in s[1..];
    }
  }

  /** Takes into the group every cell of ns still in the pool of unassigned border cells. */
  method AddLinked(ns: seq<Pos>, group: seq<Pos>, groupSet: set<Pos>, cellList: seq<Pos>, cellSet: set<Pos>)
    returns (group': seq<Pos>, groupSet': set<Pos>, cellList': seq<Pos>, cellSet': set<Pos>)
    requires Pooled(group, groupSet, cellList, cellSet)
    ensures Pooled(group', groupSet', cellList', cellSet')
    ensures Elems(group') + Elems(cellList') == Elems(group) + Elems(cellList)
    ensures |group| <= |group'| && group'[..|group|] == group && |group'| + |cellList'| == |group| + |cellList|
    ensures forall x :: x in ns ==> x in group' || x !in Elems(group) + Elems(cellList)
    ensures forall j :: |group| <= j < |group'| ==> group'[j] in ns
  {
    group', groupSet', cellList', cellSet' := group, groupSet, cellList, cellSet;
    for l := 0 to |ns|
      invariant Pooled(group', groupSet', cellList', cellSet')
      invariant Elems(group') + Elems(cellList') == Elems(group) + Elems(cellList)
      invariant |group| <= |group'| && group'[..|group|] == group && |group'| + |cellList'| == |group| + |cellList|
      invariant forall x :: x in ns[..l] ==> x in group' || x !in Elems(group) + Elems(cellList)
      invariant forall j :: |group| <= j < |group'| ==> group'[j] in ns[..l]
    {
      var x := ns[l];
      if x in cellSet' && x !in groupSet' {
        WithoutFacts(cellList', x);
        group' := group' + [x];
        groupSet' := groupSet' + {x};
        cellList' := Without(cellList', x);
        cellSet' := cellSet' - {x};
      }
      assert ns[..l + 1] == ns[..l] + [x];
    }
    assert ns[..|ns|] == ns;
  }

  /** Takes into the group every pooled border cell that shares a number cell with g. */
  method AddLinks(g: Pos, numberNeighbours: map<Pos, seq<Pos>>, borderNeighbours: map<Pos, seq<Pos>>,
                  group: seq<Pos>, groupSet: set<Pos>, cellList: seq<Pos>, cellSet: set<Pos>)
    returns (group': seq<Pos>, groupSet': set<Pos>, cellList': seq<Pos>, cellSet': set<Pos>)
    requires g in numberNeighbours && forall n :: n in numberNeighbours[g] ==> n in borderNeighbours
    requires Pooled(group, groupSet, cellList, cellSet)
    ensures Pooled(group', groupSet', cellList', cellSet')
    ensures Elems(group') + Elems(cellList') == Elems(group) + Elems(cellList)
    ensures |group| <= |group'| && group'[..|group|] == group && |group'| + |cellList'| == |group| + |cellList|
    ensures forall n, x :: n in numberNeighbours[g] && x in borderNeighbours[n] ==>
              x in group' || x !in Elems(group) + Elems(cellList)
    ensures forall j :: |group| <= j < |group'| ==> Shares(g, group'[j], numberNeighbours, borderNeighbours)
  {
    var ns := numberNeighbours[g];
    group', groupSet', cellList', cellSet' := group, groupSet, cellList, cellSet;
    for k := 0 to |ns|
      invariant Pooled(group', groupSet', cellList', cellSet')
      invariant Elems(group') + Elems(cellList') == Elems(group) + Elems(cellList)
      invariant |group| <= |group'| && group'[..|group|] == group && |group'| + |cellList'| == |group| + |cellList|
      invariant forall n, x :: n in ns[..k] && x in borderNeighbours[n] ==>
                  x in group' || x !in Elems(group) + Elems(cellList)
      invariant forall j :: |group| <= j < |group'| ==> Shares(g, group'[j], numberNeighbours, borderNeighbours)
    {
      ghost var before := group';
      group', groupSet', cellList', cellSet' := AddLinked(borderNeighbours[ns[k]], group', groupSet', cellList', cellSet');
      assert forall x :: x in before ==> x in group' by {
        forall x | x in before ensures x in group' {
          var j :| 0 <= j < |before| && before[j] == x;
          assert group'[j] == x;
        }
      }
      forall j | |group| <= j < |group'| ensures Shares(g, group'[j], numberNeighbours, borderNeighbours) {
        if j < |before| {
          assert group'[j] == group'[..|before|][j] == before[j];
        } else {
          assert ns[k] in numberNeighbours[g] && group'[j] in borderNeighbours[ns[k]];
        }
      }
      assert ns[..k + 1] == ns[..k] + [ns[k]];
    }
    assert ns[..|ns|] == ns;
  }

  /** Every pooled cell linked to one of the first i members of the group is in the group. */
  predicate GrownTo(group: seq<Pos>, i: nat, pool: set<Pos>,
                    numberNeighbours: map<Pos, seq<Pos>>, borderNeighbours: map<Pos, seq<Pos>>)
    requires i <= |group|
  {
    forall j, n, x ::
      (0 <= j < i && group[j] in numberNeighbours && n in numberNeighbours[group[j]] &&
       n in borderNeighbours && x in borderNeighbours[n]) ==> x in group || x !in pool
  }

  /** Every pooled cell that shares a number cell with a member of the group is in the group. */
  predicate Linked(group: seq<Pos>, pool: set<Pos>,
                   numberNeighbours: map<Pos, seq<Pos>>, borderNeighbours: map<Pos, seq<Pos>>)
  {
    forall g, n, x ::
      (g in group && g in numberNeighbours && n in numberNeighbours[g] &&
       n in borderNeighbours && x in borderNeighbours[n]) ==> x in group || x !in pool
  }

  /** Grows an island from border cell b, already taken from the pool: works through the island
      as it grows, taking in every pooled border cell that shares a number cell with a member. */
  method Grow(b: Pos, numberNeighbours: map<Pos, seq<Pos>>, borderNeighbours: map<Pos, seq<Pos>>,
              cellList: seq<Pos>, cellSet: set<Pos>)
    returns (group: seq<Pos>, cellList': seq<Pos>, cellSet': set<Pos>)
    requires Listed(numberNeighbours, borderNeighbours)
    requires b in numberNeighbours && forall x :: x in cellList ==> x in numberNeighbours
    requires Distinct(cellList) && cellSet == Elems(cellList) && b !in cellSet
    ensures |group| > 0 && group[0] == b && Distinct(group)
    ensures Distinct(cellList') && cellSet' == Elems(cellList')
    ensures Elems(group) + Elems(cellList') == {b} + Elems(cellList) && Elems(group) !! Elems(cellList')
    ensures Linked(group, {b} + Elems(cellList), numberNeighbours, borderNeighbours)
    ensures Connected(group, numberNeighbours, borderNeighbours)
  {
    ghost var pool := {b} + Elems(cellList);
    group := [b];
    var groupSet := {b};
    cellList', cellSet' := cellList, cellSet;
    ghost var parent: seq<nat> := [0];
    var i := 0;
    while i < |group|
      invariant 0 <= i <= |group| && |group| > 0 && group[0] == b
      invariant Pooled(group, groupSet, cellList', cellSet') && Elems(group) + Elems(cellList') == pool
      invariant GrownTo(group, i, pool, numberNeighbours, borderNeighbours)
      invariant ChainLinked(group, parent, numberNeighbours, borderNeighbours)
      decreases |cellList'| + |group| - i
    {
      ghost var before := group;
      assert group[i] in pool;
      group, groupSet, cellList', cellSet' :=
        AddLinks(group[i], numberNeighbours, borderNeighbours, group, groupSet, cellList', cellSet');
      GrownMore(before, group, i, pool, numberNeighbours, borderNeighbours);
      ChainGrows(before, group, parent, i, numberNeighbours, borderNeighbours);
      parent := parent + seq(|group| - |before|, _ => i);
      i := i + 1;
    }
    assert Elems(group) == Elems(group) && ChainLinked(group, parent, numberNeighbours, borderNeighbours);
    forall g, n, x | g in group && g in numberNeighbours && n in numberNeighbours[g] &&
                     n in borderNeighbours && x in borderNeighbours[n]
      ensures x in group || x !in pool
    {
      var j :| 0 <= j < |group| && group[j] == g;
    }
  }

  /** Cells appended to a chain, each sharing a number cell with its member i, keep it a chain. */
  lemma ChainGrows(before: seq<Pos>, group: seq<Pos>, parent: seq<nat>, i: nat,
                   numberNeighbours: map<Pos, seq<Pos>>, borderNeighbours: map<Pos, seq<Pos>>)
    requires ChainLinked(before, parent, numberNeighbours, borderNeighbours)
    requires i < |before| <= |group| && group[..|before|] == before
    requires forall j :: |before| <= j < |group| ==> Shares(before[i], group[j], numberNeighbours, borderNeighbours)
    ensures ChainLinked(group, parent + seq(|group| - |before|, _ => i), numberNeighbours, borderNeighbours)
  {
    var parent' := parent + seq(|group| - |before|, _ => i);
    forall j | 0 <= j < |before| ensures group[j] == before[j] {
      assert group[..|before|][j] == group[j];
    }
    forall j | 0 < j < |group|
      ensures parent'[j] < j && Shares(group[parent'[j]], group[j], numberNeighbours, borderNeighbours)
    {
      if j < |before| {
        assert parent'[j] == parent[j];
      } else {
        assert parent'[j] == i;
      }
    }
  }

  /** Growing the group keeps what was shown of its first i members and adds member i. */
  lemma GrownMore(before: seq<Pos>, group: seq<Pos>, i: nat, pool: set<Pos>,
                  numberNeighbours: map<Pos, seq<Pos>>, borderNeighbours: map<Pos, seq<Pos>>)
    requires i < |before| <= |group| && group[..|before|] == before
    requires GrownTo(before, i, pool, numberNeighbours, borderNeighbours)
    requires before[i] in numberNeighbours
    requires forall n, x :: n in numberNeighbours[before[i]] && n in borderNeighbours && x in borderNeighbours[n] ==>
               x in group || x !in pool
    ensures GrownTo(group, i + 1, pool, numberNeighbours, borderNeighbours)
  {
    forall x | x in before ensures x in group {
      var j :| 0 <= j < |before| && before[j] == x;
      assert group[j] == x;
    }
    forall j | 0 <= j <= i ensures group[j] == before[j] {
      assert group[..|before|][j] == group[j];
    }
  }

  /** Takes the last unassigned border cell, grows its island from the rest of the pool and orders
      the island by distance from its least cell. */
  method TakeIsland(numberNeighbours: map<Pos, seq<Pos>>, borderNeighbours: map<Pos, seq<Pos>>,
                    cellList: seq<Pos>, cellSet: set<Pos>)
    returns (island: seq<Pos>, cellList': seq<Pos>, cellSet': set<Pos>)
    requires Listed(numberNeighbours, borderNeighbours)
    requires cellList != [] && forall x :: x in cellList ==> x in numberNeighbours
    requires Distinct(cellList) && cellSet == Elems(cellList)
    ensures |island| > 0 && Distinct(island) && Ordered(island, DistanceFrom(Least(island)))
    ensures Distinct(cellList') && cellSet' == Elems(cellList') && |cellList'| < |cellList|
    ensures Elems(island) + Elems(cellList') == Elems(cellList) && Elems(island) !! Elems(cellList')
    ensures Linked(island, Elems(cellList), numberNeighbours, borderNeighbours)
    ensures cellList[|cellList| - 1] in island && Connected(island, numberNeighbours, borderNeighbours)
  {
    var b := cellList[|cellList| - 1];
    var rest := cellList[..|cellList| - 1];
    assert cellList == rest + [b];
    assert Elems(rest) + {b} == Elems(cellList) && b !in rest;
    var group;
    group, cellList', cellSet' := Grow(b, numberNeighbours, borderNeighbours, rest, cellSet - {b});
    var base := Least(group);
    island := SortedBy(group, DistanceFrom(base));
    IslandOrdered(group, island, Elems(cellList), numberNeighbours, borderNeighbours);
    Shrinks(cellList, cellList', b);
  }

  /** The pool loses at least the cell the island was grown from. */
  lemma Shrinks(cellList: seq<Pos>, cellList': seq<Pos>, b: Pos)
    requires Distinct(cellList) && Distinct(cellList') && b in cellList
    requires Elems(cellList') <= Elems(cellList) - {b}
    ensures |cellList'| < |cellList|
  {
    DistinctCard(cellList);
    DistinctCard(cellList');
    CardRemove(Elems(cellList), b);
    var rest := Elems(cellList) - {b};
    assert rest == Elems(cellList') + (rest - Elems(cellList'));
  }

  /** Ordering a grown island by distance from its least cell keeps its cells and its links. */
  lemma IslandOrdered(group: seq<Pos>, island: seq<Pos>, pool: set<Pos>,
                      numberNeighbours: map<Pos, seq<Pos>>, borderNeighbours: map<Pos, seq<Pos>>)
    requires |group| > 0 && Distinct(group) && island == SortedBy(group, DistanceFrom(Least(group)))
    requires Linked(group, pool, numberNeighbours, borderNeighbours) && Connected(group, numberNeighbours, borderNeighbours)
    ensures |island| > 0 && Distinct(island) && Elems(island) == Elems(group)
    ensures Ordered(island, DistanceFrom(Least(island)))
    ensures Linked(island, pool, numberNeighbours, borderNeighbours) && Connected(island, numberNeighbours, borderNeighbours)
  {
    SortedByMembers(group, DistanceFrom(Least(group)));
    SortedByFacts(group, DistanceFrom(Least(group)));
    LeastSame(group, island);
    var g, parent :| Elems(g) == Elems(group) && ChainLinked(g, parent, numberNeighbours, borderNeighbours);
    assert Elems(g) == Elems(island);
  }

  /** The islands built so far fit the pool that is left: together they hold the border cells,
      apart. */
  ghost predicate Built(borderCells: seq<Pos>, cellList: seq<Pos>, found: seq<seq<Pos>>,
                        numberNeighbours: map<Pos, seq<Pos>>, borderNeighbours: map<Pos, seq<Pos>>) {
    && Elems(cellList) + Cover(found) == Elems(borderCells) && Elems(cellList) !! Cover(found)
    && Separate(found)
    && (forall X :: X in found ==> Closed(X, numberNeighbours, borderNeighbours))
    && (forall X :: X in found ==> Connected(X, numberNeighbours, borderNeighbours))
    && (forall X :: X in found ==> Ordered(X, DistanceFrom(Least(X))))
  }

  /** Step 2: splits the border cells into islands. Repeatedly takes the last unassigned border
      cell, grows its island, orders the island by distance from its least cell, and finally
      orders the islands by size. */
  method BuildIslands(borderCells: seq<Pos>, numberNeighbours: map<Pos, seq<Pos>>, borderNeighbours: map<Pos, seq<Pos>>)
    returns (islands: seq<seq<Pos>>)
    requires Distinct(borderCells) && Tables(borderCells, numberNeighbours, borderNeighbours)
    ensures Cover(islands) == Elems(borderCells)
    ensures Separate(islands)
    ensures forall X :: X in islands ==> Closed(X, numberNeighbours, borderNeighbours)
    ensures forall X :: X in islands ==> Connected(X, numberNeighbours, borderNeighbours)
    ensures forall X :: X in islands ==> Ordered(X, DistanceFrom(Least(X)))
    ensures Ordered(islands, Size)
  {
    var cellList := borderCells;
    var cellSet := Elems(borderCells);
    var found: seq<seq<Pos>> := [];
    while cellList != []
      invariant Distinct(cellList) && cellSet == Elems(cellList)
      invariant Built(borderCells, cellList, found, numberNeighbours, borderNeighbours)
      decreases |cellList|
    {
      ghost var pool := Elems(cellList);
      var island;
      island, cellList, cellSet := TakeIsland(numberNeighbours, borderNeighbours, cellList, cellSet);
      IslandAdded(borderCells, pool, cellList, found, island, numberNeighbours, borderNeighbours);
      found := found + [island];
    }
    islands := SortedBy(found, Size);
    IslandsSorted(found, islands, numberNeighbours, borderNeighbours);
  }

  /** Ordering the islands by size keeps them the same islands. */
  lemma IslandsSorted(found: seq<seq<Pos>>, islands: seq<seq<Pos>>,
                      numberNeighbours: map<Pos, seq<Pos>>, borderNeighbours: map<Pos, seq<Pos>>)
    requires islands == SortedBy(found, Size) && Separate(found)
    requires forall X :: X in found ==> Closed(X, numberNeighbours, borderNeighbours)
    requires forall X :: X in found ==> Connected(X, numberNeighbours, borderNeighbours)
    requires forall X :: X in found ==> Ordered(X, DistanceFrom(Least(X)))
    ensures Cover(islands) == Cover(found) && Separate(islands) && Ordered(islands, Size)
    ensures forall X :: X in islands ==> Closed(X, numberNeighbours, borderNeighbours)
    ensures forall X :: X in islands ==> Connected(X, numberNeighbours, borderNeighbours)
    ensures forall X :: X in islands ==> Ordered(X, DistanceFrom(Least(X)))
  {
    SortedByFacts(found, Size);
    SortedByMembers(found, Size);
    CoverSame(found, islands);
  }

  /** Two island lists with the same members cover the same cells. */
  lemma CoverSame(s: seq<seq<Pos>>, t: seq<seq<Pos>>)
    requires forall X :: X in s <==> X in t
    ensures Cover(s) == Cover(t)
  {
    forall x ensures x in Cover(s) <==> x in Cover(t) {
      CoverMembers(s, x);
      CoverMembers(t, x);
    }
  }

  /** A new island whose cells are disjoint from the earlier ones keeps the list apart. */
  lemma SeparateAppend(found: seq<seq<Pos>>, island: seq<Pos>)
    requires Separate(found) && |island| > 0 && Distinct(island) && Elems(island) !! Cover(found)
    ensures Separate(found + [island])
  {
    var found' := found + [island];
    forall X | X in found ensures Elems(X) !! Elems(island) {
      forall x | x in X ensures x !in island {
        CoverMembers(found, x);
      }
    }
    assert island[0] !in Cover(found) by {
      assert island[0] in Elems(island);
    }
    CoverMembers(found, island[0]);
    assert Distinct(found') by {
      forall i, j | 0 <= i < j < |found'| ensures found'[i] != found'[j] {
        if j == |found'| - 1 {
          assert found'[i] in found;
        } else {
          assert found'[i] == found[i] && found'[j] == found[j];
        }
      }
    }
  }

  /** A grown island, ordered, keeps the islands built so far apart, closed and covering. */
  lemma IslandAdded(borderCells: seq<Pos>, pool: set<Pos>, cellList: seq<Pos>, found: seq<seq<Pos>>,
                    island: seq<Pos>, numberNeighbours: map<Pos, seq<Pos>>, borderNeighbours: map<Pos, seq<Pos>>)
    requires Tables(borderCells, numberNeighbours, borderNeighbours)
    requires pool + Cover(found) == Elems(borderCells) && pool !! Cover(found)
    requires Separate(found) && forall X :: X in found ==> Closed(X, numberNeighbours, borderNeighbours)
    requires forall X :: X in found ==> Ordered(X, DistanceFrom(Least(X)))
    requires |island| > 0 && Distinct(island) && Ordered(island, DistanceFrom(Least(island)))
    requires Elems(island) + Elems(cellList) == pool && Elems(island) !! Elems(cellList)
    requires Linked(island, pool, numberNeighbours, borderNeighbours)
    requires forall X :: X in found ==> Connected(X, numberNeighbours, borderNeighbours)
    requires Connected(island, numberNeighbours, borderNeighbours)
    ensures Built(borderCells, cellList, found + [island], numberNeighbours, borderNeighbours)
  {
    var found' := found + [island];
    assert found'[..|found'| - 1] == found;
    assert Cover(found') == Cover(found) + Elems(island);
    GroupClosed(borderCells, pool, found, island, numberNeighbours, borderNeighbours);
    SeparateAppend(found, island);
  }

  /** A grown island is closed: a cell linked to a member but outside the pool would lie in an
      earlier island, which is closed, so the member would lie there too. */
  lemma GroupClosed(borderCells: seq<Pos>, pool: set<Pos>, found: seq<seq<Pos>>, group: seq<Pos>,
                    numberNeighbours: map<Pos, seq<Pos>>, borderNeighbours: map<Pos, seq<Pos>>)
    requires Tables(borderCells, numberNeighbours, borderNeighbours)
    requires pool + Cover(found) == Elems(borderCells) && pool !! Cover(found)
    requires forall X :: X in found ==> Closed(X, numberNeighbours, borderNeighbours)
    requires Elems(group) <= pool
    requires Linked(group, pool, numberNeighbours, borderNeighbours)
    ensures Closed(group, numberNeighbours, borderNeighbours)
  {
    forall g, n, x | g in group && g in numberNeighbours && n in numberNeighbours[g] && n in borderNeighbours &&
                     x in borderNeighbours[n]
      ensures x in group
    {
      if x !in pool {
        assert x in Elems(borderCells);
        CoverMembers(found, x);
        var X :| X in found && x in X;
        assert n in numberNeighbours[x] && g in borderNeighbours[n];
        assert g in X;
        CoverMembers(found, g);
        assert false;
      }
    }
  }
}
