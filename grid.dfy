/** Vocabulary of the Minesweeper grid shared by the board and the bot:
    the game outcome, positions, the eight-cell neighbourhood in the order the board lists it,
    counting helpers and the cardinality facts the board invariants rely on. */
module Grid {

  /** The state of play: won, still going, or lost. */
  datatype GameOutcome = Win | Inconclusive | Loss

  /** A cell coordinate: (row, column). */
  type Pos = (int, int)

  predicate InBounds(rows: int, columns: int, p: Pos) {
    0 <= p.0 < rows && 0 <= p.1 < columns
  }

  /** p and q are different cells that touch horizontally, vertically or diagonally. */
  predicate Adjacent(p: Pos, q: Pos) {
    p != q && -1 <= p.0 - q.0 <= 1 && -1 <= p.1 - q.1 <= 1
  }

  predicate Distinct<T(==)>(s: seq<T>) {
    forall i, j :: 0 <= i < j < |s| ==> s[i] != s[j]
  }

  function Elems<T(==)>(s: seq<T>): set<T> {
    set x | x in s
  }

  /** The 3x3 block around p, row by row and column by column, centre included. */
  function Block(p: Pos): seq<Pos> {
    [(p.0 - 1, p.1 - 1), (p.0 - 1, p.1), (p.0 - 1, p.1 + 1),
     (p.0, p.1 - 1), p, (p.0, p.1 + 1),
     (p.0 + 1, p.1 - 1), (p.0 + 1, p.1), (p.0 + 1, p.1 + 1)]
  }

  /** The candidates that lie on the grid and are not the centre, in their original order. */
  function KeepNeighbours(rows: int, columns: int, centre: Pos, cands: seq<Pos>): seq<Pos> {
    if cands == [] then []
    else
      var rest := KeepNeighbours(rows, columns, centre, cands[1..]);
      if InBounds(rows, columns, cands[0]) && cands[0] != centre then [cands[0]] + rest else rest
  }

  lemma {:induction false} KeepNeighboursFacts(rows: int, columns: int, centre: Pos, cands: seq<Pos>)
    ensures var r := KeepNeighbours(rows, columns, centre, cands);
            && (forall q :: q in r <==> q in cands && InBounds(rows, columns, q) && q != centre)
            && (Distinct(cands) ==> Distinct(r))
            && |r| <= |cands| && (centre in cands ==> |r| < |cands|)
  {
    if cands != [] {
      KeepNeighboursFacts(rows, columns, centre, cands[1..]);
    }
  }

  /** Filtering a concatenation filters each part. */
  lemma {:induction false} KeepNeighboursAppend(rows: int, columns: int, centre: Pos, a: seq<Pos>, b: seq<Pos>)
    ensures KeepNeighbours(rows, columns, centre, a + b)
            == KeepNeighbours(rows, columns, centre, a) + KeepNeighbours(rows, columns, centre, b)
  {
    if a == [] {
      assert a + b == b;
    } else {
      assert (a + b)[1..] == a[1..] + b;
      KeepNeighboursAppend(rows, columns, centre, a[1..], b);
    }
  }

  /** A row of three candidates is filtered entry by entry. */
  lemma KeepThree(rows: int, columns: int, centre: Pos, x: Pos, y: Pos, z: Pos)
    ensures KeepNeighbours(rows, columns, centre, [x, y, z])
            == (if InBounds(rows, columns, x) && x != centre then [x] else [])
             + (if InBounds(rows, columns, y) && y != centre then [y] else [])
             + (if InBounds(rows, columns, z) && z != centre then [z] else [])
  {
    assert [x, y, z][1..] == [y, z];
    assert [y, z][1..] == [z];
    assert [z][1..] == [];
    assert KeepNeighbours(rows, columns, centre, [z])
        == if InBounds(rows, columns, z) && z != centre then [z] else [];
    assert KeepNeighbours(rows, columns, centre, [y, z])
        == (if InBounds(rows, columns, y) && y != centre then [y] else [])
         + KeepNeighbours(rows, columns, centre, [z]);
  }

  /** The neighbourhood is filtered one row of the block at a time. */
  lemma SurroundingByRows(rows: int, columns: int, p: Pos)
    ensures Surrounding(rows, columns, p)
            == KeepNeighbours(rows, columns, p, [(p.0 - 1, p.1 - 1), (p.0 - 1, p.1), (p.0 - 1, p.1 + 1)])
             + KeepNeighbours(rows, columns, p, [(p.0, p.1 - 1), p, (p.0, p.1 + 1)])
             + KeepNeighbours(rows, columns, p, [(p.0 + 1, p.1 - 1), (p.0 + 1, p.1), (p.0 + 1, p.1 + 1)])
  {
    var above := [(p.0 - 1, p.1 - 1), (p.0 - 1, p.1), (p.0 - 1, p.1 + 1)];
    var middle := [(p.0, p.1 - 1), p, (p.0, p.1 + 1)];
    var below := [(p.0 + 1, p.1 - 1), (p.0 + 1, p.1), (p.0 + 1, p.1 + 1)];
    assert Block(p) == above + middle + below;
    KeepNeighboursAppend(rows, columns, p, above + middle, below);
    KeepNeighboursAppend(rows, columns, p, above, middle);
  }

  lemma BlockMembers(p: Pos, q: Pos)
    ensures q in Block(p) <==> -1 <= q.0 - p.0 <= 1 && -1 <= q.1 - p.1 <= 1
  {
    var dr, dc := q.0 - p.0, q.1 - p.1;
    if -1 <= dr <= 1 && -1 <= dc <= 1 {
      var b := Block(p);
      if dr == -1 {
        if dc == -1 { assert q == b[0]; } else if dc == 0 { assert q == b[1]; } else { assert q == b[2]; }
      } else if dr == 0 {
        if dc == -1 { assert q == b[3]; } else if dc == 0 { assert q == b[4]; } else { assert q == b[5]; }
      } else {
        if dc == -1 { assert q == b[6]; } else if dc == 0 { assert q == b[7]; } else { assert q == b[8]; }
      }
    }
  }

  /** The board's neighbourhood query: the in-bounds cells around p, centre excluded, row-major. */
  function Surrounding(rows: int, columns: int, p: Pos): seq<Pos> {
    KeepNeighbours(rows, columns, p, Block(p))
  }

  lemma BlockDistinct(p: Pos)
    ensures Distinct(Block(p)) && p in Block(p)
  {
  }

  /** The neighbourhood holds exactly the in-bounds cells adjacent to p, each once, never p, at most 8. */
  lemma SurroundingFacts(rows: int, columns: int, p: Pos)
    ensures var ns := Surrounding(rows, columns, p);
            && (forall q :: q in ns <==> InBounds(rows, columns, q) && Adjacent(p, q))
            && Distinct(ns) && p !in ns && |ns| <= 8
  {
    var b := Block(p);
    BlockDistinct(p);
    KeepNeighboursFacts(rows, columns, p, b);
    var ns := KeepNeighbours(rows, columns, p, b);
    forall q: Pos ensures q in ns <==> InBounds(rows, columns, q) && Adjacent(p, q) {
      BlockMembers(p, q);
    }
  }

  /** Being neighbours is symmetric on the grid. */
  lemma SurroundingSymmetric(rows: int, columns: int, p: Pos, q: Pos)
    requires InBounds(rows, columns, p)
    ensures q in Surrounding(rows, columns, p) <==> InBounds(rows, columns, q) && p in Surrounding(rows, columns, q)
  {
    SurroundingFacts(rows, columns, p);
    SurroundingFacts(rows, columns, q);
  }

  /** How many entries of ns belong to S. */
  function CountIn(ns: seq<Pos>, S: set<Pos>): nat {
    if ns == [] then 0
    else CountIn(ns[..|ns| - 1], S) + if ns[|ns| - 1] in S then 1 else 0
  }

  /** Counting one more position adds one exactly when it is in the set. */
  lemma CountInStep(ns: seq<Pos>, k: int, S: set<Pos>)
    requires 0 <= k < |ns|
    ensures CountIn(ns[..k + 1], S) == CountIn(ns[..k], S) + if ns[k] in S then 1 else 0
  {
    assert ns[..k + 1][..k] == ns[..k];
  }

  lemma {:induction false} CountInFacts(ns: seq<Pos>, S: set<Pos>)
    ensures CountIn(ns, S) <= |ns|
    ensures CountIn(ns, S) > 0 <==> exists i :: 0 <= i < |ns| && ns[i] in S
  {
    if ns != [] {
      var t := ns[..|ns| - 1];
      CountInFacts(t, S);
      assert forall i :: 0 <= i < |t| ==> t[i] == ns[i];
    }
  }

  /** The given mine cells that lie on the grid next to p. */
  function MinesNear(rows: int, columns: int, mines: set<Pos>, p: Pos): set<Pos> {
    set q | q in mines && InBounds(rows, columns, q) && Adjacent(p, q)
  }

  /** How many of the given mine cells lie on the grid next to p. */
  function MinesAround(rows: int, columns: int, mines: set<Pos>, p: Pos): nat {
    |MinesNear(rows, columns, mines, p)|
  }

  /** With a single mine m, the count around p is one exactly when m is on the grid next to p. */
  lemma MinesAroundOne(rows: int, columns: int, m: Pos, p: Pos)
    ensures MinesAround(rows, columns, {m}, p) == if InBounds(rows, columns, m) && Adjacent(p, m) then 1 else 0
  {
    var near := MinesNear(rows, columns, {m}, p);
    if InBounds(rows, columns, m) && Adjacent(p, m) {
      assert near == {m};
    } else {
      assert near == {};
    }
  }

  /** Over a list without repeats, the count of entries in S is the size of its overlap with S. */
  lemma {:induction false} CountInOverlap(ns: seq<Pos>, S: set<Pos>)
    requires Distinct(ns)
    ensures CountIn(ns, S) == |Elems(ns) * S|
  {
    if ns != [] {
      var t, last := ns[..|ns| - 1], ns[|ns| - 1];
      assert Distinct(t);
      CountInOverlap(t, S);
      assert forall x :: x in Elems(ns) <==> x in Elems(t) || x == last;
      assert last !in Elems(t);
      if last in S {
        assert Elems(ns) * S == (Elems(t) * S) + {last};
      } else {
        assert Elems(ns) * S == Elems(t) * S;
      }
    }
  }

  /** The cells of row r in columns 0 .. columns-1. */
  function RowCells(r: int, columns: int): (s: set<Pos>)
    ensures forall p :: p in s <==> p.0 == r && 0 <= p.1 < columns
    ensures columns >= 0 ==> |s| == columns
    decreases columns
  {
    if columns <= 0 then {} else RowCells(r, columns - 1) + {(r, columns - 1)}
  }

  /** Every cell of a rows x columns grid. */
  function AllCells(rows: int, columns: int): (s: set<Pos>)
    ensures forall p :: p in s <==> InBounds(rows, columns, p)
    ensures rows >= 0 && columns >= 0 ==> |s| == rows * columns
    decreases rows
  {
    if rows <= 0 then {}
    else
      var above := AllCells(rows - 1, columns);
      var last := RowCells(rows - 1, columns);
      assert above * last == {} by {
        forall p | p in above ensures p !in last { }
      }
      MulStep(rows, columns);
      above + last
  }

  lemma MulStep(rows: int, columns: int)
    ensures (rows - 1) * columns + columns == rows * columns
  {
  }

  /** A sequence has no repeated element exactly when it has as many distinct elements as entries. */
  lemma {:induction false} DistinctCard<T>(s: seq<T>)
    ensures |Elems(s)| <= |s|
    ensures Distinct(s) <==> |Elems(s)| == |s|
  {
    if s != [] {
      var t, last := s[..|s| - 1], s[|s| - 1];
      DistinctCard(t);
      assert s == t + [last];
      assert Elems(s) == Elems(t) + {last};
      assert forall i :: 0 <= i < |t| ==> t[i] == s[i];
      if last in Elems(t) {
        var k :| 0 <= k < |t| && t[k] == last;
        assert s[k] == s[|s| - 1];
      } else if Distinct(t) {
        forall i, j | 0 <= i < j < |s| ensures s[i] != s[j] {
          if j == |s| - 1 {
            assert s[i] in Elems(t);
          }
        }
      } else {
        var i, j :| 0 <= i < j < |t| && t[i] == t[j];
        assert s[i] == s[j];
      }
    }
  }

  /** A set of cells of a rows x columns grid has at most rows * columns members. */
  lemma OnGridCard(cells: set<Pos>, rows: nat, columns: nat)
    requires forall q :: q in cells ==> InBounds(rows, columns, q)
    ensures |cells| <= rows * columns
  {
    var all := AllCells(rows, columns);
    assert cells <= all;
    assert all == cells + (all - cells);
  }

  /** Taking a member out of a finite set shrinks it by one. */
  lemma CardRemove<T>(s: set<T>, x: T)
    requires x in s
    ensures |s - {x}| == |s| - 1
  {
    assert s == (s - {x}) + {x};
  }

  /** A subset of a finite set with the same size is the whole set. */
  lemma SameCardSubset<T>(a: set<T>, b: set<T>)
    requires a <= b && |a| == |b|
    ensures a == b
  {
    assert b == a + (b - a);
    assert |b - a| == 0;
  }

  /** On a rows x columns grid, when the showing cells and the mines are disjoint and together
      as many as the cells, every cell that is not a mine is showing. */
  lemma AllSafeShowing(shown: set<Pos>, mines: set<Pos>, rows: nat, columns: nat, p: Pos)
    requires forall q :: q in shown ==> InBounds(rows, columns, q)
    requires forall q :: q in mines ==> InBounds(rows, columns, q)
    requires shown * mines == {} && |shown| + |mines| == rows * columns
    requires InBounds(rows, columns, p) && p !in mines
    ensures p in shown
  {
    var all := AllCells(rows, columns);
    assert all == (all - mines) + mines;
    SameCardSubset(shown, all - mines);
  }

  /** p comes before (r, c) when the grid is read row by row. */
  predicate RowMajorBefore(p: Pos, r: int, c: int) {
    p.0 < r || (p.0 == r && p.1 < c)
  }
}
