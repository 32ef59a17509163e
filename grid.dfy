/**
 * The raster helpers the depitter is written against: grid nodes (a column and
 * a row into an elevation raster), their 8-neighbourhood and the local-minimum
 * tests on it.  The helper classes themselves (GridNode, BitMatrix, FlowNode) are
 * not part of this model; what is written here is the behaviour the depitter
 * relies on, stated as definitions.
 *
 * Rasters are indexed [col, row]: Length0 is the number of columns, Length1 the
 * number of rows.  Elevations are reals; the no-value sentinel is a separate,
 * read-only mask `nv` (true where the raster holds no value).  Because the
 * sentinel is NaN in the original, every comparison on a no-value cell is false:
 * such a cell is never a pit and never an outlet.
 */
module Grid {

  datatype Option<T> = None | Some(value: T)

  /** A cell position; two nodes are equal iff column and row are equal. */
  datatype Node = Node(col: int, row: int)

  predicate Distinct(s: seq<Node>) {
    forall i, j :: 0 <= i < j < |s| ==> s[i] != s[j]
  }

  lemma AppendDistinct(s: seq<Node>, x: Node)
    requires Distinct(s) && x !in s
    ensures Distinct(s + [x])
  {
  }

  // ---------------------------------------------------------------- geometry

  /** Column offset of D8 direction d: 1 E, 2 NE, 3 N, 4 NW, 5 W, 6 SW, 7 S, 8 SE. */
  function ColStep(d: int): int
    requires 1 <= d <= 8
  {
    if d == 1 || d == 2 || d == 8 then 1
    else if d == 4 || d == 5 || d == 6 then -1
    else 0
  }

  /** Row offset of D8 direction d; rows grow southwards. */
  function RowStep(d: int): int
    requires 1 <= d <= 8
  {
    if d == 2 || d == 3 || d == 4 then -1
    else if d == 6 || d == 7 || d == 8 then 1
    else 0
  }

  /** The position one step from n in direction d. */
  function Toward(n: Node, d: int): (m: Node)
    requires 1 <= d <= 8
    ensures Adjacent(n, m)
  {
    Node(n.col + ColStep(d), n.row + RowStep(d))
  }

  /** m is one of the eight positions around n. */
  predicate Adjacent(n: Node, m: Node) {
    n != m && -1 <= m.col - n.col <= 1 && -1 <= m.row - n.row <= 1
  }

  predicate InGrid<T>(a: array2<T>, n: Node) {
    0 <= n.col < a.Length0 && 0 <= n.row < a.Length1
  }

  /** The elevation raster and the no-value mask describe the same region. */
  predicate Shaped(elev: array2<real>, nv: array2<bool>) {
    elev.Length0 == nv.Length0 && elev.Length1 == nv.Length1
  }

  /** Every position of a cols x rows region. */
  function Cells(cols: int, rows: int): set<Node> {
    set c, r | 0 <= c < cols && 0 <= r < rows :: Node(c, r)
  }

  // ------------------------------------------------------------ cell queries

  /** The node lies on the raster and holds a value. */
  predicate IsValid(nv: array2<bool>, n: Node)
    reads nv
  {
    InGrid(nv, n) && !nv[n.col, n.row]
  }

  function Elev(elev: array2<real>, n: Node): real
    reads elev
    requires InGrid(elev, n)
  {
    elev[n.col, n.row]
  }

  /** The in-bounds neighbours of n that hold a value, in direction-code order. */
  function ValidNeighbours(nv: array2<bool>, n: Node): (r: seq<Node>)
    reads nv
    ensures forall m :: m in r <==> Adjacent(n, m) && IsValid(nv, m)
  {
    var r := ValidFrom(nv, n, 1);
    ValidFromMembers(nv, n, 1);
    assert forall m :: Adjacent(n, m) ==> m == Toward(n, DirectionTo(n, m));
    r
  }

  /** The valid positions among Toward(n, d) .. Toward(n, 8), in that order. */
  function ValidFrom(nv: array2<bool>, n: Node, d: int): seq<Node>
    reads nv
    requires 1 <= d <= 9
    decreases 9 - d
  {
    if d == 9 then []
    else
      var rest := ValidFrom(nv, n, d + 1);
      if IsValid(nv, Toward(n, d)) then [Toward(n, d)] + rest else rest
  }

  lemma {:induction false} ValidFromMembers(nv: array2<bool>, n: Node, d: int)
    requires 1 <= d <= 9
    ensures forall m :: m in ValidFrom(nv, n, d) ==> Adjacent(n, m) && IsValid(nv, m) && d <= DirectionTo(n, m)
    ensures forall e :: d <= e <= 8 && IsValid(nv, Toward(n, e)) ==> Toward(n, e) in ValidFrom(nv, n, d)
    ensures Distinct(ValidFrom(nv, n, d))
    decreases 9 - d
  {
    if d < 9 {
      ValidFromMembers(nv, n, d + 1);
      assert DirectionTo(n, Toward(n, d)) == d;
    }
  }

  /** The direction code that leads from n to an adjacent m. */
  function DirectionTo(n: Node, m: Node): (d: int)
    requires Adjacent(n, m)
    ensures 1 <= d <= 8 && Toward(n, d) == m
  {
    var dc, dr := m.col - n.col, m.row - n.row;
    assert m == Node(n.col + dc, n.row + dr);
    if dc == 1 then (if dr == -1 then 2 else if dr == 0 then 1 else 8)
    else if dc == 0 then (if dr == -1 then 3 else 7)
    else (if dr == -1 then 4 else if dr == 0 then 5 else 6)
  }

  /** No neighbour is listed twice. */
  lemma ValidNeighboursDistinct(nv: array2<bool>, n: Node)
    ensures Distinct(ValidNeighbours(nv, n))
  {
    ValidFromMembers(nv, n, 1);
  }

  /** Keeps the members of s that do not occur in pool (Java's removeAll). */
  function Without(s: seq<Node>, pool: seq<Node>): (r: seq<Node>)
    ensures forall m :: m in r <==> m in s && m !in pool
    ensures Distinct(s) ==> Distinct(r)
  {
    if s == [] then []
    else
      var rest := Without(s[1..], pool);
      assert forall m :: m in s <==> m == s[0] || m in s[1..];
      if s[0] in pool then rest else [s[0]] + rest
  }

  /**
   * Some neighbour position of n falls outside the raster.  For a node on the
   * raster this is the outer ring of cells.
   */
  predicate TouchesBound<T>(a: array2<T>, n: Node) {
    !(0 < n.col < a.Length0 - 1 && 0 < n.row < a.Length1 - 1)
  }

  /** Some neighbour position of n lies on the raster and holds no value. */
  predicate TouchesNovalue(nv: array2<bool>, n: Node)
    reads nv
  {
    exists d :: 1 <= d <= 8 && InGrid(nv, Toward(n, d)) && nv[Toward(n, d).col, Toward(n, d).row]
  }

  /** A valid cell from which flow leaves the analysed region. */
  predicate IsOutlet(nv: array2<bool>, n: Node)
    reads nv
  {
    IsValid(nv, n) && (TouchesBound(nv, n) || TouchesNovalue(nv, n))
  }

  /**
   * The first node of s with the least elevation, None when s is empty.  This
   * is what the running-minimum loop with strict `<` selects.
   */
  function LowestNode(elev: array2<real>, s: seq<Node>): (r: Option<Node>)
    reads elev
    requires forall m :: m in s ==> InGrid(elev, m)
    ensures r.None? <==> s == []
    ensures r.Some? ==> r.value in s
    decreases |s|
  {
    if s == [] then None
    else
      var init := s[..|s| - 1];
      assert forall m :: m in s <==> m in init || m == s[|s| - 1];
      var t := LowestNode(elev, init);
      if t.None? || Elev(elev, s[|s| - 1]) < Elev(elev, t.value) then Some(s[|s| - 1]) else t
  }

  /**
   * LowestNode picks a node no higher than any other, and strictly lower than
   * every node before it: the first minimum.
   */
  lemma {:induction false} LowestNodeIsFirstMinimum(elev: array2<real>, s: seq<Node>)
    requires forall m :: m in s ==> InGrid(elev, m)
    ensures LowestNode(elev, s).Some? ==> forall m :: m in s ==> Elev(elev, LowestNode(elev, s).value) <= Elev(elev, m)
    ensures LowestNode(elev, s).Some? ==>
              exists i :: 0 <= i < |s| && s[i] == LowestNode(elev, s).value &&
                (forall j :: 0 <= j < i ==> Elev(elev, LowestNode(elev, s).value) < Elev(elev, s[j]))
    decreases |s|
  {
    if s != [] {
      var init := s[..|s| - 1];
      assert forall m :: m in s <==> m in init || m == s[|s| - 1];
      LowestNodeIsFirstMinimum(elev, init);
      var t := LowestNode(elev, init);
      var r := LowestNode(elev, s).value;
      if t.None? || Elev(elev, s[|s| - 1]) < Elev(elev, t.value) {
        assert r == s[|s| - 1];
        assert forall j :: 0 <= j < |s| - 1 ==> s[j] == init[j] && init[j] in init;
      } else {
        assert r == t.value;
        var i :| 0 <= i < |init| && init[i] == r && forall j :: 0 <= j < i ==> Elev(elev, r) < Elev(elev, init[j]);
        assert s[i] == r;
        assert forall j :: 0 <= j < i ==> s[j] == init[j];
      }
    }
  }

  /** Elevation of the lowest valid neighbour; None stands for +infinity. */
  function SurroundingMin(elev: array2<real>, nv: array2<bool>, n: Node): (r: Option<real>)
    reads elev, nv
    requires Shaped(elev, nv)
    ensures r.None? <==> ValidNeighbours(nv, n) == []
  {
    var low := LowestNode(elev, ValidNeighbours(nv, n));
    if low.None? then None else Some(Elev(elev, low.value))
  }

  /**
   * n is no higher than every node of s: its elevation is at most the minimum
   * over s, which is +infinity for an empty s.
   */
  predicate IsPitFor(elev: array2<real>, nv: array2<bool>, n: Node, s: seq<Node>)
    reads elev, nv
    requires Shaped(elev, nv)
    requires forall m :: m in s ==> InGrid(elev, m)
  {
    IsValid(nv, n) && forall m :: m in s ==> Elev(elev, n) <= Elev(elev, m)
  }

  /** A local minimum, ties included. */
  predicate IsPit(elev: array2<real>, nv: array2<bool>, n: Node)
    reads elev, nv
    requires Shaped(elev, nv)
  {
    IsPitFor(elev, nv, n, ValidNeighbours(nv, n))
  }

  /** What both pit scans collect: a pit with a finite surrounding minimum. */
  predicate IsPitCandidate(elev: array2<real>, nv: array2<bool>, n: Node)
    reads elev, nv
    requires Shaped(elev, nv)
  {
    IsPit(elev, nv, n) && SurroundingMin(elev, nv, n).Some?
  }

  // ------------------------------------------------------------- snapshots

  /** Two rasters of one shape holding the same elevations: b is a copy of a. */
  ghost predicate SameHeights(a: array2<real>, b: array2<real>)
    reads a, b
  {
    a.Length0 == b.Length0 && a.Length1 == b.Length1 && forall n :: InGrid(a, n) ==> Elev(a, n) == Elev(b, n)
  }

  /** A fresh copy of the raster as it stands: one recorded state of the raster. */
  ghost method Snapshot(elev: array2<real>) returns (copy: array2<real>)
    ensures fresh(copy) && SameHeights(copy, elev)
  {
    copy := new real[elev.Length0, elev.Length1]((c, r) reads elev =>
      if 0 <= c < elev.Length0 && 0 <= r < elev.Length1 then elev[c, r] else 0.0);
  }

  /** The lowest node of a list depends only on the elevations. */
  lemma {:induction false} LowestNodeAgrees(a: array2<real>, b: array2<real>, s: seq<Node>)
    requires SameHeights(a, b) && forall m :: m in s ==> InGrid(a, m)
    ensures LowestNode(a, s) == LowestNode(b, s)
    decreases |s|
  {
    if s != [] {
      var init := s[..|s| - 1];
      assert forall m :: m in init ==> m in s;
      LowestNodeAgrees(a, b, init);
    }
  }

  /** Whether a node is a pit for a list depends only on the elevations. */
  lemma IsPitForAgrees(a: array2<real>, b: array2<real>, nv: array2<bool>, n: Node, s: seq<Node>)
    requires SameHeights(a, b) && Shaped(a, nv) && forall m :: m in s ==> InGrid(a, m)
    ensures IsPitFor(a, nv, n, s) == IsPitFor(b, nv, n, s)
  {
  }

  /** Whether a cell is a pit candidate depends only on the elevations. */
  lemma PitCandidateAgrees(a: array2<real>, b: array2<real>, nv: array2<bool>, n: Node)
    requires SameHeights(a, b) && Shaped(a, nv)
    ensures IsPitCandidate(a, nv, n) == IsPitCandidate(b, nv, n)
  {
    LowestNodeAgrees(a, b, ValidNeighbours(nv, n));
  }

  // ---------------------------------------------------------------- counting

  /** The positions of one row of a region with c columns. */
  function RowCells(c: int, row: int): set<Node> {
    set k | 0 <= k < c :: Node(k, row)
  }

  lemma {:induction false} RowCount(c: nat, row: int)
    ensures |RowCells(c, row)| == c
  {
    if c > 0 {
      RowCount(c - 1, row);
      assert RowCells(c, row) == RowCells(c - 1, row) + {Node(c - 1, row)};
    }
  }

  lemma CellsSplit(cols: nat, rows: nat)
    requires rows > 0
    ensures Cells(cols, rows) == Cells(cols, rows - 1) + RowCells(cols, rows - 1)
    ensures Cells(cols, rows - 1) !! RowCells(cols, rows - 1)
  {
  }

  /** A cols x rows region has cols * rows positions. */
  lemma {:induction false} CellsCount(cols: nat, rows: nat)
    ensures |Cells(cols, rows)| == cols * rows
  {
    if rows > 0 {
      CellsCount(cols, rows - 1);
      RowCount(cols, rows - 1);
      CellsSplit(cols, rows);
      DisjointCard(Cells(cols, rows - 1), RowCells(cols, rows - 1));
      assert cols * rows == cols * (rows - 1) + cols;
    }
  }

  lemma DisjointCard(a: set<Node>, b: set<Node>)
    requires a !! b
    ensures |a + b| == |a| + |b|
  {
  }

  lemma {:induction false} DistinctCard(s: seq<Node>)
    requires Distinct(s)
    ensures |set m | m in s| == |s|
  {
    if s != [] {
      DistinctCard(s[1..]);
      assert (set m | m in s) == (set m | m in s[1..]) + {s[0]};
      assert s[0] !in s[1..];
    }
  }

  /** A duplicate-free list of raster positions is no longer than the raster. */
  lemma DistinctInGridBound<T>(a: array2<T>, s: seq<Node>)
    requires Distinct(s)
    requires forall m :: m in s ==> InGrid(a, m)
    ensures |s| <= a.Length0 * a.Length1
  {
    DistinctCard(s);
    CellsCount(a.Length0, a.Length1);
    var elems := set m | m in s;
    assert elems <= Cells(a.Length0, a.Length1) by {
      forall m | m in elems ensures m in Cells(a.Length0, a.Length1) {
        assert InGrid(a, m);
      }
    }
    SubsetCard(elems, Cells(a.Length0, a.Length1));
  }

  lemma {:induction false} SubsetCard(a: set<Node>, b: set<Node>)
    requires a <= b
    ensures |a| <= |b|
    decreases |a|
  {
    if a != {} {
      var x :| x in a;
      SubsetCard(a - {x}, b - {x});
    }
  }
}
