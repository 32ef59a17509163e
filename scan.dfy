/**
 * The two pit scans of the depitter and its lowest-node selection: a full scan of
 * the raster, row by row, and the incremental scan that looks only at the
 * neighbours of the cells changed in the previous round.
 */
module PitScan {
  import opened Grid

  /**
   * getMinElevNode: a running minimum over the list with strict `<`, so the first
   * of several equally low nodes wins; None (Java's null) for an empty list.
   */
  method GetMinElevNode(elev: array2<real>, nodes: seq<Node>) returns (minNode: Option<Node>)
    requires forall m :: m in nodes ==> InGrid(elev, m)
    ensures minNode == LowestNode(elev, nodes)
  {
    var minElev: Option<real> := None;  // None stands for +infinity
    minNode := None;
    for i := 0 to |nodes|
      invariant minNode == LowestNode(elev, nodes[..i])
      invariant minNode.Some? <==> minElev.Some?
      invariant minNode.Some? ==> minElev.value == Elev(elev, minNode.value)
    {
      assert nodes[..i + 1][..i] == nodes[..i];
      var e := Elev(elev, nodes[i]);
      if minElev.None? || e < minElev.value {
        minElev := Some(e);
        minNode := Some(nodes[i]);
      }
    }
    assert nodes[..|nodes|] == nodes;
  }

  /** a comes before b in the row-by-row, column-by-column scan. */
  predicate ScanBefore(a: Node, b: Node) {
    a.row < b.row || (a.row == b.row && a.col < b.col)
  }

  /** Cells the scan has passed when it is at (col, row). */
  predicate Passed(n: Node, col: int, row: int) {
    n.row < row || (n.row == row && n.col < col)
  }

  /**
   * The list of the full scan: exactly the raster cells that are pits with a
   * finite surrounding minimum, in strict scan order (so each once).
   */
  ghost predicate ScanList(elev: array2<real>, nv: array2<bool>, pits: seq<Node>)
    reads elev, nv
    requires Shaped(elev, nv)
  {
    (forall n {:trigger n in pits} {:trigger IsPitCandidate(elev, nv, n)} ::
       n in pits <==> InGrid(nv, n) && IsPitCandidate(elev, nv, n)) &&
    forall i, j :: 0 <= i < j < |pits| ==> ScanBefore(pits[i], pits[j])
  }

  /** Which list the full scan yields depends only on the elevations. */
  lemma ScanListAgrees(a: array2<real>, b: array2<real>, nv: array2<bool>, pits: seq<Node>)
    requires SameHeights(a, b) && Shaped(a, nv) && ScanList(a, nv, pits)
    ensures ScanList(b, nv, pits)
  {
    forall n
      ensures IsPitCandidate(a, nv, n) == IsPitCandidate(b, nv, n)
    {
      PitCandidateAgrees(a, b, nv, n);
    }
  }

  /**
   * The full scan: every raster cell that is a pit and has a finite surrounding
   * minimum, each once, in scan order.
   */
  method FullScan(elev: array2<real>, nv: array2<bool>) returns (pits: seq<Node>)
    requires Shaped(elev, nv)
    ensures forall n :: n in pits <==> InGrid(nv, n) && IsPitCandidate(elev, nv, n)
    ensures forall i, j :: 0 <= i < j < |pits| ==> ScanBefore(pits[i], pits[j])
    ensures Distinct(pits)
  {
    pits := [];
    for row := 0 to nv.Length1
      invariant forall n :: n in pits <==> InGrid(nv, n) && Passed(n, 0, row) && IsPitCandidate(elev, nv, n)
      invariant forall i, j :: 0 <= i < j < |pits| ==> ScanBefore(pits[i], pits[j])
      invariant forall k :: 0 <= k < |pits| ==> Passed(pits[k], 0, row)
    {
      pits := ScanRow(elev, nv, row, pits);
    }
  }

  /** One row of the full scan: appends the row's candidates to those found so far. */
  method ScanRow(elev: array2<real>, nv: array2<bool>, row: int, found: seq<Node>) returns (pits: seq<Node>)
    requires Shaped(elev, nv) && 0 <= row < nv.Length1
    requires forall n :: n in found <==> InGrid(nv, n) && Passed(n, 0, row) && IsPitCandidate(elev, nv, n)
    requires forall i, j :: 0 <= i < j < |found| ==> ScanBefore(found[i], found[j])
    requires forall k :: 0 <= k < |found| ==> Passed(found[k], 0, row)
    ensures forall n :: n in pits <==> InGrid(nv, n) && Passed(n, 0, row + 1) && IsPitCandidate(elev, nv, n)
    ensures forall i, j :: 0 <= i < j < |pits| ==> ScanBefore(pits[i], pits[j])
    ensures forall k :: 0 <= k < |pits| ==> Passed(pits[k], 0, row + 1)
  {
    pits := found;
    for col := 0 to nv.Length0
      invariant forall n :: n in pits <==> InGrid(nv, n) && Passed(n, col, row) && IsPitCandidate(elev, nv, n)
      invariant forall i, j :: 0 <= i < j < |pits| ==> ScanBefore(pits[i], pits[j])
      invariant forall k :: 0 <= k < |pits| ==> Passed(pits[k], col, row)
    {
      var node := Node(col, row);
      if IsPit(elev, nv, node) {
        var surroundingMin := SurroundingMin(elev, nv, node);
        if surroundingMin.None? {
          continue;
        }
        pits := pits + [node];
      }
    }
  }

  /** m is a valid neighbour of one of the first `count` nodes. */
  predicate NextToAny(nv: array2<bool>, nodes: seq<Node>, count: int, m: Node)
    reads nv
  {
    IsValid(nv, m) && exists k :: 0 <= k < count && k < |nodes| && Adjacent(nodes[k], m)
  }

  /** Taking one more node in adds exactly its valid neighbours. */
  lemma NextToOneMore(nv: array2<bool>, nodes: seq<Node>, i: int)
    requires 0 <= i < |nodes|
    ensures forall m :: NextToAny(nv, nodes, i + 1, m) <==> NextToAny(nv, nodes, i, m) || m in ValidNeighbours(nv, nodes[i])
  {
  }

  /**
   * The list of the incremental scan: for each node in turn, its valid
   * neighbours in direction-code order that are pits with a finite
   * surrounding minimum and are not listed yet.
   */
  function AroundScan(elev: array2<real>, nv: array2<bool>, nodes: seq<Node>): seq<Node>
    reads elev, nv
    requires Shaped(elev, nv)
    decreases |nodes|
  {
    if nodes == [] then []
    else Collect(elev, nv, AroundScan(elev, nv, nodes[..|nodes| - 1]), ValidNeighbours(nv, nodes[|nodes| - 1]))
  }

  /** `found`, then each member of `around` in order that is a candidate and not listed yet. */
  function Collect(elev: array2<real>, nv: array2<bool>, found: seq<Node>, around: seq<Node>): seq<Node>
    reads elev, nv
    requires Shaped(elev, nv)
    decreases |around|
  {
    if around == [] then found
    else
      var n := |around| - 1;
      var prev := Collect(elev, nv, found, around[..n]);
      if IsPitCandidate(elev, nv, around[n]) && around[n] !in prev then prev + [around[n]] else prev
  }

  /** A neighbour that is a candidate and not listed yet is appended. */
  lemma CollectTake(elev: array2<real>, nv: array2<bool>, found: seq<Node>, around: seq<Node>, j: int)
    requires Shaped(elev, nv) && 0 <= j < |around|
    requires IsPitCandidate(elev, nv, around[j]) && around[j] !in Collect(elev, nv, found, around[..j])
    ensures Collect(elev, nv, found, around[..j + 1]) == Collect(elev, nv, found, around[..j]) + [around[j]]
  {
    assert around[..j + 1][..j] == around[..j];
  }

  /** Any other neighbour leaves the list as it is. */
  lemma CollectSkip(elev: array2<real>, nv: array2<bool>, found: seq<Node>, around: seq<Node>, j: int)
    requires Shaped(elev, nv) && 0 <= j < |around|
    requires !IsPitCandidate(elev, nv, around[j]) || around[j] in Collect(elev, nv, found, around[..j])
    ensures Collect(elev, nv, found, around[..j + 1]) == Collect(elev, nv, found, around[..j])
  {
    assert around[..j + 1][..j] == around[..j];
  }

  /**
   * Collect keeps `found` in front, adds exactly the candidates of `around`
   * not in it, and repeats nothing that `found` does not repeat.
   */
  lemma {:induction false} CollectMembers(elev: array2<real>, nv: array2<bool>, found: seq<Node>, around: seq<Node>)
    requires Shaped(elev, nv)
    ensures found <= Collect(elev, nv, found, around)
    ensures forall m :: m in Collect(elev, nv, found, around) <==> m in found || (m in around && IsPitCandidate(elev, nv, m))
    ensures Distinct(found) ==> Distinct(Collect(elev, nv, found, around))
    decreases |around|
  {
    if around != [] {
      var n := |around| - 1;
      CollectMembers(elev, nv, found, around[..n]);
      assert around == around[..n] + [around[n]];
      var prev := Collect(elev, nv, found, around[..n]);
      if Distinct(found) && IsPitCandidate(elev, nv, around[n]) && around[n] !in prev {
        AppendDistinct(prev, around[n]);
      }
    }
  }

  /** Which cells the incremental scan lists, and in which order, depends only on the elevations. */
  lemma {:induction false} AroundScanAgrees(a: array2<real>, b: array2<real>, nv: array2<bool>, nodes: seq<Node>)
    requires SameHeights(a, b) && Shaped(a, nv)
    ensures AroundScan(a, nv, nodes) == AroundScan(b, nv, nodes)
    decreases |nodes|
  {
    if nodes != [] {
      var n := |nodes| - 1;
      AroundScanAgrees(a, b, nv, nodes[..n]);
      CollectAgrees(a, b, nv, AroundScan(a, nv, nodes[..n]), ValidNeighbours(nv, nodes[n]));
    }
  }

  lemma {:induction false} CollectAgrees(a: array2<real>, b: array2<real>, nv: array2<bool>, found: seq<Node>, around: seq<Node>)
    requires SameHeights(a, b) && Shaped(a, nv)
    ensures Collect(a, nv, found, around) == Collect(b, nv, found, around)
    decreases |around|
  {
    if around != [] {
      var n := |around| - 1;
      CollectAgrees(a, b, nv, found, around[..n]);
      PitCandidateAgrees(a, b, nv, around[n]);
    }
  }

  /**
   * The incremental scan: the valid neighbours of the given nodes that are pits
   * with a finite surrounding minimum, each once (a bit matrix of the cells
   * already taken guards against repeats), in the order AroundScan gives.  No
   * nodes, no pits.
   */
  method ScanAround(elev: array2<real>, nv: array2<bool>, nodes: seq<Node>) returns (pits: seq<Node>)
    requires Shaped(elev, nv)
    ensures pits == AroundScan(elev, nv, nodes)
    ensures forall m :: m in pits <==> NextToAny(nv, nodes, |nodes|, m) && IsPitCandidate(elev, nv, m)
    ensures Distinct(pits)
  {
    pits := [];
    if |nodes| > 0 {
      var existing := new bool[nv.Length0, nv.Length1]((c, r) => false);
      for i := 0 to |nodes|
        invariant pits == AroundScan(elev, nv, nodes[..i])
        invariant forall m :: InGrid(existing, m) ==> (existing[m.col, m.row] <==> m in pits)
      {
        assert nodes[..i + 1][..i] == nodes[..i] && nodes[..i + 1][i] == nodes[i];
        pits := CollectAround(elev, nv, nodes[i], existing, pits);
      }
      assert nodes[..|nodes|] == nodes;
    }
    AroundScanMembers(elev, nv, nodes);
  }

  /**
   * The incremental scan lists exactly the candidates beside the nodes, each
   * once.
   */
  lemma {:induction false} AroundScanMembers(elev: array2<real>, nv: array2<bool>, nodes: seq<Node>)
    requires Shaped(elev, nv)
    ensures forall m :: m in AroundScan(elev, nv, nodes) <==> NextToAny(nv, nodes, |nodes|, m) && IsPitCandidate(elev, nv, m)
    ensures Distinct(AroundScan(elev, nv, nodes))
    decreases |nodes|
  {
    if nodes != [] {
      var n := |nodes| - 1;
      var init := nodes[..n];
      AroundScanMembers(elev, nv, init);
      CollectMembers(elev, nv, AroundScan(elev, nv, init), ValidNeighbours(nv, nodes[n]));
      NextToOneMore(nv, nodes, n);
      assert forall m :: NextToAny(nv, init, n, m) <==> NextToAny(nv, nodes, n, m) by {
        assert forall k :: 0 <= k < n ==> init[k] == nodes[k];
      }
    }
  }

  /**
   * One node's share of the incremental scan: its new candidate neighbours
   * are appended in direction-code order and marked.
   */
  method CollectAround(elev: array2<real>, nv: array2<bool>, node: Node, existing: array2<bool>, found: seq<Node>)
    returns (pits: seq<Node>)
    requires Shaped(elev, nv) && existing != nv
    requires existing.Length0 == nv.Length0 && existing.Length1 == nv.Length1
    requires forall m :: InGrid(existing, m) ==> (existing[m.col, m.row] <==> m in found)
    modifies existing
    ensures pits == Collect(elev, nv, found, ValidNeighbours(nv, node))
    ensures forall m :: InGrid(existing, m) ==> (existing[m.col, m.row] <==> m in pits)
  {
    pits := found;
    var around := ValidNeighbours(nv, node);
    for j := 0 to |around|
      invariant pits == Collect(elev, nv, found, around[..j])
      invariant forall m :: InGrid(existing, m) ==> (existing[m.col, m.row] <==> m in pits)
    {
      var gridNode := around[j];
      if IsPit(elev, nv, gridNode) {
        var surroundingMin := SurroundingMin(elev, nv, gridNode);
        if surroundingMin.None? {
          CollectSkip(elev, nv, found, around, j);
          continue;
        }
        if !existing[gridNode.col, gridNode.row] {
          CollectTake(elev, nv, found, around, j);
          pits := pits + [gridNode];
          existing[gridNode.col, gridNode.row] := true;
        } else {
          CollectSkip(elev, nv, found, around, j);
        }
      } else {
        CollectSkip(elev, nv, found, around, j);
      }
    }
    assert around[..|around|] == around;
  }
}
