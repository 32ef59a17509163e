/**
 * The flow pass of the depitter: one code per cell of the filled raster,
 * OUTLET on the edge of the valid region, a D8 direction inside it and the
 * integer no-value elsewhere.
 */
module FlowPass {
  import opened Grid

  /** The code of an outlet cell (FlowNode.OUTLET). */
  const Outlet: int := 10

  /** The integer no-value of the flow raster (JGTConstants.intNovalue). */
  const IntNovalue: int := -9999

  /**
   * Cell sizes: xRes between columns, yRes between rows and diag between
   * diagonal neighbours (the square root of xRes^2 + yRes^2, supplied by the
   * caller since reals have no square root here).
   */
  datatype Resolution = Resolution(xRes: real, yRes: real, diag: real)

  predicate Positive(res: Resolution) {
    res.xRes > 0.0 && res.yRes > 0.0 && res.diag > 0.0
  }

  /** The distance to the neighbour in direction d. */
  function Distance(res: Resolution, d: int): (r: real)
    requires 1 <= d <= 8
    ensures Positive(res) ==> r > 0.0
  {
    if d == 1 || d == 5 then res.xRes
    else if d == 3 || d == 7 then res.yRes
    else res.diag
  }

  /** All eight neighbours of n lie on the raster and hold a value. */
  predicate Interior(elev: array2<real>, nv: array2<bool>, n: Node)
    reads nv
  {
    Shaped(elev, nv) && IsValid(nv, n) && !TouchesBound(nv, n) && !TouchesNovalue(nv, n)
  }

  lemma InteriorNeighbour(elev: array2<real>, nv: array2<bool>, n: Node, d: int)
    requires Interior(elev, nv, n) && 1 <= d <= 8
    ensures IsValid(nv, Toward(n, d)) && InGrid(elev, Toward(n, d)) && InGrid(elev, n)
  {
  }

  /** The slope from n down to its neighbour in direction d. */
  function Drop(elev: array2<real>, nv: array2<bool>, res: Resolution, n: Node, d: int): real
    reads elev, nv
    requires Interior(elev, nv, n) && Positive(res) && 1 <= d <= 8
  {
    InteriorNeighbour(elev, nv, n, d);
    (Elev(elev, n) - Elev(elev, Toward(n, d))) / Distance(res, d)
  }

  /**
   * The direction of steepest descent among codes 1..d: its slope is the
   * largest, and it is the first code with that slope.
   */
  function Steepest(elev: array2<real>, nv: array2<bool>, res: Resolution, n: Node, d: int): (best: int)
    reads elev, nv
    requires Interior(elev, nv, n) && Positive(res) && 1 <= d <= 8
    ensures 1 <= best <= d
    ensures forall e :: 1 <= e <= d ==> Drop(elev, nv, res, n, e) <= Drop(elev, nv, res, n, best)
    ensures forall e :: 1 <= e < best ==> Drop(elev, nv, res, n, e) < Drop(elev, nv, res, n, best)
  {
    if d == 1 then 1
    else
      var b := Steepest(elev, nv, res, n, d - 1);
      if Drop(elev, nv, res, n, d) > Drop(elev, nv, res, n, b) then d else b
  }

  /** A neighbour is strictly lower exactly when the slope towards it is positive. */
  lemma DropSign(elev: array2<real>, nv: array2<bool>, res: Resolution, n: Node, d: int)
    requires Interior(elev, nv, n) && Positive(res) && 1 <= d <= 8
    ensures InGrid(elev, Toward(n, d)) && InGrid(elev, n)
    ensures Drop(elev, nv, res, n, d) > 0.0 <==> Elev(elev, Toward(n, d)) < Elev(elev, n)
  {
    InteriorNeighbour(elev, nv, n, d);
    var h := Elev(elev, n) - Elev(elev, Toward(n, d));
    var dist := Distance(res, d);
    assert Drop(elev, nv, res, n, d) * dist == h;
  }

  /**
   * The D8 code of an interior cell: the steepest descent.  Whenever some
   * neighbour is strictly lower, the code points to a strictly lower neighbour.
   */
  function FlowOf(elev: array2<real>, nv: array2<bool>, res: Resolution, n: Node): (d: int)
    reads elev, nv
    requires Interior(elev, nv, n) && Positive(res)
    ensures 1 <= d <= 8 && InGrid(elev, n) && IsValid(nv, Toward(n, d)) && InGrid(elev, Toward(n, d))
    ensures (exists e :: 1 <= e <= 8 && Elev(elev, Toward(n, e)) < Elev(elev, n)) ==>
              Elev(elev, Toward(n, d)) < Elev(elev, n)
  {
    var d := Steepest(elev, nv, res, n, 8);
    InteriorNeighbour(elev, nv, n, d);
    SteepestGoesDown(elev, nv, res, n);
    d
  }

  lemma SteepestGoesDown(elev: array2<real>, nv: array2<bool>, res: Resolution, n: Node)
    requires Interior(elev, nv, n) && Positive(res)
    ensures InGrid(elev, n) && InGrid(elev, Toward(n, Steepest(elev, nv, res, n, 8)))
    ensures (exists e :: 1 <= e <= 8 && Elev(elev, Toward(n, e)) < Elev(elev, n)) ==>
              Elev(elev, Toward(n, Steepest(elev, nv, res, n, 8))) < Elev(elev, n)
  {
    var d := Steepest(elev, nv, res, n, 8);
    DropSign(elev, nv, res, n, d);
    if e :| 1 <= e <= 8 && Elev(elev, Toward(n, e)) < Elev(elev, n) {
      DropSign(elev, nv, res, n, e);
    }
  }

  /**
   * The code of one cell: OUTLET for a valid cell on the raster border or
   * beside a no-value cell, the D8 code for any other valid cell, the integer
   * no-value for a cell without value.
   */
  function FlowCode(elev: array2<real>, nv: array2<bool>, res: Resolution, n: Node): (code: int)
    reads elev, nv
    requires Shaped(elev, nv) && Positive(res) && InGrid(nv, n)
    ensures code == Outlet <==> IsOutlet(nv, n)
    ensures code == IntNovalue <==> !IsValid(nv, n)
    ensures 1 <= code <= 8 <==> IsValid(nv, n) && !IsOutlet(nv, n)
    ensures 1 <= code <= 8 ==> IsValid(nv, Toward(n, code)) && Interior(elev, nv, n)
  {
    if IsOutlet(nv, n) then Outlet
    else if IsValid(nv, n) && !TouchesBound(nv, n) && !TouchesNovalue(nv, n) then FlowOf(elev, nv, res, n)
    else IntNovalue
  }

  /**
   * The flow pass: a fresh integer raster of the same shape holding the code
   * of every cell, filled row by row.
   */
  method FlowDirections(elev: array2<real>, nv: array2<bool>, res: Resolution) returns (flow: array2<int>)
    requires Shaped(elev, nv) && Positive(res)
    ensures fresh(flow) && flow.Length0 == nv.Length0 && flow.Length1 == nv.Length1
    ensures forall n :: InGrid(flow, n) ==> flow[n.col, n.row] == FlowCode(elev, nv, res, n)
  {
    flow := new int[nv.Length0, nv.Length1];
    for r := 0 to nv.Length1
      invariant forall n :: InGrid(flow, n) && n.row < r ==> flow[n.col, n.row] == FlowCode(elev, nv, res, n)
    {
      for c := 0 to nv.Length0
        invariant forall n :: InGrid(flow, n) && n.row < r ==> flow[n.col, n.row] == FlowCode(elev, nv, res, n)
        invariant forall n :: InGrid(flow, n) && n.row == r && n.col < c ==> flow[n.col, n.row] == FlowCode(elev, nv, res, n)
      {
        flow[c, r] := FlowCode(elev, nv, res, Node(c, r));
      }
    }
  }
}
