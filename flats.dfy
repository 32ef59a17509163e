/**
 * The flat resolver: a grown pool is filled to its exit elevation and then
 * given a slope, rising by `Delta` per step away from the exit, so that every
 * raised cell has a strictly lower neighbour.
 */
module Flats {
  import opened Grid
  import opened PitScan
  import opened PitPool

  /** The elevation step of the engineered slope. */
  const Delta: real := 0.000002

  /** The marks of filled cells have the raster's shape and are a different array from the no-value mask. */
  predicate MarksFit(nv: array2<bool>, marked: array2<bool>) {
    marked != nv && marked.Length0 == nv.Length0 && marked.Length1 == nv.Length1
  }

  /**
   * A cell still waiting for its step: valid, marked as filled, not the exit
   * and still exactly at the exit elevation.
   */
  predicate Pending(elev: array2<real>, nv: array2<bool>, marked: array2<bool>, exit: Node, exitElev: real, n: Node)
    reads elev, nv, marked
    requires Shaped(elev, nv) && MarksFit(nv, marked)
  {
    IsValid(nv, n) && marked[n.col, n.row] && n != exit && Elev(elev, n) == exitElev
  }

  ghost function PendingSet(elev: array2<real>, nv: array2<bool>, marked: array2<bool>, exit: Node, exitElev: real): set<Node>
    reads elev, nv, marked
    requires Shaped(elev, nv) && MarksFit(nv, marked)
  {
    set n | n in Cells(nv.Length0, nv.Length1) && Pending(elev, nv, marked, exit, exitElev, n)
  }

  /** Some valid neighbour of n is strictly lower: n is not a pit and drains. */
  predicate HasLowerNeighbour(elev: array2<real>, nv: array2<bool>, n: Node)
    reads elev, nv
    requires Shaped(elev, nv) && InGrid(nv, n)
  {
    exists m :: m in ValidNeighbours(nv, n) && Elev(elev, m) < Elev(elev, n)
  }

  /**
   * Filling a pool: every member is set to the exit elevation recorded at
   * growth and marked; no other cell changes.
   */
  method FillPool(elev: array2<real>, marked: array2<bool>, info: PitInfo)
    requires elev.Length0 == marked.Length0 && elev.Length1 == marked.Length1
    requires forall m :: m in info.nodes ==> InGrid(elev, m)
    modifies elev, marked
    ensures forall n :: InGrid(elev, n) ==>
              Elev(elev, n) == if n in info.nodes then info.exitElev else old(Elev(elev, n))
    ensures forall n :: InGrid(marked, n) ==>
              marked[n.col, n.row] == (old(marked[n.col, n.row]) || n in info.nodes)
  {
    for i := 0 to |info.nodes|
      invariant forall n :: InGrid(elev, n) ==>
                  Elev(elev, n) == if n in info.nodes[..i] then info.exitElev else old(Elev(elev, n))
      invariant forall n :: InGrid(marked, n) ==>
                  marked[n.col, n.row] == (old(marked[n.col, n.row]) || n in info.nodes[..i])
    {
      var gridNode := info.nodes[i];
      SliceStep(info.nodes, i);
      elev[gridNode.col, gridNode.row] := info.exitElev;
      marked[gridNode.col, gridNode.row] := true;
    }
    assert info.nodes[..|info.nodes|] == info.nodes;
  }

  /**
   * The cells of one slope step: the pending valid neighbours of the current
   * wavefront, each once.
   */
  method Connect(elev: array2<real>, nv: array2<bool>, marked: array2<bool>, exit: Node, exitElev: real, front: seq<Node>)
    returns (connected: seq<Node>)
    requires Shaped(elev, nv) && MarksFit(nv, marked)
    ensures forall m :: m in connected <==>
              NextToAny(nv, front, |front|, m) && Pending(elev, nv, marked, exit, exitElev, m)
    ensures Distinct(connected)
  {
    connected := [];
    for i := 0 to |front|
      invariant forall m :: m in connected <==>
                  NextToAny(nv, front, i, m) && Pending(elev, nv, marked, exit, exitElev, m)
      invariant Distinct(connected)
    {
      connected := ConnectAround(elev, nv, marked, exit, exitElev, front[i], connected);
      NextToOneMore(nv, front, i);
    }
  }

  /** One front cell's share of a slope step. */
  method ConnectAround(elev: array2<real>, nv: array2<bool>, marked: array2<bool>, exit: Node, exitElev: real,
                       checkNode: Node, found: seq<Node>) returns (connected: seq<Node>)
    requires Shaped(elev, nv) && MarksFit(nv, marked) && Distinct(found)
    ensures forall m :: m in connected <==>
              m in found || (m in ValidNeighbours(nv, checkNode) && Pending(elev, nv, marked, exit, exitElev, m))
    ensures Distinct(connected)
  {
    connected := found;
    var validSurroundingNodes := ValidNeighbours(nv, checkNode);
    for j := 0 to |validSurroundingNodes|
      invariant forall m :: m in connected <==>
                  m in found || (m in validSurroundingNodes[..j] && Pending(elev, nv, marked, exit, exitElev, m))
      invariant Distinct(connected)
    {
      var gridNode := validSurroundingNodes[j];
      SliceStep(validSurroundingNodes, j);
      assert gridNode in validSurroundingNodes;
      if gridNode != exit && marked[gridNode.col, gridNode.row] && Elev(elev, gridNode) == exitElev {
        if gridNode !in connected {
          connected := connected + [gridNode];
        }
      }
    }
    assert validSurroundingNodes[..|validSurroundingNodes|] == validSurroundingNodes;
  }

  /** Setting the given cells to one elevation; no other cell changes. */
  method Raise(elev: array2<real>, cells: seq<Node>, value: real)
    requires forall m :: m in cells ==> InGrid(elev, m)
    modifies elev
    ensures forall n :: InGrid(elev, n) ==> Elev(elev, n) == if n in cells then value else old(Elev(elev, n))
  {
    for i := 0 to |cells|
      invariant forall n :: InGrid(elev, n) ==> Elev(elev, n) == if n in cells[..i] then value else old(Elev(elev, n))
    {
      SliceStep(cells, i);
      assert cells[i] in cells;
      elev[cells[i].col, cells[i].row] := value;
    }
    assert cells[..|cells|] == cells;
  }

  /** The elevation of wavefront round k of the slope: k steps of Delta above the exit. */
  function Level(exitElev: real, k: int): real {
    exitElev + Delta * (k as real)
  }

  /**
   * n sits on the slope beyond round `iteration`: at the level of some later
   * round k, beside a valid neighbour at the level of round k - 1.
   */
  ghost predicate Stepped(elev: array2<real>, nv: array2<bool>, exitElev: real, iteration: int, n: Node)
    reads elev, nv
    requires Shaped(elev, nv) && InGrid(nv, n)
  {
    exists k :: iteration < k && Elev(elev, n) == Level(exitElev, k) &&
      exists m :: m in ValidNeighbours(nv, n) && Elev(elev, m) == Level(exitElev, k - 1)
  }

  lemma SteppedEarlier(elev: array2<real>, nv: array2<bool>, exitElev: real, a: int, b: int, n: Node)
    requires Shaped(elev, nv) && InGrid(nv, n) && a <= b && Stepped(elev, nv, exitElev, b, n)
    ensures Stepped(elev, nv, exitElev, a, n)
  {
    var k :| b < k && Elev(elev, n) == Level(exitElev, k) &&
      exists m :: m in ValidNeighbours(nv, n) && Elev(elev, m) == Level(exitElev, k - 1);
  }

  /** The slope changed n: its elevation differs from the one the copy `start` holds. */
  ghost predicate Changed(start: array2<real>, elev: array2<real>, n: Node)
    reads start, elev
  {
    InGrid(start, n) && InGrid(elev, n) && Elev(elev, n) != Elev(start, n)
  }

  /**
   * The slope that makeCellsFlowReady builds from the raster `start` and the
   * wavefront `front` of round `iteration`: only cells pending in `start`
   * change, each to above the front's level; each changed cell is exactly one
   * Delta above a valid neighbour that is in the front or changed, and at
   * most one Delta above every such neighbour.  So a changed cell sits at the
   * level of the round that reached it: `iteration` plus its distance from
   * the front through changed cells.
   */
  ghost predicate Graded(start: array2<real>, elev: array2<real>, nv: array2<bool>, marked: array2<bool>, exit: Node,
                         exitElev: real, front: seq<Node>, iteration: int)
    reads start, elev, nv, marked
    requires Shaped(start, nv) && Shaped(elev, nv) && MarksFit(nv, marked)
  {
    // bound to a name, so that a caller proves it as one fact
    var graded :=
      (forall n :: InGrid(elev, n) && !Pending(start, nv, marked, exit, exitElev, n) ==> Elev(elev, n) == Elev(start, n)) &&
      (forall n {:trigger Changed(start, elev, n)} :: Changed(start, elev, n) ==> Elev(elev, n) > Level(exitElev, iteration)) &&
      (forall n {:trigger Changed(start, elev, n)} :: Changed(start, elev, n) ==>
         exists m :: m in ValidNeighbours(nv, n) && (m in front || Elev(elev, m) != Elev(start, m)) &&
                     Elev(elev, m) == Elev(elev, n) - Delta) &&
      (forall n, m {:trigger Changed(start, elev, n), m in ValidNeighbours(nv, n)} ::
         Changed(start, elev, n) && m in ValidNeighbours(nv, n) && (m in front || Elev(elev, m) != Elev(start, m)) ==>
           Elev(elev, m) >= Elev(elev, n) - Delta);
    graded
  }

  /** A step that finds no pending cell changes nothing, which is a slope. */
  lemma GradedIdle(start: array2<real>, elev: array2<real>, nv: array2<bool>, marked: array2<bool>, exit: Node,
                   exitElev: real, front: seq<Node>, iteration: int)
    requires Shaped(start, nv) && SameHeights(start, elev) && MarksFit(nv, marked)
    ensures Graded(start, elev, nv, marked, exit, exitElev, front, iteration)
  {
    assert forall n :: !Changed(start, elev, n);
  }

  /**
   * One step of the slope, from `start` to its copy `raised`: the front's
   * pending neighbours, `connected`, are raised to the next level and nothing
   * else changes.
   */
  ghost predicate RaisedStep(start: array2<real>, raised: array2<real>, nv: array2<bool>, marked: array2<bool>,
                             exit: Node, exitElev: real, front: seq<Node>, connected: seq<Node>, iteration: int)
    reads start, raised, nv, marked
    requires Shaped(start, nv) && Shaped(raised, nv) && MarksFit(nv, marked)
  {
    // bound to a name, so that a caller proves it as one fact
    var step :=
      (forall f :: f in front ==>
         IsValid(nv, f) && !Pending(start, nv, marked, exit, exitElev, f) && Elev(start, f) == Level(exitElev, iteration)) &&
      (forall m :: m in connected <==> NextToAny(nv, front, |front|, m) && Pending(start, nv, marked, exit, exitElev, m)) &&
      (forall n :: InGrid(raised, n) ==>
         Elev(raised, n) == if n in connected then Level(exitElev, iteration + 1) else Elev(start, n));
    step
  }

  /**
   * What one step leaves, read off the slope from the next front: cells not
   * pending at the start keep their elevation (the front among them), the
   * connected cells stay one Delta above the front, and every other changed
   * cell was pending at the start and changed after the step.
   */
  lemma SlopeKept(start: array2<real>, raised: array2<real>, elev: array2<real>, nv: array2<bool>,
                  marked: array2<bool>, exit: Node, exitElev: real, front: seq<Node>, connected: seq<Node>,
                  iteration: nat)
    requires Shaped(start, nv) && Shaped(raised, nv) && Shaped(elev, nv) && MarksFit(nv, marked)
    requires RaisedStep(start, raised, nv, marked, exit, exitElev, front, connected, iteration)
    requires Graded(raised, elev, nv, marked, exit, exitElev, connected, iteration + 1)
    ensures forall n :: InGrid(elev, n) && !Pending(start, nv, marked, exit, exitElev, n) ==> Elev(elev, n) == Elev(start, n)
    ensures forall f :: f in front ==> Elev(elev, f) == Level(exitElev, iteration)
    ensures forall n :: n in connected ==>
              InGrid(elev, n) && Elev(elev, n) == Level(exitElev, iteration) + Delta && Changed(start, elev, n)
    ensures forall n :: Changed(start, elev, n) && n !in connected ==>
              Changed(raised, elev, n) && Pending(start, nv, marked, exit, exitElev, n)
  {
    forall n | InGrid(elev, n) && !Pending(start, nv, marked, exit, exitElev, n)
      ensures Elev(elev, n) == Elev(start, n)
    {
      assert !Pending(raised, nv, marked, exit, exitElev, n);
    }
    forall n | n in connected
      ensures InGrid(elev, n) && Elev(elev, n) == Level(exitElev, iteration) + Delta && Changed(start, elev, n)
    {
      assert !Pending(raised, nv, marked, exit, exitElev, n);
    }
    forall n | Changed(start, elev, n) && n !in connected
      ensures Changed(raised, elev, n) && Pending(start, nv, marked, exit, exitElev, n)
    {
      assert Elev(raised, n) == Elev(start, n);
    }
  }

  /** The slope from the next front, after one step, is the slope from this front. */
  lemma GradedStep(start: array2<real>, raised: array2<real>, elev: array2<real>, nv: array2<bool>,
                   marked: array2<bool>, exit: Node, exitElev: real, front: seq<Node>, connected: seq<Node>,
                   iteration: nat)
    requires Shaped(start, nv) && Shaped(raised, nv) && Shaped(elev, nv) && MarksFit(nv, marked)
    requires RaisedStep(start, raised, nv, marked, exit, exitElev, front, connected, iteration)
    requires Graded(raised, elev, nv, marked, exit, exitElev, connected, iteration + 1)
    ensures Graded(start, elev, nv, marked, exit, exitElev, front, iteration)
  {
    SlopeKept(start, raised, elev, nv, marked, exit, exitElev, front, connected, iteration);
    SlopeBelow(start, raised, elev, nv, marked, exit, exitElev, front, connected, iteration);
    SlopeNear(start, raised, elev, nv, marked, exit, exitElev, front, connected, iteration);
  }

  /**
   * After one step, each changed cell lies above the front's level, one Delta
   * above a neighbour in the front or changed: a connected cell above a front
   * cell, any other as the slope from the next front places it.
   */
  lemma SlopeBelow(start: array2<real>, raised: array2<real>, elev: array2<real>, nv: array2<bool>,
                   marked: array2<bool>, exit: Node, exitElev: real, front: seq<Node>, connected: seq<Node>,
                   iteration: nat)
    requires Shaped(start, nv) && Shaped(raised, nv) && Shaped(elev, nv) && MarksFit(nv, marked)
    requires RaisedStep(start, raised, nv, marked, exit, exitElev, front, connected, iteration)
    requires Graded(raised, elev, nv, marked, exit, exitElev, connected, iteration + 1)
    ensures forall n {:trigger Changed(start, elev, n)} :: Changed(start, elev, n) ==>
              Elev(elev, n) > Level(exitElev, iteration) &&
              exists m :: m in ValidNeighbours(nv, n) && (m in front || Elev(elev, m) != Elev(start, m)) &&
                          Elev(elev, m) == Elev(elev, n) - Delta
  {
    SlopeKept(start, raised, elev, nv, marked, exit, exitElev, front, connected, iteration);
    forall n | Changed(start, elev, n)
      ensures Elev(elev, n) > Level(exitElev, iteration)
      ensures exists m :: m in ValidNeighbours(nv, n) && (m in front || Elev(elev, m) != Elev(start, m)) &&
                          Elev(elev, m) == Elev(elev, n) - Delta
    {
      if n in connected {
        var k :| 0 <= k < |front| && Adjacent(front[k], n);
        var f := front[k];
        assert f in front && f in ValidNeighbours(nv, n);
      } else {
        assert Changed(raised, elev, n);
        var m :| m in ValidNeighbours(nv, n) && (m in connected || Elev(elev, m) != Elev(raised, m)) &&
                 Elev(elev, m) == Elev(elev, n) - Delta;
        assert m in connected || Changed(raised, elev, m);
      }
    }
  }

  /**
   * After one step, no changed cell is more than one Delta above a neighbour
   * in the front or changed.  A cell changed later than this step cannot be
   * beside the front: it was pending, so this step would have reached it.
   */
  lemma SlopeNear(start: array2<real>, raised: array2<real>, elev: array2<real>, nv: array2<bool>,
                  marked: array2<bool>, exit: Node, exitElev: real, front: seq<Node>, connected: seq<Node>,
                  iteration: nat)
    requires Shaped(start, nv) && Shaped(raised, nv) && Shaped(elev, nv) && MarksFit(nv, marked)
    requires RaisedStep(start, raised, nv, marked, exit, exitElev, front, connected, iteration)
    requires Graded(raised, elev, nv, marked, exit, exitElev, connected, iteration + 1)
    ensures forall n, m {:trigger Changed(start, elev, n), m in ValidNeighbours(nv, n)} ::
              Changed(start, elev, n) && m in ValidNeighbours(nv, n) && (m in front || Elev(elev, m) != Elev(start, m)) ==>
                Elev(elev, m) >= Elev(elev, n) - Delta
  {
    SlopeKept(start, raised, elev, nv, marked, exit, exitElev, front, connected, iteration);
    forall n, m | Changed(start, elev, n) && m in ValidNeighbours(nv, n) && (m in front || Elev(elev, m) != Elev(start, m))
      ensures Elev(elev, m) >= Elev(elev, n) - Delta
    {
      if n !in connected {
        if m in front {
          NextToMember(nv, front, m, n);
          assert false;
        }
        assert Changed(raised, elev, n);
      } else if m !in front {
        assert Changed(start, elev, m);
      }
    }
  }

  /**
   * The rest of one step, from the slope after it: each changed cell lies on
   * the slope beyond the front's round, so it has a strictly lower neighbour,
   * and no valid neighbour of the front or of a changed cell is left pending.
   */
  lemma SlopeStepped(start: array2<real>, raised: array2<real>, elev: array2<real>, nv: array2<bool>,
                     marked: array2<bool>, exit: Node, exitElev: real, front: seq<Node>, connected: seq<Node>,
                     iteration: nat)
    requires Shaped(start, nv) && Shaped(raised, nv) && Shaped(elev, nv) && MarksFit(nv, marked)
    requires RaisedStep(start, raised, nv, marked, exit, exitElev, front, connected, iteration)
    requires Graded(raised, elev, nv, marked, exit, exitElev, connected, iteration + 1)
    requires forall n :: InGrid(nv, n) && Changed(raised, elev, n) ==> Stepped(elev, nv, exitElev, iteration + 1, n)
    requires forall n, m :: n in connected && m in ValidNeighbours(nv, n) ==> !Pending(elev, nv, marked, exit, exitElev, m)
    requires forall n, m :: Changed(raised, elev, n) && m in ValidNeighbours(nv, n) ==>
               !Pending(elev, nv, marked, exit, exitElev, m)
    ensures forall n :: InGrid(nv, n) && Changed(start, elev, n) ==>
              HasLowerNeighbour(elev, nv, n) && Stepped(elev, nv, exitElev, iteration, n)
    ensures forall n, m :: n in front && m in ValidNeighbours(nv, n) ==> !Pending(elev, nv, marked, exit, exitElev, m)
    ensures forall n, m :: Changed(start, elev, n) && m in ValidNeighbours(nv, n) ==>
              !Pending(elev, nv, marked, exit, exitElev, m)
  {
    SlopeKept(start, raised, elev, nv, marked, exit, exitElev, front, connected, iteration);
    forall n | InGrid(nv, n) && Changed(start, elev, n)
      ensures Stepped(elev, nv, exitElev, iteration, n)
      ensures HasLowerNeighbour(elev, nv, n)
    {
      if n in connected {
        var k :| 0 <= k < |front| && Adjacent(front[k], n);
        var f := front[k];
        assert f in front && f in ValidNeighbours(nv, n);
        assert Elev(elev, n) == Level(exitElev, iteration + 1) && Elev(elev, f) == Level(exitElev, iteration);
      } else {
        SteppedEarlier(elev, nv, exitElev, iteration, iteration + 1, n);
      }
      var k :| iteration < k && Elev(elev, n) == Level(exitElev, k) &&
        exists m :: m in ValidNeighbours(nv, n) && Elev(elev, m) == Level(exitElev, k - 1);
    }
    forall n, m | n in front && m in ValidNeighbours(nv, n)
      ensures !Pending(elev, nv, marked, exit, exitElev, m)
    {
      NextToMember(nv, front, n, m);
      if Elev(elev, m) == Elev(start, m) {
        assert m !in connected;
      }
    }
  }

  /**
   * makeCellsFlowReady: from the wavefront `front` (at first the exit alone),
   * the pending valid neighbours of the front are raised to
   * exitElev + Delta * (iteration + 1) and become the next front, until a step
   * finds none.  `start` is a copy of the raster as given.  The slope is
   * Graded: only pending cells change, each to a value above the front's, at
   * the level of the round that reached it, one Delta above a neighbour of the
   * previous round.  Each changed cell lies on the slope with a strictly lower
   * neighbour, and no valid neighbour of the front or of a changed cell is left
   * pending.
   */
  method MakeCellsFlowReady(elev: array2<real>, nv: array2<bool>, marked: array2<bool>, exit: Node, exitElev: real,
                            front: seq<Node>, iteration: nat, ghost start: array2<real>)
    requires Shaped(elev, nv) && MarksFit(nv, marked) && start != elev && SameHeights(start, elev)
    requires forall f :: f in front ==> IsValid(nv, f) && !Pending(elev, nv, marked, exit, exitElev, f) &&
                                        Elev(elev, f) == Level(exitElev, iteration)
    modifies elev
    ensures Graded(start, elev, nv, marked, exit, exitElev, front, iteration)
    ensures forall n :: InGrid(nv, n) && Changed(start, elev, n) ==>
              HasLowerNeighbour(elev, nv, n) && Stepped(elev, nv, exitElev, iteration, n)
    ensures forall n, m :: n in front && m in ValidNeighbours(nv, n) ==> !Pending(elev, nv, marked, exit, exitElev, m)
    ensures forall n, m :: Changed(start, elev, n) && m in ValidNeighbours(nv, n) ==>
              !Pending(elev, nv, marked, exit, exitElev, m)
    decreases PendingSet(elev, nv, marked, exit, exitElev)
  {
    var it := iteration + 1;
    var connected := Connect(elev, nv, marked, exit, exitElev, front);
    if |connected| == 0 {
      forall n, m | n in front && m in ValidNeighbours(nv, n)
        ensures !Pending(elev, nv, marked, exit, exitElev, m)
      {
        NextToMember(nv, front, n, m);
      }
      GradedIdle(start, elev, nv, marked, exit, exitElev, front, iteration);
      return;
    }
    assert forall m :: m in connected <==>
                       NextToAny(nv, front, |front|, m) && Pending(start, nv, marked, exit, exitElev, m);
    // each connected cell holds exactly exitElev, so OmsDePitter's `elevation + delta * iteration` is this value
    var value := Level(exitElev, it);
    ghost var before := PendingSet(elev, nv, marked, exit, exitElev);
    Raise(elev, connected, value);
    PendingShrinks(elev, nv, marked, exit, exitElev, connected, value, before);
    ghost var raised := Snapshot(elev);
    assert RaisedStep(start, raised, nv, marked, exit, exitElev, front, connected, iteration);
    MakeCellsFlowReady(elev, nv, marked, exit, exitElev, connected, it, raised);
    GradedStep(start, raised, elev, nv, marked, exit, exitElev, front, connected, iteration);
    SlopeStepped(start, raised, elev, nv, marked, exit, exitElev, front, connected, iteration);
  }

  /** A valid neighbour of a front cell is next to the front. */
  lemma NextToMember(nv: array2<bool>, front: seq<Node>, n: Node, m: Node)
    requires n in front && m in ValidNeighbours(nv, n)
    ensures NextToAny(nv, front, |front|, m)
  {
    var k :| 0 <= k < |front| && front[k] == n;
  }

  /**
   * Raising pending cells above the exit elevation leaves strictly fewer
   * pending cells: the raised ones drop out and no other cell joins.
   */
  lemma PendingShrinks(elev: array2<real>, nv: array2<bool>, marked: array2<bool>, exit: Node, exitElev: real,
                       connected: seq<Node>, value: real, before: set<Node>)
    requires Shaped(elev, nv) && MarksFit(nv, marked) && value != exitElev && |connected| > 0
    requires forall m :: m in connected ==> m in before
    requires forall n :: n in before ==> n in Cells(nv.Length0, nv.Length1)
    requires forall n :: InGrid(elev, n) ==> Elev(elev, n) == value || n in before ||
                                             !Pending(elev, nv, marked, exit, exitElev, n)
    requires forall n :: n in connected ==> InGrid(elev, n) && Elev(elev, n) == value
    ensures PendingSet(elev, nv, marked, exit, exitElev) < before
  {
    var after := PendingSet(elev, nv, marked, exit, exitElev);
    assert connected[0] !in after;
  }

  /** A pool lies on valid cells and drains through a valid exit. */
  predicate Placed(nv: array2<bool>, info: PitInfo)
    reads nv
  {
    IsValid(nv, info.exit) && forall m :: m in info.nodes ==> IsValid(nv, m)
  }

  /** A pool grown from a valid pit lies on valid cells and drains through a valid exit. */
  lemma GrownPlaced(elev: array2<real>, nv: array2<bool>, info: PitInfo)
    requires Shaped(elev, nv) && Grown(elev, nv, info) && IsValid(nv, info.nodes[0])
    ensures Placed(nv, info)
  {
    var pool := info.nodes;
    forall m | m in pool
      ensures IsValid(nv, m)
    {
      var i :| 0 <= i < |pool| && pool[i] == m;
      if i > 0 {
        assert Absorbed(elev, nv, pool, i);
      }
    }
    if |pool| == 1 {
      assert info.exit in ValidNeighbours(nv, pool[0]);
    } else {
      ExitBesidePool(elev, nv, pool);
    }
  }

  /** Filling a singleton pool raises its pit: the exit is its lowest neighbour. */
  lemma SingletonFillRaises(elev: array2<real>, nv: array2<bool>, info: PitInfo)
    requires Shaped(elev, nv) && Grown(elev, nv, info) && |info.nodes| == 1
    requires IsPit(elev, nv, info.nodes[0])
    ensures InGrid(elev, info.nodes[0]) && Elev(elev, info.nodes[0]) <= info.exitElev
  {
    assert info.exit in ValidNeighbours(nv, info.nodes[0]);
  }

  /**
   * Filling raises every absorbed member that had an escape when it joined:
   * it was no higher than that escape, and the escape no higher than the exit.
   */
  lemma AbsorbedFillRaises(elev: array2<real>, nv: array2<bool>, info: PitInfo, i: int)
    requires Shaped(elev, nv) && Grown(elev, nv, info) && 0 < i < |info.nodes|
    requires Escape(elev, nv, info.nodes, i).Some?
    ensures InGrid(elev, info.nodes[i]) && Elev(elev, info.nodes[i]) <= info.exitElev
  {
    var pool := info.nodes;
    assert Absorbed(elev, nv, pool, i);
    ExitIsHighest(elev, nv, pool, i);
    assert Escape(elev, nv, pool, i).value in Unabsorbed(nv, pool[i], pool[..i]);
  }

  /**
   * The flats stage for one pool: fill it to the exit elevation recorded at
   * growth, mark it, then impose the slope from the exit, compared against the
   * exit's elevation as the raster holds it now.  Every member ends at least
   * at the recorded exit elevation; a member above it sits on the slope, one
   * level above a valid neighbour; no valid neighbour of the exit or of such a
   * member is left pending.  Outside the pool no cell decreases, only cells
   * marked by earlier pools of the round can change, and a cell that does
   * sits on the slope built from the exit's elevation after filling.
   */
  method FlattenPool(elev: array2<real>, nv: array2<bool>, marked: array2<bool>, info: PitInfo)
    returns (ghost filled: array2<real>)
    requires Shaped(elev, nv) && MarksFit(nv, marked) && Placed(nv, info)
    modifies elev, marked
    ensures forall n :: InGrid(marked, n) ==> marked[n.col, n.row] == (old(marked[n.col, n.row]) || n in info.nodes)
    ensures forall n :: InGrid(elev, n) && n !in info.nodes && !old(marked[n.col, n.row]) ==>
              Elev(elev, n) == old(Elev(elev, n))
    ensures forall n :: InGrid(elev, n) && n !in info.nodes ==> Elev(elev, n) >= old(Elev(elev, n))
    ensures forall n :: InGrid(elev, n) && n !in info.nodes && Elev(elev, n) != old(Elev(elev, n)) ==>
              Stepped(elev, nv, if info.exit in info.nodes then info.exitElev else old(Elev(elev, info.exit)), 0, n)
    ensures forall n :: n in info.nodes ==> Elev(elev, n) >= info.exitElev
    ensures forall n :: n in info.nodes && Elev(elev, n) > info.exitElev ==> HasLowerNeighbour(elev, nv, n)
    ensures forall n :: n in info.nodes && Elev(elev, n) > info.exitElev ==> Stepped(elev, nv, info.exitElev, 0, n)
    ensures forall n, m ::
              (n == info.exit || (n in info.nodes && Elev(elev, n) > info.exitElev)) && m in ValidNeighbours(nv, n) ==>
                !Pending(elev, nv, marked, info.exit, Elev(elev, info.exit), m)
    ensures fresh(filled) && Shaped(filled, nv)
    ensures forall n :: InGrid(filled, n) ==> Elev(filled, n) == if n in info.nodes then info.exitElev else old(Elev(elev, n))
    ensures Graded(filled, elev, nv, marked, info.exit, Elev(filled, info.exit), [info.exit], 0)
  {
    FillPool(elev, marked, info);
    var exitElevation := Elev(elev, info.exit);
    filled := Snapshot(elev);
    MakeCellsFlowReady(elev, nv, marked, info.exit, exitElevation, [info.exit], 0, filled);
    assert Level(exitElevation, 0) == exitElevation;
    assert Elev(elev, info.exit) == exitElevation;
    forall n | InGrid(elev, n)
      ensures Changed(filled, elev, n) ==> Pending(filled, nv, marked, info.exit, exitElevation, n) && Elev(elev, n) > exitElevation
      ensures !Changed(filled, elev, n) ==> Elev(elev, n) == Elev(filled, n)
    {
    }
  }

  /** No pool after the q-th contains n: the q-th is the last to fill it. */
  predicate LastHolder(infos: seq<PitInfo>, q: int, n: Node)
    requires 0 <= q < |infos|
  {
    forall p :: q < p < |infos| ==> n !in infos[p].nodes
  }

  /** Every pool cell is at least at the recorded exit elevation of the last pool that holds it. */
  ghost predicate Settled(elev: array2<real>, infos: seq<PitInfo>)
    reads elev
  {
    forall q, n :: 0 <= q < |infos| && n in infos[q].nodes && InGrid(elev, n) && LastHolder(infos, q, n) ==>
      Elev(elev, n) >= infos[q].exitElev
  }

  /** v lies k >= 0 steps of Delta above the recorded exit elevation of one of the pools. */
  ghost predicate OnSlopes(infos: seq<PitInfo>, v: real) {
    exists p, k :: 0 <= p < |infos| && 0 <= k && v == Level(infos[p].exitElev, k)
  }

  lemma ExitOnSlopes(infos: seq<PitInfo>, q: int)
    requires 0 <= q < |infos|
    ensures OnSlopes(infos, infos[q].exitElev)
  {
    assert infos[q].exitElev == Level(infos[q].exitElev, 0);
  }

  /** A slope built from a level of the slopes stays on them. */
  lemma SteppedOnSlopes(elev: array2<real>, nv: array2<bool>, infos: seq<PitInfo>, base: real, n: Node)
    requires Shaped(elev, nv) && InGrid(nv, n) && Stepped(elev, nv, base, 0, n) && OnSlopes(infos, base)
    ensures OnSlopes(infos, Elev(elev, n))
  {
    var k :| 0 < k && Elev(elev, n) == Level(base, k) &&
      exists m :: m in ValidNeighbours(nv, n) && Elev(elev, m) == Level(base, k - 1);
    var p, j :| 0 <= p < |infos| && 0 <= j && base == Level(infos[p].exitElev, j);
    assert Elev(elev, n) == Level(infos[p].exitElev, j + k);
  }

  /**
   * The flats stage of a round: a fresh mark matrix, then each pool in turn
   * (the parallel stream read as a sequential loop), each pool's exit still
   * at the elevation recorded for it.  Cells outside every pool keep their
   * elevation, every pool cell ends at least at the exit elevation of the
   * last pool that holds it, and every pool cell ends on the slopes: some
   * number of steps of Delta above the exit elevation of one of the pools.
   */
  method FlattenPools(elev: array2<real>, nv: array2<bool>, infos: seq<PitInfo>)
    requires Shaped(elev, nv) && forall q :: 0 <= q < |infos| ==> Placed(nv, infos[q])
    requires forall q :: 0 <= q < |infos| ==> InGrid(elev, infos[q].exit) && Elev(elev, infos[q].exit) == infos[q].exitElev
    modifies elev
    ensures forall n :: InGrid(elev, n) && n !in Members(infos) ==> Elev(elev, n) == old(Elev(elev, n))
    ensures Settled(elev, infos)
    ensures forall n :: InGrid(elev, n) && n in Members(infos) ==> OnSlopes(infos, Elev(elev, n))
  {
    var marked := new bool[nv.Length0, nv.Length1]((c, r) => false);
    for q := 0 to |infos|
      invariant forall n :: InGrid(marked, n) ==> marked[n.col, n.row] == (n in Members(infos[..q]))
      invariant forall n :: InGrid(elev, n) && n !in Members(infos[..q]) ==> Elev(elev, n) == old(Elev(elev, n))
      invariant Settled(elev, infos[..q])
      invariant forall n :: InGrid(elev, n) && n in Members(infos[..q]) ==> OnSlopes(infos, Elev(elev, n))
    {
      assert infos[..q + 1][..q] == infos[..q];
      assert Members(infos[..q + 1]) == Members(infos[..q]) + infos[q].nodes;
      FlattenNext(elev, nv, marked, infos, q);
    }
    assert infos[..|infos|] == infos;
  }

  /** The flats stage for pool q, after the pools before it. */
  method FlattenNext(elev: array2<real>, nv: array2<bool>, marked: array2<bool>, infos: seq<PitInfo>, q: int)
    requires Shaped(elev, nv) && MarksFit(nv, marked) && 0 <= q < |infos|
    requires forall p :: 0 <= p < |infos| ==> Placed(nv, infos[p])
    requires forall n :: InGrid(marked, n) ==> marked[n.col, n.row] == (n in Members(infos[..q]))
    requires Settled(elev, infos[..q])
    requires forall n :: InGrid(elev, n) && n in Members(infos[..q]) ==> OnSlopes(infos, Elev(elev, n))
    requires infos[q].exit !in Members(infos[..q]) ==>
               InGrid(elev, infos[q].exit) && Elev(elev, infos[q].exit) == infos[q].exitElev
    modifies elev, marked
    ensures forall n :: InGrid(marked, n) ==> marked[n.col, n.row] == (n in Members(infos[..q + 1]))
    ensures forall n :: InGrid(elev, n) && n !in Members(infos[..q + 1]) ==> Elev(elev, n) == old(Elev(elev, n))
    ensures Settled(elev, infos[..q + 1])
    ensures forall n :: InGrid(elev, n) && n in Members(infos[..q + 1]) ==> OnSlopes(infos, Elev(elev, n))
  {
    var _ := FlattenPool(elev, nv, marked, infos[q]);
    assert infos[..q + 1][..q] == infos[..q];
    ghost var done := infos[..q + 1];
    assert Members(done) == Members(infos[..q]) + infos[q].nodes;
    forall p, n | 0 <= p < |done| && n in done[p].nodes && InGrid(elev, n) && LastHolder(done, p, n)
      ensures Elev(elev, n) >= done[p].exitElev
    {
      if p < q {
        LastHolderPrefix(infos, q, p, n);
        assert old(Elev(elev, n)) >= done[p].exitElev;
      }
    }
    ExitOnSlopes(infos, q);
    ghost var exit := infos[q].exit;
    ghost var base := if exit in infos[q].nodes then infos[q].exitElev else old(Elev(elev, exit));
    forall n | InGrid(elev, n) && n in Members(done)
      ensures OnSlopes(infos, Elev(elev, n))
    {
      if n in infos[q].nodes {
        if Elev(elev, n) > infos[q].exitElev {
          SteppedOnSlopes(elev, nv, infos, infos[q].exitElev, n);
        }
      } else if Elev(elev, n) != old(Elev(elev, n)) {
        SteppedOnSlopes(elev, nv, infos, base, n);
      } else {
        assert n in Members(infos[..q]);
        assert old(OnSlopes(infos, Elev(elev, n)));
      }
    }
  }

  /** Which pool cells are settled depends only on the elevations. */
  lemma SettledAgrees(a: array2<real>, b: array2<real>, infos: seq<PitInfo>)
    requires SameHeights(a, b) && Settled(a, infos)
    ensures Settled(b, infos)
  {
  }

  /** The last holder of a cell among the first q + 1 pools, when not the q-th, is its last holder among the first q. */
  lemma LastHolderPrefix(infos: seq<PitInfo>, q: int, p: int, n: Node)
    requires 0 <= p < q < |infos| && LastHolder(infos[..q + 1], p, n)
    ensures LastHolder(infos[..q], p, n) && n !in infos[q].nodes
    ensures infos[..q][p] == infos[..q + 1][p] == infos[p]
  {
    assert infos[..q + 1][q] == infos[q];
    forall p' | p < p' < q
      ensures n !in infos[..q][p'].nodes
    {
      assert infos[..q][p'] == infos[..q + 1][p'];
    }
  }

  /** The cells of placed pools are all valid. */
  lemma {:induction false} MembersValid(nv: array2<bool>, infos: seq<PitInfo>)
    requires forall q :: 0 <= q < |infos| ==> Placed(nv, infos[q])
    ensures forall m :: m in Members(infos) ==> IsValid(nv, m)
    decreases |infos|
  {
    if infos != [] {
      var init := infos[..|infos| - 1];
      assert forall q :: 0 <= q < |init| ==> init[q] == infos[q];
      MembersValid(nv, init);
      assert Placed(nv, infos[|infos| - 1]);
    }
  }
}
