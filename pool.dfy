/**
 * Growth of one pit pool from a candidate pit (the body of the candidate loop
 * of the depitter) and one round of pool resolution over a list of candidates.
 */
module PitPool {
  import opened Grid
  import opened PitScan

  /**
   * PitInfo: a grown pool, its cells in order of absorption (the pit first),
   * the exit node it drains through and the exit's elevation when it was chosen.
   */
  datatype PitInfo = PitInfo(exit: Node, exitElev: real, nodes: seq<Node>)

  /** Why processing stops without a result. */
  datatype DepitError =
    | NoDrain(pit: Node)  // a pool without a finite exit: the runtime exception of OmsDePitter.process
    | RoundLimit          // the round budget ran out before the pits did

  datatype Outcome<T> = Ok(value: T) | Fail(error: DepitError)

  /** The valid neighbours of x that are not yet in the pool. */
  function Unabsorbed(nv: array2<bool>, x: Node, pool: seq<Node>): seq<Node>
    reads nv
  {
    Without(ValidNeighbours(nv, x), pool)
  }

  /**
   * The i-th member was absorbed by the growth rule: a valid cell off the
   * raster border that was a pit with respect to its neighbours outside the
   * pool as it stood then (pool[..i]).
   */
  predicate Absorbed(elev: array2<real>, nv: array2<bool>, pool: seq<Node>, i: int)
    reads elev, nv
    requires Shaped(elev, nv) && 0 < i < |pool|
  {
    IsValid(nv, pool[i]) && !TouchesBound(nv, pool[i]) &&
    IsPitFor(elev, nv, pool[i], Unabsorbed(nv, pool[i], pool[..i]))
  }

  /** Every member after the first was absorbed by the growth rule. */
  predicate AllAbsorbed(elev: array2<real>, nv: array2<bool>, pool: seq<Node>)
    reads elev, nv
    requires Shaped(elev, nv)
  {
    forall i :: 0 < i < |pool| ==> Absorbed(elev, nv, pool, i)
  }

  /** Every member after the first touches an earlier one: the pool is one 8-connected region. */
  predicate Connected(pool: seq<Node>) {
    forall i :: 0 < i < |pool| ==> TouchesEarlier(pool, i)
  }

  predicate TouchesEarlier(pool: seq<Node>, i: int)
    requires 0 <= i < |pool|
  {
    exists j :: 0 <= j < i && Adjacent(pool[j], pool[i])
  }

  /**
   * The escape of the i-th member: its lowest neighbour outside the pool as it
   * stood when the member was absorbed.
   */
  function Escape(elev: array2<real>, nv: array2<bool>, pool: seq<Node>, i: int): (r: Option<Node>)
    reads elev, nv
    requires Shaped(elev, nv) && 0 <= i < |pool|
    ensures r.Some? ==> InGrid(elev, r.value)
  {
    LowestNode(elev, Unabsorbed(nv, pool[i], pool[..i]))
  }

  /** An escape is a valid neighbour of its member that was outside the pool at the time. */
  lemma EscapeBeside(elev: array2<real>, nv: array2<bool>, pool: seq<Node>, i: int)
    requires Shaped(elev, nv) && 0 <= i < |pool|
    ensures Escape(elev, nv, pool, i).Some? ==>
              Escape(elev, nv, pool, i).value in ValidNeighbours(nv, pool[i]) &&
              Escape(elev, nv, pool, i).value !in pool[..i]
  {
  }

  /** The escapes of the members, in order. */
  function Escapes(elev: array2<real>, nv: array2<bool>, pool: seq<Node>): (r: seq<Option<Node>>)
    reads elev, nv
    requires Shaped(elev, nv)
    ensures |r| == |pool| && Lodged(elev, r)
    decreases |pool|
  {
    if pool == [] then []
    else Escapes(elev, nv, pool[..|pool| - 1]) + [Escape(elev, nv, pool, |pool| - 1)]
  }

  /** Entry i of Escapes is the escape of member i. */
  lemma {:induction false} EscapesAt(elev: array2<real>, nv: array2<bool>, pool: seq<Node>, i: int)
    requires Shaped(elev, nv) && 0 <= i < |pool|
    ensures Escapes(elev, nv, pool)[i] == Escape(elev, nv, pool, i)
    decreases |pool|
  {
    var n := |pool| - 1;
    EscapesLast(elev, nv, pool);
    if i < n {
      EscapesAt(elev, nv, pool[..n], i);
      EscapeOfPrefix(elev, nv, pool, n, i);
    }
  }

  lemma EscapesLast(elev: array2<real>, nv: array2<bool>, pool: seq<Node>)
    requires Shaped(elev, nv) && |pool| > 0
    ensures Escapes(elev, nv, pool) == Escapes(elev, nv, pool[..|pool| - 1]) + [Escape(elev, nv, pool, |pool| - 1)]
  {
  }

  /** A member's escape depends only on the members before it. */
  lemma EscapeOfPrefix(elev: array2<real>, nv: array2<bool>, pool: seq<Node>, n: int, i: int)
    requires Shaped(elev, nv) && 0 <= i < n <= |pool|
    ensures Escape(elev, nv, pool[..n], i) == Escape(elev, nv, pool, i)
  {
    assert pool[..n][i] == pool[i] && pool[..n][..i] == pool[..i];
  }

  /** Every escape that exists lies on the raster. */
  predicate Lodged(elev: array2<real>, es: seq<Option<Node>>)
    reads elev
  {
    forall k :: 0 <= k < |es| && es[k].Some? ==> InGrid(elev, es[k].value)
  }

  /**
   * The highest of the escapes after the first (the pit's own is never
   * consulted), the earliest on ties; None when none of them exists.  This is
   * the running maximum with strict `>` over the absorbed members.
   */
  function Highest(elev: array2<real>, es: seq<Option<Node>>): (r: Option<Node>)
    reads elev
    requires Lodged(elev, es)
    ensures r.Some? ==> InGrid(elev, r.value)
    decreases |es|
  {
    if |es| <= 1 then None
    else
      var prev := Highest(elev, es[..|es| - 1]);
      var e := es[|es| - 1];
      if e.Some? && (prev.None? || Elev(elev, e.value) > Elev(elev, prev.value)) then e else prev
  }

  /** Highest finds nothing exactly when no escape after the first exists. */
  lemma {:induction false} HighestNoneIff(elev: array2<real>, es: seq<Option<Node>>)
    requires Lodged(elev, es)
    ensures Highest(elev, es).None? <==> forall i :: 0 < i < |es| ==> es[i].None?
    decreases |es|
  {
    if |es| > 1 {
      var n := |es| - 1;
      HighestNoneIff(elev, es[..n]);
      assert forall i :: 0 < i < n ==> es[..n][i] == es[i];
    }
  }

  /** What Highest finds is one of the escapes after the first. */
  lemma {:induction false} HighestIsAnEntry(elev: array2<real>, es: seq<Option<Node>>)
    requires Lodged(elev, es)
    ensures Highest(elev, es).Some? ==> exists i :: 0 < i < |es| && es[i] == Highest(elev, es)
    decreases |es|
  {
    if |es| > 1 {
      var n := |es| - 1;
      var prev := Highest(elev, es[..n]);
      if Highest(elev, es) == prev && prev.Some? {
        HighestIsAnEntry(elev, es[..n]);
        var i :| 0 < i < n && es[..n][i] == prev;
        assert es[i] == prev;
      }
    }
  }

  /** No escape after the first is higher than what Highest finds. */
  lemma {:induction false} HighestIsHighest(elev: array2<real>, es: seq<Option<Node>>, i: int)
    requires Lodged(elev, es) && 0 < i < |es|
    ensures es[i].Some? ==>
              Highest(elev, es).Some? && Elev(elev, es[i].value) <= Elev(elev, Highest(elev, es).value)
    decreases |es|
  {
    var n := |es| - 1;
    if i < n {
      HighestIsHighest(elev, es[..n], i);
      assert es[..n][i] == es[i];
    }
  }

  /**
   * The exit of a grown pool: the highest escape over the absorbed members,
   * the first one on ties; None when no absorbed member had an escape.
   */
  function ExitOf(elev: array2<real>, nv: array2<bool>, pool: seq<Node>): (r: Option<Node>)
    reads elev, nv
    requires Shaped(elev, nv)
    ensures r.Some? ==> InGrid(elev, r.value)
  {
    Highest(elev, Escapes(elev, nv, pool))
  }

  /** A pool has no exit exactly when none of its absorbed members had an escape. */
  lemma ExitNoneIff(elev: array2<real>, nv: array2<bool>, pool: seq<Node>)
    requires Shaped(elev, nv)
    ensures ExitOf(elev, nv, pool).None? <==> forall i :: 0 < i < |pool| ==> Escape(elev, nv, pool, i).None?
  {
    HighestNoneIff(elev, Escapes(elev, nv, pool));
    forall i | 0 < i < |pool| {
      EscapesAt(elev, nv, pool, i);
    }
  }

  /** No absorbed member's escape is higher than the exit, and a pool with an escape has an exit. */
  lemma ExitIsHighest(elev: array2<real>, nv: array2<bool>, pool: seq<Node>, i: int)
    requires Shaped(elev, nv) && 0 < i < |pool|
    ensures Escape(elev, nv, pool, i).Some? ==>
              ExitOf(elev, nv, pool).Some? &&
              Elev(elev, Escape(elev, nv, pool, i).value) <= Elev(elev, ExitOf(elev, nv, pool).value)
  {
    HighestIsHighest(elev, Escapes(elev, nv, pool), i);
    EscapesAt(elev, nv, pool, i);
  }

  /**
   * The exit is the escape of an absorbed member: a valid neighbour of that
   * member which was outside the pool when the member joined.
   */
  lemma ExitBesidePool(elev: array2<real>, nv: array2<bool>, pool: seq<Node>)
    requires Shaped(elev, nv)
    ensures ExitOf(elev, nv, pool).Some? ==>
              exists i :: 0 < i < |pool| && Escape(elev, nv, pool, i) == ExitOf(elev, nv, pool) &&
                ExitOf(elev, nv, pool).value in ValidNeighbours(nv, pool[i]) &&
                ExitOf(elev, nv, pool).value !in pool[..i]
  {
    var es := Escapes(elev, nv, pool);
    HighestIsAnEntry(elev, es);
    if ExitOf(elev, nv, pool).Some? {
      var i :| 0 < i < |es| && es[i] == Highest(elev, es);
      EscapesAt(elev, nv, pool, i);
      EscapeBeside(elev, nv, pool, i);
    }
  }

  /** The growth rule: a node off the border that is a pit among its neighbours outside the pool. */
  predicate Absorbable(elev: array2<real>, nv: array2<bool>, x: Node, pool: seq<Node>)
    reads elev, nv
    requires Shaped(elev, nv)
  {
    !TouchesBound(nv, x) && IsPitFor(elev, nv, x, Unabsorbed(nv, x, pool))
  }

  /** The running maximum of the growth loop: maxValue mirrors maxNode's elevation (None is -infinity). */
  predicate Tracks(elev: array2<real>, maxNode: Option<Node>, maxValue: Option<real>)
    reads elev
  {
    (maxNode.Some? <==> maxValue.Some?) &&
    (maxNode.Some? ==> InGrid(elev, maxNode.value) && maxValue.value == Elev(elev, maxNode.value))
  }

  /**
   * Growth of a pool from one pit.  A work list is walked by index; for each
   * member, its lowest un-absorbed neighbour decides: when there is none the
   * walk moves on, when it is not itself a pit among its un-absorbed
   * neighbours a drain has been found and growth stops, and otherwise every
   * un-absorbed neighbour off the border that is a pit among its own
   * un-absorbed neighbours joins the pool.  The exit is the highest escape of
   * the absorbed members or, for a pool of one, the pit's lowest neighbour;
   * None is the runtime exception of OmsDePitter.
   */
  method GrowPool(elev: array2<real>, nv: array2<bool>, pit: Node) returns (pool: seq<Node>, exit: Option<Node>)
    requires Shaped(elev, nv) && InGrid(nv, pit)
    ensures |pool| >= 1 && pool[0] == pit && Distinct(pool)
    ensures AllAbsorbed(elev, nv, pool) && Connected(pool)
    ensures |pool| <= nv.Length0 * nv.Length1
    ensures |pool| == 1 ==> exit == LowestNode(elev, ValidNeighbours(nv, pit))
    ensures |pool| > 1 ==> exit == ExitOf(elev, nv, pool)
    ensures GrowthDone(elev, nv, pool)
  {
    var maxValue, maxNode;
    ghost var parent, turn;
    pool, parent, maxNode, maxValue, turn := GrowAll(elev, nv, pit);
    ParentsConnect(pool, parent);
    if |pool| == 1 {
      var minNode := GetMinElevNode(elev, ValidNeighbours(nv, pit));
      // maxValue is still -infinity here, so the `> maxValue` test of OmsDePitter always passes
      if minNode.Some? {
        maxNode := minNode;
      } else {
        return pool, None;
      }
    }
    exit := maxNode;
  }

  /** The growth loop of GrowPool: the work list walked until it ends or drains. */
  method GrowAll(elev: array2<real>, nv: array2<bool>, pit: Node)
    returns (pool: seq<Node>, ghost parent: seq<int>, maxNode: Option<Node>, maxValue: Option<real>, ghost turn: seq<int>)
    requires Shaped(elev, nv) && InGrid(nv, pit)
    ensures Walked(elev, nv, pit, pool, parent, maxNode, maxValue, turn)
  {
    pool := [pit];
    parent := [0];
    turn := [1];
    maxValue := None;  // None stands for -infinity
    maxNode := None;
    WalkStarts(elev, nv, pit);
    var workingIndex := 0;
    while workingIndex < |pool|
      invariant 0 <= workingIndex <= |pool| <= nv.Length0 * nv.Length1 && |turn| == workingIndex + 1
      invariant Walking(elev, nv, pit, pool, parent, maxNode, maxValue, turn)
      decreases nv.Length0 * nv.Length1 - workingIndex
    {
      var drained;
      pool, parent, maxNode, maxValue, drained, turn := GrowTurn(elev, nv, pit, pool, parent, workingIndex, maxNode, maxValue, turn);
      if drained {
        WalkEnds(elev, nv, pit, pool, parent, maxNode, maxValue, turn, workingIndex);
        return;
      }
      workingIndex := workingIndex + 1;
    }
    WalkEnds(elev, nv, pit, pool, parent, maxNode, maxValue, turn, workingIndex);
  }

  /** The growth invariant at the end of the walk. */
  ghost predicate Walked(elev: array2<real>, nv: array2<bool>, pit: Node, pool: seq<Node>, parent: seq<int>,
                         maxNode: Option<Node>, maxValue: Option<real>, turn: seq<int>)
    reads elev, nv
    requires Shaped(elev, nv)
  {
    // bound to a name, so that a caller proves it as one fact
    var walked := Growing(elev, nv, pit, pool, parent, maxNode, maxValue) && Ended(elev, nv, pool, turn);
    walked
  }

  /** A walk whose cursor passed the last member, or stopped at a draining member, is over. */
  lemma WalkEnds(elev: array2<real>, nv: array2<bool>, pit: Node, pool: seq<Node>, parent: seq<int>,
                 maxNode: Option<Node>, maxValue: Option<real>, turn: seq<int>, w: int)
    requires Shaped(elev, nv) && Walking(elev, nv, pit, pool, parent, maxNode, maxValue, turn) && w == |turn| - 1
    requires w == |pool| || (w < |pool| && Drained(elev, nv, pool, w))
    ensures Walked(elev, nv, pit, pool, parent, maxNode, maxValue, turn)
  {
  }

  /** The walk starts with the pit alone, no turn taken and no exit. */
  lemma WalkStarts(elev: array2<real>, nv: array2<bool>, pit: Node)
    requires Shaped(elev, nv) && InGrid(nv, pit)
    ensures Walking(elev, nv, pit, [pit], [0], None, None, [1]) && 1 <= nv.Length0 * nv.Length1
  {
    assert Escapes(elev, nv, [pit]) == [Escape(elev, nv, [pit], 0)];
    DistinctInGridBound(nv, [pit]);
    WalkOn(elev, nv, pit, [pit], [0], None, None, [1]);
  }

  /** The growth invariant together with the completed turns of the work list. */
  ghost predicate Walking(elev: array2<real>, nv: array2<bool>, pit: Node, pool: seq<Node>, parent: seq<int>,
                          maxNode: Option<Node>, maxValue: Option<real>, turn: seq<int>)
    reads elev, nv
    requires Shaped(elev, nv)
  {
    // bound to a name, so that a caller proves it as one fact
    var walking := Growing(elev, nv, pit, pool, parent, maxNode, maxValue) && Explored(elev, nv, pool, turn);
    walking
  }

  /** One turn of GrowAll's loop: GrowStep at the cursor, whose turn is complete unless it drained. */
  method GrowTurn(elev: array2<real>, nv: array2<bool>, ghost pit: Node, found: seq<Node>, ghost parents: seq<int>,
                  workingIndex: int, maxNode0: Option<Node>, maxValue0: Option<real>, ghost turn0: seq<int>)
    returns (pool: seq<Node>, ghost parent: seq<int>, maxNode: Option<Node>, maxValue: Option<real>, drained: bool,
             ghost turn: seq<int>)
    requires Shaped(elev, nv) && 0 <= workingIndex < |found| && |turn0| == workingIndex + 1
    requires Walking(elev, nv, pit, found, parents, maxNode0, maxValue0, turn0)
    ensures Walking(elev, nv, pit, pool, parent, maxNode, maxValue, turn) && |found| <= |pool| <= nv.Length0 * nv.Length1
    ensures drained ==> turn == turn0 && pool == found && Drained(elev, nv, pool, workingIndex)
    ensures !drained ==> |turn| == workingIndex + 2
  {
    pool, parent, maxNode, maxValue, drained := GrowStep(elev, nv, pit, found, parents, workingIndex, maxNode0, maxValue0);
    if drained {
      turn := turn0;
    } else {
      ExploredStep(elev, nv, found, pool, turn0, workingIndex);
      turn := turn0 + [|pool|];
    }
    WalkOn(elev, nv, pit, pool, parent, maxNode, maxValue, turn);
  }

  /** The growth invariant and the completed turns, together. */
  lemma WalkOn(elev: array2<real>, nv: array2<bool>, pit: Node, pool: seq<Node>, parent: seq<int>,
               maxNode: Option<Node>, maxValue: Option<real>, turn: seq<int>)
    requires Shaped(elev, nv) && Growing(elev, nv, pit, pool, parent, maxNode, maxValue) && Explored(elev, nv, pool, turn)
    ensures Walking(elev, nv, pit, pool, parent, maxNode, maxValue, turn) && |pool| <= nv.Length0 * nv.Length1
  {
  }

  /** What holds of a pool at every stage of its growth from `pit`. */
  ghost predicate Growing(elev: array2<real>, nv: array2<bool>, pit: Node, pool: seq<Node>, parent: seq<int>,
                          maxNode: Option<Node>, maxValue: Option<real>)
    reads elev, nv
    requires Shaped(elev, nv)
  {
    // bound to a name, so that a caller proves it as one fact
    var growing :=
      |pool| >= 1 && pool[0] == pit &&
      Distinct(pool) && (forall m :: m in pool ==> InGrid(nv, m)) &&
      |pool| <= nv.Length0 * nv.Length1 &&
      AllAbsorbed(elev, nv, pool) && Parents(pool, parent) &&
      maxNode == ExitOf(elev, nv, pool) && Tracks(elev, maxNode, maxValue);
    growing
  }

  /**
   * One turn of the work list at `workingIndex`: nothing happens when the
   * member has no un-absorbed neighbour; `drained` reports that its lowest
   * un-absorbed neighbour drains elsewhere; otherwise the member's
   * un-absorbed neighbours are considered in order, each against the pool as
   * the earlier ones left it (AbsorbAll).
   */
  method GrowStep(elev: array2<real>, nv: array2<bool>, ghost pit: Node, found: seq<Node>, ghost parents: seq<int>,
                  workingIndex: int, maxNode0: Option<Node>, maxValue0: Option<real>)
    returns (pool: seq<Node>, ghost parent: seq<int>, maxNode: Option<Node>, maxValue: Option<real>, drained: bool)
    requires Shaped(elev, nv) && 0 <= workingIndex < |found|
    requires Growing(elev, nv, pit, found, parents, maxNode0, maxValue0)
    ensures Growing(elev, nv, pit, pool, parent, maxNode, maxValue) && found <= pool
    ensures drained ==> pool == found
    ensures drained <==> Drained(elev, nv, found, workingIndex)
    ensures !drained ==> pool == AbsorbAll(elev, nv, found, Unabsorbed(nv, found[workingIndex], found))
    ensures !drained ==> forall m :: m in pool ==> m in found || m in Unabsorbed(nv, found[workingIndex], found)
  {
    pool, parent, maxNode, maxValue, drained := found, parents, maxNode0, maxValue0, false;
    var current := found[workingIndex];
    var surroundingNodes := Unabsorbed(nv, current, found);
    var minNode := GetMinElevNode(elev, surroundingNodes);
    DrainedByLowest(elev, nv, found, workingIndex, minNode);
    if minNode.None? {
      StepIdle(elev, nv, found, workingIndex);
      return;
    }
    if !IsPitFor(elev, nv, minNode.value, Unabsorbed(nv, minNode.value, found)) {
      drained := true;
      return;
    }
    ValidNeighboursDistinct(nv, current);
    pool, parent, maxNode, maxValue := AbsorbAround(elev, nv, found, parents, workingIndex, surroundingNodes, maxNode, maxValue);
    DistinctInGridBound(nv, pool);
    StepGrown(elev, nv, pit, found, pool, parent, maxNode, maxValue);
  }

  /** Member `i` drains exactly when its lowest un-absorbed neighbour `low` is not a pit among its own. */
  lemma DrainedByLowest(elev: array2<real>, nv: array2<bool>, found: seq<Node>, i: int, low: Option<Node>)
    requires Shaped(elev, nv) && 0 <= i < |found|
    requires low == LowestNode(elev, Unabsorbed(nv, found[i], found))
    ensures Drained(elev, nv, found, i) <==> low.Some? && !IsPitFor(elev, nv, low.value, Unabsorbed(nv, low.value, found))
  {
  }

  /** A member without un-absorbed neighbours neither drains nor grows the pool. */
  lemma StepIdle(elev: array2<real>, nv: array2<bool>, found: seq<Node>, workingIndex: int)
    requires Shaped(elev, nv) && 0 <= workingIndex < |found|
    requires Unabsorbed(nv, found[workingIndex], found) == []
    ensures !Drained(elev, nv, found, workingIndex)
    ensures AbsorbAll(elev, nv, found, Unabsorbed(nv, found[workingIndex], found)) == found
  {
  }

  /** A pool grown at its end from a growing pool, with the invariant's parts re-established, is growing. */
  lemma StepGrown(elev: array2<real>, nv: array2<bool>, pit: Node, found: seq<Node>, pool: seq<Node>, parent: seq<int>,
                  maxNode: Option<Node>, maxValue: Option<real>)
    requires Shaped(elev, nv) && |found| >= 1 && found[0] == pit && found <= pool
    requires Distinct(pool) && (forall m :: m in pool ==> InGrid(nv, m)) && |pool| <= nv.Length0 * nv.Length1
    requires AllAbsorbed(elev, nv, pool) && Parents(pool, parent)
    requires maxNode == ExitOf(elev, nv, pool) && Tracks(elev, maxNode, maxValue)
    ensures Growing(elev, nv, pit, pool, parent, maxNode, maxValue)
  {
  }

  /**
   * One neighbour considered by the growth step: it joins the pool when it is
   * off the border and a pit among its neighbours outside the pool as it
   * stands at that moment.
   */
  function AbsorbStep(elev: array2<real>, nv: array2<bool>, pool: seq<Node>, x: Node): seq<Node>
    reads elev, nv
    requires Shaped(elev, nv)
  {
    if Absorbable(elev, nv, x, pool) then pool + [x] else pool
  }

  /**
   * The neighbours `around` considered in order by AbsorbStep, starting from
   * `pool`: the pool only grows at its end, and only by nodes of `around`.
   */
  function AbsorbAll(elev: array2<real>, nv: array2<bool>, pool: seq<Node>, around: seq<Node>): (r: seq<Node>)
    reads elev, nv
    requires Shaped(elev, nv)
    ensures pool <= r && forall m :: m in r ==> m in pool || m in around
    decreases |around|
  {
    if around == [] then pool
    else
      var n := |around| - 1;
      var prev := AbsorbAll(elev, nv, pool, around[..n]);
      assert forall m :: m in around[..n] ==> m in around;
      AbsorbStep(elev, nv, prev, around[n])
  }

  /** Considering one more neighbour is one more AbsorbStep. */
  lemma AbsorbAllNext(elev: array2<real>, nv: array2<bool>, pool: seq<Node>, around: seq<Node>, j: int)
    requires Shaped(elev, nv) && 0 <= j < |around|
    ensures AbsorbAll(elev, nv, pool, around[..j + 1]) == AbsorbStep(elev, nv, AbsorbAll(elev, nv, pool, around[..j]), around[j])
  {
    assert around[..j + 1][..j] == around[..j];
  }

  /**
   * A neighbour AbsorbAll leaves out was not absorbable against the pool it
   * started from either: a growing pool only makes absorption easier.
   */
  lemma {:induction false} LeftOutUnabsorbable(elev: array2<real>, nv: array2<bool>, pool: seq<Node>, around: seq<Node>, x: Node)
    requires Shaped(elev, nv) && x in around && x !in AbsorbAll(elev, nv, pool, around)
    ensures !Absorbable(elev, nv, x, pool)
    decreases |around|
  {
    var n := |around| - 1;
    var prev := AbsorbAll(elev, nv, pool, around[..n]);
    assert around == around[..n] + [around[n]];
    if x in around[..n] {
      LeftOutUnabsorbable(elev, nv, pool, around[..n], x);
    } else {
      assert forall m :: m in pool ==> m in prev;
      IsPitForFewer(elev, nv, x, pool, prev);
    }
  }

  /**
   * The turn of member i began with the first t members and ended with the
   * first u: its lowest un-absorbed neighbour did not drain, and its
   * un-absorbed neighbours at the start, considered in order, grew pool[..t]
   * into pool[..u].
   */
  ghost predicate TurnDone(elev: array2<real>, nv: array2<bool>, pool: seq<Node>, i: int, t: int, u: int)
    reads elev, nv
    requires Shaped(elev, nv) && 0 <= i < t <= u <= |pool|
  {
    !Drained(elev, nv, pool[..t], i) &&
    pool[..u] == AbsorbAll(elev, nv, pool[..t], Unabsorbed(nv, pool[i], pool[..t]))
  }

  /**
   * Members 0 .. |turn| - 2 have had their turns, in order: the walk began
   * with the pit alone, member i's turn began with turn[i] members and ended
   * with turn[i + 1], and the last entry is the size of the pool now.
   */
  ghost predicate Explored(elev: array2<real>, nv: array2<bool>, pool: seq<Node>, turn: seq<int>)
    reads elev, nv
    requires Shaped(elev, nv)
  {
    // bound to a name, so that a caller proves it as one fact
    var explored :=
      |turn| >= 1 && |pool| >= 1 && turn[0] == 1 && turn[|turn| - 1] == |pool| &&
      (forall i :: 0 <= i < |turn| ==> 1 <= turn[i] <= |pool|) &&
      forall i :: 0 <= i < |turn| - 1 ==> TurnAt(elev, nv, pool, turn, i);
    explored
  }

  /** Member i's turn, recorded in `turn`, is complete. */
  ghost predicate TurnAt(elev: array2<real>, nv: array2<bool>, pool: seq<Node>, turn: seq<int>, i: int)
    reads elev, nv
    requires Shaped(elev, nv) && 0 <= i < |turn| - 1
  {
    i < turn[i] <= turn[i + 1] <= |pool| && TurnDone(elev, nv, pool, i, turn[i], turn[i + 1])
  }

  /** The lowest un-absorbed neighbour of member i is not a pit among its own un-absorbed neighbours: a drain. */
  ghost predicate Drained(elev: array2<real>, nv: array2<bool>, pool: seq<Node>, i: int)
    reads elev, nv
    requires Shaped(elev, nv) && 0 <= i < |pool|
  {
    var low := LowestNode(elev, Unabsorbed(nv, pool[i], pool));
    // bound to a name, so that a caller proves it as one fact
    var drained := low.Some? && !IsPitFor(elev, nv, low.value, Unabsorbed(nv, low.value, pool));
    drained
  }

  /**
   * Growth ran to its end: either every member had its turn, or the members
   * before some member had theirs and that member found a drain.
   */
  ghost predicate GrowthDone(elev: array2<real>, nv: array2<bool>, pool: seq<Node>)
    reads elev, nv
    requires Shaped(elev, nv)
  {
    exists turn :: Ended(elev, nv, pool, turn)
  }

  /** The walk recorded in `turn` is over: it ran past the last member, or the member at its cursor drained. */
  ghost predicate Ended(elev: array2<real>, nv: array2<bool>, pool: seq<Node>, turn: seq<int>)
    reads elev, nv
    requires Shaped(elev, nv)
  {
    // bound to a name, so that a caller proves it as one fact
    var ended :=
      Explored(elev, nv, pool, turn) &&
      (|turn| - 1 == |pool| || (|turn| - 1 < |pool| && Drained(elev, nv, pool, |turn| - 1)));
    ended
  }

  /** A step that found no drain completes the turn of the member at the cursor. */
  lemma ExploredStep(elev: array2<real>, nv: array2<bool>, found: seq<Node>, pool: seq<Node>, turn: seq<int>, w: int)
    requires Shaped(elev, nv) && Explored(elev, nv, found, turn) && found <= pool && w == |turn| - 1 && w < |found|
    requires !Drained(elev, nv, found, w)
    requires pool == AbsorbAll(elev, nv, found, Unabsorbed(nv, found[w], found))
    ensures Explored(elev, nv, pool, turn + [|pool|])
  {
    var next := turn + [|pool|];
    forall i | 0 <= i < |next| - 1
      ensures TurnAt(elev, nv, pool, next, i)
    {
      if i < w {
        assert next[i] == turn[i] && next[i + 1] == turn[i + 1];
        TurnKept(elev, nv, found, pool, turn, next, i);
      } else {
        TurnClosed(elev, nv, found, pool, turn, next, w);
      }
    }
  }

  /** A completed turn stays complete when the pool grows at its end. */
  lemma TurnKept(elev: array2<real>, nv: array2<bool>, found: seq<Node>, pool: seq<Node>, turn: seq<int>, next: seq<int>, i: int)
    requires Shaped(elev, nv) && found <= pool && 0 <= i < |turn| - 1 && TurnAt(elev, nv, found, turn, i)
    requires i < |next| - 1 && next[i] == turn[i] && next[i + 1] == turn[i + 1]
    ensures TurnAt(elev, nv, pool, next, i)
  {
    assert pool[..turn[i]] == found[..turn[i]] && pool[..turn[i + 1]] == found[..turn[i + 1]] && pool[i] == found[i];
  }

  /** The step at the cursor, which found no drain, is the cursor's completed turn. */
  lemma TurnClosed(elev: array2<real>, nv: array2<bool>, found: seq<Node>, pool: seq<Node>, turn: seq<int>, next: seq<int>, w: int)
    requires Shaped(elev, nv) && Explored(elev, nv, found, turn) && found <= pool && w == |turn| - 1 && w < |found|
    requires !Drained(elev, nv, found, w)
    requires pool == AbsorbAll(elev, nv, found, Unabsorbed(nv, found[w], found))
    requires next == turn + [|pool|]
    ensures TurnAt(elev, nv, pool, next, w)
  {
    assert pool[..|found|] == found && pool[w] == found[w] && pool[..|pool|] == pool;
  }

  /**
   * Growth from a pit is determined: two pools grown to the end of their
   * growth from the same pit are the same pool.
   */
  lemma GrowthDetermined(elev: array2<real>, nv: array2<bool>, a: seq<Node>, b: seq<Node>)
    requires Shaped(elev, nv) && |a| >= 1 && |b| >= 1 && a[0] == b[0]
    requires GrowthDone(elev, nv, a) && GrowthDone(elev, nv, b)
    ensures a == b
  {
    var ta :| Ended(elev, nv, a, ta);
    var tb :| Ended(elev, nv, b, tb);
    WalksAgree(elev, nv, a, b, ta, tb);
  }

  /** Two walks from the same pit that are over have grown the same pool. */
  lemma WalksAgree(elev: array2<real>, nv: array2<bool>, a: seq<Node>, b: seq<Node>, ta: seq<int>, tb: seq<int>)
    requires Shaped(elev, nv) && Ended(elev, nv, a, ta) && Ended(elev, nv, b, tb) && a[0] == b[0]
    ensures a == b
  {
    NoWalkStopsFirst(elev, nv, a, b, ta, tb);
    NoWalkStopsFirst(elev, nv, b, a, tb, ta);
    var k := |ta| - 1;
    EndedTail(elev, nv, a, ta, k);
    EndedTail(elev, nv, b, tb, k);
    SameTurns(elev, nv, a, b, ta, tb, k);
  }

  /**
   * A walk that is over took at least as many turns as any other walk from
   * the same pit: where it stopped, the other could not have gone on.
   */
  lemma NoWalkStopsFirst(elev: array2<real>, nv: array2<bool>, a: seq<Node>, b: seq<Node>, ta: seq<int>, tb: seq<int>)
    requires Shaped(elev, nv) && Ended(elev, nv, a, ta) && Explored(elev, nv, b, tb) && a[0] == b[0]
    ensures |tb| <= |ta|
  {
    var k := |ta| - 1;
    EndedTail(elev, nv, a, ta, k);
    if k < |tb| - 1 {
      SameTurns(elev, nv, a, b, ta, tb, k);
      TurnGoesOn(elev, nv, b, tb, k);
      assert false;
    }
  }

  /** Where a walk ended (k is its last turn): the whole pool, having passed the last member or stopped at a drain. */
  lemma EndedTail(elev: array2<real>, nv: array2<bool>, pool: seq<Node>, turn: seq<int>, k: int)
    requires Shaped(elev, nv) && Ended(elev, nv, pool, turn) && k == |turn| - 1
    ensures 0 <= k && turn[k] == |pool| && pool[..turn[k]] == pool
    ensures k == |pool| || (k < |pool| && Drained(elev, nv, pool, k))
  {
    assert pool[..|pool|] == pool;
  }

  /** A completed turn did not start at a drain and started past its member. */
  lemma TurnGoesOn(elev: array2<real>, nv: array2<bool>, pool: seq<Node>, turn: seq<int>, k: int)
    requires Shaped(elev, nv) && Explored(elev, nv, pool, turn) && 0 <= k < |turn| - 1
    ensures k < turn[k] <= |pool| && !Drained(elev, nv, pool[..turn[k]], k)
  {
    assert TurnAt(elev, nv, pool, turn, k);
  }

  /** Two walks from the same pit agree turn by turn. */
  lemma {:induction false} SameTurns(elev: array2<real>, nv: array2<bool>, a: seq<Node>, b: seq<Node>,
                                     ta: seq<int>, tb: seq<int>, k: int)
    requires Shaped(elev, nv) && Explored(elev, nv, a, ta) && Explored(elev, nv, b, tb) && a[0] == b[0]
    requires 0 <= k < |ta| && k < |tb|
    ensures ta[k] == tb[k] && ta[k] <= |a| && tb[k] <= |b| && a[..ta[k]] == b[..tb[k]]
    decreases k
  {
    if k == 0 {
      assert a[..1] == [a[0]] && b[..1] == [b[0]];
    } else {
      var i := k - 1;
      SameTurns(elev, nv, a, b, ta, tb, i);
      assert TurnAt(elev, nv, a, ta, i) && TurnAt(elev, nv, b, tb, i);
      var p := a[..ta[i]];
      assert a[i] == p[i] && b[i] == b[..tb[i]][i];
    }
  }

  /** A ghost record of which earlier member each member was absorbed beside. */
  ghost predicate Parents(pool: seq<Node>, parent: seq<int>) {
    |parent| == |pool| &&
    forall i :: 0 < i < |pool| ==> 0 <= parent[i] < i && Adjacent(pool[parent[i]], pool[i])
  }

  lemma ParentsConnect(pool: seq<Node>, parent: seq<int>)
    requires Parents(pool, parent)
    ensures Connected(pool)
  {
    forall i | 0 < i < |pool|
      ensures TouchesEarlier(pool, i)
    {
      var j := parent[i];
      assert 0 <= j < i && Adjacent(pool[j], pool[i]);
    }
  }

  /**
   * The inner step of growth: the nodes of `around` (the un-absorbed
   * neighbours of the member at workingIndex) are considered in order, each
   * joining the pool when it is off the border and a pit among its neighbours
   * outside the pool as it stands then; the running maximum of escapes is
   * updated with each new member's lowest un-absorbed neighbour.
   */
  method AbsorbAround(elev: array2<real>, nv: array2<bool>, found: seq<Node>, ghost parents: seq<int>,
                      workingIndex: int, around: seq<Node>, maxNode0: Option<Node>, maxValue0: Option<real>)
    returns (pool: seq<Node>, ghost parent: seq<int>, maxNode: Option<Node>, maxValue: Option<real>)
    requires Shaped(elev, nv) && 0 <= workingIndex < |found|
    requires around == Unabsorbed(nv, found[workingIndex], found) && Distinct(around)
    requires Distinct(found) && forall m :: m in found ==> InGrid(nv, m)
    requires AllAbsorbed(elev, nv, found) && Parents(found, parents)
    requires maxNode0 == ExitOf(elev, nv, found) && Tracks(elev, maxNode0, maxValue0)
    ensures pool == AbsorbAll(elev, nv, found, around)
    ensures forall m :: m in pool ==> m in found || m in around
    ensures forall k :: 0 <= k < |around| ==> around[k] in pool || !Absorbable(elev, nv, around[k], found)
    ensures Distinct(pool) && forall m :: m in pool ==> InGrid(nv, m)
    ensures AllAbsorbed(elev, nv, pool) && Parents(pool, parent)
    ensures maxNode == ExitOf(elev, nv, pool) && Tracks(elev, maxNode, maxValue)
  {
    pool, parent, maxNode, maxValue := found, parents, maxNode0, maxValue0;
    assert around[..0] == [];
    for j := 0 to |around|
      invariant Absorbing(elev, nv, found, around, j, pool, parent, maxNode, maxValue)
    {
      pool, parent, maxNode, maxValue := AbsorbNext(elev, nv, found, workingIndex, around, j, pool, parent, maxNode, maxValue);
    }
    assert around[..|around|] == around;
    forall k | 0 <= k < |around| && around[k] !in pool
      ensures !Absorbable(elev, nv, around[k], found)
    {
      LeftOutUnabsorbable(elev, nv, found, around, around[k]);
    }
  }

  /**
   * What holds after the first j neighbours of AbsorbAround: the pool is
   * AbsorbAll of them, the later ones are not yet in it, and the growth
   * invariant and running maximum are kept.
   */
  ghost predicate Absorbing(elev: array2<real>, nv: array2<bool>, found: seq<Node>, around: seq<Node>, j: int,
                            pool: seq<Node>, parent: seq<int>, maxNode: Option<Node>, maxValue: Option<real>)
    reads elev, nv
    requires Shaped(elev, nv) && 0 <= j <= |around|
  {
    // bound to a name, so that a caller proves it as one fact
    var absorbing :=
      pool == AbsorbAll(elev, nv, found, around[..j]) &&
      (forall m :: m in pool ==> m in found || m in around) &&
      (forall k :: j <= k < |around| ==> around[k] !in pool) &&
      Distinct(pool) && (forall m :: m in pool ==> InGrid(nv, m)) &&
      AllAbsorbed(elev, nv, pool) && Parents(pool, parent) &&
      maxNode == ExitOf(elev, nv, pool) && Tracks(elev, maxNode, maxValue);
    absorbing
  }

  /**
   * The j-th neighbour of AbsorbAround: it joins the pool exactly when it is
   * off the border and a pit among its neighbours outside the pool as it
   * stands now, grown by the neighbours before it.
   */
  method AbsorbNext(elev: array2<real>, nv: array2<bool>, found: seq<Node>, workingIndex: int, around: seq<Node>, j: int,
                    pool0: seq<Node>, ghost parent0: seq<int>, maxNode0: Option<Node>, maxValue0: Option<real>)
    returns (pool: seq<Node>, ghost parent: seq<int>, maxNode: Option<Node>, maxValue: Option<real>)
    requires Shaped(elev, nv) && 0 <= workingIndex < |found| && 0 <= j < |around|
    requires around == Unabsorbed(nv, found[workingIndex], found) && Distinct(around)
    requires Absorbing(elev, nv, found, around, j, pool0, parent0, maxNode0, maxValue0)
    ensures pool == if !TouchesBound(nv, around[j]) && IsPitFor(elev, nv, around[j], Unabsorbed(nv, around[j], pool0))
                    then pool0 + [around[j]] else pool0
    ensures Absorbing(elev, nv, found, around, j + 1, pool, parent, maxNode, maxValue)
  {
    pool, parent, maxNode, maxValue := pool0, parent0, maxNode0, maxValue0;
    var tmpNode := around[j];
    if TouchesBound(nv, tmpNode) {
      AbsorbingSkip(elev, nv, found, around, j, pool, parent, maxNode, maxValue);
      return;
    }
    var subSurroundingNodes := Unabsorbed(nv, tmpNode, pool);
    if IsPitFor(elev, nv, tmpNode, subSurroundingNodes) {
      assert tmpNode !in pool;
      pool, parent, maxNode, maxValue := AbsorbOne(elev, nv, pool, parent, workingIndex, tmpNode, maxNode, maxValue);
      AbsorbingTake(elev, nv, found, around, j, pool0, parent0, maxNode0, maxValue0, pool, parent, maxNode, maxValue);
    } else {
      AbsorbingSkip(elev, nv, found, around, j, pool, parent, maxNode, maxValue);
    }
  }

  /** A neighbour that is not absorbable leaves the pool as it is and moves the cursor on. */
  lemma AbsorbingSkip(elev: array2<real>, nv: array2<bool>, found: seq<Node>, around: seq<Node>, j: int,
                      pool: seq<Node>, parent: seq<int>, maxNode: Option<Node>, maxValue: Option<real>)
    requires Shaped(elev, nv) && 0 <= j < |around|
    requires Absorbing(elev, nv, found, around, j, pool, parent, maxNode, maxValue)
    requires !Absorbable(elev, nv, around[j], pool)
    ensures Absorbing(elev, nv, found, around, j + 1, pool, parent, maxNode, maxValue)
  {
    AbsorbAllNext(elev, nv, found, around, j);
  }

  /** An absorbable neighbour appended to the pool moves the cursor on. */
  lemma AbsorbingTake(elev: array2<real>, nv: array2<bool>, found: seq<Node>, around: seq<Node>, j: int,
                      pool0: seq<Node>, parent0: seq<int>, maxNode0: Option<Node>, maxValue0: Option<real>,
                      pool: seq<Node>, parent: seq<int>, maxNode: Option<Node>, maxValue: Option<real>)
    requires Shaped(elev, nv) && 0 <= j < |around| && Distinct(around)
    requires Absorbing(elev, nv, found, around, j, pool0, parent0, maxNode0, maxValue0)
    requires Absorbable(elev, nv, around[j], pool0) && pool == pool0 + [around[j]]
    requires Distinct(pool) && (forall m :: m in pool ==> InGrid(nv, m))
    requires AllAbsorbed(elev, nv, pool) && Parents(pool, parent)
    requires maxNode == ExitOf(elev, nv, pool) && Tracks(elev, maxNode, maxValue)
    ensures Absorbing(elev, nv, found, around, j + 1, pool, parent, maxNode, maxValue)
  {
    AbsorbAllNext(elev, nv, found, around, j);
  }

  /**
   * Absorbing one node: it is appended to the pool and its lowest un-absorbed
   * neighbour, when higher than the best escape so far, becomes the exit.
   */
  method AbsorbOne(elev: array2<real>, nv: array2<bool>, found: seq<Node>, ghost parents: seq<int>, workingIndex: int,
                   tmpNode: Node, maxNode0: Option<Node>, maxValue0: Option<real>)
    returns (pool: seq<Node>, ghost parent: seq<int>, maxNode: Option<Node>, maxValue: Option<real>)
    requires Shaped(elev, nv) && 0 <= workingIndex < |found| && Adjacent(found[workingIndex], tmpNode)
    requires Distinct(found) && forall m :: m in found ==> InGrid(nv, m)
    requires AllAbsorbed(elev, nv, found) && Parents(found, parents)
    requires maxNode0 == ExitOf(elev, nv, found) && Tracks(elev, maxNode0, maxValue0)
    requires tmpNode !in found && !TouchesBound(nv, tmpNode)
    requires IsPitFor(elev, nv, tmpNode, Unabsorbed(nv, tmpNode, found))
    ensures pool == found + [tmpNode]
    ensures Distinct(pool) && forall m :: m in pool ==> InGrid(nv, m)
    ensures AllAbsorbed(elev, nv, pool) && Parents(pool, parent)
    ensures maxNode == ExitOf(elev, nv, pool) && Tracks(elev, maxNode, maxValue)
  {
    var subSurroundingNodes := Unabsorbed(nv, tmpNode, found);
    AppendAbsorbed(elev, nv, found, tmpNode);
    AppendParent(found, parents, workingIndex, tmpNode);
    AppendDistinct(found, tmpNode);
    pool, parent := found + [tmpNode], parents + [workingIndex];
    maxNode, maxValue := RaiseExit(elev, subSurroundingNodes, maxNode0, maxValue0);
  }

  /**
   * The running maximum after a new member: the lowest of its un-absorbed
   * neighbours `sub` replaces the exit when it lies strictly higher.
   */
  method RaiseExit(elev: array2<real>, sub: seq<Node>, maxNode0: Option<Node>, maxValue0: Option<real>)
    returns (maxNode: Option<Node>, maxValue: Option<real>)
    requires (forall m :: m in sub ==> InGrid(elev, m)) && Tracks(elev, maxNode0, maxValue0)
    ensures Tracks(elev, maxNode, maxValue)
    ensures var e := LowestNode(elev, sub);
            maxNode == if e.Some? && (maxNode0.None? || Elev(elev, e.value) > Elev(elev, maxNode0.value)) then e else maxNode0
  {
    maxNode, maxValue := maxNode0, maxValue0;
    var subMinNode := GetMinElevNode(elev, sub);
    if subMinNode.Some? && (maxValue.None? || Elev(elev, subMinNode.value) > maxValue.value) {
      maxValue := Some(Elev(elev, subMinNode.value));
      maxNode := subMinNode;
    }
  }

  /** Membership in a growing prefix. */
  lemma SliceStep(s: seq<Node>, j: int)
    requires 0 <= j < |s|
    ensures forall m :: m in s[..j + 1] <==> m in s[..j] || m == s[j]
  {
    assert s[..j + 1] == s[..j] + [s[j]];
  }

  /** Appending a node that passes the growth rule keeps every member legitimately absorbed and moves the exit by its escape. */
  lemma AppendAbsorbed(elev: array2<real>, nv: array2<bool>, pool: seq<Node>, x: Node)
    requires Shaped(elev, nv) && |pool| >= 1 && AllAbsorbed(elev, nv, pool)
    requires !TouchesBound(nv, x) && IsPitFor(elev, nv, x, Unabsorbed(nv, x, pool))
    ensures AllAbsorbed(elev, nv, pool + [x])
    ensures var e := LowestNode(elev, Unabsorbed(nv, x, pool));
            var prev := ExitOf(elev, nv, pool);
            ExitOf(elev, nv, pool + [x]) ==
              if e.Some? && (prev.None? || Elev(elev, e.value) > Elev(elev, prev.value)) then e else prev
  {
    var p := pool + [x];
    assert p[..|pool|] == pool && p[|pool|] == x;
    forall i | 0 < i < |pool|
      ensures Absorbed(elev, nv, p, i)
    {
      assert Absorbed(elev, nv, pool, i);
      assert p[..i] == pool[..i] && p[i] == pool[i];
    }
    assert Escape(elev, nv, p, |pool|) == LowestNode(elev, Unabsorbed(nv, x, pool));
    var es := Escapes(elev, nv, p);
    assert es == Escapes(elev, nv, pool) + [Escape(elev, nv, p, |pool|)];
    assert es[..|pool|] == Escapes(elev, nv, pool);
  }

  lemma AppendParent(pool: seq<Node>, parent: seq<int>, w: int, x: Node)
    requires Parents(pool, parent) && 0 <= w < |pool| && Adjacent(pool[w], x)
    ensures Parents(pool + [x], parent + [w])
  {
  }

  /** Fewer un-absorbed neighbours make a pit more easily: growth of the pool only helps a node pass the rule. */
  lemma IsPitForFewer(elev: array2<real>, nv: array2<bool>, x: Node, smaller: seq<Node>, larger: seq<Node>)
    requires Shaped(elev, nv)
    requires forall m :: m in smaller ==> m in larger
    ensures IsPitFor(elev, nv, x, Unabsorbed(nv, x, smaller)) ==> IsPitFor(elev, nv, x, Unabsorbed(nv, x, larger))
  {
  }

  // ---------------------------------------------------------------- one round

  /** The cells of all pools, in order: allNodesInPit of OmsDePitter.process. */
  function Members(infos: seq<PitInfo>): (r: seq<Node>)
    ensures forall k, m :: 0 <= k < |infos| && m in infos[k].nodes ==> m in r
    decreases |infos|
  {
    if infos == [] then []
    else
      var init := infos[..|infos| - 1];
      assert forall k :: 0 <= k < |init| ==> init[k] == infos[k];
      Members(init) + infos[|infos| - 1].nodes
  }

  /** A pool as growth leaves it: legitimately absorbed, connected, with an exit on the raster whose elevation it records. */
  ghost predicate Grown(elev: array2<real>, nv: array2<bool>, info: PitInfo)
    reads elev, nv
    requires Shaped(elev, nv)
  {
    var pool := info.nodes;
    |pool| >= 1 && Distinct(pool) && AllAbsorbed(elev, nv, pool) && Connected(pool) && GrowthDone(elev, nv, pool) &&
    InGrid(elev, info.exit) && info.exitElev == Elev(elev, info.exit) &&
    (|pool| == 1 ==> Some(info.exit) == LowestNode(elev, ValidNeighbours(nv, pool[0]))) &&
    (|pool| > 1 ==> Some(info.exit) == ExitOf(elev, nv, pool))
  }

  /**
   * The pools of a round so far: each grown, each started from a candidate,
   * and none started from a cell an earlier pool of the round had taken.
   */
  ghost predicate Resolved(elev: array2<real>, nv: array2<bool>, pits: seq<Node>, infos: seq<PitInfo>)
    reads elev, nv
    requires Shaped(elev, nv)
  {
    forall q :: 0 <= q < |infos| ==>
      Grown(elev, nv, infos[q]) && infos[q].nodes[0] in pits && infos[q].nodes[0] !in Members(infos[..q])
  }

  lemma ResolvedAppend(elev: array2<real>, nv: array2<bool>, pits: seq<Node>, infos: seq<PitInfo>, info: PitInfo)
    requires Shaped(elev, nv) && Resolved(elev, nv, pits, infos)
    requires Grown(elev, nv, info) && info.nodes[0] in pits && info.nodes[0] !in Members(infos)
    ensures Resolved(elev, nv, pits, infos + [info])
    ensures Members(infos + [info]) == Members(infos) + info.nodes
  {
    var next := infos + [info];
    assert next[..|infos|] == infos;
    forall q | 0 <= q < |next|
      ensures Grown(elev, nv, next[q]) && next[q].nodes[0] in pits && next[q].nodes[0] !in Members(next[..q])
    {
      if q < |infos| {
        assert next[q] == infos[q] && next[..q] == infos[..q];
      }
    }
  }

  /** Every one of the first k candidates lies in one of the pools. */
  predicate AllTaken(pits: seq<Node>, k: int, members: seq<Node>)
    requires 0 <= k <= |pits|
  {
    forall i :: 0 <= i < k ==> pits[i] in members
  }

  /** When all candidates are taken, each of them lies in the pools. */
  lemma AllTakenAll(pits: seq<Node>, members: seq<Node>)
    requires AllTaken(pits, |pits|, members)
    ensures forall p :: p in pits ==> p in members
  {
  }

  lemma AllTakenGrow(pits: seq<Node>, k: int, members: seq<Node>, more: seq<Node>)
    requires 0 <= k < |pits| && AllTaken(pits, k, members) && pits[k] in members + more
    ensures AllTaken(pits, k + 1, members + more)
  {
  }

  /**
   * A pool grown from `pit` to the end of its growth that has no exit: the pit
   * has no valid neighbour, or no absorbed member of the pool has an escape.
   */
  ghost predicate Spent(elev: array2<real>, nv: array2<bool>, pit: Node, pool: seq<Node>)
    reads elev, nv
    requires Shaped(elev, nv)
  {
    // bound to a name, so that a caller proves it as one fact
    var spent :=
      |pool| >= 1 && pool[0] == pit && Distinct(pool) && AllAbsorbed(elev, nv, pool) && Connected(pool) &&
      GrowthDone(elev, nv, pool) &&
      ((|pool| == 1 && ValidNeighbours(nv, pit) == []) || (|pool| > 1 && ExitOf(elev, nv, pool).None?));
    spent
  }

  /**
   * The pools were started in list order: pool q from candidate starts[q],
   * the start indices strictly increase, and every candidate before a start
   * already lay in an earlier pool.
   */
  ghost predicate InOrder(pits: seq<Node>, infos: seq<PitInfo>, starts: seq<int>) {
    |starts| == |infos| &&
    (forall q :: 0 <= q < |infos| ==>
       0 <= starts[q] < |pits| && |infos[q].nodes| >= 1 && infos[q].nodes[0] == pits[starts[q]] &&
       AllTaken(pits, starts[q], Members(infos[..q]))) &&
    forall q, p :: 0 <= q < p < |infos| ==> starts[q] < starts[p]
  }

  lemma InOrderAppend(pits: seq<Node>, infos: seq<PitInfo>, starts: seq<int>, info: PitInfo, k: int)
    requires InOrder(pits, infos, starts) && forall q :: 0 <= q < |starts| ==> starts[q] < k
    requires 0 <= k < |pits| && |info.nodes| >= 1 && info.nodes[0] == pits[k] && AllTaken(pits, k, Members(infos))
    ensures InOrder(pits, infos + [info], starts + [k])
  {
    var next := infos + [info];
    assert next[..|infos|] == infos;
    forall q | 0 <= q < |infos|
      ensures next[..q] == infos[..q]
    {
    }
  }

  /**
   * One round of pool resolution: the candidates are taken in list order, and
   * each one not already inside a pool of this round grows its own pool,
   * recorded with its exit and the exit's elevation; the round fails on the
   * first pool without an exit.  `done` holds the pools recorded before the
   * round ended, `starts` the candidates they grew from, and `allNodesInPit`
   * their cells.  On success every candidate lies in some pool.  On failure,
   * candidate `stop` is the failing pit: every candidate before it was taken,
   * every recorded pool started before it, and `failed` is its pool, complete
   * and without an exit.
   */
  method ResolvePits(elev: array2<real>, nv: array2<bool>, pits: seq<Node>)
    returns (r: Outcome<seq<PitInfo>>, allNodesInPit: seq<Node>, ghost done: seq<PitInfo>, ghost starts: seq<int>,
             ghost stop: int, ghost failed: seq<Node>)
    requires Shaped(elev, nv) && forall p :: p in pits ==> InGrid(nv, p)
    ensures 0 <= stop <= |pits| && Resolving(elev, nv, pits, stop, done, starts, allNodesInPit)
    ensures r.Ok? ==> r.value == done && stop == |pits|
    ensures r.Fail? ==> r.error.NoDrain? && stop < |pits| && r.error.pit == pits[stop]
    ensures r.Fail? ==> r.error.pit !in allNodesInPit && Spent(elev, nv, r.error.pit, failed)
  {
    var pitInfoList: seq<PitInfo> := [];
    allNodesInPit := [];
    starts := [];
    var k := 0;
    while k < |pits|
      invariant 0 <= k <= |pits| && Resolving(elev, nv, pits, k, pitInfoList, starts, allNodesInPit)
    {
      var ok;
      ok, pitInfoList, starts, allNodesInPit, failed := ResolveNext(elev, nv, pits, k, pitInfoList, starts, allNodesInPit);
      if !ok {
        return Fail(NoDrain(pits[k])), allNodesInPit, pitInfoList, starts, k, failed;
      }
      k := k + 1;
    }
    r, done, stop, failed := Ok(pitInfoList), pitInfoList, k, [];
  }

  /** What holds after the first k candidates of a round. */
  ghost predicate Resolving(elev: array2<real>, nv: array2<bool>, pits: seq<Node>, k: int,
                            infos: seq<PitInfo>, starts: seq<int>, allNodesInPit: seq<Node>)
    reads elev, nv
    requires Shaped(elev, nv) && 0 <= k <= |pits|
  {
    // bound to a name, so that a caller proves it as one fact
    var resolving := Resolved(elev, nv, pits, infos) && allNodesInPit == Members(infos) &&
      InOrder(pits, infos, starts) && (forall q :: 0 <= q < |starts| ==> starts[q] < k) &&
      AllTaken(pits, k, allNodesInPit);
    resolving
  }

  /**
   * Candidate k of a round: skipped when a pool of the round already holds
   * it, otherwise its pool is grown and recorded.  `ok` is false exactly
   * when that pool has no exit; then nothing is recorded and `failed` is the
   * pool.
   */
  method ResolveNext(elev: array2<real>, nv: array2<bool>, pits: seq<Node>, k: int,
                     infos0: seq<PitInfo>, ghost starts0: seq<int>, all0: seq<Node>)
    returns (ok: bool, infos: seq<PitInfo>, ghost starts: seq<int>, allNodesInPit: seq<Node>, ghost failed: seq<Node>)
    requires Shaped(elev, nv) && forall p :: p in pits ==> InGrid(nv, p)
    requires 0 <= k < |pits| && Resolving(elev, nv, pits, k, infos0, starts0, all0)
    ensures ok ==> Resolving(elev, nv, pits, k + 1, infos, starts, allNodesInPit)
    ensures !ok ==> infos == infos0 && starts == starts0 && allNodesInPit == all0
    ensures !ok ==> pits[k] !in all0 && Spent(elev, nv, pits[k], failed)
  {
    ok, infos, starts, allNodesInPit, failed := true, infos0, starts0, all0, [];
    var originalPitNode := pits[k];
    if originalPitNode in allNodesInPit {
      ResolvingSkip(elev, nv, pits, k, infos, starts, allNodesInPit);
      return;
    }
    var nodesInPit, exit := GrowPool(elev, nv, originalPitNode);
    if exit.None? {
      return false, infos, starts, allNodesInPit, nodesInPit;
    }
    var info := PitInfo(exit.value, Elev(elev, exit.value), nodesInPit);
    ResolvingTake(elev, nv, pits, k, infos, starts, allNodesInPit, info);
    infos := infos + [info];
    starts := starts + [k];
    allNodesInPit := allNodesInPit + nodesInPit;
  }

  /** A candidate already inside a pool of the round changes nothing. */
  lemma ResolvingSkip(elev: array2<real>, nv: array2<bool>, pits: seq<Node>, k: int,
                      infos: seq<PitInfo>, starts: seq<int>, all: seq<Node>)
    requires Shaped(elev, nv) && 0 <= k < |pits| && Resolving(elev, nv, pits, k, infos, starts, all) && pits[k] in all
    ensures Resolving(elev, nv, pits, k + 1, infos, starts, all)
  {
    AllTakenGrow(pits, k, all, []);
    assert all + [] == all;
  }

  /** A candidate outside the pools of the round, whose grown pool is recorded. */
  lemma ResolvingTake(elev: array2<real>, nv: array2<bool>, pits: seq<Node>, k: int,
                      infos: seq<PitInfo>, starts: seq<int>, all: seq<Node>, info: PitInfo)
    requires Shaped(elev, nv) && 0 <= k < |pits| && Resolving(elev, nv, pits, k, infos, starts, all) && pits[k] !in all
    requires Grown(elev, nv, info) && info.nodes[0] == pits[k]
    ensures Resolving(elev, nv, pits, k + 1, infos + [info], starts + [k], all + info.nodes)
  {
    ResolvedAppend(elev, nv, pits, infos, info);
    InOrderAppend(pits, infos, starts, info, k);
    AllTakenGrow(pits, k, all, info.nodes);
  }

  // -------------------------------------------- rasters with the same elevations

  /** The exit a pool finds depends only on the elevations. */
  lemma ExitOfAgrees(a: array2<real>, b: array2<real>, nv: array2<bool>, pool: seq<Node>)
    requires SameHeights(a, b) && Shaped(a, nv)
    ensures ExitOf(a, nv, pool) == ExitOf(b, nv, pool)
  {
    EscapesAgrees(a, b, nv, pool);
    HighestAgrees(a, b, Escapes(a, nv, pool));
  }

  lemma {:induction false} EscapesAgrees(a: array2<real>, b: array2<real>, nv: array2<bool>, pool: seq<Node>)
    requires SameHeights(a, b) && Shaped(a, nv)
    ensures Escapes(a, nv, pool) == Escapes(b, nv, pool)
    decreases |pool|
  {
    if pool != [] {
      var n := |pool| - 1;
      EscapesAgrees(a, b, nv, pool[..n]);
      LowestNodeAgrees(a, b, Unabsorbed(nv, pool[n], pool[..n]));
    }
  }

  lemma {:induction false} HighestAgrees(a: array2<real>, b: array2<real>, es: seq<Option<Node>>)
    requires SameHeights(a, b) && Lodged(a, es)
    ensures Highest(a, es) == Highest(b, es)
    decreases |es|
  {
    if |es| > 1 {
      HighestAgrees(a, b, es[..|es| - 1]);
    }
  }

  /** Which neighbours growth absorbs depends only on the elevations. */
  lemma {:induction false} AbsorbAllAgrees(a: array2<real>, b: array2<real>, nv: array2<bool>, pool: seq<Node>,
                                           around: seq<Node>)
    requires SameHeights(a, b) && Shaped(a, nv)
    ensures AbsorbAll(a, nv, pool, around) == AbsorbAll(b, nv, pool, around)
    decreases |around|
  {
    if around != [] {
      var n := |around| - 1;
      AbsorbAllAgrees(a, b, nv, pool, around[..n]);
      var prev := AbsorbAll(a, nv, pool, around[..n]);
      IsPitForAgrees(a, b, nv, around[n], Unabsorbed(nv, around[n], prev));
    }
  }

  /** Whether a member drains depends only on the elevations. */
  lemma DrainedAgrees(a: array2<real>, b: array2<real>, nv: array2<bool>, pool: seq<Node>, i: int)
    requires SameHeights(a, b) && Shaped(a, nv) && 0 <= i < |pool|
    ensures Drained(a, nv, pool, i) == Drained(b, nv, pool, i)
  {
    var low := LowestNode(a, Unabsorbed(nv, pool[i], pool));
    LowestNodeAgrees(a, b, Unabsorbed(nv, pool[i], pool));
    if low.Some? {
      IsPitForAgrees(a, b, nv, low.value, Unabsorbed(nv, low.value, pool));
    }
  }

  /** A walk recorded on one raster is a walk on a copy of it. */
  lemma EndedAgrees(a: array2<real>, b: array2<real>, nv: array2<bool>, pool: seq<Node>, turn: seq<int>)
    requires SameHeights(a, b) && Shaped(a, nv) && Ended(a, nv, pool, turn)
    ensures Ended(b, nv, pool, turn)
  {
    forall i | 0 <= i < |turn| - 1
      ensures TurnAt(b, nv, pool, turn, i)
    {
      assert TurnAt(a, nv, pool, turn, i);
      var t := turn[i];
      DrainedAgrees(a, b, nv, pool[..t], i);
      AbsorbAllAgrees(a, b, nv, pool[..t], Unabsorbed(nv, pool[i], pool[..t]));
    }
    if |turn| - 1 < |pool| {
      DrainedAgrees(a, b, nv, pool, |turn| - 1);
    }
  }

  /** A pool grown on one raster is grown on a copy of it. */
  lemma GrownAgrees(a: array2<real>, b: array2<real>, nv: array2<bool>, info: PitInfo)
    requires SameHeights(a, b) && Shaped(a, nv) && Grown(a, nv, info)
    ensures Grown(b, nv, info)
  {
    var pool := info.nodes;
    forall i | 0 < i < |pool|
      ensures Absorbed(b, nv, pool, i)
    {
      assert Absorbed(a, nv, pool, i);
      IsPitForAgrees(a, b, nv, pool[i], Unabsorbed(nv, pool[i], pool[..i]));
    }
    var turn :| Ended(a, nv, pool, turn);
    EndedAgrees(a, b, nv, pool, turn);
    LowestNodeAgrees(a, b, ValidNeighbours(nv, pool[0]));
    ExitOfAgrees(a, b, nv, pool);
  }

  /** The pools a round resolves on one raster are the pools it resolves on a copy of it. */
  lemma ResolvingAgrees(a: array2<real>, b: array2<real>, nv: array2<bool>, pits: seq<Node>, k: int,
                        infos: seq<PitInfo>, starts: seq<int>, all: seq<Node>)
    requires SameHeights(a, b) && Shaped(a, nv) && 0 <= k <= |pits|
    requires Resolving(a, nv, pits, k, infos, starts, all)
    ensures Resolving(b, nv, pits, k, infos, starts, all)
  {
    forall q | 0 <= q < |infos|
      ensures Grown(b, nv, infos[q])
    {
      GrownAgrees(a, b, nv, infos[q]);
    }
  }
}
