/**
 * The depitter's main procedure: scan the raster for pits, then, round by
 * round, grow a pool per pit, flatten the pools towards their exits and
 * re-scan the cells beside them, until a scan finds no pit; finally the flow
 * pass.  The raster is changed in place.
 */
module DePitter {
  import opened Grid
  import opened PitScan
  import opened PitPool
  import opened Flats
  import opened FlowPass

  /** No cell of the raster is a pit candidate. */
  ghost predicate NoPits(elev: array2<real>, nv: array2<bool>)
    reads elev, nv
    requires Shaped(elev, nv)
  {
    forall n {:trigger IsPitCandidate(elev, nv, n)} :: InGrid(nv, n) ==> !IsPitCandidate(elev, nv, n)
  }

  /**
   * One round of process, on the raster `elev` of which `before` is a copy:
   * the pools of the candidates, grown in list order from the raster as the
   * round finds it (`Resolving` up to candidate `stop`), each flattened
   * towards its exit, then the candidates beside the pool cells, which the
   * next round works on, in the incremental scan's order.  Only pool cells
   * are written, and each ends on the slopes of the round's pools.
   * A pool without an exit ends the round before anything is written, with
   * NoDrain naming candidate `stop` and `failed` its pool.
   */
  method Round(elev: array2<real>, nv: array2<bool>, pitsList: seq<Node>, ghost before: array2<real>)
    returns (error: Option<DepitError>, next: seq<Node>, ghost nodes: seq<Node>, ghost infos: seq<PitInfo>,
             ghost starts: seq<int>, ghost stop: int, ghost failed: seq<Node>)
    requires Shaped(elev, nv) && pitsList != [] && forall p :: p in pitsList ==> IsValid(nv, p)
    requires before != elev && SameHeights(before, elev)
    modifies elev
    ensures 0 <= stop <= |pitsList| && Resolving(before, nv, pitsList, stop, infos, starts, nodes)
    ensures forall n :: InGrid(elev, n) && n !in nodes ==> Elev(elev, n) == Elev(before, n)
    ensures forall n :: InGrid(elev, n) && !IsValid(nv, n) ==> Elev(elev, n) == Elev(before, n)
    ensures error.Some? ==> error.value.NoDrain? && stop < |pitsList| && error.value.pit == pitsList[stop]
    ensures error.Some? ==> error.value.pit !in nodes && IsValid(nv, error.value.pit) && Spent(elev, nv, error.value.pit, failed)
    ensures error.Some? ==> SameHeights(before, elev)
    ensures error.None? ==> stop == |pitsList| && (forall p :: p in pitsList ==> p in nodes)
    ensures error.None? ==> nodes != [] && nodes == Members(infos) && Settled(elev, infos)
    ensures error.None? ==> forall n :: InGrid(elev, n) && n in nodes ==> OnSlopes(infos, Elev(elev, n))
    ensures error.None? ==> forall m :: m in next <==> NextToAny(nv, nodes, |nodes|, m) && IsPitCandidate(elev, nv, m)
    ensures error.None? ==> next == AroundScan(elev, nv, nodes)
  {
    var resolved, allNodesInPit;
    resolved, allNodesInPit, infos, starts, stop, failed := ResolvePits(elev, nv, pitsList);
    nodes := allNodesInPit;
    ResolvingAgrees(elev, before, nv, pitsList, stop, infos, starts, nodes);
    if resolved.Fail? {
      return Some(resolved.error), [], nodes, infos, starts, stop, failed;
    }
    AllTakenAll(pitsList, allNodesInPit);
    assert pitsList[0] in allNodesInPit;
    var pitInfoList := resolved.value;
    forall q | 0 <= q < |pitInfoList|
      ensures Placed(nv, pitInfoList[q])
      ensures InGrid(elev, pitInfoList[q].exit) && Elev(elev, pitInfoList[q].exit) == pitInfoList[q].exitElev
    {
      GrownPlaced(elev, nv, pitInfoList[q]);
    }
    MembersValid(nv, pitInfoList);
    FlattenPools(elev, nv, pitInfoList);
    assert Resolving(before, nv, pitsList, stop, infos, starts, nodes);
    forall n | InGrid(elev, n) && (n !in nodes || !IsValid(nv, n))
      ensures Elev(elev, n) == Elev(before, n)
    {
    }
    next := ScanAround(elev, nv, allNodesInPit);
    error := None;
  }

  /**
   * A round as recorded, from raster `before` to raster `after`: `infos` are
   * the pools the round resolves for the candidate list `pits` on `before`,
   * only their cells change (never a no-value cell), each pool cell is at least at the exit elevation
   * of the last pool holding it and on the slopes of the round's pools, and
   * `next` is the incremental scan around the pool cells on `after`.
   */
  ghost predicate RoundStep(before: array2<real>, after: array2<real>, nv: array2<bool>, pits: seq<Node>,
                            infos: seq<PitInfo>, next: seq<Node>)
    reads before, after, nv
    requires Shaped(before, nv) && Shaped(after, nv)
  {
    var nodes := Members(infos);
    // bound to a name, so that a caller proves it as one fact
    var step :=
      pits != [] && nodes != [] && (exists starts :: Resolving(before, nv, pits, |pits|, infos, starts, nodes)) &&
      (forall n :: InGrid(after, n) && n !in nodes ==> Elev(after, n) == Elev(before, n)) &&
      (forall n :: InGrid(after, n) && !IsValid(nv, n) ==> Elev(after, n) == Elev(before, n)) &&
      Settled(after, infos) && (forall n :: InGrid(after, n) && n in nodes ==> OnSlopes(infos, Elev(after, n))) &&
      next == AroundScan(after, nv, nodes);
    step
  }

  /**
   * A run of rounds as recorded: raster `history[k]` and candidate list
   * `lists[k]` are what round k + 1 starts from, and round k + 1 turns them
   * into its pools `pools[k]`, raster `history[k + 1]` and list `lists[k + 1]`.
   */
  ghost predicate Ran(nv: array2<bool>, history: seq<array2<real>>, lists: seq<seq<Node>>, pools: seq<seq<PitInfo>>)
    reads nv, history
  {
    // bound to a name, so that a caller proves it as one fact
    var ran :=
      |history| == |lists| == |pools| + 1 && (forall k :: 0 <= k < |history| ==> Shaped(history[k], nv)) &&
      forall k :: 0 <= k < |pools| ==> RoundAt(nv, history, lists, pools, k);
    ran
  }

  /** Round k + 1 of a recorded run. */
  ghost predicate RoundAt(nv: array2<bool>, history: seq<array2<real>>, lists: seq<seq<Node>>,
                          pools: seq<seq<PitInfo>>, k: int)
    reads nv, history
    requires |history| == |lists| == |pools| + 1 && 0 <= k < |pools|
    requires Shaped(history[k], nv) && Shaped(history[k + 1], nv)
  {
    RoundStep(history[k], history[k + 1], nv, lists[k], pools[k], lists[k + 1])
  }

  /** One more recorded round extends a recorded run. */
  lemma RanMore(nv: array2<bool>, history: seq<array2<real>>, lists: seq<seq<Node>>, pools: seq<seq<PitInfo>>,
                after: array2<real>, infos: seq<PitInfo>, next: seq<Node>)
    requires Ran(nv, history, lists, pools) && Shaped(after, nv)
    requires RoundStep(history[|pools|], after, nv, lists[|pools|], infos, next)
    ensures Ran(nv, history + [after], lists + [next], pools + [infos])
  {
    forall k | 0 <= k < |pools| + 1
      ensures RoundAt(nv, history + [after], lists + [next], pools + [infos], k)
    {
      if k < |pools| {
        RoundAtKept(nv, history, lists, pools, after, infos, next, k);
      } else {
        RoundAtAdded(nv, history, lists, pools, after, infos, next);
      }
    }
  }

  /** An earlier round of a run stays recorded when a round is appended. */
  lemma RoundAtKept(nv: array2<bool>, history: seq<array2<real>>, lists: seq<seq<Node>>, pools: seq<seq<PitInfo>>,
                    after: array2<real>, infos: seq<PitInfo>, next: seq<Node>, k: int)
    requires |history| == |lists| == |pools| + 1 && 0 <= k < |pools| && Shaped(after, nv)
    requires Shaped(history[k], nv) && Shaped(history[k + 1], nv) && RoundAt(nv, history, lists, pools, k)
    ensures RoundAt(nv, history + [after], lists + [next], pools + [infos], k)
  {
    var h, l, p := history + [after], lists + [next], pools + [infos];
    assert h[k] == history[k] && h[k + 1] == history[k + 1] && l[k] == lists[k] && l[k + 1] == lists[k + 1];
    assert p[k] == pools[k];
  }

  /** The appended round is recorded as the run's last. */
  lemma RoundAtAdded(nv: array2<bool>, history: seq<array2<real>>, lists: seq<seq<Node>>, pools: seq<seq<PitInfo>>,
                     after: array2<real>, infos: seq<PitInfo>, next: seq<Node>)
    requires |history| == |lists| == |pools| + 1 && Shaped(history[|pools|], nv) && Shaped(after, nv)
    requires RoundStep(history[|pools|], after, nv, lists[|pools|], infos, next)
    ensures RoundAt(nv, history + [after], lists + [next], pools + [infos], |pools|)
  {
    var h, l, p, k := history + [after], lists + [next], pools + [infos], |pools|;
    assert h[k] == history[k] && h[k + 1] == after && l[k] == lists[k] && l[k + 1] == next && p[k] == infos;
  }

  /** A round that ran on the raster, recorded from a copy of the raster before it. */
  lemma RoundRecorded(before: array2<real>, elev: array2<real>, nv: array2<bool>, pits: seq<Node>,
                      infos: seq<PitInfo>, starts: seq<int>, next: seq<Node>)
    requires Shaped(before, nv) && Shaped(elev, nv)
    requires pits != [] && Members(infos) != [] && Resolving(before, nv, pits, |pits|, infos, starts, Members(infos))
    requires forall n :: InGrid(elev, n) && n !in Members(infos) ==> Elev(elev, n) == Elev(before, n)
    requires forall n :: InGrid(elev, n) && !IsValid(nv, n) ==> Elev(elev, n) == Elev(before, n)
    requires Settled(elev, infos) && forall n :: InGrid(elev, n) && n in Members(infos) ==> OnSlopes(infos, Elev(elev, n))
    requires next == AroundScan(elev, nv, Members(infos))
    ensures RoundStep(before, elev, nv, pits, infos, next)
  {
    assert exists s :: Resolving(before, nv, pits, |pits|, infos, s, Members(infos));
  }

  /** A recorded round holds as well of a copy of the raster it left. */
  lemma RoundStepAgrees(before: array2<real>, a: array2<real>, b: array2<real>, nv: array2<bool>, pits: seq<Node>,
                        infos: seq<PitInfo>, next: seq<Node>)
    requires Shaped(before, nv) && Shaped(a, nv) && SameHeights(a, b) && RoundStep(before, a, nv, pits, infos, next)
    ensures RoundStep(before, b, nv, pits, infos, next)
  {
    var nodes := Members(infos);
    SettledAgrees(a, b, infos);
    AroundScanAgrees(a, b, nv, nodes);
    forall n | InGrid(b, n)
      ensures n !in nodes ==> Elev(b, n) == Elev(before, n)
      ensures !IsValid(nv, n) ==> Elev(b, n) == Elev(before, n)
      ensures n in nodes ==> OnSlopes(infos, Elev(b, n))
    {
      assert Elev(b, n) == Elev(a, n);
    }
  }

  /**
   * The rounds so far, stated on the recorded copies alone: `round` rounds
   * completed and are recorded from the full scan of `history[0]`,
   * `pitsList` is the latest scan's list and holds valid cells only, and
   * no-value cells keep their elevation in `history[0]`.
   */
  ghost predicate Running(nv: array2<bool>, maxRounds: nat, round: nat, pitsList: seq<Node>,
                          history: seq<array2<real>>, lists: seq<seq<Node>>, pools: seq<seq<PitInfo>>)
    reads nv, history
  {
    // bound to a name, so that a caller proves it as one fact
    var running :=
      round <= maxRounds && Ran(nv, history, lists, pools) && |pools| == round && lists[round] == pitsList &&
      ScanList(history[0], nv, lists[0]) && (forall p :: p in pitsList ==> IsValid(nv, p)) &&
      (forall n :: InGrid(nv, n) && !IsValid(nv, n) ==> Elev(history[round], n) == Elev(history[0], n));
    running
  }

  /** A raster without candidates runs no round: its full-scan list is empty. */
  lemma NoRoundWithoutPits(nv: array2<bool>, history: seq<array2<real>>, lists: seq<seq<Node>>,
                           pools: seq<seq<PitInfo>>)
    requires Ran(nv, history, lists, pools) && ScanList(history[0], nv, lists[0]) && NoPits(history[0], nv)
    ensures pools == [] && lists[0] == []
  {
    if lists[0] != [] {
      CandidateLeft(history[0], nv, lists[0]);
      assert false;
    }
    if pools != [] {
      RoundAtFacts(nv, history, lists, pools, 0);
    }
  }

  /** Before any round: the full scan's list of the raster as given. */
  lemma RunStarts(nv: array2<bool>, maxRounds: nat, start: array2<real>, pitsList: seq<Node>)
    requires Shaped(start, nv) && ScanList(start, nv, pitsList)
    ensures Running(nv, maxRounds, 0, pitsList, [start], [pitsList], [])
  {
  }

  /** What a recorded round leaves for the rounds after it, read off RoundStep. */
  lemma RoundStepFacts(before: array2<real>, after: array2<real>, nv: array2<bool>, pits: seq<Node>,
                       infos: seq<PitInfo>, next: seq<Node>)
    requires Shaped(before, nv) && Shaped(after, nv) && RoundStep(before, after, nv, pits, infos, next)
    ensures pits != [] && Members(infos) != [] && Settled(after, infos)
    ensures forall n :: InGrid(after, n) && !IsValid(nv, n) ==> Elev(after, n) == Elev(before, n)
    ensures forall m :: m in next <==> NextToAny(nv, Members(infos), |Members(infos)|, m) && IsPitCandidate(after, nv, m)
    ensures forall m :: m in next ==> IsValid(nv, m)
  {
    AroundScanMembers(after, nv, Members(infos));
  }

  /** The same, for round k + 1 of a recorded run. */
  lemma RoundAtFacts(nv: array2<bool>, history: seq<array2<real>>, lists: seq<seq<Node>>, pools: seq<seq<PitInfo>>,
                     k: int)
    requires Ran(nv, history, lists, pools) && 0 <= k < |pools|
    ensures lists[k] != [] && Members(pools[k]) != [] && Settled(history[k + 1], pools[k])
    ensures forall n :: InGrid(nv, n) && !IsValid(nv, n) ==> Elev(history[k + 1], n) == Elev(history[k], n)
    ensures forall m :: m in lists[k + 1] <==>
                        NextToAny(nv, Members(pools[k]), |Members(pools[k])|, m) && IsPitCandidate(history[k + 1], nv, m)
    ensures forall m :: m in lists[k + 1] ==> IsValid(nv, m)
  {
    assert RoundAt(nv, history, lists, pools, k);
    RoundStepFacts(history[k], history[k + 1], nv, lists[k], pools[k], lists[k + 1]);
  }

  /** A round recorded after the rounds so far carries them one round on. */
  lemma RunningOn(nv: array2<bool>, maxRounds: nat, round: nat, list: seq<Node>, history: seq<array2<real>>,
                  lists: seq<seq<Node>>, pools: seq<seq<PitInfo>>, after: array2<real>, infos: seq<PitInfo>,
                  next: seq<Node>)
    requires Running(nv, maxRounds, round, list, history, lists, pools) && round < maxRounds
    requires Ran(nv, history + [after], lists + [next], pools + [infos])
    ensures Running(nv, maxRounds, round + 1, next, history + [after], lists + [next], pools + [infos])
  {
    var h, l, p := history + [after], lists + [next], pools + [infos];
    assert h[0] == history[0] && l[0] == lists[0] && h[round] == history[round];
    assert h[round + 1] == after && l[round] == list && l[round + 1] == next && p[round] == infos;
    RoundAtFacts(nv, h, l, p, round);
    forall n | InGrid(nv, n) && !IsValid(nv, n)
      ensures Elev(h[round + 1], n) == Elev(h[0], n)
    {
      assert Elev(after, n) == Elev(history[round], n);
    }
    assert ScanList(h[0], nv, l[0]);
  }

  /**
   * What every run keeps, with `history[0]` the raster as given and `elev`
   * the raster as left: the run is recorded from the full scan of the given
   * raster and every recorded round ran, the raster is the last recorded
   * copy, no-value cells keep their elevation, and a raster without
   * candidates is left as it is, without error.
   */
  ghost predicate Recorded(elev: array2<real>, nv: array2<bool>, maxRounds: nat, error: Option<DepitError>,
                           rounds: nat, history: seq<array2<real>>, lists: seq<seq<Node>>, pools: seq<seq<PitInfo>>)
    reads elev, nv, history
    requires Shaped(elev, nv)
  {
    // bound to a name, so that a caller proves it as one fact
    var recorded :=
      rounds <= maxRounds && Ran(nv, history, lists, pools) && |pools| <= rounds &&
      ScanList(history[0], nv, lists[0]) && SameHeights(history[|pools|], elev) &&
      (forall n :: InGrid(elev, n) && !IsValid(nv, n) ==> Elev(elev, n) == Elev(history[0], n)) &&
      (NoPits(history[0], nv) ==> error.None? && SameHeights(history[0], elev));
    recorded
  }

  /** Unless a pool had no exit: `lastInfos` are the last round's pools and `last` their cells, none without a round. */
  ghost predicate LastRound(rounds: nat, last: seq<Node>, lastInfos: seq<PitInfo>, pools: seq<seq<PitInfo>>)
  {
    // bound to a name, so that a caller proves it as one fact
    var lastRound :=
      |pools| == rounds && lastInfos == (if rounds == 0 then [] else pools[rounds - 1]) && last == Members(lastInfos);
    lastRound
  }

  /**
   * No error: the last scan found nothing, the last pools are settled in
   * the raster, no cell beside them is a candidate, and without a round no
   * cell is one.
   */
  ghost predicate Completed(elev: array2<real>, nv: array2<bool>, rounds: nat, last: seq<Node>,
                            lastInfos: seq<PitInfo>, lists: seq<seq<Node>>)
    reads elev, nv
    requires Shaped(elev, nv) && rounds < |lists|
  {
    // bound to a name, so that a caller proves it as one fact
    var completed :=
      lists[rounds] == [] && Settled(elev, lastInfos) && (last == [] ==> NoPits(elev, nv)) &&
      forall m :: NextToAny(nv, last, |last|, m) ==> !IsPitCandidate(elev, nv, m);
    completed
  }

  /**
   * RoundLimit: all `maxRounds` rounds ran and the last scan still found a
   * candidate, beside the last pools or, without a round, in the raster as
   * given.
   */
  ghost predicate OutOfRounds(elev: array2<real>, nv: array2<bool>, maxRounds: nat, rounds: nat, last: seq<Node>,
                              given: array2<real>, lists: seq<seq<Node>>)
    reads elev, nv, given
    requires Shaped(elev, nv) && Shaped(given, nv) && rounds < |lists|
  {
    // bound to a name, so that a caller proves it as one fact
    var out :=
      rounds == maxRounds && lists[rounds] != [] && (last == [] ==> !NoPits(given, nv)) &&
      (last != [] ==> exists m :: NextToAny(nv, last, |last|, m) && IsPitCandidate(elev, nv, m));
    out
  }

  /**
   * NoDrain: the round after the recorded ones failed on a valid candidate
   * `pit` of its list, whose pool `failed` has no exit.
   */
  ghost predicate FailedOn(elev: array2<real>, nv: array2<bool>, pit: Node, rounds: nat, failed: seq<Node>,
                           lists: seq<seq<Node>>, pools: seq<seq<PitInfo>>)
    reads elev, nv
    requires Shaped(elev, nv) && |lists| == |pools| + 1
  {
    |pools| == rounds - 1 && pit in lists[rounds - 1] && IsValid(nv, pit) && Spent(elev, nv, pit, failed)
  }

  /** What a run of the rounds leaves, for each outcome. */
  ghost predicate Finished(elev: array2<real>, nv: array2<bool>, maxRounds: nat, error: Option<DepitError>,
                           rounds: nat, last: seq<Node>, lastInfos: seq<PitInfo>, failed: seq<Node>,
                           history: seq<array2<real>>, lists: seq<seq<Node>>, pools: seq<seq<PitInfo>>)
    reads elev, nv, history
    requires Shaped(elev, nv)
  {
    // bound to a name, so that a caller proves it as one fact
    var finished :=
      Recorded(elev, nv, maxRounds, error, rounds, history, lists, pools) &&
      (error.None? || error == Some(RoundLimit) ==> LastRound(rounds, last, lastInfos, pools)) &&
      (error.None? ==> Completed(elev, nv, |pools|, last, lastInfos, lists)) &&
      (error == Some(RoundLimit) ==> OutOfRounds(elev, nv, maxRounds, |pools|, last, history[0], lists)) &&
      (error.Some? && error.value.NoDrain? ==> FailedOn(elev, nv, error.value.pit, rounds, failed, lists, pools));
    finished
  }

  /** Whatever ends the rounds, the run so far is kept. */
  lemma RunKept(elev: array2<real>, nv: array2<bool>, maxRounds: nat, round: nat, rounds: nat,
                error: Option<DepitError>, pitsList: seq<Node>, history: seq<array2<real>>, lists: seq<seq<Node>>,
                pools: seq<seq<PitInfo>>)
    requires Shaped(elev, nv) && Running(nv, maxRounds, round, pitsList, history, lists, pools)
    requires SameHeights(history[round], elev) && round <= rounds <= maxRounds && (error.Some? ==> pitsList != [])
    ensures Recorded(elev, nv, maxRounds, error, rounds, history, lists, pools)
  {
    forall n | InGrid(elev, n) && !IsValid(nv, n)
      ensures Elev(elev, n) == Elev(history[0], n)
    {
      assert Elev(elev, n) == Elev(history[round], n);
    }
    if NoPits(history[0], nv) {
      NoRoundWithoutPits(nv, history, lists, pools);
    }
  }

  /** The last scan found nothing. */
  lemma RunCompleted(elev: array2<real>, nv: array2<bool>, maxRounds: nat, round: nat, last: seq<Node>,
                     lastInfos: seq<PitInfo>, history: seq<array2<real>>, lists: seq<seq<Node>>,
                     pools: seq<seq<PitInfo>>)
    requires Shaped(elev, nv) && Running(nv, maxRounds, round, [], history, lists, pools)
    requires SameHeights(history[round], elev) && LastRound(round, last, lastInfos, pools)
    ensures Completed(elev, nv, round, last, lastInfos, lists)
  {
    var now := history[round];
    forall m
      ensures IsPitCandidate(now, nv, m) == IsPitCandidate(elev, nv, m)
    {
      PitCandidateAgrees(now, elev, nv, m);
    }
    if round != 0 {
      RoundAtFacts(nv, history, lists, pools, round - 1);
      SettledAgrees(now, elev, lastInfos);
    }
  }

  /** The last round allowed ran and its scan found a candidate. */
  lemma RunOutOfRounds(elev: array2<real>, nv: array2<bool>, maxRounds: nat, pitsList: seq<Node>, last: seq<Node>,
                       lastInfos: seq<PitInfo>, history: seq<array2<real>>, lists: seq<seq<Node>>,
                       pools: seq<seq<PitInfo>>)
    requires Shaped(elev, nv) && Running(nv, maxRounds, maxRounds, pitsList, history, lists, pools)
    requires SameHeights(history[maxRounds], elev) && LastRound(maxRounds, last, lastInfos, pools) && pitsList != []
    ensures OutOfRounds(elev, nv, maxRounds, maxRounds, last, history[0], lists)
  {
    if maxRounds == 0 {
      CandidateLeft(history[0], nv, pitsList);
    } else {
      RoundAtFacts(nv, history, lists, pools, maxRounds - 1);
      CandidateBeside(history[maxRounds], elev, nv, last, pitsList);
    }
  }

  /** A non-empty full-scan list: the raster has a candidate. */
  lemma CandidateLeft(elev: array2<real>, nv: array2<bool>, pits: seq<Node>)
    requires Shaped(elev, nv) && ScanList(elev, nv, pits) && pits != []
    ensures !NoPits(elev, nv)
  {
    assert pits[0] in pits;
  }

  /** A non-empty incremental-scan list: a candidate is left beside the nodes, in any copy of the raster. */
  lemma CandidateBeside(now: array2<real>, elev: array2<real>, nv: array2<bool>, nodes: seq<Node>, next: seq<Node>)
    requires Shaped(now, nv) && SameHeights(now, elev) && next != [] && nodes != []
    requires forall m :: m in next <==> NextToAny(nv, nodes, |nodes|, m) && IsPitCandidate(now, nv, m)
    ensures exists m :: NextToAny(nv, nodes, |nodes|, m) && IsPitCandidate(elev, nv, m)
  {
    assert next[0] in next;
    PitCandidateAgrees(now, elev, nv, next[0]);
  }

  /** The rounds stop because the last scan found nothing, or because none is left. */
  lemma RunStopped(elev: array2<real>, nv: array2<bool>, maxRounds: nat, round: nat, pitsList: seq<Node>,
                   last: seq<Node>, lastInfos: seq<PitInfo>, failed: seq<Node>, history: seq<array2<real>>,
                   lists: seq<seq<Node>>, pools: seq<seq<PitInfo>>)
    requires Shaped(elev, nv) && Running(nv, maxRounds, round, pitsList, history, lists, pools)
    requires SameHeights(history[round], elev) && LastRound(round, last, lastInfos, pools)
    requires pitsList == [] || round == maxRounds
    ensures Finished(elev, nv, maxRounds, if pitsList == [] then None else Some(RoundLimit), round, last,
                     lastInfos, failed, history, lists, pools)
  {
    var error: Option<DepitError> := if pitsList == [] then None else Some(RoundLimit);
    RunKept(elev, nv, maxRounds, round, round, error, pitsList, history, lists, pools);
    if pitsList == [] {
      RunCompleted(elev, nv, maxRounds, round, last, lastInfos, history, lists, pools);
    } else {
      RunOutOfRounds(elev, nv, maxRounds, pitsList, last, lastInfos, history, lists, pools);
    }
  }

  /** A round after `round` recorded ones fails on candidate `pit`, leaving the raster as it was. */
  lemma RunFailed(elev: array2<real>, nv: array2<bool>, maxRounds: nat, round: nat, list: seq<Node>,
                  pit: Node, last: seq<Node>, lastInfos: seq<PitInfo>, failed: seq<Node>,
                  history: seq<array2<real>>, lists: seq<seq<Node>>, pools: seq<seq<PitInfo>>)
    requires Shaped(elev, nv) && Running(nv, maxRounds, round, list, history, lists, pools)
    requires round < maxRounds && SameHeights(history[round], elev)
    requires pit in list && IsValid(nv, pit) && Spent(elev, nv, pit, failed)
    ensures Finished(elev, nv, maxRounds, Some(NoDrain(pit)), round + 1, last, lastInfos, failed, history, lists,
                     pools)
  {
    RunKept(elev, nv, maxRounds, round, round + 1, Some(NoDrain(pit)), list, history, lists, pools);
  }

  /**
   * One iteration of the rounds: round `round + 1` runs on the raster, of
   * which `history[round]` is a copy.  When it completes, it is recorded
   * with `after`, a copy of the raster it leaves, and the rounds so far go
   * one round on; when a pool has no exit the run is Finished with NoDrain
   * and the raster is left as it was (`after` is then the copy before it).
   */
  method NextRound(elev: array2<real>, nv: array2<bool>, maxRounds: nat, round: nat, pitsList: seq<Node>,
                   ghost history: seq<array2<real>>, ghost lists: seq<seq<Node>>, ghost pools: seq<seq<PitInfo>>)
    returns (error: Option<DepitError>, next: seq<Node>, ghost nodes: seq<Node>, ghost infos: seq<PitInfo>,
             ghost failed: seq<Node>, ghost after: array2<real>)
    requires Shaped(elev, nv) && round < maxRounds
    requires Running(nv, maxRounds, round, pitsList, history, lists, pools)
    requires SameHeights(history[round], elev) && elev !in history && pitsList != []
    modifies elev
    ensures after != elev && SameHeights(after, elev)
    ensures error.None? ==> Running(nv, maxRounds, round + 1, next, history + [after], lists + [next], pools + [infos])
    ensures error.Some? ==> Finished(elev, nv, maxRounds, error, round + 1, nodes, infos, failed, history, lists, pools)
  {
    ghost var before := history[round];
    ghost var starts, stop;
    error, next, nodes, infos, starts, stop, failed := Round(elev, nv, pitsList, before);
    if error.Some? {
      assert pitsList[stop] in pitsList;
      RunFailed(elev, nv, maxRounds, round, pitsList, pitsList[stop], nodes, infos, failed, history, lists, pools);
      return error, next, nodes, infos, failed, before;
    }
    RoundRecorded(before, elev, nv, pitsList, infos, starts, next);
    after := Record(elev, nv, maxRounds, round, pitsList, history, lists, pools, infos, next);
  }

  /** A completed round recorded: a copy of the raster it left, and the rounds so far one round on. */
  ghost method Record(elev: array2<real>, nv: array2<bool>, maxRounds: nat, round: nat, list: seq<Node>,
                      history: seq<array2<real>>, lists: seq<seq<Node>>, pools: seq<seq<PitInfo>>,
                      infos: seq<PitInfo>, next: seq<Node>)
    returns (after: array2<real>)
    requires Shaped(elev, nv) && round < maxRounds
    requires Running(nv, maxRounds, round, list, history, lists, pools)
    requires RoundStep(history[round], elev, nv, list, infos, next)
    ensures fresh(after) && SameHeights(after, elev)
    ensures Running(nv, maxRounds, round + 1, next, history + [after], lists + [next], pools + [infos])
  {
    after := Snapshot(elev);
    RoundStepAgrees(history[round], elev, after, nv, list, infos, next);
    RanMore(nv, history, lists, pools, after, infos, next);
    RunningOn(nv, maxRounds, round, list, history, lists, pools, after, infos, next);
  }

  /**
   * The pit-filling rounds of process: a full scan, then rounds until a scan
   * finds no candidate.  `maxRounds` bounds the number of rounds, and
   * `rounds` counts those that ran.  The run is recorded round by round
   * (RoundStep), from a copy `history[0]` of the raster as given; what the
   * run leaves is Finished.
   */
  method Rounds(elev: array2<real>, nv: array2<bool>, maxRounds: nat)
    returns (error: Option<DepitError>, ghost rounds: nat, ghost last: seq<Node>, ghost lastInfos: seq<PitInfo>,
             ghost failed: seq<Node>, ghost history: seq<array2<real>>, ghost lists: seq<seq<Node>>,
             ghost pools: seq<seq<PitInfo>>)
    requires Shaped(elev, nv)
    modifies elev
    ensures history != [] && history[0].Length0 == elev.Length0 && history[0].Length1 == elev.Length1
    ensures forall n :: InGrid(elev, n) ==> Elev(history[0], n) == old(Elev(elev, n))
    ensures Finished(elev, nv, maxRounds, error, rounds, last, lastInfos, failed, history, lists, pools)
  {
    ghost var start := Snapshot(elev);
    var pitsList := FullScan(elev, nv);
    ScanListAgrees(elev, start, nv, pitsList);
    RunStarts(nv, maxRounds, start, pitsList);
    var list;
    error, list, rounds, last, lastInfos, failed, history, lists, pools := RoundsFrom(elev, nv, maxRounds, pitsList, start);
    if error.None? {
      lastInfos := if rounds == 0 then [] else pools[rounds - 1];
      last := Members(lastInfos);
      RunStopped(elev, nv, maxRounds, rounds, list, last, lastInfos, failed, history, lists, pools);
      error := if list == [] then None else Some(RoundLimit);
    }
  }

  /**
   * The loop of Rounds, from the full scan's list `pitsList` of the raster
   * as given, of which `start` is a copy: it ends with an error of a round,
   * or with the rounds so far when a scan finds nothing or no round is left.
   */
  method RoundsFrom(elev: array2<real>, nv: array2<bool>, maxRounds: nat, pitsList: seq<Node>,
                    ghost start: array2<real>)
    returns (error: Option<DepitError>, list: seq<Node>, ghost rounds: nat, ghost last: seq<Node>,
             ghost lastInfos: seq<PitInfo>, ghost failed: seq<Node>, ghost history: seq<array2<real>>,
             ghost lists: seq<seq<Node>>, ghost pools: seq<seq<PitInfo>>)
    requires Shaped(elev, nv) && start != elev && SameHeights(start, elev)
    requires Running(nv, maxRounds, 0, pitsList, [start], [pitsList], [])
    modifies elev
    ensures history != [] && history[0] == start
    ensures error.Some? ==> Finished(elev, nv, maxRounds, error, rounds, last, lastInfos, failed, history, lists, pools)
    ensures error.None? ==> Running(nv, maxRounds, rounds, list, history, lists, pools)
    ensures error.None? ==> SameHeights(history[rounds], elev) && (list == [] || rounds == maxRounds)
  {
    error, rounds, last, lastInfos, failed := None, 0, [], [], [];
    history, lists, pools := [start], [pitsList], [];
    var round := 0;
    list := pitsList;
    while list != [] && round < maxRounds
      invariant rounds == round && error.None?
      invariant Running(nv, maxRounds, round, list, history, lists, pools)
      invariant history[0] == start && SameHeights(history[round], elev) && elev !in history
      decreases maxRounds - round
    {
      ghost var after;
      error, list, last, lastInfos, failed, after := NextRound(elev, nv, maxRounds, round, list, history, lists, pools);
      if error.Some? {
        rounds := round + 1;
        return;
      }
      history, lists, pools := history + [after], lists + [list], pools + [lastInfos];
      round := round + 1;
      rounds := round;
    }
  }

  /**
   * process: the pit-filling rounds followed by the flow pass.  An error of
   * the rounds is returned as it is.  On success the result holds the flow
   * code of every cell of the filled raster; either way the run is Finished
   * as Rounds promises.
   */
  method Process(elev: array2<real>, nv: array2<bool>, res: Resolution, maxRounds: nat)
    returns (r: Outcome<array2<int>>, ghost rounds: nat, ghost last: seq<Node>, ghost lastInfos: seq<PitInfo>,
             ghost failed: seq<Node>, ghost history: seq<array2<real>>, ghost lists: seq<seq<Node>>,
             ghost pools: seq<seq<PitInfo>>)
    requires Shaped(elev, nv) && Positive(res)
    modifies elev
    ensures r.Ok? ==> fresh(r.value) && r.value.Length0 == nv.Length0 && r.value.Length1 == nv.Length1
    ensures r.Ok? ==> forall n :: InGrid(r.value, n) ==> r.value[n.col, n.row] == FlowCode(elev, nv, res, n)
    ensures history != [] && history[0].Length0 == elev.Length0 && history[0].Length1 == elev.Length1
    ensures forall n :: InGrid(elev, n) ==> Elev(history[0], n) == old(Elev(elev, n))
    ensures Finished(elev, nv, maxRounds, if r.Ok? then None else Some(r.error), rounds, last, lastInfos, failed,
                     history, lists, pools)
  {
    var error;
    error, rounds, last, lastInfos, failed, history, lists, pools := Rounds(elev, nv, maxRounds);
    if error.Some? {
      return Fail(error.value), rounds, last, lastInfos, failed, history, lists, pools;
    }
    var flow := FlowDirections(elev, nv, res);
    r := Ok(flow);
  }
}
