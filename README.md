# DePitter: a verified model of the hortonmachine pit filler

This project models `OmsDePitter.process`, the pit filler of the hortonmachine
raster tools, together with its private helpers `getMinElevNode`,
`makeCellsFlowReady`, the two `getPitsList` overloads and `PitInfo`. The
pit filler takes a digital elevation model and removes its depressions so that
every cell can drain. It then computes D8 flow directions. The model follows
the code step by step:

- **Pit scan.** The full scan collects every pit with a finite surrounding
  minimum, row by row. The incremental scan re-checks only the valid
  neighbours of the cells a round touched, using a bit matrix so that no cell
  is collected twice.
- **Pool growth.** Each pit grows a pool through a worklist walked by an index
  cursor. A neighbour is absorbed when it is off the raster border and still a
  pit once the pool, as it stands at that moment, is excluded. Growth stops at the first cell whose lowest
  outside neighbour is not itself a pit. The exit is the highest of the escapes
  of the absorbed cells, where an escape is a cell's lowest neighbour outside
  the pool. A pool that stayed a single cell drains through its lowest
  neighbour. A pool without an exit stops processing.
- **Flats.** Every pool is filled to its exit elevation and marked. From the
  exit a wavefront then raises the marked cells still at the exit elevation by
  `Delta * k` in step k, so that every raised cell has a strictly lower
  neighbour. The model states the resulting slope exactly: each raised cell
  sits `Delta` times its distance from the exit (through raised cells) above
  the exit elevation.
- **Rounds.** Rounds repeat until the incremental scan finds no pit.
- **Flow pass.** One pass then writes OUTLET, a D8 code or the integer
  no-value for each cell.

The state is kept the way the code keeps it:

- The elevation raster is an `array2<real>` indexed `[col, row]`, written in
  place.
- The mark matrix is an `array2<bool>`; the flow raster is a fresh
  `array2<int>`.
- Lists that the code grows (the pool, the pit lists, `allNodesInPit`) are
  sequences that the methods extend.
- Loops are `while`/`for` loops with invariants, and `makeCellsFlowReady`
  is a recursive method.

Each method is proved against specification functions and predicates:

- `LowestNode` for the running minimum;
- `IsPitCandidate` for the scans;
- `Absorbed`, `Connected`, `Escape` and `ExitOf` for growth;
- `Pending` for the slope;
- `FlowCode` for the flow pass.

Lemmas relate these functions to one another.

The raster helpers the code calls are not part of this model: `GridNode`,
`BitMatrix`, `FlowNode` and `JGTConstants`. Their behaviour is written out
as definitions in module `Grid` (and the flow codes in `FlowPass`), and these
definitions are assumptions of the model:

- `getValidSurroundingNodes` lists the in-raster neighbours that hold a
  value, in direction-code order (1 E, 2 NE, 3 N, 4 NW, 5 W, 6 SW, 7 S, 8 SE;
  rows grow southwards).
- `isPitFor(S)` holds when the cell is valid and no higher than every member
  of `S`; `isPit` is `isPitFor` over all valid neighbours.
- `getSurroundingMin` is +infinity when there is no valid neighbour.
- `touchesBound` means the cell is on the outer ring of the raster.
- `touchesNovalue` means some neighbour on the raster holds no value.
- `isOutlet` means the cell is valid and touches the bound or a no-value cell.
- `FlowNode.OUTLET` is 10 and `JGTConstants.intNovalue` is -9999.
- `getFlow` is modelled by a steepest-descent stand-in (`FlowPass.FlowOf`).
- Two nodes are equal when their column and row are equal.

Files:

- `grid.dfy`: the raster helpers.
- `scan.dfy`: `getMinElevNode` and both `getPitsList` overloads.
- `pool.dfy`: pool growth, the exit and one round of pool resolution.
- `flats.dfy`: fill and `makeCellsFlowReady`.
- `flow.dfy`: the flow pass.
- `depitter.dfy`: `process`.

## Model

| member | source | states |
|---|---|---|
| Grid.ValidNeighbours | hortonmachine/src/main/java/org/jgrasstools/hortonmachine/modules/demmanipulation/pitfiller/OmsDePitter.java:142 | a node is listed iff it is one of the eight positions around the cell and lies on the raster with a value |
| Grid.ValidNeighboursDistinct | hortonmachine/src/main/java/org/jgrasstools/hortonmachine/modules/demmanipulation/pitfiller/OmsDePitter.java:142 | no neighbour is listed twice |
| Grid.Without | hortonmachine/src/main/java/org/jgrasstools/hortonmachine/modules/demmanipulation/pitfiller/OmsDePitter.java:142-143 | `removeAll`: exactly the members of the list that are not in the pool remain, and a duplicate-free list stays duplicate-free |
| Grid.LowestNode | hortonmachine/src/main/java/org/jgrasstools/hortonmachine/modules/demmanipulation/pitfiller/OmsDePitter.java:268-278 | the selection is absent iff the list is empty, and otherwise is a member of the list |
| Grid.LowestNodeIsFirstMinimum | hortonmachine/src/main/java/org/jgrasstools/hortonmachine/modules/demmanipulation/pitfiller/OmsDePitter.java:268-278 | the selected node is no higher than any member and strictly lower than every member before it: the first minimum that a strict `<` picks |
| Grid.SurroundingMin | hortonmachine/src/main/java/org/jgrasstools/hortonmachine/modules/demmanipulation/pitfiller/OmsDePitter.java:324-327 | the surrounding minimum is +infinity iff the cell has no valid neighbour |
| PitScan.GetMinElevNode | hortonmachine/src/main/java/org/jgrasstools/hortonmachine/modules/demmanipulation/pitfiller/OmsDePitter.java:268-278 | the running-minimum loop returns exactly `LowestNode` of its list: none for an empty list, else the first lowest member |
| PitScan.FullScan | hortonmachine/src/main/java/org/jgrasstools/hortonmachine/modules/demmanipulation/pitfiller/OmsDePitter.java:316-335 | a cell is collected iff it lies on the raster, is a pit and has a finite surrounding minimum; cells come in row-major order, each once |
| PitScan.ScanListAgrees | hortonmachine/src/main/java/org/jgrasstools/hortonmachine/modules/demmanipulation/pitfiller/OmsDePitter.java:316-335 | the full-scan list of a raster is also the full-scan list of any copy of it |
| PitScan.ScanRow | hortonmachine/src/main/java/org/jgrasstools/hortonmachine/modules/demmanipulation/pitfiller/OmsDePitter.java:320-332 | scanning one more row extends the collected prefix with exactly that row's candidates, keeping the order |
| PitScan.ScanAround | hortonmachine/src/main/java/org/jgrasstools/hortonmachine/modules/demmanipulation/pitfiller/OmsDePitter.java:337-362 | the list is exactly `AroundScan` of the nodes: for each node in turn, its valid neighbours in direction-code order that are pits with a finite surrounding minimum and not listed yet; so a cell is collected iff it is a valid neighbour of some input node and a candidate, no cell twice, and an empty input gives an empty result |
| PitScan.CollectAround | hortonmachine/src/main/java/org/jgrasstools/hortonmachine/modules/demmanipulation/pitfiller/OmsDePitter.java:344-356 | one input node appends, after the cells collected so far, exactly its candidate neighbours not yet collected, in direction-code order (`Collect`), and the `existing` matrix marks exactly the collected cells |
| PitScan.CollectMembers | hortonmachine/src/main/java/org/jgrasstools/hortonmachine/modules/demmanipulation/pitfiller/OmsDePitter.java:344-356 | the cells collected so far stay a prefix, a cell is collected iff it was already or is a candidate among the neighbours, and nothing is repeated |
| PitScan.AroundScanMembers | hortonmachine/src/main/java/org/jgrasstools/hortonmachine/modules/demmanipulation/pitfiller/OmsDePitter.java:337-362 | the ordered incremental-scan list holds exactly the candidates beside the nodes, each once |
| PitScan.AroundScanAgrees | hortonmachine/src/main/java/org/jgrasstools/hortonmachine/modules/demmanipulation/pitfiller/OmsDePitter.java:337-362 | the incremental-scan list, order included, depends only on the elevations, so it is the same on a copy of the raster |
| PitPool.EscapeBeside | hortonmachine/src/main/java/org/jgrasstools/hortonmachine/modules/demmanipulation/pitfiller/OmsDePitter.java:159-165 | an absorbed cell's escape is one of its valid neighbours that was outside the pool when the cell joined |
| PitPool.EscapesAt | hortonmachine/src/main/java/org/jgrasstools/hortonmachine/modules/demmanipulation/pitfiller/OmsDePitter.java:162-169 | the list of escapes holds, at position i, the escape of the i-th pool member |
| PitPool.HighestNoneIff | hortonmachine/src/main/java/org/jgrasstools/hortonmachine/modules/demmanipulation/pitfiller/OmsDePitter.java:166-169 | the running maximum is absent iff no member after the pit has an escape |
| PitPool.HighestIsAnEntry | hortonmachine/src/main/java/org/jgrasstools/hortonmachine/modules/demmanipulation/pitfiller/OmsDePitter.java:166-169 | the running maximum, when present, is one of the escapes after the pit's own |
| PitPool.HighestIsHighest | hortonmachine/src/main/java/org/jgrasstools/hortonmachine/modules/demmanipulation/pitfiller/OmsDePitter.java:166-169 | the running maximum is at least as high as the escape of every absorbed member |
| PitPool.ExitNoneIff | hortonmachine/src/main/java/org/jgrasstools/hortonmachine/modules/demmanipulation/pitfiller/OmsDePitter.java:165-169 | a grown pool has no exit iff none of its absorbed cells had an escape (the infinite `maxValue` that line 187 rejects) |
| PitPool.ExitIsHighest | hortonmachine/src/main/java/org/jgrasstools/hortonmachine/modules/demmanipulation/pitfiller/OmsDePitter.java:165-169 | the exit is no lower than the escape of any absorbed cell |
| PitPool.ExitBesidePool | hortonmachine/src/main/java/org/jgrasstools/hortonmachine/modules/demmanipulation/pitfiller/OmsDePitter.java:165-169 | the exit is the escape of some absorbed cell: a valid neighbour of it that was outside the pool when it joined |
| PitPool.GrowPool | hortonmachine/src/main/java/org/jgrasstools/hortonmachine/modules/demmanipulation/pitfiller/OmsDePitter.java:130-185 | the pool starts with the pit, has no duplicates, is 8-connected and has at most cols*rows cells; every later member was absorbed by the rule; growth ran to its end (`GrowthDone`): each member before the cursor had its turn, in which its un-absorbed neighbours were considered in order against the pool as it grew (the `AbsorbAll` fold), and the walk passed the last member or stopped at a member whose lowest un-absorbed neighbour drains elsewhere; the exit is the highest escape, or the lowest neighbour for a singleton |
| PitPool.GrowAll | hortonmachine/src/main/java/org/jgrasstools/hortonmachine/modules/demmanipulation/pitfiller/OmsDePitter.java:130-173 | the worklist walk keeps the growth invariant and ends with growth done: each member before the cursor had its turn, each turn the `AbsorbAll` fold of the member's un-absorbed neighbours over the live pool, and the walk stopped at the end of the list or at a member that drains |
| PitPool.GrowTurn | hortonmachine/src/main/java/org/jgrasstools/hortonmachine/modules/demmanipulation/pitfiller/OmsDePitter.java:140-172 | one turn of the walk keeps the growth invariant and the record of completed turns; a drained turn adds nothing and the member at the cursor drains, any other completes the turn at the cursor |
| PitPool.GrowthDetermined | hortonmachine/src/main/java/org/jgrasstools/hortonmachine/modules/demmanipulation/pitfiller/OmsDePitter.java:130-173 | growth from a pit is determined: two pools that start at the same pit and whose growth ran to its end (`GrowthDone`) are the same pool, so `GrowthDone` pins the pool the loop builds |
| PitPool.GrowStep | hortonmachine/src/main/java/org/jgrasstools/hortonmachine/modules/demmanipulation/pitfiller/OmsDePitter.java:140-172 | one cursor step keeps the growth invariant; it stops growth iff the lowest un-absorbed neighbour is not a pit for its own un-absorbed neighbours, and then nothing is added; otherwise the new pool is exactly the `AbsorbAll` fold of the member's un-absorbed neighbours, each tested against the pool as the earlier ones left it, so only those neighbours join |
| PitPool.AbsorbAround | hortonmachine/src/main/java/org/jgrasstools/hortonmachine/modules/demmanipulation/pitfiller/OmsDePitter.java:155-171 | the new pool is exactly the `AbsorbAll` fold of the surrounding cells over the live pool; only surrounding cells are added, and each one left out was not absorbable against the pool at the start either; the running maximum stays the highest escape |
| PitPool.AbsorbNext | hortonmachine/src/main/java/org/jgrasstools/hortonmachine/modules/demmanipulation/pitfiller/OmsDePitter.java:155-170 | one surrounding cell is appended exactly when it is off the border and a pit among its valid neighbours outside the pool as it stands at that moment, grown by the earlier surrounding cells; otherwise the pool is unchanged; the growth invariant and running maximum are kept |
| PitPool.LeftOutUnabsorbable | hortonmachine/src/main/java/org/jgrasstools/hortonmachine/modules/demmanipulation/pitfiller/OmsDePitter.java:155-171 | a surrounding cell that the fold over the live pool leaves out was not absorbable against the pool the turn started from either, since a larger pool only makes absorption easier |
| PitPool.AbsorbOne | hortonmachine/src/main/java/org/jgrasstools/hortonmachine/modules/demmanipulation/pitfiller/OmsDePitter.java:162-169 | absorbing a cell appends it, and the running maximum with strict `>` stays the highest escape |
| PitPool.RaiseExit | hortonmachine/src/main/java/org/jgrasstools/hortonmachine/modules/demmanipulation/pitfiller/OmsDePitter.java:165-169 | the lowest unabsorbed neighbour of the new member replaces the running maximum exactly when it exists and is strictly higher (or no maximum exists yet), and `maxValue` keeps mirroring the exit's elevation |
| PitPool.ParentsConnect | hortonmachine/src/main/java/org/jgrasstools/hortonmachine/modules/demmanipulation/pitfiller/OmsDePitter.java:155-163 | every absorbed cell is adjacent to an earlier member, so the pool is 8-connected |
| PitPool.IsPitForFewer | hortonmachine/src/main/java/org/jgrasstools/hortonmachine/modules/demmanipulation/pitfiller/OmsDePitter.java:159-162 | a cell that is a pit once a pool is excluded stays one when the pool has grown |
| PitPool.Members | hortonmachine/src/main/java/org/jgrasstools/hortonmachine/modules/demmanipulation/pitfiller/OmsDePitter.java:196 | `allNodesInPit` contains every cell of every recorded pool |
| PitPool.ResolvedAppend | hortonmachine/src/main/java/org/jgrasstools/hortonmachine/modules/demmanipulation/pitfiller/OmsDePitter.java:191-196 | recording one more grown pool keeps the round's pools resolved and appends its cells to `allNodesInPit` |
| PitPool.ResolvePits | hortonmachine/src/main/java/org/jgrasstools/hortonmachine/modules/demmanipulation/pitfiller/OmsDePitter.java:116-199 | the candidates are taken in list order: each recorded pool grew from a candidate that no earlier pool of the round held, the start indices increase, and every candidate before a start lay in an earlier pool; each pool is grown to its end and recorded with its exit and the exit's elevation, and `allNodesInPit` lists their cells; on success every candidate lies in it; on failure the failing pit is the first candidate outside every recorded pool whose completed pool has no exit: the pit has no valid neighbour, or no absorbed member has an escape |
| PitPool.ResolveNext | hortonmachine/src/main/java/org/jgrasstools/hortonmachine/modules/demmanipulation/pitfiller/OmsDePitter.java:120-196 | one candidate: one already in a pool of the round is skipped; otherwise its pool is grown and recorded and the in-order invariant moves past it; a pool without an exit leaves the recorded state unchanged and is returned as the failing pool |
| Flats.FillPool | hortonmachine/src/main/java/org/jgrasstools/hortonmachine/modules/demmanipulation/pitfiller/OmsDePitter.java:208-214 | every pool member holds the recorded exit elevation and is marked; no other cell or mark changes |
| Flats.SingletonFillRaises | hortonmachine/src/main/java/org/jgrasstools/hortonmachine/modules/demmanipulation/pitfiller/OmsDePitter.java:175-181 | a singleton pool's exit is no lower than its pit, so filling raises the pit |
| Flats.AbsorbedFillRaises | hortonmachine/src/main/java/org/jgrasstools/hortonmachine/modules/demmanipulation/pitfiller/OmsDePitter.java:159-169 | an absorbed member that had an escape is no higher than the exit elevation, so filling raises it |
| Flats.ConnectAround | hortonmachine/src/main/java/org/jgrasstools/hortonmachine/modules/demmanipulation/pitfiller/OmsDePitter.java:298-305 | one front cell adds exactly its valid neighbours that are marked, not the exit, at the exit elevation and not yet listed |
| Flats.Connect | hortonmachine/src/main/java/org/jgrasstools/hortonmachine/modules/demmanipulation/pitfiller/OmsDePitter.java:296-306 | the next wavefront is exactly the pending valid neighbours of the current front, each once |
| Flats.Raise | hortonmachine/src/main/java/org/jgrasstools/hortonmachine/modules/demmanipulation/pitfiller/OmsDePitter.java:310-312 | the listed cells take the new value and no other cell changes |
| Flats.PendingShrinks | hortonmachine/src/main/java/org/jgrasstools/hortonmachine/modules/demmanipulation/pitfiller/OmsDePitter.java:300-313 | raising a non-empty step strictly shrinks the set of pending cells, which bounds the recursion |
| Flats.MakeCellsFlowReady | hortonmachine/src/main/java/org/jgrasstools/hortonmachine/modules/demmanipulation/pitfiller/OmsDePitter.java:291-314 | with `start` the raster as given, the result is `Graded`: only cells pending in `start` (marked, not the exit, at the exit elevation) change, each to above the front's level; each changed cell is exactly one `Delta` above some valid neighbour in the front or changed, and at most one `Delta` above every such neighbour, so it sits at `exitElev + Delta * (iteration + d)` for its distance d from the front through changed cells, the round that reached it; each changed cell has a strictly lower valid neighbour and lies on the slope; no valid neighbour of the front or of a changed cell is left pending |
| Flats.GradedIdle | hortonmachine/src/main/java/org/jgrasstools/hortonmachine/modules/demmanipulation/pitfiller/OmsDePitter.java:306-308 | a step that connects no cell leaves the raster as it was, which is `Graded` for any front |
| Flats.SlopeKept | hortonmachine/src/main/java/org/jgrasstools/hortonmachine/modules/demmanipulation/pitfiller/OmsDePitter.java:300-313 | after one raising step from `start` to `raised` and the rest of the slope from `raised`: cells not pending in `start` keep their elevation, front cells stay at the front's level, connected cells end exactly one `Delta` above it, and every other changed cell was pending in `start` and changed after the step |
| Flats.GradedStep | hortonmachine/src/main/java/org/jgrasstools/hortonmachine/modules/demmanipulation/pitfiller/OmsDePitter.java:291-314 | the slope from the next front after one raising step is `Graded` from the current front: the recursion's slope extends one round back |
| Flats.SlopeBelow | hortonmachine/src/main/java/org/jgrasstools/hortonmachine/modules/demmanipulation/pitfiller/OmsDePitter.java:300-313 | after one step each changed cell lies above the front's level and exactly one `Delta` above a valid neighbour that is in the front or changed |
| Flats.SlopeNear | hortonmachine/src/main/java/org/jgrasstools/hortonmachine/modules/demmanipulation/pitfiller/OmsDePitter.java:300-313 | after one step no changed cell lies more than one `Delta` above a valid neighbour in the front or changed, because a pending cell beside the front is connected in this step |
| Flats.SlopeStepped | hortonmachine/src/main/java/org/jgrasstools/hortonmachine/modules/demmanipulation/pitfiller/OmsDePitter.java:300-313 | after one step each changed cell has a strictly lower valid neighbour and lies on the slope of this round, and no valid neighbour of the front or of a changed cell is left pending |
| Flats.GrownPlaced | hortonmachine/src/main/java/org/jgrasstools/hortonmachine/modules/demmanipulation/pitfiller/OmsDePitter.java:175-196 | a grown pool from a valid pit lies on valid cells and drains through a valid exit |
| Flats.FlattenPool | hortonmachine/src/main/java/org/jgrasstools/hortonmachine/modules/demmanipulation/pitfiller/OmsDePitter.java:208-220 | the ghost copy `filled` is the raster after the fill: members at the recorded exit elevation, every other cell as before; the final raster is `Graded` from `filled` with the exit alone as round 0, so each raised member sits at `exitElev + Delta * d` for its distance d from the exit through raised members; every member is at least the exit elevation, and one above it has a strictly lower neighbour and sits on the slope from the exit; no valid neighbour of the exit or of a raised member is left pending; outside the pool no cell decreases and only cells marked by earlier pools can change; the marks grow by the pool |
| Flats.FlattenPools | hortonmachine/src/main/java/org/jgrasstools/hortonmachine/modules/demmanipulation/pitfiller/OmsDePitter.java:202-223 | with a fresh mark matrix and the pools in turn, no cell outside every pool changes, every pool cell ends at least at the exit elevation of the last pool that holds it, and every pool cell ends on the slopes of the round: at `exitElev + Delta * k`, k >= 0, for the exit elevation of one of the pools |
| Flats.FlattenNext | hortonmachine/src/main/java/org/jgrasstools/hortonmachine/modules/demmanipulation/pitfiller/OmsDePitter.java:204-222 | one more pool flattened after the earlier ones: the marks become the cells of the pools so far, cells outside them keep their elevation, and the settled and on-the-slopes facts extend to the new pool |
| Flats.SteppedOnSlopes | hortonmachine/src/main/java/org/jgrasstools/hortonmachine/modules/demmanipulation/pitfiller/OmsDePitter.java:291-314 | a cell that the slope from a level on the slopes raised stays on the slopes, `Delta` steps further up |
| Flats.MembersValid | hortonmachine/src/main/java/org/jgrasstools/hortonmachine/modules/demmanipulation/pitfiller/OmsDePitter.java:196 | every cell listed in `allNodesInPit` is valid |
| FlowPass.InteriorNeighbour | hortonmachine/src/main/java/org/jgrasstools/hortonmachine/modules/demmanipulation/pitfiller/OmsDePitter.java:247 | all eight neighbours of a valid cell that touches neither the bound nor a no-value cell are on the raster and valid |
| FlowPass.Steepest | hortonmachine/src/main/java/org/jgrasstools/hortonmachine/modules/demmanipulation/pitfiller/OmsDePitter.java:248 | the chosen code has the largest slope among codes 1..8, and every smaller code has a strictly smaller slope |
| FlowPass.DropSign | hortonmachine/src/main/java/org/jgrasstools/hortonmachine/modules/demmanipulation/pitfiller/OmsDePitter.java:248 | the slope towards a neighbour is positive iff the neighbour is strictly lower |
| FlowPass.SteepestGoesDown | hortonmachine/src/main/java/org/jgrasstools/hortonmachine/modules/demmanipulation/pitfiller/OmsDePitter.java:248 | when some neighbour is strictly lower, the steepest direction leads to a strictly lower neighbour |
| FlowPass.FlowOf | hortonmachine/src/main/java/org/jgrasstools/hortonmachine/modules/demmanipulation/pitfiller/OmsDePitter.java:248 | the D8 code is between 1 and 8, points to a valid neighbour, and points downhill whenever any neighbour is lower |
| FlowPass.FlowCode | hortonmachine/src/main/java/org/jgrasstools/hortonmachine/modules/demmanipulation/pitfiller/OmsDePitter.java:245-252 | the code is OUTLET iff the cell is an outlet; a D8 code iff the cell is valid and not an outlet; the integer no-value iff the cell holds no value |
| FlowPass.FlowDirections | hortonmachine/src/main/java/org/jgrasstools/hortonmachine/modules/demmanipulation/pitfiller/OmsDePitter.java:238-256 | a fresh raster of the same shape holds `FlowCode` for every cell |
| DePitter.Round | hortonmachine/src/main/java/org/jgrasstools/hortonmachine/modules/demmanipulation/pitfiller/OmsDePitter.java:113-226 | the pools are those `ResolvePits` grows from the candidates in list order on the raster as the round found it; a round either fails before writing anything, naming the candidate whose completed pool has no exit, or every candidate lies in a pool, only pool cells are written, each pool cell ends at least at the exit elevation of the last pool that holds it and on the slopes of the round's pools, and the result is exactly `AroundScan` of the pool cells, in the incremental scan's order; no-value cells are never written |
| DePitter.Rounds | hortonmachine/src/main/java/org/jgrasstools/hortonmachine/modules/demmanipulation/pitfiller/OmsDePitter.java:105-231 | the run is recorded: `history[0]` is a copy of the raster as given and `lists[0]` its full-scan list; each recorded round turns `history[k]` and `lists[k]` into `pools[k]`, `history[k + 1]` and `lists[k + 1]` as `Round` does (`RoundStep`); the raster as left equals the last copy, and `rounds` counts the rounds, `|pools|` of them completed; without error the last scan list is empty and `lastInfos`/`last` are the last round's pools and cells, settled, with no candidate beside them (and none at all without a round); a NoDrain error names a valid candidate of the last list whose completed pool has no exit; RoundLimit is reported only after `maxRounds` completed rounds with a scan that still found a candidate; no-value cells are never written, and a raster without candidates is left unchanged without error |
| DePitter.RoundsFrom | hortonmachine/src/main/java/org/jgrasstools/hortonmachine/modules/demmanipulation/pitfiller/OmsDePitter.java:105-231 | the loop of the rounds from the full scan's list: the record starts at the copy of the raster as given; an error ends the run Finished, otherwise the record holds every completed round, the raster equals the last copy, and the loop stopped because the list is empty or no round is left |
| DePitter.NextRound | hortonmachine/src/main/java/org/jgrasstools/hortonmachine/modules/demmanipulation/pitfiller/OmsDePitter.java:107-231 | one iteration: a completed round is recorded with a copy of the raster it left and the record goes one round on; a round that fails leaves the raster as it was and the run Finished with its NoDrain |
| DePitter.Record | hortonmachine/src/main/java/org/jgrasstools/hortonmachine/modules/demmanipulation/pitfiller/OmsDePitter.java:202-226 | a fresh copy of the raster a completed round left, with the record one round on |
| DePitter.RanMore | hortonmachine/src/main/java/org/jgrasstools/hortonmachine/modules/demmanipulation/pitfiller/OmsDePitter.java:107-231 | appending one round that runs from the last recorded raster and list extends a recorded run |
| DePitter.RoundAtKept | hortonmachine/src/main/java/org/jgrasstools/hortonmachine/modules/demmanipulation/pitfiller/OmsDePitter.java:107-231 | a round recorded in a run stays recorded, at the same place, when a round is appended |
| DePitter.RoundAtAdded | hortonmachine/src/main/java/org/jgrasstools/hortonmachine/modules/demmanipulation/pitfiller/OmsDePitter.java:107-231 | a round step from the run's last raster and list is recorded as the appended round |
| DePitter.RoundRecorded | hortonmachine/src/main/java/org/jgrasstools/hortonmachine/modules/demmanipulation/pitfiller/OmsDePitter.java:113-226 | what `Round` ensures on success is exactly one recorded round step from the copy before it |
| DePitter.RoundStepAgrees | hortonmachine/src/main/java/org/jgrasstools/hortonmachine/modules/demmanipulation/pitfiller/OmsDePitter.java:113-226 | a recorded round step holds as well of a copy of the raster it left |
| DePitter.RunStarts | hortonmachine/src/main/java/org/jgrasstools/hortonmachine/modules/demmanipulation/pitfiller/OmsDePitter.java:105 | before any round, the record is the copy of the raster as given with its full-scan list |
| DePitter.RunningOn | hortonmachine/src/main/java/org/jgrasstools/hortonmachine/modules/demmanipulation/pitfiller/OmsDePitter.java:107-231 | a round recorded after the rounds so far keeps their record, with the latest list, one round on |
| DePitter.NoRoundWithoutPits | hortonmachine/src/main/java/org/jgrasstools/hortonmachine/modules/demmanipulation/pitfiller/OmsDePitter.java:105-107 | a raster without candidates has an empty full-scan list, so no round runs |
| DePitter.RunKept | hortonmachine/src/main/java/org/jgrasstools/hortonmachine/modules/demmanipulation/pitfiller/OmsDePitter.java:105-231 | whatever ends the rounds, the record stays, the raster is the last copy, no-value cells keep their elevation, and a raster without candidates ends unchanged without error |
| DePitter.RunCompleted | hortonmachine/src/main/java/org/jgrasstools/hortonmachine/modules/demmanipulation/pitfiller/OmsDePitter.java:107-231 | when the last scan found nothing, the last pools are settled in the raster and no cell beside them is a candidate, and without a round no cell is one |
| DePitter.RunOutOfRounds | hortonmachine/src/main/java/org/jgrasstools/hortonmachine/modules/demmanipulation/pitfiller/OmsDePitter.java:107-231 | when the round budget is spent with a non-empty list, a candidate is left beside the last pools, or in the raster as given without a round |
| DePitter.RunStopped | hortonmachine/src/main/java/org/jgrasstools/hortonmachine/modules/demmanipulation/pitfiller/OmsDePitter.java:107 | the rounds stop on an empty list with success, or on the spent budget with RoundLimit, either way Finished |
| DePitter.RunFailed | hortonmachine/src/main/java/org/jgrasstools/hortonmachine/modules/demmanipulation/pitfiller/OmsDePitter.java:183-188 | a round that fails on a candidate of its list ends the run Finished with NoDrain naming it |
| DePitter.CandidateLeft | hortonmachine/src/main/java/org/jgrasstools/hortonmachine/modules/demmanipulation/pitfiller/OmsDePitter.java:316-335 | a non-empty full-scan list means the raster has a candidate |
| DePitter.CandidateBeside | hortonmachine/src/main/java/org/jgrasstools/hortonmachine/modules/demmanipulation/pitfiller/OmsDePitter.java:337-362 | a non-empty incremental-scan list means a candidate lies beside the nodes, in any copy of the raster |
| DePitter.RoundStepFacts | hortonmachine/src/main/java/org/jgrasstools/hortonmachine/modules/demmanipulation/pitfiller/OmsDePitter.java:113-226 | a recorded round had candidates and pools, settles its pools, writes no no-value cell, and its next list holds exactly the valid candidates beside its pool cells |
| DePitter.RoundAtFacts | hortonmachine/src/main/java/org/jgrasstools/hortonmachine/modules/demmanipulation/pitfiller/OmsDePitter.java:107-231 | the same for round k + 1 of a recorded run |
| DePitter.Process | hortonmachine/src/main/java/org/jgrasstools/hortonmachine/modules/demmanipulation/pitfiller/OmsDePitter.java:103-256 | what Rounds promises, run record included, and on success the flow raster holds `FlowCode` of the final elevations for every cell; an error of the rounds is returned as it is |

## Left out

- Raster and coverage conversion, output building, the progress monitor and
  cancellation are left out. They are foreign I/O or reporting. The rasters
  are `array2` parameters, and the `iteration` and `count` counters used
  only in messages are dropped.
- The `parallelStream` over the pools runs as a sequential loop in list
  order. Pools of one round share the elevation raster and the mark matrix, so
  with real threads the order of the pools, and interleavings within them, are
  not captured.
- `ConcurrentLinkedQueue` and `ArrayList` are modelled as sequences.
- Floating point is left out:
  - elevations are exact reals;
  - the NaN no-value is a separate read-only mask;
  - plus and minus infinity are an absent `Option`;
  - `Delta` is the exact real 0.000002.
- The two exceptions (lines 183 and 188) both become `Fail(NoDrain(pit))`.
  Their messages are not modelled.
- `GridNode`, `BitMatrix`, `FlowNode` and `JGTConstants` are not part of
  this model. Their behaviour is the set of assumptions listed above.
- FlowPass.FlowOf: `GridNode.getFlow` is not part of this model. It is
  replaced by steepest descent:
  - the slope is the drop divided by xRes, yRes or a caller-supplied diagonal
    distance;
  - on ties the lowest direction code wins.
- DePitter.Rounds: the outer `while` of OmsDePitter.process has no bound,
  and the model does not prove that it terminates. A round budget
  `maxRounds` stops it with `RoundLimit`, which is reported only once
  `maxRounds` rounds have run and the last scan still found a candidate.
- DePitter.Rounds: the model does not prove that the final raster is free
  of pits. Like OmsDePitter.process, it stops when an incremental scan finds
  none, and what it proves is that scan's verdict: no cell beside the last
  round's pools is a pit candidate.
- DePitter.Rounds: the run record (`history`, `lists`, `pools`) is ghost.
  The copies of the raster exist only in the proof, and the code keeps no
  such record.
- Flats.FlattenPools: it does not give each pool cell's exact final value.
  It states a lower bound (the exit elevation of the last pool holding the
  cell) and that the value lies on the slopes of the round's pools, some
  number of `Delta` steps above one of their exit elevations. The exact value
  depends on how the pools of one round overlap: a later pool whose exit has
  the same elevation can raise a marked cell that an earlier pool's slope
  used as its lower neighbour. So the closure and slope of `FlattenPool` are
  stated per pool and not carried to the end of the round.
- DePitter.Round: pool cells are stated only as `FlattenPools` states them,
  for the same reason.
- Flats.FillPool does not claim that filling only raises. The two lemmas
  above give the cases where it does. Two cases can lower a cell:
  - a cell whose valid neighbours all lie in the pool is absorbed whatever its
    elevation, and is then set to the exit elevation;
  - pools of one round may overlap, because growth excludes only its own pool
    (line 143), so a later pool can refill cells of an earlier one.
- PitPool.ResolvePits does not claim that the pools of one round are
  disjoint, since the code does not make them so.
