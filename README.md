# Fourmi: a verified model of the ant-colony forager

Fourmi simulates ants that look for food in a maze and lay pheromone
trails back to their nest. The simulation engine exists twice:

- the **original version** is `labyrinthe.py`, `pheromone.py` and `fourmi.py`;
- the **rewrite** is `maze.py` and `colony.py`.

This project models both versions in Dafny and proves what they promise.

- **Maze generation** (`Labyrinthe`, `Maze`, `MazeSpec`, `MazeTree`,
  `ParkMiller`, `Exits`). Both generators are one randomized depth-first carver over a
  grid of 4-bit exit masks (North 1, East 2, South 4, West 8), with an
  explicit stack (`historic`) and a visited grid. They differ in two ways:
  - the order in which candidate neighbours are tested:
    `labyrinthe.py` tests West, East, South, North; `maze.py` tests North,
    South, West, East;
  - where the random index comes from: a Park–Miller seed in
    `labyrinthe.py`, NumPy in `maze.py`, which is an input sequence here.

  The carver is written once, as a function on values (`MazeSpec.Step`,
  `MazeSpec.Run`, `MazeSpec.Generate`), and its properties are proved on
  it once (`MazeSpec`, `MazeTree`): the result is a perfect maze, in
  which every cell is connected to every other one and exactly
  n0 * n1 - 1 passages are open. Both generators are imperative methods
  over `array2` that are proved to compute `Generate`. The `maze.py` border pass is proved to
  change nothing.
- **Pheromone field** (`Pheromone`). This is a grid with a one-cell ghost
  margin. `initPheromone` and `doEvaporation` are functions. `mark`
  writes one cell of an `array2` in place.
- **Per-ant decisions** (`Foraging`). These are shared by both colonies:
  - what an ant smells;
  - the exploring move and its no-U-turn acceptance test;
  - the following step, which sums the steps of all tied maximal sides
    and can be diagonal;
  - death, pickup and the walk back to the nest;
  - the slot invariant `AntOk`.
- **Colonies** (`Colony` for `colony.py`, `Fourmi` for `fourmi.py`). Each
  is a class whose fields are the structure-of-arrays state: loaded flag,
  age, age of death, path history and direction. `fourmi.py` also keeps
  one Park–Miller seed per ant. The methods update the fields with masked
  bulk assignments. Each method states every slot's new value through a
  pure per-ant function (`ExploreAnt`, `TickAnt`, `AdvanceAnt`). The
  properties are proved about those functions, and the slot invariant is
  kept by every tick.

The rejection loop of `explore` only ends with probability one. It is
cut after `fuel` rounds.

- In `colony.py`, the supplied rounds of draws are the fuel.
- In `fourmi.py`, `fuel` is a parameter.

In `fourmi.py`, the methods also say how many rounds ran and prove that
it was the first round after which every explorer had a draw accepted,
unless the fuel ran out. In `colony.py`, the loop states only each
slot's result: the first accepted draw of its column, if any.

The model follows the code wherever the code's behaviour differs from
its comments or its description. For example, `advance` in `fourmi.py`
marks each ant's cell on the field as it stands after the earlier
marks (in slot order), and the rewrite's `update` computes every
deposit from the original field.

## Model

| member | source | states |
|---|---|---|
| Exits.Opposite | maze.py:28-43 | The opposite side is a different side with a different mask bit. |
| Exits.Move | maze.py:25-43 | The neighbour on a side is a different cell in the same row or the same column. |
| Exits.MoveBack | maze.py:28-43 | Moving to a side and then to its opposite comes back to the start, so each carve pairs a cell with its neighbour. |
| Exits.MaskIsSumOfExits | labyrinthe.py:2-7 | A cell value in 0..15 is the sum of the masks of its exits, and it is 0 exactly when the cell has no exit. |
| Exits.OrOpens | maze.py:54-55 | OR-ing the mask of side s into a value opens side s, keeps every other side, keeps the value in 0..15 and makes it non-zero. |
| Exits.AndCloses | maze.py:61-64 | AND-ing a value with 15 minus the mask of side s closes side s, and leaves a value without side s unchanged. |
| Exits.Set | pheromone.py:27 | A grid write changes exactly the named cell and keeps the shape of the grid. |
| Exits.Fill | maze.py:11 | A filled grid has the given dimensions and holds the given value everywhere. |
| Exits.ToGrid | maze.py:11 | The grid value of an array has the array's dimensions and its contents. |
| Exits.SetCell | labyrinthe.py:61-62 | Writing one array cell is the grid write on its value. |
| Exits.SumThreeIsReverse | colony.py:96-97 | Under valid direction codes, two codes sum to 3 exactly when their sides are opposite, so the sum test of the source forbids exactly turning back. |
| ParkMiller.Next | labyrinthe.py:57 | One step of the minimal standard generator gives a value in [0, 2^31 - 1). |
| ParkMiller.IterateInRange | fourmi.py:186 | Any number of steps from a seed in range, or at least one step from any seed, stays in [0, 2^31 - 1). |
| ParkMiller.IterateAdd | fourmi.py:186 | Advancing a times and then b times is advancing a + b times. |
| ParkMiller.IterateShift | fourmi.py:129 | Advancing once and then k times is advancing k + 1 times. |
| Pheromone.BesideIndices | pheromone.py:22-25 | mark reads the ghost indices (r+1, c) West, (r+1, c+2) East, (r+2, c+1) South and (r, c+1) North. |
| Pheromone.InitPheromone | pheromone.py:10-13 | The initial field is (d0+2) x (d1+2), with 1.0 at (food0+1, food1+1) and 0 everywhere else. |
| Pheromone.InitPheromoneInUnit | pheromone.py:10-13 | The initial field lies in [0, 1], and its maximum 1.0 is on the food cell only. |
| Pheromone.DoEvaporation | pheromone.py:15-16 | Evaporation keeps the shape and multiplies every entry by beta. |
| Pheromone.EvaporationKeepsSign | pheromone.py:15-16 | A zero field stays zero; a non-negative field stays non-negative for beta >= 0. |
| Pheromone.EvaporationKeepsUnit | pheromone.py:15-16 | With beta in [0, 1], a field in [0, 1] stays in [0, 1]. |
| Pheromone.Sensed | pheromone.py:22-26 | A side without its flag contributes 0; a flagged side contributes its neighbour's value clamped at 0; the contribution is never negative. |
| Pheromone.Max | pheromone.py:27 | The maximum is at least both values and equals one of them. |
| Pheromone.BlendWithin | pheromone.py:27 | For alpha in [0, 1] and non-negative inputs, alpha * max + (1 - alpha) * 0.25 * sum lies between 0 and the largest input. |
| Pheromone.Marked | pheromone.py:27 | The field after mark keeps the shape of the field. |
| Pheromone.DepositWithin | pheromone.py:22-27 | The deposit is non-negative; it is at most 1 when every flagged neighbour is at most 1; it is 0 when no flag is set. |
| Pheromone.ClosedSideIgnored | pheromone.py:22-25 | Changing the value stored beside a side whose flag is clear does not change the deposit. |
| Pheromone.MarkKeepsUnit | pheromone.py:18-27 | With alpha in [0, 1], mark keeps a field inside [0, 1]. |
| Pheromone.FlagListMatchesCodes | pheromone.py:22-25 | The list [north, east, west, south] that `advance` passes, indexed by direction code, gives each side its own flag for every flag value exactly when the codes are North 0, East 1, West 2, South 3. |
| Pheromone.Mark | pheromone.py:18-27 | For a position with both coordinates >= 0 inside the array, mark writes the deposit at (r+1, c+1), and every other cell keeps its value. |
| Colony.SmellInUnit | colony.py:144-155 | On a field inside [0, 1], every masked scent lies inside [0, 1]. |
| Colony.ReinforcedKeepsUnit | colony.py:144-168 | With ALPHA in [0, 1], the reinforced copy of a field inside [0, 1] stays inside [0, 1]. |
| MazeSpec.Candidates | maze.py:25-43 | The candidates are exactly the sides of the generator's order whose neighbour is on the grid and unvisited, at most four of them. |
| MazeSpec.CandidatesOfFour | labyrinthe.py:42-53 | With four sides, the candidates are the four guarded appends, in the order given. |
| MazeSpec.Carve | maze.py:54-55 | A carve keeps the grid shape. |
| MazeSpec.CarveArray | maze.py:54-55 | The two in-place OR updates on the array are the carve on its grid value. |
| MazeSpec.Step | maze.py:18-58 | One turn of the loop keeps the state well-formed: grid shapes, and a stack and a centre on the grid. |
| MazeSpec.Run | maze.py:18-58 | Any number of turns keeps the state well-formed. |
| MazeSpec.UnreachedMember | maze.py:16-58 | A cell is unreached exactly when it is on the grid, unvisited and not on the stack. |
| MazeSpec.AllCellsSize | maze.py:11 | An n0 x n1 grid has n0 * n1 cells. |
| MazeSpec.InitialUnreached | maze.py:13-16 | At the start, every cell but the centre is unreached. |
| MazeSpec.InitialInv | labyrinthe.py:26-32 | The initial state (zero maze, nothing visited, the centre on the stack) satisfies the loop invariant, and its measure is 2 * n0 * n1 - 1 turns. |
| MazeSpec.CarveExits | maze.py:54-55 | After a carve, a cell has an exit on a side exactly when it had one before or the side is the carved passage from either end. |
| MazeSpec.CarveMasks | maze.py:54-55 | A carve keeps every value in 0..15, gives both ends an exit and removes no exit. |
| MazeSpec.CarveNoOffGrid | labyrinthe.py:42-53 | A carve between two on-grid cells creates no exit leading off the grid. |
| MazeSpec.CarveSymmetric | maze.py:28-43 | A carve keeps passages symmetric: open from one side exactly when open from the other. |
| MazeSpec.CarveUnreached | maze.py:52 | A carve pushes an unreached cell, and the unreached set loses exactly that cell. |
| MazeSpec.CarveFinished | maze.py:52 | A carve leaves every finished cell finished. |
| MazeSpec.CarveStackInv | maze.py:52 | A carve keeps the stack invariant (distinct cells, each an on-grid neighbour of the previous one, one carve per push). |
| MazeSpec.CarveExitsInv | maze.py:54-55 | After a carve, every reached cell other than a lone centre has an exit. |
| MazeSpec.CarveStep | maze.py:45-55 | Carving toward a candidate keeps the invariant and lowers the measure by one. |
| MazeSpec.PopFinished | maze.py:57-58 | A popped cell has no unvisited neighbour left, so it is finished. |
| MazeSpec.PopUnreached | maze.py:57-58 | A pop leaves the unreached set as it was. |
| MazeSpec.PopExitsInv | maze.py:57-58 | A pop keeps the exits invariant. |
| MazeSpec.PopStackInv | maze.py:57-58 | A pop keeps the stack invariant. |
| MazeSpec.PopStep | maze.py:57-58 | Popping a top without candidates keeps the invariant and lowers the measure by one. |
| MazeSpec.StepCarves | labyrinthe.py:54-63 | With candidates, the turn carves toward the candidate at index (draw mod count) and pushes it. |
| MazeSpec.StepPops | labyrinthe.py:64-65 | Without candidates, the turn pops the top. |
| MazeSpec.StepInv | maze.py:18-58 | Every turn keeps the loop invariant and lowers the measure by exactly one, so the loop terminates. |
| MazeSpec.StepTowardsFinal | labyrinthe.py:33-65 | One turn keeps the invariant and the relation between the loop state and the final result. |
| MazeSpec.EmptyIsFinal | labyrinthe.py:33 | Once the stack is empty, the loop state is the final state. |
| MazeSpec.RunKeeps | maze.py:18 | Any property kept by every turn holds after the loop. |
| MazeSpec.RunEmpties | maze.py:18 | When every turn lowers the measure by one, the loop empties the stack within measure turns. |
| MazeSpec.RunInv | maze.py:18-58 | The loop keeps the invariant and ends with an empty stack. |
| MazeSpec.WalkRows | maze.py:25-33 | A visited set closed under moves to on-grid neighbours contains the whole column of any of its cells. |
| MazeSpec.WalkCols | maze.py:35-43 | A visited set closed under moves to on-grid neighbours contains the whole row of any of its cells. |
| MazeSpec.EmptyStackCoversGrid | maze.py:16-58 | With the stack empty, every cell is visited, exactly n0 * n1 - 1 carves were made, and with two or more cells every cell has an exit. |
| MazeSpec.FinalState | labyrinthe.py:31-65 | The search ends with an empty stack, every cell visited and exactly n0 * n1 - 1 carves. |
| MazeSpec.GenerateIsWellFormed | maze.py:10-58 | The maze has every cell in 0..15, no exit off the grid and symmetric passages; with two or more cells, every cell has an exit. |
| MazeSpec.RunUnfold | labyrinthe.py:33 | With a non-empty stack, the loop is one turn followed by the rest of the loop. |
| MazeTree.PassagesMember | maze.py:54-55 | A passage is counted once, by its west or north end: an on-grid cell with an East or South exit. |
| MazeTree.AdjacentBack | maze.py:54-55 | Because both ends of a passage are opened, a move through an open exit can be taken back. |
| MazeTree.WalkInBounds | maze.py:25-43 | Every cell of a walk through open exits is on the grid. |
| MazeTree.ConnectedBack | maze.py:54-55 | In a maze with symmetric passages, a cell connected to another is connected back. |
| MazeTree.ConnectedJoin | maze.py:54-55 | Two walks that meet join into one: connection is transitive. |
| MazeTree.CarveKeepsWalk | maze.py:54-55 | A carve only opens exits, so every walk stays a walk. |
| MazeTree.CarveConnected | maze.py:52-55 | After a carve every connection still holds, and the pushed cell is connected to whatever the top was connected to. |
| MazeTree.CarvePassages | maze.py:54-55 | Carving from a cell to a closed neighbour opens exactly one new passage. |
| MazeTree.InitialTree | maze.py:13-16 | At the start the centre is connected to itself, every cell is closed and no passage is open. |
| MazeTree.CarveTree | maze.py:45-55 | A carve keeps every reached cell connected to the centre and every unreached cell closed, and adds one passage per carve. |
| MazeTree.PopTree | maze.py:57-58 | A pop changes neither the maze nor the set of reached cells. |
| MazeTree.StepTree | maze.py:18-58 | Every turn keeps reached cells connected to the centre, unreached cells closed, and one open passage per carve. |
| MazeTree.RunTree | maze.py:18-58 | The loop ends with both invariants: every reached cell connected to the centre and as many passages as carves. |
| MazeTree.GenerateIsPerfect | maze.py:10-58 | The generated maze is well-formed; every cell is connected to every other one through open passages; exactly n0 * n1 - 1 passages are open; with two or more cells every cell has an exit. |
| Labyrinthe.LabyrinthParams | labyrinthe.py:19-31 | The original generator's parameters: the given dimensions and the Park–Miller seed as the random source. |
| Labyrinthe.Neighbours | labyrinthe.py:39-53 | The neighbour list is exactly the candidates tested West, East, South, North. |
| Labyrinthe.Turn | labyrinthe.py:34-65 | One loop turn on the arrays, the stack and the seed performs `Step`: the seed advances once per carve and picks index seed mod count. |
| Labyrinthe.BuildMaze | labyrinthe.py:19-67 | The maze is the carver's result for these dimensions and this seed, so the same arguments give the same maze; it is well-formed and perfect (every cell connected to every other, d0 * d1 - 1 open passages), and with two or more cells every cell has an exit. |
| Maze.MazeParams | maze.py:10-16 | The rewrite's parameters: the given dimensions and the stream of draws as the random source. |
| Maze.Neighbours | maze.py:19-43 | The neighbour list is exactly the candidates tested North, South, West, East. |
| Maze.Turn | maze.py:18-58 | One loop turn on the arrays and the stack performs `Step`, consuming one draw per carve. |
| Maze.ColumnClosed | maze.py:61-62 | In a well-formed maze, column 0 has no West exit and the last column has no East exit. |
| Maze.RowClosed | maze.py:63-64 | In a well-formed maze, row 0 has no North exit and the last row has no South exit. |
| Maze.MaskColumn | maze.py:61-62 | Masking a column whose cells lack that side changes nothing. |
| Maze.MaskRow | maze.py:63-64 | Masking a row whose cells lack that side changes nothing. |
| Maze.PutBorders | maze.py:60-64 | On the carved maze, the border pass changes nothing. |
| Maze.CarveMaze | maze.py:11-58 | The carved array is the carver's maze for these dimensions and draws; it is well-formed and perfect (every cell connected to every other, width * height - 1 open passages), and with two or more cells every cell has an exit. |
| Maze.Maze.constructor | maze.py:10-66 | The map is the carved width x height maze, unchanged by the border pass: well-formed, every cell connected to every other through width * height - 1 open passages, and with two or more cells an exit in every cell. The pheromone grid is (width+2) x (height+2) zeros. |
| Foraging.Smell | colony.py:49-62 | Each side reads its ghost-grid neighbour if the cell has an exit there, and 0 otherwise. |
| Foraging.Strongest | colony.py:64-66 | The strongest scent is at least every side's scent and is reached on some side. |
| Foraging.StrongestNonNegative | fourmi.py:139-159 | On a non-negative field, the strongest scent is non-negative. |
| Foraging.ExploreMoveIsOneStep | colony.py:88-91 | A draw of a side's code moves one step through that side if it has an exit, and otherwise stays; any other draw stays. |
| Foraging.AcceptsExactly | colony.py:93-98 | A draw is accepted exactly when it is the code of a side with an exit that is not the way back, or the cell has a single exit; no other draw is accepted. |
| Foraging.SomeDrawAccepted | colony.py:82-98 | A cell has an accepted draw, whatever the previous direction, exactly when it has an exit. |
| Foraging.SideOf | fourmi.py:188 | A draw in 0..3 is the code of exactly one side. |
| Foraging.AcceptedMoveStaysOnGrid | fourmi.py:211-222 | In a maze without exits off the grid, an accepted move is one orthogonal step through an exit, and it stays on the grid. |
| Foraging.FirstAccepted | colony.py:82-105 | The first accepted draw, if any, is accepted and is one of the draws; there is none exactly when every draw is rejected. |
| Foraging.FirstAcceptedSnoc | colony.py:105 | One more round of draws only changes the outcome of an ant not yet accepted. |
| Foraging.FirstAcceptedPrefix | colony.py:105 | Once an ant is accepted, later draws do not change its move. |
| Foraging.FollowUniqueMaximum | colony.py:110-122 | A unique strongest side gives one step toward it. |
| Foraging.FollowTieIsDiagonal | colony.py:119-122 | Equal strongest scents North and East give a diagonal step, which is no orthogonal move. |
| Foraging.FollowStaysOnGrid | fourmi.py:242-265 | A following ant smells a strongest scent other than 0, so every tied side has an exit; even a diagonal step stays on the grid. |
| Foraging.StartPath | colony.py:19-21 | The initial path has span + 1 entries, the nest at index 0 and (0, 0) after it. |
| Foraging.Stepped | colony.py:102-103 | An accepted move is written at age + 1, the direction becomes the draw, and everything else is kept. |
| Foraging.Explored | colony.py:82-105 | Exploring changes only the path entry at age + 1 and the direction. |
| Foraging.Respawned | colony.py:124-129 | An ant whose age equals its lifetime gets age 0, the nest at index 0 and no direction, and keeps its loaded flag; any other ant is unchanged. |
| Foraging.PickedUp | colony.py:131-139 | An ant standing on the food becomes loaded; a loaded ant stays loaded. |
| Foraging.OnGridUpdate | colony.py:102 | Writing an on-grid position into an on-grid path keeps it on the grid. |
| Foraging.Aged | colony.py:107 | An unloaded ant grows one step older; a loaded one is unchanged. |
| Foraging.ReturnedWalksBack | colony.py:34-43 | A loaded ant ends on the entry before its current one, and it is unloaded exactly when that entry is the nest; paths and directions are kept, unloaded ants are untouched and the slot invariant holds. |
| Foraging.Column | colony.py:83 | A slot's column holds its draw of every round. |
| Foraging.ExploredSnoc | colony.py:100-105 | After one more round, an accepted ant keeps its move, and a pending ant moves on the new draw if it accepts it. |
| Foraging.ExploredPrefix | colony.py:105 | Rounds after an ant's acceptance do not change its move. |
| Foraging.ExploreRoundStep | colony.py:83-105 | One round for one ant gives the ant explored over the draws so far; it is still pending exactly when no draw was accepted. |
| Colony.FloorBounds | colony.py:16-17 | A draw in [0.75 * MAX_AGE, MAX_AGE], truncated, lies in [3 * MAX_AGE div 4, MAX_AGE]. |
| Colony.FollowedAt | colony.py:115-122 | The following write goes at the already incremented age, from the entry before it. |
| Colony.ExploreAntKeepsOk | colony.py:45-139 | In a maze without exits off the grid, with the food away from the nest, explore keeps the slot invariant: the nest at index 0, every position on the grid and the age below the lifetime. |
| Colony.ExploreAntLeavesLoaded | colony.py:71-72 | A loaded ant neither explores, follows nor ages, and under the slot invariant its age is below its lifetime, so explore leaves it exactly as it was. |
| Colony.ExploreAntMoves | colony.py:45-139 | An unloaded ant respawns at the nest at its lifetime. Otherwise it is one step older, one step along its first accepted draw (or on the stale next entry if none was accepted), or on the following step with its direction kept. It is loaded exactly when it stands on the food. |
| Colony.ReinforcementAgreesWithMark | colony.py:158-168 | On the masked scents, the rewrite's deposit equals the original `mark` blend, and for ALPHA in [0, 1] it lies between 0 and the strongest scent. |
| Colony.Reinforced | colony.py:165-168 | The reinforced copy keeps the ghost-margin shape. |
| Colony.ReinforcedAt | colony.py:165-168 | The order of the writes does not matter: an occupied cell holds the deposit computed from the original field, and every other cell keeps its value. |
| Colony.Columns | colony.py:83 | Every slot's column of the rounds. |
| Colony.Appended | colony.py:83 | One more round appends each slot's draw to its column. |
| Colony.ColumnsSnoc | colony.py:82-83 | Taking one more round appends that round's draw to every column. |
| Colony.Reinforce | colony.py:165-168 | The copy of the field with every occupied cell reinforced from the original field is a fresh array. |
| Colony.Scale | colony.py:170 | BETA * pheromones is a fresh array equal to the evaporated field. |
| Colony.Colony.Ants | colony.py:9-23 | All slots, as ants. |
| Colony.Colony.constructor | colony.py:9-23 | Every ant is unloaded, of age 0, with no direction (-1) and a path holding the nest at index 0. Its age of death is its draw truncated, in [3 * MAX_AGE div 4, MAX_AGE]. With MAX_AGE >= 2, the slot invariant holds for every maze containing the nest. |
| Colony.Colony.PosAnts | colony.py:25-27 | Each ant's position is its path entry at its current age. |
| Colony.Colony.PoseAnts | colony.py:29-32 | Each ant's position paired with its direction. |
| Colony.Colony.ReturnNest | colony.py:34-43 | Every loaded ant steps back one entry. Exactly the ants that were loaded and are now unloaded are those whose previous entry was the nest; they get age 0. food_collected is their number. Unloaded ants and paths are untouched, and the slot invariant is kept. |
| Colony.Colony.ExploreRound | colony.py:83-105 | Each pending ant that accepts its draw writes its move at age + 1 and takes the draw as direction; the rejected ants are exactly the pending ones that reject it. |
| Colony.Colony.ExploreStep | colony.py:82-105 | One round keeps the loop state: every exploring slot is its original ant explored over its draws so far. |
| Colony.Colony.ExploreLoop | colony.py:74-105 | After the loop, every exploring slot is its original ant explored over its column of draws, and every other slot is untouched. |
| Colony.Colony.ExploringInitially | colony.py:74-82 | Before any round, every explorer is pending and every slot is its original ant. |
| Colony.Colony.ExploringDone | colony.py:82-105 | When the loop stops, every slot is explored over its whole column. |
| Colony.Colony.AgeUnloaded | colony.py:107 | Every unloaded ant grows one step older. |
| Colony.Colony.Follow | colony.py:109-122 | Each following ant's entry at its age is the following step from the entry before; the other slots are unchanged. |
| Colony.Colony.Respawn | colony.py:124-129 | Every ant whose age reached its lifetime restarts at the nest with age 0 and no direction. |
| Colony.Colony.PickUp | colony.py:131-139 | Every ant standing on the food becomes loaded. |
| Colony.Colony.Settle | colony.py:107-139 | Ageing, following, death and pickup, in this order, applied to every slot. |
| Colony.Colony.ExplorePhases | colony.py:74-139 | With the exploring and following ants fixed, every slot ends as `ExploreAnt` says. |
| Colony.Colony.Explore | colony.py:45-139 | Every slot changes as `ExploreAnt` says, from what its ant smells before moving, its draw and its column of draws; the slot invariant is kept. |
| Colony.Colony.ExploreOn | colony.py:45-139 | explore on a snapshot of the maze's cells and field, with the same per-slot result and invariant. |
| Colony.Colony.Update | colony.py:141-170 | Every slot ends as `TickAnt` (return to the nest, then explore) says, and every ant stays on the grid. The result is BETA times the copy with every occupied cell reinforced from the original field. maze.pheromones is not modified. With the field inside [0, 1] and ALPHA and BETA in [0, 1], the result stays inside [0, 1]. |
| Fourmi.LifeSpan | fourmi.py:44-45 | The age of death lies in [maxLife - (maxLife - 1) div 4, maxLife]. |
| Fourmi.QuotientBelow | fourmi.py:45 | The truncated quarter of maxLife * seed / (2^31 - 1) is non-negative and at most (maxLife - 1) div 4. |
| Fourmi.SeedDraws | fourmi.py:186-188 | Round j's direction is the seed advanced j + 1 times, modulo 4, in 0..3. |
| Fourmi.SeedDrawsPrefix | fourmi.py:186-188 | Fewer rounds draw a prefix of the same directions. |
| Fourmi.ExploresOrFollows | fourmi.py:166-172 | No ant both explores and follows; on a non-negative field, every unloaded ant does exactly one; with a negative strongest scent and a large decision value, it does neither. |
| Fourmi.FollowedNext | fourmi.py:242-265 | The following write goes at age + 1, before ageing; age, lifetime, flag and direction are kept. |
| Fourmi.ExploreAntKeepsOk | fourmi.py:127-290 | In a maze without exits off the grid, with the food away from the nest, the explore tick of an unloaded ant keeps the slot invariant. |
| Fourmi.ExploreAntMoves | fourmi.py:127-290 | An unloaded ant respawns at the nest at its lifetime. Otherwise it is one step older and is in one of three places: one step through an exit along its first accepted draw (never the way back unless at a dead end), the following step, or the stale next entry. It is loaded exactly when it stands on the food. |
| Fourmi.AdvancePhases | fourmi.py:293-299 | The walk back of the loaded ants, followed by explore on the unloaded ones, is `AdvanceAnt`. |
| Fourmi.AdvanceAntKeepsOk | fourmi.py:292-299 | advance keeps the slot invariant. An ant loaded at the start only walks back, and if it unloads at the nest it rests there with age 0 and does not explore in the same tick. |
| Fourmi.FlagsAt | fourmi.py:301-318 | The flag list passed to mark is [north, east, west, south] of the cell. |
| Fourmi.MarkedAll | fourmi.py:316-319 | Marking the ants one after the other keeps the ghost-margin shape. |
| Fourmi.MarkedAllKeepsUnit | fourmi.py:316-319 | With alpha in [0, 1], marking any sequence of ants keeps a field inside [0, 1]. |
| Fourmi.MarkedAllFrame | fourmi.py:316-319 | A cell no ant occupies keeps its value, and the last ant's cell holds the deposit computed on the field left by the earlier marks. |
| Fourmi.MarkAll | fourmi.py:301-319 | The marking loop leaves the field that marking every ant's cell in slot order gives. |
| Fourmi.DrawnAcceptedIff | fourmi.py:172-178 | The loop's stopping test on the explorer set is "every unloaded ant that explores has had a draw accepted". |
| Fourmi.SettledIffDrawn | fourmi.py:129 | That test on the seeds before the advance is the same test on the advanced seeds. |
| Fourmi.SettledOnUnloaded | fourmi.py:297-299 | The stopping test only looks at the unloaded ants, so returnToNest does not change it. |
| Fourmi.TickAfterRounds | fourmi.py:173-290 | The rejection loop followed by following, ageing, death and pickup composes to `ExploreAnt` for an unloaded ant and to death alone for the others. |
| Fourmi.TicksAfterRounds | fourmi.py:173-290 | The same composition on every slot. |
| Fourmi.ExploreKeepsOk | fourmi.py:127-290 | Every slot keeps the slot invariant through explore. |
| Fourmi.Colony.Ants | fourmi.py:33-55 | All slots, as ants. |
| Fourmi.Colony.constructor | fourmi.py:33-55 | The seeds are 1..nbAnts advanced once. Every ant is unloaded, of age 0, with DIR_NONE and a path holding posInit at index 0. Its age of death is `LifeSpan` of its seed, in [maxLife - (maxLife - 1) div 4, maxLife]. With maxLife >= 1, the slot invariant holds for every maze containing posInit. |
| Fourmi.Colony.PosAnts | fourmi.py:85 | Each ant's position is its path entry at its age. |
| Fourmi.Colony.Loaded | fourmi.py:293 | The loaded ants are exactly the slots whose flag is set. |
| Fourmi.Colony.Unloaded | fourmi.py:294 | The unloaded ants are exactly the slots whose flag is clear. |
| Fourmi.Colony.ReturnToNest | fourmi.py:61-95 | Every ant of loadedAnts steps back one entry. Exactly those now on the nest unload with age 0. The result is the input counter plus their number, and nothing else changes. |
| Fourmi.Colony.ExploreRound | fourmi.py:183-234 | Every seed advances. Each pending ant whose draw (seed mod 4) is accepted writes its move at age + 1 and takes the draw as direction. The rejected ants are exactly the pending ones that reject their draw. |
| Fourmi.Colony.MoveOnDraws | fourmi.py:188-234 | On the current seeds, each pending ant that accepts its draw writes its move; the seeds are unchanged. |
| Fourmi.Colony.ExploreStep | fourmi.py:183-234 | One round keeps the loop state: seeds one step further and each explorer explored over its seed's draws so far. |
| Fourmi.Colony.ExploreLoop | fourmi.py:173-234 | Every seed advances once per round. Every explorer ends explored over its seed's draws and every other slot is untouched. The number of rounds is the first after which every explorer is accepted, unless the fuel ran out. |
| Fourmi.Colony.ExploringInitially | fourmi.py:173-178 | Before any round, every explorer is pending with no draws. |
| Fourmi.Colony.PendingIffAccepted | fourmi.py:178 | No explorer is pending exactly when every explorer has had a draw accepted. |
| Fourmi.Colony.ExploringDone | fourmi.py:178-234 | When the loop stops, every explorer is explored over the draws of all fuel rounds, and an early stop means every explorer was accepted. |
| Fourmi.Colony.AdvanceSeeds | fourmi.py:129 | The seed of every unloaded ant takes one Park–Miller step; the other seeds and fields are kept. |
| Fourmi.Colony.FollowNext | fourmi.py:236-265 | Each following ant's entry after its current one becomes its following step; nothing else changes. |
| Fourmi.Colony.AgeUnloaded | fourmi.py:268-269 | Every unloaded ant grows one step older. |
| Fourmi.Colony.Respawn | fourmi.py:271-277 | Every ant, loaded or not, whose age equals its lifetime restarts at the nest with age 0 and DIR_NONE. |
| Fourmi.Colony.PickUp | fourmi.py:279-290 | Only the unloaded ants standing on the food become loaded. |
| Fourmi.Colony.Settle | fourmi.py:236-290 | Following, ageing of the unloaded ants, death of every ant and pickup by the unloaded ants, in this order. |
| Fourmi.Colony.ExplorePhases | fourmi.py:173-290 | With the explorers and followers fixed, every unloaded slot ends as `ExploreAnt` says and every other slot goes through death only. |
| Fourmi.Colony.Explore | fourmi.py:97-290 | The seeds of the unloaded ants advance. Every unloaded ant ends as `ExploreAnt` says, from what it smells before moving, and the other slots keep their ants. The round count is the first at which every explorer is settled (or the fuel). The slot invariant is kept. |
| Fourmi.Colony.ExploreOn | fourmi.py:97-290 | explore on a snapshot of the maze's cells and field, with the same contract. |
| Fourmi.Colony.ExploreDrawn | fourmi.py:132-290 | After the seed advance, the explorers and followers are chosen on the advanced seeds, and every unloaded slot ends as `ExploreAnt` says. |
| Fourmi.Colony.ExploreChosen | fourmi.py:162-290 | The choice of explorers and followers, then the loop and the rest of explore, gives `ExploreAnt` on every unloaded slot. |
| Fourmi.Colony.OkIsValid | fourmi.py:47-52 | The slot invariant on every slot makes the colony valid. |
| Fourmi.Colony.Advance | fourmi.py:292-320 | The loaded and unloaded sets are fixed first, and every slot ends as `AdvanceAnt` says. The counter grows by the ants that unloaded at the nest. The field is then every ant's cell marked in slot order, starting from the field explore read. |
| Fourmi.Colony.ReturnLoaded | fourmi.py:293-296 | returnToNest on the loaded ants, if there is any: every slot is walked back, unloaded slots are untouched, and the counter grows by the arrivals. |
| Fourmi.Colony.MoveAnts | fourmi.py:293-299 | returnToNest on the loaded ants, then explore on the ants unloaded at the start of the tick, gives `AdvanceAnt` on every slot. |
| Fourmi.Colony.ExploreUnloaded | fourmi.py:297-299 | explore runs only when some ant is unloaded, with the same contract as explore. |

## Left out

- Rendering and I/O are not modelled: pygame, `display.py`, `initCases`/`displayMaze`, `getColor`/`displayPheromon`, sprite loading and `display`, and the `__main__` loops.
- `main.py`, `parallel.py` and `sequential.py` are not part of this model. They are process plumbing, game loops and timing.
- `direction.py` and `constants.py` are not part of this model. DIR_N/E/W/S and DIR_NONE are parameters (`DirCodes`), required to be 0..3, distinct, with opposite directions summing to 3. MAX_AGE, EPSILON, ALPHA and BETA are parameters (`Colony.Constants`); `exploration_coefs` and `alpha` are parameters of `Fourmi.Colony.Advance`.
- NumPy's random draws are inputs and no distribution is claimed:
  - the draws of `maze.py:51` are a stream whose k-th value, reduced modulo the number of candidates, picks the k-th carve;
  - the lifetimes of `colony.py:16-17` are `lifeDraws`;
  - the explore test `colony.py:68` uses `draws`;
  - the direction rounds of `colony.py:83` are `rounds`.
- Colony.Colony.ExploreLoop: the rejection loop ends only with probability one, so it is cut when the supplied rounds run out. An ant still rejected then keeps its path and direction, and its age step lands on the stale next path entry.
- Fourmi.Colony.ExploreLoop: the rejection loop is cut after `fuel` rounds, with the same consequence for an ant that is never accepted.
- The module defaults `alpha = 0.7` and `beta = 0.9999` of `pheromone.py:7-8` are not constants of the model; `mark` and `doEvaporation` take the values as arguments, as their callers pass them.
- MazeSpec.Raw: a stream of draws shorter than the number of carves continues with draw 0. NumPy's generator never runs out, so the model says nothing about such a stream beyond what the carver then does.
- MazeTree.GenerateIsPerfect: acyclicity is not stated as a separate property. It follows from connectivity with n0 * n1 - 1 passages on n0 * n1 cells by the standard graph fact, which is not proved here.
- Foraging.SomeDrawAccepted: on a 1 x 1 maze the single cell has no exit, so no draw is ever accepted and the rejection loops of `colony.py:82-98` and `fourmi.py:180-234` never end. The fuel of the explore loops hides this: such an ant keeps its place.
- Pheromone values are reals. The float32/double rounding of NumPy is not modelled.
- Integers are unbounded. The int8/int16/int32 wrap-around of the NumPy dtypes is not modelled: path coordinates, directions, ages and cell masks stay small.
- Fourmi.LifeSpan: the float division `maxLife * (seed / 2147483647.)` of `fourmi.py:45` is modelled as the integer quotient `maxLife * seed div (2^31 - 1)`. The two can differ by float rounding.
- Colony.FloorBounds: the truncating cast of `colony.py:17` is `Floor` on a non-negative real.
- The `isVisited` int8 grid of `labyrinthe.py:27` is a boolean grid.
- Negative array indices are not modelled. NumPy wraps them around. Where the source could produce one, the methods require what rules it out:
  - `food != nest`: otherwise an ant loaded on the nest would step back to age -1;
  - dimensions of at least 1;
  - the slot invariant.
- The unused `foodCounter` argument of `fourmi.py` `explore` is not modelled.
- Colony.ReinforcementAgreesWithMark: the floor of `mark`'s clamp (`np.maximum(cells, 0.)`) has no counterpart in the rewrite's deposit. `ReinforcementAgreesWithMark` states the agreement only for non-negative scents.
- Pheromone.FlagListMatchesCodes: whether the codes of `direction.py` are North 0, East 1, West 2, South 3 cannot be checked here. The lemma states that `advance` passes the right flags exactly under that numbering.
