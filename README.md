# maze-racer, modelled in Dafny

maze-racer is a WASM-4 shooter played in a 13 x 13 maze. This project models the discrete part of
one simulation frame and proves properties of it:

- the grid geometry and the bitmask wall test (`src/util.rs`);
- the randomised depth-first maze carver (`src/state/maze.rs`);
- the four-player game state of `src/state.rs`. Each frame the player and three enemies move, fire
  and reload. The enemies find their way to the player with a depth-first path search. Bullets
  fly, strike other players and are dropped when they stop;
- the older single-player snapshot `src/state/mod.rs`, with the same reload machine and a bullet
  filter without hits;
- the dashboard data and the bullet-sprite data built by `src/view.rs`.

Modules follow the program:

| module | file | models |
|---|---|---|
| `Constants`, `Wrappers` | constants.dfy | the integer and real constants; `Option` |
| `Util` | util.dfy | `get_index`, `point_in_wall`, and `as usize` (saturating floor) |
| `Maze`, `Carve` | maze.dfy | `find_neighbors`, `there_is_no_passage_here`, `find_next_passage`, and the carve from cell 0 |
| `Arms` | arms.dfy | `Ammo`, `Bullet`, and the fire, kludge and reload steps on one ammo row |
| `Rules` | rules.dfy | the tentative move, the move-acceptance rule, one frame of bullet flight, and the in-flight filter |
| `Hits` | hits.dfy | the collision part of `update_bullets` in `src/state.rs` |
| `Tree` | tree.dfy | the tree shape of the carved maze that the enemy path search relies on |
| `Pathfinder` | pathfinder.dfy | `find_path` (search, pruning) and the enemy target cell |
| `Enemy` | enemy.dfy | the steering decision of `update_enemy` |
| `Game` | state.dfy | class `State` of `src/state.rs` |
| `SinglePlayer` | singleplayer.dfy | class `State` of `src/state/mod.rs` |
| `View` | view.dfy | `get_ammo_view` and `get_bullet_view` |

Modelling choices:

- Positions and angles are `real`. `x as usize` is `AsUsize`, a floor that saturates at 0.
- A `heapless::Vec<T, N>` is a `seq` with a capacity. Where a full vector's `push(..).unwrap()`
  panics, the model returns `ok == false`.
- `SliceRandom::shuffle` is a function the caller supplies. It must return a permutation of its
  input (`IsPermuter`).
- `cosf`, `sinf`, `atan2f` and `distance` are function parameters, and so is
  `get_center_from_index`. The collision window is a parameter `strike` over the geometry of one
  contact. A random jitter sample is a parameter.
  It stands for a draw from [0, 1), but no contract requires that; the jitter bound of
  `Game.Jitter` is stated for samples in that range.
- `tone` and `trace` calls become `Signal` values returned by the methods.

## Model

| member | source | states |
|---|---|---|
| Util.AsUsize | src/util.rs:10 | `x as usize` of a non-negative real is its floor; anything below 1 (negatives too) gives 0 |
| Util.GetIndex | src/util.rs:9-11 | `get_index`: the `as usize` of `x` plus the `as usize` of `y` times `width`; its meaning is stated by GetIndexInGrid and GetIndexDecode |
| Util.GetIndexInGrid | src/util.rs:9-11 | inside the grid the index is `floor(x) + floor(y) * width`, below `width * height` |
| Util.GetIndexIgnoresHeight | src/util.rs:9-11 | the index does not depend on the `height` argument |
| Util.GetIndexDecode | src/util.rs:9-11 | inside the grid, `index % width == floor(x)` and `index / width == floor(y)`, so distinct cells get distinct indices |
| Util.WallAtIsBit | src/util.rs:13-17 | a row past the end of the wall list is a wall; otherwise the result is bit `d2` of that row |
| Util.PointInWallIsBit | src/util.rs:13-17 | the same for real coordinates: a row index `d1 as usize` past the list is a wall; otherwise bit `d2 as usize` of the row |
| Util.EmptyRowHasNoWall | src/util.rs:15 | an all-zero row has no wall at any of its 16 bits |
| Util.MaskIsBit | src/util.rs:15 | masking with `1 << k` tests exactly bit `k` of a 16-bit row |
| Util.WallAt | src/util.rs:13-17 | the wall test on a row number and a bit number: a row past the list is a wall, otherwise the bit is tested with a one-bit mask; stated by WallAtIsBit |
| Util.PointInWall | src/util.rs:13-17 | `point_in_wall`: WallAt at the `as usize` of both coordinates; stated by PointInWallIsBit |
| Maze.FindNeighbors | src/state/maze.rs:6-34 | four entries: up, down, left, right |
| Maze.NeighborsByCoordinates | src/state/maze.rs:6-34 | in grid coordinates: up is the next row, down the previous, left and right the columns beside; `None` exactly past an edge |
| Maze.UpNeighbor | src/state/maze.rs:9-13 | `index < W*H - W` exactly when a next row exists; `index + W` is the cell above |
| Maze.DownNeighbor | src/state/maze.rs:15-19 | `index > W - 1` exactly when a previous row exists; `index - W` is the cell below |
| Maze.LeftNeighbor | src/state/maze.rs:21-25 | when the column is not the first, `index - 1` is the cell to the left in the same row |
| Maze.RightNeighbor | src/state/maze.rs:27-31 | `(index + 1) % W != 0` exactly when the column is not the last; `index + 1` is the cell to the right |
| Maze.NeighborsAreAdjacent | src/state/maze.rs:6-34 | a reported neighbour is exactly a grid cell that shares an edge with the index (both directions) |
| Maze.NeighborInGrid | src/state/maze.rs:6-34 | every reported neighbour of an in-grid index is in the grid and differs from the index |
| Maze.NeighborSymmetric | src/state/maze.rs:6-34 | the neighbour relation is symmetric |
| Maze.NeighborsOnFourByFour | src/state/maze.rs:78-103 | the three expected neighbour lists of `wont_you_be_my_neighbor` on a 4 x 4 grid |
| Maze.ThereIsNoPassageHere | src/state/maze.rs:36-47 | true exactly when no recorded passage joins the two cells, in either order |
| Maze.NoPassageSymmetric | src/state/maze.rs:36-47 | the answer does not depend on the order of the two cells |
| Maze.Flatten | src/state/maze.rs:61-62 | the cells kept are exactly the `Some` entries; the count of each is stated by FlattenCounts |
| Maze.Filter | src/state/maze.rs:63-64 | the cells kept are exactly those of the input that the predicate accepts; the count of each is stated by FilterCounts |
| Maze.FlattenCounts | src/state/maze.rs:61-62 | `flatten` keeps each cell exactly as often as `Some` of it occurs |
| Maze.FlattenConcat | src/state/maze.rs:61-62 | `flatten` distributes over concatenation, so the kept cells stay in the input's order |
| Maze.FilterConcat | src/state/maze.rs:63-64 | `filter` distributes over concatenation, so the accepted cells stay in the input's order |
| Maze.FilterCounts | src/state/maze.rs:63-64 | `filter` keeps each accepted cell exactly as often as it occurs and drops every rejected one |
| Maze.CarveCandidates | src/state/maze.rs:60-65 | the candidates are exactly the neighbours that are unvisited and not yet joined to the cell by a passage |
| Maze.FindNextPassage | src/state/maze.rs:49-74 | marks `index` visited and clears no flag. Keeps the old passages as a prefix. Each new passage leads from the tree to an unvisited grid neighbour, and each new cell gets one passage; called on an unvisited cell, newly visited cells = passages added + 1. Fails only when the list is full, never when the list has room for every unvisited cell. When the old passages' cells are visited, every cell it newly visits ends with all neighbours visited |
| Maze.CarveEach | src/state/maze.rs:68-73 | the loop over the shuffled candidates: the same carve facts, and every candidate ends visited |
| Maze.CarveCandidate | src/state/maze.rs:69-72 | one candidate: skip it if visited, else push `(index, pass)` and recurse; the same carve facts, and `pass` ends visited |
| Maze.IndexClosed | src/state/maze.rs:58-73 | once all its candidates are visited, the cell has every neighbour visited |
| Carve.CarveMaze | src/state/maze.rs:49-74 | from cell 0 on a fresh grid: succeeds exactly when the capacity holds `W*H - 1` passages, which it then records. The passages form a tree rooted at 0 that enters every other cell once |
| Carve.GridConnected | src/state/maze.rs:58-73 | a visited set holding cell 0 in which every visited cell is closed is the whole grid |
| Carve.MazeConnected | src/state/maze.rs:49-74 | in the carved maze every cell is joined to cell 0 by a chain of passages |
| Arms.Find | src/state.rs:201 | `iter().find`: the first slot matching the predicate, or none when no slot matches |
| Arms.FindIsLowest | src/state.rs:228 | a slot preceded only by non-matching slots is the one found |
| Arms.Kludge | src/state.rs:192-196 | the row with slot 0 kept and every other slot `Reloading(RELOAD_TIME)`; stated by KludgeKeepsFirst |
| Arms.Fire | src/state.rs:199-204 | the first Loaded slot becomes `Reloading(RELOAD_TIME)` and the shot is reported; with none Loaded, the row and no shot; stated by FireSpendsLowestLoaded |
| Arms.Reload | src/state.rs:228-241 | the first slot that is not Loaded ticks one frame closer, `Reloading(0)` becoming Loaded; stated by ReloadTicksLowestSpent and ReloadNeverRaises |
| Arms.UpdateAmmoRow | src/state.rs:190-241 | `update_ammo` on one row: the kludge for a computer player, the fire step when the trigger is held, then the reload step; stated by EnemyOneBullet, Game.RowKept and Game.FiresWhenLoaded |
| Arms.JustLoaded | src/state/mod.rs:170-185 | whether the reload step turns a `Reloading(0)` slot into Loaded; stated by JustLoadedExactly |
| Arms.FireSpendsLowestLoaded | src/state.rs:199-204 | fire succeeds exactly when some slot is Loaded; only the lowest Loaded slot changes, to `Reloading(RELOAD_TIME)`; with none Loaded the row is unchanged |
| Arms.ReloadTicksLowestSpent | src/state.rs:228-241 | only the lowest non-Loaded slot changes, `t > 0` to `t - 1` and `0` to Loaded; an all-Loaded row is unchanged |
| Arms.ReloadNeverRaises | src/state.rs:228-241 | no slot's remaining time ever grows; a row with any spent slot gets exactly one tick closer to loaded |
| Arms.CountersMoveByOneOrReset | src/state/mod.rs:143-185 | after fire and reload every slot kept its rank or moved one tick closer to loaded; only the lowest Loaded slot, when the trigger is held, can instead be reset to `RELOAD_TIME` (or one below it) |
| Arms.EnemyOneBullet | src/state.rs:192-241 | for an enemy, after kludge, fire and reload no slot past the first is Loaded |
| Arms.KludgeKeepsFirst | src/state.rs:192-196 | the kludge keeps slot 0 and resets every other slot to `Reloading(RELOAD_TIME)` |
| Arms.JustLoadedExactly | src/state/mod.rs:170-185 | the "Loaded!" sound happens exactly when the reload turns a `Reloading(0)` slot into Loaded |
| Rules.OppositeButtonsCancel | src/state.rs:150-164 | up with down leaves the position where it was; left with right leaves the angle where it was |
| Rules.Tentative | src/state.rs:150-164 | the tentative pose: `up` adds and `down` subtracts `(cos a, -sin a)` times the step, `right` subtracts and `left` adds the step to the heading; the same rule as src/state/mod.rs:101-115; stated by OppositeButtonsCancel |
| Rules.MoveRejected | src/state.rs:170-180 | a move is rejected when it leaves the maze or changes cell where no passage joins the two cells; stated by MoveAcceptedIff, AcceptedInGrid and SameCellAccepted |
| Rules.MoveAcceptedIff | src/state/mod.rs:121-130 | a move is accepted exactly when `0 < x`, `0 < y`, `floor(x) < W`, `floor(y) < H`, and the cell is unchanged or a passage joins the two cells |
| Rules.AcceptedInGrid | src/state.rs:170-175 | an accepted position is strictly inside the maze and its cell index is in the grid |
| Rules.SameCellAccepted | src/state.rs:170-179 | a move that stays inside the maze and in the same cell is never rejected |
| Rules.Advance | src/state.rs:249-250 | one frame of flight changes only the bullet's position |
| Rules.FlyStopsAtWalls | src/state.rs:248-259 | the bullet advances by `BULLET_SPEED` along its heading and stays in flight exactly when it was in flight and the move is accepted |
| Rules.Fly | src/state.rs:248-259 | one frame of flight: the bullet advances and is marked stopped when the move is rejected; stated by FlyStopsAtWalls |
| Rules.InFlight | src/state.rs:295 | the filter keeps exactly the bullets that are in flight and is no longer than its input |
| Rules.InFlightConcat | src/state.rs:295 | filtering distributes over concatenation, so it keeps the survivors' order |
| Rules.InFlightKeepsAllInFlight | src/state.rs:295 | a list wholly in flight is kept whole |
| Rules.InFlightIdempotent | src/state.rs:295 | filtering twice is filtering once |
| Rules.FlyAll | src/state/mod.rs:191-208 | each bullet of the list flown in place, one for one |
| Hits.StepBullet | src/state.rs:247-292 | moving a bullet and checking it against the players keeps its owner |
| Hits.StepAll | src/state.rs:247-292 | each bullet of the list stepped in place, one for one |
| Hits.OwnerNeverStruck | src/state.rs:263 | a bullet never strikes its own owner |
| Hits.Strikes | src/state.rs:261-288 | a bullet in flight strikes player `p` when `p` is not its owner, is in the bullet's cell, and the collision window `strike` catches it; stated by OwnerNeverStruck |
| Hits.StrikesAny | src/state.rs:261-291 | the bullet strikes some player, which is when the loop stops it; stated by Game.State.Hit and StepBulletStops |
| Hits.HitCount | src/state.rs:247-292 | the lives a frame takes from player `p`: one per bullet of the list that, once flown, strikes `p`; stated by HitsOnlyFromOthers and Game.State.StepEach |
| Hits.HitsOnlyFromOthers | src/state.rs:262-289 | the lives a frame takes from player `p`, plus `p`'s own bullets, are at most the bullets in the air |
| Hits.StepBulletStops | src/state.rs:252-291 | a stepped bullet stays in flight exactly when it flew, its move was accepted, and it struck no one |
| Hits.CountOwnedInFlight | src/state.rs:295 | filtering never adds to a player's bullets in the air |
| Hits.CountOwnedStepAll | src/state.rs:247-292 | stepping bullets does not change how many each player owns |
| Hits.SurvivorsOk | src/state.rs:245-296 | the survivors of a frame are again at most `NUM_BULLETS` in-flight bullets of real players inside the maze |
| Pathfinder.Prune | src/state.rs:432-439 | fails exactly on an empty trail (`pop().unwrap()`); otherwise the pruned path is an in-order subsequence of the trail ending where it ends, each entry joined by a passage to the next |
| Pathfinder.PathCandidates | src/state.rs:401-406 | exactly the unvisited neighbours joined to the node by a passage |
| Pathfinder.BacktrackToPrefix | src/state.rs:416-421 | cutting the trail back to the checkpoint leaves a prefix that ends at the checkpoint, or the empty trail when the checkpoint is absent |
| Pathfinder.BacktrackTo | src/state.rs:416-421 | the trail cut back to its last occurrence of the checkpoint, or emptied when there is none; stated by BacktrackToPrefix |
| Pathfinder.Backtrack | src/state.rs:416-421 | the pop loop computes that cut |
| Pathfinder.Record | src/state.rs:409-424 | the goal ends the looking; a branch point becomes the checkpoint; a dead end cuts back; any other node is appended; fails exactly on a push to a full trail |
| Pathfinder.PushAll | src/state.rs:426-428 | pushes every candidate in order; fails exactly when they do not fit |
| Pathfinder.Visit | src/state.rs:399-428 | marks only the node visited; ends the looking exactly at the goal; pushes exactly the unvisited passage-neighbours of the node, each once, on top of the old stack; fails exactly when the stack or trail has no room; the trail grows by at most one cell and ends at the goal once found |
| Pathfinder.CandidatesOffered | src/state.rs:401-407 | any shuffle of the candidates holds each unvisited passage-neighbour of the node exactly once |
| Pathfinder.Expand | src/state.rs:393-430 | one step of the search on a tree maze keeps the search invariant: the expanded cells spread from `start` along passages, the stack holds distinct unexpanded cells each joined to an expanded one, and every passage out of the expanded set leads to an expanded or a stacked cell; the goal is not yet expanded |
| Pathfinder.SearchPop | src/state.rs:393-428 | on the carved maze a popped cell leaves room on the trail and on the stack for its candidates, so no push can fail |
| Pathfinder.Exhausted | src/state.rs:393-430 | on the carved maze a search whose stack runs empty has expanded every cell, so it cannot miss the goal |
| Pathfinder.Search | src/state.rs:393-430 | on success the trail is within capacity and in the grid, and ends at `end` when it was found; `start` is visited. On the carved maze with a fresh grid, a goal in the grid and room for every cell, the search succeeds and finds the goal |
| Pathfinder.FindPath | src/state.rs:380-440 | on success the pruned path is a non-empty chain of grid cells joined by passages, an in-order subsequence of the trail ending at its end, which is `end` when found. On the carved maze with a fresh grid and room for every cell it succeeds and ends at `end` |
| Pathfinder.EnemyTarget | src/state.rs:304-330 | the target is a grid cell: the second cell of the pruned path, which is joined to the first by a passage, or the enemy's own cell when the path is shorter. On the carved maze the search never fails and the path ends at the player's cell |
| Tree.PassageToParent | src/state/maze.rs:49-74 | in the carved maze every passage joins a cell and its parent, the cell it was entered from |
| Tree.AncestorsOrdered | src/state/maze.rs:49-74 | two ancestors of one cell are ancestors one of the other, so the ancestors form a chain |
| Tree.OneNeighborInside | src/state/maze.rs:49-74 | a cell outside a set spreading from one cell along passages is joined to at most one cell of the set |
| Tree.PassageNeighbors | src/state/maze.rs:49-74 | a passage of the carved maze joins two grid cells that share an edge |
| Tree.ClosedHoldsAll | src/state/maze.rs:49-74 | a set closed under the carved passages that holds one grid cell holds every grid cell |
| Enemy.SteerShape | src/state.rs:352-377 | the enemy never presses down or toggles the view. It turns left exactly when the bearing is more than 0.08 to the left, right exactly when more than 0.08 to the right. It walks exactly when aimed and not yet at the target, and fires exactly when aimed and within 3 cells of the player |
| Enemy.TurnsTheShortWay | src/state.rs:340-352 | the bearing after unwrapping is within half a turn of the heading |
| Enemy.AngleDiff | src/state.rs:334-352 | the bearing `-atan2(rise, run)` toward the target unwrapped to the enemy's heading, minus the heading; stated by TurnsTheShortWay |
| Enemy.Steer | src/state.rs:360-377 | the buttons of `update_enemy` from the bearing, the distance to the target and the distance to the first player; stated by SteerShape |
| Game.Toggled | src/state.rs:131-134 | toggling always changes the view |
| Game.ToggleTwice | src/state.rs:129-136 | toggling twice gives the view back |
| Game.StepFor | src/state.rs:148 | every step is positive and at most `STEP_SIZE`, and strictly smaller exactly for the enemies |
| Game.Jitter | src/state.rs:213 | a sample in [0, 1) turns the heading by an amount within [-0.05, 0.05) |
| Game.Move | src/state.rs:139-187 | the new heading is the tentative one; the player either stays where it was or moves to a position that is not rejected, so it stays in the maze; ammo and view are kept |
| Game.TakeTurn | src/state.rs:101-105 | a living player's turn: the pose of `Move`, an ammo row of the same length, and a view that changes exactly when the toggle button is pressed |
| Game.RowKept | src/state.rs:190-241 | kludge, fire and reload keep the length of an ammo row |
| Game.FiresWhenLoaded | src/state.rs:190-204 | a shot is fired exactly when the trigger is held and a slot is Loaded; for a computer player only the first slot counts |
| Game.Shot | src/state.rs:199-215 | there is a bullet exactly when the trigger is held and a slot is Loaded (for a computer player, the first slot); it belongs to the player, is in flight, and leaves from the position after the move |
| Game.TurnOnArrays | src/state.rs:101-105 | the three array updates of one player's turn replace that player by `TakeTurn` of it, keep every other player, and push the turn's `Shot` |
| Game.Push | src/state.rs:207-219 | the old bullets stay in order; the new one is appended exactly when there is a shot and the list holds fewer than `NUM_BULLETS`; the bound is kept |
| Game.Launches | src/state.rs:100-123 | the frame's shots pushed in order keep the old bullets as a prefix, add at most one per shot, keep the bound, and keep every owner a real player |
| Game.GuardedShot | src/state.rs:100-123 | a player without lives fires nothing; a shot belongs to the player |
| Game.Round | src/state.rs:100-123 | a player without lives at the start of the frame is unchanged; every other takes its `TakeTurn` |
| Game.Volley | src/state.rs:100-123 | the frame's shots: each belongs to its player, who is alive |
| Game.LaunchesForeign | src/state.rs:100-123 | shots of other players leave a player's count of bullets unchanged |
| Game.FourTurns | src/state.rs:100-123 | four turns one after another, each replacing its player and pushing its shot, end with every player replaced and the shots launched in player order |
| Game.FrameOutcome | src/state.rs:91-126 | one frame on values: the players become Round of the old ones, the Volley of shots is launched, the list flies against the new poses and is filtered, and each life drops by its HitCount; ensured by Game.State.Frame and Game.State.Update, with FrozenWhenDead about it |
| Game.FrozenWhenDead | src/state.rs:91-126 | in a frame lives never go up; a player without lives at its start keeps its entries and owns no more bullets than before |
| Game.State.constructor | src/state.rs:53-71 | the four players in the corner cells with the source's headings, five lives, Loaded ammo, first-person view, no bullets and no maze |
| Game.State.GenerateMaze | src/state.rs:74-88 | records `NUM_CELLS - 1` passages forming a tree from cell 0 that enters every other cell |
| Game.State.UpdateView | src/state.rs:129-136 | only the player's view changes, and only when toggled |
| Game.State.UpdatePlayer | src/state.rs:139-187 | always writes the tentative angle; writes the tentative position exactly when the move is accepted; no other player changes |
| Game.State.Place | src/state.rs:181-186 | writes the pose of one player only |
| Game.State.UpdateAmmo | src/state.rs:190-242 | the row becomes kludge, fire and reload of its old value. A bullet at the pose plus jitter is pushed exactly when a slot fired and the list had room. The console messages follow |
| Game.State.Launch | src/state.rs:204-220 | pushes the jittered bullet when the list has room; otherwise reports the full list |
| Game.State.UpdateBullets | src/state.rs:245-296 | the new list is the in-flight filter of every bullet stepped; each player loses exactly the hits counted against them |
| Game.State.StepEach | src/state.rs:247-292 | the in-place loop steps every bullet and takes the counted lives |
| Game.State.Hit | src/state.rs:261-291 | the bullet stops exactly when it strikes someone; each player it strikes loses one life, even several players in one pass |
| Game.State.EnemyIntent | src/state.rs:298-378 | the target is a grid cell and the buttons are the steering toward its centre; on the carved maze the search does not fail |
| Game.State.Plan | src/state.rs:96-98 | each computer player's buttons steer it toward the centre of its target cell, all from the state at the start of the frame; on the carved maze nothing fails |
| Game.State.PlayerTurn | src/state.rs:101-105 | the player's entries become `TakeTurn` of what they were, every other player's stay, and the turn's `Shot` is pushed onto the bullet list |
| Game.State.LivingTurn | src/state.rs:100-123 | a living player takes its turn as in PlayerTurn; a player without lives is skipped entirely and fires nothing |
| Game.State.Turns | src/state.rs:100-123 | the four guarded turns: the players become `Round` of the players at the start, and the `Volley` of shots is pushed in player order |
| Game.State.Update | src/state.rs:91-126 | the computer players steer toward their target cells; the new players are `Round` of the old ones; the new bullets are the stepped, filtered `Launches` of the shots; each player loses exactly its counted hits. Lives never grow; a player without lives is frozen and has no more bullets than before. On the carved maze nothing fails; a failed path search changes nothing |
| Game.State.Frame | src/state.rs:100-125 | the four turns and the bullet step: the `FrameOutcome` of the intents on the state at the start, with the same guarantees |
| SinglePlayer.Dones | src/state/mod.rs:205 | one "Bullet done" message per bullet stopped by a wall |
| SinglePlayer.DonesCountRemoved | src/state/mod.rs:196-213 | over bullets in flight, the messages and the survivors together number the bullets |
| SinglePlayer.OneBullet | src/state/mod.rs:196-213 | a bullet in flight either survives the frame or is reported done, never both |
| SinglePlayer.FlownOk | src/state/mod.rs:189-214 | the survivors are again in-flight bullets of the player inside the maze |
| SinglePlayer.State.constructor | src/state/mod.rs:52-64 | the player at (0.5, 0.5) facing along x, all twelve slots Loaded, no bullets and no maze |
| SinglePlayer.State.GenerateMaze | src/state/mod.rs:66-83 | the same spanning-tree carve from cell 0 |
| SinglePlayer.State.UpdatePlayer | src/state/mod.rs:95-134 | the angle change is always kept; a rejected move restores only x and y |
| SinglePlayer.State.UpdateAmmo | src/state/mod.rs:137-186 | shoot or spray fires the first Loaded slot and pushes a bullet at the pose when there is room; then the reload step, with "Loaded!" exactly on a slot just loaded |
| SinglePlayer.State.Launch | src/state/mod.rs:151-162 | pushes the bullet at the pose when the list has room; otherwise reports the full list and leaves it unchanged |
| SinglePlayer.State.UpdateBullets | src/state/mod.rs:189-214 | the new list is exactly the flown bullets still in flight, in order; one message per wall stop |
| SinglePlayer.State.FlyEach | src/state/mod.rs:191-208 | the in-place loop flies every bullet and collects the messages |
| SinglePlayer.State.FlyBullet | src/state/mod.rs:192-206 | one bullet flown, with a message exactly when it stops |
| SinglePlayer.State.Update | src/state/mod.rs:86-92 | move, fire and fly keep the state well formed and the maze unchanged |
| View.AmmoStatus | src/view.rs:21-29 | an even status of at most 8, and 8 exactly for Loaded |
| View.StatusBands | src/view.rs:21-29 | `Reloading(t)` shows 0 for t in 201..255, 2 for 151..200, 4 for 50..150, and 6 below 50 |
| View.GetAmmoView | src/view.rs:11-37 | one gauge per slot, slot `i` taken from `player_ammo[i]` alone |
| View.GaugeShape | src/view.rs:13-32 | `2 * correction + status == 8` with status in {0, 2, 4, 6, 8}, at x = 120, 130, 140, y = 4, width 8 |
| View.StatusMonotone | src/view.rs:20-33 | a slot closer to loaded never shows a smaller status |
| View.GaugeFor | src/view.rs:13-32 | one dashboard entry: x `120 + 10 * index`, y 4, width 8, the correction `(8 - status) / 2` and the status; stated by GaugeShape |
| View.Unwrap | src/view.rs:61-70 | the bearing shifted by whole turns toward the facing, taking the extra turn when it is closer; stated by UnwrapWithinHalfTurn |
| View.InView | src/view.rs:46-47 | the unwrapped bearing lies between `facing + HALF_FOV - 159 * ANGLE_STEP` and `facing + HALF_FOV` |
| View.AsI32 | src/view.rs:75 | `as i32`: truncation toward zero, saturating at the `i32` bounds |
| View.HPosition | src/view.rs:75 | the screen column `((facing + HALF_FOV) - unwrapped) / ANGLE_STEP` as `i32`; stated by ColumnInScreen |
| View.OvalFor | src/view.rs:52-85 | one bullet's oval: all zero for a stopped bullet or a bearing out of view, otherwise visible at its column with the size and height of `measure`; stated by OvalVisibility |
| View.UnwrapWithinHalfTurn | src/view.rs:60-70 | the unwrapped bearing differs from the raw one by whole turns and lies within half a turn of the heading |
| View.ColumnInScreen | src/view.rs:46-75 | a bearing inside the field of view gives a column in 0..159 |
| View.OvalVisibility | src/view.rs:50-83 | an oval is visible exactly for a bullet in flight whose bearing is in view, then in a screen column; an invisible oval is all zero |
| View.GetBulletView | src/view.rs:39-89 | one oval per bullet slot, slot `i` computed from bullet `i`, and the slots past the bullets all zero |

## Left out

- Ray casting is not modelled: `get_wall_view`, `get_walls` and the horizontal and vertical
  intersection routines (`src/view.rs:92-256`, `src/state/mod.rs:217-368`). They are float
  trigonometry loops.
- Floating point: every `f32` is an exact `real`. `cosf`, `sinf`, `atan2f`, `sqrtf` and
  `distance` are parameters. The collision window of `update_bullets` (`src/state.rs:271-287`) is
  the parameter `strike`. The bullet size and vertical position of `get_bullet_view`
  (`src/view.rs:78-81`) are the parameter `measure`.
- `SmallRng`, its seeding and the seed threading are not modelled. Shuffles are caller-supplied
  permutations, and the jitter sample is a parameter.
- The `maze_gen` crate is not part of this model. Its `find_passages` is taken to be the
  `find_next_passage` of `src/state/maze.rs`. `find_walls` and the wall bitmasks it derives are
  left out, so the classes keep no `horizontal_walls` or `vertical_walls` fields.
- `get_center_from_index` is not part of this model (`src/util.rs` does not define it). It is the
  parameter `center`.
- `PLAYER_WIDTH` is not defined in `src/constants.rs`. It only enters the collision window, which is
  a parameter.
- `tone` and `trace` are modelled as returned `Signal` values. Sound parameters and message texts
  are not modelled. Neither are `src/lib.rs` (the WASM-4 glue) and the commented-out debug output.
- Integer widths:
  - the upper saturation of `as usize` is not modelled;
  - Util.WallAt, Util.PointInWall: require a bit index below 16 for a row in the list. The `u16`
    shift `0b1 << d2 as usize` of `point_in_wall` panics past bit 15 in a debug build and masks
    the shift amount in a release build; neither behaviour is modelled;
  - the `i32` lives are unbounded integers, so a wrap after 2^31 hits is not modelled;
  - the `usize` underflow of `find_neighbors` on a grid of width or height 0 is excluded by the
    precondition `width > 0 && height > 0`, which every caller in the source meets.
- The scratch vectors `visited`, `stack`, `paths` and `pruned_path` of `src/state.rs` are locals of
  the search. The model does not keep their contents between frames; the source clears them before
  each use.
- Game.State.GenerateMaze, SinglePlayer.State.GenerateMaze: these require an empty passage list.
  A second call panics in the source when it extends the full `visited` buffer, and that panic is
  not modelled.
- Game.State.Update: when an enemy's path search fails (a panic in the source), the model returns
  `ok == false` and leaves the state unchanged.
- `src/state/mod.rs` calls `Bullet::new` with four arguments, which matches neither `Bullet`
  type. The model follows `src/arms.rs` and gives those bullets owner 0 and `inflight == true`.
- Pathfinder.Search: states the capacity bounds, the grid bounds, the goal at the end of the
  trail and success on the carved maze. It does not state the order of the depth-first walk.
- Pathfinder.EnemyTarget: does not state that the pruned path begins at the enemy's cell.
- Game.State.EnemyIntent: states the steering toward the chosen cell. Which cell is chosen is
  stated by Pathfinder.EnemyTarget; the link between the two calls is not, so the contract does
  not say that the target is a passage-neighbour of the enemy's cell.
- Game.State.Update, Game.State.Frame, Game.State.Turns: the returned signals are not stated.
- SinglePlayer.State.Update: states only that the state stays well formed and the maze is kept.
  The changes are those of the three methods it calls.
- Maze.FindNeighbors: its own contract gives only the length. The neighbour contents are stated
  by NeighborsByCoordinates and the four lemmas beside it.
