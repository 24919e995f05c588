# Dig-and-dodge grid game: gravity engines and game rules, in Dafny

This project models the logic of a tile-grid digging game in the Boulder Dash
style. A player digs through dirt, pushes rocks sideways, collects gems, sets
off bombs, and reaches an exit that opens once enough gems are collected.
Loose rocks and gems fall, and a falling rock can crush the player.

The model covers the parts of the game that are not drawing or input wiring:

- **Cell kinds** (`entities.dfy`, module `Entities`). There are eight kinds:
  Player, Dirt, Rock, Gem, Wall, ExitClosed, ExitOpen and Empty. Each has
  walkable, immovable and can-fall predicates. The eight entity factories
  have distinct characters, colours and sprite names. The registry finds a
  kind by any of those three keys.
- **Level decoding and scans** (`levels.dfy`, module `Levels`). The decode
  loop maps an already-read RGBA pixel array to kinds. It fails on an
  unregistered colour, or unless there is exactly one player start and
  exactly one exit. The module also has the gem count, the exit and player
  scans, and the cell copy.
- **The grid** (`boards.dfy` for the value, `renderer.dfy` for the
  `LevelRenderer` class that holds it). It has the bounds check, reads that
  answer Wall off the grid, writes that ignore coordinates off the grid, and
  opening and closing the exit.
- **The incremental gravity engine** (`gravity_keys.dfy`, `gravity_spec.dfy`,
  `gravity_manager.dfy`). `GravityManager` keeps three coordinate sets:
  active, armed-above-the-player and has-fallen. Its `Tick` visits a
  snapshot of the active set in row-major order, top row first. A faller
  moves down one row, or slides diagonally into a side shaft (left shaft
  first). A faller above the player that has not fallen yet is armed. A rock
  that has fallen crushes the player and ends the pass. Every method is
  proved equal to a function on a `World` value, and the lemmas are stated
  about those functions.
- **The game rules** (`game_spec.dfy`, `move_facts.dfy`, `bomb_facts.dfy`,
  `gravity_facts.dfy`, `game_logic.dfy`). `GameLogic` holds the counters,
  the terminal flags and the player's position. It has one-step moves
  (blocked, push, collect, win, walk), the 3×3 bomb, the older full-scan
  gravity pass (bottom row first), restart, and the fixed-quantum time
  loop. `GameLogic` never calls `GravityManager`: the two are separate
  gravity engines, and they are modelled separately.
- **Direction keys** (`input.dfy`). This covers the key-to-step table and
  the list of held keys, where the most recent press wins and no key
  appears twice. It also covers the key repeat.
- `accumulator.dfy` holds the fixed-quantum accumulator that both time loops
  share. `wrappers.dfy` holds `Option` and `Result`.

Decisions worth knowing:

- The TypeScript compares cells with members of a string table `C` that
  `src/constants.ts` does not export. `LevelRenderer.cell` returns an
  `Entity`. The model treats every one of these comparisons as a comparison
  on the one `Kind` type. The grid stores kinds, and every entity the game
  builds comes from one of the eight factories.
- The engine keys coordinates by the string `"x,y"`. The model uses
  `set<Pos>` instead. `GravityKeys.KeyRoundTrip` and
  `GravityKeys.KeyInjective` justify the switch: the key text names its
  coordinate back and is injective. The registry's colour key
  `"r,g,b"` is modelled as the `RGB` triple in the same way.
- Time is counted in whole milliseconds. A gravity pass runs every 120 ms,
  and a held key repeats every 10 ms (`1 / PLAYER_MOVE_SPEED` seconds).
- This model follows the code where a description of the game differs:
  - `restart` does not restore the grid. It only redraws, puts the player
    back at the level's start, and resets the counters and flags.
  - Bomb blasts may erase a closed exit.
  - The incremental engine visits fallers top-down.
- `applyGravity` reads `(renderer as any).grid`, a property `LevelRenderer`
  does not have. See Findings. The pass the rest of the model uses is the
  intended one, which takes its dimensions from the renderer's own grid.

## Model

| member | source | states |
|---|---|---|
| Entities.Walkable | src/entities.ts:75-82 | a kind is walkable exactly when it is Empty, Dirt, Gem or ExitOpen |
| Entities.Immovable | src/entities.ts:84-86 | a kind is immovable exactly when it is Wall or ExitClosed |
| Entities.CanFall | src/entities.ts:88-90 | a kind can fall exactly when it is Rock or Gem |
| Entities.KindTestsExact | src/entities.ts:35-73 | each `is*` test holds of exactly one factory entity, the one of its own kind |
| Entities.PredicatesConsistent | src/entities.ts:75-90 | no kind is both walkable and immovable, no immovable kind falls, and the player satisfies none of the three |
| Entities.FactoriesDistinct | src/entities.ts:92-122 | distinct kinds have distinct characters, colours and sprite names |
| Entities.TablesRoundTrip | src/entities.ts:130-136 | after registering a list of kinds, each of the three tables maps every registered kind's own key to that kind and holds no other key |
| Entities.EntityRegistry.RegisterEntity | src/entities.ts:130-136 | registration adds the kind under its character, colour and sprite name |
| Entities.NewStandardRegistry | src/entities.ts:182-190 | the global registry holds the tables built from the eight kinds in the game's order |
| Entities.StandardLookups | src/entities.ts:138-149 | in the global registry, `byChar`, `byColor` and `byName` find each kind by its own key, and answer null for keys no kind has |
| Boards.CellReads | src/levelRenderer.ts:58-73 | off the grid a read answers Wall; on the grid it answers the stored kind |
| Boards.SetCellEffect | src/levelRenderer.ts:75-78 | a write off the grid is a no-op; on the grid it changes that cell alone, keeps the shape, and reads back the value written |
| Boards.SetCellContents | src/levelRenderer.ts:75-78 | a write on the grid swaps exactly one occurrence of the old kind for the new one in the grid's multiset of kinds |
| Renderer.LevelRenderer.constructor | src/levelRenderer.ts:16-25 | the grid is the level's cells with the exit cell, found by the level's exit scan, forced to ExitClosed, and the gem total is the number of Gem cells |
| Renderer.LevelRenderer.SetCell | src/levelRenderer.ts:75-78 | the grid becomes the old grid with that one write applied |
| Renderer.LevelRenderer.OpenExit | src/levelRenderer.ts:36-40 | only the exit cell is written, to ExitOpen |
| Renderer.LevelRenderer.CloseExit | src/levelRenderer.ts:42-46 | only the exit cell is written, to ExitClosed |
| Renderer.LevelRenderer.Restart | src/levelRenderer.ts:27-30 | no grid cell changes |
| Renderer.OpenExitEffect | src/levelRenderer.ts:36-40 | opening the exit makes the exit cell ExitOpen, changes no other cell, and opening it again changes nothing |
| Levels.CloneCells | src/level.ts:113-115 | the copy has the level's height and width and equals it cell by cell |
| Levels.TotalGemsCounts | src/level.ts:75-81 | the row-by-row gem sum equals the number of Gem cells |
| Levels.FindFrom | src/level.ts:83-103 | the scan answers the first matching cell in row-major order, or none exactly when no cell matches |
| Levels.ValidLevelPositions | src/level.ts:83-103 | on a decoded level both scans succeed, on grid cells holding an exit and the player marker |
| Levels.DecodeRow | src/level.ts:40-62 | decoding one row fills its cells from the pixels and counts player and exit cells, or stops at the first unregistered colour |
| Levels.DecodePixels | src/level.ts:32-63 | the grid is height rows of width cells, where cell (x, y) is the kind of the pixel at byte offset (y·width+x)·4; the counts are the numbers of player and exit cells; or decoding stops at the first unregistered colour in row-major order |
| Levels.LoadLevel | src/level.ts:29-72 | decoding succeeds exactly when every colour is registered and there is one player and one exit (closed and open counted together); each failure reports its cause |
| GravityKeys.KeyRoundTrip | src/gravityManager.ts:12-19 | parsing the key of (x, y) gives back (x, y), for every pair of integers |
| GravityKeys.KeyInjective | src/gravityManager.ts:12-19 | two coordinates have the same key exactly when they are equal |
| GravitySpec.ForgetEffect | src/gravityManager.ts:25-30 | forgetting p removes it from all three sets and keeps every other position's membership and the grid |
| GravitySpec.EmptiedEffect | src/gravityManager.ts:38-58 | with the row above off the grid nothing changes; otherwise exactly the fallers to the left, right and above become active, only the one above is disarmed, and nothing else changes |
| GravitySpec.FallersOf | src/gravityManager.ts:64-76 | the fallers are exactly the in-bounds positions holding Rock or Gem |
| GravitySpec.SortedOfSorted | src/gravityManager.ts:106-108 | the pass's snapshot lists every active position exactly once, strictly by row and then by column |
| GravitySpec.StepForgets | src/gravityManager.ts:110-130 | a position already removed is skipped; one off the grid, without a faller, or on the bottom row is forgotten; so is a faller that has nowhere to go |
| GravitySpec.StepCrush | src/gravityManager.ts:134-144 | a visit crushes exactly when an active, has-fallen Rock sits directly above the player; the rock takes the player's cell, its own empties, and its records are dropped |
| GravitySpec.StepArms | src/gravityManager.ts:134-149 | a faller above the player that does not crush moves from active to armed, and the grid stays as it is |
| GravitySpec.StepFalls | src/gravityManager.ts:151-195 | a faller that can move goes one row down, straight or diagonally with the left shaft tried first; with shafts at least 2 deep the target was an empty cell on the grid |
| GravitySpec.FallEffect | src/gravityManager.ts:151-195 | after a move the origin is Empty and the target holds the faller, no other cell changes, active and has-fallen move to the target, and the origin is not armed |
| GravitySpec.StepContents | src/gravityManager.ts:134-197 | a visit that does not crush keeps the grid's multiset of kinds; a crush turns one Player into Empty |
| GravitySpec.RunContents | src/gravityManager.ts:105-201 | a whole pass that does not crush keeps the grid's multiset of kinds; a crushing pass turns exactly one Player into Empty |
| GravitySpec.StackFallsOneAtATime | src/gravityManager.ts:105-201 | with two rocks stacked over empty ground, one pass drops only the lower rock and reactivates the upper one |
| GravityEngine.RowMajorOrder | src/gravityManager.ts:106-108 | the snapshot is the active set sorted by row, then by column |
| GravityEngine.GravityManager.ForgetStateAt | src/gravityManager.ts:25-30 | the engine's state becomes `Forget` of the old state |
| GravityEngine.GravityManager.ActivateFallerAt | src/gravityManager.ts:32-36 | a faller on the grid at (x, y) joins the active set, and nothing else changes |
| GravityEngine.GravityManager.OnCellEmptied | src/gravityManager.ts:38-58 | the engine's state becomes `Emptied` of the old state |
| GravityEngine.GravityManager.OnPlayerEnteredCell | src/gravityManager.ts:60-62 | a faller directly above the player's new cell becomes active |
| GravityEngine.GravityManager.Initialize | src/gravityManager.ts:64-76 | the active set is exactly the fallers on the grid, and the armed and has-fallen sets are empty |
| GravityEngine.GravityManager.ActivateRow | src/gravityManager.ts:70-74 | after row y the active set holds exactly the fallers of rows 0 to y, and the armed and has-fallen sets are unchanged |
| GravityEngine.GravityManager.OnPlayerMoved | src/gravityManager.ts:78-81 | the old cell counts as emptied, then the faller above the new cell is activated |
| GravityEngine.GravityManager.OnRockPushed | src/gravityManager.ts:83-87 | the origin is forgotten and counts as emptied, then the rock's new cell is activated |
| GravityEngine.GravityManager.OnCellCleared | src/gravityManager.ts:89-92 | the cell is forgotten, then counts as emptied |
| GravityEngine.GravityManager.CanFallIntoSideShaft | src/gravityManager.ts:94-102 | true exactly when column tx is on the grid and Empty in every row y+d, 0 ≤ d < minSideShaftDepth |
| GravityEngine.GravityManager.ProcessItem | src/gravityManager.ts:110-197 | one visit leaves the engine in the state, and gives the crush answer, that `Step` prescribes for the old state |
| GravityEngine.GravityManager.LandOnPlayer | src/gravityManager.ts:134-148 | above the player, a has-fallen faller that is not a gem crushes (`Crush`); any other moves from active to armed, with the grid and has-fallen set unchanged |
| GravityEngine.GravityManager.SettleFaller | src/gravityManager.ts:151-197 | a faller with ground other than the player below becomes `Settle` of the old state: straight down, else into the left and then the right side shaft, else forgotten |
| GravityEngine.GravityManager.Tick | src/gravityManager.ts:105-201 | the new state and the crush answer are those of `Run` over the sorted snapshot of the old active set |
| GameSpec.Move | src/gameLogic.ts:69-108 | a finished game, a wall or closed exit ahead (off the grid included) and an unpushable rock change nothing; only stepping onto the open exit wins, and then the grid, the position and the count stay as they were; bombs, the requirement and game-over never change |
| GameSpec.Bomb | src/gameLogic.ts:110-112 | a finished game or an empty bomb bag changes nothing |
| GameSpec.ApplyGravity | src/gameLogic.ts:154-155 | a finished game is left as it is |
| GameSpec.RulesMatchEntities | src/gameLogic.ts:22-33 | the game's walkable and blocked tests, and its rock-or-gem test, agree with the entity predicates |
| MoveFacts.MoveWalks | src/gameLogic.ts:98-107 | onto Empty or Dirt the old cell empties, the destination holds the player, the position shifts by the step, and nothing else changes |
| MoveFacts.MoveCollects | src/gameLogic.ts:85-107 | onto a gem the count rises by exactly 1, the player walks, and the exit opens exactly when the count reaches the requirement |
| MoveFacts.CollectEffect | src/gameLogic.ts:85-90 | counting a gem adds exactly one, opens the exit exactly when the count reaches the requirement, changes no other cell, and keeps the session consistent |
| MoveFacts.WalkEffect | src/gameLogic.ts:98-107 | a step onto an in-bounds cell other than the exit puts the player there, empties the old cell, changes no other cell, and keeps the session consistent |
| MoveFacts.MovePushes | src/gameLogic.ts:35-50 | a rock with empty ground beyond moves one cell on, its old cell empties, the player stays, and the grid keeps its kinds |
| MoveFacts.MoveConsistent | src/gameLogic.ts:69-108 | every move keeps the session consistent: while the game runs, the player's cell is the only Player cell and the exit cell holds an exit |
| BombFacts.BombEffect | src/gameLogic.ts:110-152 | one bomb is spent; outside the 3×3 block nothing but the exit changes; inside it Wall and ExitOpen stay and every other cell becomes Empty; the requirement drops once per blasted gem, never below 0; the exit cell ends ExitOpen when a gem was blasted and the count meets the requirement, otherwise Empty when the block covered the closed exit, otherwise as it was; the game is over and the session stays consistent |
| BombFacts.BlastExit | src/gameLogic.ts:120-148 | after the first n cells of the blast the exit cell is open if a gem was blasted and the count meets the lowered requirement, otherwise Empty if the blast reached the closed exit, otherwise as it was |
| BombFacts.BlastCellExit | src/gameLogic.ts:128-146 | one blasted cell opens the exit when it is a gem other than the centre and the count meets the lowered requirement, empties the exit when it is the closed exit itself, and otherwise leaves the exit cell as it was |
| BombFacts.BlastCleared | src/gameLogic.ts:120-148 | every cell of the block the blast has reached, the exit aside, ends as Empty unless it was Wall or ExitOpen |
| BombFacts.BlastRequirement | src/gameLogic.ts:137-144 | the requirement is lowered once per blasted gem and floored at 0 |
| BombFacts.BlastOpensExit | src/gameLogic.ts:137-144 | after a blasted gem the exit is open whenever the count meets the lowered requirement |
| BombFacts.BlastEndsGame | src/gameLogic.ts:128-135 | the game ends once the blast reaches the player's own cell |
| GravityFacts.GravityDropsAtMostOne | src/gameLogic.ts:161-185 | in one full-scan pass, every cell ends holding what it held, Empty, or the faller directly above it |
| GravityFacts.GravitySweepStatus | src/gameLogic.ts:161-185 | the scan crushes exactly when a Rock or Gem is directly above the player; the player cell is the only Player cell unless crushed; the exit cell is untouched; without a crush the grid keeps its kinds |
| GravityFacts.ColumnFalls | src/gameLogic.ts:161-185 | a stack of Rock and Gem cells over Empty moves down one row as a whole in a single pass, and its top cell ends Empty unless another Rock or Gem sat on it |
| GravityFacts.GravityRowColumn | src/gameLogic.ts:162-184 | scanning a row leaves each column as that column's own scan step leaves it, whatever the other columns did |
| GravityFacts.ApplyGravityConsistent | src/gameLogic.ts:154-186 | a gravity pass keeps the session consistent: unless it crushes the player, the player's cell is the only Player cell and the exit cell holds an exit |
| GravityFacts.GravitateConsistent | src/gameLogic.ts:207-213 | any number of the time loop's passes keep the session consistent |
| GravityFacts.ApplyGravityAsIntended | src/gameLogic.ts:157-159 | given the renderer's own rows for the missing `grid`, the pass as written is the pass used here |
| GravityFacts.ApplyGravityAsWrittenThrows | src/gameLogic.ts:157-159 | on any running game, the pass as written fails reading `grid.length` |
| GravityFacts.GravitateTerminal | src/gameLogic.ts:207-213 | once the game is over or won, the time loop's passes change nothing |
| Logic.GameLogic.constructor | src/gameLogic.ts:7-20 | counters start at 0 and 3 bombs, flags clear, and the requirement is the renderer's gem total |
| Logic.StartGame | src/scenes/gameScene.ts:22-27 | setting up a level gives the session `StartSession` of the level, which is consistent |
| Logic.InitialConsistent | src/scenes/gameScene.ts:22-27 | a decoded level starts a running session whose player start is the only Player cell and whose exit cell holds ExitClosed |
| Logic.GameLogic.PushRock | src/gameLogic.ts:43-50 | the cell beyond becomes Rock and the rock's old cell becomes Empty |
| Logic.GameLogic.MovePlayer | src/gameLogic.ts:69-108 | the session becomes `Move` of the old session |
| Logic.GameLogic.EnterCell | src/gameLogic.ts:85-107 | arriving on the destination: the session becomes `Arrive` of the old one (collect, then win on the open exit or walk onto walkable ground) |
| Logic.GameLogic.CollectDiamond | src/gameLogic.ts:85-90 | the session becomes `CollectDiamond` of the old one: one more gem counted, the exit opened once the requirement is met |
| Logic.GameLogic.WalkTo | src/gameLogic.ts:98-107 | the session becomes `Walk` of the old one: old cell Empty, new cell Player, position updated |
| Logic.GameLogic.UseBomb | src/gameLogic.ts:110-152 | the session becomes `Bomb` of the old session |
| Logic.GameLogic.BlastRow | src/gameLogic.ts:121-148 | after row i of the block the session is the blast of the first 3i+3 cells in visiting order |
| Logic.GameLogic.BlastAt | src/gameLogic.ts:122-147 | one visited cell is blasted as `BlastCell` says |
| Logic.GameLogic.ApplyGravity | src/gameLogic.ts:154-186 | the session becomes the full-scan pass of the old session |
| Logic.GameLogic.GravityScanRows | src/gameLogic.ts:161-185 | the rows from height - 2 up to 0 are scanned as `GravityDown` prescribes |
| Logic.GameLogic.GravityScanRow | src/gameLogic.ts:162-184 | one row is scanned left to right as `GravityRow` prescribes |
| Logic.GameLogic.GravityAt | src/gameLogic.ts:163-183 | one cell is scanned as `GravityCell` prescribes: a faller drops into empty ground below, or onto the player, which ends the game |
| Logic.GameLogic.Restart | src/gameLogic.ts:188-197 | the grid is unchanged, the player is back at the level's start, the counters and flags are reset, and the requirement is the gem total again |
| Logic.GameLogic.Update | src/gameLogic.ts:207-213 | one full-scan pass runs per whole 120 ms accumulated, and the remainder is below one quantum |
| Accumulators.QuantaDrain | src/gameLogic.ts:209-212 | after paying for its quanta the accumulator is below one quantum and not negative, and a pass is paid exactly when a quantum has accumulated |
| Input.DirForKey | src/input.ts:35-52 | a key has a step exactly when it is one of the eight direction keys, and that step is a unit step |
| Input.DirKeys | src/input.ts:35-52 | left/a give (-1,0), right/d give (1,0), up/w give (0,-1), down/s give (0,1), and no other key gives any of them |
| Input.Without | src/input.ts:60 | the filtered list lacks the key and holds every other key it held before |
| Input.WithoutAt | src/input.ts:60 | in a duplicate-free list, filtering removes exactly the key's entry and keeps the rest in order |
| Input.PressedOrder | src/input.ts:58-61 | after a press the key is held once, last; the others keep their order; no duplicates arise |
| Input.InputController.PressDirKey | src/input.ts:54-68 | a direction key goes to the end of the list, the repeat restarts, and a move fires only if the key was not held; other keys change nothing |
| Input.InputController.ReleaseDirKey | src/input.ts:70-75 | a direction key leaves the list, the rest keep their order, and the repeat restarts; other keys change nothing |
| Input.InputController.RepeatMoves | src/input.ts:96-109 | with no key held nothing happens; otherwise one move in the last held key's direction per whole 10 ms, with a remainder below one interval |
| Input.HeldKeyHasDir | src/input.ts:97-101 | while keys are held, the last held key always has a direction |

## Left out

- Drawing: `drawCell`, `killVis`, `redrawAll`, the `vis` grid, `Entity.getSprite`, the HUD, sprites, the camera, menus, and the scenes apart from the level setup that `Logic.StartGame` models. These are calls into the game engine with no effect on the grid.
- Fetching and decoding the level image (`fetch`, `createImageBitmap`, the canvas). The RGBA byte array is a parameter of `Levels.LoadLevel`.
- Key binding, `onKeyPress` actions for bomb and restart, and `dispose`. These only wire engine callbacks to the modelled handlers.
- Floating-point time. `TICK_SECS = 0.12` and the key-repeat interval `0.01` s become whole milliseconds, so rounding of float accumulators is not modelled.
- The log decorator in `src/debug.ts`.
- Object identity: cells hold kinds (values), not `Entity` objects. The copy made by `cloneCells` is a new value, so aliasing between the level's rows and the renderer's rows is not modelled.
- Calls to members that do not exist (`game.winLevel`, `game.bindInput`) and the `winLevel` key.
- `Logic.GameLogic.Restart`: keeps the grid as it is, as the code does. The grid snapshot is not restored, so after a restart the player's position need not hold the player marker.

## Findings

| source | as written | input that shows it | evidently intended | confidence | as-written member | corrected member |
|---|---|---|---|---|---|---|
| src/gameLogic.ts:157-159 | `applyGravity` takes its dimensions from `(renderer as any).grid`, which `LevelRenderer` does not define, so `grid.length` throws a TypeError | any running game (neither over nor won) when `update` reaches a whole 0.12 s | scan the renderer's own grid, `getHeight()` rows of `getWidth()` cells | high, not executed | GravityFacts.ApplyGravityAsWrittenThrows | GameSpec.ApplyGravity |
