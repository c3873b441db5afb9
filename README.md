# Maze and key collection: game-state model

This project models the game logic of a browser WebXR maze demo (`main.js`), where the player walks a small maze, clicks three glowing keys and gets a victory panel. Only the state the script keeps in module-level variables and changes in place is modelled:

- **Key registry and progress** (`keys.dfy`, module `KeyRegistry`). Covers the `keys` list, each key's `id`, `isKey`, `collected` and `visible`, the `keysCollected` counter and the constant `totalKeys` = 3. The victory `setTimeout` is counted as "victories scheduled". The pure functions `WithNewKeys` (createKeys), `Collected` (collectKey), `Restarted` (restartGame), `Candidates` (the filter of uncollected keys) and `Clicked` (onDocumentClick) specify each state change. The lemmas beside them prove:
  - the registry invariant: the counter equals the number of collected keys;
  - collectKey is idempotent;
  - exactly one victory per playthrough when there are 3 keys;
  - a restart followed by collecting every key wins again;
  - a repeated start duplicates the keys.
- **Keyboard movement intent and the VR flag** (`keyboard.dfy`, module `Keyboard`). Covers the four move flags that keydown sets and keyup clears, and the key codes that drive them. It also records which displacement branches `updateMovement` takes, and that it takes none while `isInVR`.
- **Maze walls** (`maze.dfy`, module `MazeLayout`). Covers the constant 6×6 grid and createMaze's nested loops. The loops place one wall per `1` cell at (x·2−5, 1, z·2−5).
- **The global state** (`game.dfy`, class `Game.GameState`). It holds the fields of those globals. Its methods change the fields in place: createKeys's push loop, collectKey, restartGame's reset loop, onDocumentClick, the session start/end listeners and the keydown/keyup listeners. Each method's postcondition ties the new state to the specification function applied to the old state.
- `geometry.dfy` holds the shared `Vec3` point and `Option` types.

Keys are identified by their index in `keys`. The script hands mesh objects to collectKey, but every mesh it pushes is a new object, so an index identifies a key exactly. The raycaster is an oracle, `raycast: seq<nat> -> seq<nat>`. It is given the candidate indices and returns the keys hit, nearest first. Its only promise is that every hit is one of the candidates.

Behaviour of the code that the model keeps as written:

- The victory check is `keysCollected >= totalKeys`, not an equality test.
- `createKeys` pushes onto `keys` without clearing it, and `backToMenu` only calls restartGame. Starting a second game therefore leaves six keys with ids 0,1,2,0,1,2, while `totalKeys` stays 3. `KeyRegistry.RestartThenStartDuplicatesKeys` proves this from any one-batch state, and `KeyRegistry.DuplicatedKeysRepeatVictory` proves the consequences:
  - collectKey calls on keys 0, 1, 2 win while keys 3, 4, 5 are still uncollected;
  - collectKey calls on all six keys schedule the victory four times;
  - the counter then stands at 6, twice `totalKeys`.

  "Victory exactly once" holds only when the list holds exactly `totalKeys` keys (`KeyRegistry.VictoryOncePerPlaythrough`).
- Nothing clears the move flags when the window loses focus. A flag follows the last keydown/keyup for one of its two codes (`Keyboard.ReplayFollowsLastEvent`).
- restartGame does not cancel a victory timeout that is already pending. The count of scheduled victories is left unchanged.

## Model

| member | source | states |
|---|---|---|
| `MazeLayout.IsWallCell` | main.js:280 | The test `mazeMap[z][x] === 1`. A cell past the end of its own row reads `undefined`, which is not 1, so a wall cell always lies inside its row. |
| `MazeLayout.WallPosition` | main.js:285 | `wall.position.set(x * 2 - 5, 1, z * 2 - 5)`: every wall stands at height 1. `CellOfWallPosition` shows the placement can be inverted. |
| `MazeLayout.RowWalls` | main.js:279-289 | One pass of the inner loop over columns 0 .. n−1 of row z, pushing a wall for each wall cell, in loop order. It emits at most one wall per column visited, each at height 1. |
| `MazeLayout.Walls` | main.js:278-291 | The outer loop over rows 0 .. m−1, each running the inner loop to the first row's length, the walls appended in loop order. Every wall it emits stands at height 1. |
| `MazeLayout.CreateMaze` | main.js:278-291 | The nested loops emit exactly the walls of the `1` cells. The position of cell (x, z) is in the result iff that cell is a wall. Every emitted position is a wall cell's position. No position appears twice. The inner loop's bound is the first row's length. |
| `MazeLayout.RowWallsSpec` | main.js:279-285 | One row of the inner loop emits a wall for exactly the wall cells among the columns visited, in increasing x, all on that row. |
| `MazeLayout.WallsSpec` | main.js:278-285 | The walls of the first m rows are exactly those rows' wall cells, in strict row-major order, hence pairwise distinct. |
| `MazeLayout.CellOfWallPosition` | main.js:285 | The placement x·2−5, z·2−5 can be inverted, so different cells never share a wall position. |
| `MazeLayout.MazeMapWalls` | main.js:263-285 | The constant layout yields 24 walls, all at height 1, with x and z in {−5, −3, −1, 1, 3, 5}: the maze is centred on the origin. |
| `KeyRegistry.NewKey` | main.js:315-319 | The key of loop index i: id i, `isKey` set, not collected, visible (the mesh default), at `keyPositions[i]`, the position its id names. |
| `KeyRegistry.NewBatch` | main.js:305-323 | The keys one run of the loop pushes: `totalKeys` keys with ids 0, 1, 2 in order, none collected, all visible. |
| `KeyRegistry.WithNewKeys` | main.js:296-323 | createKeys pushes `totalKeys` keys after the old list, which it keeps as a prefix. The new keys are uncollected. The counter and pending victories are unchanged. |
| `KeyRegistry.Collected` | main.js:366-381 | collectKey on key i: afterwards key i is collected and no other key has changed. The list length is kept. The counter rises by at most 1, and so does the number of victories scheduled. |
| `KeyRegistry.Restarted` | main.js:431-439 | restartGame: counter 0, every key uncollected and visible with its id and position kept, the same number of keys, and the pending victories untouched. |
| `KeyRegistry.Clicked` | main.js:349-363 | onDocumentClick given the ordered hits: nothing changes in VR or with no hit. Otherwise only the first hit can change, the list length is kept and the counter rises by at most 1. |
| `KeyRegistry.CountCollected` | main.js:8 | The number of collected keys is at most the list length. It equals the length iff every key is collected, and is 0 iff none is. |
| `KeyRegistry.WithNewKeysSpec` | main.js:299-323 | createKeys appends exactly `totalKeys` keys. Key i of the batch has id i, position `keyPositions[i]`, `isKey`, not collected and visible. Earlier keys, the counter and pending victories are untouched. |
| `KeyRegistry.IdAtIsRemainder` | main.js:305-319 | The id the invariant expects at index i of the list, counted batch by batch, is i mod `totalKeys`. |
| `KeyRegistry.WithNewKeysConsistent` | main.js:305-322 | createKeys keeps the registry invariant: keys come in whole batches with id i mod 3 and that id's position, visible iff uncollected, and the counter equals the number collected. |
| `KeyRegistry.CollectedAlreadyCollected` | main.js:366-367 | collectKey on a collected key returns at once. Nothing changes and no victory is scheduled. |
| `KeyRegistry.CollectedSpec` | main.js:366-381 | On an uncollected key, collectKey sets `collected`, clears `visible`, adds exactly 1 to the counter and leaves every other key unchanged. It schedules a victory iff the new counter is ≥ `totalKeys`. The invariant is kept, so the counter stays ≤ the number of keys. |
| `KeyRegistry.CollectedIdempotent` | main.js:366-371 | Collecting the same key twice has the effect of collecting it once. |
| `KeyRegistry.CollectedConsistent` | main.js:366-371 | Every collectKey keeps the invariant and the list length. It never lowers the counter, never un-collects a key, and leaves the target collected. |
| `KeyRegistry.RestartedSpec` | main.js:431-439 | restartGame sets the counter to 0 and every key to uncollected and visible. It keeps the number of keys, their ids and their positions, and re-establishes the invariant. |
| `KeyRegistry.Candidates` | main.js:359 | The filtered list holds only indices of keys in the list that are not collected. |
| `KeyRegistry.CandidatesSpec` | main.js:359 | The raycast candidates are exactly the uncollected keys, each once, in list order. |
| `KeyRegistry.ClickedSpec` | main.js:349-363 | A click does nothing in VR or with an empty hit list. Otherwise exactly one key changes: the first hit, which was uncollected and becomes collected, and the counter rises by exactly 1. |
| `KeyRegistry.CollectAllSpec` | main.js:366-371 | Any run of collectKey calls keeps the invariant and the list length, never lowers the counter, and leaves every picked or already-collected key collected. |
| `KeyRegistry.VictoryOncePerPlaythrough` | main.js:377-381 | With exactly `totalKeys` keys, a run of collectKey calls schedules exactly one victory if it raises the counter from below `totalKeys` to it, and none otherwise, whatever repeats it contains. |
| `KeyRegistry.RestartThenCollectEveryKey` | main.js:431-439 | With exactly `totalKeys` keys (one batch), after restartGame, collecting every key (any order, repeats allowed) brings the counter back to `totalKeys` and schedules exactly one more victory. |
| `KeyRegistry.CollectFreshKeys` | main.js:366-381 | Collecting n distinct uncollected keys raises the counter by n and leaves the other keys alone. It schedules one victory per new counter value ≥ `totalKeys`. |
| `KeyRegistry.SecondStartDuplicatesKeys` | main.js:296-323 | Start, restart, start again leaves two batches of keys: six keys, ids repeating from 0, counter 0, and the threshold still 3. |
| `KeyRegistry.RestartThenStartDuplicatesKeys` | main.js:296-323 | From any state holding one batch of keys, whatever was collected, restartGame then createKeys leaves exactly two fresh batches (ids 0,1,2,0,1,2), counter 0, pending victories kept, and the invariant holds. |
| `KeyRegistry.DuplicatedKeysConsistent` | main.js:305-322 | The duplicated list still satisfies the registry invariant. |
| `KeyRegistry.DuplicatedKeysRepeatVictory` | main.js:377-381 | Take any registry holding two uncollected batches, as a second start leaves it. Collecting keys 0, 1, 2 schedules a victory while keys 3, 4, 5 are still uncollected. Collecting all six schedules four victories and leaves the counter at twice `totalKeys`. |
| `Keyboard.MoveFor` | main.js:145-162 | The switch on `event.code`: a code selects a flag iff it is one of the eight WASD and arrow codes, and then it selects a flag whose two codes include it. |
| `Keyboard.OnKey` | main.js:144-184 | One keydown (`down`) or keyup event: the selected flag becomes `down` and every flag the code does not select is unchanged. |
| `Keyboard.AppliedMoves` | main.js:196-216 | The displacement branches updateMovement runs this frame: none in VR, at most four, and only directions whose flag is set. |
| `Keyboard.MoveForCodes` | main.js:145-162 | A code drives a flag iff it is one of that flag's two codes (W/ArrowUp, S/ArrowDown, A/ArrowLeft, D/ArrowRight). Exactly these eight codes drive any flag. |
| `Keyboard.OnKeySpec` | main.js:144-184 | keydown sets and keyup clears exactly the flag its code maps to and leaves the other three unchanged. Any other code changes nothing. |
| `Keyboard.OnKeyIdempotent` | main.js:144-184 | Repeating a press (by either code of a flag) changes nothing. A release after a press leaves the same flags as the release alone. |
| `Keyboard.ReplayFollowsLastEvent` | main.js:144-184 | After any sequence of key events, a flag is set iff the last event for one of its codes was a keydown. With no such event the flag keeps its value, so a flag never stays stuck after its keyup. |
| `Keyboard.AppliedMovesSpec` | main.js:196-216 | With `isInVR`, updateMovement applies no keyboard movement. Otherwise it applies each direction once, exactly when its flag is set. |
| `Game.GameState.constructor` | main.js:6-20 | The globals start empty: no keys, counter 0, no victory pending, flags down, not in VR, game not started. The invariant holds. |
| `Game.GameState.CreateKeys` | main.js:296-326 | The push loop leaves `keys` equal to the old list plus one fresh batch. Nothing else changes and the invariant is kept. |
| `Game.GameState.InitGame` | main.js:219-236 | The scene's walls become exactly the maze's walls, since startGame's initThreeJS (main.js:82) builds a fresh scene just before. One batch of keys is appended to the list, which outlives the scene, and `gameStarted` is set. The invariant is kept. |
| `Game.GameState.CollectKey` | main.js:366-384 | The fields change exactly as `KeyRegistry.Collected` says, and the invariant is kept. |
| `Game.GameState.RestartGame` | main.js:431-442 | The counter reset and the forEach loop leave the state `KeyRegistry.Restarted` gives, and the invariant holds. |
| `Game.GameState.OnDocumentClick` | main.js:349-364 | It returns in VR. Otherwise it raycasts against the uncollected keys only and collects the first hit, if any, as `KeyRegistry.Clicked` says. |
| `Game.GameState.OnSessionStart` | main.js:119-122 | `sessionstart` sets `isInVR` and nothing else, so the invariant is kept. |
| `Game.GameState.OnSessionEnd` | main.js:124-127 | `sessionend` clears `isInVR` and nothing else, so the invariant is kept. |
| `Game.GameState.OnKeyDown` | main.js:144-163 | The keydown switch changes the move flags as `Keyboard.OnKey` with a press and keeps the invariant. |
| `Game.GameState.OnKeyUp` | main.js:165-184 | The keyup switch changes the move flags as `Keyboard.OnKey` with a release and keeps the invariant. |

## Left out

- Three.js scene, renderer, fog, lights, materials, geometry and shadows (initThreeJS, createBasicEnvironment, createLighting): calls into a library that is not part of this model. Walls and keys are reduced to their positions and flags.
- The ray/sphere intersection and the ordering of hits belong to three.js's Raycaster. They are the `raycast` oracle. The conversion of the mouse position to normalised device coordinates is floating point and is left out.
- updateMovement's displacement (sin/cos of the camera yaw times moveSpeed): floating point. Only which of its four branches run is modelled (`Keyboard.AppliedMoves`).
- animate's key rotation and bobbing (based on `Date.now()`), and rendering: time-dependent floating point.
- resetPlayerPosition (camera and orbit target coordinates), called by restartGame: floating point camera state.
- setTimeout timing in startGame and collectKey. A victory timeout is counted when it is set. showVictory and the victory panel are DOM and are not modelled.
- DOM and UI: init, updateKeyCounter, showVictory, exitVR, onWindowResize, alert and console output. backToMenu's only state change is its call to restartGame, which `Game.GameState.RestartGame` models.
- startGame's repeated listener registration. Each start runs initMovementControls again, so later games have several keydown, keyup and click listeners. The keyboard ones are idempotent. The click listeners sit on each start's new canvas. The model handles each event with one call of its handler.
- OrbitControls and the VRButton. Only the `isInVR` boolean is kept, driven by the session start and end events.
- Joystick dead zones, touch buttons, VR-controller picking, randomised extra key positions, a bounds-checked wall lookup and wall collision: none of these exist in this version of the script.
