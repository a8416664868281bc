# Qt Tetris — a Dafny model of the game core

This project models the rules of a Qt Tetris game in Dafny and proves properties about them. It covers:

- the pieces (`Block`);
- the shape catalog and the piece sequencer (`BlockFactory`), with its 7-bag and uniform randomizers;
- the occupancy grid with line detection and removal (`GameField`);
- the statistics record (`GameStats`);
- the game engine (`GameEngine`): the Stopped / Running / Paused / GameOver state machine, collision, movement and rotation, gravity, soft and hard drop, hold, spawning, locking, scoring and level speed-up, and the ghost piece;
- the key-to-action auto-repeat state machine of the input handler (`InputHandler`);
- the in-memory high-score table (`ScoreManager`).

Every operation is a pure function from the old state to the new one. Everything from outside the game becomes an input:

- Randomness is a `Draw`, which carries one possible outcome of `std::shuffle` and one of the uniform index draw.
- The clock is a time `now` in milliseconds.
- Each database query is a success flag.

Modules, in dependency order:

- `Sorting` (sorting.dfy): insertion sort by key, and sort-then-deduplicate for integer lists.
- `Blocks` (blocks.dfy): type and rotation codes, shapes, rotation of the pattern matrix, occupied cells, bounding box.
- `Catalog` (catalog.dfy): the seven standard shapes, `createBlock`, and the sequencer.
- `Field` (field.dfy): cells, bounds-checked access, complete rows, row removal.
- `Stats` (stats.dfy): the statistics record, and integer division that truncates like C++.
- `Engine` (engine.dfy): the game engine.
- `EngineProofs` (engine_proofs.dfy): properties of single engine operations.
- `EngineInvariant` (engine_invariant.dfy): the engine invariant, and proofs that every operation keeps it, over any sequence of operations.
- `Input` (input.dfy): key mapping and auto-repeat.
- `Scores` (scores.dfy): the high-score table.

## Model

| member | source | states |
|---|---|---|
| Blocks.EmptyBlock | Block.cpp:5-14 | The default block has the sentinel type, is not valid, sits at (0, 0) with rotation 0 and has a 4 x 4 pattern in which every cell is blank. |
| Blocks.EmptyBlockHasNoCells | Block.cpp:5-14 | The default block's blank pattern gives it no occupied cells. |
| Blocks.NewBlock | Block.cpp:16-19 | A block built from a type and a shape keeps both, and starts at (0, 0) with rotation 0. |
| Blocks.SetPositionOnly | Block.h:51-52 | `setPosition` replaces the position and keeps the type, the shape and the rotation. |
| Blocks.MoveTranslates | Block.cpp:21-25 | `move` translates by exactly (dx, dy), keeps everything else, and moving back by (-dx, -dy) restores the block. |
| Blocks.RotationInverses | Block.cpp:27-35 | The clockwise and counter-clockwise turns undo each other, and four clockwise turns restore the block. Turning never changes the position, type or shape. |
| Blocks.ResetRotationKeeps | Block.cpp:37-40 | `resetRotation` gives rotation 0, keeps type, shape and position, and is idempotent. |
| Blocks.RotateOnce | Block.cpp:80-97 | One matrix rotation writes the cell at row y, column x to row x, column N-1-y, and the result is square. |
| Blocks.RotatedPattern | Block.cpp:80-97 | Any number of turns keeps the pattern's size, and at least one turn gives a square pattern. |
| Blocks.RotateFourTimes | Block.cpp:80-97 | Four quarter turns of a square pattern give back the pattern. |
| Blocks.RotatedPatternCount | Block.cpp:80-97 | Any number of quarter turns keeps the size and the number of filled cells of a square pattern. |
| Blocks.OccupiedCellsMembers | Block.cpp:42-56 | A cell is reported occupied exactly when it is a filled cell of the rotated pattern, offset by the block's position. |
| Blocks.OccupiedCells | Block.cpp:42-56 | The list has exactly one cell per filled cell of the rotated pattern. |
| Blocks.OccupiedCount | Block.cpp:42-56 | A block occupies as many cells as its unrotated square pattern has filled cells, in every rotation. |
| Blocks.MoveCells | Block.cpp:21-25 | Moving a block translates each of its occupied cells by (dx, dy), in the same order. |
| Blocks.RotationClosureCells | Block.cpp:27-30 | Four clockwise turns give back the same occupied cells. |
| Blocks.BoundingBox | Block.cpp:58-78 | A block without cells gets the null rectangle. Otherwise the box holds every occupied cell, and each of its four sides touches one. |
| Catalog.StandardShapeWellFormed | BlockFactory.cpp:33-127 | Each standard pattern is square, of side 4 (I), 2 (O) or 3 (the rest), with exactly four filled cells. |
| Catalog.StandardPatternSpan | BlockFactory.cpp:33-127 | In spawn orientation, every standard pattern uses only rows 0-1 and columns 0-3 of its box. |
| Catalog.StandardBlockHasFourCells | BlockFactory.cpp:33-127 | A block with its type's standard shape occupies exactly four cells in each of the four rotations. |
| Catalog.AvailableTypesExact | BlockFactory.cpp:27-30 | The available-type list holds each of the seven valid types exactly once, in enumeration order. |
| Catalog.CreateBlock | BlockFactory.cpp:157-172 | A code outside 0..6 yields the empty block. A valid code yields its standard shape at (0, 0) with rotation 0. |
| Catalog.NewFactory | BlockFactory.cpp:4-11 | A new factory is in 7-bag mode with a full bag that is a permutation of the seven types. |
| Catalog.SetRandomizerType | BlockFactory.h:21 | The mode is 7-bag exactly when the name is "7-bag", and the bag is refilled with a permutation. |
| Catalog.NextFromBag | BlockFactory.cpp:174-182 | A non-empty bag gives up its front. An empty bag is refilled from the shuffle, which then gives up its front. |
| Catalog.NextRandom | BlockFactory.cpp:184-189 | The uniform draw gives the valid type at the drawn index. |
| Catalog.NextType | BlockFactory.cpp:129-138 | In uniform mode the type is the drawn one and the factory is unchanged. The 7-bag branch is `Catalog.NextFromBag`. |
| Catalog.UniformDraw | BlockFactory.cpp:184-189 | In uniform mode a draw returns the available type at the drawn index in 0..6, and the bag is left alone. |
| Catalog.CreateRandomBlock | BlockFactory.cpp:129-155 | The result is always a valid standard block at (0, 0) with rotation 0. Its type is the sequencer's type, or TYPE_I when that type is invalid. |
| Catalog.NextTypeValid | BlockFactory.cpp:129-155 | While the bag holds only valid types, the sequencer produces only valid types, so the TYPE_I fallback never fires. |
| Catalog.BagRound | BlockFactory.cpp:174-196 | In 7-bag mode with an empty bag, the next seven draws are a permutation of the seven types, and they leave the bag empty. |
| Catalog.RoundIsShuffle | BlockFactory.cpp:174-196 | From an empty bag, seven draws return exactly the shuffle made by the refill, and they leave the bag empty. |
| Catalog.FirstBagRound | BlockFactory.cpp:4-11 | The first seven draws of a new factory are a permutation of the seven types. |
| Catalog.BagWindows | BlockFactory.cpp:174-196 | In 7-bag mode from an empty bag, every refill-aligned block of seven draws holds each type exactly once. |
| Field.NewField | game/GameField.cpp:5-20 | A new field has height rows of width cells, all empty and black. |
| Field.Bounds | game/GameField.h:29 | A point is inside the field exactly when it is inside the bounds rectangle. |
| Field.IsCellEmpty | game/GameField.cpp:22-28 | A cell outside the field reads as not empty. Inside, it is empty exactly when it is unoccupied. |
| Field.CellColor | game/GameField.cpp:30-36 | Outside the field the colour is black. Inside, it is the cell's colour. |
| Field.SetCell | game/GameField.cpp:38-44 | An in-bounds cell becomes occupied in the colour and every other cell is kept. Out of bounds, nothing changes. |
| Field.ClearCell | game/GameField.cpp:46-52 | An in-bounds cell becomes a default cell and every other cell is kept. Out of bounds, nothing changes. |
| Field.SetCellEmptiness | game/GameField.cpp:22-44 | After `setCell`, emptiness changes only at the written in-bounds cell. |
| Field.ClearUndoesSet | game/GameField.cpp:38-52 | Clearing a cell undoes setting it, when the cell was empty before. |
| Field.ClearField | game/GameField.cpp:54-61 | Every cell returns to the default and the dimensions are kept. |
| Field.IsLineComplete | game/GameField.cpp:63-73 | A row is complete exactly when it is inside the field and every column of it is occupied. |
| Field.FindCompleteLines | game/GameField.cpp:75-84 | The result lists exactly the complete rows, strictly ascending. |
| Field.RemoveLine | game/GameField.cpp:86-104 | Rows above y move down one, row 0 becomes empty and rows below y are untouched. An out-of-range y changes nothing. |
| Field.RemoveLineGrid | game/GameField.cpp:86-104 | The grid after removing row y is an empty row, then the rows above y, then the rows below y. |
| Field.RemoveCompleteLineCount | game/GameField.cpp:86-104 | Removing one complete row lowers the number of occupied cells by exactly the width. |
| Field.RemoveLinesOrderFree | game/GameField.cpp:106-122 | `removeLines` depends only on which rows are requested, not on their order or repetitions. |
| Field.RemoveLines | game/GameField.cpp:106-122 | The field keeps its size and shape, and an empty request changes nothing. The effect of each removal is stated by `Field.RemoveLine`, and the order of requests by `Field.RemoveLinesOrderFree`. |
| Sorting.SortedUniqueCanonical | game/GameField.cpp:110-116 | Sorting then removing repeats gives the same list for any two requests with the same members. |
| Field.RemoveAllCompleteLines | game/GameField.cpp:124-133 | The count returned is the number of complete rows, and the dimensions are kept. |
| Field.RemoveAllCount | game/GameField.cpp:124-133 | The occupied-cell count drops by the width times the number of rows removed. |
| Field.RemoveAllShape | game/GameField.cpp:124-133 | The new grid is one empty row per removed row, then the kept rows in their original order. |
| Field.RemoveAllLeavesNoComplete | game/GameField.cpp:124-133 | On a field at least one column wide, no row is complete after the removal. |
| Stats.NewStats | data/GameStats.h:14-16 | A new record has score 0, level 1, no lines, no combo, no pieces, no start time and duration 0. |
| Stats.Reset | data/GameStats.h:18-26 | Resetting any record gives the freshly constructed record. |
| Stats.ResetForgets | data/GameStats.h:18-26 | Any two records reset to the same record, and resetting is idempotent. |
| Stats.TruncDiv | GameEngine.cpp:127-131 | Division rounds toward zero. For a non-negative numerator it is floor division. For a negative numerator it is the least q with q * b >= a, so (q - 1) * b < a <= q * b. |
| Stats.TruncDivOdd | GameEngine.cpp:127-131 | Negating the numerator negates the quotient, as truncation toward zero does. |
| Engine.NewEngine | GameEngine.cpp:5-22 | A new engine is stopped on an empty 10 x 20 field, with fresh statistics, no pieces, hold allowed and fall intervals 1000 / 50 ms. |
| Engine.Initialize | GameEngine.cpp:31-44 | The result is a new field of the given size, reset statistics and an empty hold, with the preview piece drawn from the factory. It reports success, and every other field of the engine is kept: state, current piece, hold permission, progress, fast drop, both fall intervals, clock reference and ghost flag. |
| EngineInvariant.InitializeEstablishes | GameEngine.cpp:31-44 | Initialising a game that is not in progress, on a field of at least 4 x 2, establishes the engine invariant. |
| Engine.SetGhostEnabled | GameEngine.h:62 | Only the ghost flag changes. |
| Engine.ValidPositionMeaning | GameEngine.cpp:461-486 | A placement is valid exactly when every occupied cell, offset, is inside the side walls, above the floor, and unoccupied if it is in a row at or below 0. |
| Engine.DropDistance | GameEngine.cpp:224-235 | Every row down to the drop distance is valid, and the next row is not. |
| Engine.Start | GameEngine.cpp:46-79 | Starting a running game changes nothing. The other cases are stated by `EngineProofs.StartFresh`. |
| EngineProofs.StartFresh | GameEngine.cpp:46-79 | Starting any game that is not running gives a running game on an empty field with fresh statistics (one piece counted). It has no held piece, hold allowed, normal speed, and the old preview piece at the spawn column. |
| EngineProofs.PauseResume | GameEngine.cpp:81-116 | Pausing then resuming a running game restores it, apart from the clock reference. Pause, resume and end keep the fall progress, and each is idempotent. |
| Engine.Pause | GameEngine.cpp:81-89 | A running game becomes Paused with nothing else changed; any other state is left alone. |
| Engine.Resume | GameEngine.cpp:91-100 | A paused game becomes Running with the clock reference reset to `now`; any other state is left alone. |
| Engine.Restart | GameEngine.cpp:102-106 | Restarting is starting the game after it has been stopped. |
| EngineProofs.RestartRuns | GameEngine.cpp:102-106 | Restarting from any state gives a running game with fresh statistics. |
| Engine.End | GameEngine.cpp:108-116 | Ending gives the Stopped state and nothing else changes. |
| Engine.Slide | GameEngine.cpp:156-178 | A move left or right succeeds exactly when the game is running and the shifted piece is valid. On success only the piece moves, by dx; on failure nothing changes. |
| Engine.MoveLeft | GameEngine.cpp:156-166 | Moving left is the slide by -1 column. |
| Engine.MoveRight | GameEngine.cpp:168-178 | Moving right is the slide by +1 column. |
| EngineProofs.SlideUndo | GameEngine.cpp:156-178 | From a valid placement, a successful move is undone by the opposite move. |
| Engine.RotateClockwise | GameEngine.cpp:180-193 | The turn succeeds exactly when the game is running and the turned piece is valid, with no wall kicks. On failure nothing changes. |
| Engine.RotateCounterClockwise | GameEngine.cpp:195-208 | As the clockwise turn, turning the other way. |
| EngineProofs.RotateClockwiseOnlyTurns | GameEngine.cpp:180-193 | A successful clockwise turn advances the rotation by one quarter mod 4, keeps the position, and changes nothing else. |
| EngineProofs.RotateCounterClockwiseOnlyTurns | GameEngine.cpp:195-208 | A successful counter-clockwise turn moves the rotation back one quarter mod 4, keeps the position, and changes nothing else. |
| EngineProofs.RotateUndo | GameEngine.cpp:180-208 | From a valid placement, a successful turn is undone by the opposite turn. |
| Engine.SoftDrop | GameEngine.cpp:210-215 | A running game switches fast falling on and nothing else changes; other states are left alone. |
| Engine.StopSoftDrop | GameEngine.cpp:217-222 | A running game switches fast falling off and nothing else changes; other states are left alone. |
| EngineProofs.SoftDropToggle | GameEngine.cpp:210-222 | Soft drop on then off leaves the piece in place. It only selects the 50 ms or the level interval for the fall progress. |
| Engine.Tick | GameEngine.cpp:118-139 | The fall progress grows by the elapsed time over the active interval. The first tick records the start time, and later ones set the duration to the whole seconds elapsed. |
| Engine.Update | GameEngine.cpp:118-154 | A game that is not running is left alone. The running case is stated by `EngineProofs.GravityStep`. |
| EngineProofs.GravityStep | GameEngine.cpp:118-154 | Below one row of progress only bookkeeping happens. At one row the piece steps down and the progress restarts, or the piece locks when the row below is blocked. |
| EngineInvariant.UpdateKeeps | GameEngine.cpp:118-154 | A gravity tick keeps the engine invariant. |
| Engine.Dropped | GameEngine.cpp:224-240 | Hard drop moves the piece down by the drop distance and adds 2 points per row. |
| EngineProofs.HardDropAtGhost | GameEngine.cpp:224-244 | Hard drop lands exactly where the ghost piece shows. |
| Engine.HardDrop | GameEngine.cpp:224-244 | A game that is not running is left alone; a running one drops the piece (`Engine.Dropped`) and then locks it. |
| EngineInvariant.HardDropKeeps | GameEngine.cpp:224-244 | A hard drop, including the lock and the next spawn, keeps the engine invariant. |
| Engine.Spawn | GameEngine.cpp:333-373 | The preview piece becomes current at column width/2-2 of row 0 and a new preview is drawn. If an in-field cell is occupied the game is over; otherwise hold is re-allowed, progress and fast drop are reset and the piece is counted. |
| EngineProofs.SpawnGameOverIff | GameEngine.cpp:333-373 | Spawning ends the game exactly when an in-field cell of the new piece is occupied. |
| EngineInvariant.SpawnKeeps | GameEngine.cpp:333-373 | A spawn that does not end the game leaves a standard piece at a valid position. |
| Engine.Place | GameEngine.cpp:375-386 | Every in-field cell of the piece becomes occupied in its colour, the other cells are kept, and only the field changes. |
| Engine.BaseScore | GameEngine.cpp:433-446 | The table gives 100, 300, 500 and 800 points for one, two, three and four lines, and 0 for any other count. |
| Engine.SpeedFor | GameEngine.cpp:448-459 | The interval is 1000 - (level-1) * 100 ms down to level 10, and 100 ms from there on. |
| Engine.AfterClear | GameEngine.cpp:424-459 | Lines are added and scored at the level before the clear. The level becomes lines/10+1 but never drops, and the speed changes only when the level rises. |
| Engine.ClearLines | GameEngine.cpp:406-422 | The count is the number of complete rows. The field is the one with them removed, and nothing changes when there are none. |
| EngineProofs.ClearScoring | GameEngine.cpp:406-446 | Clearing n lines adds the table value for n times the level, adds n to the lines and removes n rows' worth of occupied cells. |
| EngineProofs.LevelTracksLines | GameEngine.cpp:448-459 | While level = lines/10 + 1 and the interval matches the level, a clear keeps both. |
| Engine.Lock | GameEngine.cpp:388-404 | A game that is not running is left alone. A running one places the piece, clears lines and spawns, then resets the fall progress and fast drop. |
| EngineInvariant.LockKeeps | GameEngine.cpp:388-404 | Locking (place, clear, spawn, reset progress) keeps the engine invariant. |
| Engine.FitTable | GameEngine.cpp:306-313 | Entry i of the table tells whether the piece fits in row 0 at offset i - 2 from the spawn column, for the five offsets the loop tries. |
| Engine.FirstFit | GameEngine.cpp:306-313 | The search returns an entry at or after the start at which the piece fits, or none. |
| Engine.FirstFitIsFirst | GameEngine.cpp:306-313 | No entry the search passes over fits, so the found entry is the first one that fits. When nothing is found, no entry fits. |
| Engine.AdjustSwapped | GameEngine.cpp:300-323 | The adjusted piece differs from the swapped one only in its column, stays in row 0 and is at a valid position. |
| Engine.AdjustSwappedFirst | GameEngine.cpp:306-323 | The adjustment fails exactly when no offset in -2..2 fits. Otherwise it uses the first offset that fits. |
| Engine.SwapHeld | GameEngine.cpp:281-323 | The swap stores the current piece unrotated and brings in the held piece at rotation 0 in row 0. If no offset fits the game is over; otherwise hold is blocked and the piece is at a valid position. |
| EngineProofs.SwapOutcome | GameEngine.cpp:295-323 | A swap ends the game exactly when the former held piece fits at no offset -2..2 in row 0. Otherwise the piece lands at the spawn column if it fits there, and else at the first offset that fits. |
| Engine.Hold | GameEngine.cpp:246-331 | Hold does nothing when the game is not running, hold is blocked, the current piece is invalid, or the slot holds an invalid piece. It never changes the field. The two branches are stated by `EngineProofs.HoldFirstUse` and `EngineProofs.SwapOutcome`. |
| EngineProofs.HoldFirstUse | GameEngine.cpp:246-331 | The first hold stores the current piece unrotated, brings in the preview piece and blocks hold. |
| EngineProofs.HoldSwapsKinds | GameEngine.cpp:281-331 | A swapping hold exchanges the types of the current and held pieces, both at rotation 0. |
| EngineProofs.HoldOncePerPiece | GameEngine.cpp:246-331 | A second hold right after a hold changes nothing. |
| EngineInvariant.HoldKeeps | GameEngine.cpp:246-331 | Holding keeps the engine invariant. |
| Engine.GhostPosition | GameEngine.cpp:495-517 | When not running, the ghost is at the current position. When running it is in the same column, above the floor, and at the landing row when that row is inside the field. When the landing row is at or below the floor, the row is clamped to height - 1. |
| Engine.GhostBlock | GameEngine.cpp:519-529 | When not running, the result is the empty block; otherwise it is the current piece moved to the ghost position. |
| EngineProofs.GhostRestsOnStack | GameEngine.cpp:495-529 | The ghost of a validly placed piece fits where it stands and cannot go one row lower. |
| EngineInvariant.RunKeeps | GameEngine.cpp:46-331 | Any sequence of engine operations keeps the engine invariant. |
| EngineInvariant.SessionKeeps | GameEngine.cpp:31-331 | From initialisation, any session leaves the invariant in force. While running, the piece stands at a valid position. |
| Input.DefaultMapping | game/InputHandler.cpp:15-33 | Exactly the 13 default keys are bound, never to the count sentinel. A and D move left and right like the arrow keys, and S soft drops and W rotates clockwise like Down and Up. Space hard drops, Z rotates counter-clockwise, C holds, P pauses and R restarts. The move actions are exactly the arrow left/right and A/D keys, and every action is bound to some key. |
| Input.DefaultKeysFor | game/InputHandler.cpp:19-32 | Read backwards, the default map binds each of left, right, soft drop and clockwise turn to exactly its arrow key and its WASD letter, and each other action to exactly one key. No key is bound to the count sentinel. |
| Input.EveryActionBound | game/InputHandler.cpp:20-32 | A map that binds the arrows, Space, Z, C, P and R to their default actions has every action among its values. |
| Input.NewHandler | game/InputHandler.cpp:3-13 | A new handler is idle with no timer running, the default configuration and a 200 ms extra delay. |
| Input.SetInputConfig | game/InputHandler.cpp:35-39 | The configuration is replaced; the timer interval is set from the configuration in force before. |
| Input.StartAutoRepeat | game/InputHandler.cpp:94-100 | The action becomes current, and a single-shot timer starts for the delay plus the extra delay. |
| Input.StopAutoRepeat | game/InputHandler.cpp:102-107 | The timer stops and no action is current. |
| Input.ProcessKeyEvent | game/InputHandler.cpp:41-92 | An event is consumed exactly when its key is mapped and it is a press or a release. It emits at most one signal and never changes the configuration. |
| Input.UnmappedIgnored | game/InputHandler.cpp:45-47 | An unmapped key is not consumed and changes nothing. |
| Input.PressWhileIdle | game/InputHandler.cpp:51-71 | An idle press emits its action once. A move then starts the repeat timer, soft drop becomes current without a timer, and other actions change nothing. |
| Input.PressWhileRepeating | game/InputHandler.cpp:51-71 | While repeating, a move press is swallowed and any other action is emitted; the state does not change. |
| Input.ReleaseEffect | game/InputHandler.cpp:72-89 | Releasing the current action ends the repeat, and other releases change nothing. Only a soft-drop release emits a signal. |
| Input.SignalKinds | game/InputHandler.cpp:41-92 | Only presses emit triggers and only releases emit releases. |
| Input.OnAutoRepeat | game/InputHandler.cpp:109-116 | On expiry during a repeat, the current action is emitted and the timer becomes periodic at the repeat interval. Otherwise nothing is emitted. |
| Input.TapMove | game/InputHandler.cpp:41-107 | Press then release of a move key emits it once and returns to the idle state. |
| Input.HoldMoveRepeats | game/InputHandler.cpp:41-116 | Holding a move key emits it on the press and again on every timer expiry, at the repeat interval. |
| Input.ConsistentKept | game/InputHandler.cpp:35-121 | Every transition keeps the handler consistent: repeating exactly when an action is current, and a timer only for moves. |
| Input.SoftDropNeverTimed | game/InputHandler.cpp:57-66 | In a consistent handler, a current soft drop never has a running timer. |
| Input.UpdateAutoRepeatDelay | game/InputHandler.cpp:118-121 | The extra delay is 200 - 20 * level while positive (below level 10) and 0 from there on; nothing else changes. |
| Input.ExtraDelayMonotone | game/InputHandler.cpp:118-121 | The extra delay never grows with the level. |
| Scores.AddScore | game/ScoreManager.cpp:79-120 | A failed insert leaves the table unchanged. A successful one gives a list in descending score order, of size min(old + 1, 5), drawn from the old entries plus the new one. |
| Sorting.SortBy | game/ScoreManager.cpp:107 | The result is sorted by the key and is a permutation of the input. |
| Scores.AddScoreKeepsBest | game/ScoreManager.cpp:104-110 | Every entry dropped by the cut scores no more than every entry kept. |
| Scores.AddScoreBelowLimit | game/ScoreManager.cpp:104-110 | Below the limit, a successful insert keeps all old entries and the new one. |
| Scores.AddScoreBeatsAnEntry | game/ScoreManager.cpp:104-110 | A full table stays full, and a score above any of its entries gets in. |
| Scores.TableStaysTop | game/ScoreManager.cpp:79-137 | Adding and resetting keep a table sorted and within the limit of 5, whether the queries succeed or not. |
| Scores.GetHighScores | game/ScoreManager.cpp:122-126 | The result is the first min(count, size) entries of the table. |
| Scores.GetHighScoresPrefix | game/ScoreManager.cpp:122-126 | A smaller request is a prefix of a larger one, and a request for the whole table returns the table. |
| Scores.ResetHighScores | game/ScoreManager.cpp:128-137 | A successful delete empties the table; a failed one leaves it unchanged. |

A few small functions carry their contract in a lemma instead of an `ensures`:

- `Engine.IsValidPosition` (GameEngine.cpp:461-486): `Engine.ValidPositionMeaning`.
- `Blocks.SetPosition` (Block.h:51-52): `Blocks.SetPositionOnly`.
- `Blocks.Move` (Block.cpp:21-25): `Blocks.MoveTranslates`.
- `Blocks.RotateCW` and `Blocks.RotateCCW` (Block.cpp:27-35): `Blocks.RotationInverses`.
- `Blocks.ResetRotation` (Block.cpp:37-40): `Blocks.ResetRotationKeeps`.

The engine invariant, `EngineInvariant.Inv`, requires the following:

- the field is well formed and at least 4 x 2;
- the preview piece is a standard piece at rotation 0;
- the hold slot is empty or holds a standard piece at rotation 0;
- the level is lines/10 + 1 and the combo counter stays 0;
- while the game is running or paused, the current piece is a standard piece at a valid position and the fall interval matches the level.

## Left out

- The user interface is not modelled: the main window, the game widget, the `TetrisGame` wrapper, the configuration singleton and all Qt signals. The engine's signals carry no state.
- The engine's timer is not modelled. Time enters as the argument `now`, in milliseconds.
- Engine.Tick: the fall progress is an exact real number, not a `float`, so floating-point rounding is not modelled.
- `moveDown` is not modelled: GameEngine.h:37 declares it, but it is never defined.
- Const getters and `debugPrintField` are not modelled.
- `shiftLinesDown` is not modelled, because nothing calls it.
- The SQL side of the score manager is not modelled: `initDatabase`, `createTable`, `loadHighScores`, `saveHighScores`, and the delete of excess rows.
- The score manager's constructor is not modelled. The table starts as any list the caller supplies.
- `std::shuffle` and `std::uniform_int_distribution` are not modelled as algorithms. Each draw receives one possible outcome of them.
- Scores.GetHighScores: requires `count >= 0`, because the source builds a range from a negative count when one is passed, and that is undefined.
- Scores.AddScore: the sort is a stable insertion sort. `std::sort` is not stable, so among equal scores the model fixes one of the orders the source may produce.
- Scores.AddScore: the date is an opaque number standing for the current date-time.
- Engine.AfterClear: the `int` score and line counters are unbounded, so 32-bit overflow is not modelled.
- EngineInvariant.InitializeEstablishes: requires a field of at least 4 x 2 and no game in progress. Below 4 columns the spawn column leaves the field. A running game re-initialised would keep its current piece on a new field.
- Engine.GhostBlock: the ghost-enabled flag is stored but not consulted, as in the source, where only the display reads it.
- Input.SetInputConfig: the timer interval is taken from the old configuration, as the source does.
- The `InputConfig` type and its 150 / 50 ms defaults come from InputHandler.h:26-32. The superseded InputHandler.cpp at the repository root is not part of this model.
- Input.ProcessKeyEvent: key presses generated by the operating system's own auto-repeat are treated as ordinary presses.
- Input.OnAutoRepeat: requires an active timer, because the slot runs only when the timer expires.
- Field.NewField: the width and height are natural numbers. A negative size in the source reaches `QVector::resize` (game/GameField.cpp:13-15), whose behaviour is then undefined, so that case is not modelled.
- Engine.Initialize: the field size is a pair of natural numbers, for the same reason as Field.NewField.
- `GameStats.currentCombo` is never changed by the engine, and the model keeps it at 0.
