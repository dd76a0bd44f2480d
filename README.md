# Snake rule engine in Dafny

This project models the rule engine of a browser Snake game: the `Gameplay` class
(src/components/Gameplay.ts) and the settings it reads (src/components/GameSettings.ts).

The snake is a head cell plus a tail chain. Each chain entry is the heading from one
segment to the next, walking outward from the head. A tick moves the head one cell in
the current heading and shifts the chain. Eating a fruit starts a growth counter, and the
tail grows once that counter reaches the tail length. The tick fails, and is rolled back,
when the head leaves the board, lands on a mongoose or lands on a tail cell. Mongooses
are fixed obstacles. One is added whenever the tail gets more than five times as long as
the mongoose list.

Modules:

- `Directions` (directions.dfy): the four headings, `Reverse` and `DirectionStep`.
- `Settings` (settings.dfy): the field-size presets, the default settings and the
  pixel length of the field.
- `GameRules` (rules.dfy): the rules as functions on a `Game` value. This value holds
  every field the rules touch. The module has the tail-cell walk, the collision test,
  placement by rejection sampling, turning, `Forward` (one move of the snake), `Step`
  and `Reset`.
- `GameProperties` (properties.dfy): what one move, one tick, one turn and a new game
  do, stated against the state before them.
- `GameInvariants` (invariants.dfy): the invariant `Consistent`, which holds after a new
  game and is kept by every turn and every tick. It says that the head is on the board,
  that the head, the tail cells, the mongooses and the fruit are pairwise on different
  cells, and that the heading never points at the neck.
- `GameGrowth` (growth.dfy): when delayed growth happens.
- `Gameplay` (gameplay.dfy): the class itself. Its fields are updated in place. Every
  method that changes a field is proved to produce exactly the state that the matching
  `GameRules` function gives. `CheckConditions` changes nothing and returns exactly
  `Free`. The constructor, `ResetGame`, `SetDirection` and `Step` also keep `Valid()`.
  `SetFruit`, `SetMongoose` and `SnakeStepForward` do not promise `Valid()` on their
  own. A move may put the head off the board, and `Step` then rolls it back. `SetFruit`
  accepts any picture number.

Some behaviour of Gameplay.ts differs from what one might expect of the game. The
model follows the code:

- One might expect the tail to grow on the L-th tick after eating, where L is the tail
  length. In the code the counter starts at -1 and is aged before it is compared with
  the tail length. So the tail grows on the (L + 1)-th tick after the fruit is eaten
  (`GameGrowth.EatenFruitGrowth`). At that tick the eaten cell would otherwise leave
  the tail's end, so the eaten cell stays as the last tail segment.
- One might expect the first tick of a new game to turn the tail into [down, up]. The
  code puts `reverse(down)`, which is up, in front, so the tail becomes [up, up]
  (`GameProperties.FirstMove`).
- Tail cells on the board is not an invariant of the code. A new game's tail starts
  above the board, at (0,-1) and (0,-2) (`GameProperties.StartTailOffBoard`). What does
  hold is that the head is on the board and that no two cells of the snake, the
  mongooses and the fruit coincide.
- A failed tick is not fully undone. The code restores only the head and the tail; the
  growth counters keep their ageing and any removal (`GameProperties.StepRollback`).
  So when a counter fires on a tick that then fails, the counter is gone but the tail
  is restored, and that growth is lost (`GameGrowth.RollbackLosesGrowth`).

## Model

| member | source | states |
|---|---|---|
| `Directions.Reverse` | src/components/Gameplay.ts:5-10 | no heading is its own reverse, and one step in `d` followed by one step in `Reverse(d)` returns to the starting cell |
| `Directions.ReverseIsInvolution` | src/components/Gameplay.ts:5-10 | reversing twice gives the heading back |
| `Directions.DirectionStep` | src/components/Gameplay.ts:12-17 | a step changes exactly one coordinate, by exactly one |
| `Directions.DirectionStepInjective` | src/components/Gameplay.ts:12-17 | different headings lead from a cell to different neighbours |
| `Settings.DefaultFieldLength` | src/components/GameSettings.ts:15-21 | with the defaults (15 cells of 16 pixels, borders of 3) the field is 288 pixels long |
| `Settings.PresetsOrdered` | src/components/GameSettings.ts:7-10 | the presets are strictly ordered: 10 < 15 < 20 < 25 |
| `Settings.FieldLength` | src/components/GameSettings.ts:19-21 | defines `getFieldLength`: every cell plus the border line after it, plus one border line before the first cell. `DefaultFieldLength` and `FieldLengthMonotone` state its properties |
| `Settings.FieldLengthMonotone` | src/components/GameSettings.ts:19-21 | when a cell plus its border is longer than zero pixels, a field with more cells is drawn strictly longer |
| `GameRules.TailCells` | src/components/Gameplay.ts:92-97 | walking the chain gives one cell per tail entry |
| `GameRules.TailCellAt` | src/components/Gameplay.ts:92-97 | each tail cell is one step, in that entry's heading, from the cell before it (the head for the first) |
| `GameRules.TailCellsPrefix` | src/components/Gameplay.ts:92-97 | the cells of a cut chain are the same cut of the cells |
| `GameRules.Free` | src/components/Gameplay.ts:84-99 | defines the cells `checkConditions` accepts: on the board, not a mongoose, not a tail cell. `Gameplay.Gameplay.CheckConditions` is proved to compute it |
| `GameRules.FirstFit` | src/components/Gameplay.ts:59-69 | the placement loop stops at the first draw that fits: that draw fits and every earlier one does not |
| `GameRules.PlaceFruit` | src/components/Gameplay.ts:57-70 | defines `setFruit`: the fruit moves to the first draw that `FirstFit` accepts, with the given picture. `Gameplay.Gameplay.SetFruit` is proved to compute it |
| `GameRules.PlaceMongoose` | src/components/Gameplay.ts:72-82 | defines `setMongoose`: a mongoose is appended at the first draw that is free, not the fruit and not the head. `Gameplay.Gameplay.SetMongoose` is proved to compute it |
| `GameRules.Turn` | src/components/Gameplay.ts:101-110 | defines `setDirection`. `GameProperties.TurnEffect` states what it changes |
| `GameRules.IndexOf` | src/components/Gameplay.ts:137 | `indexOf` gives the first position that holds the value, or -1 exactly when the value is absent |
| `GameRules.Aged` | src/components/Gameplay.ts:136 | defines the `map(val => val + 1)` over the counters. `GameProperties.AgedMembership` states its effect on membership |
| `GameRules.Forward` | src/components/Gameplay.ts:134-146 | defines `snakeStepForward` step by step: move, age, find the first counter equal to the tail length, push and splice, pop, unshift. `GameProperties.ForwardTail`, `ForwardCounters` and `ForwardCells` state its effect |
| `GameRules.MongooseDue` | src/components/Gameplay.ts:129 | defines the test `snakeTail.length / mongoose.length > 5` on integers: with no mongoose it holds exactly when the tail is non-empty (Infinity, or NaN for an empty tail), otherwise exactly when the tail is longer than five times the mongoose list |
| `GameRules.Step` | src/components/Gameplay.ts:112-132 | defines `step` as a result and a new state. `GameProperties.StepFailsIff`, `StepRollback`, `StepSuccess`, `StepMongoose` and `GameInvariants.StepConsistent` state its effect |
| `GameRules.Reset` | src/components/Gameplay.ts:46-55 | defines `resetGame`: the start position, then `PlaceFruit`, then `PlaceMongoose`. `GameProperties.ResetState` states the result |
| `GameRules.FitIgnoresCounters` | src/components/Gameplay.ts:124-126 | pushing a growth counter before `setFruit` does not change which draws fit |
| `GameRules.MongooseDueIgnoresKind` | src/components/Gameplay.ts:124-129 | the fruit's picture changes neither the state after eating nor the new fruit's cell |
| `GameProperties.AgedMembership` | src/components/Gameplay.ts:136-137 | after ageing, a counter equals the tail length exactly when it was one below it |
| `GameProperties.ForwardTail` | src/components/Gameplay.ts:134-146 | one move puts the head at `DirectionStep(head, direction)`. The pushed duplicate and the pop cancel out, so the tail becomes `[Reverse(direction)] + tail` on growth and otherwise `[Reverse(direction)] + tail[..|tail|-1]`. Heading, fruit and mongooses stay as they were |
| `GameProperties.ForwardCounters` | src/components/Gameplay.ts:136-141 | every counter is incremented. Without growth all of them stay. On growth only the first counter that reached the tail length is removed |
| `GameProperties.ForwardCells` | src/components/Gameplay.ts:134-146 | after a move the tail cells are the old head cell followed by the old tail cells. The last old tail cell is dropped unless the tail grows |
| `GameProperties.StepFailsIff` | src/components/Gameplay.ts:112-122 | a tick fails exactly when the cell ahead is off the board, is a mongoose, or is a tail cell that stays. The cell the tail's end leaves is safe unless the tail grows |
| `GameProperties.StepRollback` | src/components/Gameplay.ts:113-121 | a failed tick restores head and tail. Heading, fruit and mongooses are unchanged. The counters keep the ageing and any removal |
| `GameProperties.StepSuccess` | src/components/Gameplay.ts:116-127 | a successful tick leaves the head on a free cell of the board. On the fruit it records a counter -1 and moves the fruit to a free cell off the head, with the given picture. Otherwise counters and fruit are as after the move |
| `GameProperties.StepMongoose` | src/components/Gameplay.ts:129 | a successful tick adds exactly one mongoose when the tail is more than five times as long as the mongoose list (or the list is empty), and none otherwise. The earlier mongooses stay. A new one is on a free cell, off the head and off the fruit |
| `GameProperties.ResetState` | src/components/Gameplay.ts:46-55 | a new game starts with head (0,0), heading down, tail [up, up] and no counters. It has exactly one mongoose. Fruit and mongoose are on free cells, distinct from each other and from the head |
| `GameProperties.StartTailOffBoard` | src/components/Gameplay.ts:47-50 | the initial tail cells are (0,-1) and (0,-2), both off the board |
| `GameProperties.FirstMove` | src/components/Gameplay.ts:112-146 | the first tick of a new game succeeds when (0,1) is neither a mongoose nor the fruit. It moves the head to (0,1) and leaves the tail [up, up] |
| `GameProperties.TurnEffect` | src/components/Gameplay.ts:101-110 | a turn changes only the heading. An arrow key sets it unless the key points at the neck, and other keys leave it unchanged |
| `GameProperties.NeckNotAhead` | src/components/Gameplay.ts:101-110 | a heading different from the first tail entry never leads into the neck cell |
| `GameInvariants.ResetConsistent` | src/components/Gameplay.ts:46-55 | a new game satisfies the invariant |
| `GameInvariants.TurnConsistent` | src/components/Gameplay.ts:101-110 | a turn keeps the invariant; in particular the heading never becomes the neck's |
| `GameInvariants.SuccessCells` | src/components/Gameplay.ts:134-146 | after a successful tick the snake's cells are pairwise distinct and are the new head or cells it held before |
| `GameInvariants.MoveKeepsConsistent` | src/components/Gameplay.ts:118-131 | the invariant survives a move onto a free cell that adds at most one mongoose, and moves the fruit only to a free cell off the head |
| `GameInvariants.StepConsistent` | src/components/Gameplay.ts:112-132 | every tick keeps the invariant, whether it succeeds or is rolled back |
| `GameGrowth.ForwardLoneCounter` | src/components/Gameplay.ts:136-141 | with one pending counter, a move ages it. The tail grows and the counter is removed exactly when it reaches the tail length |
| `GameGrowth.PendingGrowth` | src/components/Gameplay.ts:136-141 | while a lone counter stays below the tail length, each move only ages it and the tail keeps its length |
| `GameGrowth.GrowthFires` | src/components/Gameplay.ts:136-141 | a lone counter c grows the tail by one on move L - c (L the tail length) and is removed |
| `GameGrowth.EatenFruitGrowth` | src/components/Gameplay.ts:125-141 | a fruit eaten with tail length L: no growth during the next L moves, growth on move L + 1 |
| `GameGrowth.RollbackLosesGrowth` | src/components/Gameplay.ts:113-121 | when a lone counter fires on a tick that fails, the tail is restored to its old length and the counter is gone, so that growth never happens |
| `Gameplay.Gameplay.constructor` | src/components/Gameplay.ts:41-44 | construction keeps the settings and starts a new game |
| `Gameplay.Gameplay.ResetGame` | src/components/Gameplay.ts:46-55 | the fields become `Reset(...)`, and the invariant holds |
| `Gameplay.Gameplay.SetFruit` | src/components/Gameplay.ts:57-70 | the retry loop puts the fruit at the first draw that is free and not the head. Nothing else changes |
| `Gameplay.Gameplay.SetMongoose` | src/components/Gameplay.ts:72-82 | the retry loop appends a mongoose at the first draw that is free, not the fruit and not the head. Nothing else changes |
| `Gameplay.Gameplay.CheckConditions` | src/components/Gameplay.ts:84-99 | changes nothing. The loop over the tail returns true exactly when the cell is on the board, not a mongoose and not a tail cell (`Free`). The head's own cell is not compared |
| `Gameplay.Gameplay.SetDirection` | src/components/Gameplay.ts:101-110 | only the heading changes, as `Turn` says, and the invariant is kept |
| `Gameplay.Gameplay.SnakeStepForward` | src/components/Gameplay.ts:134-146 | the in-place push, splice, pop and unshift leave the state `Forward` gives |
| `Gameplay.Gameplay.Step` | src/components/Gameplay.ts:112-132 | the snapshot, move, check, rollback, eating and mongoose rule give the result and state of `GameRules.Step`, and the invariant is kept |

## Left out

- `Math.random()` is not modelled. The fruit picture is a parameter in [0, 7). The cells that the `while (true)` loops of `setFruit` and `setMongoose` try are the parameters `fruitDraws` and `mongooseDraws`, in order. A `requires` demands that they contain a cell that fits. The code would sample for ever on a board with no such cell. The draws need not be on the board; a draw off the board is rejected, as the code rejects it.
- `speed` is left out. `resetGame` sets it, and no rule reads it.
- src/components/Drawer.ts (rendering, images, colours) is not part of this model. Neither is the game-over flag, which belongs to the caller.
- The settings are a value held in a constant field. The code shares one settings object with the caller, who may change it between games. That sharing is not modelled. The unused `FieldSettings` interface is left out.
- Key codes are the datatype `Key`, with `Other` for every key other than the four arrows. The code compares strings.
- Numbers are unbounded integers. The code uses JavaScript doubles, which are exact for every value a game can reach. The mongoose test `tail.length / mongoose.length > 5` is written as `|tail| > 5 * |mongoose|`. With no mongoose it is true for a non-empty tail (Infinity) and false for an empty one (NaN).
- `GameRules.Forward` requires a non-empty tail. The code on an empty tail is not modelled: it would push `undefined` when a counter equals 0, and otherwise `pop()` would do nothing and `unshift` would leave a one-entry tail. The invariant keeps at least two entries, so a game never reaches that case.
- `GameGrowth` follows one pending counter through moves that neither collide nor eat. Interleavings with further fruits are not covered.
