# Snake game and bubble sort, modelled in Dafny

Two small programs, each modelled in its own module.

- `Snake` (snake_game.dfy) models the browser snake game's `SnakeGame` object.
  - The snake lives on a square board of `tileCount` × `tileCount` cells, and its edges wrap around.
  - It moves one cell per tick, grows by one when it eats, and the game ends when the head runs into the snake.
  - Eating scores 10 points. Every 50 points the tick interval drops by 10 ms, never below 50 ms.
  - Space starts the game, or pauses and resumes it. The arrow keys and WASD steer, but cannot reverse the snake.
  - The class `SnakeGame` holds the object's fields. Its methods change them in place, in the order the original code does.
  - Each method's contract says its new state is `F(old state)` for one pure transition function: `Start`, `Toggled`, `Pressed`, `Reset`, `Ended`, `Tick` or `Stepped`. Those functions work on the value type `Game`.
  - The game's invariant `Inv` and its other properties are lemmas about these transition functions.
- `Sorting` (bubble_sort.dfy) models the bubble-sort family.
  - `bubble_sort` is an in-place sort with early exit on a copy of the list. `optimized_bubble_sort` and `bubble_sort_verbose` are the same text; the verbose one adds printing.
  - `bubble_sort_recursive` makes one pass over a prefix, then recurses on a prefix one shorter.
  - The copy is a fresh `array<int>`, and the swaps happen in it.

Five behaviours of the code are easy to miss, and the model follows the code in each:
- The docstring of `resetGame` (example2/script.js:189) says "Reset game state to initial values", but it does not restore the tick interval: `resetGame` leaves `gameSpeed` and `boundaryCrossCount` as they are.
- Space after a game over does not reset the board. `handleKeyPress` calls `startGame` directly, so the old snake and score carry on; only the restart button goes through `resetGame`.
- Movement keys still change the velocity when the game is not running.
- The no-reversal rule compares a key with the current velocity, not with the last step taken. Two quick keys before one tick can turn the snake onto its own neck (`QuickTurnCollides`).
- Because Space after a game over keeps the snake and its velocity, the next tick collides again unless a movement key comes first (`SpaceAfterGameOverCollidesAgain`).

## Model

| member | source | states |
|---|---|---|
| Snake.Advance | example2/script.js:234-258 | the wrapped head of a head on the board, moving at an allowed velocity, is on the board, and each coordinate is head + velocity up to one turn of the board; a step that stays on the board is plain addition |
| Snake.WrapAxis | example2/script.js:246-256 | one axis of the wrap (below 0 to the last tile, past the end to 0): a coordinate at most one step off the board lands on it within one turn of where it was, and one on the board stays put; used by `Advance` |
| Snake.WrapToOppositeEdge | example2/script.js:246-256 | stepping right off the last column re-enters at column 0, left off column 0 at the last column, and likewise for rows |
| Snake.KeyOf | example2/script.js:94-138 | the key codes the game reacts to: exactly "Space" is Space, and exactly ArrowUp/KeyW, ArrowDown/KeyS, ArrowLeft/KeyA and ArrowRight/KeyD are the four moves; every other code is ignored |
| Snake.Steer | example2/script.js:108-138 | a movement key gives either the requested direction or the unchanged velocity, never the exact reverse of a moving snake, and keeps the velocity allowed |
| Snake.SteerRefusesOnlyReversal | example2/script.js:108-138 | for an allowed velocity, a key is refused exactly when it asks for the reverse, and otherwise sets the requested direction |
| Snake.Initial | example2/script.js:19-44 | the constructed game (start cell (10,10), food (15,15), interval 150) satisfies the invariant for every board larger than 15 |
| Snake.Start | example2/script.js:144-163 | the game is running and unpaused; a stationary snake starts moving right, (1,0); a moving snake keeps its velocity; every other field (snake, length, score, food, high score, interval, time, crossing count) is kept; the invariant is kept |
| Snake.Toggled | example2/script.js:168-178 | a running game's paused flag flips and nothing else changes; the invariant is kept |
| Snake.ToggleTwiceRestores | example2/script.js:168-171 | two toggles restore the game, and a toggle does nothing when the game is not running |
| Snake.Ended | example2/script.js:400-411 | the game stops; the high score becomes the larger of the high score and the score; no other field changes |
| Snake.Reset | example2/script.js:191-204 | the snake is [(10,10)] with length 1, standing still, score 0, neither running nor paused; the food is the new draw; the interval, high score, crossing count, board and last render time are kept; the invariant is kept when the draw is on the board and off the start cell |
| Snake.Pressed | example2/script.js:93-139 | the state after a key: no key touches the snake, its length, the food, the score, the high score, the interval, the time or the crossing count; what each key does is stated by `PressedProperties` |
| Snake.PressedProperties | example2/script.js:93-139 | every key keeps the invariant; Space starts a game that is not running (`Start`) and toggles the pause of one that is (`Toggled`); a paused game ignores every other key; in an unpaused game a movement key sets the requested direction unless it is the exact reverse of the velocity, in which case nothing changes; any other key changes nothing; no key, Space included, reverses a moving snake |
| Snake.FreeCellExists | example2/script.js:374-395 | fewer segments than board cells leave a board cell off the snake, so the food search can end |
| Snake.RoomForFood | example2/script.js:269-275 | a valid game whose grown snake is smaller than the board always satisfies the precondition for food placement |
| Snake.Stepped | example2/script.js:269-285 | unshift then eat or pop: the new head is first, the snake grows by one exactly when the head is on the food, and the flags, velocity, high score, time and crossing count are kept; see `SteppedPreservesInv` |
| Snake.SteppedPreservesInv | example2/script.js:269-285 | prepending a free board cell, then eating (keeping the tail) or popping the tail, keeps the invariant: non-empty, no duplicates, on the board, length counted, food off the snake, interval within [50,150] |
| Snake.Tick | example2/script.js:231-290 | one update: the game keeps running exactly when it ran and the head does not land on the snake; the board, pause flag, velocity and time are kept and the high score does not drop; see `TickPreservesInv`, `TickWraps`, `TickCollision`, `TickGrowsOrShifts` and `TickSpeedRamp` |
| Snake.TickPreservesInv | example2/script.js:231-290 | every tick of a running, unpaused game keeps the invariant, provided the food drawn after a meal is on the board and off the grown snake |
| Snake.TickWraps | example2/script.js:240-258 | the crossing counter rises by exactly one when the unwrapped step leaves the board, and is unchanged otherwise; without a collision the new head is the wrapped head and is on the board |
| Snake.TickCollision | example2/script.js:261-266 | a head landing on any segment of the pre-move snake, the tail included, ends the game; the snake, its length, the score, the food and the interval are unchanged; the high score becomes the larger of the high score and the score |
| Snake.TickGrowsOrShifts | example2/script.js:269-285 | without a collision: on the food, the snake becomes the new head followed by the old snake, 10 more points, one longer, and the food is the new draw; otherwise the new head followed by the old snake without its tail, with the same length, score and food; in both cases the game keeps running and the pause flag, velocity and high score are kept |
| Snake.TickSpeedRamp | example2/script.js:277-281 | the interval changes only on a meal that leaves the score a multiple of 50; it then becomes max(50, interval - 10); it never rises and never drops below 50 |
| Snake.Due | example2/script.js:210-215 | the gate of the game loop: a tick is due only in a running, unpaused game, and never before 50 ms, so the loop's call at time 0 from start and resume never ticks |
| Snake.QuickTurnCollides | example2/script.js:108-138 | a snake [(5,5),(4,5)] moving right that gets ArrowUp then ArrowLeft before a tick ends up moving left, onto its own second segment, and the next tick ends the game, though neither key alone is a reversal |
| Snake.SpaceAfterGameOverCollidesAgain | example2/script.js:94-98 | after a tick that collides, Space restarts the game with the same snake and velocity, and the next tick collides again |
| Snake.HighScoreNeverDecreases | example2/script.js:400-408 | no transition (key, start, pause, reset, game over, tick) lowers the high score |
| Snake.SnakeGame.constructor | example2/script.js:19-44 | the fields are the initial game, which satisfies the invariant |
| Snake.SnakeGame.HandleKeyPress | example2/script.js:93-139 | the new state is `Pressed` of the old one, and the invariant is kept |
| Snake.SnakeGame.StartGame | example2/script.js:144-163 | the new state is `Start` of the old one; its closing call of the game loop at time 0 changes nothing |
| Snake.SnakeGame.TogglePause | example2/script.js:168-178 | the new state is `Toggled` of the old one |
| Snake.SnakeGame.RestartGame | example2/script.js:183-186 | the new state is a start after a reset, with the food the reset drew |
| Snake.SnakeGame.ResetGame | example2/script.js:191-204 | the new state is `Reset` of the old one with the food it drew, and the invariant is kept |
| Snake.SnakeGame.GameLoop | example2/script.js:209-226 | a frame at time `now` runs one tick (recording `now`) exactly when the game is running, unpaused, and at least one interval has passed since the last tick; otherwise nothing changes |
| Snake.SnakeGame.Update | example2/script.js:231-290 | the new state is `Tick` of the old one with the food it drew, and the invariant is kept |
| Snake.SnakeGame.Occupied | example2/script.js:261-266 | the collision scan reports a hit exactly when the cell is a segment of the snake |
| Snake.SnakeGame.StepTo | example2/script.js:269-285 | the new state is `Stepped` of the old one: unshift, then eat or pop; the invariant is kept |
| Snake.SnakeGame.GenerateFood | example2/script.js:374-395 | the food ends on a board cell that is not a segment of the snake |
| Snake.SnakeGame.GameOver | example2/script.js:400-411 | the new state is `Ended` of the old one |
| Sorting.Exchanged | example3/bubble_sort.py:41 | exchanging neighbours j and j + 1 keeps the length and the multiset of elements and touches no other position |
| Sorting.Swap | example3/bubble_sort.py:41 | the array after the parallel assignment is the exchanged sequence |
| Sorting.JoinSorted | example3/bubble_sort.py:44-46 | an ordered prefix before an already placed suffix makes the whole list sorted, which is why the early exit is sound |
| Sorting.SweepStep | example3/bubble_sort.py:37-42 | one comparison, with or without a swap, keeps the pass invariant |
| Sorting.CompareExchange | example3/bubble_sort.py:39-42 | one step of the inner loop keeps the pass invariant |
| Sorting.Sweep | example3/bubble_sort.py:34-42 | one pass keeps the multiset and extends the placed suffix by one; it reports a swap exactly when the range was out of order; a pass without swaps changes nothing |
| Sorting.BubbleSort | example3/bubble_sort.py:12-48 | the result is sorted, a permutation of the input, of the same length; at most n passes run; a sorted input, such as [3,3,3,3], comes back unchanged after a single pass, because equal neighbours are never swapped |
| Sorting.OptimizedBubbleSort | example3/bubble_sort.py:118-144 | the result is a sorted permutation of the input, of the same length; a sorted input comes back unchanged |
| Sorting.BubbleSortVerbose | example3/bubble_sort.py:51-87 | the result is a sorted permutation of the input, of the same length; a sorted input comes back unchanged |
| Sorting.SortedPermutationUnique | example3/bubble_sort.py:173 | two sorted lists with the same elements are equal, so a sorted permutation equals what `sorted` returns |
| Sorting.PassStep | example3/bubble_sort.py:110-112 | one comparison of the recursive variant's pass keeps its invariant |
| Sorting.BubblePass | example3/bubble_sort.py:110-112 | one pass over a[0..n) moves the maximum of that range to index n - 1, keeps the range's multiset and leaves a[n..] alone |
| Sorting.BoundCarries | example3/bubble_sort.py:115 | a permutation keeps an upper bound, so the recursive call cannot lift anything above the placed maximum |
| Sorting.SortedAfterPass | example3/bubble_sort.py:110-115 | a pass followed by sorting the shorter prefix sorts a[0..n) with the same elements |
| Sorting.SortPrefix | example3/bubble_sort.py:90-115 | for 1 ≤ n ≤ length, a[0..n) ends sorted with the same elements and a[n..] is untouched |
| Sorting.BubbleSortRecursive | example3/bubble_sort.py:90-115 | a non-empty list sorts to a sorted permutation of the same length |
| Sorting.AllVariantsAgree | example3/bubble_sort.py:12-144 | for every non-empty list, the plain, optimized, verbose and recursive sorts return one and the same sorted permutation of it |
| Sorting.CompareImplementations | example3/bubble_sort.py:187-206 | on the comparison's list, the plain, optimized and recursive sorts return one and the same sorted permutation |

## Left out

- The canvas and DOM code is not part of this model: drawing, the grid, the debug text, the overlay, the score displays, the button labels and the event wiring.
- localStorage is not part of this model. The stored high score is the constructor's integer parameter `storedHighScore`; the source may read it back as a string. The write in `gameOver` is not modelled.
- `requestAnimationFrame` scheduling is left out. `GameLoop(now)` models one frame callback, with the timestamp in whole milliseconds and the gate `now - lastRenderTime >= gameSpeed`.
- The floating-point division by 1000 in the gate is dropped, because it does not change the comparison.
- `Date.now`, `lastBoundaryCrossTime`, `console` logging and the `try`/`catch` wrappers are left out. Nothing in the model throws.
- `Math.random` in `generateFood` becomes a nondeterministic choice of a board cell that was not already rejected. This keeps the set of possible outcomes, but not their distribution.
- Snake.SnakeGame.GenerateFood: requires a free board cell. The source loops forever without one.
- Snake.SnakeGame.Update: requires `CanPlaceFood`, meaning that when it eats, the grown snake leaves a free cell. That is the food search's own precondition; `RoomForFood` shows it holds whenever the snake fills less than the board minus one cell.
- Snake.SnakeGame.Update: the collision scan and the unshift-and-eat-or-pop tail are written as their own methods, `Occupied` and `StepTo`. The wrap is written inline, as in the source.
- Snake.SnakeGame.constructor: the board size is a parameter larger than 15, so that the fixed start cell (10,10) and first food (15,15) are on the board. The source derives it from the canvas width.
- Snake.SnakeGame.GameOver: requires the game not to be paused. Its only caller, `update`, runs only on an unpaused game.
- Sorting.BubbleSortRecursive: requires a non-empty list. For [] the source starts the recursion at n = 0, never reaches its base case n == 1, and recurses until the interpreter's recursion limit.
- Sorting.BubbleSortRecursive: the interpreter's recursion depth is not modelled. The source makes one nested call per element, so a list longer than about 1000 elements (Python's default recursion limit) raises RecursionError there, while the model sorts it.
- Sorting.BubbleSortVerbose: the printed trace is not modelled. What remains is the same algorithm as `bubble_sort`.
- Sorting.OptimizedBubbleSort: its text is the same as `bubble_sort`, so it is modelled by calling `BubbleSort`.
- The elements are integers. The float test case is left out, and so is Python's comparison of mixed types.
- The docstring's concrete example output and the test driver's printing are left out. Their content is covered by `BubbleSort` and `SortedPermutationUnique`.
- example1 (the stock comparison script) is not part of this model. It is network I/O, data-frame and plotting code, and floating-point arithmetic.
