# Lap timer of the box2d workshop game

The workshop game drives a triangular vehicle around a walled track. Its one
piece of logic is the lap timer inside `Game`. Leaving the goal sensor
finishes the running lap, if any, and starts the next one. A finished lap
goes onto a board of the five best laps, ranked by score. Touching a wall
adds a penalty to the current lap, at most one per second. Resetting the
vehicle abandons the running lap. Key events are stored in a per-key array
that the input handling reads.

The model has two modules:

- `Leaderboard` (leaderboard.dfy) holds the value types.
  - `Lap` is a lap time in milliseconds plus a penalty count.
  - `Score` and `Before` give the ranking the game sorts by.
  - `Insert` and `Record` give the board after a finished lap is pushed, sorted and trimmed.
  - The lemmas say what `Record` promises: the board stays sorted with at most five laps, and it keeps the best laps.
- `WorkshopGame` (game.dfy) holds the class `Game`. Its fields are the C++ members:
  - `running` is `m_lapTimerStarted`.
  - `lapStart` is `m_lapTimer`.
  - `lastPenalty` is `m_lastPenalty`.
  - `currentLap` is `m_currentLap`.
  - `laps` is `m_laps`.
  - `keyPressed` is `m_keyPressed`.

  Its methods update these fields in place, as the C++ methods do. Bodies of
  the physics world are objects compared by identity, like the `b2Body*`
  pointers. The steady clock becomes an explicit argument `now` in
  milliseconds. Each event method requires that `now` is no earlier than any
  instant the game has stored, because the steady clock is monotonic.
  `LapScenario` is a client run:
  - leave the goal at 10000 ms;
  - hit a wall at 10000, 10900 and 11200 ms (the 10900 hit falls inside the one-second window);
  - leave the goal at 15000 ms.

  The board then holds the one lap `Lap(5000, 2)`, with score 7000.

The header that declares `Lap` is not part of this model. Its uses in
game.cpp (lines 140, 227, 242, 246) show a lap time, a penalty count and an
`operator<` used by `std::sort`. The model assumes that `operator<` compares
`lapTime_ms + 1000 * penalties`. That assumption lives only in
`Leaderboard.Score` and `Leaderboard.Before`.

Some behaviours of the code are worth stating plainly, and the model keeps them:
- A wall contact adds a penalty whether or not a lap is running. `collisionCallback` never tests `m_lapTimerStarted` (workshop-game/game.cpp:218-229).
- The board is ordered with `std::sort`, which is not stable (workshop-game/game.cpp:246). See "## Left out" for how the model orders ties.
- `m_lastPenalty` is default-constructed, so it starts at the clock epoch. A wall contact within the first second after the epoch earns no penalty.
- `resetTriangle` stops the timer (workshop-game/game.cpp:132). So the next goal exit only starts a lap and records nothing (workshop-game/game.cpp:239).

## Model

| member | source | states |
|---|---|---|
| Leaderboard.Insert | workshop-game/game.cpp:244-246 | pushing a lap and sorting gives one more lap than before, and exactly the old laps plus the pushed one (a permutation) |
| Leaderboard.InsertKeepsSorted | workshop-game/game.cpp:246 | if the board was sorted before the push, it is sorted by score after the sort |
| Leaderboard.RecordKeepsBoard | workshop-game/game.cpp:244-249 | finishing a lap keeps the board sorted and at most 5 long; afterwards it holds min(5, old length + 1) laps |
| Leaderboard.RecordKeepsBest | workshop-game/game.cpp:244-249 | the new board is drawn from the old board plus the finished lap, and no lap left out ranks better than a lap kept |
| Leaderboard.RecordAdmission | workshop-game/game.cpp:244-249 | with room on the board, the finished lap is added and nothing is lost; on a full board that ends with a worse lap, the finished lap replaces that last lap; otherwise the board is unchanged |
| Leaderboard.RecordRejectsWorseThanAll | workshop-game/game.cpp:246-249 | on a full board, a lap that ranks worse than every entry leaves the board unchanged |
| WorkshopGame.Game.IsGoal | workshop-game/game.cpp:234-236 | a contact is a goal contact exactly when the unordered pair of its bodies is {triangle, goal}; so the test is symmetric |
| WorkshopGame.Game.KeyCallback | workshop-game/game.cpp:208-210 | the slot of the key becomes "action is not RELEASE", every other slot keeps its value, and every named GLFW key code has a slot |
| WorkshopGame.Game.ResetTriangle | workshop-game/game.cpp:132-133 | the timer stops and the current lap becomes a fresh lap; the board, lap start and last-penalty instant are untouched |
| WorkshopGame.Game.RestartLapTimer | workshop-game/game.cpp:238-256 | the timer ends running with lap start `now`; if a lap was running, the board becomes `Record` of the old board and that lap timed at `now - lapStart`, and the current lap becomes fresh; otherwise the board and current lap are unchanged; the board invariant is kept |
| WorkshopGame.Game.SortPushedLap | workshop-game/game.cpp:244-246 | the board after the sort is `Insert` of the laps before the push and the pushed lap, sorted whenever the board before the push was sorted |
| WorkshopGame.Game.CollisionCallback | workshop-game/game.cpp:212-232 | a goal contact ending restarts the lap timer as above; a goal contact beginning and any other contact ending change nothing; any other contact beginning adds exactly one penalty and sets the last-penalty instant to `now` iff more than 1000 ms passed since the last penalty, else changes nothing, whether or not a lap is running |
| WorkshopGame.Game.constructor | workshop-game/game.hpp:50-54 | a new game has no lap running, an empty board, the clock epoch as last-penalty instant and no key pressed |
| WorkshopGame.DeclaredKeyArrayOverrun | workshop-game/game.hpp:54 | GLFW delivers key codes (GLFW_KEY_MENU, GLFW_KEY_UNKNOWN) that lie outside the key array as declared |

## Left out

- Scene construction (`createTrack`, `createTriangle`, `createGoal`) and the physics half of `resetTriangle` are not modelled. They are fixed float geometry handed to the physics engine.
- `update` and `usingJoystick` are not modelled. They map joystick axes and keys to float torque and thrust through the physics engine. Their one link to the timer is the reset trigger, which calls what `WorkshopGame.Game.ResetTriangle` models.
- `imGuiUpdate` is not modelled. It only displays the board, the running lap time and the penalty count.
- The `ContactListener` forwarding and `Game::init` are not modelled. Contact events are calls to `CollisionCallback`.
- workshop-game/main.cpp is not modelled. It covers window, GL and GUI setup, the render loop, float frame pacing and the global game pointer.
- `m_toDelete` and `m_lapTimes` are declared but unused.
- The clock is an argument in whole milliseconds. The truncation of finer steady-clock durations by `duration_cast` is not modelled.
- `collisionCallback` reads the clock twice (workshop-game/game.cpp:223, 226), and so does `restartLapTimer` (workshop-game/game.cpp:240, 254). `restartLapTimer` times the finished lap with one reading and starts the new lap with the other. The model takes both readings of each method as the same instant `now`.
- Lap times, penalty counts and scores are unbounded naturals. The header that declares the field widths is not part of this model, and the model assumes nothing overflows. With 32-bit `int` fields, one lap time would wrap after 2^31 ms (about 24.8 days). A score computed in `int` would wrap after about 2.1 million penalties.
- WorkshopGame.Game.SortPushedLap: `std::sort` is modelled by one insertion pass of the pushed lap. That pass gives the same order as a full sort because the board is sorted before the push. Laps with equal scores keep their order here, while `std::sort` leaves their order unspecified. So on a full board, a finished lap whose score equals the last entry's is dropped in the model, but the C++ might drop the other lap.
- WorkshopGame.Game.KeyCallback: models the corrected key array (see Findings). Key codes outside the array are ignored. As written, they write outside the array.
- The GLFW key and action codes come from GLFW 3.3's documented key table. glfw3.h is not part of this model.

## Findings

| source | as written | input that shows it | evidently intended | confidence | as-written member | corrected member |
|---|---|---|---|---|---|---|
| workshop-game/game.hpp:54 | the key array has GLFW_KEY_LAST slots (codes 0..347), and `keyCallback` (game.cpp:209) writes `m_keyPressed[key]` without a bounds check | GLFW_KEY_MENU (348 == GLFW_KEY_LAST), or GLFW_KEY_UNKNOWN (-1) for an unmapped key, forwarded by main.cpp:31 | GLFW_KEY_LAST + 1 slots, and unknown key codes ignored | medium, not executed | WorkshopGame.DeclaredKeyArrayOverrun | WorkshopGame.Game.KeyCallback |
