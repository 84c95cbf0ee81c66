# Space Invaders game logic in Dafny

This project models the integer game logic of the pygame shooter `game.py`, leaving out the pygame calls around it:

- **Player.** The player moves left and right along a fixed row and is clamped to the screen.
- **Bullets.** Space fires a bullet while fewer than five are live and the game is not paused.
- **Enemies.** Enemies spawn in a band near the top, at most ten at a time, and descend. The first one that reaches the player ends the game.
- **Hits.** Each bullet that overlaps an enemy removes both and scores 20.
- **High score.** The high score is raised and written to a file whenever the score beats it. It is written as `str(n)` and read back as `int(text.strip())`.

The modules follow the program's pieces:

- `ListOps`: Python's `list.remove` on sequences. It removes the first value-equal element, and `None` stands for the `ValueError` of an absent value.
- `Collision`: `is_collision`, the strict bounding-box test.
- `World`: the constants, the bullet muzzle, the bounds clamp and the enemy spawn.
- `ScoreText`: the high-score text format.
  - `Encode` is `str(n)`.
  - `Strip` is `str.strip()` with Python's whitespace set.
  - `Decode` is `int()` on the stripped text: an optional sign, then digits with single underscores between them.
  - `LoadHighScore` reads a missing file as 0.
- `Enemies`: the enemy loop.
  - `EnemyPass` states it declaratively: enemies up to the first hit move down, those below the screen go, and later ones are untouched.
  - `AdvanceEnemies` is the loop itself, proved equal to `EnemyPass`. It makes the in-place move at the count of visited enemies still live, and removes by value.
- `Bullets`: the bullet loop as Python runs it.
  - The loop walks a copy of the list of bullet objects. A move updates the object in place, and `list.remove` takes the first value-equal entry.
  - `Arena.slots` follows object identity: for each live bullet, the entry of the copy that holds the same object.
  - `BulletPass` is the specification and `SweepBullets` the loop proved equal to it.
  - The enemy removal of a hit can never fail.
  - The second `bullets.remove` of a bullet that overlaps two enemies at once raises, unless another live bullet has equal coordinates. In that case the other bullet's entry is removed instead, and its detached object is still moved and tested later. `StrikeCrashesIff` characterises this exactly.
- `GameState`: the global state as the class `Game`.
  - `HandleEvent` and `DrainEvents` handle events.
  - `Step` is one frame: a paused frame changes nothing, and any other frame is `Advance`.
  - `Advance` copies into the fields the `Snapshot` that `NextState` computes from their values; `Advanced` states what that frame leaves.
  - The class invariant `Valid` (`Steady` on values) covers the player's range and speeds, at most 5 bullets and 10 enemies, everything on screen, and a score that is a non-negative multiple of 20.

Three behaviours of the code that are easy to miss, all modelled as written:

- A bullet overlapping two enemies in one frame is credited twice only when a live bullet equals it once moved. That bullet's entry is then removed in its place (`Bullets.TwinAbsorbsDoubleHit`). Otherwise the second `bullets.remove` raises `ValueError` (`Bullets.DoubleHitCrashes`).
- Only a missing score file reads as 0. Unparsable contents make `int()` raise, which is `LoadHighScore` returning `None`.
- The bullet pass and the high-score update still run in the frame whose enemy pass ended the game. The `break` leaves only the enemy loop.

## Model

| member | source | states |
|---|---|---|
| ListOps.IndexOf | game.py:151 | the index of the first element equal to the value, or -1 exactly when it does not occur |
| ListOps.RemoveFirst | game.py:161-162 | `list.remove`: fails exactly when the value is absent; otherwise one element shorter, with one copy of the value removed from the multiset |
| ListOps.RemoveFirstAfter | game.py:151 | removing `v` from `p + [v] + t`, where `p` does not contain `v`, leaves `p + t` |
| Collision.CollisionSymmetric | game.py:63-66 | swapping the two objects' arguments gives the same answer |
| Collision.TouchingBoxesDoNotCollide | game.py:63-66 | boxes that only share an edge or a corner, horizontally or vertically, do not collide |
| Collision.CollisionIffSharedCell | game.py:63-66 | for positive sizes, the test holds exactly when some unit cell lies inside both boxes |
| World.Muzzle | game.py:59-60 | a new bullet is centred over the player and rests on its top edge, and it is in flight when fired by a player on the screen |
| World.ClampX | game.py:127-131 | the clamped column lies in [0, 750], equals the input when the input is inside that range, and is the nearest column of the range |
| World.Spawn | game.py:133-137 | the list is kept as a prefix and at most one enemy is added, exactly when fewer than 10 are live: the drawn position, inside the spawn band; the count never exceeds 10 and on-screen enemies stay on screen |
| ScoreText.LeadingSpaces | game.py:79 | the count of leading whitespace characters: all of them are whitespace, and the next character is not |
| ScoreText.TrailingStart | game.py:79 | where the trailing whitespace begins: everything after it is whitespace, and the character before it is not |
| ScoreText.Strip | game.py:79 | the result neither starts nor ends with whitespace and is the input with a whitespace prefix and a whitespace suffix removed |
| ScoreText.ParseInt | game.py:79 | `int()` on trimmed text: an accepted numeral ends in a digit, a negative value needs a leading minus, and a plain or minus-signed digit string is read as its value |
| ScoreText.Decode | game.py:79 | `int(text.strip())` rejects blank text and reads a bare digit string as its value |
| ScoreText.LoadHighScore | game.py:76-81 | a missing file gives 0, a blank file raises, and a file holding a digit string gives its value |
| ScoreText.Encode | game.py:86 | `str(n)` is a non-empty string of decimal digits without a leading zero unless `n` is 0 |
| ScoreText.ValueOfEncode | game.py:86 | the digits `str(n)` writes denote `n` |
| ScoreText.DecodeEncode | game.py:79 | `int(str(n).strip())` is `n` |
| ScoreText.DecodePadded | game.py:79 | whitespace written around the numeral, such as a trailing newline, does not change the value read |
| ScoreText.SaveThenLoad | game.py:76-86 | loading what `save_high_score(n)` wrote gives `n` back |
| Enemies.FirstHit | game.py:140-147 | the index of the first enemy that overlaps the player once moved: no earlier one does, and the one at the index does |
| Enemies.Descend | game.py:149-151 | the moved enemies kept are at most as many as the input, and none is below the screen |
| Enemies.EnemyPass | game.py:139-151 | the player is hit exactly when some moved enemy overlaps it, and the pass never adds an enemy |
| Enemies.DescendMovesDown | game.py:140-151 | without a hit, an enemy is kept exactly when it is an input enemy moved down by 2 that is not below the screen |
| Enemies.EnemyPassOnScreen | game.py:139-151 | enemies the pass keeps stay on the screen: moved ones that left it are gone, and the one that reaches the player is above the screen's bottom |
| Enemies.VisitMoves | game.py:141 | the in-place move updates the live entry of the visited enemy, which follows the enemies already visited |
| Enemies.VisitHits | game.py:144-147 | a visited enemy that overlaps the player is the first hit, and the live list at that point is the pass's result |
| Enemies.VisitCulls | game.py:150-151 | removal by value of an enemy below the screen removes the visited enemy's own entry; the count of visited enemies still live grows by one exactly when the enemy stays |
| Enemies.PassWithoutHit | game.py:140-151 | a loop that visits every enemy without a hit leaves every enemy moved, minus those below the screen |
| Enemies.AdvanceEnemies | game.py:140-151 | the enemy loop computes exactly `EnemyPass`: the new list and whether the player was hit |
| Bullets.DropBullet | game.py:161 | `bullets.remove(b)` fails exactly when no live bullet equals `b`; otherwise one copy of `b` goes and the enemies and score are untouched |
| Bullets.Strike | game.py:158-163 | the inner loop of one bullet's turn keeps the live lists aligned with their slots, adds no bullet or enemy, and adds 20 to the score for each enemy it removes |
| Bullets.Moved | game.py:155 | the move changes only the live bullets: their slots, the enemies and the score stay as they were |
| Bullets.Spared | game.py:158-162 | an enemy is left by a bullet exactly when it is an enemy of the copy that the bullet does not overlap |
| Bullets.Visit | game.py:154-167 | one bullet's turn (move, inner loop, cull) adds no bullet or enemy and adds 20 to the score for each enemy it removes |
| Bullets.Sweep | game.py:154-167 | the bullet loop from any entry of the copy on adds no bullet or enemy and adds 20 to the score for each enemy it removes |
| Bullets.BulletPass | game.py:153-167 | the whole bullet pass leaves no more bullets or enemies than it was given, and raises the score by 20 per enemy removed |
| Bullets.BulletPassSound | game.py:153-167 | the enemy removal never raises; surviving bullets are old ones, in order, each moved up by 7 and on screen, and none overlaps a surviving enemy; enemies only go, each for 20 points |
| Bullets.BulletPassSpares | game.py:158-163 | an enemy that no moved bullet overlaps keeps every copy it had in the enemy list |
| Bullets.BulletPassMisses | game.py:154-167 | when no moved bullet overlaps any enemy, the pass does not raise, keeps the enemies and the score, and leaves exactly the moved bullets still on the screen, in order |
| Bullets.BulletPassInFlight | game.py:154-167 | surviving bullets are no more than before and stay in flight |
| Bullets.BulletPassEnemies | game.py:158-163 | the enemies left after the bullet pass are enemies it was given, and no more of them |
| Bullets.BulletPassScore | game.py:158-163 | the bullet pass never lowers the score and keeps it a multiple of 20 |
| Bullets.StrikeCrashesIff | game.py:158-163 | the inner loop of a bullet's turn raises exactly when it overlaps more enemies than there are live bullets equal to it; otherwise each overlap removes one such bullet and one enemy and adds 20 |
| Bullets.SingleHitScores | game.py:154-163 | a bullet at (100, 72) against an enemy at (100, 60) removes both and scores 20 |
| Bullets.DoubleHitCrashes | game.py:161 | a lone bullet overlapping two enemies in one frame raises `ValueError` at its second removal |
| Bullets.TwinAbsorbsDoubleHit | game.py:161 | the same double hit, with a value-equal unvisited bullet live, removes both bullets and both enemies for 40 points |
| Bullets.TwinFirstVisit | game.py:154-163 | the first bullet's turn in that scenario destroys both enemies and empties the bullet list |
| Bullets.TwinFirstHit | game.py:161-163 | its first overlap removes its own entry and the first enemy |
| Bullets.TwinSecondHit | game.py:161-163 | its second overlap removes the unvisited twin's entry and the second enemy |
| Bullets.TwinSecondVisit | game.py:154-167 | the detached twin is still moved and tested on its turn, and changes nothing |
| Bullets.StrikeEnemies | game.py:158-163 | the inner loop computes exactly `Strike` over a copy of the live enemies, including its faults |
| Bullets.SweepBullets | game.py:154-167 | the bullet loop computes exactly `BulletPass`, including which `list.remove` raised |
| GameState.RunFrame | game.py:124-167 | an unpaused frame leaves the player in [0, 750] |
| GameState.FrameKeepsSteady | game.py:124-167 | an unpaused frame never meets a failing enemy removal, and without a fault it keeps the invariant and does not lower the score |
| GameState.PlayFrame | game.py:124-167 | clamp, spawn, enemy loop and bullet loop compute exactly `RunFrame`, and a fault-free frame keeps the invariant |
| GameState.RecordBest | game.py:170-172 | the high score becomes the larger of itself and the score; the score is saved exactly when it beats the old high score, as text that loads back as the score |
| GameState.NextState | game.py:124-172 | a whole unpaused frame on the fields' values leaves the state `Advanced` describes from `RunFrame`; a fault-free frame keeps the invariant and lowers neither score |
| GameState.Game.constructor | game.py:41-48 | the start state: player at (375, 500) and at rest, no enemies or bullets, score 0, the loaded high score, running |
| GameState.Game.ShootBullet | game.py:59-60 | appends exactly one bullet at the muzzle and changes nothing else |
| GameState.Game.HandleEvent | game.py:94-115 | quit is reported and changes nothing. Left/right key-down set the speed to -5/+5, even while paused. A left/right key-up sets it to 0. Space appends a muzzle bullet exactly when fewer than 5 are live and the game runs. P toggles the pause. The invariant is kept |
| GameState.Game.DrainEvents | game.py:94-115 | quit is reported exactly when a Quit event arrives; the events change neither the player's position, the enemies nor the scores, only append bullets, and keep the invariant |
| GameState.Game.Step | game.py:118-172 | a paused frame leaves the state unchanged; any other frame is `Advance`; the enemy removal never fails, and a fault-free frame keeps the invariant and never lowers the score or the high score |
| GameState.Game.Advance | game.py:124-172 | the new player column, `gameOver`, lists and score are those of `RunFrame`; a bullet-pass fault is reported; otherwise the high score becomes the larger of the old high score and the score, and the file text `str(score)` is produced exactly when it rose |

## Left out

- Rendering: sprites, text, the pause and game-over banners, and display flips (game.py:51-56, 69-73, 119-121, 174-191, 197-199). These are calls into pygame.
- Sound: `shoot_sound.play`, `explosion_sound.play` and `pygame.mixer.pause` (game.py:107, 111, 145, 160).
- Timing: the 60-frame cap and the 3-second wait (game.py:194, 202). The outer `while not game_over` loop is not modelled. The caller is expected to call `DrainEvents` then `Step` while `gameOver` is false.
- Randomness: the two `random.randint` draws of a spawn (game.py:135-136) are the parameters `sx` and `sy` of `Step`, with their ranges as preconditions.
- Files: opening, reading and writing `high_score.txt` (game.py:78, 85-86). `LoadHighScore` takes the file's text, or `None` for a missing file. `Advance` returns the text it would write.
- Process exit: `pygame.quit()` and `sys.exit()` on a window close (game.py:95-97, 205). `HandleEvent` and `DrainEvents` report it as `quit`.
- Window and asset setup (game.py:24-38).
- ScoreText.Decode: accepts only ASCII digits. Python's `int()` also accepts other Unicode decimal digits, and it refuses numerals longer than 4300 digits. Neither difference matters for text written by `Encode`.
- Bullets.SweepBullets: on a fault it does not specify the lists or the score it returns. `GameState.NextState` and `GameState.Game.Advance` do not specify the bullets, enemies, score or high score after a fault either. The `ValueError` ends the program, so that state is never used.
- GameState.Game.DrainEvents: it states what a frame's events cannot change, and that bullets are only appended. It does not state the final speed or pause flag after a sequence of events; `HandleEvent` states those one event at a time. Nor does it state that the events after the first Quit go unhandled, though the loop returns at that event.
