/** The fixed dimensions, speeds and limits of the game (game.py:9-18, 41-42,
    106, 134-136, 163) and the pure geometry built on them. */
module World {

  const SCREEN_WIDTH := 800
  const SCREEN_HEIGHT := 600
  const PLAYER_SIZE := 50
  const ENEMY_SIZE := 50
  const BULLET_SIZE := 10
  const PLAYER_SPEED := 5
  const ENEMY_SPEED := 2
  const BULLET_SPEED := 7

  /** Fire is refused while this many bullets are live. */
  const MAX_BULLETS := 5
  /** No enemy spawns while this many enemies are live. */
  const MAX_ENEMIES := 10
  /** Score for each enemy a bullet destroys. */
  const KILL_SCORE := 20
  /** The band of rows an enemy spawns in. */
  const SPAWN_Y_MIN := 50
  const SPAWN_Y_MAX := 200

  /** Rightmost column the player may occupy. */
  const PLAYER_MAX_X := SCREEN_WIDTH - PLAYER_SIZE
  /** Rightmost column an enemy may spawn at. */
  const ENEMY_MAX_X := SCREEN_WIDTH - ENEMY_SIZE
  const PLAYER_START_X := SCREEN_WIDTH / 2 - PLAYER_SIZE / 2
  const PLAYER_Y := SCREEN_HEIGHT - 2 * PLAYER_SIZE
  /** The columns a bullet can be fired from. */
  const BULLET_MIN_X := PLAYER_SIZE / 2 - BULLET_SIZE / 2
  const BULLET_MAX_X := PLAYER_MAX_X + BULLET_MIN_X

  /** The `{'x': …, 'y': …}` record of an enemy or a bullet: its top-left corner. */
  datatype Pos = Pos(x: int, y: int)

  /** Where `shoot_bullet(x, y)` places a new bullet: centred over the player
      and resting on its top edge. */
  function Muzzle(x: int, y: int): (b: Pos)
    ensures 2 * b.x + BULLET_SIZE == 2 * x + PLAYER_SIZE
    ensures b.y + BULLET_SIZE == y
    ensures 0 <= x <= PLAYER_MAX_X && y == PLAYER_Y ==> InFlight(b)
  {
    Pos(x + PLAYER_SIZE / 2 - BULLET_SIZE / 2, y - BULLET_SIZE)
  }

  /** Where a live enemy can be: in a column it may spawn at, between the top
      of the spawn band and the bottom of the screen. */
  predicate OnScreen(e: Pos)
  {
    0 <= e.x <= ENEMY_MAX_X && SPAWN_Y_MIN <= e.y <= SCREEN_HEIGHT
  }

  /** Where a live bullet can be: in a column the muzzle reaches, between the
      top of the screen and the muzzle. */
  predicate InFlight(b: Pos)
  {
    BULLET_MIN_X <= b.x <= BULLET_MAX_X && 0 <= b.y <= PLAYER_Y - BULLET_SIZE
  }

  function Distance(a: int, b: int): nat
  {
    if a < b then b - a else a - b
  }

  /** The player's column after the bounds check: the column of
      [0, PLAYER_MAX_X] nearest to `x`. */
  function ClampX(x: int): (r: int)
    ensures 0 <= r <= PLAYER_MAX_X
    ensures 0 <= x <= PLAYER_MAX_X ==> r == x
    ensures forall z :: 0 <= z <= PLAYER_MAX_X ==> Distance(r, x) <= Distance(z, x)
  {
    if x < 0 then 0
    else if x > PLAYER_MAX_X then PLAYER_MAX_X
    else x
  }

  /** The enemy list after the spawn step, given the two values drawn by
      `random.randint`: the list is kept as a prefix and at most one enemy is
      added, exactly when fewer than MAX_ENEMIES are live: the drawn position,
      inside the spawn area. */
  function Spawn(es: seq<Pos>, sx: int, sy: int): (r: seq<Pos>)
    requires 0 <= sx <= ENEMY_MAX_X && SPAWN_Y_MIN <= sy <= SPAWN_Y_MAX
    ensures |es| <= |r| <= |es| + 1 && r[..|es|] == es
    ensures |r| > |es| <==> |es| < MAX_ENEMIES
    ensures |es| <= MAX_ENEMIES ==> |r| <= MAX_ENEMIES
    ensures |r| > |es| ==> r[|es|] == Pos(sx, sy)
    ensures forall k :: |es| <= k < |r| ==>
              0 <= r[k].x <= ENEMY_MAX_X && SPAWN_Y_MIN <= r[k].y <= SPAWN_Y_MAX
    ensures (forall e :: e in es ==> OnScreen(e)) ==> forall e :: e in r ==> OnScreen(e)
  {
    if |es| < MAX_ENEMIES then es + [Pos(sx, sy)] else es
  }
}
