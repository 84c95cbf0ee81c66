/** The game state of game.py (lines 41-48, 89) as one object, and the two
    pieces of its main loop that change it: event handling (lines 94-115)
    and the frame update (lines 118-172). */
module GameState {
  import opened ListOps
  import opened World
  import opened Enemies
  import opened Bullets
  import opened ScoreText

  /** The keys the game reacts to; every other key is `OtherKey`. */
  datatype Key = Left | Right | Space | PauseKey | OtherKey

  /** A pygame event as the loop sees it. */
  datatype Event = Quit | KeyDown(key: Key) | KeyUp(key: Key) | OtherEvent

  /** What holds between frames: the player is on the screen at its fixed
      row and moves at one of three speeds, at most MAX_BULLETS bullets and
      MAX_ENEMIES enemies are live, all of them on the screen, and the score
      is a non-negative multiple of KILL_SCORE. The high score is not
      constrained: it starts as whatever the score file holds. */
  predicate Steady(px: int, py: int, vx: int, bullets: seq<Pos>, enemies: seq<Pos>, score: int)
  {
    && 0 <= px <= PLAYER_MAX_X && py == PLAYER_Y
    && (vx == -PLAYER_SPEED || vx == 0 || vx == PLAYER_SPEED)
    && |bullets| <= MAX_BULLETS && |enemies| <= MAX_ENEMIES
    && (forall b :: b in bullets ==> InFlight(b))
    && (forall e :: e in enemies ==> OnScreen(e))
    && score >= 0 && score % KILL_SCORE == 0
  }

  /** The player's column, the enemies and the score after an unpaused
      frame, when its bullet pass does not raise. */
  datatype Frame = Frame(px: int, hit: bool, outcome: Outcome)

  /** An unpaused frame on the state `(px, py, vx, bullets, enemies,
      score)`, with `(sx, sy)` the spawn position drawn. */
  function RunFrame(px: int, py: int, vx: int, bullets: seq<Pos>, enemies: seq<Pos>, score: int, sx: int, sy: int): (f: Frame)
    requires 0 <= sx <= ENEMY_MAX_X && SPAWN_Y_MIN <= sy <= SPAWN_Y_MAX
    ensures 0 <= f.px <= PLAYER_MAX_X
  {
    var x := ClampX(px + vx);
    var d := EnemyPass(Spawn(enemies, sx, sy), x, py);
    Frame(x, d.hit, BulletPass(bullets, d.enemies, score))
  }

  /** An unpaused frame keeps the invariant and never lowers the score, and
      its enemy removals never raise: the only `ValueError` it can meet is a
      bullet removed twice. */
  lemma FrameKeepsSteady(px: int, py: int, vx: int, bullets: seq<Pos>, enemies: seq<Pos>, score: int, sx: int, sy: int)
    requires Steady(px, py, vx, bullets, enemies, score)
    requires 0 <= sx <= ENEMY_MAX_X && SPAWN_Y_MIN <= sy <= SPAWN_Y_MAX
    ensures var f := RunFrame(px, py, vx, bullets, enemies, score, sx, sy);
            && f.outcome != Crash(EnemyMissing)
            && (f.outcome.Done? ==>
                  var a := f.outcome.arena;
                  Steady(f.px, py, vx, a.bullets, a.enemies, a.score) && a.score >= score)
  {
    var x := ClampX(px + vx);
    var spawned := Spawn(enemies, sx, sy);
    EnemyPassOnScreen(spawned, x);
    var d := EnemyPass(spawned, x, py);
    assert |d.enemies| <= MAX_ENEMIES;
    BulletPassSound(bullets, d.enemies, score);
    BulletPassInFlight(bullets, d.enemies, score);
    BulletPassEnemies(bullets, d.enemies, score);
    BulletPassScore(bullets, d.enemies, score);
  }

  /** The moves and passes of an unpaused frame on values: the player
      moves and is clamped to the screen, an enemy spawns at `(sx, sy)`
      while fewer than MAX_ENEMIES are live, the enemy loop decides `hit`,
      and the bullet loop runs whatever it decided. The results are those
      of `RunFrame`, and without a fault the invariant holds of the new
      state and the score has not dropped. */
  method PlayFrame(px: int, py: int, vx: int, bullets: seq<Pos>, enemies: seq<Pos>, score: int, sx: int, sy: int)
    returns (x: int, hit: bool, fault: Option<Fault>, live: seq<Pos>, foes: seq<Pos>, tally: int)
    requires Steady(px, py, vx, bullets, enemies, score)
    requires 0 <= sx <= ENEMY_MAX_X && SPAWN_Y_MIN <= sy <= SPAWN_Y_MAX
    ensures var f := RunFrame(px, py, vx, bullets, enemies, score, sx, sy);
            && x == f.px && hit == f.hit
            && (fault.None? <==> f.outcome.Done?)
            && (f.outcome.Crash? ==> fault == Some(f.outcome.fault))
            && (f.outcome.Done? ==> live == f.outcome.arena.bullets && foes == f.outcome.arena.enemies && tally == f.outcome.arena.score)
    ensures fault != Some(EnemyMissing)
    ensures fault == None ==> Steady(x, py, vx, live, foes, tally) && tally >= score
  {
    FrameKeepsSteady(px, py, vx, bullets, enemies, score, sx, sy);
    x := px + vx;
    if x < 0 {
      x := 0;
    } else if x > SCREEN_WIDTH - PLAYER_SIZE {
      x := SCREEN_WIDTH - PLAYER_SIZE;
    }
    var spawned := enemies;
    if |spawned| < 10 {
      spawned := spawned + [Pos(sx, sy)];
    }
    var kept;
    kept, hit := AdvanceEnemies(spawned, x, py);
    fault, live, foes, tally := SweepBullets(bullets, kept, score);
  }

  /** A whole unpaused frame on the values of the game's fields: the moves
      and passes of `PlayFrame`, then the high-score update. The new state
      is the one `Advanced` describes, and without a fault the invariant
      holds of it and neither score has dropped. */
  method NextState(s: Snapshot, sx: int, sy: int) returns (t: Snapshot, fault: Option<Fault>, saved: Option<string>)
    requires Steady(s.playerX, s.playerY, s.speedX, s.bullets, s.enemies, s.score) && !s.paused && !s.gameOver
    requires 0 <= sx <= ENEMY_MAX_X && SPAWN_Y_MIN <= sy <= SPAWN_Y_MAX
    ensures Advanced(s, t, sx, sy, fault, saved)
    ensures fault != Some(EnemyMissing)
    ensures fault == None ==>
              && Steady(t.playerX, t.playerY, t.speedX, t.bullets, t.enemies, t.score)
              && t.score >= s.score && t.highScore >= s.highScore
  {
    var x, hit, live, foes, tally;
    x, hit, fault, live, foes, tally := PlayFrame(s.playerX, s.playerY, s.speedX, s.bullets, s.enemies, s.score, sx, sy);
    t := s.(playerX := x, gameOver := s.gameOver || hit);
    saved := None;
    if fault.None? {
      var best;
      best, saved := RecordBest(tally, s.highScore);
      t := t.(bullets := live, enemies := foes, score := tally, highScore := best);
    }
  }

  /** The high-score update at the end of a frame: the high score becomes
      the larger of itself and the score, and the score is saved, as text
      that loads back as the score, exactly when it beats the old high
      score. */
  method RecordBest(score: int, hi: int) returns (best: int, saved: Option<string>)
    requires score >= 0
    ensures best >= score && best >= hi && (best == score || best == hi)
    ensures saved.Some? <==> score > hi
    ensures saved.Some? ==> saved.value == Encode(score) && LoadHighScore(saved) == Some(score)
  {
    best, saved := hi, None;
    if score > hi {
      best := score;
      saved := Some(Encode(score));
      SaveThenLoad(score);
    }
  }

  /** The values of a game's fields at one moment. */
  datatype Snapshot = Snapshot(playerX: int, playerY: int, speedX: int, enemies: seq<Pos>, bullets: seq<Pos>,
                               score: int, highScore: int, paused: bool, gameOver: bool)

  /** What an unpaused frame leaves in `t`, from the state `s` before it:
      the player column and `gameOver` are those of `RunFrame`; its fault
      is the bullet pass's; without a fault the lists and the score are
      those the pass left, the high score is the larger of the old high
      score and the score, and `saved` is the text written to the score
      file, present exactly when the high score rose. */
  predicate Advanced(s: Snapshot, t: Snapshot, sx: int, sy: int, fault: Option<Fault>, saved: Option<string>)
    requires 0 <= sx <= ENEMY_MAX_X && SPAWN_Y_MIN <= sy <= SPAWN_Y_MAX
  {
    var f := RunFrame(s.playerX, s.playerY, s.speedX, s.bullets, s.enemies, s.score, sx, sy);
    && t.playerX == f.px && t.playerY == s.playerY && t.speedX == s.speedX
    && t.gameOver == f.hit && !t.paused
    && (fault.None? <==> f.outcome.Done?)
    && (f.outcome.Crash? ==> fault == Some(f.outcome.fault) && saved == None)
    && (f.outcome.Done? ==>
          && t.bullets == f.outcome.arena.bullets && t.enemies == f.outcome.arena.enemies
          && t.score == f.outcome.arena.score
          && t.highScore == (if t.score > s.highScore then t.score else s.highScore)
          && (saved.Some? <==> t.score > s.highScore)
          && (saved.Some? ==> t.score >= 0 && saved.value == Encode(t.score)))
  }

  class Game {
    var playerX: int
    var playerY: int
    var speedX: int
    var enemies: seq<Pos>
    var bullets: seq<Pos>
    var score: int
    var highScore: int
    var paused: bool
    var gameOver: bool

    /** The current values of the fields. */
    ghost function Snap(): Snapshot
      reads this
    {
      Snapshot(playerX, playerY, speedX, enemies, bullets, score, highScore, paused, gameOver)
    }

    /** The invariant of the game state between frames; see `Steady`. */
    ghost predicate Valid()
      reads this
    {
      Steady(playerX, playerY, speedX, bullets, enemies, score)
    }

    /** The state at start-up, with `best` the value `load_high_score`
        returned. */
    constructor (best: int)
      ensures Valid()
      ensures playerX == PLAYER_START_X && playerY == PLAYER_Y && speedX == 0
      ensures enemies == [] && bullets == [] && score == 0 && highScore == best
      ensures !paused && !gameOver
    {
      playerX := SCREEN_WIDTH / 2 - PLAYER_SIZE / 2;
      playerY := SCREEN_HEIGHT - 2 * PLAYER_SIZE;
      speedX := 0;
      enemies := [];
      bullets := [];
      score := 0;
      highScore := best;
      paused := false;
      gameOver := false;
    }

    /** `shoot_bullet(x, y)`: one bullet more, at the muzzle of a player at
        `(x, y)`, and nothing else changes. */
    method ShootBullet(x: int, y: int)
      modifies this
      ensures bullets == old(bullets) + [Muzzle(x, y)]
      ensures |bullets| == |old(bullets)| + 1
      ensures playerX == old(playerX) && playerY == old(playerY) && speedX == old(speedX)
      ensures enemies == old(enemies) && score == old(score) && highScore == old(highScore)
      ensures paused == old(paused) && gameOver == old(gameOver)
    {
      bullets := bullets + [Pos(x + PLAYER_SIZE / 2 - BULLET_SIZE / 2, y - BULLET_SIZE)];
    }

    /** One event of the loop. `quit` is the `sys.exit()` of a window close,
        which leaves the state as it is. Left/right key-down set the speed,
        even while paused; a left/right key-up stops the player whichever
        key is still held; space fires only while fewer than MAX_BULLETS
        are live and the game runs; P toggles the pause. */
    method HandleEvent(ev: Event) returns (quit: bool)
      modifies this
      ensures quit <==> ev == Quit
      ensures ev == KeyDown(Left) ==> speedX == -PLAYER_SPEED
      ensures ev == KeyDown(Right) ==> speedX == PLAYER_SPEED
      ensures ev == KeyUp(Left) || ev == KeyUp(Right) ==> speedX == 0
      ensures ev !in {KeyDown(Left), KeyDown(Right), KeyUp(Left), KeyUp(Right)} ==> speedX == old(speedX)
      ensures bullets ==
                if ev == KeyDown(Space) && |old(bullets)| < MAX_BULLETS && !old(paused)
                then old(bullets) + [Muzzle(old(playerX), old(playerY))]
                else old(bullets)
      ensures paused == (old(paused) != (ev == KeyDown(PauseKey)))
      ensures playerX == old(playerX) && playerY == old(playerY)
      ensures enemies == old(enemies) && score == old(score) && highScore == old(highScore)
      ensures gameOver == old(gameOver)
      ensures old(Valid()) ==> Valid()
    {
      quit := false;
      match ev {
        case Quit =>
          quit := true;
        case KeyDown(k) =>
          if k == Left {
            speedX := -PLAYER_SPEED;
          } else if k == Right {
            speedX := PLAYER_SPEED;
          } else if k == Space {
            if |bullets| < 5 && !paused {
              ShootBullet(playerX, playerY);
            }
          } else if k == PauseKey {
            paused := !paused;
          }
        case KeyUp(k) =>
          if k == Left || k == Right {
            speedX := 0;
          }
        case OtherEvent =>
      }
    }

    /** The events of one frame, in order, until the first `Quit`. The
        player, the enemies, the score and the high score stay as they are;
        bullets are only added, at the end of the list. */
    method DrainEvents(events: seq<Event>) returns (quit: bool)
      modifies this
      ensures quit <==> Quit in events
      ensures playerX == old(playerX) && playerY == old(playerY)
      ensures enemies == old(enemies) && score == old(score) && highScore == old(highScore)
      ensures gameOver == old(gameOver)
      ensures |old(bullets)| <= |bullets| && bullets[..|old(bullets)|] == old(bullets)
      ensures old(Valid()) ==> Valid()
    {
      var i := 0;
      quit := false;
      while i < |events|
        invariant 0 <= i <= |events|
        invariant Quit !in events[..i]
        invariant playerX == old(playerX) && playerY == old(playerY)
        invariant enemies == old(enemies) && score == old(score) && highScore == old(highScore)
        invariant gameOver == old(gameOver)
        invariant |old(bullets)| <= |bullets| && bullets[..|old(bullets)|] == old(bullets)
        invariant old(Valid()) ==> Valid()
      {
        quit := HandleEvent(events[i]);
        if quit {
          return;
        }
        assert events[..i + 1] == events[..i] + [events[i]];
        i := i + 1;
      }
      assert events[..i] == events;
    }

    /** One frame of the main loop, with `(sx, sy)` the values drawn by
        `random.randint` for a spawned enemy. A paused frame changes
        nothing; any other frame is `Advance`. */
    method Step(sx: int, sy: int) returns (fault: Option<Fault>, saved: Option<string>)
      requires Valid() && !gameOver
      requires 0 <= sx <= ENEMY_MAX_X && SPAWN_Y_MIN <= sy <= SPAWN_Y_MAX
      modifies this
      ensures old(paused) ==> unchanged(this) && fault == None && saved == None
      ensures !old(paused) ==> Advanced(old(Snap()), Snap(), sx, sy, fault, saved)
      ensures fault != Some(EnemyMissing)
      ensures fault == None ==> Valid() && score >= old(score) && highScore >= old(highScore)
    {
      fault, saved := None, None;
      if paused {
        return;
      }
      fault, saved := Advance(sx, sy);
    }

    /** An unpaused frame: the player moves and is clamped to the screen, an
        enemy spawns while fewer than MAX_ENEMIES are live, the enemy pass
        runs and decides `gameOver`, and the bullet pass runs in the same
        frame whatever the enemy pass decided. A `ValueError` of the bullet
        pass is returned as `fault` and ends the frame; otherwise the high
        score is updated and saved when the score beats it. */
    method Advance(sx: int, sy: int) returns (fault: Option<Fault>, saved: Option<string>)
      requires Valid() && !gameOver && !paused
      requires 0 <= sx <= ENEMY_MAX_X && SPAWN_Y_MIN <= sy <= SPAWN_Y_MAX
      modifies this
      ensures Advanced(old(Snap()), Snap(), sx, sy, fault, saved)
      ensures fault != Some(EnemyMissing)
      ensures fault == None ==> Valid() && score >= old(score) && highScore >= old(highScore)
    {
      var t;
      t, fault, saved := NextState(Snapshot(playerX, playerY, speedX, enemies, bullets, score, highScore, paused, gameOver), sx, sy);
      playerX, gameOver := t.playerX, t.gameOver;
      if fault.None? {
        bullets, enemies, score, highScore := t.bullets, t.enemies, t.score, t.highScore;
      }
    }
  }
}
