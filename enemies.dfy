/** The enemy pass of one frame (game.py:139-151), stated declaratively: every
    enemy up to the first one that reaches the player moves down, those that
    leave the bottom are dropped, and the enemies after the first hit are
    neither moved nor dropped. */
module Enemies {
  import opened Collision
  import opened ListOps
  import opened World

  function Descended(e: Pos): Pos
  {
    e.(y := e.y + ENEMY_SPEED)
  }

  predicate HitsPlayer(px: int, py: int, e: Pos)
  {
    IsCollision(px, py, PLAYER_SIZE, e.x, e.y, ENEMY_SIZE)
  }

  /** Index of the first enemy that overlaps the player once moved, or |es|. */
  function FirstHit(es: seq<Pos>, px: int, py: int): (h: nat)
    ensures h <= |es|
    ensures forall k :: 0 <= k < h ==> !HitsPlayer(px, py, Descended(es[k]))
    ensures h < |es| ==> HitsPlayer(px, py, Descended(es[h]))
  {
    if |es| == 0 then 0
    else if HitsPlayer(px, py, Descended(es[0])) then 0
    else 1 + FirstHit(es[1..], px, py)
  }

  /** The enemies of `es`, each moved down, that are still on the screen. */
  function Descend(es: seq<Pos>): (r: seq<Pos>)
    ensures |r| <= |es|
    ensures forall e :: e in r ==> e.y <= SCREEN_HEIGHT
  {
    if |es| == 0 then []
    else
      var e := Descended(es[|es| - 1]);
      Descend(es[..|es| - 1]) + if e.y > SCREEN_HEIGHT then [] else [e]
  }

  /** Outcome of the enemy pass: the new enemy list and whether the player was hit. */
  datatype Descent = Descent(enemies: seq<Pos>, hit: bool)

  /** The enemy pass. The player is hit exactly when some moved enemy overlaps
      it, and the pass never adds an enemy. */
  function EnemyPass(es: seq<Pos>, px: int, py: int): (d: Descent)
    ensures d.hit <==> exists k :: 0 <= k < |es| && HitsPlayer(px, py, Descended(es[k]))
    ensures |d.enemies| <= |es|
  {
    var h := FirstHit(es, px, py);
    if h < |es| then Descent(Descend(es[..h]) + [Descended(es[h])] + es[h + 1..], true)
    else Descent(Descend(es), false)
  }

  /** Without a hit, the pass keeps each enemy that stays on screen, moved
      down by ENEMY_SPEED, and drops each one that leaves it. */
  lemma DescendKeepsOnScreen(es: seq<Pos>, e: Pos)
    ensures Descend(es + [e]) ==
            Descend(es) + if e.y + ENEMY_SPEED > SCREEN_HEIGHT then [] else [e.(y := e.y + ENEMY_SPEED)]
  {
    assert (es + [e])[..|es|] == es;
  }

  /** Enemies only move down, and exactly the moved enemies still on the
      screen are kept: an enemy is in the result if and only if it is an
      enemy of the input moved by ENEMY_SPEED and not below the screen. */
  lemma DescendMovesDown(es: seq<Pos>)
    ensures forall e :: e in Descend(es) <==>
              exists j :: 0 <= j < |es| && e == Descended(es[j]) && e.y <= SCREEN_HEIGHT
  {
    DescendFrom(es);
    DescendKeeps(es);
  }

  /** Each kept enemy is a moved enemy of the input, on the screen. */
  lemma {:induction false} DescendFrom(es: seq<Pos>)
    ensures forall e :: e in Descend(es) ==>
              exists j :: 0 <= j < |es| && e == Descended(es[j]) && e.y <= SCREEN_HEIGHT
  {
    if |es| > 0 {
      var init := es[..|es| - 1];
      var last := Descended(es[|es| - 1]);
      DescendFrom(init);
      assert Descend(es) == Descend(init) + if last.y > SCREEN_HEIGHT then [] else [last];
      forall e | e in Descend(es)
        ensures exists j :: 0 <= j < |es| && e == Descended(es[j]) && e.y <= SCREEN_HEIGHT
      {
        if e in Descend(init) {
          var j :| 0 <= j < |init| && e == Descended(init[j]) && e.y <= SCREEN_HEIGHT;
          assert es[j] == init[j];
        } else {
          assert e == last;
        }
      }
    }
  }

  /** Each enemy of the input that is still on the screen once moved is kept. */
  lemma {:induction false} DescendKeeps(es: seq<Pos>)
    ensures forall j :: 0 <= j < |es| && Descended(es[j]).y <= SCREEN_HEIGHT ==> Descended(es[j]) in Descend(es)
  {
    if |es| > 0 {
      var init := es[..|es| - 1];
      var last := Descended(es[|es| - 1]);
      DescendKeeps(init);
      assert Descend(es) == Descend(init) + if last.y > SCREEN_HEIGHT then [] else [last];
      forall j | 0 <= j < |es| && Descended(es[j]).y <= SCREEN_HEIGHT
        ensures Descended(es[j]) in Descend(es)
      {
        if j < |init| {
          assert es[j] == init[j];
        }
      }
    }
  }

  /** Enemies the pass keeps stay on the screen: the moved ones that left it
      are gone, and an enemy that reaches the player is above its bottom edge. */
  lemma EnemyPassOnScreen(es: seq<Pos>, px: int)
    requires forall e :: e in es ==> OnScreen(e)
    ensures forall e :: e in EnemyPass(es, px, PLAYER_Y).enemies ==> OnScreen(e)
  {
    var h := FirstHit(es, px, PLAYER_Y);
    var pre := if h < |es| then es[..h] else es;
    DescendMovesDown(pre);
    forall e | e in Descend(pre) ensures OnScreen(e) {
      var j :| 0 <= j < |pre| && e == Descended(pre[j]) && e.y <= SCREEN_HEIGHT;
      assert pre[j] in es;
    }
    if h < |es| {
      assert es[h] in es;
      forall e | e in es[h + 1..] ensures OnScreen(e) {
        var k :| h + 1 <= k < |es| && es[k] == e;
      }
    }
  }

  /** The visit of the enemy at `i` of the copy `es` moves the live entry
      of that enemy, which follows the moved enemies kept so far. */
  lemma VisitMoves(es: seq<Pos>, i: nat)
    requires i < |es|
    ensures var p, e := Descend(es[..i]), Descended(es[i]);
            |p| < |p + es[i..]| && (p + es[i..])[|p| := e] == p + [e] + es[i + 1..]
  {
    assert es[i..] == [es[i]] + es[i + 1..];
  }

  /** A visited enemy that reaches the player is the first hit, and the
      live list at that point is the result of the pass. */
  lemma VisitHits(es: seq<Pos>, i: nat, px: int, py: int)
    requires i < |es| && i <= FirstHit(es, px, py)
    ensures HitsPlayer(px, py, Descended(es[i])) ==>
              EnemyPass(es, px, py) == Descent(Descend(es[..i]) + [Descended(es[i])] + es[i + 1..], true)
    ensures !HitsPlayer(px, py, Descended(es[i])) ==> i + 1 <= FirstHit(es, px, py)
  {
  }

  /** A visited enemy that misses the player is removed by value when below
      the screen, and the removal takes that enemy's own entry; either way
      the live list becomes the one of the next visit, and the count of
      visited enemies still live grows by one exactly when it stays. */
  lemma VisitCulls(es: seq<Pos>, i: nat)
    requires i < |es|
    ensures var p, e := Descend(es[..i]), Descended(es[i]);
            && (e.y > SCREEN_HEIGHT ==> RemoveFirst(p + [e] + es[i + 1..], e) == Some(Descend(es[..i + 1]) + es[i + 1..]))
            && (e.y <= SCREEN_HEIGHT ==> p + [e] + es[i + 1..] == Descend(es[..i + 1]) + es[i + 1..])
            && |Descend(es[..i + 1])| == |p| + if e.y > SCREEN_HEIGHT then 0 else 1
  {
    var p, e := Descend(es[..i]), Descended(es[i]);
    DescendKeepsOnScreen(es[..i], es[i]);
    assert es[..i + 1] == es[..i] + [es[i]];
    if e.y > SCREEN_HEIGHT {
      assert p + [] == p;
      RemoveFirstAfter(p, e, es[i + 1..]);
    }
  }

  /** A loop that visits every enemy without a hit leaves `Descend(es)`. */
  lemma PassWithoutHit(es: seq<Pos>, px: int, py: int)
    requires FirstHit(es, px, py) >= |es|
    ensures EnemyPass(es, px, py) == Descent(Descend(es[..|es|]) + es[|es|..], false)
  {
    assert es[..|es|] == es;
    assert es[|es|..] == [];
  }

  /** The enemy loop of a frame (`for enemy in enemies[:]`), on the live list
      `es` and the player at `(px, py)`: each enemy is moved down in place,
      the first one that reaches the player stops the loop, and one that
      left the screen is removed by value. It computes exactly `EnemyPass`. */
  method AdvanceEnemies(es: seq<Pos>, px: int, py: int) returns (live: seq<Pos>, hit: bool)
    ensures Descent(live, hit) == EnemyPass(es, px, py)
  {
    var copy := es;
    live := es;
    hit := false;
    ghost var h := FirstHit(copy, px, py);
    var i, kept := 0, 0;
    while i < |copy|
      invariant 0 <= i <= |copy| && i <= h
      invariant live == Descend(copy[..i]) + copy[i..]
      invariant kept == |Descend(copy[..i])|
    {
      VisitMoves(copy, i);
      VisitHits(copy, i, px, py);
      VisitCulls(copy, i);
      // The visited enemy sits right after the visited ones still live.
      var e := Descended(copy[i]);
      live := live[kept := e];
      if HitsPlayer(px, py, e) {
        hit := true;
        return;
      }
      if e.y > SCREEN_HEIGHT {
        live := RemoveFirst(live, e).value;
      } else {
        kept := kept + 1;
      }
      i := i + 1;
    }
    PassWithoutHit(copy, px, py);
  }
}
